/**
 The per-process cache of user profiles (src/wolfpaw/persona/builder.py:66-103), with loads that are
 suspended at the database, profile writes by this or any other process, and the invalidation that
 follows a PATCH (src/wolfpaw/persona/routes.py:88-103).

 One step is what runs between two awaits. Each step has a time, which never goes back.
 */
module ProfileCache {
  import opened Prelude

  const PROFILE_TTL_SECONDS := 30.0
  const DEFAULT_PROFILE: Profile := ""

  type Profile = string

  datatype Cached = Cached(profile: Profile, expires: real)

  /**
   A call that missed is loading, then holds what it read. `read` is the number of the step that read the
   profile from the table, and `done` that of the step in which the call returned it.
   */
  datatype Stage = Loading | Holding(profile: Profile, read: nat) | Returned(profile: Profile, read: nat, done: nat) | Failed

  datatype Call = Call(user: int, began: real, stage: Stage)

  /** `source` notes which step read each cached profile; the program does not keep it. */
  datatype State = State(
    cache: map<int, Cached>,
    source: map<int, nat>,
    stored: map<int, Profile>,
    calls: map<int, Call>,
    clock: real,
    steps: nat)

  datatype Event =
    | Begin(call: int, user: int)
    | Read(call: int)
    | Finish(call: int)
    | Fail(call: int)
    | Write(user: int, profile: Profile)
    | Invalidate(user: int)

  datatype Action = At(time: real, event: Event)

  function StoredFor(s: State, user: int): Profile {
    if user in s.stored then s.stored[user] else DEFAULT_PROFILE
  }

  /** The cache answers: there is an entry, and it has not expired. */
  predicate Hits(cache: map<int, Cached>, user: int, now: real) {
    user in cache && cache[user].expires > now
  }

  /** The cache with what a load that began then brought. */
  function Filled(cache: map<int, Cached>, user: int, profile: Profile, began: real): map<int, Cached> {
    cache[user := Cached(profile, began + PROFILE_TTL_SECONDS)]
  }

  function Source(s: State, user: int): nat {
    if user in s.source then s.source[user] else 0
  }

  predicate Enabled(s: State, a: Action) {
    && s.clock <= a.time
    && match a.event
       case Begin(c, _) => c !in s.calls
       case Read(c) => c in s.calls && s.calls[c].stage.Loading?
       case Finish(c) => c in s.calls && s.calls[c].stage.Holding?
       case Fail(c) => c in s.calls && s.calls[c].stage.Loading?
       case Write(_, _) => true
       case Invalidate(_) => true
  }

  function Happen(s: State, e: Event, now: real): State
    requires Enabled(s, At(now, e))
  {
    match e
    case Begin(c, u) =>
      var stage := if Hits(s.cache, u, now) then Returned(s.cache[u].profile, Source(s, u), s.steps) else Loading;
      s.(calls := s.calls[c := Call(u, now, stage)])
    case Read(c) =>
      var call := s.calls[c];
      s.(calls := s.calls[c := call.(stage := Holding(StoredFor(s, call.user), s.steps))])
    case Finish(c) =>
      var call := s.calls[c];
      s.(cache := Filled(s.cache, call.user, call.stage.profile, call.began),
         source := s.source[call.user := call.stage.read],
         calls := s.calls[c := call.(stage := Returned(call.stage.profile, call.stage.read, s.steps))])
    case Fail(c) => s.(calls := s.calls[c := s.calls[c].(stage := Failed)])
    case Write(u, p) => s.(stored := s.stored[u := p])
    case Invalidate(u) => s.(cache := s.cache - {u}, source := s.source - {u})
  }

  function Apply(s: State, a: Action): State
    requires Enabled(s, a)
  {
    Happen(s, a.event, a.time).(clock := a.time, steps := s.steps + 1)
  }

  function After(start: State, run: seq<Action>): Option<State> {
    if run == [] then Some(start)
    else
      var last := |run| - 1;
      match After(start, run[..last])
      case None => None
      case Some(s) => if Enabled(s, run[last]) then Some(Apply(s, run[last])) else None
  }

  function Started(stored: map<int, Profile>, clock: real): State {
    State(map[], map[], stored, map[], clock, 0)
  }

  // ---- where a profile came from ----

  /** At step `read` of the run, no earlier than `since`, the profile stored for the user was `p`. */
  predicate StoredThen(start: State, run: seq<Action>, user: int, p: Profile, read: nat, since: real) {
    && read < |run|
    && run[read].time >= since
    && After(start, run[..read]).Some?
    && StoredFor(After(start, run[..read]).value, user) == p
  }

  ghost predicate Inv(start: State, run: seq<Action>, s: State) {
    && s.steps == |run|
    && s.cache.Keys == s.source.Keys
    && (forall u :: u in s.cache ==>
          StoredThen(start, run, u, s.cache[u].profile, s.source[u], s.cache[u].expires - PROFILE_TTL_SECONDS))
    && (forall c :: c in s.calls ==> CallOk(start, run, c, s.calls[c]) && s.calls[c].began <= s.clock)
  }

  /** The step in which a call returns: its beginning when it hits, else its end. */
  predicate Returns(a: Action, c: int) {
    a.event == Finish(c) || (a.event.Begin? && a.event.call == c)
  }

  predicate CallOk(start: State, run: seq<Action>, c: int, call: Call) {
    match call.stage
    case Holding(p, read) => StoredThen(start, run, call.user, p, read, call.began)
    case Returned(p, read, done) =>
      && StoredThen(start, run, call.user, p, read, call.began - PROFILE_TTL_SECONDS)
      && run[read].time > call.began - PROFILE_TTL_SECONDS
      && read < done < |run| && Returns(run[done], c)
    case _ => true
  }

  lemma StoredThenKeeps(start: State, run: seq<Action>, a: Action, user: int, p: Profile, read: nat, since: real)
    requires StoredThen(start, run, user, p, read, since)
    ensures StoredThen(start, run + [a], user, p, read, since)
  {
    assert (run + [a])[..read] == run[..read];
  }

  lemma CallOkKeeps(start: State, run: seq<Action>, a: Action, c: int, call: Call)
    requires CallOk(start, run, c, call)
    ensures CallOk(start, run + [a], c, call)
  {
    hide StoredThen;
    match call.stage
    case Holding(p, read) => StoredThenKeeps(start, run, a, call.user, p, read, call.began);
    case Returned(p, read, done) =>
      assert (run + [a])[done] == run[done];
      assert read < |run| by { StoredThenInRange(start, run, call.user, p, read, call.began - PROFILE_TTL_SECONDS); }
      StoredThenKeeps(start, run, a, call.user, p, read, call.began - PROFILE_TTL_SECONDS);
    case _ =>
  }

  lemma StoredThenInRange(start: State, run: seq<Action>, user: int, p: Profile, read: nat, since: real)
    requires StoredThen(start, run, user, p, read, since)
    ensures read < |run|
  {}

  lemma {:induction false} AfterSnoc(start: State, run: seq<Action>, a: Action)
    requires After(start, run).Some? && Enabled(After(start, run).value, a)
    ensures After(start, run + [a]) == Some(Apply(After(start, run).value, a))
  {
    assert (run + [a])[..|run|] == run;
  }

  lemma {:induction false} StepKeeps(start: State, run: seq<Action>, s: State, a: Action)
    requires After(start, run) == Some(s) && Inv(start, run, s) && Enabled(s, a)
    ensures Inv(start, run + [a], Apply(s, a))
  {
    var t, more := Apply(s, a), run + [a];
    forall u | u in t.cache
      ensures StoredThen(start, more, u, t.cache[u].profile, t.source[u], t.cache[u].expires - PROFILE_TTL_SECONDS)
    {
      CacheStep(start, run, s, a, u);
    }
    forall c | c in t.calls ensures CallOk(start, more, c, t.calls[c]) && t.calls[c].began <= t.clock {
      CallStep(start, run, s, a, c);
    }
  }

  lemma {:induction false} CacheStep(start: State, run: seq<Action>, s: State, a: Action, u: int)
    requires After(start, run) == Some(s) && Inv(start, run, s) && Enabled(s, a) && u in Apply(s, a).cache
    ensures var t := Apply(s, a);
            && u in t.source
            && StoredThen(start, run + [a], u, t.cache[u].profile, t.source[u], t.cache[u].expires - PROFILE_TTL_SECONDS)
  {
    if a.event.Finish? && s.calls[a.event.call].user == u {
      var call := s.calls[a.event.call];
      assert CallOk(start, run, a.event.call, call);
      StoredThenKeeps(start, run, a, u, call.stage.profile, call.stage.read, call.began);
    } else {
      StoredThenKeeps(start, run, a, u, s.cache[u].profile, s.source[u], s.cache[u].expires - PROFILE_TTL_SECONDS);
    }
  }

  lemma {:induction false} CallStep(start: State, run: seq<Action>, s: State, a: Action, c: int)
    requires After(start, run) == Some(s) && Inv(start, run, s) && Enabled(s, a) && c in Apply(s, a).calls
    ensures var t := Apply(s, a); CallOk(start, run + [a], c, t.calls[c]) && t.calls[c].began <= t.clock
  {
    var more := run + [a];
    if c in s.calls {
      var call := s.calls[c];
      CallOkKeeps(start, run, a, c, call);
      if a.event == Read(c) {
        assert more[..|run|] == run;
        assert StoredThen(start, more, call.user, StoredFor(s, call.user), |run|, call.began);
      }
    } else {
      var u := a.event.user;
      if Hits(s.cache, u, a.time) {
        StoredThenKeeps(start, run, a, u, s.cache[u].profile, s.source[u], s.cache[u].expires - PROFILE_TTL_SECONDS);
      }
    }
  }

  lemma {:induction false} RunKeeps(start: State, run: seq<Action>)
    requires start.cache == map[] && start.source == map[] && start.calls == map[] && start.steps == 0
    requires After(start, run).Some?
    ensures Inv(start, run, After(start, run).value)
  {
    if run != [] {
      var last := |run| - 1;
      RunKeeps(start, run[..last]);
      StepKeeps(start, run[..last], After(start, run[..last]).value, run[last]);
      assert run == run[..last] + [run[last]];
    }
  }

  /**
   Over any interleaving of loads, writes by any process and invalidations: a profile that a call returned
   was the stored one at some step of the run before the one in which the call returned, and less than 30
   seconds before the call began or later.
   */
  lemma {:induction false} ReturnsRecent(stored: map<int, Profile>, clock: real, run: seq<Action>, s: State, c: int)
    requires After(Started(stored, clock), run) == Some(s)
    requires c in s.calls && s.calls[c].stage.Returned?
    ensures s.calls[c].stage.done < |run| && Returns(run[s.calls[c].stage.done], c)
    ensures exists k: nat ::
              && k < s.calls[c].stage.done && run[k].time > s.calls[c].began - PROFILE_TTL_SECONDS
              && After(Started(stored, clock), run[..k]).Some?
              && StoredFor(After(Started(stored, clock), run[..k]).value, s.calls[c].user) == s.calls[c].stage.profile
  {
    RunKeeps(Started(stored, clock), run);
    assert CallOk(Started(stored, clock), run, c, s.calls[c]);
    var k := s.calls[c].stage.read;
    assert StoredThen(Started(stored, clock), run, s.calls[c].user, s.calls[c].stage.profile, k, s.calls[c].began - PROFILE_TTL_SECONDS);
  }

  // ---- after an invalidation ----

  /** A load that holds an old profile and would still cache it for some time. */
  predicate HoldsStale(s: State, c: int, user: int, now: real) {
    && c in s.calls && s.calls[c].user == user && s.calls[c].stage.Holding?
    && s.calls[c].began + PROFILE_TTL_SECONDS > now
  }

  /** No entry that can still be hit, and no call that is not an earlier one, has its profile from before step `mark`. */
  ghost predicate Fresh(s: State, earlier: set<int>, user: int, mark: nat, now: real) {
    && now <= s.clock && mark <= s.steps
    && s.cache.Keys == s.source.Keys
    && (user in s.cache ==> s.source[user] >= mark || s.cache[user].expires <= now)
    && (forall c :: c in s.calls && s.calls[c].user == user ==> FreshCall(s.calls[c], c in earlier, mark, now))
  }

  predicate FreshCall(call: Call, earlier: bool, mark: nat, now: real) {
    && (earlier || call.began >= now)
    && match call.stage
       case Holding(_, read) => read >= mark || call.began + PROFILE_TTL_SECONDS <= now
       case Returned(_, read, _) => earlier || read >= mark
       case _ => true
  }

  lemma FreshStep(s: State, a: Action, earlier: set<int>, user: int, mark: nat, now: real)
    requires Fresh(s, earlier, user, mark, now) && Enabled(s, a)
    requires a.event.Begin? ==> a.event.call !in earlier
    ensures Fresh(Apply(s, a), earlier, user, mark, now)
  {
    var t := Apply(s, a);
    forall c | c in t.calls && t.calls[c].user == user ensures FreshCall(t.calls[c], c in earlier, mark, now) {
      if c in s.calls { assert FreshCall(s.calls[c], c in earlier, mark, now); }
    }
    if a.event.Finish? && s.calls[a.event.call].user == user {
      assert FreshCall(s.calls[a.event.call], a.event.call in earlier, mark, now);
    }
  }

  lemma CallsStep(s: State, a: Action)
    requires Enabled(s, a)
    ensures s.calls.Keys <= Apply(s, a).calls.Keys
  {}

  lemma {:induction false} CallsStay(start: State, run: seq<Action>, k: nat)
    requires k <= |run| && After(start, run).Some?
    ensures After(start, run[..k]).Some? && After(start, run[..k]).value.calls.Keys <= After(start, run).value.calls.Keys
  {
    if k == |run| {
      assert run[..k] == run;
    } else {
      var last := |run| - 1;
      CallsStay(start, run[..last], k);
      assert run[..last][..k] == run[..k];
      CallsStep(After(start, run[..last]).value, run[last]);
      hide Enabled, Apply;
    }
  }

  lemma {:induction false} FreshRun(start: State, run: seq<Action>, k: nat, user: int, now: real)
    requires k <= |run| && After(start, run).Some? && After(start, run[..k]).Some?
    requires var s := After(start, run[..k]).value; Fresh(s, s.calls.Keys, user, s.steps, now)
    ensures var s := After(start, run[..k]).value; Fresh(After(start, run).value, s.calls.Keys, user, s.steps, now)
  {
    if k == |run| {
      assert run[..k] == run;
    } else {
      var last := |run| - 1;
      assert run[..last][..k] == run[..k];
      FreshRun(start, run[..last], k, user, now);
      CallsStay(start, run[..last], k);
      var s := After(start, run[..k]).value;
      FreshStep(After(start, run[..last]).value, run[last], s.calls.Keys, user, s.steps, now);
    }
  }

  lemma {:induction false} InvalidateFresh(start: State, run: seq<Action>, s: State, user: int, now: real)
    requires After(start, run) == Some(s) && Inv(start, run, s) && Enabled(s, At(now, Invalidate(user)))
    requires forall c :: !HoldsStale(s, c, user, now)
    ensures var t := Apply(s, At(now, Invalidate(user))); Fresh(t, t.calls.Keys, user, t.steps, now)
  {
    var t := Apply(s, At(now, Invalidate(user)));
    forall c | c in t.calls && t.calls[c].user == user ensures FreshCall(t.calls[c], true, t.steps, now) {
      assert !HoldsStale(s, c, user, now);
    }
  }

  /**
   After an invalidation with no load in hand that could still cache what it read before: in every
   continuation, a call of that user that begins later returns a profile read after the invalidation.
   */
  lemma {:induction false} FreshAfterInvalidate(stored: map<int, Profile>, clock: real, run: seq<Action>, k: nat, user: int, c: int)
    requires k < |run| && After(Started(stored, clock), run).Some? && run[k].event == Invalidate(user)
    requires After(Started(stored, clock), run[..k]).Some?
    requires forall d :: !HoldsStale(After(Started(stored, clock), run[..k]).value, d, user, run[k].time)
    requires var s := After(Started(stored, clock), run).value;
             && c in s.calls && s.calls[c].user == user && s.calls[c].stage.Returned?
             && c !in After(Started(stored, clock), run[..k]).value.calls
    ensures var call := After(Started(stored, clock), run).value.calls[c];
            && k < call.stage.read < |run|
            && After(Started(stored, clock), run[..call.stage.read]).Some?
            && StoredFor(After(Started(stored, clock), run[..call.stage.read]).value, user) == call.stage.profile
  {
    var start := Started(stored, clock);
    var before := After(start, run[..k]).value;
    assert run[..k + 1] == run[..k] + [run[k]];
    CallsStay(start, run, k + 1);
    assert run[..k + 1][..k] == run[..k];
    RunKeeps(start, run[..k]);
    InvalidateFresh(start, run[..k], before, user, run[k].time);
    FreshRun(start, run, k + 1, user, run[k].time);
    RunKeeps(start, run);
    var s := After(start, run).value;
    assert FreshCall(s.calls[c], false, k + 1, run[k].time);
    assert CallOk(start, run, c, s.calls[c]);
  }

  /**
   The condition is exact: if some load does hold a profile that it may still cache, then the invalidation
   can be followed by that load's return and a call that hits, and returns that profile, at the same time.
   */
  lemma {:induction false} StaleAfterInvalidate(start: State, run: seq<Action>, s: State, user: int, now: real, c: int, d: int)
    requires After(start, run) == Some(s) && s.clock <= now && HoldsStale(s, c, user, now) && d !in s.calls
    ensures var more := run + [At(now, Invalidate(user))] + [At(now, Finish(c))] + [At(now, Begin(d, user))];
            && After(start, more).Some?
            && After(start, more).value.stored == s.stored
            && d in After(start, more).value.calls
            && After(start, more).value.calls[d].stage == Returned(s.calls[c].stage.profile, s.calls[c].stage.read, s.steps + 2)
  {
    var a, b, e := At(now, Invalidate(user)), At(now, Finish(c)), At(now, Begin(d, user));
    var t := Apply(s, a);
    AfterSnoc(start, run, a);
    assert t.calls == s.calls;
    var u := Apply(t, b);
    AfterSnoc(start, run + [a], b);
    AfterSnoc(start, run + [a] + [b], e);
  }

  /** A PATCH while a load is under way: the old profile is cached again, and served after the invalidation. */
  lemma OldProfileServed(user: int)
    ensures var run := [At(0.0, Begin(1, user)), At(0.0, Read(1)), At(1.0, Write(user, "new"))]
                       + [At(1.0, Invalidate(user))] + [At(1.0, Finish(1))] + [At(1.0, Begin(2, user))];
            var start := Started(map[user := "old"], 0.0);
            && After(start, run).Some?
            && StoredFor(After(start, run).value, user) == "new"
            && 2 in After(start, run).value.calls
            && After(start, run).value.calls[2].stage.Returned?
            && After(start, run).value.calls[2].stage.profile == "old"
  {
    var start := Started(map[user := "old"], 0.0);
    var a, b, w := At(0.0, Begin(1, user)), At(0.0, Read(1)), At(1.0, Write(user, "new"));
    var one := Apply(start, a);
    assert After(start, []) == Some(start) && [] + [a] == [a] && [a] + [b] == [a, b] && [a, b] + [w] == [a, b, w];
    AfterSnoc(start, [], a);
    AfterSnoc(start, [a], b);
    var two := Apply(one, b);
    AfterSnoc(start, [a, b], w);
    var s := Apply(two, w);
    StaleAfterInvalidate(start, [a, b, w], s, user, 1.0, 1, 2);
  }

  // ---- the dictionary ----

  class Cache {
    var entries: map<int, Cached>

    constructor ()
      ensures entries == map[]
    {
      entries := map[];
    }

    /** The part of a load before its await: a hit, or nothing. */
    method Look(user: int, now: real) returns (hit: Option<Profile>)
      ensures hit == if Hits(entries, user, now) then Some(entries[user].profile) else None
    {
      if user in entries && entries[user].expires > now {
        hit := Some(entries[user].profile);
      } else {
        hit := None;
      }
    }

    /** The part after it. */
    method Fill(user: int, began: real, loaded: Option<Profile>) returns (profile: Profile)
      modifies this
      ensures profile == if loaded.Some? then loaded.value else DEFAULT_PROFILE
      ensures entries == Filled(old(entries), user, profile, began)
    {
      profile := if loaded.Some? then loaded.value else DEFAULT_PROFILE;
      entries := entries[user := Cached(profile, began + PROFILE_TTL_SECONDS)];
    }

    method Invalidate(user: int)
      modifies this
      ensures forall now :: !Hits(entries, user, now)
      ensures forall u, now :: u != user ==> (Hits(entries, u, now) <==> Hits(old(entries), u, now))
      ensures forall u :: u != user ==> (u in entries <==> u in old(entries)) && (u in entries ==> entries[u] == old(entries)[u])
    {
      entries := entries - {user};
    }

    /** An undisturbed load: the cached profile until it expires, else the stored one, kept for 30 seconds. */
    method Load(user: int, now: real, stored: Option<Profile>) returns (profile: Profile)
      modifies this
      ensures Hits(old(entries), user, now) ==> entries == old(entries) && profile == old(entries)[user].profile
      ensures !Hits(old(entries), user, now) ==> profile == if stored.Some? then stored.value else DEFAULT_PROFILE
      ensures Hits(entries, user, now) && entries[user].profile == profile
      ensures forall u :: u != user ==> (u in entries <==> u in old(entries)) && (u in entries ==> entries[u] == old(entries)[u])
    {
      var hit := Look(user, now);
      if hit.Some? { return hit.value; }
      profile := Fill(user, now, stored);
    }
  }
}
