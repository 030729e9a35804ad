/**
 The sliding-window limiter in front of Notion's API (src/wolfpaw/integrations/notion/client.py:131-154):
 three requests in any second, kept in a deque of the grants of the last second.

 The lock makes calls one after another. Time is a real read from a clock that never goes back; a call reads
 it on entry, after its sleep if it sleeps, and when it is granted. The environment picks the readings. A call
 cancelled in its sleep is never granted.
 */
module RateLimiter {
  import opened Prelude

  const RATE_LIMIT_PER_SECOND: nat := 3

  type Window = seq<real>

  /** The `popleft` loop. */
  function Expired(window: Window, now: real): Window {
    if window != [] && now - window[0] >= 1.0 then Expired(window[1..], now) else window
  }

  /** The readings of one call. */
  datatype Call = Call(entered: real, woken: real, granted: real)

  predicate InOrder(clock: real, c: Call) {
    clock <= c.entered <= c.woken <= c.granted
  }

  predicate Sleeps(window: Window, c: Call) {
    |Expired(window, c.entered)| >= RATE_LIMIT_PER_SECOND
  }

  /** The sleep ended before the time it was given. */
  predicate WakesEarly(window: Window, c: Call) {
    && Sleeps(window, c)
    && c.woken < c.entered + (1.0 - (c.entered - Expired(window, c.entered)[0]))
  }

  function Granted(window: Window, c: Call): Window {
    var w := Expired(window, c.entered);
    (if Sleeps(window, c) then Expired(w, c.woken) else w) + [c.granted]
  }

  // ---- the deque ----

  class Limiter {
    var window: Window

    constructor ()
      ensures window == []
    {
      window := [];
    }

    method Expire(now: real)
      modifies this
      ensures window == Expired(old(window), now)
    {
      while window != [] && now - window[0] >= 1.0
        invariant Expired(window, now) == Expired(old(window), now)
        decreases |window|
      {
        window := window[1..];
      }
    }

    /** One call; `wait` is how long it asked to sleep, and it never asks for nothing. */
    method RateLimit(c: Call) returns (slept: bool, wait: real)
      modifies this
      ensures window == Granted(old(window), c)
      ensures slept == Sleeps(old(window), c) && (slept ==> wait > 0.0)
      ensures slept && c.woken < c.entered + wait <==> WakesEarly(old(window), c)
    {
      slept, wait := false, 0.0;
      ExpiredExact(window, c.entered);
      Expire(c.entered);
      if |window| >= RATE_LIMIT_PER_SECOND {
        wait := 1.0 - (c.entered - window[0]);
        if wait > 0.0 {
          slept := true;
          Expire(c.woken);
        }
      }
      window := window + [c.granted];
    }

    /** A call that is cancelled in its sleep: what had expired on entry is dropped, and nothing is added. */
    method RateLimitCancelled(entered: real)
      requires |Expired(window, entered)| >= RATE_LIMIT_PER_SECOND
      modifies this
      ensures window == Expired(old(window), entered)
      ensures |window| >= RATE_LIMIT_PER_SECOND && entered < window[0] + 1.0
    {
      ExpiredExact(window, entered);
      Expire(entered);
    }
  }

  /** The window loses its longest front of grants a second old, and nothing else. */
  lemma {:induction false} ExpiredExact(window: Window, now: real)
    ensures var w := Expired(window, now);
            && |w| <= |window| && w == window[|window| - |w|..]
            && (forall i :: 0 <= i < |window| - |w| ==> window[i] + 1.0 <= now)
            && (w != [] ==> now < w[0] + 1.0)
  {
    if window != [] && now - window[0] >= 1.0 {
      ExpiredExact(window[1..], now);
      var w := Expired(window, now);
      forall i | 0 <= i < |window| - |w| ensures window[i] + 1.0 <= now {
        if i > 0 { assert window[i] == window[1..][i - 1]; }
      }
    }
  }

  // ---- every run ----

  datatype State = State(window: Window, grants: seq<real>, clock: real, early: nat)

  /** A call that is granted, or one that is cancelled at some time of its sleep. */
  datatype Attempt = Runs(call: Call) | Cancelled(entered: real, at: real)

  predicate Possible(s: State, a: Attempt) {
    match a
    case Runs(c) => InOrder(s.clock, c)
    case Cancelled(entered, at) => s.clock <= entered <= at && |Expired(s.window, entered)| >= RATE_LIMIT_PER_SECOND
  }

  function Apply(s: State, a: Attempt): State {
    match a
    case Runs(c) =>
      State(Granted(s.window, c), s.grants + [c.granted], c.granted, s.early + if WakesEarly(s.window, c) then 1 else 0)
    case Cancelled(entered, at) => s.(window := Expired(s.window, entered), clock := at)
  }

  /** The state after a run of calls, when their clock readings are in order. */
  function After(start: real, calls: seq<Attempt>): Option<State> {
    if calls == [] then Some(State([], [], start, 0))
    else
      var last := |calls| - 1;
      match After(start, calls[..last])
      case None => None
      case Some(s) => if Possible(s, calls[last]) then Some(Apply(s, calls[last])) else None
  }

  predicate Ascending(s: seq<real>) {
    forall i, j :: 0 <= i < j < |s| ==> s[i] <= s[j]
  }

  predicate NoneAfter(s: seq<real>, now: real) {
    forall i :: 0 <= i < |s| ==> s[i] <= now
  }

  predicate IsSuffix(window: Window, grants: seq<real>) {
    |window| <= |grants| && window == grants[|grants| - |window|..]
  }

  /** Every grant that is no longer in the deque is a second old. */
  predicate OthersOld(window: Window, grants: seq<real>, now: real) {
    forall i :: 0 <= i < |grants| - |window| ==> grants[i] + 1.0 <= now
  }

  predicate Spaced(grants: seq<real>, gap: nat) {
    forall i :: 0 <= i && i + gap < |grants| ==> grants[i] + 1.0 <= grants[i + gap]
  }

  predicate Inv(s: State) {
    && IsSuffix(s.window, s.grants)
    && OthersOld(s.window, s.grants, s.clock)
    && Ascending(s.grants)
    && NoneAfter(s.grants, s.clock)
    && |s.window| <= RATE_LIMIT_PER_SECOND + s.early
    && Spaced(s.grants, RATE_LIMIT_PER_SECOND + s.early)
  }

  /** A call leaves at most one grant more than before, and without an early wake no more than three or as many. */
  lemma {:induction false} GrantedSize(window: Window, c: Call)
    requires c.entered <= c.woken
    ensures |Granted(window, c)| <= |window| + 1
    ensures |Granted(window, c)| <= |window| || |Granted(window, c)| <= RATE_LIMIT_PER_SECOND || WakesEarly(window, c)
    ensures WakesEarly(window, c) ==> |Granted(window, c)| == |Expired(window, c.entered)| + 1
  {
    var w := Expired(window, c.entered);
    ExpiredExact(window, c.entered);
    ExpiredExact(w, c.woken);
  }

  /**
   From a deque within the limit, one call keeps it there if and only if the call does not wake early.
   */
  lemma LimitKeptExactly(window: Window, c: Call)
    requires |window| <= RATE_LIMIT_PER_SECOND && c.entered <= c.woken
    ensures |Granted(window, c)| <= RATE_LIMIT_PER_SECOND <==> !WakesEarly(window, c)
  {
    GrantedSize(window, c);
  }

  /** `next` is the deque after one call granted at `x`: a front is gone, grown a second old, and `x` is new. */
  predicate Follows(window: Window, next: Window, x: real) {
    && 0 < |next| <= |window| + 1
    && next == window[|window| + 1 - |next|..] + [x]
    && forall i :: 0 <= i < |window| + 1 - |next| ==> window[i] + 1.0 <= x
  }

  lemma GrantedExact(window: Window, c: Call)
    requires c.entered <= c.woken <= c.granted
    ensures Follows(window, Granted(window, c), c.granted)
  {
    var w := Expired(window, c.entered);
    ExpiredExact(window, c.entered);
    ExpiredExact(w, c.woken);
    hide Expired;
    var d := |window| - |w|;
    var u := if Sleeps(window, c) then Expired(w, c.woken) else w;
    assert u == window[|window| - |u|..];
    forall i | 0 <= i < |window| - |u| ensures window[i] + 1.0 <= c.granted {
      if i >= d { assert window[i] == w[i - d]; }
    }
  }

  lemma SuffixStep(grants: seq<real>, window: Window, next: Window, x: real)
    requires IsSuffix(window, grants)
    requires Follows(window, next, x)
    ensures IsSuffix(next, grants + [x])
  {}

  lemma DroppedAreOld(grants: seq<real>, window: Window, next: Window, clock: real, x: real)
    requires IsSuffix(window, grants) && OthersOld(window, grants, clock) && clock <= x
    requires Follows(window, next, x)
    ensures OthersOld(next, grants + [x], x)
  {
    var k := |grants| - |window|;
    forall i | 0 <= i < |grants| + 1 - |next| ensures (grants + [x])[i] + 1.0 <= x {
      if i >= k { assert grants[i] == window[i - k]; }
    }
  }

  /** A grant that far back has left the deque, so it is old enough. */
  lemma SpacedStep(grants: seq<real>, next: Window, x: real, gap: nat, wider: nat)
    requires Ascending(grants) && Spaced(grants, gap) && gap <= wider
    requires |next| <= wider && OthersOld(next, grants + [x], x)
    ensures Spaced(grants + [x], wider)
  {
    var all := grants + [x];
    forall i | 0 <= i && i + wider < |all| ensures all[i] + 1.0 <= all[i + wider] {
      if i + wider < |grants| { assert grants[i + gap] <= grants[i + wider]; }
    }
  }

  lemma AppendOrdered(grants: seq<real>, clock: real, x: real)
    requires Ascending(grants) && NoneAfter(grants, clock) && clock <= x
    ensures Ascending(grants + [x]) && NoneAfter(grants + [x], x)
  {}

  /** A cancelled call leaves a shorter deque of the same grants. */
  lemma CancelledKeeps(s: State, entered: real, at: real)
    requires Inv(s) && Possible(s, Cancelled(entered, at))
    ensures Inv(Apply(s, Cancelled(entered, at)))
  {
    var w, k := Expired(s.window, entered), |s.grants| - |s.window|;
    ExpiredExact(s.window, entered);
    hide Expired, Spaced, Ascending;
    assert IsSuffix(w, s.grants);
    forall i | 0 <= i < |s.grants| - |w| ensures s.grants[i] + 1.0 <= at {
      if i >= k { assert s.grants[i] == s.window[i - k]; }
    }
  }

  lemma StepKeeps(s: State, a: Attempt)
    requires Inv(s) && Possible(s, a)
    ensures Inv(Apply(s, a))
  {
    hide Inv, Apply, Possible;
    match a
    case Runs(c) => CallKeeps(s, c);
    case Cancelled(entered, at) => CancelledKeeps(s, entered, at);
  }

  lemma CallKeeps(s: State, c: Call)
    requires Inv(s) && Possible(s, Runs(c))
    ensures Inv(Apply(s, Runs(c)))
  {
    hide Granted, WakesEarly, IsSuffix, OthersOld, Spaced, Follows, Ascending, NoneAfter;
    var next, gap := Granted(s.window, c), RATE_LIMIT_PER_SECOND + s.early;
    GrantedExact(s.window, c);
    GrantedSize(s.window, c);
    SuffixStep(s.grants, s.window, next, c.granted);
    DroppedAreOld(s.grants, s.window, next, s.clock, c.granted);
    SpacedStep(s.grants, next, c.granted, gap, if WakesEarly(s.window, c) then gap + 1 else gap);
    AppendOrdered(s.grants, s.clock, c.granted);
  }

  lemma {:induction false} RunKeeps(start: real, calls: seq<Attempt>)
    requires After(start, calls).Some?
    ensures Inv(After(start, calls).value)
  {
    if calls != [] {
      var last := |calls| - 1;
      RunKeeps(start, calls[..last]);
      StepKeeps(After(start, calls[..last]).value, calls[last]);
    }
  }

  /** How many grants fell in the second from `x` on, its end excluded. */
  function GrantsIn(grants: seq<real>, x: real): nat {
    if grants == [] then 0
    else
      var last := |grants| - 1;
      GrantsIn(grants[..last], x) + if x <= grants[last] < x + 1.0 then 1 else 0
  }

  lemma {:induction false} GrantsBefore(grants: seq<real>, x: real)
    requires forall i :: 0 <= i < |grants| ==> grants[i] < x
    ensures GrantsIn(grants, x) == 0
  {
    if grants != [] { GrantsBefore(grants[..|grants| - 1], x); }
  }

  lemma {:induction false} GrantsFrom(grants: seq<real>, x: real, k: nat)
    requires k <= |grants|
    ensures GrantsIn(grants, x) <= GrantsIn(grants[..k], x) + |grants| - k
  {
    if k == |grants| {
      assert grants[..k] == grants;
    } else {
      var last := |grants| - 1;
      GrantsFrom(grants[..last], x, k);
      assert grants[..last][..k] == grants[..k];
    }
  }

  lemma {:induction false} SpacedIsBounded(grants: seq<real>, gap: nat, x: real)
    requires Ascending(grants)
    requires Spaced(grants, gap)
    ensures GrantsIn(grants, x) <= gap
  {
    if grants != [] {
      var last := |grants| - 1;
      if x <= grants[last] < x + 1.0 {
        var k := if |grants| < gap then 0 else |grants| - gap;
        forall i | 0 <= i < k ensures grants[i] < x {
          assert grants[i] + 1.0 <= grants[i + gap] <= grants[last];
        }
        GrantsBefore(grants[..k], x);
        GrantsFrom(grants, x, k);
      } else {
        SpacedIsBounded(grants[..last], gap, x);
      }
    }
  }

  /**
   The promise, over any sequence of calls, granted or cancelled, with what each early wake costs: the deque is sorted, a suffix of
   the grants and no longer than three and one per early wake; a grant and the third after it (later by one
   per early wake) are a second apart; so no second holds more grants than that. If no sleep ends early,
   that is three requests a second.
   */
  lemma {:induction false} ThreePerSecond(start: real, calls: seq<Attempt>, s: State, x: real)
    requires After(start, calls) == Some(s)
    ensures |s.window| <= |s.grants| && s.window == s.grants[|s.grants| - |s.window|..] && Ascending(s.window)
    ensures |s.window| <= RATE_LIMIT_PER_SECOND + s.early
    ensures forall i :: 0 <= i && i + RATE_LIMIT_PER_SECOND + s.early < |s.grants| ==>
              s.grants[i] + 1.0 <= s.grants[i + RATE_LIMIT_PER_SECOND + s.early]
    ensures GrantsIn(s.grants, x) <= RATE_LIMIT_PER_SECOND + s.early
  {
    hide After, GrantsIn;
    RunKeeps(start, calls);
    SpacedIsBounded(s.grants, RATE_LIMIT_PER_SECOND + s.early, x);
    SuffixAscending(s.grants, |s.grants| - |s.window|);
    hide Ascending;
  }

  lemma SuffixAscending(s: seq<real>, k: nat)
    requires Ascending(s) && k <= |s|
    ensures Ascending(s[k..])
  {}

  // ---- what an early wake does ----

  /** `n` grants, all in the deque. */
  function Burst(grants: seq<real>, clock: real, early: nat): State {
    State(grants, grants, clock, early)
  }

  /** A call at the instant of all grants so far, while there are fewer than three. */
  lemma {:induction false} BurstGrows(calls: seq<Attempt>, grants: seq<real>)
    requires |grants| < RATE_LIMIT_PER_SECOND && forall i :: 0 <= i < |grants| ==> grants[i] == 0.0
    requires After(0.0, calls) == Some(Burst(grants, 0.0, 0))
    ensures After(0.0, calls + [Runs(Call(0.0, 0.0, 0.0))]) == Some(Burst(grants + [0.0], 0.0, 0))
  {
    assert (calls + [Runs(Call(0.0, 0.0, 0.0))])[..|calls|] == calls;
    hide After;
    assert Expired(grants, 0.0) == grants;
  }

  lemma {:induction false} ThreeAtOnce()
    ensures After(0.0, [Runs(Call(0.0, 0.0, 0.0)), Runs(Call(0.0, 0.0, 0.0)), Runs(Call(0.0, 0.0, 0.0))]) == Some(Burst([0.0, 0.0, 0.0], 0.0, 0))
  {
    var c := Runs(Call(0.0, 0.0, 0.0));
    assert After(0.0, []) == Some(Burst([], 0.0, 0));
    hide *;
    BurstGrows([], []);
    BurstGrows([] + [c], [] + [0.0]);
    BurstGrows([] + [c] + [c], [] + [0.0] + [0.0]);
    assert [] + [c] + [c] + [c] == [c, c, c] && [] + [0.0] + [0.0] + [0.0] == [0.0, 0.0, 0.0];
  }

  /** One sleep that ends early puts four grants into one second. */
  lemma EarlyWakeBreaks()
    ensures var at := Runs(Call(0.0, 0.0, 0.0));
            After(0.0, [at, at, at, Runs(Call(0.0, 0.5, 0.5))]) == Some(Burst([0.0, 0.0, 0.0, 0.5], 0.5, 1))
  {
    var at := Runs(Call(0.0, 0.0, 0.0));
    ThreeAtOnce();
    assert [at, at, at, Runs(Call(0.0, 0.5, 0.5))][..3] == [at, at, at];
    assert Apply(Burst([0.0, 0.0, 0.0], 0.0, 0), Runs(Call(0.0, 0.5, 0.5))) == Burst([0.0, 0.0, 0.0, 0.5], 0.5, 1);
    hide Apply;
  }

  /**
   A deque over the limit stays over it: a call that sleeps just as long as it asked drops one grant and
   adds one, unless the next grant has expired too.
   */
  lemma ExcessSticks(window: Window, c: Call)
    requires |window| > RATE_LIMIT_PER_SECOND && c.entered <= c.woken
    requires c.entered < window[0] + 1.0 <= c.woken < window[1] + 1.0
    ensures |Granted(window, c)| == |window| && !WakesEarly(window, c)
  {
    assert Expired(window, c.entered) == window;
    assert Expired(window, c.woken) == window[1..];
  }
}
