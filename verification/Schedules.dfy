/**
 Recurring and one-shot schedules (src/wolfpaw/memory/schedules.py): the pure recurrence
 arithmetic, and a table that any number of dispatchers claim from while users create and
 cancel rows.

 Times are microseconds. One statement is one step; a claiming transaction holds its rows
 locked, so it is one step too. `cron` stands for croniter in the row's time zone: it may fail,
 and is only assumed to answer with a strictly later instant.
 */
module Schedules {
  import opened Prelude

  const SECOND: int := 1_000_000

  datatype Recurrence = Once | Interval | Cron

  datatype Status = Active | Paused | Done | Cancelled

  datatype Schedule = Schedule(
    user: int,
    recurrence: Recurrence,
    cronExpr: string,
    intervalSeconds: Option<int>,
    nextRunAt: Option<int>,
    lastRunAt: Option<int>,
    runCount: int,
    maxRuns: Option<int>,
    until: Option<int>,
    status: Status)

  type CronNext = (string, int) -> Option<int>

  ghost predicate Advances(cron: CronNext) {
    forall e, t :: cron(e, t).Some? ==> cron(e, t).value > t
  }

  // ---- pure scheduling arithmetic ----

  /** Never for a one-shot; an error where the source raises. */
  datatype Next = Never | At(time: int) | Error

  function ComputeNextRunAt(cron: CronNext, s: Schedule, after: int): Next {
    match s.recurrence
    case Once => Never
    case Interval =>
      if s.intervalSeconds.None? || s.intervalSeconds.value <= 0 then Error
      else At(after + s.intervalSeconds.value * SECOND)
    case Cron =>
      if s.cronExpr == "" then Error
      else match cron(s.cronExpr, after)
        case None => Error
        case Some(t) => At(t)
  }

  datatype Fired = Fired(nextRunAt: Option<int>, status: Status) | Broken

  function NextAfterFire(cron: CronNext, s: Schedule, now: int): Fired {
    var runsAfter := s.runCount + 1;
    if s.maxRuns.Some? && runsAfter >= s.maxRuns.value then Fired(None, Done)
    else match ComputeNextRunAt(cron, s, now)
      case Error => Broken
      case Never => Fired(None, Done)
      case At(t) => if s.until.Some? && t > s.until.value then Fired(None, Done) else Fired(Some(t), Active)
  }

  /** The row after the UPDATE that follows a claim. */
  function Advance(cron: CronNext, s: Schedule, now: int): Schedule
    requires NextAfterFire(cron, s, now).Fired?
  {
    var f := NextAfterFire(cron, s, now);
    s.(nextRunAt := f.nextRunAt, status := f.status, lastRunAt := Some(now), runCount := s.runCount + 1)
  }

  predicate Due(s: Schedule, now: int) {
    s.status == Active && s.nextRunAt.Some? && s.nextRunAt.value <= now
  }

  // ---- the table ----

  /** One claimed run: the slot it fills and the dispatcher's clock. */
  datatype Claim = Claim(id: int, slot: int, now: int)

  datatype Table = Table(rows: map<int, Schedule>, log: seq<Claim>)

  /** What the SELECT may return: the earliest due rows nobody has locked, up to the limit. */
  ghost predicate Selects(rows: map<int, Schedule>, now: int, limit: nat, locked: set<int>, picked: seq<int>) {
    && |picked| <= limit
    && (forall i, j :: 0 <= i < j < |picked| ==> picked[i] != picked[j])
    && (forall i :: 0 <= i < |picked| ==> picked[i] in rows && picked[i] !in locked && Due(rows[picked[i]], now))
    && (forall i, j :: 0 <= i < j < |picked| ==> rows[picked[i]].nextRunAt.value <= rows[picked[j]].nextRunAt.value)
    && (forall id :: id in rows && id !in locked && Due(rows[id], now) && id !in picked ==>
          |picked| == limit && forall i :: 0 <= i < |picked| ==> rows[picked[i]].nextRunAt.value <= rows[id].nextRunAt.value)
  }

  function ClaimOne(cron: CronNext, t: Table, id: int, now: int): Option<Table>
    requires id in t.rows && t.rows[id].nextRunAt.Some?
  {
    var s := t.rows[id];
    if NextAfterFire(cron, s, now).Broken? then None
    else Some(Table(t.rows[id := Advance(cron, s, now)], t.log + [Claim(id, s.nextRunAt.value, now)]))
  }

  predicate Claimable(rows: map<int, Schedule>, picked: seq<int>) {
    && (forall i :: 0 <= i < |picked| ==> picked[i] in rows && rows[picked[i]].nextRunAt.Some?)
    && (forall i, j :: 0 <= i < j < |picked| ==> picked[i] != picked[j])
  }

  /** The transaction over the picked rows; None when one of them raises and everything rolls back. */
  function ClaimAll(cron: CronNext, t: Table, picked: seq<int>, now: int): (r: Option<Table>)
    requires Claimable(t.rows, picked)
    ensures r.Some? ==> r.value.rows.Keys == t.rows.Keys && forall id :: id in t.rows && id !in picked ==> r.value.rows[id] == t.rows[id]
  {
    if picked == [] then Some(t)
    else
      var last := |picked| - 1;
      match ClaimAll(cron, t, picked[..last], now)
      case None => None
      case Some(u) => ClaimOne(cron, u, picked[last], now)
  }

  datatype Action =
    | Create(id: int, schedule: Schedule)
    | Cancel(user: int, id: int)
    | ClaimDue(now: int, limit: nat, locked: set<int>, picked: seq<int>)

  /** A freshly inserted row: active, never run, its first slot set by the caller. */
  predicate Fresh(s: Schedule) {
    s.status == Active && s.nextRunAt.Some? && s.lastRunAt.None? && s.runCount == 0
  }

  ghost predicate Enabled(t: Table, a: Action) {
    match a
    case Create(id, s) => id !in t.rows && Fresh(s)
    case Cancel(_, _) => true
    case ClaimDue(now, limit, locked, picked) => Selects(t.rows, now, limit, locked, picked)
  }

  predicate Cancellable(rows: map<int, Schedule>, user: int, id: int) {
    id in rows && rows[id].user == user && (rows[id].status == Active || rows[id].status == Paused)
  }

  ghost function Apply(cron: CronNext, t: Table, a: Action): Table
    requires Enabled(t, a)
  {
    match a
    case Create(id, s) => t.(rows := t.rows[id := s])
    case Cancel(user, id) =>
      if Cancellable(t.rows, user, id)
      then t.(rows := t.rows[id := t.rows[id].(status := Cancelled, nextRunAt := None)]) else t
    case ClaimDue(now, _, _, picked) =>
      match ClaimAll(cron, t, picked, now)
      case None => t
      case Some(u) => u
  }

  // ---- the history of a row ----

  function History(log: seq<Claim>, id: int): seq<Claim> {
    if log == [] then []
    else
      var last := |log| - 1;
      History(log[..last], id) + if log[last].id == id then [log[last]] else []
  }

  predicate RowOk(cron: CronNext, s: Schedule, h: seq<Claim>) {
    && s.runCount == |h|
    && s.status != Paused
    && (s.status == Active <==> s.nextRunAt.Some?)
    && s.lastRunAt == (if h == [] then None else Some(h[|h| - 1].now))
    && (forall k :: 0 <= k < |h| ==> h[k].slot <= h[k].now)
    && (forall k :: 0 < k < |h| ==> ComputeNextRunAt(cron, s, h[k - 1].now) == At(h[k].slot))
    && (h != [] && s.status == Active ==> ComputeNextRunAt(cron, s, h[|h| - 1].now) == At(s.nextRunAt.value))
    && (s.maxRuns.Some? && h != [] ==> |h| < s.maxRuns.value || (s.status == Done && (|h| == s.maxRuns.value || |h| == 1)))
    && (s.until.Some? ==> (forall k :: 0 < k < |h| ==> h[k].slot <= s.until.value) &&
                          (h != [] && s.status == Active ==> s.nextRunAt.value <= s.until.value))
  }

  predicate Inv(cron: CronNext, t: Table) {
    && (forall id :: id in t.rows ==> RowOk(cron, t.rows[id], History(t.log, id)))
    && (forall k :: 0 <= k < |t.log| ==> t.log[k].id in t.rows)
  }

  lemma {:induction false} NoHistory(log: seq<Claim>, id: int)
    requires forall k :: 0 <= k < |log| ==> log[k].id != id
    ensures History(log, id) == []
  {
    if log != [] { NoHistory(log[..|log| - 1], id); }
  }

  lemma {:induction false} HistoryPush(log: seq<Claim>, c: Claim, id: int)
    ensures History(log + [c], id) == History(log, id) + if c.id == id then [c] else []
  {
    assert (log + [c])[..|log|] == log;
  }

  /** The row's own step: a claim of a due row extends its history as its fields promise. */
  lemma AdvanceKeeps(cron: CronNext, s: Schedule, h: seq<Claim>, c: Claim)
    requires RowOk(cron, s, h) && Due(s, c.now) && c.slot == s.nextRunAt.value && NextAfterFire(cron, s, c.now).Fired?
    ensures RowOk(cron, Advance(cron, s, c.now), h + [c])
  {
    var t, g := Advance(cron, s, c.now), h + [c];
    forall k | 0 < k < |g| ensures ComputeNextRunAt(cron, t, g[k - 1].now) == At(g[k].slot) {
      assert ComputeNextRunAt(cron, t, g[k - 1].now) == ComputeNextRunAt(cron, s, g[k - 1].now);
    }
    assert ComputeNextRunAt(cron, t, c.now) == ComputeNextRunAt(cron, s, c.now);
  }

  lemma ClaimOneKeeps(cron: CronNext, t: Table, id: int, now: int)
    requires Inv(cron, t) && id in t.rows && Due(t.rows[id], now) && ClaimOne(cron, t, id, now).Some?
    ensures Inv(cron, ClaimOne(cron, t, id, now).value)
  {
    hide RowOk, NextAfterFire;
    var u := ClaimOne(cron, t, id, now).value;
    var c := Claim(id, t.rows[id].nextRunAt.value, now);
    AdvanceKeeps(cron, t.rows[id], History(t.log, id), c);
    forall i | i in u.rows ensures RowOk(cron, u.rows[i], History(u.log, i)) {
      HistoryPush(t.log, c, i);
      if i != id { assert History(t.log, i) + [] == History(t.log, i); }
    }
  }

  lemma {:induction false} ClaimAllKeeps(cron: CronNext, t: Table, picked: seq<int>, now: int)
    requires Inv(cron, t) && Claimable(t.rows, picked)
    requires forall i :: 0 <= i < |picked| ==> Due(t.rows[picked[i]], now)
    requires ClaimAll(cron, t, picked, now).Some?
    ensures Inv(cron, ClaimAll(cron, t, picked, now).value)
  {
    hide RowOk, NextAfterFire;
    if picked != [] {
      var last := |picked| - 1;
      ClaimAllKeeps(cron, t, picked[..last], now);
      var u := ClaimAll(cron, t, picked[..last], now).value;
      assert picked[last] !in picked[..last];
      ClaimOneKeeps(cron, u, picked[last], now);
    }
  }

  lemma StepKeeps(cron: CronNext, t: Table, a: Action)
    requires Inv(cron, t) && Enabled(t, a)
    ensures Inv(cron, Apply(cron, t, a))
  {
    hide RowOk, ClaimAll, Selects;
    match a
    case Create(id, s) =>
      NoHistory(t.log, id);
      FreshOk(cron, s);
    case Cancel(user, id) =>
      if Cancellable(t.rows, user, id) { NeverPaused(cron, t, id); CancelledOk(cron, t.rows[id], History(t.log, id)); }
    case ClaimDue(now, limit, locked, picked) =>
      SelectedClaimable(t.rows, now, limit, locked, picked);
      if ClaimAll(cron, t, picked, now).Some? { ClaimAllKeeps(cron, t, picked, now); }
  }

  lemma SelectedClaimable(rows: map<int, Schedule>, now: int, limit: nat, locked: set<int>, picked: seq<int>)
    requires Selects(rows, now, limit, locked, picked)
    ensures Claimable(rows, picked) && forall i :: 0 <= i < |picked| ==> Due(rows[picked[i]], now)
  {}

  lemma FreshOk(cron: CronNext, s: Schedule)
    requires Fresh(s)
    ensures RowOk(cron, s, [])
  {}

  lemma CancelledOk(cron: CronNext, s: Schedule, h: seq<Claim>)
    requires RowOk(cron, s, h) && s.status == Active
    ensures RowOk(cron, s.(status := Cancelled, nextRunAt := None), h)
  {
    var t := s.(status := Cancelled, nextRunAt := None);
    forall k | 0 < k < |h| ensures ComputeNextRunAt(cron, t, h[k - 1].now) == At(h[k].slot) {
      assert ComputeNextRunAt(cron, t, h[k - 1].now) == ComputeNextRunAt(cron, s, h[k - 1].now);
    }
  }

  lemma NeverPaused(cron: CronNext, t: Table, id: int)
    requires Inv(cron, t) && id in t.rows
    ensures t.rows[id].status != Paused
  {
    assert RowOk(cron, t.rows[id], History(t.log, id));
  }

  /** A finished or cancelled row never changes again. */
  lemma TerminalFrozen(cron: CronNext, t: Table, a: Action, id: int)
    requires Enabled(t, a) && id in t.rows && (t.rows[id].status == Done || t.rows[id].status == Cancelled)
    ensures id in Apply(cron, t, a).rows && Apply(cron, t, a).rows[id] == t.rows[id]
  {}

  // ---- every run ----

  ghost function After(cron: CronNext, run: seq<Action>): Option<Table> {
    if run == [] then Some(Table(map[], []))
    else
      var last := |run| - 1;
      match After(cron, run[..last])
      case None => None
      case Some(t) => if Enabled(t, run[last]) then Some(Apply(cron, t, run[last])) else None
  }

  lemma {:induction false} RunKeeps(cron: CronNext, run: seq<Action>)
    requires After(cron, run).Some?
    ensures Inv(cron, After(cron, run).value)
  {
    if run != [] {
      var last := |run| - 1;
      RunKeeps(cron, run[..last]);
      StepKeeps(cron, After(cron, run[..last]).value, run[last]);
    }
  }

  /** A row that is done or cancelled is the same after any longer run. */
  lemma {:induction false} FinishedForGood(cron: CronNext, run: seq<Action>, k: nat, id: int)
    requires k <= |run| && After(cron, run).Some?
    ensures After(cron, run[..k]).Some?
    ensures var t, u := After(cron, run[..k]).value, After(cron, run).value;
            id in t.rows && (t.rows[id].status == Done || t.rows[id].status == Cancelled) ==> id in u.rows && u.rows[id] == t.rows[id]
  {
    hide Enabled, Apply;
    if k == |run| {
      assert run[..k] == run;
    } else {
      var last := |run| - 1;
      FinishedForGood(cron, run[..last], k, id);
      assert run[..last][..k] == run[..k];
      var t, s := After(cron, run[..k]).value, After(cron, run[..last]).value;
      if id in t.rows && (t.rows[id].status == Done || t.rows[id].status == Cancelled) {
        TerminalFrozen(cron, s, run[last], id);
      }
    }
  }

  /**
   Over any run of dispatchers, cancels and creates: a row's `run_count` is its number of claims; it is
   active exactly while it has a next slot; a one-shot is claimed at most once; `max_runs` caps the
   claims, and reaching it leaves the row done; and every slot but the first is no later than `until`.
   */
  lemma {:induction false} RowsKeepTheirLimits(cron: CronNext, run: seq<Action>, t: Table, id: int)
    requires After(cron, run) == Some(t) && id in t.rows
    ensures var s, h := t.rows[id], History(t.log, id);
            && s.runCount == |h|
            && (s.status == Active <==> s.nextRunAt.Some?)
            && (s.recurrence == Once ==> |h| <= 1)
            && (s.maxRuns.Some? && s.maxRuns.value >= 1 ==>
                  |h| <= s.maxRuns.value && (|h| == s.maxRuns.value ==> s.status == Done))
            && (s.until.Some? ==> forall k :: 0 < k < |h| ==> h[k].slot <= s.until.value)
  {
    RunKeeps(cron, run);
    var s, h := t.rows[id], History(t.log, id);
    assert RowOk(cron, s, h);
    if |h| > 1 {
      assert ComputeNextRunAt(cron, s, h[0].now) == At(h[1].slot);
    }
  }

  /** A slot is claimed by a clock that has reached it, and the next one lies after that clock. */
  lemma SlotStep(cron: CronNext, s: Schedule, h: seq<Claim>, k: nat)
    requires Advances(cron) && RowOk(cron, s, h) && k < |h|
    ensures h[k].slot <= h[k].now && (k > 0 ==> h[k - 1].now < h[k].slot)
  {
    if k > 0 { assert ComputeNextRunAt(cron, s, h[k - 1].now) == At(h[k].slot); }
  }

  lemma {:induction false} SlotsIncrease(cron: CronNext, s: Schedule, h: seq<Claim>, i: nat, j: nat)
    requires Advances(cron) && RowOk(cron, s, h) && i < j < |h|
    ensures h[i].slot <= h[i].now < h[j].slot
    decreases j - i
  {
    hide RowOk, Advances;
    SlotStep(cron, s, h, i);
    SlotStep(cron, s, h, j);
    SlotStep(cron, s, h, j - 1);
    if i < j - 1 { SlotsIncrease(cron, s, h, i, j - 1); }
  }

  /** No slot is claimed twice: a row's slots strictly increase, each after the clock of the claim before. */
  lemma NoSlotTwice(cron: CronNext, run: seq<Action>, t: Table, id: int, i: nat, j: nat)
    requires Advances(cron) && After(cron, run) == Some(t) && id in t.rows
    requires i < j < |History(t.log, id)|
    ensures var h := History(t.log, id); h[i].slot <= h[i].now < h[j].slot
  {
    hide RowOk, After, History;
    RunKeeps(cron, run);
    SlotsIncrease(cron, t.rows[id], History(t.log, id), i, j);
  }

  // ---- interval schedules ----

  predicate Spaced(h: seq<Claim>, gap: int) {
    forall k :: 0 < k < |h| ==> h[k].now - h[k - 1].now >= gap
  }

  lemma {:induction false} SpacedApart(h: seq<Claim>, gap: int, i: nat, j: nat)
    requires Spaced(h, gap) && gap >= 0 && i <= j < |h|
    ensures h[j].now - h[i].now >= (j - i) * gap
    decreases j - i
  {
    if i < j {
      SpacedApart(h, gap, i, j - 1);
      assert (j - i) * gap == (j - 1 - i) * gap + gap;
    }
  }

  function InWindow(h: seq<Claim>, a: int, b: int): nat {
    if h == [] then 0
    else
      var last := |h| - 1;
      InWindow(h[..last], a, b) + if a <= h[last].now <= b then 1 else 0
  }

  lemma {:induction false} NarrowWindow(h: seq<Claim>, a: int, b: int, c: int)
    requires c <= b && forall k :: 0 <= k < |h| ==> h[k].now <= c
    ensures InWindow(h, a, b) == InWindow(h, a, c)
  {
    if h != [] { NarrowWindow(h[..|h| - 1], a, b, c); }
  }

  lemma {:induction false} WindowBound(h: seq<Claim>, gap: int, a: int, b: int)
    requires Spaced(h, gap) && gap > 0
    ensures InWindow(h, a, b) > 0 ==> (InWindow(h, a, b) - 1) * gap <= b - a
  {
    if h != [] {
      var last := |h| - 1;
      var rest, end := h[..last], h[last].now;
      if a <= end <= b {
        EarlierByGap(h, gap);
        NarrowWindow(rest, a, b, end - gap);
        WindowBound(rest, gap, a, end - gap);
        OneMore(InWindow(rest, a, b), gap);
      } else {
        WindowBound(rest, gap, a, b);
      }
    }
  }

  lemma EarlierByGap(h: seq<Claim>, gap: int)
    requires Spaced(h, gap) && gap > 0 && h != []
    ensures var last := |h| - 1;
            Spaced(h[..last], gap) && forall k :: 0 <= k < last ==> h[..last][k].now <= h[last].now - gap
  {
    var last := |h| - 1;
    forall k | 0 <= k < last ensures h[..last][k].now <= h[last].now - gap {
      SpacedApart(h, gap, k, last);
      AtLeastOneGap(last - k, gap);
    }
  }

  lemma OneMore(n: int, gap: int)
    ensures n * gap == (n - 1) * gap + gap && 0 * gap == 0
  {}

  lemma AtLeastOneGap(n: int, gap: int)
    requires n >= 1 && gap > 0
    ensures n * gap >= gap
  {
    assert n * gap == (n - 1) * gap + gap;
    assert (n - 1) * gap >= 0;
  }

  /**
   Whatever clocks the dispatchers pass and however long an outage lasts, an interval schedule's claims
   are at least the interval apart, so a window [a, b] holds at most (b - a) / interval + 1 of them.
   */
  lemma {:induction false} IntervalRate(cron: CronNext, run: seq<Action>, t: Table, id: int, a: int, b: int)
    requires After(cron, run) == Some(t) && id in t.rows && a <= b
    requires t.rows[id].recurrence == Interval && t.rows[id].intervalSeconds.Some? && t.rows[id].intervalSeconds.value > 0
    ensures var gap := t.rows[id].intervalSeconds.value * SECOND;
            Spaced(History(t.log, id), gap) && InWindow(History(t.log, id), a, b) <= (b - a) / gap + 1
  {
    hide RowOk, After, InWindow, ComputeNextRunAt;
    RunKeeps(cron, run);
    var s, h := t.rows[id], History(t.log, id);
    var gap := s.intervalSeconds.value * SECOND;
    forall k | 0 < k < |h| ensures h[k].now - h[k - 1].now >= gap {
      NextClaim(cron, s, h, k);
      NextOfInterval(cron, s, h[k - 1].now);
    }
    RateFromSpacing(h, gap, a, b);
  }

  lemma NextClaim(cron: CronNext, s: Schedule, h: seq<Claim>, k: nat)
    requires RowOk(cron, s, h) && 0 < k < |h|
    ensures ComputeNextRunAt(cron, s, h[k - 1].now) == At(h[k].slot) && h[k].slot <= h[k].now
  {}

  lemma NextOfInterval(cron: CronNext, s: Schedule, now: int)
    requires s.recurrence == Interval && s.intervalSeconds.Some? && s.intervalSeconds.value > 0
    ensures ComputeNextRunAt(cron, s, now) == At(now + s.intervalSeconds.value * SECOND)
  {}

  lemma {:induction false} RateFromSpacing(h: seq<Claim>, gap: int, a: int, b: int)
    requires Spaced(h, gap) && gap > 0 && a <= b
    ensures InWindow(h, a, b) <= (b - a) / gap + 1
  {
    WindowBound(h, gap, a, b);
    var n := InWindow(h, a, b);
    if n > 0 { Quotient(n - 1, gap, b - a); } else { Quotient(0, gap, b - a); }
  }

  lemma Quotient(n: int, gap: int, width: int)
    requires gap > 0 && n * gap <= width && width >= 0
    ensures n <= width / gap
  {
    Multiples(n, width / gap + 1, gap);
  }

  lemma Multiples(m: int, n: int, gap: int)
    requires gap > 0
    ensures m >= n ==> m * gap >= n * gap
  {
    if m >= n { assert (m - n) * gap >= 0; }
  }

  /** A backlog is one catch-up run: right after a claim the row is due at no clock up to the claim's own. */
  lemma OneCatchUpRun(cron: CronNext, s: Schedule, now: int)
    requires Advances(cron) && Due(s, now) && NextAfterFire(cron, s, now).Fired?
    ensures forall later :: later <= now ==> !Due(Advance(cron, s, now), later)
  {}

  // ---- a malformed row ----

  predicate AllFire(cron: CronNext, rows: map<int, Schedule>, picked: seq<int>, now: int)
    requires Claimable(rows, picked)
  {
    forall i :: 0 <= i < |picked| ==> NextAfterFire(cron, rows[picked[i]], now).Fired?
  }

  lemma AllFireLast(cron: CronNext, rows: map<int, Schedule>, picked: seq<int>, now: int)
    requires Claimable(rows, picked) && picked != []
    ensures Claimable(rows, picked[..|picked| - 1])
    ensures AllFire(cron, rows, picked, now) <==>
            AllFire(cron, rows, picked[..|picked| - 1], now) && NextAfterFire(cron, rows[picked[|picked| - 1]], now).Fired?
  {
    hide NextAfterFire;
    var last := |picked| - 1;
    assert forall i :: 0 <= i < last ==> picked[..last][i] == picked[i];
    if AllFire(cron, rows, picked[..last], now) && NextAfterFire(cron, rows[picked[last]], now).Fired? {
      forall i | 0 <= i < |picked| ensures NextAfterFire(cron, rows[picked[i]], now).Fired? {
        if i < last { assert picked[..last][i] == picked[i]; }
      }
    }
  }

  /** The transaction commits exactly when no picked row raises. */
  lemma {:induction false} ClaimAllExact(cron: CronNext, t: Table, picked: seq<int>, now: int)
    requires Claimable(t.rows, picked)
    ensures ClaimAll(cron, t, picked, now).Some? <==> AllFire(cron, t.rows, picked, now)
  {
    hide NextAfterFire, Claimable, AllFire;
    if picked == [] {
      NobodyFires(cron, t.rows, now);
    } else {
      var last := |picked| - 1;
      AllFireLast(cron, t.rows, picked, now);
      ClaimAllExact(cron, t, picked[..last], now);
      if ClaimAll(cron, t, picked[..last], now).Some? {
        Claiming(cron, t, picked, now, last);
        assert picked[..last + 1] == picked;
      }
    }
  }

  lemma NobodyFires(cron: CronNext, rows: map<int, Schedule>, now: int)
    requires Claimable(rows, [])
    ensures AllFire(cron, rows, [], now)
  {}

  /** One malformed due row in the batch keeps every row of the batch from being claimed. */
  lemma MalformedRowBlocksBatch(cron: CronNext, t: Table, a: Action, bad: int)
    requires a.ClaimDue? && Enabled(t, a) && bad in a.picked && NextAfterFire(cron, t.rows[bad], a.now).Broken?
    ensures Apply(cron, t, a) == t
  {
    SelectedClaimable(t.rows, a.now, a.limit, a.locked, a.picked);
    ClaimAllExact(cron, t, a.picked, a.now);
    var i :| 0 <= i < |a.picked| && a.picked[i] == bad;
    assert !AllFire(cron, t.rows, a.picked, a.now) by { assert NextAfterFire(cron, t.rows[a.picked[i]], a.now).Broken?; }
  }

  /** `bad` can never fire, and is the earliest active row. */
  ghost predicate Blocks(cron: CronNext, t: Table, bad: int) {
    && bad in t.rows && t.rows[bad].status == Active && t.rows[bad].nextRunAt.Some?
    && (forall now :: NextAfterFire(cron, t.rows[bad], now).Broken?)
    && (forall id :: id in t.rows && id != bad && t.rows[id].status == Active && t.rows[id].nextRunAt.Some? ==>
          t.rows[bad].nextRunAt.value < t.rows[id].nextRunAt.value)
  }

  /** The action neither cancels `bad`, nor holds its lock, nor puts an earlier row before it. */
  predicate Spares(t: Table, a: Action, bad: int)
    requires bad in t.rows && t.rows[bad].nextRunAt.Some?
  {
    match a
    case Create(_, s) => s.nextRunAt.Some? ==> t.rows[bad].nextRunAt.value < s.nextRunAt.value
    case Cancel(user, id) => id == bad ==> !Cancellable(t.rows, user, id)
    case ClaimDue(_, limit, locked, _) => limit >= 1 && bad !in locked
  }

  lemma {:induction false} NothingClaimed(cron: CronNext, t: Table, now: int)
    ensures ClaimAll(cron, t, [], now) == Some(t)
  {}

  lemma BlockedClaim(cron: CronNext, t: Table, a: Action, bad: int)
    requires Blocks(cron, t, bad) && Enabled(t, a) && a.ClaimDue? && Spares(t, a, bad)
    ensures Apply(cron, t, a) == t
  {
    SelectedClaimable(t.rows, a.now, a.limit, a.locked, a.picked);
    if a.picked == [] {
      NothingClaimed(cron, t, a.now);
    } else {
      var first := a.picked[0];
      assert first in t.rows && Due(t.rows[first], a.now);
      assert t.rows[bad].nextRunAt.value <= t.rows[first].nextRunAt.value;
      assert Due(t.rows[bad], a.now);
      assert bad in a.picked;
      MalformedRowBlocksBatch(cron, t, a, bad);
    }
  }

  lemma BlockedStep(cron: CronNext, t: Table, a: Action, bad: int)
    requires Blocks(cron, t, bad) && Enabled(t, a) && Spares(t, a, bad)
    ensures var u := Apply(cron, t, a); Blocks(cron, u, bad) && u.rows[bad] == t.rows[bad] && u.log == t.log
  {
    if a.ClaimDue? { BlockedClaim(cron, t, a, bad); }
    hide NextAfterFire;
  }

  /**
   While a row that cannot fire is the earliest and nobody holds its lock, no dispatcher claims anything,
   however often it tries and whatever else is created or cancelled: until that row is cancelled.
   */
  lemma {:induction false} StuckUntilCancelled(cron: CronNext, run: seq<Action>, k: nat, bad: int)
    requires k <= |run| && After(cron, run).Some? && After(cron, run[..k]).Some? && Blocks(cron, After(cron, run[..k]).value, bad)
    requires forall i :: k <= i < |run| && After(cron, run[..i]).Some? && Blocks(cron, After(cron, run[..i]).value, bad) ==>
               Spares(After(cron, run[..i]).value, run[i], bad)
    ensures var t, u := After(cron, run[..k]).value, After(cron, run).value;
            Blocks(cron, u, bad) && u.rows[bad] == t.rows[bad] && u.log == t.log
  {
    hide Enabled, Apply, Blocks, Spares;
    if k == |run| {
      assert run[..k] == run;
    } else {
      var last := |run| - 1;
      assert run[..last][..k] == run[..k];
      forall i | k <= i < last ensures run[..last][..i] == run[..i] && run[..last][i] == run[i] {}
      StuckUntilCancelled(cron, run[..last], k, bad);
      BlockedStep(cron, After(cron, run[..last]).value, run[last], bad);
    }
  }

  /** What the tool that creates schedules sees to: a positive interval, or a cron expression that always has a next instant. */
  ghost predicate WellFormed(cron: CronNext, s: Schedule) {
    match s.recurrence
    case Once => true
    case Interval => s.intervalSeconds.Some? && s.intervalSeconds.value > 0
    case Cron => s.cronExpr != "" && forall t :: cron(s.cronExpr, t).Some?
  }

  lemma WellFormedFires(cron: CronNext, s: Schedule, now: int)
    requires WellFormed(cron, s)
    ensures NextAfterFire(cron, s, now).Fired?
  {}

  /** No statement touches what makes a row well formed. */
  predicate SameRecurrence(s: Schedule, t: Schedule) {
    s.recurrence == t.recurrence && s.intervalSeconds == t.intervalSeconds && s.cronExpr == t.cronExpr
  }

  lemma {:induction false} ClaimAllSameRecurrence(cron: CronNext, t: Table, picked: seq<int>, now: int)
    requires Claimable(t.rows, picked) && ClaimAll(cron, t, picked, now).Some?
    ensures forall id :: id in t.rows ==> SameRecurrence(ClaimAll(cron, t, picked, now).value.rows[id], t.rows[id])
  {
    hide NextAfterFire;
    if picked != [] {
      var last := |picked| - 1;
      ClaimAllSameRecurrence(cron, t, picked[..last], now);
      assert picked[last] !in picked[..last];
    }
  }

  lemma RecurrenceKept(cron: CronNext, t: Table, a: Action, id: int)
    requires Enabled(t, a) && id in t.rows
    ensures id in Apply(cron, t, a).rows && SameRecurrence(Apply(cron, t, a).rows[id], t.rows[id])
  {
    if a.ClaimDue? {
      SelectedClaimable(t.rows, a.now, a.limit, a.locked, a.picked);
      if ClaimAll(cron, t, a.picked, a.now).Some? { ClaimAllSameRecurrence(cron, t, a.picked, a.now); }
    }
    hide ClaimAll;
  }

  lemma {:induction false} AllWellFormed(cron: CronNext, run: seq<Action>)
    requires After(cron, run).Some?
    requires forall i :: 0 <= i < |run| && run[i].Create? ==> WellFormed(cron, run[i].schedule)
    ensures forall id :: id in After(cron, run).value.rows ==> WellFormed(cron, After(cron, run).value.rows[id])
  {
    if run != [] {
      var last := |run| - 1;
      AllWellFormed(cron, run[..last]);
      var t, a := After(cron, run[..last]).value, run[last];
      hide After, Enabled, Apply;
      forall id | id in Apply(cron, t, a).rows ensures WellFormed(cron, Apply(cron, t, a).rows[id]) {
        if id in t.rows { RecurrenceKept(cron, t, a, id); } else { RowIsCreated(cron, t, a, id); }
      }
    }
  }

  lemma RowIsCreated(cron: CronNext, t: Table, a: Action, id: int)
    requires Enabled(t, a) && id in Apply(cron, t, a).rows && id !in t.rows
    ensures a.Create? && Apply(cron, t, a).rows[id] == a.schedule
  {}

  /** The complement: when only well-formed rows are created, every batch that is picked commits. */
  lemma {:induction false} WellFormedAlwaysCommits(cron: CronNext, run: seq<Action>, t: Table, a: Action)
    requires After(cron, run) == Some(t) && Enabled(t, a) && a.ClaimDue?
    requires forall i :: 0 <= i < |run| && run[i].Create? ==> WellFormed(cron, run[i].schedule)
    ensures Claimable(t.rows, a.picked) && ClaimAll(cron, t, a.picked, a.now) == Some(Apply(cron, t, a))
    ensures |Apply(cron, t, a).log| == |t.log| + |a.picked|
  {
    AllWellFormed(cron, run);
    SelectedClaimable(t.rows, a.now, a.limit, a.locked, a.picked);
    forall i | 0 <= i < |a.picked| ensures NextAfterFire(cron, t.rows[a.picked[i]], a.now).Fired? {
      var id := a.picked[i];
      assert id in t.rows && WellFormed(cron, t.rows[id]);
      WellFormedFires(cron, t.rows[id], a.now);
    }
    hide NextAfterFire, After;
    ClaimAllExact(cron, t, a.picked, a.now);
    ClaimAllLogs(cron, t, a.picked, a.now);
  }

  lemma {:induction false} ClaimAllLogs(cron: CronNext, t: Table, picked: seq<int>, now: int)
    requires Claimable(t.rows, picked) && ClaimAll(cron, t, picked, now).Some?
    ensures |ClaimAll(cron, t, picked, now).value.log| == |t.log| + |picked|
  {
    hide NextAfterFire;
    if picked != [] {
      ClaimAllLogs(cron, t, picked[..|picked| - 1], now);
    }
  }

  const MALFORMED: Schedule := Schedule(1, Interval, "", None, Some(10), None, 0, None, None, Active)
  const WELL_FORMED: Schedule := Schedule(2, Interval, "", Some(60), Some(20), None, 0, None, None, Active)

  const BOTH: map<int, Schedule> := map[1 := MALFORMED, 2 := WELL_FORMED]

  lemma BothCreated(cron: CronNext)
    ensures After(cron, [Create(1, MALFORMED), Create(2, WELL_FORMED)]) == Some(Table(BOTH, []))
  {
    var a, b := Create(1, MALFORMED), Create(2, WELL_FORMED);
    assert [] + [a] == [a] && [a] + [b] == [a, b];
    assert After(cron, []) == Some(Table(map[], []));
    AfterSnoc(cron, [], a);
    AfterSnoc(cron, [a], b);
  }

  /** An interval row without its interval, due together with a good one: neither is claimed. */
  lemma MalformedRowStarvesGoodOne(cron: CronNext)
    ensures var run := [Create(1, MALFORMED), Create(2, WELL_FORMED)] + [ClaimDue(100, 20, {}, [1, 2])];
            After(cron, run) == Some(Table(BOTH, []))
  {
    var t, c := Table(BOTH, []), ClaimDue(100, 20, {}, [1, 2]);
    BothCreated(cron);
    assert Enabled(t, c) && NextAfterFire(cron, MALFORMED, 100).Broken?;
    hide Enabled, NextAfterFire, After, Apply;
    AfterSnoc(cron, [Create(1, MALFORMED), Create(2, WELL_FORMED)], c);
    MalformedRowBlocksBatch(cron, t, c, 1);
  }

  /** Once the malformed row is cancelled, the good one is claimed. */
  lemma CancelFreesGoodOne(cron: CronNext)
    ensures var run := [Create(1, MALFORMED), Create(2, WELL_FORMED)] + [Cancel(1, 1)] + [ClaimDue(100, 20, {}, [2])];
            After(cron, run).Some? && After(cron, run).value.log == [Claim(2, 20, 100)]
  {
    var t, d, e := Table(BOTH, []), Cancel(1, 1), ClaimDue(100, 20, {}, [2]);
    var u := Table(BOTH[1 := MALFORMED.(status := Cancelled, nextRunAt := None)], []);
    BothCreated(cron);
    assert Apply(cron, t, d) == u;
    OneClaimed(cron, u);
    hide After, Apply, Enabled;
    EnabledCancel(t, d);
    AfterSnoc(cron, [Create(1, MALFORMED), Create(2, WELL_FORMED)], d);
    AfterSnoc(cron, [Create(1, MALFORMED), Create(2, WELL_FORMED)] + [d], e);
  }

  lemma EnabledCancel(t: Table, a: Action)
    requires a.Cancel?
    ensures Enabled(t, a)
  {}

  lemma OneClaimed(cron: CronNext, t: Table)
    requires t.log == [] && t.rows == BOTH[1 := MALFORMED.(status := Cancelled, nextRunAt := None)]
    ensures var e := ClaimDue(100, 20, {}, [2]); Enabled(t, e) && Apply(cron, t, e).log == [Claim(2, 20, 100)]
  {
    assert Due(t.rows[2], 100) && !Due(t.rows[1], 100);
    assert [2][..0] == [];
    assert ClaimAll(cron, t, [2], 100) == ClaimOne(cron, t, 2, 100);
    assert [] + [Claim(2, 20, 100)] == [Claim(2, 20, 100)];
  }

  lemma {:induction false} AfterSnoc(cron: CronNext, run: seq<Action>, a: Action)
    requires After(cron, run).Some? && Enabled(After(cron, run).value, a)
    ensures After(cron, run + [a]) == Some(Apply(cron, After(cron, run).value, a))
  {
    assert (run + [a])[..|run|] == run;
  }

  // ---- the data access object ----

  class ScheduleStore {
    var rows: map<int, Schedule>
    ghost var log: seq<Claim>

    ghost function Now(): Table
      reads this
    {
      Table(rows, log)
    }

    constructor ()
      ensures Now() == Table(map[], [])
    {
      rows, log := map[], [];
    }

    /** The insert, whose row may be claimed from its first slot on. */
    method Create(cron: CronNext, id: int, schedule: Schedule)
      requires id !in rows && Fresh(schedule)
      modifies this`rows
      ensures Now() == Apply(cron, old(Now()), Action.Create(id, schedule))
      ensures Inv(cron, old(Now())) ==> Inv(cron, Now()) && History(log, id) == []
      ensures id in rows && forall now :: Due(rows[id], now) <==> schedule.nextRunAt.value <= now
      ensures forall i :: i in old(rows) ==> i in rows && rows[i] == old(rows)[i]
    {
      ghost var before := Now();
      rows := rows[id := schedule];
      if Inv(cron, before) {
        StepKeeps(cron, before, Action.Create(id, schedule));
        NoHistory(log, id);
      }
    }

    /** One compare-and-set UPDATE, scoped to the owner. */
    method Cancel(cron: CronNext, user: int, id: int) returns (cancelled: Option<Schedule>)
      modifies this`rows
      ensures Now() == Apply(cron, old(Now()), Action.Cancel(user, id))
      ensures cancelled == if Cancellable(old(rows), user, id) then Some(rows[id]) else None
    {
      if id in rows && rows[id].user == user && (rows[id].status == Active || rows[id].status == Paused) {
        rows := rows[id := rows[id].(status := Cancelled, nextRunAt := None)];
        return Some(rows[id]);
      }
      return None;
    }

    /** `picked` is what the SELECT locked. Returns the snapshots before advancing, or None where it raises. */
    method ClaimAndAdvanceDue(cron: CronNext, now: int, limit: nat, ghost locked: set<int>, picked: seq<int>)
      returns (claimed: Option<seq<Schedule>>)
      requires Selects(rows, now, limit, locked, picked)
      modifies this
      ensures Now() == Apply(cron, old(Now()), ClaimDue(now, limit, locked, picked))
      ensures claimed.Some? <==> forall i :: 0 <= i < |picked| ==> NextAfterFire(cron, old(rows)[picked[i]], now).Fired?
      ensures claimed.Some? ==> |claimed.value| == |picked| && forall i :: 0 <= i < |picked| ==> claimed.value[i] == old(rows)[picked[i]]
    {
      var before, fetched: seq<Schedule> := rows, [];
      ghost var start := Now();
      hide NextAfterFire, Advance, Selects, Due, ClaimAll, Claimable, Apply, Enabled, AllFire, UpTo;
      SelectedClaimable(rows, now, limit, locked, picked);
      ClaimApplies(cron, start, now, limit, locked, picked);
      UpToEnds(cron, start, picked, now);
      for k := 0 to |picked|
        invariant |fetched| == k && forall i :: 0 <= i < k ==> fetched[i] == before[picked[i]]
        invariant UpTo(cron, start, picked, now, k) == Some(Now())
      {
        ClaimingNext(cron, start, picked, now, k);
        var s := before[picked[k]];
        fetched := fetched + [s];
        if NextAfterFire(cron, s, now).Broken? {
          rows, log := before, start.log;
          return None;
        }
        log := log + [Claim(picked[k], s.nextRunAt.value, now)];
        rows := rows[picked[k] := Advance(cron, s, now)];
      }
      return Some(fetched);
    }
  }

  /** The claiming step, and when it commits. */
  lemma {:induction false} ClaimApplies(cron: CronNext, t: Table, now: int, limit: nat, locked: set<int>, picked: seq<int>)
    requires Selects(t.rows, now, limit, locked, picked) && Claimable(t.rows, picked)
    ensures var r := ClaimAll(cron, t, picked, now);
            && Enabled(t, ClaimDue(now, limit, locked, picked))
            && Apply(cron, t, ClaimDue(now, limit, locked, picked)) == (if r.Some? then r.value else t)
            && (r.Some? <==> forall i :: 0 <= i < |picked| ==> NextAfterFire(cron, t.rows[picked[i]], now).Fired?)
  {
    hide NextAfterFire, ClaimAll, Selects;
    ClaimAllExact(cron, t, picked, now);
  }

  /** The table when `k` of the picked rows have been claimed. */
  function UpTo(cron: CronNext, t: Table, picked: seq<int>, now: int, k: nat): Option<Table>
    requires Claimable(t.rows, picked) && k <= |picked|
  {
    ClaimAll(cron, t, picked[..k], now)
  }

  lemma {:induction false} UpToEnds(cron: CronNext, t: Table, picked: seq<int>, now: int)
    requires Claimable(t.rows, picked)
    ensures UpTo(cron, t, picked, now, 0) == Some(t)
    ensures UpTo(cron, t, picked, now, |picked|) == ClaimAll(cron, t, picked, now)
  {
    assert picked[..0] == [] && picked[..|picked|] == picked;
  }

  lemma ClaimingNext(cron: CronNext, t: Table, picked: seq<int>, now: int, k: nat)
    requires Claimable(t.rows, picked) && k < |picked| && UpTo(cron, t, picked, now, k).Some?
    ensures var u := UpTo(cron, t, picked, now, k).value;
            && picked[k] in u.rows && u.rows[picked[k]] == t.rows[picked[k]] && u.rows[picked[k]].nextRunAt.Some?
            && UpTo(cron, t, picked, now, k + 1) == ClaimOne(cron, u, picked[k], now)
  {
    hide NextAfterFire, Advance, ClaimAll;
    Claiming(cron, t, picked, now, k);
  }

  /** One more row of the transaction. */
  lemma {:induction false} Claiming(cron: CronNext, t: Table, picked: seq<int>, now: int, k: nat)
    requires Claimable(t.rows, picked) && k < |picked| && ClaimAll(cron, t, picked[..k], now).Some?
    ensures Claimable(t.rows, picked[..k + 1])
    ensures var u := ClaimAll(cron, t, picked[..k], now).value;
            && picked[k] in u.rows && u.rows[picked[k]] == t.rows[picked[k]] && u.rows[picked[k]].nextRunAt.Some?
            && ClaimAll(cron, t, picked[..k + 1], now) == ClaimOne(cron, u, picked[k], now)
  {
    hide NextAfterFire, Advance;
    assert picked[..k + 1][..k] == picked[..k];
    assert picked[k] !in picked[..k];
  }
}
