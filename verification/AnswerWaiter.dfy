/**
 The agent's side of a question (src/wolfpaw/memory/pending_questions.py:225-269): a loop that reads the row,
 looks at the clock, clears an event and waits for it to be set, with a backstop in case a NOTIFY is lost.

 Every statement is a step at an instant of its own. The database may close the question, and a notification
 may be delivered, between any two of them. Between two steps of the loop pass at most `lag` seconds, except
 that a wait with a timeout ends within `slack` of that timeout, or of the event being set.
 */
module AnswerWaiter {
  import opened Prelude
  import PendingQuestions

  const BACKSTOP_SECONDS := 15.0

  type Row = Option<PendingQuestions.Question>

  predicate Open(row: Row) {
    row.Some? && row.value.status == PendingQuestions.Pending
  }

  function Least(a: real, b: real): real {
    if a < b then a else b
  }

  function Most(a: real, b: real): real {
    if a < b then b else a
  }

  // ---- the rounds of the loop ----

  /** One round: the row it read and when, and the clock it then looked at. */
  datatype Tick = Tick(readAt: real, row: Row, clock: real)

  datatype Wait = Resolved(row: Row) | TimedOut | StillWaiting

  /** How long the wait that follows a look at the clock may take. */
  function Timeout(deadline: real, clock: real): real {
    Least(BACKSTOP_SECONDS, deadline - clock)
  }

  /** What the rounds from `k` on come to. */
  function Outcomes(deadline: real, ticks: seq<Tick>, k: nat): Wait
    requires k <= |ticks|
    decreases |ticks| - k
  {
    if k == |ticks| then StillWaiting
    else if !Open(ticks[k].row) then Resolved(ticks[k].row)
    else if deadline - ticks[k].clock <= 0.0 then TimedOut
    else Outcomes(deadline, ticks, k + 1)
  }

  /** A round that ends with a wait. */
  predicate GoesOn(deadline: real, tick: Tick) {
    Open(tick.row) && tick.clock < deadline
  }

  /** The round in which the wait ended, or the number of rounds when it has not. */
  function LastRound(deadline: real, ticks: seq<Tick>, k: nat): (last: nat)
    requires k <= |ticks|
    ensures k <= last <= |ticks|
    ensures forall i :: k <= i < last ==> GoesOn(deadline, ticks[i])
    ensures last < |ticks| ==> !GoesOn(deadline, ticks[last])
    ensures Outcomes(deadline, ticks, k) ==
            if last == |ticks| then StillWaiting
            else if !Open(ticks[last].row) then Resolved(ticks[last].row) else TimedOut
    decreases |ticks| - k
  {
    if k < |ticks| && GoesOn(deadline, ticks[k]) then LastRound(deadline, ticks, k + 1) else k
  }

  /** A pending row is never returned, and a timeout means it was read pending with the deadline passed just after. */
  lemma {:induction false} NeverReturnsPending(deadline: real, ticks: seq<Tick>)
    ensures var r := Outcomes(deadline, ticks, 0);
            && (r.Resolved? ==> !Open(r.row) && exists k :: 0 <= k < |ticks| && ticks[k].row == r.row)
            && (r.TimedOut? ==> exists k :: 0 <= k < |ticks| && Open(ticks[k].row) && ticks[k].clock >= deadline)
  {
    var last := LastRound(deadline, ticks, 0);
    assert Outcomes(deadline, ticks, 0).StillWaiting? <==> last == |ticks|;
  }

  /** The waiting call: the event that the listener sets, and the loop. */
  class Waiter {
    const question: int
    var woke: bool

    constructor (question: int)
      ensures this.question == question && !woke
    {
      this.question := question;
      woke := false;
    }

    /** The listener, called for every notification on the channel. */
    method OnNotify(payload: int)
      modifies this`woke
      ensures woke <==> old(woke) || payload == question
    {
      if payload == question { woke := true; }
    }

    /** One round up to its await: an end, or a cleared event and the timeout to wait for it. */
    method Round(deadline: real, tick: Tick) returns (end: Option<Wait>, timeout: real)
      modifies this`woke
      ensures end.None? <==> GoesOn(deadline, tick)
      ensures end.Some? ==> woke == old(woke) && end.value == if Open(tick.row) then TimedOut else Resolved(tick.row)
      ensures end.None? ==> !woke && 0.0 < timeout == Timeout(deadline, tick.clock)
    {
      timeout := 0.0;
      var current := tick.row;
      if current.None? || current.value.status != PendingQuestions.Pending { return Some(Resolved(current)), timeout; }
      var remaining := deadline - tick.clock;
      if remaining <= 0.0 { return Some(TimedOut), timeout; }
      woke := false;
      timeout := Least(BACKSTOP_SECONDS, remaining);
      end := None;
    }

    /**
     The loop over whatever rounds the environment grants, `heard[k]` being the notifications of the k-th
     wait. It returns what the rounds come to, having waited after each but the last, for as long as it may;
     and it leaves the event as the last wait did, set exactly if it heard of this question.
     */
    method WaitForAnswer(start: real, timeout: real, ticks: seq<Tick>, heard: seq<seq<int>>) returns (r: Wait, timeouts: seq<real>)
      requires |heard| == |ticks|
      modifies this`woke
      ensures r == Outcomes(start + timeout, ticks, 0)
      ensures |timeouts| == LastRound(start + timeout, ticks, 0)
      ensures forall k :: 0 <= k < |timeouts| ==> 0.0 < timeouts[k] == Timeout(start + timeout, ticks[k].clock)
      ensures woke <==> if |timeouts| == 0 then old(woke) else question in heard[|timeouts| - 1]
    {
      var deadline := start + timeout;
      timeouts := [];
      for k := 0 to |ticks|
        invariant |timeouts| == k && LastRound(deadline, ticks, k) == LastRound(deadline, ticks, 0)
        invariant Outcomes(deadline, ticks, k) == Outcomes(deadline, ticks, 0)
        invariant forall i :: 0 <= i < k ==> 0.0 < timeouts[i] == Timeout(deadline, ticks[i].clock)
        invariant woke <==> if k == 0 then old(woke) else question in heard[k - 1]
      {
        var end, wait := Round(deadline, ticks[k]);
        if end.Some? { return end.value, timeouts; }
        timeouts := timeouts + [wait];
        for i := 0 to |heard[k]|
          invariant woke <==> question in heard[k][..i]
        {
          OnNotify(heard[k][i]);
        }
        assert heard[k][..|heard[k]|] == heard[k];
      }
      r := StillWaiting;
    }
  }

  // ---- which resolutions a wait reports ----

  /** The row as it was at each instant. */
  type Timeline = real -> Row

  /** Rounds of one wait on a timeline, each read at most its predecessor's timeout and `overhead` after it. */
  ghost predicate Observes(table: Timeline, start: real, deadline: real, overhead: real, ticks: seq<Tick>) {
    && (ticks != [] ==> start <= ticks[0].readAt)
    && (forall k :: 0 <= k < |ticks| ==> ticks[k].row == table(ticks[k].readAt) && ticks[k].readAt <= ticks[k].clock)
    && (forall k :: 0 < k < |ticks| ==>
          ticks[k - 1].clock <= ticks[k].readAt <= ticks[k - 1].clock + Timeout(deadline, ticks[k - 1].clock) + overhead)
  }

  /** The row is pending before `at`, and from then on `closed`, resolved or gone. */
  ghost predicate ClosesAt(table: Timeline, at: real, closed: Row) {
    !Open(closed) && (forall t :: t < at ==> Open(table(t))) && (forall t :: t >= at ==> table(t) == closed)
  }

  /** The clock is looked at within `latency` of every read. */
  predicate Prompt(latency: real, ticks: seq<Tick>) {
    forall k :: 0 <= k < |ticks| ==> ticks[k].clock <= ticks[k].readAt + latency
  }

  /** A wait that has ended reports exactly what was committed by its last read. */
  lemma {:induction false} ReportedByLastRead(table: Timeline, start: real, deadline: real, overhead: real, ticks: seq<Tick>, at: real, closed: Row)
    requires Observes(table, start, deadline, overhead, ticks) && ClosesAt(table, at, closed)
    requires LastRound(deadline, ticks, 0) < |ticks|
    ensures var last := LastRound(deadline, ticks, 0);
            Outcomes(deadline, ticks, 0) == if at <= ticks[last].readAt then Resolved(closed) else TimedOut
  {}

  ghost predicate Reports(table: Timeline, start: real, deadline: real, overhead: real, latency: real, closed: Row, ticks: seq<Tick>) {
    Observes(table, start, deadline, overhead, ticks) && Prompt(latency, ticks) && LastRound(deadline, ticks, 0) < |ticks| ==>
      Outcomes(deadline, ticks, 0) == Resolved(closed)
  }

  lemma {:induction false} StartsBefore(table: Timeline, start: real, deadline: real, overhead: real, ticks: seq<Tick>, k: nat)
    requires Observes(table, start, deadline, overhead, ticks) && k < |ticks|
    ensures start <= ticks[k].readAt
  {
    if k > 0 { StartsBefore(table, start, deadline, overhead, ticks, k - 1); }
  }

  /**
   Known before the wait begins: a resolution is reported by every wait that ends, however its rounds fall and
   with every notification possibly lost, if and only if it is committed by the start of the wait, or earlier
   than the deadline by the time that may pass between a read and the look at the clock.
   */
  lemma ReportedExactly(table: Timeline, start: real, deadline: real, overhead: real, latency: real, at: real, closed: Row)
    requires ClosesAt(table, at, closed) && latency >= 0.0
    ensures (forall ticks :: Reports(table, start, deadline, overhead, latency, closed, ticks)) <==>
            at <= Most(start, deadline - latency)
  {
    if at <= Most(start, deadline - latency) {
      forall ticks ensures Reports(table, start, deadline, overhead, latency, closed, ticks) {
        if Observes(table, start, deadline, overhead, ticks) && Prompt(latency, ticks) && LastRound(deadline, ticks, 0) < |ticks| {
          var last := LastRound(deadline, ticks, 0);
          StartsBefore(table, start, deadline, overhead, ticks, last);
          ReportedByLastRead(table, start, deadline, overhead, ticks, at, closed);
        }
      }
    } else {
      var read := Most(start, deadline - latency);
      var ticks := [Tick(read, table(read), Most(read, deadline))];
      assert Open(table(read)) && LastRound(deadline, ticks, 0) == 0;
      assert !Reports(table, start, deadline, overhead, latency, closed, ticks);
    }
  }

  // ---- the wait as steps ----

  /** `timeout` is when `wait_for_answer` gives up; `lag` and `slack` bound what the loop and a timed wait may dawdle. */
  datatype Setup = Setup(start: real, timeout: real, lag: real, slack: real) {
    function Deadline(): real {
      start + timeout
    }
  }

  datatype Stage =
    | Reading
    | Looking(row: Row, readAt: real)
    | Clearing(timeout: real)
    | Starting(timeout: real)
    | Waiting(until: real, began: real)
    | Ended(result: Wait)

  /** `first` is the row at the start, `since` when the stage was entered, `woke` when the event was set. */
  datatype State = State(
    row: Row,
    first: Row,
    closedAt: Option<real>,
    clock: real,
    since: real,
    stage: Stage,
    woke: Option<real>,
    ticks: seq<Tick>)

  /** The loop's steps, a commit that closes the question, and the delivery of a notification, for whatever reason. */
  datatype Event = Read | Look | Clear | StartWait | Wake | Close(row: Row) | Notify

  datatype Action = At(time: real, event: Event)

  /** By when the loop takes its next step. */
  function Due(setup: Setup, s: State): Option<real> {
    match s.stage
    case Ended(_) => None
    case Waiting(until, began) =>
      Some((if s.woke.Some? then Least(until, Most(s.woke.value, began)) else until) + setup.slack)
    case _ => Some(s.since + setup.lag)
  }

  predicate Enabled(setup: Setup, s: State, a: Action) {
    && s.clock < a.time
    && (Due(setup, s).Some? ==> a.time <= Due(setup, s).value)
    && match a.event
       case Read => s.stage.Reading?
       case Look => s.stage.Looking?
       case Clear => s.stage.Clearing?
       case StartWait => s.stage.Starting?
       case Wake => s.stage.Waiting? && (s.woke.Some? || a.time >= s.stage.until)
       case Close(row) => Open(s.row) && !Open(row)
       case Notify => true
  }

  /** What the loop does with a row it has read and the clock: an end, or a wait to prepare. */
  function Looked(deadline: real, row: Row, clock: real): Stage {
    if !Open(row) then Ended(Resolved(row))
    else if deadline - clock <= 0.0 then Ended(TimedOut)
    else Clearing(Timeout(deadline, clock))
  }

  function Enter(s: State, stage: Stage, now: real): State {
    s.(stage := stage, since := now, clock := now)
  }

  function Apply(setup: Setup, s: State, a: Action): State
    requires Enabled(setup, s, a)
  {
    var now := a.time;
    match a.event
    case Read => Enter(s, Looking(s.row, now), now)
    case Look =>
      Enter(s, Looked(setup.Deadline(), s.stage.row, now), now).(ticks := s.ticks + [Tick(s.stage.readAt, s.stage.row, now)])
    case Clear => Enter(s, Starting(s.stage.timeout), now).(woke := None)
    case StartWait => Enter(s, Waiting(now + s.stage.timeout, now), now)
    case Wake => Enter(s, Reading, now)
    case Close(row) => s.(row := row, closedAt := Some(now), clock := now)
    case Notify => s.(woke := if s.woke.Some? then s.woke else Some(now), clock := now)
  }

  function Begun(setup: Setup, row: Row): State {
    State(row, row, None, setup.start, setup.start, Reading, None, [])
  }

  function After(setup: Setup, row: Row, run: seq<Action>): Option<State> {
    if run == [] then Some(Begun(setup, row))
    else
      var last := |run| - 1;
      match After(setup, row, run[..last])
      case None => None
      case Some(s) => if Enabled(setup, s, run[last]) then Some(Apply(setup, s, run[last])) else None
  }

  /** The row at an instant of the run so far. */
  function RowAt(s: State, t: real): Row {
    if s.closedAt.Some? && t >= s.closedAt.value then s.row else s.first
  }

  /** What a wait adds at most to its timeout before the row is read again. */
  function Overhead(setup: Setup): real {
    3.0 * setup.lag + setup.slack
  }

  predicate TickOk(setup: Setup, s: State, k: nat)
    requires k < |s.ticks|
  {
    var tick := s.ticks[k];
    && tick.row == RowAt(s, tick.readAt)
    && tick.readAt <= tick.clock <= tick.readAt + setup.lag && tick.clock <= s.clock
    && (if k == 0 then setup.start <= tick.readAt
        else var before := s.ticks[k - 1].clock;
             before <= tick.readAt <= before + Timeout(setup.Deadline(), before) + Overhead(setup))
  }

  /** When the wait that is under way began to be prepared, and how long it may take: at once, for the first read. */
  function Prepared(setup: Setup, s: State): real {
    if s.ticks == [] then setup.start else s.ticks[|s.ticks| - 1].clock
  }

  function Allowed(setup: Setup, s: State): real {
    if s.ticks == [] then 0.0 else Timeout(setup.Deadline(), Prepared(setup, s))
  }

  predicate StageOk(setup: Setup, s: State) {
    var last, allowed := Prepared(setup, s), Allowed(setup, s);
    && last <= s.since <= s.clock
    && (Due(setup, s).Some? ==> s.clock <= Most(s.since, Due(setup, s).value))
    && match s.stage
       case Reading => s.since <= last + allowed + 2.0 * setup.lag + setup.slack
       case Looking(row, readAt) =>
         readAt == s.since && row == RowAt(s, readAt) && readAt <= last + allowed + Overhead(setup)
       case Clearing(timeout) => s.ticks != [] && timeout == allowed && s.since == last
       case Starting(timeout) => s.ticks != [] && timeout == allowed && s.since <= last + setup.lag
       case Waiting(until, began) => s.ticks != [] && until == began + allowed && s.since == began <= last + 2.0 * setup.lag
       case Ended(result) => s.ticks != []
  }

  predicate RowOk(setup: Setup, s: State) {
    && (s.closedAt.None? ==> s.row == s.first)
    && (s.closedAt.Some? ==> Open(s.first) && !Open(s.row) && setup.start < s.closedAt.value <= s.clock)
    && (s.woke.Some? ==> s.woke.value <= s.clock)
    && setup.start <= s.clock
  }

  /** Every round but a last one that ended the wait went on. */
  predicate RoundsOk(setup: Setup, s: State) {
    var n := |s.ticks|;
    && (forall k :: 0 <= k < (if s.stage.Ended? then n - 1 else n) ==> GoesOn(setup.Deadline(), s.ticks[k]))
    && (s.stage.Ended? ==> n > 0 && s.stage == Looked(setup.Deadline(), s.ticks[n - 1].row, s.ticks[n - 1].clock))
  }

  ghost predicate Inv(setup: Setup, s: State) {
    && RowOk(setup, s)
    && StageOk(setup, s)
    && RoundsOk(setup, s)
    && forall k :: 0 <= k < |s.ticks| ==> TickOk(setup, s, k)
  }

  lemma RowKeeps(setup: Setup, s: State, a: Action)
    requires RowOk(setup, s) && Enabled(setup, s, a)
    ensures RowOk(setup, Apply(setup, s, a))
  {}

  lemma TicksKeep(setup: Setup, s: State, a: Action, k: nat)
    requires setup.lag >= 0.0 && setup.slack >= 0.0
    requires RowOk(setup, s) && StageOk(setup, s) && Enabled(setup, s, a) && k < |Apply(setup, s, a).ticks|
    requires k < |s.ticks| ==> TickOk(setup, s, k)
    ensures TickOk(setup, Apply(setup, s, a), k)
  {}

  lemma LookKeeps(setup: Setup, s: State, a: Action)
    requires setup.lag >= 0.0 && setup.slack >= 0.0
    requires StageOk(setup, s) && Enabled(setup, s, a) && a.event.Look?
    ensures StageOk(setup, Apply(setup, s, a))
  {
    hide Timeout, RowAt;
  }

  lemma LoopKeeps(setup: Setup, s: State, a: Action)
    requires setup.lag >= 0.0 && setup.slack >= 0.0
    requires RowOk(setup, s) && StageOk(setup, s) && Enabled(setup, s, a) && !a.event.Look? && !a.event.Close? && !a.event.Notify?
    ensures StageOk(setup, Apply(setup, s, a))
  {
    assert Allowed(setup, Apply(setup, s, a)) == Allowed(setup, s) && Prepared(setup, Apply(setup, s, a)) == Prepared(setup, s);
    hide Timeout, Allowed, Prepared;
  }

  lemma OutsideKeeps(setup: Setup, s: State, a: Action)
    requires setup.lag >= 0.0 && setup.slack >= 0.0
    requires RowOk(setup, s) && StageOk(setup, s) && Enabled(setup, s, a) && (a.event.Close? || a.event.Notify?)
    ensures StageOk(setup, Apply(setup, s, a))
  {
    hide Timeout;
  }

  lemma RoundsKeep(setup: Setup, s: State, a: Action)
    requires RoundsOk(setup, s) && Enabled(setup, s, a)
    ensures RoundsOk(setup, Apply(setup, s, a))
  {}

  lemma StepKeeps(setup: Setup, s: State, a: Action)
    requires setup.lag >= 0.0 && setup.slack >= 0.0
    requires Inv(setup, s) && Enabled(setup, s, a)
    ensures Inv(setup, Apply(setup, s, a))
  {
    hide RowOk, StageOk, RoundsOk, TickOk;
    RowKeeps(setup, s, a);
    if a.event.Look? { LookKeeps(setup, s, a); }
    else if a.event.Close? || a.event.Notify? { OutsideKeeps(setup, s, a); }
    else { LoopKeeps(setup, s, a); }
    RoundsKeep(setup, s, a);
    forall k | 0 <= k < |Apply(setup, s, a).ticks| ensures TickOk(setup, Apply(setup, s, a), k) {
      TicksKeep(setup, s, a, k);
    }
  }

  lemma {:induction false} RunKeeps(setup: Setup, row: Row, run: seq<Action>)
    requires setup.lag >= 0.0 && setup.slack >= 0.0 && After(setup, row, run).Some?
    ensures Inv(setup, After(setup, row, run).value) && After(setup, row, run).value.first == row
  {
    hide Enabled, Inv, Apply;
    if run == [] {
      BegunOk(setup, row);
    } else {
      var last := |run| - 1;
      RunKeeps(setup, row, run[..last]);
      StepKeeps(setup, After(setup, row, run[..last]).value, run[last]);
      FirstKept(setup, After(setup, row, run[..last]).value, run[last]);
    }
  }

  lemma BegunOk(setup: Setup, row: Row)
    requires setup.lag >= 0.0 && setup.slack >= 0.0
    ensures Inv(setup, Begun(setup, row)) && Begun(setup, row).first == row
  {}

  lemma FirstKept(setup: Setup, s: State, a: Action)
    requires Enabled(setup, s, a)
    ensures Apply(setup, s, a).first == s.first
  {}

  function TableOf(s: State): Timeline {
    t => RowAt(s, t)
  }

  lemma RoundsDecide(setup: Setup, s: State)
    requires RoundsOk(setup, s)
    ensures Outcomes(setup.Deadline(), s.ticks, 0) == if s.stage.Ended? then s.stage.result else StillWaiting
    ensures s.stage.Ended? ==> LastRound(setup.Deadline(), s.ticks, 0) == |s.ticks| - 1
  {
    var last := LastRound(setup.Deadline(), s.ticks, 0);
    hide Outcomes, LastRound;
    if s.stage.Ended? {
      assert !GoesOn(setup.Deadline(), s.ticks[|s.ticks| - 1]);
    }
  }

  /**
   Every run of the steps is rounds of the loop: its reads and looks at the clock are as `Observes` describes,
   never further apart than timeout, lags and slack allow, and the loop ends as its rounds decide.
   */
  lemma {:induction false} RunIsRounds(setup: Setup, row: Row, run: seq<Action>, s: State)
    requires setup.lag >= 0.0 && setup.slack >= 0.0 && After(setup, row, run) == Some(s)
    ensures Observes(TableOf(s), setup.start, setup.Deadline(), Overhead(setup), s.ticks) && Prompt(setup.lag, s.ticks)
    ensures Outcomes(setup.Deadline(), s.ticks, 0) == if s.stage.Ended? then s.stage.result else StillWaiting
    ensures s.stage.Ended? ==> LastRound(setup.Deadline(), s.ticks, 0) == |s.ticks| - 1
  {
    RunKeeps(setup, row, run);
    RoundsDecide(setup, s);
    hide Outcomes, LastRound, RowAt, Overhead, Timeout, RowOk, StageOk, RoundsOk;
    forall k | 0 <= k < |s.ticks|
      ensures s.ticks[k].row == TableOf(s)(s.ticks[k].readAt) && s.ticks[k].readAt <= s.ticks[k].clock <= s.ticks[k].readAt + setup.lag
    {
      assert TickOk(setup, s, k);
    }
    forall k | 0 < k < |s.ticks|
      ensures var before := s.ticks[k - 1].clock;
              before <= s.ticks[k].readAt <= before + Timeout(setup.Deadline(), before) + Overhead(setup)
    {
      assert TickOk(setup, s, k);
    }
    if s.ticks != [] { assert TickOk(setup, s, 0); }
    hide TickOk;
  }

  /**
   Over every run: a wait that has ended reports every resolution committed by the deadline less the lag, with
   all notifications possibly lost; and it times out only on an open question, at or after the deadline.
   */
  lemma {:induction false} RunReports(setup: Setup, row: Row, run: seq<Action>, s: State)
    requires setup.lag >= 0.0 && setup.slack >= 0.0 && After(setup, row, run) == Some(s) && s.stage.Ended?
    ensures !Open(row) ==> s.stage.result == Resolved(row)
    ensures s.closedAt.Some? && s.closedAt.value <= setup.Deadline() - setup.lag ==> s.stage.result == Resolved(s.row)
    ensures s.stage.result.TimedOut? ==> Open(row) && s.clock >= setup.Deadline()
  {
    RunKeeps(setup, row, run);
    assert TickOk(setup, s, |s.ticks| - 1);
    hide After;
  }

  lemma {:induction false} Extend(setup: Setup, row: Row, run: seq<Action>, s: State, a: Action, t: State)
    requires After(setup, row, run) == Some(s) && Enabled(setup, s, a) && Apply(setup, s, a) == t
    ensures After(setup, row, run + [a]) == Some(t)
  {
    assert (run + [a])[..|run|] == run;
  }

  lemma {:induction false} NothingYet(setup: Setup, row: Row)
    ensures After(setup, row, []) == Some(Begun(setup, row))
  {}

  /** Looking too late at an open row ends the wait. */
  lemma LateLook(setup: Setup, s: State, now: real)
    requires s.stage.Looking? && Open(s.stage.row) && Enabled(setup, s, At(now, Look)) && setup.Deadline() <= now
    ensures Apply(setup, s, At(now, Look)) ==
            s.(stage := Ended(TimedOut), since := now, clock := now, ticks := s.ticks + [Tick(s.stage.readAt, s.stage.row, now)])
  {}

  /** Read just before the deadline, closed, and then the clock is past it: the resolution is not reported. */
  lemma {:induction false} GapLosesAnswer(row: Row, closed: Row)
    requires Open(row) && !Open(closed)
    ensures After(Setup(0.0, 1.0, 1.0, 0.0), row, [] + [At(0.5, Read)] + [At(0.7, Close(closed))] + [At(1.2, Look)]) ==
            Some(State(closed, row, Some(0.7), 1.2, 1.2, Ended(TimedOut), None, [] + [Tick(0.5, row, 1.2)]))
  {
    hide After, Looked;
    var setup := Setup(0.0, 1.0, 1.0, 0.0);
    var one := State(row, row, None, 0.5, 0.5, Looking(row, 0.5), None, []);
    var two := State(closed, row, Some(0.7), 0.7, 0.5, Looking(row, 0.5), None, []);
    NothingYet(setup, row);
    Extend(setup, row, [], Begun(setup, row), At(0.5, Read), one);
    Extend(setup, row, [] + [At(0.5, Read)], one, At(0.7, Close(closed)), two);
    LateLook(setup, two, 1.2);
    hide Apply, Enabled;
    Extend(setup, row, [] + [At(0.5, Read)] + [At(0.7, Close(closed))], two, At(1.2, Look), Apply(setup, two, At(1.2, Look)));
  }

  // ---- which resolutions some run loses ----

  /** An open question, nothing happening, the loop about to read. */
  predicate AtRead(s: State, row: Row, now: real) {
    s.stage.Reading? && s.clock == s.since == now && s.row == row && s.closedAt.None?
  }

  lemma Go(setup: Setup, row: Row, run: seq<Action>, s: State, a: Action) returns (more: seq<Action>, t: State)
    requires After(setup, row, run) == Some(s) && Enabled(setup, s, a)
    ensures After(setup, row, more) == Some(t) && t == Apply(setup, s, a)
  {
    t := Apply(setup, s, a);
    Extend(setup, row, run, s, a, t);
    more := run + [a];
  }

  /** A read, a look, a clear and the start of the wait, half a lag in all. */
  lemma SettleDown(setup: Setup, row: Row, run: seq<Action>, s: State, now: real) returns (more: seq<Action>, t: State)
    requires setup.lag > 0.0 && Open(row) && After(setup, row, run) == Some(s) && AtRead(s, row, now)
    requires now + setup.lag / 4.0 < setup.Deadline()
    ensures After(setup, row, more) == Some(t)
    ensures var began := now + setup.lag / 2.0;
            && t.stage == Waiting(began + Timeout(setup.Deadline(), now + setup.lag / 4.0), began)
            && t.clock == began && t.row == row && t.closedAt.None? && t.woke.None?
  {
    hide After;
    var e := setup.lag / 8.0;
    var run1, s1 := Go(setup, row, run, s, At(now + e, Read));
    var run2, s2 := Go(setup, row, run1, s1, At(now + 2.0 * e, Look));
    assert s2.stage == Clearing(Timeout(setup.Deadline(), now + 2.0 * e));
    var run3, s3 := Go(setup, row, run2, s2, At(now + 3.0 * e, Clear));
    more, t := Go(setup, row, run3, s3, At(now + 4.0 * e, StartWait));
  }

  /** A wait may be cut short at any time by a notification. */
  lemma WakeAt(setup: Setup, row: Row, run: seq<Action>, s: State, wake: real) returns (more: seq<Action>, t: State)
    requires setup.slack > 0.0 && After(setup, row, run) == Some(s)
    requires s.stage.Waiting? && s.woke.None? && s.stage.began == s.clock < wake <= s.stage.until
    requires s.row == row && s.closedAt.None?
    ensures After(setup, row, more) == Some(t) && AtRead(t, row, wake)
  {
    hide After;
    var notify := Most((s.clock + wake) / 2.0, wake - setup.slack / 2.0);
    var run1, s1 := Go(setup, row, run, s, At(notify, Notify));
    more, t := Go(setup, row, run1, s1, At(wake, Wake));
  }

  /** Any instant before the deadline can be one at which the loop reads the row. */
  lemma {:induction false} ReadsAt(setup: Setup, row: Row, run: seq<Action>, s: State, now: real, read: real)
    returns (more: seq<Action>, t: State)
    requires setup.lag > 0.0 && setup.slack > 0.0 && Open(row) && After(setup, row, run) == Some(s) && AtRead(s, row, now)
    requires now < read && (read <= now + setup.lag || read < setup.Deadline())
    ensures After(setup, row, more) == Some(t) && t.stage == Looking(row, read) && t.clock == t.since == read
    ensures t.row == row && t.closedAt.None?
    decreases read - now
  {
    hide After;
    if read <= now + setup.lag {
      more, t := Go(setup, row, run, s, At(read, Read));
    } else {
      var run1, s1 := SettleDown(setup, row, run, s, now);
      var wake := Least(read - setup.lag / 2.0, s1.stage.until);
      var run2, s2 := WakeAt(setup, row, run1, s1, wake);
      if wake == read - setup.lag / 2.0 {
        more, t := Go(setup, row, run2, s2, At(read, Read));
      } else {
        more, t := ReadsAt(setup, row, run2, s2, wake, read);
      }
    }
  }

  /** The question is closed at `at`, and the wait ends without reporting it. */
  ghost predicate Loses(setup: Setup, row: Row, run: seq<Action>, at: real) {
    match After(setup, row, run)
    case None => false
    case Some(s) => s.closedAt == Some(at) && s.stage == Ended(TimedOut)
  }

  /**
   And no resolution later than that is safe: for any lag and slack, whenever after the start and after the
   deadline less the lag the question is closed, some run of the loop ends without reporting it.
   */
  lemma LateIsLost(setup: Setup, row: Row, closed: Row, at: real) returns (run: seq<Action>)
    requires setup.lag > 0.0 && setup.slack > 0.0 && Open(row) && !Open(closed)
    requires at > Most(setup.start, setup.Deadline() - setup.lag)
    ensures Loses(setup, row, run, at)
  {
    NothingYet(setup, row);
    hide After;
    var low := Most(setup.start, setup.Deadline() - setup.lag);
    var read := Least((low + at) / 2.0, low + setup.lag / 2.0);
    var run1, s1 := ReadsAt(setup, row, [], Begun(setup, row), setup.start, read);
    var soon := Most(setup.Deadline(), read + setup.lag / 2.0);
    var look := if at == soon then read + setup.lag else soon;
    if at < look {
      var run2, s2 := Go(setup, row, run1, s1, At(at, Close(closed)));
      var s3: State;
      run, s3 := Go(setup, row, run2, s2, At(look, Look));
    } else {
      var run2, s2 := Go(setup, row, run1, s1, At(look, Look));
      var s3: State;
      run, s3 := Go(setup, row, run2, s2, At(at, Close(closed)));
    }
  }

  /**
   Over runs, exactly: every run that closes the question at `at` and ends reports the resolution if and only
   if `at` is no later than the deadline less the lag.
   */
  lemma RunsReportExactly(setup: Setup, row: Row, closed: Row, at: real)
    requires setup.lag > 0.0 && setup.slack > 0.0 && Open(row) && !Open(closed) && at > setup.start
    ensures (forall run :: !Loses(setup, row, run, at)) <==> at <= setup.Deadline() - setup.lag
  {
    hide After;
    if at <= setup.Deadline() - setup.lag {
      forall run ensures !Loses(setup, row, run, at) {
        var end := After(setup, row, run);
        if end.Some? && end.value.stage.Ended? { RunReports(setup, row, run, end.value); }
      }
    } else {
      var run := LateIsLost(setup, row, closed, at);
    }
  }

  // ---- how soon a resolution is read ----

  /** The closed row has been read, or the wait is over. */
  predicate Noticed(s: State) {
    s.stage.Ended? || (s.stage.Looking? && !Open(s.stage.row))
  }

  /** How long ago the question was closed, stage by stage, at most. */
  predicate Hurries(setup: Setup, s: State) {
    s.closedAt.Some? ==>
      var late := s.since - s.closedAt.value;
      match s.stage
      case Reading => late <= 3.0 * setup.lag + BACKSTOP_SECONDS + setup.slack
      case Looking(row, _) => if Open(row) then late <= 0.0 else late <= 4.0 * setup.lag + BACKSTOP_SECONDS + setup.slack
      case Clearing(timeout) => late <= setup.lag && timeout <= BACKSTOP_SECONDS
      case Starting(timeout) => late <= 2.0 * setup.lag && timeout <= BACKSTOP_SECONDS
      case Waiting(until, began) => late <= 3.0 * setup.lag && until <= began + BACKSTOP_SECONDS && began == s.since
      case Ended(_) => true
  }

  predicate TimeoutsBounded(setup: Setup, s: State) {
    && s.since <= s.clock
    && (s.stage.Clearing? || s.stage.Starting? ==> s.stage.timeout <= BACKSTOP_SECONDS)
    && (s.stage.Waiting? ==> s.stage.until <= s.stage.began + BACKSTOP_SECONDS && s.stage.began == s.since)
  }

  lemma HurriesStep(setup: Setup, s: State, a: Action)
    requires setup.lag >= 0.0 && setup.slack >= 0.0 && Enabled(setup, s, a)
    requires Hurries(setup, s) && TimeoutsBounded(setup, s) && RowOk(setup, s)
    ensures Hurries(setup, Apply(setup, s, a)) && TimeoutsBounded(setup, Apply(setup, s, a))
  {}

  lemma {:induction false} HurriesRun(setup: Setup, row: Row, run: seq<Action>)
    requires setup.lag >= 0.0 && setup.slack >= 0.0 && After(setup, row, run).Some?
    ensures Hurries(setup, After(setup, row, run).value) && TimeoutsBounded(setup, After(setup, row, run).value)
  {
    hide Enabled, Apply, Hurries, TimeoutsBounded, Inv;
    if run == [] {
      BegunHurries(setup, row);
    } else {
      var last := |run| - 1;
      HurriesRun(setup, row, run[..last]);
      RowOkAfter(setup, row, run[..last]);
      HurriesStep(setup, After(setup, row, run[..last]).value, run[last]);
    }
  }

  lemma BegunHurries(setup: Setup, row: Row)
    ensures Hurries(setup, Begun(setup, row)) && TimeoutsBounded(setup, Begun(setup, row))
  {}

  lemma {:induction false} RowOkAfter(setup: Setup, row: Row, run: seq<Action>)
    requires setup.lag >= 0.0 && setup.slack >= 0.0 && After(setup, row, run).Some?
    ensures RowOk(setup, After(setup, row, run).value) && StageOk(setup, After(setup, row, run).value)
  {
    RunKeeps(setup, row, run);
    hide RowOk, StageOk, RoundsOk, TickOk;
  }

  /**
   With every notification lost: as long as the closed row has not been read, at most the backstop, four lags
   and the slack have passed since it was closed; and one lag later the wait has ended.
   */
  lemma {:induction false} ReadWithinBackstop(setup: Setup, row: Row, run: seq<Action>, s: State)
    requires setup.lag >= 0.0 && setup.slack >= 0.0 && After(setup, row, run) == Some(s) && s.closedAt.Some?
    ensures !Noticed(s) ==> s.clock <= s.closedAt.value + BACKSTOP_SECONDS + 4.0 * setup.lag + setup.slack
    ensures !s.stage.Ended? ==> s.clock <= s.closedAt.value + BACKSTOP_SECONDS + 5.0 * setup.lag + setup.slack
  {
    HurriesRun(setup, row, run);
    RowOkAfter(setup, row, run);
    hide After;
  }

  // ---- when the backstop is needed ----

  /** The loop is between a read and the clear: a notification delivered now is wiped. */
  predicate Deaf(s: State) {
    s.stage.Looking? || s.stage.Clearing?
  }

  /** The loop has heard a notification delivered at `at`, after the question was closed, and hurries to read. */
  predicate Alert(setup: Setup, s: State, at: real) {
    && s.closedAt.Some? && !Open(s.row) && s.since <= s.clock
    && match s.stage
       case Reading => s.since <= at + setup.lag + setup.slack
       case Looking(row, _) => !Open(row) && s.since <= at + 2.0 * setup.lag + setup.slack
       case Clearing(_) => false
       case Starting(_) => s.since <= at && s.woke.Some? && s.woke.value <= at
       case Waiting(_, began) => s.woke.Some? && s.woke.value <= at && began <= at + setup.lag
       case Ended(_) => true
  }

  lemma AlertStep(setup: Setup, s: State, a: Action, at: real)
    requires setup.lag >= 0.0 && setup.slack >= 0.0 && Enabled(setup, s, a) && Alert(setup, s, at)
    ensures Alert(setup, Apply(setup, s, a), at)
  {}

  lemma AlertStarts(setup: Setup, s: State, at: real)
    requires setup.lag >= 0.0 && setup.slack >= 0.0 && Enabled(setup, s, At(at, Notify))
    requires s.closedAt.Some? && !Open(s.row) && TimeoutsBounded(setup, s) && !Deaf(s) && RowOk(setup, s)
    ensures Alert(setup, Apply(setup, s, At(at, Notify)), at)
  {}

  lemma {:induction false} AlertRun(setup: Setup, row: Row, run: seq<Action>, k: nat, at: real)
    requires setup.lag >= 0.0 && setup.slack >= 0.0 && k <= |run|
    requires After(setup, row, run).Some? && After(setup, row, run[..k]).Some? && Alert(setup, After(setup, row, run[..k]).value, at)
    ensures Alert(setup, After(setup, row, run).value, at)
  {
    hide Alert, Enabled, Apply;
    if k == |run| {
      assert run[..k] == run;
    } else {
      var last := |run| - 1;
      assert run[..last][..k] == run[..k];
      AlertRun(setup, row, run[..last], k, at);
      AlertStep(setup, After(setup, row, run[..last]).value, run[last], at);
    }
  }

  /**
   A notification of a closed question that is delivered, and not between a read and the clear, needs no
   backstop: within three lags and the slack the closed row has been read and the wait is over.
   */
  lemma {:induction false} HeardIsPrompt(setup: Setup, row: Row, run: seq<Action>, k: nat, s: State)
    requires setup.lag >= 0.0 && setup.slack >= 0.0 && After(setup, row, run) == Some(s)
    requires k < |run| && run[k].event.Notify?
    requires After(setup, row, run[..k]).Some? && After(setup, row, run[..k]).value.closedAt.Some?
    requires !Deaf(After(setup, row, run[..k]).value)
    ensures !s.stage.Ended? ==> s.clock <= run[k].time + 3.0 * setup.lag + setup.slack
  {
    var before, at := After(setup, row, run[..k]).value, run[k].time;
    assert run[..k + 1][..k] == run[..k];
    AfterPrefix(setup, row, run, k + 1);
    HurriesRun(setup, row, run[..k]);
    RowOkAfter(setup, row, run[..k]);
    AlertStarts(setup, before, at);
    AlertRun(setup, row, run, k + 1, at);
    RowOkAfter(setup, row, run);
    hide After;
  }

  lemma {:induction false} AfterPrefix(setup: Setup, row: Row, run: seq<Action>, k: nat)
    requires k <= |run| && After(setup, row, run).Some?
    ensures After(setup, row, run[..k]).Some?
  {
    if k == |run| {
      assert run[..k] == run;
    } else {
      AfterPrefix(setup, row, run[..|run| - 1], k);
      assert run[..|run| - 1][..k] == run[..k];
    }
  }

  /** The loop will not read before the timeout prepared at `at` is over, unless it is notified. */
  predicate Mute(s: State, at: real, timeout: real) {
    || s.clock >= at + timeout
    || (s.stage == Clearing(timeout) && s.clock >= at)
    || (s.stage == Starting(timeout) && s.woke.None? && s.clock >= at)
    || (s.stage.Waiting? && s.woke.None? && s.stage.until >= at + timeout)
  }

  lemma MuteStep(setup: Setup, s: State, a: Action, at: real, timeout: real)
    requires Enabled(setup, s, a) && !a.event.Notify? && Mute(s, at, timeout)
    ensures Mute(Apply(setup, s, a), at, timeout)
  {}

  /**
   And otherwise the backstop is all there is: if every notification was lost, or came before the clear, the
   row is not read again before the whole timeout has passed.
   */
  lemma {:induction false} UnheardWaitsInFull(setup: Setup, row: Row, run: seq<Action>, k: nat, s: State)
    requires After(setup, row, run) == Some(s) && k <= |run| && After(setup, row, run[..k]).Some?
    requires After(setup, row, run[..k]).value.stage.Clearing?
    requires forall i :: k <= i < |run| ==> !run[i].event.Notify?
    ensures var cleared := After(setup, row, run[..k]).value;
            s.clock >= cleared.clock + cleared.stage.timeout || s.stage.Clearing? || s.stage.Starting? || s.stage.Waiting?
  {
    var cleared := After(setup, row, run[..k]).value;
    MuteRun(setup, row, run, k, cleared.clock, cleared.stage.timeout);
  }

  lemma {:induction false} MuteRun(setup: Setup, row: Row, run: seq<Action>, k: nat, at: real, timeout: real)
    requires k <= |run| && After(setup, row, run).Some? && After(setup, row, run[..k]).Some?
    requires Mute(After(setup, row, run[..k]).value, at, timeout)
    requires forall i :: k <= i < |run| ==> !run[i].event.Notify?
    ensures Mute(After(setup, row, run).value, at, timeout)
  {
    hide Mute, Enabled, Apply;
    if k == |run| {
      assert run[..k] == run;
    } else {
      var last := |run| - 1;
      assert run[..last][..k] == run[..k];
      MuteRun(setup, row, run[..last], k, at, timeout);
      MuteStep(setup, After(setup, row, run[..last]).value, run[last], at, timeout);
    }
  }

  /** Closed and notified right after a read: the clear wipes the notification, and the loop settles down for the backstop. */
  lemma {:induction false} WipedNotification(row: Row, closed: Row)
    requires Open(row) && !Open(closed)
    ensures After(Setup(0.0, 60.0, 1.0, 0.0), row,
                  [] + [At(1.0, Read)] + [At(1.2, Close(closed))] + [At(1.4, Notify)] + [At(1.5, Look)] + [At(1.6, Clear)] + [At(2.0, StartWait)]) ==
            Some(State(closed, row, Some(1.2), 2.0, 2.0, Waiting(17.0, 2.0), None, [Tick(1.0, row, 1.5)]))
  {
    hide After;
    var setup := Setup(0.0, 60.0, 1.0, 0.0);
    var tick := Tick(1.0, row, 1.5);
    var run := [] + [At(1.0, Read)] + [At(1.2, Close(closed))];
    var two := State(closed, row, Some(1.2), 1.2, 1.0, Looking(row, 1.0), None, []);
    NothingYet(setup, row);
    Extend(setup, row, [], Begun(setup, row), At(1.0, Read), State(row, row, None, 1.0, 1.0, Looking(row, 1.0), None, []));
    Extend(setup, row, [] + [At(1.0, Read)], State(row, row, None, 1.0, 1.0, Looking(row, 1.0), None, []), At(1.2, Close(closed)), two);
    var three := State(closed, row, Some(1.2), 1.4, 1.0, Looking(row, 1.0), Some(1.4), []);
    Extend(setup, row, run, two, At(1.4, Notify), three);
    var four := State(closed, row, Some(1.2), 1.5, 1.5, Clearing(15.0), Some(1.4), [tick]);
    Extend(setup, row, run + [At(1.4, Notify)], three, At(1.5, Look), four);
    var five := State(closed, row, Some(1.2), 1.6, 1.6, Starting(15.0), None, [tick]);
    Extend(setup, row, run + [At(1.4, Notify)] + [At(1.5, Look)], four, At(1.6, Clear), five);
    Extend(setup, row, run + [At(1.4, Notify)] + [At(1.5, Look)] + [At(1.6, Clear)], five, At(2.0, StartWait),
           State(closed, row, Some(1.2), 2.0, 2.0, Waiting(17.0, 2.0), None, [tick]));
  }
}
