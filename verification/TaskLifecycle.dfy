/**
 The status machine of a task (src/wolfpaw/memory/tasks.py:150-265) under interleaved writers, with
 the event log that `_transition` and the cancel commands write in a second statement
 (src/wolfpaw/tasks/service.py:498-534, src/wolfpaw/tasks/commands.py:96-104).

 One SQL statement is one step. A writer that crashes, or whose second statement fails, between the
 two loses its event; `_transition` swallows the error.
 */
module TaskLifecycle {
  import opened Prelude

  datatype Status = Pending | Running | Blocked | AwaitingUser | Completed | Failed | Cancelled

  predicate Terminal(status: Status) {
    status.Completed? || status.Failed? || status.Cancelled?
  }

  datatype Task = Task(
    user: int,
    status: Status,
    startedAt: Option<int>,
    completedAt: Option<int>,
    lastActiveAt: Option<int>,
    blockingReason: Option<string>,
    plan: Option<int>,
    spentCents: int)

  /** The guarded updates: each touches only a row that is not terminal. */
  datatype Write =
    | MarkStarted
    | MarkAwaitingUser(why: Option<string>)
    | MarkBlocked(reason: string)
    | MarkCompleted
    | MarkFailed(reason: string)
    | MarkCancelled(who: int)

  /** The status that a write leaves. */
  function Target(w: Write): Status {
    match w
    case MarkStarted => Running
    case MarkAwaitingUser(_) => AwaitingUser
    case MarkBlocked(_) => Blocked
    case MarkCompleted => Completed
    case MarkFailed(_) => Failed
    case MarkCancelled(_) => Cancelled
  }

  /** The row a write returns, or None when its WHERE clause met no row. */
  function Updated(t: Task, w: Write, now: int): Option<Task> {
    if Terminal(t.status) || (w.MarkCancelled? && w.who != t.user) then None
    else
      var u := t.(status := Target(w), lastActiveAt := Some(now));
      match w
      case MarkStarted =>
        Some(u.(startedAt := if t.startedAt.Some? then t.startedAt else Some(now), blockingReason := None))
      case MarkAwaitingUser(why) => Some(u.(blockingReason := why))
      case MarkBlocked(reason) => Some(u.(blockingReason := Some(reason)))
      case MarkCompleted => Some(u.(completedAt := Some(now), blockingReason := None))
      case MarkFailed(reason) => Some(u.(completedAt := Some(now), blockingReason := Some(reason)))
      case MarkCancelled(_) => Some(u.(completedAt := Some(now)))
  }

  // ---- interleaved writers ----

  /** What became of the event of a successful transition. */
  datatype Fate = InFlight | Logged | Lost

  datatype Event = Event(status: Status, fate: Fate)

  /** The row, the event of every successful transition, and the log as event numbers in append order. */
  datatype State = State(task: Task, events: map<int, Event>, log: seq<int>)

  datatype Action =
    | Transition(event: int, write: Write, now: int)   // first statement of a status change
    | Append(event: int)                               // its second statement
    | Lose(event: int)                                 // the second statement never happens
    | Quiet(write: Write, now: int)                    // a pause or resume by ask_user, with no status event
    | AttachPlan(plan: int, now: int)
    | RollUp(total: int)

  predicate Enabled(s: State, a: Action) {
    match a
    case Transition(e, _, _) => e !in s.events
    case Append(e) => e in s.events && s.events[e].fate == InFlight
    case Lose(e) => e in s.events && s.events[e].fate == InFlight
    case Quiet(w, _) => w.MarkStarted? || w.MarkAwaitingUser? || w.MarkBlocked?
    case AttachPlan(_, _) => true
    case RollUp(_) => true
  }

  function Apply(s: State, a: Action): State
    requires Enabled(s, a)
  {
    match a
    case Transition(e, w, now) =>
      (match Updated(s.task, w, now)
       case None => s
       case Some(t) => s.(task := t, events := s.events[e := Event(t.status, InFlight)]))
    case Append(e) => s.(events := s.events[e := s.events[e].(fate := Logged)], log := s.log + [e])
    case Lose(e) => s.(events := s.events[e := s.events[e].(fate := Lost)])
    case Quiet(w, now) =>
      (match Updated(s.task, w, now)
       case None => s
       case Some(t) => s.(task := t))
    case AttachPlan(p, now) => s.(task := s.task.(plan := Some(p), lastActiveAt := Some(now)))
    case RollUp(total) => s.(task := s.task.(spentCents := total))
  }

  /** A task just inserted, its `status.pending` event still to be appended. */
  function Created(user: int): State {
    State(Task(user, Pending, None, None, None, None, None, 0), map[0 := Event(Pending, InFlight)], [])
  }

  predicate TerminalEvent(s: State, e: int) {
    e in s.events && Terminal(s.events[e].status)
  }

  ghost predicate LogOk(s: State) {
    && (forall i :: 0 <= i < |s.log| ==> s.log[i] in s.events && s.events[s.log[i]].fate == Logged)
    && (forall i, j :: 0 <= i < j < |s.log| ==> s.log[i] != s.log[j])
    && (forall e :: e in s.events && s.events[e].fate == Logged ==> e in s.log)
  }

  ghost predicate Inv(s: State) {
    && LogOk(s)
    && (s.task.completedAt.Some? <==> Terminal(s.task.status))
    && (forall e :: TerminalEvent(s, e) ==> s.events[e].status == s.task.status)
    && (forall d, e :: TerminalEvent(s, d) && TerminalEvent(s, e) ==> d == e)
    && (Terminal(s.task.status) ==> exists e :: TerminalEvent(s, e))
  }

  lemma LogStepKeeps(s: State, a: Action)
    requires LogOk(s) && Enabled(s, a)
    ensures LogOk(Apply(s, a))
  {
    var t := Apply(s, a);
    if a.Append? {
      forall e | e in t.events && t.events[e].fate == Logged ensures e in t.log {
        assert t.log[|s.log|] == a.event;
        if e != a.event { assert e in s.log; }
      }
    }
  }

  lemma StepKeeps(s: State, a: Action)
    requires Inv(s) && Enabled(s, a)
    ensures Inv(Apply(s, a))
  {
    var t := Apply(s, a);
    LogStepKeeps(s, a);
    hide LogOk;
    forall e ensures TerminalEvent(t, e) ==> TerminalEvent(s, e) || (a.Transition? && a.event == e && !Terminal(s.task.status)) {}
    forall e | TerminalEvent(s, e) ensures TerminalEvent(t, e) && t.events[e].status == s.events[e].status {}
    if Terminal(t.task.status) && !Terminal(s.task.status) { assert TerminalEvent(t, a.event); }
  }

  // ---- every run ----

  function After(user: int, run: seq<Action>): Option<State> {
    if run == [] then Some(Created(user))
    else
      var last := |run| - 1;
      match After(user, run[..last])
      case None => None
      case Some(s) => if Enabled(s, run[last]) then Some(Apply(s, run[last])) else None
  }

  lemma {:induction false} RunKeeps(user: int, run: seq<Action>)
    requires After(user, run).Some?
    ensures Inv(After(user, run).value)
  {
    if run == [] {
      forall e ensures !TerminalEvent(Created(user), e) {}
    } else {
      var last := |run| - 1;
      RunKeeps(user, run[..last]);
      StepKeeps(After(user, run[..last]).value, run[last]);
    }
  }

  /** Everything a status change writes. */
  predicate SameLife(t: Task, u: Task) {
    && t.status == u.status && t.startedAt == u.startedAt && t.completedAt == u.completedAt
    && t.blockingReason == u.blockingReason && t.user == u.user
  }

  /** When the last plan from the k-th action on was attached. */
  function LastPlan(run: seq<Action>, k: nat): Option<int>
    requires k <= |run|
    decreases |run|
  {
    if k == |run| then None
    else
      var last := run[|run| - 1];
      if last.AttachPlan? then Some(last.now) else LastPlan(run[..|run| - 1], k)
  }

  /**
   A run that goes on from a terminal task: status, start, completion and reason stay as they were, and
   `last_active_at` is the time of the last plan attached since, or what it was if there is none; the start
   time, once written, is never rewritten.
   */
  lemma {:induction false} TerminalFrozen(user: int, run: seq<Action>, k: nat)
    requires k <= |run| && After(user, run).Some?
    ensures After(user, run[..k]).Some?
    ensures var was, later := After(user, run[..k]).value.task, After(user, run).value.task;
            && (was.startedAt.Some? ==> later.startedAt == was.startedAt)
            && (Terminal(was.status) ==> SameLife(was, later))
            && (Terminal(was.status) ==>
                  later.lastActiveAt == if LastPlan(run, k).Some? then LastPlan(run, k) else was.lastActiveAt)
  {
    if k == |run| {
      assert run[..k] == run;
    } else {
      var last := |run| - 1;
      TerminalFrozen(user, run[..last], k);
      assert run[..last][..k] == run[..k];
    }
  }

  /**
   Over any interleaving: `completed_at` is set exactly when the task is terminal; at most one terminal
   status event is in the log, and it names the task's status; and a terminal task has exactly one such
   event, logged, still in flight or lost.
   */
  lemma {:induction false} OneTerminalEvent(user: int, run: seq<Action>, s: State)
    requires After(user, run) == Some(s)
    ensures s.task.completedAt.Some? <==> Terminal(s.task.status)
    ensures forall i :: 0 <= i < |s.log| ==> s.log[i] in s.events
    ensures forall i :: 0 <= i < |s.log| && Terminal(s.events[s.log[i]].status) ==> s.events[s.log[i]].status == s.task.status
    ensures forall i, j :: 0 <= i < j < |s.log| ==> !(Terminal(s.events[s.log[i]].status) && Terminal(s.events[s.log[j]].status))
    ensures Terminal(s.task.status) <==> exists e :: TerminalEvent(s, e)
    ensures forall e :: TerminalEvent(s, e) ==> (s.events[e].fate == Logged <==> e in s.log)
  {
    RunKeeps(user, run);
    forall i | 0 <= i < |s.log| && Terminal(s.events[s.log[i]].status) ensures TerminalEvent(s, s.log[i]) {}
  }

  predicate Settled(s: State) {
    forall e :: e in s.events ==> s.events[e].fate != InFlight
  }

  /** Once a terminal task has no event in flight, its log never changes again. */
  lemma {:induction false} SettledLogFrozen(user: int, run: seq<Action>, k: nat)
    requires k <= |run| && After(user, run).Some? && After(user, run[..k]).Some?
    requires var s := After(user, run[..k]).value; Terminal(s.task.status) && Settled(s)
    ensures var s, t := After(user, run[..k]).value, After(user, run).value; t.log == s.log && t.events == s.events
  {
    if k == |run| {
      assert run[..k] == run;
    } else {
      var last := |run| - 1;
      assert run[..last][..k] == run[..k];
      SettledLogFrozen(user, run[..last], k);
      TerminalFrozen(user, run[..last], k);
    }
  }

  /** A terminal task's log is the same after every continuation if and only if none of its events is in flight. */
  lemma {:induction false} LogFrozenExactly(user: int, run: seq<Action>, s: State)
    requires After(user, run) == Some(s) && Terminal(s.task.status)
    ensures Settled(s) <==>
            forall more: seq<Action> :: After(user, run + more).Some? ==> After(user, run + more).value.log == s.log
  {
    if Settled(s) {
      forall more: seq<Action> | After(user, run + more).Some? ensures After(user, run + more).value.log == s.log {
        assert (run + more)[..|run|] == run;
        SettledLogFrozen(user, run + more, |run|);
      }
    } else {
      var e :| e in s.events && s.events[e].fate == InFlight;
      assert (run + [Append(e)])[..|run|] == run;
      assert After(user, run + [Append(e)]).value.log == s.log + [e];
    }
  }

  // ---- what does not hold ----

  /** `attach_plan` has no guard: it moves `last_active_at` of a cancelled task. */
  lemma {:induction false} PlanTouchesDeadTask(user: int)
    ensures var run := [Transition(1, MarkCancelled(user), 10), AttachPlan(7, 20)];
            && After(user, run).Some? && After(user, run[..1]).Some?
            && Terminal(After(user, run[..1]).value.task.status)
            && After(user, run[..1]).value.task.lastActiveAt == Some(10)
            && After(user, run).value.task.lastActiveAt == Some(20)
  {
    var run := [Transition(1, MarkCancelled(user), 10), AttachPlan(7, 20)];
    assert run[..1] == [run[0]] && run[..1][..0] == [];
    assert After(user, run[..1]) == Some(Apply(Created(user), run[0]));
  }

  /** The log can end in `status.running` although the task is cancelled: the two statements are not one step. */
  lemma {:induction false} RunningLoggedAfterCancel(user: int)
    ensures var run := [Transition(1, MarkStarted, 10), Transition(2, MarkCancelled(user), 20), Append(2), Append(1)];
            && After(user, run).Some?
            && After(user, run).value.task.status == Cancelled
            && After(user, run).value.log == [2, 1]
            && After(user, run).value.events[1].status == Running
  {
    var run := [Transition(1, MarkStarted, 10), Transition(2, MarkCancelled(user), 20), Append(2), Append(1)];
    assert run[..3][..2] == run[..2] && run[..2][..1] == run[..1] && run[..1][..0] == [];
    var one := Apply(Created(user), run[0]);
    assert After(user, run[..1]) == Some(one);
    var two := Apply(one, run[1]);
    assert After(user, run[..2]) == Some(two);
    var three := Apply(two, run[2]);
    assert After(user, run[..3]) == Some(three);
    assert After(user, run) == Some(Apply(three, run[3]));
  }

  // ---- the service ----

  /** How far a run got: `_run_inner` plans and executes, `_run_agentic` just executes. */
  datatype Run =
    | PlanFailed(error: string)
    | Crashed(plan: Option<int>, error: string)
    | AgenticCrashed(error: string)
    | Finished(plan: Option<int>, success: bool, error: string)

  /** The status a run leaves when nobody interferes. */
  function Verdict(r: Run): Status {
    if r.Finished? && r.success then Completed else Failed
  }

  /** Why it failed, as shown to the user. */
  function Reason(r: Run): Option<string> {
    match r
    case PlanFailed(e) => Some("planner failed: " + e)
    case Crashed(_, e) => Some("executor crashed: " + e)
    case AgenticCrashed(e) => Some("agentic run crashed: " + e)
    case Finished(_, success, e) => if success then None else Some(if e == "" then "execution failed" else e)
  }

  class TaskService {
    var row: Task
    var log: seq<Status>   // the status events, oldest first

    constructor (user: int)
      ensures row == Created(user).task && log == [Pending]
    {
      row, log := Task(user, Pending, None, None, None, None, None, 0), [Pending];
    }

    /** One guarded UPDATE: column by column, and whether a row came back. */
    method Update(w: Write, now: int) returns (updated: bool)
      modifies this`row
      ensures updated == Updated(old(row), w, now).Some?
      ensures row == if updated then Updated(old(row), w, now).value else old(row)
    {
      if Terminal(row.status) { return false; }
      if w.MarkCancelled? && w.who != row.user { return false; }
      updated := true;
      row := row.(lastActiveAt := Some(now));
      match w {
        case MarkStarted =>
          row := row.(status := Running, blockingReason := None);
          if row.startedAt.None? { row := row.(startedAt := Some(now)); }
        case MarkAwaitingUser(why) => row := row.(status := AwaitingUser, blockingReason := why);
        case MarkBlocked(reason) => row := row.(status := Blocked, blockingReason := Some(reason));
        case MarkCompleted => row := row.(status := Completed, completedAt := Some(now), blockingReason := None);
        case MarkFailed(reason) => row := row.(status := Failed, completedAt := Some(now), blockingReason := Some(reason));
        case MarkCancelled(_) => row := row.(status := Cancelled, completedAt := Some(now));
      }
    }

    /** `_transition`: the update, then the event, unless the task was already terminal. */
    method Transition(w: Write, now: int)
      modifies this
      ensures Updated(old(row), w, now).None? ==> row == old(row) && log == old(log)
      ensures Updated(old(row), w, now).Some? ==>
                row == Updated(old(row), w, now).value && log == old(log) + [Target(w)]
    {
      var updated := Update(w, now);
      if updated { log := log + [row.status]; }
    }

    /**
     The status side of `_run_inner`. On a task that is not terminal, with nobody interfering, the log
     gains `running` and then the verdict, and the task ends in it; on a terminal one only a plan leaves a trace.
     */
    method RunInner(r: Run, started: int, planned: int, ended: int)
      modifies this
      ensures !Terminal(old(row).status) ==> row.status == Verdict(r) && log == old(log) + [Running, Verdict(r)]
      ensures !Terminal(old(row).status) ==> row.startedAt.Some? && row.completedAt == Some(ended) == row.lastActiveAt
      ensures !Terminal(old(row).status) ==> row.blockingReason == Reason(r)
      ensures row.plan == if (r.Crashed? || r.Finished?) && r.plan.Some? then r.plan else old(row).plan
      ensures Terminal(old(row).status) ==> log == old(log) && SameLife(old(row), row)
    {
      Transition(MarkStarted, started);
      if r.PlanFailed? {
        Transition(MarkFailed("planner failed: " + r.error), ended);
        return;
      }
      if r.AgenticCrashed? {
        Transition(MarkFailed("agentic run crashed: " + r.error), ended);
        return;
      }
      if r.plan.Some? { row := row.(plan := r.plan, lastActiveAt := Some(planned)); }
      if r.Crashed? {
        Transition(MarkFailed("executor crashed: " + r.error), ended);
      } else if r.success {
        Transition(MarkCompleted, ended);
      } else {
        Transition(MarkFailed(if r.error == "" then "execution failed" else r.error), ended);
      }
    }
  }
}
