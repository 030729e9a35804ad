/**
 Questions an agent asks its user (src/wolfpaw/memory/pending_questions.py:90-211): a row that several
 answerers, a timeout and a cancellation race to resolve.

 One SQL statement is one step, so the update and the existence check of `mark_answered` are two.
 Rows are not deleted during a race.
 */
module PendingQuestions {
  import opened Prelude

  datatype Status = Pending | Answered | TimedOut | Cancelled

  datatype Question = Question(user: int, status: Status, answer: Option<string>, answeredAt: Option<int>)

  datatype Outcome = ANSWERED | UNKNOWN | ALREADY

  // ---- the statements ----

  predicate Answerable(q: Question, user: int) {
    q.user == user && q.status == Pending
  }

  function AnswerWith(q: Question, answer: string, now: int): Question {
    q.(status := Answered, answer := Some(answer), answeredAt := Some(now))
  }

  /** The UPDATE of `mark_timeout` and `mark_cancelled`: a compare-and-set that keeps the answer column. */
  function CloseAs(q: Question, status: Status, now: int): Question {
    if q.status == Pending then q.(status := status, answeredAt := Some(now)) else q
  }

  // ---- racing calls ----

  datatype Stage = Updating | Checking | Returned(outcome: Outcome)

  datatype Call = Call(user: int, answer: string, stage: Stage)

  datatype State = State(row: Question, calls: map<int, Call>)

  datatype Action =
    | Start(call: int, user: int, answer: string)
    | Update(call: int, now: int)
    | Check(call: int)
    | TimeOut(now: int)
    | Cancel(now: int)

  predicate Enabled(s: State, a: Action) {
    match a
    case Start(c, _, _) => c !in s.calls
    case Update(c, _) => c in s.calls && s.calls[c].stage == Updating
    case Check(c) => c in s.calls && s.calls[c].stage == Checking
    case TimeOut(_) => true
    case Cancel(_) => true
  }

  function Apply(s: State, a: Action): State
    requires Enabled(s, a)
  {
    match a
    case Start(c, user, answer) => s.(calls := s.calls[c := Call(user, answer, Updating)])
    case Update(c, now) =>
      var call := s.calls[c];
      if Answerable(s.row, call.user)
      then State(AnswerWith(s.row, call.answer, now), s.calls[c := call.(stage := Returned(ANSWERED))])
      else s.(calls := s.calls[c := call.(stage := Checking)])
    case Check(c) =>
      var call := s.calls[c];
      s.(calls := s.calls[c := call.(stage := Returned(if s.row.user == call.user then ALREADY else UNKNOWN))])
    case TimeOut(now) => s.(row := CloseAs(s.row, TimedOut, now))
    case Cancel(now) => s.(row := CloseAs(s.row, Cancelled, now))
  }

  predicate Won(s: State, c: int) {
    c in s.calls && s.calls[c].stage == Returned(ANSWERED)
  }

  predicate CallOk(s: State, c: int)
    requires c in s.calls
  {
    var call := s.calls[c];
    match call.stage
    case Updating => true
    case Checking => !Answerable(s.row, call.user)
    case Returned(ANSWERED) => call.user == s.row.user && s.row.status == Answered && s.row.answer == Some(call.answer)
    case Returned(ALREADY) => call.user == s.row.user && s.row.status != Pending
    case Returned(UNKNOWN) => call.user != s.row.user
  }

  ghost predicate Inv(s: State) {
    && (forall c :: c in s.calls ==> CallOk(s, c))
    && (forall c, d :: Won(s, c) && Won(s, d) ==> c == d)
    && (s.row.status == Answered <==> exists c :: Won(s, c))
    && (s.row.status != Answered ==> s.row.answer.None?)
    && (s.row.status == Pending <==> s.row.answeredAt.None?)
  }

  function Asked(user: int): State {
    State(Question(user, Pending, None, None), map[])
  }

  lemma StepKeeps(s: State, a: Action)
    requires Inv(s) && Enabled(s, a)
    ensures Inv(Apply(s, a))
  {
    var t := Apply(s, a);
    forall c | c in t.calls ensures CallOk(t, c) {
      if c in s.calls { assert CallOk(s, c); }
    }
    forall c ensures Won(t, c) ==> Won(s, c) || (a.Update? && a.call == c && s.row.status == Pending) {}
    if s.row.status == Answered {
      var c :| Won(s, c);
      assert Won(t, c);
    }
    if a.Update? && Answerable(s.row, s.calls[a.call].user) { assert Won(t, a.call); }
  }

  /** Once a row has left pending, no statement changes any of it, the answer included. */
  lemma ResolvedFrozen(s: State, a: Action)
    requires Enabled(s, a) && s.row.status != Pending
    ensures Apply(s, a).row == s.row
  {}

  function After(user: int, run: seq<Action>): Option<State> {
    if run == [] then Some(Asked(user))
    else
      var last := |run| - 1;
      match After(user, run[..last])
      case None => None
      case Some(s) => if Enabled(s, run[last]) then Some(Apply(s, run[last])) else None
  }

  lemma {:induction false} RunKeeps(user: int, run: seq<Action>)
    requires After(user, run).Some?
    ensures Inv(After(user, run).value) && After(user, run).value.row.user == user
  {
    if run == [] {
      forall c ensures !Won(Asked(user), c) {}
    } else {
      var last := |run| - 1;
      RunKeeps(user, run[..last]);
      StepKeeps(After(user, run[..last]).value, run[last]);
    }
  }

  /** A resolved row is the same after any longer run. */
  lemma {:induction false} ResolvedForGood(user: int, run: seq<Action>, k: nat)
    requires k <= |run| && After(user, run).Some?
    ensures After(user, run[..k]).Some?
    ensures After(user, run[..k]).value.row.status != Pending ==>
            After(user, run).value.row == After(user, run[..k]).value.row
  {
    if k == |run| {
      assert run[..k] == run;
    } else {
      var last := |run| - 1;
      ResolvedForGood(user, run[..last], k);
      assert run[..last][..k] == run[..k];
      var s := After(user, run[..last]).value;
      if s.row.status != Pending { ResolvedFrozen(s, run[last]); }
    }
  }

  /**
   Over every interleaving of answers, timeouts and cancellations, with update and existence check as
   separate steps: at most one call returns ANSWERED, the stored answer is its text, and there is one
   exactly when the row is answered; every other finished call of the owner returned ALREADY, and every
   other user's UNKNOWN.
   */
  lemma {:induction false} OneAnswerWins(user: int, run: seq<Action>, s: State, c: int)
    requires After(user, run) == Some(s) && c in s.calls
    ensures Won(s, c) ==> s.calls[c].user == user && s.row.status == Answered && s.row.answer == Some(s.calls[c].answer)
    ensures Won(s, c) ==> forall d :: d != c ==> !Won(s, d)
    ensures s.row.status == Answered <==> exists e :: Won(s, e)
    ensures s.calls[c].stage.Returned? && !Won(s, c) ==>
            s.calls[c].stage.outcome == if s.calls[c].user == user then ALREADY else UNKNOWN
  {
    RunKeeps(user, run);
    assert CallOk(s, c);
  }

  // ---- the data access object ----

  class QuestionStore {
    var row: Question

    constructor (user: int)
      ensures row == Asked(user).row
    {
      row := Question(user, Pending, None, None);
    }

    /** The two statements of one call, here with nothing between them. */
    method MarkAnswered(user: int, answer: string, now: int) returns (outcome: Outcome)
      modifies this
      ensures row == if Answerable(old(row), user) then AnswerWith(old(row), answer, now) else old(row)
      ensures outcome == if Answerable(old(row), user) then ANSWERED else if old(row).user == user then ALREADY else UNKNOWN
      ensures forall s: State, c: int ::
                s.row == old(row) && c !in s.calls ==>
                var one := Apply(Apply(s, Start(c, user, answer)), Update(c, now));
                var end := if one.calls[c].stage.Checking? then Apply(one, Check(c)) else one;
                end.row == row && end.calls[c].stage == Returned(outcome)
    {
      if row.user == user && row.status == Pending {
        row := row.(status := Answered, answer := Some(answer), answeredAt := Some(now));
        return ANSWERED;
      }
      outcome := if row.user == user then ALREADY else UNKNOWN;
    }

    method MarkTimeout(now: int)
      modifies this
      ensures row == CloseAs(old(row), TimedOut, now)
    {
      if row.status == Pending {
        row := row.(status := TimedOut, answeredAt := Some(now));
      }
    }

    method MarkCancelled(now: int)
      modifies this
      ensures row == CloseAs(old(row), Cancelled, now)
    {
      if row.status == Pending {
        row := row.(status := Cancelled, answeredAt := Some(now));
      }
    }
  }
}
