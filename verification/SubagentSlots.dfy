/**
 The per-root concurrency cap on subagents (src/wolfpaw/agents/executor.py:99-126): a
 reference-counted registry of semaphores, entered and left under a lock, with slots taken,
 waited for, cancelled and released in between by any number of subagents.

 One step is what the event loop runs between two awaits. A semaphore is an identity with a
 count of free slots; the registry may drop one and later make another for the same root.
 */
module SubagentSlots {
  import opened Prelude

  const MAX_CONCURRENT_SUBAGENTS_PER_ROOT: nat := 5

  /** Waiting for a slot, holding one, or done and about to drop its reference. */
  datatype Stage = Waiting | Holding | Leaving

  datatype User = User(root: int, semaphore: nat, stage: Stage)

  datatype State = State(
    semaphores: map<int, nat>,   // root -> registered semaphore
    refs: map<int, int>,         // root -> reference count
    free: seq<nat>,              // free slots of every semaphore ever made
    users: map<int, User>)       // subagents between entering and having left

  datatype Action = Enter(user: int, root: int) | Acquire(user: int) | Cancel(user: int) | Release(user: int) | Leave(user: int)

  predicate Enabled(s: State, a: Action) {
    match a
    case Enter(u, _) => u !in s.users
    case Acquire(u) =>
      u in s.users && s.users[u].stage == Waiting && s.users[u].semaphore < |s.free| && s.free[s.users[u].semaphore] > 0
    case Cancel(u) => u in s.users && s.users[u].stage == Waiting
    case Release(u) => u in s.users && s.users[u].stage == Holding && s.users[u].semaphore < |s.free|
    case Leave(u) => u in s.users && s.users[u].stage == Leaving && s.users[u].root in s.refs
  }

  function Apply(s: State, a: Action): State
    requires Enabled(s, a)
  {
    match a
    case Enter(u, root) =>
      var made := root !in s.semaphores;
      var sem := if made then |s.free| else s.semaphores[root];
      State(s.semaphores[root := sem],
            s.refs[root := (if root in s.refs then s.refs[root] else 0) + 1],
            if made then s.free + [MAX_CONCURRENT_SUBAGENTS_PER_ROOT] else s.free,
            s.users[u := User(root, sem, Waiting)])
    case Acquire(u) =>
      var user := s.users[u];
      s.(free := s.free[user.semaphore := s.free[user.semaphore] - 1], users := s.users[u := user.(stage := Holding)])
    case Cancel(u) => s.(users := s.users[u := s.users[u].(stage := Leaving)])
    case Release(u) =>
      var user := s.users[u];
      s.(free := s.free[user.semaphore := s.free[user.semaphore] + 1], users := s.users[u := user.(stage := Leaving)])
    case Leave(u) =>
      var root := s.users[u].root;
      if s.refs[root] <= 1 then State(s.semaphores - {root}, s.refs - {root}, s.free, s.users - {u})
      else s.(refs := s.refs[root := s.refs[root] - 1], users := s.users - {u})
  }

  // ---- what every step keeps ----

  function Of(s: State, root: int): set<int> {
    set u | u in s.users && s.users[u].root == root
  }

  function HoldersOf(s: State, root: int): set<int> {
    set u | u in s.users && s.users[u].root == root && s.users[u].stage == Holding
  }

  /** The registry's entry for one root, against the subagents in flight under it. */
  predicate RootOk(s: State, root: int) {
    && (root in s.semaphores <==> Of(s, root) != {})
    && (root in s.refs <==> Of(s, root) != {})
    && (root in s.refs ==> s.refs[root] == |Of(s, root)|)
    && (root in s.semaphores ==>
          var sem := s.semaphores[root];
          && sem < |s.free|
          && s.free[sem] + |HoldersOf(s, root)| == MAX_CONCURRENT_SUBAGENTS_PER_ROOT
          && forall u :: u in Of(s, root) ==> s.users[u].semaphore == sem)
  }

  ghost predicate Inv(s: State) {
    && (forall root :: RootOk(s, root))
    && (forall r, q :: r in s.semaphores && q in s.semaphores && r != q ==> s.semaphores[r] != s.semaphores[q])
  }

  const START: State := State(map[], map[], [], map[])

  lemma StartOk()
    ensures Inv(START)
  {
    forall root ensures RootOk(START, root) {}
  }

  /** The root an action is about. */
  function RootOf(s: State, a: Action): int
    requires Enabled(s, a)
  {
    if a.Enter? then a.root else s.users[a.user].root
  }

  lemma OtherRootsKeep(s: State, a: Action, root: int)
    requires Inv(s) && Enabled(s, a) && root != RootOf(s, a)
    ensures RootOk(Apply(s, a), root)
  {
    var t := Apply(s, a);
    assert RootOk(s, root) && RootOk(s, RootOf(s, a));
    assert Of(t, root) == Of(s, root);
    assert HoldersOf(t, root) == HoldersOf(s, root);
    if !a.Enter? { assert a.user in Of(s, RootOf(s, a)); }
  }

  lemma {:induction false} EnterKeeps(s: State, u: int, root: int)
    requires Inv(s) && Enabled(s, Enter(u, root))
    ensures RootOk(Apply(s, Enter(u, root)), root)
  {
    var t := Apply(s, Enter(u, root));
    assert RootOk(s, root);
    assert Of(t, root) == Of(s, root) + {u};
    assert HoldersOf(t, root) == HoldersOf(s, root);
    if root !in s.semaphores {
      assert HoldersOf(s, root) <= Of(s, root);
      assert |HoldersOf(s, root)| == 0;
    }
  }

  lemma SlotKeeps(s: State, a: Action)
    requires Inv(s) && Enabled(s, a) && (a.Acquire? || a.Cancel? || a.Release?)
    ensures RootOk(Apply(s, a), RootOf(s, a))
  {
    var t, root, u := Apply(s, a), RootOf(s, a), a.user;
    assert RootOk(s, root);
    assert u in Of(s, root);
    assert Of(t, root) == Of(s, root);
    assert HoldersOf(t, root) == if a.Acquire? then HoldersOf(s, root) + {u} else HoldersOf(s, root) - {u};
    if a.Cancel? { assert u !in HoldersOf(s, root); }
    if a.Release? { assert u in HoldersOf(s, root); }
  }

  lemma LeaveKeeps(s: State, u: int)
    requires Inv(s) && Enabled(s, Leave(u))
    ensures RootOk(Apply(s, Leave(u)), s.users[u].root)
  {
    var t, root := Apply(s, Leave(u)), s.users[u].root;
    assert RootOk(s, root);
    assert u in Of(s, root);
    assert Of(t, root) == Of(s, root) - {u};
    assert HoldersOf(t, root) == HoldersOf(s, root);
    assert |Of(t, root)| == |Of(s, root)| - 1;
  }

  lemma StepKeeps(s: State, a: Action)
    requires Inv(s) && Enabled(s, a)
    ensures Inv(Apply(s, a))
  {
    hide RootOk;
    var t := Apply(s, a);
    forall root ensures RootOk(t, root) {
      if root != RootOf(s, a) {
        OtherRootsKeep(s, a, root);
      } else {
        match a
        case Enter(u, _) => EnterKeeps(s, u, root);
        case Leave(u) => LeaveKeeps(s, u);
        case _ => SlotKeeps(s, a);
      }
    }
    forall r | r in s.semaphores ensures s.semaphores[r] < |s.free| { RegisteredExists(s, r); }
  }

  lemma RegisteredExists(s: State, root: int)
    requires Inv(s) && root in s.semaphores
    ensures s.semaphores[root] < |s.free|
  {
    assert RootOk(s, root);
  }

  // ---- every run ----

  /** The state after a run, when each of its actions could happen. */
  function After(run: seq<Action>): Option<State> {
    if run == [] then Some(START)
    else
      var last := |run| - 1;
      match After(run[..last])
      case None => None
      case Some(s) => if Enabled(s, run[last]) then Some(Apply(s, run[last])) else None
  }

  lemma {:induction false} RunKeeps(run: seq<Action>)
    requires After(run).Some?
    ensures Inv(After(run).value)
  {
    if run == [] {
      StartOk();
    } else {
      var last := |run| - 1;
      RunKeeps(run[..last]);
      StepKeeps(After(run[..last]).value, run[last]);
    }
  }

  /**
   Over every interleaving: at most five subagents hold a slot under one root; all that are in flight
   under a root share its one registered semaphore, of which just the holders' slots are gone; and an
   entry exists exactly while somebody is in flight, with that many references.
   */
  lemma {:induction false} CapHolds(run: seq<Action>, s: State, root: int)
    requires After(run) == Some(s)
    ensures |HoldersOf(s, root)| <= MAX_CONCURRENT_SUBAGENTS_PER_ROOT
    ensures (root in s.semaphores <==> Of(s, root) != {}) && (root in s.refs <==> Of(s, root) != {})
    ensures root in s.refs ==> s.refs[root] == |Of(s, root)|
    ensures forall u :: u in Of(s, root) ==> root in s.semaphores && s.users[u].semaphore == s.semaphores[root]
  {
    RunKeeps(run);
    assert RootOk(s, root);
    assert HoldersOf(s, root) <= Of(s, root);
    if Of(s, root) == {} { assert HoldersOf(s, root) == {}; }
  }

  /** A waiting subagent finds a free slot exactly below its root's cap; which of the waiting gets it is up to the semaphore. */
  lemma {:induction false} WaitsExactlyAtCap(run: seq<Action>, s: State, u: int)
    requires After(run) == Some(s) && u in s.users && s.users[u].stage == Waiting
    ensures Enabled(s, Acquire(u)) <==> |HoldersOf(s, s.users[u].root)| < MAX_CONCURRENT_SUBAGENTS_PER_ROOT
  {
    RunKeeps(run);
    var root := s.users[u].root;
    assert RootOk(s, root);
    assert u in Of(s, root);
  }

  /** When everyone has left, nothing is left behind. */
  lemma {:induction false} NothingLeaks(run: seq<Action>, s: State)
    requires After(run) == Some(s) && s.users == map[]
    ensures s.semaphores == map[] && s.refs == map[]
  {
    RunKeeps(run);
    forall root ensures root !in s.semaphores && root !in s.refs { assert RootOk(s, root); }
  }

  // ---- the module-level dictionaries ----

  /** The registry and its semaphores, updated in place. */
  class Registry {
    var semaphores: map<int, nat>
    var refs: map<int, int>
    var free: seq<nat>
    var users: map<int, User>

    ghost function Now(): State
      reads this
    {
      State(semaphores, refs, free, users)
    }

    constructor ()
      ensures Now() == START
    {
      semaphores, refs, free, users := map[], map[], [], map[];
    }

    /** The first locked block: find or make the semaphore, count the reference. */
    method Enter(user: int, root: int) returns (sem: nat)
      requires Enabled(Now(), Action.Enter(user, root))
      modifies this
      ensures Now() == Apply(old(Now()), Action.Enter(user, root))
      ensures user in users && sem == users[user].semaphore
    {
      if root in semaphores {
        sem := semaphores[root];
      } else {
        sem := |free|;
        free := free + [MAX_CONCURRENT_SUBAGENTS_PER_ROOT];
        semaphores := semaphores[root := sem];
      }
      refs := refs[root := (if root in refs then refs[root] else 0) + 1];
      users := users[user := User(root, sem, Waiting)];
      assert semaphores == old(semaphores)[root := sem];
    }

    /** `async with sem` gets a slot. */
    method Acquire(user: int)
      requires Enabled(Now(), Action.Acquire(user))
      modifies this
      ensures Now() == Apply(old(Now()), Action.Acquire(user))
    {
      var sem := users[user].semaphore;
      free := free[sem := free[sem] - 1];
      users := users[user := users[user].(stage := Holding)];
    }

    /** The wait for a slot is cancelled: nothing was taken. */
    method Cancel(user: int)
      requires Enabled(Now(), Action.Cancel(user))
      modifies this`users
      ensures Now() == Apply(old(Now()), Action.Cancel(user))
    {
      users := users[user := users[user].(stage := Leaving)];
    }

    /** The body ended, one way or another: the slot goes back. */
    method Release(user: int)
      requires Enabled(Now(), Action.Release(user))
      modifies this
      ensures Now() == Apply(old(Now()), Action.Release(user))
    {
      var sem := users[user].semaphore;
      free := free[sem := free[sem] + 1];
      users := users[user := users[user].(stage := Leaving)];
    }

    /** The locked block in `finally`: drop the reference, and the entry with the last one. */
    method Leave(user: int)
      requires Enabled(Now(), Action.Leave(user))
      modifies this
      ensures Now() == Apply(old(Now()), Action.Leave(user))
    {
      var root := users[user].root;
      var remaining := refs[root] - 1;
      if remaining <= 0 {
        semaphores := semaphores - {root};
        refs := refs - {root};
      } else {
        refs := refs[root := remaining];
      }
      users := users - {user};
    }
  }
}
