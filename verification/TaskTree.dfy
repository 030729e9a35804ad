/**
 The tree of tasks and subagent tasks: the bounded walks up the parent links
 (src/wolfpaw/memory/tasks.py:268-289, :325-345) and the depth limit that the executor builds on
 them (src/wolfpaw/agents/executor.py:771-778, :838-855).

 `parents` maps a task to its `parent_task_id`. A task without a row reads as one without a parent.
 */
module TaskTree {
  import opened Prelude

  const MAX_DEPTH_WALK: nat := 16
  const MAX_SUBAGENT_DEPTH: nat := 3

  type Parents = map<int, Option<int>>

  function ParentOf(parents: Parents, t: int): Option<int> {
    if t in parents then parents[t] else None
  }

  // ---- depth and root, without a cap ----

  /** The ancestor `n` links above `t`, `t` itself for 0. */
  function Up(parents: Parents, t: int, n: nat): Option<int>
    decreases n
  {
    if n == 0 then Some(t)
    else match ParentOf(parents, t)
      case None => None
      case Some(p) => Up(parents, p, n - 1)
  }

  /** `t` has exactly `d` ancestors. On a cyclic chain no `d` will do. */
  predicate HasDepth(parents: Parents, t: int, d: nat) {
    Up(parents, t, d).Some? && ParentOf(parents, Up(parents, t, d).value).None?
  }

  ghost predicate Endless(parents: Parents, t: int) {
    forall n: nat :: Up(parents, t, n).Some?
  }

  lemma {:induction false} UpUp(parents: Parents, t: int, m: nat, n: nat)
    ensures Up(parents, t, m + n) == match Up(parents, t, m) case None => None case Some(a) => Up(parents, a, n)
    decreases m
  {
    if m > 0 && ParentOf(parents, t).Some? {
      UpUp(parents, ParentOf(parents, t).value, m - 1, n);
    }
  }

  /** One link at the end of the climb instead of at its start. */
  lemma UpNext(parents: Parents, t: int, n: nat)
    ensures Up(parents, t, n + 1) == match Up(parents, t, n) case None => None case Some(a) => ParentOf(parents, a)
  {
    UpUp(parents, t, n, 1);
    if Up(parents, t, n).Some? {
      var a := Up(parents, t, n).value;
      if ParentOf(parents, a).Some? { assert Up(parents, ParentOf(parents, a).value, 0) == ParentOf(parents, a); }
    }
  }

  lemma {:induction false} UpShorter(parents: Parents, t: int, m: nat, n: nat)
    requires m <= n && Up(parents, t, n).Some?
    ensures Up(parents, t, m).Some?
  {
    UpUp(parents, t, m, n - m);
  }

  /** Every chain either ends at one depth only, or never. */
  lemma DepthIsUnique(parents: Parents, t: int, d: nat, e: nat)
    requires HasDepth(parents, t, d)
    ensures HasDepth(parents, t, e) ==> d == e
    ensures !Endless(parents, t)
  {
    UpNext(parents, t, d);
    assert Up(parents, t, d + 1).None?;
    if HasDepth(parents, t, e) {
      UpNext(parents, t, e);
      if e < d { UpShorter(parents, t, e + 1, d); }
      if d < e { UpShorter(parents, t, d + 1, e); }
    }
  }

  // ---- the capped walks ----

  /** How many links a walk of at most `n` follows. */
  function Walk(parents: Parents, t: int, n: nat): nat
    decreases n
  {
    if n == 0 || ParentOf(parents, t).None? then 0 else 1 + Walk(parents, ParentOf(parents, t).value, n - 1)
  }

  /** `get_depth`: the true depth, or the cap when the chain is that long or never ends. */
  method GetDepth(parents: Parents, task: int) returns (depth: nat)
    ensures depth == Walk(parents, task, MAX_DEPTH_WALK)
    ensures depth <= MAX_DEPTH_WALK && Up(parents, task, depth).Some?
    ensures depth < MAX_DEPTH_WALK ==> HasDepth(parents, task, depth)
    ensures forall d: nat :: HasDepth(parents, task, d) ==> depth == if d < MAX_DEPTH_WALK then d else MAX_DEPTH_WALK
    ensures Endless(parents, task) ==> depth == MAX_DEPTH_WALK
  {
    depth := 0;
    var current := task;
    for i := 0 to MAX_DEPTH_WALK
      invariant depth == i && Up(parents, task, i) == Some(current)
      invariant Walk(parents, task, MAX_DEPTH_WALK) == i + Walk(parents, current, MAX_DEPTH_WALK - i)
    {
      UpNext(parents, task, i);
      var parent := ParentOf(parents, current);
      if parent.None? {
        DepthIsUnique(parents, task, depth, depth);
        forall d: nat | HasDepth(parents, task, d) ensures d == depth { DepthIsUnique(parents, task, depth, d); }
        return;
      }
      depth := depth + 1;
      current := parent.value;
    }
    forall d: nat | HasDepth(parents, task, d) ensures MAX_DEPTH_WALK <= d { TopReached(parents, task, d, depth); }
  }

  lemma {:induction false} TopReached(parents: Parents, t: int, d: nat, n: nat)
    requires HasDepth(parents, t, d) && Up(parents, t, n).Some?
    ensures n <= d
  {
    UpNext(parents, t, d);
    if d < n { UpShorter(parents, t, d + 1, n); }
  }

  /** What a walk of at most `n` links up from `t` reaches. */
  function Top(parents: Parents, t: int, n: nat): int
    decreases n
  {
    if n == 0 || ParentOf(parents, t).None? then t else Top(parents, ParentOf(parents, t).value, n - 1)
  }

  /** The end of a chain of depth `d` is the top of every walk long enough; a shorter walk stops below it. */
  lemma {:induction false} TopIsUp(parents: Parents, t: int, n: nat, d: nat)
    requires HasDepth(parents, t, d)
    ensures Some(Top(parents, t, n)) == Up(parents, t, if n < d then n else d)
    decreases n
  {
    if d > 0 {
      assert ParentOf(parents, t).Some?;
      if n > 0 { TopIsUp(parents, ParentOf(parents, t).value, n - 1, d - 1); }
    }
  }

  lemma {:induction false} EndlessTopIsUp(parents: Parents, t: int, n: nat)
    requires Endless(parents, t)
    ensures Up(parents, t, n) == Some(Top(parents, t, n))
    decreases n
  {
    assert Up(parents, t, 1).Some?;
    if n > 0 {
      var p := ParentOf(parents, t).value;
      forall m: nat ensures Up(parents, p, m).Some? { assert Up(parents, t, m + 1).Some?; }
      EndlessTopIsUp(parents, p, n - 1);
    }
  }

  lemma {:induction false} TopStep(parents: Parents, t: int, n: nat)
    ensures Top(parents, t, n + 1) ==
            var a := Top(parents, t, n); if ParentOf(parents, a).None? then a else ParentOf(parents, a).value
    decreases n
  {
    if n > 0 && ParentOf(parents, t).Some? { TopStep(parents, ParentOf(parents, t).value, n - 1); }
  }

  /** `get_root`: the true root of any chain of depth up to the cap. */
  method GetRoot(parents: Parents, task: int) returns (root: int)
    ensures root == Top(parents, task, MAX_DEPTH_WALK)
    ensures forall d: nat :: HasDepth(parents, task, d) && d <= MAX_DEPTH_WALK ==>
              Up(parents, task, d) == Some(root) && ParentOf(parents, root).None?
    ensures Endless(parents, task) ==> ParentOf(parents, root).Some?
  {
    forall d: nat | HasDepth(parents, task, d) ensures Some(Top(parents, task, MAX_DEPTH_WALK)) == Up(parents, task, if MAX_DEPTH_WALK < d then MAX_DEPTH_WALK else d) {
      TopIsUp(parents, task, MAX_DEPTH_WALK, d);
    }
    if Endless(parents, task) {
      EndlessTopIsUp(parents, task, MAX_DEPTH_WALK);
      UpNext(parents, task, MAX_DEPTH_WALK);
      assert Up(parents, task, MAX_DEPTH_WALK + 1).Some?;
    }
    root := task;
    for i := 0 to MAX_DEPTH_WALK
      invariant Top(parents, root, MAX_DEPTH_WALK - i) == Top(parents, task, MAX_DEPTH_WALK)
    {
      var parent := ParentOf(parents, root);
      if parent.None? { return; }
      root := parent.value;
    }
  }

  /**
   A child and its parent get the same root exactly when the fifteen links above the parent reach the
   end of the chain, or a task that is its own parent.
   */
  lemma RootAgrees(parents: Parents, child: int, parent: int)
    requires ParentOf(parents, child) == Some(parent)
    ensures Top(parents, child, MAX_DEPTH_WALK) == Top(parents, parent, MAX_DEPTH_WALK) <==>
            var a := Top(parents, parent, MAX_DEPTH_WALK - 1);
            ParentOf(parents, a).None? || ParentOf(parents, a) == Some(a)
  {
    TopStep(parents, parent, MAX_DEPTH_WALK - 1);
  }

  /** On a chain that ends: exactly when the child's depth is within the cap. */
  lemma {:induction false} RootAgreesToDepth(parents: Parents, child: int, parent: int, d: nat)
    requires ParentOf(parents, child) == Some(parent) && HasDepth(parents, child, d)
    ensures Top(parents, child, MAX_DEPTH_WALK) == Top(parents, parent, MAX_DEPTH_WALK) <==> d <= MAX_DEPTH_WALK
  {
    assert d > 0 && HasDepth(parents, parent, d - 1);
    RootAgrees(parents, child, parent);
    TopIsUp(parents, parent, MAX_DEPTH_WALK - 1, d - 1);
    var a := Top(parents, parent, MAX_DEPTH_WALK - 1);
    if d > MAX_DEPTH_WALK {
      UpNext(parents, parent, MAX_DEPTH_WALK - 1);
      UpShorter(parents, parent, MAX_DEPTH_WALK, d - 1);
      if ParentOf(parents, a) == Some(a) {
        SelfParentEndless(parents, a, d - MAX_DEPTH_WALK);
        UpUp(parents, parent, MAX_DEPTH_WALK - 1, d - MAX_DEPTH_WALK);
      }
    }
  }

  /** A chain of `n` links, each task the parent of the next. */
  function Ladder(n: nat): Parents {
    if n == 0 then map[0 := None] else Ladder(n - 1)[n := Some(n - 1)]
  }

  lemma {:induction false} LadderLink(n: nat, t: nat)
    requires t <= n
    ensures ParentOf(Ladder(n), t) == if t == 0 then None else Some(t - 1)
  {
    if t < n { LadderLink(n - 1, t); }
  }

  lemma {:induction false} LadderTop(n: nat, t: nat, k: nat)
    requires t <= n
    ensures Top(Ladder(n), t, k) == if k < t then t - k else 0
    decreases k
  {
    LadderLink(n, t);
    if k > 0 && t > 0 { LadderTop(n, t - 1, k - 1); }
  }

  /** Seventeen links are too many: the walk from the last task stops one short of where its parent's walk ends. */
  lemma SeventeenLinksDisagree()
    ensures Top(Ladder(17), 17, MAX_DEPTH_WALK) == 1 && Top(Ladder(17), 16, MAX_DEPTH_WALK) == 0
  {
    LadderTop(17, 17, MAX_DEPTH_WALK);
    LadderTop(17, 16, MAX_DEPTH_WALK);
  }

  lemma {:induction false} SelfParentEndless(parents: Parents, a: int, n: nat)
    requires ParentOf(parents, a) == Some(a)
    ensures Up(parents, a, n) == Some(a)
  {
    if n > 0 { SelfParentEndless(parents, a, n - 1); }
  }

  // ---- runs that create, spawn and delete ----

  /** What an executor read before it queued for a slot: it may spawn with it once, or again on retry. */
  datatype Ticket = Ticket(parent: int, root: int)

  datatype State = State(parents: Parents, used: set<int>, tickets: map<int, Ticket>)

  datatype Action =
    | CreateRoot(task: int)
    | Check(ticket: int, parent: int)
    | Spawn(ticket: int, child: int)
    | Delete(task: int)

  /** A row's foreign key must hold when it is inserted; identifiers are never reused. */
  predicate Enabled(s: State, a: Action) {
    match a
    case CreateRoot(t) => t !in s.used
    case Check(k, p) => k !in s.tickets && p in s.parents && Walk(s.parents, p, MAX_DEPTH_WALK) < MAX_SUBAGENT_DEPTH
    case Spawn(k, c) => k in s.tickets && s.tickets[k].parent in s.parents && c !in s.used
    case Delete(t) => t in s.parents
  }

  /** ON DELETE SET NULL: the children of a deleted task become roots. */
  function Without(parents: Parents, gone: int): Parents {
    map t | t in parents && t != gone :: if parents[t] == Some(gone) then None else parents[t]
  }

  function Apply(s: State, a: Action): State
    requires Enabled(s, a)
  {
    match a
    case CreateRoot(t) => s.(parents := s.parents[t := None], used := s.used + {t})
    case Check(k, p) => s.(tickets := s.tickets[k := Ticket(p, Top(s.parents, p, MAX_DEPTH_WALK))])
    case Spawn(k, c) => s.(parents := s.parents[c := Some(s.tickets[k].parent)], used := s.used + {c})
    case Delete(t) => s.(parents := Without(s.parents, t))
  }

  predicate Within(parents: Parents, t: int, d: nat)
    decreases d
  {
    match ParentOf(parents, t)
    case None => true
    case Some(p) => d > 0 && Within(parents, p, d - 1)
  }

  ghost predicate Inv(s: State) {
    && (forall t :: t in s.parents ==> t in s.used && Within(s.parents, t, MAX_SUBAGENT_DEPTH))
    && (forall t :: t in s.parents && s.parents[t].Some? ==> s.parents[t].value in s.parents)
    && (forall k :: k in s.tickets && s.tickets[k].parent in s.parents ==> Within(s.parents, s.tickets[k].parent, MAX_SUBAGENT_DEPTH - 1))
    && (forall k :: k in s.tickets ==> s.tickets[k].parent in s.used)
  }

  const START: State := State(map[], {}, map[])

  /** Being within a depth is having one that small. */
  lemma {:induction false} WithinIsDepth(parents: Parents, t: int, d: nat)
    ensures Within(parents, t, d) <==> exists e: nat :: e <= d && HasDepth(parents, t, e)
    decreases d
  {
    match ParentOf(parents, t)
    case None =>
      assert HasDepth(parents, t, 0);
    case Some(p) =>
      if d > 0 {
        WithinIsDepth(parents, p, d - 1);
        if Within(parents, p, d - 1) {
          var e: nat :| e <= d - 1 && HasDepth(parents, p, e);
          assert HasDepth(parents, t, e + 1);
        }
        if e: nat :| e <= d && HasDepth(parents, t, e) {
          assert HasDepth(parents, p, e - 1);
        }
      }
  }

  /** The walk is the specification of `GetDepth`. */
  lemma {:induction false} WalkWithin(parents: Parents, t: int, d: nat, n: nat)
    requires d < n
    ensures Walk(parents, t, n) <= d <==> Within(parents, t, d)
    decreases d
  {
    if ParentOf(parents, t).Some? && d > 0 { WalkWithin(parents, ParentOf(parents, t).value, d - 1, n - 1); }
  }

  lemma {:induction false} WithinGrown(parents: Parents, t: int, d: nat, more: Parents)
    requires Within(parents, t, d) && t in parents
    requires forall u :: u in parents ==> u in more && more[u] == parents[u]
    requires forall u :: u in parents && parents[u].Some? ==> parents[u].value in parents
    ensures Within(more, t, d)
    decreases d
  {
    if parents[t].Some? { WithinGrown(parents, parents[t].value, d - 1, more); }
  }

  lemma {:induction false} WithinShrunk(parents: Parents, t: int, d: nat, gone: int)
    requires Within(parents, t, d)
    ensures Within(Without(parents, gone), t, d)
    decreases d
  {
    if ParentOf(parents, t).Some? && d > 0 { WithinShrunk(parents, ParentOf(parents, t).value, d - 1, gone); }
  }

  lemma {:induction false} WithinLooser(parents: Parents, t: int, d: nat, e: nat)
    requires Within(parents, t, d) && d <= e
    ensures Within(parents, t, e)
    decreases d
  {
    if ParentOf(parents, t).Some? { WithinLooser(parents, ParentOf(parents, t).value, d - 1, e - 1); }
  }

  lemma StepKeeps(s: State, a: Action)
    requires Inv(s) && Enabled(s, a)
    ensures Inv(Apply(s, a))
  {
    hide Within, Walk, Top;
    var r := Apply(s, a);
    match a
    case Check(k, p) =>
      WalkWithin(s.parents, p, MAX_SUBAGENT_DEPTH - 1, MAX_DEPTH_WALK);
    case Delete(t) =>
      forall u | u in r.parents ensures Within(r.parents, u, MAX_SUBAGENT_DEPTH) { WithinShrunk(s.parents, u, MAX_SUBAGENT_DEPTH, t); }
      forall k | k in r.tickets && r.tickets[k].parent in r.parents
        ensures Within(r.parents, r.tickets[k].parent, MAX_SUBAGENT_DEPTH - 1)
      {
        WithinShrunk(s.parents, r.tickets[k].parent, MAX_SUBAGENT_DEPTH - 1, t);
      }
    case _ => GrowKeeps(s, a);
  }

  lemma GrowKeeps(s: State, a: Action)
    requires Inv(s) && Enabled(s, a) && (a.CreateRoot? || a.Spawn?)
    ensures Inv(Apply(s, a))
  {
    hide Walk, Top;
    var r := Apply(s, a);
    var made := if a.CreateRoot? then a.task else a.child;
    assert made !in s.parents;
    forall u | u in s.parents ensures Within(r.parents, u, MAX_SUBAGENT_DEPTH) {
      WithinGrown(s.parents, u, MAX_SUBAGENT_DEPTH, r.parents);
    }
    forall k | k in s.tickets && s.tickets[k].parent in s.parents
      ensures Within(r.parents, s.tickets[k].parent, MAX_SUBAGENT_DEPTH - 1)
    {
      WithinGrown(s.parents, s.tickets[k].parent, MAX_SUBAGENT_DEPTH - 1, r.parents);
    }
    assert Within(r.parents, made, MAX_SUBAGENT_DEPTH);
  }

  function After(run: seq<Action>): Option<State> {
    if run == [] then Some(START)
    else
      var last := |run| - 1;
      match After(run[..last])
      case None => None
      case Some(s) => if Enabled(s, run[last]) then Some(Apply(s, run[last])) else None
  }

  lemma {:induction false} RunKeeps(run: seq<Action>)
    requires After(run).Some?
    ensures Inv(After(run).value)
  {
    if run != [] {
      var last := |run| - 1;
      RunKeeps(run[..last]);
      StepKeeps(After(run[..last]).value, run[last]);
    }
  }

  /**
   Over every run, although a check is older than the spawn it allows: every task has a depth of at most
   three, so its chain never comes back to it; and a child has its parent's root, a task without a parent.
   */
  lemma {:induction false} TreeStaysShallow(run: seq<Action>, s: State, t: int)
    requires After(run) == Some(s) && t in s.parents
    ensures exists d: nat :: d <= MAX_SUBAGENT_DEPTH && HasDepth(s.parents, t, d)
    ensures forall n: nat :: n > 0 ==> Up(s.parents, t, n) != Some(t)
    ensures var root := Top(s.parents, t, MAX_DEPTH_WALK);
            && root in s.parents && s.parents[root].None?
            && (s.parents[t].Some? ==> Top(s.parents, s.parents[t].value, MAX_DEPTH_WALK) == root)
  {
    RunKeeps(run);
    WithinIsDepth(s.parents, t, MAX_SUBAGENT_DEPTH);
    var d: nat :| d <= MAX_SUBAGENT_DEPTH && HasDepth(s.parents, t, d);
    TopIsUp(s.parents, t, MAX_DEPTH_WALK, d);
    UpStaysInside(s, t, d);
    if s.parents[t].Some? { RootAgreesToDepth(s.parents, t, s.parents[t].value, d); }
    forall n: nat | n > 0 ensures Up(s.parents, t, n) != Some(t) { NoReturn(s.parents, t, d, n); }
  }

  /** A chain that ends never passes its start again. */
  lemma {:induction false} NoReturn(parents: Parents, t: int, d: nat, n: nat)
    requires HasDepth(parents, t, d) && n > 0
    ensures Up(parents, t, n) != Some(t)
  {
    UpUp(parents, t, n, d);
    if Up(parents, t, n + d).Some? { TopReached(parents, t, d, n + d); }
  }

  lemma {:induction false} UpStaysInside(s: State, t: int, n: nat)
    requires Inv(s) && t in s.parents && Up(s.parents, t, n).Some?
    ensures Up(s.parents, t, n).value in s.parents
    decreases n
  {
    if n > 0 { UpStaysInside(s, s.parents[t].value, n - 1); }
  }

  /** A task may get a child exactly when its depth is below three. */
  lemma {:induction false} SpawnsExactlyBelowThree(run: seq<Action>, s: State, k: int, p: int)
    requires After(run) == Some(s) && p in s.parents && k !in s.tickets
    ensures Enabled(s, Check(k, p)) <==> exists d: nat :: d < MAX_SUBAGENT_DEPTH && HasDepth(s.parents, p, d)
  {
    WalkWithin(s.parents, p, MAX_SUBAGENT_DEPTH - 1, MAX_DEPTH_WALK);
    WithinIsDepth(s.parents, p, MAX_SUBAGENT_DEPTH - 1);
  }

  // ---- the root a ticket names ----

  /** `x` is `t` or one of its ancestors. */
  ghost predicate OnChain(parents: Parents, t: int, x: int) {
    exists n: nat :: Up(parents, t, n) == Some(x)
  }

  predicate Closed(parents: Parents) {
    forall u :: u in parents && parents[u].Some? ==> parents[u].value in parents
  }

  lemma {:induction false} UpGrown(parents: Parents, t: int, n: nat, more: Parents)
    requires t in parents && Closed(parents) && forall u :: u in parents ==> u in more && more[u] == parents[u]
    ensures Up(more, t, n) == Up(parents, t, n)
    decreases n
  {
    if n > 0 && parents[t].Some? { UpGrown(parents, parents[t].value, n - 1, more); }
  }

  /** Deleting a task that is not among the first ancestors leaves them as they were. */
  lemma {:induction false} UpSpared(parents: Parents, t: int, n: nat, gone: int)
    requires forall m: nat :: m <= n ==> Up(parents, t, m) != Some(gone)
    ensures Up(Without(parents, gone), t, n) == Up(parents, t, n)
    decreases n
  {
    assert Up(parents, t, 0) != Some(gone);
    if n > 0 && ParentOf(parents, t).Some? {
      var p := ParentOf(parents, t).value;
      assert Up(parents, t, 1) == Some(p);
      forall m: nat | m <= n - 1 ensures Up(parents, p, m) != Some(gone) { assert Up(parents, t, m + 1) == Up(parents, p, m); }
      UpSpared(parents, p, n - 1, gone);
    }
  }

  /** What a deletion leaves of a chain was there before, and below the deleted task. */
  lemma {:induction false} UpLeft(parents: Parents, t: int, n: nat, gone: int)
    requires t != gone && Up(Without(parents, gone), t, n).Some?
    ensures Up(parents, t, n) == Up(Without(parents, gone), t, n)
    ensures forall m: nat :: m <= n ==> Up(parents, t, m) != Some(gone)
    decreases n
  {
    if n > 0 {
      var p := ParentOf(Without(parents, gone), t).value;
      UpLeft(parents, p, n - 1, gone);
      forall m: nat | m <= n ensures Up(parents, t, m) != Some(gone) {
        if m > 0 { assert Up(parents, t, m) == Up(parents, p, m - 1); }
      }
    }
  }

  /** The chain of `p` is what it was in `before`, and every task on it is there. */
  ghost predicate Intact(before: Parents, s: State, p: int) {
    && p in s.parents
    && (forall n: nat :: Up(s.parents, p, n) == Up(before, p, n))
    && (forall n: nat :: Up(before, p, n).Some? ==> Up(before, p, n).value in s.parents)
  }

  /** `p` is gone, or no longer reaches `root`. */
  ghost predicate Severed(s: State, p: int, root: int) {
    p in s.used && (p in s.parents ==> forall n: nat :: Up(s.parents, p, n) != Some(root))
  }

  lemma IntactKeeps(before: Parents, s: State, p: int, a: Action)
    requires Inv(s) && Intact(before, s, p) && Enabled(s, a)
    requires a.Delete? ==> !OnChain(before, p, a.task)
    ensures Intact(before, Apply(s, a), p)
  {
    var t := Apply(s, a);
    hide Within, Top, Walk;
    forall n: nat ensures Up(t.parents, p, n) == Up(before, p, n) {
      if a.Delete? {
        forall m: nat | m <= n ensures Up(s.parents, p, m) != Some(a.task) { assert Up(s.parents, p, m) == Up(before, p, m); }
        UpSpared(s.parents, p, n, a.task);
      } else if !a.Check? {
        UpGrown(s.parents, p, n, t.parents);
      }
    }
    if a.Delete? {
      assert Up(before, p, 0) == Some(p);
      forall n: nat | Up(before, p, n).Some? ensures Up(before, p, n).value in t.parents {
        assert Up(before, p, n) != Some(a.task);
      }
    }
  }

  lemma SeveredKeeps(s: State, p: int, root: int, a: Action)
    requires Inv(s) && Severed(s, p, root) && Enabled(s, a)
    ensures Severed(Apply(s, a), p, root)
  {
    var t := Apply(s, a);
    hide Within, Top, Walk;
    if p in t.parents {
      assert p in s.parents;
      forall n: nat ensures Up(t.parents, p, n) != Some(root) {
        if a.Delete? {
          if Up(t.parents, p, n).Some? { UpLeft(s.parents, p, n, a.task); }
        } else if !a.Check? {
          UpGrown(s.parents, p, n, t.parents);
        }
      }
    }
  }

  /** Deleting a task on the chain, up to the root itself, cuts the root off. */
  lemma {:induction false} DeletionSevers(before: Parents, s: State, p: int, d: nat, a: Action)
    requires Inv(s) && Intact(before, s, p) && HasDepth(before, p, d)
    requires Enabled(s, a) && a.Delete? && OnChain(before, p, a.task)
    ensures Severed(Apply(s, a), p, Up(before, p, d).value)
  {
    var t, root := Apply(s, a), Up(before, p, d).value;
    var m: nat :| Up(before, p, m) == Some(a.task);
    TopReached(before, p, d, m);
    hide Within, Top, Walk;
    if p in t.parents {
      forall n: nat ensures Up(t.parents, p, n) != Some(root) {
        if Up(t.parents, p, n).Some? {
          UpLeft(s.parents, p, n, a.task);
          assert Up(s.parents, p, n) == Up(before, p, n) && Up(s.parents, p, m) == Up(before, p, m);
          assert n < m;
          BelowIsNotRoot(before, p, d, n);
        }
      }
    }
  }

  lemma {:induction false} BelowIsNotRoot(parents: Parents, t: int, d: nat, n: nat)
    requires HasDepth(parents, t, d) && n < d
    ensures Up(parents, t, n) != Up(parents, t, d)
  {
    UpNext(parents, t, n);
    UpShorter(parents, t, n + 1, d);
  }

  /** Since the check, no task has been deleted that was on its parent's chain then. */
  ghost predicate ChainSpared(before: Parents, run: seq<Action>, j: nat, p: int) {
    forall i :: j < i < |run| && run[i].Delete? ==> !OnChain(before, p, run[i].task)
  }

  lemma {:induction false} TicketRun(run: seq<Action>, j: nat, k: int, p: int)
    requires After(run).Some? && j < |run| && run[j] == Check(k, p) && After(run[..j]).Some?
    ensures var before, s := After(run[..j]).value.parents, After(run).value;
            && p in before && k in s.tickets && s.tickets[k] == Ticket(p, Top(before, p, MAX_DEPTH_WALK))
            && (ChainSpared(before, run, j, p) ==> Intact(before, s, p))
            && (!ChainSpared(before, run, j, p) ==> Severed(s, p, Top(before, p, MAX_DEPTH_WALK)))
  {
    var last := |run| - 1;
    var before, r, s := After(run[..j]).value.parents, After(run[..last]).value, After(run).value;
    RunKeeps(run[..last]);
    if j == last {
      CheckedIntact(r, k, p);
    } else {
      assert run[..last][..j] == run[..j];
      TicketRun(run[..last], j, k, p);
      RunKeeps(run[..j]);
      var d := ShallowTop(After(run[..j]).value, p);
      TicketStep(run, j, p, before, r);
    }
  }

  lemma CheckedIntact(s: State, k: int, p: int)
    requires Inv(s) && Enabled(s, Check(k, p))
    ensures Intact(s.parents, Apply(s, Check(k, p)), p)
  {
    forall n: nat | Up(s.parents, p, n).Some? ensures Up(s.parents, p, n).value in s.parents { UpStaysInside(s, p, n); }
  }

  /** In a reachable tree the capped walk ends at the true root. */
  lemma ShallowTop(s: State, p: int) returns (d: nat)
    requires Inv(s) && p in s.parents
    ensures HasDepth(s.parents, p, d) && Up(s.parents, p, d) == Some(Top(s.parents, p, MAX_DEPTH_WALK))
  {
    WithinIsDepth(s.parents, p, MAX_SUBAGENT_DEPTH);
    d :| d <= MAX_SUBAGENT_DEPTH && HasDepth(s.parents, p, d);
    TopIsUp(s.parents, p, MAX_DEPTH_WALK, d);
  }

  lemma {:induction false} TicketStep(run: seq<Action>, j: nat, p: int, before: Parents, r: State)
    requires j < |run| - 1 && After(run[..|run| - 1]) == Some(r) && Inv(r) && Enabled(r, run[|run| - 1])
    requires exists d: nat :: HasDepth(before, p, d) && Up(before, p, d) == Some(Top(before, p, MAX_DEPTH_WALK))
    requires ChainSpared(before, run[..|run| - 1], j, p) ==> Intact(before, r, p)
    requires !ChainSpared(before, run[..|run| - 1], j, p) ==> Severed(r, p, Top(before, p, MAX_DEPTH_WALK))
    ensures var s := Apply(r, run[|run| - 1]);
            && (ChainSpared(before, run, j, p) ==> Intact(before, s, p))
            && (!ChainSpared(before, run, j, p) ==> Severed(s, p, Top(before, p, MAX_DEPTH_WALK)))
  {
    var last := |run| - 1;
    var a, root := run[last], Top(before, p, MAX_DEPTH_WALK);
    assert forall i :: 0 <= i < last ==> run[..last][i] == run[i];
    assert ChainSpared(before, run, j, p) <==>
           ChainSpared(before, run[..last], j, p) && (a.Delete? ==> !OnChain(before, p, a.task));
    hide Intact, Severed, ChainSpared, OnChain, Inv, Enabled, Apply, After, Top;
    if !ChainSpared(before, run[..last], j, p) {
      SeveredKeeps(r, p, root, a);
    } else if a.Delete? && OnChain(before, p, a.task) {
      var d: nat :| HasDepth(before, p, d) && Up(before, p, d) == Some(root);
      DeletionSevers(before, r, p, d, a);
    } else {
      IntactKeeps(before, r, p, a);
    }
  }

  /**
   The root under which a child takes its slot, read at the check, is the root of its parent, however long the
   child waits, if and only if no task on the parent's chain at the check has been deleted since; and then it
   is the root of every child that the parent has.
   */
  lemma {:induction false} SlotRootIsChildsRoot(run: seq<Action>, s: State, j: nat, k: int, p: int)
    requires After(run) == Some(s) && j < |run| && run[j] == Check(k, p)
    ensures After(run[..j]).Some? && k in s.tickets && s.tickets[k].parent == p
    ensures (p in s.parents && Top(s.parents, p, MAX_DEPTH_WALK) == s.tickets[k].root) <==>
            ChainSpared(After(run[..j]).value.parents, run, j, p)
    ensures ChainSpared(After(run[..j]).value.parents, run, j, p) ==>
            forall c :: c in s.parents && s.parents[c] == Some(p) ==> Top(s.parents, c, MAX_DEPTH_WALK) == s.tickets[k].root
  {
    AfterPrefix(run, j);
    var before := After(run[..j]).value;
    TicketRun(run, j, k, p);
    RunKeeps(run);
    RunKeeps(run[..j]);
    var d := ShallowTop(before, p);
    if ChainSpared(before.parents, run, j, p) {
      IntactTop(before, s, p);
      forall c | c in s.parents && s.parents[c] == Some(p) ensures Top(s.parents, c, MAX_DEPTH_WALK) == s.tickets[k].root {
        TreeStaysShallow(run, s, c);
      }
    } else if p in s.parents {
      var e := ShallowTop(s, p);
      assert Up(s.parents, p, e) != Some(s.tickets[k].root);
    }
  }

  lemma {:induction false} AfterPrefix(run: seq<Action>, k: nat)
    requires k <= |run| && After(run).Some?
    ensures After(run[..k]).Some?
  {
    if k == |run| {
      assert run[..k] == run;
    } else {
      AfterPrefix(run[..|run| - 1], k);
      assert run[..|run| - 1][..k] == run[..k];
    }
  }

  lemma {:induction false} IntactTop(before: State, s: State, p: int)
    requires Inv(before) && Inv(s) && p in before.parents && Intact(before.parents, s, p)
    ensures Top(s.parents, p, MAX_DEPTH_WALK) == Top(before.parents, p, MAX_DEPTH_WALK)
  {
    var d := ShallowTop(before, p);
    var e := ShallowTop(s, p);
    UpNext(s.parents, p, d);
    UpNext(before.parents, p, d);
    assert Up(s.parents, p, d) == Up(before.parents, p, d) && Up(s.parents, p, d + 1) == Up(before.parents, p, d + 1);
    DepthIsUnique(s.parents, p, e, d);
  }

  /** After a deletion it need not be: the child runs under the slot of a root that is gone. */
  lemma DeletionSplitsRoots()
    ensures var run := [CreateRoot(1), Check(10, 1), Spawn(10, 2), Check(20, 2), Delete(1), Spawn(20, 3)];
            && After(run).Some?
            && var s := After(run).value;
               && s.tickets[20].root == 1 && 1 !in s.parents && Top(s.parents, 3, MAX_DEPTH_WALK) == 2
  {
    var a := Apply(START, CreateRoot(1));
    var b := Apply(a, Check(10, 1));
    var c := Apply(b, Spawn(10, 2));
    var d := Apply(c, Check(20, 2));
    var e := Apply(d, Delete(1));
    var f := Apply(e, Spawn(20, 3));
    var run := [CreateRoot(1), Check(10, 1), Spawn(10, 2), Check(20, 2), Delete(1), Spawn(20, 3)];
    assert run[..1][..0] == [] && run[..2][..1] == run[..1] && run[..3][..2] == run[..2];
    assert run[..4][..3] == run[..3] && run[..5][..4] == run[..4];
    assert After(run[..1]) == Some(a);
    assert After(run[..2]) == Some(b);
    assert After(run[..3]) == Some(c);
    assert After(run[..4]) == Some(d);
    assert After(run[..5]) == Some(e);
    assert After(run) == Some(f);
  }
}
