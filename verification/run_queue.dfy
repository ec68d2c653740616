/**
 The CFS run queue: a red-black tree of runnable tasks keyed by vruntime, with its leftmost node
 cached (runq.c), and the part of the wait queue's dequeue that changes it (waitq.c).
 */
module RunQueue {
  import opened Arith
  import opened LeftmostTree
  import opened RbLinks
  import opened RbModel
  import opened RbWalk
  import opened SchedTask
  import opened SeqOps
  import Cfs

  function PrioritySum(s: seq<Task>): nat {
    if s == [] then 0 else s[0].priority + PrioritySum(s[1..])
  }

  /** A CFS task's vruntime is what it has consumed times its priority. */
  ghost predicate Keyed(t: Task)
    reads t`vruntime, t`consumed
  {
    t.IsCfs() && t.vruntime == t.consumed * t.priority
  }

  /** The entity holds the largest multiple of its priority that is at most `l`. */
  ghost predicate Rounded(t: Task, l: nat)
    reads t`vruntime, t`consumed
  {
    && t.vruntime == t.consumed * t.priority && t.vruntime <= l < t.vruntime + t.priority
    && t.priority > 0 && t.consumed == l / t.priority
  }

  /** update_vruntime_runq in a valid run queue. */
  function Renormalised(q: Cfs.Queue): (r: Cfs.Queue)
    requires Cfs.PrioritiesOk(q)
    ensures |r| == |q|
  {
    if q == [] then [] else Cfs.Normalised(q, q[0].V())
  }

  predicate Owners(taskOf: map<RbNode, Task>) {
    forall n :: n in taskOf ==> taskOf[n].node == n
  }

  /** x >> n */
  function Shr(x: nat, n: nat): nat {
    var p := Pow2(n);
    DivNat(x, p);
    x / p
  }

  lemma SumOne(t: Task)
    ensures PrioritySum([t]) == t.priority
  {
    assert [t][1..] == [];
  }

  lemma {:induction false} SumJoin(a: seq<Task>, b: seq<Task>)
    ensures PrioritySum(a + b) == PrioritySum(a) + PrioritySum(b)
  {
    if a == [] {
      assert a + b == b;
    } else {
      assert (a + b)[1..] == a[1..] + b;
      SumJoin(a[1..], b);
    }
  }

  lemma InsertedSum(q: seq<Task>, k: nat, t: Task)
    requires k <= |q|
    ensures PrioritySum(Inserted(q, k, t)) == PrioritySum(q) + t.priority
  {
    hide PrioritySum, Inserted;
    InsertedParts(q, k, t);
    SumOne(t);
    SumJoin(q[..k], q[k..]);
    SumJoin([t], q[k..]);
    SumJoin(q[..k], [t] + q[k..]);
  }

  lemma RemovedSum(q: seq<Task>, k: nat)
    requires k < |q|
    ensures PrioritySum(q) == PrioritySum(Removed(q, k)) + q[k].priority
  {
    hide PrioritySum;
    assert q == Inserted(Removed(q, k), k, q[k]);
    InsertedSum(Removed(q, k), k, q[k]);
  }

  lemma SumHas(q: seq<Task>, t: Task)
    requires t in q
    ensures PrioritySum(q) >= t.priority
  {
    var k :| 0 <= k < |q| && q[k] == t;
    RemovedSum(q, k);
  }

  class CfsRq {
    const rb: CachedTree
    /** container_of: the task that embeds a run_node. */
    const taskOf: map<RbNode, Task>
    var prioritySum: nat
    /** The queued tasks in tree order. */
    ghost var order: seq<Task>

    /** The pointers and the cached leftmost node, whatever the keys are. */
    ghost predicate Linked()
      reads `order, rb, rb.root, Nodes(rb.tree)
    {
      && rb.Linked()
      && Owners(taskOf)
      && InOrder(taskOf, rb.Order(), order)
    }

    ghost predicate Owned(t: Task) {
      t.node in taskOf && taskOf[t.node] == t
    }

    /** The queued tasks. */
    ghost function Members(): set<Task>
      reads `order
    {
      set t | t in order
    }

    /** The run queue's state as a value. */
    ghost function Queue(): (q: Cfs.Queue)
      reads `order, order
      ensures |q| == |order|
      ensures forall i :: 0 <= i < |q| ==> q[i] == Cfs.Entity(order[i], order[i].consumed, order[i].priority)
    {
      var o := order;
      seq(|o|, i requires 0 <= i < |o| reads o => Cfs.Entity(o[i], o[i].consumed, o[i].priority))
    }

    /** An empty run queue, which InitRq starts. */
    constructor (tasks: map<RbNode, Task>)
      requires Owners(tasks)
      ensures taskOf == tasks && order == [] && Linked() && prioritySum == 0
      ensures fresh(rb) && fresh(rb.root)
    {
      var t := new CachedTree();
      rb, taskOf, prioritySum, order := t, tasks, 0, [];
    }

    /** What the code reads of a linked queue. */
    lemma QueueFacts()
      requires Linked()
      ensures Nodes(rb.tree) <= taskOf.Keys && |rb.Order()| == |order| && NoDup(rb.Order())
      ensures rb.leftmost == if order == [] then null else order[0].node
      ensures forall i :: 0 <= i < |order| ==>
                && order[i].node == rb.Order()[i] && rb.Order()[i] in taskOf && taskOf[rb.Order()[i]] == order[i]
                && order[i].node in Nodes(rb.tree) && order[i] in taskOf.Values
      ensures forall i, j :: 0 <= i < j < |order| ==> order[i] != order[j]
      ensures Owners(taskOf)
    {
      rb.OrderNodes();
      hide CachedTree.Linked, Nodes, CachedTree.Order;
      forall n | n in Nodes(rb.tree) ensures n in taskOf {
        rb.NodeIn(n);
      }
    }

    /** The descent of enqueue_se: equal keys go left. */
    method FindPlace(value: nat) returns (link: Link, parent: RbNode?, isLeftmost: bool, ghost ctx: Ctx)
      requires Linked()
      ensures Shape(Snap(Nodes(rb.tree)), rb.root.node, ctx, Leaf) && CtxOk(ctx, 0) && CtxNodes(ctx) == Nodes(rb.tree)
      ensures Before(ctx) + After(ctx) == rb.Order()
      ensures link == LinkOf(ctx) && parent == Parent(ctx) && (isLeftmost <==> Before(ctx) == [])
      ensures |Before(ctx)| <= |order|
      ensures Before(ctx) != [] ==> order[|Before(ctx)| - 1].vruntime < value
      ensures After(ctx) != [] ==> |Before(ctx)| < |order| && order[|Before(ctx)|].vruntime >= value
    {
      hide Descent, Shape, RB, Snap, Nodes, Inorder, Before, After, CtxOk, Ok, CachedTree.Linked, Height, CtxNodes;
      QueueFacts();
      ghost var ns, s, root := Nodes(rb.tree), rb.Order(), rb.root;
      ghost var lefts := set n | n in ns && taskOf[n].vruntime >= value;
      link, parent, isLeftmost := AtRoot, null, true;
      ghost var t, bh := rb.tree, Height(rb.tree);
      ctx := Top;
      rb.StartDescent(lefts);
      while Load(link, rb.root) != null
        invariant Descent(root, ns, s, lefts, link, parent, isLeftmost, ctx, t, bh)
        decreases t
      {
        Loaded(root, ns, s, lefts, link, parent, isLeftmost, ctx, t, bh);
        ghost var p := parent;
        parent := Load(link, rb.root);
        var entry := taskOf[parent];
        if entry.vruntime >= value {
          ctx, bh := DescentLeft(root, ns, s, lefts, link, p, isLeftmost, ctx, t, bh);
          link, t := LeftOf(parent), t.left;
        } else {
          ctx, bh := DescentRight(root, ns, s, lefts, link, p, isLeftmost, ctx, t, bh);
          link, t, isLeftmost := RightOf(parent), t.right, false;
        }
      }
      Loaded(root, ns, s, lefts, link, parent, isLeftmost, ctx, t, bh);
      DescentEnd(root, ns, s, lefts, link, parent, isLeftmost, ctx, bh);
    }

    lemma QueuedNode(se: Task)
      requires Linked() && Owned(se)
      ensures se in order <==> se.node in Nodes(rb.tree)
    {
      QueueFacts();
      rb.NodeIn(se.node);
    }

    /**
     enqueue_se: the new place is between a smaller key and one that is not smaller, even if the keys
     are out of order.
     */
    method EnqueueSe(se: Task) returns (ghost k: nat)
      requires Linked() && Owned(se) && se !in order
      modifies this, rb, rb.root, Nodes(rb.tree), se.node
      ensures Linked() && prioritySum == old(prioritySum)
      ensures Nodes(rb.tree) == old(Nodes(rb.tree)) + {se.node}
      ensures k <= |old(order)| && order == Inserted(old(order), k, se)
      ensures k > 0 ==> old(order)[k - 1].vruntime < se.vruntime
      ensures k < |old(order)| ==> old(order)[k].vruntime >= se.vruntime
    {
      hide CachedTree.Linked, Inserted, Shape, Snap, Nodes, CtxOk, CtxNodes, CachedTree.Order, Before, After;
      QueueFacts();
      QueuedNode(se);
      var link, parent, isLeftmost;
      ghost var ctx;
      link, parent, isLeftmost, ctx := FindPlace(se.vruntime);
      k := |Before(ctx)|;
      InsertOrder(taskOf, rb.Order(), order, k, se.node, se);
      rb.LinkAt(se.node, link, parent, isLeftmost, ctx);
      order := Inserted(order, k, se);
    }

    /** dequeue_se */
    method DequeueSe(se: Task) returns (ghost k: nat)
      requires Linked() && se in order
      modifies this, rb, rb.root, Nodes(rb.tree)
      ensures Linked() && prioritySum == old(prioritySum)
      ensures Nodes(rb.tree) == old(Nodes(rb.tree)) - {se.node}
      ensures k < |old(order)| && old(order)[k] == se && order == Removed(old(order), k)
    {
      hide CachedTree.Linked, Removed, Nodes, CachedTree.Order;
      QueueFacts();
      k :| k < |order| && order[k] == se;
      RemoveOrder(taskOf, rb.Order(), order, k);
      rb.Delete(se.node, k);
      order := Removed(order, k);
    }

    /** The two stores that update_vruntime_runq makes to each entity. */
    method RoundTo(t: Task, v: nat)
      requires t.IsCfs()
      modifies t`vruntime, t`consumed
      ensures Rounded(t, v) && t.vruntime == Multiple(v, t.priority) && Rounded(t, t.vruntime)
    {
      t.consumed := Shr(v, t.shift);
      t.vruntime := t.consumed * t.priority;
      DivIs(t.vruntime, t.priority, t.consumed);
    }

    /** One round of update_vruntime_runq. */
    method Visit(cur: RbNode, v: nat, ghost i: nat, ghost t: Task) returns (next: RbNode?)
      requires Linked() && i < |order| && order[i] == t && t.node == cur && t.IsCfs()
      modifies t`vruntime, t`consumed
      ensures Rounded(t, v) && t.vruntime == Multiple(v, t.priority) && Rounded(t, t.vruntime)
      ensures Linked() && next == if i + 1 < |order| then rb.Order()[i + 1] else null
    {
      hide CachedTree.Linked, Nodes, CachedTree.Order, Rounded, Pow2, Multiple;
      QueueFacts();
      var curSe := taskOf[cur];
      RoundTo(curSe, v);
      next := rb.Next(cur, i);
    }

    /** The walk of update_vruntime_runq; `l` was the leftmost's vruntime, which may be rounded already. */
    method Sweep(first: Task, ghost l: nat)
      requires Linked() && order != [] && first == order[0] && first.priority > 0
      requires first.vruntime == l || first.vruntime == Multiple(l, first.priority)
      requires forall i :: 0 <= i < |order| ==> order[i].IsCfs()
      modifies order`vruntime, order`consumed
      ensures Linked() && forall t :: t in order ==> Rounded(t, Multiple(l, first.priority))
    {
      hide CachedTree.Linked, Nodes, CachedTree.Order, Rounded, Pow2, Multiple;
      QueueFacts();
      hide Linked;
      ghost var s, q, l' := rb.Order(), order, Multiple(l, first.priority);
      MultipleTwice(l, first.priority);
      var cur: RbNode? := rb.leftmost;
      ghost var i := 0;
      while cur != null
        invariant Linked() && i <= |q| && cur == if i < |q| then s[i] else null
        invariant first.vruntime == l' || (i == 0 && first.vruntime == l)
        invariant forall j :: 0 <= j < i ==> Rounded(q[j], l')
        decreases |q| - i
      {
        cur := Visit(cur, first.vruntime, i, q[i]);
        i := i + 1;
      }
    }

    /** What update_vruntime_runq makes of the leftmost's vruntime. */
    ghost function Start(): nat
      requires order != [] && order[0].IsCfs()
      reads `order, order
    {
      Multiple(order[0].vruntime, order[0].priority)
    }

    /**
     update_vruntime_runq: every queued entity gets the leftmost's vruntime rounded down to the
     leftmost's priority and then to its own; `se`, if it is not queued, the one that is not rounded yet.
     */
    method UpdateVruntime(se: Task)
      requires Linked() && Owned(se) && se.IsCfs()
      requires forall i :: 0 <= i < |order| ==> order[i].IsCfs()
      modifies order`vruntime, order`consumed, se`vruntime, se`consumed
      ensures Linked()
      ensures order == [] ==> se.vruntime == old(se.vruntime) && se.consumed == old(se.consumed)
      ensures old(order) != [] ==> forall t :: t in order ==> Rounded(t, old(Start()))
      ensures order != [] && se !in order ==> Rounded(se, old(order[0].vruntime))
    {
      hide CachedTree.Linked, Nodes, CachedTree.Order, Rounded, Pow2, Multiple;
      QueueFacts();
      hide Linked;
      if rb.leftmost == null { return; }
      var first := taskOf[rb.leftmost];
      ghost var l := first.vruntime;
      RoundTo(se, first.vruntime);
      MultipleOf(l / first.priority, first.priority);
      Sweep(first, l);
    }

    /** The queue is what normalisation makes of `q`. */
    ghost predicate NormalisedSince(q: Cfs.Queue)
      reads `order, order
    {
      Cfs.PrioritiesOk(q) && Queue() == Renormalised(q)
    }

    /** When every queued entity is rounded to `l`, the queue is the model's normalised queue. */
    lemma RoundedQueue(l: nat, q0: Cfs.Queue)
      requires |q0| == |order|
      requires forall i :: 0 <= i < |order| ==>
                 order[i] == q0[i].task && order[i].priority == q0[i].priority && Rounded(order[i], l)
      ensures forall i :: 0 <= i < |q0| ==> q0[i].priority > 0
      ensures Queue() == Cfs.Normalised(q0, l)
    {
    }

    /** The same in a valid run queue, where the leftmost's vruntime is a multiple of its priority. */
    method Normalise(se: Task)
      requires Linked() && Owned(se) && se.IsCfs()
      requires forall i :: 0 <= i < |order| ==>
                 order[i].IsCfs() && order[i].vruntime == order[i].consumed * order[i].priority
      modifies order`vruntime, order`consumed, se`vruntime, se`consumed
      ensures Linked()
      ensures order == [] ==> se.vruntime == old(se.vruntime) && se.consumed == old(se.consumed)
      ensures order != [] ==> forall t :: t == se || t in order ==> t.vruntime == t.consumed * t.priority
      ensures order != [] ==> forall t :: t == se || t in order ==> Rounded(t, old(order[0].vruntime))
      ensures NormalisedSince(old(Queue()))
    {
      hide Linked, Pow2, Multiple;
      ghost var q := Queue();
      if order != [] { MultipleOf(order[0].consumed, order[0].priority); }
      assert order != [] ==> Start() == order[0].vruntime;
      UpdateVruntime(se);
      if order != [] { RoundedQueue(q[0].V(), q); }
    }

    /** The task at place `k` has then been removed. */
    ghost predicate DequeuedSince(q: Cfs.Queue, k: nat)
      reads `order, order
    {
      Cfs.PrioritiesOk(q) && k < |q| && Queue() == Removed(Renormalised(q), k)
    }

    lemma QueueInserted(o: seq<Task>, q: Cfs.Queue, k: nat, se: Task)
      requires k <= |o| == |q| && order == Inserted(o, k, se)
      requires forall i :: 0 <= i < |o| ==> q[i] == Cfs.Entity(o[i], o[i].consumed, o[i].priority)
      ensures Queue() == Inserted(q, k, Cfs.Entity(se, se.consumed, se.priority))
    {
    }

    lemma QueueRemoved(o: seq<Task>, q: Cfs.Queue, k: nat)
      requires k < |o| == |q| && order == Removed(o, k)
      requires forall i :: 0 <= i < |o| ==> q[i] == Cfs.Entity(o[i], o[i].consumed, o[i].priority)
      ensures Queue() == Removed(q, k)
    {
    }

    ghost predicate Entity(t: Task)
      reads `order, t`vruntime, t`consumed, t`state
    {
      Keyed(t) && (t.state == Running <==> t in order)
    }

    /**
     The invariant of every run of guarded operations: the pointers and the leftmost cache, the
     queued tasks are exactly the running ones, the priority sum, and vruntime = consumed * priority.
     */
    ghost predicate Valid()
      reads `order, `prioritySum, rb, rb.root, Nodes(rb.tree)
      reads taskOf.Values`vruntime, taskOf.Values`consumed, taskOf.Values`state
    {
      && Linked()
      && (forall n :: n in taskOf ==> Entity(taskOf[n]))
      && prioritySum == PrioritySum(order)
    }

    /** The tasks' side of the invariant while `se` changes hands. */
    ghost predicate EntitiesBut(se: Task)
      reads `order, taskOf.Values`vruntime, taskOf.Values`consumed, taskOf.Values`state
    {
      forall n :: n in taskOf ==>
          Keyed(taskOf[n]) && (taskOf[n] != se ==> (taskOf[n].state == Running <==> taskOf[n] in order))
    }

    /** What enqueue_se_to_runq and dequeue_se_to_wq do before they change the tree. */
    method SetState(se: Task, state: TaskState)
      requires Linked() && Owned(se) && forall n :: n in taskOf ==> Entity(taskOf[n])
      modifies order`vruntime, order`consumed, se`vruntime, se`consumed, se`state
      ensures Linked() && se.state == state && NormalisedSince(old(Queue())) && EntitiesBut(se)
      ensures order == [] ==> se.vruntime == old(se.vruntime) && se.consumed == old(se.consumed)
      ensures order != [] ==> forall t :: t == se || t in order ==> Rounded(t, old(order[0].vruntime))
    {
      hide CachedTree.Linked, Nodes, InOrder, PrioritySum, Rounded, NormalisedSince, Pow2;
      QueueFacts();
      ghost var q := Queue();
      se.state := state;
      assert Linked() && Queue() == q;
      Normalise(se);
    }

    /** enqueue_se, for a task that is already counted as running. */
    method Join(se: Task) returns (ghost k: nat)
      requires Linked() && Owned(se) && se !in order && EntitiesBut(se)
      requires se.state == Running && prioritySum == PrioritySum(order) + se.priority
      modifies this, rb, rb.root, Nodes(rb.tree), se.node
      ensures Valid() && k <= |old(order)| && order == Inserted(old(order), k, se)
      ensures forall t :: t in order <==> t == se || t in old(order)
      ensures Queue() == Inserted(old(Queue()), k, Cfs.Entity(se, se.consumed, se.priority))
      ensures k > 0 ==> order[k - 1].vruntime < se.vruntime
      ensures k + 1 < |order| ==> order[k + 1].vruntime >= se.vruntime
    {
      hide CachedTree.Linked, Nodes, InOrder, Inserted, PrioritySum, Keyed;
      QueueFacts();
      ghost var q, r := order, Queue();
      k := EnqueueSe(se);
      hide Linked;
      QueueInserted(q, r, k, se);
      InsertedMembers(q, k, se);
      InsertedSum(q, k, se);
    }

    /** What an enqueue has made of the queue `q`, for the model. */
    lemma EnqueuedIs(q: Cfs.Queue, e: Cfs.Entity, k: nat, se: Task)
      requires Valid() && Cfs.PrioritiesOk(q) && k <= |q| && se in order && e.task == se && e.priority == se.priority
      requires Queue() == Inserted(Renormalised(q), k, Cfs.Entity(se, se.consumed, se.priority))
      requires if q == [] then se.consumed == e.consumed else Rounded(se, q[0].V())
      requires k > 0 ==> order[k - 1].vruntime < se.vruntime
      requires k + 1 < |order| ==> order[k + 1].vruntime >= se.vruntime
      ensures Cfs.Enqueued(q, e, Queue(), k)
    {
      QueueFacts();
      var r := Queue();
      assert forall i :: 0 <= i < |r| ==> r[i].V() == order[i].vruntime;
    }

    /** Join, after the queue `q` has been normalised and the task's entity `e` with it. */
    method JoinRounded(se: Task, ghost q: Cfs.Queue, ghost e: Cfs.Entity) returns (ghost k: nat)
      requires Linked() && Owned(se) && se !in order && EntitiesBut(se)
      requires se.state == Running && prioritySum == PrioritySum(order) + se.priority
      requires NormalisedSince(q) && e.task == se && e.priority == se.priority
      requires if q == [] then se.consumed == e.consumed else Rounded(se, q[0].V())
      modifies this, rb, rb.root, Nodes(rb.tree), se.node
      ensures Valid() && k <= |old(order)| && order == Inserted(old(order), k, se)
      ensures forall t :: t in order <==> t == se || t in old(order)
      ensures k > 0 ==> order[k - 1].vruntime < se.vruntime
      ensures k + 1 < |order| ==> order[k + 1].vruntime >= se.vruntime
      ensures Cfs.Enqueued(q, e, Queue(), k)
    {
      hide Linked, Nodes, Inserted, PrioritySum, Rounded, Keyed, Cfs.PrioritiesOk, Renormalised, EntitiesBut, Valid,
           Cfs.Enqueued;
      k := Join(se);
      EnqueuedIs(q, e, k, se);
    }

    /** The queue's first key, for the model. */
    lemma FirstKey()
      requires Valid()
      ensures order != [] ==> Queue()[0].V() == order[0].vruntime
    {
      QueueFacts();
    }

    /** enqueue_se_to_runq; the source relies on its callers for `se` not being queued already. */
    method EnqueueSeToRunq(se: Task) returns (ghost k: nat)
      requires Valid() && Owned(se) && se !in order
      modifies this, rb, rb.root, Nodes(rb.tree), se.node
      modifies order`vruntime, order`consumed, se`vruntime, se`consumed, se`state
      ensures Valid() && se.state == Running && se in order
      ensures k <= |old(order)| && order == Inserted(old(order), k, se)
      ensures old(order) != [] ==> forall t :: t in order ==> Rounded(t, old(order[0].vruntime))
      ensures old(order) == [] ==> se.vruntime == old(se.vruntime) && se.consumed == old(se.consumed)
      ensures k > 0 ==> order[k - 1].vruntime < se.vruntime
      ensures k + 1 < |order| ==> order[k + 1].vruntime >= se.vruntime
      ensures Cfs.Enqueued(old(Queue()), Cfs.Entity(se, old(se.consumed), se.priority), Queue(), k)
    {
      hide Linked, Nodes, Inserted, PrioritySum, Rounded, Keyed, NormalisedSince, EntitiesBut, Cfs.Enqueued;
      FirstKey();
      ghost var q, e := Queue(), Cfs.Entity(se, se.consumed, se.priority);
      prioritySum := prioritySum + se.priority;
      SetState(se, Running);
      k := JoinRounded(se, q, e);
    }

    /** dequeue_se, for a task that is no longer counted as running. */
    method Leave(se: Task) returns (ghost k: nat)
      requires Linked() && se in order && EntitiesBut(se)
      requires se.state != Running && prioritySum + se.priority == PrioritySum(order)
      modifies this, rb, rb.root, Nodes(rb.tree)
      ensures Valid() && k < |old(order)| && old(order)[k] == se && order == Removed(old(order), k)
      ensures Queue() == Removed(old(Queue()), k)
    {
      hide CachedTree.Linked, Nodes, InOrder, Removed, PrioritySum, Keyed;
      QueueFacts();
      ghost var q, r := order, Queue();
      k := DequeueSe(se);
      hide Linked;
      QueueRemoved(q, r, k);
      RemovedMembers(q, k);
      RemovedSum(q, k);
    }

    lemma QueuedOwned(se: Task)
      requires Linked() && se in order
      ensures Owned(se) && Nodes(rb.tree) <= taskOf.Keys
    {
      QueueFacts();
    }

    /** dequeue_se_to_wq, for its effect on the run queue. */
    method DequeueSeToWq(se: Task) returns (ghost k: nat)
      requires Valid() && se in order
      modifies this, rb, rb.root, Nodes(rb.tree)
      modifies order`vruntime, order`consumed, se`state
      ensures Valid() && se.state == Waiting
      ensures k < |old(order)| && old(order)[k] == se && order == Removed(old(order), k)
      ensures forall t :: t in old(order) ==> Rounded(t, old(order[0].vruntime))
      ensures DequeuedSince(old(Queue()), k)
    {
      hide Linked, Nodes, Removed, PrioritySum, Rounded, Keyed, Cfs.PrioritiesOk, Renormalised, EntitiesBut;
      QueuedOwned(se);
      SumHas(order, se);
      prioritySum := prioritySum - se.priority;
      SetState(se, Waiting);
      k := Leave(se);
    }

    /**
     update_vruntime_runq for a task whose node the cache names though it is in no tree: it visits
     that task alone.
     */
    method UpdateFirst(se: Task)
      requires Owned(se) && se.IsCfs() && se.vruntime == se.consumed * se.priority
      requires rb.leftmost == se.node && IsEmptyNode(se.node)
      modifies se`vruntime, se`consumed
      ensures se.vruntime == old(se.vruntime) && se.consumed == old(se.consumed)
    {
      hide Pow2;
      var cur: RbNode? := rb.leftmost;
      var first := taskOf[rb.leftmost];
      ghost var c := se.consumed;
      MultipleOf(c, se.priority);
      RoundTo(se, first.vruntime);
      while cur != null
        invariant cur == null || cur == se.node
        invariant se.vruntime == c * se.priority == old(se.vruntime) && se.consumed == c
        decreases cur != null
      {
        var curSe := taskOf[cur];
        RoundTo(curSe, first.vruntime);
        cur := RbNextAt(cur, null, {}, Top, Leaf);
      }
    }

    /**
     init_rq, with the steps of its call of enqueue_se_to_runq written out: the cache names the
     idle task's node before that node is in the tree.
     */
    method InitRq(idle: Task)
      requires Owners(taskOf) && Owned(idle)
      requires forall n :: n in taskOf ==> Keyed(taskOf[n]) && (taskOf[n].state == Running ==> taskOf[n] == idle)
      modifies this, rb, rb.root, idle.node, idle`vruntime, idle`consumed, idle`state
      ensures Valid() && order == [idle] && rb.leftmost == idle.node
      ensures idle.vruntime == old(idle.vruntime) && idle.consumed == old(idle.consumed)
    {
      hide Pow2, PrioritySum, CachedTree.Linked, CachedTree.Order;
      prioritySum, rb.leftmost, rb.root.node := 0, idle.node, null;
      rb.tree := Leaf;
      idle.node.parent, idle.node.color, idle.node.left, idle.node.right := idle.node, Red, null, null;
      prioritySum := prioritySum + idle.priority;
      idle.state := Running;
      UpdateFirst(idle);
      order := [idle];
      SumOne(idle);
      assert forall n :: n in taskOf ==> Entity(taskOf[n]);
      hide Entity;
      rb.LinkFirst(idle.node);
      assert Linked();
    }

    /** update_se: if the second entity's key is smaller, the leftmost is dequeued and enqueued again. */
    method UpdateSe() returns (ghost k: nat)
      requires Linked() && |order| >= 2
      modifies this, rb, rb.root, Nodes(rb.tree)
      ensures Linked() && prioritySum == old(prioritySum)
      ensures k < |old(order)| && order == Inserted(old(order)[1..], k, old(order)[0])
      ensures k > 0 ==> old(order)[k].vruntime < old(order)[0].vruntime
      ensures k < |old(order)| - 1 ==> old(order)[k + 1].vruntime >= old(order)[0].vruntime
    {
      hide CachedTree.Linked, Nodes, CachedTree.Order;
      QueueFacts();
      ghost var q := order;
      var cur := taskOf[rb.leftmost];
      var next := rb.Next(rb.leftmost, 0);
      var nextSe := taskOf[next];
      k := 0;
      if nextSe.vruntime < cur.vruntime {
        ghost var i := DequeueSe(cur);
        assert i == 0 && Removed(q, 0) == q[1..];
        QueuedNode(cur);
        k := EnqueueSe(cur);
      } else {
        assert q == Inserted(q[1..], 0, q[0]);
      }
    }

    /** When the first task has moved to place `k`, so has its entity. */
    lemma QueueMoved(o: seq<Task>, k: nat, q: Cfs.Queue)
      requires k < |o| == |q| && order == Inserted(o[1..], k, o[0])
      requires forall i :: 0 <= i < |o| ==> q[i] == Cfs.Entity(o[i], o[i].consumed, o[i].priority)
      ensures Queue() == Inserted(q[1..], k, q[0])
    {
      hide Inserted;
      forall i | 0 <= i < |q| ensures Queue()[i] == Inserted(q[1..], k, q[0])[i] {
        assert order[i] == o[if i < k then i + 1 else if i == k then 0 else i];
      }
    }

    /** What an enqueue or a dequeue leaves, for the model. */
    lemma RoundedLevel(l: nat)
      requires forall t :: t in order ==> Rounded(t, l)
      ensures Cfs.Level(Queue(), l)
    {
      forall i | 0 <= i < |order| ensures Rounded(order[i], l) {
        assert order[i] in order;
      }
    }

    /** What the model's results ask of a queue. */
    lemma WfQueue()
      requires Valid()
      ensures Cfs.Wf(Queue())
    {
      QueueFacts();
    }

    lemma OnlyRunningQueued(t: Task)
      requires Valid() && Owned(t) && t.state != Running
      ensures t !in order
    {
      assert Entity(taskOf[t.node]);
    }
  }
}
