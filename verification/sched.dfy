/**
 The scheduler on one CPU: update_current and schedule (sched.c), and the scheduler-timer branch of
 timer_irq (timer.c) that runs them around update_se.
 */
module Sched {
  import opened SchedTask
  import opened SeqOps
  import opened LeftmostTree
  import opened RunQueue
  import Cfs
  import opened RbModel

  /** A CFS task is charged a jiffy and its ticks, a real-time task its ticks alone, a oneshot task nothing. */
  function Charged(t: Task, c: Counts, elapsed: nat): Counts {
    match t.kind
    case CfsTask => Counts(c.ticks + elapsed, c.consumed + 1, (c.consumed + 1) * t.priority)
    case RtTask => c.(ticks := c.ticks + elapsed)
    case OneshotTask => c
  }

  /** `n` ticks are no more than the other tasks of `q` may take before `t`. */
  ghost predicate WithinBound(q: Cfs.Queue, t: Task, n: nat) {
    Cfs.Wf(q) && n <= Cfs.Bound(q, t, t.priority)
  }

  /** Moving the first task elsewhere keeps the members and the priority sum. */
  lemma Requeued(q: seq<Task>, k: nat)
    requires k < |q|
    ensures forall t :: t in Inserted(q[1..], k, q[0]) <==> t in q
    ensures PrioritySum(Inserted(q[1..], k, q[0])) == PrioritySum(q)
  {
    assert q == [q[0]] + q[1..];
    MovedMembers(q, k);
    InsertedSum(q[1..], k, q[0]);
  }

  class Cpu {
    const rq: CfsRq
    var current: Task
    var jiffies: nat

    constructor (rq: CfsRq, current: Task)
      ensures this.rq == rq && this.current == current && jiffies == 0
    {
      this.rq, this.current, jiffies := rq, current, 0;
    }

    /** update_current */
    method UpdateCurrent(elapsed: nat)
      modifies `jiffies, current`ticks, current`consumed, current`vruntime
      ensures current.ticks == if current.kind == OneshotTask then old(current.ticks) else old(current.ticks) + elapsed
      ensures current.kind == CfsTask ==>
                jiffies == old(jiffies) + 1 && current.consumed == old(current.consumed) + 1
                && current.vruntime == current.consumed * current.priority
      ensures current.kind != CfsTask ==>
                jiffies == old(jiffies) && current.consumed == old(current.consumed)
                  && current.vruntime == old(current.vruntime)
    {
      if current.kind == CfsTask {
        jiffies := jiffies + 1;
        current.consumed := current.consumed + 1;
        current.ticks := current.ticks + elapsed;
        current.vruntime := current.consumed * current.priority;
      } else if current.kind == RtTask {
        current.ticks := current.ticks + elapsed;
      }
    }

    /** schedule: the leftmost task becomes the current one. */
    method Schedule()
      requires rq.Linked() && rq.order != []
      modifies this`current
      ensures current == rq.order[0]
    {
      rq.QueueFacts();
      var next := rq.taskOf[rq.rb.leftmost];
      if current == next { return; }
      current := next;
    }

    /** The current task is the leftmost. */
    ghost predicate Leading()
      reads this, rq
    {
      |rq.order| >= 2 && current == rq.order[0]
    }

    /** What SchedTick needs to be one tick of the model: the current task is leftmost, all but it are in key order. */
    ghost predicate Ready()
      reads this, rq, rq.order
    {
      Leading() && Cfs.Sorted(rq.Queue()[1..])
    }

    /** cfs_scheduler: update_se, which reads the second queued entity without a check, then schedule. */
    method CfsScheduler() returns (ghost k: nat)
      requires rq.Linked() && |rq.order| >= 2
      modifies this`current, rq, rq.rb, rq.rb.root, Nodes(rq.rb.tree)
      ensures rq.Linked() && rq.prioritySum == old(rq.prioritySum)
      ensures rq.order != [] && current == rq.order[0]
      ensures k < |old(rq.order)| && rq.order == Inserted(old(rq.order)[1..], k, old(rq.order)[0])
      ensures rq.Queue() == Inserted(old(rq.Queue())[1..], k, old(rq.Queue())[0])
      ensures k > 0 ==> old(rq.order)[k].vruntime < old(rq.order)[0].vruntime
      ensures k < |old(rq.order)| - 1 ==> old(rq.order)[k + 1].vruntime >= old(rq.order)[0].vruntime
    {
      hide Nodes, Shape, RB, InOrder, Inserted;
      ghost var q, o := rq.Queue(), rq.order;
      k := rq.UpdateSe();
      ghost var h := Snap(Nodes(rq.rb.tree));
      Schedule();
      assert Snap(Nodes(rq.rb.tree)) == h;
      rq.QueueMoved(o, k, q);
    }

    lemma LeadingIsCfs()
      requires rq.Valid()
      ensures Leading() ==> current.kind == CfsTask
    {
      rq.QueueFacts();
    }

    /** update_current keeps the run-queue invariant. */
    method Charge(elapsed: nat)
      requires rq.Valid()
      modifies `jiffies, current`ticks, current`consumed, current`vruntime
      ensures rq.Valid() && Nodes(rq.rb.tree) <= rq.taskOf.Keys
      ensures current.ticks == if current.kind == OneshotTask then old(current.ticks) else old(current.ticks) + elapsed
      ensures current.kind == CfsTask ==> current.consumed == old(current.consumed) + 1 && jiffies == old(jiffies) + 1
      ensures current.kind != CfsTask ==>
                current.consumed == old(current.consumed) && jiffies == old(jiffies) && rq.Queue() == old(rq.Queue())
      ensures CountsOf(current) == Charged(current, old(CountsOf(current)), elapsed)
      ensures rq.Queue() == Cfs.AdvancedTask(old(rq.Queue()), current)
      ensures old(Leading()) ==>
                && |rq.order| >= 2 && rq.Queue()[0] == Cfs.Advanced(old(rq.Queue())[0])
                && rq.Queue()[1..] == old(rq.Queue())[1..]
    {
      hide Nodes, CachedTree.Linked, InOrder, Cfs.Sorted, PrioritySum, Owners;
      ghost var q := rq.Queue();
      rq.QueueFacts();
      UpdateCurrent(elapsed);
      assert rq.Linked();
      assert rq.Queue() == Cfs.AdvancedTask(q, current);
      assert current.kind != CfsTask ==> rq.Queue() == q;
    }

    /** cfs_scheduler keeps it too. */
    method Reschedule() returns (ghost k: nat)
      requires rq.Valid() && |rq.order| >= 2
      modifies this`current, rq, rq.rb, rq.rb.root, Nodes(rq.rb.tree)
      ensures rq.Valid() && rq.order != [] && current == rq.order[0]
      ensures k < |old(rq.order)| && rq.order == Inserted(old(rq.order)[1..], k, old(rq.order)[0])
      ensures rq.Queue() == Inserted(old(rq.Queue())[1..], k, old(rq.Queue())[0])
      ensures k > 0 ==> rq.order[k - 1].vruntime < rq.order[k].vruntime
      ensures k + 1 < |rq.order| ==> rq.order[k].vruntime <= rq.order[k + 1].vruntime
    {
      hide Nodes, CfsRq.Linked, InOrder, PrioritySum, Inserted, Owners;
      ghost var o := rq.order;
      rq.QueueFacts();
      k := CfsScheduler();
      Requeued(o, k);
    }

    lemma RuntimesAgree()
      requires rq.Valid()
      ensures forall i :: 0 <= i < |rq.order| ==> rq.order[i].vruntime == rq.order[i].consumed * rq.order[i].priority
    {
      rq.QueueFacts();
    }

    lemma RequeuedAt(q: Cfs.Queue, k: nat)
      requires k < |q| && rq.Queue() == Inserted(q[1..], k, q[0])
      requires forall i :: 0 <= i < |rq.order| ==> rq.order[i].vruntime == rq.order[i].consumed * rq.order[i].priority
      requires k > 0 ==> rq.order[k - 1].vruntime < rq.order[k].vruntime
      requires k + 1 < |rq.order| ==> rq.order[k].vruntime <= rq.order[k + 1].vruntime
      ensures Cfs.Requeued(q, rq.Queue(), k)
    {
      var r := rq.Queue();
      assert forall i :: 0 <= i < |r| ==> r[i].V() == rq.order[i].vruntime;
    }

    /** The queue after a tick with the leftmost task current, and after one from a ready state. */
    lemma Ticked(q: Cfs.Queue, k: nat, ready: bool)
      requires |q| >= 2 && k < |q| && (ready ==> Cfs.Sorted(q[1..])) && rq.order != [] && current == rq.order[0]
      requires rq.Queue() == Inserted(q[1..], k, Cfs.Advanced(q[0]))
      requires forall i :: 0 <= i < |rq.order| ==> rq.order[i].vruntime == rq.order[i].consumed * rq.order[i].priority
      requires k > 0 ==> rq.order[k - 1].vruntime < rq.order[k].vruntime
      requires k + 1 < |rq.order| ==> rq.order[k].vruntime <= rq.order[k + 1].vruntime
      ensures Leading() && Cfs.AnyTick(q, rq.Queue(), k)
      ensures ready ==> rq.Queue() == Cfs.Tick(q) && Cfs.Sorted(rq.Queue()) && Ready()
    {
      hide Inserted;
      var r := rq.Queue();
      assert forall i :: 0 <= i < |r| ==> r[i].V() == rq.order[i].vruntime;
      if ready {
        Cfs.TickRefined(q, k, r);
        Cfs.SortedHead(r);
      }
    }

    /** A scheduler-timer interrupt: update_current, and cfs_scheduler unless a real-time task is running. */
    method SchedTick(elapsed: nat) returns (ghost k: nat)
      requires rq.Valid() && rq.order != [] && (current.kind != RtTask ==> |rq.order| >= 2)
      modifies this, current`ticks, current`consumed, current`vruntime, rq, rq.rb, rq.rb.root, Nodes(rq.rb.tree)
      ensures rq.Valid()
      ensures old(current).kind == RtTask ==> current == old(current) && rq.Queue() == old(rq.Queue())
      ensures old(current).kind != RtTask ==>
                && k < |old(rq.order)| && rq.order == Inserted(old(rq.order)[1..], k, old(rq.order)[0])
                   && current == rq.order[0]
                && (k > 0 ==> rq.order[k - 1].vruntime < rq.order[k].vruntime)
                && (k + 1 < |rq.order| ==> rq.order[k].vruntime <= rq.order[k + 1].vruntime)
      ensures old(current).kind != RtTask ==>
                Cfs.Requeued(Cfs.AdvancedTask(old(rq.Queue()), old(current)), rq.Queue(), k)
      ensures CountsOf(old(current)) == Charged(old(current), old(CountsOf(current)), elapsed)
      ensures jiffies == old(jiffies) + if old(current).kind == CfsTask then 1 else 0
      ensures old(Leading()) ==> Leading() && Cfs.AnyTick(old(rq.Queue()), rq.Queue(), k)
      ensures old(Ready()) ==> rq.Queue() == Cfs.Tick(old(rq.Queue())) && Cfs.Sorted(rq.Queue()) && Ready()
    {
      hide Nodes, CfsRq.Linked, CfsRq.Valid, Cfs.Sorted, Cfs.Tick, Cfs.AnyTick, Cfs.Requeued, Inserted,
           Cfs.AdvancedTask, Charged;
      LeadingIsCfs();
      ghost var q, leading, ready := rq.Queue(), Leading(), Ready();
      Charge(elapsed);
      k := 0;
      if current.kind == RtTask { return; }
      ghost var r := rq.Queue();
      k := Reschedule();
      RuntimesAgree();
      RequeuedAt(r, k);
      if leading {
        Ticked(q, k, ready);
      }
    }

    lemma RqLinked()
      requires rq.Valid()
      ensures rq.Linked()
    {
    }

    lemma QueuedOnce()
      requires rq.Valid()
      ensures forall i, j :: 0 <= i < j < |rq.order| ==> rq.order[i] != rq.order[j]
    {
      rq.QueueFacts();
    }

    /** SchedTick, for a caller that names the tasks and nodes it may change by the run queue. */
    method OneTick(elapsed: nat)
      requires rq.Valid() && Ready()
      modifies this, rq, rq.rb, rq.rb.root, rq.taskOf.Keys
      modifies rq.Members()`ticks, rq.Members()`consumed, rq.Members()`vruntime
      ensures rq.Valid() && Ready() && rq.Queue() == Cfs.Tick(old(rq.Queue()))
      ensures forall t :: t in rq.order <==> t in old(rq.order)
      ensures jiffies == old(jiffies) + 1
      ensures forall t :: t in rq.order ==> t.ticks == old(t.ticks) + if t == old(rq.order[0]) then elapsed else 0
    {
      hide CfsRq.Linked, Cfs.Sorted, Cfs.Tick, Nodes, Inserted, PrioritySum;
      ghost var o := rq.order;
      rq.QueueFacts();
      LeadingIsCfs();
      ghost var k := SchedTick(elapsed);
      MovedMembers(o, k);
    }

    /** A run of scheduler ticks over a fixed set of queued tasks is a run of the model. */
    method SchedTicks(elapsed: seq<nat>)
      requires rq.Valid() && Ready()
      modifies this, rq, rq.rb, rq.rb.root, rq.taskOf.Keys
      modifies rq.Members()`ticks, rq.Members()`consumed, rq.Members()`vruntime
      ensures rq.Valid() && Ready() && |old(rq.Queue())| >= 2
      ensures rq.Queue() == Cfs.Run(old(rq.Queue()), |elapsed|) && jiffies == old(jiffies) + |elapsed|
      ensures forall t :: t in rq.order <==> t in old(rq.order)
      ensures forall t :: t in rq.order ==> t.ticks == old(t.ticks) + Cfs.TicksOf(old(rq.Queue()), t, elapsed)
    {
      hide CfsRq.Valid, CfsRq.Linked, Cfs.Sorted, Cfs.Tick, Nodes;
      ghost var q, o := rq.Queue(), rq.order;
      var i := 0;
      while i < |elapsed|
        invariant 0 <= i <= |elapsed| && rq.Valid() && Ready()
        invariant rq.Queue() == Cfs.Run(q, i) && forall t :: t in rq.order <==> t in o
        invariant rq.Members() == old(rq.Members())
        invariant jiffies == old(jiffies) + i
        invariant forall t :: t in o ==> t.ticks == old(t.ticks) + Cfs.TicksOf(q, t, elapsed[..i])
      {
        forall t | t in o { Cfs.TicksOfNext(q, t, elapsed, i); }
        OneTick(elapsed[i]);
        i := i + 1;
      }
      assert elapsed[..|elapsed|] == elapsed;
    }

    /**
     Weighted fairness: from equal vruntimes, or any sorted, fair queue, no run of ticks lets two tasks
     drift apart by more than the larger priority.
     */
    method FairTicks(elapsed: seq<nat>)
      requires rq.Valid() && Ready() && Cfs.Sorted(rq.Queue()) && Cfs.Fair(rq.Queue())
      modifies this, rq, rq.rb, rq.rb.root, rq.taskOf.Keys
      modifies rq.Members()`ticks, rq.Members()`consumed, rq.Members()`vruntime
      ensures rq.Valid() && Ready() && forall t :: t in rq.order <==> t in old(rq.order)
      ensures |old(rq.Queue())| >= 2 && rq.Queue() == Cfs.Run(old(rq.Queue()), |elapsed|)
      ensures jiffies == old(jiffies) + |elapsed|
      ensures forall t :: t in rq.order ==> t.ticks == old(t.ticks) + Cfs.TicksOf(old(rq.Queue()), t, elapsed)
      ensures forall t, u :: t in rq.order && u in rq.order ==>
                t.consumed * t.priority - u.consumed * u.priority <= Cfs.Max(t.priority, u.priority)
    {
      hide CfsRq.Valid, CfsRq.Linked, Cfs.Sorted, Cfs.Fair, Cfs.Tick, Nodes;
      ghost var q := rq.Queue();
      rq.WfQueue();
      SchedTicks(elapsed);
      forall i, j | 0 <= i < |rq.order| && 0 <= j < |rq.order|
        ensures rq.order[i].consumed * rq.order[i].priority - rq.order[j].consumed * rq.order[j].priority
                <= Cfs.Max(rq.order[i].priority, rq.order[j].priority)
      {
        Cfs.WeightedFairness(q, |elapsed|, i, j);
      }
    }

    /** No starvation: from a sorted, fair queue, a task that gets no tick in a run has only waited within its bound. */
    method StarvingTicks(elapsed: seq<nat>)
      requires rq.Valid() && Ready() && Cfs.Sorted(rq.Queue()) && Cfs.Fair(rq.Queue())
      modifies this, rq, rq.rb, rq.rb.root, rq.taskOf.Keys
      modifies rq.Members()`ticks, rq.Members()`consumed, rq.Members()`vruntime
      ensures rq.Valid() && Ready() && Cfs.Sorted(rq.Queue()) && Cfs.Fair(rq.Queue())
      ensures |old(rq.Queue())| >= 2 && rq.Queue() == Cfs.Run(old(rq.Queue()), |elapsed|)
      ensures jiffies == old(jiffies) + |elapsed|
      ensures forall t :: t in rq.order <==> t in old(rq.order)
      ensures forall t :: t in rq.order ==> t.ticks == old(t.ticks) + Cfs.TicksOf(old(rq.Queue()), t, elapsed)
      ensures forall t :: t in rq.order && t.consumed == old(t.consumed) ==> WithinBound(old(rq.Queue()), t, |elapsed|)
    {
      hide CfsRq.Valid, CfsRq.Linked, Cfs.Sorted, Cfs.Tick, Cfs.Fair, Nodes;
      ghost var q, o := rq.Queue(), rq.order;
      rq.WfQueue();
      SchedTicks(elapsed);
      Cfs.RunFair(q, |elapsed|);
      forall t | t in rq.order && t.consumed == old(t.consumed) ensures WithinBound(q, t, |elapsed|) {
        var i :| 0 <= i < |o| && o[i] == t;
        var j :| 0 <= j < |rq.order| && rq.order[j] == t;
        Cfs.IdleBound(q, i, |elapsed|, j);
      }
    }

    /** A tick with the leftmost task current, the queue in any order. */
    method LeadingTick(elapsed: nat) returns (ghost k: nat)
      requires rq.Valid() && Leading()
      modifies this, rq, rq.rb, rq.rb.root, rq.taskOf.Keys
      modifies rq.Members()`ticks, rq.Members()`consumed, rq.Members()`vruntime
      ensures rq.Valid() && Leading() && Cfs.AnyTick(old(rq.Queue()), rq.Queue(), k)
      ensures forall t :: t in rq.order <==> t in old(rq.order)
      ensures jiffies == old(jiffies) + 1
      ensures forall t :: t in rq.order ==> t.ticks == old(t.ticks) + if t == old(rq.order[0]) then elapsed else 0
    {
      hide CfsRq.Linked, CfsRq.Valid, Cfs.AnyTick, Cfs.AdvancedTask, Nodes, Inserted, PrioritySum;
      RqLinked();
      ghost var o := rq.order;
      rq.QueueFacts();
      LeadingIsCfs();
      k := SchedTick(elapsed);
      MovedMembers(o, k);
    }

    /** A round of ticks: as long as there are unadvanced tasks, the next one in the old order runs. */
    method RoundTicks(elapsed: seq<nat>, ghost l: nat) returns (ghost qs: seq<Cfs.Queue>, ghost ks: seq<nat>)
      requires rq.Valid() && Leading() && Cfs.Level(rq.Queue(), l) && |elapsed| == |rq.order|
      modifies this, rq, rq.rb, rq.rb.root, rq.taskOf.Keys
      modifies rq.Members()`ticks, rq.Members()`consumed, rq.Members()`vruntime
      ensures rq.Valid() && Leading() && jiffies == old(jiffies) + |elapsed|
      ensures |qs| == |elapsed| + 1 && |ks| == |elapsed| && Cfs.AnyRun(qs, ks)
      ensures qs[0] == old(rq.Queue()) && qs[|elapsed|] == rq.Queue()
      ensures forall t :: t in rq.order <==> t in old(rq.order)
      ensures forall i :: 0 <= i < |elapsed| ==> old(rq.order)[i].ticks == old(rq.order[i].ticks) + elapsed[i]
    {
      hide CfsRq.Valid, CfsRq.Linked, Cfs.AnyTick, Cfs.Level, Cfs.AnyRun, Nodes;
      ghost var o := rq.order;
      qs, ks := [rq.Queue()], [];
      Cfs.NoRun(rq.Queue());
      QueuedOnce();
      var i := 0;
      while i < |elapsed|
        invariant 0 <= i <= |elapsed| && rq.Valid() && Leading() && jiffies == old(jiffies) + i
        invariant |qs| == i + 1 && |ks| == i && Cfs.AnyRun(qs, ks) && qs[i] == rq.Queue() && qs[0] == old(rq.Queue())
        invariant forall t :: t in rq.order <==> t in o
        invariant rq.Members() == old(rq.Members())
        invariant forall j :: 0 <= j < |o| ==> o[j].ticks == old(o[j].ticks) + if j < i then elapsed[j] else 0
      {
        Cfs.NextInLine(qs, ks, l);
        ghost var k := LeadingTick(elapsed[i]);
        Cfs.RunLonger(qs, ks, rq.Queue(), k);
        qs, ks := qs + [rq.Queue()], ks + [k];
        i := i + 1;
      }
    }

    /**
     After an enqueue or a dequeue has rounded the queue, in key order or not: as many ticks as there
     are tasks advance each task exactly once, in the order that they stood in, and leave the queue
     sorted and fair.
     */
    method SettlingTicks(elapsed: seq<nat>, ghost l: nat)
      requires rq.Valid() && Leading() && Cfs.Level(rq.Queue(), l) && |elapsed| == |rq.order|
      modifies this, rq, rq.rb, rq.rb.root, rq.taskOf.Keys
      modifies rq.Members()`ticks, rq.Members()`consumed, rq.Members()`vruntime
      ensures rq.Valid() && Ready() && Cfs.Sorted(rq.Queue()) && Cfs.Fair(rq.Queue())
      ensures forall t :: t in rq.order <==> t in old(rq.order)
      ensures forall t :: t in rq.order ==> t.consumed == old(t.consumed) + 1
      ensures multiset(rq.Queue()) == multiset(Cfs.AdvancedAll(old(rq.Queue())))
      ensures forall i :: 0 <= i < |elapsed| ==> old(rq.order)[i].ticks == old(rq.order[i].ticks) + elapsed[i]
      ensures jiffies == old(jiffies) + |elapsed|
    {
      hide CfsRq.Valid, CfsRq.Linked, Cfs.Sorted, Cfs.Fair, Cfs.AnyRun, Cfs.Level, Cfs.AdvancedAll, Nodes;
      ghost var qs, ks := RoundTicks(elapsed, l);
      Cfs.RoundSettles(qs, ks, l);
      Cfs.SortedHead(rq.Queue());
      forall t | t in rq.order ensures t.consumed == old(t.consumed) + 1 {
        var j :| 0 <= j < |rq.order| && rq.order[j] == t;
        var i := Cfs.AdvancedOnce(qs[0], rq.Queue(), j);
      }
    }

    /** Weighted fairness from then on; `mid` is the settled queue. */
    method FairAfterSettling(settling: seq<nat>, elapsed: seq<nat>, ghost l: nat) returns (ghost mid: Cfs.Queue)
      requires rq.Valid() && Leading() && Cfs.Level(rq.Queue(), l) && |settling| == |rq.order|
      modifies this, rq, rq.rb, rq.rb.root, rq.taskOf.Keys
      modifies rq.Members()`ticks, rq.Members()`consumed, rq.Members()`vruntime
      ensures rq.Valid() && Ready() && forall t :: t in rq.order <==> t in old(rq.order)
      ensures |mid| >= 2 && Cfs.Sorted(mid) && Cfs.Fair(mid) && rq.Queue() == Cfs.Run(mid, |elapsed|)
      ensures multiset(mid) == multiset(Cfs.AdvancedAll(old(rq.Queue())))
      ensures forall i :: 0 <= i < |settling| ==>
                old(rq.order)[i].ticks
                == old(rq.order[i].ticks) + settling[i] + Cfs.TicksOf(mid, old(rq.order)[i], elapsed)
      ensures jiffies == old(jiffies) + |settling| + |elapsed|
      ensures forall t, u :: t in rq.order && u in rq.order ==>
                t.consumed * t.priority - u.consumed * u.priority <= Cfs.Max(t.priority, u.priority)
    {
      hide CfsRq.Valid, Leading, Cfs.Sorted, Cfs.Fair, Cfs.Level, Cfs.TicksOf;
      SettlingTicks(settling, l);
      mid := rq.Queue();
      FairTicks(elapsed);
    }

    /** When the queue is sorted and its first task is current, no queued task has a smaller vruntime. */
    lemma CurrentIsMinimal()
      requires rq.Valid() && rq.order != [] && current == rq.order[0] && Cfs.Sorted(rq.Queue())
      ensures forall t :: t in rq.order ==> current.vruntime <= t.vruntime
    {
      rq.QueueFacts();
      Cfs.SortedHead(rq.Queue());
      forall i | 0 <= i < |rq.order| ensures current.vruntime <= rq.order[i].vruntime {
        assert rq.Queue()[i].V() == rq.order[i].vruntime && rq.Queue()[0].V() == current.vruntime;
      }
    }
  }
}
