/**
 The timer interrupt: which timer fired, the update of the timer tree, the reprogramming of the
 hardware, and the dispatch (timer_irq in timer.c).
 */
module TimerIrq {
  import opened Edf
  import opened EdfRuns
  import opened LeftmostTree
  import opened RbModel
  import opened RunQueue
  import opened Sched
  import opened SchedTask
  import opened SeqOps
  import opened TimerTree
  import Cfs

  ghost predicate Intervals(timers: seq<Timer>)
    reads timers
  {
    forall t :: t in timers ==> t.intvl < U32
  }

  class Core {
    const cpu: Cpu
    const timers: TimerRoot
    /** PRIV_TMR_LD: the interval the hardware timer was last programmed with. */
    var load: nat

    constructor (cpu: Cpu, timers: TimerRoot, load: nat)
      ensures this.cpu == cpu && this.timers == timers && this.load == load
    {
      this.cpu, this.timers, this.load := cpu, timers, load;
    }

    /** The two trees share no memory. */
    ghost predicate Apart() {
      && cpu.rq.rb != timers.rb && cpu.rq.rb.root != timers.rb.root
      && cpu.rq.taskOf.Keys !! timers.timerOf.Keys
    }

    /**
     The timer side of the invariant: a linked tree in deadline order, whose least key bounds the
     programmed interval.
     */
    ghost predicate TimersValid()
      reads this, timers, timers.rb, timers.rb.root, Nodes(timers.rb.tree), timers.order
    {
      && timers.Linked() && timers.order != []
      && Programmed(timers.Keys(), load)
      && Intervals(timers.order)
    }

    lemma Footprints()
      requires cpu.rq.Valid() && TimersValid()
      ensures Nodes(cpu.rq.rb.tree) <= cpu.rq.taskOf.Keys && Nodes(timers.rb.tree) <= timers.timerOf.Keys
      ensures forall t :: t in cpu.rq.order ==> t in cpu.rq.taskOf.Values
    {
      cpu.rq.QueueFacts();
      timers.TimerFacts();
    }

    /** The programmed interval is the least key in the tree. */
    ghost predicate DeadlineSet()
      reads `load, timers, timers.order
    {
      timers.order != [] && load == timers.Keys()[0] && forall i :: 0 <= i < |timers.Keys()| ==>
          load <= timers.Keys()[i]
    }

    /** update_timer_tree, with the interval that was programmed last. */
    method UpdateTimers(elapsed: nat) returns (ghost e: Interrupt)
      requires TimersValid() && elapsed == load
      modifies timers, timers.rb, timers.rb.root, timers.timerOf.Keys, timers.order`tc
      ensures timers.Linked() && Intervals(timers.order)
      ensures timers.order != [] && Programmed(timers.Keys(), timers.Keys()[0])
      ensures forall i :: 0 <= i < |timers.Keys()| ==> timers.Keys()[0] <= timers.Keys()[i]
      ensures !e.oneshot && e.done == old(timers.order[0].pt.done) && e.interval == old(timers.order[0].intvl)
      ensures e.place < |old(timers.order)|
      ensures timers.order == Inserted(old(timers.order)[1..], e.place, old(timers.order)[0])
      ensures StepTo(old(timers.Keys()), elapsed, timers.least, e, timers.Keys(), timers.Keys()[0])
    {
      hide CachedTree.Linked, Nodes, Rewritten, Programmed, CachedTree.Order, Inserted, InOrder;
      timers.TimerFacts();
      ghost var q, keys := timers.order, timers.Keys();
      ghost var done, interval := q[0].pt.done, q[0].intvl;
      ProgrammedBounds(keys, load);
      ghost var k := timers.UpdateTimerTree(elapsed);
      InterruptKeeps(keys, elapsed, timers.least, done, interval, k);
      MovedMembers(q, k);
      e := Interrupt(done, interval, k, false);
      assert timers.Keys() == EdfRuns.Requeued(keys, elapsed, timers.least, e);
    }

    /** The write of the next interval. */
    method Program()
      requires timers.Linked() && Intervals(timers.order) && timers.order != []
      requires Programmed(timers.Keys(), timers.Keys()[0])
      requires forall i :: 0 <= i < |timers.Keys()| ==> timers.Keys()[0] <= timers.Keys()[i]
      modifies this`load
      ensures TimersValid() && DeadlineSet()
    {
      hide CachedTree.Linked, Nodes, Programmed, CachedTree.Order, InOrder, TimerRoot.Linked, Intervals;
      timers.TimerFacts();
      var pnt := timers.timerOf[timers.rb.leftmost];
      load := pnt.tc;
    }

    /** update_timer_tree and the write of the next interval: the least key in the tree. */
    method Reprogram() returns (pct: Timer, ghost e: Interrupt)
      requires TimersValid()
      modifies this`load, timers, timers.rb, timers.rb.root, timers.timerOf.Keys, timers.order`tc
      ensures TimersValid()
      ensures pct == old(timers.order[0])
      ensures DeadlineSet()
      ensures !e.oneshot && e.done == old(timers.order[0].pt.done) && e.interval == old(timers.order[0].intvl)
      ensures e.place < |old(timers.order)| && timers.order == Inserted(old(timers.order)[1..], e.place, pct)
      ensures StepTo(old(timers.Keys()), old(load), timers.least, e, timers.Keys(), load)
    {
      hide CachedTree.Linked, Nodes, Programmed, CachedTree.Order, InOrder, TimerRoot.Linked, StepTo, Inserted,
           Intervals;
      timers.TimerFacts();
      var elapsed := load;
      pct := timers.timerOf[timers.rb.leftmost];
      e := UpdateTimers(elapsed);
      Program();
    }

    /** The same, for a caller that minds the run queue. */
    method NextDeadline() returns (pct: Timer, ghost e: Interrupt)
      requires cpu.rq.Valid() && Apart() && TimersValid()
      modifies this`load, timers, timers.rb, timers.rb.root, timers.timerOf.Keys, timers.order`tc
      ensures cpu.rq.Valid() && TimersValid() && cpu.rq.Queue() == old(cpu.rq.Queue())
      ensures DeadlineSet()
      ensures pct == old(timers.order[0])
      ensures !e.oneshot && e.done == old(timers.order[0].pt.done) && e.interval == old(timers.order[0].intvl)
      ensures e.place < |old(timers.order)| && timers.order == Inserted(old(timers.order)[1..], e.place, pct)
      ensures StepTo(old(timers.Keys()), old(load), timers.least, e, timers.Keys(), load)
    {
      hide CachedTree.Linked, Nodes, Sorted, CachedTree.Order, PrioritySum, InOrder, TimersValid, CfsRq.Entity, StepTo,
           Inserted;
      Footprints();
      ghost var queue := cpu.rq.Queue();
      pct, e := Reprogram();
      assert cpu.rq.Linked() && cpu.rq.Queue() == queue;
    }

    /** What the source takes for granted of the timer that fires. */
    ghost predicate Dispatchable(t: Timer)
      reads this, timers, t, t.pt, cpu, cpu.current, cpu.rq
    {
      if t.kind == SchedTimer then cpu.rq.order != [] && (cpu.current.kind != RtTask ==> |cpu.rq.order| >= 2)
      else t.kind == OneshotTimer ==> |timers.order| >= 2 && (t.pt.state == Waiting ==> cpu.rq.Owned(t.pt))
    }

    /** update_current keeps both sides of the invariant. */
    method Account(elapsed: nat, ghost was: Task)
      requires cpu.rq.Valid() && TimersValid() && was == cpu.current
      modifies cpu`jiffies, was`ticks, was`consumed, was`vruntime
      ensures cpu.rq.Valid() && TimersValid() && CountsOf(was) == Charged(was, old(CountsOf(was)), elapsed)
      ensures cpu.jiffies == old(cpu.jiffies) + if was.kind == CfsTask then 1 else 0
      ensures cpu.rq.Queue() == Cfs.AdvancedTask(old(cpu.rq.Queue()), was)
    {
      hide CfsRq.Valid, TimersValid, Nodes, Sched.Cpu.Ready, Charged, Cfs.AdvancedTask;
      Footprints();
      cpu.Charge(elapsed);
    }

    /** A real-time or oneshot timer's task is switched to at once. */
    method SwitchTo(pct: Timer, ghost was: Task)
      requires cpu.rq.Valid() && TimersValid() && was == cpu.current
      modifies cpu`current, was`preempted, pct.pt`yieldTask
      ensures cpu.rq.Valid() && TimersValid() && cpu.current == pct.pt && cpu.rq.Queue() == old(cpu.rq.Queue())
      ensures pct.pt.yieldTask == if was == pct.pt then old(pct.pt.yieldTask) else was
      ensures was.preempted == (old(was.preempted) || (was != pct.pt && was.kind == RtTask))
    {
      hide CfsRq.Valid, TimersValid, Nodes;
      Footprints();
      if cpu.current != pct.pt {
        if cpu.current.kind == RtTask {
          cpu.current.preempted := true;
        }
        pct.pt.yieldTask := cpu.current;
        cpu.current := pct.pt;
      }
    }

    /** The task that a real-time timer interrupted has missed its deadline if it is neither done nor preempted. */
    method CountMissed(was: Task)
      requires cpu.rq.Valid() && TimersValid()
      modifies was`missed
      ensures cpu.rq.Valid() && TimersValid() && cpu.rq.Queue() == old(cpu.rq.Queue())
      ensures was.missed == old(was.missed) + if !was.done && !was.preempted then 1 else 0
    {
      hide CfsRq.Valid, TimersValid, Nodes;
      Footprints();
      if !was.done && !was.preempted {
        was.missed := was.missed + 1;
      }
    }

    /** A oneshot timer's task is woken if it waits. */
    method Wake(t: Task) returns (ghost place: nat)
      requires cpu.rq.Valid() && Apart() && TimersValid() && (t.state == Waiting ==> cpu.rq.Owned(t))
      modifies cpu.rq, cpu.rq.rb, cpu.rq.rb.root, cpu.rq.taskOf.Keys
      modifies cpu.rq.order`vruntime, cpu.rq.order`consumed, t`vruntime, t`consumed, t`state
      ensures cpu.rq.Valid() && TimersValid()
      ensures if old(t.state) == Waiting then
                && t.state == Running && t in cpu.rq.order
                && Cfs.Enqueued(old(cpu.rq.Queue()), Cfs.Entity(t, old(t.consumed), t.priority), cpu.rq.Queue(), place)
              else
                && t.state == old(t.state) && cpu.rq.Queue() == old(cpu.rq.Queue())
                && forall u :: u == t || u in old(cpu.rq.order) ==> CountsOf(u) == old(CountsOf(u))
    {
      hide CfsRq.Valid, TimersValid, Nodes, Cfs.Enqueued, Rounded;
      Footprints();
      place := 0;
      if t.state == Waiting {
        cpu.rq.OnlyRunningQueued(t);
        place := cpu.rq.EnqueueSeToRunq(t);
      }
    }

    /** del_timer keeps the timers' invariant. */
    method Leave(pct: Timer, ghost k: nat)
      requires TimersValid() && |timers.order| >= 2 && k < |timers.order| && timers.order[k] == pct
      modifies timers, timers.rb, timers.rb.root, timers.timerOf.Keys
      ensures TimersValid()
      ensures timers.Keys() == Removed(old(timers.Keys()), k) && timers.order == Removed(old(timers.order), k)
    {
      hide CachedTree.Linked, Nodes, CachedTree.Order, InOrder, Programmed, TimerRoot.Linked, Removed;
      timers.TimerFacts();
      ghost var q, keys := timers.order, timers.Keys();
      ghost var i := timers.DelTimer(pct);
      assert i == k;
      assert timers.Keys() == Removed(keys, k);
      RemovalKeeps(keys, load, k);
      RemovedMembers(q, k);
    }

    /** A oneshot timer leaves the tree once it has fired. */
    method Retire(pct: Timer, ghost k: nat)
      requires cpu.rq.Valid() && Apart() && TimersValid() && |timers.order| >= 2 && k < |timers.order|
               && timers.order[k] == pct
      modifies timers, timers.rb, timers.rb.root, timers.timerOf.Keys
      ensures cpu.rq.Valid() && TimersValid() && cpu.rq.Queue() == old(cpu.rq.Queue())
      ensures timers.Keys() == Removed(old(timers.Keys()), k) && timers.order == Removed(old(timers.order), k)
    {
      hide CfsRq.Valid, TimersValid, Nodes, Removed;
      Footprints();
      Leave(pct, k);
    }

    /** A oneshot timer wakes its task, if it waits, and leaves the tree. */
    method Expire(pct: Timer, ghost k: nat) returns (ghost place: nat)
      requires cpu.rq.Valid() && Apart() && TimersValid() && |timers.order| >= 2 && k < |timers.order|
               && timers.order[k] == pct
      requires pct.pt.state == Waiting ==> cpu.rq.Owned(pct.pt)
      modifies cpu.rq, cpu.rq.rb, cpu.rq.rb.root, cpu.rq.taskOf.Keys
      modifies cpu.rq.order`vruntime, cpu.rq.order`consumed, pct.pt`vruntime, pct.pt`consumed, pct.pt`state
      modifies timers, timers.rb, timers.rb.root, timers.timerOf.Keys
      ensures cpu.rq.Valid() && TimersValid()
      ensures if old(pct.pt.state) == Waiting then
                && pct.pt.state == Running && pct.pt in cpu.rq.order
                && Cfs.Enqueued(old(cpu.rq.Queue()), Cfs.Entity(pct.pt, old(pct.pt.consumed), pct.pt.priority),
                                cpu.rq.Queue(), place)
              else
                && pct.pt.state == old(pct.pt.state) && cpu.rq.Queue() == old(cpu.rq.Queue())
                && forall u :: u == pct.pt || u in old(cpu.rq.order) ==> CountsOf(u) == old(CountsOf(u))
      ensures timers.Keys() == Removed(old(timers.Keys()), k) && timers.order == Removed(old(timers.order), k)
    {
      hide TimersValid, CfsRq.Valid, Cfs.Enqueued, Removed, Nodes;
      place := Wake(pct.pt);
      Retire(pct, k);
    }

    /** The same, as the end of the interrupt's step on the keys. */
    method ExpireStep(pct: Timer, ghost elapsed: nat, ghost e: Interrupt, ghost keys: seq<nat>)
      returns (ghost place: nat)
      requires cpu.rq.Valid() && Apart() && TimersValid() && |timers.order| >= 2
      requires e.place < |timers.order| && timers.order[e.place] == pct
               && (pct.pt.state == Waiting ==> cpu.rq.Owned(pct.pt))
      requires !e.oneshot && StepTo(keys, elapsed, timers.least, e, timers.Keys(), load)
      modifies cpu.rq, cpu.rq.rb, cpu.rq.rb.root, cpu.rq.taskOf.Keys
      modifies cpu.rq.order`vruntime, cpu.rq.order`consumed, pct.pt`vruntime, pct.pt`consumed, pct.pt`state
      modifies timers, timers.rb, timers.rb.root, timers.timerOf.Keys
      ensures cpu.rq.Valid() && TimersValid()
      ensures if old(pct.pt.state) == Waiting then
                && pct.pt.state == Running && pct.pt in cpu.rq.order
                && Cfs.Enqueued(old(cpu.rq.Queue()), Cfs.Entity(pct.pt, old(pct.pt.consumed), pct.pt.priority),
                                cpu.rq.Queue(), place)
              else
                && pct.pt.state == old(pct.pt.state) && cpu.rq.Queue() == old(cpu.rq.Queue())
                && forall u :: u == pct.pt || u in old(cpu.rq.order) ==> CountsOf(u) == old(CountsOf(u))
      ensures timers.order == Removed(old(timers.order), e.place)
      ensures StepTo(keys, elapsed, timers.least, e.(oneshot := true), timers.Keys(), load)
    {
      hide TimersValid, CfsRq.Valid, Apart, Nodes, StepTo, Removed, Cfs.Enqueued;
      ghost var s := timers.Keys();
      place := Expire(pct, e.place);
      OneshotStep(keys, elapsed, timers.least, e, s, load);
    }

    /** The scheduler's timer remembers the task that it interrupted. */
    method Remember(pct: Timer, t: Task)
      requires cpu.rq.Valid() && TimersValid()
      modifies pct`pt
      ensures cpu.rq.Valid() && TimersValid() && pct.pt == t
      ensures cpu.rq.Queue() == old(cpu.rq.Queue()) && timers.Keys() == old(timers.Keys())
    {
      hide CachedTree.Linked, Nodes, Sorted, CachedTree.Order, PrioritySum, InOrder, Programmed;
      cpu.rq.QueueFacts();
      timers.TimerFacts();
      ghost var keys := timers.Keys();
      pct.pt := t;
      assert timers.Keys() == keys && cpu.rq.Linked() && timers.Linked();
    }

    /** The dispatch of the scheduler's timer, update_current included: it remembers the task it interrupted. */
    method SchedulerFired(pct: Timer, elapsed: nat, ghost was: Task) returns (ghost place: nat)
      requires cpu.rq.Valid() && Apart() && TimersValid() && was == cpu.current
      requires cpu.rq.order != [] && (was.kind != RtTask ==> |cpu.rq.order| >= 2)
      modifies cpu, was`ticks, was`consumed, was`vruntime, pct`pt
      modifies cpu.rq, cpu.rq.rb, cpu.rq.rb.root, cpu.rq.taskOf.Keys
      ensures cpu.rq.Valid() && TimersValid() && timers.Keys() == old(timers.Keys())
      ensures CountsOf(was) == Charged(was, old(CountsOf(was)), elapsed)
      ensures cpu.jiffies == old(cpu.jiffies) + if was.kind == CfsTask then 1 else 0
      ensures was.ticks == old(was.ticks) + if was.kind == OneshotTask then 0 else elapsed
      ensures was.kind == RtTask ==>
                cpu.current == was && pct.pt == old(pct.pt) && cpu.rq.Queue() == old(cpu.rq.Queue())
      ensures was.kind != RtTask ==>
                && cpu.rq.order != [] && cpu.current == cpu.rq.order[0] && pct.pt == was
                && Cfs.Requeued(Cfs.AdvancedTask(old(cpu.rq.Queue()), was), cpu.rq.Queue(), place)
      ensures old(cpu.Ready()) ==> cpu.rq.Queue() == Cfs.Tick(old(cpu.rq.Queue())) && cpu.Ready()
    {
      hide CfsRq.Valid, TimersValid, Nodes, Sched.Cpu.Ready, Inserted, Cfs.Requeued, Cfs.AdvancedTask;
      Footprints();
      var interrupted := cpu.current;
      place := cpu.SchedTick(elapsed);
      if interrupted.kind != RtTask {
        Remember(pct, interrupted);
      }
    }

    /** update_current and the switch that a oneshot or real-time timer makes; `was` is the interrupted task. */
    method Preempt(pct: Timer, elapsed: nat, ghost was: Task)
      requires cpu.rq.Valid() && TimersValid() && was == cpu.current
      modifies cpu, pct.pt`yieldTask
      modifies was`ticks, was`consumed, was`vruntime, was`preempted
      ensures cpu.rq.Valid() && TimersValid() && cpu.current == pct.pt
      ensures CountsOf(was) == Charged(was, old(CountsOf(was)), elapsed)
      ensures cpu.jiffies == old(cpu.jiffies) + if was.kind == CfsTask then 1 else 0
      ensures was.ticks == old(was.ticks) + if was.kind == OneshotTask then 0 else elapsed
      ensures cpu.rq.Queue() == Cfs.AdvancedTask(old(cpu.rq.Queue()), was)
      ensures pct.pt.yieldTask == if was == pct.pt then old(pct.pt.yieldTask) else was
      ensures was.preempted == (old(was.preempted) || (was != pct.pt && was.kind == RtTask))
    {
      hide TimersValid, CfsRq.Valid, Nodes, Cfs.AdvancedTask;
      Account(elapsed, was);
      SwitchTo(pct, was);
    }

    /** What the task of a oneshot timer has consumed when it is enqueued; `was` has been charged before. */
    ghost function Consumed(t: Task, was: Task, elapsed: nat): nat
      reads t, was
    {
      if was == t then Charged(was, CountsOf(was), elapsed).consumed else t.consumed
    }

    /** The dispatch of a oneshot timer, update_current included; it ends the interrupt's step on the keys. */
    method OneshotFired(pct: Timer, elapsed: nat, ghost was: Task, ghost e: Interrupt, ghost keys: seq<nat>)
      returns (ghost place: nat)
      requires cpu.rq.Valid() && Apart() && TimersValid() && |timers.order| >= 2 && was == cpu.current
      requires e.place < |timers.order| && timers.order[e.place] == pct
               && (pct.pt.state == Waiting ==> cpu.rq.Owned(pct.pt))
      requires !e.oneshot && StepTo(keys, elapsed, timers.least, e, timers.Keys(), load)
      modifies cpu, pct.pt`yieldTask
      modifies was`ticks, was`consumed, was`vruntime, was`preempted
      modifies cpu.rq, cpu.rq.rb, cpu.rq.rb.root, cpu.rq.taskOf.Keys
      modifies cpu.rq.order`vruntime, cpu.rq.order`consumed, pct.pt`vruntime, pct.pt`consumed, pct.pt`state
      modifies timers, timers.rb, timers.rb.root, timers.timerOf.Keys
      ensures cpu.rq.Valid() && TimersValid() && cpu.current == pct.pt
      ensures cpu.jiffies == old(cpu.jiffies) + if was.kind == CfsTask then 1 else 0
      ensures was.ticks == old(was.ticks) + if was.kind == OneshotTask then 0 else elapsed
      ensures if old(pct.pt.state) == Waiting then
                && pct.pt.state == Running && pct.pt in cpu.rq.order
                && Cfs.Enqueued(Cfs.AdvancedTask(old(cpu.rq.Queue()), was),
                                Cfs.Entity(pct.pt, old(Consumed(pct.pt, was, elapsed)), pct.pt.priority),
                                cpu.rq.Queue(), place)
              else
                && pct.pt.state == old(pct.pt.state) && CountsOf(was) == Charged(was, old(CountsOf(was)), elapsed)
                && cpu.rq.Queue() == Cfs.AdvancedTask(old(cpu.rq.Queue()), was)
      ensures was != pct.pt && was !in old(cpu.rq.order) ==>
                CountsOf(was) == Charged(was, old(CountsOf(was)), elapsed)
      ensures pct.pt.yieldTask == if was == pct.pt then old(pct.pt.yieldTask) else was
      ensures was.preempted == (old(was.preempted) || (was != pct.pt && was.kind == RtTask))
      ensures timers.order == Removed(old(timers.order), e.place)
      ensures StepTo(keys, elapsed, timers.least, e.(oneshot := true), timers.Keys(), load)
    {
      hide TimersValid, CfsRq.Valid, Apart, Nodes, StepTo, Removed, Cfs.AdvancedTask, Cfs.Enqueued, Charged;
      Preempt(pct, elapsed, was);
      place := ExpireStep(pct, elapsed, e, keys);
    }

    /** The dispatch of a real-time timer, update_current included. */
    method RealtimeFired(pct: Timer, elapsed: nat, ghost was: Task)
      requires cpu.rq.Valid() && TimersValid() && was == cpu.current
      modifies cpu, pct.pt`yieldTask
      modifies was`ticks, was`consumed, was`vruntime, was`preempted, was`missed
      ensures cpu.rq.Valid() && TimersValid() && cpu.current == pct.pt && timers.Keys() == old(timers.Keys())
      ensures CountsOf(was) == Charged(was, old(CountsOf(was)), elapsed)
      ensures cpu.jiffies == old(cpu.jiffies) + if was.kind == CfsTask then 1 else 0
      ensures cpu.rq.Queue() == Cfs.AdvancedTask(old(cpu.rq.Queue()), was)
      ensures was.ticks == old(was.ticks) + if was.kind == OneshotTask then 0 else elapsed
      ensures pct.pt.yieldTask == if was == pct.pt then old(pct.pt.yieldTask) else was
      ensures was.preempted == (old(was.preempted) || (was != pct.pt && was.kind == RtTask))
      ensures was.missed == old(was.missed)
                            + if !old(was.done) && !old(was.preempted)
                                 && (was == pct.pt || was.kind != RtTask) then 1 else 0
    {
      hide TimersValid, CfsRq.Valid, Nodes, Charged, Cfs.AdvancedTask;
      var interrupted := cpu.current;
      Preempt(pct, elapsed, was);
      CountMissed(interrupted);
    }

    /** The dispatch on the timer that fired, `pct`, once the next interval is programmed. */
    method Dispatch(pct: Timer, elapsed: nat, ghost was: Task, ghost to: Task, ghost e0: Interrupt,
                    ghost keys: seq<nat>)
      returns (ghost e: Interrupt, ghost place: nat)
      requires cpu.rq.Valid() && Apart() && TimersValid() && was == cpu.current && to == pct.pt && Dispatchable(pct)
      requires !e0.oneshot && e0.place < |timers.order| && timers.order[e0.place] == pct
      requires StepTo(keys, elapsed, timers.least, e0, timers.Keys(), load)
      modifies cpu, pct`pt, to`yieldTask
      modifies was`ticks, was`consumed, was`vruntime, was`preempted, was`missed
      modifies cpu.rq, cpu.rq.rb, cpu.rq.rb.root, cpu.rq.taskOf.Keys
      modifies cpu.rq.order`vruntime, cpu.rq.order`consumed, to`vruntime, to`consumed, to`state
      modifies timers, timers.rb, timers.rb.root, timers.timerOf.Keys
      ensures cpu.rq.Valid() && TimersValid()
      ensures cpu.jiffies == old(cpu.jiffies) + if was.kind == CfsTask then 1 else 0
      ensures was.ticks == old(was.ticks) + if was.kind == OneshotTask then 0 else elapsed
      ensures pct.kind != OneshotTimer || (was != to && was !in old(cpu.rq.order)) ==>
                CountsOf(was) == Charged(was, old(CountsOf(was)), elapsed)
      ensures pct.kind == SchedTimer && was.kind == RtTask ==>
                cpu.current == was && cpu.rq.Queue() == old(cpu.rq.Queue())
      ensures pct.kind == SchedTimer && was.kind != RtTask ==>
                && cpu.rq.order != [] && cpu.current == cpu.rq.order[0]
                && Cfs.Requeued(Cfs.AdvancedTask(old(cpu.rq.Queue()), was), cpu.rq.Queue(), place)
      ensures pct.kind == SchedTimer && old(cpu.Ready()) ==>
                cpu.rq.Queue() == Cfs.Tick(old(cpu.rq.Queue())) && cpu.Ready()
      ensures pct.kind == RealtimeTimer || (pct.kind == OneshotTimer && old(to.state) != Waiting) ==>
                cpu.rq.Queue() == Cfs.AdvancedTask(old(cpu.rq.Queue()), was)
      ensures pct.kind == OneshotTimer && old(to.state) == Waiting ==>
                && to in cpu.rq.order
                && Cfs.Enqueued(Cfs.AdvancedTask(old(cpu.rq.Queue()), was),
                                Cfs.Entity(to, old(Consumed(to, was, elapsed)), to.priority), cpu.rq.Queue(), place)
      ensures to.state == if pct.kind == OneshotTimer && old(to.state) == Waiting then Running else old(to.state)
      ensures pct.kind != SchedTimer ==> cpu.current == to
      ensures pct.pt == if pct.kind == SchedTimer && was.kind != RtTask then was else to
      ensures to.yieldTask == if pct.kind == SchedTimer || was == to then old(to.yieldTask) else was
      ensures was.preempted == (old(was.preempted) || (pct.kind != SchedTimer && was != to && was.kind == RtTask))
      ensures was.missed == old(was.missed)
                            + if pct.kind == RealtimeTimer && !old(was.done) && !old(was.preempted)
                                 && (was == to || was.kind != RtTask) then 1 else 0
      ensures timers.order == if pct.kind == OneshotTimer then Removed(old(timers.order), e0.place)
              else old(timers.order)
      ensures old(DeadlineSet()) && pct.kind != OneshotTimer ==> DeadlineSet()
      ensures StepTo(keys, elapsed, timers.least, e, timers.Keys(), load)
      ensures e == e0.(oneshot := pct.kind == OneshotTimer)
    {
      hide Apart, TimersValid, CfsRq.Valid, StepTo, Nodes, Charged, Cfs.AdvancedTask, Cfs.Enqueued, Cfs.Requeued,
           Removed, Sched.Cpu.Ready;
      e, place := e0, 0;
      if pct.kind == SchedTimer {
        place := SchedulerFired(pct, elapsed, was);
      } else if pct.kind == OneshotTimer {
        place := OneshotFired(pct, elapsed, was, e0, keys);
        e := e0.(oneshot := true);
      } else {
        RealtimeFired(pct, elapsed, was);
      }
    }

    /**
     timer_irq: one interrupt; the leftmost timer, `fired`, is the one that fired, and `to` is its task.
     Every interrupt charges the task `was` that it interrupts before it does the timer's part.
     */
    method Irq(ghost fired: Timer, ghost was: Task, ghost to: Task, ghost keys: seq<nat>)
      returns (ghost e: Interrupt, ghost place: nat)
      requires cpu.rq.Valid() && Apart() && TimersValid()
      requires fired == timers.order[0] && was == cpu.current && to == fired.pt && keys == timers.Keys()
      requires Dispatchable(fired)
      modifies this`load, cpu, fired`pt, to`yieldTask
      modifies was`ticks, was`consumed, was`vruntime, was`preempted, was`missed
      modifies cpu.rq, cpu.rq.rb, cpu.rq.rb.root, cpu.rq.taskOf.Keys
      modifies cpu.rq.order`vruntime, cpu.rq.order`consumed, to`vruntime, to`consumed, to`state
      modifies timers, timers.rb, timers.rb.root, timers.timerOf.Keys, timers.order`tc
      ensures cpu.rq.Valid() && TimersValid()
      // what is charged
      ensures cpu.jiffies == old(cpu.jiffies) + if was.kind == CfsTask then 1 else 0
      ensures was.ticks == old(was.ticks) + if was.kind == OneshotTask then 0 else old(load)
      ensures fired.kind != OneshotTimer || (was != to && was !in old(cpu.rq.order)) ==>
                CountsOf(was) == Charged(was, old(CountsOf(was)), old(load))
      // the scheduler's timer
      ensures fired.kind == SchedTimer && was.kind == RtTask ==>
                cpu.current == was && cpu.rq.Queue() == old(cpu.rq.Queue())
      ensures fired.kind == SchedTimer && was.kind != RtTask ==>
                && cpu.rq.order != [] && cpu.current == cpu.rq.order[0]
                && Cfs.Requeued(Cfs.AdvancedTask(old(cpu.rq.Queue()), was), cpu.rq.Queue(), place)
      ensures fired.kind == SchedTimer && old(cpu.Ready()) ==>
                cpu.rq.Queue() == Cfs.Tick(old(cpu.rq.Queue())) && cpu.Ready()
      // a real-time or oneshot timer
      ensures fired.kind == RealtimeTimer || (fired.kind == OneshotTimer && old(to.state) != Waiting) ==>
                cpu.rq.Queue() == Cfs.AdvancedTask(old(cpu.rq.Queue()), was)
      ensures fired.kind == OneshotTimer && old(to.state) == Waiting ==>
                && to in cpu.rq.order
                && Cfs.Enqueued(Cfs.AdvancedTask(old(cpu.rq.Queue()), was),
                                Cfs.Entity(to, old(Consumed(to, was, load)), to.priority), cpu.rq.Queue(), place)
      ensures to.state == if fired.kind == OneshotTimer && old(to.state) == Waiting then Running else old(to.state)
      ensures fired.kind != SchedTimer ==> cpu.current == to
      ensures fired.pt == if fired.kind == SchedTimer && was.kind != RtTask then was else to
      ensures to.yieldTask == if fired.kind == SchedTimer || was == to then old(to.yieldTask) else was
      ensures was.preempted == (old(was.preempted) || (fired.kind != SchedTimer && was != to && was.kind == RtTask))
      ensures was.missed == old(was.missed)
                            + if fired.kind == RealtimeTimer && !old(was.done) && !old(was.preempted)
                                 && (was == to || was.kind != RtTask) then 1 else 0
      // the timers
      ensures e.done == old(to.done) && e.interval == old(fired.intvl) && (e.oneshot <==> fired.kind == OneshotTimer)
      ensures e.place < |old(timers.order)| && var requeued := Inserted(old(timers.order)[1..], e.place, fired);
              timers.order == if e.oneshot then Removed(requeued, e.place) else requeued
      ensures fired.kind != OneshotTimer ==> DeadlineSet()
      ensures StepTo(keys, old(load), timers.least, e, timers.Keys(), load)
    {
      hide Apart, TimersValid, CfsRq.Valid, StepTo, Nodes, Charged, DeadlineSet, Cfs.AdvancedTask, Cfs.Enqueued,
           Cfs.Requeued, Removed, Inserted, Sched.Cpu.Ready;
      var elapsed := load;
      var pct;
      pct, e := NextDeadline();
      e, place := Dispatch(pct, elapsed, was, to, e, keys);
    }
  }
}
