/**
 The per-CPU ring of deferred work: enqueue_workq against the worker's snapshot-and-drain loop (task.c).
 */
module WorkRing {

  const MAX_WORKQ := 32

  /** The slot of the t-th item ever enqueued. */
  function Slot(t: nat): (j: nat)
    ensures j < MAX_WORKQ
  {
    t % MAX_WORKQ
  }

  /** struct workq: a function and its argument. */
  datatype Item = Item(func: int, arg: int)

  /** Where enqueue_workq is. */
  datatype Enqueuer = Ready | FuncStored(item: Item) | ArgStored(item: Item)

  /** Where the worker is; `n` is, for the specification, how many items had been enqueued at the snapshot. */
  datatype Worker = Waiting | EnqRead(enq: nat, n: nat) | Draining(i: nat, end: nat, n: nat)

  /**
   The struct worker, and for the specification all items enqueued and run so far and how many
   `deq_idx` accounts for.
   */
  datatype State = State(
    slots: seq<Item>, enqIdx: nat, deqIdx: nat, enqueuer: Enqueuer, worker: Worker,
    enqueued: seq<Item>, ran: seq<Item>, done: nat)

  ghost predicate Init(s: State) {
    |s.slots| == MAX_WORKQ && s == State(s.slots, 0, 0, Ready, Waiting, [], [], 0)
  }

  function Advance(idx: nat): nat {
    if idx == MAX_WORKQ - 1 then 0 else idx + 1
  }

  /** One access of enqueue_workq; its last one needs fewer than 31 items behind `deq_idx`. */
  ghost predicate EnqueueStep(s: State, s': State)
    requires |s.slots| == MAX_WORKQ && s.enqIdx < MAX_WORKQ
  {
    match s.enqueuer
    case Ready =>
      exists item :: s' == s.(slots := s.slots[s.enqIdx := s.slots[s.enqIdx].(func := item.func)],
                              enqueuer := FuncStored(item))
    case FuncStored(item) =>
      s' == s.(slots := s.slots[s.enqIdx := s.slots[s.enqIdx].(arg := item.arg)], enqueuer := ArgStored(item))
    case ArgStored(item) =>
      |s.enqueued| < s.done + MAX_WORKQ - 1
        && s' == s.(enqIdx := Advance(s.enqIdx), enqueued := s.enqueued + [item], enqueuer := Ready)
  }

  /** One access of the worker, or the run of one item. */
  ghost predicate WorkerStep(s: State, s': State)
    requires |s.slots| == MAX_WORKQ
  {
    match s.worker
    case Waiting => s' == s.(worker := EnqRead(s.enqIdx, |s.enqueued|))
    case EnqRead(e, n) => s' == s.(worker := Draining(s.deqIdx, if e < s.deqIdx then e + MAX_WORKQ else e, n))
    case Draining(i, end, n) =>
      s' == if i < end then s.(ran := s.ran + [s.slots[Slot(i)]], worker := Draining(i + 1, end, n))
            else s.(deqIdx := if end >= MAX_WORKQ then end - MAX_WORKQ else end, done := n, worker := Waiting)
  }

  /** The indices stand for the counts, and the slots between them hold the items that are not run. */
  ghost predicate Inv(s: State) {
    && |s.slots| == MAX_WORKQ
    && s.enqIdx == Slot(|s.enqueued|) && s.deqIdx == Slot(s.done)
    && s.done <= |s.ran| <= |s.enqueued| < s.done + MAX_WORKQ
    && s.ran == s.enqueued[..|s.ran|]
    && (forall t :: s.done <= t < |s.enqueued| ==> s.slots[Slot(t)] == s.enqueued[t])
    && match s.enqueuer {
         case Ready => true
         case FuncStored(item) => s.slots[s.enqIdx].func == item.func
         case ArgStored(item) => s.slots[s.enqIdx] == item
       }
    && match s.worker {
         case Waiting => |s.ran| == s.done
         case EnqRead(e, n) => |s.ran| == s.done <= n <= |s.enqueued| && e == Slot(n)
         case Draining(i, end, n) =>
           |s.ran| <= n <= |s.enqueued| && i == s.deqIdx + (|s.ran| - s.done) && end == s.deqIdx + (n - s.done)
       }
  }

  lemma SlotNext(t: nat)
    ensures Slot(t + 1) == Advance(Slot(t))
  {
  }

  lemma Apart(a: nat, b: nat)
    requires a < b < a + MAX_WORKQ
    ensures Slot(a) != Slot(b)
  {
  }

  lemma EnqueueKeeps(s: State, s': State)
    requires Inv(s) && EnqueueStep(s, s')
    ensures Inv(s') && s.enqueued <= s'.enqueued && s'.ran == s.ran
  {
    hide Slot;
    SlotNext(|s.enqueued|);
    forall t | s.done <= t < |s.enqueued| ensures Slot(t) != s.enqIdx {
      Apart(t, |s.enqueued|);
    }
  }

  lemma SlotShift(d: nat, k: nat)
    ensures Slot(Slot(d) + k) == Slot(d + k)
  {
  }

  lemma SlotOnce(n: nat)
    requires n < 2 * MAX_WORKQ
    ensures Slot(n) == if n >= MAX_WORKQ then n - MAX_WORKQ else n
  {
  }

  /** The snapshot's distance round the ring is the number of items, as long as that is less than 32. */
  lemma Snapshot(done: nat, n: nat)
    requires done <= n < done + MAX_WORKQ
    ensures var e, d := Slot(n), Slot(done); (if e < d then e + MAX_WORKQ else e) == d + (n - done)
  {
  }

  lemma WorkerKeeps(s: State, s': State)
    requires Inv(s) && WorkerStep(s, s')
    ensures Inv(s') && s'.enqueued == s.enqueued && s.ran <= s'.ran
  {
    hide Slot;
    match s.worker
    case Waiting =>
    case EnqRead(e, n) => Snapshot(s.done, n);
    case Draining(i, end, n) =>
      var t := |s.ran|;
      SlotShift(s.done, t - s.done);
      if i < end {
        assert s.slots[Slot(t)] == s.enqueued[t];
        assert s.enqueued[..t + 1] == s.enqueued[..t] + [s.enqueued[t]];
      } else {
        SlotShift(s.done, n - s.done);
        SlotOnce(end);
      }
  }

  ghost predicate Run(ss: seq<State>) {
    && ss != [] && Init(ss[0])
    && forall i :: 0 <= i < |ss| - 1 ==>
         |ss[i].slots| == MAX_WORKQ && ss[i].enqIdx < MAX_WORKQ
           && (EnqueueStep(ss[i], ss[i + 1]) || WorkerStep(ss[i], ss[i + 1]))
  }

  /** Over every interleaving: what has run is a prefix of what was enqueued, each item once and in order. */
  lemma {:induction false} RunFifo(ss: seq<State>, k: nat)
    requires Run(ss) && k < |ss|
    ensures Inv(ss[k]) && ss[k].ran <= ss[k].enqueued
  {
    if k > 0 {
      RunFifo(ss, k - 1);
      if EnqueueStep(ss[k - 1], ss[k]) {
        EnqueueKeeps(ss[k - 1], ss[k]);
      } else {
        WorkerKeeps(ss[k - 1], ss[k]);
      }
    }
  }

  /**
   When the worker writes `deq_idx`, it has run what was enqueued up to its snapshot, and what came
   later is still in the ring.
   */
  lemma DrainEnds(s: State, s': State)
    requires Inv(s) && s.worker.Draining? && s.worker.i == s.worker.end && WorkerStep(s, s')
    ensures s'.ran == s.enqueued[..s.worker.n]
    ensures forall t :: s.worker.n <= t < |s.enqueued| ==> s'.slots[Slot(t)] == s.enqueued[t]
    ensures s'.deqIdx == Slot(s.worker.n)
  {
    WorkerKeeps(s, s');
  }

  /** The worker sees all outstanding items exactly when they are fewer than 32; with 32 it sees none. */
  lemma SeenAll(done: nat, n: nat)
    requires done <= n
    ensures var e, d := Slot(n), Slot(done);
            (if e < d then e + MAX_WORKQ else e) - d == n - done <==> n < done + MAX_WORKQ
  {
    if n < done + MAX_WORKQ {
      Snapshot(done, n);
    }
  }

  function Flatten(ss: seq<seq<Item>>): seq<Item> {
    if ss == [] then [] else Flatten(ss[..|ss| - 1]) + ss[|ss| - 1]
  }

  lemma SlotIs(t: nat)
    ensures Slot(t) == t % MAX_WORKQ
  {
  }

  lemma FlattenNone(ss: seq<seq<Item>>)
    ensures Flatten(ss[..0]) == []
  {
  }

  lemma {:induction false} FlattenGrows(ss: seq<seq<Item>>, k: nat)
    requires k <= |ss|
    ensures |Flatten(ss[..k])| <= |Flatten(ss)|
    decreases |ss| - k
  {
    if k < |ss| {
      assert ss[..k + 1][..k] == ss[..k];
      FlattenGrows(ss, k + 1);
    } else {
      assert ss[..k] == ss;
    }
  }

  lemma FlattenNext(ss: seq<seq<Item>>, k: nat)
    requires k < |ss|
    ensures Flatten(ss[..k + 1]) == Flatten(ss[..k]) + ss[k] && |Flatten(ss[..k + 1])| <= |Flatten(ss)|
  {
    assert ss[..k + 1][..k] == ss[..k];
    FlattenGrows(ss, k + 1);
  }

  /** struct worker */
  class Ring {
    const wkq: array<Item>
    var enqIdx: nat
    var deqIdx: nat
    ghost var enqueued: seq<Item>
    ghost var ran: seq<Item>

    ghost function Abstract(w: Worker, done: nat): State
      reads this, wkq
    {
      State(wkq[..], enqIdx, deqIdx, Ready, w, enqueued, ran, done)
    }

    ghost predicate Valid()
      reads this, wkq
    {
      Inv(Abstract(Waiting, |ran|))
    }

    constructor ()
      ensures Valid() && enqueued == [] == ran && fresh(wkq)
    {
      wkq := new Item[MAX_WORKQ](i => Item(0, 0));
      enqIdx, deqIdx, enqueued, ran := 0, 0, [], [];
    }

    /** enqueue_workq, while the worker is at `w`: its stores are the steps of the interleavings, in their order. */
    method EnqueueWorkq(item: Item, ghost w: Worker, ghost done: nat) returns (ghost s1: State, ghost s2: State)
      requires Inv(Abstract(w, done)) && |enqueued| < done + MAX_WORKQ - 1
      modifies wkq, `enqIdx, `enqueued
      ensures Inv(Abstract(w, done)) && enqueued == old(enqueued) + [item]
      ensures Inv(s1) && Inv(s2) && s1.enqueuer == FuncStored(item)
      ensures EnqueueStep(old(Abstract(w, done)), s1) && EnqueueStep(s1, s2) && EnqueueStep(s2, Abstract(w, done))
    {
      ghost var s0 := Abstract(w, done);
      wkq[enqIdx] := wkq[enqIdx].(func := item.func);
      s1 := Abstract(w, done).(enqueuer := FuncStored(item));
      assert s1.slots == s0.slots[s0.enqIdx := s0.slots[s0.enqIdx].(func := item.func)];
      EnqueueKeeps(s0, s1);
      wkq[enqIdx] := wkq[enqIdx].(arg := item.arg);
      s2 := Abstract(w, done).(enqueuer := ArgStored(item));
      assert s2.slots == s1.slots[s1.enqIdx := s1.slots[s1.enqIdx].(arg := item.arg)];
      EnqueueKeeps(s1, s2);
      if enqIdx == MAX_WORKQ - 1 {
        enqIdx := 0;
      } else {
        enqIdx := enqIdx + 1;
      }
      enqueued := enqueued + [item];
      EnqueueKeeps(s2, Abstract(w, done));
    }

    /** Work that is enqueued while an item runs. */
    method Arrive(items: seq<Item>, ghost w: Worker, ghost done: nat)
      requires Inv(Abstract(w, done)) && |enqueued| + |items| < done + MAX_WORKQ
      modifies wkq, `enqIdx, `enqueued
      ensures Inv(Abstract(w, done)) && enqueued == old(enqueued) + items
    {
      hide Inv;
      var i := 0;
      while i < |items|
        invariant 0 <= i <= |items| && Inv(Abstract(w, done)) && enqueued == old(enqueued) + items[..i]
      {
        ghost var s1, s2 := EnqueueWorkq(items[i], w, done);
        i := i + 1;
      }
    }

    /** One item, the function and argument that are called, runs, and `arrivals` come in meanwhile. */
    method RunItem(i: nat, arrivals: seq<Item>, ghost end: nat, ghost n: nat, ghost done: nat) returns (item: Item)
      requires Inv(Abstract(Draining(i, end, n), done)) && i < end && |enqueued| + |arrivals| < done + MAX_WORKQ
      modifies wkq, `enqIdx, `enqueued, `ran
      ensures Inv(Abstract(Draining(i + 1, end, n), done)) && enqueued == old(enqueued) + arrivals
      ensures |old(ran)| < |old(enqueued)| && item == old(enqueued)[|old(ran)|] && ran == old(ran) + [item]
    {
      hide Slot;
      var j := i % MAX_WORKQ;
      assert j == Slot(i) by { SlotIs(i); }
      ghost var s := Abstract(Draining(i, end, n), done);
      item := Item(wkq[j].func, wkq[j].arg);
      ran := ran + [item];
      WorkerKeeps(s, Abstract(Draining(i + 1, end, n), done));
      Arrive(arrivals, Draining(i + 1, end, n), done);
    }

    /** The end of a drain: `deq_idx` moves to the snapshot. */
    method Finish(end: nat, ghost n: nat, ghost done: nat)
      requires Inv(Abstract(Draining(end, end, n), done))
      modifies `deqIdx
      ensures Valid() && n <= |enqueued| && ran == enqueued[..n]
    {
      hide Slot;
      ghost var s := Abstract(Draining(end, end, n), done);
      if end >= MAX_WORKQ {
        deqIdx := end - MAX_WORKQ;
      } else {
        deqIdx := end;
      }
      WorkerKeeps(s, Abstract(Waiting, n));
    }

    lemma SnapshotTaken()
      requires Valid()
      ensures var end := if enqIdx < deqIdx then enqIdx + MAX_WORKQ else enqIdx;
              Inv(Abstract(Draining(deqIdx, end, |enqueued|), |ran|)) && end - deqIdx == |enqueued| - |ran|
    {
      Snapshot(|ran|, |enqueued|);
      hide Slot;
    }

    /**
     One wake-up of workq_worker, during whose k-th item the work `arrivals[k]` is enqueued: what was
     there at the start is run, and what arrived is kept for the next time.
     */
    method Drain(arrivals: seq<seq<Item>>) returns (executed: seq<Item>)
      requires Valid() && |arrivals| == |enqueued| - |ran|
      requires |enqueued| + |Flatten(arrivals)| < |ran| + MAX_WORKQ
      modifies this, wkq
      ensures Valid() && ran == old(enqueued) && enqueued == old(enqueued) + Flatten(arrivals)
      ensures ran == old(ran) + executed
    {
      hide Inv, Slot, Flatten;
      ghost var done, n := |ran|, |enqueued|;
      FlattenNone(arrivals);
      SnapshotTaken();
      var enq, deq := enqIdx, deqIdx;
      if enq < deq {
        enq := enq + MAX_WORKQ;
      }
      executed := [];
      var i := deq;
      while i < enq
        invariant deq <= i <= enq && enq - deq == |arrivals|
        invariant Inv(Abstract(Draining(i, enq, n), done))
        invariant enqueued == old(enqueued) + Flatten(arrivals[..i - deq]) && ran == old(ran) + executed
      {
        FlattenNext(arrivals, i - deq);
        var item := RunItem(i, arrivals[i - deq], enq, n, done);
        executed := executed + [item];
        i := i + 1;
      }
      assert arrivals[..|arrivals|] == arrivals;
      Finish(enq, n, done);
    }
  }
}
