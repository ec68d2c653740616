/**
 The run queue as a sequence of entities in tree order, and what one scheduler tick does to it.
 */
module Cfs {
  import opened Arith
  import opened SchedTask
  import opened SeqOps

  datatype Entity = Entity(task: Task, consumed: nat, priority: nat) {
    /** jiffies_vruntime */
    function V(): nat {
      consumed * priority
    }
  }

  type Queue = seq<Entity>

  predicate PrioritiesOk(q: Queue) {
    forall i :: 0 <= i < |q| ==> q[i].priority > 0
  }

  ghost predicate Sorted(q: Queue) {
    forall i, j :: 0 <= i < j < |q| ==> q[i].V() <= q[j].V()
  }

  ghost predicate Wf(q: Queue) {
    && (forall i :: 0 <= i < |q| ==> q[i].priority > 0)
    && (forall i, j :: 0 <= i < j < |q| ==> q[i].task != q[j].task)
  }

  /** Where enqueue_se puts key `v` in a sorted queue: before the first entity that is not smaller. */
  function Position(q: Queue, v: nat): (i: nat)
    ensures i <= |q|
    ensures forall k :: 0 <= k < i ==> q[k].V() < v
    ensures i < |q| ==> q[i].V() >= v
  {
    if q == [] || q[0].V() >= v then 0 else 1 + Position(q[1..], v)
  }

  function Insert(q: Queue, e: Entity): Queue {
    var i := Position(q, e.V());
    q[..i] + [e] + q[i..]
  }

  function Advanced(e: Entity): Entity {
    e.(consumed := e.consumed + 1)
  }

  /** update_current on a task: its entity is advanced if it is queued. */
  function AdvancedTask(q: Queue, t: Task): (r: Queue)
    ensures |r| == |q| && forall i :: 0 <= i < |r| ==> r[i] == if q[i].task == t then Advanced(q[i]) else q[i]
  {
    seq(|q|, i requires 0 <= i < |q| => if q[i].task == t then Advanced(q[i]) else q[i])
  }

  /** One scheduler tick: update_current on the leftmost task, then update_se. */
  function Tick(q: Queue): Queue
    requires |q| >= 2
  {
    var e := Advanced(q[0]);
    if q[1].V() < e.V() then Insert(q[1..], e) else [e] + q[1..]
  }

  function Run(q: Queue, n: nat): (r: Queue)
    requires |q| >= 2
    ensures |r| == |q|
  {
    if n == 0 then q else Tick(Run(q, n - 1))
  }

  /** No task is ahead of another by more than its own priority. */
  ghost predicate Fair(q: Queue) {
    forall i, j :: 0 <= i < |q| && 0 <= j < |q| ==> q[i].V() <= q[j].V() + q[i].priority
  }

  ghost predicate EqualRuntimes(q: Queue) {
    forall i, j :: 0 <= i < |q| && 0 <= j < |q| ==> q[i].V() == q[j].V()
  }

  // ---------- one tick ----------

  lemma InsertSorted(q: Queue, e: Entity)
    requires Sorted(q)
    ensures Sorted(Insert(q, e))
  {
    var i, r := Position(q, e.V()), Insert(q, e);
    forall k, l | 0 <= k < l < |r| ensures r[k].V() <= r[l].V() {
      if k < i { assert r[k] == q[k]; }
      if k > i { assert r[k] == q[k - 1]; }
      if l < i { assert r[l] == q[l]; }
      if l > i { assert r[l] == q[l - 1]; }
    }
  }

  /** In a sorted queue only one place lies between the smaller keys and the others. */
  lemma PositionOnly(q: Queue, v: nat, k: nat)
    requires Sorted(q) && k <= |q|
    requires k > 0 ==> q[k - 1].V() < v
    requires k < |q| ==> q[k].V() >= v
    ensures k == Position(q, v)
  {
  }

  /** The tick puts the advanced leftmost entity where enqueue_se would, moved or not. */
  lemma TickInserts(q: Queue)
    requires |q| >= 2
    ensures Tick(q) == Insert(q[1..], Advanced(q[0]))
  {
  }

  lemma SmallestFirst(e: Entity, q: Queue)
    requires Sorted(q) && (q != [] ==> e.V() <= q[0].V())
    ensures Sorted([e] + q)
  {
    forall k, l | 0 <= k < l < |q| + 1 ensures ([e] + q)[k].V() <= ([e] + q)[l].V() {
      assert q[0].V() <= q[l - 1].V();
      assert k > 0 ==> q[k - 1].V() <= q[l - 1].V();
    }
  }

  /** A tick leaves the whole queue sorted, as long as all but its leftmost entity was. */
  lemma TickSorted(q: Queue)
    requires |q| >= 2 && Sorted(q[1..])
    ensures Sorted(Tick(q))
  {
    hide Sorted;
    InsertSorted(q[1..], Advanced(q[0]));
    if q[1].V() >= Advanced(q[0]).V() {
      SmallestFirst(Advanced(q[0]), q[1..]);
    }
  }

  /** Taking the advanced leftmost entity to any place that enqueue_se may choose is the tick. */
  lemma TickRefined(q: Queue, k: nat, r: Queue)
    requires |q| >= 2 && Sorted(q[1..]) && k < |q|
    requires r == Inserted(q[1..], k, Advanced(q[0]))
    requires k > 0 ==> q[k].V() < Advanced(q[0]).V()
    requires k + 1 < |q| ==> q[k + 1].V() >= Advanced(q[0]).V()
    ensures r == Tick(q) && Sorted(r)
  {
    PositionOnly(q[1..], Advanced(q[0]).V(), k);
    TickInserts(q);
    TickSorted(q);
  }

  /** The tick moves the leftmost entity and advances it by its priority; nothing else changes. */
  lemma TickIs(q: Queue) returns (i: nat)
    requires |q| >= 2
    ensures i < |q| && Tick(q) == q[1..][..i] + [Advanced(q[0])] + q[1..][i..]
  {
    i := if q[1].V() < Advanced(q[0]).V() then Position(q[1..], Advanced(q[0]).V()) else 0;
  }

  lemma SortedHead(q: Queue)
    requires Sorted(q) && q != []
    ensures Sorted(q[1..]) && forall i :: 0 <= i < |q| ==> q[0].V() <= q[i].V()
  {
  }

  lemma AdvancedV(e: Entity)
    ensures Advanced(e).V() == e.V() + e.priority
  {
  }

  /** Where entity `k` of a ticked queue stood before, when the leftmost went to place `i`. */
  function From(i: nat, k: nat): nat {
    if k < i then k + 1 else if k == i then 0 else k
  }

  lemma {:induction false} TickAt(q: Queue, i: nat)
    requires |q| >= 2 && i < |q| && Tick(q) == q[1..][..i] + [Advanced(q[0])] + q[1..][i..]
    ensures |Tick(q)| == |q|
    ensures forall k :: 0 <= k < |q| ==> Tick(q)[k] == if k == i then Advanced(q[0]) else q[From(i, k)]
  {
    hide Tick;
  }

  lemma {:induction false} TickWf(q: Queue)
    requires |q| >= 2 && Wf(q)
    ensures Wf(Tick(q)) && |Tick(q)| == |q|
  {
    var i := TickIs(q);
    var r := Tick(q);
    TickAt(q, i);
    hide Tick;
    forall k, l | 0 <= k < l < |r| ensures r[k].task != r[l].task {
      assert q[From(i, k)].task != q[From(i, l)].task;
    }
  }

  lemma {:induction false} TickFair(q: Queue)
    requires |q| >= 2 && Wf(q) && Sorted(q) && Fair(q)
    ensures Fair(Tick(q))
  {
    var i := TickIs(q);
    var r := Tick(q);
    AdvancedV(q[0]);
    TickAt(q, i);
    hide Tick;
    forall k, l | 0 <= k < |r| && 0 <= l < |r| ensures r[k].V() <= r[l].V() + r[k].priority {
      assert q[From(i, k)].V() <= q[From(i, l)].V() + q[From(i, k)].priority;
      assert q[0].V() <= q[From(i, l)].V();
    }
  }

  /** Where entity `k` stands after a tick. */
  lemma TickWhere(q: Queue, k: nat) returns (j: nat)
    requires |q| >= 2 && k < |q|
    ensures j < |q| == |Tick(q)| && Tick(q)[j] == if k == 0 then Advanced(q[0]) else q[k]
  {
    var p := TickIs(q);
    TickAt(q, p);
    hide Tick;
    j := if k == 0 then p else if k <= p then k - 1 else k;
    assert From(p, j) == k;
  }

  // ---------- whole runs ----------

  /** Over any number of ticks the queue stays sorted, fair and the same in its tasks. */
  lemma {:induction false} RunFair(q: Queue, n: nat)
    requires |q| >= 2 && Wf(q) && Sorted(q) && Fair(q)
    ensures Wf(Run(q, n)) && Sorted(Run(q, n)) && Fair(Run(q, n))
  {
    if n > 0 {
      RunFair(q, n - 1);
      var r := Run(q, n - 1);
      TickSorted(r);
      TickWf(r);
      TickFair(r);
    }
  }

  function Max(a: int, b: int): int {
    if a > b then a else b
  }

  lemma EqualIsFair(q: Queue)
    requires EqualRuntimes(q)
    ensures Sorted(q) && Fair(q)
  {
  }

  /**
   Weighted fairness: after any run of ticks from a sorted, fair queue, such as one of equal vruntimes,
   weighted consumption differs by at most the larger priority.
   */
  lemma WeightedFairness(q: Queue, n: nat, i: nat, j: nat)
    requires |q| >= 2 && Wf(q) && Sorted(q) && Fair(q) && i < |q| && j < |q|
    ensures var r := Run(q, n);
            var d := r[i].consumed * r[i].priority - r[j].consumed * r[j].priority;
            d <= Max(r[i].priority, r[j].priority) && -d <= Max(r[i].priority, r[j].priority)
  {
    RunFair(q, n);
    var r := Run(q, n);
    assert r[i].V() <= r[j].V() + r[i].priority && r[j].V() <= r[i].V() + r[j].priority;
  }

  // ---------- from a rounded queue ----------

  /** What an enqueue and a dequeue leave: no entity is ahead of `l`, and each would be after one more tick. */
  ghost predicate Level(q: Queue, l: nat) {
    forall i :: 0 <= i < |q| ==> q[i].V() <= l < q[i].V() + q[i].priority
  }

  /**
   A tick of a queue in any order: the advanced leftmost entity goes to a place that enqueue_se's
   descent may find.
   */
  ghost predicate AnyTick(q: Queue, q': Queue, k: nat) {
    && |q| >= 2 && k < |q| && q' == Inserted(q[1..], k, Advanced(q[0]))
    && (k > 0 ==> q[k].V() < Advanced(q[0]).V())
    && (k + 1 < |q| ==> q[k + 1].V() >= Advanced(q[0]).V())
  }

  /** update_se moves the leftmost entity to such a place. */
  ghost predicate Requeued(q: Queue, q': Queue, k: nat) {
    && k < |q| && q' == Inserted(q[1..], k, q[0])
    && (k > 0 ==> q'[k - 1].V() < q'[k].V())
    && (k + 1 < |q'| ==> q'[k].V() <= q'[k + 1].V())
  }

  function AdvancedAll(q: Queue): (r: Queue)
    ensures |r| == |q| && forall i :: 0 <= i < |r| ==> r[i] == Advanced(q[i])
  {
    seq(|q|, i requires 0 <= i < |q| => Advanced(q[i]))
  }

  /** Each entity is ahead of `l`, by no more than its priority. */
  ghost predicate Ahead(q: Queue, l: nat) {
    forall i :: 0 <= i < |q| ==> l < q[i].V() <= l + q[i].priority
  }

  /**
   After `n` ticks from `q0`: those not advanced yet stand in front in their old order, and behind them
   the others, sorted and each advanced once.
   */
  ghost predicate Halfway(q0: Queue, l: nat, q: Queue, n: nat) {
    && n <= |q0| == |q| && q[..|q| - n] == q0[n..]
    && Sorted(q[|q| - n..]) && Ahead(q[|q| - n..], l)
    && multiset(q[|q| - n..]) == multiset(AdvancedAll(q0[..n]))
  }

  lemma InsertedSorted(b: Queue, j: nat, e: Entity)
    requires Sorted(b) && j <= |b| && (j > 0 ==> b[j - 1].V() < e.V()) && (j < |b| ==> b[j].V() >= e.V())
    ensures Sorted(Inserted(b, j, e))
  {
    PositionOnly(b, e.V(), j);
    InsertSorted(b, e);
  }

  lemma InsertedElements(b: Queue, j: nat, e: Entity)
    requires j <= |b|
    ensures multiset(Inserted(b, j, e)) == multiset(b) + multiset{e}
  {
    assert b == b[..j] + b[j..];
  }

  lemma AdvancedMore(q: Queue, n: nat)
    requires n < |q|
    ensures multiset(AdvancedAll(q[..n + 1])) == multiset(AdvancedAll(q[..n])) + multiset{Advanced(q[n])}
  {
    assert AdvancedAll(q[..n + 1]) == AdvancedAll(q[..n]) + [Advanced(q[n])];
  }

  lemma AnyTickIs(q: Queue, q': Queue, k: nat)
    requires AnyTick(q, q', k)
    ensures |q| >= 2 && k < |q| && q' == Inserted(q[1..], k, Advanced(q[0]))
  {
  }

  /** No untouched key reaches l + 1, so the advanced entity goes among the advanced ones. */
  lemma BehindFront(q0: Queue, l: nat, q: Queue, n: nat, q': Queue, k: nat)
    requires Level(q0, l) && n < |q0| == |q| && q[..|q| - n] == q0[n..] && AnyTick(q, q', k)
    ensures q[0] == q0[n] && l < Advanced(q[0]).V() <= l + q[0].priority && k + 1 >= |q| - n
    ensures var b, j := q[|q| - n..], k + 1 - (|q| - n);
            (j > 0 ==> b[j - 1].V() < Advanced(q[0]).V()) && (j < |b| ==> b[j].V() >= Advanced(q[0]).V())
  {
    var m := |q| - n;
    assert q[0] == q[..m][0] && q[0] == q0[n];
    AdvancedV(q0[n]);
    forall i | 0 <= i < m ensures q[i].V() <= l {
      assert q[i] == q[..m][i] && q[i] == q0[n + i];
    }
  }

  /** The front loses its first entity, and the back gets it advanced. */
  lemma Parts(q0: Queue, q: Queue, n: nat, k: nat, e: Entity, q': Queue)
    requires n < |q0| == |q| && q[..|q| - n] == q0[n..] && |q| - n <= k + 1 <= |q|
    requires q' == Inserted(q[1..], k, e)
    ensures var m := |q| - n;
            && |q'| == |q0| && q'[..|q'| - (n + 1)] == q0[n + 1..]
            && Inserted(q[m..], k + 1 - m, e) == q'[|q'| - (n + 1)..]
  {
    var m := |q| - n;
    forall i | 0 <= i < m - 1 ensures q'[i] == q0[n + 1 + i] {
      assert q'[i] == q[i + 1] && q[i + 1] == q[..m][i + 1];
    }
  }

  lemma BackElements(q0: Queue, n: nat, b: Queue, j: nat, e: Entity)
    requires n < |q0| && j <= |b| && e == Advanced(q0[n]) && multiset(b) == multiset(AdvancedAll(q0[..n]))
    ensures multiset(Inserted(b, j, e)) == multiset(AdvancedAll(q0[..n + 1]))
  {
    InsertedElements(b, j, e);
    AdvancedMore(q0, n);
  }

  lemma AheadInserted(b: Queue, j: nat, e: Entity, l: nat)
    requires Ahead(b, l) && j <= |b| && l < e.V() <= l + e.priority
    ensures Ahead(Inserted(b, j, e), l)
  {
    var r := Inserted(b, j, e);
    forall i | 0 <= i < |r| ensures l < r[i].V() <= l + r[i].priority {
      assert r[i] == if i < j then b[i] else if i == j then e else b[i - 1];
    }
  }

  /** The parts of Halfway. */
  lemma HalfwayBack(q0: Queue, l: nat, q: Queue, n: nat) returns (b: Queue)
    requires Halfway(q0, l, q, n)
    ensures n <= |q0| == |q| && b == q[|q| - n..] && q[..|q| - n] == q0[n..]
    ensures Sorted(b) && Ahead(b, l) && multiset(b) == multiset(AdvancedAll(q0[..n]))
  {
    b := q[|q| - n..];
  }

  lemma HalfwayIs(q0: Queue, l: nat, q: Queue, n: nat, b: Queue)
    requires n <= |q0| == |q| && b == q[|q| - n..] && q[..|q| - n] == q0[n..]
    requires Sorted(b) && Ahead(b, l) && multiset(b) == multiset(AdvancedAll(q0[..n]))
    ensures Halfway(q0, l, q, n)
  {
  }

  lemma {:induction false} HalfwayStep(q0: Queue, l: nat, q: Queue, n: nat, q': Queue, k: nat)
    requires Level(q0, l) && Halfway(q0, l, q, n) && n < |q0| && AnyTick(q, q', k)
    ensures Halfway(q0, l, q', n + 1)
  {
    hide Level, Halfway, Sorted, Ahead, AdvancedAll, Inserted, AnyTick, Entity.V;
    AnyTickIs(q, q', k);
    var m, e := |q| - n, Advanced(q[0]);
    var b := HalfwayBack(q0, l, q, n);
    var j := k + 1 - m;
    BehindFront(q0, l, q, n, q', k);
    Parts(q0, q, n, k, e, q');
    InsertedSorted(b, j, e);
    BackElements(q0, n, b, j, e);
    AheadInserted(b, j, e, l);
    HalfwayIs(q0, l, q', n + 1, Inserted(b, j, e));
  }

  /** A run of ticks in any order. */
  ghost predicate AnyRun(qs: seq<Queue>, ks: seq<nat>) {
    |qs| == |ks| + 1 && forall i :: 0 <= i < |ks| ==> AnyTick(qs[i], qs[i + 1], ks[i])
  }

  lemma NoRun(q: Queue)
    ensures AnyRun([q], [])
  {
  }

  lemma RunLonger(qs: seq<Queue>, ks: seq<nat>, q: Queue, k: nat)
    requires AnyRun(qs, ks) && AnyTick(qs[|ks|], q, k)
    ensures AnyRun(qs + [q], ks + [k])
  {
    hide AnyTick;
    var qs', ks' := qs + [q], ks + [k];
    forall i | 0 <= i < |ks'| ensures AnyTick(qs'[i], qs'[i + 1], ks'[i]) {
      if i < |ks| {
        assert AnyTick(qs[i], qs[i + 1], ks[i]);
      }
    }
  }

  lemma HalfwaySize(q0: Queue, l: nat, q: Queue, n: nat)
    requires Halfway(q0, l, q, n)
    ensures |q| == |q0| && n <= |q0|
  {
  }

  lemma {:induction false} HalfwayRun(qs: seq<Queue>, ks: seq<nat>, l: nat, n: nat)
    requires AnyRun(qs, ks) && Level(qs[0], l) && n <= |ks| && n <= |qs[0]|
    ensures Halfway(qs[0], l, qs[n], n)
  {
    if n > 0 {
      HalfwayRun(qs, ks, l, n - 1);
      hide Level, Halfway;
      HalfwaySize(qs[0], l, qs[n - 1], n - 1);
      HalfwayStep(qs[0], l, qs[n - 1], n - 1, qs[n], ks[n - 1]);
    }
  }

  /** Until then the tasks run in the order that they stood in. */
  lemma NextInLine(qs: seq<Queue>, ks: seq<nat>, l: nat)
    requires AnyRun(qs, ks) && Level(qs[0], l) && |ks| < |qs[0]|
    ensures qs[|ks|] != [] && qs[|ks|][0] == qs[0][|ks|]
  {
    var n := |ks|;
    HalfwayRun(qs, ks, l, n);
    var b := HalfwayBack(qs[0], l, qs[n], n);
    assert qs[n][0] == qs[n][..|qs[n]| - n][0];
  }

  lemma HalfwayEnd(q0: Queue, l: nat, q: Queue)
    requires Halfway(q0, l, q, |q0|)
    ensures Sorted(q) && Fair(q) && multiset(q) == multiset(AdvancedAll(q0))
  {
    assert q[0..] == q && q0[..|q0|] == q0;
  }

  /**
   From a queue that an enqueue or a dequeue has rounded, in key order or not and whatever places the
   descents find: after as many ticks as there are tasks, each has been advanced once, and the queue is
   sorted and fair.
   */
  lemma RoundSettles(qs: seq<Queue>, ks: seq<nat>, l: nat)
    requires AnyRun(qs, ks) && Level(qs[0], l) && |ks| == |qs[0]|
    ensures var r := qs[|ks|];
            Sorted(r) && Fair(r) && multiset(r) == multiset(AdvancedAll(qs[0]))
  {
    HalfwayRun(qs, ks, l, |ks|);
    HalfwayEnd(qs[0], l, qs[|ks|]);
  }

  /** An entity of the settled queue is one of the old ones, advanced once. */
  lemma AdvancedOnce(q0: Queue, q: Queue, j: nat) returns (i: nat)
    requires multiset(q) == multiset(AdvancedAll(q0)) && j < |q|
    ensures i < |q0| && q[j] == Advanced(q0[i])
  {
    assert q[j] in multiset(q);
    assert q[j] in AdvancedAll(q0);
    i :| 0 <= i < |q0| && AdvancedAll(q0)[i] == q[j];
  }

  // ---------- starvation ----------

  /** How many ticks `e` can still take from a task whose vruntime is `v`. */
  function Debt(e: Entity, v: nat): nat
    requires e.priority > 0
  {
    if e.V() <= v then (v - e.V()) / e.priority + 1 else 0
  }

  function Debts(q: Queue, t: Task, v: nat): nat
    requires PrioritiesOk(q)
  {
    if q == [] then 0 else (if q[0].task == t then 0 else Debt(q[0], v)) + Debts(q[1..], t, v)
  }

  /** The bound: each other task runs at most p / p_j + 1 times first. */
  function Bound(q: Queue, t: Task, p: nat): nat
    requires PrioritiesOk(q)
  {
    if q == [] then 0 else (if q[0].task == t then 0 else p / q[0].priority + 1) + Bound(q[1..], t, p)
  }

  lemma {:induction false} DebtsJoin(a: Queue, b: Queue, t: Task, v: nat)
    requires PrioritiesOk(a + b)
    ensures PrioritiesOk(a) && PrioritiesOk(b)
    ensures Debts(a + b, t, v) == Debts(a, t, v) + Debts(b, t, v)
  {
    assert forall i :: 0 <= i < |a| ==> (a + b)[i] == a[i];
    assert forall i :: 0 <= i < |b| ==> (a + b)[|a| + i] == b[i];
    if a == [] {
      assert a + b == b;
    } else {
      assert (a + b)[1..] == a[1..] + b;
      DebtsJoin(a[1..], b, t, v);
    }
  }

  /** Advancing an entity that is not ahead of `v` pays one tick of its debt. */
  lemma DebtPaid(e: Entity, v: nat)
    requires e.priority > 0 && e.V() <= v
    ensures Debt(Advanced(e), v) == Debt(e, v) - 1
  {
    AdvancedV(e);
    if Advanced(e).V() <= v {
      DivStep(v - e.V(), e.priority);
    } else {
      assert v - e.V() < e.priority;
    }
  }

  /** The debts when the first entity `e` becomes `e'` and moves behind `a`. */
  lemma DebtsMoved(a: Queue, b: Queue, e: Entity, e': Entity, t: Task, v: nat)
    requires e.task == e'.task != t && e.priority == e'.priority > 0
    requires PrioritiesOk(a + b)
    ensures PrioritiesOk([e] + (a + b)) && PrioritiesOk(a + ([e'] + b))
    ensures Debts(a + ([e'] + b), t, v) == Debts([e] + (a + b), t, v) - Debt(e, v) + Debt(e', v)
  {
    assert PrioritiesOk(a) && PrioritiesOk(b) by { DebtsJoin(a, b, t, v); }
    hide Debt;
    DebtsJoin([e], a + b, t, v);
    DebtsJoin(a, b, t, v);
    DebtsJoin(a, [e'] + b, t, v);
    DebtsJoin([e'], b, t, v);
    assert Debts([e'], t, v) == Debt(e', v) && Debts([e], t, v) == Debt(e, v);
  }

  /** A tick that advances another task takes exactly one from the debts to a waiting one. */
  lemma {:induction false} TickPays(q: Queue, t: Task, v: nat)
    requires |q| >= 2 && Wf(q) && q[0].task != t && q[0].V() <= v
    ensures Wf(Tick(q)) && Debts(Tick(q), t, v) == Debts(q, t, v) - 1
  {
    TickWf(q);
    var i := TickIs(q);
    var e, a, b := Advanced(q[0]), q[1..][..i], q[1..][i..];
    DebtPaid(q[0], v);
    hide Tick, Debt;
    assert q == [q[0]] + (a + b) && Tick(q) == a + ([e] + b);
    DebtsMoved(a, b, q[0], e, t, v);
  }

  lemma DebtBound(e: Entity, v: nat, p: nat)
    requires e.priority > 0 && v <= e.V() + p
    ensures Debt(e, v) <= p / e.priority + 1 && p / e.priority >= 0
  {
    if e.V() <= v { DivMono(v - e.V(), p, e.priority); }
  }

  lemma {:induction false} DebtsBound(q: Queue, t: Task, v: nat, p: nat)
    requires forall i :: 0 <= i < |q| ==> q[i].priority > 0 && v <= q[i].V() + p
    ensures Debts(q, t, v) <= Bound(q, t, p)
  {
    if q != [] {
      assert forall i :: 0 <= i < |q[1..]| ==> q[1..][i] == q[i + 1];
      DebtsBound(q[1..], t, v, p);
      DebtBound(q[0], v, p);
      hide Debt;
    }
  }

  /** Task `t` is not the one advanced in any of the first `n` ticks. */
  ghost predicate Waits(q: Queue, t: Task, n: nat)
    requires |q| >= 2
  {
    forall k :: 0 <= k < n ==> Run(q, k)[0].task != t
  }

  lemma RunStep(q: Queue, n: nat)
    requires |q| >= 2 && n > 0
    ensures Run(q, n) == Tick(Run(q, n - 1))
  {
  }

  /** One tick of waiting. */
  lemma WaitsOn(r: Queue, k: nat) returns (j: nat)
    requires |r| >= 2 && Wf(r) && Sorted(r) && k < |r| && r[0].task != r[k].task
    ensures j < |r| == |Tick(r)| && Tick(r)[j] == r[k] && Wf(Tick(r))
    ensures Debts(Tick(r), r[k].task, r[k].V()) == Debts(r, r[k].task, r[k].V()) - 1
  {
    assert k > 0 && r[0].V() <= r[k].V();
    TickPays(r, r[k].task, r[k].V());
    hide Wf, Sorted, Debts, Debt, Tick;
    j := TickWhere(r, k);
  }

  /** A waiting task's entity does not change, and the debts to it fall by one a tick. */
  lemma {:induction false} WaitsPays(q: Queue, i: nat, n: nat) returns (j: nat)
    requires |q| >= 2 && Wf(q) && Sorted(q) && Fair(q) && i < |q| && Waits(q, q[i].task, n)
    ensures var r := Run(q, n);
            && j < |q| && r[j] == q[i] && Wf(r) && Sorted(r)
            && Debts(r, q[i].task, q[i].V()) == Debts(q, q[i].task, q[i].V()) - n
  {
    RunFair(q, n);
    if n == 0 {
      j := i;
    } else {
      assert Run(q, n - 1)[0].task != q[i].task;
      hide Sorted, Fair, Wf, Debts, Debt, Run, Tick;
      var k := WaitsPays(q, i, n - 1);
      j := WaitsOn(Run(q, n - 1), k);
      RunStep(q, n);
    }
  }

  /** No starvation: in a sorted fair queue a task waits at most the sum of p / p_j + 1 ticks over the other tasks. */
  lemma NoStarvation(q: Queue, i: nat, n: nat)
    requires |q| >= 2 && Wf(q) && Sorted(q) && Fair(q) && i < |q| && Waits(q, q[i].task, n)
    ensures n <= Bound(q, q[i].task, q[i].priority)
  {
    var j := WaitsPays(q, i, n);
    DebtsBound(q, q[i].task, q[i].V(), q[i].priority);
  }

  /** The ticks among the first `n` that advance task `t`. */
  function Turns(q: Queue, t: Task, n: nat): (k: nat)
    requires |q| >= 2
    ensures k <= n
  {
    if n == 0 then 0 else Turns(q, t, n - 1) + if Run(q, n - 1)[0].task == t then 1 else 0
  }

  /** The ticks of the timer that a run charges to task `t`: those of its turns. */
  function TicksOf(q: Queue, t: Task, elapsed: seq<nat>): nat
    requires |q| >= 2
  {
    if elapsed == [] then 0
    else
      var n := |elapsed| - 1;
      TicksOf(q, t, elapsed[..n]) + if Run(q, n)[0].task == t then elapsed[n] else 0
  }

  lemma TicksOfNext(q: Queue, t: Task, elapsed: seq<nat>, n: nat)
    requires |q| >= 2 && n < |elapsed|
    ensures TicksOf(q, t, elapsed[..n + 1])
            == TicksOf(q, t, elapsed[..n]) + if Run(q, n)[0].task == t then elapsed[n] else 0
  {
    assert elapsed[..n + 1][..n] == elapsed[..n];
  }

  lemma {:induction false} NoTurns(q: Queue, t: Task, n: nat)
    requires |q| >= 2 && Turns(q, t, n) == 0
    ensures Waits(q, t, n)
  {
    if n > 0 {
      NoTurns(q, t, n - 1);
    }
  }

  lemma SameTask(q: Queue, i: nat, j: nat)
    requires Wf(q) && i < |q| && j < |q|
    ensures q[i].task == q[j].task <==> i == j
  {
  }

  /** Over a run each task's consumption grows by its turns, and nothing else of it changes. */
  lemma {:induction false} RunTurns(q: Queue, i: nat, n: nat) returns (j: nat)
    requires |q| >= 2 && Wf(q) && i < |q|
    ensures j < |q| && Wf(Run(q, n)) && Run(q, n)[j] == q[i].(consumed := q[i].consumed + Turns(q, q[i].task, n))
  {
    if n == 0 {
      j := i;
    } else {
      hide Tick, Wf;
      var k := RunTurns(q, i, n - 1);
      var r := Run(q, n - 1);
      TickWf(r);
      SameTask(r, 0, k);
      j := TickWhere(r, k);
    }
  }

  /** A task that has consumed nothing in `n` ticks from a sorted fair queue: `n` is within the bound. */
  lemma IdleBound(q: Queue, i: nat, n: nat, j: nat)
    requires |q| >= 2 && Wf(q) && Sorted(q) && Fair(q) && i < |q| && j < |q|
    requires Run(q, n)[j].task == q[i].task && Run(q, n)[j].consumed == q[i].consumed
    ensures n <= Bound(q, q[i].task, q[i].priority)
  {
    var k := RunTurns(q, i, n);
    SameTask(Run(q, n), j, k);
    NoTurns(q, q[i].task, n);
    NoStarvation(q, i, n);
  }

  // ---------- vruntime normalisation ----------

  /** update_vruntime_runq on the queued entities: everyone is given the leftmost's vruntime `l`, rounded down. */
  function Normalised(q: Queue, l: nat): (r: Queue)
    requires PrioritiesOk(q)
    ensures |r| == |q|
    ensures forall i :: 0 <= i < |q| ==> r[i] == q[i].(consumed := l / q[i].priority)
  {
    seq(|q|, i requires 0 <= i < |q| => q[i].(consumed := l / q[i].priority))
  }

  /**
   enqueue_se_to_runq: all entities and the new one `e` are given the leftmost's vruntime, rounded down,
   and the new one goes between a smaller key and one that is not smaller.
   */
  ghost predicate Enqueued(q: Queue, e: Entity, q': Queue, k: nat) {
    && PrioritiesOk(q) && e.priority > 0 && k <= |q|
    && var e' := if q == [] then e else e.(consumed := q[0].V() / e.priority);
       && q' == Inserted(if q == [] then [] else Normalised(q, q[0].V()), k, e')
       && (k > 0 ==> q'[k - 1].V() < e'.V())
       && (k < |q| ==> q'[k + 1].V() >= e'.V())
  }

  /** Each vruntime becomes the largest multiple of its priority that is at most `l`. */
  lemma NormalisedV(q: Queue, l: nat, i: nat)
    requires (forall i :: 0 <= i < |q| ==> q[i].priority > 0) && i < |q|
    ensures Normalised(q, l)[i].V() == l - l % q[i].priority
  {
  }

  /** The leftmost keeps its vruntime, and a second normalisation changes nothing. */
  lemma NormalisedTwice(q: Queue)
    requires Wf(q) && q != []
    ensures var r := Normalised(q, q[0].V());
            r[0] == q[0] && Normalised(r, r[0].V()) == r
  {
    DivIs(q[0].V(), q[0].priority, q[0].consumed);
  }

  /** After normalisation no task is ahead of another by the other's priority. */
  lemma NormalisedGap(q: Queue, l: nat, i: nat, j: nat)
    requires Wf(q) && i < |q| && j < |q|
    ensures Normalised(q, l)[i].V() < Normalised(q, l)[j].V() + q[j].priority
  {
    NormalisedV(q, l, i);
    NormalisedV(q, l, j);
  }

  /** Normalisation keeps the tree in key order exactly when every queued priority divides the leftmost's vruntime. */
  lemma NormalisedSortedIff(q: Queue)
    requires Wf(q) && q != []
    ensures Sorted(Normalised(q, q[0].V())) <==> forall i :: 0 <= i < |q| ==> q[0].V() % q[i].priority == 0
  {
    var l := q[0].V();
    var r := Normalised(q, l);
    NormalisedTwice(q);
    forall i | 0 <= i < |q| ensures r[i].V() == l - l % q[i].priority { NormalisedV(q, l, i); }
    if Sorted(r) {
      forall i | 0 <= i < |q| ensures l % q[i].priority == 0 {
        assert r[0].V() <= r[i].V();
      }
    }
  }

  /** A sorted, fair queue that normalisation puts out of key order. */
  lemma NormalisedDisorders(a: Task, b: Task) returns (q: Queue)
    requires a != b
    ensures q != [] && Wf(q) && Sorted(q) && Fair(q) && !Sorted(Normalised(q, q[0].V()))
  {
    q := [Entity(a, 1, 1), Entity(b, 1, 2)];
    assert q[0].V() == 1 && q[1].V() == 2;
    var r := Normalised(q, 1);
    assert r[0].V() == 1 && r[1].V() == 0;
  }
}
