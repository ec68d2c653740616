/**
 Tasks as the scheduler sees them: struct task_struct with its embedded struct sched_entity.
 */
module SchedTask {
  import opened Arith
  import opened RbModel

  datatype TaskState = Running | Waiting | StopRunning | Stop

  datatype TaskType = CfsTask | RtTask | OneshotTask

  /** The priorities that forkyi accepts for a CFS task, 1 << 0 to 1 << 4. */
  const CFS_PRI_NUM := 5

  class Task {
    var vruntime: nat
    var ticks: nat
    var consumed: nat
    const node: RbNode
    const priority: nat
    const shift: nat
    const kind: TaskType
    var state: TaskState
    var yieldTask: Task?
    var done: bool
    var preempted: bool
    var missed: nat

    /** What forkyi leaves in a CFS task's entity. */
    ghost predicate IsCfs() {
      kind == CfsTask && shift < CFS_PRI_NUM && priority == Pow2(shift)
    }

    /** forkyi, once the priority has passed its check; rb_init_node is the caller's next step. */
    constructor (kind: TaskType, priority: nat, shift: nat, current: Task?)
      ensures this.kind == kind && this.priority == priority && this.shift == shift
      ensures vruntime == 0 && consumed == 0 && ticks == 0
      ensures yieldTask == current && done && !preempted && missed == 0
      ensures fresh(node) && node.parent == node && node.color == Red
    {
      var n := new RbNode();
      this.kind, this.priority, this.shift, this.node := kind, priority, shift, n;
      vruntime, ticks, consumed, state := 0, 0, 0, Waiting;
      yieldTask, done, preempted, missed := current, true, false, 0;
    }
  }

  /** What update_current counts on a task. */
  datatype Counts = Counts(ticks: nat, consumed: nat, vruntime: nat)

  ghost function CountsOf(t: Task): Counts
    reads t`ticks, t`consumed, t`vruntime
  {
    Counts(t.ticks, t.consumed, t.vruntime)
  }

  /** The priority check of forkyi: the shift of a priority that is a power of two below 32. */
  method PriorityShift(pri: nat) returns (ok: bool, shift: nat)
    ensures ok <==> pri in {1, 2, 4, 8, 16}
    ensures ok ==> shift < CFS_PRI_NUM && Pow2(shift) == pri
  {
    assert Pow2(0) == 1 && Pow2(1) == 2 && Pow2(2) == 4 && Pow2(3) == 8 && Pow2(4) == 16;
    var i, bit := 0, 1;
    while i < CFS_PRI_NUM
      invariant 0 <= i <= CFS_PRI_NUM && bit == Pow2(i)
      invariant forall k :: 0 <= k < i ==> pri != Pow2(k)
    {
      if pri == bit { break; }
      i, bit := i + 1, 2 * bit;
    }
    ok, shift := i != CFS_PRI_NUM, i;
    if !ok {
      assert pri != Pow2(0) && pri != Pow2(1) && pri != Pow2(2) && pri != Pow2(3) && pri != Pow2(4);
    }
  }
}
