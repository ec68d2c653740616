/**
 The two-CPU mailbox: push_mail and pull_mail under one spinlock, one memory access at a time (mailbox.c).
 */
module Mailbox {

  datatype Letter = Empty | TaskStat | TaskOdev

  datatype Status = Read | NotRead

  datatype Box = Box(status: Status, letter: Letter)

  /** Where a CPU is: the next access of push_mail or pull_mail, whose local letter is kept with it. */
  datatype Pc =
    | Idle
    | PushAcquire(l: Letter) | PushSpin(l: Letter) | PushLetter(l: Letter) | PushStatus(l: Letter) | PushRelease
    | PullAcquire | PullCheck | PullLetter | PullStatus(l: Letter) | PullRelease(l: Letter)

  datatype Cpu = Cpu0 | Cpu1

  function Other(c: Cpu): Cpu {
    if c == Cpu0 then Cpu1 else Cpu0
  }

  datatype PerCpu<T> = PerCpu(of0: T, of1: T) {
    function At(c: Cpu): T {
      if c == Cpu0 then of0 else of1
    }

    function With(c: Cpu, v: T): PerCpu<T> {
      if c == Cpu0 then PerCpu(v, of1) else PerCpu(of0, v)
    }
  }

  datatype Lock = Unlocked | HeldBy(cpu: Cpu)

  /** Box `c` is the one that CPU `c` pulls from. The two histories of a box are for the specification. */
  datatype State = State(
    lock: Lock, box: PerCpu<Box>, pc: PerCpu<Pc>, pushed: PerCpu<seq<Letter>>, pulled: PerCpu<seq<Letter>>)

  /** init_mailbox */
  ghost predicate Init(s: State) {
    s == State(Unlocked, PerCpu(Box(Read, Empty), Box(Read, Empty)), PerCpu(Idle, Idle), PerCpu([], []), PerCpu([], []))
  }

  /** One access of CPU `c`; an idle one may call either function. */
  ghost predicate Step(s: State, c: Cpu, s': State) {
    var to, own := s.box.At(Other(c)), s.box.At(c);
    match s.pc.At(c)
    case Idle => (exists l :: s' == s.(pc := s.pc.With(c, PushAcquire(l)))) || s' == s.(pc := s.pc.With(c, PullAcquire))
    case PushAcquire(l) => s' == if s.lock == Unlocked then s.(lock := HeldBy(c), pc := s.pc.With(c, PushSpin(l)))
      else s
    case PushSpin(l) => s' == if to.status == Read then s.(pc := s.pc.With(c, PushLetter(l))) else s
    case PushLetter(l) => s' == s.(box := s.box.With(Other(c), to.(letter := l)), pc := s.pc.With(c, PushStatus(l)))
    case PushStatus(l) =>
      s' == s.(box := s.box.With(Other(c), to.(status := NotRead)), pc := s.pc.With(c, PushRelease),
               pushed := s.pushed.With(Other(c), s.pushed.At(Other(c)) + [l]))
    case PushRelease => s' == s.(lock := Unlocked, pc := s.pc.With(c, Idle))
    case PullAcquire => s' == if s.lock == Unlocked then s.(lock := HeldBy(c), pc := s.pc.With(c, PullCheck)) else s
    case PullCheck => s' == s.(pc := s.pc.With(c, if own.status == Read then PullRelease(Empty) else PullLetter))
    case PullLetter => s' == s.(pc := s.pc.With(c, PullStatus(own.letter)))
    case PullStatus(l) =>
      s' == s.(box := s.box.With(c, own.(status := Read)), pc := s.pc.With(c, PullRelease(l)),
               pulled := s.pulled.With(c, s.pulled.At(c) + [l]))
    case PullRelease(_) => s' == s.(lock := Unlocked, pc := s.pc.With(c, Idle))
  }

  predicate Critical(pc: Pc) {
    !pc.Idle? && !pc.PushAcquire? && !pc.PullAcquire?
  }

  /** What box `c` has been sent: what was pulled from it, and the pending letter. */
  ghost predicate Conserved(s: State, c: Cpu) {
    s.pushed.At(c) == s.pulled.At(c) + if s.box.At(c).status == NotRead then [s.box.At(c).letter] else []
  }

  /** What holds of one CPU, and of the boxes it is at work on. */
  ghost predicate CpuInv(s: State, c: Cpu) {
    var to, own, pc := s.box.At(Other(c)), s.box.At(c), s.pc.At(c);
    && (Critical(pc) ==> s.lock == HeldBy(c)) && Conserved(s, c)
    && (pc.PushLetter? || pc.PushStatus? ==> to.status == Read)
    && (pc.PushStatus? ==> to.letter == pc.l)
    && (pc.PullLetter? || pc.PullStatus? ==> own.status == NotRead)
    && (pc.PullStatus? ==> own.letter == pc.l)
  }

  ghost predicate Inv(s: State) {
    CpuInv(s, Cpu0) && CpuInv(s, Cpu1)
  }

  lemma OwnKept(s: State, c: Cpu, s': State)
    requires CpuInv(s, c) && CpuInv(s, Other(c)) && Step(s, c, s')
    ensures CpuInv(s', c)
  {
  }

  lemma OtherKept(s: State, c: Cpu, s': State)
    requires CpuInv(s, c) && CpuInv(s, Other(c)) && Step(s, c, s')
    ensures CpuInv(s', Other(c))
  {
  }

  lemma NotOverwritten(s: State, c: Cpu, s': State, b: Cpu)
    requires CpuInv(s, c) && CpuInv(s, Other(c)) && Step(s, c, s') && s.box.At(b).status == NotRead
    ensures s'.box.At(b).letter == s.box.At(b).letter
  {
  }

  /** One access keeps the invariant, and no unread letter is overwritten. */
  lemma StepKeeps(s: State, c: Cpu, s': State)
    requires Inv(s) && Step(s, c, s')
    ensures Inv(s')
    ensures forall b: Cpu :: s.box.At(b).status == NotRead ==> s'.box.At(b).letter == s.box.At(b).letter
  {
    OwnKept(s, c, s');
    OtherKept(s, c, s');
    forall b: Cpu | s.box.At(b).status == NotRead ensures s'.box.At(b).letter == s.box.At(b).letter {
      NotOverwritten(s, c, s', b);
    }
  }

  ghost predicate Run(ss: seq<State>, cs: seq<Cpu>) {
    && |ss| == |cs| + 1 && Init(ss[0])
    && forall i :: 0 <= i < |cs| ==> Step(ss[i], cs[i], ss[i + 1])
  }

  lemma {:induction false} RunKeeps(ss: seq<State>, cs: seq<Cpu>, k: nat)
    requires Run(ss, cs) && k <= |cs|
    ensures Inv(ss[k])
  {
    if k > 0 {
      RunKeeps(ss, cs, k - 1);
      StepKeeps(ss[k - 1], cs[k - 1], ss[k]);
    }
  }

  /**
   Over every interleaving: at most one CPU is in a critical section, each box has been sent what was
   pulled from it and the one pending letter, if any, and no unread letter is overwritten.
   */
  lemma RunSafe(ss: seq<State>, cs: seq<Cpu>, k: nat)
    requires Run(ss, cs) && k <= |cs|
    ensures !(Critical(ss[k].pc.of0) && Critical(ss[k].pc.of1))
    ensures Conserved(ss[k], Cpu0) && Conserved(ss[k], Cpu1)
    ensures k < |cs| ==> forall b: Cpu :: ss[k].box.At(b).status == NotRead ==>
              ss[k + 1].box.At(b).letter == ss[k].box.At(b).letter
  {
    RunKeeps(ss, cs, k);
    if k < |cs| {
      StepKeeps(ss[k], cs[k], ss[k + 1]);
    }
  }

  // ---------- when a push ends ----------

  /** CPU `c` has the lock and a letter for a box with that status. */
  ghost predicate Pushing(s: State, c: Cpu, status: Status) {
    s.pc.At(c).PushSpin? && s.box.At(Other(c)).status == status
  }

  lemma StuckStep(s: State, c: Cpu, who: Cpu, s': State)
    requires Inv(s) && Pushing(s, c, NotRead) && Step(s, who, s')
    ensures Pushing(s', c, NotRead) && s'.pc.At(c) == s.pc.At(c) && s'.box == s.box
  {
  }

  /** A push that takes the lock while the last letter is unread never ends, whatever the other CPU does. */
  lemma {:induction false} StuckForever(ss: seq<State>, cs: seq<Cpu>, c: Cpu, k: nat, n: nat)
    requires Run(ss, cs) && k <= n <= |cs| && Pushing(ss[k], c, NotRead)
    ensures Pushing(ss[n], c, NotRead) && ss[n].pc.At(c) == ss[k].pc.At(c) && ss[n].box == ss[k].box
    decreases n - k
  {
    if k < n {
      hide Pushing;
      RunKeeps(ss, cs, k);
      StuckStep(ss[k], c, cs[k], ss[k + 1]);
      StuckForever(ss, cs, c, k + 1, n);
    }
  }

  lemma RunLength(ss: seq<State>, cs: seq<Cpu>)
    requires Run(ss, cs)
    ensures |ss| == |cs| + 1
  {
  }

  lemma RunOn(ss: seq<State>, cs: seq<Cpu>, c: Cpu, s: State)
    requires Run(ss, cs) && Step(ss[|cs|], c, s)
    ensures Run(ss + [s], cs + [c])
  {
    hide Step;
    var ss', cs' := ss + [s], cs + [c];
    forall i | 0 <= i < |cs'| ensures Step(ss'[i], cs'[i], ss'[i + 1]) {
      if i < |cs| {
        assert Step(ss[i], cs[i], ss[i + 1]);
      }
    }
  }

  /** The state in which CPU 0 has pushed `l`. */
  ghost function OnePushed(l: Letter): State {
    State(Unlocked, PerCpu(Box(Read, Empty), Box(NotRead, l)), PerCpu(Idle, Idle), PerCpu([], [l]), PerCpu([], []))
  }

  lemma FirstPush(l: Letter) returns (ss: seq<State>, cs: seq<Cpu>)
    ensures Run(ss, cs) && |cs| == 6 && ss[6] == OnePushed(l)
  {
    var s0 := State(Unlocked, PerCpu(Box(Read, Empty), Box(Read, Empty)), PerCpu(Idle, Idle), PerCpu([], []),
                    PerCpu([], []));
    var s1 := s0.(pc := s0.pc.With(Cpu0, PushAcquire(l)));
    var s2 := s1.(lock := HeldBy(Cpu0), pc := s1.pc.With(Cpu0, PushSpin(l)));
    var s3 := s2.(pc := s2.pc.With(Cpu0, PushLetter(l)));
    var s4 := s3.(box := s3.box.With(Cpu1, Box(Read, l)), pc := s3.pc.With(Cpu0, PushStatus(l)));
    var s5 := s4.(box := s4.box.With(Cpu1, Box(NotRead, l)), pc := s4.pc.With(Cpu0, PushRelease),
                  pushed := s4.pushed.With(Cpu1, [] + [l]));
    var s6 := s5.(lock := Unlocked, pc := s5.pc.With(Cpu0, Idle));
    ss := [s0, s1, s2, s3, s4, s5, s6];
    cs := seq(6, i => Cpu0);
    assert [] + [l] == [l];
    assert Step(s0, Cpu0, s1) && Step(s1, Cpu0, s2) && Step(s2, Cpu0, s3);
    assert Step(s3, Cpu0, s4) && Step(s4, Cpu0, s5) && Step(s5, Cpu0, s6);
  }

  /** A CPU that pushes twice gets there. */
  lemma SecondPushStuck(l: Letter) returns (ss: seq<State>, cs: seq<Cpu>)
    ensures Run(ss, cs) && |cs| == 8 && Pushing(ss[8], Cpu0, NotRead)
  {
    ss, cs := FirstPush(l);
    var s := ss[6];
    var s1 := s.(pc := s.pc.With(Cpu0, PushAcquire(l)));
    var s2 := s1.(lock := HeldBy(Cpu0), pc := s1.pc.With(Cpu0, PushSpin(l)));
    assert Step(s, Cpu0, s1) && Step(s1, Cpu0, s2);
    hide Run, Step;
    RunOn(ss, cs, Cpu0, s1);
    ss, cs := ss + [s1], cs + [Cpu0];
    RunLength(ss, cs);
    RunOn(ss, cs, Cpu0, s2);
    ss, cs := ss + [s2], cs + [Cpu0];
  }

  /** How many of the accesses are CPU `c`'s. */
  function Accesses(cs: seq<Cpu>, c: Cpu): (n: nat)
    ensures n <= |cs|
  {
    if cs == [] then 0 else Accesses(cs[..|cs| - 1], c) + if cs[|cs| - 1] == c then 1 else 0
  }

  lemma AccessesStep(cs: seq<Cpu>, c: Cpu, k: nat, n: nat)
    requires k < n <= |cs|
    ensures Accesses(cs[k..n], c) == Accesses(cs[k..n - 1], c) + if cs[n - 1] == c then 1 else 0
  {
    assert cs[k..n][..n - 1 - k] == cs[k..n - 1];
  }

  lemma RunStep(ss: seq<State>, cs: seq<Cpu>, i: nat)
    requires Run(ss, cs) && i < |cs|
    ensures |ss| == |cs| + 1 && Step(ss[i], cs[i], ss[i + 1]) && Inv(ss[i])
  {
    RunKeeps(ss, cs, i);
  }

  /**
   A push of `l` that found the box read, after `j` more of its own accesses; `sent` is what the box
   had been sent before.
   */
  ghost predicate Delivering(s: State, c: Cpu, l: Letter, sent: seq<Letter>, j: nat) {
    var pc := s.pc.At(c);
    && s.pushed.At(Other(c)) == (if j < 3 then sent else sent + [l])
    && match j
       case 0 => pc == PushSpin(l) && s.box.At(Other(c)).status == Read
       case 1 => pc == PushLetter(l)
       case 2 => pc == PushStatus(l)
       case 3 => pc == PushRelease
       case _ => pc == Idle && s.lock == Unlocked
  }

  lemma DeliveryStart(s: State, cs: seq<Cpu>, c: Cpu, k: nat)
    requires Pushing(s, c, Read) && k <= |cs|
    ensures Accesses(cs[k..k], c) == 0 && Delivering(s, c, s.pc.At(c).l, s.pushed.At(Other(c)), 0)
  {
  }

  /** The push's own accesses take it further, those of the other CPU do not disturb it. */
  lemma DeliveryStep(s: State, c: Cpu, who: Cpu, s': State, l: Letter, sent: seq<Letter>, j: nat)
    requires Inv(s) && Step(s, who, s') && Delivering(s, c, l, sent, j) && j < 4
    ensures Delivering(s', c, l, sent, if who == c then j + 1 else j)
  {
  }

  /** A push that takes the lock while the last letter is read delivers its letter with its fourth access. */
  lemma {:induction false} Delivery(ss: seq<State>, cs: seq<Cpu>, c: Cpu, k: nat, n: nat)
    requires Run(ss, cs) && k <= n <= |cs| && Pushing(ss[k], c, Read)
    requires Accesses(cs[k..n], c) < 4 || (Accesses(cs[k..n], c) == 4 && cs[n - 1] == c)
    ensures Delivering(ss[n], c, ss[k].pc.At(c).l, ss[k].pushed.At(Other(c)), Accesses(cs[k..n], c))
    decreases n
  {
    hide Run, Accesses, Delivering, Step, Inv;
    RunLength(ss, cs);
    if k == n {
      DeliveryStart(ss[k], cs, c, k);
    } else {
      AccessesStep(cs, c, k, n);
      Delivery(ss, cs, c, k, n - 1);
      RunStep(ss, cs, n - 1);
      var l, sent := ss[k].pc.At(c).l, ss[k].pushed.At(Other(c));
      DeliveryStep(ss[n - 1], c, cs[n - 1], ss[n], l, sent, Accesses(cs[k..n - 1], c));
    }
  }

  /** A stuck push sends nothing. */
  lemma {:induction false} SentSame(ss: seq<State>, cs: seq<Cpu>, c: Cpu, k: nat, n: nat)
    requires Run(ss, cs) && k <= n <= |cs| && Pushing(ss[k], c, NotRead)
    ensures ss[n].pushed.At(Other(c)) == ss[k].pushed.At(Other(c))
    decreases n
  {
    if k < n {
      SentSame(ss, cs, c, k, n - 1);
      StuckForever(ss, cs, c, k, n - 1);
    }
  }

  /**
   With the fourth access after the lock, a push has returned, the lock is free and its letter is the
   last one sent, exactly when the box was read as the lock was taken; otherwise it still holds the
   lock and never gets further.
   */
  lemma PushEndsIff(ss: seq<State>, cs: seq<Cpu>, c: Cpu, k: nat, n: nat)
    requires Run(ss, cs) && k < n <= |cs| && ss[k].pc.At(c).PushSpin?
    requires Accesses(cs[k..n], c) == 4 && cs[n - 1] == c
    ensures var l, to := ss[k].pc.At(c).l, Other(c);
            && (ss[k].box.At(to).status == Read <==> ss[n].pc.At(c) == Idle)
            && (ss[k].box.At(to).status == Read <==> ss[n].pushed.At(to) == ss[k].pushed.At(to) + [l])
            && (ss[k].box.At(to).status == Read <==> ss[n].lock == Unlocked)
            && (ss[k].box.At(to).status == NotRead ==> ss[n].pc.At(c) == PushSpin(l) && ss[n].lock == HeldBy(c))
  {
    if ss[k].box.At(Other(c)).status == Read {
      Delivery(ss, cs, c, k, n);
    } else {
      StuckForever(ss, cs, c, k, n);
      RunKeeps(ss, cs, k);
      RunKeeps(ss, cs, n);
      SentSame(ss, cs, c, k, n);
    }
  }

  lemma WaitStep(s: State, c: Cpu, who: Cpu, s': State)
    requires Inv(s) && Step(s, who, s') && s.pc.At(c).PushAcquire? && s.box.At(Other(c)).status == Read
    ensures s'.pc.At(c) == s.pc.At(c) || s'.pc.At(c) == PushSpin(s.pc.At(c).l)
    ensures s'.box.At(Other(c)).status == Read && s'.pushed.At(Other(c)) == s.pushed.At(Other(c))
  {
  }

  /** Only the pusher makes its box unread: one that is read when push_mail is called is read when the lock is taken. */
  lemma {:induction false} StaysRead(ss: seq<State>, cs: seq<Cpu>, c: Cpu, k: nat, m: nat)
    requires Run(ss, cs) && k < m <= |cs| && forall i :: k <= i < m ==> ss[i].pc.At(c).PushAcquire?
    requires ss[m].pc.At(c).PushSpin? && ss[k].box.At(Other(c)).status == Read
    ensures Pushing(ss[m], c, Read) && ss[m].pc.At(c).l == ss[k].pc.At(c).l
    ensures ss[m].pushed.At(Other(c)) == ss[k].pushed.At(Other(c))
    decreases m - k
  {
    hide Inv, Step;
    RunKeeps(ss, cs, k);
    WaitStep(ss[k], c, cs[k], ss[k + 1]);
    if k + 1 < m {
      StaysRead(ss, cs, c, k + 1, m);
    }
  }

  /** So a caller that sees its box read may push: the letter is delivered four accesses after the lock is taken. */
  lemma CallDelivers(ss: seq<State>, cs: seq<Cpu>, c: Cpu, k: nat, m: nat, n: nat)
    requires Run(ss, cs) && k < m < n <= |cs| && forall i :: k <= i < m ==> ss[i].pc.At(c).PushAcquire?
    requires ss[m].pc.At(c).PushSpin? && ss[k].box.At(Other(c)).status == Read
    requires Accesses(cs[m..n], c) == 4 && cs[n - 1] == c
    ensures ss[n].pc.At(c) == Idle && ss[n].pushed.At(Other(c)) == ss[k].pushed.At(Other(c)) + [ss[k].pc.At(c).l]
  {
    StaysRead(ss, cs, c, k, m);
    PushEndsIff(ss, cs, c, m, n);
  }

  // ---------- what a pull returns ----------

  /**
   A pull of the box that was `b` as it took the lock, after `j` more of its own accesses; `got` is what
   had been pulled before. PullRelease holds the letter that pull_mail returns.
   */
  ghost predicate Taking(s: State, c: Cpu, b: Box, got: seq<Letter>, j: nat) {
    var pc, own := s.pc.At(c), s.box.At(c);
    if b.status == Read then
      && own == b && s.pulled.At(c) == got
      && match j
         case 0 => pc == PullCheck
         case 1 => pc == PullRelease(Empty)
         case _ => pc == Idle && s.lock == Unlocked
    else
      && own == (if j < 3 then b else b.(status := Read))
      && s.pulled.At(c) == (if j < 3 then got else got + [b.letter])
      && match j
         case 0 => pc == PullCheck
         case 1 => pc == PullLetter
         case 2 => pc == PullStatus(b.letter)
         case 3 => pc == PullRelease(b.letter)
         case _ => pc == Idle && s.lock == Unlocked
  }

  /** The accesses that a pull takes once it has the lock. */
  function PullAccesses(b: Box): nat {
    if b.status == Read then 2 else 4
  }

  lemma TakingStart(s: State, cs: seq<Cpu>, c: Cpu, k: nat)
    requires s.pc.At(c).PullCheck? && k <= |cs|
    ensures Accesses(cs[k..k], c) == 0 && Taking(s, c, s.box.At(c), s.pulled.At(c), 0)
  {
  }

  /** The pull's own accesses take it further, those of the other CPU do not disturb it. */
  lemma TakingStep(s: State, c: Cpu, who: Cpu, s': State, b: Box, got: seq<Letter>, j: nat)
    requires Inv(s) && Step(s, who, s') && Taking(s, c, b, got, j) && j < PullAccesses(b)
    ensures Taking(s', c, b, got, if who == c then j + 1 else j)
  {
  }

  /** After a pull has taken the lock, each of its accesses takes it one place further. */
  lemma {:induction false} PullStages(ss: seq<State>, cs: seq<Cpu>, c: Cpu, k: nat, n: nat)
    requires Run(ss, cs) && k <= n <= |cs| && ss[k].pc.At(c).PullCheck?
    requires var j, all := Accesses(cs[k..n], c), PullAccesses(ss[k].box.At(c)); j < all || (j == all && cs[n - 1] == c)
    ensures Taking(ss[n], c, ss[k].box.At(c), ss[k].pulled.At(c), Accesses(cs[k..n], c))
    decreases n
  {
    hide Run, Accesses, Taking, Step, Inv;
    RunLength(ss, cs);
    if k == n {
      TakingStart(ss[k], cs, c, k);
    } else {
      AccessesStep(cs, c, k, n);
      PullStages(ss, cs, c, k, n - 1);
      RunStep(ss, cs, n - 1);
      TakingStep(ss[n - 1], c, cs[n - 1], ss[n], ss[k].box.At(c), ss[k].pulled.At(c), Accesses(cs[k..n - 1], c));
    }
  }

  /**
   A pull ends, with its second or fourth access after the lock, whatever the other CPU does: it returns
   the letter of the box as the lock was taken, which is then the last one pulled, or EMPTY if the box
   was read; the box is read and the lock is free.
   */
  lemma PullReturns(ss: seq<State>, cs: seq<Cpu>, c: Cpu, k: nat, n: nat)
    requires Run(ss, cs) && k < n <= |cs| && ss[k].pc.At(c).PullCheck? && cs[n - 1] == c
    requires Accesses(cs[k..n], c) == if ss[k].box.At(c).status == Read then 2 else 4
    ensures var b, got := ss[k].box.At(c), ss[k].pulled.At(c);
            && ss[n - 1].pc.At(c) == PullRelease(if b.status == Read then Empty else b.letter)
            && ss[n].pc.At(c) == Idle && ss[n].lock == Unlocked && ss[n].box.At(c).status == Read
            && ss[n].pulled.At(c) == if b.status == Read then got else got + [b.letter]
  {
    hide Run, Accesses, Step, Inv;
    RunLength(ss, cs);
    PullStages(ss, cs, c, k, n);
    AccessesStep(cs, c, k, n);
    PullStages(ss, cs, c, k, n - 1);
  }

  /** A run in which CPU 1 pulls what CPU 0 has pushed. */
  lemma Exchange(l: Letter) returns (ss: seq<State>, cs: seq<Cpu>)
    ensures Run(ss, cs) && |cs| == 12 && ss[11].pc.At(Cpu1) == PullRelease(l)
    ensures ss[12].pc == PerCpu(Idle, Idle) && ss[12].lock == Unlocked && ss[12].pulled.At(Cpu1) == [l]
  {
    ss, cs := FirstPush(l);
    var s := ss[6];
    var s1 := s.(pc := s.pc.With(Cpu1, PullAcquire));
    var s2 := s1.(lock := HeldBy(Cpu1), pc := s1.pc.With(Cpu1, PullCheck));
    var s3 := s2.(pc := s2.pc.With(Cpu1, PullLetter));
    var s4 := s3.(pc := s3.pc.With(Cpu1, PullStatus(l)));
    var s5 := s4.(box := s4.box.With(Cpu1, Box(Read, l)), pc := s4.pc.With(Cpu1, PullRelease(l)),
                  pulled := s4.pulled.With(Cpu1, [] + [l]));
    var s6 := s5.(lock := Unlocked, pc := s5.pc.With(Cpu1, Idle));
    assert Step(s, Cpu1, s1) && Step(s1, Cpu1, s2) && Step(s2, Cpu1, s3);
    assert Step(s3, Cpu1, s4) && Step(s4, Cpu1, s5) && Step(s5, Cpu1, s6);
    hide Run, Step;
    var next, i := [s, s1, s2, s3, s4, s5, s6], 0;
    while i < 6
      invariant 0 <= i <= 6 && |cs| == 6 + i && |ss| == 7 + i && Run(ss, cs) && ss[6 + i] == next[i]
      invariant i == 6 ==> ss[11] == s5
    {
      assert Step(next[i], Cpu1, next[i + 1]);
      RunOn(ss, cs, Cpu1, next[i + 1]);
      ss, cs := ss + [next[i + 1]], cs + [Cpu1];
      i := i + 1;
    }
  }

  lemma HistoryStep(s: State, who: Cpu, s': State, b: Cpu)
    requires Step(s, who, s')
    ensures s.pushed.At(b) <= s'.pushed.At(b) && s.pulled.At(b) <= s'.pulled.At(b)
  {
  }

  lemma {:induction false} HistoriesGrow(ss: seq<State>, cs: seq<Cpu>, b: Cpu, k: nat, n: nat)
    requires Run(ss, cs) && k <= n <= |cs|
    ensures ss[k].pushed.At(b) <= ss[n].pushed.At(b) && ss[k].pulled.At(b) <= ss[n].pulled.At(b)
    decreases n - k
  {
    if k < n {
      HistoryStep(ss[k], cs[k], ss[k + 1], b);
      HistoriesGrow(ss, cs, b, k + 1, n);
    }
  }

  /**
   A letter reaches the other CPU: pushed into a box that was read at the lock, it is what the next
   pull of that box returns, whenever it comes.
   */
  lemma LetterArrives(ss: seq<State>, cs: seq<Cpu>, c: Cpu, k: nat, n: nat, p: nat, q: nat)
    requires Run(ss, cs) && k < n <= p < q <= |cs| && Pushing(ss[k], c, Read)
    requires Accesses(cs[k..n], c) == 4 && cs[n - 1] == c
    requires var to := Other(c);
             && ss[p].pc.At(to).PullCheck? && ss[p].pulled.At(to) == ss[k].pulled.At(to)
             && cs[q - 1] == to && Accesses(cs[p..q], to) == if ss[p].box.At(to).status == Read then 2 else 4
    ensures ss[q - 1].pc.At(Other(c)) == PullRelease(ss[k].pc.At(c).l) && ss[q].pc.At(Other(c)) == Idle
  {
    var to, l := Other(c), ss[k].pc.At(c).l;
    PushEndsIff(ss, cs, c, k, n);
    HistoriesGrow(ss, cs, to, n, p);
    RunKeeps(ss, cs, k);
    RunKeeps(ss, cs, p);
    assert ss[k].pushed.At(to) == ss[k].pulled.At(to);
    assert ss[p].box.At(to) == Box(NotRead, l) by {
      assert (ss[k].pushed.At(to) + [l])[|ss[k].pushed.At(to)|] == l;
    }
    PullReturns(ss, cs, to, p, q);
  }
}
