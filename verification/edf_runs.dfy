/**
 Runs of timer interrupts on the keys of the timer tree: when a timer that waits in the tree fires.
 */
module EdfRuns {
  import opened Edf
  import opened SeqOps

  /**
   What an interrupt finds: the fired timer's task and interval, the place it is requeued at, and
   whether it is a oneshot timer.
   */
  datatype Interrupt = Interrupt(done: bool, interval: nat, place: nat, oneshot: bool)

  /** The keys once update_timer_tree has run. */
  function Requeued(keys: seq<nat>, load: nat, least: nat, e: Interrupt): (s: seq<nat>)
    requires keys != [] && (forall i :: 0 <= i < |keys| ==> keys[i] < U32) && load < U32 && least < U32
    requires e.place < |keys|
    ensures |s| == |keys|
  {
    var r := Rewritten(keys, load, least, e.done, e.interval);
    Inserted(r[1..], e.place, r[0])
  }

  /** A oneshot timer is requeued leftmost, with a key below all others, and then leaves. */
  ghost predicate Overtaken(keys: seq<nat>, load: nat, least: nat, e: Interrupt)
    requires keys != [] && (forall i :: 0 <= i < |keys| ==> keys[i] < U32) && load < U32 && least < U32
    requires e.place < |keys|
  {
    var s := Requeued(keys, load, least, e);
    e.oneshot && e.place == 0 && |s| > 1 && s[0] < s[1]
  }

  /** One interrupt: the least key is programmed, and then a oneshot timer leaves the tree. */
  ghost predicate StepTo(keys: seq<nat>, load: nat, least: nat, e: Interrupt, keys': seq<nat>, load': nat) {
    && Programmed(keys, load) && keys != [] && least < U32 && e.interval < U32 && e.place < |keys|
    && (var r := Rewritten(keys, load, least, e.done, e.interval);
        (e.place > 0 ==> r[e.place] <= r[0]) && (e.place + 1 < |r| ==> r[0] <= r[e.place + 1]))
    && (var s := Requeued(keys, load, least, e);
        load' == s[0] && keys' == if e.oneshot then Removed(s, e.place) else s)
  }

  /** A oneshot timer leaves the tree after the others' part. */
  lemma OneshotStep(keys: seq<nat>, load: nat, least: nat, e: Interrupt, s: seq<nat>, load': nat)
    requires StepTo(keys, load, least, e, s, load') && !e.oneshot
    ensures |s| == |keys| && e.place < |s|
    ensures StepTo(keys, load, least, e.(oneshot := true), Removed(s, e.place), load')
  {
  }

  /** The keys are in order, and no timer is due before the programmed interval is over. */
  ghost predicate Waiting(keys: seq<nat>, load: nat) {
    Programmed(keys, load) && forall i :: 0 <= i < |keys| ==> load <= keys[i]
  }

  lemma StepWaits(keys: seq<nat>, load: nat, least: nat, e: Interrupt, keys': seq<nat>, load': nat)
    requires StepTo(keys, load, least, e, keys', load')
    ensures Waiting(keys', load')
    ensures !e.oneshot || e.place > 0 ==> keys' != []
    ensures keys' != [] ==> (load' == keys'[0] <==> !Overtaken(keys, load, least, e))
  {
    var s := Requeued(keys, load, least, e);
    InterruptKeeps(keys, load, least, e.done, e.interval, e.place);
    if e.oneshot {
      RemovalKeeps(s, load', e.place);
    }
  }

  /** Where the timer at place `j`, not the leftmost, stands after an interrupt. */
  function Moved(e: Interrupt, j: nat): nat
    requires j > 0
  {
    var p := if j <= e.place then j - 1 else j;
    if e.oneshot && p > e.place then p - 1 else p
  }

  lemma TailLeft(keys: seq<nat>, load: nat, j: nat)
    requires Programmed(keys, load) && 0 < j < |keys|
    ensures load <= keys[j] < U32
  {
  }

  /** The keys behind the leftmost are aged, and each stands where Moved says. */
  lemma RequeuedAt(keys: seq<nat>, load: nat, least: nat, e: Interrupt, j: nat)
    requires (forall i :: 0 <= i < |keys| ==> keys[i] < U32) && load < U32 && least < U32
    requires e.place < |keys| && 0 < j < |keys|
    ensures var s := Requeued(keys, load, least, e);
            var p := if j <= e.place then j - 1 else j;
            p < |s| && p != e.place && s[p] == Aged(keys[j], load, least)
  {
    hide Aged, Sub32;
  }

  /** A waiting timer's key goes down by the interval, or to `least` if that is more. */
  lemma {:induction false} StepAges(keys: seq<nat>, load: nat, least: nat, e: Interrupt, keys': seq<nat>, load': nat,
                                    j: nat)
    requires StepTo(keys, load, least, e, keys', load') && 0 < j < |keys|
    ensures load <= keys[j] && Moved(e, j) < |keys'|
    ensures keys'[Moved(e, j)] == if keys[j] - load < least then least else keys[j] - load
  {
    TailLeft(keys, load, j);
    ProgrammedBounds(keys, load);
    RequeuedAt(keys, load, least, e, j);
    hide Requeued, Rewritten, Programmed;
  }

  ghost predicate StepAt(ks: seq<seq<nat>>, loads: seq<nat>, es: seq<Interrupt>, least: nat, i: nat)
    requires i < |es| && |ks| == |loads| == |es| + 1
  {
    StepTo(ks[i], loads[i], least, es[i], ks[i + 1], loads[i + 1])
  }

  /** A run of interrupts, with the keys and the programmed intervals before each of them. */
  ghost predicate Run(ks: seq<seq<nat>>, loads: seq<nat>, es: seq<Interrupt>, least: nat) {
    && |ks| == |loads| == |es| + 1 && Waiting(ks[0], loads[0])
    && forall i {:trigger StepAt(ks, loads, es, least, i)} :: 0 <= i < |es| ==> StepAt(ks, loads, es, least, i)
  }

  lemma RunStep(ks: seq<seq<nat>>, loads: seq<nat>, es: seq<Interrupt>, least: nat, i: nat)
    requires Run(ks, loads, es, least) && i < |es|
    ensures |ks| == |loads| == |es| + 1 && StepTo(ks[i], loads[i], least, es[i], ks[i + 1], loads[i + 1])
  {
    assert StepAt(ks, loads, es, least, i);
  }

  lemma {:induction false} RunWaits(ks: seq<seq<nat>>, loads: seq<nat>, es: seq<Interrupt>, least: nat, n: nat)
    requires Run(ks, loads, es, least) && n <= |es|
    ensures Waiting(ks[n], loads[n])
  {
    if n > 0 {
      RunStep(ks, loads, es, least, n - 1);
      StepWaits(ks[n - 1], loads[n - 1], least, es[n - 1], ks[n], loads[n]);
    }
  }

  /** The time that `n` intervals take. */
  function Time(loads: seq<nat>, n: nat): nat
    requires n <= |loads|
  {
    if n == 0 then 0 else Time(loads, n - 1) + loads[n - 1]
  }

  /** The place after `n` interrupts of the timer at place `j`, until it is leftmost. */
  function PlaceAfter(es: seq<Interrupt>, j: nat, n: nat): nat
    requires n <= |es|
  {
    if n == 0 then j
    else
      var p := PlaceAfter(es, j, n - 1);
      if p == 0 then 0 else Moved(es[n - 1], p)
  }

  /** The timer waits through `n` interrupts. */
  ghost predicate NotYet(es: seq<Interrupt>, j: nat, n: nat)
    requires n <= |es|
  {
    forall i :: 0 <= i < n ==> PlaceAfter(es, j, i) > 0
  }

  /** Within `least` for each of `n` interrupts. */
  predicate Close(tc: nat, x: nat, least: nat, n: nat) {
    tc <= x <= tc + least * n
  }

  /** One interrupt's share. */
  lemma Aging(tc: nat, key: nat, time: nat, load: nat, least: nat, n: nat, key': nat)
    requires Close(tc, key + time, least, n) && load <= key
    requires key' == if key - load < least then least else key - load
    ensures Close(tc, key' + (time + load), least, n + 1)
  {
    assert least * (n + 1) == least * n + least;
  }

  lemma NoneYet(es: seq<Interrupt>, loads: seq<nat>, j: nat, tc: nat, least: nat)
    ensures PlaceAfter(es, j, 0) == j && Time(loads, 0) == 0 && Close(tc, tc + Time(loads, 0), least, 0)
  {
  }

  lemma OneMore(es: seq<Interrupt>, loads: seq<nat>, j: nat, n: nat)
    requires 0 < n <= |es| && |loads| == |es| + 1 && NotYet(es, j, n)
    ensures NotYet(es, j, n - 1) && PlaceAfter(es, j, n - 1) > 0
    ensures PlaceAfter(es, j, n) == Moved(es[n - 1], PlaceAfter(es, j, n - 1))
    ensures Time(loads, n) == Time(loads, n - 1) + loads[n - 1]
  {
    hide Moved;
  }

  lemma RunSizes(ks: seq<seq<nat>>, loads: seq<nat>, es: seq<Interrupt>, least: nat)
    requires Run(ks, loads, es, least)
    ensures |ks| == |loads| == |es| + 1
  {
  }

  /** While a timer waits, its key and the time that has gone make up its first key, up to `least` an interrupt. */
  lemma {:induction false} KeyAndTime(ks: seq<seq<nat>>, loads: seq<nat>, es: seq<Interrupt>, least: nat, j: nat,
                                      n: nat)
    requires Run(ks, loads, es, least) && j < |ks[0]| && n <= |es| && NotYet(es, j, n)
    ensures PlaceAfter(es, j, n) < |ks[n]|
    ensures Close(ks[0][j], ks[n][PlaceAfter(es, j, n)] + Time(loads, n), least, n)
  {
    hide Run, StepTo, Moved, Close, PlaceAfter, NotYet, Time, StepAt;
    RunSizes(ks, loads, es, least);
    if n == 0 {
      NoneYet(es, loads, j, ks[0][j], least);
    } else {
      OneMore(es, loads, j, n);
      KeyAndTime(ks, loads, es, least, j, n - 1);
      RunStep(ks, loads, es, least, n - 1);
      var p := PlaceAfter(es, j, n - 1);
      var key := ks[n - 1][p];
      StepAges(ks[n - 1], loads[n - 1], least, es[n - 1], ks[n], loads[n], p);
      Aging(ks[0][j], key, Time(loads, n - 1), loads[n - 1], least, n - 1, ks[n][PlaceAfter(es, j, n)]);
    }
  }

  /**
   When a waiting timer becomes leftmost after `m` interrupts, the next one is its own. It is late by
   at most `least` an interrupt, and early by no more than its key is above the programmed interval.
   */
  lemma FiresWithin(ks: seq<seq<nat>>, loads: seq<nat>, es: seq<Interrupt>, least: nat, j: nat, m: nat)
    requires Run(ks, loads, es, least) && j < |ks[0]| && m <= |es| && NotYet(es, j, m) && PlaceAfter(es, j, m) == 0
    ensures ks[m] != [] && loads[m] <= ks[m][0]
    ensures ks[0][j] - (ks[m][0] - loads[m]) <= Time(loads, m + 1) <= ks[0][j] + least * m
  {
    KeyAndTime(ks, loads, es, least, j, m);
    RunWaits(ks, loads, es, least, m);
  }

  /** The last interrupt of a run has left the programmed interval short of the leftmost key. */
  ghost predicate CutShort(ks: seq<seq<nat>>, loads: seq<nat>, es: seq<Interrupt>, least: nat, n: nat)
    requires Run(ks, loads, es, least) && 0 < n <= |es|
  {
    RunStep(ks, loads, es, least, n - 1);
    Overtaken(ks[n - 1], loads[n - 1], least, es[n - 1])
  }

  lemma RunLoad(ks: seq<seq<nat>>, loads: seq<nat>, es: seq<Interrupt>, least: nat, n: nat)
    requires Run(ks, loads, es, least) && 0 < n <= |es| && ks[n] != []
    ensures loads[n] == ks[n][0] <==> !CutShort(ks, loads, es, least, n)
  {
    RunStep(ks, loads, es, least, n - 1);
    StepWaits(ks[n - 1], loads[n - 1], least, es[n - 1], ks[n], loads[n]);
  }

  /**
   A waiting timer's interrupt finds ticks left of its key exactly when the interrupt before was that of
   a oneshot timer which was requeued leftmost and then left the tree; if it finds none, the timer
   is not early.
   */
  lemma FiresOnTime(ks: seq<seq<nat>>, loads: seq<nat>, es: seq<Interrupt>, least: nat, j: nat, m: nat)
    requires Run(ks, loads, es, least) && j < |ks[0]| && 0 < m <= |es|
    requires NotYet(es, j, m) && PlaceAfter(es, j, m) == 0
    ensures ks[m] != [] && (loads[m] == ks[m][0] <==> !CutShort(ks, loads, es, least, m))
    ensures !CutShort(ks, loads, es, least, m) ==> ks[0][j] <= Time(loads, m + 1) <= ks[0][j] + least * m
  {
    hide Waiting, StepAt, PlaceAfter, NotYet, Time, CutShort;
    FiresWithin(ks, loads, es, least, j, m);
    RunLoad(ks, loads, es, least, m);
  }

  /** After a oneshot timer whose task is not done, the next timer fires 194 ticks before its time. */
  lemma FiresEarly() returns (ks: seq<seq<nat>>, loads: seq<nat>, es: seq<Interrupt>)
    ensures Run(ks, loads, es, 1) && |es| == 1 && es[0].oneshot && !es[0].done
    ensures ks[0] == [5, 200] && NotYet(es, 1, 1) && PlaceAfter(es, 1, 1) == 0
    ensures Time(loads, 2) == 6 && CutShort(ks, loads, es, 1, 1)
  {
    var e := Interrupt(false, 100, 0, true);
    var r := Rewritten([5, 200], 5, 1, false, 100);
    assert r == [1, 195];
    assert Requeued([5, 200], 5, 1, e) == [1, 195];
    assert Removed([1, 195], 0) == [195];
    ks, loads, es := [[5, 200], [195]], [5, 1], [e];
    assert StepTo([5, 200], 5, 1, e, [195], 1);
    assert Time(loads, 2) == Time(loads, 1) + 1 && Time(loads, 1) == Time(loads, 0) + 5;
    assert PlaceAfter(es, 1, 0) == 1;
  }
}
