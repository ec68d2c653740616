/**
 The keys of the timer tree, in tree order, and what a timer interrupt does to them.
 */
module Edf {
  import opened SeqOps

  const U32 := 0x1_0000_0000

  predicate Sorted(s: seq<nat>) {
    forall i, j :: 0 <= i < j < |s| ==> s[i] <= s[j]
  }

  /** Subtraction of 32-bit words. */
  function Sub32(a: nat, b: nat): (r: nat)
    requires a < U32 && b < U32
    ensures r < U32
  {
    if a >= b then a - b else a + U32 - b
  }

  /** The key of a timer once `elapsed` ticks have passed, never below `least`. */
  function Aged(tc: nat, elapsed: nat, least: nat): (r: nat)
    requires tc < U32 && elapsed < U32 && least < U32
    ensures least <= r < U32
  {
    var temp := Sub32(tc, elapsed);
    if temp < least then least else temp
  }

  /** Subtracting the elapsed ticks moves a key down exactly when that many ticks were left. */
  lemma Sub32Down(tc: nat, elapsed: nat)
    requires tc < U32 && elapsed < U32
    ensures Sub32(tc, elapsed) <= tc <==> elapsed <= tc
  {
  }

  /** The keys after an interrupt: all are aged, except that a finished leftmost timer starts a new interval. */
  function Rewritten(keys: seq<nat>, elapsed: nat, least: nat, done: bool, interval: nat): (r: seq<nat>)
    requires (forall i :: 0 <= i < |keys| ==> keys[i] < U32) && elapsed < U32 && least < U32
    ensures |r| == |keys|
    ensures forall i :: 0 <= i < |r| ==> r[i] == if i == 0 && done then interval else Aged(keys[i], elapsed, least)
  {
    seq(|keys|, i requires 0 <= i < |keys| => if i == 0 && done then interval else Aged(keys[i], elapsed, least))
  }

  /** Rewriting keeps all but the leftmost timer in order when each of them had at least `elapsed` ticks left. */
  lemma RewrittenTail(keys: seq<nat>, elapsed: nat, least: nat, done: bool, interval: nat)
    requires (forall i :: 0 <= i < |keys| ==> keys[i] < U32) && elapsed < U32 && least < U32 && keys != []
    requires Sorted(keys) && forall i :: 1 <= i < |keys| ==> elapsed <= keys[i]
    ensures Sorted(Rewritten(keys, elapsed, least, done, interval)[1..])
  {
    var r := Rewritten(keys, elapsed, least, done, interval);
    forall i, j | 0 <= i < j < |r[1..]| ensures r[1..][i] <= r[1..][j] {
      assert keys[i + 1] <= keys[j + 1];
      assert r[1..][i] == r[i + 1] && r[1..][j] == r[j + 1];
    }
  }

  /** Two keys in order stay in order exactly when both had the elapsed ticks left or both had not. */
  lemma AgedOrder(a: nat, b: nat, elapsed: nat, least: nat)
    requires a <= b < U32 && elapsed + least < U32
    ensures Aged(a, elapsed, least) <= Aged(b, elapsed, least) <==> elapsed <= a || b < elapsed
  {
  }

  /** So the loop keeps all but the leftmost timer in order exactly when none of them, or all of them, are overdue. */
  lemma RewrittenTailIff(keys: seq<nat>, elapsed: nat, least: nat, done: bool, interval: nat)
    requires (forall i :: 0 <= i < |keys| ==> keys[i] < U32) && elapsed + least < U32 && |keys| >= 2 && Sorted(keys)
    ensures Sorted(Rewritten(keys, elapsed, least, done, interval)[1..]) <==>
              elapsed <= keys[1] || keys[|keys| - 1] < elapsed
  {
    hide Aged, Rewritten;
    var r := Rewritten(keys, elapsed, least, done, interval);
    var n := |keys| - 1;
    if Sorted(r[1..]) {
      assert r[1] == r[1..][0] && r[n] == r[1..][n - 1];
      AgedOrder(keys[1], keys[n], elapsed, least);
    } else {
      var i, j :| 0 <= i < j < n && r[1..][i] > r[1..][j];
      assert r[1..][i] == r[i + 1] && r[1..][j] == r[j + 1];
      AgedOrder(keys[i + 1], keys[j + 1], elapsed, least);
    }
  }

  /** insert_timer puts a key after those that are not larger. */
  lemma InsertedSorted(s: seq<nat>, k: nat, x: nat)
    requires Sorted(s) && k <= |s| && (k > 0 ==> s[k - 1] <= x) && (k < |s| ==> x <= s[k])
    ensures Sorted(Inserted(s, k, x))
  {
    var r := Inserted(s, k, x);
    forall i, j | 0 <= i < j < |r| ensures r[i] <= r[j] {
      if i < k && j > k { assert s[i] <= s[j - 1]; }
      if i < k && j == k { assert s[i] <= s[k - 1]; }
      if i == k { assert s[k] <= s[j - 1]; }
      if i > k { assert s[i - 1] <= s[j - 1]; }
    }
  }

  /** What runs of interrupts keep: sorted keys, of which only the leftmost may be below the programmed interval. */
  predicate Programmed(keys: seq<nat>, load: nat) {
    && Sorted(keys) && load < U32
    && (forall i :: 0 <= i < |keys| ==> keys[i] < U32)
    && (forall i :: 1 <= i < |keys| ==> load <= keys[i])
  }

  lemma ProgrammedBounds(keys: seq<nat>, load: nat)
    requires Programmed(keys, load)
    ensures load < U32 && forall i :: 0 <= i < |keys| ==> keys[i] < U32
  {
  }

  /**
   One interrupt keeps it: the keys are rewritten, the leftmost timer goes to its place `k`, and the
   new leftmost key, the smallest, is programmed.
   */
  lemma InterruptKeeps(keys: seq<nat>, load: nat, least: nat, done: bool, interval: nat, k: nat)
    requires Programmed(keys, load) && keys != [] && least < U32 && interval < U32 && k < |keys|
    requires var r := Rewritten(keys, load, least, done, interval);
             (k > 0 ==> r[k] <= r[0]) && (k + 1 < |r| ==> r[0] <= r[k + 1])
    ensures var r := Rewritten(keys, load, least, done, interval);
            var s := Inserted(r[1..], k, r[0]);
            Programmed(s, s[0]) && forall i :: 0 <= i < |s| ==> s[0] <= s[i]
  {
    var r := Rewritten(keys, load, least, done, interval);
    RewrittenTail(keys, load, least, done, interval);
    InsertedSorted(r[1..], k, r[0]);
    var s := Inserted(r[1..], k, r[0]);
    forall i | 0 <= i < |s| ensures s[i] < U32 && s[0] <= s[i] {
      assert s[i] == if i < k then r[i + 1] else if i == k then r[0] else r[i];
    }
  }

  /** Removing a timer that has fired keeps it too. */
  lemma RemovalKeeps(keys: seq<nat>, load: nat, k: nat)
    requires Programmed(keys, load) && k < |keys|
    ensures Programmed(Removed(keys, k), load)
  {
    var r := Removed(keys, k);
    forall i, j | 0 <= i < j < |r| ensures r[i] <= r[j] {
      assert r[i] == keys[if i < k then i else i + 1] && r[j] == keys[if j < k then j else j + 1];
    }
  }

  /**
   Adding a timer between interrupts does not reprogram the hardware. It keeps the condition exactly
   when the timers that it leaves behind the leftmost place have the programmed interval left.
   */
  lemma AdditionKeepsIff(keys: seq<nat>, load: nat, k: nat, x: nat)
    requires Programmed(keys, load) && k <= |keys| && x < U32
    requires (k > 0 ==> keys[k - 1] <= x) && (k < |keys| ==> x <= keys[k])
    ensures Programmed(Inserted(keys, k, x), load) <==> if k == 0 then keys == [] || load <= keys[0] else load <= x
  {
    var r := Inserted(keys, k, x);
    InsertedSorted(keys, k, x);
    if k == 0 && keys != [] {
      assert r[1] == keys[0];
    } else {
      assert r[k] == x;
    }
  }

  /** Otherwise its key wraps round at the next interrupt. */
  lemma ShortTimerWraps()
    ensures Programmed([5, 200], 100) && !Programmed([5, 6, 200], 100)
    ensures Aged(6, 100, 1) > 0xFFFF_FF00
  {
    assert [5, 6, 200][1] == 6;
  }
}
