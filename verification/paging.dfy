/**
 Demand paging as a state machine on values: which heap page holds which frame, and which frames the
 allocator has given out.
 */
module Paging {
  const PAGE_SIZE := 4096
  const HEAP_PAGE := 0xC4000
  const HEAP_PAGE_NUM := 0x4000
  const KERN_FRAME_NUM := 32768
  const HEAP_FRAME_START := 16384
  const HEAP_FRAME_NUM := 16384

  predicate HeapPage(p: nat) {
    HEAP_PAGE <= p < HEAP_PAGE + HEAP_PAGE_NUM
  }

  predicate HeapFrame(f: nat) {
    HEAP_FRAME_START <= f < HEAP_FRAME_START + HEAP_FRAME_NUM
  }

  /** The mapped heap pages with their frames, and the allocated frames. */
  datatype State = State(heap: map<nat, nat>, frames: set<nat>)

  ghost predicate Held(heap: map<nat, nat>, f: nat) {
    exists p: nat :: p in heap && heap[p] == f
  }

  predicate Distinct(heap: map<nat, nat>) {
    forall p: nat, q: nat :: p in heap && q in heap && heap[p] == heap[q] ==> p == q
  }

  /** The mapped heap pages hold distinct heap frames, and those are exactly the allocated heap frames. */
  ghost predicate Inv(s: State) {
    && (forall p: nat :: p in s.heap ==> HeapPage(p) && HeapFrame(s.heap[p]))
    && Distinct(s.heap)
    && (forall f: nat :: f in s.frames <==> f < HEAP_FRAME_START || Held(s.heap, f))
  }

  /** After init_framepool and init_pgt. */
  ghost predicate Init(s: State) {
    s.heap == map[] && forall f: nat :: f in s.frames <==> f < HEAP_FRAME_START
  }

  datatype Event = Fault(page: nat) | Free(page: nat)

  ghost predicate FirstFree(frames: set<nat>, f: nat) {
    f < KERN_FRAME_NUM && f !in frames && forall g: nat :: g < f ==> g in frames
  }

  /** A heap fault takes the first free frame; free_page gives a mapped page's frame back. */
  ghost predicate Step(s: State, e: Event, s': State) {
    HeapPage(e.page) &&
    match e
    case Fault(p) =>
      p !in s.heap && exists f: nat ::
        && FirstFree(s.frames, f) && s' == State(s.heap[p := f], s.frames + {f})
    case Free(p) =>
      s' == State(s.heap - {p}, if p in s.heap then s.frames - {s.heap[p]} else s.frames)
  }

  ghost predicate Run(ss: seq<State>, es: seq<Event>) {
    |ss| == |es| + 1 && Init(ss[0]) && forall i :: 0 <= i < |es| ==> Step(ss[i], es[i], ss[i + 1])
  }

  function Range(a: nat, n: nat): (r: set<nat>)
    ensures |r| == n && forall x :: x in r <==> a <= x < a + n
  {
    if n == 0 then {} else Range(a, n - 1) + {a + n - 1}
  }

  lemma SubsetSize(a: set<nat>, b: set<nat>)
    requires a <= b
    ensures |a| <= |b| && (|a| == |b| ==> a == b)
  {
    assert b == a + (b - a);
  }

  lemma HeldBefore(heap: map<nat, nat>, p: nat, f: nat)
    requires Distinct(heap) && p in heap
    ensures Held(heap - {p}, f) <==> Held(heap, f) && f != heap[p]
  {
    if Held(heap, f) && f != heap[p] {
      var q: nat :| q in heap && heap[q] == f;
      assert q in heap - {p} && (heap - {p})[q] == f;
    }
  }

  lemma HeldAfter(heap: map<nat, nat>, p: nat, f: nat, g: nat)
    requires p !in heap
    ensures Held(heap[p := f], g) <==> g == f || Held(heap, g)
  {
    assert heap[p := f][p] == f;
    if Held(heap, g) {
      var q: nat :| q in heap && heap[q] == g;
      assert q in heap[p := f] && heap[p := f][q] == g;
    }
  }

  lemma NoPages(heap: map<nat, nat>, low: set<nat>, frames: set<nat>)
    requires forall p: nat :: p !in heap
    requires forall f: nat :: f in frames <==> f in low || Held(heap, f)
    ensures |frames| == |low| + |heap|
  {
    assert heap == map[];
    assert frames == low;
  }

  lemma OneLess(heap: map<nat, nat>, low: set<nat>, frames: set<nat>, p: nat)
    requires Distinct(heap) && p in heap && heap[p] !in low
    requires forall f: nat :: f in frames <==> f in low || Held(heap, f)
    ensures Distinct(heap - {p}) && |heap| == |heap - {p}| + 1 && |frames| == |frames - {heap[p]}| + 1
    ensures forall f: nat :: f in frames - {heap[p]} <==> f in low || Held(heap - {p}, f)
  {
    assert Held(heap, heap[p]);
    forall g: nat ensures Held(heap - {p}, g) <==> Held(heap, g) && g != heap[p] { HeldBefore(heap, p, g); }
    assert heap == (heap - {p})[p := heap[p]];
    assert frames == (frames - {heap[p]}) + {heap[p]};
  }

  /** Pages with distinct frames, none of them in `low`, add one frame each. */
  lemma {:induction false} FrameCount(heap: map<nat, nat>, low: set<nat>, frames: set<nat>, first: nat, n: nat)
    requires forall p: nat :: p in heap ==> first <= p < first + n && heap[p] !in low
    requires Distinct(heap)
    requires forall f: nat :: f in frames <==> f in low || Held(heap, f)
    ensures |frames| == |low| + |heap|
  {
    hide Held, Distinct;
    if n == 0 {
      NoPages(heap, low, frames);
    } else {
      var p := first + n - 1;
      if p in heap {
        OneLess(heap, low, frames, p);
        FrameCount(heap - {p}, low, frames - {heap[p]}, first, n - 1);
      } else {
        FrameCount(heap, low, frames, first, n - 1);
      }
    }
  }

  /** There is one allocated heap frame for each mapped page. */
  lemma FramesMatchPages(s: State)
    requires Inv(s)
    ensures |s.frames| == HEAP_FRAME_START + |s.heap|
  {
    FrameCount(s.heap, Range(0, HEAP_FRAME_START), s.frames, HEAP_PAGE, HEAP_PAGE_NUM);
  }

  lemma {:induction false} LeastFree(frames: set<nat>, f: nat) returns (g: nat)
    requires f < KERN_FRAME_NUM && f !in frames
    ensures FirstFree(frames, g)
    decreases f
  {
    if h: nat :| h < f && h !in frames {
      g := LeastFree(frames, h);
    } else {
      g := f;
    }
  }

  /** While a heap page is unmapped a heap frame is free, so get_frame does not fail in handle_fault. */
  lemma NeverDry(s: State, p: nat) returns (f: nat)
    requires Inv(s) && HeapPage(p) && p !in s.heap
    ensures HeapFrame(f) && f !in s.frames && FirstFree(s.frames, f)
  {
    hide Range;
    var pages, all := Range(HEAP_PAGE, HEAP_PAGE_NUM), Range(0, KERN_FRAME_NUM);
    FramesMatchPages(s);
    SubsetSize(s.heap.Keys + {p}, pages);
    if g: nat :| g < KERN_FRAME_NUM && g !in s.frames {
      f := LeastFree(s.frames, g);
    } else {
      SubsetSize(all, s.frames);
      assert false;
    }
  }

  lemma Mapped(s: State, p: nat, f: nat)
    requires Inv(s) && HeapPage(p) && p !in s.heap && HeapFrame(f) && f !in s.frames
    ensures Inv(State(s.heap[p := f], s.frames + {f}))
  {
    forall q: nat | q in s.heap ensures s.heap[q] != f { assert Held(s.heap, s.heap[q]); }
    hide Held;
    forall g: nat { HeldAfter(s.heap, p, f, g); }
  }

  lemma Unmapped(s: State, p: nat)
    requires Inv(s)
    ensures Inv(State(s.heap - {p}, if p in s.heap then s.frames - {s.heap[p]} else s.frames))
  {
    hide Held;
    if p in s.heap {
      forall g: nat { HeldBefore(s.heap, p, g); }
    } else {
      assert s.heap - {p} == s.heap;
    }
  }

  lemma StepKeeps(s: State, e: Event, s': State)
    requires Inv(s) && Step(s, e, s')
    ensures Inv(s')
  {
    match e
    case Fault(p) =>
      var f: nat :| FirstFree(s.frames, f) && s' == State(s.heap[p := f], s.frames + {f});
      var g := NeverDry(s, p);
      assert g == f;
      Mapped(s, p, f);
    case Free(p) =>
      Unmapped(s, p);
  }

  /** The mapped pages decide the allocated frames. */
  lemma SameFrames(s: State, s': State)
    requires Inv(s) && Inv(s') && s.heap == s'.heap
    ensures s.frames == s'.frames
  {
  }

  lemma HeldFrame(s: State, p: nat)
    requires Inv(s) && p in s.heap
    ensures HeapPage(p) && HeapFrame(s.heap[p])
  {
  }

  lemma FaultStep(s: State, p: nat, f: nat)
    requires Inv(s) && HeapPage(p) && p !in s.heap && FirstFree(s.frames, f)
    ensures var s' := State(s.heap[p := f], s.frames + {f}); Step(s, Fault(p), s') && Inv(s') && HeapFrame(f)
  {
    var s' := State(s.heap[p := f], s.frames + {f});
    assert Step(s, Fault(p), s');
    var g := NeverDry(s, p);
    StepKeeps(s, Fault(p), s');
  }

  /** Giving back a frame without unmapping a page keeps the invariant only if no mapped page holds it. */
  lemma OtherFreed(s: State, f: nat)
    requires Inv(s)
    ensures Inv(State(s.heap, if HeapFrame(f) then s.frames - {f} else s.frames)) <==> !Held(s.heap, f)
  {
    if Held(s.heap, f) {
      var p: nat :| p in s.heap && s.heap[p] == f;
      assert HeapFrame(s.heap[p]);
    }
  }

  /**
   Over every run of heap faults on unmapped pages and of free_page: the invariant, and a frame for
   the next fault.
   */
  lemma {:induction false} RunNeverDry(ss: seq<State>, es: seq<Event>, k: nat)
    requires Run(ss, es) && k <= |es|
    ensures Inv(ss[k])
    ensures forall p: nat :: HeapPage(p) && p !in ss[k].heap ==>
              exists f: nat :: HeapFrame(f) && FirstFree(ss[k].frames, f)
  {
    if k > 0 {
      RunNeverDry(ss, es, k - 1);
      StepKeeps(ss[k - 1], es[k - 1], ss[k]);
    }
    forall p | HeapPage(p) && p !in ss[k].heap ensures exists f: nat :: HeapFrame(f) && FirstFree(ss[k].frames, f) {
      var f := NeverDry(ss[k], p);
    }
  }
}
