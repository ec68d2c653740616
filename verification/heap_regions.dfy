/**
 The regions of the lazy heap: the list of their descriptors, where they lie, and what a
 last-in-first-out user does with them (vm_pool.c).
 */
module HeapRegions {
  import opened PageTables
  import opened Paging
  import opened SeqOps

  const HEAP_BASE := 0xC400_0000
  const HEAP_SIZE := 0x400_0000
  const NULL := -1

  /** sizeof(struct region_desc) is 16, so this many descriptors fit in the first page. */
  const DESC_NUM := 256

  /** struct region_desc; a pointer is the number of the descriptor in the page. */
  datatype RegionDesc = RegionDesc(start: nat, size: nat, next: int, prev: int)

  /** What a live descriptor says. */
  datatype Extent = Extent(start: nat, size: nat)

  /** The pages that a size takes. */
  function Pages(size: nat): (n: nat)
    ensures n * PAGE_SIZE >= size && (n > 0 ==> (n - 1) * PAGE_SIZE < size)
  {
    size / PAGE_SIZE + if size % PAGE_SIZE != 0 then 1 else 0
  }

  function Bytes(rs: seq<Extent>): nat {
    if rs == [] then 0 else Bytes(rs[..|rs| - 1]) + PAGE_SIZE * Pages(rs[|rs| - 1].size)
  }

  lemma {:induction false} BytesRemoved(rs: seq<Extent>, i: nat)
    requires i < |rs|
    ensures Bytes(rs) == Bytes(Removed(rs, i)) + PAGE_SIZE * Pages(rs[i].size)
  {
    var n := |rs| - 1;
    if i < n {
      BytesRemoved(rs[..n], i);
      assert Removed(rs, i)[..n - 1] == Removed(rs[..n], i);
    } else {
      assert Removed(rs, i) == rs[..n];
    }
  }

  lemma {:induction false} BytesAligned(rs: seq<Extent>)
    ensures Bytes(rs) % PAGE_SIZE == 0
  {
    if rs != [] {
      BytesAligned(rs[..|rs| - 1]);
    }
  }

  lemma {:induction false} BytesPrefix(rs: seq<Extent>, i: nat)
    requires i < |rs|
    ensures Bytes(rs[..i]) + PAGE_SIZE * Pages(rs[i].size) <= Bytes(rs)
    ensures i + 1 == |rs| ==> Bytes(rs[..i]) + PAGE_SIZE * Pages(rs[i].size) == Bytes(rs)
  {
    if i + 1 < |rs| {
      BytesPrefix(rs[..|rs| - 1], i);
      assert rs[..|rs| - 1][..i] == rs[..i];
    }
  }

  // ---------- the list of descriptors ----------

  predicate Increasing(l: seq<nat>) {
    forall i, j :: 0 <= i < j < |l| ==> l[i] < l[j]
  }

  function NextOf(l: seq<nat>, i: nat): int
    requires i < |l|
  {
    if i + 1 < |l| then l[i + 1] else NULL
  }

  function PrevOf(l: seq<nat>, i: nat): int
    requires i < |l|
  {
    if i > 0 then l[i - 1] else NULL
  }

  /** The links of the i-th descriptor. */
  predicate LinkedAt(l: seq<nat>, d: seq<RegionDesc>, i: nat)
    requires i < |l|
  {
    l[i] < |d| && d[l[i]].next == NextOf(l, i) && d[l[i]].prev == PrevOf(l, i)
  }

  /** The descriptors `l` are linked in this order, which is their order in memory. */
  predicate Listed(l: seq<nat>, d: seq<RegionDesc>) {
    l != [] && l[0] == 0 && Increasing(l) && forall i {:trigger LinkedAt(l, d, i)} :: 0 <= i < |l| ==> LinkedAt(l, d, i)
  }

  function Extents(l: seq<nat>, d: seq<RegionDesc>): (rs: seq<Extent>)
    requires Listed(l, d)
    ensures |rs| == |l| && forall i {:trigger rs[i]} :: 0 <= i < |rs| ==>
              LinkedAt(l, d, i) && rs[i] == Extent(d[l[i]].start, d[l[i]].size)
  {
    seq(|l|, i requires 0 <= i < |l| && LinkedAt(l, d, i) => Extent(d[l[i]].start, d[l[i]].size))
  }

  lemma LastListed(l: seq<nat>, d: seq<RegionDesc>)
    requires Listed(l, d)
    ensures l != [] && l[|l| - 1] < |d| && d[l[|l| - 1]].next == NULL
  {
    assert LinkedAt(l, d, |l| - 1);
  }

  lemma Neighbours(l: seq<nat>, d: seq<RegionDesc>, i: nat)
    requires Listed(l, d) && 0 < i < |l|
    ensures LinkedAt(l, d, i) && l[i - 1] < l[i] < |d| && (i + 1 < |l| ==> l[i] < l[i + 1] < |d|)
    ensures d[l[i]].prev == l[i - 1] && d[l[i]].next == if i + 1 < |l| then l[i + 1] else NULL
    ensures l[|l| - 1] < |d| && (i + 1 < |l| ==> Removed(l, i)[|l| - 2] == l[|l| - 1])
  {
    assert LinkedAt(l, d, |l| - 1);
    assert LinkedAt(l, d, i) && LinkedAt(l, d, i - 1);
    if i + 1 < |l| { assert LinkedAt(l, d, i + 1); }
  }

  lemma Appended(l: seq<nat>, d: seq<RegionDesc>, e: Extent, k: nat, d': seq<RegionDesc>)
    requires Listed(l, d) && k == l[|l| - 1] && k + 1 < |d|
    requires d' == d[k := d[k].(next := k + 1)][k + 1 := RegionDesc(e.start, e.size, NULL, k)]
    ensures Listed(l + [k + 1], d') && Extents(l + [k + 1], d') == Extents(l, d) + [e]
  {
    var r := l + [k + 1];
    forall i | 0 <= i < |r| ensures LinkedAt(r, d', i) {
      if i < |l| {
        assert r[i] == l[i] && LinkedAt(l, d, i);
      }
    }
  }

  lemma UnlinkedAt(l: seq<nat>, d: seq<RegionDesc>, i: nat, d': seq<RegionDesc>, n: nat)
    requires Listed(l, d) && 0 < i < |l| && |d'| == |d| && n < |l| && n != i
    requires LinkedAt(l, d, i) && LinkedAt(l, d, n)
    requires d'[l[n]].next == if l[n] == l[i - 1] then d[l[i]].next else d[l[n]].next
    requires d'[l[n]].prev == if l[n] == d[l[i]].next then d[l[i]].prev else d[l[n]].prev
    ensures LinkedAt(Removed(l, i), d', if n < i then n else n - 1)
  {
    var m := if n < i then n else n - 1;
    var r := Removed(l, i);
    assert r[m] == l[n];
    assert l[n] == l[i - 1] <==> n == i - 1;
    if i + 1 < |l| { assert l[n] == l[i + 1] <==> n == i + 1; }
  }

  lemma Unlinked(l: seq<nat>, d: seq<RegionDesc>, i: nat, d': seq<RegionDesc>)
    requires Listed(l, d) && 0 < i < |l| && |d'| == |d|
    requires LinkedAt(l, d, i)
    requires forall k :: 0 <= k < |d| ==> d'[k].start == d[k].start && d'[k].size == d[k].size
    requires forall k :: 0 <= k < |d| ==> d'[k].next == if k == l[i - 1] then d[l[i]].next else d[k].next
    requires forall k :: 0 <= k < |d| ==> d'[k].prev == if k == d[l[i]].next then d[l[i]].prev else d[k].prev
    ensures Listed(Removed(l, i), d') && Extents(Removed(l, i), d') == Removed(Extents(l, d), i)
  {
    hide NextOf, PrevOf;
    var r := Removed(l, i);
    forall m | 0 <= m < |r| ensures LinkedAt(r, d', m) {
      var n := if m < i then m else m + 1;
      assert LinkedAt(l, d, n);
      UnlinkedAt(l, d, i, d', n);
    }
  }

  // ---------- the regions in the heap ----------

  predicate InHeap(r: Extent) {
    && r.start % PAGE_SIZE == 0 && HEAP_BASE + PAGE_SIZE <= r.start
    && r.start + PAGE_SIZE * Pages(r.size) <= HEAP_BASE + HEAP_SIZE
  }

  /** The first region is the descriptors' page, and all others lie behind it in the heap. */
  predicate Placed(rs: seq<Extent>) {
    rs != [] && rs[0] == Extent(HEAP_BASE, PAGE_SIZE) && forall i :: 1 <= i < |rs| ==> InHeap(rs[i])
  }

  lemma PlacedFirst(rs: seq<Extent>)
    requires Placed(rs)
    ensures rs != [] && rs[0].start == HEAP_BASE
  {
  }

  lemma NewExtent(rs: seq<Extent>, e: Extent)
    requires Placed(rs) && e.start == HEAP_BASE + Bytes(rs) && Bytes(rs) >= PAGE_SIZE
    requires Bytes(rs) + PAGE_SIZE * Pages(e.size) <= HEAP_SIZE
    ensures Placed(rs + [e]) && Bytes(rs + [e]) == Bytes(rs) + PAGE_SIZE * Pages(e.size)
  {
    BytesAligned(rs);
    assert (rs + [e])[..|rs|] == rs;
  }

  lemma FirstRegion(d: seq<RegionDesc>)
    requires d != [] && d[0] == RegionDesc(HEAP_BASE, PAGE_SIZE, NULL, NULL)
    ensures Listed([0], d) && Extents([0], d) == [Extent(HEAP_BASE, PAGE_SIZE)]
    ensures Placed(Extents([0], d)) && Bytes(Extents([0], d)) == PAGE_SIZE
  {
    var rs := Extents([0], d);
    assert rs == [Extent(HEAP_BASE, PAGE_SIZE)] && rs[..0] == [];
  }

  lemma Shrunk(rs: seq<Extent>, i: nat)
    requires Placed(rs) && i < |rs| && rs[i].start != HEAP_BASE
    ensures 0 < i && InHeap(rs[i]) && Placed(Removed(rs, i))
    ensures Bytes(rs) == Bytes(Removed(rs, i)) + PAGE_SIZE * Pages(rs[i].size) && Bytes(Removed(rs, i)) >= PAGE_SIZE
  {
    BytesRemoved(rs, i);
    BytesRemoved(Removed(rs, i), 0);
  }

  ghost predicate Tiled(rs: seq<Extent>) {
    forall i :: 0 <= i < |rs| ==> rs[i].start == HEAP_BASE + Bytes(rs[..i]) && rs[i].size > 0
  }

  lemma TiledAt(rs: seq<Extent>, i: nat)
    requires Tiled(rs) && i < |rs|
    ensures rs[i].start == HEAP_BASE + Bytes(rs[..i])
  {
  }

  /** Live regions that tile the heap do not overlap, and they end where the next one starts. */
  lemma TiledApart(rs: seq<Extent>, i: nat, j: nat)
    requires Tiled(rs) && i < j <= |rs|
    ensures rs[i].start + PAGE_SIZE * Pages(rs[i].size) <= HEAP_BASE + Bytes(rs[..j])
  {
    BytesPrefix(rs[..j], i);
    assert rs[..j][..i] == rs[..i];
  }

  lemma TiledJoin(rs: seq<Extent>, e: Extent)
    requires Tiled(rs) && e.start == HEAP_BASE + Bytes(rs) && e.size > 0
    ensures Tiled(rs + [e])
  {
    hide Bytes;
    var r := rs + [e];
    assert r[..|rs|] == rs;
    forall i | 0 <= i < |r| ensures r[i].start == HEAP_BASE + Bytes(r[..i]) && r[i].size > 0 {
      if i < |rs| {
        assert r[..i] == rs[..i] && r[i] == rs[i];
      }
    }
  }

  lemma TiledPrefix(rs: seq<Extent>, e: Extent)
    requires Tiled(rs + [e])
    ensures Tiled(rs)
  {
    hide Bytes;
    var r := rs + [e];
    forall i | 0 <= i < |rs| ensures rs[i].start == HEAP_BASE + Bytes(rs[..i]) && rs[i].size > 0 {
      assert r[..i] == rs[..i] && r[i] == rs[i];
    }
  }

  /** allocate and a last-in-first-out release keep the tiling. */
  lemma TiledSteps(rs: seq<Extent>, e: Extent)
    requires e.start == HEAP_BASE + Bytes(rs) && e.size > 0
    ensures Tiled(rs) <==> Tiled(rs + [e])
  {
    hide Tiled, Bytes;
    if Tiled(rs) {
      TiledJoin(rs, e);
    } else if Tiled(rs + [e]) {
      TiledPrefix(rs, e);
    }
  }

  lemma LastTiled(rs: seq<Extent>, e: Extent)
    requires Tiled(rs + [e])
    ensures Tiled(rs) && e.start == HEAP_BASE + Bytes(rs) && e.size > 0
  {
    assert (rs + [e])[|rs|] == e && (rs + [e])[..|rs|] == rs;
    TiledSteps(rs, e);
  }

  /** No earlier region starts where the newest one does. */
  lemma LastFound(rs: seq<Extent>, e: Extent)
    requires Tiled(rs) && e.start == HEAP_BASE + Bytes(rs)
    ensures forall j :: 0 <= j < |rs| ==> rs[j].start != e.start
    ensures Removed(rs + [e], |rs|) == rs
  {
    hide Bytes, Pages;
    forall j | 0 <= j < |rs| ensures rs[j].start != e.start {
      TiledApart(rs, j, |rs|);
      assert rs[..|rs|] == rs;
    }
  }

  /** Every region lies in the heap, at a page, and below the end of the live sizes. */
  lemma RegionPlaced(rs: seq<Extent>, i: nat)
    requires Tiled(rs) && Placed(rs) && i < |rs| && Bytes(rs) <= HEAP_SIZE
    ensures rs[i].start % PAGE_SIZE == 0 && HEAP_BASE <= rs[i].start
    ensures rs[i].start + PAGE_SIZE * Pages(rs[i].size) <= HEAP_BASE + Bytes(rs) <= HEAP_BASE + HEAP_SIZE
  {
    hide Bytes, Pages;
    BytesAligned(rs[..i]);
    TiledApart(rs, i, |rs|);
    assert rs[..|rs|] == rs;
  }

  /** Regions from `base` on lie above those before. */
  lemma AboveBase(rs: seq<Extent>, base: nat, i: nat)
    requires Tiled(rs) && Placed(rs) && 0 < base <= i < |rs| && Bytes(rs) <= HEAP_SIZE
    ensures HEAP_BASE <= HEAP_BASE + Bytes(rs[..base]) <= rs[i].start && rs[i].start % PAGE_SIZE == 0
    ensures rs[i].start + PAGE_SIZE * Pages(rs[i].size) <= HEAP_BASE + HEAP_SIZE
  {
    hide Bytes, Pages, Tiled;
    RegionPlaced(rs, i);
    TiledAt(rs, i);
    if base < i {
      TiledAt(rs, base);
      TiledApart(rs, base, i);
    }
  }

  // ---------- a last-in-first-out user ----------

  predicate InRegion(e: Extent, addrs: seq<Word>) {
    forall i :: 0 <= i < |addrs| ==> e.start <= addrs[i] < e.start + PAGE_SIZE * Pages(e.size)
  }

  /** What a user of the heap does: a region is known by its place in the list. */
  datatype HeapOp = Alloc(size: nat) | Access(region: nat, addrs: seq<Word>) | Release

  /** The user has regions from `base` on, keeps within the heap, and releases the newest. */
  predicate Possible(rs: seq<Extent>, op: HeapOp, base: nat) {
    match op
    case Alloc(size) => size > 0 && Bytes(rs) + PAGE_SIZE * Pages(size) <= HEAP_SIZE
    case Access(i, addrs) => base <= i < |rs| && InRegion(rs[i], addrs)
    case Release => base < |rs|
  }

  function After(rs: seq<Extent>, op: HeapOp): seq<Extent> {
    match op
    case Alloc(size) => rs + [Extent(HEAP_BASE + Bytes(rs), size)]
    case Access(_, _) => rs
    case Release => if rs == [] then [] else rs[..|rs| - 1]
  }

  /** The pages that accesses to these addresses touch, and the directory entries above them. */
  function PagesOf(addrs: seq<Word>): set<nat> {
    set i | 0 <= i < |addrs| :: addrs[i] / PAGE_SIZE
  }

  function DirsOf(addrs: seq<Word>): set<nat> {
    set i | 0 <= i < |addrs| :: addrs[i] / 0x100000
  }

  /** The mapped pages after an operation: an access adds its own, a release takes the region's. */
  function PagesAfter(rs: seq<Extent>, pages: set<nat>, op: HeapOp): set<nat> {
    match op
    case Alloc(_) => pages
    case Access(_, addrs) => pages + PagesOf(addrs)
    case Release =>
      if rs == [] then pages
      else pages - Range(rs[|rs| - 1].start / PAGE_SIZE, Pages(rs[|rs| - 1].size))
  }

  function PagesAfterAll(rs: seq<Extent>, pages: set<nat>, ops: seq<HeapOp>): set<nat>
    decreases |ops|
  {
    if ops == [] then pages else PagesAfterAll(After(rs, ops[0]), PagesAfter(rs, pages, ops[0]), ops[1..])
  }

  /** The directory entries that an operation fills. */
  function DirsFilled(op: HeapOp): set<nat> {
    match op
    case Access(_, addrs) => DirsOf(addrs)
    case _ => {}
  }

  function DirsOfAll(ops: seq<HeapOp>): set<nat> {
    if ops == [] then {} else DirsOfAll(ops[..|ops| - 1]) + DirsFilled(ops[|ops| - 1])
  }

  function AfterAll(rs: seq<Extent>, ops: seq<HeapOp>): seq<Extent>
    decreases |ops|
  {
    if ops == [] then rs else AfterAll(After(rs, ops[0]), ops[1..])
  }

  /** Each operation is possible in its turn; `gap` is how far the descriptors' numbers are ahead of the regions'. */
  predicate AllPossible(rs: seq<Extent>, ops: seq<HeapOp>, base: nat, gap: int)
    decreases |ops|
  {
    ops != [] ==>
      && Possible(rs, ops[0], base) && (ops[0].Alloc? ==> gap + |rs| + 1 < DESC_NUM)
      && AllPossible(After(rs, ops[0]), ops[1..], base, gap)
  }

  lemma OpsStep(rs: seq<Extent>, ops: seq<HeapOp>, i: nat, base: nat, gap: int)
    requires i < |ops| && AllPossible(rs, ops[i..], base, gap)
    ensures Possible(rs, ops[i], base) && (ops[i].Alloc? ==> gap + |rs| + 1 < DESC_NUM)
    ensures AllPossible(After(rs, ops[i]), ops[i + 1..], base, gap)
    ensures AfterAll(rs, ops[i..]) == AfterAll(After(rs, ops[i]), ops[i + 1..])
    ensures forall pages :: PagesAfterAll(rs, pages, ops[i..])
                            == PagesAfterAll(After(rs, ops[i]), PagesAfter(rs, pages, ops[i]), ops[i + 1..])
    ensures DirsOfAll(ops[..i + 1]) == DirsOfAll(ops[..i]) + DirsFilled(ops[i])
  {
    hide Possible, After, PagesAfter, DirsFilled;
    assert ops[..i + 1][..i] == ops[..i];
    assert ops[i..][0] == ops[i] && ops[i..][1..] == ops[i + 1..];
  }

  lemma OpsEnds(rs: seq<Extent>, ops: seq<HeapOp>)
    ensures ops[0..] == ops && ops[..|ops|] == ops && AfterAll(rs, ops[|ops|..]) == rs
    ensures DirsOfAll(ops[..0]) == {} && forall pages :: PagesAfterAll(rs, pages, ops[|ops|..]) == pages
  {
  }

  /** What a user may do leaves the first regions where they are. */
  lemma PrefixKept(r: seq<Extent>, rs: seq<Extent>, op: HeapOp)
    requires 0 < |rs| <= |r| && r[..|rs|] == rs && Possible(r, op, |rs|)
    ensures |rs| <= |After(r, op)| && After(r, op)[..|rs|] == rs
  {
  }

  // ---------- releases out of order ----------

  predicate Disjoint(a: Extent, b: Extent) {
    a.start + PAGE_SIZE * Pages(a.size) <= b.start || b.start + PAGE_SIZE * Pages(b.size) <= a.start
  }

  lemma {:induction false} Covering(rs: seq<Extent>, x: nat) returns (m: nat)
    requires x < Bytes(rs)
    ensures m < |rs| && Bytes(rs[..m]) <= x < Bytes(rs[..m]) + PAGE_SIZE * Pages(rs[m].size)
  {
    var n := |rs| - 1;
    if Bytes(rs[..n]) <= x {
      m := n;
    } else {
      m := Covering(rs[..n], x);
      assert rs[..n][..m] == rs[..m];
    }
  }

  /** The place of region `i` of a tiling is free after its release; so is the space behind the last region. */
  lemma FitsInPlace(rs: seq<Extent>, i: nat, k: nat, e: Extent)
    requires Tiled(rs) && i < |rs| && k < |rs| && k != i
    requires rs[i].start <= e.start
    requires i == |rs| - 1 || e.start + PAGE_SIZE * Pages(e.size) <= rs[i].start + PAGE_SIZE * Pages(rs[i].size)
    ensures Disjoint(rs[k], e)
  {
    hide Bytes, Pages;
    if k < i { TiledApart(rs, k, i); } else { TiledApart(rs, i, k); }
  }

  /**
   A region that starts behind region `i` or leaves its place at the end, but starts before the end
   of the tiling, overlaps another.
   */
  lemma LeavesPlace(rs: seq<Extent>, i: nat, e: Extent) returns (k: nat)
    requires Tiled(rs) && i + 1 < |rs| && e.size > 0
    requires rs[i].start <= e.start < HEAP_BASE + Bytes(rs)
    requires e.start + PAGE_SIZE * Pages(e.size) > rs[i].start + PAGE_SIZE * Pages(rs[i].size)
    ensures i < k < |rs| && !Disjoint(rs[k], e)
  {
    hide Bytes, Pages;
    BytesPrefix(rs[..i + 1], i);
    assert rs[..i + 1][..i] == rs[..i];
    k := i + 1;
    if e.start >= rs[i + 1].start {
      k := Covering(rs, e.start - HEAP_BASE);
      if k <= i { TiledApart(rs, k, i + 1); }
    }
  }

  lemma HoleAt(rs: seq<Extent>, i: nat)
    requires Tiled(rs) && i < |rs|
    ensures rs[i].start == HEAP_BASE + Bytes(rs[..i])
    ensures Bytes(Removed(rs, i)) == Bytes(rs) - PAGE_SIZE * Pages(rs[i].size) >= Bytes(rs[..i])
    ensures Bytes(rs[..i + 1]) == Bytes(rs[..i]) + PAGE_SIZE * Pages(rs[i].size) && Pages(rs[i].size) > 0
  {
    hide Bytes;
    BytesRemoved(rs, i);
    BytesPrefix(rs, i);
    BytesPrefix(rs[..i + 1], i);
    assert rs[..i + 1][..i] == rs[..i];
  }

  /**
   After a release the next region starts where the live sizes end. It is clear of all live regions
   exactly when the released region was the last one, or the regions behind it and the new one fit
   together in its place.
   */
  lemma NextIsClear(rs: seq<Extent>, i: nat, size: nat)
    requires Tiled(rs) && i < |rs| && size > 0
    ensures var left := Removed(rs, i);
            (forall k :: 0 <= k < |left| ==> Disjoint(left[k], Extent(HEAP_BASE + Bytes(left), size)))
            <==> i == |rs| - 1
                 || Bytes(rs) - Bytes(rs[..i + 1]) + PAGE_SIZE * Pages(size) <= PAGE_SIZE * Pages(rs[i].size)
  {
    hide Bytes, Pages, Removed, Tiled, Disjoint;
    var left := Removed(rs, i);
    var e := Extent(HEAP_BASE + Bytes(left), size);
    HoleAt(rs, i);
    if i == |rs| - 1 || Bytes(rs) - Bytes(rs[..i + 1]) + PAGE_SIZE * Pages(size) <= PAGE_SIZE * Pages(rs[i].size) {
      forall k | 0 <= k < |left| ensures Disjoint(left[k], e) {
        FitsInPlace(rs, i, if k < i then k else k + 1, e);
      }
    } else {
      var k := LeavesPlace(rs, i, e);
      assert left[k - 1] == rs[k];
    }
  }

  lemma NewTiled(rs: seq<Extent>, e: Extent)
    requires Tiled(rs) && e.start == HEAP_BASE + Bytes(rs) && e.size == PAGE_SIZE
    ensures Tiled(rs + [e]) && Bytes(rs + [e]) == Bytes(rs) + PAGE_SIZE
  {
    TiledSteps(rs, e);
    assert (rs + [e])[..|rs|] == rs;
  }

  /** Equal regions of one page, from the start of the heap on. */
  function OnePagers(n: nat): (rs: seq<Extent>)
    ensures |rs| == n && forall i :: 0 <= i < n ==> rs[i] == Extent(HEAP_BASE + PAGE_SIZE * i, PAGE_SIZE)
  {
    if n == 0 then [] else OnePagers(n - 1) + [Extent(HEAP_BASE + PAGE_SIZE * (n - 1), PAGE_SIZE)]
  }

  lemma {:induction false} OnePagersTiled(n: nat)
    ensures Tiled(OnePagers(n)) && Bytes(OnePagers(n)) == PAGE_SIZE * n
  {
    if n > 0 {
      OnePagersTiled(n - 1);
      NewTiled(OnePagers(n - 1), Extent(HEAP_BASE + PAGE_SIZE * (n - 1), PAGE_SIZE));
    }
  }

  /**
   Three one-page regions behind the descriptors': after the release of the middle one, the next
   region lies on the last.
   */
  lemma OverlapsLast()
    ensures Tiled(OnePagers(4)) && Placed(OnePagers(4))
    ensures var left := Removed(OnePagers(4), 2);
            HEAP_BASE + Bytes(left) == left[2].start && !Disjoint(left[2], Extent(HEAP_BASE + Bytes(left), PAGE_SIZE))
  {
    hide Bytes, Tiled, OnePagers, Removed;
    OnePagersTiled(4);
    BytesRemoved(OnePagers(4), 2);
  }
}
