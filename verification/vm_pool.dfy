/**
 The lazy heap allocator: a list of regions whose descriptors fill the heap's first page (vm_pool.c).
 */
module VmPools {
  import opened HeapRegions
  import opened PageTables
  import opened Paging
  import opened SeqOps

  lemma RangeStep(heap: map<nat, nat>, first: nat, n: nat)
    ensures heap - Range(first, n) - {first + n} == heap - Range(first, n + 1) && heap - Range(first, 0) == heap
  {
    hide Range;
  }

  /** A state with the table `pte`, in which nothing from `addr` on is mapped. */
  ghost predicate Before(s: State, pte: seq<Word>, addr: nat) {
    && Inv(s) && s.heap == HeapOf(pte)
    && forall p: nat :: addr / PAGE_SIZE <= p < HEAP_PAGE + HEAP_PAGE_NUM && p < |pte| ==> pte[p] == 0
  }

  /** The words of a table for the heap's pages below an address, and for all pages outside the heap, are the same. */
  ghost predicate KeptBelow(s: seq<Word>, t: seq<Word>, addr: nat) {
    |s| == |t| && forall p: nat :: p < |s| && (p * PAGE_SIZE < addr || !HeapPage(p)) ==> t[p] == s[p]
  }

  lemma KeptTwice(s: seq<Word>, t: seq<Word>, u: seq<Word>, addr: nat)
    requires KeptBelow(s, t, addr) && KeptBelow(t, u, addr)
    ensures KeptBelow(s, u, addr)
  {
  }

  /** Tables that agree below an address, and are empty from there to the heap's end, are the same. */
  lemma KeptWhole(s: seq<Word>, t: seq<Word>, addr: nat)
    requires KeptBelow(s, t, addr) && addr % PAGE_SIZE == 0
    requires forall p: nat :: addr / PAGE_SIZE <= p < HEAP_PAGE + HEAP_PAGE_NUM && p < |s| ==> s[p] == t[p]
    ensures s == t
  {
  }

  lemma KeptSame(s: seq<Word>, addr: nat)
    ensures KeptBelow(s, s, addr)
  {
  }

  /** The words of a table outside a range of pages are the same. */
  ghost predicate KeptOutside(s: seq<Word>, t: seq<Word>, first: nat, n: nat) {
    |s| == |t| && forall p :: 0 <= p < |s| && !(first <= p < first + n) ==> t[p] == s[p]
  }

  lemma KeptIn(s: seq<Word>, t: seq<Word>, start: nat, n: nat, addr: nat)
    requires KeptOutside(s, t, start / PAGE_SIZE, n) && start % PAGE_SIZE == 0
    requires HEAP_BASE <= addr <= start && start + PAGE_SIZE * n <= HEAP_BASE + HEAP_SIZE
    ensures KeptBelow(s, t, addr)
  {
  }

  lemma KeptZeroed(s: seq<Word>, t: seq<Word>, start: nat, n: nat, addr: nat)
    requires |s| == |t| && start % PAGE_SIZE == 0
    requires forall p :: 0 <= p < |s| ==> t[p] == if 0 <= p - start / PAGE_SIZE < n then 0 else s[p]
    requires HEAP_BASE <= addr <= start && start + PAGE_SIZE * n <= HEAP_BASE + HEAP_SIZE
    ensures KeptBelow(s, t, addr)
  {
  }

  lemma UsedBounded(heap: map<nat, nat>, heap': map<nat, nat>, start: nat, n: nat, end: nat)
    requires heap' - Range(start / PAGE_SIZE, n) == heap - Range(start / PAGE_SIZE, n)
    requires start % PAGE_SIZE == 0 && start + PAGE_SIZE * n <= end
    requires forall p: nat :: p in heap ==> p * PAGE_SIZE < end
    ensures forall p: nat :: p in heap' ==> p * PAGE_SIZE < end
  {
    hide Range;
    forall p: nat | p in heap' ensures p * PAGE_SIZE < end {
      if p !in Range(start / PAGE_SIZE, n) {
        assert p in heap' - Range(start / PAGE_SIZE, n);
        assert p in heap - Range(start / PAGE_SIZE, n);
      }
    }
  }

  lemma KeptStep(s: seq<Word>, t: seq<Word>, t': seq<Word>, p: nat, first: nat, n: nat)
    requires KeptOutside(s, t, first, n) && KeptOutside(t, t', p, 1) && first <= p < first + n
    ensures KeptOutside(s, t', first, n)
  {
  }

  /** All addresses lie in a range of pages. */
  ghost predicate Within(addrs: seq<Word>, first: nat, n: nat) {
    forall i :: 0 <= i < |addrs| ==> first <= addrs[i] / PAGE_SIZE < first + n
  }

  lemma AddrWithin(addrs: seq<Word>, first: nat, n: nat, i: nat)
    requires Within(addrs, first, n) && i < |addrs|
    ensures first <= addrs[i] / PAGE_SIZE < first + n
  {
  }

  /** Accesses map exactly the pages `pages`, and a page that was mapped keeps its frame. */
  ghost predicate Faulted(heap: map<nat, nat>, heap': map<nat, nat>, pages: set<nat>) {
    heap'.Keys == heap.Keys + pages && forall p: nat :: p in heap ==> heap'[p] == heap[p]
  }

  lemma FaultedNext(heap: map<nat, nat>, h: map<nat, nat>, heap': map<nat, nat>, addrs: seq<Word>, i: nat)
    requires i < |addrs| && Faulted(heap, h, PagesOf(addrs[..i])) && Faulted(h, heap', {addrs[i] / PAGE_SIZE})
    ensures Faulted(heap, heap', PagesOf(addrs[..i + 1]))
  {
    var a, b := PagesOf(addrs[..i]), PagesOf(addrs[..i + 1]);
    assert addrs[..i + 1] == addrs[..i] + [addrs[i]];
    forall p ensures p in b <==> p in a || p == addrs[i] / PAGE_SIZE {
      if p in a {
        var j :| 0 <= j < i && addrs[..i][j] / PAGE_SIZE == p;
        assert addrs[..i + 1][j] / PAGE_SIZE == p;
      }
      assert addrs[..i + 1][i] / PAGE_SIZE in b;
    }
    assert b == a + {addrs[i] / PAGE_SIZE};
  }

  lemma DirsNext(s: seq<Word>, t: seq<Word>, u: seq<Word>, addrs: seq<Word>, i: nat)
    requires i < |addrs| && DirFilled(s, t, DirsOf(addrs[..i])) && DirFilled(t, u, {addrs[i] / 0x100000})
    ensures DirFilled(s, u, DirsOf(addrs[..i + 1]))
  {
    var a, b := DirsOf(addrs[..i]), DirsOf(addrs[..i + 1]);
    assert addrs[..i + 1] == addrs[..i] + [addrs[i]];
    forall p ensures p in b <==> p in a || p == addrs[i] / 0x100000 {
      if p in a {
        var j :| 0 <= j < i && addrs[..i][j] / 0x100000 == p;
        assert addrs[..i + 1][j] / 0x100000 == p;
      }
      assert addrs[..i + 1][i] / 0x100000 in b;
    }
    assert b == a + {addrs[i] / 0x100000};
    DirTwice(s, t, u, a, {addrs[i] / 0x100000});
  }

  lemma NothingTouched(addrs: seq<Word>, heap: map<nat, nat>, pde: seq<Word>, pte: seq<Word>, first: nat, n: nat)
    requires |pde| == 4096
    ensures Faulted(heap, heap, PagesOf(addrs[..0])) && DirFilled(pde, pde, DirsOf(addrs[..0]))
    ensures KeptOutside(pte, pte, first, n) && addrs[..|addrs|] == addrs
  {
    assert PagesOf(addrs[..0]) == {} && DirsOf(addrs[..0]) == {};
    DirSame(pde);
  }

  /** Pages that lie in a range leave what lies outside it alone. */
  lemma OutsideRange(heap: map<nat, nat>, heap': map<nat, nat>, addrs: seq<Word>, first: nat, n: nat)
    requires Faulted(heap, heap', PagesOf(addrs)) && Within(addrs, first, n)
    ensures heap' - Range(first, n) == heap - Range(first, n)
  {
    forall p | p in PagesOf(addrs) ensures p in Range(first, n) {
      var i :| 0 <= i < |addrs| && addrs[i] / PAGE_SIZE == p;
    }
    var a, b := heap - Range(first, n), heap' - Range(first, n);
    assert a.Keys == b.Keys;
  }

  lemma OnlyPage(heap: map<nat, nat>, heap': map<nat, nat>, p: nat)
    requires heap == map[] && Faulted(heap, heap', {p})
    ensures heap'.Keys == {p}
  {
  }

  /** A page that is mapped before and after has the same frame. */
  ghost predicate FramesStay(heap: map<nat, nat>, heap': map<nat, nat>) {
    forall p: nat :: p in heap && p in heap' ==> heap'[p] == heap[p]
  }

  lemma FaultedFrames(heap: map<nat, nat>, heap': map<nat, nat>, pages: set<nat>)
    requires Faulted(heap, heap', pages)
    ensures FramesStay(heap, heap') && heap'.Keys == heap.Keys + pages
  {
  }

  lemma FreedFrames(heap: map<nat, nat>, heap': map<nat, nat>, pages: set<nat>)
    requires heap' == heap - pages
    ensures FramesStay(heap, heap') && heap'.Keys == heap.Keys - pages
  {
  }

  lemma AlreadyMapped(heap: map<nat, nat>, p: nat)
    requires p in heap
    ensures Faulted(heap, heap, {p})
  {
  }

  lemma OnePage(heap: map<nat, nat>, p: nat, f: nat)
    requires p !in heap
    ensures Faulted(heap, heap[p := f], {p})
  {
  }

  lemma PagesIn(addrs: seq<Word>, start: nat, n: nat)
    requires start % PAGE_SIZE == 0
    requires forall i :: 0 <= i < |addrs| ==> start <= addrs[i] < start + PAGE_SIZE * n
    ensures Within(addrs, start / PAGE_SIZE, n)
  {
  }

  /** A release writes links alone. */
  predicate OnlyRelinked(d: seq<RegionDesc>, d': seq<RegionDesc>) {
    |d'| == |d| && forall k :: 0 <= k < |d| ==> d'[k].start == d[k].start && d'[k].size == d[k].size
  }

  lemma StillBounded(heap: map<nat, nat>, start: nat, n: nat, total: nat)
    requires start % PAGE_SIZE == 0
    requires forall p: nat :: p in heap ==>
               p * PAGE_SIZE < start + PAGE_SIZE * n && !(start / PAGE_SIZE <= p < start / PAGE_SIZE + n)
    ensures forall p: nat :: p in heap ==> p * PAGE_SIZE < start
  {
  }

  class VmPool {
    const table: PageTable
    const desc: array<RegionDesc>
    var lastRegion: int
    var sizeTotal: nat
    /** The descriptors on the list, in list order. */
    ghost var live: seq<nat>

    ghost predicate Apart() {
      var d: object, bytes: object := desc, table.pool.bitmap;
      d != table.pgd && d != table.pgt && d != bytes
    }

    ghost predicate Linked()
      reads `live, `lastRegion, desc
    {
      desc.Length == DESC_NUM && Listed(live, desc[..]) && lastRegion == live[|live| - 1]
    }

    ghost function Regions(): seq<Extent>
      requires Linked()
      reads `live, `lastRegion, desc
    {
      Extents(live, desc[..])
    }

    /** The list, the total, and every region inside the heap. */
    ghost predicate Valid()
      reads this, desc
    {
      Apart() && Linked() && sizeTotal == Bytes(Regions()) && PAGE_SIZE <= sizeTotal <= HEAP_SIZE && Placed(Regions())
    }

    /** One access to the heap: it faults if the page is not mapped. */
    method Access(addr: Word)
      requires table.Valid() && HeapPage(addr / PAGE_SIZE)
      modifies table.pgd, table.pgt, table.pool.bitmap
      ensures table.Valid() && Faulted(old(table.View().heap), table.View().heap, {addr / PAGE_SIZE})
      ensures KeptOutside(old(table.pgt[..]), table.pgt[..], addr / PAGE_SIZE, 1)
      ensures DirFilled(old(table.pgd[..]), table.pgd[..], {addr / 0x100000})
    {
      hide Inv, Step, PageTable.Translate, TableEntry, DirEntry, Faulted;
      ghost var p, heap := addr / PAGE_SIZE, table.View().heap;
      table.Directory(addr);
      if table.pgt[addr / PAGE_SIZE] == 0 {
        var frame := table.HeapFault(addr);
        OnePage(heap, p, frame);
      } else {
        AlreadyMapped(heap, p);
      }
    }

    /** init_vmpool: its first store faults in the page of the descriptors. */
    constructor (table: PageTable)
      requires table.Valid() && table.View().heap == map[]
      modifies table.pgd, table.pgt, table.pool.bitmap
      ensures Valid() && Regions() == [Extent(HEAP_BASE, PAGE_SIZE)] && sizeTotal == PAGE_SIZE
      ensures this.table == table && table.Valid() && table.View().heap.Keys == {HEAP_PAGE} && fresh(desc)
      ensures DirFilled(old(table.pgd[..]), table.pgd[..], {HEAP_BASE / 0x100000})
      ensures KeptOutside(old(table.pgt[..]), table.pgt[..], HEAP_PAGE, 1)
    {
      this.table := table;
      desc := new RegionDesc[DESC_NUM];
      lastRegion, sizeTotal, live := 0, PAGE_SIZE, [0];
      new;
      hide Listed, Extents, Placed, Bytes, PageTable.Valid, PageTable.View, KeptOutside, Faulted, DirFilled;
      ghost var heap := table.View().heap;
      Access(HEAP_BASE);
      OnlyPage(heap, table.View().heap, HEAP_PAGE);
      desc[0] := RegionDesc(HEAP_BASE, PAGE_SIZE, NULL, NULL);
      FirstRegion(desc[..]);
    }

    /** allocate: the region starts where the live sizes end. */
    method Allocate(size: nat) returns (start: nat)
      requires Valid() && lastRegion + 1 < DESC_NUM && sizeTotal + PAGE_SIZE * Pages(size) <= HEAP_SIZE
      modifies this, desc
      ensures Valid() && start == HEAP_BASE + old(sizeTotal) && sizeTotal == old(sizeTotal) + PAGE_SIZE * Pages(size)
      ensures Regions() == old(Regions()) + [Extent(start, size)]
      ensures 0 < lastRegion == old(lastRegion) + 1 < desc.Length
      ensures desc[lastRegion].start == start && desc[lastRegion].size == size
    {
      hide Bytes, Placed, Listed, Extents;
      ghost var rs, l, d := Regions(), live, desc[..];
      LastListed(l, d);
      var pgnum := Pages(size);
      var last := lastRegion;
      desc[last] := desc[last].(next := last + 1);
      desc[last + 1] := desc[last + 1].(prev := last);
      lastRegion := last + 1;
      desc[last + 1] := desc[last + 1].(start := HEAP_BASE + sizeTotal);
      desc[last + 1] := desc[last + 1].(size := size);
      desc[last + 1] := desc[last + 1].(next := NULL);
      start := HEAP_BASE + sizeTotal;
      Appended(l, d, Extent(start, size), last, desc[..]);
      NewExtent(rs, Extent(start, size));
      live := live + [last + 1];
      sizeTotal := sizeTotal + PAGE_SIZE * pgnum;
    }

    /** The walk of release to the first region that starts at `addr`. */
    method Find(addr: nat) returns (cur: int, ghost i: nat)
      requires Linked()
      ensures i <= |live| && cur == if i < |live| then live[i] else NULL
      ensures i < |live| ==> Regions()[i].start == addr
      ensures forall j :: 0 <= j < i ==> Regions()[j].start != addr
    {
      cur, i := 0, 0;
      while cur != NULL
        invariant i <= |live| && cur == if i < |live| then live[i] else NULL
        invariant forall j :: 0 <= j < i ==> Regions()[j].start != addr
        decreases |live| - i
      {
        assert LinkedAt(live, desc[..], i);
        if desc[cur].start == addr { return; }
        cur := desc[cur].next;
        i := i + 1;
      }
    }

    /** release takes a region off the list; the first one, the descriptors' own, has no predecessor. */
    method Unlink(cur: nat, ghost i: nat)
      requires Linked() && 0 < i < |live| && cur == live[i] && cur < DESC_NUM
      modifies this`live, desc
      ensures desc.Length == DESC_NUM && live == Removed(old(live), i) && Listed(live, desc[..])
      ensures Extents(live, desc[..]) == Removed(old(Regions()), i)
      ensures OnlyRelinked(old(desc[..]), desc[..])
      ensures 0 <= lastRegion < DESC_NUM
              && (desc[lastRegion].start == desc[cur].start || lastRegion == live[|live| - 1])
    {
      hide Listed, Extents, Removed, LinkedAt, NextOf, PrevOf;
      ghost var l, d := live, desc[..];
      Neighbours(l, d, i);
      var prev, next := desc[cur].prev, desc[cur].next;
      desc[prev] := desc[prev].(next := next);
      if next != NULL {
        desc[next] := desc[next].(prev := prev);
      }
      live := Removed(live, i);
      Unlinked(l, d, i, desc[..]);
      if i + 1 == |l| {
        assert lastRegion == cur;
      } else {
        assert live[|l| - 2] == lastRegion && |live| == |l| - 1;
      }
    }

    /** The end of release: when the released region was the last, the last one is looked up. */
    method FindLast(addr: nat)
      requires desc.Length == DESC_NUM && Listed(live, desc[..]) && 0 <= lastRegion < DESC_NUM
      requires desc[lastRegion].start == addr || lastRegion == live[|live| - 1]
      modifies this`lastRegion
      ensures Linked()
    {
      if desc[lastRegion].start == addr {
        lastRegion := 0;
        ghost var i := 0;
        assert LinkedAt(live, desc[..], 0);
        while desc[lastRegion].next != NULL
          invariant i < |live| && lastRegion == live[i] && LinkedAt(live, desc[..], i)
          decreases |live| - i
        {
          lastRegion := desc[lastRegion].next;
          i := i + 1;
          assert LinkedAt(live, desc[..], i);
        }
      }
    }

    /** One round of release's loop. */
    method FreeOne(addr: nat)
      requires table.Valid() && HEAP_BASE <= addr < HEAP_BASE + HEAP_SIZE
      modifies table.pgt, table.pool.bitmap
      ensures table.Valid() && table.View().heap == old(table.View().heap) - {addr / PAGE_SIZE}
      ensures forall p :: 0 <= p < table.pgt.Length ==>
                table.pgt[p] == if p == addr / PAGE_SIZE then 0 else old(table.pgt[p])
    {
      hide Inv, PageTable.Translate, PageTable.View;
      table.Free(addr);
    }

    /** The loop of release. */
    method FreePages(start: nat, pgnum: nat)
      requires table.Valid() && start % PAGE_SIZE == 0
      requires HEAP_BASE <= start && start + PAGE_SIZE * pgnum <= HEAP_BASE + HEAP_SIZE
      modifies table.pgt, table.pool.bitmap
      ensures table.Valid() && table.View().heap == old(table.View().heap) - Range(start / PAGE_SIZE, pgnum)
      ensures forall p :: 0 <= p < table.pgt.Length ==>
                table.pgt[p] == if start / PAGE_SIZE <= p < start / PAGE_SIZE + pgnum then 0 else old(table.pgt[p])
    {
      hide Inv, PageTable.View, Range;
      ghost var first, heap := start / PAGE_SIZE, table.View().heap;
      var i := 0;
      RangeStep(heap, first, 0);
      while i < pgnum
        invariant 0 <= i <= pgnum
        invariant table.Valid() && table.View().heap == heap - Range(first, i)
        invariant forall p :: 0 <= p < table.pgt.Length ==>
                    table.pgt[p] == if first <= p < first + i then 0 else old(table.pgt[p])
      {
        FreeOne(start + PAGE_SIZE * i);
        RangeStep(heap, first, i);
        i := i + 1;
      }
    }

    lemma RegionAt(i: nat)
      requires Linked() && i < |live|
      ensures |Regions()| == |live| && live[i] < desc.Length
              && Regions()[i] == Extent(desc[live[i]].start, desc[live[i]].size)
    {
      assert LinkedAt(live, desc[..], i);
    }

    /** The branch of release that has found the region. */
    method Detach(cur: nat, addr: nat, ghost i: nat)
      requires Valid() && table.Valid() && addr != HEAP_BASE
      requires i < |live| && cur == live[i] && Regions()[i].start == addr
      modifies `sizeTotal, `live, desc, table.pgt, table.pool.bitmap
      ensures table.Valid() && desc.Length == DESC_NUM && Listed(live, desc[..]) && Placed(Extents(live, desc[..]))
      ensures OnlyRelinked(old(desc[..]), desc[..])
      ensures live == Removed(old(live), i) && Extents(live, desc[..]) == Removed(old(Regions()), i)
      ensures PAGE_SIZE <= sizeTotal == Bytes(Extents(live, desc[..]))
      ensures sizeTotal == old(sizeTotal) - PAGE_SIZE * Pages(old(Regions())[i].size)
      ensures 0 <= lastRegion < DESC_NUM && (desc[lastRegion].start == addr || lastRegion == live[|live| - 1])
      ensures table.View().heap == old(table.View().heap) - Range(addr / PAGE_SIZE, Pages(old(Regions())[i].size))
      ensures forall p :: 0 <= p < table.pgt.Length ==>
                table.pgt[p] == if 0 <= p - addr / PAGE_SIZE < Pages(old(Regions())[i].size) then 0
                  else old(table.pgt[p])
    {
      hide Listed, Extents, Bytes, Placed, Range, PageTable.Valid, Pages, PageTable.View, Removed;
      ghost var rs := Regions();
      Shrunk(rs, i);
      RegionAt(i);
      var size := desc[cur].size;
      Unlink(cur, i);
      var pgnum := Pages(size);
      FreePages(addr, pgnum);
      sizeTotal := sizeTotal - pgnum * PAGE_SIZE;
    }

    lemma RegionCount()
      requires Linked()
      ensures |Regions()| == |live|
    {
    }

    /** release: the first region on the list that starts at `addr`, if there is one. */
    method Release(addr: nat) returns (ghost i: nat)
      requires Valid() && table.Valid() && addr != HEAP_BASE
      modifies this, desc, table.pgt, table.pool.bitmap
      ensures Valid() && table.Valid() && OnlyRelinked(old(desc[..]), desc[..])
      ensures i <= |old(Regions())| && forall j :: 0 <= j < i ==> old(Regions())[j].start != addr
      ensures i == |old(Regions())| ==>
                Regions() == old(Regions()) && sizeTotal == old(sizeTotal) && table.pgt[..] == old(table.pgt[..])
      ensures i < |old(Regions())| ==>
                var r := old(Regions())[i];
                && r.start == addr && Regions() == Removed(old(Regions()), i) && live == Removed(old(live), i)
                && sizeTotal == old(sizeTotal) - PAGE_SIZE * Pages(r.size)
                && table.View().heap == old(table.View().heap) - Range(addr / PAGE_SIZE, Pages(r.size))
                && forall p :: 0 <= p < table.pgt.Length ==>
                     table.pgt[p] == if 0 <= p - addr / PAGE_SIZE < Pages(r.size) then 0 else old(table.pgt[p])
    {
      hide Listed, Extents, Bytes, Placed, Range, Removed, PageTable.Valid, Pages, PageTable.View;
      LastListed(live, desc[..]);
      RegionCount();
      var cur;
      cur, i := Find(addr);
      if cur != NULL {
        Detach(cur, addr, i);
      }
      FindLast(addr);
    }

    /** No page behind the live regions is mapped. */
    ghost predicate Bounded()
      requires table.Shaped()
      reads `sizeTotal, table.pgt, table.pool.bitmap
    {
      forall p: nat :: p in table.View().heap ==> p * PAGE_SIZE < HEAP_BASE + sizeTotal
    }

    /** The accesses of a region's user. */
    method Touch(addrs: seq<Word>, ghost first: nat, ghost n: nat)
      requires table.Valid() && Within(addrs, first, n) && HEAP_PAGE <= first && first + n <= HEAP_PAGE + HEAP_PAGE_NUM
      modifies table.pgd, table.pgt, table.pool.bitmap
      ensures table.Valid() && Faulted(old(table.View().heap), table.View().heap, PagesOf(addrs))
      ensures DirFilled(old(table.pgd[..]), table.pgd[..], DirsOf(addrs))
      ensures KeptOutside(old(table.pgt[..]), table.pgt[..], first, n)
    {
      hide Inv, PageTable.View, Within, Faulted, KeptOutside, DirFilled;
      NothingTouched(addrs, table.View().heap, table.pgd[..], table.pgt[..], first, n);
      ghost var heap, pde, pte := table.View().heap, table.pgd[..], table.pgt[..];
      var i := 0;
      while i < |addrs|
        invariant 0 <= i <= |addrs| && table.Valid() && Faulted(heap, table.View().heap, PagesOf(addrs[..i]))
        invariant DirFilled(pde, table.pgd[..], DirsOf(addrs[..i])) && KeptOutside(pte, table.pgt[..], first, n)
      {
        ghost var h, d, t := table.View().heap, table.pgd[..], table.pgt[..];
        AddrWithin(addrs, first, n, i);
        Access(addrs[i]);
        FaultedNext(heap, h, table.View().heap, addrs, i);
        DirsNext(pde, d, table.pgd[..], addrs, i);
        KeptStep(pte, t, table.pgt[..], addrs[i] / PAGE_SIZE, first, n);
        i := i + 1;
      }
    }

    /** What runs of allocations, accesses to live regions and last-in-first-out releases keep (Perform). */
    ghost predicate Stacked()
      reads this, desc, table.pgd, table.pgt, table.pool.bitmap
    {
      Valid() && table.Valid() && Tiled(Regions()) && Bounded()
    }

    lemma TableShaped()
      requires Stacked()
      ensures table.Shaped()
    {
    }

    /** The descriptor before the last one has a smaller number. */
    lemma LastTwo()
      requires Linked() && |Regions()| > 1
      ensures |live| == |Regions()| && live[|live| - 2] < lastRegion
      ensures Removed(live, |live| - 1) == live[..|live| - 1]
    {
    }

    lemma LastIs()
      requires Linked()
      ensures live != [] && lastRegion == live[|live| - 1]
    {
    }

    /** A release of the last region: it goes with exactly its pages, and the rest is stacked as before. */
    method ReleaseLast(start: nat, ghost rs: seq<Extent>, ghost size: nat)
      requires Stacked() && rs != [] && Regions() == rs + [Extent(start, size)]
      modifies this, desc, table.pgt, table.pool.bitmap
      ensures Stacked() && Regions() == rs && sizeTotal == old(sizeTotal) - PAGE_SIZE * Pages(size)
      ensures lastRegion < old(lastRegion) && OnlyRelinked(old(desc[..]), desc[..])
      ensures table.View().heap == old(table.View().heap) - Range(start / PAGE_SIZE, Pages(size))
      ensures forall p :: 0 <= p < table.pgt.Length ==>
                table.pgt[p] == if 0 <= p - start / PAGE_SIZE < Pages(size) then 0 else old(table.pgt[p])
    {
      hide Tiled, Bytes, Placed, Extents, Listed, Inv, Range, Pages, Removed, PageTable.Translate, Linked,
           PageTable.View;
      ghost var e, total := Extent(start, size), sizeTotal;
      LastTiled(rs, e);
      LastFound(rs, e);
      assert Regions()[|rs|].start == start && rs[0] == Regions()[0];
      PlacedFirst(Regions());
      LastTwo();
      ghost var i := Release(start);
      assert i == |rs|;
      LastIs();
      BytesAligned(rs);
      StillBounded(table.View().heap, start, Pages(size), total);
    }

    lemma FramesKept(s: State)
      requires table.Valid() && Inv(s) && table.View().heap == s.heap
      ensures table.pool.Frames() == s.frames
    {
      SameFrames(s, table.View());
    }

    lemma FramesAre()
      requires table.Shaped()
      ensures table.View().frames == table.pool.Frames()
    {
    }

    lemma Untouched()
      requires table.Valid() && Bounded() && sizeTotal % PAGE_SIZE == 0
      ensures var first := (HEAP_BASE + sizeTotal) / PAGE_SIZE;
              forall p: nat :: first <= p < HEAP_PAGE + HEAP_PAGE_NUM ==> p !in table.View().heap && table.pgt[p] == 0
    {
      var first := (HEAP_BASE + sizeTotal) / PAGE_SIZE;
      assert first * PAGE_SIZE == HEAP_BASE + sizeTotal;
      hide HeapOf, Inv;
      forall p: nat | first <= p < HEAP_PAGE + HEAP_PAGE_NUM ensures p !in table.View().heap && table.pgt[p] == 0 {
        assert p * PAGE_SIZE >= first * PAGE_SIZE;
        MappedIs(table.pgt[..], p);
      }
    }

    /**
     Allocating a region, touching any of its pages in any order and releasing it restores the list,
     the total, the page table and the set of allocated frames. What is left of it is its descriptor,
     off the list, and the directory entries that its faults have filled.
     */
    method AllocateTouchRelease(size: nat, touched: seq<Word>) returns (start: nat)
      requires Stacked()
      requires size > 0 && lastRegion + 1 < DESC_NUM && sizeTotal + PAGE_SIZE * Pages(size) <= HEAP_SIZE
      requires forall i :: 0 <= i < |touched| ==>
                 HEAP_BASE + sizeTotal <= touched[i] < HEAP_BASE + sizeTotal + PAGE_SIZE * Pages(size)
      modifies this, desc, table.pgd, table.pgt, table.pool.bitmap
      ensures Stacked() && Regions() == old(Regions()) && sizeTotal == old(sizeTotal)
      ensures table.pgt[..] == old(table.pgt[..]) && table.pool.Frames() == old(table.pool.Frames())
      ensures start == HEAP_BASE + sizeTotal && var d := desc[old(lastRegion) + 1]; d.start == start && d.size == size
      ensures DirFilled(old(table.pgd[..]), table.pgd[..], DirsOf(touched))
    {
      hide Tiled, Bytes, Placed, Extents, Listed, Inv, Range, Pages, Removed, PageTable.Translate, Linked,
           PageTable.View, Faulted, DirFilled, Within;
      ghost var rs, s, pte, total := Regions(), table.View(), table.pgt[..], sizeTotal;
      BytesAligned(rs);
      FramesAre();
      PagesIn(touched, HEAP_BASE + total, Pages(size));
      Untouched();
      start := Allocate(size);
      ghost var first, n, d, k := start / PAGE_SIZE, Pages(size), desc[..], lastRegion;
      assert d[k].start == start && d[k].size == size;
      Touch(touched, first, n);
      OutsideRange(s.heap, table.View().heap, touched, first, n);
      TiledSteps(rs, Extent(start, size));
      PlacedFirst(rs);
      UsedBounded(s.heap, table.View().heap, start, n, HEAP_BASE + sizeTotal);
      ReleaseLast(start, rs, size);
      assert desc[..][k].start == start && desc[..][k].size == size;
      assert table.View().heap == s.heap;
      assert table.pgt[..] == pte;
      FramesKept(s);
    }

    /** An allocation puts its region on top. */
    method Push(size: nat)
      requires Stacked() && size > 0 && lastRegion + 1 < DESC_NUM && sizeTotal + PAGE_SIZE * Pages(size) <= HEAP_SIZE
      modifies this, desc
      ensures Stacked() && Regions() == old(Regions()) + [Extent(HEAP_BASE + old(sizeTotal), size)]
      ensures lastRegion == old(lastRegion) + 1 && table.View().heap == old(table.View().heap)
    {
      hide Tiled, Bytes, Placed, Extents, Listed, Linked, Pages, PageTable.View, Inv;
      ghost var rs, heap := Regions(), table.View().heap;
      var start := Allocate(size);
      TiledSteps(rs, Extent(start, size));
      assert table.Valid() && table.View().heap == heap;
    }

    /** Accesses to a live region. */
    method Use(i: nat, addrs: seq<Word>)
      requires Stacked() && i < |Regions()| && InRegion(Regions()[i], addrs)
      modifies table.pgd, table.pgt, table.pool.bitmap
      ensures Stacked() && Regions() == old(Regions())
      ensures Faulted(old(table.View().heap), table.View().heap, PagesOf(addrs))
      ensures DirFilled(old(table.pgd[..]), table.pgd[..], DirsOf(addrs))
      ensures KeptOutside(old(table.pgt[..]), table.pgt[..], Regions()[i].start / PAGE_SIZE, Pages(Regions()[i].size))
    {
      hide Tiled, Bytes, Placed, Extents, Listed, Pages, Linked, PageTable.View, PageTable.Valid, Range, KeptOutside,
           Faulted, DirFilled, Within;
      TableShaped();
      ghost var e, heap := Regions()[i], table.View().heap;
      ghost var first, n := e.start / PAGE_SIZE, Pages(e.size);
      RegionPlaced(Regions(), i);
      PagesIn(addrs, e.start, n);
      Touch(addrs, first, n);
      OutsideRange(heap, table.View().heap, addrs, first, n);
      UsedBounded(heap, table.View().heap, e.start, n, HEAP_BASE + sizeTotal);
    }

    lemma TopRegion()
      requires Linked() && Regions() != []
      ensures 0 <= lastRegion < desc.Length && desc[lastRegion].start == Regions()[|Regions()| - 1].start
    {
      RegionAt(|live| - 1);
    }

    /** The release of the newest region, seen from those below number `base`. */
    method Pop(ghost base: nat)
      requires Stacked() && 0 < base < |Regions()|
      modifies this, desc, table.pgt, table.pool.bitmap
      ensures Stacked() && Regions() == old(Regions())[..|old(Regions())| - 1] && lastRegion < old(lastRegion)
      ensures var e := old(Regions())[|old(Regions())| - 1];
              table.View().heap == old(table.View().heap) - Range(e.start / PAGE_SIZE, Pages(e.size))
      ensures KeptBelow(old(table.pgt[..]), table.pgt[..], HEAP_BASE + Bytes(old(Regions())[..base]))
    {
      hide Tiled, Bytes, Placed, Extents, Listed, Pages, Linked, PageTable.View, Inv, Range, KeptBelow;
      ghost var rs, pte := Regions(), table.pgt[..];
      ghost var e := rs[|rs| - 1];
      TopRegion();
      AboveBase(rs, base, |rs| - 1);
      assert rs == rs[..|rs| - 1] + [Extent(e.start, e.size)];
      var start := desc[lastRegion].start;
      ReleaseLast(start, rs[..|rs| - 1], e.size);
      KeptZeroed(pte, table.pgt[..], e.start, Pages(e.size), HEAP_BASE + Bytes(rs[..base]));
    }

    /** The operation of a user whose regions start at number `base`. */
    method Perform(op: HeapOp, ghost base: nat)
      requires Stacked() && 0 < base <= |Regions()| && Possible(Regions(), op, base)
      requires op.Alloc? ==> lastRegion + 1 < DESC_NUM
      modifies this, desc, table.pgd, table.pgt, table.pool.bitmap
      ensures Stacked() && Regions() == After(old(Regions()), op)
      ensures table.View().heap.Keys == PagesAfter(old(Regions()), old(table.View().heap.Keys), op)
      ensures FramesStay(old(table.View().heap), table.View().heap)
      ensures DirFilled(old(table.pgd[..]), table.pgd[..], DirsFilled(op))
      ensures lastRegion - |Regions()| <= old(lastRegion) - |old(Regions())|
      ensures KeptBelow(old(table.pgt[..]), table.pgt[..], HEAP_BASE + Bytes(old(Regions())[..base]))
    {
      hide Tiled, Bytes, Placed, Extents, Listed, Pages, Linked, PageTable.View, PageTable.Valid, Bounded,
           KeptOutside, KeptBelow, InRegion, Faulted, FramesStay, DirFilled, Range;
      TableShaped();
      ghost var rs, pte, heap := Regions(), table.pgt[..], table.View().heap;
      KeptSame(pte, HEAP_BASE + Bytes(rs[..base]));
      FreedFrames(heap, heap, {});
      DirSame(table.pgd[..]);
      match op
      case Alloc(size) =>
        Push(size);
      case Access(i, addrs) =>
        AboveBase(rs, base, i);
        Use(i, addrs);
        FaultedFrames(heap, table.View().heap, PagesOf(addrs));
        KeptIn(pte, table.pgt[..], rs[i].start, Pages(rs[i].size), HEAP_BASE + Bytes(rs[..base]));
      case Release =>
        Pop(base);
        FreedFrames(heap, table.View().heap, Range(rs[|rs| - 1].start / PAGE_SIZE, Pages(rs[|rs| - 1].size)));
    }

    /** During a run of a user: others had the regions `rs`, and the table was `pte` when it started. */
    ghost predicate Running(rs: seq<Extent>, gap: int, pte: seq<Word>)
      reads this, desc, table.pgd, table.pgt, table.pool.bitmap
    {
      && Stacked() && 0 < |rs| <= |Regions()| && Regions()[..|rs|] == rs
      && lastRegion - |Regions()| <= gap && KeptBelow(pte, table.pgt[..], HEAP_BASE + Bytes(rs))
    }

    lemma RunLinked(rs: seq<Extent>, gap: int, pte: seq<Word>)
      requires Running(rs, gap, pte)
      ensures Linked() && table.Shaped() && table.pgd.Length == 4096
    {
    }

    /** One operation in a run. */
    method PerformOne(op: HeapOp, ghost rs: seq<Extent>, ghost gap: int, ghost pte: seq<Word>, ghost r: seq<Extent>,
                      ghost pde: seq<Word>, ghost dirs: set<nat>)
      requires Running(rs, gap, pte) && r == Regions() && Possible(r, op, |rs|) && DirFilled(pde, table.pgd[..], dirs)
      requires op.Alloc? ==> gap + |r| + 1 < DESC_NUM
      modifies this, desc, table.pgd, table.pgt, table.pool.bitmap
      ensures Running(rs, gap, pte) && Regions() == After(r, op)
      ensures table.View().heap.Keys == PagesAfter(r, old(table.View().heap.Keys), op)
      ensures DirFilled(pde, table.pgd[..], dirs + DirsFilled(op))
    {
      hide Extents, Linked, Stacked, KeptBelow, Bytes, Pages, InRegion, FramesStay, DirFilled, Range, PagesAfter,
           PageTable.View;
      ghost var t, d := table.pgt[..], table.pgd[..];
      PrefixKept(r, rs, op);
      RunLinked(rs, gap, pte);
      Perform(op, |rs|);
      DirTwice(pde, d, table.pgd[..], dirs, DirsFilled(op));
      KeptTwice(pte, t, table.pgt[..], HEAP_BASE + Bytes(rs));
    }

    /** The user's operations in turn. */
    method PerformAll(ops: seq<HeapOp>, ghost rs: seq<Extent>, ghost gap: int, ghost pte: seq<Word>)
      requires Running(rs, gap, pte) && Regions() == rs && AllPossible(rs, ops, |rs|, gap)
      modifies this, desc, table.pgd, table.pgt, table.pool.bitmap
      ensures Running(rs, gap, pte) && Regions() == AfterAll(rs, ops)
      ensures table.View().heap.Keys == PagesAfterAll(rs, old(table.View().heap.Keys), ops)
      ensures DirFilled(old(table.pgd[..]), table.pgd[..], DirsOfAll(ops))
    {
      hide Extents, Linked, Running, AllPossible, AfterAll, After, Possible, PageTable.View, DirFilled, DirsOfAll,
           DirsFilled, PagesAfter, PagesAfterAll;
      RunLinked(rs, gap, pte);
      ghost var r, pages, pde := rs, table.View().heap.Keys, table.pgd[..];
      OpsEnds(rs, ops);
      DirSame(pde);
      var i := 0;
      while i < |ops|
        invariant 0 <= i <= |ops| && Linked() && table.Shaped() && Running(rs, gap, pte) && r == Regions()
        invariant pages == table.View().heap.Keys && DirFilled(pde, table.pgd[..], DirsOfAll(ops[..i]))
        invariant PagesAfterAll(r, pages, ops[i..]) == PagesAfterAll(rs, old(table.View().heap.Keys), ops)
        invariant AllPossible(r, ops[i..], |rs|, gap) && AfterAll(r, ops[i..]) == AfterAll(rs, ops)
      {
        OpsStep(r, ops, i, |rs|, gap);
        PerformOne(ops[i], rs, gap, pte, r, pde, DirsOfAll(ops[..i]));
        RunLinked(rs, gap, pte);
        r, pages := After(r, ops[i]), PagesAfter(r, pages, ops[i]);
        i := i + 1;
      }
      OpsEnds(r, ops);
    }

    lemma HeapIs()
      requires table.Shaped()
      ensures table.View().heap == HeapOf(table.pgt[..])
    {
    }

    lemma StackFacts()
      requires Stacked()
      ensures Linked() && Regions() != [] && sizeTotal == Bytes(Regions()) && sizeTotal % PAGE_SIZE == 0
    {
      BytesAligned(Regions());
    }

    /** The state before a run. */
    lemma StartRun(pte: seq<Word>) returns (s: State)
      requires Stacked() && pte == table.pgt[..]
      ensures Linked() && Running(Regions(), lastRegion - |Regions()|, pte) && sizeTotal == Bytes(Regions())
      ensures Before(s, pte, HEAP_BASE + sizeTotal) && s.frames == table.pool.Frames()
    {
      StackFacts();
      KeptSame(pte, HEAP_BASE + Bytes(Regions()));
      assert Regions()[..|Regions()|] == Regions();
      Untouched();
      FramesAre();
      HeapIs();
      s := table.View();
    }

    lemma Emptied(s: State, pte: seq<Word>)
      requires Stacked() && KeptBelow(pte, table.pgt[..], HEAP_BASE + sizeTotal)
               && Before(s, pte, HEAP_BASE + sizeTotal)
      ensures table.pgt[..] == pte && table.pool.Frames() == s.frames
    {
      StackFacts();
      Untouched();
      hide PageTable.View, Inv, KeptBelow;
      KeptWhole(pte, table.pgt[..], HEAP_BASE + sizeTotal);
      HeapIs();
      FramesKept(s);
    }

    /** After a run; once the regions are the same again, so are all words and all frames. */
    lemma EndRun(rs: seq<Extent>, gap: int, pte: seq<Word>, s: State)
      requires Running(rs, gap, pte) && Before(s, pte, HEAP_BASE + Bytes(rs))
      ensures Stacked() && rs <= Regions() && KeptBelow(pte, table.pgt[..], HEAP_BASE + Bytes(rs))
      ensures Regions() == rs ==> sizeTotal == Bytes(rs) && table.pgt[..] == pte && table.pool.Frames() == s.frames
    {
      hide Extents, Linked, KeptBelow, Before, Bytes;
      StackFacts();
      if Regions() == rs {
        Emptied(s, pte);
      }
    }

    /**
     A last-in-first-out user of the heap: whatever allocations, accesses to its own regions and
     releases it nests, the regions and pages of others stay as they are, and the mapped pages are those
     from before and those that it has touched in regions it still has. Once it has released all its
     regions, the list, the total, the page table and the allocated frames are what they were.
     */
    method Nested(ops: seq<HeapOp>, ghost rs: seq<Extent>)
      requires Stacked() && rs == Regions() && AllPossible(rs, ops, |rs|, lastRegion - |rs|)
      modifies this, desc, table.pgd, table.pgt, table.pool.bitmap
      ensures Stacked() && Regions() == AfterAll(rs, ops) && rs <= Regions()
      ensures KeptBelow(old(table.pgt[..]), table.pgt[..], HEAP_BASE + Bytes(rs))
      ensures table.View().heap.Keys == PagesAfterAll(rs, old(table.View().heap.Keys), ops)
      ensures DirFilled(old(table.pgd[..]), table.pgd[..], DirsOfAll(ops))
      ensures Regions() == rs ==>
                sizeTotal == old(sizeTotal) && table.pgt[..] == old(table.pgt[..])
                  && table.pool.Frames() == old(table.pool.Frames())
    {
      hide Extents, Linked, Stacked, Running, KeptBelow, AllPossible, AfterAll, Bytes, Inv, PageTable.View, DirFilled,
           PagesAfterAll, DirsOfAll;
      ghost var pte, gap := table.pgt[..], lastRegion - |rs|;
      ghost var s := StartRun(pte);
      PerformAll(ops, rs, gap, pte);
      EndRun(rs, gap, pte, s);
    }
  }
}
