/**
 The second-level page table: handle_fault and free_page (page_table.c). Each of the 4096 directory
 entries covers 1 MiB and owns the 256 words at its place in one table of all 2^20 pages.
 */
module PageTables {
  import opened Arith
  import opened FramePools
  import opened Paging

  const U32 := 0x1_0000_0000
  const KERN_PGT_START_BASE := 0x404000
  const PGD_BITS := 0x1E1
  const PTE_BITS := 0x472

  type Word = x: int | 0 <= x < U32

  /** The directory entry that handle_fault writes; the table's address has its low ten bits clear, so `|` adds. */
  function DirEntry(i: nat): (w: Word)
    requires i < 4096
    ensures w % 4 == 1 && w / 1024 * 1024 == KERN_PGT_START_BASE + i * 1024
  {
    KERN_PGT_START_BASE + i * 1024 + PGD_BITS
  }

  lemma EntryParts(f: nat)
    ensures (f * PAGE_SIZE + PTE_BITS) % PAGE_SIZE == PTE_BITS && (f * PAGE_SIZE + PTE_BITS) / PAGE_SIZE == f
    ensures (f * PAGE_SIZE + PTE_BITS) % 4 == 2
  {
  }

  /** FRAMETOPHYADDR(f) | 0x472 in 32 bits, for the int that get_frame returns. */
  function TableEntry(f: int): (w: Word)
    requires -1 <= f < KERN_FRAME_NUM
    ensures w % PAGE_SIZE == PTE_BITS && w % 4 == 2 && w != 0
    ensures f >= 0 ==> w / PAGE_SIZE == f
    ensures f == -1 ==> w / PAGE_SIZE == 0xFFFFF
  {
    var frame := if f < 0 then 0x100000 + f else f;
    EntryParts(frame);
    frame * PAGE_SIZE + PTE_BITS
  }

  /** What the two descriptors of a page say of it. */
  datatype Attrs = Attrs(access: nat, tex: nat, cacheable: bool, bufferable: bool, shareable: bool, global: bool,
                         executable: bool, privilegedExecutable: bool, secure: bool, domain: nat)

  /** The field of a word that starts at the bit `lo` stands for and has `n` values. */
  function Field(w: nat, lo: nat, n: nat): nat
    requires lo > 0 && n > 0
  {
    DivNat(w, lo);
    w / lo % n
  }

  /** The fields of a page's descriptors in the short-descriptor format of the ARMv7-A architecture. */
  function AttrsOf(pde: Word, pte: Word): Attrs {
    Attrs(
      access := Field(pte, 0x200, 2) * 4 + Field(pte, 0x10, 4),
      tex := Field(pte, 0x40, 8),
      cacheable := Field(pte, 8, 2) == 1,
      bufferable := Field(pte, 4, 2) == 1,
      shareable := Field(pte, 0x400, 2) == 1,
      global := Field(pte, 0x800, 2) == 0,
      executable := Field(pte, 1, 2) == 0,
      privilegedExecutable := Field(pde, 4, 2) == 0,
      secure := Field(pde, 8, 2) == 0,
      domain := Field(pde, 0x20, 16))
  }

  /** Full access, normal memory that is not cached, shared between the CPUs, and executable. */
  const HEAP_ATTRS :=
    Attrs(access := 3, tex := 1, cacheable := false, bufferable := false, shareable := true, global := true,
          executable := true, privilegedExecutable := true, secure := true, domain := 15)

  lemma Cancels(a: nat, b: nat, n: nat)
    requires n > 0
    ensures (a * n + b) % n == b % n
  {
    var x := a * n + b;
    DivIs(x, n, a + b / n);
    assert (a + b / n) * n == a * n + b / n * n;
  }

  /** A field of a word does not depend on the bits above it. */
  lemma FieldKept(q: nat, bits: nat, lo: nat, n: nat, unit: nat, k: nat)
    requires lo > 0 && n > 0 && unit == k * n * lo
    ensures Field(q * unit + bits, lo, n) == Field(bits, lo, n)
  {
    var w := q * unit + bits;
    assert q * unit == (q * k * n) * lo;
    DivNat(bits, lo);
    assert (q * k * n + bits / lo) * lo == (q * k * n) * lo + bits / lo * lo;
    DivIs(w, lo, q * k * n + bits / lo);
    Cancels(q * k, bits / lo, n);
  }

  lemma BitFields()
    ensures Field(PTE_BITS, 0x200, 2) == 0 && Field(PTE_BITS, 0x10, 4) == 3 && Field(PTE_BITS, 0x40, 8) == 1
    ensures Field(PTE_BITS, 8, 2) == 0 && Field(PTE_BITS, 4, 2) == 0 && Field(PTE_BITS, 1, 2) == 0
    ensures Field(PTE_BITS, 0x400, 2) == 1 && Field(PTE_BITS, 0x800, 2) == 0
    ensures Field(PGD_BITS, 4, 2) == 0 && Field(PGD_BITS, 8, 2) == 0 && Field(PGD_BITS, 0x20, 16) == 15
    ensures Field(PGD_BITS, 0x10, 2) == 0 && Field(PGD_BITS, 0x200, 2) == 0
  {
  }

  /** What handle_fault's entries mean; the directory entry's reserved bits are clear. */
  lemma EntryAttrs(i: nat, f: int)
    requires i < 4096 && -1 <= f < KERN_FRAME_NUM
    ensures AttrsOf(DirEntry(i), TableEntry(f)) == HEAP_ATTRS
    ensures Field(DirEntry(i), 0x10, 2) == 0 && Field(DirEntry(i), 0x200, 2) == 0
  {
    hide Field;
    var p, q := DirEntry(i) / 0x400, TableEntry(f) / PAGE_SIZE;
    assert DirEntry(i) == p * 0x400 + PGD_BITS && TableEntry(f) == q * PAGE_SIZE + PTE_BITS;
    BitFields();
    FieldKept(q, PTE_BITS, 0x200, 2, PAGE_SIZE, 4);
    FieldKept(q, PTE_BITS, 0x10, 4, PAGE_SIZE, 0x40);
    FieldKept(q, PTE_BITS, 0x40, 8, PAGE_SIZE, 8);
    FieldKept(q, PTE_BITS, 8, 2, PAGE_SIZE, 0x100);
    FieldKept(q, PTE_BITS, 4, 2, PAGE_SIZE, 0x200);
    FieldKept(q, PTE_BITS, 1, 2, PAGE_SIZE, 0x800);
    FieldKept(q, PTE_BITS, 0x400, 2, PAGE_SIZE, 2);
    FieldKept(q, PTE_BITS, 0x800, 2, PAGE_SIZE, 1);
    FieldKept(p, PGD_BITS, 4, 2, 0x400, 0x80);
    FieldKept(p, PGD_BITS, 8, 2, 0x400, 0x40);
    FieldKept(p, PGD_BITS, 0x20, 16, 0x400, 2);
    FieldKept(p, PGD_BITS, 0x10, 2, 0x400, 0x20);
    FieldKept(p, PGD_BITS, 0x200, 2, 0x400, 1);
  }

  /** The word that the walk reaches through a directory entry is the page's own. */
  lemma WalkIndex(addr: Word)
    ensures var i := addr / 0x100000;
            (DirEntry(i) / 1024 * 1024 - KERN_PGT_START_BASE) / 4 + addr / PAGE_SIZE % 256 == addr / PAGE_SIZE
  {
    assert addr / PAGE_SIZE == addr / 0x100000 * 256 + addr / PAGE_SIZE % 256;
  }

  /** The mapped heap pages of a table, with their frames. */
  ghost function HeapOf(pte: seq<Word>): map<nat, nat> {
    map p: nat | HEAP_PAGE <= p < HEAP_PAGE + HEAP_PAGE_NUM && p < |pte| && pte[p] != 0 :: pte[p] / PAGE_SIZE
  }

  lemma MappedIs(pte: seq<Word>, p: nat)
    requires p < |pte|
    ensures p in HeapOf(pte) <==> HeapPage(p) && pte[p] != 0
    ensures p in HeapOf(pte) ==> HeapOf(pte)[p] == pte[p] / PAGE_SIZE
  {
  }

  /** One word of the table is stored. */
  lemma HeapStored(pte: seq<Word>, p: nat, w: Word)
    requires p < |pte|
    ensures var heap := HeapOf(pte[p := w]);
            heap == if !HeapPage(p) then HeapOf(pte) else if w != 0 then HeapOf(pte)[p := w / PAGE_SIZE]
              else HeapOf(pte) - {p}
  {
  }

  /** Mapped heap pages have the bits and the directory entry that handle_fault writes. */
  ghost predicate EntriesOk(pde: seq<Word>, pte: seq<Word>) {
    && |pde| == 4096 && |pte| == 0x100000
    && (forall p: nat :: HeapPage(p) && pte[p] != 0 ==>
        pte[p] % PAGE_SIZE == PTE_BITS && pde[p / 256] == DirEntry(p / 256))
    && (forall i :: 0xC40 <= i < 0xC80 ==> pde[i] == 0 || pde[i] == DirEntry(i))
  }

  lemma EntriesFaulted(pde: seq<Word>, pte: seq<Word>, addr: Word, w: Word)
    requires EntriesOk(pde, pte) && HeapPage(addr / PAGE_SIZE) && w % PAGE_SIZE == PTE_BITS
    ensures var i := addr / 0x100000;
            EntriesOk(if pde[i] % 4 == 0 then pde[i := DirEntry(i)] else pde, pte[addr / PAGE_SIZE := w])
  {
    hide DirEntry;
    assert 0xC40 <= addr / 0x100000 < 0xC80 && addr / PAGE_SIZE / 256 == addr / 0x100000;
  }

  lemma EntriesFreed(pde: seq<Word>, pte: seq<Word>, p: nat)
    requires EntriesOk(pde, pte) && p < |pte|
    ensures EntriesOk(pde, pte[p := 0])
  {
  }

  /** The directory entries `dirs` are the kernel's own, and the others are as they were. */
  ghost predicate DirFilled(s: seq<Word>, t: seq<Word>, dirs: set<nat>) {
    |s| == |t| == 4096 && forall i :: 0 <= i < 4096 ==> t[i] == if i in dirs then DirEntry(i) else s[i]
  }

  lemma DirTwice(s: seq<Word>, t: seq<Word>, u: seq<Word>, a: set<nat>, b: set<nat>)
    requires DirFilled(s, t, a) && DirFilled(t, u, b)
    ensures DirFilled(s, u, a + b)
  {
    hide DirEntry;
  }

  lemma DirSame(s: seq<Word>)
    requires |s| == 4096
    ensures DirFilled(s, s, {})
  {
  }

  lemma FreeIs(frames: set<nat>, f: nat)
    requires FirstFree(frames, f)
    ensures f !in frames
  {
  }

  datatype Option<T> = None | Some(value: T)

  datatype Mapping = Mapping(phys: nat, attrs: Attrs)

  class PageTable {
    const pool: FramePool
    const pgd: array<Word>
    const pgt: array<Word>

    constructor (pool: FramePool, pgd: array<Word>, pgt: array<Word>)
      ensures this.pool == pool && this.pgd == pgd && this.pgt == pgt
    {
      this.pool, this.pgd, this.pgt := pool, pgd, pgt;
    }

    /** What init_kernmem sets up: one pool of all frames, no inaccessible ones. */
    ghost predicate Shaped() {
      && pool.Valid() && pool.base == 0 && pool.nFrames == KERN_FRAME_NUM && pool.inaccNum == 0
      && pgd.Length == 4096 && pgt.Length == 0x100000 && pgd != pgt
      && var bytes: object := pool.bitmap; bytes != pgd && bytes != pgt
    }

    /** The state machine's view: the heap entries that are not zero, and the bitmap. */
    ghost function View(): State
      requires Shaped()
      reads pgt, pool.bitmap
    {
      State(HeapOf(pgt[..]), pool.Frames())
    }

    ghost predicate Valid()
      reads pgd, pgt, pool.bitmap
    {
      Shaped() && Inv(View()) && EntriesOk(pgd[..], pgt[..])
    }

    /** After boot the heap is unmapped and all frames below it are taken. */
    lemma Booted()
      requires Shaped()
      requires forall i :: 0xC40 <= i < 0xC80 ==> pgd[i] == 0
      requires forall p: nat :: HeapPage(p) ==> pgt[p] == 0
      requires forall f: nat :: pool.Allocated(f) <==> f < HEAP_FRAME_START
      ensures Valid() && Init(View())
    {
    }

    /** The processor's table walk, for entries that point into the kernel's table. */
    ghost function Translate(addr: Word): Option<Mapping>
      requires Shaped()
      reads pgd, pgt
    {
      var pde := pgd[addr / 0x100000];
      var table := pde / 1024 * 1024;
      if pde % 4 != 1 || !(KERN_PGT_START_BASE <= table < KERN_PGT_START_BASE + 0x400000) then None
      else
        var pte := pgt[(table - KERN_PGT_START_BASE) / 4 + addr / PAGE_SIZE % 256];
        if pte % 4 < 2 then None
        else Some(Mapping(pte / PAGE_SIZE * PAGE_SIZE + addr % PAGE_SIZE, AttrsOf(pde, pte)))
    }

    lemma Walks(addr: Word, frame: nat)
      requires Shaped() && frame < KERN_FRAME_NUM
      requires pgd[addr / 0x100000] == DirEntry(addr / 0x100000) && pgt[addr / PAGE_SIZE] == TableEntry(frame)
      ensures Translate(addr) == Some(Mapping(frame * PAGE_SIZE + addr % PAGE_SIZE, HEAP_ATTRS))
    {
      hide TableEntry, DirEntry, AttrsOf;
      WalkIndex(addr);
      EntryAttrs(addr / 0x100000, frame);
    }

    /**
     handle_fault: `addr` is what the fault address register holds. Unless its directory entry was not
     the kernel's own, the page is then one of full access, normal memory.
     */
    method HandleFault(addr: Word) returns (frame: int)
      requires Shaped()
      modifies pgd, pgt, pool.bitmap
      ensures -1 <= frame < KERN_FRAME_NUM
      ensures frame == -1 <==> forall f: nat :: f < KERN_FRAME_NUM ==> f in old(pool.Frames())
      ensures frame == -1 ==> pool.Frames() == old(pool.Frames())
      ensures frame != -1 ==> FirstFree(old(pool.Frames()), frame) && pool.Frames() == old(pool.Frames()) + {frame}
      ensures pgt[..] == old(pgt[..])[addr / PAGE_SIZE := TableEntry(frame)]
      ensures var i := addr / 0x100000; pgd[..] == if old(pgd[i]) % 4 == 0 then old(pgd[..])[i := DirEntry(i)]
              else old(pgd[..])
      ensures frame != -1 && (old(pgd[addr / 0x100000]) % 4 == 0
                              || old(pgd[addr / 0x100000]) == DirEntry(addr / 0x100000)) ==>
                Translate(addr) == Some(Mapping(frame * PAGE_SIZE + addr % PAGE_SIZE, HEAP_ATTRS))
    {
      hide Translate, TableEntry, DirEntry;
      var pgdIdx := addr / 0x100000;
      if pgd[pgdIdx] % 4 == 0 {
        pgd[pgdIdx] := DirEntry(pgdIdx);
      }
      frame := pool.GetFrame();
      assert frame == -1 || frame !in old(pool.Frames());
      var pgtIdx := addr / PAGE_SIZE % 256;
      pgt[pgdIdx * 256 + pgtIdx] := TableEntry(frame);
      if frame != -1 && pgd[pgdIdx] == DirEntry(pgdIdx) {
        Walks(addr, frame);
      }
    }

    /** The directory entry of a heap page is empty or its own. */
    lemma Directory(addr: Word)
      requires Shaped() && EntriesOk(pgd[..], pgt[..]) && HeapPage(addr / PAGE_SIZE)
      ensures pgd[addr / 0x100000] == 0 || pgd[addr / 0x100000] == DirEntry(addr / 0x100000)
      ensures pgt[addr / PAGE_SIZE] != 0 ==> pgd[addr / 0x100000] == DirEntry(addr / 0x100000)
    {
      hide DirEntry;
      assert 0xC40 <= addr / 0x100000 < 0xC80 && addr / PAGE_SIZE / 256 == addr / 0x100000;
    }

    /** A fault on an unmapped heap page is resolved: it gets a heap frame that no other page has. */
    method HeapFault(addr: Word) returns (frame: nat)
      requires Valid() && HeapPage(addr / PAGE_SIZE) && addr / PAGE_SIZE !in View().heap
      modifies pgd, pgt, pool.bitmap
      ensures Valid() && Step(old(View()), Fault(addr / PAGE_SIZE), View())
      ensures HeapFrame(frame) && frame !in old(View().frames)
              && View().heap == old(View().heap)[addr / PAGE_SIZE := frame]
      ensures Translate(addr) == Some(Mapping(frame * PAGE_SIZE + addr % PAGE_SIZE, HEAP_ATTRS))
      ensures var i := addr / 0x100000; pgd[..] == if old(pgd[i]) == 0 then old(pgd[..])[i := DirEntry(i)]
              else old(pgd[..])
      ensures pgt[..] == old(pgt[..])[addr / PAGE_SIZE := TableEntry(frame)]
    {
      hide Inv, Step, TableEntry, DirEntry, Translate, FirstFree, HeapOf, EntriesOk;
      ghost var p, s, pde, pte := addr / PAGE_SIZE, View(), pgd[..], pgt[..];
      ghost var free := NeverDry(s, p);
      Directory(addr);
      frame := HandleFault(addr);
      FreeIs(s.frames, frame);
      HeapStored(pte, p, TableEntry(frame));
      EntriesFaulted(pde, pte, addr, TableEntry(frame));
      FaultStep(s, p, frame);
      Directory(addr);
      Walks(addr, frame);
    }

    /** free_page: the page's frame goes back if it is one of the heap's, and the page is unmapped. */
    method FreePage(addr: Word)
      requires Shaped()
      modifies pgt, pool.bitmap
      ensures pgt[..] == old(pgt[..])[addr / PAGE_SIZE := 0]
      ensures var f := old(pgt[addr / PAGE_SIZE]) / PAGE_SIZE;
              pool.Frames() == if HeapFrame(f) then old(pool.Frames()) - {f} else old(pool.Frames())
    {
      var pgdIdx, pgtIdx := addr / 0x100000, addr / PAGE_SIZE % 256;
      var entry := pgdIdx * 256 + pgtIdx;
      var frame := pgt[entry] / PAGE_SIZE;
      if HEAP_FRAME_START <= frame < HEAP_FRAME_START + HEAP_FRAME_NUM {
        var ok := pool.ReleaseFrame(frame);
      }
      pgt[entry] := 0;
    }

    lemma Unwalked(addr: Word)
      requires Shaped() && pgt[addr / PAGE_SIZE] == 0
      requires pgd[addr / 0x100000] == 0 || pgd[addr / 0x100000] == DirEntry(addr / 0x100000)
      ensures Translate(addr) == None
    {
      hide DirEntry;
      WalkIndex(addr);
    }

    /**
     Freeing a heap page is a step of the state machine, and the page faults again. Freeing any other
     page keeps the invariant exactly when the entry does not hold the frame of a mapped heap page.
     */
    method Free(addr: Word)
      requires Valid()
      modifies pgt, pool.bitmap
      ensures pgt[..] == old(pgt[..])[addr / PAGE_SIZE := 0]
      ensures var f := old(pgt[addr / PAGE_SIZE]) / PAGE_SIZE;
              pool.Frames() == if HeapFrame(f) then old(pool.Frames()) - {f} else old(pool.Frames())
      ensures HeapPage(addr / PAGE_SIZE) ==>
                Valid() && Step(old(View()), Event.Free(addr / PAGE_SIZE), View()) && Translate(addr) == None
      ensures !HeapPage(addr / PAGE_SIZE) ==>
                (Valid() <==> !Held(old(View()).heap, old(pgt[addr / PAGE_SIZE]) / PAGE_SIZE))
    {
      hide Inv, Translate, DirEntry, HeapOf, EntriesOk, Held;
      ghost var p, s, pde, pte := addr / PAGE_SIZE, View(), pgd[..], pgt[..];
      ghost var f := pte[p] / PAGE_SIZE;
      if p in s.heap { HeldFrame(s, p); }
      MappedIs(pte, p);
      FreePage(addr);
      HeapStored(pte, p, 0);
      EntriesFreed(pde, pte, p);
      if HeapPage(p) {
        Unmapped(s, p);
        Directory(addr);
        Unwalked(addr);
      } else {
        OtherFreed(s, f);
      }
    }

    lemma Walked(addr: Word)
      requires Valid() && HeapPage(addr / PAGE_SIZE) && Translate(addr).Some?
      ensures addr / PAGE_SIZE in View().heap && Translate(addr).value.phys / PAGE_SIZE == View().heap[addr / PAGE_SIZE]
    {
      hide DirEntry;
      WalkIndex(addr);
    }

    /** No two heap pages share memory, and none reaches outside the heap's frames. */
    lemma Isolated(a: Word, b: Word)
      requires Valid() && HeapPage(a / PAGE_SIZE) && HeapPage(b / PAGE_SIZE)
      requires Translate(a).Some? && Translate(b).Some?
      ensures HeapFrame(Translate(a).value.phys / PAGE_SIZE)
      ensures Translate(a).value.phys / PAGE_SIZE == Translate(b).value.phys / PAGE_SIZE
              <==> a / PAGE_SIZE == b / PAGE_SIZE
    {
      hide Translate, DirEntry, TableEntry;
      Walked(a);
      Walked(b);
    }
  }
}
