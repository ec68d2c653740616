/**
 The update of a data page through the swap page, and what the next mount would make of it after a
 power cut (rw_page and slfs_mount in slfs.c).
 */
module SlfsDataPage {
  import opened RamdiskIo
  import opened SlfsDisk
  import opened SlfsCrash

  /** The page is recorded in the garbage table's one word, if that is free. */
  function RecordOps(m: Image, page: nat): (ops: seq<Op>)
    requires page < PAGE_NUM
    ensures AllFit(ops)
  {
    if GarbageWord(Page(m, 0)) == MINUS_ONE then [Program(GARBAGE_TAB_START, Le(page * PAGE_SIZE))] else []
  }

  /** The swap page is written, and the page recorded. */
  function SaveOps(m: Image, page: nat, buf: seq<byte>): (ops: seq<Op>)
    requires page < PAGE_NUM && |buf| == PAGE_SIZE
    ensures AllFit(ops)
  {
    [Erase(SWAP_IDX), Program(SWAP_START, buf)] + RecordOps(m, page)
  }

  /** The page is rewritten; the swap page itself is erased before it would be copied. */
  function CopyBackOps(page: nat, buf: seq<byte>): (ops: seq<Op>)
    requires page < PAGE_NUM && |buf| == PAGE_SIZE
    ensures AllFit(ops)
  {
    [Erase(page)] + CopyOps(if page == SWAP_IDX then Ones(PAGE_SIZE) else buf, page * PAGE_SIZE)
  }

  /** rw_page(page, true) for a data page */
  function DataOps(m: Image, page: nat, buf: seq<byte>): (ops: seq<Op>)
    requires page < PAGE_NUM && |buf| == PAGE_SIZE
    ensures AllFit(ops)
  {
    SaveOps(m, page, buf) + (CopyBackOps(page, buf) + [Erase(SWAP_IDX)])
  }

  /** The flash once the page is recorded. */
  function Recorded(m: Image, page: nat): (r: Image)
    requires page < PAGE_NUM
  {
    if GarbageWord(Page(m, 0)) == MINUS_ONE then Splice(m, GARBAGE_TAB_START, Le(page * PAGE_SIZE)) else m
  }

  lemma RecordDone(m: Image, r: Image, page: nat)
    requires page < PAGE_NUM && r[..SWAP_START] == m[..SWAP_START]
    ensures Exec(r, RecordOps(m, page)) == Recorded(r, page)
  {
    SamePages(r, m);
    if GarbageWord(Page(m, 0)) == MINUS_ONE {
      assert RecordOps(m, page)[1..] == [];
    }
  }

  lemma SaveDone(m: Image, page: nat, buf: seq<byte>)
    requires page < PAGE_NUM && |buf| == PAGE_SIZE
    ensures Exec(m, SaveOps(m, page, buf)) == Recorded(Filled(m, buf), page)
  {
    hide Recorded, RecordOps, Exec;
    ExecJoin(m, [Erase(SWAP_IDX), Program(SWAP_START, buf)], RecordOps(m, page));
    RecordDone(m, Filled(m, buf), page);
  }

  lemma CopiedBack(m: Image, page: nat, buf: seq<byte>)
    requires page < PAGE_NUM && |buf| == PAGE_SIZE
    ensures Exec(m, CopyBackOps(page, buf))
            == Splice(Erased(m, page), page * PAGE_SIZE, if page == SWAP_IDX then Ones(PAGE_SIZE) else buf)
  {
    hide Splice, CopyOps;
    var data := if page == SWAP_IDX then Ones(PAGE_SIZE) else buf;
    assert CopyBackOps(page, buf)[1..] == CopyOps(data, page * PAGE_SIZE);
    Copied(Erased(m, page), data, page * PAGE_SIZE);
  }

  lemma DataEnds(m: Image, page: nat, buf: seq<byte>)
    requires page < PAGE_NUM && |buf| == PAGE_SIZE
    ensures Exec(m, DataOps(m, page, buf))
            == Erased(Exec(Recorded(Filled(m, buf), page), CopyBackOps(page, buf)), SWAP_IDX)
  {
    hide Splice, Filled, Recorded, SaveOps, CopyBackOps;
    var m2 := Recorded(Filled(m, buf), page);
    ExecJoin(m, SaveOps(m, page, buf), CopyBackOps(page, buf) + [Erase(SWAP_IDX)]);
    SaveDone(m, page, buf);
    ExecJoin(m2, CopyBackOps(page, buf), [Erase(SWAP_IDX)]);
    assert [Erase(SWAP_IDX)][1..] == [];
  }

  /** The flash before the swap page is erased again. */
  function CopiedPage(m: Image, page: nat, buf: seq<byte>): (r: Image)
    requires 0 < page < PAGE_NUM && |buf| == PAGE_SIZE
    ensures var a, g := page * PAGE_SIZE, GARBAGE_TAB_START;
            && (page < SWAP_IDX ==> r[a..a + PAGE_SIZE] == buf)
            && r[g..g + 4] == (if WordAt(m, g) == MINUS_ONE then Le(a) else m[g..g + 4])
            && forall k :: 0 <= k < SWAP_START && !(a <= k < a + PAGE_SIZE) && !(g <= k < g + 4) ==> r[k] == m[k]
  {
    hide Word, Le;
    var m1 := Splice(Erased(m, SWAP_IDX), SWAP_START, buf);
    assert Page(m1, 0)[GARBAGE_TAB_START..GARBAGE_TAB_START + 4] == m[GARBAGE_TAB_START..GARBAGE_TAB_START + 4];
    Splice(Erased(Recorded(m1, page), page), page * PAGE_SIZE, if page == SWAP_IDX then Ones(PAGE_SIZE) else buf)
  }

  lemma DataIs(m: Image, page: nat, buf: seq<byte>)
    requires 0 < page < PAGE_NUM && |buf| == PAGE_SIZE
    ensures Exec(m, DataOps(m, page, buf)) == Erased(CopiedPage(m, page, buf), SWAP_IDX)
  {
    hide Exec, DataOps, CopyBackOps, Word, Le, Erased, Splice, Recorded, Filled;
    DataEnds(m, page, buf);
    FilledIs(m, buf);
    CopiedBack(Recorded(Filled(m, buf), page), page, buf);
  }

  /** The whole update, byte by byte. */
  lemma DataDone(m: Image, page: nat, buf: seq<byte>)
    requires 0 < page < PAGE_NUM && |buf| == PAGE_SIZE
    ensures var r, a, g := Exec(m, DataOps(m, page, buf)), page * PAGE_SIZE, GARBAGE_TAB_START;
            && r[SWAP_START..] == Ones(PAGE_SIZE) && (page < SWAP_IDX ==> r[a..a + PAGE_SIZE] == buf)
            && r[g..g + 4] == (if WordAt(m, g) == MINUS_ONE then Le(a) else m[g..g + 4])
            && forall k :: 0 <= k < SWAP_START && !(a <= k < a + PAGE_SIZE) && !(g <= k < g + 4) ==> r[k] == m[k]
  {
    hide Exec, DataOps, CopiedPage, Word, Le;
    DataIs(m, page, buf);
  }

  // ---------- power cuts ----------

  /** Before the page is touched. */
  lemma CutInSave(m: Image, page: nat, buf: seq<byte>, i: nat, k: nat)
    requires page < PAGE_NUM && |buf| == PAGE_SIZE && i < |SaveOps(m, page, buf)|
    ensures var c := Cut(m, SaveOps(m, page, buf), i, k);
            && (i == 0 ==> c == m)
            && (i == 1 ==> c == Splice(Erased(m, SWAP_IDX), SWAP_START, if k <= PAGE_SIZE then buf[..k] else buf))
            && (i >= 2 ==> WordAt(m, GARBAGE_TAB_START) == MINUS_ONE && i == 2 && var w := Le(page * PAGE_SIZE);
                c == Splice(Filled(m, buf), GARBAGE_TAB_START, if k <= 4 then w[..k] else w))
  {
    hide Splice, Le, Word;
    var ops := SaveOps(m, page, buf);
    assert ops[0] == Erase(SWAP_IDX) && ops[1] == Program(SWAP_START, buf);
    if i == 1 {
      assert Cut(m, ops, 1, k) == Cut(Erased(m, SWAP_IDX), ops[1..], 0, k);
    } else if i >= 2 {
      CutJoin(m, [Erase(SWAP_IDX), Program(SWAP_START, buf)], RecordOps(m, page), i, k);
      assert Page(m, 0)[GARBAGE_TAB_START..GARBAGE_TAB_START + 4] == m[GARBAGE_TAB_START..GARBAGE_TAB_START + 4];
    }
  }

  /** From then on, until the swap page is erased, only the page itself changes. */
  lemma CutInCopy(m: Image, page: nat, buf: seq<byte>, i: nat, k: nat)
    requires page < SWAP_IDX && |buf| == PAGE_SIZE && i <= |CopyBackOps(page, buf)|
    ensures var c, a := Cut(m, CopyBackOps(page, buf) + [Erase(SWAP_IDX)], i, k), page * PAGE_SIZE;
            c[..a] == m[..a] && c[a + PAGE_SIZE..] == m[a + PAGE_SIZE..]
  {
    hide Exec;
    var ops := CopyBackOps(page, buf);
    CutJoin(m, ops, [Erase(SWAP_IDX)], i, k);
    CopyOnPage(buf, page * PAGE_SIZE, page);
    CutKeepsRest(m, ops, i, k, page);
    CutWhole(m, ops, k);
  }

  lemma SavedParts(m: Image, page: nat, buf: seq<byte>)
    requires page < PAGE_NUM && |buf| == PAGE_SIZE
    ensures var r, g := Recorded(Filled(m, buf), page), GARBAGE_TAB_START;
            && Page(r, SWAP_IDX) == buf
            && r[g..g + 4] == if WordAt(m, g) == MINUS_ONE then Le(page * PAGE_SIZE) else m[g..g + 4]
    ensures |SaveOps(m, page, buf)| == if WordAt(m, GARBAGE_TAB_START) == MINUS_ONE then 3 else 2
  {
    hide Word, Le, Filled, Exec;
    var f, g, w := Filled(m, buf), GARBAGE_TAB_START, Le(page * PAGE_SIZE);
    SamePages(f, m);
    GarbageIs(m);
    SpliceApart(f, g, w, SWAP_START, SWAP_START + PAGE_SIZE);
    assert f[g..g + 4] == f[..SWAP_START][g..g + 4] && m[g..g + 4] == m[..SWAP_START][g..g + 4];
  }

  /** A cut in the update is one before the page is touched, one after, or none. */
  lemma CutParts(m: Image, page: nat, buf: seq<byte>, i: nat, k: nat)
    requires page < SWAP_IDX && |buf| == PAGE_SIZE && i < |DataOps(m, page, buf)|
    ensures var c, n := Cut(m, DataOps(m, page, buf), i, k), |SaveOps(m, page, buf)|;
            if i < n then c == Cut(m, SaveOps(m, page, buf), i, k)
            else
              var r, a := Recorded(Filled(m, buf), page), page * PAGE_SIZE;
              c[..a] == r[..a] && c[a + PAGE_SIZE..] == r[a + PAGE_SIZE..]
  {
    hide SaveOps, CopyBackOps, Cut, Exec, Filled, Recorded, Splice;
    CutJoin(m, SaveOps(m, page, buf), CopyBackOps(page, buf) + [Erase(SWAP_IDX)], i, k);
    if i >= |SaveOps(m, page, buf)| {
      SaveDone(m, page, buf);
      CutInCopy(Recorded(Filled(m, buf), page), page, buf, i - |SaveOps(m, page, buf)|, k);
    }
  }

  /** A write and what follows it. */
  lemma SpliceHead(m: Image, a: nat, b: seq<byte>, n: nat)
    requires |b| <= n && a + n <= RAMDISK_SIZE
    ensures Splice(m, a, b)[a..a + n] == b + m[a + |b|..a + n]
  {
  }

  lemma SaveGarbage(m: Image, page: nat, buf: seq<byte>, i: nat, k: nat)
    requires page < PAGE_NUM && |buf| == PAGE_SIZE && i < |SaveOps(m, page, buf)|
    ensures var c, g, w := Cut(m, SaveOps(m, page, buf), i, k), GARBAGE_TAB_START, Le(page * PAGE_SIZE);
            c[g..g + 4] == if i < 2 then m[g..g + 4] else if k < 4 then w[..k] + m[g + k..g + 4] else w
  {
    hide SaveOps, Cut, Word, Le, Splice, Filled;
    var g, w, part := GARBAGE_TAB_START, Le(page * PAGE_SIZE), if k <= PAGE_SIZE then buf[..k] else buf;
    CutInSave(m, page, buf, i, k);
    if i == 1 {
      SpliceApart(m, SWAP_START, Ones(PAGE_SIZE), g, g + 4);
      SpliceApart(Erased(m, SWAP_IDX), SWAP_START, part, g, g + 4);
    } else if i >= 2 {
      var f := Filled(m, buf);
      SpliceHead(f, g, if k <= 4 then w[..k] else w, 4);
      SameInside(m, f, 0, SWAP_START, g + (if k <= 4 then k else 4), g + 4);
    }
  }

  lemma DataLong(m: Image, page: nat, buf: seq<byte>)
    requires page < PAGE_NUM && |buf| == PAGE_SIZE
    ensures |DataOps(m, page, buf)| > |SaveOps(m, page, buf)|
  {
  }

  /** The garbage table's word after a cut. */
  lemma CutGarbage(m: Image, page: nat, buf: seq<byte>, i: nat, k: nat)
    requires 0 < page < SWAP_IDX && |buf| == PAGE_SIZE && WordAt(m, GARBAGE_TAB_START) == MINUS_ONE
    requires i <= |DataOps(m, page, buf)|
    ensures var c, g, w := Cut(m, DataOps(m, page, buf), i, k), GARBAGE_TAB_START, Le(page * PAGE_SIZE);
            c[g..g + 4] == if i < 2 then m[g..g + 4] else if i == 2 && k < 4 then w[..k] + m[g + k..g + 4] else w
  {
    hide SaveOps, Cut, Exec, Filled, Recorded, DataOps, Word, Le, Page, Splice;
    var g := GARBAGE_TAB_START;
    SavedParts(m, page, buf);
    if i == |DataOps(m, page, buf)| {
      CutWhole(m, DataOps(m, page, buf), k);
      DataDone(m, page, buf);
      DataLong(m, page, buf);
    } else {
      CutParts(m, page, buf, i, k);
      if i < 3 {
        SaveGarbage(m, page, buf, i, k);
      } else {
        var c, r := Cut(m, DataOps(m, page, buf), i, k), Recorded(Filled(m, buf), page);
        assert c[g..g + 4] == c[..page * PAGE_SIZE][g..g + 4] && r[g..g + 4] == r[..page * PAGE_SIZE][g..g + 4];
      }
    }
  }

  /** While the swap page is complete it holds the buffer. */
  lemma CutSwap(m: Image, page: nat, buf: seq<byte>, i: nat, k: nat)
    requires page < SWAP_IDX && |buf| == PAGE_SIZE && 1 <= i < |DataOps(m, page, buf)| && (i == 1 ==> k >= PAGE_SIZE)
    ensures Page(Cut(m, DataOps(m, page, buf), i, k), SWAP_IDX) == buf
  {
    hide SaveOps, Cut, Exec, Recorded, DataOps, Word, Le;
    SavedParts(m, page, buf);
    CutParts(m, page, buf, i, k);
    var c, r := Cut(m, DataOps(m, page, buf), i, k), Recorded(Filled(m, buf), page);
    if i < |SaveOps(m, page, buf)| {
      CutInSave(m, page, buf, i, k);
      FilledIs(m, buf);
    } else {
      var a := (page + 1) * PAGE_SIZE;
      assert Page(c, SWAP_IDX) == c[a..][SWAP_START - a..] && Page(r, SWAP_IDX) == r[a..][SWAP_START - a..];
    }
  }

  lemma TailOf(c: Image)
    ensures WordAt(c, SWAP_TAIL) == Word(Page(c, SWAP_IDX)[PAGE_SIZE - 4..])
  {
    assert c[SWAP_TAIL..SWAP_TAIL + 4] == Page(c, SWAP_IDX)[PAGE_SIZE - 4..];
  }

  /** A word whose record was cut short. */
  lemma HalfRecorded(page: nat, k: nat, b: seq<byte>)
    requires page < PAGE_NUM && 0 < k < 4 && |b| == 4 && Word(b) == MINUS_ONE
    ensures Word(Le(page * PAGE_SIZE)[..k] + b[k..]) >= RAMDISK_SIZE
    ensures Word(Le(page * PAGE_SIZE)[..k] + b[k..]) != MINUS_ONE
  {
    var w := Le(page * PAGE_SIZE);
    assert w[0] == 0 && b[3] == 0xFF;
    var r := w[..k] + b[k..];
    assert r[0] == 0 && r[3] == 0xFF;
  }

  lemma ErasedTail()
    ensures Word(Ones(PAGE_SIZE)[PAGE_SIZE - 4..]) == MINUS_ONE
  {
    assert Ones(PAGE_SIZE)[PAGE_SIZE - 4..] == [0xFF, 0xFF, 0xFF, 0xFF];
  }

  /**
   Power fails in the update of a data page, whose last word is not 0. The next mount goes on to
   recover nothing if the page was not recorded yet, this page once it was, also when the update was
   over, and no page of the flash when the record was cut short.
   */
  lemma NextMount(m: Image, page: nat, buf: seq<byte>, i: nat, k: nat)
    requires 0 < page < SWAP_IDX && |buf| == PAGE_SIZE && WordAt(m, GARBAGE_TAB_START) == MINUS_ONE
    requires Word(buf[PAGE_SIZE - 4..]) != 0 && i <= |DataOps(m, page, buf)|
    ensures var c := Cut(m, DataOps(m, page, buf), i, k);
            if i < 2 || (i == 2 && k == 0) then Pending(c) == 0
            else if i == 2 && k < 4 then Pending(c) >= RAMDISK_SIZE
            else Pending(c) == page * PAGE_SIZE
  {
    hide Cut, DataOps, Word, Le, Pending;
    var c, g := Cut(m, DataOps(m, page, buf), i, k), GARBAGE_TAB_START;
    PendingIs(c);
    TailOf(c);
    CutGarbage(m, page, buf, i, k);
    if i == |DataOps(m, page, buf)| {
      CutWhole(m, DataOps(m, page, buf), k);
      DataDone(m, page, buf);
      LastPage(c);
      ErasedTail();
    } else if i >= 2 {
      CutSwap(m, page, buf, i, k);
    }
    if i == 2 && 0 < k < 4 {
      HalfRecorded(page, k, m[g..g + 4]);
      assert m[g..g + 4][k..] == m[g + k..g + 4];
    } else if i == 2 && k == 0 {
      assert Le(page * PAGE_SIZE)[..0] + m[g..g + 4] == m[g..g + 4];
    }
  }

  /**
   While the swap page is complete, the next mount takes the data page for a metadata page exactly
   when its last word is 0, as it is when the page's last block ends a file.
   */
  lemma TakenForMetadata(m: Image, page: nat, buf: seq<byte>, i: nat, k: nat)
    requires page < SWAP_IDX && |buf| == PAGE_SIZE && 1 <= i < |DataOps(m, page, buf)| && (i == 1 ==> k >= PAGE_SIZE)
    ensures var c := Cut(m, DataOps(m, page, buf), i, k);
            Mounted(c)[..PAGE_SIZE] == if Word(buf[PAGE_SIZE - 4..]) == 0 then buf else c[..PAGE_SIZE]
  {
    hide Cut, DataOps, Word, Mounted;
    var c := Cut(m, DataOps(m, page, buf), i, k);
    CutSwap(m, page, buf, i, k);
    MountedIs(c);
    TailOf(c);
    LastPage(c);
  }

  // ---------- the code ----------

  /** The garbage table has one entry. */
  method Record(disk: Ramdisk, page: nat)
    requires disk.Valid() && page < PAGE_NUM
    modifies disk.mem, disk`log
    ensures disk.mem[..] == Recorded(old(disk.mem[..]), page)
    ensures disk.log == old(disk.log) + RecordOps(old(disk.mem[..]), page)
  {
    hide Word, Le, Splice;
    GarbageIs(disk.mem[..]);
    var err, section := disk.Read(GARBAGE_TAB_START, 4);
    assert section == disk.mem[..][GARBAGE_TAB_START..GARBAGE_TAB_START + 4];
    if Word(section) == MINUS_ONE {
      section := Le(page * PAGE_SIZE);
      err := disk.Write(GARBAGE_TAB_START, section);
    }
  }

  /** What the swap page holds once the target page has been erased. */
  lemma SourcePage(m: Image, page: nat, buf: seq<byte>)
    requires page < PAGE_NUM && |buf| == PAGE_SIZE
    ensures Erased(Recorded(Filled(m, buf), page), page)[SWAP_START..SWAP_START + PAGE_SIZE]
            == if page == SWAP_IDX then Ones(PAGE_SIZE) else buf
  {
    hide Filled, Recorded, Word;
    SavedParts(m, page, buf);
    var m2 := Recorded(Filled(m, buf), page);
    assert Page(m2, SWAP_IDX) == m2[SWAP_START..SWAP_START + PAGE_SIZE];
    if page != SWAP_IDX {
      SpliceApart(m2, page * PAGE_SIZE, Ones(PAGE_SIZE), SWAP_START, SWAP_START + PAGE_SIZE);
    }
  }

  lemma CopyBackStarts(m: Image, page: nat, buf: seq<byte>, data: seq<byte>)
    requires page < PAGE_NUM && |buf| == PAGE_SIZE && data == if page == SWAP_IDX then Ones(PAGE_SIZE) else buf
    ensures Exec(m, CopyBackOps(page, buf)) == Exec(Erased(m, page), CopyOps(data, page * PAGE_SIZE))
  {
    assert CopyBackOps(page, buf)[1..] == CopyOps(data, page * PAGE_SIZE);
  }

  lemma DataSteps(m: Image, page: nat, buf: seq<byte>)
    requires page < PAGE_NUM && |buf| == PAGE_SIZE
    ensures var m2 := Recorded(Splice(Erased(m, SWAP_IDX), SWAP_START, buf), page);
            var data := Erased(m2, page)[SWAP_START..SWAP_START + PAGE_SIZE];
            Exec(m, DataOps(m, page, buf)) == Erased(Exec(Erased(m2, page), CopyOps(data, page * PAGE_SIZE)), SWAP_IDX)
  {
    hide Exec, DataOps, CopyOps, Recorded, CopyBackOps, Filled, Splice, Erased;
    DataEnds(m, page, buf);
    FilledIs(m, buf);
    SourcePage(m, page, buf);
    CopyBackStarts(Recorded(Filled(m, buf), page), page, buf, if page == SWAP_IDX then Ones(PAGE_SIZE) else buf);
  }

  lemma DataOpsAre(m: Image, page: nat, buf: seq<byte>)
    requires page < PAGE_NUM && |buf| == PAGE_SIZE
    ensures var m1 := Splice(Erased(m, SWAP_IDX), SWAP_START, buf);
            var data := Erased(Recorded(m1, page), page)[SWAP_START..SWAP_START + PAGE_SIZE];
            DataOps(m, page, buf)
            == [Erase(SWAP_IDX)] + [Program(SWAP_START, buf)] + RecordOps(m1, page) + [Erase(page)]
               + CopyOps(data, page * PAGE_SIZE) + [Erase(SWAP_IDX)]
  {
    hide CopyOps, Recorded, Word, Filled, Exec, Page, Splice, Erased;
    FilledIs(m, buf);
    SamePages(Filled(m, buf), m);
    SourcePage(m, page, buf);
  }

  /**
   rw_page(page, true) with `buf` in the page buffer: the page becomes the buffer, and stays recorded
   in the garbage table if that was free.
   */
  method WriteDataPage(disk: Ramdisk, page: nat, buf: seq<byte>)
    requires disk.Valid() && 0 < page < PAGE_NUM && |buf| == PAGE_SIZE
    modifies disk.mem, disk`log
    ensures disk.mem[..] == Exec(old(disk.mem[..]), DataOps(old(disk.mem[..]), page, buf))
    ensures disk.log == old(disk.log) + DataOps(old(disk.mem[..]), page, buf)
    ensures disk.mem[SWAP_START..] == Ones(PAGE_SIZE)
    ensures page < SWAP_IDX ==> disk.mem[page * PAGE_SIZE..(page + 1) * PAGE_SIZE] == buf
    ensures var g := GARBAGE_TAB_START;
            disk.mem[g..g + 4] == if WordAt(old(disk.mem[..]), g) == MINUS_ONE then Le(page * PAGE_SIZE)
              else old(disk.mem[g..g + 4])
    ensures var a, g := page * PAGE_SIZE, GARBAGE_TAB_START;
            forall k :: 0 <= k < SWAP_START && !(a <= k < a + PAGE_SIZE) && !(g <= k < g + 4) ==>
              disk.mem[k] == old(disk.mem[k])
  {
    hide Exec, DataOps, CopyOps, Recorded, Erased, Splice, Le, Word;
    ghost var m := disk.mem[..];
    DataSteps(m, page, buf);
    DataDone(m, page, buf);
    disk.ErasePage(SWAP_IDX);
    var err := disk.Write(SWAP_START, buf);
    Record(disk, page);
    disk.ErasePage(page);
    err := CopyFlashToFlash(disk, page * PAGE_SIZE, SWAP_START, PAGE_SIZE);
    disk.ErasePage(SWAP_IDX);
    DataOpsAre(m, page, buf);
  }

  /** rw_page(page, true); a page number past the flash is an error. */
  method WritePage(disk: Ramdisk, page: nat, buf: seq<byte>) returns (err: bool)
    requires disk.Valid() && |buf| == PAGE_SIZE
    modifies disk.mem, disk`log
    ensures err <==> page >= PAGE_NUM
    ensures err ==> disk.mem[..] == old(disk.mem[..])
    ensures err ==> disk.log == old(disk.log)
    ensures !err ==>
              var ops := if page == 0 then UpdateOps(Sealed(buf)) else DataOps(old(disk.mem[..]), page, buf);
              disk.mem[..] == Exec(old(disk.mem[..]), ops) && disk.log == old(disk.log) + ops
  {
    hide Exec, DataOps, UpdateOps, Sealed;
    if page >= PAGE_NUM { return true; }
    if page == 0 {
      WriteMetadata(disk, buf);
    } else {
      WriteDataPage(disk, page, buf);
    }
    err := false;
  }
}
