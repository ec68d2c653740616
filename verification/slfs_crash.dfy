/**
 The update of the metadata page through the swap page, and what a mount makes of it after a power
 cut (rw_page, copy_flash_to_flash, recover_page and the first step of slfs_mount in slfs.c).
 */
module SlfsCrash {
  import opened RamdiskIo
  import opened SlfsDisk
  import opened SlfsFiles

  const SWAP_IDX := PAGE_NUM - 1
  const SWAP_START := SWAP_IDX * PAGE_SIZE
  const SWAP_TAIL := SWAP_START + PAGE_SIZE - 4

  predicate Fits(op: Op) {
    match op
    case Erase(p) => p < PAGE_NUM
    case Program(a, b) => a + |b| <= RAMDISK_SIZE
  }

  predicate AllFit(ops: seq<Op>) {
    forall i :: 0 <= i < |ops| ==> Fits(ops[i])
  }

  function Apply(m: Image, op: Op): Image
    requires Fits(op)
  {
    match op
    case Erase(p) => Erased(m, p)
    case Program(a, b) => Splice(m, a, b)
  }

  function Exec(m: Image, ops: seq<Op>): Image
    requires AllFit(ops)
    decreases |ops|
  {
    if ops == [] then m else Exec(Apply(m, ops[0]), ops[1..])
  }

  /**
   The flash when the power fails in operation `i`, `k` bytes into it if it is a write; a page erase is
   atomic.
   */
  function Cut(m: Image, ops: seq<Op>, i: nat, k: nat): Image
    requires AllFit(ops) && i <= |ops|
    decreases i
  {
    if i > 0 then Cut(Apply(m, ops[0]), ops[1..], i - 1, k)
    else if ops == [] then m
    else
      match ops[0]
      case Erase(_) => m
      case Program(a, b) => Splice(m, a, if k <= |b| then b[..k] else b)
  }

  /** copy_flash_to_flash, in steps of one block. */
  function CopyOps(data: seq<byte>, dst: nat): (ops: seq<Op>)
    requires dst + |data| <= RAMDISK_SIZE
    ensures AllFit(ops)
  {
    if data == [] then []
    else
      var n := if |data| > DATABLK_SIZE then DATABLK_SIZE else |data|;
      [Program(dst, data[..n])] + CopyOps(data[n..], dst + n)
  }

  function Page(m: Image, p: nat): (s: seq<byte>)
    requires p < PAGE_NUM
    ensures |s| == PAGE_SIZE
  {
    m[p * PAGE_SIZE..(p + 1) * PAGE_SIZE]
  }

  /** The buffer as rw_page writes it for the metadata page: its last word is the page's address, 0. */
  function Sealed(buf: seq<byte>): (s: seq<byte>)
    requires |buf| == PAGE_SIZE
    ensures |s| == PAGE_SIZE
  {
    buf[..PAGE_SIZE - 4] + Le(0)
  }

  /** The rewrite of the metadata page from a source in the swap page. */
  function RestoreOps(data: seq<byte>): (ops: seq<Op>)
    requires |data| == PAGE_SIZE
    ensures AllFit(ops)
  {
    [Erase(0)] + CopyOps(data, 0)
  }

  /** rw_page(0, true) */
  function UpdateOps(image: seq<byte>): (ops: seq<Op>)
    requires |image| == PAGE_SIZE
    ensures AllFit(ops)
  {
    [Erase(SWAP_IDX), Program(SWAP_START, image)] + RestoreOps(image) + [Erase(SWAP_IDX)]
  }

  /** The swap page's last word says that it holds a metadata page. */
  predicate Armed(m: Image) {
    WordAt(m, SWAP_TAIL) == 0
  }

  /** A mount would leave the metadata page as it is. */
  predicate Settled(m: Image) {
    !Armed(m) || Page(m, 0) == Page(m, SWAP_IDX)
  }

  /** The garbage table's one word in a metadata page. */
  function GarbageWord(page: seq<byte>): nat
    requires |page| == PAGE_SIZE
  {
    Word(page[GARBAGE_TAB_START..GARBAGE_TAB_START + 4])
  }

  lemma GarbageIs(m: Image)
    ensures GarbageWord(Page(m, 0)) == WordAt(m, GARBAGE_TAB_START)
  {
    assert Page(m, 0)[GARBAGE_TAB_START..GARBAGE_TAB_START + 4] == m[GARBAGE_TAB_START..GARBAGE_TAB_START + 4];
  }

  /** "slfs filesystem" and the end of the string: what a mount looks for before it formats. */
  const MAGIC: seq<byte> := [115, 108, 102, 115, 32, 102, 105, 108, 101, 115, 121, 115, 116, 101, 109, 0]

  predicate Formatted(m: Image) {
    m[..16] == MAGIC
  }

  /** The data page that a mount goes on to recover; 0 if there is none. */
  function Pending(m: Image): nat {
    var g := GarbageWord(Page(m, 0));
    if Armed(m) || g == MINUS_ONE then 0 else g
  }

  /** The garbage table names no data page. */
  predicate NoGarbage(page: seq<byte>)
    requires |page| == PAGE_SIZE
  {
    GarbageWord(page) == MINUS_ONE || GarbageWord(page) == 0
  }

  /** The recovery at mount, when the garbage table names no data page. */
  function RecoveryOps(m: Image): (ops: seq<Op>)
    ensures AllFit(ops)
  {
    if Armed(m) then RestoreOps(Page(m, SWAP_IDX)) else []
  }

  function Mounted(m: Image): Image {
    Exec(m, RecoveryOps(m))
  }

  /** The flash after a mount that was cut short. */
  function CutMount(m: Image, cut: (nat, nat)): Image {
    var ops := RecoveryOps(m);
    Cut(m, ops, if cut.0 <= |ops| then cut.0 else |ops|, cut.1)
  }

  /** The flash after mounts that were each cut short. */
  function CutMounts(m: Image, cuts: seq<(nat, nat)>): Image
    decreases |cuts|
  {
    if cuts == [] then m else CutMounts(CutMount(m, cuts[0]), cuts[1..])
  }

  /** None of these mounts, nor the one after them, goes on to a data page. */
  predicate NonePending(m: Image, cuts: seq<(nat, nat)>)
    decreases |cuts|
  {
    Pending(m) == 0 && (cuts == [] || NonePending(CutMount(m, cuts[0]), cuts[1..]))
  }

  lemma {:induction false} ExecJoin(m: Image, a: seq<Op>, b: seq<Op>)
    requires AllFit(a) && AllFit(b)
    ensures Exec(m, a + b) == Exec(Exec(m, a), b)
    decreases |a|
  {
    if a == [] {
      assert a + b == b;
    } else {
      assert (a + b)[1..] == a[1..] + b;
      ExecJoin(Apply(m, a[0]), a[1..], b);
    }
  }

  lemma {:induction false} CutJoin(m: Image, a: seq<Op>, b: seq<Op>, i: nat, k: nat)
    requires AllFit(a) && AllFit(b) && i <= |a| + |b|
    ensures Cut(m, a + b, i, k) == if i < |a| then Cut(m, a, i, k) else Cut(Exec(m, a), b, i - |a|, k)
    decreases |a|
  {
    if a == [] {
      assert a + b == b;
    } else if i > 0 {
      assert (a + b)[1..] == a[1..] + b;
      CutJoin(Apply(m, a[0]), a[1..], b, i - 1, k);
    }
  }

  /** Operations on one page alone. */
  predicate OnPage(ops: seq<Op>, page: nat) {
    forall i :: 0 <= i < |ops| ==>
      match ops[i]
      case Erase(p) => p == page
      case Program(a, b) => page * PAGE_SIZE <= a && a + |b| <= (page + 1) * PAGE_SIZE
  }

  lemma {:induction false} CopyOnPage(data: seq<byte>, dst: nat, page: nat)
    requires page < PAGE_NUM && page * PAGE_SIZE <= dst && dst + |data| <= (page + 1) * PAGE_SIZE
    ensures OnPage(CopyOps(data, dst), page)
    decreases |data|
  {
    if data != [] {
      var n := if |data| > DATABLK_SIZE then DATABLK_SIZE else |data|;
      CopyOnPage(data[n..], dst + n, page);
    }
  }

  /** They leave all other pages alone, wherever they are cut. */
  lemma {:induction false} CutKeepsRest(m: Image, ops: seq<Op>, i: nat, k: nat, page: nat)
    requires AllFit(ops) && page < PAGE_NUM && OnPage(ops, page) && i <= |ops|
    ensures var r, a := Cut(m, ops, i, k), page * PAGE_SIZE;
            r[..a] == m[..a] && r[a + PAGE_SIZE..] == m[a + PAGE_SIZE..]
    decreases i
  {
    if i > 0 {
      var m1, a := Apply(m, ops[0]), page * PAGE_SIZE;
      assert m1[..a] == m[..a] && m1[a + PAGE_SIZE..] == m[a + PAGE_SIZE..];
      CutKeepsRest(m1, ops[1..], i - 1, k, page);
    }
  }

  lemma {:induction false} CutWhole(m: Image, ops: seq<Op>, k: nat)
    requires AllFit(ops)
    ensures Cut(m, ops, |ops|, k) == Exec(m, ops)
    decreases |ops|
  {
    if ops != [] {
      assert AllFit(ops[1..]);
      hide Apply;
      CutWhole(Apply(m, ops[0]), ops[1..], k);
    }
  }

  lemma SpliceTwice(m: Image, a: nat, data: seq<byte>, n: nat)
    requires a + |data| <= RAMDISK_SIZE && n <= |data|
    ensures Splice(Splice(m, a, data[..n]), a + n, data[n..]) == Splice(m, a, data)
  {
  }

  lemma {:induction false} Copied(m: Image, data: seq<byte>, dst: nat)
    requires dst + |data| <= RAMDISK_SIZE
    ensures Exec(m, CopyOps(data, dst)) == Splice(m, dst, data)
    decreases |data|
  {
    if data == [] {
      assert Splice(m, dst, data) == m;
    } else {
      hide Splice;
      var n := if |data| > DATABLK_SIZE then DATABLK_SIZE else |data|;
      var m1 := Splice(m, dst, data[..n]);
      assert CopyOps(data, dst)[1..] == CopyOps(data[n..], dst + n);
      Copied(m1, data[n..], dst + n);
      SpliceTwice(m, dst, data, n);
    }
  }

  /** Erasing and copying make the metadata page what was copied. */
  lemma Restored(m: Image, data: seq<byte>)
    requires |data| == PAGE_SIZE
    ensures var r := Exec(m, RestoreOps(data)); Page(r, 0) == data && r[PAGE_SIZE..] == m[PAGE_SIZE..]
  {
    assert RestoreOps(data)[1..] == CopyOps(data, 0);
    Copied(Erased(m, 0), data, 0);
  }

  lemma RestoreOnPage0(data: seq<byte>)
    requires |data| == PAGE_SIZE
    ensures OnPage(RestoreOps(data), 0)
  {
    CopyOnPage(data, 0, 0);
  }

  ghost predicate Holding(m: Image, image: seq<byte>) {
    Armed(m) && Page(m, SWAP_IDX) == image
  }

  lemma SealedArms(m: Image, buf: seq<byte>)
    requires |buf| == PAGE_SIZE && Page(m, SWAP_IDX) == Sealed(buf)
    ensures Holding(m, Sealed(buf))
  {
    assert m[SWAP_TAIL..SWAP_TAIL + 4] == Page(m, SWAP_IDX)[PAGE_SIZE - 4..] == Le(0);
  }

  /** Before the swap page is erased nothing has changed. */
  lemma CutAtStart(m: Image, image: seq<byte>, k: nat)
    requires |image| == PAGE_SIZE
    ensures Cut(m, UpdateOps(image), 0, k) == m
  {
    assert UpdateOps(image)[0] == Erase(SWAP_IDX);
  }

  lemma HighByte(b: seq<byte>)
    requires |b| == 4 && b[3] == 0xFF
    ensures Word(b) >= 0xFF00_0000
  {
  }

  /** Before the swap page is complete: its last byte is still erased, so it is not armed. */
  lemma CutInSwap(m: Image, image: seq<byte>, k: nat)
    requires |image| == PAGE_SIZE && k < PAGE_SIZE
    ensures var c := Cut(m, UpdateOps(image), 1, k); !Armed(c) && c[..SWAP_START] == m[..SWAP_START]
  {
    hide Word, RestoreOps, CopyOps;
    var ops := UpdateOps(image);
    assert ops[0] == Erase(SWAP_IDX) && ops[1] == Program(SWAP_START, image);
    var m1 := Erased(m, SWAP_IDX);
    var c := Splice(m1, SWAP_START, image[..k]);
    assert ops[1..][0] == ops[1] && Cut(m, ops, 1, k) == Cut(m1, ops[1..], 0, k) == c;
    assert c[SWAP_TAIL + 3] == 0xFF;
    assert c[SWAP_TAIL..SWAP_TAIL + 4][3] == 0xFF;
    HighByte(c[SWAP_TAIL..SWAP_TAIL + 4]);
  }

  /** The flash once the swap page is written. */
  function Filled(m: Image, image: seq<byte>): (r: Image)
    requires |image| == PAGE_SIZE
    ensures r == Exec(m, [Erase(SWAP_IDX), Program(SWAP_START, image)])
    ensures Page(r, SWAP_IDX) == image && r[..SWAP_START] == m[..SWAP_START]
  {
    var m1 := Erased(m, SWAP_IDX);
    assert [Erase(SWAP_IDX), Program(SWAP_START, image)][1..] == [Program(SWAP_START, image)];
    assert Exec(m1, [Program(SWAP_START, image)]) == Splice(m1, SWAP_START, image) by {
      assert [Program(SWAP_START, image)][1..] == [];
    }
    Splice(m1, SWAP_START, image)
  }

  lemma FilledIs(m: Image, image: seq<byte>)
    requires |image| == PAGE_SIZE
    ensures Filled(m, image) == Splice(Erased(m, SWAP_IDX), SWAP_START, image)
  {
  }

  lemma CutFilled(m: Image, image: seq<byte>, k: nat)
    requires |image| == PAGE_SIZE && k >= PAGE_SIZE && 1 < |UpdateOps(image)|
    ensures Cut(m, UpdateOps(image), 1, k) == Filled(m, image)
  {
    var ops := UpdateOps(image);
    assert ops[0] == Erase(SWAP_IDX) && ops[1..][0] == Program(SWAP_START, image);
    assert image[..PAGE_SIZE] == image;
    hide Splice;
    assert Cut(m, ops, 1, k) == Cut(Erased(m, SWAP_IDX), ops[1..], 0, k);
    FilledIs(m, image);
  }

  lemma UpdateParts(image: seq<byte>)
    requires |image| == PAGE_SIZE
    ensures UpdateOps(image) == [Erase(SWAP_IDX), Program(SWAP_START, image)] + (RestoreOps(image) + [Erase(SWAP_IDX)])
    ensures AllFit([Erase(SWAP_IDX), Program(SWAP_START, image)]) && AllFit(RestoreOps(image) + [Erase(SWAP_IDX)])
  {
  }

  lemma CutInRestore(m: Image, image: seq<byte>, i: nat, k: nat)
    requires |image| == PAGE_SIZE && 2 <= i < |UpdateOps(image)|
    ensures Cut(m, UpdateOps(image), i, k)[PAGE_SIZE..] == Filled(m, image)[PAGE_SIZE..]
  {
    hide RestoreOps, UpdateOps, Splice, Filled, Exec;
    var a, b, c := [Erase(SWAP_IDX), Program(SWAP_START, image)], RestoreOps(image), [Erase(SWAP_IDX)];
    var m2 := Filled(m, image);
    UpdateParts(image);
    CutJoin(m, a, b + c, i, k);
    CutJoin(m2, b, c, i - 2, k);
    RestoreOnPage0(image);
    CutKeepsRest(m2, b, i - 2, k, 0);
    if i - 2 == |b| { CutWhole(m2, b, k); }
  }

  lemma RestPages(r: Image, m: Image)
    requires r[PAGE_SIZE..] == m[PAGE_SIZE..]
    ensures Page(r, SWAP_IDX) == Page(m, SWAP_IDX) && r[PAGE_SIZE..SWAP_START] == m[PAGE_SIZE..SWAP_START]
    ensures Armed(r) == Armed(m)
  {
    assert r[PAGE_SIZE..][SWAP_START - PAGE_SIZE..] == m[PAGE_SIZE..][SWAP_START - PAGE_SIZE..];
    assert r[PAGE_SIZE..][..SWAP_START - PAGE_SIZE] == m[PAGE_SIZE..][..SWAP_START - PAGE_SIZE];
    assert r[SWAP_TAIL..SWAP_TAIL + 4] == Page(r, SWAP_IDX)[PAGE_SIZE - 4..];
    assert m[SWAP_TAIL..SWAP_TAIL + 4] == Page(m, SWAP_IDX)[PAGE_SIZE - 4..];
  }

  /** Once the swap page is complete it holds the new image until it is erased again. */
  lemma CutAfterSwap(m: Image, buf: seq<byte>, i: nat, k: nat)
    requires |buf| == PAGE_SIZE && 1 <= i < |UpdateOps(Sealed(buf))| && (i == 1 ==> k >= PAGE_SIZE)
    ensures var c := Cut(m, UpdateOps(Sealed(buf)), i, k);
            Holding(c, Sealed(buf)) && c[PAGE_SIZE..SWAP_START] == m[PAGE_SIZE..SWAP_START]
  {
    hide Cut, Exec, Sealed, CopyOps, Armed, Holding, RestoreOps, UpdateOps;
    var image := Sealed(buf);
    var m2, r := Filled(m, image), Cut(m, UpdateOps(image), i, k);
    if i == 1 {
      CutFilled(m, image, k);
    } else {
      CutInRestore(m, image, i, k);
    }
    RestPages(r, m2);
    SealedArms(r, buf);
    assert r[PAGE_SIZE..SWAP_START] == m2[..SWAP_START][PAGE_SIZE..] == m[..SWAP_START][PAGE_SIZE..];
  }

  lemma UpdateEnds(m: Image, image: seq<byte>)
    requires |image| == PAGE_SIZE
    ensures Exec(m, UpdateOps(image)) == Erased(Exec(Filled(m, image), RestoreOps(image)), SWAP_IDX)
  {
    hide RestoreOps, UpdateOps, Splice, Filled;
    var a, b, c := [Erase(SWAP_IDX), Program(SWAP_START, image)], RestoreOps(image), [Erase(SWAP_IDX)];
    UpdateParts(image);
    ExecJoin(m, a, b + c);
    ExecJoin(Filled(m, image), b, c);
    assert c[1..] == [];
  }

  lemma SwapErased(m: Image)
    ensures var r := Erased(m, SWAP_IDX);
            && !Armed(r) && Page(r, 0) == Page(m, 0) && r[PAGE_SIZE..SWAP_START] == m[PAGE_SIZE..SWAP_START]
            && Page(r, SWAP_IDX) == Ones(PAGE_SIZE)
  {
    var r := Erased(m, SWAP_IDX);
    assert r[SWAP_TAIL..SWAP_TAIL + 4] == Ones(4);
  }

  /** The whole update: the swap page ends up erased. */
  lemma CutAtEnd(m: Image, buf: seq<byte>, k: nat)
    requires |buf| == PAGE_SIZE
    ensures var ops := UpdateOps(Sealed(buf));
            var c := Cut(m, ops, |ops|, k);
            && !Armed(c) && Page(c, 0) == Sealed(buf) && c[PAGE_SIZE..SWAP_START] == m[PAGE_SIZE..SWAP_START]
            && Page(c, SWAP_IDX) == Ones(PAGE_SIZE)
  {
    hide Cut, Exec, Sealed, CopyOps, Armed, RestoreOps, UpdateOps, Splice, Erased;
    var image := Sealed(buf);
    var m2 := Filled(m, image);
    var m3 := Exec(m2, RestoreOps(image));
    CutWhole(m, UpdateOps(image), k);
    UpdateEnds(m, image);
    Restored(m2, image);
    RestPages(m3, m2);
    SwapErased(m3);
    assert m3[PAGE_SIZE..SWAP_START] == m2[..SWAP_START][PAGE_SIZE..] == m[..SWAP_START][PAGE_SIZE..];
  }

  lemma CutMountKeeps(m: Image, image: seq<byte>, cut: (nat, nat))
    requires |image| == PAGE_SIZE && Holding(m, image)
    ensures var r := CutMount(m, cut); Holding(r, image) && r[PAGE_SIZE..SWAP_START] == m[PAGE_SIZE..SWAP_START]
  {
    hide RestoreOps, Cut, OnPage, Word;
    var ops := RecoveryOps(m);
    RestoreOnPage0(image);
    CutKeepsRest(m, ops, if cut.0 <= |ops| then cut.0 else |ops|, cut.1, 0);
    RestPages(CutMount(m, cut), m);
  }

  /** A mount of an armed flash, cut short or not, keeps it armed with the same image. */
  lemma {:induction false} StaysHolding(m: Image, image: seq<byte>, cuts: seq<(nat, nat)>)
    requires |image| == PAGE_SIZE && Holding(m, image)
    ensures var r := CutMounts(m, cuts); Holding(r, image) && r[PAGE_SIZE..SWAP_START] == m[PAGE_SIZE..SWAP_START]
    ensures NonePending(m, cuts)
    decreases |cuts|
  {
    hide CutMount, Word;
    if cuts != [] {
      CutMountKeeps(m, image, cuts[0]);
      StaysHolding(CutMount(m, cuts[0]), image, cuts[1..]);
    }
  }

  lemma {:induction false} StaysDisarmed(m: Image, cuts: seq<(nat, nat)>)
    requires !Armed(m)
    ensures CutMounts(m, cuts) == m && Mounted(m) == m && (NoGarbage(Page(m, 0)) ==> NonePending(m, cuts))
    decreases |cuts|
  {
    if cuts != [] {
      StaysDisarmed(m, cuts[1..]);
    }
  }

  lemma MountRestores(m: Image, image: seq<byte>)
    requires |image| == PAGE_SIZE && Holding(m, image)
    ensures var r := Mounted(m);
            Page(r, 0) == image && Holding(r, image) && r[PAGE_SIZE..SWAP_START] == m[PAGE_SIZE..SWAP_START]
  {
    Restored(m, image);
    RestPages(Mounted(m), m);
  }

  /** The last word of the metadata page is not part of its garbage table. */
  lemma SealedGarbage(buf: seq<byte>)
    requires |buf| == PAGE_SIZE
    ensures NoGarbage(Sealed(buf)) <==> NoGarbage(buf)
  {
    assert Sealed(buf)[GARBAGE_TAB_START..GARBAGE_TAB_START + 4] == buf[GARBAGE_TAB_START..GARBAGE_TAB_START + 4];
  }

  /**
   A metadata update with the contents `buf`, cut in operation `at`, `bytes` into it, and the cut
   mounts that follow.
   */
  datatype Update = Update(buf: seq<byte>, at: nat, bytes: nat, cuts: seq<(nat, nat)>)

  predicate UpdateOk(u: Update) {
    |u.buf| == PAGE_SIZE && NoGarbage(u.buf) && u.at <= |UpdateOps(Sealed(u.buf))|
  }

  /** The power fails after the swap page is complete. */
  predicate Completed(u: Update) {
    u.at > 1 || (u.at == 1 && u.bytes >= PAGE_SIZE)
  }

  function PowerCut(m: Image, u: Update): Image
    requires UpdateOk(u)
  {
    Cut(m, UpdateOps(Sealed(u.buf)), u.at, u.bytes)
  }

  /** The flash after the update, the power cut, the cut mounts and a whole mount. */
  function Recovered(m: Image, u: Update): Image
    requires UpdateOk(u)
  {
    Mounted(CutMounts(PowerCut(m, u), u.cuts))
  }

  /** Between recoveries the flash is settled, armed or not, and no data page is pending. */
  ghost predicate Sound(m: Image) {
    Settled(m) && NoGarbage(Page(m, 0))
  }

  /** Mounts, cut short or not, of a sound flash. */
  lemma MountsSettled(m: Image, cuts: seq<(nat, nat)>)
    requires Sound(m)
    ensures var r := Mounted(CutMounts(m, cuts));
            Page(r, 0) == Page(m, 0) && r[PAGE_SIZE..SWAP_START] == m[PAGE_SIZE..SWAP_START] && Sound(r)
    ensures NonePending(m, cuts)
  {
    hide CutMounts, Mounted, Armed, NoGarbage, NonePending;
    if Armed(m) {
      StaysHolding(m, Page(m, 0), cuts);
      MountRestores(CutMounts(m, cuts), Page(m, 0));
    } else {
      StaysDisarmed(m, cuts);
    }
  }

  lemma SamePages(r: Image, m: Image)
    requires r[..SWAP_START] == m[..SWAP_START]
    ensures Page(r, 0) == Page(m, 0) && r[PAGE_SIZE..SWAP_START] == m[PAGE_SIZE..SWAP_START]
  {
    assert Page(r, 0) == r[..SWAP_START][..PAGE_SIZE] && Page(m, 0) == m[..SWAP_START][..PAGE_SIZE];
    assert r[..SWAP_START][PAGE_SIZE..] == m[..SWAP_START][PAGE_SIZE..];
  }

  /**
   Power may fail anywhere in the update of the metadata page and then in any number of mounts. The
   next whole mount leaves the old page, if the swap page was not complete, or else the new one, and
   leaves the data pages alone; and the flash is again as it was required to be.
   */
  lemma MetadataAtomic(m: Image, u: Update)
    requires UpdateOk(u) && Sound(m)
    ensures var r := Recovered(m, u);
            && Page(r, 0) == (if Completed(u) then Sealed(u.buf) else Page(m, 0))
            && r[PAGE_SIZE..SWAP_START] == m[PAGE_SIZE..SWAP_START] && Sound(r)
    ensures NonePending(PowerCut(m, u), u.cuts)
  {
    hide UpdateOps, Cut, CutMounts, Mounted, Armed, Sealed, NoGarbage, NonePending;
    var image, c := Sealed(u.buf), PowerCut(m, u);
    SealedGarbage(u.buf);
    if u.at == 0 {
      CutAtStart(m, image, u.bytes);
      MountsSettled(m, u.cuts);
    } else if !Completed(u) {
      CutInSwap(m, image, u.bytes);
      StaysDisarmed(c, u.cuts);
      SamePages(c, m);
    } else if u.at == |UpdateOps(image)| {
      CutAtEnd(m, u.buf, u.bytes);
      StaysDisarmed(c, u.cuts);
    } else {
      CutAfterSwap(m, u.buf, u.at, u.bytes);
      StaysHolding(c, image, u.cuts);
      MountRestores(CutMounts(c, u.cuts), image);
    }
  }

  /** A page whose first bytes are the magic string makes the flash one that a mount does not format. */
  lemma MagicPage(m: Image)
    ensures Formatted(m) <==> Page(m, 0)[..16] == MAGIC
  {
    assert Page(m, 0)[..16] == m[..16];
  }

  lemma MagicSealed(buf: seq<byte>)
    requires |buf| == PAGE_SIZE
    ensures Sealed(buf)[..16] == buf[..16]
  {
  }

  predicate AllOk(us: seq<Update>) {
    forall i :: 0 <= i < |us| ==> UpdateOk(us[i])
  }

  function RecoveredAll(m: Image, us: seq<Update>): Image
    requires AllOk(us)
  {
    if us == [] then m else Recovered(RecoveredAll(m, us[..|us| - 1]), us[|us| - 1])
  }

  /** The last image whose swap page was complete; the first page if there was none. */
  function LastImage(page: seq<byte>, us: seq<Update>): (r: seq<byte>)
    requires AllOk(us) && |page| == PAGE_SIZE
    ensures |r| == PAGE_SIZE
  {
    if us == [] then page
    else if Completed(us[|us| - 1]) then Sealed(us[|us| - 1].buf)
    else LastImage(page, us[..|us| - 1])
  }

  /** The mounts after the i-th update find no data page to recover. */
  predicate NonePendingAt(m: Image, us: seq<Update>, i: nat)
    requires AllOk(us) && i < |us|
  {
    NonePending(PowerCut(RecoveredAll(m, us[..i]), us[i]), us[i].cuts)
  }

  /**
   Over any run of metadata updates, each cut anywhere and followed by any number of cut mounts and a
   whole one: the metadata page is the last image whose swap page was complete, and the data pages
   are as they were.
   */
  lemma {:induction false} RunAtomic(m: Image, us: seq<Update>)
    requires AllOk(us) && Sound(m)
    ensures var r := RecoveredAll(m, us);
            && Page(r, 0) == LastImage(Page(m, 0), us)
            && r[PAGE_SIZE..SWAP_START] == m[PAGE_SIZE..SWAP_START] && Sound(r)
    ensures forall i :: 0 <= i < |us| ==> NonePendingAt(m, us, i)
  {
    hide Recovered, Sound, NonePending, Page, UpdateOk;
    if us != [] {
      var n := |us| - 1;
      RunAtomic(m, us[..n]);
      MetadataAtomic(RecoveredAll(m, us[..n]), us[n]);
      forall i | 0 <= i < |us| ensures NonePendingAt(m, us, i) {
        if i < n { assert NonePendingAt(m, us[..n], i) && us[..n][..i] == us[..i]; }
      }
    }
  }

  lemma {:induction false} LastMagic(page: seq<byte>, us: seq<Update>)
    requires AllOk(us) && |page| == PAGE_SIZE && page[..16] == MAGIC
    requires forall i :: 0 <= i < |us| ==> us[i].buf[..16] == MAGIC
    ensures LastImage(page, us)[..16] == MAGIC
  {
    hide Sealed;
    if us != [] {
      var n := |us| - 1;
      LastMagic(page, us[..n]);
      MagicSealed(us[n].buf);
    }
  }

  /**
   When all buffers have the magic string, no run of updates, cut anywhere, ever makes a mount format
   the flash.
   */
  lemma RunFormatted(m: Image, us: seq<Update>, n: nat)
    requires AllOk(us) && Sound(m) && Formatted(m) && n <= |us|
    requires forall i :: 0 <= i < |us| ==> us[i].buf[..16] == MAGIC
    ensures Formatted(RecoveredAll(m, us[..n]))
  {
    hide RecoveredAll, LastImage, Sound, UpdateOk, Page, Formatted;
    RunAtomic(m, us[..n]);
    MagicPage(m);
    LastMagic(Page(m, 0), us[..n]);
    MagicPage(RecoveredAll(m, us[..n]));
  }

  /** The first block of the swap page, which the allocator hands out like any other. */
  const SWAP_BLK := (SWAP_START - DATABLK_START) / DATABLK_SIZE

  /** The record of inode `i` in a metadata page. */
  function Record(page: seq<byte>, i: nat): seq<byte>
    requires |page| == PAGE_SIZE && i < INODE_MAX_CNT
  {
    page[InodeAddr(i)..InodeAddr(i + 1)]
  }

  lemma SameInside(m: Image, r: Image, lo: nat, hi: nat, a: nat, b: nat)
    requires lo <= a <= b <= hi <= RAMDISK_SIZE && r[lo..hi] == m[lo..hi]
    ensures r[a..b] == m[a..b]
  {
    forall k | a <= k < b ensures r[k] == m[k] {
      assert r[k] == r[lo..hi][k - lo] && m[k] == m[lo..hi][k - lo];
    }
  }

  lemma SameInode(m: Image, r: Image, i: nat)
    requires i < INODE_MAX_CNT && Record(Page(r, 0), i) == Record(Page(m, 0), i)
    ensures InodeAt(r, i) == InodeAt(m, i)
  {
    var a, z := InodeAddr(i), InodeAddr(i + 1);
    assert r[a..z] == Record(Page(r, 0), i) && m[a..z] == Record(Page(m, 0), i);
    hide Word;
    SameInside(m, r, a, z, a, a + 4);
    SameInside(m, r, a, z, a + 4, a + 8);
    SameInside(m, r, a, z, a + 8, a + 12);
    SameInside(m, r, a, z, a + 12, a + 16);
    SameInside(m, r, a, z, a + 16, a + 20);
    SameInside(m, r, a, z, a + 20, a + INODE_SIZE);
  }

  lemma SameBlk(m: Image, r: Image, b: nat)
    requires b < SWAP_BLK && r[PAGE_SIZE..SWAP_START] == m[PAGE_SIZE..SWAP_START]
    ensures BlkAt(r, b) == BlkAt(m, b)
  {
    hide Word;
    var a, t := BlkAddr(b), BlkAddr(b) + PAYLOAD_SIZE;
    SameInside(m, r, PAGE_SIZE, SWAP_START, a, t);
    SameInside(m, r, PAGE_SIZE, SWAP_START, t, t + 4);
    SameInside(m, r, PAGE_SIZE, SWAP_START, t + 4, t + 8);
  }

  lemma ErasedBlk(r: Image, b: nat)
    requires SWAP_BLK <= b < DATABLK_MAX_CNT && Page(r, SWAP_IDX) == Ones(PAGE_SIZE)
    ensures Free(BlkAt(r, b))
  {
    var a, p := BlkAddr(b) + PAYLOAD_SIZE, Page(r, SWAP_IDX);
    assert forall k :: SWAP_START <= k < RAMDISK_SIZE ==> r[k] == p[k - SWAP_START];
    assert r[a..a + 4] == Ones(4) && r[a + 4..a + 8] == Ones(4);
  }

  lemma Untouched(m: Image, r: Image, f: File)
    requires FileOk(View(m), f) && Record(Page(r, 0), f.inode) == Record(Page(m, 0), f.inode)
    requires r[PAGE_SIZE..SWAP_START] == m[PAGE_SIZE..SWAP_START] && forall j :: 0 <= j < |f.chain| ==>
               f.chain[j] < SWAP_BLK
    ensures SameData(View(m), View(r), f)
  {
    hide Record, InodeAt, BlkAt, Data;
    SameInode(m, r, f.inode);
    forall j | 0 <= j < |f.chain| ensures View(r).blocks[f.chain[j]] == View(m).blocks[f.chain[j]] {
      SameBlk(m, r, f.chain[j]);
    }
    FileKept(View(m), View(r), f);
  }

  /**
   A file whose inode record is in the last complete image, and none of whose blocks is in the swap
   page, survives a run of cut updates with its data.
   */
  lemma FileSurvives(m: Image, us: seq<Update>, f: File)
    requires AllOk(us) && Sound(m) && FileOk(View(m), f)
    requires Record(LastImage(Page(m, 0), us), f.inode) == Record(Page(m, 0), f.inode)
    requires forall j :: 0 <= j < |f.chain| ==> f.chain[j] < SWAP_BLK
    ensures SameData(View(m), View(RecoveredAll(m, us)), f)
  {
    hide RecoveredAll, LastImage, Sound, Record, InodeAt, BlkAt, Data, ChainOk;
    RunAtomic(m, us);
    Untouched(m, RecoveredAll(m, us), f);
  }

  /**
   A whole update of the metadata keeps a file whose inode it keeps exactly when no block of the file
   is in the swap page.
   */
  lemma SurvivesIff(m: Image, buf: seq<byte>, f: File)
    requires |buf| == PAGE_SIZE && FileOk(View(m), f)
    requires Record(Sealed(buf), f.inode) == Record(Page(m, 0), f.inode)
    ensures SameData(View(m), View(Exec(m, UpdateOps(Sealed(buf)))), f) <==> forall j :: 0 <= j < |f.chain| ==>
              f.chain[j] < SWAP_BLK
  {
    hide UpdateOps, Cut, Exec, Armed, Sealed, Record, InodeAt, BlkAt, Data, Page;
    var r := Exec(m, UpdateOps(Sealed(buf)));
    CutAtEnd(m, buf, 0);
    CutWhole(m, UpdateOps(Sealed(buf)), 0);
    if forall j :: 0 <= j < |f.chain| ==> f.chain[j] < SWAP_BLK {
      Untouched(m, r, f);
    } else {
      var j :| 0 <= j < |f.chain| && f.chain[j] >= SWAP_BLK;
      ErasedBlk(r, f.chain[j]);
      if FileOk(View(r), f) {
        ChainNotFree(View(r).blocks, f.chain, InodeAddr(f.inode));
      }
    }
  }

  /**
   Recovery does not erase the swap page: a mount leaves the metadata page alone exactly when the
   flash is settled, and then it is.
   */
  lemma MountUndoes(m: Image)
    ensures Page(Mounted(m), 0) == Page(m, 0) <==> Settled(m)
    ensures Armed(Mounted(m)) == Armed(m) && Settled(Mounted(m))
  {
    if Armed(m) {
      MountRestores(m, Page(m, SWAP_IDX));
    }
  }

  /** Copying a region onto itself changes nothing. */
  lemma CopySelf(m: Image, a: nat, b: nat)
    requires a <= b <= RAMDISK_SIZE
    ensures Splice(m, a, m[a..b]) == m
  {
  }

  lemma CopyParts(m: Image, src: nat, off: nat, n: nat)
    requires src + off + n <= RAMDISK_SIZE
    ensures var data := m[src..src + off + n];
            data[..off] == m[src..src + off] && data[off..] == m[src + off..src + off + n]
  {
  }

  lemma CopyStep(m: Image, dst: nat, src: nat, off: nat, n: nat, m1: Image)
    requires (dst + off + n <= src || dst == src) && src + off + n <= RAMDISK_SIZE
    requires m1 == Splice(m, dst, m[src..src + off])
    ensures Splice(m1, dst + off, m1[src + off..src + off + n]) == Splice(m, dst, m[src..src + off + n])
  {
    hide Splice;
    if dst == src {
      CopySelf(m, src, src + off);
      CopySelf(m, src + off, src + off + n);
      CopySelf(m, src, src + off + n);
    } else {
      CopyParts(m, src, off, n);
      SpliceApart(m, dst, m[src..src + off], src + off, src + off + n);
      SpliceTwice(m, dst, m[src..src + off + n], off);
    }
  }

  /** What is still to be copied has not changed. */
  lemma CopySource(m: Image, dst: nat, src: nat, off: nat, n: nat, m1: Image)
    requires (dst + off + n <= src || dst == src) && src + off + n <= RAMDISK_SIZE
    requires m1 == Splice(m, dst, m[src..src + off])
    ensures m1[src + off..src + off + n] == m[src + off..src + off + n]
  {
    SpliceApart(m, dst, m[src..src + off], src + off, src + off + n);
  }

  /** The first block of a copy, and the rest. */
  lemma CopySplit(m: Image, a: nat, left: nat, to: nat, n: nat)
    requires a + left <= RAMDISK_SIZE && to + left <= RAMDISK_SIZE && 0 < left
    requires n == if left > DATABLK_SIZE then DATABLK_SIZE else left
    ensures CopyOps(m[a..a + left], to) == [Program(to, m[a..a + n])] + CopyOps(m[a + n..a + left], to + n)
  {
    var data := m[a..a + left];
    assert data[..n] == m[a..a + n] && data[n..] == m[a + n..a + left];
  }

  lemma CopyNothing(m: Image, dst: nat, src: nat)
    requires dst <= RAMDISK_SIZE && src <= RAMDISK_SIZE
    ensures Splice(m, dst, []) == m && CopyOps([], dst) == [] && m[src..src] == []
  {
  }

  /** A copy after `off` bytes: what has been written, and which operations have been made since `log0`. */
  ghost predicate Copying(mem: seq<byte>, log: seq<Op>, m: Image, log0: seq<Op>, dst: nat, src: nat, off: nat,
                          len: nat)
  {
    && (dst + len <= src || dst == src) && src + len <= RAMDISK_SIZE && off <= len
    && mem == Splice(m, dst, m[src..src + off])
    && log + CopyOps(m[src + off..src + len], dst + off) == log0 + CopyOps(m[src..src + len], dst)
  }

  lemma CopyStarts(m: Image, log: seq<Op>, dst: nat, src: nat, len: nat)
    requires (dst + len <= src || dst == src) && src + len <= RAMDISK_SIZE
    ensures Copying(m, log, m, log, dst, src, 0, len)
  {
    CopyNothing(m, dst, src);
  }

  lemma CopyGoesOn(m: Image, m1: Image, log: seq<Op>, log0: seq<Op>, dst: nat, src: nat, off: nat, len: nat, n: nat)
    requires Copying(m1, log, m, log0, dst, src, off, len) && off < len
    requires n == if len - off > DATABLK_SIZE then DATABLK_SIZE else len - off
    ensures dst + off + n <= RAMDISK_SIZE && src + off + n <= RAMDISK_SIZE
    ensures var part := m1[src + off..src + off + n];
            Copying(Splice(m1, dst + off, part), log + [Program(dst + off, part)], m, log0, dst, src, off + n, len)
  {
    hide Splice, CopyOps;
    CopyStep(m, dst, src, off, n, m1);
    CopySource(m, dst, src, off, n, m1);
    CopySplit(m, src + off, len - off, dst + off, n);
    var part, rest := m[src + off..src + off + n], CopyOps(m[src + off + n..src + len], dst + off + n);
    assert log + [Program(dst + off, part)] + rest == log + ([Program(dst + off, part)] + rest);
  }

  lemma CopyEnds(mem: Image, log: seq<Op>, m: Image, log0: seq<Op>, dst: nat, src: nat, len: nat)
    requires Copying(mem, log, m, log0, dst, src, len, len)
    ensures mem == Exec(m, CopyOps(m[src..src + len], dst)) && log == log0 + CopyOps(m[src..src + len], dst)
  {
    hide Splice, CopyOps, Exec;
    CopyNothing(m, dst + len, src + len);
    Copied(m, m[src..src + len], dst);
  }

  /** One round of the copy. */
  method CopyBlock(disk: Ramdisk, dst: nat, src: nat, off: nat, n: nat, ghost m: Image, ghost log0: seq<Op>,
                   ghost len: nat)
    requires disk.Valid() && Copying(disk.mem[..], disk.log, m, log0, dst, src, off, len) && off < len
    requires n == if len - off > DATABLK_SIZE then DATABLK_SIZE else len - off
    modifies disk.mem, disk`log
    ensures Copying(disk.mem[..], disk.log, m, log0, dst, src, off + n, len)
  {
    hide Copying, Splice;
    CopyGoesOn(m, disk.mem[..], disk.log, log0, dst, src, off, len, n);
    var err, buf := disk.Read(src + off, n);
    err := disk.Write(dst + off, buf);
  }

  /** copy_flash_to_flash, to a region before the source or to the source itself */
  method CopyFlashToFlash(disk: Ramdisk, dst: nat, src: nat, len: nat) returns (err: bool)
    requires disk.Valid() && (dst + len <= src || dst == src) && src + len <= RAMDISK_SIZE
    modifies disk.mem, disk`log
    ensures !err && disk.mem[..] == Exec(old(disk.mem[..]), CopyOps(old(disk.mem[..])[src..src + len], dst))
    ensures disk.log == old(disk.log) + CopyOps(old(disk.mem[..])[src..src + len], dst)
  {
    hide Copying, Exec, CopyOps;
    ghost var m, log0 := disk.mem[..], disk.log;
    CopyStarts(m, log0, dst, src, len);
    var left, offset := len, 0;
    while left > 0
      invariant 0 <= left && offset + left == len
      invariant Copying(disk.mem[..], disk.log, m, log0, dst, src, offset, len)
    {
      var n := if left > DATABLK_SIZE then DATABLK_SIZE else left;
      CopyBlock(disk, dst, src, offset, n, m, log0, len);
      left, offset := left - n, offset + n;
    }
    CopyEnds(disk.mem[..], disk.log, m, log0, dst, src, len);
    err := false;
  }

  lemma RestoreStart(m: Image, image: seq<byte>)
    requires |image| == PAGE_SIZE
    ensures Exec(m, RestoreOps(image)) == Exec(Erased(m, 0), CopyOps(image, 0))
  {
    assert RestoreOps(image)[1..] == CopyOps(image, 0);
  }

  lemma UpdateSteps(m: Image, image: seq<byte>)
    requires |image| == PAGE_SIZE
    ensures var m2 := Splice(Erased(m, SWAP_IDX), SWAP_START, image);
            && Erased(m2, 0)[SWAP_START..SWAP_START + PAGE_SIZE] == image
            && Exec(m, UpdateOps(image)) == Erased(Exec(Erased(m2, 0), CopyOps(image, 0)), SWAP_IDX)
  {
    hide UpdateOps, CopyOps;
    var m2 := Splice(Erased(m, SWAP_IDX), SWAP_START, image);
    UpdateEnds(m, image);
    FilledIs(m, image);
    RestoreStart(m2, image);
    SpliceApart(m2, 0, Ones(PAGE_SIZE), SWAP_START, SWAP_START + PAGE_SIZE);
  }

  lemma SealedBytes(r: Image, buf: seq<byte>)
    requires |buf| == PAGE_SIZE && Page(r, 0) == Sealed(buf)
    ensures r[..PAGE_SIZE - 4] == buf[..PAGE_SIZE - 4] && r[PAGE_SIZE - 4..PAGE_SIZE] == [0, 0, 0, 0]
  {
    assert r[..PAGE_SIZE] == Sealed(buf);
    assert r[..PAGE_SIZE - 4] == r[..PAGE_SIZE][..PAGE_SIZE - 4];
    assert r[PAGE_SIZE - 4..PAGE_SIZE] == r[..PAGE_SIZE][PAGE_SIZE - 4..];
  }

  lemma LastPage(r: Image)
    ensures r[SWAP_START..] == Page(r, SWAP_IDX)
  {
  }

  lemma UpdateIs(image: seq<byte>)
    requires |image| == PAGE_SIZE
    ensures UpdateOps(image)
            == [Erase(SWAP_IDX)] + [Program(SWAP_START, image)] + [Erase(0)] + CopyOps(image, 0) + [Erase(SWAP_IDX)]
  {
  }

  /** A whole update, byte by byte. */
  lemma UpdateDone(m: Image, buf: seq<byte>)
    requires |buf| == PAGE_SIZE
    ensures var r := Exec(m, UpdateOps(Sealed(buf)));
            && r[..PAGE_SIZE - 4] == buf[..PAGE_SIZE - 4] && r[PAGE_SIZE - 4..PAGE_SIZE] == [0, 0, 0, 0]
            && r[PAGE_SIZE..SWAP_START] == m[PAGE_SIZE..SWAP_START] && r[SWAP_START..] == Ones(PAGE_SIZE)
  {
    hide Exec, UpdateOps, Armed, Sealed, Page, Cut, Splice;
    var r := Exec(m, UpdateOps(Sealed(buf)));
    CutAtEnd(m, buf, 0);
    CutWhole(m, UpdateOps(Sealed(buf)), 0);
    SealedBytes(r, buf);
    LastPage(r);
  }

  /**
   rw_page(0, true) with `buf` in the page buffer: the metadata page becomes the buffer but for its
   last word, which is 0.
   */
  method WriteMetadata(disk: Ramdisk, buf: seq<byte>)
    requires disk.Valid() && |buf| == PAGE_SIZE
    modifies disk.mem, disk`log
    ensures disk.mem[..] == Exec(old(disk.mem[..]), UpdateOps(Sealed(buf)))
    ensures disk.log == old(disk.log) + UpdateOps(Sealed(buf))
    ensures disk.mem[..PAGE_SIZE - 4] == buf[..PAGE_SIZE - 4] && disk.mem[PAGE_SIZE - 4..PAGE_SIZE] == [0, 0, 0, 0]
    ensures disk.mem[PAGE_SIZE..SWAP_START] == old(disk.mem[PAGE_SIZE..SWAP_START])
    ensures disk.mem[SWAP_START..] == Ones(PAGE_SIZE)
  {
    hide Exec, CopyOps, UpdateOps, Erased, Splice;
    ghost var m, image := disk.mem[..], Sealed(buf);
    UpdateSteps(m, image);
    UpdateDone(m, buf);
    disk.ErasePage(SWAP_IDX);
    var err := disk.Write(SWAP_START, buf[..PAGE_SIZE - 4] + Le(0));
    disk.ErasePage(0);
    assert disk.mem[..][SWAP_START..SWAP_START + PAGE_SIZE] == image;
    err := CopyFlashToFlash(disk, 0, SWAP_START, PAGE_SIZE);
    disk.ErasePage(SWAP_IDX);
    UpdateIs(image);
  }

  lemma NothingToDo(m: Image)
    ensures !Armed(m) ==> Mounted(m) == m
  {
  }

  lemma RestoreSteps(m: Image)
    ensures Erased(m, 0)[SWAP_START..SWAP_START + PAGE_SIZE] == Page(m, SWAP_IDX)
    ensures Exec(m, RestoreOps(Page(m, SWAP_IDX))) == Exec(Erased(m, 0), CopyOps(Page(m, SWAP_IDX), 0))
  {
    hide Exec, CopyOps, RestoreOps, Splice;
    RestoreStart(m, Page(m, SWAP_IDX));
    SpliceApart(m, 0, Ones(PAGE_SIZE), SWAP_START, SWAP_START + PAGE_SIZE);
  }

  lemma RestoreIs(image: seq<byte>)
    requires |image| == PAGE_SIZE
    ensures RestoreOps(image) == [Erase(0)] + CopyOps(image, 0)
  {
  }

  /** recover_page(0) */
  method RecoverMetadata(disk: Ramdisk)
    requires disk.Valid()
    modifies disk.mem, disk`log
    ensures disk.mem[..] == Exec(old(disk.mem[..]), RestoreOps(Page(old(disk.mem[..]), SWAP_IDX)))
    ensures disk.log == old(disk.log) + RestoreOps(Page(old(disk.mem[..]), SWAP_IDX))
  {
    hide CopyOps, RestoreOps, Erased, Splice, Exec, Page;
    ghost var m := disk.mem[..];
    RestoreSteps(m);
    disk.ErasePage(0);
    var err := CopyFlashToFlash(disk, 0, SWAP_START, PAGE_SIZE);
    RestoreIs(Page(m, SWAP_IDX));
  }

  /** The page that a mount goes on to recover, read off the flash's words. */
  lemma PendingIs(m: Image)
    ensures Pending(m) == if WordAt(m, SWAP_TAIL) == 0 || WordAt(m, GARBAGE_TAB_START) == MINUS_ONE then 0
                          else WordAt(m, GARBAGE_TAB_START)
  {
    assert Page(m, 0)[GARBAGE_TAB_START..GARBAGE_TAB_START + 4] == m[GARBAGE_TAB_START..GARBAGE_TAB_START + 4];
  }

  /** What a mount makes of the flash: the swap page is copied over the metadata page, or nothing. */
  lemma MountedIs(m: Image)
    ensures var r := Mounted(m);
            r[PAGE_SIZE..] == m[PAGE_SIZE..]
              && r[..PAGE_SIZE] == if WordAt(m, SWAP_TAIL) == 0 then m[SWAP_START..] else m[..PAGE_SIZE]
  {
    hide Exec, RestoreOps, Word;
    if Armed(m) {
      Restored(m, Page(m, SWAP_IDX));
      assert Mounted(m)[..PAGE_SIZE] == Page(Mounted(m), 0);
      assert m[SWAP_START..] == Page(m, SWAP_IDX);
    } else {
      NothingToDo(m);
    }
  }

  /** The search for the magic string. */
  method CheckMagic(disk: Ramdisk) returns (found: bool)
    requires disk.Valid()
    ensures found <==> Formatted(disk.mem[..])
  {
    var err, buf := disk.Read(0, 16);
    assert buf == disk.mem[..][..16];
    var i := 0;
    while i < 16
      invariant 0 <= i <= 16 && forall k :: 0 <= k < i ==> buf[k] == MAGIC[k]
    {
      if buf[i] != MAGIC[i] { return false; }
      i := i + 1;
    }
    found := true;
  }

  /**
   slfs_mount, up to its choice: it recovers the data page that the garbage table names, `pending`,
   or formats a flash without the magic string, or goes on to load the superblock.
   */
  method Mount(disk: Ramdisk) returns (pending: nat, formats: bool)
    requires disk.Valid()
    modifies disk.mem, disk`log
    ensures disk.mem[..] == Mounted(old(disk.mem[..]))
    ensures disk.log == old(disk.log) + RecoveryOps(old(disk.mem[..]))
    ensures disk.mem[PAGE_SIZE..] == old(disk.mem[PAGE_SIZE..])
    ensures disk.mem[..PAGE_SIZE] == if WordAt(old(disk.mem[..]), SWAP_TAIL) == 0 then old(disk.mem[SWAP_START..])
            else old(disk.mem[..PAGE_SIZE])
    ensures var g := WordAt(old(disk.mem[..]), GARBAGE_TAB_START);
            pending == if WordAt(old(disk.mem[..]), SWAP_TAIL) == 0 || g == MINUS_ONE then 0 else g
    ensures pending == Pending(old(disk.mem[..]))
    ensures formats <==> pending == 0 && !Formatted(disk.mem[..])
  {
    hide CopyOps, RestoreOps, Exec, Erased, Splice, Word, Formatted;
    ghost var m := disk.mem[..];
    NothingToDo(m);
    PendingIs(m);
    MountedIs(m);
    pending := 0;
    var err, tail := disk.Read(SWAP_TAIL, 4);
    assert tail == m[SWAP_TAIL..SWAP_TAIL + 4];
    if Word(tail) == 0 {
      RecoverMetadata(disk);
    } else {
      var page;
      err, page := disk.Read(0, PAGE_SIZE);
      assert page == Page(m, 0);
      var g := Word(page[GARBAGE_TAB_START..GARBAGE_TAB_START + 4]);
      if g != MINUS_ONE {
        pending := g;
      }
    }
    formats := false;
    if pending == 0 {
      var found := CheckMagic(disk);
      formats := !found;
    }
  }
}
