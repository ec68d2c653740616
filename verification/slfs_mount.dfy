/**
 What the next mount makes of files that were written since the last metadata update (slfs.c).
 Recovery leaves the swap page armed, and the allocator treats the swap page as data blocks.
 */
module SlfsMount {
  import opened RamdiskIo
  import opened SlfsDisk
  import opened SlfsFiles
  import opened SlfsCrash

  /** The block whose last word is the swap page's tail. */
  const LAST_BLK := DATABLK_MAX_CNT - 1

  // ---------- which writes arm the swap page ----------

  lemma ArmedIs(m: Image)
    ensures Armed(m) <==> View(m).blocks[LAST_BLK].next == 0
  {
    assert BlkAddr(LAST_BLK) + PAYLOAD_SIZE + 4 == SWAP_TAIL;
  }

  /**
   The allocator ends a chain in the last block with the word that marks the swap page as armed, and
   in no other way does a first write arm it.
   */
  lemma ArmsIff(m: Image, s: seq<byte>, m': Image)
    requires Step(View(m), s, View(m'))
    ensures Armed(m') <==> Armed(m) || LAST_BLK in NewFile(View(m), s).chain
  {
    hide FreeBlks, Needed, FreeInode, BlkAt, Armed, SlfsFiles.Filled;
    ArmedIs(m);
    ArmedIs(m');
    var c := NewFile(View(m), s).chain;
    if j :| 0 <= j < |c| && c[j] == LAST_BLK {
      assert c[j] <= c[|c| - 1] < DATABLK_MAX_CNT;
      assert LinksAt(View(m').blocks, c, InodeAddr(NewFile(View(m), s).inode), j);
    }
  }

  function Views(ms: seq<Image>): (ds: seq<Disk>)
    ensures |ds| == |ms| && forall i :: 0 <= i < |ms| ==> ds[i] == View(ms[i])
  {
    seq(|ms|, i requires 0 <= i < |ms| => View(ms[i]))
  }

  /** A run of first writes leaves the flash armed exactly when it was or one of the new files has the last block. */
  lemma {:induction false} RunArmsIff(ms: seq<Image>, ss: seq<seq<byte>>, files: seq<File>, n: nat)
    requires Writes(Views(ms), ss) && n <= |ss| <= |files|
    requires forall i :: 0 <= i < n ==> IsNew(View(ms[i]), ss[i], files[i])
    ensures Armed(ms[n]) <==> Armed(ms[0]) || exists i :: 0 <= i < n && LAST_BLK in files[i].chain
  {
    hide Armed, Step, NewFile, FreeBlks, Needed;
    if n > 0 {
      RunArmsIff(ms, ss, files, n - 1);
      assert Views(ms)[n - 1] == View(ms[n - 1]) && Views(ms)[n] == View(ms[n]);
      ArmsIff(ms[n - 1], ss[n - 1], ms[n]);
    }
  }

  // ---------- which files a mount keeps ----------

  /** The swap page, read as a metadata page, has the file's size and first block. */
  ghost predicate SwapNames(m: Image, f: File)
    requires f.inode < INODE_MAX_CNT && f.chain != []
  {
    && WordAt(m, SWAP_START + InodeAddr(f.inode) + 8) == f.size
    && WordAt(m, SWAP_START + InodeAddr(f.inode) + 12) == BlkAddr(f.chain[0])
  }

  lemma FileParts(d: Disk, f: File)
    requires FileOk(d, f)
    ensures f.chain != [] && f.inode < |d.inodes| && forall j :: 0 <= j < |f.chain| ==> f.chain[j] < |d.blocks|
    ensures d.inodes[f.inode].fileSize == f.size && d.inodes[f.inode].datablkAddr == BlkAddr(f.chain[0])
  {
  }

  lemma MountedParts(m: Image)
    requires Armed(m)
    ensures Page(Mounted(m), 0) == Page(m, SWAP_IDX) && Mounted(m)[PAGE_SIZE..] == m[PAGE_SIZE..]
  {
    Restored(m, Page(m, SWAP_IDX));
  }

  lemma BlocksKept(m: Image, r: Image)
    requires r[PAGE_SIZE..] == m[PAGE_SIZE..]
    ensures View(r).blocks == View(m).blocks
  {
    hide Word;
    forall b | 0 <= b < DATABLK_MAX_CNT ensures BlkAt(r, b) == BlkAt(m, b) {
      var a, t := BlkAddr(b), BlkAddr(b) + PAYLOAD_SIZE;
      assert r[PAGE_SIZE..RAMDISK_SIZE] == r[PAGE_SIZE..] && m[PAGE_SIZE..RAMDISK_SIZE] == m[PAGE_SIZE..];
      SameInside(m, r, PAGE_SIZE, RAMDISK_SIZE, a, t);
      SameInside(m, r, PAGE_SIZE, RAMDISK_SIZE, t, t + 4);
      SameInside(m, r, PAGE_SIZE, RAMDISK_SIZE, t + 4, t + 8);
    }
  }

  lemma SliceOfSlice(m: seq<byte>, lo: nat, hi: nat, a: nat, b: nat)
    requires a <= b && lo + b <= hi <= |m|
    ensures m[lo..hi][a..b] == m[lo + a..lo + b]
  {
    var x, y := m[lo..hi][a..b], m[lo + a..lo + b];
    assert |x| == |y| && forall i :: 0 <= i < |x| ==> x[i] == y[i];
  }

  /** A word of the metadata page that was copied from page `p` of `m`. */
  lemma CopiedWord(m: Image, r: Image, p: nat, a: nat)
    requires p < PAGE_NUM && Page(r, 0) == Page(m, p) && a + 4 <= PAGE_SIZE
    ensures WordAt(r, a) == WordAt(m, p * PAGE_SIZE + a)
  {
    SliceOfSlice(r, 0, PAGE_SIZE, a, a + 4);
    SliceOfSlice(m, p * PAGE_SIZE, (p + 1) * PAGE_SIZE, a, a + 4);
  }

  lemma InodeWords(m: Image, i: nat)
    requires i < INODE_MAX_CNT
    ensures |View(m).inodes| == INODE_MAX_CNT
    ensures View(m).inodes[i].fileSize == WordAt(m, InodeAddr(i) + 8)
    ensures View(m).inodes[i].datablkAddr == WordAt(m, InodeAddr(i) + 12)
  {
  }

  /** A mount keeps a file exactly when the swap page is not armed or has the file's inode too. */
  lemma MountKeepsIff(m: Image, f: File)
    requires FileOk(View(m), f)
    ensures f.inode < INODE_MAX_CNT && f.chain != []
    ensures SameData(View(m), View(Mounted(m)), f) <==> !Armed(m) || SwapNames(m, f)
  {
    hide View, Data, ChainOk, Armed, Mounted, Page, WordAt;
    FileParts(View(m), f);
    if !Armed(m) {
      NothingToDo(m);
    } else {
      var r := Mounted(m);
      MountedParts(m);
      BlocksKept(m, r);
      CopiedWord(m, r, SWAP_IDX, InodeAddr(f.inode) + 8);
      CopiedWord(m, r, SWAP_IDX, InodeAddr(f.inode) + 12);
      InodeWords(r, f.inode);
      if SwapNames(m, f) {
        FileKept(View(m), View(r), f);
      } else if FileOk(View(r), f) {
        FileParts(View(r), f);
      }
    }
  }

  ghost predicate NamedAt(m: Image, f: File) {
    f.inode < INODE_MAX_CNT && f.chain != [] && SwapNames(m, f)
  }

  ghost predicate NamesAll(m: Image, files: seq<File>) {
    forall i :: 0 <= i < |files| ==> NamedAt(m, files[i])
  }

  /** A first write leaves the garbage table alone. */
  lemma WriteKeepsGarbage(m: Image, s: seq<byte>, m': Image)
    requires Step(View(m), s, View(m'))
    ensures WordAt(m', GARBAGE_TAB_START) == WordAt(m, GARBAGE_TAB_START)
  {
    hide InodeAt, BlkAt, FreeBlks, Needed, FreeInode, ChainOk, SlfsFiles.Filled, Word;
    assert View(m').garbage == View(m).garbage;
    SliceOfSlice(m, GARBAGE_TAB_START, DATABLK_START, 0, 4);
    SliceOfSlice(m', GARBAGE_TAB_START, DATABLK_START, 0, 4);
  }

  /** So no run of first writes makes the next mount go on to a data page. */
  lemma {:induction false} WritesPending(ms: seq<Image>, ss: seq<seq<byte>>, n: nat)
    requires Writes(Views(ms), ss) && n <= |ss| && NoGarbage(Page(ms[0], 0))
    ensures NoGarbage(Page(ms[n], 0)) && Pending(ms[n]) == 0
  {
    hide Armed, Step, Word;
    PendingIs(ms[n]);
    if n > 0 {
      WritesPending(ms, ss, n - 1);
      assert Views(ms)[n - 1] == View(ms[n - 1]) && Views(ms)[n] == View(ms[n]);
      WriteKeepsGarbage(ms[n - 1], ss[n - 1], ms[n]);
      GarbageIs(ms[n - 1]);
    }
    GarbageIs(ms[n]);
  }

  /**
   From a flash that is not armed, after any run of first writes: a mount keeps every file exactly when
   none of them has the last block or the swap page names all of them.
   */
  lemma MountAfterWrites(ms: seq<Image>, ss: seq<seq<byte>>) returns (files: seq<File>)
    requires Writes(Views(ms), ss) && !Armed(ms[0])
    ensures |files| == |ss| && FsOk(View(ms[|ss|]), files)
    ensures forall i :: 0 <= i < |ss| ==> Holds(View(ms[|ss|]), files[i], ss[i])
    ensures (forall i :: 0 <= i < |ss| ==> Holds(View(Mounted(ms[|ss|])), files[i], ss[i]))
            <==> (forall i :: 0 <= i < |ss| ==> LAST_BLK !in files[i].chain) || NamesAll(ms[|ss|], files)
    ensures NoGarbage(Page(ms[0], 0)) ==> Pending(ms[|ss|]) == 0
  {
    hide NoGarbage, Pending, Armed, Step, NewFile, FreeBlks, Needed, FileOk, Data, Mounted, SwapNames;
    var m := ms[|ss|];
    assert FsOk(View(ms[0]), []);
    files := RunIsolated(Views(ms), ss, [], |ss|);
    RunArmsIff(ms, ss, files, |ss|);
    if NoGarbage(Page(ms[0], 0)) { WritesPending(ms, ss, |ss|); }
    forall i | 0 <= i < |ss|
      ensures Holds(View(Mounted(m)), files[i], ss[i]) <==> !Armed(m) || NamedAt(m, files[i])
    {
      assert Holds(Views(ms)[|ss|], files[i], ss[i]);
      MountKeepsIff(m, files[i]);
    }
  }

  // ---------- a write after a recovery ----------

  lemma LowByte(lo: byte, hi: nat)
    ensures (lo + 256 * hi) % 256 == lo && (lo + 256 * hi) / 256 == hi
  {
  }

  lemma WordIs(b: seq<byte>)
    requires |b| == 4
    ensures Le(Word(b)) == b
  {
    var b1: int, b2: int, b3: int := b[1], b[2], b[3];
    LowByte(b[0], b1 + 256 * (b2 + 256 * b3));
    LowByte(b[1], b2 + 256 * b3);
    LowByte(b[2], b3);
  }

  lemma SameWord(m: Image, r: Image, a: nat)
    requires a + 4 <= RAMDISK_SIZE && WordAt(r, a) == WordAt(m, a)
    ensures r[a..a + 4] == m[a..a + 4]
  {
    WordIs(r[a..a + 4]);
    WordIs(m[a..a + 4]);
  }

  lemma BlkBytes(m: Image, r: Image, b: nat)
    requires b < DATABLK_MAX_CNT && BlkAt(r, b) == BlkAt(m, b)
    ensures r[BlkAddr(b)..BlkAddr(b + 1)] == m[BlkAddr(b)..BlkAddr(b + 1)]
  {
    hide Word;
    var a, t := BlkAddr(b), BlkAddr(b) + PAYLOAD_SIZE;
    SameWord(m, r, t);
    SameWord(m, r, t + 4);
    assert r[a..t + 8] == r[a..t] + r[t..t + 4] + r[t + 4..t + 8];
    assert m[a..t + 8] == m[a..t] + m[t..t + 4] + m[t + 4..t + 8];
  }

  /** A first write that stays below the swap page leaves the swap page alone. */
  lemma SwapKept(m: Image, m': Image)
    requires forall b :: SWAP_BLK <= b < DATABLK_MAX_CNT ==> View(m').blocks[b] == View(m).blocks[b]
    ensures Page(m', SWAP_IDX) == Page(m, SWAP_IDX)
  {
    hide BlkAt;
    forall k | SWAP_START <= k < RAMDISK_SIZE ensures m'[k] == m[k] {
      var b := (k - DATABLK_START) / DATABLK_SIZE;
      assert View(m').blocks[b] == BlkAt(m', b) && View(m).blocks[b] == BlkAt(m, b);
      BlkBytes(m, m', b);
      assert m'[k] == m'[BlkAddr(b)..BlkAddr(b + 1)][k - BlkAddr(b)];
      assert m[k] == m[BlkAddr(b)..BlkAddr(b + 1)][k - BlkAddr(b)];
    }
  }

  lemma StepKeepsSwap(m: Image, s: seq<byte>, m': Image)
    requires Step(View(m), s, View(m'))
    requires forall j :: 0 <= j < |NewFile(View(m), s).chain| ==> NewFile(View(m), s).chain[j] < SWAP_BLK
    ensures Page(m', SWAP_IDX) == Page(m, SWAP_IDX) && LAST_BLK !in NewFile(View(m), s).chain
  {
    hide View, FreeBlks, Needed, BlkAt, Page, ChainOk, SlfsFiles.Filled;
    var c := NewFile(View(m), s).chain;
    forall b | SWAP_BLK <= b < DATABLK_MAX_CNT ensures View(m').blocks[b] == View(m).blocks[b] {
      assert b !in c;
    }
    SwapKept(m, m');
  }

  lemma OldKept(m: Image, s: seq<byte>, m': Image, g: File)
    requires Settled(m) && Step(View(m), s, View(m')) && FileOk(View(m), g)
    requires Page(m', SWAP_IDX) == Page(m, SWAP_IDX) && (Armed(m') <==> Armed(m))
    ensures SameData(View(m), View(Mounted(m')), g)
  {
    hide View, FreeBlks, Needed, Data, ChainOk, Armed, Mounted, Page, WordAt, FileOk, SlfsFiles.Filled;
    WriteIsolated(View(m), s, View(m'), [g]);
    assert SameData(View(m), View(m'), [g][0]);
    MountKeepsIff(m', g);
    if Armed(m) {
      FileParts(View(m), g);
      InodeWords(m, g.inode);
      CopiedWord(m', m, SWAP_IDX, InodeAddr(g.inode) + 8);
      CopiedWord(m', m, SWAP_IDX, InodeAddr(g.inode) + 12);
    }
  }

  /**
   A first write to a settled flash, outside the swap page, survives the next mount exactly when the
   flash is not armed. After a recovery it is: the mount then takes the new file's inode back and
   keeps the files from before.
   */
  lemma WriteLostIff(m: Image, s: seq<byte>, m': Image)
    requires Settled(m) && Step(View(m), s, View(m'))
    requires forall j :: 0 <= j < |NewFile(View(m), s).chain| ==> NewFile(View(m), s).chain[j] < SWAP_BLK
    ensures Holds(View(Mounted(m')), NewFile(View(m), s), s) <==> !Armed(m)
    ensures Armed(m) ==> View(Mounted(m')).inodes[NewFile(View(m), s).inode].fileSize == MINUS_ONE
    ensures forall f :: FileOk(View(m), f) ==> SameData(View(m), View(Mounted(m')), f)
  {
    hide View, FreeBlks, Needed, Data, ChainOk, Armed, Mounted, Page, WordAt, FileOk, SlfsFiles.Filled;
    var f := NewFile(View(m), s);
    NewFileOk(View(m), s, View(m'));
    ArmsIff(m, s, m');
    StepKeepsSwap(m, s, m');
    MountKeepsIff(m', f);
    InodeWords(m, f.inode);
    if Armed(m) {
      MountedParts(m');
      CopiedWord(m, Mounted(m'), 0, InodeAddr(f.inode) + 8);
      InodeWords(Mounted(m'), f.inode);
      if FileOk(View(Mounted(m')), f) {
        FileParts(View(Mounted(m')), f);
      }
    }
    forall g | FileOk(View(m), g) ensures SameData(View(m), View(Mounted(m')), g) {
      OldKept(m, s, m', g);
    }
  }

  // ---------- the swap page as data blocks ----------

  /** What the search finds after its first `n` blocks lies behind them. */
  lemma {:induction false} FreeBlksAbove(blocks: seq<Blk>, n: nat, n': nat)
    requires n <= n' <= |blocks|
    ensures var low, all := FreeBlks(blocks, n), FreeBlks(blocks, n'); forall j :: |low| <= j < |all| ==> all[j] >= n
  {
    if n < n' {
      FreeBlksAbove(blocks, n, n' - 1);
      FreeBlksPrefix(blocks, n, n' - 1);
    }
  }

  /** A first write stays below the swap page exactly when there are enough free blocks there. */
  lemma BelowSwapIff(d: Disk, s: seq<byte>)
    requires |d.blocks| == DATABLK_MAX_CNT && 0 < |s| && Needed(|s|) <= |FreeBlks(d.blocks, DATABLK_MAX_CNT)|
    ensures (forall j :: 0 <= j < Needed(|s|) ==> NewFile(d, s).chain[j] < SWAP_BLK)
            <==> Needed(|s|) <= |FreeBlks(d.blocks, SWAP_BLK)|
  {
    hide Needed;
    var all, low, n := FreeBlks(d.blocks, DATABLK_MAX_CNT), FreeBlks(d.blocks, SWAP_BLK), Needed(|s|);
    FreeBlksPrefix(d.blocks, SWAP_BLK, DATABLK_MAX_CNT);
    assert forall j :: 0 <= j < |low| ==> all[j] == low[j];
    if n > |low| {
      FreeBlksAbove(d.blocks, SWAP_BLK, DATABLK_MAX_CNT);
      assert NewFile(d, s).chain[|low|] == all[|low|] >= SWAP_BLK;
    }
  }

  /** A metadata page that has the magic string and leaves only inode 0 free. */
  function MetaByte(a: nat): (x: byte)
    ensures 16 <= a ==> x == if InodeAddr(0) + 8 <= a < InodeAddr(0) + 12 then 0xFF else 0
  {
    if a < 16 then MAGIC[a] else if InodeAddr(0) + 8 <= a < InodeAddr(0) + 12 then 0xFF else 0
  }

  /** A flash whose free blocks are those of the swap page. */
  function OnlySwapFree(): (m: Image)
    ensures forall k :: 0 <= k < RAMDISK_SIZE ==>
              m[k] == if k >= SWAP_START then 0xFF else if k < PAGE_SIZE then MetaByte(k) else 0
  {
    seq(RAMDISK_SIZE, k => if k >= SWAP_START then 0xFF else if 0 <= k < PAGE_SIZE then MetaByte(k) else 0)
  }

  /** A flash whose metadata page a mount has recovered, with one free block. */
  function OnceRecovered(): (m: Image)
    ensures forall k :: 0 <= k < RAMDISK_SIZE ==>
              m[k] == if k >= SWAP_START then MetaByte(k - SWAP_START) else if k < PAGE_SIZE then MetaByte(k)
                else if BlkAddr(0) + PAYLOAD_SIZE <= k < BlkAddr(1) then 0xFF else 0
  {
    seq(RAMDISK_SIZE, k => if k >= SWAP_START then MetaByte(k - SWAP_START) else if 0 <= k < PAGE_SIZE then MetaByte(k)
                           else if BlkAddr(0) + PAYLOAD_SIZE <= k < BlkAddr(1) then 0xFF else 0)
  }

  lemma WordOf(m: Image, a: nat, x: byte)
    requires a + 4 <= RAMDISK_SIZE && forall k :: a <= k < a + 4 ==> m[k] == x
    ensures WordAt(m, a) == x * 0x101_0101
  {
    assert m[a..a + 4] == [x, x, x, x];
  }

  lemma {:induction false} NoneFree(blocks: seq<Blk>, n: nat)
    requires n <= |blocks| && forall b :: 0 <= b < n ==> !Free(blocks[b])
    ensures FreeBlks(blocks, n) == []
  {
    if n > 0 { NoneFree(blocks, n - 1); }
  }

  lemma FirstFreeAt(blocks: seq<Blk>, n: nat)
    requires n < |blocks| && (forall b :: 0 <= b < n ==> !Free(blocks[b])) && Free(blocks[n])
    ensures FreeBlks(blocks, |blocks|) != [] && FreeBlks(blocks, |blocks|)[0] == n
  {
    hide FreeBlks, Free;
    NoneFree(blocks, n);
    FreeBlksStep(blocks, n);
    FreeBlksPrefix(blocks, n + 1, |blocks|);
    var all := FreeBlks(blocks, |blocks|);
    assert all[0] == all[..1][0];
  }

  /** Inode 0 is free, and block `n` is the first free one. */
  ghost predicate FreeFrom(m: Image, n: nat) {
    && n < DATABLK_MAX_CNT && WordAt(m, InodeAddr(0) + 8) == MINUS_ONE
    && Free(BlkAt(m, n)) && forall b :: 0 <= b < n ==> !Free(BlkAt(m, b))
  }

  lemma Found(m: Image, n: nat)
    requires FreeFrom(m, n)
    ensures var d := View(m);
            FreeInode(d.inodes, 0) == 0 && FreeBlks(d.blocks, DATABLK_MAX_CNT) != []
              && FreeBlks(d.blocks, DATABLK_MAX_CNT)[0] == n
  {
    var blocks := View(m).blocks;
    hide Word, BlkAt, InodeAt, FreeBlks, Free;
    InodeWords(m, 0);
    forall b | 0 <= b < n ensures !Free(blocks[b]) {
      assert blocks[b] == BlkAt(m, b);
    }
    FirstFreeAt(blocks, n);
  }

  lemma StartsWithMagic(m: Image)
    requires forall k :: 0 <= k < 16 ==> m[k] == MetaByte(k)
    ensures Formatted(m)
  {
  }

  lemma OnlySwapFreeIs()
    ensures var m := OnlySwapFree(); Formatted(m) && !Armed(m) && FreeFrom(m, SWAP_BLK)
  {
    var m := OnlySwapFree();
    hide Word, OnlySwapFree, MetaByte;
    WordOf(m, InodeAddr(0) + 8, 0xFF);
    WordOf(m, SWAP_TAIL, 0xFF);
    forall b | 0 <= b <= SWAP_BLK ensures Free(BlkAt(m, b)) <==> b == SWAP_BLK {
      WordOf(m, BlkAddr(b) + PAYLOAD_SIZE, if b == SWAP_BLK then 0xFF else 0);
      WordOf(m, BlkAddr(b) + PAYLOAD_SIZE + 4, if b == SWAP_BLK then 0xFF else 0);
    }
    StartsWithMagic(m);
  }

  lemma OnceRecoveredIs()
    ensures var m := OnceRecovered(); Formatted(m) && Armed(m) && Settled(m) && FreeFrom(m, 0)
  {
    var m := OnceRecovered();
    assert BlkAddr(0) == PAGE_SIZE && BlkAddr(1) == PAGE_SIZE + DATABLK_SIZE;
    hide Word, OnceRecovered, MetaByte;
    WordOf(m, InodeAddr(0) + 8, 0xFF);
    WordOf(m, SWAP_TAIL, 0);
    WordOf(m, BlkAddr(0) + PAYLOAD_SIZE, 0xFF);
    WordOf(m, BlkAddr(0) + PAYLOAD_SIZE + 4, 0xFF);
    StartsWithMagic(m);
    assert Page(m, 0) == Page(m, SWAP_IDX);
  }

  /** A first write of data that fit in one block. */
  lemma OneBlockWrite(m: Image, s: seq<byte>) returns (m': Image)
    requires 0 < |s| <= PAYLOAD_SIZE
    requires FreeInode(View(m).inodes, 0) < INODE_MAX_CNT && FreeBlks(View(m).blocks, DATABLK_MAX_CNT) != []
    ensures Step(View(m), s, View(m'))
  {
    hide View, Word, Le, Splice, FreeInode, FreeBlks, BlkAt, InodeAt;
    var i, c := FreeInode(View(m).inodes, 0), FreeBlks(View(m).blocks, DATABLK_MAX_CNT)[..1];
    var b := c[0];
    var m1 := Splice(m, BlkAddr(b) + PAYLOAD_SIZE, Le(InodeAddr(i)) + Le(0));
    var m2 := Splice(m1, BlkAddr(b), s);
    m' := Splice(m2, InodeAddr(i) + 8, Le(|s|) + Le(BlkAddr(b)));
    TailWritten(m, b, InodeAddr(i), 0);
    PayloadWritten(m1, b, s);
    PayloadLen(m1, b);
    OpenWritten(m2, i, |s|, BlkAddr(b));
    assert s[0..|s|] == s;
    assert forall j {:trigger LinksAt(View(m').blocks, c, InodeAddr(i), j)} :: 0 <= j < 1 ==>
             LinksAt(View(m').blocks, c, InodeAddr(i), j);
  }

  lemma SealedRecord(buf: seq<byte>, i: nat)
    requires |buf| == PAGE_SIZE && i < INODE_MAX_CNT
    ensures Record(Sealed(buf), i) == Record(buf, i)
  {
  }

  /**
   The allocator hands out the swap page: a file that is lost in the next metadata update, though its
   inode is in the new image.
   */
  lemma SwapHandedOut() returns (m: Image, s: seq<byte>, m': Image)
    ensures Formatted(m) && Step(View(m), s, View(m')) && !Armed(m') && NewFile(View(m), s).chain[0] >= SWAP_BLK
    ensures !SameData(View(m'), View(Exec(m', UpdateOps(Sealed(Page(m', 0))))), NewFile(View(m), s))
  {
    hide View, Word, FreeInode, FreeBlks, BlkAt, InodeAt, Data, ChainOk, Armed, Exec, UpdateOps, SlfsFiles.Filled,
         FreeFrom;
    m, s := OnlySwapFree(), [0];
    OnlySwapFreeIs();
    Found(m, SWAP_BLK);
    m' := OneBlockWrite(m, s);
    ArmsIff(m, s, m');
    NewFileOk(View(m), s, View(m'));
    SealedRecord(Page(m', 0), 0);
    SurvivesIff(m', Page(m', 0), NewFile(View(m), s));
  }

  /** A flash after a recovery, and a first write to it that the next mount undoes. */
  lemma LostAfterRecovery() returns (m: Image, s: seq<byte>, m': Image)
    ensures Formatted(m) && Armed(m) && Settled(m) && Step(View(m), s, View(m'))
    ensures !Holds(View(Mounted(m')), NewFile(View(m), s), s)
  {
    hide View, Word, FreeInode, FreeBlks, BlkAt, InodeAt, Data, ChainOk, Armed, Settled, Mounted, SlfsFiles.Filled,
         FreeFrom;
    m, s := OnceRecovered(), [0];
    OnceRecoveredIs();
    Found(m, 0);
    m' := OneBlockWrite(m, s);
    WriteLostIff(m, s, m');
  }
}
