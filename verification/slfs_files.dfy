/**
 Files as chains of data blocks: what a first write makes of the disk, and what that means for all files.
 */
module SlfsFiles {
  import opened RamdiskIo
  import opened SlfsDisk

  predicate Free(b: Blk) {
    b.prev == MINUS_ONE && b.next == MINUS_ONE
  }

  /** The free ones among the first `n` blocks, in the order of the search. */
  function FreeBlks(blocks: seq<Blk>, n: nat): (c: seq<nat>)
    requires n <= |blocks|
    ensures forall j :: 0 <= j < |c| ==> c[j] < n && Free(blocks[c[j]])
    ensures forall i, j :: 0 <= i < j < |c| ==> c[i] < c[j]
  {
    if n == 0 then [] else FreeBlks(blocks, n - 1) + if Free(blocks[n - 1]) then [n - 1] else []
  }

  lemma FreeBlksStep(blocks: seq<Blk>, n: nat)
    requires n < |blocks|
    ensures FreeBlks(blocks, n + 1) == FreeBlks(blocks, n) + if Free(blocks[n]) then [n] else []
    ensures FreeBlks(blocks, 0) == []
  {
  }

  lemma {:induction false} FreeBlksPrefix(blocks: seq<Blk>, n: nat, n': nat)
    requires n <= n' <= |blocks|
    ensures |FreeBlks(blocks, n)| <= |FreeBlks(blocks, n')|
            && FreeBlks(blocks, n')[..|FreeBlks(blocks, n)|] == FreeBlks(blocks, n)
  {
    if n < n' {
      FreeBlksPrefix(blocks, n, n' - 1);
    }
  }

  lemma Chosen(blocks: seq<Blk>, n: nat, c: seq<nat>)
    requires n <= |blocks| && c == FreeBlks(blocks, n) && c != []
    ensures var all := FreeBlks(blocks, |blocks|); |c| <= |all| && all[..|c|] == c && all[0] == c[0]
  {
    FreeBlksPrefix(blocks, n, |blocks|);
    assert FreeBlks(blocks, |blocks|)[..|c|][0] == c[0];
  }

  /** The number of 504-byte payloads that hold `len` bytes. */
  function Needed(len: nat): (n: nat)
    ensures PAYLOAD_SIZE * n >= len && (n > 0 ==> PAYLOAD_SIZE * (n - 1) < len)
  {
    (len + PAYLOAD_SIZE - 1) / PAYLOAD_SIZE
  }

  /** The block and the place in it of a file's byte `k`. */
  lemma Place(k: nat, len: nat)
    requires k < len
    ensures k / PAYLOAD_SIZE < Needed(len) && k == PAYLOAD_SIZE * (k / PAYLOAD_SIZE) + k % PAYLOAD_SIZE
  {
  }

  /** The first inode whose size was never written. */
  function FreeInode(inodes: seq<Inode>, i: nat): (r: nat)
    requires i <= |inodes|
    ensures i <= r <= |inodes| && forall j :: i <= j < r ==> inodes[j].fileSize != MINUS_ONE
    ensures r < |inodes| ==> inodes[r].fileSize == MINUS_ONE
    decreases |inodes| - i
  {
    if i < |inodes| && inodes[i].fileSize != MINUS_ONE then FreeInode(inodes, i + 1) else i
  }

  lemma FreeInodeStep(inodes: seq<Inode>, i: nat)
    requires i < |inodes|
    ensures FreeInode(inodes, i) == if inodes[i].fileSize != MINUS_ONE then FreeInode(inodes, i + 1) else i
    ensures FreeInode(inodes, |inodes|) == |inodes|
  {
  }

  function PrevAddr(c: seq<nat>, j: nat, from: nat): nat
    requires j < |c|
  {
    if j == 0 then from else BlkAddr(c[j - 1])
  }

  function NextAddr(c: seq<nat>, j: nat): nat
    requires j < |c|
  {
    if j + 1 < |c| then BlkAddr(c[j + 1]) else 0
  }

  ghost predicate LinkAt(b0: seq<Blk>, b: seq<Blk>, c: seq<nat>, from: nat, j: nat)
    requires j < |c| && c[j] < |b0| == |b|
  {
    b[c[j]] == Blk(b0[c[j]].payload, PrevAddr(c, j, from), NextAddr(c, j))
  }

  /** The first `n` blocks of the chain `c` have got their links, and nothing else has changed since `b0`. */
  ghost predicate Linking(b0: seq<Blk>, b: seq<Blk>, c: seq<nat>, from: nat, n: nat)
    requires n <= |c|
  {
    && |b| == |b0| && (forall j :: 0 <= j < |c| ==> c[j] < |b0|)
    && (forall k :: 0 <= k < |b0| && k !in c[..n] ==> b[k] == b0[k])
    && (forall j {:trigger LinkAt(b0, b, c, from, j)} :: 0 <= j < n ==> LinkAt(b0, b, c, from, j))
  }

  /** Linking the newest block to the one behind it, `next`, completes it. */
  lemma LinkNewest(b0: seq<Blk>, b: seq<Blk>, c: seq<nat>, from: nat, c': seq<nat>, next: nat)
    requires c != [] && Linking(b0, b, c, from, |c| - 1) && |c'| >= |c| && c'[..|c|] == c && |c'| <= |c| + 1
    requires forall i, j :: 0 <= i < j < |c| ==> c[i] < c[j]
    requires next == NextAddr(c', |c| - 1) && forall j :: 0 <= j < |c'| ==> c'[j] < |b0|
    ensures var n := |c| - 1;
            Linking(b0, b[c[n] := b[c[n]].(prev := PrevAddr(c, n, from), next := next)], c', from, |c|)
  {
    var n := |c| - 1;
    var b' := b[c[n] := b[c[n]].(prev := PrevAddr(c, n, from), next := next)];
    forall k | 0 <= k < |b0| && k !in c ensures b'[k] == b0[k] {
      assert k !in c[..n] && k != c[n];
    }
    assert forall j :: 0 <= j < |c| ==> c'[j] == c[j];
    forall j | 0 <= j < |c| ensures LinkAt(b0, b', c', from, j) {
      if j < n {
        assert LinkAt(b0, b, c, from, j) && c[j] != c[n];
      } else {
        assert c[n] !in c[..n];
      }
    }
  }

  /** The OPEN event and new block links. */
  function Opened(d: Disk, blocks: seq<Blk>, idx: nat, size: nat, first: nat): Disk
    requires idx < |d.inodes|
  {
    d.(blocks := blocks, inodes := d.inodes[idx := d.inodes[idx].(fileSize := size, datablkAddr := BlkAddr(first))])
  }

  /** The disk while alloc_datablk has found the blocks `c`: the newest one has no links yet. */
  ghost predicate Allocating(d: Disk, d': Disk, c: seq<nat>, idx: nat, size: nat)
    requires idx < |d.inodes|
  {
    if c == [] then d' == d
    else Linking(d.blocks, d'.blocks, c, InodeAddr(idx), |c| - 1) && d' == Opened(d, d'.blocks, idx, size, c[0])
  }

  lemma AllocFirst(d: Disk, i: nat, idx: nat, size: nat)
    requires idx < |d.inodes| && i < |d.blocks|
    ensures Allocating(d, Opened(d, d.blocks, idx, size, i), [i], idx, size)
  {
  }

  predicate Ascending(c: seq<nat>, n: nat) {
    (forall i, j :: 0 <= i < j < |c| ==> c[i] < c[j]) && forall j :: 0 <= j < |c| ==> c[j] < n
  }

  lemma StartAlloc(d: Disk, idx: nat, size: nat)
    requires idx < |d.inodes|
    ensures Allocating(d, d, [], idx, size) && Ascending([], 0)
  {
  }

  lemma AscendingFree(blocks: seq<Blk>, n: nat)
    requires n <= |blocks|
    ensures Ascending(FreeBlks(blocks, n), n)
  {
  }

  /** The block under the search is still as it was. */
  lemma SearchedAsBefore(d: Disk, d': Disk, c: seq<nat>, idx: nat, size: nat, i: nat)
    requires idx < |d.inodes| && Allocating(d, d', c, idx, size) && Ascending(c, i) && i < |d.blocks|
    ensures |d'.blocks| == |d.blocks| && |d'.inodes| == |d.inodes| && d'.blocks[i] == d.blocks[i]
  {
  }

  lemma AllocNext(d: Disk, d': Disk, c: seq<nat>, idx: nat, size: nat, i: nat)
    requires idx < |d.inodes| && Allocating(d, d', c, idx, size) && c != [] && Ascending(c, i) && i < |d.blocks|
    ensures |d'.blocks| == |d.blocks|
    ensures var n := |c| - 1;
            var blk := d'.blocks[c[n]].(prev := PrevAddr(c, n, InodeAddr(idx)), next := BlkAddr(i));
            Allocating(d, d'.(blocks := d'.blocks[c[n] := blk]), c + [i], idx, size)
  {
    LinkNewest(d.blocks, d'.blocks, c, InodeAddr(idx), c + [i], BlkAddr(i));
  }

  lemma AllocLast(d: Disk, d': Disk, c: seq<nat>, idx: nat, size: nat, i: nat)
    requires idx < |d.inodes| && Allocating(d, d', c, idx, size) && c != [] && Ascending(c, i) && i <= |d.blocks|
    ensures |d'.blocks| == |d.blocks|
    ensures var n := |c| - 1;
            var b := d'.blocks[c[n] := d'.blocks[c[n]].(prev := PrevAddr(c, n, InodeAddr(idx)), next := 0)];
            Linking(d.blocks, b, c, InodeAddr(idx), |c|) && d'.(blocks := b) == Opened(d, b, idx, size, c[0])
  {
    LinkNewest(d.blocks, d'.blocks, c, InodeAddr(idx), c, 0);
  }

  /** The search has found enough blocks, block `i` last: its links complete the chain. */
  lemma AllocDone(d: Disk, d': Disk, c: seq<nat>, idx: nat, size: nat, i: nat, prevPrev: nat)
    requires idx < |d.inodes| && idx < INODE_MAX_CNT && i < |d.blocks| <= DATABLK_MAX_CNT
    requires Allocating(d, d', c, idx, size) && c != [] && c[|c| - 1] == i && Ascending(c, i + 1)
    requires c == FreeBlks(d.blocks, i + 1) && prevPrev == PrevAddr(c, |c| - 1, InodeAddr(idx))
    ensures |d'.blocks| == |d.blocks| && prevPrev < U32
    ensures |c| <= |FreeBlks(d.blocks, |d.blocks|)| && c == FreeBlks(d.blocks, |d.blocks|)[..|c|]
    ensures var b := d'.blocks[i := d'.blocks[i].(prev := prevPrev, next := 0)];
            Linking(d.blocks, b, c, InodeAddr(idx), |c|) && d'.(blocks := b) == Opened(d, b, idx, size, c[0])
  {
    hide Linking, Opened, FreeBlks, Allocating, NextAddr;
    AllocLast(d, d', c, idx, size, i + 1);
    Chosen(d.blocks, i + 1, c);
  }

  datatype File = File(inode: nat, size: nat, chain: seq<nat>)

  /** The j-th block of a chain points back and forth to its neighbours. */
  ghost predicate LinksAt(b: seq<Blk>, c: seq<nat>, from: nat, j: nat)
    requires j < |c| && c[j] < |b|
  {
    b[c[j]].prev == PrevAddr(c, j, from) && b[c[j]].next == NextAddr(c, j)
  }

  ghost predicate ChainOk(b: seq<Blk>, c: seq<nat>, from: nat) {
    && (forall i, j :: 0 <= i < j < |c| ==> c[i] < c[j])
    && (forall j :: 0 <= j < |c| ==> c[j] < |b|)
    && (forall j {:trigger LinksAt(b, c, from, j)} :: 0 <= j < |c| ==> LinksAt(b, c, from, j))
    && (forall j :: 0 <= j < |c| ==> |b[c[j]].payload| == PAYLOAD_SIZE)
  }

  /** A file's inode points to its chain, the chain is linked both ways, and it has just enough blocks. */
  ghost predicate FileOk(d: Disk, f: File) {
    && f.inode < |d.inodes| && 0 < f.size < MINUS_ONE && |f.chain| == Needed(f.size)
    && d.inodes[f.inode].fileSize == f.size && d.inodes[f.inode].datablkAddr == BlkAddr(f.chain[0])
    && ChainOk(d.blocks, f.chain, InodeAddr(f.inode))
  }

  function ByteAt(b: seq<Blk>, c: seq<nat>, size: nat, k: nat): byte
    requires k < size && |c| == Needed(size)
    requires forall j :: 0 <= j < |c| ==> c[j] < |b| && |b[c[j]].payload| == PAYLOAD_SIZE
  {
    Place(k, size);
    b[c[k / PAYLOAD_SIZE]].payload[k % PAYLOAD_SIZE]
  }

  /** What reading a file from start to end returns. */
  ghost function Data(d: Disk, f: File): (s: seq<byte>)
    requires FileOk(d, f)
    ensures |s| == f.size
  {
    seq(f.size, k requires 0 <= k < f.size => ByteAt(d.blocks, f.chain, f.size, k))
  }

  /** All files are well formed and share neither inodes nor blocks. */
  ghost predicate FsOk(d: Disk, files: seq<File>) {
    && |d.blocks| <= DATABLK_MAX_CNT
    && (forall i :: 0 <= i < |files| ==> FileOk(d, files[i]))
    && (forall i, j :: 0 <= i < j < |files| ==> files[i].inode != files[j].inode)
    && (forall i, j, x :: 0 <= i < j < |files| && x in files[i].chain ==> x !in files[j].chain)
  }

  function Part(s: seq<byte>, j: nat): seq<byte>
    requires j < Needed(|s|)
  {
    s[PAYLOAD_SIZE * j..if PAYLOAD_SIZE * (j + 1) <= |s| then PAYLOAD_SIZE * (j + 1) else |s|]
  }

  /** Each block of the chain holds its 504 bytes of `s`, the last one what is left. */
  ghost predicate Filled(b: seq<Blk>, c: seq<nat>, s: seq<byte>, n: nat)
    requires n <= |c| <= Needed(|s|) && forall j :: 0 <= j < |c| ==> c[j] < |b|
  {
    forall j :: 0 <= j < n ==> Part(s, j) <= b[c[j]].payload
  }

  /** `n` blocks of the chain are filled, and nothing but payloads has changed since `b0`. */
  ghost predicate Filling(b0: seq<Blk>, b: seq<Blk>, c: seq<nat>, s: seq<byte>, n: nat)
    requires n <= |c| == Needed(|s|) && forall j :: 0 <= j < |c| ==> c[j] < |b0|
  {
    && |b| == |b0| && (forall k :: 0 <= k < |b0| && k !in c[..n] ==> b[k] == b0[k])
    && (forall k :: 0 <= k < |b0| ==>
        b[k].prev == b0[k].prev && b[k].next == b0[k].next && |b[k].payload| == PAYLOAD_SIZE)
    && Filled(b, c, s, n)
  }

  lemma FillNext(b0: seq<Blk>, b: seq<Blk>, c: seq<nat>, s: seq<byte>, n: nat, payload: seq<byte>)
    requires n < |c| == Needed(|s|) && (forall j :: 0 <= j < |c| ==> c[j] < |b0|)
             && forall i, j :: 0 <= i < j < |c| ==> c[i] < c[j]
    requires Filling(b0, b, c, s, n) && |payload| == PAYLOAD_SIZE && Part(s, n) <= payload
    ensures Filling(b0, b[c[n] := b[c[n]].(payload := payload)], c, s, n + 1)
  {
    hide Needed, Part;
    var b' := b[c[n] := b[c[n]].(payload := payload)];
    assert c[..n + 1] == c[..n] + [c[n]];
    forall j | 0 <= j < n + 1 ensures Part(s, j) <= b'[c[j]].payload {
      if j < n { assert c[j] != c[n] && Part(s, j) <= b[c[j]].payload; }
    }
  }

  /** The disk after a first write of `s` to inode `i` and the chain `c`. */
  ghost predicate Stored(d: Disk, d': Disk, i: nat, c: seq<nat>, s: seq<byte>) {
    && |c| == Needed(|s|) && |s| > 0 && i < |d.inodes| && d'.head == d.head && d'.garbage == d.garbage
    && |d'.inodes| == |d.inodes| && (forall k :: 0 <= k < |d.inodes| && k != i ==> d'.inodes[k] == d.inodes[k])
    && d'.inodes[i].fileSize == |s| && d'.inodes[i].datablkAddr == BlkAddr(c[0])
    && |d'.blocks| == |d.blocks| && (forall k :: 0 <= k < |d.blocks| && k !in c ==> d'.blocks[k] == d.blocks[k])
    && ChainOk(d'.blocks, c, InodeAddr(i)) && Filled(d'.blocks, c, s, |c|)
  }

  lemma LinkedChain(b0: seq<Blk>, b: seq<Blk>, c: seq<nat>, from: nat)
    requires Linking(b0, b, c, from, |c|)
    ensures forall j :: 0 <= j < |c| ==> c[j] < |b0|
    ensures forall j {:trigger LinksAt(b, c, from, j)} :: 0 <= j < |c| ==> LinksAt(b, c, from, j)
    ensures forall k :: 0 <= k < |b0| && k !in c ==> b[k] == b0[k]
  {
    assert c[..|c|] == c;
    forall j | 0 <= j < |c| ensures LinksAt(b, c, from, j) {
      assert LinkAt(b0, b, c, from, j);
    }
  }

  /** Linking the chain, filling it and writing the inode make a stored file. */
  lemma StoredByParts(d: Disk, b1: seq<Blk>, d': Disk, idx: nat, c: seq<nat>, s: seq<byte>, r: Inode)
    requires idx < |d.inodes| && s != [] && |c| == Needed(|s|) && Ascending(c, |d.blocks|)
    requires Linking(d.blocks, b1, c, InodeAddr(idx), |c|) && Filling(b1, d'.blocks, c, s, |c|)
    requires d' == d.(blocks := d'.blocks, inodes := d.inodes[idx := r])
    requires r.fileSize == |s| && r.datablkAddr == BlkAddr(c[0])
    ensures Stored(d, d', idx, c, s)
  {
    LinkedChain(d.blocks, b1, c, InodeAddr(idx));
    assert c[..|c|] == c;
    forall j | 0 <= j < |c| ensures LinksAt(d'.blocks, c, InodeAddr(idx), j) {
      assert LinksAt(b1, c, InodeAddr(idx), j);
    }
  }

  /** An inode and enough blocks are free. */
  predicate HasRoom(d: Disk, len: nat) {
    FreeInode(d.inodes, 0) < |d.inodes| && Needed(len) <= |FreeBlks(d.blocks, |d.blocks|)|
  }

  /** slfs_write takes the first free inode and the first free blocks. */
  ghost predicate Step(d: Disk, s: seq<byte>, d': Disk) {
    && 0 < |s| < MINUS_ONE && HasRoom(d, |s|)
    && Stored(d, d', FreeInode(d.inodes, 0), FreeBlks(d.blocks, |d.blocks|)[..Needed(|s|)], s)
  }

  function NewFile(d: Disk, s: seq<byte>): File
    requires Needed(|s|) <= |FreeBlks(d.blocks, |d.blocks|)|
  {
    File(FreeInode(d.inodes, 0), |s|, FreeBlks(d.blocks, |d.blocks|)[..Needed(|s|)])
  }

  lemma PartIs(s: seq<byte>, n: nat, pos: nat, len: nat)
    requires pos == PAYLOAD_SIZE * n && pos < |s| && len == if |s| - pos > PAYLOAD_SIZE then PAYLOAD_SIZE else |s| - pos
    ensures n < Needed(|s|) && (n + 1 == Needed(|s|) <==> |s| - pos <= PAYLOAD_SIZE) && s[pos..pos + len] == Part(s, n)
  {
    hide Needed;
  }

  lemma PartAt(s: seq<byte>, k: nat)
    requires k < |s|
    ensures k / PAYLOAD_SIZE < Needed(|s|)
    ensures k % PAYLOAD_SIZE < |Part(s, k / PAYLOAD_SIZE)| && Part(s, k / PAYLOAD_SIZE)[k % PAYLOAD_SIZE] == s[k]
  {
    hide Needed;
    Place(k, |s|);
  }

  lemma NewByte(b: seq<Blk>, c: seq<nat>, s: seq<byte>, k: nat)
    requires k < |s| && |c| == Needed(|s|)
    requires forall j :: 0 <= j < |c| ==> c[j] < |b| && |b[c[j]].payload| == PAYLOAD_SIZE
    requires Filled(b, c, s, |c|)
    ensures ByteAt(b, c, |s|, k) == s[k]
  {
    hide Needed, Part;
    PartAt(s, k);
    assert Part(s, k / PAYLOAD_SIZE) <= b[c[k / PAYLOAD_SIZE]].payload;
  }

  lemma SizeOk(d: Disk, f: File)
    requires FileOk(d, f)
    ensures f.size > 0 && |f.chain| == Needed(f.size) && |Data(d, f)| == f.size
  {
  }

  lemma ChainAt(d: Disk, f: File, j: nat)
    requires FileOk(d, f) && j < |f.chain|
    ensures |f.chain| == Needed(f.size) && f.chain[j] < |d.blocks| && d.blocks[f.chain[j]].next == NextAddr(f.chain, j)
  {
    assert LinksAt(d.blocks, f.chain, InodeAddr(f.inode), j);
  }

  /** A stretch of a file's data that lies in one block. */
  lemma Chunk(d: Disk, f: File, j: nat, off: nat, len: nat)
    requires FileOk(d, f) && j < |f.chain| && off + len <= PAYLOAD_SIZE && PAYLOAD_SIZE * j + off + len <= f.size
    ensures f.chain[j] < |d.blocks| && |d.blocks[f.chain[j]].payload| == PAYLOAD_SIZE
    ensures Data(d, f)[PAYLOAD_SIZE * j + off..PAYLOAD_SIZE * j + off + len]
            == d.blocks[f.chain[j]].payload[off..off + len]
  {
    hide Needed;
    var x, y := Data(d, f)[PAYLOAD_SIZE * j + off..PAYLOAD_SIZE * j + off + len],
        d.blocks[f.chain[j]].payload[off..off + len];
    forall t | 0 <= t < len ensures x[t] == y[t] {
      var k := PAYLOAD_SIZE * j + off + t;
      assert k / PAYLOAD_SIZE == j && k % PAYLOAD_SIZE == off + t;
    }
  }

  lemma NewData(d: Disk, f: File, s: seq<byte>)
    requires FileOk(d, f) && f.size == |s| && Filled(d.blocks, f.chain, s, |f.chain|)
    ensures Data(d, f) == s
  {
    hide Needed, Part, Filled, ByteAt;
    forall k | 0 <= k < |s| ensures Data(d, f)[k] == s[k] {
      NewByte(d.blocks, f.chain, s, k);
    }
  }

  ghost predicate SameData(d: Disk, d': Disk, f: File) {
    FileOk(d, f) && FileOk(d', f) && Data(d', f) == Data(d, f)
  }

  /** A well-formed file keeps its shape and its data when its inode's size and start and its blocks are left alone. */
  lemma FileKept(d: Disk, d': Disk, f: File)
    requires FileOk(d, f) && f.inode < |d'.inodes|
    requires d'.inodes[f.inode].fileSize == d.inodes[f.inode].fileSize
    requires d'.inodes[f.inode].datablkAddr == d.inodes[f.inode].datablkAddr
    requires |d'.blocks| == |d.blocks| && forall j :: 0 <= j < |f.chain| ==>
               d'.blocks[f.chain[j]] == d.blocks[f.chain[j]]
    ensures SameData(d, d', f)
  {
    forall j | 0 <= j < |f.chain| ensures LinksAt(d'.blocks, f.chain, InodeAddr(f.inode), j) {
      assert LinksAt(d.blocks, f.chain, InodeAddr(f.inode), j);
    }
  }

  /** Reading file `f` from start to end returns `s`. */
  ghost predicate Holds(d: Disk, f: File, s: seq<byte>) {
    FileOk(d, f) && Data(d, f) == s
  }

  lemma NewFileOk(d: Disk, s: seq<byte>, d': Disk)
    requires Step(d, s, d')
    ensures Holds(d', NewFile(d, s), s)
  {
    hide Needed, FreeInode, FreeBlks;
    NewData(d', NewFile(d, s), s);
  }

  lemma ChainNotFree(b: seq<Blk>, c: seq<nat>, from: nat)
    requires ChainOk(b, c, from) && |b| <= DATABLK_MAX_CNT
    ensures forall j :: 0 <= j < |c| ==> !Free(b[c[j]])
  {
    forall j | 0 <= j < |c| ensures !Free(b[c[j]]) {
      assert LinksAt(b, c, from, j);
    }
  }

  /** What a file owns is not free. */
  lemma OldNotFree(d: Disk, f: File)
    requires FileOk(d, f) && |d.blocks| <= DATABLK_MAX_CNT
    ensures f.inode < |d.inodes| && d.inodes[f.inode].fileSize != MINUS_ONE
    ensures forall x :: x in f.chain ==> x < |d.blocks| && !Free(d.blocks[x])
  {
    ChainNotFree(d.blocks, f.chain, InodeAddr(f.inode));
  }

  /** A first write adds one file with the written data and leaves every other file as it was. */
  lemma WriteIsolated(d: Disk, s: seq<byte>, d': Disk, files: seq<File>)
    requires FsOk(d, files) && Step(d, s, d')
    ensures FsOk(d', files + [NewFile(d, s)]) && Holds(d', NewFile(d, s), s)
    ensures forall i :: 0 <= i < |files| ==> SameData(d, d', files[i])
  {
    hide Needed, Filled, FreeInode, FreeBlks, Data, FileOk, ChainOk, Linking;
    var f := NewFile(d, s);
    NewFileOk(d, s, d');
    forall i | 0 <= i < |files|
      ensures files[i].inode != f.inode && SameData(d, d', files[i])
      ensures forall x :: x in files[i].chain ==> x !in f.chain {
      OldNotFree(d, files[i]);
      FileKept(d, d', files[i]);
    }
  }

  /**
   The disk when alloc_datablk has run out of blocks: inode `idx` is open, and the free blocks are a
   chain without an end.
   */
  ghost predicate RanOut(d: Disk, d': Disk, idx: nat, size: nat) {
    idx < |d.inodes| && Allocating(d, d', FreeBlks(d.blocks, |d.blocks|), idx, size)
  }

  lemma RanOutParts(d: Disk, d': Disk, idx: nat, size: nat)
    requires RanOut(d, d', idx, size)
    ensures |d'.blocks| == |d.blocks| && |d'.inodes| == |d.inodes|
    ensures forall i :: 0 <= i < |d.inodes| && i != idx ==> d'.inodes[i] == d.inodes[i]
    ensures FreeBlks(d.blocks, |d.blocks|) == [] ==> d' == d
    ensures FreeBlks(d.blocks, |d.blocks|) != [] ==> d'.inodes[idx].fileSize == size
    ensures forall k :: 0 <= k < |d.blocks| && !Free(d.blocks[k]) ==> d'.blocks[k] == d.blocks[k]
  {
    hide FreeBlks, Free;
    var c := FreeBlks(d.blocks, |d.blocks|);
    forall k | 0 <= k < |d.blocks| && !Free(d.blocks[k]) ensures d'.blocks[k] == d.blocks[k] {
      assert k !in c;
    }
  }

  /** Every file keeps its data then. */
  lemma RanOutKeeps(d: Disk, d': Disk, size: nat, files: seq<File>)
    requires FsOk(d, files) && RanOut(d, d', FreeInode(d.inodes, 0), size)
    ensures FsOk(d', files) && forall i :: 0 <= i < |files| ==> SameData(d, d', files[i])
  {
    hide RanOut, FileOk, Data, FreeInode;
    RanOutParts(d, d', FreeInode(d.inodes, 0), size);
    forall i | 0 <= i < |files| ensures SameData(d, d', files[i]) {
      OldNotFree(d, files[i]);
      FileKept(d, d', files[i]);
    }
  }

  lemma {:induction false} AllFree(blocks: seq<Blk>, n: nat, k: nat)
    requires k < n <= |blocks| && Free(blocks[k])
    ensures k in FreeBlks(blocks, n)
  {
    if k < n - 1 {
      AllFree(blocks, n - 1, k);
    }
  }

  /** Of the blocks that were free only the last one still is. */
  lemma RanOutBlock(d: Disk, d': Disk, idx: nat, size: nat, k: nat)
    requires RanOut(d, d', idx, size) && |d.blocks| <= DATABLK_MAX_CNT && k < |d.blocks| && Free(d.blocks[k])
    ensures var c := FreeBlks(d.blocks, |d.blocks|);
            |d'.blocks| == |d.blocks| && c != [] && (Free(d'.blocks[k]) <==> k == c[|c| - 1])
  {
    hide FreeBlks;
    var c := FreeBlks(d.blocks, |d.blocks|);
    AllFree(d.blocks, |d.blocks|, k);
    var j :| 0 <= j < |c| && c[j] == k;
    if j < |c| - 1 {
      assert LinkAt(d.blocks, d'.blocks, c, InodeAddr(idx), j);
    } else {
      assert k !in c[..|c| - 1];
    }
  }

  /**
   What is lost: if there was a free block at all, the inode is taken, and of the blocks only the last
   free one stays free.
   */
  lemma RanOutLeaves(d: Disk, d': Disk, size: nat)
    requires RanOut(d, d', FreeInode(d.inodes, 0), size) && size < MINUS_ONE && |d.blocks| <= DATABLK_MAX_CNT
    ensures var c := FreeBlks(d.blocks, |d.blocks|);
            if c == [] then d' == d
            else
              && |d'.blocks| == |d.blocks| && FreeInode(d'.inodes, 0) > FreeInode(d.inodes, 0)
              && forall k :: 0 <= k < |d'.blocks| ==> (Free(d'.blocks[k]) <==> k == c[|c| - 1])
  {
    var c, idx := FreeBlks(d.blocks, |d.blocks|), FreeInode(d.inodes, 0);
    RanOutParts(d, d', idx, size);
    hide FreeBlks, RanOut;
    forall k | c != [] && 0 <= k < |d'.blocks| ensures Free(d'.blocks[k]) <==> k == c[|c| - 1] {
      if Free(d.blocks[k]) {
        RanOutBlock(d, d', idx, size, k);
      }
    }
  }

  /** Each disk of `ds` but the first comes from the one before by a first write. */
  ghost predicate Writes(ds: seq<Disk>, ss: seq<seq<byte>>) {
    |ds| == |ss| + 1 && forall i :: 0 <= i < |ss| ==> Step(ds[i], ss[i], ds[i + 1])
  }

  /** The file that a first write of `s` makes. */
  ghost predicate IsNew(d: Disk, s: seq<byte>, f: File) {
    Needed(|s|) <= |FreeBlks(d.blocks, |d.blocks|)| && f == NewFile(d, s)
  }

  /**
   Over any run of first writes, every file reads back what was written to it, and the files from
   before keep their data.
   */
  lemma {:induction false} RunIsolated(ds: seq<Disk>, ss: seq<seq<byte>>, files0: seq<File>, n: nat)
    returns (files: seq<File>)
    requires Writes(ds, ss) && n <= |ss| && FsOk(ds[0], files0)
    ensures |files| == |files0| + n && files[..|files0|] == files0 && FsOk(ds[n], files)
    ensures forall i :: 0 <= i < |files0| ==> SameData(ds[0], ds[n], files0[i])
    ensures forall i :: 0 <= i < n ==>
              IsNew(ds[i], ss[i], files[|files0| + i]) && Holds(ds[n], files[|files0| + i], ss[i])
  {
    hide FileOk, Data, Stored, NewFile, FreeBlks, Needed, FreeInode;
    if n == 0 {
      files := files0;
    } else {
      hide FsOk;
      var before := RunIsolated(ds, ss, files0, n - 1);
      WriteIsolated(ds[n - 1], ss[n - 1], ds[n], before);
      files := before + [NewFile(ds[n - 1], ss[n - 1])];
      forall i | 0 <= i < |files0| ensures SameData(ds[0], ds[n], files0[i]) {
        assert before[i] == files0[i];
      }
    }
  }
}
