/**
 The on-flash layout of SLFS: the inode table in the metadata page, and data blocks whose last eight
 bytes link them into chains (slfs.c).
 */
module SlfsDisk {
  import opened RamdiskIo

  const MINUS_ONE := 0xFFFF_FFFF
  const INODE_TAB_START := 0xC0
  const INODE_SIZE := 56
  const INODE_MAX_CNT := 32
  const GARBAGE_TAB_START := 0x7C0
  const DATABLK_START := 0x1000
  const DATABLK_SIZE := 512
  const PAYLOAD_SIZE := 504
  const DATABLK_MAX_CNT := (RAMDISK_SIZE - DATABLK_START) / DATABLK_SIZE

  datatype Blk = Blk(payload: seq<byte>, prev: nat, next: nat)

  /** slfs_inode_t; `rest` is the reserved word and the name. */
  datatype Inode = Inode(inodeIdx: nat, updateCnt: nat, fileSize: nat, datablkAddr: nat, fileId: nat, rest: seq<byte>)

  datatype Disk = Disk(head: seq<byte>, inodes: seq<Inode>, garbage: seq<byte>, blocks: seq<Blk>)

  function BlkAddr(i: nat): nat { DATABLK_START + i * DATABLK_SIZE }

  function InodeAddr(i: nat): nat { INODE_TAB_START + i * INODE_SIZE }

  function WordAt(m: Image, a: nat): nat
    requires a + 4 <= RAMDISK_SIZE
  {
    Word(m[a..a + 4])
  }

  function BlkAt(m: Image, i: nat): Blk
    requires i < DATABLK_MAX_CNT
  {
    var a := BlkAddr(i);
    Blk(m[a..a + PAYLOAD_SIZE], WordAt(m, a + PAYLOAD_SIZE), WordAt(m, a + PAYLOAD_SIZE + 4))
  }

  function InodeAt(m: Image, i: nat): Inode
    requires i < INODE_MAX_CNT
  {
    var a := InodeAddr(i);
    Inode(WordAt(m, a), WordAt(m, a + 4), WordAt(m, a + 8), WordAt(m, a + 12), WordAt(m, a + 16),
          m[a + 20..a + INODE_SIZE])
  }

  /** The whole flash, region by region. */
  function View(m: Image): (d: Disk)
    ensures |d.inodes| == INODE_MAX_CNT && forall i :: 0 <= i < INODE_MAX_CNT ==> d.inodes[i] == InodeAt(m, i)
    ensures |d.blocks| == DATABLK_MAX_CNT && forall i :: 0 <= i < DATABLK_MAX_CNT ==> d.blocks[i] == BlkAt(m, i)
  {
    Disk(m[..INODE_TAB_START],
         seq(INODE_MAX_CNT, i requires 0 <= i < INODE_MAX_CNT => InodeAt(m, i)),
         m[GARBAGE_TAB_START..DATABLK_START],
         seq(DATABLK_MAX_CNT, i requires 0 <= i < DATABLK_MAX_CNT => BlkAt(m, i)))
  }

  lemma BlkApart(m: Image, a: nat, b: seq<byte>, k: nat)
    requires a + |b| <= RAMDISK_SIZE && k < DATABLK_MAX_CNT
    requires a + |b| <= BlkAddr(k) || BlkAddr(k + 1) <= a
    ensures BlkAt(Splice(m, a, b), k) == BlkAt(m, k)
  {
    var x := BlkAddr(k);
    SpliceApart(m, a, b, x, x + PAYLOAD_SIZE);
    SpliceApart(m, a, b, x + PAYLOAD_SIZE, x + PAYLOAD_SIZE + 4);
    SpliceApart(m, a, b, x + PAYLOAD_SIZE + 4, x + DATABLK_SIZE);
  }

  lemma InodeApart(m: Image, a: nat, b: seq<byte>, k: nat)
    requires a + |b| <= RAMDISK_SIZE && k < INODE_MAX_CNT
    requires a + |b| <= InodeAddr(k) || InodeAddr(k + 1) <= a
    ensures InodeAt(Splice(m, a, b), k) == InodeAt(m, k)
  {
    var x := InodeAddr(k);
    SpliceApart(m, a, b, x, x + 4);
    SpliceApart(m, a, b, x + 4, x + 8);
    SpliceApart(m, a, b, x + 8, x + 12);
    SpliceApart(m, a, b, x + 12, x + 16);
    SpliceApart(m, a, b, x + 16, x + 20);
    SpliceApart(m, a, b, x + 20, x + INODE_SIZE);
  }

  lemma PayloadLen(m: Image, i: nat)
    requires i < DATABLK_MAX_CNT
    ensures |View(m).blocks[i].payload| == PAYLOAD_SIZE && View(m).blocks[i].prev < U32 && View(m).blocks[i].next < U32
  {
  }

  /** A write inside block `i` leaves all else. */
  lemma BlockWritten(m: Image, i: nat, off: nat, b: seq<byte>)
    requires i < DATABLK_MAX_CNT && off + |b| <= DATABLK_SIZE
    ensures var m' := Splice(m, BlkAddr(i) + off, b);
            View(m') == View(m).(blocks := View(m).blocks[i := BlkAt(m', i)])
  {
    hide InodeAt, BlkAt, Splice;
    var a := BlkAddr(i) + off;
    forall k | 0 <= k < DATABLK_MAX_CNT && k != i ensures BlkAt(Splice(m, a, b), k) == BlkAt(m, k) {
      BlkApart(m, a, b, k);
    }
    forall k | 0 <= k < INODE_MAX_CNT ensures InodeAt(Splice(m, a, b), k) == InodeAt(m, k) {
      InodeApart(m, a, b, k);
    }
    SpliceApart(m, a, b, 0, INODE_TAB_START);
    SpliceApart(m, a, b, GARBAGE_TAB_START, DATABLK_START);
  }

  /** A write inside inode `i` leaves all else. */
  lemma InodeWritten(m: Image, i: nat, off: nat, b: seq<byte>)
    requires i < INODE_MAX_CNT && off + |b| <= INODE_SIZE
    ensures var m' := Splice(m, InodeAddr(i) + off, b);
            View(m') == View(m).(inodes := View(m).inodes[i := InodeAt(m', i)])
  {
    hide InodeAt, BlkAt, Splice;
    var a := InodeAddr(i) + off;
    forall k | 0 <= k < DATABLK_MAX_CNT ensures BlkAt(Splice(m, a, b), k) == BlkAt(m, k) {
      BlkApart(m, a, b, k);
    }
    forall k | 0 <= k < INODE_MAX_CNT && k != i ensures InodeAt(Splice(m, a, b), k) == InodeAt(m, k) {
      InodeApart(m, a, b, k);
    }
    SpliceApart(m, a, b, 0, INODE_TAB_START);
    SpliceApart(m, a, b, GARBAGE_TAB_START, DATABLK_START);
  }

  /** The writes that SLFS makes, as updates of the view. */
  lemma TailWritten(m: Image, i: nat, prev: nat, next: nat)
    requires i < DATABLK_MAX_CNT && prev < U32 && next < U32
    ensures View(Splice(m, BlkAddr(i) + PAYLOAD_SIZE, Le(prev) + Le(next)))
            == View(m).(blocks := View(m).blocks[i := BlkAt(m, i).(prev := prev, next := next)])
  {
    var a, b := BlkAddr(i), Le(prev) + Le(next);
    hide Le, Word;
    SpliceApart(m, a + PAYLOAD_SIZE, b, a, a + PAYLOAD_SIZE);
    SpliceInside(m, a + PAYLOAD_SIZE, b, a + PAYLOAD_SIZE, a + PAYLOAD_SIZE + 4);
    SpliceInside(m, a + PAYLOAD_SIZE, b, a + PAYLOAD_SIZE + 4, a + DATABLK_SIZE);
    assert b[..4] == Le(prev) && b[4..8] == Le(next);
    BlockWritten(m, i, PAYLOAD_SIZE, b);
  }

  lemma PayloadWritten(m: Image, i: nat, b: seq<byte>)
    requires i < DATABLK_MAX_CNT && |b| <= PAYLOAD_SIZE
    ensures View(Splice(m, BlkAddr(i), b))
            == View(m).(blocks := View(m).blocks[i := BlkAt(m, i).(payload := b + BlkAt(m, i).payload[|b|..])])
  {
    hide Le, Word;
    var a := BlkAddr(i);
    SpliceApart(m, a, b, a + PAYLOAD_SIZE, a + PAYLOAD_SIZE + 4);
    SpliceApart(m, a, b, a + PAYLOAD_SIZE + 4, a + DATABLK_SIZE);
    assert Splice(m, a, b)[a..a + PAYLOAD_SIZE] == b + m[a..a + PAYLOAD_SIZE][|b|..];
    BlockWritten(m, i, 0, b);
  }

  /** The bytes of an inode record. */
  function InodeBytes(r: Inode): (b: seq<byte>)
    requires r.inodeIdx < U32 && r.updateCnt < U32 && r.fileSize < U32 && r.datablkAddr < U32 && r.fileId < U32
    requires |r.rest| == INODE_SIZE - 20
    ensures |b| == INODE_SIZE
  {
    Le(r.inodeIdx) + Le(r.updateCnt) + Le(r.fileSize) + Le(r.datablkAddr) + Le(r.fileId) + r.rest
  }

  lemma RecordWritten(m: Image, i: nat, r: Inode)
    requires i < INODE_MAX_CNT && |r.rest| == INODE_SIZE - 20
    requires r.inodeIdx < U32 && r.updateCnt < U32 && r.fileSize < U32 && r.datablkAddr < U32 && r.fileId < U32
    ensures View(Splice(m, InodeAddr(i), InodeBytes(r))) == View(m).(inodes := View(m).inodes[i := r])
  {
    var a, b := InodeAddr(i), InodeBytes(r);
    hide Le, Word;
    SpliceInside(m, a, b, a, a + 4);
    SpliceInside(m, a, b, a + 4, a + 8);
    SpliceInside(m, a, b, a + 8, a + 12);
    SpliceInside(m, a, b, a + 12, a + 16);
    SpliceInside(m, a, b, a + 16, a + 20);
    SpliceInside(m, a, b, a + 20, a + INODE_SIZE);
    assert b[0..4] == Le(r.inodeIdx) && b[4..8] == Le(r.updateCnt) && b[8..12] == Le(r.fileSize);
    assert b[12..16] == Le(r.datablkAddr) && b[16..20] == Le(r.fileId) && b[20..INODE_SIZE] == r.rest;
    InodeWritten(m, i, 0, b);
  }

  /** The OPEN event: the size and the first block, in one write. */
  lemma OpenWritten(m: Image, i: nat, size: nat, first: nat)
    requires i < INODE_MAX_CNT && size < U32 && first < U32
    ensures View(Splice(m, InodeAddr(i) + 8, Le(size) + Le(first)))
            == View(m).(inodes := View(m).inodes[i := InodeAt(m, i).(fileSize := size, datablkAddr := first)])
  {
    var a, b := InodeAddr(i), Le(size) + Le(first);
    hide Le, Word;
    SpliceApart(m, a + 8, b, a, a + 4);
    SpliceApart(m, a + 8, b, a + 4, a + 8);
    SpliceInside(m, a + 8, b, a + 8, a + 12);
    SpliceInside(m, a + 8, b, a + 12, a + 16);
    SpliceApart(m, a + 8, b, a + 16, a + 20);
    SpliceApart(m, a + 8, b, a + 20, a + INODE_SIZE);
    assert b[0..4] == Le(size) && b[4..8] == Le(first);
    InodeWritten(m, i, 8, b);
  }

  /** The CLOSE event: the update count. */
  lemma CloseWritten(m: Image, i: nat, cnt: nat)
    requires i < INODE_MAX_CNT && cnt < U32
    ensures View(Splice(m, InodeAddr(i) + 4, Le(cnt)))
            == View(m).(inodes := View(m).inodes[i := InodeAt(m, i).(updateCnt := cnt)])
  {
    var a, b := InodeAddr(i), Le(cnt);
    hide Le, Word;
    SpliceApart(m, a + 4, b, a, a + 4);
    SpliceInside(m, a + 4, b, a + 4, a + 8);
    SpliceApart(m, a + 4, b, a + 8, a + 12);
    SpliceApart(m, a + 4, b, a + 12, a + 16);
    SpliceApart(m, a + 4, b, a + 16, a + 20);
    SpliceApart(m, a + 4, b, a + 20, a + INODE_SIZE);
    assert b[0..4] == b;
    InodeWritten(m, i, 4, b);
  }
}
