/**
 SLFS file operations: the first write of a file, seek and read (slfs.c).
 */
module Slfs {
  import opened RamdiskIo
  import opened SlfsDisk
  import opened SlfsFiles

  datatype Error = NoErr | IoErr | ParamErr | FileParamErr | FileSizeErr | NoInodeErr | NoDatablkErr

  datatype Whence = SeekSet | SeekCur | SeekEnd

  const FNAME_LEN := 16

  /** slfs_file_t */
  class SlfsFile {
    var fd: nat
    var pos: nat
    var fileSize: nat
    var openCnt: nat
    var datablkAddr: nat
    var inodeIdx: nat
    var allocedblkNum: nat
    var updateCnt: nat
    var name: seq<byte>

    /** A handle that nothing was written through. */
    ghost predicate Fresh()
      reads this
    {
      && fd == MINUS_ONE && pos == 0 && fileSize == 0 && openCnt > 0 && updateCnt == 0 && |name| == FNAME_LEN
    }

    /** slfs_open, when no inode has the name yet. */
    constructor (name: seq<byte>)
      requires |name| == FNAME_LEN
      ensures Fresh() && this.name == name && openCnt == 1
      ensures datablkAddr == MINUS_ONE && inodeIdx == MINUS_ONE && allocedblkNum == 0
    {
      fd, pos, fileSize, openCnt, datablkAddr, inodeIdx := MINUS_ONE, 0, 0, 1, MINUS_ONE, MINUS_ONE;
      allocedblkNum, updateCnt := 0, 0;
      this.name := name;
    }

    /**
     slfs_seek: the position stays inside the file or does not change; `offset` is a 32-bit word, so
     SeekCur also goes back.
     */
    method Seek(offset: nat, whence: Whence) returns (ret: Error)
      requires offset < U32 && pos <= fileSize < U32
      modifies `pos
      ensures pos <= fileSize
      ensures ret == NoErr || ret == FileParamErr
      ensures ret != NoErr ==> pos == old(pos)
      ensures openCnt == 0 ==> ret != NoErr
      ensures openCnt > 0 && whence == SeekSet ==>
                (ret == NoErr <==> offset <= fileSize) && (ret == NoErr ==> pos == offset)
      ensures openCnt > 0 && whence == SeekEnd ==>
                (ret == NoErr <==> offset <= fileSize) && (ret == NoErr ==> pos + offset == fileSize)
      ensures openCnt > 0 && whence == SeekCur ==>
                var to := if old(pos) + offset < U32 then old(pos) + offset else old(pos) + offset - U32;
                (ret == NoErr <==> to <= fileSize) && (ret == NoErr ==> pos == to)
    {
      if openCnt == 0 { return FileParamErr; }
      var p: int;
      match whence {
        case SeekSet => p := offset;
        case SeekCur => p := (pos + offset) % U32;
        case SeekEnd => p := (fileSize - offset) % U32;
      }
      if p > fileSize { return FileParamErr; }
      pos := p;
      ret := NoErr;
    }
  }

  /** What a write does to the rest of its handle. */
  ghost predicate Updated(pf: SlfsFile, fd: nat, cnt: nat, blks: nat)
    reads pf
  {
    && pf.fd == (if fd == MINUS_ONE then pf.inodeIdx else fd)
    && pf.updateCnt == (cnt + 1) % U32 && pf.allocedblkNum == blks
  }

  /** What a write leaves in its handle when there is no free inode, */
  ghost predicate NoInode(pf: SlfsFile, size: nat, fd: nat, cnt: nat, idx: nat, addr: nat, blks: nat)
    reads pf
  {
    && pf.fileSize == size && pf.fd == fd && pf.updateCnt == cnt && pf.inodeIdx == idx && pf.datablkAddr == addr
    && pf.allocedblkNum == blks
  }

  /** and when the blocks run out: the inode is the handle's, and its first block is the first one found. */
  ghost predicate NoBlocks(pf: SlfsFile, d: Disk, size: nat, fd: nat, cnt: nat, addr: nat, blks: nat)
    reads pf
  {
    && pf.fileSize == size && pf.inodeIdx == FreeInode(d.inodes, 0) && Updated(pf, fd, cnt, blks)
    && var free := FreeBlks(d.blocks, |d.blocks|);
       pf.datablkAddr == if free == [] then addr else BlkAddr(free[0])
  }

  /** The handle stands for the file. */
  ghost predicate Names(pf: SlfsFile, f: File)
    reads pf
  {
    f.chain != [] && pf.inodeIdx == f.inode && pf.fileSize == f.size && pf.datablkAddr == BlkAddr(f.chain[0])
  }

  lemma Extended(data: seq<byte>, pos: nat, buf: seq<byte>, part: seq<byte>)
    requires pos + |buf| + |part| <= |data| && buf == data[pos..pos + |buf|]
    requires part == data[pos + |buf|..pos + |buf| + |part|]
    ensures buf + part == data[pos..pos + |buf + part|]
  {
  }

  lemma IsStep(d: Disk, s: seq<byte>, d': Disk, c: seq<nat>)
    requires 0 < |s| < MINUS_ONE && FreeInode(d.inodes, 0) < |d.inodes|
    requires Needed(|s|) <= |FreeBlks(d.blocks, |d.blocks|)| && c == FreeBlks(d.blocks, |d.blocks|)[..Needed(|s|)]
    requires Stored(d, d', FreeInode(d.inodes, 0), c, s)
    ensures Step(d, s, d') && NewFile(d, s) == File(FreeInode(d.inodes, 0), |s|, c)
  {
  }

  lemma ChosenAscending(blocks: seq<Blk>, n: nat, c: seq<nat>)
    requires n <= |blocks| && |c| <= |FreeBlks(blocks, n)| && c == FreeBlks(blocks, n)[..|c|]
    ensures Ascending(c, n)
  {
    AscendingFree(blocks, n);
  }

  lemma OpenedThenRecorded(d: Disk, b: seq<Blk>, idx: nat, size: nat, first: nat, r: Inode)
    requires idx < |d.inodes|
    ensures var d1 := Opened(d, b, idx, size, first);
            && idx < |d1.inodes| && d1.inodes[idx := r] == d.inodes[idx := r] && d1.head == d.head
               && d1.garbage == d.garbage && d1.blocks == b
  {
  }

  ghost predicate Storable(r: Inode) {
    && r.inodeIdx < U32 && r.updateCnt < U32 && r.fileSize < U32 && r.datablkAddr < U32 && r.fileId < U32
    && |r.rest| == INODE_SIZE - 20
  }

  lemma NextKept(b0: seq<Blk>, b: seq<Blk>, c: seq<nat>, s: seq<byte>, n: nat, j: nat)
    requires n <= |c| == Needed(|s|) && (forall j :: 0 <= j < |c| ==> c[j] < |b0|) && Filling(b0, b, c, s, n) && j < |c|
    ensures |b| == |b0| && b[c[j]].next == b0[c[j]].next && b[c[j]].prev == b0[c[j]].prev
  {
  }

  class FileSystem {
    const disk: Ramdisk
    /** page_load_data, the one page buffer. */
    var pageLoadData: seq<byte>

    ghost predicate Valid() {
      disk.Valid()
    }

    ghost function D(): Disk
      requires Valid()
      reads disk.mem
    {
      View(disk.mem[..])
    }

    constructor (disk: Ramdisk)
      ensures this.disk == disk
    {
      this.disk, pageLoadData := disk, [];
    }

    /** rw_page(page, false) */
    method LoadPage(page: nat) returns (ret: Error)
      requires Valid()
      modifies `pageLoadData
      ensures ret == if page < PAGE_NUM then NoErr else ParamErr
      ensures pageLoadData == if page < PAGE_NUM then disk.mem[page * PAGE_SIZE..(page + 1) * PAGE_SIZE]
              else old(pageLoadData)
    {
      if page >= PAGE_NUM { return ParamErr; }
      var err;
      err, pageLoadData := disk.Read(page * PAGE_SIZE, PAGE_SIZE);
      ret := NoErr;
    }

    lemma BufferedSize(i: nat)
      requires Valid() && i < INODE_MAX_CNT && pageLoadData == disk.mem[0..PAGE_SIZE]
      ensures var a := InodeAddr(i) + 8; Word(pageLoadData[a..a + 4]) == D().inodes[i].fileSize
    {
      hide View;
      var a := InodeAddr(i) + 8;
      assert pageLoadData[a..a + 4] == disk.mem[..][a..a + 4];
    }

    /** What update_fp writes to the handle. */
    method TakeInode(pf: SlfsFile, i: nat)
      modifies pf`inodeIdx, pf`updateCnt, pf`fd
      ensures pf.inodeIdx == i && pf.updateCnt == (old(pf.updateCnt) + 1) % U32
      ensures pf.fd == if old(pf.fd) == MINUS_ONE then i else old(pf.fd)
    {
      pf.inodeIdx := i;
      pf.updateCnt := (pf.updateCnt + 1) % U32;
      if pf.fd == MINUS_ONE { pf.fd := i; }
    }

    /** update_fp: the first inode whose size is unwritten. */
    method UpdateFp(pf: SlfsFile) returns (ret: Error)
      requires Valid()
      modifies `pageLoadData, pf`inodeIdx, pf`updateCnt, pf`fd
      ensures ret == if FreeInode(D().inodes, 0) < INODE_MAX_CNT then NoErr else NoInodeErr
      ensures ret == NoErr ==>
                && pf.inodeIdx == FreeInode(D().inodes, 0) && pf.updateCnt == (old(pf.updateCnt) + 1) % U32
                && pf.fd == if old(pf.fd) == MINUS_ONE then pf.inodeIdx else old(pf.fd)
      ensures ret == NoInodeErr ==> unchanged(pf)
      ensures pageLoadData == disk.mem[0..PAGE_SIZE]
    {
      hide View, Word, FreeInode;
      ret := LoadPage(0);
      var i := 0;
      while i < INODE_MAX_CNT
        invariant 0 <= i <= INODE_MAX_CNT && FreeInode(D().inodes, 0) == FreeInode(D().inodes, i)
        invariant i < INODE_MAX_CNT || FreeInode(D().inodes, i) == INODE_MAX_CNT
        invariant pageLoadData == disk.mem[0..PAGE_SIZE] && unchanged(pf)
      {
        var a := INODE_TAB_START + i * INODE_SIZE + 8;
        BufferedSize(i);
        FreeInodeStep(D().inodes, i);
        if Word(pageLoadData[a..a + 4]) == MINUS_ONE {
          TakeInode(pf, i);
          return NoErr;
        }
        i := i + 1;
      }
      ret := NoInodeErr;
    }

    /** Both tail words of the block at `addr`. */
    method ReadTail(addr: nat, ghost i: nat) returns (prev: nat, next: nat)
      requires Valid() && i < DATABLK_MAX_CNT && addr == BlkAddr(i)
      ensures prev == D().blocks[i].prev && next == D().blocks[i].next
    {
      hide View, Word;
      ghost var m := disk.mem[..];
      var err, tail := disk.Read(addr + PAYLOAD_SIZE, 8);
      assert tail[..4] == m[addr + PAYLOAD_SIZE..addr + PAYLOAD_SIZE + 4];
      assert tail[4..8] == m[addr + PAYLOAD_SIZE + 4..addr + PAYLOAD_SIZE + 8];
      prev, next := Word(tail[..4]), Word(tail[4..8]);
    }

    method WriteTail(addr: nat, prev: nat, next: nat, ghost i: nat)
      requires Valid() && i < DATABLK_MAX_CNT && addr == BlkAddr(i) && prev < U32 && next < U32
      modifies disk.mem, disk`log
      ensures D() == old(D()).(blocks := old(D()).blocks[i := old(D()).blocks[i].(prev := prev, next := next)])
    {
      TailWritten(disk.mem[..], i, prev, next);
      var err := disk.Write(addr + PAYLOAD_SIZE, Le(prev) + Le(next));
    }

    /** The search of alloc_datablk in front of block `i`. */
    ghost predicate Searching(pf: SlfsFile, alloced: nat, prev: nat, prevPrev: nat, d: Disk, c: seq<nat>, i: nat)
      requires Valid()
      reads disk.mem, pf`inodeIdx, pf`fileSize, pf`datablkAddr
    {
      && |d.blocks| == DATABLK_MAX_CNT && |d.inodes| == INODE_MAX_CNT && i <= DATABLK_MAX_CNT
         && pf.inodeIdx < INODE_MAX_CNT
      && pf.fileSize < U32
      && c == FreeBlks(d.blocks, i) && alloced == |c| && Ascending(c, i)
      && Allocating(d, D(), c, pf.inodeIdx, pf.fileSize)
      && (c != [] ==>
            && pf.datablkAddr == BlkAddr(c[0]) && prev == BlkAddr(c[|c| - 1])
            && prevPrev == PrevAddr(c, |c| - 1, InodeAddr(pf.inodeIdx)))
    }

    lemma StartSearch(pf: SlfsFile)
      requires Valid() && pf.inodeIdx < INODE_MAX_CNT && pf.fileSize < U32
      ensures Searching(pf, 0, 0, 0, D(), [], 0)
    {
      hide View;
      StartAlloc(D(), pf.inodeIdx, pf.fileSize);
      FreeBlksStep(D().blocks, 0);
    }

    lemma Searched(pf: SlfsFile, alloced: nat, prev: nat, prevPrev: nat, d: Disk, c: seq<nat>, i: nat)
      requires Valid() && Searching(pf, alloced, prev, prevPrev, d, c, i)
      ensures |d.blocks| == DATABLK_MAX_CNT && i <= DATABLK_MAX_CNT && alloced == |c| && c == FreeBlks(d.blocks, i)
      ensures i == DATABLK_MAX_CNT ==> RanOut(d, D(), pf.inodeIdx, pf.fileSize)
      ensures c != [] ==> pf.datablkAddr == BlkAddr(c[0])
    {
      hide View, FreeBlks, Allocating, Ascending;
    }

    /** The OPEN event of alloc_datablk. */
    method WriteOpen(pf: SlfsFile, addr: nat)
      requires Valid() && pf.inodeIdx < INODE_MAX_CNT && pf.fileSize < U32 && addr < U32
      modifies disk.mem, disk`log
      ensures var d := old(D());
              var r := d.inodes[pf.inodeIdx].(fileSize := pf.fileSize, datablkAddr := addr);
              D() == d.(inodes := d.inodes[pf.inodeIdx := r])
    {
      OpenWritten(disk.mem[..], pf.inodeIdx, pf.fileSize, addr);
      var err := disk.Write(INODE_TAB_START + pf.inodeIdx * INODE_SIZE + 8, Le(pf.fileSize) + Le(addr));
    }

    /** A free block is found: the OPEN event for the first one, the tail of the one before for the others. */
    method Extend(pf: SlfsFile, alloced: nat, addr: nat, prev: nat, prevPrev: nat, ghost d: Disk, ghost c: seq<nat>,
                  ghost i: nat)
      returns (prevPrev': nat, prev': nat)
      requires Valid() && pf.inodeIdx < INODE_MAX_CNT == |d.inodes| && |d.blocks| == DATABLK_MAX_CNT
               && pf.fileSize < U32
      requires i < DATABLK_MAX_CNT && addr == BlkAddr(i) && Ascending(c, i) && alloced == |c|
      requires Allocating(d, D(), c, pf.inodeIdx, pf.fileSize)
      requires c != [] ==> prev == BlkAddr(c[|c| - 1]) && prevPrev == PrevAddr(c, |c| - 1, InodeAddr(pf.inodeIdx))
      modifies disk.mem, disk`log, pf`datablkAddr
      ensures Allocating(d, D(), c + [i], pf.inodeIdx, pf.fileSize)
      ensures prev' == addr && prevPrev' == PrevAddr(c + [i], |c|, InodeAddr(pf.inodeIdx))
      ensures pf.datablkAddr == if c == [] then addr else old(pf.datablkAddr)
    {
      hide View, Linking, FreeBlks;
      if alloced == 0 {
        pf.datablkAddr := addr;
        WriteOpen(pf, addr);
        prevPrev', prev' := INODE_TAB_START + pf.inodeIdx * INODE_SIZE, addr;
        AllocFirst(d, i, pf.inodeIdx, pf.fileSize);
        assert c + [i] == [i];
      } else {
        AllocNext(d, D(), c, pf.inodeIdx, pf.fileSize, i);
        WriteTail(prev, prevPrev, addr, c[|c| - 1]);
        prevPrev', prev' := prev, addr;
      }
    }

    /** One round of the search: a free block is taken. */
    method Visit(pf: SlfsFile, addr: nat, alloced: nat, prev: nat, prevPrev: nat, ghost d: Disk, ghost c: seq<nat>,
                 ghost i: nat)
      returns (alloced': nat, prev': nat, prevPrev': nat, ghost c': seq<nat>)
      requires Valid() && i < DATABLK_MAX_CNT && addr == BlkAddr(i) && Searching(pf, alloced, prev, prevPrev, d, c, i)
      modifies disk.mem, disk`log, pf`datablkAddr
      ensures Searching(pf, alloced', prev', prevPrev', d, c', i + 1)
      ensures alloced <= alloced' <= alloced + 1 && (alloced' > alloced ==> c' != [] && c'[|c'| - 1] == i)
      ensures c' == [] ==> c == [] && pf.datablkAddr == old(pf.datablkAddr)
    {
      hide View, Linking, FreeBlks, Allocating, Opened, BlkAddr;
      SearchedAsBefore(d, D(), c, pf.inodeIdx, pf.fileSize, i);
      FreeBlksStep(d.blocks, i);
      AscendingFree(d.blocks, i + 1);
      var tailPrev, tailNext := ReadTail(addr, i);
      alloced', prev', prevPrev', c' := alloced, prev, prevPrev, c;
      if tailPrev == MINUS_ONE && tailNext == MINUS_ONE {
        prevPrev', prev' := Extend(pf, alloced, addr, prev, prevPrev, d, c, i);
        alloced' := alloced + 1;
        c' := c + [i];
      }
    }

    lemma LastFound(pf: SlfsFile, alloced: nat, prev: nat, prevPrev: nat, d: Disk, c: seq<nat>, i: nat)
      requires Valid() && i < DATABLK_MAX_CNT && c != [] && c[|c| - 1] == i
               && Searching(pf, alloced, prev, prevPrev, d, c, i + 1)
      ensures pf.inodeIdx < |d.inodes| && |d.blocks| == DATABLK_MAX_CNT && alloced == |c| && prevPrev < U32
      ensures |c| <= |FreeBlks(d.blocks, DATABLK_MAX_CNT)| && c == FreeBlks(d.blocks, DATABLK_MAX_CNT)[..|c|]
      ensures var b := D().blocks[i := D().blocks[i].(prev := prevPrev, next := 0)];
              Linking(d.blocks, b, c, InodeAddr(pf.inodeIdx), |c|)
                && D().(blocks := b) == Opened(d, b, pf.inodeIdx, pf.fileSize, c[0])
      ensures pf.datablkAddr == BlkAddr(c[0])
    {
      hide View, Linking, Opened, FreeBlks, Allocating, Ascending, PrevAddr;
      AllocDone(d, D(), c, pf.inodeIdx, pf.fileSize, i, prevPrev);
    }

    /** The last block of the chain is linked. */
    method Close(pf: SlfsFile, addr: nat, alloced: nat, prev: nat, prevPrev: nat, ghost d: Disk, ghost c: seq<nat>,
                 ghost i: nat)
      requires Valid() && i < DATABLK_MAX_CNT && addr == BlkAddr(i) && c != [] && c[|c| - 1] == i
      requires Searching(pf, alloced, prev, prevPrev, d, c, i + 1)
      modifies disk.mem, disk`log
      ensures pf.inodeIdx < |d.inodes| && |d.blocks| == DATABLK_MAX_CNT && alloced == |c|
      ensures |c| <= |FreeBlks(d.blocks, DATABLK_MAX_CNT)| && c == FreeBlks(d.blocks, DATABLK_MAX_CNT)[..|c|]
      ensures Linking(d.blocks, D().blocks, c, InodeAddr(pf.inodeIdx), |c|)
      ensures D() == Opened(d, D().blocks, pf.inodeIdx, pf.fileSize, c[0]) && pf.datablkAddr == BlkAddr(c[0])
    {
      hide View, Linking, Opened, FreeBlks, Searching;
      LastFound(pf, alloced, prev, prevPrev, d, c, i);
      WriteTail(addr, prevPrev, 0, i);
    }

    /** The count of blocks at the start of alloc_datablk. */
    method CountBlks(size: nat) returns (n: nat)
      requires size > 0
      ensures n == Needed(size) > 0
    {
      var len := size;
      n := 0;
      while len > PAYLOAD_SIZE
        invariant size == PAYLOAD_SIZE * n + len && len > 0
      {
        n, len := n + 1, len - PAYLOAD_SIZE;
      }
      if len != 0 {
        n := n + 1;
      }
    }

    /** alloc_datablk: the first free blocks in address order, linked both ways; the caller never asks for none. */
    method AllocDatablk(pf: SlfsFile, len: nat) returns (ret: Error, ghost c: seq<nat>)
      requires Valid() && pf.inodeIdx < INODE_MAX_CNT && len > 0 && pf.pos + len < U32 && pf.fileSize < U32
      modifies disk.mem, disk`log, pf`fileSize, pf`datablkAddr, pf`allocedblkNum
      ensures pf.fileSize == if old(pf.pos) + len > old(pf.fileSize) then old(pf.pos) + len else old(pf.fileSize)
      ensures ret == if Needed(pf.fileSize) <= |FreeBlks(old(D()).blocks, DATABLK_MAX_CNT)| then NoErr else NoDatablkErr
      ensures ret == NoErr ==>
                && c == FreeBlks(old(D()).blocks, DATABLK_MAX_CNT)[..Needed(pf.fileSize)] && c != []
                && Linking(old(D()).blocks, D().blocks, c, InodeAddr(pf.inodeIdx), |c|)
                && D() == Opened(old(D()), D().blocks, pf.inodeIdx, pf.fileSize, c[0])
                && pf.datablkAddr == BlkAddr(c[0]) && pf.allocedblkNum == |c|
      ensures ret == NoDatablkErr ==> RanOut(old(D()), D(), pf.inodeIdx, pf.fileSize)
      ensures ret == NoDatablkErr ==>
                && pf.allocedblkNum == old(pf.allocedblkNum)
                && pf.datablkAddr == (if c == [] then old(pf.datablkAddr) else BlkAddr(c[0]))
                && c == FreeBlks(old(D()).blocks, DATABLK_MAX_CNT)
    {
      hide View, Linking, FreeBlks, Needed, Allocating, Opened, Ascending, Searching, RanOut;
      ghost var d := D();
      if pf.pos + len > pf.fileSize {
        pf.fileSize := pf.pos + len;
      }
      ghost var size := pf.fileSize;
      var needed := CountBlks(pf.fileSize);
      var addr, i, alloced, prev, prevPrev := DATABLK_START, 0, 0, 0, 0;
      c := [];
      StartSearch(pf);
      while i < DATABLK_MAX_CNT
        invariant 0 <= i <= DATABLK_MAX_CNT && addr == BlkAddr(i) && pf.fileSize == size && alloced < needed
        invariant Searching(pf, alloced, prev, prevPrev, d, c, i)
        invariant pf.allocedblkNum == old(pf.allocedblkNum) && (c == [] ==> pf.datablkAddr == old(pf.datablkAddr))
      {
        alloced, prev, prevPrev, c := Visit(pf, addr, alloced, prev, prevPrev, d, c, i);
        if alloced == needed {
          pf.allocedblkNum := alloced;
          Close(pf, addr, alloced, prev, prevPrev, d, c, i);
          ret := NoErr;
          return;
        }
        addr := addr + DATABLK_SIZE;
        i := i + 1;
      }
      Searched(pf, alloced, prev, prevPrev, d, c, i);
      ret := NoDatablkErr;
    }

    /**
     The writes of the inode record: once with the size in an otherwise uninitialised record, then
     with its other fields.
     */
    method WriteRecord(pf: SlfsFile, junk: Inode) returns (ghost r: Inode)
      requires Valid() && pf.inodeIdx < INODE_MAX_CNT && pf.fileSize < U32 && pf.fd < U32 && pf.datablkAddr < U32
      requires Storable(junk) && |pf.name| == FNAME_LEN
      modifies disk.mem, disk`log
      ensures r.inodeIdx == pf.inodeIdx && r.fileId == pf.fd && r.fileSize == pf.fileSize
              && r.datablkAddr == pf.datablkAddr
      ensures |r.rest| == INODE_SIZE - 20 && r.rest[4..4 + FNAME_LEN] == pf.name
      ensures D() == old(D()).(inodes := old(D()).inodes[pf.inodeIdx := r])
    {
      hide View, InodeBytes;
      var addr := INODE_TAB_START + pf.inodeIdx * INODE_SIZE;
      var inode := junk.(fileSize := pf.fileSize);
      RecordWritten(disk.mem[..], pf.inodeIdx, inode);
      var err := disk.Write(addr, InodeBytes(inode));
      inode := inode.(inodeIdx := pf.inodeIdx, fileId := pf.fd, datablkAddr := pf.datablkAddr);
      inode := inode.(rest := inode.rest[..4] + pf.name + inode.rest[4 + FNAME_LEN..]);
      RecordWritten(disk.mem[..], pf.inodeIdx, inode);
      err := disk.Write(addr, InodeBytes(inode));
      r := inode;
    }

    /** One write of the data loop. */
    method WritePayload(addr: nat, part: seq<byte>, ghost d: Disk, ghost c: seq<nat>, ghost buf: seq<byte>,
                        ghost n: nat)
      requires Valid() && |d.blocks| == DATABLK_MAX_CNT && n < |c| == Needed(|buf|) && Ascending(c, DATABLK_MAX_CNT)
      requires addr == BlkAddr(c[n]) && part == Part(buf, n) && Filling(d.blocks, D().blocks, c, buf, n)
      modifies disk.mem, disk`log
      ensures D() == old(D()).(blocks := D().blocks) && Filling(d.blocks, D().blocks, c, buf, n + 1)
    {
      hide View, Filling, Needed;
      PayloadWritten(disk.mem[..], c[n], part);
      PayloadLen(disk.mem[..], c[n]);
      ghost var b := D().blocks;
      FillNext(d.blocks, b, c, buf, n, part + b[c[n]].payload[|part|..]);
      var err := disk.Write(addr, part);
    }

    method ReadNext(addr: nat, ghost i: nat) returns (next: nat)
      requires Valid() && i < DATABLK_MAX_CNT && addr == BlkAddr(i)
      ensures next == D().blocks[i].next
    {
      hide View, Word;
      var err, tail := disk.Read(addr + PAYLOAD_SIZE + 4, 4);
      assert tail == disk.mem[..][addr + PAYLOAD_SIZE + 4..addr + PAYLOAD_SIZE + 8];
      next := Word(tail);
    }

    /** A full block of the data loop, and the way to the next one. */
    method WriteFull(addr: nat, part: seq<byte>, ghost d: Disk, ghost c: seq<nat>, ghost buf: seq<byte>, ghost n: nat)
      returns (next: nat)
      requires Valid() && |d.blocks| == DATABLK_MAX_CNT && n + 1 < |c| == Needed(|buf|) && Ascending(c, DATABLK_MAX_CNT)
      requires addr == BlkAddr(c[n]) && part == Part(buf, n) && Filling(d.blocks, D().blocks, c, buf, n)
      requires d.blocks[c[n]].next == NextAddr(c, n)
      modifies disk.mem, disk`log
      ensures D() == old(D()).(blocks := D().blocks) && Filling(d.blocks, D().blocks, c, buf, n + 1)
      ensures next == BlkAddr(c[n + 1])
    {
      hide View, Filling, Needed, Part;
      WritePayload(addr, part, d, c, buf, n);
      NextKept(d.blocks, D().blocks, c, buf, n + 1, n);
      next := ReadNext(addr, c[n]);
    }

    lemma FillStart(c: seq<nat>, buf: seq<byte>)
      requires Valid() && |c| == Needed(|buf|) && Ascending(c, DATABLK_MAX_CNT)
      ensures Filling(D().blocks, D().blocks, c, buf, 0)
    {
      forall k | 0 <= k < DATABLK_MAX_CNT ensures |D().blocks[k].payload| == PAYLOAD_SIZE {
        PayloadLen(disk.mem[..], k);
      }
      hide View;
    }

    /** The data loop of a first write. */
    method WriteData(pf: SlfsFile, buf: seq<byte>, ghost c: seq<nat>, ghost from: nat)
      requires Valid() && buf != [] && |c| == Needed(|buf|) && Ascending(c, DATABLK_MAX_CNT)
      requires pf.datablkAddr == BlkAddr(c[0])
      requires forall j {:trigger LinksAt(D().blocks, c, from, j)} :: 0 <= j < |c| ==> LinksAt(D().blocks, c, from, j)
      modifies disk.mem, disk`log
      ensures D() == old(D()).(blocks := D().blocks) && Filling(old(D()).blocks, D().blocks, c, buf, |c|)
    {
      hide View, Filling, Needed, Part;
      ghost var d, n := D(), 0;
      FillStart(c, buf);
      var addr, bufPos, bytes := pf.datablkAddr, 0, |buf|;
      while bytes > 0
        invariant 0 <= n <= |c| && bufPos + bytes == |buf| && 0 <= bytes
        invariant n < |c| ==> addr == BlkAddr(c[n]) && bufPos == PAYLOAD_SIZE * n
        invariant n == |c| <==> bytes == 0
        invariant D() == d.(blocks := D().blocks) && Filling(d.blocks, D().blocks, c, buf, n)
        decreases bytes
      {
        PartIs(buf, n, bufPos, if bytes > PAYLOAD_SIZE then PAYLOAD_SIZE else bytes);
        if bytes > PAYLOAD_SIZE {
          assert LinksAt(d.blocks, c, from, n);
          addr := WriteFull(addr, buf[bufPos..bufPos + PAYLOAD_SIZE], d, c, buf, n);
          bytes, bufPos := bytes - PAYLOAD_SIZE, bufPos + PAYLOAD_SIZE;
          n := n + 1;
        } else {
          WritePayload(addr, buf[bufPos..bufPos + bytes], d, c, buf, n);
          addr, bufPos, bytes := addr + bytes, bufPos + bytes, 0;
          n := n + 1;
        }
      }
    }

    /** The inode that a write leaves: size, place, count and name of the handle. */
    ghost predicate Recorded(pf: SlfsFile)
      requires Valid()
      reads disk.mem, pf
    {
      pf.inodeIdx < INODE_MAX_CNT &&
      var r := D().inodes[pf.inodeIdx];
      && r.inodeIdx == pf.inodeIdx && r.fileId == pf.fd && r.updateCnt == pf.updateCnt
      && |r.rest| == INODE_SIZE - 20 && r.rest[4..4 + FNAME_LEN] == pf.name
    }

    /** slfs_write once the inode and the blocks are there: the inode record, the data and the CLOSE event. */
    method Store(pf: SlfsFile, buf: seq<byte>, junk: Inode, ghost d: Disk, ghost c: seq<nat>)
      requires Valid() && pf.inodeIdx < INODE_MAX_CNT == |d.inodes| && |d.blocks| == DATABLK_MAX_CNT
      requires buf != [] && |buf| == pf.fileSize < MINUS_ONE && pf.fd < U32 && pf.updateCnt < U32
      requires Storable(junk) && |pf.name| == FNAME_LEN
      requires |c| == Needed(|buf|) && Ascending(c, DATABLK_MAX_CNT) && pf.datablkAddr == BlkAddr(c[0])
      requires Linking(d.blocks, D().blocks, c, InodeAddr(pf.inodeIdx), |c|)
      requires D() == Opened(d, D().blocks, pf.inodeIdx, pf.fileSize, c[0])
      modifies disk.mem, disk`log
      ensures Stored(d, D(), pf.inodeIdx, c, buf) && Recorded(pf)
    {
      hide View, Needed, Linking, Filling, Opened, Stored, Ascending;
      ghost var b1 := D().blocks;
      LinkedChain(d.blocks, b1, c, InodeAddr(pf.inodeIdx));
      ghost var r := WriteRecord(pf, junk);
      OpenedThenRecorded(d, b1, pf.inodeIdx, pf.fileSize, c[0], r);
      WriteData(pf, buf, c, InodeAddr(pf.inodeIdx));
      CloseWritten(disk.mem[..], pf.inodeIdx, pf.updateCnt);
      var err := disk.Write(INODE_TAB_START + pf.inodeIdx * INODE_SIZE + 4, Le(pf.updateCnt));
      StoredByParts(d, b1, D(), pf.inodeIdx, c, buf, r.(updateCnt := pf.updateCnt));
    }

    /** The same as a step of the model. */
    method StoreNew(pf: SlfsFile, buf: seq<byte>, junk: Inode, ghost d: Disk, ghost c: seq<nat>)
      requires Valid() && pf.inodeIdx == FreeInode(d.inodes, 0) < INODE_MAX_CNT == |d.inodes|
      requires |d.blocks| == DATABLK_MAX_CNT && 0 < |buf| == pf.fileSize < MINUS_ONE && pf.fd < U32
               && pf.updateCnt < U32
      requires Storable(junk) && |pf.name| == FNAME_LEN
      requires Needed(|buf|) <= |FreeBlks(d.blocks, DATABLK_MAX_CNT)| && c != []
      requires c == FreeBlks(d.blocks, DATABLK_MAX_CNT)[..Needed(|buf|)] && pf.datablkAddr == BlkAddr(c[0])
      requires Linking(d.blocks, D().blocks, c, InodeAddr(pf.inodeIdx), |c|)
      requires D() == Opened(d, D().blocks, pf.inodeIdx, pf.fileSize, c[0])
      modifies disk.mem, disk`log
      ensures Step(d, buf, D()) && Names(pf, NewFile(d, buf)) && Recorded(pf)
    {
      hide View, FreeInode, FreeBlks, Needed, Linking, Opened, Stored, Ascending, Recorded, Step, NewFile, HasRoom;
      ChosenAscending(d.blocks, DATABLK_MAX_CNT, c);
      Store(pf, buf, junk, d, c);
      IsStep(d, buf, D(), c);
    }

    /** The blocks and the data of a new file, once it has its inode. */
    method WriteBlocks(pf: SlfsFile, buf: seq<byte>, junk: Inode) returns (ret: Error)
      requires Valid() && pf.inodeIdx == FreeInode(D().inodes, 0) < INODE_MAX_CNT
      requires pf.pos == 0 && 0 < |buf| == pf.fileSize < MINUS_ONE && pf.fd < U32 && pf.updateCnt < U32
      requires Storable(junk) && |pf.name| == FNAME_LEN
      modifies disk.mem, disk`log, pf`fileSize, pf`datablkAddr, pf`allocedblkNum
      ensures ret == if Needed(|buf|) > |FreeBlks(old(D()).blocks, DATABLK_MAX_CNT)| then NoDatablkErr else NoErr
      ensures pf.fileSize == |buf|
      ensures ret == NoErr ==>
                && Step(old(D()), buf, D()) && Names(pf, NewFile(old(D()), buf)) && Recorded(pf)
                && pf.allocedblkNum == Needed(|buf|)
      ensures ret == NoDatablkErr ==>
                && RanOut(old(D()), D(), pf.inodeIdx, |buf|) && pf.allocedblkNum == old(pf.allocedblkNum)
                && var free := FreeBlks(old(D()).blocks, DATABLK_MAX_CNT);
                   pf.datablkAddr == if free == [] then old(pf.datablkAddr) else BlkAddr(free[0])
    {
      hide View, FreeInode, FreeBlks, Needed, Linking, Opened, RanOut, Step, NewFile, Recorded;
      ghost var d, c := D(), [];
      ret, c := AllocDatablk(pf, |buf|);
      if ret != NoErr { return; }
      StoreNew(pf, buf, junk, d, c);
    }

    /** slfs_write of a new file's data. */
    method WriteNew(pf: SlfsFile, buf: seq<byte>, junk: Inode) returns (ret: Error)
      requires Valid() && pf.fileSize == 0 && pf.pos == 0 && |pf.name| == FNAME_LEN && pf.fd < U32
               && 0 < |buf| < MINUS_ONE
      requires Storable(junk)
      modifies `pageLoadData, disk.mem, disk`log
      modifies pf`fileSize, pf`inodeIdx, pf`updateCnt, pf`fd, pf`datablkAddr, pf`allocedblkNum
      ensures ret == (if FreeInode(old(D()).inodes, 0) == INODE_MAX_CNT then NoInodeErr
                      else if Needed(|buf|) > |FreeBlks(old(D()).blocks, DATABLK_MAX_CNT)| then NoDatablkErr
                      else NoErr)
      ensures ret == NoErr ==>
                && Step(old(D()), buf, D()) && Names(pf, NewFile(old(D()), buf)) && Recorded(pf)
                && Updated(pf, old(pf.fd), old(pf.updateCnt), Needed(|buf|))
      ensures ret == NoInodeErr ==>
                && D() == old(D())
                && NoInode(pf, |buf|, old(pf.fd), old(pf.updateCnt), old(pf.inodeIdx), old(pf.datablkAddr),
                           old(pf.allocedblkNum))
      ensures ret == NoDatablkErr ==>
                && RanOut(old(D()), D(), FreeInode(old(D()).inodes, 0), |buf|)
                && NoBlocks(pf, old(D()), |buf|, old(pf.fd), old(pf.updateCnt), old(pf.datablkAddr),
                            old(pf.allocedblkNum))
    {
      hide View, FreeInode, FreeBlks, Needed, Recorded, RanOut, Step, NewFile;
      pf.fileSize := |buf|;
      ret := UpdateFp(pf);
      if ret != NoErr { return; }
      ret := WriteBlocks(pf, buf, junk);
    }

    /**
     slfs_write on a handle without data. Where the source would start to collect garbage, for want of
     a free inode or of free blocks, this returns the error that makes it do so.
     */
    method Write(pf: SlfsFile, buf: seq<byte>, junk: Inode) returns (ret: Error)
      requires Valid() && pf.fileSize == 0 && pf.pos == 0 && |pf.name| == FNAME_LEN && pf.fd < U32
               && |buf| < MINUS_ONE
      requires Storable(junk)
      modifies `pageLoadData, disk.mem, disk`log
      modifies pf`fileSize, pf`inodeIdx, pf`updateCnt, pf`fd, pf`datablkAddr, pf`allocedblkNum
      ensures pf.openCnt == 0 ==> ret == FileParamErr && D() == old(D()) && unchanged(pf) && unchanged(this)
      ensures pf.openCnt > 0 && buf == [] ==> ret == NoErr && D() == old(D()) && unchanged(pf) && unchanged(this)
      ensures pf.openCnt > 0 && buf != [] ==>
                && ret == (if FreeInode(old(D()).inodes, 0) == INODE_MAX_CNT then NoInodeErr
                           else if Needed(|buf|) > |FreeBlks(old(D()).blocks, DATABLK_MAX_CNT)| then NoDatablkErr
                           else NoErr)
                && (ret == NoErr ==> Step(old(D()), buf, D()) && Names(pf, NewFile(old(D()), buf)) && Recorded(pf))
      ensures pf.openCnt > 0 && buf != [] && ret == NoErr ==> Updated(pf, old(pf.fd), old(pf.updateCnt), Needed(|buf|))
      ensures ret == NoInodeErr ==>
                && D() == old(D())
                && NoInode(pf, |buf|, old(pf.fd), old(pf.updateCnt), old(pf.inodeIdx), old(pf.datablkAddr),
                           old(pf.allocedblkNum))
      ensures ret == NoDatablkErr ==>
                && RanOut(old(D()), D(), FreeInode(old(D()).inodes, 0), |buf|)
                && NoBlocks(pf, old(D()), |buf|, old(pf.fd), old(pf.updateCnt), old(pf.datablkAddr),
                            old(pf.allocedblkNum))
    {
      hide View, FreeInode, FreeBlks, Needed, Stored, Recorded, Updated, RanOut, NoInode, NoBlocks;
      if pf.openCnt == 0 { return FileParamErr; }
      if |buf| == 0 { return NoErr; }
      ret := WriteNew(pf, buf, junk);
    }

    /** get_datablk_addr: the walk along the chain. */
    method GetDatablkAddr(pf: SlfsFile, idx: nat, ghost f: File) returns (ret: Error, addr: nat)
      requires Valid() && FileOk(D(), f) && Names(pf, f) && idx < |f.chain|
      ensures ret == NoErr && addr == BlkAddr(f.chain[idx])
    {
      hide View, FileOk, ChainOk;
      addr := pf.datablkAddr;
      var left := idx;
      while left != 0 && addr != MINUS_ONE
        invariant 0 <= left <= idx && addr == BlkAddr(f.chain[idx - left])
        decreases left
      {
        ChainAt(D(), f, idx - left);
        addr := ReadNext(addr, f.chain[idx - left]);
        left := left - 1;
      }
      ret := NoErr;
    }

    /** `len` bytes of a block's payload. */
    method ReadPayload(addr: nat, off: nat, len: nat, ghost i: nat) returns (part: seq<byte>)
      requires Valid() && i < DATABLK_MAX_CNT && addr == BlkAddr(i) && off + len <= PAYLOAD_SIZE
      ensures |D().blocks[i].payload| == PAYLOAD_SIZE && part == D().blocks[i].payload[off..off + len]
    {
      hide View;
      PayloadLen(disk.mem[..], i);
      var err;
      err, part := disk.Read(addr + off, len);
      assert part == disk.mem[..][addr..addr + PAYLOAD_SIZE][off..off + len];
    }

    /** A stretch of the file in one block. */
    method ReadChunk(addr: nat, off: nat, len: nat, ghost f: File, ghost j: nat) returns (part: seq<byte>)
      requires Valid() && FileOk(D(), f) && j < |f.chain| && addr == BlkAddr(f.chain[j])
      requires off + len <= PAYLOAD_SIZE && PAYLOAD_SIZE * j + off + len <= f.size
      ensures |Data(D(), f)| == f.size && part == Data(D(), f)[PAYLOAD_SIZE * j + off..PAYLOAD_SIZE * j + off + len]
    {
      hide View, Needed, Data, ChainOk, FileOk, ByteAt;
      SizeOk(D(), f);
      ChainAt(D(), f, j);
      Chunk(D(), f, j, off, len);
      part := ReadPayload(addr, off, len, f.chain[j]);
    }

    /** The loop of slfs_read: what follows block `j`. */
    method ReadRest(start: nat, bytes: nat, ghost f: File, ghost i: nat, ghost pos: nat) returns (buf: seq<byte>)
      requires Valid() && FileOk(D(), f) && i < |f.chain| && start == BlkAddr(f.chain[i])
      requires pos + bytes <= f.size && (bytes > 0 ==> pos == PAYLOAD_SIZE * (i + 1))
      ensures buf == Data(D(), f)[pos..pos + bytes]
    {
      hide View, Needed, Data, ChainOk, FileOk, ByteAt;
      SizeOk(D(), f);
      ghost var data, j := Data(D(), f), i;
      var addr, left, len := start, bytes, 0;
      buf := [];
      while left > 0
        invariant 0 <= left && |buf| + left == bytes && buf == data[pos..pos + |buf|]
        invariant 0 <= j < |f.chain| && addr == BlkAddr(f.chain[j])
        invariant left > 0 ==> pos + |buf| == PAYLOAD_SIZE * (j + 1)
        decreases left
      {
        ChainAt(D(), f, j);
        addr := ReadNext(addr, f.chain[j]);
        j := j + 1;
        len := left;
        if len >= PAYLOAD_SIZE {
          len := PAYLOAD_SIZE;
        }
        var part := ReadChunk(addr, 0, len, f, j);
        Extended(data, pos, buf, part);
        buf := buf + part;
        left := left - len;
      }
    }

    /** The start of slfs_read: the block of a position. At a block boundary it is the end of the block before. */
    method FindBlk(pos: nat) returns (idx: nat, offset: nat)
      ensures pos == PAYLOAD_SIZE * idx + offset && offset <= PAYLOAD_SIZE && (offset == 0 <==> pos == 0)
    {
      idx, offset := 0, pos;
      while offset > PAYLOAD_SIZE
        invariant pos == PAYLOAD_SIZE * idx + offset && offset >= 0 && (offset == 0 <==> pos == 0)
      {
        idx := idx + 1;
        offset := offset - PAYLOAD_SIZE;
        if offset < PAYLOAD_SIZE { break; }
      }
    }

    /** slfs_read, once the length is cut to what the file has. */
    method ReadFrom(pf: SlfsFile, bytes: nat, ghost f: File) returns (buf: seq<byte>)
      requires Valid() && FileOk(D(), f) && Names(pf, f) && pf.pos + bytes <= f.size
      ensures |Data(D(), f)| == f.size && buf == Data(D(), f)[pf.pos..pf.pos + bytes]
    {
      hide View, Needed, Data, ChainOk, FileOk, ByteAt;
      SizeOk(D(), f);
      var idx, offset := FindBlk(pf.pos);
      var ret, addr := GetDatablkAddr(pf, idx, f);
      var len := PAYLOAD_SIZE - offset;
      if len > bytes {
        len := bytes;
      }
      buf := ReadChunk(addr, offset, len, f, idx);
      var rest := ReadRest(addr, bytes - len, f, idx, pf.pos + len);
      Extended(Data(D(), f), pf.pos, buf, rest);
      buf := buf + rest;
    }

    /** slfs_read: the file's bytes from the position on, as many as there are. */
    method Read(pf: SlfsFile, bytes: nat, ghost f: File) returns (ret: Error, buf: seq<byte>)
      requires Valid() && pf.pos <= pf.fileSize && pf.pos + bytes < U32
      requires pf.fileSize == 0 || pf.datablkAddr == MINUS_ONE || (FileOk(D(), f) && Names(pf, f))
      ensures pf.fileSize == 0 || pf.datablkAddr == MINUS_ONE ==> ret == FileSizeErr && buf == []
      ensures pf.fileSize != 0 && pf.datablkAddr != MINUS_ONE ==>
                ret == NoErr && buf == Data(D(), f)[pf.pos..if pf.pos + bytes <= f.size then pf.pos + bytes else f.size]
    {
      hide View, Data, FileOk;
      buf := [];
      if pf.fileSize == 0 || pf.datablkAddr == MINUS_ONE { return FileSizeErr, buf; }
      var left := bytes;
      if pf.fileSize < pf.pos + left {
        left := pf.fileSize - pf.pos;
      }
      SizeOk(D(), f);
      buf := ReadFrom(pf, left, f);
      ret := NoErr;
    }

    /** A first write through a fresh handle, when there is room. */
    method WriteFresh(pf: SlfsFile, data: seq<byte>, junk: Inode) returns (ret: Error)
      requires Valid() && pf.Fresh() && Storable(junk) && 0 < |data| < MINUS_ONE && HasRoom(D(), |data|)
      modifies this, disk.mem, disk`log, pf
      ensures ret == NoErr && pf.openCnt > 0 && pf.pos == 0
      ensures Step(old(D()), data, D()) && Names(pf, NewFile(old(D()), data))
    {
      hide View, FreeInode, FreeBlks, Needed, Updated, Recorded, NoInode, NoBlocks, RanOut, Stored;
      ret := Write(pf, data, junk);
    }

    /** A first write, a seek and a read on one handle return the written bytes from there. */
    method RoundTrip(pf: SlfsFile, data: seq<byte>, pos: nat, bytes: nat, junk: Inode)
      returns (ret: Error, buf: seq<byte>)
      requires Valid() && pf.Fresh() && Storable(junk) && 0 < |data| < MINUS_ONE && pos <= |data| && pos + bytes < U32
      requires HasRoom(D(), |data|)
      modifies this, disk.mem, disk`log, pf
      ensures ret == NoErr && buf == data[pos..if pos + bytes <= |data| then pos + bytes else |data|]
      ensures Step(old(D()), data, D()) && Names(pf, NewFile(old(D()), data)) && pf.pos == pos
    {
      hide View, FreeInode, FreeBlks, Needed, FileOk, Data, Stored, Step;
      ghost var d := D();
      ret := WriteFresh(pf, data, junk);
      ghost var f := NewFile(d, data);
      NewFileOk(d, data, D());
      ret := pf.Seek(pos, SeekSet);
      ret, buf := Read(pf, bytes, f);
    }
  }
}
