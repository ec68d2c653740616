/**
 The ramdisk that stands in for a flash device: byte-wise read, write and page erase (ramdisk_io.c).
 */
module RamdiskIo {

  const RAMDISK_SIZE := 0x400000
  const PAGE_SIZE := 4096
  const PAGE_NUM := RAMDISK_SIZE / PAGE_SIZE
  const U32 := 0x1_0000_0000

  type byte = x: int | 0 <= x < 256

  type Image = m: seq<byte> | |m| == RAMDISK_SIZE witness seq(RAMDISK_SIZE, i => 0)

  /** `m` with `b` written at `a`. */
  function Splice(m: seq<byte>, a: nat, b: seq<byte>): (r: seq<byte>)
    requires a + |b| <= |m|
    ensures |r| == |m| && r[a..a + |b|] == b
    ensures forall k :: 0 <= k < |r| ==> r[k] == if a <= k < a + |b| then b[k - a] else m[k]
  {
    m[..a] + b + m[a + |b|..]
  }

  function Ones(n: nat): (r: seq<byte>)
    ensures |r| == n && forall k :: 0 <= k < n ==> r[k] == 0xFF
  {
    seq(n, i => 0xFF)
  }

  function Erased(m: Image, page: nat): Image
    requires page < PAGE_NUM
  {
    Splice(m, page * PAGE_SIZE, Ones(PAGE_SIZE))
  }

  function Word(b: seq<byte>): (w: nat)
    requires |b| == 4
    ensures w < U32
  {
    var b1: int, b2: int, b3: int := b[1], b[2], b[3];
    b[0] + 256 * (b1 + 256 * (b2 + 256 * b3))
  }

  /** A little-endian word. */
  function Le(w: nat): (b: seq<byte>)
    requires w < U32
    ensures |b| == 4 && Word(b) == w
  {
    var x := w / 256;
    var y := x / 256;
    [w % 256, x % 256, y % 256, y / 256]
  }

  /** One flash operation. */
  datatype Op = Erase(page: nat) | Program(addr: nat, bytes: seq<byte>)

  class Ramdisk {
    const mem: array<byte>
    /** The operations so far, in order: what a power cut may stop. */
    ghost var log: seq<Op>

    ghost predicate Valid() {
      mem.Length == RAMDISK_SIZE
    }

    constructor ()
      ensures Valid() && fresh(mem) && log == []
    {
      mem, log := new byte[RAMDISK_SIZE], [];
    }

    /** read_ramdisk; the sum of address and length is a 32-bit word. */
    method Read(addr: nat, len: nat) returns (err: bool, buf: seq<byte>)
      requires Valid() && addr + len < U32
      ensures err <==> addr + len > RAMDISK_SIZE
      ensures !err ==> buf == mem[..][addr..addr + len]
    {
      buf := [];
      if addr + len > RAMDISK_SIZE { return true, buf; }
      var i := 0;
      while i < len
        invariant 0 <= i <= len && buf == mem[addr..addr + i]
      {
        buf := buf + [mem[addr + i]];
        i := i + 1;
      }
      err := false;
      assert mem[..][addr..addr + len] == mem[addr..addr + len];
    }

    /** write_ramdisk; the sum of address and length is a 32-bit word. */
    method Write(addr: nat, buf: seq<byte>) returns (err: bool)
      requires Valid() && addr + |buf| < U32
      modifies mem, `log
      ensures err <==> addr + |buf| > RAMDISK_SIZE
      ensures err ==> mem[..] == old(mem[..]) && log == old(log)
      ensures !err ==> mem[..] == Splice(old(mem[..]), addr, buf) && log == old(log) + [Program(addr, buf)]
    {
      if addr + |buf| > RAMDISK_SIZE { return true; }
      var i := 0;
      while i < |buf|
        invariant 0 <= i <= |buf| && log == old(log)
        invariant forall k :: 0 <= k < RAMDISK_SIZE ==>
                    mem[k] == if addr <= k < addr + i then buf[k - addr] else old(mem[k])
      {
        mem[addr + i] := buf[i];
        i := i + 1;
      }
      err, log := false, log + [Program(addr, buf)];
      assert mem[..] == Splice(old(mem[..]), addr, buf);
    }

    /** erase_ramdisk_page */
    method ErasePage(page: nat)
      requires Valid() && page < PAGE_NUM
      modifies mem, `log
      ensures mem[..] == Erased(old(mem[..]), page) && log == old(log) + [Erase(page)]
    {
      var i := 0;
      while i < PAGE_SIZE
        invariant 0 <= i <= PAGE_SIZE && log == old(log)
        invariant forall k :: 0 <= k < RAMDISK_SIZE ==>
                    mem[k] == if page * PAGE_SIZE <= k < page * PAGE_SIZE + i then 0xFF else old(mem[k])
      {
        mem[page * PAGE_SIZE + i] := 0xFF;
        i := i + 1;
      }
      log := log + [Erase(page)];
    }
  }

  lemma SpliceApart(m: seq<byte>, a: nat, b: seq<byte>, lo: nat, hi: nat)
    requires a + |b| <= |m| && lo <= hi <= |m| && (hi <= a || a + |b| <= lo)
    ensures Splice(m, a, b)[lo..hi] == m[lo..hi]
  {
  }

  lemma SpliceInside(m: seq<byte>, a: nat, b: seq<byte>, lo: nat, hi: nat)
    requires a + |b| <= |m| && a <= lo <= hi <= a + |b|
    ensures Splice(m, a, b)[lo..hi] == b[lo - a..hi - a]
  {
  }
}
