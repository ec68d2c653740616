/**
 The frame allocator: a bitmap with one bit a frame, searched first-fit (frame_pool.c).
 */
module FramePools {

  const BITMAP_SIZE := 4096

  /** 0x1 << j in a byte */
  function Bit(j: nat): bv8
    requires j < 8
  {
    1 << j
  }

  predicate IsSet(b: bv8, j: nat)
    requires j < 8
  {
    b & Bit(j) != 0
  }

  lemma BitValues()
    ensures Bit(0) == 1 && Bit(1) == 2 && Bit(2) == 4 && Bit(3) == 8
    ensures Bit(4) == 16 && Bit(5) == 32 && Bit(6) == 64 && Bit(7) == 128
  {
  }

  lemma SetBit(b: bv8, j: nat, k: nat)
    requires j < 8 && k < 8
    ensures IsSet(b | Bit(j), k) <==> j == k || IsSet(b, k)
  {
    BitValues();
  }

  lemma ClearBit(b: bv8, j: nat, k: nat)
    requires j < 8 && k < 8
    ensures IsSet(b & !Bit(j), k) <==> j != k && IsSet(b, k)
  {
    BitValues();
  }

  lemma FullByte(b: bv8)
    ensures b == 0xFF <==> forall j: nat :: j < 8 ==> IsSet(b, j)
    ensures b == 0 <==> forall j: nat :: j < 8 ==> !IsSet(b, j)
  {
    BitValues();
    assert IsSet(b, 0) || !IsSet(b, 0);
    if forall j: nat :: j < 8 ==> IsSet(b, j) {
      assert IsSet(b, 0) && IsSet(b, 1) && IsSet(b, 2) && IsSet(b, 3) && IsSet(b, 4) && IsSet(b, 5) && IsSet(b, 6)
             && IsSet(b, 7);
    }
    if forall j: nat :: j < 8 ==> !IsSet(b, j) {
      assert !IsSet(b, 0) && !IsSet(b, 1) && !IsSet(b, 2) && !IsSet(b, 3) && !IsSet(b, 4) && !IsSet(b, 5)
             && !IsSet(b, 6) && !IsSet(b, 7);
    }
  }

  /** The place of bit `k` in the bitmap. */
  lemma Spot(k: nat, i: nat, j: nat)
    requires j < 8
    ensures k == 8 * i + j <==> k / 8 == i && k % 8 == j
  {
  }

  /** The frame whose bit release_frame clears. */
  function ClearedFrame(base: nat, frame: nat): nat
    requires base <= frame
  {
    base + (frame - base) / 8 * 8 + frame % 8
  }

  /** release_frame frees the frame it is given exactly when the pool's base is a multiple of 8. */
  lemma ClearedIsReleased(base: nat, frame: nat)
    requires base <= frame
    ensures ClearedFrame(base, frame) == frame <==> base % 8 == 0
  {
    assert frame == base + (frame - base) / 8 * 8 + (frame - base) % 8;
  }

  class FramePool {
    const base: nat
    const nFrames: nat
    /** The frames that release_frame refuses; init_framepool leaves the two fields as it finds them. */
    const inaccBase: nat
    const inaccNum: nat
    const bitmap: array<bv8>

    ghost predicate Valid() {
      bitmap.Length == BITMAP_SIZE && nFrames <= 8 * BITMAP_SIZE
    }

    ghost predicate Taken(k: nat)
      requires Valid() && k < nFrames
      reads bitmap
    {
      IsSet(bitmap[k / 8], k % 8)
    }

    ghost predicate Allocated(f: int)
      requires Valid()
      reads bitmap
    {
      base <= f < base + nFrames && Taken(f - base)
    }

    /** The allocated frames. */
    ghost function Frames(): (s: set<nat>)
      requires Valid()
      reads bitmap
      ensures forall f :: f in s <==> Allocated(f)
    {
      set f: nat | base <= f < base + nFrames && Allocated(f)
    }

    /** init_framepool: with no frame given for the bitmap, it is the kernel's pool and its first frames are taken. */
    constructor (base: nat, frameNum: nat, bitmapFrame: nat, prealloc: nat, inaccBase: nat, inaccNum: nat)
      requires frameNum <= 8 * BITMAP_SIZE && prealloc < 8 * BITMAP_SIZE
      ensures Valid() && fresh(bitmap)
      ensures this.base == base && nFrames == frameNum && this.inaccBase == inaccBase && this.inaccNum == inaccNum
      ensures forall f :: Allocated(f) <==> base <= f < base + frameNum && bitmapFrame == 0 && f < base + prealloc
    {
      this.base, nFrames, this.inaccBase, this.inaccNum := base, frameNum, inaccBase, inaccNum;
      bitmap := new bv8[BITMAP_SIZE];
      new;
      FullByte(0);
      FullByte(0xFF);
      var i := 0;
      while i < BITMAP_SIZE
        invariant 0 <= i <= BITMAP_SIZE
        invariant forall e :: 0 <= e < i ==> bitmap[e] == 0
      {
        bitmap[i] := 0;
        i := i + 1;
      }
      if bitmapFrame == 0 {
        i := 0;
        while i < prealloc / 8
          invariant 0 <= i <= prealloc / 8
          invariant forall e :: 0 <= e < BITMAP_SIZE ==> bitmap[e] == if e < i then 0xFF else 0
        {
          bitmap[i] := 0xFF;
          i := i + 1;
        }
        var mask: bv8, j := 0, 0;
        while j < prealloc % 8
          invariant 0 <= j <= prealloc % 8
          invariant forall k: nat :: k < 8 ==> (IsSet(mask, k) <==> k < j)
        {
          ghost var m := mask;
          mask := mask | Bit(j);
          forall k: nat | k < 8 ensures IsSet(mask, k) <==> k < j + 1 {
            SetBit(m, j, k);
          }
          j := j + 1;
        }
        bitmap[i] := bitmap[i] | mask;
        assert bitmap[i] == mask;
      }
    }

    lemma BitIs(i: nat, j: nat)
      requires Valid() && j < 8 && 8 * i + j < nFrames
      ensures base + 8 * i + j in Frames() <==> IsSet(bitmap[i], j)
    {
      hide IsSet;
      assert (8 * i + j) / 8 == i && (8 * i + j) % 8 == j;
    }

    lemma Scanned(i: nat, j: nat)
      requires Valid() && j <= 8 && 8 * i + j <= nFrames
      requires forall f :: base <= f < base + 8 * i ==> f in Frames()
      requires forall k: nat :: k < j ==> IsSet(bitmap[i], k)
      ensures forall f :: base <= f < base + 8 * i + j ==> f in Frames()
    {
      hide IsSet;
      forall f | base + 8 * i <= f < base + 8 * i + j ensures f in Frames() {
        var k: nat := f - base - 8 * i;
        assert (f - base) / 8 == i && (f - base) % 8 == k;
      }
    }

    /** The store that sets a bit. */
    method StoreSet(i: nat, j: nat)
      requires Valid() && j < 8 && i < BITMAP_SIZE
      modifies bitmap
      ensures forall e: nat, k: nat :: e < BITMAP_SIZE && k < 8 ==>
                (IsSet(bitmap[e], k) <==> (e == i && k == j) || old(IsSet(bitmap[e], k)))
    {
      hide Bit, IsSet;
      ghost var b := bitmap[i];
      bitmap[i] := bitmap[i] | Bit(j);
      forall k: nat | k < 8 ensures IsSet(bitmap[i], k) <==> k == j || IsSet(b, k) {
        SetBit(b, j, k);
      }
    }

    /** A frame is marked. */
    method Take(i: nat, j: nat)
      requires Valid() && j < 8 && 8 * i + j < nFrames
      modifies bitmap
      ensures Frames() == old(Frames()) + {base + 8 * i + j}
    {
      hide Bit, IsSet;
      StoreSet(i, j);
      forall f | base <= f < base + nFrames ensures Allocated(f) <==> f == base + 8 * i + j || old(Allocated(f)) {
        Spot(f - base, i, j);
      }
    }

    /** get_frame: the first free frame, or -1. */
    method GetFrame() returns (frame: int)
      requires Valid()
      modifies bitmap
      ensures frame == -1 <==> forall f :: base <= f < base + nFrames ==> f in old(Frames())
      ensures frame == -1 ==> bitmap[..] == old(bitmap[..])
      ensures frame != -1 ==>
                && base <= frame < base + nFrames && frame !in old(Frames()) && Frames() == old(Frames()) + {frame}
                && forall f :: base <= f < frame ==> f in old(Frames())
    {
      hide IsSet, Bit, Taken, Allocated;
      ghost var taken := Frames();
      var i := 0;
      while i < nFrames / 8
        invariant 0 <= i <= nFrames / 8
        invariant forall f :: base <= f < base + 8 * i ==> f in taken
        invariant bitmap[..] == old(bitmap[..]) && Frames() == taken
      {
        FullByte(bitmap[i]);
        if bitmap[i] == 0xFF {
          Scanned(i, 8);
          i := i + 1;
          continue;
        }
        var j := 0;
        while j < 8
          invariant 0 <= j <= 8
          invariant forall k: nat :: k < j ==> IsSet(bitmap[i], k)
          invariant bitmap[..] == old(bitmap[..]) && Frames() == taken
        {
          if !IsSet(bitmap[i], j) {
            frame := base + i * 8 + j;
            Scanned(i, j);
            BitIs(i, j);
            assert frame !in taken && base <= frame < base + nFrames;
            Take(i, j);
            return;
          }
          j := j + 1;
        }
        i := i + 1;
      }
      i := 0;
      while i < nFrames % 8
        invariant 0 <= i <= nFrames % 8
        invariant forall f :: base <= f < base + 8 * (nFrames / 8) + i ==> f in taken
        invariant bitmap[..] == old(bitmap[..]) && Frames() == taken
      {
        BitIs(nFrames / 8, i);
        if !IsSet(bitmap[nFrames / 8], i) {
          frame := base + (nFrames / 8) * 8 + i;
          assert frame !in taken && base <= frame < base + nFrames;
          Take(nFrames / 8, i);
          return;
        }
        i := i + 1;
      }
      frame := -1;
    }

    /** The store that clears a bit. */
    method StoreClear(i: nat, j: nat)
      requires Valid() && j < 8 && i < BITMAP_SIZE
      modifies bitmap
      ensures forall e: nat, k: nat :: e < BITMAP_SIZE && k < 8 ==>
                (IsSet(bitmap[e], k) <==> !(e == i && k == j) && old(IsSet(bitmap[e], k)))
    {
      hide Bit, IsSet;
      ghost var b := bitmap[i];
      bitmap[i] := bitmap[i] & !Bit(j);
      forall k: nat | k < 8 ensures IsSet(bitmap[i], k) <==> k != j && IsSet(b, k) {
        ClearBit(b, j, k);
      }
    }

    /** The frame whose bit is cleared, if there is one, is free. */
    method Clear(i: nat, j: nat)
      requires Valid() && j < 8 && i < BITMAP_SIZE
      modifies bitmap
      ensures Frames() == old(Frames()) - {base + 8 * i + j}
    {
      hide Bit, IsSet;
      StoreClear(i, j);
      forall f | base <= f < base + nFrames ensures Allocated(f) <==> f != base + 8 * i + j && old(Allocated(f)) {
        Spot(f - base, i, j);
      }
    }

    /** What release_frame does not refuse. */
    predicate Releasable(frame: nat) {
      base <= frame < base + nFrames && !(inaccBase <= frame < inaccBase + inaccNum)
    }

    /**
     release_frame. The bit is taken from the frame number itself and the byte from its distance to
     the base, so it is the frame's own bit when the base is a multiple of 8.
     */
    method ReleaseFrame(frame: nat) returns (ok: bool)
      requires Valid()
      modifies bitmap
      ensures ok <==> Releasable(frame)
      ensures !ok ==> bitmap[..] == old(bitmap[..])
      ensures ok ==> Frames() == old(Frames()) - {ClearedFrame(base, frame)}
      ensures ok && base % 8 == 0 ==> Frames() == old(Frames()) - {frame}
    {
      hide Bit, IsSet;
      if inaccBase <= frame < inaccBase + inaccNum { return false; }
      if frame >= base + nFrames || frame < base { return false; }
      var entry, remainder := (frame - base) / 8, frame % 8;
      Clear(entry, remainder);
      ClearedIsReleased(base, frame);
      ok := true;
    }
  }
}
