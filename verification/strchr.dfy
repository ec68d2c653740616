/**
 strchr of lib.c: the search that looks at a 32-bit word at a time.
 */
module StrChr {

  /** The word at an aligned address. */
  function Load(b0: bv8, b1: bv8, b2: bv8, b3: bv8): bv32 {
    (b0 as bv32) | ((b1 as bv32) << 8) | ((b2 as bv32) << 16) | ((b3 as bv32) << 24)
  }

  const MAGIC_BITS: bv32 := 0x7EFE_FEFF

  /** Some hole bit does not change when the magic bits are added. */
  predicate Fires(w: bv32) {
    ((w + MAGIC_BITS) ^ !w) & !MAGIC_BITS != 0
  }

  predicate Zero0(w: bv32) { w & 0xFF == 0 }

  predicate Zero1(w: bv32) { w & 0xFF00 == 0 }

  predicate Zero2(w: bv32) { w & 0xFF_0000 == 0 }

  predicate Zero3(w: bv32) { w & 0xFF00_0000 == 0 }

  predicate Misfire(w: bv32) { w & 0xFF00_0000 == 0x8000_0000 }

  /** The filter fires exactly on the words with a zero byte and on those whose top byte is 0x80. */
  lemma FilterWord(w: bv32)
    ensures Fires(w) <==> Zero0(w) || Zero1(w) || Zero2(w) || Zero3(w) || Misfire(w)
  {
  }

  /** The bytes of a word. */
  lemma Bytes(b0: bv8, b1: bv8, b2: bv8, b3: bv8)
    ensures Load(b0, b1, b2, b3) & 0xFF == b0 as bv32
    ensures Load(b0, b1, b2, b3) & 0xFF00 == (b1 as bv32) << 8
    ensures Load(b0, b1, b2, b3) & 0xFF_0000 == (b2 as bv32) << 16
    ensures Load(b0, b1, b2, b3) & 0xFF00_0000 == (b3 as bv32) << 24
  {
  }

  lemma SameByte(w: bv32, m: bv32, k: bv32)
    ensures (w ^ m) & k == 0 <==> w & k == m & k
  {
  }

  lemma Byte0(b0: bv8, b1: bv8, b2: bv8, b3: bv8, c: bv8)
    ensures Zero0(Load(b0, b1, b2, b3) ^ Load(c, c, c, c)) <==> b0 == c
  {
    hide Load;
    Bytes(b0, b1, b2, b3);
    Bytes(c, c, c, c);
    SameByte(Load(b0, b1, b2, b3), Load(c, c, c, c), 0xFF);
  }

  lemma Byte1(b0: bv8, b1: bv8, b2: bv8, b3: bv8, c: bv8)
    ensures Zero1(Load(b0, b1, b2, b3) ^ Load(c, c, c, c)) <==> b1 == c
  {
    hide Load;
    Bytes(b0, b1, b2, b3);
    Bytes(c, c, c, c);
    SameByte(Load(b0, b1, b2, b3), Load(c, c, c, c), 0xFF00);
  }

  lemma Byte2(b0: bv8, b1: bv8, b2: bv8, b3: bv8, c: bv8)
    ensures Zero2(Load(b0, b1, b2, b3) ^ Load(c, c, c, c)) <==> b2 == c
  {
    hide Load;
    Bytes(b0, b1, b2, b3);
    Bytes(c, c, c, c);
    SameByte(Load(b0, b1, b2, b3), Load(c, c, c, c), 0xFF_0000);
  }

  lemma Byte3(b0: bv8, b1: bv8, b2: bv8, b3: bv8, c: bv8)
    ensures Zero3(Load(b0, b1, b2, b3) ^ Load(c, c, c, c)) <==> b3 == c
  {
    hide Load;
    Bytes(b0, b1, b2, b3);
    Bytes(c, c, c, c);
    SameByte(Load(b0, b1, b2, b3), Load(c, c, c, c), 0xFF00_0000);
  }

  lemma TopByte(w: bv32, m: bv32, b: bv8, c: bv8)
    requires w & 0xFF00_0000 == (b as bv32) << 24 && m & 0xFF00_0000 == (c as bv32) << 24
    ensures Misfire(w ^ m) <==> b ^ c == 0x80
  {
  }

  lemma Top(b0: bv8, b1: bv8, b2: bv8, b3: bv8, c: bv8)
    ensures Misfire(Load(b0, b1, b2, b3) ^ Load(c, c, c, c)) <==> b3 ^ c == 0x80
  {
    hide Load, Misfire;
    Bytes(b0, b1, b2, b3);
    Bytes(c, c, c, c);
    TopByte(Load(b0, b1, b2, b3), Load(c, c, c, c), b3, c);
  }

  /**
   Against a word of bytes `c` it fires exactly on the words with a byte `c` and on those whose top
   byte is `c` but for its top bit.
   */
  lemma FilterExact(b0: bv8, b1: bv8, b2: bv8, b3: bv8, c: bv8)
    ensures Fires(Load(b0, b1, b2, b3) ^ Load(c, c, c, c)) <==>
              b0 == c || b1 == c || b2 == c || b3 == c || b3 ^ c == 0x80
  {
    hide Fires, Load, Zero0, Zero1, Zero2, Zero3, Misfire;
    FilterWord(Load(b0, b1, b2, b3) ^ Load(c, c, c, c));
    Byte0(b0, b1, b2, b3, c);
    Byte1(b0, b1, b2, b3, c);
    Byte2(b0, b1, b2, b3, c);
    Byte3(b0, b1, b2, b3, c);
    Top(b0, b1, b2, b3, c);
  }

  /** With `c` zero: the first test of the loop. */
  lemma ZeroFilterExact(b0: bv8, b1: bv8, b2: bv8, b3: bv8)
    ensures Fires(Load(b0, b1, b2, b3)) <==> b0 == 0 || b1 == 0 || b2 == 0 || b3 == 0 || b3 == 0x80
  {
  }

  /** The search of section 7.24.5.2 of ISO/IEC 9899:2011, byte by byte; -1 is the null pointer. */
  function ByteSearch(mem: seq<bv8>, p: nat, c: bv8): int
    decreases |mem| - p
  {
    if p >= |mem| then -1
    else if mem[p] == c then p
    else if mem[p] == 0 then -1
    else ByteSearch(mem, p + 1, c)
  }

  /** It is the first occurrence in the string, whose terminating null counts, or there is none. */
  lemma {:induction false} FirstOccurrence(mem: seq<bv8>, p: nat, c: bv8, z: nat)
    requires p <= z < |mem| && mem[z] == 0 && forall k :: p <= k < z ==> mem[k] != 0
    ensures var r := ByteSearch(mem, p, c);
            if r == -1 then forall k :: p <= k <= z ==> mem[k] != c
            else p <= r <= z && mem[r] == c && forall k :: p <= k < r ==> mem[k] != c
    decreases z - p
  {
    if mem[p] != c && p < z {
      FirstOccurrence(mem, p + 1, c, z);
    }
  }

  lemma ByteStep(mem: seq<bv8>, p: nat, c: bv8)
    requires p < |mem|
    ensures ByteSearch(mem, p, c) == if mem[p] == c then p else if mem[p] == 0 then -1 else ByteSearch(mem, p + 1, c)
  {
  }

  lemma WordSearch(mem: seq<bv8>, p: nat, c: bv8)
    requires p + 4 <= |mem|
    ensures ByteSearch(mem, p, c)
            == if mem[p] == c then p else if mem[p] == 0 then -1
               else if mem[p + 1] == c then p + 1 else if mem[p + 1] == 0 then -1
               else if mem[p + 2] == c then p + 2 else if mem[p + 2] == 0 then -1
               else if mem[p + 3] == c then p + 3 else if mem[p + 3] == 0 then -1
               else ByteSearch(mem, p + 4, c)
  {
    assert ByteSearch(mem, p + 2, c)
           == if mem[p + 2] == c then p + 2 else if mem[p + 2] == 0 then -1 else ByteSearch(mem, p + 3, c);
  }

  /** magic_bits as the code computes it. */
  method Magic() returns (m: bv32)
    ensures m == MAGIC_BITS
  {
    m := 0xFFFF_FFFF;
    m := (((m / 0xFF * 0xFE) << 1) >> 1) | 1;
  }

  /** charmask: each byte is `c`. */
  method CharMask(c: bv8) returns (m: bv32)
    ensures m == Load(c, c, c, c)
  {
    m := (c as bv32) | ((c as bv32) << 8);
    m := m | (m << 16);
  }

  /** Addresses are indices, and memory ends with a whole word; the string at `s` ends in a null byte at `z`. */
  method Strchr(mem: seq<bv8>, s: nat, c: bv8, ghost z: nat) returns (r: int)
    requires |mem| % 4 == 0 && s <= z < |mem| && mem[z] == 0
    ensures r == ByteSearch(mem, s, c)
  {
    hide Fires, Load, ByteSearch;
    var p := s;
    while p % 4 != 0
      invariant s <= p <= z && ByteSearch(mem, s, c) == ByteSearch(mem, p, c)
      decreases z - p
    {
      ByteStep(mem, p, c);
      if mem[p] == c { return p; }
      if mem[p] == 0 { return -1; }
      p := p + 1;
    }
    var magic := Magic();
    var mask := CharMask(c);
    while true
      invariant p % 4 == 0 && p <= z && ByteSearch(mem, s, c) == ByteSearch(mem, p, c)
      decreases z - p
    {
      var w := Load(mem[p], mem[p + 1], mem[p + 2], mem[p + 3]);
      WordSearch(mem, p, c);
      ZeroFilterExact(mem[p], mem[p + 1], mem[p + 2], mem[p + 3]);
      FilterExact(mem[p], mem[p + 1], mem[p + 2], mem[p + 3], c);
      if Fires(w) || Fires(w ^ mask) {
        if mem[p] == c { return p; }
        if mem[p] == 0 { return -1; }
        if mem[p + 1] == c { return p + 1; }
        if mem[p + 1] == 0 { return -1; }
        if mem[p + 2] == c { return p + 2; }
        if mem[p + 2] == 0 { return -1; }
        if mem[p + 3] == c { return p + 3; }
        if mem[p + 3] == 0 { return -1; }
      }
      p := p + 4;
    }
  }
}
