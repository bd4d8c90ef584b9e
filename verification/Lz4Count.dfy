/**
 LZ4_count: the length of a common prefix, eight bytes at a time. Words are little-endian `bv64`s;
 their XOR locates the first differing byte.
 */
module Lz4Count {
  import opened Bytes

  const STEPSIZE: nat := 8

  // ----- machine words -----

  /** The four bits of a hexadecimal digit. */
  function NibbleBits(n: nat): bv64
    requires n < 16
  {
    if n == 0 then 0
    else if n == 1 then 1
    else if n == 2 then 2
    else if n == 3 then 3
    else if n == 4 then 4
    else if n == 5 then 5
    else if n == 6 then 6
    else if n == 7 then 7
    else if n == 8 then 8
    else if n == 9 then 9
    else if n == 10 then 10
    else if n == 11 then 11
    else if n == 12 then 12
    else if n == 13 then 13
    else if n == 14 then 14
    else 15
  }

  lemma NibbleBitsInjective(m: nat, n: nat)
    requires m < 16 && n < 16
    ensures NibbleBits(m) & 0xF == NibbleBits(m)
    ensures NibbleBits(m) == NibbleBits(n) ==> m == n
  {
  }

  /** The eight bits of an octet. */
  function Bits(b: byte): bv64 {
    (NibbleBits(b / 16) << 4) | NibbleBits(b % 16)
  }

  lemma JoinedNibbles(h: bv64, l: bv64, h': bv64, l': bv64)
    requires h & 0xF == h && l & 0xF == l && h' & 0xF == h' && l' & 0xF == l'
    ensures ((h << 4) | l) & 0xFF == (h << 4) | l
    ensures (h << 4) | l == (h' << 4) | l' ==> h == h' && l == l'
  {
  }

  lemma BitsMasked(a: byte)
    ensures Octet(Bits(a)) == Bits(a)
  {
    hide NibbleBits;
    NibbleBitsInjective(a / 16, a / 16);
    NibbleBitsInjective(a % 16, a % 16);
    JoinedNibbles(NibbleBits(a / 16), NibbleBits(a % 16), 0, 0);
  }

  lemma BitsInjective(a: byte, b: byte)
    ensures Bits(a) == Bits(b) <==> a == b
  {
    hide NibbleBits;
    NibbleBitsInjective(a / 16, b / 16);
    NibbleBitsInjective(a % 16, b % 16);
    NibbleBitsInjective(b / 16, a / 16);
    NibbleBitsInjective(b % 16, a % 16);
    JoinedNibbles(NibbleBits(a / 16), NibbleBits(a % 16), NibbleBits(b / 16), NibbleBits(b % 16));
  }

  /** An octet below a word. */
  function Join(x: bv64, w: bv64): bv64 {
    x | (w << 8)
  }

  function Octet(v: bv64): bv64 {
    v & 0xFF
  }

  function Rest(v: bv64): bv64 {
    v >> 8
  }

  function Xor(v: bv64, w: bv64): bv64 {
    v ^ w
  }

  /** The little-endian word of `n` bytes. */
  function Word(s: seq<byte>, i: nat, n: nat): bv64
    requires i + n <= |s|
    decreases n
  {
    if n == 0 then 0 else Join(Bits(s[i]), Word(s, i + 1, n - 1))
  }

  /** LZ4_read_ARCH on a little-endian 64-bit machine. */
  function ReadArch(s: seq<byte>, i: nat): bv64
    requires i + 8 <= |s|
  {
    Word(s, i, 8)
  }

  // ----- octets of a word -----

  /** The mask of the low `n` octets. */
  function Low(n: nat): bv64
    requires n <= 8
  {
    if n == 0 then 0
    else if n == 1 then 0xFF
    else if n == 2 then 0xFFFF
    else if n == 3 then 0xFF_FFFF
    else if n == 4 then 0xFFFF_FFFF
    else if n == 5 then 0xFF_FFFF_FFFF
    else if n == 6 then 0xFFFF_FFFF_FFFF
    else if n == 7 then 0xFF_FFFF_FFFF_FFFF
    else 0xFFFF_FFFF_FFFF_FFFF
  }

  predicate Within(v: bv64, mask: bv64) {
    v & mask == v
  }

  lemma LowGrows(n: nat)
    requires 0 < n <= 8
    ensures Low(n) == Join(0xFF, Low(n - 1)) && Low(n - 1) == Rest(Low(n))
  {
  }

  lemma LowEnds(v: bv64)
    ensures Within(v, Low(8)) && (Within(v, Low(0)) <==> v == 0)
  {
  }

  /** Putting an octet below a word of at most seven, and taking it off again. */
  lemma JoinInverts(x: bv64, w: bv64, mask: bv64)
    requires Octet(x) == x && Within(w, mask) && mask == Rest(Join(0xFF, mask))
    ensures var v := Join(x, w);
            Within(v, Join(0xFF, mask)) && Octet(v) == x && Rest(v) == w
  {
  }

  lemma {:induction false} WordOctets(s: seq<byte>, i: nat, n: nat)
    requires i + n <= |s| && n <= 8
    ensures Within(Word(s, i, n), Low(n))
    ensures n > 0 ==> Octet(Word(s, i, n)) == Bits(s[i]) && Rest(Word(s, i, n)) == Word(s, i + 1, n - 1)
    decreases n
  {
    hide Bits, Low, Within, Octet, Rest, Join;
    if n == 0 {
      LowEnds(0);
    } else {
      BitsMasked(s[i]);
      WordOctets(s, i + 1, n - 1);
      LowGrows(n);
      JoinInverts(Bits(s[i]), Word(s, i + 1, n - 1), Low(n - 1));
    }
  }

  /** How many low octets of a word are zero, counted from `n` on; 8 for the zero word. */
  function ZeroOctets(v: bv64, n: nat): (r: nat)
    requires n <= 8
    ensures n <= r <= 8
    decreases 8 - n
  {
    if n == 8 || Octet(v) != 0 then n else ZeroOctets(Rest(v), n + 1)
  }

  lemma OctetOfXor(v: bv64, w: bv64)
    ensures Octet(Xor(v, w)) == 0 <==> Octet(v) == Octet(w)
    ensures Rest(Xor(v, w)) == Xor(Rest(v), Rest(w))
  {
  }

  /** XOR of the words at two places. */
  function WordDiff(s: seq<byte>, a: nat, b: nat): bv64
    requires a + 8 <= |s| && b + 8 <= |s|
  {
    Xor(ReadArch(s, a), ReadArch(s, b))
  }

  /** `n` bytes from `a` and from `b` agree. */
  ghost predicate Agree(s: seq<byte>, a: nat, b: nat, n: nat) {
    a + n <= |s| && b + n <= |s| && forall k :: a <= k < a + n ==> s[k] == s[k - a + b]
  }

  /** The first `k` of `n` bytes from `a` and from `b` agree, and no more. */
  ghost predicate FirstAgree(s: seq<byte>, a: nat, b: nat, n: nat, k: nat)
    requires a + n <= |s| && b + n <= |s|
  {
    k <= n && Agree(s, a, b, k) && (k < n ==> s[a + k] != s[b + k])
  }

  lemma FirstAgreeStep(s: seq<byte>, a: nat, b: nat, n: nat, k: nat)
    requires 0 < n && a + n <= |s| && b + n <= |s|
    ensures s[a] != s[b] ==> FirstAgree(s, a, b, n, 0)
    ensures s[a] == s[b] && FirstAgree(s, a + 1, b + 1, n - 1, k) ==> FirstAgree(s, a, b, n, k + 1)
  {
  }

  lemma ZeroOctetsStep(v: bv64, n: nat)
    requires n <= 8
    ensures ZeroOctets(v, n) == if n == 8 || Octet(v) != 0 then n else ZeroOctets(Rest(v), n + 1)
  {
  }

  /** The XOR of two words of `n` bytes has a low octet of 0 exactly when their first bytes are equal. */
  lemma XorStep(s: seq<byte>, a: nat, b: nat, n: nat)
    requires 0 < n <= 8 && a + n <= |s| && b + n <= |s|
    ensures ZeroOctets(Xor(Word(s, a, n), Word(s, b, n)), 8 - n)
         == if s[a] != s[b] then 8 - n else ZeroOctets(Xor(Word(s, a + 1, n - 1), Word(s, b + 1, n - 1)), 9 - n)
  {
    hide Bits, Word, Low, Octet, Rest, Within, ZeroOctets, Xor;
    var v, w := Word(s, a, n), Word(s, b, n);
    ZeroOctetsStep(Xor(v, w), 8 - n);
    WordOctets(s, a, n);
    WordOctets(s, b, n);
    OctetOfXor(v, w);
    BitsInjective(s[a], s[b]);
  }

  lemma NoneAgree(s: seq<byte>, a: nat, b: nat)
    requires a <= |s| && b <= |s|
    ensures ZeroOctets(Xor(Word(s, a, 0), Word(s, b, 0)), 8) == 8 && FirstAgree(s, a, b, 0, 0)
  {
    hide Xor, Word;
  }

  /** The zero octets of the XOR of two words of `n` bytes are their common bytes. */
  lemma {:induction false} CommonOctets(s: seq<byte>, a: nat, b: nat, n: nat)
    requires a + n <= |s| && b + n <= |s| && n <= 8
    ensures var k := ZeroOctets(Xor(Word(s, a, n), Word(s, b, n)), 8 - n) + n - 8;
            FirstAgree(s, a, b, n, k)
    decreases n
  {
    hide Bits, Word, Xor, ZeroOctets, FirstAgree;
    if n == 0 {
      NoneAgree(s, a, b);
    } else {
      XorStep(s, a, b, n);
      CommonOctets(s, a + 1, b + 1, n - 1);
      var k := ZeroOctets(Xor(Word(s, a + 1, n - 1), Word(s, b + 1, n - 1)), 9 - n) + n - 9;
      FirstAgreeStep(s, a, b, n, k);
    }
  }

  /** The zero octets of the XOR of two words are their common bytes. */
  lemma CommonBytes(s: seq<byte>, a: nat, b: nat)
    requires a + 8 <= |s| && b + 8 <= |s|
    ensures var k := ZeroOctets(WordDiff(s, a, b), 0);
            Agree(s, a, b, k) && (k < 8 ==> s[a + k] != s[b + k])
  {
    hide Word, ZeroOctets, Agree, Xor;
    CommonOctets(s, a, b, 8);
  }

  lemma OctetAbove(v: bv64, mask: bv64)
    requires Within(v, mask)
    ensures Within(Rest(v), Rest(mask)) && (v == 0 <==> Octet(v) == 0 && Rest(v) == 0)
  {
  }

  lemma {:induction false} ZeroWordFrom(v: bv64, n: nat)
    requires n <= 8 && Within(v, Low(8 - n))
    ensures v == 0 <==> ZeroOctets(v, n) == 8
    decreases 8 - n
  {
    hide Low, Within, Octet, Rest;
    if n == 8 {
      LowEnds(v);
    } else {
      LowGrows(8 - n);
      OctetAbove(v, Low(8 - n));
      ZeroWordFrom(Rest(v), n + 1);
    }
  }

  lemma ZeroWord(v: bv64)
    ensures v == 0 <==> ZeroOctets(v, 0) == 8
  {
    hide ZeroOctets, Low, Within;
    LowEnds(v);
    ZeroWordFrom(v, 0);
  }

  // ----- the first differing byte -----

  /** The table of LZ4_NbCommonBytes for builds without a bit-count instruction. */
  function DeBruijnBytePos(i: nat): nat
    requires i < 64
  {
    if i < 8 then [0, 0, 0, 0, 0, 1, 1, 2][i]
    else if i < 16 then [0, 3, 1, 3, 1, 4, 2, 7][i - 8]
    else if i < 24 then [0, 2, 3, 6, 1, 5, 3, 5][i - 16]
    else if i < 32 then [1, 3, 4, 4, 2, 5, 6, 7][i - 24]
    else if i < 40 then [7, 0, 1, 2, 3, 3, 4, 6][i - 32]
    else if i < 48 then [2, 6, 5, 5, 3, 4, 5, 6][i - 40]
    else if i < 56 then [7, 1, 2, 4, 6, 4, 4, 5][i - 48]
    else [7, 2, 6, 5, 7, 6, 7, 7][i - 56]
  }

  /** The numeric value of a word below 64. */
  function SixBits(v: bv64): (r: nat)
    ensures r < 64
  {
    BitValue(v, 32, 32) + BitValue(v, 16, 16) + BitValue(v, 8, 8)
    + BitValue(v, 4, 4) + BitValue(v, 2, 2) + BitValue(v, 1, 1)
  }

  function BitValue(v: bv64, mask: bv64, weight: nat): nat {
    if v & mask != 0 then weight else 0
  }

  /** The lowest set bit. */
  function LowBit(v: bv64): bv64 {
    v & (0 - v)
  }

  /** The top six bits of a product with the de Bruijn constant index the table. */
  function TablePos(m: bv64): nat {
    DeBruijnBytePos(SixBits((m * 0x0218A392CDABBD3F) >> 58))
  }

  /** LZ4_NbCommonBytes, little-endian 64-bit, through multiplication by a de Bruijn constant. */
  function NbCommonBytesTable(v: bv64): nat {
    TablePos(LowBit(v))
  }

  /** LZ4_NbCommonBytes through the compiler's count of trailing zero bits, shifted right by 3. */
  function NbCommonBytes(v: bv64): nat {
    TrailingZeros(v, 0) / 8
  }

  /** Trailing zero bits of a word, counted from `n` on; 64 when there is no set bit. */
  function TrailingZeros(v: bv64, n: nat): nat
    decreases 64 - n
  {
    if n >= 64 || v & 1 == 1 then n else TrailingZeros(v >> 1, n + 1)
  }

  /** The mask of octet `k`. */
  function OctetMask(k: nat): bv64
    requires k < 8
  {
    if k == 0 then 0xFF
    else if k == 1 then 0xFF00
    else if k == 2 then 0xFF_0000
    else if k == 3 then 0xFF00_0000
    else if k == 4 then 0xFF_0000_0000
    else if k == 5 then 0xFF00_0000_0000
    else if k == 6 then 0xFF_0000_0000_0000
    else 0xFF00_0000_0000_0000
  }

  /** One bit is set, in octet `k`. */
  predicate BitInOctet(m: bv64, k: nat)
    requires k < 8
  {
    OneBit(m) && Within(m, OctetMask(k))
  }

  predicate OneBit(m: bv64) {
    m != 0 && m & (m - 1) == 0
  }

  lemma LowBitShifts(v: bv64)
    ensures Octet(v) != 0 ==> BitInOctet(LowBit(v), 0)
    ensures Octet(v) == 0 ==> LowBit(v) == Join(0, LowBit(Rest(v)))
  {
  }

  lemma MaskUp(k: nat)
    requires k < 7
    ensures OctetMask(k + 1) == Join(0, OctetMask(k)) && Rest(Join(0, OctetMask(k))) == OctetMask(k)
  {
  }

  lemma BitUp(m: bv64, mask: bv64)
    requires OneBit(m) && Within(m, mask) && Rest(Join(0, mask)) == mask
    ensures OneBit(Join(0, m)) && Within(Join(0, m), Join(0, mask))
  {
  }

  /** The lowest set bit stands in the first octet that is not zero. */
  lemma {:induction false} LowBitInOctet(v: bv64, n: nat)
    requires n <= 8 && ZeroOctets(v, n) < 8
    ensures BitInOctet(LowBit(v), ZeroOctets(v, n) - n)
    decreases 8 - n
  {
    hide LowBit, OctetMask, OneBit, Within, Octet, Rest, Join;
    LowBitShifts(v);
    if Octet(v) == 0 {
      LowBitInOctet(Rest(v), n + 1);
      var k := ZeroOctets(v, n) - n - 1;
      MaskUp(k);
      BitUp(LowBit(Rest(v)), OctetMask(k));
    }
  }

  lemma TableInOctet0(m: bv64)
    requires BitInOctet(m, 0)
    ensures TablePos(m) == 0
  {
    if m == 0x1 { assert SixBits((m * 0x0218A392CDABBD3F) >> 58) == 0; }
    else if m == 0x2 { assert SixBits((m * 0x0218A392CDABBD3F) >> 58) == 1; }
    else if m == 0x4 { assert SixBits((m * 0x0218A392CDABBD3F) >> 58) == 2; }
    else if m == 0x8 { assert SixBits((m * 0x0218A392CDABBD3F) >> 58) == 4; }
    else if m == 0x10 { assert SixBits((m * 0x0218A392CDABBD3F) >> 58) == 8; }
    else if m == 0x20 { assert SixBits((m * 0x0218A392CDABBD3F) >> 58) == 16; }
    else if m == 0x40 { assert SixBits((m * 0x0218A392CDABBD3F) >> 58) == 33; }
    else if m == 0x80 { assert SixBits((m * 0x0218A392CDABBD3F) >> 58) == 3; }
  }

  lemma TableInOctet1(m: bv64)
    requires BitInOctet(m, 1)
    ensures TablePos(m) == 1
  {
    if m == 0x100 { assert SixBits((m * 0x0218A392CDABBD3F) >> 58) == 6; }
    else if m == 0x200 { assert SixBits((m * 0x0218A392CDABBD3F) >> 58) == 12; }
    else if m == 0x400 { assert SixBits((m * 0x0218A392CDABBD3F) >> 58) == 24; }
    else if m == 0x800 { assert SixBits((m * 0x0218A392CDABBD3F) >> 58) == 49; }
    else if m == 0x1000 { assert SixBits((m * 0x0218A392CDABBD3F) >> 58) == 34; }
    else if m == 0x2000 { assert SixBits((m * 0x0218A392CDABBD3F) >> 58) == 5; }
    else if m == 0x4000 { assert SixBits((m * 0x0218A392CDABBD3F) >> 58) == 10; }
    else if m == 0x8000 { assert SixBits((m * 0x0218A392CDABBD3F) >> 58) == 20; }
  }

  lemma TableInOctet2(m: bv64)
    requires BitInOctet(m, 2)
    ensures TablePos(m) == 2
  {
    if m == 0x10000 { assert SixBits((m * 0x0218A392CDABBD3F) >> 58) == 40; }
    else if m == 0x20000 { assert SixBits((m * 0x0218A392CDABBD3F) >> 58) == 17; }
    else if m == 0x40000 { assert SixBits((m * 0x0218A392CDABBD3F) >> 58) == 35; }
    else if m == 0x80000 { assert SixBits((m * 0x0218A392CDABBD3F) >> 58) == 7; }
    else if m == 0x100000 { assert SixBits((m * 0x0218A392CDABBD3F) >> 58) == 14; }
    else if m == 0x200000 { assert SixBits((m * 0x0218A392CDABBD3F) >> 58) == 28; }
    else if m == 0x400000 { assert SixBits((m * 0x0218A392CDABBD3F) >> 58) == 57; }
    else if m == 0x800000 { assert SixBits((m * 0x0218A392CDABBD3F) >> 58) == 50; }
  }

  lemma TableInOctet3(m: bv64)
    requires BitInOctet(m, 3)
    ensures TablePos(m) == 3
  {
    if m == 0x1000000 { assert SixBits((m * 0x0218A392CDABBD3F) >> 58) == 36; }
    else if m == 0x2000000 { assert SixBits((m * 0x0218A392CDABBD3F) >> 58) == 9; }
    else if m == 0x4000000 { assert SixBits((m * 0x0218A392CDABBD3F) >> 58) == 18; }
    else if m == 0x8000000 { assert SixBits((m * 0x0218A392CDABBD3F) >> 58) == 37; }
    else if m == 0x10000000 { assert SixBits((m * 0x0218A392CDABBD3F) >> 58) == 11; }
    else if m == 0x20000000 { assert SixBits((m * 0x0218A392CDABBD3F) >> 58) == 22; }
    else if m == 0x40000000 { assert SixBits((m * 0x0218A392CDABBD3F) >> 58) == 44; }
    else if m == 0x80000000 { assert SixBits((m * 0x0218A392CDABBD3F) >> 58) == 25; }
  }

  lemma TableInOctet4(m: bv64)
    requires BitInOctet(m, 4)
    ensures TablePos(m) == 4
  {
    if m == 0x100000000 { assert SixBits((m * 0x0218A392CDABBD3F) >> 58) == 51; }
    else if m == 0x200000000 { assert SixBits((m * 0x0218A392CDABBD3F) >> 58) == 38; }
    else if m == 0x400000000 { assert SixBits((m * 0x0218A392CDABBD3F) >> 58) == 13; }
    else if m == 0x800000000 { assert SixBits((m * 0x0218A392CDABBD3F) >> 58) == 27; }
    else if m == 0x1000000000 { assert SixBits((m * 0x0218A392CDABBD3F) >> 58) == 54; }
    else if m == 0x2000000000 { assert SixBits((m * 0x0218A392CDABBD3F) >> 58) == 45; }
    else if m == 0x4000000000 { assert SixBits((m * 0x0218A392CDABBD3F) >> 58) == 26; }
    else if m == 0x8000000000 { assert SixBits((m * 0x0218A392CDABBD3F) >> 58) == 53; }
  }

  lemma TableInOctet5(m: bv64)
    requires BitInOctet(m, 5)
    ensures TablePos(m) == 5
  {
    if m == 0x10000000000 { assert SixBits((m * 0x0218A392CDABBD3F) >> 58) == 42; }
    else if m == 0x20000000000 { assert SixBits((m * 0x0218A392CDABBD3F) >> 58) == 21; }
    else if m == 0x40000000000 { assert SixBits((m * 0x0218A392CDABBD3F) >> 58) == 43; }
    else if m == 0x80000000000 { assert SixBits((m * 0x0218A392CDABBD3F) >> 58) == 23; }
    else if m == 0x100000000000 { assert SixBits((m * 0x0218A392CDABBD3F) >> 58) == 46; }
    else if m == 0x200000000000 { assert SixBits((m * 0x0218A392CDABBD3F) >> 58) == 29; }
    else if m == 0x400000000000 { assert SixBits((m * 0x0218A392CDABBD3F) >> 58) == 59; }
    else if m == 0x800000000000 { assert SixBits((m * 0x0218A392CDABBD3F) >> 58) == 55; }
  }

  lemma TableInOctet6(m: bv64)
    requires BitInOctet(m, 6)
    ensures TablePos(m) == 6
  {
    if m == 0x1000000000000 { assert SixBits((m * 0x0218A392CDABBD3F) >> 58) == 47; }
    else if m == 0x2000000000000 { assert SixBits((m * 0x0218A392CDABBD3F) >> 58) == 30; }
    else if m == 0x4000000000000 { assert SixBits((m * 0x0218A392CDABBD3F) >> 58) == 61; }
    else if m == 0x8000000000000 { assert SixBits((m * 0x0218A392CDABBD3F) >> 58) == 58; }
    else if m == 0x10000000000000 { assert SixBits((m * 0x0218A392CDABBD3F) >> 58) == 52; }
    else if m == 0x20000000000000 { assert SixBits((m * 0x0218A392CDABBD3F) >> 58) == 41; }
    else if m == 0x40000000000000 { assert SixBits((m * 0x0218A392CDABBD3F) >> 58) == 19; }
    else if m == 0x80000000000000 { assert SixBits((m * 0x0218A392CDABBD3F) >> 58) == 39; }
  }

  lemma TableInOctet7(m: bv64)
    requires BitInOctet(m, 7)
    ensures TablePos(m) == 7
  {
    if m == 0x100000000000000 { assert SixBits((m * 0x0218A392CDABBD3F) >> 58) == 15; }
    else if m == 0x200000000000000 { assert SixBits((m * 0x0218A392CDABBD3F) >> 58) == 31; }
    else if m == 0x400000000000000 { assert SixBits((m * 0x0218A392CDABBD3F) >> 58) == 63; }
    else if m == 0x800000000000000 { assert SixBits((m * 0x0218A392CDABBD3F) >> 58) == 62; }
    else if m == 0x1000000000000000 { assert SixBits((m * 0x0218A392CDABBD3F) >> 58) == 60; }
    else if m == 0x2000000000000000 { assert SixBits((m * 0x0218A392CDABBD3F) >> 58) == 56; }
    else if m == 0x4000000000000000 { assert SixBits((m * 0x0218A392CDABBD3F) >> 58) == 48; }
    else if m == 0x8000000000000000 { assert SixBits((m * 0x0218A392CDABBD3F) >> 58) == 32; }
  }

  lemma ZeroOctetSkipped(v: bv64, n: nat)
    requires v & 0xFF == 0 && n + 8 <= 64
    ensures TrailingZeros(v, n) == TrailingZeros(v >> 8, n + 8)
  {
    assert TrailingZeros(v, n) == TrailingZeros(v >> 1 >> 1, n + 2);
    assert TrailingZeros(v >> 1 >> 1, n + 2) == TrailingZeros(v >> 1 >> 1 >> 1 >> 1, n + 4);
    assert v >> 1 >> 1 >> 1 >> 1 == v >> 4;
    assert TrailingZeros(v >> 4, n + 4) == TrailingZeros(v >> 4 >> 1 >> 1, n + 6);
    assert TrailingZeros(v >> 4 >> 1 >> 1, n + 6) == TrailingZeros(v >> 4 >> 1 >> 1 >> 1 >> 1, n + 8);
    assert v >> 4 >> 1 >> 1 >> 1 >> 1 == v >> 8;
  }

  predicate Odd(v: bv64) {
    v & 1 == 1
  }

  function Half(v: bv64): bv64 {
    v >> 1
  }

  lemma TrailingStep(v: bv64, n: nat)
    requires n < 64
    ensures TrailingZeros(v, n) == if Odd(v) then n else TrailingZeros(Half(v), n + 1)
  {
  }

  lemma OddBitInOctet(v: bv64)
    requires v & 0xFF != 0
    ensures || Odd(v) || Odd(Half(v)) || Odd(Half(Half(v))) || Odd(Half(Half(Half(v))))
            || Odd(Half(Half(Half(Half(v))))) || Odd(Half(Half(Half(Half(Half(v))))))
            || Odd(Half(Half(Half(Half(Half(Half(v)))))))
            || Odd(Half(Half(Half(Half(Half(Half(Half(v))))))))
  {
  }

  lemma ZerosInside(v: bv64, n: nat)
    requires v & 0xFF != 0 && n + 8 <= 64
    ensures n <= TrailingZeros(v, n) < n + 8
  {
    hide TrailingZeros, Odd, Half;
    OddBitInOctet(v);
    TrailingStep(v, n);
    TrailingStep(Half(v), n + 1);
    TrailingStep(Half(Half(v)), n + 2);
    TrailingStep(Half(Half(Half(v))), n + 3);
    TrailingStep(Half(Half(Half(Half(v)))), n + 4);
    TrailingStep(Half(Half(Half(Half(Half(v))))), n + 5);
    TrailingStep(Half(Half(Half(Half(Half(Half(v)))))), n + 6);
    TrailingStep(Half(Half(Half(Half(Half(Half(Half(v))))))), n + 7);
  }

  /** Trailing zero bits, in whole octets, are the zero octets. */
  lemma {:induction false} TrailingZerosInOctets(v: bv64, n: nat)
    requires n <= 8 && ZeroOctets(v, n) < 8
    ensures TrailingZeros(v, 8 * n) / 8 == ZeroOctets(v, n)
    decreases 8 - n
  {
    hide TrailingZeros;
    if v & 0xFF != 0 {
      ZerosInside(v, 8 * n);
    } else {
      ZeroOctetSkipped(v, 8 * n);
      TrailingZerosInOctets(v >> 8, n + 1);
    }
  }

  lemma CountsByTable(v: bv64)
    requires ZeroOctets(v, 0) < 8
    ensures NbCommonBytesTable(v) == ZeroOctets(v, 0)
  {
    hide LowBit, BitInOctet, ZeroOctets, TablePos;
    LowBitInOctet(v, 0);
    match ZeroOctets(v, 0)
    case 0 => TableInOctet0(LowBit(v));
    case 1 => TableInOctet1(LowBit(v));
    case 2 => TableInOctet2(LowBit(v));
    case 3 => TableInOctet3(LowBit(v));
    case 4 => TableInOctet4(LowBit(v));
    case 5 => TableInOctet5(LowBit(v));
    case 6 => TableInOctet6(LowBit(v));
    case _ => TableInOctet7(LowBit(v));
  }

  /** Both builds of LZ4_NbCommonBytes return the number of low zero octets of a non-zero word. */
  lemma NbCommonBytesCounts(v: bv64)
    requires v != 0
    ensures NbCommonBytes(v) == NbCommonBytesTable(v) == ZeroOctets(v, 0)
  {
    hide TrailingZeros, NbCommonBytesTable;
    ZeroWord(v);
    TrailingZerosInOctets(v, 0);
    CountsByTable(v);
  }

  // ----- LZ4_count -----

  /** LZ4_read16, LZ4_read32: little-endian values. */
  function Read16(s: seq<byte>, i: nat): nat
    requires i + 2 <= |s|
  {
    s[i] as int + 256 * s[i + 1] as int
  }

  function Read32(s: seq<byte>, i: nat): nat
    requires i + 4 <= |s|
  {
    Read16(s, i) + 65536 * Read16(s, i + 2)
  }

  lemma Read16Equal(s: seq<byte>, a: nat, b: nat)
    requires a + 2 <= |s| && b + 2 <= |s|
    ensures Read16(s, a) == Read16(s, b) <==> s[a] == s[b] && s[a + 1] == s[b + 1]
  {
  }

  /** Equal 32-bit reads are four equal bytes. */
  lemma Read32Equal(s: seq<byte>, a: nat, b: nat)
    requires a + 4 <= |s| && b + 4 <= |s|
    ensures Read32(s, a) == Read32(s, b) <==>
            s[a] == s[b] && s[a + 1] == s[b + 1] && s[a + 2] == s[b + 2] && s[a + 3] == s[b + 3]
  {
    Read16Equal(s, a, b);
    Read16Equal(s, a + 2, b + 2);
  }

  /** `n` is the length of the longest common prefix at `a` and `b` that stays below `limit`. */
  ghost predicate LongestMatch(s: seq<byte>, a: nat, b: nat, limit: nat, n: nat) {
    && Agree(s, a, b, n) && a + n <= limit <= |s|
    && (a + n < limit ==> b + n < |s| && s[a + n] != s[b + n])
  }

  lemma AgreeJoin(s: seq<byte>, a: nat, b: nat, n: nat, k: nat)
    requires Agree(s, a, b, n) && Agree(s, b + n, a + n, k)
    ensures Agree(s, a, b, n + k)
  {
    forall j | a + n <= j < a + n + k ensures s[j] == s[j - a + b] {
      assert s[j - a + b] == s[(j - a + b) - (b + n) + (a + n)];
    }
  }

  /** One word of LZ4_count: all eight bytes agree, or the count of those that do. */
  lemma WordStep(s: seq<byte>, a: nat, b: nat, n: nat)
    requires a + n + 8 <= |s| && b + n + 8 <= |s| && Agree(s, a, b, n)
    ensures var diff := WordDiff(s, b + n, a + n);
            if diff == 0 then Agree(s, a, b, n + 8)
            else
              var k := NbCommonBytes(diff);
              k < 8 && Agree(s, a, b, n + k) && s[a + n + k] != s[b + n + k]
  {
    hide WordDiff, NbCommonBytes, ZeroOctets, Agree;
    var diff := WordDiff(s, b + n, a + n);
    var k := ZeroOctets(diff, 0);
    CommonBytes(s, b + n, a + n);
    ZeroWord(diff);
    if diff != 0 { NbCommonBytesCounts(diff); }
    AgreeJoin(s, a, b, n, k);
  }

  /** The last bytes of LZ4_count: four, two, one. */
  method CountTail(s: seq<byte>, pIn0: nat, pMatch0: nat, pInLimit: nat) returns (r: nat)
    requires pMatch0 <= pIn0 <= pInLimit <= |s| && pInLimit < pIn0 + 8
    ensures LongestMatch(s, pIn0, pMatch0, pInLimit, r)
  {
    hide Read32, Read16;
    var pIn, pMatch := pIn0, pMatch0;
    if pIn + 3 < pInLimit {
      Read32Equal(s, pMatch, pIn);
      if Read32(s, pMatch) == Read32(s, pIn) { pIn, pMatch := pIn + 4, pMatch + 4; }
    }
    if pIn + 1 < pInLimit {
      Read16Equal(s, pMatch, pIn);
      if Read16(s, pMatch) == Read16(s, pIn) { pIn, pMatch := pIn + 2, pMatch + 2; }
    }
    if pIn < pInLimit && s[pMatch] == s[pIn] { pIn := pIn + 1; }
    r := pIn - pIn0;
  }

  lemma MatchesJoin(s: seq<byte>, a: nat, b: nat, limit: nat, n: nat, m: nat)
    requires Agree(s, a, b, n) && LongestMatch(s, a + n, b + n, limit, m)
    ensures LongestMatch(s, a, b, limit, n + m)
  {
  }

  lemma MatchEnds(s: seq<byte>, a: nat, b: nat, limit: nat, n: nat)
    requires Agree(s, a, b, n) && a + n < limit <= |s| && b + n < |s| && s[a + n] != s[b + n]
    ensures LongestMatch(s, a, b, limit, n)
  {
  }

  lemma AgreeNothing(s: seq<byte>, a: nat, b: nat)
    requires a <= |s| && b <= |s|
    ensures Agree(s, a, b, 0)
  {
  }

  /** LZ4_count. */
  method Count(s: seq<byte>, pIn0: nat, pMatch0: nat, pInLimit: nat) returns (r: nat)
    requires pMatch0 <= pIn0 <= pInLimit <= |s|
    ensures LongestMatch(s, pIn0, pMatch0, pInLimit, r)
  {
    hide WordDiff, NbCommonBytes, Agree, LongestMatch;
    AgreeNothing(s, pIn0, pMatch0);
    var pIn, pMatch := pIn0, pMatch0;
    if pIn + (STEPSIZE - 1) < pInLimit {
      WordStep(s, pIn0, pMatch0, 0);
      var diff := WordDiff(s, pMatch, pIn);
      if diff == 0 {
        pIn, pMatch := pIn + STEPSIZE, pMatch + STEPSIZE;
      } else {
        MatchEnds(s, pIn0, pMatch0, pInLimit, NbCommonBytes(diff));
        return NbCommonBytes(diff);
      }
    }
    while pIn + (STEPSIZE - 1) < pInLimit
      invariant pIn0 <= pIn <= pInLimit && pMatch - pMatch0 == pIn - pIn0
      invariant Agree(s, pIn0, pMatch0, pIn - pIn0)
    {
      WordStep(s, pIn0, pMatch0, pIn - pIn0);
      var diff := WordDiff(s, pMatch, pIn);
      if diff != 0 {
        MatchEnds(s, pIn0, pMatch0, pInLimit, pIn - pIn0 + NbCommonBytes(diff));
        return pIn + NbCommonBytes(diff) - pIn0;
      }
      pIn, pMatch := pIn + STEPSIZE, pMatch + STEPSIZE;
    }
    var rest := CountTail(s, pIn, pMatch, pInLimit);
    r := pIn + rest - pIn0;
    MatchesJoin(s, pIn0, pMatch0, pInLimit, pIn - pIn0, rest);
  }
}
