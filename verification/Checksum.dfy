/** The Internet checksum (RFC 1071): computed from scratch, and adjusted when words of the data change. */
module Checksum {
  import opened Bytes

  type u16 = x: int | 0 <= x < 0x1_0000

  // ----- one's complement sums -----

  /** 16-bit addition with end-around carry. */
  function OnesAdd(a: u16, b: u16): u16 {
    if a + b < 0x1_0000 then a + b else a + b - 0xFFFF
  }

  function OnesSum(words: seq<u16>): u16 {
    if words == [] then 0 else OnesAdd(words[0], OnesSum(words[1..]))
  }

  /** What a receiver tests: the words, checksum included, add up to all ones. */
  predicate Verifies(words: seq<u16>) {
    OnesSum(words) == 0xFFFF
  }

  /** The plain sum of the words. */
  function Total(words: seq<u16>): nat {
    if words == [] then 0 else words[0] + Total(words[1..])
  }

  lemma SameResidue(x: int, y: int, k: int)
    requires x == y + 0xFFFF * k
    ensures x % 0xFFFF == y % 0xFFFF
  {
  }

  lemma Multiple(x: int, y: int) returns (k: int)
    requires x % 0xFFFF == y % 0xFFFF
    ensures x == y + 0xFFFF * k
  {
    k := x / 0xFFFF - y / 0xFFFF;
  }

  /** A sum brought down to 16 bits: the residue modulo 65535, all ones instead of 0 for what is not 0. */
  function Fold(x: nat): (r: u16)
    ensures r % 0xFFFF == x % 0xFFFF && (r == 0 <==> x == 0)
  {
    if x == 0 then 0 else (x - 1) % 0xFFFF + 1
  }

  lemma FoldUnique(r: u16, x: nat)
    requires r % 0xFFFF == x % 0xFFFF && (r == 0 <==> x == 0)
    ensures r == Fold(x)
  {
  }

  lemma FoldAdd(a: u16, x: nat)
    ensures OnesAdd(a, Fold(x)) == Fold(a + x)
  {
    hide Fold;
    FoldUnique(OnesAdd(a, Fold(x)), a + x);
  }

  /** Adding with end-around carry and folding the plain sum agree. */
  lemma {:induction false} OnesSumFolds(words: seq<u16>)
    ensures OnesSum(words) == Fold(Total(words))
  {
    if words != [] {
      OnesSumFolds(words[1..]);
      FoldAdd(words[0], Total(words[1..]));
    }
  }

  lemma VerifiesByTotal(words: seq<u16>)
    ensures Verifies(words) <==> Total(words) > 0 && Total(words) % 0xFFFF == 0
  {
    hide Fold, OnesSum, Total;
    OnesSumFolds(words);
  }

  lemma {:induction false} TotalSplits(a: seq<u16>, b: seq<u16>)
    ensures Total(a + b) == Total(a) + Total(b)
  {
    if a == [] {
      assert a + b == b;
    } else {
      assert (a + b)[1..] == a[1..] + b;
      TotalSplits(a[1..], b);
    }
  }

  // ----- byte order -----

  function Swap(w: u16): u16 {
    w % 256 * 256 + w / 256
  }

  function Swapped(words: seq<u16>): seq<u16> {
    if words == [] then [] else [Swap(words[0])] + Swapped(words[1..])
  }

  /** Swapping is multiplication by 256 modulo 65535. */
  lemma SwapResidue(w: u16)
    ensures Swap(w) % 0xFFFF == 256 * w % 0xFFFF && (Swap(w) == 0 <==> w == 0)
  {
    var h, l := w / 256, w % 256;
    assert 256 * w == (l * 256 + h) + 0xFFFF * h;
  }

  lemma OnesAddResidue(a: u16, b: u16)
    ensures OnesAdd(a, b) % 0xFFFF == (a + b) % 0xFFFF && (OnesAdd(a, b) == 0 <==> a + b == 0)
  {
  }

  lemma ResiduesAdd(a: int, b: int, x: int, y: int)
    requires a % 0xFFFF == 256 * x % 0xFFFF && b % 0xFFFF == 256 * y % 0xFFFF
    ensures (a + b) % 0xFFFF == 256 * (x + y) % 0xFFFF
  {
    var j := Multiple(a, 256 * x);
    var k := Multiple(b, 256 * y);
    SameResidue(a + b, 256 * (x + y), j + k);
  }

  lemma ScaleResidue(p: int, q: int)
    requires p % 0xFFFF == q % 0xFFFF
    ensures 256 * p % 0xFFFF == 256 * q % 0xFFFF
  {
    var k := Multiple(p, q);
    SameResidue(256 * p, 256 * q, 256 * k);
  }

  lemma SwapAdds(a: u16, b: u16)
    ensures OnesAdd(Swap(a), Swap(b)) == Swap(OnesAdd(a, b))
  {
    hide Swap, OnesAdd;
    var r, s := OnesAdd(Swap(a), Swap(b)), OnesAdd(a, b);
    SwapResidue(a);
    SwapResidue(b);
    SwapResidue(s);
    OnesAddResidue(a, b);
    OnesAddResidue(Swap(a), Swap(b));
    ResiduesAdd(Swap(a), Swap(b), a, b);
    var total: int, once: int := a + b, s;
    ScaleResidue(total, once);
    FoldUnique(r, 256 * once);
    FoldUnique(Swap(s), 256 * once);
  }

  lemma SwapOnes(w: u16)
    ensures Swap(w) == 0xFFFF <==> w == 0xFFFF
  {
  }

  /** The sum does not depend on the order of the bytes in the words, but for its own byte order. */
  lemma {:induction false} ByteOrderKept(words: seq<u16>)
    ensures OnesSum(Swapped(words)) == Swap(OnesSum(words))
    ensures Verifies(Swapped(words)) <==> Verifies(words)
  {
    hide Swap, OnesAdd;
    if words == [] {
      assert Swap(0) == 0 by { SwapResidue(0); }
    } else {
      ByteOrderKept(words[1..]);
      SwapAdds(words[0], OnesSum(words[1..]));
      assert Swapped(words)[1..] == Swapped(words[1..]);
    }
    SwapOnes(OnesSum(words));
  }

  // ----- ip_checksum -----

  /** The big-endian words of a byte string from `i` on, a last odd byte filled up with 0. */
  function Words(b: seq<byte>, i: nat): seq<u16>
    decreases |b| - i
  {
    if i >= |b| then []
    else [Word(b[i], if i + 1 < |b| then b[i + 1] else 0)] + Words(b, i + 2)
  }

  function Word(high: byte, low: byte): u16 {
    high as int * 256 + low as int
  }

  lemma WordsStep(b: seq<byte>, i: nat)
    requires i < |b|
    ensures Total(Words(b, i)) == Word(b[i], if i + 1 < |b| then b[i + 1] else 0) + Total(Words(b, i + 2))
  {
    assert Words(b, i)[1..] == Words(b, i + 2);
  }

  /** A loop that adds up words in 32 bits. */
  method AddWords(b: seq<byte>, sum0: nat) returns (sum: nat)
    requires sum0 < U32
    ensures sum == (sum0 + Total(Words(b, 0))) % U32
  {
    hide Words, Total;
    sum := sum0;
    var i := 0;
    while i < |b|
      invariant 0 <= i && sum < U32
      invariant (sum + Total(Words(b, i))) % U32 == (sum0 + Total(Words(b, 0))) % U32
      decreases |b| - i
    {
      var w := Word(b[i], if i + 1 < |b| then b[i + 1] else 0);
      WordsStep(b, i);
      WrapAdd(sum + w, Total(Words(b, i + 2)));
      sum := (sum + w) % U32;
      i := i + 2;
    }
    NoWords(b, i);
  }

  lemma NoWords(b: seq<byte>, i: nat)
    requires i >= |b|
    ensures Total(Words(b, i)) == 0
  {
  }

  /** The words a transport checksum covers: both addresses, length and protocol, and the segment. */
  function Covered(src: seq<byte>, dst: seq<byte>, proto: byte, segment: seq<byte>): seq<u16> {
    Words(src, 0) + Words(dst, 0) + [|segment| % 0x1_0000, proto] + Words(segment, 0)
  }

  lemma TotalOfTwo(words: seq<u16>)
    requires |words| == 2
    ensures Total(words) == words[0] as int + words[1] as int
  {
    assert Total(words[1..]) == words[1] as int;
  }

  lemma CoveredTotal(src: seq<byte>, dst: seq<byte>, proto: byte, segment: seq<byte>)
    ensures Total(Covered(src, dst, proto, segment))
         == Total(Words(src, 0)) + Total(Words(dst, 0)) + |segment| % 0x1_0000 + proto + Total(Words(segment, 0))
  {
    hide Words, Total;
    var two: seq<u16> := [|segment| % 0x1_0000, proto];
    assert Covered(src, dst, proto, segment) == Words(src, 0) + Words(dst, 0) + two + Words(segment, 0);
    TotalSplits(Words(src, 0) + Words(dst, 0) + two, Words(segment, 0));
    TotalSplits(Words(src, 0) + Words(dst, 0), two);
    TotalSplits(Words(src, 0), Words(dst, 0));
    TotalOfTwo(two);
  }

  lemma SumsWrap(a: nat, b: nat, c: nat, d: nat, e: nat)
    ensures ((((a % U32 + b) % U32 + c) % U32 + d) % U32 + e) % U32 == (a + b + c + d + e) % U32
  {
    WrapAdd(a, b);
    WrapAdd(a + b, c);
    WrapAdd(a + b + c, d);
    WrapAdd(a + b + c + d, e);
  }

  /** ip_checksum: the complement of the sum, which is taken in 32 bits. */
  method IpChecksum(payload: seq<byte>, src: seq<byte>, dst: seq<byte>, proto: byte) returns (r: u16)
    requires |src| == |dst| && (|src| == 4 || |src| == 16)
    ensures r == 0xFFFF - Fold(Total(Covered(src, dst, proto, payload)) % U32)
  {
    hide Words, Total, Fold, Covered;
    CoveredTotal(src, dst, proto, payload);
    SumsWrap(Total(Words(payload, 0)), Total(Words(src, 0)), Total(Words(dst, 0)), |payload| % 0x1_0000, proto);
    var sum := AddWords(payload, 0);
    sum := AddWords(src, sum);
    sum := AddWords(dst, sum);
    sum := (sum + |payload| % 0x1_0000) % U32;
    sum := (sum + proto) % U32;
    r := FoldSum(sum);
  }

  /** The carries are added until none is left. */
  method FoldSum(sum0: nat) returns (r: u16)
    ensures r == 0xFFFF - Fold(sum0)
  {
    hide Fold;
    var sum := sum0;
    while sum / 0x1_0000 != 0
      invariant 0 <= sum && sum % 0xFFFF == sum0 % 0xFFFF && (sum == 0 <==> sum0 == 0)
      decreases sum
    {
      ghost var before := sum;
      sum := sum % 0x1_0000 + sum / 0x1_0000;
      SameResidue(before, sum, before / 0x1_0000);
    }
    FoldUnique(sum, sum0);
    return 0xFFFF - sum;
  }

  // ----- a packet with its checksum -----

  /** A segment with a checksum put into it. */
  function WithChecksum(segment: seq<byte>, at: nat, c: u16): (r: seq<byte>)
    requires at + 2 <= |segment|
    ensures |r| == |segment|
  {
    segment[at := c / 256][at + 1 := c % 256]
  }

  lemma {:induction false} WordsBehind(s: seq<byte>, at: nat, c: u16, i: nat)
    requires at + 2 <= |s| && i >= at + 2
    ensures Words(WithChecksum(s, at, c), i) == Words(s, i)
    decreases |s| - i
  {
    if i < |s| { WordsBehind(s, at, c, i + 2); }
  }

  lemma {:induction false} TotalWithChecksum(s: seq<byte>, at: nat, c: u16, i: nat)
    requires at + 2 <= |s| && i <= at && (at - i) % 2 == 0 && s[at] == s[at + 1] == 0
    ensures Total(Words(WithChecksum(s, at, c), i)) == Total(Words(s, i)) + c
    decreases at - i
  {
    hide Words, Total;
    WordsStep(s, i);
    WordsStep(WithChecksum(s, at, c), i);
    if i == at {
      WordsBehind(s, at, c, i + 2);
      assert Word(c / 256, c % 256) == c;
    } else {
      TotalWithChecksum(s, at, c, i + 2);
    }
  }

  lemma {:induction false} TotalBounded(b: seq<byte>, i: nat)
    ensures Total(Words(b, i)) <= if i < |b| then (|b| - i + 1) / 2 * 0xFFFF else 0
    decreases |b| - i
  {
    hide Words, Total;
    if i < |b| {
      WordsStep(b, i);
      TotalBounded(b, i + 2);
    } else {
      NoWords(b, i);
    }
  }

  /** What 32 bits drop is worth 1 modulo 65535 for every 2^32. */
  lemma ComplementFolds(total: nat)
    ensures var c := 0xFFFF - Fold(total % U32);
            total + c > 0 && (total + c) % 0xFFFF == total / U32 % 0xFFFF
  {
    var q, m, f := total / U32, total % U32, Fold(total % U32);
    var k := Multiple(m, f);
    assert U32 == 0xFFFF * 0x1_0001 + 1;
    assert total + 0xFFFF - f == q + 0xFFFF * (q * 0x1_0001 + k + 1);
    SameResidue(total + 0xFFFF - f, q, q * 0x1_0001 + k + 1);
  }

  /**
   A packet whose checksum field was 0 verifies with the result of ip_checksum in it exactly when what the
   32-bit sum lost is a multiple of 65535; up to 65535 bytes nothing is lost.
   */
  lemma ChecksumVerifies(src: seq<byte>, dst: seq<byte>, proto: byte, segment: seq<byte>, at: nat)
    requires at % 2 == 0 && at + 2 <= |segment| && segment[at] == segment[at + 1] == 0
    ensures var total := Total(Covered(src, dst, proto, segment));
            && (Verifies(Covered(src, dst, proto, WithChecksum(segment, at, 0xFFFF - Fold(total % U32))))
                <==> total / U32 % 0xFFFF == 0)
            && (|src| <= 16 && |dst| <= 16 && |segment| <= 0xFFFF ==> total < U32)
  {
    hide Fold, Words, Total, Verifies, Covered, WithChecksum;
    var total := Total(Covered(src, dst, proto, segment));
    var c := 0xFFFF - Fold(total % U32);
    CoveredTotal(src, dst, proto, segment);
    CoveredTotal(src, dst, proto, WithChecksum(segment, at, c));
    TotalWithChecksum(segment, at, c, 0);
    VerifiesByTotal(Covered(src, dst, proto, WithChecksum(segment, at, c)));
    ComplementFolds(total);
    TotalBounded(src, 0);
    TotalBounded(dst, 0);
    TotalBounded(segment, 0);
  }

  // ----- ADJUST_CHECKSUM -----

  /** Two additions of the carry, as the macro has them. */
  function Carried(a: nat): u16 {
    var x := a / 0x1_0000 + a % 0x1_0000;
    (x + x / 0x1_0000) % 0x1_0000
  }

  /** The checksum `c` after words of the data changed, `acc` the old words less the new ones. */
  function Adjusted(acc: int, c: u16): u16 {
    if acc + c < 0 then 0xFFFF - Carried(-acc - c) else Carried(acc + c)
  }

  lemma CarriedResidue(a: nat)
    requires a < U32
    ensures Carried(a) % 0xFFFF == a % 0xFFFF && (Carried(a) == 0 <==> a == 0)
  {
    var h, l := a / 0x1_0000, a % 0x1_0000;
    var x := h + l;
    if x < 0x1_0000 {
      assert Carried(a) == x;
      SameResidue(a, x, h);
    } else {
      assert Carried(a) == x - 0xFFFF;
      SameResidue(a, x - 0xFFFF, h + 1);
    }
  }

  /** It moves by what the words moved the other way, in one's complement. */
  lemma AdjustedMoves(acc: int, c: u16)
    requires -0x8000_0000 <= acc + c < 0x8000_0000
    ensures Adjusted(acc, c) % 0xFFFF == (acc + c) % 0xFFFF
  {
    hide Carried;
    var a := acc + c;
    if a < 0 {
      CarriedResidue(-a);
      var k := Multiple(-a, Carried(-a));
      SameResidue(0xFFFF - Carried(-a), a, k + 1);
    } else {
      CarriedResidue(a);
    }
  }

  /** The result is 0 exactly when the words gained the old checksum, or that and a multiple of 65535. */
  lemma AdjustedToZero(acc: int, c: u16)
    requires -0x1000_0000 < acc < 0x1000_0000
    ensures Adjusted(acc, c) == 0 <==> acc + c <= 0 && -(acc + c) % 0xFFFF == 0
  {
    hide Carried;
    if acc + c < 0 {
      CarriedResidue(-(acc + c));
    } else {
      CarriedResidue(acc + c);
    }
  }

  /** A sum of words that verifies goes on to do so, and no other does, when old words give way to new ones. */
  lemma AdjustKeeps(rest: nat, before: nat, after: nat, c: u16)
    requires before < 0x1000_0000 && after < 0x1000_0000
    ensures (rest + after + Adjusted(before - after, c)) % 0xFFFF == 0 <==> (rest + before + c) % 0xFFFF == 0
  {
    hide Adjusted;
    AdjustedMoves(before - after, c);
    var d := Adjusted(before - after, c);
    var k := Multiple(d, before - after + c);
    SameResidue(rest + after + d, rest + before + c, k);
  }
}
