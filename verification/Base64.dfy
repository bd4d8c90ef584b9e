/**
 openvpn_base64_encode and openvpn_base64_decode (RFC 4648 section 4). Characters are their ASCII
 codes; a C string is a byte string that ends at its first NUL.
 */
module Base64 {
  import opened Bytes

  const PAD: byte := 61
  const DECODE_ERROR: nat := 0xFFFF_FFFF

  /** base64_chars. */
  function CharOf(i: nat): (c: byte)
    requires i < 64
    ensures c != 0 && c != PAD
  {
    if i < 26 then 65 + i
    else if i < 52 then 97 + (i - 26)
    else if i < 62 then 48 + (i - 52)
    else if i == 62 then 43
    else 47
  }

  /** pos: the index of a character, -1 when it is none of the 64. */
  function Pos(c: byte): int {
    if 65 <= c <= 90 then c - 65
    else if 97 <= c <= 122 then c - 97 + 26
    else if 48 <= c <= 57 then c - 48 + 52
    else if c == 43 then 62
    else if c == 47 then 63
    else -1
  }

  lemma PosInverts(c: byte)
    ensures forall i :: 0 <= i < 64 ==> (CharOf(i) == c <==> Pos(c) == i)
  {
  }

  lemma PosIsIndex(c: byte)
    ensures Pos(c) >= 0 ==> Pos(c) < 64 && CharOf(Pos(c)) == c
  {
  }

  /** The search through the table. */
  method FindPos(c: byte) returns (p: int)
    ensures p == Pos(c)
  {
    PosInverts(c);
    for i := 0 to 64
      invariant forall j :: 0 <= j < i ==> CharOf(j) != c
    {
      if CharOf(i) == c { return i; }
    }
    PosIsIndex(c);
    return -1;
  }

  // ----- encoding -----

  /** The 24 bits of up to three bytes. */
  function Group(data: seq<byte>, i: nat): (c: nat)
    requires i < |data|
    ensures c < 0x100_0000
  {
    (data[i] as int * 256 + if i + 1 < |data| then data[i + 1] as int else 0) * 256
    + if i + 2 < |data| then data[i + 2] as int else 0
  }

  function Digit(c: nat, k: nat): nat
    requires k < 4
    ensures Digit(c, k) < 64
  {
    if k == 0 then c / 0x4_0000 % 64
    else if k == 1 then c / 0x1000 % 64
    else if k == 2 then c / 64 % 64
    else c % 64
  }

  /** Four characters for the bytes from `i` on. */
  function Quad(data: seq<byte>, i: nat): (q: seq<byte>)
    requires i < |data|
    ensures |q| == 4
  {
    var c := Group(data, i);
    [CharOf(Digit(c, 0)), CharOf(Digit(c, 1)),
     if i + 1 < |data| then CharOf(Digit(c, 2)) else PAD,
     if i + 2 < |data| then CharOf(Digit(c, 3)) else PAD]
  }

  function EncodeFrom(data: seq<byte>, i: nat): (s: seq<byte>)
    ensures |s| == if i >= |data| then 0 else (|data| - i + 2) / 3 * 4
    ensures forall k :: 0 <= k < |s| ==> s[k] != 0
    decreases |data| - i
  {
    if i >= |data| then [] else Quad(data, i) + EncodeFrom(data, i + 3)
  }

  function Encode(data: seq<byte>): seq<byte> {
    EncodeFrom(data, 0)
  }

  /** OPENVPN_BASE64_LENGTH. */
  function Base64Length(n: nat): nat {
    (8 * n / 6 + 3) / 4 * 4
  }

  lemma LengthByThrees(q: nat, r: nat)
    requires r < 3
    ensures var n := 3 * q + r;
            && Base64Length(n) == (n + 2) / 3 * 4 == 4 * q + (if r == 0 then 0 else 4)
            && n * 4 / 3 == 4 * q + r
  {
    assert 8 * (3 * q + r) / 6 == 4 * q + r;
    assert (4 * q + r + 3) / 4 == q + (if r == 0 then 0 else 1);
  }

  lemma EncodedLength(data: seq<byte>)
    ensures |Encode(data)| == Base64Length(|data|)
    ensures |Encode(data)| + 1 <= |data| * 4 / 3 + 4
    ensures |data| % 3 == 1 ==> |Encode(data)| + 1 == |data| * 4 / 3 + 4
  {
    var n := |data|;
    hide EncodeFrom, Base64Length;
    assert n == 3 * (n / 3) + n % 3;
    LengthByThrees(n / 3, n % 3);
  }

  /** The inner part of the loop: up to three bytes from `i`, four characters at `p`. */
  method WriteQuad(data: seq<byte>, i0: nat, str: array<byte>, p: nat)
    requires i0 < |data| && p + 4 <= str.Length
    modifies str
    ensures str[..p + 4] == old(str[..p]) + Quad(data, i0)
  {
    hide CharOf, Digit;
    var size, i := |data|, i0;
    var c: int := data[i];
    i := i + 1;
    c := c * 256;
    if i < size { c := c + data[i]; }
    i := i + 1;
    c := c * 256;
    if i < size { c := c + data[i]; }
    i := i + 1;
    assert c == Group(data, i0);
    str[p] := CharOf(Digit(c, 0));
    str[p + 1] := CharOf(Digit(c, 1));
    str[p + 2] := CharOf(Digit(c, 2));
    str[p + 3] := CharOf(Digit(c, 3));
    if i > size { str[p + 3] := PAD; }
    if i > size + 1 { str[p + 2] := PAD; }
    assert str[..p + 4] == str[..p] + [str[p], str[p + 1], str[p + 2], str[p + 3]];
  }

  /** openvpn_base64_encode: the buffer of `size * 4 / 3 + 4` bytes takes the text and its NUL. */
  method EncodeText(data: seq<byte>) returns (str: array<byte>, n: nat)
    ensures fresh(str) && str.Length == |data| * 4 / 3 + 4 && n < str.Length
    ensures str[..n] == Encode(data) && str[n] == 0
  {
    hide Quad, Base64Length;
    str := new byte[|data| * 4 / 3 + 4](_ => 0);
    var i, p := 0, 0;
    EncodedLength(data);
    while i < |data|
      invariant 0 <= i && 0 <= p && p + |EncodeFrom(data, i)| == |Encode(data)|
      invariant str[..p] + EncodeFrom(data, i) == Encode(data)
      decreases |data| - i
    {
      ghost var before := str[..p];
      WriteQuad(data, i, str, p);
      assert before + (Quad(data, i) + EncodeFrom(data, i + 3)) == str[..p + 4] + EncodeFrom(data, i + 3);
      i, p := i + 3, p + 4;
    }
    assert str[..p] + [] == str[..p];
    str[p] := 0;
    n := p;
  }

  // ----- decoding -----

  /** The character at `i`; NUL behind the end. */
  function CharAt(s: seq<byte>, i: nat): byte {
    if i < |s| then s[i] else 0
  }

  /** token_decode's accumulation: 32-bit, an unknown character adds -1, `=` only at the end. */
  function TokenStep(val: nat, marker: nat, c: byte): Option<(nat, nat)> {
    if c == PAD then Some((val * 64 % U32, marker + 1))
    else if marker > 0 then None
    else Some(((val * 64 + Pos(c)) % U32, marker))
  }

  function TokenFrom(s: seq<byte>, i: nat, k: nat, val: nat, marker: nat): Option<(nat, nat)>
    requires k <= 4
    decreases 4 - k
  {
    if k == 4 then Some((val, marker))
    else
      match TokenStep(val, marker, CharAt(s, i + k))
      case None => None
      case Some(next) => TokenFrom(s, i, k + 1, next.0, next.1)
  }

  /** token_decode. */
  function TokenDecode(s: seq<byte>, i: nat): nat {
    if CharAt(s, i) == 0 || CharAt(s, i + 1) == 0 || CharAt(s, i + 2) == 0 || CharAt(s, i + 3) == 0 then DECODE_ERROR
    else
      match TokenFrom(s, i, 0, 0, 0)
      case None => DECODE_ERROR
      case Some(r) => if r.1 > 2 then DECODE_ERROR else OrMarker(r.1, r.0)
  }

  /** `(marker << 24) | val` for a marker of at most 2. */
  function OrMarker(marker: nat, val: nat): nat
    requires marker <= 2
  {
    var high := val / 0x100_0000;
    var joined := if marker == 0 then high
                  else if high / marker % 2 == 1 then high else high + marker;
    joined * 0x100_0000 + val % 0x100_0000
  }

  method DecodeToken(s: seq<byte>, i: nat) returns (r: nat)
    ensures r == TokenDecode(s, i)
  {
    hide Pos;
    var val, marker := 0, 0;
    if CharAt(s, i) == 0 || CharAt(s, i + 1) == 0 || CharAt(s, i + 2) == 0 || CharAt(s, i + 3) == 0 {
      return DECODE_ERROR;
    }
    for k := 0 to 4
      invariant val >= 0 && marker >= 0
      invariant TokenFrom(s, i, 0, 0, 0) == TokenFrom(s, i, k, val, marker)
    {
      ghost var shifted := val * 64;
      val := val * 64 % U32;
      if CharAt(s, i + k) == PAD {
        marker := marker + 1;
      } else if marker > 0 {
        return DECODE_ERROR;
      } else {
        var p := FindPos(CharAt(s, i + k));
        WrapAdd(shifted, p);
        val := (val + p) % U32;
      }
    }
    if marker > 2 { return DECODE_ERROR; }
    return OrMarker(marker, val);
  }

  /** The bytes a decoded token stands for: three, less the padding. */
  function TokenBytes(val: nat): (b: seq<byte>)
    ensures 1 <= |b| <= 3
  {
    var marker := val / 0x100_0000 % 256;
    [val / 0x1_0000 % 256] + (if marker < 2 then [val / 256 % 256] else [])
    + if marker < 1 then [val % 256] else []
  }

  /** Decoding goes on while the next character is in the alphabet or a pad. */
  predicate More(s: seq<byte>, i: nat) {
    var c := CharAt(s, i);
    c != 0 && (c == PAD || Pos(c) >= 0)
  }

  /**
   openvpn_base64_decode from character `i` with `out` decoded: `size` is the room of the buffer,
   unlimited when negative.
   */
  function DecodeFrom(s: seq<byte>, i: nat, size: int, out: seq<byte>): Option<seq<byte>>
    decreases |s| - i
  {
    if !More(s, i) then Some(out)
    else
      var val := TokenDecode(s, i);
      if val == DECODE_ERROR then None
      else
        var out' := out + TokenBytes(val);
        if size >= 0 && |out'| > size then None else DecodeFrom(s, i + 4, size, out')
  }

  function Decode(s: seq<byte>, size: int): Option<seq<byte>> {
    DecodeFrom(s, 0, size, [])
  }

  /** The inner part of the loop: one, two or three bytes, each only when there is room. */
  method WriteToken(val: nat, data: array<byte>, q0: nat, size: int) returns (ok: bool, q: nat)
    requires q0 <= data.Length && (if size >= 0 then q0 <= size <= data.Length else q0 + 3 <= data.Length)
    modifies data
    ensures ok <==> size < 0 || q0 + |TokenBytes(val)| <= size
    ensures ok ==> q0 <= q <= data.Length && data[..q] == old(data[..q0]) + TokenBytes(val)
  {
    q := q0;
    var marker := val / 0x100_0000 % 256;
    if size >= 0 && q >= size { return false, q; }
    data[q] := val / 0x1_0000 % 256;
    q := q + 1;
    if marker < 2 {
      if size >= 0 && q >= size { return false, q; }
      data[q] := val / 256 % 256;
      q := q + 1;
    }
    if marker < 1 {
      if size >= 0 && q >= size { return false, q; }
      data[q] := val % 256;
      q := q + 1;
    }
    assert data[..q] == data[..q0] + data[q0..q];
    assert data[q0..q] == TokenBytes(val);
    return true, q;
  }

  /** openvpn_base64_decode: the number of bytes written, -1 for a bad token or when the buffer is full. */
  method DecodeText(s: seq<byte>, data: array<byte>, size: int) returns (r: int)
    requires if size >= 0 then size <= data.Length else |s| <= data.Length
    modifies data
    ensures var d := Decode(s, size);
            if d.None? then r == -1 else 0 <= r <= data.Length && data[..r] == d.value
  {
    hide TokenDecode, More, TokenBytes;
    var p, q := 0, 0;
    assert data[..0] == [];
    while More(s, p)
      invariant 0 <= p && 0 <= q <= data.Length && (size >= 0 ==> q <= size) && (size < 0 ==> q <= p)
      invariant Decode(s, size) == DecodeFrom(s, p, size, data[..q])
      decreases |s| - p
    {
      MoreInside(s, p);
      var val := DecodeToken(s, p);
      if val == DECODE_ERROR { return -1; }
      TokenInside(s, p);
      var ok;
      ok, q := WriteToken(val, data, q, size);
      if !ok { return -1; }
      p := p + 4;
    }
    return q;
  }

  lemma MoreInside(s: seq<byte>, i: nat)
    requires More(s, i)
    ensures i < |s|
  {
  }

  lemma TokenInside(s: seq<byte>, i: nat)
    requires TokenDecode(s, i) != DECODE_ERROR
    ensures i + 4 <= |s|
  {
  }

  // ----- which texts are accepted -----

  /** What a character adds to its token: a pad nothing, a foreign one -1. */
  function Value(c: byte): (v: int)
    ensures -1 <= v < 64
  {
    if c == PAD then 0 else Pos(c)
  }

  /** The value of a token before it is cut to 32 bits. */
  function Sum(s: seq<byte>, i: nat): int {
    ((Value(CharAt(s, i)) * 64 + Value(CharAt(s, i + 1))) * 64 + Value(CharAt(s, i + 2))) * 64 + Value(CharAt(s, i + 3))
  }

  /** Pads stand at the end, two at most. */
  predicate PadsLast(s: seq<byte>, i: nat) {
    CharAt(s, i) != PAD && CharAt(s, i + 1) != PAD && (CharAt(s, i + 2) == PAD ==> CharAt(s, i + 3) == PAD)
  }

  function Pads(s: seq<byte>, i: nat): nat {
    if CharAt(s, i + 3) != PAD then 0 else if CharAt(s, i + 2) != PAD then 1 else 2
  }

  predicate Whole(s: seq<byte>, i: nat) {
    CharAt(s, i) != 0 && CharAt(s, i + 1) != 0 && CharAt(s, i + 2) != 0 && CharAt(s, i + 3) != 0
  }

  lemma WrapSum(a: int, p: int)
    ensures (a % U32 * 64 + p) % U32 == (a * 64 + p) % U32
  {
    assert a * 64 + p == a % U32 * 64 + p + U32 * (a / U32 * 64);
  }

  /** One character of a token. */
  lemma TokenAt(s: seq<byte>, i: nat, k: nat, sum: int, marker: nat)
    requires k < 4
    ensures var c := CharAt(s, i + k);
            TokenFrom(s, i, k, sum % U32, marker)
            == if c != PAD && marker > 0 then None
               else TokenFrom(s, i, k + 1, (sum * 64 + Value(c)) % U32, if c == PAD then marker + 1 else marker)
  {
    hide Pos;
    WrapSum(sum, Value(CharAt(s, i + k)));
  }

  /** token_decode on any four characters: the sum in 32 bits with the number of pads above, or an error. */
  lemma TokenReads(s: seq<byte>, i: nat)
    ensures TokenDecode(s, i) == if Whole(s, i) && PadsLast(s, i) then OrMarker(Pads(s, i), Sum(s, i) % U32)
                                 else DECODE_ERROR
  {
    hide TokenFrom, OrMarker, Value;
    var c0, c1, c2, c3 := CharAt(s, i), CharAt(s, i + 1), CharAt(s, i + 2), CharAt(s, i + 3);
    var v1 := Value(c0);
    var v2 := v1 * 64 + Value(c1);
    var v3 := v2 * 64 + Value(c2);
    var m1 := if c0 == PAD then 1 else 0;
    var m2 := if c1 == PAD then m1 + 1 else m1;
    var m3 := if c2 == PAD then m2 + 1 else m2;
    TokenAt(s, i, 0, 0, 0);
    TokenAt(s, i, 1, v1, m1);
    TokenAt(s, i, 2, v2, m2);
    TokenAt(s, i, 3, v3, m3);
    TokenEnds(s, i, Sum(s, i) % U32, if c3 == PAD then m3 + 1 else m3);
  }

  lemma TokenEnds(s: seq<byte>, i: nat, val: nat, marker: nat)
    ensures TokenFrom(s, i, 4, val, marker) == Some((val, marker))
  {
  }

  lemma MarkerJoins(marker: nat, val: nat)
    requires marker <= 2
    ensures val < 0x100_0000 ==> OrMarker(marker, val) == marker * 0x100_0000 + val
    ensures 0xFF00_0000 <= val < U32 ==> OrMarker(marker, val) == val
  {
    if 0xFF00_0000 <= val < U32 { assert val / 0x100_0000 == 255; }
  }

  /** A token that starts in the alphabet; below zero the high byte reads as a marker of 255. */
  lemma TokenExact(s: seq<byte>, i: nat)
    requires Pos(CharAt(s, i)) >= 0
    ensures var sum := Sum(s, i);
            && -0x1_0000 < sum < 0x100_0000
            && TokenDecode(s, i)
               == if !Whole(s, i) || !PadsLast(s, i) then DECODE_ERROR
                  else if sum >= 0 then Pads(s, i) * 0x100_0000 + sum
                  else U32 + sum
  {
    hide Pos, OrMarker, TokenDecode;
    TokenReads(s, i);
    MarkerJoins(Pads(s, i), Sum(s, i) % U32);
  }

  /**
   Whether a token is accepted, by its characters: four of them, pads only last, and the sum not -1, as
   that is the error value in 32 bits.
   */
  predicate Accepted(s: seq<byte>, i: nat) {
    Whole(s, i) && PadsLast(s, i) && Sum(s, i) != -1
  }

  /** What an accepted token gives: its 24 bits less the padding, or one byte of 255 when the sum is negative. */
  function Meaning(s: seq<byte>, i: nat): (b: seq<byte>)
    ensures |b| <= 3
  {
    var sum := Sum(s, i);
    if sum < 0 then [255]
    else [sum / 0x1_0000 % 256, sum / 256 % 256, sum % 256][..3 - Pads(s, i)]
  }

  lemma TokenMeans(s: seq<byte>, i: nat)
    requires More(s, i)
    ensures TokenDecode(s, i) != DECODE_ERROR <==> Accepted(s, i)
    ensures Accepted(s, i) ==> TokenBytes(TokenDecode(s, i)) == Meaning(s, i)
  {
    hide Pos, Sum, TokenDecode;
    if CharAt(s, i) == PAD {
      TokenReads(s, i);
    } else {
      TokenExact(s, i);
      if Accepted(s, i) {
        if Sum(s, i) < 0 { NegativeByte(Sum(s, i)); } else { MeaningBytes(Sum(s, i), Pads(s, i)); }
      }
    }
  }

  lemma NegativeByte(sum: int)
    requires -0x1_0000 < sum < 0
    ensures TokenBytes(U32 + sum) == [255]
  {
    assert (U32 + sum) / 0x1_0000 == 0xFFFF;
    assert (U32 + sum) / 0x100_0000 == 0xFF;
  }

  lemma MeaningBytes(sum: nat, pads: nat)
    requires sum < 0x100_0000 && pads <= 2
    ensures TokenBytes(pads * 0x100_0000 + sum) == [sum / 0x1_0000 % 256, sum / 256 % 256, sum % 256][..3 - pads]
  {
    var hi, mid, lo := sum / 0x1_0000, sum / 256 % 256, sum % 256;
    assert sum == (hi * 256 + mid) * 256 + lo;
    OctetsOf(hi, mid, lo, pads);
  }

  /** Tokens from character `i` on: the first that does not start in the alphabet or with a pad ends the text. */
  function Tokens(s: seq<byte>, i: nat): nat
    decreases |s| - i
  {
    if More(s, i) then 1 + Tokens(s, i + 4) else 0
  }

  function Meanings(s: seq<byte>, i: nat): seq<byte>
    decreases |s| - i
  {
    if More(s, i) then Meaning(s, i) + Meanings(s, i + 4) else []
  }

  ghost predicate AllAccepted(s: seq<byte>, i: nat) {
    forall k :: 0 <= k < Tokens(s, i) ==> Accepted(s, i + 4 * k)
  }

  lemma AllAcceptedStep(s: seq<byte>, i: nat)
    requires More(s, i)
    ensures AllAccepted(s, i) <==> Accepted(s, i) && AllAccepted(s, i + 4)
  {
    hide Accepted, More;
    assert Accepted(s, i + 4 * 0) == Accepted(s, i);
    if Accepted(s, i) && AllAccepted(s, i + 4) {
      forall k | 0 <= k < Tokens(s, i) ensures Accepted(s, i + 4 * k) {
        if k > 0 { assert Accepted(s, i + 4 + 4 * (k - 1)); }
      }
    }
    if AllAccepted(s, i) {
      forall k | 0 <= k < Tokens(s, i + 4) ensures Accepted(s, i + 4 + 4 * k) {
        assert Accepted(s, i + 4 * (k + 1));
      }
    }
  }

  lemma {:induction false} DecodesExactlyFrom(s: seq<byte>, i: nat, size: int, out: seq<byte>)
    requires size >= 0 ==> |out| <= size
    ensures DecodeFrom(s, i, size, out)
         == if AllAccepted(s, i) && (size < 0 || |out + Meanings(s, i)| <= size) then Some(out + Meanings(s, i))
            else None
    decreases |s| - i
  {
    hide More, TokenDecode, TokenBytes, Accepted, Meaning, AllAccepted;
    if More(s, i) {
      TokenMeans(s, i);
      AllAcceptedStep(s, i);
      MoreInside(s, i);
      var out' := out + Meaning(s, i);
      assert out + Meanings(s, i) == out' + Meanings(s, i + 4);
      if size < 0 || |out'| <= size { DecodesExactlyFrom(s, i + 4, size, out'); }
    } else {
      NoTokens(s, i);
      assert out + Meanings(s, i) == out;
    }
  }

  lemma NoTokens(s: seq<byte>, i: nat)
    requires !More(s, i)
    ensures AllAccepted(s, i)
  {
  }

  /** Decoding any text, by its characters: all tokens accepted and room for what they mean, or -1. */
  lemma DecodesExactly(s: seq<byte>, size: int)
    ensures Decode(s, size) == if AllAccepted(s, 0) && (size < 0 || |Meanings(s, 0)| <= size) then Some(Meanings(s, 0))
                               else None
  {
    DecodesExactlyFrom(s, 0, size, []);
    assert [] + Meanings(s, 0) == Meanings(s, 0);
  }

  // ----- round trip -----

  lemma DivideAgain(c: nat, m: nat)
    requires m == 64 || m == 0x1000
    ensures c / m / 64 == c / (m * 64)
  {
  }

  lemma DigitsOfGroup(c: nat)
    requires c < 0x100_0000
    ensures ((Digit(c, 0) * 64 + Digit(c, 1)) * 64 + Digit(c, 2)) * 64 + Digit(c, 3) == c
  {
    var c1, c2, c3 := c / 64, c / 0x1000, c / 0x4_0000;
    DivideAgain(c, 64);
    DivideAgain(c, 0x1000);
    assert c == c1 * 64 + Digit(c, 3);
    assert c1 == c2 * 64 + Digit(c, 2);
    assert c2 == c3 * 64 + Digit(c, 1);
    assert c3 == Digit(c, 0);
  }

  lemma CharDecodes(d: nat)
    requires d < 64
    ensures Pos(CharOf(d)) == d
  {
  }

  /** Reading a whole token: what the four characters contribute. */
  lemma TokenOfFour(s: seq<byte>, i: nat, d0: nat, d1: nat, d2: nat, d3: nat, pads: nat)
    requires i + 4 <= |s| && d0 < 64 && d1 < 64 && d2 < 64 && d3 < 64 && pads <= 2
    requires s[i] == CharOf(d0) && s[i + 1] == CharOf(d1)
    requires s[i + 2] == (if pads == 2 then PAD else CharOf(d2)) && (pads == 2 ==> d2 == 0)
    requires s[i + 3] == (if pads >= 1 then PAD else CharOf(d3)) && (pads >= 1 ==> d3 == 0)
    ensures More(s, i)
    ensures TokenDecode(s, i) == pads * 0x100_0000 + (((d0 * 64 + d1) * 64 + d2) * 64 + d3)
  {
    hide CharOf, Pos, TokenDecode;
    CharDecodes(d0);
    CharDecodes(d1);
    CharDecodes(d2);
    CharDecodes(d3);
    TokenExact(s, i);
  }

  /** The token of a quad gives back its bytes. */
  lemma QuadDecodes(data: seq<byte>, i: nat, s: seq<byte>, j: nat)
    requires i < |data| && j + 4 <= |s| && s[j..j + 4] == Quad(data, i)
    ensures var n := if i + 3 <= |data| then i + 3 else |data|;
            && More(s, j) && TokenDecode(s, j) != DECODE_ERROR && TokenBytes(TokenDecode(s, j)) == data[i..n]
  {
    hide CharOf, TokenDecode, More, Group, TokenBytes, Digit;
    var c := Group(data, i);
    assert s[j] == s[j..j + 4][0] && s[j + 1] == s[j..j + 4][1];
    assert s[j + 2] == s[j..j + 4][2] && s[j + 3] == s[j..j + 4][3];
    var pads := if i + 1 >= |data| then 2 else if i + 2 >= |data| then 1 else 0;
    PaddedDigits(data, i);
    TokenOfFour(s, j, Digit(c, 0), Digit(c, 1), Digit(c, 2), Digit(c, 3), pads);
    DigitsOfGroup(c);
    GroupBytes(data, i, pads);
  }

  lemma PaddedDigits(data: seq<byte>, i: nat)
    requires i < |data|
    ensures i + 2 >= |data| ==> Digit(Group(data, i), 3) == 0
    ensures i + 1 >= |data| ==> Digit(Group(data, i), 2) == 0
  {
    if i + 2 >= |data| { LowDigits(data[i], if i + 1 < |data| then data[i + 1] else 0); }
  }

  lemma LowDigits(a: byte, b: byte)
    ensures (a as int * 256 + b as int) * 256 % 64 == 0
    ensures a as int * 256 * 256 / 64 % 64 == 0
  {
    assert (a as int * 256 + b as int) * 256 == 64 * ((a as int * 256 + b as int) * 4);
    assert a as int * 256 * 256 == 64 * (a as int * 16 * 64);
  }

  lemma OctetsOf(a: byte, b: byte, c: byte, pads: nat)
    requires pads <= 2
    ensures var val := pads * 0x100_0000 + (a as int * 256 + b as int) * 256 + c as int;
            && val < DECODE_ERROR && val / 0x100_0000 % 256 == pads
            && val / 0x1_0000 % 256 == a && val / 256 % 256 == b && val % 256 == c
  {
    var val := pads * 0x100_0000 + (a as int * 256 + b as int) * 256 + c as int;
    assert val / 256 == pads * 0x1_0000 + a as int * 256 + b as int;
    assert val / 0x1_0000 == pads * 256 + a as int;
    assert val / 0x100_0000 == pads;
  }

  lemma GroupBytes(data: seq<byte>, i: nat, pads: nat)
    requires i < |data| && pads == if i + 1 >= |data| then 2 else if i + 2 >= |data| then 1 else 0
    ensures var val := pads * 0x100_0000 + Group(data, i);
            val < DECODE_ERROR && TokenBytes(val) == data[i..i + 3 - pads]
  {
    OctetsOf(data[i], if i + 1 < |data| then data[i + 1] else 0, if i + 2 < |data| then data[i + 2] else 0, pads);
  }

  /** Decoding from any quad on appends the rest of the data, as far as the buffer has room. */
  lemma {:induction false} DecodeInverts(data: seq<byte>, i: nat, s: seq<byte>, j: nat, size: int, out: seq<byte>)
    requires i <= |data| && j <= |s| && s[j..] == EncodeFrom(data, i) && (size >= 0 ==> |out| <= size)
    ensures DecodeFrom(s, j, size, out)
         == if size >= 0 && |out| + |data| - i > size then None else Some(out + data[i..])
    decreases |data| - i
  {
    if i == |data| {
      assert out + data[i..] == out;
    } else {
      hide Quad, TokenDecode, More, TokenBytes;
      var n := if i + 3 <= |data| then i + 3 else |data|;
      assert s[j..j + 4] == s[j..][..4] == Quad(data, i);
      QuadDecodes(data, i, s, j);
      assert out + data[i..] == (out + data[i..n]) + data[n..];
      if size < 0 || |out| + (n - i) <= size {
        EncodeBeyond(data, i);
        assert s[j + 4..] == s[j..][4..] == EncodeFrom(data, n);
        DecodeInverts(data, n, s, j + 4, size, out + data[i..n]);
      }
    }
  }

  lemma EncodeBeyond(data: seq<byte>, i: nat)
    requires i < |data|
    ensures EncodeFrom(data, i + 3) == EncodeFrom(data, if i + 3 <= |data| then i + 3 else |data|)
  {
  }

  /** Base64 round trip: into a buffer with room the same bytes, into a smaller one -1. */
  lemma RoundTrip(data: seq<byte>, size: int)
    ensures Decode(Encode(data), size) == if size >= 0 && |data| > size then None else Some(data)
  {
    assert Encode(data)[0..] == EncodeFrom(data, 0);
    DecodeInverts(data, 0, Encode(data), 0, size, []);
    assert [] + data[0..] == data;
  }

  /** Base64 splits where three bytes do. */
  lemma {:induction false} EncodeSplits(a: seq<byte>, b: seq<byte>, i: nat)
    requires |a| % 3 == 0 && i % 3 == 0 && i <= |a|
    ensures EncodeFrom(a + b, i) == EncodeFrom(a, i) + Encode(b)
    decreases |a| - i
  {
    if i == |a| {
      EncodeShift(a, b, 0);
    } else {
      hide Quad;
      QuadOfPrefix(a, b, i);
      EncodeSplits(a, b, i + 3);
      assert Quad(a, i) + (EncodeFrom(a, i + 3) + Encode(b)) == (Quad(a, i) + EncodeFrom(a, i + 3)) + Encode(b);
    }
  }

  lemma QuadOfPrefix(a: seq<byte>, b: seq<byte>, i: nat)
    requires i + 3 <= |a|
    ensures Quad(a + b, i) == Quad(a, i)
  {
  }

  lemma {:induction false} EncodeShift(a: seq<byte>, b: seq<byte>, i: nat)
    ensures EncodeFrom(a + b, |a| + i) == EncodeFrom(b, i)
    decreases |b| - i
  {
    if i < |b| {
      hide CharOf, Digit;
      assert Quad(a + b, |a| + i) == Quad(b, i);
      EncodeShift(a, b, i + 3);
    }
  }

  /** What is decoded is appended, at most three bytes for each whole token. */
  lemma {:induction false} DecodeGrows(s: seq<byte>, i: nat, size: int, out: seq<byte>)
    requires i <= |s|
    ensures var d := DecodeFrom(s, i, size, out);
            d.Some? ==> out <= d.value && |d.value| <= |out| + (|s| - i) / 4 * 3
    decreases |s| - i
  {
    hide TokenDecode, More, TokenBytes;
    if More(s, i) && TokenDecode(s, i) != DECODE_ERROR {
      TokenInside(s, i);
      var out' := out + TokenBytes(TokenDecode(s, i));
      DecodeGrows(s, i + 4, size, out');
    }
  }

  lemma TokenOfSlice(s: seq<byte>, a: nat, t: seq<byte>, j: nat)
    requires a + |t| <= |s| && t == s[a..a + |t|] && j + 4 <= |t|
    ensures TokenDecode(s, a + j) == TokenDecode(t, j) && More(s, a + j) == More(t, j)
  {
    hide Pos, OrMarker, TokenStep;
    assert forall k {:trigger t[k]} :: 0 <= k < |t| ==> t[k] == s[a + k];
    assert CharAt(s, a + j) == CharAt(t, j);
    assert CharAt(s, a + j + 1) == CharAt(t, j + 1);
    assert CharAt(s, a + j + 2) == CharAt(t, j + 2);
    assert CharAt(s, a + j + 3) == CharAt(t, j + 3);
    TokenFromSlice(s, a, t, j, 0, 0, 0);
  }

  lemma {:induction false} TokenFromSlice(s: seq<byte>, a: nat, t: seq<byte>, j: nat, k: nat, val: nat, marker: nat)
    requires a + |t| <= |s| && t == s[a..a + |t|] && j + 4 <= |t| && k <= 4
    ensures TokenFrom(s, a + j, k, val, marker) == TokenFrom(t, j, k, val, marker)
    decreases 4 - k
  {
    if k < 4 {
      hide TokenStep;
      assert t[j + k] == s[a + (j + k)];
      var step := TokenStep(val, marker, t[j + k]);
      if step.Some? { TokenFromSlice(s, a, t, j, k + 1, step.value.0, step.value.1); }
    }
  }

  /** A slice that decodes to three bytes for every four characters decodes to the same inside the text. */
  lemma {:induction false} DecodeSlice(s: seq<byte>, a: nat, t: seq<byte>, j: nat, small: int, acc: seq<byte>,
                                       big: int, out: seq<byte>)
    requires a + |t| <= |s| && t == s[a..a + |t|] && |t| % 4 == 0 && j % 4 == 0 && j <= |t|
    requires var d := DecodeFrom(t, j, small, acc);
             d.Some? && |d.value| == |acc| + (|t| - j) / 4 * 3 && |out| + |d.value| - |acc| <= big
    ensures var r := DecodeFrom(t, j, small, acc).value;
            |r| >= |acc| && DecodeFrom(s, a + j, big, out) == DecodeFrom(s, a + |t|, big, out + r[|acc|..])
    decreases |t| - j
  {
    hide TokenDecode, More, TokenBytes;
    var r := DecodeFrom(t, j, small, acc).value;
    if j == |t| {
      NoneLeft(t);
      assert out + r[|acc|..] == out;
    } else {
      TokenOfSlice(s, a, t, j);
      var b := TokenBytes(TokenDecode(t, j));
      DecodeGrows(t, j, small, acc);
      DecodeGrows(t, j + 4, small, acc + b);
      DecodeSlice(s, a, t, j + 4, small, acc + b, big, out + b);
      assert r == (acc + b) + r[|acc + b|..];
      assert out + r[|acc|..] == (out + b) + r[|acc + b|..];
    }
  }

  lemma NoneLeft(t: seq<byte>)
    ensures !More(t, |t|)
  {
  }

  predicate Foreign(c: byte) {
    c != 0 && c != PAD && Pos(c) < 0
  }

  /**
   A foreign character inside a token is rejected exactly in the tokens AAAx, AAx/ and Ax// (x foreign);
   in any other it is taken for -1.
   */
  lemma ForeignInToken(s: seq<byte>, i: nat)
    requires More(s, i) && Whole(s, i) && PadsLast(s, i)
    requires Foreign(CharAt(s, i + 1)) || Foreign(CharAt(s, i + 2)) || Foreign(CharAt(s, i + 3))
    ensures TokenDecode(s, i) == DECODE_ERROR <==>
            && CharAt(s, i) == CharOf(0)
            && (|| (CharAt(s, i + 1) == CharAt(s, i + 2) == CharOf(0))
                || (CharAt(s, i + 1) == CharOf(0) && Foreign(CharAt(s, i + 2)) && CharAt(s, i + 3) == CharOf(63))
                || (Foreign(CharAt(s, i + 1)) && CharAt(s, i + 2) == CharAt(s, i + 3) == CharOf(63)))
  {
    hide TokenDecode;
    TokenMeans(s, i);
  }

  /** So two texts that differ in one digit before the same foreign character fare differently. */
  lemma BadCharacterAccepted()
    ensures Foreign(33) && Decode([65, 65, 66, 33], 3) == Some([0, 0, 63]) && Decode([65, 65, 65, 33], 3) == None
  {
    assert Value(65) == 0 && Value(66) == 1 && Value(33) == -1;
    hide Value, Pos, Decode, Meaning;
    var s: seq<byte>, t: seq<byte> := [65, 65, 66, 33], [65, 65, 65, 33];
    assert Sum(s, 0) == 63 && Pads(s, 0) == 0 && Sum(t, 0) == -1;
    OneToken(s, 3);
    OneToken(t, 3);
    hide Sum, Pads;
    ThreeBytes(s, 0);
  }

  lemma ThreeBytes(s: seq<byte>, i: nat)
    requires Sum(s, i) == 63 && Pads(s, i) == 0
    ensures Meaning(s, i) == [0, 0, 63]
  {
    hide Sum, Pads;
  }

  lemma OneToken(s: seq<byte>, size: nat)
    requires |s| == 4 && More(s, 0)
    ensures Decode(s, size)
         == if Accepted(s, 0) && |Meaning(s, 0)| <= size then Some(Meaning(s, 0)) else None
  {
    hide TokenDecode, TokenBytes, Accepted, Meaning;
    TokenMeans(s, 0);
    var out: seq<byte> := [];
    assert out + Meaning(s, 0) == Meaning(s, 0);
    NoneLeft(s);
    assert DecodeFrom(s, 4, size, Meaning(s, 0)) == Some(Meaning(s, 0));
  }

  /** A foreign character where a token would start ends the text: what stands there is not looked at. */
  lemma {:induction false} ForeignEnds(t: seq<byte>, tail: seq<byte>, j: nat, size: int, out: seq<byte>)
    requires |t| % 4 == 0 && j % 4 == 0 && j <= |t| && tail != [] && Foreign(tail[0])
    ensures DecodeFrom(t + tail, j, size, out) == DecodeFrom(t, j, size, out)
    decreases |t| - j
  {
    hide TokenDecode, TokenBytes;
    if j < |t| {
      hide More;
      assert t == (t + tail)[0..|t|];
      TokenOfSlice(t + tail, 0, t, j);
      if More(t, j) && TokenDecode(t, j) != DECODE_ERROR {
        ForeignEnds(t, tail, j + 4, size, out + TokenBytes(TokenDecode(t, j)));
      }
    }
  }
}
