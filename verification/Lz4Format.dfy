/**
 The LZ4 block format as data: blocks, their byte image, the reference reading of any byte string,
 and the end-of-block restrictions that a conforming block keeps.
 */
module Lz4Format {
  import opened Bytes

  const MINMATCH: nat := 4
  const LASTLITERALS: nat := 5
  const MFLIMIT: nat := 12
  const RUN_MASK: nat := 15
  const ML_MASK: nat := 15
  const DISTANCE_MAX: nat := 65535
  const MAX_INPUT_SIZE: nat := 0x7E000000

  /** LZ4_COMPRESSBOUND: zero stands for an unsupported size. */
  function CompressBound(n: nat): nat {
    if n > MAX_INPUT_SIZE then 0 else n + n / 255 + 16
  }

  datatype Sequence = Sequence(literals: seq<byte>, offset: nat, matchLen: nat)
  datatype Block = Block(sequences: seq<Sequence>, last: seq<byte>)

  // ----- byte image of a block -----

  function Nibble(n: nat): byte {
    if n < 15 then n else 15
  }

  function LengthTail(n: nat): seq<byte> {
    if n < 255 then [n] else [255] + LengthTail(n - 255)
  }

  /** The bytes a length adds after its nibble in the token. */
  function LengthBytes(n: nat): seq<byte> {
    if n < 15 then [] else LengthTail(n - 15)
  }

  /** How many bytes `LengthBytes(n)` has. */
  function ExtraBytes(n: nat): nat {
    if n < 15 then 0 else (n - 15) / 255 + 1
  }

  lemma {:induction false} LengthTailSize(n: nat)
    ensures |LengthTail(n)| == n / 255 + 1
  {
    if n >= 255 { LengthTailSize(n - 255); }
  }

  /** A length tail is a run of 255s and a closing byte. */
  lemma {:induction false} LengthTailForm(n: nat)
    ensures LengthTail(n) == Fill(255, n / 255) + [n % 255]
  {
    if n >= 255 {
      LengthTailForm(n - 255);
      assert (n - 255) / 255 == n / 255 - 1 && (n - 255) % 255 == n % 255;
      assert Fill(255, n / 255) == [255] + Fill(255, n / 255 - 1);
    }
  }

  function Token(literals: nat, matchCode: nat): byte {
    Nibble(literals) * 16 + Nibble(matchCode)
  }

  function SequenceHead(s: Sequence): seq<byte>
    requires s.matchLen >= MINMATCH
  {
    [Token(|s.literals|, s.matchLen - MINMATCH)] + LengthBytes(|s.literals|) + s.literals
  }

  function SequenceBytes(s: Sequence): seq<byte>
    requires s.matchLen >= MINMATCH && s.offset <= DISTANCE_MAX
  {
    SequenceHead(s) + [s.offset % 256, s.offset / 256] + LengthBytes(s.matchLen - MINMATCH)
  }

  function LastBytes(last: seq<byte>): seq<byte> {
    [Nibble(|last|) * 16] + LengthBytes(|last|) + last
  }

  ghost predicate Encodable(ss: seq<Sequence>) {
    forall k :: 0 <= k < |ss| ==> ss[k].matchLen >= MINMATCH && ss[k].offset <= DISTANCE_MAX
  }

  function SequencesBytes(ss: seq<Sequence>): seq<byte>
    requires Encodable(ss)
  {
    if ss == [] then [] else SequencesBytes(ss[..|ss| - 1]) + SequenceBytes(ss[|ss| - 1])
  }

  function BlockBytes(b: Block): seq<byte>
    requires Encodable(b.sequences)
  {
    SequencesBytes(b.sequences) + LastBytes(b.last)
  }

  // ----- what a block stands for -----

  /** Append `len` bytes, each a copy of the byte `offset` back; offset 0 appends zeros. */
  function CopyMatch(out: seq<byte>, offset: nat, len: nat): (r: seq<byte>)
    requires offset <= |out|
    ensures |r| == |out| + len
  {
    if len == 0 then out
    else
      var r := CopyMatch(out, offset, len - 1);
      r + [NextByte(r, offset)]
  }

  /** The byte at that distance from the end; offset 0 reads as 0. */
  function NextByte(out: seq<byte>, offset: nat): byte
    requires offset <= |out|
  {
    if offset == 0 then 0 else out[|out| - offset]
  }

  /** `after` extends `before` by `len` bytes that repeat with period `offset`. */
  ghost predicate Repeats(before: seq<byte>, after: seq<byte>, offset: nat, len: nat)
    requires offset <= |before|
  {
    && |after| == |before| + len
    && after[..|before|] == before
    && forall k :: |before| <= k < |after| ==> after[k] == if offset == 0 then 0 else after[k - offset]
  }

  /** One byte more or less of the repetition. */
  lemma RepeatsStep(before: seq<byte>, after: seq<byte>, offset: nat, len: nat)
    requires offset <= |before| && len > 0 && |after| == |before| + len
    ensures var n := |after| - 1;
            && after == after[..n] + [after[n]]
            && (Repeats(before, after, offset, len) <==>
                  Repeats(before, after[..n], offset, len - 1) && after[n] == NextByte(after[..n], offset))
  {
    var n := |after| - 1;
    assert after[..n][..|before|] == after[..|before|];
  }

  /** The periodic extension is exactly the byte-by-byte match copy. */
  lemma {:induction false} RepeatsIsCopyMatch(before: seq<byte>, after: seq<byte>, offset: nat, len: nat)
    requires offset <= |before|
    ensures Repeats(before, after, offset, len) <==> after == CopyMatch(before, offset, len)
    decreases len
  {
    if len == 0 {
      if Repeats(before, after, offset, len) { assert after == after[..|before|]; }
    } else if |after| == |before| + len {
      var n := |after| - 1;
      RepeatsStep(before, after, offset, len);
      RepeatsIsCopyMatch(before, after[..n], offset, len - 1);
      hide Repeats;
      var c := CopyMatch(before, offset, len - 1);
      assert (c + [NextByte(c, offset)])[..n] == c;
    }
  }

  /** Bytes produced by the sequences, starting from an empty output. */
  function Expand(ss: seq<Sequence>): seq<byte>
    requires Distances(ss)
    ensures |Expand(ss)| == OutputSize(ss)
  {
    if ss == [] then []
    else
      var s := ss[|ss| - 1];
      CopyMatch(Expand(ss[..|ss| - 1]) + s.literals, s.offset, s.matchLen)
  }

  function OutputSize(ss: seq<Sequence>): nat {
    if ss == [] then 0
    else OutputSize(ss[..|ss| - 1]) + |ss[|ss| - 1].literals| + ss[|ss| - 1].matchLen
  }

  /** Every match starts inside the output produced so far. */
  ghost predicate Distances(ss: seq<Sequence>) {
    ss == [] ||
    var s := ss[|ss| - 1];
    Distances(ss[..|ss| - 1]) && s.offset <= OutputSize(ss[..|ss| - 1]) + |s.literals|
  }

  /** Format limits of one sequence, and its distance to the end of a block of `total` output bytes. */
  ghost predicate SequenceFits(s: Sequence, start: nat, total: nat) {
    && MINMATCH <= s.matchLen
    && 1 <= s.offset <= DISTANCE_MAX
    && s.offset <= start + |s.literals|
    && start + |s.literals| + MFLIMIT <= total
    && start + |s.literals| + s.matchLen + LASTLITERALS <= total
  }

  /** Conforming sequences of a block of `total` bytes, the way an encoder builds them up. */
  ghost predicate Conforming(ss: seq<Sequence>, total: nat)
    ensures Conforming(ss, total) ==> Encodable(ss) && Distances(ss)
    ensures Conforming(ss, total) && ss != [] ==> OutputSize(ss) + LASTLITERALS <= total
  {
    ss == [] ||
    (Conforming(ss[..|ss| - 1], total) && SequenceFits(ss[|ss| - 1], OutputSize(ss[..|ss| - 1]), total))
  }

  function BlockOutput(b: Block): seq<byte>
    requires Distances(b.sequences)
  {
    Expand(b.sequences) + b.last
  }

  ghost predicate ConformingBlock(b: Block) {
    Conforming(b.sequences, OutputSize(b.sequences) + |b.last|)
  }

  // ----- reading arbitrary bytes -----

  function Le16(lo: byte, hi: byte): nat {
    (lo as int) + 256 * (hi as int)
  }

  datatype LengthRead = Truncated | Length(value: nat, next: nat)

  function ReadTail(src: seq<byte>, i: nat): (r: LengthRead)
    ensures r.Length? ==> i < r.next <= |src| && r.value <= 255 * (r.next - i)
    decreases |src| - i
  {
    if i >= |src| then Truncated
    else if src[i] == 255 then
      match ReadTail(src, i + 1)
      case Truncated => Truncated
      case Length(v, n) => Length(v + 255, n)
    else Length(src[i], i + 1)
  }

  /** Skipping a run of 255s adds 255 for each. */
  lemma {:induction false} ReadTailRun(src: seq<byte>, i: nat, j: nat)
    requires i <= j <= |src| && forall k :: i <= k < j ==> src[k] == 255
    ensures ReadTail(src, i) == match ReadTail(src, j)
                                case Truncated => Truncated
                                case Length(v, n) => Length(v + 255 * (j - i), n)
    decreases j - i
  {
    if i < j { ReadTailRun(src, i + 1, j); }
  }

  function ReadLength(src: seq<byte>, i: nat, nibble: nat): (r: LengthRead)
    ensures r.Length? ==> i <= r.next && (r.next <= |src| || r.next == i)
    ensures r.Length? ==> r.value <= 15 + 255 * (r.next - i)
  {
    if nibble < 15 then Length(nibble, i)
    else
      match ReadTail(src, i)
      case Truncated => Truncated
      case Length(v, n) => Length(v + 15, n)
  }

  /** What stands at an input position: nothing readable, the closing literals, or a full sequence. */
  datatype Parsed =
    | Malformed
    | Final(matchNibble: nat, litStart: nat)
    | Full(litStart: nat, litEnd: nat, offset: nat, matchLen: nat, next: nat)

  /** Literals that reach the end of the input close the block. */
  function ParseSequence(src: seq<byte>, i: nat): (r: Parsed)
    ensures r.Final? ==> i < r.litStart <= |src|
    ensures r.Full? ==> i < r.litStart <= r.litEnd && r.litEnd + 2 <= r.next <= |src| && r.matchLen >= MINMATCH
  {
    if i >= |src| then Malformed
    else
      var lits := ReadLength(src, i + 1, src[i] / 16);
      if lits.Truncated? || lits.next + lits.value > |src| then Malformed
      else
        var p := lits.next + lits.value;
        if p == |src| then Final(src[i] % 16, lits.next)
        else if p + 2 > |src| then Malformed
        else
          var ml := ReadLength(src, p + 2, src[i] % 16);
          if ml.Truncated? then Malformed
          else Full(lits.next, p, Le16(src[p], src[p + 1]), ml.value + MINMATCH, ml.next)
  }

  /** The reference reading: `out` is what the bytes before `i` produced. */
  function DecodeFrom(src: seq<byte>, i: nat, out: seq<byte>): Option<seq<byte>>
    decreases |src| - i
  {
    match ParseSequence(src, i)
    case Malformed => None
    case Final(_, litStart) => Some(out + src[litStart..])
    case Full(litStart, litEnd, offset, matchLen, next) =>
      var out1 := out + src[litStart..litEnd];
      if offset > |out1| then None else DecodeFrom(src, next, CopyMatch(out1, offset, matchLen))
  }

  function Decode(src: seq<byte>): Option<seq<byte>> {
    DecodeFrom(src, 0, [])
  }

  /**
   The end-of-block restrictions, read off the bytes: from input position `i` with `o` bytes already
   produced, every match starts 12 and ends 5 bytes before the end of the `total` output bytes, and a
   block with matches ends in at least five literals.
   */
  ghost predicate StrictFrom(src: seq<byte>, i: nat, o: nat, total: nat)
    decreases |src| - i
  {
    match ParseSequence(src, i)
    case Malformed => false
    case Final(matchNibble, litStart) =>
      var n := |src| - litStart;
      o + n == total && matchNibble == 0 && (i > 0 ==> n >= LASTLITERALS)
    case Full(litStart, litEnd, offset, matchLen, next) =>
      var o1 := o + litEnd - litStart;
      && offset <= o1
      && o1 + MFLIMIT <= total && o1 + matchLen + LASTLITERALS <= total
      && StrictFrom(src, next, o1 + matchLen, total)
  }

  /** A block that conforms to the format's end-of-block restrictions. */
  ghost predicate WellFormed(src: seq<byte>) {
    Decode(src).Some? && StrictFrom(src, 0, 0, |Decode(src).value|)
  }

  /** After a match there are at least a token and five literals to read. */
  lemma {:induction false} StrictTailRoom(src: seq<byte>, i: nat, o: nat, total: nat)
    requires 0 < i && StrictFrom(src, i, o, total)
    ensures i + 1 + LASTLITERALS <= |src|
    decreases |src| - i
  {
    match ParseSequence(src, i)
    case Final(_, _) =>
    case Full(litStart, litEnd, offset, matchLen, next) =>
      StrictTailRoom(src, next, o + litEnd - litStart + matchLen, total);
  }

  /** A strict reading always succeeds, and produces `total` bytes. */
  lemma {:induction false} StrictDecodes(src: seq<byte>, i: nat, out: seq<byte>, total: nat)
    requires StrictFrom(src, i, |out|, total)
    ensures DecodeFrom(src, i, out).Some? && |DecodeFrom(src, i, out).value| == total
    decreases |src| - i
  {
    match ParseSequence(src, i)
    case Final(_, _) =>
    case Full(litStart, litEnd, offset, matchLen, next) =>
      StrictDecodes(src, next, CopyMatch(out + src[litStart..litEnd], offset, matchLen), total);
  }

  // ----- reading back the byte image -----

  /** `part` occurs in `src` at position `i`. */
  ghost predicate At(src: seq<byte>, i: nat, part: seq<byte>) {
    i + |part| <= |src| && src[i..i + |part|] == part
  }

  lemma AtIndex(src: seq<byte>, i: nat, part: seq<byte>, k: nat)
    requires At(src, i, part) && k < |part|
    ensures i + k < |src| && src[i + k] == part[k]
  {
    assert src[i..i + |part|][k] == part[k];
  }

  lemma AtSlice(src: seq<byte>, i: nat, part: seq<byte>)
    requires At(src, i, part)
    ensures i + |part| <= |src| && src[i..i + |part|] == part
  {
  }

  lemma AtSplit(src: seq<byte>, i: nat, a: seq<byte>, b: seq<byte>)
    requires At(src, i, a + b)
    ensures At(src, i, a) && At(src, i + |a|, b)
  {
    var j := i + |a|;
    assert src[i..i + |a + b|][..|a|] == src[i..j];
    assert src[i..i + |a + b|][|a|..] == src[j..j + |b|];
    assert (a + b)[..|a|] == a && (a + b)[|a|..] == b;
  }

  lemma {:induction false} ReadTailInverts(src: seq<byte>, i: nat, n: nat)
    requires At(src, i, LengthTail(n))
    ensures ReadTail(src, i) == Length(n, i + |LengthTail(n)|)
    decreases n
  {
    if n < 255 {
      assert src[i] == src[i..i + 1][0];
    } else {
      AtSplit(src, i, [255], LengthTail(n - 255));
      assert src[i] == src[i..i + 1][0];
      ReadTailInverts(src, i + 1, n - 255);
    }
  }

  lemma ReadLengthInverts(src: seq<byte>, i: nat, n: nat)
    requires At(src, i, LengthBytes(n))
    ensures ReadLength(src, i, Nibble(n)) == Length(n, i + |LengthBytes(n)|)
  {
    if n >= 15 { ReadTailInverts(src, i, n - 15); }
  }

  /** Where the parts of a written sequence stand. */
  lemma SequenceParts(src: seq<byte>, i: nat, s: Sequence)
    requires s.matchLen >= MINMATCH && s.offset <= DISTANCE_MAX && At(src, i, SequenceBytes(s))
    ensures var n, m := |s.literals|, s.matchLen - MINMATCH;
            var lit := i + 1 + |LengthBytes(n)|;
            && At(src, i, [Token(n, m)]) && At(src, i + 1, LengthBytes(n)) && At(src, lit, s.literals)
            && At(src, lit + n, [s.offset % 256, s.offset / 256]) && At(src, lit + n + 2, LengthBytes(m))
            && i + |SequenceBytes(s)| == lit + n + 2 + |LengthBytes(m)|
  {
    hide LengthBytes, Token;
    var n, m := |s.literals|, s.matchLen - MINMATCH;
    var token: seq<byte> := [Token(n, m)];
    var nl, ml := LengthBytes(n), LengthBytes(m);
    var offset: seq<byte> := [s.offset % 256, s.offset / 256];
    AtSplit(src, i, token + nl + s.literals + offset, ml);
    AtSplit(src, i, token + nl + s.literals, offset);
    AtSplit(src, i, token + nl, s.literals);
    AtSplit(src, i, token, nl);
  }

  lemma TokenNibbles(n: nat, m: nat)
    ensures Token(n, m) / 16 == Nibble(n) && Token(n, m) % 16 == Nibble(m)
  {
  }

  /** Reading one sequence's bytes undoes writing them. */
  lemma ParseInverts(src: seq<byte>, i: nat, s: Sequence)
    requires s.matchLen >= MINMATCH && s.offset <= DISTANCE_MAX && At(src, i, SequenceBytes(s))
    ensures var lit := i + 1 + |LengthBytes(|s.literals|)|;
            && lit + |s.literals| <= |src|
            && src[lit..lit + |s.literals|] == s.literals
            && ParseSequence(src, i)
               == Full(lit, lit + |s.literals|, s.offset, s.matchLen, i + |SequenceBytes(s)|)
  {
    hide LengthBytes, ReadLength, SequenceBytes, At, Token, Nibble;
    var n, m := |s.literals|, s.matchLen - MINMATCH;
    var lit := i + 1 + |LengthBytes(n)|;
    var p := lit + n;
    SequenceParts(src, i, s);
    AtSlice(src, lit, s.literals);
    assert src[i] == Token(n, m) by { AtIndex(src, i, [Token(n, m)], 0); }
    TokenNibbles(n, m);
    assert ReadLength(src, i + 1, Nibble(n)) == Length(n, lit) by { ReadLengthInverts(src, i + 1, n); }
    assert Le16(src[p], src[p + 1]) == s.offset by {
      AtIndex(src, p, [s.offset % 256, s.offset / 256], 0);
      AtIndex(src, p, [s.offset % 256, s.offset / 256], 1);
    }
    var next := i + |SequenceBytes(s)|;
    assert ReadLength(src, p + 2, Nibble(m)) == Length(m, next) by { ReadLengthInverts(src, p + 2, m); }
    assert ParseSequence(src, i) == Full(lit, p, s.offset, s.matchLen, next);
  }

  /** One step of the reading over one written sequence. */
  lemma SequenceStep(src: seq<byte>, i: nat, s: Sequence, out: seq<byte>, total: nat)
    requires SequenceFits(s, |out|, total) && At(src, i, SequenceBytes(s))
    ensures DecodeFrom(src, i, out)
         == DecodeFrom(src, i + |SequenceBytes(s)|, CopyMatch(out + s.literals, s.offset, s.matchLen))
    ensures StrictFrom(src, i, |out|, total)
       <==> StrictFrom(src, i + |SequenceBytes(s)|, |out| + |s.literals| + s.matchLen, total)
  {
    hide SequenceBytes, At, ParseSequence, CopyMatch, Expand, LengthBytes;
    ParseInverts(src, i, s);
  }

  /** The same for any number of leading sequences. */
  lemma {:induction false} SequencesPrefix(src: seq<byte>, ss: seq<Sequence>, total: nat)
    requires Conforming(ss, total) && At(src, 0, SequencesBytes(ss))
    ensures Decode(src) == DecodeFrom(src, |SequencesBytes(ss)|, Expand(ss))
    ensures StrictFrom(src, 0, 0, total) <==> StrictFrom(src, |SequencesBytes(ss)|, OutputSize(ss), total)
  {
    hide SequenceBytes, At, ParseSequence, CopyMatch;
    if ss != [] {
      var front, s := ss[..|ss| - 1], ss[|ss| - 1];
      AtSplit(src, 0, SequencesBytes(front), SequenceBytes(s));
      SequencesPrefix(src, front, total);
      SequenceStep(src, |SequencesBytes(front)|, s, Expand(front), total);
    }
  }

  /** Reading the closing literals undoes writing them. */
  lemma ParseLast(src: seq<byte>, i: nat, last: seq<byte>)
    requires At(src, i, LastBytes(last)) && i + |LastBytes(last)| == |src|
    ensures |last| <= |src| && ParseSequence(src, i) == Final(0, |src| - |last|) && src[|src| - |last|..] == last
  {
    hide At, LengthBytes, ReadLength;
    var n := |last|;
    var token: seq<byte> := [Nibble(n) * 16];
    AtSplit(src, i, token + LengthBytes(n), last);
    AtSlice(src, i + 1 + |LengthBytes(n)|, last);
    AtSplit(src, i, token, LengthBytes(n));
    AtIndex(src, i, token, 0);
    ReadLengthInverts(src, i + 1, n);
  }

  lemma LastStep(src: seq<byte>, i: nat, last: seq<byte>, out: seq<byte>)
    requires At(src, i, LastBytes(last)) && i + |LastBytes(last)| == |src|
    ensures DecodeFrom(src, i, out) == Some(out + last)
    ensures (i > 0 ==> |last| >= LASTLITERALS) ==> StrictFrom(src, i, |out|, |out| + |last|)
  {
    hide At, LastBytes, ParseSequence;
    ParseLast(src, i, last);
  }

  /** Reference decoding inverts block encoding, and every conforming block is well formed. */
  lemma DecodeInvertsEncode(b: Block)
    requires ConformingBlock(b)
    ensures Decode(BlockBytes(b)) == Some(BlockOutput(b))
    ensures WellFormed(BlockBytes(b))
  {
    hide LastBytes, Expand, ParseSequence, OutputSize, StrictFrom, DecodeFrom;
    var src, total := BlockBytes(b), OutputSize(b.sequences) + |b.last|;
    var i := |SequencesBytes(b.sequences)|;
    assert src[0..i] == SequencesBytes(b.sequences);
    assert src[i..i + |LastBytes(b.last)|] == LastBytes(b.last);
    SequencesPrefix(src, b.sequences, total);
    LastStep(src, i, b.last, Expand(b.sequences));
  }

  // ----- compressed size -----

  /** Every full sequence costs at most 256/255 of the bytes it stands for. */
  lemma SequenceCost(s: Sequence)
    requires s.matchLen >= MINMATCH && s.offset <= DISTANCE_MAX
    ensures 255 * |SequenceBytes(s)| <= 256 * (|s.literals| + s.matchLen)
    ensures |SequenceBytes(s)| == 3 + |s.literals| + ExtraBytes(|s.literals|) + ExtraBytes(s.matchLen - MINMATCH)
  {
    LengthBytesSize(|s.literals|);
    LengthBytesSize(s.matchLen - MINMATCH);
  }

  lemma LengthBytesSize(n: nat)
    ensures |LengthBytes(n)| == ExtraBytes(n)
  {
    if n >= 15 { LengthTailSize(n - 15); }
  }

  lemma {:induction false} SequencesCost(ss: seq<Sequence>)
    requires Encodable(ss)
    ensures 255 * |SequencesBytes(ss)| <= 256 * OutputSize(ss)
  {
    if ss != [] {
      SequencesCost(ss[..|ss| - 1]);
      SequenceCost(ss[|ss| - 1]);
    }
  }

  /** No block is longer than LZ4_COMPRESSBOUND of what it decodes to. */
  lemma BlockBound(b: Block)
    requires Encodable(b.sequences)
    requires OutputSize(b.sequences) + |b.last| <= MAX_INPUT_SIZE
    ensures |BlockBytes(b)| <= CompressBound(OutputSize(b.sequences) + |b.last|)
  {
    SequencesCost(b.sequences);
    LengthBytesSize(|b.last|);
  }
}
