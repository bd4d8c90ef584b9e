/**
 LZ4_decompress_safe (64-bit build): the fast loop, the safe loop, and the labels through which the
 fast loop jumps into the middle of the safe one. The destination array is the capacity.
 */
module Lz4Decompress {
  import opened Bytes
  import opened Lz4Format
  import opened Lz4Copy

  const INT_MAX: nat := 0x7FFF_FFFF
  const WILDCOPYLENGTH: nat := 8
  const MATCH_SAFEGUARD_DISTANCE: nat := 12
  const FASTLOOP_SAFE_DISTANCE: nat := 64

  // ----- read_variable_length -----

  datatype LengthError = Ok | InitialError | LoopError

  /** All bytes of `src[i..j]` are 255. */
  ghost predicate Run255(src: seq<byte>, i: nat, j: nat) {
    i <= j <= |src| && forall k :: i <= k < j ==> src[k] == 255
  }

  /**
   The length is accumulated in 32 bits. `LoopError` says the cursor reached `lenCheck`, which may
   have happened on the closing byte or in the middle of a run of 255s.
   */
  method ReadVariableLength(src: seq<byte>, start: nat, lenCheck: int, initialCheck: bool)
    returns (length: nat, ip: nat, error: LengthError)
    requires lenCheck <= |src| && (initialCheck || start < |src|)
    ensures error == InitialError <==> initialCheck && start >= lenCheck
    ensures error == InitialError ==> length == 0 && ip == start
    ensures error != InitialError ==> start < ip <= |src|
    ensures error == Ok ==> ip < lenCheck
    ensures error == LoopError ==> ip >= lenCheck && (ip == lenCheck || ip == start + 1)
    ensures error != InitialError ==>
              var r := ReadTail(src, start);
              || (r.Length? && r.next == ip && length == r.value % U32)
              || (error == LoopError && Run255(src, start, ip) && length == 255 * (ip - start) % U32
                  && (r.Length? ==> r.next > ip && r.value >= 255 * (ip - start)))
  {
    length, ip, error := 0, start, Ok;
    if initialCheck && start >= lenCheck {
      error := InitialError;
      return;
    }
    while true
      invariant start <= ip && (ip < lenCheck || (ip == start && ip < |src|))
      invariant Run255(src, start, ip) && length == 255 * (ip - start) % U32
      decreases |src| - ip
    {
      var s := src[ip];
      ReadTailRun(src, start, ip);
      WrapAdd(255 * (ip - start), s);
      ip := ip + 1;
      length := (length + s) % U32;
      if ip >= lenCheck {
        error := LoopError;
        if s == 255 { ReadTailRun(src, start, ip); }
        return;
      }
      if s != 255 { break; }
    }
  }

  // ----- what one step of the decoder has to achieve -----

  datatype Step = Next(ip: nat, op: nat) | Done(op: nat) | Error(ip: nat)

  /** A length field as the decoder reads it: the bytes behind a full nibble are summed in 32 bits. */
  function ReadLength32(src: seq<byte>, i: nat, nibble: nat): (r: LengthRead)
    ensures r.Length? ==> i <= r.next && (r.next <= |src| || r.next == i)
  {
    if nibble < 15 then Length(nibble, i)
    else
      match ReadTail(src, i)
      case Truncated => Truncated
      case Length(v, n) => Length(v % U32 + 15, n)
  }

  /** What stands at an input position as the decoder reads it. */
  function Reading(src: seq<byte>, i: nat): (r: Parsed)
    ensures r.Final? ==> i < r.litStart <= |src|
    ensures r.Full? ==> i < r.litStart <= r.litEnd && r.litEnd + 2 <= r.next <= |src| && r.matchLen >= MINMATCH
  {
    if i >= |src| then Malformed
    else
      var lits := ReadLength32(src, i + 1, src[i] / 16);
      if lits.Truncated? || lits.next + lits.value > |src| then Malformed
      else
        var p := lits.next + lits.value;
        if p == |src| then Final(src[i] % 16, lits.next)
        else if p + 2 > |src| then Malformed
        else
          var ml := ReadLength32(src, p + 2, src[i] % 16);
          if ml.Truncated? then Malformed
          else Full(lits.next, p, Le16(src[p], src[p + 1]), ml.value + MINMATCH, ml.next)
  }

  /** The block as the decoder reads it. */
  function AsReadFrom(src: seq<byte>, i: nat, out: seq<byte>): Option<seq<byte>>
    decreases |src| - i
  {
    match Reading(src, i)
    case Malformed => None
    case Final(_, litStart) => Some(out + src[litStart..])
    case Full(litStart, litEnd, offset, matchLen, next) =>
      var out1 := out + src[litStart..litEnd];
      if offset > |out1| then None else AsReadFrom(src, next, CopyMatch(out1, offset, matchLen))
  }

  function AsRead(src: seq<byte>): Option<seq<byte>> {
    AsReadFrom(src, 0, [])
  }

  /** The end-of-block restrictions on that reading. */
  ghost predicate StrictAsRead(src: seq<byte>, i: nat, o: nat, total: nat)
    decreases |src| - i
  {
    match Reading(src, i)
    case Malformed => false
    case Final(matchNibble, litStart) =>
      var n := |src| - litStart;
      o + n == total && matchNibble == 0 && (i > 0 ==> n >= LASTLITERALS)
    case Full(litStart, litEnd, offset, matchLen, next) =>
      var o1 := o + litEnd - litStart;
      && offset <= o1
      && o1 + MFLIMIT <= total && o1 + matchLen + LASTLITERALS <= total
      && StrictAsRead(src, next, o1 + matchLen, total)
  }

  /** After a match there are at least a token and five literals to read. */
  lemma {:induction false} StrictRoomAsRead(src: seq<byte>, i: nat, o: nat, total: nat)
    requires 0 < i && StrictAsRead(src, i, o, total)
    ensures i + 1 + LASTLITERALS <= |src|
    decreases |src| - i
  {
    match Reading(src, i)
    case Final(_, _) =>
    case Full(litStart, litEnd, offset, matchLen, next) =>
      StrictRoomAsRead(src, next, o + litEnd - litStart + matchLen, total);
  }

  ghost predicate Strict(src: seq<byte>, i: nat, o: nat, total: nat, cap: nat) {
    total <= cap && StrictAsRead(src, i, o, total)
  }

  /** A step over the sequence at `i` follows the reading and rejects nothing that keeps the restrictions. */
  ghost predicate Follows(src: seq<byte>, i: nat, out: seq<byte>, st: Step, dst: seq<byte>, total: nat)
  {
    var p := Reading(src, i);
    match st
    case Next(ip, op) =>
      && i < ip < |src| && op <= |dst| && p.Full? && p.next == ip && p.offset <= |out| + p.litEnd - p.litStart
      && dst[..op] == CopyMatch(out + src[p.litStart..p.litEnd], p.offset, p.matchLen)
    case Done(op) =>
      op <= |dst| && p.Final? && dst[..op] == out + src[p.litStart..]
    case Error(ip) =>
      ip <= |src| && !Strict(src, i, |out|, total, |dst|)
  }

  /** The literals of the sequence at `i` are the `n` bytes at `lit`. */
  ghost predicate LiteralsAt(src: seq<byte>, i: nat, lit: nat, n: nat) {
    i < |src| && ReadLength32(src, i + 1, src[i] / 16) == Length(n, lit)
  }

  /** The first 4 bytes of a match, one by one over zeros. */
  method CopyFourBytes(dst: array<byte>, op: nat, offset: nat)
    requires offset <= op && op + 4 <= dst.Length
    modifies dst
    ensures forall k :: 0 <= k < dst.Length && !(op <= k < op + 4) ==> dst[k] == old(dst[k])
    ensures forall k :: op <= k < op + 4 ==> dst[k] == if offset == 0 then 0 else dst[k - offset]
  {
    var match_ := op - offset;
    dst[op], dst[op + 1], dst[op + 2], dst[op + 3] := 0, 0, 0, 0;
    dst[op] := dst[match_];
    dst[op + 1] := dst[match_ + 1];
    dst[op + 2] := dst[match_ + 2];
    dst[op + 3] := dst[match_ + 3];
  }

  /** The first 8 bytes of a match at a distance below 8, byte by byte and then through the tables. */
  method SmallOffsetPrologue(dst: array<byte>, op: nat, offset: nat) returns (next: nat)
    requires offset < 8 && offset <= op && op + 8 <= dst.Length
    modifies dst
    ensures op + 8 - next == WideDistance(offset) && next + 8 <= op + 8
    ensures forall k :: 0 <= k < dst.Length && !(op <= k < op + 8) ==> dst[k] == old(dst[k])
    ensures forall k :: op <= k < op + 8 ==> dst[k] == if offset == 0 then 0 else dst[k - offset]
  {
    CopyFourBytes(dst, op, offset);
    var match_ := op - offset + INC32[offset];
    CopyWithin(dst, op + 4, match_, 4);
    next := match_ - DEC64[offset];
    if offset > 0 {
      ProloguePeriod(dst[..], op, offset);
    } else {
      forall k | op + 4 <= k < op + 8 ensures dst[k] == 0 { assert dst[k] == dst[k - 4]; }
    }
  }

  // ----- the safe loop, from its labels -----

  /** The rest of a match once 8 bytes are down: byte by byte near the end of the buffer, wide elsewhere. */
  method FinishMatch(dst: array<byte>, op0: nat, match0: nat, cpy: nat) returns (ok: bool)
    requires match0 + 8 <= op0 && op0 + 4 <= dst.Length && cpy + 4 >= op0
    modifies dst
    ensures ok <==> cpy + LASTLITERALS <= dst.Length
    ensures forall k :: 0 <= k < op0 ==> dst[k] == old(dst[k])
    ensures ok ==> forall k :: op0 <= k < cpy ==> dst[k] == dst[k - (op0 - match0)]
  {
    var op, match_ := op0, match0;
    var oend := dst.Length;
    if cpy + MATCH_SAFEGUARD_DISTANCE > oend {
      var oCopyLimit := oend - (WILDCOPYLENGTH - 1);
      if cpy + LASTLITERALS > oend { return false; }
      if op < oCopyLimit {
        WildCopy8(dst, op, match_, oCopyLimit);
        match_ := match_ + (oCopyLimit - op);
        op := oCopyLimit;
      }
      while op < cpy
        invariant op0 <= op <= oend && match_ == op - (op0 - match0)
        invariant forall k :: 0 <= k < op0 ==> dst[k] == old(dst[k])
        invariant forall k :: op0 <= k < op ==> dst[k] == dst[k - (op0 - match0)]
      {
        dst[op] := dst[match_];
        op, match_ := op + 1, match_ + 1;
      }
    } else {
      CopyWithin(dst, op, match_, 8);
      if cpy > op + 8 { WildCopy8(dst, op + 8, match_ + 8, cpy); }
    }
    ok := true;
  }

  /** From `safe_match_copy`: copy a match whose length and offset are known. */
  method SafeMatchCopy(dst: array<byte>, op: nat, offset: nat, length: nat) returns (ok: bool)
    requires op + MATCH_SAFEGUARD_DISTANCE <= dst.Length && length >= MINMATCH
    modifies dst
    ensures ok <==> offset <= op && op + length + LASTLITERALS <= dst.Length
    ensures ok ==> MatchCopied(old(dst[..]), dst[..], op, offset, length)
  {
    if offset > op { return false; }
    var match_ := op - offset;
    if offset < 8 {
      match_ := SmallOffsetPrologue(dst, op, offset);
    } else {
      CopyWithin(dst, op, match_, 8);
      match_ := match_ + 8;
    }
    ok := FinishMatch(dst, op + 8, match_, op + length);
    if ok && offset < 8 && length > 8 { WideKeepsPeriod(dst[..], op, op + length, offset); }
  }

  /** The match length behind an offset field: nibble, and further bytes when it is full. */
  method ReadMatchLength(src: seq<byte>, ip0: nat, token: byte) returns (ok: bool, length: nat, ip: nat)
    requires ip0 < |src|
    ensures length >= MINMATCH && ip0 <= ip <= |src|
    ensures token % 16 != ML_MASK ==> ok && length == token % 16 + MINMATCH
    ensures ok ==> var ml := ReadLength32(src, ip0, token % 16);
                   ip < |src| && ml.Length? && ml.next == ip && length == ml.value + MINMATCH
    ensures !ok ==> var ml := ReadLength32(src, ip0, token % 16);
                    ml.Length? ==> ml.next + LASTLITERALS > |src|
  {
    ok, length, ip := true, token % 16, ip0;
    if length == ML_MASK {
      var extra, next, error := ReadVariableLength(src, ip, |src| - LASTLITERALS + 1, false);
      ok, ip, length := error == Ok, next, length + extra;
    }
    length := length + MINMATCH;
  }

  /** The sequence at `i` has `n` literals at `lit`, and its offset field ends before `ip`. */
  ghost predicate OffsetRead(src: seq<byte>, i: nat, lit: nat, n: nat, ip: nat, token: byte, offset: nat) {
    && LiteralsAt(src, i, lit, n)
    && lit + n + 2 == ip <= |src|
    && token == src[i] && offset == Le16(src[ip - 2], src[ip - 1])
  }

  /** What a full sequence parses to once its offset has been read. */
  lemma OffsetReadParse(src: seq<byte>, i: nat, lit: nat, n: nat, ip: nat, token: byte, offset: nat)
    requires OffsetRead(src, i, lit, n, ip, token, offset)
    ensures var ml := ReadLength32(src, ip, token % 16);
            Reading(src, i) == if ml.Truncated? then Malformed
                                     else Full(lit, lit + n, offset, ml.value + MINMATCH, ml.next)
  {
  }

  /** A conforming full sequence leaves room for a token and five literals, and fits the total. */
  lemma StrictFull(src: seq<byte>, i: nat, o: nat, total: nat)
    requires StrictAsRead(src, i, o, total) && Reading(src, i).Full?
    ensures var p := Reading(src, i);
            && p.next + 1 + LASTLITERALS <= |src|
            && p.offset <= o + p.litEnd - p.litStart
            && o + p.litEnd - p.litStart + MFLIMIT <= total
            && o + p.litEnd - p.litStart + p.matchLen + LASTLITERALS <= total
  {
    var p := Reading(src, i);
    StrictRoomAsRead(src, p.next, o + p.litEnd - p.litStart + p.matchLen, total);
  }

  /** From `_copy_match`: the literals of the sequence at `i` are out, `ip0` is behind the offset field. */
  method SafeMatch(src: seq<byte>, ghost i: nat, ip0: nat, token: byte, dst: array<byte>, op: nat, offset: nat,
                   ghost lit: nat, ghost n: nat, ghost total: nat) returns (st: Step)
    requires i < ip0 < |src| && dst.Length <= INT_MAX && op + MATCH_SAFEGUARD_DISTANCE <= dst.Length
    requires n <= op && lit + n + 2 == ip0 && dst[op - n..op] == src[lit..lit + n]
    requires OffsetRead(src, i, lit, n, ip0, token, offset)
    modifies dst
    ensures Follows(src, i, old(dst[..op - n]), st, dst[..], total)
  {
    hide CopyMatch, StrictAsRead, Reading, ReadLength32, MatchCopied;
    ghost var before := dst[..];
    ghost var out := dst[..op - n];
    assert out + src[lit..lit + n] == dst[..op];
    var ok, length, ip := ReadMatchLength(src, ip0, token);
    OffsetReadParse(src, i, lit, n, ip0, token, offset);
    if Strict(src, i, |out|, total, dst.Length) && Reading(src, i).Full? {
      StrictFull(src, i, |out|, total);
    }
    StrictParses(src, i, |out|, total);
    if !ok { return Error(ip); }
    ok := SafeMatchCopy(dst, op, offset, length);
    if !ok { return Error(ip); }
    MatchCopiedIsCopyMatch(before, dst[..], op, offset, length);
    st := Next(ip, op + length);
  }

  lemma StrictParses(src: seq<byte>, i: nat, o: nat, total: nat)
    ensures StrictAsRead(src, i, o, total) ==> !Reading(src, i).Malformed?
  {
  }

  /** The decoder has a literal length for the sequence at `i`, right or too long to be true. */
  ghost predicate LiteralLengthRead(src: seq<byte>, i: nat, lit: nat, n: nat) {
    LiteralsAt(src, i, lit, n) || (lit + n > |src| && Reading(src, i).Malformed?)
  }

  /** What literals up to `lit + n` mean for the parse, and where a conforming block allows them. */
  lemma LiteralsParse(src: seq<byte>, i: nat, lit: nat, n: nat, o: nat, total: nat)
    requires LiteralLengthRead(src, i, lit, n)
    ensures lit + n == |src| ==> Reading(src, i) == Final(src[i] % 16, lit)
    ensures lit + n + 2 <= |src| ==>
              OffsetRead(src, i, lit, n, lit + n + 2, src[i], Le16(src[lit + n], src[lit + n + 1]))
    ensures StrictAsRead(src, i, o, total) ==>
              || (lit + n == |src| && o + n == total)
              || (lit + n + 2 + 1 + LASTLITERALS <= |src| && o + n + MFLIMIT <= total)
  {
    if StrictAsRead(src, i, o, total) && Reading(src, i).Full? {
      StrictFull(src, i, o, total);
    }
  }

  /** From `safe_literal_copy`: the last literals of the block, or literals with an offset behind them. */
  method SafeLiterals(src: seq<byte>, ghost i: nat, ip: nat, token: byte, length: nat,
                      dst: array<byte>, op: nat, ghost total: nat) returns (st: Step)
    requires i < ip <= |src| && token == src[i] && op <= dst.Length <= INT_MAX
    requires LiteralLengthRead(src, i, ip, length)
    modifies dst
    ensures Follows(src, i, old(dst[..op]), st, dst[..], total)
  {
    hide CopyMatch, StrictAsRead, Reading, ReadLength32, LiteralLengthRead;
    LiteralsParse(src, i, ip, length, op, total);
    var cpy := op + length;
    if cpy + MFLIMIT > dst.Length || ip + length + (2 + 1 + LASTLITERALS) > |src| {
      if ip + length != |src| || cpy > dst.Length { return Error(ip); }
      ghost var out := dst[..op];
      CopyIn(dst, op, src, ip, length);
      assert dst[..cpy] == dst[..op] + dst[op..cpy];
      assert dst[..op] == out;
      return Done(cpy);
    }
    ghost var out := dst[..op];
    WildCopyIn8(dst, op, src, ip, cpy);
    assert dst[..op] == out;
    SliceCopied(dst[..], op, src, ip, length);
    var next := ip + length;
    var offset := Le16(src[next], src[next + 1]);
    st := SafeMatch(src, i, next + 2, token, dst, cpy, offset, ip, length, total);
  }

  /** The literal length behind a token; the caller sees `LoopError` only as a length. */
  method ReadLiteralLength(src: seq<byte>, ghost i: nat, ip0: nat, token: byte)
    returns (ok: bool, length: nat, ip: nat)
    requires i + 1 == ip0 <= |src| <= INT_MAX && token == src[i]
    ensures ip0 <= ip <= |src|
    ensures !ok ==> Reading(src, i).Malformed?
    ensures ok ==> LiteralLengthRead(src, i, ip, length)
    ensures token / 16 != RUN_MASK ==> ok && ip == ip0 && length == token / 16
  {
    hide Reading, ReadTail;
    ok, length, ip := true, token / 16, ip0;
    if length == RUN_MASK {
      var extra, next, error := ReadVariableLength(src, ip, |src| - RUN_MASK, true);
      LongLiteralsParse(src, i);
      ok, length := error != InitialError, length + extra;
      if ok { RunLeavesRest(next - ip); }
      ip := next;
    }
  }

  /** No run of 255s an input can hold sums to a multiple of 2^32. */
  lemma RunLeavesRest(k: nat)
    requires 0 < k < U32
    ensures 255 * k % U32 > 0
  {
  }

  /** What the extra bytes of a literal length mean for the reading: fifteen literals need as many input bytes. */
  lemma LongLiteralsParse(src: seq<byte>, i: nat)
    requires i < |src| && src[i] / 16 == RUN_MASK
    ensures var t := ReadTail(src, i + 1);
            t.Truncated? || t.next + t.value % U32 + 15 > |src| ==> Reading(src, i).Malformed?
    ensures i + 1 + RUN_MASK >= |src| ==> Reading(src, i).Malformed?
  {
  }

  /** The 8 + 8 + 2 byte copy that covers every match length a token alone can hold. */
  method CopyShortMatch(dst: array<byte>, op: nat, offset: nat, length: nat)
    requires 8 <= offset <= op && op + 18 <= dst.Length && length <= 18
    modifies dst
    ensures MatchCopied(old(dst[..]), dst[..], op, offset, length)
  {
    CopyWithin(dst, op, op - offset, 8);
    CopyWithin(dst, op + 8, op + 8 - offset, 8);
    CopyWithin(dst, op + 16, op + 16 - offset, 2);
  }

  /** The second stage of both shortcuts: a non-overlapping match whose length fits the token. */
  method ShortMatch(src: seq<byte>, ghost i: nat, ip: nat, token: byte, dst: array<byte>, op: nat, offset: nat,
                    ghost lit: nat, ghost n: nat, ghost total: nat) returns (st: Step)
    requires i < ip < |src| && op + 18 <= dst.Length <= INT_MAX
    requires 8 <= offset <= op && token % 16 != ML_MASK
    requires OffsetRead(src, i, lit, n, ip, token, offset)
    requires n <= op && dst[op - n..op] == src[lit..lit + n]
    modifies dst
    ensures Follows(src, i, old(dst[..op - n]), st, dst[..], total)
    ensures st == Next(ip, op + token % 16 + MINMATCH)
  {
    hide CopyMatch, MatchCopied;
    OffsetReadParse(src, i, lit, n, ip, token, offset);
    assert dst[..op - n] + src[lit..lit + n] == dst[..op];
    var length := token % 16 + MINMATCH;
    ghost var before := dst[..];
    CopyShortMatch(dst, op, offset, length);
    MatchCopiedIsCopyMatch(before, dst[..], op, offset, length);
    st := Next(ip, op + length);
  }

  /** One turn of the safe loop. */
  method SafeSequence(src: seq<byte>, i: nat, dst: array<byte>, op: nat, ghost total: nat) returns (st: Step)
    requires i < |src| <= INT_MAX && op <= dst.Length <= INT_MAX
    modifies dst
    ensures Follows(src, i, old(dst[..op]), st, dst[..], total)
  {
    var token, ip := src[i], i + 1;
    if token / 16 != RUN_MASK && ip + 14 + 2 < |src| && op + 14 + 18 <= dst.Length {
      var n := token / 16;
      ghost var out := dst[..op];
      CopyIn(dst, op, src, ip, 16);
      assert dst[..op] == out;
      SliceCopied(dst[..], op, src, ip, n);
      var next := ip + n;
      var offset := Le16(src[next], src[next + 1]);
      assert OffsetRead(src, i, ip, n, next + 2, token, offset);
      if token % 16 != ML_MASK && offset >= 8 && offset <= op + n {
        st := ShortMatch(src, i, next + 2, token, dst, op + n, offset, ip, n, total);
      } else {
        st := SafeMatch(src, i, next + 2, token, dst, op + n, offset, ip, n, total);
      }
      return;
    }
    var ok, length, lit := ReadLiteralLength(src, i, ip, token);
    if !ok { return Error(lit); }
    st := SafeLiterals(src, i, lit, token, length, dst, op, total);
  }

  // ----- the fast loop -----

  /** The repeated 8-byte pattern of LZ4_memcpy_using_offset for offsets 1, 2 and 4. */
  function Pattern(a: seq<byte>, match_: nat, offset: nat): (v: seq<byte>)
    requires offset in {1, 2, 4} && match_ + offset <= |a|
    ensures |v| == 8
    ensures forall j :: 0 <= j < 8 ==> v[j] == if j < offset then a[match_ + j] else v[j - offset]
  {
    if offset == 1 then Fill(a[match_], 8)
    else if offset == 2 then
      var x, y := a[match_], a[match_ + 1];
      [x, y, x, y, x, y, x, y]
    else
      var x, y, z, w := a[match_], a[match_ + 1], a[match_ + 2], a[match_ + 3];
      [x, y, z, w, x, y, z, w]
  }

  /** Write `v` again and again: from the second stamp on, every byte repeats the one 8 before. */
  method Stamp(dst: array<byte>, op: nat, v: seq<byte>, cpy: nat)
    requires |v| == 8 && op + MINMATCH <= cpy && cpy + 8 <= dst.Length
    modifies dst
    ensures forall k :: 0 <= k < op ==> dst[k] == old(dst[k])
    ensures forall k :: op <= k < op + 8 ==> dst[k] == v[k - op]
    ensures forall k :: op + 8 <= k < cpy ==> dst[k] == dst[k - 8]
  {
    CopyIn(dst, op, v, 0, 8);
    var d := op + 8;
    while d < cpy
      invariant op + 8 <= d < cpy + 8
      invariant forall k :: 0 <= k < op ==> dst[k] == old(dst[k])
      invariant forall k :: op <= k < op + 8 ==> dst[k] == v[k - op]
      invariant forall k :: op + 8 <= k < d ==> dst[k] == dst[k - 8]
      invariant forall k :: d - 8 <= k < d ==> dst[k] == v[k - (d - 8)]
    {
      CopyIn(dst, d, v, 0, 8);
      d := d + 8;
    }
  }

  method StampPattern(dst: array<byte>, op: nat, offset: nat, cpy: nat)
    requires offset in {1, 2, 4} && offset <= op && op + MINMATCH <= cpy && cpy + 8 <= dst.Length
    modifies dst
    ensures MatchCopied(old(dst[..]), dst[..], op, offset, cpy - op)
  {
    var v := Pattern(dst[..], op - offset, offset);
    Stamp(dst, op, v, cpy);
    assert forall k :: op <= k < op + 8 ==> dst[k] == dst[k - offset];
    if cpy >= op + 8 { WideKeepsPeriod(dst[..], op, cpy, offset); }
  }

  /** LZ4_memcpy_using_offset_base. */
  method CopyUsingOffsetBase(dst: array<byte>, op: nat, offset: nat, cpy: nat)
    requires offset <= op && offset < 16 && op + MINMATCH <= cpy && cpy + 16 <= dst.Length
    modifies dst
    ensures MatchCopied(old(dst[..]), dst[..], op, offset, cpy - op)
  {
    var match_ := op - offset;
    if offset < 8 {
      match_ := SmallOffsetPrologue(dst, op, offset);
    } else {
      CopyWithin(dst, op, match_, 8);
      match_ := match_ + 8;
    }
    WildCopy8(dst, op + 8, match_, cpy);
    if offset < 8 && cpy > op + 8 { WideKeepsPeriod(dst[..], op, cpy, offset); }
  }

  /** The match copy of the fast loop: patterns, small offsets, or 32 bytes at a time. */
  method FastMatchCopy(dst: array<byte>, op: nat, offset: nat, length: nat)
    requires offset <= op && length >= MINMATCH && op + length + FASTLOOP_SAFE_DISTANCE <= dst.Length
    modifies dst
    ensures MatchCopied(old(dst[..]), dst[..], op, offset, length)
  {
    var cpy := op + length;
    if offset < 16 {
      if offset in {1, 2, 4} {
        StampPattern(dst, op, offset, cpy);
      } else {
        CopyUsingOffsetBase(dst, op, offset, cpy);
      }
    } else {
      WildCopy32(dst, op, op - offset, cpy);
    }
  }

  /** The match half of a turn of the fast loop; `fast` tells whether the fast loop goes on. */
  method FastMatch(src: seq<byte>, ghost i: nat, ip0: nat, token: byte, dst: array<byte>, op: nat, offset: nat,
                   ghost lit: nat, ghost n: nat, ghost total: nat) returns (st: Step, fast: bool)
    requires i < ip0 < |src| && dst.Length <= INT_MAX && op + 32 <= dst.Length
    requires n <= op && lit + n + 2 == ip0
    requires OffsetRead(src, i, lit, n, ip0, token, offset)
    requires dst[op - n..op] == src[lit..lit + n]
    modifies dst
    ensures Follows(src, i, old(dst[..op - n]), st, dst[..], total)
    ensures fast && st.Next? ==> st.op + FASTLOOP_SAFE_DISTANCE <= dst.Length
  {
    hide CopyMatch, StrictAsRead, Reading, ReadLength32, MatchCopied, LiteralsAt;
    ghost var before := dst[..];
    ghost var out := dst[..op - n];
    assert out + src[lit..lit + n] == dst[..op];
    OffsetReadParse(src, i, lit, n, ip0, token, offset);
    if Strict(src, i, |out|, total, dst.Length) && Reading(src, i).Full? {
      StrictFull(src, i, |out|, total);
    }
    StrictParses(src, i, |out|, total);
    fast := false;
    if token % 16 == ML_MASK && offset > op { return Error(ip0), false; }
    var ok, length, ip := ReadMatchLength(src, ip0, token);
    if !ok { return Error(ip), false; }
    if op + length + FASTLOOP_SAFE_DISTANCE >= dst.Length {
      ok := SafeMatchCopy(dst, op, offset, length);
      if !ok { return Error(ip), false; }
    } else if token % 16 != ML_MASK && 8 <= offset <= op {
      CopyShortMatch(dst, op, offset, length);
      fast := true;
    } else {
      if offset > op { return Error(ip), false; }
      FastMatchCopy(dst, op, offset, length);
      fast := true;
    }
    MatchCopiedIsCopyMatch(before, dst[..], op, offset, length);
    st := Next(ip, op + length);
  }

  /** One turn of the fast loop, with its jumps into the safe one. */
  method FastSequence(src: seq<byte>, i: nat, dst: array<byte>, op: nat, ghost total: nat)
    returns (st: Step, fast: bool)
    requires i < |src| <= INT_MAX && op + FASTLOOP_SAFE_DISTANCE <= dst.Length <= INT_MAX
    modifies dst
    ensures Follows(src, i, old(dst[..op]), st, dst[..], total)
    ensures fast && st.Next? ==> st.op + FASTLOOP_SAFE_DISTANCE <= dst.Length
  {
    hide CopyMatch, StrictAsRead, Reading, ReadLength32, MatchCopied;
    var token := src[i];
    ghost var out := dst[..op];
    StrictParses(src, i, op, total);
    var ok, n, ip := ReadLiteralLength(src, i, i + 1, token);
    if !ok { return Error(ip), false; }
    if token / 16 == RUN_MASK {
      if op + n + 32 > dst.Length || ip + n + 32 > |src| {
        st := SafeLiterals(src, i, ip, token, n, dst, op, total);
        return st, false;
      }
      WildCopyIn32(dst, op, src, ip, op + n);
    } else {
      if ip + 16 + 1 > |src| {
        st := SafeLiterals(src, i, ip, token, n, dst, op, total);
        return st, false;
      }
      CopyIn(dst, op, src, ip, 16);
    }
    assert dst[..op] == out;
    SliceCopied(dst[..], op, src, ip, n);
    var next := ip + n;
    var offset := Le16(src[next], src[next + 1]);
    LiteralsParse(src, i, ip, n, op, total);
    st, fast := FastMatch(src, i, next + 2, token, dst, op + n, offset, ip, n, total);
  }

  // ----- the whole decoder -----

  /**
   What a caller may rely on: `out` are the bytes of the result, `cap` the capacity that was offered. A
   success is the block as the decoder reads it, and no block whose reading keeps the restrictions and
   fits is refused.
   */
  ghost predicate DecoderContract(src: seq<byte>, cap: nat, r: int, out: seq<byte>) {
    && |src| <= INT_MAX && cap <= INT_MAX
    && -|src| - 1 <= r <= cap
    && (r >= 0 ==> |out| == r && AsRead(src) == Some(out))
    && (AsRead(src).Some? && Strict(src, 0, 0, |AsRead(src).value|, cap) ==> r >= 0)
  }

  /**
   LZ4_decompress_safe: `fastDecLoop` is the build switch LZ4_FAST_DEC_LOOP. Only `dst` is written, only
   `src` read, on any input; a non-negative result counts the decoded bytes.
   */
  method DecompressSafe(src: seq<byte>, dst: array<byte>, fastDecLoop: bool) returns (r: int)
    requires |src| <= INT_MAX && dst.Length <= INT_MAX
    modifies dst
    ensures r <= dst.Length && DecoderContract(src, dst.Length, r, if r >= 0 then dst[..r] else [])
  {
    hide StrictAsRead, Reading, CopyMatch;
    ghost var total := if AsRead(src).Some? then |AsRead(src).value| else 0;
    if dst.Length == 0 {
      EmptyOutput(src);
      return if |src| == 1 && src[0] == 0 then 0 else -1;
    }
    StrictParses(src, 0, 0, total);
    if |src| == 0 {
      NothingRead(src);
      return -1;
    }
    var ip, op, fast := 0, 0, fastDecLoop && dst.Length >= FASTLOOP_SAFE_DISTANCE;
    assert dst[..0] == [];
    while true
      invariant ip < |src| && op <= dst.Length && (fast ==> op + FASTLOOP_SAFE_DISTANCE <= dst.Length)
      invariant AsRead(src) == AsReadFrom(src, ip, dst[..op])
      invariant Strict(src, 0, 0, total, dst.Length) ==> Strict(src, ip, op, total, dst.Length)
      decreases |src| - ip
    {
      ghost var out := dst[..op];
      var st;
      if fast {
        st, fast := FastSequence(src, ip, dst, op, total);
      } else {
        st := SafeSequence(src, ip, dst, op, total);
      }
      FollowsAdvances(src, ip, out, st, dst[..], total);
      match st
      case Error(at) => return -(at as int) - 1;
      case Done(end) => return end;
      case Next(ip', op') => ip, op := ip', op';
    }
  }

  lemma NothingRead(src: seq<byte>)
    requires src == []
    ensures AsRead(src) == None
  {
  }

  /** With no room for output only the block that encodes nothing is accepted. */
  lemma EmptyOutput(src: seq<byte>)
    ensures AsRead(src).Some? && Strict(src, 0, 0, |AsRead(src).value|, 0) ==> src == [0]
    ensures src == [0] ==> AsRead(src) == Some([])
  {
    if src == [0] { assert Reading(src, 0) == Final(0, 1) && [] + src[1..] == []; }
  }

  /** A followed step is one unfolding of the reading and of the end-of-block restrictions. */
  lemma FollowsAdvances(src: seq<byte>, i: nat, out: seq<byte>, st: Step, dst: seq<byte>, total: nat)
    requires Follows(src, i, out, st, dst, total)
    ensures st.Next? ==> AsReadFrom(src, i, out) == AsReadFrom(src, st.ip, dst[..st.op])
    ensures st.Next? && Strict(src, i, |out|, total, |dst|) ==> Strict(src, st.ip, st.op, total, |dst|)
    ensures st.Done? ==> AsReadFrom(src, i, out) == Some(dst[..st.op])
  {
  }

  /** Two successes on one input agree: fast loop on or off, whatever the capacities. */
  lemma RunsAgree(src: seq<byte>, cap1: nat, r1: int, out1: seq<byte>, cap2: nat, r2: int, out2: seq<byte>)
    requires DecoderContract(src, cap1, r1, out1) && DecoderContract(src, cap2, r2, out2)
    ensures r1 >= 0 && r2 >= 0 ==> r1 == r2 && out1 == out2
    ensures WellFormed(src) && |Decode(src).value| <= cap1 && |Decode(src).value| <= cap2 ==>
              r1 == r2 == |Decode(src).value| && out1 == out2 == Decode(src).value
  {
    hide AsRead, Decode, Strict, WellFormed;
    DecodesExactly(src, cap1, r1, out1);
    DecodesExactly(src, cap2, r2, out2);
  }

  // ----- where the 32-bit sums are the lengths -----

  /** Lengths below 2^32 are read as they are. */
  lemma ReadingExact(src: seq<byte>, i: nat)
    requires |src| <= INT_MAX
    ensures var p := ParseSequence(src, i);
            && (p.Final? ==> Reading(src, i) == p)
            && (p.Full? && p.matchLen <= INT_MAX ==> Reading(src, i) == p)
  {
    hide ReadTail;
  }

  lemma {:induction false} DecodeGrows(src: seq<byte>, i: nat, out: seq<byte>)
    ensures DecodeFrom(src, i, out).Some? ==> |DecodeFrom(src, i, out).value| >= |out|
    decreases |src| - i
  {
    match ParseSequence(src, i)
    case Malformed =>
    case Final(_, _) =>
    case Full(litStart, litEnd, offset, matchLen, next) =>
      var out1 := out + src[litStart..litEnd];
      if offset <= |out1| { DecodeGrows(src, next, CopyMatch(out1, offset, matchLen)); }
  }

  /** A block that stands for no more than 2^31 - 1 bytes is read as what it stands for. */
  lemma {:induction false} ReadsWhatFits(src: seq<byte>, i: nat, out: seq<byte>)
    requires |src| <= INT_MAX
    requires DecodeFrom(src, i, out).Some? && |DecodeFrom(src, i, out).value| <= INT_MAX
    ensures AsReadFrom(src, i, out) == DecodeFrom(src, i, out)
    decreases |src| - i
  {
    hide ParseSequence, Reading, CopyMatch;
    ReadingExact(src, i);
    match ParseSequence(src, i)
    case Final(_, _) =>
    case Full(litStart, litEnd, offset, matchLen, next) =>
      var out2 := CopyMatch(out + src[litStart..litEnd], offset, matchLen);
      DecodeGrows(src, next, out2);
      ReadsWhatFits(src, next, out2);
  }

  lemma {:induction false} StrictReadsSo(src: seq<byte>, i: nat, o: nat, total: nat)
    requires |src| <= INT_MAX && total <= INT_MAX && StrictFrom(src, i, o, total)
    ensures StrictAsRead(src, i, o, total)
    decreases |src| - i
  {
    hide ParseSequence, Reading;
    ReadingExact(src, i);
    match ParseSequence(src, i)
    case Final(_, _) =>
    case Full(litStart, litEnd, offset, matchLen, next) =>
      StrictReadsSo(src, next, o + litEnd - litStart + matchLen, total);
  }

  /**
   What a success has to do with the format: its bytes are those the block stands for exactly when the
   block is one, and stands for no more than the capacity. A well-formed block that fits is a success.
   */
  lemma DecodesExactly(src: seq<byte>, cap: nat, r: int, out: seq<byte>)
    requires DecoderContract(src, cap, r, out)
    ensures r >= 0 ==> (Decode(src) == Some(out) <==> Decode(src).Some? && |Decode(src).value| <= cap)
    ensures WellFormed(src) && |Decode(src).value| <= cap ==> r == |out| && Decode(src) == Some(out)
  {
    hide StrictFrom, StrictAsRead, DecodeFrom, AsReadFrom;
    if Decode(src).Some? && |Decode(src).value| <= cap {
      ReadsWhatFits(src, 0, []);
      if WellFormed(src) { StrictReadsSo(src, 0, 0, |Decode(src).value|); }
    }
  }

  /** The shortest run of 255s whose length, with its closing byte, passes 2^32 - 1. */
  const WRAP_RUN: nat := 16_843_009

  lemma ShortLengthExact(src: seq<byte>, i: nat, nibble: nat)
    requires |src| <= WRAP_RUN + 1 && i > 0
    ensures ReadLength32(src, i, nibble) == ReadLength(src, i, nibble)
  {
    hide ReadTail;
  }

  lemma ShortReadingExact(src: seq<byte>, i: nat)
    requires |src| <= WRAP_RUN + 1
    ensures Reading(src, i) == ParseSequence(src, i)
  {
    hide ReadLength, ReadLength32;
    if i < |src| {
      var lits := ReadLength(src, i + 1, src[i] / 16);
      ShortLengthExact(src, i + 1, src[i] / 16);
      if lits.Length? { ShortLengthExact(src, lits.next + lits.value + 2, src[i] % 16); }
    }
  }

  /** No length of an input that short passes 2^32 - 1: it is read as it is, to the end. */
  lemma {:induction false} ShortInputsExact(src: seq<byte>, i: nat, out: seq<byte>)
    requires |src| <= WRAP_RUN + 1
    ensures AsReadFrom(src, i, out) == DecodeFrom(src, i, out)
    decreases |src| - i
  {
    hide CopyMatch, ParseSequence, Reading;
    ShortReadingExact(src, i);
    match ParseSequence(src, i)
    case Malformed =>
    case Final(_, _) =>
    case Full(litStart, litEnd, offset, matchLen, next) =>
      var out1 := out + src[litStart..litEnd];
      if offset <= |out1| { ShortInputsExact(src, next, CopyMatch(out1, offset, matchLen)); }
  }

  /** No literals, offset 0, a match length whose sum passes 2^32 - 1; five literals close the block. */
  function WrappingBlock(b: byte): seq<byte> {
    [0x0F, 0, 0] + Fill(255, WRAP_RUN) + [b] + [0x50, 1, 2, 3, 4, 5]
  }

  lemma WrappingTail(b: byte)
    requires 1 <= b < 255
    ensures var src := WrappingBlock(b);
            ReadTail(src, 3) == Length(255 * WRAP_RUN + b as nat, WRAP_RUN + 4)
  {
    var src := WrappingBlock(b);
    assert src[WRAP_RUN + 3] == b;
    ReadTailRun(src, 3, WRAP_RUN + 3);
  }

  /** Its two sequences, by the format and as the decoder reads them. */
  lemma WrappingParts(b: byte)
    requires 1 <= b < 255
    ensures var src := WrappingBlock(b);
            && ParseSequence(src, 0) == Full(1, 1, 0, 255 * WRAP_RUN + b as nat + 19, WRAP_RUN + 4)
            && Reading(src, 0) == Full(1, 1, 0, b as nat + 18, WRAP_RUN + 4)
            && ParseSequence(src, WRAP_RUN + 4) == Reading(src, WRAP_RUN + 4) == Final(0, WRAP_RUN + 5)
            && src[1..1] == [] && src[WRAP_RUN + 5..] == [1, 2, 3, 4, 5]
  {
    hide ReadTail, ParseSequence, Reading;
    WrappingParsed(b);
    WrappingRead(b);
    WrappingEnd(b);
  }

  lemma WrappingParsed(b: byte)
    requires 1 <= b < 255
    ensures ParseSequence(WrappingBlock(b), 0) == Full(1, 1, 0, 255 * WRAP_RUN + b as nat + 19, WRAP_RUN + 4)
  {
    hide ReadTail;
    WrappingTail(b);
    WrappingHead(b);
    hide WrappingBlock;
  }

  lemma WrappingRead(b: byte)
    requires 1 <= b < 255
    ensures Reading(WrappingBlock(b), 0) == Full(1, 1, 0, b as nat + 18, WRAP_RUN + 4)
  {
    hide ReadTail;
    WrappingTail(b);
    WrappingHead(b);
    hide WrappingBlock;
  }

  lemma WrappingHead(b: byte)
    ensures var src := WrappingBlock(b);
            |src| == WRAP_RUN + 10 && src[0] == 0x0F && src[1] == 0 && src[2] == 0 && src[1..1] == []
  {
  }

  lemma WrappingEnd(b: byte)
    ensures var src := WrappingBlock(b);
            && ParseSequence(src, WRAP_RUN + 4) == Reading(src, WRAP_RUN + 4) == Final(0, WRAP_RUN + 5)
            && src[1..1] == [] && src[WRAP_RUN + 5..] == [1, 2, 3, 4, 5]
  {
    hide ReadTail;
    var src := WrappingBlock(b);
    assert |src| == WRAP_RUN + 10 && src[WRAP_RUN + 4] == 0x50;
  }

  /**
   A success with the wrong bytes: where there is room for them every run gives 18 + b zeros and the
   five literals, while the block stands for more than 2^32 bytes.
   */
  lemma WrapsToWrongBytes(b: byte, cap: nat, r: int, out: seq<byte>)
    requires 1 <= b < 255 && cap >= b as nat + 23 && DecoderContract(WrappingBlock(b), cap, r, out)
    ensures r == b as nat + 23 && out == Fill(0, b as nat + 18) + [1, 2, 3, 4, 5]
    ensures Decode(WrappingBlock(b)).Some? && |Decode(WrappingBlock(b)).value| > U32
  {
    hide ParseSequence, Reading, WrappingBlock, CopyMatch;
    WrappingParts(b);
    var src, n, m := WrappingBlock(b), b as nat + 18, 255 * WRAP_RUN + b as nat + 19;
    var none: seq<byte> := [];
    assert none + src[1..1] == none;
    ZerosAtOffset0(n);
    assert AsReadFrom(src, WRAP_RUN + 4, Fill(0, n)) == Some(Fill(0, n) + [1, 2, 3, 4, 5]);
    assert DecodeFrom(src, WRAP_RUN + 4, CopyMatch(none, 0, m)) == Some(CopyMatch(none, 0, m) + [1, 2, 3, 4, 5]);
    assert StrictAsRead(src, WRAP_RUN + 4, n, n + 5);
  }

  lemma {:induction false} ZerosAtOffset0(n: nat)
    ensures CopyMatch([], 0, n) == Fill(0, n)
  {
    RepeatsIsCopyMatch([], Fill(0, n), 0, n);
  }
}
