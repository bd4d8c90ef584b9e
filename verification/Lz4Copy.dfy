/**
 The over-running copies of the decoder, inside one destination array and from the input into it.
 None of the individual `memcpy` calls overlaps its own source.
 */
module Lz4Copy {
  import opened Bytes
  import opened Lz4Format

  /** `memcpy(a + d, a + s, n)`. */
  method CopyWithin(a: array<byte>, d: nat, s: nat, n: nat)
    requires s + n <= d && d + n <= a.Length
    modifies a
    ensures forall k :: 0 <= k < a.Length && !(d <= k < d + n) ==> a[k] == old(a[k])
    ensures forall k :: d <= k < d + n ==> a[k] == a[k - (d - s)]
  {
    forall k | 0 <= k < n { a[d + k] := a[s + k]; }
  }

  /** `memcpy(a + d, src + s, n)`. */
  method CopyIn(a: array<byte>, d: nat, src: seq<byte>, s: nat, n: nat)
    requires s + n <= |src| && d + n <= a.Length
    modifies a
    ensures forall k :: 0 <= k < a.Length && !(d <= k < d + n) ==> a[k] == old(a[k])
    ensures forall k :: d <= k < d + n ==> a[k] == src[s + k - d]
  {
    forall k | 0 <= k < n { a[d + k] := src[s + k]; }
  }

  /** A copy byte by byte is one of the slice. */
  lemma SliceCopied(a: seq<byte>, d: nat, src: seq<byte>, s: nat, n: nat)
    requires d + n <= |a| && s + n <= |src| && forall k :: d <= k < d + n ==> a[k] == src[s + k - d]
    ensures a[d..d + n] == src[s..s + n]
  {
    var x, y := a[d..d + n], src[s..s + n];
    forall i | 0 <= i < n ensures x[i] == y[i] {
      assert a[d + i] == src[s + (d + i) - d];
    }
  }

  /** Bytes an 8-byte copy loop writes for a request of `n` bytes. */
  function Span8(n: int): (r: nat)
    ensures r >= 8 && r >= n && r % 8 == 0
    ensures r == 8 || r < n + 8
  {
    if n <= 8 then 8 else (n + 7) / 8 * 8
  }

  /** Bytes a 32-byte copy loop writes for a request of `n` bytes. */
  function Span32(n: int): (r: nat)
    ensures r >= 32 && r >= n && r % 32 == 0
    ensures r == 32 || r < n + 32
  {
    if n <= 32 then 32 else (n + 31) / 32 * 32
  }

  /** LZ4_wildCopy8 inside the destination. */
  method WildCopy8(a: array<byte>, d: nat, s: nat, e: nat)
    requires s + 8 <= d && d + Span8(e - d) <= a.Length
    modifies a
    ensures forall k :: 0 <= k < a.Length && !(d <= k < d + Span8(e - d)) ==> a[k] == old(a[k])
    ensures forall k :: d <= k < d + Span8(e - d) ==> a[k] == a[k - (d - s)]
  {
    CopyWithin(a, d, s, 8);
    var i := 8;
    while d + i < e
      invariant 8 <= i <= Span8(e - d) && i % 8 == 0
      invariant forall k :: 0 <= k < a.Length && !(d <= k < d + i) ==> a[k] == old(a[k])
      invariant forall k :: d <= k < d + i ==> a[k] == a[k - (d - s)]
    {
      CopyWithin(a, d + i, s + i, 8);
      i := i + 8;
    }
  }

  /** LZ4_wildCopy32 inside the destination: 16 bytes twice per turn. */
  method WildCopy32(a: array<byte>, d: nat, s: nat, e: nat)
    requires s + 16 <= d && d + Span32(e - d) <= a.Length
    modifies a
    ensures forall k :: 0 <= k < a.Length && !(d <= k < d + Span32(e - d)) ==> a[k] == old(a[k])
    ensures forall k :: d <= k < d + Span32(e - d) ==> a[k] == a[k - (d - s)]
  {
    CopyWithin(a, d, s, 16);
    CopyWithin(a, d + 16, s + 16, 16);
    var i := 32;
    while d + i < e
      invariant 32 <= i <= Span32(e - d) && i % 32 == 0
      invariant forall k :: 0 <= k < a.Length && !(d <= k < d + i) ==> a[k] == old(a[k])
      invariant forall k :: d <= k < d + i ==> a[k] == a[k - (d - s)]
    {
      CopyWithin(a, d + i, s + i, 16);
      CopyWithin(a, d + i + 16, s + i + 16, 16);
      i := i + 32;
    }
  }

  /** LZ4_wildCopy8 from the input. */
  method WildCopyIn8(a: array<byte>, d: nat, src: seq<byte>, s: nat, e: nat)
    requires d + Span8(e - d) <= a.Length && s + Span8(e - d) <= |src|
    modifies a
    ensures forall k :: 0 <= k < a.Length && !(d <= k < d + Span8(e - d)) ==> a[k] == old(a[k])
    ensures forall k :: d <= k < d + Span8(e - d) ==> a[k] == src[s + k - d]
  {
    CopyIn(a, d, src, s, 8);
    var i := 8;
    while d + i < e
      invariant 8 <= i <= Span8(e - d) && i % 8 == 0
      invariant forall k :: 0 <= k < a.Length && !(d <= k < d + i) ==> a[k] == old(a[k])
      invariant forall k :: d <= k < d + i ==> a[k] == src[s + k - d]
    {
      CopyIn(a, d + i, src, s + i, 8);
      i := i + 8;
    }
  }

  /** LZ4_wildCopy32 from the input. */
  method WildCopyIn32(a: array<byte>, d: nat, src: seq<byte>, s: nat, e: nat)
    requires d + Span32(e - d) <= a.Length && s + Span32(e - d) <= |src|
    modifies a
    ensures forall k :: 0 <= k < a.Length && !(d <= k < d + Span32(e - d)) ==> a[k] == old(a[k])
    ensures forall k :: d <= k < d + Span32(e - d) ==> a[k] == src[s + k - d]
  {
    CopyIn(a, d, src, s, 16);
    CopyIn(a, d + 16, src, s + 16, 16);
    var i := 32;
    while d + i < e
      invariant 32 <= i <= Span32(e - d) && i % 32 == 0
      invariant forall k :: 0 <= k < a.Length && !(d <= k < d + i) ==> a[k] == old(a[k])
      invariant forall k :: d <= k < d + i ==> a[k] == src[s + k - d]
    {
      CopyIn(a, d + i, src, s + i, 16);
      CopyIn(a, d + i + 16, src, s + i + 16, 16);
      i := i + 32;
    }
  }

  // ----- overlapping matches -----

  /** inc32table and dec64table. */
  const INC32: seq<nat> := [0, 1, 2, 1, 0, 4, 4, 4]
  const DEC64: seq<int> := [0, 0, 0, -1, -4, 1, 2, 3]

  /** The distance at which copying goes on after the 8-byte prologue for a small offset. */
  function WideDistance(offset: nat): int
    requires offset < 8
  {
    8 + offset - INC32[offset] + DEC64[offset]
  }

  /** Two-state summary of a match copy of `len` bytes at `op`: the output so far is kept and extended periodically. */
  ghost predicate MatchCopied(before: seq<byte>, after: seq<byte>, op: nat, offset: nat, len: nat) {
    && offset <= op && op + len <= |before| == |after|
    && after[..op] == before[..op]
    && forall k :: op <= k < op + len ==> after[k] == if offset == 0 then 0 else after[k - offset]
  }

  lemma MatchCopiedIsCopyMatch(before: seq<byte>, after: seq<byte>, op: nat, offset: nat, len: nat)
    requires MatchCopied(before, after, op, offset, len)
    ensures after[..op + len] == CopyMatch(before[..op], offset, len)
  {
    RepeatsIsCopyMatch(before[..op], after[..op + len], offset, len);
  }

  /**
   After the prologue the working distance is at least 8, a whole number of offsets, and does not
   reach before the match.
   */
  lemma WideDistanceFits(offset: nat)
    requires offset < 8
    ensures 8 <= WideDistance(offset) <= 8 + offset
    ensures offset > 0 ==> WideDistance(offset) % offset == 0
  {
  }

  /** The byte-by-byte and table-driven halves of the prologue together repeat with the offset. */
  lemma ProloguePeriod(s: seq<byte>, op: nat, offset: nat)
    requires 0 < offset < 8 && offset <= op && op + 8 <= |s|
    requires s[op] == s[op - offset] && s[op + 1] == s[op + 1 - offset]
    requires s[op + 2] == s[op + 2 - offset] && s[op + 3] == s[op + 3 - offset]
    requires forall k :: op + 4 <= k < op + 8 ==> s[k] == s[k - 4 - offset + INC32[offset]]
    ensures forall k :: op <= k < op + 8 ==> s[k] == s[k - offset]
  {
    var m := op - offset + INC32[offset];
    assert s[op + 4] == s[m] && s[op + 5] == s[m + 1] && s[op + 6] == s[m + 2] && s[op + 7] == s[m + 3];
    assert s[op + 4] == s[op + 4 - offset];
    assert s[op + 5] == s[op + 5 - offset];
    assert s[op + 6] == s[op + 6 - offset];
    assert s[op + 7] == s[op + 7 - offset];
  }

  /** Going back by whole periods. */
  lemma {:induction false} PeriodChain(s: seq<byte>, op: nat, end: nat, offset: nat, k: nat, m: nat)
    requires 0 < offset <= op && op <= k + offset && k < end <= |s| && m >= 1
    requires forall j :: op <= j < end ==> s[j] == s[j - offset]
    requires k >= op + (m - 1) * offset
    ensures k >= m * offset && s[k] == s[k - m * offset]
    decreases m
  {
    if m > 1 {
      assert (m - 1) * offset == (m - 2) * offset + offset;
      PeriodChain(s, op, end, offset, k, m - 1);
      var j := k - (m - 1) * offset;
      assert s[j] == s[j - offset];
      assert m * offset == (m - 1) * offset + offset;
    }
  }

  /** Copying at the wide distance keeps the period of the small offset (zeros when the offset is 0). */
  lemma {:induction false} WideKeepsPeriod(s: seq<byte>, op: nat, end: nat, offset: nat)
    requires offset < 8 && offset <= op && op + 8 <= end <= |s|
    requires forall k :: op <= k < op + 8 ==> s[k] == if offset == 0 then 0 else s[k - offset]
    requires forall k :: op + 8 <= k < end ==> s[k] == s[k - WideDistance(offset)]
    ensures forall k :: op <= k < end ==> s[k] == if offset == 0 then 0 else s[k - offset]
    decreases end
  {
    if end > op + 8 {
      var k, d := end - 1, WideDistance(offset);
      WideKeepsPeriod(s, op, end - 1, offset);
      WideDistanceFits(offset);
      assert s[k] == s[k - d];
      if offset > 0 {
        var m := d / offset;
        assert d == m * offset;
        assert op <= k - d + offset;
        if m > 1 {
          assert (m - 1) * offset == d - offset;
          assert (m - 2) * offset == d - offset - offset;
          PeriodChain(s, op, end - 1, offset, k - offset, m - 1);
        }
      }
    }
  }
}
