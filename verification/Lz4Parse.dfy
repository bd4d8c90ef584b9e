/**
 The sequences LZ4_compress_generic chooses, as a function of the source and of the hash table it starts with.
 The compressor writes them while it finds them; how much room the destination has changes none of them.
 */
module Lz4Parse {
  import opened Bytes
  import opened Lz4Format
  import opened Lz4Count

  const MIN_LENGTH: nat := MFLIMIT + 1
  const LIMIT_64K: nat := 65536 + (MFLIMIT - 1)
  const SKIP_TRIGGER: nat := 6
  const HASH_SLOTS: nat := 8192

  /** byPtr does not occur in 64-bit builds. */
  datatype TableType = ClearedTable | ByU32 | ByU16

  // ----- hashing -----

  function Read64(s: seq<byte>, i: nat): nat
    requires i + 8 <= |s|
  {
    Read32(s, i) + 0x1_0000_0000 * Read32(s, i + 4)
  }

  /** LZ4_hash4 (13 bits) for 16-bit tables. */
  function Hash4(sequence: nat): (h: nat)
    ensures h < 8192
  {
    sequence * 2654435761 % 0x1_0000_0000 / 0x8_0000
  }

  /** LZ4_hash5 (12 bits) for 32-bit tables. */
  function Hash5(sequence: nat): (h: nat)
    ensures h < 4096
  {
    sequence * 0x100_0000 % 0x1_0000_0000_0000_0000 * 889523592379 % 0x1_0000_0000_0000_0000 / 0x10_0000_0000_0000
  }

  function HashPosition(s: seq<byte>, i: nat, tableType: TableType): (h: nat)
    requires i + 8 <= |s|
    ensures h < HASH_SLOTS
  {
    if tableType == ByU16 then Hash4(Read32(s, i)) else Hash5(Read64(s, i))
  }

  // ----- the search -----

  /** What a choice depends on beside the table: source, table width, index of the first byte, acceleration. */
  datatype Job = Job(src: seq<byte>, tableType: TableType, start: nat, acceleration: nat)

  /** A position of this block where four bytes agree with those at `pos`. */
  ghost predicate MatchAt(src: seq<byte>, pos: nat, match_: nat) {
    && match_ < pos && pos - match_ <= DISTANCE_MAX && pos + MFLIMIT <= |src|
    && Agree(src, pos, match_, MINMATCH)
  }

  /** The position of this block the slot of `pos` names, if four bytes agree there. */
  ghost function Lookup(j: Job, table: seq<nat>, pos: nat): (m: Option<nat>)
    requires pos + MFLIMIT <= |j.src| && |table| == HASH_SLOTS
    ensures m.Some? ==> MatchAt(j.src, pos, m.value)
  {
    var index := table[HashPosition(j.src, pos, j.tableType)];
    if index < j.start || j.start + pos <= index || index + DISTANCE_MAX < j.start + pos then None
    else if Agree(j.src, pos, index - j.start, MINMATCH) then Some(index - j.start)
    else None
  }

  /** The table once `pos` is stored in its slot. */
  ghost function Noted(j: Job, table: seq<nat>, pos: nat): (t: seq<nat>)
    requires pos + 8 <= |j.src| && |table| == HASH_SLOTS
    ensures |t| == HASH_SLOTS
  {
    table[HashPosition(j.src, pos, j.tableType) := j.start + pos]
  }

  /** How far the search moves behind its visit number `k`. */
  function Step(acceleration: nat, k: nat): (d: nat)
    requires acceleration >= 1
    ensures d >= 1
  {
    if k == 0 then 1 else (acceleration * 64 + (k - 1)) / 64
  }

  datatype SearchEnd = NoMatch(table: seq<nat>) | Match(ip: nat, match_: nat, table: seq<nat>)

  /** The search from its visit number `k` on, at `pos`. */
  ghost function Search(j: Job, table: seq<nat>, pos: nat, k: nat): (r: SearchEnd)
    requires pos + MFLIMIT - 1 <= |j.src| && |table| == HASH_SLOTS && j.acceleration >= 1
    ensures |r.table| == HASH_SLOTS
    ensures r.Match? ==> pos <= r.ip && MatchAt(j.src, r.ip, r.match_)
    decreases |j.src| - pos
  {
    var next := pos + Step(j.acceleration, k);
    if next + MFLIMIT - 1 > |j.src| then NoMatch(table)
    else
      match Lookup(j, table, pos)
      case Some(m) => Match(pos, m, Noted(j, table, pos))
      case None => Search(j, Noted(j, table, pos), next, k + 1)
  }

  /** The position of visit number `k` of a search that starts at `ip0`. */
  function VisitAt(acceleration: nat, ip0: nat, k: nat): (p: nat)
    requires acceleration >= 1
    ensures p >= ip0
  {
    if k == 0 then ip0 else VisitAt(acceleration, ip0, k - 1) + Step(acceleration, k - 1)
  }

  /** The table after the first `k` visits of such a search. */
  ghost function TableAt(j: Job, table: seq<nat>, ip0: nat, k: nat): (t: seq<nat>)
    requires |table| == HASH_SLOTS && j.acceleration >= 1
    requires VisitAt(j.acceleration, ip0, k) + MFLIMIT - 1 <= |j.src|
    ensures |t| == HASH_SLOTS
  {
    if k == 0 then table else Noted(j, TableAt(j, table, ip0, k - 1), VisitAt(j.acceleration, ip0, k - 1))
  }

  // ----- the parse -----

  /** How many bytes agree from `a` and `b` on, up to `limit`. */
  ghost function Run(src: seq<byte>, a: nat, b: nat, limit: nat): (n: nat)
    requires b <= a <= limit <= |src|
    ensures LongestMatch(src, a, b, limit, n)
    decreases limit - a
  {
    if a == limit || src[a] != src[b] then 0 else 1 + Run(src, a + 1, b + 1, limit)
  }

  /** A longest match covers any agreement known before it was measured. */
  lemma LongestCovers(src: seq<byte>, ip: nat, match_: nat, limit: nat, n: nat, m: nat)
    requires LongestMatch(src, ip, match_, limit, n) && Agree(src, ip, match_, m) && ip + m <= limit
    ensures m <= n
  {
  }

  /** How far a match extends backwards, at most to `anchor`. */
  ghost function Back(src: seq<byte>, ip: nat, match_: nat, anchor: nat): (n: nat)
    requires anchor <= ip && match_ < ip && Agree(src, ip, match_, MINMATCH)
    ensures n <= ip - anchor && n <= match_ && Agree(src, ip - n, match_ - n, n + MINMATCH)
    decreases ip
  {
    if ip > anchor && match_ > 0 && src[ip - 1] == src[match_ - 1] then
      assert Agree(src, ip - 1, match_ - 1, MINMATCH);
      1 + Back(src, ip - 1, match_ - 1, anchor)
    else 0
  }

  /** The sequences of a block from a search at `pos` on, with `anchor` the end of the last match. */
  ghost function Parse(j: Job, table: seq<nat>, anchor: nat, pos: nat): (ss: seq<Sequence>)
    requires anchor < pos && pos + MFLIMIT - 1 <= |j.src| && |table| == HASH_SLOTS && j.acceleration >= 1
    ensures Encodable(ss) && (ss != [] ==> anchor + OutputSize(ss) + LASTLITERALS <= |j.src|)
    decreases |j.src| - anchor, 2
  {
    match Search(j, table, pos, 0)
    case NoMatch(_) => []
    case Match(ip, m, t) =>
      var n := Back(j.src, ip, m, anchor);
      From(j, t, anchor, ip - n, m - n)
  }

  /** The sequences from a match at `ip` on, whose literals begin at `anchor`. */
  ghost function From(j: Job, table: seq<nat>, anchor: nat, ip: nat, match_: nat): (ss: seq<Sequence>)
    requires anchor <= ip && MatchAt(j.src, ip, match_) && |table| == HASH_SLOTS && j.acceleration >= 1
    ensures Encodable(ss) && anchor + OutputSize(ss) + LASTLITERALS <= |j.src|
    decreases |j.src| - anchor, 1
  {
    var n := Run(j.src, ip, match_, |j.src| - LASTLITERALS);
    LongestCovers(j.src, ip, match_, |j.src| - LASTLITERALS, n, MINMATCH);
    var s := Sequence(j.src[anchor..ip], ip - match_, n);
    var rest := Onward(j, table, ip + n);
    SizesAdd([s], rest);
    [s] + rest
  }

  /** The sequences behind a match that ended at `ip`. */
  ghost function Onward(j: Job, table: seq<nat>, ip: nat): (ss: seq<Sequence>)
    requires 2 <= ip && ip + LASTLITERALS <= |j.src| && |table| == HASH_SLOTS && j.acceleration >= 1
    ensures Encodable(ss) && ip + OutputSize(ss) + LASTLITERALS <= |j.src|
    decreases |j.src| - ip, 3
  {
    if ip + MFLIMIT > |j.src| then []
    else
      var filled := Noted(j, table, ip - 2);
      match Lookup(j, filled, ip)
      case Some(m) => From(j, Noted(j, filled, ip), ip, ip, m)
      case None => Parse(j, Noted(j, filled, ip), ip, ip + 1)
  }

  lemma {:induction false} SizesAdd(a: seq<Sequence>, b: seq<Sequence>)
    ensures OutputSize(a + b) == OutputSize(a) + OutputSize(b)
  {
    if b == [] {
      assert a + b == a;
    } else {
      SizesAdd(a, b[..|b| - 1]);
      assert (a + b)[..|a + b| - 1] == a + b[..|b| - 1];
    }
  }

  lemma {:induction false} BytesAdd(a: seq<Sequence>, b: seq<Sequence>)
    requires Encodable(a + b)
    ensures Encodable(a) && Encodable(b) && SequencesBytes(a + b) == SequencesBytes(a) + SequencesBytes(b)
  {
    hide SequenceBytes;
    assert forall k :: 0 <= k < |a| ==> a[k] == (a + b)[k];
    assert forall k :: 0 <= k < |b| ==> b[k] == (a + b)[|a| + k];
    if b == [] {
      assert a + b == a;
    } else {
      var front, last := b[..|b| - 1], b[|b| - 1];
      assert (a + b)[..|a + b| - 1] == a + front;
      BytesAdd(a, front);
      var x, y, z := SequencesBytes(a), SequencesBytes(front), SequenceBytes(last);
      assert x + (y + z) == (x + y) + z;
    }
  }

  /** The block of a source: literals only below 13 bytes, otherwise the parse and the literals behind it. */
  ghost function Greedy(j: Job, table: seq<nat>): (b: Block)
    requires |table| == HASH_SLOTS && j.acceleration >= 1
    ensures Encodable(b.sequences) && OutputSize(b.sequences) + |b.last| == |j.src|
  {
    if |j.src| < MIN_LENGTH then Block([], j.src)
    else
      var ss := Parse(j, Noted(j, table, 0), 0, 1);
      Block(ss, j.src[OutputSize(ss)..])
  }

  // ----- what the choice amounts to -----

  /** No match can be extended: forwards up to the last five bytes, backwards over its literals. */
  ghost predicate Tight(src: seq<byte>, anchor: nat, ss: seq<Sequence>)
    decreases |ss|
  {
    ss == [] ||
    var s := ss[0];
    var ip, end := anchor + |s.literals|, anchor + |s.literals| + s.matchLen;
    && 1 <= s.offset <= ip && end + LASTLITERALS <= |src|
    && (end + LASTLITERALS < |src| ==> src[end] != src[end - s.offset])
    && (s.literals != [] && s.offset < ip ==> src[ip - 1] != src[ip - 1 - s.offset])
    && Tight(src, end, ss[1..])
  }

  lemma {:induction false} ParseTight(j: Job, table: seq<nat>, anchor: nat, pos: nat)
    requires anchor < pos && pos + MFLIMIT - 1 <= |j.src| && |table| == HASH_SLOTS && j.acceleration >= 1
    ensures Tight(j.src, anchor, Parse(j, table, anchor, pos))
    decreases |j.src| - anchor, 2
  {
    hide Search, Back, Agree, From, Tight, Encodable, OutputSize;
    match Search(j, table, pos, 0)
    case NoMatch(_) =>
      TightNothing(j.src, anchor);
    case Match(ip, m, t) =>
      var n := Back(j.src, ip, m, anchor);
      BackEnds(j.src, ip, m, anchor);
      AgreeLess(j.src, ip - n, m - n, n + MINMATCH, MINMATCH);
      FromTight(j, t, anchor, ip - n, m - n);
  }

  lemma {:induction false} BackEnds(src: seq<byte>, ip: nat, match_: nat, anchor: nat)
    requires anchor <= ip && match_ < ip && Agree(src, ip, match_, MINMATCH)
    ensures var n := Back(src, ip, match_, anchor);
            n < ip - anchor && n < match_ ==> src[ip - n - 1] != src[match_ - n - 1]
    decreases ip
  {
    if ip > anchor && match_ > 0 && src[ip - 1] == src[match_ - 1] {
      assert Agree(src, ip - 1, match_ - 1, MINMATCH);
      BackEnds(src, ip - 1, match_ - 1, anchor);
    }
  }

  lemma {:induction false} FromTight(j: Job, table: seq<nat>, anchor: nat, ip: nat, match_: nat)
    requires anchor <= ip && MatchAt(j.src, ip, match_) && |table| == HASH_SLOTS && j.acceleration >= 1
    requires anchor < ip && match_ > 0 ==> j.src[ip - 1] != j.src[match_ - 1]
    ensures Tight(j.src, anchor, From(j, table, anchor, ip, match_))
    decreases |j.src| - anchor, 1
  {
    hide Tight, Run, Onward, Agree, Encodable, OutputSize;
    var limit := |j.src| - LASTLITERALS;
    var n := Run(j.src, ip, match_, limit);
    LongestCovers(j.src, ip, match_, limit, n, MINMATCH);
    OnwardTight(j, table, ip + n);
    TightStep(j.src, anchor, Sequence(j.src[anchor..ip], ip - match_, n), Onward(j, table, ip + n));
  }

  lemma AgreeLess(src: seq<byte>, a: nat, b: nat, n: nat, k: nat)
    requires Agree(src, a, b, n) && k <= n
    ensures Agree(src, a, b, k)
  {
  }

  lemma TightNothing(src: seq<byte>, anchor: nat)
    ensures Tight(src, anchor, [])
  {
  }

  lemma TightStep(src: seq<byte>, anchor: nat, s: Sequence, rest: seq<Sequence>)
    requires var ip, end := anchor + |s.literals|, anchor + |s.literals| + s.matchLen;
             && 1 <= s.offset <= ip && end + LASTLITERALS <= |src|
             && (end + LASTLITERALS < |src| ==> src[end] != src[end - s.offset])
             && (s.literals != [] && s.offset < ip ==> src[ip - 1] != src[ip - 1 - s.offset])
             && Tight(src, end, rest)
    ensures Tight(src, anchor, [s] + rest)
  {
    assert ([s] + rest)[1..] == rest;
  }

  lemma {:induction false} OnwardTight(j: Job, table: seq<nat>, ip: nat)
    requires 2 <= ip && ip + LASTLITERALS <= |j.src| && |table| == HASH_SLOTS && j.acceleration >= 1
    ensures Tight(j.src, ip, Onward(j, table, ip))
    decreases |j.src| - ip, 3
  {
    hide Lookup, Noted, Tight, From, Parse, Agree, Encodable, OutputSize;
    if ip + MFLIMIT > |j.src| {
      TightNothing(j.src, ip);
    } else {
      var filled := Noted(j, table, ip - 2);
      match Lookup(j, filled, ip)
      case Some(m) => FromTight(j, Noted(j, filled, ip), ip, ip, m);
      case None => ParseTight(j, Noted(j, filled, ip), ip, ip + 1);
    }
  }

  lemma GreedyTight(j: Job, table: seq<nat>)
    requires |table| == HASH_SLOTS && j.acceleration >= 1
    ensures Tight(j.src, 0, Greedy(j, table).sequences)
  {
    if |j.src| >= MIN_LENGTH { ParseTight(j, Noted(j, table, 0), 0, 1); }
  }

  /** Equal bytes throughout have one hash, and any two positions of them agree. */
  lemma FillHashes(b: byte, n: nat, i: nat, k: nat, tableType: TableType)
    requires i + 8 <= n && k + 8 <= n
    ensures HashPosition(Fill(b, n), i, tableType) == HashPosition(Fill(b, n), k, tableType)
  {
    hide Hash4, Hash5;
    assert Read32(Fill(b, n), i) == Read32(Fill(b, n), k);
    assert Read32(Fill(b, n), i + 4) == Read32(Fill(b, n), k + 4);
  }

  /** Equal bytes are one literal, one match at distance 1, and the last five: whatever the table holds. */
  lemma FillParses(j: Job, table: seq<nat>, b: byte, n: nat)
    requires |table| == HASH_SLOTS && j.acceleration >= 1 && n >= MIN_LENGTH && j.src == Fill(b, n)
    ensures Greedy(j, table) == Block([Sequence([b], 1, n - 6)], Fill(b, 5))
    ensures |BlockBytes(Greedy(j, table))| == 10 + ExtraBytes(n - 10) <= n / 255 + 11
  {
    hide HashPosition;
    var t := Noted(j, table, 0);
    FillHashes(b, n, 0, 1, j.tableType);
    assert Lookup(j, t, 1) == Some(0);
    assert Search(j, t, 1, 0) == Match(1, 0, Noted(j, t, 1));
    var limit := n - LASTLITERALS;
    LongestCovers(j.src, 1, 0, limit, Run(j.src, 1, 0, limit), n - 6);
    assert Onward(j, Noted(j, t, 1), n - 5) == [];
    var s := Sequence(j.src[0..1], 1, n - 6);
    assert j.src[0..1] == [b] && j.src[n - 5..] == Fill(b, 5);
    assert Parse(j, t, 0, 1) == [s];
    SizesAdd([], [s]);
    assert [] + [s] == [s];
    SequenceCost(s);
    FillSize(s, Fill(b, 5));
  }

  lemma FillSize(s: Sequence, last: seq<byte>)
    requires s.matchLen >= MINMATCH && s.offset <= DISTANCE_MAX && |last| == 5
    ensures |BlockBytes(Block([s], last))| == |SequenceBytes(s)| + 6
  {
    hide SequenceBytes;
    assert [s][..|[s]| - 1] == [];
    assert SequencesBytes([s]) == [] + SequenceBytes(s);
    LengthBytesSize(5);
  }
}
