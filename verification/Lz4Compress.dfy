/**
 LZ4_compress_generic for one block on its own (64-bit little-endian build, no dictionary), in its
 notLimited and limitedOutput modes.
 */
module Lz4Compress {
  import opened Bytes
  import opened Lz4Format
  import opened Lz4Copy
  import opened Lz4Count
  import opened Lz4Parse

  // ----- table entries -----

  ghost predicate Below(table: seq<nat>, limit: nat) {
    |table| == HASH_SLOTS && forall h :: 0 <= h < |table| ==> table[h] < limit
  }

  /**
   The table may hold indices of earlier blocks: a block of `n` bytes that starts at index `start`
   must be able to tell them from its own.
   */
  ghost predicate Usable(table: seq<nat>, tableType: TableType, start: nat, n: nat, dictSmall: bool) {
    && tableType != ClearedTable
    && (tableType == ByU16 ==> start + n <= 65535 + MFLIMIT && (start == 0 || dictSmall))
    && (tableType == ByU32 ==> Far(table, start) && start + n <= 0x1_0000_0000)
  }

  /** The entry LZ4_putIndexOnHash stores: the index cast to the 16 or 32 bits of the table. */
  function Stored(idx: nat, tableType: TableType): nat {
    if tableType == ByU16 then idx % 0x1_0000 else idx % 0x1_0000_0000
  }

  /** The cast loses nothing of the index of a position that may start a match. */
  lemma StoredExactly(table: seq<nat>, tableType: TableType, start: nat, n: nat, dictSmall: bool, pos: nat)
    requires Usable(table, tableType, start, n, dictSmall) && pos + MFLIMIT <= n
    ensures Stored(start + pos, tableType) == start + pos
    ensures tableType == ByU16 ==> start + pos < 0x1_0000
  {
  }

  lemma UsableSpan(table: seq<nat>, tableType: TableType, start: nat, n: nat, dictSmall: bool)
    requires Usable(table, tableType, start, n, dictSmall)
    ensures tableType == ByU16 ==> start + n <= 65535 + MFLIMIT
  {
  }

  /** Every entry is of this block or more than the maximal distance before it. */
  ghost predicate Far(table: seq<nat>, start: nat) {
    forall h :: 0 <= h < |table| ==> table[h] >= start || table[h] + DISTANCE_MAX < start
  }

  /** The tests on a candidate index: not before the block, not too far back. */
  predicate Candidate(tableType: TableType, dictSmall: bool, start: nat, current: nat, matchIndex: nat) {
    !(dictSmall && matchIndex < start) && !(tableType != ByU16 && matchIndex + DISTANCE_MAX < current)
  }

  /** A candidate that passes is a position of this block at a distance the format can express. */
  lemma CandidateIsOurs(table: seq<nat>, tableType: TableType, start: nat, n: nat, dictSmall: bool, pos: nat, h: nat)
    requires Usable(table, tableType, start, n, dictSmall) && Below(table, start + pos) && h < HASH_SLOTS
    requires pos + MFLIMIT <= n && Candidate(tableType, dictSmall, start, start + pos, table[h])
    ensures start <= table[h] < start + pos && start + pos - table[h] <= DISTANCE_MAX
    ensures tableType == ByU16 ==> start + pos < 65536
  {
  }

  lemma Read32Agrees(src: seq<byte>, a: nat, b: nat)
    requires a + 4 <= |src| && b + 4 <= |src| && Read32(src, b) == Read32(src, a)
    ensures Agree(src, a, b, 4)
  {
    Read32Equal(src, b, a);
  }

  /** Storing the index of a position of this block keeps the table usable. */
  lemma StoreKeeps(table: seq<nat>, tableType: TableType, start: nat, n: nat, dictSmall: bool, limit: nat,
                   h: nat, pos: nat, newLimit: nat)
    requires Usable(table, tableType, start, n, dictSmall) && Below(table, limit) && h < HASH_SLOTS
    requires limit <= newLimit && start + pos < newLimit
    ensures Usable(table[h := start + pos], tableType, start, n, dictSmall)
    ensures Below(table[h := start + pos], newLimit)
  {
  }

  // ----- search -----

  /** The slot of `p` names no earlier position of this block within reach at which the same four bytes stand. */
  ghost predicate Misses(src: seq<byte>, table: seq<nat>, tableType: TableType, start: nat, p: nat)
    requires p + MFLIMIT <= |src| && |table| == HASH_SLOTS
  {
    var index := table[HashPosition(src, p, tableType)];
    || index < start || index >= start + p || index + 65535 < start + p
    || src[index - start..index - start + 4] != src[p..p + 4]
  }

  /** The first `k` visits of a search that starts at `ip0` all miss, each in the table the ones before it left. */
  ghost predicate AllMiss(j: Job, table: seq<nat>, ip0: nat, k: nat)
    requires |table| == HASH_SLOTS && j.acceleration >= 1
  {
    forall i | 0 <= i < k ::
      var p := VisitAt(j.acceleration, ip0, i);
      p + MFLIMIT <= |j.src| && Misses(j.src, TableAt(j, table, ip0, i), j.tableType, j.start, p)
  }

  lemma FirstVisit(j: Job, table: seq<nat>, ip0: nat)
    requires |table| == HASH_SLOTS && j.acceleration >= 1 && ip0 + MFLIMIT - 1 <= |j.src|
    ensures Step(j.acceleration, 0) == 1 && VisitAt(j.acceleration, ip0, 0) == ip0
    ensures TableAt(j, table, ip0, 0) == table && AllMiss(j, table, ip0, 0)
  {
  }

  lemma NextVisit(j: Job, table: seq<nat>, ip0: nat, k: nat)
    requires |table| == HASH_SLOTS && j.acceleration >= 1
    ensures Step(j.acceleration, k + 1) == (j.acceleration * 64 + k) / 64 >= 1
    ensures VisitAt(j.acceleration, ip0, k + 1) == VisitAt(j.acceleration, ip0, k) + Step(j.acceleration, k)
    ensures var p := VisitAt(j.acceleration, ip0, k);
            VisitAt(j.acceleration, ip0, k + 1) + MFLIMIT - 1 <= |j.src| ==>
              && p + MFLIMIT <= |j.src|
              && TableAt(j, table, ip0, k + 1) == Noted(j, TableAt(j, table, ip0, k), p)
  {
    hide Noted;
  }

  lemma MissesToo(j: Job, table: seq<nat>, ip0: nat, k: nat)
    requires |table| == HASH_SLOTS && j.acceleration >= 1 && AllMiss(j, table, ip0, k)
    requires VisitAt(j.acceleration, ip0, k) + MFLIMIT <= |j.src|
    requires Misses(j.src, TableAt(j, table, ip0, k), j.tableType, j.start, VisitAt(j.acceleration, ip0, k))
    ensures AllMiss(j, table, ip0, k + 1)
  {
    hide Misses, TableAt, VisitAt;
  }

  /** The tests on a candidate, put as a lookup. */
  lemma LookupTests(j: Job, table: seq<nat>, dictSmall: bool, pos: nat)
    requires Usable(table, j.tableType, j.start, |j.src|, dictSmall) && Below(table, j.start + pos)
    requires pos + MFLIMIT <= |j.src|
    ensures var index := table[HashPosition(j.src, pos, j.tableType)];
            if Candidate(j.tableType, dictSmall, j.start, j.start + pos, index) then
              && j.start <= index < j.start + pos
              && Lookup(j, table, pos)
                 == if Read32(j.src, index - j.start) == Read32(j.src, pos) then Some(index - j.start) else None
            else Lookup(j, table, pos) == None
    ensures Lookup(j, table, pos) == None <==> Misses(j.src, table, j.tableType, j.start, pos)
  {
    hide HashPosition, Read32;
    var h := HashPosition(j.src, pos, j.tableType);
    var index := table[h];
    if Candidate(j.tableType, dictSmall, j.start, j.start + pos, index) {
      CandidateIsOurs(table, j.tableType, j.start, |j.src|, dictSmall, pos, h);
      FourBytes(j.src, pos, index - j.start);
    }
  }

  lemma FourBytes(src: seq<byte>, a: nat, b: nat)
    requires a + 4 <= |src| && b + 4 <= |src|
    ensures Read32(src, b) == Read32(src, a) <==> Agree(src, a, b, 4)
    ensures src[b..b + 4] == src[a..a + 4] <==> Agree(src, a, b, 4)
  {
    Read32Equal(src, b, a);
    var s, t := src[b..b + 4], src[a..a + 4];
    assert s[0] == src[b] && s[1] == src[b + 1] && s[2] == src[b + 2] && s[3] == src[b + 3];
    assert t[0] == src[a] && t[1] == src[a + 1] && t[2] == src[a + 2] && t[3] == src[a + 3];
  }

  /** One turn of the search. */
  lemma SearchTurn(j: Job, table: seq<nat>, pos: nat, k: nat)
    requires pos + MFLIMIT - 1 <= |j.src| && |table| == HASH_SLOTS && j.acceleration >= 1
    ensures var next := pos + Step(j.acceleration, k);
            if next + MFLIMIT - 1 > |j.src| then Search(j, table, pos, k) == NoMatch(table)
            else Search(j, table, pos, k)
                 == match Lookup(j, table, pos)
                    case Some(m) => Match(pos, m, Noted(j, table, pos))
                    case None => Search(j, Noted(j, table, pos), next, k + 1)
  {
  }

  /** Read the slot of a position, leave its index there, and test what was found. */
  method TestPosition(src: seq<byte>, ip: nat, h: nat, table: array<nat>, tableType: TableType, start: nat,
                      dictSmall: bool, ghost j: Job) returns (found: bool, match_: nat)
    requires j.src == src && j.tableType == tableType && j.start == start
    requires ip + MFLIMIT <= |src| && h == HashPosition(src, ip, tableType)
    requires Usable(table[..], tableType, start, |src|, dictSmall) && Below(table[..], start + ip)
    modifies table
    ensures Usable(table[..], tableType, start, |src|, dictSmall) && Below(table[..], start + ip + 1)
    ensures |old(table[..])| == HASH_SLOTS && table[..] == Noted(j, old(table[..]), ip)
    ensures Lookup(j, old(table[..]), ip) == if found then Some(match_) else None
    ensures found ==> old(table[..])[h] == start + match_
    ensures found <==> !Misses(src, old(table[..]), tableType, start, ip)
  {
    hide HashPosition, Read32, Usable, Below, Agree, Candidate, Stored, Misses, Lookup;
    ghost var before := table[..];
    BelowSize(before, start + ip);
    LookupTests(j, before, dictSmall, ip);
    var current := start + ip;
    var matchIndex := table[h];
    StoredExactly(before, tableType, start, |src|, dictSmall, ip);
    table[h] := Stored(current, tableType);
    StoreKeeps(before, tableType, start, |src|, dictSmall, start + ip, h, ip, start + ip + 1);
    assert table[..] == before[h := current];
    if !Candidate(tableType, dictSmall, start, current, matchIndex) { return false, 0; }
    match_ := matchIndex - start;
    found := Read32(src, match_) == Read32(src, ip);
  }

  /**
   The match search: greedy, with steps that grow with the number of misses. Its first `k` visits found in their
   slots an index before the block, one too far back, or four other bytes; each visit left its own index there.
   */
  method FindMatch(src: seq<byte>, ip0: nat, forwardH0: nat, table: array<nat>, tableType: TableType,
                   start: nat, dictSmall: bool, acceleration: nat)
    returns (found: bool, ip: nat, match_: nat, ghost k: nat)
    requires |src| >= MIN_LENGTH && acceleration >= 1 && 1 <= ip0 <= |src| - MFLIMIT + 1
    requires forwardH0 == HashPosition(src, ip0, tableType)
    requires Usable(table[..], tableType, start, |src|, dictSmall) && Below(table[..], start + ip0)
    modifies table
    ensures Usable(table[..], tableType, start, |src|, dictSmall)
    ensures found ==> ip0 <= ip && MatchAt(src, ip, match_) && Below(table[..], start + ip + 1)
    ensures !found ==> Below(table[..], start + |src| - MFLIMIT + 1)
    ensures ip == VisitAt(acceleration, ip0, k) && ip + MFLIMIT - 1 <= |src|
    ensures found <==> VisitAt(acceleration, ip0, k + 1) + MFLIMIT - 1 <= |src|
    ensures AllMiss(Job(src, tableType, start, acceleration), old(table[..]), ip0, k)
    ensures found ==>
              TableAt(Job(src, tableType, start, acceleration), old(table[..]), ip0, k)
                [HashPosition(src, ip, tableType)] == start + match_
    ensures table[..] == TableAt(Job(src, tableType, start, acceleration), old(table[..]), ip0,
                                 if found then k + 1 else k)
    ensures Search(Job(src, tableType, start, acceleration), old(table[..]), ip0, 0)
            == if found then Match(ip, match_, table[..]) else NoMatch(table[..])
  {
    hide HashPosition, Agree, Usable, Below, Misses, AllMiss, Search, Lookup, Noted, Step, VisitAt, TableAt;
    var mflimitPlusOne := |src| - MFLIMIT + 1;
    var forwardIp, step, searchMatchNb, forwardH := ip0, 1, acceleration * 64, forwardH0;
    ghost var j, table0 := Job(src, tableType, start, acceleration), table[..];
    ip, match_, k := ip0, 0, 0;
    BelowSize(table0, start + ip0);
    FirstVisit(j, table0, ip0);
    while true
      invariant ip0 <= forwardIp <= mflimitPlusOne && step == Step(acceleration, k)
      invariant searchMatchNb == acceleration * 64 + k && forwardIp == VisitAt(acceleration, ip0, k)
      invariant forwardH == HashPosition(src, forwardIp, tableType)
      invariant Usable(table[..], tableType, start, |src|, dictSmall) && Below(table[..], start + forwardIp)
      invariant |table[..]| == HASH_SLOTS && table[..] == TableAt(j, table0, ip0, k)
      invariant Search(j, table0, ip0, 0) == Search(j, table[..], forwardIp, k)
      invariant AllMiss(j, table0, ip0, k)
      decreases mflimitPlusOne - forwardIp
    {
      var h := forwardH;
      ip := forwardIp;
      forwardIp := forwardIp + step;
      step := searchMatchNb / 64;
      searchMatchNb := searchMatchNb + 1;
      SearchTurn(j, table[..], ip, k);
      NextVisit(j, table0, ip0, k);
      if forwardIp > mflimitPlusOne {
        BelowWeakens(table[..], start + ip, start + |src| - MFLIMIT + 1);
        return false, ip, 0, k;
      }
      forwardH := HashPosition(src, forwardIp, tableType);
      found, match_ := TestPosition(src, ip, h, table, tableType, start, dictSmall, j);
      if found { return true, ip, match_, k; }
      MissesToo(j, table0, ip0, k);
      BelowWeakens(table[..], start + ip + 1, start + forwardIp);
      k := k + 1;
    }
  }

  /** Catch up: extend a match backwards over bytes not yet encoded. */
  method CatchUp(src: seq<byte>, ip0: nat, match0: nat, anchor: nat) returns (ip: nat, match_: nat)
    requires anchor <= ip0 && MatchAt(src, ip0, match0)
    ensures anchor <= ip <= ip0 && MatchAt(src, ip, match_) && ip - match_ == ip0 - match0
    ensures Agree(src, ip, match_, ip0 - ip + MINMATCH)
    ensures ip == anchor || match_ == 0 || src[ip - 1] != src[match_ - 1]
    ensures ip0 - ip == Back(src, ip0, match0, anchor)
  {
    ip, match_ := ip0, match0;
    while ip > anchor && match_ > 0 && src[ip - 1] == src[match_ - 1]
      invariant anchor <= ip <= ip0 && match_ <= match0 && ip - match_ == ip0 - match0
      invariant Agree(src, ip, match_, ip0 - ip + MINMATCH)
      invariant Back(src, ip0, match0, anchor) == ip0 - ip + Back(src, ip, match_, anchor)
      decreases ip
    {
      ip, match_ := ip - 1, match_ - 1;
    }
  }

  // ----- writing sequences -----

  /** The bytes of a length beyond its nibble, one at a time. */
  method WriteLengthTail(dst: array<byte>, op0: nat, n: nat) returns (op: nat)
    requires op0 + n / 255 + 1 <= dst.Length
    modifies dst
    ensures op == op0 + n / 255 + 1
    ensures dst[..op] == old(dst[..op0]) + LengthTail(n)
  {
    op := op0;
    var len := n;
    ghost var whole := dst[..op0] + LengthTail(n);
    while len >= 255
      invariant op0 <= op && op + len / 255 == op0 + n / 255
      invariant dst[..op] + LengthTail(len) == whole
    {
      ghost var before := dst[..op];
      dst[op] := 255;
      assert dst[..op + 1] == before + [255];
      op, len := op + 1, len - 255;
    }
    ghost var before := dst[..op];
    dst[op] := len;
    assert dst[..op + 1] == before + [len];
    op := op + 1;
  }

  /** A token with an empty match nibble, and the literal length behind it. */
  method WriteHead(dst: array<byte>, token: nat, n: nat) returns (op: nat)
    requires token + 1 + ExtraBytes(n) <= dst.Length
    modifies dst
    ensures op == token + 1 + ExtraBytes(n)
    ensures dst[..op] == old(dst[..token]) + [Nibble(n) * 16] + LengthBytes(n)
  {
    ghost var before := dst[..token];
    op := token + 1;
    if n >= RUN_MASK {
      dst[token] := RUN_MASK * 16;
      assert dst[..op] == before + [Nibble(n) * 16];
      op := WriteLengthTail(dst, op, n - RUN_MASK);
    } else {
      dst[token] := n * 16;
      assert dst[..op] == before + [Nibble(n) * 16];
      assert dst[..op] + [] == dst[..op];
    }
  }

  /** Token and literals of a sequence; the match nibble of the token is still zero. */
  method WriteLiterals(src: seq<byte>, dst: array<byte>, token: nat, anchor: nat, n: nat) returns (op: nat)
    requires anchor + n + MFLIMIT <= |src| && token + 1 + n + (2 + 1 + LASTLITERALS) + n / 255 <= dst.Length
    modifies dst
    ensures op == token + 1 + ExtraBytes(n) + n
    ensures dst[..op] == old(dst[..token]) + [Nibble(n) * 16] + LengthBytes(n) + src[anchor..anchor + n]
  {
    hide LengthBytes;
    op := WriteHead(dst, token, n);
    ghost var head := dst[..op];
    WildCopyIn8(dst, op, src, anchor, op + n);
    assert dst[..op] == head;
    SliceCopied(dst[..], op, src, anchor, n);
    assert dst[..op + n] == dst[..op] + dst[op..op + n];
    op := op + n;
  }

  /** A long match length: four bytes of 255 are stored ahead of the cursor each time. */
  method WriteMatchTail(dst: array<byte>, op0: nat, n: nat) returns (op: nat)
    requires op0 + (1 + LASTLITERALS) + (n + 255) / 255 <= dst.Length
    modifies dst
    ensures op == op0 + n / 255 + 1
    ensures dst[..op] == old(dst[..op0]) + LengthTail(n)
  {
    hide LengthTail;
    op := op0;
    var matchCode := n;
    dst[op], dst[op + 1], dst[op + 2], dst[op + 3] := 255, 255, 255, 255;
    while matchCode >= 4 * 255
      invariant op0 <= op && 255 * (op - op0) + matchCode == n
      invariant forall k :: 0 <= k < op0 ==> dst[k] == old(dst[k])
      invariant forall k :: op0 <= k < op + 4 ==> dst[k] == 255
    {
      op := op + 4;
      dst[op], dst[op + 1], dst[op + 2], dst[op + 3] := 255, 255, 255, 255;
      matchCode := matchCode - 4 * 255;
    }
    WholeRuns(op - op0, matchCode);
    op := op + matchCode / 255;
    dst[op] := matchCode % 255;
    op := op + 1;
    TailAssembled(old(dst[..op0]), dst[..], op0, n);
  }

  lemma WholeRuns(q: nat, m: nat)
    ensures (255 * q + m) / 255 == q + m / 255 && (255 * q + m) % 255 == m % 255
  {
  }

  lemma TailAssembled(before: seq<byte>, dst: seq<byte>, op0: nat, n: nat)
    requires |before| == op0 && op0 + n / 255 + 1 <= |dst| && dst[..op0] == before
    requires forall k :: op0 <= k < op0 + n / 255 ==> dst[k] == 255
    requires dst[op0 + n / 255] == n % 255
    ensures dst[..op0 + n / 255 + 1] == before + LengthTail(n)
  {
    LengthTailForm(n);
  }

  /** The match length: the low nibble of the token, and what does not fit there. */
  method WriteMatchCode(dst: array<byte>, token: nat, op0: nat, matchCode: nat, ghost body: seq<byte>)
    returns (op: nat)
    requires token < op0 && op0 + (1 + LASTLITERALS) + (matchCode + 240) / 255 <= dst.Length
    requires dst[token] <= 240 && dst[token + 1..op0] == body
    modifies dst
    ensures op == op0 + ExtraBytes(matchCode)
    ensures dst[..op] == old(dst[..token]) + [old(dst[token]) + Nibble(matchCode)] + body + LengthBytes(matchCode)
  {
    ghost var before := dst[..token];
    dst[token] := dst[token] + Nibble(matchCode);
    assert dst[..token] == before && dst[token + 1..op0] == body;
    assert dst[..op0] == dst[..token] + [dst[token]] + dst[token + 1..op0];
    op := op0;
    if matchCode >= ML_MASK {
      op := WriteMatchTail(dst, op, matchCode - ML_MASK);
    } else {
      assert dst[..op0] + [] == dst[..op0];
    }
  }

  /** Offset and match length behind literals: completes the token and the sequence. */
  method WriteMatch(dst: array<byte>, token: nat, op0: nat, offset: nat, matchCode: nat, limited: bool, olimit: nat,
                    ghost s: Sequence) returns (ok: bool, op: nat)
    requires token < op0 && op0 + 2 <= dst.Length && (limited ==> olimit <= dst.Length)
    requires !limited ==> op0 + 2 + (1 + LASTLITERALS) + (matchCode + 240) / 255 <= dst.Length
    requires s.offset == offset <= DISTANCE_MAX && s.matchLen == matchCode + MINMATCH
    requires dst[token..op0] == [Nibble(|s.literals|) * 16] + LengthBytes(|s.literals|) + s.literals
    modifies dst
    ensures ok <==> !limited || op0 + 2 + (1 + LASTLITERALS) + (matchCode + 240) / 255 <= olimit
    ensures ok ==> op <= dst.Length && dst[..op] == old(dst[..token]) + SequenceBytes(s)
    ensures ok && limited ==> op + 1 + LASTLITERALS <= olimit
  {
    hide LengthBytes, ExtraBytes, SequenceBytes;
    ghost var before := dst[..token];
    ghost var nibble: byte := Nibble(|s.literals|) * 16;
    ghost var lengths, field: seq<byte> := LengthBytes(|s.literals|), [offset % 256, offset / 256];
    LiteralPart(dst[..], token, op0, nibble, lengths, s.literals);
    dst[op0], dst[op0 + 1] := offset % 256, offset / 256;
    op := op0 + 2;
    if limited && op + (1 + LASTLITERALS) + (matchCode + 240) / 255 > olimit { return false, op; }
    ok := true;
    assert dst[token] == nibble && dst[..token] == before;
    assert dst[token + 1..op] == dst[token + 1..op0] + dst[op0..op] == lengths + s.literals + field;
    op := WriteMatchCode(dst, token, op, matchCode, lengths + s.literals + field);
    SequenceAssembled(before, s);
    ExtraBytesForm(matchCode);
  }

  lemma LiteralPart(dst: seq<byte>, token: nat, op: nat, nibble: byte, lengths: seq<byte>, literals: seq<byte>)
    requires token < op <= |dst| && dst[token..op] == [nibble] + lengths + literals
    ensures dst[token] == nibble && dst[token + 1..op] == lengths + literals
  {
    assert dst[token..op][0] == nibble;
    assert dst[token..op][1..] == dst[token + 1..op];
    assert ([nibble] + lengths + literals)[1..] == lengths + literals;
  }

  lemma ExtraBytesForm(n: nat)
    ensures ExtraBytes(n) == (n + 240) / 255
  {
  }

  lemma SequenceAssembled(before: seq<byte>, s: Sequence)
    requires s.offset <= DISTANCE_MAX && s.matchLen >= MINMATCH
    ensures var n, m := |s.literals|, s.matchLen - MINMATCH;
            var field: seq<byte> := [s.offset % 256, s.offset / 256];
            before + [Nibble(n) * 16 + Nibble(m)] + (LengthBytes(n) + s.literals + field) + LengthBytes(m)
            == before + SequenceBytes(s)
  {
    hide LengthBytes;
    var n, m := |s.literals|, s.matchLen - MINMATCH;
    var field: seq<byte> := [s.offset % 256, s.offset / 256];
    var token: seq<byte> := [Token(n, m)];
    var nl, lits, ml := LengthBytes(n), s.literals, LengthBytes(m);
    assert before + token + (nl + lits + field) + ml == before + (token + nl + lits + field + ml);
  }

  // ----- the block built so far -----

  /** `bytes` encode `src[..anchor]` as conforming sequences of a block of `|src|` bytes. */
  ghost predicate Encoded(ss: seq<Sequence>, bytes: seq<byte>, src: seq<byte>, anchor: nat) {
    && Conforming(ss, |src|)
    && anchor <= |src| && OutputSize(ss) == anchor
    && bytes == SequencesBytes(ss) && Expand(ss) == src[..anchor]
  }

  /** Literals from the anchor and a match against earlier bytes of the source extend the block. */
  lemma AppendSequence(ss: seq<Sequence>, s: Sequence, bytes: seq<byte>, src: seq<byte>, anchor: nat, ip: nat)
    requires Encoded(ss, bytes, src, anchor) && anchor <= ip && ip + MFLIMIT <= |src|
    requires s.literals == src[anchor..ip] && 1 <= s.offset <= ip && s.offset <= DISTANCE_MAX
    requires MINMATCH <= s.matchLen && ip + s.matchLen + LASTLITERALS <= |src|
    requires Agree(src, ip, ip - s.offset, s.matchLen)
    ensures Encoded(ss + [s], bytes + SequenceBytes(s), src, ip + s.matchLen)
  {
    hide CopyMatch, Agree, SequenceBytes;
    var ss' := ss + [s];
    assert ss'[..|ss'| - 1] == ss && ss'[|ss'| - 1] == s;
    assert Conforming(ss', |src|);
    assert SequencesBytes(ss') == bytes + SequenceBytes(s);
    assert Expand(ss) + s.literals == src[..ip];
    SourceRepeats(src, ip, s.offset, s.matchLen);
  }

  /** A match inside the source is what the decoder's match copy produces. */
  lemma SourceRepeats(src: seq<byte>, ip: nat, offset: nat, len: nat)
    requires 1 <= offset <= ip && ip + len <= |src| && Agree(src, ip, ip - offset, len)
    ensures CopyMatch(src[..ip], offset, len) == src[..ip + len]
  {
    var after := src[..ip + len];
    assert after[..ip] == src[..ip];
    RepeatsIsCopyMatch(src[..ip], after, offset, len);
  }

  /** Room for the rest of a block of `n` bytes in a destination of LZ4_COMPRESSBOUND bytes. */
  lemma RoomLeft(ss: seq<Sequence>, bytes: seq<byte>, src: seq<byte>, anchor: nat)
    requires Encoded(ss, bytes, src, anchor)
    ensures 255 * |bytes| <= 256 * anchor
  {
    SequencesCost(ss);
  }

  /** The destination is large enough for the mode: the limit is inside it, or it has LZ4_COMPRESSBOUND bytes. */
  ghost predicate Room(n: nat, limited: bool, olimit: nat, size: nat) {
    && n <= MAX_INPUT_SIZE
    && (limited ==> olimit <= size)
    && (!limited ==> CompressBound(n) <= size)
  }

  /** The encoder stands behind the literals of a sequence: token and literals are written, the match is known. */
  ghost predicate AtMatch(ss: seq<Sequence>, dst: seq<byte>, src: seq<byte>, anchor: nat, token: nat, op: nat,
                          ip: nat, match_: nat, limited: bool)
    ensures AtMatch(ss, dst, src, anchor, token, op, ip, match_, limited) ==> anchor <= ip && MatchAt(src, ip, match_)
  {
    && token < op <= |dst| && anchor <= ip && MatchAt(src, ip, match_)
    && Encoded(ss, dst[..token], src, anchor)
    && dst[token..op] == [Nibble(ip - anchor) * 16] + LengthBytes(ip - anchor) + src[anchor..ip]
    && (limited ==> op + 2 <= |dst|)
  }

  lemma StandsAtMatch(ss: seq<Sequence>, dst: seq<byte>, src: seq<byte>, anchor: nat, token: nat, op: nat,
                      ip: nat, match_: nat, limited: bool)
    requires token < op <= |dst| && anchor <= ip && MatchAt(src, ip, match_)
    requires Encoded(ss, dst[..token], src, anchor)
    requires dst[token..op] == [Nibble(ip - anchor) * 16] + LengthBytes(ip - anchor) + src[anchor..ip]
    requires limited ==> op + 2 <= |dst|
    ensures AtMatch(ss, dst, src, anchor, token, op, ip, match_, limited)
  {
  }

  lemma HeadLength(ss: seq<Sequence>, dst: seq<byte>, src: seq<byte>, anchor: nat, token: nat, op: nat,
                   ip: nat, match_: nat, limited: bool)
    requires AtMatch(ss, dst, src, anchor, token, op, ip, match_, limited)
    ensures Encodable(ss) && |SequencesBytes(ss)| == token && op == token + 1 + ExtraBytes(ip - anchor) + (ip - anchor)
    ensures match_ < ip && ip - match_ <= DISTANCE_MAX
  {
    hide LengthBytes, Conforming, SequencesBytes, Expand, OutputSize, Agree;
    LengthBytesSize(ip - anchor);
    assert |dst[token..op]| == op - token;
  }

  lemma MatchRoom(ss: seq<Sequence>, dst: seq<byte>, src: seq<byte>, anchor: nat, token: nat, op: nat,
                  ip: nat, match_: nat, matchCode: nat)
    requires AtMatch(ss, dst, src, anchor, token, op, ip, match_, false)
    requires |src| <= MAX_INPUT_SIZE && CompressBound(|src|) <= |dst|
    requires ip + MINMATCH + matchCode + LASTLITERALS <= |src|
    ensures op + 2 + (1 + LASTLITERALS) + (matchCode + 240) / 255 <= |dst|
  {
    RoomLeft(ss, dst[..token], src, anchor);
    HeadLength(ss, dst, src, anchor, token, op, ip, match_, false);
    hide Encoded, AtMatch, LengthBytes, Agree;
    MatchArithmetic(op, token, ip, anchor, matchCode, |src|);
  }

  lemma MatchArithmetic(op: nat, token: nat, ip: nat, anchor: nat, matchCode: nat, n: nat)
    requires 255 * token <= 256 * anchor && anchor <= ip && op == token + 1 + ExtraBytes(ip - anchor) + (ip - anchor)
    requires n <= MAX_INPUT_SIZE && ip + MINMATCH + matchCode + LASTLITERALS <= n
    ensures op + 2 + (1 + LASTLITERALS) + (matchCode + 240) / 255 <= CompressBound(n)
  {
  }

  /** The sequences, a token and the last five literals do not fit. */
  ghost predicate TooLong(ss: seq<Sequence>, olimit: nat) {
    Encodable(ss) && |SequencesBytes(ss)| + 1 + LASTLITERALS > olimit
  }

  /** Sequences that are too long stay so, whatever follows. */
  lemma LongerStill(ss: seq<Sequence>, more: seq<Sequence>, olimit: nat)
    requires TooLong(ss, olimit) && Encodable(more)
    ensures TooLong(ss + more, olimit)
  {
    BytesAdd(ss, more);
  }

  /** The limit test of a match counts what its sequence takes. */
  lemma MatchTooLong(ss: seq<Sequence>, s: Sequence, token: nat, op: nat, olimit: nat)
    requires Encodable(ss) && s.matchLen >= MINMATCH && s.offset <= DISTANCE_MAX && |SequencesBytes(ss)| == token
    requires op == token + 1 + ExtraBytes(|s.literals|) + |s.literals|
    requires op + 2 + (1 + LASTLITERALS) + (s.matchLen - MINMATCH + 240) / 255 > olimit
    ensures TooLong(ss + [s], olimit)
  {
    hide SequenceBytes;
    SequenceCost(s);
    ExtraBytesForm(s.matchLen - MINMATCH);
    assert (ss + [s])[..|ss + [s]| - 1] == ss;
  }

  /** So does the limit test of literals, for any match behind them. */
  lemma LiteralsTooLong(ss: seq<Sequence>, s: Sequence, token: nat, olimit: nat)
    requires Encodable(ss) && s.matchLen >= MINMATCH && s.offset <= DISTANCE_MAX && |SequencesBytes(ss)| == token
    requires token + 1 + |s.literals| + (2 + 1 + LASTLITERALS) + |s.literals| / 255 > olimit
    ensures TooLong(ss + [s], olimit)
  {
    hide SequenceBytes;
    SequenceCost(s);
    assert (ss + [s])[..|ss + [s]| - 1] == ss;
  }

  /** From `_next_match`: measure the match, write offset and length, move behind it. */
  method EmitMatch(src: seq<byte>, dst: array<byte>, token: nat, op0: nat, ip0: nat, match_: nat,
                   limited: bool, olimit: nat, ghost anchor: nat, ghost ss0: seq<Sequence>, ghost filled: nat)
    returns (ok: bool, op: nat, ip: nat, ghost ss: seq<Sequence>)
    requires Room(|src|, limited, olimit, dst.Length)
    requires AtMatch(ss0, dst[..], src, anchor, token, op0, ip0, match_, limited)
    requires ip0 <= filled && filled + MFLIMIT <= |src| && Agree(src, ip0, match_, filled - ip0 + MINMATCH)
    modifies dst
    ensures !limited ==> ok
    ensures ok ==> op <= dst.Length && Encoded(ss, dst[..op], src, ip)
    ensures filled + MINMATCH <= ip && ip + LASTLITERALS <= |src|
    ensures ok && limited ==> op + 1 + LASTLITERALS <= olimit
    ensures ip + LASTLITERALS < |src| ==> src[ip] != src[ip - (ip0 - match_)]
    ensures ip == ip0 + Run(src, ip0, match_, |src| - LASTLITERALS)
    ensures ss == ss0 + [Sequence(src[anchor..ip0], ip0 - match_, ip - ip0)]
    ensures !ok ==> TooLong(ss, olimit)
  {
    hide Encoded, LengthBytes, SequenceBytes, Agree, LongestMatch, TooLong, Run, Encodable, ExtraBytes;
    var matchlimit := |src| - LASTLITERALS;
    var matchCode := Count(src, ip0 + MINMATCH, match_ + MINMATCH, matchlimit);
    ip := ip0 + matchCode + MINMATCH;
    assert LongestMatch(src, ip0, match_, matchlimit, MINMATCH + matchCode) by {
      MatchesJoin(src, ip0, match_, matchlimit, MINMATCH, matchCode);
    }
    LongestCovers(src, ip0, match_, matchlimit, MINMATCH + matchCode, filled - ip0 + MINMATCH);
    ghost var s := Sequence(src[anchor..ip0], ip0 - match_, matchCode + MINMATCH);
    LongestAgrees(src, ip0, match_, matchlimit, MINMATCH + matchCode);
    if !limited { MatchRoom(ss0, dst[..], src, anchor, token, op0, ip0, match_, matchCode); }
    ghost var before := dst[..token];
    LongestUnique(src, ip0, match_, matchlimit, MINMATCH + matchCode);
    HeadLength(ss0, dst[..], src, anchor, token, op0, ip0, match_, limited);
    ok, op := WriteMatch(dst, token, op0, ip0 - match_, matchCode, limited, olimit, s);
    ss := ss0 + [s];
    if ok {
      AppendSequence(ss0, s, before, src, anchor, ip0);
    } else {
      MatchTooLong(ss0, s, token, op0, olimit);
    }
  }

  lemma LongestUnique(src: seq<byte>, ip: nat, match_: nat, limit: nat, n: nat)
    requires match_ <= ip <= limit <= |src| && LongestMatch(src, ip, match_, limit, n)
    ensures n == Run(src, ip, match_, limit)
    ensures ip + n < limit ==> src[ip + n] != src[match_ + n]
  {
    hide Run;
    LongestCovers(src, ip, match_, limit, n, Run(src, ip, match_, limit));
    LongestCovers(src, ip, match_, limit, Run(src, ip, match_, limit), n);
  }

  lemma LongestAgrees(src: seq<byte>, ip: nat, match_: nat, limit: nat, n: nat)
    requires LongestMatch(src, ip, match_, limit, n)
    ensures Agree(src, ip, match_, n) && ip + n <= limit
  {
  }

  /** "Fill table" and "test next position" behind a match. */
  method NextMatch(src: seq<byte>, ip: nat, table: array<nat>, tableType: TableType, start: nat, dictSmall: bool,
                   ghost j: Job)
    returns (found: bool, match_: nat)
    requires j.src == src && j.tableType == tableType && j.start == start
    requires 2 <= ip && ip + MFLIMIT <= |src|
    requires Usable(table[..], tableType, start, |src|, dictSmall) && Below(table[..], start + ip)
    modifies table
    ensures Usable(table[..], tableType, start, |src|, dictSmall) && Below(table[..], start + ip + 1)
    ensures |old(table[..])| == HASH_SLOTS && table[..] == Noted(j, Noted(j, old(table[..]), ip - 2), ip)
    ensures Lookup(j, Noted(j, old(table[..]), ip - 2), ip) == if found then Some(match_) else None
    ensures found <==> !Misses(src, Noted(j, old(table[..]), ip - 2), tableType, start, ip)
  {
    hide HashPosition, Usable, Below, Agree, Stored, Misses, Lookup;
    ghost var before := table[..];
    BelowSize(before, start + ip);
    var h2 := HashPosition(src, ip - 2, tableType);
    StoredExactly(before, tableType, start, |src|, dictSmall, ip - 2);
    table[h2] := Stored(start + (ip - 2), tableType);
    StoreKeeps(before, tableType, start, |src|, dictSmall, start + ip, h2, ip - 2, start + ip);
    assert table[..] == Noted(j, before, ip - 2);
    found, match_ := TestPosition(src, ip, HashPosition(src, ip, tableType), table, tableType, start, dictSmall, j);
  }

  /** Test behind a match that ended at `ip`: if another begins there, its token stands without literals. */
  method NextSequence(src: seq<byte>, dst: array<byte>, op0: nat, ip: nat, limited: bool, table: array<nat>,
                      tableType: TableType, start: nat, dictSmall: bool, ghost j: Job, ghost ss: seq<Sequence>)
    returns (found: bool, op: nat, match_: nat)
    requires j.src == src && j.tableType == tableType && j.start == start && j.acceleration >= 1
    requires table as object != dst && 2 <= ip && ip + MFLIMIT <= |src| <= MAX_INPUT_SIZE
    requires op0 + 3 <= dst.Length && Encoded(ss, dst[..op0], src, ip)
    requires Usable(table[..], tableType, start, |src|, dictSmall) && Below(table[..], start + ip)
    modifies dst, table
    ensures Usable(table[..], tableType, start, |src|, dictSmall) && Below(table[..], start + ip + 1)
    ensures |old(table[..])| == |table[..]| == HASH_SLOTS
    ensures if found then AtMatch(ss, dst[..], src, ip, op0, op, ip, match_, limited)
            else op == op0 && dst[..op] == old(dst[..op0])
    ensures Onward(j, old(table[..]), ip)
            == if found then From(j, table[..], ip, ip, match_) else Parse(j, table[..], ip, ip + 1)
  {
    hide Encoded, LengthBytes, Usable, Below, Agree, Noted, Lookup, Misses, From, Parse, Onward;
    BelowSize(table[..], start + ip);
    OnwardTurn(j, table[..], ip);
    op := op0;
    ghost var done := dst[..op];
    found, match_ := NextMatch(src, ip, table, tableType, start, dictSmall, j);
    if found {
      ZeroLiteralToken(src, ip);
      dst[op] := 0;
      op := op + 1;
      assert dst[..op0] == done && dst[op0..op] == [0];
    }
  }

  datatype RunEnd = OutOfRoom | EndOfChunk | NoFurtherMatch

  /** A match and every match that follows it without literals in between. */
  method MatchRun(src: seq<byte>, dst: array<byte>, token0: nat, op0: nat, ip0: nat, match0: nat, limited: bool,
                  olimit: nat, table: array<nat>, tableType: TableType, start: nat, dictSmall: bool,
                  ghost anchor0: nat, ghost ss0: seq<Sequence>, ghost filled0: nat, ghost j: Job)
    returns (end: RunEnd, op: nat, ip: nat, ghost ss: seq<Sequence>)
    requires table as object != dst && Room(|src|, limited, olimit, dst.Length)
    requires j.src == src && j.tableType == tableType && j.start == start && j.acceleration >= 1
    requires AtMatch(ss0, dst[..], src, anchor0, token0, op0, ip0, match0, limited)
    requires ip0 <= filled0 && filled0 + MFLIMIT <= |src| && Agree(src, ip0, match0, filled0 - ip0 + MINMATCH)
    requires Usable(table[..], tableType, start, |src|, dictSmall) && Below(table[..], start + filled0 + 1)
    modifies dst, table
    ensures Usable(table[..], tableType, start, |src|, dictSmall)
    ensures Below(table[..], start + |src| - MFLIMIT + 1)
    ensures !limited ==> !end.OutOfRoom?
    ensures !end.OutOfRoom? ==> op <= dst.Length && Encoded(ss, dst[..op], src, ip) && filled0 < ip <= |src|
    ensures !end.OutOfRoom? && limited ==> op + 1 + LASTLITERALS <= olimit
    ensures end.NoFurtherMatch? ==> ip + MFLIMIT <= |src| && Below(table[..], start + ip + 1)
    ensures |old(table[..])| == |table[..]| == HASH_SLOTS
    ensures var all := ss0 + From(j, old(table[..]), anchor0, ip0, match0);
            match end
            case OutOfRoom => TooLong(all, olimit)
            case EndOfChunk => ss == all
            case NoFurtherMatch => ss + Parse(j, table[..], ip, ip + 1) == all
  {
    hide Encoded, AtMatch, Usable, Below, Agree, Noted, Lookup, TooLong, Run, From, Onward, Parse, Encodable;
    var token, match_: nat := token0, match0;
    var ok;
    op, ip, ss := op0, ip0, ss0;
    ghost var anchor, filled := anchor0, filled0;
    BelowSize(table[..], start + filled0 + 1);
    ghost var all := ss0 + From(j, table[..], anchor0, ip0, match0);
    while true
      invariant AtMatch(ss, dst[..], src, anchor, token, op, ip, match_, limited)
      invariant ip <= filled && filled0 <= filled && filled + MFLIMIT <= |src|
      invariant Agree(src, ip, match_, filled - ip + MINMATCH)
      invariant Usable(table[..], tableType, start, |src|, dictSmall) && Below(table[..], start + filled + 1)
      invariant |table[..]| == HASH_SLOTS && ss + From(j, table[..], anchor, ip, match_) == all
      decreases |src| - filled
    {
      FromTurn(j, table[..], anchor, ip, match_, ss);
      ok, op, ip, ss := EmitMatch(src, dst, token, op, ip, match_, limited, olimit, anchor, ss, filled);
      BelowWeakens(table[..], start + filled + 1, start + |src| - MFLIMIT + 1);
      assert ss + Onward(j, table[..], ip) == all;
      if !ok {
        LongerStill(ss, Onward(j, table[..], ip), olimit);
        return OutOfRoom, op, ip, ss;
      }
      anchor := ip;
      BelowWeakens(table[..], start + filled + 1, start + ip);
      if ip + MFLIMIT >= |src| + 1 {
        OnwardTurn(j, table[..], ip);
        assert ss + [] == ss;
        return EndOfChunk, op, ip, ss;
      }
      token := op;
      EncodedRoom(ss, dst[..op], src, ip);
      ok, op, match_ := NextSequence(src, dst, token, ip, limited, table, tableType, start, dictSmall, j, ss);
      BelowWeakens(table[..], start + ip + 1, start + |src| - MFLIMIT + 1);
      if !ok { return NoFurtherMatch, op, ip, ss; }
      filled := ip;
    }
  }

  /** One sequence off the parse. */
  lemma FromTurn(j: Job, table: seq<nat>, anchor: nat, ip: nat, match_: nat, ss: seq<Sequence>)
    requires anchor <= ip && MatchAt(j.src, ip, match_) && |table| == HASH_SLOTS && j.acceleration >= 1
    ensures var n := Run(j.src, ip, match_, |j.src| - LASTLITERALS);
            && n >= MINMATCH
            && ss + From(j, table, anchor, ip, match_)
               == ss + [Sequence(j.src[anchor..ip], ip - match_, n)] + Onward(j, table, ip + n)
  {
    hide Run, Onward, Agree, Encodable, OutputSize;
    var n := Run(j.src, ip, match_, |j.src| - LASTLITERALS);
    LongestCovers(j.src, ip, match_, |j.src| - LASTLITERALS, n, MINMATCH);
    var s := [Sequence(j.src[anchor..ip], ip - match_, n)];
    assert ss + (s + Onward(j, table, ip + n)) == ss + s + Onward(j, table, ip + n);
  }

  lemma OnwardTurn(j: Job, table: seq<nat>, ip: nat)
    requires 2 <= ip && ip + LASTLITERALS <= |j.src| && |table| == HASH_SLOTS && j.acceleration >= 1
    ensures ip + MFLIMIT > |j.src| ==> Onward(j, table, ip) == []
    ensures ip + MFLIMIT <= |j.src| ==>
              var filled := Noted(j, table, ip - 2);
              Onward(j, table, ip)
              == match Lookup(j, filled, ip)
                 case Some(m) => From(j, Noted(j, filled, ip), ip, ip, m)
                 case None => Parse(j, Noted(j, filled, ip), ip, ip + 1)
  {
    hide From, Parse, Lookup, Noted;
  }

  lemma BelowWeakens(table: seq<nat>, limit: nat, newLimit: nat)
    requires Below(table, limit) && limit <= newLimit
    ensures Below(table, newLimit)
  {
  }

  lemma BelowSize(table: seq<nat>, limit: nat)
    requires Below(table, limit)
    ensures |table| == HASH_SLOTS
  {
  }

  lemma ZeroLiteralToken(src: seq<byte>, ip: nat)
    requires ip <= |src|
    ensures [0] == [Nibble(ip - ip) * 16] + LengthBytes(ip - ip) + src[ip..ip]
  {
  }

  lemma EncodedRoom(ss: seq<Sequence>, bytes: seq<byte>, src: seq<byte>, anchor: nat)
    requires Encoded(ss, bytes, src, anchor) && anchor + LASTLITERALS <= |src| <= MAX_INPUT_SIZE
    ensures |bytes| + 8 <= CompressBound(|src|)
  {
    RoomLeft(ss, bytes, src, anchor);
  }

  /** `_last_literals`: everything behind the anchor. */
  method LastLiterals(src: seq<byte>, dst: array<byte>, op0: nat, anchor: nat, limited: bool, olimit: nat)
    returns (ok: bool, op: nat)
    requires anchor <= |src| && (limited ==> olimit <= dst.Length)
    requires !limited ==> op0 + (|src| - anchor) + 1 + ExtraBytes(|src| - anchor) <= dst.Length
    requires op0 <= dst.Length
    modifies dst
    ensures ok <==> !limited || op0 + (|src| - anchor) + 1 + (|src| - anchor + 255 - RUN_MASK) / 255 <= olimit
    ensures ok ==> op == op0 + 1 + ExtraBytes(|src| - anchor) + (|src| - anchor) <= dst.Length
    ensures ok ==> dst[..op] == old(dst[..op0]) + LastBytes(src[anchor..])
    ensures ok && limited ==> op <= olimit
  {
    hide LengthBytes;
    var lastRun := |src| - anchor;
    ExtraBytesForm(lastRun);
    if limited && op0 + lastRun + 1 + (lastRun + 255 - RUN_MASK) / 255 > olimit { return false, op0; }
    ok := true;
    ghost var before := dst[..op0];
    op := WriteHead(dst, op0, lastRun);
    ghost var head := dst[..op];
    CopyIn(dst, op, src, anchor, lastRun);
    SliceCopied(dst[..], op, src, anchor, lastRun);
    assert dst[..op] == head && src[anchor..anchor + lastRun] == src[anchor..];
    assert dst[..op + lastRun] == dst[..op] + dst[op..op + lastRun];
    op := op + lastRun;
    LastAssembled(before, src[anchor..]);
  }

  lemma LastAssembled(before: seq<byte>, last: seq<byte>)
    ensures before + [Nibble(|last|) * 16] + LengthBytes(|last|) + last == before + LastBytes(last)
  {
    hide LengthBytes;
    var head: seq<byte> := [Nibble(|last|) * 16];
    assert before + head + LengthBytes(|last|) + last == before + (head + LengthBytes(|last|) + last);
  }

  /** `z` is a conforming block that stands for `src`. */
  ghost predicate Compressed(z: seq<byte>, src: seq<byte>) {
    exists b: Block :: ConformingBlock(b) && z == BlockBytes(b) && BlockOutput(b) == src
  }

  lemma FinishBlock(ss: seq<Sequence>, bytes: seq<byte>, src: seq<byte>, anchor: nat)
    requires Encoded(ss, bytes, src, anchor)
    ensures Compressed(bytes + LastBytes(src[anchor..]), src)
  {
    hide SequencesBytes, LastBytes, Conforming, Expand;
    var b := Block(ss, src[anchor..]);
    assert src[..anchor] + src[anchor..] == src;
    assert ConformingBlock(b) && bytes + LastBytes(src[anchor..]) == BlockBytes(b);
  }

  lemma LastRoom(ss: seq<Sequence>, bytes: seq<byte>, src: seq<byte>, anchor: nat)
    requires Encoded(ss, bytes, src, anchor) && |src| <= MAX_INPUT_SIZE
    ensures |bytes| + (|src| - anchor) + 1 + ExtraBytes(|src| - anchor) <= CompressBound(|src|)
  {
    RoomLeft(ss, bytes, src, anchor);
  }

  /** Catch up, and encode the literals between the last match and this one. */
  method BeginSequence(src: seq<byte>, dst: array<byte>, token: nat, anchor: nat, at: nat, match0: nat, limited: bool,
                       olimit: nat, ghost j: Job, ghost table: seq<nat>, ghost ss: seq<Sequence>)
    returns (ok: bool, op: nat, from: nat, match_: nat)
    requires j.src == src && j.acceleration >= 1 && |table| == HASH_SLOTS && Room(|src|, limited, olimit, dst.Length)
    requires anchor <= at && MatchAt(src, at, match0) && token <= dst.Length && Encoded(ss, dst[..token], src, anchor)
    modifies dst
    ensures !limited ==> ok
    ensures from <= at && Agree(src, from, match_, at - from + MINMATCH)
    ensures at - from == Back(src, at, match0, anchor) && match_ == match0 - (at - from)
    ensures ok ==> AtMatch(ss, dst[..], src, anchor, token, op, from, match_, limited)
    ensures anchor <= from && MatchAt(src, from, match_)
    ensures !ok ==> TooLong(ss + From(j, table, anchor, from, match_), olimit)
  {
    hide Encoded, LengthBytes, Agree, AtMatch, TooLong, From, Back, Encodable, OutputSize;
    from, match_ := CatchUp(src, at, match0, anchor);
    var n := from - anchor;
    op := token;
    ghost var done := dst[..token];
    EncodedLength(ss, done, src, anchor);
    if limited && token + 1 + n + (2 + 1 + LASTLITERALS) + n / 255 > olimit {
      ParseTooLong(j, table, ss, done, anchor, from, match_, olimit);
      return false, op, from, match_;
    }
    ok := true;
    if !limited { LiteralRoom(ss, done, src, anchor, n); }
    op := WriteLiterals(src, dst, token, anchor, n);
    HeadWritten(dst[..], done, token, op, n, src[anchor..from]);
    StandsAtMatch(ss, dst[..], src, anchor, token, op, from, match_, limited);
  }

  lemma EncodedLength(ss: seq<Sequence>, bytes: seq<byte>, src: seq<byte>, anchor: nat)
    requires Encoded(ss, bytes, src, anchor)
    ensures Encodable(ss) && bytes == SequencesBytes(ss)
  {
  }

  /** The main loop of LZ4_compress_generic, for a source of at least 13 bytes. */
  method CompressSequences(src: seq<byte>, dst: array<byte>, limited: bool, olimit: nat, table: array<nat>,
                           tableType: TableType, start: nat, dictSmall: bool, acceleration: nat)
    returns (ok: bool, op: nat, anchor: nat, ghost ss: seq<Sequence>)
    requires table as object != dst && Room(|src|, limited, olimit, dst.Length)
    requires |src| >= MIN_LENGTH && acceleration >= 1
    requires Usable(table[..], tableType, start, |src|, dictSmall) && Below(table[..], start + 1)
    modifies dst, table
    ensures Below(table[..], start + |src| - MFLIMIT + 1)
    ensures !limited ==> ok
    ensures ok ==> op <= dst.Length && anchor <= |src| && Encoded(ss, dst[..op], src, anchor)
    ensures |old(table[..])| == HASH_SLOTS
    ensures var j := Job(src, tableType, start, acceleration);
            var all := Parse(j, Noted(j, old(table[..]), 0), 0, 1);
            if ok then ss == all else TooLong(all, olimit)
  {
    hide Encoded, HashPosition, Agree, Usable, Below, AtMatch, Stored, Noted, TooLong, From, Parse, Search, Back,
         TableAt, VisitAt, AllMiss, Misses, OutputSize, Encodable;
    ghost var j := Job(src, tableType, start, acceleration);
    ok, op, anchor, ss := true, 0, 0, [];
    NothingEncoded(src);
    assert dst[..0] == [];
    ghost var before := table[..];
    BelowSize(before, start + 1);
    var h0 := HashPosition(src, 0, tableType);
    StoredExactly(before, tableType, start, |src|, dictSmall, 0);
    table[h0] := Stored(start, tableType);
    StoreKeeps(before, tableType, start, |src|, dictSmall, start + 1, h0, 0, start + 1);
    NotedIs(j, before, 0);
    assert table[..] == Noted(j, before, 0);
    ghost var all := Parse(j, Noted(j, before, 0), 0, 1);
    var ip := 1;
    assert ss + Parse(j, table[..], anchor, ip) == all;
    var forwardH := HashPosition(src, ip, tableType);
    while true
      invariant anchor < ip <= |src| - MFLIMIT + 1 && op <= dst.Length
      invariant forwardH == HashPosition(src, ip, tableType)
      invariant Usable(table[..], tableType, start, |src|, dictSmall) && Below(table[..], start + ip)
      invariant Encoded(ss, dst[..op], src, anchor)
      invariant |table[..]| == HASH_SLOTS && ss + Parse(j, table[..], anchor, ip) == all
      decreases |src| - ip
    {
      ParseTurn(j, table[..], anchor, ip);
      ghost var k;
      var found, at, match_;
      found, at, match_, k :=
        FindMatch(src, ip, forwardH, table, tableType, start, dictSmall, acceleration);
      if !found {
        assert ss + [] == ss;
        return;
      }
      BelowWeakens(table[..], start + at + 1, start + |src| - MFLIMIT + 1);
      var token, from := op, at;
      ok, op, from, match_ :=
        BeginSequence(src, dst, token, anchor, at, match_, limited, olimit, j, table[..], ss);
      if !ok { return false, op, anchor, ss; }
      var end;
      end, op, ip, ss := MatchRun(src, dst, token, op, from, match_, limited, olimit, table, tableType, start,
                                  dictSmall, anchor, ss, at, j);
      if end.OutOfRoom? { return false, op, anchor, ss; }
      anchor := ip;
      if end.EndOfChunk? { return; }
      ip := ip + 1;
      forwardH := HashPosition(src, ip, tableType);
    }
  }

  lemma NotedIs(j: Job, table: seq<nat>, pos: nat)
    requires pos + 8 <= |j.src| && |table| == HASH_SLOTS
    ensures Noted(j, table, pos) == table[HashPosition(j.src, pos, j.tableType) := j.start + pos]
  {
  }

  lemma ParseTurn(j: Job, table: seq<nat>, anchor: nat, pos: nat)
    requires anchor < pos && pos + MFLIMIT - 1 <= |j.src| && |table| == HASH_SLOTS && j.acceleration >= 1
    ensures match Search(j, table, pos, 0)
            case NoMatch(_) => Parse(j, table, anchor, pos) == []
            case Match(ip, m, t) =>
              var n := Back(j.src, ip, m, anchor);
              MatchAt(j.src, ip - n, m - n) && Parse(j, table, anchor, pos) == From(j, t, anchor, ip - n, m - n)
  {
    hide Search, Back, Agree, From;
    match Search(j, table, pos, 0)
    case NoMatch(_) =>
    case Match(ip, m, t) =>
      var n := Back(j.src, ip, m, anchor);
      AgreeLess(j.src, ip - n, m - n, n + MINMATCH, MINMATCH);
  }

  lemma ParseTooLong(j: Job, table: seq<nat>, ss: seq<Sequence>, bytes: seq<byte>, anchor: nat, ip: nat, match_: nat,
                     olimit: nat)
    requires anchor <= ip && MatchAt(j.src, ip, match_) && |table| == HASH_SLOTS && j.acceleration >= 1
    requires Encoded(ss, bytes, j.src, anchor)
    requires |bytes| + 1 + (ip - anchor) + (2 + 1 + LASTLITERALS) + (ip - anchor) / 255 > olimit
    ensures TooLong(ss + From(j, table, anchor, ip, match_), olimit)
  {
    hide From, Onward, Run, Agree, TooLong, Expand;
    FromTurn(j, table, anchor, ip, match_, ss);
    var n := Run(j.src, ip, match_, |j.src| - LASTLITERALS);
    var s := Sequence(j.src[anchor..ip], ip - match_, n);
    LiteralsTooLong(ss, s, |bytes|, olimit);
    LongerStill(ss + [s], Onward(j, table, ip + n), olimit);
  }

  lemma NothingEncoded(src: seq<byte>)
    ensures Encoded([], [], src, 0)
  {
    assert src[..0] == [];
  }

  lemma LiteralRoom(ss: seq<Sequence>, bytes: seq<byte>, src: seq<byte>, anchor: nat, n: nat)
    requires Encoded(ss, bytes, src, anchor) && anchor + n + MFLIMIT <= |src| <= MAX_INPUT_SIZE
    ensures |bytes| + 1 + n + (2 + 1 + LASTLITERALS) + n / 255 <= CompressBound(|src|)
  {
    RoomLeft(ss, bytes, src, anchor);
  }

  lemma HeadWritten(dst: seq<byte>, before: seq<byte>, token: nat, op: nat, n: nat, literals: seq<byte>)
    requires token == |before| && op == token + 1 + ExtraBytes(n) + n <= |dst| && |literals| == n
    requires dst[..op] == before + [Nibble(n) * 16] + LengthBytes(n) + literals
    ensures dst[..token] == before && dst[token..op] == [Nibble(n) * 16] + LengthBytes(n) + literals
  {
    hide LengthBytes;
    var head: seq<byte> := [Nibble(n) * 16];
    assert before + head + LengthBytes(n) + literals == before + (head + LengthBytes(n) + literals);
    assert dst[..token] == dst[..op][..token];
    assert dst[token..op] == dst[..op][token..];
  }
}