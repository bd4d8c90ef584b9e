/**
 The compression state that survives from block to block, the calls on it, and the codec as a whole:
 what the compressor wrote, the decompressor gives back.
 */
module Lz4Stream {
  import opened Bytes
  import opened Lz4Format
  import opened Lz4Compress
  import opened Lz4Parse
  import Lz4Decompress

  const KB: nat := 1024
  const GB: nat := 0x4000_0000

  /** LZ4_stream_t_internal without its dictionary pointers, which stay NULL in these calls. */
  class Stream {
    const hashTable: array<nat>
    var currentOffset: nat
    var dictSize: nat
    var tableType: TableType
    var dirty: bool

    /**
     Between calls every stored index is below the current offset (or zero), so that no entry can be
     mistaken for a position of the next block; and the indices of a 16-bit table fit it.
     */
    ghost predicate Valid()
      reads this, hashTable
    {
      && Below(hashTable[..], if currentOffset == 0 then 1 else currentOffset)
      && (tableType == ClearedTable ==> currentOffset == 0)
      && (tableType == ByU16 ==> currentOffset <= 65535 + MFLIMIT && Below(hashTable[..], 0x1_0000))
      && currentOffset <= MAX_INPUT_SIZE
    }

    ghost predicate Zeroed()
      reads this, hashTable
    {
      && |hashTable[..]| == HASH_SLOTS && forall h :: 0 <= h < HASH_SLOTS ==> hashTable[h] == 0
    }

    /** LZ4_initStream. */
    constructor ()
      ensures Valid() && Zeroed() && fresh(hashTable)
      ensures currentOffset == 0 && dictSize == 0 && tableType == ClearedTable && !dirty
    {
      hashTable := new nat[HASH_SLOTS](_ => 0);
      currentOffset, dictSize, tableType, dirty := 0, 0, ClearedTable, false;
    }

    method ClearTable()
      requires hashTable.Length == HASH_SLOTS
      modifies this, hashTable
      ensures Zeroed() && currentOffset == 0 && tableType == ClearedTable
      ensures dirty == old(dirty) && dictSize == old(dictSize)
    {
      forall h | 0 <= h < hashTable.Length { hashTable[h] := 0; }
      currentOffset, tableType := 0, ClearedTable;
    }

    /** The cases in which the table of the previous call cannot be kept. */
    predicate NeedsReset(inputSize: nat, wanted: TableType)
      reads this
    {
      tableType != ClearedTable &&
      (|| tableType != wanted
       || (wanted == ByU16 && currentOffset + inputSize >= 0xFFFF)
       || (wanted == ByU32 && currentOffset > 1 * GB)
       || inputSize >= 4 * KB)
    }

    /** LZ4_prepareTable. */
    method PrepareTable(inputSize: nat, wanted: TableType)
      requires Valid() && wanted != ClearedTable
      modifies this, hashTable
      ensures Valid() && dictSize == 0 && !dirty && tableType in {ClearedTable, wanted}
      ensures old(dirty) || old(NeedsReset(inputSize, wanted)) ==> Zeroed() && currentOffset == 0
      ensures !old(dirty) && !old(NeedsReset(inputSize, wanted)) ==>
                hashTable[..] == old(hashTable[..]) && tableType == old(tableType)
                && currentOffset
                   == old(currentOffset) + if old(currentOffset) != 0 && wanted == ByU32 then 64 * KB else 0
      ensures !old(dirty) && old(tableType) == wanted && inputSize < 4096
              && old(if wanted == ByU16 then currentOffset + inputSize < 65535 else currentOffset <= 0x4000_0000) ==>
                hashTable[..] == old(hashTable[..]) && old(currentOffset) <= currentOffset
      ensures old(dirty) || (old(tableType) != ClearedTable && (old(tableType) != wanted || inputSize >= 4096)) ==>
                Zeroed() && currentOffset == 0
      ensures currentOffset != 0 ==> inputSize < 4 * KB && (wanted == ByU16 ==> currentOffset + inputSize < 0xFFFF)
      ensures inputSize <= MAX_INPUT_SIZE && (inputSize < LIMIT_64K || wanted == ByU32) ==>
                Usable(hashTable[..], wanted, currentOffset, inputSize, currentOffset != 0)
    {
      if dirty {
        ClearTable();
        dirty, dictSize := false, 0;
        return;
      }
      if NeedsReset(inputSize, wanted) { ClearTable(); }
      if currentOffset != 0 && wanted == ByU32 { currentOffset := currentOffset + 64 * KB; }
      dictSize := 0;
    }

    /** LZ4_compress_generic, noDict. */
    method CompressGeneric(src: seq<byte>, dst: array<byte>, maxOutputSize: nat, limited: bool, wanted: TableType,
                           dictSmall: bool, acceleration: nat) returns (r: nat)
      requires Valid() && hashTable as object != dst && acceleration >= 1
      requires wanted != ClearedTable && tableType in {ClearedTable, wanted} && dictSize == 0
      requires if limited then maxOutputSize <= dst.Length else CompressBound(|src|) <= dst.Length
      requires |src| <= MAX_INPUT_SIZE && (|src| < LIMIT_64K || wanted == ByU32) ==>
                 Usable(hashTable[..], wanted, currentOffset, |src|, dictSmall)
      requires currentOffset != 0 ==> |src| < 4 * KB && currentOffset <= GB + 64 * KB
      modifies this, hashTable, dst
      ensures Valid()
      ensures |src| > MAX_INPUT_SIZE || (wanted == ByU16 && |src| >= LIMIT_64K) ==>
                r == 0 && currentOffset == old(currentOffset) && tableType == old(tableType)
                && dictSize == old(dictSize)
      ensures |src| <= MAX_INPUT_SIZE && (wanted == ByU32 || |src| < LIMIT_64K) ==>
                && currentOffset == old(currentOffset) + |src| && tableType == wanted
                && dictSize == old(dictSize) + |src| && (!limited ==> r > 0)
      ensures dirty == old(dirty)
      ensures r > 0 ==> r <= dst.Length && (limited ==> r <= maxOutputSize) && Compressed(dst[..r], src)
      ensures |src| <= MAX_INPUT_SIZE && (wanted == ByU32 || |src| < LIMIT_64K) ==>
                && |old(hashTable[..])| == HASH_SLOTS
                && Writes(Job(src, wanted, old(currentOffset), acceleration), old(hashTable[..]), limited,
                          maxOutputSize, r, if r <= dst.Length then dst[..r] else [])
    {
      hide Compressed, Usable, Below, Writes;
      var start := currentOffset;
      if |src| > MAX_INPUT_SIZE { return 0; }
      if wanted == ByU16 && |src| >= LIMIT_64K { return 0; }
      ghost var table := hashTable[..];
      UsableSpan(table, wanted, start, |src|, dictSmall);
      dictSize, currentOffset, tableType := dictSize + |src|, currentOffset + |src|, wanted;
      r := EncodeBlock(src, dst, maxOutputSize, limited, wanted, start, dictSmall, acceleration);
      TableLater(table, hashTable[..], start, |src|);
    }

    /** LZ4_compress_generic from the first byte on: short sources are literals only. */
    method EncodeBlock(src: seq<byte>, dst: array<byte>, maxOutputSize: nat, limited: bool, wanted: TableType,
                       start: nat, dictSmall: bool, acceleration: nat) returns (r: nat)
      requires hashTable as object != dst && acceleration >= 1 && |src| <= MAX_INPUT_SIZE
      requires if limited then maxOutputSize <= dst.Length else CompressBound(|src|) <= dst.Length
      requires Usable(hashTable[..], wanted, start, |src|, dictSmall)
      requires Below(hashTable[..], if start == 0 then 1 else start)
      modifies hashTable, dst
      ensures if |src| < MIN_LENGTH then hashTable[..] == old(hashTable[..])
              else Below(hashTable[..], start + |src| - MFLIMIT + 1)
      ensures !limited ==> r > 0
      ensures r > 0 ==> r <= dst.Length && (limited ==> r <= maxOutputSize) && Compressed(dst[..r], src)
      ensures |old(hashTable[..])| == HASH_SLOTS
      ensures Writes(Job(src, wanted, start, acceleration), old(hashTable[..]), limited, maxOutputSize, r,
                     if r <= dst.Length then dst[..r] else [])
    {
      hide Compressed, Encoded, LastBytes, ExtraBytes, Usable, Greedy, TooLong, Below, Parse, Noted;
      ghost var j, table := Job(src, wanted, start, acceleration), hashTable[..];
      BelowSize(table, if start == 0 then 1 else start);
      BelowWeakens(table, if start == 0 then 1 else start, start + 1);
      var ok, op, anchor := true, 0, 0;
      ghost var ss := [];
      NothingEncoded(src);
      assert dst[..0] == [];
      if |src| >= MIN_LENGTH {
        ok, op, anchor, ss :=
          CompressSequences(src, dst, limited, maxOutputSize, hashTable, wanted, start, dictSmall, acceleration);
        if !ok {
          ParseFails(j, table, maxOutputSize);
          return 0;
        }
      }
      if !limited { LastRoom(ss, dst[..op], src, anchor); }
      ghost var done := dst[..op];
      GreedyIs(j, table, ss, done, anchor);
      ExtraBytesForm(|src| - anchor);
      ok, r := LastLiterals(src, dst, op, anchor, limited, maxOutputSize);
      if !ok { return 0; }
      FinishBlock(ss, done, src, anchor);
    }

    /** LZ4_initStream on a state in any condition. */
    method InitStream()
      requires hashTable.Length == HASH_SLOTS
      modifies this, hashTable
      ensures Valid() && Zeroed() && currentOffset == 0 && dictSize == 0 && tableType == ClearedTable && !dirty
    {
      ClearTable();
      dictSize, dirty := 0, false;
    }

    /** LZ4_compress_fast_extState: forget the past, then compress. */
    method CompressFastExtState(src: seq<byte>, dst: array<byte>, acceleration0: int) returns (r: nat)
      requires hashTable.Length == HASH_SLOTS && hashTable as object != dst
      modifies this, hashTable, dst
      ensures Valid() && CompressorContract(src, dst.Length, r, if r <= dst.Length then dst[..r] else [])
      ensures |src| <= MAX_INPUT_SIZE ==>
                Delivers(JobOf(src, 0, acceleration0), FreshTable(), dst.Length, r,
                         if r <= dst.Length then dst[..r] else [])
    {
      hide CompressorContract, Delivers, Writes, Usable, Compressed;
      InitStream();
      assert hashTable[..] == FreshTable();
      FreshUsable(|src|);
      var acceleration: nat := if acceleration0 < 1 then 1 else acceleration0;
      var limited := dst.Length < CompressBound(|src|);
      if |src| < LIMIT_64K {
        r := CompressGeneric(src, dst, if limited then dst.Length else 0, limited, ByU16, false, acceleration);
      } else {
        r := CompressGeneric(src, dst, if limited then dst.Length else 0, limited, ByU32, false, acceleration);
      }
      Outcome(JobOf(src, 0, acceleration0), FreshTable(), dst.Length, r, if r <= dst.Length then dst[..r] else []);
    }

    /** LZ4_compress_fast_extState_fastReset: compress on top of whatever earlier calls left behind. */
    method CompressFastExtStateFastReset(src: seq<byte>, dst: array<byte>, acceleration0: int) returns (r: nat)
      requires Valid() && hashTable as object != dst
      modifies this, hashTable, dst
      ensures Valid() && CompressorContract(src, dst.Length, r, if r <= dst.Length then dst[..r] else [])
      ensures |src| <= MAX_INPUT_SIZE ==>
                var wanted := if |src| < LIMIT_64K then ByU16 else ByU32;
                var reset := old(dirty || NeedsReset(|src|, wanted));
                var table := if reset then FreshTable() else old(hashTable[..]);
                var start := if reset then 0 else old(currentOffset);
                && |table| == HASH_SLOTS
                && Delivers(JobOf(src, start, acceleration0), table, dst.Length, r,
                            if r <= dst.Length then dst[..r] else [])
    {
      hide CompressorContract, Delivers, Writes, Usable, Compressed;
      var acceleration: nat := if acceleration0 < 1 then 1 else acceleration0;
      var limited := dst.Length < CompressBound(|src|);
      ghost var table, start;
      if |src| < LIMIT_64K {
        PrepareTable(|src|, ByU16);
        table, start := hashTable[..], currentOffset;
        r := CompressGeneric(src, dst, if limited then dst.Length else 0, limited, ByU16, currentOffset != 0,
                             acceleration);
      } else {
        PrepareTable(|src|, ByU32);
        table, start := hashTable[..], currentOffset;
        r := CompressGeneric(src, dst, if limited then dst.Length else 0, limited, ByU32, false, acceleration);
      }
      assert table == FreshTable() || table == old(hashTable[..]);
      Outcome(JobOf(src, start, acceleration0), table, dst.Length, r, if r <= dst.Length then dst[..r] else []);
    }
  }

  /** A table of positions of a block, or the one before it, is below the end of the block. */
  lemma TableLater(before: seq<nat>, after: seq<nat>, start: nat, n: nat)
    requires Below(before, if start == 0 then 1 else start)
    requires if n < MIN_LENGTH then after == before else Below(after, start + n - MFLIMIT + 1)
    ensures Below(after, if start + n == 0 then 1 else start + n)
    ensures start + n <= 65535 + MFLIMIT && (start == 0 || Below(before, 0x1_0000)) ==> Below(after, 0x1_0000)
  {
  }

  /** What one call writes: its greedy block, or nothing if there is a limit and that does not keep it. */
  ghost predicate Writes(j: Job, table: seq<nat>, limited: bool, maxOutputSize: nat, r: nat, out: seq<byte>)
    requires |table| == HASH_SLOTS && j.acceleration >= 1
  {
    var z := BlockBytes(Greedy(j, table));
    if limited && |z| > maxOutputSize then r == 0 else r == |z| > 0 && out == z
  }

  /** The table of a fresh state. */
  function FreshTable(): (t: seq<nat>)
    ensures |t| == HASH_SLOTS
  {
    seq(HASH_SLOTS, _ => 0)
  }

  lemma FreshUsable(n: nat)
    ensures n < LIMIT_64K ==> Usable(FreshTable(), ByU16, 0, n, false)
    ensures n <= MAX_INPUT_SIZE ==> Usable(FreshTable(), ByU32, 0, n, false)
  {
  }

  function JobOf(src: seq<byte>, start: nat, acceleration0: int): (j: Job)
    ensures j.acceleration >= 1
  {
    Job(src, if |src| < LIMIT_64K then ByU16 else ByU32, start, if acceleration0 < 1 then 1 else acceleration0)
  }

  /** The greedy block if the destination of `cap` bytes holds it, and 0 otherwise: `cap` decides nothing else. */
  ghost predicate Delivers(j: Job, table: seq<nat>, cap: nat, r: nat, out: seq<byte>)
    requires |table| == HASH_SLOTS && j.acceleration >= 1
  {
    var z := BlockBytes(Greedy(j, table));
    if |z| <= cap then r == |z| > 0 && out == z else r == 0
  }

  /** The block of LZ4_compress_default. */
  ghost function DefaultBlock(src: seq<byte>): seq<byte> {
    BlockBytes(Greedy(JobOf(src, 0, 1), FreshTable()))
  }

  lemma ParseFails(j: Job, table: seq<nat>, maxOutputSize: nat)
    requires |table| == HASH_SLOTS && j.acceleration >= 1 && |j.src| >= MIN_LENGTH
    requires TooLong(Parse(j, Noted(j, table, 0), 0, 1), maxOutputSize)
    ensures |BlockBytes(Greedy(j, table))| > maxOutputSize
  {
    hide Parse, Noted;
    var b := Greedy(j, table);
    NothingEncoded(j.src);
    LengthBytesSize(|b.last|);
  }

  lemma GreedyIs(j: Job, table: seq<nat>, ss: seq<Sequence>, bytes: seq<byte>, anchor: nat)
    requires |table| == HASH_SLOTS && j.acceleration >= 1 && Encoded(ss, bytes, j.src, anchor)
    requires ss == if |j.src| < MIN_LENGTH then [] else Parse(j, Noted(j, table, 0), 0, 1)
    ensures BlockBytes(Greedy(j, table)) == bytes + LastBytes(j.src[anchor..])
    ensures |LastBytes(j.src[anchor..])| == 1 + ExtraBytes(|j.src| - anchor) + (|j.src| - anchor)
  {
    hide Parse, Noted;
    LengthBytesSize(|j.src| - anchor);
  }

  /**
   What a caller may rely on: `z` are the bytes of a positive result, `cap` the capacity of the destination.
   */
  ghost predicate CompressorContract(src: seq<byte>, cap: nat, r: nat, z: seq<byte>) {
    && r <= cap
    && (r > 0 ==> |z| == r && Compressed(z, src))
    && (|src| <= MAX_INPUT_SIZE && CompressBound(|src|) <= cap ==> r > 0)
    && (|src| > MAX_INPUT_SIZE ==> r == 0)
    && RunsShrink(src, cap, r)
  }

  /** One repeated byte in a block of this size, whatever the byte. */
  lemma RepeatedByte(src: seq<byte>, b: byte)
    requires |src| >= 13 && src == Fill(b, |src|)
    ensures |DefaultBlock(src)| == 10 + ExtraBytes(|src| - 10) <= |src| / 255 + 11
  {
    hide Greedy;
    FillParses(JobOf(src, 0, 1), FreshTable(), b, |src|);
  }

  /** A source of one repeated byte becomes one literal, one match and the last five bytes. */
  ghost predicate RunsShrink(src: seq<byte>, cap: nat, r: nat) {
    forall b: byte | 13 <= |src| <= MAX_INPUT_SIZE && |src| / 255 + 11 <= cap && src == Fill(b, |src|) ::
      r == 10 + ExtraBytes(|src| - 10) <= |src| / 255 + 11
  }

  /** Either mode delivers, and what it delivers keeps the contract. */
  lemma Outcome(j: Job, table: seq<nat>, cap: nat, r: nat, out: seq<byte>)
    requires |table| == HASH_SLOTS && j.acceleration >= 1
    requires r <= cap && (r > 0 ==> Compressed(out, j.src) && |out| == r)
    requires |j.src| > MAX_INPUT_SIZE ==> r == 0
    requires |j.src| <= MAX_INPUT_SIZE ==>
               var limited := cap < CompressBound(|j.src|);
               Writes(j, table, limited, if limited then cap else 0, r, out)
    ensures |j.src| <= MAX_INPUT_SIZE ==> Delivers(j, table, cap, r, out)
    ensures CompressorContract(j.src, cap, r, out)
  {
    hide Greedy, Compressed;
    if |j.src| <= MAX_INPUT_SIZE {
      BlockBound(Greedy(j, table));
      forall b: byte | 13 <= |j.src| && |j.src| / 255 + 11 <= cap && j.src == Fill(b, |j.src|)
        ensures r == 10 + ExtraBytes(|j.src| - 10) <= |j.src| / 255 + 11
      {
        FillParses(j, table, b, |j.src|);
      }
    }
  }

  /** LZ4_compress_default. */
  method CompressDefault(src: seq<byte>, dst: array<byte>) returns (r: nat)
    modifies dst
    ensures CompressorContract(src, dst.Length, r, if r <= dst.Length then dst[..r] else [])
    ensures |src| <= MAX_INPUT_SIZE ==>
              if |DefaultBlock(src)| <= dst.Length then r == |DefaultBlock(src)| && dst[..r] == DefaultBlock(src)
              else r == 0
    ensures forall b: byte | 13 <= |src| <= MAX_INPUT_SIZE && src == Fill(b, |src|)
                             && dst.Length >= |src| / 255 + 11 :: 0 < r <= |src| / 255 + 11
  {
    var state := new Stream();
    r := state.CompressFastExtState(src, dst, 1);
  }

  /**
   A run of blocks on one state, whatever the calls before left behind, results of 0 included: each
   result is a block that stands for its own source, as if the state were new.
   */
  method CompressBlocks(state: Stream, sources: seq<seq<byte>>, capacities: seq<nat>, accelerations: seq<int>)
    returns (results: seq<seq<byte>>)
    requires state.Valid() && |sources| == |capacities| == |accelerations|
    modifies state, state.hashTable
    ensures state.Valid() && |results| == |sources|
    ensures forall k :: 0 <= k < |sources| ==>
              CompressorContract(sources[k], capacities[k], |results[k]|, results[k])
  {
    hide CompressorContract;
    results := [];
    for i := 0 to |sources|
      invariant state.Valid() && |results| == i
      invariant forall k :: 0 <= k < i ==> CompressorContract(sources[k], capacities[k], |results[k]|, results[k])
    {
      var dst := new byte[capacities[i]](_ => 0);
      var r := state.CompressFastExtStateFastReset(sources[i], dst, accelerations[i]);
      ContractLength(sources[i], capacities[i], r, if r <= dst.Length then dst[..r] else []);
      results := results + [dst[..r]];
    }
  }

  lemma ContractLength(src: seq<byte>, cap: nat, r: nat, z: seq<byte>)
    requires CompressorContract(src, cap, r, z)
    ensures r <= cap
  {
  }

  /** A compressed block is conforming, decodes to its source alone, and is within LZ4_COMPRESSBOUND. */
  lemma CompressedDecodes(z: seq<byte>, src: seq<byte>)
    requires Compressed(z, src) && |src| <= MAX_INPUT_SIZE
    ensures WellFormed(z) && Decode(z) == Some(src)
    ensures |z| <= CompressBound(|src|) <= Lz4Decompress.INT_MAX
  {
    hide Decode, BlockBytes;
    var b: Block :| ConformingBlock(b) && z == BlockBytes(b) && BlockOutput(b) == src;
    DecodeInvertsEncode(b);
    assert OutputSize(b.sequences) + |b.last| == |src|;
    BlockBound(b);
  }

  /**
   The codec's round trip: any result of the compressor, any capacity from the exact size on, either decoder
   build.
   */
  lemma RoundTrip(src: seq<byte>, cap: nat, n: nat, z: seq<byte>, outCap: nat, r: int, out: seq<byte>)
    requires CompressorContract(src, cap, n, z) && n > 0
    requires outCap >= |src| && Lz4Decompress.DecoderContract(z, outCap, r, out)
    ensures r == |src| && out == src
  {
    hide Decode, Compressed, WellFormed, Lz4Decompress.AsRead, Lz4Decompress.Strict;
    CompressedDecodes(z, src);
    Lz4Decompress.DecodesExactly(z, outCap, r, out);
  }
}
