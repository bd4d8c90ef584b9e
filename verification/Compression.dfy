/**
 Compressed-packet framing: the v1 "swap" and "prefix" forms, the v2 indicator form, and the stubs
 that only frame.
 */
module Compression {
  import opened Bytes
  import opened Buffers
  import opened Frames
  import Lz4Format
  import Lz4Decompress
  import Lz4Compress
  import Lz4Stream

  const LZ4_COMPRESS_BYTE: byte := 0x69
  const NO_COMPRESS_BYTE: byte := 0xFA
  const NO_COMPRESS_BYTE_SWAP: byte := 0xFB
  const COMP_ALGV2_INDICATOR_BYTE: byte := 0x50
  const COMP_ALGV2_UNCOMPRESSED_BYTE: byte := 0
  const COMP_ALGV2_LZ4_BYTE: byte := 1
  /** The algorithm number that the escape writes where the wire code would be expected. */
  const COMP_ALGV2_UNCOMPRESSED: byte := 10
  const COMPRESS_THRESHOLD: nat := 100

  /** struct compress_context: the two flags these algorithms look at, and the counters. */
  class CompressContext {
    var allowCompress: bool
    var swap: bool
    var preCompress: nat
    var postCompress: nat
    var preDecompress: nat
    var postDecompress: nat

    constructor (allow: bool, swapped: bool)
      ensures allowCompress == allow && swap == swapped
      ensures preCompress == postCompress == preDecompress == postDecompress == 0
    {
      allowCompress, swap := allow, swapped;
      preCompress, postCompress, preDecompress, postDecompress := 0, 0, 0, 0;
    }
  }

  // ----- packets as byte strings -----

  /** The head byte moves to the tail and a marker takes its place. */
  function SwapIn(marker: byte, p: seq<byte>): (f: seq<byte>)
    requires p != []
  {
    [marker] + p[1..] + [p[0]]
  }

  /** What `--len; *head = *BEND` leaves of a frame. */
  function SwapOut(f: seq<byte>): (p: seq<byte>)
    requires f != []
  {
    if |f| == 1 then [] else [f[|f| - 1]] + f[1..|f| - 1]
  }

  lemma SwapInverts(marker: byte, p: seq<byte>)
    requires p != []
    ensures SwapIn(marker, p)[0] == marker && SwapOut(SwapIn(marker, p)) == p
    ensures |SwapIn(marker, p)| == |p| + 1
  {
    var f := SwapIn(marker, p);
    assert f[1..|f| - 1] == p[1..];
  }

  function Escape(p: seq<byte>): seq<byte> {
    if p != [] && p[0] == COMP_ALGV2_INDICATOR_BYTE
    then [COMP_ALGV2_INDICATOR_BYTE, COMP_ALGV2_UNCOMPRESSED] + p
    else p
  }

  function StubV2Unframe(f: seq<byte>): seq<byte> {
    if f == [] || f[0] != COMP_ALGV2_INDICATOR_BYTE then f
    else if |f| == 1 || f[1] != COMP_ALGV2_UNCOMPRESSED_BYTE then []
    else f[2..]
  }

  /** Compression is tried on packets of at least 100 bytes when the peer may receive compressed data. */
  predicate Attempts(p: seq<byte>, allow: bool) {
    |p| >= COMPRESS_THRESHOLD && allow
  }

  /** A packet that is to be compressed but exceeds the payload size is dropped. */
  predicate Dropped(p: seq<byte>, allow: bool, payloadSize: int) {
    Attempts(p, allow) && |p| > payloadSize
  }

  /** What do_lz4_compress came to. */
  datatype Tried = NotTried | Overflow | Packed(z: seq<byte>)

  ghost predicate Outcome(p: seq<byte>, allow: bool, payloadSize: int, t: Tried) {
    match t
    case NotTried => !Attempts(p, allow)
    case Overflow => Dropped(p, allow, payloadSize)
    case Packed(z) =>
      && Attempts(p, allow) && !Dropped(p, allow, payloadSize)
      && z != [] && Lz4Compress.Compressed(z, p) && z == Lz4Stream.DefaultBlock(p)
  }

  /** The v1 frame: the shorter of packet and block, with the marker swapped in. */
  function FrameV1(p: seq<byte>, t: Tried): seq<byte>
    requires p != [] && (t.Packed? ==> t.z != [])
  {
    match t
    case Overflow => []
    case Packed(z) => if |z| < |p| then SwapIn(LZ4_COMPRESS_BYTE, z) else SwapIn(NO_COMPRESS_BYTE_SWAP, p)
    case NotTried => SwapIn(NO_COMPRESS_BYTE_SWAP, p)
  }

  /** Whether the v2 form sends the block. */
  predicate PaysOffV2(p: seq<byte>, t: Tried) {
    t.Packed? && |t.z| + 2 < |p|
  }

  /** The v2 frame: a two-byte header only on blocks, and on packets that look like one. */
  function FrameV2(p: seq<byte>, t: Tried): seq<byte> {
    if t.Overflow? then []
    else if PaysOffV2(p, t) then [COMP_ALGV2_INDICATOR_BYTE, COMP_ALGV2_LZ4_BYTE] + t.z
    else Escape(p)
  }

  /** `q` is what do_lz4_decompress makes of a block: nothing when the decoder reports an error or no bytes. */
  ghost predicate Inflates(z: seq<byte>, cap: nat, q: seq<byte>) {
    exists r: int, out: seq<byte> ::
      Lz4Decompress.DecoderContract(z, cap, r, out) && q == if r <= 0 then [] else out
  }

  ghost predicate UnframesV1(f: seq<byte>, cap: nat, q: seq<byte>) {
    if f == [] then q == []
    else if f[0] == LZ4_COMPRESS_BYTE then Inflates(SwapOut(f), cap, q)
    else if f[0] == NO_COMPRESS_BYTE_SWAP then q == SwapOut(f)
    else q == []
  }

  ghost predicate UnframesV2(f: seq<byte>, cap: nat, q: seq<byte>) {
    if f == [] || f[0] != COMP_ALGV2_INDICATOR_BYTE then q == f
    else if |f| == 1 then q == []
    else if f[1] == COMP_ALGV2_LZ4_BYTE then Inflates(f[2..], cap, q)
    else if f[1] == COMP_ALGV2_UNCOMPRESSED_BYTE then q == f[2..]
    else q == []
  }

  // ----- round trips -----

  /** A block of the compressor inflates to its packet and to nothing else, in any frame the packet fits. */
  lemma InflateInverts(p: seq<byte>, z: seq<byte>, cap: nat, q: seq<byte>)
    requires Lz4Compress.Compressed(z, p) && 0 < |p| <= cap && |p| <= Lz4Format.MAX_INPUT_SIZE
    requires Inflates(z, cap, q)
    ensures q == p
  {
    hide Lz4Format.Decode, Lz4Format.WellFormed, Lz4Compress.Compressed, Lz4Decompress.DecoderContract;
    Lz4Stream.CompressedDecodes(z, p);
    var r: int, out: seq<byte> :| Lz4Decompress.DecoderContract(z, cap, r, out) && q == if r <= 0 then [] else out;
    Lz4Decompress.DecodesExactly(z, cap, r, out);
  }

  /** v1: every packet that fits the frame comes back; one that does not arrives as nothing. */
  lemma V1RoundTrip(p: seq<byte>, allow: bool, payloadSize: nat, t: Tried, cap: nat, q: seq<byte>)
    requires p != [] && Outcome(p, allow, payloadSize, t)
    requires payloadSize <= cap && payloadSize <= Lz4Format.MAX_INPUT_SIZE
    requires UnframesV1(FrameV1(p, t), cap, q)
    ensures q == if Dropped(p, allow, payloadSize) then [] else p
  {
    hide Inflates, Lz4Compress.Compressed, SwapIn, SwapOut;
    SwapInverts(NO_COMPRESS_BYTE_SWAP, p);
    if t.Packed? {
      SwapInverts(LZ4_COMPRESS_BYTE, t.z);
      if |t.z| < |p| { InflateInverts(p, t.z, cap, q); }
    }
  }

  /**
   v2: a packet that is not dropped comes back exactly when it was worth compressing or does not start
   with the indicator byte; otherwise its escape is not recognised and the packet is lost.
   */
  lemma V2RoundTrip(p: seq<byte>, allow: bool, payloadSize: nat, t: Tried, cap: nat, q: seq<byte>)
    requires p != [] && Outcome(p, allow, payloadSize, t)
    requires payloadSize <= cap && payloadSize <= Lz4Format.MAX_INPUT_SIZE
    requires UnframesV2(FrameV2(p, t), cap, q)
    ensures q == p <==>
            !Dropped(p, allow, payloadSize) && (PaysOffV2(p, t) || p[0] != COMP_ALGV2_INDICATOR_BYTE)
    ensures q == p || q == []
  {
    hide Inflates, Lz4Compress.Compressed;
    if PaysOffV2(p, t) {
      var f := FrameV2(p, t);
      assert f[2..] == t.z;
      InflateInverts(p, t.z, cap, q);
    }
  }

  /** Packets below the threshold, or with compression off: the v2 round trip depends on the first byte alone. */
  lemma V2ShortPackets(p: seq<byte>, allow: bool, payloadSize: nat, t: Tried, cap: nat, q: seq<byte>)
    requires p != [] && (|p| < COMPRESS_THRESHOLD || !allow) && Outcome(p, allow, payloadSize, t)
    requires UnframesV2(FrameV2(p, t), cap, q)
    ensures q == p <==> p[0] != COMP_ALGV2_INDICATOR_BYTE
  {
  }

  /** The stub decoder loses exactly the packets the stub encoder escapes. */
  lemma StubV2RoundTrip(p: seq<byte>)
    ensures StubV2Unframe(Escape(p)) == p <==> p == [] || p[0] != COMP_ALGV2_INDICATOR_BYTE
    ensures StubV2Unframe(Escape(p)) == p || StubV2Unframe(Escape(p)) == []
  {
  }

  /** The smallest packet that does not survive. */
  lemma StubV2Loses()
    ensures StubV2Unframe(Escape([0x50])) == []
    ensures UnframesV2(FrameV2([0x50], NotTried), 1500, [])
  {
    assert Escape([0x50])[1] == COMP_ALGV2_UNCOMPRESSED;
  }

  /**
   What a frame costs: under v1 one byte more than the shorter of block and packet, so that it is shorter than the
   packet with its marker exactly when the block is shorter than the packet; under v2 two bytes more than the block
   if that is less than the packet, and otherwise the packet, with two bytes in front if it looks like a block.
   */
  lemma FrameSizes(p: seq<byte>, z: seq<byte>)
    requires p != [] && z != []
    ensures |FrameV1(p, Packed(z))| < |p| + 1 <==> |z| < |p|
    ensures |FrameV1(p, Packed(z))| == 1 + if |z| < |p| then |z| else |p|
    ensures |FrameV1(p, NotTried)| == 1 + |p|
    ensures |FrameV2(p, Packed(z))| < |p| <==> |z| + 2 < |p|
    ensures |z| + 2 < |p| ==> |FrameV2(p, Packed(z))| == |z| + 2
    ensures |z| + 2 >= |p| ==> FrameV2(p, Packed(z)) == FrameV2(p, NotTried)
    ensures |FrameV2(p, NotTried)| == |p| + if p[0] == 0x50 then 2 else 0
  {
    SwapInverts(LZ4_COMPRESS_BYTE, z);
    SwapInverts(NO_COMPRESS_BYTE_SWAP, p);
    hide SwapIn;
  }

  /** A payload of one repeated byte that is not dropped travels in a frame of about one byte for 255. */
  lemma RepeatedByteFrames(p: seq<byte>, b: byte, payloadSize: nat, t: Tried)
    requires |p| >= 100 && p == Fill(b, |p|) && Outcome(p, true, payloadSize, t) && |p| <= payloadSize
    ensures |FrameV1(p, t)| <= |p| / 255 + 12 && |FrameV2(p, t)| <= |p| / 255 + 13
  {
    hide Lz4Compress.Compressed, Lz4Stream.DefaultBlock, SwapIn, Escape;
    Lz4Stream.RepeatedByte(p, b);
    FrameSizes(p, t.z);
  }

  /**
   Frames nobody writes are dropped: v1 knows the markers 0x69 and 0xFB, v2 the bytes 1 and 0 behind 0x50, the
   stubs a marker of their own, and 0 behind 0x50.
   */
  lemma UnknownFrames(f: seq<byte>, cap: nat, q: seq<byte>, swap: bool)
    requires f != []
    ensures f[0] != 0x69 && f[0] != 0xFB && UnframesV1(f, cap, q) ==> q == []
    ensures f[0] == 0x50 && (|f| == 1 || f[1] > 1) && UnframesV2(f, cap, q) ==> q == []
    ensures f[0] == 0x50 && |f| > 1 && f[1] == 0 && UnframesV2(f, cap, q) ==> q == f[2..]
    ensures f[0] != 0x50 && UnframesV2(f, cap, q) ==> q == f
    ensures f[0] != (if swap then 0xFB else 0xFA) ==> StubUnframe(f, swap) == []
    ensures StubV2Unframe(f) == if f[0] != 0x50 then f else if |f| > 1 && f[1] == 0 then f[2..] else []
  {
    hide Inflates;
  }

  // ----- in-place framing -----

  /** `++len; *tail = *head; *head = marker`. */
  method SwapInPlace(buf: Buffer, marker: byte)
    requires buf.Valid() && buf.len > 0 && buf.Safe(1)
    modifies buf, buf.data
    ensures buf.Valid() && buf.data == old(buf.data) && buf.offset == old(buf.offset)
    ensures buf.Content() == SwapIn(marker, old(buf.Content()))
  {
    var head, tail := buf.offset, buf.offset + buf.len;
    buf.len := buf.len + 1;
    buf.data[tail] := buf.data[head];
    buf.data[head] := marker;
  }

  /** `c = *head; --len; *head = *BEND`. */
  method SwapOutInPlace(buf: Buffer) returns (c: byte)
    requires buf.Valid() && buf.len > 0
    modifies buf, buf.data
    ensures buf.Valid() && buf.data == old(buf.data) && buf.offset == old(buf.offset)
    ensures c == old(buf.Content())[0] && buf.Content() == SwapOut(old(buf.Content()))
  {
    var head := buf.offset;
    c := buf.data[head];
    buf.len := buf.len - 1;
    buf.data[head] := buf.data[buf.offset + buf.len];
  }

  /** stub_compress. */
  method StubCompress(buf: Buffer, ctx: CompressContext)
    requires buf.Valid() && (buf.len > 0 ==> if ctx.swap then buf.Safe(1) else buf.offset >= 1)
    modifies buf, buf.data
    ensures buf.Valid()
    ensures var p := old(buf.Content());
            buf.Content() == if p == [] then p else if ctx.swap then SwapIn(NO_COMPRESS_BYTE_SWAP, p)
                             else [NO_COMPRESS_BYTE] + p
  {
    if buf.len <= 0 { return; }
    if ctx.swap {
      SwapInPlace(buf, NO_COMPRESS_BYTE_SWAP);
    } else {
      var ok := buf.WritePrepend([NO_COMPRESS_BYTE]);
    }
  }

  /** What stub_decompress leaves. */
  function StubUnframe(f: seq<byte>, swap: bool): seq<byte> {
    if f == [] then []
    else if swap then if f[0] == NO_COMPRESS_BYTE_SWAP then SwapOut(f) else []
    else if f[0] == NO_COMPRESS_BYTE then f[1..] else []
  }

  /** stub_decompress. */
  method StubDecompress(buf: Buffer, ctx: CompressContext)
    requires buf.Valid()
    modifies buf, buf.data
    ensures buf.Valid() && buf.Content() == StubUnframe(old(buf.Content()), ctx.swap)
  {
    if buf.len <= 0 { return; }
    var c;
    if ctx.swap {
      c := SwapOutInPlace(buf);
      if c != NO_COMPRESS_BYTE_SWAP { buf.len := 0; }
    } else {
      c := buf.data[buf.offset];
      var ok := buf.Advance(1);
      if c != NO_COMPRESS_BYTE { buf.len := 0; }
    }
  }

  /** compv2_escape_data_ifneeded. */
  method EscapeIfNeeded(buf: Buffer)
    requires buf.Valid() && buf.len > 0 && buf.offset >= 2
    modifies buf, buf.data
    ensures buf.Valid() && buf.Content() == Escape(old(buf.Content()))
  {
    if buf.data[buf.offset] != COMP_ALGV2_INDICATOR_BYTE { return; }
    var ok := buf.WritePrepend([COMP_ALGV2_INDICATOR_BYTE, COMP_ALGV2_UNCOMPRESSED]);
  }

  /** stubv2_compress. */
  method StubV2Compress(buf: Buffer)
    requires buf.Valid() && (buf.len > 0 ==> buf.offset >= 2)
    modifies buf, buf.data
    ensures buf.Valid() && buf.Content() == Escape(old(buf.Content()))
  {
    if buf.len <= 0 { return; }
    EscapeIfNeeded(buf);
  }

  /** stubv2_decompress. */
  method StubV2Decompress(buf: Buffer)
    requires buf.Valid()
    modifies buf
    ensures buf.Valid() && buf.Content() == StubV2Unframe(old(buf.Content()))
  {
    if buf.len <= 0 { return; }
    if buf.data[buf.offset] != COMP_ALGV2_INDICATOR_BYTE { return; }
    var ok := buf.Advance(1);
    if buf.len <= 0 { return; }
    var c := buf.data[buf.offset];
    ok := buf.Advance(1);
    if c != COMP_ALGV2_UNCOMPRESSED_BYTE { buf.len := 0; }
  }

  /** The stub without an indicator byte loses nothing, swapped or not. */
  lemma StubRoundTrip(p: seq<byte>, swap: bool)
    ensures StubUnframe(if p == [] then p else if swap then SwapIn(NO_COMPRESS_BYTE_SWAP, p)
                        else [NO_COMPRESS_BYTE] + p, swap) == p
  {
    if p != [] && swap { SwapInverts(NO_COMPRESS_BYTE_SWAP, p); }
  }

  // ----- LZ4 framing -----

  function ZlenMax(frame: Frame): int {
    PayloadSize(frame) + if PayloadSize(frame) < 0 then 0 else CompExtraBuffer(PayloadSize(frame))
  }

  /** What the assertions on the work buffer demand: the limit fits behind the headroom. */
  predicate WorkReady(work: Buffer, frame: Frame, zlenMax: int)
    reads work
  {
    SizeValid(zlenMax) && Headroom(frame, false) + zlenMax <= work.data.Length
  }

  /** LZ4_compress_default into an output limit that no payload exceeds: it cannot fail. */
  method CompressPayload(src: seq<byte>, payloadSize: int) returns (z: seq<byte>)
    requires 0 < |src| <= payloadSize && SizeValid(payloadSize + CompExtraBuffer(payloadSize))
    ensures z != [] && |z| <= payloadSize + CompExtraBuffer(payloadSize) && Lz4Compress.Compressed(z, src)
    ensures z == Lz4Stream.DefaultBlock(src)
  {
    hide Lz4Compress.Compressed, Lz4Stream.DefaultBlock, Lz4Stream.RunsShrink;
    var dst := new byte[payloadSize + CompExtraBuffer(payloadSize)](_ => 0);
    var zlen := Lz4Stream.CompressDefault(src, dst);
    z := dst[..zlen];
  }

  /** The block of a payload, into a work buffer that was initialised. */
  method PackInto(src: seq<byte>, work: Buffer, payloadSize: int) returns (z: seq<byte>)
    requires 0 < |src| <= payloadSize && work.Valid() && work.len == 0
    requires SizeValid(payloadSize + CompExtraBuffer(payloadSize))
    requires work.offset + payloadSize + CompExtraBuffer(payloadSize) <= work.data.Length
    modifies work, work.data
    ensures work.Valid() && work.data == old(work.data) && work.offset == old(work.offset) && work.Content() == z
    ensures z != [] && |z| <= payloadSize + CompExtraBuffer(payloadSize)
    ensures Lz4Compress.Compressed(z, src) && z == Lz4Stream.DefaultBlock(src)
  {
    hide Lz4Compress.Compressed, Lz4Stream.DefaultBlock, CompExtraBuffer;
    z := CompressPayload(src, payloadSize);
    assert work.Content() == [] && [] + z == z;
    var ok := work.Write(z);
  }

  /** do_lz4_compress: on success `work` holds the block behind the frame's headroom. */
  method DoLz4Compress(buf: Buffer, work: Buffer, ctx: CompressContext, frame: Frame)
    returns (compressed: bool, ghost t: Tried)
    requires buf.Valid() && buf.len > 0 && buf != work && buf.data != work.data
    requires frame.extraFrame <= frame.linkMtu && WorkReady(work, frame, ZlenMax(frame))
    modifies buf, work, work.data, ctx
    ensures buf.Valid() && buf.data == old(buf.data) && work.data == old(work.data)
    ensures buf.offset == old(buf.offset)
    ensures ctx.allowCompress == old(ctx.allowCompress) && ctx.swap == old(ctx.swap)
    ensures Outcome(old(buf.Content()), old(ctx.allowCompress), PayloadSize(frame), t)
    ensures compressed == t.Packed?
    ensures buf.Content() == if t.Overflow? then [] else old(buf.Content())
    ensures compressed ==> work.Valid() && work.Content() == t.z && work.offset == Headroom(frame, false)
    ensures compressed ==> |t.z| <= ZlenMax(frame)
    ensures compressed ==> ctx.preCompress == old(ctx.preCompress) + |old(buf.Content())|
                           && ctx.postCompress == old(ctx.postCompress) + |t.z|
  {
    hide Lz4Compress.Compressed, Lz4Stream.DefaultBlock, CompExtraBuffer;
    t := NotTried;
    compressed := false;
    if buf.len >= COMPRESS_THRESHOLD && ctx.allowCompress {
      var ps := PayloadSize(frame);
      var zlenMax := ps + CompExtraBuffer(ps);
      var ok := work.Init(Headroom(frame, false));
      if buf.len > ps {
        buf.len := 0;
        return false, Overflow;
      }
      var src := buf.data[buf.offset..buf.offset + buf.len];
      var z := PackInto(src, work, ps);
      t := Packed(z);
      ctx.preCompress := ctx.preCompress + buf.len;
      ctx.postCompress := ctx.postCompress + work.len;
      compressed := true;
    }
  }

  /** lz4_compress. `work` is passed by value in the source; its allocation is shared. */
  method Lz4V1Compress(buf: Buffer, work0: Buffer, ctx: CompressContext, frame: Frame) returns (ghost t: Tried)
    requires buf.Valid() && buf.data != work0.data && (buf.len > 0 ==> buf.Safe(1))
    requires frame.extraFrame <= frame.linkMtu && WorkReady(work0, frame, ZlenMax(frame))
    modifies buf, buf.data, work0.data, ctx
    ensures buf.Valid()
    ensures var p := old(buf.Content());
            if p == [] then buf.Content() == []
            else Outcome(p, old(ctx.allowCompress), PayloadSize(frame), t) && buf.Content() == FrameV1(p, t)
  {
    hide Lz4Compress.Compressed, Lz4Stream.DefaultBlock, SwapIn, Escape;
    t := NotTried;
    if buf.len <= 0 { return; }
    var work := new Buffer(work0.data, work0.offset, work0.len);
    var compressed;
    compressed, t := DoLz4Compress(buf, work, ctx, frame);
    if buf.len == 0 { return; }
    if compressed && work.len < buf.len {
      buf.Assign(work);
      SwapInPlace(buf, LZ4_COMPRESS_BYTE);
    } else {
      SwapInPlace(buf, NO_COMPRESS_BYTE_SWAP);
    }
  }

  /** lz4v2_compress. */
  method Lz4V2Compress(buf: Buffer, work0: Buffer, ctx: CompressContext, frame: Frame) returns (ghost t: Tried)
    requires buf.Valid() && buf.data != work0.data && (buf.len > 0 ==> buf.offset >= 2)
    requires frame.extraFrame <= frame.linkMtu && WorkReady(work0, frame, ZlenMax(frame))
    requires Headroom(frame, false) >= 2
    modifies buf, buf.data, work0.data, ctx
    ensures buf.Valid()
    ensures var p := old(buf.Content());
            if p == [] then buf.Content() == []
            else Outcome(p, old(ctx.allowCompress), PayloadSize(frame), t) && buf.Content() == FrameV2(p, t)
  {
    hide Lz4Compress.Compressed, Lz4Stream.DefaultBlock, SwapIn, Escape;
    t := NotTried;
    if buf.len <= 0 { return; }
    var work := new Buffer(work0.data, work0.offset, work0.len);
    var compressed;
    compressed, t := DoLz4Compress(buf, work, ctx, frame);
    if buf.len == 0 { return; }
    if compressed && work.len + 2 < buf.len {
      var ok := work.WritePrepend([COMP_ALGV2_INDICATOR_BYTE, COMP_ALGV2_LZ4_BYTE]);
      buf.Assign(work);
    } else {
      EscapeIfNeeded(buf);
    }
  }

  /** LZ4_decompress_safe into a fresh area of `cap` bytes. */
  method DecompressPayload(src: seq<byte>, cap: nat, fastDecLoop: bool) returns (n: int, out: seq<byte>)
    requires |src| <= Lz4Decompress.INT_MAX && cap <= Lz4Decompress.INT_MAX
    ensures n <= cap && |out| == (if n <= 0 then 0 else n) && Inflates(src, cap, out)
  {
    hide Lz4Format.WellFormed, Lz4Format.Decode;
    var dst := new byte[cap](_ => 0);
    n := Lz4Decompress.DecompressSafe(src, dst, fastDecLoop);
    ghost var bytes := if n >= 0 then dst[..n] else [];
    assert Lz4Decompress.DecoderContract(src, cap, n, bytes);
    out := if n <= 0 then [] else dst[..n];
  }

  /** do_lz4_decompress: `work` has been initialised to the headroom. */
  method DoLz4Decompress(zlenMax: int, work: Buffer, buf: Buffer, ctx: CompressContext, fastDecLoop: bool)
    requires buf.Valid() && work.Valid() && work.len == 0 && buf != work && buf.data != work.data
    requires SizeValid(zlenMax) && work.offset + zlenMax <= work.data.Length && buf.data.Length <= Lz4Decompress.INT_MAX
    modifies buf, work, work.data, ctx
    ensures buf.Valid() && Inflates(old(buf.Content()), zlenMax, buf.Content())
    ensures ctx.preDecompress - old(ctx.preDecompress) == if buf.Content() == [] then 0 else |old(buf.Content())|
    ensures ctx.postDecompress - old(ctx.postDecompress) == |buf.Content()|
  {
    hide Inflates;
    var src := buf.data[buf.offset..buf.offset + buf.len];
    assert src == buf.Content();
    var uncompLen, out := DecompressPayload(src, zlenMax, fastDecLoop);
    if uncompLen <= 0 {
      buf.len := 0;
      assert buf.Content() == out;
      return;
    }
    assert work.Content() == [];
    var ok := work.Write(out);
    assert work.Content() == out;
    ctx.preDecompress := ctx.preDecompress + buf.len;
    ctx.postDecompress := ctx.postDecompress + work.len;
    buf.Assign(work);
  }

  /** lz4_decompress. */
  method Lz4V1Decompress(buf: Buffer, work0: Buffer, ctx: CompressContext, frame: Frame, fastDecLoop: bool)
    requires buf.Valid() && buf.data != work0.data && buf.data.Length <= Lz4Decompress.INT_MAX
    requires WorkReady(work0, frame, ExpandedSize(frame))
    modifies buf, buf.data, work0.data, ctx
    ensures buf.Valid() && UnframesV1(old(buf.Content()), ExpandedSize(frame), buf.Content())
  {
    if buf.len <= 0 { return; }
    var work := new Buffer(work0.data, work0.offset, work0.len);
    var ok := work.Init(Headroom(frame, false));
    var c := SwapOutInPlace(buf);
    if c == LZ4_COMPRESS_BYTE {
      DoLz4Decompress(ExpandedSize(frame), work, buf, ctx, fastDecLoop);
    } else if c != NO_COMPRESS_BYTE_SWAP {
      buf.len := 0;
    }
  }

  /** lz4v2_decompress. */
  method Lz4V2Decompress(buf: Buffer, work0: Buffer, ctx: CompressContext, frame: Frame, fastDecLoop: bool)
    requires buf.Valid() && buf.data != work0.data && buf.data.Length <= Lz4Decompress.INT_MAX
    requires WorkReady(work0, frame, ExpandedSize(frame))
    modifies buf, work0.data, ctx
    ensures buf.Valid() && UnframesV2(old(buf.Content()), ExpandedSize(frame), buf.Content())
  {
    if buf.len <= 0 { return; }
    var work := new Buffer(work0.data, work0.offset, work0.len);
    var ok := work.Init(Headroom(frame, false));
    if buf.data[buf.offset] != COMP_ALGV2_INDICATOR_BYTE { return; }
    if buf.len <= 1 {
      buf.len := 0;
      return;
    }
    var c := buf.data[buf.offset + 1];
    if c == COMP_ALGV2_LZ4_BYTE {
      ok := buf.Advance(2);
      DoLz4Decompress(ExpandedSize(frame), work, buf, ctx, fastDecLoop);
    } else if c == COMP_ALGV2_UNCOMPRESSED_BYTE {
      ok := buf.Advance(2);
    } else {
      buf.len := 0;
    }
  }
}