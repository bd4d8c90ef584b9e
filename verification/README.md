# OpenVPN client core: model and proofs

A Dafny model of the parts of the bundled OpenVPN 2.5.11 that transform bytes, and proofs of what
they promise.

- **LZ4 block codec** (`Lz4Format`, `Lz4Copy`, `Lz4Count`, `Lz4Parse`, `Lz4Compress`, `Lz4Stream`,
  `Lz4Decompress`): the greedy hash-table compressor and the over-running decompressor as methods over
  arrays, in the 64-bit little-endian configuration, against a reference reading of the block format
  and a reference parse that says which sequences the compressor chooses, whatever the destination.
  Every result of the compressor, on fresh or reused state, decodes to its source with either decoder
  loop; neither side reads or writes outside its buffers on any input.
- **Packet layers** (`Buffers`, `Frames`, `Compression`, `PacketCrypto`, `PacketId` with `CircList`):
  `struct buffer`, the v1, v2 and stub compression framings, the encrypted packet layouts over any cipher
  and any HMAC, and the packet ids with the replay window.
- **Parsers, printers and small machines** (`KeyFile` with `HexDump`, `Base64`, `AuthToken`, `BufferList`,
  `EventSets`, and `Dhcp` and `ClientNat` with `Checksum`).

Each file is one module. Operations that update state are methods of classes or over arrays, proved
against specification functions; what those functions mean is stated by lemmas.
`dafny verify dfyconfig.toml` checks everything.

Where the code does not do what its surroundings suggest, the code is modelled and the exact condition
is proved:

- The v2 framing escapes packets that start with 0x50 with the constant 10, while both decoders look
  for 0: such packets are lost whenever they are not sent compressed (`V2RoundTrip`, `StubV2RoundTrip`).
- `we_init` allows up to 64 events, but reading and writing can be watched on all of them only when at
  most 32 were asked for (`WeInit`, `RoomNeeded`).
- `token_decode` adds -1 for a character outside the alphabet, and -1 is its error value: such a character
  rejects the text, changes its bytes or, at the start of a token, ends it (`Base64.DecodesExactly`,
  `ForeignInToken`, `ForeignEnds`).
- `do_extract` pads behind an option that was cut off, which can complete it: a router option so completed
  is deleted too (`ExtractsExactly`), a type option gets a type (`TypeStays`).
- The literal and match lengths of the LZ4 decoder are 32-bit sums: an input that is no block, or a block
  that stands for more than the capacity, can succeed with the wrong bytes; any other success is right
  (`Lz4Decompress.DecodesExactly`, `WrapsToWrongBytes`).
- `client_nat_transform` adjusts the checksum of UDP packets that carry none, and can adjust one to 0, which
  says that there is none (`UdpChecksumKept`, `UdpAcceptanceChanges`).
- `client_nat_transform` claims addresses of replies that no request rewrote (`ReplyInverts`).
- The window and lifetime tests of a session token wrap around at 2^64, and the doubled interval at 2^31
  (`RenegotiationWraps`, `NegativeInterval`, `LifetimeWraps`).

## Model

| member | source | states |
|---|---|---|
| `Lz4Format.RepeatsIsCopyMatch` | build-mobile/openvpn-2.5.11/src/compat/compat-lz4.c:2017-2064 | Any output whose every new byte equals the one a distance of the offset before it is what copying the match byte by byte produces, also when source and destination overlap |
| `Lz4Format.ReadLengthInverts` | build-mobile/openvpn-2.5.11/src/compat/compat-lz4.c:1636-1655 | Reading a length back from nibble and 255-run gives the number the encoder wrote, for every number, and stops behind it |
| `Lz4Format.ParseInverts` | build-mobile/openvpn-2.5.11/src/compat/compat-lz4.c:969-1084 | The bytes of a sequence (token, literal length, literals, offset, match length) parse to exactly that sequence |
| `Lz4Format.DecodeInvertsEncode` | build-mobile/openvpn-2.5.11/src/compat/compat-lz4.c:199-221 | Every block that keeps the parsing restrictions (last 5 bytes literals, no match in the last 12, distances up to 65535) decodes to its output and is well-formed for the decoder |
| `Lz4Format.StrictDecodes` | build-mobile/openvpn-2.5.11/src/compat/compat-lz4.c:1664-2078 | A reading that keeps the end-of-block restrictions decodes, and to the announced number of bytes |
| `Lz4Format.SequencesCost` | build-mobile/openvpn-2.5.11/src/compat/compat-lz4.c:969-1084 | Amortised over all sequences the encoding is at most 256/255 of the bytes it stands for |
| `Lz4Format.BlockBound` | build-mobile/openvpn-2.5.11/src/compat/compat-lz4.h:171 | A conforming block is never longer than n + n/255 + 16 |
| `Lz4Copy.WildCopy8` | build-mobile/openvpn-2.5.11/src/compat/compat-lz4.c:369-376 | The 8-byte copy overruns by at most 7 bytes, touches nothing else, and at distances of at least 8 copies like a byte loop |
| `Lz4Copy.WildCopy32` | build-mobile/openvpn-2.5.11/src/compat/compat-lz4.c:422-429 | The 32-byte copy does the same for distances of at least 16 |
| `Lz4Copy.WideDistanceFits` | build-mobile/openvpn-2.5.11/src/compat/compat-lz4.c:378-379 | After the table-driven prologue the distance is at least 8 and a multiple of the offset, for each small offset |
| `Lz4Copy.ProloguePeriod` | build-mobile/openvpn-2.5.11/src/compat/compat-lz4.c:2036-2049 | The first 8 bytes written through inc32table repeat with the offset |
| `Lz4Copy.WideKeepsPeriod` | build-mobile/openvpn-2.5.11/src/compat/compat-lz4.c:2036-2064 | Copying on at that multiple of the offset leaves out[op+k] = out[op+k-offset] for the whole match |
| `Lz4Copy.MatchCopiedIsCopyMatch` | build-mobile/openvpn-2.5.11/src/compat/compat-lz4.c:2017-2064 | An array in which a match was copied holds what the reference match copy gives |
| `Lz4Count.NbCommonBytesCounts` | build-mobile/openvpn-2.5.11/src/compat/compat-lz4.c:473-542 | For every non-zero word the trailing-zero form and the de Bruijn form both give the number of low zero bytes |
| `Lz4Count.CommonBytes` | build-mobile/openvpn-2.5.11/src/compat/compat-lz4.c:550-562 | The low zero bytes of the xor of two words are the bytes in which the memory agrees before the first difference |
| `Lz4Count.Count` | build-mobile/openvpn-2.5.11/src/compat/compat-lz4.c:546-569 | Word-at-a-time counting returns exactly the longest common run, capped at the limit: the bytes agree and the next one does not |
| `Lz4Decompress.ReadVariableLength` | build-mobile/openvpn-2.5.11/src/compat/compat-lz4.c:1636-1655 | The length read is the true one modulo 2^32; when it reports the loop error the cursor has reached the limit, which makes ignoring that error harmless |
| `Lz4Decompress.SafeMatchCopy` | build-mobile/openvpn-2.5.11/src/compat/compat-lz4.c:1985-2064 | The safe copy succeeds exactly when the offset stays inside the output and five bytes remain behind the match, and then repeats the output at that offset for any length |
| `Lz4Decompress.StampPattern` | build-mobile/openvpn-2.5.11/src/compat/compat-lz4.c:435-466 | The 8-byte pattern for offsets 1, 2 and 4 writes the repetition of the output |
| `Lz4Decompress.FastMatchCopy` | build-mobile/openvpn-2.5.11/src/compat/compat-lz4.c:1838-1848 | The wide copies of the fast loop give the byte-by-byte match for every offset and length that leaves 64 bytes |
| `Lz4Decompress.SafeSequence` | build-mobile/openvpn-2.5.11/src/compat/compat-lz4.c:1854-2065 | A turn of the safe loop, with its two-stage shortcut, follows the reference reading of the sequence and rejects nothing that keeps the end-of-block restrictions |
| `Lz4Decompress.FastSequence` | build-mobile/openvpn-2.5.11/src/compat/compat-lz4.c:1716-1849 | A turn of the fast loop, with its jumps into the safe loop, follows the same reference reading |
| `Lz4Decompress.DecompressSafe` | build-mobile/openvpn-2.5.11/src/compat/compat-lz4.c:1664-2089 | On any bytes and any capacity it terminates, reads inside src, writes inside dst, and returns a negative value or a count up to the capacity; a success is the block as its 32-bit lengths read, and no block whose reading keeps the end-of-block restrictions and fits is refused |
| `Lz4Decompress.DecodesExactly` | build-mobile/openvpn-2.5.11/src/compat/compat-lz4.c:1664-2089 | The bytes of a success are those the block stands for exactly when it is a block that stands for no more than the capacity; a well-formed block that fits succeeds |
| `Lz4Decompress.ShortInputsExact` | build-mobile/openvpn-2.5.11/src/compat/compat-lz4.c:1638-1652 | On an input of up to 16,843,010 bytes no length passes 2^32 - 1: the 32-bit reading is the reading |
| `Lz4Decompress.WrapsToWrongBytes` | build-mobile/openvpn-2.5.11/src/compat/compat-lz4.c:1638-1652 | Longer blocks that stand for more than 2^32 bytes can succeed with the wrong ones, whatever the capacity: a family of them and what each run gives |
| `Lz4Decompress.RunsAgree` | build-mobile/openvpn-2.5.11/src/compat/compat-lz4.c:1716-2065 | Any two successes on the same input, fast loop on or off, whatever the capacities, have the same count and bytes; on a well-formed block that fits both succeed, with its output |
| `Lz4Decompress.EmptyOutput` | build-mobile/openvpn-2.5.11/src/compat/compat-lz4.c:1707-1711 | With no room for output the single block accepted is the one that encodes nothing |
| `Lz4Compress.CandidateIsOurs` | build-mobile/openvpn-2.5.11/src/compat/compat-lz4.c:902-963 | A hash entry that passes the prefix and distance tests is a position of the current block within 65535 bytes, however old the rest of the table is |
| `Lz4Compress.StoredExactly` | build-mobile/openvpn-2.5.11/src/compat/compat-lz4.c:679-689 | The casts to U16 and U32 lose nothing of an index that is stored; 16-bit indices are below 65536 |
| `Lz4Compress.FindMatch` | build-mobile/openvpn-2.5.11/src/compat/compat-lz4.c:881-963 | The search stops at the first of its visits, each one acceleration-dependent step behind the last, whose slot names a position of this block within 65535 bytes where the same four bytes stand; without one it goes on to the last place a match may start; every visit tested leaves its index in its slot |
| `Lz4Compress.NextMatch` | build-mobile/openvpn-2.5.11/src/compat/compat-lz4.c:1090-1145 | Behind a match the position two back is stored, then the next one tested in the same way and stored |
| `Lz4Compress.CatchUp` | build-mobile/openvpn-2.5.11/src/compat/compat-lz4.c:965-967 | Extending backwards keeps the distance, and stops only at the anchor, at the start of the block or at bytes that differ |
| `Lz4Compress.WriteLiterals` | build-mobile/openvpn-2.5.11/src/compat/compat-lz4.c:969-994 | Token, length and literals are written inside dst, the overrun of the wide copy included |
| `Lz4Compress.WriteMatch` | build-mobile/openvpn-2.5.11/src/compat/compat-lz4.c:1011-1084 | Offset and match length complete the sequence, exactly when in limited mode six bytes remain behind it |
| `Lz4Compress.AppendSequence` | build-mobile/openvpn-2.5.11/src/compat/compat-lz4.c:965-1084 | Literals from the anchor and a match against earlier source extend a conforming encoding of a longer prefix |
| `Lz4Compress.EmitMatch` | build-mobile/openvpn-2.5.11/src/compat/compat-lz4.c:996-1084 | The longest match is written, up to a byte that differs or the last five, and the encoding covers the source up to its end; it fails only when the sequences so far, a token and five literals are too long |
| `Lz4Compress.MatchRun` | build-mobile/openvpn-2.5.11/src/compat/compat-lz4.c:996-1145 | The same for a match and all that follow it without literals: what is written are the next sequences of the greedy parse |
| `Lz4Compress.RoomLeft` | build-mobile/openvpn-2.5.11/src/compat/compat-lz4.c:969-1084 | The bytes written so far stay below 256/255 of the source consumed |
| `Lz4Compress.LastLiterals` | build-mobile/openvpn-2.5.11/src/compat/compat-lz4.c:1152-1187 | The last run fits exactly when the limit test says so, and always within LZ4_COMPRESSBOUND |
| `Lz4Compress.FinishBlock` | build-mobile/openvpn-2.5.11/src/compat/compat-lz4.c:1152-1187 | With the last literals the sequences are a conforming block that stands for the whole source |
| `Lz4Compress.CompressSequences` | build-mobile/openvpn-2.5.11/src/compat/compat-lz4.c:871-1150 | The main loop writes a conforming encoding of src[..anchor], the sequences of the greedy parse and no others; it fails only when they are too long for the limit, and keeps every table entry at or before the last place a match may start |
| `Lz4Parse.GreedyTight` | build-mobile/openvpn-2.5.11/src/compat/compat-lz4.c:965-1032 | No match of the greedy parse can be extended: forwards up to the last five bytes, backwards over its literals |
| `Lz4Parse.FillParses` | build-mobile/openvpn-2.5.11/src/compat/compat-lz4.c:871-1187 | A source of one repeated byte, 13 bytes or longer, is one literal, one match at distance 1 and the last five bytes, in at most n/255 + 11 bytes, whatever the table held |
| `Lz4Stream.Stream.PrepareTable` | build-mobile/openvpn-2.5.11/src/compat/compat-lz4.c:749-795 | A table is kept for short blocks of its own type while its indices fit, and cleared for any other: only entries that cannot be mistaken for the next block stay |
| `Lz4Stream.Stream.CompressGeneric` | build-mobile/openvpn-2.5.11/src/compat/compat-lz4.c:799-1187 | The greedy block, conforming, or 0 exactly when there is a limit that does not hold it; offsets advanced by the input size, stored indices below the new offset, and below 65536 in a 16-bit table |
| `Lz4Stream.Stream.CompressFastExtState` | build-mobile/openvpn-2.5.11/src/compat/compat-lz4.c:1190-1210 | On a state in any condition the compressor contract holds, and the block is that of a fresh table, or 0 when the destination does not hold it |
| `Lz4Stream.Stream.CompressFastExtStateFastReset` | build-mobile/openvpn-2.5.11/src/compat/compat-lz4.c:1221-1255 | On whatever earlier calls left the same contract holds, with the block of the table that was kept, and the state stays reusable |
| `Lz4Stream.CompressBlocks` | build-mobile/openvpn-2.5.11/src/compat/compat-lz4.c:1213-1255 | Over any run of blocks on one state, failures included, each result stands for its own source alone, and the state stays valid: stored indices below the current offset, 16-bit ones below 65536 |
| `Lz4Stream.CompressDefault` | build-mobile/openvpn-2.5.11/src/compat/compat-lz4.h:134-149 | Every destination gets the same block, which stands for the source, or 0 when it does not hold it, so that success is certain from LZ4_COMPRESSBOUND on; a repeated byte takes at most n/255 + 11 bytes, and no more room than that |
| `Lz4Stream.CompressedDecodes` | build-mobile/openvpn-2.5.11/src/compat/compat-lz4.c:799-1187 | What the compressor wrote is well-formed, decodes to its source, and is within the bound |
| `Lz4Stream.RoundTrip` | build-mobile/openvpn-2.5.11/src/compat/compat-lz4.h:134-166 | Any positive result of any compression decompresses, into any capacity from the exact size on, to the source length and bytes |
| `Buffers.Buffer.Init` | build-mobile/openvpn-2.5.11/src/openvpn/buffer.h:306-315 | Succeeds exactly for offsets inside the allocation and empties the content |
| `Buffers.Buffer.IncLen` | build-mobile/openvpn-2.5.11/src/openvpn/buffer.h:595-603 | Moves the end exactly when the result stays inside the allocation |
| `Buffers.Buffer.Prepend` | build-mobile/openvpn-2.5.11/src/openvpn/buffer.h:611-620 | The old content follows the bytes gained from the headroom |
| `Buffers.Buffer.Advance` | build-mobile/openvpn-2.5.11/src/openvpn/buffer.h:623-632 | Drops that many bytes from the head, or nothing |
| `Buffers.Buffer.Write` | build-mobile/openvpn-2.5.11/src/openvpn/buffer.h:673-682 | Appends all of the bytes exactly when buf_safe allows, and touches nothing outside the content |
| `Buffers.Buffer.WritePrepend` | build-mobile/openvpn-2.5.11/src/openvpn/buffer.h:685-694 | Puts the bytes in front of the content exactly when the headroom is there |
| `Buffers.Buffer.Read` | build-mobile/openvpn-2.5.11/src/openvpn/buffer.h:784-793 | Takes bytes off the head and returns them |
| `Buffers.Buffer.Copy` | build-mobile/openvpn-2.5.11/src/openvpn/buffer.h:718-721 | Appends the content of another buffer, all or nothing |
| `Buffers.Buffer.Printf` | build-mobile/openvpn-2.5.11/src/openvpn/buffer.c:245-269 | Appends what fits with a NUL behind it, and says whether all did |
| `Buffers.Buffer.CatTrunc` | build-mobile/openvpn-2.5.11/src/openvpn/buffer.c:318-328 | Overwrites the end only when at most one byte is free |
| `Buffers.ClipGrows` | build-mobile/openvpn-2.5.11/src/openvpn/buffer.c:245-269 | Printing piece by piece is cut off where printing at once is |
| `Frames.WorkBufferSuffices` | build-mobile/openvpn-2.5.11/src/openvpn/comp.h:87-93 | COMP_EXTRA_BUFFER and the headroom arithmetic leave room in a work buffer for every compressed and every decompressed payload |
| `Frames.Headroom` | build-mobile/openvpn-2.5.11/src/openvpn/mtu.h:254-261 | The headroom is the base plus less than four bytes, and aligned |
| `Compression.CompressPayload` | build-mobile/openvpn-2.5.11/src/openvpn/comp-lz4.c:91-101 | The compressor cannot fail here: the error branch is unreachable for every payload size |
| `Compression.DoLz4Compress` | build-mobile/openvpn-2.5.11/src/openvpn/comp-lz4.c:66-110 | Short packets are left alone, oversized ones dropped, all others compressed behind the headroom, and the byte counters follow |
| `Compression.Lz4V1Compress` | build-mobile/openvpn-2.5.11/src/openvpn/comp-lz4.c:114-152 | The buffer holds the v1 frame of its packet |
| `Compression.Lz4V2Compress` | build-mobile/openvpn-2.5.11/src/openvpn/comp-lz4.c:156-188 | The buffer holds the v2 frame of its packet |
| `Compression.DoLz4Decompress` | build-mobile/openvpn-2.5.11/src/openvpn/comp-lz4.c:191-214 | The buffer holds what the block inflates to, nothing on error, and the counters follow |
| `Compression.Lz4V1Decompress` | build-mobile/openvpn-2.5.11/src/openvpn/comp-lz4.c:217-251 | Marker byte swapped out, then inflated, kept or dropped |
| `Compression.Lz4V2Decompress` | build-mobile/openvpn-2.5.11/src/openvpn/comp-lz4.c:254-300 | Packets without the indicator pass, others by their second byte |
| `Compression.SwapInverts` | build-mobile/openvpn-2.5.11/src/openvpn/comp-lz4.c:133-151 | Swapping the marker out gives back the packet it was swapped into |
| `Compression.InflateInverts` | build-mobile/openvpn-2.5.11/src/openvpn/comp-lz4.c:191-214 | A block of the compressor inflates to its packet and to nothing else in any frame the packet fits |
| `Compression.FrameSizes` | build-mobile/openvpn-2.5.11/src/openvpn/comp-lz4.c:113-188 | A v1 frame is shorter than the packet with its marker exactly when the block is shorter than the packet, and a v2 frame shorter than the packet exactly when the block saves more than its header |
| `Compression.RepeatedByteFrames` | build-mobile/openvpn-2.5.11/src/openvpn/comp-lz4.c:60-188 | A payload of 100 bytes or more that repeats one byte and is not dropped travels in n/255 + 13 bytes |
| `Compression.UnknownFrames` | build-mobile/openvpn-2.5.11/src/openvpn/comp-lz4.c:216-300 | A frame with any other marker, or any other second byte behind 0x50, is dropped by every decoder |
| `Compression.V1RoundTrip` | build-mobile/openvpn-2.5.11/src/openvpn/comp-lz4.c:113-252 | Every packet that fits the frame comes back; one that does not arrives as nothing |
| `Compression.V2RoundTrip` | build-mobile/openvpn-2.5.11/src/openvpn/comp-lz4.c:155-300 | A packet comes back exactly when it is not dropped and either was sent compressed or does not start with 0x50; otherwise nothing arrives |
| `Compression.V2ShortPackets` | build-mobile/openvpn-2.5.11/src/openvpn/comp-lz4.c:155-300 | Below the threshold that is decided by the first byte alone |
| `Compression.EscapeIfNeeded` | build-mobile/openvpn-2.5.11/src/openvpn/comp.c:92-106 | Prepends the indicator and COMP_ALGV2_UNCOMPRESSED to packets that start with the indicator |
| `Compression.StubCompress` | build-mobile/openvpn-2.5.11/src/openvpn/compstub.c:51-75 | Marker in front, or swapped with the head byte |
| `Compression.StubDecompress` | build-mobile/openvpn-2.5.11/src/openvpn/compstub.c:78-109 | Removes what the compressor side added; another marker drops the packet |
| `Compression.StubRoundTrip` | build-mobile/openvpn-2.5.11/src/openvpn/compstub.c:50-111 | Both stub forms give every packet back |
| `Compression.StubV2Compress` | build-mobile/openvpn-2.5.11/src/openvpn/compstub.c:113-123 | The escape on every packet |
| `Compression.StubV2Decompress` | build-mobile/openvpn-2.5.11/src/openvpn/compstub.c:126-161 | Unescapes by COMP_ALGV2_UNCOMPRESSED_BYTE |
| `Compression.StubV2RoundTrip` | build-mobile/openvpn-2.5.11/src/openvpn/compstub.c:112-161 | The stub loses exactly the packets it escapes, because writer and reader use different constants |
| `Compression.StubV2Loses` | build-mobile/openvpn-2.5.11/src/openvpn/comp.h:47-84 | The smallest packet that is lost |
| `Dhcp.GetMessageType` | build-mobile/openvpn-2.5.11/src/openvpn/dhcp.c:39-76 | The loop returns the message type of the first option 53, or -1 |
| `Dhcp.DoExtract` | build-mobile/openvpn-2.5.11/src/openvpn/dhcp.c:79-148 | Deleting in place gives the scanned area and address on every byte string, and terminates although a deletion does not advance |
| `Dhcp.DeleteInPlace` | build-mobile/openvpn-2.5.11/src/openvpn/dhcp.c:110-122 | memmove and memset close the gap and pad the tail |
| `Dhcp.DeleteShrinks` | build-mobile/openvpn-2.5.11/src/openvpn/dhcp.c:110-122 | A deletion leaves fewer bytes that are not padding: the measure behind termination |
| `Dhcp.ParseInverts` | build-mobile/openvpn-2.5.11/src/openvpn/dhcp.c:79-148 | The bytes of any valid options, and what follows them, parse to those options |
| `Dhcp.ExtractIsFilter` | build-mobile/openvpn-2.5.11/src/openvpn/dhcp.c:79-148 | At any point of the scan over any area the rest becomes its options without the routers and that much padding, or what the padding makes of an option that was cut off |
| `Dhcp.ExtractsExactly` | build-mobile/openvpn-2.5.11/src/openvpn/dhcp.c:79-148 | On any area the options that are no router options stay, in order, then what was cut off or stands behind the end marker, then the padding, exactly unless the padding completes a cut-off router option; then that becomes padding too and may give the address |
| `Dhcp.TypeStays` | build-mobile/openvpn-2.5.11/src/openvpn/dhcp.c:79-148 | The message type is that of the parsed options and does not change, except that -1 becomes 0 exactly when the area ends in a type option cut off behind a length byte of 1, a router option is deleted and no other type option is there |
| `Dhcp.ExtractFilters` | build-mobile/openvpn-2.5.11/src/openvpn/dhcp.c:79-148 | On a well-formed area the options left are the old ones without the routers, order and payloads kept, length and message type unchanged, the tail padded; the result is the first non-zero address of a router option whose length is a positive multiple of 4 |
| `Dhcp.NoRoutersLeft` | build-mobile/openvpn-2.5.11/src/openvpn/dhcp.c:79-148 | No router option is left |
| `Dhcp.AddressFound` | build-mobile/openvpn-2.5.11/src/openvpn/dhcp.c:104-109 | The address is that of the first router option whose length is a positive multiple of 4 and whose first four bytes, in network order, are not zero; 0 without one |
| `Dhcp.CutOffRouterSwallowed` | build-mobile/openvpn-2.5.11/src/openvpn/dhcp.c:79-148 | An area on which a cut-off router option is completed and deleted |
| `Dhcp.RecheckedVerifies` | build-mobile/openvpn-2.5.11/src/openvpn/dhcp.c:169-173 | Whatever stood in the checksum field, the recomputed one verifies for packets of up to 65535 bytes |
| `Dhcp.Recheck` | build-mobile/openvpn-2.5.11/src/openvpn/dhcp.c:169-173 | Only the two bytes of the checksum change |
| `Dhcp.ExtractRouterMsg` | build-mobile/openvpn-2.5.11/src/openvpn/dhcp.c:151-190 | Only acknowledgements and offers in BOOTP replies over UDP are changed, options and checksum alone; only acknowledgements give an address; the message type never changes |
| `Checksum.IpChecksum` | build-mobile/openvpn-2.5.11/src/openvpn/proto.c:125-173 | The loops compute the complement of the folded 32-bit sum over segment, addresses, length and protocol |
| `Checksum.ChecksumVerifies` | build-mobile/openvpn-2.5.11/src/openvpn/proto.c:125-173 | A packet with that result in its zeroed checksum field adds up to all ones in one's complement, exactly when what the 32-bit sum lost is a multiple of 65535; up to 65535 bytes nothing is lost |
| `Checksum.AdjustedMoves` | build-mobile/openvpn-2.5.11/src/openvpn/proto.h:217-238 | The adjusted checksum is the old one plus the accumulated change, modulo 65535, in both branches |
| `Checksum.AdjustKeeps` | build-mobile/openvpn-2.5.11/src/openvpn/proto.h:217-248 | When old words give way to new ones and the checksum is adjusted, the sum is a multiple of 65535 exactly when it was before |
| `Checksum.ByteOrderKept` | build-mobile/openvpn-2.5.11/src/openvpn/proto.h:217-248 | The order of the bytes in the words does not matter, so words may be taken as the machine reads them |
| `ClientNat.RuleList.AddEntry` | build-mobile/openvpn-2.5.11/src/openvpn/clinat.c:38-51 | Appends a rule or, when the table is full, changes nothing |
| `ClientNat.FirstRule` | build-mobile/openvpn-2.5.11/src/openvpn/clinat.c:195-278 | The rule used is the first that applies, and there is none only when none applies |
| `ClientNat.RuleActs` | build-mobile/openvpn-2.5.11/src/openvpn/clinat.c:212-253 | Source rules act on the source of outgoing and the destination of incoming packets, destination rules the other way, from the own to the foreign network outwards and back inwards; an address no rule of the kind covers stays |
| `ClientNat.Transform` | build-mobile/openvpn-2.5.11/src/openvpn/clinat.c:195-278 | One pass rewrites each address at most once, by its first applicable rule, and adjusts the checksum of the IP header and of a TCP or UDP packet with a whole header; without an applicable rule nothing changes |
| `ClientNat.IpChecksumKept` | build-mobile/openvpn-2.5.11/src/openvpn/clinat.c:195-278 | The IP header verifies afterwards exactly when it did before |
| `ClientNat.TransportChecksumKept` | build-mobile/openvpn-2.5.11/src/openvpn/clinat.c:195-278 | So does the segment of a TCP packet of at least 40 bytes and of a UDP packet of at least 28, with its pseudo header, by one word that changes; behind any other header nothing changes |
| `ClientNat.UdpChecksumKept` | build-mobile/openvpn-2.5.11/src/openvpn/clinat.c:270-276 | A UDP packet is accepted afterwards exactly when its words verified before, or when its checksum, or its lack of one, is adjusted to 0: when the addresses gained the checksum, or that and a multiple of 65535; a packet accepted with a checksum stays accepted |
| `ClientNat.UdpAcceptanceChanges` | build-mobile/openvpn-2.5.11/src/openvpn/clinat.c:270-276 | A UDP packet without a checksum that is accepted before the transform and not after it, and one with a wrong checksum for which it is the other way round |
| `ClientNat.DisjointMeansDisjoint` | build-mobile/openvpn-2.5.11/src/openvpn/clinat.c:212-252 | The bit test for disjoint ranges says that no address is in both |
| `ClientNat.RewriteKeepsHost` | build-mobile/openvpn-2.5.11/src/openvpn/clinat.c:236-252 | Rewriting keeps the host bits and moves the address into the other range |
| `ClientNat.UniqueForeign` | build-mobile/openvpn-2.5.11/src/openvpn/clinat.c:212-252 | With disjoint foreign ranges at most one rule claims an address of a reply |
| `ClientNat.ReplyInverts` | build-mobile/openvpn-2.5.11/src/openvpn/clinat.c:195-278 | The reply gives the address back exactly when the request rewrote it, or when it was not rewritten and no foreign range claims it |
| `ClientNat.PacketReplyInverts` | build-mobile/openvpn-2.5.11/src/openvpn/clinat.c:195-278 | Both addresses of the swapped reply come back |
| `Base64.FindPos` | build-mobile/openvpn-2.5.11/src/openvpn/base64.c:107-118 | The table search finds the index of a character, -1 for all others |
| `Base64.EncodedLength` | build-mobile/openvpn-2.5.11/src/openvpn/base64.h:38 | The text has OPENVPN_BASE64_LENGTH characters, fits size*4/3+4 with its NUL, and fills it when size mod 3 is 1 |
| `Base64.EncodeText` | build-mobile/openvpn-2.5.11/src/openvpn/base64.c:54-104 | The encoding with its NUL, inside the allocated size |
| `Base64.DecodeToken` | build-mobile/openvpn-2.5.11/src/openvpn/base64.c:123-153 | The token value in 32-bit arithmetic, padding at the end only |
| `Base64.DecodeText` | build-mobile/openvpn-2.5.11/src/openvpn/base64.c:160-202 | The decoded bytes, or -1 for a bad token or a full buffer, with no write outside |
| `Base64.TokenOfFour` | build-mobile/openvpn-2.5.11/src/openvpn/base64.c:123-153 | Four characters, up to two of them padding, give the 24 bits and the number of pads |
| `Base64.RoundTrip` | build-mobile/openvpn-2.5.11/src/openvpn/base64.c:53-202 | Decoding the encoding of any bytes gives them back when they fit, and -1 when they do not |
| `Base64.EncodeSplits` | build-mobile/openvpn-2.5.11/src/openvpn/base64.c:54-104 | Encoding splits at three-byte boundaries |
| `Base64.DecodeSlice` | build-mobile/openvpn-2.5.11/src/openvpn/base64.c:160-202 | A slice of text that decodes without padding decodes to the same bytes inside the whole |
| `Base64.TokenExact` | build-mobile/openvpn-2.5.11/src/openvpn/base64.c:123-153 | Any token that starts in the alphabet: the sum of its characters with the number of pads above, 2^32 added to a negative sum, and an error for fewer than four characters or misplaced pads |
| `Base64.DecodesExactly` | build-mobile/openvpn-2.5.11/src/openvpn/base64.c:160-202 | Any text: decoding succeeds exactly when every token up to the first that starts outside the alphabet has four characters, pads only last and a sum other than -1, and what they mean has room; and that is then the result |
| `Base64.ForeignInToken` | build-mobile/openvpn-2.5.11/src/openvpn/base64.c:123-153 | A foreign character inside a token is rejected exactly in AAAx, AAx/ and Ax// |
| `Base64.ForeignEnds` | build-mobile/openvpn-2.5.11/src/openvpn/base64.c:159-202 | A foreign character where a token would start ends the text with success |
| `Base64.BadCharacterAccepted` | build-mobile/openvpn-2.5.11/src/openvpn/base64.c:123-153 | Two tokens that differ in one digit: the foreign character is taken for -1 in one and rejects the other |
| `AuthToken.Multi.Generate` | build-mobile/openvpn-2.5.11/src/openvpn/auth_token.c:176-282 | The new token carries the session id and initial timestamp of the old one, or fresh ones, and can be renewed again |
| `AuthToken.TakeOld` | build-mobile/openvpn-2.5.11/src/openvpn/auth_token.c:188-219 | The two partial decodings of an old token give its session id and initial timestamp |
| `AuthToken.CheckHmacToken` | build-mobile/openvpn-2.5.11/src/openvpn/auth_token.c:286-299 | True exactly for the HMAC of this user name over the token |
| `AuthToken.Multi.Verify` | build-mobile/openvpn-2.5.11/src/openvpn/auth_token.c:302-392 | The flags are those of the opened token, nothing else is accepted, the user name is emptied exactly with the empty-user flag, and the client is told of an expired token and of no other |
| `AuthToken.CheckTimes` | build-mobile/openvpn-2.5.11/src/openvpn/auth_token.c:352-383 | Expired by window, by order of the timestamps, or by lifetime |
| `AuthToken.Multi.PushReply` | build-mobile/openvpn-2.5.11/src/openvpn/push.c:394-415 | The first token pushed is the one remembered |
| `AuthToken.Multi.Wipe` | build-mobile/openvpn-2.5.11/src/openvpn/auth_token.c:395-413 | Both tokens are gone |
| `AuthToken.StampInverts` | build-mobile/openvpn-2.5.11/src/openvpn/integer.h:29-37 | A 64-bit timestamp survives the network byte order |
| `AuthToken.ReadsBack` | build-mobile/openvpn-2.5.11/src/openvpn/auth_token.c:176-282 | An issued token opens to its data, and its parts decode by themselves to session id and initial timestamp |
| `AuthToken.AdoptedReadsBack` | build-mobile/openvpn-2.5.11/src/openvpn/auth_token.c:188-219 | A password taken over as token renews the very session id and timestamp that verification read in it |
| `AuthToken.RunKeepsSession` | build-mobile/openvpn-2.5.11/src/openvpn/auth_token.c:176-282 | Along any run of renewals session id and initial timestamp never change; only time, user and HMAC follow the last call |
| `AuthToken.IssuedVerifies` | build-mobile/openvpn-2.5.11/src/openvpn/auth_token.c:302-392 | An issued token has a good HMAC for its user and, for an interval whose double is an int, is expired exactly outside [ts, ts + 2*renegotiate) unless it is the initial one, when it is older than its session, or past a non-zero lifetime |
| `AuthToken.RenegotiationWraps` | build-mobile/openvpn-2.5.11/src/openvpn/auth_token.c:352-355 | The 64-bit sum changes the answer exactly for a stamp within two intervals of 2^64 that is not in the future |
| `AuthToken.DoubledExactly` | build-mobile/openvpn-2.5.11/src/openvpn/auth_token.c:352-355 | The doubled interval is exact up to 2^30 - 1, and beyond it wraps to a negative number |
| `AuthToken.NegativeInterval` | build-mobile/openvpn-2.5.11/src/openvpn/auth_token.c:352-355 | With a negative double no time is in the window, or every time from a stamp that is small enough on |
| `AuthToken.LifetimeWraps` | build-mobile/openvpn-2.5.11/src/openvpn/auth_token.c:379-383 | The same for the lifetime |
| `AuthToken.OtherUserRejected` | build-mobile/openvpn-2.5.11/src/openvpn/auth_token.c:302-392 | For another user it is rejected, or taken for the empty name, exactly as the HMACs differ |
| `AuthToken.RunExpires` | build-mobile/openvpn-2.5.11/src/openvpn/auth_token.c:175-392 | However often a session was renewed, its token is good in its window and until the lifetime counted from the first call is over |
| `AuthToken.Session` | build-mobile/openvpn-2.5.11/src/openvpn/auth_token.c:175-392 | Issue, push, any number of renewals and the check together: the last token, unless it is the one pushed, is expired exactly outside its window, when older than the session, or past the lifetime; the pushed one, as the beginning of a password too, by the lifetime alone |
| `HexDump.RoomSuffices` | build-mobile/openvpn-2.5.11/src/openvpn/buffer.c:506-507 | The size formula leaves a byte more than text and NUL for every block size and separator |
| `HexDump.HexTextLength` | build-mobile/openvpn-2.5.11/src/openvpn/buffer.c:510-524 | Two digits a byte and a separator before every block but the first |
| `HexDump.FormatHexEx` | build-mobile/openvpn-2.5.11/src/openvpn/buffer.c:499-527 | Without a limit the whole text, never cut off or marked; with one, the text, the marked text or the cut text by what is free; fatal exactly when the buffer would be too large |
| `KeyFile.ReadKeyFile` | build-mobile/openvpn-2.5.11/src/openvpn/crypto.c:1230-1430 | The character loop computes the run of the state machine; foreign characters, missing keys or a missing footer are fatal where they are |
| `KeyFile.RunFits` | build-mobile/openvpn-2.5.11/src/openvpn/crypto.c:1289-1377 | On any text never more than 256 bytes are stored |
| `KeyFile.SkipLines` | build-mobile/openvpn-2.5.11/src/openvpn/crypto.c:1295-1328 | Lines that do not start with the header change nothing |
| `KeyFile.ReadBody` | build-mobile/openvpn-2.5.11/src/openvpn/crypto.c:1342-1373 | Digits in either case with spaces and newlines among them anywhere give the bytes they spell |
| `KeyFile.ReadsText` | build-mobile/openvpn-2.5.11/src/openvpn/crypto.c:1230-1430 | Leading lines, header line, such a body and footer end in PARSE_FINISHED with those bytes, whatever follows; behind the 512th digit anything may stand in the body but a line that starts with a dash |
| `KeyFile.ReadsDigits` | build-mobile/openvpn-2.5.11/src/openvpn/crypto.c:1230-1430 | With any number of digits the first 512 count and the others are passed over |
| `KeyFile.RoundTrip` | build-mobile/openvpn-2.5.11/src/openvpn/crypto.c:1218-1493 | read_key_file on what write_key_file prints for one or two keys of any bytes gives the number of keys and the same bytes |
| `KeyFile.WriteKeyFile` | build-mobile/openvpn-2.5.11/src/openvpn/crypto.c:1433-1493 | The printed file, cut off where the 2048-byte buffer ends; the number of bits, or -1 when it could not be stored |
| `KeyFile.FileFits` | build-mobile/openvpn-2.5.11/src/openvpn/crypto.c:1440-1473 | It is not cut off exactly up to seven keys |
| `EventSets.WeSet.Ctl` | build-mobile/openvpn-2.5.11/src/openvpn/event.c:231-380 | The event is watched for the flags asked for, or with a full set at most for the write half more; no other event notices, no handle is stored twice |
| `EventSets.WeSet.Del` | build-mobile/openvpn-2.5.11/src/openvpn/event.c:223-228 | The event is unwatched, no other notices |
| `EventSets.WeSet.AppendEvent` | build-mobile/openvpn-2.5.11/src/openvpn/event.c:117-144 | Write half first, each half only while there is room |
| `EventSets.WeSet.DelEvent` | build-mobile/openvpn-2.5.11/src/openvpn/event.c:147-169 | In-place compaction leaves the slots of the other events in order |
| `EventSets.WeSet.DelIndex` | build-mobile/openvpn-2.5.11/src/openvpn/event.c:172-182 | Exactly one slot goes, the order stays |
| `EventSets.WeSet.GetRwIndices` | build-mobile/openvpn-2.5.11/src/openvpn/event.c:185-203 | The indices of the two handles, and its assertions cannot fail |
| `EventSets.WeInit` | build-mobile/openvpn-2.5.11/src/openvpn/event.c:481-517 | Capacity and number of events allowed; all of these can be watched for both flags exactly when at most 32 were asked for |
| `EventSets.RoomNeeded` | build-mobile/openvpn-2.5.11/src/openvpn/event.c:481-517 | Watching n events for both flags takes 2n slots |
| `EventSets.PoSet.Ctl` | build-mobile/openvpn-2.5.11/src/openvpn/event.c:772-810 | The entry of a descriptor is replaced or appended, or left out of a full set; no other descriptor notices |
| `EventSets.PoSet.Del` | build-mobile/openvpn-2.5.11/src/openvpn/event.c:715-737 | The entry goes, no other descriptor notices |
| `EventSets.SeSet.Ctl` | build-mobile/openvpn-2.5.11/src/openvpn/event.c:954-1002 | Both sets follow the flags, descriptors outside are left out, every descriptor set is at most maxfd |
| `EventSets.SeSet.Del` | build-mobile/openvpn-2.5.11/src/openvpn/event.c:933-951 | The descriptor leaves both sets |
| `EventSets.SeSet.WaitReturn` | build-mobile/openvpn-2.5.11/src/openvpn/event.c:1005-1035 | All ready descriptors in order with flags and arguments, or the first outlen of them; stopping at maxfd misses none |
| `EventSets.OthersHold` | build-mobile/openvpn-2.5.11/src/openvpn/event.c:147-169 | The remaining handles are exactly those the event does not own |
| `EventSets.WeRun` | build-mobile/openvpn-2.5.11/src/openvpn/event.c:222-380 | Over any run with two slots an event, a Windows set watches each event for the flags of its last call, and returns its slots with those flags |
| `EventSets.PoRun` | build-mobile/openvpn-2.5.11/src/openvpn/event.c:714-810 | The same for poll with an entry an event |
| `EventSets.SeRun` | build-mobile/openvpn-2.5.11/src/openvpn/event.c:932-1001 | The same for select with room for the descriptors |
| `EventSets.BackendsAgree` | build-mobile/openvpn-2.5.11/src/openvpn/event.c:92-1001 | Given the same calls, and each set the room it needs for the events, all three watch every event for the flags of its last call: one interest map |
| `BufferList.List.PushData` | build-mobile/openvpn-2.5.11/src/openvpn/buffer.c:1249-1273 | Appends a copy when the limit allows, with chain, tail and size kept; fatal exactly when it would be appended and is too large for a buffer |
| `BufferList.List.PushString` | build-mobile/openvpn-2.5.11/src/openvpn/buffer.c:1235-1246 | The same for a string, whose NUL is not counted |
| `BufferList.List.Peek` | build-mobile/openvpn-2.5.11/src/openvpn/buffer.c:1276-1286 | The first buffer, or none for an empty list |
| `BufferList.List.Pop` | build-mobile/openvpn-2.5.11/src/openvpn/buffer.c:1341-1355 | The first buffer leaves |
| `BufferList.List.Advance` | build-mobile/openvpn-2.5.11/src/openvpn/buffer.c:1358-1369 | Bytes leave the first buffer, which goes when it is empty |
| `BufferList.List.Reset` | build-mobile/openvpn-2.5.11/src/openvpn/buffer.c:1220-1232 | The list is empty |
| `BufferList.List.CountFitting` | build-mobile/openvpn-2.5.11/src/openvpn/buffer.c:1292-1306 | Counts the longest prefix that fits with its separators |
| `BufferList.List.Aggregate` | build-mobile/openvpn-2.5.11/src/openvpn/buffer.c:1289-1332 | The longest fitting prefix of at least two buffers becomes one buffer of their separator-terminated bytes, in the linked chain; otherwise nothing changes; fatal exactly when that buffer is too large |
| `BufferList.FittingIsLongest` | build-mobile/openvpn-2.5.11/src/openvpn/buffer.c:1292-1306 | A prefix fits exactly when it is not longer than the one counted |
| `BufferList.AggregateKeeps` | build-mobile/openvpn-2.5.11/src/openvpn/buffer.c:1335-1338 | Without a separator no byte of the queue moves, and the new buffer is at most max bytes |
| `BufferList.FirstInFirstOut` | build-mobile/openvpn-2.5.11/src/openvpn/buffer.c:1193-1369 | After any run of pushes, pops, advances and aggregations the bytes gone out followed by those queued are the bytes taken in, and the limit is kept |
| `PacketId.PacketIdSend.Update` | build-mobile/openvpn-2.5.11/src/openvpn/packet_id.c:326-346 | The next id, or none when it would roll over |
| `PacketId.PacketIdSend.WritePrepend` | build-mobile/openvpn-2.5.11/src/openvpn/packet_id.c:349-388 | The id in network order in front of the content |
| `PacketId.CountsUp` | build-mobile/openvpn-2.5.11/src/openvpn/packet_id.c:326-346 | Ids are counted up by one to 2^32 - 1; only the long form goes on from there, with 1 at a later clock |
| `PacketId.NeverRepeats` | build-mobile/openvpn-2.5.11/src/openvpn/packet_id.c:326-346 | No run of attempts, failed ones included, sends from the same id and time twice |
| `PacketId.WireNeverRepeats` | build-mobile/openvpn-2.5.11/src/openvpn/packet_id.c:326-388 | Nor do the bytes on the wire repeat: short ids never, long ones while the clock fits 32 bits |
| `PacketId.PidReads` | build-mobile/openvpn-2.5.11/src/openvpn/packet_id.c:300-388 | An id reads back as it was written, its time cut to 32 bits |
| `PacketId.PidLayout` | build-mobile/openvpn-2.5.11/src/openvpn/packet_id.c:349-388 | On the wire the id stands in network order, in the long form with the time behind it |
| `CircList.List.Push` | build-mobile/openvpn-2.5.11/src/openvpn/circ_list.h:40-45 | An item goes in front of the others, and the oldest falls off a full list |
| `PacketId.PacketIdRec.Test` | build-mobile/openvpn-2.5.11/src/openvpn/packet_id.c:202-293 | The answer by time, highest id and window, with and without a window |
| `PacketId.PacketIdRec.Add` | build-mobile/openvpn-2.5.11/src/openvpn/packet_id.c:115-162 | The window moves up to the id, or starts again, and the id is noted with the clock |
| `PacketId.PacketIdRec.Reap` | build-mobile/openvpn-2.5.11/src/openvpn/packet_id.c:170-195 | The loop gives up what the reference reaping gives up |
| `PacketId.PacketIdRec.CheckReplay` | build-mobile/openvpn-2.5.11/src/openvpn/crypto.c:319-345 | Reaping when due, the test, and the id noted when it passes |
| `PacketId.ReapedExactly` | build-mobile/openvpn-2.5.11/src/openvpn/packet_id.c:170-195 | Given up are exactly the entries with one at or above them that came longer ago than allowed |
| `PacketId.TakenAgain` | build-mobile/openvpn-2.5.11/src/openvpn/packet_id.c:114-162 | An id just taken is taken again exactly when a window is kept and the clock does not exceed the mark for given-up ids |
| `PacketId.NoReplay` | build-mobile/openvpn-2.5.11/src/openvpn/packet_id.c:114-293 | Over any run of arrivals at a clock above 1, in any order and with any reaping, no id is accepted twice |
| `PacketId.LateIsRefused` | build-mobile/openvpn-2.5.11/src/openvpn/packet_id.c:164-195 | Once the list was reaped, five seconds or more after the time before, an id at or below one of its time that was accepted longer before than the time limit is refused, then and ever after |
| `PacketId.RefusedExactly` | build-mobile/openvpn-2.5.11/src/openvpn/packet_id.c:114-293 | With a window an id is refused exactly when it is 0, of an earlier time, behind the window, from before the first packet, accepted already, or too late |
| `PacketId.InOrder` | build-mobile/openvpn-2.5.11/src/openvpn/packet_id.c:279-292 | Without a window the id after an accepted one is accepted exactly when it is the next of its time, or the first of a later one |
| `PacketId.FirstInOrder` | build-mobile/openvpn-2.5.11/src/openvpn/packet_id.c:279-292 | The first one follows the id that was loaded, or is any if none was, or starts a later time |
| `PacketCrypto.EncryptAead` | build-mobile/openvpn-2.5.11/src/openvpn/crypto.c:64-154 | The sealed packet, or an empty buffer exactly when the id would roll over or room is missing |
| `PacketCrypto.EncryptV1` | build-mobile/openvpn-2.5.11/src/openvpn/crypto.c:157-296 | The same for CBC, OFB and CFB, and no cipher, each with or without HMAC; it succeeds whenever ids, headroom and work buffer suffice; without a cipher a prefix for which there is no headroom is left out |
| `PacketCrypto.DecryptAead` | build-mobile/openvpn-2.5.11/src/openvpn/crypto.c:356-480 | The opened packet, or an empty buffer and false exactly when a part is missing, update or final fails, or the replay check refuses the id; what opens is what update and final put out, and a packet for which one fails leaves the receiver as it was |
| `PacketCrypto.DecryptV1` | build-mobile/openvpn-2.5.11/src/openvpn/crypto.c:491-652 | The same for the other layouts, where nothing opens whose first bytes are not the HMAC of the rest; an ignored or absent id leaves the receiver alone |
| `PacketCrypto.AeadExact` | build-mobile/openvpn-2.5.11/src/openvpn/crypto.c:383-459 | An AEAD packet is opened exactly when it has all its parts, fits, and neither update nor final fails, to what both put out |
| `PacketCrypto.HmacExact` | build-mobile/openvpn-2.5.11/src/openvpn/crypto.c:508-534 | With an HMAC nothing opens but what its first bytes authenticate |
| `PacketCrypto.CipherExact` | build-mobile/openvpn-2.5.11/src/openvpn/crypto.c:538-622 | With a cipher a body opens only if neither update nor final fails, and the id is read from the plaintext under CBC and from the IV otherwise |
| `PacketCrypto.OpensOnce` | build-mobile/openvpn-2.5.11/src/openvpn/crypto.c:319-652 | Of two packets with the same id only one opens, whatever comes between |
| `PacketCrypto.AeadRoundTrip` | build-mobile/openvpn-2.5.11/src/openvpn/crypto.c:63-480 | Given the same bytes in front of it every sealed payload opens, exactly when its id is new and the work buffer has the room the code asks for |
| `PacketCrypto.V1RoundTrip` | build-mobile/openvpn-2.5.11/src/openvpn/crypto.c:156-652 | The same for CBC, OFB and CFB, and no cipher, each with or without HMAC; without a cipher the id may be ignored |
| `PacketCrypto.GrowthBounded` | build-mobile/openvpn-2.5.11/src/openvpn/crypto.c:682-713 | No packet grows by more than the overhead added to the frame |

## Left out

- Base64.EncodeText: sizes for which `size * 4 / 3 + 4` overflows `int`, and the -1 for a negative size, are not modelled.
- Base64.DecodeText: an unlimited size (negative) is modelled with a buffer as long as the text, which the C function leaves to its caller.
- AuthToken.Open: USER_PASS_LEN is that of builds without ENABLE_PKCS11; with it the limit is 4096.
- AuthToken.Multi.Generate: the assertions on the token it replaces are a precondition (`Renewable`), which every issued token meets; a token taken over from a password may not.
- AuthToken.Multi.Verify: a negative clock is not modelled; the overflow of `2 * renegotiate_seconds` is taken to wrap in two's complement.
- KeyFile.WriteKeyFile: the random keys, and whether the file could be written, are parameters.
- EventSets.WeSet.Ctl: only sets that are kept between waits; EVENT_METHOD_FAST, unknown flag bits and stale arguments of slots that stay are not modelled.
- EventSets.WeInit: WSA_MAXIMUM_WAIT_EVENTS comes from the Windows headers and is taken as 64.
- BufferList.List.PushData: a NULL source, for which nothing is pushed, and allocation failure are not modelled.
- ClientNat.Transform: a packet is given in the 16-bit words of a little-endian machine, with all behind its first 20 bytes as one part; that a header with options or a later fragment has no checksum where the code looks for it is not modelled.
- Dhcp.ExtractRouterMsg: headers and options are two arrays, and as in the code the IP header has 20 bytes.
- Compression.DoLz4Compress: LZ4 writes into an array of its own whose bytes are then copied into the work buffer, so bytes behind the block in the work buffer keep their old values.
- PacketCrypto.EncryptV1: the assertions on room for HMAC and IV, and on the headroom for HMAC and id without a cipher, are preconditions.
- PacketCrypto.EncryptAead: cipher update and final are one call on the sending side, and a cipher that cannot be reset is one that fails in update.
- PacketId.PacketIdRec.CheckReplay: saving time and id to the persist file and the backtrack statistics are not modelled.
- LZ4 streaming, dictionaries, `LZ4_decompress_fast`, partial decoding and fillOutput: OpenVPN calls none of them.
- LZ4 on 32-bit or big-endian machines, `byPtr` tables, and pointers near the end of the address space.
- LZ4 with an acceleration so large that its product with 64 overflows `int`, and negative sizes.
- The functions that only pick between two others (`openvpn_encrypt`, `openvpn_decrypt`), and `we_wait`, `po_wait` and epoll.
- Buffers whose data pointer is NULL, and allocation failure everywhere.
- The TLS side of session tokens (`ssl_verify.c`) that decides when to issue, adopt and wipe them.
- The Rust client, forwarding, timers, sockets, logging, real ciphers, HMACs and random numbers.
