/** struct frame: packet geometry, and whether the work buffers allocated from it are large enough. */
module Frames {
  const PAYLOAD_ALIGN: nat := 4
  const COMP_PREFIX_LEN: nat := 1

  datatype Frame = Frame(linkMtu: nat, extraFrame: nat, extraBuffer: nat, extraTun: nat, extraLink: nat,
                         alignAdjust: nat)

  function TunLinkDelta(f: Frame): nat { f.extraFrame + f.extraTun }

  function TunMtuSize(f: Frame): int { f.linkMtu - TunLinkDelta(f) }

  function PayloadSize(f: Frame): int { f.linkMtu - f.extraFrame }

  function ExpandedSize(f: Frame): nat { f.linkMtu }

  function HeadroomBase(f: Frame): nat { TunLinkDelta(f) + f.extraBuffer + f.extraLink }

  /** frame_headroom: `adjusted` says whether the caller's marker is among the align flags. */
  function Headroom(f: Frame, adjusted: bool): (h: nat)
    ensures HeadroomBase(f) <= h < HeadroomBase(f) + PAYLOAD_ALIGN
    ensures (h + if adjusted then f.alignAdjust else 0) % PAYLOAD_ALIGN == 0
  {
    var offset := HeadroomBase(f);
    var adjust := if adjusted then f.alignAdjust else 0;
    offset + (-(offset + adjust)) % PAYLOAD_ALIGN
  }

  function BufSize(f: Frame): int { TunMtuSize(f) + HeadroomBase(f) * 2 }

  /** COMP_EXTRA_BUFFER. */
  function CompExtraBuffer(len: nat): nat { len / 6 + 128 + 3 + COMP_PREFIX_LEN }

  /** A frame as comp_add_to_extra_buffer and the encapsulation layers leave it. */
  predicate PreparedForCompression(f: Frame) {
    && f.extraFrame <= f.linkMtu
    && f.extraBuffer >= CompExtraBuffer(ExpandedSize(f))
    && f.extraFrame + f.extraLink >= PAYLOAD_ALIGN - 1
  }

  /** The compressor's output limit and the decompressor's both fit behind the headroom of a work buffer. */
  lemma WorkBufferSuffices(f: Frame, adjusted: bool)
    requires PreparedForCompression(f)
    ensures Headroom(f, adjusted) + PayloadSize(f) + CompExtraBuffer(PayloadSize(f)) <= BufSize(f)
    ensures Headroom(f, adjusted) + ExpandedSize(f) < BufSize(f)
  {
  }
}
