/**
 openvpn_encrypt and openvpn_decrypt (crypto.c) with the packet ids of packet_id.c. Ciphers and HMACs
 are any functions that undo each other, or have the length they claim.
 */
module PacketCrypto {
  import opened Bytes
  import opened Buffers
  import opened PacketId

  const AEAD_MIN_IV_LEN: nat := 12

  // ----- keys -----

  datatype Mode = Cbc | OfbCfb | Aead

  /**
   A cipher with its key. IV, additional data and plaintext give ciphertext and tag; IV, additional data and
   ciphertext give what update puts out, and with the tag what final adds.
   */
  datatype Cipher = Cipher(mode: Mode, ivLen: nat, tagLen: nat, blockSize: nat,
                           encrypt: (seq<byte>, seq<byte>, seq<byte>) -> (seq<byte>, seq<byte>),
                           update: (seq<byte>, seq<byte>, seq<byte>) -> Option<seq<byte>>,
                           final: (seq<byte>, seq<byte>, seq<byte>, seq<byte>) -> Option<seq<byte>>)
  {
    /** Both calls together; either may fail. */
    function Decrypt(iv: seq<byte>, ad: seq<byte>, ct: seq<byte>, tag: seq<byte>): Option<seq<byte>> {
      match update(iv, ad, ct)
      case None => None
      case Some(u) =>
        match final(iv, ad, ct, tag)
        case None => None
        case Some(f) => Some(u + f)
    }
  }

  datatype Hmac = Hmac(size: nat, mac: seq<byte> -> seq<byte>)

  /** struct key_ctx. */
  datatype KeyCtx = KeyCtx(cipher: Option<Cipher>, hmac: Option<Hmac>, implicitIv: seq<byte>)

  /** What is known of any cipher: lengths, and that decryption undoes encryption. */
  ghost predicate CipherLaw(c: Cipher) {
    && (forall iv, ad, p ::
          var e := c.encrypt(iv, ad, p);
          && |p| <= |e.0| <= |p| + c.blockSize && |e.1| == c.tagLen
          && c.Decrypt(iv, ad, e.0, e.1) == Some(p))
    && (forall iv, ad, ct ::
          c.update(iv, ad, ct).Some? ==> |c.update(iv, ad, ct).value| <= |ct| + c.blockSize)
    && (forall iv, ad, ct, tag ::
          c.Decrypt(iv, ad, ct, tag).Some? ==> |c.Decrypt(iv, ad, ct, tag).value| <= |ct| + c.blockSize)
    && (!c.mode.Aead? ==> c.tagLen == 0)
  }

  /** A context as init_key_ctx and the key negotiation leave it. */
  ghost predicate Good(k: KeyCtx) {
    && (k.cipher.Some? ==>
          && CipherLaw(k.cipher.value)
          && (k.cipher.value.mode.Aead? ==>
                k.cipher.value.ivLen == 4 + |k.implicitIv| && AEAD_MIN_IV_LEN <= k.cipher.value.ivLen)
          && (k.cipher.value.mode.OfbCfb? ==> 8 <= k.cipher.value.ivLen))
    && (k.hmac.Some? ==> forall m :: |k.hmac.value.mac(m)| == k.hmac.value.size)
  }

  predicate UsesAead(k: KeyCtx) {
    k.cipher.Some? && k.cipher.value.mode.Aead?
  }

  // ----- AEAD packets -----

  /** prefix | packet id | tag | ciphertext; prefix and packet id are authenticated. */
  function SealAead(k: KeyCtx, prefix: seq<byte>, payload: seq<byte>, id: nat): seq<byte>
    requires UsesAead(k)
  {
    var pid := PidBytes(Pid(id, 0), false);
    var e := k.cipher.value.encrypt(pid + k.implicitIv, prefix + pid, payload);
    prefix + pid + e.1 + e.0
  }

  /** A packet without its wrapping, before the replay check: the id that is tested, if any, and the payload. */
  datatype Bare = Bare(pin: Option<Pid>, payload: seq<byte>)

  /** The replay check. */
  function Checked(b: Option<Bare>, isNew: Pid -> bool): Option<seq<byte>> {
    match b
    case None => None
    case Some(b) => if b.pin.Some? && !isNew(b.pin.value) then None else Some(b.payload)
  }

  /** The ids that the receiver accepts. */
  function NewTo(limits: Limits, r: Receiver, now: nat): Pid -> bool {
    pin => Accepts(limits, r, pin, now)
  }

  /** What the check leaves of the receiver: packets that do not get to it change nothing. */
  function AfterPacket(limits: Limits, r: Receiver, b: Option<Bare>, now: nat): Receiver {
    if b.Some? && b.value.pin.Some? then AfterCheck(limits, r, b.value.pin.value, now) else r
  }

  /** openvpn_decrypt_aead up to the replay check: `ad` lies in front of the packet, `room` is for the plaintext. */
  function BareAead(k: KeyCtx, ad: seq<byte>, packet: seq<byte>, room: int): Option<Bare>
    requires UsesAead(k) && |k.implicitIv| <= k.cipher.value.ivLen
  {
    var c := k.cipher.value;
    if |packet| + |k.implicitIv| < c.ivLen then None
    else if |packet| < 4 then None
    else
      var iv := packet[..c.ivLen - |k.implicitIv|] + k.implicitIv;
      var pid := Pid(FromBigEndian(packet[..4]), 0);
      var rest := packet[4..];
      if |rest| < c.tagLen then None
      else
        var tag, ct := rest[..c.tagLen], rest[c.tagLen..];
        if |ct| < 1 || |ct| + c.blockSize > room || !SizeValid(|ct| + c.blockSize) then None
        else
          var p := c.Decrypt(iv, ad + packet[..4], ct, tag);
          if p.None? then None else Some(Bare(Some(pid), p.value))
  }

  /** openvpn_decrypt_aead. */
  function OpenAead(k: KeyCtx, ad: seq<byte>, packet: seq<byte>, room: int, isNew: Pid -> bool): Option<seq<byte>>
    requires UsesAead(k) && |k.implicitIv| <= k.cipher.value.ivLen
  {
    Checked(BareAead(k, ad, packet, room), isNew)
  }

  /** buf_safe of an empty work buffer with `room` left, for a ciphertext of `n` bytes. */
  predicate FitsRoom(c: Cipher, n: int, room: int) {
    n + c.blockSize <= room && SizeValid(n + c.blockSize)
  }

  /** What was sealed opens, given the same prefix in front of it, exactly when its id is new and it fits. */
  lemma AeadRoundTrip(k: KeyCtx, prefix: seq<byte>, payload: seq<byte>, id: nat, room: int, isNew: Pid -> bool)
    requires Good(k) && UsesAead(k) && payload != [] && id <= PACKET_ID_MAX
    ensures var packet := SealAead(k, prefix, payload, id)[|prefix|..];
            OpenAead(k, prefix, packet, room, isNew)
            == if isNew(Pid(id, 0)) && FitsRoom(k.cipher.value, |packet| - 4 - k.cipher.value.tagLen, room)
               then Some(payload) else None
  {
    hide BigEndian, FromBigEndian;
    var c := k.cipher.value;
    var pid := PidBytes(Pid(id, 0), false);
    var e := c.encrypt(pid + k.implicitIv, prefix + pid, payload);
    var packet := SealAead(k, prefix, payload, id)[|prefix|..];
    assert packet == pid + (e.1 + e.0);
    PidReads(Pid(id, 0), false, e.1 + e.0);
    assert packet[..4] == pid;
    assert packet[4..] == e.1 + e.0;
    assert (e.1 + e.0)[..c.tagLen] == e.1 && (e.1 + e.0)[c.tagLen..] == e.0;
  }

  // ----- the other packets -----

  /** The IV: random for CBC, the packet id with zeros behind it for OFB and CFB. */
  function IvFor(c: Cipher, pid: Pid, random: seq<byte>): seq<byte> {
    if c.mode.Cbc? || c.ivLen < 8 then random else PidBytes(pid, true) + Fill(0, c.ivLen - 8)
  }

  /** The part of a packet the HMAC covers. */
  function Body(k: KeyCtx, payload: seq<byte>, pid: Option<Pid>, long: bool, random: seq<byte>): seq<byte> {
    var plain := (if pid.Some? then PidBytes(pid.value, long) else []) + payload;
    match k.cipher
    case None => plain
    case Some(c) =>
      if c.mode.Cbc? then random + c.encrypt(random, [], plain).0
      else
        var iv := IvFor(c, if pid.Some? then pid.value else Pid(0, 0), random);
        iv + c.encrypt(iv, [], payload).0
  }

  function HmacSize(k: KeyCtx): nat {
    if k.hmac.Some? then k.hmac.value.size else 0
  }

  /** The HMAC, when there is one. */
  function Mac(k: KeyCtx, body: seq<byte>): seq<byte> {
    if k.hmac.Some? then k.hmac.value.mac(body) else []
  }

  /** prefix | HMAC | body. */
  function SealV1(k: KeyCtx, prefix: seq<byte>, payload: seq<byte>, pid: Option<Pid>, long: bool,
                  random: seq<byte>): seq<byte>
  {
    var body := Body(k, payload, pid, long, random);
    prefix + Mac(k, body) + body
  }

  /** The HMAC check of openvpn_decrypt_v1. */
  function Verified(k: KeyCtx, packet: seq<byte>): Option<seq<byte>> {
    match k.hmac
    case None => Some(packet)
    case Some(h) =>
      if |packet| < h.size || h.mac(packet[h.size..]) != packet[..h.size] then None else Some(packet[h.size..])
  }

  /** The packet id in front of a plaintext, when there is one. */
  function WithoutPid(plain: seq<byte>, pidOn: bool, long: bool): Option<Bare> {
    if !pidOn then Some(Bare(None, plain))
    else
      match ReadPid(plain, long)
      case None => None
      case Some(r) => Some(Bare(Some(r.0), r.1))
  }

  /** CO_IGNORE_PACKET_ID. */
  function Ignoring(b: Option<Bare>, ignorePid: bool): Option<Bare> {
    if b.Some? && ignorePid then Some(b.value.(pin := None)) else b
  }

  /** The rest of openvpn_decrypt_v1; CO_IGNORE_PACKET_ID is looked at without a cipher only. */
  function BareBody(k: KeyCtx, body: seq<byte>, pidOn: bool, long: bool, ignorePid: bool, room: int): Option<Bare> {
    match k.cipher
    case None => Ignoring(WithoutPid(body, pidOn, long), ignorePid)
    case Some(c) =>
      if |body| < c.ivLen then None
      else
        var iv, ct := body[..c.ivLen], body[c.ivLen..];
        if |ct| < 1 || |ct| + c.blockSize > room || !SizeValid(|ct| + c.blockSize) then None
        else
          match c.Decrypt(iv, [], ct, [])
          case None => None
          case Some(w) =>
            if c.mode.Cbc? then WithoutPid(w, pidOn, long)
            else
              match ReadPid(iv, true)
              case None => None
              case Some(r) => Some(Bare(Some(r.0), w))
  }

  /** openvpn_decrypt_v1 up to the replay check. */
  function BareV1(k: KeyCtx, packet: seq<byte>, pidOn: bool, long: bool, ignorePid: bool, room: int): Option<Bare> {
    match Verified(k, packet)
    case None => None
    case Some(body) => BareBody(k, body, pidOn, long, ignorePid, room)
  }

  /** openvpn_decrypt_v1. */
  function OpenV1(k: KeyCtx, packet: seq<byte>, pidOn: bool, long: bool, ignorePid: bool, room: int,
                  isNew: Pid -> bool): Option<seq<byte>>
  {
    Checked(BareV1(k, packet, pidOn, long, ignorePid, room), isNew)
  }

  /** OFB and CFB take the packet id as IV. */
  predicate AlwaysLong(k: KeyCtx) {
    k.cipher.Some? && k.cipher.value.mode.OfbCfb?
  }

  /** The id the receiver tests: OFB and CFB always carry the long form. */
  function Tested(k: KeyCtx, pid: Pid, long: bool): Pid {
    Received(pid, AlwaysLong(k) || long)
  }

  /** Whether the receiver takes a packet: room for its ciphertext, and an id that is new or not looked at. */
  predicate Taken(k: KeyCtx, bodyLen: nat, pid: Option<Pid>, long: bool, ignorePid: bool, room: int, isNew: Pid -> bool)
  {
    && (k.cipher.Some? ==> FitsRoom(k.cipher.value, bodyLen - k.cipher.value.ivLen, room))
    && (pid.Some? ==> (k.cipher.None? && ignorePid) || isNew(Tested(k, pid.value, long)))
  }

  /** What the sender has to have: an id for OFB and CFB, an IV of the right length for CBC. */
  predicate Sendable(k: KeyCtx, pid: Option<Pid>, random: seq<byte>) {
    && (pid.Some? ==> pid.value.id <= PACKET_ID_MAX)
    && (k.cipher.Some? && k.cipher.value.mode.Cbc? ==> |random| == k.cipher.value.ivLen)
    && (AlwaysLong(k) ==> pid.Some?)
  }

  lemma BodyOpens(k: KeyCtx, payload: seq<byte>, pid: Option<Pid>, long: bool, random: seq<byte>, ignorePid: bool,
                  room: int, isNew: Pid -> bool)
    requires Good(k) && !UsesAead(k) && payload != [] && Sendable(k, pid, random)
    ensures var body := Body(k, payload, pid, long, random);
            Checked(BareBody(k, body, pid.Some?, long, ignorePid, room), isNew)
            == if Taken(k, |body|, pid, long, ignorePid, room, isNew) then Some(payload) else None
  {
    hide BigEndian, FromBigEndian, ReadPid, PidBytes;
    var body := Body(k, payload, pid, long, random);
    var plain := (if pid.Some? then PidBytes(pid.value, long) else []) + payload;
    if pid.Some? { PidReads(pid.value, long, payload); } else { assert plain == payload; }
    if k.cipher.Some? {
      var c := k.cipher.value;
      var iv := if c.mode.Cbc? then random else IvFor(c, pid.value, random);
      var e := c.encrypt(iv, [], if c.mode.Cbc? then plain else payload);
      assert e.1 == [];
      assert body[..c.ivLen] == iv && body[c.ivLen..] == e.0;
      if !c.mode.Cbc? { PidReads(pid.value, true, Fill(0, c.ivLen - 8)); }
    }
  }

  /**
   What was sealed opens exactly when it is taken, in every layout: CBC, OFB and CFB, no cipher, with or
   without HMAC.
   */
  lemma V1RoundTrip(k: KeyCtx, prefix: seq<byte>, payload: seq<byte>, pid: Option<Pid>, long: bool, random: seq<byte>,
                    ignorePid: bool, room: int, isNew: Pid -> bool)
    requires Good(k) && !UsesAead(k) && payload != [] && Sendable(k, pid, random)
    ensures var packet := SealV1(k, prefix, payload, pid, long, random)[|prefix|..];
            |packet| >= HmacSize(k)
            && OpenV1(k, packet, pid.Some?, long, ignorePid, room, isNew)
               == if Taken(k, |packet| - HmacSize(k), pid, long, ignorePid, room, isNew) then Some(payload) else None
  {
    hide Body, BareBody;
    var body := Body(k, payload, pid, long, random);
    var mac := if k.hmac.Some? then k.hmac.value.mac(body) else [];
    var packet := SealV1(k, prefix, payload, pid, long, random)[|prefix|..];
    assert packet == mac + body;
    if k.hmac.Some? { assert packet[..|mac|] == mac && packet[|mac|..] == body; } else { assert packet == body; }
    BodyOpens(k, payload, pid, long, random, ignorePid, room, isNew);
  }

  // ----- packets that are not genuine -----

  /**
   An AEAD packet is opened exactly when it has all its parts, fits, and neither the update nor the final call,
   which compares the tag, fails; what both put out is the payload.
   */
  lemma AeadExact(k: KeyCtx, ad: seq<byte>, packet: seq<byte>, room: int)
    requires UsesAead(k) && |k.implicitIv| <= k.cipher.value.ivLen
    ensures var c, b := k.cipher.value, BareAead(k, ad, packet, room);
            var n := c.ivLen - |k.implicitIv|;
            if |packet| < n || |packet| <= 4 + c.tagLen || !FitsRoom(c, |packet| - 4 - c.tagLen, room) then b == None
            else
              var iv, tag, ct := packet[..n] + k.implicitIv, packet[4..4 + c.tagLen], packet[4 + c.tagLen..];
              var u, f := c.update(iv, ad + packet[..4], ct), c.final(iv, ad + packet[..4], ct, tag);
              && (b.Some? <==> u.Some? && f.Some?)
              && (b.Some? ==> b.value == Bare(Some(Pid(FromBigEndian(packet[..4]), 0)), u.value + f.value))
  {
    hide FromBigEndian;
    var c := k.cipher.value;
    if |packet| > 4 + c.tagLen {
      assert packet[4..][..c.tagLen] == packet[4..4 + c.tagLen] && packet[4..][c.tagLen..] == packet[4 + c.tagLen..];
    }
  }

  /** With an HMAC nothing opens but what its first bytes authenticate; the body is what stands behind them. */
  lemma HmacExact(k: KeyCtx, packet: seq<byte>, pidOn: bool, long: bool, ignorePid: bool, room: int)
    ensures var b := BareV1(k, packet, pidOn, long, ignorePid, room);
            match k.hmac
            case None => b == BareBody(k, packet, pidOn, long, ignorePid, room)
            case Some(h) =>
              if |packet| >= h.size && h.mac(packet[h.size..]) == packet[..h.size] then
                b == BareBody(k, packet[h.size..], pidOn, long, ignorePid, room)
              else b == None
  {
    hide BareBody;
  }

  /**
   With a cipher a body opens only if neither call fails; under CBC the id stands in front of the payload, otherwise
   it is the IV.
   */
  lemma CipherExact(k: KeyCtx, body: seq<byte>, pidOn: bool, long: bool, ignorePid: bool, room: int)
    requires k.cipher.Some?
    ensures var c, b := k.cipher.value, BareBody(k, body, pidOn, long, ignorePid, room);
            if |body| <= c.ivLen || !FitsRoom(c, |body| - c.ivLen, room) then b == None
            else
              var iv, ct := body[..c.ivLen], body[c.ivLen..];
              var u, f := c.update(iv, [], ct), c.final(iv, [], ct, []);
              if u.None? || f.None? then b == None
              else
                var plain := u.value + f.value;
                if c.mode.Cbc? then b == WithoutPid(plain, pidOn, long)
                else if c.ivLen < 8 then b == None
                else b == Some(Bare(Some(Pid(FromBigEndian(iv[..4]), FromBigEndian(iv[4..8]))), plain))
  {
    hide FromBigEndian, WithoutPid;
  }

  /** What opens without a cipher, or under CBC, is what stands behind its packet id. */
  lemma PidExact(plain: seq<byte>, pidOn: bool, long: bool)
    ensures var b, n := WithoutPid(plain, pidOn, long), if !pidOn then 0 else if long then 8 else 4;
            && (b.Some? <==> |plain| >= n)
            && (b.Some? ==> b.value.payload == plain[n..] && (b.value.pin.Some? <==> pidOn))
            && (b.Some? && pidOn ==>
                  b.value.pin
                  == Some(Pid(FromBigEndian(plain[..4]), if long then FromBigEndian(plain[4..8]) else 0)))
  {
    hide FromBigEndian;
  }

  // ----- packets that come twice -----

  /** A run of packets on one receiver, each bare of its wrapping; those that have none do not get to the check. */
  ghost predicate Delivered(limits: Limits, rs: seq<Receiver>, bs: seq<Option<Bare>>, clock: seq<nat>) {
    && |rs| == |bs| + 1 && |clock| == |bs| && rs[0].window.seen == [] && rs[0].window.id <= PACKET_ID_MAX
    && forall k :: 0 <= k < |bs| ==>
         && (bs[k].Some? && bs[k].value.pin.Some? ==> bs[k].value.pin.value.id <= PACKET_ID_MAX)
         && rs[k + 1] == AfterPacket(limits, rs[k], bs[k], clock[k])
  }

  lemma {:induction false} DeliveredKeeps(limits: Limits, rs: seq<Receiver>, bs: seq<Option<Bare>>, clock: seq<nat>,
                                          k: nat)
    requires Delivered(limits, rs, bs, clock) && k <= |bs|
    ensures Kept(limits, rs[k])
  {
    hide Kept, AfterCheck;
    if k == 0 {
      StartKept(limits, rs[0]);
    } else {
      DeliveredKeeps(limits, rs, bs, clock, k - 1);
      var b := bs[k - 1];
      if b.Some? && b.value.pin.Some? { CheckKeeps(limits, rs[k - 1], b.value.pin.value, clock[k - 1]); }
    }
  }

  lemma {:induction false} OpenedIsPast(limits: Limits, rs: seq<Receiver>, bs: seq<Option<Bare>>, clock: seq<nat>,
                                        i: nat, k: nat)
    requires Delivered(limits, rs, bs, clock) && i < k <= |bs| && clock[i] > SEQ_EXPIRED
    requires bs[i].Some? && bs[i].value.pin.Some? && Checked(bs[i], NewTo(limits, rs[i], clock[i])).Some?
    ensures Past(rs[k].window, limits.seqBacktrack, bs[i].value.pin.value)
    decreases k - i
  {
    hide Past, Kept, AfterCheck, Accepts;
    DeliveredKeeps(limits, rs, bs, clock, k - 1);
    var pin, b := bs[i].value.pin.value, bs[k - 1];
    if i == k - 1 {
      CheckNotes(limits, rs[i], pin, clock[i]);
    } else {
      OpenedIsPast(limits, rs, bs, clock, i, k - 1);
      if b.Some? && b.value.pin.Some? {
        CheckKeepsPast(limits, rs[k - 1], b.value.pin.value, clock[k - 1], pin);
      }
    }
  }

  /** Of two packets with the same id, whatever comes between, only one opens, in AEAD and in the other layouts. */
  lemma OpensOnce(limits: Limits, rs: seq<Receiver>, bs: seq<Option<Bare>>, clock: seq<nat>, i: nat, j: nat)
    requires Delivered(limits, rs, bs, clock) && i < j < |bs| && clock[i] > SEQ_EXPIRED
    requires bs[i].Some? && bs[i].value.pin.Some? && Checked(bs[i], NewTo(limits, rs[i], clock[i])).Some?
    requires bs[j].Some? && bs[j].value.pin == bs[i].value.pin
    ensures Checked(bs[j], NewTo(limits, rs[j], clock[j])).None?
  {
    hide Past, Kept, Accepts;
    OpenedIsPast(limits, rs, bs, clock, i, j);
    DeliveredKeeps(limits, rs, bs, clock, j);
    PastIsRefused(limits, rs[j], clock[j], bs[i].value.pin.value);
  }

  // ----- growth -----

  /** What crypto_adjust_frame_parameters adds to the frame. */
  function Overhead(k: KeyCtx, packetId: bool, long: bool): nat {
    (if packetId then PidSize(long) else 0)
    + (match k.cipher
       case None => 0
       case Some(c) => c.ivLen + (if c.mode.Aead? then c.tagLen else 0) + c.blockSize)
    + if k.hmac.Some? then k.hmac.value.size else 0
  }

  /** No packet grows by more than that. */
  lemma GrowthBounded(k: KeyCtx, prefix: seq<byte>, payload: seq<byte>, pid: Option<Pid>, long: bool,
                      random: seq<byte>)
    requires Good(k) && (k.cipher.Some? && k.cipher.value.mode.Cbc? ==> |random| == k.cipher.value.ivLen)
    ensures UsesAead(k) ==> forall id ::
              |SealAead(k, prefix, payload, id)| <= |prefix| + |payload| + Overhead(k, false, long)
    ensures !UsesAead(k) ==>
              |SealV1(k, prefix, payload, pid, long, random)| <= |prefix| + |payload| + Overhead(k, pid.Some?, long)
  {
    hide BigEndian;
  }

  // ----- the code -----

  /** buf_write_alloc for a value that is filled in later. */
  method Reserve(work: Buffer, n: nat)
    requires work.Valid() && work.Safe(n)
    modifies work
    ensures work.Valid() && work.data == old(work.data) && work.offset == old(work.offset)
    ensures work.len == old(work.len) + n && work.Content()[..old(work.len)] == old(work.Content())
  {
    work.len := work.len + n;
    assert work.Content()[..old(work.len)] == old(work.Content());
  }

  /** The reserved bytes get their value. */
  method Fulfil(work: Buffer, at: nat, value: seq<byte>)
    requires work.Valid() && at + |value| <= work.len
    modifies work.data
    ensures work.Content() == old(work.Content())[..at] + value + old(work.Content())[at + |value|..]
  {
    ghost var before := work.data[..];
    work.Put(work.offset + at, value);
    PartReplaced(before, work.data[..], work.offset, work.len, at, value);
    assert work.data[work.offset..work.offset + work.len] == work.data[..][work.offset..work.offset + work.len];
  }

  lemma PartReplaced(d: seq<byte>, e: seq<byte>, o: nat, len: nat, at: nat, value: seq<byte>)
    requires |d| == |e| && o + len <= |d| && at + |value| <= len && e[o + at..o + at + |value|] == value
    requires forall k :: 0 <= k < |d| && !(o + at <= k < o + at + |value|) ==> e[k] == d[k]
    ensures e[o..o + len] == d[o..o + len][..at] + value + d[o..o + len][at + |value|..]
  {
    assert e[o..o + at] == d[o..o + at] == d[o..o + len][..at];
    assert e[o + at + |value|..o + len] == d[o + at + |value|..o + len] == d[o..o + len][at + |value|..];
    assert e[o..o + len] == e[o..o + at] + e[o + at..o + at + |value|] + e[o + at + |value|..o + len];
  }

  method ReadAll(buf: Buffer) returns (b: seq<byte>)
    requires buf.Valid()
    ensures b == buf.Content()
  {
    b := buf.data[buf.offset..buf.offset + buf.len];
  }

  /** The ciphertext behind the reserved bytes, their value, and `*buf = work`. */
  method Finish(buf: Buffer, work: Buffer, at: nat, value: seq<byte>, ct: seq<byte>)
    requires buf != work && work.Valid() && at + |value| == work.len && work.Safe(|ct|)
    modifies buf, work, work.data
    ensures buf.Valid() && buf.Content() == old(work.Content())[..at] + value + ct
    ensures work.data == old(work.data)
  {
    ghost var c := work.Content();
    var ok := work.Write(ct);
    Fulfil(work, at, value);
    assert (c + ct)[..at] == c[..at];
    assert (c + ct)[at + |value|..] == ct;
    buf.Assign(work);
  }

  lemma EncryptLengths(c: Cipher, iv: seq<byte>, ad: seq<byte>, p: seq<byte>)
    requires CipherLaw(c)
    ensures var e := c.encrypt(iv, ad, p); |e.0| <= |p| + c.blockSize && |e.1| == c.tagLen
  {
  }

  /** The packet from the explicit part of the IV on. */
  method WriteSealed(buf: Buffer, work: Buffer, c: Cipher, iv: seq<byte>, explicit: seq<byte>) returns (ok: bool)
    requires CipherLaw(c) && buf.Valid() && work.Valid() && buf != work && buf.data != work.data
    requires work.Safe(|explicit| + c.tagLen)
    modifies buf, work, work.data
    ensures buf.Valid()
    ensures ok <==> SizeValid(old(buf.len) + c.blockSize)
                    && old(work.offset + work.len) + |explicit| + c.tagLen + old(buf.len) + c.blockSize
                       <= old(work.data.Length)
    ensures if ok then
              var ad := old(work.Content()) + explicit;
              var e := c.encrypt(iv, ad, old(buf.Content()));
              buf.Content() == ad + e.1 + e.0
            else buf.len == 0
  {
    hide CipherLaw;
    var plain := ReadAll(buf);
    var written := work.Write(explicit);
    var ad := ReadAll(work);
    var e := c.encrypt(iv, ad, plain);
    EncryptLengths(c, iv, ad, plain);
    Reserve(work, c.tagLen);
    ok := work.Safe(buf.len + c.blockSize);
    if ok {
      Finish(buf, work, |ad|, e.1, e.0);
    } else {
      buf.len := 0;
    }
  }

  /** openvpn_encrypt_aead. */
  method EncryptAead(buf: Buffer, work0: Buffer, k: KeyCtx, send: PacketIdSend, now: nat) returns (ok: bool)
    requires Good(k) && UsesAead(k) && buf.Valid() && work0.Valid() && buf.data != work0.data
    requires send.id <= PACKET_ID_MAX && work0.Safe(4 + k.cipher.value.tagLen)
    modifies buf, work0.data, send
    ensures buf.Valid() && Attempt(old(send.State()), send.State(), false, now)
    ensures var need := 4 + k.cipher.value.tagLen + old(buf.len) + k.cipher.value.blockSize;
            ok <==> old(send.id) < PACKET_ID_MAX && SizeValid(old(buf.len) + k.cipher.value.blockSize)
                    && old(work0.offset + work0.len) + need <= work0.data.Length
    ensures if ok then buf.Content() == SealAead(k, old(work0.Content()), old(buf.Content()), send.id)
            else buf.len == 0
  {
    hide Attempt, PidBytes, CipherLaw;
    IdKeeps(send.State(), now);
    var c := k.cipher.value;
    var work := new Buffer(work0.data, work0.offset, work0.len);
    ok := send.Update(false, now);
    if ok {
      var pid := PidBytes(Pid(send.id, 0), false);
      var iv := pid + k.implicitIv;
      assert iv[..c.ivLen - |k.implicitIv|] == pid;
      ok := WriteSealed(buf, work, c, iv, iv[..c.ivLen - |k.implicitIv|]);
    } else {
      buf.len := 0;
    }
  }

  lemma IdKeeps(p: Pid, now: nat)
    requires p.id <= PACKET_ID_MAX
    ensures Next(p, false, now).Some? <==> p.id < PACKET_ID_MAX
  {
  }

  lemma MacLength(k: KeyCtx, body: seq<byte>)
    requires Good(k)
    ensures |Mac(k, body)| == HmacSize(k)
  {
  }

  /** The room WriteV1 asks for behind the work buffer. */
  function Need(k: KeyCtx, c: Cipher, len: nat): nat {
    HmacSize(k) + c.ivLen + len + c.blockSize
  }

  /** openvpn_encrypt_v1 from the IV on: the HMAC covers IV and ciphertext. */
  method WriteV1(buf: Buffer, work: Buffer, k: KeyCtx, c: Cipher, iv: seq<byte>) returns (ok: bool)
    requires Good(k) && k.cipher == Some(c) && |iv| == c.ivLen && work.Safe(HmacSize(k) + c.ivLen)
    requires buf.Valid() && work.Valid() && buf != work && buf.data != work.data
    modifies buf, work, work.data
    ensures buf.Valid()
    ensures ok <==> SizeValid(old(buf.len) + c.blockSize)
                    && old(work.offset + work.len) + Need(k, c, old(buf.len)) <= old(work.data.Length)
    ensures if ok then
              var body := iv + c.encrypt(iv, [], old(buf.Content())).0;
              buf.Content() == old(work.Content()) + Mac(k, body) + body
            else buf.len == 0
  {
    EncryptLengths(c, iv, [], buf.Content());
    hide Good, CipherLaw;
    ghost var prefix := work.Content();
    var at := work.len;
    var plain := ReadAll(buf);
    var ct := c.encrypt(iv, [], plain).0;
    Reserve(work, HmacSize(k));
    var written := work.Write(iv);
    ok := work.Safe(buf.len + c.blockSize);
    if ok {
      ghost var c0 := work.Content();
      assert c0[..at] == prefix && c0[at + HmacSize(k)..] == iv;
      Complete(buf, work, k, at, iv, ct);
    } else {
      buf.len := 0;
    }
  }

  /** The ciphertext behind the IV, the HMAC of both in front of them, and `*buf = work`. */
  method Complete(buf: Buffer, work: Buffer, k: KeyCtx, at: nat, iv: seq<byte>, ct: seq<byte>)
    requires Good(k) && buf != work && work.Valid() && work.len == at + HmacSize(k) + |iv| && work.Safe(|ct|)
    requires work.Content()[at + HmacSize(k)..] == iv
    modifies buf, work, work.data
    ensures buf.Valid() && buf.Content() == old(work.Content())[..at] + Mac(k, iv + ct) + (iv + ct)
  {
    hide Mac;
    MacLength(k, iv + ct);
    hide Good;
    ghost var c := work.Content();
    var ok := work.Write(ct);
    var mac := Mac(k, iv + ct);
    Fulfil(work, at, mac);
    assert (c + ct)[..at] == c[..at];
    assert (c + ct)[at + |mac|..] == iv + ct;
    buf.Assign(work);
  }

  /** What buf_write_prepend puts in front with `room` bytes of headroom: nobody looks at its result. */
  function Carried(prefix: seq<byte>, room: int): (c: seq<byte>)
    ensures |c| <= |prefix|
  {
    if |prefix| <= room then prefix else []
  }

  /** buf_prepend for the HMAC, and the prefix in front of it; the HMAC goes `at` bytes behind the new head. */
  method MakeRoom(buf: Buffer, n: nat, prefix: seq<byte>) returns (at: nat)
    requires buf.Valid() && n <= buf.offset
    modifies buf, buf.data
    ensures buf.Valid() && buf.data == old(buf.data) && buf.len == at + n + old(buf.len)
    ensures buf.Content()[..at] == Carried(prefix, old(buf.offset) - n) && buf.Content()[at + n..] == old(buf.Content())
  {
    at := 0;
    ghost var plain := buf.Content();
    var ok := buf.Prepend(n);
    ghost var head := buf.data[buf.offset..buf.offset + n];
    BehindTwo([], head, plain);
    if prefix != [] {
      ok := buf.WritePrepend(prefix);
      if ok { at := |prefix|; }
      BehindTwo(prefix, head, plain);
    }
  }

  lemma BehindTwo(a: seq<byte>, b: seq<byte>, c: seq<byte>)
    ensures (a + (b + c))[..|a|] == a && (a + (b + c))[|a| + |b|..] == c && (b + c)[|b|..] == c
  {
  }

  /** openvpn_encrypt_v1 without a cipher: everything is put in front of the packet. */
  method WritePlain(buf: Buffer, prefix: seq<byte>, k: KeyCtx)
    requires Good(k) && buf.Valid() && HmacSize(k) <= buf.offset
    modifies buf, buf.data
    ensures buf.Valid()
    ensures buf.Content() == Carried(prefix, old(buf.offset) - HmacSize(k)) + Mac(k, old(buf.Content()))
                             + old(buf.Content())
  {
    MacLength(k, buf.Content());
    hide Good, Mac, HmacSize, Carried;
    var body := ReadAll(buf);
    var mac := Mac(k, body);
    var at := MakeRoom(buf, |mac|, prefix);
    Fulfil(buf, at, mac);
  }

  function PidRoom(pidOn: bool, long: bool): nat {
    if pidOn then PidSize(long) else 0
  }

  /** What a packet carries in front of its HMAC: without a cipher the prefix is lost when the headroom is too small. */
  function Front(k: KeyCtx, prefix: seq<byte>, offset: int, pidOn: bool, long: bool): seq<byte> {
    if k.cipher.Some? then prefix else Carried(prefix, offset - PidRoom(pidOn, long) - HmacSize(k))
  }

  /** What openvpn_encrypt_v1 asserts of its buffers and its options. */
  ghost predicate Ready(buf: Buffer, work: Buffer, k: KeyCtx, pid: Pid, pidOn: bool, long: bool, random: seq<byte>,
                        now: nat)
    reads buf, work
  {
    match k.cipher
    case None => (pidOn && PidSize(long) > buf.offset) || PidRoom(pidOn, long) + HmacSize(k) <= buf.offset
    case Some(c) =>
      && work.Safe(HmacSize(k) + c.ivLen)
      && if c.mode.Cbc? then |random| == c.ivLen
         else c.mode.OfbCfb? && pidOn && Next(pid, true, now).Some?
  }

  /** Whether openvpn_encrypt_v1 succeeds: the id does not roll over, and there is room for it and the ciphertext. */
  ghost predicate CanSeal(buf: Buffer, work: Buffer, k: KeyCtx, pid: Pid, pidOn: bool, long: bool, now: nat)
    requires buf.Valid()
    reads buf, work
  {
    && (pidOn ==> Next(pid, AlwaysLong(k) || long, now).Some? && (AlwaysLong(k) || PidSize(long) <= buf.offset))
    && RoomFor(k, buf.len + (if AlwaysLong(k) then 0 else PidRoom(pidOn, long)), work.offset + work.len,
               work.data.Length)
  }

  /** Room behind `used` bytes of `total` for what a cipher makes of `n`. */
  predicate RoomFor(k: KeyCtx, n: nat, used: int, total: nat) {
    k.cipher.Some? ==>
      SizeValid(n + k.cipher.value.blockSize) && used + Need(k, k.cipher.value, n) <= total
  }

  /** Ids left, headroom for one, and room for eight bytes more than the payload. */
  ghost predicate Roomy(buf: Buffer, work: Buffer, k: KeyCtx, id: nat, pidOn: bool)
    reads buf, work
  {
    && (pidOn ==> id < PACKET_ID_MAX && 8 <= buf.offset)
    && (k.cipher.Some? ==>
          var c, macLen := k.cipher.value, if k.hmac.Some? then k.hmac.value.size else 0;
          && SizeValid(buf.len + 8 + c.blockSize)
          && work.offset + work.len + macLen + c.ivLen + buf.len + 8 + c.blockSize <= work.data.Length)
  }

  /** That is enough to be sealed. */
  lemma SealsWithRoom(buf: Buffer, work: Buffer, k: KeyCtx, pid: Pid, pidOn: bool, long: bool, now: nat)
    requires buf.Valid()
    ensures Roomy(buf, work, k, pid.id, pidOn) ==> CanSeal(buf, work, k, pid, pidOn, long, now)
  {
  }

  /** The same front behind a packet id that was written. */
  lemma FrontBehindPid(k: KeyCtx, prefix: seq<byte>, offset: int, pidOn: bool, long: bool)
    ensures Front(k, prefix, offset, pidOn, long) == Front(k, prefix, offset - PidRoom(pidOn, long), false, false)
  {
    hide Carried, HmacSize;
  }

  /** The OFB and CFB branch of openvpn_encrypt_v1. */
  method EncryptOfbCfb(buf: Buffer, work0: Buffer, k: KeyCtx, send: PacketIdSend, now: nat) returns (ok: bool)
    requires Good(k) && AlwaysLong(k) && buf.Valid() && work0.Valid() && buf.data != work0.data
    requires work0.Safe(HmacSize(k) + k.cipher.value.ivLen) && Next(send.State(), true, now).Some?
    modifies buf, work0.data, send
    ensures buf.Valid() && Attempt(old(send.State()), send.State(), true, now)
    ensures if ok then
              forall long, random ::
                buf.Content() == SealV1(k, old(work0.Content()), old(buf.Content()), Some(send.State()), long, random)
            else buf.len == 0
    ensures ok <==> SizeValid(old(buf.len) + k.cipher.value.blockSize)
                    && old(work0.offset + work0.len) + Need(k, k.cipher.value, old(buf.len)) <= work0.data.Length
  {
    hide Attempt, PidBytes, CipherLaw, Next;
    var c := k.cipher.value;
    ghost var prefix, payload := work0.Content(), buf.Content();
    var updated := send.Update(true, now);
    var iv := PidBytes(Pid(send.id, send.time), true) + Fill(0, c.ivLen - 8);
    var work := new Buffer(work0.data, work0.offset, work0.len);
    ok := WriteV1(buf, work, k, c, iv);
    if ok {
      forall long, random
        ensures buf.Content() == SealV1(k, prefix, payload, Some(send.State()), long, random)
      {
        assert Body(k, payload, Some(send.State()), long, random) == iv + c.encrypt(iv, [], payload).0;
      }
    }
  }

  /** The packet id that CBC packets and packets without cipher carry in front of the payload. */
  method PutPid(buf: Buffer, send: PacketIdSend, pidOn: bool, long: bool, now: nat) returns (ok: bool)
    requires buf.Valid() && send.id <= PACKET_ID_MAX
    modifies buf, buf.data, send
    ensures buf.Valid() && buf.data == old(buf.data)
    ensures if pidOn then Attempt(old(send.State()), send.State(), long, now) else send.State() == old(send.State())
    ensures if ok then
              && buf.Content() == (if pidOn then PidBytes(send.State(), long) else []) + old(buf.Content())
              && buf.offset == old(buf.offset) - if pidOn then PidSize(long) else 0
            else buf.len == 0
    ensures ok <==> (pidOn ==> Next(old(send.State()), long, now).Some? && PidSize(long) <= old(buf.offset))
  {
    hide Attempt, PidBytes, Next;
    ok := true;
    if pidOn {
      ok := send.WritePrepend(buf, long, now);
      if !ok { buf.len := 0; }
    } else {
      assert [] + buf.Content() == buf.Content();
    }
  }

  lemma BodyIs(k: KeyCtx, payload: seq<byte>, pid: Option<Pid>, long: bool, random: seq<byte>)
    requires !UsesAead(k) && !AlwaysLong(k)
    ensures var plain := (if pid.Some? then PidBytes(pid.value, long) else []) + payload;
            Body(k, payload, pid, long, random)
            == if k.cipher.Some? then random + k.cipher.value.encrypt(random, [], plain).0 else plain
  {
  }

  lemma CanSealRest(buf: Buffer, work: Buffer, k: KeyCtx, pid: Pid, pidOn: bool, long: bool, now: nat)
    requires buf.Valid() && !AlwaysLong(k)
    ensures CanSeal(buf, work, k, pid, pidOn, long, now) <==>
            && (pidOn ==> Next(pid, long, now).Some? && PidSize(long) <= buf.offset)
            && RoomFor(k, buf.len + PidRoom(pidOn, long), work.offset + work.len, work.data.Length)
  {
  }

  /** openvpn_encrypt_v1 for CBC and without a cipher. */
  method EncryptRest(buf: Buffer, work0: Buffer, k: KeyCtx, send: PacketIdSend, pidOn: bool, long: bool,
                     random: seq<byte>, now: nat) returns (ok: bool)
    requires Good(k) && !UsesAead(k) && !AlwaysLong(k) && send.id <= PACKET_ID_MAX
    requires buf.Valid() && work0.Valid() && buf != work0 && buf.data != work0.data
    requires Ready(buf, work0, k, send.State(), pidOn, long, random, now)
    modifies buf, buf.data, work0.data, send
    ensures buf.Valid()
    ensures if ok then
              var body := Body(k, old(buf.Content()), if pidOn then Some(send.State()) else None, long, random);
              buf.Content() == Front(k, old(work0.Content()), old(buf.offset), pidOn, long) + Mac(k, body) + body
            else buf.len == 0
    ensures ok == old(CanSeal(buf, work0, k, send.State(), pidOn, long, now))
    ensures if pidOn then Attempt(old(send.State()), send.State(), long, now) else send.State() == old(send.State())
  {
    hide Attempt, PidBytes, CipherLaw, Next, Body, Mac, HmacSize, Front, Good, RoomFor, CanSeal;
    var prefix := ReadAll(work0);
    FrontBehindPid(k, prefix, buf.offset, pidOn, long);
    CanSealRest(buf, work0, k, send.State(), pidOn, long, now);
    ghost var payload := buf.Content();
    ok := PutPid(buf, send, pidOn, long, now);
    if ok {
      BodyIs(k, payload, if pidOn then Some(send.State()) else None, long, random);
      ok := WriteRest(buf, work0, prefix, k, random);
    }
  }

  /** What follows the packet id in openvpn_encrypt_v1, for CBC and without a cipher. */
  method WriteRest(buf: Buffer, work0: Buffer, prefix: seq<byte>, k: KeyCtx, random: seq<byte>) returns (ok: bool)
    requires Good(k) && buf.Valid() && work0.Valid() && buf != work0 && buf.data != work0.data
    requires prefix == work0.Content()
    requires match k.cipher
             case None => HmacSize(k) <= buf.offset
             case Some(c) => work0.Safe(HmacSize(k) + c.ivLen) && |random| == c.ivLen
    modifies buf, buf.data, work0.data
    ensures buf.Valid()
    ensures if ok then
              var plain := old(buf.Content());
              var body := if k.cipher.Some? then random + k.cipher.value.encrypt(random, [], plain).0 else plain;
              buf.Content() == Front(k, prefix, old(buf.offset), false, false) + Mac(k, body) + body
            else buf.len == 0
    ensures ok <==> RoomFor(k, old(buf.len), work0.offset + work0.len, work0.data.Length)
  {
    hide Good, Mac, HmacSize, Need, Carried;
    ok := true;
    if k.cipher.Some? {
      var work := new Buffer(work0.data, work0.offset, work0.len);
      assert work.Content() == prefix;
      ok := WriteV1(buf, work, k, k.cipher.value, random);
    } else {
      WritePlain(buf, prefix, k);
    }
  }

  /** openvpn_encrypt_v1; `random` is what the generator gives for a CBC IV. */
  method EncryptV1(buf: Buffer, work0: Buffer, k: KeyCtx, send: PacketIdSend, pidOn: bool, long: bool,
                   random: seq<byte>, now: nat) returns (ok: bool)
    requires Good(k) && !UsesAead(k) && buf.Valid() && work0.Valid() && buf != work0 && buf.data != work0.data
    requires buf.len > 0 && send.id <= PACKET_ID_MAX
    requires Ready(buf, work0, k, send.State(), pidOn, long, random, now)
    modifies buf, buf.data, work0.data, send
    ensures buf.Valid()
    ensures if ok then
              buf.Content() == SealV1(k, Front(k, old(work0.Content()), old(buf.offset), pidOn, long),
                                      old(buf.Content()), if pidOn then Some(send.State()) else None, long, random)
            else buf.len == 0
    ensures ok == old(CanSeal(buf, work0, k, send.State(), pidOn, long, now))
    ensures old(Roomy(buf, work0, k, send.id, pidOn)) ==> ok
    ensures if pidOn then Attempt(old(send.State()), send.State(), AlwaysLong(k) || long, now)
            else send.State() == old(send.State())
  {
    SealsWithRoom(buf, work0, k, send.State(), pidOn, long, now);
    hide Attempt, PidBytes, CipherLaw, Next, Body, Mac, HmacSize, Carried, CanSeal, Roomy;
    if AlwaysLong(k) {
      ok := EncryptOfbCfb(buf, work0, k, send, now);
    } else {
      ok := EncryptRest(buf, work0, k, send, pidOn, long, random, now);
    }
  }

  /** The parts of an AEAD packet in front of the ciphertext; `ok` is false when one is missing. */
  method TakeParts(buf: Buffer, k: KeyCtx) returns (ok: bool, iv: seq<byte>, id: seq<byte>, tag: seq<byte>)
    requires UsesAead(k) && |k.implicitIv| <= k.cipher.value.ivLen && buf.Valid()
    modifies buf
    ensures buf.Valid() && buf.data == old(buf.data)
    ensures var packet, c := old(buf.Content()), k.cipher.value;
            && (ok <==> c.ivLen <= |packet| + |k.implicitIv| && 4 + c.tagLen < |packet|)
            && (ok ==>
                  && iv == packet[..c.ivLen - |k.implicitIv|] + k.implicitIv && id == packet[..4]
                  && tag == packet[4..][..c.tagLen] && buf.Content() == packet[4..][c.tagLen..]
                  && buf.offset == old(buf.offset) + 4 + c.tagLen)
  {
    var c := k.cipher.value;
    var packet := ReadAll(buf);
    ok, iv, id, tag := false, [], [], [];
    if buf.len + |k.implicitIv| < c.ivLen { return; }
    iv := packet[..c.ivLen - |k.implicitIv|] + k.implicitIv;
    ok, id := buf.Read(4);
    if !ok { return; }
    if buf.len < c.tagLen { return false, iv, id, tag; }
    ok, tag := buf.Read(c.tagLen);
    ok := buf.len >= 1;
  }

  lemma PartsMissing(k: KeyCtx, ad: seq<byte>, packet: seq<byte>, room: int)
    requires UsesAead(k) && |k.implicitIv| <= k.cipher.value.ivLen
    requires var c := k.cipher.value;
             c.ivLen > |packet| + |k.implicitIv| || |packet| <= 4 + c.tagLen
             || |packet| - 4 - c.tagLen + c.blockSize > room || !SizeValid(|packet| - 4 - c.tagLen + c.blockSize)
    ensures BareAead(k, ad, packet, room) == None
  {
    hide FromBigEndian;
  }

  lemma PartsThere(k: KeyCtx, ad: seq<byte>, packet: seq<byte>, room: int)
    requires UsesAead(k) && |k.implicitIv| <= k.cipher.value.ivLen
    requires var c := k.cipher.value;
             && c.ivLen <= |packet| + |k.implicitIv| && 4 + c.tagLen < |packet|
             && |packet| - 4 - c.tagLen + c.blockSize <= room && SizeValid(|packet| - 4 - c.tagLen + c.blockSize)
    ensures var c := k.cipher.value;
            var p := c.Decrypt(packet[..c.ivLen - |k.implicitIv|] + k.implicitIv, ad + packet[..4],
                               packet[4..][c.tagLen..], packet[4..][..c.tagLen]);
            BareAead(k, ad, packet, room)
            == if p.None? then None else Some(Bare(Some(Pid(FromBigEndian(packet[..4]), 0)), p.value))
  {
    hide FromBigEndian;
  }

  lemma FrontOfPacket(d: seq<byte>, a: nat, o: nat, len: nat, n: nat)
    requires a <= o && o + len <= |d| && n <= len
    ensures d[a..o + n] == d[a..o] + d[o..o + len][..n]
  {
  }

  /** openvpn_decrypt_aead up to the replay check: the plaintext is in the work buffer. */
  method OpenInto(buf: Buffer, work: Buffer, k: KeyCtx, adLen: nat) returns (ok: bool, pin: Pid)
    requires UsesAead(k) && CipherLaw(k.cipher.value) && |k.implicitIv| <= k.cipher.value.ivLen
    requires buf.Valid() && work.Valid() && work.len == 0 && buf != work && buf.data != work.data && adLen <= buf.offset
    modifies buf, work, work.data
    ensures buf.Valid() && work.Valid()
    ensures var b := BareAead(k, old(buf.data[buf.offset - adLen..buf.offset]), old(buf.Content()),
                              old(work.data.Length - work.offset));
            if ok then b == Some(Bare(Some(pin), work.Content())) else b.None?
  {
    hide CipherLaw, FromBigEndian, BareAead;
    var c := k.cipher.value;
    var adStart := buf.offset - adLen;
    ghost var packet, ad, room := buf.Content(), buf.data[adStart..buf.offset], work.data.Length - work.offset;
    ghost var d := buf.data[..];
    assert ad == d[adStart..adStart + adLen] && packet == d[adStart + adLen..adStart + adLen + |packet|];
    var iv, id, tag;
    ok, iv, id, tag := TakeParts(buf, k);
    pin := Pid(0, 0);
    if ok && work.Safe(buf.len + c.blockSize) {
      var given := buf.data[adStart..buf.offset - c.tagLen];
      FrontOfPacket(d, adStart, adStart + adLen, |packet|, 4);
      assert given == d[adStart..adStart + adLen + 4];
      PartsThere(k, ad, packet, room);
      ok := DecryptInto(work, buf, c, iv, given, tag);
      pin := Pid(FromBigEndian(id), 0);
    } else {
      PartsMissing(k, ad, packet, room);
      ok := false;
    }
  }

  /** openvpn_decrypt_aead up to the replay check; the additional data starts `adLen` bytes in front of the packet. */
  method Unwrap(buf: Buffer, work0: Buffer, k: KeyCtx, headroom: nat, adLen: nat) returns (ok: bool, pin: Pid)
    requires UsesAead(k) && CipherLaw(k.cipher.value) && |k.implicitIv| <= k.cipher.value.ivLen
    requires buf.Valid() && buf.data != work0.data && adLen <= buf.offset && headroom <= work0.data.Length
    modifies buf, work0.data
    ensures buf.Valid()
    ensures var b := BareAead(k, old(buf.data[buf.offset - adLen..buf.offset]), old(buf.Content()),
                              work0.data.Length - headroom);
            if ok then b == Some(Bare(Some(pin), buf.Content())) else b.None?
  {
    hide CipherLaw, BareAead;
    var work := new Buffer(work0.data, work0.offset, work0.len);
    var initialised := work.Init(headroom);
    ok, pin := OpenInto(buf, work, k, adLen);
    if ok { buf.Assign(work); }
  }

  /**
   A packet is opened only if neither the update nor the final call fails, and is then what both put out; a packet
   for which one fails is refused, and nothing of it is noted (`same`).
   */
  ghost predicate AeadGenuine(k: KeyCtx, ad: seq<byte>, packet: seq<byte>, ok: bool, content: seq<byte>, same: bool)
    requires UsesAead(k) && |k.implicitIv| <= k.cipher.value.ivLen
  {
    var c, n := k.cipher.value, k.cipher.value.ivLen - |k.implicitIv|;
    if |packet| < n || |packet| <= 4 + c.tagLen then !ok && content == [] && same
    else
      var iv, tag, ct := packet[..n] + k.implicitIv, packet[4..4 + c.tagLen], packet[4 + c.tagLen..];
      var u, f := c.update(iv, ad + packet[..4], ct), c.final(iv, ad + packet[..4], ct, tag);
      if u.None? || f.None? then !ok && content == [] && same
      else ok ==> content == u.value + f.value
  }

  lemma AeadGenuineHolds(k: KeyCtx, ad: seq<byte>, packet: seq<byte>, room: int, ok: bool, content: seq<byte>,
                         same: bool)
    requires UsesAead(k) && |k.implicitIv| <= k.cipher.value.ivLen
    requires var b := BareAead(k, ad, packet, room);
             if ok then b.Some? && b.value.payload == content else content == [] && (b.None? ==> same)
    ensures AeadGenuine(k, ad, packet, ok, content, same)
  {
    hide BareAead, FitsRoom;
    AeadExact(k, ad, packet, room);
  }

  /** openvpn_decrypt_aead. */
  method DecryptAead(buf: Buffer, work0: Buffer, k: KeyCtx, headroom: nat, adLen: nat, rec: PacketIdRec, now: nat)
    returns (ok: bool)
    requires UsesAead(k) && CipherLaw(k.cipher.value) && |k.implicitIv| <= k.cipher.value.ivLen
    requires buf.Valid() && buf.data != work0.data && adLen <= buf.offset && headroom <= work0.data.Length
    requires rec.Valid() && {buf, buf.data, work0, work0.data} !! rec.Repr()
    modifies buf, work0.data, rec.Repr()
    ensures buf.Valid() && rec.Valid()
    ensures var b := BareAead(k, old(buf.data[buf.offset - adLen..buf.offset]), old(buf.Content()),
                              work0.data.Length - headroom);
            var r := Checked(b, NewTo(rec.limits, old(rec.State()), now));
            && (if ok then r == Some(buf.Content()) else r.None? && buf.len == 0)
            && rec.State() == AfterPacket(rec.limits, old(rec.State()), b, now)
    ensures AeadGenuine(k, old(buf.data[buf.offset - adLen..buf.offset]), old(buf.Content()), ok, buf.Content(),
                        rec.State() == old(rec.State()))
  {
    hide CipherLaw, BareAead, Accepts, AfterCheck, AeadGenuine;
    ghost var ad, packet, room := buf.data[buf.offset - adLen..buf.offset], buf.Content(), work0.data.Length - headroom;
    ghost var before := rec.State();
    var pin;
    ok, pin := Unwrap(buf, work0, k, headroom, adLen);
    ghost var b, plain := BareAead(k, ad, packet, room), buf.Content();
    assert if ok then b == Some(Bare(Some(pin), plain)) else b.None?;
    assert rec.State() == before;
    if ok { ok := rec.CheckReplay(pin, now); }
    if !ok { buf.len := 0; }
    assert buf.Content() == if ok then plain else [];
    AeadGenuineHolds(k, ad, packet, room, ok, buf.Content(), rec.State() == before);
  }

  /** The cipher run over the content of `buf`, into an empty work buffer with room. */
  method DecryptInto(work: Buffer, buf: Buffer, c: Cipher, iv: seq<byte>, ad: seq<byte>, tag: seq<byte>)
    returns (ok: bool)
    requires CipherLaw(c) && buf.Valid() && work.Valid() && work.len == 0 && buf != work && buf.data != work.data
    requires work.Safe(buf.len + c.blockSize)
    modifies work, work.data
    ensures buf.Valid() && work.Valid() && work.data == old(work.data)
    ensures var p := c.Decrypt(iv, ad, old(buf.Content()), tag);
            (ok <==> p.Some?) && (ok ==> work.Content() == p.value)
  {
    hide CipherLaw;
    var ct := ReadAll(buf);
    DecryptLength(c, iv, ad, ct, tag);
    var first := c.update(iv, ad, ct);
    if first.None? { return false; }
    assert work.Content() == [] && [] + first.value == first.value;
    ok := work.Write(first.value);
    var last := c.final(iv, ad, ct, tag);
    if last.None? { return false; }
    ok := work.Write(last.value);
  }

  lemma DecryptLength(c: Cipher, iv: seq<byte>, ad: seq<byte>, ct: seq<byte>, tag: seq<byte>)
    requires CipherLaw(c)
    ensures var u, p := c.update(iv, ad, ct), c.Decrypt(iv, ad, ct, tag);
            && (u.Some? ==> |u.value| <= |ct| + c.blockSize)
            && (p.Some? ==> |p.value| <= |ct| + c.blockSize)
  {
  }

  /** The HMAC check at the head of openvpn_decrypt_v1. */
  method CheckHmac(buf: Buffer, k: KeyCtx) returns (ok: bool)
    requires buf.Valid()
    modifies buf
    ensures buf.Valid() && buf.data == old(buf.data)
    ensures var r := Verified(k, old(buf.Content()));
            if ok then r.Some? && buf.Content() == r.value else r.None?
  {
    ok := true;
    if k.hmac.Some? {
      var h := k.hmac.value;
      var packet := ReadAll(buf);
      if buf.len < h.size || h.mac(packet[h.size..]) != packet[..h.size] { return false; }
      ok := buf.Advance(h.size);
    }
  }

  /** packet_id_read, for a packet id in front of the content. */
  method TakePid(buf: Buffer, pidOn: bool, long: bool) returns (ok: bool, pin: Option<Pid>)
    requires buf.Valid()
    modifies buf
    ensures buf.Valid() && buf.data == old(buf.data)
    ensures var b := WithoutPid(old(buf.Content()), pidOn, long);
            if ok then b == Some(Bare(pin, buf.Content())) else b.None?
  {
    hide FromBigEndian;
    ok, pin := true, None;
    if pidOn {
      ghost var c := buf.Content();
      var id, time: seq<byte>;
      ok, id := buf.Read(4);
      if !ok { return; }
      pin := Some(Pid(FromBigEndian(id), 0));
      if long {
        ok, time := buf.Read(4);
        if !ok { return; }
        assert time == c[4..8] && buf.Content() == c[8..];
        pin := Some(Pid(FromBigEndian(id), FromBigEndian(time)));
      }
    }
  }

  /** The part of openvpn_decrypt_v1 between the HMAC and the packet id: the plaintext into the work buffer. */
  method DecryptBody(buf: Buffer, work: Buffer, c: Cipher) returns (ok: bool, iv: seq<byte>)
    requires CipherLaw(c) && buf.Valid() && work.Valid() && work.len == 0 && buf != work && buf.data != work.data
    modifies buf, work, work.data
    ensures buf.Valid() && work.Valid() && work.data == old(work.data)
    ensures var b, room := old(buf.Content()), old(work.data.Length - work.offset);
            if !ok then
              |b| <= c.ivLen || |b| - c.ivLen + c.blockSize > room || !SizeValid(|b| - c.ivLen + c.blockSize)
              || c.Decrypt(b[..c.ivLen], [], b[c.ivLen..], []).None?
            else
              && |b| > c.ivLen && |b| - c.ivLen + c.blockSize <= room && SizeValid(|b| - c.ivLen + c.blockSize)
              && iv == b[..c.ivLen] && c.Decrypt(iv, [], b[c.ivLen..], []) == Some(work.Content())
  {
    hide CipherLaw;
    ok, iv := buf.Read(c.ivLen);
    if !ok { return; }
    if buf.len < 1 || !work.Safe(buf.len + c.blockSize) { return false, iv; }
    ok := DecryptInto(work, buf, c, iv, [], []);
  }

  /** openvpn_decrypt_v1 between the HMAC and the replay check, with a cipher. */
  method OpenCipher(buf: Buffer, work: Buffer, k: KeyCtx, c: Cipher, pidOn: bool, long: bool, ghost ignorePid: bool)
    returns (ok: bool, pin: Option<Pid>)
    requires k.cipher == Some(c) && CipherLaw(c) && buf.Valid() && work.Valid() && work.len == 0
    requires buf != work && buf.data != work.data
    modifies buf, work, work.data
    ensures buf.Valid()
    ensures var b := BareBody(k, old(buf.Content()), pidOn, long, ignorePid, old(work.data.Length - work.offset));
            if ok then b == Some(Bare(pin, buf.Content())) else b.None?
  {
    hide CipherLaw, ReadPid, WithoutPid;
    var iv;
    pin := None;
    ok, iv := DecryptBody(buf, work, c);
    if ok {
      if c.mode.Cbc? {
        ok, pin := TakePid(work, pidOn, long);
      } else {
        var b := ReadPid(iv, true);
        ok := b.Some?;
        if ok { pin := Some(b.value.0); }
      }
      buf.Assign(work);
    }
  }

  /** openvpn_decrypt_v1 up to the replay check. */
  method OpenBody(buf: Buffer, work0: Buffer, k: KeyCtx, headroom: nat, pidOn: bool, long: bool, ignorePid: bool)
    returns (ok: bool, pin: Option<Pid>)
    requires !UsesAead(k) && (k.cipher.Some? ==> CipherLaw(k.cipher.value))
    requires buf.Valid() && buf.data != work0.data && headroom <= work0.data.Length
    modifies buf, work0.data
    ensures buf.Valid()
    ensures var b := BareV1(k, old(buf.Content()), pidOn, long, ignorePid, work0.data.Length - headroom);
            if ok then b == Some(Bare(pin, buf.Content())) else b.None?
  {
    hide CipherLaw, WithoutPid, Verified, BareBody;
    pin := None;
    ok := CheckHmac(buf, k);
    if ok {
      if k.cipher.Some? {
        var work := new Buffer(work0.data, work0.offset, work0.len);
        var initialised := work.Init(headroom);
        ok, pin := OpenCipher(buf, work, k, k.cipher.value, pidOn, long, ignorePid);
      } else {
        BodyWithoutCipher(k, buf.Content(), pidOn, long, ignorePid, work0.data.Length - headroom);
        ok, pin := TakePid(buf, pidOn, long);
        if ignorePid { pin := None; }
      }
    }
  }

  /**
   A packet is opened only if its first bytes are the HMAC of what follows them, and with a cipher only if neither
   the update nor the final call fails; one for which a check fails is refused, and nothing of it is noted (`same`).
   The content is what both calls put out, behind its packet id under CBC.
   */
  ghost predicate V1Genuine(k: KeyCtx, packet: seq<byte>, pidOn: bool, long: bool, ok: bool, content: seq<byte>,
                            same: bool)
  {
    var n := if k.hmac.Some? then k.hmac.value.size else 0;
    if |packet| < n || (k.hmac.Some? && k.hmac.value.mac(packet[n..]) != packet[..n]) then
      !ok && content == [] && same
    else if k.cipher.Some? then
      var c := k.cipher.value;
      if |packet| <= n + c.ivLen then !ok && content == [] && same
      else
        var iv, ct := packet[n..n + c.ivLen], packet[n + c.ivLen..];
        var u, f := c.update(iv, [], ct), c.final(iv, [], ct, []);
        if u.None? || f.None? then !ok && content == [] && same
        else
          var idLen := if !(c.mode.Cbc? && pidOn) then 0 else if long then 8 else 4;
          ok ==> |u.value + f.value| >= idLen && content == (u.value + f.value)[idLen..]
    else
      var idLen := if !pidOn then 0 else if long then 8 else 4;
      ok ==> |packet| - n >= idLen && content == packet[n + idLen..]
  }

  lemma V1GenuineHolds(k: KeyCtx, packet: seq<byte>, pidOn: bool, long: bool, ignorePid: bool, room: int, ok: bool,
                       content: seq<byte>, same: bool)
    requires var b := BareV1(k, packet, pidOn, long, ignorePid, room);
             if ok then b.Some? && b.value.payload == content else content == [] && (b.None? ==> same)
    ensures V1Genuine(k, packet, pidOn, long, ok, content, same)
  {
    hide BareV1, BareBody;
    HmacExact(k, packet, pidOn, long, ignorePid, room);
    var n := HmacSize(k);
    if |packet| >= n {
      assert packet[0..] == packet;
      BodyGenuine(k, packet, n, pidOn, long, ignorePid, room);
    }
  }

  lemma BodyGenuine(k: KeyCtx, packet: seq<byte>, n: nat, pidOn: bool, long: bool, ignorePid: bool, room: int)
    requires n <= |packet|
    ensures var b := BareBody(k, packet[n..], pidOn, long, ignorePid, room);
            b.Some? ==>
              match k.cipher
              case None =>
                var idLen := if !pidOn then 0 else if long then 8 else 4;
                |packet| - n >= idLen && b.value.payload == packet[n + idLen..]
              case Some(c) =>
                && |packet| > n + c.ivLen
                && var iv, ct := packet[n..n + c.ivLen], packet[n + c.ivLen..];
                   var u, f := c.update(iv, [], ct), c.final(iv, [], ct, []);
                   var idLen := if !(c.mode.Cbc? && pidOn) then 0 else if long then 8 else 4;
                   && u.Some? && f.Some?
                   && |u.value + f.value| >= idLen && b.value.payload == (u.value + f.value)[idLen..]
  {
    hide BareBody, FitsRoom, WithoutPid, FromBigEndian;
    var body := packet[n..];
    match k.cipher
    case None =>
      BodyWithoutCipher(k, body, pidOn, long, ignorePid, room);
      PidExact(body, pidOn, long);
      var idLen := if !pidOn then 0 else if long then 8 else 4;
      if |body| >= idLen { assert body[idLen..] == packet[n + idLen..]; }
    case Some(c) =>
      CipherExact(k, body, pidOn, long, ignorePid, room);
      if |body| > c.ivLen {
        var iv, ct := packet[n..n + c.ivLen], packet[n + c.ivLen..];
        assert body[..c.ivLen] == iv && body[c.ivLen..] == ct;
        var u, f := c.update(iv, [], ct), c.final(iv, [], ct, []);
        if u.Some? && f.Some? {
          var plain := u.value + f.value;
          PidExact(plain, pidOn, long);
          assert plain[0..] == plain;
        }
      }
  }

  /** openvpn_decrypt_v1. */
  method DecryptV1(buf: Buffer, work0: Buffer, k: KeyCtx, headroom: nat, pidOn: bool, long: bool, ignorePid: bool,
                   rec: PacketIdRec, now: nat) returns (ok: bool)
    requires !UsesAead(k) && (k.cipher.Some? ==> CipherLaw(k.cipher.value))
    requires buf.Valid() && buf.len > 0 && buf.data != work0.data && headroom <= work0.data.Length
    requires rec.Valid() && {buf, buf.data, work0, work0.data} !! rec.Repr()
    modifies buf, work0.data, rec.Repr()
    ensures buf.Valid() && rec.Valid()
    ensures var b := BareV1(k, old(buf.Content()), pidOn, long, ignorePid, work0.data.Length - headroom);
            var r := Checked(b, NewTo(rec.limits, old(rec.State()), now));
            && (if ok then r == Some(buf.Content()) else r.None? && buf.len == 0)
            && rec.State() == AfterPacket(rec.limits, old(rec.State()), b, now)
    ensures V1Genuine(k, old(buf.Content()), pidOn, long, ok, buf.Content(), rec.State() == old(rec.State()))
  {
    hide CipherLaw, BareV1, Accepts, AfterCheck, V1Genuine;
    ghost var packet, before := buf.Content(), rec.State();
    var pin;
    ghost var room := work0.data.Length - headroom;
    ok, pin := OpenBody(buf, work0, k, headroom, pidOn, long, ignorePid);
    ghost var b, plain := BareV1(k, packet, pidOn, long, ignorePid, room), buf.Content();
    assert if ok then b == Some(Bare(pin, plain)) else b.None?;
    assert rec.State() == before;
    if ok && pin.Some? { ok := rec.CheckReplay(pin.value, now); }
    if !ok { buf.len := 0; }
    assert buf.Content() == if ok then plain else [];
    V1GenuineHolds(k, packet, pidOn, long, ignorePid, room, ok, buf.Content(), rec.State() == before);
  }

  lemma BodyWithoutCipher(k: KeyCtx, body: seq<byte>, pidOn: bool, long: bool, ignorePid: bool, room: int)
    requires k.cipher.None?
    ensures BareBody(k, body, pidOn, long, ignorePid, room) == Ignoring(WithoutPid(body, pidOn, long), ignorePid)
  {
  }
}
