/** Stateless client NAT: network-to-network rewriting of the addresses of a packet. */
module ClientNat {
  import opened Bytes
  import opened Checksum

  const MAX_CLIENT_NAT: nat := 64
  const OPENVPN_IPPROTO_TCP: byte := 6
  const OPENVPN_IPPROTO_UDP: byte := 17
  const IP_HEADER: nat := 20
  const TCP_HEADER: nat := 20
  const UDP_HEADER: nat := 8

  datatype Direction = Outgoing | Incoming
  datatype RuleType = Snat | Dnat

  datatype Entry = Entry(kind: RuleType, network: bv32, netmask: bv32, foreign: bv32)

  /**
   A packet of `len` bytes in 16-bit words as the machine reads them: five words of the IP header, its
   checksum, the addresses, and the words behind those 20 bytes.
   */
  datatype Image = Image(head: seq<u16>, check: u16, saddr: bv32, daddr: bv32, transport: seq<u16>, len: nat)

  /** What the callers have looked at: a whole IP header with a version in it. */
  predicate ImageValid(p: Image) {
    |p.head| == 5 && p.head[0] != 0 && p.len >= IP_HEADER && |p.transport| == (p.len - IP_HEADER + 1) / 2
  }

  /** The second byte of the word it shares with the time to live. */
  function Protocol(head: seq<u16>): byte
    requires |head| == 5
  {
    head[4] / 256
  }

  /** struct ip_tcp_udp_hdr and what follows. */
  class Packet {
    const head: seq<u16>
    const len: nat
    const transport: array<u16>
    var check: u16
    var saddr: bv32
    var daddr: bv32

    ghost function Contents(): Image
      reads this, transport
    {
      Image(head, check, saddr, daddr, transport[..], len)
    }

    constructor (head: seq<u16>, check: u16, s: bv32, d: bv32, transport: array<u16>, len: nat)
      ensures Contents() == Image(head, check, s, d, transport[..], len) && this.transport == transport
    {
      this.head, this.len, this.transport := head, len, transport;
      this.check, saddr, daddr := check, s, d;
    }
  }

  /** struct client_nat_option_list. */
  class RuleList {
    const entries: array<Entry>
    var n: nat

    predicate Valid()
      reads this
    {
      entries.Length == MAX_CLIENT_NAT && n <= MAX_CLIENT_NAT
    }

    ghost function Rules(): seq<Entry>
      reads this, entries
      requires Valid()
    {
      entries[..n]
    }

    constructor ()
      ensures Valid() && Rules() == [] && fresh(entries)
    {
      entries := new Entry[MAX_CLIENT_NAT](_ => Entry(Snat, 0, 0, 0));
      n := 0;
    }

    /** add_entry: the table holds at most 64 rules. */
    method AddEntry(e: Entry) returns (ok: bool)
      requires Valid()
      modifies this, entries
      ensures Valid() && (ok <==> |old(Rules())| < MAX_CLIENT_NAT)
      ensures Rules() == if ok then old(Rules()) + [e] else old(Rules())
    {
      if n >= MAX_CLIENT_NAT { return false; }
      entries[n] := e;
      n := n + 1;
      assert entries[..n - 1] == old(entries[..n]);
      return true;
    }
  }

  // ----- one address -----

  function From(e: Entry, dir: Direction): bv32 {
    if dir == Incoming then e.foreign else e.network
  }

  function To(e: Entry, dir: Direction): bv32 {
    if dir == Incoming then e.network else e.foreign
  }

  predicate InRange(addr: bv32, mask: bv32, network: bv32) {
    addr & mask == network
  }

  function Rewrite(addr: bv32, mask: bv32, to: bv32): bv32 {
    (addr & !mask) | to
  }

  predicate Applies(e: Entry, kind: RuleType, dir: Direction, addr: bv32) {
    e.kind == kind && InRange(addr, e.netmask, From(e, dir))
  }

  /** The first rule of a kind that covers the address, if any. */
  function FirstRule(rules: seq<Entry>, kind: RuleType, dir: Direction, addr: bv32): (r: Option<Entry>)
    ensures r.None? ==> forall k :: 0 <= k < |rules| ==> !Applies(rules[k], kind, dir, addr)
    ensures r.Some? ==> exists k :: 0 <= k < |rules| && rules[k] == r.value && Applies(rules[k], kind, dir, addr)
                               && forall j :: 0 <= j < k ==> !Applies(rules[j], kind, dir, addr)
  {
    if rules == [] then None
    else if Applies(rules[0], kind, dir, addr) then Some(rules[0])
    else
      var r := FirstRule(rules[1..], kind, dir, addr);
      r
  }

  /** Rewritten once, by the first rule that covers the address; otherwise unchanged. */
  function Translate(rules: seq<Entry>, kind: RuleType, dir: Direction, addr: bv32): bv32 {
    match FirstRule(rules, kind, dir, addr)
    case None => addr
    case Some(e) => Rewrite(addr, e.netmask, To(e, dir))
  }

  /**
   Source rules act on the source of outgoing and the destination of incoming packets, destination rules the
   other way.
   */
  function SourceKind(dir: Direction): RuleType {
    if dir == Outgoing then Snat else Dnat
  }

  function DestKind(dir: Direction): RuleType {
    if dir == Outgoing then Dnat else Snat
  }

  // ----- client_nat_transform -----

  /** One field after the first `i` rules: already rewritten for good, or untouched by all of them. */
  ghost predicate Progress(rules: seq<Entry>, i: nat, kind: RuleType, dir: Direction, before: bv32, now: bv32,
                           done: bool)
  {
    i <= |rules| &&
    var first := FirstRule(rules, kind, dir, before);
    if done then first.Some? && now == Translate(rules, kind, dir, before)
    else now == before && first == FirstRule(rules[i..], kind, dir, before)
  }

  lemma ProgressStart(rules: seq<Entry>, kind: RuleType, dir: Direction, addr: bv32)
    ensures Progress(rules, 0, kind, dir, addr, addr, false)
  {
    assert rules[0..] == rules;
  }

  lemma ProgressStep(rules: seq<Entry>, i: nat, kind: RuleType, dir: Direction, before: bv32, now: bv32, done: bool)
    requires i < |rules| && Progress(rules, i, kind, dir, before, now, done)
    ensures if Applies(rules[i], kind, dir, now) && !done then
              Progress(rules, i + 1, kind, dir, before, Rewrite(now, rules[i].netmask, To(rules[i], dir)), true)
            else Progress(rules, i + 1, kind, dir, before, now, done)
  {
    hide InRange, Rewrite;
    assert rules[i..][1..] == rules[i + 1..];
  }

  predicate OnDest(e: Entry, dir: Direction) {
    (e.kind == Dnat) != (dir == Incoming)
  }

  predicate Hits(e: Entry, dir: Direction, addr: bv32, done: bool) {
    InRange(addr, e.netmask, From(e, dir)) && !done
  }

  function Hit(e: Entry, dir: Direction, addr: bv32, done: bool): bv32 {
    if Hits(e, dir, addr, done) then Rewrite(addr, e.netmask, To(e, dir)) else addr
  }

  /** A rule is about one of the fields; the other one makes progress by standing still. */
  lemma RuleStep(rules: seq<Entry>, i: nat, dir: Direction, s: bv32, d: bv32,
                 saddr: bv32, daddr: bv32, sourceDone: bool, destDone: bool)
    requires i < |rules|
    requires Progress(rules, i, SourceKind(dir), dir, s, saddr, sourceDone)
    requires Progress(rules, i, DestKind(dir), dir, d, daddr, destDone)
    ensures var e := rules[i];
            if OnDest(e, dir) then
              && Progress(rules, i + 1, SourceKind(dir), dir, s, saddr, sourceDone)
              && Progress(rules, i + 1, DestKind(dir), dir, d, Hit(e, dir, daddr, destDone),
                          destDone || Hits(e, dir, daddr, destDone))
            else
              && Progress(rules, i + 1, DestKind(dir), dir, d, daddr, destDone)
              && Progress(rules, i + 1, SourceKind(dir), dir, s, Hit(e, dir, saddr, sourceDone),
                          sourceDone || Hits(e, dir, saddr, sourceDone))
  {
    hide InRange, Rewrite, Progress;
    ProgressStep(rules, i, SourceKind(dir), dir, s, saddr, sourceDone);
    ProgressStep(rules, i, DestKind(dir), dir, d, daddr, destDone);
  }

  lemma ProgressEnd(rules: seq<Entry>, kind: RuleType, dir: Direction, before: bv32, now: bv32, done: bool)
    requires Progress(rules, |rules|, kind, dir, before, now, done)
    ensures now == Translate(rules, kind, dir, before) && (done <==> FirstRule(rules, kind, dir, before).Some?)
  {
    assert rules[|rules|..] == [];
  }

  function Low(a: bv32): u16 {
    (a & 0xFFFF) as bv16 as int
  }

  function High(a: bv32): u16 {
    (a >> 16) as bv16 as int
  }

  /** Both words of an address, as ADD_CHECKSUM_32 and SUB_CHECKSUM_32 take them. */
  function AddressSum(a: bv32): (r: nat)
    ensures r <= 0x1_FFFE
  {
    Low(a) as int + High(a) as int
  }

  /** The word behind the IP header that is taken for a checksum. */
  function ChecksumAt(protocol: byte, len: nat): Option<nat> {
    if protocol == OPENVPN_IPPROTO_TCP then
      if len >= IP_HEADER + TCP_HEADER then Some(8) else None
    else if protocol == OPENVPN_IPPROTO_UDP then
      if len >= IP_HEADER + UDP_HEADER then Some(3) else None
    else None
  }

  function AdjustedAt(transport: seq<u16>, at: Option<nat>, acc: int): seq<u16>
    requires at.Some? ==> at.value < |transport|
  {
    if at.None? then transport else transport[at.value := Adjusted(acc, transport[at.value])]
  }

  /** The packet with other addresses and its checksums adjusted. */
  function Readdressed(p: Image, s: bv32, d: bv32): (q: Image)
    requires ImageValid(p)
    ensures ImageValid(q)
  {
    var acc := AddressSum(p.saddr) - AddressSum(s) + AddressSum(p.daddr) - AddressSum(d);
    p.(saddr := s, daddr := d, check := Adjusted(acc, p.check),
       transport := AdjustedAt(p.transport, ChecksumAt(Protocol(p.head), p.len), acc))
  }

  /** The packet the transform leaves; one to which no rule applies is not touched. */
  function Transformed(rules: seq<Entry>, dir: Direction, p: Image): (q: Image)
    requires ImageValid(p)
    ensures ImageValid(q)
  {
    if FirstRule(rules, SourceKind(dir), dir, p.saddr).None? && FirstRule(rules, DestKind(dir), dir, p.daddr).None? then
      p
    else
      Readdressed(p, Translate(rules, SourceKind(dir), dir, p.saddr), Translate(rules, DestKind(dir), dir, p.daddr))
  }

  /** client_nat_transform: one pass over the rules for both addresses, then the checksums. */
  method Transform(list: RuleList, h: Packet, dir: Direction)
    requires list.Valid() && ImageValid(h.Contents())
    modifies h, h.transport
    ensures h.Contents() == Transformed(list.Rules(), dir, old(h.Contents()))
  {
    hide FirstRule, AddressSum, Adjusted, AdjustedAt, Rewrite;
    var acc, alog := RewriteAddresses(list, h, dir);
    if alog { AdjustChecksums(h, acc); }
  }

  /** The rule on its field. */
  method RewriteField(addr: bv32, e: Entry, dir: Direction, done0: bool, acc0: int)
    returns (now: bv32, done: bool, acc: int)
    ensures now == Hit(e, dir, addr, done0) && (done <==> done0 || Hits(e, dir, addr, done0))
    ensures acc == acc0 + AddressSum(addr) - AddressSum(now)
  {
    hide InRange, Rewrite, AddressSum;
    now, done, acc := addr, done0, acc0;
    if InRange(addr, e.netmask, From(e, dir)) && !done0 {
      acc := acc + AddressSum(addr);
      now := Rewrite(addr, e.netmask, To(e, dir));
      acc := acc - AddressSum(now);
      done := true;
    }
  }

  /** The body of the loop: the rule picks its field. */
  method ApplyRule(h: Packet, e: Entry, dir: Direction, sourceDone0: bool, destDone0: bool, acc0: int)
    returns (sourceDone: bool, destDone: bool, acc: int)
    modifies h`saddr, h`daddr
    ensures var s, d := old(h.saddr), old(h.daddr);
            && h.saddr == (if OnDest(e, dir) then s else Hit(e, dir, s, sourceDone0))
            && h.daddr == (if OnDest(e, dir) then Hit(e, dir, d, destDone0) else d)
            && (sourceDone <==> sourceDone0 || (!OnDest(e, dir) && Hits(e, dir, s, sourceDone0)))
            && (destDone <==> destDone0 || (OnDest(e, dir) && Hits(e, dir, d, destDone0)))
            && acc == acc0 + AddressSum(s) - AddressSum(h.saddr) + AddressSum(d) - AddressSum(h.daddr)
  {
    hide Hit, Hits, OnDest, AddressSum;
    sourceDone, destDone := sourceDone0, destDone0;
    if OnDest(e, dir) {
      h.daddr, destDone, acc := RewriteField(h.daddr, e, dir, destDone, acc0);
    } else {
      h.saddr, sourceDone, acc := RewriteField(h.saddr, e, dir, sourceDone, acc0);
    }
  }

  /** The loop over the rules: `acc` collects the words that went less those that came. */
  method RewriteAddresses(list: RuleList, h: Packet, dir: Direction) returns (acc: int, alog: bool)
    requires list.Valid()
    modifies h`saddr, h`daddr
    ensures h.saddr == Translate(list.Rules(), SourceKind(dir), dir, old(h.saddr))
    ensures h.daddr == Translate(list.Rules(), DestKind(dir), dir, old(h.daddr))
    ensures acc == AddressSum(old(h.saddr)) - AddressSum(h.saddr) + AddressSum(old(h.daddr)) - AddressSum(h.daddr)
    ensures alog <==> FirstRule(list.Rules(), SourceKind(dir), dir, old(h.saddr)).Some?
                      || FirstRule(list.Rules(), DestKind(dir), dir, old(h.daddr)).Some?
  {
    hide Hit, Hits, SourceKind, DestKind, Translate, Progress, AddressSum, FirstRule;
    ghost var rules, s, d := list.Rules(), h.saddr, h.daddr;
    acc := 0;
    var sourceDone, destDone := false, false;
    ProgressStart(rules, SourceKind(dir), dir, s);
    ProgressStart(rules, DestKind(dir), dir, d);
    var i := 0;
    while i < list.n
      invariant 0 <= i <= list.n
      invariant acc == AddressSum(s) - AddressSum(h.saddr) + AddressSum(d) - AddressSum(h.daddr)
      invariant Progress(rules, i, SourceKind(dir), dir, s, h.saddr, sourceDone)
      invariant Progress(rules, i, DestKind(dir), dir, d, h.daddr, destDone)
    {
      assert rules[i] == list.entries[i];
      RuleStep(rules, i, dir, s, d, h.saddr, h.daddr, sourceDone, destDone);
      sourceDone, destDone, acc := ApplyRule(h, list.entries[i], dir, sourceDone, destDone, acc);
      i := i + 1;
    }
    ProgressEnd(rules, SourceKind(dir), dir, s, h.saddr, sourceDone);
    ProgressEnd(rules, DestKind(dir), dir, d, h.daddr, destDone);
    alog := sourceDone || destDone;
  }

  /** ADJUST_CHECKSUM on the header and, for TCP and UDP with a whole header, behind it. */
  method AdjustChecksums(h: Packet, acc: int)
    requires ImageValid(h.Contents())
    modifies h`check, h.transport
    ensures var p := old(h.Contents());
            h.Contents() == p.(check := Adjusted(acc, p.check),
                               transport := AdjustedAt(p.transport, ChecksumAt(Protocol(p.head), p.len), acc))
  {
    hide Adjusted;
    h.check := Adjusted(acc, h.check);
    if Protocol(h.head) == OPENVPN_IPPROTO_TCP {
      if h.len >= IP_HEADER + TCP_HEADER { h.transport[8] := Adjusted(acc, h.transport[8]); }
    } else if Protocol(h.head) == OPENVPN_IPPROTO_UDP {
      if h.len >= IP_HEADER + UDP_HEADER { h.transport[3] := Adjusted(acc, h.transport[3]); }
    }
  }

  // ----- which rule acts on what -----

  /** An address lies in the network a rule replaces: its own for outgoing packets, the foreign one for incoming. */
  predicate Covers(e: Entry, dir: Direction, addr: bv32) {
    InRange(addr, e.netmask, if dir == Outgoing then e.network else e.foreign)
  }

  /**
   A source rule acts on the source of outgoing and the destination of incoming packets, a destination rule on the
   other address; the first of its kind that covers the address puts its network in the place of the one it found.
   An address no rule of the kind covers stays.
   */
  lemma RuleActs(rules: seq<Entry>, dir: Direction, p: Image, kind: RuleType, k: nat)
    requires ImageValid(p) && k <= |rules|
    requires var addr := if (kind == Snat) == (dir == Outgoing) then p.saddr else p.daddr;
             && (forall j | 0 <= j < k && rules[j].kind == kind :: !Covers(rules[j], dir, addr))
             && (k < |rules| ==> rules[k].kind == kind && Covers(rules[k], dir, addr))
    ensures var q, source := Transformed(rules, dir, p), (kind == Snat) == (dir == Outgoing);
            var addr, now := if source then p.saddr else p.daddr, if source then q.saddr else q.daddr;
            now == if k == |rules| then addr
                   else Rewrite(addr, rules[k].netmask, if dir == Outgoing then rules[k].foreign else rules[k].network)
  {
    hide AddressSum, Adjusted, AdjustedAt, InRange, Rewrite, FirstRule;
    FirstIs(rules, kind, dir, if (kind == Snat) == (dir == Outgoing) then p.saddr else p.daddr, k);
  }

  lemma FirstIs(rules: seq<Entry>, kind: RuleType, dir: Direction, addr: bv32, k: nat)
    requires k <= |rules| && forall j | 0 <= j < k :: !Applies(rules[j], kind, dir, addr)
    requires k < |rules| ==> Applies(rules[k], kind, dir, addr)
    ensures FirstRule(rules, kind, dir, addr) == if k == |rules| then None else Some(rules[k])
  {
    hide Applies;
    var r := FirstRule(rules, kind, dir, addr);
    if r.Some? {
      var i :| 0 <= i < |rules| && rules[i] == r.value && Applies(rules[i], kind, dir, addr)
               && forall j :: 0 <= j < i ==> !Applies(rules[j], kind, dir, addr);
      assert i == k;
    }
  }

  // ----- checksums stay right -----

  function AddressWords(a: bv32): seq<u16> {
    [Low(a), High(a)]
  }

  /** The words of the IP header. */
  function IpWords(p: Image): seq<u16> {
    p.head + [p.check] + (AddressWords(p.saddr) + AddressWords(p.daddr))
  }

  /** The words a TCP or UDP checksum covers; `pseudo` is the rest of the pseudo header, protocol and length. */
  function TransportWords(p: Image, pseudo: seq<u16>): seq<u16> {
    pseudo + p.transport + (AddressWords(p.saddr) + AddressWords(p.daddr))
  }

  lemma AddressTotal(s: bv32, d: bv32)
    ensures Total(AddressWords(s) + AddressWords(d)) == AddressSum(s) + AddressSum(d)
  {
    hide Low, High;
    TotalSplits(AddressWords(s), AddressWords(d));
    TotalOfTwo(AddressWords(s));
    TotalOfTwo(AddressWords(d));
  }

  lemma IpTotal(p: Image)
    ensures Total(IpWords(p)) == Total(p.head) + p.check as int + (AddressSum(p.saddr) + AddressSum(p.daddr))
  {
    hide Low, High, AddressSum;
    AddressTotal(p.saddr, p.daddr);
    TotalSplits(p.head + [p.check], AddressWords(p.saddr) + AddressWords(p.daddr));
    TotalSplits(p.head, [p.check]);
    assert [p.check][1..] == [];
  }

  lemma TransportTotal(p: Image, pseudo: seq<u16>)
    ensures Total(TransportWords(p, pseudo))
         == Total(pseudo) + Total(p.transport) + (AddressSum(p.saddr) + AddressSum(p.daddr))
  {
    hide Low, High, AddressSum;
    AddressTotal(p.saddr, p.daddr);
    TotalSplits(pseudo + p.transport, AddressWords(p.saddr) + AddressWords(p.daddr));
    TotalSplits(pseudo, p.transport);
  }

  lemma TotalUpdated(words: seq<u16>, i: nat, w: u16)
    requires i < |words|
    ensures Total(words[i := w]) == Total(words) - words[i] + w
  {
    var v := words[i := w];
    assert words == words[..i] + ([words[i]] + words[i + 1..]) && v == words[..i] + ([w] + words[i + 1..]);
    TotalSplits(words[..i], [words[i]] + words[i + 1..]);
    TotalSplits(words[..i], [w] + words[i + 1..]);
    assert ([words[i]] + words[i + 1..])[1..] == words[i + 1..] && ([w] + words[i + 1..])[1..] == words[i + 1..];
  }

  lemma HeadCounts(words: seq<u16>)
    requires words != [] && words[0] != 0
    ensures Total(words) > 0
  {
  }

  /** The IP header verifies after the transform exactly when it did before. */
  lemma IpChecksumKept(rules: seq<Entry>, dir: Direction, p: Image)
    requires ImageValid(p)
    ensures Verifies(IpWords(Transformed(rules, dir, p))) <==> Verifies(IpWords(p))
  {
    hide IpWords, Verifies, Total, AddressSum, Adjusted, AdjustedAt, FirstRule, Translate;
    var q := Transformed(rules, dir, p);
    IpTotal(p);
    IpTotal(q);
    VerifiesByTotal(IpWords(p));
    VerifiesByTotal(IpWords(q));
    HeadCounts(p.head);
    AdjustKeeps(Total(p.head), AddressSum(p.saddr) + AddressSum(p.daddr), AddressSum(q.saddr) + AddressSum(q.daddr),
                p.check);
  }

  /**
   So does the segment of a TCP packet (protocol 6) of at least 40 bytes and that of a UDP packet (17) of at least
   28, where one word changes; behind any other nothing does.
   */
  lemma TransportChecksumKept(rules: seq<Entry>, dir: Direction, p: Image, pseudo: seq<u16>)
    requires ImageValid(p) && Total(pseudo) > 0
    ensures var q, protocol := Transformed(rules, dir, p), p.head[4] / 256;
            && q.head == p.head && q.len == p.len && |q.transport| == |p.transport|
            && if (protocol == 6 && p.len >= 40) || (protocol == 17 && p.len >= 28) then
                 && (Verifies(TransportWords(q, pseudo)) <==> Verifies(TransportWords(p, pseudo)))
                 && forall i | 0 <= i < |p.transport| && i != (if protocol == 6 then 8 else 3) ::
                      q.transport[i] == p.transport[i]
               else q.transport == p.transport
  {
    hide TransportWords, Verifies, Total, AddressSum, Adjusted, FirstRule, Translate;
    var q, at := Transformed(rules, dir, p), ChecksumAt(Protocol(p.head), p.len);
    if at.Some? && q != p {
      TransportTotal(p, pseudo);
      TransportTotal(q, pseudo);
      VerifiesByTotal(TransportWords(p, pseudo));
      VerifiesByTotal(TransportWords(q, pseudo));
      var c := p.transport[at.value];
      TotalUpdated(p.transport, at.value, q.transport[at.value]);
      TotalUpdated(p.transport, at.value, 0);
      AdjustKeeps(Total(pseudo) + Total(p.transport) - c as int,
                  AddressSum(p.saddr) + AddressSum(p.daddr), AddressSum(q.saddr) + AddressSum(q.daddr), c);
    }
  }

  /** A receiver takes a UDP checksum of 0 for none (RFC 768). */
  predicate UdpAccepts(p: Image, pseudo: seq<u16>)
    requires |p.transport| > 3
  {
    p.transport[3] == 0 || Verifies(TransportWords(p, pseudo))
  }

  /**
   UDP: a packet is accepted afterwards exactly when its words verified before, or when its checksum, or
   its lack of one, is adjusted to 0: that happens when the addresses gained the checksum, or that and a
   multiple of 65535.
   */
  lemma UdpChecksumKept(rules: seq<Entry>, dir: Direction, p: Image, pseudo: seq<u16>)
    requires ImageValid(p) && Total(pseudo) > 0
    requires Protocol(p.head) == OPENVPN_IPPROTO_UDP && p.len >= IP_HEADER + UDP_HEADER
    ensures var q, c := Transformed(rules, dir, p), p.transport[3];
            var gone, come := AddressSum(p.saddr) + AddressSum(p.daddr), AddressSum(q.saddr) + AddressSum(q.daddr);
            var cleared := gone + c <= come && (come - gone - c) % 0xFFFF == 0;
            && (q.transport[3] == 0 <==> cleared)
            && (UdpAccepts(q, pseudo) <==> Verifies(TransportWords(p, pseudo)) || cleared)
            && (c != 0 && UdpAccepts(p, pseudo) ==> UdpAccepts(q, pseudo))
  {
    hide TransportWords, Verifies, Total, AddressSum, Adjusted, FirstRule, Translate;
    TransportChecksumKept(rules, dir, p, pseudo);
    var q := Transformed(rules, dir, p);
    AdjustedToZero(AddressSum(p.saddr) + AddressSum(p.daddr) - (AddressSum(q.saddr) + AddressSum(q.daddr)),
                   p.transport[3]);
  }

  /** A UDP packet from `source` to address 0 with checksum `c`. */
  function Datagram(source: bv32, c: u16): (p: Image)
    ensures ImageValid(p) && Protocol(p.head) == OPENVPN_IPPROTO_UDP && p.len == 28 && p.transport[3] == c
  {
    Image([1, 0, 0, 0, 0x1100], 0, source, 0, [0, 0, 8, c], 28)
  }

  function OneRule(network: bv32, foreign: bv32): seq<Entry> {
    [Entry(Snat, network, 1, foreign)]
  }

  lemma DatagramRewritten(network: bv32, foreign: bv32, c: u16)
    requires network < 2 && foreign < 2
    ensures var p := Datagram(network, c);
            var q := Transformed(OneRule(network, foreign), Outgoing, p);
            && AddressSum(p.saddr) == (if network == 0 then 0 else 1) && AddressSum(p.daddr) == 0
            && AddressSum(q.saddr) == (if foreign == 0 then 0 else 1) && AddressSum(q.daddr) == 0
  {
    hide Adjusted, AdjustedAt, AddressSum;
    var rules := OneRule(network, foreign);
    assert FirstRule(rules, Snat, Outgoing, network) == Some(rules[0]);
    assert FirstRule(rules, Dnat, Outgoing, 0) == None;
    assert AddressSum(0) == 0 && AddressSum(1) == 1 by { SmallAddresses(); }
  }

  lemma SmallAddresses()
    ensures AddressSum(0) == 0 && AddressSum(1) == 1
  {
  }

  lemma DatagramTotals(source: bv32, c: u16, pseudo: seq<u16>)
    requires pseudo == [0x1100, 0x800]
    ensures Total(pseudo) == 0x1900 && Total(Datagram(source, c).transport) == 8 + c as int
  {
    TotalOfTwo(pseudo);
    var low, high: seq<u16> := [0, 0], [8, c];
    TotalSplits(low, high);
    assert Datagram(source, c).transport == low + high;
    TotalOfTwo(low);
    TotalOfTwo(high);
  }

  /**
   So a packet without a checksum that was accepted need not be any more, and one with a wrong checksum
   that was rejected can come to be accepted as one without.
   */
  lemma UdpAcceptanceChanges()
    ensures var pseudo := [0x1100 as u16, 0x800];
            && UdpAccepts(Datagram(1, 0), pseudo)
            && !UdpAccepts(Transformed(OneRule(1, 0), Outgoing, Datagram(1, 0)), pseudo)
            && !UdpAccepts(Datagram(0, 1), pseudo)
            && UdpAccepts(Transformed(OneRule(0, 1), Outgoing, Datagram(0, 1)), pseudo)
  {
    hide Transformed, AddressSum, Total, TransportWords, Verifies, Datagram, OneRule;
    var pseudo := [0x1100 as u16, 0x800];
    DatagramCase(1, 0, 0, pseudo);
    DatagramCase(0, 1, 1, pseudo);
  }

  lemma DatagramCase(network: bv32, foreign: bv32, c: u16, pseudo: seq<u16>)
    requires network < 2 && foreign < 2 && c < 2 && pseudo == [0x1100, 0x800]
    ensures var p := Datagram(network, c);
            var gain := (if foreign == 0 then 0 else 1) - (if network == 0 then 0 else 1);
            && (UdpAccepts(p, pseudo) <==> c == 0)
            && (UdpAccepts(Transformed(OneRule(network, foreign), Outgoing, p), pseudo) <==> gain == c)
  {
    hide Transformed, AddressSum, Total, TransportWords, Verifies, Datagram, OneRule;
    var p := Datagram(network, c);
    DatagramRewritten(network, foreign, c);
    DatagramTotals(network, c, pseudo);
    UdpChecksumKept(OneRule(network, foreign), Outgoing, p, pseudo);
    TransportTotal(p, pseudo);
    VerifiesByTotal(TransportWords(p, pseudo));
  }

  // ----- replies -----

  /** Both networks of a rule have no bits outside its mask. */
  predicate Aligned(e: Entry) {
    e.network & e.netmask == e.network && e.foreign & e.netmask == e.foreign
  }

  /** No address lies in both foreign ranges. */
  predicate Disjoint(e: Entry, f: Entry) {
    e.foreign & f.netmask != f.foreign & e.netmask
  }

  ghost predicate RulesAligned(rules: seq<Entry>) {
    forall k :: 0 <= k < |rules| ==> Aligned(rules[k])
  }

  ghost predicate RulesDisjoint(rules: seq<Entry>) {
    forall j, k :: 0 <= j < k < |rules| && rules[j].kind == rules[k].kind ==> Disjoint(rules[j], rules[k])
  }

  lemma CommonAddress(a: bv32, m: bv32, x: bv32, n: bv32, y: bv32)
    requires a & m == x && a & n == y
    ensures x & n == y & m
  {
    assert a & m & n == a & n & m;
  }

  lemma NotInBoth(e: Entry, f: Entry, a: bv32)
    requires InRange(a, e.netmask, e.foreign) && InRange(a, f.netmask, f.foreign)
    ensures !Disjoint(e, f)
  {
    CommonAddress(a, e.netmask, e.foreign, f.netmask, f.foreign);
  }

  lemma JoinLeft(m: bv32, x: bv32, n: bv32, y: bv32)
    requires x & m == x && y & m == x & n
    ensures InRange(x | y, m, x)
  {
  }

  lemma JoinRight(m: bv32, x: bv32, n: bv32, y: bv32)
    requires y & n == y && y & m == x & n
    ensures InRange(x | y, n, y)
  {
  }

  /** The union of two networks that agree where both masks look lies in both ranges. */
  lemma JoinedInFirst(e: Entry, f: Entry)
    requires Aligned(e) && Aligned(f) && !Disjoint(e, f)
    ensures InRange(e.foreign | f.foreign, e.netmask, e.foreign)
  {
    hide InRange;
    JoinLeft(e.netmask, e.foreign, f.netmask, f.foreign);
  }

  lemma JoinedInSecond(e: Entry, f: Entry)
    requires Aligned(e) && Aligned(f) && !Disjoint(e, f)
    ensures InRange(e.foreign | f.foreign, f.netmask, f.foreign)
  {
    hide InRange;
    JoinRight(e.netmask, e.foreign, f.netmask, f.foreign);
  }

  /** `Disjoint` is exactly the absence of a common address, for aligned rules. */
  lemma DisjointMeansDisjoint(e: Entry, f: Entry)
    requires Aligned(e) && Aligned(f)
    ensures Disjoint(e, f) <==>
            !(exists a: bv32 :: InRange(a, e.netmask, e.foreign) && InRange(a, f.netmask, f.foreign))
  {
    hide InRange, Disjoint, Aligned;
    if Disjoint(e, f) {
      forall a: bv32 ensures !(InRange(a, e.netmask, e.foreign) && InRange(a, f.netmask, f.foreign)) {
        if InRange(a, e.netmask, e.foreign) && InRange(a, f.netmask, f.foreign) { NotInBoth(e, f, a); }
      }
    } else {
      JoinedInFirst(e, f);
      JoinedInSecond(e, f);
    }
  }

  /** Rewriting keeps the host bits and lands in the target network. */
  lemma RewriteKeepsHost(addr: bv32, mask: bv32, to: bv32)
    requires to & mask == to
    ensures Rewrite(addr, mask, to) & !mask == addr & !mask
    ensures InRange(Rewrite(addr, mask, to), mask, to)
  {
  }

  lemma BitsBack(addr: bv32, mask: bv32, foreign: bv32)
    requires foreign & mask == foreign
    ensures (((addr & !mask) | foreign) & !mask) | (addr & mask) == addr
  {
  }

  /** Rewriting there and back. */
  lemma RewriteBack(addr: bv32, mask: bv32, network: bv32, foreign: bv32)
    requires InRange(addr, mask, network) && foreign & mask == foreign
    ensures Rewrite(Rewrite(addr, mask, foreign), mask, network) == addr
  {
    BitsBack(addr, mask, foreign);
  }

  lemma ForeignSide(e: Entry, kind: RuleType, addr: bv32)
    requires Aligned(e) && Applies(e, kind, Outgoing, addr)
    ensures var there := Rewrite(addr, e.netmask, To(e, Outgoing));
            && Applies(e, kind, Incoming, there)
            && Rewrite(there, e.netmask, To(e, Incoming)) == addr
  {
    hide InRange, Rewrite;
    RewriteKeepsHost(addr, e.netmask, e.foreign);
    RewriteBack(addr, e.netmask, e.network, e.foreign);
  }

  /** An address can be in the foreign range of only one rule of a kind. */
  lemma UniqueForeign(rules: seq<Entry>, j: nat, k: nat, kind: RuleType, addr: bv32)
    requires RulesDisjoint(rules) && j < |rules| && k < |rules|
    requires Applies(rules[j], kind, Incoming, addr) && Applies(rules[k], kind, Incoming, addr)
    ensures j == k
  {
    hide InRange, Disjoint;
    if j != k {
      NotInBoth(rules[j], rules[k], addr);
      NotInBoth(rules[k], rules[j], addr);
    }
  }

  /**
   The reply's transform restores an address exactly when the request's transform rewrote it, or when
   it was not rewritten and no foreign range claims it.
   */
  lemma ReplyInverts(rules: seq<Entry>, kind: RuleType, addr: bv32)
    requires RulesAligned(rules) && RulesDisjoint(rules)
    ensures Translate(rules, kind, Incoming, Translate(rules, kind, Outgoing, addr)) == addr
       <==> FirstRule(rules, kind, Outgoing, addr).Some? || FirstRule(rules, kind, Incoming, addr).None?
  {
    if FirstRule(rules, kind, Outgoing, addr).Some? {
      RewrittenComesBack(rules, kind, addr);
    } else if FirstRule(rules, kind, Incoming, addr).Some? {
      UntouchedIsClaimed(rules, kind, addr);
    }
  }

  lemma RewrittenComesBack(rules: seq<Entry>, kind: RuleType, addr: bv32)
    requires RulesAligned(rules) && RulesDisjoint(rules) && FirstRule(rules, kind, Outgoing, addr).Some?
    ensures Translate(rules, kind, Incoming, Translate(rules, kind, Outgoing, addr)) == addr
  {
    hide Applies, Rewrite, RulesDisjoint, FirstRule, Aligned;
    var e := FirstRule(rules, kind, Outgoing, addr).value;
    var there := Rewrite(addr, e.netmask, To(e, Outgoing));
    var k :| 0 <= k < |rules| && rules[k] == e && Applies(rules[k], kind, Outgoing, addr);
    ForeignSide(rules[k], kind, addr);
    var r := FirstRule(rules, kind, Incoming, there);
    var j :| 0 <= j < |rules| && rules[j] == r.value && Applies(rules[j], kind, Incoming, there);
    UniqueForeign(rules, j, k, kind, there);
  }

  lemma UntouchedIsClaimed(rules: seq<Entry>, kind: RuleType, addr: bv32)
    requires RulesAligned(rules) && FirstRule(rules, kind, Outgoing, addr).None?
    requires FirstRule(rules, kind, Incoming, addr).Some?
    ensures Translate(rules, kind, Incoming, addr) != addr
  {
    hide InRange, Rewrite, FirstRule, Aligned;
    var f := FirstRule(rules, kind, Incoming, addr).value;
    var j :| 0 <= j < |rules| && rules[j] == f && Applies(rules[j], kind, Incoming, addr);
    assert Aligned(rules[j]) && !Applies(rules[j], kind, Outgoing, addr);
    ClaimedMoves(f, addr);
  }

  /** An address that was not in the network gets there. */
  lemma ClaimedMoves(f: Entry, addr: bv32)
    requires Aligned(f) && !InRange(addr, f.netmask, f.network)
    ensures Rewrite(addr, f.netmask, f.network) != addr
  {
    hide InRange, Rewrite;
    RewriteKeepsHost(addr, f.netmask, f.network);
  }

  /** Of a whole packet: both addresses of the swapped reply come back when both were rewritten on the way out. */
  lemma PacketReplyInverts(rules: seq<Entry>, source: bv32, dest: bv32)
    requires RulesAligned(rules) && RulesDisjoint(rules)
    requires FirstRule(rules, SourceKind(Outgoing), Outgoing, source).Some?
             || FirstRule(rules, SourceKind(Outgoing), Incoming, source).None?
    requires FirstRule(rules, DestKind(Outgoing), Outgoing, dest).Some?
             || FirstRule(rules, DestKind(Outgoing), Incoming, dest).None?
    ensures var source', dest' := Translate(rules, SourceKind(Outgoing), Outgoing, source),
                                  Translate(rules, DestKind(Outgoing), Outgoing, dest);
            && Translate(rules, SourceKind(Incoming), Incoming, dest') == dest
            && Translate(rules, DestKind(Incoming), Incoming, source') == source
  {
    hide Translate, FirstRule;
    ReplyInverts(rules, Snat, source);
    ReplyInverts(rules, Dnat, dest);
  }
}