/**
 DHCP option areas (RFC 2132): the message type, and the in-place removal of router options from the
 answers a TAP client sees.
 */
module Dhcp {
  import opened Bytes
  import Checksum

  const DHCP_PAD: byte := 0
  const DHCP_ROUTER: byte := 3
  const DHCP_MSG_TYPE: byte := 53
  const DHCP_END: byte := 255
  const DHCPOFFER: int := 2
  const DHCPACK: int := 5

  // ----- option areas as data -----

  datatype Item = Pad | Opt(tag: byte, payload: seq<byte>)

  predicate ItemValid(it: Item) {
    it.Opt? ==> it.tag != DHCP_PAD && it.tag != DHCP_END && |it.payload| < 256
  }

  function ItemBytes(it: Item): seq<byte>
    requires ItemValid(it)
  {
    match it
    case Pad => [DHCP_PAD]
    case Opt(tag, payload) => [tag, |payload|] + payload
  }

  ghost predicate ItemsValid(items: seq<Item>) {
    forall k :: 0 <= k < |items| ==> ItemValid(items[k])
  }

  function ItemsBytes(items: seq<Item>): seq<byte>
    requires ItemsValid(items)
  {
    if items == [] then [] else ItemBytes(items[0]) + ItemsBytes(items[1..])
  }

  datatype Area = Area(items: seq<Item>, rest: seq<byte>)

  /** The options in front, up to the end marker, the end of the area or an option that does not fit. */
  function Parse(s: seq<byte>): (a: Area)
    ensures ItemsValid(a.items)
  {
    if s == [] || s[0] == DHCP_END then Area([], s)
    else if s[0] == DHCP_PAD then
      var a := Parse(s[1..]);
      Area([Pad] + a.items, a.rest)
    else if |s| < 2 || s[1] as int + 2 > |s| then Area([], s)
    else
      var n := s[1] as int + 2;
      var a := Parse(s[n..]);
      Area([Opt(s[0], s[2..n])] + a.items, a.rest)
  }

  /** Where parsing stops: at the end of the area, at an end marker, or at an option that does not fit. */
  predicate Stops(rest: seq<byte>) {
    rest == [] || rest[0] == DHCP_END
    || (rest[0] != DHCP_PAD && (|rest| < 2 || rest[1] as int + 2 > |rest|))
  }

  lemma {:induction false} ParseStops(s: seq<byte>)
    ensures Stops(Parse(s).rest)
  {
    if s != [] && s[0] != DHCP_END {
      if s[0] == DHCP_PAD {
        ParseStops(s[1..]);
      } else if |s| >= 2 && s[1] as int + 2 <= |s| {
        ParseStops(s[s[1] as int + 2..]);
      }
    }
  }

  /** Nothing is cut off: the options run to an end marker or fill the area. */
  predicate WellFormed(s: seq<byte>) {
    var rest := Parse(s).rest;
    rest == [] || rest[0] == DHCP_END
  }

  predicate IsRouter(it: Item) {
    it.Opt? && it.tag == DHCP_ROUTER
  }

  function WithoutRouters(items: seq<Item>): (r: seq<Item>)
    ensures ItemsValid(items) ==> ItemsValid(r)
  {
    if items == [] then []
    else (if IsRouter(items[0]) then [] else [items[0]]) + WithoutRouters(items[1..])
  }

  /** Bytes taken by the router options. */
  function RouterBytes(items: seq<Item>): nat {
    if items == [] then 0
    else (if IsRouter(items[0]) then |items[0].payload| + 2 else 0) + RouterBytes(items[1..])
  }

  /** A big-endian IPv4 address. */
  function Address(b: seq<byte>): nat
    requires |b| >= 4
  {
    b[0] as int * 0x100_0000 + b[1] as int * 0x1_0000 + b[2] as int * 0x100 + b[3] as int
  }

  /** The first non-zero address at the head of a router option that holds whole addresses; `ret` if already found. */
  function RouterAddress(items: seq<Item>, ret: nat): nat {
    if ret != 0 || items == [] then ret
    else
      var it := items[0];
      RouterAddress(items[1..],
                    if IsRouter(it) && |it.payload| >= 4 && |it.payload| % 4 == 0 then Address(it.payload) else 0)
  }

  predicate IsType(it: Item) {
    it.Opt? && it.tag == DHCP_MSG_TYPE
  }

  ghost predicate HasType(items: seq<Item>) {
    exists k :: 0 <= k < |items| && IsType(items[k])
  }

  /** The first message-type option decides, and counts only with a payload of one byte; `last` without one. */
  function MessageTypeOf(items: seq<Item>, last: int): int {
    if items == [] then last
    else if IsType(items[0]) then
      if |items[0].payload| == 1 then items[0].payload[0] else -1
    else MessageTypeOf(items[1..], last)
  }

  // ----- get_dhcp_message_type -----

  function MessageTypeFrom(p: seq<byte>, i: nat): int
    decreases |p| - i
  {
    if i >= |p| || p[i] == DHCP_END then -1
    else if p[i] == DHCP_PAD then MessageTypeFrom(p, i + 1)
    else if p[i] == DHCP_MSG_TYPE then
      if |p| - i >= 3 && p[i + 1] == 1 then p[i + 2] else -1
    else if |p| - i >= 2 then MessageTypeFrom(p, i + p[i + 1] as int + 2)
    else MessageTypeFrom(p, i + 1)
  }

  method GetMessageType(p: array<byte>) returns (t: int)
    ensures t == MessageTypeFrom(p[..], 0)
  {
    var i := 0;
    while i < p.Length
      invariant 0 <= i && MessageTypeFrom(p[..], 0) == MessageTypeFrom(p[..], i)
      decreases p.Length - i
    {
      var type_ := p[i];
      var room := p.Length - i;
      if type_ == DHCP_END {
        return -1;
      } else if type_ == DHCP_PAD {
      } else if type_ == DHCP_MSG_TYPE {
        if room >= 3 {
          if p[i + 1] == 1 { return p[i + 2]; }
        }
        return -1;
      } else {
        if room >= 2 {
          var len: int := p[i + 1];
          i := i + (len + 1);
        }
      }
      i := i + 1;
    }
    return -1;
  }

  // ----- do_extract -----

  /** Bytes that are not padding. */
  function NonPad(s: seq<byte>): nat {
    if s == [] then 0 else (if s[0] == DHCP_PAD then 0 else 1) + NonPad(s[1..])
  }

  lemma {:induction false} NonPadSplit(a: seq<byte>, b: seq<byte>)
    ensures NonPad(a + b) == NonPad(a) + NonPad(b)
  {
    if a == [] {
      assert a + b == b;
    } else {
      assert (a + b)[1..] == a[1..] + b;
      NonPadSplit(a[1..], b);
    }
  }

  lemma {:induction false} NonPadOfPads(n: nat)
    ensures NonPad(Fill(DHCP_PAD, n)) == 0
  {
    if n > 0 {
      assert Fill(DHCP_PAD, n)[1..] == Fill(DHCP_PAD, n - 1);
      NonPadOfPads(n - 1);
    }
  }

  /** The area with `n` bytes at `i` removed: the rest moves up, padding fills the tail. */
  function Delete(p: seq<byte>, i: nat, n: nat): (r: seq<byte>)
    requires i + n <= |p|
    ensures |r| == |p|
  {
    p[..i] + p[i + n..] + Fill(DHCP_PAD, n)
  }

  /** A deletion does not advance, but what lies ahead loses bytes that are not padding. */
  lemma DeleteShrinks(p: seq<byte>, i: nat, n: nat)
    requires i + n <= |p| && 0 < n && p[i] != DHCP_PAD
    ensures NonPad(Delete(p, i, n)[i..]) < NonPad(p[i..])
  {
    assert Delete(p, i, n)[i..] == p[i + n..] + Fill(DHCP_PAD, n);
    NonPadSplit(p[i + n..], Fill(DHCP_PAD, n));
    NonPadOfPads(n);
    assert p[i..] == p[i..i + n] + p[i + n..];
    NonPadSplit(p[i..i + n], p[i + n..]);
  }

  lemma NonPadMonotone(p: seq<byte>, i: nat, j: nat)
    requires i <= j <= |p|
    ensures NonPad(p[j..]) <= NonPad(p[i..])
  {
    assert p[i..] == p[i..j] + p[j..];
    NonPadSplit(p[i..j], p[j..]);
  }

  datatype Extracted = Extracted(area: seq<byte>, address: nat)

  /** What the scan from `i` on leaves in the area, and the address it has found. */
  function ExtractFrom(p: seq<byte>, i: nat, ret: nat): (r: Extracted)
    requires i <= |p|
    ensures |r.area| == |p|
    decreases NonPad(p[i..]), |p| - i
  {
    if i >= |p| || p[i] == DHCP_END then Extracted(p, ret)
    else if p[i] == DHCP_PAD then
      NonPadMonotone(p, i, i + 1);
      ExtractFrom(p, i + 1, ret)
    else if |p| - i < 2 then Extracted(p, ret)
    else
      var n := p[i + 1] as int + 2;
      if i + n > |p| then Extracted(p, ret)
      else if p[i] == DHCP_ROUTER then
        DeleteShrinks(p, i, n);
        var len := n - 2;
        ExtractFrom(Delete(p, i, n), i,
                    if ret == 0 && len >= 4 && len % 4 == 0 then Address(p[i + 2..i + n]) else ret)
      else
        NonPadMonotone(p, i, i + n);
        ExtractFrom(p, i + n, ret)
  }

  lemma ExtractUnfold(p: seq<byte>, i: nat, ret: nat)
    requires i <= |p|
    ensures ExtractFrom(p, i, ret)
         == if i >= |p| || p[i] == DHCP_END then Extracted(p, ret)
            else if p[i] == DHCP_PAD then ExtractFrom(p, i + 1, ret)
            else if |p| - i < 2 || i + p[i + 1] as int + 2 > |p| then Extracted(p, ret)
            else if p[i] == DHCP_ROUTER then
              var len := p[i + 1] as int;
              ExtractFrom(Delete(p, i, len + 2), i,
                          if ret == 0 && len >= 4 && len % 4 == 0 then Address(p[i + 2..i + 2 + len]) else ret)
            else ExtractFrom(p, i + p[i + 1] as int + 2, ret)
  {
  }

  /** do_extract. The termination measure mixes what is left to scan with what is left that is not padding. */
  method DoExtract(p: array<byte>) returns (ret: nat)
    modifies p
    ensures Extracted(p[..], ret) == ExtractFrom(old(p[..]), 0, 0)
  {
    hide Delete, Address, NonPad, ExtractFrom;
    var i := 0;
    ret := 0;
    while i < p.Length
      invariant 0 <= i
      invariant i <= p.Length ==> ExtractFrom(old(p[..]), 0, 0) == ExtractFrom(p[..], i, ret)
      invariant i > p.Length ==> ExtractFrom(old(p[..]), 0, 0) == Extracted(p[..], ret)
      decreases if i <= p.Length then NonPad(p[i..]) else 0, p.Length - i
    {
      var type_ := p[i];
      var room := p.Length - i;
      ExtractUnfold(p[..], i, ret);
      assert p[i..][0] == p[i];
      if type_ == DHCP_END {
        break;
      } else if type_ == DHCP_PAD {
        NonPadMonotone(p[..], i, i + 1);
        i := i + 1;
      } else if type_ == DHCP_ROUTER {
        if room >= 2 {
          var len: int := p[i + 1];
          if len <= room - 2 {
            if ret == 0 && len >= 4 && len % 4 == 0 {
              ret := Address(p[i + 2..i + 2 + len]);
            }
            ghost var before := p[..];
            DeleteShrinks(before, i, len + 2);
            DeleteInPlace(p, i, len + 2);
          } else {
            break;
          }
        } else {
          break;
        }
      } else {
        if room >= 2 {
          var len: int := p[i + 1];
          if i + len + 2 <= p.Length { NonPadMonotone(p[..], i, i + len + 2); }
          i := i + (len + 2);
        } else {
          break;
        }
      }
    }
    if i == p.Length { ExtractUnfold(p[..], i, ret); }
  }

  /** memmove and memset of the router branch. */
  method DeleteInPlace(p: array<byte>, i: nat, owlen: nat)
    requires i + owlen <= p.Length
    modifies p
    ensures p[..] == Delete(old(p[..]), i, owlen)
  {
    ghost var before := p[..];
    var movlen := p.Length - (i + owlen);
    if movlen > 0 {
      forall k | i <= k < i + movlen { p[k] := p[k + owlen]; }
    }
    forall k | p.Length - owlen <= k < p.Length { p[k] := DHCP_PAD; }
    MovedUp(before, i, owlen, p[..]);
  }

  lemma MovedUp(p: seq<byte>, i: nat, n: nat, r: seq<byte>)
    requires i + n <= |p| == |r|
    requires forall k :: 0 <= k < i ==> r[k] == p[k]
    requires forall k :: i <= k < |p| - n ==> r[k] == p[k + n]
    requires forall k :: |p| - n <= k < |p| ==> r[k] == DHCP_PAD
    ensures r == Delete(p, i, n)
  {
  }

  // ----- deletion is a filter -----

  lemma ItemsCons(it: Item, items: seq<Item>)
    requires ItemValid(it) && ItemsValid(items)
    ensures ItemsValid([it] + items) && ItemsBytes([it] + items) == ItemBytes(it) + ItemsBytes(items)
  {
    assert ([it] + items)[1..] == items;
  }

  lemma CoverStep(it: Item, a: Area)
    requires ItemValid(it) && ItemsValid(a.items)
    ensures ItemBytes(it) + (ItemsBytes(a.items) + a.rest) == ItemsBytes([it] + a.items) + a.rest
  {
    hide ItemsBytes, ItemBytes;
    ItemsCons(it, a.items);
  }

  /** Parsing loses nothing. */
  lemma {:induction false} ParseCovers(s: seq<byte>)
    ensures s == ItemsBytes(Parse(s).items) + Parse(s).rest
  {
    hide ItemsBytes, Parse, ItemBytes;
    NoItems();
    ParseUnfold(s);
    if s != [] && s[0] == DHCP_PAD {
      ParseCovers(s[1..]);
      CoverStep(Pad, Parse(s[1..]));
      PadInFront(s);
    } else if |s| >= 2 && s[0] != DHCP_END && s[1] as int + 2 <= |s| {
      var n := s[1] as int + 2;
      ParseCovers(s[n..]);
      CoverStep(Opt(s[0], s[2..n]), Parse(s[n..]));
      OptInFront(s);
    }
  }

  lemma ParseUnfold(s: seq<byte>)
    ensures if s != [] && s[0] == DHCP_PAD then
              Parse(s) == Area([Pad] + Parse(s[1..]).items, Parse(s[1..]).rest)
            else if |s| >= 2 && s[0] != DHCP_END && s[1] as int + 2 <= |s| then
              var n := s[1] as int + 2;
              Parse(s) == Area([Opt(s[0], s[2..n])] + Parse(s[n..]).items, Parse(s[n..]).rest)
            else Parse(s) == Area([], s)
  {
  }

  lemma PadInFront(s: seq<byte>)
    requires s != [] && s[0] == DHCP_PAD
    ensures s == ItemBytes(Pad) + s[1..]
  {
  }

  lemma OptInFront(s: seq<byte>)
    requires |s| >= 2 && s[0] != DHCP_PAD && s[0] != DHCP_END && s[1] as int + 2 <= |s|
    ensures var n := s[1] as int + 2;
            s == ItemBytes(Opt(s[0], s[2..n])) + s[n..]
  {
    var n := s[1] as int + 2;
    assert s == ([s[0], s[1]] + s[2..n]) + s[n..];
  }

  lemma NoItems()
    ensures ItemsBytes([]) == []
  {
  }

  lemma ParseEnd(rest: seq<byte>)
    requires rest == [] || rest[0] == DHCP_END
    ensures Parse(rest) == Area([], rest)
  {
  }

  lemma ParseHead(it: Item, after: seq<byte>)
    requires ItemValid(it)
    ensures Parse(ItemBytes(it) + after) == Area([it] + Parse(after).items, Parse(after).rest)
  {
    hide ItemBytes;
    assert [] + ItemBytes(it) + after == ItemBytes(it) + after;
    ItemAt([], it, after, ItemBytes(it) + after, 0);
  }

  /** Printing and parsing again gives the same options. */
  lemma {:induction false} ParseInverts(items: seq<Item>, rest: seq<byte>)
    requires ItemsValid(items) && (rest == [] || rest[0] == DHCP_END)
    ensures Parse(ItemsBytes(items) + rest) == Area(items, rest)
  {
    hide Parse, ItemBytes, ItemsBytes;
    if items == [] {
      NoItems();
      assert ItemsBytes(items) + rest == rest;
      ParseEnd(rest);
    } else {
      ItemsUnfold(items);
      ParseHead(items[0], ItemsBytes(items[1..]) + rest);
      assert ItemsBytes(items) + rest == ItemBytes(items[0]) + (ItemsBytes(items[1..]) + rest);
      ParseInverts(items[1..], rest);
      assert items == [items[0]] + items[1..];
    }
  }

  /** Padding ahead changes nothing. */
  lemma {:induction false} ExtractPads(pre: seq<byte>, n: nat, ret: nat)
    ensures ExtractFrom(pre + Fill(DHCP_PAD, n), |pre|, ret) == Extracted(pre + Fill(DHCP_PAD, n), ret)
    decreases n
  {
    if n > 0 {
      var s := pre + Fill(DHCP_PAD, n);
      assert s == (pre + [DHCP_PAD]) + Fill(DHCP_PAD, n - 1);
      ExtractPads(pre + [DHCP_PAD], n - 1, ret);
    }
  }

  /** How an item reads in the middle of an area. */
  lemma ItemAt(pre: seq<byte>, it: Item, after: seq<byte>, s: seq<byte>, i: nat)
    requires ItemValid(it) && s == pre + ItemBytes(it) + after && i == |pre|
    ensures |s| == i + |ItemBytes(it)| + |after|
    ensures it.Pad? ==> |ItemBytes(it)| == 1 && s[i] == DHCP_PAD
    ensures it.Opt? ==> |ItemBytes(it)| == |it.payload| + 2 && s[i] == it.tag && s[i + 1] as int == |it.payload|
                        && s[i + 2..i + |ItemBytes(it)|] == it.payload
                        && (|it.payload| > 0 ==> s[i + 2] == it.payload[0])
    ensures s[..i] == pre && s[i + |ItemBytes(it)|..] == after
  {
    var head := ItemBytes(it);
    assert forall k :: 0 <= k < |head| ==> s[i + k] == head[k];
    if it.Opt? { assert s[i] == head[0] && s[i + 1] == head[1] && head[2..] == it.payload; }
  }

  /** One step of the scan. */
  lemma ExtractStep(pre: seq<byte>, it: Item, after: seq<byte>, ret: nat)
    requires ItemValid(it)
    ensures var s, n := pre + ItemBytes(it) + after, |ItemBytes(it)|;
            ExtractFrom(s, |pre|, ret)
            == if IsRouter(it) then
                 ExtractFrom(pre + after + Fill(DHCP_PAD, n), |pre|, FoundAddress(it, ret))
               else ExtractFrom(s, |pre| + n, ret)
  {
    hide ItemBytes;
    var s, n := pre + ItemBytes(it) + after, |ItemBytes(it)|;
    ItemAt(pre, it, after, s, |pre|);
  }

  /** The area while the scan stands behind `pre`, with `n` bytes of padding behind the end. */
  function Scanned(pre: seq<byte>, items: seq<Item>, rest: seq<byte>, n: nat): (s: seq<byte>)
    requires ItemsValid(items)
    ensures |pre| <= |s|
  {
    pre + ItemsBytes(items) + rest + Fill(DHCP_PAD, n)
  }

  /** The length byte of a cut-off option; the first byte of padding when it is missing. */
  function CutLength(rest: seq<byte>): byte {
    if |rest| >= 2 then rest[1] else DHCP_PAD
  }

  /** With `n` bytes of padding behind it a router option that was cut off is whole. */
  predicate Swallowed(rest: seq<byte>, n: nat) {
    rest != [] && rest[0] == DHCP_ROUTER && n > 0 && CutLength(rest) as int + 2 <= |rest| + n
  }

  /** The router option that is then seen: what was left of it, filled up with padding. */
  function Completed(rest: seq<byte>, n: nat): (it: Item)
    requires Swallowed(rest, n)
    ensures IsRouter(it) && ItemValid(it)
  {
    Opt(DHCP_ROUTER, (rest + Fill(DHCP_PAD, n))[2..CutLength(rest) as int + 2])
  }

  /** What is left with padding of `n` bytes when the scan reaches `rest` behind `front`, `found` the address so far. */
  function Ending(front: seq<byte>, rest: seq<byte>, n: nat, found: nat): Extracted {
    if Swallowed(rest, n) then Extracted(front + Fill(DHCP_PAD, |rest| + n), FoundAddress(Completed(rest, n), found))
    else Extracted(front + rest + Fill(DHCP_PAD, n), found)
  }

  /** What the scan will make of it. */
  function Outcome(pre: seq<byte>, items: seq<Item>, rest: seq<byte>, n: nat, ret: nat): Extracted
    requires ItemsValid(items)
  {
    Ending(pre + ItemsBytes(WithoutRouters(items)), rest, n + RouterBytes(items), RouterAddress(items, ret))
  }

  /** The scan over any area keeps the options that are not router options; what is cut off may go too. */
  lemma {:induction false} ExtractIsFilter(pre: seq<byte>, items: seq<Item>, rest: seq<byte>, n: nat, ret: nat)
    requires ItemsValid(items) && Stops(rest)
    ensures ExtractFrom(Scanned(pre, items, rest, n), |pre|, ret) == Outcome(pre, items, rest, n, ret)
    decreases items
  {
    hide ExtractFrom, ItemBytes, Outcome, Scanned, Address, Stops;
    if items == [] {
      ExtractEnd(pre, rest, n, ret);
    } else {
      var it, tail := items[0], items[1..];
      if IsRouter(it) {
        RouterScanned(pre, items, rest, n, ret);
        ExtractIsFilter(pre, tail, rest, n + |ItemBytes(it)|, FoundAddress(it, ret));
      } else {
        KeptScanned(pre, items, rest, n, ret);
        ExtractIsFilter(pre + ItemBytes(it), tail, rest, n, ret);
      }
    }
  }

  /** The address known once a router option has been seen. */
  function FoundAddress(it: Item, ret: nat): nat {
    if it.Opt? && ret == 0 && |it.payload| >= 4 && |it.payload| % 4 == 0 then Address(it.payload) else ret
  }

  /** Deleting a router option in front. */
  lemma RouterScanned(pre: seq<byte>, items: seq<Item>, rest: seq<byte>, n: nat, ret: nat)
    requires ItemsValid(items) && items != [] && IsRouter(items[0])
    ensures var m, ret' := n + |ItemBytes(items[0])|, FoundAddress(items[0], ret);
            && ExtractFrom(Scanned(pre, items, rest, n), |pre|, ret)
               == ExtractFrom(Scanned(pre, items[1..], rest, m), |pre|, ret')
            && Outcome(pre, items, rest, n, ret) == Outcome(pre, items[1..], rest, m, ret')
  {
    hide ExtractFrom, ItemBytes, ItemsBytes, RouterAddress, RouterBytes, WithoutRouters, FoundAddress, Scanned,
         Ending;
    var head, tail, pads := ItemBytes(items[0]), items[1..], Fill(DHCP_PAD, n);
    var after := ItemsBytes(tail) + rest + pads;
    ScannedHead(pre, items, rest, n);
    ExtractStep(pre, items[0], after, ret);
    ScannedLonger(pre, tail, rest, n, |head|);
    RouterStep(items, ret);
  }

  lemma ScannedHead(pre: seq<byte>, items: seq<Item>, rest: seq<byte>, n: nat)
    requires ItemsValid(items) && items != []
    ensures var head, after := ItemBytes(items[0]), ItemsBytes(items[1..]) + rest + Fill(DHCP_PAD, n);
            Scanned(pre, items, rest, n) == pre + head + after == Scanned(pre + head, items[1..], rest, n)
  {
    hide ItemBytes, ItemsBytes;
    ItemsUnfold(items);
  }

  lemma ScannedLonger(pre: seq<byte>, items: seq<Item>, rest: seq<byte>, n: nat, m: nat)
    requires ItemsValid(items)
    ensures pre + (ItemsBytes(items) + rest + Fill(DHCP_PAD, n)) + Fill(DHCP_PAD, m) == Scanned(pre, items, rest, n + m)
  {
    hide ItemsBytes;
    FillJoin(n, m);
  }

  /** Passing over any other option in front. */
  lemma KeptScanned(pre: seq<byte>, items: seq<Item>, rest: seq<byte>, n: nat, ret: nat)
    requires ItemsValid(items) && items != [] && !IsRouter(items[0])
    ensures var pre' := pre + ItemBytes(items[0]);
            && ExtractFrom(Scanned(pre, items, rest, n), |pre|, ret)
               == ExtractFrom(Scanned(pre', items[1..], rest, n), |pre'|, ret)
            && Outcome(pre, items, rest, n, ret) == Outcome(pre', items[1..], rest, n, ret)
  {
    hide ExtractFrom, ItemBytes, ItemsBytes, RouterAddress, RouterBytes, WithoutRouters, FoundAddress, Ending;
    ScannedHead(pre, items, rest, n);
    ExtractStep(pre, items[0], ItemsBytes(items[1..]) + rest + Fill(DHCP_PAD, n), ret);
    KeptStep(pre, items, ret);
  }

  lemma ItemsUnfold(items: seq<Item>)
    requires ItemsValid(items) && items != []
    ensures ItemsBytes(items) == ItemBytes(items[0]) + ItemsBytes(items[1..])
  {
  }

  lemma ExtractEnd(pre: seq<byte>, rest: seq<byte>, n: nat, ret: nat)
    requires Stops(rest)
    ensures ExtractFrom(Scanned(pre, [], rest, n), |pre|, ret) == Outcome(pre, [], rest, n, ret)
  {
    hide ExtractFrom, Address, Completed;
    var s := Scanned(pre, [], rest, n);
    ExtractUnfold(s, |pre|, ret);
    assert s == pre + (rest + Fill(DHCP_PAD, n));
    if rest == [] {
      assert s == pre + Fill(DHCP_PAD, n);
      ExtractPads(pre, n, ret);
    } else {
      assert s[|pre|] == rest[0];
      if rest[0] != DHCP_END && n > 0 {
        if Swallowed(rest, n) {
          CutOffDeleted(pre, rest, n, ret);
        } else {
          CutOffSkipped(pre, rest, n, ret);
        }
      }
    }
  }

  /** The two bytes a scan looks at when it reaches a cut-off option with padding behind it. */
  lemma CutOffHead(pre: seq<byte>, rest: seq<byte>, n: nat)
    requires rest != [] && n > 0
    ensures var t := rest + Fill(DHCP_PAD, n);
            |t| == |rest| + n && (pre + t)[|pre|] == rest[0] && (pre + t)[|pre| + 1] == CutLength(rest)
  {
    var t := rest + Fill(DHCP_PAD, n);
    assert (pre + t)[|pre|] == t[0] && (pre + t)[|pre| + 1] == t[1];
  }

  lemma CompletedBytes(rest: seq<byte>, n: nat)
    requires Stops(rest) && Swallowed(rest, n)
    ensures var it, left := Completed(rest, n), |rest| + n - CutLength(rest) as int - 2;
            |ItemBytes(it)| == |it.payload| + 2 == |rest| + n - left
            && rest + Fill(DHCP_PAD, n) == ItemBytes(it) + Fill(DHCP_PAD, left)
  {
    CutOffHead([], rest, n);
    var t, len, left := rest + Fill(DHCP_PAD, n), CutLength(rest) as int + 2, |rest| + n - CutLength(rest) as int - 2;
    assert [] + t == t;
    assert t[len..] == Fill(DHCP_PAD, left);
    hide Fill, Stops, CutLength;
    assert t == [t[0], t[1]] + t[2..len] + t[len..];
  }

  /** A router option with nothing but padding behind it leaves padding. */
  lemma RouterBeforePads(pre: seq<byte>, it: Item, n: nat, ret: nat)
    requires ItemValid(it) && IsRouter(it)
    ensures ExtractFrom(pre + (ItemBytes(it) + Fill(DHCP_PAD, n)), |pre|, ret)
         == Extracted(pre + Fill(DHCP_PAD, |ItemBytes(it)| + n), FoundAddress(it, ret))
  {
    hide ExtractFrom, ItemBytes, FoundAddress;
    var head, pads := ItemBytes(it), Fill(DHCP_PAD, n);
    var m: nat, ret' := |head| + n, FoundAddress(it, ret);
    var s, area := pre + head + pads, pre + Fill(DHCP_PAD, m);
    assert pre + (head + pads) == s;
    assert pre + pads + Fill(DHCP_PAD, |head|) == area;
    assert ExtractFrom(s, |pre|, ret) == ExtractFrom(area, |pre|, ret') by { ExtractStep(pre, it, pads, ret); }
    assert ExtractFrom(area, |pre|, ret') == Extracted(area, ret') by { ExtractPads(pre, m, ret'); }
  }

  /** A router option that the padding makes whole is deleted. */
  lemma CutOffDeleted(pre: seq<byte>, rest: seq<byte>, n: nat, ret: nat)
    requires Stops(rest) && Swallowed(rest, n)
    ensures ExtractFrom(pre + (rest + Fill(DHCP_PAD, n)), |pre|, ret)
         == Extracted(pre + Fill(DHCP_PAD, |rest| + n), FoundAddress(Completed(rest, n), ret))
  {
    hide ExtractFrom, ItemBytes, Stops, FoundAddress;
    var it, left := Completed(rest, n), |rest| + n - CutLength(rest) as int - 2;
    CompletedBytes(rest, n);
    hide Completed, Swallowed;
    RouterBeforePads(pre, it, left, ret);
  }

  /** Any other cut-off option is skipped, or ends the scan. */
  lemma CutOffSkipped(pre: seq<byte>, rest: seq<byte>, n: nat, ret: nat)
    requires Stops(rest) && rest != [] && rest[0] != DHCP_END && n > 0 && !Swallowed(rest, n)
    ensures var s := pre + (rest + Fill(DHCP_PAD, n));
            ExtractFrom(s, |pre|, ret) == Extracted(s, ret)
  {
    var t, len := rest + Fill(DHCP_PAD, n), CutLength(rest) as int + 2;
    CutOffHead(pre, rest, n);
    var s := pre + t;
    if len <= |t| {
      var over, left := pre + t[..len], |t| - len;
      assert s == over + Fill(DHCP_PAD, left);
      ExtractPads(over, left, ret);
    }
  }

  lemma FillJoin(n: nat, m: nat)
    ensures Fill(DHCP_PAD, n) + Fill(DHCP_PAD, m) == Fill(DHCP_PAD, n + m)
  {
  }

  lemma RouterStep(items: seq<Item>, ret: nat)
    requires items != [] && IsRouter(items[0])
    ensures WithoutRouters(items) == WithoutRouters(items[1..])
    ensures ItemValid(items[0]) ==> RouterBytes(items) == |ItemBytes(items[0])| + RouterBytes(items[1..])
    ensures RouterAddress(items, ret) == RouterAddress(items[1..], FoundAddress(items[0], ret))
  {
  }

  lemma KeptStep(pre: seq<byte>, items: seq<Item>, ret: nat)
    requires ItemsValid(items) && items != [] && !IsRouter(items[0])
    ensures RouterBytes(items) == RouterBytes(items[1..])
    ensures RouterAddress(items, ret) == RouterAddress(items[1..], ret)
    ensures (pre + ItemBytes(items[0])) + ItemsBytes(WithoutRouters(items[1..]))
         == pre + ItemsBytes(WithoutRouters(items))
  {
    var r := WithoutRouters(items);
    assert r == [items[0]] + WithoutRouters(items[1..]);
    assert r[1..] == WithoutRouters(items[1..]);
  }

  lemma MessageTypeUnfold(p: seq<byte>, i: nat)
    ensures MessageTypeFrom(p, i)
         == if i >= |p| || p[i] == DHCP_END then -1
            else if p[i] == DHCP_PAD then MessageTypeFrom(p, i + 1)
            else if p[i] == DHCP_MSG_TYPE then if |p| - i >= 3 && p[i + 1] == 1 then p[i + 2] else -1
            else if |p| - i >= 2 then MessageTypeFrom(p, i + p[i + 1] as int + 2)
            else MessageTypeFrom(p, i + 1)
  {
  }

  lemma MessageTypeStep(pre: seq<byte>, it: Item, after: seq<byte>)
    requires ItemValid(it)
    ensures var s := pre + ItemBytes(it) + after;
            MessageTypeFrom(s, |pre|)
            == if it.Opt? && it.tag == DHCP_MSG_TYPE then if |it.payload| == 1 then it.payload[0] else -1
               else MessageTypeFrom(s, |pre| + |ItemBytes(it)|)
  {
    hide ItemBytes, MessageTypeFrom;
    var s := pre + ItemBytes(it) + after;
    ItemAt(pre, it, after, s, |pre|);
    MessageTypeUnfold(s, |pre|);
  }

  /** The message type is that of the options; without one the scan goes on behind them. */
  lemma {:induction false} MessageTypeOfParsed(pre: seq<byte>, items: seq<Item>, rest: seq<byte>, last: int)
    requires ItemsValid(items)
    requires MessageTypeFrom(pre + ItemsBytes(items) + rest, |pre| + |ItemsBytes(items)|) == last
    ensures MessageTypeFrom(pre + ItemsBytes(items) + rest, |pre|) == MessageTypeOf(items, last)
    decreases items
  {
    hide ItemBytes, MessageTypeFrom;
    if items != [] {
      var s, head := pre + ItemsBytes(items) + rest, ItemBytes(items[0]);
      assert s == pre + head + (ItemsBytes(items[1..]) + rest);
      MessageTypeStep(pre, items[0], ItemsBytes(items[1..]) + rest);
      assert s == (pre + head) + ItemsBytes(items[1..]) + rest;
      MessageTypeOfParsed(pre + head, items[1..], rest, last);
    }
  }

  lemma MessageTypeCons(it: Item, items: seq<Item>, last: int)
    ensures MessageTypeOf([it] + items, last)
         == if IsType(it) then if |it.payload| == 1 then it.payload[0] else -1 else MessageTypeOf(items, last)
  {
    assert ([it] + items)[1..] == items;
  }

  lemma {:induction false} RoutersDoNotMatter(items: seq<Item>, last: int)
    ensures MessageTypeOf(WithoutRouters(items), last) == MessageTypeOf(items, last)
  {
    if items != [] {
      hide MessageTypeOf;
      var it, others := items[0], WithoutRouters(items[1..]);
      RoutersDoNotMatter(items[1..], last);
      assert items == [it] + items[1..];
      MessageTypeCons(it, items[1..], last);
      MessageTypeCons(it, others, last);
      assert WithoutRouters(items) == if IsRouter(it) then others else [it] + others;
    }
  }

  lemma {:induction false} NoTypeInPads(pre: seq<byte>, n: nat, i: nat)
    requires i >= |pre|
    ensures MessageTypeFrom(pre + Fill(DHCP_PAD, n), i) == -1
    decreases |pre| + n - i
  {
    if i < |pre| + n { NoTypeInPads(pre, n, i + 1); }
  }

  /** Behind the options: a type option whose one byte was cut off has it made up by the padding. */
  lemma TypeAtStop(pre: seq<byte>, rest: seq<byte>, n: nat)
    requires Stops(rest)
    ensures MessageTypeFrom(pre + rest + Fill(DHCP_PAD, n), |pre|)
         == if rest == [DHCP_MSG_TYPE, 1] && n > 0 then 0 else -1
  {
    var s := pre + rest + Fill(DHCP_PAD, n);
    assert forall k :: 0 <= k < |rest| ==> s[|pre| + k] == rest[k];
    assert n > 0 ==> s[|pre| + |rest|] == DHCP_PAD;
    forall i | i >= |pre| + |rest| ensures MessageTypeFrom(s, i) == -1 {
      NoTypeInPads(pre + rest, n, i);
    }
    MessageTypeUnfold(s, |pre|);
  }

  /** The type of an area that holds options, then `rest`, then padding. */
  lemma TypeOfArea(items: seq<Item>, rest: seq<byte>, n: nat)
    requires ItemsValid(items) && Stops(rest)
    ensures MessageTypeFrom(ItemsBytes(items) + rest + Fill(DHCP_PAD, n), 0)
         == MessageTypeOf(items, if rest == [DHCP_MSG_TYPE, 1] && n > 0 then 0 else -1)
  {
    hide ItemsBytes, MessageTypeFrom, MessageTypeOf, Stops;
    var s := ItemsBytes(items) + rest + Fill(DHCP_PAD, n);
    TypeAtStop(ItemsBytes(items), rest, n);
    assert s == [] + ItemsBytes(items) + (rest + Fill(DHCP_PAD, n));
    MessageTypeOfParsed([], items, rest + Fill(DHCP_PAD, n), if rest == [DHCP_MSG_TYPE, 1] && n > 0 then 0 else -1);
  }

  lemma {:induction false} LastCounts(items: seq<Item>, x: int, y: int)
    ensures if HasType(items) then MessageTypeOf(items, x) == MessageTypeOf(items, y)
            else MessageTypeOf(items, x) == x && MessageTypeOf(items, y) == y
  {
    if items != [] {
      LastCounts(items[1..], x, y);
      assert forall k :: 1 <= k < |items| ==> items[k] == items[1..][k - 1];
      assert HasType(items[1..]) ==> HasType(items) by {
        if HasType(items[1..]) {
          var k :| 0 <= k < |items[1..]| && IsType(items[1..][k]);
          assert IsType(items[k + 1]);
        }
      }
    }
  }

  /** Padding behind an area that is not ended by a marker reads as pad options. */
  function PadItems(n: nat): (r: seq<Item>)
    ensures |r| == n && forall k :: 0 <= k < n ==> r[k] == Pad
  {
    seq(n, _ => Pad)
  }

  lemma {:induction false} PadBytes(items: seq<Item>, n: nat)
    requires ItemsValid(items)
    ensures ItemsBytes(items + PadItems(n)) == ItemsBytes(items) + Fill(DHCP_PAD, n)
  {
    var all := items + PadItems(n);
    if items == [] {
      if n > 0 {
        assert all[1..] == [] + PadItems(n - 1);
        PadBytes([], n - 1);
        assert Fill(DHCP_PAD, n) == [DHCP_PAD] + Fill(DHCP_PAD, n - 1);
      }
    } else {
      assert all[1..] == items[1..] + PadItems(n);
      PadBytes(items[1..], n);
    }
  }

  lemma ExtractedArea(s: seq<byte>)
    ensures Stops(Parse(s).rest) && ExtractFrom(s, 0, 0) == Outcome([], Parse(s).items, Parse(s).rest, 0, 0)
  {
    hide ItemsBytes, ExtractFrom, Outcome, Stops, Parse;
    var a := Parse(s);
    ParseCovers(s);
    ParseStops(s);
    ExtractIsFilter([], a.items, a.rest, 0, 0);
    assert [] + ItemsBytes(a.items) + a.rest + Fill(DHCP_PAD, 0) == s;
  }

  /**
   On any area: the options that are no router options stay, in order, then what is cut off or stands
   behind the end marker, then the padding. This holds exactly unless that padding makes a cut-off router
   option whole: then that goes too, and an address read from it counts if none was found before.
   */
  lemma ExtractsExactly(s: seq<byte>)
    ensures var a, r := Parse(s), ExtractFrom(s, 0, 0);
            var kept, n, found := ItemsBytes(WithoutRouters(a.items)), RouterBytes(a.items), RouterAddress(a.items, 0);
            && (r.area == kept + a.rest + Fill(DHCP_PAD, n) <==> !Swallowed(a.rest, n))
            && (Swallowed(a.rest, n) ==> r.area == kept + Fill(DHCP_PAD, |a.rest| + n))
            && r.address == if Swallowed(a.rest, n) then FoundAddress(Completed(a.rest, n), found) else found
  {
    hide ItemsBytes, ExtractFrom, WithoutRouters, RouterAddress, RouterBytes, FoundAddress, Completed, Parse, Stops;
    var a := Parse(s);
    ExtractedArea(s);
    var kept, n := ItemsBytes(WithoutRouters(a.items)), RouterBytes(a.items);
    assert [] + kept == kept;
    if Swallowed(a.rest, n) {
      assert (kept + Fill(DHCP_PAD, |a.rest| + n))[|kept|] == DHCP_PAD;
      assert (kept + a.rest + Fill(DHCP_PAD, n))[|kept|] == DHCP_ROUTER;
    }
  }

  /**
   The message type is that of the options, and stays: only a type option that was cut off behind its
   length byte of 1, with no other ahead, has 0 for a type once there is padding.
   */
  lemma TypeStays(s: seq<byte>)
    ensures var a, before, after := Parse(s), MessageTypeFrom(s, 0), MessageTypeFrom(ExtractFrom(s, 0, 0).area, 0);
            && before == MessageTypeOf(a.items, -1)
            && (before == after <==> !(a.rest == [DHCP_MSG_TYPE, 1] && RouterBytes(a.items) > 0 && !HasType(a.items)))
            && (before == after || (before == -1 && after == 0))
  {
    hide ItemsBytes, ExtractFrom, WithoutRouters, RouterAddress, RouterBytes, FoundAddress, Completed, Parse, Stops,
         MessageTypeFrom, MessageTypeOf, HasType;
    var a := Parse(s);
    var kept, n := WithoutRouters(a.items), RouterBytes(a.items);
    ExtractedArea(s);
    ExtractsExactly(s);
    ParseCovers(s);
    assert s == ItemsBytes(a.items) + a.rest + Fill(DHCP_PAD, 0);
    TypeOfArea(a.items, a.rest, 0);
    NothingStops();
    if Swallowed(a.rest, n) {
      assert ItemsBytes(kept) + [] + Fill(DHCP_PAD, |a.rest| + n) == ItemsBytes(kept) + Fill(DHCP_PAD, |a.rest| + n);
      TypeOfArea(kept, [], |a.rest| + n);
    } else {
      TypeOfArea(kept, a.rest, n);
    }
    RoutersDoNotMatter(a.items, -1);
    RoutersDoNotMatter(a.items, 0);
    LastCounts(a.items, -1, 0);
  }

  lemma NothingStops()
    ensures Stops([])
  {
  }

  /** How the filtered area parses: what is behind an end marker stays there, bare padding becomes pad options. */
  lemma FilteredParse(items: seq<Item>, rest: seq<byte>)
    requires ItemsValid(items) && (rest == [] || rest[0] == DHCP_END)
    ensures var kept, n := WithoutRouters(items), RouterBytes(items);
            Parse(ItemsBytes(kept) + rest + Fill(DHCP_PAD, n))
            == if rest == [] then Area(kept + PadItems(n), []) else Area(kept, rest + Fill(DHCP_PAD, n))
  {
    hide ItemsBytes, WithoutRouters, RouterBytes, Parse;
    var kept, n := WithoutRouters(items), RouterBytes(items);
    if rest == [] {
      PadBytes(kept, n);
      assert ItemsBytes(kept) + rest + Fill(DHCP_PAD, n) == ItemsBytes(kept + PadItems(n)) + [];
      ParseInverts(kept + PadItems(n), []);
    } else {
      assert ItemsBytes(kept) + rest + Fill(DHCP_PAD, n) == ItemsBytes(kept) + (rest + Fill(DHCP_PAD, n));
      ParseInverts(kept, rest + Fill(DHCP_PAD, n));
    }
  }

  /**
   On a well-formed area: the options left are the old ones without the routers, in order and with
   their payloads; what stood behind the end marker is kept; the length and the message type do not
   change; the address is the first non-zero one of a router option that holds whole addresses.
   */
  lemma ExtractFilters(s: seq<byte>)
    requires WellFormed(s)
    ensures var a, r := Parse(s), ExtractFrom(s, 0, 0);
            && |r.area| == |s|
            && r.address == RouterAddress(a.items, 0)
            && WellFormed(r.area)
            && Parse(r.area) == (if a.rest == [] then Area(WithoutRouters(a.items) + PadItems(RouterBytes(a.items)), [])
                                 else Area(WithoutRouters(a.items), a.rest + Fill(DHCP_PAD, RouterBytes(a.items))))
            && MessageTypeFrom(r.area, 0) == MessageTypeFrom(s, 0)
  {
    hide ItemsBytes, MessageTypeFrom, WithoutRouters, RouterAddress, RouterBytes, ExtractFrom, Parse;
    var a := Parse(s);
    ExtractsExactly(s);
    TypeStays(s);
    FilteredParse(a.items, a.rest);
  }

  /** A router option that names an address: whole addresses, the first of them not zero. */
  predicate Names(it: Item) {
    it.Opt? && it.tag == 3 && |it.payload| >= 4 && |it.payload| % 4 == 0 && FromBigEndian(it.payload[..4]) != 0
  }

  lemma AddressReads(b: seq<byte>)
    requires |b| >= 4
    ensures Address(b) == FromBigEndian(b[..4])
  {
    assert b[..4][..3] == b[..3] && b[..3][..2] == b[..2] && b[..2][..1] == b[..1] && b[..1][..0] == [];
    assert FromBigEndian(b[..1]) == b[0] as int;
    assert FromBigEndian(b[..2]) == FromBigEndian(b[..1]) * 256 + b[1] as int;
    assert FromBigEndian(b[..3]) == FromBigEndian(b[..2]) * 256 + b[2] as int;
  }

  lemma {:induction false} FirstNamed(items: seq<Item>, k: nat)
    requires k <= |items| && forall j | 0 <= j < k :: !Names(items[j])
    requires k < |items| ==> Names(items[k])
    ensures RouterAddress(items, 0) == if k < |items| then FromBigEndian(items[k].payload[..4]) else 0
  {
    hide Address, FromBigEndian;
    if items != [] {
      var it := items[0];
      if IsRouter(it) && |it.payload| >= 4 { AddressReads(it.payload); }
      if k > 0 {
        FirstNamed(items[1..], k - 1);
      }
    }
  }

  /** The address returned is that of the first option that names one, in network order; 0 when none does. */
  lemma AddressFound(s: seq<byte>, k: nat)
    requires WellFormed(s) && k <= |Parse(s).items| && forall j | 0 <= j < k :: !Names(Parse(s).items[j])
    requires k < |Parse(s).items| ==> Names(Parse(s).items[k])
    ensures ExtractFrom(s, 0, 0).address
         == if k < |Parse(s).items| then FromBigEndian(Parse(s).items[k].payload[..4]) else 0
  {
    hide ItemsBytes, MessageTypeFrom, WithoutRouters, RouterAddress, RouterBytes, ExtractFrom, Parse, WellFormed, Names;
    ExtractFilters(s);
    FirstNamed(Parse(s).items, k);
  }

  lemma {:induction false} NoRoutersLeft(items: seq<Item>)
    ensures forall k :: 0 <= k < |WithoutRouters(items)| ==> !IsRouter(WithoutRouters(items)[k])
  {
    if items != [] { NoRoutersLeft(items[1..]); }
  }

  /** Such an area: behind a deleted option the padding completes a router option that was cut off. */
  lemma CutOffRouterSwallowed()
    ensures var s: seq<byte> := [3, 0, 3, 2, 9];
            Parse(s).rest == [3, 2, 9] && ExtractFrom(s, 0, 0).area == [0, 0, 0, 0, 0]
  {
    var s: seq<byte> := [3, 0, 3, 2, 9];
    assert s[2..] == [3, 2, 9];
    assert Delete(s, 0, 2) == [3, 2, 9, 0, 0];
    assert Delete([3, 2, 9, 0, 0], 0, 4) == [0, 0, 0, 0, 0];
    ExtractPads([], 5, 0);
    assert [] + Fill(DHCP_PAD, 5) == [0, 0, 0, 0, 0];
  }

  // ----- dhcp_extract_router_msg -----

  const OPENVPN_IPPROTO_UDP: byte := 17
  const BOOTPS_PORT: byte := 67
  const BOOTPC_PORT: byte := 68
  const BOOTREPLY: byte := 2
  const UDP_AT: nat := 20
  const CHECK_AT: nat := 26
  /** The headers of IP (20 bytes), UDP (8) and DHCP (240, with the magic cookie). */
  const OPTIONS_AT: nat := 268

  /** A packet is held in two parts: the IP, UDP and DHCP headers, and the options, which need those in front. */
  predicate Packet(header: seq<byte>, options: seq<byte>) {
    |header| <= OPTIONS_AT && (|header| < OPTIONS_AT ==> options == [])
  }

  /** The words the checksum of the packet covers. */
  function Covered(header: seq<byte>, options: seq<byte>): seq<Checksum.u16>
    requires |header| == OPTIONS_AT
  {
    Checksum.Covered(header[12..16], header[16..20], OPENVPN_IPPROTO_UDP, header[UDP_AT..] + options)
  }

  function Unchecked(header: seq<byte>): (r: seq<byte>)
    requires |header| == OPTIONS_AT
    ensures |r| == OPTIONS_AT
  {
    header[CHECK_AT := 0][CHECK_AT + 1 := 0]
  }

  /** The header with the checksum computed anew. */
  function Rechecked(header: seq<byte>, options: seq<byte>): (r: seq<byte>)
    requires |header| == OPTIONS_AT
    ensures |r| == OPTIONS_AT
  {
    var c := 0xFFFF - Checksum.Fold(Checksum.Total(Covered(Unchecked(header), options)) % U32);
    header[CHECK_AT := c / 256][CHECK_AT + 1 := c % 256]
  }

  /**
   Whatever stood in the checksum field, the new one verifies, for packets of up to 65535 bytes; beyond,
   exactly when what the 32-bit sum lost is a multiple of 65535.
   */
  lemma RecheckedVerifies(header: seq<byte>, options: seq<byte>)
    requires |header| == OPTIONS_AT
    ensures var lost := Checksum.Total(Covered(Unchecked(header), options)) / U32;
            && (Checksum.Verifies(Covered(Rechecked(header, options), options)) <==> lost % 0xFFFF == 0)
            && (|header| + |options| <= 0xFFFF ==> lost == 0)
  {
    hide Checksum.Covered, Checksum.Total, Checksum.Verifies, Checksum.Fold;
    var h := Unchecked(header);
    var segment := h[UDP_AT..] + options;
    var c := 0xFFFF - Checksum.Fold(Checksum.Total(Covered(h, options)) % U32);
    Checksum.ChecksumVerifies(h[12..16], h[16..20], OPENVPN_IPPROTO_UDP, segment, CHECK_AT - UDP_AT);
    var r := Rechecked(header, options);
    assert r[12..16] == h[12..16] && r[16..20] == h[16..20];
    assert r[UDP_AT..] + options == Checksum.WithChecksum(segment, CHECK_AT - UDP_AT, c);
  }

  /** Recomputing the checksum. */
  method Recheck(header: array<byte>, options: array<byte>)
    requires header != options && header.Length == OPTIONS_AT
    modifies header
    ensures header[..] == Rechecked(old(header[..]), options[..])
  {
    hide Checksum.Fold, Checksum.Covered, Checksum.Total;
    ghost var before := header[..];
    header[CHECK_AT], header[CHECK_AT + 1] := 0, 0;
    assert header[..] == Unchecked(before);
    var c := Checksum.IpChecksum(header[UDP_AT..] + options[..], header[12..16], header[16..20], OPENVPN_IPPROTO_UDP);
    header[CHECK_AT], header[CHECK_AT + 1] := c / 256, c % 256;
  }

  /** dhcp_extract_router_msg: on UDP packets from port 67 to port 68 with a whole BOOTP reply header. */
  method ExtractRouterMsg(header: array<byte>, options: array<byte>) returns (address: nat)
    requires header != options && Packet(header[..], options[..])
    modifies header, options
    ensures var h, s := old(header[..]), old(options[..]);
            var reply := |h| == OPTIONS_AT && h[9] == 17 && h[20..24] == [0, 67, 0, 68] && h[28] == 2;
            var t := if reply then MessageTypeFrom(s, 0) else -1;
            && options[..] == (if t == DHCPACK || t == DHCPOFFER then ExtractFrom(s, 0, 0).area else s)
            && header[..] == (if t == DHCPACK || t == DHCPOFFER then Rechecked(h, options[..]) else h)
            && address == (if t == DHCPACK then ExtractFrom(s, 0, 0).address else 0)
            && MessageTypeFrom(options[..], 0) == MessageTypeFrom(s, 0)
  {
    hide ExtractFrom, MessageTypeFrom, MessageTypeOf, HasType, Parse, Rechecked;
    TypeStays(options[..]);
    if header.Length == OPTIONS_AT && header[9] == OPENVPN_IPPROTO_UDP
       && header[20] == 0 && header[21] == BOOTPS_PORT && header[22] == 0 && header[23] == BOOTPC_PORT
       && header[28] == BOOTREPLY {
      var messageType := GetMessageType(options);
      if messageType == DHCPACK || messageType == DHCPOFFER {
        var ret := DoExtract(options);
        Recheck(header, options);
        if messageType == DHCPACK { return ret; }
      }
    }
    return 0;
  }
}
