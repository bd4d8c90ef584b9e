/**
 The event sets of event.c that are kept between waits: Windows events (we), poll (po) and select (se).
 Each is a representation of one map from events to the flags they are watched for.
 */
module EventSets {
  import opened Bytes

  /** EVENT_READ and EVENT_WRITE. */
  datatype Flags = Flags(read: bool, write: bool)

  const UNWATCHED: Flags := Flags(false, false)
  const READ: Flags := Flags(true, false)
  const WRITE: Flags := Flags(false, true)

  function Count(f: Flags): nat {
    (if f.read then 1 else 0) + (if f.write then 1 else 0)
  }

  /** struct event_set_return. */
  datatype Return = Return(flags: Flags, arg: int)

  predicate NoDuplicates<T(==)>(s: seq<T>) {
    forall i, j :: 0 <= i < j < |s| ==> s[i] != s[j]
  }

  /** A sequence without duplicates is no longer than a set that holds it. */
  lemma {:induction false} Pigeonhole<T>(s: seq<T>, all: set<T>)
    requires NoDuplicates(s) && forall x :: x in s ==> x in all
    ensures |s| <= |all|
  {
    if s != [] {
      var last := s[|s| - 1];
      Pigeonhole(s[..|s| - 1], all - {last});
    }
  }

  // ----- Windows events -----

  /** struct rw_handle; 0 is NULL. */
  datatype Event = Event(read: nat, write: nat) {
    predicate Owns(h: nat) {
      h != 0 && (h == read || h == write)
    }

    /** The two handles of an event are different objects. */
    predicate Proper() {
      read != write || read == 0
    }
  }

  datatype Slot = Slot(handle: nat, ret: Return)

  function Zip(hs: seq<nat>, rs: seq<Return>): (s: seq<Slot>)
    requires |hs| == |rs|
    ensures |s| == |hs| && forall i :: 0 <= i < |s| ==> s[i] == Slot(hs[i], rs[i])
  {
    seq(|hs|, i requires 0 <= i < |hs| => Slot(hs[i], rs[i]))
  }

  predicate Holds(s: seq<Slot>, h: nat) {
    exists i :: 0 <= i < |s| && s[i].handle == h
  }

  /** What an event is watched for. */
  function WatchedBy(s: seq<Slot>, e: Event): Flags {
    Flags(e.read != 0 && Holds(s, e.read), e.write != 0 && Holds(s, e.write))
  }

  /** The slots of all other events, in order. */
  function Others(s: seq<Slot>, e: Event): seq<Slot> {
    if s == [] then []
    else Others(s[..|s| - 1], e) + if e.Owns(s[|s| - 1].handle) then [] else [s[|s| - 1]]
  }

  /** No handle twice, none of them NULL. */
  predicate Sound(s: seq<Slot>) {
    && (forall i :: 0 <= i < |s| ==> s[i].handle != 0)
    && (forall i, j :: 0 <= i < j < |s| ==> s[i].handle != s[j].handle)
  }

  /** The slots of an event are returned with the flag they are watched for. */
  predicate Labelled(s: seq<Slot>, e: Event) {
    forall i :: 0 <= i < |s| && e.Owns(s[i].handle) ==> s[i].ret.flags == if s[i].handle == e.read then READ else WRITE
  }

  /**
   What we_ctl makes of the flags of its event with `room` free slots: those asked for, and with too
   little room at most the write half of both.
   */
  function Granted(before: Flags, asked: Flags, room: nat): Flags {
    if Count(asked) <= Count(before) + room then asked
    else if room == 1 then WRITE
    else before
  }

  /** One we_ctl or we_del: the event gets its flags, and no other event notices. */
  predicate WeStep(s: seq<Slot>, s': seq<Slot>, e: Event, watched: Flags) {
    && Sound(s') && Others(s', e) == Others(s, e) && WatchedBy(s', e) == watched
    && (Labelled(s, e) ==> Labelled(s', e))
  }

  lemma {:induction false} OthersJoin(a: seq<Slot>, b: seq<Slot>, e: Event)
    ensures Others(a + b, e) == Others(a, e) + Others(b, e)
    decreases |b|
  {
    if b == [] {
      assert a + b == a;
    } else {
      assert (a + b)[..|a + b| - 1] == a + b[..|b| - 1];
      OthersJoin(a, b[..|b| - 1], e);
    }
  }

  lemma OthersOfOne(x: Slot, e: Event)
    ensures Others([x], e) == if e.Owns(x.handle) then [] else [x]
  {
    assert Others([x][..0], e) == [];
  }

  /** Replacing, inserting or deleting slots of the event leaves the others. */
  lemma OthersSame(a: seq<Slot>, x: seq<Slot>, b: seq<Slot>, y: seq<Slot>, e: Event)
    requires |x| <= 1 && |y| <= 1
    requires (forall k :: 0 <= k < |x| ==> e.Owns(x[k].handle)) && (forall k :: 0 <= k < |y| ==> e.Owns(y[k].handle))
    ensures Others(a + x + b, e) == Others(a + y + b, e)
  {
    hide Others;
    OthersJoin(a + x, b, e);
    OthersJoin(a, x, e);
    OthersJoin(a + y, b, e);
    OthersJoin(a, y, e);
    OwnedAlone(x, e);
    OwnedAlone(y, e);
  }

  lemma OwnedAlone(x: seq<Slot>, e: Event)
    requires |x| <= 1 && forall k :: 0 <= k < |x| ==> e.Owns(x[k].handle)
    ensures Others(x, e) == []
  {
    if |x| == 1 {
      OthersOfOne(x[0], e);
      assert x == [x[0]];
    }
  }

  /** The others are the slots that are not the event's, each once. */
  lemma {:induction false} OthersHold(s: seq<Slot>, e: Event, h: nat)
    ensures Holds(Others(s, e), h) <==> Holds(s, h) && !e.Owns(h)
  {
    if s != [] {
      var n := |s| - 1;
      OthersHold(s[..n], e, h);
      HoldsSnoc(s[..n], s[n], h);
      assert s == s[..n] + [s[n]];
      HoldsSnoc(Others(s[..n], e), s[n], h);
      assert Others(s[..n], e) + [] == Others(s[..n], e);
    }
  }

  lemma HoldsSnoc(s: seq<Slot>, x: Slot, h: nat)
    ensures Holds(s + [x], h) <==> Holds(s, h) || x.handle == h
  {
    var t := s + [x];
    if x.handle == h { assert t[|s|].handle == h; }
    if Holds(s, h) {
      var i :| 0 <= i < |s| && s[i].handle == h;
      assert t[i].handle == h;
    }
  }

  lemma {:induction false} OthersCount(s: seq<Slot>, e: Event)
    requires Sound(s) && e.Proper()
    ensures |Others(s, e)| + Count(WatchedBy(s, e)) == |s|
    ensures Sound(Others(s, e))
  {
    if s != [] {
      var n := |s| - 1;
      OthersCount(s[..n], e);
      assert s == s[..n] + [s[n]];
      HoldsSnoc(s[..n], s[n], e.read);
      HoldsSnoc(s[..n], s[n], e.write);
      NotAgain(s, n);
      OthersHold(s[..n], e, s[n].handle);
      SoundSnoc(Others(s[..n], e), s[n]);
    }
  }

  lemma NotAgain(s: seq<Slot>, n: nat)
    requires Sound(s) && n < |s|
    ensures !Holds(s[..n], s[n].handle)
  {
  }

  lemma SoundSnoc(s: seq<Slot>, x: Slot)
    requires Sound(s)
    ensures x.handle != 0 && !Holds(s, x.handle) ==> Sound(s + [x])
  {
  }

  lemma OwnedNotNull(e: Event, x: Slot)
    requires e.Owns(x.handle)
    ensures x.handle != 0
  {
  }

  /** A change at one place: at most one slot of the event taken out, at most one put in. */
  lemma StepAt(a: seq<Slot>, x: seq<Slot>, b: seq<Slot>, y: seq<Slot>, e: Event)
    requires |x| <= 1 && |y| <= 1 && Sound(a + x + b)
    requires |x| == 1 ==> e.Owns(x[0].handle)
    requires |y| == 1 ==> e.Owns(y[0].handle) && !Holds(a + b, y[0].handle)
    requires |y| == 1 ==> y[0].ret.flags == if y[0].handle == e.read then READ else WRITE
    ensures Sound(a + y + b) && Others(a + y + b, e) == Others(a + x + b, e)
    ensures Labelled(a + x + b, e) ==> Labelled(a + y + b, e)
  {
    hide Sound, Others, Holds, Labelled;
    OthersSame(a, x, b, y, e);
    SoundParts(a, x, b);
    if |y| == 1 {
      OwnedNotNull(e, y[0]);
      SoundInsert(a, y[0], b);
      assert y == [y[0]];
    } else {
      assert a + y + b == a + b;
    }
    if Labelled(a + x + b, e) { LabelledAt(a, x, b, y, e); }
  }

  lemma SoundParts(a: seq<Slot>, x: seq<Slot>, b: seq<Slot>)
    requires Sound(a + x + b)
    ensures Sound(a + b)
  {
    var s, t := a + x + b, a + b;
    forall i | 0 <= i < |t| ensures t[i].handle != 0 {
      assert t[i] == s[if i < |a| then i else i + |x|];
    }
    forall i, j | 0 <= i < j < |t| ensures t[i].handle != t[j].handle {
      assert t[i] == s[if i < |a| then i else i + |x|] && t[j] == s[if j < |a| then j else j + |x|];
    }
  }

  lemma SoundInsert(a: seq<Slot>, x: Slot, b: seq<Slot>)
    requires Sound(a + b) && x.handle != 0 && !Holds(a + b, x.handle)
    ensures Sound(a + [x] + b)
  {
    var s, t := a + [x] + b, a + b;
    forall i | 0 <= i < |s| ensures s[i].handle != 0 {
      assert s[i] == if i < |a| then t[i] else if i == |a| then x else t[i - 1];
    }
    forall i, j | 0 <= i < j < |s| ensures s[i].handle != s[j].handle {
      assert s[i] == if i < |a| then t[i] else if i == |a| then x else t[i - 1];
      assert s[j] == if j < |a| then t[j] else if j == |a| then x else t[j - 1];
    }
  }

  lemma LabelledAt(a: seq<Slot>, x: seq<Slot>, b: seq<Slot>, y: seq<Slot>, e: Event)
    requires Labelled(a + x + b, e) && |y| <= 1
    requires |y| == 1 ==> y[0].ret.flags == if y[0].handle == e.read then READ else WRITE
    ensures Labelled(a + y + b, e)
  {
    var s, t := a + x + b, a + y + b;
    forall i | 0 <= i < |t| && e.Owns(t[i].handle)
      ensures t[i].ret.flags == if t[i].handle == e.read then READ else WRITE
    {
      assert t[i] == if i < |a| then s[i] else if i < |a| + |y| then y[0] else s[i - |y| + |x|];
    }
  }

  lemma HoldsJoin(a: seq<Slot>, b: seq<Slot>, h: nat)
    ensures Holds(a + b, h) <==> Holds(a, h) || Holds(b, h)
  {
    var s := a + b;
    if Holds(a, h) {
      var i :| 0 <= i < |a| && a[i].handle == h;
      assert s[i].handle == h;
    }
    if Holds(b, h) {
      var i :| 0 <= i < |b| && b[i].handle == h;
      assert s[|a| + i].handle == h;
    }
  }

  lemma AloneInParts(a: seq<Slot>, x: Slot, b: seq<Slot>)
    requires Sound(a + [x] + b)
    ensures !Holds(a + b, x.handle)
  {
    var s, t := a + [x] + b, a + b;
    assert s[|a|] == x;
    forall i | 0 <= i < |t| ensures t[i].handle != x.handle {
      assert t[i] == s[if i < |a| then i else i + 1];
    }
  }

  lemma WatchedParts(a: seq<Slot>, x: seq<Slot>, b: seq<Slot>, e: Event)
    requires |x| <= 1
    ensures |x| == 0 ==> WatchedBy(a + x + b, e) == WatchedBy(a + b, e)
    ensures |x| == 1 ==>
              && (WatchedBy(a + x + b, e).read <==> e.read != 0 && (x[0].handle == e.read || Holds(a + b, e.read)))
              && (WatchedBy(a + x + b, e).write <==> e.write != 0 && (x[0].handle == e.write || Holds(a + b, e.write)))
  {
    if |x| == 0 {
      assert a + x + b == a + b;
    } else {
      assert x == [x[0]];
      PartsHold(a, x[0], b, e.read);
      PartsHold(a, x[0], b, e.write);
    }
  }

  lemma PartsHold(a: seq<Slot>, x: Slot, b: seq<Slot>, h: nat)
    ensures Holds(a + [x] + b, h) <==> x.handle == h || Holds(a + b, h)
  {
    hide Holds;
    HoldsSnoc(a, x, h);
    HoldsJoin(a + [x], b, h);
    HoldsJoin(a, b, h);
  }

  function SlotFor(e: Event, write: bool, arg: int): Slot {
    if write then Slot(e.write, Return(WRITE, arg)) else Slot(e.read, Return(READ, arg))
  }

  /** A proper handle to watch for the asked flag. */
  predicate Watchable(e: Event, asked: Flags) {
    e.Proper() && (asked.read ==> e.read != 0) && (asked.write ==> e.write != 0)
  }

  /** we_append_event of one flag that is not watched for. */
  lemma AppendStep(s: seq<Slot>, e: Event, write: bool, arg: int)
    requires Sound(s) && Watchable(e, if write then WRITE else READ)
    requires var w := WatchedBy(s, e); if write then !w.write else !w.read
    ensures var w := WatchedBy(s, e);
            WeStep(s, s + [SlotFor(e, write, arg)], e, if write then w.(write := true) else w.(read := true))
  {
    hide Others, Labelled, Sound, Holds;
    var y, none: seq<Slot> := SlotFor(e, write, arg), [];
    assert s + none + none == s && s + [y] + none == s + [y] && s + none == s;
    StepAt(s, none, none, [y], e);
    WatchedParts(s, [y], none, e);
  }

  /** we_set_event over the only slot of the event. */
  lemma ReplaceStep(s: seq<Slot>, i: nat, e: Event, write: bool, arg: int)
    requires Sound(s) && Watchable(e, if write then WRITE else READ)
    requires i < |s| && e.Owns(s[i].handle) && Count(WatchedBy(s, e)) == 1
    ensures WeStep(s, s[i := SlotFor(e, write, arg)], e, if write then WRITE else READ)
  {
    hide Others, Labelled, Sound, Holds;
    var a, b, x, y := s[..i], s[i + 1..], s[i], SlotFor(e, write, arg);
    assert s == a + [x] + b && s[i := y] == a + [y] + b;
    AloneInParts(a, x, b);
    WatchedParts(a, [x], b, e);
    StepAt(a, [x], b, [y], e);
    WatchedParts(a, [y], b, e);
  }

  /** we_del_index of a slot of the event. */
  lemma DeleteStep(s: seq<Slot>, i: nat, e: Event)
    requires Sound(s) && e.Proper() && i < |s| && e.Owns(s[i].handle)
    ensures var w := WatchedBy(s, e);
            WeStep(s, s[..i] + s[i + 1..], e,
                   if s[i].handle == e.read then w.(read := false) else w.(write := false))
  {
    hide Others, Labelled, Sound, Holds;
    var a, b, x, none: seq<Slot> := s[..i], s[i + 1..], s[i], [];
    assert s == a + [x] + b && a + none + b == a + b;
    AloneInParts(a, x, b);
    WatchedParts(a, [x], b, e);
    StepAt(a, [x], b, none, e);
  }

  /** we_del_event. */
  lemma ClearStep(s: seq<Slot>, e: Event)
    requires Sound(s) && e.Proper()
    ensures WeStep(s, Others(s, e), e, UNWATCHED)
  {
    hide Holds;
    OthersCount(s, e);
    OthersHold(s, e, e.read);
    OthersHold(s, e, e.write);
    OthersTwice(s, e);
  }

  lemma {:induction false} OthersMembers(s: seq<Slot>, e: Event, x: Slot)
    ensures x in Others(s, e) <==> x in s && !e.Owns(x.handle)
  {
    if s != [] {
      var n := |s| - 1;
      OthersMembers(s[..n], e, x);
      assert s == s[..n] + [s[n]];
    }
  }

  lemma {:induction false} OthersAll(s: seq<Slot>, e: Event)
    requires forall x :: x in s ==> !e.Owns(x.handle)
    ensures Others(s, e) == s
  {
    if s != [] {
      var n := |s| - 1;
      OthersAll(s[..n], e);
      assert s[n] in s && s == s[..n] + [s[n]];
    }
  }

  lemma OthersTwice(s: seq<Slot>, e: Event)
    ensures Others(Others(s, e), e) == Others(s, e)
    ensures forall i :: 0 <= i < |Others(s, e)| ==> !e.Owns(Others(s, e)[i].handle)
  {
    hide Others;
    forall x | x in Others(s, e) ensures !e.Owns(x.handle) { OthersMembers(s, e, x); }
    OthersAll(Others(s, e), e);
  }

  lemma Unchanged(s: seq<Slot>, e: Event)
    requires Sound(s)
    ensures WeStep(s, s, e, WatchedBy(s, e))
  {
  }

  /** we_append_event for both flags: the write half first, and each only while there is room. */
  lemma AppendBoth(s: seq<Slot>, e: Event, arg: int, room: nat)
    requires Sound(s) && Watchable(e, Flags(true, true)) && WatchedBy(s, e) == UNWATCHED
    ensures WeStep(s, s + (if room > 0 then [SlotFor(e, true, arg)] else [])
                      + (if room > 1 then [SlotFor(e, false, arg)] else []),
                   e, Granted(UNWATCHED, Flags(true, true), room))
  {
    hide Sound, WatchedBy, Others, Labelled;
    var none: seq<Slot> := [];
    var s1 := s + [SlotFor(e, true, arg)];
    assert s + none + none == s && s1 + none == s1;
    Unchanged(s, e);
    if room > 0 {
      AppendStep(s, e, true, arg);
      if room > 1 { AppendStep(s1, e, false, arg); }
    }
  }

  lemma OthersNone(s: seq<Slot>, e: Event)
    requires s == []
    ensures Others(s, e) == []
  {
  }

  lemma OthersSnoc(s: seq<Slot>, i: nat, e: Event)
    requires i < |s|
    ensures Others(s[..i + 1], e) == Others(s[..i], e) + if e.Owns(s[i].handle) then [] else [s[i]]
  {
    assert s[..i + 1][..i] == s[..i];
  }

  lemma SoundAt(s: seq<Slot>, i: nat)
    requires Sound(s) && i < |s|
    ensures s[i].handle != 0
  {
  }

  class WeSet {
    const capacity: nat
    const events: array<nat>
    const esr: array<Return>
    var nEvents: nat

    ghost predicate Valid()
      reads this, events, esr
    {
      events.Length == esr.Length == capacity && nEvents <= capacity && Sound(Slots())
    }

    ghost function Slots(): (s: seq<Slot>)
      requires events.Length == esr.Length == capacity && nEvents <= capacity
      reads this, events, esr
      ensures |s| == nEvents
    {
      Zip(events[..nEvents], esr[..nEvents])
    }

    /** we_init, for a set of this capacity. */
    constructor (capacity: nat)
      ensures Valid() && Slots() == [] && this.capacity == capacity && fresh(events) && fresh(esr)
    {
      this.capacity := capacity;
      events, esr := new nat[capacity](_ => 0), new Return[capacity](_ => Return(UNWATCHED, 0));
      nEvents := 0;
    }

    /** we_set_event. */
    method SetEvent(i: nat, event: Event, write: bool, arg: int)
      requires events.Length == esr.Length == capacity && i < capacity
      modifies events, esr
      ensures events[..] == old(events[..])[i := if write then event.write else event.read]
      ensures esr[..] == old(esr[..])[i := Return(if write then WRITE else READ, arg)]
    {
      if !write { events[i] := event.read; } else { events[i] := event.write; }
      esr[i] := Return(if write then WRITE else READ, arg);
    }

    /** The part of we_append_event for one flag. */
    method AppendOne(event: Event, write: bool, arg: int) returns (ok: bool)
      requires Valid() && Watchable(event, if write then WRITE else READ)
      requires var w := WatchedBy(Slots(), event); if write then !w.write else !w.read
      modifies this`nEvents, events, esr
      ensures Valid() && (ok <==> |old(Slots())| < capacity)
      ensures Slots() == if ok then old(Slots()) + [SlotFor(event, write, arg)] else old(Slots())
    {
      ghost var s := Slots();
      ok := nEvents < capacity;
      if ok {
        SetEvent(nEvents, event, write, arg);
        nEvents := nEvents + 1;
        assert Slots() == s + [SlotFor(event, write, arg)];
        AppendStep(s, event, write, arg);
      }
    }

    /** we_append_event. */
    method AppendEvent(event: Event, flags: Flags, arg: int) returns (ok: bool)
      requires Valid() && Watchable(event, flags)
      requires var w := WatchedBy(Slots(), event); (flags.read ==> !w.read) && (flags.write ==> !w.write)
      modifies this`nEvents, events, esr
      ensures Valid() && (ok <==> |old(Slots())| + Count(flags) <= capacity)
      ensures Slots() == old(Slots())
                         + (if flags.write && |old(Slots())| < capacity then [SlotFor(event, true, arg)] else [])
                         + if flags.read && ok then [SlotFor(event, false, arg)] else []
    {
      hide Sound, WatchedBy;
      ghost var s := Slots();
      ok := true;
      if flags.write {
        AppendStep(s, event, true, arg);
        ok := AppendOne(event, true, arg);
        if !ok { return; }
      }
      if flags.read {
        ok := AppendOne(event, false, arg);
      }
    }

    /** we_del_event: the array is compacted in place. */
    method DelEvent(event: Event)
      requires Valid() && event.Proper()
      modifies this`nEvents, events, esr
      ensures Valid() && Slots() == Others(old(Slots()), event)
    {
      hide Sound, Others;
      ghost var s := Slots();
      var i, j := 0, 0;
      var len := nEvents;
      OthersNone(s[..0], event);
      while i < len
        invariant 0 <= j <= i <= len <= capacity && nEvents == len - (i - j)
        invariant Zip(events[..j], esr[..j]) == Others(s[..i], event)
        invariant forall k :: i <= k < len ==> Slot(events[k], esr[k]) == s[k]
      {
        var h := events[i];
        OthersSnoc(s, i, event);
        SoundAt(s, i);
        ghost var kept := Zip(events[..j], esr[..j]);
        if h == event.read || h == event.write {
          nEvents := nEvents - 1;
        } else {
          if i != j {
            events[j] := events[i];
            esr[j] := esr[i];
          }
          j := j + 1;
          assert Zip(events[..j], esr[..j]) == kept + [s[i]];
        }
        i := i + 1;
      }
      assert s[..len] == s;
      OthersCount(s, event);
    }

    /** we_del_index. */
    method DelIndex(index: nat)
      requires Valid() && index < nEvents
      modifies this`nEvents, events, esr
      ensures events.Length == esr.Length == capacity && nEvents == old(nEvents) - 1
      ensures Slots() == old(Slots())[..index] + old(Slots())[index + 1..]
    {
      hide Sound, Zip;
      ghost var s := Slots();
      var i := index;
      while i < nEvents - 1
        invariant index <= i < nEvents == |s|
        invariant forall k :: 0 <= k < index ==> Slot(events[k], esr[k]) == s[k]
        invariant forall k :: index <= k < i ==> Slot(events[k], esr[k]) == s[k + 1]
        invariant forall k :: i < k < nEvents ==> Slot(events[k], esr[k]) == s[k]
      {
        var h, r := events[i + 1], esr[i + 1];
        assert Slot(h, r) == s[i + 1];
        events[i] := h;
        esr[i] := r;
        i := i + 1;
      }
      nEvents := nEvents - 1;
      GapClosed(s, Slots(), index);
    }

    /** we_get_rw_indices: its two assertions cannot fail. */
    method GetRwIndices(event: Event) returns (ri: int, wi: int)
      requires Valid() && event.Proper()
      ensures -1 <= ri < nEvents && -1 <= wi < nEvents
      ensures WatchedBy(Slots(), event) == Flags(ri >= 0, wi >= 0)
      ensures (ri >= 0 ==> Slots()[ri].handle == event.read != 0)
              && (wi >= 0 ==> Slots()[wi].handle == event.write != 0)
    {
      ghost var s := Slots();
      assert |s| == nEvents;
      ri, wi := -1, -1;
      for i := 0 to nEvents
        invariant -1 <= ri < i && -1 <= wi < i
        invariant ri >= 0 ==> s[ri].handle == event.read
        invariant wi >= 0 ==> s[wi].handle == event.write
        invariant ri == -1 ==> forall k :: 0 <= k < i ==> s[k].handle != event.read
        invariant wi == -1 ==> forall k :: 0 <= k < i ==> s[k].handle != event.write
      {
        var h := events[i];
        assert s[i].handle == h;
        if h == event.read {
          assert ri == -1;
          ri := i;
        } else if h == event.write {
          assert wi == -1;
          wi := i;
        }
      }
    }

    /** we_del. */
    method Del(event: Event)
      requires Valid() && event.Proper()
      modifies this`nEvents, events, esr
      ensures Valid() && WeStep(old(Slots()), Slots(), event, UNWATCHED)
    {
      ClearStep(Slots(), event);
      DelEvent(event);
    }

    /** The switch of we_ctl for an event to be watched for one flag. */
    method CtlOne(event: Event, write: bool, arg: int, ri: int, wi: int)
      requires Valid() && Watchable(event, if write then WRITE else READ)
      requires -1 <= ri < nEvents && -1 <= wi < nEvents && WatchedBy(Slots(), event) == Flags(ri >= 0, wi >= 0)
      requires (ri >= 0 ==> Slots()[ri].handle == event.read != 0)
               && (wi >= 0 ==> Slots()[wi].handle == event.write != 0)
      modifies this`nEvents, events, esr
      ensures Valid()
      ensures WeStep(old(Slots()), Slots(), event,
                     Granted(Flags(ri >= 0, wi >= 0), if write then WRITE else READ, capacity - |old(Slots())|))
    {
      hide Sound, WatchedBy, Others, Labelled;
      ghost var s := Slots();
      if ri < 0 && wi < 0 {
        AppendStep(s, event, write, arg);
        Unchanged(s, event);
        var _ := AppendOne(event, write, arg);
      } else if ri >= 0 && wi >= 0 {
        var other := if write then ri else wi;
        DeleteStep(s, other, event);
        DelIndex(other);
      } else {
        var one := if ri >= 0 then ri else wi;
        ReplaceStep(s, one, event, write, arg);
        SetEvent(one, event, write, arg);
        assert Slots() == s[one := SlotFor(event, write, arg)];
      }
    }

    /** we_ctl. */
    method Ctl(event: Event, flags: Flags, arg: int)
      requires Valid() && Watchable(event, flags)
      modifies this`nEvents, events, esr
      ensures Valid()
      ensures WeStep(old(Slots()), Slots(), event,
                     Granted(old(WatchedBy(Slots(), event)), flags, capacity - |old(Slots())|))
      ensures old(WatchedBy(Slots(), event)) == Flags(false, false) && flags == Flags(true, true) ==>
                var room := capacity - |old(Slots())|;
                WatchedBy(Slots(), event) == Flags(room >= 2, room >= 1)
    {
      hide Sound, WatchedBy, Others, Labelled;
      ghost var s := Slots();
      var ri, wi := GetRwIndices(event);
      if flags.read && flags.write {
        if ri < 0 && wi < 0 {
          AppendBoth(s, event, arg, capacity - |s|);
          var _ := AppendEvent(event, flags, arg);
        } else if ri < 0 || wi < 0 {
          AppendStep(s, event, wi < 0, arg);
          Unchanged(s, event);
          var _ := AppendOne(event, wi < 0, arg);
        } else {
          Unchanged(s, event);
        }
      } else if flags.read || flags.write {
        CtlOne(event, flags.write, arg, ri, wi);
      } else if ri < 0 && wi < 0 {
        Unchanged(s, event);
      } else if ri >= 0 && wi >= 0 {
        ClearStep(s, event);
        DelEvent(event);
      } else {
        var one := if ri >= 0 then ri else wi;
        DeleteStep(s, one, event);
        DelIndex(one);
      }
    }
  }

  // ----- poll -----

  /** struct pollfd as far as poll reads it. */
  datatype PollFd = PollFd(fd: int, pollIn: bool, pollPri: bool, pollOut: bool)

  /** An entry of the set: what poll gets and the argument kept beside it. */
  datatype Entry = Entry(pfd: PollFd, arg: int)

  function EntryFor(fd: int, flags: Flags, arg: int): Entry {
    Entry(PollFd(fd, flags.read, flags.read, flags.write), arg)
  }

  predicate DistinctFds(s: seq<Entry>) {
    forall i, j :: 0 <= i < j < |s| ==> s[i].pfd.fd != s[j].pfd.fd
  }

  /** The entry of a descriptor. */
  function Polled(s: seq<Entry>, fd: int): Option<Entry> {
    if s == [] then None
    else if s[|s| - 1].pfd.fd == fd then Some(s[|s| - 1])
    else Polled(s[..|s| - 1], fd)
  }

  function PolledFlags(s: seq<Entry>, fd: int): Flags {
    match Polled(s, fd)
    case None => UNWATCHED
    case Some(e) => Flags(e.pfd.pollIn, e.pfd.pollOut)
  }

  /** One po_ctl or po_del: the entry of `fd` is this one now, and no other descriptor notices. */
  ghost predicate PoStep(s: seq<Entry>, s': seq<Entry>, fd: int, entry: Option<Entry>) {
    DistinctFds(s') && Polled(s', fd) == entry && forall f :: f != fd ==> Polled(s', f) == Polled(s, f)
  }

  lemma {:induction false} PolledAt(s: seq<Entry>, fd: int)
    requires DistinctFds(s)
    ensures forall i :: 0 <= i < |s| && s[i].pfd.fd == fd ==> Polled(s, fd) == Some(s[i])
    ensures Polled(s, fd).Some? ==> exists i :: 0 <= i < |s| && s[i].pfd.fd == fd
  {
    if s != [] {
      var n := |s| - 1;
      PolledAt(s[..n], fd);
      if s[n].pfd.fd != fd && Polled(s, fd).Some? {
        var i :| 0 <= i < n && s[..n][i].pfd.fd == fd;
        assert s[i].pfd.fd == fd;
      }
    }
  }

  /** The same entries in another arrangement. */
  lemma SamePolled(s: seq<Entry>, s': seq<Entry>, f: int)
    requires DistinctFds(s) && DistinctFds(s')
    requires forall i :: 0 <= i < |s| && s[i].pfd.fd == f ==> s[i] in s'
    requires forall i :: 0 <= i < |s'| && s'[i].pfd.fd == f ==> s'[i] in s
    ensures Polled(s, f) == Polled(s', f)
  {
    PolledAt(s, f);
    PolledAt(s', f);
  }

  lemma PoReplace(s: seq<Entry>, i: nat, x: Entry)
    requires DistinctFds(s) && i < |s| && s[i].pfd.fd == x.pfd.fd
    ensures PoStep(s, s[i := x], x.pfd.fd, Some(x))
  {
    hide Polled;
    var t := s[i := x];
    forall f | f != x.pfd.fd ensures Polled(t, f) == Polled(s, f) {
      forall k | 0 <= k < |s| && s[k].pfd.fd == f ensures s[k] in t { assert t[k] == s[k]; }
      SamePolled(s, t, f);
    }
    PolledAt(t, x.pfd.fd);
    assert t[i] == x;
  }

  lemma PoAppend(s: seq<Entry>, x: Entry)
    requires DistinctFds(s) && Polled(s, x.pfd.fd).None?
    ensures PoStep(s, s + [x], x.pfd.fd, Some(x))
  {
    PolledAt(s, x.pfd.fd);
    assert (s + [x])[..|s|] == s;
  }

  lemma PoDelete(s: seq<Entry>, i: nat)
    requires DistinctFds(s) && i < |s|
    ensures PoStep(s, s[..i] + s[i + 1..], s[i].pfd.fd, None)
  {
    hide Polled;
    var t := s[..i] + s[i + 1..];
    forall k, l | 0 <= k < l < |t| ensures t[k].pfd.fd != t[l].pfd.fd {
      assert t[k] == s[if k < i then k else k + 1] && t[l] == s[if l < i then l else l + 1];
    }
    forall k | 0 <= k < |t| ensures t[k].pfd.fd != s[i].pfd.fd && t[k] in s {
      assert t[k] == s[if k < i then k else k + 1];
    }
    PolledAt(t, s[i].pfd.fd);
    forall f | f != s[i].pfd.fd ensures Polled(t, f) == Polled(s, f) {
      forall k | 0 <= k < |s| && s[k].pfd.fd == f ensures s[k] in t {
        assert s[k] == t[if k < i then k else k - 1];
      }
      SamePolled(s, t, f);
    }
  }

  function ZipPolled(ps: seq<PollFd>, args: seq<int>): (s: seq<Entry>)
    requires |ps| == |args|
    ensures |s| == |ps| && forall i :: 0 <= i < |s| ==> s[i] == Entry(ps[i], args[i])
  {
    seq(|ps|, i requires 0 <= i < |ps| => Entry(ps[i], args[i]))
  }

  lemma GapClosed<T>(s: seq<T>, t: seq<T>, i: nat)
    requires i < |s| && |t| == |s| - 1
    requires forall k :: 0 <= k < i ==> t[k] == s[k]
    requires forall k :: i <= k < |t| ==> t[k] == s[k + 1]
    ensures t == s[..i] + s[i + 1..]
  {
  }

  class PoSet {
    const capacity: nat
    const events: array<PollFd>
    const args: array<int>
    var nEvents: nat

    ghost predicate Valid()
      reads this, events, args
    {
      events.Length == args.Length == capacity && nEvents <= capacity && DistinctFds(Entries())
    }

    ghost function Entries(): (s: seq<Entry>)
      requires events.Length == args.Length == capacity && nEvents <= capacity
      reads this, events, args
      ensures |s| == nEvents
    {
      ZipPolled(events[..nEvents], args[..nEvents])
    }

    /** po_init. */
    constructor (maxevents: nat)
      ensures Valid() && Entries() == [] && capacity == maxevents && fresh(events) && fresh(args)
    {
      capacity := maxevents;
      events, args := new PollFd[maxevents](_ => PollFd(0, false, false, false)), new int[maxevents](_ => 0);
      nEvents := 0;
    }

    /** po_append_event. */
    method AppendEvent(fd: int, flags: Flags, arg: int) returns (ok: bool)
      requires Valid() && Polled(Entries(), fd).None?
      modifies this`nEvents, events, args
      ensures Valid() && (ok <==> |old(Entries())| < capacity)
      ensures Entries() == if ok then old(Entries()) + [EntryFor(fd, flags, arg)] else old(Entries())
    {
      ghost var s := Entries();
      ok := nEvents < capacity;
      if ok {
        PoAppend(s, EntryFor(fd, flags, arg));
        events[nEvents] := PollFd(fd, flags.read, flags.read, flags.write);
        args[nEvents] := arg;
        nEvents := nEvents + 1;
        assert Entries() == s + [EntryFor(fd, flags, arg)];
      }
    }

    /** The search both operations begin with; nEvents when there is no entry. */
    method Find(fd: int) returns (i: nat)
      requires Valid()
      ensures i <= nEvents && (i == nEvents <==> Polled(Entries(), fd).None?)
      ensures i < nEvents ==> Entries()[i].pfd.fd == fd
    {
      ghost var s := Entries();
      i := 0;
      while i < nEvents && events[i].fd != fd
        invariant i <= nEvents && forall k :: 0 <= k < i ==> s[k].pfd.fd != fd
      {
        assert s[i].pfd == events[i];
        i := i + 1;
      }
      PolledAt(s, fd);
      if i < nEvents { assert s[i].pfd == events[i]; }
    }

    /** po_ctl: with a full set a new descriptor is not taken in. */
    method Ctl(fd: int, flags: Flags, arg: int)
      requires Valid()
      modifies this`nEvents, events, args
      ensures Valid()
      ensures PoStep(old(Entries()), Entries(), fd,
                     if old(Polled(Entries(), fd)).Some? || |old(Entries())| < capacity
                     then Some(EntryFor(fd, flags, arg)) else None)
    {
      hide Polled;
      ghost var s := Entries();
      var i := Find(fd);
      if i < nEvents {
        PoReplace(s, i, EntryFor(fd, flags, arg));
        args[i] := arg;
        events[i] := PollFd(fd, flags.read, flags.read, flags.write);
        assert Entries() == s[i := EntryFor(fd, flags, arg)];
        PolledAt(s, fd);
      } else {
        PoAppend(s, EntryFor(fd, flags, arg));
        var _ := AppendEvent(fd, flags, arg);
      }
    }

    /** The loop of po_del that closes the gap. */
    method CloseGap(i: nat)
      requires Valid() && i < nEvents
      modifies this`nEvents, events, args
      ensures events.Length == args.Length == capacity && nEvents == old(nEvents) - 1
      ensures Entries() == old(Entries())[..i] + old(Entries())[i + 1..]
    {
      hide DistinctFds, ZipPolled;
      ghost var s := Entries();
      var j := i;
      while j < nEvents - 1
        invariant i <= j < nEvents == |s|
        invariant forall k :: 0 <= k < i ==> Entry(events[k], args[k]) == s[k]
        invariant forall k :: i <= k < j ==> Entry(events[k], args[k]) == s[k + 1]
        invariant forall k :: j < k < nEvents ==> Entry(events[k], args[k]) == s[k]
      {
        var e, a := events[j + 1], args[j + 1];
        assert Entry(e, a) == s[j + 1];
        events[j] := e;
        args[j] := a;
        j := j + 1;
      }
      nEvents := nEvents - 1;
      GapClosed(s, Entries(), i);
    }

    /** po_del. */
    method Del(fd: int)
      requires Valid()
      modifies this`nEvents, events, args
      ensures Valid() && PoStep(old(Entries()), Entries(), fd, None)
    {
      hide Polled;
      var i := Find(fd);
      if i < nEvents {
        PoDelete(Entries(), i);
        CloseGap(i);
      }
    }
  }

  // ----- select -----

  /** The two fd_sets, the arguments and the largest descriptor seen. */
  datatype Selected = Selected(read: set<int>, write: set<int>, args: seq<int>, maxfd: int)

  function SelectedFlags(s: Selected, fd: int): Flags {
    Flags(fd in s.read, fd in s.write)
  }

  /** Every descriptor that is set is one that select and se_wait_return look at. */
  ghost predicate Covered(s: Selected) {
    && -1 <= s.maxfd < |s.args|
    && forall fd :: fd in s.read || fd in s.write ==> 0 <= fd <= s.maxfd
  }

  /** One se_ctl or se_del. */
  ghost predicate SeStep(s: Selected, s': Selected, fd: int, flags: Flags, arg: int) {
    && Covered(s') && |s'.args| == |s.args|
    && SelectedFlags(s', fd) == flags
    && (forall f :: f != fd ==> SelectedFlags(s', f) == SelectedFlags(s, f))
    && s.maxfd <= s'.maxfd
    && (0 <= fd < |s.args| ==> s'.args == s.args[fd := arg])
  }

  /** A descriptor that is ready, with its flags. */
  function Ready(s: Selected, read: set<int>, write: set<int>, fd: nat): seq<Return>
    requires fd < |s.args|
  {
    if fd in read || fd in write then [Return(Flags(fd in read, fd in write), s.args[fd])] else []
  }

  /** The ready descriptors below `n`, the lowest first. */
  function AllReady(s: Selected, read: set<int>, write: set<int>, n: nat): seq<Return>
    requires n <= |s.args|
  {
    if n == 0 then [] else AllReady(s, read, write, n - 1) + Ready(s, read, write, n - 1)
  }

  /** Nothing ready is behind the largest descriptor: se_wait_return misses nothing when there is room. */
  lemma {:induction false} NoneBeyond(s: Selected, read: set<int>, write: set<int>, n: nat)
    requires Covered(s) && read <= s.read && write <= s.write && s.maxfd + 1 <= n <= |s.args|
    ensures AllReady(s, read, write, n) == AllReady(s, read, write, s.maxfd + 1)
  {
    if n > s.maxfd + 1 {
      NoneBeyond(s, read, write, n - 1);
      assert n - 1 !in s.read && n - 1 !in s.write;
    }
  }

  class SeSet {
    var readfds: set<int>
    var writefds: set<int>
    const args: array<int>
    var maxfd: int

    ghost predicate Valid()
      reads this, args
    {
      Covered(State())
    }

    ghost function State(): Selected
      reads this, args
    {
      Selected(readfds, writefds, args[..], maxfd)
    }

    /** se_init; the capacity is SELECT_MAX_FDS. */
    constructor (capacity: nat)
      ensures Valid() && State() == Selected({}, {}, args[..], -1) && args.Length == capacity && fresh(args)
    {
      readfds, writefds, maxfd := {}, {}, -1;
      args := new int[capacity](_ => 0);
    }

    /** se_ctl: a descriptor outside the sets is left out. */
    method Ctl(fd: int, flags: Flags, arg: int)
      requires Valid()
      modifies this, args
      ensures Valid()
      ensures SeStep(old(State()), State(), fd,
                     if 0 <= fd < args.Length then flags else UNWATCHED, arg)
    {
      if fd >= 0 && fd < args.Length {
        maxfd := if fd > maxfd then fd else maxfd;
        args[fd] := arg;
        if flags.read { readfds := readfds + {fd}; } else { readfds := readfds - {fd}; }
        if flags.write { writefds := writefds + {fd}; } else { writefds := writefds - {fd}; }
      }
    }

    /** se_del. */
    method Del(fd: int)
      requires Valid()
      modifies this, args
      ensures Valid() && SeStep(old(State()), State(), fd, UNWATCHED, 0)
    {
      if fd >= 0 && fd < args.Length {
        readfds := readfds - {fd};
        writefds := writefds - {fd};
        args[fd] := 0;
      }
    }

    /** se_wait_return: the first `outlen` of all descriptors that select left set. */
    method WaitReturn(read: set<int>, write: set<int>, outlen: nat) returns (out: seq<Return>)
      requires Valid() && read <= readfds && write <= writefds
      ensures var all := AllReady(State(), read, write, args.Length);
              out == if |all| <= outlen then all else all[..outlen]
    {
      out := [];
      var i := 0;
      ghost var s := State();
      while i <= maxfd && |out| < outlen
        invariant 0 <= i <= maxfd + 1 && |out| <= outlen
        invariant out == AllReady(s, read, write, i)
      {
        var r, w := i in read, i in write;
        if r || w { out := out + [Return(Flags(r, w), args[i])]; }
        i := i + 1;
      }
      NoneBeyond(s, read, write, args.Length);
      ReadyPrefix(s, read, write, i, maxfd + 1);
    }
  }

  lemma {:induction false} ReadyPrefix(s: Selected, read: set<int>, write: set<int>, i: nat, n: nat)
    requires i <= n <= |s.args|
    ensures AllReady(s, read, write, i) <= AllReady(s, read, write, n)
  {
    if i < n { ReadyPrefix(s, read, write, i, n - 1); }
  }

  // ----- one map -----

  /** A call of event_ctl or event_del; events are numbered. */
  datatype Command = Ctl(id: nat, flags: Flags, arg: int) | Del(id: nat)

  /** What a call asks for its event. */
  function Asked(c: Command): Flags {
    match c
    case Ctl(_, flags, _) => flags
    case Del(_) => UNWATCHED
  }

  /** What the first `k` commands leave an event to be watched for. */
  function Watched(cmds: seq<Command>, k: nat, id: nat): Flags
    requires k <= |cmds|
  {
    if k == 0 then UNWATCHED
    else if cmds[k - 1].id != id then Watched(cmds, k - 1, id)
    else Asked(cmds[k - 1])
  }

  predicate InTable(cmds: seq<Command>, n: nat) {
    forall k :: 0 <= k < |cmds| ==> cmds[k].id < n
  }

  /** Events with two handles each, none of them shared. */
  predicate ProperTable(table: seq<Event>) {
    && (forall i :: 0 <= i < |table| ==> table[i].Proper() && table[i].read != 0 && table[i].write != 0)
    && (forall i, j :: 0 <= i < j < |table| ==> !table[i].Owns(table[j].read) && !table[i].Owns(table[j].write))
  }

  predicate WeDoes(table: seq<Event>, capacity: nat, s: seq<Slot>, s': seq<Slot>, c: Command)
    requires c.id < |table| && |s| <= capacity
  {
    var e := table[c.id];
    match c
    case Ctl(_, flags, _) => WeStep(s, s', e, Granted(WatchedBy(s, e), flags, capacity - |s|))
    case Del(_) => WeStep(s, s', e, UNWATCHED)
  }

  ghost predicate PoDoes(capacity: nat, s: seq<Entry>, s': seq<Entry>, c: Command) {
    match c
    case Ctl(id, flags, arg) =>
      PoStep(s, s', id, if Polled(s, id).Some? || |s| < capacity then Some(EntryFor(id, flags, arg)) else None)
    case Del(id) => PoStep(s, s', id, None)
  }

  ghost predicate SeDoes(s: Selected, s': Selected, c: Command) {
    match c
    case Ctl(id, flags, arg) => SeStep(s, s', id, if id < |s.args| then flags else UNWATCHED, arg)
    case Del(id) => SeStep(s, s', id, UNWATCHED, 0)
  }

  /** The handles of all events of a table but one. */
  function Handles(table: seq<Event>, skip: nat): (hs: set<nat>)
    ensures |hs| <= 2 * (|table| - if skip < |table| then 1 else 0)
  {
    if table == [] then {}
    else
      var n := |table| - 1;
      if skip == n then Handles(table[..n], skip) else Handles(table[..n], skip) + {table[n].read, table[n].write}
  }

  lemma {:induction false} HandlesHold(table: seq<Event>, skip: nat, i: nat, h: nat)
    requires i < |table| && i != skip && table[i].Owns(h)
    ensures h in Handles(table, skip)
  {
    if i < |table| - 1 { HandlesHold(table[..|table| - 1], skip, i, h); }
  }

  /** Every slot is one of the table's. */
  predicate FromTable(table: seq<Event>, s: seq<Slot>) {
    forall k :: 0 <= k < |s| ==> exists i :: 0 <= i < |table| && table[i].Owns(s[k].handle)
  }

  /** With two slots for every event the set never runs out of room. */
  lemma RoomForAll(table: seq<Event>, s: seq<Slot>, id: nat)
    requires ProperTable(table) && Sound(s) && FromTable(table, s) && id < |table|
    ensures |Others(s, table[id])| + 2 <= 2 * |table|
    ensures Count(WatchedBy(s, table[id])) + 2 * |table| - |s| >= 2
  {
    hide Others, Handles, WatchedBy, FromTable, Holds;
    var e := table[id];
    var o := Others(s, e);
    OthersCount(s, e);
    OthersTwice(s, e);
    var hs := seq(|o|, k requires 0 <= k < |o| => o[k].handle);
    forall k | 0 <= k < |o| ensures o[k].handle in Handles(table, id) {
      assert Holds(o, o[k].handle) by { HoldsAt(o, k); }
      OthersHold(s, e, o[k].handle);
      HandleKnown(table, s, id, o[k].handle);
    }
    Pigeonhole(hs, Handles(table, id));
  }

  lemma HoldsAt(s: seq<Slot>, k: nat)
    requires k < |s|
    ensures Holds(s, s[k].handle)
  {
  }

  lemma HandleKnown(table: seq<Event>, s: seq<Slot>, id: nat, h: nat)
    requires FromTable(table, s) && id < |table| && Holds(s, h) && !table[id].Owns(h)
    ensures h in Handles(table, id)
  {
    hide Handles;
    var l :| 0 <= l < |s| && s[l].handle == h;
    var i :| 0 <= i < |table| && table[i].Owns(s[l].handle);
    HandlesHold(table, id, i, h);
  }

  /** And with fewer it cannot watch all events for both. */
  lemma {:induction false} RoomNeeded(table: seq<Event>, s: seq<Slot>)
    requires ProperTable(table) && Sound(s)
    requires forall i :: 0 <= i < |table| ==> WatchedBy(s, table[i]) == Flags(true, true)
    ensures 2 * |table| <= |s|
  {
    if table != [] {
      var n := |table| - 1;
      var o := Others(s, table[n]);
      OthersCount(s, table[n]);
      forall i | 0 <= i < n ensures WatchedBy(o, table[..n][i]) == Flags(true, true) {
        assert WatchedBy(s, table[i]) == Flags(true, true);
        OthersHold(s, table[n], table[i].read);
        OthersHold(s, table[n], table[i].write);
      }
      RoomNeeded(table[..n], o);
    }
  }

  /** we_init: the capacity, and the number of events it tells its caller (WSA_MAXIMUM_WAIT_EVENTS is 64). */
  method WeInit(maxevents: nat) returns (es: WeSet, allowed: nat)
    ensures fresh(es) && es.Valid() && es.Slots() == [] && fresh(es.events) && fresh(es.esr)
    ensures es.capacity == (if maxevents <= 32 then 2 * maxevents else 64)
    ensures allowed == (if maxevents <= 64 then maxevents else 64) && (2 * allowed <= es.capacity <==> maxevents <= 32)
  {
    es := new WeSet(if maxevents * 2 < 64 then maxevents * 2 else 64);
    allowed := if maxevents < 64 then maxevents else 64;
  }

  lemma OtherEvent(s: seq<Slot>, s': seq<Slot>, e: Event, f: Event)
    requires Others(s', e) == Others(s, e) && !e.Owns(f.read) && !e.Owns(f.write)
    ensures WatchedBy(s', f) == WatchedBy(s, f)
  {
    hide Others;
    OthersHold(s, e, f.read);
    OthersHold(s, e, f.write);
    OthersHold(s', e, f.read);
    OthersHold(s', e, f.write);
  }

  /** The slots of another event keep their flags. */
  lemma OtherLabelled(s: seq<Slot>, s': seq<Slot>, e: Event, f: Event)
    requires Others(s', e) == Others(s, e) && !e.Owns(f.read) && !e.Owns(f.write)
    requires Labelled(s, f)
    ensures Labelled(s', f)
  {
    hide Others;
    forall i | 0 <= i < |s'| && f.Owns(s'[i].handle)
      ensures s'[i].ret.flags == if s'[i].handle == f.read then READ else WRITE
    {
      OthersMembers(s', e, s'[i]);
      OthersMembers(s, e, s'[i]);
    }
  }

  lemma StaysInTable(table: seq<Event>, s: seq<Slot>, s': seq<Slot>, id: nat)
    requires id < |table| && Others(s', table[id]) == Others(s, table[id]) && FromTable(table, s) && Sound(s')
    ensures FromTable(table, s')
  {
    forall k | 0 <= k < |s'| ensures exists i :: 0 <= i < |table| && table[i].Owns(s'[k].handle) {
      var h := s'[k].handle;
      if !table[id].Owns(h) {
        assert Holds(s', h);
        OthersHold(s', table[id], h);
        OthersHold(s, table[id], h);
        var l :| 0 <= l < |s| && s[l].handle == h;
        assert exists i :: 0 <= i < |table| && table[i].Owns(s[l].handle);
      }
    }
  }

  /** Along any run of a Windows set with two slots for each event. */
  lemma {:induction false} WeRun(table: seq<Event>, capacity: nat, cmds: seq<Command>, run: seq<seq<Slot>>, k: nat)
    requires ProperTable(table) && 2 * |table| <= capacity && InTable(cmds, |table|)
    requires |run| == |cmds| + 1 && run[0] == [] && k <= |cmds|
    requires forall j :: 0 <= j < |cmds| ==>
               && |run[j]| <= capacity
               && WeDoes(table, capacity, run[j], run[j + 1], cmds[j])
    ensures Sound(run[k]) && FromTable(table, run[k])
    ensures forall id :: 0 <= id < |table| ==>
              WatchedBy(run[k], table[id]) == Watched(cmds, k, id) && Labelled(run[k], table[id])
  {
    if k > 0 {
      WeRun(table, capacity, cmds, run, k - 1);
      WeRunStep(table, capacity, run[k - 1], run[k], cmds[k - 1]);
      var s, s', c := run[k - 1], run[k], cmds[k - 1];
      hide Sound, FromTable, WatchedBy, Labelled, WeDoes;
      forall id | 0 <= id < |table|
        ensures WatchedBy(s', table[id]) == Watched(cmds, k, id) && Labelled(s', table[id])
      {
        assert WatchedBy(s, table[id]) == Watched(cmds, k - 1, id);
      }
    }
  }

  /** One call: its event gets what it asks for, and no other notices. */
  lemma WeRunStep(table: seq<Event>, capacity: nat, s: seq<Slot>, s': seq<Slot>, c: Command)
    requires ProperTable(table) && 2 * |table| <= capacity && c.id < |table|
    requires Sound(s) && FromTable(table, s) && |s| <= capacity && WeDoes(table, capacity, s, s', c)
    ensures Sound(s') && FromTable(table, s')
    ensures WatchedBy(s', table[c.id]) == Asked(c)
    ensures Labelled(s, table[c.id]) ==> Labelled(s', table[c.id])
    ensures forall id :: 0 <= id < |table| && id != c.id ==>
              && WatchedBy(s', table[id]) == WatchedBy(s, table[id])
              && (Labelled(s, table[id]) ==> Labelled(s', table[id]))
  {
    hide Sound, FromTable, Others, Labelled, WatchedBy;
    RoomForAll(table, s, c.id);
    StaysInTable(table, s, s', c.id);
    forall id | 0 <= id < |table| && id != c.id
      ensures WatchedBy(s', table[id]) == WatchedBy(s, table[id])
      ensures Labelled(s, table[id]) ==> Labelled(s', table[id])
    {
      OtherEvent(s, s', table[c.id], table[id]);
      if Labelled(s, table[id]) { OtherLabelled(s, s', table[c.id], table[id]); }
    }
  }

  /** Along any run of a poll set with an entry for each event. */
  lemma {:induction false} PoRun(n: nat, capacity: nat, cmds: seq<Command>, run: seq<seq<Entry>>, k: nat)
    requires n <= capacity && InTable(cmds, n)
    requires |run| == |cmds| + 1 && run[0] == [] && k <= |cmds|
    requires forall j :: 0 <= j < |cmds| ==> PoDoes(capacity, run[j], run[j + 1], cmds[j])
    ensures DistinctFds(run[k]) && forall f :: Polled(run[k], f).Some? ==> 0 <= f < n
    ensures forall id: nat :: PolledFlags(run[k], id) == Watched(cmds, k, id)
  {
    if k > 0 {
      hide Polled;
      PoRun(n, capacity, cmds, run, k - 1);
      var s, c := run[k - 1], cmds[k - 1];
      assert PoDoes(capacity, s, run[k], c);
      if Polled(s, c.id).None? { EntriesLeft(s, n, c.id); }
    }
  }

  lemma EntriesLeft(s: seq<Entry>, n: nat, id: nat)
    requires DistinctFds(s) && (forall f :: Polled(s, f).Some? ==> 0 <= f < n) && Polled(s, id).None? && id < n
    ensures |s| < n
  {
    var fds := seq(|s|, k requires 0 <= k < |s| => s[k].pfd.fd);
    forall f | f in fds ensures f in Below(n) - {id} {
      PolledAt(s, f);
    }
    Pigeonhole(fds, Below(n) - {id});
  }

  function Below(n: nat): (r: set<int>)
    ensures |r| == n && forall f :: f in r <==> 0 <= f < n
  {
    if n == 0 then {} else Below(n - 1) + {n - 1}
  }

  /** Along any run of a select set that has room for each descriptor. */
  lemma {:induction false} SeRun(n: nat, cmds: seq<Command>, run: seq<Selected>, k: nat)
    requires InTable(cmds, n) && |run| == |cmds| + 1 && k <= |cmds|
    requires run[0].read == run[0].write == {} && Covered(run[0]) && n <= |run[0].args|
    requires forall j :: 0 <= j < |cmds| ==> SeDoes(run[j], run[j + 1], cmds[j])
    ensures Covered(run[k]) && |run[k].args| == |run[0].args|
    ensures forall id: nat :: SelectedFlags(run[k], id) == Watched(cmds, k, id)
  {
    if k > 0 {
      SeRun(n, cmds, run, k - 1);
      assert SeDoes(run[k - 1], run[k], cmds[k - 1]);
    }
  }

  /**
   The three sets are one map: given the same calls, and room for the events, each watches every event
   for the flags of its last call, so all three watch it for the same; the Windows set returns its slots
   with those flags.
   */
  lemma BackendsAgree(table: seq<Event>, weCapacity: nat, poCapacity: nat, cmds: seq<Command>, we: seq<seq<Slot>>,
                      po: seq<seq<Entry>>, se: seq<Selected>, k: nat, id: nat)
    requires ProperTable(table) && InTable(cmds, |table|) && id < |table| && k <= |cmds|
    requires 2 * |table| <= weCapacity && |table| <= poCapacity
    requires |we| == |po| == |se| == |cmds| + 1 && we[0] == [] && po[0] == []
    requires se[0].read == se[0].write == {} && Covered(se[0]) && |table| <= |se[0].args|
    requires forall j :: 0 <= j < |cmds| ==>
               |we[j]| <= weCapacity && WeDoes(table, weCapacity, we[j], we[j + 1], cmds[j])
    requires forall j :: 0 <= j < |cmds| ==> PoDoes(poCapacity, po[j], po[j + 1], cmds[j])
    requires forall j :: 0 <= j < |cmds| ==> SeDoes(se[j], se[j + 1], cmds[j])
    ensures WatchedBy(we[k], table[id]) == PolledFlags(po[k], id) == SelectedFlags(se[k], id) == Watched(cmds, k, id)
    ensures Labelled(we[k], table[id])
  {
    WeRun(table, weCapacity, cmds, we, k);
    PoRun(|table|, poCapacity, cmds, po, k);
    SeRun(|table|, cmds, se, k);
  }
}
