/**
 Packet ids (packet_id.c): how they are sent, how they look on the wire, and the window in which a receiver
 takes them.
 */
module PacketId {
  import opened Bytes
  import opened Buffers
  import CircList

  const PACKET_ID_MAX: nat := 0xFFFF_FFFF

  // ----- sending -----

  datatype Pid = Pid(id: nat, time: nat)

  /** packet_id_send_update: the next id, None when it would roll over. */
  function Next(p: Pid, long: bool, now: nat): Option<Pid> {
    var time := if p.time == 0 then now else p.time;
    if p.id != PACKET_ID_MAX then Some(Pid(p.id + 1, time))
    else if !long || now <= time then None
    else Some(Pid(1, now))
  }

  /** The order in which ids are sent. */
  predicate Before(a: Pid, b: Pid) {
    a.time < b.time || (a.time == b.time && a.id < b.id)
  }

  /** What a failed call leaves: the time may have been set. */
  function Stay(p: Pid, now: nat): Pid {
    Pid(p.id, if p.time == 0 then now else p.time)
  }

  /** One attempt to send, by the state before and after and the clock. */
  predicate Attempt(p: Pid, p': Pid, long: bool, now: nat) {
    p' == if Next(p, long, now).Some? then Next(p, long, now).value else Stay(p, now)
  }

  ghost predicate Attempts(run: seq<Pid>, long: bool, clock: seq<nat>) {
    && |run| == |clock| + 1
    && forall k :: 0 <= k < |clock| ==> 0 < clock[k] && Attempt(run[k], run[k + 1], long, clock[k])
  }

  /**
   Ids are counted up by one until the largest; then only the long form goes on, with 1 at a later clock, and the
   short form stands still.
   */
  lemma {:induction false} CountsUp(run: seq<Pid>, long: bool, clock: seq<nat>, k: nat)
    requires Attempts(run, long, clock) && 0 < k <= |clock|
    ensures run[0].id + k <= 0xFFFF_FFFF ==>
              run[k] == Pid(run[0].id + k, if run[0].time == 0 then clock[0] else run[0].time)
    ensures k < |clock| && run[k].id == 0xFFFF_FFFF ==>
              run[k + 1] == if long && clock[k] > run[k].time then Pid(1, clock[k]) else run[k]
  {
    assert Attempt(run[k - 1], run[k], long, clock[k - 1]);
    if k > 1 {
      CountsUp(run, long, clock, k - 1);
      TimesSet(run, long, clock, k - 1);
    }
    TimesSet(run, long, clock, k);
    if k < |clock| { assert Attempt(run[k], run[k + 1], long, clock[k]); }
  }

  /** No run sends the same id twice: ids only grow, and one that was sent grew. */
  lemma NeverRepeats(run: seq<Pid>, long: bool, clock: seq<nat>, i: nat, j: nat)
    requires Attempts(run, long, clock) && i < j < |clock| && Next(run[j], long, clock[j]).Some?
    ensures Before(run[i + 1], run[j + 1]) && run[i + 1] != run[j + 1]
  {
    TimesSet(run, long, clock, j);
    assert Attempt(run[j], run[j + 1], long, clock[j]);
    if i + 1 < j { NotAfter(run, long, clock, i + 1, j); }
  }

  lemma {:induction false} TimesSet(run: seq<Pid>, long: bool, clock: seq<nat>, j: nat)
    requires Attempts(run, long, clock) && 0 < j <= |clock|
    ensures 0 < run[j].time
  {
    if j > 1 { TimesSet(run, long, clock, j - 1); }
    assert 0 < clock[j - 1] && Attempt(run[j - 1], run[j], long, clock[j - 1]);
  }

  lemma {:induction false} NotAfter(run: seq<Pid>, long: bool, clock: seq<nat>, i: nat, j: nat)
    requires Attempts(run, long, clock) && 0 < i <= j <= |clock|
    ensures run[i] == run[j] || Before(run[i], run[j])
    decreases j - i
  {
    if i < j {
      TimesSet(run, long, clock, j - 1);
      assert Attempt(run[j - 1], run[j], long, clock[j - 1]);
      NotAfter(run, long, clock, i, j - 1);
    }
  }

  /** The packet id on the wire; the time is cut to 32 bits. */
  function PidBytes(p: Pid, long: bool): (b: seq<byte>)
    ensures |b| == if long then 8 else 4
  {
    BigEndian(p.id, 4) + if long then BigEndian(p.time % U32, 4) else []
  }

  function PidSize(long: bool): nat {
    if long then 8 else 4
  }

  /** packet_id_read. */
  function ReadPid(b: seq<byte>, long: bool): Option<(Pid, seq<byte>)> {
    if |b| < PidSize(long) then None
    else Some((Pid(FromBigEndian(b[..4]), if long then FromBigEndian(b[4..8]) else 0), b[PidSize(long)..]))
  }

  /** What the other side reads of an id. */
  function Received(p: Pid, long: bool): Pid {
    Pid(p.id, if long then p.time % U32 else 0)
  }

  lemma PowerOf32()
    ensures Power256(4) == U32
  {
    assert Power256(1) == 0x100 && Power256(2) == 0x1_0000 && Power256(3) == 0x100_0000;
  }

  /** In the short form the time stays as it was first set. */
  lemma {:induction false} TimeConstant(run: seq<Pid>, clock: seq<nat>, i: nat, j: nat)
    requires Attempts(run, false, clock) && 0 < i <= j <= |clock|
    ensures run[i].time == run[j].time
    decreases j - i
  {
    if i < j {
      TimesSet(run, false, clock, j - 1);
      assert Attempt(run[j - 1], run[j], false, clock[j - 1]);
      TimeConstant(run, clock, i, j - 1);
    }
  }

  /** What a run keeps of the numbers that go into 32 bits. */
  lemma {:induction false} WithinWords(run: seq<Pid>, long: bool, clock: seq<nat>, j: nat)
    requires Attempts(run, long, clock) && j <= |clock| && run[0].id <= PACKET_ID_MAX
    ensures run[j].id <= PACKET_ID_MAX
    ensures run[0].time < U32 && (forall k :: 0 <= k < |clock| ==> clock[k] < U32) ==> run[j].time < U32
  {
    if j > 0 {
      WithinWords(run, long, clock, j - 1);
      assert Attempt(run[j - 1], run[j], long, clock[j - 1]);
    }
  }

  /** Equal on the wire only when equal in 32 bits. */
  lemma WireEqual(p: Pid, q: Pid, long: bool)
    requires p.id <= PACKET_ID_MAX && q.id <= PACKET_ID_MAX && PidBytes(p, long) == PidBytes(q, long)
    ensures p.id == q.id && (long ==> p.time % U32 == q.time % U32)
  {
    PidReads(p, long, []);
    PidReads(q, long, []);
  }

  /**
   No id goes over the wire twice: short ids never, for the time they leave out is constant; long ids
   as long as the clock fits its 32 bits.
   */
  lemma WireNeverRepeats(run: seq<Pid>, long: bool, clock: seq<nat>, i: nat, j: nat)
    requires Attempts(run, long, clock) && i < j < |clock| && Next(run[j], long, clock[j]).Some?
    requires run[0].id <= PACKET_ID_MAX
    requires long ==> run[0].time < U32 && forall k :: 0 <= k < |clock| ==> clock[k] < U32
    ensures PidBytes(run[i + 1], long) != PidBytes(run[j + 1], long)
  {
    hide PidBytes, Attempt, Attempts, Next;
    NeverRepeats(run, long, clock, i, j);
    RunLength(run, long, clock);
    WithinWords(run, long, clock, i + 1);
    WithinWords(run, long, clock, j + 1);
    if !long { TimeConstant(run, clock, i + 1, j + 1); }
    if PidBytes(run[i + 1], long) == PidBytes(run[j + 1], long) { WireEqual(run[i + 1], run[j + 1], long); }
  }

  lemma RunLength(run: seq<Pid>, long: bool, clock: seq<nat>)
    requires Attempts(run, long, clock)
    ensures |run| == |clock| + 1
  {
  }

  /** The wire form: the id in network order, behind it in the long form the time cut to 32 bits. */
  lemma PidLayout(p: Pid, long: bool)
    requires p.id <= PACKET_ID_MAX
    ensures var b := PidBytes(p, long);
            && |b| == (if long then 8 else 4) && FromBigEndian(b[..4]) == p.id
            && (long ==> FromBigEndian(b[4..]) == p.time % 0x1_0000_0000)
  {
    hide BigEndian, FromBigEndian, Power256;
    PowerOf32();
    BigEndianInverts(p.id, 4);
    BigEndianInverts(p.time % U32, 4);
    assert PidBytes(p, long)[..4] == BigEndian(p.id, 4);
    if long { assert PidBytes(p, long)[4..] == BigEndian(p.time % U32, 4); }
  }

  lemma PidReads(p: Pid, long: bool, rest: seq<byte>)
    requires p.id <= PACKET_ID_MAX
    ensures ReadPid(PidBytes(p, long) + rest, long) == Some((Received(p, long), rest))
  {
    hide BigEndian, FromBigEndian, Power256;
    PowerOf32();
    BigEndianInverts(p.id, 4);
    BigEndianInverts(p.time % U32, 4);
    var b := PidBytes(p, long) + rest;
    assert b[..4] == BigEndian(p.id, 4);
    if long { assert b[4..8] == BigEndian(p.time % U32, 4); }
    assert b[PidSize(long)..] == rest;
  }

  /** struct packet_id_send. */
  class PacketIdSend {
    var id: nat
    var time: nat

    ghost function State(): Pid
      reads this
    {
      Pid(id, time)
    }

    /** packet_id_send_update. */
    method Update(long: bool, now: nat) returns (ok: bool)
      modifies this
      ensures Attempt(old(State()), State(), long, now)
      ensures ok <==> Next(old(State()), long, now).Some?
      ensures ok <==> id != old(id)
    {
      if time == 0 { time := now; }
      if id == PACKET_ID_MAX {
        if !long || now <= time { return false; }
        time := now;
        id := 0;
      }
      id := id + 1;
      return true;
    }

    /** packet_id_write in front of the content: the time first, so that the id stands in front of it. */
    method WritePrepend(buf: Buffer, long: bool, now: nat) returns (ok: bool)
      requires buf.Valid() && id <= PACKET_ID_MAX
      modifies this, buf, buf.data
      ensures Attempt(old(State()), State(), long, now) && id <= PACKET_ID_MAX
      ensures buf.Valid() && buf.data == old(buf.data)
      ensures ok <==> Next(old(State()), long, now).Some? && PidSize(long) <= old(buf.offset)
      ensures ok ==> buf.Content() == PidBytes(State(), long) + old(buf.Content())
                     && buf.offset == old(buf.offset) - PidSize(long)
    {
      hide BigEndian;
      ok := Update(long, now);
      if !ok { return; }
      if long {
        ok := buf.WritePrepend(BigEndian(time % U32, 4));
        if !ok { return; }
      }
      ok := buf.WritePrepend(BigEndian(id, 4));
    }
  }

  // ----- receiving -----

  const SEQ_UNSEEN: int := 0
  const SEQ_EXPIRED: int := 1
  const SEQ_REAP_INTERVAL: nat := 5
  const MAX_SEQ_BACKTRACK: nat := 65536
  const MAX_TIME_BACKTRACK: nat := 600

  /** How far ids may come out of order, in numbers and in seconds; 0 in numbers means not at all. */
  datatype Limits = Limits(seqBacktrack: nat, timeBacktrack: nat)

  /** The highest time and id received; `seen[d]` is when the id `d` below came, or why none can come any more. */
  datatype Window = Window(time: nat, id: nat, seen: seq<int>)

  /** packet_id_test. */
  predicate Takes(w: Window, back: nat, pin: Pid) {
    && pin.id != 0
    && if back > 0 then
         if pin.time == w.time then
           pin.id > w.id || (w.id - pin.id < |w.seen| && w.seen[w.id - pin.id] == SEQ_UNSEEN)
         else pin.time > w.time
       else
         if pin.time == w.time then w.id == 0 || pin.id == (w.id + 1) % U32
         else pin.time > w.time && pin.id == 1
  }

  /** `n` more unseen ids in front. */
  function Shifted(seen: seq<int>, n: nat, back: nat): seq<int> {
    if n == 0 then seen else CircList.Pushed(Shifted(seen, n - 1, back), SEQ_UNSEEN, back)
  }

  /** Where packet_id_add starts: from scratch for a later time or an id that leaves the window behind. */
  function Base(w: Window, back: nat, pin: Pid): Window {
    if w.seen == [] || pin.time > w.time || (pin.id >= back && pin.id - back > w.id) then
      Window(pin.time, if pin.id > back then pin.id - back else 0, [])
    else w
  }

  /** packet_id_add. */
  function Noted(w: Window, back: nat, pin: Pid, now: nat): Window {
    if back == 0 then Window(pin.time, pin.id, [])
    else
      var base := Base(w, back, pin);
      var top := if base.id < pin.id then pin.id else base.id;
      var seen := Shifted(base.seen, top - base.id, back);
      Window(base.time, top,
             if top - pin.id < |seen| && now > SEQ_EXPIRED then seen[top - pin.id := now] else seen)
  }

  /** packet_id_reap: with the first that came too long ago all below it are given up. */
  function Reaped(seen: seq<int>, timeBack: nat, now: nat, expire: bool): (r: seq<int>)
    ensures |r| == |seen|
  {
    if seen == [] || seen[0] == SEQ_EXPIRED then seen
    else
      var e := expire || (seen[0] != SEQ_UNSEEN && seen[0] + timeBack < now);
      [if e then SEQ_EXPIRED else seen[0]] + Reaped(seen[1..], timeBack, now, e)
  }

  /** The receiver's state, with the time of the last reap. */
  datatype Receiver = Receiver(window: Window, lastReap: nat)

  /** packet_id_reap_test. */
  function AfterReap(limits: Limits, r: Receiver, now: nat): Receiver {
    if r.lastReap + SEQ_REAP_INTERVAL > now then r
    else
      var w := r.window;
      Receiver(if limits.timeBacktrack > 0 then w.(seen := Reaped(w.seen, limits.timeBacktrack, now, false)) else w,
               now)
  }

  /** crypto_check_replay: the answer, and the state it leaves. */
  predicate Accepts(limits: Limits, r: Receiver, pin: Pid, now: nat) {
    Takes(AfterReap(limits, r, now).window, limits.seqBacktrack, pin)
  }

  function AfterCheck(limits: Limits, r: Receiver, pin: Pid, now: nat): Receiver {
    var r' := AfterReap(limits, r, now);
    if Accepts(limits, r, pin, now) then r'.(window := Noted(r'.window, limits.seqBacktrack, pin, now)) else r'
  }

  lemma ReapStep(done: seq<int>, s: seq<int>, i: nat, timeBack: nat, now: nat, expire: bool)
    requires i < |s| && s[i] != SEQ_EXPIRED
    ensures var e := expire || (s[i] != SEQ_UNSEEN && s[i] + timeBack < now);
            done + Reaped(s[i..], timeBack, now, expire)
            == (done + [if e then SEQ_EXPIRED else s[i]]) + Reaped(s[i + 1..], timeBack, now, e)
  {
    assert s[i..][1..] == s[i + 1..];
  }

  lemma ReapEnd(s: seq<int>, i: nat, timeBack: nat, now: nat, expire: bool)
    requires i <= |s| && (i == |s| || s[i] == SEQ_EXPIRED)
    ensures Reaped(s[i..], timeBack, now, expire) == s[i..]
  {
  }

  lemma OneFurther(done: seq<int>, s: seq<int>, i: nat, x: int)
    requires i == |done| && i < |s|
    ensures (done + s[i..])[i := x] == (done + [x]) + s[i + 1..]
    ensures x == s[i] ==> (done + s[i..])[i := x] == done + s[i..]
  {
  }

  /** The loop of packet_id_reap. */
  method ReapList(l: CircList.List, timeBack: nat, now: nat)
    requires l.Valid()
    modifies l.list
    ensures l.Valid() && l.Items() == Reaped(old(l.Items()), timeBack, now, false)
  {
    hide Reaped, CircList.Unrolled;
    ghost var was, done := l.Items(), [];
    var i, expire := 0, false;
    assert was[0..] == was && done + Reaped(was, timeBack, now, false) == Reaped(was, timeBack, now, false);
    while i < l.size
      invariant l.Valid() && 0 <= i <= l.size == |was| == |l.Items()|
      invariant l.Items() == done + was[i..] && |done| == i
      invariant done + Reaped(was[i..], timeBack, now, expire) == Reaped(was, timeBack, now, false)
    {
      var t := l.Item(i);
      assert t == was[i];
      if t == SEQ_EXPIRED { break; }
      ReapStep(done, was, i, timeBack, now, expire);
      if !expire && t != 0 && t + timeBack < now { expire := true; }
      ghost var x := if expire then SEQ_EXPIRED else t;
      OneFurther(done, was, i, x);
      if expire { l.Put(i, SEQ_EXPIRED); }
      assert l.Items() == (done + was[i..])[i := x];
      done := done + [x];
      i := i + 1;
    }
    ReapEnd(was, i, timeBack, now, expire);
  }

  // ----- no id twice -----

  /** The window is as wide as it may be, or reaches down to the first id. */
  predicate Sized(w: Window, back: nat) {
    w.id <= PACKET_ID_MAX && (w.seen == [] || |w.seen| == if w.id < back then w.id else back)
  }

  lemma {:induction false} ShiftedIs(seen: seq<int>, n: nat, back: nat)
    requires |seen| <= back
    ensures var s := Shifted(seen, n, back);
            && |s| == (if |seen| + n < back then |seen| + n else back)
            && forall i :: 0 <= i < |s| ==> s[i] == if i < n then SEQ_UNSEEN else seen[i - n]
  {
    if n > 0 { ShiftedIs(seen, n - 1, back); }
  }

  /** The state packet_id_add leaves for an id that was taken. */
  lemma NotedIs(w: Window, back: nat, pin: Pid, now: nat)
    requires back > 0 && Sized(w, back) && Takes(w, back, pin) && pin.id <= PACKET_ID_MAX
    ensures var w', base := Noted(w, back, pin, now), Base(w, back, pin);
            var n := w'.id - base.id;
            && Sized(w', back) && w'.seen != [] && w'.time == pin.time && n >= 0
            && w'.id == (if base.id < pin.id then pin.id else base.id) && w'.id - pin.id < |w'.seen|
            && forall d :: 0 <= d < |w'.seen| ==>
                 w'.seen[d] == if d == w'.id - pin.id && now > SEQ_EXPIRED then now
                               else if d < n then SEQ_UNSEEN else base.seen[d - n]
  {
    hide Shifted;
    var base := Base(w, back, pin);
    ShiftedIs(base.seen, if base.id < pin.id then pin.id - base.id else 0, back);
  }

  /** An id that was taken is taken again exactly when the clock, out of order allowed, is too low to be noted. */
  lemma TakenAgain(w: Window, back: nat, pin: Pid, now: nat)
    requires Sized(w, back) && Takes(w, back, pin) && pin.id <= PACKET_ID_MAX
    ensures Takes(Noted(w, back, pin, now), back, pin) <==> back > 0 && now <= SEQ_EXPIRED
  {
    if back > 0 {
      NotedIs(w, back, pin, now);
      hide Noted, Sized;
      assert Base(w, back, pin).id < pin.id || Base(w, back, pin) == w;
    }
  }

  /** Behind the window, or in it and seen or given up. */
  predicate Past(w: Window, back: nat, pin: Pid) {
    || pin.time < w.time
    || (pin.time == w.time && pin.id <= w.id
        && if back > 0 then w.seen != [] && (w.id - pin.id < |w.seen| ==> w.seen[w.id - pin.id] != SEQ_UNSEEN)
           else w.id > 0)
  }

  lemma PastIsRejected(w: Window, back: nat, pin: Pid)
    requires Past(w, back, pin) && w.id <= PACKET_ID_MAX
    ensures !Takes(w, back, pin)
  {
  }

  lemma NotedIsPast(w: Window, back: nat, pin: Pid, now: nat)
    requires Sized(w, back) && Takes(w, back, pin) && pin.id <= PACKET_ID_MAX && now > SEQ_EXPIRED
    ensures Past(Noted(w, back, pin, now), back, pin)
  {
    if back > 0 {
      NotedIs(w, back, pin, now);
      hide Noted, Sized;
    }
  }

  lemma PastStaysPast(w: Window, back: nat, pin: Pid, now: nat, past: Pid)
    requires Sized(w, back) && Takes(w, back, pin) && pin.id <= PACKET_ID_MAX && Past(w, back, past)
    ensures Past(Noted(w, back, pin, now), back, past)
  {
    if back > 0 {
      NotedIs(w, back, pin, now);
      hide Noted;
    }
  }

  /** An entry that is older than the limit allows. */
  predicate Late(seen: seq<int>, j: nat, timeBack: nat, now: nat)
    requires j < |seen|
  {
    seen[j] != SEQ_UNSEEN && seen[j] != SEQ_EXPIRED && seen[j] + timeBack < now
  }

  /** Below an id that was given up all are. */
  predicate GivenUpBelow(seen: seq<int>) {
    forall i, j :: 0 <= i < j < |seen| && seen[i] == SEQ_EXPIRED ==> seen[j] == SEQ_EXPIRED
  }

  /** Reaping gives up exactly what has a late entry at or above it, and changes nothing else. */
  lemma {:induction false} ReapedExactly(seen: seq<int>, timeBack: nat, now: nat, expire: bool, d: nat)
    requires d < |seen| && GivenUpBelow(seen)
    ensures Reaped(seen, timeBack, now, expire)[d]
         == if expire || exists j :: 0 <= j <= d && Late(seen, j, timeBack, now) then SEQ_EXPIRED else seen[d]
  {
    if seen[0] == SEQ_EXPIRED {
      assert seen[d] == SEQ_EXPIRED;
    } else {
      var e := expire || Late(seen, 0, timeBack, now);
      var tail := seen[1..];
      assert Reaped(seen, timeBack, now, expire)
             == [if e then SEQ_EXPIRED else seen[0]] + Reaped(tail, timeBack, now, e);
      if d > 0 {
        ReapedExactly(tail, timeBack, now, e, d - 1);
        assert forall j :: 0 <= j < |tail| ==> Late(tail, j, timeBack, now) == Late(seen, j + 1, timeBack, now);
        if !e && exists j :: 0 <= j <= d && Late(seen, j, timeBack, now) {
          var j :| 0 <= j <= d && Late(seen, j, timeBack, now);
          assert Late(tail, j - 1, timeBack, now);
        }
      }
    }
  }

  lemma NotedGivesUpBelow(w: Window, back: nat, pin: Pid, now: nat)
    requires back > 0 && Sized(w, back) && Takes(w, back, pin) && pin.id <= PACKET_ID_MAX && GivenUpBelow(w.seen)
    ensures GivenUpBelow(Noted(w, back, pin, now).seen)
  {
    NotedIs(w, back, pin, now);
    hide Noted;
  }

  lemma ReapedGivesUpBelow(seen: seq<int>, timeBack: nat, now: nat)
    requires GivenUpBelow(seen)
    ensures GivenUpBelow(Reaped(seen, timeBack, now, false))
  {
    hide Reaped;
    var r := Reaped(seen, timeBack, now, false);
    forall i, j | 0 <= i < j < |r| && r[i] == SEQ_EXPIRED ensures r[j] == SEQ_EXPIRED {
      ReapedExactly(seen, timeBack, now, false, i);
      ReapedExactly(seen, timeBack, now, false, j);
    }
  }

  // ----- runs of the receiver -----

  datatype Arrival = Arrival(pin: Pid, now: nat)

  /** What a receiver keeps. */
  predicate Kept(limits: Limits, r: Receiver) {
    Sized(r.window, limits.seqBacktrack) && GivenUpBelow(r.window.seen)
    && (limits.seqBacktrack == 0 ==> r.window.seen == [])
  }

  lemma ReapKeeps(limits: Limits, r: Receiver, now: nat)
    requires Kept(limits, r)
    ensures Kept(limits, AfterReap(limits, r, now))
  {
    hide Reaped;
    ReapedGivesUpBelow(r.window.seen, limits.timeBacktrack, now);
  }

  lemma CheckKeeps(limits: Limits, r: Receiver, pin: Pid, now: nat)
    requires Kept(limits, r) && pin.id <= PACKET_ID_MAX
    ensures Kept(limits, AfterCheck(limits, r, pin, now))
  {
    hide Reaped, Takes, AfterReap, GivenUpBelow;
    ReapKeeps(limits, r, now);
    var w := AfterReap(limits, r, now).window;
    if Accepts(limits, r, pin, now) {
      if limits.seqBacktrack > 0 {
        NotedIs(w, limits.seqBacktrack, pin, now);
        NotedGivesUpBelow(w, limits.seqBacktrack, pin, now);
      } else {
        assert GivenUpBelow([]) by { NothingGivenUp(); }
      }
    }
  }

  lemma NothingGivenUp()
    ensures GivenUpBelow([])
  {
  }

  /** A run from a receiver that has seen nothing, though it may know of an earlier time and id. */
  ghost predicate Receives(limits: Limits, rs: seq<Receiver>, calls: seq<Arrival>) {
    && |rs| == |calls| + 1 && rs[0].window.seen == [] && rs[0].window.id <= PACKET_ID_MAX
    && forall k :: 0 <= k < |calls| ==>
         && calls[k].pin.id <= PACKET_ID_MAX
         && rs[k + 1] == AfterCheck(limits, rs[k], calls[k].pin, calls[k].now)
  }

  predicate Accepted(limits: Limits, rs: seq<Receiver>, calls: seq<Arrival>, k: nat)
    requires k < |calls| && k < |rs|
  {
    Accepts(limits, rs[k], calls[k].pin, calls[k].now)
  }

  lemma {:induction false} RunKeeps(limits: Limits, rs: seq<Receiver>, calls: seq<Arrival>, k: nat)
    requires Receives(limits, rs, calls) && k <= |calls|
    ensures Kept(limits, rs[k])
  {
    if k == 0 {
      StartKept(limits, rs[0]);
    } else {
      RunKeeps(limits, rs, calls, k - 1);
      CheckKeeps(limits, rs[k - 1], calls[k - 1].pin, calls[k - 1].now);
    }
  }

  lemma ReapKeepsPast(limits: Limits, r: Receiver, now: nat, pin: Pid)
    requires Kept(limits, r) && Past(r.window, limits.seqBacktrack, pin)
    ensures Past(AfterReap(limits, r, now).window, limits.seqBacktrack, pin)
  {
    hide Reaped;
    var w := r.window;
    if w.id - pin.id >= 0 && w.id - pin.id < |w.seen| {
      ReapedExactly(w.seen, limits.timeBacktrack, now, false, w.id - pin.id);
    }
  }

  lemma CheckKeepsPast(limits: Limits, r: Receiver, pin: Pid, now: nat, past: Pid)
    requires Kept(limits, r) && pin.id <= PACKET_ID_MAX && Past(r.window, limits.seqBacktrack, past)
    ensures Past(AfterCheck(limits, r, pin, now).window, limits.seqBacktrack, past)
  {
    hide Past, Noted, AfterReap, Takes, GivenUpBelow;
    ReapKeeps(limits, r, now);
    ReapKeepsPast(limits, r, now, past);
    if Accepts(limits, r, pin, now) {
      PastStaysPast(AfterReap(limits, r, now).window, limits.seqBacktrack, pin, now, past);
    }
  }

  /** An accepted id is past. */
  lemma CheckNotes(limits: Limits, r: Receiver, pin: Pid, now: nat)
    requires Kept(limits, r) && pin.id <= PACKET_ID_MAX && now > SEQ_EXPIRED && Accepts(limits, r, pin, now)
    ensures Past(AfterCheck(limits, r, pin, now).window, limits.seqBacktrack, pin)
  {
    hide Past, Noted, AfterReap, Takes, Kept;
    ReapKeeps(limits, r, now);
    KeptIsSized(limits, AfterReap(limits, r, now));
    NotedIsPast(AfterReap(limits, r, now).window, limits.seqBacktrack, pin, now);
  }

  /** And stays refused. */
  lemma PastIsRefused(limits: Limits, r: Receiver, now: nat, pin: Pid)
    requires Kept(limits, r) && Past(r.window, limits.seqBacktrack, pin)
    ensures !Accepts(limits, r, pin, now)
  {
    hide Past, AfterReap, Takes, Kept;
    ReapKeeps(limits, r, now);
    KeptIsSized(limits, AfterReap(limits, r, now));
    ReapKeepsPast(limits, r, now, pin);
    PastIsRejected(AfterReap(limits, r, now).window, limits.seqBacktrack, pin);
  }

  lemma StartKept(limits: Limits, r: Receiver)
    requires r.window.seen == [] && r.window.id <= PACKET_ID_MAX
    ensures Kept(limits, r)
  {
    NothingGivenUp();
  }

  /** Once accepted an id is past in every later state. */
  lemma {:induction false} AcceptedIsPast(limits: Limits, rs: seq<Receiver>, calls: seq<Arrival>, i: nat, k: nat)
    requires Receives(limits, rs, calls) && i < k <= |calls| && Accepted(limits, rs, calls, i)
    requires calls[i].now > SEQ_EXPIRED
    ensures Past(rs[k].window, limits.seqBacktrack, calls[i].pin)
    decreases k - i
  {
    hide Past, Noted, AfterReap, Takes, Kept;
    RunKeeps(limits, rs, calls, k - 1);
    if i == k - 1 {
      CheckNotes(limits, rs[i], calls[i].pin, calls[i].now);
    } else {
      AcceptedIsPast(limits, rs, calls, i, k - 1);
      CheckKeepsPast(limits, rs[k - 1], calls[k - 1].pin, calls[k - 1].now, calls[i].pin);
    }
  }

  lemma KeptIsSized(limits: Limits, r: Receiver)
    requires Kept(limits, r)
    ensures Sized(r.window, limits.seqBacktrack) && r.window.id <= PACKET_ID_MAX
  {
  }

  /** Along any run no packet id is accepted twice, in or out of order, whatever was reaped in between. */
  lemma NoReplay(limits: Limits, rs: seq<Receiver>, calls: seq<Arrival>, i: nat, j: nat)
    requires Receives(limits, rs, calls) && i < j < |calls| && calls[i].now > SEQ_EXPIRED
    requires Accepted(limits, rs, calls, i) && Accepted(limits, rs, calls, j)
    ensures calls[i].pin != calls[j].pin
  {
    hide Past, Kept, Accepts;
    AcceptedIsPast(limits, rs, calls, i, j);
    RunKeeps(limits, rs, calls, j);
    PastIsRefused(limits, rs[j], calls[j].now, calls[i].pin);
  }

  // ----- late ids -----

  /** An id noted at `now` is still noted, given up, or no longer looked at. */
  predicate Remembers(w: Window, pin: Pid, now: int) {
    || pin.time < w.time
    || (pin.time == w.time && pin.id <= w.id && w.seen != []
        && (w.id - pin.id < |w.seen| ==>
              w.seen[w.id - pin.id] == now || w.seen[w.id - pin.id] == SEQ_EXPIRED))
  }

  lemma NotedIsRemembered(w: Window, back: nat, pin: Pid, now: nat)
    requires back > 0 && Sized(w, back) && Takes(w, back, pin) && pin.id <= PACKET_ID_MAX && now > SEQ_EXPIRED
    ensures Remembers(Noted(w, back, pin, now), pin, now)
  {
    NotedIs(w, back, pin, now);
    hide Noted, Sized;
  }

  lemma NotingRemembers(w: Window, back: nat, pin: Pid, now: nat, known: Pid, noted: nat)
    requires back > 0 && Sized(w, back) && Takes(w, back, pin) && pin.id <= PACKET_ID_MAX
    requires noted > SEQ_EXPIRED && Remembers(w, known, noted)
    ensures Remembers(Noted(w, back, pin, now), known, noted)
  {
    NotedIs(w, back, pin, now);
    hide Noted;
  }

  lemma ReapRemembers(limits: Limits, r: Receiver, now: nat, pin: Pid, noted: nat)
    requires Kept(limits, r) && Remembers(r.window, pin, noted)
    ensures Remembers(AfterReap(limits, r, now).window, pin, noted)
  {
    hide Reaped;
    var w := r.window;
    if pin.id <= w.id && w.id - pin.id < |w.seen| {
      ReapedExactly(w.seen, limits.timeBacktrack, now, false, w.id - pin.id);
    }
  }

  lemma {:induction false} AcceptedIsRemembered(limits: Limits, rs: seq<Receiver>, calls: seq<Arrival>, i: nat, k: nat)
    requires Receives(limits, rs, calls) && limits.seqBacktrack > 0 && i < k <= |calls|
    requires Accepted(limits, rs, calls, i) && calls[i].now > SEQ_EXPIRED
    ensures Remembers(rs[k].window, calls[i].pin, calls[i].now)
    decreases k - i
  {
    hide Remembers, Noted, AfterReap, Takes, Kept;
    var c := calls[k - 1];
    var r' := AfterReap(limits, rs[k - 1], c.now);
    RunKeeps(limits, rs, calls, k - 1);
    ReapKeeps(limits, rs[k - 1], c.now);
    KeptIsSized(limits, r');
    if i == k - 1 {
      NotedIsRemembered(r'.window, limits.seqBacktrack, c.pin, c.now);
    } else {
      AcceptedIsRemembered(limits, rs, calls, i, k - 1);
      ReapRemembers(limits, rs[k - 1], c.now, calls[i].pin, calls[i].now);
      if Accepts(limits, rs[k - 1], c.pin, c.now) {
        NotingRemembers(r'.window, limits.seqBacktrack, c.pin, c.now, calls[i].pin, calls[i].now);
      }
    }
  }

  /** Reaping leaves nothing open at or below an id that was noted too long ago. */
  lemma ReapEnds(limits: Limits, r: Receiver, now: nat, above: Pid, noted: nat, pin: Pid)
    requires Kept(limits, r) && limits.seqBacktrack > 0 && limits.timeBacktrack > 0
    requires r.lastReap + SEQ_REAP_INTERVAL <= now && SEQ_EXPIRED < noted && noted + limits.timeBacktrack < now
    requires Remembers(r.window, above, noted) && pin.time == above.time && pin.id <= above.id
    ensures Past(AfterReap(limits, r, now).window, limits.seqBacktrack, pin)
  {
    hide Reaped;
    var w := r.window;
    if pin.time == w.time && w.id - pin.id < |w.seen| {
      var d, e := w.id - pin.id, w.id - above.id;
      assert w.seen[e] == SEQ_EXPIRED || Late(w.seen, e, limits.timeBacktrack, now);
      ReapedExactly(w.seen, limits.timeBacktrack, now, false, d);
      assert e < d && w.seen[e] == SEQ_EXPIRED ==> w.seen[d] == SEQ_EXPIRED;
    }
  }

  lemma {:induction false} PastOn(limits: Limits, rs: seq<Receiver>, calls: seq<Arrival>, k: nat, j: nat, pin: Pid)
    requires Receives(limits, rs, calls) && k <= j <= |calls| && Past(rs[k].window, limits.seqBacktrack, pin)
    ensures Past(rs[j].window, limits.seqBacktrack, pin)
    decreases j - k
  {
    hide Past, Kept, AfterCheck;
    if k < j {
      PastOn(limits, rs, calls, k, j - 1, pin);
      RunKeeps(limits, rs, calls, j - 1);
      CheckKeepsPast(limits, rs[j - 1], calls[j - 1].pin, calls[j - 1].now, pin);
    }
  }

  /** What is past once the list was reaped stays so when the packet that came is noted. */
  lemma PastBehindReap(limits: Limits, r: Receiver, pin: Pid, now: nat, past: Pid)
    requires Kept(limits, r) && pin.id <= PACKET_ID_MAX
    requires Past(AfterReap(limits, r, now).window, limits.seqBacktrack, past)
    ensures Past(AfterCheck(limits, r, pin, now).window, limits.seqBacktrack, past)
    ensures pin == past ==> !Accepts(limits, r, pin, now)
  {
    hide Past, Noted, AfterReap, Takes, Kept;
    ReapKeeps(limits, r, now);
    KeptIsSized(limits, AfterReap(limits, r, now));
    PastIsRejected(AfterReap(limits, r, now).window, limits.seqBacktrack, past);
    if Accepts(limits, r, pin, now) {
      PastStaysPast(AfterReap(limits, r, now).window, limits.seqBacktrack, pin, now, past);
    }
  }

  /**
   The time limit is enforced: once the list was reaped, five seconds or more after the time before, an id at or
   below one of its time that was accepted more than the limit earlier is refused, then and ever after.
   */
  lemma LateIsRefused(limits: Limits, rs: seq<Receiver>, calls: seq<Arrival>, i: nat, m: nat, j: nat)
    requires Receives(limits, rs, calls) && limits.seqBacktrack > 0 && limits.timeBacktrack > 0
    requires i < m <= j < |calls| && Accepted(limits, rs, calls, i) && calls[i].now > 1
    requires calls[j].pin.time == calls[i].pin.time && calls[j].pin.id <= calls[i].pin.id
    requires calls[i].now + limits.timeBacktrack < calls[m].now && rs[m].lastReap + 5 <= calls[m].now
    ensures !Accepted(limits, rs, calls, j)
  {
    hide Past, Kept, AfterCheck, AfterReap, Remembers, Accepts;
    var pin := calls[j].pin;
    AcceptedIsRemembered(limits, rs, calls, i, m);
    RunKeeps(limits, rs, calls, m);
    ReapEnds(limits, rs[m], calls[m].now, calls[i].pin, calls[i].now, pin);
    PastBehindReap(limits, rs[m], calls[m].pin, calls[m].now, pin);
    if m < j {
      PastOn(limits, rs, calls, m + 1, j, pin);
      RunKeeps(limits, rs, calls, j);
      PastIsRefused(limits, rs[j], calls[j].now, pin);
    }
  }

  // ----- nothing else is refused -----

  /** One of the first `n` calls accepted this id at a clock that can be noted. */
  ghost predicate Came(limits: Limits, rs: seq<Receiver>, calls: seq<Arrival>, n: nat, pin: Pid)
    requires n <= |calls| && n <= |rs|
  {
    exists i :: 0 <= i < n && Accepted(limits, rs, calls, i) && calls[i].now > SEQ_EXPIRED && calls[i].pin == pin
  }

  /**
   Of two of the first `n` calls one accepted this id or one above it, longer than allowed before the other, which
   reaped.
   */
  ghost predicate TooLate(limits: Limits, rs: seq<Receiver>, calls: seq<Arrival>, n: nat, pin: Pid)
    requires n <= |calls| && n <= |rs|
  {
    limits.timeBacktrack > 0
    && exists i, m :: 0 <= i < m < n && Accepted(limits, rs, calls, i) && calls[i].now > SEQ_EXPIRED
                      && calls[i].pin.time == pin.time && calls[i].pin.id >= pin.id
                      && calls[i].now + limits.timeBacktrack < calls[m].now
                      && rs[m].lastReap + SEQ_REAP_INTERVAL <= calls[m].now
  }

  /** Where an entry comes from: `n` calls were tested, `m` may have reaped. */
  ghost predicate EntryFrom(limits: Limits, rs: seq<Receiver>, calls: seq<Arrival>, n: nat, m: nat, pin: Pid,
                            entry: int)
    requires n <= m <= |calls| && m <= |rs|
  {
    || entry == SEQ_UNSEEN
    || (entry == SEQ_EXPIRED && TooLate(limits, rs, calls, m, pin))
    || (entry > SEQ_EXPIRED
        && exists i :: 0 <= i < n && Accepted(limits, rs, calls, i) && calls[i].pin == pin && calls[i].now == entry)
  }

  ghost predicate Explained(limits: Limits, rs: seq<Receiver>, calls: seq<Arrival>, n: nat, m: nat, w: Window)
    requires n <= m <= |calls| && m <= |rs|
  {
    forall d :: 0 <= d < |w.seen| && w.id >= d ==> EntryFrom(limits, rs, calls, n, m, Pid(w.id - d, w.time), w.seen[d])
  }

  lemma EntryStays(limits: Limits, rs: seq<Receiver>, calls: seq<Arrival>, n: nat, m: nat, n': nat, m': nat,
                   pin: Pid, entry: int)
    requires n <= m <= |calls| && m <= |rs| && n <= n' <= m' <= |calls| && m <= m' <= |rs|
    requires EntryFrom(limits, rs, calls, n, m, pin, entry)
    ensures EntryFrom(limits, rs, calls, n', m', pin, entry)
  {
    hide Accepted;
  }

  /** A late entry at or above an id makes it too late. */
  lemma LateIsTooLate(limits: Limits, rs: seq<Receiver>, calls: seq<Arrival>, k: nat, pin: Pid, above: Pid, entry: int)
    requires k < |calls| && k < |rs| && above.time == pin.time && above.id >= pin.id
    requires entry != SEQ_UNSEEN && entry != SEQ_EXPIRED && entry + limits.timeBacktrack < calls[k].now
    requires EntryFrom(limits, rs, calls, k, k, above, entry)
    requires limits.timeBacktrack > 0 && rs[k].lastReap + SEQ_REAP_INTERVAL <= calls[k].now
    ensures TooLate(limits, rs, calls, k + 1, pin)
  {
    hide Accepted;
    var i :| 0 <= i < k && Accepted(limits, rs, calls, i) && calls[i].pin == above && calls[i].now == entry;
    assert calls[i].now + limits.timeBacktrack < calls[k].now;
  }

  lemma ReapExplained(limits: Limits, rs: seq<Receiver>, calls: seq<Arrival>, k: nat)
    requires k < |calls| && k < |rs| && Kept(limits, rs[k]) && Explained(limits, rs, calls, k, k, rs[k].window)
    ensures Explained(limits, rs, calls, k, k + 1, AfterReap(limits, rs[k], calls[k].now).window)
  {
    hide Reaped, EntryFrom;
    var w, now := rs[k].window, calls[k].now;
    var w' := AfterReap(limits, rs[k], now).window;
    forall d | 0 <= d < |w'.seen| && w.id >= d
      ensures EntryFrom(limits, rs, calls, k, k + 1, Pid(w.id - d, w.time), w'.seen[d])
    {
      var pin := Pid(w.id - d, w.time);
      EntryStays(limits, rs, calls, k, k, k, k + 1, pin, w.seen[d]);
      if w'.seen[d] != w.seen[d] {
        ReapedExactly(w.seen, limits.timeBacktrack, now, false, d);
        var j :| 0 <= j <= d && Late(w.seen, j, limits.timeBacktrack, now);
        LateIsTooLate(limits, rs, calls, k, pin, Pid(w.id - j, w.time), w.seen[j]);
        ExpiredEntry(limits, rs, calls, k, k + 1, pin);
      }
    }
  }

  lemma ExpiredEntry(limits: Limits, rs: seq<Receiver>, calls: seq<Arrival>, n: nat, m: nat, pin: Pid)
    requires n <= m <= |calls| && m <= |rs| && TooLate(limits, rs, calls, m, pin)
    ensures EntryFrom(limits, rs, calls, n, m, pin, SEQ_EXPIRED)
  {
    hide TooLate;
  }

  lemma NoteExplained(limits: Limits, rs: seq<Receiver>, calls: seq<Arrival>, k: nat, w: Window)
    requires k < |calls| && k < |rs| && limits.seqBacktrack > 0 && calls[k].pin.id <= PACKET_ID_MAX
    requires Sized(w, limits.seqBacktrack) && Explained(limits, rs, calls, k, k + 1, w)
    requires w == AfterReap(limits, rs[k], calls[k].now).window && Accepted(limits, rs, calls, k)
    ensures Explained(limits, rs, calls, k + 1, k + 1, Noted(w, limits.seqBacktrack, calls[k].pin, calls[k].now))
  {
    hide AfterReap;
    var pin, now := calls[k].pin, calls[k].now;
    NotedIs(w, limits.seqBacktrack, pin, now);
    BaseIs(w, limits.seqBacktrack, pin);
    hide Noted, EntryFrom, Base, Sized, Takes;
    var w', base := Noted(w, limits.seqBacktrack, pin, now), Base(w, limits.seqBacktrack, pin);
    var n := w'.id - base.id;
    forall d | 0 <= d < |w'.seen| && w'.id >= d
      ensures EntryFrom(limits, rs, calls, k + 1, k + 1, Pid(w'.id - d, w'.time), w'.seen[d])
    {
      var p := Pid(w'.id - d, w'.time);
      if d == w'.id - pin.id && now > SEQ_EXPIRED {
        NewEntry(limits, rs, calls, k);
      } else if d < n {
        UnseenEntry(limits, rs, calls, k + 1, p);
      } else {
        assert EntryFrom(limits, rs, calls, k, k + 1, Pid(base.id - (d - n), base.time), base.seen[d - n]);
        EntryStays(limits, rs, calls, k, k + 1, k + 1, k + 1, p, w'.seen[d]);
      }
    }
  }

  lemma BaseIs(w: Window, back: nat, pin: Pid)
    ensures var base := Base(w, back, pin); base == w || base.seen == []
  {
  }

  lemma NewEntry(limits: Limits, rs: seq<Receiver>, calls: seq<Arrival>, k: nat)
    requires k < |calls| && k < |rs| && Accepted(limits, rs, calls, k) && calls[k].now > SEQ_EXPIRED
    ensures k + 1 <= |rs| && EntryFrom(limits, rs, calls, k + 1, k + 1, calls[k].pin, calls[k].now)
  {
    hide Accepted;
  }

  lemma UnseenEntry(limits: Limits, rs: seq<Receiver>, calls: seq<Arrival>, n: nat, pin: Pid)
    requires n <= |calls| && n <= |rs|
    ensures EntryFrom(limits, rs, calls, n, n, pin, SEQ_UNSEEN)
  {
  }

  lemma {:induction false} RunExplained(limits: Limits, rs: seq<Receiver>, calls: seq<Arrival>, k: nat)
    requires Receives(limits, rs, calls) && k <= |calls| && limits.seqBacktrack > 0
    ensures Explained(limits, rs, calls, k, k, rs[k].window)
  {
    hide AfterReap, Kept, EntryFrom, Accepts;
    if k > 0 {
      var c := calls[k - 1];
      var r' := AfterReap(limits, rs[k - 1], c.now);
      RunExplained(limits, rs, calls, k - 1);
      RunKeeps(limits, rs, calls, k - 1);
      ReapExplained(limits, rs, calls, k - 1);
      ReapKeeps(limits, rs[k - 1], c.now);
      KeptIsSized(limits, r');
      if Accepted(limits, rs, calls, k - 1) {
        NoteExplained(limits, rs, calls, k - 1, r'.window);
      } else {
        ExplainedStays(limits, rs, calls, k - 1, k, k, k, r'.window);
      }
    }
  }

  lemma ExplainedStays(limits: Limits, rs: seq<Receiver>, calls: seq<Arrival>, n: nat, m: nat, n': nat, m': nat,
                       w: Window)
    requires n <= m <= |calls| && m <= |rs| && n <= n' <= m' <= |calls| && m <= m' <= |rs|
    requires Explained(limits, rs, calls, n, m, w)
    ensures Explained(limits, rs, calls, n', m', w)
  {
    hide EntryFrom;
    forall d | 0 <= d < |w.seen| && w.id >= d
      ensures EntryFrom(limits, rs, calls, n', m', Pid(w.id - d, w.time), w.seen[d])
    {
      EntryStays(limits, rs, calls, n, m, n', m', Pid(w.id - d, w.time), w.seen[d]);
    }
  }

  /**
   What may come out of order does: an id is refused exactly when it is 0, of an earlier time, behind the window,
   from before the first packet, accepted already, or too late.
   */
  lemma RefusedExactly(limits: Limits, rs: seq<Receiver>, calls: seq<Arrival>, j: nat)
    requires Receives(limits, rs, calls) && j < |calls| && limits.seqBacktrack > 0
    ensures var w, pin := rs[j].window, calls[j].pin;
            !Accepted(limits, rs, calls, j) <==>
            || pin.id == 0 || pin.time < w.time
            || (pin.time == w.time && pin.id <= w.id && (w.seen == [] || w.id - pin.id >= limits.seqBacktrack))
            || Came(limits, rs, calls, j, pin)
            || TooLate(limits, rs, calls, j + 1, pin)
  {
    hide Reaped, Came, TooLate;
    if !Accepted(limits, rs, calls, j) {
      RefusedFor(limits, rs, calls, j);
    } else {
      RefusedThen(limits, rs, calls, j);
    }
  }

  lemma RefusedThen(limits: Limits, rs: seq<Receiver>, calls: seq<Arrival>, j: nat)
    requires Receives(limits, rs, calls) && j < |calls| && limits.seqBacktrack > 0 && Accepted(limits, rs, calls, j)
    ensures var w, pin := rs[j].window, calls[j].pin;
            && pin.id > 0 && pin.time >= w.time
            && (pin.time == w.time && pin.id <= w.id ==> w.seen != [] && w.id - pin.id < limits.seqBacktrack)
            && !Came(limits, rs, calls, j, pin) && !TooLate(limits, rs, calls, j + 1, pin)
  {
    hide Reaped, Kept;
    var w, pin := rs[j].window, calls[j].pin;
    RunKeeps(limits, rs, calls, j);
    KeptIsSized(limits, rs[j]);
    hide Accepts;
    if Came(limits, rs, calls, j, pin) {
      var i :| 0 <= i < j && Accepted(limits, rs, calls, i) && calls[i].now > SEQ_EXPIRED && calls[i].pin == pin;
      NoReplay(limits, rs, calls, i, j);
    }
    if TooLate(limits, rs, calls, j + 1, pin) {
      var i, m :| 0 <= i < m < j + 1 && Accepted(limits, rs, calls, i) && calls[i].now > SEQ_EXPIRED
                  && calls[i].pin.time == pin.time && calls[i].pin.id >= pin.id
                  && calls[i].now + limits.timeBacktrack < calls[m].now
                  && rs[m].lastReap + SEQ_REAP_INTERVAL <= calls[m].now;
      LateIsRefused(limits, rs, calls, i, m, j);
    }
  }

  lemma RefusedFor(limits: Limits, rs: seq<Receiver>, calls: seq<Arrival>, j: nat)
    requires Receives(limits, rs, calls) && j < |calls| && limits.seqBacktrack > 0
    requires !Accepted(limits, rs, calls, j)
    ensures var w, pin := rs[j].window, calls[j].pin;
            || pin.id == 0 || pin.time < w.time
            || (pin.time == w.time && pin.id <= w.id && (w.seen == [] || w.id - pin.id >= limits.seqBacktrack))
            || Came(limits, rs, calls, j, pin)
            || TooLate(limits, rs, calls, j + 1, pin)
  {
    hide Reaped, Came, TooLate, EntryFrom;
    var w, pin := AfterReap(limits, rs[j], calls[j].now).window, calls[j].pin;
    RunExplained(limits, rs, calls, j);
    RunKeeps(limits, rs, calls, j);
    ReapExplained(limits, rs, calls, j);
    if pin.time == w.time && 0 < pin.id <= w.id && w.id - pin.id < |w.seen| {
      EntryTells(limits, rs, calls, j, pin, w.seen[w.id - pin.id]);
    }
  }

  lemma EntryTells(limits: Limits, rs: seq<Receiver>, calls: seq<Arrival>, j: nat, pin: Pid, entry: int)
    requires j < |calls| && j < |rs| && j + 1 <= |rs| && entry != SEQ_UNSEEN
    requires EntryFrom(limits, rs, calls, j, j + 1, pin, entry)
    ensures Came(limits, rs, calls, j, pin) || TooLate(limits, rs, calls, j + 1, pin)
  {
    hide Accepted;
  }

  // ----- in order -----

  lemma {:induction false} LastAccepted(limits: Limits, rs: seq<Receiver>, calls: seq<Arrival>, i: nat, k: nat)
    requires Receives(limits, rs, calls) && limits.seqBacktrack == 0 && i < k <= |calls|
    requires Accepted(limits, rs, calls, i) && forall l :: i < l < k ==> !Accepted(limits, rs, calls, l)
    ensures rs[k].window == Window(calls[i].pin.time, calls[i].pin.id, [])
  {
    hide Accepts;
    if k == i + 1 {
      assert Accepted(limits, rs, calls, i) == Accepts(limits, rs[i], calls[i].pin, calls[i].now);
    } else {
      LastAccepted(limits, rs, calls, i, k - 1);
      assert !Accepted(limits, rs, calls, k - 1);
    }
  }

  /** Without a window the first id follows the one that was loaded, or is any if none was, or starts a later time. */
  lemma FirstInOrder(limits: Limits, rs: seq<Receiver>, calls: seq<Arrival>, j: nat)
    requires Receives(limits, rs, calls) && limits.seqBacktrack == 0 && j < |calls|
    requires forall l :: 0 <= l < j ==> !Accepted(limits, rs, calls, l)
    ensures var w, q := rs[0].window, calls[j].pin;
            Accepted(limits, rs, calls, j) <==>
            q.id != 0
            && ((q.time == w.time && (w.id == 0 || q.id == w.id + 1)) || (q.time > w.time && q.id == 1))
  {
    WindowStands(limits, rs, calls, j);
  }

  lemma {:induction false} WindowStands(limits: Limits, rs: seq<Receiver>, calls: seq<Arrival>, j: nat)
    requires Receives(limits, rs, calls) && limits.seqBacktrack == 0 && j <= |calls|
    requires forall l :: 0 <= l < j ==> !Accepted(limits, rs, calls, l)
    ensures rs[j].window == rs[0].window
  {
    hide Accepts;
    if j > 0 {
      WindowStands(limits, rs, calls, j - 1);
      assert !Accepted(limits, rs, calls, j - 1);
    }
  }

  /** Without a window the accepted ids of one time follow each other, and a later time starts at 1. */
  lemma InOrder(limits: Limits, rs: seq<Receiver>, calls: seq<Arrival>, i: nat, j: nat)
    requires Receives(limits, rs, calls) && limits.seqBacktrack == 0 && i < j < |calls|
    requires Accepted(limits, rs, calls, i) && forall l :: i < l < j ==> !Accepted(limits, rs, calls, l)
    ensures var p, q := calls[i].pin, calls[j].pin;
            Accepted(limits, rs, calls, j) <==>
            (q.time == p.time && q.id == p.id + 1) || (q.time > p.time && q.id == 1)
  {
    LastAccepted(limits, rs, calls, i, j);
  }

  /** struct packet_id_rec. */
  class PacketIdRec {
    const limits: Limits
    const seqList: CircList.List?
    var time: nat
    var id: nat
    var lastReap: nat

    ghost function Repr(): set<object>
    {
      {this} + if seqList == null then {} else {seqList, seqList.list}
    }

    ghost predicate Valid()
      reads Repr()
    {
      && (seqList == null <==> limits.seqBacktrack == 0) && (seqList == null ==> limits.timeBacktrack == 0)
      && (seqList != null ==> seqList.Valid() && seqList.list.Length == limits.seqBacktrack)
    }

    ghost function State(): Receiver
      reads Repr()
      requires Valid()
    {
      Receiver(Window(time, id, if seqList == null then [] else seqList.Items()), lastReap)
    }

    /** packet_id_init, then packet_id_persist_load_obj with what was saved, if anything. */
    constructor (limits: Limits, saved: Option<Pid>)
      requires limits.seqBacktrack <= MAX_SEQ_BACKTRACK && limits.timeBacktrack <= MAX_TIME_BACKTRACK
      ensures Valid() && fresh(Repr())
      ensures this.limits == if limits.seqBacktrack > 0 then limits else Limits(0, 0)
      ensures var p := if saved.Some? && saved.value.time != 0 then saved.value else Pid(0, 0);
              State() == Receiver(Window(p.time, p.id, []), 0)
    {
      if limits.seqBacktrack > 0 {
        var l := new CircList.List(limits.seqBacktrack);
        seqList := l;
        this.limits := limits;
      } else {
        seqList := null;
        this.limits := Limits(0, 0);
      }
      time, id, lastReap := 0, 0, 0;
      if saved.Some? && saved.value.time != 0 { time, id := saved.value.time, saved.value.id; }
    }

    /** packet_id_test, without its statistics. */
    method Test(pin: Pid) returns (ok: bool)
      requires Valid()
      ensures ok == Takes(State().window, limits.seqBacktrack, pin)
    {
      if pin.id == 0 { return false; }
      if limits.seqBacktrack > 0 {
        if pin.time == time {
          if pin.id > id { return true; }
          var diff := id - pin.id;
          if diff >= seqList.size { return false; }
          var v := seqList.Item(diff);
          return v == SEQ_UNSEEN;
        } else if pin.time < time {
          return false;
        } else {
          return true;
        }
      } else {
        if pin.time == time {
          return id == 0 || pin.id == (id + 1) % U32;
        } else if pin.time < time {
          return false;
        } else {
          return pin.id == 1;
        }
      }
    }

    /** packet_id_add. */
    method Add(pin: Pid, now: nat)
      requires Valid()
      modifies Repr()
      ensures Valid() && lastReap == old(lastReap)
      ensures State().window == Noted(old(State().window), limits.seqBacktrack, pin, now)
    {
      if seqList != null {
        Restart(pin);
        Advance(pin.id);
        var diff := id - pin.id;
        if diff < seqList.size && now > SEQ_EXPIRED { seqList.Put(diff, now); }
      } else {
        time, id := pin.time, pin.id;
      }
    }

    /** The first branch of packet_id_add. */
    method Restart(pin: Pid)
      requires Valid() && seqList != null
      modifies Repr()
      ensures Valid() && lastReap == old(lastReap)
      ensures State().window == Base(old(State().window), limits.seqBacktrack, pin)
    {
      var back := limits.seqBacktrack;
      if seqList.size == 0 || pin.time > time || (pin.id >= back && pin.id - back > id) {
        time, id := pin.time, 0;
        if pin.id > back { id := pin.id - back; }
        seqList.Reset();
      }
    }

    /** Its loop: unseen ids up to the new one. */
    method Advance(to: nat)
      requires Valid() && seqList != null
      modifies Repr()
      ensures Valid() && lastReap == old(lastReap)
      ensures var w, top := old(State().window), if old(id) < to then to else old(id);
              State().window == Window(w.time, top, Shifted(w.seen, top - w.id, limits.seqBacktrack))
    {
      ghost var w := State().window;
      while id < to
        invariant Valid() && lastReap == old(lastReap) && w.id <= id && (id == w.id || id <= to)
        invariant State().window == Window(w.time, id, Shifted(w.seen, id - w.id, limits.seqBacktrack))
      {
        seqList.Push(SEQ_UNSEEN);
        id := id + 1;
      }
    }

    /** packet_id_reap. */
    method Reap(now: nat)
      requires Valid()
      modifies Repr()
      ensures Valid()
      ensures var w, t := old(State().window), limits.timeBacktrack;
              State() == Receiver(if t > 0 then w.(seen := Reaped(w.seen, t, now, false)) else w, now)
    {
      if limits.timeBacktrack > 0 { ReapList(seqList, limits.timeBacktrack, now); }
      lastReap := now;
    }

    /** crypto_check_replay with packet_id_reap_test at its head. */
    method CheckReplay(pin: Pid, now: nat) returns (ok: bool)
      requires Valid()
      modifies Repr()
      ensures Valid()
      ensures ok == Accepts(limits, old(State()), pin, now)
      ensures State() == AfterCheck(limits, old(State()), pin, now)
    {
      hide Takes, Noted, Reaped;
      if lastReap + SEQ_REAP_INTERVAL <= now { Reap(now); }
      ok := Test(pin);
      if ok { Add(pin, now); }
    }
  }
}
