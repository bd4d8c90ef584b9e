/** struct buffer_list (buffer.c): a chain of buffers used as a queue of bytes. */
module BufferList {
  import opened Bytes
  import opened Buffers

  // ----- the queue -----

  /** All bytes of a queue, the next to go out first. */
  function Flat(q: seq<seq<byte>>): seq<byte> {
    if q == [] then [] else Flat(q[..|q| - 1]) + q[|q| - 1]
  }

  lemma {:induction false} FlatJoin(a: seq<seq<byte>>, b: seq<seq<byte>>)
    ensures Flat(a + b) == Flat(a) + Flat(b)
    decreases |b|
  {
    if b == [] {
      assert a + b == a;
    } else {
      var n, ab := |b| - 1, a + b;
      assert ab[..|ab| - 1] == a + b[..n] && ab[|ab| - 1] == b[n];
      FlatJoin(a, b[..n]);
      var x, y, z := Flat(a), Flat(b[..n]), b[n];
      assert (x + y) + z == x + (y + z);
    }
  }

  lemma FlatOne(x: seq<byte>)
    ensures Flat([x]) == x
  {
    assert Flat([x][..0]) == [];
  }

  lemma FlatHead(q: seq<seq<byte>>)
    requires q != []
    ensures Flat(q) == q[0] + Flat(q[1..])
  {
    assert q == [q[0]] + q[1..];
    FlatJoin([q[0]], q[1..]);
    FlatOne(q[0]);
  }

  /** The buffers, each with the separator behind it. */
  function Joined(q: seq<seq<byte>>, sep: seq<byte>): seq<byte> {
    if q == [] then [] else Joined(q[..|q| - 1], sep) + q[|q| - 1] + sep
  }

  function Cost(q: seq<seq<byte>>, sep: nat): nat {
    if q == [] then 0 else Cost(q[..|q| - 1], sep) + |q[|q| - 1]| + sep
  }

  lemma {:induction false} JoinedLength(q: seq<seq<byte>>, sep: seq<byte>)
    ensures |Joined(q, sep)| == Cost(q, |sep|)
  {
    if q != [] { JoinedLength(q[..|q| - 1], sep); }
  }

  lemma {:induction false} JoinedPlain(q: seq<seq<byte>>)
    ensures Joined(q, []) == Flat(q)
  {
    if q != [] { JoinedPlain(q[..|q| - 1]); }
  }

  /** A longer prefix costs no less. */
  lemma {:induction false} CostGrows(q: seq<seq<byte>>, j: nat, k: nat, sep: nat)
    requires j <= k <= |q|
    ensures Cost(q[..j], sep) <= Cost(q[..k], sep)
  {
    if j < k {
      CostGrows(q, j, k - 1, sep);
      assert q[..k][..k - 1] == q[..k - 1];
    }
  }

  /** How many buffers from the head fit into `max` bytes with their separators. */
  predicate Fitting(q: seq<seq<byte>>, max: nat, sep: nat, k: nat) {
    && k <= |q| && Cost(q[..k], sep) <= max
    && (k < |q| ==> Cost(q[..k + 1], sep) > max)
  }

  /** There is one such number: it is the longest prefix that fits. */
  lemma FittingIsLongest(q: seq<seq<byte>>, max: nat, sep: nat, k: nat, j: nat)
    requires Fitting(q, max, sep, k) && j <= |q|
    ensures Cost(q[..j], sep) <= max <==> j <= k
  {
    if j <= k { CostGrows(q, j, k, sep); } else { CostGrows(q, k + 1, j, sep); }
  }

  /** What aggregation makes of a queue of which `k` buffers fit. */
  function Aggregated(q: seq<seq<byte>>, sep: seq<byte>, k: nat): seq<seq<byte>>
    requires k <= |q|
  {
    if k >= 2 then [Joined(q[..k], sep)] + q[k..] else q
  }

  /**
   Aggregation without a separator moves no byte: the buffers that fit, if there are two or more, become one, no
   longer than asked, and the others stay.
   */
  lemma AggregateKeeps(q: seq<seq<byte>>, max: nat, k: nat)
    requires Fitting(q, max, 0, k)
    ensures Flat(Aggregated(q, [], k)) == Flat(q)
    ensures k >= 2 ==> Aggregated(q, [], k) == [Flat(q[..k])] + q[k..] && |Flat(q[..k])| <= max
    ensures k < 2 ==> Aggregated(q, [], k) == q
    ensures |Aggregated(q, [], k)| <= |q|
  {
    hide Flat, Joined, Cost;
    if k >= 2 {
      var none: seq<byte> := [];
      var joined := Joined(q[..k], none);
      JoinedLength(q[..k], none);
      JoinedPlain(q[..k]);
      FlatJoin([joined], q[k..]);
      FlatOne(joined);
      assert q == q[..k] + q[k..];
      FlatJoin(q[..k], q[k..]);
    }
  }

  // ----- runs -----

  /** The calls that feed and drain a queue. */
  datatype Op = Push(data: seq<byte>) | Advance(n: nat) | Pop | Aggregate(max: nat, k: nat)

  predicate Accepts(q: seq<seq<byte>>, maxSize: nat) {
    maxSize == 0 || |q| < maxSize
  }

  /** buffer_list_advance: a head that is used up leaves the queue. */
  function Advanced(q: seq<seq<byte>>, n: nat): seq<seq<byte>>
    requires q != [] ==> n <= |q[0]|
  {
    if q == [] then q
    else if n == |q[0]| then q[1..]
    else [q[0][n..]] + q[1..]
  }

  predicate Callable(q: seq<seq<byte>>, op: Op) {
    match op
    case Advance(n) => q != [] ==> n <= |q[0]|
    case Aggregate(max, k) => Fitting(q, max, 0, k)
    case _ => true
  }

  function After(q: seq<seq<byte>>, maxSize: nat, op: Op): seq<seq<byte>>
    requires Callable(q, op)
  {
    match op
    case Push(data) => if Accepts(q, maxSize) then q + [data] else q
    case Advance(n) => Advanced(q, n)
    case Pop => if q == [] then q else q[1..]
    case Aggregate(max, k) => Aggregated(q, [], k)
  }

  /** The bytes a call takes in, and those it takes out. */
  function TakenIn(q: seq<seq<byte>>, maxSize: nat, op: Op): seq<byte> {
    if op.Push? && Accepts(q, maxSize) then op.data else []
  }

  function TakenOut(q: seq<seq<byte>>, op: Op): seq<byte>
    requires Callable(q, op)
  {
    if q == [] then []
    else
      match op
      case Advance(n) => q[0][..n]
      case Pop => q[0]
      case _ => []
  }

  lemma OneCall(q: seq<seq<byte>>, maxSize: nat, op: Op)
    requires Callable(q, op) && (maxSize > 0 ==> |q| <= maxSize)
    ensures TakenOut(q, op) + Flat(After(q, maxSize, op)) == Flat(q) + TakenIn(q, maxSize, op)
    ensures maxSize > 0 ==> |After(q, maxSize, op)| <= maxSize
  {
    hide Flat, Joined, Fitting;
    match op
    case Push(data) =>
      if Accepts(q, maxSize) {
        FlatJoin(q, [data]);
        FlatOne(data);
      }
    case Advance(n) =>
      if q != [] {
        FlatHead(q);
        if n == |q[0]| {
          assert q[0][..n] == q[0];
        } else {
          FlatJoin([q[0][n..]], q[1..]);
          FlatOne(q[0][n..]);
          assert q[0] == q[0][..n] + q[0][n..];
        }
      }
    case Pop =>
      if q != [] { FlatHead(q); }
    case Aggregate(max, k) =>
      AggregateKeeps(q, max, k);
  }

  /** A run: each call is made on what the one before left. */
  predicate Run(maxSize: nat, ops: seq<Op>, qs: seq<seq<seq<byte>>>) {
    && |qs| == |ops| + 1 && qs[0] == []
    && forall k :: 0 <= k < |ops| ==> Callable(qs[k], ops[k]) && qs[k + 1] == After(qs[k], maxSize, ops[k])
  }

  function AllIn(maxSize: nat, ops: seq<Op>, qs: seq<seq<seq<byte>>>, k: nat): seq<byte>
    requires Run(maxSize, ops, qs) && k <= |ops|
  {
    if k == 0 then [] else AllIn(maxSize, ops, qs, k - 1) + TakenIn(qs[k - 1], maxSize, ops[k - 1])
  }

  function AllOut(maxSize: nat, ops: seq<Op>, qs: seq<seq<seq<byte>>>, k: nat): seq<byte>
    requires Run(maxSize, ops, qs) && k <= |ops|
  {
    if k == 0 then [] else AllOut(maxSize, ops, qs, k - 1) + TakenOut(qs[k - 1], ops[k - 1])
  }

  /**
   First in, first out, byte for byte: after any run of pushes, pops, advances and aggregations, what
   has gone out followed by what is still queued is what was taken in; and the limit is kept.
   */
  lemma {:induction false} FirstInFirstOut(maxSize: nat, ops: seq<Op>, qs: seq<seq<seq<byte>>>, k: nat)
    requires Run(maxSize, ops, qs) && k <= |ops|
    ensures AllOut(maxSize, ops, qs, k) + Flat(qs[k]) == AllIn(maxSize, ops, qs, k)
    ensures maxSize > 0 ==> |qs[k]| <= maxSize
  {
    hide Flat, After, TakenIn, TakenOut, Callable;
    if k == 0 {
      FlatNone();
    } else {
      FirstInFirstOut(maxSize, ops, qs, k - 1);
      var q, op := qs[k - 1], ops[k - 1];
      assert Callable(q, op) && qs[k] == After(q, maxSize, op);
      OneCall(q, maxSize, op);
      Regroup(AllOut(maxSize, ops, qs, k - 1), TakenOut(q, op), Flat(qs[k]), Flat(q), TakenIn(q, maxSize, op));
    }
  }

  lemma FlatNone()
    ensures Flat([]) == []
  {
  }

  lemma Regroup(gone: seq<byte>, out: seq<byte>, rest: seq<byte>, before: seq<byte>, taken: seq<byte>)
    requires out + rest == before + taken
    ensures (gone + out) + rest == (gone + before) + taken
  {
    assert (gone + out) + rest == gone + (out + rest);
  }

  // ----- the chain -----

  /** struct buffer_entry. */
  class Entry {
    const buf: Buffer
    var next: Entry?

    constructor (buf: Buffer)
      ensures this.buf == buf && next == null
    {
      this.buf, next := buf, null;
    }
  }

  /** A new entry with the bytes copied into a buffer of its own. */
  method NewEntry(data: seq<byte>) returns (e: Entry)
    ensures fresh(e) && fresh(e.buf) && fresh(e.buf.data)
    ensures e.next == null && e.buf.Valid() && e.buf.Content() == data
  {
    var buf := new Buffer.Alloc(|data|);
    buf.Put(0, data);
    buf.len := |data|;
    e := new Entry(buf);
  }

  /** Each entry leads to the next, the last to none. */
  ghost predicate Chain(s: seq<Entry>)
    reads s
  {
    forall i :: 0 <= i < |s| ==> s[i].next == NextIn(s, i)
  }

  function NextIn(s: seq<Entry>, i: nat): Entry?
    requires i < |s|
  {
    if i + 1 < |s| then s[i + 1] else null
  }

  /** No entry and no buffer twice. */
  ghost predicate Apart(s: seq<Entry>) {
    forall i, j :: 0 <= i < j < |s| ==> s[i] != s[j] && s[i].buf != s[j].buf
  }

  /** What is in the buffers of the entries. */
  ghost predicate Filled(s: seq<Entry>, q: seq<seq<byte>>)
    reads set i | 0 <= i < |s| :: s[i].buf
    reads set i | 0 <= i < |s| :: s[i].buf.data
  {
    |s| == |q| && forall i :: 0 <= i < |s| ==> s[i].buf.Valid() && s[i].buf.Content() == q[i]
  }

  lemma DropFirst(s: seq<Entry>, q: seq<seq<byte>>)
    requires s != [] && Chain(s) && Apart(s) && Filled(s, q)
    ensures Chain(s[1..]) && Apart(s[1..]) && Filled(s[1..], q[1..])
    ensures s[0].next == if |s| > 1 then s[1] else null
    ensures s[0].buf.Valid() && s[0].buf.Content() == q[0]
    ensures forall i :: 0 <= i < |s[1..]| ==> s[1..][i].buf != s[0].buf
  {
    var t := s[1..];
    forall i | 0 <= i < |t| ensures t[i].buf != s[0].buf { assert t[i] == s[i + 1]; }
    forall i | 0 <= i < |t| ensures t[i].next == NextIn(t, i) {
      assert t[i] == s[i + 1];
      assert s[i + 1].next == NextIn(s, i + 1);
    }
    assert s[0].next == NextIn(s, 0);
  }

  lemma AddFirst(s: seq<Entry>, q: seq<seq<byte>>)
    requires s != [] && |q| == |s| && Filled(s[1..], q[1..]) && s[0].buf.Valid() && s[0].buf.Content() == q[0]
    ensures Filled(s, q)
  {
    forall i | 0 <= i < |s| ensures s[i].buf.Valid() && s[i].buf.Content() == q[i] {
      if i > 0 { assert s[1..][i - 1] == s[i] && q[1..][i - 1] == q[i]; }
    }
  }

  lemma AddLast(s: seq<Entry>, q: seq<seq<byte>>, e: Entry, data: seq<byte>)
    requires Apart(s) && Filled(s, q) && e.buf.Valid() && e.buf.Content() == data && e !in s
    requires forall i :: 0 <= i < |s| ==> s[i].buf != e.buf
    ensures Apart(s + [e]) && Filled(s + [e], q + [data])
  {
  }

  /** `buf->len = n`. */
  method SetLen(buf: Buffer, n: nat)
    requires buf.Valid() && n <= buf.len
    modifies buf
    ensures buf.Valid() && buf.data == old(buf.data) && buf.Content() == old(buf.Content())[..n]
  {
    buf.len := n;
  }

  /** `tail->next = e`. */
  method SetNext(ghost s: seq<Entry>, tail: Entry, e: Entry)
    requires s != [] && Chain(s) && Apart(s) && tail == s[|s| - 1] && e !in s && e.next == null
    modifies tail
    ensures Chain(s + [e])
  {
    NoneTwice(s);
    assert forall i :: 0 <= i < |s| - 1 ==> s[i].next == NextIn(s, i);
    tail.next := e;
    ghost var t := s + [e];
    forall i | 0 <= i < |t| ensures t[i].next == NextIn(t, i) {
      if i < |s| - 1 { assert t[i] == s[i] && s[i].next == NextIn(s, i); }
    }
  }

  lemma ChainOfOne(s: seq<Entry>, e: Entry)
    requires s == [] && e.next == null
    ensures Chain(s + [e])
  {
  }

  lemma Drop(s: seq<Entry>, q: seq<seq<byte>>, k: nat)
    requires k <= |s| && Chain(s) && Apart(s) && Filled(s, q)
    ensures Chain(s[k..]) && Apart(s[k..]) && Filled(s[k..], q[k..])
    ensures k > 0 ==> s[k - 1].next == if k < |s| then s[k] else null
  {
    var t := s[k..];
    forall i | 0 <= i < |t| ensures t[i].next == NextIn(t, i) {
      assert t[i] == s[k + i];
      assert s[k + i].next == NextIn(s, k + i);
    }
    if k > 0 { assert s[k - 1].next == NextIn(s, k - 1); }
  }

  lemma PutFirst(f: Entry, s: seq<Entry>, data: seq<byte>, q: seq<seq<byte>>)
    requires Chain(s) && Apart(s) && Filled(s, q) && f.next == (if s == [] then null else s[0])
    requires f.buf.Valid() && f.buf.Content() == data
    requires f !in s && forall i :: 0 <= i < |s| ==> s[i].buf != f.buf
    ensures Chain([f] + s) && Apart([f] + s) && Filled([f] + s, [data] + q)
  {
    hide Chain, Apart, Filled;
    ChainFirst(f, s);
    ApartFirst(f, s);
    FilledFirst(f, s, data, q);
  }

  lemma ChainFirst(f: Entry, s: seq<Entry>)
    requires Chain(s) && f.next == (if s == [] then null else s[0])
    ensures Chain([f] + s)
  {
    var t := [f] + s;
    forall i | 0 <= i < |t| ensures t[i].next == NextIn(t, i) {
      if i > 0 { assert t[i] == s[i - 1] && s[i - 1].next == NextIn(s, i - 1); }
    }
  }

  lemma ApartFirst(f: Entry, s: seq<Entry>)
    requires Apart(s) && f !in s && forall i :: 0 <= i < |s| ==> s[i].buf != f.buf
    ensures Apart([f] + s)
  {
  }

  lemma FilledFirst(f: Entry, s: seq<Entry>, data: seq<byte>, q: seq<seq<byte>>)
    requires Filled(s, q) && f.buf.Valid() && f.buf.Content() == data
    ensures Filled([f] + s, [data] + q)
  {
  }

  lemma EntryAt(s: seq<Entry>, q: seq<seq<byte>>, i: nat)
    requires Chain(s) && Filled(s, q) && i < |s|
    ensures s[i].next == (if i + 1 < |s| then s[i + 1] else null)
    ensures s[i].buf.Valid() && s[i].buf.Content() == q[i]
  {
    assert s[i].next == NextIn(s, i);
  }

  lemma CostSnoc(q: seq<seq<byte>>, i: nat, sep: seq<byte>)
    requires i < |q|
    ensures Cost(q[..i + 1], |sep|) == Cost(q[..i], |sep|) + |q[i]| + |sep|
    ensures Joined(q[..i + 1], sep) == Joined(q[..i], sep) + q[i] + sep
  {
    assert q[..i + 1][..i] == q[..i];
  }

  class List {
    var head: Entry?
    var tail: Entry?
    var size: nat
    const maxSize: nat
    /** The entries from head to tail, and what is in their buffers. */
    ghost var spine: seq<Entry>
    ghost var contents: seq<seq<byte>>

    /** The size is the length of the chain, the tail its last entry. */
    ghost predicate Valid()
      reads this, spine, (set i | 0 <= i < |spine| :: spine[i].buf), set i | 0 <= i < |spine| :: spine[i].buf.data
    {
      && |spine| == size
      && (if spine == [] then head == tail == null else head == spine[0] && tail == spine[|spine| - 1])
      && Chain(spine) && Apart(spine) && Filled(spine, contents)
    }

    /** buffer_list_new. */
    constructor (maxSize: nat)
      ensures Valid() && contents == [] && this.maxSize == maxSize && spine == []
    {
      head, tail, size, spine, contents := null, null, 0, [], [];
      this.maxSize := maxSize;
    }

    /** Links an entry behind the tail. */
    method Link(e: Entry, ghost data: seq<byte>)
      requires Valid() && e !in spine && e.next == null && e.buf.Valid() && e.buf.Content() == data
      requires forall i :: 0 <= i < |spine| ==> spine[i].buf != e.buf
      modifies this, spine
      ensures Valid() && spine == old(spine) + [e] && contents == old(contents) + [data]
    {
      hide Filled, Apart, Chain;
      ghost var s, q := spine, contents;
      AddLast(s, q, e, data);
      size := size + 1;
      if tail != null {
        assert head != null;
        SetNext(s, tail, e);
      } else {
        assert head == null;
        ChainOfOne(s, e);
        head := e;
      }
      tail := e;
      spine, contents := s + [e], q + [data];
    }

    /** buffer_list_push_data; `fatal` when the buffer is too large for alloc_buf, which ends the program. */
    method PushData(data: seq<byte>) returns (e: Entry?, fatal: bool)
      requires Valid()
      modifies this, spine
      ensures Valid() && (fatal <==> Accepts(old(contents), maxSize) && !SizeValid(|data|))
      ensures e != null <==> Accepts(old(contents), maxSize) && !fatal
      ensures contents == if e != null then old(contents) + [data] else old(contents)
      ensures if e != null then fresh(e) && fresh(e.buf) && spine == old(spine) + [e] else spine == old(spine)
    {
      FilledLength(spine, contents);
      hide Chain, Apart, Filled;
      e, fatal := null, false;
      if maxSize == 0 || size < maxSize {
        if !SizeValid(|data|) { return null, true; }
        e := NewEntry(data);
        Link(e, data);
      }
    }

    /** buffer_list_push: the NUL is copied but not counted. */
    method PushString(str: seq<byte>) returns (fatal: bool)
      requires Valid() && 0 !in str
      modifies this, spine
      ensures Valid() && (fatal <==> Accepts(old(contents), maxSize) && !SizeValid(|str| + 1))
      ensures contents == if Accepts(old(contents), maxSize) && !fatal then old(contents) + [str] else old(contents)
    {
      hide Chain, Apart, Filled;
      FilledLength(spine, contents);
      var e;
      e, fatal := PushData(str + [0]);
      if e != null {
        TrimLast(e, |str|);
        assert (str + [0])[..|str|] == str;
      }
    }

    /** `e->buf.len = n` for the entry just pushed. */
    method TrimLast(e: Entry, n: nat)
      requires Valid() && spine != [] && e == spine[|spine| - 1] && contents != [] && n <= |contents[|contents| - 1]|
      modifies e.buf, this`contents
      ensures Valid() && spine == old(spine)
      ensures var k := |old(contents)| - 1; contents == old(contents)[..k] + [old(contents)[k][..n]]
    {
      hide Chain, Apart, Filled;
      FilledLength(spine, contents);
      ghost var k := |spine| - 1;
      DropLast(spine, contents);
      assert spine == spine[..k] + [e];
      SetLen(e.buf, n);
      contents := contents[..k] + [contents[k][..n]];
      AddLast(spine[..k], contents[..k], e, contents[k]);
      assert contents == contents[..k] + [contents[k]];
    }

    /** buffer_list_peek. */
    method Peek() returns (buf: Buffer?)
      requires Valid()
      ensures buf == null <==> contents == []
      ensures buf != null ==> buf.Valid() && buf.Content() == contents[0]
    {
      if head != null { return head.buf; }
      return null;
    }

    /** buffer_list_pop. */
    method Pop()
      requires Valid()
      modifies this
      ensures Valid()
      ensures contents == if old(contents) == [] then [] else old(contents)[1..]
      ensures spine == if old(spine) == [] then [] else old(spine)[1..]
    {
      hide Chain, Apart, Filled;
      FilledLength(spine, contents);
      if head != null {
        ghost var s, q := spine, contents;
        DropFirst(s, q);
        var e := head.next;
        head := e;
        size := size - 1;
        spine, contents := s[1..], q[1..];
        if e == null { tail := null; }
      }
    }

    /** buffer_list_advance. */
    method Advance(n: nat)
      requires Valid() && (contents != [] ==> n <= |contents[0]|)
      modifies this, set i | 0 <= i < |spine| :: spine[i].buf
      ensures Valid() && contents == Advanced(old(contents), n)
    {
      hide Chain, Apart, Filled;
      FilledLength(spine, contents);
      if head != null {
        ghost var s, q := spine, contents;
        DropFirst(s, q);
        var buf := head.buf;
        var ok := buf.Advance(n);
        assert ok;
        contents := [q[0][n..]] + q[1..];
        assert contents[1..] == q[1..];
        AddFirst(s, contents);
        if buf.len == 0 { Pop(); }
      }
    }

    /** The first loop of buffer_list_aggregate_separator. */
    method CountFitting(maxLen: nat, sep: seq<byte>) returns (count: nat, total: nat, more: Entry?)
      requires Valid()
      ensures Fitting(contents, maxLen, |sep|, count) && total == Cost(contents[..count], |sep|)
      ensures more == if count < |spine| then spine[count] else null
    {
      hide Chain, Apart, Filled, Joined, Cost;
      FilledLength(spine, contents);
      more, total, count := head, 0, 0;
      CostNone(contents[..0], |sep|);
      while more != null
        invariant count <= |spine| && more == (if count < |spine| then spine[count] else null)
        invariant total == Cost(contents[..count], |sep|) <= maxLen
        decreases |spine| - count
      {
        EntryAt(spine, contents, count);
        CostSnoc(contents, count, sep);
        var extra := more.buf.len + |sep|;
        if total + extra > maxLen { break; }
        total := total + extra;
        more := more.next;
        count := count + 1;
      }
    }

    /** The second loop: the buffers and the separators are copied behind each other. */
    method CopyFirst(into: Buffer, count: nat, sep: seq<byte>)
      requires Valid() && count <= |spine| && |contents| == |spine|
      requires into.Valid() && into.offset == 0 && into.len == 0
      requires into.data.Length == Cost(contents[..count], |sep|) + 1 && SizeValid(into.data.Length)
      requires forall i :: 0 <= i < |spine| ==> spine[i].buf != into && spine[i].buf.data != into.data
      modifies into, into.data
      ensures Valid() && into.Valid() && into.Content() == Joined(contents[..count], sep)
    {
      hide Chain, Apart, Filled, Joined, Cost;
      ghost var q, s := contents, spine;
      CostNone(q[..0], |sep|);
      JoinedNone(q[..0], sep);
      var e := head;
      for i := 0 to count
        invariant Valid() && into.Valid() && into.offset == 0 && into.data == old(into.data)
        invariant e == if i < |s| then s[i] else null
        invariant into.Content() == Joined(q[..i], sep) && into.len == Cost(q[..i], |sep|)
        invariant forall j :: 0 <= j < |s| ==> s[j].buf != into && s[j].buf.data != into.data
      {
        EntryAt(s, q, i);
        CostSnoc(q, i, sep);
        CostGrows(q, i + 1, count, |sep|);
        var next := e.next;
        CopyOne(into, e.buf, sep);
        e := next;
      }
    }

    /** The aggregated entry takes the place of the first `count`. */
    method Replace(f: Entry, count: nat, more: Entry?, ghost data: seq<byte>)
      requires Valid() && 2 <= count <= |spine| && |contents| == |spine|
      requires more == if count < |spine| then spine[count] else null
      requires f !in spine && (forall i :: 0 <= i < |spine| ==> spine[i].buf != f.buf)
      requires f.buf.Valid() && f.buf.Content() == data
      modifies this, f
      ensures Valid() && contents == [data] + old(contents)[count..]
    {
      hide Chain, Apart, Filled;
      ghost var s, q := spine, contents;
      Drop(s, q, count);
      head := f;
      size := size - (count - 1);
      f.next := more;
      if more == null { tail := f; }
      spine, contents := [f] + s[count..], [data] + q[count..];
      PutFirst(f, s[count..], data, q[count..]);
    }

    /** buffer_list_aggregate_separator; `fatal` as in buffer_list_push_data. */
    method Aggregate(maxLen: nat, sep: seq<byte>) returns (fatal: bool, ghost count: nat)
      requires Valid()
      modifies this
      ensures Valid() && Fitting(old(contents), maxLen, |sep|, count)
      ensures fatal <==> count >= 2 && !SizeValid(Cost(old(contents)[..count], |sep|) + 1)
      ensures contents == if fatal then old(contents) else Aggregated(old(contents), sep, count)
    {
      hide Chain, Apart, Filled, Joined, Cost, Fitting;
      FilledLength(spine, contents);
      var fits, total, more := CountFitting(maxLen, sep);
      count, fatal := fits, false;
      FittingBelow(contents, maxLen, |sep|, fits);
      if fits >= 2 {
        if !SizeValid(total + 1) { return true, count; }
        var buf := new Buffer.Alloc(total + 1);
        CopyFirst(buf, fits, sep);
        var f := new Entry(buf);
        Replace(f, fits, more, Joined(contents[..fits], sep));
      }
    }

    /** buffer_list_reset. */
    method Reset()
      requires Valid()
      modifies this
      ensures Valid() && contents == [] && spine == []
    {
      var e := head;
      ghost var i := 0;
      while e != null
        invariant i <= |spine| && e == if i < |spine| then spine[i] else null
        decreases |spine| - i
      {
        e := e.next;
        i := i + 1;
      }
      head, tail, size, spine, contents := null, null, 0, [], [];
    }
  }

  lemma CostNone(q: seq<seq<byte>>, sep: nat)
    requires q == []
    ensures Cost(q, sep) == 0
  {
  }

  lemma JoinedNone(q: seq<seq<byte>>, sep: seq<byte>)
    requires q == []
    ensures Joined(q, sep) == []
  {
  }

  /** buf_copy and buf_write of the separator, with room for both. */
  method CopyOne(into: Buffer, from: Buffer, sep: seq<byte>)
    requires into.Valid() && from.Valid() && from != into && from.data != into.data
    requires into.offset + into.len + from.len + |sep| <= into.data.Length && SizeValid(into.data.Length)
    modifies into, into.data
    ensures into.Valid() && into.data == old(into.data) && into.offset == old(into.offset)
    ensures into.Content() == old(into.Content()) + old(from.Content()) + sep
  {
    var ok := into.Copy(from);
    assert ok;
    ok := into.Write(sep);
    assert ok;
  }

  lemma FittingBelow(q: seq<seq<byte>>, max: nat, sep: nat, k: nat)
    requires Fitting(q, max, sep, k)
    ensures k <= |q|
  {
  }

  lemma NoneTwice(s: seq<Entry>)
    requires Apart(s) && s != []
    ensures forall i :: 0 <= i < |s| - 1 ==> s[i] != s[|s| - 1]
  {
  }

  lemma FilledLength(s: seq<Entry>, q: seq<seq<byte>>)
    requires Filled(s, q)
    ensures |s| == |q|
  {
  }

  lemma DropLast(s: seq<Entry>, q: seq<seq<byte>>)
    requires s != [] && Apart(s) && Filled(s, q)
    ensures var n := |s| - 1;
            && Apart(s[..n]) && Filled(s[..n], q[..n]) && s[n].buf.Valid() && s[n].buf.Content() == q[n]
            && s[n] !in s[..n] && forall i :: 0 <= i < n ==> s[..n][i].buf != s[n].buf
  {
  }
}
