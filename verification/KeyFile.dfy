/** Static key files (crypto.c): read_key_file is a state machine over characters, write_key_file its printer. */
module KeyFile {
  import opened Bytes
  import opened Buffers
  import opened HexDump

  const KEY_SIZE: nat := 128
  const KEYS_SIZE: nat := 256
  const NEWLINE: byte := 10
  const DASH: byte := 45

  /** static_key_head, "-----BEGIN OpenVPN Static key V1-----". */
  const HEAD: seq<byte> := [45, 45, 45, 45, 45, 66, 69, 71, 73, 78, 32, 79, 112, 101, 110, 86, 80, 78, 32, 83, 116, 97,
                            116, 105, 99, 32, 107, 101, 121, 32, 86, 49, 45, 45, 45, 45, 45]

  /** static_key_foot, "-----END OpenVPN Static key V1-----". */
  const FOOT: seq<byte> := [45, 45, 45, 45, 45, 69, 78, 68, 32, 79, 112, 101, 110, 86, 80, 78, 32, 83, 116, 97, 116,
                            105, 99, 32, 107, 101, 121, 32, 86, 49, 45, 45, 45, 45, 45]

  /** isspace. */
  predicate IsSpace(c: byte) {
    c == 32 || 9 <= c <= 13
  }

  // ----- the parser -----

  datatype State = Initial | Head | Data | DataComplete | Foot | Finished

  /** The parse state: `pending` is the first digit of a byte, `out` the bytes read so far. */
  datatype Scan = Scan(state: State, lineIndex: nat, matched: nat, pending: Option<byte>, out: seq<byte>)

  const START: Scan := Scan(Initial, 0, 0, None, [])

  /** What the first character of a line does. */
  function AtLineStart(state: State, lineIndex: nat, c: byte): State {
    if lineIndex > 0 then state
    else
      var s := if state.Head? then Data else state;
      if (s.Data? || s.DataComplete?) && c == DASH then Foot else s
  }

  /** Header and footer are compared position by position. */
  function Compare(s: Scan, c: byte): Scan {
    if s.state.Initial? && s.lineIndex < |HEAD| && c == HEAD[s.lineIndex] then
      s.(matched := s.matched + 1, state := if s.matched + 1 == |HEAD| then Head else Initial)
    else if s.state.Foot? && s.lineIndex < |FOOT| && c == FOOT[s.lineIndex] then
      s.(matched := s.matched + 1, state := if s.matched + 1 == |FOOT| then Finished else Foot)
    else s
  }

  function Value(c: byte): nat {
    if DigitValue(c).Some? then DigitValue(c).value else 0
  }

  lemma ValueBelow(c: byte)
    ensures Value(c) < 16
  {
  }

  function TwoDigits(a: byte, b: byte): byte {
    ValueBelow(a);
    ValueBelow(b);
    Value(a) * 16 + Value(b)
  }

  /** A character of the key; anything but a digit or a space is fatal. */
  function ReadKey(s: Scan, c: byte): Option<Scan> {
    if DigitValue(c).Some? then
      match s.pending
      case None => Some(s.(pending := Some(c)))
      case Some(a) =>
        Some(s.(pending := None, out := s.out + [TwoDigits(a, c)],
                state := if |s.out| + 1 == KEYS_SIZE then DataComplete else s.state))
    else if IsSpace(c) then Some(s)
    else None
  }

  function Step(s: Scan, c: byte): Option<Scan> {
    if c == NEWLINE then Some(s.(lineIndex := 0, matched := 0))
    else
      var s1 := Compare(s.(state := AtLineStart(s.state, s.lineIndex, c)), c);
      var s2 := if s1.state.Data? then ReadKey(s1, c) else Some(s1);
      if s2.None? then None else Some(s2.value.(lineIndex := s.lineIndex + 1))
  }

  function Run(s: Scan, text: seq<byte>): Option<Scan>
    decreases |text|
  {
    if text == [] then Some(s)
    else
      match Step(s, text[0])
      case None => None
      case Some(next) => Run(next, text[1..])
  }

  /** A parse never holds more than the two keys, and goes on reading only while there is room. */
  predicate Fits(s: Scan) {
    |s.out| <= KEYS_SIZE && (s.state.Initial? || s.state.Head? || s.state.Data? ==> |s.out| < KEYS_SIZE)
  }

  lemma {:induction false} RunFits(s: Scan, text: seq<byte>)
    requires Fits(s)
    ensures Run(s, text).Some? ==> Fits(Run(s, text).value)
    decreases |text|
  {
    if text != [] && Step(s, text[0]).Some? {
      StepFits(s, text[0]);
      RunFits(Step(s, text[0]).value, text[1..]);
    }
  }

  lemma StepFits(s: Scan, c: byte)
    requires Fits(s)
    ensures Step(s, c).Some? ==> Fits(Step(s, c).value)
  {
    hide DigitValue, TwoDigits, IsSpace;
  }

  /** struct key2. */
  datatype Key2 = Key2(n: nat, keys: seq<byte>)

  /** What read_key_file makes of a text; None is the fatal error. */
  function ReadText(text: seq<byte>, mustSucceed: bool): Option<Key2> {
    RunFits(START, text);
    match Run(START, text)
    case None => None
    case Some(s) =>
      if mustSucceed && (|s.out| / KEY_SIZE == 0 || !s.state.Finished?) then None
      else Some(Key2(|s.out| / KEY_SIZE, s.out + Fill(0, KEYS_SIZE - |s.out|)))
  }

  // ----- what the parser reads -----

  lemma {:induction false} RunJoins(s: Scan, a: seq<byte>, b: seq<byte>)
    ensures Run(s, a + b) == if Run(s, a).None? then None else Run(Run(s, a).value, b)
    decreases |a|
  {
    hide Step;
    if a == [] {
      assert a + b == b;
    } else {
      assert (a + b)[1..] == a[1..] + b;
      if Step(s, a[0]).Some? { RunJoins(Step(s, a[0]).value, a[1..], b); }
    }
  }

  lemma RunOne(s: Scan, c: byte)
    ensures Run(s, [c]) == Step(s, c)
  {
    hide Step;
    if Step(s, c).Some? { assert Run(Step(s, c).value, [c][1..]) == Step(s, c); }
  }

  lemma RunSnoc(s: Scan, text: seq<byte>, k: nat)
    requires k < |text|
    ensures Run(s, text[..k + 1])
         == if Run(s, text[..k]).None? then None else Step(Run(s, text[..k]).value, text[k])
  {
    hide Step, Run;
    assert text[..k + 1] == text[..k] + [text[k]];
    RunJoins(s, text[..k], [text[k]]);
    if Run(s, text[..k]).Some? { RunOne(Run(s, text[..k]).value, text[k]); }
  }

  /** How many of the first `k` characters agree with a header. */
  function Agreeing(l: seq<byte>, head: seq<byte>, k: nat): (n: nat)
    requires k <= |l|
    ensures n <= k && n <= |head|
  {
    if k == 0 then 0
    else Agreeing(l, head, k - 1) + if k - 1 < |head| && l[k - 1] == head[k - 1] then 1 else 0
  }

  lemma {:induction false} AllAgree(l: seq<byte>, head: seq<byte>, k: nat)
    requires k <= |l| && k <= |head| && Agreeing(l, head, k) == k
    ensures l[..k] == head[..k]
  {
    if k > 0 {
      AllAgree(l, head, k - 1);
      assert l[..k] == l[..k - 1] + [l[k - 1]] && head[..k] == head[..k - 1] + [head[k - 1]];
    }
  }

  /** A line the parser passes over: it does not start with the header. */
  predicate Skipped(l: seq<byte>) {
    NEWLINE !in l && !(HEAD <= l)
  }

  lemma {:induction false} InSkippedLine(l: seq<byte>, k: nat)
    requires Skipped(l) && k <= |l|
    ensures Run(START, l[..k]) == Some(Scan(Initial, k, Agreeing(l, HEAD, k), None, []))
  {
    hide Run, Step, Agreeing, Skipped;
    if k == 0 {
      assert l[..0] == [];
      RunNone(START);
      NoneAgree(l);
    } else {
      InSkippedLine(l, k - 1);
      RunSnoc(START, l, k - 1);
      SkippedStep(l, k - 1);
    }
  }

  lemma RunNone(s: Scan)
    ensures Run(s, []) == Some(s)
  {
  }

  lemma NoneAgree(l: seq<byte>)
    ensures Agreeing(l, HEAD, 0) == 0
  {
  }

  lemma SkippedStep(l: seq<byte>, k: nat)
    requires Skipped(l) && k < |l|
    ensures Step(Scan(Initial, k, Agreeing(l, HEAD, k), None, []), l[k])
         == Some(Scan(Initial, k + 1, Agreeing(l, HEAD, k + 1), None, []))
  {
    hide Skipped, ReadKey;
    if k + 1 <= |HEAD| { NeverWhole(l, k + 1); }
    NoNewline(l, k);
  }

  lemma NoNewline(l: seq<byte>, k: nat)
    requires Skipped(l) && k < |l|
    ensures l[k] != NEWLINE
  {
  }

  lemma NeverWhole(l: seq<byte>, k: nat)
    requires Skipped(l) && k <= |l| && k <= |HEAD|
    ensures k == |HEAD| ==> Agreeing(l, HEAD, k) < |HEAD|
  {
    hide Agreeing;
    assert HEAD[..|HEAD|] == HEAD;
    if k == |HEAD| && Agreeing(l, HEAD, k) == k { AllAgree(l, HEAD, k); }
  }

  lemma SkipLine(l: seq<byte>)
    requires Skipped(l)
    ensures Run(START, l + [NEWLINE]) == Some(START)
  {
    hide Run, Skipped;
    InSkippedLine(l, |l|);
    assert l[..|l|] == l;
    RunJoins(START, l, [NEWLINE]);
    RunOne(Scan(Initial, |l|, Agreeing(l, HEAD, |l|), None, []), NEWLINE);
  }

  function Lines(ls: seq<seq<byte>>): seq<byte> {
    if ls == [] then [] else ls[0] + [NEWLINE] + Lines(ls[1..])
  }

  lemma {:induction false} SkipLines(ls: seq<seq<byte>>)
    requires forall l :: l in ls ==> Skipped(l)
    ensures Run(START, Lines(ls)) == Some(START)
  {
    if ls != [] {
      hide Run, Skipped;
      SkipLine(ls[0]);
      RunJoins(START, ls[0] + [NEWLINE], Lines(ls[1..]));
      SkipLines(ls[1..]);
    } else {
      hide Step;
    }
  }

  lemma {:induction false} InHeader(k: nat)
    requires k <= |HEAD|
    ensures Run(START, HEAD[..k]) == Some(Scan(if k == |HEAD| then Head else Initial, k, k, None, []))
  {
    if k == 0 {
      assert HEAD[..0] == [];
    } else {
      InHeader(k - 1);
      HeaderStep(k - 1);
    }
  }

  lemma HeaderStep(k: nat)
    requires k < |HEAD| && Run(START, HEAD[..k]) == Some(Scan(Initial, k, k, None, []))
    ensures Run(START, HEAD[..k + 1])
         == Some(Scan(if k + 1 == |HEAD| then Head else Initial, k + 1, k + 1, None, []))
  {
    hide Run;
    RunSnoc(START, HEAD, k);
    assert HEAD[k] != NEWLINE;
  }

  /** Nothing but a newline matters once the header has been seen, or the footer. */
  lemma {:induction false} RestOfLine(s: Scan, rest: seq<byte>)
    requires NEWLINE !in rest && s.state.Head? && s.lineIndex > 0
    ensures Run(s, rest) == Some(s.(lineIndex := s.lineIndex + |rest|))
    decreases |rest|
  {
    if rest != [] {
      assert rest[0] in rest;
      RestOfLine(s.(lineIndex := s.lineIndex + 1), rest[1..]);
    }
  }

  lemma ReadHeader(rest: seq<byte>)
    requires NEWLINE !in rest
    ensures Run(START, HEAD + rest + [NEWLINE]) == Some(Scan(Head, 0, 0, None, []))
  {
    hide Run;
    InHeader(|HEAD|);
    assert HEAD[..|HEAD|] == HEAD;
    var s := Scan(Head, |HEAD|, |HEAD|, None, []);
    RestOfLine(s, rest);
    RunJoins(START, HEAD, rest);
    RunJoins(START, HEAD + rest, [NEWLINE]);
    RunOne(s.(lineIndex := s.lineIndex + |rest|), NEWLINE);
  }

  lemma {:induction false} Ignored(s: Scan, tail: seq<byte>)
    requires s.state.Finished?
    ensures var r := Run(s, tail); r.Some? && r.value.state.Finished? && r.value.out == s.out
    decreases |tail|
  {
    if tail != [] {
      Ignored(Step(s, tail[0]).value, tail[1..]);
    }
  }

  // ----- the body -----

  /** The characters that are not spaces. */
  function Digits(body: seq<byte>): seq<byte> {
    if body == [] then []
    else Digits(body[..|body| - 1]) + if IsSpace(body[|body| - 1]) then [] else [body[|body| - 1]]
  }

  /** The bytes that digits spell in pairs. */
  function Pairs(d: seq<byte>): (p: seq<byte>)
    ensures |p| == |d| / 2
  {
    if |d| < 2 then []
    else if |d| % 2 == 1 then Pairs(d[..|d| - 1])
    else Pairs(d[..|d| - 2]) + [TwoDigits(d[|d| - 2], d[|d| - 1])]
  }

  predicate HexAndSpaces(body: seq<byte>) {
    forall k :: 0 <= k < |body| ==> IsSpace(body[k]) || DigitValue(body[k]).Some?
  }

  /** The state behind the header line with the digits `d` read. */
  predicate InBody(s: Scan, d: seq<byte>) {
    && s.out == Pairs(d) && s.matched == 0 && |d| <= 2 * KEYS_SIZE
    && s.pending == (if |d| % 2 == 1 then Some(d[|d| - 1]) else None)
    && (s.state.Head? || s.state.Data? || s.state.DataComplete?)
    && (s.state.DataComplete? <==> |d| == 2 * KEYS_SIZE)
    && (s.state.Head? ==> s.lineIndex == 0)
  }

  /** A space changes nothing, a newline starts a line. */
  lemma BodySpace(s: Scan, d: seq<byte>, c: byte)
    requires InBody(s, d) && IsSpace(c)
    ensures var r := Step(s, c);
            r.Some? && InBody(r.value, d) && (r.value.lineIndex == 0 <==> c == NEWLINE)
  {
    hide Pairs;
  }

  lemma PairsOdd(d: seq<byte>)
    requires |d| % 2 == 1
    ensures Pairs(d) == Pairs(d[..|d| - 1])
  {
  }

  lemma PairsEven(d: seq<byte>)
    requires |d| % 2 == 0 && d != []
    ensures Pairs(d) == Pairs(d[..|d| - 2]) + [TwoDigits(d[|d| - 2], d[|d| - 1])]
  {
  }

  lemma ParityFlips(n: nat)
    ensures (n + 1) % 2 == 1 - n % 2
  {
  }

  lemma LastTwo(d: seq<byte>, c: byte)
    requires d != []
    ensures var e := d + [c];
            |e| == |d| + 1 && e[|e| - 2] == d[|d| - 1] && e[|e| - 1] == c && e[..|e| - 2] == d[..|d| - 1]
  {
  }

  lemma PairsCompleted(d: seq<byte>, c: byte)
    requires |d| % 2 == 1
    ensures Pairs(d + [c]) == Pairs(d) + [TwoDigits(d[|d| - 1], c)]
  {
    hide TwoDigits, Pairs;
    var n := |d|;
    ParityFlips(n);
    PairsOdd(d);
    LastTwo(d, c);
    PairsEven(d + [c]);
  }

  lemma PairsBegun(d: seq<byte>, c: byte)
    requires |d| % 2 == 0
    ensures Pairs(d + [c]) == Pairs(d)
  {
    hide TwoDigits, Pairs;
    var e := d + [c];
    ParityFlips(|d|);
    PairsOdd(e);
    assert e[..|e| - 1] == d;
  }

  lemma BodyDigit(s: Scan, d: seq<byte>, c: byte)
    requires InBody(s, d) && |d| < 2 * KEYS_SIZE && DigitValue(c).Some?
    ensures var r := Step(s, c); r.Some? && InBody(r.value, d + [c]) && r.value.lineIndex > 0
  {
    hide Pairs, TwoDigits;
    ParityFlips(|d|);
    if |d| % 2 == 1 { PairsCompleted(d, c); } else { PairsBegun(d, c); }
    NotADash(c);
  }

  lemma NotADash(c: byte)
    requires DigitValue(c).Some?
    ensures c != DASH && c != NEWLINE && !IsSpace(c)
  {
  }

  /** A line starts at position `k`. */
  predicate LineStarts(text: seq<byte>, k: nat)
    requires k <= |text|
  {
    k == 0 || text[k - 1] == NEWLINE
  }

  lemma {:induction false} ReadBody(body: seq<byte>, k: nat)
    requires k <= |body| && HexAndSpaces(body) && |Digits(body)| <= 2 * KEYS_SIZE
    ensures var r := Run(Scan(Head, 0, 0, None, []), body[..k]);
            && r.Some? && InBody(r.value, Digits(body[..k]))
            && (r.value.lineIndex == 0 <==> LineStarts(body, k))
  {
    hide Run, Step, InBody, Digits;
    var s0 := Scan(Head, 0, 0, None, []);
    if k == 0 {
      assert body[..0] == [];
      RunNone(s0);
      BodyBegins(s0);
    } else {
      ReadBody(body, k - 1);
      RunSnoc(s0, body, k - 1);
      var s, d, c := Run(s0, body[..k - 1]).value, Digits(body[..k - 1]), body[k - 1];
      DigitsSnoc(body, k);
      if IsSpace(c) {
        assert d + [] == d;
        BodySpace(s, d, c);
      } else {
        DigitsGrow(body, k);
        NotADash(c);
        BodyDigit(s, d, c);
      }
    }
  }

  lemma BodyBegins(s: Scan)
    requires s == Scan(Head, 0, 0, None, [])
    ensures InBody(s, Digits([]))
  {
  }

  lemma DigitsSnoc(body: seq<byte>, k: nat)
    requires 0 < k <= |body|
    ensures Digits(body[..k]) == Digits(body[..k - 1]) + if IsSpace(body[k - 1]) then [] else [body[k - 1]]
  {
    assert body[..k][..k - 1] == body[..k - 1];
  }

  lemma {:induction false} DigitsGrow(body: seq<byte>, k: nat)
    requires k <= |body|
    ensures |Digits(body[..k])| <= |Digits(body)|
    decreases |body| - k
  {
    if k == |body| {
      assert body[..k] == body;
    } else {
      DigitsGrow(body, k + 1);
      DigitsSnoc(body, k + 1);
    }
  }

  // ----- what stands behind two whole keys -----

  /** Any character but a dash at the start of a line is passed over. */
  lemma SurplusStep(s: Scan, d: seq<byte>, c: byte)
    requires InBody(s, d) && |d| == 2 * KEYS_SIZE && !(c == DASH && s.lineIndex == 0)
    ensures var r := Step(s, c);
            r.Some? && InBody(r.value, d) && (r.value.lineIndex == 0 <==> c == NEWLINE)
  {
    hide Pairs;
  }

  lemma {:induction false} ReadSurplus(s: Scan, d: seq<byte>, body: seq<byte>, i: nat, k: nat)
    requires InBody(s, d) && |d| == 2 * KEYS_SIZE && i <= k <= |body|
    requires s.lineIndex == 0 <==> LineStarts(body, i)
    requires forall j :: i <= j < |body| ==> !(body[j] == DASH && LineStarts(body, j))
    ensures var r := Run(s, body[i..k]);
            r.Some? && InBody(r.value, d) && (r.value.lineIndex == 0 <==> LineStarts(body, k))
  {
    hide Run, Step, InBody;
    if k == i {
      assert body[i..k] == [];
      RunNone(s);
    } else {
      ReadSurplus(s, d, body, i, k - 1);
      var t := body[i..k];
      assert t[..k - 1 - i] == body[i..k - 1] && t[..k - i] == t;
      RunSnoc(s, t, k - 1 - i);
      SurplusStep(Run(s, body[i..k - 1]).value, d, body[k - 1]);
    }
  }

  // ----- the footer -----

  lemma {:induction false} InFooter(s: Scan, d: seq<byte>, k: nat)
    requires InBody(s, d) && s.lineIndex == 0 && 0 < k <= |FOOT|
    ensures Run(s, FOOT[..k]) == Some(s.(state := if k == |FOOT| then Finished else Foot, lineIndex := k, matched := k))
  {
    hide Run, InBody;
    RunSnoc(s, FOOT, k - 1);
    if k == 1 {
      RunNone(s);
      assert FOOT[..0] == [];
      FirstDash(s, d);
    } else {
      InFooter(s, d, k - 1);
      FooterStep(s.(state := Foot, lineIndex := k - 1, matched := k - 1), k - 1);
    }
  }

  lemma FirstDash(s: Scan, d: seq<byte>)
    requires InBody(s, d) && s.lineIndex == 0
    ensures Step(s, FOOT[0]) == Some(s.(state := Foot, lineIndex := 1, matched := 1))
  {
    hide Pairs;
  }

  lemma FooterStep(s: Scan, k: nat)
    requires 0 < k < |FOOT| && s.state.Foot? && s.lineIndex == k && s.matched == k
    ensures Step(s, FOOT[k])
         == Some(s.(state := if k + 1 == |FOOT| then Finished else Foot, lineIndex := k + 1, matched := k + 1))
  {
    assert FOOT[k] != NEWLINE;
  }

  // ----- whole texts -----

  /** The body of a key file: digits and spaces up to `n`, and behind two whole keys anything but a line with a dash. */
  predicate KeyBody(body: seq<byte>, n: nat) {
    && n <= |body| && HexAndSpaces(body[..n]) && |Digits(body[..n])| <= 2 * KEYS_SIZE
    && (n < |body| ==> |Digits(body[..n])| == 2 * KEYS_SIZE)
    && (forall j :: n <= j < |body| ==> !(body[j] == DASH && LineStarts(body, j)))
  }

  lemma ReadsBody(body: seq<byte>, n: nat)
    requires KeyBody(body, n) && LineStarts(body, |body|)
    ensures var r := Run(Scan(Head, 0, 0, None, []), body);
            r.Some? && InBody(r.value, Digits(body[..n])) && r.value.lineIndex == 0
  {
    hide Run, Step, Digits, InBody;
    var s0, key, d := Scan(Head, 0, 0, None, []), body[..n], Digits(body[..n]);
    ReadBody(key, n);
    assert key[..n] == key && (n > 0 ==> key[n - 1] == body[n - 1]);
    assert LineStarts(key, n) == LineStarts(body, n);
    var s1 := Run(s0, key).value;
    assert body == key + body[n..];
    if n < |body| {
      ReadSurplus(s1, d, body, n, |body|);
      RunJoins(s0, key, body[n..]);
      assert body[n..|body|] == body[n..];
    } else {
      assert body == key;
    }
  }

  /**
   Any text of lines that do not start with the header, a line that does, hexadecimal digits of either
   case with spaces and newlines among them in any way, and a line that starts with the footer: the
   digits in pairs are the key bytes, whatever follows. Behind the 512th digit anything may stand but a
   line that starts with a dash.
   */
  lemma ReadsText(lead: seq<seq<byte>>, rest: seq<byte>, body: seq<byte>, n: nat, tail: seq<byte>)
    requires forall l :: l in lead ==> Skipped(l)
    requires NEWLINE !in rest
    requires n <= |body| && KeyBody(body, n) && LineStarts(body, |body|)
    ensures var r := Run(START, Lines(lead) + (HEAD + rest + [NEWLINE]) + body + FOOT + tail);
            r.Some? && r.value.state.Finished? && r.value.out == Pairs(Digits(body[..n]))
  {
    hide Run, Step, Digits, Pairs, KeyBody;
    var s0, d := Scan(Head, 0, 0, None, []), Digits(body[..n]);
    SkipLines(lead);
    ReadHeader(rest);
    RunJoins(START, Lines(lead), HEAD + rest + [NEWLINE]);
    ReadsBody(body, n);
    RunJoins(START, Lines(lead) + (HEAD + rest + [NEWLINE]), body);
    var s1 := Run(s0, body).value;
    InFooter(s1, d, |FOOT|);
    assert FOOT[..|FOOT|] == FOOT;
    RunJoins(START, Lines(lead) + (HEAD + rest + [NEWLINE]) + body, FOOT);
    var s2 := Run(s1, FOOT).value;
    Ignored(s2, tail);
    RunJoins(START, Lines(lead) + (HEAD + rest + [NEWLINE]) + body + FOOT, tail);
  }

  /** Where the 512th digit ends, or the body. */
  lemma {:induction false} KeyEnds(body: seq<byte>, k: nat) returns (n: nat)
    requires HexAndSpaces(body) && k <= |body| && |Digits(body[..k])| <= 2 * KEYS_SIZE
    ensures n <= |body| && KeyBody(body, n)
    ensures var d := Digits(body);
            Digits(body[..n]) == if |d| <= 2 * KEYS_SIZE then d else d[..2 * KEYS_SIZE]
    decreases |body| - k
  {
    hide Digits;
    if k == |body| {
      n := k;
      assert body[..k] == body;
    } else if |Digits(body[..k])| == 2 * KEYS_SIZE {
      n := k;
      DigitsPrefix(body, k);
      NoDashes(body);
    } else {
      DigitsSnoc(body, k + 1);
      n := KeyEnds(body, k + 1);
    }
  }

  lemma {:induction false} DigitsPrefix(body: seq<byte>, k: nat)
    requires k <= |body|
    ensures Digits(body[..k]) <= Digits(body)
    decreases |body| - k
  {
    if k == |body| {
      assert body[..k] == body;
    } else {
      hide Digits;
      DigitsPrefix(body, k + 1);
      DigitsSnoc(body, k + 1);
    }
  }

  lemma NoDashes(body: seq<byte>)
    requires HexAndSpaces(body)
    ensures forall j :: 0 <= j < |body| ==> body[j] != DASH
  {
  }

  /** With any number of digits the first 512 count. */
  lemma ReadsDigits(lead: seq<seq<byte>>, rest: seq<byte>, body: seq<byte>, tail: seq<byte>)
    requires forall l :: l in lead ==> Skipped(l)
    requires NEWLINE !in rest && HexAndSpaces(body) && LineStarts(body, |body|)
    ensures var r := Run(START, Lines(lead) + (HEAD + rest + [NEWLINE]) + body + FOOT + tail);
            var d := Digits(body);
            && r.Some? && r.value.state.Finished?
            && r.value.out == Pairs(if |d| <= 2 * KEYS_SIZE then d else d[..2 * KEYS_SIZE])
  {
    hide Run, Pairs, KeyBody, HexAndSpaces;
    assert body[..0] == [];
    var n := KeyEnds(body, 0);
    ReadsText(lead, rest, body, n, tail);
  }

  // ----- the printer -----

  lemma {:induction false} DigitsJoin(a: seq<byte>, b: seq<byte>)
    ensures Digits(a + b) == Digits(a) + Digits(b)
    decreases |b|
  {
    if b == [] {
      assert a + b == a;
    } else {
      assert (a + b)[..|a + b| - 1] == a + b[..|b| - 1];
      DigitsJoin(a, b[..|b| - 1]);
    }
  }

  lemma {:induction false} PairsJoin(a: seq<byte>, b: seq<byte>)
    requires |a| % 2 == 0 && |b| % 2 == 0
    ensures Pairs(a + b) == Pairs(a) + Pairs(b)
    decreases |b|
  {
    hide Pairs, TwoDigits;
    if b == [] {
      assert a + b == a;
      PairsNone();
    } else {
      var ab := a + b;
      PairsEven(b);
      PairsEven(ab);
      assert ab[..|ab| - 2] == a + b[..|b| - 2];
      PairsJoin(a, b[..|b| - 2]);
    }
  }

  lemma PairsNone()
    ensures Pairs([]) == []
  {
  }

  lemma DigitsOfTwo(a: byte, b: byte)
    requires !IsSpace(a) && !IsSpace(b)
    ensures Digits([a, b]) == [a, b]
  {
    hide IsSpace;
    var none: seq<byte> := [];
    assert Digits([a][..0]) == none;
    assert none + [a] == [a];
    assert [a, b][..1] == [a];
    assert Digits([a]) == [a];
  }

  lemma PairsOfTwo(a: byte, b: byte)
    ensures Pairs([a, b]) == [TwoDigits(a, b)]
  {
    hide TwoDigits;
    assert Pairs([a, b][..0]) == [];
  }

  lemma DigitsOfHexByte(b: byte, caps: bool)
    ensures HexAndSpaces(HexByte(b, caps)) && |Digits(HexByte(b, caps))| == 2
    ensures Pairs(Digits(HexByte(b, caps))) == [b]
  {
    hide DigitValue, HexDigit, Digits, Pairs, Value, IsSpace;
    var s := HexByte(b, caps);
    DigitReads(b as int / 16, caps);
    DigitReads(b as int % 16, caps);
    NotADash(s[0]);
    NotADash(s[1]);
    DigitsOfTwo(s[0], s[1]);
    PairsOfTwo(s[0], s[1]);
    ValueReads(b as int / 16, caps);
    ValueReads(b as int % 16, caps);
  }

  lemma ValueReads(d: nat, caps: bool)
    requires d < 16
    ensures Value(HexDigit(d, caps)) == d
  {
    DigitReads(d, caps);
  }

  predicate Spaces(s: seq<byte>) {
    forall k :: 0 <= k < |s| ==> IsSpace(s[k])
  }

  lemma {:induction false} DigitsOfSpaces(s: seq<byte>)
    requires Spaces(s)
    ensures Digits(s) == []
    decreases |s|
  {
    if s != [] { DigitsOfSpaces(s[..|s| - 1]); }
  }

  /** A part of a body and the bytes it spells. */
  predicate Spells(body: seq<byte>, bytes: seq<byte>) {
    HexAndSpaces(body) && |Digits(body)| == 2 * |bytes| && Pairs(Digits(body)) == bytes
  }

  lemma SpellsJoin(a: seq<byte>, x: seq<byte>, b: seq<byte>, y: seq<byte>)
    requires Spells(a, x) && Spells(b, y)
    ensures Spells(a + b, x + y)
  {
    hide Digits, Pairs, IsSpace, DigitValue;
    DigitsJoin(a, b);
    PairsJoin(Digits(a), Digits(b));
  }

  lemma SpacesSpell(s: seq<byte>)
    requires Spaces(s)
    ensures Spells(s, [])
  {
    DigitsOfSpaces(s);
  }

  lemma {:induction false} HexTextSpells(data: seq<byte>, n: nat, block: nat, caps: bool, separator: Option<seq<byte>>)
    requires n <= |data| && block > 0 && (separator.Some? ==> Spaces(separator.value))
    ensures Spells(HexText(data, n, block, caps, separator), data[..n])
  {
    hide Spells, Spaces, HexByte;
    if n == 0 {
      SpacesNone();
      SpacesSpell([]);
      assert data[..0] == [];
    } else {
      HexTextSpells(data, n - 1, block, caps, separator);
      var before, gap := HexText(data, n - 1, block, caps, separator), Break(n - 1, block, separator);
      SpacesNone();
      SpacesSpell(gap);
      SpellsJoin(before, data[..n - 1], gap, []);
      HexByteSpells(data[n - 1], caps);
      SpellsJoin(before + gap, data[..n - 1] + [], HexByte(data[n - 1], caps), [data[n - 1]]);
      assert data[..n] == (data[..n - 1] + []) + [data[n - 1]];
    }
  }

  lemma HexByteSpells(b: byte, caps: bool)
    ensures Spells(HexByte(b, caps), [b])
  {
    hide HexByte, Digits, Pairs;
    DigitsOfHexByte(b, caps);
  }

  lemma SpacesNone()
    ensures Spaces([])
  {
  }

  /** A key in lines of 16 bytes. */
  function KeyText(key: seq<byte>): seq<byte> {
    HexText(key, |key|, 16, false, Some([NEWLINE])) + [NEWLINE]
  }

  function Body(keys: seq<seq<byte>>): seq<byte> {
    if keys == [] then [] else Body(keys[..|keys| - 1]) + KeyText(keys[|keys| - 1])
  }

  function Joined(keys: seq<seq<byte>>): seq<byte> {
    if keys == [] then [] else Joined(keys[..|keys| - 1]) + keys[|keys| - 1]
  }

  lemma {:induction false} BodySpells(keys: seq<seq<byte>>)
    ensures Spells(Body(keys), Joined(keys))
    ensures Body(keys) == [] || Body(keys)[|Body(keys)| - 1] == NEWLINE
  {
    hide Spells, HexText;
    if keys == [] {
      SpacesNone();
      SpacesSpell([]);
    } else {
      var key := keys[|keys| - 1];
      BodySpells(keys[..|keys| - 1]);
      HexTextSpells(key, |key|, 16, false, Some([NEWLINE]));
      SpacesSpell([NEWLINE]);
      SpellsJoin(HexText(key, |key|, 16, false, Some([NEWLINE])), key[..|key|], [NEWLINE], []);
      assert key[..|key|] + [] == key;
      SpellsJoin(Body(keys[..|keys| - 1]), Joined(keys[..|keys| - 1]), KeyText(key), key);
    }
  }

  /** `%d`. */
  function Decimal(n: nat): (s: seq<byte>)
    ensures forall k :: 0 <= k < |s| ==> 48 <= s[k] <= 57
  {
    if n < 10 then [48 + n] else Decimal(n / 10) + [48 + n % 10]
  }

  /** "# ", and " bit OpenVPN static key" */
  const HASH: byte := 35
  const BITS: seq<byte> := [32, 98, 105, 116, 32, 79, 112, 101, 110, 86, 80, 78, 32, 115, 116, 97, 116, 105, 99, 32,
                            107, 101, 121]

  function TitleLine(bits: nat): seq<byte> {
    [HASH, 32] + Decimal(bits) + BITS
  }

  function Title(bits: nat): seq<seq<byte>> {
    [[HASH], TitleLine(bits), [HASH]]
  }

  function HeadLine(): (l: seq<byte>)
    ensures 0 !in l
  {
    HEAD + [NEWLINE]
  }

  function FootLine(): (l: seq<byte>)
    ensures 0 !in l
  {
    FOOT + [NEWLINE]
  }

  /** What write_key_file prints for these keys. */
  function FileText(keys: seq<seq<byte>>): seq<byte> {
    Lines(Title(|keys| * KEY_SIZE * 8)) + HeadLine() + Body(keys) + FootLine()
  }

  lemma TitleSkipped(bits: nat)
    ensures forall l :: l in Title(bits) ==> Skipped(l)
  {
    hide Decimal;
    forall l | l in Title(bits) ensures Skipped(l) {
      assert l[0] == HASH;
      assert HEAD[0] == DASH;
      HashSkipped(l, bits);
    }
  }

  lemma HashSkipped(l: seq<byte>, bits: nat)
    requires l == [HASH] || l == TitleLine(bits)
    ensures Skipped(l)
  {
    hide Decimal;
    assert l[0] == HASH && HEAD[0] == DASH;
    assert NEWLINE !in BITS;
    assert NEWLINE !in Decimal(bits);
  }

  lemma {:induction false} JoinedLength(keys: seq<seq<byte>>)
    requires forall k :: k in keys ==> |k| == KEY_SIZE
    ensures |Joined(keys)| == |keys| * KEY_SIZE
  {
    if keys != [] {
      assert keys[|keys| - 1] in keys;
      JoinedLength(keys[..|keys| - 1]);
    }
  }

  /** The text as it is printed: nothing behind the header, one newline behind the footer. */
  lemma ReadsPlain(lead: seq<seq<byte>>, body: seq<byte>)
    requires forall l :: l in lead ==> Skipped(l)
    requires HexAndSpaces(body) && |Digits(body)| <= 2 * KEYS_SIZE
    requires LineStarts(body, |body|)
    ensures var r := Run(START, Lines(lead) + HeadLine() + body + FootLine());
            r.Some? && r.value.state.Finished? && r.value.out == Pairs(Digits(body))
  {
    hide Run, Skipped, Lines, Digits, Pairs, HexAndSpaces;
    ReadsDigits(lead, [], body, [NEWLINE]);
    SamePieces(Lines(lead), HEAD, body, FOOT, [NEWLINE]);
  }

  lemma SamePieces(a: seq<byte>, head: seq<byte>, body: seq<byte>, foot: seq<byte>, end: seq<byte>)
    ensures a + (head + [] + end) + body + foot + end == a + (head + end) + body + (foot + end)
  {
    assert head + [] + end == head + end;
  }

  lemma ReadFinished(text: seq<byte>, n: nat)
    requires 1 <= n <= 2 && Run(START, text).Some?
    requires var s := Run(START, text).value; s.state.Finished? && |s.out| == n * KEY_SIZE
    ensures var out := Run(START, text).value.out;
            ReadText(text, true) == Some(Key2(n, out + Fill(0, KEYS_SIZE - n * KEY_SIZE)))
  {
    hide Run;
  }

  lemma ReadsFile(keys: seq<seq<byte>>)
    requires |Joined(keys)| <= KEYS_SIZE
    ensures var r := Run(START, FileText(keys));
            r.Some? && r.value.state.Finished? && r.value.out == Joined(keys)
  {
    hide Run, Skipped, Lines, Title, Body, Joined, Digits, Pairs, HexAndSpaces, HeadLine, FootLine;
    TitleSkipped(|keys| * KEY_SIZE * 8);
    BodySpells(keys);
    ReadsPlain(Title(|keys| * KEY_SIZE * 8), Body(keys));
  }

  /** read_key_file undoes write_key_file: one or two keys come back, and the parse is complete. */
  lemma RoundTrip(keys: seq<seq<byte>>)
    requires 1 <= |keys| <= 2 && forall k :: k in keys ==> |k| == KEY_SIZE
    ensures ReadText(FileText(keys), true)
         == Some(Key2(|keys|, Joined(keys) + Fill(0, KEYS_SIZE - |keys| * KEY_SIZE)))
  {
    hide Run, ReadText, FileText, Joined;
    JoinedLength(keys);
    ReadsFile(keys);
    ReadFinished(FileText(keys), |keys|);
  }

  method WriteKey(out: Buffer, ghost before: seq<byte>, key: seq<byte>)
    requires Holds(out, before) && |key| == KEY_SIZE
    modifies out, out.data
    ensures out.data == old(out.data) && Holds(out, before + KeyText(key))
  {
    hide Holds;
    var fmt, _ := FormatHexEx(key, 0, 16, false, Some([NEWLINE]));
    HexTextHasNoNuls(key, |key|, 16, false, Some([NEWLINE]));
    Append(out, before, fmt + [NEWLINE]);
  }

  /** The loop of write_key_file over the keys. */
  method WriteKeys(out: Buffer, ghost before: seq<byte>, keys: seq<seq<byte>>)
    requires Holds(out, before) && forall k :: 0 <= k < |keys| ==> |keys[k]| == KEY_SIZE
    modifies out, out.data
    ensures out.data == old(out.data) && Holds(out, before + Body(keys))
  {
    hide Holds, KeyText;
    ghost var allocation := out.data;
    assert keys[..0] == [] && before + [] == before;
    for i := 0 to |keys|
      invariant out.data == allocation && Holds(out, before + Body(keys[..i]))
    {
      WriteKey(out, before + Body(keys[..i]), keys[i]);
      assert keys[..i + 1][..i] == keys[..i];
      assert before + Body(keys[..i]) + KeyText(keys[i]) == before + Body(keys[..i + 1]);
    }
    assert keys[..|keys|] == keys;
  }

  /**
   write_key_file with these random keys: what fits into its buffer of 2048 bytes goes out, `stored` says
   whether buffer_write_file got it into the file.
   */
  method WriteKeyFile(keys: seq<seq<byte>>, stored: bool) returns (nbits: int, content: seq<byte>)
    requires forall k :: 0 <= k < |keys| ==> |keys[k]| == KEY_SIZE
    ensures nbits == (if stored then |keys| * KEY_SIZE * 8 else -1) && content == Clip(FileText(keys), 2048)
  {
    hide Title, Lines, Holds, Body, Clip, HeadLine, FootLine;
    nbits := |keys| * KEY_SIZE * 8;
    var out := new Buffer.Alloc(2048);
    out.data[0] := 0;
    HoldsNothing(out);
    TitleHasNoNuls(nbits);
    ghost var none: seq<byte> := [];
    Append(out, none, Lines(Title(nbits)));
    ghost var text := Lines(Title(nbits));
    assert none + text == text;
    Append(out, text, HeadLine());
    WriteKeys(out, text + HeadLine(), keys);
    Append(out, text + HeadLine() + Body(keys), FootLine());
    content := Held(out, FileText(keys));
    if !stored { nbits := -1; }
  }

  lemma HoldsNothing(out: Buffer)
    requires out.Valid() && out.offset == 0 && out.len == 0 && out.data.Length > 0 && out.data[0] == 0
    ensures Holds(out, [])
  {
  }

  method Held(out: Buffer, ghost text: seq<byte>) returns (content: seq<byte>)
    requires Holds(out, text)
    ensures content == Clip(text, out.data.Length)
  {
    content := out.data[out.offset..out.offset + out.len];
  }

  lemma {:induction false} LinesHaveNoNuls(ls: seq<seq<byte>>)
    requires forall l :: l in ls ==> 0 !in l
    ensures 0 !in Lines(ls)
  {
    if ls != [] { LinesHaveNoNuls(ls[1..]); }
  }

  lemma TitleHasNoNuls(bits: nat)
    ensures 0 !in Lines(Title(bits))
  {
    hide Decimal, Lines;
    assert 0 !in BITS && 0 !in Decimal(bits);
    LinesHaveNoNuls(Title(bits));
  }

  lemma LinesOfTitle(bits: nat)
    ensures |Lines(Title(bits))| == 30 + |Decimal(bits)|
  {
    hide Decimal;
    var ls := Title(bits);
    var ls2: seq<seq<byte>> := ls[1..];
    var ls3: seq<seq<byte>> := ls2[1..];
    assert ls2 == [TitleLine(bits), [HASH]] && ls3 == [[HASH]];
    assert |Lines(ls3)| == 2;
    assert |Lines(ls2)| == |TitleLine(bits)| + 1 + |Lines(ls3)|;
  }

  lemma {:induction false} BodyLength(keys: seq<seq<byte>>)
    requires forall k :: k in keys ==> |k| == KEY_SIZE
    ensures |Body(keys)| == 264 * |keys|
  {
    if keys != [] {
      var key := keys[|keys| - 1];
      assert key in keys;
      HexTextLength(key, KEY_SIZE, 16, false, Some([NEWLINE]));
      BodyLength(keys[..|keys| - 1]);
    }
  }

  /** The buffer holds the whole file for up to seven keys, and no more. */
  lemma FileFits(keys: seq<seq<byte>>)
    requires forall k :: k in keys ==> |k| == KEY_SIZE
    ensures Clip(FileText(keys), 2048) == FileText(keys) <==> |keys| <= 7
  {
    hide Lines, Title, Body, Decimal, HeadLine, FootLine;
    LinesOfTitle(|keys| * KEY_SIZE * 8);
    BodyLength(keys);
    PlainLengths();
    DecimalLength(|keys| * KEY_SIZE * 8);
  }

  lemma PlainLengths()
    ensures |HeadLine()| == 38 && |FootLine()| == 36
  {
  }

  lemma DecimalLength(n: nat)
    ensures |Decimal(n)| >= 1 && (n < 10000 ==> |Decimal(n)| <= 4)
  {
    if n >= 10 { DecimalLength(n / 10); }
    if 10 <= n < 100 { assert |Decimal(n / 10)| == 1; }
    else if 100 <= n < 1000 { assert |Decimal(n / 10)| == 1 + |Decimal(n / 100)|; }
  }

  // ----- the loop of read_key_file -----

  lemma RunStep(s: Scan, text: seq<byte>, i: nat)
    requires i < |text|
    ensures Run(s, text[i..]) == if Step(s, text[i]).None? then None else Run(Step(s, text[i]).value, text[i + 1..])
  {
    hide Step;
    assert text[i..][1..] == text[i + 1..];
  }

  /** The part of the loop that compares a character with the header or the footer. */
  method CompareWith(head: seq<byte>, c: byte, lineIndex: nat, matched: nat) returns (matched': nat, whole: bool)
    ensures var same := lineIndex < |head| && c == head[lineIndex];
            && matched' == (if same then matched + 1 else matched)
            && (whole <==> same && matched + 1 == |head|)
  {
    matched', whole := matched, false;
    if lineIndex < |head| && c == head[lineIndex] {
      matched' := matched + 1;
      whole := matched' == |head|;
    }
  }

  /** The start of a line, and the comparison with header and footer. */
  method CompareChar(c: byte, ghost s: Scan, state: State, lineIndex: nat, matched: nat)
    returns (state': State, matched': nat)
    requires s.state == state && s.lineIndex == lineIndex && s.matched == matched
    ensures Compare(s.(state := AtLineStart(s.state, s.lineIndex, c)), c) == s.(state := state', matched := matched')
    ensures state'.Data? ==> state.Data? || state.Head?
  {
    state', matched' := state, matched;
    if lineIndex == 0 {
      if state'.Head? { state' := Data; }
      if (state'.Data? || state'.DataComplete?) && c == DASH { state' := Foot; }
    }
    var whole;
    if state'.Initial? {
      matched', whole := CompareWith(HEAD, c, lineIndex, matched');
      if whole { state' := Head; }
    }
    if state'.Foot? {
      matched', whole := CompareWith(FOOT, c, lineIndex, matched');
      if whole { state' := Finished; }
    }
  }

  /** Two characters as sscanf reads them with `%x`. */
  method ScanHex(a: byte, b: byte) returns (u: byte)
    requires DigitValue(a).Some? && DigitValue(b).Some?
    ensures u == TwoDigits(a, b)
  {
    u := TwoDigits(a, b);
  }

  /** The local variables of the loop as a scan. */
  ghost function Scanned(state: State, lineIndex: nat, matched: nat, hbIndex: nat, hexByte: byte, out: array<byte>,
                         count: nat): Scan
    requires count <= out.Length
    reads out
  {
    Scan(state, lineIndex, matched, if hbIndex == 1 then Some(hexByte) else None, out[..count])
  }

  /** The part of the loop that reads the key; `ok` is false for the fatal error. */
  method ReadKeyChar(c: byte, state: State, hbIndex: nat, hexByte: byte, out: array<byte>, count: nat,
                     ghost lineIndex: nat, ghost matched: nat)
    returns (ok: bool, state': State, hbIndex': nat, hexByte': byte, count': nat)
    requires out.Length == KEYS_SIZE && count < KEYS_SIZE && hbIndex < 2 && state.Data?
    requires hbIndex == 1 ==> DigitValue(hexByte).Some?
    modifies out
    ensures ok ==> count' <= KEYS_SIZE && hbIndex' < 2 && (hbIndex' == 1 ==> DigitValue(hexByte').Some?)
    ensures count <= count' && forall k :: count' <= k < out.Length ==> out[k] == old(out[k])
    ensures var r := ReadKey(old(Scanned(state, lineIndex, matched, hbIndex, hexByte, out, count)), c);
            if ok then r == Some(Scanned(state', lineIndex, matched, hbIndex', hexByte', out, count')) else r == None
  {
    hide DigitValue, TwoDigits, IsSpace;
    ok, state', hbIndex', hexByte', count' := true, state, hbIndex, hexByte, count;
    if DigitValue(c).Some? {
      if hbIndex == 0 {
        hexByte', hbIndex' := c, 1;
      } else {
        var u := ScanHex(hexByte, c);
        out[count] := u;
        count' := count + 1;
        assert out[..count'] == old(out[..count]) + [u];
        hbIndex' := 0;
        if count' == KEYS_SIZE { state' := DataComplete; }
      }
    } else if !IsSpace(c) {
      ok := false;
    }
  }

  /** One character of the text that is not a newline. */
  method ReadChar(c: byte, state: State, lineIndex: nat, matched: nat, hbIndex: nat, hexByte: byte, out: array<byte>,
                  count: nat)
    returns (ok: bool, state': State, lineIndex': nat, matched': nat, hbIndex': nat, hexByte': byte, count': nat)
    requires out.Length == KEYS_SIZE && count <= KEYS_SIZE && hbIndex < 2 && c != NEWLINE
    requires hbIndex == 1 ==> DigitValue(hexByte).Some?
    requires Fits(Scanned(state, lineIndex, matched, hbIndex, hexByte, out, count))
    modifies out
    ensures ok ==> count' <= KEYS_SIZE && hbIndex' < 2 && (hbIndex' == 1 ==> DigitValue(hexByte').Some?)
    ensures count <= count' && forall k :: count' <= k < out.Length ==> out[k] == old(out[k])
    ensures var r := Step(old(Scanned(state, lineIndex, matched, hbIndex, hexByte, out, count)), c);
            if ok then r == Some(Scanned(state', lineIndex', matched', hbIndex', hexByte', out, count')) else r == None
  {
    hide DigitValue, ReadKey, AtLineStart, Compare;
    ok, hbIndex', hexByte', count' := true, hbIndex, hexByte, count;
    state', matched' := CompareChar(c, Scanned(state, lineIndex, matched, hbIndex, hexByte, out, count), state,
                                    lineIndex, matched);
    lineIndex' := lineIndex + 1;
    if state'.Data? {
      ok, state', hbIndex', hexByte', count' :=
        ReadKeyChar(c, state', hbIndex', hexByte', out, count', lineIndex, matched');
    }
  }

  /** read_key_file on the bytes of a file, or on an inline string with its NUL; None is the fatal error. */
  method ReadKeyFile(file: seq<byte>, inlined: bool, mustSucceed: bool) returns (key2: Option<Key2>)
    ensures key2 == ReadText(if inlined then file + [0] else file, mustSucceed)
  {
    hide Run, Step, DigitValue, Fits;
    var text := if inlined then file + [0] else file;
    var out := new byte[KEYS_SIZE](_ => 0);
    var state, hexByte: byte := Initial, 0;
    var lineIndex: nat, matched: nat, hbIndex: nat, count: nat := 0, 0, 0, 0;
    assert out[..0] == [];
    StartFits();
    assert text[0..] == text;
    for i := 0 to |text|
      invariant count <= KEYS_SIZE && hbIndex < 2 && (hbIndex == 1 ==> DigitValue(hexByte).Some?)
      invariant Fits(Scanned(state, lineIndex, matched, hbIndex, hexByte, out, count))
      invariant Run(START, text) == Run(Scanned(state, lineIndex, matched, hbIndex, hexByte, out, count), text[i..])
      invariant forall k :: count <= k < KEYS_SIZE ==> out[k] == 0
    {
      ghost var s := Scanned(state, lineIndex, matched, hbIndex, hexByte, out, count);
      RunStep(s, text, i);
      StepFits(s, text[i]);
      if text[i] == NEWLINE {
        NewlineStep(s);
        lineIndex, matched := 0, 0;
      } else {
        var ok;
        ok, state, lineIndex, matched, hbIndex, hexByte, count :=
          ReadChar(text[i], state, lineIndex, matched, hbIndex, hexByte, out, count);
        if !ok { return None; }
      }
    }
    ghost var s := Scanned(state, lineIndex, matched, hbIndex, hexByte, out, count);
    assert text[|text|..] == [];
    RunNone(s);
    if mustSucceed && (count / KEY_SIZE == 0 || !state.Finished?) { return None; }
    assert out[..] == out[..count] + Fill(0, KEYS_SIZE - count);
    return Some(Key2(count / KEY_SIZE, out[..]));
  }

  lemma NewlineStep(s: Scan)
    ensures Step(s, NEWLINE) == Some(s.(lineIndex := 0, matched := 0))
  {
  }

  lemma StartFits()
    ensures Fits(START)
  {
  }
}
