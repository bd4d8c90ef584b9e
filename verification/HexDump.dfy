/** format_hex_ex (buffer.c): bytes as hexadecimal text in blocks. */
module HexDump {
  import opened Bytes
  import opened Buffers

  function HexDigit(d: nat, caps: bool): (c: byte)
    requires d < 16
  {
    if d < 10 then 48 + d else if caps then 55 + d else 87 + d
  }

  /** The value of a hexadecimal digit of either case. */
  function DigitValue(c: byte): Option<nat> {
    if 48 <= c <= 57 then Some((c - 48) as int)
    else if 65 <= c <= 70 then Some((c - 55) as int)
    else if 97 <= c <= 102 then Some((c - 87) as int)
    else None
  }

  lemma DigitReads(d: nat, caps: bool)
    requires d < 16
    ensures DigitValue(HexDigit(d, caps)) == Some(d)
  {
  }

  /** `%02x` or `%02X`. */
  function HexByte(b: byte, caps: bool): (s: seq<byte>)
    ensures |s| == 2 && 0 !in s
  {
    [HexDigit(b as int / 16, caps), HexDigit(b as int % 16, caps)]
  }

  /** What stands in front of byte `i`. */
  function Break(i: nat, block: nat, separator: Option<seq<byte>>): seq<byte>
    requires block > 0
  {
    if separator.Some? && i > 0 && i % block == 0 then separator.value else []
  }

  /** The text of the first `n` bytes. */
  function HexText(data: seq<byte>, n: nat, block: nat, caps: bool, separator: Option<seq<byte>>): seq<byte>
    requires n <= |data| && block > 0
  {
    if n == 0 then []
    else HexText(data, n - 1, block, caps, separator) + Break(n - 1, block, separator) + HexByte(data[n - 1], caps)
  }

  function SeparatorLength(separator: Option<seq<byte>>): nat {
    if separator.Some? then |separator.value| else 0
  }

  /** `(size * 2) + ((size / bytes_per_hexblock) * separator_len) + 2`. */
  function RoomFor(size: nat, block: nat, sep: nat): nat
    requires block > 0
  {
    2 * size + size / block * sep + 2
  }

  lemma BlocksGrow(i: nat, block: nat)
    requires block > 0 && i > 0
    ensures i / block == (i - 1) / block + if i % block == 0 then 1 else 0
  {
    var q, r := (i - 1) / block, (i - 1) % block;
    assert i - 1 == q * block + r;
    if r == block - 1 {
      assert i == (q + 1) * block;
      DivideExactly(q + 1, 0, block);
    } else {
      DivideExactly(q, r + 1, block);
    }
  }

  lemma DivideExactly(q: nat, r: nat, block: nat)
    requires r < block
    ensures (q * block + r) / block == q && (q * block + r) % block == r
  {
    var n := q * block + r;
    assert n == n / block * block + n % block;
    TimesGrows(q, n / block, block);
    TimesGrows(n / block, q, block);
  }

  lemma {:induction false} TimesGrows(a: nat, b: nat, c: nat)
    ensures a < b ==> a * c + c <= b * c
    decreases b
  {
    if a < b {
      assert b * c == (b - 1) * c + c;
      TimesGrows(a, b - 1, c);
    }
  }

  lemma OneBreakMore(i: nat, block: nat, separator: Option<seq<byte>>)
    requires block > 0 && i > 0
    ensures i / block * SeparatorLength(separator)
         == (i - 1) / block * SeparatorLength(separator) + |Break(i, block, separator)|
  {
    BlocksGrow(i, block);
    var sep, before := SeparatorLength(separator), (i - 1) / block;
    assert (before + 1) * sep == before * sep + sep;
  }

  /** A break for every whole block that is followed by a byte. */
  lemma {:induction false} HexTextLength(data: seq<byte>, n: nat, block: nat, caps: bool, separator: Option<seq<byte>>)
    requires n <= |data| && block > 0
    ensures |HexText(data, n, block, caps, separator)|
         == 2 * n + if n == 0 then 0 else (n - 1) / block * SeparatorLength(separator)
  {
    if n == 1 {
    } else if n > 1 {
      hide HexByte;
      HexTextLength(data, n - 1, block, caps, separator);
      OneBreakMore(n - 1, block, separator);
    }
  }

  /** The size formula leaves at least one byte behind the text and its NUL: nothing is cut off or marked. */
  lemma RoomSuffices(data: seq<byte>, block: nat, caps: bool, separator: Option<seq<byte>>)
    requires block > 0
    ensures |HexText(data, |data|, block, caps, separator)| + 2 <= RoomFor(|data|, block, SeparatorLength(separator))
  {
    hide HexText, Break, SeparatorLength;
    var n := |data|;
    HexTextLength(data, n, block, caps, separator);
    if n > 0 {
      OneBreakMore(n, block, separator);
    }
  }

  /** "[more...]" */
  const MORE: seq<byte> := [91, 109, 111, 114, 101, 46, 46, 46, 93]

  /** What a buffer of `room` bytes shows of a text: all of it only when a byte more than its NUL is free. */
  function Shown(text: seq<byte>, room: nat): seq<byte> {
    if |text| + 1 < room then text
    else if room > |MORE| + 1 then text[..room - |MORE| - 1] + MORE
    else Clip(text, room)
  }

  predicate NoNuls(separator: Option<seq<byte>>) {
    separator.Some? ==> 0 !in separator.value
  }

  lemma {:induction false} HexTextHasNoNuls(data: seq<byte>, n: nat, block: nat, caps: bool,
                                          separator: Option<seq<byte>>)
    requires n <= |data| && block > 0 && NoNuls(separator)
    ensures 0 !in HexText(data, n, block, caps, separator)
  {
    if n > 0 { HexTextHasNoNuls(data, n - 1, block, caps, separator); }
  }

  /** The buffer holds what fits of a text, with its NUL. */
  ghost predicate Holds(out: Buffer, text: seq<byte>)
    reads out, out.data
  {
    && out.Valid() && out.offset == 0 && out.len < out.data.Length && out.data[out.len] == 0
    && out.Content() == Clip(text, out.data.Length)
  }

  /** buf_printf extends the text. */
  method Append(out: Buffer, ghost before: seq<byte>, text: seq<byte>)
    requires Holds(out, before) && 0 !in text
    modifies out, out.data
    ensures out.data == old(out.data) && Holds(out, before + text)
  {
    ClipGrows(before, text, out.data.Length);
    var _ := out.Printf(text);
  }

  /** The printing loop: the buffer holds the text as far as it fits. */
  method PrintHex(out: Buffer, data: seq<byte>, block: nat, caps: bool, separator: Option<seq<byte>>)
    requires block > 0 && NoNuls(separator) && Holds(out, [])
    modifies out, out.data
    ensures out.data == old(out.data) && Holds(out, HexText(data, |data|, block, caps, separator))
  {
    hide HexByte, Holds;
    ghost var allocation := out.data;
    for i := 0 to |data|
      invariant out.data == allocation
      invariant Holds(out, HexText(data, i, block, caps, separator))
    {
      ghost var before := HexText(data, i, block, caps, separator);
      ghost var gap := Break(i, block, separator);
      if separator.Some? && i != 0 && i % block == 0 {
        Append(out, before, separator.value);
      } else {
        assert before == before + gap;
      }
      Append(out, before + gap, HexByte(data[i], caps));
    }
  }

  /** out_len: the size of the buffer. */
  function OutLen(size: nat, maxoutput: int, block: nat, separator: Option<seq<byte>>): nat
    requires block > 0
  {
    if maxoutput > 0 then maxoutput else RoomFor(size, block, SeparatorLength(separator))
  }

  /** format_hex_ex: the characters up to the NUL; `fatal` when the buffer is too large for alloc_buf_gc. */
  method FormatHexEx(data: seq<byte>, maxoutput: int, block: nat, caps: bool, separator: Option<seq<byte>>)
    returns (text: seq<byte>, fatal: bool)
    requires block > 0 && NoNuls(separator)
    ensures fatal <==> !SizeValid(OutLen(|data|, maxoutput, block, separator))
    ensures !fatal ==>
              var full := HexText(data, |data|, block, caps, separator);
              text == if maxoutput > 0 then Shown(full, maxoutput) else full
  {
    hide HexText, RoomFor;
    var room := OutLen(|data|, maxoutput, block, separator);
    if !SizeValid(room) { return [], true; }
    RoomSuffices(data, block, caps, separator);
    var out := new Buffer.Alloc(room);
    out.data[0] := 0;
    PrintHex(out, data, block, caps, separator);
    HexTextHasNoNuls(data, |data|, block, caps, separator);
    text := Finish(out, HexText(data, |data|, block, caps, separator));
    fatal := false;
  }

  /** The mark at the end of a full buffer. */
  method Finish(out: Buffer, ghost full: seq<byte>) returns (text: seq<byte>)
    requires Holds(out, full) && 0 !in full
    modifies out.data
    ensures text == Shown(full, out.data.Length)
  {
    hide FirstNul;
    ghost var room := out.data.Length;
    assert out.data[..out.len] == out.Content();
    out.CatTrunc(MORE);
    text := CString(out.data);
    CStringIs(out.data[..], Shown(full, room));
  }

  function FirstNul(s: seq<byte>): (n: nat)
    ensures n <= |s| && 0 !in s[..n] && (n < |s| ==> s[n] == 0)
  {
    if s == [] || s[0] == 0 then 0
    else
      var n := 1 + FirstNul(s[1..]);
      assert s[..n] == [s[0]] + s[1..][..n - 1];
      n
  }

  lemma NulBefore(s: seq<byte>, n: nat, m: nat)
    requires n < |s| && m <= |s| && s[n] == 0
    ensures n < m ==> 0 in s[..m]
  {
    if n < m { assert s[..m][n] == 0; }
  }

  lemma CStringIs(s: seq<byte>, text: seq<byte>)
    requires 0 !in text && text <= s && (|text| < |s| ==> s[|text|] == 0)
    ensures s[..FirstNul(s)] == text
  {
    var n := FirstNul(s);
    if n < |s| { NulBefore(s, n, |text|); }
    if |text| < |s| { NulBefore(s, |text|, n); }
    assert s[..|text|] == text;
  }

  /** The C string at the start of an allocation. */
  method CString(a: array<byte>) returns (s: seq<byte>)
    ensures s == a[..][..FirstNul(a[..])]
  {
    hide FirstNul;
    var n := 0;
    while n < a.Length && a[n] != 0
      invariant n <= a.Length && 0 !in a[..n]
    {
      n := n + 1;
    }
    CStringIs(a[..], a[..n]);
    return a[..n];
  }
}
