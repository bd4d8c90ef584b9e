/** struct buffer: content inside an allocation, with room before and behind it. */
module Buffers {
  import opened Bytes

  /** BUF_SIZE_MAX, as the comparisons in buffer.h read it. */
  const BUF_SIZE_MAX: int := 0x20_0000

  predicate SizeValid(size: int) {
    0 <= size < BUF_SIZE_MAX
  }

  /** The characters of a string that fit into `room` bytes with its NUL. */
  function Clip(s: seq<byte>, room: nat): (c: seq<byte>)
    ensures c <= s
  {
    if |s| < room then s else if room == 0 then [] else s[..room - 1]
  }

  /** Clipping as the text grows, or at the end. */
  lemma ClipGrows(s: seq<byte>, t: seq<byte>, room: nat)
    requires room > 0
    ensures Clip(s + t, room) == Clip(s, room) + Clip(t, room - |Clip(s, room)|)
  {
  }

  /**
   A copy of the struct shares the allocation: `data` is a reference. The capacity is the length of
   the allocation.
   */
  class Buffer {
    var data: array<byte>
    var offset: int
    var len: int

    /** The content lies inside the allocation. */
    predicate Valid()
      reads this
    {
      0 <= offset && 0 <= len && offset + len <= data.Length
    }

    /** The `len` bytes at BPTR. */
    ghost function Content(): (c: seq<byte>)
      reads this, data
      requires Valid()
      ensures |c| == len
    {
      data[offset..offset + len]
    }

    constructor (allocation: array<byte>, start: int, length: int)
      ensures data == allocation && offset == start && len == length
    {
      data, offset, len := allocation, start, length;
    }

    /** alloc_buf. */
    constructor Alloc(capacity: nat)
      ensures Valid() && fresh(data) && data.Length == capacity && offset == 0 && len == 0
    {
      data, offset, len := new byte[capacity](_ => 0), 0, 0;
    }

    /** Struct assignment: `*this = *other`. */
    method Assign(other: Buffer)
      modifies this
      ensures data == other.data && offset == old(other.offset) && len == old(other.len)
    {
      data, offset, len := other.data, other.offset, other.len;
    }

    /** buf_safe: room to append `n` bytes. */
    predicate Safe(n: int)
      reads this
    {
      len >= 0 && SizeValid(n) && offset + len + n <= data.Length
    }

    /** buf_safe_bidir: room to move the end by `n` either way. */
    predicate SafeBidir(n: int)
      reads this
    {
      len >= 0 && -BUF_SIZE_MAX <= n < BUF_SIZE_MAX && len + n >= 0 && offset + (len + n) <= data.Length
    }

    /** buf_init. */
    method Init(start: int) returns (ok: bool)
      modifies this
      ensures ok <==> 0 <= start <= data.Length
      ensures data == old(data)
      ensures if ok then Valid() && offset == start && len == 0 else offset == old(offset) && len == old(len)
    {
      ok := !(start < 0 || start > data.Length);
      if ok { len, offset := 0, start; }
    }

    /** buf_inc_len. */
    method IncLen(n: int) returns (ok: bool)
      requires Valid()
      modifies this
      ensures ok == old(SafeBidir(n))
      ensures Valid() && data == old(data) && offset == old(offset)
      ensures len == if ok then old(len) + n else old(len)
    {
      ok := SafeBidir(n);
      if ok { len := len + n; }
    }

    /** buf_prepend: the content grows at its head into the headroom; the new bytes are what was there. */
    method Prepend(n: int) returns (ok: bool)
      requires Valid()
      modifies this
      ensures ok <==> 0 <= n <= old(offset)
      ensures Valid() && data == old(data)
      ensures if ok then offset == old(offset) - n && Content() == data[offset..offset + n] + old(Content())
              else offset == old(offset) && len == old(len)
    {
      ok := !(n < 0 || n > offset);
      if ok { offset, len := offset - n, len + n; }
    }

    /** buf_advance: drop `n` bytes from the head. */
    method Advance(n: int) returns (ok: bool)
      requires Valid()
      modifies this
      ensures ok <==> 0 <= n <= old(len)
      ensures Valid() && data == old(data)
      ensures if ok then offset == old(offset) + n && Content() == old(Content())[n..]
              else offset == old(offset) && len == old(len)
    {
      ok := !(n < 0 || len < n);
      if ok { offset, len := offset + n, len - n; }
    }

    /** memcpy into the allocation. */
    method Put(at: int, src: seq<byte>)
      requires 0 <= at && at + |src| <= data.Length
      modifies data
      ensures data[at..at + |src|] == src
      ensures forall k :: 0 <= k < data.Length && !(at <= k < at + |src|) ==> data[k] == old(data[k])
    {
      forall k | 0 <= k < |src| { data[at + k] := src[k]; }
    }

    /** buf_write. */
    method Write(src: seq<byte>) returns (ok: bool)
      requires Valid()
      modifies this, data
      ensures ok == old(Safe(|src|))
      ensures Valid() && data == old(data) && offset == old(offset)
      ensures Content() == if ok then old(Content()) + src else old(Content())
      ensures forall k :: 0 <= k < data.Length && !(offset <= k < offset + len) ==> data[k] == old(data[k])
    {
      ok := Safe(|src|);
      if ok {
        var at := offset + len;
        Put(at, src);
        assert data[offset..at + |src|] == data[offset..at] + data[at..at + |src|];
        len := len + |src|;
      }
    }

    /** buf_write_prepend. */
    method WritePrepend(src: seq<byte>) returns (ok: bool)
      requires Valid()
      modifies this, data
      ensures ok <==> |src| <= old(offset)
      ensures Valid() && data == old(data)
      ensures Content() == if ok then src + old(Content()) else old(Content())
      ensures if ok then offset == old(offset) - |src| else offset == old(offset)
      ensures forall k :: 0 <= k < data.Length && !(offset <= k < offset + len) ==> data[k] == old(data[k])
    {
      ghost var before := Content();
      ok := Prepend(|src|);
      if ok {
        Put(offset, src);
        assert data[offset + |src|..offset + len] == before;
        assert data[offset..offset + len] == data[offset..offset + |src|] + data[offset + |src|..offset + len];
      }
    }

    /** buf_read: take `n` bytes from the head. */
    method Read(n: int) returns (ok: bool, out: seq<byte>)
      requires Valid()
      modifies this
      ensures ok <==> 0 <= n <= old(len)
      ensures Valid() && data == old(data)
      ensures if ok then out == old(Content())[..n] && Content() == old(Content())[n..] && offset == old(offset) + n
              else out == [] && offset == old(offset) && len == old(len)
    {
      ok, out := !(n < 0 || len < n), [];
      if ok {
        out := data[offset..offset + n];
        offset, len := offset + n, len - n;
      }
    }

    /** buf_copy. */
    method Copy(src: Buffer) returns (ok: bool)
      requires Valid() && src.Valid() && src != this && src.data != data
      modifies this, data
      ensures ok == old(Safe(src.len))
      ensures Valid() && data == old(data) && offset == old(offset)
      ensures Content() == if ok then old(Content()) + old(src.Content()) else old(Content())
    {
      ok := Write(src.data[src.offset..src.offset + src.len]);
    }

    /** vsnprintf behind the content, and the NUL that buf_null_terminate puts at the end of the allocation. */
    method PutString(at: nat, text: seq<byte>)
      requires Valid() && at == offset + len && at + |text| < data.Length
      modifies data
      ensures data[offset..at + |text|] == old(Content()) + text && data[at + |text|] == 0
    {
      Put(at, text + [0]);
      data[data.Length - 1] := 0;
      StringPut(old(data[..]), data[..], offset, at, text);
      assert data[offset..at + |text|] == data[..][offset..at + |text|];
      assert old(Content()) == old(data[..])[offset..at];
    }

    /** buf_printf of text without NULs: what fits is appended, and a NUL behind it. */
    method Printf(text: seq<byte>) returns (ok: bool)
      requires Valid() && 0 !in text
      modifies this, data
      ensures Valid() && data == old(data) && offset == old(offset)
      ensures ok <==> |text| < data.Length - offset - old(len)
      ensures Content() == old(Content()) + Clip(text, data.Length - offset - old(len))
      ensures old(offset + len) < data.Length ==> offset + len < data.Length && data[offset + len] == 0
    {
      var at, cap := offset + len, data.Length - offset - len;
      ok := false;
      if cap > 0 {
        var n := if |text| < cap then |text| else cap - 1;
        PutString(at, text[..n]);
        len := len + n;
        ok := |text| < cap;
      }
    }

    /** buf_catrunc: marks a buffer without room by overwriting its end. */
    method CatTrunc(str: seq<byte>)
      requires Valid()
      modifies data
      ensures data[..] == if data.Length - offset - len <= 1 && |str| + 1 < data.Length - offset
                          then old(data[..data.Length - |str| - 1]) + str + [0] else old(data[..])
    {
      if data.Length - offset - len <= 1 {
        var n := |str| + 1;
        if n < data.Length - offset {
          var at := data.Length - n;
          forall k | 0 <= k < |str| { data[at + k] := str[k]; }
          data[data.Length - 1] := 0;
          assert data[..] == data[..at] + data[at..data.Length - 1] + [0];
        }
      }
    }
  }

  lemma StringPut(d: seq<byte>, e: seq<byte>, offset: nat, at: nat, text: seq<byte>)
    requires |d| == |e| && offset <= at && at + |text| < |d|
    requires forall k :: 0 <= k < at ==> e[k] == d[k]
    requires forall k :: at <= k < at + |text| ==> e[k] == text[k - at]
    ensures e[offset..at + |text|] == d[offset..at] + text
  {
  }
}
