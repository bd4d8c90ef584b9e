/** Octets and the little helpers on byte strings that every other module uses. */
module Bytes {
  type byte = x: int | 0 <= x < 256

  /** 2^32, where unsigned 32-bit arithmetic wraps around. */
  const U32: nat := 0x1_0000_0000

  /** Adding to a sum that was wrapped gives the wrapped sum. */
  lemma WrapAdd(sum: nat, more: int)
    ensures (sum % U32 + more) % U32 == (sum + more) % U32
  {
  }

  datatype Option<+T> = None | Some(value: T)

  /** `n` copies of one octet, as `memset` leaves them. */
  function Fill(b: byte, n: nat): (s: seq<byte>)
    ensures |s| == n && forall k :: 0 <= k < n ==> s[k] == b
  {
    seq(n, _ => b)
  }

  /** A number in `n` bytes, the most significant first. */
  function BigEndian(x: nat, n: nat): (b: seq<byte>)
    ensures |b| == n
  {
    if n == 0 then [] else BigEndian(x / 256, n - 1) + [x % 256]
  }

  function FromBigEndian(b: seq<byte>): nat {
    if b == [] then 0 else FromBigEndian(b[..|b| - 1]) * 256 + b[|b| - 1]
  }

  function Power256(n: nat): nat {
    if n == 0 then 1 else 256 * Power256(n - 1)
  }

  lemma {:induction false} BigEndianInverts(x: nat, n: nat)
    requires x < Power256(n)
    ensures FromBigEndian(BigEndian(x, n)) == x
  {
    if n > 0 {
      BigEndianInverts(x / 256, n - 1);
      assert BigEndian(x, n)[..n - 1] == BigEndian(x / 256, n - 1);
    }
  }
}
