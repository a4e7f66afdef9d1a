/**
 * Byte strings as the reader sees them: Python slicing (clamped at both
 * ends), reads from a file (which come back short at end of file), and
 * `struct.unpack` of little-endian unsigned fields, which fails unless the
 * slice has exactly the field's width.
 */
module Bytes {
  import opened Wrappers

  /** An octet of the file. */
  type byte = b: int | 0 <= b < 0x100
  type Bytes = seq<byte>

  const U16Limit: nat := 0x1_0000
  const U32Limit: nat := 0x1_0000_0000
  const U64Limit: nat := 0x1_0000_0000_0000_0000

  function Min(a: nat, b: nat): (r: nat) { if a <= b then a else b }

  /** 256 to the power k: the number of values a k-byte field can hold. */
  function Pow256(k: nat): (r: nat)
    ensures r > 0
  {
    if k == 0 then 1 else 256 * Pow256(k - 1)
  }

  lemma FieldLimits()
    ensures Pow256(2) == U16Limit && Pow256(4) == U32Limit && Pow256(8) == U64Limit
  {
  }

  /** Python's `s[lo:hi]` for non-negative bounds. */
  function Slice(s: Bytes, lo: nat, hi: nat): (r: Bytes)
    ensures |r| == if lo <= hi && lo <= |s| then Min(hi, |s|) - lo else 0
  {
    if lo <= hi && lo <= |s| then s[lo..Min(hi, |s|)] else []
  }

  /** `f.seek(p); f.read(n)`: never an error, short at end of file. */
  function ReadAt(s: Bytes, p: nat, n: nat): (r: Bytes)
    ensures |r| <= n
    ensures p + n <= |s| ==> r == s[p..p + n]
    ensures p >= |s| ==> r == []
  {
    Slice(s, p, p + n)
  }

  /** The value of a little-endian unsigned integer. */
  function FromLE(b: Bytes): (r: nat)
  {
    if b == [] then 0 else b[0] + 256 * FromLE(b[1..])
  }

  /** The k-byte little-endian encoding of n (truncated above 256^k). */
  function ToLE(n: nat, k: nat): (r: Bytes)
    ensures |r| == k
  {
    if k == 0 then [] else [n % 256] + ToLE(n / 256, k - 1)
  }

  /** `struct.unpack('<H' / '<I' / '<Q', b)[0]` for a k-byte field. */
  function Unpack(b: Bytes, k: nat): (r: Option<nat>)
    ensures r.Some? <==> |b| == k
    ensures r.Some? ==> r.value < Pow256(k)
  {
    if |b| == k then FromLEBound(b); Some(FromLE(b)) else None
  }

  lemma {:induction false} FromLEBound(b: Bytes)
    ensures FromLE(b) < Pow256(|b|)
  {
    if b != [] {
      FromLEBound(b[1..]);
    }
  }

  /** Decoding undoes encoding for every value that fits the field. */
  lemma {:induction false} FromToLE(n: nat, k: nat)
    requires n < Pow256(k)
    ensures FromLE(ToLE(n, k)) == n
  {
    if k > 0 {
      var q, m := n / 256, n % 256;
      DivBelow(n, Pow256(k - 1));
      FromToLE(q, k - 1);
      var r := ToLE(n, k);
      assert r[1..] == ToLE(q, k - 1);
      assert FromLE(r) == m + 256 * q;
    }
  }

  lemma DivBelow(n: nat, p: nat)
    requires n < 256 * p
    ensures n / 256 < p && n == n % 256 + 256 * (n / 256)
  {
  }

  /** A field read out of an encoding decodes to the encoded value. */
  lemma UnpackToLE(n: nat, k: nat)
    requires n < Pow256(k)
    ensures Unpack(ToLE(n, k), k) == Some(n)
  {
    FromToLE(n, k);
  }

  /** Encoding undoes decoding: a k-byte field re-encodes to the same bytes. */
  lemma {:induction false} ToFromLE(b: Bytes)
    ensures ToLE(FromLE(b), |b|) == b
  {
    if b != [] {
      var c := FromLE(b[1..]);
      SplitLow(b[0], c);
      ToFromLE(b[1..]);
      assert b == [b[0]] + b[1..];
    }
  }

  lemma SplitLow(lo: nat, c: nat)
    requires lo < 256
    ensures (lo + 256 * c) % 256 == lo && (lo + 256 * c) / 256 == c
  {
  }

}
