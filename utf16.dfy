/**
 * Member names: `bytes.decode('utf-16le')` in Python's strict mode. The
 * decoder fails on an odd number of bytes and on a surrogate that is not
 * part of a high-low pair; otherwise it is one-to-one, so the model keys
 * the catalog by the code units themselves.
 */
module Utf16 {
  import opened Wrappers
  import opened Bytes
  import opened Catalog

  predicate IsHighSurrogate(u: CodeUnit) { 0xD800 <= u <= 0xDBFF }
  predicate IsLowSurrogate(u: CodeUnit) { 0xDC00 <= u <= 0xDFFF }

  /** Every high surrogate is followed by a low one, and no low one stands alone. */
  predicate WellFormed(u: Name)
    decreases |u|
  {
    if u == [] then true
    else if IsHighSurrogate(u[0]) then |u| >= 2 && IsLowSurrogate(u[1]) && WellFormed(u[2..])
    else !IsLowSurrogate(u[0]) && WellFormed(u[1..])
  }

  /** The code units of an even-length little-endian byte string. */
  function Units(b: Bytes): (u: Name)
    requires |b| % 2 == 0
    ensures |u| == |b| / 2
  {
    if b == [] then [] else FromLEBound(b[..2]); [FromLE(b[..2])] + Units(b[2..])
  }

  /** `b.decode('utf-16le')`; None stands for UnicodeDecodeError. */
  function Decode(b: Bytes): (r: Option<Name>)
    ensures r.Some? <==> |b| % 2 == 0 && WellFormed(Units(b))
    ensures r.Some? ==> |r.value| == |b| / 2
  {
    if |b| % 2 == 1 then None
    else if WellFormed(Units(b)) then Some(Units(b))
    else None
  }

  /** The UTF-16LE bytes of a name. */
  function Encode(name: Name): (b: Bytes)
    ensures |b| == 2 * |name|
  {
    if name == [] then [] else ToLE(name[0], 2) + Encode(name[1..])
  }

  lemma {:induction false} UnitsEncode(name: Name)
    ensures Units(Encode(name)) == name
  {
    if name != [] {
      var b := Encode(name);
      assert b[..2] == ToLE(name[0], 2);
      assert b[2..] == Encode(name[1..]);
      FromToLE(name[0], 2);
      UnitsEncode(name[1..]);
    }
  }

  lemma {:induction false} EncodeUnits(b: Bytes)
    requires |b| % 2 == 0
    ensures Encode(Units(b)) == b
  {
    if b != [] {
      var u := Units(b);
      FromLEBound(b[..2]);
      assert u[0] == FromLE(b[..2]) && u[1..] == Units(b[2..]);
      LEOfTwo(b[..2]);
      EncodeUnits(b[2..]);
      assert b == b[..2] + b[2..];
    }
  }

  lemma LEOfTwo(b: Bytes)
    requires |b| == 2
    ensures FromLE(b) < 0x1_0000 && ToLE(FromLE(b), 2) == b
  {
    FromLEBound(b);
    ToFromLE(b);
  }

  /** Decoding a well-formed name's encoding gives the name back. */
  lemma DecodeEncode(name: Name)
    requires WellFormed(name)
    ensures Decode(Encode(name)) == Some(name)
  {
    UnitsEncode(name);
  }

  /** Decoding is one-to-one: a decoded name re-encodes to the very bytes it came from. */
  lemma EncodeDecode(b: Bytes)
    requires Decode(b).Some?
    ensures Encode(Decode(b).value) == b
  {
    EncodeUnits(b);
  }
}
