/** A codec of the kind the neighbour queries need: the space first, each part delimited by its length. */
module Codecs {
  import opened ByteStrings
  import opened StateNodes

  function Unary(n: nat): Bytes {
    if n == 0 then [0] else [1] + Unary(n - 1)
  }

  function Ones(s: Bytes): (n: nat)
    ensures n <= |s|
  {
    if s == [] || s[0] != 1 then 0 else 1 + Ones(s[1..])
  }

  lemma {:induction false} OnesOfUnary(n: nat, rest: Bytes)
    ensures |Unary(n)| == n + 1 && Ones(Unary(n) + rest) == n && (Unary(n) + rest)[n + 1..] == rest
  {
    if n > 0 {
      OnesOfUnary(n - 1, rest);
      assert (Unary(n) + rest)[1..] == Unary(n - 1) + rest;
    }
  }

  function SpaceHeader(s: ObjectSpace): Bytes {
    [if s.system then 1 else 0] + Unary(|s.zone|) + s.zone + Unary(s.id)
  }

  function Encode(s: ObjectSpace, key: Bytes): Bytes {
    SpaceHeader(s) + key
  }

  /** The number a string starts with and what follows it. */
  function ReadUnary(s: Bytes): (nat, Bytes) {
    (Ones(s), if Ones(s) < |s| then s[Ones(s) + 1..] else [])
  }

  function Decode(raw: Bytes): (ObjectSpace, Bytes) {
    if raw == [] then (ObjectSpace(false, [], 0), [])
    else
      var (n, afterLength) := ReadUnary(raw[1..]);
      var length := if n <= |afterLength| then n else |afterLength|;
      var (id, key) := ReadUnary(afterLength[length..]);
      (ObjectSpace(raw[0] == 1, afterLength[..length], id), key)
  }

  lemma ReadsUnary(n: nat, rest: Bytes)
    ensures ReadUnary(Unary(n) + rest) == (n, rest)
  {
    OnesOfUnary(n, rest);
  }

  lemma DecodeInvertsEncode(s: ObjectSpace, key: Bytes)
    ensures Decode(Encode(s, key)) == (s, key)
  {
    hide Unary, ReadUnary;
    var afterZone := Unary(s.id) + key;
    var afterLength := s.zone + afterZone;
    EncodeParts(s, key);
    ReadsUnary(|s.zone|, afterLength);
    assert afterLength[..|s.zone|] == s.zone && afterLength[|s.zone|..] == afterZone;
    ReadsUnary(s.id, key);
  }

  lemma EncodeParts(s: ObjectSpace, key: Bytes)
    ensures var raw := Encode(s, key);
            raw != [] && (raw[0] == 1 <==> s.system) && raw[1..] == Unary(|s.zone|) + (s.zone + (Unary(s.id) + key))
  {
    hide Unary;
  }

  const LENGTH_PREFIXED := Codec(Encode, Decode, SpaceHeader)

  lemma HeaderDecides(s: ObjectSpace, t: ObjectSpace, key: Bytes)
    requires SpaceHeader(s) <= Encode(t, key)
    ensures s == t
  {
    hide SpaceHeader, Decode;
    var rest := Encode(t, key)[|SpaceHeader(s)|..];
    assert Encode(s, rest) == Encode(t, key);
    DecodeInvertsEncode(s, rest);
    DecodeInvertsEncode(t, key);
  }

  /** It is delimited: decoding inverts encoding, and what starts with a space's header belongs to that space. */
  lemma LengthPrefixedIsDelimited()
    ensures Delimited(LENGTH_PREFIXED)
  {
    hide SpaceHeader, Decode;
    forall s, k
      ensures Decode(Encode(s, k)) == (s, k) && SpaceHeader(s) <= Encode(s, k)
    {
      DecodeInvertsEncode(s, k);
    }
    hide Encode;
    forall s, t, k | SpaceHeader(s) <= Encode(t, k)
      ensures s == t
    {
      HeaderDecides(s, t, k);
    }
  }
}
