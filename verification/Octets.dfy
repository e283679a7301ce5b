/** Java bytes in the two forms the code uses them in: as unsigned numbers, which is what `& 0xFF` makes
    of a byte, and as patterns of eight bits. */
module Octets {
  import opened Casts

  type octet = x: int | 0 <= x < 256

  type byte = bv8

  function ToByte(x: octet): byte { x as byte }

  function ToOctet(b: byte): octet { b as int }

  lemma OctetRoundTrip(x: octet)
    ensures ToOctet(ToByte(x)) == x
  {
    CastRoundTrip(x);
  }

  lemma ByteRoundTrip(b: byte)
    ensures ToByte(ToOctet(b)) == b
  {}

  lemma SameOctet(x: octet, b: byte)
    ensures ToByte(x) == b <==> x == ToOctet(b)
  {
    OctetRoundTrip(x);
    ByteRoundTrip(b);
  }

  function Bytes(msg: seq<octet>): (s: seq<byte>)
    ensures |s| == |msg| && forall i :: 0 <= i < |msg| ==> s[i] == ToByte(msg[i])
  {
    seq(|msg|, i requires 0 <= i < |msg| => ToByte(msg[i]))
  }
}
