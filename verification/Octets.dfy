/** Octets and their numbers. */
module Octets {
  type byte = bv8

  function ByteOf(n: nat): byte { (n % 256) as byte }

  lemma ByteRoundTrip(n: nat)
    ensures ByteOf(n) as nat == n % 256
  {
    OctetRoundTrip(n % 256);
  }

  lemma OctetRoundTrip(x: nat)
    requires x < 256
    ensures x as byte as nat == x
  {
    assert x / 256 == 0;
  }
}
