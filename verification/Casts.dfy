/** Casts between numbers and bit patterns. */
module Casts {

  lemma CastRoundTrip(x: int)
    requires 0 <= x < 256
    ensures (x as bv8) as int == x
  {
    if x < 128 {
      if x < 64 {
        if x < 32 {}
      } else {}
    } else {
      if x < 192 {}
    }
  }
}
