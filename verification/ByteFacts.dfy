// Facts about single bytes: bit operations, and bytes as numbers.
module ByteFacts {
  lemma {:induction false} ByteRoundTrip(y: int)
    requires 0 <= y < 256
    ensures (y as bv8) as int == y
  {
    if y > 0 {
      ByteRoundTrip(y - 1);
      NextByte((y - 1) as bv8);
      assert y as bv8 == ((y - 1) as bv8) + 1;
    }
  }

  lemma IntRoundTrip(x: bv8)
    ensures 0 <= x as int < 256 && (x as int) as bv8 == x
  {}

  lemma NextByte(x: bv8)
    ensures x != 255 ==> (x + 1) as int == x as int + 1
    ensures x == 255 ==> x as int == 255
    ensures x + 1 == 0 <==> x == 255
  {}

  lemma XorCancels(x: bv8, y: bv8)
    ensures (x ^ y) ^ y == x
  {}

  lemma XorMask(a: bv8, b: bv8, m: bv8)
    requires m & (m - 1) == 0
    ensures ((a ^ b) & m != 0) == ((a & m != 0) != (b & m != 0))
  {}

  lemma OrZero(b: bv8, x: bv8, y: bv8)
    ensures b | (x ^ y) == 0 <==> b == 0 && x == y
  {}
}
