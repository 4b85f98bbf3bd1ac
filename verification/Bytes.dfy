/** Bytes as eight-bit vectors, and their values. */
module Bytes {

  type Byte = bv8

  lemma Successor(b: Byte)
    requires b != 255
    ensures (b + 1) as int == b as int + 1
  {}

  lemma Largest(b: Byte)
    ensures b as int == 255 <==> b == 255
  {}

  /** The byte with a given value. */
  function ToByte(x: nat): (b: Byte)
    requires x < 256
    ensures b as int == x
  {
    if x == 0 then 0
    else
      var b := ToByte(x - 1);
      Largest(b);
      Successor(b);
      b + 1
  }
}
