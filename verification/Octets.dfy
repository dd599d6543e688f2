// Bytes, as the socket and the buffers hold them.
module Octets {
  type Byte = b: int | 0 <= b < 256
  type Octets = seq<Byte>

  const LF: Byte := 10
  const CR: Byte := 13
  const INT_MAX := 0x7fff_ffff

  predicate IsDigit(b: Byte) {
    48 <= b <= 57
  }

  // The conversion of a 64-bit long to a 32-bit int.
  function ToInt32(v: int): (r: int)
    ensures -0x8000_0000 <= r <= INT_MAX
    ensures 0 <= v <= INT_MAX ==> r == v
  {
    var m := v % 0x1_0000_0000;
    if m <= INT_MAX then m else m - 0x1_0000_0000
  }
}
