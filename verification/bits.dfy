/** Octets and the bit tests the panel protocol is decoded with. */
module Bits {

  /** One octet of the panel's byte stream. */
  type byte = bv8

  /** Python's `min(a, b)` on two integers: slice cuts and lamp-group bounds. */
  function Min(a: int, b: int): int {
    if a < b then a else b
  }

  /** Python's `bool(b & mask)`: some bit of `mask` is set in `b`. */
  predicate Has(b: byte, mask: byte) {
    b & mask != 0
  }

  /** Bit `j` of `b`, least significant first: `bool(b & (1 << j))`. */
  predicate BitAt(b: byte, j: nat)
    requires j < 8
  {
    Has(b, (1 as byte) << j)
  }

  /** The eight bits of `b`, least significant first. */
  function Unpack(b: byte): (bits: seq<bool>)
    ensures |bits| == 8
  {
    seq(8, j requires 0 <= j < 8 => BitAt(b, j))
  }

  /** Packs eight flags into one octet, flag `j` becoming bit `j`. */
  function Pack(bits: seq<bool>): byte
    requires |bits| == 8
  {
    (if bits[0] then 0x01 else 0x00) | (if bits[1] then 0x02 else 0x00) |
    (if bits[2] then 0x04 else 0x00) | (if bits[3] then 0x08 else 0x00) |
    (if bits[4] then 0x10 else 0x00) | (if bits[5] then 0x20 else 0x00) |
    (if bits[6] then 0x40 else 0x00) | (if bits[7] then 0x80 else 0x00)
  }

  /** Reading the bits back out of a packed octet gives the flags that went in. */
  lemma UnpackPack(bits: seq<bool>)
    requires |bits| == 8
    ensures Unpack(Pack(bits)) == bits
  {
    var b := Pack(bits);
    assert BitAt(b, 0) == bits[0];
    assert BitAt(b, 1) == bits[1];
    assert BitAt(b, 2) == bits[2];
    assert BitAt(b, 3) == bits[3];
    assert BitAt(b, 4) == bits[4];
    assert BitAt(b, 5) == bits[5];
    assert BitAt(b, 6) == bits[6];
    assert BitAt(b, 7) == bits[7];
  }

  /** Every octet is the packing of its own bits, so `Unpack` loses nothing. */
  lemma PackUnpack(b: byte)
    ensures Pack(Unpack(b)) == b
  {
    var bits := Unpack(b);
    assert bits[0] == BitAt(b, 0) && bits[1] == BitAt(b, 1) && bits[2] == BitAt(b, 2) && bits[3] == BitAt(b, 3);
    assert bits[4] == BitAt(b, 4) && bits[5] == BitAt(b, 5) && bits[6] == BitAt(b, 6) && bits[7] == BitAt(b, 7);
  }
}
