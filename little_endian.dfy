/** Fixed-width integers of the wire format and the little-endian packing of the
    32-bit frame size, as Go's encoding/binary.LittleEndian does it. */
module LittleEndian {

  /** One octet of the stream. */
  newtype byte = x: int | 0 <= x < 0x100

  /** Go's uint32: every arithmetic result is taken modulo 2^32 (see Wrap). */
  newtype uint32 = x: int | 0 <= x < 0x1_0000_0000

  const Modulus: int := 0x1_0000_0000

  /** Go's conversion uint32(x) of an integer, and the result of uint32 `+`/`-`:
      the value modulo 2^32. */
  function Wrap(x: int): (r: uint32)
    ensures (r as int - x) % Modulus == 0
    ensures 0 <= x < Modulus ==> r as int == x
  {
    (x % Modulus) as uint32
  }

  /** binary.LittleEndian.Uint32: byte 0 is the least significant. */
  function Uint32(b: seq<byte>): uint32
    requires |b| == 4
  {
    (b[0] as int + 0x100 * b[1] as int + 0x1_0000 * b[2] as int + 0x100_0000 * b[3] as int) as uint32
  }

  /** binary.LittleEndian.PutUint32: the four bytes whose little-endian value is v. */
  function PutUint32(v: uint32): (b: seq<byte>)
    ensures |b| == 4 && Uint32(b) == v
  {
    var x := v as int;
    var q1 := x / 0x100;
    var q2 := q1 / 0x100;
    var q3 := q2 / 0x100;
    assert x == x % 0x100 + 0x100 * (q1 % 0x100 + 0x100 * (q2 % 0x100 + 0x100 * q3));
    [(x % 0x100) as byte, (q1 % 0x100) as byte, (q2 % 0x100) as byte, q3 as byte]
  }

  /** Unpacking followed by packing gives back the same four bytes, so the two
      functions are inverse bijections between 4-byte sequences and uint32. */
  lemma UnpackPack(b: seq<byte>)
    requires |b| == 4
    ensures PutUint32(Uint32(b)) == b
  {
    var x := Uint32(b) as int;
    var b0, b1, b2, b3 := b[0] as int, b[1] as int, b[2] as int, b[3] as int;
    assert x == b0 + 0x100 * (b1 + 0x100 * (b2 + 0x100 * b3));
    assert x % 0x100 == b0 && x / 0x100 == b1 + 0x100 * (b2 + 0x100 * b3);
    var y := x / 0x100;
    assert y % 0x100 == b1 && y / 0x100 == b2 + 0x100 * b3;
    var z := y / 0x100;
    assert z % 0x100 == b2 && z / 0x100 == b3;
  }

}
