/** Bytes and the big-endian length prefix of the metadata exchange. */
module Bytes {

  type Byte = x: int | 0 <= x < 256

  const UINT32: int := 0x1_0000_0000

  /** binary.BigEndian.PutUint32 */
  function BE32(n: int): (b: seq<Byte>)
    requires 0 <= n < UINT32
    ensures |b| == 4
  {
    [n / 0x100_0000, n / 0x1_0000 % 0x100, n / 0x100 % 0x100, n % 0x100]
  }

  /** binary.BigEndian.Uint32 */
  function FromBE32(b: seq<Byte>): (n: int)
    requires |b| == 4
    ensures 0 <= n < UINT32
  {
    var b0: int, b1: int, b2: int, b3: int := b[0], b[1], b[2], b[3];
    ((b0 * 0x100 + b1) * 0x100 + b2) * 0x100 + b3
  }

  lemma DecodeOfEncode(n: int)
    requires 0 <= n < UINT32
    ensures FromBE32(BE32(n)) == n
  {
    assert n / 0x100 / 0x100 == n / 0x1_0000;
    assert n / 0x1_0000 / 0x100 == n / 0x100_0000;
  }

  lemma EncodeOfDecode(b: seq<Byte>)
    requires |b| == 4
    ensures BE32(FromBE32(b)) == b
  {
    var n := FromBE32(b);
    var b0: int, b1: int, b2: int, b3: int := b[0], b[1], b[2], b[3];
    assert n / 0x100 == (b0 * 0x100 + b1) * 0x100 + b2;
    assert n / 0x1_0000 == b0 * 0x100 + b1;
    assert n / 0x100_0000 == b0;
  }

  /** The most significant byte comes first. */
  lemma BigEndian(b0: Byte, b1: Byte, b2: Byte, b3: Byte)
    ensures FromBE32([b0, b1, b2, b3]) == 0x100_0000 * b0 + 0x1_0000 * b1 + 0x100 * b2 + b3
    ensures BE32(0x100_0000 * b0 + 0x1_0000 * b1 + 0x100 * b2 + b3) == [b0, b1, b2, b3]
  {
    EncodeOfDecode([b0, b1, b2, b3]);
  }
}
