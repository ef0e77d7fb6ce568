/** Bytes and the little-endian reads a `DataView` performs with `littleEndian = true`. */
module Bytes {

  type byte = b: int | 0 <= b < 256

  /** `view.getUint16(p, true)` */
  function U16LE(buf: seq<byte>, p: nat): (v: nat)
    requires p + 2 <= |buf|
    ensures v < 0x1_0000
  {
    buf[p] as int + 0x100 * buf[p + 1] as int
  }

  /** `view.getUint32(p, true)` */
  function U32LE(buf: seq<byte>, p: nat): (v: nat)
    requires p + 4 <= |buf|
    ensures v < 0x1_0000_0000
  {
    U16LE(buf, p) + 0x1_0000 * U16LE(buf, p + 2)
  }

  /** Base-256 digits are unique: a low byte and a high part are determined by
      the number they make. */
  lemma {:induction false} Base256Unique(lo1: byte, hi1: int, lo2: byte, hi2: int)
    requires lo1 + 0x100 * hi1 == lo2 + 0x100 * hi2
    ensures lo1 == lo2 && hi1 == hi2
  {
  }

  /** A 32-bit little-endian read determines its four bytes: it equals the
      value written by bytes `c0 c1 c2 c3` (lowest first) exactly when those are the bytes read. */
  lemma {:induction false} U32LEBytes(buf: seq<byte>, p: nat, c0: byte, c1: byte, c2: byte, c3: byte)
    requires p + 4 <= |buf|
    ensures U32LE(buf, p) == c0 + 0x100 * c1 + 0x1_0000 * c2 + 0x100_0000 * c3
            <==> buf[p..p + 4] == [c0, c1, c2, c3]
  {
    var b0: int, b1: int, b2: int, b3: int := buf[p], buf[p + 1], buf[p + 2], buf[p + 3];
    assert buf[p..p + 4] == [b0, b1, b2, b3];
    assert U32LE(buf, p) == b0 + 0x100 * (b1 + 0x100 * (b2 + 0x100 * b3));
    if U32LE(buf, p) == c0 + 0x100 * c1 + 0x1_0000 * c2 + 0x100_0000 * c3 {
      Base256Unique(buf[p], b1 + 0x100 * (b2 + 0x100 * b3), c0, c1 + 0x100 * (c2 + 0x100 * c3));
      Base256Unique(buf[p + 1], b2 + 0x100 * b3, c1, c2 + 0x100 * c3);
      Base256Unique(buf[p + 2], b3, c2, c3);
    }
  }
}
