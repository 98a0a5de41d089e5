/**
 Java's `int` on the wire: the four-byte, high-order-byte-first, two's
 complement encoding that `java.io.DataInput.readInt` reads and
 `java.io.DataOutput.writeInt` writes.
 */
module Int32Codec {

  /** One unsigned byte of a stream. */
  type Byte = b: int | 0 <= b < 0x100

  /** A Java `int`: every value lies in [-2^31, 2^31). */
  type Int32 = v: int | -0x8000_0000 <= v < 0x8000_0000

  const TWO_32: int := 0x1_0000_0000

  /** The unsigned value of four bytes, the first one most significant. */
  function Unsigned(bs: seq<Byte>): nat
    requires |bs| == 4
  {
    ((bs[0] as int * 0x100 + bs[1]) * 0x100 + bs[2]) * 0x100 + bs[3]
  }

  /** `readInt`: four bytes read as a two's-complement value. The result
      agrees with the unsigned reading modulo 2^32 and is negative exactly
      when the top bit of the first byte is set. */
  function DecodeInt32(bs: seq<Byte>): (v: Int32)
    requires |bs| == 4
    ensures (Unsigned(bs) - v) % TWO_32 == 0
    ensures v < 0 <==> bs[0] >= 0x80
  {
    var u := Unsigned(bs);
    if u < 0x8000_0000 then u else u - TWO_32
  }

  /** `writeInt`: the four bytes whose reading is `v`. */
  function EncodeInt32(v: Int32): (bs: seq<Byte>)
    ensures |bs| == 4
    ensures DecodeInt32(bs) == v
  {
    var u := if v < 0 then v + TWO_32 else v;
    var u1 := u / 0x100;
    var u2 := u1 / 0x100;
    var bs := [u2 / 0x100, u2 % 0x100, u1 % 0x100, u % 0x100];
    assert Unsigned(bs) == u by {
      assert u == u1 * 0x100 + u % 0x100;
      assert u1 == u2 * 0x100 + u1 % 0x100;
      assert u2 == (u2 / 0x100) * 0x100 + u2 % 0x100;
    }
    bs
  }

  /** Every four-byte group is the encoding of what it decodes to, so the
      encoding is a bijection between four-byte groups and Java ints. */
  lemma EncodeDecode(bs: seq<Byte>)
    requires |bs| == 4
    ensures EncodeInt32(DecodeInt32(bs)) == bs
  {
    var u := Unsigned(bs);
    var v := DecodeInt32(bs);
    assert (if v < 0 then v + TWO_32 else v) == u;
    var e := EncodeInt32(v);
    assert e[0] == bs[0];
    assert e[1] == bs[1];
    assert e[2] == bs[2];
    assert e[3] == bs[3];
  }
}
