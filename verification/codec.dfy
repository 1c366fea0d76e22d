/** The bit codec: a value packed into the least significant bits of a run of
    carrier bytes, least significant bit first, and read back out of them
    (encode.c:320-346, decode.c:66-90). */
module LsbCodec {

  /** An unsigned 8-bit value: a pixel byte of the carrier, or a payload byte. */
  type byte = b: int | 0 <= b < 256

  /** A single bit. */
  type bit = b: int | 0 <= b < 2

  /** An unsigned 32-bit value, the width of the frame's two length fields. */
  type u32 = v: int | 0 <= v < 0x1_0000_0000

  const U32Limit: nat := 0x1_0000_0000

  function Pow2(n: nat): (r: nat)
    ensures r >= 1
  {
    if n == 0 then 1 else 2 * Pow2(n - 1)
  }

  /** The two widths the codec uses: 8 bits and 32 bits. */
  lemma Pow2Widths()
    ensures Pow2(8) == 256
    ensures Pow2(32) == U32Limit
  {
    assert Pow2(4) == 16;
    assert Pow2(8) == 16 * Pow2(4);
    assert Pow2(12) == 16 * Pow2(8);
    assert Pow2(16) == 16 * Pow2(12);
    assert Pow2(20) == 16 * Pow2(16);
    assert Pow2(24) == 16 * Pow2(20);
    assert Pow2(28) == 16 * Pow2(24);
    assert Pow2(32) == 16 * Pow2(28);
  }

  /** Bit i of v counting from the least significant one: `(v >> i) & 1`. */
  function Bit(v: nat, i: nat): bit
  {
    if i == 0 then v % 2 else Bit(v / 2, i - 1)
  }

  /** The bit a carrier byte holds: `b & 1`. */
  function Lsb(b: byte): bit
  {
    b % 2
  }

  /** The seven upper bits of a carrier byte, in place: `b & ~1`. */
  function ClearLsb(b: byte): byte
  {
    b - b % 2
  }

  /** `(b & ~1) | x`: the carrier b made to hold the bit x. */
  function WithLsb(b: byte, x: bit): (r: byte)
    ensures Lsb(r) == x
    ensures ClearLsb(r) == ClearLsb(b)
  {
    ClearLsb(b) + x
  }

  /** Packs the low |carriers| bits of v into the carriers, bit i into carrier i,
      rewriting only least significant bits. */
  function SetLsbs(v: nat, carriers: seq<byte>): (r: seq<byte>)
    ensures |r| == |carriers|
    ensures forall i :: 0 <= i < |r| ==> Lsb(r[i]) == Bit(v, i)
    ensures forall i :: 0 <= i < |r| ==> ClearLsb(r[i]) == ClearLsb(carriers[i])
  {
    if |carriers| == 0 then []
    else [WithLsb(carriers[0], v % 2)] + SetLsbs(v / 2, carriers[1..])
  }

  /** Assembles the value whose bit i is the bit carrier i holds. */
  function GetLsbs(carriers: seq<byte>): (v: nat)
    ensures v < Pow2(|carriers|)
    ensures forall i :: 0 <= i < |carriers| ==> Bit(v, i) == Lsb(carriers[i])
  {
    if |carriers| == 0 then 0
    else Lsb(carriers[0]) + 2 * GetLsbs(carriers[1..])
  }

  /** Two values below 2^n that agree on their n low bits are equal. */
  lemma {:induction false} BitsDetermineValue(x: nat, y: nat, n: nat)
    requires x < Pow2(n) && y < Pow2(n)
    requires forall i :: 0 <= i < n ==> Bit(x, i) == Bit(y, i)
    ensures x == y
  {
    if n > 0 {
      assert Bit(x, 0) == Bit(y, 0);
      forall i | 0 <= i < n - 1
        ensures Bit(x / 2, i) == Bit(y / 2, i)
      {
        assert Bit(x, i + 1) == Bit(y, i + 1);
      }
      BitsDetermineValue(x / 2, y / 2, n - 1);
    }
  }

  /** Reading back what was packed yields the packed value, whatever the
      carriers held before. */
  lemma LsbRoundTrip(v: nat, carriers: seq<byte>)
    requires v < Pow2(|carriers|)
    ensures GetLsbs(SetLsbs(v, carriers)) == v
  {
    BitsDetermineValue(GetLsbs(SetLsbs(v, carriers)), v, |carriers|);
  }

  /** Packing the value the carriers already hold changes nothing. */
  lemma LsbReembed(carriers: seq<byte>)
    ensures SetLsbs(GetLsbs(carriers), carriers) == carriers
  {
    var r := SetLsbs(GetLsbs(carriers), carriers);
    forall i | 0 <= i < |carriers|
      ensures r[i] == carriers[i]
    {
      assert Lsb(r[i]) == Lsb(carriers[i]);
    }
  }

  /** encode_byte_to_lsb: the LSB of carrier i becomes bit i of data, for i in
      0..7, and the upper seven bits of every carrier are kept. */
  function EncodeByteToLsb(data: byte, buffer: seq<byte>): (r: seq<byte>)
    requires |buffer| == 8
    ensures |r| == 8
    ensures forall i :: 0 <= i < 8 ==> Lsb(r[i]) == Bit(data, i)
    ensures forall i :: 0 <= i < 8 ==> ClearLsb(r[i]) == ClearLsb(buffer[i])
  {
    SetLsbs(data, buffer)
  }

  /** encode_size_to_lsb: the LSB of carrier i becomes bit i of size, for i in
      0..31, and the upper seven bits of every carrier are kept. */
  function EncodeSizeToLsb(size: nat, buffer: seq<byte>): (r: seq<byte>)
    requires |buffer| == 32
    ensures |r| == 32
    ensures forall i :: 0 <= i < 32 ==> Lsb(r[i]) == Bit(size, i)
    ensures forall i :: 0 <= i < 32 ==> ClearLsb(r[i]) == ClearLsb(buffer[i])
  {
    SetLsbs(size, buffer)
  }

  /** decode_byte_from_lsb: bit i of the result is the LSB of buffer[i]. */
  function DecodeByteFromLsb(buffer: seq<byte>): (data: byte)
    requires |buffer| == 8
    ensures forall i :: 0 <= i < 8 ==> Bit(data, i) == Lsb(buffer[i])
  {
    Pow2Widths();
    GetLsbs(buffer)
  }

  /** decode_size_from_lsb: bit i of the unsigned 32-bit result is the LSB of
      buffer[i]. */
  function DecodeSizeFromLsb(buffer: seq<byte>): (size: u32)
    requires |buffer| == 32
    ensures forall i :: 0 <= i < 32 ==> Bit(size, i) == Lsb(buffer[i])
  {
    Pow2Widths();
    GetLsbs(buffer)
  }

  /** Decoding a byte inverts encoding it, for any prior carrier contents. */
  lemma ByteRoundTrip(data: byte, buffer: seq<byte>)
    requires |buffer| == 8
    ensures DecodeByteFromLsb(EncodeByteToLsb(data, buffer)) == data
  {
    Pow2Widths();
    LsbRoundTrip(data, buffer);
  }

  /** Decoding a 32-bit size inverts encoding it, for every u32 including 0
      and 0xFFFF_FFFF. */
  lemma SizeRoundTrip(size: u32, buffer: seq<byte>)
    requires |buffer| == 32
    ensures DecodeSizeFromLsb(EncodeSizeToLsb(size, buffer)) == size
  {
    Pow2Widths();
    LsbRoundTrip(size, buffer);
  }

  /** Re-encoding the byte a buffer carries leaves the buffer as it was. */
  lemma ByteReembed(buffer: seq<byte>)
    requires |buffer| == 8
    ensures EncodeByteToLsb(DecodeByteFromLsb(buffer), buffer) == buffer
  {
    LsbReembed(buffer);
  }
}
