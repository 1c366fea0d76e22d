/** The frame: the fixed layout the encoder embeds after the 54-byte BMP
    header and the decoder reads back (encode.c:353-373, decode.c:212-225).
    FrameBits is the reference definition both pipelines are proved against. */
module Frame {
  import opened LsbCodec

  /** Bytes of the BMP header, copied verbatim and never used as carriers. */
  const HeaderSize: nat := 54

  /** MAGIC_STRING: the two characters "##" (35 is '#'). */
  const Magic: seq<byte> := [35, 35]

  /** The decoder keeps the extension in a 10-byte buffer ending in NUL
      (decode.h:13), so at most nine characters fit. */
  const MaxExtnSize: nat := 9

  /** The low `width` bits of v, least significant first. */
  function ValueBits(v: nat, width: nat): seq<bit>
  {
    seq(width, i requires 0 <= i < width => Bit(v, i))
  }

  /** Eight bits per byte, each byte least significant bit first. */
  function BytesBits(bs: seq<byte>): (r: seq<bit>)
    ensures |r| == 8 * |bs|
  {
    if |bs| == 0 then [] else ValueBits(bs[0], 8) + BytesBits(bs[1..])
  }

  /** Carrier bytes the frame occupies for an extension of extnSize
      characters and a file of fileSize bytes. */
  function FrameLength(extnSize: nat, fileSize: nat): nat
  {
    8 * |Magic| + 32 + 8 * extnSize + 32 + 8 * fileSize
  }

  /** The frame as a bit stream: magic, 32-bit extension length, extension
      characters, 32-bit file size, file bytes. */
  function FrameBits(extn: seq<byte>, data: seq<byte>): (r: seq<bit>)
    ensures |r| == FrameLength(|extn|, |data|)
  {
    BytesBits(Magic) + ValueBits(|extn|, 32) + BytesBits(extn) + ValueBits(|data|, 32) + BytesBits(data)
  }

  /** The bits a run of carrier bytes holds. */
  function LsbStream(s: seq<byte>): seq<bit>
  {
    seq(|s|, i requires 0 <= i < |s| => Lsb(s[i]))
  }

  /** out is a prefix of src with its least significant bits replaced by bits. */
  predicate Carries(out: seq<byte>, src: seq<byte>, bits: seq<bit>)
  {
    && |out| == |bits| <= |src|
    && (forall i :: 0 <= i < |out| ==> Lsb(out[i]) == bits[i])
    && (forall i :: 0 <= i < |out| ==> ClearLsb(out[i]) == ClearLsb(src[i]))
  }

  /** The carriers of s starting at offset `at` hold bits. */
  predicate BitsAt(s: seq<byte>, at: nat, bits: seq<bit>)
  {
    at + |bits| <= |s| && forall i :: 0 <= i < |bits| ==> Lsb(s[at + i]) == bits[i]
  }

  /** The pixel bytes of image, from offset 54 on, hold the frame for an
      extension extn and a file data. */
  predicate HoldsFrame(image: seq<byte>, extn: seq<byte>, data: seq<byte>)
  {
    BitsAt(image, HeaderSize, FrameBits(extn, data))
  }

  lemma CarriesConcat(o1: seq<byte>, o2: seq<byte>, src: seq<byte>, b1: seq<bit>, b2: seq<bit>)
    requires Carries(o1, src, b1)
    requires Carries(o2, src[|o1|..], b2)
    ensures Carries(o1 + o2, src, b1 + b2)
  {
    forall i | |o1| <= i < |o1| + |o2|
      ensures Lsb((o1 + o2)[i]) == (b1 + b2)[i]
      ensures ClearLsb((o1 + o2)[i]) == ClearLsb(src[i])
    {
      assert (o1 + o2)[i] == o2[i - |o1|];
      assert src[|o1|..][i - |o1|] == src[i];
    }
  }

  /** Carrying bits over a prefix of src leaves them at that place. */
  lemma CarriesBitsAt(s: seq<byte>, at: nat, out: seq<byte>, src: seq<byte>, bits: seq<bit>)
    requires Carries(out, src, bits)
    requires at + |out| <= |s| && s[at..at + |out|] == out
    ensures BitsAt(s, at, bits)
  {
    forall i | 0 <= i < |bits|
      ensures Lsb(s[at + i]) == bits[i]
    {
      assert s[at + i] == out[i];
    }
  }

  /** The carriers at offset `at` hold bits exactly when bits is the stream of
      the block of that length there. */
  lemma BitsAtStream(s: seq<byte>, at: nat, bits: seq<bit>)
    requires at + |bits| <= |s|
    ensures BitsAt(s, at, bits) <==> bits == LsbStream(s[at..at + |bits|])
  {
    var block := s[at..at + |bits|];
    if BitsAt(s, at, bits) {
      forall i | 0 <= i < |bits|
        ensures bits[i] == LsbStream(block)[i]
      {
        assert block[i] == s[at + i];
      }
    }
    if bits == LsbStream(block) {
      forall i | 0 <= i < |bits|
        ensures Lsb(s[at + i]) == bits[i]
      {
        assert block[i] == s[at + i];
      }
    }
  }

  /** The same carriers cannot hold two different bit strings of one length. */
  lemma BitsAtUnique(s: seq<byte>, at: nat, x: seq<bit>, y: seq<bit>)
    requires |x| == |y|
    requires BitsAt(s, at, x) && BitsAt(s, at, y)
    ensures x == y
  {
    BitsAtStream(s, at, x);
    BitsAtStream(s, at, y);
  }

  /** Bits stored back to back join into their concatenation. */
  lemma BitsAtJoin(s: seq<byte>, at: nat, x: seq<bit>, y: seq<bit>)
    requires BitsAt(s, at, x) && BitsAt(s, at + |x|, y)
    ensures BitsAt(s, at, x + y)
  {
    forall i | 0 <= i < |x + y|
      ensures Lsb(s[at + i]) == (x + y)[i]
    {
      if i >= |x| {
        assert Lsb(s[(at + |x|) + (i - |x|)]) == y[i - |x|];
      }
    }
  }

  /** A concatenation of bits splits at the seam. */
  lemma BitsAtSplit(s: seq<byte>, at: nat, x: seq<bit>, y: seq<bit>)
    requires BitsAt(s, at, x + y)
    ensures BitsAt(s, at, x) && BitsAt(s, at + |x|, y)
  {
    forall i | 0 <= i < |x|
      ensures Lsb(s[at + i]) == x[i]
    {
      assert (x + y)[i] == x[i];
    }
    forall i | 0 <= i < |y|
      ensures Lsb(s[at + |x| + i]) == y[i]
    {
      assert (x + y)[|x| + i] == y[i];
    }
  }

  lemma LsbStreamConcat(a: seq<byte>, b: seq<byte>)
    ensures LsbStream(a + b) == LsbStream(a) + LsbStream(b)
  {
  }

  /** Different values below 2^width have different bit patterns. */
  lemma ValueBitsInjective(x: nat, y: nat, width: nat)
    requires x < Pow2(width) && y < Pow2(width)
    ensures ValueBits(x, width) == ValueBits(y, width) <==> x == y
  {
    if ValueBits(x, width) == ValueBits(y, width) {
      forall i | 0 <= i < width
        ensures Bit(x, i) == Bit(y, i)
      {
        assert ValueBits(x, width)[i] == Bit(x, i);
      }
      BitsDetermineValue(x, y, width);
    }
  }

  /** Different byte strings have different bit streams. */
  lemma {:induction false} BytesBitsInjective(a: seq<byte>, b: seq<byte>)
    ensures BytesBits(a) == BytesBits(b) <==> a == b
  {
    if BytesBits(a) == BytesBits(b) && |a| > 0 {
      var x, y := BytesBits(a), BytesBits(b);
      assert x[..8] == ValueBits(a[0], 8);
      assert y[..8] == ValueBits(b[0], 8);
      Pow2Widths();
      ValueBitsInjective(a[0], b[0], 8);
      assert x[8..] == BytesBits(a[1..]);
      assert y[8..] == BytesBits(b[1..]);
      BytesBitsInjective(a[1..], b[1..]);
      assert a == [a[0]] + a[1..];
      assert b == [b[0]] + b[1..];
    }
  }

  /** Where each field of the frame starts, as an offset into the image. */
  function ExtnSizeAt(): nat { HeaderSize + 8 * |Magic| }
  function ExtnAt(): nat { ExtnSizeAt() + 32 }
  function FileSizeAt(extnSize: nat): nat { ExtnAt() + 8 * extnSize }
  function DataAt(extnSize: nat): nat { FileSizeAt(extnSize) + 32 }

  /** Each field at its offset makes up the whole frame. */
  lemma {:induction false} FrameFromFields(image: seq<byte>, extn: seq<byte>, data: seq<byte>)
    requires BitsAt(image, HeaderSize, BytesBits(Magic))
    requires BitsAt(image, ExtnSizeAt(), ValueBits(|extn|, 32))
    requires BitsAt(image, ExtnAt(), BytesBits(extn))
    requires BitsAt(image, FileSizeAt(|extn|), ValueBits(|data|, 32))
    requires BitsAt(image, DataAt(|extn|), BytesBits(data))
    ensures HoldsFrame(image, extn, data)
  {
    var m, es, e, fs := BytesBits(Magic), ValueBits(|extn|, 32), BytesBits(extn), ValueBits(|data|, 32);
    BitsAtJoin(image, HeaderSize, m, es);
    BitsAtJoin(image, HeaderSize, m + es, e);
    BitsAtJoin(image, HeaderSize, m + es + e, fs);
    BitsAtJoin(image, HeaderSize, m + es + e + fs, BytesBits(data));
  }

  /** The whole frame puts each field at its offset. */
  lemma {:induction false} FieldsFromFrame(image: seq<byte>, extn: seq<byte>, data: seq<byte>)
    requires HoldsFrame(image, extn, data)
    ensures BitsAt(image, HeaderSize, BytesBits(Magic))
    ensures BitsAt(image, ExtnSizeAt(), ValueBits(|extn|, 32))
    ensures BitsAt(image, ExtnAt(), BytesBits(extn))
    ensures BitsAt(image, FileSizeAt(|extn|), ValueBits(|data|, 32))
    ensures BitsAt(image, DataAt(|extn|), BytesBits(data))
  {
    var m, es, e, fs, d := BytesBits(Magic), ValueBits(|extn|, 32), BytesBits(extn), ValueBits(|data|, 32), BytesBits(data);
    var upToExtn := m + es;
    var upToFileSize := upToExtn + e;
    var upToData := upToFileSize + fs;
    assert FrameBits(extn, data) == upToData + d;
    assert |upToExtn| == ExtnAt() - HeaderSize;
    assert |upToFileSize| == FileSizeAt(|extn|) - HeaderSize;
    assert |upToData| == DataAt(|extn|) - HeaderSize;
    BitsAtSplit(image, HeaderSize, upToData, d);
    BitsAtSplit(image, HeaderSize, upToFileSize, fs);
    BitsAtSplit(image, HeaderSize, upToExtn, e);
    BitsAtSplit(image, HeaderSize, m, es);
  }
}
