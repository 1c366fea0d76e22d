/** The encoder pipeline: header copy, the frame packed field by field into
    the carrier bytes that follow it, and the rest of the image copied
    unchanged (encode.c:205-318, encode.c:348-383). */
module Encoder {
  import opened Results
  import opened LsbCodec
  import opened Frame
  import opened Capacity

  /** copy_bmp_header: the first 54 bytes of the source image. */
  function CopyBmpHeader(image: seq<byte>): (header: seq<byte>)
    requires |image| >= HeaderSize
    ensures |header| == HeaderSize
    ensures forall i :: 0 <= i < HeaderSize ==> header[i] == image[i]
  {
    image[..HeaderSize]
  }

  /** The loop shared by encode_magic_string, encode_secret_file_extn and
      encode_secret_file_data: each byte read from bs goes into the next eight
      carriers. */
  function EncodeBytesToLsb(bs: seq<byte>, carriers: seq<byte>): (r: seq<byte>)
    requires |carriers| >= 8 * |bs|
    ensures Carries(r, carriers, BytesBits(bs))
  {
    if |bs| == 0 then []
    else
      var head := EncodeByteToLsb(bs[0], carriers[..8]);
      var tail := EncodeBytesToLsb(bs[1..], carriers[8..]);
      assert Carries(head, carriers, ValueBits(bs[0], 8));
      CarriesConcat(head, tail, carriers, ValueBits(bs[0], 8), BytesBits(bs[1..]));
      head + tail
  }

  /** encode_magic_string: the magic characters in the first 8 * |Magic| carriers. */
  function EncodeMagicString(carriers: seq<byte>): (r: seq<byte>)
    requires |carriers| >= 8 * |Magic|
    ensures Carries(r, carriers, BytesBits(Magic))
  {
    EncodeBytesToLsb(Magic, carriers)
  }

  /** The packing both length fields share: the low 32 bits of a length in
      the next 32 carriers. */
  function EncodeLengthField(size: nat, carriers: seq<byte>): (r: seq<byte>)
    requires |carriers| >= 32
    ensures Carries(r, carriers, ValueBits(size, 32))
  {
    EncodeSizeToLsb(size, carriers[..32])
  }

  /** encode_secret_file_extn_size: the extension length in 32 carriers. */
  function EncodeSecretFileExtnSize(extnSize: nat, carriers: seq<byte>): (r: seq<byte>)
    requires |carriers| >= 32
    ensures Carries(r, carriers, ValueBits(extnSize, 32))
  {
    EncodeLengthField(extnSize, carriers)
  }

  /** encode_secret_file_size: the secret file's size in 32 carriers. */
  function EncodeSecretFileSize(fileSize: nat, carriers: seq<byte>): (r: seq<byte>)
    requires |carriers| >= 32
    ensures Carries(r, carriers, ValueBits(fileSize, 32))
  {
    EncodeLengthField(fileSize, carriers)
  }

  /** encode_secret_file_extn: the extension characters, eight carriers each. */
  function EncodeSecretFileExtn(extn: seq<byte>, carriers: seq<byte>): (r: seq<byte>)
    requires |carriers| >= 8 * |extn|
    ensures Carries(r, carriers, BytesBits(extn))
  {
    EncodeBytesToLsb(extn, carriers)
  }

  /** encode_secret_file_data: the file bytes, eight carriers each. */
  function EncodeSecretFileData(data: seq<byte>, carriers: seq<byte>): (r: seq<byte>)
    requires |carriers| >= 8 * |data|
    ensures Carries(r, carriers, BytesBits(data))
  {
    EncodeBytesToLsb(data, carriers)
  }

  /** The five encoding steps of do_encoding in their fixed order, each
      reading on where the previous one stopped: together they put the whole
      frame into the carriers. */
  function EmbedFrame(extn: seq<byte>, data: seq<byte>, carriers: seq<byte>): (r: seq<byte>)
    requires |carriers| >= FrameLength(|extn|, |data|)
    ensures Carries(r, carriers, FrameBits(extn, data))
  {
    var magic := EncodeMagicString(carriers);
    var c1 := carriers[|magic|..];
    var extnSize := EncodeSecretFileExtnSize(|extn|, c1);
    var c2 := carriers[|magic + extnSize|..];
    assert c2 == c1[|extnSize|..];
    var extnChars := EncodeSecretFileExtn(extn, c2);
    var c3 := carriers[|magic + extnSize + extnChars|..];
    assert c3 == c2[|extnChars|..];
    var fileSize := EncodeSecretFileSize(|data|, c3);
    var c4 := carriers[|magic + extnSize + extnChars + fileSize|..];
    assert c4 == c3[|fileSize|..];
    var fileData := EncodeSecretFileData(data, c4);
    CarriesConcat(magic, extnSize, carriers, BytesBits(Magic), ValueBits(|extn|, 32));
    CarriesConcat(magic + extnSize, extnChars, carriers,
      BytesBits(Magic) + ValueBits(|extn|, 32), BytesBits(extn));
    CarriesConcat(magic + extnSize + extnChars, fileSize, carriers,
      BytesBits(Magic) + ValueBits(|extn|, 32) + BytesBits(extn), ValueBits(|data|, 32));
    CarriesConcat(magic + extnSize + extnChars + fileSize, fileData, carriers,
      BytesBits(Magic) + ValueBits(|extn|, 32) + BytesBits(extn) + ValueBits(|data|, 32), BytesBits(data));
    magic + extnSize + extnChars + fileSize + fileData
  }

  /** out is src with the frame for extn and data embedded: same length, same
      header, the frame in the least significant bits of the carriers after
      the header, the upper bits of those carriers and every byte after the
      frame unchanged. */
  predicate EmbedsFrame(src: seq<byte>, out: seq<byte>, extn: seq<byte>, data: seq<byte>)
  {
    var end := HeaderSize + FrameLength(|extn|, |data|);
    && |out| == |src| && end <= |src|
    && out[..HeaderSize] == src[..HeaderSize]
    && Carries(out[HeaderSize..end], src[HeaderSize..], FrameBits(extn, data))
    && out[end..] == src[end..]
  }

  /** The source image is long enough to read every carrier the frame needs
      once the capacity check has accepted it. */
  predicate CarrierAvailable(image: seq<byte>, secretName: seq<byte>, secret: seq<byte>)
  {
    && |image| >= HeaderSize
    && |secret| < U32Limit
    && (SecretExtension(secretName).Some? ==>
          var extn := SecretExtension(secretName).value;
          GetImageSizeForBmp(image) > HeaderSize + FrameLength(|extn|, |secret|) ==>
            |image| >= HeaderSize + FrameLength(|extn|, |secret|))
  }

  /** do_encoding: the stego image, or why none was produced. The capacity
      check comes first, so a rejected request yields no bytes at all. */
  function DoEncoding(image: seq<byte>, secretName: seq<byte>, secret: seq<byte>): (r: Result<seq<byte>, EncodeError>)
    requires CarrierAvailable(image, secretName, secret)
    ensures SecretExtension(secretName).None? ==> r == Failure(UnsupportedExtension)
    ensures SecretExtension(secretName).Some? ==>
      var extn := SecretExtension(secretName).value;
      && (r.Success? <==> GetImageSizeForBmp(image) > HeaderSize + FrameLength(|extn|, |secret|))
      && (r.Failure? ==> r.error == CapacityExceeded)
      && (r.Success? ==> EmbedsFrame(image, r.value, extn, secret))
  {
    var plan :- CheckCapacity(image, secretName, secret);
    var header := CopyBmpHeader(image);
    var carriers := image[HeaderSize..];
    var frame := EmbedFrame(plan.extn, secret, carriers);
    // copy_remaining_img_data: every source byte after the frame, verbatim
    var rest := carriers[|frame|..];
    StegoLayout(image, header, frame, rest, plan.extn, secret);
    Success(header + frame + rest)
  }

  /** Header, embedded frame and remaining bytes, put back to back, embed
      the frame into the image. */
  lemma StegoLayout(image: seq<byte>, header: seq<byte>, frame: seq<byte>, rest: seq<byte>,
                    extn: seq<byte>, data: seq<byte>)
    requires |image| >= HeaderSize && header == image[..HeaderSize]
    requires Carries(frame, image[HeaderSize..], FrameBits(extn, data))
    requires rest == image[HeaderSize..][|frame|..]
    ensures EmbedsFrame(image, header + frame + rest, extn, data)
  {
    var out := header + frame + rest;
    var end := HeaderSize + |frame|;
    assert out[..HeaderSize] == header;
    assert out[HeaderSize..end] == frame;
    assert out[end..] == rest == image[end..];
  }

  /** Encoding changes no bit of the image except the least significant bits
      of the carriers the frame occupies. */
  lemma EncodingPreservesUpperBits(src: seq<byte>, out: seq<byte>, extn: seq<byte>, data: seq<byte>)
    requires EmbedsFrame(src, out, extn, data)
    ensures |out| == |src|
    ensures forall i :: 0 <= i < |src| ==> ClearLsb(out[i]) == ClearLsb(src[i])
    ensures forall i :: 0 <= i < |src| && (i < HeaderSize || i >= HeaderSize + FrameLength(|extn|, |data|)) ==>
      out[i] == src[i]
  {
    var end := HeaderSize + FrameLength(|extn|, |data|);
    forall i | 0 <= i < |src|
      ensures ClearLsb(out[i]) == ClearLsb(src[i])
      ensures i < HeaderSize || i >= end ==> out[i] == src[i]
    {
      if i < HeaderSize {
        assert out[..HeaderSize][i] == src[..HeaderSize][i];
      } else if i < end {
        assert out[HeaderSize..end][i - HeaderSize] == out[i];
        assert src[HeaderSize..][i - HeaderSize] == src[i];
      } else {
        assert out[end..][i - end] == src[end..][i - end];
      }
    }
  }

  /** The stego image carries the frame where the decoder looks for it. */
  lemma EmbeddedFrameIsHeld(src: seq<byte>, out: seq<byte>, extn: seq<byte>, data: seq<byte>)
    requires EmbedsFrame(src, out, extn, data)
    ensures HoldsFrame(out, extn, data)
  {
    var end := HeaderSize + FrameLength(|extn|, |data|);
    CarriesBitsAt(out, HeaderSize, out[HeaderSize..end], src[HeaderSize..], FrameBits(extn, data));
  }
}
