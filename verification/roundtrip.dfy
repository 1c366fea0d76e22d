/** Encoder and decoder together: what do_encoding writes, do_decoding reads
    back (encode.c:353-373 against decode.c:212-225). */
module RoundTrip {
  import opened Results
  import opened LsbCodec
  import opened Frame
  import opened Capacity
  import opened Encoder
  import opened Decoder

  /** A C string: no byte of it is NUL. */
  predicate NoNul(s: seq<byte>)
  {
    forall i :: 0 <= i < |s| ==> s[i] != 0
  }

  /** An image whose declared capacity and actual length both exceed what the
      frame needs is encoded, and decoding the stego image recovers the
      extension the encoder chose and the secret file byte for byte; the
      output is named base name plus extension. */
  lemma {:induction false} EncodeDecodeRoundTrip(image: seq<byte>, secretName: seq<byte>, extn: seq<byte>,
                              secret: seq<byte>, baseName: seq<byte>)
    requires SecretExtension(secretName) == Some(extn)
    requires NoNul(secretName) && |extn| <= MaxExtnSize
    requires |secret| < U32Limit
    requires |image| >= HeaderSize + FrameLength(|extn|, |secret|)
    requires GetImageSizeForBmp(image) > HeaderSize + FrameLength(|extn|, |secret|)
    ensures CarrierAvailable(image, secretName, secret)
    ensures DoEncoding(image, secretName, secret).Success?
    ensures DoDecoding(DoEncoding(image, secretName, secret).value, baseName)
      == Success(Recovered(extn, CString(baseName) + extn, secret))
  {
    EncodingAccepted(image, secretName, secret, extn);
    var stego := DoEncoding(image, secretName, secret).value;
    assert EmbedsFrame(image, stego, extn, secret);
    EmbeddedFrameIsHeld(image, stego, extn, secret);
    ExtensionHasNoNul(secretName);
    CStringOfNoNul(extn);
    DecodeComplete(stego, baseName, extn, secret);
  }

  /** The extension of a C string name is itself free of NUL. */
  lemma ExtensionHasNoNul(name: seq<byte>)
    requires NoNul(name) && SecretExtension(name).Some?
    ensures NoNul(SecretExtension(name).value)
  {
    var at := FindExtension(name).value.at;
    assert SecretExtension(name).value == name[at..];
  }

  /** A buffer without NUL is taken whole. */
  lemma CStringOfNoNul(s: seq<byte>)
    requires NoNul(s)
    ensures CString(s) == s
  {
  }

  /** "x.txt" as bytes, and the extension check_capacity picks from it. */
  const SampleName: seq<byte> := [120, 46, 116, 120, 116]
  const TxtExtension: seq<byte> := [46, 116, 120, 116]

  lemma SampleNameExtension(name: seq<byte>)
    requires name == SampleName
    ensures SecretExtension(name) == Some(TxtExtension)
  {
    assert name[0..4][0] != ExtensionPatterns[0][0];
    assert OccursAt(name, ExtensionPatterns[0], 1);
    assert SelectedBy(name, 0, 1);
    var m := FindExtension(name).value;
    ExtensionSelectionUnique(name, m.pattern, m.at, 0, 1);
  }

  /** "x.txt" is a C string. */
  lemma SampleNameNoNul(name: seq<byte>)
    requires name == SampleName
    ensures NoNul(name)
  {
    forall i | 0 <= i < |name|
      ensures name[i] != 0
    {
      assert name[i] in {120, 46, 116};
    }
  }

  /** A 4-byte "x.txt" in a 10 x 10 BMP (capacity 300, 198 bytes needed) is
      accepted and decodes back to ".txt" and the same four bytes. */
  lemma {:induction false} TenByTenAccepted(image: seq<byte>, name: seq<byte>, secret: seq<byte>, baseName: seq<byte>)
    requires name == SampleName
    requires |image| >= HeaderSize + FrameLength(4, 4)
    requires image[WidthOffset..WidthOffset + 4] == U32Le(10)
    requires image[HeightOffset..HeightOffset + 4] == U32Le(10)
    requires |secret| == 4
    ensures CarrierAvailable(image, name, secret)
    ensures DoEncoding(image, name, secret).Success?
    ensures DoDecoding(DoEncoding(image, name, secret).value, baseName)
      == Success(Recovered(TxtExtension, CString(baseName) + TxtExtension, secret))
  {
    TenByTenFits(image, name, secret);
    EncodeDecodeRoundTrip(image, name, TxtExtension, secret, baseName);
  }

  /** The 10 x 10 image of TenByTenAccepted has room for the 4-byte "x.txt". */
  lemma TenByTenFits(image: seq<byte>, name: seq<byte>, secret: seq<byte>)
    requires name == SampleName
    requires |image| >= HeaderSize + FrameLength(4, 4)
    requires image[WidthOffset..WidthOffset + 4] == U32Le(10)
    requires image[HeightOffset..HeightOffset + 4] == U32Le(10)
    requires |secret| == 4
    ensures SecretExtension(name) == Some(TxtExtension) && |TxtExtension| <= MaxExtnSize
    ensures NoNul(name)
    ensures |image| >= HeaderSize + FrameLength(|TxtExtension|, |secret|)
    ensures GetImageSizeForBmp(image) > HeaderSize + FrameLength(|TxtExtension|, |secret|)
  {
    SampleNameExtension(name);
    SampleNameNoNul(name);
    var need := HeaderSize + FrameLength(|TxtExtension|, |secret|);
    assert need == 198;
    assert GetImageSizeForBmp(image) == 300;
  }

  /** An image physically and nominally large enough for the frame is
      encoded. */
  lemma EncodingAccepted(image: seq<byte>, name: seq<byte>, secret: seq<byte>, extn: seq<byte>)
    requires SecretExtension(name) == Some(extn)
    requires |secret| < U32Limit
    requires |image| >= HeaderSize + FrameLength(|extn|, |secret|)
    requires GetImageSizeForBmp(image) > HeaderSize + FrameLength(|extn|, |secret|)
    ensures CarrierAvailable(image, name, secret)
    ensures DoEncoding(image, name, secret).Success?
  {
  }

  /** A 20-byte "x.txt" needs 272 carriers for the frame, under 300, but the
      54 header bytes the formula adds make 326: the request is refused. */
  lemma TenByTenRejected(image: seq<byte>, name: seq<byte>, secret: seq<byte>)
    requires name == SampleName
    requires |image| >= HeaderSize
    requires image[WidthOffset..WidthOffset + 4] == U32Le(10)
    requires image[HeightOffset..HeightOffset + 4] == U32Le(10)
    requires |secret| == 20
    ensures FrameLength(4, 20) < 300
    ensures CarrierAvailable(image, name, secret)
    ensures DoEncoding(image, name, secret) == Failure(CapacityExceeded)
  {
    SampleNameExtension(name);
  }
}
