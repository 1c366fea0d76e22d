/** The decoder pipeline: skip the header, check the magic, read both
    lengths, the extension and the file bytes, in the encoder's order
    (decode.c:55-228). Reads advance a position through the stego image as
    the source's FILE position does. */
module Decoder {
  import opened Results
  import opened LsbCodec
  import opened Frame

  datatype DecodeError =
    | Truncated       // the image ends before the field being read
    | NotEncoded      // the magic does not match
    | MalformedFrame  // the extension length does not fit the extension buffer

  /** What decoding recovers: the extension, the output file's name and its
      contents. */
  datatype Recovered = Recovered(extn: seq<byte>, fileName: seq<byte>, data: seq<byte>)

  /** A read of n bytes at pos: the block, or Truncated if the image ends first. */
  function ReadBlock(image: seq<byte>, pos: nat, n: nat): (r: Result<seq<byte>, DecodeError>)
    ensures r.Success? <==> pos + n <= |image|
    ensures r.Success? ==> r.value == image[pos..pos + n]
  {
    if pos + n <= |image| then Success(image[pos..pos + n]) else Failure(Truncated)
  }

  /** The bytes held by a buffer of 8n carriers, one per eight. */
  function DecodeBytesFromLsb(buffer: seq<byte>, n: nat): (r: seq<byte>)
    requires |buffer| == 8 * n
    ensures |r| == n
    ensures BytesBits(r) == LsbStream(buffer)
  {
    if n == 0 then []
    else
      var b := DecodeByteFromLsb(buffer[..8]);
      var rest := DecodeBytesFromLsb(buffer[8..], n - 1);
      assert ValueBits(b, 8) == LsbStream(buffer[..8]);
      LsbStreamConcat(buffer[..8], buffer[8..]);
      assert buffer == buffer[..8] + buffer[8..];
      assert ([b] + rest)[1..] == rest;
      [b] + rest
  }

  /** decode_magic_string: the first 8 * |Magic| carriers must hold the magic;
      on success the read position moves past them. */
  function DecodeMagicString(image: seq<byte>, pos: nat): (r: Result<nat, DecodeError>)
    ensures pos + 8 * |Magic| > |image| ==> r == Failure(Truncated)
    ensures pos + 8 * |Magic| <= |image| ==>
      && (r.Success? <==> BitsAt(image, pos, BytesBits(Magic)))
      && (r.Failure? ==> r.error == NotEncoded)
    ensures r.Success? ==> r.value == pos + 8 * |Magic|
  {
    var buffer :- ReadBlock(image, pos, 8 * |Magic|);
    var magic := DecodeBytesFromLsb(buffer, |Magic|);
    BytesBitsInjective(magic, Magic);
    BitsAtStream(image, pos, BytesBits(Magic));
    if magic != Magic then Failure(NotEncoded) else Success(pos + 8 * |Magic|)
  }

  /** The read both length fields share: 32 carriers give an unsigned 32-bit
      value. */
  function DecodeLengthField(image: seq<byte>, pos: nat): (r: Result<(u32, nat), DecodeError>)
    ensures r.Success? <==> pos + 32 <= |image|
    ensures r.Success? ==> r.value.1 == pos + 32 && BitsAt(image, pos, ValueBits(r.value.0, 32))
    ensures r.Success? ==> r.value.0 == DecodeSizeFromLsb(image[pos..pos + 32])
  {
    var buffer :- ReadBlock(image, pos, 32);
    var size := DecodeSizeFromLsb(buffer);
    assert ValueBits(size, 32) == LsbStream(buffer);
    BitsAtStream(image, pos, ValueBits(size, 32));
    Success((size, pos + 32))
  }

  /** decode_secret_file_extn_size: the extension length, as unsigned 32 bits. */
  function DecodeSecretFileExtnSize(image: seq<byte>, pos: nat): (r: Result<(u32, nat), DecodeError>)
    ensures r.Success? <==> pos + 32 <= |image|
    ensures r.Success? ==> r.value.1 == pos + 32 && BitsAt(image, pos, ValueBits(r.value.0, 32))
    ensures r.Success? ==> r.value.0 == DecodeSizeFromLsb(image[pos..pos + 32])
  {
    DecodeLengthField(image, pos)
  }

  /** decode_secret_file_size: the file size, as one unsigned 32-bit value. */
  function DecodeSecretFileSize(image: seq<byte>, pos: nat): (r: Result<(u32, nat), DecodeError>)
    ensures r.Success? <==> pos + 32 <= |image|
    ensures r.Success? ==> r.value.1 == pos + 32 && BitsAt(image, pos, ValueBits(r.value.0, 32))
  {
    DecodeLengthField(image, pos)
  }

  /** decode_secret_file_extn: exactly extnSize characters, refused as a
      malformed frame when they would not fit the ten-byte buffer. */
  function DecodeSecretFileExtn(image: seq<byte>, pos: nat, extnSize: u32): (r: Result<(seq<byte>, nat), DecodeError>)
    ensures extnSize > MaxExtnSize ==> r == Failure(MalformedFrame)
    ensures extnSize <= MaxExtnSize ==>
      && (r.Success? <==> pos + 8 * extnSize <= |image|)
      && (r.Failure? ==> r.error == Truncated)
    ensures r.Success? ==>
      && |r.value.0| == extnSize
      && r.value.1 == pos + 8 * extnSize
      && BitsAt(image, pos, BytesBits(r.value.0))
  {
    if extnSize > MaxExtnSize then Failure(MalformedFrame)
    else
      var buffer :- ReadBlock(image, pos, 8 * extnSize);
      var extn := DecodeBytesFromLsb(buffer, extnSize);
      BitsAtStream(image, pos, BytesBits(extn));
      Success((extn, pos + 8 * extnSize))
  }

  /** decode_secret_file_data: exactly fileSize bytes, each from eight
      consecutive carriers. */
  function DecodeSecretFileData(image: seq<byte>, pos: nat, fileSize: u32): (r: Result<(seq<byte>, nat), DecodeError>)
    ensures r.Success? <==> pos + 8 * fileSize <= |image|
    ensures r.Success? ==>
      && |r.value.0| == fileSize
      && r.value.1 == pos + 8 * fileSize
      && BitsAt(image, pos, BytesBits(r.value.0))
  {
    var buffer :- ReadBlock(image, pos, 8 * fileSize);
    var data := DecodeBytesFromLsb(buffer, fileSize);
    BitsAtStream(image, pos, BytesBits(data));
    Success((data, pos + 8 * fileSize))
  }

  /** What strcpy and strcat take of a buffer: the bytes before the first NUL. */
  function CString(s: seq<byte>): (r: seq<byte>)
    ensures |r| <= |s| && r == s[..|r|]
    ensures forall i :: 0 <= i < |r| ==> r[i] != 0
    ensures |r| < |s| ==> s[|r|] == 0
  {
    if |s| == 0 || s[0] == 0 then [] else [s[0]] + CString(s[1..])
  }

  /** do_decoding: the header is skipped without being read, then the fields
      are read in frame order; the run stops at the first failing field and
      then produces nothing. */
  function DoDecoding(image: seq<byte>, baseName: seq<byte>): (r: Result<Recovered, DecodeError>)
    ensures |image| < HeaderSize + 8 * |Magic| ==> r == Failure(Truncated)
    ensures r == Failure(NotEncoded) <==>
      |image| >= HeaderSize + 8 * |Magic| && !BitsAt(image, HeaderSize, BytesBits(Magic))
    ensures r == Failure(MalformedFrame) <==>
      && |image| >= HeaderSize + 8 * |Magic| + 32
      && BitsAt(image, HeaderSize, BytesBits(Magic))
      && DecodeSizeFromLsb(image[HeaderSize + 8 * |Magic|..HeaderSize + 8 * |Magic| + 32]) > MaxExtnSize
    ensures r.Success? ==>
      && |r.value.extn| <= MaxExtnSize
      && r.value.fileName == CString(baseName) + CString(r.value.extn)
  {
    // skip_bmp_header: reading starts right after the 54-byte header
    var pos0 := HeaderSize;
    var pos1 :- DecodeMagicString(image, pos0);
    var extnSizeField :- DecodeSecretFileExtnSize(image, pos1);
    var (extnSize, pos2) := extnSizeField;
    var extnField :- DecodeSecretFileExtn(image, pos2, extnSize);
    var (extn, pos3) := extnField;
    var fileSizeField :- DecodeSecretFileSize(image, pos3);
    var (fileSize, pos4) := fileSizeField;
    var dataField :- DecodeSecretFileData(image, pos4, fileSize);
    Success(Recovered(extn, CString(baseName) + CString(extn), dataField.0))
  }

  /** Whatever decoding recovers is what the image's carriers hold as a frame. */
  lemma DecodeSound(image: seq<byte>, baseName: seq<byte>)
    requires DoDecoding(image, baseName).Success?
    ensures var rec := DoDecoding(image, baseName).value;
      HoldsFrame(image, rec.extn, rec.data) && |rec.data| < U32Limit
  {
    var rec := DoDecoding(image, baseName).value;
    assert DecodeMagicString(image, HeaderSize) == Success(ExtnSizeAt());
    var sizeField := DecodeSecretFileExtnSize(image, ExtnSizeAt());
    assert sizeField.Success?;
    var extnField := DecodeSecretFileExtn(image, ExtnAt(), sizeField.value.0);
    assert extnField.Success?;
    var extn := extnField.value.0;
    var fileSizeField := DecodeSecretFileSize(image, FileSizeAt(|extn|));
    assert fileSizeField.Success?;
    var dataField := DecodeSecretFileData(image, DataAt(|extn|), fileSizeField.value.0);
    assert dataField.Success?;
    assert rec.extn == extn && rec.data == dataField.value.0;
    FrameFromFields(image, extn, rec.data);
  }

  /** Carriers holding a 32-bit value give that value back. */
  lemma LengthFieldReads(image: seq<byte>, pos: nat, v: u32)
    requires BitsAt(image, pos, ValueBits(v, 32))
    ensures DecodeLengthField(image, pos) == Success((v, pos + 32))
  {
    var v' := DecodeLengthField(image, pos).value.0;
    BitsAtUnique(image, pos, ValueBits(v', 32), ValueBits(v, 32));
    Pow2Widths();
    ValueBitsInjective(v', v, 32);
  }

  /** Carriers holding a short enough extension give it back. */
  lemma {:induction false} ExtnFieldReads(image: seq<byte>, pos: nat, extn: seq<byte>)
    requires |extn| <= MaxExtnSize
    requires BitsAt(image, pos, BytesBits(extn))
    ensures DecodeSecretFileExtn(image, pos, |extn|) == Success((extn, pos + 8 * |extn|))
  {
    var buffer := image[pos..pos + 8 * |extn|];
    BitsAtStream(image, pos, BytesBits(extn));
    var extn' := DecodeBytesFromLsb(buffer, |extn|);
    BytesBitsInjective(extn', extn);
    assert ReadBlock(image, pos, 8 * |extn|) == Success(buffer);
    assert DecodeSecretFileExtn(image, pos, |extn|) == Success((extn', pos + 8 * |extn|));
  }

  /** Carriers holding file bytes give them back. */
  lemma {:induction false} DataFieldReads(image: seq<byte>, pos: nat, data: seq<byte>)
    requires |data| < U32Limit
    requires BitsAt(image, pos, BytesBits(data))
    ensures DecodeSecretFileData(image, pos, |data|) == Success((data, pos + 8 * |data|))
  {
    var buffer := image[pos..pos + 8 * |data|];
    BitsAtStream(image, pos, BytesBits(data));
    var data' := DecodeBytesFromLsb(buffer, |data|);
    BytesBitsInjective(data', data);
    assert ReadBlock(image, pos, 8 * |data|) == Success(buffer);
    assert DecodeSecretFileData(image, pos, |data|) == Success((data', pos + 8 * |data|));
  }

  /** Carriers holding the magic let decoding go on past it. */
  lemma MagicFieldReads(image: seq<byte>)
    requires BitsAt(image, HeaderSize, BytesBits(Magic))
    ensures DecodeMagicString(image, HeaderSize) == Success(ExtnSizeAt())
  {
  }

  /** do_decoding's result once every field read has succeeded. */
  lemma {:induction false} DoDecodingOfFields(image: seq<byte>, baseName: seq<byte>, extn: seq<byte>, data: seq<byte>)
    requires |extn| < U32Limit && |data| < U32Limit
    requires DecodeMagicString(image, HeaderSize) == Success(ExtnSizeAt())
    requires DecodeSecretFileExtnSize(image, ExtnSizeAt()) == Success((|extn|, ExtnAt()))
    requires DecodeSecretFileExtn(image, ExtnAt(), |extn|) == Success((extn, FileSizeAt(|extn|)))
    requires DecodeSecretFileSize(image, FileSizeAt(|extn|)) == Success((|data|, DataAt(|extn|)))
    requires DecodeSecretFileData(image, DataAt(|extn|), |data|) == Success((data, DataAt(|extn|) + 8 * |data|))
    ensures DoDecoding(image, baseName) == Success(Recovered(extn, CString(baseName) + CString(extn), data))
  {
  }

  /** An image whose carriers hold a frame with a short enough extension
      decodes to exactly that extension and those bytes. */
  lemma {:induction false} DecodeComplete(image: seq<byte>, baseName: seq<byte>, extn: seq<byte>, data: seq<byte>)
    requires HoldsFrame(image, extn, data)
    requires |extn| <= MaxExtnSize && |data| < U32Limit
    ensures DoDecoding(image, baseName) == Success(Recovered(extn, CString(baseName) + CString(extn), data))
  {
    FieldsFromFrame(image, extn, data);
    MagicFieldReads(image);
    LengthFieldReads(image, ExtnSizeAt(), |extn|);
    ExtnFieldReads(image, ExtnAt(), extn);
    LengthFieldReads(image, FileSizeAt(|extn|), |data|);
    DataFieldReads(image, DataAt(|extn|), data);
    DoDecodingOfFields(image, baseName, extn, data);
  }

  /** Reads past the header see the same bytes in both images. */
  lemma ReadsAgreePastHeader(a: seq<byte>, b: seq<byte>, pos: nat, n: nat)
    requires |a| == |b|
    requires forall i :: HeaderSize <= i < |a| ==> a[i] == b[i]
    requires pos >= HeaderSize
    ensures ReadBlock(a, pos, n) == ReadBlock(b, pos, n)
  {
    if pos + n <= |a| {
      assert a[pos..pos + n] == b[pos..pos + n];
    }
  }

  /** Decoding never looks at the header: images that differ only there
      decode alike. */
  lemma HeaderNotInterpreted(a: seq<byte>, b: seq<byte>, baseName: seq<byte>)
    requires |a| == |b|
    requires forall i :: HeaderSize <= i < |a| ==> a[i] == b[i]
    ensures DoDecoding(a, baseName) == DoDecoding(b, baseName)
  {
    ReadsAgreePastHeader(a, b, HeaderSize, 8 * |Magic|);
    assert DecodeMagicString(a, HeaderSize) == DecodeMagicString(b, HeaderSize);
    if DecodeMagicString(a, HeaderSize).Success? {
      var pos1 := DecodeMagicString(a, HeaderSize).value;
      ReadsAgreePastHeader(a, b, pos1, 32);
      assert DecodeSecretFileExtnSize(a, pos1) == DecodeSecretFileExtnSize(b, pos1);
      if DecodeSecretFileExtnSize(a, pos1).Success? {
        var (extnSize, pos2) := DecodeSecretFileExtnSize(a, pos1).value;
        ReadsAgreePastHeader(a, b, pos2, 8 * extnSize);
        assert DecodeSecretFileExtn(a, pos2, extnSize) == DecodeSecretFileExtn(b, pos2, extnSize);
        if DecodeSecretFileExtn(a, pos2, extnSize).Success? {
          var (extn, pos3) := DecodeSecretFileExtn(a, pos2, extnSize).value;
          ReadsAgreePastHeader(a, b, pos3, 32);
          assert DecodeSecretFileSize(a, pos3) == DecodeSecretFileSize(b, pos3);
          if DecodeSecretFileSize(a, pos3).Success? {
            var (fileSize, pos4) := DecodeSecretFileSize(a, pos3).value;
            ReadsAgreePastHeader(a, b, pos4, 8 * fileSize);
            assert DecodeSecretFileData(a, pos4, fileSize) == DecodeSecretFileData(b, pos4, fileSize);
          }
        }
      }
    }
  }
}
