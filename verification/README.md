# LSB steganography codec, modelled in Dafny

A model of the core of a BMP steganography tool. The tool hides a secret file in
the least significant bits (LSBs) of a 24-bit BMP image's pixel bytes and gets it
back out. The model covers four parts:

- **Bit codec.** One byte is packed LSB-first into 8 carrier bytes, and a 32-bit
  length into 32 carrier bytes. Unpacking reverses this.
- **Capacity planner.** Capacity is width × height × 3, read from the
  little-endian words at header offsets 18 and 22, in unsigned 32-bit arithmetic.
  The planner picks the secret file's extension: the first of ".txt", ".c", ".sh",
  ".h" that occurs in its name, taken from that first occurrence. It accepts only
  when capacity is strictly larger than the bytes needed.
- **Encoder.** The encoder copies the 54-byte header and embeds the frame in the
  carrier bytes after it: magic "##", 32-bit extension length, extension
  characters, 32-bit file size, file bytes. It then copies the rest of the image
  unchanged.
- **Decoder.** The decoder skips the header and reads the frame back field by
  field. It refuses an image whose magic does not match. The output file is
  named base name plus decoded extension. The source writes the extension into
  a ten-byte buffer without checking its length; the model refuses a length
  above 9 as a malformed frame instead (see "## Left out").

Files, read as bytes, are `seq<byte>` with `byte` the integers 0..255. Every
operation is a pure function. A `Result` says why no output was produced.
`FrameBits` in `frame.dfy` is an independent reference description of the frame,
given as the sequence of bits it occupies. The encoder is proved to embed exactly
that frame. The decoder is proved sound against it, and complete for extensions
of at most nine characters and files under 2^32 bytes. Together these
give the end-to-end round trip: decoding the encoder's output recovers the
extension and the file byte for byte.

Modules: `Results` (Option/Result), `LsbCodec` (bit codec), `Frame` (frame layout
and the carrier relations), `Capacity`, `Encoder`, `Decoder`, `RoundTrip`.

The capacity check (STEGANO_25017B/encode.c:196) adds the 54 header bytes to
the 8·|magic| + 32 + 8·extn + 32 + 8·size carrier bytes the frame occupies. The
model follows the code. `RoundTrip.TenByTenRejected` shows a frame that fits
the carriers but is refused because of that header term.

## Model

| member | source | states |
|---|---|---|
| LsbCodec.EncodeByteToLsb | STEGANO_25017B/encode.c:325-332 | For i in 0..7 the LSB of carrier i becomes bit i of the byte. The upper seven bits of every carrier are kept. Exactly eight carriers come back. |
| LsbCodec.EncodeSizeToLsb | STEGANO_25017B/encode.c:339-346 | For i in 0..31 the LSB of carrier i becomes bit i of the size. The upper bits of every carrier are kept. |
| LsbCodec.DecodeByteFromLsb | STEGANO_25017B/decode.c:71-77 | Bit i of the decoded byte is the LSB of buffer[i]. The result is a byte. |
| LsbCodec.DecodeSizeFromLsb | STEGANO_25017B/decode.c:84-90 | Bit i of the decoded value is the LSB of buffer[i], for i in 0..31. The result is an unsigned 32-bit value. |
| LsbCodec.ByteRoundTrip | STEGANO_25017B/decode.c:71-77 | Decoding a byte inverts encoding it, whatever the carriers held before. |
| LsbCodec.SizeRoundTrip | STEGANO_25017B/decode.c:84-90 | Decoding a size inverts encoding it for every unsigned 32-bit value, 0 and 0xFFFFFFFF included. |
| LsbCodec.ByteReembed | STEGANO_25017B/encode.c:325-332 | Re-encoding the byte a buffer already carries leaves the buffer unchanged. |
| LsbCodec.BitsDetermineValue | STEGANO_25017B/decode.c:84-90 | Two values below 2^n with the same n low bits are equal, so the LSBs fix the decoded value. |
| Capacity.LeValueOfU32Le | STEGANO_25017B/encode.c:22-29 | A 4-byte header word holding the little-endian form of v is read as v. |
| Capacity.U32LeOfLeValue | STEGANO_25017B/encode.c:22-29 | Every 4-byte header word is read as a value below 2^32 whose little-endian form is that word, so reading and writing words are inverse. |
| Capacity.GetImageSizeForBmp | STEGANO_25017B/encode.c:17-34 | A header whose words at offsets 18 and 22 are the little-endian forms of width w and height h gives capacity (w·h·3) mod 2^32; with U32LeOfLeValue this covers every header. |
| Capacity.IndexOf | STEGANO_25017B/encode.c:182-189 | strstr: the offset found is an occurrence of the pattern and no earlier offset is one. None means the pattern occurs nowhere. |
| Capacity.FindExtension | STEGANO_25017B/encode.c:182-189 | The pattern chosen is the first of ".txt", ".c", ".sh", ".h" that occurs, taken at its first occurrence. None exactly when no pattern occurs. |
| Capacity.SecretExtension | STEGANO_25017B/encode.c:182-193 | None exactly when none of the four patterns occurs in the name. Otherwise the stored extension is the rest of the name from the start of the selected pattern's first occurrence, the selected pattern being the first in list order that occurs. |
| Capacity.ExtensionSelectionUnique | STEGANO_25017B/encode.c:182-189 | The ordered choice has exactly one answer: two selections that both satisfy the rule are equal. |
| Capacity.CheckCapacity | STEGANO_25017B/encode.c:172-203 | With no known extension the result is UnsupportedExtension. Otherwise it succeeds exactly when capacity > 54 + 8·len(magic) + 32 + 8·extn_size + 32 + 8·file_size, so an exact fit is rejected. On success it returns the capacity, the extension and the file size. On failure the error is CapacityExceeded. |
| Capacity.CapacityOverflowAsWritten | STEGANO_25017B/encode.c:196-199 | With capacity 300, a four-byte extension and a 0x20000000-byte file, the as-written comparison accepts the request although it needs more bytes than capacity. |
| Capacity.CapacityAsWrittenAgreesBelowWrap | STEGANO_25017B/encode.c:196-202 | While the required byte count is below 2^32, the as-written and the intended comparisons agree. |
| Encoder.CopyBmpHeader | STEGANO_25017B/encode.c:210-221 | The output header is exactly the first 54 bytes of the source. |
| Encoder.EncodeMagicString | STEGANO_25017B/encode.c:228-238 | The first 8·len(magic) carriers hold the magic's bits in their LSBs. Their upper bits are kept. |
| Encoder.EncodeSecretFileExtnSize | STEGANO_25017B/encode.c:245-252 | The next 32 carriers hold the extension length, LSB-first. Their upper bits are kept. |
| Encoder.EncodeSecretFileExtn | STEGANO_25017B/encode.c:259-269 | 8·len(extn) carriers hold the extension characters in order. Their upper bits are kept. |
| Encoder.EncodeSecretFileSize | STEGANO_25017B/encode.c:276-283 | The next 32 carriers hold the secret file's size, LSB-first. Their upper bits are kept. |
| Encoder.EncodeSecretFileData | STEGANO_25017B/encode.c:290-303 | 8·len(data) carriers hold the file bytes in order, each byte in eight consecutive carriers. |
| Encoder.EncodeBytesToLsb | STEGANO_25017B/encode.c:231-236 | The shared per-character loop puts the byte string's bits into the carriers' LSBs in order. |
| Encoder.EmbedFrame | STEGANO_25017B/encode.c:361-369 | The five field encoders, each starting where the previous one stopped, put the reference frame (magic, extension length, extension, file size, data) into the carriers. |
| Encoder.StegoLayout | STEGANO_25017B/encode.c:359-371 | Header, embedded frame and the copied remaining bytes, put back to back, form an image that embeds the frame. |
| Encoder.DoEncoding | STEGANO_25017B/encode.c:353-383 | With no known extension the result is UnsupportedExtension. Otherwise it succeeds exactly when the capacity check accepts, and fails with CapacityExceeded otherwise, producing no bytes. On success the output has the source's length and header, carries the frame right after the header, and copies every byte after the frame verbatim. |
| Encoder.EncodingPreservesUpperBits | STEGANO_25017B/encode.c:310-318 | Only the LSBs of the frame's carriers change. Header bytes and bytes after the frame are unchanged, and the upper seven bits of every byte are kept. |
| Encoder.EmbeddedFrameIsHeld | STEGANO_25017B/encode.c:359-371 | An encoded image holds the frame's bits from offset 54 on. |
| Decoder.ReadBlock | STEGANO_25017B/decode.c:105 | A read of n bytes at a position succeeds exactly when the image has them, and returns those bytes. |
| Decoder.DecodeBytesFromLsb | STEGANO_25017B/decode.c:144-149 | 8n carriers give n bytes whose bits are the carriers' LSBs in order. |
| Decoder.DecodeMagicString | STEGANO_25017B/decode.c:97-119 | Truncated if the image ends before the magic's carriers. Otherwise success exactly when the carriers hold the magic, and NotEncoded when they do not. Success moves past the magic. |
| Decoder.DecodeSecretFileExtnSize | STEGANO_25017B/decode.c:126-133 | Succeeds exactly when 32 carriers remain. The value is the unsigned 32-bit number the carriers hold, and the position moves by 32. |
| Decoder.DecodeSecretFileExtn | STEGANO_25017B/decode.c:140-152 | A length above 9 gives MalformedFrame, the model's guard in place of the source's buffer overrun. Otherwise it succeeds exactly when 8·size carriers remain, else Truncated, and returns exactly size characters that the carriers hold. |
| Decoder.DecodeSecretFileSize | STEGANO_25017B/decode.c:159-166 | Succeeds exactly when 32 carriers remain. The size is the unsigned 32-bit value the carriers hold. |
| Decoder.DecodeSecretFileData | STEGANO_25017B/decode.c:173-204 | Succeeds exactly when 8·size carriers remain. It returns exactly size bytes, each held by eight consecutive carriers. |
| Decoder.CString | STEGANO_25017B/decode.c:180-183 | What strcpy and strcat copy from a buffer: the longest prefix without NUL, stopped by a NUL if the buffer goes on. |
| Decoder.DoDecoding | STEGANO_25017B/decode.c:212-228 | Reading starts at offset 54. The result is Truncated if the magic's carriers are missing, and NotEncoded exactly when they do not hold the magic. It is MalformedFrame exactly when the magic matches and the extension length read is above 9. On success the extension has at most 9 characters and the output name is the base name followed by the extension. |
| Decoder.DecodeSound | STEGANO_25017B/decode.c:212-225 | Whatever decoding returns, the image's carriers from offset 54 hold the frame for that extension and that data. |
| Decoder.DecodeComplete | STEGANO_25017B/decode.c:212-225 | An image whose carriers hold a frame with an extension of at most 9 characters decodes to exactly that extension and that data. |
| Decoder.LengthFieldReads | STEGANO_25017B/decode.c:126-133 | Carriers holding a 32-bit value decode to that value. |
| Decoder.ExtnFieldReads | STEGANO_25017B/decode.c:140-152 | Carriers holding an extension of at most 9 characters decode to that extension. |
| Decoder.DataFieldReads | STEGANO_25017B/decode.c:193-199 | Carriers holding file bytes decode to those bytes. |
| Decoder.HeaderNotInterpreted | STEGANO_25017B/decode.c:60-64 | Two images that differ only in the first 54 bytes decode alike, so header bytes are never interpreted. |
| Frame.FrameFromFields | STEGANO_25017B/decode.c:216-223 | Fields found at their successive offsets after the header make up the whole frame. |
| Frame.FieldsFromFrame | STEGANO_25017B/encode.c:359-369 | A held frame has each field at its offset: magic at 54, extension length at 70, extension at 102, then file size and data. |
| Frame.BytesBitsInjective | STEGANO_25017B/decode.c:144-149 | Byte strings with the same bit sequence are equal. |
| RoundTrip.EncodeDecodeRoundTrip | STEGANO_25017B/decode.c:212-225 | Suppose the secret name has a known extension of at most 9 characters and no NUL, and the image both declares and has room for header plus frame. Then encoding succeeds, and decoding its output recovers that extension and the secret byte for byte. The output name is the base name plus that extension. |
| RoundTrip.TenByTenAccepted | STEGANO_25017B/encode.c:196-202 | A 10×10 image (capacity 300) takes a 4-byte "x.txt" (198 bytes needed), and decoding gives back ".txt" and the same bytes. |
| RoundTrip.TenByTenRejected | STEGANO_25017B/encode.c:196-202 | A 20-byte "x.txt" needs 326 bytes with the header term, so a 10×10 image refuses it with CapacityExceeded, although the frame alone (272 carrier bytes) would fit. |

## Left out

- The command line is not modelled: main.c and the argument checks in
  read_and_validate_encode_args and read_and_validate_decode_args.
- File I/O is not modelled. Files are byte sequences and positions are offsets.
  fopen failures, fclose, printf and perror are left out. So are the decoder
  failing to open its output file and the ftell comparison in copy_bmp_header.
- The output-name buffer is not modelled. The decoder builds the output name in
  a 100-byte buffer, and the model uses an unbounded sequence.
- The output file the decoder leaves behind is not modelled. The model
  produces a result only once every field has been read.
- Short reads: the source ignores what fread returns.
  - On the encoding side, Encoder.DoEncoding requires `CarrierAvailable`: the
    image is at least 54 bytes long and, once capacity accepts, holds every
    carrier byte the frame needs.
  - On the decoding side, a read past the end gives Truncated.
- Encoder.DoEncoding: requires the secret file to be under 2^32 bytes
  (get_file_size returns a 32-bit uint). The extension length and file size
  are therefore exact 32-bit values.
- Capacity.CheckCapacity: requires the secret file to be under 2^32 bytes, for
  the same reason as Encoder.DoEncoding.
- Capacity.CheckCapacity: a secret name with none of the four extensions gives
  UnsupportedExtension. In the source this case is undefined behaviour: extn
  is uninitialised. The argument checks normally reject such names.
- Encoder.DoEncoding: the source falls off the end without a return value when
  a step fails. The model returns the failure explicitly.
- Encoder.DoEncoding: the source keeps the extension length in the global
  extn_size. The model passes it along inside `Plan`.
- Decoder.DecodeSecretFileExtn: the source does not check the extension length
  read from the image. decode.c:144-150 writes that many characters and then a
  NUL into the ten-byte extn_secret_file (decode.h:13), which overruns the
  buffer for a length of 10 or more; a length of 2^31 or more becomes a
  negative int. The model returns MalformedFrame for any length above 9 in
  place of that undefined behaviour, and Decoder.DoDecoding passes it on.
- Decoder.DoDecoding: the source ignores the status of every step after the
  magic check and returns e_success. The model stops at the first failing step
  and returns its error.
- Decoder.DoDecoding: the source shifts a signed int and writes the file size
  through an `int *` cast of a `long`. The model replaces both with one
  unsigned 32-bit value.
- Capacity.SecretExtension: searches the whole name, where strstr stops at the
  first NUL. A name that comes from the command line cannot hold a NUL, so the
  two agree on every name the program can be given.
- RoundTrip.EncodeDecodeRoundTrip: requires the secret name to contain no NUL
  and its extension to have at most 9 characters. The encoder accepts longer
  extensions, such as "x.txt.backup" (encode.c has no length check for them),
  but the decoder's ten-byte buffer cannot take them back.
- common.h and encode.h are not part of this model. The buffers that
  encode.c:192 (strcpy of the extension) and encode.c:293 (fread of the file)
  copy into are declared there, so their sizes are unknown; the model's encoder
  takes an extension and a file of any length and does not model an overrun.
  The magic "##" (two characters) comes from decode.c:95 and decode.c:103. The capacity is taken to
  be an unsigned 32-bit value, as get_image_size_for_bmp returns.

## Findings

| source | as written | input that shows it | evidently intended | confidence | as-written member | corrected member |
|---|---|---|---|---|---|---|
| STEGANO_25017B/encode.c:196-199 | total_bytes is stored in a 32-bit `int` and compared with the unsigned capacity, so the required size is taken modulo 2^32 | capacity 300 (a 10×10 image), extension ".txt", secret file of 0x20000000 bytes: the sum is 2^32 + 166, which reduces to 166 < 300, so the request is accepted | accept only when capacity exceeds the true number of bytes needed | not executed | Capacity.CapacityAcceptsAsWritten, Capacity.CapacityOverflowAsWritten | Capacity.CapacityAccepts, Capacity.CheckCapacity |
