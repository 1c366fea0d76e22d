/** The capacity planner: image capacity from the BMP geometry fields, the
    secret file's extension, and the accept/reject decision taken before any
    byte is written (encode.c:11-34, encode.c:167-203). */
module Capacity {
  import opened Results
  import opened LsbCodec
  import opened Frame

  /** Offsets of the little-endian width and height words in the BMP header. */
  const WidthOffset: nat := 18
  const HeightOffset: nat := 22

  /** The unsigned value of a little-endian byte string, as fread stores a
      4-byte header word into a uint on a little-endian machine. */
  function LeValue(bs: seq<byte>): nat
  {
    if |bs| == 0 then 0 else bs[0] + 256 * LeValue(bs[1..])
  }

  /** The four little-endian bytes of v, as a BMP header stores a dimension. */
  function U32Le(v: u32): seq<byte>
  {
    [v % 256, (v / 256) % 256, (v / 65536) % 256, v / 16777216]
  }

  /** The bytes U32Le writes are read back as the same value. */
  lemma LeValueOfU32Le(v: u32)
    ensures LeValue(U32Le(v)) == v
  {
    var s := U32Le(v);
    assert s[1..][1..] == s[2..] && s[2..][1..] == s[3..] && s[3..][1..] == [];
    var b1, b2, b3: int := s[1], s[2], s[3];
    assert LeValue(s[3..]) == b3;
    assert LeValue(s[2..]) == b2 + 256 * b3;
    assert LeValue(s[1..]) == b1 + 256 * LeValue(s[2..]);
    var q1 := v / 256;
    var q2 := q1 / 256;
    assert v == v % 256 + 256 * q1;
    assert q1 == q1 % 256 + 256 * q2;
    assert q2 == v / 65536;
    assert q2 == q2 % 256 + 256 * (v / 16777216);
  }

  /** Every 4-byte header word is the little-endian form of the value it is
      read as, so LeValue and U32Le are inverse on 4-byte words. */
  lemma U32LeOfLeValue(bs: seq<byte>)
    requires |bs| == 4
    ensures LeValue(bs) < U32Limit
    ensures U32Le(LeValue(bs)) == bs
  {
    var b0, b1, b2, b3: int := bs[0], bs[1], bs[2], bs[3];
    assert bs[1..][1..] == bs[2..] && bs[2..][1..] == bs[3..] && bs[3..][1..] == [];
    assert LeValue(bs[3..]) == b3;
    assert LeValue(bs[2..]) == b2 + 256 * b3;
    var hi := b1 + 256 * (b2 + 256 * b3);
    assert LeValue(bs[1..]) == hi;
    var v := b0 + 256 * hi;
    assert v == LeValue(bs);
    assert v / 256 == hi && v % 256 == b0;
    assert hi / 256 == b2 + 256 * b3 && hi % 256 == b1;
    assert v / 65536 == hi / 256;
    assert v / 16777216 == (b2 + 256 * b3) / 256 == b3;
  }

  /** Every u32 written little-endian reads back as itself. */
  lemma LeValueOfU32LeAll()
    ensures forall v: u32 {:trigger U32Le(v)} :: LeValue(U32Le(v)) == v
  {
    forall v: u32
      ensures LeValue(U32Le(v)) == v
    {
      LeValueOfU32Le(v);
    }
  }

  /** get_image_size_for_bmp: a header that declares width w and height h
      (little-endian words at offsets 18 and 22) gives capacity 3wh in
      unsigned 32-bit arithmetic. By U32LeOfLeValue every header declares
      some such w and h. */
  function GetImageSizeForBmp(image: seq<byte>): (r: u32)
    requires |image| >= HeightOffset + 4
    ensures forall w: u32, h: u32 {:trigger U32Le(w), U32Le(h)} ::
      image[WidthOffset..WidthOffset + 4] == U32Le(w) && image[HeightOffset..HeightOffset + 4] == U32Le(h) ==>
        r == (w * h * 3) % U32Limit
  {
    var width := LeValue(image[WidthOffset..WidthOffset + 4]);
    var height := LeValue(image[HeightOffset..HeightOffset + 4]);
    LeValueOfU32LeAll();
    (width * height * 3) % U32Limit
  }

  /** needle occurs in hay at offset j. */
  predicate OccursAt(hay: seq<byte>, needle: seq<byte>, j: nat)
  {
    j + |needle| <= |hay| && hay[j..j + |needle|] == needle
  }

  function IndexOfFrom(hay: seq<byte>, needle: seq<byte>, from: nat): (r: Option<nat>)
    requires from <= |hay|
    ensures r.Some? ==> from <= r.value && OccursAt(hay, needle, r.value)
    ensures r.Some? ==> forall j :: from <= j < r.value ==> !OccursAt(hay, needle, j)
    ensures r.None? ==> forall j :: from <= j <= |hay| ==> !OccursAt(hay, needle, j)
    decreases |hay| - from
  {
    if OccursAt(hay, needle, from) then Some(from)
    else if from == |hay| then None
    else IndexOfFrom(hay, needle, from + 1)
  }

  /** strstr: the offset of the first occurrence of needle in hay, if any. */
  function IndexOf(hay: seq<byte>, needle: seq<byte>): (r: Option<nat>)
    ensures r.Some? ==> OccursAt(hay, needle, r.value)
    ensures r.Some? ==> forall j :: 0 <= j < r.value ==> !OccursAt(hay, needle, j)
    ensures r.None? ==> forall j :: 0 <= j <= |hay| ==> !OccursAt(hay, needle, j)
  {
    IndexOfFrom(hay, needle, 0)
  }

  /** The patterns check_capacity tries, in order: ".txt", ".c", ".sh", ".h". */
  const ExtensionPatterns: seq<seq<byte>> := [[46, 116, 120, 116], [46, 99], [46, 115, 104], [46, 104]]

  /** Which pattern selected the extension and where it starts in the name. */
  datatype ExtnMatch = ExtnMatch(pattern: nat, at: nat)

  /** Pattern k is the first of the list that occurs in name, and `at` is its
      first occurrence. */
  predicate SelectedBy(name: seq<byte>, k: nat, at: nat)
  {
    && k < |ExtensionPatterns|
    && OccursAt(name, ExtensionPatterns[k], at)
    && (forall j :: 0 <= j < at ==> !OccursAt(name, ExtensionPatterns[k], j))
    && (forall k', j :: 0 <= k' < k && 0 <= j <= |name| ==> !OccursAt(name, ExtensionPatterns[k'], j))
  }

  function FindExtensionFrom(name: seq<byte>, k: nat): (r: Option<ExtnMatch>)
    requires k <= |ExtensionPatterns|
    requires forall k', j :: 0 <= k' < k && 0 <= j <= |name| ==> !OccursAt(name, ExtensionPatterns[k'], j)
    ensures r.Some? ==> SelectedBy(name, r.value.pattern, r.value.at)
    ensures r.None? ==>
      forall k', j :: 0 <= k' < |ExtensionPatterns| && 0 <= j <= |name| ==> !OccursAt(name, ExtensionPatterns[k'], j)
    decreases |ExtensionPatterns| - k
  {
    if k == |ExtensionPatterns| then None
    else
      match IndexOf(name, ExtensionPatterns[k])
      case Some(at) => Some(ExtnMatch(k, at))
      case None => FindExtensionFrom(name, k + 1)
  }

  /** The extension choice of check_capacity: the first pattern, in list order,
      that occurs anywhere in the secret file's name, at its first occurrence;
      none when no pattern occurs. */
  function FindExtension(name: seq<byte>): (r: Option<ExtnMatch>)
    ensures r.Some? ==> SelectedBy(name, r.value.pattern, r.value.at)
    ensures r.None? <==>
      forall k, j :: 0 <= k < |ExtensionPatterns| && 0 <= j <= |name| ==> !OccursAt(name, ExtensionPatterns[k], j)
  {
    FindExtensionFrom(name, 0)
  }

  /** The selection FindExtension makes is the only one SelectedBy admits. */
  lemma ExtensionSelectionUnique(name: seq<byte>, k1: nat, at1: nat, k2: nat, at2: nat)
    requires SelectedBy(name, k1, at1) && SelectedBy(name, k2, at2)
    ensures k1 == k2 && at1 == at2
  {
  }

  /** The extension stored for the secret file: the rest of its name from the
      selected pattern on, pattern included. */
  function SecretExtension(name: seq<byte>): (r: Option<seq<byte>>)
    ensures r.None? <==>
      forall k, j :: 0 <= k < |ExtensionPatterns| && 0 <= j <= |name| ==> !OccursAt(name, ExtensionPatterns[k], j)
    ensures r.Some? ==> exists k: nat, at: nat :: SelectedBy(name, k, at) && r.value == name[at..]
  {
    match FindExtension(name)
    case None => None
    case Some(m) => Some(name[m.at..])
  }

  /** total_bytes of check_capacity: the header plus every carrier byte the
      frame needs. */
  function RequiredBytes(extnSize: nat, fileSize: nat): nat
  {
    HeaderSize + FrameLength(extnSize, fileSize)
  }

  /** The comparison as written: total_bytes is held in a 32-bit int and
      compared with the unsigned capacity, so it is reduced modulo 2^32. */
  function CapacityAcceptsAsWritten(capacity: u32, extnSize: nat, fileSize: nat): bool
  {
    capacity > RequiredBytes(extnSize, fileSize) % U32Limit
  }

  /** The comparison as intended: strictly more capacity than bytes needed. */
  function CapacityAccepts(capacity: u32, extnSize: nat, fileSize: nat): bool
  {
    capacity > RequiredBytes(extnSize, fileSize)
  }

  /** A 512 MiB secret with a four-character extension needs more than 2^32
      bytes, yet the as-written check accepts it for a 10 x 10 image. */
  lemma CapacityOverflowAsWritten()
    ensures RequiredBytes(4, 0x2000_0000) > 300
    ensures CapacityAcceptsAsWritten(300, 4, 0x2000_0000)
    ensures !CapacityAccepts(300, 4, 0x2000_0000)
  {
  }

  /** Below the wrap-around the two comparisons agree. */
  lemma CapacityAsWrittenAgreesBelowWrap(capacity: u32, extnSize: nat, fileSize: nat)
    requires RequiredBytes(extnSize, fileSize) < U32Limit
    ensures CapacityAcceptsAsWritten(capacity, extnSize, fileSize) == CapacityAccepts(capacity, extnSize, fileSize)
  {
  }

  datatype EncodeError = UnsupportedExtension | CapacityExceeded

  /** What check_capacity hands on to the encoding steps: the capacity, the
      extension (its length replaces the global extn_size) and the file size. */
  datatype Plan = Plan(capacity: u32, extn: seq<byte>, fileSize: u32)

  /** check_capacity: succeeds exactly when the name has a known extension and
      the declared capacity is strictly larger than header plus frame. */
  function CheckCapacity(image: seq<byte>, secretName: seq<byte>, secret: seq<byte>): (r: Result<Plan, EncodeError>)
    requires |image| >= HeightOffset + 4
    requires |secret| < U32Limit
    ensures SecretExtension(secretName).None? ==> r == Failure(UnsupportedExtension)
    ensures SecretExtension(secretName).Some? ==>
      var extn := SecretExtension(secretName).value;
      && (r.Success? <==> GetImageSizeForBmp(image) > HeaderSize + FrameLength(|extn|, |secret|))
      && (r.Success? ==> r.value == Plan(GetImageSizeForBmp(image), extn, |secret|))
      && (r.Failure? ==> r.error == CapacityExceeded)
  {
    var capacity := GetImageSizeForBmp(image);
    match SecretExtension(secretName)
    case None => Failure(UnsupportedExtension)
    case Some(extn) =>
      if CapacityAccepts(capacity, |extn|, |secret|) then Success(Plan(capacity, extn, |secret|))
      else Failure(CapacityExceeded)
  }
}
