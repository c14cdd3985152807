/** The decoding the writer's layout calls for: the payload read on from
    slot 8 * HEADER_SIZE, right where the header's last bit ends, and a
    buffer with too few slots for the declared size rejected instead of
    re-read. Beside it, the lemmas that set the as-written reader of the
    Decoder module against it on one concrete payload. */
module Continuous {
  import opened Bits
  import opened Config
  import opened Results
  import opened Header
  import opened Capacity
  import opened Layout
  import opened ZipCheck
  import opened Decoder

  /** The `fileSize` payload bytes that follow the header in the bit stream
      `bits`, byte `d` assembled from slots `8 * (HEADER_SIZE + d) ..`. */
  function ContinuousPayload(bits: seq<bv8>, fileSize: nat): (r: Result<seq<bv8>, DecodeError>)
    ensures r.Failure? <==> |bits| < 8 * (HEADER_SIZE + fileSize)
    ensures r.Failure? ==> r.error == PayloadTruncated
    ensures r.Success? ==> |r.value| == fileSize
  {
    if |bits| < 8 * (HEADER_SIZE + fileSize) then Failure(PayloadTruncated)
    else Success(seq(fileSize, d requires 0 <= d < fileSize => AssembleByte(bits, 8 * (HEADER_SIZE + d), 8)))
  }

  /** The extraction with a continuous payload read: the same header read
      and check, then the payload, then the ZIP validation. */
  function ExtractContinuous(pix: seq<bv8>): (r: Result<seq<bv8>, DecodeError>)
    requires |pix| % 4 == 0
    ensures r.Failure? && r.error.BadHeader? <==> ParseHeader(HeaderRead(SlotBits(pix))).Failure?
    ensures r == Failure(PayloadTruncated) <==>
      ParseHeader(HeaderRead(SlotBits(pix))).Success? &&
      SlotCount(|pix|) < 8 * (HEADER_SIZE + ParseHeader(HeaderRead(SlotBits(pix))).value)
    ensures r.Success? ==> |r.value| >= 4 && HasZipSignature(r.value)
  {
    var bits := SlotBits(pix);
    match ParseHeader(HeaderRead(bits))
    case Failure(e) => Failure(BadHeader(e))
    case Success(fileSize) =>
      match ContinuousPayload(bits, fileSize)
      case Failure(e) => Failure(e)
      case Success(data) =>
        match ValidateAndCompleteExtraction(data)
        case Failure(e) => Failure(BadArchive(e))
        case Success(file) => Success(file)
  }

  /** The continuous reader gives back every payload byte of a buffer the
      whole stream fits into. */
  lemma ContinuousPayloadOfEncoded(orig: seq<bv8>, header: seq<bv8>, p: seq<bv8>)
    requires |orig| % 4 == 0 && |header| == HEADER_SIZE
    requires 8 * (HEADER_SIZE + |p|) <= SlotCount(|orig|)
    ensures ContinuousPayload(SlotBits(Embedded(orig, header + p)), |p|) == Success(p)
  {
    var bits := SlotBits(Embedded(orig, header + p));
    var r := ContinuousPayload(bits, |p|);
    forall d | 0 <= d < |p|
      ensures r.value[d] == p[d]
    {
      ReadBackByte(orig, header + p, HEADER_SIZE + d);
      assert (header + p)[HEADER_SIZE + d] == p[d];
    }
    assert r.value == p;
  }

  /** Round trip: whatever archive the encoder accepts (a size in
      1..MAX_FILE_SIZE that fits the capacity check), the continuous reader
      recovers from the written buffer, whatever the image was. */
  lemma EncodeThenExtract(orig: seq<bv8>, p: seq<bv8>)
    requires |orig| % 4 == 0 && FitsCapacity(|orig|, |p|)
    requires 0 < |p| <= MAX_FILE_SIZE
    ensures ExtractContinuous(Embedded(orig, BuildHeader(|p|) + p)) ==
      match ValidateAndCompleteExtraction(p)
      case Failure(e) => Failure(BadArchive(e))
      case Success(file) => Success(file)
  {
    var stream := BuildHeader(|p|) + p;
    HeaderReadOfEncoded(orig, stream);
    assert stream[..HEADER_SIZE] == BuildHeader(|p|);
    HeaderRoundTrip(|p|);
    ContinuousPayloadOfEncoded(orig, BuildHeader(|p|), p);
  }

  /** In particular an archive that starts with a ZIP signature comes back
      unchanged. */
  lemma EncodeThenExtractArchive(orig: seq<bv8>, p: seq<bv8>)
    requires |orig| % 4 == 0 && FitsCapacity(|orig|, |p|)
    requires 4 <= |p| <= MAX_FILE_SIZE && HasZipSignature(p)
    ensures ExtractContinuous(Embedded(orig, BuildHeader(|p|) + p)) == Success(p)
  {
    EncodeThenExtract(orig, p);
  }

  /** A five-byte archive start, "PK\x03\x04" and one more byte. */
  const SAMPLE: seq<bv8> := [0x50, 0x4B, 0x03, 0x04, 0x14]

  /** On any image of at least 100 pixels, the as-written reader does not
      give SAMPLE back: it assembles D4 D2 00 01 ... from slot 258 on, finds
      no signature and prepends one, returning nine bytes. */
  lemma AsWrittenLosesSample(orig: seq<bv8>)
    requires |orig| % 4 == 0 && |orig| >= 400
    ensures ExtractAsWritten(Embedded(orig, BuildHeader(|SAMPLE|) + SAMPLE)) != Success(SAMPLE)
  {
    var stream := BuildHeader(|SAMPLE|) + SAMPLE;
    var pix := Embedded(orig, stream);
    var bits := SlotBits(pix);
    HeaderEndIndexValue();
    HeaderReadOfEncoded(orig, stream);
    assert stream[..HEADER_SIZE] == BuildHeader(|SAMPLE|);
    HeaderRoundTrip(|SAMPLE|);
    var start := SlotCount(Min(HEADER_END_INDEX, |pix|));
    assert start == SlotCount(HEADER_END_INDEX);
    var data := PayloadAsWritten(bits, start, |SAMPLE|);
    SampleAsWritten(orig);
    PrependRecovers(data);
    assert ExtractAsWritten(pix) == Success(LOCAL_FILE_HEADER + data);
  }

  /** The first four bytes the as-written reader assembles from the
      encoded SAMPLE: 0x50 >> 2 | 0x4B << 6 = 0xD4, and so on. */
  lemma SampleAsWritten(orig: seq<bv8>)
    requires |orig| % 4 == 0 && |orig| >= 400
    ensures var data := PayloadAsWritten(SlotBits(Embedded(orig, BuildHeader(|SAMPLE|) + SAMPLE)),
                                         SlotCount(HEADER_END_INDEX), |SAMPLE|);
      data[0] == 0xD4 && data[1] == 0xD2 && data[2] == 0x00 && data[3] == 0x01
  {
    HeaderEndIndexValue();
    AsWrittenPayloadByte(orig, BuildHeader(|SAMPLE|), SAMPLE, 0);
    AsWrittenPayloadByte(orig, BuildHeader(|SAMPLE|), SAMPLE, 1);
    AsWrittenPayloadByte(orig, BuildHeader(|SAMPLE|), SAMPLE, 2);
    AsWrittenPayloadByte(orig, BuildHeader(|SAMPLE|), SAMPLE, 3);
  }

  /** On the same images the continuous reader returns SAMPLE, which the
      as-written one loses. */
  lemma ContinuityCounterexample(orig: seq<bv8>)
    requires |orig| % 4 == 0 && |orig| >= 400
    ensures ExtractAsWritten(Embedded(orig, BuildHeader(|SAMPLE|) + SAMPLE)) != Success(SAMPLE)
    ensures ExtractContinuous(Embedded(orig, BuildHeader(|SAMPLE|) + SAMPLE)) == Success(SAMPLE)
  {
    AsWrittenLosesSample(orig);
    assert FitsCapacity(|orig|, |SAMPLE|) && HasZipSignature(SAMPLE);
    EncodeThenExtractArchive(orig, SAMPLE);
  }
}
