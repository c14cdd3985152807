/** The encoding side: building the data stream (logic.js:469-488), the
    chunked bit writer `processChunk` with its cursor carried across chunks
    (logic.js:491-537), and the capacity guard in front of it
    (logic.js:436-443). */
module Encoder {
  import opened Bits
  import opened Config
  import opened Results
  import opened Header
  import opened Capacity
  import opened Layout

  datatype EncodeError =
    | CapacityExceeded(available: int, required: nat)
    | FileTooLarge

  /** Array entries handled by one call of `processChunk`. */
  const CHUNK_SIZE: nat := 10000

  /** A 32-byte sequence with the signature, the length bytes of `len`
      and zeros in their places is the header built for `len`. */
  lemma HeaderOfParts(h: seq<bv8>, len: nat)
    requires len <= UINT32_MAX && |h| == HEADER_SIZE
    requires h[..6] == SIGNATURE_BYTES && h[6..10] == LengthBytes(len) && h[10..] == Zeros(22)
    ensures h == BuildHeader(len)
  {
    assert h == h[..6] + h[6..10] + h[10..];
  }

  /** The four length bytes the encoder's shifts produce. */
  lemma JsLengthBytes(len: nat)
    requires len <= UINT32_MAX
    ensures [JsShiftByte(len, 0), JsShiftByte(len, 1), JsShiftByte(len, 2), JsShiftByte(len, 3)]
      == LengthBytes(len)
  {
    JsShiftBytesAreLengthBytes(len, 0);
    JsShiftBytesAreLengthBytes(len, 1);
    JsShiftBytesAreLengthBytes(len, 2);
    JsShiftBytesAreLengthBytes(len, 3);
  }

  /** The signature loop of the header builder: entry `i` of `header`
      receives the character code of signature character `i`; the entries
      after the signature keep their value. */
  method WriteSignature(header: array<bv8>)
    requires header.Length == HEADER_SIZE
    modifies header
    ensures header[..] == SIGNATURE_BYTES + old(header[6..])
  {
    SignatureBytesAreCharCodes();
    for i := 0 to |HEADER_SIGNATURE|
      invariant forall k :: 0 <= k < i ==> header[k] == SIGNATURE_BYTES[k]
      invariant forall k :: 6 <= k < HEADER_SIZE ==> header[k] == old(header[k])
    {
      header[i] := (HEADER_SIGNATURE[i] as int) as bv8;
    }
    assert header[..] == header[..6] + header[6..];
  }

  /** Builds the 32-byte header: the signature's character codes, then
      the length bytes as JavaScript's signed shifts produce them. A length
      that does not fit the 32-bit field is refused (logic.js:469-484). */
  method MakeHeader(zipLength: nat) returns (r: Result<seq<bv8>, EncodeError>)
    ensures zipLength > UINT32_MAX ==> r == Failure(FileTooLarge)
    ensures zipLength <= UINT32_MAX ==> r == Success(BuildHeader(zipLength))
  {
    var header := new bv8[HEADER_SIZE](_ => 0);
    assert header[..] == Zeros(HEADER_SIZE);
    WriteSignature(header);
    if zipLength > UINT32_MAX {
      return Failure(FileTooLarge);
    }
    WriteLength(header, zipLength);
    assert header[..6] == SIGNATURE_BYTES;
    assert header[6..10] == LengthBytes(zipLength);
    assert header[10..] == Zeros(22);
    HeaderOfParts(header[..], zipLength);
    return Success(header[..]);
  }

  /** Stores the length in bytes 6..9 with JavaScript's shifts and masks
      (logic.js:481-484); the other bytes keep their value. */
  method WriteLength(header: array<bv8>, zipLength: nat)
    requires header.Length == HEADER_SIZE && zipLength <= UINT32_MAX
    modifies header
    ensures header[..] == old(header[..6]) + LengthBytes(zipLength) + old(header[10..])
  {
    header[6] := JsShiftByte(zipLength, 0);
    header[7] := JsShiftByte(zipLength, 1);
    header[8] := JsShiftByte(zipLength, 2);
    header[9] := JsShiftByte(zipLength, 3);
    JsLengthBytes(zipLength);
    assert header[..] == old(header[..6]) + LengthBytes(zipLength) + old(header[10..]);
  }

  /** Builds `dataToHide`: the header followed by the payload
      (logic.js:486-488). */
  method BuildStream(zip: seq<bv8>) returns (r: Result<seq<bv8>, EncodeError>)
    ensures |zip| > UINT32_MAX ==> r == Failure(FileTooLarge)
    ensures |zip| <= UINT32_MAX ==> r == Success(BuildHeader(|zip|) + zip)
  {
    var made := MakeHeader(|zip|);
    if made.Failure? {
      return Failure(made.error);
    }
    var header := made.value;
    var dataToHide := new bv8[|header| + |zip|](_ => 0);
    SetAt(dataToHide, header, 0);
    SetAt(dataToHide, zip, |header|);
    assert dataToHide[..] == header + zip;
    return Success(dataToHide[..]);
  }

  /** The state `processChunk` shares across chunks through its closure:
      the pixel buffer it writes into, the stream, and the cursor. */
  class Encoder {
    const pixels: array<bv8>
    const dataToHide: seq<bv8>
    /** The buffer as it was before the first chunk. */
    ghost const original: seq<bv8>
    var dataIndex: nat
    var bitIndex: nat
    var currentByte: bv8

    /** Number of stream bits written so far. */
    ghost function Written(): nat
      reads this
    {
      8 * dataIndex + bitIndex
    }

    /** The cursor is consistent and every entry is the original with the
        first Written() stream bits stamped into their slots. */
    ghost predicate Valid()
      reads this, pixels
    {
      && pixels.Length % 4 == 0
      && |original| == pixels.Length
      && |dataToHide| > 0
      && dataIndex <= |dataToHide|
      && bitIndex < 8
      && (dataIndex == |dataToHide| ==> bitIndex == 0)
      && (dataIndex < |dataToHide| ==> currentByte == dataToHide[dataIndex])
      && forall i :: 0 <= i < pixels.Length ==> pixels[i] == Stamp(original, dataToHide, Written(), i)
    }

    constructor (pixels: array<bv8>, dataToHide: seq<bv8>)
      requires pixels.Length % 4 == 0
      requires |dataToHide| > 0
      ensures this.pixels == pixels && this.dataToHide == dataToHide
      ensures original == pixels[..]
      ensures Valid() && Written() == 0
    {
      this.pixels := pixels;
      this.dataToHide := dataToHide;
      original := pixels[..];
      dataIndex := 0;
      bitIndex := 0;
      currentByte := dataToHide[0];
    }

    /** Writes the next stream bit into entry `index`, whose slot is the
        cursor's, and advances the cursor (logic.js:515-525). */
    method WriteBit(index: nat)
      requires Valid()
      requires index < pixels.Length && IsColorEntry(index)
      requires dataIndex < |dataToHide| && SlotOf(index) == Written()
      modifies this`dataIndex, this`bitIndex, this`currentByte, pixels
      ensures Valid()
      ensures Written() == old(Written()) + 1
    {
      ghost var w := Written();
      ghost var before := pixels[..];
      var bit := BitAt(currentByte, bitIndex);
      assert w / 8 == dataIndex && w % 8 == bitIndex;
      assert bit == StreamBit(dataToHide, w);
      pixels[index] := SetLowBit(pixels[index], bit);
      bitIndex := bitIndex + 1;
      if bitIndex >= 8 {
        bitIndex := 0;
        dataIndex := dataIndex + 1;
        if dataIndex < |dataToHide| {
          currentByte := dataToHide[dataIndex];
        }
      }
      assert Written() == w + 1;
      forall i | 0 <= i < pixels.Length
        ensures pixels[i] == Stamp(original, dataToHide, w + 1, i)
      {
        StampAdvance(original, dataToHide, w, index, i);
        assert before[i] == Stamp(original, dataToHide, w, i);
      }
    }

    /** The inner loop of `processChunk` over the R, G and B entries of
        the pixel at `i`; it stops as soon as the stream is exhausted
        (logic.js:512-526). */
    method ProcessPixel(i: nat)
      requires Valid()
      requires i % 4 == 0 && i + 4 <= pixels.Length
      requires dataIndex < |dataToHide| && Written() == SlotCount(i)
      modifies this`dataIndex, this`bitIndex, this`currentByte, pixels
      ensures Valid()
      ensures Written() == Min(8 * |dataToHide|, SlotCount(i + 4))
    {
      var j := 0;
      while j < 3
        invariant 0 <= j <= 3 && Valid()
        invariant Written() == Min(8 * |dataToHide|, SlotCount(i) + j)
      {
        if dataIndex >= |dataToHide| {
          break;
        }
        SlotOfPixelChannel(i, j);
        WriteBit(i + j);
        j := j + 1;
      }
      SlotCountStep(i);
    }

    /** One call of `processChunk(startIndex)`: writes bits into the pixels
        whose entries lie in `startIndex .. endIndex - 1` until the stream is
        exhausted, and reports whether another chunk is to be scheduled. The
        cursor carried in from the previous chunk is exactly the one a single
        pass over the entries before `startIndex` would leave. */
    method ProcessChunk(startIndex: nat, chunkSize: nat) returns (endIndex: nat, more: bool)
      requires Valid()
      requires chunkSize > 0 && chunkSize % 4 == 0
      requires startIndex % 4 == 0 && startIndex <= pixels.Length
      requires Written() == Min(8 * |dataToHide|, SlotCount(startIndex))
      modifies this`dataIndex, this`bitIndex, this`currentByte, pixels
      ensures Valid()
      ensures endIndex == Min(startIndex + chunkSize, pixels.Length)
      ensures Written() == Min(8 * |dataToHide|, SlotCount(endIndex))
      ensures more == (endIndex < pixels.Length && dataIndex < |dataToHide|)
    {
      endIndex := Min(startIndex + chunkSize, pixels.Length);
      assert endIndex % 4 == 0;
      var i := startIndex;
      while i < endIndex && dataIndex < |dataToHide|
        invariant Valid()
        invariant startIndex <= i <= endIndex && i % 4 == 0
        invariant Written() == Min(8 * |dataToHide|, SlotCount(i))
        decreases endIndex - i
      {
        NextPixelInBounds(i, endIndex);
        ProcessPixel(i);
        i := i + 4;
      }
      more := endIndex < pixels.Length && dataIndex < |dataToHide|;
    }

    /** Drives `processChunk` from entry 0 in steps of `chunkSize` entries,
        as the `setTimeout` re-scheduling does with 10000. Whatever the
        chunk size, the final buffer is the whole stream written over the
        original, and the final cursor is the one a single unbounded pass
        leaves. */
    method Run(chunkSize: nat)
      requires Valid() && Written() == 0
      requires chunkSize > 0 && chunkSize % 4 == 0
      modifies this`dataIndex, this`bitIndex, this`currentByte, pixels
      ensures Valid()
      ensures pixels[..] == Embedded(original, dataToHide)
      ensures Written() == Min(8 * |dataToHide|, SlotCount(pixels.Length))
    {
      var startIndex, more := 0, true;
      while more
        invariant Valid()
        invariant startIndex % 4 == 0 && startIndex <= pixels.Length
        invariant Written() == Min(8 * |dataToHide|, SlotCount(startIndex))
        invariant !more ==> Written() == Min(8 * |dataToHide|, SlotCount(pixels.Length))
        decreases pixels.Length - startIndex, if more then 1 else 0
      {
        startIndex, more := ProcessChunk(startIndex, chunkSize);
      }
      forall i | 0 <= i < pixels.Length
        ensures pixels[i] == Stamp(original, dataToHide, 8 * |dataToHide|, i)
      {
        StampSaturates(original, dataToHide, Written(), i);
      }
    }
  }

  /** `encodeImageWithZip`: builds the stream and writes it with chunks of
      CHUNK_SIZE entries; a payload whose length does not fit the 32-bit
      field is refused before anything is written. */
  method EncodeImageWithZip(pixels: array<bv8>, zip: seq<bv8>) returns (r: Outcome<EncodeError>)
    requires pixels.Length % 4 == 0
    modifies pixels
    ensures |zip| > UINT32_MAX ==> r == Fail(FileTooLarge) && pixels[..] == old(pixels[..])
    ensures |zip| <= UINT32_MAX ==>
      r == Pass && pixels[..] == Embedded(old(pixels[..]), BuildHeader(|zip|) + zip)
  {
    var stream := BuildStream(zip);
    if stream.Failure? {
      return Fail(stream.error);
    }
    var encoder := new Encoder(pixels, stream.value);
    encoder.Run(CHUNK_SIZE);
    return Pass;
  }

  /** `encodeFile` once the image and the archive are loaded: the capacity
      guard, then `encodeImageWithZip`. Nothing is written when the guard
      refuses. */
  method EncodeFile(pixels: array<bv8>, zip: seq<bv8>) returns (r: Outcome<EncodeError>)
    requires pixels.Length % 4 == 0
    modifies pixels
    ensures !FitsCapacity(pixels.Length, |zip|) ==>
      r == Fail(CapacityExceeded(AvailableBytes(pixels.Length) - HEADER_SIZE, |zip|)) &&
      pixels[..] == old(pixels[..])
    ensures FitsCapacity(pixels.Length, |zip|) && |zip| > UINT32_MAX ==>
      r == Fail(FileTooLarge) && pixels[..] == old(pixels[..])
    ensures FitsCapacity(pixels.Length, |zip|) && |zip| <= UINT32_MAX ==>
      r == Pass && pixels[..] == Embedded(old(pixels[..]), BuildHeader(|zip|) + zip)
  {
    var availableBytes := AvailableBytes(pixels.Length);
    if |zip| > availableBytes - HEADER_SIZE {
      return Fail(CapacityExceeded(availableBytes - HEADER_SIZE, |zip|));
    }
    r := EncodeImageWithZip(pixels, zip);
  }
}
