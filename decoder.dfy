/** The decoding side as logic.js writes it: the header loop
    (logic.js:636-656), the header check, the payload reader `processBits`
    with its re-run (logic.js:680-719), then the ZIP validation. The reader
    starts at the pixel after the one that held the last header bit, so the
    payload is read from stream slot 258 on, while the writer put it at slot
    256 on; see the lemmas at the end. */
module Decoder {
  import opened Bits
  import opened Config
  import opened Results
  import opened Header
  import opened Layout
  import opened ZipCheck

  datatype DecodeError =
    | BadHeader(headerError: HeaderError)
    /** The payload reader makes no progress and re-schedules itself forever. */
    | NeverCompletes
    /** Fewer slots than the declared payload needs (continuous reader only). */
    | PayloadTruncated
    | BadArchive(zipError: ZipError)

  /** `pixelIndex` once the header loop has read all 8 * HEADER_SIZE bits:
      the loop breaks out of the channel loop after the pixel holding the
      last header bit and still advances by one pixel. */
  const HEADER_END_INDEX: nat := 4 * ((8 * HEADER_SIZE - 1) / 3 + 1)

  lemma HeaderEndIndexValue()
    ensures HEADER_END_INDEX == 344 && SlotCount(HEADER_END_INDEX) == 8 * HEADER_SIZE + 2
  {
  }

  /** The header loop finishes exactly in the pixel whose slots reach
      `8 * HEADER_SIZE`, and `HEADER_END_INDEX` is the pixel after it. */
  lemma HeaderEndIndexAt(pixelIndex: nat)
    requires pixelIndex % 4 == 0
    ensures SlotCount(pixelIndex) < 8 * HEADER_SIZE ==> pixelIndex < HEADER_END_INDEX
    ensures SlotCount(pixelIndex) < 8 * HEADER_SIZE <= SlotCount(pixelIndex + 4) ==>
      pixelIndex + 4 == HEADER_END_INDEX
  {
    var q := pixelIndex / 4;
    assert pixelIndex == 4 * q && SlotCount(pixelIndex) == 3 * q;
    assert pixelIndex + 4 == 4 * (q + 1) && SlotCount(pixelIndex + 4) == 3 * (q + 1);
  }

  /** The 32 header bytes the loop leaves, read from the bit stream `bits`
      of the buffer: byte `d` is assembled from slots `8 * d .. 8 * d + 7`
      when the buffer has them, and stays 0 otherwise (a byte cut short by
      the end of the buffer is dropped). */
  function HeaderRead(bits: seq<bv8>): (h: seq<bv8>)
    ensures |h| == HEADER_SIZE
  {
    seq(HEADER_SIZE, d requires 0 <= d < HEADER_SIZE =>
      if 8 * d + 8 <= |bits| then AssembleByte(bits, 8 * d, 8) else 0)
  }

  /** A byte buffer of `size` bytes, zero-initialised like a fresh
      `Uint8Array`, once the reader has stored its first `complete` bytes,
      byte `d` being assembled from `bits[8 * d .. 8 * d + 8]`. */
  function BytesSoFar(bits: seq<bv8>, size: nat, complete: nat): (a: seq<bv8>)
    requires 8 * Min(complete, size) <= |bits|
    ensures |a| == size
  {
    seq(size, d requires 0 <= d < size =>
      if d < complete then AssembleByte(bits, 8 * d, 8) else 0)
  }

  lemma BytesSoFarStep(bits: seq<bv8>, size: nat, complete: nat)
    requires complete < size && 8 * complete + 8 <= |bits|
    ensures BytesSoFar(bits, size, complete + 1) ==
      BytesSoFar(bits, size, complete)[complete := AssembleByte(bits, 8 * complete, 8)]
  {
  }

  /** When the loop stops, either all bytes are stored or the buffer ran
      out with `complete` bytes stored and no room for another. */
  lemma HeaderReadFinal(bits: seq<bv8>, complete: nat)
    requires complete <= HEADER_SIZE && 8 * complete <= |bits|
    requires complete < HEADER_SIZE ==> |bits| < 8 * complete + 8
    ensures BytesSoFar(bits, HEADER_SIZE, complete) == HeaderRead(bits)
  {
  }

  /** The state of a reader that assembles `bits` into the bytes of
      `buffer`, LSB first: `complete` bytes are stored, and the partial byte
      holds the next `bitIndex` bits. */
  ghost predicate Collecting(bits: seq<bv8>, buffer: seq<bv8>, complete: nat, bitIndex: nat, partial: bv8)
  {
    && complete <= |buffer| && bitIndex < 8
    && (complete == |buffer| ==> bitIndex == 0)
    && 8 * complete + bitIndex <= |bits|
    && (complete < |buffer| ==> partial == AssembleByte(bits, 8 * complete, bitIndex))
    && buffer == BytesSoFar(bits, |buffer|, complete)
  }

  /** `buffer[complete] = b` once a byte is complete. */
  method StoreByte(ghost bits: seq<bv8>, buffer: array<bv8>, complete: nat, b: bv8)
    requires complete < buffer.Length && 8 * complete + 8 <= |bits|
    requires buffer[..] == BytesSoFar(bits, buffer.Length, complete)
    requires b == AssembleByte(bits, 8 * complete, 8)
    modifies buffer
    ensures buffer[..] == BytesSoFar(bits, buffer.Length, complete + 1)
  {
    ghost var before := buffer[..];
    BytesSoFarStep(bits, buffer.Length, complete);
    buffer[complete] := b;
    assert buffer[..] == before[complete := b];
  }

  /** The step both readers take per bit: `currentByte |= bit << bitIndex`,
      and once the byte has eight bits it is stored and a new one begun
      (logic.js:645-653 for the header, 692-702 for the payload). */
  method CollectBit(ghost bits: seq<bv8>, buffer: array<bv8>, complete0: nat, bitIndex0: nat,
                    partial0: bv8, bit: bv8)
    returns (complete: nat, bitIndex: nat, partial: bv8)
    requires Collecting(bits, buffer[..], complete0, bitIndex0, partial0)
    requires complete0 < buffer.Length && 8 * complete0 + bitIndex0 < |bits|
    requires bit == bits[8 * complete0 + bitIndex0]
    modifies buffer
    ensures Collecting(bits, buffer[..], complete, bitIndex, partial)
    ensures 8 * complete + bitIndex == 8 * complete0 + bitIndex0 + 1
  {
    AssembleByteNext(bits, 8 * complete0, bitIndex0, partial0, bit);
    complete, bitIndex := complete0, bitIndex0 + 1;
    partial := partial0 | ShiftLeft(bit, bitIndex0);
    if bitIndex >= 8 {
      StoreByte(bits, buffer, complete, partial);
      complete := complete + 1;
      bitIndex := 0;
      partial := 0;
    }
  }

  /** One pass of the channel loop of the header reader over the pixel at
      `pixelIndex` (logic.js:643-654). */
  method ReadHeaderPixel(pixels: array<bv8>, ghost bits: seq<bv8>, pixelIndex: nat, h: array<bv8>,
                         headerIndex0: nat, bitIndex0: nat, currentHeaderByte0: bv8)
    returns (headerIndex: nat, bitIndex: nat, currentHeaderByte: bv8)
    requires pixels.Length % 4 == 0 && bits == SlotBits(pixels[..])
    requires pixelIndex % 4 == 0 && pixelIndex < pixels.Length
    requires h != pixels && h.Length == HEADER_SIZE
    requires Collecting(bits, h[..], headerIndex0, bitIndex0, currentHeaderByte0)
    requires headerIndex0 < HEADER_SIZE && 8 * headerIndex0 + bitIndex0 == SlotCount(pixelIndex)
    requires pixelIndex < HEADER_END_INDEX
    modifies h
    ensures Collecting(bits, h[..], headerIndex, bitIndex, currentHeaderByte)
    ensures pixelIndex + 4 <= pixels.Length
    ensures headerIndex == HEADER_SIZE ==> pixelIndex + 4 == HEADER_END_INDEX
    ensures headerIndex < HEADER_SIZE ==>
      8 * headerIndex + bitIndex == SlotCount(pixelIndex + 4) && pixelIndex + 4 < HEADER_END_INDEX
  {
    headerIndex, bitIndex, currentHeaderByte := headerIndex0, bitIndex0, currentHeaderByte0;
    var j := 0;
    while j < 3 && headerIndex < HEADER_SIZE
      invariant 0 <= j <= 3
      invariant Collecting(bits, h[..], headerIndex, bitIndex, currentHeaderByte)
      invariant 8 * headerIndex + bitIndex == SlotCount(pixelIndex) + j
    {
      SlotOfPixelChannel(pixelIndex, j);
      SlotBitsAt(pixels[..], pixelIndex + j);
      var bit := pixels[pixelIndex + j] & 1;
      headerIndex, bitIndex, currentHeaderByte :=
        CollectBit(bits, h, headerIndex, bitIndex, currentHeaderByte, bit);
      j := j + 1;
    }
    SlotCountStep(pixelIndex);
    NextPixelInBounds(pixelIndex, pixels.Length);
    HeaderEndIndexAt(pixelIndex);
    HeaderEndIndexAt(pixelIndex + 4);
  }

  /** The header loop of `extractHiddenFile`; it also returns the
      `pixelIndex` the payload reader starts from. */
  method ReadHeader(pixels: array<bv8>) returns (header: seq<bv8>, pixelIndex: nat)
    requires pixels.Length % 4 == 0
    ensures header == HeaderRead(SlotBits(pixels[..]))
    ensures pixelIndex == Min(HEADER_END_INDEX, pixels.Length)
  {
    ghost var bits := SlotBits(pixels[..]);
    var h := new bv8[HEADER_SIZE](_ => 0);
    var headerIndex: nat, bitIndex: nat, currentHeaderByte: bv8 := 0, 0, 0;
    assert h[..] == BytesSoFar(bits, HEADER_SIZE, 0);
    pixelIndex := 0;
    while pixelIndex < pixels.Length && headerIndex < HEADER_SIZE
      invariant pixelIndex % 4 == 0 && pixelIndex <= pixels.Length
      invariant bits == SlotBits(pixels[..])
      invariant Collecting(bits, h[..], headerIndex, bitIndex, currentHeaderByte)
      invariant headerIndex == HEADER_SIZE ==> pixelIndex == HEADER_END_INDEX
      invariant headerIndex < HEADER_SIZE ==>
        8 * headerIndex + bitIndex == SlotCount(pixelIndex) && pixelIndex < HEADER_END_INDEX
    {
      headerIndex, bitIndex, currentHeaderByte :=
        ReadHeaderPixel(pixels, bits, pixelIndex, h, headerIndex, bitIndex, currentHeaderByte);
      pixelIndex := pixelIndex + 4;
    }
    HeaderReadFinal(bits, headerIndex);
    header := h[..];
  }

  /** The payload bits the reader takes. It starts at slot `start`, and each
      re-run of `processBits` starts again from that same slot with the
      partial byte kept, so the bits are `bits[start..]` over and over,
      cut to `n` (logic.js:688-717). */
  function Reread(bits: seq<bv8>, start: nat, n: nat): (w: seq<bv8>)
    requires start < |bits|
    ensures |w| == n
    decreases n
  {
    var pass := bits[start..];
    if n <= |pass| then pass[..n] else pass + Reread(bits, start, n - |pass|)
  }

  /** The `fileSize` bytes the payload reader leaves in `fileData`. */
  function PayloadAsWritten(bits: seq<bv8>, start: nat, fileSize: nat): (p: seq<bv8>)
    requires start < |bits|
    ensures |p| == fileSize
  {
    BytesSoFar(Reread(bits, start, 8 * fileSize), fileSize, fileSize)
  }

  /** `count` bits are a whole number of passes over `bits[start..]`. */
  ghost predicate PassBoundary(bits: seq<bv8>, start: nat, count: nat)
    decreases count
  {
    count == 0 ||
    (start < |bits| && count >= |bits| - start && PassBoundary(bits, start, count - (|bits| - start)))
  }

  /** Bit `r` of every pass is slot `start + r`. */
  lemma {:induction false} RereadAt(bits: seq<bv8>, start: nat, n: nat, boundary: nat, r: nat)
    requires start + r < |bits| && boundary + r < n
    requires PassBoundary(bits, start, boundary)
    ensures Reread(bits, start, n)[boundary + r] == bits[start + r]
    decreases boundary
  {
    var m := |bits| - start;
    if boundary > 0 {
      assert n > m;
      RereadAt(bits, start, n - m, boundary - m, r);
    }
  }

  /** The variables `processBits` shares with `extractHiddenFile` through its
      closure: the output buffer, the partial byte and the two bit counters
      it keeps across re-runs. */
  class PayloadReader {
    const pixels: array<bv8>
    const pixelIndex: nat
    const fileSize: nat
    const fileData: array<bv8>
    /** The image as it was when the reader was set up, and its bit stream;
        the reader never writes to the image. */
    ghost const image: seq<bv8>
    ghost const bits: seq<bv8>
    var dataIndex: nat
    var currentByte: bv8
    var bitsCollected: nat
    var bitsProcessed: nat

    /** The first slot every pass reads. */
    function Start(): nat
    {
      SlotCount(pixelIndex)
    }

    /** The number of slots one pass reads when it does not finish early. */
    ghost function PassLength(): nat
    {
      if Start() < |bits| then |bits| - Start() else 0
    }

    /** The bits the reader assembles into the payload, in reading order
        (all zero when there is no slot to read). */
    ghost const stream: seq<bv8>

    /** `stream` is the re-read sequence of slots from `Start()` on. */
    ghost predicate StreamIsReread()
    {
      && |stream| == 8 * fileSize
      && (Start() < |bits| ==> stream == Reread(bits, Start(), 8 * fileSize))
    }

    /** What the reader's constants say about each other. */
    ghost predicate Shape()
    {
      && |image| == pixels.Length && |image| % 4 == 0 && bits == SlotBits(image)
      && pixelIndex % 4 == 0
      && fileData != pixels && fileData.Length == fileSize
      && |stream| == 8 * fileSize
    }

    ghost predicate Valid()
      reads this, pixels, fileData
    {
      && Shape()
      && (forall i :: 0 <= i < pixels.Length ==> pixels[i] == image[i])
      && Collecting(stream, fileData[..], dataIndex, bitsCollected, currentByte)
      && bitsProcessed == 8 * dataIndex + bitsCollected
      && (PassLength() == 0 ==> bitsProcessed == 0)
    }

    /** Slot `k` belongs to the pass that began after `boundary` bits. */
    ghost predicate InPass(k: nat, boundary: nat)
    {
      Start() <= k < |bits| && PassBoundary(bits, Start(), boundary)
    }

    /** The state `extractHiddenFile` sets up before the first run. */
    constructor (pixels: array<bv8>, pixelIndex: nat, fileSize: nat)
      requires pixels.Length % 4 == 0 && pixelIndex % 4 == 0
      ensures Valid() && StreamIsReread() && fresh(fileData)
      ensures this.pixels == pixels && this.pixelIndex == pixelIndex && this.fileSize == fileSize
      ensures image == pixels[..] && bitsProcessed == 0
    {
      this.pixels := pixels;
      this.pixelIndex := pixelIndex;
      this.fileSize := fileSize;
      fileData := new bv8[fileSize](_ => 0);
      image := pixels[..];
      bits := SlotBits(pixels[..]);
      stream := if SlotCount(pixelIndex) < SlotCount(pixels.Length)
        then Reread(SlotBits(pixels[..]), SlotCount(pixelIndex), 8 * fileSize)
        else Zeros(8 * fileSize);
      dataIndex, currentByte, bitsCollected, bitsProcessed := 0, 0, 0, 0;
      new;
      assert fileData[..] == BytesSoFar(stream, fileSize, 0);
    }

    /** The slot the reader is at holds the next bit of `stream`. */
    lemma StreamAt(index: nat, k: nat, boundary: nat)
      requires Valid() && StreamIsReread() && dataIndex < fileSize
      requires index < pixels.Length && IsColorEntry(index) && SlotOf(index) == k
      requires InPass(k, boundary) && bitsProcessed == boundary + (k - Start())
      ensures stream[bitsProcessed] == pixels[index] & 1
    {
      SlotBitsAt(image, index);
      RereadAt(bits, Start(), 8 * fileSize, boundary, SlotOf(index) - Start());
    }

    /** One step of the inner loop of `processBits`: the low bit of entry
        `index` joins the partial byte, which is stored once it has eight
        bits (logic.js:690-702). */
    method ReadBit(index: nat, ghost k: nat, ghost boundary: nat)
      requires Valid() && StreamIsReread() && dataIndex < fileSize
      requires index < pixels.Length && IsColorEntry(index) && SlotOf(index) == k
      requires InPass(k, boundary) && bitsProcessed == boundary + (k - Start())
      modifies this`dataIndex, this`currentByte, this`bitsCollected, this`bitsProcessed, fileData
      ensures Valid()
      ensures bitsProcessed == old(bitsProcessed) + 1
    {
      StreamAt(index, k, boundary);
      var bit := pixels[index] & 1;
      dataIndex, bitsCollected, currentByte :=
        CollectBit(stream, fileData, dataIndex, bitsCollected, currentByte, bit);
      bitsProcessed := bitsProcessed + 1;
    }

    /** The channel loop of `processBits` over the pixel at `i`
        (logic.js:689-705). */
    method ReadPixel(i: nat, ghost boundary: nat)
      requires Valid() && StreamIsReread() && dataIndex < fileSize
      requires i % 4 == 0 && i < pixels.Length && InPass(SlotCount(i), boundary)
      requires bitsProcessed == boundary + (SlotCount(i) - Start())
      modifies this`dataIndex, this`currentByte, this`bitsCollected, this`bitsProcessed, fileData
      ensures Valid()
      ensures bitsProcessed == Min(8 * fileSize, old(bitsProcessed) + 3)
    {
      ghost var p0 := bitsProcessed;
      SlotCountBelow(i, pixels.Length);
      assert SlotCount(i) + 3 <= |bits|;
      var j := 0;
      while j < 3 && dataIndex < fileSize
        invariant 0 <= j <= 3 && Valid()
        invariant bitsProcessed == Min(8 * fileSize, p0 + j)
      {
        SlotOfPixelChannel(i, j);
        assert bitsProcessed == p0 + j;
        ReadBit(i + j, SlotCount(i) + j, boundary);
        j := j + 1;
      }
    }

    /** The state of a run of `processBits` that has reached the pixel at
        `i`, whose first slot is `slot`, having started with `p0` bits
        read. Contracts compare it with `true`, so that it is checked as one
        fact instead of conjunct by conjunct. */
    ghost predicate Scanning(i: nat, slot: nat, p0: nat)
      reads this, pixels, fileData
    {
      && Valid() && StreamIsReread()
      && i % 4 == 0 && pixelIndex <= i
      && (pixelIndex < pixels.Length ==> i <= pixels.Length)
      && slot == SlotCount(i) && Start() <= slot
      && bitsProcessed == Min(8 * fileSize, p0 + (slot - Start()))
      && (dataIndex < fileSize ==> PassBoundary(bits, Start(), p0))
    }

    lemma ScanStart()
      requires Valid() && StreamIsReread()
      requires dataIndex < fileSize ==> PassBoundary(bits, Start(), bitsProcessed)
      ensures Scanning(pixelIndex, Start(), bitsProcessed) == true
    {
    }

    /** Before the pixel at `i` the run is exactly at its first slot. */
    lemma ScanAt(i: nat, slot: nat, p0: nat)
      requires Scanning(i, slot, p0) == true && i < pixels.Length && dataIndex < fileSize
      ensures InPass(SlotCount(i), p0) && bitsProcessed == p0 + (SlotCount(i) - Start())
    {
      SlotCountBelow(i, pixels.Length);
    }

    /** Reading the three channels of the pixel at `i` moves the run on to
        the next pixel. */
    lemma ScanStep(i: nat, slot: nat, p0: nat, b0: nat)
      requires Valid() && StreamIsReread() && i % 4 == 0 && pixelIndex <= i < pixels.Length
      requires slot == SlotCount(i) && Start() <= slot && b0 == p0 + (slot - Start())
      requires PassBoundary(bits, Start(), p0)
      requires bitsProcessed == Min(8 * fileSize, b0 + 3)
      ensures Scanning(i + 4, slot + 3, p0) == true
    {
      SlotCountBelow(i, pixels.Length);
      SlotCountStep(i);
    }

    /** When the run stops, it has read one pass, or less if the payload
        completed first. */
    lemma ScanDone(i: nat, slot: nat, p0: nat)
      requires Scanning(i, slot, p0) == true && !(i < pixels.Length && dataIndex < fileSize)
      ensures dataIndex < fileSize ==> PassBoundary(bits, Start(), bitsProcessed)
      ensures bitsProcessed == Min(8 * fileSize, p0 + PassLength())
      ensures dataIndex < fileSize <==> bitsProcessed < 8 * fileSize
    {
      if dataIndex < fileSize && Start() < |bits| {
        assert slot == |bits| && bitsProcessed == p0 + PassLength();
      }
    }

    /** The body of the pixel loop of `processBits`: the pixel at `i` is
        read and the run moves on to the next one. */
    method ScanPixel(i: nat, ghost slot: nat, ghost p0: nat)
      requires Scanning(i, slot, p0) == true && i < pixels.Length && dataIndex < fileSize
      modifies this`dataIndex, this`currentByte, this`bitsCollected, this`bitsProcessed, fileData
      ensures Scanning(i + 4, slot + 3, p0) == true
    {
      ScanAt(i, slot, p0);
      ghost var b0 := bitsProcessed;
      ReadPixel(i, p0);
      ScanStep(i, slot, p0, b0);
    }

    /** One run of `processBits` from `pixelIndex`: it reads until the
        payload is complete or the image is exhausted, and reports whether
        it schedules another run (logic.js:688-718). A run that does not
        finish reads exactly one pass of `PassLength()` slots. */
    method ProcessBits() returns (more: bool)
      requires Valid() && StreamIsReread()
      requires dataIndex < fileSize ==> PassBoundary(bits, Start(), bitsProcessed)
      modifies this`dataIndex, this`currentByte, this`bitsCollected, this`bitsProcessed, fileData
      ensures Valid()
      ensures dataIndex < fileSize ==> PassBoundary(bits, Start(), bitsProcessed)
      ensures bitsProcessed == Min(8 * fileSize, old(bitsProcessed) + PassLength())
      ensures more <==> dataIndex < fileSize
    {
      ghost var p0 := bitsProcessed;
      var i := pixelIndex;
      ghost var slot := Start();
      ScanStart();
      while i < pixels.Length && dataIndex < fileSize
        invariant Scanning(i, slot, p0) == true
        decreases pixels.Length - i
      {
        ScanPixel(i, slot, p0);
        i, slot := i + 4, slot + 3;
      }
      ScanDone(i, slot, p0);
      more := dataIndex < fileSize && bitsProcessed < 8 * fileSize;
    }
  }

  /** What `extractHiddenFile` settles with, as written: the header read
      from the first 256 slots, then, when it is accepted, the payload read
      from the pixel after the header's last one (wrapping round while bits
      are missing), then the ZIP validation. With no slot after the header,
      the reader re-schedules itself forever. */
  function ExtractAsWritten(pix: seq<bv8>): (r: Result<seq<bv8>, DecodeError>)
    requires |pix| % 4 == 0
    ensures r.Failure? && r.error.BadHeader? <==> ParseHeader(HeaderRead(SlotBits(pix))).Failure?
    ensures r.Success? ==> |r.value| >= 4 && HasZipSignature(r.value)
  {
    var bits := SlotBits(pix);
    match ParseHeader(HeaderRead(bits))
    case Failure(e) => Failure(BadHeader(e))
    case Success(fileSize) =>
      var start := SlotCount(Min(HEADER_END_INDEX, |pix|));
      if |bits| <= start then Failure(NeverCompletes)
      else
        match ValidateAndCompleteExtraction(PayloadAsWritten(bits, start, fileSize))
        case Failure(e) => Failure(BadArchive(e))
        case Success(data) => Success(data)
  }

  /** `extractHiddenFile`: the header loop, the header check, the runs of
      `processBits` (each re-run is one more turn of the loop here; a run
      that reads nothing and still re-schedules is reported as
      `NeverCompletes`), then `validateAndCompleteExtraction`. */
  method ExtractHiddenFile(pixels: array<bv8>) returns (r: Result<seq<bv8>, DecodeError>)
    requires pixels.Length % 4 == 0
    ensures r == ExtractAsWritten(pixels[..])
  {
    ghost var pix := pixels[..];
    var header, pixelIndex := ReadHeader(pixels);
    var parsed := ParseHeader(header);
    if parsed.Failure? {
      return Failure(BadHeader(parsed.error));
    }
    var fileSize := parsed.value;
    var reader := new PayloadReader(pixels, pixelIndex, fileSize);
    assert reader.image == pix && reader.Start() == SlotCount(Min(HEADER_END_INDEX, |pix|));
    var more := true;
    while more
      invariant fresh(reader.fileData) && reader.Valid() && reader.StreamIsReread()
      invariant reader.dataIndex < fileSize ==>
        PassBoundary(reader.bits, reader.Start(), reader.bitsProcessed)
      invariant !more ==> reader.dataIndex == fileSize
      decreases 8 * fileSize - reader.bitsProcessed, if more then 1 else 0
    {
      var before := reader.bitsProcessed;
      more := reader.ProcessBits();
      if more && reader.bitsProcessed == before {
        assert reader.PassLength() == 0;
        assert pixels[..] == pix;
        return Failure(NeverCompletes);
      }
    }
    assert reader.PassLength() > 0;
    var data := reader.fileData[..];
    assert data == PayloadAsWritten(reader.bits, reader.Start(), fileSize);
    assert pixels[..] == pix;
    match ValidateAndCompleteExtraction(data)
    case Failure(e) => r := Failure(BadArchive(e));
    case Success(d) => r := Success(d);
  }

  /** A buffer the whole stream was written into gives back the stream's
      first 32 bytes as its header. */
  lemma HeaderReadOfEncoded(orig: seq<bv8>, stream: seq<bv8>)
    requires |orig| % 4 == 0 && |stream| >= HEADER_SIZE
    requires 8 * HEADER_SIZE <= SlotCount(|orig|)
    ensures HeaderRead(SlotBits(Embedded(orig, stream))) == stream[..HEADER_SIZE]
  {
    var bits := SlotBits(Embedded(orig, stream));
    forall d | 0 <= d < HEADER_SIZE
      ensures HeaderRead(bits)[d] == stream[d]
    {
      ReadBackByte(orig, stream, d);
    }
  }

  /** Each re-run reads the same slots again: bit `b + m` of the payload
      stream, `m` being the slots left after `start`, repeats bit `b`
      (logic.js:712-714 re-schedules without moving `pixelIndex`). */
  lemma {:induction false} RereadRevisits(bits: seq<bv8>, start: nat, n: nat, b: nat)
    requires start < |bits| && b + (|bits| - start) < n
    ensures Reread(bits, start, n)[b + (|bits| - start)] == Reread(bits, start, n)[b]
    decreases b
  {
    var m := |bits| - start;
    var pass := bits[start..];
    assert Reread(bits, start, n) == pass + Reread(bits, start, n - m);
    if b < m {
      if n - m <= m {
        assert Reread(bits, start, n - m) == pass[..n - m];
      } else {
        assert Reread(bits, start, n - m) == pass + Reread(bits, start, n - m - m);
      }
    } else {
      RereadRevisits(bits, start, n - m, b - m);
    }
  }

  /** A buffer with no pixel after the header and a header that passes the
      check: the reader re-schedules itself without ever reading a bit. */
  lemma NoSlotAfterHeader(pix: seq<bv8>)
    requires |pix| % 4 == 0 && |pix| <= HEADER_END_INDEX
    requires ParseHeader(HeaderRead(SlotBits(pix))).Success?
    ensures ExtractAsWritten(pix) == Failure(NeverCompletes)
  {
  }

  /** Such buffers exist: 86 pixels carrying a header for any size in
      1..MAX_FILE_SIZE (logic.js:712-714 then re-runs forever). */
  lemma TinyImageNeverCompletes(orig: seq<bv8>, fileSize: nat)
    requires |orig| == HEADER_END_INDEX && 0 < fileSize <= MAX_FILE_SIZE
    ensures ExtractAsWritten(Embedded(orig, BuildHeader(fileSize))) == Failure(NeverCompletes)
  {
    HeaderEndIndexValue();
    HeaderReadOfEncoded(orig, BuildHeader(fileSize));
    assert BuildHeader(fileSize)[..HEADER_SIZE] == BuildHeader(fileSize);
    HeaderRoundTrip(fileSize);
    NoSlotAfterHeader(Embedded(orig, BuildHeader(fileSize)));
  }

  /** Within the first pass, payload bit `r` is slot `start + r`. */
  lemma FirstPassAt(bits: seq<bv8>, start: nat, n: nat, r: nat)
    requires start + r < |bits| && r < n
    ensures Reread(bits, start, n)[r] == bits[start + r]
  {
    RereadAt(bits, start, n, 0, r);
  }

  /** Stream bit `8 * (HEADER_SIZE + e) + s` is bit `s` of payload byte `e`. */
  lemma PayloadStreamBit(header: seq<bv8>, p: seq<bv8>, e: nat, s: nat)
    requires |header| == HEADER_SIZE && e < |p| && s < 8
    ensures 8 * (HEADER_SIZE + e) + s < 8 * |header + p|
    ensures StreamBit(header + p, 8 * (HEADER_SIZE + e) + s) == BitAt(p[e], s)
  {
    var k := 8 * (HEADER_SIZE + e) + s;
    assert k / 8 == HEADER_SIZE + e && k % 8 == s;
  }

  /** Payload bit `8 * d + t` read from slot 258 on is stream bit
      `256 + 8 * d + t + 2`: bit `t + 2` of payload byte `d`, or for the top
      two bits, bit `t - 6` of byte `d + 1`. */
  lemma AsWrittenPayloadBit(orig: seq<bv8>, header: seq<bv8>, p: seq<bv8>, d: nat, t: nat)
    requires |orig| % 4 == 0 && |header| == HEADER_SIZE
    requires 8 * (HEADER_SIZE + |p|) <= SlotCount(|orig|)
    requires d + 1 < |p| && t < 8
    ensures SlotCount(HEADER_END_INDEX) + 8 * d + t < |SlotBits(Embedded(orig, header + p))|
    ensures SlotBits(Embedded(orig, header + p))[SlotCount(HEADER_END_INDEX) + 8 * d + t]
      == BitAt((p[d] >> 2) | (p[d + 1] << 6), t)
  {
    HeaderEndIndexValue();
    var e := if t < 6 then d else d + 1;
    var s := if t < 6 then t + 2 else t - 6;
    var k := 8 * (HEADER_SIZE + e) + s;
    assert SlotCount(HEADER_END_INDEX) + 8 * d + t == k;
    PayloadStreamBit(header, p, e, s);
    EmbeddedSlotBits(orig, header + p, k);
    assert BitAt(p[e], s) == BitAt((p[d] >> 2) | (p[d + 1] << 6), t) by {
      SplicedBit(p[d], p[d + 1], t);
    }
  }

  /** `PayloadAsWritten` stores byte `d` assembled from bits `8 * d ..` of
      the re-read stream. */
  lemma PayloadAsWrittenAt(bits: seq<bv8>, start: nat, fileSize: nat, d: nat)
    requires start < |bits| && d < fileSize
    ensures PayloadAsWritten(bits, start, fileSize)[d] == AssembleByte(Reread(bits, start, 8 * fileSize), 8 * d, 8)
  {
  }

  /** On a buffer the encoder wrote, the as-written reader assembles byte
      `d` of the file from bits 2..7 of payload byte `d` and bits 0..1 of
      byte `d + 1`: it starts two slots after the payload's first slot. */
  lemma AsWrittenPayloadByte(orig: seq<bv8>, header: seq<bv8>, p: seq<bv8>, d: nat)
    requires |orig| % 4 == 0 && |header| == HEADER_SIZE
    requires 8 * (HEADER_SIZE + |p|) <= SlotCount(|orig|)
    requires d + 1 < |p|
    ensures SlotCount(HEADER_END_INDEX) < |SlotBits(Embedded(orig, header + p))|
    ensures PayloadAsWritten(SlotBits(Embedded(orig, header + p)), SlotCount(HEADER_END_INDEX), |p|)[d]
      == (p[d] >> 2) | (p[d + 1] << 6)
  {
    var bits := SlotBits(Embedded(orig, header + p));
    var start := SlotCount(HEADER_END_INDEX);
    AsWrittenPayloadBit(orig, header, p, d, 0);
    var w := Reread(bits, start, 8 * |p|);
    var z := (p[d] >> 2) | (p[d + 1] << 6);
    var base := 8 * d;
    forall t | 0 <= t < 8
      ensures w[base + t] == BitAt(z, t)
    {
      AsWrittenPayloadBit(orig, header, p, d, t);
      FirstPassAt(bits, start, 8 * |p|, base + t);
    }
    AssembleByteOf(w, base, z, 8);
    LowBitsWhole(z);
    PayloadAsWrittenAt(bits, start, |p|, d);
  }
}
