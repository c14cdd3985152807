# Rayzip LSB engine in Dafny

A model of the steganography engine of Rayzip (`logic.js`). The engine hides
a ZIP archive in the low bits of the R, G and B channels of an RGBA pixel
buffer, and recovers it from such a buffer.

- **Encoding.** The engine checks the capacity and builds a 32-byte header:
  "RAYZIP", then the length in little-endian, then zeros. It then writes the
  header and the archive into the buffer one bit per colour channel. The
  `processChunk` writer handles 10000 array entries per call and carries its
  cursor from one call to the next.
- **Decoding.** A header loop reads 32 bytes, which are then checked. The
  `processBits` reader fills the payload, re-running until it is full. The
  result is validated by its leading ZIP signature and repaired if needed.

Modules, one per part of the engine:

- `Config`: the `CONFIG` constants.
- `Bits`: byte and bit helpers.
- `Header`: the header layout and its check, including JavaScript's signed
  32-bit shifts.
- `Capacity`: the size guard.
- `Layout`: where stream bit `k` lives (entry `4 * (k / 3) + k % 3`), and
  the specification functions of both directions. `Embedded` is the buffer
  after writing. `SlotBits` is the bit stream a buffer carries.
  `AssembleByte` is LSB-first byte assembly.
- `Encoder`: the header builder, and the writer as a class. The class
  holds the cursor fields that `processChunk`'s closure shares across
  chunks.
- `ZipCheck`: the signature validator and `attemptAutoCorrection`.
- `Decoder`: the reader as written. The header loop is a method.
  `processBits` is the class `PayloadReader`, with the closure's counters
  as fields. Each timer re-run is one more turn of a loop in
  `ExtractHiddenFile`. `ExtractAsWritten` is the function
  `ExtractHiddenFile` is proved equal to.
- `Continuous`: the reader the writer's layout calls for, which does read
  on from slot 256. It comes with the round trip proved for it, and a
  concrete payload where the two readers differ.

Pixel buffers are `array<bv8>` whose length is a multiple of 4; the image
decoder guarantees that. JavaScript's bit operators on bytes become `bv8`
operators. JavaScript's `ToInt32` is written out (`Header.ToInt32`), and
`/` and `%` by positive divisors match the arithmetic shift and mask.

Where the code and its comments disagree, the model follows the code:

- **The read does not continue where the header ended.** The comments at
  logic.js:1, 613 and 721 claim it does. The header loop ends inside pixel
  85 and still steps to pixel 86 (logic.js:643), so the payload is read
  from stream slot 258. The writer put it at slot 256. See "## Findings".
- **The capacity difference is not clamped.** Images too small for the
  header give a negative `availableBytes - 32`. Such an image then refuses
  every payload (`Capacity.FitsCapacity`).
- **The encoder accepts an empty archive**, while the decoder rejects the
  declared size 0 (logic.js:673).
- **The length field is read with signed shifts.** The accepted sizes are
  still exactly the unsigned lengths 1..MAX_FILE_SIZE
  (`Header.ParseHeader`), because that maximum is below 2^31.
- **The decoder applies no minimum image size.** The 100-pixel minimum
  check applies to the cover image only (logic.js:292).

## Model

| member | source | states |
|---|---|---|
| Config.SignatureBytesAreCharCodes | logic.js:77-79 | the six signature bytes are the character codes of "RAYZIP" |
| Capacity.FitsCapacity | logic.js:436-443 | the guard `zipLength > floor(3 * pixelCount / 8) - 32` fails exactly when all 8 * (32 + zipLength) stream bits have a colour channel |
| Bits.SetLowBit | logic.js:516 | `(p & 0xfe) \| bit` keeps the upper seven bits of `p` and has `bit` as its low bit |
| Bits.LowBitsWhole | logic.js:645-650 | OR-ing bits 0..7 of a byte, each shifted to its own place, gives the byte back |
| Bits.SetAt | logic.js:486-488 | `target.set(source, offset)` places `source` at `offset`; every other entry keeps its value |
| Bits.Zeros | logic.js:469 | a fresh `Uint8Array` is all zeros |
| Bits.SplicedBit | logic.js:643-644 | a byte assembled two bits late from bytes x, y has the bits of `x >> 2 \| y << 6` |
| Header.ToInt32 | logic.js:481-484 | ToInt32 lies in the signed 32-bit range; it is the identity below 2^31 and subtracts 2^32 from 2^31 to 2^32 - 1 |
| Header.BuildHeader | logic.js:469-484 | the header has 32 bytes: "RAYZIP" in bytes 0..5, the length read back little-endian from bytes 6..9, zeros in bytes 10..31 |
| Header.LengthBytesRoundTrip | logic.js:481-484 | the little-endian reading of the four length bytes gives back every length up to 0xFFFFFFFF |
| Header.BaseDigits | logic.js:481-484 | a 32-bit value is the sum of its four base-256 digits times their place values |
| Header.SignedQuotientByte | logic.js:482-484 | `ToInt32(len) >> 8i` and `len >> 8i` have the same low byte for every length up to 0xFFFFFFFF |
| Header.JsShiftBytesAreLengthBytes | logic.js:481-484 | each `(zipLength >> 8i) & 0xff` computed with signed shifts is the unsigned length byte `i` |
| Header.ParseHeader | logic.js:661-675 | signature mismatch gives InvalidSignature exactly when bytes 0..5 are not "RAYZIP"; acceptance holds iff the signature matches and the unsigned length is in 1..MAX_FILE_SIZE, and then returns that length |
| Header.HeaderRoundTrip | logic.js:469-484 | the check accepts the header built for `len` iff `len` is in 1..MAX_FILE_SIZE and then returns `len`; otherwise it fails with InvalidDeclaredSize |
| Encoder.WriteSignature | logic.js:469-474 | the signature loop writes the six character codes and leaves bytes 6..31 as they were |
| Encoder.WriteLength | logic.js:481-484 | the four assignments set bytes 6..9 to the little-endian length bytes and leave every other byte unchanged |
| Encoder.JsLengthBytes | logic.js:481-484 | the four shifted bytes are the little-endian bytes of the length |
| Encoder.HeaderOfParts | logic.js:469-484 | signature, length bytes and 22 zeros in place make up exactly the built header |
| Encoder.MakeHeader | logic.js:469-484 | a length above 0xFFFFFFFF fails with FileTooLarge; otherwise the 32 bytes are the built header |
| Encoder.BuildStream | logic.js:469-488 | `dataToHide` is the header followed by the payload, or FileTooLarge |
| Encoder.Encoder.constructor | logic.js:491-493 | the cursor starts at bit 0 of byte 0, with the buffer unchanged |
| Encoder.Encoder.WriteBit | logic.js:515-525 | writing into the entry whose slot is the cursor's adds exactly one written bit; every entry is the original stamped with the first written bits |
| Encoder.Encoder.ProcessPixel | logic.js:512-526 | after one pixel the bits written are min(stream length, slots up to the next pixel) |
| Encoder.Encoder.ProcessChunk | logic.js:507-537 | one call covers entries up to `min(start + chunkSize, length)`; it leaves the cursor of a single pass up to that entry; it reschedules iff entries and stream bits remain |
| Encoder.Encoder.Run | logic.js:507-537 | for every chunk size that is a multiple of 4, the final buffer is all of `dataToHide` written over the original, and the cursor is that of one unbounded pass |
| Encoder.EncodeImageWithZip | logic.js:460-488 | for lengths up to 0xFFFFFFFF the buffer becomes the embedded header + payload; longer ones fail with the buffer unchanged |
| Encoder.EncodeFile | logic.js:436-443 | a payload over capacity fails with CapacityExceeded (available, required) and writes nothing; otherwise the whole stream is embedded |
| Layout.SlotOfPixelChannel | logic.js:511-512 | channel `j` of the pixel at `p` carries slot `3 * (p / 4) + j` |
| Layout.SlotBijection | logic.js:511-512 | stream slots and colour entries correspond one to one |
| Layout.SlotIndexInBounds | logic.js:511 | slot `k` lies inside the buffer iff `k < 3 * (length / 4)` |
| Layout.StampAdvance | logic.js:515-516 | writing bit `w` into its entry turns the `w`-bit buffer into the `w + 1`-bit buffer; no other entry changes |
| Layout.StampSaturates | logic.js:511 | once every slot is written, further stream bits change nothing |
| Layout.EmbeddedEntries | logic.js:511-526 | after writing, slot `k`'s entry keeps its upper seven bits and holds bit `k % 8` of stream byte `k / 8`; alpha entries and slots at or beyond `8 * |stream|` are unchanged |
| Layout.SlotOfInBounds | logic.js:511-512 | a colour entry's slot lies inside the buffer's slot range and maps back to that entry |
| Layout.SlotBitsAt | logic.js:645 | `pixels[index] & 1` is the buffer's stream bit `SlotOf(index)` |
| Layout.EmbeddedSlotBits | logic.js:645 | the reader's slot `k` of a written buffer is the writer's stream bit `k` |
| Layout.AssembleByteNext | logic.js:646 | `currentByte \|= bit << n` with the next bit extends the assembled byte by one bit |
| Layout.AssembleByteOf | logic.js:643-653 | assembling `n` bits that agree with bits 0..n-1 of a byte `z` LSB-first gives the low `n` bits of `z` |
| Layout.ReadBackByte | logic.js:643-653 | the eight slots the writer filled with stream byte `d` assemble back to exactly that byte |
| ZipCheck.ShiftCandidate | logic.js:825-830 | the shifted test array has `|data| + |offset|` bytes |
| ZipCheck.ShiftCandidateCheck | logic.js:822-836 | a positive offset never yields "PK" at byte 0; offset `-k` yields it iff bytes `k`, `k + 1` of the data are 0x50 0x4B; for `k <= |data|` the candidate is the data from byte `k` followed by `2k` zeros |
| ZipCheck.ContentLength | logic.js:772 | content length (up to the last non-zero byte) is at most the length |
| ZipCheck.ContentLengthPadded | logic.js:825-830 | zero padding does not change the content length |
| ZipCheck.ContentLengthDropped | logic.js:829 | dropping `k` bytes before a non-zero byte takes `k` off the content length |
| ZipCheck.AutoCorrection | logic.js:818-848 | every repair is longer than the input and starts with "PK"; a repair without a signature has less content; no repair only when byte 0 is 0x50 or there are at most 4 bytes |
| ZipCheck.ShiftedCopy | logic.js:825-830 | the array built for an offset is the shift candidate |
| ZipCheck.AttemptAutoCorrection | logic.js:818-848 | the loop over offsets -2..2 and the prepend repair return exactly `AutoCorrection` |
| ZipCheck.ValidateAndCompleteExtraction | logic.js:739-778 | fewer than 4 bytes gives TooSmall; data comes back unchanged iff it starts with one of the three signatures; any success carries a signature and is no shorter than the input; the recursion terminates |
| ZipCheck.PrependRecovers | logic.js:838-844 | data with byte 0 not 0x50 and no "PK" at offset 1 or 2 is accepted with "PK\x03\x04" prepended |
| ZipCheck.UnrepairableRejected | logic.js:764-776 | data that starts with 0x50 without a signature and offers no shift is rejected |
| Decoder.HeaderEndIndexValue | logic.js:643-644 | the header loop leaves `pixelIndex` at 344, whose first slot is 258 |
| Decoder.HeaderEndIndexAt | logic.js:643-644 | the loop stops in the pixel whose slots reach 256, and 344 is the pixel after it |
| Decoder.HeaderRead | logic.js:636-656 | the header has 32 bytes |
| Decoder.BytesSoFarStep | logic.js:650 | storing the next complete byte extends the buffer by exactly that byte |
| Decoder.HeaderReadFinal | logic.js:643 | when the loop stops (all bytes, or out of pixels), the buffer is the header read |
| Decoder.StoreByte | logic.js:650 | `buffer[complete] = currentByte` stores byte `complete` |
| Decoder.CollectBit | logic.js:645-653 | one bit step keeps the collecting invariant and advances the bit position by one |
| Decoder.ReadHeaderPixel | logic.js:644-654 | one pixel of the header loop advances the bit position to the next pixel's first slot, or ends exactly at pixel 344 |
| Decoder.ReadHeader | logic.js:636-656 | the loop yields `HeaderRead` of the buffer's bit stream and leaves `pixelIndex = min(344, length)` |
| Decoder.Reread | logic.js:688-714 | the re-read bit stream has exactly `n` bits |
| Decoder.PayloadAsWritten | logic.js:680-714 | the payload buffer has `fileSize` bytes |
| Decoder.RereadAt | logic.js:689-714 | bit `r` of every pass is slot `start + r` |
| Decoder.PayloadReader.constructor | logic.js:680-686 | the reader starts with nothing read and a zeroed buffer |
| Decoder.PayloadReader.StreamAt | logic.js:690-691 | the entry the reader is at holds the next stream bit |
| Decoder.PayloadReader.ReadBit | logic.js:691-700 | one bit joins the payload, keeping the reader's invariant |
| Decoder.PayloadReader.ReadPixel | logic.js:690-709 | one pixel reads min(3, bits still missing) bits |
| Decoder.PayloadReader.ScanStart | logic.js:689 | a run starts at the first slot of `pixelIndex` |
| Decoder.PayloadReader.ScanAt | logic.js:689 | before each pixel the run is at that pixel's first slot, within the current pass |
| Decoder.PayloadReader.ScanStep | logic.js:689 | reading a pixel moves the run to the next pixel |
| Decoder.PayloadReader.ScanPixel | logic.js:689-709 | one iteration of the pixel loop keeps the run's invariant and moves it to the next pixel |
| Decoder.PayloadReader.ScanDone | logic.js:689-712 | when a run stops it has read one full pass, or less if the payload completed; bits are missing iff the buffer is unfilled |
| Decoder.PayloadReader.ProcessBits | logic.js:688-718 | a run reads `PassLength()` more slots, capped at `8 * fileSize`; it reschedules iff the payload is incomplete |
| Decoder.ExtractAsWritten | logic.js:636-778 | BadHeader iff the header check fails; success carries a ZIP signature |
| Decoder.ExtractHiddenFile | logic.js:614-722 | the header loop, check, re-runs and validation give `ExtractAsWritten` of the buffer |
| Decoder.HeaderReadOfEncoded | logic.js:643-656 | the header loop recovers exactly the 32 header bytes the writer stored |
| Decoder.RereadRevisits | logic.js:712-714 | each re-run reads the same slots again; bit `b + m` repeats bit `b` |
| Decoder.NoSlotAfterHeader | logic.js:712-714 | an accepted header with no pixel after it makes the reader reschedule forever |
| Decoder.TinyImageNeverCompletes | logic.js:712-714 | every 86-pixel buffer carrying a valid header is such a case |
| Decoder.FirstPassAt | logic.js:689-691 | within the first pass, bit `r` of the re-read stream is slot `start + r` |
| Decoder.PayloadStreamBit | logic.js:486-488 | stream bit `8 * (32 + e) + s` of header + payload is bit `s` of payload byte `e` |
| Decoder.PayloadAsWrittenAt | logic.js:692-697 | payload byte `d` is assembled LSB-first from bits `8d .. 8d + 7` of the re-read stream |
| Decoder.AsWrittenPayloadBit | logic.js:643-644 | payload bit `8d + t` read from slot 258 is bit `t` of `p[d] >> 2 \| p[d+1] << 6` |
| Decoder.AsWrittenPayloadByte | logic.js:643-644 | on a written buffer, the reader's byte `d` is `p[d] >> 2 \| p[d+1] << 6`, not `p[d]` |
| Continuous.ContinuousPayload | logic.js:688-705 | payload bytes read from slot 256: fails with PayloadTruncated iff the buffer is too short, otherwise exactly `fileSize` bytes |
| Continuous.ExtractContinuous | logic.js:636-778 | BadHeader iff the header check fails; PayloadTruncated iff the header is accepted and the slots are too few; success carries a ZIP signature |
| Continuous.ContinuousPayloadOfEncoded | logic.js:688-705 | the continuous read of a written buffer gives back the payload |
| Continuous.EncodeThenExtract | logic.js:636-778 | for every archive the encoder accepts with size in 1..MAX_FILE_SIZE, extraction gives the validation of the archive itself |
| Continuous.EncodeThenExtractArchive | logic.js:745-764 | an archive that starts with a ZIP signature comes back unchanged |
| Continuous.SampleAsWritten | logic.js:643-644 | the reader as written assembles D4 D2 00 01 from "PK\x03\x04\x14" |
| Continuous.AsWrittenLosesSample | logic.js:838-844 | the reader as written does not return the five-byte archive |
| Continuous.ContinuityCounterexample | logic.js:721 | on every buffer of at least 100 pixels, the as-written reader loses the sample archive, which the continuous reader returns |

## Left out

- DOM and UI code, `FileReader`, `Image`, and canvas `getImageData`,
  `putImageData` and `toDataURL`. The pixel buffer and the archive bytes
  are inputs; the output image is the buffer.
- `setTimeout` and Promise plumbing. The chunks of `processChunk` are
  the loop of `Encoder.Run`, and the re-runs of `processBits` are the loop of
  `Decoder.ExtractHiddenFile`. Nothing runs concurrently.
- The chunk size is a parameter that must be a positive multiple of 4.
  `EncodeImageWithZip` passes 10000 (`Encoder.CHUNK_SIZE`).
- Progress reports, `pixelsProcessed` and `utils.formatFileSize`: they
  are display only.
- Error messages: errors are datatype values.
- `state.isProcessing`, `updateHexView`, `debounce`, and the ZIP `Blob` and
  download link.
- The `MIN_IMAGE_DIMENSION`, `SUPPORTED_*`, `PROGRESS_UPDATE_INTERVAL` and
  `ANIMATION_DELAY` constants: they belong to file selection and timing,
  not to the engine. The buffer length is any multiple of 4.
- `Decoder.ExtractHiddenFile` reports `NeverCompletes` where the source
  re-schedules `processBits` forever. That happens when a run reads
  nothing and still has bits to go.
- `Encoder.Encoder.WriteBit`, `ProcessPixel`, `ProcessChunk` and `Run`
  state the buffer through `Layout.Stamp` and `Layout.Embedded`, which
  describe the buffer as a value. The `array` still carries the in-place
  update.

## Findings

| source | as written | input that shows it | evidently intended | confidence | as-written member | corrected member |
|---|---|---|---|---|---|---|
| logic.js:643-644, 721 | the header loop breaks out of the channel loop inside pixel 85 and still runs `pixelIndex += 4`; `processBits` starts at pixel 86, stream slot 258 | any buffer of at least 100 pixels carrying the archive bytes 50 4B 03 04 14: the reader assembles D4 D2 00 01 ..., and the prepend repair returns nine bytes | the payload is read from slot 256, where the writer put it, giving back the archive | not executed | Decoder.AsWrittenPayloadByte, Continuous.ContinuityCounterexample | Continuous.ExtractContinuous, Continuous.EncodeThenExtract |
| logic.js:712-714 | a run that ends with bits missing re-schedules itself from the same `pixelIndex`, keeping the partial byte; it re-reads the same slots, and with no slot after the header it never ends | an 86-pixel buffer carrying a valid header: no bit is ever read and the reader reschedules forever | a buffer with too few slots for the declared size is rejected | not executed | Decoder.RereadRevisits, Decoder.TinyImageNeverCompletes | Continuous.ExtractContinuous (PayloadTruncated) |
