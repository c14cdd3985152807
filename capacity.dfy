/** The capacity check of encodeFile (logic.js:436-443): one bit in each of
    R, G and B per pixel, whole bytes only, minus the header. */
module Capacity {
  import opened Config

  /** `Math.floor(pixelCount * 3 / 8)` with `pixelCount = data.length / 4`. */
  function AvailableBytes(arrayLength: nat): nat
  {
    (3 * (arrayLength / 4)) / 8
  }

  /** The encoder's guard `zipLength > availableBytes - HEADER_SIZE` passes
      exactly when all 8 * (32 + zipLength) stream bits have a colour
      channel of their own; the difference may go negative for images too
      small to hold the header, which then refuse every payload. */
  function FitsCapacity(arrayLength: nat, zipLength: nat): (ok: bool)
    ensures ok <==> 8 * (HEADER_SIZE + zipLength) <= 3 * (arrayLength / 4)
  {
    !(zipLength > AvailableBytes(arrayLength) - HEADER_SIZE)
  }
}
