/** The engine's configuration constants (the `CONFIG` object of logic.js). */
module Config {

  /** ASCII signature at the start of every embedded header. */
  const HEADER_SIGNATURE: string := "RAYZIP"

  /** Size of the embedded header in bytes; its bits are the first 256 written. */
  const HEADER_SIZE: nat := 32

  /** Largest declared payload length the decoder accepts: 50 MiB. */
  const MAX_FILE_SIZE: nat := 50 * 1024 * 1024

  /** Largest payload length the header's 32-bit field can carry. */
  const UINT32_MAX: nat := 0xFFFF_FFFF

  /** The signature's characters as the bytes `charCodeAt` yields. */
  const SIGNATURE_BYTES: seq<bv8> := [0x52, 0x41, 0x59, 0x5A, 0x49, 0x50]

  lemma SignatureBytesAreCharCodes()
    ensures |SIGNATURE_BYTES| == |HEADER_SIGNATURE| == 6
    ensures forall i :: 0 <= i < 6 ==> SIGNATURE_BYTES[i] as int == HEADER_SIGNATURE[i] as int
  {
  }
}
