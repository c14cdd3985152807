/** The 32-byte embedding header: "RAYZIP" in bytes 0..5, the payload length
    little-endian in bytes 6..9, zeros in bytes 10..31 (logic.js:469-484),
    and the decoder's signature and length check (logic.js:660-675). */
module Header {
  import opened Bits
  import opened Config
  import opened Results

  /** Why the decoder rejects a header. */
  datatype HeaderError =
    | InvalidSignature
    | InvalidDeclaredSize(fileSize: int)

  /** Place value of byte `i` of a little-endian 32-bit field. */
  function BytePlace(i: nat): (p: nat)
    requires i < 4
    ensures p == [0x1, 0x100, 0x1_0000, 0x100_0000][i]
  {
    if i == 0 then 0x1 else if i == 1 then 0x100 else if i == 2 then 0x1_0000 else 0x100_0000
  }

  /** JavaScript's ToInt32, which every operand of `>>`, `<<` and `|` passes
      through: the two's-complement reading of `x` modulo 2^32. */
  function ToInt32(x: int): (r: int)
    ensures -0x8000_0000 <= r < 0x8000_0000
    ensures 0 <= x < 0x8000_0000 ==> r == x
    ensures 0x8000_0000 <= x < 0x1_0000_0000 ==> r == x - 0x1_0000_0000
  {
    var m := x % 0x1_0000_0000;
    if m < 0x8000_0000 then m else m - 0x1_0000_0000
  }

  /** JavaScript's `(x >> (8 * i)) & 0xff`: an arithmetic shift of
      ToInt32(x), then its low byte. For a positive divisor Dafny's `/`
      rounds towards minus infinity and `%` is never negative, which is what
      the arithmetic shift and the mask do to a negative 32-bit value. */
  function JsShiftByte(x: int, i: nat): bv8
    requires i < 4
  {
    LowByte(ToInt32(x) / BytePlace(i))
  }

  /** Unsigned little-endian reading of four bytes. */
  function LittleEndian32(b: seq<bv8>): (u: nat)
    requires |b| == 4
    ensures u <= UINT32_MAX
  {
    ByteValue(b[0]) + 0x100 * ByteValue(b[1]) + 0x1_0000 * ByteValue(b[2]) + 0x100_0000 * ByteValue(b[3])
  }

  /** The four little-endian bytes of a 32-bit length. */
  function LengthBytes(len: nat): (b: seq<bv8>)
    requires len <= UINT32_MAX
    ensures |b| == 4
  {
    [LowByte(len), LowByte(len / 0x100), LowByte(len / 0x1_0000), LowByte(len / 0x100_0000)]
  }

  /** The header the encoder builds for a payload of `len` bytes. */
  function BuildHeader(len: nat): (h: seq<bv8>)
    requires len <= UINT32_MAX
    ensures |h| == HEADER_SIZE
    ensures h[..6] == SIGNATURE_BYTES
    ensures LittleEndian32(h[6..10]) == len
    ensures forall i :: 10 <= i < HEADER_SIZE ==> h[i] == 0
  {
    var b := LengthBytes(len);
    assert LittleEndian32(b) == len by { LengthBytesRoundTrip(len); }
    var h := SIGNATURE_BYTES + b + Zeros(22);
    assert h[6..10] == b;
    h
  }

  lemma LengthBytesRoundTrip(len: nat)
    requires len <= UINT32_MAX
    ensures LittleEndian32(LengthBytes(len)) == len
  {
    var b := LengthBytes(len);
    var d0, d1, d2, d3 := len % 0x100, (len / 0x100) % 0x100, (len / 0x1_0000) % 0x100, (len / 0x100_0000) % 0x100;
    BaseDigits(len);
    ByteValueOfTruncation(d0);
    ByteValueOfTruncation(d1);
    ByteValueOfTruncation(d2);
    ByteValueOfTruncation(d3);
    assert ByteValue(b[0]) == len % 0x100 && ByteValue(b[1]) == (len / 0x100) % 0x100;
    assert ByteValue(b[2]) == (len / 0x1_0000) % 0x100 && ByteValue(b[3]) == (len / 0x100_0000) % 0x100;
  }

  /** A 32-bit value is the sum of its four base-256 digits at their places. */
  lemma BaseDigits(len: nat)
    requires len <= UINT32_MAX
    ensures len == len % 0x100 + 0x100 * ((len / 0x100) % 0x100)
      + 0x1_0000 * ((len / 0x1_0000) % 0x100) + 0x100_0000 * ((len / 0x100_0000) % 0x100)
  {
    var q1, q2, q3 := len / 0x100, len / 0x1_0000, len / 0x100_0000;
    assert len == len % 0x100 + 0x100 * q1;
    assert q2 == q1 / 0x100 && q1 == q1 % 0x100 + 0x100 * q2;
    assert q3 == q2 / 0x100 && q2 == q2 % 0x100 + 0x100 * q3;
    assert q3 < 0x100 && q3 % 0x100 == q3;
  }

  /** Bytes 6..9 as the encoder computes them, with JavaScript's signed
      shifts, are the unsigned little-endian bytes of any length that passed
      the `zipLength > 0xFFFFFFFF` guard (logic.js:477-484). */
  lemma JsShiftBytesAreLengthBytes(len: nat, i: nat)
    requires len <= UINT32_MAX
    requires i < 4
    ensures JsShiftByte(len, i) == LengthBytes(len)[i]
  {
    SignedQuotientByte(len, i);
    var q := ToInt32(len) / BytePlace(i);
    assert JsShiftByte(len, i) == (q % 256) as bv8;
    assert LengthBytes(len)[i] == ((len / BytePlace(i)) % 256) as bv8;
  }

  /** The quotient of ToInt32(len) by a byte place has the same low byte as
      that of `len`: at or above 2^31, ToInt32 takes 2^32 off, which takes
      a multiple of 256 off the quotient. */
  lemma SignedQuotientByte(len: nat, i: nat)
    requires len <= UINT32_MAX
    requires i < 4
    ensures (ToInt32(len) / BytePlace(i)) % 256 == (len / BytePlace(i)) % 256
  {
    var x := ToInt32(len);
    var k := if len < 0x8000_0000 then 0 else 1;
    assert x == len - 0x1_0000_0000 * k;
    if i == 0 {
      LowByteOffset(len, 0x100_0000 * k);
    } else if i == 1 {
      assert x / 0x100 == len / 0x100 - 0x100_0000 * k;
      LowByteOffset(len / 0x100, 0x1_0000 * k);
    } else if i == 2 {
      assert x / 0x1_0000 == len / 0x1_0000 - 0x1_0000 * k;
      LowByteOffset(len / 0x1_0000, 0x100 * k);
    } else {
      assert x / 0x100_0000 == len / 0x100_0000 - 0x100 * k;
      LowByteOffset(len / 0x100_0000, k);
    }
  }

  /** Taking a multiple of 256 off `a` leaves its low byte. */
  lemma LowByteOffset(a: int, k: int)
    ensures (a - 256 * k) % 256 == a % 256
  {
    var q, r := a / 256, a % 256;
    assert a - 256 * k == 256 * (q - k) + r;
  }

  /** The length field as the decoder reads it: header[6] | header[7] << 8 |
      header[8] << 16 | header[9] << 24 in JavaScript's signed 32-bit
      arithmetic (logic.js:667-671). The four shifted bytes occupy disjoint
      bits, so their OR is the two's-complement reading of their sum; a top
      byte of 0x80 or more makes it negative. */
  function DeclaredSize(h: seq<bv8>): int
    requires |h| == HEADER_SIZE
  {
    ToInt32(LittleEndian32(h[6..10]))
  }

  /** The decoder's header check (logic.js:661-675). The signed reading of
      the length is accepted exactly when the unsigned one is in
      1..MAX_FILE_SIZE, because that maximum is below 2^31. */
  function ParseHeader(h: seq<bv8>): (r: Result<nat, HeaderError>)
    requires |h| == HEADER_SIZE
    ensures r.Failure? && r.error == InvalidSignature <==> h[..6] != SIGNATURE_BYTES
    ensures r.Success? <==>
      h[..6] == SIGNATURE_BYTES && 0 < LittleEndian32(h[6..10]) <= MAX_FILE_SIZE
    ensures r.Success? ==> r.value == LittleEndian32(h[6..10])
  {
    if h[..6] != SIGNATURE_BYTES then Failure(InvalidSignature)
    else
      var fileSize := DeclaredSize(h);
      if fileSize <= 0 || fileSize > MAX_FILE_SIZE then Failure(InvalidDeclaredSize(fileSize))
      else Success(fileSize)
  }

  /** Header round trip: the decoder accepts the header the encoder built for
      `len` exactly when `len` is in 1..MAX_FILE_SIZE, and then recovers `len`. */
  lemma HeaderRoundTrip(len: nat)
    requires len <= UINT32_MAX
    ensures ParseHeader(BuildHeader(len)) == if 0 < len <= MAX_FILE_SIZE then Success(len)
                                             else Failure(InvalidDeclaredSize(ToInt32(len)))
  {
  }
}
