/** Byte-level helpers shared by the writer and the readers: the low-bit
    update the writer applies to a channel byte, single-bit extraction, and
    LSB-first byte assembly. Bytes are `bv8`, so JavaScript's `&`, `|`, `<<`
    and `>>` on values below 256 map onto Dafny's bit-vector operators. */
module Bits {

  function Min(a: int, b: int): (m: int)
    ensures m <= a && m <= b && (m == a || m == b)
  {
    if a <= b then a else b
  }

  /** The unsigned value of a byte. */
  function ByteValue(b: bv8): (v: nat)
    ensures v < 256
  {
    b as nat
  }

  /** `x & 0xff`: the byte of value `x` modulo 256. Dafny's `%` never
      returns a negative remainder, which is what the mask gives on a
      negative two's-complement value. */
  function LowByte(x: int): bv8
  {
    (x % 256) as bv8
  }

  lemma ByteValueOfTruncation(x: nat)
    requires x < 256
    ensures ByteValue(x as bv8) == x
  {
  }

  /** `(p & 0xfe) | bit`: clear the channel's low bit, then OR in the new one. */
  function SetLowBit(p: bv8, bit: bv8): (r: bv8)
    requires bit <= 1
    ensures r & 0xFE == p & 0xFE
    ensures r & 1 == bit
  {
    (p & 0xFE) | bit
  }

  /** `b << n` for a shift that stays inside the byte. Kept as a function
      of its own so that the solver meets the shift only where a proof
      unfolds it. */
  function ShiftLeft(b: bv8, n: nat): bv8
    requires n < 8
  {
    b << n
  }

  /** Bit `t` of `b`, counted from the least significant: `(b >> t) & 1`. */
  function BitAt(b: bv8, t: nat): (r: bv8)
    requires t < 8
    ensures r <= 1
  {
    (b >> t) & 1
  }

  /** The low `n` bits of `b`, put together from the least significant
      one up, as the readers' `currentByte |= bit << bitIndex` does. */
  function LowBits(b: bv8, n: nat): bv8
    requires n <= 8
  {
    if n == 0 then 0 else LowBits(b, n - 1) | ShiftLeft(BitAt(b, n - 1), n - 1)
  }

  /** Putting all eight bits of a byte together gives the byte back. */
  lemma LowBitsWhole(b: bv8)
    ensures LowBits(b, 8) == b
  {
    assert LowBits(b, 1) == b & 1;
    assert LowBits(b, 2) == b & 3;
    assert LowBits(b, 3) == b & 7;
    assert LowBits(b, 4) == b & 15;
    assert LowBits(b, 5) == b & 31;
    assert LowBits(b, 6) == b & 63;
    assert LowBits(b, 7) == b & 127;
  }

  /** The byte whose low six bits are the high six bits of `x` and whose
      top two bits are the low two bits of `y`: what a reader that starts two
      bits late assembles from two consecutive bytes. */
  lemma SplicedBit(x: bv8, y: bv8, t: nat)
    requires t < 8
    ensures BitAt((x >> 2) | (y << 6), t) == if t < 6 then BitAt(x, t + 2) else BitAt(y, t - 6)
  {
    var z := (x >> 2) | (y << 6);
    if t == 0 { assert (z >> 0) & 1 == (x >> 2) & 1; }
    else if t == 1 { assert (z >> 1) & 1 == (x >> 3) & 1; }
    else if t == 2 { assert (z >> 2) & 1 == (x >> 4) & 1; }
    else if t == 3 { assert (z >> 3) & 1 == (x >> 5) & 1; }
    else if t == 4 { assert (z >> 4) & 1 == (x >> 6) & 1; }
    else if t == 5 { assert (z >> 5) & 1 == (x >> 7) & 1; }
    else if t == 6 { assert (z >> 6) & 1 == (y >> 0) & 1; }
    else { assert (z >> 7) & 1 == (y >> 1) & 1; }
  }

  /** `target.set(source, offset)` on a typed array: copies `source` into
      `target` starting at `offset`; the other entries keep their value. */
  method SetAt(target: array<bv8>, source: seq<bv8>, offset: nat)
    requires offset + |source| <= target.Length
    modifies target
    ensures target[..] == old(target[..offset]) + source + old(target[offset + |source|..])
  {
    for i := 0 to |source|
      invariant forall k :: 0 <= k < target.Length ==>
        target[k] == if offset <= k < offset + i then source[k - offset] else old(target[k])
    {
      target[offset + i] := source[i];
    }
    assert target[..] == old(target[..offset]) + source + old(target[offset + |source|..]);
  }

  /** A run of zero bytes: the fill of a freshly allocated `Uint8Array`. */
  function Zeros(n: nat): (z: seq<bv8>)
    ensures |z| == n
    ensures forall i :: 0 <= i < n ==> z[i] == 0
  {
    seq(n, _ => 0)
  }
}
