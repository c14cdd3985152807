/** Where each bit of the hidden stream lives. Stream slot `k` (bit `k % 8`
    of stream byte `k / 8`, least significant first) is the low bit of
    channel `k % 3` of pixel `k / 3`, that is of array entry
    `4 * (k / 3) + k % 3`; alpha entries (index 3 mod 4) carry nothing
    (logic.js:511-526, 643-645, 689-691). */
module Layout {
  import opened Bits

  /** Array entry of stream slot `k`. */
  function SlotIndex(k: nat): nat
  {
    4 * (k / 3) + k % 3
  }

  /** Entries 0, 1 and 2 of each pixel quad are R, G and B; entry 3 is alpha. */
  predicate IsColorEntry(i: nat)
  {
    i % 4 != 3
  }

  /** Stream slot carried by colour entry `i`. */
  function SlotOf(i: nat): nat
  {
    3 * (i / 4) + i % 4
  }

  /** Number of stream slots in a buffer of `arrayLength` entries. */
  function SlotCount(arrayLength: nat): nat
  {
    3 * (arrayLength / 4)
  }

  lemma SlotCountStep(i: nat)
    ensures SlotCount(i + 4) == SlotCount(i) + 3
  {
  }

  /** A pixel before the end of the buffer has its three slots in it. */
  lemma SlotCountBelow(p: nat, arrayLength: nat)
    requires p % 4 == 0 && arrayLength % 4 == 0 && p < arrayLength
    ensures p + 4 <= arrayLength && SlotCount(p) + 3 <= SlotCount(arrayLength)
  {
    var q, n := p / 4, arrayLength / 4;
    assert p == 4 * q && arrayLength == 4 * n && q < n;
  }

  /** Channel `j` of the pixel whose entries start at `p` carries the
      slot after the `SlotCount(p)` slots of the pixels before it. */
  lemma SlotOfPixelChannel(p: nat, j: nat)
    requires p % 4 == 0 && j < 3
    ensures IsColorEntry(p + j) && SlotOf(p + j) == SlotCount(p) + j
    ensures SlotIndex(SlotCount(p) + j) == p + j
  {
  }

  /** Slots and colour entries are in one-to-one correspondence, in order. */
  lemma SlotBijection(k: nat, i: nat)
    ensures IsColorEntry(SlotIndex(k)) && SlotOf(SlotIndex(k)) == k
    ensures IsColorEntry(i) ==> SlotIndex(SlotOf(i)) == i
  {
  }

  /** A pixel that starts inside a buffer of whole pixels ends inside it. */
  lemma NextPixelInBounds(p: nat, arrayLength: nat)
    requires p % 4 == 0 && arrayLength % 4 == 0 && p < arrayLength
    ensures p + 4 <= arrayLength && (p + 4) % 4 == 0
  {
    assert p / 4 < arrayLength / 4;
  }

  lemma SlotIndexInBounds(k: nat, arrayLength: nat)
    requires arrayLength % 4 == 0
    ensures SlotIndex(k) < arrayLength <==> k < SlotCount(arrayLength)
  {
  }

  /** The bit the writer stores in slot `k`: `(currentByte >> bitIndex) & 1`. */
  function StreamBit(stream: seq<bv8>, k: nat): (b: bv8)
    requires k < 8 * |stream|
    ensures b <= 1
  {
    BitAt(stream[k / 8], k % 8)
  }

  /** Entry `i` once the first `n` stream bits have been written over `orig`. */
  function Stamp(orig: seq<bv8>, stream: seq<bv8>, n: nat, i: nat): bv8
    requires i < |orig|
    requires n <= 8 * |stream|
  {
    if IsColorEntry(i) && SlotOf(i) < n then SetLowBit(orig[i], StreamBit(stream, SlotOf(i)))
    else orig[i]
  }

  /** Writing stream bit `w` into its entry `index` turns the buffer with
      `w` bits written into the one with `w + 1`; nothing else changes. */
  lemma StampAdvance(orig: seq<bv8>, stream: seq<bv8>, w: nat, index: nat, i: nat)
    requires index < |orig| && i < |orig|
    requires w < 8 * |stream|
    requires IsColorEntry(index) && SlotOf(index) == w
    ensures Stamp(orig, stream, w, index) == orig[index]
    ensures Stamp(orig, stream, w + 1, i) ==
      if i == index then SetLowBit(Stamp(orig, stream, w, index), StreamBit(stream, w))
      else Stamp(orig, stream, w, i)
  {
    SlotBijection(0, index);
    SlotBijection(0, i);
  }

  /** Once every slot the buffer has is written, the rest of the stream
      changes nothing. */
  lemma StampSaturates(orig: seq<bv8>, stream: seq<bv8>, n: nat, i: nat)
    requires |orig| % 4 == 0 && i < |orig|
    requires Min(8 * |stream|, SlotCount(|orig|)) <= n <= 8 * |stream|
    ensures Stamp(orig, stream, n, i) == Stamp(orig, stream, 8 * |stream|, i)
  {
    if IsColorEntry(i) {
      var q, p := i / 4, |orig| / 4;
      assert q < p;
      assert 3 * q + 3 <= 3 * p;
      assert SlotOf(i) < SlotCount(|orig|);
    }
  }

  /** The buffer after the whole stream has been written over `orig` (bits
      that find no slot are dropped). */
  function Embedded(orig: seq<bv8>, stream: seq<bv8>): (pix: seq<bv8>)
    ensures |pix| == |orig|
  {
    seq(|orig|, i requires 0 <= i < |orig| => Stamp(orig, stream, 8 * |stream|, i))
  }

  /** What the writer promises about each entry: the slot of stream bit `k`
      keeps its upper seven bits and carries the bit in its low bit; alpha
      entries and colour entries beyond the stream keep their value. */
  lemma EmbeddedEntries(orig: seq<bv8>, stream: seq<bv8>, k: nat, i: nat)
    ensures k < 8 * |stream| && SlotIndex(k) < |orig| ==>
      Embedded(orig, stream)[SlotIndex(k)] & 0xFE == orig[SlotIndex(k)] & 0xFE &&
      Embedded(orig, stream)[SlotIndex(k)] & 1 == StreamBit(stream, k)
    ensures i < |orig| && (!IsColorEntry(i) || SlotOf(i) >= 8 * |stream|) ==>
      Embedded(orig, stream)[i] == orig[i]
  {
    SlotBijection(k, i);
  }

  /** The bit a reader takes from slot `k`: `pixels[index] & 1`. */
  function SlotBit(pix: seq<bv8>, k: nat): (b: bv8)
    requires |pix| % 4 == 0 && k < SlotCount(|pix|)
    ensures b <= 1
  {
    SlotIndexInBounds(k, |pix|);
    pix[SlotIndex(k)] & 1
  }

  /** The bit stream a buffer carries: the low bit of every colour entry,
      in slot order. */
  function SlotBits(pix: seq<bv8>): (bits: seq<bv8>)
    requires |pix| % 4 == 0
    ensures |bits| == SlotCount(|pix|)
  {
    seq(SlotCount(|pix|), k requires 0 <= k < SlotCount(|pix|) => SlotBit(pix, k))
  }

  /** Colour entry `index` carries slot `SlotOf(index)` of the bit stream. */
  lemma SlotBitsAt(pix: seq<bv8>, index: nat)
    requires |pix| % 4 == 0 && index < |pix| && IsColorEntry(index)
    ensures SlotOf(index) < SlotCount(|pix|)
    ensures SlotBits(pix)[SlotOf(index)] == pix[index] & 1
  {
    SlotOfInBounds(index, |pix|);
    assert SlotBits(pix)[SlotOf(index)] == SlotBit(pix, SlotOf(index));
  }

  /** A colour entry inside the buffer carries a slot inside the stream. */
  lemma SlotOfInBounds(index: nat, arrayLength: nat)
    requires arrayLength % 4 == 0 && index < arrayLength && IsColorEntry(index)
    ensures SlotOf(index) < SlotCount(arrayLength) && SlotIndex(SlotOf(index)) == index
  {
    SlotBijection(0, index);
    SlotIndexInBounds(SlotOf(index), arrayLength);
  }

  /** The bit stream of a buffer the whole stream was written into starts
      with the stream's own bits. */
  lemma EmbeddedSlotBits(orig: seq<bv8>, stream: seq<bv8>, k: nat)
    requires |orig| % 4 == 0 && k < 8 * |stream| && k < SlotCount(|orig|)
    ensures SlotBits(Embedded(orig, stream))[k] == StreamBit(stream, k)
  {
    SlotIndexInBounds(k, |orig|);
    EmbeddedEntries(orig, stream, k, 0);
  }

  /** The low `n` bits of a byte assembled LSB-first, as the readers'
      `currentByte |= bit << bitIndex` does, from `bits[base .. base + n]`. */
  function AssembleByte(bits: seq<bv8>, base: nat, n: nat): bv8
    requires n <= 8 && base + n <= |bits|
  {
    if n == 0 then 0
    else AssembleByte(bits, base, n - 1) | ShiftLeft(bits[base + n - 1], n - 1)
  }

  /** One more bit, `bits[base + n]`, extends the assembled byte. */
  lemma AssembleByteNext(bits: seq<bv8>, base: nat, n: nat, v: bv8, bit: bv8)
    requires n < 8 && base + n + 1 <= |bits|
    requires v == AssembleByte(bits, base, n) && bit == bits[base + n]
    ensures v | ShiftLeft(bit, n) == AssembleByte(bits, base, n + 1)
  {
    assert (n + 1) - 1 == n && base + (n + 1) - 1 == base + n;
  }

  /** Bits that agree, least significant first, with the low `n` bits of
      `z` assemble to those bits of `z`. */
  lemma {:induction false} AssembleByteOf(bits: seq<bv8>, base: nat, z: bv8, n: nat)
    requires n <= 8 && base + n <= |bits|
    requires forall t :: 0 <= t < n ==> bits[base + t] == BitAt(z, t)
    ensures AssembleByte(bits, base, n) == LowBits(z, n)
  {
    if n > 0 {
      AssembleByteOf(bits, base, z, n - 1);
    }
  }

  /** Reading back eight consecutive slots of a buffer the whole stream was
      written into, starting at the first slot of stream byte `d`, yields
      exactly that byte. */
  lemma ReadBackByte(orig: seq<bv8>, stream: seq<bv8>, d: nat)
    requires |orig| % 4 == 0
    requires d < |stream|
    requires 8 * d + 8 <= SlotCount(|orig|)
    ensures AssembleByte(SlotBits(Embedded(orig, stream)), 8 * d, 8) == stream[d]
  {
    var bits := SlotBits(Embedded(orig, stream));
    var base := 8 * d;
    forall t | 0 <= t < 8
      ensures bits[base + t] == BitAt(stream[d], t)
    {
      EmbeddedSlotBits(orig, stream, base + t);
      assert (base + t) / 8 == d && (base + t) % 8 == t;
    }
    AssembleByteOf(bits, base, stream[d], 8);
    LowBitsWhole(stream[d]);
  }

}
