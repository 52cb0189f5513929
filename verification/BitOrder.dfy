/** Bytes as binary numbers: the first bit counts most. */
module BitOrder {
  import opened Common
  import opened BitArray

  /** The binary number of eight bits. */
  function Binary(b0: bool, b1: bool, b2: bool, b3: bool, b4: bool, b5: bool, b6: bool, b7: bool): bv8 {
    (if b0 then 128 else 0) + (if b1 then 64 else 0) + (if b2 then 32 else 0) + (if b3 then 16 else 0)
    + (if b4 then 8 else 0) + (if b5 then 4 else 0) + (if b6 then 2 else 0) + (if b7 then 1 else 0)
  }

  /** A byte is the number that its bits make, bit 0 counting 128 and bit 7 counting 1. */
  lemma ByteIsBinary(b: bv8)
    ensures b == Binary(BitOfByte(b, 0), BitOfByte(b, 1), BitOfByte(b, 2), BitOfByte(b, 3),
                        BitOfByte(b, 4), BitOfByte(b, 5), BitOfByte(b, 6), BitOfByte(b, 7))
  {}

  lemma PlaceOf(i: nat, k: nat)
    requires k < 8
    ensures (8 * i + k) / 8 == i && (8 * i + k) % 8 == k
  {}

  /** Byte `i` of the data is the binary number of the bits from `8 * i` on. */
  lemma BytesHoldBitsInOrder(data: Bytes, n: nat, i: nat)
    requires n <= 8 * |data| && 8 * i + 8 <= n
    ensures var bits := Unpacked(data, n);
            data[i] == Binary(bits[8 * i], bits[8 * i + 1], bits[8 * i + 2], bits[8 * i + 3],
                              bits[8 * i + 4], bits[8 * i + 5], bits[8 * i + 6], bits[8 * i + 7])
  {
    hide BitOfByte, Binary;
    ByteIsBinary(data[i]);
    forall k: nat | k < 8 ensures Unpacked(data, n)[8 * i + k] == BitOfByte(data[i], k) {
      PlaceOf(i, k);
      assert Unpacked(data, n)[8 * i + k] == BitAt(data, 8 * i + k);
    }
  }
}
