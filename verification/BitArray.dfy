/** Bit arrays packed into bytes, the first bit in the highest position. The bytes represent a sequence of booleans,
    the view of the array. Every operation of the class is specified on views alone, and the loops over single
    bits are shown to write the bits they should, to leave all others as they were, and to stay inside. */
module BitArray {
  import opened Common

  type Bits = seq<bool>

  // One byte

  /** The mask of bit `k` of a byte, counted from the highest. */
  function Mask(k: nat): bv8 {
    if k == 0 then 0x80 else if k == 1 then 0x40 else if k == 2 then 0x20 else if k == 3 then 0x10
    else if k == 4 then 0x08 else if k == 5 then 0x04 else if k == 6 then 0x02 else 0x01
  }

  predicate Meets(b: bv8, m: bv8) {
    b & m != 0
  }

  function Joined(b: bv8, m: bv8): bv8 {
    b | m
  }

  function Cleared(b: bv8, m: bv8): bv8 {
    b & !m
  }

  predicate BitOfByte(b: bv8, k: nat) {
    Meets(b, Mask(k))
  }

  function Raised(b: bv8, k: nat): bv8 {
    Joined(b, Mask(k))
  }

  function Lowered(b: bv8, k: nat): bv8 {
    Cleared(b, Mask(k))
  }

  predicate IsMask(m: bv8) {
    m == 0x80 || m == 0x40 || m == 0x20 || m == 0x10 || m == 0x08 || m == 0x04 || m == 0x02 || m == 0x01
  }

  lemma MasksDiffer(k: nat, j: nat)
    requires k < 8 && j < 8
    ensures IsMask(Mask(k)) && IsMask(Mask(j))
    ensures Mask(k) == Mask(j) <==> k == j
  {}

  lemma RaisedBits(b: bv8, m: bv8, n: bv8)
    ensures IsMask(m) && IsMask(n) ==> (Meets(Joined(b, m), n) <==> m == n || Meets(b, n))
  {}

  lemma LoweredBits(b: bv8, m: bv8, n: bv8)
    ensures IsMask(m) && IsMask(n) ==> (Meets(Cleared(b, m), n) <==> m != n && Meets(b, n))
  {}

  lemma BitOfRaised(b: bv8, k: nat, j: nat)
    requires k < 8 && j < 8
    ensures BitOfByte(Raised(b, k), j) <==> j == k || BitOfByte(b, j)
  {
    hide Mask, Meets, Joined, IsMask;
    MasksDiffer(k, j);
    RaisedBits(b, Mask(k), Mask(j));
  }

  lemma BitOfLowered(b: bv8, k: nat, j: nat)
    requires k < 8 && j < 8
    ensures BitOfByte(Lowered(b, k), j) <==> j != k && BitOfByte(b, j)
  {
    hide Mask, Meets, Cleared, IsMask;
    MasksDiffer(k, j);
    LoweredBits(b, Mask(k), Mask(j));
  }

  lemma ZeroHasNoBits(k: nat)
    ensures !BitOfByte(0, k)
  {}

  // Packed bytes

  predicate BitAt(data: Bytes, i: nat)
    requires i < 8 * |data|
  {
    BitOfByte(data[i / 8], i % 8)
  }

  /** The data with bit `i` set to `bit`. */
  function WithBit(data: Bytes, i: nat, bit: bool): (r: Bytes)
    requires i < 8 * |data|
    ensures |r| == |data|
  {
    data[i / 8 := if bit then Raised(data[i / 8], i % 8) else Lowered(data[i / 8], i % 8)]
  }

  lemma BitsOfWithBit(data: Bytes, i: nat, bit: bool, j: nat)
    requires i < 8 * |data| && j < 8 * |data|
    ensures BitAt(WithBit(data, i, bit), j) == if j == i then bit else BitAt(data, j)
  {
    hide BitOfByte, Raised, Lowered;
    if i / 8 == j / 8 {
      BitOfRaised(data[i / 8], i % 8, j % 8);
      BitOfLowered(data[i / 8], i % 8, j % 8);
    }
  }

  function Zeros(n: nat): (data: Bytes)
    ensures |data| == n
  {
    seq(n, i => 0)
  }

  lemma ZerosHaveNoBits(n: nat, i: nat)
    requires i < 8 * n
    ensures !BitAt(Zeros(n), i)
  {
    hide BitOfByte;
    ZeroHasNoBits(i % 8);
  }

  /** How many bytes `bits` bits need. */
  function BytesFor(bits: nat): (n: nat)
    ensures bits <= 8 * n < bits + 8
  {
    (bits + 7) / 8
  }

  /** The first `n` bits of the data. */
  function Unpacked(data: Bytes, n: nat): (bits: Bits)
    requires n <= 8 * |data|
    ensures |bits| == n
    ensures forall i :: 0 <= i < n ==> bits[i] == BitAt(data, i)
  {
    seq(n, i requires 0 <= i < n => BitAt(data, i))
  }

  /** The loops that write one bit after the other leave bits `lo..hi` as `f` says and the others alone. */
  ghost predicate Filled(before: Bytes, after: Bytes, lo: nat, hi: nat, f: Bits)
    requires |after| == |before| && lo <= hi <= 8 * |before| && hi - lo <= |f|
  {
    forall j: nat :: j < 8 * |after| ==> BitAt(after, j) == if lo <= j < hi then f[j - lo] else BitAt(before, j)
  }

  lemma FilledStart(data: Bytes, lo: nat, f: Bits)
    requires lo <= 8 * |data|
    ensures Filled(data, data, lo, lo, f)
  {
    hide BitAt;
  }

  lemma FilledStep(before: Bytes, after: Bytes, lo: nat, hi: nat, f: Bits)
    requires |after| == |before| && lo <= hi < 8 * |before| && hi - lo < |f|
    requires Filled(before, after, lo, hi, f)
    ensures Filled(before, WithBit(after, hi, f[hi - lo]), lo, hi + 1, f)
  {
    hide WithBit, BitOfByte;
    var r := WithBit(after, hi, f[hi - lo]);
    forall j: nat | j < 8 * |r|
      ensures BitAt(r, j) == if lo <= j < hi + 1 then f[j - lo] else BitAt(before, j)
    {
      BitsOfWithBit(after, hi, f[hi - lo], j);
    }
  }

  /** Writing a bit that is already there, as the loops that only raise bits do for a zero. */
  lemma SameBits(before: Bytes, after: Bytes, lo: nat, hi: nat, f: Bits)
    requires |after| == |before| && lo <= hi < 8 * |before| && hi - lo < |f|
    requires Filled(before, after, lo, hi, f) && f[hi - lo] == BitAt(before, hi)
    ensures Filled(before, after, lo, hi + 1, f)
  {
    hide BitOfByte;
    assert BitAt(after, hi) == BitAt(before, hi);
  }

  lemma NothingRaised(n: nat)
    ensures forall j: nat :: j < 8 * n ==> !BitAt(Zeros(n), j)
  {
    hide BitAt, Zeros;
    forall j: nat | j < 8 * n
      ensures !BitAt(Zeros(n), j)
    {
      ZerosHaveNoBits(n, j);
    }
  }

  /** The copying loops of `get` and `operator+`: they only raise bits, in data that is still clear. */
  method RaiseBits(source: Bytes, from: nat, n: nat, target: Bytes, at: nat) returns (r: Bytes)
    requires (n == 0 || from + n <= 8 * |source|) && at + n <= 8 * |target|
    requires forall j: nat :: at <= j < at + n ==> !BitAt(target, j)
    ensures |r| == |target|
    ensures forall j: nat :: j < 8 * |r| ==>
              BitAt(r, j) == if at <= j < at + n then BitAt(source, from + (j - at)) else BitAt(target, j)
  {
    hide BitAt;
    r := target;
    ghost var f := if n == 0 then [] else Unpacked(source, from + n)[from..];
    FilledStart(target, at, f);
    for i := 0 to n
      invariant |r| == |target| && Filled(target, r, at, at + i, f)
    {
      var bit := BitAt(source, from + i);
      if bit {
        FilledStep(target, r, at, at + i, f);
        r := WithBit(r, at + i, true);
      } else {
        SameBits(target, r, at, at + i, f);
      }
    }
  }

  // Bit sequences

  /** The slice that exists of the one asked for. */
  function Clipped(bits: Bits, offset: nat, length: nat): Bits {
    if offset >= |bits| then [] else bits[offset..Least(offset + length, |bits|)]
  }

  /** The length that `get` goes on with after its guard, whose sum is 64 bits wide. */
  function UsedLength(size: nat, offset: nat, length: nat): nat
    requires offset < SIZE && length < SIZE
  {
    if Wrapped(offset + length) <= size then length else if offset < size then size - offset else 0
  }

  /** The guard sees that the slice is too long even if the sum wraps around. */
  predicate GuardHolds(size: nat, offset: nat, length: nat) {
    offset + length < SIZE || offset + length - SIZE > size
  }

  /** The slice is clipped as it should be, and the loop stays inside the array, exactly when the guard holds. */
  lemma ClippingIsExact(bits: Bits, offset: nat, length: nat)
    requires |bits| < SIZE && offset < SIZE && length < SIZE
    ensures var n := UsedLength(|bits|, offset, length);
            && (n == |Clipped(bits, offset, length)| <==> GuardHolds(|bits|, offset, length))
            && (n == 0 || offset + n <= |bits| <==> GuardHolds(|bits|, offset, length))
  {}

  /** Asking for everything with the largest size works from the first bit, or from far behind the last one. */
  lemma LargestLengthWraps(bits: Bits, offset: nat)
    requires |bits| < SIZE && offset < SIZE
    ensures UsedLength(|bits|, offset, SIZE - 1) == |Clipped(bits, offset, SIZE - 1)|
       <==> offset == 0 || offset > |bits| + 1
  {
    ClippingIsExact(bits, offset, SIZE - 1);
  }

  /** `bits` with `patch` laid over it from `offset` on, as far as it reaches. */
  function Spliced(bits: Bits, patch: Bits, offset: nat): (r: Bits)
    requires offset <= |bits|
    ensures |r| == |bits|
  {
    var n := Least(|patch|, |bits| - offset);
    bits[..offset] + patch[..n] + bits[offset + n..]
  }

  /** The bits repeated with period `offset`. */
  function Tiled(bits: Bits, offset: nat, j: nat): bool
    requires j < |bits|
  {
    if offset == 0 || j < offset then bits[j] else Tiled(bits, offset, j - offset)
  }

  function TiledBits(bits: Bits, offset: nat): (r: Bits)
    ensures |r| == |bits|
    ensures forall j :: 0 <= j < |bits| ==> r[j] == Tiled(bits, offset, j)
  {
    seq(|bits|, j requires 0 <= j < |bits| => Tiled(bits, offset, j))
  }

  lemma TiledStep(bits: Bits, offset: nat, i: nat)
    requires offset + i < |bits|
    ensures Tiled(bits, offset, offset + i) == Tiled(bits, offset, i)
  {}

  /** A merge into itself is the splice of the old bits exactly when these repeat with the offset as period, as far
      as the splice reads them. */
  lemma TilingIsSplicingExactlyWhen(bits: Bits, offset: nat)
    requires offset < |bits|
    ensures TiledBits(bits, offset) == Spliced(bits, bits, offset)
       <==> offset == 0 || forall i :: offset <= i < |bits| - offset ==> bits[i] == bits[i - offset]
  {
    hide Tiled;
    var tiled, spliced := TiledBits(bits, offset), Spliced(bits, bits, offset);
    var periodic := offset == 0 || forall i :: offset <= i < |bits| - offset ==> bits[i] == bits[i - offset];
    if tiled == spliced && offset > 0 {
      forall i | offset <= i < |bits| - offset
        ensures bits[i] == bits[i - offset]
      {
        TiledStep(bits, offset, i);
        assert spliced[offset + i] == bits[i] && spliced[i] == bits[i - offset];
      }
    }
    if periodic {
      forall j | 0 <= j < |bits|
        ensures tiled[j] == spliced[j]
      {
        PeriodicIsTiled(bits, offset, j);
      }
    }
  }

  lemma {:induction false} PeriodicIsTiled(bits: Bits, offset: nat, j: nat)
    requires offset <= |bits| && j < |bits|
    requires offset == 0 || forall i :: offset <= i < |bits| - offset ==> bits[i] == bits[i - offset]
    ensures Tiled(bits, offset, j) == Spliced(bits, bits, offset)[j]
  {
    if offset > 0 && j >= offset { PeriodicIsTiled(bits, offset, j - offset); }
  }

  /** One set bit in front of two clear ones spreads over all three. */
  lemma MergeIntoItselfCanSpreadABit()
    ensures TiledBits([true, false, false], 1) == [true, true, true]
    ensures Spliced([true, false, false], [true, false, false], 1) == [true, true, false]
  {
    assert Tiled([true, false, false], 1, 1) == Tiled([true, false, false], 1, 0);
  }

  function NoBits(n: nat): (bits: Bits)
    ensures |bits| == n
  {
    seq(n, i => false)
  }

  function ShiftedLeft(bits: Bits, shift: nat): (r: Bits)
    ensures |r| == |bits|
  {
    if shift >= |bits| then NoBits(|bits|) else bits[shift..] + NoBits(shift)
  }

  function ShiftedRight(bits: Bits, shift: nat): (r: Bits)
    ensures |r| == |bits|
  {
    if shift >= |bits| then NoBits(|bits|) else NoBits(shift) + bits[..|bits| - shift]
  }

  function Reversed(bits: Bits): (r: Bits)
    ensures |r| == |bits|
    ensures forall i :: 0 <= i < |bits| ==> r[i] == bits[|bits| - 1 - i]
  {
    seq(|bits|, i requires 0 <= i < |bits| => bits[|bits| - 1 - i])
  }

  lemma ReversedTwice(bits: Bits)
    ensures Reversed(Reversed(bits)) == bits
  {}

  /** How many bits a shift pushes out. */
  function PushedOut(bits: Bits, shift: nat): (n: nat)
    ensures n <= |bits|
  {
    if shift < |bits| then shift else |bits|
  }

  /** Shifting there and back clears what was pushed out and nothing else. */
  lemma ShiftsUndoEachOther(bits: Bits, shift: nat)
    ensures var n := PushedOut(bits, shift);
            && ShiftedLeft(ShiftedRight(bits, shift), shift) == bits[..|bits| - n] + NoBits(n)
            && ShiftedRight(ShiftedLeft(bits, shift), shift) == NoBits(n) + bits[n..]
  {}

  // Loops on the bytes

  method ShiftLeftData(data: Bytes, n: nat, shift: nat) returns (r: Bytes)
    requires n <= 8 * |data| && shift < n
    ensures |r| == |data| && Unpacked(r, n) == ShiftedLeft(Unpacked(data, n), shift)
  {
    hide BitAt, WithBit;
    r := data;
    ghost var want := ShiftedLeft(Unpacked(data, n), shift);
    FilledStart(data, 0, want);
    for i := 0 to n
      invariant |r| == |data| && Filled(data, r, 0, i, want)
    {
      FilledStep(data, r, 0, i, want);
      if i + shift < n {
        r := WithBit(r, i, BitAt(data, i + shift));
      } else {
        r := WithBit(r, i, false);
      }
    }
  }

  method ShiftRightData(data: Bytes, n: nat, shift: nat) returns (r: Bytes)
    requires n <= 8 * |data| && shift < n
    ensures |r| == |data| && Unpacked(r, n) == ShiftedRight(Unpacked(data, n), shift)
  {
    hide BitAt, WithBit;
    r := data;
    ghost var want := ShiftedRight(Unpacked(data, n), shift);
    FilledStart(data, 0, want);
    for i := 0 to n
      invariant |r| == |data| && Filled(data, r, 0, i, want)
    {
      FilledStep(data, r, 0, i, want);
      var source := if i >= shift then i - shift else n;
      if source < n {
        r := WithBit(r, i, BitAt(data, source));
      } else {
        r := WithBit(r, i, false);
      }
    }
  }

  lemma SpliceDone(before: Bytes, after: Bytes, n: nat, offset: nat, input: Bits)
    requires |after| == |before| && offset <= n <= 8 * |before|
    requires Filled(before, after, offset, offset + Least(|input|, n - offset), input[..Least(|input|, n - offset)])
    ensures Unpacked(after, n) == Spliced(Unpacked(before, n), input, offset)
  {
    hide BitAt;
  }

  lemma TileDone(before: Bytes, after: Bytes, n: nat, offset: nat)
    requires |after| == |before| && offset <= n <= 8 * |before|
    requires Filled(before, after, offset, n, TiledBits(Unpacked(before, n), offset)[offset..])
    ensures Unpacked(after, n) == TiledBits(Unpacked(before, n), offset)
  {
    hide BitAt;
  }

  /** Merged into itself, the array reads a bit that the tiling has already put there. */
  lemma TiledSource(before: Bytes, data: Bytes, n: nat, offset: nat, i: nat)
    requires |data| == |before| && offset + i < n <= 8 * |before|
    requires Filled(before, data, offset, offset + i, TiledBits(Unpacked(before, n), offset)[offset..])
    ensures BitAt(data, i) == TiledBits(Unpacked(before, n), offset)[offset..][i]
  {
    hide BitAt;
    TiledStep(Unpacked(before, n), offset, i);
  }

  // The class

  class BitArray {
    var data: Bytes
    var bitSize: nat

    /** There is a byte for every bit, and no byte without a bit at all. */
    ghost predicate Valid()
      reads this
    {
      bitSize <= 8 * |data| && (bitSize == 0 ==> data == [])
    }

    function View(): (bits: Bits)
      reads this
      requires Valid()
      ensures |bits| == bitSize
    {
      Unpacked(data, bitSize)
    }

    /** A size of 0 stands for all the bytes; a size beyond the bytes is not checked. */
    constructor (bytes: Bytes, bits: nat)
      ensures data == bytes
      ensures bitSize == if bits == 0 then 8 * |bytes| else bits
      ensures Valid() <==> bits <= 8 * |bytes|
    {
      data := bytes;
      bitSize := if bits != 0 then bits else |bytes| * 8;
    }

    method From(bytes: Bytes, bits: nat)
      modifies this
      ensures data == bytes
      ensures bitSize == if bits == 0 then 8 * |bytes| else bits
      ensures Valid() <==> bits <= 8 * |bytes|
    {
      data := bytes;
      bitSize := if bits != 0 then bits else |bytes| * 8;
    }

    /** The rounding up to bytes is 64 bits wide: the last seven sizes are left without bytes. */
    method SetBits(bits: nat)
      requires bits < SIZE
      modifies this
      ensures bitSize == bits && (Valid() <==> bits + 7 < SIZE)
      ensures Valid() ==> View() == NoBits(bits)
    {
      hide BitAt, Zeros;
      bitSize := bits;
      var n := Wrapped(bits + 7) / 8;
      data := Zeros(n);
      forall i | 0 <= i < bits && i < 8 * n ensures !BitAt(data, i) { ZerosHaveNoBits(n, i); }
    }

    method SetBytes(bytes: nat)
      modifies this
      ensures Valid() && View() == NoBits(8 * bytes)
    {
      hide BitAt, Zeros;
      data := Zeros(bytes);
      bitSize := bytes * 8;
      forall i | 0 <= i < bitSize ensures !BitAt(data, i) { ZerosHaveNoBits(bytes, i); }
    }

    method ToArray() returns (a: Bits)
      requires Valid()
      ensures a == View()
    {
      hide BitAt;
      a := [];
      for i := 0 to bitSize
        invariant a == View()[..i]
      {
        a := a + [BitAt(data, i)];
      }
    }

    /** Where the sum in the guard wraps around unnoticed, the source goes on beyond its bytes. */
    method Get(offset: nat, length: nat) returns (r: BitArray)
      requires Valid() && bitSize + 7 < SIZE && offset < SIZE && length < SIZE
      requires GuardHolds(bitSize, offset, length)
      ensures fresh(r) && r.Valid() && r.View() == Clipped(View(), offset, length)
    {
      hide BitAt;
      var n := length;
      if Wrapped(offset + length) > bitSize {
        n := if offset < bitSize then bitSize - offset else 0;
      }
      ghost var want := Clipped(View(), offset, length);
      ClippingIsExact(View(), offset, length);
      assert |want| == n;
      NothingRaised(BytesFor(n));
      var sub := RaiseBits(data, offset, n, Zeros(BytesFor(n)), 0);
      r := new BitArray(sub, n);
    }

    method Merge(input: BitArray, offset: nat) returns (ok: bool)
      requires Valid() && input.Valid()
      modifies this
      ensures Valid() && ok == (offset < old(bitSize))
      ensures !ok ==> View() == old(View())
      ensures ok && input != this ==> View() == Spliced(old(View()), old(input.View()), offset)
      ensures ok && input == this ==> View() == TiledBits(old(View()), offset)
    {
      hide BitAt, Spliced, Tiled, WithBit;
      if offset >= bitSize { return false; }
      var n := Least(input.bitSize, bitSize - offset);
      ghost var before := View();
      ghost var patch := if input == this then TiledBits(before, offset)[offset..] else input.View()[..n];
      FilledStart(data, offset, patch);
      ghost var data0 := data;
      for i := 0 to n
        invariant |data| == |data0| && bitSize == old(bitSize) && Filled(data0, data, offset, offset + i, patch)
        invariant input != this ==> input.data == old(input.data) && input.bitSize == old(input.bitSize)
      {
        if input == this { TiledSource(data0, data, bitSize, offset, i); }
        var bit := BitAt(input.data, i);
        FilledStep(data0, data, offset, offset + i, patch);
        data := WithBit(data, offset + i, bit);
      }
      if input == this {
        TileDone(data0, data, bitSize, offset);
      } else {
        SpliceDone(data0, data, bitSize, offset, old(input.View()));
      }
      return true;
    }

    method Concat(other: BitArray) returns (r: BitArray)
      requires Valid() && other.Valid()
      ensures fresh(r) && r.Valid() && r.View() == View() + other.View()
    {
      hide BitAt;
      var total := bitSize + other.bitSize;
      NothingRaised(BytesFor(total));
      var combined := RaiseBits(data, 0, bitSize, Zeros(BytesFor(total)), 0);
      combined := RaiseBits(other.data, 0, other.bitSize, combined, bitSize);
      r := new BitArray(combined, total);
    }

    method ShiftLeft(shift: nat) returns (r: BitArray)
      requires Valid()
      ensures fresh(r) && r.Valid() && r.View() == ShiftedLeft(View(), shift)
    {
      hide BitAt;
      r := new BitArray(data, bitSize);
      if shift >= bitSize {
        r.data := Zeros(BytesFor(bitSize));
        forall i | 0 <= i < bitSize ensures !BitAt(r.data, i) { ZerosHaveNoBits(BytesFor(bitSize), i); }
        return;
      }
      r.data := ShiftLeftData(data, bitSize, shift);
    }

    method ShiftRight(shift: nat) returns (r: BitArray)
      requires Valid()
      ensures fresh(r) && r.Valid() && r.View() == ShiftedRight(View(), shift)
    {
      hide BitAt;
      r := new BitArray(data, bitSize);
      if shift >= bitSize {
        r.data := Zeros(BytesFor(bitSize));
        forall i | 0 <= i < bitSize ensures !BitAt(r.data, i) { ZerosHaveNoBits(BytesFor(bitSize), i); }
        return;
      }
      r.data := ShiftRightData(data, bitSize, shift);
    }

    method Reverser()
      requires Valid()
      modifies this
      ensures Valid() && View() == Reversed(old(View()))
    {
      hide BitAt;
      if data == [] || bitSize == 0 { return; }
      var n := BytesFor(bitSize);
      var reversed := Zeros(n);
      ghost var want := Reversed(View());
      NothingRaised(n);
      for i := 0 to bitSize
        invariant |reversed| == n
        invariant forall j: nat :: j < 8 * n ==>
                    BitAt(reversed, j) == (bitSize - i <= j < bitSize && want[j])
      {
        var target := bitSize - 1 - i;
        if BitAt(data, i) {
          forall j: nat | j < 8 * n
            ensures BitAt(WithBit(reversed, target, true), j) == (target <= j < bitSize && want[j])
          {
            BitsOfWithBit(reversed, target, true, j);
          }
          reversed := WithBit(reversed, target, true);
        }
      }
      data := reversed;
    }
  }

  /** Two arrays joined and taken apart again at the seam are the two arrays. */
  method ConcatThenSplit(a: BitArray, b: BitArray) returns (c: BitArray, d: BitArray)
    requires a.Valid() && b.Valid() && a.bitSize + b.bitSize + 7 < SIZE
    ensures c.Valid() && d.Valid() && c.View() == a.View() && d.View() == b.View()
  {
    hide BitAt;
    var joined := a.Concat(b);
    c := joined.Get(0, a.bitSize);
    d := joined.Get(a.bitSize, b.bitSize);
  }

  /** Reversing in place twice restores the bits. */
  method ReverseTwice(a: BitArray)
    requires a.Valid()
    modifies a
    ensures a.Valid() && a.View() == old(a.View())
  {
    hide BitAt;
    ReversedTwice(a.View());
    a.Reverser();
    a.Reverser();
  }

  /** Shifting right and left again clears the last bits, shifting left and right again the first ones. */
  method ShiftThereAndBack(a: BitArray, shift: nat) returns (c: BitArray, d: BitArray)
    requires a.Valid()
    ensures c.Valid() && d.Valid()
    ensures var n := PushedOut(a.View(), shift);
            c.View() == a.View()[..|a.View()| - n] + NoBits(n) && d.View() == NoBits(n) + a.View()[n..]
  {
    hide BitAt, ShiftedLeft, ShiftedRight, PushedOut, NoBits;
    ShiftsUndoEachOther(a.View(), shift);
    var right := a.ShiftRight(shift);
    c := right.ShiftLeft(shift);
    var left := a.ShiftLeft(shift);
    d := left.ShiftRight(shift);
  }
}
