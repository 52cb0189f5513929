/** Types and facts that several modules share. */
module Common {
  type Bytes = seq<bv8>

  datatype Option<+T> = None | Some(value: T)

  // Sizes of 64 bits

  /** One more than the largest `size_t`. */
  const SIZE := 0x1_0000_0000_0000_0000

  /** A sum or a difference of two sizes, modulo 2^64. */
  function Wrapped(n: int): (w: nat)
    requires -SIZE <= n < 2 * SIZE
    ensures w < SIZE
  {
    if n < 0 then n + SIZE else if n < SIZE then n else n - SIZE
  }

  function Least(a: nat, b: nat): nat {
    if a < b then a else b
  }

  // Sequences

  lemma SliceGrows<T>(s: seq<T>, i: nat, j: nat)
    requires i <= j < |s|
    ensures s[i..j + 1] == s[i..j] + [s[j]]
  {}

  lemma Regrouped<T>(a: seq<T>, b: seq<T>, c: seq<T>)
    ensures (a + b) + c == a + (b + c)
    ensures a + [] == a && [] + c == c
  {}

  lemma NothingInFront<T>(s: seq<T>)
    ensures [] + s == s
  {}
}
