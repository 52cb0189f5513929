/** The round steps of AES-128, its key schedule and its block transformations (FIPS 197 sections 5.1 to 5.3). */
module AesBlock {
  import opened Common
  import opened AesField

  // The round steps on a block of 16 bytes, byte 4c + r being row r of column c

  function SubBytes(s: Bytes): (t: Bytes)
    ensures |t| == |s|
  {
    seq(|s|, i requires 0 <= i < |s| => SBox(s[i]))
  }

  function InvSubBytes(s: Bytes): (t: Bytes)
    ensures |t| == |s|
  {
    seq(|s|, i requires 0 <= i < |s| => InvSBox(s[i]))
  }

  function ShiftRows(s: Bytes): (t: Bytes)
    requires |s| == 16
    ensures |t| == 16
  {
    [s[0], s[5], s[10], s[15], s[4], s[9], s[14], s[3], s[8], s[13], s[2], s[7], s[12], s[1], s[6], s[11]]
  }

  function InvShiftRows(s: Bytes): (t: Bytes)
    requires |s| == 16
    ensures |t| == 16
  {
    [s[0], s[13], s[10], s[7], s[4], s[1], s[14], s[11], s[8], s[5], s[2], s[15], s[12], s[9], s[6], s[3]]
  }

  function ColumnAt(s: Bytes, i: nat): Column
    requires 4 * i + 4 <= |s|
  {
    Column(s[4 * i], s[4 * i + 1], s[4 * i + 2], s[4 * i + 3])
  }

  function BytesOf(v: Column): Bytes {
    [v.a, v.b, v.c, v.d]
  }

  /** Every column multiplied by the circulant matrix with first row `m`. */
  function MapColumns(s: Bytes, m: Column): (t: Bytes)
    requires |s| == 16
    ensures |t| == 16
  {
    BytesOf(Circulant(ColumnAt(s, 0), m)) + BytesOf(Circulant(ColumnAt(s, 1), m)) +
    BytesOf(Circulant(ColumnAt(s, 2), m)) + BytesOf(Circulant(ColumnAt(s, 3), m))
  }

  function MixColumns(s: Bytes): (t: Bytes)
    requires |s| == 16
    ensures |t| == 16
  {
    MapColumns(s, MIX)
  }

  function InvMixColumns(s: Bytes): (t: Bytes)
    requires |s| == 16
    ensures |t| == 16
  {
    MapColumns(s, UNMIX)
  }

  function AddRoundKey(s: Bytes, k: Bytes): (t: Bytes)
    requires |s| <= |k|
    ensures |t| == |s|
  {
    seq(|s|, i requires 0 <= i < |s| => Plus(s[i], k[i]))
  }

  // The block transformations, for any schedule of 176 bytes

  type Schedule = k: seq<bv8> | |k| == 176 witness seq(176, i => 0)

  /** The number of rounds, Nr in the standard. */
  function Rounds(): nat {
    10
  }

  function RoundKey(keys: Schedule, r: nat): (k: Bytes)
    requires r <= Rounds()
    ensures |k| == 16
  {
    keys[16 * r..16 * r + 16]
  }

  /** The state after `r` full rounds of encryption. */
  function Encrypting(s: Bytes, keys: Schedule, r: nat): (t: Bytes)
    requires |s| == 16 && r < Rounds()
    ensures |t| == 16
  {
    if r == 0 then AddRoundKey(s, RoundKey(keys, 0))
    else AddRoundKey(MixColumns(ShiftRows(SubBytes(Encrypting(s, keys, r - 1)))), RoundKey(keys, r))
  }

  function EncryptBlock(s: Bytes, keys: Schedule): (t: Bytes)
    requires |s| == 16
    ensures |t| == 16
  {
    AddRoundKey(ShiftRows(SubBytes(Encrypting(s, keys, Rounds() - 1))), RoundKey(keys, Rounds()))
  }

  /** The state of decryption once the rounds from 9 down to `r` are done. */
  function Decrypting(s: Bytes, keys: Schedule, r: nat): (t: Bytes)
    requires |s| == 16 && 1 <= r <= Rounds()
    ensures |t| == 16
    decreases Rounds() - r
  {
    if r == Rounds() then AddRoundKey(s, RoundKey(keys, Rounds()))
    else InvMixColumns(AddRoundKey(InvSubBytes(InvShiftRows(Decrypting(s, keys, r + 1))), RoundKey(keys, r)))
  }

  function DecryptBlock(s: Bytes, keys: Schedule): (t: Bytes)
    requires |s| == 16
    ensures |t| == 16
  {
    AddRoundKey(InvSubBytes(InvShiftRows(Decrypting(s, keys, 1))), RoundKey(keys, 0))
  }

  // Each step is undone by its inverse

  lemma SubBytesInverts(s: Bytes)
    ensures InvSubBytes(SubBytes(s)) == s
    ensures SubBytes(InvSubBytes(s)) == s
  {
    hide SBox, InvSBox;
    forall i | 0 <= i < |s|
      ensures InvSubBytes(SubBytes(s))[i] == s[i] && SubBytes(InvSubBytes(s))[i] == s[i]
    {
      InvSBoxAfterSBox(s[i]);
      SBoxAfterInvSBox(s[i]);
    }
  }

  /** Row `r` is rotated to the left by `r` places, as section 5.1.2 of the standard defines it. */
  lemma ShiftRowsRotatesRows(s: Bytes, r: nat, c: nat)
    requires |s| == 16 && r < 4 && c < 4
    ensures ShiftRows(s)[r + 4 * c] == s[r + 4 * ((c + r) % 4)]
    ensures InvShiftRows(s)[r + 4 * ((c + r) % 4)] == s[r + 4 * c]
  {
    hide InvShiftRows;
    if r == 0 {} else if r == 1 {} else if r == 2 {} else {}
    InvShiftRowsRotatesRows(s, r, c);
  }

  lemma InvShiftRowsRotatesRows(s: Bytes, r: nat, c: nat)
    requires |s| == 16 && r < 4 && c < 4
    ensures InvShiftRows(s)[r + 4 * ((c + r) % 4)] == s[r + 4 * c]
  {
    if r == 0 {} else if r == 1 {} else if r == 2 {} else {}
  }

  lemma ShiftRowsInverts(s: Bytes)
    requires |s| == 16
    ensures InvShiftRows(ShiftRows(s)) == s
    ensures ShiftRows(InvShiftRows(s)) == s
  {}

  lemma ColumnOfMapped(s: Bytes, m: Column, i: nat)
    requires |s| == 16 && i < 4
    ensures ColumnAt(MapColumns(s, m), i) == Circulant(ColumnAt(s, i), m)
  {
    hide Circulant;
    if i == 0 {} else if i == 1 {} else if i == 2 {} else {}
  }

  lemma SameColumns(s: Bytes, t: Bytes)
    requires |s| == |t| == 16
    requires ColumnAt(s, 0) == ColumnAt(t, 0) && ColumnAt(s, 1) == ColumnAt(t, 1)
    requires ColumnAt(s, 2) == ColumnAt(t, 2) && ColumnAt(s, 3) == ColumnAt(t, 3)
    ensures s == t
  {}

  lemma MapColumnsCancels(s: Bytes, m: Column, k: Column)
    requires |s| == 16
    requires FirstRow(m, k) == Column(1, 0, 0, 0)
    ensures MapColumns(MapColumns(s, m), k) == s
  {
    hide Circulant, FirstRow, MapColumns;
    var t := MapColumns(s, m);
    var u := MapColumns(t, k);
    forall i: nat | i < 4
      ensures ColumnAt(u, i) == ColumnAt(s, i)
    {
      ColumnOfMapped(s, m, i);
      ColumnOfMapped(t, k, i);
      CirculantsCancel(ColumnAt(s, i), m, k);
    }
    SameColumns(u, s);
  }

  lemma MixColumnsInverts(s: Bytes)
    requires |s| == 16
    ensures InvMixColumns(MixColumns(s)) == s
    ensures MixColumns(InvMixColumns(s)) == s
  {
    hide FirstRow, MapColumns;
    MixTimesUnmix();
    MapColumnsCancels(s, MIX, UNMIX);
    MapColumnsCancels(s, UNMIX, MIX);
  }

  lemma AddRoundKeyInverts(s: Bytes, k: Bytes)
    requires |s| <= |k|
    ensures AddRoundKey(AddRoundKey(s, k), k) == s
  {
    hide Plus;
    forall i | 0 <= i < |s|
      ensures AddRoundKey(AddRoundKey(s, k), k)[i] == s[i]
    {
      PlusCancels(s[i], k[i]);
    }
  }

  // Decryption undoes encryption

  /** Before decryption undoes round `r`, its state is the one encryption had inside that round. */
  lemma {:induction false} DecryptingMirrorsEncrypting(s: Bytes, keys: Schedule, r: nat)
    requires |s| == 16 && 1 <= r <= Rounds()
    ensures Decrypting(EncryptBlock(s, keys), keys, r) == ShiftRows(SubBytes(Encrypting(s, keys, r - 1)))
    decreases Rounds() - r
  {
    hide SubBytes, InvSubBytes, ShiftRows, InvShiftRows, MixColumns, InvMixColumns, AddRoundKey, RoundKey;
    if r == Rounds() {
      AddRoundKeyInverts(ShiftRows(SubBytes(Encrypting(s, keys, r - 1))), RoundKey(keys, r));
    } else {
      DecryptingMirrorsEncrypting(s, keys, r + 1);
      var before := Encrypting(s, keys, r);
      ShiftRowsInverts(SubBytes(before));
      SubBytesInverts(before);
      var mixed := MixColumns(ShiftRows(SubBytes(Encrypting(s, keys, r - 1))));
      AddRoundKeyInverts(mixed, RoundKey(keys, r));
      MixColumnsInverts(ShiftRows(SubBytes(Encrypting(s, keys, r - 1))));
    }
  }

  lemma DecryptBlockAfterEncryptBlock(s: Bytes, keys: Schedule)
    requires |s| == 16
    ensures DecryptBlock(EncryptBlock(s, keys), keys) == s
  {
    hide SubBytes, InvSubBytes, ShiftRows, InvShiftRows, AddRoundKey, RoundKey;
    DecryptingMirrorsEncrypting(s, keys, 1);
    ShiftRowsInverts(SubBytes(Encrypting(s, keys, 0)));
    SubBytesInverts(Encrypting(s, keys, 0));
    AddRoundKeyInverts(s, RoundKey(keys, 0));
  }

  lemma {:induction false} EncryptingMirrorsDecrypting(s: Bytes, keys: Schedule, r: nat)
    requires |s| == 16 && r < Rounds()
    ensures Encrypting(DecryptBlock(s, keys), keys, r) == InvSubBytes(InvShiftRows(Decrypting(s, keys, r + 1)))
  {
    hide SubBytes, InvSubBytes, ShiftRows, InvShiftRows, MixColumns, InvMixColumns, AddRoundKey, RoundKey;
    var inner := InvSubBytes(InvShiftRows(Decrypting(s, keys, r + 1)));
    AddRoundKeyInverts(inner, RoundKey(keys, r));
    if r > 0 {
      EncryptingMirrorsDecrypting(s, keys, r - 1);
      SubBytesInverts(InvShiftRows(Decrypting(s, keys, r)));
      ShiftRowsInverts(Decrypting(s, keys, r));
      MixColumnsInverts(AddRoundKey(inner, RoundKey(keys, r)));
    }
  }

  /** Encryption of a block is onto: every 16 bytes are the encryption of their decryption. */
  lemma EncryptBlockAfterDecryptBlock(s: Bytes, keys: Schedule)
    requires |s| == 16
    ensures EncryptBlock(DecryptBlock(s, keys), keys) == s
  {
    hide SubBytes, InvSubBytes, ShiftRows, InvShiftRows, AddRoundKey, RoundKey;
    EncryptingMirrorsDecrypting(s, keys, Rounds() - 1);
    SubBytesInverts(InvShiftRows(Decrypting(s, keys, Rounds())));
    ShiftRowsInverts(Decrypting(s, keys, Rounds()));
    AddRoundKeyInverts(s, RoundKey(keys, Rounds()));
  }

  // The steps in place

  method SubBytesInPlace(state: array<bv8>)
    modifies state
    ensures state[..] == SubBytes(old(state[..]))
  {
    hide SBox;
    for i := 0 to state.Length
      invariant state[i..] == old(state[..])[i..]
      invariant forall j :: 0 <= j < i ==> state[j] == SBox(old(state[..])[j])
    {
      assert state[i] == state[i..][0];
      state[i] := SBox(state[i]);
    }
  }

  method InvSubBytesInPlace(state: array<bv8>)
    modifies state
    ensures state[..] == InvSubBytes(old(state[..]))
  {
    hide InvSBox;
    for i := 0 to state.Length
      invariant state[i..] == old(state[..])[i..]
      invariant forall j :: 0 <= j < i ==> state[j] == InvSBox(old(state[..])[j])
    {
      assert state[i] == state[i..][0];
      state[i] := InvSBox(state[i]);
    }
  }

  method Overwrite(state: array<bv8>, tmp: Bytes)
    requires state.Length == |tmp|
    modifies state
    ensures state[..] == tmp
  {
    for i := 0 to |tmp|
      invariant state[..i] == tmp[..i]
    {
      state[i] := tmp[i];
    }
  }

  method ShiftRowsInPlace(state: array<bv8>)
    requires state.Length == 16
    modifies state
    ensures state[..] == ShiftRows(old(state[..]))
  {
    var tmp := [state[0], state[5], state[10], state[15], state[4], state[9], state[14], state[3],
                state[8], state[13], state[2], state[7], state[12], state[1], state[6], state[11]];
    Overwrite(state, tmp);
  }

  method InvShiftRowsInPlace(state: array<bv8>)
    requires state.Length == 16
    modifies state
    ensures state[..] == InvShiftRows(old(state[..]))
  {
    var tmp := [state[0], state[13], state[10], state[7], state[4], state[1], state[14], state[11],
                state[8], state[5], state[2], state[15], state[12], state[9], state[6], state[3]];
    Overwrite(state, tmp);
  }

  method AddRoundKeyInPlace(state: array<bv8>, roundKey: Bytes)
    requires state.Length <= |roundKey|
    modifies state
    ensures state[..] == AddRoundKey(old(state[..]), roundKey)
  {
    for i := 0 to state.Length
      invariant state[i..] == old(state[..])[i..]
      invariant forall j :: 0 <= j < i ==> state[j] == Plus(old(state[..])[j], roundKey[j])
    {
      assert state[i] == state[i..][0];
      state[i] := state[i] ^ roundKey[i];
    }
  }

  lemma SumOfFour(a: bv8, b: bv8, c: bv8, d: bv8)
    ensures a ^ b ^ c ^ d == Plus(Plus(a, b), Plus(c, d))
  {}

  /** One output byte of `mix_columns`; the bytes of the column arrive rotated so that its row comes first. */
  method MixRow(t: Column) returns (x: bv8)
    ensures x == Dot(t, MIX)
  {
    hide Mul;
    var g0 := Gmix(t.a, 2);
    var g1 := Gmix(t.b, 3);
    MulByOne(t.c);
    MulByOne(t.d);
    SumOfFour(g0, g1, t.c, t.d);
    x := g0 ^ g1 ^ t.c ^ t.d;
  }

  /** One output byte of `inv_mix_columns`. */
  method InvMixRow(t: Column) returns (x: bv8)
    ensures x == Dot(t, UNMIX)
  {
    hide Mul;
    var g0 := Gmix(t.a, 14);
    var g1 := Gmix(t.b, 11);
    var g2 := Gmix(t.c, 13);
    var g3 := Gmix(t.d, 9);
    SumOfFour(g0, g1, g2, g3);
    x := g0 ^ g1 ^ g2 ^ g3;
  }

  method StoreColumn(state: array<bv8>, i: nat, x: bv8, y: bv8, z: bv8, w: bv8)
    requires state.Length == 16 && i < 4
    modifies state
    ensures ColumnAt(state[..], i) == Column(x, y, z, w)
    ensures forall j: nat :: j < 4 && j != i ==> ColumnAt(state[..], j) == ColumnAt(old(state[..]), j)
  {
    state[4 * i] := x;
    state[4 * i + 1] := y;
    state[4 * i + 2] := z;
    state[4 * i + 3] := w;
  }

  lemma MappedFromColumns(s: Bytes, t: Bytes, m: Column)
    requires |s| == |t| == 16
    requires forall j: nat :: j < 4 ==> ColumnAt(t, j) == Circulant(ColumnAt(s, j), m)
    ensures t == MapColumns(s, m)
  {
    hide Circulant, MapColumns;
    forall j: nat | j < 4
      ensures ColumnAt(t, j) == ColumnAt(MapColumns(s, m), j)
    {
      ColumnOfMapped(s, m, j);
    }
    SameColumns(t, MapColumns(s, m));
  }

  method MixColumnsInPlace(state: array<bv8>)
    requires state.Length == 16
    modifies state
    ensures state[..] == MixColumns(old(state[..]))
  {
    hide Dot, MapColumns;
    var tmp := state[..];
    for i := 0 to 4
      invariant forall j: nat :: j < i ==> ColumnAt(state[..], j) == Circulant(ColumnAt(tmp, j), MIX)
    {
      var v := ColumnAt(tmp, i);
      var x := MixRow(v);
      var y := MixRow(Column(v.b, v.c, v.d, v.a));
      var z := MixRow(Column(v.c, v.d, v.a, v.b));
      var w := MixRow(Column(v.d, v.a, v.b, v.c));
      StoreColumn(state, i, x, y, z, w);
    }
    MappedFromColumns(tmp, state[..], MIX);
  }

  method InvMixColumnsInPlace(state: array<bv8>)
    requires state.Length == 16
    modifies state
    ensures state[..] == InvMixColumns(old(state[..]))
  {
    hide Dot, MapColumns;
    var tmp := state[..];
    for i := 0 to 4
      invariant forall j: nat :: j < i ==> ColumnAt(state[..], j) == Circulant(ColumnAt(tmp, j), UNMIX)
    {
      var v := ColumnAt(tmp, i);
      var x := InvMixRow(v);
      var y := InvMixRow(Column(v.b, v.c, v.d, v.a));
      var z := InvMixRow(Column(v.c, v.d, v.a, v.b));
      var w := InvMixRow(Column(v.d, v.a, v.b, v.c));
      StoreColumn(state, i, x, y, z, w);
    }
    MappedFromColumns(tmp, state[..], UNMIX);
  }

  // The blocks

  method EncryptBlockInto(input: Bytes, keys: Schedule) returns (output: Bytes)
    requires |input| == 16
    ensures output == EncryptBlock(input, keys)
  {
    hide SubBytes, ShiftRows, MixColumns, AddRoundKey;
    var state := new bv8[16];
    Overwrite(state, input);
    AddRoundKeyInPlace(state, RoundKey(keys, 0));
    for r := 1 to Rounds()
      invariant state[..] == Encrypting(input, keys, r - 1)
    {
      SubBytesInPlace(state);
      ShiftRowsInPlace(state);
      MixColumnsInPlace(state);
      AddRoundKeyInPlace(state, RoundKey(keys, r));
    }
    SubBytesInPlace(state);
    ShiftRowsInPlace(state);
    AddRoundKeyInPlace(state, RoundKey(keys, Rounds()));
    output := state[..];
  }

  method DecryptBlockInto(input: Bytes, keys: Schedule) returns (output: Bytes)
    requires |input| == 16
    ensures output == DecryptBlock(input, keys)
  {
    hide InvSubBytes, InvShiftRows, InvMixColumns, AddRoundKey;
    var state := new bv8[16];
    Overwrite(state, input);
    AddRoundKeyInPlace(state, RoundKey(keys, Rounds()));
    for r := Rounds() downto 1
      invariant state[..] == Decrypting(input, keys, r)
    {
      InvShiftRowsInPlace(state);
      InvSubBytesInPlace(state);
      AddRoundKeyInPlace(state, RoundKey(keys, r));
      InvMixColumnsInPlace(state);
    }
    InvShiftRowsInPlace(state);
    InvSubBytesInPlace(state);
    AddRoundKeyInPlace(state, RoundKey(keys, 0));
    output := state[..];
  }

  // The key schedule

  function SubWord(w: Column): Column {
    Column(SBox(w.a), SBox(w.b), SBox(w.c), SBox(w.d))
  }

  function RotWord(w: Column): Column {
    Column(w.b, w.c, w.d, w.a)
  }

  const RCON: seq<bv8> := [0x00, 0x01, 0x02, 0x04, 0x08, 0x10, 0x20, 0x40, 0x80, 0x1b, 0x36]

  /** The power of x that the standard calls the round constant of round `n + 1`. */
  function PowerOfX(n: nat): bv8 {
    if n == 0 then 1 else Mul(PowerOfX(n - 1), 2)
  }

  lemma DoublingIsXtime(a: bv8)
    ensures Mul(a, 2) == Xtime(a)
  {
    hide Mul, Xtime;
    MulCommutes(a, 2);
    XtimeOfOne();
    XtimeOfProduct(1, a);
    OneIsNeutral(a);
  }

  lemma ConstantsDouble(i: nat)
    requires 1 <= i < 10
    ensures RCON[i + 1] == Xtime(RCON[i])
  {}

  /** The table `rcon` holds the powers of x. */
  lemma {:induction false} RoundConstantsArePowersOfX(i: nat)
    requires 1 <= i <= 10
    ensures RCON[i] == PowerOfX(i - 1)
  {
    hide Mul, Xtime;
    if i > 1 {
      RoundConstantsArePowersOfX(i - 1);
      ConstantsDouble(i - 1);
      DoublingIsXtime(RCON[i - 1]);
    }
  }

  /** Word `i` of the expanded key, by the recurrence of section 5.2 of the standard. */
  function Word(key: Bytes, i: nat): Column
    requires |key| == 16 && i < 44
  {
    if i < 4 then ColumnAt(key, i)
    else if i % 4 == 0 then
      Sum(Word(key, i - 4), Sum(SubWord(RotWord(Word(key, i - 1))), Column(PowerOfX(i / 4 - 1), 0, 0, 0)))
    else Sum(Word(key, i - 4), Word(key, i - 1))
  }

  ghost predicate IsScheduleOf(keys: Bytes, key: Bytes)
    requires |key| == 16
  {
    |keys| == 176 && forall i: nat :: i < 44 ==> ColumnAt(keys, i) == Word(key, i)
  }

  lemma ScheduleIsUnique(keys: Bytes, keys': Bytes, key: Bytes)
    requires |key| == 16
    requires IsScheduleOf(keys, key) && IsScheduleOf(keys', key)
    ensures keys == keys'
  {
    hide Word;
    forall j | 0 <= j < 176
      ensures keys[j] == keys'[j]
    {
      var i: nat := j / 4;
      assert ColumnAt(keys, i) == ColumnAt(keys', i);
    }
  }
}
