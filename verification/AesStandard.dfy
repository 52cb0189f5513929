/** The cipher byte by byte, as the standard defines it (FIPS 197 sections 5.1 to 5.3). */
module AesStandard {
  import opened Common
  import opened AesField
  import opened AesBlock
  import opened CipherText
  import opened Cipher

  // Where a byte comes from

  /** The byte that the row shift moves to place `i`: row `i % 4` is rotated to the left by its number. */
  function ShiftedFrom(i: nat): (j: nat)
    ensures j < 16
  {
    (i + 4 * (i % 4)) % 16
  }

  /** The byte that the inverse row shift moves to place `i`. */
  function UnshiftedFrom(i: nat): (j: nat)
    ensures j < 16
  {
    (i + 12 * (i % 4)) % 16
  }

  /** The byte `k` rows below byte `i` in its column, around the bottom. */
  function Below(i: nat, k: nat): (j: nat)
    requires i < 16
    ensures j < 16
  {
    4 * (i / 4) + (i + k) % 4
  }

  // Encryption

  /** One byte after the substitution and the row shift. */
  function Substituted(s: Bytes, i: nat): bv8
    requires |s| == 16
  {
    SBox(s[ShiftedFrom(i)])
  }

  predicate StartsEncrypted(s: Bytes, t: Bytes, keys: Schedule, i: nat)
    requires |s| == 16 && |t| == 16 && i < 16
  {
    t[i] == s[i] ^ keys[i]
  }

  /** Byte `i` of state `r` is the combination 2, 3, 1, 1 of a column of the state before, plus the key. */
  predicate NextEncrypted(states: seq<Bytes>, keys: Schedule, r: nat, i: nat)
    requires |states| == 10 && 1 <= r <= 9 && |states[r - 1]| == 16 && |states[r]| == 16 && i < 16
  {
    var s := states[r - 1];
    states[r][i] == Mul(Substituted(s, i), 2) ^ Mul(Substituted(s, Below(i, 1)), 3)
                    ^ Substituted(s, Below(i, 2)) ^ Substituted(s, Below(i, 3)) ^ keys[16 * r + i]
  }

  predicate EndsEncrypted(t: Bytes, keys: Schedule, out: Bytes, i: nat)
    requires |t| == 16 && |out| == 16 && i < 16
  {
    out[i] == Substituted(t, i) ^ keys[160 + i]
  }

  /** The ten states of the encryption of `s`, and the block `out` that the last half round makes of them. */
  ghost predicate EncryptsThrough(s: Bytes, keys: Schedule, states: seq<Bytes>, out: Bytes)
    requires |s| == 16 && |out| == 16
  {
    && |states| == 10 && (forall r :: 0 <= r < 10 ==> |states[r]| == 16)
    && (forall i: nat :: i < 16 ==> StartsEncrypted(s, states[0], keys, i))
    && (forall r: nat, i: nat :: 1 <= r <= 9 && i < 16 ==> NextEncrypted(states, keys, r, i))
    && (forall i: nat :: i < 16 ==> EndsEncrypted(states[9], keys, out, i))
  }

  lemma PlusIsXor(a: bv8, b: bv8)
    ensures Plus(a, b) == a ^ b
  {}

  lemma FourTerms(a: bv8, b: bv8, c: bv8, d: bv8, k: bv8)
    ensures Plus(Plus(Plus(a, b), Plus(c, d)), k) == a ^ b ^ c ^ d ^ k
  {}

  lemma ShiftedIndex(i: nat)
    requires i < 16
    ensures ShiftedFrom(i) == i % 4 + 4 * ((i / 4 + i % 4) % 4) && i == i % 4 + 4 * (i / 4)
  {}

  lemma ShiftedByte(s: Bytes, i: nat)
    requires |s| == 16 && i < 16
    ensures ShiftRows(SubBytes(s))[i] == Substituted(s, i)
  {
    hide SBox, ShiftRows, ShiftedFrom;
    ShiftedIndex(i);
    ShiftRowsRotatesRows(SubBytes(s), i % 4, i / 4);
  }

  function Turned(r: nat, k: nat): (q: nat)
    ensures r < 4 && k < 4 ==> q < 4
  {
    if r + k < 4 then r + k else r + k - 4
  }

  function ByteOf(v: Column, r: nat): bv8 {
    if r == 0 then v.a else if r == 1 then v.b else if r == 2 then v.c else v.d
  }

  lemma ColumnByte(s: Bytes, c: nat, r: nat)
    requires 4 * c + 4 <= |s| && r < 4
    ensures s[4 * c + r] == ByteOf(ColumnAt(s, c), r)
  {
    if r == 0 {} else if r == 1 {} else if r == 2 {} else {}
  }

  /** The column with row `r` first. */
  function TurnedColumn(v: Column, r: nat): Column {
    Column(ByteOf(v, r), ByteOf(v, Turned(r, 1)), ByteOf(v, Turned(r, 2)), ByteOf(v, Turned(r, 3)))
  }

  lemma CirculantByte(v: Column, m: Column, r: nat)
    requires r < 4
    ensures ByteOf(Circulant(v, m), r) == Dot(TurnedColumn(v, r), m)
  {
    hide Dot;
    if r == 0 {} else if r == 1 {} else if r == 2 {} else {}
  }

  lemma ByteOfColumn(t: Bytes, m: Column, c: nat, r: nat)
    requires |t| == 16 && c < 4 && r < 4
    ensures MapColumns(t, m)[4 * c + r] ==
            Plus(Plus(Mul(t[4 * c + r], m.a), Mul(t[4 * c + Turned(r, 1)], m.b)),
                 Plus(Mul(t[4 * c + Turned(r, 2)], m.c), Mul(t[4 * c + Turned(r, 3)], m.d)))
  {
    hide Mul, Plus, MapColumns, Circulant, ColumnAt, ByteOf, Turned;
    ColumnOfMapped(t, m, c);
    ColumnByte(MapColumns(t, m), c, r);
    CirculantByte(ColumnAt(t, c), m, r);
    ColumnByte(t, c, r);
    ColumnByte(t, c, Turned(r, 1));
    ColumnByte(t, c, Turned(r, 2));
    ColumnByte(t, c, Turned(r, 3));
  }

  lemma PlaceInColumn(i: nat, k: nat)
    requires i < 16 && k < 4
    ensures Below(i, k) == 4 * (i / 4) + Turned(i % 4, k) && i == 4 * (i / 4) + i % 4
  {}

  lemma ByteOfMapped(t: Bytes, m: Column, i: nat)
    requires |t| == 16 && i < 16
    ensures MapColumns(t, m)[i] ==
            Plus(Plus(Mul(t[i], m.a), Mul(t[Below(i, 1)], m.b)),
                 Plus(Mul(t[Below(i, 2)], m.c), Mul(t[Below(i, 3)], m.d)))
  {
    hide Mul, Plus, MapColumns, Below, Turned;
    PlaceInColumn(i, 1);
    PlaceInColumn(i, 2);
    PlaceInColumn(i, 3);
    ByteOfColumn(t, m, i / 4, i % 4);
  }

  lemma NextEncryptedHolds(s: Bytes, keys: Schedule, r: nat, i: nat)
    requires |s| == 16 && 1 <= r <= 9 && i < 16
    ensures AddRoundKey(MixColumns(ShiftRows(SubBytes(s))), RoundKey(keys, r))[i] ==
            Mul(Substituted(s, i), 2) ^ Mul(Substituted(s, Below(i, 1)), 3)
            ^ Substituted(s, Below(i, 2)) ^ Substituted(s, Below(i, 3)) ^ keys[16 * r + i]
  {
    hide Mul, Plus, Substituted, ShiftRows, SubBytes, MapColumns, Below;
    var t := ShiftRows(SubBytes(s));
    ByteOfMapped(t, MIX, i);
    ShiftedByte(s, i);
    ShiftedByte(s, Below(i, 1));
    ShiftedByte(s, Below(i, 2));
    ShiftedByte(s, Below(i, 3));
    MulByOne(t[Below(i, 2)]);
    MulByOne(t[Below(i, 3)]);
    FourTerms(Mul(t[i], 2), Mul(t[Below(i, 1)], 3), t[Below(i, 2)], t[Below(i, 3)], keys[16 * r + i]);
  }

  /** For every block and any 176 bytes of round keys the ten states exist, and end in the encrypted block. */
  lemma EncryptionByBytes(s: Bytes, keys: Schedule) returns (states: seq<Bytes>)
    requires |s| == 16
    ensures EncryptsThrough(s, keys, states, EncryptBlock(s, keys))
  {
    hide SubBytes, ShiftRows, MixColumns, Plus, Substituted, Mul, Below;
    states := seq(10, r requires 0 <= r < 10 => Encrypting(s, keys, r));
    forall i: nat | i < 16
      ensures StartsEncrypted(s, states[0], keys, i)
    {
      PlusIsXor(s[i], keys[i]);
    }
    forall r: nat, i: nat | 1 <= r <= 9 && i < 16
      ensures NextEncrypted(states, keys, r, i)
    {
      NextEncryptedHolds(states[r - 1], keys, r, i);
    }
    forall i: nat | i < 16
      ensures EndsEncrypted(states[9], keys, EncryptBlock(s, keys), i)
    {
      ShiftedByte(states[9], i);
      PlusIsXor(Substituted(states[9], i), keys[160 + i]);
    }
  }

  // Decryption

  function Unsubstituted(s: Bytes, i: nat): bv8
    requires |s| == 16
  {
    InvSBox(s[UnshiftedFrom(i)])
  }

  /** One byte after the inverse row shift, the inverse substitution and the key of round `r`. */
  function Unkeyed(s: Bytes, keys: Schedule, r: nat, i: nat): bv8
    requires |s| == 16 && r <= 9 && i < 16
  {
    Unsubstituted(s, i) ^ keys[16 * r + i]
  }

  predicate StartsDecrypted(s: Bytes, t: Bytes, keys: Schedule, i: nat)
    requires |s| == 16 && |t| == 16 && i < 16
  {
    t[i] == s[i] ^ keys[160 + i]
  }

  /** Byte `i` of state `r - 1` is the combination 14, 11, 13, 9 of a column of the state before. */
  predicate NextDecrypted(states: seq<Bytes>, keys: Schedule, r: nat, i: nat)
    requires |states| == 10 && 1 <= r <= 9 && |states[r - 1]| == 16 && |states[r]| == 16 && i < 16
  {
    var s := states[r];
    states[r - 1][i] == Mul(Unkeyed(s, keys, r, i), 14) ^ Mul(Unkeyed(s, keys, r, Below(i, 1)), 11)
                        ^ Mul(Unkeyed(s, keys, r, Below(i, 2)), 13) ^ Mul(Unkeyed(s, keys, r, Below(i, 3)), 9)
  }

  predicate EndsDecrypted(t: Bytes, keys: Schedule, out: Bytes, i: nat)
    requires |t| == 16 && |out| == 16 && i < 16
  {
    out[i] == Unkeyed(t, keys, 0, i)
  }

  /** The states of the decryption of `s`, the first being `states[9]` and the last `states[0]`. */
  ghost predicate DecryptsThrough(s: Bytes, keys: Schedule, states: seq<Bytes>, out: Bytes)
    requires |s| == 16 && |out| == 16
  {
    && |states| == 10 && (forall r :: 0 <= r < 10 ==> |states[r]| == 16)
    && (forall i: nat :: i < 16 ==> StartsDecrypted(s, states[9], keys, i))
    && (forall r: nat, i: nat :: 1 <= r <= 9 && i < 16 ==> NextDecrypted(states, keys, r, i))
    && (forall i: nat :: i < 16 ==> EndsDecrypted(states[0], keys, out, i))
  }

  lemma UnshiftedIndex(i: nat)
    requires i < 16
    ensures var r := i % 4;
            var c := (i / 4 + 4 - r) % 4;
            c < 4 && r + 4 * ((c + r) % 4) == i && UnshiftedFrom(i) == r + 4 * c
  {}

  lemma UnshiftedByte(s: Bytes, i: nat)
    requires |s| == 16 && i < 16
    ensures InvSubBytes(InvShiftRows(s))[i] == Unsubstituted(s, i)
  {
    hide InvSBox, InvShiftRows, UnshiftedFrom;
    UnshiftedIndex(i);
    InvShiftRowsRotatesRows(s, i % 4, (i / 4 + 4 - i % 4) % 4);
  }

  lemma UnkeyedByte(s: Bytes, keys: Schedule, r: nat, i: nat)
    requires |s| == 16 && r <= 9 && i < 16
    ensures AddRoundKey(InvSubBytes(InvShiftRows(s)), RoundKey(keys, r))[i] == Unkeyed(s, keys, r, i)
  {
    hide InvSubBytes, InvShiftRows, Plus, Unsubstituted;
    UnshiftedByte(s, i);
    PlusIsXor(Unsubstituted(s, i), keys[16 * r + i]);
  }

  lemma FourProducts(a: bv8, b: bv8, c: bv8, d: bv8)
    ensures Plus(Plus(a, b), Plus(c, d)) == a ^ b ^ c ^ d
  {}

  lemma NextDecryptedHolds(s: Bytes, keys: Schedule, r: nat, i: nat)
    requires |s| == 16 && 1 <= r <= 9 && i < 16
    ensures InvMixColumns(AddRoundKey(InvSubBytes(InvShiftRows(s)), RoundKey(keys, r)))[i] ==
            Mul(Unkeyed(s, keys, r, i), 14) ^ Mul(Unkeyed(s, keys, r, Below(i, 1)), 11)
            ^ Mul(Unkeyed(s, keys, r, Below(i, 2)), 13) ^ Mul(Unkeyed(s, keys, r, Below(i, 3)), 9)
  {
    hide Mul, Plus, Unkeyed, InvShiftRows, InvSubBytes, AddRoundKey, MapColumns, Below;
    var t := AddRoundKey(InvSubBytes(InvShiftRows(s)), RoundKey(keys, r));
    ByteOfMapped(t, UNMIX, i);
    UnkeyedByte(s, keys, r, i);
    UnkeyedByte(s, keys, r, Below(i, 1));
    UnkeyedByte(s, keys, r, Below(i, 2));
    UnkeyedByte(s, keys, r, Below(i, 3));
    FourProducts(Mul(t[i], 14), Mul(t[Below(i, 1)], 11), Mul(t[Below(i, 2)], 13), Mul(t[Below(i, 3)], 9));
  }

  /** The same for decryption. */
  lemma DecryptionByBytes(s: Bytes, keys: Schedule) returns (states: seq<Bytes>)
    requires |s| == 16
    ensures DecryptsThrough(s, keys, states, DecryptBlock(s, keys))
  {
    hide InvSubBytes, InvShiftRows, InvMixColumns, Plus, Unkeyed, Mul, Below;
    states := seq(10, r requires 0 <= r < 10 => Decrypting(s, keys, r + 1));
    forall i: nat | i < 16
      ensures StartsDecrypted(s, states[9], keys, i)
    {
      PlusIsXor(s[i], keys[160 + i]);
    }
    forall r: nat, i: nat | 1 <= r <= 9 && i < 16
      ensures NextDecrypted(states, keys, r, i)
    {
      NextDecryptedHolds(states[r], keys, r, i);
    }
    forall i: nat | i < 16
      ensures EndsDecrypted(states[0], keys, DecryptBlock(s, keys), i)
    {
      UnkeyedByte(states[0], keys, 0, i);
    }
  }

  // The key schedule

  /** The round constant of words 4, 8, ... 40. */
  function RoundConstantOf(w: nat): bv8
    requires w < 44
  {
    if w < 8 then 0x01 else if w < 12 then 0x02 else if w < 16 then 0x04 else if w < 20 then 0x08
    else if w < 24 then 0x10 else if w < 28 then 0x20 else if w < 32 then 0x40 else if w < 36 then 0x80
    else if w < 40 then 0x1b else 0x36
  }

  /** Byte `b` of word `w` of the expanded key, from the four words before it. */
  predicate NextKeyByte(keys: Bytes, w: nat, b: nat)
    requires |keys| == 176 && 4 <= w < 44 && b < 4
  {
    keys[4 * w + b] ==
    if w % 4 == 0 then
      keys[4 * w + b - 16] ^ SBox(keys[4 * (w - 1) + (b + 1) % 4]) ^ if b == 0 then RoundConstantOf(w) else 0
    else keys[4 * w + b - 16] ^ keys[4 * w + b - 4]
  }

  /** The key string, cut or filled with zeros to 16 bytes, followed by 160 bytes that each follow from those before. */
  ghost predicate ExpandsTo(key: Bytes, keys: Bytes) {
    && |keys| == 176
    && (forall j: nat :: j < 16 ==> keys[j] == if j < |key| then key[j] else 0)
    && (forall w: nat, b: nat :: 4 <= w < 44 && b < 4 ==> NextKeyByte(keys, w, b))
  }

  lemma ConstantIsPower(w: nat)
    requires 4 <= w < 44 && w % 4 == 0
    ensures PowerOfX(w / 4 - 1) == RoundConstantOf(w)
  {
    hide PowerOfX;
    RoundConstantsArePowersOfX(w / 4);
    ConstantInTable(w);
  }

  lemma ConstantInTable(w: nat)
    requires 4 <= w < 44 && w % 4 == 0
    ensures RCON[w / 4] == RoundConstantOf(w)
  {}

  lemma ThreeTerms(a: bv8, b: bv8, c: bv8)
    ensures Plus(a, Plus(b, c)) == a ^ b ^ c
  {}

  lemma SumByte(p: Column, q: Column, b: nat)
    ensures ByteOf(Sum(p, q), b) == Plus(ByteOf(p, b), ByteOf(q, b))
  {
    hide Plus;
  }

  lemma ConstantByte(c: bv8, b: nat)
    requires b < 4
    ensures ByteOf(Column(c, 0, 0, 0), b) == if b == 0 then c else 0
  {}

  lemma TurnedByte(q: Column, b: nat)
    requires b < 4
    ensures ByteOf(SubWord(RotWord(q)), b) == SBox(ByteOf(q, (b + 1) % 4))
  {
    hide SBox;
    if b == 0 {} else if b == 1 {} else if b == 2 {} else {}
  }

  lemma KeyColumn(keys: Bytes, key: Bytes, w: nat)
    requires |key| == 16 && IsScheduleOf(keys, key) && 4 <= w < 44
    ensures var p, q, here := ColumnAt(keys, w - 4), ColumnAt(keys, w - 1), ColumnAt(keys, w);
            here == if w % 4 == 0 then Sum(p, Sum(SubWord(RotWord(q)), Column(RoundConstantOf(w), 0, 0, 0)))
                    else Sum(p, q)
  {
    hide Sum, Word, PowerOfX, RoundConstantOf, ColumnAt, SubWord, RotWord;
    assert ColumnAt(keys, w) == Word(key, w);
    assert ColumnAt(keys, w - 4) == Word(key, w - 4) && ColumnAt(keys, w - 1) == Word(key, w - 1);
    WordStep(key, w);
    if w % 4 == 0 { ConstantIsPower(w); }
  }

  lemma KeyByteOfWord(keys: Bytes, key: Bytes, w: nat, b: nat)
    requires |key| == 16 && IsScheduleOf(keys, key) && 4 <= w < 44 && b < 4
    ensures NextKeyByte(keys, w, b)
  {
    hide SBox, Word, RoundConstantOf, IsScheduleOf, ColumnAt, ByteOf, Sum, SubWord, RotWord, Plus;
    LengthOfSchedule(keys, key);
    KeyColumn(keys, key, w);
    ColumnByte(keys, w, b);
    ColumnByte(keys, w - 4, b);
    ColumnByte(keys, w - 1, b);
    ColumnByte(keys, w - 1, (b + 1) % 4);
    var p, q := ColumnAt(keys, w - 4), ColumnAt(keys, w - 1);
    if w % 4 == 0 {
      var turned, constant := SubWord(RotWord(q)), Column(RoundConstantOf(w), 0, 0, 0);
      SumByte(p, Sum(turned, constant), b);
      SumByte(turned, constant, b);
      TurnedByte(q, b);
      ConstantByte(RoundConstantOf(w), b);
      ThreeTerms(ByteOf(p, b), ByteOf(turned, b), ByteOf(constant, b));
    } else {
      SumByte(p, q, b);
      PlusIsXor(ByteOf(p, b), ByteOf(q, b));
    }
  }

  lemma LengthOfSchedule(keys: Bytes, key: Bytes)
    requires |key| == 16 && IsScheduleOf(keys, key)
    ensures |keys| == 176
  {}

  lemma WordStep(key: Bytes, w: nat)
    requires |key| == 16 && 4 <= w < 44
    ensures Word(key, w) ==
            if w % 4 == 0 then
              Sum(Word(key, w - 4), Sum(SubWord(RotWord(Word(key, w - 1))), Column(PowerOfX(w / 4 - 1), 0, 0, 0)))
            else Sum(Word(key, w - 4), Word(key, w - 1))
  {
    hide SBox, Plus, Mul, Sum;
  }

  lemma KeyByteAtStart(keys: Bytes, key: Bytes, j: nat)
    requires |key| == 16 && IsScheduleOf(keys, key) && j < 16
    ensures keys[j] == key[j]
  {
    assert ColumnAt(keys, j / 4) == Word(key, j / 4) == ColumnAt(key, j / 4);
    var b := j % 4;
    if b == 0 {} else if b == 1 {} else if b == 2 {} else {}
  }

  /** What `set_key` stores for a key string follows the byte equations, */
  lemma ScheduleByBytes(key: Bytes, keys: Bytes)
    requires IsScheduleOf(keys, KeyBytes(key))
    ensures ExpandsTo(key, keys)
  {
    hide SBox, Word, NextKeyByte;
    forall j: nat | j < 16
      ensures keys[j] == if j < |key| then key[j] else 0
    {
      KeyByteAtStart(keys, KeyBytes(key), j);
    }
    forall w: nat, b: nat | 4 <= w < 44 && b < 4
      ensures NextKeyByte(keys, w, b)
    {
      KeyByteOfWord(keys, KeyBytes(key), w, b);
    }
  }

  /** and these equations leave no choice. */
  lemma {:induction false} ExpansionIsUnique(key: Bytes, keys: Bytes, keys': Bytes, j: nat)
    requires ExpandsTo(key, keys) && ExpandsTo(key, keys') && j < 176
    ensures keys[j] == keys'[j]
  {
    hide SBox, RoundConstantOf;
    if j >= 16 {
      var w, b := j / 4, j % 4;
      ExpansionIsUnique(key, keys, keys', j - 16);
      ExpansionIsUnique(key, keys, keys', j - 4);
      if w % 4 == 0 { ExpansionIsUnique(key, keys, keys', 4 * (w - 1) + (b + 1) % 4); }
      assert NextKeyByte(keys, w, b) && NextKeyByte(keys', w, b);
    }
  }

  // Blocks on their own

  function BlockAt(data: Bytes, i: nat): (b: Bytes)
    requires 16 * i + 16 <= |data|
    ensures |b| == 16
  {
    data[16 * i..16 * i + 16]
  }

  /** The blocks are encrypted and decrypted one by one, without regard to each other. */
  lemma {:induction false} EveryBlockOnItsOwn(data: Bytes, keys: Schedule, i: nat)
    requires |data| % 16 == 0 && 16 * i + 16 <= |data|
    ensures BlockAt(EncryptBlocks(data, keys), i) == EncryptBlock(BlockAt(data, i), keys)
    ensures BlockAt(DecryptBlocks(data, keys), i) == DecryptBlock(BlockAt(data, i), keys)
  {
    hide EncryptBlock, DecryptBlock;
    if i > 0 {
      var rest, k := data[16..], 16 * (i - 1);
      EveryBlockOnItsOwn(rest, keys, i - 1);
      SliceOfRest(data, EncryptBlocks(data, keys), EncryptBlocks(rest, keys), k);
      SliceOfRest(data, DecryptBlocks(data, keys), DecryptBlocks(rest, keys), k);
      SliceOfRest(data, data, rest, k);
    }
  }

  lemma SliceOfRest(data: Bytes, whole: Bytes, rest: Bytes, k: nat)
    requires |whole| == |data| && |data| >= 16 && rest == whole[16..] && k + 32 <= |data|
    ensures whole[k + 16..k + 32] == rest[k..k + 16]
  {}
}
