/** AES-128 in ECB mode over padded byte strings, printed as hexadecimal text. The class holds the expanded key and
    whether one has been set; its methods are proved equal to functions of the round keys, for which the round
    trip is shown at every length of plain text and for every schedule of 176 bytes of round keys. */
module Cipher {
  import opened Common
  import opened AesField
  import opened AesBlock
  import opened CipherText

  // Blocks in sequence

  function EncryptBlocks(data: Bytes, keys: Schedule): (r: Bytes)
    requires |data| % 16 == 0
    ensures |r| == |data|
  {
    if data == [] then [] else EncryptBlock(data[..16], keys) + EncryptBlocks(data[16..], keys)
  }

  function DecryptBlocks(data: Bytes, keys: Schedule): (r: Bytes)
    requires |data| % 16 == 0
    ensures |r| == |data|
  {
    if data == [] then [] else DecryptBlock(data[..16], keys) + DecryptBlocks(data[16..], keys)
  }

  lemma {:induction false} DecryptBlocksAfterEncryptBlocks(data: Bytes, keys: Schedule)
    requires |data| % 16 == 0
    ensures DecryptBlocks(EncryptBlocks(data, keys), keys) == data
  {
    hide EncryptBlock, DecryptBlock;
    if data != [] {
      var first, rest := data[..16], data[16..];
      DecryptBlockAfterEncryptBlock(first, keys);
      DecryptBlocksAfterEncryptBlocks(rest, keys);
      var e := EncryptBlocks(data, keys);
      assert e[..16] == EncryptBlock(first, keys);
      assert e[16..] == EncryptBlocks(rest, keys);
      assert data == first + rest;
    }
  }

  // Texts

  function EncryptText(plain: Bytes, keys: Schedule): string
  {
    PaddedLength(plain);
    ToHex(EncryptBlocks(AddPadding(plain, 16), keys))
  }

  function DecryptText(hex: string, keys: Schedule): Outcome<Bytes> {
    match FromHex(hex)
    case Throws => Throws
    case Returns(data) =>
      if data == [] || |data| % 16 != 0 then Returns([])
      else Returns(RemovePadding(DecryptBlocks(data, keys)))
  }

  lemma PaddedLength(plain: Bytes)
    ensures |AddPadding(plain, 16)| % 16 == 0
    ensures |plain| < |AddPadding(plain, 16)| <= |plain| + 16
  {
    hide Byte;
    var n := PaddingLength(|plain|, 16);
    assert |AddPadding(plain, 16)| == |plain| + n;
  }

  /** Decryption restores every plain text, under any 176 bytes of round keys. */
  lemma DecryptTextAfterEncryptText(plain: Bytes, keys: Schedule)
    ensures DecryptText(EncryptText(plain, keys), keys) == Returns(plain)
  {
    hide ToHex, FromHex, AddPadding, RemovePadding, EncryptBlocks, DecryptBlocks;
    PaddedLength(plain);
    var data := AddPadding(plain, 16);
    HexRoundTrip(EncryptBlocks(data, keys));
    DecryptBlocksAfterEncryptBlocks(data, keys);
    PaddingRoundTrip(plain, 16);
  }

  /** Different plain texts have different cipher texts, and every block of plain text is used. */
  lemma EncryptTextIsInjective(p: Bytes, q: Bytes, keys: Schedule)
    requires EncryptText(p, keys) == EncryptText(q, keys)
    ensures p == q
  {
    hide EncryptText, DecryptText;
    DecryptTextAfterEncryptText(p, keys);
    DecryptTextAfterEncryptText(q, keys);
  }

  lemma {:induction false} EncryptBlocksAfterDecryptBlocks(data: Bytes, keys: Schedule)
    requires |data| % 16 == 0
    ensures EncryptBlocks(DecryptBlocks(data, keys), keys) == data
  {
    hide EncryptBlock, DecryptBlock;
    if data != [] {
      var first, rest := data[..16], data[16..];
      EncryptBlockAfterDecryptBlock(first, keys);
      EncryptBlocksAfterDecryptBlocks(rest, keys);
      var d := DecryptBlocks(data, keys);
      assert d[..16] == DecryptBlock(first, keys);
      assert d[16..] == DecryptBlocks(rest, keys);
      assert data == first + rest;
    }
  }

  /** Whole blocks in lower-case digits, at least one, that decrypt to bytes with a padding at their end. */
  predicate IsCipherText(hex: string, keys: Schedule) {
    && hex != "" && AllLowerHex(hex) && |hex| % 32 == 0
    && match FromHex(hex)
       case Throws => false
       case Returns(data) => |data| % 16 == 0 && EndsInPadding(DecryptBlocks(data, keys))
  }

  lemma CipherTextIsReached(hex: string, keys: Schedule)
    requires IsCipherText(hex, keys)
    ensures EncryptText(RemovePadding(DecryptBlocks(FromHex(hex).value, keys)), keys) == hex
  {
    hide AllLowerHex, ToHex, FromHex, DecryptBlocks, EncryptBlocks, EndsInPadding, AddPadding, RemovePadding;
    var data := FromHex(hex).value;
    PaddingComesBack(DecryptBlocks(data, keys));
    EncryptBlocksAfterDecryptBlocks(data, keys);
    PrintedHexComesBack(hex);
  }

  lemma EncryptedIsCipherText(plain: Bytes, keys: Schedule)
    ensures IsCipherText(EncryptText(plain, keys), keys)
  {
    hide AllLowerHex, ToHex, FromHex, DecryptBlocks, EncryptBlocks, EndsInPadding, AddPadding;
    PaddedLength(plain);
    var data := AddPadding(plain, 16);
    EncryptedLength(plain, keys);
    HexRoundTrip(EncryptBlocks(data, keys));
    DecryptBlocksAfterEncryptBlocks(data, keys);
    PaddedEndsInPadding(plain);
  }

  /** For every text and any round keys: it is the encryption of some plain text exactly when it is made like one. */
  lemma CipherTextsAreExactly(hex: string, keys: Schedule)
    ensures (exists plain :: EncryptText(plain, keys) == hex) <==> IsCipherText(hex, keys)
  {
    hide EncryptText, IsCipherText;
    if plain :| EncryptText(plain, keys) == hex { EncryptedIsCipherText(plain, keys); }
    if IsCipherText(hex, keys) { CipherTextIsReached(hex, keys); }
  }

  lemma EncryptedLength(plain: Bytes, keys: Schedule)
    ensures |EncryptText(plain, keys)| == 32 * (|plain| / 16 + 1)
    ensures AllLowerHex(EncryptText(plain, keys))
  {
    hide EncryptBlocks, AllLowerHex, ToHex, Pairs;
    PaddedLength(plain);
    var data := EncryptBlocks(AddPadding(plain, 16), keys);
    HexRoundTripPairs(data);
    ToHexIsLower(data);
  }

  lemma NextBlock(data: Bytes, i: nat)
    requires i < |data| && i % 16 == 0 && |data| % 16 == 0
    ensures i + 16 <= |data|
    ensures data[i..][..16] == data[i..i + 16]
    ensures data[i..][16..] == data[i + 16..]
  {}

  lemma EncryptNextBlock(data: Bytes, i: nat, keys: Schedule)
    requires i < |data| && i % 16 == 0 && |data| % 16 == 0
    ensures i + 16 <= |data|
    ensures EncryptBlocks(data[i..], keys) == EncryptBlock(data[i..i + 16], keys) + EncryptBlocks(data[i + 16..], keys)
  {
    hide EncryptBlock;
    NextBlock(data, i);
  }

  method EncryptAll(data: Bytes, keys: Schedule) returns (encrypted: Bytes)
    requires |data| % 16 == 0
    ensures encrypted == EncryptBlocks(data, keys)
  {
    hide EncryptBlocks, EncryptBlock;
    encrypted := [];
    var i := 0;
    assert data[0..] == data;
    Regrouped([], [], EncryptBlocks(data, keys));
    while i < |data|
      invariant 0 <= i <= |data| && i % 16 == 0
      invariant EncryptBlocks(data, keys) == encrypted + EncryptBlocks(data[i..], keys)
    {
      EncryptNextBlock(data, i, keys);
      var block := EncryptBlockInto(data[i..i + 16], keys);
      Regrouped(encrypted, block, EncryptBlocks(data[i + 16..], keys));
      encrypted := encrypted + block;
      i := i + 16;
    }
    assert |EncryptBlocks(data[i..], keys)| == 0;
  }

  lemma DecryptNextBlock(data: Bytes, i: nat, keys: Schedule)
    requires i < |data| && i % 16 == 0 && |data| % 16 == 0
    ensures i + 16 <= |data|
    ensures DecryptBlocks(data[i..], keys) == DecryptBlock(data[i..i + 16], keys) + DecryptBlocks(data[i + 16..], keys)
  {
    hide DecryptBlock;
    NextBlock(data, i);
  }

  method DecryptAll(data: Bytes, keys: Schedule) returns (decrypted: Bytes)
    requires |data| % 16 == 0
    ensures decrypted == DecryptBlocks(data, keys)
  {
    hide DecryptBlocks, DecryptBlock;
    decrypted := [];
    var i := 0;
    assert data[0..] == data;
    Regrouped([], [], DecryptBlocks(data, keys));
    while i < |data|
      invariant 0 <= i <= |data| && i % 16 == 0
      invariant DecryptBlocks(data, keys) == decrypted + DecryptBlocks(data[i..], keys)
    {
      DecryptNextBlock(data, i, keys);
      var block := DecryptBlockInto(data[i..i + 16], keys);
      Regrouped(decrypted, block, DecryptBlocks(data[i + 16..], keys));
      decrypted := decrypted + block;
      i := i + 16;
    }
    assert |DecryptBlocks(data[i..], keys)| == 0;
  }

  // Keys

  /** The 16 bytes that `set_key` keeps: a longer key is cut, a shorter one filled with zeros. */
  function KeyBytes(key: Bytes): (k: Bytes)
    ensures |k| == 16
  {
    if |key| >= 16 then key[..16] else key + Repeat(0, 16 - |key|)
  }

  lemma NextWord(key: Bytes, i: nat)
    requires |key| == 16 && 4 <= i < 44
    ensures Word(key, i) ==
            Sum(Word(key, i - 4),
                if i % 4 == 0 then Sum(SubWord(RotWord(Word(key, i - 1))), Column(RCON[i / 4], 0, 0, 0))
                else Word(key, i - 1))
  {
    hide SBox, Plus, Sum, Mul;
    if i % 4 == 0 { RoundConstantsArePowersOfX(i / 4); }
  }

  lemma StoredWord(keys: Bytes, i: nat, w: Column)
    requires |keys| == 176 && i < 44
    ensures var keys' := keys[4 * i := w.a][4 * i + 1 := w.b][4 * i + 2 := w.c][4 * i + 3 := w.d];
            && ColumnAt(keys', i) == w
            && forall j: nat :: j < i ==> ColumnAt(keys', j) == ColumnAt(keys, j)
  {}

  /** The word before a multiple of four, rotated, substituted and changed by the round constant. */
  method MixedWord(temp: Column, rcon: bv8) returns (w: Column)
    ensures w == Sum(SubWord(RotWord(temp)), Column(rcon, 0, 0, 0))
  {
    hide SBox, Plus;
    var t := temp.a;
    RoundConstant(SBox(temp.b), SBox(temp.c), SBox(temp.d), SBox(t), rcon);
    w := Column(SBox(temp.b) ^ rcon, SBox(temp.c), SBox(temp.d), SBox(t));
  }

  lemma SumOfBytes(v: Column, w: Column, x: Column)
    ensures x == Column(v.a ^ w.a, v.b ^ w.b, v.c ^ w.c, v.d ^ w.d) ==> x == Sum(v, w)
  {}

  class Cipher {
    var roundKeys: Bytes
    var isKeySet: bool

    ghost predicate Valid()
      reads this
    {
      isKeySet ==> |roundKeys| == 176
    }

    constructor ()
      ensures Valid() && !isKeySet
    {
      roundKeys := [];
      isKeySet := false;
    }

    method SetKey(key: Bytes)
      modifies this
      ensures Valid() && isKeySet
      ensures IsScheduleOf(roundKeys, KeyBytes(key))
    {
      var actualKey := KeyBytes(key);
      roundKeys := Repeat(0, 176);
      KeyExpansion(actualKey);
      isKeySet := true;
    }

    method KeyExpansion(key: Bytes)
      requires |key| == 16 && |roundKeys| == 176
      modifies this`roundKeys
      ensures IsScheduleOf(roundKeys, key)
    {
      hide SBox, Plus;
      for i := 0 to 16
        invariant |roundKeys| == 176 && roundKeys[..i] == key[..i]
      {
        roundKeys := roundKeys[i := key[i]];
      }
      assert forall j: nat :: j < 4 ==> ColumnAt(roundKeys, j) == Word(key, j) by {
        assert roundKeys[..16] == key;
        forall j: nat | j < 4
          ensures ColumnAt(roundKeys, j) == ColumnAt(key, j)
        {
          assert roundKeys[4 * j] == roundKeys[..16][4 * j];
          assert roundKeys[4 * j + 1] == roundKeys[..16][4 * j + 1];
          assert roundKeys[4 * j + 2] == roundKeys[..16][4 * j + 2];
          assert roundKeys[4 * j + 3] == roundKeys[..16][4 * j + 3];
        }
      }
      for i := 4 to 44
        invariant |roundKeys| == 176
        invariant forall j: nat :: j < i ==> ColumnAt(roundKeys, j) == Word(key, j)
      {
        ExpandWord(key, i);
      }
    }

    /** One round of the loop over words. */
    method ExpandWord(key: Bytes, i: nat)
      requires |key| == 16 && |roundKeys| == 176 && 4 <= i < 44
      requires forall j: nat :: j < i ==> ColumnAt(roundKeys, j) == Word(key, j)
      modifies this`roundKeys
      ensures |roundKeys| == 176
      ensures forall j: nat :: j <= i ==> ColumnAt(roundKeys, j) == Word(key, j)
    {
      hide SBox, Plus, Sum, Word;
      var temp := ColumnAt(roundKeys, i - 1);
      if i % 4 == 0 {
        temp := MixedWord(temp, RCON[i / 4]);
      }
      var w := ColumnAt(roundKeys, i - 4);
      var next := Column(w.a ^ temp.a, w.b ^ temp.b, w.c ^ temp.c, w.d ^ temp.d);
      SumOfBytes(w, temp, next);
      NextWord(key, i);
      StoredWord(roundKeys, i, next);
      roundKeys := roundKeys[4 * i := next.a][4 * i + 1 := next.b][4 * i + 2 := next.c][4 * i + 3 := next.d];
    }

    method Encrypt(plain: Bytes) returns (hex: string)
      requires Valid()
      ensures hex == if isKeySet then EncryptText(plain, roundKeys) else ""
    {
      hide AddPadding, ToHex;
      if !isKeySet { return ""; }
      PaddedLength(plain);
      var data := AddPaddingTo(plain, 16);
      var encrypted := EncryptAll(data, roundKeys);
      hex := ToHexText(encrypted);
    }

    method Decrypt(hex: string) returns (r: Outcome<Bytes>)
      requires Valid()
      ensures r == if isKeySet then DecryptText(hex, roundKeys) else Returns([])
    {
      hide FromHex, RemovePadding;
      if !isKeySet { return Returns([]); }
      var bytes := FromHexText(hex);
      if bytes.Throws? { return Throws; }
      var data := bytes.value;
      if data == [] || |data| % 16 != 0 { return Returns([]); }
      var decrypted := DecryptAll(data, roundKeys);
      var plain := RemovePaddingFrom(decrypted);
      return Returns(plain);
    }
  }

  lemma RoundConstant(b: bv8, c: bv8, d: bv8, a: bv8, r: bv8)
    ensures Column(b ^ r, c, d, a) == Sum(Column(b, c, d, a), Column(r, 0, 0, 0))
  {
    PlusZero(c);
    PlusZero(d);
    PlusZero(a);
  }

  /** For every key string and every byte string: a cipher with the key restores what a cipher
      with the same key encrypted. */
  method EncryptThenDecrypt(key: Bytes, plain: Bytes) returns (hex: string, r: Outcome<Bytes>)
    ensures r == Returns(plain)
  {
    var cipher := new Cipher();
    cipher.SetKey(key);
    hex := cipher.Encrypt(plain);
    DecryptTextAfterEncryptText(plain, cipher.roundKeys);
    r := cipher.Decrypt(hex);
  }
}
