/** Slicing and reversing UTF-8 strings by code points. */
module U8String {
  import opened Common
  import opened Utf8

  /** One entry of the index map: where a code point starts and how many bytes it takes. */
  datatype Piece = Piece(start: nat, len: nat)

  /** The pieces of `s`, shifted by `offset`. */
  function Pieces(s: Bytes, offset: nat): seq<Piece> {
    if s == [] then []
    else [Piece(offset, LengthOfFirst(s))] + Pieces(s[LengthOfFirst(s)..], offset + LengthOfFirst(s))
  }

  /** How many bytes the first `n` code points take. */
  function BytesOfFirst(s: Bytes, n: nat): (b: nat)
    ensures b <= |s|
  {
    if s == [] || n == 0 then 0 else LengthOfFirst(s) + BytesOfFirst(s[LengthOfFirst(s)..], n - 1)
  }

  lemma PiecesStep(s: Bytes, offset: nat)
    requires s != []
    ensures Pieces(s, offset)
         == [Piece(offset, LengthOfFirst(s))] + Pieces(s[LengthOfFirst(s)..], offset + LengthOfFirst(s))
  {
    hide DecodeFirst;
  }

  lemma NoPieces()
    ensures forall n: nat :: Pieces([], n) == []
  {}

  method Utf8IndexMap(s: Bytes) returns (m: seq<Piece>)
    ensures m == Pieces(s, 0)
  {
    hide DecodeFirst, Pieces;
    m := [];
    var index := 0;
    assert s[0..] == s;
    NoPieces();
    while index < |s|
      invariant 0 <= index <= |s|
      invariant Pieces(s, 0) == m + Pieces(s[index..], index)
    {
      var start := index;
      var more, index', cp := NextCodePoint(s, index);
      DropTwice(s, start, index' - start);
      PiecesStep(s[start..], start);
      Regrouped(m, [Piece(start, index' - start)], Pieces(s[index'..], index'));
      index := index';
      m := m + [Piece(start, index - start)];
    }
    assert s[index..] == [];
    Regrouped(m, [], []);
  }

  lemma BytesStep(s: Bytes, n: nat)
    requires s != [] && n > 0
    ensures BytesOfFirst(s, n) == LengthOfFirst(s) + BytesOfFirst(s[LengthOfFirst(s)..], n - 1)
  {
    hide DecodeFirst;
  }

  lemma DropTwice(s: Bytes, a: nat, b: nat)
    requires a <= |s| && b <= |s| - a
    ensures s[a..][b..] == s[a + b..]
  {}

  /** The map cuts any byte string, well-formed or not, into contiguous pieces of one to four bytes,
      one for each decoded code point. */
  lemma {:induction false} PiecesPartition(s: Bytes, offset: nat, i: nat)
    requires i < |Pieces(s, offset)|
    ensures |Pieces(s, offset)| == |Decode(s)|
    ensures var p := Pieces(s, offset)[i];
            && 1 <= p.len <= 4
            && p.start == offset + BytesOfFirst(s, i)
            && p.start + p.len == offset + BytesOfFirst(s, i + 1) <= offset + |s|
            && DecodeFirst(s[p.start - offset..]) == Decoded(Decode(s)[i], p.len)
    decreases |s|
  {
    hide DecodeFirst, BytesOfFirst, Pieces, Decode;
    PiecesCount(s, offset);
    HasFirst(s, offset);
    FirstPiece(s, offset);
    if i > 0 {
      var n := LengthOfFirst(s);
      var rest := s[n..];
      assert Pieces(s, offset)[1..][i - 1] == Pieces(s, offset)[i];
      assert Decode(s)[1..][i - 1] == Decode(s)[i];
      PiecesPartition(rest, offset + n, i - 1);
      BytesStep(s, i);
      BytesStep(s, i + 1);
      DropTwice(s, n, BytesOfFirst(rest, i - 1));
    }
  }

  lemma HasFirst(s: Bytes, offset: nat)
    ensures Pieces(s, offset) != [] ==> s != []
  {}

  lemma FirstPiece(s: Bytes, offset: nat)
    requires s != []
    ensures Pieces(s, offset)[0] == Piece(offset, LengthOfFirst(s))
    ensures Pieces(s, offset)[1..] == Pieces(s[LengthOfFirst(s)..], offset + LengthOfFirst(s))
    ensures Decode(s)[0] == DecodeFirst(s).cp && Decode(s)[1..] == Decode(s[LengthOfFirst(s)..])
    ensures BytesOfFirst(s, 0) == 0 && BytesOfFirst(s, 1) == LengthOfFirst(s)
    ensures s[0..] == s
  {
    hide DecodeFirst;
    assert BytesOfFirst(s[LengthOfFirst(s)..], 0) == 0;
  }

  lemma {:induction false} PiecesCount(s: Bytes, offset: nat)
    ensures |Pieces(s, offset)| == |Decode(s)|
    decreases |s|
  {
    hide DecodeFirst;
    if s != [] { PiecesCount(s[LengthOfFirst(s)..], offset + LengthOfFirst(s)); }
  }

  /** All code points together take all bytes. */
  lemma {:induction false} AllBytes(s: Bytes)
    ensures BytesOfFirst(s, |Decode(s)|) == |s|
  {
    hide DecodeFirst;
    if s != [] { AllBytes(s[LengthOfFirst(s)..]); }
  }

  lemma {:induction false} MoreTakeMoreBytes(s: Bytes, m: nat, n: nat)
    requires m <= n
    ensures BytesOfFirst(s, m) <= BytesOfFirst(s, n)
  {
    hide DecodeFirst;
    if s != [] && m > 0 { MoreTakeMoreBytes(s[LengthOfFirst(s)..], m - 1, n - 1); }
  }

  // Slices

  function Left(s: Bytes, n: nat): Bytes {
    s[..BytesOfFirst(s, n)]
  }

  function Right(s: Bytes, n: nat): Bytes {
    if n >= |Decode(s)| then s else s[BytesOfFirst(s, |Decode(s)| - n)..]
  }

  function Mid(s: Bytes, pos: nat, count: nat): Bytes {
    MoreTakeMoreBytes(s, pos, pos + count);
    s[BytesOfFirst(s, pos)..BytesOfFirst(s, pos + count)]
  }

  lemma {:induction false} PastTheEnd(s: Bytes, n: nat)
    requires n >= |Decode(s)|
    ensures BytesOfFirst(s, n) == |s|
  {
    AllBytes(s);
    MoreTakeMoreBytes(s, |Decode(s)|, n);
  }

  /** Left and right parts that share the code points of a string make it up again. */
  lemma LeftAndRightMakeTheWhole(s: Bytes, n: nat)
    requires n <= |Decode(s)|
    ensures Left(s, n) + Right(s, |Decode(s)| - n) == s
  {
    hide DecodeFirst, Decode;
    if n == 0 { assert BytesOfFirst(s, 0) == 0; }
  }

  lemma NoBytes(s: Bytes)
    ensures BytesOfFirst(s, 0) == 0 && s[0..] == s && Decode(s)[0..] == Decode(s)
    ensures s == [] ==> forall n: nat :: BytesOfFirst(s, n) == 0
  {}

  lemma {:induction false} DecodeFrom(s: Bytes, n: nat)
    requires n <= |Decode(s)|
    ensures Decode(s[BytesOfFirst(s, n)..]) == Decode(s)[n..]
    decreases n
  {
    hide DecodeFirst, Decode, BytesOfFirst;
    if n == 0 {
      NoBytes(s);
    } else {
      NoCodes(s);
      FirstPiece(s, 0);
      var k := LengthOfFirst(s);
      DecodeFrom(s[k..], n - 1);
      BytesStep(s, n);
      DropTwice(s, k, BytesOfFirst(s[k..], n - 1));
      assert Decode(s)[1..][n - 1..] == Decode(s)[n..];
    }
  }

  lemma Cut2(s: Bytes, k: nat)
    requires s != [] && 1 <= k <= |s| && Decode2(s).len <= k
    ensures Decode2(s[..k]) == Decode2(s)
  {
    hide Tail, Join2;
    if k >= 2 { assert s[..k][0] == s[0] && s[..k][1] == s[1]; }
  }

  lemma Cut3(s: Bytes, k: nat)
    requires s != [] && 1 <= k <= |s| && Decode3(s).len <= k
    ensures Decode3(s[..k]) == Decode3(s)
  {
    hide Tail, Join3, Surrogate;
    if k >= 3 { assert s[..k][0] == s[0] && s[..k][1] == s[1] && s[..k][2] == s[2]; }
  }

  lemma Cut4(s: Bytes, k: nat)
    requires s != [] && 1 <= k <= |s| && Decode4(s).len <= k
    ensures Decode4(s[..k]) == Decode4(s)
  {
    hide Tail, Join4;
    if k >= 4 { assert s[..k][0] == s[0] && s[..k][1] == s[1] && s[..k][2] == s[2] && s[..k][3] == s[3]; }
  }

  /** Cutting a string after the piece of its first code point does not change how that is decoded:
      a malformed lead byte stays malformed. */
  lemma CutKeepsFirst(s: Bytes, k: nat)
    requires s != [] && LengthOfFirst(s) <= k <= |s|
    ensures DecodeFirst(s[..k]) == DecodeFirst(s)
  {
    hide Ascii, Lead2, Lead3, Lead4, Wide, Decode2, Decode3, Decode4;
    assert s[..k][0] == s[0];
    if Ascii(s[0]) {
    } else if Lead2(s[0]) {
      Cut2(s, k);
    } else if Lead3(s[0]) {
      Cut3(s, k);
    } else if Lead4(s[0]) {
      Cut4(s, k);
    }
  }

  lemma {:induction false} DecodeUpTo(s: Bytes, n: nat)
    requires n <= |Decode(s)|
    ensures Decode(s[..BytesOfFirst(s, n)]) == Decode(s)[..n]
    decreases n
  {
    hide DecodeFirst;
    var b := BytesOfFirst(s, n);
    if n == 0 {
      assert s[..0] == [];
    } else {
      var k := LengthOfFirst(s);
      FirstPiece(s, 0);
      DecodeUpTo(s[k..], n - 1);
      CutKeepsFirst(s, b);
      assert s[..b][k..] == s[k..][..b - k];
      FirstPiece(s[..b], 0);
      assert Decode(s)[..n][1..] == Decode(s)[1..][..n - 1];
      SplitFirst(Decode(s[..b]), Decode(s)[..n]);
    }
  }

  lemma SplitFirst(u: Codes, v: Codes)
    requires u != [] && v != [] && u[0] == v[0] && u[1..] == v[1..]
    ensures u == v
  {
    assert u == [u[0]] + u[1..];
    assert v == [v[0]] + v[1..];
  }

  /** Slices by code points decode to the slices of the decoded string, for every byte string. */
  lemma SlicesDecodeToSlices(s: Bytes, n: nat)
    requires n <= |Decode(s)|
    ensures Decode(Left(s, n)) == Decode(s)[..n]
    ensures Decode(Right(s, n)) == Decode(s)[|Decode(s)| - n..]
  {
    hide DecodeFirst, Decode;
    DecodeUpTo(s, n);
    DecodeFrom(s, |Decode(s)| - n);
    if n == |Decode(s)| { assert Decode(s)[0..] == Decode(s); }
  }

  lemma {:induction false} BytesAfter(s: Bytes, pos: nat, count: nat)
    ensures BytesOfFirst(s, pos + count) == BytesOfFirst(s, pos) + BytesOfFirst(s[BytesOfFirst(s, pos)..], count)
    decreases pos
  {
    hide DecodeFirst, BytesOfFirst;
    NoBytes(s);
    if pos > 0 && s != [] {
      var k := LengthOfFirst(s);
      BytesAfter(s[k..], pos - 1, count);
      BytesStep(s, pos);
      BytesStep(s, pos + count);
      DropTwice(s, k, BytesOfFirst(s[k..], pos - 1));
    }
  }

  lemma MidDecodesToSlice(s: Bytes, pos: nat, count: nat)
    requires pos <= |Decode(s)|
    ensures Decode(Mid(s, pos, count)) == Decode(s)[pos..Least(pos + count, |Decode(s)|)]
  {
    hide DecodeFirst, Decode, BytesOfFirst;
    var tail := s[BytesOfFirst(s, pos)..];
    DecodeFrom(s, pos);
    BytesAfter(s, pos, count);
    var n := Least(count, |Decode(tail)|);
    DecodeUpTo(tail, n);
    if count > |Decode(tail)| {
      PastTheEnd(tail, count);
      PastTheEnd(tail, n);
    }
    assert Mid(s, pos, count) == tail[..BytesOfFirst(tail, count)];
    assert Decode(s)[pos..][..n] == Decode(s)[pos..pos + n];
  }

  // Reversal

  /** The pieces of `s` in reverse order. */
  function Reversed(s: Bytes): Bytes {
    if s == [] then [] else Reversed(s[LengthOfFirst(s)..]) + s[..LengthOfFirst(s)]
  }

  // Slices with sizes of 64 bits

  /** `std::string::substr`, which stops at the end of the string. */
  function Substr(s: Bytes, start: nat, len: nat): Bytes
    requires start <= |s|
  {
    s[start..start + Least(len, |s| - start)]
  }

  lemma {:induction false} PiecesAreFew(s: Bytes)
    ensures |Decode(s)| <= |s|
  {
    hide DecodeFirst;
    if s != [] { PiecesAreFew(s[LengthOfFirst(s)..]); }
  }

  lemma EmptySlice(s: Bytes, pos: nat, count: nat)
    requires count == 0 || pos >= |Decode(s)|
    ensures Mid(s, pos, count) == []
  {
    hide DecodeFirst, Decode, BytesOfFirst;
    if pos >= |Decode(s)| {
      PastTheEnd(s, pos);
      PastTheEnd(s, pos + count);
    }
  }

  lemma SliceWithin(s: Bytes, pos: nat, count: nat)
    requires pos < |Decode(s)| && pos + count < SIZE && |s| < SIZE
    ensures var b, e := BytesOfFirst(s, pos), BytesOfFirst(s, Least(pos + count, |Decode(s)|));
            Substr(s, b, Wrapped(e - b)) == Mid(s, pos, count)
  {
    hide DecodeFirst, Decode, BytesOfFirst;
    var n := Least(pos + count, |Decode(s)|);
    MoreTakeMoreBytes(s, pos, n);
    if n < pos + count {
      PastTheEnd(s, pos + count);
      PastTheEnd(s, n);
    }
  }

  /** The end wraps to a position before the start, and the length to more than there is. */
  lemma SliceWrapped(s: Bytes, pos: nat, count: nat)
    requires pos < |Decode(s)| && pos < SIZE && count < SIZE < pos + count && |s| < SIZE
    ensures var n := Wrapped(pos + count);
            var b, e := BytesOfFirst(s, pos), BytesOfFirst(s, n);
            0 < n < pos && Substr(s, b, Wrapped(e - b)) == Mid(s, pos, count)
  {
    hide DecodeFirst, Decode, BytesOfFirst;
    PiecesAreFew(s);
    var n := Wrapped(pos + count);
    PastTheEnd(s, pos + count);
    BytesBefore(s, n, pos);
  }

  lemma BytesBefore(s: Bytes, n: nat, pos: nat)
    requires n < pos < |Decode(s)|
    ensures BytesOfFirst(s, n) < BytesOfFirst(s, pos)
  {
    hide DecodeFirst, Decode, BytesOfFirst;
    PiecesCount(s, 0);
    PiecesPartition(s, 0, pos - 1);
    MoreTakeMoreBytes(s, n, pos - 1);
  }

  // The class

  class U8Str {
    var value: Bytes

    constructor (s: Bytes)
      ensures value == s
    {
      value := s;
    }

    method LeftOf(n: nat) returns (r: Bytes)
      ensures r == Left(value, n)
    {
      hide DecodeFirst, Decode;
      var m := Utf8IndexMap(value);
      PiecesCount(value, 0);
      NoCodes(value);
      if m == [] || n == 0 {
        assert BytesOfFirst(value, n) == 0;
        return [];
      }
      if n >= |m| {
        PastTheEnd(value, n);
        return value;
      }
      PiecesPartition(value, 0, n - 1);
      var byteEnd := m[n - 1].start + m[n - 1].len;
      return value[..byteEnd];
    }

    method RightOf(n: nat) returns (r: Bytes)
      ensures r == Right(value, n)
    {
      hide DecodeFirst, Decode;
      var m := Utf8IndexMap(value);
      PiecesCount(value, 0);
      NoCodes(value);
      if m == [] || n == 0 {
        AllBytes(value);
        return [];
      }
      if n >= |m| { return value; }
      PiecesPartition(value, 0, |m| - n);
      return value[m[|m| - n].start..];
    }

    /** Sums and differences are 64 bits wide. When `pos + count` wraps, so does the length, and the slice is cut at
        the end of the text; when it wraps to 0 inside the text, the source reads before its index map. */
    method MidOf(pos: nat, count: nat) returns (r: Bytes)
      requires pos < SIZE && count < SIZE && |value| < SIZE
      requires !(0 < pos < |Decode(value)| && pos + count == SIZE)
      ensures r == Mid(value, pos, count)
    {
      hide DecodeFirst, Decode, BytesOfFirst, Substr, Mid, Pieces;
      var m := Utf8IndexMap(value);
      PiecesCount(value, 0);
      if m == [] || count == 0 || pos >= |m| {
        EmptySlice(value, pos, count);
        return [];
      }
      var endPos := Wrapped(pos + count);
      if endPos > |m| { endPos := |m|; }
      PiecesPartition(value, 0, pos);
      PiecesPartition(value, 0, endPos - 1);
      var byteStart := m[pos].start;
      var byteEnd := m[endPos - 1].start + m[endPos - 1].len;
      if pos + count < SIZE {
        SliceWithin(value, pos, count);
      } else {
        SliceWrapped(value, pos, count);
      }
      return Substr(value, byteStart, Wrapped(byteEnd - byteStart));
    }

    method ReverseUtf8()
      modifies this
      ensures value == Reversed(old(value))
    {
      hide Reversed, Decode;
      var m := Utf8IndexMap(value);
      PiecesCount(value, 0);
      if |m| <= 1 {
        AtMostOnePiece(value);
        return;
      }
      value := InReverse(value, m);
    }
  }

  /** The loop of `reverse_utf8`. */
  method InReverse(s: Bytes, m: seq<Piece>) returns (out: Bytes)
    requires m == Pieces(s, 0)
    ensures out == Reversed(s)
  {
    hide Reversed, Decode, DecodeFirst, BytesOfFirst, Pieces;
    out := [];
    var i := |m|;
    PiecesCount(s, 0);
    AllBytes(s);
    NoBytes(s);
    NothingReversed();
    assert s[|s|..] == [];
    while i > 0
      invariant 0 <= i <= |m|
      invariant out == Reversed(s[BytesOfFirst(s, i)..])
    {
      PiecesPartition(s, 0, i - 1);
      PieceInFront(s, i - 1);
      var p := m[i - 1];
      out := out + s[p.start..p.start + p.len];
      i := i - 1;
    }
  }

  lemma NothingReversed()
    ensures Reversed([]) == []
  {}

  lemma NoCodes(s: Bytes)
    ensures Decode(s) == [] <==> s == []
  {}

  lemma AtMostOnePiece(s: Bytes)
    requires |Decode(s)| <= 1
    ensures Reversed(s) == s
  {
    hide DecodeFirst;
    if s != [] {
      FirstPiece(s, 0);
      NoCodes(s[LengthOfFirst(s)..]);
      assert s[..|s|] == s;
      assert Reversed([]) == [];
    }
  }

  lemma PieceInFront(s: Bytes, i: nat)
    requires i < |Decode(s)|
    ensures BytesOfFirst(s, i) <= BytesOfFirst(s, i + 1) <= |s|
    ensures Reversed(s[BytesOfFirst(s, i)..])
         == Reversed(s[BytesOfFirst(s, i + 1)..]) + s[BytesOfFirst(s, i)..BytesOfFirst(s, i + 1)]
  {
    hide DecodeFirst;
    PiecesCount(s, 0);
    PiecesPartition(s, 0, i);
    var t := s[BytesOfFirst(s, i)..];
    assert t[LengthOfFirst(t)..] == s[BytesOfFirst(s, i + 1)..];
    assert t[..LengthOfFirst(t)] == s[BytesOfFirst(s, i)..BytesOfFirst(s, i + 1)];
  }
}
