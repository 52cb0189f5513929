/** Which texts survive reversal: the condition on the bytes, exact for every byte string. */
module U8Reversal {
  import opened Common
  import opened Utf8
  import opened Utf8RoundTrip
  import opened U8String

  function ReversedCodes(u: Codes): (v: Codes)
    ensures |v| == |u|
  {
    if u == [] then [] else ReversedCodes(u[1..]) + [u[0]]
  }

  /** How many tail bytes a lead byte asks for. */
  function Needed(b: bv8): nat {
    if Lead2(b) then 1 else if Lead3(b) then 2 else if Lead4(b) then 3 else 0
  }

  /** The first piece of `s` is a tail byte on its own. */
  predicate StrayTail(s: Bytes) {
    s != [] && LengthOfFirst(s) == 1 && Tail(s[0])
  }

  /** The first piece of `s` is a lead byte on its own, and `k` tail bytes would complete it. */
  predicate Joins(s: Bytes, k: nat) {
    s != [] && LengthOfFirst(s) == 1 && 0 < Needed(s[0]) <= k
  }

  /** No lead byte on its own is directly behind as many tail bytes on their own as it asks for, when `k` of them
      are directly in front of `s`. */
  predicate NoJoinAfter(s: Bytes, k: nat)
    decreases |s|
  {
    s == [] || (!Joins(s, k) && NoJoinAfter(s[LengthOfFirst(s)..], if StrayTail(s) then k + 1 else 0))
  }

  predicate NoStrayJoin(s: Bytes) {
    NoJoinAfter(s, 0)
  }

  /** How many tail bytes `s` starts with. */
  function LeadingTails(s: Bytes): (k: nat)
    ensures k <= |s|
  {
    if s != [] && Tail(s[0]) then 1 + LeadingTails(s[1..]) else 0
  }

  lemma {:induction false} LeadingTailsAre(s: Bytes, k: nat)
    requires k <= |s|
    ensures k <= LeadingTails(s) <==> forall i :: 0 <= i < k ==> Tail(s[i])
  {
    hide Tail;
    if k > 0 && Tail(s[0]) { LeadingTailsAre(s[1..], k - 1); }
    assert k > 0 ==> forall i :: 0 <= i < k - 1 ==> s[1..][i] == s[i + 1];
    assert forall i :: 0 < i < k ==> s[1..][i - 1] == s[i];
  }

  // One piece in front of another text

  /** The first piece of `s`, put in front of `acc`. */
  function Moved(s: Bytes, acc: Bytes): Bytes
    requires s != []
  {
    s[..LengthOfFirst(s)] + acc
  }

  lemma MovedBytes(s: Bytes, acc: Bytes)
    requires s != []
    ensures var t := Moved(s, acc);
            && |t| >= LengthOfFirst(s) && t[0] == s[0] && t[LengthOfFirst(s)..] == acc
            && t[..LengthOfFirst(s)] == s[..LengthOfFirst(s)]
            && (LengthOfFirst(s) >= 2 ==> t[1] == s[1])
            && (LengthOfFirst(s) >= 3 ==> t[2] == s[2])
            && (LengthOfFirst(s) >= 4 ==> t[3] == s[3])
  {
    hide DecodeFirst;
  }

  lemma LongFirst(s: Bytes)
    requires s != [] && LengthOfFirst(s) > 1
    ensures Needed(s[0]) == LengthOfFirst(s) - 1 && !Tail(s[0])
  {
    hide Lead2, Lead3, Lead4, Tail, Ascii, Join2, Join3, Join4, Wide, Surrogate;
    LeadsDiffer(s[0]);
  }

  /** The bytes of a piece of two or more bytes decode in the same way in front of anything. */
  lemma LongFirstMoved(s: Bytes, acc: Bytes)
    requires s != [] && LengthOfFirst(s) > 1
    ensures DecodeFirst(Moved(s, acc)) == DecodeFirst(s)
  {
    hide Lead2, Lead3, Lead4, Tail, Ascii, Join2, Join3, Join4, Wide, Surrogate, Moved;
    LeadsDiffer(s[0]);
    MovedBytes(s, acc);
  }

  /** A single byte decodes alike in front of `acc`, unless the tail bytes of `acc` complete it. */
  lemma SingleByteMoved(s: Bytes, acc: Bytes)
    requires s != [] && LengthOfFirst(s) == 1
    ensures Joins(s, LeadingTails(acc)) ==> LengthOfFirst([s[0]] + acc) == 1 + Needed(s[0])
    ensures !Joins(s, LeadingTails(acc)) ==> DecodeFirst([s[0]] + acc) == DecodeFirst(s)
  {
    hide Lead2, Lead3, Lead4, Tail, Ascii, Join2, Join3, Join4, Wide, Surrogate, LeadingTails;
    var t := [s[0]] + acc;
    LeadsDiffer(s[0]);
    if |acc| >= 1 { assert t[1] == acc[0]; LeadingTailsAre(acc, 1); }
    if |acc| >= 2 { assert t[2] == acc[1]; LeadingTailsAre(acc, 2); }
    if |acc| >= 3 { assert t[3] == acc[2]; LeadingTailsAre(acc, 3); }
  }

  lemma FirstMoved(s: Bytes, acc: Bytes)
    requires s != []
    ensures !Joins(s, LeadingTails(acc)) ==> DecodeFirst(Moved(s, acc)) == DecodeFirst(s)
    ensures Joins(s, LeadingTails(acc)) ==> LengthOfFirst(Moved(s, acc)) == 1 + Needed(s[0])
  {
    hide DecodeFirst, Needed, LeadingTails;
    if LengthOfFirst(s) == 1 {
      assert s[..1] == [s[0]];
      SingleByteMoved(s, acc);
    } else {
      LongFirstMoved(s, acc);
    }
  }

  lemma TailsMoved(s: Bytes, acc: Bytes)
    requires s != []
    ensures LeadingTails(Moved(s, acc)) == if StrayTail(s) then LeadingTails(acc) + 1 else 0
  {
    hide DecodeFirst, Tail;
    MovedBytes(s, acc);
    if LengthOfFirst(s) > 1 { LongFirst(s); }
  }

  /** Tail bytes in front are pieces of their own. */
  lemma {:induction false} TailsAreOnTheirOwn(s: Bytes, k: nat)
    requires k <= LeadingTails(s)
    ensures |Decode(s)| == k + |Decode(s[k..])|
  {
    hide Tail, Ascii, Lead2, Lead3, Lead4;
    if k > 0 {
      LeadsDiffer(s[0]);
      assert DecodeFirst(s) == Bad();
      TailsAreOnTheirOwn(s[1..], k - 1);
      assert s[1..][k - 1..] == s[k..];
    } else {
      assert s[0..] == s;
    }
  }

  /** Moving a piece in front adds its code point, or swallows tail bytes. */
  lemma MovedDecodes(s: Bytes, acc: Bytes)
    requires s != []
    ensures !Joins(s, LeadingTails(acc)) ==> Decode(Moved(s, acc)) == [DecodeFirst(s).cp] + Decode(acc)
    ensures !Joins(s, LeadingTails(acc)) ==> Reversed(Moved(s, acc)) == Reversed(acc) + s[..LengthOfFirst(s)]
    ensures Joins(s, LeadingTails(acc)) ==> |Decode(Moved(s, acc))| < 1 + |Decode(acc)|
  {
    hide DecodeFirst, Needed, LeadingTails, Moved;
    var t := Moved(s, acc);
    FirstMoved(s, acc);
    MovedBytes(s, acc);
    if Joins(s, LeadingTails(acc)) {
      var k := Needed(s[0]);
      DropTwice(t, 1, k);
      TailsAreOnTheirOwn(acc, k);
    }
  }

  // The whole text

  lemma ReversedStep(s: Bytes, acc: Bytes)
    requires s != []
    ensures Reversed(s) + acc == Reversed(s[LengthOfFirst(s)..]) + Moved(s, acc)
  {
    hide DecodeFirst;
    Regrouped(Reversed(s[LengthOfFirst(s)..]), s[..LengthOfFirst(s)], acc);
  }

  lemma NothingToReverse(acc: Bytes)
    ensures Reversed([]) + acc == acc && Decode([]) == [] && ReversedCodes([]) + Decode(acc) == Decode(acc)
    ensures Reversed(acc) + [] == Reversed(acc)
  {}

  /** Reversing in front of `acc` never gives more code points, and as many exactly without a join. */
  lemma {:induction false} ReversalCountsExactlyWithoutJoins(s: Bytes, acc: Bytes)
    ensures |Decode(Reversed(s) + acc)| <= |Decode(s)| + |Decode(acc)|
    ensures |Decode(Reversed(s) + acc)| == |Decode(s)| + |Decode(acc)| <==> NoJoinAfter(s, LeadingTails(acc))
    decreases |s|
  {
    hide DecodeFirst, Joins, StrayTail, LeadingTails, Moved, Reversed;
    NothingToReverse(acc);
    if s != [] {
      var t := Moved(s, acc);
      ReversedStep(s, acc);
      MovedDecodes(s, acc);
      TailsMoved(s, acc);
      ReversalCountsExactlyWithoutJoins(s[LengthOfFirst(s)..], t);
    }
  }

  lemma CodesStep(s: Bytes)
    requires s != []
    ensures ReversedCodes(Decode(s)) == ReversedCodes(Decode(s[LengthOfFirst(s)..])) + [DecodeFirst(s).cp]
    ensures s[..LengthOfFirst(s)] + s[LengthOfFirst(s)..] == s
  {
    hide DecodeFirst, Decode;
    FirstPiece(s, 0);
    NoCodes(s);
  }

  lemma {:induction false} DecodedInFront(s: Bytes, acc: Bytes)
    requires NoJoinAfter(s, LeadingTails(acc))
    ensures Decode(Reversed(s) + acc) == ReversedCodes(Decode(s)) + Decode(acc)
    decreases |s|
  {
    hide DecodeFirst, Joins, StrayTail, LeadingTails, Moved, Reversed, Decode, ReversedCodes;
    NothingToReverse(acc);
    if s != [] {
      ReversedStep(s, acc);
      MovedDecodes(s, acc);
      TailsMoved(s, acc);
      DecodedInFront(s[LengthOfFirst(s)..], Moved(s, acc));
      CodesStep(s);
      Regrouped(ReversedCodes(Decode(s[LengthOfFirst(s)..])), [DecodeFirst(s).cp], Decode(acc));
    }
  }

  lemma {:induction false} ReversedInFront(s: Bytes, acc: Bytes)
    requires NoJoinAfter(s, LeadingTails(acc))
    ensures Reversed(Reversed(s) + acc) == Reversed(acc) + s
    decreases |s|
  {
    hide DecodeFirst, Joins, StrayTail, LeadingTails, Moved, Reversed, Decode, LengthOfFirst;
    NothingToReverse(acc);
    if s != [] {
      var n := LengthOfFirst(s);
      ReversedStep(s, acc);
      MovedDecodes(s, acc);
      TailsMoved(s, acc);
      ReversedInFront(s[n..], Moved(s, acc));
      CodesStep(s);
      Regrouped(Reversed(acc), s[..n], s[n..]);
    }
  }

  lemma NothingBehind(s: Bytes)
    ensures Reversed(s) + [] == Reversed(s) && [] + s == s && Reversed([]) == [] && LeadingTails([]) == 0
    ensures ReversedCodes(Decode(s)) + Decode([]) == ReversedCodes(Decode(s)) && Decode([]) == []
  {}

  /** For every byte string: the reversal decodes to the reversed code points exactly when no stray lead byte
      follows enough stray tail bytes. */
  lemma ReversalDecodesExactlyWithoutJoins(s: Bytes)
    ensures Decode(Reversed(s)) == ReversedCodes(Decode(s)) <==> NoStrayJoin(s)
  {
    hide Decode, Reversed, NoJoinAfter, LeadingTails;
    NothingBehind(s);
    ReversalCountsExactlyWithoutJoins(s, []);
    if NoStrayJoin(s) { DecodedInFront(s, []); }
  }

  /** For every byte string: reversing twice gives it back exactly under the same condition. */
  lemma ReversalIsUndoneExactlyWithoutJoins(s: Bytes)
    ensures Reversed(Reversed(s)) == s <==> NoStrayJoin(s)
  {
    hide Decode, Reversed, NoJoinAfter, LeadingTails;
    NothingBehind(s);
    NothingBehind(Reversed(s));
    ReversalCountsExactlyWithoutJoins(s, []);
    ReversalCountsExactlyWithoutJoins(Reversed(s), []);
    if NoStrayJoin(s) { ReversedInFront(s, []); }
  }

  // Well-formed text

  lemma {:induction false} WellFormedHasNoJoins(s: Bytes, k: nat)
    requires WellFormed(s)
    ensures NoJoinAfter(s, k)
  {
    hide DecodeFirst, CharLength, EncodeCode, Tail, Needed;
    if s != [] {
      GrammarComesBack(s);
      if CharLength(s) == 1 { SingleCharacter(s); }
      WellFormedHasNoJoins(s[CharLength(s)..], if StrayTail(s) then k + 1 else 0);
    }
  }

  lemma SingleCharacter(s: Bytes)
    requires CharLength(s) == 1
    ensures Needed(s[0]) == 0
  {
    hide Ascii, Lead2, Lead3, Lead4, Between;
    AsciiInGrammar(s[0]);
    LeadsDiffer(s[0]);
  }

  lemma {:induction false} ReversedIsWellFormed(s: Bytes)
    requires WellFormed(s)
    ensures WellFormed(Reversed(s))
  {
    hide DecodeFirst, CharLength, EncodeCode;
    if s != [] {
      GrammarComesBack(s);
      var n := CharLength(s);
      ReversedIsWellFormed(s[n..]);
      OneCharacter(s);
      DecodeJoined(Reversed(s[n..]), s[..n]);
    }
  }

  lemma OneCharacter(s: Bytes)
    requires CharLength(s) > 0
    ensures WellFormed(s[..CharLength(s)])
  {
    hide DecodeFirst;
    GrammarComesBack(s);
    var u := [DecodeFirst(s).cp];
    EncodedIsWellFormed(u);
    assert u[1..] == [];
    assert Encode(u) == EncodeCode(u[0]) + Encode(u[1..]);
  }

  /** On well-formed text the reversal is well-formed and decodes to the reversed code points. */
  lemma ReversedDecodes(s: Bytes)
    requires WellFormed(s)
    ensures WellFormed(Reversed(s)) && Decode(Reversed(s)) == ReversedCodes(Decode(s))
  {
    hide Decode, Reversed, NoJoinAfter, WellFormed;
    WellFormedHasNoJoins(s, 0);
    ReversalDecodesExactlyWithoutJoins(s);
    ReversedIsWellFormed(s);
  }

  /** Reversing well-formed text twice gives it back. */
  lemma ReversalIsAnInvolution(s: Bytes)
    requires WellFormed(s)
    ensures Reversed(Reversed(s)) == s
  {
    hide Reversed, NoJoinAfter, WellFormed;
    WellFormedHasNoJoins(s, 0);
    ReversalIsUndoneExactlyWithoutJoins(s);
  }

  /** Malformed text need not come back, but it may: a stray tail byte and a stray lead byte become one character,
      a stray tail byte and a letter do not. */
  lemma MalformedReversalCanJoinPieces()
    ensures Reversed([0xA9, 0xC3]) == [0xC3, 0xA9] && Reversed([0xC3, 0xA9]) == [0xC3, 0xA9]
    ensures !NoStrayJoin([0xA9, 0xC3]) && Reversed(Reversed([0xA9, 0xC3])) != [0xA9, 0xC3]
    ensures NoStrayJoin([0x80, 0x41]) && !WellFormed([0x80, 0x41]) && Reversed(Reversed([0x80, 0x41])) == [0x80, 0x41]
  {
    ReversalIsUndoneExactlyWithoutJoins([0xA9, 0xC3]);
    ReversalIsUndoneExactlyWithoutJoins([0x80, 0x41]);
    assert DecodeFirst([0xA9, 0xC3]) == Bad();
    assert [0xA9 as bv8, 0xC3][1..] == [0xC3];
    assert DecodeFirst([0xC3]) == Bad();
    assert [0xC3 as bv8][1..] == [];
    assert Reversed([]) == [];
    assert DecodeFirst([0xC3, 0xA9]).len == 2;
    assert [0xC3 as bv8, 0xA9][2..] == [];
    assert DecodeFirst([0x80, 0x41]) == Bad();
    assert [0x80 as bv8, 0x41][1..] == [0x41];
    assert DecodeFirst([0x41]).len == 1;
    assert NoJoinAfter([0x41], 1);
  }
}
