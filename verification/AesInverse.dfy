/** GF(2^8) is a field, and the S-box is the affine image of its inverse (FIPS 197 sections 4.2 and 5.1.1). The
    inverse of a byte is its power 254. The power 256 of a byte is the byte itself, because squaring eight times is
    linear and keeps x; so the power 255 is its own square, and 0 and 1 are the only such bytes. */
module AesInverse {
  import opened AesField

  // The product, written out by the coefficients of the second factor

  /** `v` where `b` has the coefficient `mask`. */
  function Part(b: bv8, mask: bv8, v: bv8): bv8 {
    if b & mask != 0 then v else 0
  }

  function SumOfEight(p: bv8, q: bv8, r: bv8, s: bv8, t: bv8, u: bv8, v: bv8, w: bv8): bv8 {
    p ^ q ^ r ^ s ^ t ^ u ^ v ^ w
  }

  lemma SumStep(p: bv8, q: bv8, r: bv8, s: bv8, t: bv8, u: bv8, v: bv8, w: bv8)
    ensures SumOfEight(p, q, r, s, t, u, v, w) == Plus(p, SumOfEight(q, r, s, t, u, v, w, 0))
  {}

  function Combined(b: bv8, v0: bv8, v1: bv8, v2: bv8, v3: bv8, v4: bv8, v5: bv8, v6: bv8, v7: bv8): bv8 {
    SumOfEight(Part(b, 0x01, v0), Part(b, 0x02, v1), Part(b, 0x04, v2), Part(b, 0x08, v3),
               Part(b, 0x10, v4), Part(b, 0x20, v5), Part(b, 0x40, v6), Part(b, 0x80, v7))
  }

  function Product(a: bv8, b: bv8): bv8 {
    var a1 := Xtime(a);
    var a2 := Xtime(a1);
    var a3 := Xtime(a2);
    var a4 := Xtime(a3);
    var a5 := Xtime(a4);
    var a6 := Xtime(a5);
    Combined(b, a, a1, a2, a3, a4, a5, a6, Xtime(a6))
  }

  lemma PartOfHalf(b: bv8, v: bv8)
    ensures Part(b, 0x02, v) == Part(Half(b), 0x01, v) && Part(b, 0x04, v) == Part(Half(b), 0x02, v)
    ensures Part(b, 0x08, v) == Part(Half(b), 0x04, v) && Part(b, 0x10, v) == Part(Half(b), 0x08, v)
    ensures Part(b, 0x20, v) == Part(Half(b), 0x10, v) && Part(b, 0x40, v) == Part(Half(b), 0x20, v)
    ensures Part(b, 0x80, v) == Part(Half(b), 0x40, v)
  {}

  lemma FirstPart(b: bv8, v: bv8)
    ensures Part(b, 0x01, v) == LowTerm(v, b)
    ensures Part(b, 0x80, 0) == 0
  {}

  lemma CombinedStep(b: bv8, v0: bv8, v1: bv8, v2: bv8, v3: bv8, v4: bv8, v5: bv8, v6: bv8, v7: bv8)
    ensures Combined(b, v0, v1, v2, v3, v4, v5, v6, v7) ==
            Plus(LowTerm(v0, b), Combined(Half(b), v1, v2, v3, v4, v5, v6, v7, 0))
  {
    hide Part, Plus, LowTerm, Half, SumOfEight;
    FirstPart(b, v0);
    FirstPart(Half(b), 0);
    PartOfHalf(b, v1);
    PartOfHalf(b, v2);
    PartOfHalf(b, v3);
    PartOfHalf(b, v4);
    PartOfHalf(b, v5);
    PartOfHalf(b, v6);
    PartOfHalf(b, v7);
    SumStep(Part(b, 0x01, v0), Part(b, 0x02, v1), Part(b, 0x04, v2), Part(b, 0x08, v3),
            Part(b, 0x10, v4), Part(b, 0x20, v5), Part(b, 0x40, v6), Part(b, 0x80, v7));
  }

  lemma NothingCombined(b: bv8)
    ensures Combined(b, 0, 0, 0, 0, 0, 0, 0, 0) == 0
  {}

  lemma NothingLeft(b: bv8)
    ensures Half(Half(Half(Half(Half(Half(Half(Half(b)))))))) == 0
  {}

  lemma ProductIsMul(a: bv8, b: bv8)
    ensures Product(a, b) == Mul(a, b)
  {
    hide Mul, Xtime, Plus, LowTerm, Half, Combined;
    var a1 := Xtime(a);
    var a2 := Xtime(a1);
    var a3 := Xtime(a2);
    var a4 := Xtime(a3);
    var a5 := Xtime(a4);
    var a6 := Xtime(a5);
    var a7 := Xtime(a6);
    var b1 := Half(b);
    var b2 := Half(b1);
    var b3 := Half(b2);
    var b4 := Half(b3);
    var b5 := Half(b4);
    var b6 := Half(b5);
    var b7 := Half(b6);
    MulStep(a, b);
    MulStep(a1, b1);
    MulStep(a2, b2);
    MulStep(a3, b3);
    MulStep(a4, b4);
    MulStep(a5, b5);
    MulStep(a6, b6);
    MulStep(a7, b7);
    NothingLeft(b);
    MulOfZero(Xtime(a7));
    CombinedStep(b, a, a1, a2, a3, a4, a5, a6, a7);
    CombinedStep(b1, a1, a2, a3, a4, a5, a6, a7, 0);
    CombinedStep(b2, a2, a3, a4, a5, a6, a7, 0, 0);
    CombinedStep(b3, a3, a4, a5, a6, a7, 0, 0, 0);
    CombinedStep(b4, a4, a5, a6, a7, 0, 0, 0, 0);
    CombinedStep(b5, a5, a6, a7, 0, 0, 0, 0, 0);
    CombinedStep(b6, a6, a7, 0, 0, 0, 0, 0, 0);
    CombinedStep(b7, a7, 0, 0, 0, 0, 0, 0, 0);
    NothingCombined(Half(b7));
  }

  /** Only 0 and 1 are their own squares. */
  lemma FixedBySquaring(e: bv8)
    requires Mul(e, e) == e
    ensures e == 0 || e == 1
  {
    hide Mul, Product;
    ProductIsMul(e, e);
    FixedByProduct(e);
  }

  lemma FixedByProduct(e: bv8)
    ensures Product(e, e) == e ==> e == 0 || e == 1
  {}

  // Squaring

  function Square(a: bv8): bv8 {
    Mul(a, a)
  }

  /** The square of a product is the product of the squares. */
  lemma SquareOfProduct(a: bv8, b: bv8)
    ensures Square(Mul(a, b)) == Mul(Square(a), Square(b))
  {
    hide Mul;
    MulAssociates(a, b, Mul(a, b));
    MulAssociates(b, a, b);
    MulCommutes(a, b);
    MulAssociates(a, b, b);
    MulAssociates(a, a, Square(b));
  }

  lemma SquareOfSum(a: bv8, b: bv8)
    ensures Square(Plus(a, b)) == Plus(Square(a), Square(b))
  {
    hide Mul, Plus;
    var c := Plus(a, b);
    MulIsLinearOnTheLeft(a, b, c);
    MulIsLinearOnTheRight(a, a, b);
    MulIsLinearOnTheRight(b, a, b);
    MulCommutes(a, b);
    PlusRegroup(Mul(a, a), Mul(a, b), Mul(a, b), Mul(b, b));
    PlusAssociates(Mul(a, a), Mul(a, b), Plus(Mul(a, b), Mul(b, b)));
    PlusAssociates(Mul(a, b), Mul(a, b), Mul(b, b));
    PlusSelf(Mul(a, b));
    PlusZero(Mul(b, b));
  }

  lemma SquareOfLowBit(b: bv8)
    ensures Square(LowTerm(1, b)) == LowTerm(1, b)
  {
    hide Mul;
    MulByOne(1);
    MulOfZero(0);
  }

  // The inverse, as the power 254

  /** The power 2^n - 1. */
  function Ones(b: bv8, n: nat): bv8 {
    if n == 0 then 1 else Mul(Square(Ones(b, n - 1)), b)
  }

  /** The power 2^n. */
  function Squares(b: bv8, n: nat): bv8 {
    if n == 0 then b else Square(Squares(b, n - 1))
  }

  function Inverse(b: bv8): bv8 {
    Square(Ones(b, 7))
  }

  lemma {:induction false} OnesTimesByte(b: bv8, n: nat)
    ensures Mul(Ones(b, n), b) == Squares(b, n)
  {
    hide Mul, Square;
    if n == 0 {
      OneIsNeutral(b);
    } else {
      OnesTimesByte(b, n - 1);
      var s := Square(Ones(b, n - 1));
      MulAssociates(s, b, b);
      SquareOfProduct(Ones(b, n - 1), b);
      assert Square(b) == Mul(b, b) by { SquareIs(b); }
    }
  }

  lemma SquareIs(b: bv8)
    ensures Square(b) == Mul(b, b)
  {}

  /** The powers of x with exponents 2^n, the last of which is x again. */
  lemma SquaresOfX()
    ensures Square(0x02) == 0x04 && Square(0x04) == 0x10 && Square(0x10) == 0x1b && Square(0x1b) == 0x5e
  {
    hide Mul;
    ProductIsMul(0x02, 0x02);
    ProductIsMul(0x04, 0x04);
    ProductIsMul(0x10, 0x10);
    ProductIsMul(0x1b, 0x1b);
  }

  lemma MoreSquaresOfX()
    ensures Square(0x5e) == 0xe4 && Square(0xe4) == 0x4d && Square(0x4d) == 0xfa && Square(0xfa) == 0x02
  {
    hide Mul;
    ProductIsMul(0x5e, 0x5e);
    ProductIsMul(0xe4, 0xe4);
    ProductIsMul(0x4d, 0x4d);
    ProductIsMul(0xfa, 0xfa);
  }

  lemma {:induction false} SquaresOfXtime(a: bv8, n: nat)
    ensures Squares(Xtime(a), n) == Mul(Squares(0x02, n), Squares(a, n))
  {
    hide Mul, Square, Xtime;
    if n == 0 {
      XtimeOfProduct(1, a);
      OneIsNeutral(a);
      XtimeOfOne();
    } else {
      SquaresOfXtime(a, n - 1);
      SquareOfProduct(Squares(0x02, n - 1), Squares(a, n - 1));
    }
  }

  lemma {:induction false} SquaresOfSum(a: bv8, b: bv8, n: nat)
    ensures Squares(Plus(a, b), n) == Plus(Squares(a, n), Squares(b, n))
  {
    hide Square, Plus;
    if n > 0 {
      SquaresOfSum(a, b, n - 1);
      SquareOfSum(Squares(a, n - 1), Squares(b, n - 1));
    }
  }

  lemma {:induction false} SquaresOfLowBit(b: bv8, n: nat)
    ensures Squares(LowTerm(1, b), n) == LowTerm(1, b)
  {
    hide Square, LowTerm;
    if n > 0 {
      SquaresOfLowBit(b, n - 1);
      SquareOfLowBit(b);
    }
  }

  lemma EightSquaresOfX(n: nat)
    requires n == 8
    ensures Squares(0x02, n) == 0x02
  {
    hide Square;
    SquaresOfX();
    MoreSquaresOfX();
    assert Squares(0x02, n - 7) == Square(Squares(0x02, n - 8));
    assert Squares(0x02, n - 6) == Square(Squares(0x02, n - 7));
    assert Squares(0x02, n - 5) == Square(Squares(0x02, n - 6));
    assert Squares(0x02, n - 4) == Square(Squares(0x02, n - 5));
    assert Squares(0x02, n - 3) == Square(Squares(0x02, n - 4));
    assert Squares(0x02, n - 2) == Square(Squares(0x02, n - 3));
    assert Squares(0x02, n - 1) == Square(Squares(0x02, n - 2));
  }

  /** Squaring eight times is the identity: it is linear, and keeps x. */
  lemma {:induction false} EightSquares(b: bv8, n: nat)
    requires n == 8
    ensures Squares(b, n) == b
    decreases b
  {
    hide Mul, Squares, Xtime, LowTerm, Plus;
    if b == 0 {
      SquaresOfLowBit(0, n);
      LowBitOfZero();
    } else {
      SplitLowBit(b);
      EightSquares(Half(b), n);
      SquaresOfSum(LowTerm(1, b), Xtime(Half(b)), n);
      SquaresOfXtime(Half(b), n);
      SquaresOfLowBit(b, n);
      EightSquaresOfX(n);
      XtimeOfProduct(1, Half(b));
      OneIsNeutral(Half(b));
      XtimeOfOne();
    }
  }

  lemma LowBitOfZero()
    ensures LowTerm(1, 0) == 0
  {}

  /** Every non-zero byte has an inverse. */
  lemma InverseIsInverse(b: bv8)
    ensures b != 0 ==> Mul(b, Inverse(b)) == 1
    ensures Inverse(0) == 0
  {
    hide Mul, Square, Ones, Squares, Inverse;
    var v, n := Inverse(b), 8;
    var e := Mul(v, b);
    InverseIsPower(b);
    OnesTimesByte(b, n);
    EightSquares(b, n);
    MulAssociates(v, b, e);
    MulCommutes(b, e);
    FixedBySquaring(e);
    MulByZero(b);
    MulCommutes(v, b);
    InverseOfZero();
  }

  lemma InverseIsPower(b: bv8)
    ensures Mul(Inverse(b), b) == Ones(b, 8)
  {
    hide Mul, Square;
  }

  lemma InverseOfZero()
    ensures Inverse(0) == 0
  {
    hide Mul, Ones;
    var n := 7;
    assert Ones(0, n) == Mul(Square(Ones(0, n - 1)), 0) by { OnesStep(0, n); }
    MulOfZero(Square(Ones(0, n - 1)));
    MulOfZero(0);
  }

  lemma OnesStep(b: bv8, n: nat)
    requires n > 0
    ensures Ones(b, n) == Mul(Square(Ones(b, n - 1)), b)
  {}

  lemma InverseIsUnique(b: bv8, c: bv8)
    requires Mul(b, c) == 1
    ensures c == Inverse(b)
  {
    hide Mul, Inverse;
    MulByZero(c);
    InverseIsInverse(b);
    MulCommutes(b, Inverse(b));
    MulAssociates(Inverse(b), b, c);
    MulByOne(Inverse(b));
    OneIsNeutral(c);
  }

  // The S-box

  /** The affine transformation of the standard, with the rotations of the byte. */
  function Affine(b: bv8): bv8 {
    b ^ b.RotateLeft(1) ^ b.RotateLeft(2) ^ b.RotateLeft(3) ^ b.RotateLeft(4) ^ 0x63
  }

  function Unaffine(b: bv8): bv8 {
    b.RotateLeft(1) ^ b.RotateLeft(3) ^ b.RotateLeft(6) ^ 0x05
  }

  lemma AffineAfterUnaffine(b: bv8)
    ensures Affine(Unaffine(b)) == b
  {}

  predicate Recovers(b: bv8) {
    Product(b, Unaffine(SBox(b))) == if b == 0 then 0 else 1
  }

  lemma FirstQuarter(b: bv8)
    ensures b & 0xc0 == 0 ==> Recovers(b)
  {}

  lemma SecondQuarter(b: bv8)
    ensures b & 0xc0 == 0x40 ==> Recovers(b)
  {}

  lemma ThirdQuarter(b: bv8)
    ensures b & 0xc0 == 0x80 ==> Recovers(b)
  {}

  lemma FourthQuarter(b: bv8)
    ensures b & 0xc0 == 0xc0 ==> Recovers(b)
  {}

  /** The table of the source is the affine image of the inverse in the field. */
  lemma SBoxIsAffineInverse(b: bv8)
    ensures SBox(b) == Affine(Inverse(b))
  {
    hide Mul, SBox, Inverse, Affine, Unaffine, Product;
    var c := Unaffine(SBox(b));
    EveryByteRecovers(b);
    ProductIsMul(b, c);
    AffineAfterUnaffine(SBox(b));
    if b == 0 {
      InverseIsInverse(b);
      SBoxOfZero();
    } else {
      InverseIsUnique(b, c);
    }
  }

  lemma SBoxOfZero()
    ensures SBox(0) == Affine(0)
  {}

  lemma EveryByteRecovers(b: bv8)
    ensures Recovers(b)
  {
    hide Recovers;
    FirstQuarter(b);
    SecondQuarter(b);
    ThirdQuarter(b);
    FourthQuarter(b);
  }
}
