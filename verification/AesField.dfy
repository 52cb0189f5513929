/** Arithmetic in GF(2^8) and the substitution tables of AES (FIPS 197 sections 4.2, 5.1.1 and 5.3.2). Bytes are
    polynomials over GF(2). The laws of the product are proved from its recursion over the coefficients of the
    second factor, and carried over to linear combinations of the four bytes of a column. */
module AesField {

  // Addition

  function Plus(a: bv8, b: bv8): bv8 {
    a ^ b
  }

  lemma PlusZero(a: bv8)
    ensures Plus(a, 0) == a
    ensures Plus(0, a) == a
  {}

  lemma PlusSelf(a: bv8)
    ensures Plus(a, a) == 0
  {}

  lemma PlusCommutes(a: bv8, b: bv8)
    ensures Plus(a, b) == Plus(b, a)
  {}

  lemma PlusAssociates(a: bv8, b: bv8, c: bv8)
    ensures Plus(Plus(a, b), c) == Plus(a, Plus(b, c))
  {}

  lemma PlusRegroup(a: bv8, b: bv8, c: bv8, d: bv8)
    ensures Plus(Plus(a, b), Plus(c, d)) == Plus(Plus(a, c), Plus(b, d))
  {
    hide Plus;
    PlusAssociates(a, b, Plus(c, d));
    PlusAssociates(b, c, d);
    PlusCommutes(b, c);
    PlusAssociates(c, b, d);
    PlusAssociates(a, c, Plus(b, d));
  }

  lemma PlusCancels(a: bv8, k: bv8)
    ensures Plus(Plus(a, k), k) == a
  {
    hide Plus;
    PlusAssociates(a, k, k);
    PlusSelf(k);
    PlusZero(a);
  }

  // Multiplication by x, and the coefficients of a byte

  function Shifted(a: bv8): bv8 {
    a << 1
  }

  predicate High(a: bv8) {
    a & 0x80 != 0
  }

  /** What replaces the coefficient of x^8 modulo x^8 + x^4 + x^3 + x + 1. */
  function Reduction(a: bv8): bv8 {
    if High(a) then 0x1b else 0
  }

  /** Multiplication by x modulo x^8 + x^4 + x^3 + x + 1. */
  function Xtime(a: bv8): bv8 {
    Plus(Shifted(a), Reduction(a))
  }

  function Half(b: bv8): bv8 {
    b >> 1
  }

  predicate Odd(b: bv8) {
    b & 1 != 0
  }

  /** The lowest coefficient of `b` times `a`. */
  function LowTerm(a: bv8, b: bv8): bv8 {
    if Odd(b) then a else 0
  }

  lemma ShiftedIsLinear(a: bv8, b: bv8)
    ensures Shifted(Plus(a, b)) == Plus(Shifted(a), Shifted(b))
  {}

  lemma HighOfSum(a: bv8, b: bv8)
    ensures High(Plus(a, b)) == (High(a) != High(b))
  {}

  lemma ReductionIsLinear(a: bv8, b: bv8)
    ensures Reduction(Plus(a, b)) == Plus(Reduction(a), Reduction(b))
  {
    hide Plus, High;
    HighOfSum(a, b);
    PlusZero(Reduction(a));
    PlusZero(Reduction(b));
    PlusSelf(0x1b);
  }

  lemma XtimeIsLinear(a: bv8, b: bv8)
    ensures Xtime(Plus(a, b)) == Plus(Xtime(a), Xtime(b))
  {
    hide Plus, Shifted, Reduction;
    ShiftedIsLinear(a, b);
    ReductionIsLinear(a, b);
    PlusRegroup(Shifted(a), Shifted(b), Reduction(a), Reduction(b));
  }

  lemma XtimeOfZero()
    ensures Xtime(0) == 0
  {}

  lemma XtimeOfOne()
    ensures Xtime(1) == 2
  {}

  lemma LowTermIsLinear(a: bv8, b: bv8, c: bv8)
    ensures LowTerm(Plus(a, b), c) == Plus(LowTerm(a, c), LowTerm(b, c))
  {
    hide Plus, Odd;
    PlusZero(0);
  }

  lemma XtimeOfLowTerm(a: bv8, b: bv8)
    ensures Xtime(LowTerm(a, b)) == LowTerm(Xtime(a), b)
  {
    hide Xtime, Odd;
    XtimeOfZero();
  }

  // Multiplication

  function Mul(a: bv8, b: bv8): bv8
    decreases b
  {
    if b == 0 then 0 else Plus(LowTerm(a, b), Mul(Xtime(a), Half(b)))
  }

  method AddIfLow(p: bv8, a: bv8, b: bv8) returns (p': bv8)
    ensures p' == Plus(p, LowTerm(a, b))
  {
    p' := p;
    PlusZero(p);
    if b & 1 != 0 { p' := p' ^ a; }
  }

  method Double(a: bv8) returns (a': bv8)
    ensures a' == Xtime(a)
  {
    PlusZero(Shifted(a));
    var hi := a & 0x80;
    a' := a << 1;
    if hi != 0 { a' := a' ^ 0x1b; }
  }

  method Gmix(a0: bv8, b0: bv8) returns (p: bv8)
    ensures p == Mul(a0, b0)
  {
    hide LowTerm, Xtime, Mul, Plus;
    var a, b := a0, b0;
    p := 0;
    PlusZero(Mul(a, b));
    for i := 0 to 8
      invariant b <= Remaining(i)
      invariant Plus(p, Mul(a, b)) == Mul(a0, b0)
    {
      MulStep(a, b);
      PlusAssociates(p, LowTerm(a, b), Mul(Xtime(a), Half(b)));
      RemainingStep(i, b);
      p := AddIfLow(p, a, b);
      a := Double(a);
      b := b >> 1;
    }
    MulOfZero(a);
    PlusZero(p);
  }

  /** The largest value left after `i` shifts to the right. */
  function Remaining(i: nat): bv8 {
    if i == 0 then 0xff else if i == 1 then 0x7f else if i == 2 then 0x3f else if i == 3 then 0x1f
    else if i == 4 then 0x0f else if i == 5 then 0x07 else if i == 6 then 0x03 else if i == 7 then 0x01 else 0
  }

  lemma RemainingStep(i: nat, b: bv8)
    requires b <= Remaining(i)
    ensures Half(b) <= Remaining(i + 1)
  {}

  lemma MulOfZero(a: bv8)
    ensures Mul(a, 0) == 0
  {}

  lemma MulStep(a: bv8, b: bv8)
    ensures Mul(a, b) == Plus(LowTerm(a, b), Mul(Xtime(a), Half(b)))
  {
    hide Xtime, Plus;
    PlusZero(0);
  }

  lemma {:induction false} MulByZero(b: bv8)
    ensures Mul(0, b) == 0
    decreases b
  {
    if b != 0 { MulByZero(Half(b)); }
  }

  /** The product is linear in its first factor at `c`. */
  ghost predicate SumsAt(a: bv8, b: bv8, c: bv8) {
    Mul(Plus(a, b), c) == Plus(Mul(a, c), Mul(b, c))
  }

  /** Multiplying by x before or after multiplying by `b` is the same. */
  ghost predicate ShiftsAt(a: bv8, b: bv8) {
    Mul(Xtime(a), b) == Xtime(Mul(a, b))
  }

  /** `c` has no coefficient from x^n on. */
  predicate Fits(c: bv8, n: nat) {
    if n == 0 then c == 0 else Fits(Half(c), n - 1)
  }

  lemma EveryByteFits(c: bv8, n: nat)
    requires n == 8
    ensures Fits(c, n)
  {
    var c1 := Half(c);
    var c2 := Half(c1);
    var c3 := Half(c2);
    var c4 := Half(c3);
    var c5 := Half(c4);
    var c6 := Half(c5);
    var c7 := Half(c6);
    assert Half(c7) == 0;
    assert Fits(c7, n - 7);
    assert Fits(c6, n - 6);
    assert Fits(c5, n - 5);
    assert Fits(c4, n - 4);
    assert Fits(c3, n - 3);
    assert Fits(c2, n - 2);
  }

  lemma SumsAtZero(a: bv8, b: bv8)
    ensures SumsAt(a, b, 0)
  {}

  lemma SumsStep(a: bv8, b: bv8, c: bv8)
    ensures SumsAt(Xtime(a), Xtime(b), Half(c)) ==> SumsAt(a, b, c)
  {
    hide LowTerm, Xtime, Half, Mul, Plus;
    MulStep(Plus(a, b), c);
    MulStep(a, c);
    MulStep(b, c);
    LowTermIsLinear(a, b, c);
    XtimeIsLinear(a, b);
    PlusRegroup(LowTerm(a, c), LowTerm(b, c), Mul(Xtime(a), Half(c)), Mul(Xtime(b), Half(c)));
  }

  lemma {:induction false} SumsIfFits(a: bv8, b: bv8, c: bv8, n: nat)
    ensures Fits(c, n) ==> SumsAt(a, b, c)
    decreases n
  {
    hide LowTerm, Xtime, Half, Mul, Plus, SumsAt, ShiftsAt, CommutesAt;
    if n == 0 {
      SumsAtZero(a, b);
    } else {
      SumsIfFits(Xtime(a), Xtime(b), Half(c), n - 1);
      SumsStep(a, b, c);
    }
  }

  lemma ShiftsAtZero(a: bv8)
    ensures ShiftsAt(a, 0)
  {}

  lemma ShiftsStep(a: bv8, b: bv8)
    ensures ShiftsAt(Xtime(a), Half(b)) ==> ShiftsAt(a, b)
  {
    hide LowTerm, Xtime, Half, Mul, Plus;
    MulStep(a, b);
    MulStep(Xtime(a), b);
    XtimeOfLowTerm(a, b);
    XtimeIsLinear(LowTerm(a, b), Mul(Xtime(a), Half(b)));
  }

  lemma {:induction false} ShiftsIfFits(a: bv8, b: bv8, n: nat)
    ensures Fits(b, n) ==> ShiftsAt(a, b)
    decreases n
  {
    hide LowTerm, Xtime, Half, Mul, Plus, SumsAt, ShiftsAt, CommutesAt;
    if n == 0 {
      ShiftsAtZero(a);
    } else {
      ShiftsIfFits(Xtime(a), Half(b), n - 1);
      ShiftsStep(a, b);
    }
  }

  /** The product is linear in its first factor. */
  lemma MulIsLinearOnTheLeft(a: bv8, b: bv8, c: bv8)
    ensures Mul(Plus(a, b), c) == Plus(Mul(a, c), Mul(b, c))
  {
    hide LowTerm, Xtime, Half, Mul, Plus, Fits;
    var n := 8;
    EveryByteFits(c, n);
    SumsIfFits(a, b, c, n);
  }

  lemma XtimeOfProduct(a: bv8, b: bv8)
    ensures Mul(Xtime(a), b) == Xtime(Mul(a, b))
  {
    hide LowTerm, Xtime, Half, Mul, Plus, Fits;
    var n := 8;
    EveryByteFits(b, n);
    ShiftsIfFits(a, b, n);
  }

  lemma SplitLowBit(b: bv8)
    ensures b == Plus(LowTerm(1, b), Xtime(Half(b)))
  {}

  lemma {:induction false} OneIsNeutral(b: bv8)
    ensures Mul(1, b) == b
    decreases b
  {
    if b != 0 {
      OneIsNeutral(Half(b));
      XtimeOfProduct(1, Half(b));
      SplitLowBit(b);
    }
  }

  lemma MulOfLowBit(b: bv8, a: bv8)
    ensures Mul(LowTerm(1, b), a) == LowTerm(a, b)
  {
    OneIsNeutral(a);
    MulByZero(a);
  }

  ghost predicate CommutesAt(a: bv8, b: bv8) {
    Mul(a, b) == Mul(b, a)
  }

  lemma CommutesAtZero(a: bv8)
    ensures CommutesAt(a, 0)
  {
    MulByZero(a);
  }

  lemma MulBySplitFactor(a: bv8, b: bv8)
    ensures Mul(b, a) == Plus(LowTerm(a, b), Xtime(Mul(Half(b), a)))
  {
    hide LowTerm, Xtime, Half, Mul, Plus, Fits;
    SplitLowBit(b);
    MulIsLinearOnTheLeft(LowTerm(1, b), Xtime(Half(b)), a);
    MulOfLowBit(b, a);
    XtimeOfProduct(Half(b), a);
  }

  lemma CommutesStep(a: bv8, b: bv8)
    ensures CommutesAt(a, Half(b)) ==> CommutesAt(a, b)
  {
    hide LowTerm, Xtime, Half, Mul, Plus;
    MulStep(a, b);
    XtimeOfProduct(a, Half(b));
    MulBySplitFactor(a, b);
  }

  lemma {:induction false} CommutesIfFits(a: bv8, b: bv8, n: nat)
    ensures Fits(b, n) ==> CommutesAt(a, b)
    decreases n
  {
    hide LowTerm, Xtime, Half, Mul, Plus, SumsAt, ShiftsAt, CommutesAt;
    if n == 0 {
      CommutesAtZero(a);
    } else {
      CommutesIfFits(a, Half(b), n - 1);
      CommutesStep(a, b);
    }
  }

  /** The product is commutative. */
  lemma MulCommutes(a: bv8, b: bv8)
    ensures Mul(a, b) == Mul(b, a)
  {
    hide LowTerm, Xtime, Half, Mul, Plus, Fits;
    var n := 8;
    EveryByteFits(b, n);
    CommutesIfFits(a, b, n);
  }

  /** The product is linear in its second factor. */
  lemma MulIsLinearOnTheRight(a: bv8, b: bv8, c: bv8)
    ensures Mul(a, Plus(b, c)) == Plus(Mul(a, b), Mul(a, c))
  {
    hide LowTerm, Xtime, Half, Mul, Plus, Fits;
    MulIsLinearOnTheLeft(b, c, a);
    MulCommutes(a, b);
    MulCommutes(a, c);
    MulCommutes(a, Plus(b, c));
  }

  ghost predicate AssociatesAt(a: bv8, b: bv8, c: bv8) {
    Mul(Mul(a, b), c) == Mul(a, Mul(b, c))
  }

  lemma AssociatesAtZero(a: bv8, b: bv8)
    ensures AssociatesAt(a, b, 0)
  {
    MulOfZero(Mul(a, b));
    MulOfZero(b);
    MulOfZero(a);
  }

  lemma MulOfLowTerm(a: bv8, b: bv8, c: bv8)
    ensures Mul(a, LowTerm(b, c)) == LowTerm(Mul(a, b), c)
  {
    hide Mul, Odd;
    MulOfZero(a);
  }

  lemma MulOfXtime(a: bv8, b: bv8)
    ensures Mul(a, Xtime(b)) == Xtime(Mul(a, b))
  {
    hide Mul, Xtime;
    MulCommutes(a, Xtime(b));
    XtimeOfProduct(b, a);
    MulCommutes(a, b);
  }

  /** The recursion of `Mul` with the multiplication by x outermost. */
  lemma HornerStep(a: bv8, b: bv8)
    ensures Mul(a, b) == Plus(LowTerm(a, b), Xtime(Mul(a, Half(b))))
  {
    hide LowTerm, Xtime, Half, Mul, Plus;
    MulStep(a, b);
    XtimeOfProduct(a, Half(b));
  }

  lemma AssociatesStep(a: bv8, b: bv8, c: bv8)
    ensures AssociatesAt(a, b, Half(c)) ==> AssociatesAt(a, b, c)
  {
    hide LowTerm, Xtime, Half, Mul, Plus;
    HornerStep(Mul(a, b), c);
    HornerStep(b, c);
    MulIsLinearOnTheRight(a, LowTerm(b, c), Xtime(Mul(b, Half(c))));
    MulOfLowTerm(a, b, c);
    MulOfXtime(a, Mul(b, Half(c)));
  }

  lemma {:induction false} AssociatesIfFits(a: bv8, b: bv8, c: bv8, n: nat)
    ensures Fits(c, n) ==> AssociatesAt(a, b, c)
    decreases n
  {
    hide LowTerm, Xtime, Half, Mul, Plus, AssociatesAt;
    if n == 0 {
      AssociatesAtZero(a, b);
    } else {
      AssociatesIfFits(a, b, Half(c), n - 1);
      AssociatesStep(a, b, c);
    }
  }

  /** The product is associative. */
  lemma MulAssociates(a: bv8, b: bv8, c: bv8)
    ensures Mul(Mul(a, b), c) == Mul(a, Mul(b, c))
  {
    hide LowTerm, Xtime, Half, Mul, Plus, Fits;
    var n := 8;
    EveryByteFits(c, n);
    AssociatesIfFits(a, b, c, n);
  }

  lemma MulByOne(a: bv8)
    ensures Mul(a, 1) == a
  {
    hide Mul;
    MulCommutes(a, 1);
    OneIsNeutral(a);
  }

  // Linear combinations of the four bytes of a column

  datatype Column = Column(a: bv8, b: bv8, c: bv8, d: bv8)

  function Dot(v: Column, m: Column): bv8 {
    Plus(Plus(Mul(v.a, m.a), Mul(v.b, m.b)), Plus(Mul(v.c, m.c), Mul(v.d, m.d)))
  }

  function Scaled(m: Column, k: bv8): Column {
    Column(Mul(m.a, k), Mul(m.b, k), Mul(m.c, k), Mul(m.d, k))
  }

  function Sum(m: Column, n: Column): Column {
    Column(Plus(m.a, n.a), Plus(m.b, n.b), Plus(m.c, n.c), Plus(m.d, n.d))
  }

  /** The four rotations of `v` combined with `m`: the matrix whose rows are the rotations of `m`. */
  function Circulant(v: Column, m: Column): Column {
    Column(Dot(v, m),
           Dot(Column(v.b, v.c, v.d, v.a), m),
           Dot(Column(v.c, v.d, v.a, v.b), m),
           Dot(Column(v.d, v.a, v.b, v.c), m))
  }

  function RotatedRight(m: Column): Column {
    Column(m.d, m.a, m.b, m.c)
  }

  /** First row of the product of the two circulant matrices with first rows `m` and `k`. */
  function FirstRow(m: Column, k: Column): Column {
    Sum(Sum(Scaled(m, k.a), Scaled(RotatedRight(m), k.b)),
        Sum(Scaled(RotatedRight(RotatedRight(m)), k.c), Scaled(RotatedRight(RotatedRight(RotatedRight(m))), k.d)))
  }

  lemma DotOfScaled(v: Column, m: Column, k: bv8)
    ensures Mul(Dot(v, m), k) == Dot(v, Scaled(m, k))
  {
    hide Mul, Plus;
    MulIsLinearOnTheLeft(Plus(Mul(v.a, m.a), Mul(v.b, m.b)), Plus(Mul(v.c, m.c), Mul(v.d, m.d)), k);
    MulIsLinearOnTheLeft(Mul(v.a, m.a), Mul(v.b, m.b), k);
    MulIsLinearOnTheLeft(Mul(v.c, m.c), Mul(v.d, m.d), k);
    MulAssociates(v.a, m.a, k);
    MulAssociates(v.b, m.b, k);
    MulAssociates(v.c, m.c, k);
    MulAssociates(v.d, m.d, k);
  }

  lemma DotOfSum(v: Column, m: Column, n: Column)
    ensures Dot(v, Sum(m, n)) == Plus(Dot(v, m), Dot(v, n))
  {
    hide Mul, Plus;
    MulIsLinearOnTheRight(v.a, m.a, n.a);
    MulIsLinearOnTheRight(v.b, m.b, n.b);
    MulIsLinearOnTheRight(v.c, m.c, n.c);
    MulIsLinearOnTheRight(v.d, m.d, n.d);
    PlusRegroup(Mul(v.a, m.a), Mul(v.a, n.a), Mul(v.b, m.b), Mul(v.b, n.b));
    PlusRegroup(Mul(v.c, m.c), Mul(v.c, n.c), Mul(v.d, m.d), Mul(v.d, n.d));
    PlusRegroup(Plus(Mul(v.a, m.a), Mul(v.b, m.b)), Plus(Mul(v.a, n.a), Mul(v.b, n.b)),
                Plus(Mul(v.c, m.c), Mul(v.d, m.d)), Plus(Mul(v.c, n.c), Mul(v.d, n.d)));
  }

  lemma DotOfRotated(v: Column, m: Column)
    ensures Dot(Column(v.b, v.c, v.d, v.a), m) == Dot(v, RotatedRight(m))
  {
    hide Mul, Plus;
    var p, q, r, s := Mul(v.b, m.a), Mul(v.c, m.b), Mul(v.d, m.c), Mul(v.a, m.d);
    PlusCommutes(Plus(p, q), Plus(r, s));
    PlusCommutes(r, s);
    PlusRegroup(s, r, p, q);
    PlusCommutes(r, q);
  }

  lemma DotOfCirculant(v: Column, m: Column, k: Column)
    ensures Dot(Circulant(v, m), k) == Dot(v, FirstRow(m, k))
  {
    hide Mul, Plus, Scaled, Sum;
    var m1 := RotatedRight(m);
    var m2 := RotatedRight(m1);
    var m3 := RotatedRight(m2);
    RotationsOfDot(v, m);
    DotOfScaled(v, m, k.a);
    DotOfScaled(v, m1, k.b);
    DotOfScaled(v, m2, k.c);
    DotOfScaled(v, m3, k.d);
    DotOfSum(v, Scaled(m, k.a), Scaled(m1, k.b));
    DotOfSum(v, Scaled(m2, k.c), Scaled(m3, k.d));
    DotOfSum(v, Sum(Scaled(m, k.a), Scaled(m1, k.b)), Sum(Scaled(m2, k.c), Scaled(m3, k.d)));
  }

  lemma RotationsOfDot(v: Column, m: Column)
    ensures Circulant(v, m) == Column(Dot(v, m), Dot(v, RotatedRight(m)), Dot(v, RotatedRight(RotatedRight(m))),
                                      Dot(v, RotatedRight(RotatedRight(RotatedRight(m)))))
  {
    hide Dot;
    DotOfRotated(v, m);
    var v1 := Column(v.b, v.c, v.d, v.a);
    DotOfRotated(v1, m);
    DotOfRotated(v, RotatedRight(m));
    var v2 := Column(v1.b, v1.c, v1.d, v1.a);
    DotOfRotated(v2, m);
    DotOfRotated(v1, RotatedRight(m));
    DotOfRotated(v, RotatedRight(RotatedRight(m)));
  }

  lemma DotOfUnit(v: Column)
    ensures Dot(v, Column(1, 0, 0, 0)) == v.a
  {
    hide Mul, Plus;
    MulByOne(v.a);
    MulOfZero(v.b);
    MulOfZero(v.c);
    MulOfZero(v.d);
    PlusZero(0);
    PlusZero(v.a);
  }

  /** Two circulant matrices undo each other when the first row of their product is (1, 0, 0, 0). */
  lemma CirculantsCancel(v: Column, m: Column, k: Column)
    requires FirstRow(m, k) == Column(1, 0, 0, 0)
    ensures Circulant(Circulant(v, m), k) == v
  {
    hide Dot, FirstRow;
    var v1 := Column(v.b, v.c, v.d, v.a);
    var v2 := Column(v.c, v.d, v.a, v.b);
    var v3 := Column(v.d, v.a, v.b, v.c);
    DotOfCirculant(v, m, k);
    DotOfCirculant(v1, m, k);
    DotOfCirculant(v2, m, k);
    DotOfCirculant(v3, m, k);
    DotOfUnit(v);
    DotOfUnit(v1);
    DotOfUnit(v2);
    DotOfUnit(v3);
  }

  const MIX := Column(2, 3, 1, 1)
  const UNMIX := Column(14, 11, 13, 9)

  lemma MixTimesUnmix()
    ensures FirstRow(MIX, UNMIX) == Column(1, 0, 0, 0)
    ensures FirstRow(UNMIX, MIX) == Column(1, 0, 0, 0)
  {
    Times14();
    Times11();
    Times13();
    Times9();
  }

  lemma Times14()
    ensures Mul(1, 14) == Mul(14, 1) == 14 && Mul(2, 14) == Mul(14, 2) == 28 && Mul(3, 14) == Mul(14, 3) == 18
  {}

  lemma Times11()
    ensures Mul(1, 11) == Mul(11, 1) == 11 && Mul(2, 11) == Mul(11, 2) == 22 && Mul(3, 11) == Mul(11, 3) == 29
  {}

  lemma Times13()
    ensures Mul(1, 13) == Mul(13, 1) == 13 && Mul(2, 13) == Mul(13, 2) == 26 && Mul(3, 13) == Mul(13, 3) == 23
  {}

  lemma Times9()
    ensures Mul(1, 9) == Mul(9, 1) == 9 && Mul(2, 9) == Mul(9, 2) == 18 && Mul(3, 9) == Mul(9, 3) == 27
  {}

  // Substitution

  /** The table `sbox`, as a decision tree over the index. */
  function SBox(x: bv8): bv8 {
    if x < 0x80 then
      if x < 0x40 then
        if x < 0x20 then
          if x < 0x10 then
            if x < 0x08 then
              if x < 0x04 then
                if x < 0x02 then (if x < 0x01 then 0x63 else 0x7c) else (if x < 0x03 then 0x77 else 0x7b)
              else
                if x < 0x06 then (if x < 0x05 then 0xf2 else 0x6b) else (if x < 0x07 then 0x6f else 0xc5)
            else
              if x < 0x0c then
                if x < 0x0a then (if x < 0x09 then 0x30 else 0x01) else (if x < 0x0b then 0x67 else 0x2b)
              else
                if x < 0x0e then (if x < 0x0d then 0xfe else 0xd7) else (if x < 0x0f then 0xab else 0x76)
          else
            if x < 0x18 then
              if x < 0x14 then
                if x < 0x12 then (if x < 0x11 then 0xca else 0x82) else (if x < 0x13 then 0xc9 else 0x7d)
              else
                if x < 0x16 then (if x < 0x15 then 0xfa else 0x59) else (if x < 0x17 then 0x47 else 0xf0)
            else
              if x < 0x1c then
                if x < 0x1a then (if x < 0x19 then 0xad else 0xd4) else (if x < 0x1b then 0xa2 else 0xaf)
              else
                if x < 0x1e then (if x < 0x1d then 0x9c else 0xa4) else (if x < 0x1f then 0x72 else 0xc0)
        else
          if x < 0x30 then
            if x < 0x28 then
              if x < 0x24 then
                if x < 0x22 then (if x < 0x21 then 0xb7 else 0xfd) else (if x < 0x23 then 0x93 else 0x26)
              else
                if x < 0x26 then (if x < 0x25 then 0x36 else 0x3f) else (if x < 0x27 then 0xf7 else 0xcc)
            else
              if x < 0x2c then
                if x < 0x2a then (if x < 0x29 then 0x34 else 0xa5) else (if x < 0x2b then 0xe5 else 0xf1)
              else
                if x < 0x2e then (if x < 0x2d then 0x71 else 0xd8) else (if x < 0x2f then 0x31 else 0x15)
          else
            if x < 0x38 then
              if x < 0x34 then
                if x < 0x32 then (if x < 0x31 then 0x04 else 0xc7) else (if x < 0x33 then 0x23 else 0xc3)
              else
                if x < 0x36 then (if x < 0x35 then 0x18 else 0x96) else (if x < 0x37 then 0x05 else 0x9a)
            else
              if x < 0x3c then
                if x < 0x3a then (if x < 0x39 then 0x07 else 0x12) else (if x < 0x3b then 0x80 else 0xe2)
              else
                if x < 0x3e then (if x < 0x3d then 0xeb else 0x27) else (if x < 0x3f then 0xb2 else 0x75)
      else
        if x < 0x60 then
          if x < 0x50 then
            if x < 0x48 then
              if x < 0x44 then
                if x < 0x42 then (if x < 0x41 then 0x09 else 0x83) else (if x < 0x43 then 0x2c else 0x1a)
              else
                if x < 0x46 then (if x < 0x45 then 0x1b else 0x6e) else (if x < 0x47 then 0x5a else 0xa0)
            else
              if x < 0x4c then
                if x < 0x4a then (if x < 0x49 then 0x52 else 0x3b) else (if x < 0x4b then 0xd6 else 0xb3)
              else
                if x < 0x4e then (if x < 0x4d then 0x29 else 0xe3) else (if x < 0x4f then 0x2f else 0x84)
          else
            if x < 0x58 then
              if x < 0x54 then
                if x < 0x52 then (if x < 0x51 then 0x53 else 0xd1) else (if x < 0x53 then 0x00 else 0xed)
              else
                if x < 0x56 then (if x < 0x55 then 0x20 else 0xfc) else (if x < 0x57 then 0xb1 else 0x5b)
            else
              if x < 0x5c then
                if x < 0x5a then (if x < 0x59 then 0x6a else 0xcb) else (if x < 0x5b then 0xbe else 0x39)
              else
                if x < 0x5e then (if x < 0x5d then 0x4a else 0x4c) else (if x < 0x5f then 0x58 else 0xcf)
        else
          if x < 0x70 then
            if x < 0x68 then
              if x < 0x64 then
                if x < 0x62 then (if x < 0x61 then 0xd0 else 0xef) else (if x < 0x63 then 0xaa else 0xfb)
              else
                if x < 0x66 then (if x < 0x65 then 0x43 else 0x4d) else (if x < 0x67 then 0x33 else 0x85)
            else
              if x < 0x6c then
                if x < 0x6a then (if x < 0x69 then 0x45 else 0xf9) else (if x < 0x6b then 0x02 else 0x7f)
              else
                if x < 0x6e then (if x < 0x6d then 0x50 else 0x3c) else (if x < 0x6f then 0x9f else 0xa8)
          else
            if x < 0x78 then
              if x < 0x74 then
                if x < 0x72 then (if x < 0x71 then 0x51 else 0xa3) else (if x < 0x73 then 0x40 else 0x8f)
              else
                if x < 0x76 then (if x < 0x75 then 0x92 else 0x9d) else (if x < 0x77 then 0x38 else 0xf5)
            else
              if x < 0x7c then
                if x < 0x7a then (if x < 0x79 then 0xbc else 0xb6) else (if x < 0x7b then 0xda else 0x21)
              else
                if x < 0x7e then (if x < 0x7d then 0x10 else 0xff) else (if x < 0x7f then 0xf3 else 0xd2)
    else
      if x < 0xc0 then
        if x < 0xa0 then
          if x < 0x90 then
            if x < 0x88 then
              if x < 0x84 then
                if x < 0x82 then (if x < 0x81 then 0xcd else 0x0c) else (if x < 0x83 then 0x13 else 0xec)
              else
                if x < 0x86 then (if x < 0x85 then 0x5f else 0x97) else (if x < 0x87 then 0x44 else 0x17)
            else
              if x < 0x8c then
                if x < 0x8a then (if x < 0x89 then 0xc4 else 0xa7) else (if x < 0x8b then 0x7e else 0x3d)
              else
                if x < 0x8e then (if x < 0x8d then 0x64 else 0x5d) else (if x < 0x8f then 0x19 else 0x73)
          else
            if x < 0x98 then
              if x < 0x94 then
                if x < 0x92 then (if x < 0x91 then 0x60 else 0x81) else (if x < 0x93 then 0x4f else 0xdc)
              else
                if x < 0x96 then (if x < 0x95 then 0x22 else 0x2a) else (if x < 0x97 then 0x90 else 0x88)
            else
              if x < 0x9c then
                if x < 0x9a then (if x < 0x99 then 0x46 else 0xee) else (if x < 0x9b then 0xb8 else 0x14)
              else
                if x < 0x9e then (if x < 0x9d then 0xde else 0x5e) else (if x < 0x9f then 0x0b else 0xdb)
        else
          if x < 0xb0 then
            if x < 0xa8 then
              if x < 0xa4 then
                if x < 0xa2 then (if x < 0xa1 then 0xe0 else 0x32) else (if x < 0xa3 then 0x3a else 0x0a)
              else
                if x < 0xa6 then (if x < 0xa5 then 0x49 else 0x06) else (if x < 0xa7 then 0x24 else 0x5c)
            else
              if x < 0xac then
                if x < 0xaa then (if x < 0xa9 then 0xc2 else 0xd3) else (if x < 0xab then 0xac else 0x62)
              else
                if x < 0xae then (if x < 0xad then 0x91 else 0x95) else (if x < 0xaf then 0xe4 else 0x79)
          else
            if x < 0xb8 then
              if x < 0xb4 then
                if x < 0xb2 then (if x < 0xb1 then 0xe7 else 0xc8) else (if x < 0xb3 then 0x37 else 0x6d)
              else
                if x < 0xb6 then (if x < 0xb5 then 0x8d else 0xd5) else (if x < 0xb7 then 0x4e else 0xa9)
            else
              if x < 0xbc then
                if x < 0xba then (if x < 0xb9 then 0x6c else 0x56) else (if x < 0xbb then 0xf4 else 0xea)
              else
                if x < 0xbe then (if x < 0xbd then 0x65 else 0x7a) else (if x < 0xbf then 0xae else 0x08)
      else
        if x < 0xe0 then
          if x < 0xd0 then
            if x < 0xc8 then
              if x < 0xc4 then
                if x < 0xc2 then (if x < 0xc1 then 0xba else 0x78) else (if x < 0xc3 then 0x25 else 0x2e)
              else
                if x < 0xc6 then (if x < 0xc5 then 0x1c else 0xa6) else (if x < 0xc7 then 0xb4 else 0xc6)
            else
              if x < 0xcc then
                if x < 0xca then (if x < 0xc9 then 0xe8 else 0xdd) else (if x < 0xcb then 0x74 else 0x1f)
              else
                if x < 0xce then (if x < 0xcd then 0x4b else 0xbd) else (if x < 0xcf then 0x8b else 0x8a)
          else
            if x < 0xd8 then
              if x < 0xd4 then
                if x < 0xd2 then (if x < 0xd1 then 0x70 else 0x3e) else (if x < 0xd3 then 0xb5 else 0x66)
              else
                if x < 0xd6 then (if x < 0xd5 then 0x48 else 0x03) else (if x < 0xd7 then 0xf6 else 0x0e)
            else
              if x < 0xdc then
                if x < 0xda then (if x < 0xd9 then 0x61 else 0x35) else (if x < 0xdb then 0x57 else 0xb9)
              else
                if x < 0xde then (if x < 0xdd then 0x86 else 0xc1) else (if x < 0xdf then 0x1d else 0x9e)
        else
          if x < 0xf0 then
            if x < 0xe8 then
              if x < 0xe4 then
                if x < 0xe2 then (if x < 0xe1 then 0xe1 else 0xf8) else (if x < 0xe3 then 0x98 else 0x11)
              else
                if x < 0xe6 then (if x < 0xe5 then 0x69 else 0xd9) else (if x < 0xe7 then 0x8e else 0x94)
            else
              if x < 0xec then
                if x < 0xea then (if x < 0xe9 then 0x9b else 0x1e) else (if x < 0xeb then 0x87 else 0xe9)
              else
                if x < 0xee then (if x < 0xed then 0xce else 0x55) else (if x < 0xef then 0x28 else 0xdf)
          else
            if x < 0xf8 then
              if x < 0xf4 then
                if x < 0xf2 then (if x < 0xf1 then 0x8c else 0xa1) else (if x < 0xf3 then 0x89 else 0x0d)
              else
                if x < 0xf6 then (if x < 0xf5 then 0xbf else 0xe6) else (if x < 0xf7 then 0x42 else 0x68)
            else
              if x < 0xfc then
                if x < 0xfa then (if x < 0xf9 then 0x41 else 0x99) else (if x < 0xfb then 0x2d else 0x0f)
              else
                if x < 0xfe then (if x < 0xfd then 0xb0 else 0x54) else (if x < 0xff then 0xbb else 0x16)
  }

  /** The table `rsbox`. */
  function InvSBox(x: bv8): bv8 {
    if x < 0x80 then
      if x < 0x40 then
        if x < 0x20 then
          if x < 0x10 then
            if x < 0x08 then
              if x < 0x04 then
                if x < 0x02 then (if x < 0x01 then 0x52 else 0x09) else (if x < 0x03 then 0x6a else 0xd5)
              else
                if x < 0x06 then (if x < 0x05 then 0x30 else 0x36) else (if x < 0x07 then 0xa5 else 0x38)
            else
              if x < 0x0c then
                if x < 0x0a then (if x < 0x09 then 0xbf else 0x40) else (if x < 0x0b then 0xa3 else 0x9e)
              else
                if x < 0x0e then (if x < 0x0d then 0x81 else 0xf3) else (if x < 0x0f then 0xd7 else 0xfb)
          else
            if x < 0x18 then
              if x < 0x14 then
                if x < 0x12 then (if x < 0x11 then 0x7c else 0xe3) else (if x < 0x13 then 0x39 else 0x82)
              else
                if x < 0x16 then (if x < 0x15 then 0x9b else 0x2f) else (if x < 0x17 then 0xff else 0x87)
            else
              if x < 0x1c then
                if x < 0x1a then (if x < 0x19 then 0x34 else 0x8e) else (if x < 0x1b then 0x43 else 0x44)
              else
                if x < 0x1e then (if x < 0x1d then 0xc4 else 0xde) else (if x < 0x1f then 0xe9 else 0xcb)
        else
          if x < 0x30 then
            if x < 0x28 then
              if x < 0x24 then
                if x < 0x22 then (if x < 0x21 then 0x54 else 0x7b) else (if x < 0x23 then 0x94 else 0x32)
              else
                if x < 0x26 then (if x < 0x25 then 0xa6 else 0xc2) else (if x < 0x27 then 0x23 else 0x3d)
            else
              if x < 0x2c then
                if x < 0x2a then (if x < 0x29 then 0xee else 0x4c) else (if x < 0x2b then 0x95 else 0x0b)
              else
                if x < 0x2e then (if x < 0x2d then 0x42 else 0xfa) else (if x < 0x2f then 0xc3 else 0x4e)
          else
            if x < 0x38 then
              if x < 0x34 then
                if x < 0x32 then (if x < 0x31 then 0x08 else 0x2e) else (if x < 0x33 then 0xa1 else 0x66)
              else
                if x < 0x36 then (if x < 0x35 then 0x28 else 0xd9) else (if x < 0x37 then 0x24 else 0xb2)
            else
              if x < 0x3c then
                if x < 0x3a then (if x < 0x39 then 0x76 else 0x5b) else (if x < 0x3b then 0xa2 else 0x49)
              else
                if x < 0x3e then (if x < 0x3d then 0x6d else 0x8b) else (if x < 0x3f then 0xd1 else 0x25)
      else
        if x < 0x60 then
          if x < 0x50 then
            if x < 0x48 then
              if x < 0x44 then
                if x < 0x42 then (if x < 0x41 then 0x72 else 0xf8) else (if x < 0x43 then 0xf6 else 0x64)
              else
                if x < 0x46 then (if x < 0x45 then 0x86 else 0x68) else (if x < 0x47 then 0x98 else 0x16)
            else
              if x < 0x4c then
                if x < 0x4a then (if x < 0x49 then 0xd4 else 0xa4) else (if x < 0x4b then 0x5c else 0xcc)
              else
                if x < 0x4e then (if x < 0x4d then 0x5d else 0x65) else (if x < 0x4f then 0xb6 else 0x92)
          else
            if x < 0x58 then
              if x < 0x54 then
                if x < 0x52 then (if x < 0x51 then 0x6c else 0x70) else (if x < 0x53 then 0x48 else 0x50)
              else
                if x < 0x56 then (if x < 0x55 then 0xfd else 0xed) else (if x < 0x57 then 0xb9 else 0xda)
            else
              if x < 0x5c then
                if x < 0x5a then (if x < 0x59 then 0x5e else 0x15) else (if x < 0x5b then 0x46 else 0x57)
              else
                if x < 0x5e then (if x < 0x5d then 0xa7 else 0x8d) else (if x < 0x5f then 0x9d else 0x84)
        else
          if x < 0x70 then
            if x < 0x68 then
              if x < 0x64 then
                if x < 0x62 then (if x < 0x61 then 0x90 else 0xd8) else (if x < 0x63 then 0xab else 0x00)
              else
                if x < 0x66 then (if x < 0x65 then 0x8c else 0xbc) else (if x < 0x67 then 0xd3 else 0x0a)
            else
              if x < 0x6c then
                if x < 0x6a then (if x < 0x69 then 0xf7 else 0xe4) else (if x < 0x6b then 0x58 else 0x05)
              else
                if x < 0x6e then (if x < 0x6d then 0xb8 else 0xb3) else (if x < 0x6f then 0x45 else 0x06)
          else
            if x < 0x78 then
              if x < 0x74 then
                if x < 0x72 then (if x < 0x71 then 0xd0 else 0x2c) else (if x < 0x73 then 0x1e else 0x8f)
              else
                if x < 0x76 then (if x < 0x75 then 0xca else 0x3f) else (if x < 0x77 then 0x0f else 0x02)
            else
              if x < 0x7c then
                if x < 0x7a then (if x < 0x79 then 0xc1 else 0xaf) else (if x < 0x7b then 0xbd else 0x03)
              else
                if x < 0x7e then (if x < 0x7d then 0x01 else 0x13) else (if x < 0x7f then 0x8a else 0x6b)
    else
      if x < 0xc0 then
        if x < 0xa0 then
          if x < 0x90 then
            if x < 0x88 then
              if x < 0x84 then
                if x < 0x82 then (if x < 0x81 then 0x3a else 0x91) else (if x < 0x83 then 0x11 else 0x41)
              else
                if x < 0x86 then (if x < 0x85 then 0x4f else 0x67) else (if x < 0x87 then 0xdc else 0xea)
            else
              if x < 0x8c then
                if x < 0x8a then (if x < 0x89 then 0x97 else 0xf2) else (if x < 0x8b then 0xcf else 0xce)
              else
                if x < 0x8e then (if x < 0x8d then 0xf0 else 0xb4) else (if x < 0x8f then 0xe6 else 0x73)
          else
            if x < 0x98 then
              if x < 0x94 then
                if x < 0x92 then (if x < 0x91 then 0x96 else 0xac) else (if x < 0x93 then 0x74 else 0x22)
              else
                if x < 0x96 then (if x < 0x95 then 0xe7 else 0xad) else (if x < 0x97 then 0x35 else 0x85)
            else
              if x < 0x9c then
                if x < 0x9a then (if x < 0x99 then 0xe2 else 0xf9) else (if x < 0x9b then 0x37 else 0xe8)
              else
                if x < 0x9e then (if x < 0x9d then 0x1c else 0x75) else (if x < 0x9f then 0xdf else 0x6e)
        else
          if x < 0xb0 then
            if x < 0xa8 then
              if x < 0xa4 then
                if x < 0xa2 then (if x < 0xa1 then 0x47 else 0xf1) else (if x < 0xa3 then 0x1a else 0x71)
              else
                if x < 0xa6 then (if x < 0xa5 then 0x1d else 0x29) else (if x < 0xa7 then 0xc5 else 0x89)
            else
              if x < 0xac then
                if x < 0xaa then (if x < 0xa9 then 0x6f else 0xb7) else (if x < 0xab then 0x62 else 0x0e)
              else
                if x < 0xae then (if x < 0xad then 0xaa else 0x18) else (if x < 0xaf then 0xbe else 0x1b)
          else
            if x < 0xb8 then
              if x < 0xb4 then
                if x < 0xb2 then (if x < 0xb1 then 0xfc else 0x56) else (if x < 0xb3 then 0x3e else 0x4b)
              else
                if x < 0xb6 then (if x < 0xb5 then 0xc6 else 0xd2) else (if x < 0xb7 then 0x79 else 0x20)
            else
              if x < 0xbc then
                if x < 0xba then (if x < 0xb9 then 0x9a else 0xdb) else (if x < 0xbb then 0xc0 else 0xfe)
              else
                if x < 0xbe then (if x < 0xbd then 0x78 else 0xcd) else (if x < 0xbf then 0x5a else 0xf4)
      else
        if x < 0xe0 then
          if x < 0xd0 then
            if x < 0xc8 then
              if x < 0xc4 then
                if x < 0xc2 then (if x < 0xc1 then 0x1f else 0xdd) else (if x < 0xc3 then 0xa8 else 0x33)
              else
                if x < 0xc6 then (if x < 0xc5 then 0x88 else 0x07) else (if x < 0xc7 then 0xc7 else 0x31)
            else
              if x < 0xcc then
                if x < 0xca then (if x < 0xc9 then 0xb1 else 0x12) else (if x < 0xcb then 0x10 else 0x59)
              else
                if x < 0xce then (if x < 0xcd then 0x27 else 0x80) else (if x < 0xcf then 0xec else 0x5f)
          else
            if x < 0xd8 then
              if x < 0xd4 then
                if x < 0xd2 then (if x < 0xd1 then 0x60 else 0x51) else (if x < 0xd3 then 0x7f else 0xa9)
              else
                if x < 0xd6 then (if x < 0xd5 then 0x19 else 0xb5) else (if x < 0xd7 then 0x4a else 0x0d)
            else
              if x < 0xdc then
                if x < 0xda then (if x < 0xd9 then 0x2d else 0xe5) else (if x < 0xdb then 0x7a else 0x9f)
              else
                if x < 0xde then (if x < 0xdd then 0x93 else 0xc9) else (if x < 0xdf then 0x9c else 0xef)
        else
          if x < 0xf0 then
            if x < 0xe8 then
              if x < 0xe4 then
                if x < 0xe2 then (if x < 0xe1 then 0xa0 else 0xe0) else (if x < 0xe3 then 0x3b else 0x4d)
              else
                if x < 0xe6 then (if x < 0xe5 then 0xae else 0x2a) else (if x < 0xe7 then 0xf5 else 0xb0)
            else
              if x < 0xec then
                if x < 0xea then (if x < 0xe9 then 0xc8 else 0xeb) else (if x < 0xeb then 0xbb else 0x3c)
              else
                if x < 0xee then (if x < 0xed then 0x83 else 0x53) else (if x < 0xef then 0x99 else 0x61)
          else
            if x < 0xf8 then
              if x < 0xf4 then
                if x < 0xf2 then (if x < 0xf1 then 0x17 else 0x2b) else (if x < 0xf3 then 0x04 else 0x7e)
              else
                if x < 0xf6 then (if x < 0xf5 then 0xba else 0x77) else (if x < 0xf7 then 0xd6 else 0x26)
            else
              if x < 0xfc then
                if x < 0xfa then (if x < 0xf9 then 0xe1 else 0x69) else (if x < 0xfb then 0x14 else 0x63)
              else
                if x < 0xfe then (if x < 0xfd then 0x55 else 0x21) else (if x < 0xff then 0x0c else 0x7d)
  }

  lemma InvSBoxAfterSBox(x: bv8)
    ensures InvSBox(SBox(x)) == x
  {}

  lemma SBoxAfterInvSBox(x: bv8)
    ensures SBox(InvSBox(x)) == x
  {}
}
