/** Weekly ranges, and the circle of 10080 minutes on which they are inclusive arcs. Coverage of a minute, touching
    arcs, maximal runs and canonical lists are defined here on the circle itself, without regard to how the
    scheduler finds them; a canonical list is shown to be determined by what it covers. */
module WeeklyTypes {

  type Weekday = d: int | 0 <= d < 7
  type Hour = h: int | 0 <= h < 24
  type Minute = m: int | 0 <= m < 60

  datatype TimeHm = TimeHm(hour: Hour, minute: Minute)

  datatype WeeklyRange = WeeklyRange(startDay: Weekday, startTime: TimeHm, endDay: Weekday, endTime: TimeHm)

  function MinuteOfDay(t: TimeHm): (m: int)
    ensures 0 <= m < 1440
  {
    t.hour * 60 + t.minute
  }

  function MinuteOfWeek(d: Weekday, t: TimeHm): (m: int)
    ensures 0 <= m < 10080
  {
    d * 1440 + MinuteOfDay(t)
  }

  /** The residue of a minute on the circle. */
  function Residue(t: int): (m: int)
    ensures 0 <= m < 10080
    decreases if t < 0 then 10080 - t else t
  {
    if t < 0 then Residue(t + 10080)
    else if t < 10080 then t
    else Residue(t - 10080)
  }

  /** Going forward around the circle from `s`, is `t` met no later than `e`? */
  predicate ArcCovers(s: int, e: int, t: int) {
    Residue(t - s) <= e - s
  }

  /** First minute of the range, in the week it starts. */
  function Start(r: WeeklyRange): (s: int)
    ensures 0 <= s < 10080
  {
    MinuteOfWeek(r.startDay, r.startTime)
  }

  /** Last minute of the range; it falls into the next week when the range wraps. */
  function End(r: WeeklyRange): (e: int)
    ensures Start(r) <= e < Start(r) + 10080
  {
    var e := MinuteOfWeek(r.endDay, r.endTime);
    if e < Start(r) then e + 10080 else e
  }

  /** Two arcs overlap or are adjacent on the circle, whatever weeks they are read in. */
  predicate TouchingArcs(s: int, e: int, s': int, e': int) {
    ArcCovers(s, e + 1, s') || ArcCovers(s', e' + 1, s)
  }

  predicate RangeCovers(r: WeeklyRange, t: int) {
    ArcCovers(Start(r), End(r), t)
  }

  predicate Covered(rs: seq<WeeklyRange>, t: int) {
    exists r :: r in rs && RangeCovers(r, t)
  }

  predicate Touching(a: WeeklyRange, b: WeeklyRange) {
    TouchingArcs(Start(a), End(a), Start(b), End(b))
  }

  /** The single range from Monday 00:00 to Sunday 23:59. */
  predicate WholeWeek(r: WeeklyRange) {
    Start(r) == 0 && End(r) == 10079
  }

  predicate IsFullWeek(rs: seq<WeeklyRange>) {
    |rs| == 1 && WholeWeek(rs[0])
  }

  /** The arcs are a shortest description of what they cover: either the one full
      week, or arcs no two of which overlap or are adjacent, none of them a whole week. */
  predicate Canonical(rs: seq<WeeklyRange>) {
    || IsFullWeek(rs)
    || (&& (forall r :: r in rs ==> End(r) - Start(r) + 1 < 10080)
        && (forall i, j :: 0 <= i < j < |rs| ==> !Touching(rs[i], rs[j])))
  }

  /** `r` covers only minutes that `rs` covers, and cannot be extended on either side. */
  ghost predicate MaximalRun(r: WeeklyRange, rs: seq<WeeklyRange>) {
    && (forall t :: RangeCovers(r, t) ==> Covered(rs, t))
    && !Covered(rs, Start(r) - 1)
    && !Covered(rs, End(r) + 1)
  }

  ghost predicate SameCoverage(a: seq<WeeklyRange>, b: seq<WeeklyRange>) {
    forall t :: Covered(a, t) <==> Covered(b, t)
  }

  // Arithmetic on the circle

  lemma {:induction false} ResidueIsRemainder(t: int)
    ensures Residue(t) == t % 10080
    decreases if t < 0 then 10080 - t else t
  {
    if t < 0 {
      ResidueIsRemainder(t + 10080);
    } else if t >= 10080 {
      ResidueIsRemainder(t - 10080);
    }
  }

  function AddWeeks(t: int, k: int): int { t + k * 10080 }

  lemma ResidueOfShift(t: int, k: int)
    ensures Residue(AddWeeks(t, k)) == Residue(t)
  {
    ResidueIsRemainder(t);
    ResidueIsRemainder(AddWeeks(t, k));
    assert AddWeeks(t, k) / 10080 == t / 10080 + k;
  }

  lemma ResidueOfSum(x: int, d: int)
    requires 0 <= d <= 10080
    ensures Residue(x + d) == if Residue(x) + d < 10080 then Residue(x) + d else Residue(x) + d - 10080
  {
    ResidueIsRemainder(x);
    ResidueIs(x + d, if Residue(x) + d < 10080 then Residue(x) + d else Residue(x) + d - 10080,
              x / 10080 + if Residue(x) + d < 10080 then 0 else 1);
  }

  lemma ResidueOfNegation(x: int)
    ensures Residue(-x) == if Residue(x) == 0 then 0 else 10080 - Residue(x)
  {
    ResidueIsRemainder(x);
    ResidueIs(-x, if Residue(x) == 0 then 0 else 10080 - Residue(x),
              if Residue(x) == 0 then -(x / 10080) else -(x / 10080) - 1);
  }

  lemma ResidueIs(x: int, r: int, k: int)
    requires 0 <= r < 10080 && x == r + k * 10080
    ensures Residue(x) == r
  {
    ResidueIsRemainder(x);
    assert x / 10080 == k;
  }

  /** A minute is covered exactly when some week shift of it lies between the ends. */
  lemma CoversMeansSomeShift(s: int, e: int, t: int)
    requires s <= e
    ensures ArcCovers(s, e, t) <==> exists k: int :: s <= AddWeeks(t, k) <= e
  {
    ResidueIsRemainder(t - s);
    var k0 := -((t - s) / 10080);
    assert AddWeeks(t, k0) == s + Residue(t - s);
    forall k: int | s <= AddWeeks(t, k) <= e
      ensures ArcCovers(s, e, t)
    {
      assert AddWeeks(t, k) - s >= 0;
      assert (t - s) / 10080 + k >= 0;
    }
  }

  lemma NeighboursOfUntouchedArc(qs: int, qe: int, rs: int, re: int)
    requires qs <= qe && rs <= re < rs + 10080
    requires !ArcCovers(qs, qe + 1, rs) && !ArcCovers(rs, re + 1, qs)
    ensures !ArcCovers(qs, qe, rs - 1) && !ArcCovers(qs, qe, re + 1)
  {
    ResidueOfSum(rs - 1 - qs, 1);
    ResidueOfSum(rs - qs, re + 1 - rs);
    ResidueOfNegation(rs - qs);
    assert rs - qs + (re + 1 - rs) == re + 1 - qs;
    assert -(rs - qs) == qs - rs;
  }

  lemma NeighboursOfOwnArc(s: int, e: int)
    requires s <= e && e - s + 1 < 10080
    ensures !ArcCovers(s, e, s - 1) && !ArcCovers(s, e, e + 1)
    ensures ArcCovers(s, e, s) && ArcCovers(s, e, e)
  {
    ResidueIs(-1, 10080 - 1, -1);
    ResidueIs(e - s, e - s, 0);
    ResidueIs(e + 1 - s, e + 1 - s, 0);
  }

  lemma CoveredWithoutPredecessorIsTheStart(s: int, e: int, t: int)
    requires 0 <= s < 10080 && 0 <= t < 10080 && s <= e
    requires ArcCovers(s, e, t) && !ArcCovers(s, e, t - 1)
    ensures s == t
  {
    ResidueOfSum(t - 1 - s, 1);
    ResidueIs(t - s, if t < s then t - s + 10080 else t - s, if t < s then -1 else 0);
  }

  // Encoding of ranges

  lemma DecodeEncode(d: Weekday, t: TimeHm)
    ensures MinuteOfWeek(d, t) / 1440 == d
    ensures MinuteOfWeek(d, t) % 1440 / 60 == t.hour
    ensures MinuteOfWeek(d, t) % 1440 % 60 == t.minute
  {}

  lemma MinuteOfWeekInjective(d: Weekday, t: TimeHm, d': Weekday, t': TimeHm)
    requires MinuteOfWeek(d, t) == MinuteOfWeek(d', t')
    ensures d == d' && t == t'
  {
    DecodeEncode(d, t);
    DecodeEncode(d', t');
  }

  lemma EndResidue(r: WeeklyRange)
    ensures Residue(End(r)) == MinuteOfWeek(r.endDay, r.endTime)
  {
    var m := MinuteOfWeek(r.endDay, r.endTime);
    ResidueIs(End(r), m, if m < Start(r) then 1 else 0);
  }

  lemma RangeIsDeterminedByItsEnds(a: WeeklyRange, b: WeeklyRange)
    requires Start(a) == Start(b) && Residue(End(a)) == Residue(End(b))
    ensures a == b
  {
    EndResidue(a);
    EndResidue(b);
    MinuteOfWeekInjective(a.startDay, a.startTime, b.startDay, b.startTime);
    MinuteOfWeekInjective(a.endDay, a.endTime, b.endDay, b.endTime);
  }

  lemma WholeWeekIsMondayToSunday(r: WeeklyRange)
    ensures WholeWeek(r) <==>
            r.startDay == 0 && MinuteOfDay(r.startTime) == 0 && r.endDay == 6 && MinuteOfDay(r.endTime) == 1439
  {}

  lemma WholeWeekIsUnique(a: WeeklyRange, b: WeeklyRange)
    requires WholeWeek(a) && WholeWeek(b)
    ensures a == b
  {
    RangeIsDeterminedByItsEnds(a, b);
  }

  lemma WholeCircleCovers(r: WeeklyRange, t: int)
    requires End(r) - Start(r) + 1 >= 10080
    ensures RangeCovers(r, t)
  {}

  // Canonical lists

  lemma NeighboursOfAStoredRange(rs: seq<WeeklyRange>, r: WeeklyRange)
    requires Canonical(rs) && !IsFullWeek(rs) && r in rs
    ensures !Covered(rs, Start(r) - 1) && !Covered(rs, End(r) + 1)
  {
    var i :| 0 <= i < |rs| && rs[i] == r;
    forall q | q in rs
      ensures !RangeCovers(q, Start(r) - 1) && !RangeCovers(q, End(r) + 1)
    {
      var j :| 0 <= j < |rs| && rs[j] == q;
      if i == j {
        NeighboursOfOwnArc(Start(r), End(r));
      } else {
        assert !Touching(q, r);
        NeighboursOfUntouchedArc(Start(q), End(q), Start(r), End(r));
      }
    }
  }

  /** On a canonical list that is not the full week, the ranges are exactly the maximal runs. */
  lemma CanonicalRangesAreTheMaximalRuns(rs: seq<WeeklyRange>, r: WeeklyRange)
    requires Canonical(rs) && !IsFullWeek(rs)
    ensures r in rs <==> MaximalRun(r, rs)
  {
    if r in rs {
      NeighboursOfAStoredRange(rs, r);
    } else if MaximalRun(r, rs) {
      assert RangeCovers(r, Start(r));
      var q :| q in rs && RangeCovers(q, Start(r));
      RunsFromTheSameMinuteAgree(q, r, rs);
    }
  }

  lemma RunsFromTheSameMinuteAgree(q: WeeklyRange, r: WeeklyRange, rs: seq<WeeklyRange>)
    requires Canonical(rs) && !IsFullWeek(rs) && q in rs && MaximalRun(r, rs)
    requires RangeCovers(q, Start(r))
    ensures q == r
  {
    assert !RangeCovers(q, Start(r) - 1);
    CoveredWithoutPredecessorIsTheStart(Start(q), End(q), Start(r));
    NeighboursOfAStoredRange(rs, q);
    RunEndsWhereTheArcEnds(q, r, rs);
    RangeIsDeterminedByItsEnds(q, r);
  }

  lemma RunEndsWhereTheArcEnds(q: WeeklyRange, r: WeeklyRange, rs: seq<WeeklyRange>)
    requires q in rs && MaximalRun(r, rs) && Start(q) == Start(r) && !Covered(rs, End(q) + 1)
    ensures End(q) == End(r)
  {
    if End(q) < End(r) {
      ResidueIs(End(q) + 1 - Start(r), End(q) + 1 - Start(r), 0);
    } else if End(r) < End(q) {
      ResidueIs(End(r) + 1 - Start(q), End(r) + 1 - Start(q), 0);
    }
  }

  lemma CanonicalHasNoDuplicates(rs: seq<WeeklyRange>)
    requires Canonical(rs)
    ensures forall i, j :: 0 <= i < j < |rs| ==> rs[i] != rs[j]
  {
    forall i, j | 0 <= i < j < |rs| ensures rs[i] != rs[j] {
      assert ArcCovers(Start(rs[i]), End(rs[i]) + 1, Start(rs[i]));
    }
  }

  lemma {:induction false} DistinctSeqsWithSameElements<T>(a: seq<T>, b: seq<T>)
    requires forall i, j :: 0 <= i < j < |a| ==> a[i] != a[j]
    requires forall i, j :: 0 <= i < j < |b| ==> b[i] != b[j]
    requires forall x :: x in a <==> x in b
    ensures multiset(a) == multiset(b)
  {
    forall x ensures multiset(a)[x] == multiset(b)[x] {
      DistinctCount(a, x);
      DistinctCount(b, x);
    }
  }

  lemma {:induction false} DistinctCount<T>(a: seq<T>, x: T)
    requires forall i, j :: 0 <= i < j < |a| ==> a[i] != a[j]
    ensures multiset(a)[x] == if x in a then 1 else 0
  {
    if a != [] {
      var last := |a| - 1;
      assert a == a[..last] + [a[last]];
      DistinctCount(a[..last], x);
    }
  }

  /** The full week is stored exactly when every minute is covered. */
  lemma CanonicalFullCoverage(rs: seq<WeeklyRange>)
    requires Canonical(rs)
    ensures IsFullWeek(rs) <==> forall t :: Covered(rs, t)
  {
    if IsFullWeek(rs) {
      forall t ensures Covered(rs, t) { WholeCircleCovers(rs[0], t); }
    } else {
      var t := SomeMinuteIsUncovered(rs);
    }
  }

  lemma SomeMinuteIsUncovered(rs: seq<WeeklyRange>) returns (t: int)
    requires Canonical(rs) && !IsFullWeek(rs)
    ensures !Covered(rs, t)
  {
    if rs == [] {
      t := 0;
    } else {
      t := Start(rs[0]) - 1;
      NeighboursOfAStoredRange(rs, rs[0]);
    }
  }

  lemma SameRangesWhenPartlyCovered(a: seq<WeeklyRange>, b: seq<WeeklyRange>, r: WeeklyRange)
    requires Canonical(a) && Canonical(b) && SameCoverage(a, b) && !IsFullWeek(a) && !IsFullWeek(b)
    ensures r in a <==> r in b
  {
    CanonicalRangesAreTheMaximalRuns(a, r);
    CanonicalRangesAreTheMaximalRuns(b, r);
    assert MaximalRun(r, a) <==> MaximalRun(r, b);
  }

  /** A canonical list is determined, up to order, by the minutes it covers. */
  lemma CanonicalFormIsUnique(a: seq<WeeklyRange>, b: seq<WeeklyRange>)
    requires Canonical(a) && Canonical(b) && SameCoverage(a, b)
    ensures multiset(a) == multiset(b)
  {
    CanonicalFullCoverage(a);
    CanonicalFullCoverage(b);
    if IsFullWeek(a) {
      WholeWeekIsUnique(a[0], b[0]);
      assert a == [a[0]] && b == [b[0]];
    } else {
      forall r: WeeklyRange ensures r in a <==> r in b {
        SameRangesWhenPartlyCovered(a, b, r);
      }
      CanonicalHasNoDuplicates(a);
      CanonicalHasNoDuplicates(b);
      DistinctSeqsWithSameElements(a, b);
    }
  }
}
