/** Exactly when two lists of weekly ranges normalize alike, inverted ranges included. */
module NormalForms {
  import opened WeeklyTypes
  import opened Scheduler
  import opened ScheduleNormalizer

  predicate Backward(iv: Interval) {
    iv.end < iv.start
  }

  /** How many copies of a backward interval merging leaves: none behind a minute that holds, otherwise all, except
      that one which ends right before its start is left once, and swallowed by what starts with it. */
  function Kept(ivs: seq<Interval>, p: Interval): nat
    requires Backward(p)
  {
    if AnyHolds(ivs, p.day, p.start - 1) then 0
    else if p.end == p.start - 1 then if p in ivs && !AnyHolds(ivs, p.day, p.start) then 1 else 0
    else multiset(ivs)[p]
  }

  // One step of the merging loop

  /** What is known before a step: `m` is the result so far of merging `ivs`, and `iv` comes next. */
  ghost predicate BeforeStep(m: seq<Interval>, ivs: seq<Interval>, iv: Interval, p: Interval) {
    && WellMerged(m, ivs)
    && (forall q :: q in ivs ==> Leq(q, iv))
    && (forall minute :: AnyHolds(m, p.day, minute) <==> AnyHolds(ivs, p.day, minute))
    && Backward(p) && multiset(m)[p] == Kept(ivs, p)
  }

  lemma HoldsOneMore(ivs: seq<Interval>, iv: Interval, day: Weekday, minute: int)
    ensures AnyHolds(ivs + [iv], day, minute) <==> AnyHolds(ivs, day, minute) || Holds(iv, day, minute)
  {
    AnyHoldsConcat(ivs, [iv], day, minute);
    assert iv in [iv];
  }

  lemma CountOneMore(ivs: seq<Interval>, iv: Interval, p: Interval)
    ensures multiset(ivs + [iv])[p] == multiset(ivs)[p] + if p == iv then 1 else 0
    ensures p in ivs + [iv] <==> p in ivs || p == iv
    ensures p in ivs <==> multiset(ivs)[p] > 0
  {}

  /** `Kept` after one more interval, in terms of the list before. */
  lemma KeptOneMore(ivs: seq<Interval>, iv: Interval, p: Interval)
    requires Backward(p)
    ensures Kept(ivs + [iv], p) ==
            if AnyHolds(ivs, p.day, p.start - 1) || Holds(iv, p.day, p.start - 1) then 0
            else if p.end == p.start - 1 then
              if (p in ivs || p == iv) && !AnyHolds(ivs, p.day, p.start) && !Holds(iv, p.day, p.start) then 1 else 0
            else multiset(ivs)[p] + if p == iv then 1 else 0
  {
    hide AnyHolds, Holds;
    HoldsOneMore(ivs, iv, p.day, p.start - 1);
    HoldsOneMore(ivs, iv, p.day, p.start);
    CountOneMore(ivs, iv, p);
  }

  lemma NothingStartsBefore(ivs: seq<Interval>, iv: Interval, p: Interval)
    requires (forall q :: q in ivs ==> Leq(q, iv)) && p in ivs && Backward(p)
    ensures !Holds(iv, p.day, p.start - 1)
    ensures Holds(iv, p.day, p.start) ==> iv.start == p.start
  {
    assert Leq(p, iv);
  }

  lemma Position(m: seq<Interval>, q: Interval) returns (i: nat)
    requires q in m
    ensures i < |m| && m[i] == q
  {
    i :| i < |m| && m[i] == q;
  }

  lemma EndsBeforePushed(m: seq<Interval>, iv: Interval, q: Interval)
    requires Separated(m + [iv]) && q in m && q.day == iv.day
    ensures q.end + 1 < iv.start
  {
    var i := Position(m, q);
    assert (m + [iv])[i] == q && (m + [iv])[|m|] == iv;
  }

  lemma NothingHoldsBehind(m: seq<Interval>, iv: Interval, minute: int)
    requires Separated(m + [iv]) && minute >= iv.start - 1
    ensures !AnyHolds(m, iv.day, minute)
  {
    hide Separated;
    forall q | q in m
      ensures !Holds(q, iv.day, minute)
    {
      if q.day == iv.day { EndsBeforePushed(m, iv, q); }
    }
  }

  lemma PushKeeps(m: seq<Interval>, ivs: seq<Interval>, iv: Interval, p: Interval)
    requires BeforeStep(m, ivs, iv, p)
    requires m != [] ==> m[|m| - 1].day != iv.day || iv.start > m[|m| - 1].end + 1
    ensures multiset(m + [iv])[p] == Kept(ivs + [iv], p)
  {
    PushedIsWellMerged(m, ivs, iv);
    hide AnyHolds, Holds, WellMerged, Separated, Sorted, Leq;
    KeptOneMore(ivs, iv, p);
    CountOneMore(m, iv, p);
    CountOneMore(ivs, iv, p);
    if p == iv {
      NothingHoldsBehind(m, iv, p.start - 1);
      NothingHoldsBehind(m, iv, p.start);
      BackwardHoldsNothing(p);
      if p in m { EndsBeforePushed(m, iv, p); }
    } else if p in ivs {
      NothingStartsBefore(ivs, iv, p);
      if p in m && Holds(iv, p.day, p.start) {
        DayOfHeld(iv, p.day, p.start);
        EndsBeforePushed(m, iv, p);
      }
    }
  }

  lemma DayOfHeld(iv: Interval, day: Weekday, minute: int)
    requires Holds(iv, day, minute)
    ensures iv.day == day && iv.start <= minute <= iv.end
  {}

  lemma BackwardHoldsNothing(iv: Interval)
    requires Backward(iv)
    ensures forall day, minute :: !Holds(iv, day, minute)
  {}

  lemma CountReplaced(m: seq<Interval>, x: Interval, p: Interval)
    requires m != []
    ensures var back := m[|m| - 1];
            multiset(m[..|m| - 1] + [x])[p] == multiset(m)[p] - (if p == back then 1 else 0) + if p == x then 1 else 0
    ensures m[|m| - 1] in m && multiset(m)[m[|m| - 1]] > 0
  {
    var k := |m| - 1;
    assert m == m[..k] + [m[k]];
    CountOneMore(m[..k], m[k], p);
    CountOneMore(m[..k], x, p);
  }

  /** A backward interval that is absorbed changes nothing. */
  lemma BackwardIsAbsorbed(m: seq<Interval>, ivs: seq<Interval>, iv: Interval, p: Interval)
    requires BeforeStep(m, ivs, iv, p) && m != [] && Backward(iv)
    requires m[|m| - 1].day == iv.day && iv.start <= m[|m| - 1].end + 1
    ensures Kept(ivs + [iv], p) == Kept(ivs, p)
  {
    var back := m[|m| - 1];
    BackStartsBefore(m, ivs, iv);
    KeptOneMore(ivs, iv, p);
    BackwardHoldsNothing(iv);
    CountReplaced(m, back, p);
    if p == iv && back.start <= p.start - 1 {
      assert Holds(back, p.day, p.start - 1);
      assert AnyHolds(m, p.day, p.start - 1);
    } else if p == iv {
      var q :| q in ivs && q.day == back.day && back.start <= q.start && q.end == back.end;
      assert Leq(q, iv);
      assert back == p;
    }
  }

  lemma GrowKeeps(m: seq<Interval>, ivs: seq<Interval>, iv: Interval, grown: Interval, p: Interval)
    requires BeforeStep(m, ivs, iv, p) && m != [] && !Backward(iv)
    requires m[|m| - 1].day == iv.day && iv.start <= m[|m| - 1].end + 1
    requires grown.start == m[|m| - 1].start && grown.end >= iv.end
    ensures multiset(m[..|m| - 1] + [grown])[p] == Kept(ivs + [iv], p)
  {
    var back := m[|m| - 1];
    BackStartsBefore(m, ivs, iv);
    hide AnyHolds, Holds, WellMerged, Sorted, Leq;
    KeptOneMore(ivs, iv, p);
    CountReplaced(m, grown, p);
    CountOneMore(m, iv, p);
    CountOneMore(ivs, iv, p);
    if p in ivs {
      NothingStartsBefore(ivs, iv, p);
      if p == back {
        ProperHoldsStart(iv);
      } else if p in m && Holds(iv, p.day, p.start) {
        DayOfHeld(iv, p.day, p.start);
        EndsBeforeBack(m, ivs, p);
      }
    }
  }

  lemma ProperHoldsStart(iv: Interval)
    requires !Backward(iv)
    ensures Holds(iv, iv.day, iv.start)
  {}

  lemma EndsBeforeBack(m: seq<Interval>, ivs: seq<Interval>, q: Interval)
    requires WellMerged(m, ivs) && q in m && q != m[|m| - 1] && q.day == m[|m| - 1].day
    ensures q.end + 1 < m[|m| - 1].start
  {
    var i := Position(m, q);
  }

  lemma StepKeeps(m: seq<Interval>, ivs: seq<Interval>, iv: Interval, p: Interval)
    requires BeforeStep(m, ivs, iv, p)
    ensures multiset(MergeOne(m, iv))[p] == Kept(ivs + [iv], p)
  {
    hide BeforeStep, Kept;
    assert Backward(p) by { BackwardOf(m, ivs, iv, p); }
    if m == [] || m[|m| - 1].day != iv.day || iv.start > m[|m| - 1].end + 1 {
      PushKeeps(m, ivs, iv, p);
      assert [] + [iv] == [iv];
    } else {
      var back := m[|m| - 1];
      if Backward(iv) {
        BackwardIsAbsorbed(m, ivs, iv, p);
        BackwardOf(m, ivs, iv, p);
        assert m[..|m| - 1] + [back] == m;
      } else {
        GrowKeeps(m, ivs, iv, back.(end := if iv.end > back.end then iv.end else back.end), p);
      }
    }
  }

  lemma BackwardOf(m: seq<Interval>, ivs: seq<Interval>, iv: Interval, p: Interval)
    requires BeforeStep(m, ivs, iv, p)
    ensures Backward(p) && multiset(m)[p] == Kept(ivs, p)
  {}

  lemma {:induction false} MergeKeeps(ivs: seq<Interval>, p: Interval)
    requires Sorted(ivs) && Backward(p)
    ensures multiset(Merge(ivs))[p] == Kept(ivs, p)
  {
    hide Sorted, WellMerged, AnyHolds, Leq, MergeOne, Kept;
    if ivs == [] {
      NothingKept(p);
    } else {
      var n := |ivs| - 1;
      PrefixIsSorted(ivs);
      MergeKeeps(ivs[..n], p);
      MergeInvariant(ivs[..n]);
      forall minute ensures AnyHolds(Merge(ivs[..n]), p.day, minute) <==> AnyHolds(ivs[..n], p.day, minute) {
        MergeHolds(ivs[..n], p.day, minute);
      }
      StepKeeps(Merge(ivs[..n]), ivs[..n], ivs[n], p);
    }
  }

  lemma NothingKept(p: Interval)
    requires Backward(p)
    ensures Kept([], p) == 0
  {}

  lemma PrefixIsSorted(ivs: seq<Interval>)
    requires Sorted(ivs) && ivs != []
    ensures var n := |ivs| - 1;
            Sorted(ivs[..n]) && (forall q :: q in ivs[..n] ==> Leq(q, ivs[n])) && ivs == ivs[..n] + [ivs[n]]
  {
    var n := |ivs| - 1;
    forall q | q in ivs[..n] ensures Leq(q, ivs[n]) { var i :| 0 <= i < n && ivs[i] == q; }
  }

  // Ranges

  /** How many copies of an inverted range normalization leaves, by the activity of the minutes around its start. */
  function KeptRanges(rs: seq<WeeklyRange>, r: WeeklyRange): nat
    requires Inverted(r)
  {
    var s, e := MinuteOfDay(r.startTime), MinuteOfDay(r.endTime);
    if Active(rs, r.startDay, s - 1) then 0
    else if e == s - 1 then if r in rs && !Active(rs, r.startDay, s) then 1 else 0
    else multiset(rs)[r]
  }

  function IntervalOf(r: WeeklyRange): Interval {
    Interval(r.startDay, MinuteOfDay(r.startTime), MinuteOfDay(r.endTime))
  }

  lemma RangeOfInterval(r: WeeklyRange)
    requires r.startDay == r.endDay
    ensures DayRange(IntervalOf(r)) == r
  {}

  lemma IntervalOfRange(iv: Interval)
    ensures IntervalOf(DayRange(iv)) == iv && (Inverted(DayRange(iv)) <==> Backward(iv))
  {}

  lemma {:induction false} DaysUpToForward(cur: Weekday, ed: Weekday, em: DayMinute, p: Interval)
    requires Backward(p)
    ensures p !in DaysUpTo(cur, ed, em)
    decreases DaysAfter(cur, ed)
  {
    if cur != ed {
      NextDayIsCloser(cur, ed);
      DaysUpToForward(NextDay(cur), ed, em, p);
    }
  }

  lemma CountInExpansion(x: WeeklyRange, r: WeeklyRange)
    requires Inverted(r)
    ensures multiset(Expansion(x))[IntervalOf(r)] == if x == r then 1 else 0
  {
    var p := IntervalOf(r);
    RangeOfInterval(r);
    if x.startDay == x.endDay {
      RangeOfInterval(x);
      assert Expansion(x) == [IntervalOf(x)];
    } else {
      DaysUpToForward(NextDay(x.startDay), x.endDay, MinuteOfDay(x.endTime), p);
      assert p !in Expansion(x);
    }
  }

  lemma {:induction false} CountExpanded(rs: seq<WeeklyRange>, r: WeeklyRange)
    requires Inverted(r)
    ensures multiset(Expanded(rs))[IntervalOf(r)] == multiset(rs)[r]
  {
    hide Inverted, Expansion;
    if rs != [] {
      var n := |rs| - 1;
      CountExpanded(rs[..n], r);
      CountInExpansion(rs[n], r);
      assert rs == rs[..n] + [rs[n]];
    }
  }

  lemma {:induction false} CountDayRanges(ivs: seq<Interval>, iv: Interval)
    ensures multiset(DayRanges(ivs))[DayRange(iv)] == multiset(ivs)[iv]
  {
    hide DayRange;
    if ivs != [] {
      var n := |ivs| - 1;
      CountDayRanges(ivs[..n], iv);
      IntervalOfRange(iv);
      IntervalOfRange(ivs[n]);
      assert ivs == ivs[..n] + [ivs[n]];
    }
  }

  /** How often an inverted range is in the normalized list. */
  lemma InvertedRangesKept(rs: seq<WeeklyRange>, r: WeeklyRange)
    requires Inverted(r)
    ensures multiset(Normalized(rs))[r] == KeptRanges(rs, r)
  {
    hide Merge, Sort, DayRanges, Expanded, Sorted;
    var ivs, p := Sort(Expanded(rs)), IntervalOf(r);
    RangeOfInterval(r);
    CountDayRanges(Merge(ivs), p);
    MergeKeeps(ivs, p);
    CountExpanded(rs, r);
    assert p in ivs <==> multiset(ivs)[p] > 0;
    assert r in rs <==> multiset(rs)[r] > 0;
    SortedAnswers(rs, p.day, p.start - 1);
    SortedAnswers(rs, p.day, p.start);
  }

  lemma SortedAnswers(rs: seq<WeeklyRange>, day: Weekday, minute: DayMinute)
    ensures AnyHolds(Sort(Expanded(rs)), day, minute) <==> Active(rs, day, minute)
  {
    hide Sort, Expanded, Active;
    var ivs := Expanded(rs);
    ExpandedHolds(rs, day, minute);
    assert forall iv :: iv in ivs <==> iv in multiset(ivs);
    assert forall iv :: iv in Sort(ivs) <==> iv in multiset(Sort(ivs));
  }

  // The two parts of a normalized list determine it

  function Forward(ivs: seq<Interval>): seq<Interval> {
    if ivs == [] then []
    else WithForward(Forward(ivs[..|ivs| - 1]), ivs[|ivs| - 1])
  }

  function WithForward(f: seq<Interval>, iv: Interval): seq<Interval> {
    if Backward(iv) then f else f + [iv]
  }

  lemma {:induction false} CountForward(ivs: seq<Interval>, p: Interval)
    ensures multiset(Forward(ivs))[p] == if Backward(p) then 0 else multiset(ivs)[p]
    ensures p in Forward(ivs) <==> p in ivs && !Backward(p)
  {
    if ivs != [] {
      var n := |ivs| - 1;
      CountForward(ivs[..n], p);
      CountOneMore(ivs[..n], ivs[n], p);
      CountOneMore(Forward(ivs[..n]), ivs[n], p);
      assert ivs == ivs[..n] + [ivs[n]];
    }
  }

  lemma {:induction false} ForwardIsNormalForm(ivs: seq<Interval>)
    requires Sorted(ivs) && Separated(ivs)
    ensures NormalForm(Forward(ivs))
  {
    hide Leq, Sorted, Separated, Proper;
    if ivs == [] {
      NothingIsNormal();
    } else {
      var n := |ivs| - 1;
      PrefixIsSorted(ivs);
      PrefixIsSeparated(ivs);
      ForwardIsNormalForm(ivs[..n]);
      var f := Forward(ivs[..n]);
      forall i | 0 <= i < |f|
        ensures Leq(f[i], ivs[n]) && (f[i].day == ivs[n].day ==> f[i].end + 1 < ivs[n].start)
      {
        CountForward(ivs[..n], f[i]);
        if f[i].day == ivs[n].day { EndsBeforePushed(ivs[..n], ivs[n], f[i]); }
      }
      SortedAppended(f, ivs[n]);
      SeparatedAppended(f, ivs[n]);
      ProperAppended(f, ivs[n]);
    }
  }

  lemma NothingIsNormal()
    ensures NormalForm([])
  {}

  lemma ProperAppended(f: seq<Interval>, iv: Interval)
    requires Proper(f)
    ensures Proper(WithForward(f, iv))
  {}

  lemma PrefixIsSeparated(ivs: seq<Interval>)
    requires Separated(ivs) && ivs != []
    ensures Separated(ivs[..|ivs| - 1]) && Separated(ivs[..|ivs| - 1] + [ivs[|ivs| - 1]])
  {
    assert ivs == ivs[..|ivs| - 1] + [ivs[|ivs| - 1]];
  }

  lemma ForwardAnswers(ivs: seq<Interval>, day: Weekday, minute: int)
    ensures AnyHolds(Forward(ivs), day, minute) <==> AnyHolds(ivs, day, minute)
  {
    if iv :| iv in ivs && Holds(iv, day, minute) { CountForward(ivs, iv); }
    if iv :| iv in Forward(ivs) && Holds(iv, day, minute) { CountForward(ivs, iv); }
  }

  lemma SamePartsSameList(a: seq<Interval>, b: seq<Interval>)
    requires Sorted(a) && Separated(a) && Sorted(b) && Separated(b) && SameAnswers(a, b)
    requires forall p :: Backward(p) ==> multiset(a)[p] == multiset(b)[p]
    ensures a == b
  {
    hide Sorted, Separated, AnyHolds, NormalForm, Forward;
    ForwardIsNormalForm(a);
    ForwardIsNormalForm(b);
    forall day: Weekday, minute: DayMinute
      ensures AnyHolds(Forward(a), day, minute) <==> AnyHolds(Forward(b), day, minute)
    {
      ForwardAnswers(a, day, minute);
      ForwardAnswers(b, day, minute);
    }
    NormalFormIsUnique(Forward(a), Forward(b));
    forall p: Interval
      ensures multiset(a)[p] == multiset(b)[p]
    {
      CountForward(a, p);
      CountForward(b, p);
    }
    SortedListIsUnique(a, b);
  }

  lemma SameKeptSameCount(a: seq<WeeklyRange>, b: seq<WeeklyRange>, p: Interval)
    requires forall r :: Inverted(r) ==> KeptRanges(a, r) == KeptRanges(b, r)
    requires Backward(p)
    ensures multiset(Merge(Sort(Expanded(a))))[p] == multiset(Merge(Sort(Expanded(b))))[p]
  {
    hide Merge, Sort, Expanded, DayRange, KeptRanges, Inverted, DayRanges;
    var r := DayRange(p);
    IntervalOfRange(p);
    InvertedRangesKept(a, r);
    InvertedRangesKept(b, r);
    CountDayRanges(Merge(Sort(Expanded(a))), p);
    CountDayRanges(Merge(Sort(Expanded(b))), p);
  }

  /** Two lists normalize alike exactly when they answer alike at every minute and the same inverted ranges are kept. */
  lemma NormalizesAlikeExactlyWhen(a: seq<WeeklyRange>, b: seq<WeeklyRange>)
    ensures Normalized(a) == Normalized(b) <==>
            && (forall day: Weekday, minute: DayMinute :: Active(a, day, minute) <==> Active(b, day, minute))
            && (forall r :: Inverted(r) ==> KeptRanges(a, r) == KeptRanges(b, r))
  {
    hide Active, KeptRanges, Inverted, Merge, Sort, Expanded, AnyHolds;
    var ma, mb := Merge(Sort(Expanded(a))), Merge(Sort(Expanded(b)));
    if Normalized(a) == Normalized(b) {
      forall day: Weekday, minute: DayMinute ensures Active(a, day, minute) <==> Active(b, day, minute) {
        NormalizationPreservesActivity(a, day, minute);
        NormalizationPreservesActivity(b, day, minute);
      }
      forall r | Inverted(r) ensures KeptRanges(a, r) == KeptRanges(b, r) {
        InvertedRangesKept(a, r);
        InvertedRangesKept(b, r);
      }
    } else if (forall day: Weekday, minute: DayMinute :: Active(a, day, minute) <==> Active(b, day, minute))
           && (forall r :: Inverted(r) ==> KeptRanges(a, r) == KeptRanges(b, r)) {
      MergeInvariant(Sort(Expanded(a)));
      MergeInvariant(Sort(Expanded(b)));
      forall day: Weekday, minute: DayMinute ensures AnyHolds(ma, day, minute) <==> AnyHolds(mb, day, minute) {
        MergedAnswers(a, day, minute);
        MergedAnswers(b, day, minute);
      }
      forall p | Backward(p) ensures multiset(ma)[p] == multiset(mb)[p] {
        SameKeptSameCount(a, b, p);
      }
      SamePartsSameList(ma, mb);
      assert false;
    }
  }

  /** Without inverted ranges, lists that answer alike normalize alike. */
  lemma NormalizationIsCanonical(a: seq<WeeklyRange>, b: seq<WeeklyRange>)
    requires forall r :: r in a || r in b ==> !Inverted(r)
    requires forall day: Weekday, minute: DayMinute :: Active(a, day, minute) <==> Active(b, day, minute)
    ensures Normalized(a) == Normalized(b)
  {
    hide Normalized, Inverted, Active;
    forall r | Inverted(r) ensures KeptRanges(a, r) == KeptRanges(b, r) {
      assert r !in multiset(a) && r !in multiset(b);
    }
    NormalizesAlikeExactlyWhen(a, b);
  }
}
