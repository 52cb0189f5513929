/** Rewriting weekly ranges as sorted, separated intervals within single days. */
module ScheduleNormalizer {
  import opened WeeklyTypes
  import opened Scheduler

  type DayMinute = m: int | 0 <= m < 1440

  datatype Interval = Interval(day: Weekday, start: DayMinute, end: DayMinute)

  predicate Holds(iv: Interval, day: Weekday, minute: int) {
    iv.day == day && iv.start <= minute <= iv.end
  }

  predicate AnyHolds(ivs: seq<Interval>, day: Weekday, minute: int) {
    exists iv :: iv in ivs && Holds(iv, day, minute)
  }

  // Expansion into days

  /** The intervals of the days from `cur` up to and including `ed`. */
  function DaysUpTo(cur: Weekday, ed: Weekday, em: DayMinute): (ivs: seq<Interval>)
    decreases DaysAfter(cur, ed)
  {
    if cur == ed then [Interval(ed, 0, em)]
    else
      NextDayIsCloser(cur, ed);
      [Interval(cur, 0, 1439)] + DaysUpTo(NextDay(cur), ed, em)
  }

  function NextDay(d: Weekday): Weekday {
    (d + 1) % 7
  }

  lemma NextDayIsCloser(cur: Weekday, ed: Weekday)
    requires cur != ed
    ensures DaysAfter(NextDay(cur), ed) == DaysAfter(cur, ed) - 1
  {
    DaysAfterIs(cur, ed);
    DaysAfterIs(NextDay(cur), ed);
    assert NextDay(cur) == if cur == 6 then 0 else cur + 1;
  }

  function Expansion(r: WeeklyRange): seq<Interval> {
    var sm, em := MinuteOfDay(r.startTime), MinuteOfDay(r.endTime);
    if r.startDay == r.endDay then [Interval(r.startDay, sm, em)]
    else [Interval(r.startDay, sm, 1439)] + DaysUpTo(NextDay(r.startDay), r.endDay, em)
  }

  method PushIntervals(r: WeeklyRange, before: seq<Interval>) returns (out: seq<Interval>)
    ensures out == before + Expansion(r)
  {
    var sd, ed := r.startDay, r.endDay;
    var sm, em := MinuteOfDay(r.startTime), MinuteOfDay(r.endTime);
    if sd == ed {
      return before + [Interval(sd, sm, em)];
    }
    out := before + [Interval(sd, sm, 1439)];
    var cur := NextDay(sd);
    while cur != ed
      invariant before + Expansion(r) == out + DaysUpTo(cur, ed, em)
      decreases DaysAfter(cur, ed)
    {
      ghost var rest := DaysUpTo(NextDay(cur), ed, em);
      assert out + ([Interval(cur, 0, 1439)] + rest) == out + [Interval(cur, 0, 1439)] + rest;
      out := out + [Interval(cur, 0, 1439)];
      NextDayIsCloser(cur, ed);
      cur := NextDay(cur);
    }
    out := out + [Interval(ed, 0, em)];
  }

  lemma {:induction false} DaysUpToHolds(cur: Weekday, ed: Weekday, em: DayMinute, day: Weekday, minute: DayMinute)
    ensures AnyHolds(DaysUpTo(cur, ed, em), day, minute) <==>
            DaysAfter(cur, day) <= DaysAfter(cur, ed) && (day == ed ==> minute <= em)
    decreases DaysAfter(cur, ed)
  {
    if cur == ed {
      assert DaysUpTo(cur, ed, em) == [Interval(ed, 0, em)];
      assert Interval(ed, 0, em) in DaysUpTo(cur, ed, em);
      assert DaysAfter(cur, day) == 0 <==> day == cur;
    } else {
      NextDayIsCloser(cur, ed);
      DaysUpToHolds(NextDay(cur), ed, em, day, minute);
      AnyHoldsConcat([Interval(cur, 0, 1439)], DaysUpTo(NextDay(cur), ed, em), day, minute);
      assert Interval(cur, 0, 1439) in [Interval(cur, 0, 1439)];
      OneDayLater(cur, ed, day);
    }
  }

  lemma OneDayLater(cur: Weekday, ed: Weekday, day: Weekday)
    requires cur != ed
    ensures DaysAfter(cur, day) <= DaysAfter(cur, ed) <==>
            day == cur || DaysAfter(NextDay(cur), day) <= DaysAfter(NextDay(cur), ed)
  {
    NextDayIsCloser(cur, ed);
    if day != cur { NextDayIsCloser(cur, day); }
    DaysAfterIs(cur, cur);
    DaysAfterIs(cur, ed);
  }

  lemma AnyHoldsConcat(a: seq<Interval>, b: seq<Interval>, day: Weekday, minute: int)
    ensures AnyHolds(a + b, day, minute) <==> AnyHolds(a, day, minute) || AnyHolds(b, day, minute)
  {
    if iv :| iv in a && Holds(iv, day, minute) { assert iv in a + b; }
    if iv :| iv in b && Holds(iv, day, minute) { assert iv in a + b; }
  }

  lemma ExpansionHolds(r: WeeklyRange, day: Weekday, minute: DayMinute)
    ensures AnyHolds(Expansion(r), day, minute) <==> ActiveIn(r, day, minute)
  {
    if r.startDay == r.endDay {
      var iv := Interval(r.startDay, MinuteOfDay(r.startTime), MinuteOfDay(r.endTime));
      assert Expansion(r) == [iv] && iv in [iv];
      assert DaysAfter(r.startDay, day) == 0 <==> day == r.startDay;
    } else {
      ExpansionOverDaysHolds(r, day, minute);
    }
  }

  lemma ExpansionOverDaysHolds(r: WeeklyRange, day: Weekday, minute: DayMinute)
    requires r.startDay != r.endDay
    ensures AnyHolds(Expansion(r), day, minute) <==> ActiveIn(r, day, minute)
  {
    var first := Interval(r.startDay, MinuteOfDay(r.startTime), 1439);
    var rest := DaysUpTo(NextDay(r.startDay), r.endDay, MinuteOfDay(r.endTime));
    assert Expansion(r) == [first] + rest;
    AnyHoldsConcat([first], rest, day, minute);
    assert AnyHolds([first], day, minute) <==> Holds(first, day, minute) by { assert first in [first]; }
    DaysUpToHolds(NextDay(r.startDay), r.endDay, MinuteOfDay(r.endTime), day, minute);
    OneDayLater(r.startDay, r.endDay, day);
    LastDayOfTheExpansion(r.startDay, r.endDay);
  }

  lemma LastDayOfTheExpansion(sd: Weekday, ed: Weekday)
    requires sd != ed
    ensures DaysAfter(NextDay(sd), sd) > DaysAfter(NextDay(sd), ed)
    ensures DaysAfter(sd, sd) <= DaysAfter(sd, ed)
  {
    DaysAfterIs(sd, sd);
    DaysAfterIs(sd, ed);
    DaysAfterIs(NextDay(sd), sd);
    DaysAfterIs(NextDay(sd), ed);
    assert NextDay(sd) == if sd == 6 then 0 else sd + 1;
  }

  function Expanded(rs: seq<WeeklyRange>): seq<Interval> {
    if rs == [] then [] else Expanded(rs[..|rs| - 1]) + Expansion(rs[|rs| - 1])
  }

  lemma {:induction false} ExpandedHolds(rs: seq<WeeklyRange>, day: Weekday, minute: DayMinute)
    ensures AnyHolds(Expanded(rs), day, minute) <==> Active(rs, day, minute)
  {
    if rs != [] {
      var n := |rs| - 1;
      ExpandedHolds(rs[..n], day, minute);
      ExpansionHolds(rs[n], day, minute);
      AnyHoldsConcat(Expanded(rs[..n]), Expansion(rs[n]), day, minute);
      assert rs == rs[..n] + [rs[n]];
      if r :| r in rs && ActiveIn(r, day, minute) { assert r in rs[..n] || r == rs[n]; }
    }
  }

  // Sorting

  /** The order the source sorts by: day, then start, then end. */
  predicate Leq(a: Interval, b: Interval) {
    || a.day < b.day
    || (a.day == b.day && a.start < b.start)
    || (a.day == b.day && a.start == b.start && a.end <= b.end)
  }

  lemma LeqIsTransitive(a: Interval, b: Interval, c: Interval)
    requires Leq(a, b) && Leq(b, c)
    ensures Leq(a, c)
  {}

  predicate Sorted(ivs: seq<Interval>) {
    forall i, j :: 0 <= i < j < |ivs| ==> Leq(ivs[i], ivs[j])
  }

  function Insert(iv: Interval, ivs: seq<Interval>): (out: seq<Interval>)
    ensures multiset(out) == multiset(ivs) + multiset{iv}
  {
    if ivs == [] || Leq(iv, ivs[0]) then [iv] + ivs
    else
      assert ivs == [ivs[0]] + ivs[1..];
      [ivs[0]] + Insert(iv, ivs[1..])
  }

  lemma SortedInFront(x: Interval, ivs: seq<Interval>)
    requires Sorted(ivs) && forall y :: y in ivs ==> Leq(x, y)
    ensures Sorted([x] + ivs)
  {
    hide Leq;
  }

  lemma {:induction false} InsertKeepsSorted(iv: Interval, ivs: seq<Interval>)
    requires Sorted(ivs)
    ensures Sorted(Insert(iv, ivs))
  {
    if ivs != [] && Leq(iv, ivs[0]) {
      forall x | x in ivs ensures Leq(iv, x) { LeqIsTransitive(iv, ivs[0], x); }
      SortedInFront(iv, ivs);
    } else if ivs != [] {
      var rest := Insert(iv, ivs[1..]);
      InsertKeepsSorted(iv, ivs[1..]);
      forall x | x in rest ensures Leq(ivs[0], x) {
        assert x in multiset(ivs[1..]) + multiset{iv};
      }
      SortedInFront(ivs[0], rest);
    }
  }

  function Sort(ivs: seq<Interval>): (out: seq<Interval>)
    ensures multiset(out) == multiset(ivs)
    ensures Sorted(out)
  {
    if ivs == [] then []
    else
      assert ivs == [ivs[0]] + ivs[1..];
      InsertKeepsSorted(ivs[0], Sort(ivs[1..]));
      Insert(ivs[0], Sort(ivs[1..]))
  }

  /** Any sorting of the same intervals gives the same list, so the choice of algorithm is free. */
  lemma {:induction false} SortedListIsUnique(a: seq<Interval>, b: seq<Interval>)
    requires Sorted(a) && Sorted(b) && multiset(a) == multiset(b)
    ensures a == b
  {
    assert |a| == |multiset(a)| == |multiset(b)| == |b|;
    if a != [] {
      HeadIsLeast(a, b[0]);
      HeadIsLeast(b, a[0]);
      LeqBothWays(a[0], b[0]);
      TailIsSorted(a);
      TailIsSorted(b);
      hide Sorted;
      SortedListIsUnique(a[1..], b[1..]);
    }
  }

  lemma HeadIsLeast(a: seq<Interval>, iv: Interval)
    requires Sorted(a) && a != [] && iv in multiset(a)
    ensures Leq(a[0], iv)
  {}

  lemma LeqBothWays(p: Interval, q: Interval)
    requires Leq(p, q) && Leq(q, p)
    ensures p == q
  {}

  lemma TailIsSorted(a: seq<Interval>)
    requires Sorted(a) && a != []
    ensures Sorted(a[1..]) && a == [a[0]] + a[1..] && multiset(a[1..]) == multiset(a) - multiset{a[0]}
  {
    assert a == [a[0]] + a[1..];
  }

  // Merging

  function MergeOne(merged: seq<Interval>, iv: Interval): seq<Interval> {
    if merged == [] then [iv]
    else
      var back := merged[|merged| - 1];
      if back.day != iv.day || iv.start > back.end + 1 then merged + [iv]
      else merged[..|merged| - 1] + [back.(end := if iv.end > back.end then iv.end else back.end)]
  }

  function Merge(ivs: seq<Interval>): seq<Interval> {
    if ivs == [] then [] else MergeOne(Merge(ivs[..|ivs| - 1]), ivs[|ivs| - 1])
  }

  /** Consecutive intervals of a day leave at least one minute between them. */
  predicate Separated(ivs: seq<Interval>) {
    forall i, j :: 0 <= i < j < |ivs| && ivs[i].day == ivs[j].day ==> ivs[i].end + 1 < ivs[j].start
  }

  /** The last merged interval starts where some input starts and ends where some input ends. */
  predicate BackComesFrom(merged: seq<Interval>, ivs: seq<Interval>)
    requires merged != []
  {
    var back := merged[|merged| - 1];
    && (exists p :: p in ivs && p.day == back.day && p.start == back.start)
    && (exists p :: p in ivs && p.day == back.day && back.start <= p.start && p.end == back.end)
  }

  /** What merging sorted intervals keeps. */
  predicate WellMerged(m: seq<Interval>, ivs: seq<Interval>) {
    && Sorted(m) && Separated(m)
    && (m == [] <==> ivs == [])
    && (m != [] ==> BackComesFrom(m, ivs))
  }

  lemma {:induction false} MergeInvariant(ivs: seq<Interval>)
    requires Sorted(ivs)
    ensures WellMerged(Merge(ivs), ivs)
  {
    if ivs != [] {
      var n := |ivs| - 1;
      MergeInvariant(ivs[..n]);
      forall p | p in ivs[..n] ensures Leq(p, ivs[n]) { var i :| 0 <= i < n && ivs[i] == p; }
      MergeOneInvariant(Merge(ivs[..n]), ivs[..n], ivs[n]);
      assert ivs == ivs[..n] + [ivs[n]];
    }
  }

  lemma SortedAppended(m: seq<Interval>, x: Interval)
    requires Sorted(m) && forall i :: 0 <= i < |m| ==> Leq(m[i], x)
    ensures Sorted(m + [x])
  {
    hide Leq;
  }

  lemma SeparatedAppended(m: seq<Interval>, x: Interval)
    requires Separated(m) && forall i :: 0 <= i < |m| && m[i].day == x.day ==> m[i].end + 1 < x.start
    ensures Separated(m + [x])
  {}

  /** The last merged interval starts no later than an input that comes after all others. */
  lemma BackStartsBefore(m: seq<Interval>, ivs: seq<Interval>, iv: Interval)
    requires m != [] && BackComesFrom(m, ivs)
    requires forall p :: p in ivs ==> Leq(p, iv)
    ensures var back := m[|m| - 1];
            back.day <= iv.day && (back.day == iv.day ==> back.start <= iv.start)
  {
    var back := m[|m| - 1];
    var p :| p in ivs && p.day == back.day && p.start == back.start;
    assert Leq(p, iv);
  }

  /** An input too far from the last merged interval comes after it in the sort order. */
  lemma BackIsBefore(m: seq<Interval>, ivs: seq<Interval>, iv: Interval)
    requires m != [] && BackComesFrom(m, ivs)
    requires forall p :: p in ivs ==> Leq(p, iv)
    requires m[|m| - 1].day != iv.day || iv.start > m[|m| - 1].end + 1
    ensures Leq(m[|m| - 1], iv)
  {
    BackStartsBefore(m, ivs, iv);
    var back := m[|m| - 1];
    var p :| p in ivs && p.day == back.day && back.start <= p.start && p.end == back.end;
    assert Leq(p, iv);
  }

  lemma PushedIsWellMerged(m: seq<Interval>, ivs: seq<Interval>, iv: Interval)
    requires WellMerged(m, ivs)
    requires forall p :: p in ivs ==> Leq(p, iv)
    requires m != [] ==> m[|m| - 1].day != iv.day || iv.start > m[|m| - 1].end + 1
    ensures Sorted(m + [iv]) && Separated(m + [iv])
  {
    if m != [] {
      BackStartsBefore(m, ivs, iv);
      BackIsBefore(m, ivs, iv);
      var back := m[|m| - 1];
      forall i | 0 <= i < |m|
        ensures Leq(m[i], iv) && (m[i].day == iv.day ==> m[i].end + 1 < iv.start)
      {
        if i < |m| - 1 {
          assert Leq(m[i], back);
          LeqIsTransitive(m[i], back, iv);
        }
      }
    }
    SortedAppended(m, iv);
    SeparatedAppended(m, iv);
  }

  lemma GrownIsWellMerged(m: seq<Interval>, ivs: seq<Interval>, grown: Interval)
    requires WellMerged(m, ivs) && m != []
    requires var back := m[|m| - 1]; grown.day == back.day && grown.start == back.start && grown.end >= back.end
    ensures Sorted(m[..|m| - 1] + [grown]) && Separated(m[..|m| - 1] + [grown])
  {
    var k := |m| - 1;
    forall i | 0 <= i < k
      ensures Leq(m[i], grown) && (m[i].day == grown.day ==> m[i].end + 1 < grown.start)
    {
      assert Leq(m[i], m[k]);
      LeqIsTransitive(m[i], m[k], grown);
    }
    SortedAppended(m[..k], grown);
    SeparatedAppended(m[..k], grown);
  }

  lemma GrownComesFrom(m: seq<Interval>, ivs: seq<Interval>, iv: Interval, grown: Interval)
    requires m != [] && BackComesFrom(m, ivs) && m[|m| - 1].start <= iv.start && m[|m| - 1].day == iv.day
    requires grown == m[|m| - 1].(end := if iv.end > m[|m| - 1].end then iv.end else m[|m| - 1].end)
    ensures BackComesFrom(m[..|m| - 1] + [grown], ivs + [iv])
  {
    var all := ivs + [iv];
    var back := m[|m| - 1];
    var p :| p in ivs && p.day == back.day && p.start == back.start;
    var q :| q in ivs && q.day == back.day && back.start <= q.start && q.end == back.end;
    assert p in all && q in all && iv in all;
  }

  lemma MergeOneInvariant(m: seq<Interval>, ivs: seq<Interval>, iv: Interval)
    requires WellMerged(m, ivs)
    requires forall p :: p in ivs ==> Leq(p, iv)
    ensures WellMerged(MergeOne(m, iv), ivs + [iv])
  {
    hide Sorted, Separated, Leq;
    assert iv in ivs + [iv];
    if m == [] || m[|m| - 1].day != iv.day || iv.start > m[|m| - 1].end + 1 {
      PushedIsWellMerged(m, ivs, iv);
      assert m + [iv] == MergeOne(m, iv) by { assert [] + [iv] == [iv]; }
    } else {
      var back := m[|m| - 1];
      var grown := back.(end := if iv.end > back.end then iv.end else back.end);
      BackStartsBefore(m, ivs, iv);
      GrownIsWellMerged(m, ivs, grown);
      GrownComesFrom(m, ivs, iv, grown);
    }
  }

  lemma MergeOneHolds(m: seq<Interval>, iv: Interval, day: Weekday, minute: int)
    requires m != [] && m[|m| - 1].day == iv.day ==> m[|m| - 1].start <= iv.start
    ensures AnyHolds(MergeOne(m, iv), day, minute) <==> AnyHolds(m, day, minute) || Holds(iv, day, minute)
  {
    AnyHoldsConcat(m, [iv], day, minute);
    assert iv in [iv];
    if m != [] {
      var k := |m| - 1;
      var back := m[k];
      var grown := back.(end := if iv.end > back.end then iv.end else back.end);
      assert m == m[..k] + [back] && back in [back] && grown in [grown];
      AnyHoldsConcat(m[..k], [back], day, minute);
      AnyHoldsConcat(m[..k], [grown], day, minute);
    }
  }

  lemma {:induction false} MergeHolds(ivs: seq<Interval>, day: Weekday, minute: int)
    requires Sorted(ivs)
    ensures AnyHolds(Merge(ivs), day, minute) <==> AnyHolds(ivs, day, minute)
  {
    if ivs != [] {
      var n := |ivs| - 1;
      MergeHolds(ivs[..n], day, minute);
      MergedStartsBefore(ivs, n);
      MergeOneHolds(Merge(ivs[..n]), ivs[n], day, minute);
      AnyHoldsConcat(ivs[..n], [ivs[n]], day, minute);
      assert ivs == ivs[..n] + [ivs[n]];
      assert AnyHolds([ivs[n]], day, minute) <==> Holds(ivs[n], day, minute) by { assert ivs[n] in [ivs[n]]; }
    }
  }

  lemma MergedStartsBefore(ivs: seq<Interval>, n: int)
    requires Sorted(ivs) && 0 <= n < |ivs|
    ensures var m := Merge(ivs[..n]);
            m != [] && m[|m| - 1].day == ivs[n].day ==> m[|m| - 1].start <= ivs[n].start
  {
    MergeInvariant(ivs[..n]);
    var m := Merge(ivs[..n]);
    if m != [] {
      var p :| p in ivs[..n] && p.day == m[|m| - 1].day && p.start == m[|m| - 1].start;
      var i :| 0 <= i < n && ivs[i] == p;
    }
  }

  lemma {:induction false} MergeOfSeparated(ivs: seq<Interval>)
    requires Separated(ivs)
    ensures Merge(ivs) == ivs
  {
    if ivs != [] {
      MergeOfSeparated(ivs[..|ivs| - 1]);
      assert ivs == ivs[..|ivs| - 1] + [ivs[|ivs| - 1]];
    }
  }

  // Normalization

  function DayRange(iv: Interval): WeeklyRange {
    WeeklyRange(iv.day, TimeHm(iv.start / 60, iv.start % 60), iv.day, TimeHm(iv.end / 60, iv.end % 60))
  }

  function DayRanges(ivs: seq<Interval>): (rs: seq<WeeklyRange>)
    ensures |rs| == |ivs|
  {
    if ivs == [] then [] else DayRanges(ivs[..|ivs| - 1]) + [DayRange(ivs[|ivs| - 1])]
  }

  lemma {:induction false} DayRangesAt(ivs: seq<Interval>, i: int)
    requires 0 <= i < |ivs|
    ensures DayRanges(ivs)[i] == DayRange(ivs[i])
  {
    if i < |ivs| - 1 { DayRangesAt(ivs[..|ivs| - 1], i); }
  }

  function Normalized(rs: seq<WeeklyRange>): seq<WeeklyRange> {
    DayRanges(Merge(Sort(Expanded(rs))))
  }

  method MergeIntervals(intervals: seq<Interval>) returns (merged: seq<Interval>)
    ensures merged == Merge(intervals)
  {
    merged := [];
    for i := 0 to |intervals|
      invariant merged == Merge(intervals[..i])
    {
      assert intervals[..i + 1][..i] == intervals[..i];
      var iv := intervals[i];
      if merged == [] || merged[|merged| - 1].day != iv.day || iv.start > merged[|merged| - 1].end + 1 {
        merged := merged + [iv];
      } else {
        var back := merged[|merged| - 1];
        merged := merged[|merged| - 1 := back.(end := if iv.end > back.end then iv.end else back.end)];
      }
    }
    assert intervals[..|intervals|] == intervals;
  }

  method ExpandRanges(input: seq<WeeklyRange>) returns (intervals: seq<Interval>)
    ensures intervals == Expanded(input)
  {
    intervals := [];
    for i := 0 to |input|
      invariant intervals == Expanded(input[..i])
    {
      assert input[..i + 1][..i] == input[..i];
      intervals := PushIntervals(input[i], intervals);
    }
    assert input[..|input|] == input;
  }

  method Normalize(input: seq<WeeklyRange>) returns (out: seq<WeeklyRange>)
    ensures out == Normalized(input)
  {
    hide Expanded, Sort, Merge, DayRange;
    var intervals := ExpandRanges(input);
    var merged := MergeIntervals(Sort(intervals));
    out := [];
    for i := 0 to |merged|
      invariant out == DayRanges(merged[..i])
    {
      assert merged[..i + 1][..i] == merged[..i];
      out := out + [DayRange(merged[i])];
    }
    assert merged[..|merged|] == merged;
  }

  lemma DayRangeExpansion(iv: Interval)
    ensures Expansion(DayRange(iv)) == [iv]
  {}

  lemma {:induction false} DayRangesExpanded(ivs: seq<Interval>)
    ensures Expanded(DayRanges(ivs)) == ivs
  {
    hide Expansion, DayRange;
    if ivs != [] {
      var n := |ivs| - 1;
      DayRangesExpanded(ivs[..n]);
      DayRangeExpansion(ivs[n]);
      assert DayRanges(ivs)[..n] == DayRanges(ivs[..n]);
      assert ivs == ivs[..n] + [ivs[n]];
    }
  }

  lemma MergedAnswers(rs: seq<WeeklyRange>, day: Weekday, minute: DayMinute)
    ensures AnyHolds(Merge(Sort(Expanded(rs))), day, minute) <==> Active(rs, day, minute)
  {
    var ivs := Expanded(rs);
    ExpandedHolds(rs, day, minute);
    assert forall iv :: iv in ivs <==> iv in multiset(ivs);
    assert forall iv :: iv in Sort(ivs) <==> iv in multiset(Sort(ivs));
    MergeHolds(Sort(ivs), day, minute);
  }

  /** Normalization changes no answer, at any minute, for any list: wrapping ranges,
      overlapping ranges and inverted ranges included. */
  lemma NormalizationPreservesActivity(rs: seq<WeeklyRange>, day: Weekday, minute: DayMinute)
    ensures Active(Normalized(rs), day, minute) <==> Active(rs, day, minute)
  {
    MergedAnswers(rs, day, minute);
    ExpandedHolds(Normalized(rs), day, minute);
    DayRangesExpanded(Merge(Sort(Expanded(rs))));
  }

  /** The output stays within days, is ordered by day and start, and leaves a gap of at
      least one minute between any two ranges of a day. */
  lemma NormalizedIsSortedAndSeparated(rs: seq<WeeklyRange>, i: int, j: int)
    requires 0 <= i < j < |Normalized(rs)|
    ensures var a, b := Normalized(rs)[i], Normalized(rs)[j];
            && a.startDay == a.endDay <= b.startDay == b.endDay
            && (a.startDay == b.startDay ==>
                  && MinuteOfDay(a.startTime) <= MinuteOfDay(b.startTime)
                  && MinuteOfDay(a.endTime) + 1 < MinuteOfDay(b.startTime))
  {
    MergeInvariant(Sort(Expanded(rs)));
    var m := Merge(Sort(Expanded(rs)));
    assert Leq(m[i], m[j]);
    DayRangesAt(m, i);
    DayRangesAt(m, j);
  }

  lemma NormalizationIsIdempotent(rs: seq<WeeklyRange>)
    ensures Normalized(Normalized(rs)) == Normalized(rs)
  {
    var merged := Merge(Sort(Expanded(rs)));
    MergeInvariant(Sort(Expanded(rs)));
    DayRangesExpanded(merged);
    SortedListIsUnique(Sort(merged), merged);
    MergeOfSeparated(merged);
  }

  // Normal forms

  predicate Proper(ivs: seq<Interval>) {
    forall iv :: iv in ivs ==> iv.start <= iv.end
  }

  predicate NormalForm(ivs: seq<Interval>) {
    Sorted(ivs) && Separated(ivs) && Proper(ivs)
  }

  ghost predicate SameAnswers(a: seq<Interval>, b: seq<Interval>) {
    forall day: Weekday, minute: DayMinute :: AnyHolds(a, day, minute) <==> AnyHolds(b, day, minute)
  }

  /** The first interval of a normal form starts at the first minute that holds. */
  lemma HeadStartsFirst(a: seq<Interval>, b: seq<Interval>)
    requires NormalForm(a) && NormalForm(b) && SameAnswers(a, b) && a != []
    ensures b != [] && (b[0].day < a[0].day || (b[0].day == a[0].day && b[0].start <= a[0].start))
  {
    assert Holds(a[0], a[0].day, a[0].start) && a[0] in a;
    assert AnyHolds(b, a[0].day, a[0].start);
    var iv :| iv in b && Holds(iv, a[0].day, a[0].start);
    var i :| 0 <= i < |b| && b[i] == iv;
    assert i == 0 || Leq(b[0], b[i]);
  }

  lemma AfterTheHead(a: seq<Interval>)
    requires NormalForm(a) && a != [] && a[0].end < 1439
    ensures !AnyHolds(a, a[0].day, a[0].end + 1)
  {
    forall iv | iv in a ensures !Holds(iv, a[0].day, a[0].end + 1) {
      var i :| 0 <= i < |a| && a[i] == iv;
      assert i == 0 || Leq(a[0], a[i]);
    }
  }

  lemma HeadEndsNoLater(a: seq<Interval>, b: seq<Interval>)
    requires NormalForm(a) && NormalForm(b) && SameAnswers(a, b) && a != [] && b != []
    requires a[0].day == b[0].day && a[0].start == b[0].start
    ensures b[0].end <= a[0].end
  {
    if a[0].end < b[0].end {
      assert Holds(b[0], a[0].day, a[0].end + 1) && b[0] in b;
      assert AnyHolds(a, a[0].day, a[0].end + 1);
      AfterTheHead(a);
    }
  }

  lemma TailAnswers(a: seq<Interval>, day: Weekday, minute: DayMinute)
    requires NormalForm(a) && a != []
    ensures AnyHolds(a[1..], day, minute) <==> AnyHolds(a, day, minute) && !Holds(a[0], day, minute)
  {
    assert a == [a[0]] + a[1..];
    if iv :| iv in a[1..] && Holds(iv, day, minute) {
      var i :| 0 < i < |a| && a[i] == iv;
      assert Leq(a[0], a[i]);
    }
  }

  lemma {:induction false} NormalFormIsUnique(a: seq<Interval>, b: seq<Interval>)
    requires NormalForm(a) && NormalForm(b) && SameAnswers(a, b)
    ensures a == b
  {
    if a != [] || b != [] {
      if a != [] { HeadStartsFirst(a, b); }
      HeadStartsFirst(b, a);
      HeadEndsNoLater(a, b);
      HeadEndsNoLater(b, a);
      assert a[0] == b[0];
      forall day: Weekday, minute: DayMinute
        ensures AnyHolds(a[1..], day, minute) <==> AnyHolds(b[1..], day, minute)
      {
        TailAnswers(a, day, minute);
        TailAnswers(b, day, minute);
      }
      NormalFormIsUnique(a[1..], b[1..]);
      assert a == [a[0]] + a[1..] && b == [b[0]] + b[1..];
    }
  }
}
