/** Inserting weekly ranges, which merge with what they overlap or border. */
module Scheduler {
  import opened WeeklyTypes

  // What one insertion does

  predicate AbsorbedCovers(rs: seq<WeeklyRange>, removed: seq<bool>, t: int)
    requires |removed| == |rs|
  {
    exists i :: 0 <= i < |rs| && removed[i] && RangeCovers(rs[i], t)
  }

  function Survivors(rs: seq<WeeklyRange>, removed: seq<bool>): seq<WeeklyRange>
    requires |removed| == |rs|
  {
    if rs == [] then []
    else
      var n := |rs| - 1;
      Survivors(rs[..n], removed[..n]) + if removed[n] then [] else [rs[n]]
  }

  /** `merged` covers `r` and the removed ranges and nothing else, touches no range
      that stays, and is Monday 00:00 to Sunday 23:59 as soon as it spans a week. */
  ghost predicate Absorbs(rs: seq<WeeklyRange>, removed: seq<bool>, r: WeeklyRange, merged: WeeklyRange)
    requires |removed| == |rs|
  {
    && (forall t :: RangeCovers(merged, t) <==> RangeCovers(r, t) || AbsorbedCovers(rs, removed, t))
    && (forall i :: 0 <= i < |rs| && !removed[i] ==> !Touching(merged, rs[i]))
    && (End(merged) - Start(merged) + 1 < 10080 || WholeWeek(merged))
  }

  /** The ranges that touch nothing new stay, in order; one merged range follows them. */
  ghost predicate AddStep(rs: seq<WeeklyRange>, r: WeeklyRange, rs': seq<WeeklyRange>) {
    exists removed: seq<bool>, merged: WeeklyRange ::
      && |removed| == |rs|
      && rs' == Survivors(rs, removed) + [merged]
      && Absorbs(rs, removed, r, merged)
  }

  // The linear picture: arcs as integer intervals, shifted by whole weeks

  /** Overlap or adjacency of two integer intervals. */
  predicate Near(s: int, e: int, es: int, ee: int) {
    es <= e + 1 && ee >= s - 1
  }

  predicate NearShifted(s: int, e: int, x: WeeklyRange, shift: int) {
    Near(s, e, AddWeeks(Start(x), shift), AddWeeks(End(x), shift))
  }

  function Min(a: int, b: int): int { if b < a then b else a }
  function Max(a: int, b: int): int { if a < b then b else a }

  /** The remainder of the source language, which has the sign of the dividend. */
  function TruncatedRemainder(a: int, b: int): int
    requires b > 0
  {
    if a >= 0 then a % b else -((-a) % b)
  }

  lemma ArcShift(s: int, e: int, t: int, k: int)
    ensures ArcCovers(AddWeeks(s, k), AddWeeks(e, k), t) == ArcCovers(s, e, t)
    ensures ArcCovers(s, e, AddWeeks(t, k)) == ArcCovers(s, e, t)
  {
    ResidueOfShift(t - s, -k);
    ResidueOfShift(t - s, k);
    assert t - AddWeeks(s, k) == AddWeeks(t - s, -k);
    assert AddWeeks(t, k) - s == AddWeeks(t - s, k);
  }

  lemma TouchingShift(s: int, e: int, s': int, e': int, k: int)
    ensures TouchingArcs(AddWeeks(s, k), AddWeeks(e, k), s', e') == TouchingArcs(s, e, s', e')
  {
    ArcShift(s, e + 1, s', k);
    ArcShift(s', e' + 1, s, k);
    assert AddWeeks(e, k) + 1 == AddWeeks(e + 1, k);
  }

  /** The hull of two intervals that overlap or are adjacent covers what either covers. */
  lemma HullIsUnion(s: int, e: int, es: int, ee: int, t: int)
    requires s <= e && es <= ee && Near(s, e, es, ee)
    ensures ArcCovers(Min(s, es), Max(e, ee), t) <==> ArcCovers(s, e, t) || ArcCovers(es, ee, t)
  {
    CoversMeansSomeShift(s, e, t);
    CoversMeansSomeShift(es, ee, t);
    CoversMeansSomeShift(Min(s, es), Max(e, ee), t);
    forall k: int
      ensures Min(s, es) <= AddWeeks(t, k) <= Max(e, ee) <==>
              s <= AddWeeks(t, k) <= e || es <= AddWeeks(t, k) <= ee
    {}
  }

  /** If some week shift of an arc comes near a grown interval, one of -1, 0, +1 does. */
  lemma ThreeShiftsSuffice(s: int, e: int, x: WeeklyRange, k: int)
    requires s < 10080 && 0 <= e && s <= e
    requires NearShifted(s, e, x, k)
    ensures NearShifted(s, e, x, -1) || NearShifted(s, e, x, 0) || NearShifted(s, e, x, 1)
  {
    hide Near, AddWeeks, Start, End;
    assert 0 <= Start(x) < 10080 && 0 <= End(x);
    NearByOneWeek(s, e, Start(x), End(x), k);
    if -2 < k < 2 {
      assert k == -1 || k == 0 || k == 1;
    }
  }

  lemma NearByOneWeek(s: int, e: int, es: int, ee: int, k: int)
    requires s < 10080 && 0 <= e && 0 <= es < 10080 && 0 <= ee
    requires Near(s, e, AddWeeks(es, k), AddWeeks(ee, k))
    ensures k >= 2 ==> Near(s, e, AddWeeks(es, 1), AddWeeks(ee, 1))
    ensures k <= -2 ==> Near(s, e, AddWeeks(es, -1), AddWeeks(ee, -1))
  {
    if k >= 2 {
      assert AddWeeks(es, k) >= AddWeeks(es, 1);
    } else if k <= -2 {
      assert AddWeeks(ee, k) <= AddWeeks(ee, -1);
    }
  }

  /** Touching on the circle is coming near in some week. */
  lemma TouchingMeansNearInSomeWeek(s: int, e: int, x: WeeklyRange)
    requires s <= e
    ensures TouchingArcs(s, e, Start(x), End(x)) <==> exists k :: NearShifted(s, e, x, k)
  {
    CoversMeansSomeShift(s, e + 1, Start(x));
    CoversMeansSomeShift(Start(x), End(x) + 1, s);
    if k :| NearShifted(s, e, x, k) {
      if s <= AddWeeks(Start(x), k) {
        assert s <= AddWeeks(Start(x), k) <= e + 1;
      } else {
        assert AddWeeks(s, -k) == s - k * 10080;
        assert Start(x) <= AddWeeks(s, -k) <= End(x) + 1;
      }
    }
    if ArcCovers(s, e + 1, Start(x)) {
      var k :| s <= AddWeeks(Start(x), k) <= e + 1;
      assert NearShifted(s, e, x, k);
    } else if ArcCovers(Start(x), End(x) + 1, s) {
      var k :| Start(x) <= AddWeeks(s, k) <= End(x) + 1;
      assert NearShifted(s, e, x, -k);
    }
  }

  lemma UntouchedAfterThreeShifts(s: int, e: int, x: WeeklyRange)
    requires s < 10080 && 0 <= e && s <= e
    requires !NearShifted(s, e, x, -1) && !NearShifted(s, e, x, 0) && !NearShifted(s, e, x, 1)
    ensures !TouchingArcs(s, e, Start(x), End(x))
  {
    TouchingMeansNearInSomeWeek(s, e, x);
    if k :| NearShifted(s, e, x, k) {
      ThreeShiftsSuffice(s, e, x, k);
    }
  }

  // The loops of one insertion

  /** The interval grown so far covers the new range and everything removed so far. */
  ghost predicate Progress(rs: seq<WeeklyRange>, r: WeeklyRange, removed: seq<bool>, s: int, e: int) {
    && |removed| == |rs|
    && s <= Start(r) && End(r) <= e
    && forall t :: ArcCovers(s, e, t) <==> RangeCovers(r, t) || AbsorbedCovers(rs, removed, t)
  }

  predicate NearNoShift(s: int, e: int, x: WeeklyRange) {
    !NearShifted(s, e, x, -1) && !NearShifted(s, e, x, 0) && !NearShifted(s, e, x, 1)
  }

  /** `shift` is the first of -1, 0, +1 that brings `x` near, and the new ends are those of the hull. */
  predicate HullWithFirstNearShift(s: int, e: int, x: WeeklyRange, shift: int, s': int, e': int) {
    && -1 <= shift <= 1
    && NearShifted(s, e, x, shift)
    && (forall k :: -1 <= k < shift ==> !NearShifted(s, e, x, k))
    && s' == Min(s, AddWeeks(Start(x), shift))
    && e' == Max(e, AddWeeks(End(x), shift))
  }

  method Absorb(s: int, e: int, x: WeeklyRange) returns (hit: bool, s': int, e': int)
    ensures hit <==> !NearNoShift(s, e, x)
    ensures hit ==> exists shift :: HullWithFirstNearShift(s, e, x, shift, s', e')
    ensures !hit ==> s' == s && e' == e
  {
    for shift := -1 to 2
      invariant forall k :: -1 <= k < shift ==> !NearShifted(s, e, x, k)
    {
      var es := AddWeeks(Start(x), shift);
      var ee := AddWeeks(End(x), shift);
      if es <= e + 1 && ee >= s - 1 {
        assert HullWithFirstNearShift(s, e, x, shift, Min(s, es), Max(e, ee));
        return true, Min(s, es), Max(e, ee);
      }
    }
    return false, s, e;
  }

  lemma ProgressStart(rs: seq<WeeklyRange>, r: WeeklyRange, removed: seq<bool>)
    requires |removed| == |rs| && forall i :: 0 <= i < |removed| ==> !removed[i]
    ensures Progress(rs, r, removed, Start(r), End(r))
  {}

  lemma ProgressAbsorb(rs: seq<WeeklyRange>, r: WeeklyRange, removed: seq<bool>, s: int, e: int,
                       i: int, shift: int, s': int, e': int)
    requires Progress(rs, r, removed, s, e) && 0 <= i < |rs| && s <= e
    requires HullWithFirstNearShift(s, e, rs[i], shift, s', e')
    ensures Progress(rs, r, removed[i := true], s', e')
  {
    var x := rs[i];
    forall t
      ensures ArcCovers(s', e', t) <==> RangeCovers(r, t) || AbsorbedCovers(rs, removed[i := true], t)
    {
      HullIsUnion(s, e, AddWeeks(Start(x), shift), AddWeeks(End(x), shift), t);
      ArcShift(Start(x), End(x), t, shift);
      AbsorbedByOneMore(rs, removed, i, t);
    }
  }

  lemma AbsorbedByOneMore(rs: seq<WeeklyRange>, removed: seq<bool>, i: int, t: int)
    requires |removed| == |rs| && 0 <= i < |rs|
    ensures AbsorbedCovers(rs, removed[i := true], t) <==> AbsorbedCovers(rs, removed, t) || RangeCovers(rs[i], t)
  {
    var now := removed[i := true];
    if AbsorbedCovers(rs, removed, t) {
      var j :| 0 <= j < |rs| && removed[j] && RangeCovers(rs[j], t);
      assert now[j];
    }
    if RangeCovers(rs[i], t) {
      assert now[i];
    }
  }

  /** `s` and `e` read modulo a week, as the range they denote. */
  ghost predicate Denotes(m: WeeklyRange, s: int, e: int) {
    || (e - s + 1 >= 10080 && WholeWeek(m))
    || (e - s + 1 < 10080 && Start(m) == Residue(s) && MinuteOfWeek(m.endDay, m.endTime) == Residue(e))
  }

  lemma DenotedRangeHasTheSameArc(m: WeeklyRange, s: int, e: int, k: int)
    requires s <= e && e - s + 1 < 10080 && Denotes(m, s, e) && k == -(s / 10080)
    ensures Start(m) == AddWeeks(s, k) && End(m) == AddWeeks(e, k)
  {
    ResidueIsRemainder(s);
    ResidueOfSum(s, e - s);
  }

  lemma DenotedRangeAbsorbs(rs: seq<WeeklyRange>, r: WeeklyRange, removed: seq<bool>, s: int, e: int, m: WeeklyRange)
    requires Progress(rs, r, removed, s, e) && Denotes(m, s, e)
    requires forall i :: 0 <= i < |rs| && !removed[i] ==> NearNoShift(s, e, rs[i])
    ensures Absorbs(rs, removed, r, m)
  {
    forall i | 0 <= i < |rs| && !removed[i] ensures !TouchingArcs(s, e, Start(rs[i]), End(rs[i])) {
      UntouchedAfterThreeShifts(s, e, rs[i]);
    }
    if e - s + 1 < 10080 {
      var k := -(s / 10080);
      DenotedRangeHasTheSameArc(m, s, e, k);
      forall t ensures RangeCovers(m, t) == ArcCovers(s, e, t) { ArcShift(s, e, t, k); }
      forall i | 0 <= i < |rs| && !removed[i] ensures !Touching(m, rs[i]) {
        TouchingShift(s, e, Start(rs[i]), End(rs[i]), k);
      }
    } else {
      forall t ensures RangeCovers(m, t) && ArcCovers(s, e, t) { WholeCircleCovers(m, t); }
    }
  }

  method ToRange(s: int, e: int) returns (m: WeeklyRange)
    requires s <= e
    ensures Denotes(m, s, e)
  {
    if e - s + 1 >= 10080 {
      m := WeeklyRange(0, TimeHm(0, 0), 6, TimeHm(23, 59));
      WholeWeekIsMondayToSunday(m);
    } else {
      var sMod := (TruncatedRemainder(s, 10080) + 10080) % 10080;
      var eMod := (TruncatedRemainder(e, 10080) + 10080) % 10080;
      TruncatedRemainderWrapped(s);
      TruncatedRemainderWrapped(e);
      var sDay := sMod % 1440;
      var eDay := eMod % 1440;
      m := WeeklyRange(sMod / 1440, TimeHm(sDay / 60, sDay % 60), eMod / 1440, TimeHm(eDay / 60, eDay % 60));
    }
  }

  lemma TruncatedRemainderWrapped(a: int)
    ensures (TruncatedRemainder(a, 10080) + 10080) % 10080 == Residue(a)
  {
    ResidueIsRemainder(a);
    ResidueIsRemainder(-a);
    ResidueOfNegation(a);
  }

  /** The loop that rebuilds the list without the removed ranges. */
  method KeepSurvivors(ranges: seq<WeeklyRange>, removed: seq<bool>) returns (out: seq<WeeklyRange>)
    requires |removed| == |ranges|
    ensures out == Survivors(ranges, removed)
  {
    out := [];
    for i := 0 to |ranges|
      invariant out == Survivors(ranges[..i], removed[..i])
    {
      assert ranges[..i + 1][..i] == ranges[..i] && removed[..i + 1][..i] == removed[..i];
      if !removed[i] { out := out + [ranges[i]]; }
    }
    assert ranges[..|ranges|] == ranges && removed[..|removed|] == removed;
  }

  class Scheduler {
    var ranges: seq<WeeklyRange>

    constructor ()
      ensures ranges == []
    {
      ranges := [];
    }

    method AddRange(r: WeeklyRange)
      modifies this
      ensures AddStep(old(ranges), r, ranges)
    {
      hide ArcCovers, RangeCovers, AbsorbedCovers, NearNoShift, HullWithFirstNearShift, Denotes, Absorbs, Survivors;
      var newS, newE := Start(r), End(r);
      var removed := seq(|ranges|, _ => false);
      ProgressStart(ranges, r, removed);
      for i := 0 to |ranges|
        invariant ranges == old(ranges)
        invariant Progress(ranges, r, removed, newS, newE)
      {
        var hit, s', e' := Absorb(newS, newE, ranges[i]);
        if hit {
          ghost var shift :| HullWithFirstNearShift(newS, newE, ranges[i], shift, s', e');
          ProgressAbsorb(ranges, r, removed, newS, newE, i, shift, s', e');
          removed, newS, newE := removed[i := true], s', e';
        }
      }

      var changed := true;
      while changed
        invariant ranges == old(ranges)
        invariant Progress(ranges, r, removed, newS, newE)
        invariant !changed ==> forall i :: 0 <= i < |ranges| && !removed[i] ==> NearNoShift(newS, newE, ranges[i])
        decreases multiset(removed)[false] + if changed then 1 else 0
      {
        changed := false;
        ghost var pending := multiset(removed)[false];
        for i := 0 to |ranges|
          invariant ranges == old(ranges)
          invariant Progress(ranges, r, removed, newS, newE)
          invariant multiset(removed)[false] + (if changed then 1 else 0) <= pending
          invariant !changed ==> forall j :: 0 <= j < i && !removed[j] ==> NearNoShift(newS, newE, ranges[j])
        {
          if removed[i] { continue; }
          var hit, s', e' := Absorb(newS, newE, ranges[i]);
          if hit {
            ghost var shift :| HullWithFirstNearShift(newS, newE, ranges[i], shift, s', e');
            ProgressAbsorb(ranges, r, removed, newS, newE, i, shift, s', e');
            removed, newS, newE := removed[i := true], s', e';
            changed := true;
          }
        }
      }

      var out := KeepSurvivors(ranges, removed);
      var merged := ToRange(newS, newE);
      DenotedRangeAbsorbs(ranges, r, removed, newS, newE, merged);
      ranges := out + [merged];
    }

    /** `wday` and the time are the fields of a broken-down time: Sunday is 0. */
    method IsActiveAt(wday: Weekday, hour: Hour, minute: Minute) returns (active: bool)
      ensures active <==> Active(ranges, (wday + 6) % 7, hour * 60 + minute)
    {
      var nowDay: Weekday := (wday + 6) % 7;
      var nowMin := hour * 60 + minute;
      for i := 0 to |ranges|
        invariant forall j :: 0 <= j < i ==> !ActiveIn(ranges[j], nowDay, nowMin)
      {
        var x := ranges[i];
        var sd, ed := x.startDay, x.endDay;
        var sm, em := MinuteOfDay(x.startTime), MinuteOfDay(x.endTime);
        var dayMatch := (sd <= ed && nowDay >= sd && nowDay <= ed) || (sd > ed && (nowDay >= sd || nowDay <= ed));
        DayMatch(sd, ed, nowDay);
        if !dayMatch { continue; }
        if sd == ed {
          if nowMin >= sm && nowMin <= em { return true; }
        } else if nowDay == sd {
          if nowMin >= sm {
            assert ActiveIn(x, nowDay, nowMin);
            return true;
          }
        } else if nowDay == ed {
          if nowMin <= em {
            assert ActiveIn(x, nowDay, nowMin);
            return true;
          }
        } else {
          assert ActiveIn(x, nowDay, nowMin);
          assert Active(ranges, nowDay, nowMin);
          return true;
        }
      }
      return false;
    }
  }

  // Activity

  /** The range starts and ends on the same day, with its end before its start. */
  predicate Inverted(r: WeeklyRange) {
    r.startDay == r.endDay && MinuteOfDay(r.endTime) < MinuteOfDay(r.startTime)
  }

  function DaysAfter(from: int, day: int): int {
    (day - from) % 7
  }

  /** Is the minute in the part of the day that the range covers, going day by day? */
  predicate ActiveIn(r: WeeklyRange, day: Weekday, minute: int) {
    var first := if day == r.startDay then MinuteOfDay(r.startTime) else 0;
    var last := if day == r.endDay then MinuteOfDay(r.endTime) else 1439;
    && DaysAfter(r.startDay, day) <= DaysAfter(r.startDay, r.endDay)
    && first <= minute <= last
  }

  lemma DaysAfterIs(from: Weekday, day: Weekday)
    ensures DaysAfter(from, day) == day - from + if day < from then 7 else 0
  {}

  lemma DayMatch(sd: Weekday, ed: Weekday, day: Weekday)
    ensures DaysAfter(sd, day) <= DaysAfter(sd, ed)
       <==> (sd <= ed && sd <= day <= ed) || (sd > ed && (day >= sd || day <= ed))
    ensures DaysAfter(sd, day) == 0 <==> day == sd
  {}

  predicate Active(rs: seq<WeeklyRange>, day: Weekday, minute: int) {
    exists r :: r in rs && ActiveIn(r, day, minute)
  }

  lemma ActiveInMeansCovered(r: WeeklyRange, day: Weekday, minute: int)
    requires 0 <= minute < 1440
    ensures ActiveIn(r, day, minute) <==> !Inverted(r) && RangeCovers(r, day * 1440 + minute)
  {
    LagOfMinute(r.startDay, MinuteOfDay(r.startTime), day, minute);
    LengthOfRange(r);
    DaysAfterIs(r.startDay, day);
    DaysAfterIs(r.startDay, r.endDay);
    LagWithinLength(DaysAfter(r.startDay, day), minute, DaysAfter(r.startDay, r.endDay),
                    MinuteOfDay(r.startTime), MinuteOfDay(r.endTime));
  }

  /** Comparing distances is comparing days first, then minutes, unless the range is inverted. */
  lemma LagWithinLength(k: int, m: int, kEnd: int, m0: int, mEnd: int)
    requires 0 <= k < 7 && 0 <= kEnd < 7 && 0 <= m < 1440 && 0 <= m0 < 1440 && 0 <= mEnd < 1440
    ensures var lag := if k == 0 && m < m0 then m - m0 + 10080 else k * 1440 + m - m0;
            var length := if kEnd == 0 && mEnd < m0 then mEnd - m0 + 10080 else kEnd * 1440 + mEnd - m0;
            (!(kEnd == 0 && mEnd < m0) && lag <= length) <==>
            (k <= kEnd && (k == 0 ==> m0 <= m) && (k == kEnd ==> m <= mEnd))
  {}

  /** How far past minute `m0` of day `d0` the minute `m` of day `d` comes, going forward. */
  lemma LagOfMinute(d0: Weekday, m0: int, d: Weekday, m: int)
    requires 0 <= m0 < 1440 && 0 <= m < 1440
    ensures var k := DaysAfter(d0, d);
            0 <= k < 7 &&
            Residue(d * 1440 + m - (d0 * 1440 + m0)) == if k == 0 && m < m0 then m - m0 + 10080 else k * 1440 + m - m0
  {
    var lag := d * 1440 + m - (d0 * 1440 + m0);
    var back := if d < d0 then 7 else 0;
    assert DaysAfter(d0, d) == d - d0 + back;
    ResidueIs(lag, if lag < 0 then lag + 10080 else lag, if lag < 0 then -1 else 0);
  }

  lemma LengthOfRange(r: WeeklyRange)
    ensures End(r) - Start(r) == Residue(MinuteOfWeek(r.endDay, r.endTime) - Start(r))
    ensures var k := DaysAfter(r.startDay, r.endDay);
            var m, m0 := MinuteOfDay(r.endTime), MinuteOfDay(r.startTime);
            End(r) - Start(r) == if k == 0 && m < m0 then m - m0 + 10080 else k * 1440 + m - m0
  {
    LagOfMinute(r.startDay, MinuteOfDay(r.startTime), r.endDay, MinuteOfDay(r.endTime));
    var lag := MinuteOfWeek(r.endDay, r.endTime) - Start(r);
    ResidueIs(lag, if lag < 0 then lag + 10080 else lag, if lag < 0 then -1 else 0);
  }

  /** The activity test never answers true for an uncovered minute. */
  lemma ActiveImpliesCovered(rs: seq<WeeklyRange>, day: Weekday, minute: int)
    requires 0 <= minute < 1440 && Active(rs, day, minute)
    ensures Covered(rs, day * 1440 + minute)
  {
    var r :| r in rs && ActiveIn(r, day, minute);
    ActiveInMeansCovered(r, day, minute);
  }

  // Runs of insertions

  /** One insertion adds exactly the minutes of the new range, whatever the list was. */
  lemma AddStepCoverage(rs: seq<WeeklyRange>, r: WeeklyRange, rs': seq<WeeklyRange>, t: int)
    requires AddStep(rs, r, rs')
    ensures Covered(rs', t) <==> Covered(rs, t) || RangeCovers(r, t)
  {
    var removed: seq<bool>, merged: WeeklyRange :|
      && |removed| == |rs|
      && rs' == Survivors(rs, removed) + [merged]
      && Absorbs(rs, removed, r, merged);
    SurvivorsElements(rs, removed);
    assert merged in rs';
    if Covered(rs, t) && !RangeCovers(merged, t) {
      var x :| x in rs && RangeCovers(x, t);
      var i :| 0 <= i < |rs| && rs[i] == x;
      assert !removed[i];
      assert x in Survivors(rs, removed);
    }
    if Covered(rs', t) && !RangeCovers(merged, t) {
      var x :| x in rs' && RangeCovers(x, t);
      assert x in Survivors(rs, removed);
    }
  }

  lemma {:induction false} SurvivorsElements(rs: seq<WeeklyRange>, removed: seq<bool>)
    requires |removed| == |rs|
    ensures forall x :: x in Survivors(rs, removed) <==> exists i :: 0 <= i < |rs| && !removed[i] && rs[i] == x
  {
    if rs != [] {
      var n := |rs| - 1;
      SurvivorsElements(rs[..n], removed[..n]);
      forall x ensures x in Survivors(rs, removed) <==> exists i :: 0 <= i < |rs| && !removed[i] && rs[i] == x {
        if i :| 0 <= i < |rs| && !removed[i] && rs[i] == x && i < n {
          assert rs[..n][i] == x && !removed[..n][i];
        }
      }
    }
  }

  /** Positions of survivors in the old list, so that pairs of survivors are pairs of old ranges. */
  lemma {:induction false} SurvivorsPairwise(rs: seq<WeeklyRange>, removed: seq<bool>, a: int, b: int)
      returns (i: int, j: int)
    requires |removed| == |rs| && 0 <= a < b < |Survivors(rs, removed)|
    ensures 0 <= i < j < |rs| && Survivors(rs, removed)[a] == rs[i] && Survivors(rs, removed)[b] == rs[j]
  {
    var n := |rs| - 1;
    var rest := Survivors(rs[..n], removed[..n]);
    if b < |rest| {
      i, j := SurvivorsPairwise(rs[..n], removed[..n], a, b);
    } else {
      SurvivorsElements(rs[..n], removed[..n]);
      assert rest[a] in rest;
      i :| 0 <= i < n && rs[..n][i] == rest[a];
      j := n;
    }
  }

  /** Canonical lists stay canonical. */
  lemma AddStepKeepsCanonical(rs: seq<WeeklyRange>, r: WeeklyRange, rs': seq<WeeklyRange>)
    requires Canonical(rs) && AddStep(rs, r, rs')
    ensures Canonical(rs')
  {
    var removed: seq<bool>, merged: WeeklyRange :|
      && |removed| == |rs|
      && rs' == Survivors(rs, removed) + [merged]
      && Absorbs(rs, removed, r, merged);
    if WholeWeek(merged) || IsFullWeek(rs) {
      WholeWeekAbsorbsAll(rs, removed, r, merged);
    } else {
      SurvivorsAreSeparated(rs, removed, merged);
    }
  }

  lemma WholeWeekAbsorbsAll(rs: seq<WeeklyRange>, removed: seq<bool>, r: WeeklyRange, merged: WeeklyRange)
    requires |removed| == |rs| && Absorbs(rs, removed, r, merged)
    requires WholeWeek(merged) || IsFullWeek(rs)
    ensures Survivors(rs, removed) == [] && WholeWeek(merged)
  {
    forall i | 0 <= i < |rs| ensures removed[i] {
      WholeCircleTouches(merged, rs[i]);
    }
    NoSurvivors(rs, removed);
    if IsFullWeek(rs) {
      WholeWeekIsKept(rs, removed, r, merged);
    }
  }

  lemma {:induction false} NoSurvivors(rs: seq<WeeklyRange>, removed: seq<bool>)
    requires |removed| == |rs| && forall i :: 0 <= i < |rs| ==> removed[i]
    ensures Survivors(rs, removed) == []
  {
    if rs != [] { NoSurvivors(rs[..|rs| - 1], removed[..|rs| - 1]); }
  }

  lemma WholeWeekIsKept(rs: seq<WeeklyRange>, removed: seq<bool>, r: WeeklyRange, merged: WeeklyRange)
    requires IsFullWeek(rs) && |removed| == 1 && removed[0] && Absorbs(rs, removed, r, merged)
    ensures WholeWeek(merged)
  {
    var t := End(merged) + 1;
    WholeCircleCovers(rs[0], t);
    assert AbsorbedCovers(rs, removed, t);
    SpanOfACoveringArc(merged);
  }

  lemma SurvivorsAreSeparated(rs: seq<WeeklyRange>, removed: seq<bool>, merged: WeeklyRange)
    requires |removed| == |rs| && Canonical(rs) && !IsFullWeek(rs)
    requires End(merged) - Start(merged) + 1 < 10080
    requires forall i :: 0 <= i < |rs| && !removed[i] ==> !Touching(merged, rs[i])
    ensures Canonical(Survivors(rs, removed) + [merged])
  {
    var kept := Survivors(rs, removed);
    var rs' := kept + [merged];
    SurvivorsElements(rs, removed);
    forall a, b | 0 <= a < b < |rs'| ensures !Touching(rs'[a], rs'[b]) {
      if b < |kept| {
        var i, j := SurvivorsPairwise(rs, removed, a, b);
      } else {
        assert kept[a] in kept;
      }
    }
    forall x | x in rs' ensures End(x) - Start(x) + 1 < 10080 {
      if x != merged { assert x in kept; }
    }
  }

  lemma WholeCircleTouches(a: WeeklyRange, b: WeeklyRange)
    requires WholeWeek(a) || WholeWeek(b)
    ensures Touching(a, b)
  {}

  lemma SpanOfACoveringArc(m: WeeklyRange)
    ensures End(m) - Start(m) + 1 >= 10080 || !RangeCovers(m, End(m) + 1)
  {
    if End(m) - Start(m) + 1 < 10080 { NeighboursOfOwnArc(Start(m), End(m)); }
  }

  /** The lists a scheduler goes through from its construction on, one insertion at a time. */
  ghost predicate IsRun(inputs: seq<WeeklyRange>, states: seq<seq<WeeklyRange>>) {
    && |states| == |inputs| + 1
    && states[0] == []
    && forall i :: 0 <= i < |inputs| ==> AddStep(states[i], inputs[i], states[i + 1])
  }

  /** After every insertion the list is canonical and covers what was inserted, no more. */
  lemma {:induction false} RunInvariant(inputs: seq<WeeklyRange>, states: seq<seq<WeeklyRange>>, n: int)
    requires IsRun(inputs, states) && 0 <= n <= |inputs|
    ensures Canonical(states[n])
    ensures SameCoverage(states[n], inputs[..n])
  {
    if n > 0 {
      RunInvariant(inputs, states, n - 1);
      AddStepKeepsCanonical(states[n - 1], inputs[n - 1], states[n]);
      assert inputs[..n] == inputs[..n - 1] + [inputs[n - 1]];
      forall t ensures Covered(states[n], t) <==> Covered(inputs[..n], t) {
        AddStepCoverage(states[n - 1], inputs[n - 1], states[n], t);
        CoveredByOneMore(inputs[..n - 1], inputs[n - 1], t);
      }
    }
  }

  lemma CoveredByOneMore(rs: seq<WeeklyRange>, r: WeeklyRange, t: int)
    ensures Covered(rs + [r], t) <==> Covered(rs, t) || RangeCovers(r, t)
  {
    if x :| x in rs && RangeCovers(x, t) { assert x in rs + [r]; }
    assert r in rs + [r];
  }

  /** Two runs whose inputs cover the same minutes end with the same ranges, up to order;
      in particular the order of insertion does not matter. */
  lemma InsertionOrderDoesNotMatter(
      inputs: seq<WeeklyRange>, states: seq<seq<WeeklyRange>>,
      inputs': seq<WeeklyRange>, states': seq<seq<WeeklyRange>>)
    requires IsRun(inputs, states) && IsRun(inputs', states')
    requires multiset(inputs) == multiset(inputs') || SameCoverage(inputs, inputs')
    ensures multiset(states[|inputs|]) == multiset(states'[|inputs'|])
  {
    RunInvariant(inputs, states, |inputs|);
    RunInvariant(inputs', states', |inputs'|);
    assert inputs[..|inputs|] == inputs && inputs'[..|inputs'|] == inputs';
    if multiset(inputs) == multiset(inputs') {
      forall x: WeeklyRange ensures x in inputs <==> x in inputs' {
        assert x in multiset(inputs) <==> x in multiset(inputs');
      }
    }
    assert SameCoverage(inputs, inputs');
    CanonicalFormIsUnique(states[|inputs|], states'[|inputs'|]);
  }

  /** After any run, an active minute is a minute of some inserted range. */
  lemma ActiveMinutesWereInserted(inputs: seq<WeeklyRange>, states: seq<seq<WeeklyRange>>, n: int,
                                  day: Weekday, minute: int)
    requires IsRun(inputs, states) && 0 <= n <= |inputs|
    requires 0 <= minute < 1440 && Active(states[n], day, minute)
    ensures exists r :: r in inputs[..n] && RangeCovers(r, day * 1440 + minute)
  {
    RunInvariant(inputs, states, n);
    ActiveImpliesCovered(states[n], day, minute);
  }

  ghost predicate ActivityIsCoverageAt(rs: seq<WeeklyRange>, day: Weekday, minute: int) {
    Active(rs, day, minute) <==> Covered(rs, day * 1440 + minute)
  }

  /** The activity test agrees with coverage at every minute of the week exactly when
      no stored range is inverted. */
  lemma ActivityIsExactUnlessInverted(rs: seq<WeeklyRange>)
    requires Canonical(rs)
    ensures (forall day: Weekday, minute :: 0 <= minute < 1440 ==> ActivityIsCoverageAt(rs, day, minute))
       <==> (forall r :: r in rs ==> !Inverted(r))
  {
    if r :| r in rs && Inverted(r) {
      StartOfAnInvertedRangeIsInactive(rs, r);
      assert !ActivityIsCoverageAt(rs, r.startDay, MinuteOfDay(r.startTime));
    } else {
      forall day: Weekday, minute | 0 <= minute < 1440
        ensures ActivityIsCoverageAt(rs, day, minute)
      {
        CoveredIsActiveUnlessInverted(rs, day, minute);
      }
    }
  }

  lemma CoveredIsActiveUnlessInverted(rs: seq<WeeklyRange>, day: Weekday, minute: int)
    requires 0 <= minute < 1440
    requires forall r :: r in rs ==> !Inverted(r)
    ensures ActivityIsCoverageAt(rs, day, minute)
  {
    if r :| r in rs && RangeCovers(r, day * 1440 + minute) {
      ActiveInMeansCovered(r, day, minute);
    } else if Active(rs, day, minute) {
      ActiveImpliesCovered(rs, day, minute);
    }
  }

  lemma StartOfAnInvertedRangeIsInactive(rs: seq<WeeklyRange>, r: WeeklyRange)
    requires Canonical(rs) && r in rs && Inverted(r)
    ensures Covered(rs, r.startDay * 1440 + MinuteOfDay(r.startTime))
    ensures !Active(rs, r.startDay, MinuteOfDay(r.startTime))
  {
    assert RangeCovers(r, Start(r));
    forall x | x in rs ensures !ActiveIn(x, r.startDay, MinuteOfDay(r.startTime)) {
      ActiveInMeansCovered(x, r.startDay, MinuteOfDay(r.startTime));
      if x != r { OthersDoNotCoverTheStart(rs, r, x); }
    }
  }

  lemma OthersDoNotCoverTheStart(rs: seq<WeeklyRange>, r: WeeklyRange, x: WeeklyRange)
    requires Canonical(rs) && r in rs && x in rs && x != r
    ensures !RangeCovers(x, Start(r))
  {
    var i :| 0 <= i < |rs| && rs[i] == r;
    var j :| 0 <= j < |rs| && rs[j] == x;
    assert !Touching(x, r);
  }

  /** Everything is covered except for a gap strictly inside day `d`. */
  ghost predicate OnlyGapIsInside(rs: seq<WeeklyRange>, d: Weekday) {
    && (forall t :: 0 <= t < 10080 && !Covered(rs, t) ==> d * 1440 < t < d * 1440 + 1439)
    && (exists t :: 0 <= t < 10080 && !Covered(rs, t))
  }

  /** Merging produces an inverted range exactly when what is covered leaves out
      nothing but a gap strictly inside one day. */
  lemma InvertedExactlyWhenTheOnlyGapIsInsideOneDay(rs: seq<WeeklyRange>)
    requires Canonical(rs)
    ensures (exists r :: r in rs && Inverted(r)) <==> (exists d: Weekday :: OnlyGapIsInside(rs, d))
  {
    if r :| r in rs && Inverted(r) {
      InvertedLeavesAGapInsideOneDay(rs, r);
    }
    if d: Weekday :| OnlyGapIsInside(rs, d) {
      var r := GapInsideOneDayIsBorderedByAnInvertedRange(rs, d);
    }
  }

  /** The activity test of `rs` says what `inputs` cover. */
  ghost predicate AnswersFor(rs: seq<WeeklyRange>, inputs: seq<WeeklyRange>, day: Weekday, minute: int) {
    Active(rs, day, minute) <==> Covered(inputs, day * 1440 + minute)
  }

  /** After any run the activity test answers at every minute as the inserted ranges say exactly when these leave
      out something else than a gap strictly inside one day, or nothing at all. */
  lemma ActivityAnswersForInputsExactlyWhen(inputs: seq<WeeklyRange>, states: seq<seq<WeeklyRange>>)
    requires IsRun(inputs, states)
    ensures (forall day: Weekday, minute :: 0 <= minute < 1440 ==> AnswersFor(states[|inputs|], inputs, day, minute))
       <==> !(exists d: Weekday :: OnlyGapIsInside(inputs, d))
  {
    hide IsRun, Active, Covered, Canonical, Inverted;
    assert |states| == |inputs| + 1 by { LengthOfRun(inputs, states); }
    var rs := states[|inputs|];
    RunInvariant(inputs, states, |inputs|);
    assert inputs[..|inputs|] == inputs;
    ActivityIsExactUnlessInverted(rs);
    InvertedExactlyWhenTheOnlyGapIsInsideOneDay(rs);
    forall d: Weekday
      ensures OnlyGapIsInside(rs, d) <==> OnlyGapIsInside(inputs, d)
    {
      SameGaps(rs, inputs, d);
    }
    forall day: Weekday, minute
      ensures ActivityIsCoverageAt(rs, day, minute) <==> AnswersFor(rs, inputs, day, minute)
    {
      assert Covered(rs, day * 1440 + minute) <==> Covered(inputs, day * 1440 + minute);
    }
  }

  lemma LengthOfRun(inputs: seq<WeeklyRange>, states: seq<seq<WeeklyRange>>)
    requires IsRun(inputs, states)
    ensures |states| == |inputs| + 1
  {}

  lemma SameGaps(a: seq<WeeklyRange>, b: seq<WeeklyRange>, d: Weekday)
    requires SameCoverage(a, b)
    ensures OnlyGapIsInside(a, d) <==> OnlyGapIsInside(b, d)
  {
    hide Covered;
  }

  lemma InvertedLeavesAGapInsideOneDay(rs: seq<WeeklyRange>, r: WeeklyRange)
    requires Canonical(rs) && r in rs && Inverted(r)
    ensures OnlyGapIsInside(rs, r.startDay)
  {
    forall t | 0 <= t < 10080 && !Covered(rs, t)
      ensures r.startDay * 1440 < t < r.startDay * 1440 + 1439
    {
      MinutesOutsideAnInvertedRange(r, t);
    }
    var u := MinuteAfterAnInvertedRange(rs, r);
  }

  lemma MinuteAfterAnInvertedRange(rs: seq<WeeklyRange>, r: WeeklyRange) returns (u: int)
    requires Canonical(rs) && r in rs && Inverted(r)
    ensures 0 <= u < 10080 && !Covered(rs, u)
  {
    u := End(r) + 1 - 10080;
    assert !IsFullWeek(rs);
    NeighboursOfAStoredRange(rs, r);
    CoverageRepeatsWeekly(rs, u, 1);
  }

  lemma MinutesOutsideAnInvertedRange(r: WeeklyRange, t: int)
    requires Inverted(r) && 0 <= t < 10080 && !RangeCovers(r, t)
    ensures r.startDay * 1440 < t < r.startDay * 1440 + 1439
  {
    var lag := t - Start(r);
    ResidueIs(lag, if lag < 0 then lag + 10080 else lag, if lag < 0 then -1 else 0);
  }

  lemma CoverageRepeatsWeekly(rs: seq<WeeklyRange>, t: int, k: int)
    ensures Covered(rs, AddWeeks(t, k)) <==> Covered(rs, t)
  {
    forall r | r in rs ensures RangeCovers(r, AddWeeks(t, k)) == RangeCovers(r, t) {
      ArcShift(Start(r), End(r), t, k);
    }
  }

  lemma UncoveredMinuteOfTheWeek(rs: seq<WeeklyRange>, d: Weekday, t: int, k: int)
    requires OnlyGapIsInside(rs, d) && !Covered(rs, t) && 0 <= AddWeeks(t, k) < 10080
    ensures d * 1440 < AddWeeks(t, k) < d * 1440 + 1439
  {
    CoverageRepeatsWeekly(rs, t, k);
  }

  lemma GapInsideOneDayIsBorderedByAnInvertedRange(rs: seq<WeeklyRange>, d: Weekday) returns (r: WeeklyRange)
    requires Canonical(rs) && OnlyGapIsInside(rs, d)
    ensures r in rs && Inverted(r)
  {
    hide Residue, ArcCovers, Canonical;
    CanonicalFullCoverage(rs);
    var t := d * 1440 + 1439;
    assert Covered(rs, t);
    r :| r in rs && RangeCovers(r, t);
    NeighboursOfAStoredRange(rs, r);
    UncoveredMinuteOfTheWeek(rs, d, Start(r) - 1, if Start(r) == 0 then 1 else 0);
    UncoveredMinuteOfTheWeek(rs, d, End(r) + 1, if End(r) + 1 >= 10080 then -1 else 0);
    BothEndsInsideTheDay(r, d);
  }

  lemma BothEndsInsideTheDay(r: WeeklyRange, d: Weekday)
    requires RangeCovers(r, d * 1440 + 1439)
    requires d * 1440 < Start(r) - 1 < d * 1440 + 1439
    requires d * 1440 < End(r) + 1 < d * 1440 + 1439 || d * 1440 < End(r) + 1 - 10080 < d * 1440 + 1439
    ensures Inverted(r)
  {
    DayOfMinute(r.startDay, MinuteOfDay(r.startTime), d);
    DayOfMinute(r.endDay, MinuteOfDay(r.endTime), d);
    LagOfMinute(d, MinuteOfDay(r.startTime), d, 1439);
    LengthOfRange(r);
  }

  lemma DayOfMinute(day: Weekday, m: int, d: Weekday)
    requires 0 <= m < 1440 && d * 1440 <= day * 1440 + m < d * 1440 + 1440
    ensures day == d
  {}

  /** Merging two ordinary ranges can do that: Monday 10:00 to Tuesday 12:00 and
      Tuesday 11:00 to Monday 09:00 leave out only part of Monday morning. */
  lemma OrdinaryRangesCanMergeIntoAnInvertedOne(a: WeeklyRange, b: WeeklyRange, states: seq<seq<WeeklyRange>>)
    requires a.startDay == 0 && MinuteOfDay(a.startTime) == 600 && a.endDay == 1 && MinuteOfDay(a.endTime) == 720
    requires b.startDay == 1 && MinuteOfDay(b.startTime) == 660 && b.endDay == 0 && MinuteOfDay(b.endTime) == 540
    requires IsRun([a, b], states)
    ensures !Inverted(a) && !Inverted(b)
    ensures exists r :: r in states[2] && Inverted(r)
  {
    hide AddStep, Canonical, RangeCovers;
    var inputs := [a, b];
    RunInvariant(inputs, states, 2);
    assert inputs[..2] == inputs;
    forall t | 0 <= t < 10080 ensures Covered(inputs, t) <==> !(540 < t < 600) {
      PartOfMondayIsLeftOut(a, b, t);
    }
    assert !Covered(states[2], 550);
    assert OnlyGapIsInside(states[2], 0);
    InvertedExactlyWhenTheOnlyGapIsInsideOneDay(states[2]);
  }

  lemma PartOfMondayIsLeftOut(a: WeeklyRange, b: WeeklyRange, t: int)
    requires a.startDay == 0 && MinuteOfDay(a.startTime) == 600 && a.endDay == 1 && MinuteOfDay(a.endTime) == 720
    requires b.startDay == 1 && MinuteOfDay(b.startTime) == 660 && b.endDay == 0 && MinuteOfDay(b.endTime) == 540
    requires 0 <= t < 10080
    ensures Covered([a, b], t) <==> !(540 < t < 600)
  {
    hide RangeCovers;
    LowArcCovers(a, t);
    HighArcCovers(b, t);
    assert a in [a, b] && b in [a, b];
  }

  lemma LowArcCovers(r: WeeklyRange, t: int)
    requires 0 <= t < 10080 && End(r) < 10080
    ensures RangeCovers(r, t) <==> Start(r) <= t <= End(r)
  {
    var lag := t - Start(r);
    ResidueIs(lag, if lag < 0 then lag + 10080 else lag, if lag < 0 then -1 else 0);
  }

  lemma HighArcCovers(r: WeeklyRange, t: int)
    requires 0 <= t < 10080 && End(r) >= 10080
    ensures RangeCovers(r, t) <==> Start(r) <= t || t <= End(r) - 10080
  {
    var lag := t - Start(r);
    ResidueIs(lag, if lag < 0 then lag + 10080 else lag, if lag < 0 then -1 else 0);
  }
}
