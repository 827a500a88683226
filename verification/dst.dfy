/** The political operations: whether a standard-time buffer falls inside
    the configured daylight-saving period, and the two conversions built on
    Adjust (local standard time to GMT, standard time to daylight time). */
module Dst {
  import opened Numeric
  import opened TimeBuffer
  import opened Calendar
  import opened Adjustment
  import opened Settings

  /** The date InDst takes for the most recent Sunday on or before the
      buffer's day, held in a signed `char`; zero or less when no Sunday of
      the month has come yet. For a valid date it lies in the week that ends
      on the buffer's day, and when it is a day of the month that day is a
      Sunday. */
  function PreviousSunday(t: Time): (p: int)
    ensures ValidDate(t) ==> t.day - 6 <= p <= t.day
    ensures ValidDate(t) && p >= 1 ==> DayOfWeek(t.(day := p)) == 1
  {
    var p := ToChar(t.day - DayOfWeek(t) + 1);
    if ValidDate(t) && p >= 1 then (SundayBefore(t); p) else p
  }

  /** Stepping back from a day by its weekday less one lands on a Sunday. */
  lemma SundayBefore(t: Time)
    requires ValidDate(t) && t.day - DayOfWeek(t) + 1 >= 1
    ensures DayOfWeek(t.(day := t.day - DayOfWeek(t) + 1)) == 1
  {
    var u := t.(day := t.day - DayOfWeek(t) + 1);
    var a := DayOfWeek(t.(day := 1)) - 1;
    var x := a + t.day - 1;
    assert DayOfWeek(t) - 1 == x % 7 by {
      WeekdayInMonth(t);
    }
    assert u.(day := 1) == t.(day := 1);
    assert DayOfWeek(u) - 1 == (x - x % 7) % 7 by {
      WeekdayInMonth(u);
    }
    DivModUnique(x - x % 7, 7, x / 7, 0);
  }

  /** InDst's Sunday count as written: p / 7 + 1 for a positive previous
      Sunday p, else 0. */
  function SundayOrdinal(t: Time): (n: int)
    ensures 0 <= n <= 19
  {
    var p := PreviousSunday(t);
    if p > 0 then p / 7 + 1 else 0
  }

  /** The count of Sundays of the month on or before the buffer's day,
      which is what the start and end tests need: (p - 1) / 7 + 1. */
  function IntendedOrdinal(t: Time): (n: int)
    ensures 0 <= n <= 19
  {
    var p := PreviousSunday(t);
    if p > 0 then (p - 1) / 7 + 1 else 0
  }

  /** InDst's test for "the `w`-th Sunday's transition has come" given a
      Sunday count `n`: a later ordinal has, an earlier one has not, and on
      the ordinal itself it has unless the day is the Sunday and the hour is
      before 2:00. */
  predicate Passed(t: Time, n: int, w: int)
  {
    if n < w then false
    else if n > w then true
    else DayOfWeek(t) > 1 || t.hour > 1
  }

  /** The decision InDst takes once it has a Sunday count: outside the
      span of months no, strictly inside yes; in the start month yes once
      the start transition has come, in the end month yes until the end
      transition has come. In a rule that starts and ends in one month only
      the start is tested. */
  function InDstRule(c: Config, t: Time, nSundays: int): (r: bool)
    ensures t.month < c.dstm1 || t.month > c.dstm2 ==> !r
    ensures c.dstm1 < t.month < c.dstm2 ==> r
    ensures t.month == c.dstm1 <= c.dstm2 ==> (r <==> Passed(t, nSundays, c.dstw1))
    ensures c.dstm1 < t.month == c.dstm2 ==> (r <==> !Passed(t, nSundays, c.dstw2))
  {
    if t.month < c.dstm1 || t.month > c.dstm2 then false
    else if t.month > c.dstm1 && t.month < c.dstm2 then true
    else
      var weekday := DayOfWeek(t);
      if t.month == c.dstm1 then
        if nSundays < c.dstw1 then false
        else if nSundays > c.dstw1 then true
        else weekday > 1 || t.hour > 1
      else
        if nSundays < c.dstw2 then true
        else if nSundays > c.dstw2 then false
        else !(weekday > 1 || t.hour > 1)
  }

  /** `InDst` as written, with the overcounting Sunday ordinal. Months
      outside the configured span are never in daylight time, months
      strictly inside always are, and a rule whose start month follows its
      end month never applies. */
  function InDst(c: Config, t: Time): (r: bool)
    ensures t.month < c.dstm1 || t.month > c.dstm2 ==> !r
    ensures c.dstm1 < t.month < c.dstm2 ==> r
    ensures c.dstm1 > c.dstm2 ==> !r
  {
    InDstRule(c, t, SundayOrdinal(t))
  }

  /** InDst with the Sunday count corrected and, for a rule that starts and
      ends in one month, the end transition tested as well as the start. */
  function InDstIntended(c: Config, t: Time): (r: bool)
    ensures t.month < c.dstm1 || t.month > c.dstm2 ==> !r
    ensures c.dstm1 < t.month < c.dstm2 ==> r
    ensures c.dstm1 > c.dstm2 ==> !r
    ensures t.month == c.dstm1 == c.dstm2 ==>
      (r <==> Passed(t, IntendedOrdinal(t), c.dstw1) && !Passed(t, IntendedOrdinal(t), c.dstw2))
  {
    var n := IntendedOrdinal(t);
    if t.month == c.dstm1 == c.dstm2 then Passed(t, n, c.dstw1) && !Passed(t, n, c.dstw2)
    else InDstRule(c, t, n)
  }

  /** The as-written count exceeds the intended one by exactly one when the
      previous Sunday falls on the 7th, 14th, 21st or 28th, and equals it
      otherwise. */
  lemma SundayOrdinalOvercounts(t: Time)
    ensures SundayOrdinal(t) == IntendedOrdinal(t)
      + (if PreviousSunday(t) > 0 && PreviousSunday(t) % 7 == 0 then 1 else 0)
  {
    var p := PreviousSunday(t);
    if p > 0 {
      QuotientStep(p, 7);
    }
  }

  /** Away from the overcount, InDst as written takes the decision of the
      corrected count, and so agrees with InDstIntended for every rule whose
      start and end months differ. */
  lemma InDstAgreesWithIntended(c: Config, t: Time)
    requires !(PreviousSunday(t) > 0 && PreviousSunday(t) % 7 == 0)
    ensures InDst(c, t) == InDstRule(c, t, IntendedOrdinal(t))
    ensures c.dstm1 != c.dstm2 ==> InDst(c, t) == InDstIntended(c, t)
  {
    SundayOrdinalOvercounts(t);
  }

  /** In a rule that starts and ends in the same month, InDst as written
      tests the start transition only: the end Sunday plays no part. */
  lemma InDstSameMonthIgnoresEnd(c: Config, t: Time)
    requires t.month == c.dstm1 == c.dstm2
    ensures InDst(c, t) <==> Passed(t, SundayOrdinal(t), c.dstw1)
    ensures forall w2: byte :: InDst(c, t) == InDst(c.(dstw2 := w2), t)
  {
  }

  // ---------------------------------------------------------------------
  // Reference definition: the daylight period runs from 2:00 standard time
  // on the w1-th Sunday of month m1 to 2:00 standard time on the w2-th
  // Sunday of month m2, in the buffer's own year.

  /** Day of the month of the month's first Sunday. */
  function FirstSunday(t: Time): (d: int)
    ensures 1 <= d <= 7
  {
    var w := DayOfWeek(t.(day := 1));
    if w == 1 then 1 else 9 - w
  }

  /** Day of the month of the month's `w`-th Sunday. */
  function NthSunday(t: Time, w: int): int
  {
    FirstSunday(t) + 7 * (w - 1)
  }

  /** Hours since a fixed point before January of the buffer's year, with
      every month given 32 days: orders the buffers of one year. */
  function Stamp(t: Time): int
  {
    (t.month * 32 + t.day) * 24 + t.hour
  }

  /** 2:00 on the `w`-th Sunday of month `m` of the buffer's year. */
  function Transition(t: Time, m: byte, w: byte): (u: Time)
    requires 1 <= w <= 4
    ensures u.month == m && u.year == t.year && u.hour == 2
  {
    var v := t.(month := m);
    v.(day := NthSunday(v, w), hour := 2)
  }

  /** In daylight time: at or after the start transition and before the end
      transition. */
  predicate InDstReference(c: Config, t: Time)
    requires 1 <= c.dstw1 <= 4 && 1 <= c.dstw2 <= 4
  {
    var start := Transition(t, c.dstm1, c.dstw1);
    var end := Transition(t, c.dstm2, c.dstw2);
    Stamp(start) <= Stamp(t) < Stamp(end)
  }

  /** The weekday of a day is the weekday of the 1st advanced by the days
      in between. */
  lemma WeekdayInMonth(t: Time)
    requires 1 <= t.month <= 12
    ensures DayOfWeek(t) - 1 == (DayOfWeek(t.(day := 1)) - 1 + t.day - 1) % 7
  {
    var u := t.(day := 1);
    var s := MonthStart(t);
    assert DayOfWeek(t) - 1 == (s + t.day - 1 + 3) % 7 by {
      DayOfWeekFromDayNumber(t);
      DayNumberWithinMonth(t);
    }
    assert DayOfWeek(u) - 1 == (s + 3) % 7 by {
      DayOfWeekFromDayNumber(u);
      DayNumberWithinMonth(u);
    }
    ModAddMultiple((s + 3) % 7 + t.day - 1, (s + 3) / 7, 7);
  }

  /** The corrected count is the number of Sundays from the first one up to
      the day, and the day is a Sunday exactly when it lies a whole number
      of weeks after the first one. */
  lemma IntendedOrdinalCountsSundays(t: Time)
    requires ValidDate(t)
    ensures IntendedOrdinal(t) == (if t.day < FirstSunday(t) then 0 else (t.day - FirstSunday(t)) / 7 + 1)
    ensures DayOfWeek(t) == 1 <==> t.day >= FirstSunday(t) && (t.day - FirstSunday(t)) % 7 == 0
  {
    var a := DayOfWeek(t.(day := 1)) - 1;
    var f := FirstSunday(t);
    var x := a + t.day - 1;
    var q := x / 7;
    var r := x % 7;
    assert DayOfWeek(t) - 1 == r by {
      WeekdayInMonth(t);
    }
    assert PreviousSunday(t) == t.day - r;
    if a == 0 {
      assert f == 1;
      DivModUnique(t.day - f, 7, q, r);
      if q >= 0 {
        DivModUnique(t.day - r - 1, 7, q, 0);
      }
    } else {
      assert f == 8 - a;
      if q >= 1 {
        DivModUnique(t.day - f, 7, q - 1, r);
        DivModUnique(t.day - r - 1, 7, q - 1, 7 - a);
      }
    }
  }

  /** In terms of the `w`-th Sunday N: the count is below `w` before N,
      above `w` from a week after N on, and in between the day is a Sunday
      only on N itself. */
  lemma OrdinalAgainstNthSunday(t: Time, w: int)
    requires ValidDate(t) && 1 <= w <= 4
    ensures IntendedOrdinal(t) < w <==> t.day < NthSunday(t, w)
    ensures IntendedOrdinal(t) > w <==> t.day >= NthSunday(t, w) + 7
    ensures IntendedOrdinal(t) == w ==> (DayOfWeek(t) > 1 <==> t.day != NthSunday(t, w))
  {
    IntendedOrdinalCountsSundays(t);
    var f := FirstSunday(t);
    if t.day >= f {
      var k := (t.day - f) / 7;
      var r := (t.day - f) % 7;
      assert t.day == f + 7 * k + r;
    }
  }

  /** Within a month of a valid rule, InDst's start test with the corrected
      count says: at or after 2:00 on the `w`-th Sunday. */
  lemma StartTestMeansTransitionPassed(t: Time, w: int)
    requires ValidDate(t) && t.hour < 24 && 1 <= w <= 4
    ensures Passed(t, IntendedOrdinal(t), w)
      <==> (t.day > NthSunday(t, w) || (t.day == NthSunday(t, w) && t.hour >= 2))
  {
    OrdinalAgainstNthSunday(t, w);
  }

  /** With a valid rule, the corrected InDst holds of a valid standard-time
      buffer exactly when it lies at or after the start transition and
      before the end transition. */
  lemma InDstIntendedMeetsReference(c: Config, t: Time)
    requires Valid(c) && ValidDate(t) && t.hour < 24
    ensures InDstIntended(c, t) <==> InDstReference(c, t)
  {
    var start := Transition(t, c.dstm1, c.dstw1);
    var end := Transition(t, c.dstm2, c.dstw2);
    assert 1 <= NthSunday(start, c.dstw1) <= 28 && 1 <= NthSunday(end, c.dstw2) <= 28;
    assert Stamp(t) == t.month * 768 + t.day * 24 + t.hour;
    assert Stamp(start) == c.dstm1 * 768 + start.day * 24 + 2;
    assert Stamp(end) == c.dstm2 * 768 + end.day * 24 + 2;
    if t.month == c.dstm1 == c.dstm2 {
      assert start == t.(day := NthSunday(t, c.dstw1), hour := 2);
      assert end == t.(day := NthSunday(t, c.dstw2), hour := 2);
      StartTestMeansTransitionPassed(t, c.dstw1);
      StartTestMeansTransitionPassed(t, c.dstw2);
    } else if t.month == c.dstm1 {
      assert start == t.(day := NthSunday(t, c.dstw1), hour := 2);
      StartTestMeansTransitionPassed(t, c.dstw1);
    } else if t.month == c.dstm2 {
      assert end == t.(day := NthSunday(t, c.dstw2), hour := 2);
      StartTestMeansTransitionPassed(t, c.dstw2);
    }
  }

  /** The overcount in practice: with the constructor's United States rule
      (second Sunday of March), 3:00 on Sunday March 7, 2021 (the first
      Sunday of the month) is already reported as daylight time, a week
      before the transition. */
  lemma InDstStartsWeekEarly()
    ensures var t := Time(0, 0, 3, 7, 3, 21);
      DayOfWeek(t) == 1 && InDst(Initial(), t)
      && !InDstIntended(Initial(), t) && !InDstReference(Initial(), t)
  {
    var t := Time(0, 0, 3, 7, 3, 21);
    var c := Initial();
    assert DayOfWeek(t) == 1;
    assert FirstSunday(t) == 7;
    assert PreviousSunday(t) == 7;
    InDstIntendedMeetsReference(c, t);
  }

  /** The same-month hole in practice: with a rule from the first to the
      second Sunday of March (accepted by DstRules), noon on Wednesday
      March 16, 2022, after the second Sunday, is still reported as
      daylight time. */
  lemma InDstSameMonthExample()
    ensures var t := Time(0, 0, 12, 16, 3, 22);
      var c := Config(-300, 3, 1, 3, 2, 60);
      DstRules(c, 3, 1, 3, 2, 60).0
      && InDst(c, t) && !InDstIntended(c, t) && !InDstReference(c, t)
  {
    var t := Time(0, 0, 12, 16, 3, 22);
    var c := Config(-300, 3, 1, 3, 2, 60);
    assert DayOfWeek(t) == 4;
    assert PreviousSunday(t) == 13;
    assert FirstSunday(t) == 6;
    InDstIntendedMeetsReference(c, t);
  }

  // ---------------------------------------------------------------------
  // Conversions

  /** `GMT`: local standard time to GMT by adjusting with the negated zone
      offset; the result's clock fields are in range and its day lies in its
      month whatever the input. */
  function GMT(c: Config, t: Time): (r: Time)
    ensures r.second == t.second
    ensures r.minute == (t.minute - c.timezone) % 60
    ensures r.hour < 24
    ensures 1 <= r.day <= LengthOfMonth(r)
    ensures 1 <= t.month <= 12 ==> 1 <= r.month <= 12
  {
    Adjust(t, -c.timezone)
  }

  /** West of Greenwich (a zone offset of zero or less) GMT moves a
      canonical buffer forward by exactly the zone offset. */
  lemma GMTWestIsExact(c: Config, t: Time)
    requires Canonical(t) && c.timezone <= 0 && Minutes(t) - c.timezone <= LastMinute
    ensures Canonical(GMT(c, t))
    ensures Minutes(GMT(c, t)) == Minutes(t) - c.timezone
  {
    var offset := -c.timezone;
    assert GMT(c, t) == Adjust(t, offset);
    AdjustAdvancesExactly(t, offset);
  }

  /** East of Greenwich GMT inherits Adjust's truncating carry: 12:30 in a
      zone one hour ahead comes out as 12:30 GMT, not 11:30. */
  lemma GMTEastKeepsHalfHour()
    ensures var t := Time(0, 30, 12, 10, 6, 20);
      var c := Initial().(timezone := 60);
      GMT(c, t) == t && Minutes(GMT(c, t)) != Minutes(t) - c.timezone
  {
    assert TruncDiv(-30, 60) == 0;
  }

  /** GMT with the floor-carry Adjust. */
  function GMTIntended(c: Config, t: Time): (r: Time)
    ensures r.second == t.second
    ensures r.minute == (t.minute - c.timezone) % 60
  {
    AdjustFloored(t, -c.timezone)
  }

  /** With floor carries, GMT moves a canonical buffer by exactly the zone
      offset on either side of Greenwich, and adjusting the result by the
      zone offset gives back the local time. */
  lemma GMTIntendedRoundTrip(c: Config, t: Time)
    requires Canonical(t) && FirstMinute <= Minutes(t) - c.timezone <= LastMinute
    ensures Canonical(GMTIntended(c, t))
    ensures Minutes(GMTIntended(c, t)) == Minutes(t) - c.timezone
    ensures AdjustFloored(GMTIntended(c, t), c.timezone) == t
  {
    var offset := -c.timezone;
    var g := AdjustFloored(t, offset);
    assert GMTIntended(c, t) == g;
    assert Canonical(g) && Minutes(g) == Minutes(t) + offset by {
      AdjustFlooredShift(t, offset);
    }
    assert AdjustFloored(g, -offset) == t by {
      AdjustFlooredRoundTrip(t, offset);
    }
  }

  /** `DST`: standard to daylight time, advancing by the configured number
      of minutes when InDst holds; the buffer is untouched otherwise. */
  function DST(c: Config, t: Time): (r: Time)
    ensures !InDst(c, t) ==> r == t
    ensures r.second == t.second
    ensures InDst(c, t) ==> r.minute == (t.minute + c.dstadv) % 60
  {
    if InDst(c, t) then Adjust(t, c.dstadv) else t
  }

  /** Inside the daylight period DST moves a canonical buffer forward by
      exactly the configured advance. */
  lemma DSTAdvancesExactly(c: Config, t: Time)
    requires Canonical(t) && InDst(c, t) && Minutes(t) + c.dstadv <= LastMinute
    ensures Canonical(DST(c, t))
    ensures Minutes(DST(c, t)) == Minutes(t) + c.dstadv
  {
    AdjustAdvancesExactly(t, c.dstadv);
  }

  /** DST with the corrected InDst. */
  function DSTIntended(c: Config, t: Time): (r: Time)
    ensures !InDstIntended(c, t) ==> r == t
    ensures r.second == t.second
  {
    if InDstIntended(c, t) then Adjust(t, c.dstadv) else t
  }

  /** With the corrected count, DST advances a canonical buffer of a valid
      rule by the configured minutes exactly when the reference period
      contains it. */
  lemma DSTIntendedMeetsReference(c: Config, t: Time)
    requires Valid(c) && Canonical(t) && Minutes(t) + c.dstadv <= LastMinute
    ensures Canonical(DSTIntended(c, t))
    ensures Minutes(DSTIntended(c, t)) == Minutes(t) + (if InDstReference(c, t) then c.dstadv else 0)
  {
    InDstIntendedMeetsReference(c, t);
    if InDstIntended(c, t) {
      AdjustAdvancesExactly(t, c.dstadv);
    }
  }
}
