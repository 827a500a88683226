/** Calendar arithmetic of the engine: the Gregorian leap-year rule, month
    lengths, the March-based linear day count and the day of the week. */
module Calendar {
  import opened Numeric
  import opened TimeBuffer

  /** `IsLeapYear`: divisible by 4 and not by 100, or divisible by 400.
      Divisibility tests give the same answer under C's truncating `%` and
      Dafny's Euclidean `%`, so this holds for every sign of `yr`. */
  function IsLeapYear(yr: int): (r: bool)
    ensures yr >= 1 ==> YearDays(yr) == YearDays(yr - 1) + (if r then 366 else 365)
  {
    var r := (yr % 4 == 0 && yr % 100 != 0) || yr % 400 == 0;
    if yr >= 1 then (LeapCorrectionStep(yr); r) else r
  }

  /** `LengthOfMonth`: February has 28 or 29 days by the leap-year rule of the
      full year; any other month has 31 days when it is odd up to July and
      even from August on, else 30. */
  function LengthOfMonth(t: Time): (n: byte)
    ensures 28 <= n <= 31
    ensures t.month == 2 ==> (n == 29 <==> IsLeapYear(Epoch + t.year))
  {
    var yr := t.year + Epoch;
    var mnth := t.month;
    if mnth == 2 then
      (if IsLeapYear(yr) then 29 else 28)
    else
      var odd := mnth % 2 == 1;
      var odd' := if mnth > 7 then !odd else odd;
      if odd' then 31 else 30
  }

  /** Days of January through December in a common year. */
  const CommonYearDays: seq<int> := [31, 28, 31, 30, 31, 30, 31, 31, 30, 31, 30, 31]

  /** `DayNumber`: the linear day count of a date, with the year starting in
      March so that February's leap day ends it. Year arithmetic is that of
      an `uint16_t`. */
  function DayNumber(y: u16, m: byte, d: byte): int
  {
    var m' := (m + 9) % 12;
    var y' := (y - m' / 10) % 0x1_0000;
    365 * y' + y' / 4 - y' / 100 + y' / 400 + (m' * 306 + 5) / 10 + d - 1
  }

  /** Day number of the date held in a buffer. */
  function DayNumberOf(t: Time): int
  {
    DayNumber(Epoch + t.year, t.month, t.day)
  }

  /** Day number of the first day of the buffer's month. */
  function MonthStart(t: Time): int
  {
    DayNumber(Epoch + t.year, t.month, 1)
  }

  /** A buffer whose month is a calendar month and whose day lies in it. */
  predicate ValidDate(t: Time)
  {
    1 <= t.month <= 12 && 1 <= t.day <= LengthOfMonth(t)
  }

  /** `DayOfWeek`: a Zeller-style congruence with January and February
      counted as months 13 and 14 of the previous year; 1 is Sunday and 7 is
      Saturday. */
  function DayOfWeek(t: Time): (r: byte)
    ensures 1 <= r <= 7
  {
    var year := t.year + Epoch;
    var month := if t.month < 3 then t.month + 12 else t.month;
    var year' := if t.month < 3 then year - 1 else year;
    var day := ((13 * month + 3) / 5 + t.day + year' + year' / 4 - year' / 100 + year' / 400) % 7;
    var day' := (day + 1) % 7;
    day' + 1
  }

  /** The calendar successor of a valid date, as a reference for the day
      count: the next day of the month, else the first of the next month,
      else January 1 of the next year. */
  function NextDate(t: Time): (u: Time)
    requires ValidDate(t) && t.year < 0xFF
  {
    if t.day < LengthOfMonth(t) then t.(day := t.day + 1)
    else if t.month < 12 then t.(day := 1, month := t.month + 1)
    else t.(day := 1, month := 1, year := t.year + 1)
  }

  /** For the twelve calendar months, LengthOfMonth gives the familiar
      table, with one more day in February exactly in leap years. */
  lemma LengthOfMonthMatchesTable(t: Time)
    requires 1 <= t.month <= 12
    ensures LengthOfMonth(t) == CommonYearDays[t.month - 1] + (if t.month == 2 && IsLeapYear(Epoch + t.year) then 1 else 0)
  {
  }

  /** Days contributed by the whole years before a March-based year `y`,
      with the Gregorian leap-day corrections. */
  function YearDays(y: int): int
  {
    365 * y + y / 4 - y / 100 + y / 400
  }

  /** Days from March 1 to the first of each month, January and February
      belonging to the March-based year before. */
  const MonthOffsets: seq<int> := [306, 337, 0, 31, 61, 92, 122, 153, 184, 214, 245, 275]

  /** The first term `(13 * month + 3) / 5` of DayOfWeek for each month. */
  const ZellerOffsets: seq<int> := [34, 37, 8, 11, 13, 16, 18, 21, 24, 26, 29, 31]

  /** The March-based year of a date: January and February belong to the
      year before. */
  function MarchYear(y: int, m: int): int
  {
    if m < 3 then y - 1 else y
  }

  /** DayNumber split into whole March-based years, whole months and days. */
  lemma DayNumberByParts(y: u16, m: byte, d: byte)
    requires y >= 1 && 1 <= m <= 12
    ensures DayNumber(y, m, d) == YearDays(MarchYear(y, m)) + MonthOffsets[m - 1] + d - 1
  {
    var m' := (m + 9) % 12;
    assert m' == (if m < 3 then m + 9 else m - 3);
    assert y - m' / 10 == MarchYear(y, m);
    assert (y - m' / 10) % 0x1_0000 == MarchYear(y, m);
    MonthOffsetFormula(m);
  }

  /** The month term `(m' * 306 + 5) / 10` of DayNumber, m' counting from
      March, is the table of month offsets. */
  lemma MonthOffsetFormula(m: int)
    requires 1 <= m <= 12
    ensures ((m + 9) % 12 * 306 + 5) / 10 == MonthOffsets[m - 1]
  {
    if m == 1 {} else if m == 2 {} else if m == 3 {} else if m == 4 {}
    else if m == 5 {} else if m == 6 {} else if m == 7 {} else if m == 8 {}
    else if m == 9 {} else if m == 10 {} else if m == 11 {} else {}
  }

  /** DayOfWeek split the same way. */
  lemma DayOfWeekByParts(t: Time)
    requires 1 <= t.month <= 12
    ensures var y' := MarchYear(Epoch + t.year, t.month);
      DayOfWeek(t) - 1 == (ZellerOffsets[t.month - 1] + t.day + YearDays(y') - 364 * y' + 1) % 7
  {
    var y' := MarchYear(Epoch + t.year, t.month);
    var inner := ZellerOffsets[t.month - 1] + t.day + YearDays(y') - 364 * y';
    assert DayOfWeek(t) - 1 == (inner % 7 + 1) % 7;
    ModSuccessor(inner, 7);
  }

  /** The month terms of DayNumber and DayOfWeek agree modulo seven. */
  lemma OffsetsAgreeModSeven(m: int)
    requires 1 <= m <= 12
    ensures (MonthOffsets[m - 1] - ZellerOffsets[m - 1] + 1) % 7 == 0
  {
  }

  /** Adding a multiple of `n` does not change a remainder modulo `n`. */
  lemma ModAddMultiple(a: int, k: int, n: int)
    requires n > 0
    ensures (a + k * n) % n == a % n
  {
    DivModUnique(a + k * n, n, a / n + k, a % n);
  }

  /** Reducing before or after a successor step gives the same remainder. */
  lemma ModSuccessor(a: int, n: int)
    requires n > 0
    ensures (a % n + 1) % n == (a + 1) % n
  {
    ModAddMultiple(a % n + 1, a / n, n);
  }

  /** Counting from 1 to `y` and from 1 to `y - 1`, the multiples of `k`
      differ by one exactly when `y` is itself a multiple. */
  lemma QuotientStep(y: int, k: int)
    requires y >= 1 && k > 0
    ensures y / k - (y - 1) / k == (if y % k == 0 then 1 else 0)
  {
    var q := y / k;
    var r := y % k;
    assert y == q * k + r;
    if r == 0 {
      DivModUnique(y - 1, k, q - 1, k - 1);
    } else {
      DivModUnique(y - 1, k, q, r - 1);
    }
  }

  /** The leap-year corrections of the day count advance by one from year
      `y - 1` to year `y` exactly when `y` is a leap year. */
  lemma LeapCorrectionStep(y: int)
    requires y >= 1
    ensures YearDays(y) == YearDays(y - 1) + 365 + (if (y % 4 == 0 && y % 100 != 0) || y % 400 == 0 then 1 else 0)
  {
    QuotientStep(y, 4);
    QuotientStep(y, 100);
    QuotientStep(y, 400);
    if y % 400 == 0 {
      assert y % 100 == 0 && y % 4 == 0 by {
        var q := y / 400;
        assert y == 400 * q;
        DivModUnique(y, 100, 4 * q, 0);
        DivModUnique(y, 4, 100 * q, 0);
      }
    } else if y % 100 == 0 {
      assert y % 4 == 0 by {
        var q := y / 100;
        assert y == 100 * q;
        DivModUnique(y, 4, 25 * q, 0);
      }
    }
  }

  /** Within a month the day count moves in step with the day of the month. */
  lemma DayNumberWithinMonth(t: Time)
    ensures DayNumberOf(t) == MonthStart(t) + t.day - 1
  {
  }

  /** The first days of consecutive months are exactly LengthOfMonth apart,
      including the step from December to January of the next year. */
  lemma MonthStartGap(t: Time)
    requires 1 <= t.month <= 12 && t.year < 0xFF
    ensures t.month < 12 ==> MonthStart(t.(month := t.month + 1)) == MonthStart(t) + LengthOfMonth(t)
    ensures t.month == 12 ==> MonthStart(t.(month := 1, year := t.year + 1)) == MonthStart(t) + LengthOfMonth(t)
  {
    if t.month < 12 {
      MonthStartGapWithinYear(t);
    } else {
      MonthStartGapDecember(t);
    }
  }

  /** The gap from one month to the next within a year. */
  lemma MonthStartGapWithinYear(t: Time)
    requires 1 <= t.month < 12
    ensures MonthStart(t.(month := t.month + 1)) == MonthStart(t) + LengthOfMonth(t)
  {
    if t.month == 2 {
      MonthStartGapFebruary(t);
    } else {
      MonthStartGapCommon(t);
    }
  }

  /** From February to March the March-based year changes, and the gap is
      28 days plus the leap day. */
  lemma MonthStartGapFebruary(t: Time)
    requires t.month == 2
    ensures MonthStart(t.(month := 3)) == MonthStart(t) + LengthOfMonth(t)
  {
    var y := Epoch + t.year;
    assert MonthStart(t) == YearDays(y - 1) + 337 by {
      DayNumberByParts(y, 2, 1);
    }
    assert MonthStart(t.(month := 3)) == YearDays(y) by {
      DayNumberByParts(y, 3, 1);
    }
    assert LengthOfMonth(t) == 28 + (if IsLeapYear(y) then 1 else 0);
    LeapCorrectionStep(y);
  }

  /** Between two months of one March-based year the gap is the common
      length of the earlier month. */
  lemma MonthStartGapCommon(t: Time)
    requires 1 <= t.month < 12 && t.month != 2
    ensures MonthStart(t.(month := t.month + 1)) == MonthStart(t) + LengthOfMonth(t)
  {
    var y := Epoch + t.year;
    var m := t.month;
    var y' := MarchYear(y, m);
    assert MarchYear(y, m + 1) == y';
    assert MonthStart(t) == YearDays(y') + MonthOffsets[m - 1] by {
      DayNumberByParts(y, m, 1);
    }
    assert MonthStart(t.(month := m + 1)) == YearDays(y') + MonthOffsets[m] by {
      DayNumberByParts(y, m + 1, 1);
    }
    assert LengthOfMonth(t) == CommonYearDays[m - 1] by {
      LengthOfMonthMatchesTable(t);
    }
    OffsetStep(m);
  }

  /** The gap from December to January of the next year. */
  lemma MonthStartGapDecember(t: Time)
    requires t.month == 12 && t.year < 0xFF
    ensures MonthStart(t.(month := 1, year := t.year + 1)) == MonthStart(t) + LengthOfMonth(t)
  {
    var y := Epoch + t.year;
    assert MonthStart(t) == YearDays(y) + 275 by {
      DayNumberByParts(y, 12, 1);
    }
    assert MonthStart(t.(month := 1, year := t.year + 1)) == YearDays(y) + 306 by {
      DayNumberByParts(y + 1, 1, 1);
    }
  }

  /** Outside the step from February to March, the March-based offsets of
      consecutive months within a year differ by the earlier month's common
      length. */
  lemma OffsetStep(m: int)
    requires 1 <= m <= 11 && m != 2
    ensures MonthOffsets[m] == MonthOffsets[m - 1] + CommonYearDays[m - 1]
  {
  }

  /** Twelve months on, January 1 lies 365 days later, or 366 when the year
      that ends is a leap year. */
  lemma YearLength(t: Time)
    requires t.month == 1 && t.day == 1 && t.year < 0xFF
    ensures DayNumberOf(t.(year := t.year + 1)) - DayNumberOf(t) == 365 + (if IsLeapYear(Epoch + t.year) then 1 else 0)
  {
    DayNumberByParts(Epoch + t.year, 1, 1);
    DayNumberByParts(Epoch + t.year + 1, 1, 1);
    LeapCorrectionStep(Epoch + t.year);
  }

  /** The day count advances by exactly one from each valid date to the
      next, also across month and year ends. */
  lemma DayNumberSuccessor(t: Time)
    requires ValidDate(t) && t.year < 0xFF
    ensures ValidDate(NextDate(t))
    ensures DayNumberOf(NextDate(t)) == DayNumberOf(t) + 1
  {
    DayNumberWithinMonth(t);
    if t.day == LengthOfMonth(t) {
      MonthStartGap(t);
    }
  }

  /** The weekday is the day count shifted by three, modulo seven. */
  lemma DayOfWeekFromDayNumber(t: Time)
    requires 1 <= t.month <= 12
    ensures DayOfWeek(t) - 1 == (DayNumberOf(t) + 3) % 7
  {
    var y' := MarchYear(Epoch + t.year, t.month);
    var m := t.month;
    var inner := ZellerOffsets[m - 1] + t.day + YearDays(y') - 364 * y' + 1;
    var diff := MonthOffsets[m - 1] - ZellerOffsets[m - 1] + 1;
    var k := diff / 7 + 52 * y';
    assert DayNumberOf(t) == YearDays(y') + MonthOffsets[m - 1] + t.day - 1 by {
      DayNumberByParts(Epoch + t.year, m, t.day);
    }
    assert DayOfWeek(t) - 1 == inner % 7 by {
      DayOfWeekByParts(t);
    }
    assert diff % 7 == 0 by {
      OffsetsAgreeModSeven(m);
    }
    assert DayNumberOf(t) + 3 == inner + k * 7;
    ModAddMultiple(inner, k, 7);
  }

  /** January 1, 2000 was a Saturday. */
  lemma Epoch2000IsSaturday()
    ensures DayOfWeek(Time(0, 0, 0, 1, 1, 0)) == 7
  {
  }

  /** From each valid date to the next the weekday advances by one, with
      Saturday followed by Sunday. */
  lemma DayOfWeekSuccessor(t: Time)
    requires ValidDate(t) && t.year < 0xFF
    ensures DayOfWeek(NextDate(t)) == DayOfWeek(t) % 7 + 1
  {
    var d := DayNumberOf(t);
    var u := NextDate(t);
    assert DayNumberOf(u) == d + 1 && ValidDate(u) by {
      DayNumberSuccessor(t);
    }
    assert DayOfWeek(t) - 1 == (d + 3) % 7 by {
      DayOfWeekFromDayNumber(t);
    }
    assert DayOfWeek(u) - 1 == (d + 4) % 7 by {
      DayOfWeekFromDayNumber(u);
    }
    ModSuccessor(d + 3, 7);
  }
}
