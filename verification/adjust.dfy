/** `Adjust`: adding a signed number of minutes to a time buffer and
    renormalising minute, hour, day, month and two-digit year. The minute and
    hour carries use C's truncating division while the remainders use the
    sign-corrected double modulo, exactly as the engine writes them. */
module Adjustment {
  import opened Numeric
  import opened TimeBuffer
  import opened Calendar

  /** The year step of the month carry: `++`, `+= 100` and `%= 100`, each on
      an `uint8_t`. */
  function IncYear(y: byte): (r: byte)
    ensures r < 100
    ensures y < 100 ==> r == (y + 1) % 100
  {
    ToByte(ToByte(y + 1) + 100) % 100
  }

  /** The year step of the month borrow: `--`, `+= 100` and `%= 100`, each on
      an `uint8_t`; from year 0 the decrement wraps to 255 and ends at 99. */
  function DecYear(y: byte): (r: byte)
    ensures r < 100
    ensures y < 100 ==> r == (y + 99) % 100
  {
    ToByte(ToByte(y - 1) + 100) % 100
  }

  /** One step of the carry loop: the month moves on, and past 12 it
      restarts at 1 in the next year. */
  function NextMonth(t: Time): (u: Time)
    ensures 1 <= t.month < 12 ==> u == t.(month := t.month + 1)
    ensures t.month == 12 && t.year < 99 ==> u == t.(month := 1, year := t.year + 1)
    ensures t.month == 12 && t.year == 99 ==> u == t.(month := 1, year := 0)
  {
    var m := ToByte(t.month + 1);
    if m > 12 then t.(month := 1, year := IncYear(t.year)) else t.(month := m)
  }

  /** One step of the borrow loop: the month moves back, and below 1 it
      restarts at 12 in the previous year. */
  function PrevMonth(t: Time): (u: Time)
    ensures 1 < t.month <= 12 ==> u == t.(month := t.month - 1)
    ensures t.month == 1 && 1 <= t.year < 100 ==> u == t.(month := 12, year := t.year - 1)
    ensures t.month == 1 && t.year == 0 ==> u == t.(month := 12, year := 99)
  {
    var m := ToByte(t.month - 1);
    if m < 1 then t.(month := 12, year := DecYear(t.year)) else t.(month := m)
  }

  /** The carry loop: while the day count exceeds the length of the current
      month, take that month off and move to the next. */
  function CarryForward(t: Time, tmp: int): (r: Time)
    requires tmp >= 1
    ensures 1 <= r.day <= LengthOfMonth(r)
    ensures r.second == t.second && r.minute == t.minute && r.hour == t.hour
    ensures 1 <= t.month <= 12 ==> 1 <= r.month <= 12
    ensures r.year == t.year || r.year < 100
    ensures tmp <= LengthOfMonth(t) ==> r == t.(day := tmp)
    decreases tmp
  {
    var mod := LengthOfMonth(t);
    if tmp > mod then CarryForward(NextMonth(t), tmp - mod) else t.(day := tmp)
  }

  /** The borrow loop: while the day count is below 1, step back a month and
      add that month's length. */
  function CarryBackward(t: Time, tmp: int): (r: Time)
    requires tmp < 1
    ensures 1 <= r.day <= LengthOfMonth(r)
    ensures r.second == t.second && r.minute == t.minute && r.hour == t.hour
    ensures 1 <= t.month <= 12 ==> 1 <= r.month <= 12
    ensures r.year == t.year || r.year < 100
    decreases -tmp
  {
    var t' := PrevMonth(t);
    var mod := LengthOfMonth(t');
    var t'' := t'.(day := ToByte(tmp + mod));
    if tmp + mod < 1 then CarryBackward(t'', tmp + mod) else t''
  }

  /** The day part of Adjust: the day field receives the raw count, then the
      carry or the borrow loop runs when the count leaves the month. */
  function CarryDays(t: Time, tmp: int): (r: Time)
    ensures 1 <= r.day <= LengthOfMonth(r)
    ensures r.second == t.second && r.minute == t.minute && r.hour == t.hour
    ensures 1 <= t.month <= 12 ==> 1 <= r.month <= 12
    ensures r.year == t.year || r.year < 100
    ensures 1 <= tmp <= LengthOfMonth(t) ==> r == t.(day := tmp)
  {
    var mod := LengthOfMonth(t);
    var t' := t.(day := ToByte(tmp));
    if tmp > mod then CarryForward(t', tmp)
    else if tmp < 1 then CarryBackward(t', tmp)
    else t'
  }

  /** `Adjust`: minute and hour come out as floor remainders, in 0..59 and
      0..23 for every offset; the day lies in its month; a calendar month
      stays a calendar month; the year is untouched or in 0..99; the second
      is never touched. */
  function Adjust(t: Time, offset: int): (r: Time)
    ensures r.second == t.second
    ensures r.minute == (t.minute + offset) % 60
    ensures r.hour < 24
    ensures 1 <= r.day <= LengthOfMonth(r)
    ensures 1 <= t.month <= 12 ==> 1 <= r.month <= 12
    ensures r.year == t.year || r.year < 100
  {
    var tmp := t.minute + offset;
    var nxt := TruncDiv(tmp, 60);
    var minute := FoldMod(tmp, 60);
    var tmp' := nxt + t.hour;
    var nxt' := TruncDiv(tmp', 24);
    var hour := FoldMod(tmp', 24);
    CarryDays(t.(minute := minute, hour := hour), nxt' + t.day)
  }

  /** A buffer holding a canonical instant of 2000..2099. */
  predicate Canonical(t: Time)
  {
    t.minute < 60 && t.hour < 24 && ValidDate(t) && t.year < 100
  }

  /** Minutes elapsed at the buffer's instant on the day-count scale. */
  function Minutes(t: Time): int
  {
    DayNumberOf(t) * 1440 + t.hour * 60 + t.minute
  }

  /** Day numbers of January 1, 2000 and December 31, 2099. */
  const FirstDay: int := DayNumber(2000, 1, 1)
  const LastDay: int := DayNumber(2099, 12, 31)

  /** The first and last minute of the century the two-digit year spans. */
  const FirstMinute: int := FirstDay * 1440
  const LastMinute: int := LastDay * 1440 + 1439

  /** The carry loop lands on the date `tmp - 1` days after the first of
      the month, as long as that date is not past the end of 2099. */
  lemma {:induction false} CarryForwardDayNumber(t: Time, tmp: int)
    requires 1 <= t.month <= 12 && t.year < 100 && tmp >= 1
    requires MonthStart(t) + tmp - 1 <= LastDay
    ensures ValidDate(CarryForward(t, tmp)) && CarryForward(t, tmp).year < 100
    ensures DayNumberOf(CarryForward(t, tmp)) == MonthStart(t) + tmp - 1
    decreases tmp
  {
    var mod := LengthOfMonth(t);
    if tmp > mod {
      assert !(t.month == 12 && t.year == 99);
      var u := NextMonth(t);
      NextMonthStart(t);
      CarryForwardDayNumber(u, tmp - mod);
      assert CarryForward(t, tmp) == CarryForward(u, tmp - mod);
    } else {
      assert CarryForward(t, tmp) == t.(day := tmp);
      DayNumberWithinMonth(t.(day := tmp));
    }
  }

  /** Before the end of 2099, one step of the carry loop moves the first of
      the month on by the length of the month left behind. */
  lemma NextMonthStart(t: Time)
    requires 1 <= t.month <= 12 && t.year < 100 && !(t.month == 12 && t.year == 99)
    ensures 1 <= NextMonth(t).month <= 12 && NextMonth(t).year < 100
    ensures MonthStart(NextMonth(t)) == MonthStart(t) + LengthOfMonth(t)
  {
    MonthStartGap(t);
  }

  /** The borrow loop lands on the date `tmp - 1` days after the first of
      the month (`tmp` being zero or negative), as long as that date is not
      before 2000. */
  lemma {:induction false} CarryBackwardDayNumber(t: Time, tmp: int)
    requires 1 <= t.month <= 12 && t.year < 100 && tmp < 1
    requires FirstDay <= MonthStart(t) + tmp - 1
    ensures ValidDate(CarryBackward(t, tmp)) && CarryBackward(t, tmp).year < 100
    ensures DayNumberOf(CarryBackward(t, tmp)) == MonthStart(t) + tmp - 1
    decreases -tmp
  {
    var u := PrevMonth(t);
    var mod := LengthOfMonth(u);
    assert 1 <= u.month <= 12 && u.year < 100 && MonthStart(t) == MonthStart(u) + mod by {
      PrevMonthStart(t);
    }
    var u' := u.(day := ToByte(tmp + mod));
    assert MonthStart(u') == MonthStart(u);
    if tmp + mod < 1 {
      CarryBackwardDayNumber(u', tmp + mod);
      assert CarryBackward(t, tmp) == CarryBackward(u', tmp + mod);
    } else {
      assert CarryBackward(t, tmp) == u';
      DayNumberWithinMonth(u');
    }
  }

  /** After January 2000, one step of the borrow loop moves the first of
      the month back by the length of the month stepped into. */
  lemma PrevMonthStart(t: Time)
    requires 1 <= t.month <= 12 && t.year < 100 && FirstDay < MonthStart(t)
    ensures 1 <= PrevMonth(t).month <= 12 && PrevMonth(t).year < 100
    ensures MonthStart(t) == MonthStart(PrevMonth(t)) + LengthOfMonth(PrevMonth(t))
  {
    assert !(t.month == 1 && t.year == 0) by {
      assert t.month == 1 && t.year == 0 ==> MonthStart(t) == FirstDay;
    }
    if t.month > 1 {
      var u := t.(month := t.month - 1);
      MonthStartGap(u);
      assert u.(month := u.month + 1) == t;
    } else {
      var u := t.(month := 12, year := t.year - 1);
      MonthStartGap(u);
      assert u.(month := 1, year := u.year + 1) == t;
    }
  }

  /** The day part of Adjust lands `tmp - 1` days after the first of the
      month whenever that date stays within 2000..2099. */
  lemma CarryDaysDayNumber(t: Time, tmp: int)
    requires 1 <= t.month <= 12 && t.year < 100
    requires FirstDay <= MonthStart(t) + tmp - 1 <= LastDay
    ensures ValidDate(CarryDays(t, tmp)) && CarryDays(t, tmp).year < 100
    ensures DayNumberOf(CarryDays(t, tmp)) == MonthStart(t) + tmp - 1
  {
    var t' := t.(day := ToByte(tmp));
    assert MonthStart(t') == MonthStart(t);
    if tmp > LengthOfMonth(t) {
      CarryForwardDayNumber(t', tmp);
    } else if tmp < 1 {
      CarryBackwardDayNumber(t', tmp);
    } else {
      DayNumberWithinMonth(t');
    }
  }

  /** The hour, in minutes (60), that Adjust gains when the minute sum is
      negative and not a whole number of hours: the truncating hour carry is
      then one too large. */
  function HourSlip(t: Time, offset: int): int
  {
    var tmp := t.minute + offset;
    if tmp < 0 && tmp % 60 != 0 then 60 else 0
  }

  /** The day, in minutes (1440), that Adjust gains in the same way
      through the day carry. */
  function DaySlip(t: Time, offset: int): int
  {
    var tmp := TruncDiv(t.minute + offset, 60) + t.hour;
    if tmp < 0 && tmp % 24 != 0 then 1440 else 0
  }

  /** Setting the clock of a buffer from a count of minutes since the
      start of its day: minute and hour from the count, then the day carry
      by whole days of the count. */
  function Recarry(t: Time, total: int): (r: Time)
    ensures r.second == t.second && r.minute == total % 60 && r.hour == total / 60 % 24
  {
    CarryDays(t.(minute := total % 60, hour := total / 60 % 24), total / 1440 + t.day)
  }

  /** A count of minutes splits into whole days, hours of the day and
      minutes of the hour. */
  lemma DayCarries(total: int)
    ensures total == total / 1440 * 1440 + total / 60 % 24 * 60 + total % 60
  {
    var h := total / 60;
    assert total == 60 * h + total % 60;
    assert h == 24 * (h / 24) + h % 24;
    DivModUnique(total, 1440, h / 24, h % 24 * 60 + total % 60);
  }

  /** Within 2000..2099, setting the clock from a minute count lands on the
      instant that many minutes after the start of the buffer's day. */
  lemma RecarryShift(t: Time, total: int)
    requires ValidDate(t) && t.year < 100
    requires FirstMinute <= DayNumberOf(t) * 1440 + total <= LastMinute
    ensures Canonical(Recarry(t, total))
    ensures Minutes(Recarry(t, total)) == DayNumberOf(t) * 1440 + total
  {
    var dn := DayNumberOf(t);
    var q := total / 1440;
    var t2 := t.(minute := total % 60, hour := total / 60 % 24);
    assert total == q * 1440 + (total / 60 % 24) * 60 + total % 60 by {
      DayCarries(total);
    }
    assert FirstDay <= dn + q <= LastDay;
    assert MonthStart(t2) + (q + t.day) - 1 == dn + q by {
      DayNumberWithinMonth(t);
    }
    var r := Recarry(t, total);
    assert ValidDate(r) && r.year < 100 && DayNumberOf(r) == dn + q by {
      CarryDaysDayNumber(t2, q + t.day);
    }
  }

  /** Adjust is the clock setting from the minutes since the start of the
      day, the offset and the two slips of the truncating carries. */
  lemma AdjustIsRecarry(t: Time, offset: int)
    ensures Adjust(t, offset) == Recarry(t, t.hour * 60 + t.minute + offset + HourSlip(t, offset) + DaySlip(t, offset))
  {
    var tmp := t.minute + offset;
    var tmp' := TruncDiv(tmp, 60) + t.hour;
    var total := t.hour * 60 + t.minute + offset + HourSlip(t, offset) + DaySlip(t, offset);
    assert FoldMod(tmp, 60) == total % 60 && FoldMod(tmp', 24) == total / 60 % 24
      && TruncDiv(tmp', 24) == total / 1440 by {
      assert HourSlip(t, offset) == (if tmp < 0 && tmp % 60 != 0 then 60 else 0);
      assert DaySlip(t, offset) == (if tmp' < 0 && tmp' % 24 != 0 then 1440 else 0);
      TruncatedCarries(t.hour, tmp);
    }
    assert Adjust(t, offset) == CarryDays(t.(minute := total % 60, hour := total / 60 % 24), total / 1440 + t.day);
    assert Recarry(t, total) == CarryDays(t.(minute := total % 60, hour := total / 60 % 24), total / 1440 + t.day);
  }

  /** The arithmetic of Adjust's two truncating carries: the minute and
      hour remainders and the day carry are those of the minute count
      since the start of the day, enlarged by the two slips. */
  lemma TruncatedCarries(hour: int, tmp: int)
    ensures var tmp' := TruncDiv(tmp, 60) + hour;
      var total := hour * 60 + tmp + (if tmp < 0 && tmp % 60 != 0 then 60 else 0)
        + (if tmp' < 0 && tmp' % 24 != 0 then 1440 else 0);
      FoldMod(tmp, 60) == total % 60 && FoldMod(tmp', 24) == total / 60 % 24
      && TruncDiv(tmp', 24) == total / 1440
  {
    var s1 := if tmp < 0 && tmp % 60 != 0 then 1 else 0;
    var nxt := TruncDiv(tmp, 60);
    var tmp' := nxt + hour;
    var s2 := if tmp' < 0 && tmp' % 24 != 0 then 1 else 0;
    var nxt' := TruncDiv(tmp', 24);
    var total := hour * 60 + tmp + 60 * s1 + 1440 * s2;
    assert total / 60 == tmp' + 24 * s2 && total % 60 == tmp % 60 by {
      assert tmp == 60 * (tmp / 60) + tmp % 60;
      DivModUnique(total, 60, tmp' + 24 * s2, tmp % 60);
    }
    assert total / 60 / 24 == nxt' && total / 60 % 24 == tmp' % 24 by {
      assert tmp' == 24 * (tmp' / 24) + tmp' % 24;
      DivModUnique(tmp' + 24 * s2, 24, nxt', tmp' % 24);
    }
    assert total / 1440 == total / 60 / 24 by {
      DayCarries(total);
      DivModUnique(total, 1440, total / 60 / 24, total / 60 % 24 * 60 + total % 60);
    }
  }

  /** With floor carries there is no slip: AdjustFloored sets the clock from
      the minutes since the start of the day plus the offset. */
  lemma AdjustFlooredIsRecarry(t: Time, offset: int)
    ensures AdjustFloored(t, offset) == Recarry(t, t.hour * 60 + t.minute + offset)
  {
    var tmp := t.minute + offset;
    var tmp' := tmp / 60 + t.hour;
    var total := t.hour * 60 + tmp;
    assert total / 60 == tmp' && total % 60 == tmp % 60 by {
      assert tmp == 60 * (tmp / 60) + tmp % 60;
      DivModUnique(total, 60, tmp', tmp % 60);
    }
    assert total / 1440 == tmp' / 24 by {
      DayCarries(total);
      assert tmp' == 24 * (tmp' / 24) + tmp' % 24;
      DivModUnique(total, 1440, tmp' / 24, tmp' % 24 * 60 + total % 60);
    }
  }

  /** What Adjust does to the instant: it moves a canonical buffer by the
      offset plus one hour when the minute sum is negative and not a whole
      number of hours, plus one day when the hour sum is negative and not a
      whole number of days. */
  lemma AdjustShift(t: Time, offset: int)
    requires Canonical(t)
    requires FirstMinute <= Minutes(t) + offset + HourSlip(t, offset) + DaySlip(t, offset) <= LastMinute
    ensures Canonical(Adjust(t, offset))
    ensures Minutes(Adjust(t, offset)) == Minutes(t) + offset + HourSlip(t, offset) + DaySlip(t, offset)
  {
    var slips := HourSlip(t, offset) + DaySlip(t, offset);
    var total := t.hour * 60 + t.minute + offset + slips;
    AdjustIsRecarry(t, offset);
    assert Canonical(Recarry(t, total)) && Minutes(Recarry(t, total)) == DayNumberOf(t) * 1440 + total by {
      RecarryShift(t, total);
    }
  }

  /** For a non-negative offset Adjust moves a canonical instant by exactly
      the offset, as long as it stays within 2099. */
  lemma AdjustAdvancesExactly(t: Time, offset: int)
    requires Canonical(t) && offset >= 0 && Minutes(t) + offset <= LastMinute
    ensures Canonical(Adjust(t, offset))
    ensures Minutes(Adjust(t, offset)) == Minutes(t) + offset
  {
    DayNumberInCentury(t);
    AdjustShift(t, offset);
  }

  /** Adding zero minutes leaves a buffer whose minute, hour and day are in
      range unchanged. */
  lemma AdjustZeroIsIdentity(t: Time)
    requires t.minute < 60 && t.hour < 24 && 1 <= t.day <= LengthOfMonth(t)
    ensures Adjust(t, 0) == t
  {
  }

  /** Adjusting midnight of a valid day by less than a day's minutes only
      sets the clock: hour and minute become the quotient and remainder of
      the offset by 60, and the date stays. */
  lemma AdjustWithinDay(t: Time, offset: int)
    requires t.hour == 0 && t.minute == 0 && 1 <= t.day <= LengthOfMonth(t)
    requires 0 <= offset < 1440
    ensures Adjust(t, offset) == t.(hour := offset / 60, minute := offset % 60)
  {
    var h := offset / 60;
    var t2 := t.(minute := offset % 60, hour := h);
    assert Adjust(t, offset) == CarryDays(t2, t.day) by {
      assert TruncDiv(offset, 60) == h && FoldMod(h, 24) == h && TruncDiv(h, 24) == 0;
    }
    assert 1 <= t.day <= LengthOfMonth(t2) by {
      SameMonthSameLength(t2, t);
    }
    assert CarryDays(t2, t.day) == t2;
  }

  /** Half past an hour minus sixty minutes: the minute sum is -30, the
      truncating carry is 0 instead of -1, and the buffer comes back
      unchanged instead of one hour earlier. */
  lemma AdjustNegativeCarryExample()
    ensures var t := Time(0, 30, 5, 10, 6, 20);
      Adjust(t, -60) == t && Minutes(Adjust(t, -60)) != Minutes(t) - 60
  {
    var t := Time(0, 30, 5, 10, 6, 20);
    assert TruncDiv(-30, 60) == 0;
  }

  /** Adjust with floor carries, the evidently intended arithmetic: the
      quotient and the remainder of each step are taken the same way. */
  function AdjustFloored(t: Time, offset: int): (r: Time)
    ensures r.second == t.second
    ensures r.minute == (t.minute + offset) % 60
    ensures r.hour < 24
    ensures 1 <= r.day <= LengthOfMonth(r)
    ensures 1 <= t.month <= 12 ==> 1 <= r.month <= 12
    ensures r.year == t.year || r.year < 100
  {
    var tmp := t.minute + offset;
    var tmp' := tmp / 60 + t.hour;
    CarryDays(t.(minute := tmp % 60, hour := tmp' % 24), tmp' / 24 + t.day)
  }

  /** With floor carries, any offset moves a canonical instant by exactly the
      offset, as long as it stays within 2000..2099. */
  lemma AdjustFlooredShift(t: Time, offset: int)
    requires Canonical(t)
    requires FirstMinute <= Minutes(t) + offset <= LastMinute
    ensures Canonical(AdjustFloored(t, offset))
    ensures Minutes(AdjustFloored(t, offset)) == Minutes(t) + offset
  {
    var total := t.hour * 60 + t.minute + offset;
    var r := AdjustFloored(t, offset);
    assert r == Recarry(t, total) by {
      AdjustFlooredIsRecarry(t, offset);
    }
    assert Canonical(r) && Minutes(r) == DayNumberOf(t) * 1440 + total by {
      RecarryShift(t, total);
    }
  }

  /** With floor carries, going forward and back by the same offset returns
      the original buffer. */
  lemma AdjustFlooredRoundTrip(t: Time, offset: int)
    requires Canonical(t)
    requires FirstMinute <= Minutes(t) + offset <= LastMinute
    ensures AdjustFloored(AdjustFloored(t, offset), -offset) == t
  {
    var u := AdjustFloored(t, offset);
    assert Canonical(u) && Minutes(u) == Minutes(t) + offset by {
      AdjustFlooredShift(t, offset);
    }
    assert FirstMinute <= Minutes(t) <= LastMinute by {
      DayNumberInCentury(t);
    }
    AdjustFlooredBack(t, u, offset);
  }

  /** A canonical buffer `u` lying `offset` minutes after a canonical `t`,
      with the same second, goes back to `t` when adjusted by the negated
      offset. */
  lemma AdjustFlooredBack(t: Time, u: Time, offset: int)
    requires Canonical(t) && Canonical(u) && Minutes(u) == Minutes(t) + offset
    requires u.second == t.second
    requires FirstMinute <= Minutes(t) <= LastMinute
    ensures AdjustFloored(u, -offset) == t
  {
    AdjustFlooredShift(u, -offset);
    MinutesInjective(AdjustFloored(u, -offset), t);
  }

  /** Whenever neither carry is taken from a negative non-multiple, Adjust
      and its floor-carry counterpart agree. */
  lemma AdjustAgreesWithFloored(t: Time, offset: int)
    requires HourSlip(t, offset) == 0 && DaySlip(t, offset) == 0
    ensures Adjust(t, offset) == AdjustFloored(t, offset)
  {
  }

  /** The month of a buffer counted from January 2000. */
  function MonthIndex(t: Time): int
  {
    12 * t.year + t.month - 1
  }

  /** A date's month start is that of its month index. */
  lemma MonthAtIndex(t: Time)
    requires 1 <= t.month <= 12 && t.year < 100
    ensures MonthAt(MonthIndex(t)) == t.(second := 0, minute := 0, hour := 0, day := 1)
    ensures MonthStart(t) == MonthStart(MonthAt(MonthIndex(t)))
  {
    DivModUnique(MonthIndex(t), 12, t.year, t.month - 1);
  }

  /** The first day of the `k`-th month counted from January 2000. */
  function MonthAt(k: nat): (t: Time)
    requires k < 1200
    ensures MonthIndex(t) == k && 1 <= t.month <= 12 && t.year < 100
  {
    Time(0, 0, 0, 1, k % 12 + 1, k / 12)
  }

  /** Day number of the first of the `k`-th month counted from January
      2000, obtained by adding up month lengths. */
  function MonthStartAt(k: nat): int
    requires k < 1200
  {
    if k == 0 then FirstDay else MonthStartAt(k - 1) + LengthOfMonth(MonthAt(k - 1))
  }

  /** Adding up month lengths from January 2000 reaches the first of every
      month of the century. */
  lemma {:induction false} MonthStartAtIsMonthStart(t: Time)
    requires 1 <= t.month <= 12 && t.year < 100
    ensures MonthStartAt(MonthIndex(t)) == MonthStart(t)
    decreases MonthIndex(t)
  {
    var k := MonthIndex(t);
    if k > 0 {
      var p := PrevMonth(t);
      PrevMonthIndex(t);
      MonthStartAtIsMonthStart(p);
      NextMonthStart(p);
      LengthOfMonthAt(p);
    }
  }

  /** Stepping back a month from a month after January 2000 lowers the month
      index by one, and stepping forward again returns. */
  lemma PrevMonthIndex(t: Time)
    requires 1 <= t.month <= 12 && t.year < 100 && MonthIndex(t) > 0
    ensures 1 <= PrevMonth(t).month <= 12 && PrevMonth(t).year < 100
    ensures MonthIndex(PrevMonth(t)) == MonthIndex(t) - 1
    ensures !(PrevMonth(t).month == 12 && PrevMonth(t).year == 99)
    ensures NextMonth(PrevMonth(t)) == t
  {
  }

  /** The month at a buffer's index has the buffer's month length. */
  lemma LengthOfMonthAt(t: Time)
    requires 1 <= t.month <= 12 && t.year < 100
    ensures LengthOfMonth(MonthAt(MonthIndex(t))) == LengthOfMonth(t)
  {
    var u := MonthAt(MonthIndex(t));
    assert u.month == t.month && u.year == t.year by {
      MonthAtIndex(t);
    }
    SameMonthSameLength(u, t);
  }

  /** The month length depends on the month and the year only. */
  lemma SameMonthSameLength(a: Time, b: Time)
    requires a.month == b.month && a.year == b.year
    ensures LengthOfMonth(a) == LengthOfMonth(b)
  {
  }

  /** Later months start on later days. */
  lemma {:induction false} MonthStartAtMonotone(i: nat, j: nat)
    requires i <= j < 1200
    ensures MonthStartAt(i) <= MonthStartAt(j)
    decreases j - i
  {
    if i < j {
      MonthStartAtMonotone(i, j - 1);
    }
  }

  /** A date's day number counted through the month starts, with its month
      length as the gap to the next month. */
  lemma DayNumberByMonthIndex(t: Time)
    requires ValidDate(t) && t.year < 100
    ensures DayNumberOf(t) == MonthStartAt(MonthIndex(t)) + t.day - 1
    ensures LengthOfMonth(t) == LengthOfMonth(MonthAt(MonthIndex(t)))
  {
    LengthOfMonthAt(t);
    MonthStartAtIsMonthStart(t);
    DayNumberWithinMonth(t);
  }

  /** December 2099 is the last month of the century. */
  lemma LastMonthStart()
    ensures LastDay == MonthStartAt(1199) + 30
  {
    MonthStartAtIsMonthStart(Time(0, 0, 0, 1, 12, 99));
  }

  /** Every canonical date of 2000..2099 has a day number between those of
      January 1, 2000 and December 31, 2099. */
  lemma DayNumberInCentury(t: Time)
    requires ValidDate(t) && t.year < 100
    ensures FirstDay <= DayNumberOf(t) <= LastDay
  {
    var k := MonthIndex(t);
    DayNumberByMonthIndex(t);
    LastMonthStart();
    MonthStartAtMonotone(0, k);
    if k < 1199 {
      MonthStartAtMonotone(k + 1, 1199);
    } else {
      assert t.month == 12;
    }
  }

  /** A date in an earlier month has a smaller day number. */
  lemma MonthIndexOrdersDays(a: Time, b: Time)
    requires ValidDate(a) && a.year < 100 && ValidDate(b) && b.year < 100
    ensures MonthIndex(a) < MonthIndex(b) ==> DayNumberOf(a) < DayNumberOf(b)
  {
    var ka := MonthIndex(a);
    var kb := MonthIndex(b);
    if ka < kb {
      DayNumberByMonthIndex(a);
      DayNumberByMonthIndex(b);
      MonthStartAtMonotone(ka + 1, kb);
    }
  }

  /** Two canonical buffers on the same minute agree in every field but the
      second. */
  lemma MinutesInjective(a: Time, b: Time)
    requires Canonical(a) && Canonical(b) && Minutes(a) == Minutes(b)
    ensures a.(second := b.second) == b
  {
    MonthIndexOrdersDays(a, b);
    MonthIndexOrdersDays(b, a);
    DayNumberWithinMonth(a);
    DayNumberWithinMonth(b);
  }
}
