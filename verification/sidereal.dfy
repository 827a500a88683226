/** Greenwich mean sidereal time in integer arithmetic: calendar seconds
    since January 1, 2000, 0:00 GMT, scaled by the ratio of sidereal to
    calendar time, offset by the sidereal time at that epoch and reduced to
    one day, written back into the buffer's clock fields. */
module Sidereal {
  import opened Numeric
  import opened TimeBuffer
  import opened Calendar
  import opened Adjustment
  import opened Settings
  import opened Dst

  /** Sidereal seconds per calendar second, scaled by `RatioScale`. */
  const SiderealRatio: int := 1002737909
  const RatioScale: int := 1000000000

  /** Sidereal time at the epoch, in seconds. */
  const EpochSidereal: int := 23992

  /** Seconds in a day. */
  const DaySeconds: int := 86400

  /** Calendar seconds from the epoch to the buffer's instant, in the
      `uint64_t` arithmetic of the source: exact whenever the day count and
      the total fit, wrapped otherwise (a date before the epoch wraps). */
  function ElapsedSeconds(g: Time): (r: u64)
    ensures var days := DayNumberOf(g) - FirstDay;
      var e := days * DaySeconds + g.hour * 3600 + g.minute * 60 + g.second;
      0 <= days && 0 <= e < 0x1_0000_0000_0000_0000 ==> r == e
  {
    var d := ToU64(DayNumberOf(g) - FirstDay);
    ToU64(d * DaySeconds + g.hour * 3600 + g.minute * 60 + g.second)
  }

  /** Sidereal seconds of the day for a GMT buffer, every step in `uint64_t`:
      the scaled product wraps, the quotient truncates, the epoch offset is
      added and the sum is reduced to one day. */
  function SiderealSeconds(g: Time): (s: int)
    ensures 0 <= s < DaySeconds
  {
    var product := ToU64(ElapsedSeconds(g) * SiderealRatio);
    var scaled := product / RatioScale;
    ToU64(scaled + EpochSidereal) % DaySeconds
  }

  /** `Sidereal` for Greenwich (the `local` flag false): the buffer is
      converted to GMT, its date is kept and its clock is replaced by the
      sidereal time of day, with hour, minute and second in range and
      adding up to the sidereal seconds. */
  function SiderealTime(c: Config, t: Time): (r: Time)
    ensures var g := GMT(c, t);
      r.day == g.day && r.month == g.month && r.year == g.year
    ensures r.hour < 24 && r.minute < 60 && r.second < 60
    ensures r.hour * 3600 + r.minute * 60 + r.second == SiderealSeconds(GMT(c, t))
  {
    var g := GMT(c, t);
    var s := SiderealSeconds(g);
    var minute := s / 60;
    var d := minute * 60;
    var r0 := g.(second := ToByte(s - d), hour := 0, minute := 0);
    AdjustWithinDay(r0, minute);
    assert s == (minute / 60) * 3600 + (minute % 60) * 60 + (s - d);
    Adjust(r0, minute)
  }

  /** The century from 2000 to 2099 spans 36525 days. */
  lemma CenturyDays()
    ensures LastDay - FirstDay == 36524
  {
    assert FirstDay == 730425 by {
      DayNumberByParts(2000, 1, 1);
    }
    assert LastDay == 766949 by {
      DayNumberByParts(2099, 12, 31);
    }
  }

  /** Where the day count is evaluated in 16-bit unsigned arithmetic it
      wraps modulo 2^16. Every day of 2000..2099 lies in the one block of
      2^16 days from 720896 to 786431, so differences of wrapped day numbers
      within the century are still exact. */
  lemma WrappedDayNumbersDifferExactly(a: Time, b: Time)
    requires ValidDate(a) && a.year < 100 && ValidDate(b) && b.year < 100
    ensures DayNumberOf(a) % 0x1_0000 - DayNumberOf(b) % 0x1_0000 == DayNumberOf(a) - DayNumberOf(b)
  {
    assert FirstDay == 730425 by {
      DayNumberByParts(2000, 1, 1);
    }
    CenturyDays();
    DayNumberInCentury(a);
    DayNumberInCentury(b);
    DivModUnique(DayNumberOf(a), 0x1_0000, 11, DayNumberOf(a) - 11 * 0x1_0000);
    DivModUnique(DayNumberOf(b), 0x1_0000, 11, DayNumberOf(b) - 11 * 0x1_0000);
  }

  /** Multiplying by a positive constant keeps an upper bound. */
  lemma ScaleBound(x: int, bound: int, k: int)
    requires 0 <= x <= bound && k > 0
    ensures x * k <= bound * k
  {
  }

  /** For a canonical GMT buffer with its second in range no `uint64_t` step
      wraps, so the sidereal seconds are the exact integer formula. */
  lemma SiderealWithoutOverflow(g: Time)
    requires Canonical(g) && g.second < 60
    ensures ElapsedSeconds(g) == (DayNumberOf(g) - FirstDay) * DaySeconds + g.hour * 3600 + g.minute * 60 + g.second
    ensures SiderealSeconds(g)
      == ((ElapsedSeconds(g) * SiderealRatio) / RatioScale + EpochSidereal) % DaySeconds
  {
    var days := DayNumberOf(g) - FirstDay;
    assert 0 <= days <= LastDay - FirstDay by {
      DayNumberInCentury(g);
    }
    CenturyDays();
    var e := days * DaySeconds + g.hour * 3600 + g.minute * 60 + g.second;
    assert 0 <= e < 36525 * DaySeconds by {
      ScaleBound(days, 36524, DaySeconds);
    }
    assert ElapsedSeconds(g) == e;
    ScaleBound(e, 36525 * DaySeconds, SiderealRatio);
    assert e * SiderealRatio < 0x1_0000_0000_0000_0000;
  }
}
