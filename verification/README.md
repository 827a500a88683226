# TimeLord calendar engine in Dafny

TimeLord is a small Arduino library. It keeps local time in a six-byte buffer
(second, minute, hour, day, month, year since 2000, one `uint8_t` each) and
offers the political and astronomical operations of a clock:
- time-zone and daylight-saving conversion;
- day of the week, month lengths and leap years;
- seasons;
- Greenwich mean sidereal time.

This project models the library's integer calendar engine as pure Dafny
functions over an immutable `Time` record. It proves what each operation
promises about the instant the buffer denotes.

The C integer semantics are written out:
- `/` truncates toward zero (`Numeric.TruncDiv`);
- the library's "absolute value, signum, add modulus, reduce" remainder is
  `Numeric.FoldMod`;
- buffer stores wrap to eight bits (`Numeric.ToByte`);
- the sidereal arithmetic wraps to 64 bits (`Numeric.ToU64`);
- the day-of-month counter in the daylight-saving test is a signed `char`
  (`Numeric.ToChar`).

Modules:
- `Numeric`: C integer helpers (`Signum`, `Absolute`, truncating division, the double-modulo remainder).
- `TimeBuffer`: the six-slot buffer and its field layout.
- `Calendar`:
  - `IsLeapYear`, `LengthOfMonth`, `DayOfWeek` (Zeller's congruence) and the March-based `DayNumber`.
  - Lemmas that tie these to one day count: successive dates, month starts, year lengths, weekdays.
- `Adjustment`:
  - `Adjust`, which shifts a buffer by a number of minutes and carries into hours, days, months and years.
  - Its relation to the minute count `Minutes(t) = DayNumber * 1440 + hour * 60 + minute` over 2000–2099.
  - `AdjustFloored`, the corrected floor-carry version.
- `Settings`: the configuration (zone offset, daylight rule) and its validating setters `TimeZone` and `DstRules`.
- `Dst`:
  - `InDst`, `GMT` and `DST`.
  - An independent reference definition of the daylight-saving rule ("from 02:00 standard time on the w-th Sunday of the start month to 02:00 on the w-th Sunday of the end month").
  - The corrected `InDstIntended` and `DSTIntended`, and `GMTIntended` on top of `AdjustFloored`.
- `Seasons`: the northern-hemisphere season table and its southern mirror.
- `Sidereal`: the integer sidereal-time computation, with the proof that its 64-bit intermediate never wraps over 2000–2099.

## Model

| member | source | states |
|---|---|---|
| Numeric.Signum | TimeLord.cpp:236-239 | the sign is -1 exactly for negative arguments and +1 otherwise (zero included), and sign times magnitude gives back the argument |
| Numeric.Absolute | TimeLord.cpp:241-244 | the result is non-negative and is the argument or its negation |
| Numeric.TruncDiv | TimeLord.cpp:251 | C division truncates: the remainder is smaller than the divisor, has the sign of the dividend, and the quotient exceeds the floor quotient by one exactly for negative non-multiples |
| Numeric.FoldMod | TimeLord.cpp:252-254 | the absolute-value/signum remainder always lands in 0..n-1 and equals the mathematical (floored) remainder |
| Numeric.DoubleModulo | TimeLord.cpp:252-254 | for every integer, `(abs(x) % n) * sgn(x) + n` reduced mod n equals x mod n |
| Numeric.TruncationAgainstFloor | TimeLord.cpp:258 | sign-split truncating division differs from floor division by one exactly when the dividend is negative and not a multiple |
| TimeBuffer.ToBuffer | TimeLord.h:7-12 | a time occupies six slots, each field at its named slot index |
| TimeBuffer.FromBuffer | TimeLord.h:7-12 | reading a six-slot buffer and writing it back reproduces the buffer |
| Calendar.LengthOfMonth | TimeLord.cpp:178-193 | every month has 28..31 days, and February has 29 exactly in Gregorian leap years |
| Calendar.LengthOfMonthMatchesTable | TimeLord.cpp:185-192 | the odd-month parity trick agrees with the usual table 31,28,31,30,31,30,31,31,30,31,30,31 plus the leap day |
| Calendar.IsLeapYear | TimeLord.cpp:195-197 | from year 1 on, a year is a leap year exactly when the day count's whole-year term grows by 366 days to it from the year before, and by 365 otherwise |
| Calendar.LeapCorrectionStep | TimeLord.cpp:195-197 | the leap corrections y/4 - y/100 + y/400 grow by one from year y-1 to y exactly when y is a leap year |
| Calendar.DayNumberByParts | TimeLord.cpp:349-354 | the day number is the days before the March-based year plus the days before the month plus the day, minus one |
| Calendar.MonthOffsetFormula | TimeLord.cpp:351-353 | the `(306 m + 5) / 10` term gives the cumulative days before each month of a March-based year |
| Calendar.MonthStartGap | TimeLord.cpp:349-354 | the first day of the next month (January of the next year after December) is numbered exactly LengthOfMonth days after the first day of this month |
| Calendar.YearLength | TimeLord.cpp:349-354 | 1 January of the next year is 365 days after 1 January, or 366 in a leap year |
| Calendar.DayNumberSuccessor | TimeLord.cpp:349-354 | the calendar successor of a valid date is valid and its day number is one more |
| Calendar.DayOfWeek | TimeLord.cpp:161-176 | the weekday is always one of 1 (Sunday) to 7 (Saturday) |
| Calendar.DayOfWeekByParts | TimeLord.cpp:161-176 | Zeller's congruence splits into the month offset, the day and the March-based year's leap corrections |
| Calendar.OffsetsAgreeModSeven | TimeLord.cpp:173 | Zeller's `(13m+3)/5` month offsets and the day-number month offsets agree modulo 7 |
| Calendar.DayOfWeekFromDayNumber | TimeLord.cpp:161-176 | the weekday (1 = Sunday) is determined by the day number modulo 7 |
| Calendar.Epoch2000IsSaturday | TimeLord.cpp:161-176 | 1 January 2000 is a Saturday (7) |
| Calendar.DayOfWeekSuccessor | TimeLord.cpp:161-176 | the weekday of the next date is the following weekday, Saturday wrapping to Sunday |
| Adjustment.IncYear | TimeLord.cpp:274-276 | the two-digit year advances with wrap-around 99 to 0 |
| Adjustment.DecYear | TimeLord.cpp:286-288 | the two-digit year goes back with wrap-around 0 to 99 |
| Adjustment.NextMonth | TimeLord.cpp:271-277 | the month advances; after December it becomes January of the next (wrapped) year; nothing else changes |
| Adjustment.PrevMonth | TimeLord.cpp:283-289 | the month goes back; before January it becomes December of the previous (wrapped) year; nothing else changes |
| Adjustment.CarryForward | TimeLord.cpp:268-280 | an overflowing day count is carried into later months until it is a valid day of its month, leaving the time of day alone |
| Adjustment.CarryBackward | TimeLord.cpp:281-293 | a day count below 1 is borrowed from earlier months until it is a valid day of its month |
| Adjustment.CarryDays | TimeLord.cpp:264-294 | the day carry always ends on a valid day of its month, a calendar month stays a calendar month, and an in-range day is kept unchanged |
| Adjustment.CarryDaysDayNumber | TimeLord.cpp:264-294 | within 2000–2099 the day carry lands on the date whose day number is the month start plus the count minus one |
| Adjustment.Adjust | TimeLord.cpp:246-295 | the second is kept, the minute becomes (minute + offset) mod 60, the hour stays below 24 and the day is valid for its month |
| Adjustment.AdjustIsRecarry | TimeLord.cpp:246-295 | the adjusted buffer is the canonical spelling of the old minute count plus the offset plus the truncation slips |
| Adjustment.AdjustShift | TimeLord.cpp:246-295 | on a canonical buffer the instant moves by the offset plus 60 minutes when the minute carry truncates a negative non-multiple and plus 1440 when the hour carry does |
| Adjustment.AdjustAdvancesExactly | TimeLord.cpp:246-295 | a non-negative offset moves a canonical buffer's instant by exactly the offset |
| Adjustment.AdjustZeroIsIdentity | TimeLord.cpp:246-295 | adjusting an in-range buffer by zero changes nothing |
| Adjustment.AdjustWithinDay | TimeLord.cpp:121-126 | from midnight, an offset under one day sets hour and minute to its quotient and remainder by 60 and keeps the date |
| Adjustment.AdjustNegativeCarryExample | TimeLord.cpp:250-257 | 05:30 on 10 June 2020 adjusted by -60 minutes comes back unchanged, an hour later than the intended 04:30 |
| Adjustment.AdjustFloored | TimeLord.cpp:246-295 | the floor-carry adjustment keeps the second, sets the minute to (minute + offset) mod 60 and yields a valid day |
| Adjustment.AdjustFlooredShift | TimeLord.cpp:246-295 | with floor carries every offset, negative or not, moves a canonical buffer's instant by exactly the offset |
| Adjustment.AdjustFlooredRoundTrip | TimeLord.cpp:246-295 | with floor carries, adjusting by an offset and then by its negation gives back the original buffer |
| Adjustment.AdjustAgreesWithFloored | TimeLord.cpp:250-262 | when neither carry truncates a negative non-multiple, the library's adjustment equals the floor-carry one |
| Adjustment.DayNumberInCentury | TimeLord.cpp:349-354 | every valid date of 2000–2099 has a day number between those of 1 January 2000 and 31 December 2099 |
| Adjustment.MinutesInjective | TimeLord.cpp:246-295 | two canonical buffers with the same minute count agree on every field but the second |
| Settings.TimeZone | TimeLord.cpp:16-20 | an offset is accepted exactly when its magnitude is at most 720 minutes; acceptance stores it, refusal changes nothing, and validity is kept |
| Settings.DstRules | TimeLord.cpp:30-39 | a rule is accepted exactly when both months are 1..12 and both ordinals 1..4; acceptance stores all five values, refusal changes nothing |
| Settings.Initial | TimeLord.cpp:9-14 | the constructor's configuration is valid, five hours west of GMT, with the US rule (second Sunday of March to first Sunday of November, 60 minutes) |
| Dst.PreviousSunday | TimeLord.cpp:209-211 | for a valid date the previous Sunday lies in the week ending on the day, and when it is a day of the month that day is a Sunday |
| Dst.SundayBefore | TimeLord.cpp:209-211 | going back from a day by its weekday less one lands on a Sunday |
| Dst.SundayOrdinal | TimeLord.cpp:210-215 | the library's Sunday count is always in 0..19 |
| Dst.InDstRule | TimeLord.cpp:203-229 | outside the month span no, strictly inside yes; in the start month yes exactly when the start test passes, in a distinct end month yes exactly when the end test does not |
| Dst.InDst | TimeLord.cpp:199-230 | outside the start and end months it is never daylight time, strictly between them it always is, and a rule whose start month follows its end month never applies |
| Dst.SundayOrdinalOvercounts | TimeLord.cpp:211-215 | the source's Sunday count is one more than the number of Sundays so far exactly when the last Sunday fell on day 7, 14, 21 or 28 |
| Dst.InDstAgreesWithIntended | TimeLord.cpp:199-230 | off those days, the library's test takes the decision of the corrected count, and agrees with the corrected test when the start and end months differ |
| Dst.InDstSameMonthIgnoresEnd | TimeLord.cpp:217-229 | when the rule starts and ends in the buffer's month, the library's test is the start test alone and does not depend on the end Sunday |
| Dst.IntendedOrdinalCountsSundays | TimeLord.cpp:208-215 | the corrected count is the number of Sundays of the month up to the day, and the day is a Sunday exactly when it is a whole number of weeks after the first Sunday |
| Dst.OrdinalAgainstNthSunday | TimeLord.cpp:217-229 | fewer than w Sundays so far exactly before the w-th Sunday, more exactly from a week after it, and with w so far the day is the w-th Sunday exactly when it is a Sunday |
| Dst.StartTestMeansTransitionPassed | TimeLord.cpp:217-223 | the start-month decision ladder says yes exactly when the moment is at or after 02:00 on the w-th Sunday |
| Dst.InDstIntended | TimeLord.cpp:199-230 | the corrected test has the same month-level behaviour as the library's, and when the rule starts and ends in the buffer's month it needs the start passed and the end not yet passed |
| Dst.InDstIntendedMeetsReference | TimeLord.cpp:199-230 | for every valid configuration and date, rules within a single month included, the corrected test holds exactly when the moment is at or after the start 02:00 transition and before the end one |
| Dst.InDstStartsWeekEarly | TimeLord.cpp:211-215 | with the constructor's rule, 03:00 on Sunday 7 March 2021 is reported as daylight time although the second Sunday is 14 March |
| Dst.InDstSameMonthExample | TimeLord.cpp:217-229 | with a rule from the first to the second Sunday of March, noon on Wednesday 16 March 2022 is reported as daylight time although the second Sunday was 13 March |
| Dst.GMT | TimeLord.cpp:41-43 | converting to GMT keeps the second, subtracts the zone offset from the minute modulo 60 and yields a valid day |
| Dst.GMTWestIsExact | TimeLord.cpp:41-43 | west of Greenwich the conversion moves the instant by exactly the zone offset |
| Dst.GMTEastKeepsHalfHour | TimeLord.cpp:41-43 | one hour east of Greenwich, 12:30 converts to 12:30, an hour off |
| Dst.GMTIntended | TimeLord.cpp:41-43 | the corrected conversion keeps the second and subtracts the zone offset from the minute modulo 60 |
| Dst.GMTIntendedRoundTrip | TimeLord.cpp:41-43 | on either side of Greenwich, the corrected conversion moves the instant by exactly the zone offset, and adjusting back by the offset restores the local time |
| Dst.DST | TimeLord.cpp:45-47 | outside daylight time the buffer is unchanged; inside, the minute advances by the rule's amount modulo 60 |
| Dst.DSTAdvancesExactly | TimeLord.cpp:45-47 | inside daylight time the instant advances by exactly the rule's advance |
| Dst.DSTIntended | TimeLord.cpp:45-47 | with the corrected test, the buffer is unchanged outside daylight time |
| Dst.DSTIntendedMeetsReference | TimeLord.cpp:45-47 | with the corrected test, the instant advances by the rule's amount exactly when the reference rule says daylight time, and otherwise stays |
| Seasons.BaseSeason | TimeLord.cpp:129-152 | the northern season is one of the four season numbers 0..3 |
| Seasons.BaseSeasonCountsStarts | TimeLord.cpp:129-152 | the northern season is the number of season starts (22 March, 21 June, 22 September, 21 December) reached so far in the year, modulo 4 |
| Seasons.BaseSeasonMonotone | TimeLord.cpp:129-152 | before 21 December the season never decreases as the date advances |
| Seasons.SeasonStartsOnItsDay | TimeLord.cpp:129-152 | each season begins on its start day and the day before still belongs to the previous season |
| Seasons.Season | TimeLord.cpp:154-159 | the season is one of four, and north of the equator it is the table's season |
| Seasons.HemispheresOpposite | TimeLord.cpp:154-159 | the southern season is always two seasons away from the northern one, in both directions |
| Sidereal.ElapsedSeconds | TimeLord.cpp:98-101 | the 64-bit elapsed seconds are the days since 1 January 2000 times 86400 plus the time of day, whenever that count is non-negative and fits in 64 bits |
| Sidereal.WrappedDayNumbersDifferExactly | TimeLord.cpp:349-353 | day numbers of 2000–2099 reduced to 16 bits still differ by exactly the true difference |
| Sidereal.SiderealSeconds | TimeLord.cpp:97-116 | the sidereal second of the day is always in 0..86399 |
| Sidereal.SiderealWithoutOverflow | TimeLord.cpp:97-116 | for a canonical GMT buffer in 2000–2099 the 64-bit elapsed seconds are exact and the product with the sidereal ratio never wraps |
| Sidereal.SiderealTime | TimeLord.cpp:73-127 | the result keeps the GMT date, has in-range fields, and its time of day spelled in seconds is the sidereal second of the day |

## Left out

- Sunrise and sunset (`SunRise`, `SunSet`, `ComputeSun`), `MoonPhase` and `Position` work in floating point; they are not modelled.
- The `local` branch of `Sidereal` adds `240 * longitude` as a float; the model covers only the Greenwich (`local == false`) branch, so `SiderealTime` takes no longitude.
- The constructor's latitude and longitude are floats and are not part of `Settings.Config`. `Seasons.Season` takes the sign of the latitude as a boolean parameter.
- `Numeric.Absolute`: on an AVR `int` is 16 bits and `long` is 32, so `Absolute(tmp)` with a `long` argument narrows. The model uses unbounded integers there, which agrees with the source whenever the minute and hour sums lie in -32767..32767. At -32768, `0-n` overflows, which is undefined in C; with a two's-complement wrap the source's `Absolute` returns -32768 there, and the model does not reproduce that.
- `Calendar.DayNumber`: on an AVR `int` is 16 bits, so the `uint16_t` year promotes to `unsigned int` and the whole sum `365*y + ...` wraps modulo 2^16 before it widens to `long`. The model computes the sum in unbounded integers and wraps only the year parameter. Every day number of 2000–2099 lies in the one 2^16 block 720896..786431, so the differences of day numbers that `Sidereal` takes are the same either way (`Sidereal.WrappedDayNumbersDifferExactly`).
- `Calendar.DayNumber` carries no contract of its own: its decomposition into whole March-based years, whole months and days is stated by `Calendar.DayNumberByParts`.
- `Settings.TimeZone`: the offset is an unbounded integer. On an AVR, `Absolute(-32768)` overflows the 16-bit `int` (undefined in C). With a two's-complement wrap, the source would accept and store that offset, breaking the 720-minute bound. The model refuses it and does not model the overflow.
- `Dst.InDst`: `char` is modelled as signed; on platforms where it is unsigned the day-minus-weekday expression behaves differently for negative values.
- `Adjustment.AdjustShift`: the exact effect on the instant is stated only for canonical buffers in 2000–2099. The library's year wrap at 2099→2000 is modelled by `IncYear`/`DecYear` but not related to the minute count.
- `Dst.GMT`: the exact shift is proved only west of Greenwich (`GMTWestIsExact`), because east of it the truncating carries can slip by an hour or a day (`GMTEastKeepsHalfHour`).
- `Dst.DST`: the exact advance (`DSTAdvancesExactly`) is stated against the library's own Sunday count; the comparison with the reference rule is made for the corrected `DSTIntended`.
- `Sidereal.SiderealTime`: relates the result to `SiderealSeconds` of the library's `GMT`; it inherits that conversion's slips east of Greenwich.
- `TimeBuffer.FromBuffer`: the buffer is a `seq` of six bytes, so aliasing and out-of-bounds reads of the C array do not arise in the model.

## Findings

| source | as written | input that shows it | evidently intended | confidence | as-written member | corrected member |
|---|---|---|---|---|---|---|
| TimeLord.cpp:250-262 | the minute and hour carries use C's truncating `/` while the remainders are floored, so a negative non-multiple loses 60 minutes (or 1440 for the hour carry) | `Adjust` of 05:30 on 10 June 2020 by -60 minutes leaves 05:30; `GMT` at zone +60 leaves 12:30 at 12:30 | carries by floor division, so any offset moves the instant by exactly that many minutes and can be undone | not executed | Adjustment.AdjustNegativeCarryExample | Adjustment.AdjustFlooredRoundTrip |
| TimeLord.cpp:211-215 | the number of Sundays so far is `prevSunday/7 + 1`, one too many when the last Sunday fell on day 7, 14, 21 or 28 | with the US rule (second Sunday of March), `InDst` at 03:00 on Sunday 7 March 2021 is true, a week before the 14 March transition | `(prevSunday - 1)/7 + 1`, the number of Sundays up to the day | not executed | Dst.InDstStartsWeekEarly | Dst.InDstIntendedMeetsReference |
| TimeLord.cpp:217-229 | a rule whose start and end months coincide is decided by the start test alone, so daylight time never ends within that month | a rule from the first to the second Sunday of March (accepted by `DstRules`) reports noon on Wednesday 16 March 2022 as daylight time, after the 13 March end | in the shared month, daylight time from the start transition until the end transition | not executed | Dst.InDstSameMonthExample | Dst.InDstIntendedMeetsReference |

`GMT`, `DST` and `SiderealTime` compose the library's operations as written, so their contracts describe what the library does. The corrected `AdjustFloored`, `InDstIntended`, `GMTIntended` and `DSTIntended` carry the intended properties. `DSTIntended` advances by a non-negative amount, where both carry rules agree (`AdjustAgreesWithFloored`).
