/** The astronomical season of a date, from fixed solstice and equinox
    days, with the northern and southern hemispheres two seasons apart. */
module Seasons {
  import opened Numeric
  import opened TimeBuffer

  /** Season numbers. */
  const Winter: byte := 0
  const Spring: byte := 1
  const Summer: byte := 2
  const Fall: byte := 3

  /** `_season`: the northern season of the buffer's month and day; spring
      from March 22, summer from June 21, fall from September 22, winter
      from December 21. */
  function BaseSeason(t: Time): (s: byte)
    ensures s < 4
  {
    if t.month < 3 then Winter
    else if t.month == 3 then (if t.day < 22 then Winter else Spring)
    else if t.month < 6 then Spring
    else if t.month == 6 then (if t.day < 21 then Spring else Summer)
    else if t.month < 9 then Summer
    else if t.month == 9 then (if t.day < 22 then Summer else Fall)
    else if t.month < 12 then Fall
    else if t.day < 21 then Fall
    else Winter
  }

  /** `Season`: the northern season, or for a location south of the
      equator the season two steps further on. */
  function Season(t: Time, southern: bool): (s: byte)
    ensures s < 4
    ensures !southern ==> s == BaseSeason(t)
  {
    var result := BaseSeason(t);
    if southern then (result + 2) % 4 else result
  }

  /** Month and day on which spring, summer, fall and winter begin. */
  const SeasonStarts: seq<(int, int)> := [(3, 22), (6, 21), (9, 22), (12, 21)]

  /** Whether the buffer's month and day are on or after the `i`-th start. */
  predicate Reached(t: Time, i: nat)
    requires i < |SeasonStarts|
  {
    var (m, d) := SeasonStarts[i];
    t.month > m || (t.month == m && t.day >= d)
  }

  /** How many of the first `k` season starts the date has reached. */
  function StartsReached(t: Time, k: nat): (n: nat)
    requires k <= |SeasonStarts|
    ensures n <= k
  {
    if k == 0 then 0 else StartsReached(t, k - 1) + (if Reached(t, k - 1) then 1 else 0)
  }

  /** For a calendar month, the northern season counts the season starts
      reached so far in the year, with the winter start wrapping to 0. */
  lemma BaseSeasonCountsStarts(t: Time)
    requires 1 <= t.month <= 12
    ensures BaseSeason(t) == StartsReached(t, 4) % 4
  {
    assert StartsReached(t, 1) == (if Reached(t, 0) then 1 else 0);
    assert StartsReached(t, 2) == StartsReached(t, 1) + (if Reached(t, 1) then 1 else 0);
    assert StartsReached(t, 3) == StartsReached(t, 2) + (if Reached(t, 2) then 1 else 0);
    assert StartsReached(t, 4) == StartsReached(t, 3) + (if Reached(t, 3) then 1 else 0);
  }

  /** Later in the year never means an earlier season, until the winter
      start of December 21 wraps the count. */
  lemma BaseSeasonMonotone(a: Time, b: Time)
    requires 1 <= a.month <= 12 && 1 <= b.month <= 12
    requires a.month < b.month || (a.month == b.month && a.day <= b.day)
    requires !Reached(b, 3)
    ensures BaseSeason(a) <= BaseSeason(b)
  {
    BaseSeasonCountsStarts(a);
    BaseSeasonCountsStarts(b);
  }

  /** On each season's first day the season is the one starting, and on the
      day before it is the previous one. */
  lemma SeasonStartsOnItsDay(t: Time, i: nat)
    requires i < 4 && 2 <= t.day <= 31
    requires (t.month, t.day) == SeasonStarts[i]
    ensures BaseSeason(t) == (i + 1) % 4
    ensures BaseSeason(t.(day := t.day - 1)) == i
  {
  }

  /** The two hemispheres are always exactly two seasons apart. */
  lemma HemispheresOpposite(t: Time)
    ensures Season(t, true) == (Season(t, false) + 2) % 4
    ensures Season(t, false) == (Season(t, true) + 2) % 4
    ensures Season(t, true) != Season(t, false)
  {
  }
}
