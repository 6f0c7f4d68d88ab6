/** `month_diff`: the month delta between two dates. The computation reads only the two months: days and years are
    never read, and the year enters only through the `from <= to`
    assertion. */
module Counter {
  import opened U32
  import opened Dates

  /** `month_diff` as a debug build runs it: `from <= to` is asserted, and
      the non-December subtraction panics when `to`'s month is the smaller. */
  function MonthDiff(from: Date, to: Date): (r: Result<u32>)
    requires LessEq(from, to)
    ensures r.Ok? <==> from.month == DECEMBER || from.month <= to.month
    ensures r.Ok? ==> r.value <= 12
    ensures r.Panic? ==> r.fault == SubtractOverflow && from.year < to.year
    ensures from.year == to.year ==> r.Ok?
  {
    if from.month == DECEMBER then Ok(to.month) else CheckedSub(to.month, from.month)
  }

  /** `month_diff` as a release build runs it: the assertion is compiled
      out and the subtraction wraps around, so the result is either a
      month delta or a value near 2^32. */
  function MonthDiffRelease(from: Date, to: Date): (r: u32)
    ensures r <= 12 || r >= LIMIT - 10
    ensures from.month == DECEMBER ==> r == to.month
    ensures from.month != DECEMBER ==> (r + from.month) % LIMIT == to.month
  {
    if from.month == DECEMBER then to.month else WrappingSub(to.month, from.month)
  }

  /** Where the debug build does not panic the release build gives the same
      delta; where it panics the release build yields a huge increment. */
  lemma ReleaseAgreesWithDebug(from: Date, to: Date)
    requires LessEq(from, to)
    ensures MonthDiff(from, to).Ok? ==> MonthDiffRelease(from, to) == MonthDiff(from, to).value
    ensures MonthDiff(from, to).Panic? ==> MonthDiffRelease(from, to) >= LIMIT - 10
  {
  }

  /** Since a December date the delta is `to`'s month number, whatever
      `from`'s day or year. */
  lemma DecemberDelta(from: Date, to: Date)
    requires LessEq(from, to) && from.month == DECEMBER
    ensures MonthDiff(from, to) == Ok(to.month)
    ensures 1 <= MonthDiff(from, to).value <= 12
  {
  }

  /** Since a January..November date, with `to`'s month not smaller, the
      delta is the plain difference of the months, at most 11. */
  lemma NonDecemberDelta(from: Date, to: Date)
    requires LessEq(from, to) && from.month != DECEMBER && from.month <= to.month
    ensures MonthDiff(from, to) == Ok(to.month - from.month)
    ensures MonthDiff(from, to).value <= 11
  {
  }

  /** The subtraction panics exactly when `from` is not in December and
      `to`'s month is the smaller one; under `from <= to` that needs `to` to
      lie in a later year. */
  lemma UnderflowCase(from: Date, to: Date)
    requires LessEq(from, to) && from.month != DECEMBER && to.month < from.month
    ensures MonthDiff(from, to) == Panic(SubtractOverflow)
    ensures from.year < to.year
  {
  }

  /** The ordering precondition does not rule the panic out: some later date
      makes it panic exactly when `from` lies in February..November. A
      January date cannot, since no month is smaller than January. */
  lemma UnderflowReachable(from: Date)
    ensures (exists to :: LessEq(from, to) && MonthDiff(from, to).Panic?)
            <==> from.month != 1 && from.month != DECEMBER
  {
    if from.month != 1 && from.month != DECEMBER {
      var to := Date(from.year + 1, 1, 1);
      assert LessEq(from, to) && MonthDiff(from, to).Panic?;
    }
  }

  /** The delta depends on the two months only: the days and years of the
      arguments may change freely, in both builds. */
  lemma MonthsOnly(from: Date, to: Date, from': Date, to': Date)
    requires from.month == from'.month && to.month == to'.month
    ensures LessEq(from, to) && LessEq(from', to') ==> MonthDiff(from, to) == MonthDiff(from', to')
    ensures MonthDiffRelease(from, to) == MonthDiffRelease(from', to')
  {
  }

  /** The distance from a date to itself is 0, except in December, where
      it is 12. */
  lemma SelfDistance(d: Date)
    ensures MonthDiff(d, d) == Ok(if d.month == DECEMBER then 12 else 0)
  {
  }

  /** The delta takes every value from 0 to 12 on some ordered pair of
      dates, and no other. */
  lemma EveryDeltaAttained(k: int)
    ensures (exists from, to :: LessEq(from, to) && MonthDiff(from, to) == Ok(k)) <==> 0 <= k <= 12
  {
    if 0 <= k <= 11 {
      var from, to := Date(2023, 1, 1), Date(2023, k + 1, 1);
      assert LessEq(from, to) && MonthDiff(from, to) == Ok(k);
    } else if k == 12 {
      var d := Date(2023, 12, 1);
      assert LessEq(d, d) && MonthDiff(d, d) == Ok(k);
    }
  }

  /** The four cases of the unit test `test_month_diff`. */
  lemma TestMonthDiff()
    ensures MonthDiff(Date(2023, 1, 1), Date(2023, 2, 23)) == Ok(1)
    ensures MonthDiff(Date(2023, 2, 3), Date(2023, 6, 19)) == Ok(4)
    ensures MonthDiff(Date(2023, 12, 13), Date(2024, 1, 6)) == Ok(1)
    ensures MonthDiff(Date(2023, 12, 30), Date(2024, 2, 11)) == Ok(2)
  {
  }

  /** The four cases of the unit test hold of the corrected delta too. */
  lemma TestMonthsElapsed()
    ensures MonthsElapsed(Date(2023, 1, 1), Date(2023, 2, 23)) == 1
    ensures MonthsElapsed(Date(2023, 2, 3), Date(2023, 6, 19)) == 4
    ensures MonthsElapsed(Date(2023, 12, 13), Date(2024, 1, 6)) == 1
    ensures MonthsElapsed(Date(2023, 12, 30), Date(2024, 2, 11)) == 2
  {
  }

  // The evidently intended delta: calendar months elapsed.

  /** The number of month boundaries crossed from `from` to `to`: never
      negative, and zero exactly within one month of one year. */
  function MonthsElapsed(from: Date, to: Date): (r: int)
    requires LessEq(from, to)
    ensures r >= 0
    ensures r == 0 <==> from.year == to.year && from.month == to.month
    ensures r < 12 ==> to.year <= from.year + 1
  {
    (to.year * 12 + to.month) - (from.year * 12 + from.month)
  }

  /** Counting in steps adds up: the months from `a` to `c` are those from
      `a` to `b` plus those from `b` to `c`. */
  lemma MonthsElapsedAdditive(a: Date, b: Date, c: Date)
    requires LessEq(a, b) && LessEq(b, c)
    ensures MonthsElapsed(a, c) == MonthsElapsed(a, b) + MonthsElapsed(b, c)
  {
  }

  /** `month_diff` gives the elapsed months exactly when `from` is in
      January..November and `to` in the same year, or `from` is in December
      and `to` in the next year. */
  lemma MonthDiffMatchesElapsed(from: Date, to: Date)
    requires LessEq(from, to)
    ensures MonthDiff(from, to) == Ok(MonthsElapsed(from, to))
            <==> if from.month == DECEMBER then to.year == from.year + 1 else to.year == from.year
  {
  }

  /** Wherever `month_diff` does not panic it is right modulo a year. */
  lemma MonthDiffAgreesModYear(from: Date, to: Date)
    requires LessEq(from, to)
    ensures MonthDiff(from, to).Ok? ==> MonthDiff(from, to).value % 12 == MonthsElapsed(from, to) % 12
  {
  }

  /** A span from November into the next January passes the ordering
      assertion, then panics in a debug build and wraps to 2^32 - 10 in a
      release build, where two months have elapsed. */
  lemma CrossYearUnderflowExample()
    ensures LessEq(Date(2023, 11, 5), Date(2024, 1, 2))
    ensures MonthDiff(Date(2023, 11, 5), Date(2024, 1, 2)) == Panic(SubtractOverflow)
    ensures MonthDiffRelease(Date(2023, 11, 5), Date(2024, 1, 2)) == LIMIT - 10
    ensures MonthsElapsed(Date(2023, 11, 5), Date(2024, 1, 2)) == 2
  {
  }

  /** Within one December `month_diff` reports 12 months where none have
      elapsed, so deltas taken in steps over-count: two December steps add
      up to 24 while the whole span gives 12. */
  lemma DecemberOvercountExample()
    ensures MonthDiff(Date(2023, 12, 13), Date(2023, 12, 20)) == Ok(12)
    ensures MonthsElapsed(Date(2023, 12, 13), Date(2023, 12, 20)) == 0
    ensures MonthDiff(Date(2023, 12, 1), Date(2023, 12, 10)).value
          + MonthDiff(Date(2023, 12, 10), Date(2023, 12, 20)).value == 24
    ensures MonthDiff(Date(2023, 12, 1), Date(2023, 12, 20)).value == 12
  {
  }
}
