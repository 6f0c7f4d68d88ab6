# obct month delta, in Dafny

obct is a small web service that serves static assets (`src/main.rs`).
`src/counter.rs` holds `month_diff`, a private function that computes a
"month delta" between two dates; in the source its only caller is its own
unit test. Its name, its December carry-over and its test cases point to
the evident intent: count the calendar months from `from` to `to`, to feed
a counter that is not in the source. This project models `month_diff` and
proves what it does, including where it falls short of that intent:

- since a December date, the delta is `to`'s month number (1..12);
- otherwise it is `to.month - from.month` in Rust's `u32`, which panics in a
  debug build and wraps around in a release build when `to`'s month is the
  smaller one;
- days and years are never read by the computation; the year enters only
  through the `from <= to` debug assertion.

Modules:

- `U32` (`u32.dfy`): Rust's `u32` and its subtraction, checked (debug build,
  `Panic(SubtractOverflow)` on overflow) and wrapping (release build).
- `Dates` (`dates.dfy`): a date as year, month (1..12) and day (1..31),
  ordered as chrono orders `NaiveDate` (year, then month, then day).
- `Counter` (`counter.dfy`): `MonthDiff` (debug build: the ordering assertion
  is a `requires`, the overflow a `Panic` result), `MonthDiffRelease` (release
  build: no assertion, wrap-around), the properties the unit test and the
  code's branches promise, and `MonthsElapsed`, the calendar month count that
  `month_diff` evidently approximates, with the lemmas relating the two.

For a date and itself the code returns 0 in January..November but 12 in
December. The model follows the code (`SelfDistance`) and records the
December case under "Findings". The underflow is reachable under
`from <= to` only for a `from` in February..November: no month is smaller than January (`UnderflowReachable`).

## Model

| member | source | states |
|---|---|---|
| U32.CheckedSub | src/counter.rs:10 | debug-build `u32` subtraction succeeds exactly when the subtrahend is not larger, and then the result plus the subtrahend gives back the minuend; otherwise it panics with an overflow |
| U32.WrappingSub | src/counter.rs:10 | release-build `u32` subtraction yields the value that added to the subtrahend gives back the minuend modulo 2^32; on underflow it is at least 2^32 minus the subtrahend |
| U32.WrappingAgreesWithChecked | src/counter.rs:10 | wrapping and checked subtraction agree wherever the checked one does not panic |
| Dates.LessEq | src/counter.rs:4 | the order of the `from <= to` assertion: lexicographic on (year, month, day), which for valid dates is chrono's order on (year, day of year); ordered dates have ordered years, and ordered months within one year |
| Dates.LessEqIsTotalOrder | src/counter.rs:4 | the date order used by the `from <= to` assertion is reflexive, antisymmetric, transitive and total |
| Counter.MonthDiff | src/counter.rs:3-12 | under `from <= to`, the result is not a panic exactly when `from` is in December or `to`'s month is not smaller; a result is at most 12; a panic is a subtraction overflow and needs `to` in a later year; within one year there is never a panic |
| Counter.MonthDiffRelease | src/counter.rs:3-12 | without the assertion and with wrap-around, the result is either at most 12 or at least 2^32 - 10; in December it is `to`'s month number, whatever the order of the dates; outside December it is the value that added to `from`'s month gives `to`'s month modulo 2^32 |
| Counter.ReleaseAgreesWithDebug | src/counter.rs:4-10 | the release build returns the debug build's delta whenever the debug build does not panic, and an increment of at least 2^32 - 10 whenever it does |
| Counter.DecemberDelta | src/counter.rs:7-8 | since a December date the delta is `to`'s month number, in 1..12, whatever `from`'s day or year |
| Counter.NonDecemberDelta | src/counter.rs:9-10 | since a January..November date with `to`'s month not smaller, the delta is exactly `to.month - from.month`, at most 11 |
| Counter.UnderflowCase | src/counter.rs:10 | since a January..November date with `to`'s month smaller, the debug build panics with a subtraction overflow, and `to` then lies in a later year |
| Counter.UnderflowReachable | src/counter.rs:4-10 | some date at or after `from` makes the subtraction panic if and only if `from` is in February..November |
| Counter.MonthsOnly | src/counter.rs:5-11 | changing the day or year of either date without changing its month leaves the delta unchanged, in both builds |
| Counter.SelfDistance | src/counter.rs:7-10 | the delta from a date to itself is 0, or 12 when the date is in December |
| Counter.EveryDeltaAttained | src/counter.rs:7-10 | every delta from 0 to 12 occurs for some ordered pair of dates, and no other value does |
| Counter.TestMonthDiff | src/counter.rs:21-37 | the four cases of the unit test: Jan 1 to Feb 23 gives 1, Feb 3 to Jun 19 gives 4, Dec 13 to Jan 6 gives 1, Dec 30 to Feb 11 gives 2 |
| Counter.TestMonthsElapsed | src/counter.rs:21-37 | the corrected delta gives the same four values as the unit test: 1, 4, 1 and 2 |
| Counter.MonthsElapsed | src/counter.rs:3-12 | the corrected delta, calendar months elapsed, is never negative under `from <= to` and is 0 exactly when both dates lie in the same month of the same year |
| Counter.MonthsElapsedAdditive | src/counter.rs:3-12 | the corrected delta taken in steps adds up to the delta over the whole span |
| Counter.MonthDiffMatchesElapsed | src/counter.rs:7-10 | `month_diff` equals the months elapsed if and only if `from` is in January..November and `to` in the same year, or `from` is in December and `to` in the next year |
| Counter.MonthDiffAgreesModYear | src/counter.rs:7-10 | whenever `month_diff` does not panic, it equals the months elapsed modulo 12 |
| Counter.CrossYearUnderflowExample | src/counter.rs:10 | 2023-11-05 to 2024-01-02 satisfies the assertion, panics in a debug build, gives 2^32 - 10 in a release build, while 2 months have elapsed |
| Counter.DecemberOvercountExample | src/counter.rs:7-8 | 2023-12-13 to 2023-12-20 gives 12 where 0 months have elapsed, and two December steps give 24 where the whole span gives 12 |

## Findings

| source | as written | input that shows it | evidently intended | confidence | as-written member | corrected member |
|---|---|---|---|---|---|---|
| src/counter.rs:10 | `to_month - from_month` on `u32` for any `from` not in December | from 2023-11-05, to 2024-01-02 (passes `from <= to`): panic in a debug build, 4294967286 in a release build | 2, the months elapsed | high; not executed | Counter.CrossYearUnderflowExample | Counter.MonthsElapsed |
| src/counter.rs:7-8 | a December `from` yields `to`'s month even when `to` is in the same December | from 2023-12-13, to 2023-12-20: 12 | 0: the January..November branch at line 10 gives 0 for any span within one month, and the December branch exists to carry the count over the year boundary (the unit test's Dec 13 to Jan 6 gives 1, lines 30-32), not to add a year within December | medium; not executed | Counter.DecemberOvercountExample | Counter.MonthsElapsed |

`MonthsElapsed` gives the four values of the unit test
(`TestMonthsElapsed`).

## Left out

- The counter that `month_diff` is meant to feed: its code is not in the
  source (`src/main.rs` declares `mod counter;` and uses nothing from it), so
  there is nothing to model it against.
- `src/main.rs`: HTTP routing, the async runtime, the TCP listener and the
  handlers that return embedded assets; framework plumbing with no logic.
- Calendar validity of dates (days per month, leap years) and chrono's year
  range: `month_diff` reads only the month, and the order of valid dates is
  the order on (year, month, day), so a day in 1..31 and an unbounded year
  suffice.
- A release build called with `from > to`: `MonthDiffRelease` has no
  precondition and covers it; the debug build's assertion failure is the
  `requires` of `MonthDiff` rather than a modelled panic.
