# AIRAC cycle engine, modelled in Dafny

This project models the AIRAC cycle engine of `airac-rs`. AIRAC cycles are the
28-day publication periods of the AIRAC system in ICAO Annex 15, chapter 6.
A cycle is a value that wraps its start date. Every start lies a whole number
of 28-day steps away from an anchor cycle that starts on 2020-01-02.

The model has three modules:

- `CivilCalendar` (`civil.dfy`) covers what the engine needs from chrono's
  `NaiveDate`. Dates are integer day numbers in the proleptic Gregorian
  calendar, with 0001-01-01 as day 1, which matches chrono's
  `num_days_from_ce`. It has `DaysFromCivil(y, m, d)` and its inverse on the
  year, `YearOf(day)`. Adding or subtracting a `Duration` of days is integer
  addition or subtraction.
- `AiracCycle` (`airac.dfy`) is the engine. It has the datatype `Airac`, the
  two constants, `previous`, `next`, `starts`, `ends` and the derived order
  as pure functions. `from_ymd` is the imperative method `FromYmd`, with both
  of its cursor loops. `Display::fmt` is the imperative method `Fmt`, with its
  counting loop. Each method is proved against a closed-form reference
  function: `CycleFor` for `FromYmd`, and `Identifier`/`SequenceNumber` for
  `Fmt`. Lemmas then prove what the source promises about those functions.
- `AiracTests` (`airac_tests.dfy`) holds the repository's unit tests as
  lemmas, plus one worked example of each boundary behaviour. It also has a
  client method that runs the same cases through `FromYmd` and `Fmt`.

## Boundary behaviour

The documented promise is that each date falls in the half-open interval
`[start, start + 28)` of its cycle. The code breaks this in exactly two
cases, and the model follows the code. `CycleForContainsIff` proves that
these two cases are the only exceptions.

- For a target before 2020, the backward loop subtracts before it compares
  (`src/lib.rs:25-29`). So a pre-2020 target that is itself a cycle start
  gets the cycle before it, which ends on the target. For example,
  2019-12-05 gives the cycle that starts on 2019-11-07.
- The branch is chosen by the year, not by the date (`src/lib.rs:23`). So
  2020-01-01 takes the forward branch and gets the anchor cycle, which starts
  the next day.

## Model

| member | source | states |
|---|---|---|
| `CivilCalendar.YearOf` | src/lib.rs:78 | the year of a day is the one whose January 1 is on or before it and whose successor's January 1 is after it |
| `CivilCalendar.YearInCycle` | src/lib.rs:78 | the year within a 400-year cycle is the one whose day range contains the offset |
| `CivilCalendar.YearOfCharacterized` | src/lib.rs:78 | `YearOf(z) == y` holds exactly when `z` lies in year `y` (both directions) |
| `CivilCalendar.YearLength` | src/lib.rs:78 | January 1 of the next year comes 365 days later, or 366 in a leap year |
| `CivilCalendar.YearStartMonotone` | src/lib.rs:78 | January 1 moves strictly forward with the year |
| `CivilCalendar.DaysInYearsPeriodic` | src/lib.rs:22 | every 400 years shift day numbers by 146097 |
| `CivilCalendar.MonthsFillYear` | src/lib.rs:22 | months follow one another with no gap, and together they fill the year |
| `CivilCalendar.DaysFromCivilInYear` | src/lib.rs:22-23 | a valid date's day number lies in its own year, so `YearOf` gives back the `y` it was built from |
| `CivilCalendar.DaysFromCivilNextDay` | src/lib.rs:22 | the next calendar date (next day, first of next month, or January 1 of next year) has the next day number |
| `AiracCycle.Cmp` | src/lib.rs:15-16 | the derived comparison says Equal exactly when the two cycles are equal |
| `AiracCycle.CmpIsTotalOrder` | src/lib.rs:15 | the comparison is antisymmetric, transitive and total |
| `AiracCycle.Previous` | src/lib.rs:49-52 | the previous cycle ends on the day this one starts, and it is ordered below this one |
| `AiracCycle.Next` | src/lib.rs:54-57 | the next cycle starts on the day this one ends, and it is ordered above this one |
| `AiracCycle.PreviousNextRoundTrip` | src/lib.rs:50-57 | `next(previous(c)) == c` and `previous(next(c)) == c` |
| `AiracCycle.Bounds` | src/lib.rs:59-69 | `ends(c) == starts(c) + 28 days == starts(next(c))`, and `starts(c) == ends(previous(c))` |
| `AiracCycle.StepsStayOnGrid` | src/lib.rs:50-57 | stepping either way keeps a start a whole number of cycles from the anchor |
| `AiracCycle.GridPoint` | src/lib.rs:10-11 | the anchor plus any whole number of cycle lengths is a cycle start |
| `AiracCycle.CyclesTile` | src/lib.rs:16 | two different cycles on the grid do not overlap: one ends on or before the other starts |
| `AiracCycle.ContainingCycleUnique` | src/lib.rs:19-20 | at most one cycle on the grid is effective on a given day |
| `AiracCycle.BeforeAnchorYear` | src/lib.rs:23 | every date of a year before 2020 lies at least two days before the anchor |
| `AiracCycle.FromAnchorYear` | src/lib.rs:23 | a date of 2020 or later lies before the anchor exactly when it is 2020-01-01, the day before |
| `AiracCycle.ForwardBranch` | src/lib.rs:31-39 | for 2020 or later, the result is on the grid and not before the anchor; from the anchor on, `start <= target < start + 28` |
| `AiracCycle.BackwardBranch` | src/lib.rs:23-30 | before 2020, the result is on the grid and before the anchor, with `start < target <= start + 28` |
| `AiracCycle.CycleForContainsIff` | src/lib.rs:19-40 | the located cycle contains its target exactly when the date is neither 2020-01-01 nor a pre-2020 cycle start |
| `AiracCycle.FromYmd` | src/lib.rs:20-41 | both loops terminate (the measures are `cursor - target` and `target - cursor`), and the cursor they leave is the cycle the closed-form `CycleFor` gives, so the branch lemmas above hold of it |
| `AiracCycle.Rewind` | src/lib.rs:75-77 | stepping back `k` cycles moves the start back by `28 * k` days |
| `AiracCycle.SequenceNumber` | src/lib.rs:74-83 | the position of a cycle in its start year lies in 1..14 |
| `AiracCycle.SequenceNumberCountsRun` | src/lib.rs:76-82 | the sequence number is 1 plus the length of the run of immediate predecessors that start in the same year |
| `AiracCycle.SequenceNumberNext` | src/lib.rs:74-83 | within one year, the next cycle's sequence number is one more |
| `AiracCycle.SequenceNumberFirst` | src/lib.rs:76-80 | the sequence number is 1 exactly when the previous cycle starts in another year, which is then the year before |
| `AiracCycle.TwoDigits` | src/lib.rs:83 | two decimal digits whose value is `n`, zero-padded |
| `AiracCycle.Identifier` | src/lib.rs:83 | four digits: the start year modulo 100, then the sequence number |
| `AiracCycle.Fmt` | src/lib.rs:73-84 | the counting loop terminates (measure: days from January 1 to the cursor) and produces `Identifier(c)` |
| `AiracTests.OrderAroundAnyCycle` | src/lib.rs:92-98 | for any cycle, `previous < current` and `next > current` |
| `AiracTests.LeapYearIdentifier` | src/lib.rs:101-104 | 2020-12-31 displays "2014" |
| `AiracTests.Pre2020Bounds` | src/lib.rs:106-111 | 2018-02-17 starts 2018-02-01 and ends 2018-03-01 |
| `AiracTests.Post2020Bounds` | src/lib.rs:113-118 | 2022-05-23 starts 2022-05-19 and ends 2022-06-16 |
| `AiracTests.Pre2020Identifier` | src/lib.rs:120-124 | 2019-05-13 displays "1905" |
| `AiracTests.Post2020Identifier` | src/lib.rs:126-130 | 2022-05-23 displays "2205" |
| `AiracTests.BackwardSearchSkipsExactStart` | src/lib.rs:25-29 | 2019-12-05 is a cycle start, yet its located cycle starts on 2019-11-07 and ends on 2019-12-05 |
| `AiracTests.NewYearsDay2020` | src/lib.rs:23 | 2020-01-01 gets the anchor cycle, which starts one day after it |

## Left out

- `AIRAC::current` (`src/lib.rs:44-47`) is left out because it reads the system clock. `OrderAroundAnyCycle` covers its test for every cycle.
- The range of chrono's `NaiveDate` is not modelled. Stepping outside it panics in chrono, but day numbers here are unbounded.
- The `i32`/`u32` widths of `from_ymd`'s arguments are not modelled. Any integer year is accepted, and so is any valid month and day.
- The panic of `NaiveDate::from_ymd` on an invalid date is not modelled. Instead, `FromYmd` and `CycleFor` require `ValidDate(y, m, d)`.
- The `lazy_static` plumbing (`src/lib.rs:9-12`) is left out. The two values are plain constants, `START_DATE` and `CYCLE_LENGTH`.
- The `fmt::Formatter` and `write!` machinery is not modelled. `Fmt` returns the four-character string that is written.
- `Starts` and `Ends` carry no contract of their own. `Bounds`, `Previous` and `Next` state their properties.
