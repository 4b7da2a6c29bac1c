# Electricity bill calculator — Dafny model

This project models the pricing core of a small command-line electricity bill
calculator. The tool reads a time-of-use tariff table and a table of interval
meter readings, and prices every reading at the rate for its day of the week
and minute of the day. Public holidays are priced as Sundays. It also prices
optional feed-in readings and adds a daily supply charge for each day of
consumption.

The model covers:

- `minutes_since_midnight`, the `hh:mm:ss` parser (module `Clock`). It
  accepts three colon-separated `i32` fields and returns `mm + 60 * hh`. The
  seconds field is ignored, and the range is not checked, just as in the
  program. Overflow of that sum in `i32` is an explicit error.
- The `Tariff` record and `lookup_tariff` (module `Tariffs`). The first rule
  in table order whose half-open day range and half-open minute range both
  contain the query decides the rate. A query no rule covers is an error.
- The day classification of `price_energy` (module `Calendar`). The date is
  trimmed with the Unicode White_Space set, a holiday maps to day 6, and any
  other date maps to its weekday with Monday = 0.
- The `price_energy` fold (modules `Pricing` and `Sums`). The first row fixes
  the column count. Every later row must match it. The interval width is
  `1440 / (columns - 1)`, and value column `i` is priced at minute
  `i * interval`. The pass returns `(rows, columns, total)` or the error that
  stopped it.
- The bill arithmetic in `main` (module `Billing`). The feed-in pass runs only
  when both feed-in inputs are given. Supply is `rows * daily`. The total is
  the sum of the three.

The model computes three of the program's products and quotients by
repeated subtraction or addition: the interval width (`Pricing.Quotient`),
the minute of a value column (`Pricing.Times`) and the supply charge
(`Billing.Supply`). Each is proved equal to the program's operator. The
other products (`60 * hh`, `24 * 60`, the cell cost `t * energy`) stay as
`*`.

Both folds are modelled in the program's own left-fold shape and proved equal
to independent reference definitions. The rows fold is proved to succeed
exactly when every row succeeds, to add all cell costs, and otherwise to
report the first failing row's error. Within a row the fold does not stop at the first
failing cell: the closure parses the cell and looks up its rate before it
inspects the running sum, so the error reported is that of the LAST failing
cell. `Pricing.CellsFoldMeetsSpec` states this behaviour exactly.

The program parses dates with chrono and readings with Rust's `f64` parser.
Both are external libraries, so they enter the model as function parameters
(`Sources.weekdayOf`, `Sources.parseEnergy`). The tariff lookup is injected
into the pass as a function, as in the program. `Billing.TableLookup` builds
that function from a tariff table.

## Model

| member | source | states |
|---|---|---|
| Clock.MinutesSinceMidnight | src/main.rs:42-46 | a result is always an `i32` and comes only from text with exactly three colon-separated fields that each read as an `i32`; the malformed-text error occurs exactly when the field count is wrong or a field does not read; every other failure is `i32` overflow |
| Clock.FieldsMinutes | src/main.rs:43-45 | on the split fields: a result needs three fields that each read as an `i32`; the malformed-text error occurs exactly when that fails; otherwise the only error is overflow |
| Clock.ParseI32 | src/main.rs:43 | a field that reads is non-empty, holds no colon, ends in a digit, carries a minus sign when negative, and fits in `i32` |
| Clock.MinutesOfFields | src/main.rs:42-46 | for any text that splits into three fields that each read as an `i32` (signs and leading zeros allowed), the result is `mm + 60*hh` when that stays inside `i32`, and an overflow error otherwise |
| Clock.IntTextRoundTrip | src/main.rs:43 | every `i32` printed in decimal reads back as itself through the `{i32}` field parser |
| Clock.TimeTextMinutes | src/main.rs:42-46 | for any three `i32` values written `hh:mm:ss`, the parser returns `mm + 60*hh` when that arithmetic stays inside `i32`, and an overflow error otherwise |
| Clock.SecondsIgnored | src/main.rs:44 | two times that differ only in a well-formed seconds field give the same result |
| Clock.FieldCountRejected | src/main.rs:43 | text with other than three colon-separated fields is rejected as malformed |
| Clock.WallClockMinutes | src/main.rs:42-46 | a zero-padded wall-clock time `00:00:00`..`23:59:59` reads as `60*hh + mm`, a minute in [0, 1440) |
| Clock.WallClockMonotonic | src/main.rs:42-46 | later wall-clock times never map to earlier minutes, and a later hour or minute maps strictly later |
| Clock.UnitTestCases | src/main.rs:226-230 | `00:00:00` gives 0, `12:34:56` gives 754 and `23:59:59` gives 1439 |
| Tariffs.Lookup | src/main.rs:109-118 | the lookup fails exactly when no rule covers the day and minute, and then names both; otherwise it returns the rate of the first covering rule in table order |
| Tariffs.FirstMatchWins | src/main.rs:110-116 | when rule `k` is the first to cover the point, its rate is returned even if later rules overlap it |
| Tariffs.LookupAppend | src/main.rs:110-115 | appending rules never shadows an existing rule; the appended rules answer only the points the original table leaves uncovered |
| Tariffs.UnambiguousLookup | src/main.rs:110-116 | when all covering rules agree on the rate, any covering rule's rate is the result |
| Tariffs.ReorderUnambiguous | src/main.rs:110-116 | without conflicting overlaps, any rearrangement of the table gives the same lookup result |
| Tariffs.HolidayRuleFirstExample | src/main.rs:110-117 | a Sunday rule listed before an all-week default decides day 6, the default decides other days, and day 7 is uncovered |
| Tariffs.FindTariff | src/main.rs:109-118 | a linear scan returns the first matching rule's rate, or the no-tariff error exactly when nothing matches |
| Calendar.LeadSpec | src/main.rs:156 | the leading count covers white space only and stops at the first other character |
| Calendar.TrailSpec | src/main.rs:156 | the trailing count covers white space only and stops at the last other character |
| Calendar.Trim | src/main.rs:156 | the trimmed text is the contiguous slice of the input that starts after its leading white space |
| Calendar.TrimSpec | src/main.rs:156 | the trimmed text is a contiguous slice of the input with non-white ends, and everything cut from either end is white space |
| Calendar.TrimUnique | src/main.rs:156 | white space, then text with non-white ends, then white space always trims to that text |
| Calendar.TrimIdempotent | src/main.rs:156 | trimming a second time changes nothing |
| Calendar.TrimPadded | src/main.rs:156 | surrounding text with white space does not change its trimmed form |
| Calendar.DayIndex | src/main.rs:156-163 | a trimmed date in the holiday set is priced as day 6; any other date is priced as its weekday; the row fails with a date error exactly when it is no holiday and does not parse |
| Calendar.HolidayOverridesWeekday | src/main.rs:157-158 | a holiday gets day 6 whatever weekday, or parse failure, the date parser would give |
| Calendar.DayIndexIgnoresPadding | src/main.rs:156-157 | white space around a date does not change its day index |
| Pricing.IntervalIsDivision | src/main.rs:154 | the interval width by repeated subtraction equals the program's integer division `1440 / (columns - 1)` |
| Pricing.TimesIsProduct | src/main.rs:172 | the minute of value column `i` by repeated addition equals the program's `i * interval` |
| Pricing.ColumnMinuteInDay | src/main.rs:154-172 | every minute the pass queries, `i * interval` for a value column `i`, lies in [0, 1440), so the cast to `i32` cannot truncate |
| Pricing.IntervalsCoverDay | src/main.rs:154 | the value columns span at most one day and fall short of it by less than one minute per column; they span it exactly when the column count divides 1440 |
| Pricing.CellPrice | src/main.rs:172-177 | a cell prices exactly when its reading parses and the lookup gives a rate, and then costs rate times reading; an unreadable reading is the parse error; a readable reading whose lookup fails reports the lookup's own error (for a tariff table, the no-tariff error naming day and minute) |
| Pricing.CellsFold | src/main.rs:169-178 | a row without values costs 0, and a failing last cell's error is the row's error whatever the earlier cells did |
| Pricing.CellOutcomeAt | src/main.rs:171-177 | cell `i`'s reference outcome is that cell parsed and priced on its own at its column's minute |
| Pricing.CellsFoldMeetsSpec | src/main.rs:169-178 | a row's cell fold returns the sum of all cell costs when every cell prices, and otherwise the error of the last failing cell |
| Sums.LastErrorWitness | src/main.rs:174-177 | the error a row's cells report is that of a failing cell all of whose later cells price |
| Pricing.CellsFoldLocal | src/main.rs:169-178 | the cell fold consults the lookup only at its own cells' minutes, so lookups that agree there give the same row result |
| Pricing.RowStep | src/main.rs:130-179 | an earlier error passes through unchanged; a successful step counts one more row, takes the first row's width, accepts only rows of that width, and needs at least one value column |
| Pricing.PriceEnergy | src/main.rs:128-181 | a successful pass counts every row and reports the first row's width, which is then at least two |
| Pricing.PriceEnergyMeetsSpec | src/main.rs:128-180 | the row fold succeeds exactly when every row succeeds on its own, with the row count, the first row's width and the total of all cell costs; otherwise it reports the first failing row's error |
| Sums.FirstErrorWitness | src/main.rs:128-131 | the error the row fold reports is that of a failing row all of whose earlier rows succeed |
| Pricing.RowOutcomeAt | src/main.rs:131-179 | row `k`'s reference outcome is row `k` judged on its own against the first row's width |
| Pricing.PriceEnergyWidths | src/main.rs:134-152 | a successful pass saw rows of one common width with at least one value column |
| Pricing.EmptyFirstRowFails | src/main.rs:134-141 | a first row with no fields stops the pass with the zero-items error |
| Pricing.DateOnlyFirstRowFails | src/main.rs:154 | a first row with only a date stops the pass at the zero interval divisor |
| Pricing.ColumnMismatchReported | src/main.rs:143-149 | when every earlier row prices and row `k` has a different width, the error names row `k`'s width, its line number `k` and the first row's width |
| Pricing.PriceEnergyLocal | src/main.rs:154-175 | the pass consults the tariff only at days 0..6 and minutes in [0, 1440), so two lookups that agree there price every table identically |
| Pricing.PriceRows | src/main.rs:128-181 | a row-at-a-time loop computes the reference pass result, and its row and column counts |
| Billing.FeedinPass | src/main.rs:202-212 | the feed-in pass is the pricing pass over the feed-in table and tariff when both are given, and the empty result `(0, 0, 0.0)` otherwise |
| Billing.MakeBill | src/main.rs:214-216 | the bill carries both pass totals, supply as the daily charge once per consumption row, which equals `rows * daily`, and their sum as the total |
| Billing.ComputeBill | src/main.rs:196-216 | the bill exists exactly when both passes succeed; a consumption failure is reported first, then a feed-in failure; consumption and feed-in are the two passes' totals; feed-in is zero unless both feed-in inputs are given; supply is the daily charge once per consumption row; the total is the sum of the three |
| Billing.BillFeedinIsSpec | src/main.rs:202-212 | with both feed-in inputs given, a bill's feed-in cost is the reference total of the feed-in table |
| Billing.SupplyIsProduct | src/main.rs:214 | the daily charge added once per row equals the row count times the daily charge |
| Billing.SupplyIgnoresFeedin | src/main.rs:202-214 | the feed-in inputs change neither the supply charge nor the consumption cost |
| Billing.BillConsumptionIsSpec | src/main.rs:196-200 | a bill's consumption cost is the reference total of the consumption table |

## Left out

- Command-line parsing (`Args`, clap), logging and the two `println!` lines:
  they are I/O. The model returns the `Bill` value that would be printed.
- `load_tariff`, `load_supply_charge`, `load_public_holidays` and the CSV
  reader: file I/O. Tariff tables, the daily charge, the holiday set and the
  tokenised energy rows are inputs. So is the loaders' own conversion of
  tariff rows, which uses `minutes_since_midnight` (modelled) and Rust's
  integer and float parsers.
- The CSV reader's own errors, including its record-length check and header
  handling: they belong to the csv library. Rows arrive already split. The
  reader is built without `.flexible(true)`, so under the csv crate's default
  it rejects a record whose length differs from an earlier one's, before the
  width check at src/main.rs:143-149 runs. `ColumnMismatch` (and
  `Pricing.ColumnMismatchReported`) therefore describes only the check the
  program makes on rows, as the model receives them; on real CSV input the
  reader's own error comes first.
- chrono's `%Y%m%d` date parser and weekday calculation: the parameter
  `Sources.weekdayOf`.
- Rust's `f64` parser: the parameter `Sources.parseEnergy`.
- Floating-point rounding: costs are `real`, so the fixture totals in the
  program's tests are not reproduced digit for digit.
- Clock.ParseI32: its contract states the properties listed above, not the
  full accepted language; `Clock.IntTextRoundTrip` covers canonical decimal
  text. It accepts any number of digits with a value in the `i32`
  range. It does not model any digit-count cap the sscanf crate's `{i32}`
  pattern may impose on leading zeros.
- Tariffs.Tariff: the days are `int`, not the program's `i16`, and the
  minutes are `int`, not `i32`. Lookup only compares them, and the loader
  produces them within range.
- Pricing.DateOnlyFirstRowFails: when the first row holds only its date, the
  program divides by zero and panics. The model reports this as the error
  `ZeroInterval`.
- Clock.MinutesSinceMidnight: `i32` overflow of `60 * hh` or `mm + 60 * hh`
  panics in a debug build and wraps in a release build. The model reports
  the error `MinuteOverflow` and models neither.
- Error message text: errors are the `BillError` constructors with the
  values the messages print (widths, line number, day, minute).
