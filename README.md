# Restaurant scorecard reconciliation, modelled in Dafny

The scorecard generator reads two inputs: a CSV export of delivery orders and a compliance tracker (a CSV file or a workbook) that records, per restaurant, whether it posted on Instagram, Facebook, Google and on each day of the week. Its core reconciles the two:

- it normalises restaurant names so the two sources can be compared;
- it keeps the orders that count;
- it reads the tracker rows and scores each restaurant;
- it maps every order's place name onto a tracker name;
- it picks the busiest Sunday-to-Saturday week;
- it counts each restaurant's orders per day of that week;
- it orders the report with active restaurants first.

The core exists twice:

- `app.py` is the web front end. It accepts CSV or workbook trackers and has a fuzzy matching step.
- `generate_scorecards.py` is the command-line tool. It reads workbooks only and uses a hand-written override table instead of fuzzy matching.

The model keeps both variants where they differ.

Modules, one per stage:

- `Wrappers`: `Option` and `Result`.
- `Text`: Python's `isspace`, `strip`, `lower`, `upper`, `in` on strings, and string `<=`.
- `Normalizer`: `normalize`. There are two definitions.
  - `Normalize` is a single pass over the name.
  - `NormalizeSteps` is the source's pipeline: drop non-ASCII, replace `&`, split, join, strip, lower.
  - They are proved equal.
- `Calendar`: timestamps are whole minutes since 0001-01-01 00:00, which is a Monday. This module holds the Sunday-start day of week, the week's Sunday, and the week-of-month number.
- `OrderIngest`: the row filter of `load_orders`, and its abort on a row too short to reach its `Place`, `Status` or `Date` column.
- `TrackerIngest`: both branches of `load_scorecard`.
  - `val` and `val_xl` coerce a cell to `Yes`, `No` or `NA`.
  - It skips header and `sum` rows and computes the score.
  - On a duplicate key, the last row wins.
- `NameReconciler`: the two variants of `build_name_map`. They iterate a Python `set` in an unspecified order, so the model picks elements with `:|`.
- `DayAggregator`: `count_orders_by_day`, a map of seven-slot counters updated in place.
- `WeekSelector`: `determine_week`. It builds an insertion-ordered week count, then applies `max`, which keeps the first maximal key.
- `ReportAssembler`: the report sort key and the sort itself. It also covers the two definitions of an "active" restaurant.

## Model

| member | source | states |
|---|---|---|
| Normalizer.NormalizeIsSteps | app.py:36-43 | The single-pass key equals the five-stage pipeline (ASCII filter, `&`→`and`, split/join, strip, lower) on every name, the empty name included |
| Normalizer.NormalizeShape | app.py:36-43 | Every key is ASCII only, has no `&` and no upper-case letter, uses only plain spaces, has no space at either end and no two spaces in a row |
| Normalizer.StepsFixNormalForm | generate_scorecards.py:43-50 | The pipeline returns any string already in that normal form unchanged |
| Normalizer.NormalizeIdempotent | app.py:36-43 | `normalize(normalize(s)) == normalize(s)` |
| Normalizer.NormalizeDropsNonAscii | app.py:40 | Removing any one non-ASCII character, an accented letter included, leaves the key unchanged: accents are dropped, not transliterated |
| Normalizer.NormalizeStrip | app.py:98-112 | `normalize(name.strip()) == normalize(name)`: the key is a function of the stored display name |
| Text.StrLeTotal | app.py:453-456 | Python string `<=` is total |
| Text.StrLeTransitive | app.py:453-456 | Python string `<=` is transitive |
| Calendar.DayOfWeek | app.py:52-54 | Result is in 0..6; it is 0 exactly on Sundays; stepping back that many days lands on a Sunday |
| Calendar.WeekSunday | app.py:56-59 | Result is a midnight Sunday `s` with `s <= t < s + 7 days`; `t - s` is the day of week in days plus the time of day |
| Calendar.WeekSundayUnique | app.py:56-59 | Any midnight Sunday whose 7-day window holds `t` is `get_week_sunday(t)` |
| Calendar.InWindowIffWeek | app.py:185-189 | For a midnight Sunday `s`, the window test `s <= t < s + 7 days` holds iff `t`'s week starts at `s` |
| Calendar.DayOfWeekInWindow | app.py:192-194 | Inside such a window, the day slot is the number of whole days since `s` |
| Calendar.WeekOfMonth | generate_scorecards.py:191 | `(day-1)//7 + 1` lies in 1..5 and picks the 7-day span of the month that holds `day` |
| OrderIngest.LoadOrders | app.py:62-79 | A row shorter than the header has `None` in the cells it does not reach, and `.strip()` on such a cell raises: the load fails exactly when some row is too short to reach its `Place`, `Status` or `Date` column. Otherwise the loop returns exactly `Kept(rows)`, the kept rows' orders in row order |
| OrderIngest.HasMissingCellIff | app.py:68-70 | The load fails exactly when some row has a `None` filler in its `Place`, `Status` or `Date` cell |
| OrderIngest.KeptAppend | app.py:67-78 | The filter works row by row: `Kept(a + b) == Kept(a) + Kept(b)` |
| OrderIngest.KeptFromRows | app.py:68-78 | Every kept order comes from a row with a non-empty stripped place, a parsed date, a key other than `opi orders` and a status other than cancelled / rejected by place; its place is stripped and its key is `normalize(place)` |
| OrderIngest.KeptHasRow | app.py:68-78 | Every row passing those four tests yields its order |
| TrackerIngest.DataRows | app.py:93-94 | Data starts after the four header rows (CSV index 4, worksheet row 5) |
| TrackerIngest.Val | app.py:103-108 | `Yes` iff the stripped, upper-cased text is `TRUE`; `NA` iff it is `NA`; anything else is `No` |
| TrackerIngest.ValXl | app.py:133-138 | `Yes` iff the cell is the boolean true; `NA` iff it is text whose stripped upper-case form is `NA`; anything else is `No` |
| TrackerIngest.LoadScorecardCsv | app.py:86-121 | The loop returns the table folded from the data rows' outcomes |
| TrackerIngest.LoadScorecardXlsx | generate_scorecards.py:93-132 | The loop fails iff some data row's name cell is truthy but not text; otherwise it returns the folded table |
| TrackerIngest.TableKeys | app.py:111 | A key is in the table iff some row put it there |
| TrackerIngest.TableLastWins | generate_scorecards.py:115 | The record kept for a key is the one from the last row that put that key |
| TrackerIngest.TableFromRows | app.py:140 | Every table record was put by some row under that key |
| TrackerIngest.CsvRecordScored | app.py:117-120 | `stories` has 7 entries; the score is 10 × the number of `Yes` among IG, FB, Google and the seven days, so a multiple of 10 in 0..100 |
| TrackerIngest.XlRecordScored | generate_scorecards.py:123-129 | The score counts columns C..L holding exactly `True`, which are the same ten flags; a multiple of 10 in 0..100 with 7 stories |
| TrackerIngest.ScoreIgnoresTipTag | app.py:113-119 | Changing the tip-and-tag cell never changes the score, in either branch |
| TrackerIngest.CsvTableWellFormed | app.py:94-120 | Every CSV table entry is well scored and is the record of a row of at least 12 cells whose name is non-empty, is not `sum` once stripped and lower-cased, and normalises to the entry's key |
| TrackerIngest.XlTableWellFormed | app.py:127-153 | Every workbook table entry is well scored and is the record of a row whose name cell is non-empty text, is not `sum` once stripped and lower-cased, and normalises to the entry's key |
| TrackerIngest.RowKeyFromDisplayName | app.py:111-112 | A row's key is `normalize` of the display name it stores, in both branches |
| TrackerIngest.XlRowCrash | app.py:128-129 | A workbook row aborts the load exactly when its name cell is `True` or a non-zero number |
| NameReconciler.BuildNameMap | app.py:159-181 | Keys ⊆ order keys and values ⊆ tracker keys. An exact key maps to itself. Otherwise some containment-related tracker key is chosen if one exists. Otherwise the fuzzy answer is used if there is one. Otherwise the key is absent |
| NameReconciler.BuildNameMapManual | generate_scorecards.py:137-154 | Keys ⊆ order keys and values ⊆ tracker keys. Exact match comes first. Then the override is used, only if its target is a tracker key. Then some containment-related key. Otherwise the key is absent; there is no fuzzy step |
| NameReconciler.Unmatched | generate_scorecards.py:391-394 | `order_norms - keys` is exactly the order keys with no exact, override or containment match |
| NameReconciler.EmptyRelated | app.py:170 | `""` is related to every key, in both directions |
| NameReconciler.EmptyOrderKeyMatched | app.py:169-173 | An order key that normalised to `""` (a place of non-ASCII characters only passes the non-empty test at app.py:72) is mapped as soon as any tracker key exists |
| NameReconciler.EmptyTrackerKeyMatchesAll | generate_scorecards.py:150-153 | A tracker key `""` makes every order key mapped, in both variants |
| NameReconciler.VariantsAgree | generate_scorecards.py:137-154 | Where no override applies, the two variants agree on exact matches; the command-line tool maps nothing the web front end leaves unmapped; the only extra mappings are fuzzy ones |
| DayAggregator.CountOrdersByDay | generate_scorecards.py:159-171 | The counter keys are exactly the mapped names of counted orders; every vector has 7 slots; slot `d` of `k` is the number of counted orders mapped to `k` on day `d`; the sum of all counters is the number of counted orders |
| DayAggregator.CountedKeysIff | app.py:183-195 | A name has counters iff some order in the week is mapped to it and the name is not `""` |
| DayAggregator.TallyHasOrder | generate_scorecards.py:167-170 | Every counted order adds at least one to slot `dow(date)` of its name |
| DayAggregator.UncountedIgnored | generate_scorecards.py:165-168 | Orders outside the window, without a mapping, or mapped to `""` change no counter, no key and no total |
| WeekSelector.DetermineWeek | generate_scorecards.py:176-188 | With no orders, the week of `now`. Otherwise a midnight Sunday that starts some order's week, whose count is ≥ every order's week count; on a tie, no order of another tying week comes before the first order of the chosen week |
| WeekSelector.FirstMax | generate_scorecards.py:188 | `max(keys, key=count.get)`: a key of largest count, strictly larger than every key before it |
| WeekSelector.ChosenWeek | app.py:204-209 | The first listed week of largest count holds an order, beats every week, and wins ties by first appearance |
| WeekSelector.WeeksMembers | app.py:204-207 | A week is a key of `week_counts` iff some order falls in it |
| WeekSelector.WeeksDistinct | app.py:204-207 | No week is a key twice |
| WeekSelector.WeeksOrder | app.py:204-207 | A week listed earlier has an order no later than any order of a week listed later |
| ReportAssembler.KeyLeTotal | app.py:451-457 | The sort key order is total |
| ReportAssembler.KeyLeTransitive | app.py:451-457 | The sort key order is transitive |
| ReportAssembler.SortReport | app.py:451-457 | The sorted report is a permutation of the entries and is ordered by (active first, display name) |
| ReportAssembler.ReportOrder | app.py:451-457 | Every entry appears once. Active entries come before all inactive ones. Within each group, display names are non-decreasing |
| ReportAssembler.ActiveAgree | app.py:450-455 | On counters built by `count_orders_by_day`, the web front end's flag equals the command-line tool's `k in daily_counts` (generate_scorecards.py:410). The web flag is: a name-map target whose day sum is positive |
| ReportAssembler.ReportsAgree | generate_scorecards.py:408-411 | Given the same name map and the counters built from it, the two sort keys order the tracker identically. The two front ends build different name maps, so their orders can still differ |
| ReportAssembler.OrdersPerDayTallies | generate_scorecards.py:415 | `daily_counts.get(k, [0]*7)` has 7 slots, each the number of that day's counted orders for `k` (zero for a name without counters) |

## Left out

- Web page, command-line `main`, HTML templating, image conversion, zip packaging and file output: presentation and I/O, not reconciliation.
- Byte decoding, the `csv` reader and workbook loading: rows arrive as sequences of cell texts or cell values.
- `parse_date` (`strptime` with the `21 Feb 2026 11:57 pm` format): a `Date` text cell arrives already parsed, or `None` when parsing failed.
- `difflib.get_close_matches`: a parameter `close` that offers at most one tracker key; its similarity ratio is not modelled.
- `datetime.now()`: a parameter `now`. The month name and year from `strftime` are not modelled.
- Converting a week-start timestamp to its day of the month is not modelled. `Calendar.WeekOfMonth` takes the day of the month as given.
- Python `datetime` range limits (years 1 to 9999) are not modelled: timestamps are unbounded integers.
- Workbook cells holding floats or dates: `XCell` has only blank, text, boolean and integer values.
- The web front end's float score `int((true_count / 10.0) * 100)` is modelled as `10 * true_count`; the two agree for every count 0..10.
- Unicode case mapping: `lower` and `upper` map ASCII letters only. For the comparisons the source makes (`sum`, `cancelled`, `rejected by place`, `TRUE`, `FALSE`, `NA`), a non-ASCII character can only matter through the long s, which upper-cases to `S`. It can only turn some text into `FALSE`, whose value equals the default `No`.
- The file-name sanitiser for output files: it depends on Unicode `\w` and `\s` classes and only names output files.
- The web front end's `Error parsing data` message: a failed workbook load is `Failure(NameNotText)`.

`normalize` drops accented letters rather than transliterating them, so `normalize("Café – Déjà Vu 🍕")` is `"caf dj vu"` (`Normalizer.NormalizeDropsNonAscii`).
