# Fitbit step export: minute gap filler

A Fitbit per-day step export (`steps_YYYY-MM-DD.csv`) has one row per minute,
`timestamp,steps`, but omits the minutes in which no steps were taken.
`parser/main.py` rebuilds those minutes as zero-step rows:

- `get_first_timestamp` takes the first `\d{4}-\d{2}-\d{2}` in the file's base
  name and appends `T00:00:00Z`: the midnight the day should start from;
- `need_complement(last, current)` parses both `%Y-%m-%dT%H:%M:%SZ` texts and
  answers whether `current` is more than one minute after `last`;
- `next_timestamp(t)` is the text of `t` plus one minute, with calendar rollover;
- `main` drops the CSV header, starts `last_timestamp` at the baseline and, for
  the first data row, emits `[next_timestamp(last_timestamp), 0]` and advances
  `last_timestamp` while the row is still more than a minute ahead; then it sets
  `last_timestamp` to the row's timestamp and stops (the row loop ends in `break`).

The Dafny model has four modules:

- `Wrappers` (`wrappers.dfy`): `Option` and `Result`, used for Python's exceptions.
- `Calendar` (`calendar.dfy`): the part of Python's `datetime` the code relies on.
  A `DateTime` holds the six fields. `Seconds` is Python's day ordinal times 86400
  plus the time of day; it uses the closed form of `_days_before_year`.
  `PlusOneMinute` adds one minute, field by field. Lemmas prove that it advances
  `Seconds` by exactly 60, and that `Seconds` orders instants like the calendar does.
- `TimestampText` (`timestamp_text.dfy`): `strptime`/`strftime` for the canonical
  20-character form, with both round trips proved.
- `GapFiller` (`gap_filler.dfy`): the four parts of `parser/main.py` listed above.
  The `while need_complement(...)` loop is the method `FillGap`. It is proved against
  the specification `ExpectedFill`: the recursive function `FillInstants` lists the
  instants the loop fills in, and `ZeroRows` formats them as `[timestamp, 0]` rows.
  `main` is the method `ProcessExport`.

Python's exceptions become `Error` values:
- `NoDateInName`: the `IndexError` of `date[0]`.
- `MissingHeader`: the `StopIteration` of `next(reader)` on an empty file.
- `EmptyRow`: the `IndexError` of `row[0]` on a blank CSV line.
- `BadTimestamp`: the `ValueError` of `strptime`.
- `Overflow`: the `OverflowError` of adding a minute to the last representable minute.
  Inside the fill loop this one is proved impossible.

Three behaviours of the code that the model keeps:
- the code processes only the first data row;
- an out-of-order row raises no error, it is simply no gap (`OutOfOrderIsNoGap`);
- the code never emits the real rows, it only prints them.

## Model

| member | source | states |
|---|---|---|
| `GapFiller.Basename` | parser/main.py:18 | the result is the longest suffix of the path without '/': the whole path, or the text after its last '/' |
| `GapFiller.FirstDateFrom` | parser/main.py:17-18 | the leftmost position at or after `i` where `\d{4}-\d{2}-\d{2}` matches, or `None` exactly when it matches nowhere there |
| `GapFiller.GetFirstTimestamp` | parser/main.py:17-20 | fails with `NoDateInName` exactly when the base name holds no date; otherwise the leftmost match in the base name followed by `T00:00:00Z` |
| `GapFiller.DirectoryIgnored` | parser/main.py:18 | directory components never influence the baseline: `dir/name` gives the same result as `name` |
| `GapFiller.FirstTimestampOfPlainName` | parser/main.py:18-20 | for a name without '/', the baseline is the name's first date followed by `T00:00:00Z` |
| `TimestampText.ParseTimestamp` | parser/main.py:34-35 | only texts naming a valid `datetime` parse |
| `TimestampText.ParseFormat` | parser/main.py:49-52 | formatting a valid instant and parsing it back gives the same instant |
| `TimestampText.FormatParse` | parser/main.py:49-52 | every text that parses is canonical: formatting the parsed instant gives the text back |
| `GapFiller.NeedComplement` | parser/main.py:23-37 | the current row's text is parsed first and its failure reported first, then the last one's; it succeeds exactly when both parse |
| `GapFiller.NeedComplementByCalendar` | parser/main.py:37 | a gap exists exactly when the minute after `last` exists and is still strictly before `current` in calendar order |
| `GapFiller.NoGapWithinAMinute` | parser/main.py:37 | equal instants and instants exactly one minute apart are no gap |
| `GapFiller.OutOfOrderIsNoGap` | parser/main.py:37 | a current instant earlier than the last one is no gap and raises nothing |
| `Calendar.PlusOneMinuteAdvances` | parser/main.py:50 | adding a minute fails only in the last minute of 9999-12-31, otherwise gives a valid instant 60 seconds later with the same seconds field (rolling over hour, day, month, year, leap-year February) |
| `Calendar.SecondsOrder` | parser/main.py:37 | the seconds count orders valid instants exactly as the calendar does and is injective, so comparing differences is comparing instants |
| `Calendar.PlusOneMinuteDefined` | parser/main.py:79 | when a valid instant lies more than a minute ahead, adding a minute cannot overflow |
| `GapFiller.NextTimestamp` | parser/main.py:49-52 | fails on unparsable text or in the last representable minute; otherwise returns a canonical text of the instant 60 seconds later with the seconds kept |
| `GapFiller.NextOfParsed` | parser/main.py:49-52 | the text `next_timestamp` returns parses to exactly the minute after the parsed input |
| `GapFiller.NextIsNoGap` | parser/main.py:37-52 | consecutive minutes are never a gap: `need_complement(t, next_timestamp(t))` is false |
| `GapFiller.FillInstants` | parser/main.py:76-84 | every instant the loop fills in is a valid `datetime`, so `next_timestamp` never overflows inside the loop |
| `GapFiller.FillInstantAt` | parser/main.py:76-84 | the i-th filled instant (from 0) lies exactly i + 1 minutes after the baseline |
| `GapFiller.FillInstantsSpaced` | parser/main.py:76-84 | all filled instants at once: each is one minute after the one before, the first one minute after the baseline |
| `GapFiller.FillInstantsCount` | parser/main.py:76-84 | with a gap of `g` seconds, `(g - 1) / 60` rows are made when `g` > 60 and none otherwise; afterwards the row is at most one minute, and more than zero, after the last emitted instant |
| `GapFiller.AlignedGapCount` | parser/main.py:76-84 | for minute-aligned input k >= 1 minutes apart, exactly k - 1 rows are made |
| `GapFiller.SyntheticRowsCloseGap` | parser/main.py:76-86 | after the last synthesised row, the real row is no longer a gap |
| `GapFiller.MidnightInstants` | parser/main.py:70-84 | for every day, from midnight to 00:03 the instants 00:01 and 00:02 are filled, in that order |
| `GapFiller.MidnightExample` | parser/main.py:70-84 | for every day, a baseline at midnight and a first row at 00:03 yield the rows `[00:01, 0]` and `[00:02, 0]` |
| `GapFiller.FillStep` | parser/main.py:76-84 | when the row is more than a minute ahead, the minute after `last` exists, is filled first, and the remaining fill starts from it |
| `GapFiller.StampsAreZeroRows` | parser/main.py:79-81 | rows `[text, 0]` whose texts parse to the filled instants are exactly the formatted rows of those instants |
| `GapFiller.FillTurn` | parser/main.py:76-84 | one turn of the loop keeps the loop state: `last_timestamp` moves one minute on, the emitted rows gain its row, and emitted plus remaining instants stay the whole fill |
| `GapFiller.ExpectedFillOfFormatted` | parser/main.py:34-35 | on formatted instants the fill is the one between the instants themselves |
| `Calendar.PlusOneMinute` | parser/main.py:50 | `+ timedelta(minutes=1)`; its contract is carried by `Calendar.PlusOneMinuteAdvances`: `None` (OverflowError) exactly in the last representable minute, otherwise a valid instant 60 seconds later with the seconds kept |
| `Calendar.Seconds` | parser/main.py:37 | the quantity whose difference is `datetime - datetime`; `Calendar.SecondsOrder` proves it orders instants as the calendar does and tells them apart |
| `TimestampText.FormatTimestamp` | parser/main.py:52 | `strftime('%Y-%m-%dT%H:%M:%SZ')`: always 20 characters; `TimestampText.ParseFormat` and `TimestampText.FormatParse` prove it inverse to `ParseTimestamp` on valid instants and canonical texts |
| `GapFiller.ZeroRows` | parser/main.py:81 | the `[next_time, 0]` rows, one per instant; `GapFiller.StampsAreZeroRows` proves that rows with zero steps whose texts parse to the instants are exactly these |
| `GapFiller.ExpectedFill` | parser/main.py:76-84 | what the `while` loop must produce: the row's parse error, else the baseline's, else the zero-step rows of the filled instants; `GapFiller.FillGap` is proved equal to it |
| `GapFiller.FillGap` | parser/main.py:76-84 | the loop terminates and yields the row's parse error, else the baseline's, else exactly the formatted zero-step rows of the filled instants |
| `GapFiller.ProcessExport` | parser/main.py:59-87 | `NoDateInName` for a name without date, `MissingHeader` for an empty file, no rows when there is no data row, `EmptyRow` for a blank first data row; otherwise the fill for the first data row only, with `last_timestamp` left at that row's text |

## Left out

- File opening and CSV reading (`open`, `csv.reader`): the input is the list of CSV records, header first; errors of opening and reading the file are not modelled.
- The `print` calls: they are diagnostics. The output is the returned list of synthesised rows. The source prints each real row before its fill rows; the model does not record real rows.
- The hard-coded input path and the `__main__` guard are configuration; `ProcessExport` takes the path as a parameter.
- `re` and `os.path.basename` are modelled by a scan for the fixed pattern and the text after the last '/'. `\d` is taken as the ASCII digits. Python's `re` also accepts other Unicode decimal digits.
- `ParseTimestamp`: models only the canonical 20-character form. `strptime` is more lenient: it accepts unpadded fields and lower-case `t` and `z`. The model treats such texts as parse failures.
- `FormatTimestamp`: always pads the year to four digits. The C library's `strftime` under Linux writes years below 1000 without padding, so for a file named like `steps_0999-01-01.csv` Python writes `999-01-01T00:01:00Z`, which its own `strptime` then rejects (`%Y` wants four digits): the second `need_complement` raises ValueError there, while the model fills the whole gap.
- Step counts: they are copied as opaque text and never read. The model does not represent them.
- Microseconds and time zones: the format carries neither, so every instant has zero microseconds and is naive.
