# reminder.py in Dafny

reminder.py is a small reminder daemon. A user submits a message with a due time. The
due time is given as a `when` expression (fields such as `12h3m45s` laid over the current
date-time) or an `after` expression (an offset from now). The due time is stored as a
14-digit `YYYYMMDDHHMMSS` integer in an sqlite table `items`. A daemon polls that table,
notifies the earliest item once it is due, and moves it to a table `history`.

This project models that core and proves its properties. It has six modules:

- `Results` (results.dfy): `Option` and `Result`.
- `Calendar` (calendar.dfy): the proleptic Gregorian calendar of Python's `datetime`.
  - The range check of `valid_datetime` is the predicate `ValidDateTime`.
  - The date-time ⇄ seconds conversion behind `datetime + timedelta` is `ToSeconds` and
    `FromSeconds`. `ToSeconds` uses the closed-form day count of Python's `datetime`;
    `FromSeconds` searches year by year and month by month. The two are proved inverse.
- `Encoding` (encoding.dfy): `date2int`, modelled literally.
  - Each field is printed with `{:Nd}`, the text is concatenated, spaces become `0`, and
    `int()` reads the result.
  - It is proved equal to the arithmetic packing `Y·10^10 + M·10^8 + D·10^6 + h·10^4 + m·100 + s`.
  - That packing is proved invertible by division and remainder, and to order date-times
    chronologically.
- `TimeParse` (timeparse.dfy): `parse_time` and its inner `__parse`.
  - Each of the six regular expressions is an explicit scanner. The scanner is proved
    equivalent to a declarative reading of the pattern.
  - `__parse` is the cascade p1..p6, each pattern searched leftmost.
  - `valid_datetime` is `CheckDateTime`. It adds the OverflowError that `datetime.datetime`
    raises for a field beyond a C int, which `except ValueError` lets through.
  - Also here: the `when` overlay, the `after` offset with calendar carry and overflow, and
    the due time `main` stores.
- `ParseExamples` (parse_examples.dfy): the behaviour on the expressions that the tests and
  the documentation use.
- `Store` (store.dfy): the `DB` class as a Dafny class.
  - It holds two id→row maps and the two AUTOINCREMENT counters.
  - Methods: `insert`, `delete`, `move`, `select_one`, the ordering of `show_all`, and
    `clean_all`.
- `Scheduler` (scheduler.dfy): one pass of `ReminderDaemon.run`'s loop as `Tick`, and the
  loop over a finite sequence of clock readings as `Run`.

The current time is a parameter everywhere that reads the clock. The notification is the
entry that `Tick` returns.

## Model

| member | source | states |
|---|---|---|
| `Calendar.ValidIffInstant` | reminder.py:442-447 | a date-time is valid exactly when it is one of the instants 0001-01-01 00:00:00 .. 9999-12-31 23:59:59 |
| `Calendar.ValidDateTimeTestCases` | test/reminder_test.py:40-50 | the nine accepted and rejected field combinations of the test suite |
| `Calendar.FromToSeconds` | reminder.py:510-511 | converting a valid date-time to seconds and back gives it back |
| `Calendar.ToSeconds` | reminder.py:510-511 | every valid date-time lies between 0 and MaxSeconds seconds after 0001-01-01 00:00:00 |
| `Calendar.FromSeconds` | reminder.py:510-511 | every second count up to the end of year 9999 names a valid date-time with that count |
| `Encoding.Date2Int` | reminder.py:449-457 | for fields that fit their widths, the padded-text encoding equals Y·10^10 + M·10^8 + D·10^6 + h·10^4 + m·100 + s |
| `Encoding.UnpackPack` | reminder.py:449-457 | each field is recovered from the encoding by division and remainder |
| `Encoding.PackUnpack` | reminder.py:449-457 | every non-negative integer is the packing of its unpacked fields |
| `Encoding.PackOrder` | reminder.py:449-457 | numeric order of encodings is field-by-field order |
| `Encoding.EncodingIsChronological` | reminder.py:449-457 | for valid date-times, one encoding is smaller exactly when that date-time is earlier, and the encodings are equal exactly when the date-times are |
| `TimeParse.MatchAt` | reminder.py:463-468 | pattern k anchored at a position yields one digit group per unit from k on |
| `TimeParse.MatchAtIsMatch` | reminder.py:463-468 | the scanner yields groups exactly when the regular expression matches there with those groups |
| `TimeParse.SearchFrom` | reminder.py:471 | `pat.search` finds the leftmost position where the pattern matches, or reports that it matches nowhere |
| `TimeParse.GroupsToFields` | reminder.py:473-476 | the dict holds the fields of the pattern, each the value of its digits; it fails at `int('')` exactly when a group is empty |
| `TimeParse.ParseFrom` | reminder.py:470-479 | the cascade fails only with "invalid format" or an empty group, and on success its keys are the fields of one pattern |
| `TimeParse.Parse` | reminder.py:462-479 | `__parse` fails only with "invalid format" or an empty group, and on success holds exactly the fields of one pattern, a suffix of year..second |
| `TimeParse.ParseIsFirstLeftmostMatch` | reminder.py:470-477 | `__parse` takes the groups of the leftmost match of the first pattern that matches anywhere, and succeeds exactly when none of them is empty |
| `TimeParse.InvalidFormatIffNoSecondUnit` | reminder.py:470-479 | "invalid format of time" is raised exactly when no pattern matches, which is exactly when the text has no `s` |
| `TimeParse.ParseFullExpression` | reminder.py:463-477 | a full `…Y…M…D…h…m…s` expression is read back field for field |
| `TimeParse.Overlay` | reminder.py:494-496 | each parsed field replaces that field of "now" and every other field keeps its value |
| `TimeParse.AddSeconds` | reminder.py:510-511 | adding a timedelta gives the valid date-time that many seconds later, and overflows exactly past 9999-12-31 23:59:59 |
| `TimeParse.CheckDateTime` | reminder.py:442-447 | a field beyond a C int raises an overflow; otherwise the answer is true exactly for a valid date-time, and then the encoding decodes back to it |
| `TimeParse.WhenMode` | reminder.py:483-502 | a parse error propagates; overflow exactly when an overlaid field is beyond a C int; "invalid datetime" exactly when the overlay fits but is no valid date-time; otherwise the result decodes to the overlay |
| `TimeParse.AfterMode` | reminder.py:505-512 | a parse error propagates; overflow exactly when now plus the offset is past 9999-12-31 23:59:59; otherwise the result decodes to the valid date-time that many seconds after now |
| `TimeParse.ParseTime` | reminder.py:459-512 | `parse_time` returns None exactly when neither `when` nor `after` is a non-empty string, and any time it returns is the encoding of a valid date-time |
| `TimeParse.WhenTakesPrecedence` | reminder.py:483-502 | with `when` given, `after` does not affect the result |
| `TimeParse.WhenOverlaysParsedFields` | reminder.py:483-502 | with `when` given: a parse error propagates; overflow exactly when an overlaid field is beyond a C int; "invalid datetime" exactly when the overlay fits but is no valid date-time; a valid overlay gives exactly its encoding, whose fields are the parsed ones and now's others |
| `TimeParse.AfterAdvancesNow` | reminder.py:505-512 | with `when` not given and `after` given: a parse error propagates; otherwise the result is now advanced by day·86400 + hour·3600 + minute·60 + second seconds, overflow happens exactly past year 9999, and the encoding never decreases |
| `TimeParse.FullExpressionIsExact` | reminder.py:483-502 | a full `when` expression of a valid date-time gives exactly that date-time's encoding, whatever "now" is |
| `TimeParse.DueTime` | reminder.py:579-583 | with `when` or `after` given, the stored due time is exactly what `parse_time` returns or raises; with neither, it is the encoding of now; it always decodes to a valid date-time |
| `ParseExamples.ParseClockExpression` | reminder.py:466-477 | an `…h…m…s` expression is read by p4 as exactly its hour, minute and second |
| `ParseExamples.MinutesWithoutSecondsRejected` | reminder.py:463-479 | `13h2m` matches no pattern and is rejected as an invalid format |
| `ParseExamples.TestExpressionParses` | test/reminder_test.py:54 | `12h3m45s` parses to hour 12, minute 3, second 45 |
| `ParseExamples.WhenClockExpression` | reminder.py:483-502 | a clock expression given as `when` keeps the date of now and sets the time of day |
| `ParseExamples.WhenTestExpression` | test/reminder_test.py:53-61 | `when='12h3m45s'` gives a due time ending in 120345 for every now, with or without `after` |
| `ParseExamples.AfterLandsOn` | reminder.py:505-512 | `after` lands on the one valid date-time that lies the parsed offset after now |
| `ParseExamples.AfterExample` | reminder.py:505-512 | `after='12h3m5s'` from 2024-01-01 00:00:00 is due at 20240101120305 |
| `Store.ReminderDb.constructor` | reminder.py:285-309 | a fresh database has both tables empty and both id sequences at 1 |
| `Store.ReminderDb.Insert` | reminder.py:313-320 | one row is added under an id above every id the table has handed out, and the other table is unchanged |
| `Store.ReminderDb.Delete` | reminder.py:355-360 | only the row with that id is removed, and nothing changes when it is absent |
| `Store.ReminderDb.Move` | reminder.py:364-367 | a history row with the given fields is added under a fresh history id, and then the items row is removed |
| `Store.ReminderDb.SelectOne` | reminder.py:324-330 | None exactly when `items` is empty; otherwise a row no other item is due before |
| `Store.ReminderDb.ShowAll` | reminder.py:334-340 | every row of the table exactly once, in ascending due time |
| `Store.EarliestExists` | reminder.py:326 | every non-empty table has a row that is due first |
| `Store.KeepFrom` | reminder.py:346-349 | exactly the rows due at or after the cutoff are kept, unchanged |
| `Store.KeepFromTwice` | reminder.py:343-351 | purging twice is purging once with the later cutoff, so a repeated clean changes nothing more |
| `Store.ReminderDb.CleanAll` | reminder.py:343-351 | the table argument is ignored; items due before the cutoff go, all of history goes, and the id sequences are kept |
| `Store.RawCutoff` | reminder.py:345 | the cutoff as written is the digit encoding of now minus 120, which in the digits is one minute and twenty seconds back |
| `Store.GraceCutoff` | reminder.py:345 | the corrected cutoff is the encoding of the valid date-time 120 seconds before now, or 0 within the first two minutes of year 1 |
| `Store.RawCutoffDropsFreshItem` | reminder.py:345 | with the cutoff as written, an item one second overdue at 10:00:00 is deleted |
| `Store.GraceCutoffDropsOnlyStale` | reminder.py:345 | with the corrected cutoff, an item is deleted exactly when it was due more than 120 seconds before now |
| `Scheduler.Tick` | reminder.py:381-391 | fires at most one item, an earliest one, only when it is due, and moves it; when nothing fires both tables are unchanged and no item is due |
| `Scheduler.Run` | reminder.py:381-393 | over any clock readings, each fired item was waiting at the start and fires once, items fire in due-time order, and history gains exactly the fired rows in firing order; each firing happens on its own reading, at which the item was due (`now >= when`), and a reading that fired nothing found no waiting item due |

## Left out

- The `Daemon` class (reminder.py:81-276) is not modelled. It covers fork, setsid, signals,
  the pidfile and `/proc` probing, which are process lifecycle rather than scheduling.
- `notify` (reminder.py:515-534) is not modelled. It uses Tk windows, threads and sleeps.
  `Tick` returns the fired entry as the notification event instead.
- The sqlite layer is replaced by in-memory maps: `get_conn`, `close_conn`, `prepare`, and
  the SQL text of `create_table`.
  - The AUTOINCREMENT counters are unbounded. sqlite's rowid limit is not modelled.
  - Each operation is atomic in the model, and there is no concurrent writer.
- `parse_arguments` and `main` (reminder.py:401-440, 548-589) are command-line glue and
  are not modelled. The exception is the due-time choice at reminder.py:579-583, modelled
  as `TimeParse.DueTime`.
- `as_text` (reminder.py:49-72), the UTF-8 codec wrapper, is not modelled. Messages are
  kept as given.
- Printing in `show_all` is not modelled. Only the ascending `whento` order it prints in
  is modelled, as `ShowAll`.
- Clocks and sleeps are parameters rather than reads of the real clock:
  - `datetime.datetime.now()` is passed in as `now`.
  - `date2int`'s fallback of reading the clock for input that is not a `datetime`
    (reminder.py:453-454) is left out.
  - `time.sleep` between polls is not modelled.
  - `Run` covers a finite prefix of the endless loop.
- Only ASCII digits are modelled. `\d` and `int()` also accept other Unicode decimal digits.
- Microseconds are not modelled. They never reach `date2int`.
- Encoding.Date2Int: requires non-negative fields. `{:Nd}` would print a `-` sign for a
  negative field. Every caller passes a valid date-time or an overlay of parsed digits.
- Store.ReminderDb.SelectOne: when several items share the smallest `whento`, the model
  may return any of them, because `ORDER BY whento LIMIT 1` (reminder.py:326) leaves ties
  to sqlite.
- `when=13h2m` is rejected as an invalid format, because every pattern ends in `s`
  (reminder.py:463-468); see `ParseExamples.MinutesWithoutSecondsRejected`.
- CPython 3.11 and later refuse `int()` of a digit string longer than 4300 digits
  (reminder.py:476) with a ValueError. The model reads digit groups of any length.
- An OverflowError from `timedelta` itself (more than 999999999 days) is modelled as the
  overflow of the addition. Any such offset is also past year 9999 from every valid now.
- Store.ReminderDb.CleanAll: uses the corrected cutoff of the finding below. The cutoff as
  written is modelled by `RawCutoff` and shown wrong by `RawCutoffDropsFreshItem`.

## Findings

| source | as written | input that shows it | evidently intended | confidence | as-written member | corrected member |
|---|---|---|---|---|---|---|
| reminder.py:345 | the cutoff is `date2int(now) - CONFIG['sleep']*3`, so 120 is taken from the digit encoding rather than from the time | at now = 2024-01-01 10:00:00 the cutoff reads 2024-01-01 09:98:80, so `clean_all` deletes an item due at 09:59:59, one second overdue and not yet fired | delete only the items due more than three poll periods (120 seconds) before now | medium; not executed | `Store.RawCutoffDropsFreshItem` | `Store.GraceCutoffDropsOnlyStale` |
