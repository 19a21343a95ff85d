# Swarm commit crawler: a Dafny model of its core

`commits_automation.py` logs into a Perforce Swarm server in a browser and
lists the commits in a date range picked in Korean time (KST, UTC+9). This
project models the logic inside that script:

- **Range translation.** A KST date becomes the UTC date of its midnight,
  which is always the previous calendar day. Two such dates form the Swarm
  range filter `@YYYY/MM/DD,@YYYY/MM/DD`. The date 0001-01-01 overflows
  (`calendar.dfy`, `time_conversion.dfy`).
- **Timestamp display.** A UTC timestamp from a commit row is shown in KST
  on a 12-hour clock as `YYYY-MM-DD AM|PM hh:mm`. Anything that does not
  parse, and any overflow, gives `""` (`time_conversion.dfy`).
- **Scroll-until-stable loading.** The `while True` loop is a method over a
  finite sequence of poll observations. It keeps the key of the last row
  and a counter of polls that saw no change. It stops on an empty list or
  when the counter reaches 5 (`scroll_loader.dfy`).
- **Row parsing and the result sink.** Rows with at least four cells become
  five-field commit records. The sink is a class holding the table rows
  and the row-id → links map. It is cleared and then filled in page order.
  A double-click yields a row's first link (`commit_rows.dfy`,
  `crawler.dfy`).

Calendar arithmetic is checked against `DayNumber`, an independent count of
days since 0001-01-01. "Previous day", "next day" and "nine hours later" are
each proved to move that count (or the hour count) by exactly the right
amount. Every formatter has a parser beside it, with a round-trip lemma.

Three facts about the code shape the model:
- the published rows come from a fresh read after the loop ends
  (commits_automation.py:152), not from the loop's last poll;
- every row of that read with at least four cells is published
  (commits_automation.py:159); duplicates are not removed;
- `previous_last` is overwritten after every check that does not stop the
  loop, whether or not the key changed (commits_automation.py:145).

## Model

| member | source | states |
|---|---|---|
| `Text.Strip` | commits_automation.py:135 | `str.strip()` never lengthens its input; `Text.StripTrims` gives what it keeps and removes |
| `Text.StripTrims` | commits_automation.py:163-169 | `strip()` keeps the infix from the first non-whitespace character; everything removed on either side is Python whitespace; the result neither starts nor ends with whitespace |
| `Text.ParseNumberCanonical` | commits_automation.py:38 | a run of digits is the zero-padded spelling, at its own width, of the number it is read as |
| `Text.PadDigitsRoundTrip` | commits_automation.py:50 | a number zero-padded to a fixed width (`%Y`, `%m`, `%d`) reads back as the same number |
| `Calendar.Midnight` | commits_automation.py:48 | `datetime.combine(d, time.min)` is the same date at 00:00:00 |
| `Calendar.PrevDay` | commits_automation.py:49 | the previous calendar day is a valid date and comes strictly before the given one |
| `Calendar.NextDay` | commits_automation.py:40 | the next calendar day is a valid date and comes strictly after the given one |
| `Calendar.PrevDayCounts` | commits_automation.py:49 | the previous day's day number is one less, across month, leap-year and year boundaries |
| `Calendar.NextDayCounts` | commits_automation.py:40 | the next day's day number is one more |
| `Calendar.NextOfPrevDay` | commits_automation.py:49 | stepping back one day and forward one day returns the same date |
| `Calendar.NotAfterIffDayNumber` | commits_automation.py:57-62 | chronological date order is exactly the order of day numbers, in both directions |
| `Calendar.PrevDayMonotone` | commits_automation.py:57-62 | two dates are in order iff their previous days are in order |
| `Calendar.ShiftHours` | commits_automation.py:49 | adding fewer than 24 hours fails exactly when it leaves 0001-01-01 .. 9999-12-31; otherwise the result is valid and keeps minutes and seconds |
| `Calendar.ShiftHoursMovesClock` | commits_automation.py:40 | a successful shift moves the hour count by exactly the given number of hours |
| `TimeConversion.FormatDate` | commits_automation.py:50 | strftime `%Y<sep>%m<sep>%d` is 10 characters with the separator at positions 4 and 7; `TimeConversion.FormatDateRoundTrip` and `TimeConversion.ParseDateCanonical` tie it to the date both ways |
| `TimeConversion.FormatDateRoundTrip` | commits_automation.py:55 | a date rendered `YYYY<sep>MM<sep>DD` parses back to the same date |
| `TimeConversion.ParseDateCanonical` | commits_automation.py:55 | an accepted date string is exactly the formatted date it is read as |
| `TimeConversion.ConvertKstDateToUtcStr` | commits_automation.py:47-50 | fails exactly for 0001-01-01; otherwise gives a 10-character date string |
| `TimeConversion.ConvertIsPreviousDay` | commits_automation.py:47-50 | for every other date the result is the previous calendar day as `YYYY/MM/DD`, whose day number is one less |
| `TimeConversion.KstRangeStr` | commits_automation.py:52-55 | each of the two strings parses back to the picked date |
| `TimeConversion.UtcRangeStr` | commits_automation.py:57-62 | fails exactly when a bound is 0001-01-01; otherwise 23 characters: `@`, a date, `,@`, a date |
| `TimeConversion.UtcRangeIsPreviousDays` | commits_automation.py:57-62 | the two dates in the filter are the days before start and end, and start ≤ end iff converted start ≤ converted end |
| `TimeConversion.ParseIso` | commits_automation.py:38 | a parsed date-time is valid and its string has 10, 16 or 19 characters; `TimeConversion.ParseIsoCanonical` gives the three accepted shapes |
| `TimeConversion.IsoDateOnlyAccepted` | commits_automation.py:38 | every valid `YYYY-MM-DD` is accepted as that date at midnight |
| `TimeConversion.IsoMinutesAccepted` | commits_automation.py:38 | every valid date, `T` or a space, and `HH:MM` is accepted as that date-time with zero seconds |
| `TimeConversion.IsoSecondsAccepted` | commits_automation.py:38 | every valid date, `T` or a space, and `HH:MM:SS` is accepted as that date-time |
| `TimeConversion.ParseIsoCanonical` | commits_automation.py:38 | an accepted string spells the returned date-time as `YYYY-MM-DD` (midnight), or the date, `T` or a space, and `HH:MM` (zero seconds) or `HH:MM:SS` |
| `TimeConversion.IsoRoundTrip` | commits_automation.py:38 | every valid date-time written `YYYY-MM-DDTHH:MM:SS` parses back to itself |
| `TimeConversion.Hour12` | commits_automation.py:42 | `%I` is always in 1..12 and equals `((h + 11) mod 12) + 1` |
| `TimeConversion.Hour12Inverse` | commits_automation.py:42 | the marker is AM iff the hour is before 12, and marker plus 12-hour value give back the 24-hour hour |
| `TimeConversion.Meridiem` | commits_automation.py:42 | `%p` is a two-character marker; `TimeConversion.Hour12Inverse` shows it is AM exactly before noon |
| `TimeConversion.FormatAmPm` | commits_automation.py:42 | `%Y-%m-%d %p %I:%M` is 19 characters; `TimeConversion.AmPmRoundTrip` and `TimeConversion.AmPmFields` give what it says |
| `TimeConversion.AmPmRoundTrip` | commits_automation.py:42 | the `%Y-%m-%d %p %I:%M` text of a date-time parses back to it with seconds set to zero |
| `TimeConversion.AmPmFields` | commits_automation.py:42 | the display text of a date-time shows AM iff the hour is before noon, and shows the 12-hour value as its hour field |
| `TimeConversion.UtcToKstAmPm` | commits_automation.py:35-44 | never fails; gives "" exactly when the input does not parse or adding 9 hours overflows, otherwise 19 characters |
| `TimeConversion.UtcToKstAmPmDenotesKstTime` | commits_automation.py:38-42 | a non-empty result reads back as the parsed instant plus 9 hours with seconds dropped; marker is AM iff that KST hour < 12; hour field is that hour on a 12-hour clock, zero-padded |
| `TimeConversion.LateLastDayIsBlank` | commits_automation.py:40-44 | for a parsed instant, the result is "" exactly when it is 9999-12-31 at 15:00 or later |
| `TimeConversion.KstMidnightIsPreviousUtcDay` | commits_automation.py:47-50 | 2025-03-21 gives `2025/03/20` |
| `TimeConversion.LeapDayBeforeMarch` | commits_automation.py:47-50 | 2024-03-01 gives `2024/02/29` |
| `TimeConversion.NewYearBecomesOldYear` | commits_automation.py:47-50 | 2025-01-01 gives `2024/12/31` |
| `TimeConversion.AfternoonExample` | commits_automation.py:41-42 | `2025-03-20T07:18:00` gives `2025-03-20 PM 04:18` |
| `ScrollLoader.LastKey` | commits_automation.py:133-137 | the key is the stripped text of the last row's first cell; a last row with no cells, or whose cells cannot be read, gives "" |
| `ScrollLoader.KeyAt` | commits_automation.py:133-137 | the key sequence the loop compares holds, at each position, the key that poll sees |
| `ScrollLoader.LoadUntilStable` | commits_automation.py:127-150 | stops at the first poll with no rows or with the counter at 5; on a stability stop the counter is exactly 5; every poll passed left it below 5; with no such poll it never stops |
| `ScrollLoader.AttemptsCountQuietRun` | commits_automation.py:138-144 | the counter has reached n iff each of the last n polls saw the same key as the poll before it |
| `ScrollLoader.StableIffFiveQuietPolls` | commits_automation.py:138-144 | a stability stop at poll i happens iff polls i-4 .. i all saw no change |
| `ScrollLoader.SameKeyCounts` | commits_automation.py:127-145 | while every poll sees the same key, the counter is i at poll i; if the key is "", the first poll already counts and the counter is i+1 |
| `ScrollLoader.SameListSettles` | commits_automation.py:127-145 | a list that never grows stops at the sixth poll, or at the fifth when its key is "", and not earlier |
| `CommitRows.NonEmptyHrefs` | commits_automation.py:166-167 | keeps exactly the non-empty hrefs: every kept value is non-empty, and a value is kept iff it is a non-empty href of the row |
| `CommitRows.NonEmptyHrefsAppend` | commits_automation.py:167 | filtering keeps document order |
| `CommitRows.ParseRow` | commits_automation.py:157-175 | a row is skipped iff it has fewer than 4 cells; the KST column is always the conversion of the UTC column; links are the non-empty hrefs |
| `CommitRows.ParseRowFields` | commits_automation.py:161-174 | id is the stripped link text of cell 0, else the stripped cell-0 text; user and description are cells 1 and 2 stripped; UTC time is the time-ago title, else the stripped cell-3 text |
| `CommitRows.ParsedRows` | commits_automation.py:157-182 | the row loop yields at most one record per row; `CommitRows.ParsedRowsCount` and `CommitRows.ParsedRowsAppend` give how many and in which order |
| `CommitRows.ParsedRowsAppend` | commits_automation.py:157-179 | the records keep page order: the records of a split list are the first part's records followed by the second part's |
| `CommitRows.ParsedRowsCount` | commits_automation.py:157-175 | exactly one record for each row with at least 4 cells |
| `CommitRows.ParsedRowsStep` | commits_automation.py:157-182 | one more row of the page adds its record at the end, or nothing when the row is skipped |
| `CommitRows.AppendKeepsConsistent` | commits_automation.py:176-179 | inserting an untagged row under a fresh id keeps ids increasing and the tags in step with the link map, and shows one more entry with no links |
| `CommitRows.TagLastKeepsConsistent` | commits_automation.py:180-182 | tagging the newest row and recording its non-empty links keeps ids increasing and the tags in step with the link map |
| `CommitRows.TagLastKeepsView` | commits_automation.py:180-182 | recording links for the newest row changes what is shown for that row only |
| `CommitRows.ResultSink.constructor` | commits_automation.py:255 | the sink starts with no rows and an empty link map |
| `CommitRows.ResultSink.Clear` | commits_automation.py:153-155 | afterwards there are no table rows and no links |
| `CommitRows.ResultSink.Insert` | commits_automation.py:176-179 | appends one untagged row under a fresh id; the link map is unchanged |
| `CommitRows.ResultSink.AttachLinks` | commits_automation.py:180-182 | tags the newest row `has_link` and maps its id to its links; what the table shows changes for that row only |
| `CommitRows.ResultSink.Add` | commits_automation.py:176-182 | shows one parsed row: the table then shows the earlier rows followed by this one with its links |
| `CommitRows.ResultSink.Populate` | commits_automation.py:152-182 | the table then shows exactly the parsed rows of the page, in order, each with its links; a row is tagged iff it has links; only ids of shown rows are in the link map, each with a non-empty list |
| `CommitRows.ResultSink.OnDoubleClick` | commits_automation.py:192-199 | a URL is opened iff a row is focused and the map holds a non-empty list for it; that URL is the list's first; for a shown row it is the first link that row had |
| `Crawler.CrawlData` | commits_automation.py:127-182 | publishes the parsed rows of the final read iff the scroll loop stops within the polls; otherwise the sink is unchanged |

## Left out

- Tk window construction, widget wiring and the guide label (commits_automation.py:64-69, 201-257): pure presentation.
- Browser setup, login, navigation, the range-input typing and every Selenium wait (commits_automation.py:81-126). The scroll, sleep and container re-read between polls (commits_automation.py:146-150) are replaced by the sequence of poll observations.
- `load_credentials` (commits_automation.py:23-32): file and JSON input.
- The background thread of `start_crawling`, `time.sleep`, logging, the message boxes and `driver.quit`: threading, timing and side effects. `webbrowser.open` becomes the URL that `OnDoubleClick` returns.
- Browser failures outside the key read and outside the two lookups at commits_automation.py:161-165 and 170-174: these exceptions abort a query (185-187), and the model assumes those browser calls succeed. Inside those two `try` blocks any failure takes the fallback to the cell's stripped text, which the model's `None` in `Cell.linkText` and `Cell.timeagoTitle` stands for.
- TimeConversion.ParseIso: accepts only `YYYY-MM-DD`, and that date followed by `T` or a space and `HH:MM` or `HH:MM:SS`. Strings `datetime.fromisoformat` also accepts are treated as parse failures. These include fractional seconds, UTC offsets, other separators and the compact forms of newer Python versions.
- TimeConversion.UtcToKstAmPm: because of that subset, it returns "" for strings Python would convert. Time-zone-aware inputs are not modelled.
- TimeConversion.Meridiem: `%p` is the literal `AM`/`PM`. The locale-dependent markers, such as the Korean ones in the source comment, are not modelled.
- TimeConversion.FormatDate: `%Y` is always four zero-padded digits. For years below 1000 the real padding depends on the platform's C library.
- Time-ago title: the model carries the `title` attribute of `span.timeago` as a string; a missing or empty title is the empty string, which does not parse, so the KST column is then "".
- Cell text is whatever the browser reports as the element's text. The browser's own whitespace normalisation is not modelled; only `strip()` is.
- Treeview item ids are strings such as `I001` that increase and are never reused. The model uses natural numbers from an increasing counter.
- Non-termination of the scroll loop: a list that keeps changing loops forever in the source. The model runs over a finite sequence of polls and reports `StillLoading` when it has not stopped within them.
- Guarding the sink against two overlapping queries: the source has no such guard, so the model has none.
