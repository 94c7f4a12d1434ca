# place_analyzer in Dafny

A model of `place_analyzer.py`, a script that reads a CSV log of pixel placements
(timestamp, user id, pixel colour, coordinate), keeps the records whose timestamp lies
in a time range given to the hour, counts how often each colour was placed, and
reports the ten most used colours.

The model covers the three working parts of the script:

- `convert_date_format` and `validate_time_range` (`Timestamps`): a `datetime` is a
  record of its seven fields. Its rendering in the log's format
  `%Y-%m-%d %H:%M:%S.%f UTC` is a fixed-width, zero-padded string (`Decimal.Pad`).
  Python's string comparison is modelled as code-point lexicographic order
  (`StringOrder.Less`). The central theorem, `Timestamps.CanonicalOrder`, says that
  comparing two renderings as strings is the same as comparing the datetimes. This is
  what makes the script's raw string filter chronological.
- the counting loop of `analyze` (`PlaceAnalyzer.CountColors`, `PlaceAnalyzer.Analyze`):
  a `while` loop over the records after the header row. It updates a
  `collections.Counter` in place, modelled as `Counters.Counter`: a map of counts plus
  the insertion order of the keys. The loop is proved against the fold
  `Counters.FromKeys` of the colours of the in-range records. Lemmas relate that fold
  to an independent count of the rows (`PlaceAnalyzer.CountRows`).
- `Counter.most_common(10)` (`Ranking.MostCommon`): a stable sort of the items by
  descending count, then the first ten. Its contract states what that list is.

The script prints the report. The model returns it instead, as `Analysis(colors, top)`.
The CSV file arrives as the sequence of rows `csv.reader` yields, each a sequence of
fields.

A malformed record is not skipped: `row[0]` on an empty record, and `row[2]` on an
in-range record with fewer than three fields, raise `IndexError` and end the run. A
file without a header row makes `next(reader)` raise. The model follows the code and
returns `Err(MissingField(i))` or `Err(NoHeader)`.

## Model

| member | source | states |
|---|---|---|
| StringOrder.Less | place_analyzer.py:52 | Python's `str` `<`: code points compared from the first, the first difference decides, and a proper prefix sorts first |
| StringOrder.LessIrreflexive | place_analyzer.py:52 | no string sorts strictly before itself, so `<=` on a timestamp equal to a bound holds only through equality |
| StringOrder.LessTrichotomy | place_analyzer.py:52 | any two strings are equal or one sorts strictly before the other |
| StringOrder.LessTransitive | place_analyzer.py:52 | string order is transitive, so `start <= ts <= end` is a range |
| StringOrder.LessEqTransitive | place_analyzer.py:52 | `<=` on strings is transitive |
| StringOrder.LessAppend | place_analyzer.py:32 | for equal-length prefixes, the order of two concatenations is decided by the prefixes, and the suffixes break ties; concatenations are equal exactly when both parts are |
| Decimal.PadValue | place_analyzer.py:32 | a zero-padded field of width w reads back as the number it renders, when the number has at most w digits |
| Decimal.PadOrder | place_analyzer.py:32 | two zero-padded fields of the same width compare as strings exactly as the numbers compare, and are equal exactly when the numbers are |
| Timestamps.Before | place_analyzer.py:39 | `datetime` `<`: the fields compared as a tuple, most significant first; `end_time <= start_time` is `AtOrBefore` |
| Timestamps.Canonical | place_analyzer.py:9 | the `DATA_DT_FORMAT` rendering of a datetime: zero-padded fields with fixed separators, 30 characters in all |
| Timestamps.TruncateToHour | place_analyzer.py:31-32 | the truncated datetime is valid and a whole hour, and a whole-hour datetime is left as it is |
| Timestamps.DateAndHourOrder | place_analyzer.py:32 | the `YYYY-MM-DD HH` prefix orders datetimes by their hour, and is equal exactly when the hours are |
| Timestamps.CanonicalOrder | place_analyzer.py:9 | rendered in the log format, one valid datetime sorts strictly before another exactly when it is earlier, and two renderings are equal exactly when the datetimes are |
| Timestamps.DateAndHourFields | place_analyzer.py:32 | the date and hour part has separators at fixed positions and digit fields that read back as year, month, day and hour |
| Timestamps.TruncatedRendering | place_analyzer.py:31-32 | the literal `:00:00.000000 UTC` suffix is the rendering of zero minutes, seconds and microseconds |
| Timestamps.ConvertDateFormat | place_analyzer.py:17-34 | the result is the log-format rendering of the datetime truncated to its hour: 30 characters, fixed separators, minutes to microseconds all zero, and year, month, day and hour fields that read back as the input's |
| Timestamps.ValidateTimeRange | place_analyzer.py:38-41 | fails exactly when the end is not after the start; otherwise returns both ends formatted, the start never sorting after the end, and strictly before it for whole-hour ends |
| Counters.Add | place_analyzer.py:54 | `c[key] += 1`: a stored key's count goes up by one; a missing key is stored with count 1 at the end of the insertion order |
| Counters.FromKeys | place_analyzer.py:44-54 | the `Counter` left by starting empty and adding the keys one at a time, in order |
| Counters.FromKeysValid | place_analyzer.py:44-54 | counting keys from an empty `Counter` lists every stored key once, with a positive count |
| Counters.FromKeysCounts | place_analyzer.py:54 | the counter holds exactly the keys that were added, each with the number of times it was added |
| Counters.FromKeysAppend | place_analyzer.py:54 | adding one more key is one `c[key] += 1` step on the counter built so far |
| Counters.FromKeysOrder | place_analyzer.py:44-54 | keys stand in the counter's order as they first occur among the added keys |
| Counters.FirstIndex | place_analyzer.py:54 | the index found holds the key and no earlier index does |
| Counters.FromKeysTotal | place_analyzer.py:54 | the counts add up to the number of keys added |
| Counters.SumCountsIncrement | place_analyzer.py:54 | incrementing one stored key raises the sum of the counts by one |
| Ranking.Items | place_analyzer.py:57 | `c.items()`: every key with its count, in insertion order |
| Ranking.Insert | place_analyzer.py:57 | one step of the stable sort: the entry is placed after every entry whose count is at least its own; the list grows by one |
| Ranking.SortByCount | place_analyzer.py:57 | `sorted(items, key=count, reverse=True)` by insertion, keeping the length |
| Ranking.InsertSorted | place_analyzer.py:57 | inserting an entry after all entries with at least its count keeps a list sorted by non-increasing count |
| Ranking.InsertPermutes | place_analyzer.py:57 | insertion adds exactly the inserted entry to the multiset of entries |
| Ranking.InsertWithCount | place_analyzer.py:57 | insertion puts the entry after every entry with its own count (stability) |
| Ranking.SortByCountCorrect | place_analyzer.py:57 | the sort yields a list sorted by non-increasing count, a permutation of its input, that keeps the input order among entries with equal counts |
| Ranking.MostCommon | place_analyzer.py:57 | `most_common(n)` lists min(n, number of keys) entries, each a key with its true count, no key twice, sorted by non-increasing count; no key left out counts more than a listed one; with n at least the number of keys every key is listed; entries with equal counts keep insertion order |
| PlaceAnalyzer.InRange | place_analyzer.py:52 | the filter `start_time <= row[0] <= end_time` on strings, both ends included |
| PlaceAnalyzer.InRangeInterval | place_analyzer.py:52 | whatever sorts between two kept timestamps is kept too: the filter keeps an interval of the string order |
| PlaceAnalyzer.OutOfRange | place_analyzer.py:52 | a timestamp is dropped exactly when it sorts strictly before the start or strictly after the end |
| PlaceAnalyzer.Readable | place_analyzer.py:50-54 | the record can be indexed: it has a first field and, when that field is in range, a third field; otherwise `row[0]` or `row[2]` raises `IndexError` |
| PlaceAnalyzer.KeptColors | place_analyzer.py:49-54 | the colours of the in-range records, in file order: the keys the loop adds to the counter |
| PlaceAnalyzer.KeptColorsStep | place_analyzer.py:49-54 | reading one more record appends its colour to the kept colours exactly when its timestamp is in range |
| PlaceAnalyzer.UnreadableRow | place_analyzer.py:50-54 | a single record that cannot be indexed makes the whole file unreadable |
| PlaceAnalyzer.CountColors | place_analyzer.py:44-54 | the loop succeeds exactly when every record after the header can be indexed; otherwise it stops at the first record that cannot, with all earlier ones readable; on success the counter is that of the colours of the in-range records, in file order |
| PlaceAnalyzer.Analyze | place_analyzer.py:43-57 | fails with `NoHeader` exactly when there are no rows, succeeds exactly when every record can be indexed, stops at the first record that cannot; on success the counter is valid, holds the colours of the in-range records, and the report is its `most_common(10)` |
| PlaceAnalyzer.KeptColorsConcat | place_analyzer.py:49-54 | each record counts on its own: the kept colours of two stretches of records concatenate |
| PlaceAnalyzer.OutOfRangeRowIgnored | place_analyzer.py:52 | a record outside the range, wherever it stands, leaves the kept colours and the counter unchanged |
| PlaceAnalyzer.KeptColorsCount | place_analyzer.py:52-54 | the kept colours hold each colour as many times as there are in-range records of that colour, and have one entry per in-range record |
| PlaceAnalyzer.CounterMatchesRows | place_analyzer.py:49-54 | the final counter holds a colour exactly when some in-range record has it, with the number of such records; the counts add up to the number of in-range records; colours stand in the order of their first in-range record |
| PlaceAnalyzer.ReportMatchesRows | place_analyzer.py:57-58 | every reported colour comes with the number of in-range records of that colour, which is positive |
| PlaceAnalyzer.CanonicalRowFilter | place_analyzer.py:38-52 | with bounds from `validate_time_range`, a record whose timestamp is in the log format passes the string filter exactly when its time lies between the start hour and the end hour, both included; both bounds pass it |

## Left out

- `parse_datetime_arg`, `main` and the `argparse` setup (place_analyzer.py:11-15, 60-66): command-line parsing is I/O. Start and end arrive as `DateTime` values. Parsing with `%Y-%m-%d %H` yields whole hours only. The model accepts any valid datetime, and `ValidateTimeRange` states the stronger ordering for whole hours.
- The timing with `perf_counter_ns` and the `print` calls (place_analyzer.py:69-79, 58): clocks and output. `Analyze` returns the report instead of printing it.
- Opening the file and `csv.reader` (place_analyzer.py:46-47): I/O and CSV quoting are not modelled. Rows arrive already split into fields.
- The `except ValueError` branch of `convert_date_format` (place_analyzer.py:35-36): it cannot be reached for the datetimes modelled here, because every valid year is rendered.
- Timestamps.ConvertDateFormat: years below 1000 are rendered with four zero-padded digits. Some C libraries' `%Y` does not pad them. Such years are far outside the log's dates.
- PlaceAnalyzer.CanonicalRowFilter: the chronological reading of the filter covers only timestamps in the log format with a six-digit fraction. Timestamps written differently (for example with a three-digit fraction, as the comments at place_analyzer.py:81-82 show) are compared as raw strings, which is what the code does. The model does not claim those comparisons are chronological.
- `Counter` is modelled on values: `Counters.Counter` is a datatype, and the loop updates a local of that type field by field. No aliasing is modelled.
- `most_common` is implemented with `heapq.nlargest`. The model sorts stably and takes a prefix, which is the result Python documents for it. The heap itself is not modelled.
- file_read.py, the alternative copy of place_analyzer.py and the weekly variants (chunked and parallel readers) are not part of this model.
