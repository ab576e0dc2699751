# Log ingestion and aggregation, modelled in Dafny

This project models the core of `data_processing.py`. The core has two steps.

- **Loading** (`load_and_process_logs`) reads a log whose lines look like
  `2024-03-05  14:07:59 - INFO - Login - AB12CD`.
  - Each line is stripped of surrounding whitespace and split on the literal separator `" - "` into the four columns Timestamp, Log_Level, Action and User. This is what `read_csv` does with a separator longer than one character.
  - A field whose text is one of `read_csv`'s default missing-value markers (the empty text, `NA`, `null`, `None` and the others of its `na_values` list) becomes a missing value.
  - The Timestamp text is stripped of surrounding whitespace again and converted to a date-time.
  - Every row whose timestamp does not convert is dropped.
  - The surviving rows form the record set. They stay in input order, and duplicates are kept.
- **Analysis** (`analyze_data`) turns a record set into statistics:
  - the occurrence count of each log level and of each action, skipping missing values;
  - the total number of logs, missing values included;
  - the number of unique users, skipping missing values;
  - the average and the maximum of the logs per calendar day. The daily series behind these runs from the earliest to the latest day, with zero on days without logs.

  A missing or empty record set gives "no data" instead.

The Dafny modules follow that structure:

| module | file | contents |
|---|---|---|
| `Wrappers` | `wrappers.dfy` | `Option` |
| `Calendar` | `calendar.dfy` | proleptic Gregorian dates, leap years, day ordinals and their inverse |
| `Text` | `text.dfy` | whitespace stripping, splitting on and joining with `" - "`, fixed-width decimal fields |
| `Timestamps` | `timestamps.dfy` | the date-time value, the printed form `YYYY-MM-DD`, spaces, `HH:MM:SS`, and its parser |
| `LogRecords` | `log_records.dfy` | the record with possibly missing level, action and user, the parse of one line, the exact set of lines that parse, and the loading loop `LoadAndProcess` |
| `Counting` | `counting.dfy` | sums, occurrence counts, distinct values, and `value_counts` (a table sorted most frequent first) |
| `Daily` | `daily.dfy` | the zero-filled per-day series (`resample('D').size()`) |
| `Averages` | `averages.dfy` | the mean of the series, as an exact rational |
| `Analysis` | `analysis.dfy` | the columns of the record set, their present and missing values, `Analyze` and the properties of its statistics |

The program relies on pandas' general date inference. The model uses a concrete, total parser for the form the log generator writes (`data_processing.py:12`):
- `YYYY-MM-DD`, then one or more spaces, then `HH:MM:SS`;
- every digit field is of fixed width;
- the date must exist: day, month and leap-year limits as in section 5.7 of RFC 3339;
- hours are 00-23, minutes and seconds 00-59;
- years are 0000-9999, the full-date range of section 5.6 of RFC 3339.

`ParseTimestampExactly` states that the parser accepts a string exactly when the string is the printed form of a valid date-time. `StripThenParse` states that surrounding blanks do not change the instant. `ParseLineExactly` states which lines yield a record: those made of optional blanks, a printed timestamp and optional blanks, then the level, the action and the user separated by `" - "`, then optional blanks.

Where the written description of the program and its code differ, the model follows the code:
- Log levels and actions are free text. Nothing checks them against a fixed vocabulary.
- The record set is not sorted by time. Setting the Timestamp column as the index (`data_processing.py:58`) keeps the rows in input order.
- The daily series therefore runs from the earliest to the latest day present, not from the first line to the last line.

## Model

| member | source | states |
|---|---|---|
| `LogRecords.LoadAndProcess` | data_processing.py:34-60 | The loop over the lines appends the record of each line whose timestamp parses and skips the rest. Its result is exactly the record set `ParseAll` of the lines. |
| `LogRecords.ParseAll` | data_processing.py:40-49 | The record set has at most as many records as there are lines. A record is in it exactly when some input line yields it: dropped rows are absent and parsed rows are present. |
| `LogRecords.ParseLineExactly` | data_processing.py:40-49 | A line yields record r exactly when it is blanks, r's timestamp printed with one or more spaces and followed by blanks, then level, action and user texts separated by `" - "`, then blanks, where the three texts hold no separator, level and action do not end in `" -"`, the user does not end in a blank, and the texts give r's level, action and user: a text that is one of `read_csv`'s default missing-value markers gives a missing value, any other text is kept as it is. |
| `LogRecords.LineParses` | data_processing.py:40-49 | Every line of that shape, with any blank padding, yields the record of its timestamp and of its three field values. |
| `LogRecords.ParsedLineShape` | data_processing.py:40-49 | Every line that yields a record has that shape: it returns the padding, the spacing of the timestamp and the three field texts. |
| `LogRecords.LogLineParses` | data_processing.py:12-16 | A line in the generator's format yields exactly the record of its own timestamp, level, action and user, for any words that hold no separator and are not missing-value markers. |
| `LogRecords.ParseAllStep` | data_processing.py:46-49 | Taking one more line appends that line's record when it parses and leaves the record set unchanged when it does not. |
| `LogRecords.ParseAllAppend` | data_processing.py:49 | Each line contributes its own record, or nothing, at its own position. Surviving rows keep input order, and equal rows are all kept. |
| `LogRecords.ParseAllCount` | data_processing.py:49 | The number of records plus the number of dropped lines equals the number of lines. |
| `LogRecords.ParseAllEmpty` | data_processing.py:51-52 | The record set is empty exactly when no line parses. An empty input gives an empty record set, not an error. |
| `LogRecords.FilterMapMembers` | data_processing.py:49 | Membership in a filtered map is exactly "some element maps to it". |
| `LogRecords.FilterMapAppend` | data_processing.py:49 | Filtering commutes with concatenation, so order is kept. |
| `LogRecords.FilterMapCount` | data_processing.py:49 | Kept elements plus dropped elements equals the input length. |
| `LogRecords.CountNoneAllSome` | data_processing.py:76-82 | Nothing is dropped when every element has a value. |
| `LogRecords.FilterMapEmpty` | data_processing.py:51 | The result is empty exactly when every element is dropped. |
| `Text.Split` | data_processing.py:40 | Splitting on `" - "` gives at least one field. No field contains the separator and no field but the last ends in `" -"`, so each separator is taken at its leftmost position, as a regular-expression split does. Joined with `" - "`, the fields give the line back. |
| `Text.SplitJoin` | data_processing.py:40 | Fields without a separator, none but the last ending in `" -"`, joined with `" - "`, split back into exactly those fields in that order. |
| `Text.FindSep` | data_processing.py:40 | Finds the leftmost separator at or after a position, or reports that there is none. |
| `Text.PaddedField` | data_processing.py:40 | Trailing blanks keep a field free of the separator and from ending in `" -"`. |
| `Text.TrimStart` | data_processing.py:43 | Removes exactly the leading run of whitespace. |
| `Text.TrimEnd` | data_processing.py:43 | Removes exactly the trailing run of whitespace. |
| `Text.Strip` | data_processing.py:43 | The result has no whitespace at either end and is no longer than the input. |
| `Text.StripParts` | data_processing.py:43 | The input is the stripped text with runs of whitespace on either side. |
| `Text.StripPadded` | data_processing.py:43 | Stripping a text padded with whitespace on both sides gives back the unpadded text. |
| `Text.DecimalRoundTrip` | data_processing.py:12 | Reading back a number printed in a fixed number of digits gives the number. |
| `Text.DecimalValueRoundTrip` | data_processing.py:12 | Printing the value of a digit string in its own width gives the string. |
| `Timestamps.FormatWith` | data_processing.py:12 | A timestamp printed with k spaces between date and time is 18 + k characters long, has no whitespace at its ends, contains no separator and does not end in `" -"`, so it survives the line split as the first field. |
| `Timestamps.Format` | data_processing.py:12 | The generator's form, with two spaces, is 20 characters long and parses back to the same date-time. |
| `Timestamps.ParseTimestamp` | data_processing.py:46 | A string that parses is the printed form of the instant it parses to, with at least one space between date and time. |
| `Timestamps.ParseTimestampExactly` | data_processing.py:46 | A string parses to t exactly when t is a valid date-time and the string is t printed with one or more spaces. Out-of-range fields and every other shape are rejected. |
| `Timestamps.ParseFormatWith` | data_processing.py:12 | Every timestamp the generator prints parses back to the same date-time, whatever the number of spaces. |
| `Timestamps.StampIsField` | data_processing.py:12-16 | A printed timestamp has no surrounding whitespace, contains no separator and does not end in `" -"`. |
| `Timestamps.StripThenParse` | data_processing.py:43-46 | A timestamp padded with blanks on either side parses to the same instant as the unpadded one. |
| `Timestamps.DatePartShape` | data_processing.py:12 | The printed date has the `YYYY-MM-DD` shape, and its digit fields read back as year, month and day. |
| `Timestamps.TimePartShape` | data_processing.py:12 | The printed time has the `HH:MM:SS` shape, and its digit fields read back as hour, minute and second. |
| `Calendar.DaysBeforeYearClosedForm` | data_processing.py:83 | The days before year y number 365·y plus the Gregorian leap days before y. |
| `Calendar.LeapDaysStep` | data_processing.py:83 | Moving to the next year adds one leap day exactly when the year is a leap year. |
| `Calendar.DaysBeforeYearMonotone` | data_processing.py:83 | Years lie in order on the day line and do not overlap. |
| `Calendar.MonthsTileYear` | data_processing.py:83 | The months of a year follow one another without a gap and fill the year. |
| `Calendar.Ordinal` | data_processing.py:83 | A date's day number lies within its year's days and below the 10000-year limit. |
| `Calendar.FromOrdinal` | data_processing.py:83 | Every day number below the limit is the day number of a valid date. |
| `Calendar.OrdinalInjective` | data_processing.py:83 | Distinct dates have distinct day numbers. |
| `Calendar.OrdinalRoundTrip` | data_processing.py:83 | Converting a date to its day number and back gives the date. |
| `Calendar.NextDayOrdinal` | data_processing.py:83 | The next calendar day, including month and year ends and 29 February, has the next day number. |
| `Calendar.FromOrdinalSucc` | data_processing.py:83 | Consecutive day numbers are consecutive calendar days. |
| `Counting.ValueCounts` | data_processing.py:76-79 | The table lists each value of the column once, with its exact number of occurrences (at least one), most frequent first. Its counts sum to the column length, and it has one row per distinct value. |
| `Counting.SortByCount` | data_processing.py:76-79 | Sorting the table puts it in descending count order and is a permutation of the table. |
| `Counting.TallySum` | data_processing.py:76-83 | Counting a column against keys that cover it, without repeats, gives counts that sum to the column length. |
| `Counting.Distinct` | data_processing.py:82 | The distinct values have no repeats, hold exactly the values of the column, and are no more than the column's length. |
| `Counting.DistinctCount` | data_processing.py:82 | The distinct values number as many as the set of values, which is at most the column length. |
| `Counting.OccurrencesMultiplicity` | data_processing.py:76-79 | Counting positions agrees with the multiset multiplicity. |
| `Daily.SpanCounts` | data_processing.py:83 | The series over the span from the earliest to the latest day has latest − earliest + 1 entries. |
| `Daily.SpanCountsSum` | data_processing.py:83 | The entries of the span series sum to the number of day numbers counted. |
| `Daily.SpanCountsCovers` | data_processing.py:83 | Each counted day falls inside the span, and its entry is at least one. |
| `Daily.MinOf` | data_processing.py:83 | The smallest element is an element, and no element is smaller. |
| `Daily.MaxOf` | data_processing.py:89 | The largest element is an element, and no element is larger. |
| `Daily.LogsPerDay` | data_processing.py:83 | The daily series starts on the earliest record's day and has (latest day − earliest day + 1) entries. |
| `Daily.LogsPerDaySpan` | data_processing.py:83 | Every record's day falls inside the series, and the first and last entries are days of some record. |
| `Daily.LogsPerDayCounts` | data_processing.py:83 | Each entry is the number of records on that entry's calendar day. |
| `Daily.LogsPerDayZeroFilled` | data_processing.py:83 | An entry is zero exactly when no record falls on its day. |
| `Daily.SeriesConsecutive` | data_processing.py:83 | The entries cover consecutive calendar days in ascending order, starting at the series' start date. |
| `Daily.LogsPerDayCovers` | data_processing.py:83 | Every record's date has an entry in the series, and that entry is at least one. |
| `Daily.LogsPerDayEnds` | data_processing.py:83 | The first and last entries are not zero. |
| `Daily.LogsPerDaySum` | data_processing.py:83 | The entries sum to the number of records. |
| `Daily.LogsPerDaySingleDay` | data_processing.py:83 | Records that all fall on one date give the one-entry series of that date, holding the number of records. |
| `Daily.CountOnDays` | data_processing.py:83 | Counting a day number among the records' day numbers counts the records on that date. |
| `Averages.Mean` | data_processing.py:86 | The mean times the number of entries equals their sum, and the mean is at most the largest entry. |
| `Averages.MeanSingle` | data_processing.py:86-89 | The mean and the maximum of a single entry are that entry. |
| `Averages.SumAtMostLengthTimesMax` | data_processing.py:86-89 | A sum is at most the length times an upper bound of its entries. |
| `Analysis.Present` | data_processing.py:76-82 | The values present in a column are exactly the values some cell holds, and they and the missing cells together make up the column. |
| `Analysis.PresentCount` | data_processing.py:76-82 | Each value occurs among the present values of a column as often as cells of the column hold it. |
| `Analysis.ColumnOccurrences` | data_processing.py:76-79 | Each row of the value counts of a column's present values holds the number of cells of the column that hold its value. |
| `Analysis.NoneMissing` | data_processing.py:76-82 | A column whose every cell holds a value has no missing values. |
| `Analysis.Analyze` | data_processing.py:71-83 | The outcome is "no data" exactly when the record set is missing or empty; otherwise the total is the number of records, missing values included. |
| `Analysis.AnalyzeLevels` | data_processing.py:76 | The level counts list each level present in the records once, most frequent first, with the number of records whose level is that value. A value is listed exactly when some record has it as its level. The counts plus the records without a level make up the total, so the counts sum to the total when no level is missing. |
| `Analysis.AnalyzeActions` | data_processing.py:79 | The same facts for the actions. |
| `Analysis.AnalyzeUsers` | data_processing.py:82 | The number of unique users is the size of the set of user names present in the records, and is at most the total. |
| `Analysis.AnalyzeDaily` | data_processing.py:83-89 | The daily series sums to the total. The maximum is an entry of the series, no entry exceeds it, and it is at least one. |
| `Analysis.AnalyzeAverage` | data_processing.py:86 | The average times the number of days equals the total, and the average is at most the maximum. |
| `Analysis.AnalyzeSingleDay` | data_processing.py:83-89 | Records that all fall on one day give a one-entry series; the average and the maximum both equal the total. |
| `Analysis.AnalyzeLoaded` | data_processing.py:49-73 | Analysing a loaded log gives statistics exactly when at least one line yields a record. |

## Left out

- Reading the log file (`data_processing.py:40`) is left out, as is writing it (`write_logs_to_file`, lines 19-31). The model takes the lines of the log as a sequence of strings.
- `generate_log_entry` (lines 8-16) draws from a random source and reads the wall clock. Only its line format is modelled, by `LogLine` and `LogLineParses`.
- All console output is left out: the head of the frame, the summary lines and the two-decimal formatting (lines 51-55 and 92-97).
- The blanket exception handlers (lines 61-63 and 110-112) are left out. `LoadAndProcess` never fails: inputs on which pandas raises inside `load_and_process_logs` are not modelled (for example a Timestamp column that `read_csv` reads as all-numeric or all-missing, where `.str.strip()` at line 43 raises and the source returns `None`; the model gives the empty record set for such lines). `Analyze`'s `None` input stands for a failed load, and `Analyze(None)` is "no data".
- The statistics dictionary (lines 100-109) is the `Summary` datatype. Its counts tables are sequences of (value, count) pairs.
- Level counts, action counts and the frame's timestamp index are not pandas objects. Setting the index (line 58) keeps rows in order and is not modelled separately.
- `Counting.ValueCounts`: the model orders rows of equal count by first appearance in the column. pandas' order among ties is not part of the model's contract.
- `Timestamps.ParseTimestamp`: pandas infers many date-time formats. This parser accepts only the generator's `YYYY-MM-DD`, spaces, `HH:MM:SS` form.
- Rows parse only within pandas' nanosecond range (years 1677 to 2262). The model accepts years 0000-9999.
- Fractional seconds, leap seconds and time zones are not modelled. Timestamps are naive and are binned by their literal calendar date.
- `LogRecords.ParseLine`: a line that splits into fewer than four fields is dropped. pandas would pad the missing columns with missing values and keep the row if its timestamp parses.
- `LogRecords.ParseLine`: lines with more than four fields are also dropped; pandas' own handling of them is a library behaviour.
- `LogRecords.Cell`: `read_csv` converts a column whose every value reads as a number or a boolean (`True`, `TRUE`, `true`, `False`, `FALSE`, `false`) to a numeric or boolean column. The model keeps every level, action and user as text, so value counts and unique users compare texts: it counts `true` and `True` as two values where pandas counts one.
- `Averages.Mean` is an exact rational. The source uses a 64-bit float, and its rounding is not modelled.
- `visualize_trends` (lines 115-139) only draws the same daily series, so it is not modelled.
- The module-level script (lines 141-154) writes 200 generated lines, loads them, and analyses and plots them only when the load did not return `None`. It is not modelled; `AnalyzeLoaded` states what loading then analysing gives.
- `webScrapper.py` is not part of this model. It fetches web pages and saves JSON, and shares no data with the log pipeline.
