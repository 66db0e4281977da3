# Forensic log analyzer: the log-evidence front end

This project models the part of the forensic analyzer that turns an evidence
log into a timeline (`ml/forensic_analyzer.py`), and proves properties of
that model.

- **`parse_logs`** reads the file line by line. It strips each line and
  splits it on single spaces, making at most three cuts. A line with fewer
  than four pieces is skipped. Otherwise the first two pieces are parsed
  with `datetime.strptime(date + " " + time, "%Y-%m-%d %H:%M:%S")`, the
  third is kept as the level, and the length of the fourth becomes
  `message_length`. A timestamp that does not parse raises `ValueError`,
  which ends the whole call.
- **`detect_anomalies`** adds two columns to the frame in place. `severity`
  comes from a fixed table (`INFO` 0, `WARNING` 1, `ERROR` 2). `anomaly`
  holds one label per row from the outlier model. If the model raises, the
  severity column is already in place and the error ends the call.
- **`reconstruct_timeline`** returns the rows ordered by timestamp.

The modules follow the program's layers:

- `wrappers.dfy` holds `Option` and `Result`.
- `py_str.dfy` holds the Python string operations the parser relies on:
  `str.isspace`, `strip()` and `split(" ", n)`.
- `py_datetime.dfy` models `strptime` with the fixed format. It follows
  CPython's regular-expression translation of the format and then the
  `datetime` range checks.
- `log_parsing.dfy` models `parse_logs`: a pure per-line function driven by
  a loop method.
- `anomaly_detection.dfy` holds the severity table and `detect_anomalies`.
  The frame is a class whose columns the method updates in place.
- `timeline.dfy` models `reconstruct_timeline`.
- `analysis.dfy` models the three calls as the pipeline chains them.

Three behaviours of the code shape the model:

- A line whose date or time does not parse is **fatal**. `strptime` has no
  `try` around it, so the call raises and no frame comes back. Only lines
  with fewer than four pieces are skipped.
- A level outside the table gets **no code**: `Series.map` gives a missing
  value, and there is no fallback code.
- A file with no accepted line gives `pd.DataFrame([])`, which has no
  columns. `detect_anomalies` then fails with `KeyError` on `df["level"]`
  instead of returning an empty timeline.

## Model

| member | source | states |
|---|---|---|
| PyStr.IsSpace | ml/forensic_analyzer.py:23-30 | the exact character set `str.isspace` and a regular-expression `\s` accept: what `strip()` removes and what the format's space matches |
| PyStr.SpaceNotFieldChar | ml/forensic_analyzer.py:23-30 | that whitespace never includes a digit, `-` or `:`, so it cannot be mistaken for part of a date or time field |
| PyStr.Strip | ml/forensic_analyzer.py:23 | `strip()` returns text with no whitespace at either end and no longer than its input |
| PyStr.StripSurroundings | ml/forensic_analyzer.py:23 | `strip()` returns the text between a whitespace prefix and a whitespace suffix of its input |
| PyStr.StripOf | ml/forensic_analyzer.py:23 | `strip()` removes exactly the surrounding whitespace: padding a trimmed text with whitespace on both sides strips back to that text |
| PyStr.StripBlank | ml/forensic_analyzer.py:22-25 | a line of only whitespace, an empty one included, strips to the empty string |
| PyStr.SplitSpace | ml/forensic_analyzer.py:23 | `split(" ", n)` yields between one and n+1 pieces |
| PyStr.SplitSpaceJoin | ml/forensic_analyzer.py:23 | joining the pieces with single spaces gives back the text that was split, so no character is lost or added |
| PyStr.SplitSpacePieces | ml/forensic_analyzer.py:23 | every piece but the last is free of spaces, and the last is too unless all n cuts were made |
| PyStr.SplitSpaceCount | ml/forensic_analyzer.py:23-24 | the number of pieces is one more than the number of spaces, capped at n+1 |
| PyStr.SplitThreeOnly | ml/forensic_analyzer.py:23-24 | a text with only two spaces splits into exactly its three space-free pieces even though three cuts are allowed, so the piece count falls short of four |
| PyStr.SplitFourFields | ml/forensic_analyzer.py:23 | with three cuts, every space after the third one stays inside the fourth piece |
| PyDateTime.NotAfter | ml/forensic_analyzer.py:58 | datetime `<=`, the order `sort_values` uses: reflexive, and it never puts a later year first |
| PyDateTime.NotAfterTotal | ml/forensic_analyzer.py:58 | any two timestamps are ordered one way or the other |
| PyDateTime.NotAfterAntisymmetric | ml/forensic_analyzer.py:58 | timestamps ordered both ways are equal |
| PyDateTime.NotAfterTransitive | ml/forensic_analyzer.py:58 | the timestamp order is transitive |
| PyDateTime.DaysInMonth | ml/forensic_analyzer.py:28-30 | the `datetime` constructor's month length: 28 to 31 days, and 29 exactly for February of a leap year |
| PyDateTime.ValidTimestamp | ml/forensic_analyzer.py:28-30 | the range checks that end `strptime`; every value that passes them fits the `%Y-%m-%d %H:%M:%S` field widths |
| PyDateTime.DayThenSpace | ml/forensic_analyzer.py:28-30 | the `%d` field accepts only days 1 to 31, and the whitespace after it is consumed in full |
| PyDateTime.ParseClock | ml/forensic_analyzer.py:28-30 | `%H:%M:%S` yields an hour up to 23, a minute up to 59 and a second up to 61 |
| PyDateTime.ParseDate | ml/forensic_analyzer.py:28-30 | `%Y-%m-%d` yields a year up to 9999, a month 1 to 12 and a day 1 to 31, followed by the rest of the text |
| PyDateTime.ParseTimestamp | ml/forensic_analyzer.py:28-30 | every timestamp `strptime` returns is a real date and time: month length and leap years respected, seconds below 60 |
| PyDateTime.ParseFormatted | ml/forensic_analyzer.py:28-30 | a timestamp written in the `%Y-%m-%d %H:%M:%S` format parses back to itself exactly when it is a real date and time, and fails otherwise |
| PyDateTime.ParsedEndsInDigit | ml/forensic_analyzer.py:28-30 | any text that parses ends in a digit, so text ending in whitespace or empty always fails |
| LogParsing.ParseLine | ml/forensic_analyzer.py:22-36 | a line is skipped exactly when its stripped text has fewer than three spaces, and an accepted record's level has no space and its message is not empty |
| LogParsing.ParseLineFields | ml/forensic_analyzer.py:23-35 | for a stripped line DATE TIME LEVEL MESSAGE, the level is LEVEL verbatim, the length is MESSAGE's with its inner spaces, and the line fails exactly when DATE+" "+TIME does not parse |
| LogParsing.ParsedLineShape | ml/forensic_analyzer.py:23-35 | every accepted line has that shape, and its timestamp is the parse of its first two fields |
| LogParsing.DoubledSpaceFails | ml/forensic_analyzer.py:27-30 | two spaces between date and time make the time field empty, so the line fails rather than being skipped |
| LogParsing.LineRoundTrip | ml/forensic_analyzer.py:23-35 | a line written from a valid timestamp, a level and a message, with any whitespace around it, parses back to exactly that record |
| LogParsing.ThreeFieldsSkipped | ml/forensic_analyzer.py:23-25 | a line with only date, time and level is skipped without error |
| LogParsing.BlankLineSkipped | ml/forensic_analyzer.py:22-25 | a blank or all-whitespace line is skipped |
| LogParsing.AcceptedRecordsAppend | ml/forensic_analyzer.py:19-36 | the records of consecutive blocks of lines come out in the same order, one after the other |
| LogParsing.AcceptedRecordsBound | ml/forensic_analyzer.py:19-36 | there are never more records than lines |
| LogParsing.AcceptedRecordsFrom | ml/forensic_analyzer.py:22-36 | a record is in the output exactly when some line of the file parses to it |
| LogParsing.NoBadLineAt | ml/forensic_analyzer.py:28-30 | a file is read through exactly when none of its lines has a timestamp that fails |
| LogParsing.ParseLogs | ml/forensic_analyzer.py:19-38 | the loop returns the accepted lines' records in file order when no timestamp fails, and otherwise the error of the first failing line |
| AnomalyDetection.SeverityOf | ml/forensic_analyzer.py:45-46 | a level has a code exactly when it is INFO, WARNING or ERROR, and the code is that level's position in that list; any other level gets none |
| AnomalyDetection.SeverityOfName | ml/forensic_analyzer.py:45 | each of the codes 0, 1 and 2 is given to its level, so the table is one-to-one |
| AnomalyDetection.SeverityOrder | ml/forensic_analyzer.py:45 | INFO's code is below WARNING's, which is below ERROR's |
| AnomalyDetection.LowerCaseUnknown | ml/forensic_analyzer.py:46 | the lookup is exact: `info` or `Error` gets no code |
| AnomalyDetection.SeverityColumn | ml/forensic_analyzer.py:46 | `df["level"].map(severity_map)`: one entry per row, that row's level's code, missing exactly where the level is not INFO, WARNING or ERROR |
| AnomalyDetection.Features | ml/forensic_analyzer.py:48 | `df[["severity", "message_length"]]`: one feature row per record, pairing the severity column with the message length |
| AnomalyDetection.ZipRows | ml/forensic_analyzer.py:46-50 | the labelled frame has one row per record, holding that record and the values of the added columns at its position |
| AnomalyDetection.LogFrame.constructor | ml/forensic_analyzer.py:38 | the frame `parse_logs` returns holds the records and no added columns |
| AnomalyDetection.LogFrame.Rows | ml/forensic_analyzer.py:46-52 | a labelled frame's rows are its records with their severity and label, in frame order |
| AnomalyDetection.DetectAnomalies | ml/forensic_analyzer.py:40-52 | a frame with no records raises `KeyError` and is left as it was; otherwise the records are kept and the severity column is set, and then either the model raises and the label column is untouched, or the frame gains one label per row |
| AnomalyDetection.LabelledRows | ml/forensic_analyzer.py:46-52 | once labels are attached, each row holds its record unchanged, its own level's code and the label at its position, and the row count is kept |
| Timeline.ReconstructTimeline | ml/forensic_analyzer.py:54-58 | the timeline is ordered by timestamp and is a permutation of the frame's rows |
| Timeline.ChronologicalUnique | ml/forensic_analyzer.py:58 | two ordered sequences of the same timestamps are identical |
| Timeline.TimelineTimesDetermined | ml/forensic_analyzer.py:54-58 | every ordered permutation of the rows has the timeline's timestamp column, so an unstable sort can reorder only rows with equal timestamps |
| Timeline.TimelineLength | ml/forensic_analyzer.py:54-58 | the timeline has as many rows as the frame |
| Timeline.TimelineStartsEarliest | ml/forensic_analyzer.py:54-58 | the first row of the timeline is no later than any row of the frame |
| Analysis.TimelineRows | forensic_pipeline.py:23-25 | every row of a reordering of the labelled frame holds one of the parsed records and the code of that record's level |
| Analysis.AnalyzeLogs | forensic_pipeline.py:23-25 | parse, detect and order in one run: the first failing timestamp is fatal, a file with no accepted line fails with `KeyError`, a model that raises fails the run, and otherwise the result is the labelled frame in timestamp order, each row carrying an accepted record and its level's code |

## Left out

- The outlier model (`IsolationForest`, its fit and prediction) is a foreign, randomised, floating-point call. It is a parameter `fitPredict` that either gives one label per feature row or fails, and a failure ends the run. Which inputs make it fail (for example rows whose severity is missing) is not modelled, since that depends on the library.
- File opening and reading are left out. The file is given as its sequence of lines, and a line may keep its newline, which `strip()` removes.
- `strptime` in the model accepts only ASCII digits. CPython's `\d` also accepts other Unicode decimal digits; that case is not modelled.
- pandas mechanics beyond what the three methods rely on are left out: column dtypes, the index, NaN as a float, and copying. A frame is a sequence of records plus the two added columns.
- Timeline.ReconstructTimeline: it promises only an ordered permutation, not the tie order pandas' default sort produces. That order is not part of the source's promise, and the lemmas show it can affect only rows with equal timestamps. Ordering a frame that was never labelled is not modelled, because the program always labels the frame first.
- The integrity ledger, hashing, lock and verify steps of the pipeline are not part of this model, nor are the rest of `forensic_pipeline.py` and the user interface in `app.py`.
