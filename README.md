# Branch upload reconciliation, modelled in Dafny

This project models the data-processing core of a branch-upload dashboard
(`data_processing.py`), and proves properties of that model.

**The extractor.** The extractor is `process_data`.
- It reads an upload log: rows of status, channel and upload time.
- It keeps the rows whose status is exactly `Applied`.
- It takes the latest upload per channel and sorts the channels.
- For each channel it derives a Branch ID, the first run of digits printed as a canonical decimal.
- It also derives a `Time Difference` text: the time-of-day part of the age of the latest upload (whole seconds, rounded down, modulo one day) as `HH:MM:SS`. When every age in the table is a whole number of days, pandas prints the column without a clock part, and the text is missing.

**The reconciler.** The reconciler is `check_missing_branches`.
- It parses those texts back into durations. A missing text becomes a missing duration (NaT).
- It flags a row when that reduced value exceeds thirty minutes. A row more than a day old is therefore flagged only when its age modulo one day exceeds thirty minutes. A row with no duration is never flagged.
- It reports as missed the flagged rows, followed by every registry branch that is absent from the results and not excluded.
- `get_branch_name` looks up a branch name in the registry.

**How the model is written.**
- Timestamps and durations are integer microseconds.
- The current time, the branch registry (its keys and names, in file order) and the exclusion set are parameters.
- The extractor is written as pure functions (module `Extractor`), built on:
  - the digit and string-order helpers in `Text`;
  - the duration text codec in `Duration`.
- The reconciler (module `Reconciler`) is a method whose loop builds the list of missing keys. It is proved against specification functions.
- `Pipeline` connects the two stages.

**Exclusion.**
- The exclusion test guards only the list of absent registry branches (:115-120). A late row is reported whatever the exclusion set holds (`Reconciler.MissedLateRow`).
- As written, the exclusion test never matches at all (see Findings).

## Model

| member | source | states |
|---|---|---|
| Text.FirstDigitRun | data_processing.py:84 | the first match of `(\d+)` exists exactly when the channel holds a digit, and it is the leftmost maximal run of digits |
| Text.FirstDigitRunUnique | data_processing.py:84 | the leftmost maximal digit run is unique, so the Branch ID is well defined |
| Text.DecimalValue | data_processing.py:85 | `str` of an int is a canonical digit string whose value is that int |
| Text.CanonicalRoundTrip | data_processing.py:84-85 | `str(int(s))` gives back every canonical digit string `s` |
| Text.NormalizedDigits | data_processing.py:84-85 | `str(int(run))` is the run without its leading zeros, or "0" for a run of zeros |
| Text.LexIrreflexive | data_processing.py:65 | no channel sorts before itself |
| Text.LexTransitive | data_processing.py:65 | the channel order is transitive |
| Text.LexTotal | data_processing.py:65 | any two different channels are ordered one way or the other |
| Duration.PartsSpec | data_processing.py:74-76 | a Timedelta splits into a floored day count, a time of day under one day, and microseconds under one second, which add back to the elapsed time |
| Duration.Pad2 | data_processing.py:76 | each `HH`, `MM`, `SS` field is two digits with the field's value |
| Duration.SplitField | data_processing.py:103 | a split field is a non-empty digit run, and joining it back with ':' and the rest gives the text |
| Duration.ClockFields | data_processing.py:103 | parsed fields are non-empty digit runs that join back into exactly the parsed text |
| Duration.ClockFieldsJoin | data_processing.py:103 | splitting joined digit fields gives the same fields back |
| Duration.ParseClockOfFields | data_processing.py:103 | `h:m:s` text parses to h·3600 + m·60 + s seconds, with no range check on the fields |
| Duration.ClockRoundTrip | data_processing.py:103 | for every time of day under 24 hours, formatting then parsing gives the same number of seconds |
| Duration.FormatElapsedParses | data_processing.py:74-76 | the `HH:MM:SS` match in the long form of any elapsed time, negative ones included, parses to its whole seconds (floored) modulo one day |
| Duration.ExtractClockParses | data_processing.py:74-76 | the kept Time Difference is missing exactly when the column is printed in its short form; otherwise it parses to the whole seconds of the elapsed time modulo one day |
| Duration.FormatElapsedDropsDays | data_processing.py:76 | elapsed times a whole number of days apart print the same Time Difference |
| Duration.PartsUnique | data_processing.py:74 | the day/time-of-day/microsecond split of an elapsed time is unique |
| Extractor.Applied | data_processing.py:62 | a row is kept exactly when it is in the log and its status is exactly "Applied" |
| Extractor.UpsertSpec | data_processing.py:64-65 | adding one upload keeps the groups strictly sorted, adds its channel to the channels, takes every other group from the old list, and gives its channel the later of its old time and the new one |
| Extractor.GroupLatestSpec | data_processing.py:64-65 | grouping gives strictly ascending channels, exactly the channels of the rows, each with its latest upload time |
| Extractor.SortedUnique | data_processing.py:65 | two strictly sorted group lists with the same channels and agreeing groups are equal |
| Extractor.GroupLatestOrderInsensitive | data_processing.py:64-65 | grouping depends only on which rows occur |
| Extractor.BranchId | data_processing.py:84 | a Branch ID exists exactly when the channel holds a digit |
| Extractor.BranchIdSpec | data_processing.py:84-85 | the Branch ID is the first digit run with leading zeros removed ("0" for zeros only); it is canonical and has the run's value |
| Extractor.ProcessData | data_processing.py:53-55 | an empty upload table is rejected with EmptyInput |
| Extractor.LatestAppliedSpec | data_processing.py:62-65 | the groups are strictly ascending; there is one per channel with an Applied row; each holds that channel's latest Applied time |
| Extractor.NonAppliedChannelAbsent | data_processing.py:62 | a channel with no Applied row never yields a record, however recent its other rows are |
| Extractor.ProcessDataFails | data_processing.py:53-84 | an empty table fails with EmptyInput; any other table fails exactly when some Applied channel holds no digit, and then with MissingBranchDigits |
| Extractor.ProcessDataRecords | data_processing.py:62-85 | one record per Applied channel, in channel order, holding the channel's Branch ID and its latest Applied upload time; the Time Difference is missing exactly when every group's age is a whole number of days, and is otherwise that time's elapsed-time text |
| Extractor.ProcessDataIds | data_processing.py:84-85 | the output Branch IDs are exactly the Branch IDs of channels of Applied rows |
| Extractor.ProcessDataOrderInsensitive | data_processing.py:62-65 | reordering or repeating log rows does not change the result |
| Reconciler.FlagRecord | data_processing.py:103-104 | a row converts exactly when its text is missing or parses; a missing text gives a missing duration; the flag is 0 or 1, and it is 1 exactly when there is a duration and it exceeds 1800 s |
| Reconciler.FlagRecords | data_processing.py:103-104 | the column converts exactly when every text is missing or parses, and otherwise fails with BadDuration; each converted row keeps its Branch ID and date, has no duration where the text was missing and the parsed duration elsewhere, and is flagged 1 exactly when it has a duration above 1800 s |
| Reconciler.LateRows | data_processing.py:107 | every flag-1 row appears, without its flag, and nothing else does; the result is no longer than the table, so with `LateRowsAppend` each flag-1 row appears exactly once, in table order |
| Reconciler.LateRowsAppend | data_processing.py:107 | late-row selection keeps the row order |
| Reconciler.MissingKeys | data_processing.py:115-120 | a key is listed exactly when it is a registry key, not present among the results' Branch IDs and not excluded |
| Reconciler.MissingKeysAppend | data_processing.py:115-120 | missing keys are listed in registry order |
| Reconciler.MissingKeysDistinct | data_processing.py:115-120 | with distinct registry keys, no missing key is listed twice |
| Reconciler.CheckMissingBranches | data_processing.py:100-132 | fails with BadDuration exactly when the flag conversion fails; otherwise returns the flagged table, and the late rows followed by the absent registry branches |
| Reconciler.FlaggedIds | data_processing.py:119 | the Branch IDs tested against the registry are exactly those of the extractor rows |
| Reconciler.MissedAbsentRow | data_processing.py:115-127 | a null-date row for a key is reported exactly when the key is in the registry, absent from the results and not excluded |
| Reconciler.MissedLateRow | data_processing.py:107-127 | every late row is reported, whatever the exclusion set holds |
| Reconciler.MissedRowOrigin | data_processing.py:107-129 | every missed row is either a late row or an absent, non-excluded registry branch with null date and duration |
| Reconciler.MissedOnce | data_processing.py:115-127 | with distinct registry keys, each absent non-excluded branch appears exactly once |
| Reconciler.Lookup | data_processing.py:45 | no name is found exactly when the key is not in the registry |
| Reconciler.GetBranchNameSpec | data_processing.py:43-45 | with distinct keys, the name is the registry name stored under `str(id)` |
| Reconciler.GetBranchNameUnknown | data_processing.py:45 | an id whose `str` is not a registry key gets "Unknown Branch" |
| Reconciler.BranchNameIntOrStr | data_processing.py:45 | a canonical Branch ID finds the same name whether it is passed as a str or as the int it denotes |
| Reconciler.ExclusionNeverMatches | data_processing.py:119 | as written, `branch_id in EXCLUDED_BRANCHES` is false for every str key |
| Reconciler.MissingKeysAsWrittenIgnoresExclusion | data_processing.py:115-120 | the loop as written equals the loop with an empty exclusion set |
| Reconciler.ExclusionCounterexample | data_processing.py:8-17 | branch "50009" is meant to be excluded; as written a registry holding only it reports it missing, and with the intended set it is not reported |
| Pipeline.PipelineNeverBadDuration | data_processing.py:74-104 | every Time Difference of a successful extraction parses, so reconciliation never fails with BadDuration |
| Pipeline.ProcessDataExtracted | data_processing.py:62-85 | a successful extraction has one record per group, whose Time Difference is missing in the short form and is otherwise the group's elapsed-time text |
| Pipeline.ExtractedFlags | data_processing.py:74-104 | on such a table, if every age is a whole number of days, no row has a duration and none is flagged; otherwise each duration is the group's age in whole seconds modulo one day, and the row is flagged exactly when that exceeds 30 minutes |
| Pipeline.UploadedNow | data_processing.py:74-104 | a log whose only row is an Applied upload made now gives one record with no Time Difference, which reads back as NaT with flag 0 |
| Pipeline.PipelineAbsent | data_processing.py:84-119 | after a successful extraction, reconciliation succeeds, and a branch is reported absent exactly when it is a non-excluded registry key and no Applied channel has its Branch ID |
| Pipeline.AtThreshold | data_processing.py:104 | a row exactly 30 minutes old is not flagged (the comparison is strict) |
| Pipeline.PastThreshold | data_processing.py:104 | a row 30 minutes and 1 second old is flagged |
| Pipeline.DayIsDropped | data_processing.py:74-76 | a row 1 day and 10 minutes old reads as 600 s and is not flagged |

## Left out

- `app.py` is not part of this model. It contains the Streamlit page, the styling, the clipboard copy, the utility install at start-up and the disabled e-mail code, all of which are user interface or operating-system effects.
- `load_branch_data` (data_processing.py:29-41) is file and JSON I/O. The registry is a parameter instead. A missing or malformed file corresponds to passing the empty registry.
- JSON objects with a repeated key are not modelled. `json` keeps one entry per key. The registry is a sequence of entries, and the lemmas that need distinct keys say so.
- Reading the workbook (`pd.read_excel`, :51) and parsing date text (`pd.to_datetime`, :63) are library parsing. Rows arrive typed, with integer timestamps.
- The clock (`datetime.now()`, :73) is a parameter `now`.
- Logging (:19-27 and throughout) has side effects only, so it is not modelled.
- Timestamps are microseconds where pandas uses nanoseconds. The fraction of a second is dropped from the Time Difference either way.
- The 64-bit limits are not modelled:
  - the overflow of `.astype(int)` on very long digit runs (:84);
  - the Timestamp range.
- Unicode digits matched by `\d` are not modelled; only ASCII digits count.
- Missing values (NaN/NaT) in the input log are not modelled. The missing Time Difference that the extractor itself can produce is modelled.
- The printed Timedelta text and the `\d+:\d+:\d+` search are not modelled character by character. The model states their outcome: the `HH:MM:SS` part in the long form, and nothing in the short form "D days", which contains no ':'.
- Duration.ParseClock: accepts only `digits:digits:digits`, as the extractor writes. `pd.to_timedelta` (:103) also accepts day counts, units, signs and fractions, which the model rejects with BadDuration.
- Reconciler.CheckMissingBranches: returns the flagged table as a new value. The source overwrites `Time Difference` and adds `flag` in the caller's frame in place (:103-104). The caller does not use the old frame afterwards.
- Reconciler.CheckMissingBranches: computes the set of present Branch IDs once. The source rebuilds the same set on every loop iteration (:119).
- The row index carried through `pd.concat` (:127) is not modelled, nor are column dtypes. Null cells are `None` values.
- Pipeline.ExtractedFlags: is stated for any table of the shape `Pipeline.Extracted`, not for `ProcessData(rows, now)` itself. `Pipeline.ProcessDataExtracted` shows that the output of `process_data` has that shape, so the two lemmas together give the end-to-end property.
- Two channels may give the same Branch ID, for example "A1" and "B01". As in the source, both records are kept and nothing is merged.

## Findings

| source | as written | input that shows it | evidently intended | confidence | as-written member | corrected member |
|---|---|---|---|---|---|---|
| data_processing.py:119 | `branch_id not in EXCLUDED_BRANCHES` compares a str registry key with a list of ints (:8-17), so it is always true and no branch is ever excluded | a registry with key "50009" and no upload for it: "50009" is reported missing | test the key against the listed ids as the registry spells them, `str(b)` for each `b` | high (not executed) | Reconciler.MissingKeysAsWritten | Reconciler.MissingKeys |

`Reconciler.ExclusionCounterexample` exhibits the input for both members. `Reconciler.MissingKeysAsWrittenIgnoresExclusion` proves that the as-written loop is the loop with an empty exclusion set. The rest of the model uses `Reconciler.MissingKeys` with an exclusion-set parameter. `Reconciler.IntendedExcluded` is the intended value of that parameter.
