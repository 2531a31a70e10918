# FungiScope Candida weekly update, modelled in Dafny

The repository publishes weekly *Candida auris* case counts per country.
New numbers come in through one interactive script, `data/scripts/update.py`.
Its `main` works in these steps:

1. It asks for the week's date. A blank answer means today in ISO form. Any other answer must split on `-` into three integers that name a real date, or the program stops.
2. It asks for one count for each of the five countries, in a fixed order. A blank answer is 0. A non-negative integer is taken. Anything else is refused and the prompt repeats.
3. It loads the stored list of weekly records.
4. It replaces the counts of the first record dated that week. If no record has that date, it appends a new record instead.
5. It sorts the list by date string, stably, with a missing date sorting as `""`.
6. It reports the total of the new counts.

The model keeps the structure of the script:

- `Text`: Python's `str.strip()` with its full whitespace set, `str.split` on one character, and the join that inverts it.
- `Numerals`: the part of `int()` the script relies on. That is surrounding whitespace, an optional sign, and ASCII digits. The whitespace `int()` skips is narrower than what `str.strip()` removes: the separators FS, GS, RS and US (U+001C to U+001F) are stripped by `strip()` but refused by `int()`. The module also has `str(n)` and zero-filled fields.
- `StringOrder`: Python's `<=` on strings, by code point.
- `Dates`: the date prompt and its validation (`ParseDate`, `CheckDate`, `AskDate`), plus `date.isoformat()`.
- `CountInput`:
  - `Classify` is the per-answer decision of `ask_int`.
  - `Ask` and the loop `AskInt` run `ask_int` over a scripted sequence of answers.
  - `Collect` and the loop `CollectCounts` fill the payload.
  - `Total` is the reported sum.
- `Weeks`:
  - Records are a datatype.
  - `Upserted` specifies the replace-or-append step, and `SortedByDate` specifies the stable sort.
  - The class `WeekData` holds the list as a mutable field. Its method `Upsert` is the flag-and-`break` scan, and `SortByDate` is the in-place sort.
- `Update`: `AddWeek` is the whole of `main`. It takes:
  - the console answers as a scripted sequence;
  - the clock as a `today` parameter;
  - the data file as what `load_data` found.

  Each `sys.exit(1)` becomes an error result.
- `Scenarios`: worked examples on concrete answers and records.

The string sort is chronological only for dates in full ISO form. `IsoOrder` proves that it is for zero-padded dates. The date check does accept unpadded answers such as `2024-1-8` and stores them as typed (`UnpaddedDateAccepted`). Such a date sorts after `2024-01-09` (`UnpaddedDateSortsLate`). The model keeps this behaviour of the script.

Records are one per date only if the stored list already was: the upsert touches the first match only. `MergeKeepsOnePerWeek` proves that one-per-date is preserved. Later duplicates of the week are left as they are (`Upserted`).

## Model

| member | source | states |
|---|---|---|
| Text.StripPadded | data/scripts/update.py:10 | `strip()` removes exactly the whitespace around a core without outer whitespace: spaces + core + spaces gives the core |
| Text.StripIdempotent | data/scripts/update.py:24 | stripping a stripped answer changes nothing |
| Text.TrimStartDropsSpace | data/scripts/update.py:10 | the leading part that strip drops is all whitespace, and what is left is a suffix of the input |
| Text.TrimEndDropsSpace | data/scripts/update.py:10 | the trailing part that strip drops is all whitespace, and what is left is a prefix of the input |
| Text.Split | data/scripts/update.py:15 | `raw.split("-")` yields at least one piece, and no piece contains `-` |
| Text.JoinSplit | data/scripts/update.py:15 | joining the pieces of `split("-")` with `-` gives back the answer |
| Text.SplitJoin | data/scripts/update.py:15 | splitting a `-`-join of pieces without `-` gives back the pieces |
| Numerals.DecimalRoundTrip | data/scripts/update.py:28 | `int(str(n)) == n` for every non-negative `n`, with no limit on the number of digits (see Left out) |
| Numerals.NegatedDecimalRoundTrip | data/scripts/update.py:28-29 | `int("-" + str(n)) == -n`, so every negative value typed in the usual form reaches the sign test |
| Numerals.IntStripPadded | data/scripts/update.py:15 | `int()` drops exactly the whitespace it skips (tab to CR, space and non-ASCII whitespace) around a core that neither starts nor ends with such whitespace |
| Numerals.IntRefusesSeparator | data/scripts/update.py:15 | a numeral followed by FS, GS, RS or US is not read: `int()` raises where `str.strip()` would have removed the character |
| Numerals.PadRoundTrip | data/scripts/update.py:15 | `int()` reads a zero-filled ISO field back as its value |
| Numerals.PadValue | data/scripts/update.py:9 | a zero-filled field has the value it was written from |
| StringOrder.LexLeTotal | data/scripts/update.py:72 | any two sort keys are comparable |
| StringOrder.LexLeTransitive | data/scripts/update.py:72 | the key order is transitive |
| StringOrder.LexLeAntisymmetric | data/scripts/update.py:72 | keys that compare both ways are equal |
| StringOrder.LexLeAppend | data/scripts/update.py:72 | after equal-length prefixes, the comparison is decided by the first differing prefix, else by the rests |
| StringOrder.LexLeDigits | data/scripts/update.py:72 | digit strings of equal length compare as their values do |
| Dates.DaysInMonth | data/scripts/update.py:16 | a month has 28 to 31 days, and 29 exactly for February of a Gregorian leap year |
| Dates.ParseDate | data/scripts/update.py:14-16 | an accepted answer splits into exactly three pieces and names a date `datetime.date` accepts (years 1 to 9999, months 1 to 12, days within the month) |
| Dates.CheckDateAccepts | data/scripts/update.py:14-20 | any three dash-free pieces that the modelled `int()` reads as a calendar date pass the check once joined with `-`, padded or not; the answer is returned as typed and names that date (see Left out) |
| Dates.CheckDateAcceptedForm | data/scripts/update.py:14-20 | conversely, every answer the check accepts is three dash-free pieces joined with `-` that `int()` reads as a calendar date |
| Dates.CheckDateRefusesSeparator | data/scripts/update.py:14-19 | an answer whose first field ends in FS, GS, RS or US fails the check, since `int()` does not skip that character |
| Dates.IsoFormat | data/scripts/update.py:9 | `isoformat()` writes ten characters |
| Dates.IsoRoundTrip | data/scripts/update.py:9-16 | every date in ISO form passes the check and reads back as the same date |
| Dates.AskDateBlank | data/scripts/update.py:9-12 | a blank answer, of any whitespace, gives today's ISO date without validation |
| Dates.AskDateTyped | data/scripts/update.py:10-20 | a non-blank answer is stripped and then checked, and is returned as typed if it passes |
| Dates.AskDateValid | data/scripts/update.py:8-20 | whatever the date prompt returns passes the date check |
| Dates.IsoOrder | data/scripts/update.py:72 | for dates in ISO form, string order is chronological order |
| CountInput.ClassifyMeaning | data/scripts/update.py:24-32 | with `val` the stripped answer, the answer is taken exactly when `val` is empty or `int(val)` reads a value of at least 0; an empty `val` counts 0, otherwise the count is `int(val)`'s value |
| CountInput.ClassifyBlank | data/scripts/update.py:24-26 | an all-whitespace answer counts 0 |
| CountInput.ClassifyDecimal | data/scripts/update.py:27-30 | every non-negative integer typed in the usual form is taken with its value, with no limit on the number of digits (see Left out) |
| CountInput.ClassifyNegated | data/scripts/update.py:28-31 | every negative integer is refused; `-0` is taken as 0 |
| CountInput.ClassifyNonNumeral | data/scripts/update.py:27-32 | an answer with a character that is not an ASCII digit, other than a leading sign, is refused (see Left out) |
| CountInput.Ask | data/scripts/update.py:22-32 | each prompt consumes at least one answer, and the answers left are a suffix of the script |
| CountInput.AskInt | data/scripts/update.py:22-32 | the retry loop returns what `Ask` specifies: the count of the first answer not refused and the answers after it, or nothing when the script runs out |
| CountInput.AskNone | data/scripts/update.py:22-32 | the loop comes back empty exactly when no answer in the script is taken |
| CountInput.AskNoneRefusedAll | data/scripts/update.py:23-32 | when the loop comes back empty, every answer was refused |
| CountInput.AskSome | data/scripts/update.py:22-32 | when the loop returns a count, that count is the first of the taken answers, and the other taken answers are the ones it leaves |
| CountInput.AskSomeFirstTaken | data/scripts/update.py:22-32 | the returned count comes from the first answer that is taken; every answer before it was refused; the answers left start right after it |
| CountInput.Collect | data/scripts/update.py:54-57 | a filled payload has exactly the keys already present plus the countries asked for |
| CountInput.CollectDefined | data/scripts/update.py:54-57 | the payload is filled exactly when the script holds at least one taken answer per country |
| CountInput.CollectTakesAnswersInOrder | data/scripts/update.py:55-57 | the i-th country is mapped to the i-th taken answer |
| CountInput.CollectKeepsOthers | data/scripts/update.py:57 | filling later countries never changes a key that is not among them |
| CountInput.CollectCounts | data/scripts/update.py:54-57 | the payload loop fills exactly what `Collect` specifies, or fails exactly when `Collect` does |
| CountInput.Total | data/scripts/update.py:76 | the total is at least every country's count, and 0 exactly when every count is 0 |
| CountInput.TotalOfCollected | data/scripts/update.py:54-76 | the reported total is the sum of the first five taken answers |
| CountInput.TotalIsSum | data/scripts/update.py:76 | the sum over the payload equals the sum of the counts in country order |
| Weeks.FirstWithDate | data/scripts/update.py:63-67 | the scan stops at the first record with the week's date, or finds none when no record has it |
| Weeks.Upserted | data/scripts/update.py:62-69 | if a record has the week's date, only the first such record becomes the new record, the length is kept and every other record (later duplicates included) is unchanged; otherwise the new record is appended and nothing else changes |
| Weeks.Insert | data/scripts/update.py:72 | inserting keeps every record and adds one |
| Weeks.SortedByDate | data/scripts/update.py:72 | the sort keeps the length and is a permutation |
| Weeks.SortIsSorted | data/scripts/update.py:72 | after the sort, adjacent keys are in ascending string order, a missing date counting as `""` |
| Weeks.SortedPairwise | data/scripts/update.py:72 | in a sorted list every key is at most every later key |
| Weeks.SortIsStable | data/scripts/update.py:72 | records with equal keys keep their relative order |
| Weeks.SortOfSorted | data/scripts/update.py:72 | sorting an already sorted list changes nothing |
| Weeks.SortKeepsWeekOrder | data/scripts/update.py:72 | the records of each date keep their relative order |
| Weeks.FirstWithDateIsHead | data/scripts/update.py:63-67 | the scan finds nothing exactly when no record has the date, and otherwise finds the first of them |
| Weeks.UpsertedHead | data/scripts/update.py:61-69 | after the upsert, the week's first record is the new record |
| Weeks.UpsertedAgain | data/scripts/update.py:61-69 | an upsert whose record is already the week's first record changes nothing |
| Weeks.MergeResult | data/scripts/update.py:61-72 | after upsert and sort, the list is sorted, is a permutation of the upserted list, and the week's first record is the new one |
| Weeks.MergeIdempotent | data/scripts/update.py:61-72 | running the update twice with the same week and counts gives the list one run gives |
| Weeks.UpsertedDateCount | data/scripts/update.py:61-69 | the upsert never creates a second record for a date, and the week has exactly one record afterwards if it had at most one before |
| Weeks.MergeKeepsOnePerWeek | data/scripts/update.py:61-72 | if every date had at most one record, that stays so, and the week's only record is the new one |
| Weeks.WeekData.constructor | data/scripts/update.py:59 | the list starts as the loaded records |
| Weeks.WeekData.Upsert | data/scripts/update.py:61-69 | the flag-and-break scan leaves the list as `Upserted` specifies |
| Weeks.WeekData.SortByDate | data/scripts/update.py:72 | the in-place sort leaves the stable sort of the old list, which is sorted and a permutation of it |
| Update.AddWeek | data/scripts/update.py:50-79 | errors come in the script's order: no input, then a rejected date, then running out of answers, then a malformed data file (`MalformedData`); when the date is accepted, five answers are taken and the file is readable, the run succeeds; on success the week is the date prompt's answer, the payload is the five collected counts, the records are the upserted and sorted list, it is sorted, and the total is the payload's sum |
| Scenarios.FirstAnswersRead | data/scripts/update.py:24-30 | the answers `10`, blank, `5`, `0` and `20` are taken as 10, 0, 5, 0 and 20 |
| Scenarios.NegativeRefused | data/scripts/update.py:28-32 | `-3` is refused |
| Scenarios.MinusZeroTaken | data/scripts/update.py:28-30 | `-0` is taken as 0 |
| Scenarios.WordRefused | data/scripts/update.py:27-32 | `ten` is refused |
| Scenarios.FirstWeekTotal | data/scripts/update.py:76 | the counts 10, 0, 5, 0 and 20 report a total of 35 |
| Scenarios.FirstWeekStored | data/scripts/update.py:59-72 | with no data file, the stored list becomes the one new record |
| Scenarios.SecondRunUpsert | data/scripts/update.py:62-67 | entering `2024-01-08` again replaces the counts of its record |
| Scenarios.SecondRunReplaces | data/scripts/update.py:61-72 | with records for `2024-01-08` and `2024-01-15`, entering `2024-01-08` again keeps two records in date order, the first updated and the second unchanged |
| Scenarios.SeparatorAfterYearRefused | data/scripts/update.py:14-19 | `2024\x1c-01-08` fails the date check |
| Scenarios.SeparatorAfterYearExits | data/scripts/update.py:8-19 | the date prompt refuses the answer `2024\x1c-01-08`: stripping keeps the inner separator and the check fails |
| Scenarios.UnpaddedDateAccepted | data/scripts/update.py:14-20 | an unpadded date such as `2024-1-8` passes the check and is kept as typed |
| Scenarios.UnpaddedDateSortsLate | data/scripts/update.py:72 | `2024-1-8` sorts after `2024-01-09` although it is the earlier date |

## Left out

- Console output: the prompts, the messages and the summary lines are not modelled. The model covers what is asked and what is returned or reported.
- Console input is a finite scripted sequence of lines. Where Python's `input()` would raise `EOFError` because the script has run out, `AddWeek` returns `InputExhausted`. The model therefore covers no unbounded wait.
- `sys.exit(1)` is not modelled as process termination. Each exit becomes an error result: `DateRejected` for a bad date and `MalformedData` for a data file that is not JSON.
- `date.today()` is a parameter. The `DATA_PATH` construction is not modelled.
- `load_data` is abstracted as three outcomes: missing file, invalid JSON, parsed list. A data file holding valid JSON that is not an array (an object, a number, a string) is not modelled; `main` then raises before saving. Creating the directory is not modelled.
- `save_data` is not modelled: no JSON encoding or file writing, so no save/reload round trip. `AddWeek` returns the list that would be written.
- Dates.CheckDateAccepts, Numerals.ParseInt, Numerals.DecimalRoundTrip, Numerals.NegatedDecimalRoundTrip, CountInput.ClassifyDecimal: no limit on the length of a numeral. Since Python 3.11 (and the 3.10.7, 3.9.14, 3.8.14 and 3.7.14 security releases), `int()` raises `ValueError` on a decimal string of more than 4300 digits, so such a count answer is refused and the prompt repeats, and such a date field makes the date prompt exit, while the model takes both; the Python version the script runs on is not fixed by the repository.
- Dates.CheckDateAccepts, Numerals.ParseInt, CountInput.ClassifyNonNumeral: accepts only surrounding whitespace, an optional sign and ASCII digits. Python's `int()` also accepts underscores between digits (`1_000`) and non-ASCII decimal digits; such count answers are refused in the model but taken by the script, and such date fields (`2_024-01-08`) are rejected by the model's date check but accepted by the script.
- Weeks.Entry: records carry only an optional `date` and an optional `countries`. Other keys of a stored record are not modelled. So are records that are not JSON objects, dates that are not strings (a `null` date makes Python's sort raise `TypeError`), and a `countries` value that is not an object of integers (`main` never reads a stored one).
- Weeks.WeekData.Upsert: the updated record is a new value in the list, not the same dictionary object. Aliasing between the payload dictionary and the stored record is not modelled.
- Weeks.SortedByDate: Python's Timsort is replaced by a stable insertion sort. Both are stable sorts on the same key, so they give the same list. `WeekData.SortByDate` assigns that list to the field instead of sorting in place.
- A first run with no data file and the answers 10, blank, 5, 0 and 20 is worked through only in parts: the reading of each answer, the total, and the stored list. Running `Collect` over all five scripted answers is left to the general lemmas (`CollectTakesAnswersInOrder`, `TotalOfCollected`).
