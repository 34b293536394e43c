# Weather suite core, modelled in Dafny

The repository is a pytest suite around a weather API. Its helpers fetch
current weather for cities, store the readings in a SQLite table of
`WeatherData` rows keyed by `city_id`, scrape a weather page into a label/value
table, and merge that table into the stored row. This project models the
sequential logic under the HTTP, SQLAlchemy and Playwright plumbing, and proves
what that logic promises:

- `WeatherStore` (`utilities/db_helpers.py`) holds the `WeatherData` row as a
  datatype. `DatabaseHelper` is a class whose `rows: seq<Row>` field its
  methods reassign.
  - The upsert keyed by `city_id` and the extended-data merge driven by the
    seven-label `attribute_map` are each specified by a function of the old
    table (`Upserted`, `ExtendedMerged`).
  - Lemmas about those functions prove what a lookup finds afterwards, what is
    left unchanged, and that both writes keep the ids distinct and keep "at
    most one row per `city_id`". The schema does not enforce that second
    invariant.
- `ApiHelpers` (`utilities/api_helpers.py`) covers three things:
  - the weather URL and how it reads back;
  - the `get_test` filter over the `\n`-split completion response, as a loop
    with its `continue`s;
  - `find_root_directory`'s walk up the directory chain, with the file system
    as a predicate.
- `QuestionThree` (`tests/test_question_three.py`) covers:
  - payload validation and storage;
  - the random-city loop, bounded by `n + 5` attempts;
  - `extract_table_data` over abstract (key cell, value cell) rows;
  - `extract_city_name` with both of its exceptions;
  - the cross-check of `test_case_two`.
- `QuestionTwo` (`tests/test_question_two.py`) covers the six-city fetch, the
  argmax over averages (the first entry wins ties), and `test_case_one`'s
  comparison of the table with the API data.
- `Text` models the Python string built-ins the code relies on:
  - `split(sep)` and `split()`, with their round trips to `join`;
  - `strip()` and `rstrip(':')`, using Python's set of whitespace characters;
  - `startswith` and `endswith`.
- `Sequences` holds the first-match search that SQLAlchemy's `.first()` and
  `list.index` both reduce to.
- `Wrappers` holds `Option` and `Result`.

Every HTTP response is an input value. In `QuestionTwo`, which asks about each
city once, `weatherOf(city)` stands for the answer to
`get_current_weather(city)`. In `QuestionThree.TestCaseOne`, which asks again
on every attempt, attempt `t` (from 0) sees its own answers: `citiesAt(t)` for
the `data` member of the countries endpoint's answer, and `weatherAt(t)(city)`
for the weather answer, so the answers may change between attempts. A JSON key
that is absent is `None`.
`random.choice` is the nondeterministic pick `:|`. Temperatures are `real`, so
`(min + max) / 2` is exact.

A new row's `id` follows SQLite's rowid rule: one more than the largest id in
the table, or 1 for an empty table. `.first()` without `ORDER BY` scans the
table in rowid order. The row sequence is kept in that order: `Valid()` says the
ids strictly increase along it, the helper opens on a table read that way, and
both writes keep it because a new row's id exceeds every existing one.

## Model

| member | source | states |
|---|---|---|
| Sequences.FirstIndex | automation_framework/utilities/db_helpers.py:84 | The first index whose element matches: it matches, no earlier one does, and it is absent exactly when nothing matches |
| Sequences.FirstIndexAt | automation_framework/tests/test_question_three.py:203 | A match with no earlier match is the first index |
| Text.Split | automation_framework/utilities/api_helpers.py:41 | `split(sep)` yields at least one piece, no piece holds the separator, and the first piece is a prefix of the input |
| Text.JoinSplit | automation_framework/utilities/api_helpers.py:41 | Joining the pieces of `split(sep)` with the separator gives back the input |
| Text.SplitJoin | automation_framework/utilities/api_helpers.py:53 | Splitting a join of separator-free pieces gives back the pieces |
| Text.SplitFree | automation_framework/utilities/api_helpers.py:41 | A string without the separator splits into itself alone |
| Text.Join | automation_framework/utilities/api_helpers.py:41 | `sep.join(parts)`, the partner of `split(sep)`: `JoinSplit` and `SplitJoin` prove each undoes the other |
| Text.Words | automation_framework/tests/test_question_three.py:202 | `str.split()`: the maximal runs of non-blanks in order; `WordsAreWords` and `WordsUnwords` prove the tokens blank-free and the inverse of the single-space join |
| Text.TrimEndChar | automation_framework/tests/test_question_three.py:111 | `rstrip(c)`: the input less every trailing `c`, as `TrimEndCharShape` proves |
| Text.Strip | automation_framework/tests/test_question_three.py:111-112 | `strip()`: the input less its leading and trailing blanks; `TrimStartShape` and `TrimEndShape` prove what each half drops, and `StripShape` that no blank is left at either end |
| Text.WordLength | automation_framework/tests/test_question_three.py:202 | The length of the leading run of non-blanks is at most the string's length |
| Text.WordLengthShape | automation_framework/tests/test_question_three.py:202 | That leading run is non-blank and is followed by a blank or the end |
| Text.WordsAreWords | automation_framework/tests/test_question_three.py:202 | Every token of `split()` is non-empty and blank-free |
| Text.UnwordsCons | automation_framework/tests/test_question_three.py:202 | Joining tokens with single spaces puts one space between the first token and the rest |
| Text.WordLengthOfWord | automation_framework/tests/test_question_three.py:202 | The leading run of a word followed by a space is the whole word |
| Text.WordsUnwords | automation_framework/tests/test_question_three.py:202 | `split()` of tokens joined by single spaces gives back the tokens |
| Text.TrimStartShape | automation_framework/tests/test_question_three.py:111-112 | `lstrip()` keeps a suffix, drops only blanks, and leaves no leading blank |
| Text.TrimEndCharShape | automation_framework/tests/test_question_three.py:111 | `rstrip(c)` only drops trailing copies of `c`, keeps a prefix, and leaves no trailing `c` |
| Text.TrimEndShape | automation_framework/tests/test_question_three.py:111-112 | `rstrip()` keeps a prefix, drops only blanks, and leaves no trailing blank |
| Text.StripShape | automation_framework/tests/test_question_three.py:111-112 | `strip()` leaves no blank at either end |
| WeatherApi.Average | automation_framework/tests/test_question_two.py:47-48 | The average lies between min and max, in either order, and is equidistant from both |
| WeatherApi.AverageExample | automation_framework/tests/test_question_two.py:47-48 | The average of 10 and 20 is 15 |
| WeatherStore.AttributeFor | automation_framework/utilities/db_helpers.py:67-77 | A label maps to a field only when that field's label is the key; otherwise no field has that label |
| WeatherStore.AttributeForLabel | automation_framework/utilities/db_helpers.py:67-75 | Every field's label maps back to that field, so the seven labels are distinct |
| WeatherStore.WithField | automation_framework/utilities/db_helpers.py:79 | `setattr` changes the named scraped field to the value and nothing else |
| WeatherStore.RowsEqual | automation_framework/utilities/db_helpers.py:9-26 | Rows agreeing on their base columns and on all seven scraped fields are equal |
| WeatherStore.FirstRow | automation_framework/utilities/db_helpers.py:84 | `.first()`: none exactly when nothing matches, otherwise a matching row of the table |
| WeatherStore.NewId | automation_framework/utilities/db_helpers.py:12 | A new row's id exceeds every existing id |
| WeatherStore.NewIdIsLargestPlusOne | automation_framework/utilities/db_helpers.py:12 | The new id is 1 for an empty table and otherwise one more than some existing id, so one more than the largest |
| WeatherStore.Upserted | automation_framework/utilities/db_helpers.py:35-49 | The table after `insert_or_update_weather_data`: the first row with the city id updated, or a new row appended; `UpsertThenGet`, `UpsertExisting`, `UpsertNew` and the other upsert lemmas prove its effect |
| WeatherStore.UpsertAll | automation_framework/utilities/db_helpers.py:35-49 | The table after a series of upserts, in order; `UpsertAllThenGet` proves what a lookup then finds |
| WeatherStore.UpsertAllAppend | automation_framework/utilities/db_helpers.py:35-49 | One more reading at the end of a series is one more upsert on the table the series left |
| WeatherStore.UpsertAllKeepsUniqueCityIds | automation_framework/utilities/db_helpers.py:35-49 | A series of upserts keeps at most one row per `city_id` |
| WeatherStore.ExtendedMerged | automation_framework/utilities/db_helpers.py:51-64 | The table after `insert_extended_data`: the first row with the city id merged with the data, unless there is none or the data is empty; `ExtendedMergedEffect` proves its effect |
| WeatherStore.Merged | automation_framework/utilities/db_helpers.py:76-81 | Each known label's value replaces its field; every other field and every base column is kept |
| WeatherStore.UpsertThenGet | automation_framework/utilities/db_helpers.py:35-49 | After the upsert, the lookup by `city_id` finds a row holding exactly the values written |
| WeatherStore.UpsertExisting | automation_framework/utilities/db_helpers.py:36-43 | With a match, no row is added, only the first match changes, and its id, `city_id` and scraped fields are kept |
| WeatherStore.UpsertNew | automation_framework/utilities/db_helpers.py:44-48 | Without a match, one row is appended with the values, a fresh id and seven null scraped fields |
| WeatherStore.UpsertLeavesOtherCities | automation_framework/utilities/db_helpers.py:35-49 | Rows with other city ids are untouched, at most one row is added, and the city ids gain exactly `city_id` |
| WeatherStore.UpsertKeepsUniqueCityIds | automation_framework/utilities/db_helpers.py:35-49 | The upsert keeps at most one row per `city_id` |
| WeatherStore.UpsertKeepsDistinctIds | automation_framework/utilities/db_helpers.py:45-47 | The upsert keeps the primary keys distinct |
| WeatherStore.UpsertKeepsIncreasingIds | automation_framework/utilities/db_helpers.py:35-49 | The upsert keeps the rows in rowid order: an update keeps every id, and an appended row's id exceeds them all |
| WeatherStore.UpsertTwice | automation_framework/utilities/db_helpers.py:35-49 | Two upserts of one city id leave what the second alone would leave |
| WeatherStore.UpsertKeepsOtherLookups | automation_framework/utilities/db_helpers.py:35-49 | An upsert does not change what a lookup of another city id finds |
| WeatherStore.UpsertAllThenGet | automation_framework/tests/test_question_two.py:74-82 | After a series of upserts, a reading whose city id no later reading shares is what the lookup finds |
| WeatherStore.MergedIgnoresUnknownLabels | automation_framework/utilities/db_helpers.py:77-81 | Unknown labels change nothing, and an empty mapping leaves the row as it was |
| WeatherStore.ExtendedMergedEffect | automation_framework/utilities/db_helpers.py:51-64 | No matching row or empty data leaves the table unchanged; otherwise only the first match's scraped fields change, each to its label's value, and every other row, including later rows with the same city id, is unchanged |
| WeatherStore.ExtendedMergedKeepsInvariants | automation_framework/utilities/db_helpers.py:51-81 | The merge keeps distinct ids, rowid order, one row per city id, and the set of city ids |
| WeatherStore.DatabaseHelper.constructor | automation_framework/utilities/db_helpers.py:30-33 | The helper opens over an existing table read in rowid order |
| WeatherStore.DatabaseHelper.InsertOrUpdateWeatherData | automation_framework/utilities/db_helpers.py:35-49 | The new table is the upsert of the old one, ids stay distinct, and one row per city id stays one row per city id |
| WeatherStore.DatabaseHelper.InsertExtendedData | automation_framework/utilities/db_helpers.py:51-64 | The new table is the extended merge of the old one, including both early returns, and one row per city id stays one row per city id |
| WeatherStore.DatabaseHelper.UpdateExistingData | automation_framework/utilities/db_helpers.py:66-81 | The loop over the mapping's entries replaces the row with its merge and touches no other row |
| WeatherStore.DatabaseHelper.GetByCityId | automation_framework/utilities/db_helpers.py:83-84 | None exactly when no row has the city id; otherwise the first row with that city id, which in rowid order is the matching row with the smallest id |
| WeatherStore.DatabaseHelper.GetByCityName | automation_framework/utilities/db_helpers.py:86-87 | None exactly when no row has the city name; otherwise the first row with that name, which in rowid order is the matching row with the smallest id |
| ApiHelpers.WeatherUrl | automation_framework/utilities/api_helpers.py:25 | The URL starts with the base URL followed by `?q=`, and its length is the parts' lengths plus ten |
| ApiHelpers.QueryOfWeatherUrl | automation_framework/utilities/api_helpers.py:25 | A city without `&` and the key are read back exactly from the URL |
| ApiHelpers.SlashTestIsRedundant | automation_framework/utilities/api_helpers.py:44-51 | The three filters together equal "starts with `/weather/` and has no `@`" |
| ApiHelpers.SplitHeadKeepsPrefix | automation_framework/utilities/api_helpers.py:53 | A tab-free prefix of a line survives in its first tab field |
| ApiHelpers.GetTest | automation_framework/utilities/api_helpers.py:41-56 | None exactly when no line is usable; otherwise the first tab field of the first usable line, starting with `/weather/` and free of `@` and tabs |
| ApiHelpers.FindRootDirectory | automation_framework/utilities/api_helpers.py:14-22 | The nearest ancestor-or-self, above `/`, that has the marker child; the error exactly when no such directory exists |
| QuestionThree.ExtractTemperatureData | automation_framework/tests/test_question_three.py:83-88 | The four `main` readings, each absent when its key is; `ProcessedRecordSpec` states what follows from them |
| QuestionThree.ProcessedRecord | automation_framework/tests/test_question_three.py:55-81 | The record `process_city_data` returns, or none when it skips the city; `ProcessedRecordSpec` characterises it |
| QuestionThree.ProcessedRecordSpec | automation_framework/tests/test_question_three.py:55-91 | The payload yields a record exactly when the id and all four temperatures are present, carrying those values and their average |
| QuestionThree.ZeroIsPresent | automation_framework/tests/test_question_three.py:56-65 | Zero readings count as present |
| QuestionThree.ProcessCityData | automation_framework/tests/test_question_three.py:55-81 | A skipped payload leaves the table unchanged; a complete one is upserted once with the record's values |
| QuestionThree.FetchAndProcessCityData | automation_framework/tests/test_question_three.py:43-53 | A non-200 status fails and writes nothing; a 200 status stores or skips the payload as validated |
| QuestionThree.FetchRandomCity | automation_framework/tests/test_question_three.py:34-38 | The result is a member of the list, and none exactly when the list is absent or empty |
| QuestionThree.PoolUpTo | automation_framework/tests/test_question_three.py:169-178 | The names some attempt before attempt `m` could store: listed then, non-empty, answered with 200 and a complete payload |
| QuestionThree.PoolHas | automation_framework/tests/test_question_three.py:169-178 | A name storable at an attempt before `m` is in the pool up to `m` |
| QuestionThree.StoredReadings | automation_framework/tests/test_question_three.py:175-178 | The upserts a history of stored records makes, in order |
| QuestionThree.Keyed | automation_framework/tests/test_question_three.py:178 | `api_data` after `api_data[city_name] = success` for each stored record in order |
| QuestionThree.KeyedKeys | automation_framework/tests/test_question_three.py:178 | A name is a key of `api_data` exactly when some stored record has it |
| QuestionThree.KeyedLastWins | automation_framework/tests/test_question_three.py:178 | A name's value is the last record stored under it |
| QuestionThree.StoredReadingsAppend | automation_framework/tests/test_question_three.py:175-178 | Storing one more record adds its upsert at the end |
| QuestionThree.KeyedAppend | automation_framework/tests/test_question_three.py:178 | Storing one more record sets its name's entry |
| QuestionThree.KeyedIdsStored | automation_framework/tests/test_question_three.py:175-178 | Every city id in `api_data` has a row in the table the stored upserts leave |
| QuestionThree.StoredInPool | automation_framework/tests/test_question_three.py:169-181 | `api_data` has at most as many names as the pool of storable names |
| QuestionThree.PicksFromEach | automation_framework/tests/test_question_three.py:171 | Every attempt's pick came from that attempt's city list, and none exactly when the list was absent or empty |
| QuestionThree.Outcome | automation_framework/tests/test_question_three.py:171-178 | The record an attempt with a given pick stores: one exactly when the name is non-empty, answered with 200 and complete, holding that answer's record |
| QuestionThree.History | automation_framework/tests/test_question_three.py:169-178 | The records a sequence of picks stores, in attempt order |
| QuestionThree.When | automation_framework/tests/test_question_three.py:169-178 | The attempts at which those records are stored |
| QuestionThree.HistoryAppend | automation_framework/tests/test_question_three.py:171-178 | One more attempt adds its outcome, if any, at the end of the history |
| QuestionThree.HistoryIsStoredAt | automation_framework/tests/test_question_three.py:169-178 | Each record of the history was storable at the attempt that stored it, and those attempts strictly increase |
| QuestionThree.Attempt | automation_framework/tests/test_question_three.py:170-178 | The pick comes from the attempt's list, none exactly when it is absent or empty; the attempt stores exactly that pick's outcome and upserts it, and leaves the table otherwise |
| QuestionThree.RunAttempts | automation_framework/tests/test_question_three.py:165-179 | The loop: at most n + 5 attempts and n names, every attempt used when fewer, and the last attempt made while fewer than n names were stored; each pick comes from its attempt's list; the stored history is exactly what the picks store, `api_data` is that history keyed by name with the last record winning, and the table is the history's upserts on the old table |
| QuestionThree.LoopOutcomeFacts | automation_framework/tests/test_question_three.py:169-181 | From the loop's outcome: each record was storable at its own attempt, every name's city id has a row, fewer storable names than n leave fewer than n names, and one row per city id is kept |
| QuestionThree.SureCityIsStored | automation_framework/tests/test_question_three.py:169-178 | When every attempt lists only `c` and `c` is always storable, any run of attempts stores `c` and nothing else |
| QuestionThree.SureCityPasses | automation_framework/tests/test_question_three.py:164-181 | In that case the loop for one city ends with `c` stored, so the test passes |
| QuestionThree.TestCaseOne | automation_framework/tests/test_question_three.py:164-181 | The loop's whole outcome as above, which fixes `api_data` and the table from the picks; it passes exactly with n names; each record was storable at its own attempt; every name's city id has a row; it fails whenever fewer than n names were storable over the n + 5 attempts; one row per city id is kept |
| QuestionThree.ExtractTableData | automation_framework/tests/test_question_three.py:101-117 | The loop builds the table that the fold over the rows defines |
| QuestionThree.KeyOf | automation_framework/tests/test_question_three.py:111 | A row's key: the key cell stripped, less trailing colons; `TableOfShape` states its shape |
| QuestionThree.ValueOf | automation_framework/tests/test_question_three.py:112 | A row's value: the value cell stripped; `TableOfShape` states its shape |
| QuestionThree.TableOf | automation_framework/tests/test_question_three.py:106-115 | The dictionary the rows build in order; `TableOfKeys` and `TableOfLastWins` characterise it |
| QuestionThree.TableOfKeys | automation_framework/tests/test_question_three.py:106-115 | A key is in the table exactly when some row with both cells yields it |
| QuestionThree.TableOfLastWins | automation_framework/tests/test_question_three.py:113 | Each key's value comes from the last row yielding that key |
| QuestionThree.TableOfShape | automation_framework/tests/test_question_three.py:111-112 | Keys have no leading blank and no trailing colon; values have no blank at either end |
| QuestionThree.ExtractCityName | automation_framework/tests/test_question_three.py:201-207 | The name after the first `in` less one trailing comma, or the `ValueError`/`IndexError` the code raises; the three lemmas below characterise it |
| QuestionThree.ExtractCityNameFound | automation_framework/tests/test_question_three.py:202-204 | A name is found exactly when some `in` token is not the last token; otherwise it ends in an error |
| QuestionThree.ExtractCityNameValue | automation_framework/tests/test_question_three.py:201-207 | The name is the token after the first `in`, less one trailing comma |
| QuestionThree.ExtractCityNameBlankFree | automation_framework/tests/test_question_three.py:202-207 | The name holds no whitespace |
| QuestionThree.ExtractCityNameExample | automation_framework/tests/test_question_three.py:201-207 | "Weather in London, United Kingdom" yields "London" |
| QuestionThree.HeadingWords | automation_framework/tests/test_question_three.py:202 | The London heading splits into its five tokens |
| QuestionThree.HeadingUnwords | automation_framework/tests/test_question_three.py:202 | Those five tokens joined by single spaces are the London heading |
| QuestionThree.TestCaseTwo | automation_framework/tests/test_question_three.py:184-199 | Each exit exactly: the `AttributeError` when no completion line is usable, the `KeyError` without `Location`, `extract_city_name`'s error, the merge into the named row when it is stored, and otherwise the missing-data path with its `IndexError` for a blank location; only the merge changes the table |
| QuestionThree.ByNameThenById | automation_framework/tests/test_question_three.py:194-212 | With one row per city id, the row the merge updates is the row the name lookup found |
| QuestionTwo.ExtractWeatherData | automation_framework/tests/test_question_two.py:36-44 | The reading `extract_weather_data` takes from a payload, or none when a subscripted key is missing; `ExtractWeatherDataSpec` characterises it |
| QuestionTwo.Fetched | automation_framework/tests/test_question_two.py:14-34 | The entries, upserts and failure of `fetch_data_for_cities` over the city list; the `Fetched*` lemmas and `FailureIsFinal` characterise it |
| QuestionTwo.ExtractWeatherDataSpec | automation_framework/tests/test_question_two.py:36-44 | The payload is read exactly when every subscripted key is present, into the id, name, two temperatures and the average |
| QuestionTwo.FetchedEntries | automation_framework/tests/test_question_two.py:17-30 | Each entry belongs to a listed city answered with 200; its values and its upsert, whose city is the payload's name, come from that city's payload |
| QuestionTwo.FetchedFails | automation_framework/tests/test_question_two.py:17-22 | The run fails exactly when some answered city's payload lacks a key |
| QuestionTwo.FetchedCoversAnswered | automation_framework/tests/test_question_two.py:17-32 | A run that does not fail makes one entry and one upsert per city answered with 200, in order |
| QuestionTwo.FailureIsFinal | automation_framework/tests/test_question_two.py:21 | Once a prefix of the cities has failed, the rest change nothing |
| QuestionTwo.StoredMatchesApiData | automation_framework/tests/test_question_two.py:74-82 | When the upserts' city ids are distinct, each entry's city id finds a row with its values, whatever the table held before |
| QuestionTwo.SharedIdExample | automation_framework/tests/test_question_two.py:74-82 | Two cities sharing a city id leave the earlier entry mismatched |
| QuestionTwo.FetchDataForCities | automation_framework/tests/test_question_two.py:14-34 | The table ends as the run's upserts leave it; the result is the run's entries, or an error exactly when the run failed |
| QuestionTwo.GetHighestAverageTemp | automation_framework/tests/test_question_two.py:84-91 | None exactly for no entries; otherwise the city of an entry with the greatest average, and no earlier entry ties it |
| QuestionTwo.CheckStored | automation_framework/tests/test_question_two.py:74-82 | True exactly when every entry's city id finds a row with its values |
| QuestionTwo.TestCaseOne | automation_framework/tests/test_question_two.py:67-82 | It passes exactly when the fetch does not fail and every entry is stored as fetched; distinct city ids guarantee that |

## Left out

- HTTP requests are not modelled. `get_current_weather`, `get_cities` and the completion request become their responses, passed in as values. The completion URL built on line 38 of `utilities/api_helpers.py` is not modelled.
- `ConfigParser` loading of `base_url` and `api_key` is external configuration. The two values are parameters of `ApiHelpers.WeatherUrl`.
- The SQLAlchemy engine, session, `commit`, `create_all` and `DatabaseConfig` are not modelled. Only the row sequence they persist is. The case where SQLite picks a new rowid because the largest id is already at its maximum is not modelled.
- The Playwright session in `_scrape_weather_data` is not modelled, nor the lower-casing of the city path in `scrape_weather_data_for_city`. The scraped table rows and the first heading are inputs.
- `random.choice` is a nondeterministic pick from the list, not a distribution.
- `print` logging is not modelled. That includes `handle_missing_data`, whose only other effect is the `split()[0]` `IndexError`, which `QuestionThree.TestCaseTwo` models.
- pytest fixtures and `pytest.approx` are not modelled: temperatures are exact reals. The `float('-inf')` sentinel is an absent `Option`.
- A JSON `null` is treated like an absent key. In `extract_weather_data` (`tests/test_question_two.py`) that differs from the source in two ways. A `null` `id`, `name`, `temp` or `feels_like` is read and stored without raising, where the model reports `KeyError`. A `null` `main`, `temp_min` or `temp_max` raises `TypeError`, where the model reports `KeyError`.
- A `main` member that is present but `null` would make `process_city_data` raise `AttributeError`. The model treats it as missing and skips the city.
- `test_question_one.py` is not modelled: it is fixtures and asserts over the same helpers. The delegating wrappers in `tests/test_question_three.py` are not modelled either: `fetch_data_for_cities`, `get_city_hash`, `get_hash`, `get_test`, `get_city_data` and `get_by_city_name`.
- `os.path.abspath` normalisation is not modelled. Directories are lists of path components below `/`.
- WeatherStore.DatabaseHelper.UpdateExistingData: does not fix the order in which the dictionary's entries are visited, because the labels name distinct fields and the result does not depend on the order.
- QuestionTwo.GetHighestAverageTemp: takes the dictionary's items as a sequence in insertion order. The city names are distinct because `CITIES` is.
