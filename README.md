# Traffic data analyser: the statistics core in Dafny

This project models the aggregation engine of the traffic data analyser. The analyser loads one surveyed day of junction records. Each record is a row of strings read by position: 0 junction, 2 time of day, 3 and 4 directions in and out, 5 speed limit, 6 observed speed, 7 weather, 8 vehicle type, 9 electric-hybrid flag. From that day it reports these results:

- counts of vehicles, trucks, electric vehicles, two-wheelers, northbound buses at Elm Avenue/Rabbit Road, vehicles that do not turn, and vehicles at a named junction;
- two rounded percentages and the average number of bikes per hour;
- the number of vehicles over their speed limit;
- the busiest hour at Hanley Highway/Westway;
- the number of distinct hours with rain;
- a 24-hour table of counts for the two junctions, which feeds the histogram.

Modules:

- `Wrappers` (wrappers.dfy): `Option`.
- `IntParse` (int_parse.dfy): Python's `int()` on strings. It strips surrounding ASCII whitespace, accepts an optional sign, then ASCII digits with single underscores allowed between digits. `None` stands for `ValueError`.
- `Records` (records.dfy): the record type and its named field accessors. It also defines the hour key `row[2][:2]`, the filtered count `sum(1 for row in data if ...)` that every statistic is built on, the filtered list, and the `Counter` of hour keys (a multiset).
- `Rounding` (rounding.dfy): `round` of an exact quotient, half to even.
- `Statistics` (statistics.dfy): the statistics functions. `total_over_speed_limit` is a method with a loop, as in the source.
- `Hourly` (hourly.dfy): `process_hourly_data` as a method. It fills a map from hour to a pair of junction counters, and is proved against the table `HourlyTable`.

How the source's crashes are modelled:

- Every function takes records of at least ten fields (the `Record` subset type). Python raises `IndexError` only when a function reads a position the row lacks: `row[9]` in `total_electric_vehicles`; `row[8]` in `total_trucks`, `total_two_wheeled`, `percentage_trucks` and `avg_bikes_per_hour`; `row[7]` in `total_rain_hours`; `row[4]` in `total_no_turns`; `row[0]` or `row[2]` in `total_vehicles_at_junction`, `busiest_hour_hanley` and `process_hourly_data`; `row[5]`/`row[6]` in `total_over_speed_limit`, which catches only `ValueError`; and, only for Elm Avenue/Rabbit Road rows, `row[3]`/`row[8]` in `total_buses_north` and `row[8]` in `percentage_scooters_elm`.
- `percentage_trucks` needs a non-empty day, and `percentage_scooters_elm` needs at least one Elm Avenue/Rabbit Road record; otherwise Python divides by zero.
- `busiest_hour_hanley` needs at least one Hanley Highway/Westway record; otherwise `max` of nothing fails. It also turns every peak hour key into an integer to build its label, so every key whose count equals the peak must parse (`PeakHoursParse`).
- `process_hourly_data` parses every record's hour key, so every key must parse. The key must also be in 0..23 for records it counts, because only those index the table.

Where the program's comments and its code differ, or its behaviour is easy to misread, the model follows the code:

- The doc comment of `total_no_turns` says rows with missing directions are skipped. The code counts every row whose two direction fields are equal, including two empty strings (`NoTurnsCountsBlankDirections`).
- `process_hourly_data` parses the hour key of every record, including records it does not count, so an unparsable key fails there too (`HasUsableHour`).

## Model

| member | source | states |
|---|---|---|
| `Records.Count` | traffic-data-analyser.py:32 | a filtered count is never more than the number of records |
| `Records.CountIsIndexCount` | traffic-data-analyser.py:32 | the filtered sum equals the number of positions holding a matching record |
| `Records.CountComplement` | traffic-data-analyser.py:28-29 | for any filter, the matching and non-matching counts add up to `total_vehicles` |
| `Records.CountMonotonic` | traffic-data-analyser.py:40-41 | a filter that adds conditions never counts more records |
| `Records.CountDisjointUnion` | traffic-data-analyser.py:37-38 | counting under one of two exclusive filters is the sum of their counts |
| `Records.CountZero` | traffic-data-analyser.py:94-96 | a count is zero exactly when no record matches |
| `Records.HourKey` | traffic-data-analyser.py:59 | the hour key is the first two characters of the time of day, or all of it when shorter |
| `Records.HourCounter` | traffic-data-analyser.py:59 | `Counter(...)` of hour keys: its values add up to the number of rows |
| `Records.HourCounterKeys` | traffic-data-analyser.py:59 | a key occurs in the Counter exactly when some row has that hour key |
| `Records.Filter` | traffic-data-analyser.py:88 | the list comprehension keeps exactly the records of the day that match, each as often as the count says and never more often than in the day |
| `Records.FilterConcat` | traffic-data-analyser.py:88 | the kept records stay in the day's order: filtering two runs of records in turn gives the two filtered runs one after the other |
| `Records.HourCounterCounts` | traffic-data-analyser.py:88-89 | the `Counter` of hour keys over filtered rows holds, for each key, the count of matching records at that hour |
| `Records.HourCounterTotal` | traffic-data-analyser.py:59-60 | the `Counter`'s values add up to the number of filtered rows |
| `Rounding.RoundHalfEven` | traffic-data-analyser.py:53 | the result is within 1/2 of the exact quotient, and an exact tie goes to the even integer |
| `Rounding.Percentage` | traffic-data-analyser.py:53 | a rounded share of a non-zero whole lies in [0,100] and within 1/2 of 100·part/whole |
| `IntParse.ParseIntRoundTrip` | traffic-data-analyser.py:70-71 | `int(str(n)) == n` for every integer |
| `IntParse.ParseIntIgnoresSurroundingSpace` | traffic-data-analyser.py:70-71 | whitespace around a numeral does not change what `int` reads |
| `IntParse.ParseIntRejectsForeignChar` | traffic-data-analyser.py:74-76 | a character that is not whitespace, a digit, an underscore or a sign makes `int` fail |
| `IntParse.ParseInt` | traffic-data-analyser.py:70-71 | defined as `int()`: strip ASCII whitespace, drop one optional sign, then digits with single underscores between them, else no value; its contract lives in the three lemmas above |
| `Statistics.TotalTrucks` | traffic-data-analyser.py:31-32 | the truck count is at most `total_vehicles` |
| `Statistics.TotalVehicles` | traffic-data-analyser.py:28-29 | `len(data)` bounds every filtered count of the day |
| `Statistics.TotalElectricVehicles` | traffic-data-analyser.py:34-35 | the electric count is at most `total_vehicles` |
| `Statistics.TotalTwoWheeled` | traffic-data-analyser.py:37-38 | two-wheelers are exactly the bikes plus motorbikes plus scooters |
| `Statistics.TotalBusesNorth` | traffic-data-analyser.py:40-41 | northbound buses at Elm Avenue/Rabbit Road are at most that junction's total |
| `Statistics.TotalNoTurns` | traffic-data-analyser.py:43-48 | the no-turn count is at most `total_vehicles` |
| `Statistics.NoTurnsCountsBlankDirections` | traffic-data-analyser.py:43-48 | rows whose two directions are both empty are among those counted as not turning |
| `Statistics.TotalVehiclesAtJunction` | traffic-data-analyser.py:79-80 | a junction's count is at most `total_vehicles` |
| `Statistics.PercentageTrucks` | traffic-data-analyser.py:50-53 | on a non-empty day the result lies in [0,100] and within 1/2 of 100·trucks/total |
| `Statistics.AvgBikesPerHour` | traffic-data-analyser.py:55-61 | the result is within 1/2 of bikes/24, and an exact half goes to the even integer, as `round` does; the divisor is always 24, not the number of hours with data |
| `Statistics.BikeHours` | traffic-data-analyser.py:59 | defined as the `Counter` of hour keys of the bike records; `Records.HourCounterTotal` gives its size, the bike count |
| `Statistics.TotalOverSpeedLimit` | traffic-data-analyser.py:63-77 | the loop counts exactly the records whose limit and speed both parse and whose speed is above the limit; the count is at most the number of records |
| `Statistics.OverSpeedNeedsParsedSpeeds` | traffic-data-analyser.py:69-76 | records whose speed fields do not both parse are never counted |
| `Statistics.ThirtyFiveInThirtyIsOver` | traffic-data-analyser.py:70-73 | limit "30" and speed "35" is counted |
| `Statistics.NonNumericLimitIsSkipped` | traffic-data-analyser.py:74-76 | limit "abc" is skipped, not counted |
| `Statistics.PercentageScootersElm` | traffic-data-analyser.py:82-85 | with at least one Elm Avenue/Rabbit Road record, the result lies in [0,100] and within 1/2 of 100·scooters/junction total |
| `Statistics.MaxCount` | traffic-data-analyser.py:90 | the maximum bounds every key's count and is reached by one key when there are keys |
| `Statistics.PeakIsReached` | traffic-data-analyser.py:90-91 | the maximum over the keys bounds every hour's count, and some hour reaches it |
| `Statistics.HanleyCounterCounts` | traffic-data-analyser.py:88-89 | the Hanley `Counter` holds each hour's Hanley Highway/Westway record count |
| `Statistics.PeakHoursParse` | traffic-data-analyser.py:91 | defined as: every Hanley Highway/Westway hour key whose count equals the peak reads as an integer, the condition under which `int(hour)` does not raise |
| `Statistics.BusiestHourHanley` | traffic-data-analyser.py:87-92 | the peak is at most the junction's record count, and every returned hour key parses and is the hour of some Hanley Highway/Westway record |
| `Statistics.BusiestHourHanleyCorrect` | traffic-data-analyser.py:87-92 | the peak is positive and at least every hour's count; the returned hours are exactly those whose count equals the peak, ties included, and there is at least one |
| `Statistics.TotalRainHours` | traffic-data-analyser.py:94-96 | the distinct rain hours are at most the rain records, and none exactly when there are no rain records |
| `Statistics.RainHours` | traffic-data-analyser.py:95 | a key is in the set exactly when some rain record has that hour key |
| `Statistics.DistinctKeysBound` | traffic-data-analyser.py:95-96 | a set built from a sequence has at most its length, and is empty only for the empty sequence |
| `Statistics.ExampleDayCounts` | traffic-data-analyser.py:31-53 | on a three-record example: 2 trucks, 2 records not turning, 67 per cent trucks |
| `Hourly.ProcessHourlyData` | traffic-data-analyser.py:150-163 | the result has exactly the keys 0..23, and each entry holds the two junctions' counts at that hour (`HourlyTable`) |
| `Hourly.HourlyTable` | traffic-data-analyser.py:155-162 | defined as the table the loop must build: keys 0 to 23, each holding the number of records counted for Elm Avenue and for Hanley Highway at that hour; the loop is proved equal to it |
| `Hourly.Hour` | traffic-data-analyser.py:157 | defined as `int(record[2][:2])`: `ParseInt` of the hour key, no value where `int()` raises `ValueError` |
| `Hourly.HasUsableHour` | traffic-data-analyser.py:157-162 | defined as the condition under which the loop body raises nothing: the hour key parses (no `ValueError`), and for a record it counts the hour is 0 to 23 (no `KeyError`) |
| `Hourly.Range` | traffic-data-analyser.py:155 | `range(24)` as a set: it holds exactly the integers from 0 to n-1 |
| `Hourly.Contains` | traffic-data-analyser.py:159-161 | defined as Python's substring test `sub in s`: `sub` occurs in `s` at some position |
| `Hourly.HourlyTableOfNoRecords` | traffic-data-analyser.py:155 | before any record, every hour 0..23 holds (0, 0) |
| `Hourly.HourlyTableAppend` | traffic-data-analyser.py:159-162 | one more record increments its own hour, for Elm Avenue if the junction contains that name, otherwise for Hanley Highway if it contains that one |
| `Hourly.HourIsKey` | traffic-data-analyser.py:157-162 | a record that is counted has an hour that is a key of the table |
| `Hourly.HourlyGrandTotal` | traffic-data-analyser.py:156-162 | the table's grand total equals the number of records whose junction contains either name |
| `Hourly.AtMostOneIncrementPerRecord` | traffic-data-analyser.py:159-162 | a record increments at most one counter |
| `Hourly.ElmTakesPrecedence` | traffic-data-analyser.py:159-162 | a junction containing both names counts for Elm Avenue only (the `elif`) |
| `Hourly.SurveyedJunctionsAreMatched` | traffic-data-analyser.py:159-161 | every record at exactly Elm Avenue/Rabbit Road or Hanley Highway/Westway is counted for its own junction |
| `Hourly.SubstringNotEquality` | traffic-data-analyser.py:159 | a junction merely containing "Elm Avenue" counts, though it is not the surveyed name |
| `Hourly.HourExamples` | traffic-data-analyser.py:157 | "08:15:00" falls in hour 8 and "23:59:59" in hour 23 |

## Left out

- `read_csv_file` (traffic-data-analyser.py:8-23): file I/O and the CSV library's parser. The model starts from a day already loaded as a sequence of records.
- `save_results_to_file` (traffic-data-analyser.py:166-169): appending lines to a text file.
- `plot_histogram` (traffic-data-analyser.py:101-148): drawing calls into a graphics library and a blocking wait for a mouse click. The table it draws is modelled (`Hourly.ProcessHourlyData`).
- `main` (traffic-data-analyser.py:173-261): interactive prompts, formatting of the result lines, and the recursive restart.
- `Statistics.PercentageTrucks`: stated as within 1/2 of the exact value. The source rounds a binary float, which may resolve an exact tie differently from `Rounding.RoundHalfEven` on the exact rational.
- `Statistics.PercentageScootersElm`: stated as within 1/2 of the exact value, for the same reason.
- `Statistics.BusiestHourHanleyCorrect`: the peak hours are a set of hour keys. It does not model the order of the returned list or the text of the "Between H:00 and H+1:00" labels; it only demands, through `Statistics.PeakHoursParse`, that the `int(hour)` those labels need succeeds on every peak key.
- `IntParse.ParseIntRoundTrip`: `int()` is modelled with ASCII whitespace and ASCII digits only. Python also accepts other Unicode whitespace and Unicode decimal digits, which the model rejects. Python's limit on the number of digits `int()` and `str()` convert (`sys.int_max_str_digits`, 4300 by default) is not modelled: the round trip is proved for integers of any length.
- Records with fewer than ten fields are excluded by the record type for every function; where Python fails on them is listed above. Days with shorter rows that the source does handle are outside the model: `total_vehicles` reads no field; `total_vehicles_at_junction`, `busiest_hour_hanley` and `process_hourly_data` read only `row[0]` and `row[2]`; `total_no_turns` reads up to `row[4]`; and `total_buses_north` and `percentage_scooters_elm` read past `row[0]` only for Elm Avenue/Rabbit Road rows.
- The nested dictionary `{"Elm Avenue": n, "Hanley Highway": m}` is modelled as the datatype `Hourly.Tally`, with one field per key.
