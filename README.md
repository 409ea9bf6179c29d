# GcpvWatcher race pipeline in Dafny

GcpvWatcher watches speed-skating race exports and keeps a FinishLynx race-list file (`Lynx.evt`)
up to date. This project models and proves the pipeline behind that file:

- **Race numbers.** The race-number comparer orders digit-then-letter race numbers. It compares
  the integer prefix first, then the letter (`race_number_comparer.dfy`).
- **Line filters.** Two filters run on the providers' lines. Event files drop blank and comment
  lines; exports drop only blank lines (`line_filters.dfy`).
- **Export parser.** The GCPV export parser finds each field by a label cell plus an offset. It
  strips suffix stop words, then groups the rows by race number and sorts each race's entries
  stably by lane (`gcpv_export_parser.dfy`, `sorting.dfy`, `gcpv_models.dfy`).
- **Race-list parser.** The EVT race-list parser reads race-info lines and the racer lines
  below them, and fails hard on malformed lines (`evt_parser.dfy`).
- **Laps and conversion.** The lap calculator searches a distance priority list, chooses a
  100 m or 111 m track and rounds to tenths. The converter turns export races into `Race`
  values and skips what cannot be converted (`lap_calculator.dfy`, `race_data_converter.dfy`).
- **Race store.** The EVT file manager is a class holding the races of every source file. Each
  update produces added / updated / unchanged / removed counts, and the store writes all races,
  sorted, as race-list text (`evt_file_manager.dfy`, `evt_writer.dfy`,
  `race_processing_stats.dfy`). `evt_round_trip.dfy` proves that text written for races with
  plain titles parses back to the sorted races.
- **Roster and value types.** The PPL roster parser builds a last-wins map from racer id to
  `Racer`. The `Race` and `Racer` value types come with their text forms (`ppl_parser.dfy`,
  `race.dfy`, `racer.dfy`).

Shared helpers live in `text.dfy` (white space, trimming, splitting and joining),
`numbers.dfy` (digits, `int.TryParse`, `decimal.TryParse`, `decimal.ToString`) and
`wrappers.dfy` (`Option`, `Result`).

How the model is built:

- A thrown exception is an `Err` result and `null` is `None`.
- CSV tokenising is a function parameter (`Tokenizer`, `RecordReader`).
- A `decimal` is `Decimal(units, scale)`. Its value is `units / 10^scale`, and the scale is kept
  the way `System.Decimal` keeps it.
- Laps from the calculator are whole tenths.
- Loops in the source are methods. Each is proved equal to the function that states what it
  computes, and the properties are proved about that function.

## Model

| member | source | states |
|---|---|---|
| RaceNumberComparer.ParseRaceNumber | GcpvWatcher.App/Comparers/RaceNumberComparer.cs:26-36 | Succeeds only on text matching `^(\d+)([A-Z])$` (a final newline is let through, as .NET's `$` allows); the number is a non-negative 32-bit int and the letter is the last character; matching text fails only when the digits overflow `int.Parse` |
| RaceNumberComparer.ParseRaceNumberOfText | GcpvWatcher.App/Comparers/RaceNumberComparer.cs:26-36 | The decimal text of any non-negative int32 followed by an uppercase letter parses back to that number and letter |
| RaceNumberComparer.Compare | GcpvWatcher.App/Comparers/RaceNumberComparer.cs:8-24 | Two nulls compare 0, a null first gives -1, a null second gives 1; two races compare without error iff both numbers are valid, and the sign is that of (number, then letter ordinal) |
| RaceNumberComparer.CompareZeroIff | GcpvWatcher.App/Comparers/RaceNumberComparer.cs:14-23 | Two races compare 0 exactly when their parsed numbers and letters are equal; titles, laps and racers play no part |
| RaceNumberComparer.LeadingZeroTies | GcpvWatcher.App/Comparers/RaceNumberComparer.cs:18-23 | "021A" and "21A" tie, even with different titles and laps |
| RaceNumberComparer.CompareAntisymmetric | GcpvWatcher.App/Comparers/RaceNumberComparer.cs:18-23 | Swapping the arguments negates the sign of the comparison |
| RaceNumberComparer.CompareTransitive | GcpvWatcher.App/Comparers/RaceNumberComparer.cs:18-23 | x <= y and y <= z give x <= z: the comparer is a total preorder on valid numbers |
| RaceNumberComparer.OrderByComparer | GcpvWatcher.App/Services/EvtFileManager.cs:146-149 | `OrderBy` with the comparer fails exactly when there are at least two races and one has an invalid number (one race is never compared) |
| RaceNumberComparer.OrderByComparerSorted | GcpvWatcher.App/Services/EvtFileManager.cs:146-149 | The sorted list is a permutation of the input, and every earlier race compares <= every later one |
| RaceNumberComparer.OrderByComparerStable | GcpvWatcher.App/Services/EvtFileManager.cs:146-149 | Races whose numbers parse to the same number and letter keep their input order (`OrderBy` is stable) |
| RaceNumberComparer.OrderByComparerIdempotent | GcpvWatcher.App/Services/EvtFileManager.cs:172 | Sorting an already sorted list gives it back unchanged |
| RaceNumberComparer.OrderByComparerExample | GcpvWatcher.Tests/Comparers/RaceNumberComparerTests.cs:54-75 | 100A, 3B, 3A, 22A, 10A sort to 3A, 3B, 10A, 22A, 100A |
| LapCalculator.CalculateLaps | GcpvWatcher.App/Services/LapCalculator.cs:28-42 | The checks come in the source's order (zero track, then negative distance, then negative track), each with its message; otherwise the tenths are the nearest to 10·distance/track, ties to even, and zero distance gives 0 |
| LapCalculator.RoundedTenths | GcpvWatcher.App/Services/LapCalculator.cs:41 | `Math.Round(d / t, 1)` in tenths: at most half a tenth from the exact quotient, and an exact half rounds to an even tenth |
| LapCalculator.RoundedTenthsNearest | GcpvWatcher.App/Services/LapCalculator.cs:41 | Any tenth count within half a tenth of the quotient (or a tie that is even) is the rounded result, so the rounding is unique |
| LapCalculator.CalculateLapsExamples | GcpvWatcher.App/Services/LapCalculator.cs:41 | 333/100 → 3.3, 335/100 → 3.4, 1/100 → 0.0, 250/100 → 2.5, 1500/111 → 13.5 |
| LapCalculator.TrackLength | GcpvWatcher.App/Services/LapCalculator.cs:14-17 | The track is 111 exactly when the text contains "111m" in any letter case, otherwise 100 |
| LapCalculator.FirstDistanceIn | GcpvWatcher.App/Services/LapCalculator.cs:19-23 | The first entry of the priority list whose decimal digits occur in the text; none when no entry occurs |
| LapCalculator.FindFirstDistance | GcpvWatcher.App/Services/LapCalculator.cs:19-23 | The `foreach` with early return finds the index of that first occurring distance |
| LapCalculator.CalculateLapsFromText | GcpvWatcher.App/Services/LapCalculator.cs:9-26 | Blank text gives 0; otherwise laps come from the first listed distance (5000, 3000, …, 50) found in the text and the track length; no distance found gives 0 |
| LapCalculator.CalculateLapsOfRaceParams | GcpvWatcher.App/Services/LapCalculator.cs:9-26 | The imperative `CalculateLaps(string)` computes `CalculateLapsFromText` |
| LapCalculator.LapsPositiveIffDistanceFound | GcpvWatcher.App/Services/LapCalculator.cs:9-26 | The laps are positive exactly when the text is not blank and names a listed distance (every listed distance is long enough to round above 0) |
| LineFilters.FilterCommentLines | GcpvWatcher.App/Providers/BaseEventDataProvider.cs:7-12 | Keeps exactly the input lines that are neither blank nor start (after leading white space) with ';' or '#', and is never longer than its input |
| LineFilters.IsEventLineFirstCharacter | GcpvWatcher.App/Providers/BaseEventDataProvider.cs:9-11 | A line is kept iff it has a first non-white character and that character is neither ';' nor '#'; later ';' and '#' do not matter |
| LineFilters.WhereAppend | GcpvWatcher.App/Providers/BaseEventDataProvider.cs:9-11 | Filtering distributes over concatenation, so kept lines keep their relative order and content |
| LineFilters.WhereAllKept | GcpvWatcher.App/Providers/BaseGcpvExportDataProvider.cs:9 | Input whose lines all pass is returned unchanged |
| LineFilters.FilterCommentLinesIdempotent | GcpvWatcher.App/Providers/BaseEventDataProvider.cs:9-11 | Filtering twice is filtering once |
| LineFilters.FilterBlankLines | GcpvWatcher.App/Providers/BaseGcpvExportDataProvider.cs:7-10 | Keeps exactly the non-blank input lines and is never longer than its input |
| LineFilters.FilterBlankLinesIdempotent | GcpvWatcher.App/Providers/BaseGcpvExportDataProvider.cs:9 | Filtering twice is filtering once |
| LineFilters.CommentLinesOnlyDroppedFromRaceLists | GcpvWatcher.App/Providers/BaseGcpvExportDataProvider.cs:9 | A line starting with ';' or '#' is dropped by the event filter and kept by the export filter |
| Races.RacersByLane | GcpvWatcher.App/Models/Race.cs:7 | The racer map as (id, lane) pairs: every entry exactly once, nothing else, in ascending lane order |
| Races.RacerTexts | GcpvWatcher.App/Models/Race.cs:7 | One "Racer <id> in Lane <lane>" per pair, in the order given |
| Races.RaceToStringNoRacers | GcpvWatcher.App/Models/Race.cs:7-8 | A race without racers prints "Race <number>: <title> (<laps> laps) - " with nothing after the dash |
| Races.RacersByLaneTwo | GcpvWatcher.App/Models/Race.cs:7 | Racer 12 in lane 1 is listed before racer 7 in lane 3 |
| Racers.EmptyRacer | GcpvWatcher.App/Models/Racer.cs:10-12 | The parameterless constructor gives id 0 and empty names and affiliation |
| Racers.RacerEquals | GcpvWatcher.App/Models/Racer.cs:27-37 | A racer equals another object iff that object is a racer with the same id, last name, first name and affiliation; null is never equal |
| Racers.RacerToStringFields | GcpvWatcher.App/Models/Racer.cs:22-25 | The text "id,last,first,affiliation" splits on ',' back into the four fields when the names hold no comma |
| Racers.EmptyRacerToString | GcpvWatcher.App/Models/Racer.cs:22-25 | The empty racer prints "0,,," |
| Racers.SmithText | GcpvWatcher.App/Models/Racer.cs:22-25 | Racer(100, Smith, John, Toronto) prints "100,Smith,John,Toronto" |
| GcpvExportParser.FindLabel | GcpvWatcher.App/Parsers/GcpvExportParser.cs:126-134 | The index of the first cell equal to the key after trimming, ignoring case; none when no cell is |
| GcpvExportParser.FirstIndex | GcpvWatcher.App/Parsers/GcpvExportParser.cs:126-134 | The search loop with `break` returns that first index, or -1 |
| GcpvExportParser.ValueByKeyOkIff | GcpvWatcher.App/Parsers/GcpvExportParser.cs:118-147 | A field reads exactly when it is configured, its label is present and label index + offset is a cell index; otherwise the parse fails |
| GcpvExportParser.ValueByKeyTrimmed | GcpvWatcher.App/Parsers/GcpvExportParser.cs:149-157 | The value read is trimmed and no longer than its target cell |
| GcpvExportParser.GetValueByKey | GcpvWatcher.App/Parsers/GcpvExportParser.cs:118-158 | The imperative lookup computes `ValueByKey`: configuration check, label search, bounds check, trim, stop words |
| GcpvExportParser.FirstSuffix | GcpvWatcher.App/Parsers/GcpvExportParser.cs:171-179 | The first stop word in the given order that is an exact suffix of the value |
| GcpvExportParser.SortedStopWordsFacts | GcpvWatcher.App/Parsers/GcpvExportParser.cs:166-169 | The sorted stop words are exactly the non-blank ones, longest first |
| GcpvExportParser.RemoveSuffixStopWords | GcpvWatcher.App/Parsers/GcpvExportParser.cs:160-182 | The loop with `break` computes `StripStopWords` |
| GcpvExportParser.StripStopWordsNoMatch | GcpvWatcher.App/Parsers/GcpvExportParser.cs:171-181 | With no non-blank stop word as a suffix, the value is unchanged |
| GcpvExportParser.StripStopWordsLongest | GcpvWatcher.App/Parsers/GcpvExportParser.cs:171-178 | Otherwise one matching stop word of the greatest length is cut off and the rest trimmed; only one is removed |
| GcpvExportParser.StripStopWordsShortens | GcpvWatcher.App/Parsers/GcpvExportParser.cs:173-178 | Stripping never lengthens the value, and a changed value is trimmed |
| GcpvExportParser.ParseRow | GcpvWatcher.App/Parsers/GcpvExportParser.cs:50-76 | The imperative row parse computes `RowData`: blank rows fail, then the seven fields are read in the source's order |
| GcpvExportParser.RowDataOfValues | GcpvWatcher.App/Parsers/GcpvExportParser.cs:59-75 | A non-blank row whose seven fields read gives the row record holding those values |
| GcpvExportParser.RowDataLaidOut | GcpvWatcher.App/Parsers/GcpvExportParser.cs:50-76 | A row laid out as label, value, label, value … parses back to the record it was laid out from |
| GcpvExportParser.ValueByKeyLaidOut | GcpvWatcher.App/Parsers/GcpvExportParser.cs:118-158 | In such a row every field reads its own value |
| GcpvExportParser.RaceNumbersOf | GcpvWatcher.App/Parsers/GcpvExportParser.cs:33-34 | The distinct race numbers of the rows, each once |
| GcpvExportParser.RowsOf | GcpvWatcher.App/Parsers/GcpvExportParser.cs:34 | The rows of one race number: exactly the rows carrying it |
| GcpvExportParser.GroupByRaceNumber | GcpvWatcher.App/Parsers/GcpvExportParser.cs:33-45 | Fails exactly when some row's lane does not parse as an int (`int.Parse`); otherwise gives one race per distinct number |
| GcpvExportParser.GroupedRaceNumbers | GcpvWatcher.App/Parsers/GcpvExportParser.cs:33-36 | The races' numbers are distinct, each occurs in the rows, and every row's number has a race |
| GcpvExportParser.GroupedRaceOrder | GcpvWatcher.App/Parsers/GcpvExportParser.cs:33-36 | Races come in the order of their first row |
| GcpvExportParser.GroupedRaceFirstRow | GcpvWatcher.App/Parsers/GcpvExportParser.cs:35-39 | Track params, race group and stage come from the race's first row |
| GcpvExportParser.GroupedRacers | GcpvWatcher.App/Parsers/GcpvExportParser.cs:40-43 | A race's racers are a permutation of its rows, sorted ascending by integer lane, with equal lanes in input order |
| GcpvExportParser.GroupedRacersCount | GcpvWatcher.App/Parsers/GcpvExportParser.cs:26-45 | Every row lands in exactly one race: the racer total equals the row count |
| GcpvExportParser.GroupByRaceNumberEmpty | GcpvWatcher.App/Parsers/GcpvExportParser.cs:33-45 | No rows give no races |
| GcpvExportParser.RowsDataOk | GcpvWatcher.App/Parsers/GcpvExportParser.cs:26-30 | When all rows parse, each record is its row's parse |
| GcpvExportParser.RowsDataErr | GcpvWatcher.App/Parsers/GcpvExportParser.cs:26-30 | A failure is the failure of the first row that fails, and there is no partial result |
| GcpvExportParser.ParseAsync | GcpvWatcher.App/Parsers/GcpvExportParser.cs:20-48 | The imperative parse computes `ParseExport`: every row parsed in order, then grouped |
| GcpvExportParser.ParseExportEmpty | GcpvWatcher.App/Parsers/GcpvExportParser.cs:20-48 | Empty input gives an empty result |
| GcpvExportParser.ParseExportBlankRow | GcpvWatcher.App/Parsers/GcpvExportParser.cs:52-53 | Any blank row fails the whole parse |
| GcpvExportParser.ParseExportRacersCount | GcpvWatcher.App/Parsers/GcpvExportParser.cs:26-45 | A successful parse holds as many racers as there were rows |
| Sorting.SortByPermutes | GcpvWatcher.App/Parsers/GcpvExportParser.cs:41 | The key sort returns a permutation of its input |
| Sorting.SortBySorted | GcpvWatcher.App/Parsers/GcpvExportParser.cs:41 | The key sort's output is ascending by key |
| Sorting.SortByStable | GcpvWatcher.App/Parsers/GcpvExportParser.cs:41 | Elements with equal keys keep their input order |
| EvtParser.IsRaceInfoLineIff | GcpvWatcher.App/Parsers/EvtParser.cs:47-57 | A line is a race-info line iff it is not blank and, trimmed and with one optional leading quote removed, starts with at least one digit and then an uppercase letter |
| EvtParser.ParseRaceInfoLine | GcpvWatcher.App/Parsers/EvtParser.cs:100-145 | Blank lines fail; on success the race number is the trimmed cell 0 and matches digits plus one uppercase letter, the title is the trimmed cell 3, and the laps are cell 12 read as a decimal |
| EvtParser.ParseRacerLine | GcpvWatcher.App/Parsers/EvtParser.cs:147-191 | Blank lines give no racer; otherwise cells 1 and 2 must read as ints (racer id, lane), else the line fails |
| EvtParser.NextRaceInfo | GcpvWatcher.App/Parsers/EvtParser.cs:81-87 | The index of the next race-info line at or after j, or the end of input |
| EvtParser.ReadRacers | GcpvWatcher.App/Parsers/EvtParser.cs:78-95 | The racer loop with `break` reads exactly the lines up to the next race-info line into the racer map |
| EvtParser.ParseRaceFromLines | GcpvWatcher.App/Parsers/EvtParser.cs:73-98 | The imperative race parse computes `RaceAt`: info line, then its racers |
| EvtParser.ReadRaces | GcpvWatcher.App/Parsers/EvtParser.cs:26-41 | The main loop computes `RacesFrom`: a race at each info line, failure at a potential info line, other lines skipped |
| EvtParser.ParseAsync | GcpvWatcher.App/Parsers/EvtParser.cs:20-45 | The whole parse computes `ParseEvt`: the races read, then sorted with the comparer |
| EvtParser.ParseEvtEmpty | GcpvWatcher.App/Parsers/EvtParser.cs:20-45 | Empty input gives no races |
| EvtParser.ParseEvtSorted | GcpvWatcher.App/Parsers/EvtParser.cs:44 | The result is a permutation of the races read, ordered by the comparer |
| EvtParser.PotentialRaceInfoLineFails | GcpvWatcher.App/Parsers/EvtParser.cs:36-40 | A line that is not a race-info line but splits into 13 or more comma pieces fails the parse |
| EvtParser.BadRaceInfoLineFails | GcpvWatcher.App/Parsers/EvtParser.cs:127-137 | A race-info line whose number or laps do not parse fails the parse |
| EvtParser.BadRacerLineFails | GcpvWatcher.App/Parsers/EvtParser.cs:174-183 | A racer line (below a race-info line) whose id or lane is not an int fails the parse |
| EvtParser.MalformedLineFails | GcpvWatcher.App/Parsers/EvtParser.cs:26-41 | The three failure kinds above fail the parse for any line reader |
| EvtParser.RacerEntriesLastWins | GcpvWatcher.App/Parsers/EvtParser.cs:93 | A racer's lane is the lane on the last line naming that racer; different racers may share a lane |
| EvtParser.RacerEntriesKeys | GcpvWatcher.App/Parsers/EvtParser.cs:90-94 | Every racer in the map is named by some racer line |
| EvtParser.RaceAtFields | GcpvWatcher.App/Parsers/EvtParser.cs:81-97 | A parsed race has a trimmed, valid number and a trimmed title, holds the info line's values, and takes its racers from the lines strictly between its info line and the next one (none gives an empty map) |
| EvtParser.LeadingLinesIgnored | GcpvWatcher.App/Parsers/EvtParser.cs:26-41 | Lines before the first race-info line that are not potential info lines change nothing |
| EvtWriter.InfoCells | GcpvWatcher.App/Services/EvtFileManager.cs:261-282 | The info record has 13 fields: number, "", "", title, eight "", laps |
| EvtWriter.RacerRecords | GcpvWatcher.App/Services/EvtFileManager.cs:284-298 | One ("", id, lane) record per racer pair, in the order given |
| EvtWriter.WriteRacerLines | GcpvWatcher.App/Services/EvtFileManager.cs:284-298 | The loop writes the racers' records in ascending lane order |
| EvtWriter.GenerateEvtContent | GcpvWatcher.App/Services/EvtFileManager.cs:163-182 | The writer loop gives `EvtText`: races sorted by the comparer, info record then racer records (each cell quoted by `QuoteField`), each line terminated, one more terminator at the end |
| EvtWriter.QuoteField | GcpvWatcher.App/Services/EvtFileManager.cs:165-169 | A cell is written as it is exactly when CsvHelper's default rule does not quote it: it is empty, or has no comma, quote, CR or LF and no leading or trailing space |
| EvtWriter.UnquotedRecordLine | GcpvWatcher.App/Services/EvtFileManager.cs:165-169 | A record whose cells need no quoting is those cells joined by commas |
| EvtWriter.QuoteFieldReadsBack | GcpvWatcher.App/Services/EvtFileManager.cs:165-169 | Every cell, whatever it holds, reads back as itself from its written form once the outer quotes are removed and doubled quotes are undoubled |
| EvtWriter.TrailingSpaceQuoted | GcpvWatcher.App/Services/RaceDataConverter.cs:39 | A title ending in a space, as "Group (Params) " with an empty stage, is written between quotes |
| EvtRoundTrip.InfoRecordReads | GcpvWatcher.App/Services/EvtFileManager.cs:261-282 | A written info record of a race with a valid number and a plain title is a race-info line that reads back number, title and laps |
| EvtRoundTrip.RacerRecordReads | GcpvWatcher.App/Services/EvtFileManager.cs:284-298 | A written racer record is neither an info line nor a potential one, and reads back id and lane |
| EvtRoundTrip.WriteThenParse | GcpvWatcher.App/Services/EvtFileManager.cs:163-182 | For races with valid numbers and plain titles, writing fails iff sorting fails, and parsing the written lines (EvtParser) gives the sorted races back |
| Numbers.ParseInt32 | GcpvWatcher.App/Parsers/EvtParser.cs:174 | `int.TryParse`: optional white space and sign around at least one digit; none when malformed or outside 32 bits |
| Numbers.ParseIntToString | GcpvWatcher.App/Parsers/EvtParser.cs:174-185 | An int32 written in decimal reads back as itself |
| Numbers.TrailingSignReads | GcpvWatcher.App/Parsers/EvtParser.cs:134 | `decimal.TryParse` (NumberStyles.Number) reads a sign after the number as the same sign before it, so "3.5-" is -3.5 |
| Numbers.ParseFormatDecimal | GcpvWatcher.App/Services/EvtFileManager.cs:277 | Every decimal written with `ToString()` reads back with the same value and scale |
| Numbers.TenthsToDecimal | GcpvWatcher.App/Services/RaceDataConverter.cs:66 | The `(decimal)` cast of a tenths count: the same value, with at most one fraction digit and no trailing zero |
| Numbers.NatToString | GcpvWatcher.App/Services/LapCalculator.cs:20 | `distance.ToString()`: digits only, no leading zero, value n |
| Text.Contains | GcpvWatcher.App/Services/LapCalculator.cs:20 | True iff the pattern occurs at some index of the text |
| Text.TrimEmptyIffBlank | GcpvWatcher.App/Parsers/EvtParser.cs:49 | Trimming gives "" exactly when `string.IsNullOrWhiteSpace` holds (empty or white space only) |
| RaceDataConverter.TryParseRacerId | GcpvWatcher.App/Services/RaceDataConverter.cs:69-86 | Fails on blank text, on text without a space and on text starting with a space; a result is an int32 |
| RaceDataConverter.TryParseRacerIdSome | GcpvWatcher.App/Services/RaceDataConverter.cs:78-85 | A result is the trimmed text before the first space read as an int |
| RaceDataConverter.TryParseRacerIdOfText | GcpvWatcher.App/Services/RaceDataConverter.cs:69-86 | "<id> <name>" reads back id |
| RaceDataConverter.ConvertRace | GcpvWatcher.App/Services/RaceDataConverter.cs:28-67 | Converts iff the laps from the track params are positive; the number is copied, the title is "RaceGroup (TrackParams) Stage", the laps equal the calculator's, and the racers are the entries that read |
| RaceDataConverter.ConvertRaceOkIff | GcpvWatcher.App/Services/RaceDataConverter.cs:31-36 | A race converts exactly when its track params are not blank and name a listed distance |
| RaceDataConverter.ReadRacers | GcpvWatcher.App/Services/RaceDataConverter.cs:43-64 | The `for` loop with `continue` computes the racer map of the entries, skipping unreadable lanes or ids |
| RaceDataConverter.ConvertGcpvRaceToRace | GcpvWatcher.App/Services/RaceDataConverter.cs:28-67 | The imperative conversion computes `ConvertRace` |
| RaceDataConverter.RacersOfEntriesKeys | GcpvWatcher.App/Services/RaceDataConverter.cs:45-64 | A racer is in the map iff some readable entry names it |
| RaceDataConverter.RacersOfEntriesLastWins | GcpvWatcher.App/Services/RaceDataConverter.cs:63 | A racer's lane is that of the last readable entry naming it |
| RaceDataConverter.RacersOfEntriesSize | GcpvWatcher.App/Services/RaceDataConverter.cs:43-64 | The map holds at most one racer per entry |
| RaceDataConverter.ConvertGcpvRacesToRaces | GcpvWatcher.App/Services/RaceDataConverter.cs:7-26 | The `foreach` with `catch` computes `ConvertAll`: the races that convert, in input order |
| RaceDataConverter.ConvertAllFaithful | GcpvWatcher.App/Services/RaceDataConverter.cs:11-25 | The output has one race per input race that converts, and each output race is the conversion of some input race |
| RaceDataConverter.ConvertAllAppend | GcpvWatcher.App/Services/RaceDataConverter.cs:11-25 | Conversion distributes over concatenation, so input order is kept and a failure does not stop the rest |
| RaceDataConverter.ConvertAllComplete | GcpvWatcher.App/Services/RaceDataConverter.cs:11-25 | When every race converts, the output is exactly their conversions, position by position |
| RaceDataConverter.ConvertAllNone | GcpvWatcher.App/Services/RaceDataConverter.cs:11-25 | When no race converts, the output is empty |
| PplParser.ParseRacerRowSome | GcpvWatcher.App/Parsers/PplParser.cs:36-88 | A row gives a racer iff it is not blank, reads as one record of at least four cells, the trimmed id reads as an int, and the trimmed names and affiliation are non-empty; the racer holds those trimmed values |
| PplParser.ParsedRacerClean | GcpvWatcher.App/Parsers/PplParser.cs:70-81 | A parsed racer has an int32 id and trimmed, non-empty names and affiliation |
| PplParser.SkippedRows | GcpvWatcher.App/Parsers/PplParser.cs:38-87 | Blank rows, rows that do not read and rows with a non-integer id are skipped, not failed |
| PplParser.BlankNameSkipped | GcpvWatcher.App/Parsers/PplParser.cs:70-79 | A row whose last name, first name or affiliation is empty after trimming is skipped |
| PplParser.ParseAsync | GcpvWatcher.App/Parsers/PplParser.cs:19-34 | The `foreach` loop computes `Roster` |
| PplParser.RosterKeyIsId | GcpvWatcher.App/Parsers/PplParser.cs:29 | Every stored racer is stored under its own id |
| PplParser.RosterKeys | GcpvWatcher.App/Parsers/PplParser.cs:24-31 | An id is stored iff some row parses to a racer with that id |
| PplParser.RosterLastWins | GcpvWatcher.App/Parsers/PplParser.cs:24-31 | An id maps to the racer of the last row carrying it |
| PplParser.RosterSize | GcpvWatcher.App/Parsers/PplParser.cs:24-31 | The roster holds at most one racer per row |
| PplParser.LaterRowWins | GcpvWatcher.App/Parsers/PplParser.cs:24-31 | Two printed rows with the same id give a roster holding only the second racer |
| PplParser.ParseRacerToString | GcpvWatcher.App/Parsers/PplParser.cs:36-88 | A racer's `ToString` text (plain, non-empty fields) parses back to the racer |
| RaceProcessingStats.RaceProcessingStats.constructor | GcpvWatcher.App/Models/RaceProcessingStats.cs:8-16 | A fresh object has all four counts 0 and all four race-number lists empty |
| RaceProcessingStats.RaceProcessingStats.ToString | GcpvWatcher.App/Models/RaceProcessingStats.cs:20-30 | The summary of the four categories in the order added, updated, unchanged, removed, without numbers |
| RaceProcessingStats.RaceProcessingStats.GetDetailedString | GcpvWatcher.App/Models/RaceProcessingStats.cs:32-58 | The same with " (numbers)" after a category whose list is non-empty |
| RaceProcessingStats.PartsOfEmpty | GcpvWatcher.App/Models/RaceProcessingStats.cs:22-29 | No part is listed iff no count is positive |
| RaceProcessingStats.PartsOfPositive | GcpvWatcher.App/Models/RaceProcessingStats.cs:24-27 | Every listed part belongs to a category with a positive count |
| RaceProcessingStats.NoRacesIff | GcpvWatcher.App/Models/RaceProcessingStats.cs:29 | Both summaries are "no races" exactly when no count is positive |
| RaceProcessingStats.DetailedIsPlainWithoutNumbers | GcpvWatcher.App/Models/RaceProcessingStats.cs:32-58 | With all number lists empty the detailed summary equals the plain one |
| RaceProcessingStats.RenderExample | GcpvWatcher.App/Models/RaceProcessingStats.cs:20-30 | 2 added, 0 updated, 1 unchanged, 3 removed prints "2 added, 1 unchanged, 3 removed" |
| RaceProcessingStats.RenderDetailedExample | GcpvWatcher.App/Models/RaceProcessingStats.cs:32-58 | The same with added numbers 1A, 2A prints "2 added (1A, 2A), 1 unchanged, 3 removed" |
| EvtFileManager.AreRacesEqual | GcpvWatcher.App/Services/EvtFileManager.cs:184-200 | True iff number, title, laps (by value) and racer maps (same size and same lane per id) are equal |
| EvtFileManager.AreRacesEqualIsEquivalence | GcpvWatcher.App/Services/EvtFileManager.cs:184-200 | Race equality is reflexive, symmetric and transitive |
| EvtFileManager.SameValueIsEquivalence | GcpvWatcher.App/Services/EvtFileManager.cs:188 | `decimal` equality ignores the scale and is an equivalence |
| EvtFileManager.LastByNumber | GcpvWatcher.App/Services/EvtFileManager.cs:60-65 | Every entry of the number map is stored under its own race number |
| EvtFileManager.LastByNumberKeys | GcpvWatcher.App/Services/EvtFileManager.cs:60-65 | A number is in the map iff some race carries it |
| EvtFileManager.LastByNumberIsLast | GcpvWatcher.App/Services/EvtFileManager.cs:60-65 | A number maps to the last race carrying it |
| EvtFileManager.BuildByNumber | GcpvWatcher.App/Services/EvtFileManager.cs:61-65 | The dictionary-building loop computes `LastByNumber` |
| EvtFileManager.Classify | GcpvWatcher.App/Services/EvtFileManager.cs:88-99 | Added iff the number is not stored; Unchanged iff it is stored with an equal race; Updated otherwise |
| EvtFileManager.CountsAddUp | GcpvWatcher.App/Services/EvtFileManager.cs:86-100 | Added + Updated + Unchanged equals the number of incoming races, duplicates counted each time |
| EvtFileManager.AllUnchangedIff | GcpvWatcher.App/Services/EvtFileManager.cs:86-100 | All incoming races are unchanged iff each is stored under its number with an equal race |
| EvtFileManager.NoneRemovedIff | GcpvWatcher.App/Services/EvtFileManager.cs:103-114 | Nothing is removed iff every earlier race's number is among the incoming numbers |
| EvtFileManager.CountIncoming | GcpvWatcher.App/Services/EvtFileManager.cs:86-100 | The counting loop adds the Added, Updated and Unchanged counts to the counters and changes nothing else |
| EvtFileManager.CountRemoved | GcpvWatcher.App/Services/EvtFileManager.cs:103-114 | The removal loop adds the count of earlier races whose number is gone, and changes nothing else |
| EvtFileManager.ResubmitUnchanged | GcpvWatcher.App/Services/EvtFileManager.cs:86-117 | Resubmitting a source's stored list (unique numbers, held by no other source) counts every race unchanged and none removed |
| EvtFileManager.Seeded | GcpvWatcher.App/Services/EvtFileManager.cs:241-248 | The lazy load adds the read races under "evt_file_races" only to an empty store and only when some were read |
| EvtFileManager.SortedTwice | GcpvWatcher.App/Services/EvtFileManager.cs:146-149 | Writing the sorted races gives the same text as writing the races, though `GenerateEvtContent` sorts again |
| EvtFileManager.EvtFileManager.constructor | GcpvWatcher.App/Services/EvtFileManager.cs:21-31 | A new store holds no races and has written nothing |
| EvtFileManager.EvtFileManager.Store | GcpvWatcher.App/Services/EvtFileManager.cs:117 | The source's bucket becomes the list given; other buckets stay; a new key is enumerated last |
| EvtFileManager.EvtFileManager.Remove | GcpvWatcher.App/Services/EvtFileManager.cs:131-134 | The source's bucket is gone; other buckets stay |
| EvtFileManager.EvtFileManager.LoadExistingRaces | GcpvWatcher.App/Services/EvtFileManager.cs:202-259 | The store becomes `Seeded` with the races read |
| EvtFileManager.EvtFileManager.WriteAllRacesToEvtFile | GcpvWatcher.App/Services/EvtFileManager.cs:140-153 | The races of all buckets, concatenated in enumeration order, sorted and written; fails (writing nothing) iff the sort fails; the buckets are unchanged |
| EvtFileManager.EvtFileManager.CountUpdate | GcpvWatcher.App/Services/EvtFileManager.cs:57-114 | New stats whose counts classify the incoming races against the last stored race per number, and count the source's earlier races whose number is gone; `TotalProcessed` (RaceProcessingStats.cs:18) equals the number of incoming races; the four race-number lists stay empty, so the detailed summary equals the plain one |
| EvtFileManager.EvtFileManager.UpdateRacesFromFile | GcpvWatcher.App/Services/EvtFileManager.cs:33-122 | A blank key fails before any change; otherwise the store is seeded if empty, the source's bucket becomes exactly the incoming list, a new source key is enumerated last, the counts are those above with empty race-number lists, and the written file is the text of all stored races; fails iff the sort fails, and then the file is left as it was |
| EvtFileManager.EvtFileManager.RemoveRacesFromFile | GcpvWatcher.App/Services/EvtFileManager.cs:124-138 | A blank key changes nothing; otherwise the source's bucket and its key are gone, the others stay and the rest is written; when the sort fails the file is left as it was |

## Left out

- CSV reading by CsvHelper (tokenising, unquoting, trimming) is a function parameter: a line's
  cells are whatever the tokenizer returns. The writer's quoting is modelled: `EvtWriter.QuoteField`
  quotes a cell as CsvHelper's default `ShouldQuote` does, and `EvtWriter.QuoteFieldReadsBack`
  shows each quoted cell unquotes to itself. The whole write/read round trip goes through the
  parser's own comma-splitting reader, so it holds only for races whose titles contain no comma,
  quote, line break or surrounding white space, and whose numbers are digits then a letter.
- Culture: `decimal.TryParse`, `decimal.ToString` and `int.TryParse` are modelled for the
  invariant culture (ASCII digits, '.' as the decimal point, no exponents or currency signs).
  The thousands separators that NumberStyles.Number lets `decimal.TryParse` accept are not
  modelled.
- Numbers.ParseDecimal: System.Decimal's range (a 96-bit mantissa) and its largest scale, 28,
  are not modelled. Text with more digits reads as an exact decimal, where .NET rounds the
  extra fraction digits or fails on overflow.
- LapCalculator.CalculateLaps: laps are whole tenths, rounded exactly (half to even) from the
  rational quotient. IEEE `double` division and its representation error are not modelled.
- Unicode: case-insensitive comparison folds ASCII letters only, and the regular expressions'
  `\d` is taken as the ASCII digits. White space is the full `char.IsWhiteSpace` set.
- LineFilters.FilterCommentLines: the source's `StartsWith(";")` and `StartsWith("#")` compare
  by the current culture, which skips ignorable code points such as a leading soft hyphen. The
  model compares the first non-white character ordinally.
- Null inputs: a null race list is the empty list, and null strings are blank strings.
- Logging, the sound service, the UI and FileWatcherService are not part of this model.
- File I/O, the `lock` blocks, the 5-second load timeout and the missing/short-file checks in
  `LoadExistingRacesFromEvtFile` are left out. The races that load reads are a parameter of
  `UpdateRacesFromFile`, and the written file is a ghost field of the store.
- The directory-change branch of `UpdateRacesFromFileAsync` (EvtFileManager.cs:44-49) compares
  two fields that never differ, so it is left out.
- Exception messages are kept only where the source fixes them (LapCalculator, the source-key
  check); elsewhere an error carries a short text.
- `GetHashCode` of `Racer` is not modelled.
- `PplRacerCsvRecord` is not part of this model: the roster row is read as four cells by
  position (id, last name, first name, affiliation).
- Races.RacersByLane: racers in the same lane are listed by ascending id. The source leaves
  that order to the dictionary's enumeration order.
- EvtFileManager.EvtFileManager.Store: dictionary enumeration order is modelled as insertion
  order. New keys go last and removed keys are dropped; .NET's reuse of freed slots after a
  removal is not modelled.
- EvtWriter.GenerateEvtContent: CsvHelper's record terminator and `Environment.NewLine` are
  both the one `newLine` of the store.
- EvtFileManager.EvtFileManager.UpdateRacesFromFile: the set of duplicate race numbers only
  feeds logging and is left out.
- EvtParser.ParseAsync: the sort in the source is lazy, so an invalid race number (an int32
  overflow) surfaces when the result is enumerated; the model reports it as the parse's failure.
- EvtRoundTrip.WriteThenParse holds only for races with plain titles (see the first item).
