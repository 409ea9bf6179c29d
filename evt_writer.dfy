/**
 * The race-list writer of `EvtFileManager`: every race, in comparer order, becomes a 13-field
 * race-info record (race number, two empty fields, title, eight empty fields, laps) followed by
 * one record (empty field, racer id, lane) per racer in ascending lane order. Each record is a
 * line; the text ends with one more newline. A cell is written as CsvHelper writes it: quoted,
 * with its quotes doubled, when it holds a comma, a quote or a line break or starts or ends with a
 * space, and as it is otherwise.
 */
module EvtWriter {
  import opened Wrappers
  import opened Text
  import opened Numbers
  import opened Races
  import opened RaceNumberComparer
  import opened EvtParser

  // ---------------------------------------------------------------------------------------------
  // Records

  /**
   * CsvHelper's default `ShouldQuote`: a non-empty field that starts or ends with a space, or holds
   * a quote, a carriage return, a line feed or the delimiter.
   */
  predicate ShouldQuote(cell: string) {
    |cell| > 0
    && (cell[0] == ' ' || cell[|cell| - 1] == ' ' || '"' in cell || '\r' in cell || '\n' in cell || ',' in cell)
  }

  /** The field with every quote doubled. */
  function DoubleQuotes(s: string): (r: string)
    ensures |r| >= |s|
    ensures '"' !in s ==> r == s
  {
    if s == [] then []
    else (if s[0] == '"' then "\"\"" else [s[0]]) + DoubleQuotes(s[1..])
  }

  /** A field as the writer puts it in the record: quoted and escaped when it should be, as it is otherwise. */
  function QuoteField(cell: string): (r: string)
    ensures r == cell <==> !ShouldQuote(cell)
  {
    if ShouldQuote(cell) then "\"" + DoubleQuotes(cell) + "\"" else cell
  }

  function QuoteFields(cells: seq<string>): (r: seq<string>)
    ensures |r| == |cells| && forall k :: 0 <= k < |cells| ==> r[k] == QuoteField(cells[k])
  {
    if cells == [] then [] else [QuoteField(cells[0])] + QuoteFields(cells[1..])
  }

  /** One CSV record: each field quoted as the writer quotes it, joined by commas. */
  function RecordLine(cells: seq<string>): string {
    Join(",", QuoteFields(cells))
  }

  /** A record whose fields need no quoting is its fields joined by commas. */
  lemma UnquotedRecordLine(cells: seq<string>)
    requires forall k :: 0 <= k < |cells| ==> !ShouldQuote(cells[k])
    ensures RecordLine(cells) == Join(",", cells)
  {
    assert QuoteFields(cells) == cells;
  }

  // ---------------------------------------------------------------------------------------------
  // Reading a quoted field back

  /** The field with every doubled quote read as one quote, as a CSV reader reads a quoted field. */
  function UndoubleQuotes(s: string): string {
    if s == [] then []
    else if |s| >= 2 && s[0] == '"' && s[1] == '"' then "\"" + UndoubleQuotes(s[2..])
    else [s[0]] + UndoubleQuotes(s[1..])
  }

  /** A field as a CSV reader reads it: the inside of a quoted field unescaped, any other field as it is. */
  function ReadField(f: string): string {
    if |f| >= 2 && f[0] == '"' && f[|f| - 1] == '"' then UndoubleQuotes(f[1..|f| - 1]) else f
  }

  lemma {:induction false} UndoubleDoubleQuotes(s: string)
    ensures UndoubleQuotes(DoubleQuotes(s)) == s
  {
    if s != [] {
      var rest := DoubleQuotes(s[1..]);
      UndoubleDoubleQuotes(s[1..]);
      if s[0] == '"' {
        assert DoubleQuotes(s) == "\"\"" + rest;
        assert ("\"\"" + rest)[2..] == rest;
      } else {
        assert DoubleQuotes(s) == [s[0]] + rest;
        assert ([s[0]] + rest)[1..] == rest;
      }
    }
  }

  /** Every field the writer quotes reads back as itself, whatever it holds. */
  lemma QuoteFieldReadsBack(cell: string)
    ensures ReadField(QuoteField(cell)) == cell
  {
    if ShouldQuote(cell) {
      var f := QuoteField(cell);
      assert f[1..|f| - 1] == DoubleQuotes(cell);
      UndoubleDoubleQuotes(cell);
    }
  }

  /**
   * A title that ends with a space, as a title built with an empty stage does, is written between
   * quotes.
   */
  lemma TrailingSpaceQuoted(title: string)
    requires |title| > 0 && title[|title| - 1] == ' ' && '"' !in title
    ensures QuoteField(title) == "\"" + title + "\""
  {
  }

  /** `RaceInfoCsvRecord` of a race: its number, title and laps at indices 0, 3 and 12. */
  function InfoCells(race: Race): (cells: seq<string>)
    ensures |cells| == 13 && cells[0] == race.raceNumber && cells[3] == race.raceTitle
    ensures cells[12] == FormatDecimal(race.laps)
    ensures forall k :: 0 <= k < 13 && k != 0 && k != 3 && k != 12 ==> cells[k] == ""
  {
    [race.raceNumber, "", "", race.raceTitle, "", "", "", "", "", "", "", "", FormatDecimal(race.laps)]
  }

  /** `WriteRaceInfoLine`. */
  function InfoRecord(race: Race): string {
    RecordLine(InfoCells(race))
  }

  /** The `RacerLineCsvRecord` of racer `p.0` in lane `p.1`. */
  function RacerRecord(p: (int, int)): string {
    RecordLine(["", IntToString(p.0), IntToString(p.1)])
  }

  function RacerRecords(ps: seq<(int, int)>): (r: seq<string>)
    ensures |r| == |ps| && forall i :: 0 <= i < |ps| ==> r[i] == RacerRecord(ps[i])
  {
    if ps == [] then [] else RacerRecords(ps[..|ps| - 1]) + [RacerRecord(ps[|ps| - 1])]
  }

  /** The records of one race: its race-info record, then its racers in lane order. */
  function RaceRecords(race: Race): seq<string> {
    [InfoRecord(race)] + RacerRecords(RacersByLane(race.racers))
  }

  /** The records of the races, in the order given. */
  function EvtRecords(races: seq<Race>): seq<string> {
    if races == [] then [] else RaceRecords(races[0]) + EvtRecords(races[1..])
  }

  /** The lines of `GenerateEvtContent`: the records of the sorted races, then the empty last line. */
  function EvtContent(races: seq<Race>): Result<seq<string>, string> {
    var sorted :- OrderByComparer(races);
    Ok(EvtRecords(sorted) + [""])
  }

  /** Every line followed by the line terminator `newLine`. */
  function Terminated(lines: seq<string>, newLine: string): string {
    if lines == [] then "" else lines[0] + newLine + Terminated(lines[1..], newLine)
  }

  /** The text of `GenerateEvtContent`. */
  function EvtText(races: seq<Race>, newLine: string): Result<string, string> {
    var lines :- EvtContent(races);
    Ok(Terminated(lines, newLine))
  }

  // ---------------------------------------------------------------------------------------------
  // The writer's loops

  lemma {:induction false} EvtRecordsAppend(a: seq<Race>, b: seq<Race>)
    ensures EvtRecords(a + b) == EvtRecords(a) + EvtRecords(b)
    decreases |a|
  {
    if a == [] {
      assert a + b == b;
    } else {
      assert (a + b)[1..] == a[1..] + b;
      EvtRecordsAppend(a[1..], b);
    }
  }

  lemma EvtRecordsSnoc(races: seq<Race>, i: nat)
    requires i < |races|
    ensures EvtRecords(races[..i + 1]) == EvtRecords(races[..i]) + RaceRecords(races[i])
  {
    assert races[..i + 1] == races[..i] + [races[i]];
    EvtRecordsAppend(races[..i], [races[i]]);
    EvtRecordsSingle(races[i]);
  }

  lemma EvtRecordsSingle(race: Race)
    ensures EvtRecords([race]) == RaceRecords(race)
  {
    assert [race][1..] == [];
  }

  lemma {:induction false} TerminatedAppend(a: seq<string>, b: seq<string>, newLine: string)
    ensures Terminated(a + b, newLine) == Terminated(a, newLine) + Terminated(b, newLine)
    decreases |a|
  {
    if a == [] {
      assert a + b == b;
    } else {
      assert (a + b)[1..] == a[1..] + b;
      TerminatedAppend(a[1..], b, newLine);
    }
  }

  /** `WriteRacerLines`: one record per racer, in ascending lane order. */
  method WriteRacerLines(race: Race) returns (records: seq<string>)
    ensures records == RacerRecords(RacersByLane(race.racers))
  {
    var byLane := RacersByLane(race.racers);
    records := [];
    for i := 0 to |byLane|
      invariant records == RacerRecords(byLane[..i])
    {
      records := AppendRacer(records, byLane, i);
    }
    assert byLane[..|byLane|] == byLane;
  }

  /** One more racer written. */
  function AppendRacer(records: seq<string>, byLane: seq<(int, int)>, i: nat): (r: seq<string>)
    requires i < |byLane| && records == RacerRecords(byLane[..i])
    ensures r == RacerRecords(byLane[..i + 1])
  {
    assert byLane[..i + 1][..i] == byLane[..i];
    records + [RacerRecord(byLane[i])]
  }

  /**
   * `GenerateEvtContent`: the races sorted by the comparer, each race's info record and racer
   * records in turn, each record ended by `newLine`, and one more `newLine` at the end.
   */
  method GenerateEvtContent(races: seq<Race>, newLine: string) returns (r: Result<string, string>)
    ensures r == EvtText(races, newLine)
  {
    var sorting := OrderByComparer(races);
    if sorting.Err? {
      return Err(sorting.error);
    }
    var sorted := sorting.value;
    var records: seq<string> := [];
    for i := 0 to |sorted|
      invariant records == EvtRecords(sorted[..i])
    {
      var racerRecords := WriteRacerLines(sorted[i]);
      records := AppendRace(records, sorted, i, racerRecords);
    }
    assert sorted[..|sorted|] == sorted;
    r := Ok(Terminated(records, newLine) + newLine);
    EvtTextOf(races, newLine, records);
  }

  /** One more race written: its info record, then its racer records. */
  function AppendRace(records: seq<string>, sorted: seq<Race>, i: nat, racerRecords: seq<string>): (r: seq<string>)
    requires i < |sorted| && records == EvtRecords(sorted[..i])
    requires racerRecords == RacerRecords(RacersByLane(sorted[i].racers))
    ensures r == EvtRecords(sorted[..i + 1])
  {
    EvtRecordsSnoc(sorted, i);
    records + [InfoRecord(sorted[i])] + racerRecords
  }

  lemma EvtTextOf(races: seq<Race>, newLine: string, records: seq<string>)
    requires OrderByComparer(races).Ok? && records == EvtRecords(OrderByComparer(races).value)
    ensures EvtText(races, newLine) == Ok(Terminated(records, newLine) + newLine)
  {
    assert EvtContent(races) == Ok(records + [""]);
    TerminatedAppend(records, [""], newLine);
    TerminatedEmptyLine(newLine);
  }

  /** The empty last line is the terminator alone. */
  lemma TerminatedEmptyLine(newLine: string)
    ensures Terminated([""], newLine) == newLine
  {
    assert [""][1..] == [];
    assert "" + newLine + "" == newLine;
  }
}
