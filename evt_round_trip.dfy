/**
 * What the race-list writer writes, the EVT parser reads back: first for any line reader that
 * reads each record as the writer meant it, then for the parser's own reader on races whose
 * cells need no CSV quoting.
 */
module EvtRoundTrip {
  import opened Wrappers
  import opened Text
  import opened Numbers
  import opened Races
  import opened RaceNumberComparer
  import opened EvtParser
  import opened EvtWriter

  // ---------------------------------------------------------------------------------------------
  // Reading the records back, for any line reader

  /** Line `i` of `ls` is a racer line naming racer `ps[i].0` in lane `ps[i].1`, and neither a race-info nor a malformed line. */
  predicate ReadsAsRacers(rd: LineReader, ls: seq<string>, ps: seq<(int, int)>) {
    |ls| == |ps|
    && forall i :: 0 <= i < |ls| ==>
         !rd.isInfo(ls[i]) && !rd.isPotential(ls[i]) && rd.racer(ls[i]) == Ok(Some(RacerLine(ps[i].0, ps[i].1)))
  }

  /** What a line reader makes of the records of `race` for them to read back as `race`. */
  predicate ReadsBack(rd: LineReader, race: Race) {
    && rd.isInfo(InfoRecord(race))
    && rd.info(InfoRecord(race)) == Ok(RaceInfo(race.raceNumber, race.raceTitle, race.laps))
    && ReadsAsRacers(rd, RacerRecords(RacersByLane(race.racers)), RacersByLane(race.racers))
  }

  /** A line the reader passes over: no race-info line, no malformed one, no racer. */
  predicate Filler(rd: LineReader, line: string) {
    !rd.isInfo(line) && !rd.isPotential(line) && rd.racer(line) == Ok(None)
  }

  /** Racer lines read in order, line `i` naming racer `ps[i]`: each racer of `ps` gets its lane in `m`, and no other racer is there. */
  lemma {:induction false} RacerEntriesOfPairs(ls: seq<string>, ps: seq<(int, int)>, m: map<int, int>, racer: string -> Result<Option<RacerLine>, string>)
    requires |ls| == |ps|
    requires forall i :: 0 <= i < |ps| ==> ps[i].0 in m && m[ps[i].0] == ps[i].1
    requires forall i :: 0 <= i < |ls| ==> racer(ls[i]) == Ok(Some(RacerLine(ps[i].0, ps[i].1)))
    ensures RacerEntries(ls, racer).Ok?
    ensures forall id :: id in RacerEntries(ls, racer).value <==> id in m && (id, m[id]) in ps
    ensures forall id :: id in RacerEntries(ls, racer).value ==> RacerEntries(ls, racer).value[id] == m[id]
    decreases |ps|
  {
    if ps != [] {
      var p, x := ps[..|ps| - 1], ps[|ps| - 1];
      var q := ls[..|ls| - 1];
      RacerEntriesOfPairs(q, p, m, racer);
      var v := RacerEntries(q, racer).value;
      assert RacerEntries(ls, racer) == Ok(v[x.0 := x.1]);
      assert x == (x.0, m[x.0]);
      forall id | id in m ensures (id, m[id]) in ps <==> (id, m[id]) in p || id == x.0 {
        assert ps == p + [x];
      }
    }
  }

  /** Racer lines naming the pairs of a racer map in lane order read back as the map. */
  lemma MapOfRacerLines(ls: seq<string>, m: map<int, int>, rd: LineReader)
    requires ReadsAsRacers(rd, ls, RacersByLane(m))
    ensures RacerEntries(ls, rd.racer) == Ok(m)
  {
    var ps := RacersByLane(m);
    RacerEntriesOfPairs(ls, ps, m, rd.racer);
    MapOfPairs(RacerEntries(ls, rd.racer).value, ps, m);
  }

  lemma MapOfPairs(v: map<int, int>, ps: seq<(int, int)>, m: map<int, int>)
    requires forall id :: id in m ==> (id, m[id]) in ps
    requires forall id :: id in v <==> id in m && (id, m[id]) in ps
    requires forall id :: id in v ==> v[id] == m[id]
    ensures v == m
  {
    forall id ensures id in v <==> id in m {
      if id in m {
        assert (id, m[id]) in ps;
        assert id in v;
      }
    }
    assert v.Keys == m.Keys;
    forall id | id in v ensures v[id] == m[id] {
    }
  }

  /** Lines without racers after the racer lines change nothing. */
  lemma {:induction false} RacerEntriesFiller(ls: seq<string>, fill: seq<string>, racer: string -> Result<Option<RacerLine>, string>)
    requires forall t :: 0 <= t < |fill| ==> racer(fill[t]) == Ok(None)
    ensures RacerEntries(ls + fill, racer) == RacerEntries(ls, racer)
    decreases |fill|
  {
    if fill == [] {
      assert ls + fill == ls;
    } else {
      var f := fill[..|fill| - 1];
      var all := ls + fill;
      assert all[..|all| - 1] == ls + f;
      assert all[|all| - 1] == fill[|fill| - 1];
      RacerEntriesFiller(ls, f, racer);
    }
  }

  /** The racer records of a race, wherever they are followed, are neither race-info nor malformed lines. */
  lemma RacerRecordsQuiet(race: Race, rest: seq<string>, rd: LineReader)
    requires ReadsBack(rd, race)
    ensures var all := RaceRecords(race) + rest;
      forall k :: 1 <= k < |RaceRecords(race)| ==> !rd.isInfo(all[k]) && !rd.isPotential(all[k])
  {
    var info := InfoRecord(race);
    var rs := RacerRecords(RacersByLane(race.racers));
    assert RaceRecords(race) + rest == [info] + rs + rest;
    RacerLinesQuiet(info, rs, RacersByLane(race.racers), rest, rd);
  }

  lemma RacerLinesQuiet(info: string, rs: seq<string>, ps: seq<(int, int)>, rest: seq<string>, rd: LineReader)
    requires ReadsAsRacers(rd, rs, ps)
    ensures var all := [info] + rs + rest;
      forall k :: 1 <= k < 1 + |rs| ==> !rd.isInfo(all[k]) && !rd.isPotential(all[k])
  {
    var all := [info] + rs + rest;
    assert forall k :: 1 <= k < 1 + |rs| ==> all[k] == rs[k - 1];
  }

  /** The records of a race, followed by another race or by filler lines, read back as the race. */
  lemma RaceAtOfRecords(race: Race, rest: seq<string>, rd: LineReader)
    requires ReadsBack(rd, race)
    requires (|rest| > 0 && rd.isInfo(rest[0])) || forall t :: 0 <= t < |rest| ==> Filler(rd, rest[t])
    ensures RaceAt(RaceRecords(race) + rest, 0, rd) == Ok(race)
  {
    var info := InfoRecord(race);
    var rs := RacerRecords(RacersByLane(race.racers));
    assert RaceRecords(race) + rest == [info] + rs + rest;
    RaceAtOfLines(info, rs, rest, race, rd);
  }

  /**
   * A race-info line, racer lines that name the racers of `race` in lane order, and then another
   * race-info line or filler lines: the race read there is `race`.
   */
  lemma RaceAtOfLines(info: string, rs: seq<string>, rest: seq<string>, race: Race, rd: LineReader)
    requires rd.info(info) == Ok(RaceInfo(race.raceNumber, race.raceTitle, race.laps))
    requires ReadsAsRacers(rd, rs, RacersByLane(race.racers))
    requires (|rest| > 0 && rd.isInfo(rest[0])) || forall t :: 0 <= t < |rest| ==> Filler(rd, rest[t])
    ensures RaceAt([info] + rs + rest, 0, rd) == Ok(race)
  {
    var all := [info] + rs + rest;
    assert all[0] == info;
    MapOfRacerLines(rs, race.racers, rd);
    RacersOfLines(info, rs, rest, race.racers, rd);
  }

  lemma RacersOfLines(info: string, rs: seq<string>, rest: seq<string>, m: map<int, int>, rd: LineReader)
    requires RacerEntries(rs, rd.racer) == Ok(m) && forall k :: 0 <= k < |rs| ==> !rd.isInfo(rs[k])
    requires (|rest| > 0 && rd.isInfo(rest[0])) || forall t :: 0 <= t < |rest| ==> Filler(rd, rest[t])
    ensures var all := [info] + rs + rest;
      RacerEntries(all[1..NextRaceInfo(all, 1, rd.isInfo)], rd.racer) == Ok(m)
  {
    var all := [info] + rs + rest;
    var n := 1 + |rs|;
    if |rest| > 0 && rd.isInfo(rest[0]) {
      RacersBeforeInfo(info, rs, rest, rd);
    } else {
      RacersBeforeFiller(info, rs, rest, rd);
      RacerEntriesFiller(rs, rest, rd.racer);
    }
  }

  lemma RacersBeforeInfo(info: string, rs: seq<string>, rest: seq<string>, rd: LineReader)
    requires forall k :: 0 <= k < |rs| ==> !rd.isInfo(rs[k])
    requires |rest| > 0 && rd.isInfo(rest[0])
    ensures var all := [info] + rs + rest;
      all[1..NextRaceInfo(all, 1, rd.isInfo)] == rs
  {
    var all := [info] + rs + rest;
    var n := 1 + |rs|;
    assert all[n] == rest[0];
    assert forall k :: 1 <= k < n ==> all[k] == rs[k - 1];
    NextRaceInfoAt(all, 1, n, rd.isInfo);
    assert all[1..n] == rs;
  }

  lemma RacersBeforeFiller(info: string, rs: seq<string>, rest: seq<string>, rd: LineReader)
    requires forall k :: 0 <= k < |rs| ==> !rd.isInfo(rs[k])
    requires forall t :: 0 <= t < |rest| ==> !rd.isInfo(rest[t])
    ensures var all := [info] + rs + rest;
      all[1..NextRaceInfo(all, 1, rd.isInfo)] == rs + rest
  {
    var all := [info] + rs + rest;
    var n := 1 + |rs|;
    forall k | 1 <= k < |all| ensures !rd.isInfo(all[k]) {
      if k < n {
        assert all[k] == rs[k - 1];
      } else {
        assert all[k] == rest[k - n];
      }
    }
    NextRaceInfoAt(all, 1, |all|, rd.isInfo);
    assert all[1..|all|] == rs + rest;
  }

  /**
   * The records of races that a reader reads back, followed by filler lines, read back as the
   * races, in the same order.
   */
  lemma {:induction false} ReadBack(races: seq<Race>, tail: seq<string>, rd: LineReader)
    requires forall i :: 0 <= i < |races| ==> ReadsBack(rd, races[i])
    requires forall t :: 0 <= t < |tail| ==> Filler(rd, tail[t])
    ensures RacesFrom(EvtRecords(races) + tail, 0, rd) == Ok(races)
    decreases |races|
  {
    if races == [] {
      assert EvtRecords(races) + tail == tail;
      RacesFromSkip(tail, 0, |tail|, rd);
    } else {
      ReadBack(races[1..], tail, rd);
      assert ReadsBack(rd, races[0]);
      assert |races| > 1 ==> ReadsBack(rd, races[1]);
      ReadBackStep(races, tail, rd);
    }
  }

  lemma ReadBackStep(races: seq<Race>, tail: seq<string>, rd: LineReader)
    requires |races| > 0 && ReadsBack(rd, races[0]) && (|races| > 1 ==> rd.isInfo(InfoRecord(races[1])))
    requires forall t :: 0 <= t < |tail| ==> Filler(rd, tail[t])
    requires RacesFrom(EvtRecords(races[1..]) + tail, 0, rd) == Ok(races[1..])
    ensures RacesFrom(EvtRecords(races) + tail, 0, rd) == Ok(races)
  {
    var head, rest := RaceRecords(races[0]), EvtRecords(races[1..]);
    assert EvtRecords(races) == head + rest;
    ConcatAssoc(head, rest, tail);
    ReadBackCons(races[0], races[1..], tail, EvtRecords(races) + tail, rd, races);
  }

  lemma ConcatAssoc(a: seq<string>, b: seq<string>, c: seq<string>)
    ensures (a + b) + c == a + (b + c)
  {
  }

  lemma ReadBackCons(race: Race, rest: seq<Race>, tail: seq<string>, lines: seq<string>, rd: LineReader, races: seq<Race>)
    requires |races| > 0 && race == races[0] && rest == races[1..]
    requires ReadsBack(rd, race) && (|rest| > 0 ==> rd.isInfo(InfoRecord(rest[0])))
    requires forall t :: 0 <= t < |tail| ==> Filler(rd, tail[t])
    requires RacesFrom(EvtRecords(rest) + tail, 0, rd) == Ok(rest)
    requires lines == RaceRecords(race) + (EvtRecords(rest) + tail)
    ensures RacesFrom(lines, 0, rd) == Ok([race] + rest)
    ensures [race] + rest == races
  {
    var head := RaceRecords(race);
    var more := EvtRecords(rest) + tail;
    if rest != [] {
      assert more[0] == InfoRecord(rest[0]);
    } else {
      assert more == tail;
    }
    RaceAtOfRecords(race, more, rd);
    RacerRecordsQuiet(race, more, rd);
    assert head[0] == InfoRecord(race);
    RacesFromStep(head, more, race, rest, rd);
  }

  /** A race read from the first lines, whose other lines are quiet, comes first in the races of the lines. */
  lemma RacesFromStep(head: seq<string>, more: seq<string>, race: Race, rest: seq<Race>, rd: LineReader)
    requires |head| > 0 && rd.isInfo(head[0]) && RaceAt(head + more, 0, rd) == Ok(race)
    requires forall k :: 1 <= k < |head| ==> !rd.isInfo((head + more)[k]) && !rd.isPotential((head + more)[k])
    requires RacesFrom(more, 0, rd) == Ok(rest)
    ensures RacesFrom(head + more, 0, rd) == Ok([race] + rest)
  {
    var all := head + more;
    assert all[0] == head[0];
    RacesFromSkip(all, 1, |head|, rd);
    RacesFromShift(head, more, 0, rd);
  }

  // ---------------------------------------------------------------------------------------------
  // Reading the records back with the parser

  /** Cells split at every comma: CSV reading of records that hold no quotes. */
  function SplitCells(line: string): (cells: seq<string>)
    ensures |cells| >= 1
  {
    Split(line, ',')
  }

  /** A race number written as decimal digits and one uppercase letter. */
  predicate IsRaceNumberText(s: string) {
    |s| >= 2 && AllDigits(s[..|s| - 1]) && IsUpperAscii(s[|s| - 1])
  }

  /**
   * A title the round trip covers: the writer leaves it unquoted and the comma-splitting,
   * trimming reader returns it as it is (no delimiter, quote or line break, no surrounding white
   * space).
   */
  predicate PlainTitle(s: string) {
    ',' !in s && '"' !in s && '\r' !in s && '\n' !in s && IsTrimmed(s)
  }

  /** A race whose records read back: a well-formed race number, a plain title and `int` ids and lanes. */
  predicate Writable(race: Race) {
    && IsRaceNumberText(race.raceNumber)
    && PlainTitle(race.raceTitle)
    && forall id :: id in race.racers ==> IsInt32(id) && IsInt32(race.racers[id])
  }

  lemma LeadingDigitsAt(u: string, k: nat)
    requires k < |u| && AllDigits(u[..k]) && !IsDigit(u[k])
    ensures LeadingDigits(u) == k
  {
  }

  lemma RaceNumberTextPlain(s: string)
    requires IsRaceNumberText(s)
    ensures ',' !in s && IsTrimmed(s) && MatchesRaceNumber(s)
  {
    forall i | 0 <= i < |s| ensures s[i] != ',' {
      if i < |s| - 1 {
        assert s[..|s| - 1][i] == s[i];
      }
    }
    assert s[..|s| - 1][0] == s[0];
    assert PatternBody(s) == s;
  }

  /** Thirteen cells holding a race number, a title and laps at indices 0, 3 and 12, and empty elsewhere. */
  predicate InfoCellsOf(cells: seq<string>, rn: string, title: string, laps: Decimal) {
    && |cells| == 13 && cells[0] == rn && cells[3] == title && cells[12] == FormatDecimal(laps)
    && forall k :: 0 <= k < 13 && k != 0 && k != 3 && k != 12 ==> cells[k] == ""
  }

  /** The record of race-info cells with a well-formed race number and a plain title splits back into its cells. */
  lemma InfoLineSplit(cells: seq<string>, rn: string, title: string, laps: Decimal)
    requires InfoCellsOf(cells, rn, title, laps) && IsRaceNumberText(rn) && PlainTitle(title)
    ensures SplitCells(Join(",", cells)) == cells
  {
    RaceNumberTextPlain(rn);
    FormatDecimalChars(laps);
    assert forall k :: 0 <= k < |cells| ==> ',' !in cells[k];
    CellsSplitBack(cells);
  }

  /** That record starts with the race number and a comma, and is trimmed. */
  lemma InfoLineShape(cells: seq<string>, rn: string, title: string, laps: Decimal)
    requires InfoCellsOf(cells, rn, title, laps) && IsRaceNumberText(rn)
    ensures var line := Join(",", cells);
      |rn| < |line| && line[..|rn|] == rn && line[|rn|] == ','
      && IsTrimmed(line) && |line| > 0 && IsDigit(line[0])
  {
    FormatDecimalChars(laps);
    CommaLineEnds(cells);
    assert IsDigit(rn[0]) by {
      assert rn[..|rn| - 1][0] == rn[0];
    }
    TrimmedBetween(Join(",", cells), rn, FormatDecimal(laps));
  }

  /** A line that starts like a digit-led string and ends like a trimmed one is trimmed. */
  lemma TrimmedBetween(line: string, first: string, last: string)
    requires |line| > 0 && |first| > 0 && |last| > 0 && IsDigit(first[0]) && IsTrimmed(last)
    requires line[0] == first[0] && line[|line| - 1] == last[|last| - 1]
    ensures IsTrimmed(line)
  {
  }

  /** That record is a race-info line and reads as the race number, title and laps. */
  lemma InfoLineReads(cells: seq<string>, rn: string, title: string, laps: Decimal)
    requires InfoCellsOf(cells, rn, title, laps) && IsRaceNumberText(rn) && PlainTitle(title)
    ensures IsRaceInfoLine(Join(",", cells))
    ensures ParseRaceInfoLine(Join(",", cells), SplitCells) == Ok(RaceInfo(rn, title, laps))
  {
    InfoLineShape(cells, rn, title, laps);
    InfoLineIsInfo(Join(",", cells), rn);
    InfoLineSplit(cells, rn, title, laps);
    InfoLineParses(Join(",", cells), cells, rn, title, laps);
  }

  /** A trimmed line that starts with a race number and a comma is a race-info line. */
  lemma InfoLineIsInfo(line: string, rn: string)
    requires IsRaceNumberText(rn) && |rn| < |line| && line[..|rn|] == rn && IsTrimmed(line) && IsDigit(line[0])
    ensures IsRaceInfoLine(line)
  {
    TrimOfTrimmed(line);
    assert !IsBlank(line);
    assert Unquoted(line) == line;
    assert line[..|rn| - 1] == rn[..|rn| - 1];
    assert line[|rn| - 1] == rn[|rn| - 1];
    LeadingDigitsAt(line, |rn| - 1);
  }

  /** A non-blank line splitting into race-info cells parses as their race number, title and laps. */
  lemma InfoLineParses(line: string, cells: seq<string>, rn: string, title: string, laps: Decimal)
    requires InfoCellsOf(cells, rn, title, laps) && IsRaceNumberText(rn) && PlainTitle(title)
    requires SplitCells(line) == cells && |line| > 0 && IsDigit(line[0])
    ensures ParseRaceInfoLine(line, SplitCells) == Ok(RaceInfo(rn, title, laps))
  {
    assert !IsBlank(line);
    RaceNumberTextPlain(rn);
    TrimOfTrimmed(rn);
    TrimOfTrimmed(title);
    FormatDecimalChars(laps);
    TrimOfTrimmed(FormatDecimal(laps));
    ParseFormatDecimal(laps);
  }

  /** A cell of digits, points, minus signs and uppercase letters is written unquoted. */
  lemma SymbolsUnquoted(s: string)
    requires forall i :: 0 <= i < |s| ==> IsDigit(s[i]) || s[i] == '.' || s[i] == '-' || IsUpperAscii(s[i])
    ensures !ShouldQuote(s)
  {
    if |s| > 0 {
      assert s[0] != ' ' && s[|s| - 1] != ' ';
    }
  }

  /** A plain title is written unquoted. */
  lemma PlainTitleUnquoted(s: string)
    requires PlainTitle(s)
    ensures !ShouldQuote(s)
  {
  }

  /** The cells of a writable race's info record are written unquoted. */
  lemma InfoCellsUnquoted(race: Race)
    requires Writable(race)
    ensures forall k :: 0 <= k < 13 ==> !ShouldQuote(InfoCells(race)[k])
  {
    var cells := InfoCells(race);
    var rn := race.raceNumber;
    forall i | 0 <= i < |rn| ensures IsDigit(rn[i]) || IsUpperAscii(rn[i]) {
      if i < |rn| - 1 {
        assert rn[..|rn| - 1][i] == rn[i];
      }
    }
    SymbolsUnquoted(rn);
    PlainTitleUnquoted(race.raceTitle);
    FormatDecimalSymbols(race.laps);
    SymbolsUnquoted(FormatDecimal(race.laps));
  }

  /** The info record of a writable race is a race-info line that reads as the race's number, title and laps. */
  lemma InfoRecordReads(race: Race)
    requires Writable(race)
    ensures IsRaceInfoLine(InfoRecord(race))
    ensures ParseRaceInfoLine(InfoRecord(race), SplitCells) == Ok(RaceInfo(race.raceNumber, race.raceTitle, race.laps))
  {
    var cells := InfoCells(race);
    InfoCellsUnquoted(race);
    UnquotedRecordLine(cells);
    assert InfoCellsOf(cells, race.raceNumber, race.raceTitle, race.laps);
    InfoLineReads(cells, race.raceNumber, race.raceTitle, race.laps);
  }

  /** Cells without commas, joined by commas, split back into the same cells. */
  lemma CellsSplitBack(cells: seq<string>)
    requires |cells| >= 1 && forall k :: 0 <= k < |cells| ==> ',' !in cells[k]
    ensures SplitCells(Join(",", cells)) == cells
  {
    assert "," == [','];
    SplitJoin(cells, ',');
  }

  /** A record of two or more cells starts with its first cell and a comma, and ends with the last character of its last cell. */
  lemma CommaLineEnds(cells: seq<string>)
    requires |cells| >= 2 && |cells[0]| >= 1 && |cells[|cells| - 1]| >= 1
    ensures var line := Join(",", cells); var first, last := cells[0], cells[|cells| - 1];
      |first| < |line| && line[..|first|] == first && line[|first|] == ','
      && line[0] == first[0] && line[|line| - 1] == last[|last| - 1]
  {
    var line := Join(",", cells);
    var n := |cells| - 1;
    assert line == cells[0] + "," + Join(",", cells[1..]);
    assert cells[..n] + [cells[n]] == cells;
    JoinAppend(",", cells[..n], cells[n]);
  }

  /** The record of a racer is ",id,lane": it splits back into its three cells. */
  lemma RacerRecordText(id: int, lane: int)
    ensures var line := RacerRecord((id, lane));
      && SplitCells(line) == ["", IntToString(id), IntToString(lane)]
      && |line| > 0 && line[0] == ',' && IsTrimmed(line)
  {
    var ids, lanes := IntToString(id), IntToString(lane);
    var line := RacerRecord((id, lane));
    IntToStringChars(id);
    IntToStringChars(lane);
    SymbolsUnquoted(ids);
    SymbolsUnquoted(lanes);
    UnquotedRecordLine(["", ids, lanes]);
    JoinThree(",", "", ids, lanes);
    assert "," == [','];
    SplitJoin(["", ids, lanes], ',');
    assert line[0] == ',' && line[|line| - 1] == lanes[|lanes| - 1];
  }

  /** A trimmed line starting with a comma is neither a race-info line nor, with three cells, a malformed one. */
  lemma CommaLineQuiet(line: string)
    requires |line| > 0 && line[0] == ',' && IsTrimmed(line) && |Split(line, ',')| == 3
    ensures !IsBlank(line) && !IsRaceInfoLine(line) && !IsPotentialRaceInfoLine(line)
  {
    TrimOfTrimmed(line);
    assert Unquoted(line) == line;
    LeadingDigitsAt(line, 0);
  }

  /** A line whose cells are an empty cell, an `int` id and an `int` lane reads as that racer. */
  lemma RacerCellsRead(line: string, id: int, lane: int)
    requires !IsBlank(line) && SplitCells(line) == ["", IntToString(id), IntToString(lane)]
    requires IsInt32(id) && IsInt32(lane)
    ensures ParseRacerLine(line, SplitCells) == Ok(Some(RacerLine(id, lane)))
  {
    var cells := SplitCells(line);
    assert |cells| >= 3 && cells[1] == IntToString(id) && cells[2] == IntToString(lane);
    ParseTrimmedIntToString(id);
    ParseTrimmedIntToString(lane);
    assert ParseInt32(Trim(cells[1])) == Some(id) && ParseInt32(Trim(cells[2])) == Some(lane);
  }

  /** The record of a racer with an `int` id and lane reads as that racer, and is no race-info line. */
  lemma RacerRecordReads(id: int, lane: int)
    requires IsInt32(id) && IsInt32(lane)
    ensures var line := RacerRecord((id, lane));
      && !IsRaceInfoLine(line) && !IsPotentialRaceInfoLine(line)
      && ParseRacerLine(line, SplitCells) == Ok(Some(RacerLine(id, lane)))
  {
    var line := RacerRecord((id, lane));
    RacerRecordText(id, lane);
    CommaLineQuiet(line);
    RacerCellsRead(line, id, lane);
  }

  lemma WritableReadsBack(race: Race)
    requires Writable(race)
    ensures ReadsBack(Evt(SplitCells), race)
  {
    var rd := Evt(SplitCells);
    var ps := RacersByLane(race.racers);
    var ls := RacerRecords(ps);
    InfoRecordReads(race);
    forall i | 0 <= i < |ls|
      ensures !rd.isInfo(ls[i]) && !rd.isPotential(ls[i]) && rd.racer(ls[i]) == Ok(Some(RacerLine(ps[i].0, ps[i].1)))
    {
      RacerRecordReads(ps[i].0, ps[i].1);
    }
  }

  /**
   * What `GenerateEvtContent` writes, `EvtParser` reads back: for writable races the written lines
   * parse as the races sorted by the comparer, and the write fails exactly when the sort does.
   */
  lemma WriteThenParse(races: seq<Race>)
    requires forall i :: 0 <= i < |races| ==> Writable(races[i])
    ensures EvtContent(races).Err? <==> OrderByComparer(races).Err?
    ensures EvtContent(races).Ok? ==> ParseEvt(EvtContent(races).value, SplitCells) == OrderByComparer(races)
  {
    if OrderByComparer(races).Ok? {
      var sorted := OrderByComparer(races).value;
      var rd := Evt(SplitCells);
      OrderByComparerSorted(races);
      PermutationReadsBack(races, sorted);
      assert Filler(rd, "");
      ReadBack(sorted, [""], rd);
      OrderByComparerIdempotent(races);
    }
  }

  lemma PermutationReadsBack(races: seq<Race>, sorted: seq<Race>)
    requires forall i :: 0 <= i < |races| ==> Writable(races[i])
    requires multiset(sorted) == multiset(races)
    ensures forall i :: 0 <= i < |sorted| ==> ReadsBack(Evt(SplitCells), sorted[i])
  {
    forall i | 0 <= i < |sorted| ensures ReadsBack(Evt(SplitCells), sorted[i]) {
      assert sorted[i] in multiset(races);
      var j :| 0 <= j < |races| && races[j] == sorted[i];
      WritableReadsBack(races[j]);
    }
  }
}
