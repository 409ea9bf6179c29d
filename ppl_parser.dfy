/**
 * `PplParser`: reads the roster (PPL) file, one racer per row "id,last,first,affiliation", into a
 * map from racer id to racer. A row that does not make a racer is skipped.
 */
module PplParser {
  import opened Wrappers
  import opened Text
  import opened Numbers
  import opened Racers

  /**
   * The CSV reader run over one row: the records it reads, each as its (already trimmed) cells, or
   * None when it throws.
   */
  type RecordReader = string -> Option<seq<seq<string>>>

  /**
   * The racer of a record's cells: id, last name, first name and affiliation by position, each
   * trimmed; the id must read as an int and no name may be empty.
   */
  function RacerOfCells(cells: seq<string>): Option<Racer>
    requires |cells| >= 4
  {
    match ParseInt32(Trim(cells[0]))
    case None => None
    case Some(id) =>
      var lastName, firstName, affiliation := Trim(cells[1]), Trim(cells[2]), Trim(cells[3]);
      if lastName == "" || firstName == "" || affiliation == "" then None
      else Some(Racer(id, lastName, firstName, affiliation))
  }

  /**
   * `ParseRacerRow`: a blank row, a row the reader fails on, a row that is not exactly one record
   * of four cells, a non-integer id and an empty name all give None.
   */
  function ParseRacerRow(row: string, read: RecordReader): Option<Racer> {
    if IsBlank(row) then None
    else
      match read(row)
      case None => None
      case Some(records) =>
        if |records| != 1 || |records[0]| < 4 then None else RacerOfCells(records[0])
  }

  /** `ParseRacerRow` as a value, for the generic roster below. */
  function RowParser(read: RecordReader): (parse: string -> Option<Racer>)
    ensures forall row :: parse(row) == ParseRacerRow(row, read)
  {
    row => ParseRacerRow(row, read)
  }

  /** The roster of rows read by `parse`: each racer under its own id, a later row for the same id winning. */
  function Roster(rows: seq<string>, parse: string -> Option<Racer>): map<int, Racer> {
    if rows == [] then map[]
    else
      var m := Roster(rows[..|rows| - 1], parse);
      match parse(rows[|rows| - 1])
      case None => m
      case Some(r) => m[r.racerId := r]
  }

  /** `ParseAsync`: every row of the file in order, the racers it makes put into the map. */
  method ParseAsync(rows: seq<string>, read: RecordReader) returns (racers: map<int, Racer>)
    ensures racers == Roster(rows, RowParser(read))
  {
    var parseRacerRow := RowParser(read);
    racers := map[];
    for i := 0 to |rows|
      invariant racers == Roster(rows[..i], parseRacerRow)
    {
      RosterStep(rows, i, parseRacerRow);
      var racer := parseRacerRow(rows[i]);
      if racer.Some? {
        racers := racers[racer.value.racerId := racer.value];
      }
    }
    assert rows[..|rows|] == rows;
  }

  lemma RosterStep(rows: seq<string>, i: nat, parse: string -> Option<Racer>)
    requires i < |rows|
    ensures Roster(rows[..i + 1], parse)
         == if parse(rows[i]).Some? then Roster(rows[..i], parse)[parse(rows[i]).value.racerId := parse(rows[i]).value]
            else Roster(rows[..i], parse)
  {
    assert rows[..i + 1][..i] == rows[..i];
  }

  // ---------------------------------------------------------------------------------------------
  // One row

  /**
   * Exactly when a row makes a racer: it is not blank, the reader reads one record of at least four
   * cells, the first is an int and the other three are not blank; the racer holds them trimmed.
   */
  lemma ParseRacerRowSome(row: string, read: RecordReader, r: Racer)
    ensures ParseRacerRow(row, read) == Some(r) <==>
      !IsBlank(row) && read(row).Some? && |read(row).value| == 1 && |read(row).value[0]| >= 4
      && ParseInt32(Trim(read(row).value[0][0])) == Some(r.racerId)
      && r.lastName == Trim(read(row).value[0][1]) && r.lastName != ""
      && r.firstName == Trim(read(row).value[0][2]) && r.firstName != ""
      && r.affiliation == Trim(read(row).value[0][3]) && r.affiliation != ""
  {
  }

  /** A stored racer has an int32 id and three non-empty trimmed names. */
  lemma ParsedRacerClean(row: string, read: RecordReader)
    requires ParseRacerRow(row, read).Some?
    ensures var r := ParseRacerRow(row, read).value;
      IsInt32(r.racerId) && IsTrimmed(r.lastName) && IsTrimmed(r.firstName) && IsTrimmed(r.affiliation)
      && r.lastName != "" && r.firstName != "" && r.affiliation != ""
  {
    var cells := read(row).value[0];
    TrimIsTrimmed(cells[1]);
    TrimIsTrimmed(cells[2]);
    TrimIsTrimmed(cells[3]);
  }

  /** A blank row, and a row whose first cell is not an int, is skipped. */
  lemma SkippedRows(row: string, read: RecordReader)
    requires IsBlank(row) || read(row).None?
      || (read(row).Some? && |read(row).value| == 1 && |read(row).value[0]| >= 4
          && ParseInt32(Trim(read(row).value[0][0])).None?)
    ensures ParseRacerRow(row, read) == None
  {
  }

  /** A row with a name that is blank is skipped. */
  lemma BlankNameSkipped(row: string, read: RecordReader, k: nat)
    requires read(row).Some? && |read(row).value| == 1 && |read(row).value[0]| >= 4
    requires 1 <= k <= 3 && IsBlank(read(row).value[0][k])
    ensures ParseRacerRow(row, read) == None
  {
    if !IsBlank(row) {
      var cells := read(row).value[0];
      TrimEmptyIffBlank(cells[k]);
      RacerOfCellsEmptyName(cells, k);
    }
  }

  lemma RacerOfCellsEmptyName(cells: seq<string>, k: nat)
    requires |cells| >= 4 && 1 <= k <= 3 && Trim(cells[k]) == ""
    ensures RacerOfCells(cells) == None
  {
    var lastName, firstName, affiliation := Trim(cells[1]), Trim(cells[2]), Trim(cells[3]);
    assert lastName == "" || firstName == "" || affiliation == "";
  }

  /** The reader that splits a row at its commas, enough for rows with no quoting. */
  function SplitReader(): (read: RecordReader)
    ensures forall row :: read(row) == Some([Split(row, ',')])
  {
    row => Some([Split(row, ',')])
  }

  /**
   * A racer the roster format can hold: an int32 id and non-empty names that are trimmed and have
   * no comma.
   */
  predicate Printable(r: Racer) {
    && IsInt32(r.racerId)
    && r.lastName != "" && r.firstName != "" && r.affiliation != ""
    && IsTrimmed(r.lastName) && IsTrimmed(r.firstName) && IsTrimmed(r.affiliation)
    && ',' !in r.lastName && ',' !in r.firstName && ',' !in r.affiliation
  }

  /** A printable racer is read back from its own `ToString`. */
  lemma ParseRacerToString(r: Racer)
    requires Printable(r)
    ensures ParseRacerRow(RacerToString(r), SplitReader()) == Some(r)
  {
    var row := RacerToString(r);
    RacerToStringFields(r);
    var cells := [IntToString(r.racerId), r.lastName, r.firstName, r.affiliation];
    assert !IsBlank(row) by {
      RowStartsWithNumber(r);
    }
    RacerOfOwnCells(r);
    assert SplitReader()(row) == Some([cells]);
  }

  lemma RacerOfOwnCells(r: Racer)
    requires IsInt32(r.racerId)
    requires r.lastName != "" && r.firstName != "" && r.affiliation != ""
    requires IsTrimmed(r.lastName) && IsTrimmed(r.firstName) && IsTrimmed(r.affiliation)
    ensures RacerOfCells([IntToString(r.racerId), r.lastName, r.firstName, r.affiliation]) == Some(r)
  {
    ParseTrimmedIntToString(r.racerId);
    TrimOfTrimmed(r.lastName);
    TrimOfTrimmed(r.firstName);
    TrimOfTrimmed(r.affiliation);
    RacerOfFields(IntToString(r.racerId), r.lastName, r.firstName, r.affiliation, r);
  }

  lemma RacerOfFields(id: string, lastName: string, firstName: string, affiliation: string, r: Racer)
    requires ParseInt32(Trim(id)) == Some(r.racerId)
    requires Trim(lastName) == r.lastName != "" && Trim(firstName) == r.firstName != ""
    requires Trim(affiliation) == r.affiliation != ""
    ensures RacerOfCells([id, lastName, firstName, affiliation]) == Some(r)
  {
    var cells := [id, lastName, firstName, affiliation];
    assert cells[0] == id && cells[1] == lastName && cells[2] == firstName && cells[3] == affiliation;
    assert r == Racer(r.racerId, Trim(lastName), Trim(firstName), Trim(affiliation));
  }

  lemma RowStartsWithNumber(r: Racer)
    ensures |RacerToString(r)| > 0 && !IsWhiteSpace(RacerToString(r)[0])
  {
    var s := IntToString(r.racerId);
    var parts := [s, r.lastName, r.firstName, r.affiliation];
    IntToStringChars(r.racerId);
    assert RacerToString(r) == s + "," + Join(",", parts[1..]);
  }


  // ---------------------------------------------------------------------------------------------
  // The roster

  /** Some row read by `parse` makes a racer with this id. */
  ghost predicate NamesRacer(rows: seq<string>, parse: string -> Option<Racer>, id: int) {
    exists t :: 0 <= t < |rows| && parse(rows[t]).Some? && parse(rows[t]).value.racerId == id
  }

  /** Every racer in the roster is filed under its own id. */
  lemma {:induction false} RosterKeyIsId(rows: seq<string>, parse: string -> Option<Racer>)
    ensures forall id :: id in Roster(rows, parse) ==> Roster(rows, parse)[id].racerId == id
  {
    if rows != [] {
      RosterKeyIsId(rows[..|rows| - 1], parse);
    }
  }

  /** An id is in the roster exactly when some row makes a racer with it. */
  lemma {:induction false} RosterKeys(rows: seq<string>, parse: string -> Option<Racer>, id: int)
    ensures id in Roster(rows, parse) <==> NamesRacer(rows, parse, id)
  {
    if rows != [] {
      var p := rows[..|rows| - 1];
      var last := |rows| - 1;
      RosterKeys(p, parse, id);
      if NamesRacer(p, parse, id) {
        var t :| 0 <= t < |p| && parse(p[t]).Some? && parse(p[t]).value.racerId == id;
        assert rows[t] == p[t];
      }
      if NamesRacer(rows, parse, id) && !(parse(rows[last]).Some? && parse(rows[last]).value.racerId == id) {
        var t :| 0 <= t < |rows| && parse(rows[t]).Some? && parse(rows[t]).value.racerId == id;
        assert t < last && p[t] == rows[t];
      }
    }
  }

  /** The racer filed under an id is the one from the last row that makes a racer with that id. */
  lemma {:induction false} RosterLastWins(rows: seq<string>, parse: string -> Option<Racer>, t: nat)
    requires t < |rows| && parse(rows[t]).Some?
    requires forall u :: t < u < |rows| && parse(rows[u]).Some? ==> parse(rows[u]).value.racerId != parse(rows[t]).value.racerId
    ensures var r := parse(rows[t]).value; r.racerId in Roster(rows, parse) && Roster(rows, parse)[r.racerId] == r
  {
    var p := rows[..|rows| - 1];
    if t < |rows| - 1 {
      assert p[t] == rows[t];
      forall u | t < u < |p| && parse(p[u]).Some? ensures parse(p[u]).value.racerId != parse(p[t]).value.racerId {
        assert p[u] == rows[u];
      }
      RosterLastWins(p, parse, t);
    }
  }

  /** The roster has at most one racer per row. */
  lemma {:induction false} RosterSize(rows: seq<string>, parse: string -> Option<Racer>)
    ensures |Roster(rows, parse)| <= |rows|
  {
    if rows != [] {
      RosterSize(rows[..|rows| - 1], parse);
    }
  }

  lemma TwoRowsOneId(rows: seq<string>, parse: string -> Option<Racer>, first: Racer, second: Racer)
    requires |rows| == 2 && parse(rows[0]) == Some(first) && parse(rows[1]) == Some(second)
    requires first.racerId == second.racerId
    ensures Roster(rows, parse) == map[second.racerId := second]
  {
    RosterStep(rows, 0, parse);
    RosterStep(rows, 1, parse);
    assert rows[..0] == [] && rows[..2] == rows;
  }

  /** Two rows for one racer id: the racer of the second row is the one kept. */
  lemma LaterRowWins(first: Racer, second: Racer)
    requires Printable(first) && Printable(second) && first.racerId == second.racerId
    ensures Roster([RacerToString(first), RacerToString(second)], RowParser(SplitReader()))
         == map[second.racerId := second]
  {
    var rows := [RacerToString(first), RacerToString(second)];
    ParseRacerToString(first);
    ParseRacerToString(second);
    TwoRowsOneId(rows, RowParser(SplitReader()), first, second);
  }
}
