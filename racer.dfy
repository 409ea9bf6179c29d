/** `Racer`: one entry of the roster (PPL) file, an id with a name and a club. */
module Racers {
  import opened Wrappers
  import opened Text
  import opened Numbers

  datatype Racer = Racer(racerId: int, lastName: string, firstName: string, affiliation: string)

  /** The parameterless constructor: id 0, every name empty. */
  function EmptyRacer(): (r: Racer)
    ensures r.racerId == 0 && r.lastName == "" && r.firstName == "" && r.affiliation == ""
  {
    Racer(0, "", "", "")
  }

  /** `ToString`: "id,last,first,affiliation", the four fields joined by commas. */
  function RacerToString(r: Racer): string {
    Join(",", [IntToString(r.racerId), r.lastName, r.firstName, r.affiliation])
  }

  /**
   * `Equals(object)`: `other` is None for null and for anything that is not a racer; a racer is
   * equal exactly when all four fields are.
   */
  predicate RacerEquals(r: Racer, other: Option<Racer>)
    ensures RacerEquals(r, other) <==> other == Some(r)
  {
    other.Some? && r.racerId == other.value.racerId && r.lastName == other.value.lastName
    && r.firstName == other.value.firstName && r.affiliation == other.value.affiliation
  }

  /** A name without a comma survives `ToString`: splitting at the commas gives the four fields back. */
  lemma {:induction false} RacerToStringFields(r: Racer)
    requires ',' !in r.lastName && ',' !in r.firstName && ',' !in r.affiliation
    ensures Split(RacerToString(r), ',') == [IntToString(r.racerId), r.lastName, r.firstName, r.affiliation]
  {
    var parts := [IntToString(r.racerId), r.lastName, r.firstName, r.affiliation];
    assert ',' !in parts[0] by {
      IntToStringChars(r.racerId);
    }
    assert "," == [','];
    SplitJoin(parts, ',');
  }

  /** The empty racer prints as "0,,,". */
  lemma EmptyRacerToString()
    ensures RacerToString(EmptyRacer()) == "0,,,"
  {
    var parts := ["0", "", "", ""];
    assert IntToString(0) == "0";
    assert parts[1..] == ["", "", ""] && parts[1..][1..] == ["", ""] && parts[1..][1..][1..] == [""];
    assert Join(",", parts) == "0" + "," + ("" + "," + ("" + "," + ""));
  }

  lemma HundredText()
    ensures IntToString(100) == "100"
  {
  }

  /** Racer 100, John Smith of Toronto, prints as "100,Smith,John,Toronto". */
  lemma SmithText()
    ensures RacerToString(Racer(100, "Smith", "John", "Toronto")) == "100,Smith,John,Toronto"
  {
    HundredText();
    JoinFour(",", "100", "Smith", "John", "Toronto");
    assert "100" + "," + ("Smith" + "," + ("John" + "," + "Toronto")) == "100,Smith,John,Toronto";
  }
}
