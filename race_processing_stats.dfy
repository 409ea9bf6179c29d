/**
 * `RaceProcessingStats`: what one update of the race store did, as four counts (added, updated,
 * unchanged, removed) and four lists of race numbers, and the two summaries it prints.
 */
module RaceProcessingStats {
  import opened Text
  import opened Numbers

  /** One line of the statistics: a count, the words after it (" added", ...), and the race numbers behind it. */
  datatype Category = Category(count: int, words: string, numbers: seq<string>)

  /** "<count> <words>", with " (<numbers>)" after it in the detailed form when there are numbers. */
  function PartOf(c: Category, detailed: bool): string {
    if detailed then IntToString(c.count) + c.words + NumbersText(c) else IntToString(c.count) + c.words
  }

  /** " (<numbers joined by ', '>)" when there are numbers; nothing otherwise. */
  function NumbersText(c: Category): string {
    if |c.numbers| > 0 then " (" + Join(", ", c.numbers) + ")" else ""
  }

  /** The part of a category whose count is positive; nothing otherwise. */
  function Kept(c: Category, detailed: bool): seq<string> {
    if c.count > 0 then [PartOf(c, detailed)] else []
  }

  /** The parts of the categories whose count is positive, in order. */
  function PartsOf(cs: seq<Category>, detailed: bool): (parts: seq<string>)
    ensures |parts| <= |cs|
  {
    if cs == [] then [] else PartsOf(cs[..|cs| - 1], detailed) + Kept(cs[|cs| - 1], detailed)
  }

  /** The parts joined by ", ", or "no races" when there is none. */
  function Render(cs: seq<Category>, detailed: bool): string {
    var parts := PartsOf(cs, detailed);
    if |parts| > 0 then Join(", ", parts) else "no races"
  }

  class RaceProcessingStats {
    var racesAdded: int
    var racesUpdated: int
    var racesUnchanged: int
    var racesRemoved: int
    var addedRaceNumbers: seq<string>
    var updatedRaceNumbers: seq<string>
    var unchangedRaceNumbers: seq<string>
    var removedRaceNumbers: seq<string>

    /** A fresh object: every count 0 and every list empty. */
    constructor ()
      ensures racesAdded == 0 && racesUpdated == 0 && racesUnchanged == 0 && racesRemoved == 0
      ensures addedRaceNumbers == [] && updatedRaceNumbers == [] && unchangedRaceNumbers == [] && removedRaceNumbers == []
    {
      racesAdded, racesUpdated, racesUnchanged, racesRemoved := 0, 0, 0, 0;
      addedRaceNumbers, updatedRaceNumbers, unchangedRaceNumbers, removedRaceNumbers := [], [], [], [];
    }

    /** `TotalProcessed`: the races of the update, whatever became of them; removals are not among them. */
    function TotalProcessed(): int
      reads this
    {
      racesAdded + racesUpdated + racesUnchanged
    }

    /** The four categories in the order they are printed. */
    function Categories(): (cs: seq<Category>)
      reads this
      ensures |cs| == 4
    {
      [Category(racesAdded, " added", addedRaceNumbers), Category(racesUpdated, " updated", updatedRaceNumbers),
       Category(racesUnchanged, " unchanged", unchangedRaceNumbers), Category(racesRemoved, " removed", removedRaceNumbers)]
    }

    /** `ToString`: the positive counts with their labels, or "no races". */
    method ToString() returns (s: string)
      ensures s == Render(Categories(), false)
    {
      var parts: seq<string> := [];
      ghost var cs := Categories();
      PartsOfPrefixes(cs, false);
      if racesAdded > 0 { parts := parts + [IntToString(racesAdded) + " added"]; }
      assert parts == PartsOf(cs[..1], false);
      if racesUpdated > 0 { parts := parts + [IntToString(racesUpdated) + " updated"]; }
      assert parts == PartsOf(cs[..2], false);
      if racesUnchanged > 0 { parts := parts + [IntToString(racesUnchanged) + " unchanged"]; }
      assert parts == PartsOf(cs[..3], false);
      if racesRemoved > 0 { parts := parts + [IntToString(racesRemoved) + " removed"]; }
      assert parts == PartsOf(cs, false);
      s := if |parts| > 0 then Join(", ", parts) else "no races";
    }

    /** `GetDetailedString`: as `ToString`, each count followed by its race numbers when it has any. */
    method GetDetailedString() returns (s: string)
      ensures s == Render(Categories(), true)
    {
      var parts: seq<string> := [];
      ghost var cs := Categories();
      PartsOfPrefixes(cs, true);
      if racesAdded > 0 {
        var raceNumbers := if |addedRaceNumbers| > 0 then " (" + Join(", ", addedRaceNumbers) + ")" else "";
        parts := parts + [IntToString(racesAdded) + " added" + raceNumbers];
      }
      assert parts == PartsOf(cs[..1], true);
      if racesUpdated > 0 {
        var raceNumbers := if |updatedRaceNumbers| > 0 then " (" + Join(", ", updatedRaceNumbers) + ")" else "";
        parts := parts + [IntToString(racesUpdated) + " updated" + raceNumbers];
      }
      assert parts == PartsOf(cs[..2], true);
      if racesUnchanged > 0 {
        var raceNumbers := if |unchangedRaceNumbers| > 0 then " (" + Join(", ", unchangedRaceNumbers) + ")" else "";
        parts := parts + [IntToString(racesUnchanged) + " unchanged" + raceNumbers];
      }
      assert parts == PartsOf(cs[..3], true);
      if racesRemoved > 0 {
        var raceNumbers := if |removedRaceNumbers| > 0 then " (" + Join(", ", removedRaceNumbers) + ")" else "";
        parts := parts + [IntToString(racesRemoved) + " removed" + raceNumbers];
      }
      assert parts == PartsOf(cs, true);
      s := if |parts| > 0 then Join(", ", parts) else "no races";
    }
  }

  /** The parts of the first one, two, three and four categories. */
  lemma PartsOfPrefixes(cs: seq<Category>, detailed: bool)
    requires |cs| == 4
    ensures PartsOf(cs[..1], detailed) == Kept(cs[0], detailed)
    ensures PartsOf(cs[..2], detailed) == PartsOf(cs[..1], detailed) + Kept(cs[1], detailed)
    ensures PartsOf(cs[..3], detailed) == PartsOf(cs[..2], detailed) + Kept(cs[2], detailed)
    ensures PartsOf(cs, detailed) == PartsOf(cs[..3], detailed) + Kept(cs[3], detailed)
  {
    assert cs[..1][..0] == [];
    assert cs[..2][..1] == cs[..1];
    assert cs[..3][..2] == cs[..2];
  }

  lemma PartsOfFour(cs: seq<Category>, detailed: bool)
    requires |cs| == 4
    ensures PartsOf(cs, detailed) == Kept(cs[0], detailed) + Kept(cs[1], detailed) + Kept(cs[2], detailed) + Kept(cs[3], detailed)
  {
    PartsOfPrefixes(cs, detailed);
  }

  /** A part of a positive count starts with a digit. */
  lemma PartStartsWithDigit(c: Category, detailed: bool)
    requires c.count > 0
    ensures |PartOf(c, detailed)| > 0 && IsDigit(PartOf(c, detailed)[0])
  {
    assert PartOf(c, detailed)[0] == NatToString(c.count)[0];
  }

  lemma {:induction false} JoinFirst(sep: string, parts: seq<string>)
    requires |parts| >= 1 && |parts[0]| > 0
    ensures |Join(sep, parts)| > 0 && Join(sep, parts)[0] == parts[0][0]
  {
  }

  /** Every part of `PartsOf` is the part of a positive category. */
  lemma {:induction false} PartsOfPositive(cs: seq<Category>, detailed: bool, k: nat)
    requires k < |PartsOf(cs, detailed)|
    ensures exists i :: 0 <= i < |cs| && cs[i].count > 0 && PartsOf(cs, detailed)[k] == PartOf(cs[i], detailed)
  {
    var p := cs[..|cs| - 1];
    var n := |cs| - 1;
    assert PartsOf(cs, detailed) == PartsOf(p, detailed) + Kept(cs[n], detailed);
    if k < |PartsOf(p, detailed)| {
      PartsOfPositive(p, detailed, k);
      var i :| 0 <= i < |p| && p[i].count > 0 && PartsOf(p, detailed)[k] == PartOf(p[i], detailed);
      assert cs[i] == p[i];
    } else {
      assert PartsOf(cs, detailed)[k] == PartOf(cs[n], detailed);
    }
  }

  /** There are parts exactly when some count is positive. */
  lemma {:induction false} PartsOfEmpty(cs: seq<Category>, detailed: bool)
    ensures PartsOf(cs, detailed) == [] <==> forall i :: 0 <= i < |cs| ==> cs[i].count <= 0
  {
    if cs != [] {
      var p := cs[..|cs| - 1];
      PartsOfEmpty(p, detailed);
      if forall i :: 0 <= i < |cs| ==> cs[i].count <= 0 {
        forall i | 0 <= i < |p| ensures p[i].count <= 0 {
          assert p[i] == cs[i];
        }
      }
    }
  }

  /**
   * Both summaries read "no races" exactly when no count is positive (the race numbers alone
   * never make a summary).
   */
  lemma NoRacesIff(cs: seq<Category>, detailed: bool)
    ensures Render(cs, detailed) == "no races" <==> forall i :: 0 <= i < |cs| ==> cs[i].count <= 0
  {
    PartsOfEmpty(cs, detailed);
    var parts := PartsOf(cs, detailed);
    if |parts| > 0 {
      PartsOfPositive(cs, detailed, 0);
      var i :| 0 <= i < |cs| && cs[i].count > 0 && parts[0] == PartOf(cs[i], detailed);
      PartStartsWithDigit(cs[i], detailed);
      JoinFirst(", ", parts);
      assert !IsDigit("no races"[0]);
    }
  }

  /** With every list of race numbers empty, the detailed summary is the plain one. */
  lemma {:induction false} DetailedIsPlainWithoutNumbers(cs: seq<Category>)
    requires forall i :: 0 <= i < |cs| ==> cs[i].numbers == []
    ensures Render(cs, true) == Render(cs, false)
  {
    assert PartsOf(cs, true) == PartsOf(cs, false) by {
      PartsOfSame(cs);
    }
  }

  lemma {:induction false} PartsOfSame(cs: seq<Category>)
    requires forall i :: 0 <= i < |cs| ==> cs[i].numbers == []
    ensures PartsOf(cs, true) == PartsOf(cs, false)
  {
    if cs != [] {
      var p := cs[..|cs| - 1];
      forall i | 0 <= i < |p| ensures p[i].numbers == [] {
        assert p[i] == cs[i];
      }
      PartsOfSame(p);
      var c := cs[|cs| - 1];
      assert c.numbers == [];
      assert PartOf(c, true) == PartOf(c, false) by {
        assert NumbersText(c) == "";
        assert IntToString(c.count) + c.words + "" == IntToString(c.count) + c.words;
      }
    }
  }

  /** The categories of 2 added (1A, 2A), none updated, 1 unchanged and 3 removed. */
  function ExampleCategories(): seq<Category> {
    [Category(2, " added", ["1A", "2A"]), Category(0, " updated", []),
     Category(1, " unchanged", []), Category(3, " removed", [])]
  }

  lemma ExampleEach()
    ensures Kept(ExampleCategories()[0], false) == ["2 added"]
    ensures Kept(ExampleCategories()[0], true) == ["2 added (1A, 2A)"]
    ensures Kept(ExampleCategories()[1], false) == [] == Kept(ExampleCategories()[1], true)
    ensures Kept(ExampleCategories()[2], false) == ["1 unchanged"] == Kept(ExampleCategories()[2], true)
    ensures Kept(ExampleCategories()[3], false) == ["3 removed"] == Kept(ExampleCategories()[3], true)
  {
    ExampleAdded();
    assert IntToString(1) == "1" && IntToString(3) == "3";
    var cs := ExampleCategories();
    assert PartOf(cs[2], false) == "1" + " unchanged" == "1 unchanged";
    assert PartOf(cs[2], true) == "1" + " unchanged" + "" == "1 unchanged";
    assert PartOf(cs[3], false) == "3" + " removed" == "3 removed";
    assert PartOf(cs[3], true) == "3" + " removed" + "" == "3 removed";
  }

  lemma ExampleAdded()
    ensures PartOf(Category(2, " added", ["1A", "2A"]), false) == "2 added"
    ensures PartOf(Category(2, " added", ["1A", "2A"]), true) == "2 added (1A, 2A)"
  {
    var c := Category(2, " added", ["1A", "2A"]);
    assert IntToString(2) == "2";
    assert ["1A", "2A"][1..] == ["2A"];
    assert Join(", ", ["1A", "2A"]) == "1A, 2A";
    assert NumbersText(c) == " (" + "1A, 2A" + ")" == " (1A, 2A)";
  }

  lemma ExampleParts()
    ensures PartsOf(ExampleCategories(), false) == ["2 added", "1 unchanged", "3 removed"]
    ensures PartsOf(ExampleCategories(), true) == ["2 added (1A, 2A)", "1 unchanged", "3 removed"]
  {
    var cs := ExampleCategories();
    PartsOfFour(cs, false);
    PartsOfFour(cs, true);
    ExampleEach();
  }

  /** The plain summary of the example. */
  lemma RenderExample()
    ensures Render(ExampleCategories(), false) == "2 added, 1 unchanged, 3 removed"
  {
    ExampleParts();
    JoinThree(", ", "2 added", "1 unchanged", "3 removed");
    PlainText();
  }

  lemma PlainText()
    ensures "2 added" + ", " + ("1 unchanged" + ", " + "3 removed") == "2 added, 1 unchanged, 3 removed"
  {
  }

  /** The detailed summary of the example: only the added races have numbers to show. */
  lemma RenderDetailedExample()
    ensures Render(ExampleCategories(), true) == "2 added (1A, 2A), 1 unchanged, 3 removed"
  {
    ExampleParts();
    JoinThree(", ", "2 added (1A, 2A)", "1 unchanged", "3 removed");
    DetailedText();
  }

  lemma DetailedText()
    ensures "2 added (1A, 2A)" + ", " + ("1 unchanged" + ", " + "3 removed") == "2 added (1A, 2A), 1 unchanged, 3 removed"
  {
  }
}
