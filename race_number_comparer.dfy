/**
 * `RaceNumberComparer`: race numbers are digits followed by one uppercase letter, ordered by the
 * integer value of the digits and then by the letter. A race number of any other form makes the
 * comparison fail.
 */
module RaceNumberComparer {
  import opened Wrappers
  import opened Numbers
  import opened Races
  import opened Sorting

  datatype RaceNumber = RaceNumber(number: int, letter: char)

  predicate IsUpperAscii(c: char) {
    'A' <= c <= 'Z'
  }

  /** The text the anchored pattern sees: .NET's `$` also matches just before one final '\n'. */
  function PatternBody(s: string): (b: string)
    ensures b == s || (s == b + "\n")
  {
    if |s| >= 1 && s[|s| - 1] == '\n' then s[..|s| - 1] else s
  }

  /** `s` matches `^(\d+)([A-Z])$`. */
  predicate MatchesRaceNumber(s: string) {
    var b := PatternBody(s);
    |b| >= 2 && AllDigits(b[..|b| - 1]) && IsUpperAscii(b[|b| - 1])
  }

  /**
   * `ParseRaceNumber`: the failure of the pattern is an `ArgumentException`, and digits whose
   * value does not fit in an `int` make `int.Parse` fail.
   */
  function ParseRaceNumber(s: string): (r: Result<RaceNumber, string>)
    ensures r.Ok? ==> MatchesRaceNumber(s) && IsInt32(r.value.number) && r.value.number >= 0
    ensures r.Ok? ==> IsUpperAscii(r.value.letter) && r.value.letter == PatternBody(s)[|PatternBody(s)| - 1]
    ensures MatchesRaceNumber(s) && r.Err? ==>
      var b := PatternBody(s); !IsInt32(DigitsValue(b[..|b| - 1]))
  {
    if !MatchesRaceNumber(s) then Err("Invalid race number format: " + s)
    else
      var b := PatternBody(s);
      var n := DigitsValue(b[..|b| - 1]);
      if !IsInt32(n) then Err("Value was either too large or too small for an Int32.")
      else Ok(RaceNumber(n, b[|b| - 1]))
  }

  /** A valid race number written out is read back: its digits' value and its letter. */
  lemma ParseRaceNumberOfText(n: int, c: char)
    requires 0 <= n <= Int32Max && IsUpperAscii(c)
    ensures ParseRaceNumber(NatToString(n) + [c]) == Ok(RaceNumber(n, c))
  {
    var s := NatToString(n) + [c];
    assert PatternBody(s) == s;
    assert s[..|s| - 1] == NatToString(n);
  }

  /** The position of a race number in the order: the number first, then the letter. */
  function Rank(n: RaceNumber): int {
    n.number * 128 + n.letter as int
  }

  function Sign(i: int): int {
    if i < 0 then -1 else if i == 0 then 0 else 1
  }

  predicate HasValidNumber(race: Race) {
    ParseRaceNumber(race.raceNumber).Ok?
  }

  /**
   * `Compare(x, y)` with `None` for a null race. Numbers compare by `int.CompareTo`, letters by an
   * ordinal string comparison, of which only the sign is promised.
   */
  function Compare(x: Option<Race>, y: Option<Race>): (r: Result<int, string>)
    ensures x.None? && y.None? ==> r == Ok(0)
    ensures x.None? && y.Some? ==> r == Ok(-1)
    ensures x.Some? && y.None? ==> r == Ok(1)
    ensures x.Some? && y.Some? ==> (r.Ok? <==> HasValidNumber(x.value) && HasValidNumber(y.value))
    ensures x.Some? && y.Some? && r.Ok? ==>
      Sign(r.value) == Sign(Rank(ParseRaceNumber(x.value.raceNumber).value) - Rank(ParseRaceNumber(y.value.raceNumber).value))
  {
    if x.None? && y.None? then Ok(0)
    else if x.None? then Ok(-1)
    else if y.None? then Ok(1)
    else
      var xn :- ParseRaceNumber(x.value.raceNumber);
      var yn :- ParseRaceNumber(y.value.raceNumber);
      if xn.number < yn.number then Ok(-1)
      else if xn.number > yn.number then Ok(1)
      else Ok(xn.letter as int - yn.letter as int)
  }

  lemma RankInjective(a: RaceNumber, b: RaceNumber)
    requires IsUpperAscii(a.letter) && IsUpperAscii(b.letter)
    requires Rank(a) == Rank(b)
    ensures a == b
  {
  }

  /** Two races tie exactly when their race numbers have the same value and letter, whatever the rest. */
  lemma CompareZeroIff(x: Race, y: Race)
    ensures Compare(Some(x), Some(y)) == Ok(0)
        <==> HasValidNumber(x) && HasValidNumber(y)
             && ParseRaceNumber(x.raceNumber).value == ParseRaceNumber(y.raceNumber).value
  {
    if Compare(Some(x), Some(y)) == Ok(0) {
      RankInjective(ParseRaceNumber(x.raceNumber).value, ParseRaceNumber(y.raceNumber).value);
    }
  }

  lemma ParsedExample(digits: string, n: int, c: char)
    requires 0 <= n <= Int32Max && IsUpperAscii(c)
    requires AllDigits(digits) && |digits| >= 1 && DigitsValue(digits) == n
    ensures ParseRaceNumber(digits + [c]) == Ok(RaceNumber(n, c))
  {
    var s := digits + [c];
    assert PatternBody(s) == s;
    assert s[..|s| - 1] == digits;
  }

  /** "021A" and "21A" are the same race number. */
  lemma LeadingZeroTies()
    ensures Compare(Some(Race("021A", "a", Decimal(0, 0), map[])), Some(Race("21A", "b", Decimal(1, 0), map[]))) == Ok(0)
  {
    var x, y := Race("021A", "a", Decimal(0, 0), map[]), Race("21A", "b", Decimal(1, 0), map[]);
    TwentyOne();
    ParsedExample("021", 21, 'A');
    ParsedExample("21", 21, 'A');
    assert "021" + ['A'] == "021A" && "21" + ['A'] == "21A";
    CompareZeroIff(x, y);
  }

  lemma TwentyOne()
    ensures DigitsValue("021") == 21 && DigitsValue("21") == 21
  {
    assert DigitsValue("0") == 0 by { assert "0"[..0] == ""; }
    assert DigitsValue("02") == 2 by { assert "02"[..1] == "0"; }
    assert DigitsValue("021") == 21 by { assert "021"[..2] == "02"; }
    assert DigitsValue("2") == 2 by { assert "2"[..0] == ""; }
    assert DigitsValue("21") == 21 by { assert "21"[..1] == "2"; }
  }

  /** Reversing the arguments reverses the sign. */
  lemma CompareAntisymmetric(x: Option<Race>, y: Option<Race>)
    requires Compare(x, y).Ok?
    ensures Compare(y, x).Ok? && Sign(Compare(y, x).value) == -Sign(Compare(x, y).value)
  {
  }

  /** On valid race numbers the comparison is transitive. */
  lemma CompareTransitive(x: Race, y: Race, z: Race)
    requires Compare(Some(x), Some(y)).Ok? && Compare(Some(x), Some(y)).value <= 0
    requires Compare(Some(y), Some(z)).Ok? && Compare(Some(y), Some(z)).value <= 0
    ensures Compare(Some(x), Some(z)).Ok? && Compare(Some(x), Some(z)).value <= 0
  {
  }

  function RaceKey(race: Race): int {
    match ParseRaceNumber(race.raceNumber)
    case Ok(n) => Rank(n)
    case Err(_) => 0
  }

  predicate AllValidNumbers(races: seq<Race>) {
    forall i :: 0 <= i < |races| ==> HasValidNumber(races[i])
  }

  /**
   * `races.OrderBy(r => r, new RaceNumberComparer())`: a stable sort by the comparer. A sequence of
   * fewer than two races is never compared; otherwise every race is, so one invalid race number
   * makes the sort fail.
   */
  function OrderByComparer(races: seq<Race>): (r: Result<seq<Race>, string>)
    ensures r.Err? <==> |races| >= 2 && !AllValidNumbers(races)
  {
    if |races| <= 1 then Ok(races)
    else if AllValidNumbers(races) then Ok(SortBy(races, RaceKey))
    else Err("Invalid race number format")
  }

  /** The sorted races are a permutation of the input, each pair in comparer order. */
  lemma {:induction false} OrderByComparerSorted(races: seq<Race>)
    requires OrderByComparer(races).Ok?
    ensures var s := OrderByComparer(races).value;
      && multiset(s) == multiset(races)
      && forall i, j :: 0 <= i < j < |s| ==>
           Compare(Some(s[i]), Some(s[j])).Ok? && Compare(Some(s[i]), Some(s[j])).value <= 0
  {
    var s := OrderByComparer(races).value;
    if |races| >= 2 {
      SortBySorted(races, RaceKey);
      SortByPermutes(races, RaceKey);
      forall i | 0 <= i < |s| ensures HasValidNumber(s[i]) {
        assert s[i] in multiset(races);
      }
      forall i, j | 0 <= i < j < |s|
        ensures Compare(Some(s[i]), Some(s[j])).Ok? && Compare(Some(s[i]), Some(s[j])).value <= 0
      {
        KeyOrderCompares(s[i], s[j]);
      }
    }
  }

  lemma KeyOrderCompares(x: Race, y: Race)
    requires HasValidNumber(x) && HasValidNumber(y) && RaceKey(x) <= RaceKey(y)
    ensures Compare(Some(x), Some(y)).Ok? && Compare(Some(x), Some(y)).value <= 0
  {
  }

  /** Sorting sorted races again changes nothing. */
  lemma {:induction false} OrderByComparerIdempotent(races: seq<Race>)
    requires OrderByComparer(races).Ok?
    ensures OrderByComparer(OrderByComparer(races).value) == OrderByComparer(races)
  {
    var s := OrderByComparer(races).value;
    if |races| >= 2 {
      SortBySorted(races, RaceKey);
      SortByPermutes(races, RaceKey);
      assert |s| == |multiset(s)| == |races|;
      forall i | 0 <= i < |s| ensures HasValidNumber(s[i]) {
        assert s[i] in multiset(races);
      }
      SortBySortedIdentity(s, RaceKey);
    }
  }

  /** Races the comparer ties keep their input order. */
  lemma OrderByComparerStable(races: seq<Race>, k: int)
    requires OrderByComparer(races).Ok?
    ensures WithKey(OrderByComparer(races).value, RaceKey, k) == WithKey(races, RaceKey, k)
  {
    if |races| >= 2 {
      SortByStable(races, RaceKey, k);
    }
  }

  function ExampleRace(number: string, title: string, tenths: int): Race {
    Race(number, title, Decimal(tenths, 1), map[])
  }

  lemma Parsed100A()
    ensures ParseRaceNumber("100A") == Ok(RaceNumber(100, 'A'))
  {
    assert DigitsValue("100") == 100 by {
      assert "100"[..2] == "10" && "10"[..1] == "1" && "1"[..0] == "";
    }
    ParsedExample("100", 100, 'A');
    assert "100" + ['A'] == "100A";
  }

  lemma Parsed3(c: char)
    requires c == 'A' || c == 'B'
    ensures ParseRaceNumber("3" + [c]) == Ok(RaceNumber(3, c))
  {
    assert DigitsValue("3") == 3 by {
      assert "3"[..0] == "";
    }
    ParsedExample("3", 3, c);
  }

  lemma Parsed22A()
    ensures ParseRaceNumber("22A") == Ok(RaceNumber(22, 'A'))
  {
    assert DigitsValue("22") == 22 by {
      assert "22"[..1] == "2" && "2"[..0] == "";
    }
    ParsedExample("22", 22, 'A');
    assert "22" + ['A'] == "22A";
  }

  lemma Parsed10A()
    ensures ParseRaceNumber("10A") == Ok(RaceNumber(10, 'A'))
  {
    assert DigitsValue("10") == 10 by {
      assert "10"[..1] == "1" && "1"[..0] == "";
    }
    ParsedExample("10", 10, 'A');
    assert "10" + ['A'] == "10A";
  }

  lemma ExampleNumbers()
    ensures ParseRaceNumber("100A") == Ok(RaceNumber(100, 'A')) && ParseRaceNumber("3B") == Ok(RaceNumber(3, 'B'))
    ensures ParseRaceNumber("3A") == Ok(RaceNumber(3, 'A')) && ParseRaceNumber("22A") == Ok(RaceNumber(22, 'A'))
    ensures ParseRaceNumber("10A") == Ok(RaceNumber(10, 'A'))
  {
    Parsed100A();
    Parsed3('B');
    assert "3" + ['B'] == "3B";
    Parsed3('A');
    assert "3" + ['A'] == "3A";
    Parsed22A();
    Parsed10A();
  }

  /** 100A, 3B, 3A, 22A, 10A sort to 3A, 3B, 10A, 22A, 100A. */
  lemma OrderByComparerExample()
    ensures var a, b, c, d, e :=
        ExampleRace("100A", "Race 100A", 10), ExampleRace("3B", "Race 3B", 20), ExampleRace("3A", "Race 3A", 30),
        ExampleRace("22A", "Race 22A", 40), ExampleRace("10A", "Race 10A", 50);
      OrderByComparer([a, b, c, d, e]) == Ok([c, b, e, d, a])
  {
    var a, b, c, d, e :=
        ExampleRace("100A", "Race 100A", 10), ExampleRace("3B", "Race 3B", 20), ExampleRace("3A", "Race 3A", 30),
        ExampleRace("22A", "Race 22A", 40), ExampleRace("10A", "Race 10A", 50);
    var races := [a, b, c, d, e];
    assert AllValidNumbers(races) && RaceKey(c) < RaceKey(b) < RaceKey(e) < RaceKey(d) < RaceKey(a) by {
      ExampleNumbers();
      assert forall i | 0 <= i < 5 :: races[i] in {a, b, c, d, e};
    }
    SortFive(a, b, c, d, e, RaceKey);
  }
}
