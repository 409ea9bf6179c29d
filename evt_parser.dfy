/**
 * `EvtParser`: a race list is a sequence of lines. A race-info line (race number, two empty
 * fields, title, eight empty fields, laps) opens a race; the racer lines (empty field, racer id,
 * lane) up to the next race-info line fill it. Malformed lines make the whole parse fail, and the
 * races come out ordered by `RaceNumberComparer`. Splitting a line into cells is the parameter
 * `tokenize`.
 */
module EvtParser {
  import opened Wrappers
  import opened Text
  import opened Numbers
  import opened Races
  import opened RaceNumberComparer

  type Tokenizer = string -> seq<string>

  datatype RaceInfo = RaceInfo(raceNumber: string, raceTitle: string, laps: Decimal)

  datatype RacerLine = RacerLine(racerId: int, lane: int)

  // ---------------------------------------------------------------------------------------------
  // Line kinds

  /** The number of ASCII digits `u` starts with. */
  function LeadingDigits(u: string): (n: nat)
    ensures n <= |u| && AllDigits(u[..n]) && (n == |u| || !IsDigit(u[n]))
  {
    if u == [] || !IsDigit(u[0]) then 0
    else
      var n := LeadingDigits(u[1..]) + 1;
      assert u[..n] == [u[0]] + u[1..][..n - 1];
      n
  }

  /** The trimmed line without one leading double quote. */
  function Unquoted(line: string): string {
    var t := Trim(line);
    if |t| > 0 && t[0] == '"' then t[1..] else t
  }

  /** `IsRaceInfoLine`: the trimmed line starts with `"?(\d+[A-Z])`. */
  predicate IsRaceInfoLine(line: string) {
    !IsBlank(line)
    && var u := Unquoted(line);
       var n := LeadingDigits(u);
       1 <= n < |u| && IsUpperAscii(u[n])
  }

  /** `IsPotentialRaceInfoLine`: the trimmed line has at least 13 comma-separated pieces. */
  predicate IsPotentialRaceInfoLine(line: string) {
    !IsBlank(line) && |Split(Trim(line), ',')| >= 13
  }

  lemma LeadingDigitsThenUpper(u: string)
    ensures (1 <= LeadingDigits(u) < |u| && IsUpperAscii(u[LeadingDigits(u)])) <==>
      exists k :: 1 <= k < |u| && AllDigits(u[..k]) && IsUpperAscii(u[k])
  {
    var n := LeadingDigits(u);
    if exists k :: 1 <= k < |u| && AllDigits(u[..k]) && IsUpperAscii(u[k]) {
      var k :| 1 <= k < |u| && AllDigits(u[..k]) && IsUpperAscii(u[k]);
      DigitsBeforeUpper(u, k, n);
    }
  }

  /** A run of digits ending at an uppercase letter is the whole leading run of digits. */
  lemma DigitsBeforeUpper(u: string, k: nat, n: nat)
    requires k < |u| && AllDigits(u[..k]) && IsUpperAscii(u[k])
    requires n <= |u| && AllDigits(u[..n]) && (n == |u| || !IsDigit(u[n]))
    ensures k == n
  {
    assert forall j :: 0 <= j < n ==> IsDigit(u[..n][j]);
    assert forall j :: 0 <= j < k ==> IsDigit(u[..k][j]);
    assert forall j :: 0 <= j < n ==> u[..n][j] == u[j];
    assert forall j :: 0 <= j < k ==> u[..k][j] == u[j];
  }

  /**
   * A line is a race-info line exactly when, trimmed and without an optional leading quote, it
   * starts with one or more digits followed by an uppercase letter.
   */
  lemma IsRaceInfoLineIff(line: string)
    ensures IsRaceInfoLine(line) <==>
      !IsBlank(line) && exists k :: 1 <= k < |Unquoted(line)| && AllDigits(Unquoted(line)[..k]) && IsUpperAscii(Unquoted(line)[k])
  {
    LeadingDigitsThenUpper(Unquoted(line));
  }

  // ---------------------------------------------------------------------------------------------
  // Single lines

  /**
   * `ParseRaceInfoLine`: the race number (cell 0) must be digits and one uppercase letter, the
   * laps (cell 12) a decimal. A line with fewer than 13 cells has no laps field and fails.
   */
  function ParseRaceInfoLine(line: string, tokenize: Tokenizer): (r: Result<RaceInfo, string>)
    ensures r.Ok? ==> MatchesRaceNumber(r.value.raceNumber) && IsTrimmed(r.value.raceNumber) && IsTrimmed(r.value.raceTitle)
    ensures r.Ok? ==> |tokenize(line)| >= 13 && ParseDecimal(Trim(tokenize(line)[12])) == Some(r.value.laps)
                      && r.value.raceNumber == Trim(tokenize(line)[0]) && r.value.raceTitle == Trim(tokenize(line)[3])
    ensures IsBlank(line) ==> r.Err?
  {
    if IsBlank(line) then Err("Race info line cannot be null or empty.")
    else
      var cells := tokenize(line);
      if |cells| < 13 then Err("Error parsing EVT race info line: missing field. Line: " + line)
      else
        var raceNumber := Trim(cells[0]);
        TrimIsTrimmed(cells[0]);
        TrimIsTrimmed(cells[3]);
        if raceNumber == [] || !MatchesRaceNumber(raceNumber) then Err("Invalid race number format: " + raceNumber)
        else
          match ParseDecimal(Trim(cells[12]))
          case None => Err("Invalid number of laps format: " + cells[12])
          case Some(laps) => Ok(RaceInfo(raceNumber, Trim(cells[3]), laps))
  }

  /**
   * `ParseRacerLine`: a blank line is no racer; otherwise cells 1 and 2 must be `int` values, the
   * racer id and the lane. A line with fewer than 3 cells fails.
   */
  function ParseRacerLine(line: string, tokenize: Tokenizer): (r: Result<Option<RacerLine>, string>)
    ensures IsBlank(line) <==> r == Ok(None)
    ensures r.Ok? && r.value.Some? ==>
      |tokenize(line)| >= 3 && ParseInt32(Trim(tokenize(line)[1])) == Some(r.value.value.racerId)
      && ParseInt32(Trim(tokenize(line)[2])) == Some(r.value.value.lane)
    ensures !IsBlank(line) && |tokenize(line)| >= 3 && ParseInt32(Trim(tokenize(line)[1])).None? ==> r.Err?
    ensures !IsBlank(line) && |tokenize(line)| >= 3 && ParseInt32(Trim(tokenize(line)[2])).None? ==> r.Err?
  {
    if IsBlank(line) then Ok(None)
    else
      var cells := tokenize(line);
      if |cells| < 3 then Err("Error parsing EVT racer line: missing field. Line: " + line)
      else
        match ParseInt32(Trim(cells[1]))
        case None => Err("Invalid racer ID format: " + cells[1])
        case Some(racerId) =>
          match ParseInt32(Trim(cells[2]))
          case None => Err("Invalid lane format: " + cells[2])
          case Some(lane) => Ok(Some(RacerLine(racerId, lane)))
  }


  // ---------------------------------------------------------------------------------------------
  // How lines are read

  /**
   * The four ways the parser looks at a line. The grammar below is stated for any such reader;
   * `Evt` is the one the parser uses.
   */
  datatype LineReader = LineReader(
    isInfo: string -> bool,
    isPotential: string -> bool,
    info: string -> Result<RaceInfo, string>,
    racer: string -> Result<Option<RacerLine>, string>)

  function Evt(tokenize: Tokenizer): (rd: LineReader)
    ensures forall line :: rd.isInfo(line) == IsRaceInfoLine(line)
    ensures forall line :: rd.isPotential(line) == IsPotentialRaceInfoLine(line)
    ensures forall line :: rd.info(line) == ParseRaceInfoLine(line, tokenize)
    ensures forall line :: rd.racer(line) == ParseRacerLine(line, tokenize)
  {
    LineReader(IsRaceInfoLine, IsPotentialRaceInfoLine,
      line => ParseRaceInfoLine(line, tokenize), line => ParseRacerLine(line, tokenize))
  }

  // ---------------------------------------------------------------------------------------------
  // One race

  /** The index of the first race-info line from `j` on, or the end of the lines. */
  function NextRaceInfo(lines: seq<string>, j: nat, isInfo: string -> bool): (k: nat)
    requires j <= |lines|
    ensures j <= k <= |lines|
    ensures k == |lines| || isInfo(lines[k])
    ensures forall m :: j <= m < k ==> !isInfo(lines[m])
    decreases |lines| - j
  {
    if j == |lines| || isInfo(lines[j]) then j else NextRaceInfo(lines, j + 1, isInfo)
  }

  lemma NextRaceInfoAt(lines: seq<string>, j: nat, k: nat, isInfo: string -> bool)
    requires j <= k <= |lines| && (k == |lines| || isInfo(lines[k]))
    requires forall m :: j <= m < k ==> !isInfo(lines[m])
    ensures NextRaceInfo(lines, j, isInfo) == k
  {
  }

  /** The racer map of racer lines read in order: the last line of a racer id gives its lane. */
  function RacerEntries(ls: seq<string>, racer: string -> Result<Option<RacerLine>, string>): Result<map<int, int>, string> {
    if ls == [] then Ok(map[])
    else
      var m :- RacerEntries(ls[..|ls| - 1], racer);
      var racerLine :- racer(ls[|ls| - 1]);
      Ok(if racerLine.Some? then m[racerLine.value.racerId := racerLine.value.lane] else m)
  }

  /** A failing prefix of racer lines is the failure of all of them. */
  lemma {:induction false} RacerEntriesPrefixErr(ls: seq<string>, k: nat, racer: string -> Result<Option<RacerLine>, string>)
    requires k <= |ls| && RacerEntries(ls[..k], racer).Err?
    ensures RacerEntries(ls, racer) == RacerEntries(ls[..k], racer)
    decreases |ls|
  {
    if k < |ls| {
      var p := ls[..|ls| - 1];
      assert p[..k] == ls[..k];
      RacerEntriesPrefixErr(p, k, racer);
    } else {
      assert ls[..k] == ls;
    }
  }

  /** One more racer line read. */
  lemma RacerEntriesStep(lines: seq<string>, start: nat, i: nat, racer: string -> Result<Option<RacerLine>, string>, racers: map<int, int>)
    requires start <= i < |lines| && RacerEntries(lines[start..i], racer) == Ok(racers)
    requires racer(lines[i]).Ok?
    ensures var racerLine := racer(lines[i]).value;
      RacerEntries(lines[start..i + 1], racer)
        == Ok(if racerLine.Some? then racers[racerLine.value.racerId := racerLine.value.lane] else racers)
  {
    assert lines[start..i + 1][..i - start] == lines[start..i];
    assert lines[start..i + 1][i - start] == lines[i];
  }

  /** A racer line that fails before the next race-info line fails the race's racer lines. */
  lemma RacerEntriesStepErr(lines: seq<string>, start: nat, i: nat, rd: LineReader)
    requires start <= i < |lines| && RacerEntries(lines[start..i], rd.racer).Ok?
    requires forall m :: start <= m <= i ==> !rd.isInfo(lines[m])
    requires rd.racer(lines[i]).Err?
    ensures RacerEntries(lines[start..NextRaceInfo(lines, start, rd.isInfo)], rd.racer) == Err(rd.racer(lines[i]).error)
  {
    var next := NextRaceInfo(lines, start, rd.isInfo);
    assert lines[start..i + 1][..i - start] == lines[start..i];
    assert lines[start..i + 1][i - start] == lines[i];
    assert lines[start..next][..i + 1 - start] == lines[start..i + 1];
    RacerEntriesPrefixErr(lines[start..next], i + 1 - start, rd.racer);
  }

  /** `ParseRaceFromLines`, the value it computes. */
  function RaceAt(lines: seq<string>, i: nat, rd: LineReader): Result<Race, string>
    requires i < |lines|
  {
    var info :- rd.info(lines[i]);
    var racers :- RacerEntries(lines[i + 1..NextRaceInfo(lines, i + 1, rd.isInfo)], rd.racer);
    Ok(Race(info.raceNumber, info.raceTitle, info.laps, racers))
  }

  /**
   * The inner loop of `ParseRaceFromLines`: the racer lines from `start` up to the next race-info
   * line, each setting its racer's lane.
   */
  method ReadRacers(lines: seq<string>, start: nat, rd: LineReader) returns (r: Result<map<int, int>, string>)
    requires start <= |lines|
    ensures r == RacerEntries(lines[start..NextRaceInfo(lines, start, rd.isInfo)], rd.racer)
  {
    var racers: map<int, int> := map[];
    var i := start;
    while i < |lines|
      invariant start <= i <= |lines|
      invariant forall m :: start <= m < i ==> !rd.isInfo(lines[m])
      invariant RacerEntries(lines[start..i], rd.racer) == Ok(racers)
    {
      if rd.isInfo(lines[i]) {
        break;
      }
      var racerLine := rd.racer(lines[i]);
      if racerLine.Err? {
        RacerEntriesStepErr(lines, start, i, rd);
        return Err(racerLine.error);
      }
      RacerEntriesStep(lines, start, i, rd.racer, racers);
      if racerLine.value.Some? {
        racers := racers[racerLine.value.value.racerId := racerLine.value.value.lane];
      }
      i := i + 1;
    }
    NextRaceInfoAt(lines, start, i, rd.isInfo);
    r := Ok(racers);
  }

  /**
   * `ParseRaceFromLines`: the info line, then the racer lines up to the next race-info line, each
   * racer line setting its racer's lane.
   */
  method ParseRaceFromLines(lines: seq<string>, raceInfoLineIndex: nat, rd: LineReader)
    returns (r: Result<Race, string>)
    requires raceInfoLineIndex < |lines|
    ensures r == RaceAt(lines, raceInfoLineIndex, rd)
  {
    var raceInfo :- rd.info(lines[raceInfoLineIndex]);
    var racers :- ReadRacers(lines, raceInfoLineIndex + 1, rd);
    r := Ok(Race(raceInfo.raceNumber, raceInfo.raceTitle, raceInfo.laps, racers));
  }

  // ---------------------------------------------------------------------------------------------
  // The whole list

  /** `r` with `p` in front of its races. */
  function Prepend(p: seq<Race>, r: Result<seq<Race>, string>): (q: Result<seq<Race>, string>)
    ensures q.Ok? <==> r.Ok?
    ensures q.Ok? ==> q.value == p + r.value
    ensures q.Err? ==> q == r
  {
    match r
    case Ok(v) => Ok(p + v)
    case Err(e) => Err(e)
  }

  lemma PrependPrepend(p: seq<Race>, q: seq<Race>, r: Result<seq<Race>, string>)
    ensures Prepend(p, Prepend(q, r)) == Prepend(p + q, r)
  {
    if r.Ok? {
      assert p + (q + r.value) == (p + q) + r.value;
    }
  }

  lemma PrependNil(r: Result<seq<Race>, string>)
    ensures Prepend([], r) == r
  {
    if r.Ok? {
      assert [] + r.value == r.value;
    }
  }

  /** The races of the lines from `i` on, in file order; the first malformed line gives the error. */
  function RacesFrom(lines: seq<string>, i: nat, rd: LineReader): Result<seq<Race>, string>
    requires i <= |lines|
    decreases |lines| - i
  {
    if i == |lines| then Ok([])
    else if rd.isInfo(lines[i]) then
      var race :- RaceAt(lines, i, rd);
      Prepend([race], RacesFrom(lines, i + 1, rd))
    else if rd.isPotential(lines[i]) then Err("Invalid race info line format. Line: " + lines[i])
    else RacesFrom(lines, i + 1, rd)
  }

  /** `ParseAsync`, the value it computes: the races of the list, sorted by race number. */
  function ParseEvt(lines: seq<string>, tokenize: Tokenizer): Result<seq<Race>, string> {
    var races :- RacesFrom(lines, 0, Evt(tokenize));
    OrderByComparer(races)
  }

  /** The loop of `ParseAsync`: every line is visited; a race-info line reads its race. */
  method ReadRaces(lines: seq<string>, rd: LineReader) returns (r: Result<seq<Race>, string>)
    ensures r == RacesFrom(lines, 0, rd)
  {
    var races: seq<Race> := [];
    var i := 0;
    PrependNil(RacesFrom(lines, 0, rd));
    while i < |lines|
      invariant 0 <= i <= |lines|
      invariant RacesFrom(lines, 0, rd) == Prepend(races, RacesFrom(lines, i, rd))
    {
      var line := lines[i];
      if rd.isInfo(line) {
        var race :- ParseRaceFromLines(lines, i, rd);
        PrependPrepend(races, [race], RacesFrom(lines, i + 1, rd));
        races := races + [race];
      } else if rd.isPotential(line) {
        return Err("Invalid race info line format. Line: " + line);
      }
      i := i + 1;
    }
    assert races + [] == races;
    r := Ok(races);
  }

  /** `ParseAsync`: the races of the list in file order, then sorted by race number. */
  method ParseAsync(lines: seq<string>, tokenize: Tokenizer) returns (r: Result<seq<Race>, string>)
    ensures r == ParseEvt(lines, tokenize)
  {
    var races :- ReadRaces(lines, Evt(tokenize));
    r := OrderByComparer(races);
  }

  // ---------------------------------------------------------------------------------------------
  // Properties

  lemma ParseEvtEmpty(tokenize: Tokenizer)
    ensures ParseEvt([], tokenize) == Ok([])
  {
  }

  /** The races come out as a permutation of the races of the file, in comparer order. */
  lemma ParseEvtSorted(lines: seq<string>, tokenize: Tokenizer)
    requires ParseEvt(lines, tokenize).Ok?
    ensures RacesFrom(lines, 0, Evt(tokenize)).Ok?
    ensures var s := ParseEvt(lines, tokenize).value;
      && multiset(s) == multiset(RacesFrom(lines, 0, Evt(tokenize)).value)
      && forall i, j :: 0 <= i < j < |s| ==>
           Compare(Some(s[i]), Some(s[j])).Ok? && Compare(Some(s[i]), Some(s[j])).value <= 0
  {
    OrderByComparerSorted(RacesFrom(lines, 0, Evt(tokenize)).value);
  }

  /** A line that looks like a race-info line without being one fails the parse. */
  lemma {:induction false} PotentialLineFails(lines: seq<string>, i: nat, j: nat, rd: LineReader)
    requires i <= j < |lines| && !rd.isInfo(lines[j]) && rd.isPotential(lines[j])
    ensures RacesFrom(lines, i, rd).Err?
    decreases j - i
  {
    if i < j {
      PotentialLineFails(lines, i + 1, j, rd);
    }
  }

  /** A race that cannot be read fails the parse. */
  lemma {:induction false} BadRaceFails(lines: seq<string>, i: nat, j: nat, rd: LineReader)
    requires i <= j < |lines| && rd.isInfo(lines[j]) && RaceAt(lines, j, rd).Err?
    ensures RacesFrom(lines, i, rd).Err?
    decreases j - i
  {
    if i < j {
      BadRaceFails(lines, i + 1, j, rd);
    }
  }

  /** A failing racer line fails its racer lines. */
  lemma {:induction false} RacerEntriesFail(ls: seq<string>, t: nat, racer: string -> Result<Option<RacerLine>, string>)
    requires t < |ls| && racer(ls[t]).Err?
    ensures RacerEntries(ls, racer).Err?
    decreases |ls|
  {
    if t < |ls| - 1 {
      RacerEntriesFail(ls[..|ls| - 1], t, racer);
    }
  }

  /**
   * A malformed line fails the races of the list: a line that looks like a race-info line without
   * being one, a race-info line that does not read, or a racer line that does not read between a
   * race-info line and the next one.
   */
  lemma MalformedLineFails(lines: seq<string>, rd: LineReader, i: nat, t: nat)
    requires i <= t < |lines|
    requires || (i == t && !rd.isInfo(lines[t]) && rd.isPotential(lines[t]))
             || (i == t && rd.isInfo(lines[t]) && rd.info(lines[t]).Err?)
             || (i < t && rd.isInfo(lines[i]) && (forall m :: i < m <= t ==> !rd.isInfo(lines[m])) && rd.racer(lines[t]).Err?)
    ensures RacesFrom(lines, 0, rd).Err?
  {
    if i == t && !rd.isInfo(lines[t]) {
      PotentialLineFails(lines, 0, t, rd);
    } else if i == t {
      BadRaceFails(lines, 0, t, rd);
    } else {
      RacerLineFails(lines, rd, i, t);
    }
  }

  /** A racer line that does not read, between a race-info line and the next one, fails the races of the list. */
  lemma RacerLineFails(lines: seq<string>, rd: LineReader, i: nat, t: nat)
    requires i < t < |lines| && rd.isInfo(lines[i]) && (forall m :: i < m <= t ==> !rd.isInfo(lines[m]))
    requires rd.racer(lines[t]).Err?
    ensures RacesFrom(lines, 0, rd).Err?
  {
    var next := NextRaceInfo(lines, i + 1, rd.isInfo);
    var seg := lines[i + 1..next];
    assert seg[t - (i + 1)] == lines[t];
    RacerEntriesFail(seg, t - (i + 1), rd.racer);
    BadRaceFails(lines, 0, i, rd);
  }

  /** A racer line whose racer id or lane is not an `int`, inside a race, fails the parse. */
  lemma BadRacerLineFails(lines: seq<string>, tokenize: Tokenizer, i: nat, t: nat)
    requires i < t < |lines| && IsRaceInfoLine(lines[i]) && forall m :: i < m <= t ==> !IsRaceInfoLine(lines[m])
    requires !IsBlank(lines[t]) && |tokenize(lines[t])| >= 3
    requires ParseInt32(Trim(tokenize(lines[t])[1])).None? || ParseInt32(Trim(tokenize(lines[t])[2])).None?
    ensures ParseEvt(lines, tokenize).Err?
  {
    EvtRacerFails(lines[t], tokenize);
    EvtRacerLineFails(lines, tokenize, i, t);
    ParseEvtFails(lines, tokenize);
  }

  lemma EvtRacerLineFails(lines: seq<string>, tokenize: Tokenizer, i: nat, t: nat)
    requires i < t < |lines| && IsRaceInfoLine(lines[i]) && forall m :: i < m <= t ==> !IsRaceInfoLine(lines[m])
    requires Evt(tokenize).racer(lines[t]).Err?
    ensures RacesFrom(lines, 0, Evt(tokenize)).Err?
  {
    EvtReadsInfoLines(lines, tokenize, i, t);
    RacerLineFails(lines, Evt(tokenize), i, t);
  }

  lemma EvtReadsInfoLines(lines: seq<string>, tokenize: Tokenizer, i: nat, t: nat)
    requires i < t < |lines| && IsRaceInfoLine(lines[i]) && forall m :: i < m <= t ==> !IsRaceInfoLine(lines[m])
    ensures Evt(tokenize).isInfo(lines[i]) && forall m :: i < m <= t ==> !Evt(tokenize).isInfo(lines[m])
  {
  }

  lemma EvtRacerFails(line: string, tokenize: Tokenizer)
    requires !IsBlank(line) && |tokenize(line)| >= 3
    requires ParseInt32(Trim(tokenize(line)[1])).None? || ParseInt32(Trim(tokenize(line)[2])).None?
    ensures Evt(tokenize).racer(line).Err?
  {
  }

  /** The races of the lines failing fails the parse. */
  lemma ParseEvtFails(lines: seq<string>, tokenize: Tokenizer)
    requires RacesFrom(lines, 0, Evt(tokenize)).Err?
    ensures ParseEvt(lines, tokenize).Err?
  {
  }

  /** A race-info line whose race number or laps do not read fails the parse. */
  lemma BadRaceInfoLineFails(lines: seq<string>, tokenize: Tokenizer, t: nat)
    requires t < |lines| && IsRaceInfoLine(lines[t]) && ParseRaceInfoLine(lines[t], tokenize).Err?
    ensures ParseEvt(lines, tokenize).Err?
  {
    MalformedLineFails(lines, Evt(tokenize), t, t);
  }

  /** A line with 13 or more comma-separated pieces that is not a race-info line fails the parse. */
  lemma PotentialRaceInfoLineFails(lines: seq<string>, tokenize: Tokenizer, t: nat)
    requires t < |lines| && !IsRaceInfoLine(lines[t]) && IsPotentialRaceInfoLine(lines[t])
    ensures ParseEvt(lines, tokenize).Err?
  {
    MalformedLineFails(lines, Evt(tokenize), t, t);
  }

  /** Some racer line names racer `id`. */
  ghost predicate NamesRacer(ls: seq<string>, racer: string -> Result<Option<RacerLine>, string>, id: int) {
    exists t :: 0 <= t < |ls| && racer(ls[t]).Ok? && racer(ls[t]).value.Some? && racer(ls[t]).value.value.racerId == id
  }

  /** The racer map gives a racer the lane of the last line that names it. */
  lemma {:induction false} RacerEntriesLastWins(ls: seq<string>, racer: string -> Result<Option<RacerLine>, string>, id: int, t: nat)
    requires RacerEntries(ls, racer).Ok? && t < |ls|
    requires racer(ls[t]).Ok? && racer(ls[t]).value.Some? && racer(ls[t]).value.value.racerId == id
    requires forall u :: t < u < |ls| && racer(ls[u]).Ok? && racer(ls[u]).value.Some? ==> racer(ls[u]).value.value.racerId != id
    ensures id in RacerEntries(ls, racer).value
    ensures RacerEntries(ls, racer).value[id] == racer(ls[t]).value.value.lane
    decreases |ls|
  {
    var p := ls[..|ls| - 1];
    if t < |ls| - 1 {
      forall u | t < u < |p| && racer(p[u]).Ok? && racer(p[u]).value.Some?
        ensures racer(p[u]).value.value.racerId != id
      {
        assert p[u] == ls[u];
      }
      assert p[t] == ls[t];
      RacerEntriesLastWins(p, racer, id, t);
    }
  }

  /** Only racers that some line names are in the racer map. */
  lemma {:induction false} RacerEntriesKeys(ls: seq<string>, racer: string -> Result<Option<RacerLine>, string>, id: int)
    requires RacerEntries(ls, racer).Ok? && id in RacerEntries(ls, racer).value
    ensures NamesRacer(ls, racer, id)
    decreases |ls|
  {
    var p := ls[..|ls| - 1];
    var last := racer(ls[|ls| - 1]);
    assert RacerEntries(p, racer).Ok? && last.Ok?;
    if last.value.Some? && last.value.value.racerId == id {
      assert 0 <= |ls| - 1 < |ls|;
    } else {
      RacerEntriesKeys(p, racer, id);
      var t :| 0 <= t < |p| && racer(p[t]).Ok? && racer(p[t]).value.Some? && racer(p[t]).value.value.racerId == id;
      assert ls[t] == p[t];
    }
  }

  /**
   * A parsed race has a trimmed valid race number and a trimmed title from its info line, and its
   * racers come from the lines strictly between its info line and the next one.
   */
  lemma RaceAtFields(lines: seq<string>, i: nat, tokenize: Tokenizer)
    requires i < |lines| && RaceAt(lines, i, Evt(tokenize)).Ok?
    ensures var race := RaceAt(lines, i, Evt(tokenize)).value;
      var next := NextRaceInfo(lines, i + 1, IsRaceInfoLine);
      && MatchesRaceNumber(race.raceNumber) && IsTrimmed(race.raceNumber) && IsTrimmed(race.raceTitle)
      && ParseRaceInfoLine(lines[i], tokenize) == Ok(RaceInfo(race.raceNumber, race.raceTitle, race.laps))
      && RacerEntries(lines[i + 1..next], Evt(tokenize).racer) == Ok(race.racers)
      && (next == i + 1 ==> race.racers == map[])
  {
    var rd := Evt(tokenize);
    assert rd.isInfo == IsRaceInfoLine;
    var info := ParseRaceInfoLine(lines[i], tokenize);
    assert rd.info(lines[i]) == info;
  }

  // ---------------------------------------------------------------------------------------------
  // Lines before the first race

  lemma {:induction false} NextRaceInfoShift(junk: seq<string>, lines: seq<string>, j: nat, isInfo: string -> bool)
    requires j <= |lines|
    ensures NextRaceInfo(junk + lines, |junk| + j, isInfo) == |junk| + NextRaceInfo(lines, j, isInfo)
    decreases |lines| - j
  {
    if j < |lines| {
      assert (junk + lines)[|junk| + j] == lines[j];
      if !isInfo(lines[j]) {
        NextRaceInfoShift(junk, lines, j + 1, isInfo);
      }
    }
  }

  lemma RaceAtShift(junk: seq<string>, lines: seq<string>, i: nat, rd: LineReader)
    requires i < |lines|
    ensures RaceAt(junk + lines, |junk| + i, rd) == RaceAt(lines, i, rd)
  {
    var all := junk + lines;
    NextRaceInfoShift(junk, lines, i + 1, rd.isInfo);
    var k := NextRaceInfo(lines, i + 1, rd.isInfo);
    assert all[|junk| + i] == lines[i];
    assert all[|junk| + i + 1..|junk| + k] == lines[i + 1..k];
  }

  lemma {:induction false} RacesFromShift(junk: seq<string>, lines: seq<string>, i: nat, rd: LineReader)
    requires i <= |lines|
    ensures RacesFrom(junk + lines, |junk| + i, rd) == RacesFrom(lines, i, rd)
    decreases |lines| - i
  {
    if i < |lines| {
      assert (junk + lines)[|junk| + i] == lines[i];
      RacesFromShift(junk, lines, i + 1, rd);
      if rd.isInfo(lines[i]) {
        RaceAtShift(junk, lines, i, rd);
      }
    }
  }

  lemma {:induction false} RacesFromSkip(all: seq<string>, i: nat, k: nat, rd: LineReader)
    requires i <= k <= |all|
    requires forall m :: i <= m < k ==> !rd.isInfo(all[m]) && !rd.isPotential(all[m])
    ensures RacesFrom(all, i, rd) == RacesFrom(all, k, rd)
    decreases k - i
  {
    if i < k {
      RacesFromSkip(all, i + 1, k, rd);
    }
  }

  /**
   * Lines before the first race that look like neither a race-info line nor a malformed one
   * change nothing.
   */
  lemma LeadingLinesIgnored(junk: seq<string>, lines: seq<string>, tokenize: Tokenizer)
    requires forall m :: 0 <= m < |junk| ==> !IsRaceInfoLine(junk[m]) && !IsPotentialRaceInfoLine(junk[m])
    ensures ParseEvt(junk + lines, tokenize) == ParseEvt(lines, tokenize)
  {
    var rd := Evt(tokenize);
    var all := junk + lines;
    forall m | 0 <= m < |junk| ensures !rd.isInfo(all[m]) && !rd.isPotential(all[m]) {
      assert all[m] == junk[m];
    }
    RacesFromSkip(all, 0, |junk|, rd);
    RacesFromShift(junk, lines, 0, rd);
  }
}
