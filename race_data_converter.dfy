/**
 * `RaceDataConverter`: the races of an export become races of the race list. A race whose race
 * parameters name no distance has no lap count and is dropped; a racer entry whose lane or racer
 * id does not read is skipped.
 */
module RaceDataConverter {
  import opened Wrappers
  import opened Text
  import opened Numbers
  import opened LapCalculator
  import opened GcpvModels
  import opened Races

  // ---------------------------------------------------------------------------------------------
  // Racer ids

  /**
   * `TryParseRacerId`: the racer field is "{racer id} {last name},{first name}"; the id is the
   * text before the first space, which must be there and not be the first character.
   */
  function TryParseRacerId(racerField: string): (r: Option<int>)
    ensures r.Some? ==> IsInt32(r.value)
    ensures IsBlank(racerField) || ' ' !in racerField || racerField[0] == ' ' ==> r.None?
  {
    if IsBlank(racerField) then None
    else
      match IndexOf(racerField, ' ')
      case None => None
      case Some(k) => if k == 0 then None else ParseInt32(Trim(racerField[..k]))
  }

  /** The id written by `Int32.ToString()`, a space and any name: the id is read back. */
  lemma TryParseRacerIdOfText(id: int, name: string)
    requires IsInt32(id)
    ensures TryParseRacerId(IntToString(id) + " " + name) == Some(id)
  {
    var s := IntToString(id);
    var field := s + " " + name;
    assert |s| >= 1 && ' ' !in s && s[0] != ' ' && !IsWhiteSpace(s[0]) && !IsWhiteSpace(s[|s| - 1]) by {
      if id < 0 {
        assert s == "-" + NatToString(-id);
      }
      assert forall i :: 0 <= i < |s| ==> s[i] == '-' || IsDigit(s[i]);
    }
    assert field[..|s|] == s && field[|s|] == ' ';
    assert !IsBlank(field) by {
      assert field[0] == s[0];
    }
    assert IndexOf(field, ' ') == Some(|s|) by {
      assert field[..|s|] == s;
    }
    TrimOfTrimmed(s);
    ParseIntToString(id);
  }

  /** The id is the value of the trimmed text before the first space. */
  lemma TryParseRacerIdSome(racerField: string)
    requires TryParseRacerId(racerField).Some?
    ensures exists k :: 1 <= k < |racerField| && racerField[k] == ' ' && ' ' !in racerField[..k]
                        && ParseInt32(Trim(racerField[..k])) == TryParseRacerId(racerField)
  {
    var k := IndexOf(racerField, ' ').value;
    assert 1 <= k < |racerField| && racerField[k] == ' ' && ' ' !in racerField[..k];
  }

  // ---------------------------------------------------------------------------------------------
  // One race

  /** The lane and racer id of a racer entry, when both read. */
  function EntryOf(racer: GcpvRacerData): Option<(int, int)> {
    match ParseInt32(racer.lane)
    case None => None
    case Some(lane) =>
      match TryParseRacerId(racer.racer)
      case None => None
      case Some(id) => Some((id, lane))
  }

  /**
   * The racer map of the entries read in order by `entry` (`EntryOf` in the converter); an entry
   * that does not read is skipped.
   */
  function RacersOfEntries(racers: seq<GcpvRacerData>, entry: GcpvRacerData -> Option<(int, int)>): map<int, int> {
    if racers == [] then map[]
    else
      var m := RacersOfEntries(racers[..|racers| - 1], entry);
      match entry(racers[|racers| - 1])
      case None => m
      case Some(e) => m[e.0 := e.1]
  }

  /** The title "RaceGroup (TrackParams) Stage". */
  function EventTitle(g: GcpvRaceData): string {
    g.raceGroup + " (" + g.trackParams + ") " + g.stage
  }

  /** `ConvertGcpvRaceToRace`, the value it computes: no laps is a failure. */
  function ConvertRace(g: GcpvRaceData): (r: Result<Race, string>)
    ensures r.Ok? <==> CalculateLapsFromText(g.trackParams) > 0
    ensures r.Ok? ==> r.value.raceNumber == g.raceNumber && r.value.raceTitle == EventTitle(g)
                      && SameValue(r.value.laps, Decimal(CalculateLapsFromText(g.trackParams), 1))
                      && r.value.racers == RacersOfEntries(g.racers, EntryOf)
  {
    var laps := CalculateLapsFromText(g.trackParams);
    if laps <= 0 then
      Err("Could not determine number of laps for race " + g.raceNumber + " with track params: " + g.trackParams)
    else
      Ok(Race(g.raceNumber, EventTitle(g), TenthsToDecimal(laps), RacersOfEntries(g.racers, EntryOf)))
  }

  /**
   * The `for` loop of `ConvertGcpvRaceToRace`: the racers one by one; an entry whose lane or racer
   * id does not read is skipped, and a later entry for the same racer wins.
   */
  method ReadRacers(entries: seq<GcpvRacerData>) returns (racers: map<int, int>)
    ensures racers == RacersOfEntries(entries, EntryOf)
  {
    racers := map[];
    for i := 0 to |entries|
      invariant racers == RacersOfEntries(entries[..i], EntryOf)
    {
      var racer := entries[i];
      assert entries[..i + 1][..i] == entries[..i];
      var laneNumber := ParseInt32(racer.lane);
      if laneNumber.None? {
        continue;
      }
      var racerId := TryParseRacerId(racer.racer);
      if racerId.None? {
        continue;
      }
      racers := racers[racerId.value := laneNumber.value];
    }
    assert entries[..|entries|] == entries;
  }

  /** `ConvertGcpvRaceToRace`: the lap count, the title, then the racers. */
  method ConvertGcpvRaceToRace(g: GcpvRaceData) returns (r: Result<Race, string>)
    ensures r == ConvertRace(g)
  {
    var numberOfLaps := CalculateLapsFromText(g.trackParams);
    if numberOfLaps <= 0 {
      return Err("Could not determine number of laps for race " + g.raceNumber + " with track params: " + g.trackParams);
    }
    var eventTitle := g.raceGroup + " (" + g.trackParams + ") " + g.stage;
    var racers := ReadRacers(g.racers);
    r := Ok(Race(g.raceNumber, eventTitle, TenthsToDecimal(numberOfLaps), racers));
  }

  /** A race converts exactly when its race parameters are not blank and name a distance. */
  lemma ConvertRaceOkIff(g: GcpvRaceData)
    ensures ConvertRace(g).Ok? <==> !IsBlank(g.trackParams) && FirstDistanceIn(g.trackParams, Distances).Some?
  {
    LapsPositiveIffDistanceFound(g.trackParams);
  }

  /** An entry names racer `id`. */
  ghost predicate NamesRacer(racers: seq<GcpvRacerData>, entry: GcpvRacerData -> Option<(int, int)>, id: int) {
    exists t :: 0 <= t < |racers| && entry(racers[t]).Some? && entry(racers[t]).value.0 == id
  }

  /** A racer is in the map exactly when an entry that reads names it. */
  lemma {:induction false} RacersOfEntriesKeys(racers: seq<GcpvRacerData>, entry: GcpvRacerData -> Option<(int, int)>, id: int)
    ensures id in RacersOfEntries(racers, entry) <==> NamesRacer(racers, entry, id)
    decreases |racers|
  {
    if racers != [] {
      var p := racers[..|racers| - 1];
      var last := |racers| - 1;
      RacersOfEntriesKeys(p, entry, id);
      if NamesRacer(p, entry, id) {
        var t :| 0 <= t < |p| && entry(p[t]).Some? && entry(p[t]).value.0 == id;
        assert racers[t] == p[t];
      }
      if NamesRacer(racers, entry, id) && !(entry(racers[last]).Some? && entry(racers[last]).value.0 == id) {
        var t :| 0 <= t < |racers| && entry(racers[t]).Some? && entry(racers[t]).value.0 == id;
        assert t < last && p[t] == racers[t];
      }
    }
  }

  /** A racer's lane is the lane of the last entry that names it. */
  lemma {:induction false} RacersOfEntriesLastWins(racers: seq<GcpvRacerData>, entry: GcpvRacerData -> Option<(int, int)>, id: int, t: nat)
    requires t < |racers| && entry(racers[t]).Some? && entry(racers[t]).value.0 == id
    requires forall u :: t < u < |racers| && entry(racers[u]).Some? ==> entry(racers[u]).value.0 != id
    ensures id in RacersOfEntries(racers, entry) && RacersOfEntries(racers, entry)[id] == entry(racers[t]).value.1
    decreases |racers|
  {
    var p := racers[..|racers| - 1];
    if t < |racers| - 1 {
      forall u | t < u < |p| && entry(p[u]).Some? ensures entry(p[u]).value.0 != id {
        assert p[u] == racers[u];
      }
      assert p[t] == racers[t];
      RacersOfEntriesLastWins(p, entry, id, t);
    }
  }

  /** The map holds at most one racer per entry. */
  lemma {:induction false} RacersOfEntriesSize(racers: seq<GcpvRacerData>, entry: GcpvRacerData -> Option<(int, int)>)
    ensures |RacersOfEntries(racers, entry)| <= |racers|
    decreases |racers|
  {
    if racers != [] {
      RacersOfEntriesSize(racers[..|racers| - 1], entry);
    }
  }

  // ---------------------------------------------------------------------------------------------
  // All races

  /**
   * `ConvertGcpvRacesToRaces`, the value it computes: the races that `convert` (`ConvertRace` in
   * the converter) turns out, in input order; the failures are left out.
   */
  function ConvertAll(gs: seq<GcpvRaceData>, convert: GcpvRaceData -> Result<Race, string>): (r: seq<Race>)
    ensures |r| <= |gs|
  {
    if gs == [] then []
    else
      var races := ConvertAll(gs[..|gs| - 1], convert);
      match convert(gs[|gs| - 1])
      case Err(_) => races
      case Ok(race) => races + [race]
  }

  /**
   * `ConvertGcpvRacesToRaces`: every race is converted; one that fails is left out and the others
   * go on.
   */
  method ConvertGcpvRacesToRaces(gcpvRaces: seq<GcpvRaceData>) returns (races: seq<Race>)
    ensures races == ConvertAll(gcpvRaces, ConvertRace)
  {
    races := [];
    for i := 0 to |gcpvRaces|
      invariant races == ConvertAll(gcpvRaces[..i], ConvertRace)
    {
      var race := ConvertGcpvRaceToRace(gcpvRaces[i]);
      races := AppendConverted(races, gcpvRaces, i, race);
    }
    assert gcpvRaces[..|gcpvRaces|] == gcpvRaces;
  }

  /** One more race converted: kept when it converts, left out when it fails. */
  function AppendConverted(races: seq<Race>, gs: seq<GcpvRaceData>, i: nat, race: Result<Race, string>): (r: seq<Race>)
    requires i < |gs| && races == ConvertAll(gs[..i], ConvertRace) && race == ConvertRace(gs[i])
    ensures r == ConvertAll(gs[..i + 1], ConvertRace)
  {
    assert gs[..i + 1][..i] == gs[..i];
    if race.Ok? then races + [race.value] else races
  }

  /** The number of races that convert. */
  function Converting(gs: seq<GcpvRaceData>, convert: GcpvRaceData -> Result<Race, string>): nat {
    if gs == [] then 0
    else Converting(gs[..|gs| - 1], convert) + (if convert(gs[|gs| - 1]).Ok? then 1 else 0)
  }

  /**
   * Every output race is the conversion of an input race, and there is one for each input race
   * that converts.
   */
  lemma {:induction false} ConvertAllFaithful(gs: seq<GcpvRaceData>, convert: GcpvRaceData -> Result<Race, string>)
    ensures |ConvertAll(gs, convert)| == Converting(gs, convert)
    ensures forall j :: 0 <= j < |ConvertAll(gs, convert)| ==>
      exists i :: 0 <= i < |gs| && convert(gs[i]) == Ok(ConvertAll(gs, convert)[j])
  {
    if gs != [] {
      var p := gs[..|gs| - 1];
      ConvertAllFaithful(p, convert);
      var r := ConvertAll(gs, convert);
      forall j | 0 <= j < |r| ensures exists i :: 0 <= i < |gs| && convert(gs[i]) == Ok(r[j]) {
        if j < |ConvertAll(p, convert)| {
          var i :| 0 <= i < |p| && convert(p[i]) == Ok(ConvertAll(p, convert)[j]);
          assert gs[i] == p[i];
        } else {
          assert convert(gs[|gs| - 1]) == Ok(r[j]);
        }
      }
    }
  }

  /** The output keeps input order: races from earlier inputs come first. */
  lemma {:induction false} ConvertAllAppend(gs: seq<GcpvRaceData>, hs: seq<GcpvRaceData>, convert: GcpvRaceData -> Result<Race, string>)
    ensures ConvertAll(gs + hs, convert) == ConvertAll(gs, convert) + ConvertAll(hs, convert)
    decreases |hs|
  {
    if hs == [] {
      assert gs + hs == gs;
    } else {
      var h := hs[..|hs| - 1];
      assert (gs + hs)[..|gs + hs| - 1] == gs + h;
      ConvertAllAppend(gs, h, convert);
    }
  }

  /** When every race converts, the output is the conversion of each input race, position by position. */
  lemma {:induction false} ConvertAllComplete(gs: seq<GcpvRaceData>, convert: GcpvRaceData -> Result<Race, string>)
    requires forall i :: 0 <= i < |gs| ==> convert(gs[i]).Ok?
    ensures |ConvertAll(gs, convert)| == |gs|
    ensures forall i :: 0 <= i < |gs| ==> convert(gs[i]) == Ok(ConvertAll(gs, convert)[i])
  {
    if gs != [] {
      var p := gs[..|gs| - 1];
      ConvertAllComplete(p, convert);
      forall i | 0 <= i < |gs| ensures convert(gs[i]) == Ok(ConvertAll(gs, convert)[i]) {
        if i < |p| {
          assert gs[i] == p[i];
        }
      }
    }
  }

  /** Races that do not convert contribute nothing. */
  lemma {:induction false} ConvertAllNone(gs: seq<GcpvRaceData>, convert: GcpvRaceData -> Result<Race, string>)
    requires forall i :: 0 <= i < |gs| ==> convert(gs[i]).Err?
    ensures ConvertAll(gs, convert) == []
  {
    if gs != [] {
      ConvertAllNone(gs[..|gs| - 1], convert);
    }
  }
}
