/**
 * The `Race` record: a race number, a title, a lap count and a map from racer id to lane.
 */
module Races {
  import opened Wrappers
  import opened Text
  import opened Numbers

  datatype Race = Race(raceNumber: string, raceTitle: string, laps: Decimal, racers: map<int, int>)

  /** Racer `a` comes no later than racer `b`: a lower lane, or the same lane and an id no larger. */
  predicate LaneBefore(m: map<int, int>, a: int, b: int)
    requires a in m && b in m
  {
    m[a] < m[b] || (m[a] == m[b] && a <= b)
  }

  /** `id` is the first racer of `m` in lane order. */
  predicate IsFirstInLane(m: map<int, int>, id: int) {
    id in m && forall j :: j in m ==> LaneBefore(m, id, j)
  }

  lemma {:induction false} FirstInLaneExists(m: map<int, int>)
    requires |m| > 0
    ensures exists id :: IsFirstInLane(m, id)
    decreases |m|
  {
    assert exists k :: k in m.Keys by {
      if forall k :: k !in m.Keys {
        assert false;
      }
    }
    var a :| a in m.Keys;
    var rest := m - {a};
    assert |rest| == |m| - 1;
    if |rest| == 0 {
      assert IsFirstInLane(m, a);
    } else {
      FirstInLaneExists(rest);
      var b :| IsFirstInLane(rest, b);
      if LaneBefore(m, a, b) {
        forall j | j in m ensures LaneBefore(m, a, j) {
          if j != a {
            assert j in rest && LaneBefore(rest, b, j);
          }
        }
        assert IsFirstInLane(m, a);
      } else {
        forall j | j in m ensures LaneBefore(m, b, j) {
          if j != a {
            assert j in rest && LaneBefore(rest, b, j);
          }
        }
        assert IsFirstInLane(m, b);
      }
    }
  }

  /** Racer `p` comes strictly before racer `q` in lane order. */
  predicate StrictlyBefore(p: (int, int), q: (int, int)) {
    p.1 < q.1 || (p.1 == q.1 && p.0 < q.0)
  }

  /**
   * The `(id, lane)` pairs of `m` in ascending lane order (equal lanes by ascending id): each
   * pair of the map exactly once, and nothing else.
   */
  function RacersByLane(m: map<int, int>): (r: seq<(int, int)>)
    ensures |r| == |m|
    ensures forall i :: 0 <= i < |r| ==> r[i].0 in m && m[r[i].0] == r[i].1
    ensures forall id :: id in m ==> (id, m[id]) in r
    ensures forall i, j :: 0 <= i < j < |r| ==> StrictlyBefore(r[i], r[j])
    decreases |m|
  {
    if |m| == 0 then []
    else
      FirstInLaneExists(m);
      var id :| IsFirstInLane(m, id);
      var m' := m - {id};
      var rest := RacersByLane(m');
      RacersByLaneStep(m, id, rest);
      [(id, m[id])] + rest
  }

  lemma RacersByLaneStep(m: map<int, int>, id: int, rest: seq<(int, int)>)
    requires IsFirstInLane(m, id)
    requires |rest| == |m - {id}|
    requires forall i :: 0 <= i < |rest| ==> rest[i].0 in m - {id} && (m - {id})[rest[i].0] == rest[i].1
    requires forall k :: k in m - {id} ==> (k, (m - {id})[k]) in rest
    requires forall i, j :: 0 <= i < j < |rest| ==> StrictlyBefore(rest[i], rest[j])
    ensures var r := [(id, m[id])] + rest;
      && |r| == |m|
      && (forall i :: 0 <= i < |r| ==> r[i].0 in m && m[r[i].0] == r[i].1)
      && (forall k :: k in m ==> (k, m[k]) in r)
      && (forall i, j :: 0 <= i < j < |r| ==> StrictlyBefore(r[i], r[j]))
  {
    assert |m - {id}| == |m| - 1;
    StepCovers(m, id, rest);
    StepOrdered(m, id, rest);
  }

  lemma StepCovers(m: map<int, int>, id: int, rest: seq<(int, int)>)
    requires id in m
    requires forall k :: k in m - {id} ==> (k, (m - {id})[k]) in rest
    ensures forall k :: k in m ==> (k, m[k]) in [(id, m[id])] + rest
  {
    forall k | k in m ensures (k, m[k]) in [(id, m[id])] + rest {
      if k != id {
        assert k in m - {id};
      }
    }
  }

  lemma StepOrdered(m: map<int, int>, id: int, rest: seq<(int, int)>)
    requires IsFirstInLane(m, id)
    requires forall i :: 0 <= i < |rest| ==> rest[i].0 in m - {id} && (m - {id})[rest[i].0] == rest[i].1
    requires forall i, j :: 0 <= i < j < |rest| ==> StrictlyBefore(rest[i], rest[j])
    ensures forall i, j :: 0 <= i < j < |rest| + 1 ==> StrictlyBefore(([(id, m[id])] + rest)[i], ([(id, m[id])] + rest)[j])
  {
    var r := [(id, m[id])] + rest;
    forall i, j | 0 <= i < j < |r| ensures StrictlyBefore(r[i], r[j]) {
      if i == 0 {
        assert r[j] == rest[j - 1];
        assert rest[j - 1].0 in m - {id};
        assert LaneBefore(m, id, rest[j - 1].0);
      } else {
        assert r[i] == rest[i - 1] && r[j] == rest[j - 1];
      }
    }
  }

  function RacerText(p: (int, int)): string {
    "Racer " + IntToString(p.0) + " in Lane " + IntToString(p.1)
  }

  function RacerTexts(ps: seq<(int, int)>): (r: seq<string>)
    ensures |r| == |ps| && forall i :: 0 <= i < |ps| ==> r[i] == RacerText(ps[i])
  {
    if ps == [] then [] else [RacerText(ps[0])] + RacerTexts(ps[1..])
  }

  /** `Race.ToString()`: the header, then every racer in lane order, separated by ", ". */
  function RaceToString(race: Race): string {
    "Race " + race.raceNumber + ": " + race.raceTitle + " (" + FormatDecimal(race.laps) + " laps) - "
    + Join(", ", RacerTexts(RacersByLane(race.racers)))
  }

  /** A race without racers ends with "- " and nothing after it. */
  lemma RaceToStringNoRacers(race: Race)
    requires race.racers == map[]
    ensures RaceToString(race)
         == "Race " + race.raceNumber + ": " + race.raceTitle + " (" + FormatDecimal(race.laps) + " laps) - "
  {
    assert RacersByLane(race.racers) == [];
  }

  /** Racer 12 in lane 1 is listed before racer 7 in lane 3. */
  lemma RacersByLaneTwo()
    ensures RacersByLane(map[7 := 3, 12 := 1]) == [(12, 1), (7, 3)]
  {
    var m := map[7 := 3, 12 := 1];
    var r := RacersByLane(m);
    assert (12, 1) in r && (7, 3) in r;
    assert |r| == 2 by {
      assert m.Keys == {7, 12};
    }
    var i :| 0 <= i < 2 && r[i] == (12, 1);
    var j :| 0 <= j < 2 && r[j] == (7, 3);
    assert i < j;
  }
}
