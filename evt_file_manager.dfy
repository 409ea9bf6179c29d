/**
 * `EvtFileManager`: the race store behind the race-list file. It keeps, for every source file
 * key, the races last read from that source; each update counts the incoming races as added,
 * updated or unchanged against every stored race, counts the source's earlier races that are no
 * longer there as removed, stores the incoming races under the key, and writes the races of all
 * sources, sorted by the race-number comparer, as the race-list text.
 */
module EvtFileManager {
  import opened Wrappers
  import opened Text
  import opened Numbers
  import opened Races
  import opened RaceNumberComparer
  import opened EvtWriter
  import Stats = RaceProcessingStats

  /** The key under which races read back from an existing race-list file are kept. */
  const UnknownSourceKey: string := "evt_file_races"

  // ---------------------------------------------------------------------------------------------
  // Race equality

  /** Two lap counts are the same number, whatever their scales. */
  lemma SameValueIsEquivalence(a: Decimal, b: Decimal, c: Decimal)
    ensures SameValue(a, a)
    ensures SameValue(a, b) ==> SameValue(b, a)
    ensures SameValue(a, b) && SameValue(b, c) ==> SameValue(a, c)
  {
    if SameValue(a, b) && SameValue(b, c) {
      var pa, pb, pc := Pow10(a.scale), Pow10(b.scale), Pow10(c.scale);
      calc {
        a.units * pc * pb;
        == { MulRotate(a.units, pb, pc); }
        (a.units * pb) * pc;
        == (b.units * pa) * pc;
        == { MulRotate(b.units, pa, pc); }
        (b.units * pc) * pa;
        == (c.units * pb) * pa;
        == { MulRotate(c.units, pb, pa); }
        c.units * pa * pb;
      }
      MulCancel(a.units * pc, c.units * pa, pb);
    }
  }

  lemma MulRotate(x: int, y: int, z: int)
    ensures x * z * y == (x * y) * z
  {
  }

  lemma MulCancel(x: int, y: int, z: int)
    requires z > 0 && x * z == y * z
    ensures x == y
  {
  }

  /**
   * `AreRacesEqual`: the same number, title and lap count, as many racers, and every racer of the
   * first race in the same lane in the second; that is, the same racer map.
   */
  function AreRacesEqual(a: Race, b: Race): (r: bool)
    ensures r <==> a.raceNumber == b.raceNumber && a.raceTitle == b.raceTitle && SameValue(a.laps, b.laps)
                   && a.racers == b.racers
  {
    var same := a.raceNumber == b.raceNumber && a.raceTitle == b.raceTitle && SameValue(a.laps, b.laps)
                && |a.racers| == |b.racers| && forall id :: id in a.racers ==> id in b.racers && b.racers[id] == a.racers[id];
    if same then SubmapOfSameSize(a.racers, b.racers); same else same
  }

  /** A map inside another of the same size is that map. */
  lemma SubmapOfSameSize(m: map<int, int>, n: map<int, int>)
    requires |m| == |n| && forall id :: id in m ==> id in n && n[id] == m[id]
    ensures m == n
  {
    assert m.Keys <= n.Keys by {
      forall id | id in m.Keys ensures id in n.Keys {
        assert id in m;
      }
    }
    SubsetOfSameSize(m.Keys, n.Keys);
    forall id | id in m ensures m[id] == n[id] {
    }
  }

  lemma SubsetOfSameSize(a: set<int>, b: set<int>)
    requires a <= b && |a| == |b|
    ensures a == b
  {
    var extra := b - a;
    assert b == a + extra;
    assert |b| == |a| + |extra|;
    assert extra == {};
  }

  /** Race equality is reflexive, symmetric and transitive. */
  lemma AreRacesEqualIsEquivalence(a: Race, b: Race, c: Race)
    ensures AreRacesEqual(a, a)
    ensures AreRacesEqual(a, b) ==> AreRacesEqual(b, a)
    ensures AreRacesEqual(a, b) && AreRacesEqual(b, c) ==> AreRacesEqual(a, c)
  {
    SameValueIsEquivalence(a.laps, b.laps, c.laps);
  }

  // ---------------------------------------------------------------------------------------------
  // Races by number, last one kept

  /** The races keyed by race number, a later race replacing an earlier one with the same number. */
  function LastByNumber(races: seq<Race>): (m: map<string, Race>)
    ensures forall n :: n in m ==> m[n].raceNumber == n
  {
    if races == [] then map[]
    else
      var last := races[|races| - 1];
      LastByNumber(races[..|races| - 1])[last.raceNumber := last]
  }

  /** Race `i` is the last race of `races` with its number. */
  predicate IsLastWithNumber(races: seq<Race>, i: int) {
    0 <= i < |races| && forall j :: i < j < |races| ==> races[j].raceNumber != races[i].raceNumber
  }

  /** The map holds exactly the numbers of the races. */
  lemma {:induction false} LastByNumberKeys(races: seq<Race>)
    ensures forall n :: n in LastByNumber(races) <==> exists i :: 0 <= i < |races| && races[i].raceNumber == n
    decreases |races|
  {
    if races != [] {
      var p, last := races[..|races| - 1], races[|races| - 1];
      LastByNumberKeys(p);
      forall n ensures n in LastByNumber(races) <==> exists i :: 0 <= i < |races| && races[i].raceNumber == n {
        if n in LastByNumber(p) && n != last.raceNumber {
          var i :| 0 <= i < |p| && p[i].raceNumber == n;
          assert races[i] == p[i];
        }
        if exists i :: 0 <= i < |races| && races[i].raceNumber == n {
          var i :| 0 <= i < |races| && races[i].raceNumber == n;
          if i < |p| {
            assert p[i] == races[i];
          }
        }
      }
    }
  }

  /** Each number is mapped to the last race carrying it. */
  lemma {:induction false} LastByNumberIsLast(races: seq<Race>, i: int)
    requires IsLastWithNumber(races, i)
    ensures races[i].raceNumber in LastByNumber(races) && LastByNumber(races)[races[i].raceNumber] == races[i]
    decreases |races|
  {
    var p := races[..|races| - 1];
    if i < |p| {
      assert p[i] == races[i];
      assert IsLastWithNumber(p, i) by {
        forall j | i < j < |p| ensures p[j].raceNumber != p[i].raceNumber {
          assert p[j] == races[j];
        }
      }
      LastByNumberIsLast(p, i);
    }
  }

  /** The `foreach` that fills a dictionary by race number, overwriting duplicates. */
  method BuildByNumber(races: seq<Race>) returns (m: map<string, Race>)
    ensures m == LastByNumber(races)
  {
    m := map[];
    for i := 0 to |races|
      invariant m == LastByNumber(races[..i])
    {
      assert races[..i + 1][..i] == races[..i];
      m := m[races[i].raceNumber := races[i]];
    }
    assert races[..|races|] == races;
  }

  // ---------------------------------------------------------------------------------------------
  // Counting an update

  /** What an incoming race is against the stored races. */
  datatype Outcome = Added | Updated | Unchanged

  /** No stored race has its number: added; one that is not equal: updated; otherwise unchanged. */
  function Classify(existing: map<string, Race>, race: Race): (o: Outcome)
    ensures o == Added <==> race.raceNumber !in existing
    ensures o == Unchanged <==> race.raceNumber in existing && AreRacesEqual(existing[race.raceNumber], race)
  {
    if race.raceNumber !in existing then Added
    else if !AreRacesEqual(existing[race.raceNumber], race) then Updated
    else Unchanged
  }

  /** How many incoming races, duplicates included, have outcome `o`. */
  function CountOf(existing: map<string, Race>, races: seq<Race>, o: Outcome): (n: nat)
    ensures n <= |races|
  {
    if races == [] then 0
    else CountOf(existing, races[..|races| - 1], o) + (if Classify(existing, races[|races| - 1]) == o then 1 else 0)
  }

  /** Every incoming race is counted exactly once: added, updated and unchanged add up to the incoming count. */
  lemma {:induction false} CountsAddUp(existing: map<string, Race>, races: seq<Race>)
    ensures CountOf(existing, races, Added) + CountOf(existing, races, Updated) + CountOf(existing, races, Unchanged) == |races|
    decreases |races|
  {
    if races != [] {
      CountsAddUp(existing, races[..|races| - 1]);
    }
  }

  /** All incoming races are unchanged exactly when each is equal to the stored race with its number. */
  lemma {:induction false} AllUnchangedIff(existing: map<string, Race>, races: seq<Race>)
    ensures CountOf(existing, races, Unchanged) == |races| <==>
      forall i :: 0 <= i < |races| ==> races[i].raceNumber in existing && AreRacesEqual(existing[races[i].raceNumber], races[i])
    decreases |races|
  {
    if races != [] {
      var p := races[..|races| - 1];
      AllUnchangedIff(existing, p);
      assert forall i :: 0 <= i < |p| ==> p[i] == races[i];
    }
  }

  /** How many of the source's earlier races have a number that the incoming races lack. */
  function RemovedCount(previous: seq<Race>, current: map<string, Race>): (n: nat)
    ensures n <= |previous|
  {
    if previous == [] then 0
    else RemovedCount(previous[..|previous| - 1], current) + (if previous[|previous| - 1].raceNumber !in current then 1 else 0)
  }

  /** No earlier race counts as removed exactly when every earlier number is among the incoming ones. */
  lemma {:induction false} NoneRemovedIff(previous: seq<Race>, current: map<string, Race>)
    ensures RemovedCount(previous, current) == 0 <==> forall i :: 0 <= i < |previous| ==> previous[i].raceNumber in current
    decreases |previous|
  {
    if previous != [] {
      var p := previous[..|previous| - 1];
      NoneRemovedIff(p, current);
      assert forall i :: 0 <= i < |p| ==> p[i] == previous[i];
    }
  }

  /** The counting `foreach` over the incoming races. */
  method CountIncoming(stats: Stats.RaceProcessingStats, existing: map<string, Race>, races: seq<Race>)
    modifies stats
    ensures stats.racesAdded == old(stats.racesAdded) + CountOf(existing, races, Added)
    ensures stats.racesUpdated == old(stats.racesUpdated) + CountOf(existing, races, Updated)
    ensures stats.racesUnchanged == old(stats.racesUnchanged) + CountOf(existing, races, Unchanged)
    ensures stats.racesRemoved == old(stats.racesRemoved)
    ensures stats.addedRaceNumbers == old(stats.addedRaceNumbers) && stats.updatedRaceNumbers == old(stats.updatedRaceNumbers)
    ensures stats.unchangedRaceNumbers == old(stats.unchangedRaceNumbers) && stats.removedRaceNumbers == old(stats.removedRaceNumbers)
  {
    for i := 0 to |races|
      invariant stats.racesAdded == old(stats.racesAdded) + CountOf(existing, races[..i], Added)
      invariant stats.racesUpdated == old(stats.racesUpdated) + CountOf(existing, races[..i], Updated)
      invariant stats.racesUnchanged == old(stats.racesUnchanged) + CountOf(existing, races[..i], Unchanged)
      invariant stats.racesRemoved == old(stats.racesRemoved)
      invariant stats.addedRaceNumbers == old(stats.addedRaceNumbers) && stats.updatedRaceNumbers == old(stats.updatedRaceNumbers)
      invariant stats.unchangedRaceNumbers == old(stats.unchangedRaceNumbers) && stats.removedRaceNumbers == old(stats.removedRaceNumbers)
    {
      assert races[..i + 1][..i] == races[..i];
      var race := races[i];
      if race.raceNumber !in existing {
        stats.racesAdded := stats.racesAdded + 1;
      } else if !AreRacesEqual(existing[race.raceNumber], race) {
        stats.racesUpdated := stats.racesUpdated + 1;
      } else {
        stats.racesUnchanged := stats.racesUnchanged + 1;
      }
    }
    assert races[..|races|] == races;
  }

  /** The counting `foreach` over the source's earlier races. */
  method CountRemoved(stats: Stats.RaceProcessingStats, previous: seq<Race>, current: map<string, Race>)
    modifies stats
    ensures stats.racesRemoved == old(stats.racesRemoved) + RemovedCount(previous, current)
    ensures stats.racesAdded == old(stats.racesAdded) && stats.racesUpdated == old(stats.racesUpdated)
    ensures stats.racesUnchanged == old(stats.racesUnchanged)
    ensures stats.addedRaceNumbers == old(stats.addedRaceNumbers) && stats.updatedRaceNumbers == old(stats.updatedRaceNumbers)
    ensures stats.unchangedRaceNumbers == old(stats.unchangedRaceNumbers) && stats.removedRaceNumbers == old(stats.removedRaceNumbers)
  {
    for i := 0 to |previous|
      invariant stats.racesRemoved == old(stats.racesRemoved) + RemovedCount(previous[..i], current)
      invariant stats.racesAdded == old(stats.racesAdded) && stats.racesUpdated == old(stats.racesUpdated)
      invariant stats.racesUnchanged == old(stats.racesUnchanged)
      invariant stats.addedRaceNumbers == old(stats.addedRaceNumbers) && stats.updatedRaceNumbers == old(stats.updatedRaceNumbers)
      invariant stats.unchangedRaceNumbers == old(stats.unchangedRaceNumbers) && stats.removedRaceNumbers == old(stats.removedRaceNumbers)
    {
      assert previous[..i + 1][..i] == previous[..i];
      if previous[i].raceNumber !in current {
        stats.racesRemoved := stats.racesRemoved + 1;
      }
    }
    assert previous[..|previous|] == previous;
  }

  // ---------------------------------------------------------------------------------------------
  // The races of all sources

  /** No key twice. */
  predicate NoDuplicates(keys: seq<string>) {
    forall i, j :: 0 <= i < j < |keys| ==> keys[i] != keys[j]
  }

  /** The races of the buckets of `keys`, bucket after bucket (`Values.SelectMany`). */
  function RacesOf(keys: seq<string>, buckets: map<string, seq<Race>>): (all: seq<Race>)
    requires forall k :: k in keys ==> k in buckets
    ensures |keys| == 0 ==> all == []
  {
    if keys == [] then [] else RacesOf(keys[..|keys| - 1], buckets) + buckets[keys[|keys| - 1]]
  }

  /** Only the buckets of `keys` matter. */
  lemma {:induction false} RacesOfSameBuckets(keys: seq<string>, b: map<string, seq<Race>>, c: map<string, seq<Race>>)
    requires forall k :: k in keys ==> k in b && k in c && b[k] == c[k]
    ensures RacesOf(keys, b) == RacesOf(keys, c)
    decreases |keys|
  {
    if keys != [] {
      RacesOfSameBuckets(keys[..|keys| - 1], b, c);
    }
  }

  /** The races of two runs of keys are the races of the first, then those of the second. */
  lemma {:induction false} RacesOfConcat(k1: seq<string>, k2: seq<string>, b: map<string, seq<Race>>)
    requires forall k :: k in k1 + k2 ==> k in b
    ensures RacesOf(k1 + k2, b) == RacesOf(k1, b) + RacesOf(k2, b)
    decreases |k2|
  {
    if k2 == [] {
      assert k1 + k2 == k1;
    } else {
      var p := k2[..|k2| - 1];
      assert (k1 + k2)[..|k1 + k2| - 1] == k1 + p;
      RacesOfConcat(k1, p, b);
    }
  }

  /** Every race of the buckets of `keys` is in one of those buckets. */
  lemma {:induction false} RacesOfMember(keys: seq<string>, b: map<string, seq<Race>>, r: Race)
    requires forall k :: k in keys ==> k in b
    requires r in RacesOf(keys, b)
    ensures exists k :: k in keys && r in b[k]
    decreases |keys|
  {
    var p, last := keys[..|keys| - 1], keys[|keys| - 1];
    if r in RacesOf(p, b) {
      RacesOfMember(p, b, r);
      var k :| k in p && r in b[k];
      assert k in keys;
    } else {
      assert r in b[last];
    }
  }

  /** A new key at the end adds its bucket after all the others. */
  lemma RacesOfAppend(keys: seq<string>, b: map<string, seq<Race>>, k: string, v: seq<Race>)
    requires forall x :: x in keys ==> x in b
    requires k !in keys
    ensures forall x :: x in keys + [k] ==> x in b[k := v]
    ensures RacesOf(keys + [k], b[k := v]) == RacesOf(keys, b) + v
  {
    RacesOfSameBuckets(keys, b, b[k := v]);
    assert (keys + [k])[..|keys|] == keys;
  }

  /** The keys before and after `k`, which occurs once. */
  lemma KeySplit(keys: seq<string>, k: string) returns (before: seq<string>, after: seq<string>)
    requires NoDuplicates(keys) && k in keys
    ensures keys == before + [k] + after && k !in before && k !in after
  {
    var j :| 0 <= j < |keys| && keys[j] == k;
    before, after := keys[..j], keys[j + 1..];
    assert keys == before + [k] + after;
    forall i | 0 <= i < |before| ensures before[i] != k {
      assert before[i] == keys[i];
    }
    forall i | 0 <= i < |after| ensures after[i] != k {
      assert after[i] == keys[j + 1 + i];
    }
  }

  lemma RacesOfAround(before: seq<string>, k: string, after: seq<string>, b: map<string, seq<Race>>)
    requires forall x :: x in before + [k] + after ==> x in b
    ensures RacesOf(before + [k] + after, b) == RacesOf(before, b) + b[k] + RacesOf(after, b)
  {
    RacesOfConcat(before + [k], after, b);
    assert (before + [k])[..|before|] == before;
  }

  /** A bucket replaced in place: its old races leave the whole and its new ones join it. */
  lemma RacesOfReplace(keys: seq<string>, b: map<string, seq<Race>>, k: string, v: seq<Race>)
    requires forall x :: x in keys ==> x in b
    requires NoDuplicates(keys) && k in keys
    ensures forall x :: x in keys ==> x in b[k := v]
    ensures multiset(RacesOf(keys, b[k := v])) + multiset(b[k]) == multiset(RacesOf(keys, b)) + multiset(v)
  {
    var c := b[k := v];
    var before, after := KeySplit(keys, k);
    RacesOfAround(before, k, after, b);
    RacesOfAround(before, k, after, c);
    RacesOfSameBuckets(before, b, c);
    RacesOfSameBuckets(after, b, c);
  }

  /** The keys without `k`, in the same order. */
  function Without(keys: seq<string>, k: string): (r: seq<string>)
    ensures forall x :: x in r <==> x in keys && x != k
    ensures NoDuplicates(keys) ==> NoDuplicates(r)
  {
    if keys == [] then []
    else
      var p := Without(keys[..|keys| - 1], k);
      var last := keys[|keys| - 1];
      assert forall x :: x in keys ==> x in keys[..|keys| - 1] || x == last;
      if last == k then p
      else
        assert NoDuplicates(keys) ==> last !in keys[..|keys| - 1];
        p + [last]
  }

  /** A key removed: its races leave the whole. */
  lemma RacesOfRemove(keys: seq<string>, b: map<string, seq<Race>>, k: string)
    requires forall x :: x in keys ==> x in b
    requires NoDuplicates(keys) && k in keys
    ensures forall x :: x in Without(keys, k) ==> x in b - {k}
    ensures multiset(RacesOf(Without(keys, k), b - {k})) + multiset(b[k]) == multiset(RacesOf(keys, b))
  {
    var c := b - {k};
    var before, after := KeySplit(keys, k);
    WithoutAround(before, k, after);
    RacesOfAround(before, k, after, b);
    RacesOfSameBuckets(before, b, c);
    RacesOfSameBuckets(after, b, c);
    RacesOfConcat(before, after, c);
  }

  lemma WithoutAround(before: seq<string>, k: string, after: seq<string>)
    requires k !in before && k !in after
    ensures Without(before + [k] + after, k) == before + after
  {
    WithoutAbsent(before, k);
    WithoutAbsent(after, k);
    WithoutConcat(before + [k], after, k);
    WithoutConcat(before, [k], k);
    assert Without([k], k) == [] by {
      assert [k][..0] == [];
    }
  }

  lemma {:induction false} WithoutAbsent(keys: seq<string>, k: string)
    requires k !in keys
    ensures Without(keys, k) == keys
    decreases |keys|
  {
    if keys != [] {
      WithoutAbsent(keys[..|keys| - 1], k);
      assert keys[..|keys| - 1] + [keys[|keys| - 1]] == keys;
    }
  }

  lemma {:induction false} WithoutConcat(a: seq<string>, c: seq<string>, k: string)
    ensures Without(a + c, k) == Without(a, k) + Without(c, k)
    decreases |c|
  {
    if c == [] {
      assert a + c == a;
    } else {
      var p := c[..|c| - 1];
      assert (a + c)[..|a + c| - 1] == a + p;
      assert (a + c)[|a + c| - 1] == c[|c| - 1];
      WithoutConcat(a, p, k);
    }
  }

  // ---------------------------------------------------------------------------------------------
  // Submitting the same races again

  /** Some race of `races` has number `n`. */
  predicate HasNumber(races: seq<Race>, n: string) {
    exists i :: 0 <= i < |races| && races[i].raceNumber == n
  }

  /** No two races share a number. */
  predicate UniqueNumbers(races: seq<Race>) {
    forall i, j :: 0 <= i < j < |races| ==> races[i].raceNumber != races[j].raceNumber
  }

  /**
   * A source submitting again the races it holds, with distinct numbers that no other source
   * holds: every race is unchanged and none is removed.
   */
  lemma ResubmitUnchanged(keys: seq<string>, b: map<string, seq<Race>>, key: string, races: seq<Race>)
    requires forall x :: x in keys ==> x in b
    requires NoDuplicates(keys) && key in keys && b[key] == races && UniqueNumbers(races)
    requires forall x, r :: x in keys && x != key && r in b[x] ==> !HasNumber(races, r.raceNumber)
    ensures CountOf(LastByNumber(RacesOf(keys, b)), races, Unchanged) == |races|
    ensures RemovedCount(races, LastByNumber(races)) == 0
  {
    var before, after := KeySplit(keys, key);
    RacesOfAround(before, key, after, b);
    var all := RacesOf(keys, b);
    var existing := LastByNumber(all);
    forall i | 0 <= i < |races|
      ensures races[i].raceNumber in existing && AreRacesEqual(existing[races[i].raceNumber], races[i])
    {
      LastInOwnBucket(before, key, after, b, races, i);
      AreRacesEqualIsEquivalence(races[i], races[i], races[i]);
    }
    AllUnchangedIff(existing, races);
    LastByNumberKeys(races);
    NoneRemovedIff(races, LastByNumber(races));
  }

  /** A race of the bucket of `key` is the last race of the whole with its number. */
  lemma LastInOwnBucket(before: seq<string>, key: string, after: seq<string>, b: map<string, seq<Race>>, races: seq<Race>, i: int)
    requires forall x :: x in before + [key] + after ==> x in b
    requires key !in after && b[key] == races && UniqueNumbers(races) && 0 <= i < |races|
    requires forall x, r :: x in after && r in b[x] ==> !HasNumber(races, r.raceNumber)
    ensures var all := RacesOf(before, b) + races + RacesOf(after, b);
      races[i].raceNumber in LastByNumber(all) && LastByNumber(all)[races[i].raceNumber] == races[i]
  {
    var a, z := RacesOf(before, b), RacesOf(after, b);
    var all := a + races + z;
    var t := |a| + i;
    assert all[t] == races[i];
    forall j | t < j < |all| ensures all[j].raceNumber != all[t].raceNumber {
      if j < |a| + |races| {
        assert all[j] == races[j - |a|];
      } else {
        assert all[j] == z[j - |a| - |races|];
        RacesOfMember(after, b, all[j]);
      }
    }
    LastByNumberIsLast(all, t);
  }

  // ---------------------------------------------------------------------------------------------
  // The store

  /** The buckets after the lazy load: the loaded races under `UnknownSourceKey` when the store was empty and some were read. */
  function Seeded(buckets: map<string, seq<Race>>, loaded: seq<Race>): (b: map<string, seq<Race>>)
    ensures |buckets| == 0 && |loaded| > 0 ==> b == map[UnknownSourceKey := loaded]
    ensures |buckets| > 0 || |loaded| == 0 ==> b == buckets
  {
    if |buckets| == 0 && |loaded| > 0 then map[UnknownSourceKey := loaded] else buckets
  }

  /** The key order after the lazy load. */
  function SeededOrder(order: seq<string>, buckets: map<string, seq<Race>>, loaded: seq<Race>): seq<string> {
    if |buckets| == 0 && |loaded| > 0 then order + [UnknownSourceKey] else order
  }

  /** Sorting the sorted races again changes nothing, so the text of the sorted races is the text of the races. */
  lemma SortedTwice(races: seq<Race>, newLine: string)
    requires OrderByComparer(races).Ok?
    ensures EvtText(OrderByComparer(races).value, newLine) == EvtText(races, newLine)
  {
    OrderByComparerIdempotent(races);
  }

  /**
   * The race store. `fileRaces` maps each source file key to its races; `order` is the order in
   * which the dictionary enumerates its keys; `evtFile` is the race-list text last written.
   */
  class EvtFileManager {
    var fileRaces: map<string, seq<Race>>
    var order: seq<string>
    ghost var evtFile: Option<string>
    const newLine: string

    /** Every key of the dictionary once in the enumeration order, and nothing else. */
    ghost predicate Valid()
      reads this
    {
      NoDuplicates(order) && forall k :: k in order <==> k in fileRaces
    }

    /** The races of all sources, source after source, as the dictionary enumerates them. */
    function AllRaces(): seq<Race>
      reads this
      requires Valid()
    {
      RacesOf(order, fileRaces)
    }

    /** An empty store that has written nothing; `newLine` is the platform line terminator. */
    constructor (newLine: string)
      ensures Valid() && fileRaces == map[] && order == [] && evtFile == None && this.newLine == newLine
    {
      fileRaces, order, evtFile := map[], [], None;
      this.newLine := newLine;
    }

    /** `_fileRaces[key] = races`: a new key is enumerated last, an existing one keeps its place. */
    method Store(key: string, races: seq<Race>)
      requires Valid()
      modifies this
      ensures Valid() && fileRaces == old(fileRaces)[key := races]
      ensures order == if key in old(order) then old(order) else old(order) + [key]
      ensures evtFile == old(evtFile)
    {
      if key !in order {
        order := order + [key];
      }
      fileRaces := fileRaces[key := races];
    }

    /** `_fileRaces.Remove(key)` when the key is there: the key leaves the enumeration. */
    method Remove(key: string)
      requires Valid()
      modifies this
      ensures Valid() && fileRaces == old(fileRaces) - {key} && order == Without(old(order), key)
      ensures evtFile == old(evtFile)
    {
      if key in fileRaces {
        fileRaces := fileRaces - {key};
      }
      WithoutAbsentIfAbsent(order, key);
      order := Without(order, key);
    }

    /**
     * `LoadExistingRacesFromEvtFile`, given the races it read (none when the file is missing,
     * too short, slow or unreadable): they are kept under `UnknownSourceKey` only if there are any.
     */
    method LoadExistingRaces(loaded: seq<Race>)
      requires Valid() && |fileRaces| == 0
      modifies this
      ensures Valid() && fileRaces == Seeded(old(fileRaces), loaded)
      ensures order == SeededOrder(old(order), old(fileRaces), loaded) && evtFile == old(evtFile)
    {
      if |loaded| > 0 {
        Store(UnknownSourceKey, loaded);
      }
    }

    /**
     * `WriteAllRacesToEvtFileAsync`: the races of all sources sorted by the comparer, written as
     * race-list text. When the sort fails the file is not written.
     */
    method WriteAllRacesToEvtFile() returns (r: Result<(), string>)
      requires Valid()
      modifies this
      ensures Valid() && fileRaces == old(fileRaces) && order == old(order)
      ensures r.Ok? <==> OrderByComparer(AllRaces()).Ok?
      ensures r.Ok? ==> EvtText(AllRaces(), newLine).Ok? && evtFile == Some(EvtText(AllRaces(), newLine).value)
      ensures r.Err? ==> evtFile == old(evtFile)
    {
      var all := AllRaces();
      var sorting := OrderByComparer(all);
      if sorting.Err? {
        return Err(sorting.error);
      }
      var content := GenerateEvtContent(sorting.value, newLine);
      SortedTwice(all, newLine);
      evtFile := Some(content.value);
      r := Ok(());
    }

    /**
     * The statistics of an update of source `sourceKey` to `races`, against the races stored now:
     * the incoming races are classified against the last stored race of each number, and the
     * source's stored races whose number the incoming races lack are removed.
     */
    method CountUpdate(sourceKey: string, races: seq<Race>) returns (stats: Stats.RaceProcessingStats)
      requires Valid()
      ensures fresh(stats)
      ensures var existing := LastByNumber(AllRaces());
        && stats.racesAdded == CountOf(existing, races, Added)
        && stats.racesUpdated == CountOf(existing, races, Updated)
        && stats.racesUnchanged == CountOf(existing, races, Unchanged)
        && stats.racesRemoved == (if sourceKey in fileRaces then RemovedCount(fileRaces[sourceKey], LastByNumber(races)) else 0)
      ensures stats.TotalProcessed() == |races|
      ensures stats.addedRaceNumbers == [] && stats.updatedRaceNumbers == []
      ensures stats.unchangedRaceNumbers == [] && stats.removedRaceNumbers == []
    {
      stats := new Stats.RaceProcessingStats();
      var allExistingRaces := AllRaces();
      var existingRaces := BuildByNumber(allExistingRaces);
      var currentRaces := BuildByNumber(races);
      CountIncoming(stats, existingRaces, races);
      CountsAddUp(existingRaces, races);
      if sourceKey in fileRaces {
        CountRemoved(stats, fileRaces[sourceKey], currentRaces);
      }
    }

    /**
     * `UpdateRacesFromFileAsync`, with `loaded` the races the lazy load reads. A blank key fails
     * before anything changes. Otherwise the store is seeded if it was empty, the incoming races
     * are counted against the races of all sources (last race per number) and the source's
     * earlier races against the incoming numbers, the incoming races replace the source's, and
     * everything is written. A failing sort fails the update after the races are stored.
     */
    method UpdateRacesFromFile(sourceKey: string, races: seq<Race>, loaded: seq<Race>)
      returns (r: Result<Stats.RaceProcessingStats, string>)
      requires Valid()
      modifies this
      ensures Valid()
      ensures IsBlank(sourceKey) ==> r.Err? && fileRaces == old(fileRaces) && order == old(order) && evtFile == old(evtFile)
      ensures !IsBlank(sourceKey) ==> fileRaces == Seeded(old(fileRaces), loaded)[sourceKey := races]
      ensures !IsBlank(sourceKey) ==>
        var seededOrder := SeededOrder(old(order), old(fileRaces), loaded);
        order == if sourceKey in seededOrder then seededOrder else seededOrder + [sourceKey]
      ensures !IsBlank(sourceKey) && r.Err? ==> evtFile == old(evtFile)
      ensures !IsBlank(sourceKey) ==> (r.Ok? <==> OrderByComparer(AllRaces()).Ok?)
      ensures r.Ok? ==> evtFile == Some(EvtText(AllRaces(), newLine).value)
      ensures r.Ok? ==>
        var seeded := Seeded(old(fileRaces), loaded);
        var existing := LastByNumber(RacesOf(SeededOrder(old(order), old(fileRaces), loaded), seeded));
        && fresh(r.value)
        && r.value.racesAdded == CountOf(existing, races, Added)
        && r.value.racesUpdated == CountOf(existing, races, Updated)
        && r.value.racesUnchanged == CountOf(existing, races, Unchanged)
        && r.value.racesRemoved == (if sourceKey in seeded then RemovedCount(seeded[sourceKey], LastByNumber(races)) else 0)
      ensures r.Ok? ==> r.value.TotalProcessed() == |races|
      ensures r.Ok? ==> r.value.addedRaceNumbers == [] && r.value.updatedRaceNumbers == []
      ensures r.Ok? ==> r.value.unchangedRaceNumbers == [] && r.value.removedRaceNumbers == []
    {
      if IsBlank(sourceKey) {
        return Err("Source file path cannot be null or empty.");
      }
      if |fileRaces| == 0 {
        LoadExistingRaces(loaded);
      }
      var stats := CountUpdate(sourceKey, races);
      Store(sourceKey, races);
      var written := WriteAllRacesToEvtFile();
      if written.Err? {
        return Err(written.error);
      }
      r := Ok(stats);
    }

    /**
     * `RemoveRacesFromFileAsync`: a blank key does nothing; otherwise the source's races are
     * dropped and everything left is written.
     */
    method RemoveRacesFromFile(sourceKey: string) returns (r: Result<(), string>)
      requires Valid()
      modifies this
      ensures Valid()
      ensures IsBlank(sourceKey) ==> r.Ok? && fileRaces == old(fileRaces) && order == old(order) && evtFile == old(evtFile)
      ensures !IsBlank(sourceKey) ==> fileRaces == old(fileRaces) - {sourceKey} && order == Without(old(order), sourceKey)
      ensures !IsBlank(sourceKey) ==> (r.Ok? <==> OrderByComparer(AllRaces()).Ok?)
      ensures !IsBlank(sourceKey) && r.Ok? ==> evtFile == Some(EvtText(AllRaces(), newLine).value)
      ensures !IsBlank(sourceKey) && r.Err? ==> evtFile == old(evtFile)
    {
      if IsBlank(sourceKey) {
        return Ok(());
      }
      Remove(sourceKey);
      r := WriteAllRacesToEvtFile();
    }
  }

  lemma WithoutAbsentIfAbsent(keys: seq<string>, k: string)
    ensures k !in keys ==> Without(keys, k) == keys
  {
    if k !in keys {
      WithoutAbsent(keys, k);
    }
  }
}
