/**
 * `LapCalculator`: the number of laps of a race, in tenths of a lap, from its distance and the
 * track length, or from the free-text race parameters that name them.
 */
module LapCalculator {
  import opened Wrappers
  import opened Text
  import opened Numbers

  /** The distances looked for in race parameters, in priority order. */
  const Distances: seq<nat> := [5000, 3000, 2000, 1500, 1000, 800, 777, 500, 400, 333, 300, 200, 100, 50]

  function Abs(x: int): nat {
    if x < 0 then -x else x
  }

  /**
   * `Math.Round(d / t, 1)` in tenths, on the exact quotient: the nearest number of tenths, and the
   * even one when two are equally near.
   */
  function RoundedTenths(d: nat, t: nat): (r: nat)
    requires t > 0
    ensures 2 * Abs(r * t - 10 * d) <= t
    ensures 2 * Abs(r * t - 10 * d) == t ==> r % 2 == 0
  {
    var n := 10 * d;
    var q := n / t;
    var rem := n % t;
    DivMod(n, t);
    MulSucc(q, t);
    if 2 * rem < t then q
    else if 2 * rem > t then q + 1
    else if q % 2 == 0 then q
    else q + 1
  }

  lemma DivMod(n: nat, t: nat)
    requires t > 0
    ensures n == (n / t) * t + n % t && 0 <= n % t < t
  {
  }

  lemma MulSucc(q: int, t: int)
    ensures (q + 1) * t == q * t + t
  {
  }

  lemma MulDifference(a: int, b: int, t: int)
    ensures a * t - b * t == (a - b) * t
  {
  }

  lemma MulAtLeast(k: int, t: nat)
    requires k >= 1
    ensures k * t >= t
  {
  }

  /** No other number of tenths is as near to the exact quotient, except at a tie. */
  lemma RoundedTenthsNearest(d: nat, t: nat, r': int)
    requires t > 0
    ensures 2 * Abs(r' * t - 10 * d) < t ==> r' == RoundedTenths(d, t)
    ensures 2 * Abs(r' * t - 10 * d) == t && r' % 2 == 0 ==> r' == RoundedTenths(d, t)
  {
    var r := RoundedTenths(d, t);
    var e, e' := r * t - 10 * d, r' * t - 10 * d;
    MulDifference(r', r, t);
    if r' > r && 2 * Abs(e') <= t {
      MulAtLeast(r' - r, t);
      assert e' - e >= t;
      assert 2 * Abs(e) == t && 2 * Abs(e') == t;
      if r' - r >= 2 {
        MulAtLeast(r' - r - 1, t);
        MulDifference(r' - r, 1, t);
        assert false;
      }
      assert r' == r + 1;
    } else if r' < r && 2 * Abs(e') <= t {
      MulAtLeast(r - r', t);
      MulDifference(r, r', t);
      assert e - e' >= t;
      assert 2 * Abs(e) == t && 2 * Abs(e') == t;
      if r - r' >= 2 {
        MulAtLeast(r - r' - 1, t);
        MulDifference(r - r', 1, t);
        assert false;
      }
      assert r' == r - 1;
    }
  }

  /**
   * `CalculateLaps(distance, trackLength)`: a zero track length, then a negative distance, then a
   * negative track length are rejected, in that order; otherwise the rounded quotient in tenths.
   */
  function CalculateLaps(distance: int, trackLength: int): (r: Result<nat, string>)
    ensures trackLength == 0 <==> r == Err("Track length cannot be zero.")
    ensures trackLength != 0 && distance < 0 <==> r == Err("Distance cannot be negative.")
    ensures trackLength < 0 && distance >= 0 <==> r == Err("Track length cannot be negative.")
    ensures r.Ok? <==> trackLength > 0 && distance >= 0
    ensures r.Ok? ==> 2 * Abs(r.value * trackLength - 10 * distance) <= trackLength
    ensures r.Ok? && 2 * Abs(r.value * trackLength - 10 * distance) == trackLength ==> r.value % 2 == 0
    ensures r.Ok? && distance == 0 ==> r.value == 0
  {
    if trackLength == 0 then Err("Track length cannot be zero.")
    else if distance < 0 then Err("Distance cannot be negative.")
    else if trackLength < 0 then Err("Track length cannot be negative.")
    else Ok(RoundedTenths(distance, trackLength))
  }

  /** 333/100 is 3.3 laps, 335/100 is 3.4, 1/100 is 0.0, 250/100 is 2.5 and 1500/111 is 13.5. */
  lemma CalculateLapsExamples()
    ensures CalculateLaps(333, 100) == Ok(33)
    ensures CalculateLaps(335, 100) == Ok(34)
    ensures CalculateLaps(1, 100) == Ok(0)
    ensures CalculateLaps(250, 100) == Ok(25)
    ensures CalculateLaps(1500, 111) == Ok(135)
  {
    RoundedTenthsNearest(333, 100, 33);
    RoundedTenthsNearest(335, 100, 34);
    RoundedTenthsNearest(1, 100, 0);
    RoundedTenthsNearest(250, 100, 25);
    RoundedTenthsNearest(1500, 111, 135);
  }

  /** The position of the first distance of `ds` whose decimal digits occur in `text`, or `|ds|`. */
  function FirstDistanceIndex(text: string, ds: seq<nat>): (k: nat)
    ensures k <= |ds|
    ensures k < |ds| ==> Contains(text, NatToString(ds[k]))
    ensures forall j :: 0 <= j < k ==> !Contains(text, NatToString(ds[j]))
  {
    if ds == [] then 0
    else if Contains(text, NatToString(ds[0])) then 0
    else
      var k := FirstDistanceIndex(text, ds[1..]);
      assert forall j :: 1 <= j < k + 1 ==> ds[j] == ds[1..][j - 1];
      k + 1
  }

  /** The first distance of `ds` whose decimal digits occur in `text`. */
  function FirstDistanceIn(text: string, ds: seq<nat>): (r: Option<nat>)
    ensures r.None? <==> forall i :: 0 <= i < |ds| ==> !Contains(text, NatToString(ds[i]))
    ensures r.Some? ==> r.value in ds
    ensures r.Some? ==> exists i :: 0 <= i < |ds| && ds[i] == r.value && Contains(text, NatToString(ds[i]))
                                    && forall j :: 0 <= j < i ==> !Contains(text, NatToString(ds[j]))
  {
    var k := FirstDistanceIndex(text, ds);
    if k < |ds| then Some(ds[k]) else None
  }

  /** A search that has passed `i` distances without a match and stops at `i` has found the first one. */
  lemma FirstDistanceIndexIs(text: string, ds: seq<nat>, i: nat)
    requires i <= |ds| && forall j :: 0 <= j < i ==> !Contains(text, NatToString(ds[j]))
    requires i < |ds| ==> Contains(text, NatToString(ds[i]))
    ensures FirstDistanceIndex(text, ds) == i
  {
  }

  /** 111 when the text mentions "111m" in any letter case, otherwise 100. */
  function TrackLength(raceParams: string): (t: nat)
    ensures t == 111 <==> ContainsIgnoreCase(raceParams, "111m")
    ensures t == 100 || t == 111
  {
    if ContainsIgnoreCase(raceParams, "111m") then 111 else 100
  }

  /**
   * `CalculateLaps(raceParams)` in tenths: 0 for blank text or text without a listed distance,
   * otherwise the laps of the first listed distance found, on the track length the text names.
   */
  function CalculateLapsFromText(raceParams: string): (r: nat)
    ensures IsBlank(raceParams) ==> r == 0
    ensures !IsBlank(raceParams) && FirstDistanceIn(raceParams, Distances).Some? ==>
      CalculateLaps(FirstDistanceIn(raceParams, Distances).value, TrackLength(raceParams)) == Ok(r)
    ensures FirstDistanceIn(raceParams, Distances).None? ==> r == 0
  {
    if IsBlank(raceParams) then 0
    else
      match FirstDistanceIn(raceParams, Distances)
      case None => 0
      case Some(d) => RoundedTenths(d, TrackLength(raceParams))
  }

  lemma RoundedTenthsPositive(d: nat, t: nat)
    requires t > 0 && 20 * d > t
    ensures RoundedTenths(d, t) > 0
  {
  }

  /** A text naming none of the distances gives no laps, and a named distance gives a positive count. */
  lemma LapsPositiveIffDistanceFound(raceParams: string)
    ensures CalculateLapsFromText(raceParams) > 0
        <==> !IsBlank(raceParams) && FirstDistanceIn(raceParams, Distances).Some?
  {
    var f := FirstDistanceIn(raceParams, Distances);
    if !IsBlank(raceParams) && f.Some? {
      assert f.value in Distances;
      RoundedTenthsPositive(f.value, TrackLength(raceParams));
    }
  }

  /**
   * `CalculateLaps(raceParams)`: blank text gives no laps; otherwise the track is 111 m when the
   * text names "111m" and 100 m if not, and the first listed distance found in the text gives the
   * laps, or no laps when none is found.
   */
  method CalculateLapsOfRaceParams(raceParams: string) returns (r: nat)
    ensures r == CalculateLapsFromText(raceParams)
  {
    if IsBlank(raceParams) {
      return 0;
    }
    var trackLength := 100;
    if ContainsIgnoreCase(raceParams, "111m") {
      trackLength := 111;
    }
    assert trackLength == TrackLength(raceParams);
    var k := FindFirstDistance(raceParams, Distances);
    if k < |Distances| {
      var laps := CalculateLaps(Distances[k], trackLength);
      return laps.value;
    }
    return 0;
  }

  /** The `foreach` of `CalculateLaps(raceParams)`: the distances in order, stopping at the first one found. */
  method FindFirstDistance(text: string, ds: seq<nat>) returns (k: nat)
    ensures k == FirstDistanceIndex(text, ds)
  {
    for i := 0 to |ds|
      invariant forall j :: 0 <= j < i ==> !Contains(text, NatToString(ds[j]))
    {
      if Contains(text, NatToString(ds[i])) {
        FirstDistanceIndexIs(text, ds, i);
        return i;
      }
    }
    FirstDistanceIndexIs(text, ds, |ds|);
    return |ds|;
  }
}
