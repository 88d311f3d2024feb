/** The bitrate ladder of the five clients and the searches over it. */
module Ladder {
  // One segment plays for this many milliseconds.
  const SEGMENT: int := 2000

  const NUM_OF_SEGS: int := 200

  // The rate of the first segment, whatever is measured.
  const FIRST_RATE: int := 459

  // Rungs are positive and strictly increasing.
  ghost predicate IsLadder(rates: seq<int>) {
    |rates| > 0 && rates[0] > 0 && forall i, j :: 0 <= i < j < |rates| ==> rates[i] < rates[j]
  }

  /** The highest rung that meets a bound, given as the largest index whose rate does. */
  ghost predicate IsHighest(rates: seq<int>, fits: int -> bool, i: int) {
    0 <= i < |rates| && fits(rates[i]) && forall j :: i < j < |rates| ==> !fits(rates[j])
  }

  const MARGIN: real := 0.85

  function Below(bound: real): int -> bool {
    (rate: int) => rate as real < bound
  }

  // The highest rung strictly under the margin, or the lowest rung if there is none.
  ghost predicate IsClosest(rates: seq<int>, thrp: real, c: int) {
    IsHighest(rates, Below(thrp * MARGIN), c) ||
    (c == 0 && |rates| > 0 && forall j :: 0 <= j < |rates| ==> !(rates[j] as real < thrp * MARGIN))
  }

  lemma ClosestUnique(rates: seq<int>, thrp: real, c: int, c': int)
    requires IsClosest(rates, thrp, c) && IsClosest(rates, thrp, c')
    ensures c == c'
  {
  }

  /** rateClosestThrp: the highest rung strictly under the margin, or the lowest rung if there is none. */
  method RateClosestThrp(rates: seq<int>, thrp: real) returns (idx: nat)
    requires IsLadder(rates)
    ensures IsClosest(rates, thrp, idx)
    ensures idx < |rates| && forall j :: idx < j < |rates| ==> rates[j] as real >= thrp * 0.85
    ensures idx > 0 ==> rates[idx] as real < thrp * 0.85
  {
    var i := |rates| - 1;
    while i >= 0
      invariant -1 <= i < |rates|
      invariant forall j :: i < j < |rates| ==> !(rates[j] as real < thrp * MARGIN)
    {
      if rates[i] as real < thrp * MARGIN {
        return i;
      }
      i := i - 1;
    }
    return 0;
  }

  /** The downward search of PANDA and Conventional: the highest rung at most the bound, which must exist. */
  method HighestAtMost(rates: seq<int>, bound: real) returns (rate: int)
    requires IsLadder(rates) && rates[0] as real <= bound
    ensures IsFloor(rates, bound, rate)
  {
    var i := |rates| - 1;
    while !(rates[i] as real <= bound)
      invariant 0 <= i < |rates|
      invariant forall j :: i < j < |rates| ==> !(rates[j] as real <= bound)
      decreases i
    {
      i := i - 1;
    }
    rate := rates[i];
  }

  /** rate is the largest rung that does not exceed the bound. */
  ghost predicate IsFloor(rates: seq<int>, bound: real, rate: int) {
    rate in rates && rate as real <= bound && forall r :: r in rates && r as real <= bound ==> r <= rate
  }

}
