/** How the clients choose the next rate from the current one. */
module RateChoice {
  import opened Ladder
  import opened BolaReward

  // --- BOLA.cc and Proposed.cc: a target held back by the throughput ---

  // The rate for a target rung t and the rung c closest to the throughput; a boost takes one rung more.
  function GuardedRate(rates: seq<int>, curr: int, t: nat, c: nat, boost: bool): int
    requires t < |rates| && c < |rates|
  {
    var target := rates[t];
    if target > curr then
      if rates[c] >= target then target
      else if rates[c] < curr then curr
      else if boost then rates[if c + 1 >= |rates| then c else c + 1]
      else rates[c]
    else target
  }

  /** From a rung the next rate is a rung between the current rate and the target; it rises only under the
      margin of the throughput, or with a boost at most one rung above the closest one, which then exists. */
  lemma GuardedRateBounds(rates: seq<int>, curr: int, t: nat, c: nat, boost: bool, thrp: real)
    requires IsLadder(rates) && curr in rates && t < |rates| && IsClosest(rates, thrp, c)
    ensures var next := GuardedRate(rates, curr, t, c, boost);
            next in rates && (curr <= next <= rates[t] || rates[t] <= next <= curr)
    ensures var next := GuardedRate(rates, curr, t, c, boost);
            next > curr ==> next as real < thrp * MARGIN || (boost && c + 1 < |rates| && next <= rates[c + 1])
    ensures !boost && GuardedRate(rates, curr, t, c, boost) > curr ==>
      GuardedRate(rates, curr, t, c, boost) as real < thrp * MARGIN
    ensures curr <= rates[c] < rates[t] ==> c + 1 < |rates| && rates[c + 1] <= rates[t]
  {
  }

  /** A target at or below the current rate is taken at once; to a higher one the rate goes as far as the rung
      closest to the throughput, neither down nor past the target, and one rung further with a boost. */
  lemma GuardedRateMoves(rates: seq<int>, curr: int, t: nat, c: nat, boost: bool)
    requires IsLadder(rates) && curr in rates && t < |rates| && c < |rates|
    ensures var next := GuardedRate(rates, curr, t, c, boost);
      && (rates[t] <= curr ==> next == rates[t])
      && (rates[t] > curr && (!boost || rates[c] < curr || c >= t) ==> next == Clamp(rates[c], curr, rates[t]))
      && (boost && curr <= rates[c] && c < t ==> next == rates[c + 1])
  {
  }

  /** From 28 s of buffer on no reward is positive, so the boost of Proposed always aims at the top rung. */
  lemma BoostAimsAtTop(utility: seq<real>, rates: seq<int>, buff: int, t: int)
    requires IsUtility(utility, rates) && IsProposedChoice(utility, rates, buff, t) && buff >= 28000
    ensures t == |rates| - 1
  {
    RewardThreshold(utility, rates, buff);
  }

  // The choice of BOLA.cc: guarded towards the best rung, or the current rate when no reward is positive.
  ghost predicate IsBolaRate(utility: seq<real>, rates: seq<int>, buff: int, thrp: real, curr: int, next: int)
    requires IsUtility(utility, rates)
  {
    (NoReward(utility, rates, buff) && next == curr) ||
    exists t, c :: IsBest(utility, rates, buff, t) && 0 <= c < |rates| && IsClosest(rates, thrp, c) &&
                   next == GuardedRate(rates, curr, t, c, false)
  }

  /** From a rung BOLA moves to a rung, upwards only under the margin of the last throughput; from 28 s of
      buffer on, and so whenever it sleeps before the request, it keeps its rate. */
  lemma BolaRateBounds(utility: seq<real>, rates: seq<int>, buff: int, thrp: real, curr: int, next: int)
    requires IsUtility(utility, rates) && curr in rates && IsBolaRate(utility, rates, buff, thrp, curr, next)
    ensures next in rates && (next > curr ==> next as real < thrp * MARGIN)
    ensures buff >= MAX_BUFF - SEGMENT ==> next == curr
  {
    RewardThreshold(utility, rates, buff);
    if buff < MAX_BUFF - SEGMENT {
      var t, c :| IsBest(utility, rates, buff, t) && 0 <= c < |rates| && IsClosest(rates, thrp, c) &&
                  next == GuardedRate(rates, curr, t, c, false);
      GuardedRateBounds(rates, curr, t, c, false, thrp);
    }
  }

  /** While some reward is positive, BOLA goes down to the best rung at once, and up to it as far as the rung
      closest to the throughput. */
  lemma BolaAims(utility: seq<real>, rates: seq<int>, buff: int, thrp: real, curr: int, next: int, t: int, c: int)
    requires IsUtility(utility, rates) && curr in rates && IsBolaRate(utility, rates, buff, thrp, curr, next)
    requires IsBest(utility, rates, buff, t) && IsClosest(rates, thrp, c)
    ensures next == if rates[t] <= curr then rates[t] else Clamp(rates[c], curr, rates[t])
  {
    var t', c' :| IsBest(utility, rates, buff, t') && 0 <= c' < |rates| && IsClosest(rates, thrp, c') &&
                  next == GuardedRate(rates, curr, t', c', false);
    BestUnique(utility, rates, buff, t, t');
    ClosestUnique(rates, thrp, c, c');
    GuardedRateMoves(rates, curr, t, c, false);
  }

  // --- PANDA.cc and Conventional.cpp: a dead zone between two floors ---

  const EPSILON: real := 0.15

  // rateUp and rateDown are the floors of 85 % and of all of the smoothed throughput.
  function InDeadZone(curr: int, up: int, down: int): int {
    if curr < up then up
    else if curr >= up && curr <= down then curr
    else down
  }

  ghost predicate IsDeadZoneRate(rates: seq<int>, curr: int, s: real, next: int) {
    exists up, down :: IsFloor(rates, s - EPSILON * s, up) && IsFloor(rates, s - 0.0, down) &&
                       next == InDeadZone(curr, up, down)
  }

  function Clamp(x: int, lo: int, hi: int): int {
    if x < lo then lo else if x > hi then hi else x
  }

  /** The next rate is the current one clamped between the floor of 85 % and the floor of all of the
      throughput, so it never exceeds the throughput. */
  lemma DeadZoneClamps(rates: seq<int>, curr: int, s: real, next: int, up: int, down: int)
    requires IsLadder(rates) && s >= 0.0 && IsDeadZoneRate(rates, curr, s, next)
    requires IsFloor(rates, 0.85 * s, up) && IsFloor(rates, s, down)
    ensures up <= down && next == Clamp(curr, up, down) && next as real <= s
  {
  }

  // A run: rate k + 1 is chosen from rate k at the k-th smoothed throughput.
  ghost predicate IsDeadZoneRun(ladder: seq<int>, rates: seq<int>, smoothed: seq<real>) {
    |rates| == |smoothed| + 1 &&
    forall k :: 0 <= k < |smoothed| ==>
      smoothed[k] >= 0.0 && IsDeadZoneRate(ladder, rates[k], smoothed[k], rates[k + 1])
  }

  /** Hysteresis: between a switch up to a rate and a switch down from it the smoothed throughput dropped by
      more than 15 percent. */
  lemma Hysteresis(ladder: seq<int>, rates: seq<int>, smoothed: seq<real>, i: nat, j: nat)
    requires IsLadder(ladder) && IsDeadZoneRun(ladder, rates, smoothed)
    requires i < j < |smoothed| && rates[j] == rates[i + 1]
    requires rates[i] < rates[i + 1] && rates[j + 1] < rates[j]
    ensures smoothed[j] < 0.85 * smoothed[i]
  {
  }
}
