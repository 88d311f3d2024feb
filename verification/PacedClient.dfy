/** PANDA.cc, Proposed.cc and Conventional.cpp: clients that sleep before measuring the next interval. They
    share their per-segment arrays and differ in estimation, rate choice, pacing and rebuffering. */
module PacedClient {
  import opened Ladder
  import opened BolaReward
  import opened PlayerBuffer
  import opened Estimator
  import opened RateChoice

  datatype Scheme = Panda | Proposed | Conventional

  function PolicyOf(scheme: Scheme): Policy {
    match scheme
    case Panda => Policy(28000, true)
    case Proposed => Policy(30000, false)
    case Conventional => Policy(28000, true)
  }

  // What a scheme waits at least, and the buffer it never reaches.
  function WaitOf(scheme: Scheme): Wait {
    if scheme == Panda then SteerWait(PolicyOf(scheme).target) else PaceWait(PolicyOf(scheme).target)
  }

  function CeilingOf(scheme: Scheme): int {
    match scheme
    case Panda => 28000 + 5 * SEGMENT + 1
    case Proposed => 30000 + SEGMENT
    case Conventional => 28000 + SEGMENT
  }

  // The interval to the next request: PANDA steers the buffer towards its target, the others pace at one
  // segment a segment duration once the target is reached.
  function TargetInterval(scheme: Scheme, rate: int, smoothed: real, buff: int): int
    requires scheme == Panda ==> smoothed != 0.0
  {
    if scheme == Panda then
      var interval := Truncate((rate * SEGMENT) as real / smoothed);
      Truncate(interval as real + BETA * (buff - PolicyOf(scheme).target) as real)
    else PaceWait(PolicyOf(scheme).target)(buff)
  }

  function OneUp(rates: seq<int>, c: nat): (up: nat)
    requires c < |rates|
    ensures up < |rates|
  {
    if c + 1 >= |rates| then c else c + 1
  }

  function Longer(download: int, target: int): int {
    if target > download then target else download
  }

  /** How a scheme chooses the next rate: towards the BOLA target, guarded, or inside the dead zone. */
  ghost predicate IsNextRate(scheme: Scheme, utility: seq<real>, rates: seq<int>, p: Player, smoothed: real,
                             curr: int, next: int)
    requires IsUtility(utility, rates)
  {
    if scheme == Proposed then
      exists t, c ::
        0 <= t < |rates| && 0 <= c < |rates| &&
        IsProposedChoice(utility, rates, p.buff, t) && IsClosest(rates, smoothed, c) &&
        next == GuardedRate(rates, curr, t, c, !p.buffering && p.buff >= 28000)
    else IsDeadZoneRate(rates, curr, smoothed, next)
  }

  /** From a rung PANDA and Conventional move to a rung, never above the smoothed throughput. */
  lemma DeadZoneBounds(rates: seq<int>, smoothed: real, curr: int, next: int)
    requires curr in rates && smoothed >= 0.0 && IsDeadZoneRate(rates, curr, smoothed, next)
    ensures next in rates && next as real <= smoothed
  {
  }

  /** From a rung Proposed moves to a rung: it rises only under the margin of the smoothed throughput, or while
      playing with 28 s buffered, when the target is the top rung, to at most one rung above the closest. */
  lemma ProposedBounds(utility: seq<real>, rates: seq<int>, p: Player, smoothed: real, curr: int, next: int)
    requires IsUtility(utility, rates) && curr in rates
    requires IsNextRate(Proposed, utility, rates, p, smoothed, curr, next)
    ensures next in rates
    ensures next > curr && !(next as real < smoothed * MARGIN) ==>
      && !p.buffering && p.buff >= 28000 && IsProposedChoice(utility, rates, p.buff, |rates| - 1)
      && exists c :: 0 <= c < |rates| - 1 && IsClosest(rates, smoothed, c) && next <= rates[c + 1]
  {
    assert IsLadder(rates);
    hide IsClosest, GuardedRate, IsProposedChoice, IsUtility, IsLadder;
    var t, c :| 0 <= t < |rates| && 0 <= c < |rates| &&
                IsProposedChoice(utility, rates, p.buff, t) && IsClosest(rates, smoothed, c) &&
                next == GuardedRate(rates, curr, t, c, !p.buffering && p.buff >= 28000);
    GuardedRateBounds(rates, curr, t, c, !p.buffering && p.buff >= 28000, smoothed);
    if p.buff >= 28000 {
      BoostAimsAtTop(utility, rates, p.buff, t);
    }
  }

  /** Measurements that stay within bounds whose lower one leaves a rung, at most 5 s apart, are all a client
      needs to go on choosing. */
  lemma SamplesSuffice(probing: bool, rates: seq<int>, samples: seq<real>, gaps: seq<int>, lo: real, hi: real)
    requires IsLadder(rates) && 0 < |samples| == |gaps| && Within(lo, samples, hi)
    requires forall i :: 0 < i < |gaps| ==> 0 <= gaps[i] <= 5000
    requires rates[0] as real <= 0.85 * lo
    ensures var s := Smoothed(probing, samples, gaps); rates[0] as real <= s - EPSILON * s && s != 0.0
  {
    StaysWithinSamples(probing, samples, gaps, lo, hi);
    var s := Smoothed(probing, samples, gaps);
    assert s - EPSILON * s == 0.85 * s;
  }

  // No client paces for longer than this.
  const LONGEST_INTERVAL: int := 2 * SEGMENT

  lemma ShareIsShort(x: real, d: real, y: real)
    requires d > 0.0 && x <= SEGMENT as real * d && y <= SEGMENT as real
    ensures Truncate(Truncate(x / d) as real + y) <= LONGEST_INTERVAL
  {
    AtMostSegments(x, d);
    assert Truncate(x / d) as real <= SEGMENT as real;
  }

  lemma AtMostSegments(x: real, d: real)
    requires d > 0.0 && x <= SEGMENT as real * d
    ensures x / d <= SEGMENT as real
  {
  }

  lemma EmptyWaits(scheme: Scheme)
    ensures WaitOf(scheme)(0) <= 0
  {
  }

  // What PANDA asks for: a positive rate, at most the throughput.
  lemma RateWithin(rates: seq<int>, rate: int, curr: int, smoothed: real)
    requires IsLadder(rates) && rates[0] as real <= smoothed - EPSILON * smoothed
    requires IsDeadZoneRate(rates, curr, smoothed, rate)
    ensures 0.0 < rate as real <= smoothed
  {
    var up, down :| IsFloor(rates, smoothed - EPSILON * smoothed, up) && IsFloor(rates, smoothed - 0.0, down) &&
                    rate == InDeadZone(curr, up, down);
    assert rate >= rates[0];
  }

  /** Below its ceiling no scheme paces for more than two segments. */
  lemma IntervalIsShort(scheme: Scheme, rate: int, smoothed: real, buff: int)
    requires buff < CeilingOf(scheme) && (scheme == Panda ==> 0.0 < rate as real <= smoothed)
    ensures TargetInterval(scheme, rate, smoothed, buff) <= LONGEST_INTERVAL
  {
    hide Truncate;
    if scheme == Panda {
      assert (rate * SEGMENT) as real == SEGMENT as real * rate as real;
      ShareIsShort((rate * SEGMENT) as real, smoothed, BETA * (buff - PolicyOf(scheme).target) as real);
    }
  }

  lemma ShareWaits(x: real, d: real, y: real)
    requires x >= 0.0 && d > 0.0
    ensures Truncate(Truncate(x / d) as real + y) >= Truncate(y)
  {
    QuotientPositive(x, d);
    assert Truncate(x / d) >= 0;
    Shifted(Truncate(x / d), y);
  }

  lemma Shifted(n: int, y: real)
    requires n >= 0
    ensures Truncate(n as real + y) >= Truncate(y)
  {
  }

  lemma QuotientPositive(x: real, d: real)
    requires x >= 0.0 && d > 0.0
    ensures x / d >= 0.0
  {
  }

  // PANDA adds a time that is not negative to its share, so it waits at least that.
  lemma IntervalWaits(scheme: Scheme, rate: int, smoothed: real, buff: int)
    requires scheme == Panda ==> 0.0 < rate as real <= smoothed
    ensures Longer(0, TargetInterval(scheme, rate, smoothed, buff)) >= WaitOf(scheme)(buff)
  {
    hide Truncate;
    if scheme == Panda {
      ShareWaits((rate * SEGMENT) as real, smoothed, BETA * (buff - PolicyOf(scheme).target) as real);
    }
  }

  // What a scheme's interval is worth: PANDA's lies within 2 ms of the time the next segment takes at the smoothed
  // throughput, plus a fifth of what the buffer is above its target; the others pace at 2 s from their targets on.
  predicate Paces(scheme: Scheme, rate: int, smoothed: real, buff: int, interval: int) {
    match scheme
    case Panda =>
      smoothed != 0.0 ==>
        -2.0 < interval as real - (rate as real * 2000.0 / smoothed + (buff as real - 28000.0) / 5.0) < 2.0
    case Proposed => interval == if buff >= 30000 then 2000 else 0
    case Conventional => interval == if buff >= 28000 then 2000 else 0
  }

  lemma Truncated(x: real)
    ensures -1.0 < Truncate(x) as real - x < 1.0
  {
  }

  /** Every interval is the one its scheme is for. */
  lemma IntervalPaces(scheme: Scheme, rate: int, smoothed: real, buff: int)
    requires scheme == Panda ==> smoothed != 0.0
    ensures Paces(scheme, rate, smoothed, buff, TargetInterval(scheme, rate, smoothed, buff))
  {
    hide Truncate;
    if scheme == Panda {
      var x, y := (rate * SEGMENT) as real / smoothed, BETA * (buff - 28000) as real;
      assert (rate * SEGMENT) as real == rate as real * 2000.0;
      Truncated(x);
      Truncated(Truncate(x) as real + y);
    }
  }

  /** From 28 s on Proposed aims at the top rung while it plays: it goes one rung above the closest one if that is not
      below the current rate, and otherwise keeps its rate. */
  lemma ProposedBoosts(utility: seq<real>, rates: seq<int>, p: Player, smoothed: real, curr: int, next: int, c: int)
    requires IsUtility(utility, rates) && curr in rates && IsClosest(rates, smoothed, c)
    requires IsNextRate(Proposed, utility, rates, p, smoothed, curr, next) && !p.buffering && p.buff >= 28000
    ensures next ==
      if rates[c] < curr then curr else if c + 1 < |rates| then rates[c + 1] else rates[c]
  {
    var t, c' :| 0 <= t < |rates| && 0 <= c' < |rates| &&
                 IsProposedChoice(utility, rates, p.buff, t) && IsClosest(rates, smoothed, c') &&
                 next == GuardedRate(rates, curr, t, c', !p.buffering && p.buff >= 28000);
    ClosestUnique(rates, smoothed, c, c');
    BoostAimsAtTop(utility, rates, p.buff, t);
    TopIsHighest(rates, curr);
    GuardedRateMoves(rates, curr, t, c, true);
  }

  lemma TopIsHighest(rates: seq<int>, rate: int)
    requires IsLadder(rates) && rate in rates
    ensures rate <= rates[|rates| - 1]
    ensures forall c :: 0 <= c < |rates| ==> rates[c] <= rates[|rates| - 1]
  {
  }

  /** Below 28 s or before it plays, Proposed moves as BOLA does, at the smoothed throughput. */
  lemma ProposedAims(utility: seq<real>, rates: seq<int>, p: Player, smoothed: real, curr: int, next: int,
                     t: int, c: int)
    requires IsUtility(utility, rates) && curr in rates && IsClosest(rates, smoothed, c)
    requires IsNextRate(Proposed, utility, rates, p, smoothed, curr, next) && (p.buffering || p.buff < 28000)
    requires IsProposedChoice(utility, rates, p.buff, t)
    ensures 0 <= t < |rates| && 0 <= c < |rates|
    ensures next == if rates[t] <= curr then rates[t] else Clamp(rates[c], curr, rates[t])
  {
    var t', c' :| 0 <= t' < |rates| && 0 <= c' < |rates| &&
                  IsProposedChoice(utility, rates, p.buff, t') && IsClosest(rates, smoothed, c') &&
                  next == GuardedRate(rates, curr, t', c', !p.buffering && p.buff >= 28000);
    ClosestUnique(rates, smoothed, c, c');
    ProposedChoiceMonotone(utility, rates, p.buff, p.buff, t, t');
    ProposedChoiceMonotone(utility, rates, p.buff, p.buff, t', t);
    GuardedRateMoves(rates, curr, t, c, false);
  }

  class Client {
    const scheme: Scheme
    const rates: seq<int>
    const utility: seq<real>

    const thrp: array<real>
    const estimated: array<real>
    const smoothed: array<real>
    const chosenRate: array<int>
    const currBuff: array<int>
    const downloadTime: array<int>
    const actualInterRequest: array<int>

    var targetInterRequest: int
    var segIndex: nat
    var onBuffering: bool
    var lastAdaptTime: int

    // The times between the segments so far.
    ghost var times: seq<int>

    ghost predicate Shape() {
      && IsUtility(utility, rates)
      && thrp.Length == estimated.Length == smoothed.Length == NUM_OF_SEGS
      && chosenRate.Length == currBuff.Length == downloadTime.Length == actualInterRequest.Length == NUM_OF_SEGS
      && thrp != estimated && thrp != smoothed && estimated != smoothed
      && chosenRate != currBuff && chosenRate != downloadTime && chosenRate != actualInterRequest
      && currBuff != downloadTime && currBuff != actualInterRequest && downloadTime != actualInterRequest
    }

    // All arrays of the client.
    ghost function Arrays(): set<object> {
      var reals: set<object>, ints: set<object> :=
        {thrp, estimated, smoothed}, {chosenRate, currBuff, downloadTime, actualInterRequest};
      reals + ints
    }

    ghost predicate Counted()
      reads `segIndex, `times
    {
      && segIndex < NUM_OF_SEGS && segIndex <= |times| <= segIndex + 1
      && (|times| == segIndex + 1 ==> segIndex == NUM_OF_SEGS - 1)
    }

    // The segments so far are counted and their pacing is not over.
    ghost predicate Open()
      reads `segIndex, `times
    {
      Counted() && |times| == segIndex
    }

    ghost function Player(): Player
      requires Shape()
      reads `onBuffering, `times, currBuff
    {
      if 0 < |times| <= NUM_OF_SEGS then PlayerBuffer.Player(currBuff[|times| - 1], onBuffering)
      else PlayerBuffer.Player(0, onBuffering)
    }

    // Buffer and flag are those of playing the segments so far, and the slots ahead are still zero.
    ghost predicate Playing()
      requires Shape()
      reads `onBuffering, `times, currBuff
    {
      && |times| <= NUM_OF_SEGS
      && Player() == Play(PolicyOf(scheme), times)
      && forall i :: |times| <= i < NUM_OF_SEGS ==> currBuff[i] == 0
    }

    // The last estimate and its smoothing are those of all measurements and intervals so far.
    ghost predicate Estimating()
      requires Shape() && segIndex < NUM_OF_SEGS
      reads `segIndex, thrp, estimated, smoothed, actualInterRequest
    {
      segIndex > 0 ==>
        && estimated[segIndex] == Est(scheme != Conventional, thrp[..segIndex], actualInterRequest[..segIndex])
        && smoothed[segIndex] == Smoothed(scheme != Conventional, thrp[..segIndex], actualInterRequest[..segIndex])
    }

    // No request has come before its wait.
    ghost predicate Pacing()
      requires Shape()
      reads `onBuffering, `times, `segIndex, `targetInterRequest, currBuff
    {
      && Waited(PolicyOf(scheme), WaitOf(scheme), times)
      && (|times| == segIndex ==> Longer(0, targetInterRequest) >= WaitOf(scheme)(Player().buff))
      && targetInterRequest <= LONGEST_INTERVAL
    }

    ghost predicate Valid()
      reads this, thrp, estimated, smoothed, currBuff, actualInterRequest
    {
      Shape() && Counted() && Playing() && Estimating() && Pacing()
    }

    constructor (scheme: Scheme, rates: seq<int>, utility: seq<real>)
      requires IsUtility(utility, rates)
      ensures Valid() && Open() && segIndex == 0 && this.scheme == scheme
      ensures this.rates == rates && this.utility == utility
      ensures fresh(Arrays()) && lastAdaptTime == 0 && targetInterRequest == 0 && Player() == FRESH
    {
      hide IsUtility, Waited, Play, Est, Smoothed, WaitOf;
      this.scheme, this.rates, this.utility := scheme, rates, utility;
      thrp := new real[NUM_OF_SEGS](_ => 0.0);
      estimated := new real[NUM_OF_SEGS](_ => 0.0);
      smoothed := new real[NUM_OF_SEGS](_ => 0.0);
      chosenRate := new int[NUM_OF_SEGS](_ => 0);
      currBuff := new int[NUM_OF_SEGS](_ => 0);
      downloadTime := new int[NUM_OF_SEGS](_ => 0);
      actualInterRequest := new int[NUM_OF_SEGS](_ => 0);
      targetInterRequest, segIndex, onBuffering, lastAdaptTime := 0, 0, true, 0;
      times := [];
      new;
      hide Player;
      Starts();
    }

    lemma Starts()
      requires Shape() && times == [] && segIndex == 0 && onBuffering && targetInterRequest == 0
      requires forall i :: 0 <= i < NUM_OF_SEGS ==> currBuff[i] == 0
      ensures Valid() && Open() && Player() == FRESH
    {
      hide IsUtility, Waited, Play, Est, Smoothed, WaitOf;
      NothingWaited(PolicyOf(scheme), WaitOf(scheme));
      EmptyWaits(scheme);
    }

    /** The pushed segment is complete: record its download time and throughput, and the interval since the
        last request, which is the longer of download and pacing. */
    method SegmentReceived(download: int, measured: real)
      requires Valid() && Open() && download >= 0
      modifies thrp, chosenRate, downloadTime, actualInterRequest
      ensures Valid()
      ensures thrp[..] == old(thrp[..])[segIndex := measured]
      ensures downloadTime[..] == old(downloadTime[..])[segIndex := download]
      ensures actualInterRequest[..] == old(actualInterRequest[..])[segIndex := Longer(download, targetInterRequest)]
      ensures actualInterRequest[segIndex] == if targetInterRequest <= download then download else targetInterRequest
      ensures chosenRate[..] == if segIndex == 0 then old(chosenRate[..])[0 := FIRST_RATE] else old(chosenRate[..])
    {
      hide Waited, Play, IsUtility, Est, Smoothed;
      downloadTime[segIndex] := download;
      thrp[segIndex] := measured;
      if segIndex == 0 {
        chosenRate[0] := FIRST_RATE;
      }
      if targetInterRequest > downloadTime[segIndex] {
        actualInterRequest[segIndex] := targetInterRequest;
      } else {
        actualInterRequest[segIndex] := downloadTime[segIndex];
      }
      assert thrp[..segIndex] == old(thrp[..segIndex]);
      assert actualInterRequest[..segIndex] == old(actualInterRequest[..segIndex]);
    }

    // The sleep before the next request.
    function Delay(): (delay: int)
      requires Shape() && Counted()
      reads this, downloadTime
      ensures downloadTime[segIndex] + delay == Longer(downloadTime[segIndex], targetInterRequest)
    {
      var delay := targetInterRequest - downloadTime[segIndex];
      if delay > 0 then delay else 0
    }

    // The buffer part of hung_KPush_method.
    method UpdateBuffer(now: int)
      requires Shape() && Open() && Playing()
      modifies `onBuffering, `lastAdaptTime, `times, currBuff
      ensures Playing() && times == old(times) + [now - old(lastAdaptTime)] && lastAdaptTime == now
      ensures Player() == Arrive(PolicyOf(scheme), old(Player()), now - old(lastAdaptTime))
      ensures forall i :: 0 <= i < NUM_OF_SEGS && i != segIndex ==> currBuff[i] == old(currBuff[i])
      ensures currBuff[segIndex] == (if segIndex == 0 then 0 else old(currBuff[segIndex - 1])) + 2000 -
        (if old(onBuffering) then 0 else now - old(lastAdaptTime))
      ensures onBuffering <==>
        (old(onBuffering) && currBuff[segIndex] < (if scheme == Proposed then 30000 else 28000)) ||
        (scheme != Proposed && currBuff[segIndex] <= 2000)
    {
      hide Play, IsUtility;
      ghost var elapsed := now - lastAdaptTime;
      PlayExtends(PolicyOf(scheme), times, elapsed);
      if onBuffering {
        if segIndex == 0 {
          currBuff[0] := SEGMENT;
        } else {
          currBuff[segIndex] := currBuff[segIndex] + (currBuff[segIndex - 1] + SEGMENT);
        }
        if currBuff[segIndex] >= PolicyOf(scheme).target {
          onBuffering := false;
        }
      } else {
        currBuff[segIndex] := currBuff[segIndex - 1] + SEGMENT - (now - lastAdaptTime);
      }
      if PolicyOf(scheme).rebuffers && currBuff[segIndex] <= SEGMENT {
        onBuffering := true;
      }
      times := times + [elapsed];
      lastAdaptTime := now;
    }

    method UpdateEstimatedThrp()
      requires Shape() && segIndex + 1 < NUM_OF_SEGS && Estimating()
      modifies estimated
      ensures forall i :: 0 <= i < NUM_OF_SEGS && i != segIndex + 1 ==> estimated[i] == old(estimated[i])
      ensures estimated[segIndex + 1] ==
        Est(scheme != Conventional, thrp[..segIndex + 1], actualInterRequest[..segIndex + 1])
      ensures scheme == Conventional || segIndex == 0 ==> estimated[segIndex + 1] == thrp[segIndex]
      ensures scheme != Conventional && segIndex > 0 ==>
        var up := if thrp[segIndex] - estimated[segIndex] < 0.3 then thrp[segIndex] - estimated[segIndex] else 0.3;
        estimated[segIndex + 1] == estimated[segIndex] + 0.14 * up * actualInterRequest[segIndex] as real / 1000.0
    {
      ghost var n := segIndex + 1;
      assert thrp[..n][..segIndex] == thrp[..segIndex];
      assert actualInterRequest[..n][..segIndex] == actualInterRequest[..segIndex];
      if scheme == Conventional {
        estimated[segIndex + 1] := thrp[segIndex];
        return;
      }
      if segIndex == 0 {
        estimated[1] := thrp[0];
        return;
      }
      var k, w := 0.14, 0.3;
      var temp := estimated[segIndex] - thrp[segIndex] + w;
      if temp < 0.0 {
        temp := 0.0;
      }
      var rightTerm := k * (w - temp);
      var next := rightTerm * actualInterRequest[segIndex] as real / 1000.0 + estimated[segIndex];
      assert next == Probe(estimated[segIndex], thrp[segIndex], actualInterRequest[segIndex]);
      ProbeMoves(estimated[segIndex], thrp[segIndex], actualInterRequest[segIndex]);
      estimated[segIndex + 1] := next;
    }

    method UpdateSmoothedThrp()
      requires Shape() && segIndex + 1 < NUM_OF_SEGS
      requires segIndex > 0 ==>
        smoothed[segIndex] == Smoothed(scheme != Conventional, thrp[..segIndex], actualInterRequest[..segIndex])
      requires estimated[segIndex + 1] ==
        Est(scheme != Conventional, thrp[..segIndex + 1], actualInterRequest[..segIndex + 1])
      modifies smoothed
      ensures forall i :: 0 <= i < NUM_OF_SEGS && i != segIndex + 1 ==> smoothed[i] == old(smoothed[i])
      ensures smoothed[segIndex + 1] ==
        Smoothed(scheme != Conventional, thrp[..segIndex + 1], actualInterRequest[..segIndex + 1])
      ensures smoothed[segIndex + 1] ==
        if segIndex == 0 then estimated[1]
        else smoothed[segIndex] +
             (estimated[segIndex + 1] - smoothed[segIndex]) * actualInterRequest[segIndex] as real / 5000.0
    {
      ghost var n := segIndex + 1;
      assert thrp[..n][..segIndex] == thrp[..segIndex];
      assert actualInterRequest[..n][..segIndex] == actualInterRequest[..segIndex];
      if segIndex == 0 {
        smoothed[1] := estimated[1];
        return;
      }
      var alpha := 0.2;
      var rightTerm := -alpha * (smoothed[segIndex] - estimated[segIndex + 1]);
      var next := rightTerm * actualInterRequest[segIndex] as real / 1000.0 + smoothed[segIndex];
      assert next == Smooth(smoothed[segIndex], estimated[segIndex + 1], actualInterRequest[segIndex]);
      SmoothMoves(smoothed[segIndex], estimated[segIndex + 1], actualInterRequest[segIndex]);
      smoothed[segIndex + 1] := next;
    }

    // update_chosenRate of Proposed.cc.
    method GuardedChoice() returns (finalRate: int)
      requires Shape() && segIndex + 1 < NUM_OF_SEGS
      ensures IsNextRate(Proposed, utility, rates, PlayerBuffer.Player(currBuff[segIndex], onBuffering),
                         smoothed[segIndex + 1], chosenRate[segIndex], finalRate)
    {
      var curr := chosenRate[segIndex];
      var t := MaxRewardRate(utility, rates, currBuff[segIndex], |rates| - 1);
      var c := RateClosestThrp(rates, smoothed[segIndex + 1]);
      var targetRate := rates[t];
      if targetRate > curr {
        if rates[c] >= targetRate {
          finalRate := targetRate;
        } else if rates[c] < curr {
          finalRate := curr;
        } else {
          var up := OneUp(rates, c);
          if !onBuffering && currBuff[segIndex] >= 28000 {
            finalRate := rates[up];
          } else {
            finalRate := rates[c];
          }
        }
      } else {
        finalRate := targetRate;
      }
      assert IsProposedChoice(utility, rates, currBuff[segIndex], t);
      assert finalRate == GuardedRate(rates, curr, t, c, !onBuffering && currBuff[segIndex] >= 28000);
    }

    // update_chosenRate of PANDA.cc and Conventional.cpp.
    method DeadZoneChoice() returns (next: int)
      requires Shape() && segIndex + 1 < NUM_OF_SEGS
      requires RungsExist(smoothed[segIndex + 1])
      ensures IsDeadZoneRate(rates, chosenRate[segIndex], smoothed[segIndex + 1], next)
    {
      var s, curr := smoothed[segIndex + 1], chosenRate[segIndex];
      var deltaDown, deltaUp := 0.0, EPSILON * s;
      var rateDown := HighestAtMost(rates, s - deltaDown);
      var rateUp := HighestAtMost(rates, s - deltaUp);
      if curr < rateUp {
        next := rateUp;
      } else if curr >= rateUp && curr <= rateDown {
        next := curr;
      } else {
        next := rateDown;
      }
      assert next == InDeadZone(curr, rateUp, rateDown);
    }

    // Some rung is at most 85 % of the smoothed throughput.
    predicate RungsExist(s: real)
      requires Shape()
    {
      rates[0] as real <= s - EPSILON * s
    }

    method UpdateChosenRate()
      requires Shape() && segIndex + 1 < NUM_OF_SEGS
      requires scheme != Proposed ==> RungsExist(smoothed[segIndex + 1])
      modifies chosenRate
      ensures forall i :: 0 <= i < NUM_OF_SEGS && i != segIndex + 1 ==> chosenRate[i] == old(chosenRate[i])
      ensures IsNextRate(scheme, utility, rates, PlayerBuffer.Player(currBuff[segIndex], onBuffering),
                         smoothed[segIndex + 1], chosenRate[segIndex], chosenRate[segIndex + 1])
    {
      var next;
      if scheme == Proposed {
        next := GuardedChoice();
      } else {
        next := DeadZoneChoice();
      }
      chosenRate[segIndex + 1] := next;
    }

    method UpdateTargetInterRequest()
      requires Shape() && segIndex + 1 < NUM_OF_SEGS
      requires scheme != Conventional ==> smoothed[segIndex + 1] != 0.0
      modifies `targetInterRequest
      ensures targetInterRequest ==
        TargetInterval(scheme, chosenRate[segIndex + 1], smoothed[segIndex + 1], currBuff[segIndex])
      ensures Paces(scheme, chosenRate[segIndex + 1], smoothed[segIndex + 1], currBuff[segIndex], targetInterRequest)
    {
      IntervalPaces(scheme, chosenRate[segIndex + 1], smoothed[segIndex + 1], currBuff[segIndex]);
      if scheme != Conventional {
        targetInterRequest := Truncate((chosenRate[segIndex + 1] * SEGMENT) as real / smoothed[segIndex + 1]);
        targetInterRequest := Truncate(targetInterRequest as real +
                                       BETA * (currBuff[segIndex] - PolicyOf(scheme).target) as real);
      }
      if scheme != Panda {
        if currBuff[segIndex] >= PolicyOf(scheme).target {
          targetInterRequest := SEGMENT;
        } else {
          targetInterRequest := 0;
        }
      }
    }

    // The smoothed throughput the next choice is made from.
    ghost function NextSmoothed(): real
      requires Shape() && segIndex < NUM_OF_SEGS
      reads `segIndex, thrp, actualInterRequest
    {
      Smoothed(scheme != Conventional, thrp[..segIndex + 1], actualInterRequest[..segIndex + 1])
    }

    // What the choice needs of it: PANDA and Conventional a rung to choose, Proposed a divisor.
    ghost predicate Choosable()
      requires Shape() && segIndex < NUM_OF_SEGS
      reads `segIndex, thrp, actualInterRequest
    {
      segIndex + 1 < NUM_OF_SEGS ==>
        if scheme == Proposed then NextSmoothed() != 0.0 else RungsExist(NextSmoothed())
    }

    // The estimate for the next segment and its smoothing.
    method EstimateNext()
      requires Shape() && segIndex + 1 < NUM_OF_SEGS && Estimating()
      modifies estimated, smoothed
      ensures estimated[segIndex + 1] ==
        Est(scheme != Conventional, thrp[..segIndex + 1], actualInterRequest[..segIndex + 1])
      ensures smoothed[segIndex + 1] == NextSmoothed()
      ensures OnlyAt(old(estimated[..]), estimated[..], segIndex + 1)
      ensures OnlyAt(old(smoothed[..]), smoothed[..], segIndex + 1)
    {
      hide Est, Smoothed, IsUtility;
      UpdateEstimatedThrp();
      UpdateSmoothedThrp();
    }

    // The rate of the next segment and the interval to its request.
    method ChooseNext()
      requires Shape() && segIndex + 1 == |times| < NUM_OF_SEGS && Player().buff < CeilingOf(scheme)
      requires if scheme == Proposed then smoothed[segIndex + 1] != 0.0 else RungsExist(smoothed[segIndex + 1])
      modifies `targetInterRequest, chosenRate
      ensures IsNextRate(scheme, utility, rates, Player(), smoothed[segIndex + 1],
                         old(chosenRate[segIndex]), chosenRate[segIndex + 1])
      ensures targetInterRequest ==
        TargetInterval(scheme, chosenRate[segIndex + 1], smoothed[segIndex + 1], Player().buff)
      ensures Paces(scheme, chosenRate[segIndex + 1], smoothed[segIndex + 1], Player().buff, targetInterRequest)
      ensures Longer(0, targetInterRequest) >= WaitOf(scheme)(Player().buff) && targetInterRequest <= LONGEST_INTERVAL
      ensures OnlyAt(old(chosenRate[..]), chosenRate[..], segIndex + 1)
    {
      hide IsNextRate, IsUtility, TargetInterval, IsLadder, WaitOf, Paces;
      ghost var buff, curr := currBuff[segIndex], chosenRate[segIndex];
      assert Player() == PlayerBuffer.Player(buff, onBuffering);
      NeverZero(smoothed[segIndex + 1]);
      UpdateChosenRate();
      assert chosenRate[segIndex] == curr;
      UpdateTargetInterRequest();
      Steered(chosenRate[segIndex + 1], curr, smoothed[segIndex + 1], Player());
    }

    // Estimate, choose and pace the next segment.
    method PrepareNext()
      requires Shape() && segIndex + 1 == |times| < NUM_OF_SEGS && Estimating() && Choosable()
      requires Player().buff < CeilingOf(scheme)
      modifies `segIndex, `targetInterRequest, estimated, smoothed, chosenRate
      ensures Shape() && segIndex == old(segIndex) + 1 && Open() && Estimating()
      ensures smoothed[segIndex] == old(NextSmoothed())
      ensures IsNextRate(scheme, utility, rates, Player(), smoothed[segIndex],
                         old(chosenRate[segIndex]), chosenRate[segIndex])
      ensures targetInterRequest == TargetInterval(scheme, chosenRate[segIndex], smoothed[segIndex], Player().buff)
      ensures Paces(scheme, chosenRate[segIndex], smoothed[segIndex], Player().buff, targetInterRequest)
      ensures Longer(0, targetInterRequest) >= WaitOf(scheme)(Player().buff) && targetInterRequest <= LONGEST_INTERVAL
      ensures OnlyAt(old(estimated[..]), estimated[..], segIndex) && OnlyAt(old(smoothed[..]), smoothed[..], segIndex)
      ensures OnlyAt(old(chosenRate[..]), chosenRate[..], segIndex)
    {
      hide Est, Smoothed, IsNextRate, IsUtility, TargetInterval, IsLadder, OnlyAt, WaitOf, RungsExist, Paces;
      EstimateNext();
      ChooseNext();
      segIndex := segIndex + 1;
    }

    lemma Steered(next: int, curr: int, s: real, p: Player)
      requires Shape() && (scheme == Panda ==> RungsExist(s)) && IsNextRate(scheme, utility, rates, p, s, curr, next)
      requires p.buff < CeilingOf(scheme)
      ensures scheme == Panda ==> s != 0.0
      ensures Longer(0, TargetInterval(scheme, next, s, p.buff)) >= WaitOf(scheme)(p.buff)
      ensures TargetInterval(scheme, next, s, p.buff) <= LONGEST_INTERVAL
    {
      if scheme == Panda {
        RateWithin(rates, next, curr, s);
      }
      IntervalWaits(scheme, next, s, p.buff);
      IntervalIsShort(scheme, next, s, p.buff);
    }

    lemma NeverZero(s: real)
      requires Shape() && (if scheme == Proposed then s != 0.0 else RungsExist(s))
      ensures scheme != Conventional ==> s != 0.0
    {
    }

    /** The request stream closes: sleep, play, and unless that was the last segment estimate, choose and pace
        the next one. A step takes at least the download and the sleep. */
    method RequestClosed(now: int)
      requires Valid() && Open() && Choosable()
      requires downloadTime[segIndex] >= 0 && now - lastAdaptTime >= downloadTime[segIndex] + Delay()
      modifies this, estimated, smoothed, chosenRate, currBuff
      ensures Valid() && times == old(times) + [now - old(lastAdaptTime)] && lastAdaptTime == now
      ensures Player() == Arrive(PolicyOf(scheme), old(Player()), now - old(lastAdaptTime))
      ensures Player().buff < CeilingOf(scheme) && OnlyAt(old(currBuff[..]), currBuff[..], old(segIndex))
      ensures old(segIndex) == NUM_OF_SEGS - 1 ==>
        segIndex == old(segIndex) && !Open() && unchanged(`targetInterRequest, estimated, smoothed, chosenRate)
      ensures old(segIndex) < NUM_OF_SEGS - 1 ==>
        && segIndex == old(segIndex) + 1 && Open() && smoothed[segIndex] == old(NextSmoothed())
        && OnlyAt(old(estimated[..]), estimated[..], segIndex) && OnlyAt(old(smoothed[..]), smoothed[..], segIndex)
        && OnlyAt(old(chosenRate[..]), chosenRate[..], segIndex)
        && IsNextRate(scheme, utility, rates, Player(), smoothed[segIndex],
                      old(chosenRate[segIndex]), chosenRate[segIndex])
        && targetInterRequest == TargetInterval(scheme, chosenRate[segIndex], smoothed[segIndex], Player().buff)
        && Paces(scheme, chosenRate[segIndex], smoothed[segIndex], Player().buff, targetInterRequest)
    {
      hide Est, Smoothed, IsNextRate, IsUtility, IsLadder, Arrive, Play, Waited, Paces;
      ghost var elapsed := now - lastAdaptTime;
      UpdateBuffer(now);
      KeepsPace(old(times), elapsed);
      if segIndex == NUM_OF_SEGS - 1 {
        return;
      }
      PrepareNext();
    }

    lemma KeepsPace(before: seq<int>, elapsed: int)
      requires Shape() && Playing() && times == before + [elapsed]
      requires Waited(PolicyOf(scheme), WaitOf(scheme), before)
      requires elapsed >= WaitOf(scheme)(Play(PolicyOf(scheme), before).buff)
      ensures Waited(PolicyOf(scheme), WaitOf(scheme), times) && Player().buff < CeilingOf(scheme)
    {
      hide Waited, Play, IsUtility;
      WaitedExtends(PolicyOf(scheme), WaitOf(scheme), before, elapsed);
      if scheme == Panda {
        SteeredBuffer(PolicyOf(scheme), times);
      } else {
        PacedBuffer(PolicyOf(scheme), times);
      }
    }

    // --- the closed loop: what the environment has to promise ---

    // The first n measurements are within bounds and their intervals at most 5 s.
    ghost predicate Sampled(lo: real, hi: real, n: nat)
      requires Shape()
      reads thrp, actualInterRequest
    {
      forall i :: 0 <= i < n && i < NUM_OF_SEGS ==> lo <= thrp[i] <= hi && 0 <= actualInterRequest[i] <= 5000
    }

    // The lower bound leaves a rung.
    predicate LeavesRung(lo: real)
      requires Shape()
    {
      rates[0] as real <= 0.85 * lo
    }

    lemma WithinBounds(lo: real, hi: real, n: nat)
      requires Shape() && 0 < n <= NUM_OF_SEGS && Sampled(lo, hi, n) && LeavesRung(lo)
      ensures var probing, samples, gaps := scheme != Conventional, thrp[..n], actualInterRequest[..n];
        && lo <= Est(probing, samples, gaps) <= hi && lo <= Smoothed(probing, samples, gaps) <= hi
        && RungsExist(Smoothed(probing, samples, gaps)) && Smoothed(probing, samples, gaps) != 0.0
    {
      hide Est, Smoothed;
      StaysWithinSamples(scheme != Conventional, thrp[..n], actualInterRequest[..n], lo, hi);
      SamplesSuffice(scheme != Conventional, rates, thrp[..n], actualInterRequest[..n], lo, hi);
    }

    // What holds between segments: the client is where its measurements put it, and they put it within bounds.
    ghost predicate OnCourse(lo: real, hi: real)
      reads this, thrp, estimated, smoothed, chosenRate, currBuff, actualInterRequest
    {
      && Valid() && Sampled(lo, hi, |times|) && LeavesRung(lo) && Player().buff < CeilingOf(scheme)
      && (segIndex > 0 ==> lo <= estimated[segIndex] <= hi && lo <= smoothed[segIndex] <= hi)
      && (segIndex > 0 && FIRST_RATE in rates ==> chosenRate[segIndex] in rates)
    }

    lemma MovesToRung(p: Player, smoothed: real, curr: int, next: int)
      requires Shape() && curr in rates && IsNextRate(scheme, utility, rates, p, smoothed, curr, next)
      ensures next in rates
    {
      if scheme == Proposed {
        ProposedBounds(utility, rates, p, smoothed, curr, next);
      }
    }

    /** A whole segment, whatever is measured: while throughputs stay within bounds whose lower one leaves a rung and
        downloads take at most 5 s, the client can always choose, its estimates stay within the bounds, its
        buffer under the ceiling, and its rates on a ladder that has the first one. */
    method Segment(download: int, measured: real, now: int, ghost lo: real, ghost hi: real)
      requires OnCourse(lo, hi) && Open()
      requires 0 <= download <= 5000 && lo <= measured <= hi
      requires now - lastAdaptTime >= Longer(download, targetInterRequest)
      modifies this, thrp, estimated, smoothed, chosenRate, currBuff, downloadTime, actualInterRequest
      ensures OnCourse(lo, hi) && times == old(times) + [now - old(lastAdaptTime)] && lastAdaptTime == now
      ensures thrp[old(segIndex)] == measured
      ensures Open() <==> old(segIndex) < NUM_OF_SEGS - 1
      ensures Open() ==>
        && segIndex == old(segIndex) + 1
        && IsNextRate(scheme, utility, rates, Player(), smoothed[segIndex],
                      chosenRate[segIndex - 1], chosenRate[segIndex])
    {
      hide Est, Smoothed, IsNextRate, IsUtility, IsLadder, Arrive, Play, Waited, TargetInterval, Paces, RungsExist,
        WaitOf, CeilingOf, PolicyOf, LeavesRung;
      ghost var n := segIndex + 1;
      SegmentReceived(download, measured);
      assert Sampled(lo, hi, n);
      WithinBounds(lo, hi, n);
      ghost var curr := chosenRate[segIndex];
      RequestClosed(now);
      if Open() && curr in rates {
        MovesToRung(Player(), smoothed[segIndex], curr, chosenRate[segIndex]);
      }
    }
  }

  // What the environment answers to one request: download time, throughput and what else passes.
  datatype Answer = Answer(download: int, measured: real, slack: nat)

  ghost predicate Bounded(answers: seq<Answer>, lo: real, hi: real) {
    forall i :: 0 <= i < |answers| ==> 0 <= answers[i].download <= 5000 && lo <= answers[i].measured <= hi
  }

  /** A whole run from the start: for all answers within bounds every segment is played on course. */
  method PlayAll(scheme: Scheme, rates: seq<int>, utility: seq<real>, answers: seq<Answer>,
                 ghost lo: real, ghost hi: real)
      returns (client: Client)
    requires IsUtility(utility, rates) && |answers| <= NUM_OF_SEGS
    requires Bounded(answers, lo, hi) && rates[0] as real <= 0.85 * lo
    ensures client.OnCourse(lo, hi) && |client.times| == |answers|
  {
    client := new Client(scheme, rates, utility);
    EmptyBelow(scheme);
    for i := 0 to |answers|
      invariant fresh(client) && fresh(client.Arrays())
      invariant client.OnCourse(lo, hi) && |client.times| == i && client.rates == rates
      invariant i < NUM_OF_SEGS ==> client.Open()
    {
      var a := answers[i];
      var now := client.lastAdaptTime + Longer(a.download, client.targetInterRequest) + a.slack;
      client.Segment(a.download, a.measured, now, lo, hi);
    }
  }

  lemma EmptyBelow(scheme: Scheme)
    ensures 0 < CeilingOf(scheme)
  {
  }
}
