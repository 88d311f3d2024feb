/** BOLA.cc and FESTIVE.cc: clients that account for a segment when its push closes and sleep off what exceeds
    a threshold before the next request. They share their per-segment arrays and the buffer's bookkeeping. */
module ThresholdClient {
  import opened BitStrings
  import opened Ladder
  import opened BolaReward
  import opened PlayerBuffer
  import opened RateChoice
  import opened FestiveChoice

  datatype Scheme = Bola | Festive

  // No threshold exceeds this: BOLA's is fixed, FESTIVE draws below the target and one segment.
  function BoundOf(scheme: Scheme): int {
    match scheme
    case Bola => 30000 - SEGMENT
    case Festive => 30000 + SEGMENT - 1
  }

  class Client {
    const scheme: Scheme
    const rates: seq<int>
    const utility: seq<real>

    const thrp: array<real>
    const estimated: array<real>
    const chosenRate: array<int>
    const currBuff: array<int>

    var segIndex: nat
    var onBuffering: bool
    var lastAdaptTime: int
    var refRateLevel: int
    var counter: int

    // The times between the segments so far, the thresholds of all requests and the sleep of the last one.
    ghost var times: seq<int>
    ghost var thresholds: seq<int>
    ghost var slept: int

    // The calls of chooseRefRate so far.
    ghost var calls: seq<Call>

    ghost predicate Shape() {
      && IsUtility(utility, rates) && |rates| >= 10
      && thrp.Length == estimated.Length == chosenRate.Length == currBuff.Length == NUM_OF_SEGS
      && thrp != estimated && chosenRate != currBuff
    }

    // All arrays of the client.
    ghost function Arrays(): set<object> {
      var reals: set<object>, ints: set<object> := {thrp, estimated}, {chosenRate, currBuff};
      reals + ints
    }

    ghost function Player(): Player
      requires Shape()
      reads `onBuffering, `times, currBuff
    {
      if 0 < |times| <= NUM_OF_SEGS then PlayerBuffer.Player(currBuff[|times| - 1], onBuffering)
      else PlayerBuffer.Player(0, onBuffering)
    }

    // Buffer and flag are those of playing the segments so far, and the slots ahead are still zero.
    ghost predicate Playing()
      requires Shape()
      reads `onBuffering, `times, currBuff
    {
      && |times| <= NUM_OF_SEGS
      && Player() == Play(THRESHOLD_POLICY, times)
      && forall i :: |times| <= i < NUM_OF_SEGS ==> currBuff[i] == 0
    }

    // One threshold a request, each within bounds, and no segment came before its request.
    ghost predicate Sleeping()
      reads `times, `thresholds
    {
      && |times| <= |thresholds| <= |times| + 1
      && (forall i :: 0 <= i < |thresholds| ==> thresholds[i] <= BoundOf(scheme))
      && Slept(thresholds[..|times|], times)
    }

    // The push of the current segment has been requested but has not closed yet.
    ghost predicate Requested()
      requires Shape()
      reads `segIndex, `times, `thresholds, `slept, `onBuffering, currBuff
    {
      |times| == segIndex && |thresholds| == segIndex + 1 && slept == Excess(thresholds[segIndex], Player().buff)
    }

    ghost predicate Received()
      reads `segIndex, `times, `thresholds
    {
      |times| == |thresholds| == segIndex + 1
    }

    ghost predicate Climbing()
      requires Shape()
      reads `refRateLevel, `counter, `calls, `segIndex
    {
      Reference(refRateLevel, counter) == Climb(rates, calls) && |calls| <= segIndex
    }

    ghost predicate Valid()
      reads this, currBuff
    {
      && Shape() && segIndex < NUM_OF_SEGS && Playing() && Sleeping() && Climbing()
      && (Requested() || Received())
    }

    constructor (scheme: Scheme, rates: seq<int>, utility: seq<real>)
      requires IsUtility(utility, rates) && |rates| >= 10
      ensures Valid() && Requested() && segIndex == 0 && this.scheme == scheme
      ensures this.rates == rates && this.utility == utility
      ensures fresh(Arrays()) && lastAdaptTime == 0 && slept == 0 && calls == []
    {
      this.scheme, this.rates, this.utility := scheme, rates, utility;
      thrp := new real[NUM_OF_SEGS](_ => 0.0);
      estimated := new real[NUM_OF_SEGS](_ => 0.0);
      chosenRate := new int[NUM_OF_SEGS](_ => 0);
      currBuff := new int[NUM_OF_SEGS](_ => 0);
      segIndex, onBuffering, lastAdaptTime, refRateLevel, counter := 0, true, 0, 1, 1;
      times, thresholds, slept, calls := [], [0], 0, [];
    }

    // The buffer part of the closing of a push.
    method UpdateBuffer(now: int)
      requires Shape() && segIndex == |times| < NUM_OF_SEGS && Playing()
      modifies `onBuffering, `lastAdaptTime, `times, currBuff
      ensures Playing() && times == old(times) + [now - old(lastAdaptTime)] && lastAdaptTime == now
      ensures Player() == Arrive(THRESHOLD_POLICY, old(Player()), now - old(lastAdaptTime))
      ensures OnlyAt(old(currBuff[..]), currBuff[..], segIndex)
      ensures currBuff[segIndex] == (if segIndex == 0 then 0 else old(currBuff[segIndex - 1])) + 2000 -
        (if old(onBuffering) then 0 else now - old(lastAdaptTime))
      ensures onBuffering <==>
        (old(onBuffering) && currBuff[segIndex] < 30000) || currBuff[segIndex] <= 2000
    {
      hide Play, IsUtility;
      ghost var elapsed := now - lastAdaptTime;
      PlayExtends(THRESHOLD_POLICY, times, elapsed);
      if onBuffering {
        if segIndex == 0 {
          currBuff[0] := SEGMENT;
        } else {
          currBuff[segIndex] := currBuff[segIndex] + (currBuff[segIndex - 1] + SEGMENT);
        }
        if currBuff[segIndex] >= THRESHOLD_POLICY.target {
          onBuffering := false;
        }
      } else {
        currBuff[segIndex] := currBuff[segIndex - 1] + SEGMENT - (now - lastAdaptTime);
      }
      if currBuff[segIndex] <= SEGMENT {
        onBuffering := true;
      }
      times := times + [elapsed];
      lastAdaptTime := now;
    }

    lemma SleptOneMore(before: seq<int>, elapsed: int)
      requires Shape() && Playing() && times == before + [elapsed] && |thresholds| == |times|
      requires Slept(thresholds[..|before|], before)
      requires elapsed >= Excess(thresholds[|before|], Play(THRESHOLD_POLICY, before).buff)
      requires forall i :: 0 <= i < |thresholds| ==> thresholds[i] <= BoundOf(scheme)
      ensures Sleeping()
      ensures var p := Player();
        && p.buff < (if scheme == Bola then 30000 + SEGMENT else 30000 + 2 * SEGMENT)
        && (p.buffering ==> p.buff < 30000) && (!p.buffering ==> p.buff > SEGMENT)
      ensures !Play(THRESHOLD_POLICY, before).buffering ==> Player().buff <= BoundOf(scheme) + SEGMENT
    {
      hide Play, Slept, Excess, IsUtility;
      SleptOnce(thresholds, before, elapsed, BoundOf(scheme));
      assert thresholds[..|times|] == thresholds;
    }

    /** The push closes: record its throughput and play. No push takes less than the sleep before its request,
        so the buffer stays below the target and one segment under BOLA, two under FESTIVE, buffering means
        below the target and playing means more than one segment; under BOLA a segment that arrives during
        playback leaves at most the target. */
    method PushClosed(now: int, measured: real)
      requires Valid() && Requested() && now - lastAdaptTime >= slept
      modifies `onBuffering, `lastAdaptTime, `times, thrp, chosenRate, currBuff
      ensures Valid() && Received() && times == old(times) + [now - old(lastAdaptTime)] && lastAdaptTime == now
      ensures Player() == Arrive(THRESHOLD_POLICY, old(Player()), now - old(lastAdaptTime))
      ensures thrp[..] == old(thrp[..])[segIndex := measured] && OnlyAt(old(currBuff[..]), currBuff[..], segIndex)
      ensures chosenRate[..] == if segIndex == 0 then old(chosenRate[..])[0 := FIRST_RATE] else old(chosenRate[..])
      ensures var p := Player();
        && p.buff < (if scheme == Bola then 30000 + SEGMENT else 30000 + 2 * SEGMENT)
        && (p.buffering ==> p.buff < 30000) && (!p.buffering ==> p.buff > SEGMENT)
      ensures scheme == Bola && !old(onBuffering) ==> Player().buff <= 30000
    {
      hide Arrive, Play, Slept, IsUtility, Climb;
      thrp[segIndex] := measured;
      if segIndex == 0 {
        chosenRate[0] := FIRST_RATE;
      }
      ghost var elapsed := now - lastAdaptTime;
      UpdateBuffer(now);
      SleptOneMore(old(times), elapsed);
    }

    /** The request of BOLA closes: unless the segment was the last, choose the next rate, keep it when no
        reward is positive, and sleep what exceeds the threshold before requesting. */
    method BolaRequestClosed() returns (delay: int)
      requires Valid() && Received() && scheme == Bola
      modifies `segIndex, `thresholds, `slept, chosenRate
      ensures Valid()
      ensures old(segIndex) == NUM_OF_SEGS - 1 ==> Received() && segIndex == old(segIndex) && unchanged(chosenRate)
      ensures old(segIndex) < NUM_OF_SEGS - 1 ==>
        && Requested() && segIndex == old(segIndex) + 1
        && chosenRate[..] == old(chosenRate[..])[segIndex := chosenRate[segIndex]]
        && IsBolaRate(utility, rates, Player().buff, thrp[segIndex - 1], chosenRate[segIndex - 1], chosenRate[segIndex])
        && delay == slept == Excess(30000 - SEGMENT, Player().buff)
        && delay == if Player().buff > 28000 then Player().buff - 28000 else 0
    {
      hide Slept, IsUtility, Climb, Play, IsBolaRate;
      delay := 0;
      if segIndex == NUM_OF_SEGS - 1 {
        return;
      }
      var finalRate := BolaChoice();
      segIndex := segIndex + 1;
      chosenRate[segIndex] := finalRate;
      delay := currBuff[segIndex - 1] - (30000 - SEGMENT);
      if delay < 0 {
        delay := 0;
      }
      Request(30000 - SEGMENT, delay);
    }

    method BolaChoice() returns (finalRate: int)
      requires Shape() && segIndex < NUM_OF_SEGS
      ensures IsBolaRate(utility, rates, currBuff[segIndex], thrp[segIndex], chosenRate[segIndex], finalRate)
    {
      var chosenRateIdx := MaxRewardRate(utility, rates, currBuff[segIndex], -1);
      var currRate := chosenRate[segIndex];
      if chosenRateIdx >= 0 {
        var targetRate := rates[chosenRateIdx];
        var c := RateClosestThrp(rates, thrp[segIndex]);
        if targetRate > currRate {
          if rates[c] >= targetRate {
            finalRate := targetRate;
          } else if rates[c] < currRate {
            finalRate := currRate;
          } else {
            finalRate := rates[c];
          }
        } else {
          finalRate := targetRate;
        }
        assert finalRate == GuardedRate(rates, currRate, chosenRateIdx, c, false);
      } else {
        finalRate := currRate;
      }
    }

    // A request goes out after its sleep.
    ghost method Request(threshold: int, delay: int)
      requires Shape() && |times| == |thresholds| == segIndex && Sleeping() && threshold <= BoundOf(scheme)
      requires delay == Excess(threshold, Player().buff)
      modifies `thresholds, `slept
      ensures Sleeping() && Requested() && slept == delay
    {
      thresholds := thresholds + [threshold];
      slept := delay;
      assert thresholds[..|times|] == old(thresholds)[..|times|];
    }

    // chooseRefRate, for the segment after the one just received.
    method ChooseRefRate()
      requires Shape() && 0 < segIndex < NUM_OF_SEGS && |calls| < segIndex && Climbing()
      modifies `refRateLevel, `counter, `calls
      ensures calls == old(calls) + [Call(chosenRate[segIndex - 1], estimated[segIndex])] && Climbing()
      ensures 1 <= refRateLevel <= 10 && refRateLevel <= old(refRateLevel) + 1
      ensures refRateLevel * (refRateLevel - 1) / 2 <= segIndex
      ensures 1 <= old(refRateLevel) <= 10
      ensures Moves(rates, Reference(old(refRateLevel), old(counter)), chosenRate[segIndex - 1], estimated[segIndex],
                    Reference(refRateLevel, counter))
    {
      ghost var call := Call(chosenRate[segIndex - 1], estimated[segIndex]);
      ghost var before := calls;
      calls := calls + [call];
      assert calls[..|calls| - 1] == before && calls[|calls| - 1] == call;
      ClimbBound(rates, calls);
      if chosenRate[segIndex - 1] as real > 0.9 * estimated[segIndex] {
        refRateLevel := if refRateLevel > 1 then refRateLevel - 1 else 1;
        counter := refRateLevel;
        return;
      }
      counter := counter - 1;
      if counter <= 0 && rates[refRateLevel - 1] == chosenRate[segIndex - 1] {
        if refRateLevel < 10 {
          refRateLevel := refRateLevel + 1;
          counter := refRateLevel;
          return;
        }
      }
    }

    // The window of the throughput estimate: the last 20 segments.
    function WindowStart(): (start: nat)
      requires segIndex < NUM_OF_SEGS
      reads `segIndex
      ensures start <= segIndex
    {
      if segIndex >= 19 then segIndex - 19 else 0
    }

    ghost function Window(): seq<real>
      requires Shape() && segIndex < NUM_OF_SEGS
      reads `segIndex, thrp
    {
      thrp[WindowStart()..segIndex + 1]
    }

    /** The estimate is the harmonic mean of the last 20 throughputs, or 0 when one of them is 0. */
    method EstimateThrp() returns (estimate: real)
      requires Shape() && segIndex < NUM_OF_SEGS && Measured(Window())
      ensures estimate == Estimate(Window()) && estimate >= 0.0
      ensures Window() == thrp[if segIndex < 20 then 0 else segIndex - 19..segIndex + 1]
    {
      hide Inverse;
      var lower := WindowStart();
      ghost var window := Window();
      var sum, infinite := 0.0, false;
      for i := lower to segIndex + 1
        invariant infinite <==> !Rates(window[..i - lower])
        invariant !infinite ==> sum == InverseSum(window[..i - lower]) && (i > lower ==> sum > 0.0) && sum >= 0.0
      {
        ghost var n := i - lower;
        assert window[..n + 1][..n] == window[..n] && window[n] == thrp[i];
        if thrp[i] == 0.0 {
          infinite := true;
          assert window[..n + 1][n] == 0.0;
        } else if !infinite {
          InversePositive(thrp[i]);
          sum := sum + Inverse(thrp[i]);
        } else {
          StillNotRates(window, n);
        }
      }
      assert window[..segIndex + 1 - lower] == window;
      if infinite {
        return 0.0;
      }
      MeanPositive(sum, segIndex - lower + 1);
      var mean := sum * 1.0 / (segIndex - lower + 1) as real;
      estimate := 1.0 / mean;
    }

    lemma StillNotRates(window: seq<real>, n: nat)
      requires n < |window| && !Rates(window[..n])
      ensures !Rates(window[..n + 1])
    {
      var i :| 0 <= i < n && window[..n][i] <= 0.0;
      assert window[..n + 1][i] <= 0.0;
    }

    // The switches of the last fourteen segments, or of all before the ninth; where the source looks before the
    // first rate it may count anything.
    function RecentSwitches(stray: nat): (n: nat)
      requires Shape() && segIndex < NUM_OF_SEGS
      reads `segIndex, chosenRate
      ensures n <= 14 || 9 <= segIndex <= 13
    {
      if LooksFrom(segIndex) < 0 then stray else Switches(chosenRate[..], LooksFrom(segIndex), segIndex)
    }

    method NumOfSwitches(stray: nat) returns (n: nat)
      requires Shape() && segIndex < NUM_OF_SEGS
      ensures n == RecentSwitches(stray)
    {
      var lower := if segIndex >= 9 then segIndex - 14 else 0;
      if lower < 0 {
        return stray;
      }
      n := 0;
      for i := lower to segIndex
        invariant n == Switches(chosenRate[..], lower, i)
      {
        if chosenRate[i] != chosenRate[i + 1] {
          n := n + 1;
        }
      }
    }

    // The comparison of costs in hung_KPush_method.
    method CompareCosts(switches: nat) returns (rate: int)
      requires Shape() && 0 < segIndex < NUM_OF_SEGS && 1 <= refRateLevel <= 10 && estimated[segIndex] >= 0.0
      ensures rates[refRateLevel - 1] > 0
      ensures rate == Cheaper(chosenRate[segIndex - 1], rates[refRateLevel - 1], switches, estimated[segIndex])
      ensures rate == if Worthwhile(chosenRate[segIndex - 1], rates[refRateLevel - 1], switches, estimated[segIndex])
                      then rates[refRateLevel - 1] else chosenRate[segIndex - 1]
    {
      hide Worthwhile;
      TopUtility(utility, rates);
      TakenExactly(chosenRate[segIndex - 1], rates[refRateLevel - 1], switches, estimated[segIndex]);
      var refRate, currRate := rates[refRateLevel - 1], chosenRate[segIndex - 1];
      var denominator := if estimated[segIndex] < refRate as real then estimated[segIndex] else refRate as real;
      if denominator == 0.0 {
        return currRate;
      }
      var efficiencyCurr := currRate as real * 1.0 / denominator - 1.0;
      if efficiencyCurr < 0.0 {
        efficiencyCurr := 0.0 - efficiencyCurr;
      }
      var efficiencyRef := refRate as real * 1.0 / denominator - 1.0;
      if efficiencyRef < 0.0 {
        efficiencyRef := 0.0 - efficiencyRef;
      }
      var totalCurr := Pow2(switches) as real + ALPHA * efficiencyCurr;
      var totalRef := Pow2(switches + 1) as real + ALPHA * efficiencyRef;
      assert totalCurr == Cost(currRate, switches, denominator);
      assert totalRef == Cost(refRate, switches + 1, denominator);
      if totalRef < totalCurr {
        rate := refRate;
      } else {
        rate := currRate;
      }
    }

    // Go on to the next segment: its estimate, the reference level and its rate.
    method Adapt(switches: nat)
      requires Shape() && segIndex + 1 < NUM_OF_SEGS && |calls| == segIndex && Climbing() && Measured(Window())
      modifies `segIndex, `refRateLevel, `counter, `calls, estimated, chosenRate
      ensures Climbing() && segIndex == old(segIndex) + 1 == |calls|
      ensures calls == old(calls) + [Call(chosenRate[segIndex - 1], estimated[segIndex])]
      ensures estimated[segIndex] == old(Estimate(Window())) >= 0.0
      ensures estimated[..] == old(estimated[..])[segIndex := estimated[segIndex]]
      ensures chosenRate[..] == old(chosenRate[..])[segIndex := chosenRate[segIndex]]
      ensures 1 <= old(refRateLevel) <= 10 && 1 <= refRateLevel <= 10 && rates[refRateLevel - 1] > 0
      ensures chosenRate[segIndex] ==
        Cheaper(chosenRate[segIndex - 1], rates[refRateLevel - 1], switches, estimated[segIndex])
      ensures Decides(rates, old(Reference(refRateLevel, counter)), chosenRate[segIndex - 1], estimated[segIndex],
                      switches, Reference(refRateLevel, counter), chosenRate[segIndex])
    {
      hide IsUtility, Climb, Cheaper, Worthwhile, Moves, Estimate;
      var estimate := EstimateThrp();
      segIndex := segIndex + 1;
      estimated[segIndex] := estimate;
      ChooseRefRate();
      var rate := CompareCosts(switches);
      chosenRate[segIndex] := rate;
    }

    /** The request of FESTIVE closes: unless the segment was the last, estimate, move the reference level,
        choose by cost and sleep what exceeds the threshold drawn. */
    method FestiveRequestClosed(randbuff: int, stray: nat) returns (delay: int)
      requires Valid() && Received() && scheme == Festive && |calls| == segIndex
      requires 30000 - SEGMENT <= randbuff < 30000 + SEGMENT && Measured(Window())
      modifies `segIndex, `thresholds, `slept, `refRateLevel, `counter, `calls, estimated, chosenRate
      ensures Valid()
      ensures old(segIndex) == NUM_OF_SEGS - 1 ==>
        Received() && segIndex == old(segIndex) &&
        unchanged(`refRateLevel, `counter, `calls, estimated, chosenRate)
      ensures old(segIndex) < NUM_OF_SEGS - 1 ==>
        && Requested() && segIndex == old(segIndex) + 1 == |calls| && delay == slept == Excess(randbuff, Player().buff)
        && delay == (if Player().buff > randbuff then Player().buff - randbuff else 0)
        && estimated[segIndex] == old(Estimate(Window())) >= 0.0
        && estimated[..] == old(estimated[..])[segIndex := estimated[segIndex]]
        && calls == old(calls) + [Call(chosenRate[segIndex - 1], estimated[segIndex])]
        && 1 <= refRateLevel <= 10 && rates[refRateLevel - 1] > 0
        && chosenRate[..] == old(chosenRate[..])[segIndex := chosenRate[segIndex]]
        && chosenRate[segIndex] ==
             Cheaper(chosenRate[segIndex - 1], rates[refRateLevel - 1], old(RecentSwitches(stray)),
                     estimated[segIndex])
        && 1 <= old(refRateLevel) <= 10
        && Decides(rates, old(Reference(refRateLevel, counter)), chosenRate[segIndex - 1], estimated[segIndex],
                   old(RecentSwitches(stray)), Reference(refRateLevel, counter), chosenRate[segIndex])
    {
      hide Slept, IsUtility, Climb, Play, Estimate, Cheaper, Decides, Switches;
      delay := 0;
      if segIndex == NUM_OF_SEGS - 1 {
        return;
      }
      if currBuff[segIndex] >= randbuff {
        delay := currBuff[segIndex] - randbuff;
      }
      var switches := NumOfSwitches(stray);
      Adapt(switches);
      Request(randbuff, delay);
    }

    // --- whole segments, whatever is measured ---

    // The first n throughputs are within bounds.
    ghost predicate Sampled(lo: real, hi: real, n: nat)
      requires Shape()
      reads thrp
    {
      forall i :: 0 <= i < n && i < NUM_OF_SEGS ==> lo <= thrp[i] <= hi
    }

    // The reference level of FESTIVE counts every request, and its last estimate lies within the bounds.
    ghost predicate Estimated(lo: real, hi: real)
      requires Shape() && segIndex < NUM_OF_SEGS
      reads `segIndex, `calls, estimated
    {
      scheme == Festive ==> |calls| == segIndex && (segIndex > 0 ==> lo <= estimated[segIndex] <= hi)
    }

    // What holds while a segment is on its way: the client keeps to the ladder, its estimate to the bounds.
    ghost predicate OnCourse(lo: real, hi: real)
      reads this, thrp, estimated, chosenRate, currBuff
    {
      && Valid() && Sampled(lo, hi, |times|) && Estimated(lo, hi) && 0.0 <= lo
      && (segIndex > 0 && FIRST_RATE in rates ==> chosenRate[segIndex] in rates)
    }

    lemma WindowBetween(lo: real, hi: real)
      requires Shape() && segIndex < NUM_OF_SEGS && Sampled(lo, hi, segIndex + 1) && 0.0 <= lo
      ensures Measured(Window()) && lo <= Estimate(Window()) <= hi
    {
      hide Estimate;
      var window := Window();
      forall i | 0 <= i < |window|
        ensures lo <= window[i] <= hi
      {
        assert window[i] == thrp[WindowStart() + i];
      }
      EstimateBetween(window, lo, hi);
    }

    // The two closings of BOLA and of FESTIVE.
    method BolaSegment(now: int, measured: real, ghost lo: real, ghost hi: real) returns (delay: int)
      requires OnCourse(lo, hi) && Requested() && scheme == Bola
      requires now - lastAdaptTime >= slept && lo <= measured <= hi
      modifies this, thrp, chosenRate, currBuff
      ensures OnCourse(lo, hi) && times == old(times) + [now - old(lastAdaptTime)] && lastAdaptTime == now
      ensures Player().buff < 30000 + SEGMENT && (!old(onBuffering) ==> Player().buff <= 30000)
      ensures Requested() <==> old(segIndex) < NUM_OF_SEGS - 1
      ensures Requested() ==> segIndex == old(segIndex) + 1 && delay == slept
    {
      hide Slept, IsUtility, Climb, Play, Arrive, IsBolaRate;
      PushClosed(now, measured);
      ghost var curr, p, t := chosenRate[segIndex], Player(), thrp[segIndex];
      delay := BolaRequestClosed();
      if Requested() && curr in rates {
        BolaRateBounds(utility, rates, p.buff, t, curr, chosenRate[segIndex]);
      }
    }

    method FestiveSegment(now: int, measured: real, randbuff: int, stray: nat, ghost lo: real, ghost hi: real)
        returns (delay: int)
      requires OnCourse(lo, hi) && Requested() && scheme == Festive
      requires now - lastAdaptTime >= slept && lo <= measured <= hi
      requires 30000 - SEGMENT <= randbuff < 30000 + SEGMENT
      modifies this, thrp, estimated, chosenRate, currBuff
      ensures OnCourse(lo, hi) && times == old(times) + [now - old(lastAdaptTime)] && lastAdaptTime == now
      ensures Player().buff < 30000 + 2 * SEGMENT
      ensures Requested() <==> old(segIndex) < NUM_OF_SEGS - 1
      ensures Requested() ==> segIndex == old(segIndex) + 1 && delay == slept
    {
      hide Slept, IsUtility, Climb, Play, Arrive, Estimate, Cheaper, Decides, Switches;
      PushClosed(now, measured);
      ghost var switches := RecentSwitches(stray);
      assert Sampled(lo, hi, segIndex + 1);
      WindowBetween(lo, hi);
      delay := FestiveRequestClosed(randbuff, stray);
      if Requested() {
        OneOfBoth(chosenRate[segIndex - 1], rates[refRateLevel - 1], switches, estimated[segIndex]);
      }
    }

    lemma OneOfBoth(curr: int, ref: int, switches: nat, thrp: real)
      requires thrp >= 0.0 && ref > 0
      ensures Cheaper(curr, ref, switches, thrp) in {curr, ref}
    {
    }
  }

  // What the environment answers to one request, what FESTIVE draws, and what it counts where it looks too far back.
  datatype Answer = Answer(measured: real, slack: nat, randbuff: int, stray: nat)

  ghost predicate Bounded(answers: seq<Answer>, lo: real, hi: real) {
    forall i :: 0 <= i < |answers| ==>
      lo <= answers[i].measured <= hi && 30000 - SEGMENT <= answers[i].randbuff < 30000 + SEGMENT
  }

  /** A whole run from the start: for all answers within bounds every segment is played on course. */
  method PlayAll(scheme: Scheme, rates: seq<int>, utility: seq<real>, answers: seq<Answer>,
                 ghost lo: real, ghost hi: real)
      returns (client: Client)
    requires IsUtility(utility, rates) && |rates| >= 10 && |answers| <= NUM_OF_SEGS
    requires Bounded(answers, lo, hi) && 0.0 <= lo
    ensures client.OnCourse(lo, hi) && |client.times| == |answers|
  {
    client := new Client(scheme, rates, utility);
    var delay := 0;
    for i := 0 to |answers|
      invariant fresh(client) && fresh(client.Arrays())
      invariant client.OnCourse(lo, hi) && |client.times| == i && client.scheme == scheme
      invariant i < NUM_OF_SEGS ==> client.Requested() && delay == client.slept
    {
      var a := answers[i];
      var now := client.lastAdaptTime + delay + a.slack;
      if scheme == Bola {
        delay := client.BolaSegment(now, a.measured, lo, hi);
      } else {
        delay := client.FestiveSegment(now, a.measured, a.randbuff, a.stray, lo, hi);
      }
    }
  }
}
