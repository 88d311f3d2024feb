/** The playback buffer of the clients, segment by segment, for every sequence of times between segments. */
module PlayerBuffer {
  import opened Ladder

  // When playback starts, and whether a nearly empty buffer stops it again.
  datatype Policy = Policy(target: int, rebuffers: bool)

  // Milliseconds buffered, and whether playback is held back.
  datatype Player = Player(buff: int, buffering: bool)

  const FRESH: Player := Player(0, true)

  // A segment arrives `elapsed` ms after the last one.
  function Arrive(policy: Policy, p: Player, elapsed: int): Player {
    var buff := if p.buffering then p.buff + SEGMENT else p.buff + SEGMENT - elapsed;
    var held := p.buffering && buff < policy.target;
    Player(buff, held || (policy.rebuffers && buff <= SEGMENT))
  }

  function Play(policy: Policy, times: seq<int>): Player {
    if times == [] then FRESH
    else Arrive(policy, Play(policy, times[..|times| - 1]), times[|times| - 1])
  }

  // The time that passed during playback.
  function Played(policy: Policy, times: seq<int>): int {
    if times == [] then 0
    else
      var before := times[..|times| - 1];
      Played(policy, before) + if Play(policy, before).buffering then 0 else times[|times| - 1]
  }

  /** In every run the buffer is what has arrived less what was played. */
  lemma {:induction false} BufferIsRest(policy: Policy, times: seq<int>)
    ensures Play(policy, times).buff == 2000 * |times| - Played(policy, times)
  {
    if times != [] {
      BufferIsRest(policy, times[..|times| - 1]);
    }
  }

  /** Playback starts with the segment that fills the target, and whatever the times between them, nothing of
      the buffer is played before. */
  lemma {:induction false} StartsAtTarget(policy: Policy, times: seq<int>)
    requires policy.target > 2000 && 2000 * (|times| - 1) < policy.target
    ensures Play(policy, times) == Player(2000 * |times|, 2000 * |times| < policy.target)
  {
    if times != [] {
      StartsAtTarget(policy, times[..|times| - 1]);
    }
  }

  /** Playback, once started, is held back again exactly when the policy rebuffers and at most one segment is
      left; held back, it starts exactly when the target is reached. */
  lemma HeldBack(policy: Policy, times: seq<int>, elapsed: int)
    requires policy.target > 2000
    ensures var p, p' := Play(policy, times), Play(policy, times + [elapsed]);
      && (!p.buffering ==> (p'.buffering <==> policy.rebuffers && p'.buff <= 2000))
      && (p.buffering ==> (p'.buffering <==> p'.buff < policy.target))
      && p'.buff == p.buff + 2000 - if p.buffering then 0 else elapsed
  {
    PlayExtends(policy, times, elapsed);
  }

  // The two sequences differ at most in one place.
  ghost predicate OnlyAt<T>(a: seq<T>, b: seq<T>, at: int) {
    |a| == |b| && forall i :: 0 <= i < |a| && i != at ==> a[i] == b[i]
  }

  lemma PlayExtends(policy: Policy, times: seq<int>, elapsed: int)
    ensures Play(policy, times + [elapsed]) == Arrive(policy, Play(policy, times), elapsed)
    ensures Play(policy, []) == FRESH
  {
    assert (times + [elapsed])[..|times|] == times;
  }

  // --- sleeping off what exceeds a threshold: BOLA and FESTIVE ---

  // The sleep before a request when the buffer exceeds a threshold.
  function Excess(threshold: int, buff: int): int {
    if buff - threshold < 0 then 0 else buff - threshold
  }

  const THRESHOLD_POLICY: Policy := Policy(30000, true)

  /** No segment arrives before the client has slept, by the threshold it drew for that segment. */
  ghost predicate Slept(thresholds: seq<int>, times: seq<int>) {
    |thresholds| == |times| &&
    forall i :: 0 <= i < |times| ==> times[i] >= Excess(thresholds[i], Play(THRESHOLD_POLICY, times[..i]).buff)
  }

  lemma SleptExtends(thresholds: seq<int>, times: seq<int>, threshold: int, time: int)
    requires |thresholds| == |times|
    ensures Slept(thresholds + [threshold], times + [time]) <==>
            Slept(thresholds, times) && time >= Excess(threshold, Play(THRESHOLD_POLICY, times).buff)
  {
    var thresholds', times' := thresholds + [threshold], times + [time];
    assert forall i :: 0 <= i <= |times| ==> times'[..i] == times[..i];
    assert times[..|times|] == times;
    if Slept(thresholds', times') {
      forall i | 0 <= i < |times|
        ensures times[i] >= Excess(thresholds[i], Play(THRESHOLD_POLICY, times[..i]).buff)
      {
        assert times'[i] >= Excess(thresholds'[i], Play(THRESHOLD_POLICY, times'[..i]).buff);
      }
      assert times'[|times|] >= Excess(thresholds'[|times|], Play(THRESHOLD_POLICY, times'[..|times|]).buff);
    }
  }

  /** In every run with thresholds up to a bound, a segment that arrives during playback leaves at most the
      bound and one segment, the buffer stays below that or 32 s, buffering means below the target and playing
      means more than one segment. For BOLA the bound is 28 s, for FESTIVE just under 32 s. */
  lemma ThresholdBuffer(thresholds: seq<int>, times: seq<int>, bound: int)
    requires Slept(thresholds, times) && forall i :: 0 <= i < |thresholds| ==> thresholds[i] <= bound
    ensures var p := Play(THRESHOLD_POLICY, times);
            && (p.buff < 30000 + SEGMENT || p.buff <= bound + SEGMENT)
            && (p.buffering ==> p.buff < 30000) && (!p.buffering ==> p.buff > SEGMENT)
    ensures times != [] && !Play(THRESHOLD_POLICY, times[..|times| - 1]).buffering ==>
              Play(THRESHOLD_POLICY, times).buff <= bound + SEGMENT
  {
  }

  // The same, one segment at a time.
  lemma SleptOnce(thresholds: seq<int>, before: seq<int>, elapsed: int, bound: int)
    requires |thresholds| == |before| + 1 && Slept(thresholds[..|before|], before)
    requires elapsed >= Excess(thresholds[|before|], Play(THRESHOLD_POLICY, before).buff)
    requires forall i :: 0 <= i < |thresholds| ==> thresholds[i] <= bound
    ensures Slept(thresholds, before + [elapsed])
    ensures var p := Play(THRESHOLD_POLICY, before + [elapsed]);
            && (p.buff < 30000 + SEGMENT || p.buff <= bound + SEGMENT)
            && (p.buffering ==> p.buff < 30000) && (!p.buffering ==> p.buff > SEGMENT)
            && (!Play(THRESHOLD_POLICY, before).buffering ==> p.buff <= bound + SEGMENT)
  {
    hide Play, Excess, Slept;
    var n, times := |before|, before + [elapsed];
    SleptExtends(thresholds[..n], before, thresholds[n], elapsed);
    assert thresholds[..n] + [thresholds[n]] == thresholds;
    ThresholdBuffer(thresholds, times, bound);
    assert times[..|times| - 1] == before;
  }

  // --- waiting by the buffer alone: PANDA, Proposed and Conventional ---

  // How long a client waits at least between two requests, by its buffer.
  type Wait = int -> int

  ghost predicate Waited(policy: Policy, wait: Wait, times: seq<int>) {
    forall i :: 0 <= i < |times| ==> times[i] >= wait(Play(policy, times[..i]).buff)
  }

  lemma WaitedExtends(policy: Policy, wait: Wait, times: seq<int>, time: int)
    ensures Waited(policy, wait, times + [time]) <==>
            Waited(policy, wait, times) && time >= wait(Play(policy, times).buff)
  {
    var times' := times + [time];
    assert forall i :: 0 <= i <= |times| ==> times'[..i] == times[..i];
    assert times[..|times|] == times;
    if Waited(policy, wait, times') {
      forall i | 0 <= i < |times|
        ensures times[i] >= wait(Play(policy, times[..i]).buff)
      {
        assert times'[i] >= wait(Play(policy, times'[..i]).buff);
      }
      assert times'[|times|] >= wait(Play(policy, times'[..|times|]).buff);
    }
  }

  lemma NothingWaited(policy: Policy, wait: Wait)
    ensures Waited(policy, wait, []) && Play(policy, []) == FRESH
  {
  }

  /** A wait keeps the buffer below a ceiling that leaves room for one segment while it is held back, if it
      takes off at least what a segment adds beyond the ceiling. */
  lemma {:induction false} BufferBelow(policy: Policy, wait: Wait, times: seq<int>, ceiling: int)
    requires policy.target + SEGMENT <= ceiling && policy.target > SEGMENT && Waited(policy, wait, times)
    requires forall buff: int :: buff < ceiling ==> buff + SEGMENT - wait(buff) < ceiling
    ensures var p := Play(policy, times); p.buff < ceiling && (p.buffering ==> p.buff < policy.target)
  {
    if times != [] {
      var n := |times| - 1;
      WaitedExtends(policy, wait, times[..n], times[n]);
      assert times[..n] + [times[n]] == times;
      BufferBelow(policy, wait, times[..n], ceiling);
    }
  }

  // Pacing at one request a segment duration from the target on.
  function PaceWait(target: int): Wait {
    (buff: int) => if buff >= target then SEGMENT else 0
  }

  /** Pacing keeps the buffer below the target plus one segment in every run. */
  lemma PacedBuffer(policy: Policy, times: seq<int>)
    requires policy.target > SEGMENT && Waited(policy, PaceWait(policy.target), times)
    ensures Play(policy, times).buff < policy.target + SEGMENT
  {
    BufferBelow(policy, PaceWait(policy.target), times, policy.target + SEGMENT);
  }

  // The C++ conversion from double to int.
  function Truncate(x: real): int {
    if x >= 0.0 then x.Floor else -((-x).Floor)
  }

  const BETA: real := 0.2

  // Steering towards the target: at least a fifth of what the buffer exceeds it by, cut to whole milliseconds.
  function SteerWait(target: int): Wait {
    (buff: int) =>
      var share := Truncate(BETA * (buff - target) as real);
      if share > 0 then share else 0
  }

  lemma Fifth(x: int)
    requires x >= 0
    ensures x - 5 < 5 * Truncate(BETA * x as real) <= x
  {
  }

  /** Steering keeps the buffer within five segments of the target in every run. */
  lemma SteeredBuffer(policy: Policy, times: seq<int>)
    requires policy.target > SEGMENT && Waited(policy, SteerWait(policy.target), times)
    ensures Play(policy, times).buff <= policy.target + 5 * SEGMENT
  {
    hide Truncate, Play, Waited;
    var ceiling := policy.target + 5 * SEGMENT + 1;
    forall buff: int | buff < ceiling
      ensures buff + SEGMENT - SteerWait(policy.target)(buff) < ceiling
    {
      if buff >= policy.target {
        Fifth(buff - policy.target);
      }
    }
    BufferBelow(policy, SteerWait(policy.target), times, ceiling);
  }
}
