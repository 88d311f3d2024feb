/** How FESTIVE.cc estimates, climbs its reference level and weighs efficiency against stability. */
module FestiveChoice {
  import opened BitStrings
  import opened Estimator

  // --- the harmonic mean of the last throughputs ---

  function Inverse(x: real): real
    requires x != 0.0
  {
    1.0 / x
  }

  lemma InverseTimes(x: real)
    requires x != 0.0
    ensures Inverse(x) * x == 1.0
  {
  }

  ghost predicate Rates(samples: seq<real>) {
    forall i :: 0 <= i < |samples| ==> samples[i] > 0.0
  }

  function InverseSum(samples: seq<real>): real
    requires Rates(samples)
  {
    if samples == [] then 0.0 else InverseSum(samples[..|samples| - 1]) + Inverse(samples[|samples| - 1])
  }

  lemma {:induction false} InverseSumBounds(samples: seq<real>, lo: real, hi: real)
    requires 0.0 <= lo && Within(lo, samples, hi) && Rates(samples)
    ensures lo * InverseSum(samples) <= |samples| as real <= hi * InverseSum(samples)
    ensures samples != [] ==> InverseSum(samples) > 0.0
  {
    hide Inverse;
    if samples != [] {
      var n := |samples| - 1;
      InverseSumBounds(samples[..n], lo, hi);
      InverseTimes(samples[n]);
      OneMore(InverseSum(samples[..n]), samples[n], Inverse(samples[n]), lo, hi, n);
    }
  }

  lemma OneMore(sum: real, x: real, q: real, lo: real, hi: real, n: nat)
    requires 0.0 <= lo <= x <= hi && x > 0.0 && q * x == 1.0 && lo * sum <= n as real <= hi * sum
    ensures lo * (sum + q) <= (n + 1) as real <= hi * (sum + q) && q > 0.0
  {
  }

  // dang_estimated_thrp: one over the mean of the inverses.
  function HarmonicMean(sum: real, count: nat): real
    requires sum != 0.0 && count > 0
  {
    ProductNonzero(sum, count as real);
    1.0 / (sum * 1.0 / count as real)
  }

  lemma ProductNonzero(s: real, n: real)
    requires s != 0.0 && n > 0.0
    ensures s * 1.0 / n != 0.0
  {
  }

  lemma MeanTimesSum(s: real, count: nat)
    requires s != 0.0 && count > 0
    ensures HarmonicMean(s, count) * s == count as real
  {
  }

  lemma Divided(lo: real, h: real, hi: real, s: real, n: real)
    requires s > 0.0 && h * s == n && lo * s <= n <= hi * s
    ensures lo <= h <= hi
  {
  }

  lemma InversePositive(x: real)
    requires x > 0.0
    ensures Inverse(x) > 0.0
  {
  }

  lemma MeanPositive(s: real, count: nat)
    requires s > 0.0 && count > 0
    ensures s * 1.0 / count as real > 0.0 && HarmonicMean(s, count) > 0.0
  {
  }

  ghost predicate Measured(samples: seq<real>) {
    forall i :: 0 <= i < |samples| ==> samples[i] >= 0.0
  }

  // The estimate. In the arithmetic of doubles the inverse of 0 is infinite, and so the mean of the inverses.
  ghost function Estimate(samples: seq<real>): real
    requires samples != []
  {
    if Rates(samples) && InverseSum(samples) != 0.0 then HarmonicMean(InverseSum(samples), |samples|) else 0.0
  }

  /** The estimate lies within the throughputs it is made from, and is 0 exactly when one of them is. */
  lemma EstimateBetween(samples: seq<real>, lo: real, hi: real)
    requires samples != [] && 0.0 <= lo && Within(lo, samples, hi)
    ensures lo <= Estimate(samples) <= hi
    ensures Estimate(samples) == 0.0 <==> 0.0 in samples
  {
    if Rates(samples) {
      hide InverseSum, HarmonicMean;
      InverseSumBounds(samples, lo, hi);
      var s, n := InverseSum(samples), |samples|;
      MeanTimesSum(s, n);
      MeanPositive(s, n);
      Divided(lo, HarmonicMean(s, n), hi, s, n as real);
    } else {
      var i :| 0 <= i < |samples| && samples[i] <= 0.0;
      assert samples[i] == 0.0;
    }
  }

  /** The estimate times the sum of the inverses is the number of samples. */
  lemma EstimateIsHarmonic(samples: seq<real>)
    requires samples != [] && Rates(samples)
    ensures InverseSum(samples) > 0.0 && Estimate(samples) * InverseSum(samples) == |samples| as real
  {
    hide InverseSum, HarmonicMean;
    var hi := Largest(samples);
    InverseSumBounds(samples, 0.0, hi);
    MeanTimesSum(InverseSum(samples), |samples|);
  }

  lemma {:induction false} Largest(samples: seq<real>) returns (hi: real)
    requires samples != [] && Rates(samples)
    ensures Within(0.0, samples, hi)
  {
    var n := |samples| - 1;
    hi := samples[n];
    if n > 0 {
      var before := Largest(samples[..n]);
      hi := if before > hi then before else hi;
      assert forall i :: 0 <= i < n ==> samples[..n][i] == samples[i];
    }
  }

  // --- the reference level ---

  datatype Reference = Reference(level: int, counter: int)

  // What a call of chooseRefRate does: rate is the last chosen one, thrp the new estimate.
  function ChooseRef(rates: seq<int>, ref: Reference, rate: int, thrp: real): (next: Reference)
    requires |rates| >= 10 && 1 <= ref.level <= 10
    ensures 1 <= next.level <= 10
  {
    if rate as real > 0.9 * thrp then
      var level := if ref.level > 1 then ref.level - 1 else 1;
      Reference(level, level)
    else if ref.counter - 1 <= 0 && rates[ref.level - 1] == rate && ref.level < 10 then
      Reference(ref.level + 1, ref.level + 1)
    else
      Reference(ref.level, ref.counter - 1)
  }

  // A rate above nine tenths of the estimate takes the level down; after as many other calls as its number, a
  // rate that is its own takes it up.
  predicate Moves(rates: seq<int>, ref: Reference, rate: int, thrp: real, next: Reference)
    requires |rates| >= 10 && 1 <= ref.level <= 10
  {
    var high, m := rate as real > 0.9 * thrp, ref.level;
    var up := !high && ref.counter <= 1 && rates[m - 1] == rate && m < 10;
    && next.level == (if high && m > 1 then m - 1 else if up then m + 1 else m)
    && next.counter == if high || up then next.level else ref.counter - 1
  }

  datatype Call = Call(rate: int, thrp: real)

  function Climb(rates: seq<int>, calls: seq<Call>): (ref: Reference)
    requires |rates| >= 10
    ensures 1 <= ref.level <= 10
  {
    if calls == [] then Reference(1, 1)
    else
      var last := calls[|calls| - 1];
      ChooseRef(rates, Climb(rates, calls[..|calls| - 1]), last.rate, last.thrp)
  }

  function NonNegativePart(x: int): int {
    if x > 0 then x else 0
  }

  // Calls that went into reaching a level and counting down on it.
  function Spent(ref: Reference): int {
    ref.level * (ref.level - 1) / 2 + (ref.level - NonNegativePart(ref.counter))
  }

  lemma SpentStep(rates: seq<int>, ref: Reference, rate: int, thrp: real)
    requires |rates| >= 10 && 1 <= ref.level <= 10 && ref.counter <= ref.level
    ensures var next := ChooseRef(rates, ref, rate, thrp);
            next.level <= ref.level + 1 && next.counter <= next.level && Spent(next) <= Spent(ref) + 1
  {
    var l := ref.level;
    assert (l + 1) * l == l * (l - 1) + 2 * l;
    assert (l - 1) * (l - 2) == l * (l - 1) - 2 * (l - 1);
  }

  /** In every run the level rises by at most one a segment, and level m is reached only after
      1 + 2 + ... + (m - 1) segments. */
  lemma {:induction false} ClimbBound(rates: seq<int>, calls: seq<Call>)
    requires |rates| >= 10
    ensures var ref := Climb(rates, calls);
            ref.counter <= ref.level && Spent(ref) <= |calls| && ref.level * (ref.level - 1) / 2 <= |calls|
    ensures calls != [] ==> Climb(rates, calls).level <= Climb(rates, calls[..|calls| - 1]).level + 1
  {
    if calls != [] {
      var n := |calls| - 1;
      ClimbBound(rates, calls[..n]);
      SpentStep(rates, Climb(rates, calls[..n]), calls[n].rate, calls[n].thrp);
    }
  }

  // Every segment came at its reference rate, and that was no more than nine tenths of the estimate.
  ghost predicate Settled(rates: seq<int>, calls: seq<Call>)
    requires |rates| >= 10
  {
    forall i :: 0 <= i < |calls| ==>
      calls[i].rate as real <= 0.9 * calls[i].thrp && calls[i].rate == rates[Climb(rates, calls[..i]).level - 1]
  }

  lemma SettledStep(rates: seq<int>, ref: Reference, thrp: real)
    requires |rates| >= 10 && 1 <= ref.level <= 10 && (ref.level < 10 ==> 1 <= ref.counter <= ref.level)
    requires rates[ref.level - 1] as real <= 0.9 * thrp
    ensures var next := ChooseRef(rates, ref, rates[ref.level - 1], thrp);
      && (ref.level == 10 ==> next.level == 10)
      && (ref.level < 10 ==> Spent(next) == Spent(ref) + 1)
      && (next.level < 10 ==> 1 <= next.counter <= next.level)
      && (ref.level < 10 && next.level == 10 ==> Spent(next) == 45)
  {
    var l := ref.level;
    assert (l + 1) * l == l * (l - 1) + 2 * l;
  }

  /** A settled client climbs as fast as it may: it is on level m, the highest at last, after exactly 1, 1 + 2,
      ... and 1 + 2 + ... + (m - 1) segments. */
  lemma {:induction false} SettledClimbs(rates: seq<int>, calls: seq<Call>)
    requires |rates| >= 10 && Settled(rates, calls)
    ensures var m := Climb(rates, calls).level;
      m * (m - 1) / 2 <= |calls| && (m < 10 ==> |calls| < m * (m + 1) / 2)
    ensures var ref := Climb(rates, calls);
      ref.level < 10 ==> 1 <= ref.counter <= ref.level && Spent(ref) == |calls|
  {
    hide ChooseRef, Spent;
    if calls == [] {
      LevelOf(Reference(1, 1));
    } else {
      var n := |calls| - 1;
      SettledBefore(rates, calls);
      hide Settled;
      SettledClimbs(rates, calls[..n]);
      SettledStep(rates, Climb(rates, calls[..n]), calls[n].thrp);
      LevelOf(Climb(rates, calls));
    }
  }

  lemma SettledBefore(rates: seq<int>, calls: seq<Call>)
    requires |rates| >= 10 && calls != [] && Settled(rates, calls)
    ensures var n := |calls| - 1;
      && Settled(rates, calls[..n]) && calls[n].rate as real <= 0.9 * calls[n].thrp
      && calls[n].rate == rates[Climb(rates, calls[..n]).level - 1]
  {
    hide Climb;
    var front := calls[..|calls| - 1];
    forall i | 0 <= i < |front|
      ensures front[i].rate as real <= 0.9 * front[i].thrp && front[i].rate == rates[Climb(rates, front[..i]).level - 1]
    {
      assert front[..i] == calls[..i] && front[i] == calls[i];
    }
  }

  lemma LevelOf(ref: Reference)
    requires 1 <= ref.level <= 10
    ensures ref == Reference(1, 1) ==> Spent(ref) == 0
    ensures 1 <= ref.counter <= ref.level ==>
      ref.level * (ref.level - 1) / 2 <= Spent(ref) < ref.level * (ref.level + 1) / 2
  {
    var l := ref.level;
    assert (l + 1) * l == l * (l - 1) + 2 * l;
  }

  /** Rates above nine tenths of the estimate take the level down one a segment, to the lowest. */
  lemma {:induction false} Falls(rates: seq<int>, calls: seq<Call>, high: seq<Call>)
    requires |rates| >= 10 && forall i :: 0 <= i < |high| ==> high[i].rate as real > 0.9 * high[i].thrp
    ensures var m := Climb(rates, calls).level - |high|;
      Climb(rates, calls + high).level == if m >= 1 then m else 1
  {
    var both := calls + high;
    if high == [] {
      assert both == calls;
    } else {
      var n := |high| - 1;
      assert both[..|both| - 1] == calls + high[..n] && both[|both| - 1] == high[n];
      Falls(rates, calls, high[..n]);
    }
  }

  // --- the recent switches ---

  // The switches from segment lo to segment hi.
  function Switches(chosen: seq<int>, lo: nat, hi: nat): (n: nat)
    requires lo <= hi < |chosen|
    ensures n <= hi - lo
    decreases hi
  {
    if lo == hi then 0
    else Switches(chosen, lo, hi - 1) + if chosen[hi - 1] != chosen[hi] then 1 else 0
  }

  // Where numOfSwitches starts to look: a place before the first segment is possible.
  function LooksFrom(segIndex: nat): int {
    if segIndex >= 9 then segIndex - 14 else 0
  }

  /** The count reads before the first rate exactly at segments 9 to 13. */
  lemma LooksTooFar(segIndex: nat)
    ensures LooksFrom(segIndex) < 0 <==> 9 <= segIndex <= 13
  {
  }

  /** A window without a switch is one rate throughout, and only such a window. */
  lemma {:induction false} NoSwitches(chosen: seq<int>, lo: nat, hi: nat)
    requires lo <= hi < |chosen|
    ensures Switches(chosen, lo, hi) == 0 <==> forall i :: lo <= i <= hi ==> chosen[i] == chosen[lo]
    decreases hi
  {
    if lo < hi {
      NoSwitches(chosen, lo, hi - 1);
    }
  }

  /** Two windows that meet have the switches of both. */
  lemma {:induction false} SwitchesMeet(chosen: seq<int>, lo: nat, mid: nat, hi: nat)
    requires lo <= mid <= hi < |chosen|
    ensures Switches(chosen, lo, hi) == Switches(chosen, lo, mid) + Switches(chosen, mid, hi)
    decreases hi
  {
    if mid < hi {
      SwitchesMeet(chosen, lo, mid, hi - 1);
    }
  }

  // --- the choice between the current and the reference rate ---

  const ALPHA: real := 12.0

  function Abs(x: real): real {
    if x < 0.0 then 0.0 - x else x
  }

  function Inefficiency(rate: int, denominator: real): real
    requires denominator > 0.0
  {
    Abs(rate as real * 1.0 / denominator - 1.0)
  }

  // What a rate costs after a number of switches, against the smaller of throughput and reference.
  function Cost(rate: int, switches: nat, denominator: real): real
    requires denominator > 0.0
  {
    Pow2(switches) as real + ALPHA * Inefficiency(rate, denominator)
  }

  function Smaller(thrp: real, ref: int): real {
    if thrp < ref as real then thrp else ref as real
  }

  // With an estimate of 0 the reference costs infinitely much, and infinity is not less than any cost.
  function Cheaper(curr: int, ref: int, switches: nat, thrp: real): int
    requires thrp >= 0.0 && ref > 0
  {
    var d := Smaller(thrp, ref);
    if d == 0.0 then curr
    else if Cost(ref, switches + 1, d) < Cost(curr, switches, d) then ref else curr
  }

  lemma OwnRate(ref: int)
    requires ref > 0
    ensures Inefficiency(ref, ref as real) == 0.0
  {
  }

  lemma UpToTwice(curr: int, ref: int)
    requires 0 <= curr <= 2 * ref && ref > 0
    ensures Inefficiency(curr, ref as real) <= 1.0
  {
    QuotientWithinTwice(curr as real, ref as real);
  }

  lemma Distance(rate: int, d: real)
    requires d > 0.0
    ensures Inefficiency(rate, d) * d == Abs(rate as real - d)
  {
    var q := rate as real * 1.0 / d - 1.0;
    Over(rate as real, d);
    AbsTimes(q, d, rate as real - d);
  }

  lemma AbsTimes(q: real, d: real, z: real)
    requires d > 0.0 && q * d == z
    ensures Abs(q) * d == Abs(z)
  {
    Signed(q, d);
  }

  lemma Over(x: real, d: real)
    requires d > 0.0
    ensures (x * 1.0 / d - 1.0) * d == x - d
  {
    assert x * 1.0 / d * d == x;
  }

  lemma Signed(a: real, d: real)
    requires d > 0.0
    ensures (a > 0.0 <==> a * d > 0.0) && (a < 0.0 <==> a * d < 0.0) && (0.0 - a) * d == -(a * d)
  {
  }

  lemma Scaled(p: real, x: real, y: real, d: real, dx: real, dy: real)
    requires d > 0.0 && x * d == dx && y * d == dy
    ensures 2.0 * p + 12.0 * x < p + 12.0 * y <==> p * d < 12.0 * (dy - dx)
  {
    Signed(12.0 * (y - x) - p, d);
    assert (12.0 * (y - x) - p) * d == 12.0 * (dy - dx) - p * d;
  }

  lemma CostsCompare(curr: int, ref: int, switches: nat, d: real)
    requires 0.0 < d <= ref as real
    ensures Cost(ref, switches + 1, d) < Cost(curr, switches, d) <==>
      Pow2(switches) as real * d < 12.0 * (Abs(curr as real - d) - (ref as real - d))
  {
    hide Inefficiency, Abs, Pow2;
    Distance(curr, d);
    Distance(ref, d);
    Beyond(ref as real - d);
    var p, x, y := Pow2(switches), Inefficiency(ref, d), Inefficiency(curr, d);
    OneMoreSwitch(switches);
    Scaled(p as real, x, y, d, ref as real - d, Abs(curr as real - d));
  }

  lemma OneMoreSwitch(switches: nat)
    ensures Pow2(switches + 1) as real == 2.0 * Pow2(switches) as real
  {
  }

  lemma Beyond(x: real)
    requires x >= 0.0
    ensures Abs(x) == x
  {
  }

  // The current rate is further from the smaller of throughput and reference than the reference, by so much more
  // as the switches so far ask for.
  predicate Worthwhile(curr: int, ref: int, switches: nat, thrp: real) {
    var d := if thrp < ref as real then thrp else ref as real;
    d > 0.0 && Pow2(switches) as real * d < 12.0 * (Abs(curr as real - d) - (ref as real - d))
  }

  // What one request decides: the reference level moves, and its rate is taken exactly when it is worthwhile.
  predicate Decides(rates: seq<int>, ref: Reference, curr: int, thrp: real, switches: nat, ref': Reference, next: int)
    requires |rates| >= 10 && 1 <= ref.level <= 10
  {
    && Moves(rates, ref, curr, thrp, ref') && 1 <= ref'.level <= 10
    && next == if Worthwhile(curr, rates[ref'.level - 1], switches, thrp) then rates[ref'.level - 1] else curr
  }

  /** The reference is taken exactly when it is worthwhile, so never without throughput. */
  lemma TakenExactly(curr: int, ref: int, switches: nat, thrp: real)
    requires thrp >= 0.0 && ref > 0
    ensures Cheaper(curr, ref, switches, thrp) == if Worthwhile(curr, ref, switches, thrp) then ref else curr
  {
    hide Cost, Pow2, Abs;
    var d := Smaller(thrp, ref);
    if d > 0.0 {
      CostsCompare(curr, ref, switches, d);
    }
  }

  /** A reference within the throughput is taken exactly when the current rate is off it, relative to it, by
      more than the switches so far allow: so after four a rate up to twice the reference is kept. */
  lemma TakenWhenFar(curr: int, ref: int, switches: nat, thrp: real)
    requires thrp > 0.0 && 0 < ref && ref as real <= thrp && curr != ref
    ensures Cheaper(curr, ref, switches, thrp) == ref <==>
            Pow2(switches) as real < ALPHA * Inefficiency(curr, ref as real)
    ensures switches >= 4 && 0 <= curr <= 2 * ref ==> Cheaper(curr, ref, switches, thrp) == curr
  {
    hide Inefficiency;
    OwnRate(ref);
    assert Pow2(switches + 1) == 2 * Pow2(switches);
    if switches >= 4 && 0 <= curr <= 2 * ref {
      Pow2Monotone(4, switches);
      UpToTwice(curr, ref);
    }
  }

  lemma QuotientWithinTwice(x: real, d: real)
    requires d > 0.0 && 0.0 <= x <= 2.0 * d
    ensures 0.0 <= x * 1.0 / d <= 2.0
  {
  }

  /** Switches only make the client steadier: a rate kept after some is kept after more. */
  lemma {:induction false} SteadierWithSwitches(curr: int, ref: int, n: nat, m: nat, thrp: real)
    requires thrp >= 0.0 && ref > 0 && n <= m && Cheaper(curr, ref, n, thrp) == curr
    ensures Cheaper(curr, ref, m, thrp) == curr
  {
    Pow2Monotone(n, m);
  }

  lemma {:induction false} Pow2Monotone(n: nat, m: nat)
    requires n <= m
    ensures Pow2(n) <= Pow2(m)
    decreases m - n
  {
    if n < m {
      Pow2Monotone(n, m - 1);
    }
  }
}
