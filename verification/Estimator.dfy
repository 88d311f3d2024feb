/** The throughput estimate of PANDA.cc and Proposed.cc and its smoothing, over whole runs. */
module Estimator {
  // The next estimate after a sample, `ms` milliseconds after the last one.
  function Probe(est: real, sample: real, ms: int): real {
    var k, w := 0.14, 0.3;
    var temp := est - sample + w;
    k * (w - (if temp < 0.0 then 0.0 else temp)) * ms as real / 1000.0 + est
  }

  function Smooth(smoothed: real, est: real, ms: int): real {
    -0.2 * (smoothed - est) * ms as real / 1000.0 + smoothed
  }

  predicate Between(a: real, x: real, b: real) {
    (a <= x <= b) || (b <= x <= a)
  }

  lemma NonNegative(a: real, b: real)
    requires a >= 0.0 && b >= 0.0
    ensures a * b >= 0.0
  {
  }

  lemma Positive(a: real, b: real)
    requires a > 0.0 && b > 0.0
    ensures a * b > 0.0
  {
  }

  // A fraction of a positive distance stays within it exactly up to the whole.
  lemma Fraction(f: real, d: real)
    requires f >= 0.0 && d > 0.0
    ensures 0.0 <= f * d
    ensures f * d <= d <==> f <= 1.0
  {
    NonNegative(f, d);
    Rest(f, d);
    if f <= 1.0 {
      NonNegative(1.0 - f, d);
    } else {
      Positive(f - 1.0, d);
    }
  }

  lemma Rest(f: real, d: real)
    ensures (1.0 - f) * d == d - f * d && (f - 1.0) * d == f * d - d
    ensures f * (-d) == -(f * d)
  {
  }

  lemma Moved(x: real, y: real, f: real, d: real, p: real, z: real)
    requires f >= 0.0 && d == y - x && p == f * d && z == x + p
    ensures Between(x, z, y) <==> f <= 1.0 || x == y
  {
    if d > 0.0 {
      Fraction(f, d);
      assert 0.0 <= p && (p <= d <==> f <= 1.0);
    } else if d < 0.0 {
      Fraction(f, -d);
      Rest(f, d);
      assert 0.0 <= -p && (-p <= -d <==> f <= 1.0);
    } else {
      assert p == f * 0.0 == 0.0;
    }
  }

  // A step from x to y by a fraction f ends between them exactly when it does not overshoot.
  lemma Step(x: real, y: real, f: real, z: real)
    requires f >= 0.0 && z == x + f * (y - x)
    ensures Between(x, z, y) <==> f <= 1.0 || x == y
  {
    var d := y - x;
    Moved(x, y, f, d, f * d, z);
  }

  /** An estimate moves by 14 percent of its distance to the sample a second, but up by no more than 14 percent of
      0.3 kbps. */
  lemma ProbeMoves(est: real, sample: real, ms: int)
    ensures var up := if sample - est < 0.3 then sample - est else 0.3;
            Probe(est, sample, ms) == est + 0.14 * up * ms as real / 1000.0
  {
  }

  /** Smoothing moves by a fifth of the distance a second: after 5 s it has reached the estimate. */
  lemma SmoothMoves(smoothed: real, est: real, ms: int)
    ensures Smooth(smoothed, est, ms) == smoothed + (est - smoothed) * ms as real / 5000.0
    ensures Smooth(smoothed, est, 5000) == est
  {
    var d := est - smoothed;
    assert -0.2 * (smoothed - est) == 0.2 * d;
    assert 0.2 * d * ms as real / 1000.0 == d * ms as real / 5000.0;
  }

  /** With at most 5 s between requests an estimate lies between the previous one and the new sample, and
      rises by at most 0.042 kbps a second. */
  lemma ProbeBetween(est: real, sample: real, ms: int)
    requires 0 <= ms <= 5000
    ensures Between(est, Probe(est, sample, ms), sample)
    ensures Probe(est, sample, ms) - est <= 0.042 * ms as real / 1000.0
  {
    var t, p := ms as real / 1000.0, Probe(est, sample, ms);
    if est - sample + 0.3 >= 0.0 {
      var f := 0.14 * t;
      assert p == est + f * (sample - est);
      Step(est, sample, f, p);
      NonNegative(f, est - sample + 0.3);
      assert f * (est - sample + 0.3) == 0.3 * f - (p - est);
    } else {
      assert p == est + 0.042 * t;
    }
  }

  /** Smoothing moves towards the estimate without passing it exactly for at most 5 s between requests. */
  lemma SmoothBetween(smoothed: real, est: real, ms: int)
    requires ms >= 0
    ensures Between(smoothed, Smooth(smoothed, est, ms), est) <==> ms <= 5000 || smoothed == est
  {
    var f := 0.2 * (ms as real / 1000.0);
    assert Smooth(smoothed, est, ms) == smoothed + f * (est - smoothed);
    Step(smoothed, est, f, Smooth(smoothed, est, ms));
  }

  // The estimate and the smoothed value after the given samples, the first of which starts both; without
  // probing the estimate is the last sample, as in Conventional.cpp.
  function Est(probing: bool, samples: seq<real>, gaps: seq<int>): real
    requires 0 < |samples| == |gaps|
  {
    var n := |samples| - 1;
    if n == 0 || !probing then samples[n] else Probe(Est(probing, samples[..n], gaps[..n]), samples[n], gaps[n])
  }

  function Smoothed(probing: bool, samples: seq<real>, gaps: seq<int>): real
    requires 0 < |samples| == |gaps|
  {
    var n := |samples| - 1;
    if n == 0 then Est(probing, samples, gaps)
    else Smooth(Smoothed(probing, samples[..n], gaps[..n]), Est(probing, samples, gaps), gaps[n])
  }

  ghost predicate Within(lo: real, samples: seq<real>, hi: real) {
    forall i :: 0 <= i < |samples| ==> lo <= samples[i] <= hi
  }

  /** Over any run with at most 5 s between requests, both values stay within the samples measured so far. */
  lemma {:induction false} StaysWithinSamples(probing: bool, samples: seq<real>, gaps: seq<int>, lo: real, hi: real)
    requires 0 < |samples| == |gaps| && Within(lo, samples, hi)
    requires forall i :: 0 < i < |gaps| ==> 0 <= gaps[i] <= 5000
    ensures lo <= Est(probing, samples, gaps) <= hi && lo <= Smoothed(probing, samples, gaps) <= hi
  {
    var n := |samples| - 1;
    if n > 0 {
      var front, before := samples[..n], gaps[..n];
      StaysWithinSamples(probing, front, before, lo, hi);
      ProbeBetween(Est(probing, front, before), samples[n], gaps[n]);
      SmoothBetween(Smoothed(probing, front, before), Est(probing, samples, gaps), gaps[n]);
    }
  }
}
