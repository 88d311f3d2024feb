/** PANDA in the closed loop: with rate and smoothed throughput equal, and downloads no longer than a segment plays,
    the buffer comes down to 28 s and stays. */
module PandaPacing {
  import opened PlayerBuffer
  import opened PacedClient

  // The next segment arrives when its download and its interval are over.
  function NextSegment(p: Player, rate: nat, download: nat): Player
    requires rate > 0
  {
    Arrive(PolicyOf(Panda), p, Longer(download, TargetInterval(Panda, rate, rate as real, p.buff)))
  }

  function Segments(p: Player, rate: nat, downloads: seq<nat>): Player
    requires rate > 0
  {
    if downloads == [] then p
    else NextSegment(Segments(p, rate, downloads[..|downloads| - 1]), rate, downloads[|downloads| - 1])
  }

  lemma Quotient(r: real)
    requires r > 0.0
    ensures 2000.0 * r / r == 2000.0
  {
  }

  lemma Fifths(d: nat)
    ensures Truncate(2000 as real + BETA * d as real) == 2000 + d / 5
  {
  }

  /** The interval at the throughput: a segment's duration at the target, and a fifth of what exceeds it. */
  lemma SteadyInterval(rate: nat, buff: int)
    requires rate > 0 && buff >= 28000
    ensures TargetInterval(Panda, rate, rate as real, buff) == 2000 + (buff - 28000) / 5
  {
    hide Truncate;
    assert (rate * 2000) as real == 2000.0 * rate as real;
    Quotient(rate as real);
    WholeNumber(2000);
    Fifths(buff - 28000);
  }

  lemma WholeNumber(n: nat)
    ensures Truncate(n as real) == n
  {
  }

  // A playing client at or above the target takes a fifth of the distance off, rounded down, and goes on playing.
  lemma SteadyStep(p: Player, rate: nat, download: nat)
    requires rate > 0 && !p.buffering && p.buff >= 28000 && download <= 2000
    ensures NextSegment(p, rate, download) == Player(p.buff - (p.buff - 28000) / 5, false)
  {
    SteadyInterval(rate, p.buff);
  }

  function Power(base: nat, n: nat): nat {
    if n == 0 then 1 else base * Power(base, n - 1)
  }

  lemma Shrinks(d: int, d': int, f: nat, g: nat, d0: int)
    requires d >= 0 && d' == d - d / 5 && g * (d - 4) <= f * d0
    ensures 5 * g * (d' - 4) <= 4 * f * d0
  {
    assert 5 * (d' - 4) <= 4 * (d - 4);
    Scale(g, 5 * (d' - 4), 4 * (d - 4));
    assert g * (5 * (d' - 4)) == 5 * g * (d' - 4);
    assert g * (4 * (d - 4)) == 4 * (g * (d - 4));
    assert 4 * (f * d0) == 4 * f * d0;
  }

  lemma Scale(k: nat, a: int, b: int)
    requires a <= b
    ensures k * a <= k * b
  {
  }

  /** A steady client that has reached 28 s never falls below it: each segment takes a fifth off what exceeds it,
      so after n segments no more than 4 ms and (4/5)^n of the excess are left; at 28 s it stays there. */
  lemma {:induction false} ComesDown(p: Player, rate: nat, downloads: seq<nat>)
    requires rate > 0 && !p.buffering && p.buff >= 28000
    requires forall i :: 0 <= i < |downloads| ==> downloads[i] <= 2000
    ensures var p', n := Segments(p, rate, downloads), |downloads|;
      && !p'.buffering && 28000 <= p'.buff <= p.buff
      && Power(5, n) * (p'.buff - 28004) <= Power(4, n) * (if p.buff > 28004 then p.buff - 28004 else 0)
    ensures p.buff == 28000 ==> Segments(p, rate, downloads) == p
  {
    if downloads != [] {
      var n := |downloads| - 1;
      var before := Segments(p, rate, downloads[..n]);
      ComesDown(p, rate, downloads[..n]);
      SteadyStep(before, rate, downloads[n]);
      hide NextSegment;
      Shrinks(before.buff - 28000, Segments(p, rate, downloads).buff - 28000, Power(4, n), Power(5, n),
              if p.buff > 28004 then p.buff - 28004 else 0);
    }
  }

  /** A client at 937 kbps with 1200 kbps of throughput waits 1561 ms at its target. */
  lemma IntervalExample()
    ensures TargetInterval(Panda, 937, 1200.0, 28000) == 1561
  {
    assert (937 * 2000) as real / 1200.0 == 1561.0 + 2.0 / 3.0;
  }
}
