/** The reward by which BOLA.cc and Proposed.cc choose a rung, and how the choice moves with the buffer. */
module BolaReward {
  import opened Ladder

  const MAX_BUFF: int := 30000

  /** Utilities rise strictly with the rungs, from zero: what log(rate / lowest rate) gives. */
  ghost predicate IsUtility(utility: seq<real>, rates: seq<int>) {
    IsLadder(rates) && |utility| == |rates| && utility[0] == 0.0 &&
    forall i, j :: 0 <= i < j < |utility| ==> utility[i] < utility[j]
  }

  const GAMMA: real := 5000.0 / SEGMENT as real

  function Vd(top: real): real
    requires top >= 0.0
  {
    (MAX_BUFF as real * 1.0 / SEGMENT as real - 1.0) / (top + GAMMA * (SEGMENT as real / 1000.0))
  }

  // The value of rung i before the buffer is taken off and the size divided out.
  function Worth(utility: seq<real>, i: nat): real
    requires i < |utility| && utility[|utility| - 1] >= 0.0
  {
    var vd := Vd(utility[|utility| - 1]);
    vd * utility[i] + vd * GAMMA * SEGMENT as real / 1000.0
  }

  function Reward(utility: seq<real>, rates: seq<int>, buff: int, i: nat): real
    requires i < |utility| == |rates| && utility[|utility| - 1] >= 0.0 && rates[i] > 0
  {
    (Worth(utility, i) - buff as real * 1.0 / SEGMENT as real) / rates[i] as real
  }

  lemma TopUtility(utility: seq<real>, rates: seq<int>)
    requires IsUtility(utility, rates)
    ensures utility[|utility| - 1] >= 0.0 && forall i :: 0 <= i < |rates| ==> rates[i] > 0
  {
  }

  // --- the order of rewards, without their quotients ---

  // A rung's reward times its rate, up to a positive factor common to all rungs: 28000 is the maximal buffer
  // less a segment, and 5 the value of playing at all.
  function Gain(utility: seq<real>, buff: int, i: nat): real
    requires i < |utility|
  {
    28000.0 * (utility[i] + 5.0) - buff as real * (utility[|utility| - 1] + 5.0)
  }

  // Cross-multiplied: what rung i gains for its rate is more than what rung j gains for its own.
  predicate Beats(utility: seq<real>, rates: seq<int>, buff: int, i: nat, j: nat)
    requires i < |utility| == |rates| && j < |utility|
  {
    Gain(utility, buff, i) * rates[j] as real > Gain(utility, buff, j) * rates[i] as real
  }

  // A positive gain that no other rung beats and that beats all lower rungs.
  ghost predicate IsBest(utility: seq<real>, rates: seq<int>, buff: int, i: int)
    requires IsUtility(utility, rates)
  {
    0 <= i < |rates| && Gain(utility, buff, i) > 0.0 &&
    (forall j :: 0 <= j < |rates| ==> !Beats(utility, rates, buff, j, i)) &&
    (forall j :: 0 <= j < i ==> Beats(utility, rates, buff, i, j))
  }

  ghost predicate NoReward(utility: seq<real>, rates: seq<int>, buff: int)
    requires IsUtility(utility, rates)
  {
    forall j :: 0 <= j < |rates| ==> Gain(utility, buff, j) <= 0.0
  }

  lemma WorthTimes(utility: seq<real>, i: nat, d: real)
    requires i < |utility| && utility[|utility| - 1] >= 0.0 && d == utility[|utility| - 1] + 5.0
    ensures Worth(utility, i) * d == 14.0 * (utility[i] + 5.0)
  {
    var vd, u := Vd(utility[|utility| - 1]), utility[i];
    assert vd * d == 14.0;
    assert Worth(utility, i) == vd * (u + 5.0);
    Regroup(vd, u + 5.0, d);
  }

  lemma Regroup(a: real, b: real, c: real)
    ensures a * b * c == a * c * b
  {
  }

  // The scale between reward and gain.
  lemma RewardTimes(utility: seq<real>, rates: seq<int>, buff: int, i: nat, k: real)
    requires IsUtility(utility, rates) && i < |rates| && k == 2000.0 * (utility[|utility| - 1] + 5.0)
    ensures k > 0.0 && rates[i] > 0 && utility[|utility| - 1] >= 0.0
    ensures Reward(utility, rates, buff, i) * (rates[i] as real * k) == Gain(utility, buff, i)
  {
    TopUtility(utility, rates);
    var d, level := utility[|utility| - 1] + 5.0, buff as real * 1.0 / SEGMENT as real;
    var w, r := Worth(utility, i) - level, rates[i] as real;
    WorthTimes(utility, i, d);
    Quotient(w, r, k);
    assert w * k == Worth(utility, i) * d * 2000.0 - level * 2000.0 * d;
    assert level * 2000.0 == buff as real;
  }

  lemma Quotient(x: real, r: real, k: real)
    requires r > 0.0
    ensures x / r * (r * k) == x * k
  {
    assert x / r * r == x;
  }

  lemma Product(a: real, b: real)
    requires b > 0.0
    ensures a * b > 0.0 <==> a > 0.0
  {
  }

  // Quotients compare as their cross products do.
  lemma Cross(x: real, r: real, g: real, y: real, s: real, h: real, k: real)
    requires r > 0.0 && s > 0.0 && k > 0.0 && x * (r * k) == g && y * (s * k) == h
    ensures x > 0.0 <==> g > 0.0
    ensures x > y <==> g * s > h * r
  {
    Product(r, k);
    Product(s, r * k);
    Product(x, r * k);
    var scale := s * (r * k);
    assert g * s == x * scale;
    assert h * r == y * scale;
    assert (x - y) * scale == g * s - h * r;
    Product(x - y, scale);
  }

  lemma RewardOrder(utility: seq<real>, rates: seq<int>, buff: int, i: nat, j: nat)
    requires IsUtility(utility, rates) && i < |rates| && j < |rates|
    ensures utility[|utility| - 1] >= 0.0 && rates[i] > 0 && rates[j] > 0
    ensures Reward(utility, rates, buff, i) > 0.0 <==> Gain(utility, buff, i) > 0.0
    ensures Reward(utility, rates, buff, i) > Reward(utility, rates, buff, j) <==> Beats(utility, rates, buff, i, j)
  {
    hide Reward, Gain;
    var k := 2000.0 * (utility[|utility| - 1] + 5.0);
    RewardTimes(utility, rates, buff, i, k);
    RewardTimes(utility, rates, buff, j, k);
    Cross(Reward(utility, rates, buff, i), rates[i] as real, Gain(utility, buff, i),
          Reward(utility, rates, buff, j), rates[j] as real, Gain(utility, buff, j), k);
  }

  lemma RewardsOrder(utility: seq<real>, rates: seq<int>, buff: int)
    requires IsUtility(utility, rates)
    ensures utility[|utility| - 1] >= 0.0 && forall i :: 0 <= i < |rates| ==> rates[i] > 0
    ensures forall i :: 0 <= i < |rates| ==>
      (Reward(utility, rates, buff, i) > 0.0 <==> Gain(utility, buff, i) > 0.0)
    ensures forall i, j :: 0 <= i < |rates| && 0 <= j < |rates| ==>
      (Reward(utility, rates, buff, i) > Reward(utility, rates, buff, j) <==> Beats(utility, rates, buff, i, j))
  {
    hide Reward, Gain, Beats;
    TopUtility(utility, rates);
    forall i, j | 0 <= i < |rates| && 0 <= j < |rates|
      ensures Reward(utility, rates, buff, i) > 0.0 <==> Gain(utility, buff, i) > 0.0
      ensures Reward(utility, rates, buff, i) > Reward(utility, rates, buff, j) <==> Beats(utility, rates, buff, i, j)
    {
      RewardOrder(utility, rates, buff, i, j);
    }
  }

  /** A rung's reward is positive exactly below its own buffer level, which rises with its utility. */
  lemma RungThreshold(utility: seq<real>, rates: seq<int>, buff: int, i: nat)
    requires IsUtility(utility, rates) && i < |rates|
    ensures var top := utility[|utility| - 1];
      top >= 0.0 && rates[i] > 0 &&
      (Reward(utility, rates, buff, i) > 0.0 <==> buff as real * (top + 5.0) < 28000.0 * (utility[i] + 5.0))
  {
    RewardOrder(utility, rates, buff, i, i);
  }

  /** A higher rung is ahead of a lower one exactly above a buffer level that their utilities and rates give. */
  lemma AheadFrom(utility: seq<real>, rates: seq<int>, buff: int, i: nat, j: nat)
    requires IsUtility(utility, rates) && i < j < |rates|
    ensures var top, r, s := utility[|utility| - 1], rates[i] as real, rates[j] as real;
      top >= 0.0 && 0.0 < r < s &&
      (Reward(utility, rates, buff, j) > Reward(utility, rates, buff, i) <==>
       buff as real * (top + 5.0) * (s - r) > 28000.0 * ((utility[i] + 5.0) * s - (utility[j] + 5.0) * r))
  {
    RewardOrder(utility, rates, buff, j, i);
    var b, r, s := buff as real * (utility[|utility| - 1] + 5.0), rates[i] as real, rates[j] as real;
    var x, y := 28000.0 * (utility[i] + 5.0), 28000.0 * (utility[j] + 5.0);
    assert (y - b) * r - (x - b) * s == b * (s - r) - (x * s - y * r);
    assert x * s == 28000.0 * ((utility[i] + 5.0) * s);
    assert y * r == 28000.0 * ((utility[j] + 5.0) * r);
  }

  /** maxRewardRate: the lowest rung of maximal positive reward, or the default when no reward is positive
      (-1 in BOLA.cc, the top rung in Proposed.cc). */
  method MaxRewardRate(utility: seq<real>, rates: seq<int>, buff: int, default: int) returns (chosen: int)
    requires IsUtility(utility, rates)
    ensures IsBest(utility, rates, buff, chosen) || (chosen == default && NoReward(utility, rates, buff))
  {
    hide Reward, Gain, Beats;
    RewardsOrder(utility, rates, buff);
    var maxReward := 0.0;
    chosen := default;
    ghost var found := false;
    for i := 0 to |utility|
      invariant found ==> 0 <= chosen < i && maxReward == Reward(utility, rates, buff, chosen) > 0.0
      invariant !found ==> chosen == default && maxReward == 0.0
      invariant forall j :: 0 <= j < i ==> Reward(utility, rates, buff, j) <= maxReward
      invariant found ==> forall j :: 0 <= j < chosen ==> Reward(utility, rates, buff, j) < maxReward
    {
      var reward := Reward(utility, rates, buff, i);
      if reward > maxReward {
        maxReward := reward;
        chosen := i;
        found := true;
      }
    }
  }

  /** Two rungs of 1000 and 2000 kbps with 24 s of buffer: the higher one is best. */
  lemma BestExample()
    ensures IsUtility([0.0, 1.0], [1000, 2000]) && IsBest([0.0, 1.0], [1000, 2000], 24000, 1)
  {
    var utility, rates := [0.0, 1.0], [1000, 2000];
    assert Gain(utility, 24000, 0) == -4000.0 && Gain(utility, 24000, 1) == 24000.0;
  }

  /** Some rung has a positive reward exactly while the buffer is below the maximum less one segment. */
  lemma RewardThreshold(utility: seq<real>, rates: seq<int>, buff: int)
    requires IsUtility(utility, rates)
    ensures NoReward(utility, rates, buff) <==> buff >= MAX_BUFF - SEGMENT
  {
    var n := |rates| - 1;
    var d := utility[n] + 5.0;
    TopUtility(utility, rates);
    assert Gain(utility, buff, n) == (28000 - buff) as real * d;
    Product((28000 - buff) as real, d);
    forall j | 0 <= j < |rates|
      ensures Gain(utility, buff, j) <= Gain(utility, buff, n)
    {
      assert utility[j] <= utility[n];
    }
  }

  // --- how the choice moves with the buffer ---

  // A higher rung that is ahead at some level stays ahead at every higher one.
  lemma StaysAhead(utility: seq<real>, rates: seq<int>, buff: int, buff': int, i: nat, j: nat)
    requires IsUtility(utility, rates) && buff <= buff' && i < j < |rates| && Beats(utility, rates, buff, j, i)
    ensures Beats(utility, rates, buff', j, i)
  {
    var d, r, s := utility[|utility| - 1] + 5.0, rates[i] as real, rates[j] as real;
    TopUtility(utility, rates);
    var loss := (buff' - buff) as real * d;
    assert loss >= 0.0;
    assert Gain(utility, buff', i) == Gain(utility, buff, i) - loss;
    assert Gain(utility, buff', j) == Gain(utility, buff, j) - loss;
    assert loss * r <= loss * s;
  }

  /** A fuller buffer never lowers the choice. */
  lemma ChoiceMonotone(utility: seq<real>, rates: seq<int>, buff: int, buff': int, i: int, i': int)
    requires IsUtility(utility, rates) && buff <= buff'
    requires IsBest(utility, rates, buff, i) && IsBest(utility, rates, buff', i')
    ensures i <= i'
  {
    hide Beats, Gain;
    if i' < i {
      StaysAhead(utility, rates, buff, buff', i', i);
    }
  }

  lemma BestUnique(utility: seq<real>, rates: seq<int>, buff: int, i: int, i': int)
    requires IsUtility(utility, rates) && IsBest(utility, rates, buff, i) && IsBest(utility, rates, buff, i')
    ensures i == i'
  {
    ChoiceMonotone(utility, rates, buff, buff, i, i');
    ChoiceMonotone(utility, rates, buff, buff, i', i);
  }

  // The choice of Proposed.cc, where no reward means the top rung.
  ghost predicate IsProposedChoice(utility: seq<real>, rates: seq<int>, buff: int, i: int)
    requires IsUtility(utility, rates)
  {
    IsBest(utility, rates, buff, i) || (i == |rates| - 1 && NoReward(utility, rates, buff))
  }

  /** With the top rung as default the choice is defined and monotone over all buffer levels. */
  lemma ProposedChoiceMonotone(utility: seq<real>, rates: seq<int>, buff: int, buff': int, i: int, i': int)
    requires IsUtility(utility, rates) && buff <= buff'
    requires IsProposedChoice(utility, rates, buff, i) && IsProposedChoice(utility, rates, buff', i')
    ensures 0 <= i <= i' < |rates|
  {
    RewardThreshold(utility, rates, buff);
    RewardThreshold(utility, rates, buff');
    if IsBest(utility, rates, buff, i) && IsBest(utility, rates, buff', i') {
      ChoiceMonotone(utility, rates, buff, buff', i, i');
    }
  }
}
