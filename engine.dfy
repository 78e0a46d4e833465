/**
 The rating update of one match: each player's change is the sensitivity-scaled
 surprise of the result, weighted by the goal difference, then capped at the
 K-factor. The power of ten in the expected score and the base-2 logarithm of
 the goal difference are floating-point library calls; they are parameters
 here (`pow10(x)` for `10 ** x`, which is positive, and `log2`), and the lemmas
 say which further properties each law needs. Arithmetic is exact.
 */
module Engine {

  /** The K-factor: the largest change one match may cause. */
  const K: real := 40.0
  /** How strongly the goal difference scales a change. */
  const GoalDifferenceWeight: real := 0.2
  /** How strongly a surprise moves a rating. */
  const EloSensitivity: real := 1.5

  /** The values `10 ** x` takes. */
  type Positive = x: real | x > 0.0 witness 1.0

  function Min(a: real, b: real): real {
    if a <= b then a else b
  }

  function Max(a: real, b: real): real {
    if a >= b then a else b
  }

  /** `max(min(delta, k), -k)`: the change cap. */
  function Clamp(delta: real, k: real): (c: real)
    requires k >= 0.0
    ensures -k <= c <= k
    ensures -k <= delta <= k ==> c == delta
    ensures delta > k ==> c == k
    ensures delta < -k ==> c == -k
  {
    Max(Min(delta, k), -k)
  }

  /** The cap treats gains and losses alike. */
  lemma ClampOdd(delta: real, k: real)
    requires k >= 0.0
    ensures Clamp(-delta, k) == -Clamp(delta, k)
  {
  }

  /** The cap never reverses the direction of a change. */
  lemma ClampKeepsSign(delta: real, k: real)
    requires k > 0.0
    ensures delta > 0.0 ==> Clamp(delta, k) > 0.0
    ensures delta < 0.0 ==> Clamp(delta, k) < 0.0
    ensures delta == 0.0 ==> Clamp(delta, k) == 0.0
  {
  }

  /** `get_expected_probability`: the expected score `1 / (1 + 10 ** ((r2 - r1) / 400))` of a
      player rated `r1` against one rated `r2`. It lies strictly between a loss and a win. */
  function Expected(r1: real, r2: real, pow10: real -> Positive): (e: real)
    ensures 0.0 < e < 1.0
  {
    var p := pow10((r2 - r1) / 400.0);
    assert 1.0 + p > 1.0;
    1.0 / (1.0 + p)
  }

  /** What zero sum needs of `10 ** x`: `10 ** -x` is its inverse. */
  predicate PowerLaws(r1: real, r2: real, pow10: real -> Positive) {
    pow10((r2 - r1) / 400.0) * pow10((r1 - r2) / 400.0) == 1.0
  }

  /** The two players' expected scores add up to one. */
  lemma ExpectedSumToOne(r1: real, r2: real, pow10: real -> Positive)
    requires PowerLaws(r1, r2, pow10)
    ensures Expected(r1, r2, pow10) + Expected(r2, r1, pow10) == 1.0
  {
    var p, q := pow10((r2 - r1) / 400.0), pow10((r1 - r2) / 400.0);
    assert p * q == 1.0;
    assert 1.0 / (1.0 + q) == p / (p + 1.0) by {
      assert (1.0 + q) * p == p + p * q == p + 1.0;
    }
    assert 1.0 / (1.0 + p) + p / (p + 1.0) == (1.0 + p) / (1.0 + p);
  }

  /** Equal ratings give an expected score of one half, since `10 ** 0` is one. */
  lemma ExpectedEven(r: real, pow10: real -> Positive)
    requires pow10(0.0) == 1.0
    ensures Expected(r, r, pow10) == 0.5
  {
    assert (r - r) / 400.0 == 0.0;
  }

  /** `g = 1 + goal_difference_weight * (log2(goal_diff + 1) - 1)`. A one-goal margin, where
      `log2(2)` is one, leaves a change unweighted; the factor stays positive while `log2` of
      the goal count is above -4, as it is for a true base-2 logarithm of a number at least one. */
  function GoalFactor(goalDiff: nat, log2: real -> real): (g: real)
    ensures log2((goalDiff + 1) as real) == 1.0 ==> g == 1.0
    ensures log2((goalDiff + 1) as real) > -4.0 ==> g > 0.0
  {
    1.0 + GoalDifferenceWeight * (log2((goalDiff + 1) as real) - 1.0)
  }

  /** The change before the cap: `k * (elo_sensitivity * (score - expectation)) * g`. A result
      that was expected changes nothing; an unweighted change is 60 points per unit of surprise. */
  function RawChange(score: real, expectation: real, g: real): (d: real)
    ensures score == expectation ==> d == 0.0
    ensures g == 1.0 ==> d == 60.0 * (score - expectation)
  {
    K * (EloSensitivity * (score - expectation)) * g
  }

  /** `update_elo`: the two new ratings after a match whose first player scored `outcome`;
      neither moves by more than the K-factor. */
  function UpdateElo(r1: real, r2: real, outcome: real, goalDiff: nat, pow10: real -> Positive, log2: real -> real)
    : (ratings: (real, real))
    ensures r1 - K <= ratings.0 <= r1 + K
    ensures r2 - K <= ratings.1 <= r2 + K
  {
    var g := GoalFactor(goalDiff, log2);
    var changeA := Clamp(RawChange(outcome, Expected(r1, r2, pow10), g), K);
    var changeB := Clamp(RawChange(1.0 - outcome, Expected(r2, r1, pow10), g), K);
    (r1 + changeA, r2 + changeB)
  }

  /** When the two expectations add up to one, the second player's raw change is the negation
      of the first's. */
  lemma RawChangesOpposite(outcome: real, e1: real, e2: real, g: real)
    requires e1 + e2 == 1.0
    ensures RawChange(1.0 - outcome, e2, g) == -RawChange(outcome, e1, g)
  {
    assert (1.0 - outcome) - e2 == -(outcome - e1);
    assert EloSensitivity * ((1.0 - outcome) - e2) == -(EloSensitivity * (outcome - e1));
  }

  /** Zero sum: the points one player gains are exactly the points the other loses, cap included. */
  lemma UpdateEloZeroSum(r1: real, r2: real, outcome: real, goalDiff: nat, pow10: real -> Positive, log2: real -> real)
    requires PowerLaws(r1, r2, pow10)
    ensures var (n1, n2) := UpdateElo(r1, r2, outcome, goalDiff, pow10, log2);
            (n1 - r1) + (n2 - r2) == 0.0
  {
    var g := GoalFactor(goalDiff, log2);
    ExpectedSumToOne(r1, r2, pow10);
    RawChangesOpposite(outcome, Expected(r1, r2, pow10), Expected(r2, r1, pow10), g);
    ClampOdd(RawChange(outcome, Expected(r1, r2, pow10), g), K);
  }

  /** A positive weight times a positive surprise is a positive change. */
  lemma RawChangeSign(score: real, expectation: real, g: real)
    requires g > 0.0
    ensures score > expectation ==> RawChange(score, expectation, g) > 0.0
    ensures score < expectation ==> RawChange(score, expectation, g) < 0.0
    ensures score == expectation ==> RawChange(score, expectation, g) == 0.0
  {
    var d := score - expectation;
    assert RawChange(score, expectation, g) == (60.0 * d) * g;
    if d > 0.0 {
      assert 60.0 * d > 0.0;
    } else if d < 0.0 {
      assert -(60.0 * d) > 0.0;
      assert (60.0 * d) * g == -((-(60.0 * d)) * g);
    }
  }

  /** The winner gains and the loser loses. */
  lemma WinnerGainsLoserLoses(r1: real, r2: real, goalDiff: nat, pow10: real -> Positive, log2: real -> real)
    requires log2((goalDiff + 1) as real) > -4.0
    ensures UpdateElo(r1, r2, 1.0, goalDiff, pow10, log2).0 > r1
    ensures UpdateElo(r1, r2, 1.0, goalDiff, pow10, log2).1 < r2
  {
    var g := GoalFactor(goalDiff, log2);
    RawChangeSign(1.0, Expected(r1, r2, pow10), g);
    RawChangeSign(0.0, Expected(r2, r1, pow10), g);
    ClampKeepsSign(RawChange(1.0, Expected(r1, r2, pow10), g), K);
    ClampKeepsSign(RawChange(0.0, Expected(r2, r1, pow10), g), K);
  }

  /** A draw between equally rated players leaves both ratings unchanged. */
  lemma EvenDrawChangesNothing(r: real, goalDiff: nat, pow10: real -> Positive, log2: real -> real)
    requires pow10(0.0) == 1.0
    ensures UpdateElo(r, r, 0.5, goalDiff, pow10, log2) == (r, r)
  {
    ExpectedEven(r, pow10);
    var g := GoalFactor(goalDiff, log2);
    assert RawChange(0.5, 0.5, g) == K * (EloSensitivity * 0.0) * g == 0.0;
  }
}
