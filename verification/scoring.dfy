/** Turning a store distance into a similarity score, and the four-digit
    display rounding applied to scores and distances. */
module Scoring {

  /** `1 / (1 + distance)`; the only distance it is undefined for is -1,
      where Python raises ZeroDivisionError. Multiplying the score by
      `1 + distance` gives back 1, so the distance is recoverable. */
  function Similarity(distance: real): (s: real)
    requires distance != -1.0
    ensures s * (1.0 + distance) == 1.0
    ensures distance >= 0.0 ==> 0.0 < s <= 1.0
    ensures distance >= 0.0 ==> (s == 1.0 <==> distance == 0.0)
  {
    1.0 / (1.0 + distance)
  }

  /** The distance a similarity score came from: the inverse of `Similarity`. */
  function DistanceOf(s: real): real
    requires s != 0.0
  {
    1.0 / s - 1.0
  }

  /** Scores and distances are in one-to-one correspondence. */
  lemma DistanceOfSimilarity(d: real)
    requires d != -1.0
    ensures Similarity(d) != 0.0 && DistanceOf(Similarity(d)) == d
  {
    var s := Similarity(d);
    assert s * (1.0 + d) == 1.0;
    assert 1.0 / s == 1.0 + d;
  }

  /** A larger non-negative distance gives a strictly smaller score. */
  lemma SimilarityStrictlyDecreasing(d1: real, d2: real)
    requires 0.0 <= d1 < d2
    ensures Similarity(d1) > Similarity(d2)
  {
    var s1, s2 := Similarity(d1), Similarity(d2);
    assert s1 * (1.0 + d1) == 1.0 && s2 * (1.0 + d2) == 1.0;
    // s1 - s2 == s1 * s2 * (d2 - d1), a product of positive factors
    assert s1 * s2 * (1.0 + d2) == s1;
    assert s1 * s2 * (1.0 + d1) == s2;
    assert s1 - s2 == s1 * s2 * (d2 - d1);
    PositiveProduct(s1 * s2, d2 - d1);
  }

  lemma PositiveProduct(a: real, b: real)
    requires a > 0.0 && b > 0.0
    ensures a * b > 0.0
  {
  }

  /** The integer nearest to `y`, ties going to the even one (Python's
      `round(y)`, exactly). */
  function RoundHalfEven(y: real): (n: int)
    ensures y.Floor <= n <= y.Floor + 1
    ensures y - 0.5 <= n as real <= y + 0.5
    ensures (n as real - y == 0.5 || y - n as real == 0.5) ==> n % 2 == 0
  {
    var f := y.Floor;
    var frac := y - f as real;
    if frac < 0.5 then f
    else if frac > 0.5 then f + 1
    else if f % 2 == 0 then f else f + 1
  }

  /** Python's `round(x, 4)` applied to the exact value: the nearest multiple
      of 1/10000, ties going to the even multiple. */
  function Round4(x: real): (r: real)
    ensures OnGrid(r)
    ensures x - 0.00005 <= r <= x + 0.00005
  {
    var y := x * 10000.0;
    var n := RoundHalfEven(y);
    var r := n as real / 10000.0;
    assert r * 10000.0 == n as real;
    assert (r * 10000.0).Floor == n;
    assert y - 0.5 <= n as real <= y + 0.5;
    r
  }

  /** A multiple of 1/10000 (a value with at most four decimal digits). */
  predicate OnGrid(x: real) {
    (x * 10000.0).Floor as real == x * 10000.0
  }

  /** Values with at most four decimals are left as they are. */
  lemma Round4OnGrid(x: real)
    requires OnGrid(x)
    ensures Round4(x) == x
  {
  }

  /** Rounding never reverses the order of two values. */
  lemma Round4Monotone(x: real, y: real)
    requires x <= y
    ensures Round4(x) <= Round4(y)
  {
    RoundHalfEvenMonotone(x * 10000.0, y * 10000.0);
  }

  lemma RoundHalfEvenMonotone(a: real, b: real)
    requires a <= b
    ensures RoundHalfEven(a) <= RoundHalfEven(b)
  {
    if a.Floor == b.Floor {
      assert a - a.Floor as real <= b - b.Floor as real;
    }
  }

  /** The displayed score of a non-negative distance lies in [0, 1]. */
  lemma DisplayedScoreInUnitInterval(d: real)
    requires d >= 0.0
    ensures 0.0 <= Round4(Similarity(d)) <= 1.0
  {
    Round4OnGrid(0.0);
    Round4OnGrid(1.0);
    Round4Monotone(0.0, Similarity(d));
    Round4Monotone(Similarity(d), 1.0);
  }

  /** A score that meets a threshold with at most four decimals still meets
      it after display rounding. */
  lemma DisplayedScoreMeetsGridThreshold(d: real, threshold: real)
    requires d != -1.0 && Similarity(d) >= threshold && OnGrid(threshold)
    ensures Round4(Similarity(d)) >= threshold
  {
    Round4OnGrid(threshold);
    Round4Monotone(threshold, Similarity(d));
  }

  /** With a threshold that has more than four decimals, the displayed score of
      a kept neighbour can fall below the threshold: 0.70004 rounds to 0.7. */
  lemma DisplayedScoreCanUndercutThreshold()
    ensures var d := 1.0 / 0.70004 - 1.0;
      d != -1.0 && Similarity(d) >= 0.70004 && Round4(Similarity(d)) == 0.7 < 0.70004
  {
    var d := 1.0 / 0.70004 - 1.0;
    assert 1.0 + d == 1.0 / 0.70004;
    assert Similarity(d) == 0.70004;
    assert (0.70004 * 10000.0).Floor == 7000;
  }
}
