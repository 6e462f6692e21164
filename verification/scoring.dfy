/** The brightness heuristic that turns an answer sheet into a score: the
    darker the sheet, the larger the filled ratio, and the score is that ratio
    of the total number of questions, rounded to the nearest integer.
    The mean grey level of the image is taken as an input; decoding the image
    and averaging its pixels is not part of this model. */
module Scoring {

  /** The grey level of a white pixel. */
  const White: real := 255.0

  function Min(a: real, b: real): real { if a <= b then a else b }

  function Max(a: real, b: real): real { if a >= b then a else b }

  /** Python's `round()` on a number: the nearest integer, and on a tie
      between two integers the even one. */
  function Round(x: real): (n: int)
    ensures -0.5 <= x - n as real <= 0.5
    ensures (x - n as real == 0.5 || n as real - x == 0.5) ==> n % 2 == 0
  {
    var f := x.Floor;
    var d := x - f as real;
    if d < 0.5 then f
    else if d > 0.5 then f + 1
    else if f % 2 == 0 then f
    else f + 1
  }

  /** An integer rounds to itself. */
  lemma RoundInteger(k: int)
    ensures Round(k as real) == k
  {
  }

  /** Rounding never reverses the order of two numbers. */
  lemma RoundMonotone(x: real, y: real)
    requires x <= y
    ensures Round(x) <= Round(y)
  {
  }

  /** The filled ratio of a sheet whose mean grey level is `mean`:
      `(255 - mean) / 255`, clamped into [0, 1]. */
  function Ratio(mean: real): (r: real)
    ensures 0.0 <= r <= 1.0
    ensures mean <= 0.0 ==> r == 1.0
    ensures mean >= White ==> r == 0.0
    ensures 0.0 <= mean <= White ==> r * White == White - mean
  {
    Max(0.0, Min(1.0, (White - mean) / White))
  }

  /** A brighter sheet never has a larger filled ratio. */
  lemma RatioAntitone(m1: real, m2: real)
    requires m1 <= m2
    ensures Ratio(m2) <= Ratio(m1)
  {
  }

  /** `calculate_score` once the mean grey level is known: the filled ratio of
      `total`, rounded. For a non-negative total the score lies in
      [0, total]; a white sheet scores 0 and a black sheet scores `total`. */
  function Score(mean: real, total: int): (s: int)
    ensures -0.5 <= Ratio(mean) * total as real - s as real <= 0.5
    ensures total >= 0 ==> 0 <= s <= total
    ensures total <= 0 ==> total <= s <= 0
    ensures mean >= White ==> s == 0
    ensures mean <= 0.0 ==> s == total
  {
    ScoreBounds(Ratio(mean), total);
    Round(Ratio(mean) * total as real)
  }

  /** What rounding a ratio in [0, 1] of `total` gives: a value between 0 and
      `total`, exactly 0 for the ratio 0 and exactly `total` for the ratio 1. */
  lemma ScoreBounds(r: real, total: int)
    requires 0.0 <= r <= 1.0
    ensures total >= 0 ==> 0 <= Round(r * total as real) <= total
    ensures total <= 0 ==> total <= Round(r * total as real) <= 0
    ensures r == 0.0 ==> Round(r * total as real) == 0
    ensures r == 1.0 ==> Round(r * total as real) == total
  {
    ScaledBetween(r, total);
    if total >= 0 {
      RoundBetween(r * total as real, 0, total);
    } else {
      RoundBetween(r * total as real, total, 0);
    }
    ScoreEndpoints(r, total);
  }

  /** The ratios 0 and 1 of `total` round to 0 and to `total`. */
  lemma ScoreEndpoints(r: real, total: int)
    ensures r == 0.0 ==> Round(r * total as real) == 0
    ensures r == 1.0 ==> Round(r * total as real) == total
  {
    if r == 0.0 {
      assert r * total as real == 0 as real;
      RoundInteger(0);
    }
    if r == 1.0 {
      assert r * total as real == total as real;
      RoundInteger(total);
    }
  }

  /** Rounding a number that lies between two integers stays between them. */
  lemma RoundBetween(x: real, lo: int, hi: int)
    requires lo as real <= x <= hi as real
    ensures lo <= Round(x) <= hi
  {
  }

  /** A ratio in [0, 1] of `total` lies between 0 and `total`. */
  lemma ScaledBetween(r: real, total: int)
    requires 0.0 <= r <= 1.0
    ensures total >= 0 ==> 0.0 <= r * total as real <= total as real
    ensures total <= 0 ==> total as real <= r * total as real <= 0.0
  {
    var t := total as real;
    if total >= 0 {
      assert r * t <= 1.0 * t;
    } else {
      assert r * t >= 1.0 * t;
    }
  }

  /** For a non-negative total the score does not increase as the sheet gets
      brighter. */
  lemma ScoreAntitone(m1: real, m2: real, total: int)
    requires m1 <= m2
    requires total >= 0
    ensures Score(m2, total) <= Score(m1, total)
  {
    RatioAntitone(m1, m2);
    var x1, x2 := Ratio(m1) * total as real, Ratio(m2) * total as real;
    assert x2 <= x1 by {
      assert (Ratio(m1) - Ratio(m2)) * total as real >= 0.0;
    }
    RoundMonotone(x2, x1);
    assert Score(m1, total) == Round(x1);
    assert Score(m2, total) == Round(x2);
  }
}
