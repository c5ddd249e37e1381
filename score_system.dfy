/** The two scoring formulas. Times are elapsed milliseconds held in a
    64-bit `Long`, whose division truncates toward zero. */
module ScoreSystem {
  import opened GameData

  /** Division of a `Long` by a positive divisor, truncating toward zero
      (Dafny's own `/` is Euclidean, which differs for negative `a`). */
  function TruncDiv(a: int, b: int): int
    requires b > 0
  {
    if a >= 0 then a / b else -((-a) / b)
  }

  /** Euclidean quotient bounds for a non-negative dividend. */
  lemma DivBounds(a: int, b: int)
    requires a >= 0 && b > 0
    ensures 0 <= (a / b) * b <= a < (a / b) * b + b
  {
    assert a == (a / b) * b + a % b;
  }

  /** `TruncDiv` rounds toward zero: its product with the divisor lies
      between zero and the dividend, less than one divisor away from it. */
  lemma TruncDivTowardZero(a: int, b: int)
    requires b > 0
    ensures a >= 0 ==> 0 <= TruncDiv(a, b) * b <= a < TruncDiv(a, b) * b + b
    ensures a < 0 ==> TruncDiv(a, b) * b - b < a <= TruncDiv(a, b) * b <= 0
  {
    if a >= 0 {
      DivBounds(a, b);
    } else {
      DivBounds(-a, b);
      var q := (-a) / b;
      assert TruncDiv(a, b) * b == -(q * b);
    }
  }

  /** Whole seconds of `timeElapsed`, as the source computes them. */
  function Seconds(timeElapsed: int): int
  {
    TruncDiv(timeElapsed, 1000)
  }

  /** `maxOf(0, 1000 - timeElapsed / 1000)`. */
  function TimeBonus(timeElapsed: int): int
  {
    var b := 1000 - Seconds(timeElapsed);
    if b > 0 then b else 0
  }

  function Multiplier(d: Difficulty): (m: int)
    ensures m == 1 <==> d == Easy
    ensures m == 2 <==> d == Hard
  {
    match d
    case Easy => 1
    case Hard => 2
  }

  /** The final score: the time bonus times the multiplier, scaled by the
      fraction of safe cells revealed. The source forms the fraction in
      floating point and truncates the product; here it is exact. A zero
      `totalNonMineCells` gives NaN or infinity in the source and is
      excluded. */
  function CalculateScore(timeElapsed: int, d: Difficulty, revealedCells: int, totalNonMineCells: int): (score: int)
    requires totalNonMineCells > 0
    ensures 0 <= revealedCells <= totalNonMineCells ==>
      0 <= score <= TimeBonus(timeElapsed) * Multiplier(d)
    ensures revealedCells == totalNonMineCells ==> score == TimeBonus(timeElapsed) * Multiplier(d)
  {
    var full := TimeBonus(timeElapsed) * Multiplier(d);
    MulMonotone(0, TimeBonus(timeElapsed), Multiplier(d));
    FractionOfFull(full, revealedCells, totalNonMineCells);
    TruncDiv(full * revealedCells, totalNonMineCells)
  }

  /** `maxOf(0, 100 - timeElapsed / 1000)`: at most 100 points, none once
      100 seconds have passed. */
  function EfficiencyBonus(timeElapsed: int): (bonus: int)
    ensures timeElapsed >= 0 ==> 0 <= bonus <= 100
    ensures timeElapsed >= 100000 ==> bonus == 0
  {
    SecondsAtLeast(timeElapsed, 100);
    var b := 100 - Seconds(timeElapsed);
    if b > 0 then b else 0
  }

  /** The live score: ten points per revealed cell times the multiplier,
      plus an efficiency bonus. `totalNonMineCells` is taken but unused. */
  function ProgressiveScore(timeElapsed: int, d: Difficulty, revealedCells: int, totalNonMineCells: int): (score: int)
    ensures timeElapsed >= 0 ==>
      revealedCells * 10 * Multiplier(d) <= score <= revealedCells * 10 * Multiplier(d) + 100
    ensures timeElapsed >= 100000 ==> score == revealedCells * 10 * Multiplier(d)
  {
    revealedCells * 10 * Multiplier(d) + EfficiencyBonus(timeElapsed)
  }

  /** After `s * 1000` milliseconds at least `s` whole seconds have
      passed. */
  lemma SecondsAtLeast(t: int, s: int)
    requires s >= 0
    ensures t >= s * 1000 ==> Seconds(t) >= s
  {
    if t >= s * 1000 {
      DivMonotone(s * 1000, t, 1000);
      MulDivCancel(s, 1000);
    }
  }

  /** The fraction `n / total` of `full`, truncated, lies between 0 and
      `full`, and is `full` itself when `n == total`. */
  lemma FractionOfFull(full: int, n: int, total: int)
    requires full >= 0 && total > 0
    ensures 0 <= n <= total ==> 0 <= TruncDiv(full * n, total) <= full
    ensures n == total ==> TruncDiv(full * n, total) == full
  {
    if 0 <= n <= total {
      MulMonotone(0, n, full);
      MulMonotone(n, total, full);
      var v := full * n;
      assert 0 <= v <= full * total;
      DivAtMost(v, full, total);
      DivBounds(v, total);
      if v / total < 0 {
        MulMonotone(v / total, -1, total);
      }
    }
    if n == total {
      MulDivCancel(full, total);
    }
  }

  lemma MulMonotone(x: int, y: int, c: int)
    requires x <= y && c >= 0
    ensures x * c <= y * c
  {
  }

  /** Division of a non-negative number is monotone in the dividend. */
  lemma DivMonotone(a: int, b: int, c: int)
    requires 0 <= a <= b && c > 0
    ensures a / c <= b / c
  {
    DivBounds(a, c);
    DivBounds(b, c);
    if a / c > b / c {
      MulMonotone(b / c + 1, a / c, c);
    }
  }

  /** A quotient never exceeds `p` when the dividend is at most `p * c`. */
  lemma DivAtMost(x: int, p: int, c: int)
    requires 0 <= x <= p * c && c > 0
    ensures x / c <= p
  {
    DivBounds(x, c);
    if x / c > p {
      MulMonotone(p + 1, x / c, c);
    }
  }

  lemma MulDivCancel(p: int, c: int)
    requires p >= 0 && c > 0
    ensures (p * c) / c == p
  {
    DivAtMost(p * c, p, c);
    DivBounds(p * c, c);
    if (p * c) / c < p {
      MulMonotone((p * c) / c + 1, p, c);
    }
  }

  lemma TimeBonusBounds(t: int)
    requires t >= 0
    ensures 0 <= TimeBonus(t) <= 1000
    ensures t >= 1000000 ==> TimeBonus(t) == 0
    ensures t < 1000 ==> TimeBonus(t) == 1000
  {
    if t >= 1000000 {
      DivMonotone(1000000, t, 1000);
    }
  }

  /** A longer game never earns a larger time bonus. */
  lemma TimeBonusAntitone(t1: int, t2: int)
    requires 0 <= t1 <= t2
    ensures TimeBonus(t2) <= TimeBonus(t1)
  {
    DivMonotone(t1, t2, 1000);
  }

  /** The fixed example: an easy game finished at once scores 1000. */
  lemma EasyInstantScore()
    ensures CalculateScore(0, Easy, 54, 54) == 1000
  {
  }

  /** For a fixed amount of progress, the score does not grow with time,
      and it is zero once a million milliseconds have passed. */
  lemma ScoreAntitone(t1: int, t2: int, d: Difficulty, revealed: int, total: int)
    requires 0 <= t1 <= t2 && 0 <= revealed && total > 0
    ensures CalculateScore(t2, d, revealed, total) <= CalculateScore(t1, d, revealed, total)
    ensures t2 >= 1000000 ==> CalculateScore(t2, d, revealed, total) == 0
  {
    TimeBonusAntitone(t1, t2);
    TimeBonusBounds(t2);
    var m := Multiplier(d);
    var f1, f2 := TimeBonus(t1) * m, TimeBonus(t2) * m;
    MulMonotone(TimeBonus(t2), TimeBonus(t1), m);
    MulMonotone(0, TimeBonus(t2), m);
    MulMonotone(f2, f1, revealed);
    MulMonotone(0, f2, revealed);
    DivMonotone(f2 * revealed, f1 * revealed, total);
    assert CalculateScore(t1, d, revealed, total) == TruncDiv(f1 * revealed, total);
    assert CalculateScore(t2, d, revealed, total) == TruncDiv(f2 * revealed, total);
  }

  /** Each further revealed cell is worth exactly ten points times the
      multiplier, and the total number of safe cells plays no part. */
  lemma ProgressiveStep(t: int, d: Difficulty, revealed: int, total: int, total': int)
    ensures ProgressiveScore(t, d, revealed + 1, total) == ProgressiveScore(t, d, revealed, total) + 10 * Multiplier(d)
    ensures ProgressiveScore(t, d, revealed, total) == ProgressiveScore(t, d, revealed, total')
  {
  }
}
