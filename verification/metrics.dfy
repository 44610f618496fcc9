/**
 The live statistics of the test: net words per minute, accuracy, and the
 final feedback category, computed in exact rational arithmetic.

 `Math.round` of a non-negative rational `n / d` rounds halves up:
 it is `floor(n / d + 1/2)`, which is `(2n + d) / (2d)` in integer division.
 */
module Metrics {

  /** Integer division by repeated subtraction (kept free of the division
      operator so that the solver sees only linear arithmetic). */
  function Quotient(n: nat, d: nat): nat
    requires d > 0
    decreases n
  {
    if n < d then 0 else 1 + Quotient(n - d, d)
  }

  /** `Quotient` is floor division: `d * q <= n < d * q + d`. */
  lemma {:induction false} QuotientBounds(n: nat, d: nat)
    requires d > 0
    ensures d * Quotient(n, d) <= n < d * Quotient(n, d) + d
    decreases n
  {
    if n >= d {
      QuotientBounds(n - d, d);
      assert d * Quotient(n, d) == d * Quotient(n - d, d) + d;
    }
  }

  /** `Math.round(n / d)` for `n >= 0`, `d > 0`: `floor((2n + d) / 2d)`. */
  function RoundDiv(n: nat, d: nat): nat
    requires d > 0
  {
    Quotient(2 * n + d, 2 * d)
  }

  /** The rounded quotient lies within one half of `n / d`, ties going up. */
  lemma RoundDivBand(n: nat, d: nat)
    requires d > 0
    ensures var r := RoundDiv(n, d);
      2 * d * r <= 2 * n + d < 2 * d * r + 2 * d
  {
    QuotientBounds(2 * n + d, 2 * d);
  }

  /** The rounding band determines the result: `r` is within one half of
      `n / d`, ties going up. */
  lemma RoundDivUnique(n: nat, d: nat, r: nat)
    requires d > 0
    requires 2 * d * r <= 2 * n + d < 2 * d * r + 2 * d
    ensures RoundDiv(n, d) == r
  {
    var q := RoundDiv(n, d);
    RoundDivBand(n, d);
    MulCancel(2 * d, q, r);
    MulCancel(2 * d, r, q);
  }

  lemma MulMono(k: nat, a: nat, b: nat)
    requires a <= b
    ensures k * a <= k * b
  {
  }

  lemma MulCancel(k: nat, a: nat, b: nat)
    requires k > 0 && k * a < k * b + k
    ensures a <= b
  {
    if a > b {
      MulMono(k, b + 1, a);
    }
  }

  /** Rounding is monotone in the numerator. */
  lemma RoundDivMonotone(n: nat, m: nat, d: nat)
    requires d > 0 && n <= m
    ensures RoundDiv(n, d) <= RoundDiv(m, d)
  {
    RoundDivBand(n, d);
    RoundDivBand(m, d);
    MulCancel(2 * d, RoundDiv(n, d), RoundDiv(m, d));
  }

  /** The rounded quotient is at most `k` when the quotient is. */
  lemma RoundDivAtMost(n: nat, d: nat, k: nat)
    requires d > 0 && n <= k * d
    ensures RoundDiv(n, d) <= k
  {
    var r := RoundDiv(n, d);
    RoundDivBand(n, d);
    assert 2 * d * r < 2 * d * k + 2 * d;
    MulCancel(2 * d, r, k);
  }

  /** The divisor `wordIndex || 1`: the word index, or 1 before any commit. */
  function Attempts(wordIndex: nat): (d: nat)
    ensures d >= 1
    ensures wordIndex > 0 ==> d == wordIndex
  {
    if wordIndex == 0 then 1 else wordIndex
  }

  /** Accuracy in percent: correct words over committed words (or 1), times
      100, rounded. It is 0 before any commit, 100 when every committed word
      was correct, and never above 100 while the correct words do not
      outnumber the committed ones. */
  function Accuracy(correctWords: nat, wordIndex: nat): (r: nat)
    ensures correctWords <= wordIndex ==> r <= 100
    ensures correctWords == 0 ==> r == 0
    ensures 0 < wordIndex == correctWords ==> r == 100
  {
    var d := Attempts(wordIndex);
    RoundedPercentBounds(correctWords, wordIndex, d);
    RoundDiv(100 * correctWords, d)
  }

  /** The accuracy is the percentage of correct words rounded half up. */
  lemma AccuracyRounds(correctWords: nat, wordIndex: nat)
    ensures var d := Attempts(wordIndex);
      var r := Accuracy(correctWords, wordIndex);
      2 * d * r <= 200 * correctWords + d < 2 * d * r + 2 * d
  {
    RoundDivBand(100 * correctWords, Attempts(wordIndex));
  }

  lemma RoundedPercentBounds(correctWords: nat, wordIndex: nat, d: nat)
    requires d == Attempts(wordIndex)
    ensures correctWords <= wordIndex ==> RoundDiv(100 * correctWords, d) <= 100
    ensures correctWords == 0 ==> RoundDiv(100 * correctWords, d) == 0
    ensures 0 < wordIndex == correctWords ==> RoundDiv(100 * correctWords, d) == 100
  {
    if correctWords <= wordIndex {
      assert 100 * correctWords <= 100 * d;
      RoundDivAtMost(100 * correctWords, d, 100);
    }
    if 0 < wordIndex == correctWords {
      RoundDivUnique(100 * correctWords, d, 100);
    }
    if correctWords == 0 {
      RoundDivUnique(0, d, 0);
    }
  }

  /** More correct words never lower the accuracy. */
  lemma AccuracyMonotone(c1: nat, c2: nat, wordIndex: nat)
    requires c1 <= c2
    ensures Accuracy(c1, wordIndex) <= Accuracy(c2, wordIndex)
  {
    RoundDivMonotone(100 * c1, 100 * c2, Attempts(wordIndex));
  }

  /** The displayed words-per-minute value: a rounded number, or the
      non-finite value the division produces when no time has elapsed. */
  datatype Wpm = Finite(value: nat) | Infinite

  /** Net WPM: correct words over elapsed minutes, rounded, with a NaN from
      `0 / 0` replaced by 0. Elapsed minutes are `tenths / 600`. */
  function NetWpm(correctWords: nat, elapsedTenths: nat): (r: Wpm)
    ensures r.Infinite? <==> elapsedTenths == 0 && correctWords > 0
    ensures elapsedTenths == 0 && correctWords == 0 ==> r == Finite(0)
  {
    if elapsedTenths == 0 then
      if correctWords == 0 then Finite(0) else Infinite
    else
      Finite(RoundDiv(600 * correctWords, elapsedTenths))
  }

  /** With time elapsed, net WPM is `600 * correctWords / elapsedTenths`
      rounded half up. */
  lemma NetWpmRounds(correctWords: nat, elapsedTenths: nat)
    requires elapsedTenths > 0
    ensures var r := NetWpm(correctWords, elapsedTenths);
      && r.Finite?
      && 2 * elapsedTenths * r.value <= 1200 * correctWords + elapsedTenths
      && 1200 * correctWords + elapsedTenths < 2 * elapsedTenths * r.value + 2 * elapsedTenths
  {
    RoundDivBand(600 * correctWords, elapsedTenths);
  }

  /** Net WPM grows with the correct words at a fixed elapsed time. */
  lemma NetWpmMonotone(c1: nat, c2: nat, elapsedTenths: nat)
    requires c1 <= c2 && elapsedTenths > 0
    ensures NetWpm(c1, elapsedTenths).value <= NetWpm(c2, elapsedTenths).value
  {
    RoundDivMonotone(600 * c1, 600 * c2, elapsedTenths);
  }

  /** Net WPM shrinks as time passes with the correct words fixed. */
  lemma NetWpmAntitone(correctWords: nat, t1: nat, t2: nat)
    requires 0 < t1 <= t2
    ensures NetWpm(correctWords, t2).value <= NetWpm(correctWords, t1).value
  {
    var a := NetWpm(correctWords, t1).value;
    var b := NetWpm(correctWords, t2).value;
    NetWpmRounds(correctWords, t1);
    NetWpmRounds(correctWords, t2);
    // (2b - 1) t1 <= (2b - 1) t2 <= 1200 c < (2a + 1) t1
    if b > 0 {
      MulMono(2 * b - 1, t1, t2);
      assert (2 * b - 1) * t1 == 2 * t1 * b - t1;
      assert (2 * b - 1) * t2 == 2 * t2 * b - t2;
    }
    MulCancel(2 * t1, b, a);
  }

  /** The feedback shown with the final results. */
  datatype Feedback = ImproveAccuracy | GreatJob

  /** Below 80 percent the user is told to focus on accuracy. */
  function FeedbackFor(accuracy: nat): Feedback {
    if accuracy < 80 then ImproveAccuracy else GreatJob
  }

  /** The feedback praises the user exactly when at least 79.5 percent of the
      committed words were correct (rounding carries 79.5 up to 80). */
  lemma FeedbackThreshold(correctWords: nat, wordIndex: nat)
    requires wordIndex > 0
    ensures FeedbackFor(Accuracy(correctWords, wordIndex)) == GreatJob
      <==> 200 * correctWords >= 159 * wordIndex
  {
    var a := Accuracy(correctWords, wordIndex);
    var w := wordIndex;
    AccuracyRounds(correctWords, wordIndex);
    if a >= 80 {
      MulMono(2 * w, 80, a);
    } else {
      MulMono(2 * w, a + 1, 80);
      assert 2 * w * (a + 1) == 2 * w * a + 2 * w;
    }
  }
}
