/** The sentiment score of a review: a value in [1, 5] computed from its counts of positive and
    negative lexicon words, its rounding to a whole number and the label given to that number.
    The source computes in `double`; here the arithmetic is exact, on `real`. */
module Scoring {

  /** The label a review is given. */
  datatype Sentiment = Positive | Negative | Neutral

  /** `calculateSentimentScore`: 3 when no word matched; otherwise the balance
      `positiveCount - negativeCount`, which lies in [-N, N] for N matches, mapped linearly
      onto [1, 5]. */
  function CalculateSentimentScore(positiveCount: int, negativeCount: int): (score: real)
    ensures positiveCount + negativeCount == 0 ==> score == 3.0
  {
    var n := positiveCount + negativeCount;
    if n == 0 then 3.0
    else
      var rawScore := positiveCount - negativeCount;
      var minRawScore := -n;
      var maxRawScore := n;
      var normalizedScore := (rawScore - minRawScore) as real / (maxRawScore - minRawScore) as real;
      1.0 + 4.0 * normalizedScore
  }

  /** Once a word has matched, the score is 1 plus 4 times the share of positive matches. */
  lemma ScoreIsShareOfPositives(positiveCount: int, negativeCount: int)
    requires positiveCount + negativeCount != 0
    ensures CalculateSentimentScore(positiveCount, negativeCount)
         == 1.0 + 4.0 * (positiveCount as real / (positiveCount + negativeCount) as real)
  {
    var n := (positiveCount + negativeCount) as real;
    var p := positiveCount as real;
    assert (2.0 * p) / (2.0 * n) == p / n;
  }

  /** For counts that are not negative, the score lies in [1, 5]. */
  lemma ScoreInRange(positiveCount: int, negativeCount: int)
    requires positiveCount >= 0 && negativeCount >= 0
    ensures 1.0 <= CalculateSentimentScore(positiveCount, negativeCount) <= 5.0
  {
    if positiveCount + negativeCount != 0 {
      ScoreIsShareOfPositives(positiveCount, negativeCount);
      var n := (positiveCount + negativeCount) as real;
      var p := positiveCount as real;
      assert 0.0 <= p / n <= 1.0;
    }
  }

  /** As many positive as negative matches, none included, gives the neutral 3. */
  lemma ScoreOfBalance(positiveCount: int, negativeCount: int)
    requires positiveCount == negativeCount
    ensures CalculateSentimentScore(positiveCount, negativeCount) == 3.0
  {
    if positiveCount != 0 {
      ScoreIsShareOfPositives(positiveCount, negativeCount);
      var p := positiveCount as real;
      assert p / (2.0 * p) == 0.5;
    }
  }

  /** Only positive matches give 5; only negative matches give 1. */
  lemma ScoreOfOneSided(positiveCount: int, negativeCount: int)
    ensures positiveCount != 0 && negativeCount == 0 ==> CalculateSentimentScore(positiveCount, negativeCount) == 5.0
    ensures positiveCount == 0 && negativeCount != 0 ==> CalculateSentimentScore(positiveCount, negativeCount) == 1.0
  {
    if positiveCount + negativeCount != 0 {
      ScoreIsShareOfPositives(positiveCount, negativeCount);
      var p, n := positiveCount as real, negativeCount as real;
      assert n == 0.0 ==> p / (p + n) == 1.0;
      assert p == 0.0 ==> p / (p + n) == 0.0;
    }
  }

  /** For a fixed number of matches the score strictly increases with the balance
      `positiveCount - negativeCount`. */
  lemma ScoreMonotonic(p1: int, n1: int, p2: int, n2: int)
    requires p1 + n1 == p2 + n2 > 0
    requires p1 - n1 < p2 - n2
    ensures CalculateSentimentScore(p1, n1) < CalculateSentimentScore(p2, n2)
  {
    ScoreIsShareOfPositives(p1, n1);
    ScoreIsShareOfPositives(p2, n2);
    var n := (p1 + n1) as real;
    assert p1 < p2;
    assert p1 as real / n < p2 as real / n;
  }

  /** `roundSentimentScore`: C's `round`, to the nearest integer with halves rounded away
      from zero. */
  function RoundSentimentScore(score: real): (r: int)
    ensures score >= 0.0 ==> r as real - 0.5 <= score < r as real + 0.5
    ensures score < 0.0 ==> r as real - 0.5 < score <= r as real + 0.5
  {
    if score >= 0.0 then (score + 0.5).Floor else -((-score + 0.5).Floor)
  }

  /** The label `generateSentimentAnalysis` gives a rounded score: each score gets exactly one
      label, Neutral only for the middle score 3. */
  function SentimentRating(roundedScore: int): (r: Sentiment)
    ensures r == Positive <==> roundedScore >= 4
    ensures r == Negative <==> roundedScore <= 2
    ensures r == Neutral <==> roundedScore == 3
  {
    if roundedScore >= 4 then Positive
    else if roundedScore <= 2 then Negative
    else Neutral
  }

  /** A score in [1, 5] rounds to a whole number in 1..5. */
  lemma RoundedScoreInRange(score: real)
    requires 1.0 <= score <= 5.0
    ensures 1 <= RoundSentimentScore(score) <= 5
  {
  }

  /** Rounding then labelling a score: Positive from 3.5 up, Negative below 2.5, Neutral in
      between. */
  lemma RatingOfScore(score: real)
    ensures SentimentRating(RoundSentimentScore(score)) == Positive <==> score >= 3.5
    ensures SentimentRating(RoundSentimentScore(score)) == Negative <==> score < 2.5
    ensures SentimentRating(RoundSentimentScore(score)) == Neutral <==> 2.5 <= score < 3.5
  {
  }

  /** The label of a review in terms of its match counts alone: Positive when some word matched
      and at least 5 positive matches stand for every 3 negative ones, Negative when fewer than 3
      positive matches stand for every 5 negative ones, Neutral otherwise (no match included). */
  lemma RatingOfCounts(positiveCount: int, negativeCount: int)
    requires positiveCount >= 0 && negativeCount >= 0
    ensures SentimentRating(RoundSentimentScore(CalculateSentimentScore(positiveCount, negativeCount)))
         == if positiveCount > 0 && 3 * positiveCount >= 5 * negativeCount then Positive
            else if 5 * positiveCount < 3 * negativeCount then Negative
            else Neutral
  {
    var score := CalculateSentimentScore(positiveCount, negativeCount);
    ScoreInRange(positiveCount, negativeCount);
    RatingOfScore(score);
    if positiveCount + negativeCount != 0 {
      ScoreIsShareOfPositives(positiveCount, negativeCount);
      var n := (positiveCount + negativeCount) as real;
      var p := positiveCount as real;
      var q := p / n;
      assert score == 1.0 + 4.0 * q;
      var m := negativeCount as real;
      assert n == p + m;
      DivAtLeast(p, n, 0.625);
      DivAtLeast(p, n, 0.375);
      assert score >= 3.5 <==> q >= 0.625;
      assert score < 2.5 <==> q < 0.375;
      assert score >= 3.5 <==> 3.0 * p >= 5.0 * m;
      assert score < 2.5 <==> 5.0 * p < 3.0 * m;
    }
  }

  /** Comparing a quotient by a positive divisor with a constant. */
  lemma DivAtLeast(x: real, n: real, c: real)
    requires n > 0.0
    ensures x / n >= c <==> x >= c * n
  {
    assert (x / n) * n == x;
    ScaleByPositive(x / n, c, n);
  }

  lemma ScaleByPositive(a: real, b: real, n: real)
    requires n > 0.0
    ensures a >= b <==> a * n >= b * n
  {
    if a >= b {
      assert (a - b) * n >= 0.0;
    } else {
      assert (b - a) * n > 0.0;
    }
  }

  /** The rounding rule on the two values that show it: 4.6 rounds to 5 (Positive) and the
      tie 2.5 rounds up to 3 (Neutral). */
  lemma RoundingExamples()
    ensures RoundSentimentScore(4.6) == 5 && SentimentRating(5) == Positive
    ensures RoundSentimentScore(2.5) == 3 && SentimentRating(3) == Neutral
  {
  }
}
