/**
 * The arithmetic of the spam filter: rounding to two decimals, content
 * similarity, length dampening and the probability formula
 * (src/spamFilter.js:80, 89-100, 135, 150-152). Scores are exact reals.
 */
module Scoring {

  /** `Math.round(100 * x) / 100`; `Math.round` rounds halves upwards, i.e. it is `floor(y + 0.5)`. */
  function Round2(x: real): (r: real)
    ensures x - 0.005 < r <= x + 0.005
    ensures (100.0 * r).Floor as real == 100.0 * r
  {
    ((100.0 * x + 0.5).Floor as real) / 100.0
  }

  /** Rounding keeps the order of its arguments. */
  lemma Round2Monotone(x: real, y: real)
    requires x <= y
    ensures Round2(x) <= Round2(y)
  {
    assert (100.0 * x + 0.5).Floor <= (100.0 * y + 0.5).Floor;
  }

  /** A value that already has at most two decimals is left as it is. */
  lemma Round2Cents(k: int)
    ensures Round2(k as real / 100.0) == k as real / 100.0
  {
    assert 100.0 * (k as real / 100.0) + 0.5 == k as real + 0.5;
    assert (k as real + 0.5).Floor == k;
  }

  /** `100 - 100 * endSize / startSize` where `endSize` counts the incoming words
      missing from the bucket's word set: the percentage of incoming words the bucket has. */
  function ContentSimilarity(incoming: set<string>, reference: set<string>): (r: real)
    requires |incoming| > 0
    ensures 0.0 <= r <= 100.0
    ensures r == 100.0 <==> incoming <= reference
    ensures r == 0.0 <==> incoming !! reference
  {
    var startSize := |incoming|;
    var endSize := |incoming - reference|;
    assert endSize <= startSize by { SubsetCard(incoming - reference, incoming); }
    assert endSize == 0 <==> incoming <= reference by {
      if incoming <= reference { assert incoming - reference == {}; }
      if endSize == 0 {
        assert incoming - reference == {};
        forall w | w in incoming ensures w in reference { assert w !in incoming - reference; }
      }
    }
    assert endSize == startSize <==> incoming !! reference by {
      if endSize == startSize { SubsetEqualCard(incoming - reference, incoming); }
    }
    100.0 - (100.0 * endSize as real) / startSize as real
  }

  lemma SubsetCard<T>(a: set<T>, b: set<T>)
    requires a <= b
    ensures |a| <= |b|
  {
    assert b == a + (b - a);
  }

  lemma SubsetEqualCard<T>(a: set<T>, b: set<T>)
    requires a <= b && |a| == |b|
    ensures a == b
  {
    assert b == a + (b - a);
    assert |b - a| == 0;
  }

  /** The ±30% length band inside which a score is not dampened. */
  predicate WithinBand(bodyLength: nat, bucketLength: nat)
  {
    bodyLength as real <= bucketLength as real * 1.3 && bodyLength as real >= bucketLength as real * 0.7
  }

  /** Length dampening: outside the band the score is multiplied by
      `0.5 + 0.5 * shorter / longer`, which lies in [0.5, 1). */
  function Dampen(score: real, bodyLength: nat, bucketLength: nat): (r: real)
    ensures WithinBand(bodyLength, bucketLength) ==> r == score
    ensures !WithinBand(bodyLength, bucketLength) && score >= 0.0 ==> score / 2.0 <= r <= score
    ensures !WithinBand(bodyLength, bucketLength) && score > 0.0 ==> r < score
  {
    if WithinBand(bodyLength, bucketLength) then score
    else if bodyLength > bucketLength then
      var q := bucketLength as real / bodyLength as real;
      RatioBelowOne(bucketLength as real, bodyLength as real);
      FactorBounds(score, q);
      score * (0.5 + 0.5 * q)
    else
      var q := bodyLength as real / bucketLength as real;
      RatioBelowOne(bodyLength as real, bucketLength as real);
      FactorBounds(score, q);
      score * (0.5 + 0.5 * q)
  }

  lemma RatioBelowOne(shorter: real, longer: real)
    requires 0.0 <= shorter < longer
    ensures 0.0 <= shorter / longer < 1.0
  {
    assert (shorter / longer) * longer == shorter;
  }

  lemma FactorBounds(score: real, q: real)
    requires 0.0 <= q < 1.0
    ensures score >= 0.0 ==> score / 2.0 <= score * (0.5 + 0.5 * q) <= score
    ensures score > 0.0 ==> score * (0.5 + 0.5 * q) < score
  {
    assert score * (0.5 + 0.5 * q) == score / 2.0 + (score / 2.0) * q;
    if score >= 0.0 {
      assert (score / 2.0) * q >= 0.0;
      assert (score / 2.0) * q <= score / 2.0;
    }
    if score > 0.0 {
      assert (score / 2.0) * q < score / 2.0;
    }
  }

  /** The unrounded probability: 20% from the similarity score, 80% from the bucket occupancy. */
  function RawProbability(score: real, emails: nat, spamCount: int): real
    requires spamCount > 0
  {
    20.0 * (score / 100.0) + 80.0 * (emails as real / spamCount as real)
  }

  /** `assignProbability`'s formula: rounded to two decimals and capped at 100. */
  function Probability(score: real, emails: nat, spamCount: int): (p: real)
    requires spamCount > 0
    ensures p <= 100.0
    ensures score >= 0.0 ==> p >= 0.0
    ensures Round2(RawProbability(score, emails, spamCount)) < 100.0 ==> p == Round2(RawProbability(score, emails, spamCount))
    ensures Round2(RawProbability(score, emails, spamCount)) >= 100.0 ==> p == 100.0
  {
    var prob := Round2(RawProbability(score, emails, spamCount));
    assert score >= 0.0 ==> prob >= 0.0 by {
      if score >= 0.0 {
        assert RawProbability(score, emails, spamCount) >= 0.0;
        Round2Monotone(0.0, RawProbability(score, emails, spamCount));
        Round2Cents(0);
      }
    }
    if prob > 100.0 then 100.0 else prob
  }

  /** More emails in the bucket never lower the probability. */
  lemma ProbabilityMonotone(score: real, e1: nat, e2: nat, spamCount: int)
    requires spamCount > 0 && e1 <= e2
    ensures Probability(score, e1, spamCount) <= Probability(score, e2, spamCount)
  {
    assert e1 as real / spamCount as real <= e2 as real / spamCount as real;
    Round2Monotone(RawProbability(score, e1, spamCount), RawProbability(score, e2, spamCount));
  }

  /** Once a bucket holds `spamCount` emails the probability is at least 80. */
  lemma ProbabilityAtSpamCount(score: real, emails: nat, spamCount: int)
    requires spamCount > 0 && emails >= spamCount && score >= 0.0
    ensures Probability(score, emails, spamCount) >= 80.0
  {
    assert emails as real / spamCount as real >= 1.0;
    assert RawProbability(score, emails, spamCount) >= 80.0;
    Round2Monotone(80.0, RawProbability(score, emails, spamCount));
    Round2Cents(8000);
  }

  /** With occupancy alone reaching 100% (`80 * emails >= 100 * spamCount`) the probability is exactly 100. */
  lemma ProbabilitySaturates(score: real, emails: nat, spamCount: int)
    requires spamCount > 0 && 4 * emails >= 5 * spamCount && score >= 0.0
    ensures Probability(score, emails, spamCount) == 100.0
  {
    assert emails as real / spamCount as real >= 1.25;
    assert RawProbability(score, emails, spamCount) >= 100.0;
    Round2Monotone(100.0, RawProbability(score, emails, spamCount));
    Round2Cents(10000);
  }
}
