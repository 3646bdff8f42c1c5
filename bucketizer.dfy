/**
 * The bucketizer as a function of the store before the call: the candidate
 * score of each bucket, the greedy arg-max over the buckets, and the
 * placement of the email into the winning bucket or into a new one
 * (src/spamFilter.js:59-136).
 */
module Bucketizer {
  import opened Wrappers
  import opened Scoring

  /** One cluster: the word set and body length of the email that founded it,
      and how many emails it holds. */
  datatype Bucket = Bucket(wordSet: set<string>, bodyLength: nat, emails: nat)

  /** The running maximum of the scoring loop. */
  datatype Match = Match(maxScore: real, index: nat)

  /** The store after the call, and the `{bucket, score}` returned to the caller. */
  datatype Placement = Placement(buckets: seq<Bucket>, bucket: nat, score: real)

  /** The bucket an email founds: its own words and length, holding one email. */
  function Founder(tokens: set<string>, bodyLength: nat): Bucket
  {
    Bucket(tokens, bodyLength, 1)
  }

  /** The score of one bucket against an incoming email (`thisScore`). `None` stands for the
      NaN that `0 / 0` gives on an empty word set: it loses every comparison. */
  function CandidateScore(tokens: set<string>, bodyLength: nat, b: Bucket): (s: Option<real>)
    ensures s.None? <==> |tokens| == 0
    ensures s.Some? ==> 0.0 <= s.value <= 100.0
    ensures s.Some? ==> (s.value == 100.0 <==> tokens <= b.wordSet && WithinBand(bodyLength, b.bodyLength))
  {
    if |tokens| == 0 then None
    else Some(Dampen(ContentSimilarity(tokens, b.wordSet), bodyLength, b.bodyLength))
  }

  /** `thisScore > maxScore`: a strictly better score. */
  predicate Beats(s: Option<real>, x: real)
  {
    s.Some? && s.value > x
  }

  /** A score at least as good as `x`. */
  predicate Reaches(s: Option<real>, x: real)
  {
    s.Some? && s.value >= x
  }

  /** `m` is what the scoring loop leaves behind: a non-negative score that no bucket beats;
      when positive, the score of bucket `m.index` with no earlier bucket reaching it;
      when 0, index 0. */
  predicate IsBestMatch(buckets: seq<Bucket>, tokens: set<string>, bodyLength: nat, m: Match)
  {
    && m.maxScore >= 0.0
    && (forall j :: 0 <= j < |buckets| ==> !Beats(CandidateScore(tokens, bodyLength, buckets[j]), m.maxScore))
    && (m.maxScore > 0.0 ==>
          && m.index < |buckets|
          && CandidateScore(tokens, bodyLength, buckets[m.index]) == Some(m.maxScore)
          && forall j :: 0 <= j < m.index ==> !Reaches(CandidateScore(tokens, bodyLength, buckets[j]), m.maxScore))
    && (m.maxScore == 0.0 ==> m.index == 0)
  }

  /** One iteration of the loop: bucket `index`, scoring `s`, replaces the running best
      only with a strictly greater score (`thisScore > maxScore`). */
  function Step(prev: Match, s: Option<real>, index: nat): Match
  {
    if Beats(s, prev.maxScore) then Match(s.value, index) else prev
  }

  /** The scoring loop over the buckets in index order, starting from `maxScore = 0` and
      `maxBucketIndex = 0`: the result is the lowest index with the strictly greatest score,
      or `(0, 0)` when no bucket scores above 0. */
  function BestMatch(buckets: seq<Bucket>, tokens: set<string>, bodyLength: nat): (m: Match)
    ensures IsBestMatch(buckets, tokens, bodyLength, m)
    decreases |buckets|
  {
    if |buckets| == 0 then Match(0.0, 0)
    else
      var n := |buckets| - 1;
      var prev := BestMatch(buckets[..n], tokens, bodyLength);
      StepKeepsBest(buckets, tokens, bodyLength, prev);
      Step(prev, CandidateScore(tokens, bodyLength, buckets[n]), n)
  }

  /** One loop iteration extends the characterisation from all but the last bucket to the whole store. */
  lemma StepKeepsBest(buckets: seq<Bucket>, tokens: set<string>, bodyLength: nat, prev: Match)
    requires |buckets| > 0
    requires IsBestMatch(buckets[..|buckets| - 1], tokens, bodyLength, prev)
    ensures IsBestMatch(buckets, tokens, bodyLength,
                        Step(prev, CandidateScore(tokens, bodyLength, buckets[|buckets| - 1]), |buckets| - 1))
  {
    var prefix := buckets[..|buckets| - 1];
    assert forall j :: 0 <= j < |prefix| ==> buckets[j] == prefix[j];
  }

  /** The characterisation of `BestMatch` determines it: any running maximum with the same
      properties is the same match. */
  lemma BestMatchUnique(buckets: seq<Bucket>, tokens: set<string>, bodyLength: nat, m: Match)
    requires IsBestMatch(buckets, tokens, bodyLength, m)
    ensures m == BestMatch(buckets, tokens, bodyLength)
  {
    var b := BestMatch(buckets, tokens, bodyLength);
    if b.maxScore > 0.0 {
      assert !Beats(CandidateScore(tokens, bodyLength, buckets[b.index]), m.maxScore);
    }
    if m.maxScore > 0.0 {
      assert !Beats(CandidateScore(tokens, bodyLength, buckets[m.index]), b.maxScore);
    }
  }

  /** The scoring loop over a store of one bucket. */
  lemma BestMatchOfOne(b: Bucket, tokens: set<string>, bodyLength: nat)
    ensures var s := CandidateScore(tokens, bodyLength, b);
            BestMatch([b], tokens, bodyLength) == if Beats(s, 0.0) then Match(s.value, 0) else Match(0.0, 0)
  {
    assert [b][..0] == [];
  }

  /** The scoring loop over a store of two buckets: the second wins only with a strictly greater score. */
  lemma BestMatchOfTwo(b0: Bucket, b1: Bucket, tokens: set<string>, bodyLength: nat)
    ensures var m0 := BestMatch([b0], tokens, bodyLength);
            var s := CandidateScore(tokens, bodyLength, b1);
            BestMatch([b0, b1], tokens, bodyLength) == if Beats(s, m0.maxScore) then Match(s.value, 1) else m0
  {
    assert [b0, b1][..1] == [b0];
  }

  /** A new bucket is founded when the store is empty or the best score is below the threshold. */
  predicate FoundsBucket(buckets: seq<Bucket>, threshold: real, tokens: set<string>, bodyLength: nat)
  {
    |buckets| == 0 || BestMatch(buckets, tokens, bodyLength).maxScore < threshold
  }

  /** Word sets and lengths never change, buckets are only appended, member counts only grow. */
  predicate Grows(before: seq<Bucket>, after: seq<Bucket>)
  {
    && |before| <= |after|
    && forall j :: 0 <= j < |before| ==>
         && after[j].wordSet == before[j].wordSet
         && after[j].bodyLength == before[j].bodyLength
         && after[j].emails >= before[j].emails
  }

  /** Every bucket holds at least its founding email. */
  predicate Occupied(buckets: seq<Bucket>)
  {
    forall j :: 0 <= j < |buckets| ==> buckets[j].emails >= 1
  }

  /** The number of emails held by all buckets together. */
  function TotalEmails(buckets: seq<Bucket>): nat
  {
    if |buckets| == 0 then 0 else TotalEmails(buckets[..|buckets| - 1]) + buckets[|buckets| - 1].emails
  }

  /** The reported score, the rounded best score, lies in [0, 100]. */
  lemma BestScoreBounded(buckets: seq<Bucket>, tokens: set<string>, bodyLength: nat)
    ensures 0.0 <= Round2(BestMatch(buckets, tokens, bodyLength).maxScore) <= 100.0
  {
    var m := BestMatch(buckets, tokens, bodyLength);
    assert m.maxScore <= 100.0 by {
      if m.maxScore > 0.0 { assert CandidateScore(tokens, bodyLength, buckets[m.index]) == Some(m.maxScore); }
    }
    Round2Monotone(0.0, m.maxScore);
    Round2Monotone(m.maxScore, 100.0);
    Round2Cents(0);
    Round2Cents(10000);
  }

  /** `scoreAndBucketize(tokenSet, bodyLength)` on a store: the email either founds a new
      bucket at the end of the store or joins the winning bucket. */
  function Bucketize(buckets: seq<Bucket>, threshold: real, tokens: set<string>, bodyLength: nat): (p: Placement)
    ensures p.bucket < |p.buckets|
    ensures Grows(buckets, p.buckets)
    ensures 0.0 <= p.score <= 100.0
    ensures FoundsBucket(buckets, threshold, tokens, bodyLength) ==>
              p.buckets == buckets + [Founder(tokens, bodyLength)] && p.bucket == |buckets|
    ensures !FoundsBucket(buckets, threshold, tokens, bodyLength) ==>
              && |p.buckets| == |buckets|
              && p.bucket == BestMatch(buckets, tokens, bodyLength).index
              && p.buckets[p.bucket] == buckets[p.bucket].(emails := buckets[p.bucket].emails + 1)
              && forall j :: 0 <= j < |buckets| && j != p.bucket ==> p.buckets[j] == buckets[j]
    ensures p.score == Round2(BestMatch(buckets, tokens, bodyLength).maxScore)
  {
    var m := BestMatch(buckets, tokens, bodyLength);
    BestScoreBounded(buckets, tokens, bodyLength);
    if |buckets| == 0 then
      Placement([Founder(tokens, bodyLength)], 0, Round2(m.maxScore))
    else if m.maxScore < threshold then
      Placement(buckets + [Founder(tokens, bodyLength)], |buckets|, Round2(m.maxScore))
    else
      Placement(buckets[m.index := buckets[m.index].(emails := buckets[m.index].emails + 1)], m.index, Round2(m.maxScore))
  }

  /** With an empty store the email founds bucket 0 and is reported with score 0. */
  lemma EmptyStoreFounds(threshold: real, tokens: set<string>, bodyLength: nat)
    ensures Bucketize([], threshold, tokens, bodyLength) == Placement([Founder(tokens, bodyLength)], 0, 0.0)
  {
    Round2Cents(0);
  }

  /** Every bucket stays occupied. */
  lemma BucketizeOccupied(buckets: seq<Bucket>, threshold: real, tokens: set<string>, bodyLength: nat)
    requires Occupied(buckets)
    ensures Occupied(Bucketize(buckets, threshold, tokens, bodyLength).buckets)
  {
  }

  lemma {:induction false} TotalEmailsAppend(buckets: seq<Bucket>, b: Bucket)
    ensures TotalEmails(buckets + [b]) == TotalEmails(buckets) + b.emails
  {
    assert (buckets + [b])[..|buckets|] == buckets;
  }

  lemma {:induction false} TotalEmailsIncrement(buckets: seq<Bucket>, i: nat)
    requires i < |buckets|
    ensures TotalEmails(buckets[i := buckets[i].(emails := buckets[i].emails + 1)]) == TotalEmails(buckets) + 1
    decreases |buckets|
  {
    var after := buckets[i := buckets[i].(emails := buckets[i].emails + 1)];
    var n := |buckets| - 1;
    if i < n {
      TotalEmailsIncrement(buckets[..n], i);
      assert after[..n] == buckets[..n][i := buckets[..n][i].(emails := buckets[..n][i].emails + 1)];
    } else {
      assert after[..n] == buckets[..n];
    }
  }

  /** Every email is counted exactly once: each call adds one to the total member count. */
  lemma BucketizeCountsEmail(buckets: seq<Bucket>, threshold: real, tokens: set<string>, bodyLength: nat)
    ensures TotalEmails(Bucketize(buckets, threshold, tokens, bodyLength).buckets) == TotalEmails(buckets) + 1
  {
    var m := BestMatch(buckets, tokens, bodyLength);
    var p := Bucketize(buckets, threshold, tokens, bodyLength);
    if FoundsBucket(buckets, threshold, tokens, bodyLength) {
      TotalEmailsAppend(buckets, Founder(tokens, bodyLength));
    } else {
      assert p.buckets == buckets[m.index := buckets[m.index].(emails := buckets[m.index].emails + 1)];
      TotalEmailsIncrement(buckets, m.index);
    }
  }

  /** An email whose words all appear in bucket `k`, with a length inside that bucket's band, scores 100:
      it joins the first bucket that gives 100 (bucket `k` or an earlier one) whenever the threshold
      is at most 100. */
  lemma ExactRepeatJoins(buckets: seq<Bucket>, threshold: real, tokens: set<string>, bodyLength: nat, k: nat)
    requires k < |buckets|
    requires |tokens| > 0 && tokens <= buckets[k].wordSet && WithinBand(bodyLength, buckets[k].bodyLength)
    requires threshold <= 100.0
    ensures var p := Bucketize(buckets, threshold, tokens, bodyLength);
            && p.score == 100.0
            && p.bucket <= k
            && |p.buckets| == |buckets|
            && p.buckets[p.bucket].emails == buckets[p.bucket].emails + 1
  {
    assert CandidateScore(tokens, bodyLength, buckets[k]) == Some(100.0);
    var m := BestMatch(buckets, tokens, bodyLength);
    assert !Beats(CandidateScore(tokens, bodyLength, buckets[k]), m.maxScore);
    assert m.maxScore == 100.0;
    Round2Cents(10000);
  }

  /** A repeat of the founder's words and length joins the founder's bucket with score 100. */
  lemma RepeatJoinsFounder(threshold: real, tokens: set<string>, bodyLength: nat, emails: nat)
    requires |tokens| > 0 && threshold <= 100.0
    ensures Bucketize([Bucket(tokens, bodyLength, emails)], threshold, tokens, bodyLength)
            == Placement([Bucket(tokens, bodyLength, emails + 1)], 0, 100.0)
  {
    assert WithinBand(bodyLength, bodyLength);
    ExactRepeatJoins([Bucket(tokens, bodyLength, emails)], threshold, tokens, bodyLength, 0);
  }

  /** An empty word set never matches: it founds a new bucket whenever the threshold is positive. */
  lemma EmptyWordSetFounds(buckets: seq<Bucket>, threshold: real, bodyLength: nat)
    requires threshold > 0.0
    ensures var p := Bucketize(buckets, threshold, {}, bodyLength);
            p.buckets == buckets + [Founder({}, bodyLength)] && p.bucket == |buckets| && p.score == 0.0
  {
    Round2Cents(0);
  }

  /** One email of a batch, as `scoreAndBucketize` receives it. */
  datatype Email = Email(tokens: set<string>, bodyLength: nat)

  /** The store after scoring a batch of emails one after another, in order. */
  function Run(buckets: seq<Bucket>, threshold: real, batch: seq<Email>): (r: seq<Bucket>)
    ensures |buckets| <= |r| <= |buckets| + |batch|
    decreases |batch|
  {
    if |batch| == 0 then buckets
    else Run(Bucketize(buckets, threshold, batch[0].tokens, batch[0].bodyLength).buckets, threshold, batch[1..])
  }

  /** Over a whole batch, bucket ids stay valid and keep their founder, member counts only grow,
      and every email of the batch is counted exactly once. */
  lemma {:induction false} RunGrows(buckets: seq<Bucket>, threshold: real, batch: seq<Email>)
    ensures Grows(buckets, Run(buckets, threshold, batch))
    ensures TotalEmails(Run(buckets, threshold, batch)) == TotalEmails(buckets) + |batch|
    decreases |batch|
  {
    if |batch| > 0 {
      var next := Bucketize(buckets, threshold, batch[0].tokens, batch[0].bodyLength).buckets;
      BucketizeCountsEmail(buckets, threshold, batch[0].tokens, batch[0].bodyLength);
      RunGrows(next, threshold, batch[1..]);
    }
  }
}
