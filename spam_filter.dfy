/**
 * The spam filter's process-wide state as an object: the append-only bucket
 * store and the two configuration values (src/spamFilter.js:2-5), with the
 * scoring loop, the probability assigner and the reset
 * (src/spamFilter.js:23-160).
 */
module Filter {
  import opened Wrappers
  import opened Text
  import opened Scoring
  import opened Bucketizer

  /** Initial values of the module-level `spamThreshold` and `spamCount`. */
  const DefaultSpamThreshold: real := 70.0
  const DefaultSpamCount: int := 5

  /** Deletes every word of a bucket's word set from a copy of the incoming set
      (the `copySet` loop); the incoming set itself is a value and stays intact. */
  method RemainingWords(emailSet: set<string>, wordSet: set<string>) returns (copySet: set<string>)
    ensures copySet == emailSet - wordSet
  {
    copySet := emailSet;
    var todo := wordSet;
    while todo != {}
      invariant todo <= wordSet
      invariant copySet == emailSet - (wordSet - todo)
      decreases |todo|
    {
      var word :| word in todo;
      copySet := copySet - {word};
      todo := todo - {word};
    }
  }

  /** The body of the scoring loop for one bucket: similarity from the sizes of the copy
      before and after deletion, then length dampening. */
  method ScoreBucket(emailSet: set<string>, bodyLength: nat, bucket: Bucket) returns (thisScore: Option<real>)
    ensures thisScore == CandidateScore(emailSet, bodyLength, bucket)
  {
    var startSize := |emailSet|;
    var copySet := RemainingWords(emailSet, bucket.wordSet);
    var endSize := |copySet|;
    if startSize == 0 {
      // 0 / 0 is NaN, which is never greater than maxScore
      thisScore := None;
    } else {
      var similarity := 100.0 - (100.0 * endSize as real) / startSize as real;
      thisScore := Some(Dampen(similarity, bodyLength, bucket.bodyLength));
    }
  }

  /** The `buckets.forEach` scoring loop: keeps the first bucket whose score is strictly
      greater than every score before it, starting from `maxScore = 0`, `maxBucketIndex = 0`. */
  method FindBestMatch(store: seq<Bucket>, tokenSet: set<string>, bodyLength: nat) returns (best: Match)
    ensures best == BestMatch(store, tokenSet, bodyLength)
  {
    var maxScore := 0.0;
    var maxBucketIndex := 0;
    var index := 0;
    while index < |store|
      invariant 0 <= index <= |store|
      invariant Match(maxScore, maxBucketIndex) == BestMatch(store[..index], tokenSet, bodyLength)
    {
      var thisScore := ScoreBucket(tokenSet, bodyLength, store[index]);
      assert store[..index + 1][..index] == store[..index];
      if thisScore.Some? && thisScore.value > maxScore {
        maxScore := thisScore.value;
        maxBucketIndex := index;
      }
      index := index + 1;
    }
    assert store[..index] == store;
    best := Match(maxScore, maxBucketIndex);
  }

  class SpamFilter {
    var buckets: seq<Bucket>
    var spamThreshold: real
    var spamCount: int

    /** The design's invariant: every bucket holds at least one email (a bucket is founded by one
        and counts only grow). The constructor sets it up and every method keeps it. */
    ghost predicate Valid()
      reads this
    {
      Occupied(buckets)
    }

    /** The module's initial state: no buckets, threshold 70, five emails for spam. */
    constructor ()
      ensures Valid()
      ensures buckets == [] && spamThreshold == DefaultSpamThreshold && spamCount == DefaultSpamCount
    {
      buckets := [];
      spamThreshold := DefaultSpamThreshold;
      spamCount := DefaultSpamCount;
    }

    /** The store as the tests read it with `getBuckets()` (an accessor the source does not define),
        in creation order; in a valid filter every bucket it lists is occupied. */
    function GetBuckets(): (r: seq<Bucket>)
      reads this
      ensures r == buckets
      ensures Valid() ==> forall j :: 0 <= j < |r| ==> r[j].emails >= 1
    {
      buckets
    }

    /** `resetFilter(spamScore, spamC)`: empties the store and installs the configuration. */
    method ResetFilter(spamScore: real, spamC: int)
      modifies this
      ensures Valid()
      ensures buckets == [] && spamThreshold == spamScore && spamCount == spamC
    {
      buckets := [];
      spamThreshold := spamScore;
      spamCount := spamC;
    }

    /** `scoreAndBucketize(tokenSet, bodyLength)`: scores every bucket in index order, keeps the
        first strictly greatest score, then founds a new bucket or adds the email to the winner. */
    method ScoreAndBucketize(tokenSet: set<string>, bodyLength: nat) returns (bucket: nat, score: real)
      requires Valid()
      modifies this
      ensures Valid()
      ensures spamThreshold == old(spamThreshold) && spamCount == old(spamCount)
      ensures Placement(buckets, bucket, score) == Bucketize(old(buckets), spamThreshold, tokenSet, bodyLength)
    {
      BucketizeOccupied(buckets, spamThreshold, tokenSet, bodyLength);
      var maxScore := 0.0;
      var maxBucketIndex := 0;
      if |buckets| != 0 {
        var best := FindBestMatch(buckets, tokenSet, bodyLength);
        maxScore, maxBucketIndex := best.maxScore, best.index;
        if maxScore < spamThreshold {
          buckets := buckets + [Bucket(tokenSet, bodyLength, 1)];
          maxBucketIndex := |buckets| - 1;
        } else {
          buckets := buckets[maxBucketIndex := buckets[maxBucketIndex].(emails := buckets[maxBucketIndex].emails + 1)];
        }
      } else {
        // The first bucket records its body length like every later one; the source
        // leaves it out here, which makes bucket 0 unmatchable (see the Findings module).
        buckets := buckets + [Bucket(tokenSet, bodyLength, 1)];
        maxBucketIndex := 0;
      }
      score := Round2(maxScore);
      bucket := maxBucketIndex;
    }

    /** `assignProbability(bucketNum, score)`: 20% similarity, 80% occupancy, rounded, capped at 100.
        The statements follow the source's; the function `Probability` is their specification. In a
        valid filter a bucket's probability is never below that of a lone founder with the same score. */
    method AssignProbability(bucketNum: nat, score: real) returns (prob: real)
      requires bucketNum < |buckets| && spamCount > 0
      ensures prob == Probability(score, buckets[bucketNum].emails, spamCount)
      ensures Valid() ==> prob >= Probability(score, 1, spamCount)
    {
      if Valid() {
        ProbabilityMonotone(score, 1, buckets[bucketNum].emails, spamCount);
      }
      var p := 20.0 * (score / 100.0) + 80.0 * (buckets[bucketNum].emails as real / spamCount as real);
      p := Round2(p);
      prob := if p > 100.0 then 100.0 else p;
    }

    /** `filterSpam` once the file text has been fetched: normalise, tokenise, bucketize. */
    method FilterSpam(text: string) returns (bucket: nat, score: real)
      requires Valid()
      modifies this
      ensures Valid()
      ensures spamThreshold == old(spamThreshold) && spamCount == old(spamCount)
      ensures Placement(buckets, bucket, score)
              == Bucketize(old(buckets), spamThreshold, Tokens(StripBodyText(text)), |StripBodyText(text)|)
    {
      var bodyText := StripBodyText(text);
      var bodyLength := |bodyText|;
      var emailSet := SplitIntoWords(bodyText, {});
      bucket, score := ScoreAndBucketize(emailSet, bodyLength);
    }
  }

  /** An email read from text always has at least one word, so the division by `startSize`
      is defined against every bucket. */
  lemma PipelineScoresDefined(text: string, b: Bucket)
    ensures CandidateScore(Tokens(StripBodyText(text)), |StripBodyText(text)|, b).Some?
  {
  }

  /** The test that submits one email ten times (with the default configuration): the founder
      alone has probability at most 25, the tenth submission has probability exactly 100. */
  method TenRepeatsSaturate(tokens: set<string>, bodyLength: nat) returns (first: real, last: real)
    requires |tokens| > 0
    ensures first == 16.0
    ensures last == 100.0
  {
    var f := new SpamFilter();
    f.ResetFilter(DefaultSpamThreshold, DefaultSpamCount);
    EmptyStoreFounds(f.spamThreshold, tokens, bodyLength);
    var bucket, score := f.ScoreAndBucketize(tokens, bodyLength);
    first := f.AssignProbability(bucket, score);
    Round2Cents(1600);
    assert first == 16.0;
    var n := 1;
    while n < 10
      invariant 1 <= n <= 10
      invariant f.Valid() && f.spamThreshold == DefaultSpamThreshold && f.spamCount == DefaultSpamCount
      invariant f.buckets == [Bucket(tokens, bodyLength, n)] && bucket == 0
      invariant score == if n == 1 then 0.0 else 100.0
    {
      RepeatJoinsFounder(f.spamThreshold, tokens, bodyLength, n);
      bucket, score := f.ScoreAndBucketize(tokens, bodyLength);
      n := n + 1;
    }
    ProbabilitySaturates(score, 10, DefaultSpamCount);
    last := f.AssignProbability(bucket, score);
  }
}
