/**
 * Worked examples from the test suite (src/__tests__/spamFilter.test.js),
 * stated on the functional model of one `scoreAndBucketize` call and of
 * `assignProbability`, with the default threshold 70 and spam count 5.
 * Body lengths are the sums of the word lengths, as the tests compute them.
 */
module Examples {
  import opened Wrappers
  import opened Scoring
  import opened Bucketizer

  function Matt6(): set<string> { {"hello", "my", "name", "is", "Matt", "green"} }
  function Blue6(): set<string> { {"hello", "my", "name", "are", "Blue", "yellow"} }
  function Matt5(): set<string> { {"hello", "my", "name", "is", "Matt"} }
  function Matt8(): set<string> { {"hello", "my", "name", "is", "Matt", "potatoes", "orange", "green"} }
  function Matt7(): set<string> { {"hello", "my", "name", "is", "Matt", "potatoes", "orange"} }
  function Yellow8(): set<string> { {"hello", "my", "name", "is", "Matt", "potatoes", "orange", "yellow"} }
  function Shoes5(): set<string> { {"goodbye", "your", "shoes", "are", "Blue"} }

  lemma HalfOverlapSimilarity()
    ensures ContentSimilarity(Blue6(), Matt6()) == 50.0
  {
    assert |Blue6()| == 6;
    assert Blue6() - Matt6() == {"are", "Blue", "yellow"};
  }

  /** Two emails sharing exactly half their words: the second founds bucket 1 and is reported with 50. */
  lemma HalfOverlapScores50()
    ensures var p1 := Bucketize([], 70.0, Matt6(), 22);
            var p2 := Bucketize(p1.buckets, 70.0, Blue6(), 24);
            p1.bucket == 0 && p1.score == 0.0 && p2.bucket == 1 && p2.score == 50.0 && |p2.buckets| == 2
  {
    EmptyStoreFounds(70.0, Matt6(), 22);
    HalfOverlapSimilarity();
    assert WithinBand(24, 22);
    BestMatchOfOne(Founder(Matt6(), 22), Blue6(), 24);
    Round2Cents(5000);
  }

  lemma SixfoldScore()
    ensures CandidateScore(Matt5(), 102, Founder(Matt5(), 17)) == Some(700.0 / 12.0)
  {
    assert ContentSimilarity(Matt5(), Matt5()) == 100.0;
    assert !WithinBand(102, 17);
    assert 17.0 / 102.0 == 1.0 / 6.0;
  }

  lemma SixfoldRounded()
    ensures Round2(700.0 / 12.0) == 58.33
  {
    assert 100.0 * (700.0 / 12.0) + 0.5 == 70006.0 / 12.0;
    assert 5833.0 <= 70006.0 / 12.0 < 5834.0;
  }

  /** The same words at six times the length: dampening by 7/12 gives 58.33, below the threshold,
      so the second email founds its own bucket. */
  lemma SixfoldLengthSeparates()
    ensures var p1 := Bucketize([], 70.0, Matt5(), 17);
            var p2 := Bucketize(p1.buckets, 70.0, Matt5(), 102);
            p2.bucket == 1 && p2.score == 58.33 && p2.score <= 70.0
  {
    EmptyStoreFounds(70.0, Matt5(), 17);
    SixfoldScore();
    BestMatchOfOne(Founder(Matt5(), 17), Matt5(), 102);
    SixfoldRounded();
  }

  lemma NearDuplicateSimilarities()
    ensures ContentSimilarity(Shoes5(), Matt8()) == 0.0
    ensures ContentSimilarity(Yellow8(), Matt8()) == 87.5
    ensures ContentSimilarity(Yellow8(), Shoes5()) == 0.0
  {
    assert Shoes5() !! Matt8();
    assert Yellow8() !! Shoes5();
    assert |Yellow8()| == 8;
    assert Yellow8() - Matt8() == {"yellow"};
  }

  lemma UnrelatedFoundsBucket1()
    ensures Bucketize([Founder(Matt8(), 36)], 70.0, Shoes5(), 23)
            == Placement([Founder(Matt8(), 36), Founder(Shoes5(), 23)], 1, 0.0)
  {
    NearDuplicateSimilarities();
    BestMatchOfOne(Founder(Matt8(), 36), Shoes5(), 23);
    Round2Cents(0);
  }

  lemma NearDuplicateBest()
    ensures BestMatch([Founder(Matt8(), 36), Founder(Shoes5(), 23)], Yellow8(), 37) == Match(87.5, 0)
  {
    NearDuplicateSimilarities();
    var b0 := Founder(Matt8(), 36);
    var b1 := Founder(Shoes5(), 23);
    assert WithinBand(37, 36);
    assert CandidateScore(Yellow8(), 37, b1) == Some(0.0);
    BestMatchOfOne(b0, Yellow8(), 37);
    BestMatchOfTwo(b0, b1, Yellow8(), 37);
  }

  lemma NearDuplicateJoinsBucket0()
    ensures Bucketize([Founder(Matt8(), 36), Founder(Shoes5(), 23)], 70.0, Yellow8(), 37)
            == Placement([Bucket(Matt8(), 36, 2), Founder(Shoes5(), 23)], 0, 87.5)
  {
    NearDuplicateBest();
    Round2Cents(8750);
  }

  /** Two unrelated buckets, then a near-duplicate of the first founder (7 of its 8 words):
      it joins bucket 0 with 87.5 (at least the threshold 70), and bucket 0 then holds two emails. */
  lemma NearDuplicateJoinsFirst()
    ensures Bucketize([], 70.0, Matt8(), 36) == Placement([Founder(Matt8(), 36)], 0, 0.0)
    ensures Bucketize([Founder(Matt8(), 36)], 70.0, Shoes5(), 23)
            == Placement([Founder(Matt8(), 36), Founder(Shoes5(), 23)], 1, 0.0)
    ensures Bucketize([Founder(Matt8(), 36), Founder(Shoes5(), 23)], 70.0, Yellow8(), 37)
            == Placement([Bucket(Matt8(), 36, 2), Founder(Shoes5(), 23)], 0, 87.5)
  {
    EmptyStoreFounds(70.0, Matt8(), 36);
    UnrelatedFoundsBucket1();
    NearDuplicateJoinsBucket0();
  }

  /** A lone founder has probability 16 (at most 25); a second near-duplicate that scores 100
      in a bucket of two has probability 20 + 32 = 52. */
  lemma SecondNearDuplicateProbability52()
    ensures var p1 := Bucketize([], 70.0, Matt8(), 36);
            var p2 := Bucketize(p1.buckets, 70.0, Matt7(), 31);
            && Probability(p1.score, p1.buckets[p1.bucket].emails, 5) == 16.0
            && p2.bucket == 0 && p2.score == 100.0
            && Probability(p2.score, p2.buckets[p2.bucket].emails, 5) == 52.0
  {
    EmptyStoreFounds(70.0, Matt8(), 36);
    Round2Cents(1600);
    assert Matt7() <= Matt8();
    assert WithinBand(31, 36);
    ExactRepeatJoins([Founder(Matt8(), 36)], 70.0, Matt7(), 31, 0);
    Round2Cents(5200);
  }
}
