# Spam filter clustering engine, modelled in Dafny

This project models the online clustering engine of the spam-filter application in
`src/spamFilter.js`. The engine reads an email's text. It drops the three header lines,
reduces the body to ASCII letters, digits and single spaces, and collects the body's words
into a set. It then compares that set with every bucket (cluster) created so far. A bucket
scores by the percentage of the email's words it already holds, dampened when the two body
lengths differ by more than 30%. The email joins the first bucket with the greatest score
when that score reaches the threshold; otherwise it founds a new bucket at the end of the
store. A second pass turns bucket occupancy and similarity into a spam probability.

Modules (one per component; every file is verified together):

- `text.dfy`, module `Text`: the normaliser and tokeniser. It covers JavaScript `split`/`join`,
  the two regular-expression replacements, `stripBodyText` and `splitIntoWords`.
- `scoring.dfy`, module `Scoring`: the formulas. These are rounding to two decimals, content
  similarity, length dampening and the probability. Scores are exact `real`s.
- `bucketizer.dfy`, module `Bucketizer`: one `scoreAndBucketize` call as a function of the store
  before the call. It covers the candidate score, the greedy arg-max and the placement, plus
  lemmas about single calls and about batches.
- `spam_filter.dfy`, module `Filter`: the module-level state (`buckets`, `spamThreshold`,
  `spamCount`) as the class `SpamFilter`. Its methods loop like the source's `forEach` calls and
  are proved equal to the functions of `Bucketizer` and `Scoring`. The client method
  `TenRepeatsSaturate` drives the class through the test at
  `src/__tests__/spamFilter.test.js:620-646`: ten submissions of one email end with probability 100.
- `examples.dfy`, module `Examples`: worked examples from `src/__tests__/spamFilter.test.js`.
- `findings.dfy`, module `Findings`: the first bucket as the source builds it, on JavaScript
  numbers with NaN.
- `wrappers.dfy`, module `Wrappers`: `Option`. `None` stands where the source gets NaN from `0 / 0`.

Decisions where the code, its comments and its tests disagree (the model follows the code):

- The code never truncates the body. `bodyText.substring(0, 400)` at `src/spamFilter.js:50`
  throws its result away, although the test at `src/__tests__/spamFilter.test.js:180` expects at
  most 400 characters. `Text.AlnumBodyUnchanged` shows that a letters-and-digits body of any
  length passes through unchanged.
- Empty words are not filtered out. `"".split(" ")` is `[""]`, so an empty body has the word set
  `{""}`, and a body with a leading or trailing space contains `""` (`Text.EmptyWordAtEdges`).
  Conversely, a normalised body contains `""` only in those cases (`Text.EmptyWordOnlyAtEdges`).
- An empty incoming word set gives `0 / 0` (NaN) at `src/spamFilter.js:80`, and NaN never wins
  `thisScore > maxScore`. The model makes this an explicit `None`, so such an email never joins a
  bucket while the threshold is positive (`Bucketizer.EmptyWordSetFounds`). The test at
  `src/__tests__/spamFilter.test.js:471-473` expects two empty sets to match with 100; the code
  does not do that. Text read through the pipeline always has at least one word
  (`Filter.PipelineScoresDefined`).
- An email that founds a new bucket is reported with `round2(maxScore)`, not with 0
  (`src/spamFilter.js:135`; the test at `src/__tests__/spamFilter.test.js:293` expects 50).
- The first bucket records its body length, like every later bucket (see "## Findings").

## Model

| member | source | states |
|---|---|---|
| Text.Split | src/spamFilter.js:53 | `split` on one separator always yields at least one piece |
| Text.JoinSplit | src/spamFilter.js:32-37 | joining the pieces of a split with the same separator gives back the text |
| Text.SplitJoin | src/spamFilter.js:32-37 | splitting a join of separator-free pieces gives back the pieces |
| Text.Join | src/spamFilter.js:37 | the join starts with the first piece and holds no character that is neither in a piece nor in the separator |
| Text.SplitPieces | src/spamFilter.js:53 | no piece contains the separator, and every character of a piece comes from the text |
| Text.DropHeaderLines | src/spamFilter.js:33-35 | with three lines or more, the first three are removed and the rest kept in order; with fewer, three `shift()` calls leave nothing |
| Text.StripHeader | src/spamFilter.js:32-37 | the joined body holds no line break, and every character other than a space comes from the text |
| Text.StripHeaderKeepsBody | src/spamFilter.js:32-37 | after three header lines, the result is the body's lines, kept in order and joined with single spaces |
| Text.AlnumBodyUnchanged | src/spamFilter.js:32-50 | after three header lines, a letters-and-digits body of any length is its own normalised text (no truncation) |
| Text.ReplaceNonAlnum | src/spamFilter.js:41 | same length; letters and digits kept, every other character becomes a space |
| Text.CollapseWhitespace | src/spamFilter.js:41 | the result is single-spaced, empty exactly when the input is, starts with whitespace exactly when the input does, adds no visible character and keeps the visible characters in order |
| Text.CollapseKeepsWords | src/spamFilter.js:41 | collapsing keeps the words, the maximal non-whitespace runs, and their order, so a run between two words becomes one space and is never dropped |
| Text.CollapseKeepsEnd | src/spamFilter.js:41 | the collapsed text ends with whitespace exactly when the input does |
| Text.CollapseSingleSpaced | src/spamFilter.js:41 | collapsing leaves single-spaced text unchanged, so the step is idempotent |
| Text.StripBodyText | src/spamFilter.js:32-44 | the normalised body holds only ASCII letters, digits and spaces, never two spaces in a row |
| Text.Tokens | src/spamFilter.js:53-57 | the word set is never empty and contains the first piece |
| Text.TokensAlnum | src/spamFilter.js:52-57 | every word of a normalised body is made of letters and digits only |
| Text.SplitEdges | src/spamFilter.js:53 | an empty first or last piece comes from a separator at that end, or from the empty text |
| Text.SplitInnerNonEmpty | src/spamFilter.js:52-53 | without two separators in a row, every inner piece is non-empty |
| Text.EmptyWordOnlyAtEdges | src/spamFilter.js:53-57 | in a normalised body the empty word appears only if the body is empty or starts or ends with a space |
| Text.LastPieceEmpty | src/spamFilter.js:53 | a text ending with the separator has the empty string as its last piece |
| Text.EmptyWordAtEdges | src/spamFilter.js:53-57 | an empty text, or one starting or ending with a space, has the empty word among its words: `split(" ")` keeps empty pieces and nothing filters them out |
| Text.SplitIntoWords | src/spamFilter.js:53-57 | the loop adds exactly the pieces of `split(" ")` to the given set |
| Scoring.Round2 | src/spamFilter.js:135 | the result is within half a cent of the input (below by less, above by at most 0.005) and has at most two decimals |
| Scoring.Round2Monotone | src/spamFilter.js:135 | rounding preserves order |
| Scoring.Round2Cents | src/spamFilter.js:135 | a value with at most two decimals is left unchanged |
| Scoring.ContentSimilarity | src/spamFilter.js:70-80 | the similarity lies in [0, 100]; it is 100 exactly when every incoming word is in the bucket's set, and 0 exactly when they share none |
| Scoring.Dampen | src/spamFilter.js:89-100 | inside the ±30% band the score is unchanged; outside it a non-negative score is scaled into [score/2, score], strictly below a positive score; neither branch divides by zero |
| Scoring.Probability | src/spamFilter.js:150-152 | never above 100, non-negative for a non-negative score, equal to the rounded formula whenever that is below 100, and to 100 when it reaches 100 |
| Scoring.ProbabilityMonotone | src/spamFilter.js:150-152 | more emails in the bucket never lower the probability |
| Scoring.ProbabilityAtSpamCount | src/spamFilter.js:150-152 | a bucket holding at least `spamCount` emails gives at least 80 |
| Scoring.ProbabilitySaturates | src/spamFilter.js:150-152 | once the occupancy term reaches 100 the probability is exactly 100 |
| Bucketizer.CandidateScore | src/spamFilter.js:67-100 | a bucket's score is undefined exactly for an empty word set, otherwise lies in [0, 100], and is 100 exactly when all words are in the bucket and the length is within the band |
| Bucketizer.BestMatch | src/spamFilter.js:59-107 | the loop's result is non-negative and beaten by no bucket; when positive it is the score of its index and no earlier bucket reaches it; when 0 the index is 0 |
| Bucketizer.StepKeepsBest | src/spamFilter.js:103-106 | one iteration, replacing the running best only on a strictly greater score, extends that characterisation from all but the last bucket to the whole store |
| Bucketizer.BestMatchUnique | src/spamFilter.js:103-106 | that characterisation (first index with the strictly greatest score) determines the loop's result |
| Bucketizer.BestMatchOfOne | src/spamFilter.js:103-106 | with one bucket, the bucket wins exactly when it scores above 0 |
| Bucketizer.BestMatchOfTwo | src/spamFilter.js:103-106 | with two buckets, the second wins only with a strictly greater score than the first |
| Bucketizer.Bucketize | src/spamFilter.js:112-135 | the returned index is valid; an empty store or a best score below the threshold appends exactly the founder bucket and returns the old length; otherwise only the winner's count rises by one; word sets and lengths never change; the reported score is the rounded best score, in [0, 100] |
| Bucketizer.EmptyStoreFounds | src/spamFilter.js:128-135 | with an empty store the email founds bucket 0 and is reported with score 0 |
| Bucketizer.BucketizeOccupied | src/spamFilter.js:112-123 | every bucket keeps at least one email |
| Bucketizer.BucketizeCountsEmail | src/spamFilter.js:112-123 | each call adds exactly one to the total number of emails in all buckets |
| Bucketizer.ExactRepeatJoins | src/spamFilter.js:103-123 | an email whose words all lie in bucket k and whose length lies in k's band scores 100 and joins bucket k or an earlier one |
| Bucketizer.RepeatJoinsFounder | src/spamFilter.js:121-123 | a repeat of the founder's words and length joins the founder's bucket with 100 |
| Bucketizer.EmptyWordSetFounds | src/spamFilter.js:80-120 | an empty word set matches no bucket and, while the threshold is positive, founds a new one, reported with 0 |
| Bucketizer.RunGrows | src/spamFilter.js:112-133 | over a batch, bucket ids stay valid with the same founder, counts only grow, and the total count rises by the batch size |
| Bucketizer.Run | src/spamFilter.js:112-133 | over a batch the store never shrinks and grows by at most one bucket per email |
| Filter.RemainingWords | src/spamFilter.js:70-77 | deleting the bucket's words from a copy leaves exactly the incoming words the bucket lacks |
| Filter.ScoreBucket | src/spamFilter.js:68-100 | the loop body computes the bucket's candidate score |
| Filter.FindBestMatch | src/spamFilter.js:59-107 | the `forEach` scoring loop computes the first strictly greatest score and its index |
| Filter.SpamFilter.constructor | src/spamFilter.js:2-5 | an empty store with threshold 70 and spam count 5 |
| Filter.SpamFilter.ResetFilter | src/spamFilter.js:156-160 | the store is emptied and the given threshold and count are installed |
| Filter.SpamFilter.GetBuckets | src/spamFilter.js:2 | the module's `buckets` store as it stands; in a valid filter every bucket holds at least one email |
| Filter.SpamFilter.ScoreAndBucketize | src/spamFilter.js:59-136 | the new store, index and score are those of `Bucketize` on the old store; configuration unchanged; every bucket stays occupied |
| Filter.SpamFilter.AssignProbability | src/spamFilter.js:148-153 | for a valid bucket index, the result is the capped, rounded probability of that bucket's count; in a valid filter it is never below a lone founder's |
| Filter.SpamFilter.FilterSpam | src/spamFilter.js:23-140 | the raw text is normalised, tokenised and bucketized with its normalised length |
| Filter.PipelineScoresDefined | src/spamFilter.js:53-80 | an email read from text is scored against every bucket without an undefined division |
| Filter.TenRepeatsSaturate | src/__tests__/spamFilter.test.js:620-646 | through the class with the default configuration, one email submitted ten times has probability 16 the first time and 100 the tenth |
| Examples.HalfOverlapScores50 | src/__tests__/spamFilter.test.js:262-293 | the half-overlap email founds bucket 1 and is reported with 50 |
| Examples.SixfoldLengthSeparates | src/__tests__/spamFilter.test.js:344-370 | the same words at six times the length score 58.33, no more than 70, and found bucket 1 |
| Examples.NearDuplicateJoinsFirst | src/__tests__/spamFilter.test.js:295-342 | an unrelated email founds bucket 1 with 0; a 7-of-8 near-duplicate joins bucket 0 with 87.5, and bucket 0 then holds two emails |
| Examples.SecondNearDuplicateProbability52 | src/__tests__/spamFilter.test.js:556-595 | a lone founder has probability 16 (at most 25); the second near-duplicate joins with 100 and has probability 52 |
| Findings.DampenAsWrittenAgrees | src/spamFilter.js:89-100 | on recorded lengths, the dampening step evaluated on JavaScript numbers equals `Dampen` |
| Findings.DampenAsWritten | src/spamFilter.js:89-100 | the step as written on JavaScript numbers: NaN in the score or in the bucket's length gives NaN, so an undefined length poisons the score |
| Findings.FirstBucketUnmatchable | src/spamFilter.js:128-133 | against the first bucket as written, the dampened score is NaN for every email, so it never wins the comparison |

## Left out

- Fetching the file (`fetch`, `await`, promises, `src/spamFilter.js:23-31`): `FilterSpam` takes the fetched text as a parameter.
- `src/App.js`: the user interface, the file-scanning loop and the caller's header check. The
  check gives malformed files bucket `-1`. The display thresholds are left out too. The
  `Promise.all` fan-out lets calls interleave; concurrency is not modelled, and calls run strictly
  one after another.
- IEEE-754 arithmetic: scores are exact reals. `1.3` and `0.7` are exact, there is no rounding
  error before `Math.round`, and NaN appears only as `None` and in module `Findings`.
- Characters are Unicode scalar values, not UTF-16 code units. A character outside the Basic
  Multilingual Plane is one `char` here but two code units in JavaScript. Both become spaces
  that collapse to one, so the text is the same; only intermediate lengths differ.
- The unused `commonWords` (`src/spamFilter.js:1`) and the `console.log` at `src/spamFilter.js:149`.
- The Jest mock and fetch harness of the tests, and `getBodyTextPromise`. The test file calls that
  function, but the source does not define it.
- The order in which a JavaScript `Set` is iterated when words are deleted from the copy: the result does not depend on it.
- Filter.SpamFilter.AssignProbability: requires `spamCount > 0`. With 0, the source divides a
  positive count by zero and caps the resulting IEEE infinity to 100. Infinities are outside the
  exact-real model.

## Findings

| source | as written | input that shows it | evidently intended | confidence | as-written member | corrected member |
|---|---|---|---|---|---|---|
| src/spamFilter.js:130 | the first bucket is built as `{ wordSet, emails }` without `bodyLength`; every dampening step against it computes with `undefined`, gives NaN, and loses `thisScore > maxScore` | reset, then score the word set of `hello my name is Matt` twice with body length 17 (the sum of its word lengths, as the tests compute it): the second email founds bucket 1 instead of joining bucket 0 with 100 | record `bodyLength` as the later-bucket construction at `src/spamFilter.js:114-118` does; the test at `src/__tests__/spamFilter.test.js:225` reads `getBuckets()[0].bodyLength` | not executed; high | Findings.FirstBucketUnmatchable | Bucketizer.ExactRepeatJoins |
