/**
 * The first bucket as the source builds it (src/spamFilter.js:128-133): the
 * object literal has no `bodyLength`, so reading it gives `undefined`, which
 * arithmetic turns into NaN. This module evaluates the dampening step
 * (src/spamFilter.js:89-100) on JavaScript numbers to show that such a
 * bucket can never win the comparison at line 103. The rest of the model
 * records the length, as the later-bucket construction at lines 114-118 does.
 */
module Findings {
  import opened Scoring

  /** A JavaScript number as far as this computation needs: finite, or NaN
      (which stands for `undefined` used as a number, too). */
  datatype JsNumber = Num(v: real) | NaN

  function Mul(a: JsNumber, b: JsNumber): JsNumber
  {
    if a.Num? && b.Num? then Num(a.v * b.v) else NaN
  }

  function Add(a: JsNumber, b: JsNumber): JsNumber
  {
    if a.Num? && b.Num? then Num(a.v + b.v) else NaN
  }

  /** Division; the dampening step never divides a number by zero. */
  function Div(a: JsNumber, b: JsNumber): JsNumber
    requires b != Num(0.0)
  {
    if a.Num? && b.Num? then Num(a.v / b.v) else NaN
  }

  /** Comparisons with NaN are false. */
  predicate Le(a: JsNumber, b: JsNumber) { a.Num? && b.Num? && a.v <= b.v }
  predicate Ge(a: JsNumber, b: JsNumber) { a.Num? && b.Num? && a.v >= b.v }
  predicate Gt(a: JsNumber, b: JsNumber) { a.Num? && b.Num? && a.v > b.v }

  /** A bucket's `bodyLength` as read: a length, or `undefined`. */
  predicate LengthOrUndefined(x: JsNumber)
  {
    x.NaN? || x.v >= 0.0
  }

  /** The dampening step as written, on JavaScript numbers: NaN in the score or in the bucket's
      length comes out as NaN (on recorded numbers it is `Dampen`, see `DampenAsWrittenAgrees`). */
  function DampenAsWritten(thisScore: JsNumber, bodyLength: JsNumber, bucketLength: JsNumber): (r: JsNumber)
    requires bodyLength.Num? && bodyLength.v >= 0.0 && LengthOrUndefined(bucketLength)
    ensures thisScore.NaN? || bucketLength.NaN? ==> r.NaN?
  {
    if !(Le(bodyLength, Mul(bucketLength, Num(1.3))) && Ge(bodyLength, Mul(bucketLength, Num(0.7)))) then
      if Gt(bodyLength, bucketLength) then
        Mul(thisScore, Add(Num(0.5), Mul(Num(0.5), Div(bucketLength, bodyLength))))
      else
        Mul(thisScore, Add(Num(0.5), Mul(Num(0.5), Div(bodyLength, bucketLength))))
    else thisScore
  }

  /** On recorded lengths the step as written is the model's `Dampen`. */
  lemma DampenAsWrittenAgrees(score: real, bodyLength: nat, bucketLength: nat)
    ensures DampenAsWritten(Num(score), Num(bodyLength as real), Num(bucketLength as real))
            == Num(Dampen(score, bodyLength, bucketLength))
  {
  }

  /** The bucket founded first, as written, scores NaN against every email, so
      `thisScore > maxScore` is false whatever `maxScore` is: not even an exact repeat of the
      founding email can join bucket 0. (Corrected: `Bucketizer.ExactRepeatJoins`.) */
  lemma FirstBucketUnmatchable(similarity: real, bodyLength: nat, maxScore: real)
    ensures DampenAsWritten(Num(similarity), Num(bodyLength as real), NaN) == NaN
    ensures !Gt(DampenAsWritten(Num(similarity), Num(bodyLength as real), NaN), Num(maxScore))
  {
  }
}
