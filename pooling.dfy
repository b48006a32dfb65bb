/** Mean pooling, the same in every embedding script: the extractor returns,
    per text, one feature vector per token, and the text's embedding is the
    feature-wise mean over its tokens. Numbers are mathematical reals; the
    rounding of 32-bit and 64-bit floating point is not modelled. */
module Pooling {

  /** The token vectors of one text, in token order. */
  type TokenMatrix = seq<seq<real>>

  /** The shape the code relies on: at least one token (it reads
      `tokenEmbeddings[0].length`) and every token as long as the first. */
  predicate Rectangular(m: TokenMatrix) {
    |m| >= 1 && forall t :: 0 <= t < |m| ==> |m[t]| == |m[0]|
  }

  /** `tokenEmbeddings.reduce((sum, token) => sum + token[i], 0)`. */
  function FeatureSum(m: TokenMatrix, i: nat): real
    requires forall t :: 0 <= t < |m| ==> i < |m[t]|
    decreases |m|
  {
    if m == [] then 0.0 else FeatureSum(m[..|m| - 1], i) + m[|m| - 1][i]
  }

  /** `Array.from({ length: numFeatures }, (_, i) => sum_i / numTokens)`. */
  function MeanPool(m: TokenMatrix): (v: seq<real>)
    requires Rectangular(m)
    ensures |v| == |m[0]|
  {
    seq(|m[0]|, i requires 0 <= i < |m[0]| => FeatureSum(m, i) / (|m| as real))
  }

  /** `tolist().map(...)`: one pooled vector per text, in the same order,
      each as long as that text's first token. */
  function PoolAll(ms: seq<TokenMatrix>): (vs: seq<seq<real>>)
    requires forall k :: 0 <= k < |ms| ==> Rectangular(ms[k])
    ensures |vs| == |ms|
    ensures forall k :: 0 <= k < |ms| ==> Rectangular(ms[k]) && |vs[k]| == |ms[k][0]|
  {
    seq(|ms|, k requires 0 <= k < |ms| => MeanPool(ms[k]))
  }

  /** The pooled entry `i` times the token count is the feature's sum. */
  lemma MeanPoolEntry(m: TokenMatrix, i: nat)
    requires Rectangular(m) && i < |m[0]|
    ensures MeanPool(m)[i] * (|m| as real) == FeatureSum(m, i)
  {
  }

  lemma {:induction false} FeatureSumConcat(a: TokenMatrix, b: TokenMatrix, i: nat)
    requires forall t :: 0 <= t < |a| ==> i < |a[t]|
    requires forall t :: 0 <= t < |b| ==> i < |b[t]|
    ensures FeatureSum(a + b, i) == FeatureSum(a, i) + FeatureSum(b, i)
    decreases |b|
  {
    if b == [] {
      assert a + b == a;
    } else {
      var b' := b[..|b| - 1];
      FeatureSumConcat(a, b', i);
      assert (a + b)[..|a + b| - 1] == a + b';
      assert (a + b)[|a + b| - 1] == b[|b| - 1];
    }
  }

  /** A text of a single token pools to exactly that token. */
  lemma SingleToken(token: seq<real>)
    ensures MeanPool([token]) == token
  {
    forall i | 0 <= i < |token| ensures MeanPool([token])[i] == token[i] {
      assert |[token][..0]| == 0;
      assert FeatureSum([token], i) == token[i];
    }
  }

  /** The worked example `[[1, 2], [3, 4]]` pools to `[2, 3]`. */
  lemma TwoTokenExample()
    ensures MeanPool([[1.0, 2.0], [3.0, 4.0]]) == [2.0, 3.0]
  {
    var m: TokenMatrix := [[1.0, 2.0], [3.0, 4.0]];
    assert m[..1] == [[1.0, 2.0]] && |m[..1][..0]| == 0;
    assert FeatureSum(m, 0) == 4.0;
    assert FeatureSum(m, 1) == 6.0;
  }

  lemma {:induction false} FeatureSumBounds(m: TokenMatrix, i: nat, lo: real, hi: real)
    requires forall t :: 0 <= t < |m| ==> i < |m[t]| && lo <= m[t][i] <= hi
    ensures (|m| as real) * lo <= FeatureSum(m, i) <= (|m| as real) * hi
    decreases |m|
  {
    if m != [] {
      FeatureSumBounds(m[..|m| - 1], i, lo, hi);
    }
  }

  /** Each pooled entry lies between the smallest and the largest value that
      feature takes over the tokens. */
  lemma MeanPoolBounds(m: TokenMatrix, i: nat, lo: real, hi: real)
    requires Rectangular(m) && i < |m[0]|
    requires forall t :: 0 <= t < |m| ==> lo <= m[t][i] <= hi
    ensures lo <= MeanPool(m)[i] <= hi
  {
    FeatureSumBounds(m, i, lo, hi);
    DivideBounds(FeatureSum(m, i), |m| as real, lo, hi);
  }

  lemma DivideBounds(sum: real, n: real, lo: real, hi: real)
    requires n > 0.0 && n * lo <= sum <= n * hi
    ensures lo <= sum / n <= hi
  {
    assert sum == n * (sum / n);
  }

  /** Tokens that are all the same vector pool to that vector. */
  lemma ConstantTokens(m: TokenMatrix, token: seq<real>)
    requires |m| >= 1 && forall t :: 0 <= t < |m| ==> m[t] == token
    ensures Rectangular(m) && MeanPool(m) == token
  {
    forall i | 0 <= i < |token| ensures MeanPool(m)[i] == token[i] {
      MeanPoolBounds(m, i, token[i], token[i]);
    }
  }

  /** Counting every token twice leaves the mean unchanged. */
  lemma DuplicateTokens(m: TokenMatrix)
    requires Rectangular(m)
    ensures Rectangular(m + m) && MeanPool(m + m) == MeanPool(m)
  {
    assert Rectangular(m + m) by {
      forall t | 0 <= t < |m + m| ensures |(m + m)[t]| == |(m + m)[0]| {
        assert (m + m)[t] == if t < |m| then m[t] else m[t - |m|];
      }
    }
    forall i | 0 <= i < |m[0]| ensures MeanPool(m + m)[i] == MeanPool(m)[i] {
      FeatureSumConcat(m, m, i);
      var s, n := FeatureSum(m, i), |m| as real;
      assert MeanPool(m + m)[i] == (s + s) / (n + n);
    }
  }

  /** A feature-extraction model: for the texts of one call, per text, its
      token vectors. */
  type Extractor = seq<string> -> seq<TokenMatrix>

  /** What the job relies on from the model: one token matrix per input
      text, each with at least one token and tokens of equal length. */
  predicate WellShaped(batch: seq<string>, out: seq<TokenMatrix>) {
    |out| == |batch| && forall k :: 0 <= k < |out| ==> Rectangular(out[k])
  }

  ghost predicate ExtractorShape(extract: Extractor) {
    forall batch :: WellShaped(batch, extract(batch))
  }

  /** The pooled vectors of the texts given to the extractor in one call
      (`output.tolist().map(...)`). */
  function Embed(extract: Extractor, batch: seq<string>): (pooled: seq<seq<real>>)
    requires ExtractorShape(extract)
    ensures |pooled| == |batch|
  {
    assert WellShaped(batch, extract(batch));
    PoolAll(extract(batch))
  }
}
