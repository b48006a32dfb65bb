/** The batching both embedding jobs share: `for (i = 0; i < n; i += SIZE)
    { batch = foods.slice(i, i + SIZE); ... }` walks the working set in
    consecutive slices of at most SIZE names. */
module Batching {
  import opened Common

  /** The slices the loop visits, in order. */
  function Batches<T>(xs: seq<T>, size: nat): (bs: seq<seq<T>>)
    requires size >= 1
    decreases |xs|
  {
    if xs == [] then []
    else [xs[..Min(size, |xs|)]] + Batches(xs[Min(size, |xs|)..], size)
  }

  function Flatten<T>(bs: seq<seq<T>>): seq<T>
    decreases |bs|
  {
    if bs == [] then [] else bs[0] + Flatten(bs[1..])
  }

  /** Concatenating the batches gives back the working set, in order. */
  lemma {:induction false} BatchesFlatten<T>(xs: seq<T>, size: nat)
    requires size >= 1
    ensures Flatten(Batches(xs, size)) == xs
    decreases |xs|
  {
    if xs != [] {
      var k := Min(size, |xs|);
      BatchesFlatten(xs[k..], size);
      assert Batches(xs, size)[1..] == Batches(xs[k..], size);
      assert xs == xs[..k] + xs[k..];
    }
  }

  /** There are as many batches as the loop makes iterations: the last
      one ends at the end of the working set, and one fewer would not reach
      it. */
  lemma {:induction false} BatchesCount<T>(xs: seq<T>, size: nat)
    requires size >= 1
    ensures |xs| <= |Batches(xs, size)| * size
    ensures xs != [] ==> (|Batches(xs, size)| - 1) * size < |xs|
    decreases |xs|
  {
    if xs != [] {
      var k := Min(size, |xs|);
      var n := |Batches(xs[k..], size)|;
      BatchesCount(xs[k..], size);
      MulSucc(n, size);
      assert |Batches(xs, size)| == n + 1;
    }
  }

  lemma MulSucc(n: nat, size: nat)
    ensures (n + 1) * size == n * size + size
  {
  }

  /** Batch `b` is the slice `[b * size, min(b * size + size, |xs|))`: it is
      non-empty and holds at most `size` names. */
  lemma BatchesSlice<T>(xs: seq<T>, size: nat, b: nat)
    requires size >= 1 && b < |Batches(xs, size)|
    ensures b * size < |xs|
    ensures Batches(xs, size)[b] == xs[b * size..Min(b * size + size, |xs|)]
    ensures 1 <= |Batches(xs, size)[b]| <= size
  {
    OffsetIsProduct(b, size);
    BatchAt(xs, size, b);
  }

  /** The start of batch `b`, counted in whole batches. */
  function Offset(b: nat, size: nat): nat {
    if b == 0 then 0 else Offset(b - 1, size) + size
  }

  lemma {:induction false} OffsetIsProduct(b: nat, size: nat)
    ensures Offset(b, size) == b * size
  {
    if b > 0 {
      OffsetIsProduct(b - 1, size);
      MulSucc(b - 1, size);
    }
  }

  lemma {:induction false} BatchAt<T>(xs: seq<T>, size: nat, b: nat)
    requires size >= 1 && b < |Batches(xs, size)|
    ensures Offset(b, size) < |xs|
    ensures Batches(xs, size)[b] == xs[Offset(b, size)..Min(Offset(b, size) + size, |xs|)]
    ensures 1 <= |Batches(xs, size)[b]| <= size
    decreases |xs|
  {
    assert xs != [];
    var k := Min(size, |xs|);
    var rest := xs[k..];
    BatchesCons(xs, size);
    if b > 0 {
      assert Batches(xs, size)[b] == Batches(rest, size)[b - 1];
      assert rest != [];
      BatchAt(rest, size, b - 1);
      var off := Offset(b - 1, size);
      SliceOfDrop(xs, size, off, Min(off + size, |rest|));
    }
  }

  lemma BatchesCons<T>(xs: seq<T>, size: nat)
    requires size >= 1 && xs != []
    ensures Batches(xs, size) == [xs[..Min(size, |xs|)]] + Batches(xs[Min(size, |xs|)..], size)
  {
  }

  lemma SliceOfDrop<T>(xs: seq<T>, k: nat, i: nat, j: nat)
    requires k <= |xs| && i <= j <= |xs| - k
    ensures xs[k..][i..j] == xs[k + i..k + j]
  {
  }

  /** One iteration of the batch loop: the next batch is the slice at `i`,
      and the remaining batches start after it. */
  lemma BatchesStep<T>(xs: seq<T>, size: nat, i: nat, bs: seq<seq<T>>, b: nat)
    requires size >= 1 && i < |xs| && b <= |bs| && Batches(xs[i..], size) == bs[b..]
    ensures b < |bs| && bs[b] == xs[i..Min(i + size, |xs|)]
    ensures Batches(xs[Min(i + size, |xs|)..], size) == bs[b + 1..]
  {
    var rest := xs[i..];
    BatchesCons(rest, size);
    assert bs[b..][0] == bs[b] && bs[b..][1..] == bs[b + 1..];
    assert rest[..Min(size, |rest|)] == xs[i..Min(i + size, |xs|)];
    assert rest[Min(size, |rest|)..] == xs[Min(i + size, |xs|)..];
  }

  /** The loop ends exactly after the last batch. */
  lemma BatchesDone<T>(xs: seq<T>, size: nat, i: nat, bs: seq<seq<T>>, b: nat)
    requires size >= 1 && i >= |xs| && b <= |bs| && Batches(xs[Min(i, |xs|)..], size) == bs[b..]
    ensures b == |bs|
  {
    assert xs[Min(i, |xs|)..] == [];
  }
}
