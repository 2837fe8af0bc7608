/** The contents of a branch node is the concatenation of its children's contents. These
    lemmas describe that concatenation when every block before the one of interest has the
    same length, as the children of a trie node do. */
module Blocks {
  import Radix

  /** The concatenation of `bs`, first block first. */
  function Flatten<T>(bs: seq<seq<T>>): seq<T> {
    if bs == [] then [] else Flatten(bs[..|bs| - 1]) + bs[|bs| - 1]
  }

  /** Every block of `bs` before position `k` has length `w`. */
  ghost predicate Uniform<T>(bs: seq<seq<T>>, k: nat, w: nat) {
    k <= |bs| && forall i :: 0 <= i < k ==> |bs[i]| == w
  }

  lemma FlattenAppend<T>(bs: seq<seq<T>>, b: seq<T>)
    ensures Flatten(bs + [b]) == Flatten(bs) + b
  {
    assert (bs + [b])[..|bs|] == bs;
  }

  /** Concatenating the first `k` blocks and then the rest is concatenating them all. */
  lemma {:induction false} FlattenSplit<T>(bs: seq<seq<T>>, k: nat)
    requires k <= |bs|
    ensures Flatten(bs) == Flatten(bs[..k]) + Flatten(bs[k..])
  {
    if k < |bs| {
      var n := |bs|;
      FlattenSplit(bs[..n - 1], k);
      assert bs[..n - 1][..k] == bs[..k];
      assert bs[k..] == bs[k..n - 1] + [bs[n - 1]];
      assert bs[..n - 1][k..] == bs[k..n - 1];
      FlattenAppend(bs[k..n - 1], bs[n - 1]);
    } else {
      assert bs[..k] == bs;
      assert bs[k..] == [];
    }
  }

  lemma FlattenCons<T>(b: seq<T>, bs: seq<seq<T>>)
    ensures Flatten([b] + bs) == b + Flatten(bs)
  {
    FlattenSplit([b] + bs, 1);
    assert ([b] + bs)[..1] == [b];
    assert ([b] + bs)[1..] == bs;
    FlattenAppend([], b);
  }

  lemma {:induction false} FlattenUniformLength<T>(bs: seq<seq<T>>, k: nat, w: nat)
    requires Uniform(bs, k, w)
    ensures |Flatten(bs[..k])| == k * w
  {
    if k > 0 {
      FlattenUniformLength(bs, k - 1, w);
      assert bs[..k] == bs[..k - 1] + [bs[k - 1]];
      FlattenAppend(bs[..k - 1], bs[k - 1]);
    } else {
      assert bs[..k] == [];
    }
  }

  /** The length of the concatenation when all blocks but the last have length `w`. */
  lemma FlattenLength<T>(bs: seq<seq<T>>, w: nat)
    requires |bs| >= 1 && Uniform(bs, |bs| - 1, w)
    ensures |Flatten(bs)| == (|bs| - 1) * w + |bs[|bs| - 1]|
  {
    FlattenUniformLength(bs, |bs| - 1, w);
  }

  /** Element `j` of block `k` follows the blocks before `k` in the concatenation. */
  lemma FlattenIndexAt<T>(bs: seq<seq<T>>, k: nat, j: nat)
    requires k < |bs| && j < |bs[k]|
    ensures |Flatten(bs[..k])| + j < |Flatten(bs)|
    ensures Flatten(bs)[|Flatten(bs[..k])| + j] == bs[k][j]
  {
    FlattenSplit(bs, k);
    assert bs[k..] == [bs[k]] + bs[k + 1..];
    FlattenCons(bs[k], bs[k + 1..]);
  }

  lemma FlattenIndexOffset<T>(bs: seq<seq<T>>, k: nat, j: nat, w: nat)
    requires k < |bs| && Uniform(bs, k, w) && j < |bs[k]|
    ensures Radix.Offset(k, w) + j < |Flatten(bs)| && Flatten(bs)[Radix.Offset(k, w) + j] == bs[k][j]
  {
    FlattenIndexAt(bs, k, j);
    FlattenUniformLength(bs, k, w);
    Radix.OffsetIsProduct(k, w);
  }

  /** Element `j` of block `k` sits at `Offset(k, w) + j` of a concatenation `xs`. The
      requires is wrapped as `(...) == true` to keep it one fact for the verifier. */
  lemma FlattenAt<T>(xs: seq<T>, bs: seq<seq<T>>, k: nat, j: nat, w: nat, b: seq<T>)
    requires (xs == Flatten(bs) && k < |bs| && Uniform(bs, k, w) && bs[k] == b && j < |b|) == true
    ensures Radix.Offset(k, w) + j < |xs| && xs[Radix.Offset(k, w) + j] == b[j]
  {
    FlattenIndexOffset(bs, k, j, w);
  }

  /** Overwriting element `j` of block `k` overwrites the matching position of the
      concatenation. */
  lemma FlattenUpdateAt<T>(bs: seq<seq<T>>, k: nat, j: nat, v: T)
    requires k < |bs| && j < |bs[k]|
    ensures |Flatten(bs[..k])| + j < |Flatten(bs)|
    ensures Flatten(bs[k := bs[k][j := v]]) == Flatten(bs)[|Flatten(bs[..k])| + j := v]
  {
    var bs' := bs[k := bs[k][j := v]];
    var a, b, c := Flatten(bs[..k]), bs[k], Flatten(bs[k + 1..]);
    FlattenSplit(bs, k);
    FlattenSplit(bs', k);
    assert bs'[..k] == bs[..k];
    assert bs[k..] == [b] + bs[k + 1..];
    assert bs'[k..] == [b[j := v]] + bs[k + 1..];
    FlattenCons(b, bs[k + 1..]);
    FlattenCons(b[j := v], bs[k + 1..]);
    UpdateMiddle(a, b, c, j, v);
  }

  /** Overwriting element `j` of block `k` overwrites position `k * w + j` of the
      concatenation. */
  lemma FlattenUpdate<T>(bs: seq<seq<T>>, k: nat, j: nat, w: nat, v: T)
    requires k < |bs| && Uniform(bs, k, w) && j < |bs[k]|
    ensures k * w + j < |Flatten(bs)|
    ensures Flatten(bs[k := bs[k][j := v]]) == Flatten(bs)[k * w + j := v]
  {
    FlattenUpdateAt(bs, k, j, v);
    FlattenUniformLength(bs, k, w);
  }

  lemma UpdateMiddle<T>(a: seq<T>, b: seq<T>, c: seq<T>, j: nat, v: T)
    requires j < |b|
    ensures (a + (b + c))[|a| + j := v] == a + (b[j := v] + c)
  {
  }

  /** Replacing the last block by itself plus `v` appends `v` to the concatenation. */
  lemma FlattenGrowLast<T>(bs: seq<seq<T>>, v: T)
    requires |bs| >= 1
    ensures Flatten(bs[|bs| - 1 := bs[|bs| - 1] + [v]]) == Flatten(bs) + [v]
  {
    var n := |bs|;
    assert bs[n - 1 := bs[n - 1] + [v]][..n - 1] == bs[..n - 1];
  }
}
