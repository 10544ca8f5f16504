/** Generic helpers shared by the layers of the model: an optional value,
    and facts about concatenating sequences and lists of blocks. */
module Seqs {

  /** A value that may be absent: a null pointer, a pin with no line. */
  datatype Option<T> = None | Some(value: T)

  /** Regrouping a concatenation of three sequences. */
  lemma AppendAssoc<T>(a: seq<T>, b: seq<T>, c: seq<T>)
    ensures a + b + c == a + (b + c)
  {
  }

  /** The concatenation of a list of sequences, in order. */
  function Flatten<T>(xs: seq<seq<T>>): seq<T>
  {
    if |xs| == 0 then [] else xs[0] + Flatten(xs[1..])
  }

  lemma FlattenOne<T>(xs: seq<seq<T>>)
    requires |xs| == 1
    ensures Flatten(xs) == xs[0]
  {
    assert Flatten(xs[1..]) == [];
    assert xs[0] + [] == xs[0];
  }

  /** A list of `|xs|` blocks of width `w` flattens to `w * |xs|` items. */
  lemma {:induction false} FlattenLength<T>(xs: seq<seq<T>>, w: nat)
    requires forall j :: 0 <= j < |xs| ==> |xs[j]| == w
    ensures |Flatten(xs)| == w * |xs|
    decreases |xs|
  {
    if |xs| > 0 {
      FlattenLength(xs[1..], w);
      assert w * |xs| == w + w * (|xs| - 1);
    }
  }

  /** Block `k` of a list of blocks of width `w` occupies items `w * k` to
      `w * k + w - 1` of the flattened list. */
  lemma {:induction false} FlattenBlock<T>(xs: seq<seq<T>>, w: nat, k: nat)
    requires forall j :: 0 <= j < |xs| ==> |xs[j]| == w
    requires k < |xs|
    ensures w * k + w <= |Flatten(xs)|
    ensures Flatten(xs)[w * k .. w * k + w] == xs[k]
    decreases k
  {
    FlattenLength(xs, w);
    BlockBound(w, k, |xs|);
    if k > 0 {
      FlattenBlock(xs[1..], w, k - 1);
      BlockStep(w, k);
      SliceAfter(xs[0], Flatten(xs[1..]), w * k, w * k + w);
    }
  }

  lemma {:induction false} BlockBound(w: nat, k: nat, n: nat)
    requires k < n
    ensures w * k + w <= w * n
    decreases n
  {
    BlockStep(w, n);
    if k + 1 < n {
      BlockBound(w, k, n - 1);
    }
  }

  lemma BlockStep(w: nat, k: nat)
    requires k > 0
    ensures w * k == w * (k - 1) + w
  {
  }

  /** A slice of `a + b` lying wholly past `a` is a slice of `b`. */
  lemma SliceAfter<T>(a: seq<T>, b: seq<T>, i: nat, j: nat)
    requires |a| <= i <= j <= |a| + |b|
    ensures (a + b)[i .. j] == b[i - |a| .. j - |a|]
  {
  }
}
