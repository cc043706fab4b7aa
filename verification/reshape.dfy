/**
 * `reshape_graphs` in pynets/stats/benchmarking.py: a stack of `n`
 * adjacency matrices of shape `v1 x v2` becomes an `n x (v1 * v2)` matrix,
 * each matrix flattened row by row (numpy's C order).
 */
module Reshape {

  /** A three-dimensional array of shape (|g|, v1, v2). */
  predicate IsStack(g: seq<seq<seq<real>>>, v1: nat, v2: nat) {
    forall k :: 0 <= k < |g| ==> IsMatrix(g[k], v1, v2)
  }

  /** A two-dimensional array of shape (v1, v2). */
  predicate IsMatrix(m: seq<seq<real>>, v1: nat, v2: nat) {
    |m| == v1 && forall i :: 0 <= i < v1 ==> |m[i]| == v2
  }

  /** The rows of a matrix laid end to end. */
  function Concat(m: seq<seq<real>>): seq<real>
  {
    if m == [] then [] else m[0] + Concat(m[1..])
  }

  /** The row of length `v1 * v2` cut back into `v1` rows of length `v2`. */
  function Split(r: seq<real>, v1: nat, v2: nat): (m: seq<seq<real>>)
    requires |r| == v1 * v2
    ensures IsMatrix(m, v1, v2)
  {
    if v1 == 0 then [] else [r[..v2]] + Split(r[v2..], v1 - 1, v2)
  }

  /** Flattening a `v1 x v2` matrix gives `v1 * v2` values. */
  lemma {:induction false} ConcatLength(m: seq<seq<real>>, v1: nat, v2: nat)
    requires IsMatrix(m, v1, v2)
    ensures |Concat(m)| == v1 * v2
  {
    if v1 > 0 {
      ConcatLength(m[1..], v1 - 1, v2);
      assert (v1 - 1) * v2 + v2 == v1 * v2;
    }
  }

  /** Entry `(i, j)` of a flattened `v1 x v2` matrix sits at position `i * v2 + j`. */
  lemma {:induction false} ConcatIndex(m: seq<seq<real>>, v1: nat, v2: nat, i: nat, j: nat)
    requires IsMatrix(m, v1, v2) && i < v1 && j < v2
    ensures i * v2 + j < |Concat(m)| && Concat(m)[i * v2 + j] == m[i][j]
  {
    if i > 0 {
      ConcatIndex(m[1..], v1 - 1, v2, i - 1, j);
      assert i * v2 + j == v2 + ((i - 1) * v2 + j);
    }
  }

  /** Cutting a flattened matrix gives the matrix back. */
  lemma {:induction false} SplitConcat(m: seq<seq<real>>, v1: nat, v2: nat)
    requires IsMatrix(m, v1, v2)
    ensures |Concat(m)| == v1 * v2 && Split(Concat(m), v1, v2) == m
  {
    ConcatLength(m, v1, v2);
    if v1 > 0 {
      SplitConcat(m[1..], v1 - 1, v2);
      assert Concat(m)[..v2] == m[0];
      assert Concat(m)[v2..] == Concat(m[1..]);
    }
  }

  /** Flattening a cut row gives the row back. */
  lemma {:induction false} ConcatSplit(r: seq<real>, v1: nat, v2: nat)
    requires |r| == v1 * v2
    ensures Concat(Split(r, v1, v2)) == r
  {
    if v1 > 0 {
      ConcatSplit(r[v2..], v1 - 1, v2);
      assert r == r[..v2] + r[v2..];
    }
  }

  /** `np.reshape(graphs, (n, v1 * v2))`. */
  function ReshapeGraphs(g: seq<seq<seq<real>>>, v1: nat, v2: nat): (r: seq<seq<real>>)
    requires IsStack(g, v1, v2)
    ensures |r| == |g| && forall k :: 0 <= k < |r| ==> |r[k]| == v1 * v2
  {
    var r := seq(|g|, k requires 0 <= k < |g| => Concat(g[k]));
    assert forall k :: 0 <= k < |r| ==> |r[k]| == v1 * v2 by {
      forall k | 0 <= k < |r| {
        ConcatLength(g[k], v1, v2);
      }
    }
    r
  }

  /** The inverse reshape, from `(n, v1 * v2)` back to `(n, v1, v2)`. */
  function UnreshapeGraphs(r: seq<seq<real>>, v1: nat, v2: nat): (g: seq<seq<seq<real>>>)
    requires forall k :: 0 <= k < |r| ==> |r[k]| == v1 * v2
    ensures |g| == |r| && IsStack(g, v1, v2)
  {
    seq(|r|, k requires 0 <= k < |r| => Split(r[k], v1, v2))
  }

  /** The value of node pair `(i, j)` of matrix `k` sits at column `i * v2 + j` of row `k`. */
  lemma ReshapeIndex(g: seq<seq<seq<real>>>, v1: nat, v2: nat, k: nat, i: nat, j: nat)
    requires IsStack(g, v1, v2) && k < |g| && i < v1 && j < v2
    ensures i * v2 + j < v1 * v2 && ReshapeGraphs(g, v1, v2)[k][i * v2 + j] == g[k][i][j]
  {
    ConcatIndex(g[k], v1, v2, i, j);
    ConcatLength(g[k], v1, v2);
    assert ReshapeGraphs(g, v1, v2)[k] == Concat(g[k]);
  }

  /** Reshaping loses nothing: the inverse reshape gives the stack back, and reshaping an unreshaped matrix gives it back. */
  lemma ReshapeRoundTrip(g: seq<seq<seq<real>>>, r: seq<seq<real>>, v1: nat, v2: nat)
    requires IsStack(g, v1, v2)
    requires forall k :: 0 <= k < |r| ==> |r[k]| == v1 * v2
    ensures UnreshapeGraphs(ReshapeGraphs(g, v1, v2), v1, v2) == g
    ensures ReshapeGraphs(UnreshapeGraphs(r, v1, v2), v1, v2) == r
  {
    forall k | 0 <= k < |g|
      ensures Split(ReshapeGraphs(g, v1, v2)[k], v1, v2) == g[k]
    {
      SplitConcat(g[k], v1, v2);
    }
    forall k | 0 <= k < |r|
      ensures Concat(Split(r[k], v1, v2)) == r[k]
    {
      ConcatSplit(r[k], v1, v2);
    }
  }
}
