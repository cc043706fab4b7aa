/**
 * The community ordering in `plot_community_conn_mat`
 * (pynets/plotting/plot_graphs.py): nodes are sorted stably by community
 * id, the connectivity matrix is permuted accordingly, and one square block
 * per community is placed along the diagonal, sized and ordered by the
 * sorted community vector. The function displays the UNSORTED matrix
 * under those squares; the sorted one only supplies the node count. The
 * squares match the communities of the sorted matrix
 * (`SortedSquaresMatch`), and not those of the matrix shown unless the
 * vector is already sorted (`UnsortedDisplayMismatch`).
 */
module CommunityLayout {
  import opened Wrappers

  // ---------------------------------------------------------------------
  // The sort permutation

  /**
   * The sort key `community_aff[k]` of node k. Only nodes of the vector
   * are ever sorted; the value given to any other index is never used.
   */
  function Key(aff: seq<int>, k: nat): int {
    if k < |aff| then aff[k] else 0
  }

  /** Node `x` comes before node `y` in the stable sort: smaller id, or same id and smaller index. */
  predicate Before(aff: seq<int>, x: nat, y: nat) {
    Key(aff, x) < Key(aff, y) || (Key(aff, x) == Key(aff, y) && x < y)
  }

  /** A sequence of nodes in that order. */
  predicate StablySorted(aff: seq<int>, s: seq<nat>) {
    forall a, b :: 0 <= a < b < |s| ==> Before(aff, s[a], s[b])
  }

  /** Insert node `k` after every node whose id is at most its own. */
  function Insert(aff: seq<int>, s: seq<nat>, k: nat): (r: seq<nat>)
    ensures |r| == |s| + 1 && multiset(r) == multiset(s) + multiset{k}
  {
    if s == [] then [k]
    else if Key(aff, k) < Key(aff, s[0]) then [k] + s
    else
      assert s == [s[0]] + s[1..];
      [s[0]] + Insert(aff, s[1..], k)
  }

  /** The nodes `0 .. n - 1` sorted. */
  function SortPrefix(aff: seq<int>, n: nat): (r: seq<nat>)
    ensures |r| == n
  {
    if n == 0 then [] else Insert(aff, SortPrefix(aff, n - 1), n - 1)
  }

  /** `sorted(range(len(community_aff)), key=lambda k: community_aff[k])`. */
  function SortingArray(aff: seq<int>): (r: seq<nat>)
    ensures |r| == |aff| && forall q :: 0 <= q < |r| ==> r[q] < |aff|
  {
    SortPrefixSpec(aff, |aff|);
    PermutationBound(SortPrefix(aff, |aff|), |aff|);
    SortPrefix(aff, |aff|)
  }

  /** `0, 1, ..., n - 1`. */
  function Range(n: nat): (r: seq<nat>)
    ensures |r| == n && forall i :: 0 <= i < n ==> r[i] == i
  {
    seq(n, i requires 0 <= i < n => i)
  }

  /** Inserting a node larger than every node present keeps the order. */
  lemma {:induction false} InsertSorted(aff: seq<int>, s: seq<nat>, k: nat)
    requires StablySorted(aff, s)
    requires forall i :: 0 <= i < |s| ==> s[i] < k
    ensures StablySorted(aff, Insert(aff, s, k))
  {
    if s != [] && Key(aff, k) >= Key(aff, s[0]) {
      var rest := s[1..];
      InsertSorted(aff, rest, k);
      var r := Insert(aff, s, k);
      var tail := Insert(aff, rest, k);
      assert r == [s[0]] + tail;
      forall b | 1 <= b < |r|
        ensures Before(aff, s[0], r[b])
      {
        assert r[b] == tail[b - 1];
        assert r[b] in multiset(tail);
        if r[b] != k {
          assert r[b] in multiset(rest);
          var c :| 0 <= c < |rest| && rest[c] == r[b];
          assert s[c + 1] == r[b];
        }
      }
    }
  }

  /** The sorted prefix holds each of the nodes `0 .. n - 1` once, in order. */
  lemma {:induction false} SortPrefixSpec(aff: seq<int>, n: nat)
    ensures multiset(SortPrefix(aff, n)) == multiset(Range(n))
    ensures StablySorted(aff, SortPrefix(aff, n))
  {
    if n > 0 {
      SortPrefixSpec(aff, n - 1);
      InsertNext(aff, SortPrefix(aff, n - 1), n - 1);
    }
  }

  /** Inserting node k into a sorted permutation of `0 .. k - 1` gives one of `0 .. k`. */
  lemma InsertNext(aff: seq<int>, s: seq<nat>, k: nat)
    requires multiset(s) == multiset(Range(k)) && StablySorted(aff, s)
    ensures multiset(Insert(aff, s, k)) == multiset(Range(k + 1))
    ensures StablySorted(aff, Insert(aff, s, k))
  {
    assert Range(k + 1) == Range(k) + [k];
    PermutationBound(s, k);
    InsertSorted(aff, s, k);
  }

  /** A permutation of `0 .. n - 1` holds only nodes below n. */
  lemma PermutationBound(s: seq<nat>, n: nat)
    requires multiset(s) == multiset(Range(n))
    ensures forall c :: 0 <= c < |s| ==> s[c] < n
  {
    forall c | 0 <= c < |s|
      ensures s[c] < n
    {
      assert s[c] in multiset(Range(n));
    }
  }

  /**
   * `sorting_array` is a permutation of the nodes along which community
   * ids never decrease, nodes of the same community keeping their order.
   */
  lemma SortingArraySpec(aff: seq<int>)
    ensures |SortingArray(aff)| == |aff|
    ensures multiset(SortingArray(aff)) == multiset(Range(|aff|))
    ensures forall i :: 0 <= i < |aff| ==> i in SortingArray(aff)
    ensures forall q :: 0 <= q < |aff| ==> SortingArray(aff)[q] < |aff|
    ensures forall a, b :: 0 <= a < b < |aff| ==>
      var p := SortingArray(aff);
      aff[p[a]] < aff[p[b]] || (aff[p[a]] == aff[p[b]] && p[a] < p[b])
  {
    SortPrefixSpec(aff, |aff|);
    var p := SortingArray(aff);
    PermutationBound(p, |aff|);
    forall a, b | 0 <= a < b < |aff|
      ensures aff[p[a]] < aff[p[b]] || (aff[p[a]] == aff[p[b]] && p[a] < p[b])
    {
      assert Before(aff, p[a], p[b]);
    }
    forall i | 0 <= i < |aff|
      ensures i in p
    {
      assert Range(|aff|)[i] == i;
      assert i in multiset(Range(|aff|));
    }
  }

  /** Two stably sorted permutations of the nodes are the same sequence: the order is total. */
  lemma {:induction false} StableSortUnique(aff: seq<int>, s: seq<nat>, t: seq<nat>)
    requires multiset(s) == multiset(t)
    requires StablySorted(aff, s) && StablySorted(aff, t)
    ensures s == t
  {
    if s != [] {
      SameHead(aff, s, t);
      SameTail(s, t);
      StableSortUnique(aff, s[1..], t[1..]);
    }
  }

  /** Two stably sorted permutations of the same nodes start with the same node. */
  lemma SameHead(aff: seq<int>, s: seq<nat>, t: seq<nat>)
    requires multiset(s) == multiset(t) && s != []
    requires StablySorted(aff, s) && StablySorted(aff, t)
    ensures t != [] && s[0] == t[0]
  {
    assert |t| == |multiset(t)| == |multiset(s)| == |s|;
    assert s[0] in multiset(t) && t[0] in multiset(s);
    var i :| 0 <= i < |t| && t[i] == s[0];
    var j :| 0 <= j < |s| && s[j] == t[0];
  }

  /** Equal multisets with equal heads have equal tails. */
  lemma SameTail(s: seq<nat>, t: seq<nat>)
    requires multiset(s) == multiset(t) && s != [] && t != [] && s[0] == t[0]
    ensures multiset(s[1..]) == multiset(t[1..])
  {
    assert s == [s[0]] + s[1..] && t == [t[0]] + t[1..];
    assert multiset(s) == multiset{s[0]} + multiset(s[1..]);
    assert multiset(t) == multiset{t[0]} + multiset(t[1..]);
    forall x
      ensures multiset(s[1..])[x] == multiset(t[1..])[x]
    {
      assert multiset(s)[x] == multiset(t)[x];
    }
  }

  // ---------------------------------------------------------------------
  // The sorted matrix

  /** A square matrix. */
  predicate Square(m: seq<seq<real>>) {
    forall i :: 0 <= i < |m| ==> |m[i]| == |m|
  }

  /** `conn_matrix[sorting_array, :]`. */
  function PickRows(m: seq<seq<real>>, p: seq<nat>): (r: seq<seq<real>>)
    requires forall i :: 0 <= i < |p| ==> p[i] < |m|
  {
    seq(|p|, i requires 0 <= i < |p| => m[p[i]])
  }

  /** `matrix[:, sorting_array]`. */
  function PickColumns(m: seq<seq<real>>, p: seq<nat>, width: nat): (r: seq<seq<real>>)
    requires forall i :: 0 <= i < |m| ==> |m[i]| == width
    requires forall j :: 0 <= j < |p| ==> p[j] < width
  {
    seq(|m|, i requires 0 <= i < |m| => seq(|p|, j requires 0 <= j < |p| => m[i][p[j]]))
  }

  /**
   * The sorted connectivity matrix of lines 76-77; numpy raises IndexError
   * when the affiliation vector names a node beyond the matrix.
   */
  function SortedMatrix(m: seq<seq<real>>, aff: seq<int>): (r: Option<seq<seq<real>>>)
    requires Square(m)
    ensures r.None? <==> |aff| > |m|
  {
    var p := SortingArray(aff);
    if |aff| > |m| then None
    else
      SortingArraySpec(aff);
      assert forall i :: 0 <= i < |p| ==> p[i] < |m|;
      Some(PickColumns(PickRows(m, p), p, |m|))
  }

  /**
   * Entry (i, j) of the sorted matrix is the original entry between the
   * nodes `sorting_array[i]` and `sorting_array[j]`; it is square of side N.
   */
  lemma SortedMatrixAt(m: seq<seq<real>>, aff: seq<int>, i: nat, j: nat)
    requires Square(m) && |aff| <= |m| && i < |aff| && j < |aff|
    ensures var r := SortedMatrix(m, aff).value;
      var p := SortingArray(aff);
      |r| == |aff| && |r[i]| == |aff| && r[i][j] == m[p[i]][p[j]]
  {
  }

  /** Sorting rows and columns alike keeps a symmetric matrix symmetric. */
  lemma SortedMatrixSymmetric(m: seq<seq<real>>, aff: seq<int>, i: nat, j: nat)
    requires Square(m) && |aff| <= |m| && i < |aff| && j < |aff|
    requires forall a, b :: 0 <= a < |m| && 0 <= b < |m| ==> m[a][b] == m[b][a]
    ensures var r := SortedMatrix(m, aff).value;
      |r| == |aff| && |r[i]| == |aff| && |r[j]| == |aff| && r[i][j] == r[j][i]
  {
    SortedMatrixAt(m, aff, i, j);
    SortedMatrixAt(m, aff, j, i);
  }

  /** Every connection among the N nodes reappears in the sorted matrix. */
  lemma SortedMatrixCovers(m: seq<seq<real>>, aff: seq<int>, a: nat, b: nat)
    requires Square(m) && |aff| <= |m| && a < |aff| && b < |aff|
    ensures var r := SortedMatrix(m, aff).value;
      exists i, j :: 0 <= i < |r| && 0 <= j < |r| && |r[i]| == |r| && r[i][j] == m[a][b]
  {
    SortingArraySpec(aff);
    var p := SortingArray(aff);
    assert a in p && b in p;
    var i :| 0 <= i < |p| && p[i] == a;
    var j :| 0 <= j < |p| && p[j] == b;
    SortedMatrixAt(m, aff, i, j);
  }

  // ---------------------------------------------------------------------
  // The diagonal blocks

  /** The ids mapped along a node sequence. */
  function Values(aff: seq<int>, s: seq<nat>): (vs: seq<int>)
    ensures |vs| == |s|
  {
    if s == [] then [] else [Key(aff, s[0])] + Values(aff, s[1..])
  }

  /** `sorted(community_aff)`: the ids in the order of the sort permutation. */
  function SortedValues(aff: seq<int>): (vs: seq<int>)
    ensures |vs| == |aff|
  {
    Values(aff, SortingArray(aff))
  }

  /** Entry q of the mapped sequence is the id of node q. */
  lemma {:induction false} ValuesAt(aff: seq<int>, s: seq<nat>, q: nat)
    requires q < |s|
    ensures Values(aff, s)[q] == Key(aff, s[q])
  {
    if q > 0 {
      ValuesAt(aff, s[1..], q - 1);
    }
  }

  /** Position q of `sorted(community_aff)` holds the id of node `sorting_array[q]`. */
  lemma SortedValuesAt(aff: seq<int>, q: nat)
    requires q < |aff|
    ensures SortingArray(aff)[q] < |aff| && SortedValues(aff)[q] == aff[SortingArray(aff)[q]]
  {
    SortingArraySpec(aff);
    ValuesAt(aff, SortingArray(aff), q);
  }

  /** A non-decreasing sequence of ids. */
  predicate NonDecreasing(vs: seq<int>) {
    forall a, b :: 0 <= a < b < |vs| ==> vs[a] <= vs[b]
  }

  /** A strictly increasing sequence of ids. */
  predicate Increasing(us: seq<int>) {
    forall a, b :: 0 <= a < b < |us| ==> us[a] < us[b]
  }

  /** Inserting a node adds its id to the ids present. */
  lemma {:induction false} InsertValues(aff: seq<int>, s: seq<nat>, k: nat)
    ensures multiset(Values(aff, Insert(aff, s, k))) == multiset(Values(aff, s)) + multiset{Key(aff, k)}
  {
    if s != [] {
      var rest := s[1..];
      if Key(aff, k) >= Key(aff, s[0]) {
        InsertValues(aff, rest, k);
        var r := Insert(aff, s, k);
        assert r[0] == s[0] && r[1..] == Insert(aff, rest, k);
      }
    }
  }

  /** Growing a prefix by one entry adds that entry to its multiset. */
  lemma PrefixMultiset(aff: seq<int>, n: nat)
    requires 0 < n <= |aff|
    ensures multiset(aff[..n]) == multiset(aff[..n - 1]) + multiset{aff[n - 1]}
  {
    assert aff[..n] == aff[..n - 1] + [aff[n - 1]];
  }

  /** Sorting keeps every id with its multiplicity. */
  lemma {:induction false} SortPrefixValues(aff: seq<int>, n: nat)
    requires n <= |aff|
    ensures multiset(Values(aff, SortPrefix(aff, n))) == multiset(aff[..n])
  {
    if n > 0 {
      SortPrefixValues(aff, n - 1);
      SortStep(aff, SortPrefix(aff, n - 1), n);
    }
  }

  /** One insertion step of the sort keeps the ids of the prefix sorted so far. */
  lemma SortStep(aff: seq<int>, s: seq<nat>, n: nat)
    requires 0 < n <= |aff| && multiset(Values(aff, s)) == multiset(aff[..n - 1])
    ensures multiset(Values(aff, Insert(aff, s, n - 1))) == multiset(aff[..n])
  {
    InsertValues(aff, s, n - 1);
    PrefixMultiset(aff, n);
  }

  /** `sorted(community_aff)` is non-decreasing. */
  lemma SortedValuesSorted(aff: seq<int>)
    ensures NonDecreasing(SortedValues(aff))
  {
    SortingArraySpec(aff);
    var p := SortingArray(aff);
    forall a, b | 0 <= a < b < |aff|
      ensures SortedValues(aff)[a] <= SortedValues(aff)[b]
    {
      SortedValuesAt(aff, a);
      SortedValuesAt(aff, b);
    }
  }

  /** `sorted(community_aff)` holds the ids of `community_aff` with their multiplicities. */
  lemma SortedValuesPermutation(aff: seq<int>)
    ensures multiset(SortedValues(aff)) == multiset(aff)
  {
    SortPrefixValues(aff, |aff|);
    assert aff[..|aff|] == aff;
  }

  /** The distinct entries of a sequence, in order of first appearance. */
  function Distinct(vs: seq<int>): seq<int> {
    if vs == [] then []
    else if vs[0] in vs[1..] then Distinct(vs[1..])
    else [vs[0]] + Distinct(vs[1..])
  }

  /** Dropping repeats keeps every entry. */
  lemma {:induction false} DistinctMembers(vs: seq<int>)
    ensures forall x :: x in Distinct(vs) <==> x in vs
  {
    if vs != [] {
      DistinctMembers(vs[1..]);
      assert forall x :: x in vs <==> x == vs[0] || x in vs[1..];
    }
  }

  /** The distinct entries of a non-decreasing sequence increase strictly. */
  lemma {:induction false} DistinctIncreasing(vs: seq<int>)
    requires NonDecreasing(vs)
    ensures Increasing(Distinct(vs))
  {
    if vs != [] {
      var rest := vs[1..];
      assert NonDecreasing(rest);
      DistinctIncreasing(rest);
      if vs[0] !in rest {
        var d := Distinct(rest);
        forall b | 0 <= b < |d|
          ensures vs[0] < d[b]
        {
          DistinctMembers(rest);
          assert d[b] in d;
          var c :| 0 <= c < |rest| && rest[c] == d[b];
          assert vs[c + 1] == d[b];
        }
        assert Distinct(vs) == [vs[0]] + d;
      }
    }
  }

  /** `np.unique(community_aff)`: the community ids, ascending, each once. */
  function Unique(aff: seq<int>): (us: seq<int>)
  {
    Distinct(SortedValues(aff))
  }

  /** `np.unique` holds exactly the ids present, in strictly increasing order. */
  lemma UniqueSpec(aff: seq<int>)
    ensures Increasing(Unique(aff))
    ensures forall x :: x in Unique(aff) <==> x in aff
  {
    SortedValuesSorted(aff);
    SortedValuesPermutation(aff);
    DistinctIncreasing(SortedValues(aff));
    DistinctMembers(SortedValues(aff));
    forall x
      ensures x in SortedValues(aff) <==> x in aff
    {
      assert x in SortedValues(aff) <==> x in multiset(SortedValues(aff));
    }
  }

  /** Number of entries below, at most, and equal to an id. */
  function CountBelow(vs: seq<int>, u: int): nat {
    if vs == [] then 0 else (if vs[0] < u then 1 else 0) + CountBelow(vs[1..], u)
  }

  function CountAtMost(vs: seq<int>, u: int): nat {
    if vs == [] then 0 else (if vs[0] <= u then 1 else 0) + CountAtMost(vs[1..], u)
  }

  /** `sum(sorted(community_aff) == community)`. */
  function Count(vs: seq<int>, u: int): nat {
    if vs == [] then 0 else (if vs[0] == u then 1 else 0) + Count(vs[1..], u)
  }

  /** The count is the multiplicity of the id. */
  lemma {:induction false} CountMultiset(vs: seq<int>, u: int)
    ensures Count(vs, u) == multiset(vs)[u]
  {
    if vs != [] {
      CountMultiset(vs[1..], u);
      assert vs == [vs[0]] + vs[1..];
    }
  }

  /**
   * In a non-decreasing sequence the entries below `u` are exactly the
   * first CountBelow ones, the entries at most `u` exactly the first
   * CountAtMost ones, and the latter count adds the entries equal to `u`.
   */
  lemma {:induction false} CountPositions(vs: seq<int>, u: int)
    requires NonDecreasing(vs)
    ensures CountAtMost(vs, u) == CountBelow(vs, u) + Count(vs, u)
    ensures forall q :: 0 <= q < |vs| ==> (q < CountBelow(vs, u) <==> vs[q] < u)
    ensures forall q :: 0 <= q < |vs| ==> (q < CountAtMost(vs, u) <==> vs[q] <= u)
  {
    if vs != [] {
      var rest := vs[1..];
      assert NonDecreasing(rest);
      CountPositions(rest, u);
      forall q | 1 <= q < |vs|
        ensures vs[q] == rest[q - 1]
      {
      }
    }
  }

  /** With no entry strictly between `a` and `b`, the entries below `b` are the entries at most `a`. */
  lemma {:induction false} CountGap(vs: seq<int>, a: int, b: int)
    requires a < b && forall x :: x in vs ==> x <= a || b <= x
    ensures CountBelow(vs, b) == CountAtMost(vs, a)
  {
    if vs != [] {
      assert vs[0] in vs;
      assert forall x :: x in vs[1..] ==> x in vs;
      CountGap(vs[1..], a, b);
    }
  }

  /** No entry below the smallest id; every entry at most the largest. */
  lemma {:induction false} CountEnds(vs: seq<int>, u: int)
    ensures (forall x :: x in vs ==> u <= x) ==> CountBelow(vs, u) == 0
    ensures (forall x :: x in vs ==> x <= u) ==> CountAtMost(vs, u) == |vs|
  {
    if vs != [] {
      assert vs[0] in vs;
      assert forall x :: x in vs[1..] ==> x in vs;
      CountEnds(vs[1..], u);
    }
  }

  /** A diagonal rectangle `Rectangle((start, start), size, size)`. */
  datatype Block = Block(start: nat, size: nat)

  /** Consecutive distinct entries of a non-decreasing sequence leave no entry between them. */
  lemma DistinctGap(vs: seq<int>, t: nat)
    requires NonDecreasing(vs) && t + 1 < |Distinct(vs)|
    ensures CountBelow(vs, Distinct(vs)[t + 1]) == CountAtMost(vs, Distinct(vs)[t])
  {
    var us := Distinct(vs);
    DistinctIncreasing(vs);
    DistinctMembers(vs);
    forall x | x in vs
      ensures x <= us[t] || us[t + 1] <= x
    {
      assert x in us;
      var k :| 0 <= k < |us| && us[k] == x;
    }
    CountGap(vs, us[t], us[t + 1]);
  }

  /** No entry lies below the first distinct entry or above the last. */
  lemma DistinctEnds(vs: seq<int>)
    requires NonDecreasing(vs) && |Distinct(vs)| > 0
    ensures CountBelow(vs, Distinct(vs)[0]) == 0
    ensures CountAtMost(vs, Distinct(vs)[|Distinct(vs)| - 1]) == |vs|
  {
    var us := Distinct(vs);
    DistinctIncreasing(vs);
    DistinctMembers(vs);
    forall x | x in vs
      ensures us[0] <= x <= us[|us| - 1]
    {
      assert x in us;
      var k :| 0 <= k < |us| && us[k] == x;
    }
    CountEnds(vs, us[0]);
    CountEnds(vs, us[|us| - 1]);
  }

  /**
   * Consecutive communities leave no id between them, so the block of
   * one community starts where the previous one ends.
   */
  lemma NextBlockStart(aff: seq<int>, t: nat)
    requires t + 1 < |Unique(aff)|
    ensures CountBelow(SortedValues(aff), Unique(aff)[t + 1]) == CountAtMost(SortedValues(aff), Unique(aff)[t])
  {
    SortedValuesSorted(aff);
    DistinctGap(SortedValues(aff), t);
  }

  /** The first block starts at 0 and the last one ends at N. */
  lemma BlockEnds(aff: seq<int>)
    requires |Unique(aff)| > 0
    ensures CountBelow(SortedValues(aff), Unique(aff)[0]) == 0
    ensures CountAtMost(SortedValues(aff), Unique(aff)[|Unique(aff)| - 1]) == |aff|
  {
    SortedValuesSorted(aff);
    DistinctEnds(SortedValues(aff));
  }

  /** A non-empty affiliation vector has at least one community. */
  lemma SomeCommunity(aff: seq<int>)
    ensures |aff| > 0 ==> |Unique(aff)| > 0
  {
    if |aff| > 0 {
      UniqueSpec(aff);
      var x := aff[0];
      assert x in aff;
      assert x in Unique(aff);
    }
  }

  /** The block drawn for the t-th community of `np.unique(community_aff)`. */
  function BlockOf(aff: seq<int>, t: nat): Block
    requires t < |Unique(aff)|
  {
    var vs := SortedValues(aff);
    var u := Unique(aff)[t];
    Block(CountBelow(vs, u), Count(vs, u))
  }

  /** Block t is as large as community t. */
  lemma BlockSize(aff: seq<int>, t: nat)
    requires t < |Unique(aff)|
    ensures BlockOf(aff, t).size == multiset(aff)[Unique(aff)[t]]
  {
    SortedValuesPermutation(aff);
    CountMultiset(SortedValues(aff), Unique(aff)[t]);
  }

  /** Block t starts at 0 or where block t - 1 ends, and the last block ends at N. */
  lemma BlockChain(aff: seq<int>, t: nat)
    requires t < |Unique(aff)|
    ensures t == 0 ==> BlockOf(aff, t).start == 0
    ensures t > 0 ==> BlockOf(aff, t).start == BlockOf(aff, t - 1).start + BlockOf(aff, t - 1).size
    ensures t == |Unique(aff)| - 1 ==> BlockOf(aff, t).start + BlockOf(aff, t).size == |aff|
  {
    var vs := SortedValues(aff);
    var us := Unique(aff);
    SortedValuesSorted(aff);
    CountPositions(vs, us[t]);
    BlockEnds(aff);
    if t > 0 {
      NextBlockStart(aff, t - 1);
      CountPositions(vs, us[t - 1]);
    }
  }

  /** Block t covers sorted position q exactly when q holds community t. */
  lemma BlockCovers(aff: seq<int>, t: nat, q: nat)
    requires t < |Unique(aff)| && q < |aff|
    ensures var b := BlockOf(aff, t);
      b.start <= q < b.start + b.size <==> SortedValues(aff)[q] == Unique(aff)[t]
  {
    SortedValuesSorted(aff);
    CountPositions(SortedValues(aff), Unique(aff)[t]);
  }

  /** The blocks `BlockOf(aff, 0), BlockOf(aff, 1), ...`, one per community, make the diagonal layout. */
  lemma LayoutFacts(aff: seq<int>, blocks: seq<Block>)
    requires |blocks| == |Unique(aff)|
    requires forall t :: 0 <= t < |blocks| ==> blocks[t] == BlockOf(aff, t)
    ensures forall t :: 0 <= t < |blocks| ==> blocks[t].size == multiset(aff)[Unique(aff)[t]]
    ensures |blocks| > 0 ==> blocks[0].start == 0
    ensures forall t :: 0 < t < |blocks| ==> blocks[t].start == blocks[t - 1].start + blocks[t - 1].size
    ensures (if |blocks| == 0 then 0 else blocks[|blocks| - 1].start + blocks[|blocks| - 1].size) == |aff|
    ensures forall t, q :: 0 <= t < |blocks| && 0 <= q < |aff| ==>
      (blocks[t].start <= q < blocks[t].start + blocks[t].size <==> SortedValues(aff)[q] == Unique(aff)[t])
  {
    SomeCommunity(aff);
    if |blocks| > 0 {
      BlockChain(aff, |blocks| - 1);
    }
    forall t | 0 <= t < |blocks|
      ensures blocks[t].size == multiset(aff)[Unique(aff)[t]]
      ensures t > 0 ==> blocks[t].start == blocks[t - 1].start + blocks[t - 1].size
      ensures t == 0 ==> blocks[t].start == 0
    {
      BlockSize(aff, t);
      BlockChain(aff, t);
    }
    forall t, q | 0 <= t < |blocks| && 0 <= q < |aff|
      ensures blocks[t].start <= q < blocks[t].start + blocks[t].size <==> SortedValues(aff)[q] == Unique(aff)[t]
    {
      BlockCovers(aff, t, q);
    }
  }

  /**
   * The block loop of lines 92-106: one block per community, ascending,
   * each as large as the community and starting where the previous one
   * ended; the final offset is N, and block t covers exactly the sorted
   * positions holding community t.
   */
  method BlockLayout(aff: seq<int>) returns (blocks: seq<Block>, total: nat)
    ensures |blocks| == |Unique(aff)|
    ensures forall t :: 0 <= t < |blocks| ==> blocks[t].size == multiset(aff)[Unique(aff)[t]]
    ensures |blocks| > 0 ==> blocks[0].start == 0
    ensures forall t :: 0 < t < |blocks| ==> blocks[t].start == blocks[t - 1].start + blocks[t - 1].size
    ensures total == |aff|
    ensures forall t, q :: 0 <= t < |blocks| && 0 <= q < |aff| ==>
      (blocks[t].start <= q < blocks[t].start + blocks[t].size <==> SortedValues(aff)[q] == Unique(aff)[t])
  {
    var communities := Unique(aff);
    var sortedAff := SortedValues(aff);
    blocks := [];
    total := 0;
    for t := 0 to |communities|
      invariant |blocks| == t
      invariant forall k :: 0 <= k < t ==> blocks[k] == BlockOf(aff, k)
      invariant total == if t == 0 then 0 else blocks[t - 1].start + blocks[t - 1].size
    {
      var size := Count(sortedAff, communities[t]);
      BlockChain(aff, t);
      blocks := blocks + [Block(total, size)];
      total := total + size;
    }
    LayoutFacts(aff, blocks);
  }

  // ---------------------------------------------------------------------
  // The squares against the matrix they are drawn over

  /**
   * Over the sorted matrix, every entry inside square t joins two members
   * of community t: the squares frame the communities.
   */
  lemma SortedSquaresMatch(m: seq<seq<real>>, aff: seq<int>, t: nat, i: nat, j: nat)
    requires Square(m) && |aff| <= |m| && t < |Unique(aff)| && i < |aff| && j < |aff|
    requires var b := BlockOf(aff, t); b.start <= i < b.start + b.size && b.start <= j < b.start + b.size
    ensures var r := SortedMatrix(m, aff).value;
      var p := SortingArray(aff);
      && |r| == |aff| && |r[i]| == |aff|
      && r[i][j] == m[p[i]][p[j]]
      && aff[p[i]] == Unique(aff)[t] && aff[p[j]] == Unique(aff)[t]
  {
    SortedMatrixAt(m, aff, i, j);
    BlockCovers(aff, t, i);
    BlockCovers(aff, t, j);
    SortedValuesAt(aff, i);
    SortedValuesAt(aff, j);
  }

  /**
   * The figure as drawn: the squares lie over the unsorted matrix, whose
   * position q shows node q. With affiliations [1, 0] the first square,
   * that of community 0, covers position 0, which shows node 0 of
   * community 1.
   */
  lemma UnsortedDisplayMismatch()
    ensures var aff := [1, 0];
      && |Unique(aff)| == 2
      && BlockOf(aff, 0).start <= 0 < BlockOf(aff, 0).start + BlockOf(aff, 0).size
      && aff[0] != Unique(aff)[0]
  {
    var aff := [1, 0];
    var us := Unique(aff);
    UniqueSpec(aff);
    assert 0 in aff && 1 in aff;
    assert 0 in us && 1 in us;
    assert forall x :: x in us ==> x == 0 || x == 1;
    var a :| 0 <= a < |us| && us[a] == 0;
    var b :| 0 <= b < |us| && us[b] == 1;
    assert a < b;
    assert |us| == 2;
    assert us[0] == 0;
    var vs := SortedValues(aff);
    SortedValuesSorted(aff);
    SortedValuesPermutation(aff);
    assert vs[0] in multiset(aff) && vs[1] in multiset(aff);
    assert vs[0] == 0;
    BlockCovers(aff, 0, 0);
  }
}
