/**
 * The discriminability statistic (`_discr_rdf` and `discr_stat` in
 * pynets/stats/benchmarking.py).
 *
 * For each sample, the rdf values compare the distances to the other
 * samples of its own label with the distances to samples of other labels;
 * the statistic is the mean of the rdf values that reach 0.5. Distances are
 * `real`, and a NaN cell of the numpy result is `None`.
 */
module Discriminability {
  import opened Wrappers

  type Label = string

  /** One cell of an rdf table; `None` is NaN. */
  type Cell = Option<real>

  /** The exceptions the code can raise on its inputs. */
  datatype Error = ValueError(msg: string) | IndexError(msg: string)

  // ---------------------------------------------------------------------
  // Boolean masks and counting

  /** Number of `true` entries of a mask. */
  function TrueCount(mask: seq<bool>): nat
  {
    if mask == [] then 0 else TrueCount(mask[..|mask| - 1]) + (if mask[|mask| - 1] then 1 else 0)
  }

  /** numpy boolean indexing `xs[mask]`: the entries where the mask holds, in order. */
  function Select<T>(xs: seq<T>, mask: seq<bool>): (r: seq<T>)
    requires |xs| == |mask|
    ensures |r| == TrueCount(mask)
  {
    if xs == [] then []
    else Select(xs[..|xs| - 1], mask[..|mask| - 1]) + (if mask[|mask| - 1] then [xs[|xs| - 1]] else [])
  }

  /** The positions where a mask holds, ascending (what `np.ix_` makes of a boolean mask). */
  function TrueIndices(mask: seq<bool>): (r: seq<nat>)
    ensures |r| == TrueCount(mask)
    ensures forall k :: 0 <= k < |r| ==> r[k] < |mask| && mask[r[k]]
  {
    if mask == [] then []
    else TrueIndices(mask[..|mask| - 1]) + (if mask[|mask| - 1] then [|mask| - 1] else [])
  }

  /** Number of occurrences of `l` in `labels`, as `np.unique(..., return_counts=True)` reports it. */
  function Count(labels: seq<Label>, l: Label): nat
  {
    if labels == [] then 0
    else Count(labels[..|labels| - 1], l) + (if labels[|labels| - 1] == l then 1 else 0)
  }

  /** `labels == label`: the mask of the samples sharing a label. */
  function LabelMask(labels: seq<Label>, l: Label): (r: seq<bool>)
    ensures |r| == |labels| && forall j :: 0 <= j < |r| ==> r[j] == (labels[j] == l)
  {
    seq(|labels|, j requires 0 <= j < |labels| => labels[j] == l)
  }

  /** `~mask`. */
  function Negate(mask: seq<bool>): (r: seq<bool>)
    ensures |r| == |mask| && forall j :: 0 <= j < |r| ==> r[j] == !mask[j]
  {
    seq(|mask|, j requires 0 <= j < |mask| => !mask[j])
  }

  /** A label mask selects exactly the occurrences of its label. */
  lemma {:induction false} LabelMaskCount(labels: seq<Label>, l: Label)
    ensures TrueCount(LabelMask(labels, l)) == Count(labels, l)
    ensures TrueCount(Negate(LabelMask(labels, l))) == |labels| - Count(labels, l)
  {
    if labels != [] {
      var init := labels[..|labels| - 1];
      LabelMaskCount(init, l);
      assert LabelMask(labels, l)[..|labels| - 1] == LabelMask(init, l);
      assert Negate(LabelMask(labels, l))[..|labels| - 1] == Negate(LabelMask(init, l));
    }
  }

  /** Clearing one set entry of a mask removes exactly one selected position. */
  lemma {:induction false} ClearOne(mask: seq<bool>, i: nat)
    requires i < |mask| && mask[i]
    ensures TrueCount(mask[i := false]) == TrueCount(mask) - 1
  {
    var n := |mask|;
    if i < n - 1 {
      ClearOne(mask[..n - 1], i);
      assert mask[i := false][..n - 1] == mask[..n - 1][i := false];
    } else {
      assert mask[i := false][..n - 1] == mask[..n - 1];
    }
  }

  // ---------------------------------------------------------------------
  // Removing isolates

  /** `np.isin(Y, uniques[counts != 1])`: keep the samples whose label occurs more than once. */
  function KeepMask(labels: seq<Label>): (r: seq<bool>)
    ensures |r| == |labels| && forall j :: 0 <= j < |r| ==> r[j] == (Count(labels, labels[j]) != 1)
  {
    seq(|labels|, j requires 0 <= j < |labels| => Count(labels, labels[j]) != 1)
  }

  /** Selecting by a mask that holds exactly for the labels in `keep` keeps their every occurrence and drops the rest. */
  lemma {:induction false} SelectByLabelCount(labels: seq<Label>, mask: seq<bool>, keep: set<Label>, l: Label)
    requires |mask| == |labels| && forall j :: 0 <= j < |labels| ==> (mask[j] <==> labels[j] in keep)
    ensures Count(Select(labels, mask), l) == if l in keep then Count(labels, l) else 0
  {
    if labels != [] {
      var n := |labels|;
      SelectByLabelCount(labels[..n - 1], mask[..n - 1], keep, l);
      var prev := Select(labels[..n - 1], mask[..n - 1]);
      if mask[n - 1] {
        assert Select(labels, mask)[..|prev|] == prev;
      } else {
        assert Select(labels, mask) == prev;
      }
    }
  }

  /** A label occurs at least once exactly when it is in the sequence. */
  lemma {:induction false} CountPositive(labels: seq<Label>, l: Label)
    ensures Count(labels, l) > 0 <==> l in labels
  {
    if labels != [] {
      var init := labels[..|labels| - 1];
      CountPositive(init, l);
      assert labels == init + [labels[|labels| - 1]];
    }
  }

  /**
   * Removing isolates drops exactly the labels that occur once and keeps
   * every occurrence of the others, so no label of the result is single.
   */
  lemma RemoveIsolatesSpec(labels: seq<Label>, l: Label)
    ensures Count(Select(labels, KeepMask(labels)), l) == if Count(labels, l) == 1 then 0 else Count(labels, l)
    ensures l in Select(labels, KeepMask(labels)) ==> Count(Select(labels, KeepMask(labels)), l) >= 2
  {
    var keep := set x | x in labels && Count(labels, x) != 1;
    forall j | 0 <= j < |labels|
      ensures KeepMask(labels)[j] <==> labels[j] in keep
    {
    }
    SelectByLabelCount(labels, KeepMask(labels), keep, l);
    CountPositive(labels, l);
    CountPositive(Select(labels, KeepMask(labels)), l);
  }

  // ---------------------------------------------------------------------
  // The rdf of one sample

  /** `(Dij < d).sum()`. */
  function CountBelow(xs: seq<real>, d: real): nat
  {
    if xs == [] then 0 else CountBelow(xs[..|xs| - 1], d) + (if xs[|xs| - 1] < d then 1 else 0)
  }

  /** `(Dij == d).sum()`. */
  function CountEqual(xs: seq<real>, d: real): nat
  {
    if xs == [] then 0 else CountEqual(xs[..|xs| - 1], d) + (if xs[|xs| - 1] == d then 1 else 0)
  }

  /** The numerator of the rdf: smaller distances count fully, ties count half. */
  function Score(xs: seq<real>, d: real): real
  {
    CountBelow(xs, d) as real + 0.5 * CountEqual(xs, d) as real
  }

  /**
   * `1 - ((Dij < d).sum() + 0.5 * (Dij == d).sum()) / Dij.size`; with no
   * sample of another label numpy divides by zero and the value is NaN.
   */
  function RdfValue(others: seq<real>, d: real): (c: Cell)
    ensures c.None? <==> |others| == 0
  {
    if |others| == 0 then None else Some(1.0 - Score(others, d) / |others| as real)
  }

  /** No distance is both below and equal to `d`. */
  lemma {:induction false} CountsBounded(xs: seq<real>, d: real)
    ensures CountBelow(xs, d) + CountEqual(xs, d) <= |xs|
  {
    if xs != [] {
      CountsBounded(xs[..|xs| - 1], d);
    }
  }

  /** No distance counts exactly when every distance exceeds `d`. */
  lemma {:induction false} CountsZero(xs: seq<real>, d: real)
    ensures CountBelow(xs, d) + CountEqual(xs, d) == 0 <==> forall k :: 0 <= k < |xs| ==> d < xs[k]
  {
    if xs != [] {
      var init := xs[..|xs| - 1];
      CountsZero(init, d);
      assert forall k :: 0 <= k < |init| ==> init[k] == xs[k];
    }
  }

  /** Every distance counts as below exactly when every distance is below `d`. */
  lemma {:induction false} CountsAll(xs: seq<real>, d: real)
    ensures CountBelow(xs, d) == |xs| <==> forall k :: 0 <= k < |xs| ==> xs[k] < d
  {
    if xs != [] {
      var init := xs[..|xs| - 1];
      CountsAll(init, d);
      CountsBounded(init, d);
      assert forall k :: 0 <= k < |init| ==> init[k] == xs[k];
    }
  }

  /** The score grows with `d`: a farther same-label sample is beaten by more other-label samples. */
  lemma {:induction false} ScoreMonotone(xs: seq<real>, d1: real, d2: real)
    requires d1 <= d2
    ensures Score(xs, d1) <= Score(xs, d2)
  {
    if xs != [] {
      ScoreMonotone(xs[..|xs| - 1], d1, d2);
    }
  }

  /** A quotient by a positive number keeps bounds scaled by it. */
  lemma QuotientBounds(s: real, n: real, lo: real, hi: real)
    requires n > 0.0 && lo * n <= s <= hi * n
    ensures lo <= s / n <= hi
  {
  }

  /** Every rdf value lies in [0, 1]. */
  lemma RdfValueBounds(others: seq<real>, d: real)
    ensures RdfValue(others, d).Some? ==> 0.0 <= RdfValue(others, d).value <= 1.0
  {
    if |others| > 0 {
      CountsBounded(others, d);
      var n := |others| as real;
      QuotientBounds(Score(others, d), n, 0.0, 1.0);
    }
  }

  /** The rdf value does not increase as the same-label distance grows. */
  lemma RdfValueNonIncreasing(others: seq<real>, d1: real, d2: real)
    requires d1 <= d2 && |others| > 0
    ensures RdfValue(others, d2).value <= RdfValue(others, d1).value
  {
    ScoreMonotone(others, d1, d2);
    var n := |others| as real;
    assert Score(others, d1) / n <= Score(others, d2) / n;
  }

  /** The value is 1 exactly when every other-label distance exceeds `d`, and 0 exactly when every one is below it. */
  lemma RdfValueExtremes(others: seq<real>, d: real)
    requires |others| > 0
    ensures RdfValue(others, d) == Some(1.0) <==> forall k :: 0 <= k < |others| ==> d < others[k]
    ensures RdfValue(others, d) == Some(0.0) <==> forall k :: 0 <= k < |others| ==> others[k] < d
  {
    CountsBounded(others, d);
    CountsZero(others, d);
    CountsAll(others, d);
    var n := |others| as real;
    var s := Score(others, d);
    assert RdfValue(others, d) == Some(1.0) <==> s / n == 0.0;
    assert RdfValue(others, d) == Some(0.0) <==> s / n == 1.0;
    assert s / n == 0.0 <==> s == 0.0;
    assert s / n == 1.0 <==> s == n;
  }

  /**
   * The rdf of sample `i`: one value per other sample of its label, in
   * sample order, each measured against the distances to every sample of
   * another label.
   */
  function RdfRow(row: seq<real>, labels: seq<Label>, i: nat): (r: seq<Cell>)
    requires i < |labels| && |row| == |labels|
  {
    var same := LabelMask(labels, labels[i]);
    var dij := Select(row, Negate(same));
    var dii := Select(row, same[i := false]);
    seq(|dii|, k requires 0 <= k < |dii| => RdfValue(dij, dii[k]))
  }

  /** Row `i` has one value per other sample of `i`'s label. */
  lemma RdfRowLength(row: seq<real>, labels: seq<Label>, i: nat)
    requires i < |labels| && |row| == |labels|
    ensures |RdfRow(row, labels, i)| == Count(labels, labels[i]) - 1
  {
    LabelMaskCount(labels, labels[i]);
    ClearOne(LabelMask(labels, labels[i]), i);
  }

  /** Every value of a row lies in [0, 1]; all are NaN exactly when no sample has another label. */
  lemma RdfRowValues(row: seq<real>, labels: seq<Label>, i: nat)
    requires i < |labels| && |row| == |labels|
    ensures forall c :: c in RdfRow(row, labels, i) ==> c.Some? ==> 0.0 <= c.value <= 1.0
    ensures forall c :: c in RdfRow(row, labels, i) ==> (c.None? <==> Count(labels, labels[i]) == |labels|)
  {
    var same := LabelMask(labels, labels[i]);
    var dij := Select(row, Negate(same));
    LabelMaskCount(labels, labels[i]);
    forall c | c in RdfRow(row, labels, i)
      ensures c.Some? ==> 0.0 <= c.value <= 1.0
    {
      var k :| 0 <= k < |RdfRow(row, labels, i)| && RdfRow(row, labels, i)[k] == c;
      RdfValueBounds(dij, Select(row, same[i := false])[k]);
    }
  }

  // ---------------------------------------------------------------------
  // The rdf table

  /** A dissimilarity matrix with one row per label, every row as long as the label vector. */
  predicate Shaped(dis: seq<seq<real>>, labels: seq<Label>) {
    |dis| == |labels| && forall i :: 0 <= i < |dis| ==> |dis[i]| == |labels|
  }

  /** The rows `rdfs` collects, one per sample. */
  function RdfRows(dis: seq<seq<real>>, labels: seq<Label>): (r: seq<seq<Cell>>)
    requires Shaped(dis, labels)
    ensures |r| == |labels|
  {
    seq(|labels|, i requires 0 <= i < |labels| => RdfRow(dis[i], labels, i))
  }

  /** `max(map(len, rows))`. */
  function MaxLen(rows: seq<seq<Cell>>): (w: nat)
    requires |rows| > 0
    ensures forall i :: 0 <= i < |rows| ==> |rows[i]| <= w
    ensures exists i :: 0 <= i < |rows| && |rows[i]| == w
  {
    if |rows| == 1 then |rows[0]|
    else
      var w0 := MaxLen(rows[..|rows| - 1]);
      var last := |rows[|rows| - 1]|;
      assert forall i :: 0 <= i < |rows| - 1 ==> rows[i] == rows[..|rows| - 1][i];
      if last > w0 then last else w0
  }

  /** `out[i, :len(rdf)] = rdf` on a NaN-filled row of width `w`. */
  function Pad(row: seq<Cell>, w: nat): (r: seq<Cell>)
    requires |row| <= w
    ensures |r| == w && r[..|row|] == row && forall j :: |row| <= j < w ==> r[j].None?
  {
    row + seq(w - |row|, _ => None)
  }

  /** Every row padded to width `w`. */
  function PadAll(rows: seq<seq<Cell>>, w: nat): (t: seq<seq<Cell>>)
    requires forall i :: 0 <= i < |rows| ==> |rows[i]| <= w
    ensures |t| == |rows| && forall i :: 0 <= i < |t| ==> t[i] == Pad(rows[i], w)
  {
    seq(|rows|, i requires 0 <= i < |rows| => Pad(rows[i], w))
  }

  /** The table `_discr_rdf` returns: every row padded with NaN to the longest one. */
  function RdfTable(dis: seq<seq<real>>, labels: seq<Label>): (t: seq<seq<Cell>>)
    requires Shaped(dis, labels) && |labels| > 0
    ensures |t| == |labels|
  {
    var rows := RdfRows(dis, labels);
    PadAll(rows, MaxLen(rows))
  }

  /** Row `i` of the collected rows has one value per other sample of `i`'s label. */
  lemma RdfRowsLengths(dis: seq<seq<real>>, labels: seq<Label>)
    requires Shaped(dis, labels)
    ensures forall i :: 0 <= i < |labels| ==> |RdfRows(dis, labels)[i]| == Count(labels, labels[i]) - 1
  {
    forall i | 0 <= i < |labels|
      ensures |RdfRows(dis, labels)[i]| == Count(labels, labels[i]) - 1
    {
      RdfRowLength(dis[i], labels, i);
    }
  }

  /** The table has one row per sample, and its width is one less than the largest label group. */
  lemma RdfTableShape(dis: seq<seq<real>>, labels: seq<Label>)
    requires Shaped(dis, labels) && |labels| > 0
    ensures |RdfTable(dis, labels)| == |labels|
    ensures forall i :: 0 <= i < |labels| ==> |RdfTable(dis, labels)[i]| == |RdfTable(dis, labels)[0]|
    ensures forall i :: 0 <= i < |labels| ==> Count(labels, labels[i]) - 1 <= |RdfTable(dis, labels)[0]|
    ensures exists i :: 0 <= i < |labels| && Count(labels, labels[i]) - 1 == |RdfTable(dis, labels)[0]|
  {
    RdfRowsLengths(dis, labels);
  }

  /**
   * Cell `(i, j)` of the table is the `j`-th rdf value of sample `i` while
   * `j` is below the number of other samples of its label, NaN after; a
   * present cell lies in [0, 1].
   */
  lemma RdfTableCell(dis: seq<seq<real>>, labels: seq<Label>, i: nat, j: nat)
    requires Shaped(dis, labels) && |labels| > 0
    requires i < |RdfTable(dis, labels)| && j < |RdfTable(dis, labels)[i]|
    ensures |RdfRow(dis[i], labels, i)| == Count(labels, labels[i]) - 1
    ensures j < Count(labels, labels[i]) - 1 ==> RdfTable(dis, labels)[i][j] == RdfRow(dis[i], labels, i)[j]
    ensures j >= Count(labels, labels[i]) - 1 ==> RdfTable(dis, labels)[i][j].None?
    ensures RdfTable(dis, labels)[i][j].Some? ==> 0.0 <= RdfTable(dis, labels)[i][j].value <= 1.0
  {
    var row := RdfRow(dis[i], labels, i);
    RdfRowLength(dis[i], labels, i);
    if j < |row| {
      RdfRowValues(dis[i], labels, i);
      assert row[j] in row;
    }
  }

  /** The cells of a two-dimensional array, row by row. */
  function Cells(a: array2<Cell>): (t: seq<seq<Cell>>)
    reads a
    ensures |t| == a.Length0 && forall i :: 0 <= i < |t| ==> |t[i]| == a.Length1
  {
    seq(a.Length0, i requires 0 <= i < a.Length0 reads a =>
      seq(a.Length1, j requires 0 <= j < a.Length1 reads a => a[i, j]))
  }

  /** An array whose every cell agrees with a table of its shape holds that table. */
  lemma CellsAre(a: array2<Cell>, t: seq<seq<Cell>>)
    requires |t| == a.Length0 && forall i :: 0 <= i < |t| ==> |t[i]| == a.Length1
    requires forall i, j :: 0 <= i < a.Length0 && 0 <= j < a.Length1 ==> a[i, j] == t[i][j]
    ensures Cells(a) == t
  {
    forall i | 0 <= i < |t|
      ensures Cells(a)[i] == t[i]
    {
    }
  }

  /** `np.full((len(rows), w), np.nan)` with every row copied to its start. */
  method PaddedArray(rows: seq<seq<Cell>>, w: nat) returns (out: array2<Cell>)
    requires forall i :: 0 <= i < |rows| ==> |rows[i]| <= w
    ensures fresh(out) && Cells(out) == PadAll(rows, w)
  {
    out := new Cell[|rows|, w]((_, _) => None);
    var i := 0;
    while i < |rows|
      invariant 0 <= i <= |rows|
      invariant forall a, b :: 0 <= a < |rows| && 0 <= b < w ==>
        out[a, b] == if a < i then Pad(rows[a], w)[b] else None
    {
      var j := 0;
      while j < |rows[i]|
        invariant 0 <= j <= |rows[i]|
        invariant forall a, b :: 0 <= a < |rows| && 0 <= b < w ==>
          out[a, b] == if a < i || (a == i && b < j) then Pad(rows[a], w)[b] else None
      {
        out[i, j] := rows[i][j];
        j := j + 1;
      }
      i := i + 1;
    }
    CellsAre(out, PadAll(rows, w));
  }

  /** The loop of `_discr_rdf` that appends one rdf row per sample. */
  method CollectRows(dis: seq<seq<real>>, labels: seq<Label>) returns (rdfs: seq<seq<Cell>>)
    requires Shaped(dis, labels)
    ensures rdfs == RdfRows(dis, labels)
  {
    rdfs := [];
    var i := 0;
    while i < |labels|
      invariant 0 <= i <= |labels| && |rdfs| == i
      invariant forall k :: 0 <= k < i ==> rdfs[k] == RdfRow(dis[k], labels, k)
    {
      rdfs := rdfs + [RdfRow(dis[i], labels, i)];
      i := i + 1;
    }
  }

  /** Every row of a matrix has the same length. */
  predicate Rectangular(m: seq<seq<real>>) {
    forall i :: 0 <= i < |m| ==> |m[i]| == |m[0]|
  }

  /**
   * `check_X_y(X, y)`: ValueError unless there are as many rows as labels,
   * at least one sample and at least one feature.
   */
  function CheckXY(m: seq<seq<real>>, labels: seq<Label>): (e: Option<Error>)
    ensures e.None? <==> |m| == |labels| && |labels| > 0 && |m[0]| > 0
    ensures e.Some? ==> e.value.ValueError?
  {
    if |m| != |labels| then Some(ValueError("Found input variables with inconsistent numbers of samples"))
    else if |labels| == 0 then Some(ValueError("Found array with 0 sample(s)"))
    else if |m[0]| == 0 then Some(ValueError("Found array with 0 feature(s)"))
    else None
  }

  /** The exception `_discr_rdf` raises on ill-shaped input, if any. */
  function RdfError(dis: seq<seq<real>>, labels: seq<Label>): (e: Option<Error>)
    requires Rectangular(dis)
    ensures e.None? <==> Shaped(dis, labels) && |labels| > 0
  {
    if CheckXY(dis, labels).Some? then CheckXY(dis, labels)
    else if |dis[0]| != |labels| then Some(IndexError("boolean index did not match indexed array"))
    else None
  }

  /**
   * `_discr_rdf(dissimilarities, labels)`: ValueError when the numbers of
   * rows and labels differ or there is no sample or no column, IndexError
   * when the rows are not as long as the label vector; otherwise the padded
   * rdf table, in a new array.
   */
  method DiscrRdf(dis: seq<seq<real>>, labels: seq<Label>) returns (res: Result<array2<Cell>, Error>)
    requires Rectangular(dis)
    ensures RdfError(dis, labels).Some? ==> res == Failure(RdfError(dis, labels).value)
    ensures RdfError(dis, labels).None? ==>
      && res.Success? && fresh(res.value)
      && Cells(res.value) == RdfTable(dis, labels)
  {
    var err := RdfError(dis, labels);
    if err.Some? {
      return Failure(err.value);
    }
    var rdfs := CollectRows(dis, labels);
    var out := PaddedArray(rdfs, MaxLen(rdfs));
    res := Success(out);
  }

  // ---------------------------------------------------------------------
  // The statistic

  /** `rdfs[rdfs < 0.5] = np.nan` on one cell. */
  function MaskCell(c: Cell): Cell {
    if c.Some? && c.value < 0.5 then None else c
  }

  /** The table after masking. */
  function Masked(t: seq<seq<Cell>>): (r: seq<seq<Cell>>)
    ensures |r| == |t| && forall i :: 0 <= i < |t| ==> |r[i]| == |t[i]|
  {
    seq(|t|, i requires 0 <= i < |t| => seq(|t[i]|, j requires 0 <= j < |t[i]| => MaskCell(t[i][j])))
  }

  /** Sum and number of the non-NaN cells of a row. */
  function RowSum(row: seq<Cell>): real {
    if row == [] then 0.0
    else RowSum(row[..|row| - 1]) + (if row[|row| - 1].Some? then row[|row| - 1].value else 0.0)
  }

  function RowCount(row: seq<Cell>): nat {
    if row == [] then 0 else RowCount(row[..|row| - 1]) + (if row[|row| - 1].Some? then 1 else 0)
  }

  /** Sum and number of the non-NaN cells of a table. */
  function TableSum(t: seq<seq<Cell>>): real {
    if t == [] then 0.0 else TableSum(t[..|t| - 1]) + RowSum(t[|t| - 1])
  }

  function TableCount(t: seq<seq<Cell>>): nat {
    if t == [] then 0 else TableCount(t[..|t| - 1]) + RowCount(t[|t| - 1])
  }

  /** `np.nanmean`: the mean of the non-NaN cells, NaN when there are none. */
  function NanMean(t: seq<seq<Cell>>): (c: Cell)
    ensures c.None? <==> forall i, j :: 0 <= i < |t| && 0 <= j < |t[i]| ==> t[i][j].None?
  {
    TableCountZero(t);
    if TableCount(t) == 0 then None else Some(TableSum(t) / TableCount(t) as real)
  }

  /** Present cells in [0.5, 1] bound a row's sum by its count. */
  lemma {:induction false} RowSumBounds(row: seq<Cell>)
    requires forall j :: 0 <= j < |row| && row[j].Some? ==> 0.5 <= row[j].value <= 1.0
    ensures 0.5 * RowCount(row) as real <= RowSum(row) <= RowCount(row) as real
  {
    if row != [] {
      RowSumBounds(row[..|row| - 1]);
    }
  }

  /** Present cells in [0.5, 1] bound a table's sum by its count. */
  lemma {:induction false} TableSumBounds(t: seq<seq<Cell>>)
    requires forall i, j :: 0 <= i < |t| && 0 <= j < |t[i]| && t[i][j].Some? ==> 0.5 <= t[i][j].value <= 1.0
    ensures 0.5 * TableCount(t) as real <= TableSum(t) <= TableCount(t) as real
  {
    if t != [] {
      TableSumBounds(t[..|t| - 1]);
      RowSumBounds(t[|t| - 1]);
    }
  }

  /** A row's count is zero exactly when every cell is NaN. */
  lemma {:induction false} RowCountZero(row: seq<Cell>)
    ensures RowCount(row) == 0 <==> forall j :: 0 <= j < |row| ==> row[j].None?
  {
    if row != [] {
      RowCountZero(row[..|row| - 1]);
    }
  }

  /** A table's count is zero exactly when every cell is NaN. */
  lemma {:induction false} TableCountZero(t: seq<seq<Cell>>)
    ensures TableCount(t) == 0 <==> forall i, j :: 0 <= i < |t| && 0 <= j < |t[i]| ==> t[i][j].None?
  {
    if t != [] {
      TableCountZero(t[..|t| - 1]);
      RowCountZero(t[|t| - 1]);
    }
  }

  /** Masking leaves present only the rdf values in [0.5, 1]. */
  lemma MaskedCells(dis: seq<seq<real>>, labels: seq<Label>)
    requires Shaped(dis, labels) && |labels| > 0
    ensures var m := Masked(RdfTable(dis, labels));
      forall i, j :: 0 <= i < |m| && 0 <= j < |m[i]| && m[i][j].Some? ==> 0.5 <= m[i][j].value <= 1.0
  {
    var t: seq<seq<Cell>> := RdfTable(dis, labels);
    forall i: int, j: int | 0 <= i < |t| && 0 <= j < |t[i]|
      ensures t[i][j].Some? ==> 0.0 <= t[i][j].value <= 1.0
    {
      RdfTableCell(dis, labels, i, j);
    }
    MaskedBounds(t);
  }

  /** Masking a table of values in [0, 1] leaves present only values in [0.5, 1]. */
  lemma MaskedBounds(t: seq<seq<Cell>>)
    requires forall i, j :: 0 <= i < |t| && 0 <= j < |t[i]| && t[i][j].Some? ==> 0.0 <= t[i][j].value <= 1.0
    ensures var m := Masked(t);
      forall i, j :: 0 <= i < |m| && 0 <= j < |m[i]| && m[i][j].Some? ==> 0.5 <= m[i][j].value <= 1.0
  {
  }

  /**
   * The mean of a table whose present cells lie in [0.5, 1] lies there too,
   * and is NaN exactly when every cell is.
   */
  lemma NanMeanBounds(m: seq<seq<Cell>>)
    requires forall i, j :: 0 <= i < |m| && 0 <= j < |m[i]| && m[i][j].Some? ==> 0.5 <= m[i][j].value <= 1.0
    ensures NanMean(m).Some? ==> 0.5 <= NanMean(m).value <= 1.0
    ensures NanMean(m).None? <==> forall i, j :: 0 <= i < |m| && 0 <= j < |m[i]| ==> m[i][j].None?
  {
    TableSumBounds(m);
    TableCountZero(m);
    if TableCount(m) > 0 {
      QuotientBounds(TableSum(m), TableCount(m) as real, 0.5, 1.0);
    }
  }

  /**
   * The statistic of an rdf table lies in [0.5, 1] when any value survives
   * the masking, and is NaN exactly when every masked cell is NaN, that is,
   * exactly when no rdf value reaches 0.5.
   */
  lemma StatisticSpec(dis: seq<seq<real>>, labels: seq<Label>)
    requires Shaped(dis, labels) && |labels| > 0
    ensures var m := Masked(RdfTable(dis, labels));
      && (NanMean(m).Some? ==> 0.5 <= NanMean(m).value <= 1.0)
      && (NanMean(m).None? <==> forall i, j :: 0 <= i < |m| && 0 <= j < |m[i]| ==> m[i][j].None?)
    ensures var t := RdfTable(dis, labels);
      NanMean(Masked(t)).None? <==>
        forall i, j :: 0 <= i < |t| && 0 <= j < |t[i]| && t[i][j].Some? ==> t[i][j].value < 0.5
  {
    MaskedCells(dis, labels);
    NanMeanBounds(Masked(RdfTable(dis, labels)));
    MaskedAllNaN(RdfTable(dis, labels));
  }

  /** Masking leaves only NaN exactly when no value reaches 0.5. */
  lemma MaskedAllNaN(t: seq<seq<Cell>>)
    ensures var m := Masked(t);
      (forall i, j :: 0 <= i < |m| && 0 <= j < |m[i]| ==> m[i][j].None?) <==>
      (forall i, j :: 0 <= i < |t| && 0 <= j < |t[i]| && t[i][j].Some? ==> t[i][j].value < 0.5)
  {
    var m: seq<seq<Cell>> := Masked(t);
    forall i: int, j: int | 0 <= i < |t| && 0 <= j < |t[i]|
      ensures m[i][j].None? <==> (t[i][j].Some? ==> t[i][j].value < 0.5)
    {
      assert m[i][j] == MaskCell(t[i][j]);
    }
  }

  /** `rdfs[rdfs < 0.5] = np.nan`, in place. */
  method MaskBelowHalf(out: array2<Cell>)
    modifies out
    ensures Cells(out) == Masked(old(Cells(out)))
  {
    ghost var before := Cells(out);
    var i := 0;
    while i < out.Length0
      invariant 0 <= i <= out.Length0
      invariant forall a, b :: 0 <= a < out.Length0 && 0 <= b < out.Length1 ==>
        out[a, b] == if a < i then MaskCell(before[a][b]) else before[a][b]
    {
      var j := 0;
      while j < out.Length1
        invariant 0 <= j <= out.Length1
        invariant forall a, b :: 0 <= a < out.Length0 && 0 <= b < out.Length1 ==>
          out[a, b] == if a < i || (a == i && b < j) then MaskCell(before[a][b]) else before[a][b]
      {
        if out[i, j].Some? && out[i, j].value < 0.5 {
          out[i, j] := None;
        }
        j := j + 1;
      }
      i := i + 1;
    }
    CellsAre(out, Masked(before));
  }

  /** `np.nanmean(rdfs)`. */
  method NanMeanOf(out: array2<Cell>) returns (stat: Cell)
    ensures stat == NanMean(Cells(out))
  {
    ghost var t := Cells(out);
    var total, count := 0.0, 0;
    var i := 0;
    while i < out.Length0
      invariant 0 <= i <= out.Length0
      invariant total == TableSum(t[..i]) && count == TableCount(t[..i])
    {
      var j := 0;
      while j < out.Length1
        invariant 0 <= j <= out.Length1
        invariant total == TableSum(t[..i]) + RowSum(t[i][..j])
        invariant count == TableCount(t[..i]) + RowCount(t[i][..j])
      {
        assert t[i][..j + 1][..j] == t[i][..j];
        if out[i, j].Some? {
          total := total + out[i, j].value;
          count := count + 1;
        }
        j := j + 1;
      }
      assert t[i][..j] == t[i];
      assert t[..i + 1][..i] == t[..i];
      i := i + 1;
    }
    assert t[..i] == t;
    stat := if count == 0 then None else Some(total / count as real);
  }

  // ---------------------------------------------------------------------
  // discr_stat

  /** The dissimilarities computed with a pairwise distance function. */
  predicate ComputesDistances(name: string) {
    name == "euclidean" || name == "cosine" || name == "haversine" || name == "manhattan"
  }

  /** The dissimilarities under which isolates are removed from the rows only. */
  predicate RowsOnly(name: string) {
    ComputesDistances(name) || name == "mahalanobis"
  }

  /**
   * A pairwise distance: `metric(name, x, y)` stands for the distance
   * between feature rows `x` and `y` that scikit-learn's function of that
   * name computes.
   */
  type Metric = (string, seq<real>, seq<real>) -> real

  /** `euclidean_distances(X)` and its siblings: the square matrix of row-to-row distances. */
  function Pairwise(metric: Metric, name: string, m: seq<seq<real>>): (d: seq<seq<real>>)
    ensures |d| == |m| && forall i :: 0 <= i < |d| ==> |d[i]| == |m|
    ensures forall i, j :: 0 <= i < |m| && 0 <= j < |m| ==> d[i][j] == metric(name, m[i], m[j])
  {
    seq(|m|, i requires 0 <= i < |m| => seq(|m|, j requires 0 <= j < |m| => metric(name, m[i], m[j])))
  }

  /** Selecting rows keeps their width. */
  lemma {:induction false} SelectRows(m: seq<seq<real>>, mask: seq<bool>, w: nat)
    requires |mask| == |m| && forall i :: 0 <= i < |m| ==> |m[i]| == w
    ensures forall i :: 0 <= i < |Select(m, mask)| ==> |Select(m, mask)[i]| == w
  {
    if m != [] {
      SelectRows(m[..|m| - 1], mask[..|mask| - 1], w);
    }
  }

  /** `X[np.ix_(idx, idx)]`: the rows and columns at the given positions, IndexError past the last column. */
  function SubMatrix(m: seq<seq<real>>, idx: seq<nat>): (r: Result<seq<seq<real>>, Error>)
    requires |m| > 0 && Rectangular(m) && forall k :: 0 <= k < |idx| ==> idx[k] < |m|
    ensures r.Failure? <==> exists k :: 0 <= k < |idx| && idx[k] >= |m[0]|
    ensures r.Success? ==> |r.value| == |idx| && forall a :: 0 <= a < |idx| ==> |r.value[a]| == |idx|
    ensures r.Success? ==> forall a, b :: 0 <= a < |idx| && 0 <= b < |idx| ==> r.value[a][b] == m[idx[a]][idx[b]]
  {
    if exists k :: 0 <= k < |idx| && idx[k] >= |m[0]| then Failure(IndexError("index is out of bounds"))
    else
      Success(seq(|idx|, a requires 0 <= a < |idx| => seq(|idx|, b requires 0 <= b < |idx| => m[idx[a]][idx[b]])))
  }

  /** The labels `discr_stat` keeps. */
  function KeptLabels(labels: seq<Label>, removeIsolates: bool): seq<Label> {
    if removeIsolates then Select(labels, KeepMask(labels)) else labels
  }

  /**
   * The rows (and, for a precomputed matrix, the columns) `discr_stat`
   * keeps: all of them, or those of the samples whose label is not single.
   */
  function KeptRows(m: seq<seq<real>>, labels: seq<Label>, name: string, removeIsolates: bool)
    : (r: Result<seq<seq<real>>, Error>)
    requires Rectangular(m) && CheckXY(m, labels).None?
    ensures r.Success? ==> Rectangular(r.value)
  {
    if !removeIsolates then Success(m)
    else if RowsOnly(name) then
      SelectRows(m, KeepMask(labels), |m[0]|);
      Success(Select(m, KeepMask(labels)))
    else
      SubMatrix(m, TrueIndices(KeepMask(labels)))
  }

  /** The matrix handed to `_discr_rdf`: pairwise distances for a computed dissimilarity, the kept input otherwise. */
  function Dissimilarities(metric: Metric, name: string, rows: seq<seq<real>>): (d: seq<seq<real>>)
    requires Rectangular(rows)
    ensures Rectangular(d)
  {
    if ComputesDistances(name) then
      Pairwise(metric, name, rows)
    else rows
  }

  /**
   * Everything `discr_stat` does before `_discr_rdf`: the input check, the
   * removal of isolates and the choice of dissimilarities. The result is
   * the dissimilarity matrix and the labels passed on.
   */
  function Prepare(m: seq<seq<real>>, labels: seq<Label>, name: string, removeIsolates: bool, metric: Metric)
    : (r: Result<(seq<seq<real>>, seq<Label>), Error>)
    requires Rectangular(m)
    ensures r.Success? ==> Rectangular(r.value.0) && r.value.1 == KeptLabels(labels, removeIsolates)
  {
    if CheckXY(m, labels).Some? then Failure(CheckXY(m, labels).value)
    else
      var rows := KeptRows(m, labels, name, removeIsolates);
      if rows.Failure? then Failure(rows.error)
      else Success((Dissimilarities(metric, name, rows.value), KeptLabels(labels, removeIsolates)))
  }

  /** What `discr_stat` returns: the statistic, and the rdf table when asked for. */
  datatype DiscrOutput = StatOnly(stat: Cell) | StatAndRdfs(stat: Cell, rdfs: array2<Cell>)

  /** The statistic and the masked rdf table `discr_stat` computes, or the exception it raises. */
  function DiscrResult(m: seq<seq<real>>, labels: seq<Label>, name: string, removeIsolates: bool, metric: Metric)
    : (r: Result<(Cell, seq<seq<Cell>>), Error>)
    requires Rectangular(m)
    ensures r.Success? ==> |r.value.1| == |KeptLabels(labels, removeIsolates)| > 0
  {
    var p := Prepare(m, labels, name, removeIsolates, metric);
    if p.Failure? then Failure(p.error)
    else if RdfError(p.value.0, p.value.1).Some? then Failure(RdfError(p.value.0, p.value.1).value)
    else
      var t := Masked(RdfTable(p.value.0, p.value.1));
      Success((NanMean(t), t))
  }

  /**
   * Whenever `discr_stat` returns, its statistic lies in [0.5, 1] unless
   * no rdf value reaches 0.5, when it is NaN; the returned table holds no
   * value below 0.5.
   */
  lemma DiscrResultBounds(m: seq<seq<real>>, labels: seq<Label>, name: string, removeIsolates: bool, metric: Metric)
    requires Rectangular(m)
    ensures var r := DiscrResult(m, labels, name, removeIsolates, metric);
      r.Success? ==>
        var (stat, t) := r.value;
        && (stat.Some? ==> 0.5 <= stat.value <= 1.0)
        && (stat.None? <==> forall i, j :: 0 <= i < |t| && 0 <= j < |t[i]| ==> t[i][j].None?)
        && (forall i, j :: 0 <= i < |t| && 0 <= j < |t[i]| && t[i][j].Some? ==> 0.5 <= t[i][j].value <= 1.0)
  {
    var p := Prepare(m, labels, name, removeIsolates, metric);
    if p.Success? && RdfError(p.value.0, p.value.1).None? {
      StatisticSpec(p.value.0, p.value.1);
      MaskedCells(p.value.0, p.value.1);
    }
  }

  /**
   * `discr_stat(X, Y, dissimilarity, remove_isolates, return_rdfs)`, with
   * the defaults of its signature; the distance function is the third
   * parameter, before the defaulted ones, because it has no default.
   */
  method DiscrStat(m: seq<seq<real>>, labels: seq<Label>, metric: Metric, name: string := "euclidean",
                   removeIsolates: bool := true, returnRdfs: bool := true)
    returns (res: Result<DiscrOutput, Error>)
    requires Rectangular(m)
    ensures var spec := DiscrResult(m, labels, name, removeIsolates, metric);
      && (spec.Failure? ==> res == Failure(spec.error))
      && (spec.Success? ==>
            && res.Success? && res.value.stat == spec.value.0
            && res.value.StatAndRdfs? == returnRdfs
            && (returnRdfs ==> Cells(res.value.rdfs) == spec.value.1))
  {
    var p := Prepare(m, labels, name, removeIsolates, metric);
    if p.Failure? {
      return Failure(p.error);
    }
    var (dis, kept) := p.value;
    var r := DiscrRdf(dis, kept);
    if r.Failure? {
      return Failure(r.error);
    }
    var out := Finish(r.value, returnRdfs);
    res := Success(out);
  }

  /** The end of `discr_stat`: mask the rdf table in place, average it, and return what was asked for. */
  method Finish(rdfs: array2<Cell>, returnRdfs: bool) returns (out: DiscrOutput)
    modifies rdfs
    ensures Cells(rdfs) == Masked(old(Cells(rdfs)))
    ensures out.stat == NanMean(Cells(rdfs)) && out.StatAndRdfs? == returnRdfs
    ensures out.StatAndRdfs? ==> out.rdfs == rdfs
  {
    MaskBelowHalf(rdfs);
    var stat := NanMeanOf(rdfs);
    if returnRdfs {
      out := StatAndRdfs(stat, rdfs);
    } else {
      out := StatOnly(stat);
    }
  }

  /** Boolean indexing picks, at position a, the entry at the a-th true index. */
  lemma {:induction false} SelectAt<T>(xs: seq<T>, mask: seq<bool>)
    requires |xs| == |mask|
    ensures forall a :: 0 <= a < |Select(xs, mask)| ==> Select(xs, mask)[a] == xs[TrueIndices(mask)[a]]
  {
    if xs != [] {
      SelectAt(xs[..|xs| - 1], mask[..|mask| - 1]);
    }
  }

  /** The true indices of a mask are strictly increasing. */
  lemma {:induction false} TrueIndicesIncreasing(mask: seq<bool>)
    ensures var r := TrueIndices(mask);
      forall a, b :: 0 <= a < b < |r| ==> r[a] < r[b]
  {
    if mask != [] {
      var front := mask[..|mask| - 1];
      TrueIndicesIncreasing(front);
      assert forall k :: 0 <= k < |TrueIndices(front)| ==> TrueIndices(front)[k] < |front|;
    }
  }

  /**
   * For any dissimilarity name other than the five with a row-wise
   * treatment, the input is taken as a precomputed matrix: removing
   * isolates keeps the rows and the columns at the same kept positions,
   * in increasing order, and row a then belongs to the a-th kept label;
   * otherwise the matrix and labels pass unchanged.
   */
  lemma PrecomputedKept(m: seq<seq<real>>, labels: seq<Label>, name: string, removeIsolates: bool, metric: Metric)
    requires Rectangular(m) && !RowsOnly(name)
    ensures var p := Prepare(m, labels, name, removeIsolates, metric);
      var idx := TrueIndices(KeepMask(labels));
      p.Success? ==>
        var (d, kept) := p.value;
        && (!removeIsolates ==> d == m && kept == labels)
        && (removeIsolates ==>
              && |d| == |idx| == |kept|
              && (forall a :: 0 <= a < |idx| ==> |d[a]| == |idx| && kept[a] == labels[idx[a]])
              && (forall a, b :: 0 <= a < |idx| && 0 <= b < |idx| ==> d[a][b] == m[idx[a]][idx[b]])
              && (forall a, b :: 0 <= a < b < |idx| ==> idx[a] < idx[b]))
  {
    var p := Prepare(m, labels, name, removeIsolates, metric);
    if p.Success? {
      assert !ComputesDistances(name);
      SelectAt(labels, KeepMask(labels));
      TrueIndicesIncreasing(KeepMask(labels));
    }
  }

  /** Every set position of a mask is among its true indices. */
  lemma {:induction false} TrueIndicesComplete(mask: seq<bool>, j: nat)
    requires j < |mask| && mask[j]
    ensures j in TrueIndices(mask)
  {
    if j < |mask| - 1 {
      TrueIndicesComplete(mask[..|mask| - 1], j);
    }
  }

  /** A mask selects nothing exactly when it holds nowhere. */
  lemma {:induction false} TrueCountZero(mask: seq<bool>)
    ensures TrueCount(mask) == 0 <==> forall j :: 0 <= j < |mask| ==> !mask[j]
  {
    if mask != [] {
      TrueCountZero(mask[..|mask| - 1]);
    }
  }

  /** Removing isolates leaves no label exactly when every label occurs once. */
  lemma KeptLabelsEmpty(labels: seq<Label>, removeIsolates: bool)
    ensures |KeptLabels(labels, removeIsolates)| == 0 <==>
      if removeIsolates then forall j :: 0 <= j < |labels| ==> Count(labels, labels[j]) == 1 else labels == []
  {
    TrueCountZero(KeepMask(labels));
  }

  /**
   * `discr_stat` raises before `_discr_rdf` exactly when the input check
   * fails, or when isolates are removed from a precomputed matrix that has
   * no column at the position of some kept sample.
   */
  lemma PrepareFailure(m: seq<seq<real>>, labels: seq<Label>, name: string, removeIsolates: bool, metric: Metric)
    requires Rectangular(m)
    ensures Prepare(m, labels, name, removeIsolates, metric).Failure? <==>
      || CheckXY(m, labels).Some?
      || (removeIsolates && !RowsOnly(name)
          && exists j :: 0 <= j < |labels| && Count(labels, labels[j]) != 1 && j >= |m[0]|)
  {
    if CheckXY(m, labels).None? {
      if !removeIsolates || RowsOnly(name) {
        KeptRowsOnly(m, labels, name, removeIsolates);
      } else {
        var keep := KeepMask(labels);
        var idx := TrueIndices(keep);
        assert KeptRows(m, labels, name, removeIsolates) == SubMatrix(m, idx);
        var late := exists j :: 0 <= j < |labels| && Count(labels, labels[j]) != 1 && j >= |m[0]|;
        if late {
          var j :| 0 <= j < |labels| && Count(labels, labels[j]) != 1 && j >= |m[0]|;
          TrueIndicesComplete(keep, j);
          assert SubMatrix(m, idx).Failure?;
        } else {
          assert forall k :: 0 <= k < |idx| ==> idx[k] < |m[0]|;
          assert SubMatrix(m, idx).Success?;
        }
      }
    }
  }

  /** The rows kept when isolates are removed from the rows only, or not removed. */
  lemma KeptRowsOnly(m: seq<seq<real>>, labels: seq<Label>, name: string, removeIsolates: bool)
    requires Rectangular(m) && CheckXY(m, labels).None? && (!removeIsolates || RowsOnly(name))
    ensures KeptRows(m, labels, name, removeIsolates) == Success(if removeIsolates then Select(m, KeepMask(labels)) else m)
    ensures |KeptRows(m, labels, name, removeIsolates).value| == |KeptLabels(labels, removeIsolates)|
  {
  }

  /**
   * With a computed distance the input check is the only failure before
   * `_discr_rdf`, and the matrix it gets is square over the kept samples,
   * holding the metric between their feature rows.
   */
  lemma ComputedDistances(m: seq<seq<real>>, labels: seq<Label>, name: string, removeIsolates: bool, metric: Metric)
    requires Rectangular(m) && ComputesDistances(name)
    ensures Prepare(m, labels, name, removeIsolates, metric).Failure? <==> CheckXY(m, labels).Some?
    ensures CheckXY(m, labels).None? ==>
      var p := Prepare(m, labels, name, removeIsolates, metric);
      var rows := if removeIsolates then Select(m, KeepMask(labels)) else m;
      && Shaped(p.value.0, p.value.1)
      && (forall i, j :: 0 <= i < |rows| && 0 <= j < |rows| ==> p.value.0[i][j] == metric(name, rows[i], rows[j]))
  {
    if CheckXY(m, labels).None? {
      KeptRowsOnly(m, labels, name, removeIsolates);
      var rows := KeptRows(m, labels, name, removeIsolates).value;
      assert Prepare(m, labels, name, removeIsolates, metric).value.0 == Pairwise(metric, name, rows);
    }
  }

  /**
   * With a computed distance `discr_stat` fails exactly when the input
   * check fails or no label is kept.
   */
  lemma ComputedDistancesFailure(m: seq<seq<real>>, labels: seq<Label>, name: string, removeIsolates: bool, metric: Metric)
    requires Rectangular(m) && ComputesDistances(name)
    ensures DiscrResult(m, labels, name, removeIsolates, metric).Failure? <==>
      CheckXY(m, labels).Some? || |KeptLabels(labels, removeIsolates)| == 0
  {
    ComputedDistances(m, labels, name, removeIsolates, metric);
  }

  /**
   * Under "mahalanobis" no distance is computed: the kept feature rows
   * themselves reach `_discr_rdf`, which raises IndexError whenever a label
   * is kept and the number of features differs from the number of kept
   * samples.
   */
  lemma MahalanobisUsesFeatures(m: seq<seq<real>>, labels: seq<Label>, removeIsolates: bool, metric: Metric)
    requires Rectangular(m) && CheckXY(m, labels).None?
    ensures var p := Prepare(m, labels, "mahalanobis", removeIsolates, metric);
      var kept := KeptLabels(labels, removeIsolates);
      && p.Success?
      && p.value.0 == (if removeIsolates then Select(m, KeepMask(labels)) else m)
      && (|kept| > 0 && |m[0]| != |kept| ==> RdfError(p.value.0, kept).Some? && RdfError(p.value.0, kept).value.IndexError?)
  {
    assert !ComputesDistances("mahalanobis") by {
      assert |"mahalanobis"| == 11 && |"cosine"| == 6 && |"euclidean"| == |"haversine"| == |"manhattan"| == 9;
    }
    KeptRowsOnly(m, labels, "mahalanobis", removeIsolates);
    var rows := KeptRows(m, labels, "mahalanobis", removeIsolates).value;
    assert Prepare(m, labels, "mahalanobis", removeIsolates, metric).value.0 == rows;
    SelectRows(m, KeepMask(labels), |m[0]|);
  }
}
