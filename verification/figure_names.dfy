/**
 * The figure paths `plot_conn_mat_func` and `plot_conn_mat_struct` in
 * pynets/plotting/plot_graphs.py build for a connectivity matrix and for
 * its community-sorted version. Each path is a chain of segments, most of
 * them present only when the corresponding option is given.
 */
module FigureNames {
  import opened Wrappers
  import opened Text

  /** An argument used both as text (`'%s' % x`) and as a number (`float(x)`, `int(x)`). */
  datatype Number = Number(text: string, value: real)

  /** The arguments of `plot_conn_mat_func` that enter its figure paths. */
  datatype FuncParams = FuncParams(
    dirPath: string, id: string, network: Option<string>, roi: Option<string>, connModel: string,
    nodeSize: Option<string>, smooth: Number, hpass: Option<string>, extract: Option<string>, thr: string)

  /** The arguments of `plot_conn_mat_struct` that enter its figure paths. */
  datatype DwiParams = DwiParams(
    dirPath: string, id: string, network: Option<string>, roi: Option<string>, connModel: string,
    nodeSize: Option<string>, targetSamples: Number, trackType: string, directget: string,
    minLength: string, thr: string)

  // ---------------------------------------------------------------------
  // Segments

  /** `rsn-<network>_` when a network is given. */
  function RsnSegment(network: Option<string>): string {
    if network.Some? then "rsn-" + network.value + "_" else ""
  }

  /** `roi-<stem>_` when a region-of-interest file is given; the stem is its basename up to the first dot. */
  function RoiSegment(roi: Option<string>): string {
    if roi.Some? then "roi-" + Stem(roi.value) + "_" else ""
  }

  /** `nodetype-spheres-<size>mm_` for a sphere size, `nodetype-parc_` for a parcellation or no size. */
  function NodeSegment(nodeSize: Option<string>): string {
    if nodeSize.Some? && nodeSize.value != "parc" then "nodetype-spheres-" + nodeSize.value + "mm_"
    else "nodetype-parc_"
  }

  /** `smooth-<s>fwhm_` when the smoothing width is positive. */
  function SmoothSegment(smooth: Number): string {
    if smooth.value > 0.0 then "smooth-" + smooth.text + "fwhm_" else ""
  }

  /** `hpass-<h>Hz_` when a high-pass cutoff is given. */
  function HpassSegment(hpass: Option<string>): string {
    if hpass.Some? then "hpass-" + hpass.value + "Hz_" else ""
  }

  /** `extract-<e>_` when an extraction strategy is given. */
  function ExtractSegment(extract: Option<string>): string {
    if extract.Some? then "extract-" + extract.value + "_" else ""
  }

  /** `int(x)` of a positive number: its integer part. */
  function Truncate(x: real): (n: nat)
    requires x > 0.0
    ensures n as real <= x < n as real + 1.0
  {
    x.Floor
  }

  /** `samples-<int(target_samples)>streams_` when the target is positive, a lone `_` otherwise. */
  function SamplesSegment(targetSamples: Number): string {
    if targetSamples.value > 0.0 then "samples-" + NatToDecimal(Truncate(targetSamples.value)) + "streams_"
    else "_"
  }

  // ---------------------------------------------------------------------
  // The four paths

  /** A format string made only of `%s` directives, applied to its arguments: their concatenation. */
  function Format(args: seq<string>): (r: string)
    ensures |args| > 0 ==> args[0] <= r
  {
    if args == [] then "" else args[0] + Format(args[1..])
  }

  /** Formatting two argument lists one after the other formats their concatenation. */
  lemma {:induction false} FormatAppend(xs: seq<string>, ys: seq<string>)
    ensures Format(xs + ys) == Format(xs) + Format(ys)
  {
    if xs != [] {
      FormatAppend(xs[1..], ys);
      assert (xs + ys)[0] == xs[0];
      assert (xs + ys)[1..] == xs[1..] + ys;
    } else {
      assert xs + ys == ys;
    }
  }

  /** Formatting one argument gives it back. */
  lemma Format1(a: string)
    ensures Format([a]) == a
  {
    assert [a][1..] == [];
    assert Format([a]) == a + "";
  }

  /** Formatting three arguments concatenates them. */
  lemma Format3(a: string, b: string, c: string)
    ensures Format([a, b, c]) == a + b + c
  {
    Format1(c);
    assert [b, c][1..] == [c];
    assert Format([b, c]) == b + c;
    assert [a, b, c][1..] == [b, c];
    assert Format([a, b, c]) == a + (b + c);
  }

  /** The arguments every path starts with: the directory, `/`, the subject id and the modality tag. */
  function HeadList(dirPath: string, id: string, modality: string): seq<string> {
    [dirPath, "/", id, "_modality-" + modality + "_"]
  }

  /** The arguments both modalities share after the head. */
  function LeadList(network: Option<string>, roi: Option<string>, connModel: string, nodeSize: Option<string>)
    : seq<string>
  {
    [RsnSegment(network), RoiSegment(roi), "est-", connModel, "_", NodeSegment(nodeSize)]
  }

  /** The sixteen arguments of the functional format string, ending in the figure's suffix. */
  function FuncArgs(p: FuncParams, suffix: string): seq<string> {
    HeadList(p.dirPath, p.id, "func") + LeadList(p.network, p.roi, p.connModel, p.nodeSize)
    + [SmoothSegment(p.smooth), HpassSegment(p.hpass), ExtractSegment(p.extract)]
    + ["_thr-", p.thr, suffix]
  }

  /** The last nine arguments of the structural format string. */
  function DwiTailList(q: DwiParams, suffix: string): seq<string> {
    ["tt-", q.trackType, "_dg-", q.directget, "_ml-", q.minLength, "_thr-", q.thr, suffix]
  }

  /** The twenty arguments of the structural format string, ending in the figure's suffix. */
  function DwiArgs(q: DwiParams, suffix: string): seq<string> {
    HeadList(q.dirPath, q.id, "dwi") + LeadList(q.network, q.roi, q.connModel, q.nodeSize)
    + [SamplesSegment(q.targetSamples)] + DwiTailList(q, suffix)
  }

  /** `out_path_fig` of `plot_conn_mat_func`. */
  function FuncAdjPath(p: FuncParams): string {
    Format(FuncArgs(p, "_adj_mat.png"))
  }

  /** `out_path_fig_comm` of `plot_conn_mat_func`. */
  function FuncCommPath(p: FuncParams): string {
    Format(FuncArgs(p, "_adj_mat_comm.png"))
  }

  /** `out_path_fig` of `plot_conn_mat_struct`. */
  function DwiAdjPath(q: DwiParams): string {
    Format(DwiArgs(q, "_adj_mat.png"))
  }

  /** `out_path_fig_comm` of `plot_conn_mat_struct`. */
  function DwiCommPath(q: DwiParams): string {
    Format(DwiArgs(q, "_adj_mat_comm.png"))
  }

  // ---------------------------------------------------------------------
  // Properties

  /** The fixed head of a path: `<dir>/<ID>` and the modality tag. */
  function Head(dirPath: string, id: string, modality: string): string {
    dirPath + "/" + id + "_modality-" + modality + "_"
  }

  /** The segments both modalities share after their head. */
  function LeadingSegments(network: Option<string>, roi: Option<string>, connModel: string, nodeSize: Option<string>): string {
    RsnSegment(network) + (RoiSegment(roi) + ("est-" + connModel + "_" + NodeSegment(nodeSize)))
  }

  /** The first four arguments of a path format to its head. */
  lemma HeadArgs(dirPath: string, id: string, modality: string)
    ensures Format(HeadList(dirPath, id, modality)) == Head(dirPath, id, modality)
  {
    var tag := "_modality-" + modality + "_";
    assert [dirPath, "/", id, tag] == [dirPath, "/", id] + [tag];
    FormatAppend([dirPath, "/", id], [tag]);
    Format3(dirPath, "/", id);
    Format1(tag);
  }

  /** The next six arguments format to the shared segments. */
  lemma LeadArgs(network: Option<string>, roi: Option<string>, connModel: string, nodeSize: Option<string>)
    ensures Format(LeadList(network, roi, connModel, nodeSize)) == LeadingSegments(network, roi, connModel, nodeSize)
  {
    LeadFormat(RsnSegment(network), RoiSegment(roi), connModel, NodeSegment(nodeSize));
  }

  /** The six shared arguments, whatever their text, format to their concatenation. */
  lemma LeadFormat(rsn: string, roi: string, connModel: string, node: string)
    ensures Format([rsn, roi, "est-", connModel, "_", node]) == rsn + (roi + ("est-" + connModel + "_" + node))
  {
    var est := ["est-", connModel, "_", node];
    assert [rsn, roi, "est-", connModel, "_", node] == [rsn] + ([roi] + est);
    FormatCons(rsn, [roi] + est);
    FormatCons(roi, est);
    assert est == ["est-", connModel, "_"] + [node];
    FormatLast(["est-", connModel, "_"], node);
    Format3("est-", connModel, "_");
  }

  /** Formatting a leading argument puts it in front. */
  lemma FormatCons(a: string, rest: seq<string>)
    ensures Format([a] + rest) == a + Format(rest)
  {
    assert ([a] + rest)[1..] == rest;
  }

  /** Formatting a list ending in `last` ends with `last`. */
  lemma FormatLast(front: seq<string>, last: string)
    ensures Format(front + [last]) == Format(front) + last
  {
    FormatAppend(front, [last]);
    Format1(last);
  }

  /** The functional community path is its plain path with `_adj_mat_comm.png` in place of the final `_adj_mat.png`. */
  lemma FuncCommPathSuffix(p: FuncParams)
    ensures var a := FuncAdjPath(p);
      |a| >= 12 && a[|a| - 12..] == "_adj_mat.png" && FuncCommPath(p) == a[..|a| - 12] + "_adj_mat_comm.png"
  {
    var f := HeadList(p.dirPath, p.id, "func") + LeadList(p.network, p.roi, p.connModel, p.nodeSize)
      + [SmoothSegment(p.smooth), HpassSegment(p.hpass), ExtractSegment(p.extract)] + ["_thr-", p.thr];
    assert FuncArgs(p, "_adj_mat.png") == f + ["_adj_mat.png"];
    assert FuncArgs(p, "_adj_mat_comm.png") == f + ["_adj_mat_comm.png"];
    FormatLast(f, "_adj_mat.png");
    FormatLast(f, "_adj_mat_comm.png");
    assert (Format(f) + "_adj_mat.png")[..|Format(f)|] == Format(f);
  }

  /** The diffusion community path is its plain path with `_adj_mat_comm.png` in place of the final `_adj_mat.png`. */
  lemma DwiCommPathSuffix(q: DwiParams)
    ensures var a := DwiAdjPath(q);
      |a| >= 12 && a[|a| - 12..] == "_adj_mat.png" && DwiCommPath(q) == a[..|a| - 12] + "_adj_mat_comm.png"
  {
    var d := HeadList(q.dirPath, q.id, "dwi") + LeadList(q.network, q.roi, q.connModel, q.nodeSize)
      + [SamplesSegment(q.targetSamples)]
      + ["tt-", q.trackType, "_dg-", q.directget, "_ml-", q.minLength, "_thr-", q.thr];
    assert DwiArgs(q, "_adj_mat.png") == d + ["_adj_mat.png"];
    assert DwiArgs(q, "_adj_mat_comm.png") == d + ["_adj_mat_comm.png"];
    FormatLast(d, "_adj_mat.png");
    FormatLast(d, "_adj_mat_comm.png");
    assert (Format(d) + "_adj_mat.png")[..|Format(d)|] == Format(d);
  }

  /** A string ending in `_`. */
  predicate EndsInUnderscore(s: string) {
    |s| > 0 && s[|s| - 1] == '_'
  }

  /** A segment that is either absent or ends in `_`. */
  predicate Optional(s: string) {
    s == "" || EndsInUnderscore(s)
  }

  /** Joining two such segments gives one, ending in `_` when either part does. */
  lemma OptionalJoin(s: string, t: string)
    requires Optional(s) && Optional(t)
    ensures Optional(s + t)
    ensures EndsInUnderscore(s) || EndsInUnderscore(t) ==> EndsInUnderscore(s + t)
  {
    if t == "" {
      assert s + t == s;
    }
  }

  /** The functional path is its head, the shared segments, the optional segments and the tail. */
  lemma FuncPathParts(p: FuncParams)
    ensures FuncAdjPath(p)
      == Head(p.dirPath, p.id, "func") + LeadingSegments(p.network, p.roi, p.connModel, p.nodeSize)
         + (SmoothSegment(p.smooth) + HpassSegment(p.hpass) + ExtractSegment(p.extract))
         + ("_thr-" + p.thr + "_adj_mat.png")
  {
    var head := HeadList(p.dirPath, p.id, "func");
    var lead := LeadList(p.network, p.roi, p.connModel, p.nodeSize);
    var opt := [SmoothSegment(p.smooth), HpassSegment(p.hpass), ExtractSegment(p.extract)];
    var tail := ["_thr-", p.thr, "_adj_mat.png"];
    FormatAppend(head + lead + opt, tail);
    FormatAppend(head + lead, opt);
    FormatAppend(head, lead);
    HeadArgs(p.dirPath, p.id, "func");
    LeadArgs(p.network, p.roi, p.connModel, p.nodeSize);
    Format3(SmoothSegment(p.smooth), HpassSegment(p.hpass), ExtractSegment(p.extract));
    Format3("_thr-", p.thr, "_adj_mat.png");
  }


  /** Everything before the tail of a functional path ends in `_`. */
  lemma FuncBeforeTail(p: FuncParams)
    ensures EndsInUnderscore(Head(p.dirPath, p.id, "func") + LeadingSegments(p.network, p.roi, p.connModel, p.nodeSize)
      + (SmoothSegment(p.smooth) + HpassSegment(p.hpass) + ExtractSegment(p.extract)))
  {
    var h, l := Head(p.dirPath, p.id, "func"), LeadingSegments(p.network, p.roi, p.connModel, p.nodeSize);
    var s1, s2, s3 := SmoothSegment(p.smooth), HpassSegment(p.hpass), ExtractSegment(p.extract);
    var est := "est-" + p.connModel + "_";
    OptionalJoin(est, NodeSegment(p.nodeSize));
    OptionalJoin(RoiSegment(p.roi), est + NodeSegment(p.nodeSize));
    OptionalJoin(RsnSegment(p.network), RoiSegment(p.roi) + (est + NodeSegment(p.nodeSize)));
    OptionalJoin(h, l);
    OptionalJoin(s1, s2);
    OptionalJoin(s1 + s2, s3);
    OptionalJoin(h + l, s1 + s2 + s3);
  }

  /**
   * The functional path starts with its head and the shared segments, ends
   * with `_thr-<thr>_adj_mat.png`, and, since every segment before that
   * ends in `_`, always contains `__thr-`.
   */
  lemma FuncPathFrame(p: FuncParams)
    ensures Head(p.dirPath, p.id, "func") + LeadingSegments(p.network, p.roi, p.connModel, p.nodeSize) <= FuncAdjPath(p)
    ensures var tail := "_thr-" + p.thr + "_adj_mat.png";
      |tail| <= |FuncAdjPath(p)| && FuncAdjPath(p)[|FuncAdjPath(p)| - |tail|..] == tail
    ensures Contains(FuncAdjPath(p), "__thr-")
  {
    FuncPathParts(p);
    FuncBeforeTail(p);
    var hl := Head(p.dirPath, p.id, "func") + LeadingSegments(p.network, p.roi, p.connModel, p.nodeSize);
    var b := hl + (SmoothSegment(p.smooth) + HpassSegment(p.hpass) + ExtractSegment(p.extract));
    var t := "_thr-" + p.thr + "_adj_mat.png";
    assert hl <= b;
    DropPrefix(b, t);
    assert "_thr-" <= t;
    UnderscoreThr(b, t);
    assert OccursAt(FuncAdjPath(p), "__thr-", |b| - 1);
  }

  /** A string ending in `_` followed by one starting with `_thr-` holds `__thr-` at the join. */
  lemma UnderscoreThr(b: string, t: string)
    requires EndsInUnderscore(b) && "_thr-" <= t
    ensures OccursAt(b + t, "__thr-", |b| - 1)
  {
    assert (b + t)[|b| - 1..|b| + 5] == "__thr-";
  }

  /** The last nine arguments of a structural path format to its tail. */
  lemma DwiTailArgs(q: DwiParams, suffix: string)
    ensures Format(DwiTailList(q, suffix))
      == "tt-" + q.trackType + "_dg-" + q.directget + "_ml-" + q.minLength + "_thr-" + q.thr + suffix
  {
    var tt, dg, ml, thr := q.trackType, q.directget, q.minLength, q.thr;
    Format1("tt-");
    FormatLast(["tt-"], tt);
    assert ["tt-"] + [tt] == ["tt-", tt];
    FormatLast(["tt-", tt], "_dg-");
    assert ["tt-", tt] + ["_dg-"] == ["tt-", tt, "_dg-"];
    FormatLast(["tt-", tt, "_dg-"], dg);
    assert ["tt-", tt, "_dg-"] + [dg] == ["tt-", tt, "_dg-", dg];
    FormatLast(["tt-", tt, "_dg-", dg], "_ml-");
    assert ["tt-", tt, "_dg-", dg] + ["_ml-"] == ["tt-", tt, "_dg-", dg, "_ml-"];
    FormatLast(["tt-", tt, "_dg-", dg, "_ml-"], ml);
    assert ["tt-", tt, "_dg-", dg, "_ml-"] + [ml] == ["tt-", tt, "_dg-", dg, "_ml-", ml];
    FormatLast(["tt-", tt, "_dg-", dg, "_ml-", ml], "_thr-");
    assert ["tt-", tt, "_dg-", dg, "_ml-", ml] + ["_thr-"] == ["tt-", tt, "_dg-", dg, "_ml-", ml, "_thr-"];
    FormatLast(["tt-", tt, "_dg-", dg, "_ml-", ml, "_thr-"], thr);
    assert ["tt-", tt, "_dg-", dg, "_ml-", ml, "_thr-"] + [thr] == ["tt-", tt, "_dg-", dg, "_ml-", ml, "_thr-", thr];
    FormatLast(["tt-", tt, "_dg-", dg, "_ml-", ml, "_thr-", thr], suffix);
    assert ["tt-", tt, "_dg-", dg, "_ml-", ml, "_thr-", thr] + [suffix] == DwiTailList(q, suffix);
  }


  /** The structural path is its head, the shared segments, the samples segment and the tracking tail. */
  lemma DwiPathParts(q: DwiParams)
    ensures DwiAdjPath(q)
      == Head(q.dirPath, q.id, "dwi") + LeadingSegments(q.network, q.roi, q.connModel, q.nodeSize)
         + SamplesSegment(q.targetSamples)
         + ("tt-" + q.trackType + "_dg-" + q.directget + "_ml-" + q.minLength + "_thr-" + q.thr + "_adj_mat.png")
  {
    var head := HeadList(q.dirPath, q.id, "dwi");
    var lead := LeadList(q.network, q.roi, q.connModel, q.nodeSize);
    var mid := [SamplesSegment(q.targetSamples)];
    var tail := DwiTailList(q, "_adj_mat.png");
    FormatAppend(head + lead + mid, tail);
    FormatAppend(head + lead, mid);
    FormatAppend(head, lead);
    HeadArgs(q.dirPath, q.id, "dwi");
    LeadArgs(q.network, q.roi, q.connModel, q.nodeSize);
    Format1(SamplesSegment(q.targetSamples));
    DwiTailArgs(q, "_adj_mat.png");
  }

  /**
   * The structural path starts with its head and the shared segments, and
   * ends with `tt-<track_type>_dg-<directget>_ml-<min_length>_thr-<thr>_adj_mat.png`.
   */
  lemma DwiPathFrame(q: DwiParams)
    ensures Head(q.dirPath, q.id, "dwi") + LeadingSegments(q.network, q.roi, q.connModel, q.nodeSize) <= DwiAdjPath(q)
    ensures var tail := "tt-" + q.trackType + "_dg-" + q.directget + "_ml-" + q.minLength + "_thr-" + q.thr + "_adj_mat.png";
      |tail| <= |DwiAdjPath(q)| && DwiAdjPath(q)[|DwiAdjPath(q)| - |tail|..] == tail
  {
    DwiPathParts(q);
    Frame3(Head(q.dirPath, q.id, "dwi") + LeadingSegments(q.network, q.roi, q.connModel, q.nodeSize),
      SamplesSegment(q.targetSamples),
      "tt-" + q.trackType + "_dg-" + q.directget + "_ml-" + q.minLength + "_thr-" + q.thr + "_adj_mat.png");
  }

  /** A three-part string starts with its first part and ends with its last. */
  lemma Frame3(a: string, b: string, c: string)
    ensures a <= a + b + c
    ensures |c| <= |a + b + c| && (a + b + c)[|a + b + c| - |c|..] == c
  {
    assert (a + b + c)[..|a|] == a;
    assert (a + b + c)[|a + b|..] == c;
  }

  /** Two strings differing at a position shared by both: the first is no prefix of the second. */
  lemma Mismatch(a: string, b: string, k: nat)
    requires k < |a| && k < |b| && a[k] != b[k]
    ensures !(a <= b)
  {
  }

  /** The rsn segment: present, and read as such, exactly when a network is given. */
  lemma RsnDecode(network: Option<string>, rest: string)
    requires !("rsn-" <= rest)
    ensures "rsn-" <= RsnSegment(network) + rest <==> network.Some?
  {
    if network.Some? {
      assert RsnSegment(network) + rest == "rsn-" + (network.value + "_" + rest);
    } else {
      assert RsnSegment(network) + rest == rest;
    }
  }

  /** The roi segment: present, and read as such, exactly when a region of interest is given. */
  lemma RoiDecode(roi: Option<string>, rest: string)
    requires "est-" <= rest
    ensures "roi-" <= RoiSegment(roi) + rest <==> roi.Some?
    ensures !("rsn-" <= RoiSegment(roi) + rest)
  {
    if roi.Some? {
      RoiPresent(Stem(roi.value) + "_" + rest);
    } else {
      assert RoiSegment(roi) + rest == rest;
      Mismatch("roi-", rest, 0);
      Mismatch("rsn-", rest, 0);
    }
  }

  /** Text after a `roi-` tag starts with `roi-` and not with `rsn-`. */
  lemma RoiPresent(tail: string)
    ensures "roi-" <= "roi-" + tail
    ensures !("rsn-" <= "roi-" + tail)
  {
    Mismatch("rsn-", "roi-" + tail, 1);
  }

  /** The node segment reads as spheres exactly when a size other than `parc` is given. */
  lemma NodeDecode(nodeSize: Option<string>)
    ensures (nodeSize.Some? && nodeSize.value != "parc") <==> "nodetype-spheres-" <= NodeSegment(nodeSize)
    ensures !(nodeSize.Some? && nodeSize.value != "parc") <==> NodeSegment(nodeSize) == "nodetype-parc_"
  {
    if nodeSize.Some? && nodeSize.value != "parc" {
      var s := NodeSegment(nodeSize);
      assert s == "nodetype-spheres-" + (nodeSize.value + "mm_");
      Mismatch("nodetype-parc_", s, 9);
    } else {
      Mismatch("nodetype-spheres-", "nodetype-parc_", 9);
    }
  }

  /**
   * The shared segments can be read back: they start with `rsn-` exactly
   * when a network is given; what follows starts with `roi-` exactly when a
   * region of interest is given; then comes `est-<conn_model>_` and the
   * node segment.
   */
  lemma LeadingSegmentsDecode(network: Option<string>, roi: Option<string>, connModel: string, nodeSize: Option<string>)
    ensures var s := LeadingSegments(network, roi, connModel, nodeSize);
      var afterRsn := s[|RsnSegment(network)|..];
      && (network.Some? <==> "rsn-" <= s)
      && (roi.Some? <==> "roi-" <= afterRsn)
      && afterRsn[|RoiSegment(roi)|..] == "est-" + connModel + "_" + NodeSegment(nodeSize)
  {
    LeadRoi(roi, connModel, nodeSize);
    LeadRsn(network, roi, connModel, nodeSize);
  }

  /** The shared segments start with `rsn-` exactly when a network is given, and the rsn segment is followed by the rest. */
  lemma LeadRsn(network: Option<string>, roi: Option<string>, connModel: string, nodeSize: Option<string>)
    ensures var s := LeadingSegments(network, roi, connModel, nodeSize);
      && (network.Some? <==> "rsn-" <= s)
      && s[|RsnSegment(network)|..] == RoiSegment(roi) + ("est-" + connModel + "_" + NodeSegment(nodeSize))
  {
    var afterRsn := RoiSegment(roi) + ("est-" + connModel + "_" + NodeSegment(nodeSize));
    LeadRoi(roi, connModel, nodeSize);
    RsnDecode(network, afterRsn);
    DropPrefix(RsnSegment(network), afterRsn);
  }

  /** After the rsn segment comes `roi-` exactly when a region of interest is given, then `est-`. */
  lemma LeadRoi(roi: Option<string>, connModel: string, nodeSize: Option<string>)
    ensures var a := RoiSegment(roi) + ("est-" + connModel + "_" + NodeSegment(nodeSize));
      && (roi.Some? <==> "roi-" <= a)
      && !("rsn-" <= a)
      && a[|RoiSegment(roi)|..] == "est-" + connModel + "_" + NodeSegment(nodeSize)
  {
    var afterRoi := "est-" + connModel + "_" + NodeSegment(nodeSize);
    EstFirst(connModel, NodeSegment(nodeSize));
    RoiDecode(roi, afterRoi);
    DropPrefix(RoiSegment(roi), afterRoi);
  }

  /** The estimation segment starts with `est-`. */
  lemma EstFirst(connModel: string, node: string)
    ensures "est-" <= "est-" + connModel + "_" + node
  {
    assert "est-" + connModel + "_" + node == "est-" + (connModel + "_" + node);
  }

  /** Dropping the first part of a concatenation leaves the second. */
  lemma DropPrefix(a: string, b: string)
    ensures (a + b)[|a|..] == b
  {
  }

  /**
   * With a positive target the samples segment is `samples-<digits>streams_`
   * whose digits read back as `int(target_samples)`; otherwise it is `_`.
   */
  lemma SamplesSegmentDecode(targetSamples: Number)
    ensures targetSamples.value <= 0.0 ==> SamplesSegment(targetSamples) == "_"
    ensures targetSamples.value > 0.0 ==>
      exists digits ::
        && SamplesSegment(targetSamples) == "samples-" + digits + "streams_"
        && |digits| > 0 && (forall j :: 0 <= j < |digits| ==> '0' <= digits[j] <= '9')
        && DecimalValue(digits) as real <= targetSamples.value < DecimalValue(digits) as real + 1.0
  {
    if targetSamples.value > 0.0 {
      var n := Truncate(targetSamples.value);
      DecimalRoundTrip(n);
      assert SamplesSegment(targetSamples) == "samples-" + NatToDecimal(n) + "streams_";
    }
  }
}
