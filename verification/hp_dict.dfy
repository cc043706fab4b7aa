/**
 * Hyperparameter bookkeeping from derivative file names
 * (`build_hp_dict` in pynets/stats/benchmarking.py).
 *
 * A file name carries `<name>-<value>_` tags. For every requested name
 * the value is appended to the list kept under that name in a dictionary;
 * modality-specific tags are added when present, and every list is
 * de-duplicated at the end. The dictionary and the list of names are
 * updated in place, so they are the fields of `HyperparamTables`.
 */
module HpDict {
  import opened Wrappers
  import opened Text

  /** The dictionary of hyperparameter values: name to the values seen. */
  type Table = map<string, seq<string>>

  /** Names the generic loop skips; the modality branches handle some of them. */
  const Excluded: set<string> :=
    {"smooth", "hpass", "track_type", "directget", "tol", "minlength", "samples", "nodetype", "template"}

  /**
   * `file.split(name + "-")[1].split("_")[0]`: the value carried by the
   * tag `name-`, or `None` where Python raises IndexError because the tag
   * is absent.
   */
  function TagValue(file: string, name: string): (r: Option<string>)
    ensures r.None? <==> !Contains(file, name + "-")
    ensures r.Some? ==> '_' !in r.value
  {
    match SecondPiece(file, name + "-")
    case None => None
    case Some(piece) => NoCharBeforeFirst(piece, '_'); Some(BeforeFirst(piece, "_"))
  }

  /**
   * The value of a present tag is the text after its first occurrence, cut
   * at the first `_` or at the next occurrence of the tag, whichever comes
   * first.
   */
  lemma TagValueSpec(file: string, name: string, k: nat)
    requires FirstOccurrence(file, name + "-", k)
    ensures var tag := name + "-";
      var after := file[k + |tag|..];
      && TagValue(file, name).Some?
      && var v := TagValue(file, name).value;
      && v <= after
      && (forall j :: 0 <= j < |v| ==> after[j] != '_' && !OccursAt(after, tag, j))
      && (|v| == |after| || after[|v|] == '_' || OccursAt(after, tag, |v|))
  {
    var tag := name + "-";
    SecondPieceSpec(file, tag, k);
    CutAtUnderscore(SecondPiece(file, tag).value, file[k + |tag|..], tag);
  }

  /** Cutting a tag-free prefix of `after` at its first `_` stops at `_`, at the tag or at the end. */
  lemma CutAtUnderscore(piece: string, after: string, tag: string)
    requires |tag| > 0 && piece <= after
    requires forall j :: 0 <= j < |piece| ==> !OccursAt(after, tag, j)
    requires |piece| == |after| || OccursAt(after, tag, |piece|)
    ensures var v := BeforeFirst(piece, "_");
      && v <= after
      && (forall j :: 0 <= j < |v| ==> after[j] != '_' && !OccursAt(after, tag, j))
      && (|v| == |after| || after[|v|] == '_' || OccursAt(after, tag, |v|))
  {
    var v := BeforeFirst(piece, "_");
    NoCharBeforeFirst(piece, '_');
    forall j | 0 <= j < |v|
      ensures after[j] != '_'
    {
      assert v[j] == after[j] && v[j] in v;
    }
    if |v| < |piece| {
      assert OccursAt(piece, "_", |v|);
      assert piece[|v|..|v| + 1] == [piece[|v|]];
    }
  }

  /** `hyperparam_dict[key].append(v)`, creating the list when the key is new. */
  function Append(t: Table, key: string, v: string): (r: Table)
    ensures r.Keys == t.Keys + {key}
    ensures forall k :: k in t && k != key ==> r[k] == t[k]
    ensures key in t ==> r[key] == t[key] + [v]
    ensures key !in t ==> r[key] == [v]
  {
    if key in t then t[key := t[key] + [v]] else t[key := [v]]
  }

  /** The state of the generic loop: the table so far, and the name whose tag was missing, if any. */
  datatype Scan = Scan(table: Table, missing: Option<string>)

  /** The generic loop over `names`, stopping at the first name whose tag is missing. */
  function GenericPass(file: string, t: Table, names: seq<string>): Scan
  {
    if names == [] then Scan(t, None)
    else
      var prev := GenericPass(file, t, names[..|names| - 1]);
      var h := names[|names| - 1];
      if prev.missing.Some? || h in Excluded then prev
      else match TagValue(file, h)
        case None => Scan(prev.table, Some(h))
        case Some(v) => Scan(Append(prev.table, h, v), None)
  }

  /** Once a tag is missing, the rest of the names change nothing. */
  lemma {:induction false} GenericPassStops(file: string, t: Table, names: seq<string>, i: nat)
    requires i <= |names| && GenericPass(file, t, names[..i]).missing.Some?
    ensures GenericPass(file, t, names) == GenericPass(file, t, names[..i])
    decreases |names| - i
  {
    if i < |names| {
      assert names[..i + 1][..i] == names[..i];
      GenericPassStops(file, t, names, i + 1);
    } else {
      assert names[..i] == names;
    }
  }

  /**
   * The generic loop fails exactly when some non-excluded name lacks its
   * tag, and it then reports the first such name.
   */
  lemma {:induction false} GenericPassFailure(file: string, t: Table, names: seq<string>)
    ensures var s := GenericPass(file, t, names);
      && (s.missing.Some? <==>
            exists j :: 0 <= j < |names| && names[j] !in Excluded && !Contains(file, names[j] + "-"))
      && (s.missing.Some? ==> exists j ::
            && 0 <= j < |names| && names[j] == s.missing.value
            && names[j] !in Excluded && !Contains(file, names[j] + "-")
            && forall i :: 0 <= i < j ==> names[i] in Excluded || Contains(file, names[i] + "-"))
  {
    if names != [] {
      var init := names[..|names| - 1];
      GenericPassFailure(file, t, init);
      var prev := GenericPass(file, t, init);
      if prev.missing.Some? {
        var j :| 0 <= j < |init| && init[j] == prev.missing.value && init[j] !in Excluded
          && !Contains(file, init[j] + "-")
          && forall i :: 0 <= i < j ==> init[i] in Excluded || Contains(file, init[i] + "-");
        assert names[j] == init[j];
      } else {
        var h := names[|names| - 1];
        if h !in Excluded && !Contains(file, h + "-") {
          assert forall i :: 0 <= i < |init| ==> names[i] == init[i];
        } else {
          forall j | 0 <= j < |names| && names[j] !in Excluded
            ensures Contains(file, names[j] + "-")
          {
            if j < |init| { assert names[j] == init[j]; }
          }
        }
      }
    }
  }

  /** Appending keeps every key and extends its list. */
  lemma AppendGrows(t: Table, key: string, v: string)
    ensures forall k :: k in t ==> k in Append(t, key, v) && t[k] <= Append(t, key, v)[k]
  {
  }

  /** Appending adds no value but the one appended. */
  lemma AppendOnly(t: Table, key: string, v: string)
    ensures var r := Append(t, key, v);
      forall k, x :: k in r && x in r[k] ==> (k in t && x in t[k]) || (k == key && x == v)
  {
  }

  /** `x` is the tag value of `k`, a requested name the generic loop reads. */
  predicate ParsedValue(file: string, names: seq<string>, k: string, x: string) {
    k in names && k !in Excluded && TagValue(file, k).Some? && x == TagValue(file, k).value
  }

  /** A completed generic loop is a completed loop over all names but the last, then one step. */
  lemma GenericPassStep(file: string, t: Table, names: seq<string>)
    requires names != [] && GenericPass(file, t, names).missing.None?
    ensures var prev := GenericPass(file, t, names[..|names| - 1]);
      var h := names[|names| - 1];
      && prev.missing.None?
      && (h !in Excluded ==> TagValue(file, h).Some?)
      && GenericPass(file, t, names).table
         == if h in Excluded then prev.table else Append(prev.table, h, TagValue(file, h).value)
  {
  }

  /** A completed generic loop keeps every earlier key and value. */
  lemma {:induction false} GenericPassKeeps(file: string, t: Table, names: seq<string>)
    requires GenericPass(file, t, names).missing.None?
    ensures var r := GenericPass(file, t, names).table;
      forall k :: k in t ==> k in r && t[k] <= r[k]
  {
    if names != [] {
      var init := names[..|names| - 1];
      var h := names[|names| - 1];
      GenericPassStep(file, t, names);
      GenericPassKeeps(file, t, init);
      var prev := GenericPass(file, t, init).table;
      if h !in Excluded {
        AppendGrows(prev, h, TagValue(file, h).value);
      }
    }
  }

  /** A completed generic loop appends the tag value of every non-excluded name. */
  lemma {:induction false} GenericPassAppends(file: string, t: Table, names: seq<string>)
    requires GenericPass(file, t, names).missing.None?
    ensures var r := GenericPass(file, t, names).table;
      forall j :: 0 <= j < |names| && names[j] !in Excluded ==>
        names[j] in r && TagValue(file, names[j]).Some? && TagValue(file, names[j]).value in r[names[j]]
  {
    if names != [] {
      var init := names[..|names| - 1];
      var h := names[|names| - 1];
      GenericPassStep(file, t, names);
      GenericPassAppends(file, t, init);
      var prev := GenericPass(file, t, init).table;
      var r := GenericPass(file, t, names).table;
      if h !in Excluded {
        AppendGrows(prev, h, TagValue(file, h).value);
      }
      forall j | 0 <= j < |init| && names[j] !in Excluded
        ensures names[j] in r && TagValue(file, names[j]).Some? && TagValue(file, names[j]).value in r[names[j]]
      {
        assert names[j] == init[j];
        assert prev[names[j]] <= r[names[j]];
      }
    }
  }

  /** A completed generic loop adds no key but those of non-excluded names. */
  lemma {:induction false} GenericPassNoOtherKeys(file: string, t: Table, names: seq<string>)
    requires GenericPass(file, t, names).missing.None?
    ensures var r := GenericPass(file, t, names).table;
      forall k :: k in r ==> k in t || exists j :: 0 <= j < |names| && names[j] == k && k !in Excluded
  {
    if names != [] {
      var init := names[..|names| - 1];
      var h := names[|names| - 1];
      GenericPassStep(file, t, names);
      GenericPassNoOtherKeys(file, t, init);
      var prev := GenericPass(file, t, init).table;
      var r := GenericPass(file, t, names).table;
      forall k | k in r && k !in t
        ensures exists j :: 0 <= j < |names| && names[j] == k && k !in Excluded
      {
        if k != h || h in Excluded {
          assert k in prev;
          var j :| 0 <= j < |init| && init[j] == k && k !in Excluded;
          assert names[j] == k;
        } else {
          assert names[|names| - 1] == k;
        }
      }
    }
  }

  /** A completed generic loop adds no value but the tag values of non-excluded names. */
  lemma {:induction false} GenericPassOnly(file: string, t: Table, names: seq<string>)
    requires GenericPass(file, t, names).missing.None?
    ensures var r := GenericPass(file, t, names).table;
      forall k, x :: k in r && x in r[k] ==> (k in t && x in t[k]) || ParsedValue(file, names, k, x)
  {
    if names != [] {
      var init := names[..|names| - 1];
      var h := names[|names| - 1];
      GenericPassStep(file, t, names);
      GenericPassOnly(file, t, init);
      var prev := GenericPass(file, t, init).table;
      var r := GenericPass(file, t, names).table;
      if h !in Excluded {
        AppendOnly(prev, h, TagValue(file, h).value);
      }
      forall k, x | k in r && x in r[k] && !(k in t && x in t[k])
        ensures ParsedValue(file, names, k, x)
      {
        if k in prev && x in prev[k] {
          assert ParsedValue(file, init, k, x);
          assert k in init;
        } else {
          assert k == h;
        }
      }
    }
  }

  /**
   * A completed generic loop keeps every earlier key and value, appends
   * the tag value of every non-excluded name, and adds no other key.
   */
  lemma GenericPassRecords(file: string, t: Table, names: seq<string>)
    requires GenericPass(file, t, names).missing.None?
    ensures var r := GenericPass(file, t, names).table;
      && (forall k :: k in t ==> k in r && t[k] <= r[k])
      && (forall j :: 0 <= j < |names| && names[j] !in Excluded ==>
            names[j] in r && TagValue(file, names[j]).Some? && TagValue(file, names[j]).value in r[names[j]])
      && (forall k :: k in r ==> k in t || exists j :: 0 <= j < |names| && names[j] == k && k !in Excluded)
      && (forall k, x :: k in r && x in r[k] ==> (k in t && x in t[k]) || ParsedValue(file, names, k, x))
  {
    GenericPassKeeps(file, t, names);
    GenericPassAppends(file, t, names);
    GenericPassNoOtherKeys(file, t, names);
    GenericPassOnly(file, t, names);
  }

  /**
   * One modality-specific tag: `[(name, value)]` when `name-` occurs in
   * the file name, the value cut at `unit` where one is stripped, else `[]`.
   */
  function ExtraPair(file: string, name: string, unit: Option<string>): (r: seq<(string, string)>)
    requires unit.Some? ==> |unit.value| > 0
    ensures |r| <= 1 && (r != [] <==> Contains(file, name + "-"))
    ensures forall p :: p in r ==> p.0 == name
  {
    if Contains(file, name + "-") then
      var v := TagValue(file, name).value;
      [(name, if unit.Some? then BeforeFirst(v, unit.value) else v)]
    else []
  }

  /** The names the modality branch may add, in source order. */
  function ModalityNames(modality: string): seq<string> {
    if modality == "func" then ["smooth", "hpass", "extract"]
    else if modality == "dwi" then ["directget", "minlength", "tol"]
    else []
  }

  /** The unit suffix stripped from a value: `fwhm` for smooth, `Hz` for hpass. */
  function UnitOf(name: string): Option<string> {
    if name == "smooth" then Some("fwhm") else if name == "hpass" then Some("Hz") else None
  }

  /** The `(name, value)` pairs the modality branch adds, in source order. */
  function Extras(file: string, modality: string): (r: seq<(string, string)>)
    ensures |r| <= |ModalityNames(modality)|
  {
    var names := ModalityNames(modality);
    if names == [] then [] else ThreeTagPairs(file, names[0], names[1], names[2])
  }

  /** The names of the added pairs: what the branch appends to `hyperparams`. */
  function ExtraNames(pairs: seq<(string, string)>): (r: seq<string>)
    ensures |r| == |pairs|
  {
    if pairs == [] then [] else ExtraNames(pairs[..|pairs| - 1]) + [pairs[|pairs| - 1].0]
  }

  /** The pair a tag contributes, stated per name. */
  ghost predicate PairOfTag(file: string, p: (string, string)) {
    && Contains(file, p.0 + "-")
    && TagValue(file, p.0).Some?
    && p.1 == match UnitOf(p.0)
              case None => TagValue(file, p.0).value
              case Some(u) => BeforeFirst(TagValue(file, p.0).value, u)
  }

  /** One tag contributes at most one pair, present exactly when the tag occurs. */
  lemma ExtraPairSpec(file: string, name: string)
    ensures var e := ExtraPair(file, name, UnitOf(name));
      && |e| <= 1
      && (e != [] <==> Contains(file, name + "-"))
      && (forall p :: p in e ==> p.0 == name && PairOfTag(file, p))
  {
  }

  /** The pairs three tags contribute, in order. */
  function ThreeTagPairs(file: string, n0: string, n1: string, n2: string): seq<(string, string)> {
    ExtraPair(file, n0, UnitOf(n0)) + ExtraPair(file, n1, UnitOf(n1)) + ExtraPair(file, n2, UnitOf(n2))
  }

  /** Every pair of three tags belongs to one of them and carries its value. */
  lemma ThreeTagsSound(file: string, n0: string, n1: string, n2: string)
    ensures forall p :: p in ThreeTagPairs(file, n0, n1, n2) ==> (p.0 == n0 || p.0 == n1 || p.0 == n2) && PairOfTag(file, p)
  {
    var a, b, c := ExtraPair(file, n0, UnitOf(n0)), ExtraPair(file, n1, UnitOf(n1)), ExtraPair(file, n2, UnitOf(n2));
    ExtraPairSpec(file, n0);
    ExtraPairSpec(file, n1);
    ExtraPairSpec(file, n2);
    assert forall p :: p in a + b + c <==> p in a || p in b || p in c;
  }

  /** Every present tag of the three contributes a pair. */
  lemma ThreeTagsComplete(file: string, n0: string, n1: string, n2: string, n: string)
    requires (n == n0 || n == n1 || n == n2) && Contains(file, n + "-")
    ensures exists p: (string, string) :: p in ThreeTagPairs(file, n0, n1, n2) && p.0 == n
  {
    var a, b, c := ExtraPair(file, n0, UnitOf(n0)), ExtraPair(file, n1, UnitOf(n1)), ExtraPair(file, n2, UnitOf(n2));
    ExtraPairSpec(file, n);
    var e := a + b + c;
    if n == n0 { assert a[0] in e; } else if n == n1 { assert b[0] in e; } else { assert c[0] in e; }
  }

  /** Three blocks of at most one pair each, under three distinct names, never repeat a name. */
  lemma DistinctBlocks(a: seq<(string, string)>, b: seq<(string, string)>, c: seq<(string, string)>,
                       n0: string, n1: string, n2: string)
    requires n0 != n1 && n0 != n2 && n1 != n2
    requires |a| <= 1 && |b| <= 1 && |c| <= 1
    requires (forall p :: p in a ==> p.0 == n0) && (forall p :: p in b ==> p.0 == n1) && (forall p :: p in c ==> p.0 == n2)
    ensures var e := a + b + c; forall i, j :: 0 <= i < j < |e| ==> e[i].0 != e[j].0
  {
    var e := a + b + c;
    forall i, j | 0 <= i < j < |e|
      ensures e[i].0 != e[j].0
    {
      if i < |a| {
        assert e[i] in a;
        if j < |a| + |b| { assert e[j] == b[j - |a|]; } else { assert e[j] == c[j - |a| - |b|]; }
      } else {
        assert e[i] == b[i - |a|] && e[j] == c[j - |a| - |b|];
      }
    }
  }

  /** Three distinct tags contribute pairs with distinct names. */
  lemma ThreeTagsDistinct(file: string, n0: string, n1: string, n2: string)
    requires n0 != n1 && n0 != n2 && n1 != n2
    ensures var e := ThreeTagPairs(file, n0, n1, n2); forall i, j :: 0 <= i < j < |e| ==> e[i].0 != e[j].0
  {
    ExtraPairSpec(file, n0);
    ExtraPairSpec(file, n1);
    ExtraPairSpec(file, n2);
    DistinctBlocks(ExtraPair(file, n0, UnitOf(n0)), ExtraPair(file, n1, UnitOf(n1)), ExtraPair(file, n2, UnitOf(n2)), n0, n1, n2);
  }

  /** Concatenation is associative. */
  lemma ConcatAssoc(x: seq<string>, y: seq<string>, z: seq<string>)
    ensures x + y + z == x + (y + z)
  {
  }

  /** A modality other than func or dwi adds no pair. */
  lemma NoExtras(file: string, modality: string)
    requires ModalityNames(modality) == []
    ensures Extras(file, modality) == [] && ExtraNames(Extras(file, modality)) == []
    ensures forall t :: AppendAll(t, Extras(file, modality)) == t
  {
  }

  /** The names of concatenated pairs are the concatenated names. */
  lemma {:induction false} ExtraNamesConcat(a: seq<(string, string)>, b: seq<(string, string)>)
    ensures ExtraNames(a + b) == ExtraNames(a) + ExtraNames(b)
  {
    if b == [] {
      assert a + b == a;
    } else {
      ExtraNamesConcat(a, b[..|b| - 1]);
      assert (a + b)[..|a + b| - 1] == a + b[..|b| - 1];
    }
  }

  /**
   * Which pairs the modality branch adds: a name of the modality is added
   * exactly when its tag occurs, at most once, with the value of that tag
   * and its unit suffix stripped; other modalities add nothing.
   */
  lemma ExtrasSpec(file: string, modality: string)
    ensures var e := Extras(file, modality);
      && (forall p :: p in e ==> p.0 in ModalityNames(modality) && PairOfTag(file, p))
      && (forall n :: n in ModalityNames(modality) && Contains(file, n + "-") ==> exists p :: p in e && p.0 == n)
      && (forall i, j :: 0 <= i < j < |e| ==> e[i].0 != e[j].0)
      && (modality != "func" && modality != "dwi" ==> e == [])
  {
    var names := ModalityNames(modality);
    if names != [] {
      ThreeTagsSound(file, names[0], names[1], names[2]);
      ThreeTagsDistinct(file, names[0], names[1], names[2]);
      forall n | n in names && Contains(file, n + "-")
        ensures exists p: (string, string) :: p in Extras(file, modality) && p.0 == n
      {
        ThreeTagsComplete(file, names[0], names[1], names[2], n);
      }
    }
  }

  /** A value cut at its unit suffix no longer contains that suffix. */
  lemma StrippedHasNoUnit(v: string, unit: string)
    requires |unit| > 0
    ensures !Contains(BeforeFirst(v, unit), unit)
  {
    var r := BeforeFirst(v, unit);
    forall k | 0 <= k <= |r|
      ensures !OccursAt(r, unit, k)
    {
      if k + |unit| <= |r| {
        assert r[k..k + |unit|] == v[k..k + |unit|];
        assert !OccursAt(v, unit, k);
      }
    }
  }

  /** Appending a sequence of pairs, in order. */
  function AppendAll(t: Table, pairs: seq<(string, string)>): Table
  {
    if pairs == [] then t
    else var last := pairs[|pairs| - 1]; Append(AppendAll(t, pairs[..|pairs| - 1]), last.0, last.1)
  }

  /** Appending a run of pairs adds no value but those of the pairs. */
  lemma {:induction false} AppendAllOnly(t: Table, pairs: seq<(string, string)>)
    ensures var r := AppendAll(t, pairs);
      forall k, x :: k in r && x in r[k] ==> (k in t && x in t[k]) || (k, x) in pairs
  {
    if pairs != [] {
      var init := pairs[..|pairs| - 1];
      var last := pairs[|pairs| - 1];
      AppendAllOnly(t, init);
      AppendOnly(AppendAll(t, init), last.0, last.1);
      assert forall p :: p in init ==> p in pairs;
      assert last in pairs;
    }
  }

  /**
   * Appending keeps every earlier key and value, records every added pair,
   * and adds no other key and no other value.
   */
  lemma {:induction false} AppendAllRecords(t: Table, pairs: seq<(string, string)>)
    ensures var r := AppendAll(t, pairs);
      && (forall k :: k in t ==> k in r && t[k] <= r[k])
      && (forall p :: p in pairs ==> p.0 in r && p.1 in r[p.0])
      && (forall k :: k in r ==> k in t || exists p :: p in pairs && p.0 == k)
      && (forall k, x :: k in r && x in r[k] ==> (k in t && x in t[k]) || (k, x) in pairs)
  {
    AppendAllOnly(t, pairs);
    if pairs != [] {
      var init := pairs[..|pairs| - 1];
      var last := pairs[|pairs| - 1];
      AppendAllRecords(t, init);
      var prev := AppendAll(t, init);
      var r := Append(prev, last.0, last.1);
      assert AppendAll(t, pairs) == r;
      assert forall p :: p in pairs ==> p in init || p == last;
      AppendGrows(prev, last.0, last.1);
      forall p | p in pairs
        ensures p.0 in r && p.1 in r[p.0]
      {
        if p != last {
          assert p.1 in prev[p.0];
        }
      }
      forall k | k in r && k !in t
        ensures exists p :: p in pairs && p.0 == k
      {
        if k != last.0 {
          var p :| p in init && p.0 == k;
          assert p in pairs;
        }
      }
    }
  }

  /** Appending two sequences of pairs one after the other appends their concatenation. */
  lemma {:induction false} AppendAllConcat(t: Table, a: seq<(string, string)>, b: seq<(string, string)>)
    ensures AppendAll(AppendAll(t, a), b) == AppendAll(t, a + b)
  {
    if b != [] {
      var init := b[..|b| - 1];
      AppendAllConcat(t, a, init);
      assert (a + b)[..|a + b| - 1] == a + init;
    } else {
      assert a + b == a;
    }
  }

  /** No element occurs twice. */
  predicate NoDuplicates(xs: seq<string>) {
    forall i, j :: 0 <= i < j < |xs| ==> xs[i] != xs[j]
  }

  /** `list(set(xs))`: the distinct elements of `xs` (kept here in first-occurrence order). */
  function Distinct(xs: seq<string>): (r: seq<string>)
    ensures NoDuplicates(r)
    ensures forall x :: x in r <==> x in xs
  {
    if xs == [] then []
    else
      var prev := Distinct(xs[..|xs| - 1]);
      var x := xs[|xs| - 1];
      assert forall y :: y in xs <==> y in xs[..|xs| - 1] || y == x;
      if x in prev then prev else prev + [x]
  }

  /** The final loop of `build_hp_dict`: every list replaced by its distinct elements. */
  function DistinctAll(t: Table): (r: Table)
    ensures r.Keys == t.Keys
    ensures forall k :: k in r ==> NoDuplicates(r[k]) && forall x :: x in r[k] <==> x in t[k]
  {
    map k | k in t :: Distinct(t[k])
  }

  /**
   * The state a successful call leaves: every key and value present before
   * survives, every non-excluded name and every present modality tag has
   * its value recorded, no other key appears, and no list has duplicates.
   */
  lemma BuildOutcome(file: string, modality: string, t: Table, names: seq<string>)
    requires GenericPass(file, t, names).missing.None?
    ensures var e := Extras(file, modality);
      var r := DistinctAll(AppendAll(GenericPass(file, t, names).table, e));
      && (forall k :: k in t ==> k in r && forall x :: x in t[k] ==> x in r[k])
      && (forall j :: 0 <= j < |names| && names[j] !in Excluded ==>
            names[j] in r && TagValue(file, names[j]).Some? && TagValue(file, names[j]).value in r[names[j]])
      && (forall p :: p in e ==> p.0 in r && p.1 in r[p.0])
      && (forall k :: k in r ==>
            || k in t
            || (exists j :: 0 <= j < |names| && names[j] == k && k !in Excluded)
            || (exists p :: p in e && p.0 == k))
      && (forall k, x :: k in r && x in r[k] ==>
            (k in t && x in t[k]) || ParsedValue(file, names, k, x) || (k, x) in e)
      && (forall k :: k in r ==> NoDuplicates(r[k]))
  {
    AppendedOutcome(file, modality, t, names);
    AppendedValuesOnly(file, modality, t, names);
  }

  /** Before deduplication, every value is an earlier one, a parsed tag value or a modality value. */
  lemma AppendedValuesOnly(file: string, modality: string, t: Table, names: seq<string>)
    requires GenericPass(file, t, names).missing.None?
    ensures var e := Extras(file, modality);
      var a := AppendAll(GenericPass(file, t, names).table, e);
      forall k, x :: k in a && x in a[k] ==> (k in t && x in t[k]) || ParsedValue(file, names, k, x) || (k, x) in e
  {
    GenericPassOnly(file, t, names);
    AppendAllOnly(GenericPass(file, t, names).table, Extras(file, modality));
  }

  /** The table before deduplication: the generic loop's records followed by the modality tags. */
  lemma AppendedOutcome(file: string, modality: string, t: Table, names: seq<string>)
    requires GenericPass(file, t, names).missing.None?
    ensures var e := Extras(file, modality);
      var a := AppendAll(GenericPass(file, t, names).table, e);
      && (forall k :: k in t ==> k in a && forall x :: x in t[k] ==> x in a[k])
      && (forall j :: 0 <= j < |names| && names[j] !in Excluded ==>
            names[j] in a && TagValue(file, names[j]).Some? && TagValue(file, names[j]).value in a[names[j]])
      && (forall p :: p in e ==> p.0 in a && p.1 in a[p.0])
      && (forall k :: k in a ==>
            || k in t
            || (exists j :: 0 <= j < |names| && names[j] == k && k !in Excluded)
            || (exists p :: p in e && p.0 == k))
  {
    var g := GenericPass(file, t, names).table;
    var e := Extras(file, modality);
    var a := AppendAll(g, e);
    GenericPassRecords(file, t, names);
    AppendAllRecords(g, e);
    forall k | k in t
      ensures forall x :: x in t[k] ==> x in a[k]
    {
      assert t[k] <= g[k] && g[k] <= a[k];
    }
    forall j | 0 <= j < |names| && names[j] !in Excluded
      ensures TagValue(file, names[j]).value in a[names[j]]
    {
      assert g[names[j]] <= a[names[j]];
    }
  }

  /**
   * The two containers `build_hp_dict` receives and updates in place: the
   * hyperparameter dictionary and the list of hyperparameter names.
   */
  class HyperparamTables {
    var table: Table
    var names: seq<string>

    constructor (table0: Table, names0: seq<string>)
      ensures table == table0 && names == names0
    {
      table := table0;
      names := names0;
    }

    /**
     * `build_hp_dict(file, modality, table, names)`. Returns the name whose
     * tag was missing where Python raises IndexError; the updates made
     * before that point remain, as they do on the caller's dictionary.
     */
    method BuildHpDict(file: string, modality: string) returns (missing: Option<string>)
      modifies this
      ensures missing == GenericPass(file, old(table), old(names)).missing
      ensures missing.Some? <==>
        exists j :: 0 <= j < |old(names)| && old(names)[j] !in Excluded && !Contains(file, old(names)[j] + "-")
      ensures missing.Some? ==> table == GenericPass(file, old(table), old(names)).table && names == old(names)
      ensures missing.None? ==>
        && table == DistinctAll(AppendAll(GenericPass(file, old(table), old(names)).table, Extras(file, modality)))
        && names == old(names) + ExtraNames(Extras(file, modality))
      ensures missing.None? ==>
        && (forall k :: k in old(table) ==> k in table && forall x :: x in old(table)[k] ==> x in table[k])
        && (forall j :: 0 <= j < |old(names)| && old(names)[j] !in Excluded ==>
              && old(names)[j] in table && TagValue(file, old(names)[j]).Some?
              && TagValue(file, old(names)[j]).value in table[old(names)[j]])
        && (forall k, x :: k in table && x in table[k] ==>
              || (k in old(table) && x in old(table)[k])
              || ParsedValue(file, old(names), k, x)
              || (k, x) in Extras(file, modality))
        && (forall k :: k in table ==> NoDuplicates(table[k]))
        && old(names) <= names
    {
      missing := ScanNames(file);
      GenericPassFailure(file, old(table), old(names));
      if missing.None? {
        AddModalityTags(file, modality);
        DeduplicateLists();
        BuildOutcome(file, modality, old(table), old(names));
      }
    }

    /** The generic loop over every non-excluded name, stopping where a tag is missing. */
    method ScanNames(file: string) returns (missing: Option<string>)
      modifies this
      ensures GenericPass(file, old(table), old(names)) == Scan(table, missing)
      ensures names == old(names)
    {
      ghost var table0 := table;
      var i := 0;
      missing := None;
      while i < |names| && missing.None?
        invariant 0 <= i <= |names| && names == old(names)
        invariant GenericPass(file, table0, names[..i]) == Scan(table, missing)
      {
        var h := names[i];
        assert names[..i + 1][..i] == names[..i];
        if h !in Excluded {
          var v := TagValue(file, h);
          if v.None? {
            missing := Some(h);
          } else {
            table := Append(table, h, v.value);
          }
        }
        i := i + 1;
      }
      if missing.Some? {
        GenericPassStops(file, table0, names, i);
      } else {
        assert names[..i] == names;
      }
    }

    /** The modality branch: record each present modality tag and append its name. */
    method AddModalityTags(file: string, modality: string)
      modifies this
      ensures table == AppendAll(old(table), Extras(file, modality))
      ensures names == old(names) + ExtraNames(Extras(file, modality))
    {
      var names3 := ModalityNames(modality);
      if names3 != [] {
        AddThreeTags(file, names3[0], names3[1], names3[2]);
      } else {
        NoExtras(file, modality);
      }
    }

    /** The three blocks of one modality, one after the other. */
    method AddThreeTags(file: string, n0: string, n1: string, n2: string)
      modifies this
      ensures table == AppendAll(old(table), ThreeTagPairs(file, n0, n1, n2))
      ensures names == old(names) + ExtraNames(ThreeTagPairs(file, n0, n1, n2))
    {
      ghost var a := AddTag(file, n0, UnitOf(n0));
      ghost var b := AddTag(file, n1, UnitOf(n1));
      AppendAllConcat(old(table), a, b);
      ExtraNamesConcat(a, b);
      ConcatAssoc(old(names), ExtraNames(a), ExtraNames(b));
      ghost var c := AddTag(file, n2, UnitOf(n2));
      AppendAllConcat(old(table), a + b, c);
      ExtraNamesConcat(a + b, c);
      ConcatAssoc(old(names), ExtraNames(a + b), ExtraNames(c));
    }

    /**
     * One block of the modality branch: when `name-` occurs, append the
     * tag's value (cut at `unit`) under `name` and append `name` to the
     * list of names.
     */
    method AddTag(file: string, name: string, unit: Option<string>) returns (ghost added: seq<(string, string)>)
      requires unit.Some? ==> |unit.value| > 0
      modifies this
      ensures added == ExtraPair(file, name, unit)
      ensures table == AppendAll(old(table), added)
      ensures names == old(names) + ExtraNames(added)
    {
      added := [];
      if Contains(file, name + "-") {
        var v := TagValue(file, name).value;
        if unit.Some? {
          v := BeforeFirst(v, unit.value);
        }
        table := Append(table, name, v);
        names := names + [name];
        added := [(name, v)];
      }
    }

    /** The final loop: every list replaced by its distinct elements, keys visited in any order. */
    method DeduplicateLists()
      modifies this
      ensures table == DistinctAll(old(table)) && names == old(names)
    {
      var keys := table.Keys;
      while keys != {}
        invariant keys <= old(table).Keys && table.Keys == old(table).Keys && names == old(names)
        invariant forall k :: k in table ==> table[k] == if k in keys then old(table)[k] else Distinct(old(table)[k])
        decreases keys
      {
        var k :| k in keys;
        table := table[k := Distinct(table[k])];
        keys := keys - {k};
      }
    }
  }
}
