/**
 * The string primitives the modelled code relies on: substring search,
 * the pieces of `str.split(sep)` that it indexes, `os.path.basename`
 * and the decimal rendering of a natural number.
 */
module Text {
  import opened Wrappers

  /** `pat` occurs in `s` starting at position `k`. */
  predicate OccursAt(s: string, pat: string, k: int) {
    0 <= k && k + |pat| <= |s| && s[k..k + |pat|] == pat
  }

  /** Python's `pat in s`. */
  predicate Contains(s: string, pat: string) {
    exists k | 0 <= k <= |s| :: OccursAt(s, pat, k)
  }

  /** `k` is the leftmost occurrence of `pat` in `s`. */
  predicate FirstOccurrence(s: string, pat: string, k: int) {
    OccursAt(s, pat, k) && forall j :: 0 <= j < k ==> !OccursAt(s, pat, j)
  }

  /** Leftmost occurrence of `pat` in `s` at or after `i`. */
  function IndexFrom(s: string, pat: string, i: nat): (r: Option<nat>)
    requires |pat| > 0 && i <= |s|
    ensures r.Some? ==> i <= r.value && OccursAt(s, pat, r.value)
    ensures r.Some? ==> forall j :: i <= j < r.value ==> !OccursAt(s, pat, j)
    ensures r.None? ==> forall j :: i <= j ==> !OccursAt(s, pat, j)
    decreases |s| - i
  {
    if i + |pat| > |s| then None
    else if s[i..i + |pat|] == pat then Some(i)
    else IndexFrom(s, pat, i + 1)
  }

  /** Leftmost occurrence of a non-empty `pat` in `s`, as `str.find` gives it. */
  function IndexOf(s: string, pat: string): (r: Option<nat>)
    requires |pat| > 0
    ensures r.Some? <==> Contains(s, pat)
    ensures r.Some? ==> FirstOccurrence(s, pat, r.value)
  {
    IndexFrom(s, pat, 0)
  }

  /** `s.split(sep)[0]`: the text before the first `sep`, or all of `s`. */
  function BeforeFirst(s: string, sep: string): (r: string)
    requires |sep| > 0
    ensures r <= s
    ensures forall j :: 0 <= j < |r| ==> !OccursAt(s, sep, j)
    ensures |r| < |s| <==> Contains(s, sep)
    ensures |r| < |s| ==> OccursAt(s, sep, |r|)
  {
    match IndexOf(s, sep)
    case None => s
    case Some(k) => s[..k]
  }

  /**
   * `s.split(sep)[1]`: the text between the first and the second
   * occurrence of `sep` (or the end of `s`); `None` where Python raises
   * IndexError because `sep` does not occur.
   */
  function SecondPiece(s: string, sep: string): (r: Option<string>)
    requires |sep| > 0
    ensures r.None? <==> !Contains(s, sep)
  {
    match IndexOf(s, sep)
    case None => None
    case Some(k) => Some(BeforeFirst(s[k + |sep|..], sep))
  }

  /** What `SecondPiece` returns, stated without it: cut the text after the first `sep` at the next `sep`. */
  lemma SecondPieceSpec(s: string, sep: string, k: nat)
    requires |sep| > 0 && FirstOccurrence(s, sep, k)
    ensures var after := s[k + |sep|..];
      && SecondPiece(s, sep).Some?
      && SecondPiece(s, sep).value <= after
      && (forall j :: 0 <= j < |SecondPiece(s, sep).value| ==> !OccursAt(after, sep, j))
      && (|SecondPiece(s, sep).value| == |after| || OccursAt(after, sep, |SecondPiece(s, sep).value|))
  {
    assert OccursAt(s, sep, k);
  }

  /** `os.path.basename(p)`: the text after the last `/`. */
  function Basename(p: string): (r: string)
    ensures |r| <= |p| && r == p[|p| - |r|..]
    ensures '/' !in r
    ensures |r| < |p| ==> p[|p| - |r| - 1] == '/'
  {
    if p == [] then []
    else if p[|p| - 1] == '/' then []
    else Basename(p[..|p| - 1]) + [p[|p| - 1]]
  }

  /** `op.basename(roi).split('.')[0]`: the file name of `roi` up to its first dot. */
  function Stem(roi: string): (r: string)
    ensures '/' !in r && '.' !in r
    ensures r <= Basename(roi)
    ensures |r| == |Basename(roi)| || Basename(roi)[|r|] == '.'
  {
    var b := Basename(roi);
    DotCut(b);
    BeforeFirst(b, ".")
  }

  /** `b.split('.')[0]` holds no dot and runs to the first dot of `b` or its end. */
  lemma DotCut(b: string)
    ensures var r := BeforeFirst(b, ".");
      r <= b && '.' !in r && (|r| == |b| || b[|r|] == '.')
  {
    var r := BeforeFirst(b, ".");
    NoCharBeforeFirst(b, '.');
    if |r| < |b| {
      assert OccursAt(b, ".", |r|);
      assert b[|r|..|r| + 1] == ".";
    }
  }

  /** No single-character separator appears in the text before its first occurrence. */
  lemma NoCharBeforeFirst(s: string, c: char)
    ensures c !in BeforeFirst(s, [c])
  {
    var r := BeforeFirst(s, [c]);
    forall j | 0 <= j < |r|
      ensures r[j] != c
    {
      assert !OccursAt(s, [c], j);
      assert s[j..j + 1] == [s[j]];
    }
  }

  /** The character of one decimal digit. */
  function DigitChar(d: nat): (c: char)
    requires d < 10
    ensures '0' <= c <= '9' && (c as int) - ('0' as int) == d
  {
    ('0' as int + d) as char
  }

  /** Python's `str(n)` for a natural number. */
  function NatToDecimal(n: nat): (r: string)
    ensures |r| > 0
    ensures forall j :: 0 <= j < |r| ==> '0' <= r[j] <= '9'
  {
    if n < 10 then [DigitChar(n)] else NatToDecimal(n / 10) + [DigitChar(n % 10)]
  }

  /** The value of a string of decimal digits, the inverse of `NatToDecimal`. */
  function DecimalValue(s: string): nat
    requires forall j :: 0 <= j < |s| ==> '0' <= s[j] <= '9'
  {
    if s == [] then 0
    else 10 * DecimalValue(s[..|s| - 1]) + ((s[|s| - 1] as int) - ('0' as int))
  }

  /** Reading back the rendered digits gives the number. */
  lemma {:induction false} DecimalRoundTrip(n: nat)
    ensures DecimalValue(NatToDecimal(n)) == n
  {
    var r := NatToDecimal(n);
    if n >= 10 {
      DecimalRoundTrip(n / 10);
      assert r[..|r| - 1] == NatToDecimal(n / 10);
    }
  }
}
