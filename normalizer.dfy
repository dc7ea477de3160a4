/** The whole clean-up of the model's reply (app.py:99-124): tags are stripped, the verdict line is
    taken out, the body is cleaned, and the two are joined with a separator that
    lets the display split them apart again. */
module Normalizer {
  import opened Text
  import opened Patterns
  import opened Tags
  import opened Verdicts
  import opened Cleanup
  import opened Collapse

  const Separator: string := "---SEPARATOR---"

  /** Steps 3 to 7 on the tag-stripped text: the verdict lines are deleted, then the markers, the
      filler header and the bold headings are handled, then the line breaks are collapsed. */
  function Body(t: string): (b: string)
    ensures Collapsed(b)
    ensures b != [] ==> !IsSpace(b[0]) && !IsSpace(b[|b| - 1])
  {
    CollapseStep(HeadingStep(FillerStep(MarkerStep(RemoveVerdicts(t)))))
  }

  /** Step 8: the verdict line and the body, joined by the separator. */
  function Join(v: string, b: string): string {
    v + Separator + b
  }

  /** The split at the first separator that the joined format is designed for. */
  function SplitAtSeparator(r: string): (p: Option<(string, string)>)
    ensures p.Some? ==> Join(p.value.0, p.value.1) == r && !Contains(p.value.0, Separator)
    ensures p.Some? ==> forall j :: 0 <= j < |p.value.0| ==> !OccursAt(r, Separator, j)
    ensures p.None? ==> !Contains(r, Separator)
  {
    var f := Find(r, Separator, 0);
    if f.None? then None
    else
      var i := f.value;
      var v := r[..i];
      assert r[0..i] == v;
      SliceOccurrences(r, Separator, 0, i);
      assert r[i..i + |Separator|] == Separator;
      assert r == v + Separator + r[i + |Separator|..];
      Some((v, r[i + |Separator|..]))
  }

  /** The text the handler passes to the results page (app.py:124-129). */
  function Normalize(raw: string): (r: string)
    ensures OccursAt(r, VerdictOpen, 0)
    ensures var t := StripTags(raw);
      && |VerdictLine(t)| + |Separator| <= |r|
      && r[..|VerdictLine(t)|] == VerdictLine(t)
      && OccursAt(r, Separator, |VerdictLine(t)|)
      && r[|VerdictLine(t)| + |Separator|..] == Body(t)
  {
    var t := StripTags(raw);
    var v := VerdictLine(t);
    var b := Body(t);
    JoinShape(v, b);
    Join(v, b)
  }

  /** Where the pieces of a joined text stand. */
  lemma JoinShape(v: string, b: string)
    requires OccursAt(v, VerdictOpen, 0)
    ensures var r := Join(v, b);
      && |v| + |Separator| <= |r| && r[..|v|] == v
      && OccursAt(r, VerdictOpen, 0) && OccursAt(r, Separator, |v|) && r[|v| + |Separator|..] == b
  {
    var r := Join(v, b);
    assert r[..|v|] == v;
    OccursFromSlice(r, VerdictOpen, 0, |v|, 0);
    assert r[|v|..|v| + |Separator|] == Separator;
  }

  lemma SeparatorHasNoBracket(p: int)
    requires 0 <= p < |Separator|
    ensures Separator[p] != ']'
  {
  }

  /** Splitting at the first separator gives back the two joined parts, when the first part holds no
      separator and ends in `]`. (Without that last condition, a first part ending in
      `---SEPARATOR` would let an earlier separator straddle the join.) */
  lemma SplitJoin(v: string, b: string)
    requires !Contains(v, Separator)
    requires v != [] && v[|v| - 1] == ']'
    ensures SplitAtSeparator(Join(v, b)) == Some((v, b))
  {
    var r := Join(v, b);
    assert r[..|v|] == v;
    assert r[|v|..|v| + |Separator|] == Separator;
    forall j | 0 <= j < |v| && OccursAt(r, Separator, j) ensures false {
      if j + |Separator| <= |v| {
        OccursInSlice(r, Separator, j, 0, |v|);
      } else {
        OccursAtChar(r, Separator, j, |v| - 1 - j);
        SeparatorHasNoBracket(|v| - 1 - j);
      }
    }
    var f := Find(r, Separator, 0);
    assert OccursAt(r, Separator, |v|);
    assert f.Some? && f.value == |v|;
    assert r[|v| + |Separator|..] == b;
  }

  lemma SentinelHasNoSeparator()
    ensures !Contains(Sentinel, Separator)
  {
    forall i | OccursAt(Sentinel, Separator, i) ensures false {
      OccursAtChar(Sentinel, Separator, i, 0);
    }
  }

  /** Splitting at the first separator recovers the verdict line and the body, provided the
      verdict line does not itself contain the separator. */
  lemma NormalizeSplits(raw: string)
    requires !Contains(VerdictLine(StripTags(raw)), Separator)
    ensures var t := StripTags(raw);
      SplitAtSeparator(Normalize(raw)) == Some((VerdictLine(t), Body(t)))
  {
    var t := StripTags(raw);
    var v := VerdictLine(t);
    OccursAtChar(v, PercentClose, |v| - |PercentClose|, 1);
    SplitJoin(v, Body(t));
  }

  /** A reply without a verdict line yields the sentinel, the page splits it off, and the body is
      the tag-stripped reply cleaned by steps 4 to 7 only. */
  lemma NoVerdictNormalize(raw: string)
    requires Search(VerdictHit, StripTags(raw), 0).None?
    ensures var t := StripTags(raw);
      var b := CollapseStep(HeadingStep(FillerStep(MarkerStep(Strip(t)))));
      && Normalize(raw) == Join(Sentinel, b)
      && SplitAtSeparator(Normalize(raw)) == Some((Sentinel, b))
  {
    var t := StripTags(raw);
    NoVerdictKeepsText(t);
    SentinelHasNoSeparator();
    NormalizeSplits(raw);
  }

  /** Plain prose (no `<`, no verdict line, no `**`) follows the sentinel only stripped and
      with its line breaks collapsed. */
  lemma PlainReplyNormalize(raw: string)
    requires forall k :: 0 <= k < |raw| ==> raw[k] != '<'
    requires Search(VerdictHit, raw, 0).None?
    requires NoDoubleStar(raw)
    ensures Normalize(raw) == Join(Sentinel, CollapseStep(Strip(raw)))
  {
    StripTagsNoAngle(raw);
    NoVerdictNormalize(raw);
    TrimKeepsNoDoubleStar(Strip(raw), raw);
    CleanupWithoutBold(Strip(raw));
    StripIdempotent(raw);
  }
}
