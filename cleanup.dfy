/** Steps 4 to 6 of the normaliser (app.py:111-118): numbered bold markers are deleted, the
    "Provide a Verdict" header is deleted, and the remaining bold names followed by a colon
    become `<h4>` headings. Each step strips the result. */
module Cleanup {
  import opened Text
  import opened Patterns

  /** Step 4: every numbered bold marker at the start of a line is deleted, then the text is
      stripped. */
  function MarkerStep(s: string): string {
    Strip(ReplaceAll(MarkerHit, s))
  }

  /** Step 5a: every "Provide a Verdict" header and the whitespace after it is deleted, then the
      text is stripped. */
  function FillerStep(s: string): string {
    Strip(ReplaceAll(FillerHit, s))
  }

  /** Step 5b: every bold name followed by a colon becomes an `<h4>` heading on a line of its own,
      then the text is stripped. */
  function HeadingStep(s: string): string {
    Strip(ReplaceAll(HeadingHit, s))
  }

  /** `s` holds no `**`, the opening of every pattern of steps 4 to 6. */
  ghost predicate NoDoubleStar(s: string) {
    forall k :: !OccursAt(s, DoubleStar, k)
  }

  // ----- numbered markers -----

  ghost predicate HasMarker(s: string, i: int) {
    exists dot, bold, close, end :: IsMarker(s, i, dot, bold, close, end)
  }

  /** Of the ways the marker pattern can match at `i`, `MarkerAt` takes the one Python's
      backtracking reaches first: the digit run and the whitespace run are forced, the bold name
      is the shortest one, and for that name the trailing whitespace is taken whole. */
  lemma MarkerAtIsPreferredMatch(s: string, i: nat, dot: int, bold: int, close: int, end: int)
    requires IsMarker(s, i, dot, bold, close, end)
    ensures MarkerAt(s, i).Some?
    ensures var m := MarkerAt(s, i).value;
      && m.dot == dot && m.bold == bold && m.close <= close
      && (m.close == close ==> end <= m.end)
  {
    SkipRunIs(s, i, Digit, dot);
    OccursAtChar(s, DoubleStar, bold, 0);
    SkipRunIs(s, dot + 1, Whitespace, bold);
    var c := BoldClose(s, bold + |DoubleStar|);
    assert c.Some?;
    if c.value == close {
      SkipRunCovers(s, close + |BoldEnd|, Whitespace, end);
    }
  }

  /** Step 4 deletes a match at `i` exactly when `i` starts a line and the marker pattern matches
      there; the deletion reaches past all the whitespace that follows the name. */
  lemma MarkerHitExactly(s: string, i: nat)
    ensures MarkerHit(s, i).Some? <==> i < |s| && AtLineStart(s, i) && HasMarker(s, i)
    ensures MarkerHit(s, i).Some? ==> MarkerHit(s, i).value.replacement == []
    ensures MarkerHit(s, i).Some? ==>
      var e := MarkerHit(s, i).value.end;
      (exists dot, bold, close :: IsMarker(s, i, dot, bold, close, e)) && (e == |s| || !IsSpace(s[e]))
  {
    if i < |s| && AtLineStart(s, i) && HasMarker(s, i) {
      var dot, bold, close, end :| IsMarker(s, i, dot, bold, close, end);
      MarkerAtIsPreferredMatch(s, i, dot, bold, close, end);
    }
    if MarkerHit(s, i).Some? {
      var m := MarkerAt(s, i).value;
      assert IsMarker(s, i, m.dot, m.bold, m.close, m.end);
    }
  }

  // ----- the filler header -----

  /** Step 5a deletes a match exactly where `**Provide a Verdict**:` occurs, together with all the
      whitespace after it. */
  lemma FillerHitExactly(s: string, i: nat)
    requires i <= |s|
    ensures FillerHit(s, i).Some? <==> OccursAt(s, FillerHeader, i)
    ensures FillerHit(s, i).Some? ==>
      var e := FillerHit(s, i).value.end;
      && FillerHit(s, i).value.replacement == []
      && i + |FillerHeader| <= e
      && (forall j :: i + |FillerHeader| <= j < e ==> IsSpace(s[j]))
      && (e == |s| || !IsSpace(s[e]))
  {
  }

  // ----- bold headings -----

  /** The heading match at `i` given where its `**:` closes and where its whitespace ends. */
  lemma HeadingHitAt(s: string, i: nat, close: nat, end: nat)
    requires OccursAt(s, DoubleStar, i) && IsBoldClose(s, i + |DoubleStar|, close)
    requires forall x :: i + |DoubleStar| <= x < close ==> !OccursAt(s, BoldEnd, x)
    requires close + |BoldEnd| <= end <= |s|
    requires forall j :: close + |BoldEnd| <= j < end ==> IsSpace(s[j])
    requires end == |s| || !IsSpace(s[end])
    ensures HeadingHit(s, i) == Some(Hit(end, HeadingOpen + s[i + |DoubleStar|..close] + HeadingClose))
  {
    assert BoldClose(s, i + |DoubleStar|) == Some(close);
    SkipRunIs(s, close + |BoldEnd|, Whitespace, end);
  }

  /** The heading match at `i`, read off the slices of `s` that hold its pieces. */
  lemma HeadingFromPieces(s: string, i: nat, name: string, ws: string)
    requires forall j :: 0 <= j < |name| ==> name[j] != '\n'
    requires forall x :: 0 <= x < |name| ==> !OccursAt(name + BoldEnd, BoldEnd, x)
    requires forall j :: 0 <= j < |ws| ==> IsSpace(ws[j])
    requires i + |DoubleStar| + |name| + |BoldEnd| + |ws| <= |s|
    requires OccursAt(s, DoubleStar, i)
    requires s[i + |DoubleStar|..i + |DoubleStar| + |name| + |BoldEnd|] == name + BoldEnd
    requires s[i + |DoubleStar| + |name| + |BoldEnd|..i + |DoubleStar| + |name| + |BoldEnd| + |ws|] == ws
    requires var end := i + |DoubleStar| + |name| + |BoldEnd| + |ws|; end == |s| || !IsSpace(s[end])
    ensures HeadingHit(s, i)
      == Some(Hit(i + |DoubleStar| + |name| + |BoldEnd| + |ws|, HeadingOpen + name + HeadingClose))
  {
    var start := i + |DoubleStar|;
    var close := start + |name|;
    var end := close + |BoldEnd| + |ws|;
    var u := s[start..close + |BoldEnd|];
    OccursInSlice(u, BoldEnd, |name|, |name|, |u|);
    assert u[|name|..|u|] == BoldEnd;
    OccursFromSlice(s, BoldEnd, start, close + |BoldEnd|, |name|);
    forall x | start <= x < close && OccursAt(s, BoldEnd, x)
      ensures OccursAt(name + BoldEnd, BoldEnd, x - start)
    {
      OccursInSlice(s, BoldEnd, x, start, close + |BoldEnd|);
    }
    forall j | start <= j < close ensures s[j] != '\n' {
      assert s[j] == u[j - start];
    }
    forall j | close + |BoldEnd| <= j < end ensures IsSpace(s[j]) {
      assert s[j] == s[close + |BoldEnd|..end][j - close - |BoldEnd|];
    }
    assert u[..|name|] == name;
    assert s[start..close] == u[..|name|];
    HeadingHitAt(s, i, close, end);
  }

  /** A bold name followed by `**:` and whitespace becomes `<h4>name</h4>\n`, provided the
      name has no line break and no earlier `**:`; the scan goes on after the whitespace. */
  lemma HeadingReplaced(s: string, i: nat, name: string, ws: string)
    requires forall j :: 0 <= j < |name| ==> name[j] != '\n'
    requires forall x :: 0 <= x < |name| ==> !OccursAt(name + BoldEnd, BoldEnd, x)
    requires forall j :: 0 <= j < |ws| ==> IsSpace(ws[j])
    requires i + |DoubleStar| + |name| + |BoldEnd| + |ws| <= |s|
    requires OccursAt(s, DoubleStar, i)
    requires s[i + |DoubleStar|..i + |DoubleStar| + |name| + |BoldEnd|] == name + BoldEnd
    requires s[i + |DoubleStar| + |name| + |BoldEnd|..i + |DoubleStar| + |name| + |BoldEnd| + |ws|] == ws
    requires var end := i + |DoubleStar| + |name| + |BoldEnd| + |ws|; end == |s| || !IsSpace(s[end])
    ensures Sub(HeadingHit, s, i) == HeadingOpen + name + HeadingClose
      + Sub(HeadingHit, s, i + |DoubleStar| + |name| + |BoldEnd| + |ws|)
  {
    HeadingFromPieces(s, i, name, ws);
    SubAtHit(HeadingHit, s, i);
  }

  /** Text in which no `**` starts is copied in order by step 5b. */
  lemma HeadingKeepsPlainText(s: string, i: nat, j: nat)
    requires i <= j <= |s|
    requires forall k :: i <= k < j ==> !OccursAt(s, DoubleStar, k)
    ensures Sub(HeadingHit, s, i) == s[i..j] + Sub(HeadingHit, s, j)
  {
    forall k | i <= k < j ensures HeadingHit(s, k).None? {
      assert !OccursAt(s, DoubleStar, k);
    }
    SubKeepsPrefix(HeadingHit, s, i, j);
  }

  // ----- text without `**` -----

  lemma TrimKeepsNoDoubleStar(r: string, s: string)
    requires IsTrimOf(r, s) && NoDoubleStar(s)
    ensures NoDoubleStar(r)
  {
    var a :| IsTrimAt(r, s, a);
    forall k | OccursAt(r, DoubleStar, k) ensures OccursAt(s, DoubleStar, a + k) {
      OccursFromSlice(s, DoubleStar, a, a + |r|, k);
    }
  }

  /** Each of the three patterns needs a `**` to match. */
  lemma MatchNeedsDoubleStar(s: string, i: nat)
    ensures MarkerHit(s, i).Some? ==> OccursAt(s, DoubleStar, MarkerAt(s, i).value.bold)
    ensures FillerHit(s, i).Some? ==> OccursAt(s, DoubleStar, i)
    ensures HeadingHit(s, i).Some? ==> OccursAt(s, DoubleStar, i)
  {
    if FillerHit(s, i).Some? {
      OccursPrefix(s, FillerHeader, i, |DoubleStar|);
      assert FillerHeader[..|DoubleStar|] == DoubleStar;
    }
  }

  /** None of the three patterns matches anywhere in text that holds no `**`. */
  lemma NoDoubleStarNoMatch(s: string, i: nat)
    requires NoDoubleStar(s)
    ensures MarkerHit(s, i).None? && FillerHit(s, i).None? && HeadingHit(s, i).None?
  {
    MatchNeedsDoubleStar(s, i);
  }

  /** Text without `**` is a fixed point of each of the three substitutions. */
  lemma BoldFreeUnchanged(t: string)
    requires NoDoubleStar(t)
    ensures ReplaceAll(MarkerHit, t) == t
    ensures ReplaceAll(FillerHit, t) == t
    ensures ReplaceAll(HeadingHit, t) == t
  {
    forall k | 0 <= k < |t|
      ensures MarkerHit(t, k).None? && FillerHit(t, k).None? && HeadingHit(t, k).None?
    {
      NoDoubleStarNoMatch(t, k);
    }
    SubUnchanged(MarkerHit, t, 0);
    SubUnchanged(FillerHit, t, 0);
    SubUnchanged(HeadingHit, t, 0);
  }

  /** Text without `**` passes steps 4 to 6 unchanged apart from the strip. */
  lemma CleanupWithoutBold(s: string)
    requires NoDoubleStar(s)
    ensures MarkerStep(s) == Strip(s)
    ensures HeadingStep(FillerStep(MarkerStep(s))) == Strip(s)
  {
    BoldFreeUnchanged(s);
    var t1 := MarkerStep(s);
    TrimKeepsNoDoubleStar(t1, s);
    BoldFreeUnchanged(t1);
    StripIdempotent(s);
    var t2 := FillerStep(t1);
    assert t2 == t1;
    BoldFreeUnchanged(t2);
  }
}
