/** The six regular expressions that app.py passes to `re.sub` and `re.search`, each as a
    deterministic matcher at an index of the whole string (where Python's `re` engine tries it),
    and `re.sub`/`re.search` built on them. */
module Patterns {
  import opened Text

  /** A match ending (exclusively) at `end`, and the text `re.sub` puts in its place. */
  datatype Hit = Hit(end: nat, replacement: string)

  const VerdictOpen: string := "[VERDICT:"
  const ConfidenceOpen: string := "[CONFIDENCE:"
  const PercentClose: string := "%]"
  const DoubleStar: string := "**"
  const BoldEnd: string := "**:"
  const FillerHeader: string := "**Provide a Verdict**:"
  const HeadingOpen: string := "<h4>"
  const HeadingClose: string := "</h4>\n"

  // ----- <[^>]+> -----

  /** `s[i..j + 1]` is a match of `<[^>]+>`. */
  ghost predicate IsTag(s: string, i: int, j: int) {
    0 <= i && i + 1 < j < |s| && s[i] == '<' && s[j] == '>' && forall k :: i < k < j ==> s[k] != '>'
  }

  /** The end of the tag that starts at `i`, if any: `[^>]+` is greedy and stops at the first `>`. */
  function TagAt(s: string, i: nat): (r: Option<nat>)
    ensures r.Some? ==> IsTag(s, i, r.value - 1)
    ensures r.None? ==> forall j :: !IsTag(s, i, j)
  {
    if i + 1 < |s| && s[i] == '<' then
      var j := SkipRun(s, i + 1, NotGt);
      if i + 1 < j < |s| then Some(j + 1) else None
    else None
  }

  // ----- \[VERDICT:.*?\]\s*\[CONFIDENCE:.*?%\] -----

  /** A `]` at `close`, then only whitespace, then `[CONFIDENCE:` at `conf`. */
  predicate IsCloseBeforeConfidence(s: string, close: int, conf: int) {
    && OccursAt(s, ConfidenceOpen, conf)
    && 0 <= close < conf && s[close] == ']'
    && forall k :: close < k < conf ==> IsSpace(s[k])
  }

  /** One way for the verdict pattern to match `s[i..pct + 2]`: the first lazy `.*?` ends at the
      `]` at `close`, `\s*` runs up to `conf`, and the second lazy `.*?` ends at the `%]` at `pct`.
      With re.DOTALL both `.*?` may cross line breaks. */
  ghost predicate IsVerdict(s: string, i: int, close: int, conf: int, pct: int) {
    && OccursAt(s, VerdictOpen, i)
    && i + |VerdictOpen| <= close
    && IsCloseBeforeConfidence(s, close, conf)
    && conf + |ConfidenceOpen| <= pct
    && OccursAt(s, PercentClose, pct)
  }

  datatype VerdictMatch = VerdictMatch(close: nat, conf: nat, pct: nat)

  /** The first `]` at or after `k` that is followed by whitespace and `[CONFIDENCE:`. */
  function FirstClose(s: string, k: nat): (r: Option<(nat, nat)>)
    requires k <= |s|
    ensures r.Some? ==> k <= r.value.0 && IsCloseBeforeConfidence(s, r.value.0, r.value.1)
    ensures r.Some? ==> forall c, q :: k <= c < r.value.0 ==> !IsCloseBeforeConfidence(s, c, q)
    ensures r.None? ==> forall c, q :: k <= c ==> !IsCloseBeforeConfidence(s, c, q)
    decreases |s| - k
  {
    if k == |s| then None
    else
      var q := SkipRun(s, k + 1, Whitespace);
      if s[k] == ']' && OccursAt(s, ConfidenceOpen, q) then Some((k, q))
      else
        ConfidenceFollowsOnce(s, k, q);
        FirstClose(s, k + 1)
  }

  /** After a given `]`, the `[CONFIDENCE:` can only stand where the whitespace run ends. */
  lemma ConfidenceFollowsOnce(s: string, close: nat, q: nat)
    requires close < |s| && q == SkipRun(s, close + 1, Whitespace)
    ensures forall conf :: IsCloseBeforeConfidence(s, close, conf) ==> conf == q
  {
    forall conf | IsCloseBeforeConfidence(s, close, conf)
      ensures conf == q
    {
      OccursAtChar(s, ConfidenceOpen, conf, 0);
      assert !IsSpace(s[conf]);
    }
  }

  /** The match of the verdict pattern at `i` that Python's backtracking finds first: the first
      `]` followed by whitespace and `[CONFIDENCE:`, then the first `%]` after that. */
  function VerdictAt(s: string, i: nat): (r: Option<VerdictMatch>)
    ensures r.Some? ==> IsVerdict(s, i, r.value.close, r.value.conf, r.value.pct)
  {
    if !OccursAt(s, VerdictOpen, i) then None
    else
      var c := FirstClose(s, i + |VerdictOpen|);
      if c.None? then None
      else
        var p := Find(s, PercentClose, c.value.1 + |ConfidenceOpen|);
        if p.None? then None else Some(VerdictMatch(c.value.0, c.value.1, p.value))
  }

  // ----- .*?\*\*:  (no re.DOTALL: the lazy run stops at a line break) -----

  /** `**:` at `x`, with no line break in `s[k..x]`. */
  ghost predicate IsBoldClose(s: string, k: int, x: int) {
    0 <= k <= x && OccursAt(s, BoldEnd, x) && forall j :: k <= j < x ==> s[j] != '\n'
  }

  ghost predicate HasBoldClose(s: string, k: int) {
    exists x :: IsBoldClose(s, k, x)
  }

  /** The shortest `.*?` from `k` that is followed by `**:`. */
  function BoldClose(s: string, k: nat): (r: Option<nat>)
    requires k <= |s|
    ensures r.Some? ==> IsBoldClose(s, k, r.value)
    ensures r.Some? ==> forall x :: k <= x < r.value ==> !OccursAt(s, BoldEnd, x)
    ensures r.None? ==> forall x :: !IsBoldClose(s, k, x)
    decreases |s| - k
  {
    if OccursAt(s, BoldEnd, k) then Some(k)
    else if k == |s| || s[k] == '\n' then None
    else
      assert forall x | IsBoldClose(s, k, x) :: IsBoldClose(s, k + 1, x);
      BoldClose(s, k + 1)
  }

  // ----- ^\d+\.\s+\*\*.*?\*\*:\s* -----

  /** One way for the numbered-marker pattern (without its `^`) to match `s[i..end]`. */
  ghost predicate IsMarker(s: string, i: int, dot: int, bold: int, close: int, end: int) {
    && 0 <= i < dot < |s| && (forall j :: i <= j < dot ==> IsDigit(s[j])) && s[dot] == '.'
    && OccursAt(s, DoubleStar, bold) && dot + 1 < bold && (forall j :: dot < j < bold ==> IsSpace(s[j]))
    && IsBoldClose(s, bold + |DoubleStar|, close)
    && close + |BoldEnd| <= end <= |s| && (forall j :: close + |BoldEnd| <= j < end ==> IsSpace(s[j]))
  }

  datatype MarkerMatch = MarkerMatch(dot: nat, bold: nat, close: nat, end: nat)

  /** The numbered marker at `i` that Python finds: greedy digits and whitespace, the shortest
      bold label, then all the whitespace after `**:`. */
  function MarkerAt(s: string, i: nat): (r: Option<MarkerMatch>)
    requires i <= |s|
    ensures r.Some? ==> IsMarker(s, i, r.value.dot, r.value.bold, r.value.close, r.value.end)
    ensures r.Some? ==> r.value.end == |s| || !IsSpace(s[r.value.end])
  {
    var dot := SkipRun(s, i, Digit);
    if dot == i || dot == |s| || s[dot] != '.' then None
    else
      var bold := SkipRun(s, dot + 1, Whitespace);
      if bold == dot + 1 || !OccursAt(s, DoubleStar, bold) then None
      else
        var close := BoldClose(s, bold + |DoubleStar|);
        if close.None? then None
        else Some(MarkerMatch(dot, bold, close.value, SkipRun(s, close.value + |BoldEnd|, Whitespace)))
  }

  // ----- \*\*Provide a Verdict\*\*:\s* -----

  /** The end of the filler header at `i` together with all the whitespace after it. */
  function FillerAt(s: string, i: nat): (r: Option<nat>)
    requires i <= |s|
    ensures r.Some? <==> OccursAt(s, FillerHeader, i)
    ensures r.Some? ==> i + |FillerHeader| <= r.value <= |s|
    ensures r.Some? ==> forall j :: i + |FillerHeader| <= j < r.value ==> IsSpace(s[j])
    ensures r.Some? ==> r.value == |s| || !IsSpace(s[r.value])
  {
    if OccursAt(s, FillerHeader, i) then Some(SkipRun(s, i + |FillerHeader|, Whitespace)) else None
  }

  // ----- \*\*(.*?)\*\*:\s* -----

  datatype HeadingMatch = HeadingMatch(close: nat, end: nat)

  /** The bold heading at `i`: its label is `s[i + 2..close]`, the shortest run with no line break
      that is followed by `**:`, and the match ends after all the whitespace that follows. */
  function HeadingAt(s: string, i: nat): (r: Option<HeadingMatch>)
    requires i <= |s|
    ensures r.Some? ==> OccursAt(s, DoubleStar, i) && IsBoldClose(s, i + |DoubleStar|, r.value.close)
    ensures r.Some? ==> forall x :: i + |DoubleStar| <= x < r.value.close ==> !OccursAt(s, BoldEnd, x)
    ensures r.Some? ==> r.value.close + |BoldEnd| <= r.value.end <= |s|
    ensures r.Some? ==> forall j :: r.value.close + |BoldEnd| <= j < r.value.end ==> IsSpace(s[j])
    ensures r.Some? ==> r.value.end == |s| || !IsSpace(s[r.value.end])
    ensures r.None? && OccursAt(s, DoubleStar, i) ==> !HasBoldClose(s, i + |DoubleStar|)
  {
    if !OccursAt(s, DoubleStar, i) then None
    else
      var close := BoldClose(s, i + |DoubleStar|);
      if close.None? then None
      else Some(HeadingMatch(close.value, SkipRun(s, close.value + |BoldEnd|, Whitespace)))
  }

  // ----- re.sub and re.search -----

  /** A matcher consumes at least one character: none of the patterns can match the empty
      string, so nothing matches at `|s|` either. */
  ghost predicate Consumes(m: (string, nat) -> Option<Hit>) {
    forall s: string, i: nat :: m(s, i).Some? ==> i < m(s, i).value.end <= |s|
  }

  /** The match that the regex engine finds when it tries one pattern at index `i` of `s`. */
  type Matcher = m: (string, nat) -> Option<Hit> | Consumes(m) witness (s: string, i: nat) => None

  /** `<[^>]+>`, replaced by nothing. */
  function TagHit(s: string, i: nat): (r: Option<Hit>)
    ensures r.Some? ==> i < r.value.end <= |s|
  {
    var e := TagAt(s, i);
    if e.None? then None else Some(Hit(e.value, ""))
  }

  /** `\[VERDICT:.*?\]\s*\[CONFIDENCE:.*?%\]` (re.DOTALL), replaced by nothing. */
  function VerdictHit(s: string, i: nat): (r: Option<Hit>)
    ensures r.Some? ==> i < r.value.end <= |s|
  {
    var m := VerdictAt(s, i);
    if m.None? then None else Some(Hit(m.value.pct + |PercentClose|, ""))
  }

  /** Where MULTILINE `^` matches: at the start of the string and just after a line break. */
  predicate AtLineStart(s: string, i: nat) {
    i == 0 || (i <= |s| && s[i - 1] == '\n')
  }

  /** `^\d+\.\s+\*\*.*?\*\*:\s*` (re.MULTILINE), replaced by nothing. */
  function MarkerHit(s: string, i: nat): (r: Option<Hit>)
    ensures r.Some? ==> i < r.value.end <= |s|
  {
    if i >= |s| || !AtLineStart(s, i) then None
    else
      var m := MarkerAt(s, i);
      if m.None? then None else Some(Hit(m.value.end, ""))
  }

  /** `\*\*Provide a Verdict\*\*:\s*`, replaced by nothing. */
  function FillerHit(s: string, i: nat): (r: Option<Hit>)
    ensures r.Some? ==> i < r.value.end <= |s|
  {
    if i > |s| then None
    else
      var e := FillerAt(s, i);
      if e.None? then None else Some(Hit(e.value, ""))
  }

  /** `\*\*(.*?)\*\*:\s*`, replaced by `<h4>\1</h4>\n`. */
  function HeadingHit(s: string, i: nat): (r: Option<Hit>)
    ensures r.Some? ==> i < r.value.end <= |s|
  {
    if i > |s| then None
    else
      var h := HeadingAt(s, i);
      if h.None? then None
      else Some(Hit(h.value.end, HeadingOpen + s[i + |DoubleStar|..h.value.close] + HeadingClose))
  }

  /** `\n+`, replaced by `\n\n`. */
  function NewlineHit(s: string, i: nat): (r: Option<Hit>)
    ensures r.Some? ==> i < r.value.end <= |s|
  {
    if i < |s| && s[i] == '\n' then Some(Hit(SkipRun(s, i, Newline), "\n\n")) else None
  }

  /** `re.sub` scanning from `i`: every leftmost, non-overlapping match is replaced, and the
      characters between matches are copied. */
  function Sub(m: Matcher, s: string, i: nat): string
    requires i <= |s|
    decreases |s| - i
  {
    if i == |s| then []
    else
      var h := m(s, i);
      if h.Some? then h.value.replacement + Sub(m, s, h.value.end) else [s[i]] + Sub(m, s, i + 1)
  }

  function ReplaceAll(m: Matcher, s: string): string {
    Sub(m, s, 0)
  }

  /** `re.search` from index `i`: the leftmost index where the pattern matches, and that match. */
  function Search(m: Matcher, s: string, i: nat): (r: Option<(nat, Hit)>)
    requires i <= |s|
    ensures r.Some? ==> i <= r.value.0 && m(s, r.value.0) == Some(r.value.1)
    ensures r.Some? ==> forall k :: i <= k < r.value.0 ==> m(s, k).None?
    ensures r.None? ==> forall k :: i <= k ==> m(s, k).None?
    decreases |s| - i
  {
    if i == |s| then None
    else
      var h := m(s, i);
      if h.Some? then Some((i, h.value)) else Search(m, s, i + 1)
  }

  // ----- properties of re.sub common to every pattern -----

  lemma SubCopies(m: Matcher, s: string, i: nat)
    requires i < |s| && m(s, i).None?
    ensures Sub(m, s, i) == [s[i]] + Sub(m, s, i + 1)
  {
  }

  lemma SubAtHit(m: Matcher, s: string, i: nat)
    requires i <= |s| && m(s, i).Some?
    ensures Sub(m, s, i) == m(s, i).value.replacement + Sub(m, s, m(s, i).value.end)
  {
  }

  /** Where the pattern matches nowhere, `re.sub` returns its input. */
  lemma {:induction false} SubUnchanged(m: Matcher, s: string, i: nat)
    requires i <= |s|
    requires forall k :: i <= k < |s| ==> m(s, k).None?
    ensures Sub(m, s, i) == s[i..]
    decreases |s| - i
  {
    if i < |s| {
      SubCopies(m, s, i);
      SubUnchanged(m, s, i + 1);
      assert s[i..] == [s[i]] + s[i + 1..];
    }
  }

  /** Text before the first match is copied in order, and the scan resumes where it stopped. */
  lemma {:induction false} SubKeepsPrefix(m: Matcher, s: string, i: nat, j: nat)
    requires i <= j <= |s|
    requires forall k :: i <= k < j ==> m(s, k).None?
    ensures Sub(m, s, i) == s[i..j] + Sub(m, s, j)
    decreases j - i
  {
    if i < j {
      SubCopies(m, s, i);
      SubKeepsPrefix(m, s, i + 1, j);
      assert s[i..j] == [s[i]] + s[i + 1..j];
    }
  }
}
