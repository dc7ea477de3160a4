/** Steps 2 and 3 of the normaliser (app.py:104-108): finding the verdict line with `re.search`
    and deleting every verdict line from the body with `re.sub`. */
module Verdicts {
  import opened Text
  import opened Patterns

  /** What the verdict line is when the model's text holds none. */
  const Sentinel: string := "[VERDICT: Error] [CONFIDENCE: 0%]"

  /** The sentinel has the shape of a verdict line: `[VERDICT:` first, `[CONFIDENCE:` at 17 and
      `%]` last. */
  lemma SentinelShape()
    ensures OccursAt(Sentinel, VerdictOpen, 0)
    ensures OccursAt(Sentinel, ConfidenceOpen, 17)
    ensures OccursAt(Sentinel, PercentClose, |Sentinel| - |PercentClose|)
  {
  }

  /** Of all the ways the verdict pattern can match at `i`, the one `VerdictAt` picks is the one
      Python's backtracking reaches first: the earliest `]` after which a match can be completed,
      and for that `]` the earliest `%]`. In particular a match exists at `i` exactly when
      `VerdictAt` finds one, though it only ever tries the first `]` that has `[CONFIDENCE:` after
      it: when no `%]` follows that one, none follows any later one either. */
  lemma VerdictAtIsPreferredMatch(s: string, i: nat, close: int, conf: int, pct: int)
    requires IsVerdict(s, i, close, conf, pct)
    ensures VerdictAt(s, i).Some?
    ensures var m := VerdictAt(s, i).value;
      m.close <= close && (m.close == close ==> m.conf == conf && m.pct <= pct)
  {
    var first := FirstClose(s, i + |VerdictOpen|);
    assert first.Some?;
    var (c0, q0) := first.value;
    assert c0 <= close;
    if c0 == close {
      ConfidenceFollowsOnce(s, close, SkipRun(s, close + 1, Whitespace));
      assert q0 == conf;
    } else {
      OccursAtChar(s, ConfidenceOpen, q0, 0);
      assert !IsSpace(s[close]);
      assert q0 < close;
    }
    assert Find(s, PercentClose, q0 + |ConfidenceOpen|).Some?;
  }

  /** A verdict hit is the match `VerdictAt` finds, ending after its `%]`. */
  lemma HitIsVerdictAt(t: string, i: nat, h: Hit)
    requires VerdictHit(t, i) == Some(h)
    ensures VerdictAt(t, i).Some? && h == Hit(VerdictAt(t, i).value.pct + |PercentClose|, "")
  {
  }

  /** The text a verdict match spans opens with `[VERDICT:`, holds `[CONFIDENCE:` and closes
      with `%]`. */
  lemma MatchedSpan(t: string, i: int, close: int, conf: int, pct: int)
    requires IsVerdict(t, i, close, conf, pct)
    ensures var end := pct + |PercentClose|;
      && i < end <= |t|
      && OccursAt(t[i..end], VerdictOpen, 0)
      && OccursAt(t[i..end], ConfidenceOpen, conf - i)
      && Contains(t[i..end], ConfidenceOpen)
      && OccursAt(t[i..end], PercentClose, end - i - |PercentClose|)
      && !IsSpace(t[i]) && !IsSpace(t[end - 1])
  {
    var end := pct + |PercentClose|;
    OccursInSlice(t, VerdictOpen, i, i, end);
    OccursInSlice(t, ConfidenceOpen, conf, i, end);
    OccursInSlice(t, PercentClose, pct, i, end);
    OccursAtChar(t, VerdictOpen, i, 0);
    OccursAtChar(t, PercentClose, pct, 1);
  }

  lemma HitOfVerdictAt(t: string, j: nat)
    requires VerdictAt(t, j).Some?
    ensures VerdictHit(t, j) == Some(Hit(VerdictAt(t, j).value.pct + |PercentClose|, ""))
  {
  }

  /** A verdict match, stripped: it has the shape of a verdict line, and the strip removes
      nothing since the match opens with `[` and closes with `]`. */
  function StrippedMatch(t: string, i: nat, h: Hit): (line: string)
    requires VerdictHit(t, i) == Some(h)
    ensures OccursAt(line, VerdictOpen, 0)
    ensures Contains(line, ConfidenceOpen)
    ensures OccursAt(line, PercentClose, |line| - |PercentClose|)
  {
    var m := t[i..h.end];
    MatchShape(t, i, h);
    StripNoop(m);
    Strip(m)
  }

  lemma StrippedMatchIsMatch(t: string, i: nat, h: Hit)
    requires VerdictHit(t, i) == Some(h)
    ensures StrippedMatch(t, i, h) == t[i..h.end]
  {
    MatchShape(t, i, h);
    StripNoop(t[i..h.end]);
  }

  /** The text of a verdict match has the shape of a verdict line and no whitespace at either
      end. */
  lemma MatchShape(t: string, i: nat, h: Hit)
    requires VerdictHit(t, i) == Some(h)
    ensures var m := t[i..h.end];
      && OccursAt(m, VerdictOpen, 0)
      && Contains(m, ConfidenceOpen)
      && OccursAt(m, PercentClose, |m| - |PercentClose|)
      && m != [] && !IsSpace(m[0]) && !IsSpace(m[|m| - 1])
  {
    HitIsVerdictAt(t, i, h);
    var v := VerdictAt(t, i).value;
    MatchedSpan(t, i, v.close, v.conf, v.pct);
  }

  /** Step 2: the leftmost verdict match, stripped, or the sentinel when there is none. */
  function VerdictLine(t: string): (v: string)
    ensures OccursAt(v, VerdictOpen, 0)
    ensures Contains(v, ConfidenceOpen)
    ensures OccursAt(v, PercentClose, |v| - |PercentClose|)
  {
    var found := Search(VerdictHit, t, 0);
    if found.None? then
      SentinelShape();
      Sentinel
    else
      StrippedMatch(t, found.value.0, found.value.1)
  }

  /** Step 3: every verdict match is deleted, then the text is stripped. */
  function RemoveVerdicts(t: string): string {
    Strip(ReplaceAll(VerdictHit, t))
  }

  /** When the text holds a verdict line, step 2 returns the leftmost match verbatim (the strip
      changes nothing). */
  lemma VerdictLineIsMatchedText(t: string)
    requires Search(VerdictHit, t, 0).Some?
    ensures var found := Search(VerdictHit, t, 0).value;
      VerdictLine(t) == t[found.0..found.1.end]
  {
    var found := Search(VerdictHit, t, 0).value;
    VerdictLineOfFound(t);
    StrippedMatchIsMatch(t, found.0, found.1);
  }

  lemma VerdictLineOfFound(t: string)
    requires Search(VerdictHit, t, 0).Some?
    ensures VerdictLine(t) == StrippedMatch(t, Search(VerdictHit, t, 0).value.0, Search(VerdictHit, t, 0).value.1)
  {
  }

  /** No verdict match starts before the one `re.search` reports. */
  lemma VerdictMatchIsLeftmost(t: string)
    requires Search(VerdictHit, t, 0).Some?
    ensures forall j, c, q, p :: IsVerdict(t, j, c, q, p) ==> Search(VerdictHit, t, 0).value.0 <= j
  {
    var i := Search(VerdictHit, t, 0).value.0;
    forall j, c, q, p | IsVerdict(t, j, c, q, p) ensures i <= j {
      VerdictAtIsPreferredMatch(t, j, c, q, p);
      HitOfVerdictAt(t, j);
    }
  }

  /** Without a verdict line the sentinel is used, the regex matches nowhere, and step 3 only
      strips the text: nothing of it is lost. */
  lemma NoVerdictKeepsText(t: string)
    requires Search(VerdictHit, t, 0).None?
    ensures VerdictLine(t) == Sentinel
    ensures forall j, c, q, p :: !IsVerdict(t, j, c, q, p)
    ensures RemoveVerdicts(t) == Strip(t)
  {
    forall j, c, q, p ensures !IsVerdict(t, j, c, q, p) {
      if IsVerdict(t, j, c, q, p) {
        VerdictAtIsPreferredMatch(t, j, c, q, p);
        HitOfVerdictAt(t, j);
      }
    }
    SubUnchanged(VerdictHit, t, 0);
    assert t[0..] == t;
  }

  /** Step 3 deletes the leftmost verdict line: the text before it is kept as it is, and the
      scan for further verdict lines resumes right after it. */
  lemma VerdictRemoved(t: string)
    requires Search(VerdictHit, t, 0).Some?
    ensures var (i, h) := Search(VerdictHit, t, 0).value;
      ReplaceAll(VerdictHit, t) == t[..i] + Sub(VerdictHit, t, h.end)
  {
    var (i, h) := Search(VerdictHit, t, 0).value;
    SubKeepsPrefix(VerdictHit, t, 0, i);
  }
}
