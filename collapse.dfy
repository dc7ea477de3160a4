/** Step 7 of the normaliser (app.py:121): every run of line breaks becomes exactly one blank
    line, and the text is stripped. */
module Collapse {
  import opened Text
  import opened Patterns

  /** The line breaks at `k` and `k + 1` are not followed by a third one. */
  predicate NoTripleAt(t: string, k: int)
    requires 0 <= k < |t| - 2
  {
    t[k] == '\n' && t[k + 1] == '\n' ==> t[k + 2] != '\n'
  }

  /** A line break at `k` has a line break next to it. */
  predicate PairedAtIndex(t: string, k: int)
    requires 0 <= k < |t|
  {
    t[k] == '\n' ==> (0 < k && t[k - 1] == '\n') || (k + 1 < |t| && t[k + 1] == '\n')
  }

  /** No three line breaks in a row. */
  ghost predicate NoTripleNewline(t: string) {
    forall k :: 0 <= k < |t| - 2 ==> NoTripleAt(t, k)
  }

  /** Every line break has a line break next to it. */
  ghost predicate PairedNewlines(t: string) {
    forall k :: 0 <= k < |t| ==> PairedAtIndex(t, k)
  }

  /** Every maximal run of line breaks in `t` has length two: the paragraphs are separated by
      exactly one blank line. */
  ghost predicate Collapsed(t: string) {
    NoTripleNewline(t) && PairedNewlines(t)
  }

  lemma PairedAt(t: string, k: int)
    requires PairedNewlines(t) && 0 <= k < |t| && t[k] == '\n'
    ensures (0 < k && t[k - 1] == '\n') || (k + 1 < |t| && t[k + 1] == '\n')
  {
    assert PairedAtIndex(t, k);
  }

  lemma CopyCollapsed(c: char, r: string)
    requires c != '\n' && Collapsed(r)
    ensures Collapsed([c] + r)
  {
    var t := [c] + r;
    forall k | 0 <= k < |t| - 2 ensures NoTripleAt(t, k) {
      if k >= 1 {
        assert NoTripleAt(r, k - 1);
        assert t[k] == r[k - 1] && t[k + 1] == r[k] && t[k + 2] == r[k + 1];
      }
    }
    forall k | 0 <= k < |t| ensures PairedAtIndex(t, k) {
      if k >= 1 {
        assert t[k] == r[k - 1];
        assert PairedAtIndex(r, k - 1);
        if k >= 2 {
          assert t[k - 1] == r[k - 2];
        }
        if k + 1 < |t| {
          assert t[k + 1] == r[k];
        }
      }
    }
  }

  lemma PairCollapsed(r: string)
    requires Collapsed(r) && (r == [] || r[0] != '\n')
    ensures Collapsed("\n\n" + r)
  {
    var t := "\n\n" + r;
    forall k | 0 <= k < |t| - 2 ensures NoTripleAt(t, k) {
      if k >= 2 {
        assert NoTripleAt(r, k - 2);
        assert t[k] == r[k - 2] && t[k + 1] == r[k - 1] && t[k + 2] == r[k];
      } else {
        assert t[2] == r[0];
      }
    }
    forall k | 0 <= k < |t| ensures PairedAtIndex(t, k) {
      if k >= 2 {
        assert t[k] == r[k - 2];
        assert PairedAtIndex(r, k - 2);
        if k >= 3 {
          assert t[k - 1] == r[k - 3];
        }
        if k + 1 < |t| {
          assert t[k + 1] == r[k - 1];
        }
      }
    }
  }

  /** The substitution leaves only pairs of line breaks, and its output from `i` opens with a line
      break exactly when the input does. */
  lemma {:induction false} SubNewlineCollapsed(s: string, i: nat)
    requires i <= |s|
    ensures Collapsed(Sub(NewlineHit, s, i))
    ensures Sub(NewlineHit, s, i) != [] ==> i < |s| && (Sub(NewlineHit, s, i)[0] == '\n' <==> s[i] == '\n')
    decreases |s| - i
  {
    if i < |s| {
      var h := NewlineHit(s, i);
      if h.Some? {
        var e := h.value.end;
        SubAtHit(NewlineHit, s, i);
        SubNewlineCollapsed(s, e);
        PairCollapsed(Sub(NewlineHit, s, e));
      } else {
        SubCopies(NewlineHit, s, i);
        SubNewlineCollapsed(s, i + 1);
        CopyCollapsed(s[i], Sub(NewlineHit, s, i + 1));
      }
    }
  }

  /** Cutting whitespace off both ends keeps the runs of line breaks paired. */
  lemma TrimCollapsed(r: string, s: string)
    requires IsTrimOf(r, s) && Collapsed(s)
    requires r != [] ==> !IsSpace(r[0]) && !IsSpace(r[|r| - 1])
    ensures Collapsed(r)
  {
    var a :| IsTrimAt(r, s, a);
    TrimNoTriple(r, s, a);
    TrimPaired(r, s, a);
  }

  lemma TrimNoTriple(r: string, s: string, a: int)
    requires IsTrimAt(r, s, a) && NoTripleNewline(s)
    ensures NoTripleNewline(r)
  {
    forall k | 0 <= k < |r| - 2 ensures NoTripleAt(r, k) {
      assert NoTripleAt(s, a + k);
      assert r[k] == s[a + k] && r[k + 1] == s[a + k + 1] && r[k + 2] == s[a + k + 2];
    }
  }

  lemma TrimPaired(r: string, s: string, a: int)
    requires IsTrimAt(r, s, a) && PairedNewlines(s)
    requires r != [] ==> !IsSpace(r[0]) && !IsSpace(r[|r| - 1])
    ensures PairedNewlines(r)
  {
    forall k | 0 <= k < |r| ensures PairedAtIndex(r, k) {
      if r[k] == '\n' {
        assert r[k] == s[a + k];
        assert IsSpace(r[k]);
        assert 0 < k < |r| - 1;
        assert PairedAtIndex(s, a + k);
        assert r[k - 1] == s[a + k - 1] && r[k + 1] == s[a + k + 1];
      }
    }
  }

  /** Step 7: after it, paragraphs are separated by exactly one blank line and the text has no
      whitespace at either end. */
  function CollapseStep(s: string): (r: string)
    ensures Collapsed(r)
    ensures r != [] ==> !IsSpace(r[0]) && !IsSpace(r[|r| - 1])
    ensures IsTrimOf(r, ReplaceAll(NewlineHit, s))
  {
    var t := ReplaceAll(NewlineHit, s);
    SubNewlineCollapsed(s, 0);
    TrimCollapsed(Strip(t), t);
    Strip(t)
  }

  /** A collapsed text is left as it is by the substitution, when the scan starts outside a run. */
  lemma {:induction false} SubOfCollapsed(t: string, i: nat)
    requires Collapsed(t) && i <= |t|
    requires !(0 < i < |t| && t[i - 1] == '\n' && t[i] == '\n')
    ensures Sub(NewlineHit, t, i) == t[i..]
    decreases |t| - i
  {
    if i < |t| {
      if t[i] == '\n' {
        PairedAt(t, i);
        if i + 2 < |t| {
          assert NoTripleAt(t, i);
        }
        SkipRunIs(t, i, Newline, i + 2);
        SubAtHit(NewlineHit, t, i);
        SubOfCollapsed(t, i + 2);
        assert t[i..] == t[i..i + 2] + t[i + 2..];
      } else {
        SubCopies(NewlineHit, t, i);
        SubOfCollapsed(t, i + 1);
        assert t[i..] == [t[i]] + t[i + 1..];
      }
    }
  }

  /** Collapsing twice is collapsing once. */
  lemma CollapseIdempotent(s: string)
    ensures CollapseStep(CollapseStep(s)) == CollapseStep(s)
  {
    var r := CollapseStep(s);
    SubOfCollapsed(r, 0);
    assert r[0..] == r;
    StripNoop(r);
  }
}
