/** Step 1 of the normaliser (app.py:100): every HTML-like tag `<...>` is deleted. */
module Tags {
  import opened Text
  import opened Patterns

  function StripTags(s: string): string {
    ReplaceAll(TagHit, s)
  }

  /** No substring of `t` matches `<[^>]+>`. */
  ghost predicate NoTag(t: string) {
    forall a, b :: !IsTag(t, a, b)
  }

  /** Every `<` in `t` that has a `>` anywhere after it is directly followed by `>`. */
  ghost predicate AngleSafe(t: string) {
    forall a, b :: 0 <= a < b < |t| && t[a] == '<' && t[b] == '>' ==> t[a + 1] == '>'
  }

  lemma AngleSafeHasNoTag(t: string)
    requires AngleSafe(t)
    ensures NoTag(t)
  {
    forall a, b ensures !IsTag(t, a, b) {
      if 0 <= a && a + 1 < b < |t| {
        // `AngleSafe` forces `>` right after a `<` that has a `>` later, while a tag needs a
        // non-`>` character there.
        assert t[a] == '<' && t[b] == '>' ==> t[a + 1] == '>';
      }
    }
  }

  /** Where no `>` follows index `i`, no tag can match, so that part is copied unchanged. */
  lemma NoGtUnchanged(s: string, i: nat)
    requires i <= |s|
    requires forall k :: i <= k < |s| ==> s[k] != '>'
    ensures Sub(TagHit, s, i) == s[i..]
  {
    forall k | i <= k < |s| ensures TagHit(s, k).None? {
      assert TagAt(s, k).Some? ==> IsTag(s, k, TagAt(s, k).value - 1);
    }
    SubUnchanged(TagHit, s, i);
  }

  lemma {:induction false} SubTagAngleSafe(s: string, i: nat)
    requires i <= |s|
    ensures AngleSafe(Sub(TagHit, s, i))
    decreases |s| - i
  {
    if i < |s| {
      var m := TagHit(s, i);
      if m.Some? {
        SubTagAngleSafe(s, m.value.end);
      } else {
        var r := Sub(TagHit, s, i + 1);
        SubTagAngleSafe(s, i + 1);
        var out := [s[i]] + r;
        assert Sub(TagHit, s, i) == out;
        if s[i] == '<' && i + 1 < |s| {
          var j := SkipRun(s, i + 1, NotGt);
          if j == i + 1 {
            assert s[i + 1] == '>';
            assert TagHit(s, i + 1).None?;
            assert out[1] == '>';
          } else {
            assert j == |s|;
            NoGtUnchanged(s, i + 1);
            assert forall b :: 0 < b < |out| ==> out[b] == s[i + b];
          }
        }
        forall a, b | 0 < a < b < |out| && out[a] == '<' && out[b] == '>'
          ensures out[a + 1] == '>'
        {
          assert out[a] == r[a - 1] && out[b] == r[b - 1] && out[a + 1] == r[a];
        }
      }
    }
  }

  /** The result contains no tag any more (removal never joins two pieces into a new tag). */
  lemma StripTagsLeavesNoTag(s: string)
    ensures AngleSafe(StripTags(s)) && NoTag(StripTags(s))
  {
    SubTagAngleSafe(s, 0);
    AngleSafeHasNoTag(StripTags(s));
  }

  lemma {:induction false} SubTagSubsequence(s: string, i: nat)
    requires i <= |s|
    ensures IsSubsequence(Sub(TagHit, s, i), s[i..])
    decreases |s| - i
  {
    if i < |s| {
      var m := TagHit(s, i);
      if m.Some? {
        var e := m.value.end;
        SubAtHit(TagHit, s, i);
        assert Sub(TagHit, s, i) == Sub(TagHit, s, e);
        SubTagSubsequence(s, e);
        assert s[i..][e - i..] == s[e..];
        SubsequenceOfSuffix(Sub(TagHit, s, e), s[i..], e - i);
      } else {
        SubCopies(TagHit, s, i);
        SubTagSubsequence(s, i + 1);
        SubsequenceCons(s[i], Sub(TagHit, s, i + 1), s[i + 1..]);
        assert s[i..] == [s[i]] + s[i + 1..];
      }
    }
  }

  /** Tag stripping only deletes characters: its result is a subsequence of its input. */
  lemma StripTagsSubsequence(s: string)
    ensures IsSubsequence(StripTags(s), s)
  {
    SubTagSubsequence(s, 0);
    assert s[0..] == s;
  }

  /** Text without `<` comes back unchanged. */
  lemma StripTagsNoAngle(s: string)
    requires forall k :: 0 <= k < |s| ==> s[k] != '<'
    ensures StripTags(s) == s
  {
    forall k | 0 <= k < |s| ensures TagHit(s, k).None? {
    }
    SubUnchanged(TagHit, s, 0);
  }
}
