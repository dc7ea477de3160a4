/** Characters, runs and searches on Python `str` values, shared by every pass of the normaliser. */
module Text {

  datatype Option<T> = None | Some(value: T)

  /** Python's whitespace: what `str.isspace()` accepts, which is also what `\s` matches in a
      `str` pattern and what `str.strip()` removes (CPython's Py_UNICODE_ISSPACE). */
  predicate IsSpace(c: char) {
    var n := c as int;
    || (0x09 <= n <= 0x0D) || (0x1C <= n <= 0x20) || n == 0x85 || n == 0xA0 || n == 0x1680
    || (0x2000 <= n <= 0x200A) || n == 0x2028 || n == 0x2029 || n == 0x202F || n == 0x205F
    || n == 0x3000
  }

  /** `\d`, restricted to the ASCII digits. */
  predicate IsDigit(c: char) {
    '0' <= c <= '9'
  }

  /** The character classes that occur as greedy runs in the patterns. */
  datatype CharClass =
    | Whitespace  // \s
    | Digit       // \d
    | Newline     // \n
    | NotGt       // [^>]

  predicate InClass(c: char, k: CharClass) {
    match k
    case Whitespace => IsSpace(c)
    case Digit => IsDigit(c)
    case Newline => c == '\n'
    case NotGt => c != '>'
  }

  /** End of the longest run of class `k` that starts at `i`: a greedy `\s*`, `\d*`, `\n*` or `[^>]*`. */
  function SkipRun(s: string, i: nat, k: CharClass): (r: nat)
    requires i <= |s|
    ensures i <= r <= |s|
    ensures forall j :: i <= j < r ==> InClass(s[j], k)
    ensures r == |s| || !InClass(s[r], k)
    decreases |s| - i
  {
    if i < |s| && InClass(s[i], k) then SkipRun(s, i + 1, k) else i
  }

  /** A greedy run reaches at least as far as any run of the class that starts at `i`. */
  lemma {:induction false} SkipRunCovers(s: string, i: nat, k: CharClass, e: nat)
    requires i <= e <= |s|
    requires forall j :: i <= j < e ==> InClass(s[j], k)
    ensures e <= SkipRun(s, i, k)
    decreases e - i
  {
    if i < e {
      SkipRunCovers(s, i + 1, k, e);
    }
  }

  /** A run of the class that cannot be extended is the greedy run. */
  lemma SkipRunIs(s: string, i: nat, k: CharClass, e: nat)
    requires i <= e <= |s|
    requires forall j :: i <= j < e ==> InClass(s[j], k)
    requires e == |s| || !InClass(s[e], k)
    ensures SkipRun(s, i, k) == e
  {
    SkipRunCovers(s, i, k, e);
  }

  /** `pat` occurs in `s` starting at index `i`. */
  predicate OccursAt(s: string, pat: string, i: int) {
    0 <= i && i + |pat| <= |s| && s[i..i + |pat|] == pat
  }

  ghost predicate Contains(s: string, pat: string) {
    exists i :: OccursAt(s, pat, i)
  }

  lemma OccursAtChar(s: string, pat: string, i: int, k: int)
    requires OccursAt(s, pat, i) && 0 <= k < |pat|
    ensures s[i + k] == pat[k]
  {
    assert s[i..i + |pat|][k] == s[i + k];
  }

  /** An occurrence inside the slice `s[a..b]` is an occurrence in the slice, shifted by `a`. */
  lemma OccursInSlice(s: string, pat: string, i: int, a: int, b: int)
    requires OccursAt(s, pat, i) && 0 <= a <= i && i + |pat| <= b <= |s|
    ensures OccursAt(s[a..b], pat, i - a)
  {
    var u := s[a..b][i - a..i - a + |pat|];
    forall k | 0 <= k < |pat| ensures u[k] == pat[k] {
      OccursAtChar(s, pat, i, k);
    }
  }

  /** An occurrence in the slice `s[a..b]` is an occurrence in `s`, shifted by `a`. */
  lemma OccursFromSlice(s: string, pat: string, a: int, b: int, k: int)
    requires 0 <= a <= b <= |s| && OccursAt(s[a..b], pat, k)
    ensures OccursAt(s, pat, a + k)
  {
    var u := s[a + k..a + k + |pat|];
    forall j | 0 <= j < |pat| ensures u[j] == pat[j] {
      OccursAtChar(s[a..b], pat, k, j);
    }
  }

  lemma SliceOccurrences(s: string, pat: string, a: int, b: int)
    requires 0 <= a <= b <= |s|
    ensures forall k :: OccursAt(s[a..b], pat, k) ==> OccursAt(s, pat, a + k)
  {
    forall k | OccursAt(s[a..b], pat, k) ensures OccursAt(s, pat, a + k) {
      OccursFromSlice(s, pat, a, b, k);
    }
  }

  /** Where `pat` occurs, so does each prefix of it. */
  lemma OccursPrefix(s: string, pat: string, i: int, n: nat)
    requires OccursAt(s, pat, i) && n <= |pat|
    ensures OccursAt(s, pat[..n], i)
  {
    assert s[i..i + n] == s[i..i + |pat|][..n];
  }

  /** The first occurrence of `pat` at or after `i` (`str.find`). */
  function Find(s: string, pat: string, i: nat): (r: Option<nat>)
    requires i <= |s|
    ensures r.Some? ==> i <= r.value && OccursAt(s, pat, r.value)
    ensures r.Some? ==> forall j :: i <= j < r.value ==> !OccursAt(s, pat, j)
    ensures r.None? ==> forall j :: i <= j ==> !OccursAt(s, pat, j)
    decreases |s| - i
  {
    if OccursAt(s, pat, i) then Some(i)
    else if i == |s| then None
    else Find(s, pat, i + 1)
  }

  /** Leading whitespace removed (the left half of `str.strip()`). */
  function StripLeft(s: string): (r: string)
    ensures |r| <= |s| && r == s[|s| - |r|..]
    ensures forall j :: 0 <= j < |s| - |r| ==> IsSpace(s[j])
    ensures r != [] ==> !IsSpace(r[0])
  {
    if s != [] && IsSpace(s[0]) then StripLeft(s[1..]) else s
  }

  /** Trailing whitespace removed (the right half of `str.strip()`). */
  function StripRight(s: string): (r: string)
    ensures |r| <= |s| && r == s[..|r|]
    ensures forall j :: |r| <= j < |s| ==> IsSpace(s[j])
    ensures r != [] ==> !IsSpace(r[|r| - 1])
  {
    if s != [] && IsSpace(s[|s| - 1]) then StripRight(s[..|s| - 1]) else s
  }

  /** `r` is `s[a..a + |r|]` and everything of `s` outside that slice is whitespace. */
  ghost predicate IsTrimAt(r: string, s: string, a: int) {
    && 0 <= a <= |s| - |r| && r == s[a..a + |r|]
    && (forall j :: 0 <= j < a ==> IsSpace(s[j]))
    && (forall j :: a + |r| <= j < |s| ==> IsSpace(s[j]))
  }

  /** `r` is `s` with some leading and some trailing whitespace cut off, and nothing else. */
  ghost predicate IsTrimOf(r: string, s: string) {
    exists a :: IsTrimAt(r, s, a)
  }

  /** Python's `str.strip()` with no argument. */
  function Strip(s: string): (r: string)
    ensures IsTrimOf(r, s)
    ensures r != [] ==> !IsSpace(r[0]) && !IsSpace(r[|r| - 1])
    ensures r == [] <==> forall j :: 0 <= j < |s| ==> IsSpace(s[j])
  {
    var l := StripLeft(s);
    var r := StripRight(l);
    var a := |s| - |l|;
    assert r == s[a..a + |r|];
    assert forall j :: a + |r| <= j < |s| ==> s[j] == l[j - a];
    assert IsTrimAt(r, s, a);
    r
  }

  /** A string with no whitespace at either end is its own strip. */
  lemma StripNoop(s: string)
    requires s != [] ==> !IsSpace(s[0]) && !IsSpace(s[|s| - 1])
    ensures Strip(s) == s
  {
  }

  lemma StripIdempotent(s: string)
    ensures Strip(Strip(s)) == Strip(s)
  {
    StripNoop(Strip(s));
  }

  /** `a` can be obtained from `b` by deleting characters. */
  ghost predicate IsSubsequence(a: string, b: string)
    decreases |b|
  {
    if a == [] then true
    else if b == [] then false
    else (a[0] == b[0] && IsSubsequence(a[1..], b[1..])) || IsSubsequence(a, b[1..])
  }

  lemma SubsequenceCons(c: char, a: string, b: string)
    requires IsSubsequence(a, b)
    ensures IsSubsequence([c] + a, [c] + b)
  {
    assert ([c] + a)[1..] == a;
    assert ([c] + b)[1..] == b;
  }

  lemma {:induction false} SubsequenceOfSuffix(a: string, b: string, k: nat)
    requires k <= |b| && IsSubsequence(a, b[k..])
    ensures IsSubsequence(a, b)
    decreases k
  {
    if k > 0 {
      assert b[1..][k - 1..] == b[k..];
      SubsequenceOfSuffix(a, b[1..], k - 1);
    }
  }
}
