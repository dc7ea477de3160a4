# tubercheck: the reply normaliser and the analysis handler, in Dafny

tubercheck is a small Flask application. A user uploads photos of a dahlia tuber and the
handler sends them to a generative model with a fixed instruction. The model's free-form reply
is cleaned by seven regular-expression passes. The result is joined into one string,
`verdict line + "---SEPARATOR---" + body`, and passed to the results page (app.py:123-129).

This project models two parts of `app.py`:

- **The normaliser (app.py:99-124)**, as pure functions over `string`:
  - Each regular expression is a *matcher*: a function that says whether the pattern matches at
    index `i` of a string, where the match ends, and what replaces it. The greedy, lazy and
    `MULTILINE` behaviour of Python's `re` engine is written out in each matcher.
  - `Sub` is `re.sub`: leftmost, non-overlapping replacement.
  - `Search` is `re.search`: the leftmost index where the pattern matches.
  - Each pass is one function (`StripTags`, `VerdictLine`, `RemoveVerdicts`, `MarkerStep`,
    `FillerStep`, `HeadingStep`, `CollapseStep`). `Normalize` composes them.
  - `SplitAtSeparator` is the split at the first separator that the joined format is built for
    (app.py:123). The results template that performs the actual split is not part of this model.
- **The handler (app.py:53-136)**, as methods:
  - `AssembleContent` is the loop that builds the content list for the model.
  - `AnalyzeTuber` holds the guards (no client, no `photos` field, no usable image), the single
    call to the model, and the two outcomes: cleaned text, or the raised failure.
  - Uploads, images, the model client and its failures are abstract. An upload is a file name
    plus a decoding outcome, and the client is a function argument.

Modules, in dependency order:

| file | module | contents |
|---|---|---|
| text.dfy | Text | whitespace as `str.isspace`/`\s` see it, runs of a character class, occurrences, `Find`, `str.strip()`, subsequences |
| patterns.dfy | Patterns | the six matchers, `Sub`, `ReplaceAll`, `Search`, general facts about `Sub` |
| tags.dfy | Tags | pass 1: tag stripping |
| verdict.dfy | Verdicts | passes 2 and 3: the verdict line and its removal |
| cleanup.dfy | Cleanup | passes 4 to 6: numbered markers, the filler header, bold headings |
| collapse.dfy | Collapse | pass 7: line-break collapse |
| normalizer.dfy | Normalizer | the composition, the join and the split |
| analyze.dfy | Analyze | the prompt, content assembly, the request handler |

Four behaviours of the code are worth stating plainly, and the model follows the code in each:

- **Verdict removal and blank lines.** The comment at app.py:107 speaks of removing the verdict
  "and surrounding newlines". The code at app.py:108 only deletes the matches of the verdict
  pattern and then strips the whole body; blank lines next to a verdict in the middle of the text
  stay (and are later collapsed by pass 7).
- **Body when no verdict is found.** The body is then the tag-stripped reply, stripped and cleaned
  by passes 4 to 7 like any other body, so it is stripped and restructured rather than passed on raw
  (`Normalizer.NoVerdictNormalize`).
- **Failure message.** When the model call raises, the handler sends only the error message to
  the results page: no verdict line and no separator (app.py:131-136). `Response.ToFailure`
  models this.
- **Confidence format.** The prompt asks for `[CONFIDENCE: X%]` (app.py:26), but the pattern's
  `.*?%\]` (app.py:104) accepts any text, line breaks included, up to the first `%]`.

## Model

| member | source | states |
|---|---|---|
| Text.Strip | app.py:108 | `str.strip()` leaves a slice of its input with only whitespace cut from either end and none left at either end; it is empty exactly when the input is all whitespace |
| Text.StripIdempotent | app.py:108-121 | stripping an already stripped text changes nothing |
| Patterns.Search | app.py:104 | `re.search` reports the leftmost index where the pattern matches; when it finds nothing, the pattern matches nowhere |
| Patterns.SubUnchanged | app.py:100-121 | `re.sub` returns its input (from the scan position on) when the pattern matches nowhere |
| Patterns.SubKeepsPrefix | app.py:100-121 | `re.sub` copies a stretch where the pattern matches nowhere verbatim, and goes on scanning after it |
| Patterns.FirstClose | app.py:104 | the lazy `.*?\]\s*\[CONFIDENCE:` stops at the first `]` followed by whitespace and `[CONFIDENCE:`, and none exists when it fails |
| Patterns.VerdictAt | app.py:104 | a verdict match found at `i` is a genuine match of the verdict pattern |
| Tags.StripTagsSubsequence | app.py:100 | tag stripping only deletes characters: its result is a subsequence of its input |
| Tags.StripTagsLeavesNoTag | app.py:100 | the result contains no `<`, then one or more non-`>` characters, then `>`: removing tags never creates a new tag |
| Tags.StripTagsNoAngle | app.py:100 | text with no `<` comes back unchanged |
| Verdicts.VerdictAtIsPreferredMatch | app.py:104 | of all ways the lazy DOTALL verdict pattern can match at `i`, the model picks the one Python's backtracking reaches first, and it finds a match whenever one exists |
| Verdicts.StrippedMatch | app.py:105 | a stripped verdict match opens with `[VERDICT:`, contains `[CONFIDENCE:` and closes with `%]` |
| Verdicts.VerdictLine | app.py:104-105 | the verdict line always opens with `[VERDICT:`, contains `[CONFIDENCE:` and closes with `%]`, whether it is a match or the sentinel |
| Verdicts.VerdictLineIsMatchedText | app.py:104-105 | when a match exists, the verdict line is the matched text verbatim (`.strip()` removes nothing) |
| Verdicts.VerdictMatchIsLeftmost | app.py:104 | no verdict match starts before the one the verdict line is taken from |
| Verdicts.NoVerdictKeepsText | app.py:104-108 | without a match the verdict line is `[VERDICT: Error] [CONFIDENCE: 0%]`, the pattern matches nowhere, and removal only strips the text: nothing is lost |
| Verdicts.VerdictRemoved | app.py:108 | removal keeps the text before the first verdict match, drops the match, and resumes right after it |
| Cleanup.MarkerAtIsPreferredMatch | app.py:111 | the marker match chosen at `i` is the one Python's backtracking finds first: forced digit and space runs, the shortest bold name, then all trailing whitespace |
| Cleanup.MarkerHitExactly | app.py:111 | a marker is deleted at `i` exactly when `i` starts a line and the marker pattern matches there; the deletion takes all the trailing whitespace |
| Cleanup.FillerHitExactly | app.py:115 | a deletion happens exactly where `**Provide a Verdict**:` occurs, and it takes all the whitespace after it |
| Cleanup.HeadingReplaced | app.py:118 | `**name**:` plus its trailing whitespace becomes `<h4>name</h4>\n` when the name has no line break and no earlier `**:`, and the scan resumes after the whitespace |
| Cleanup.HeadingKeepsPlainText | app.py:118 | text in which no `**` starts is copied in order by heading promotion |
| Cleanup.BoldFreeUnchanged | app.py:111-118 | text without `**` is a fixed point of each of the three substitutions |
| Cleanup.CleanupWithoutBold | app.py:111-118 | text without `**` passes the marker, filler and heading passes unchanged apart from the strip |
| Collapse.SubNewlineCollapsed | app.py:121 | after `re.sub(r'\n+', '\n\n', ...)` every run of line breaks has length exactly two |
| Collapse.CollapseStep | app.py:121 | the collapsed body has no three line breaks in a row, every line break belongs to a pair, and there is no whitespace at either end; it is a strip of the substitution's output |
| Collapse.CollapseIdempotent | app.py:121 | collapsing a second time changes nothing |
| Normalizer.Body | app.py:108-121 | the cleaned body is collapsed and has no whitespace at either end |
| Normalizer.Normalize | app.py:99-124 | the final text is the verdict line, then the separator, then the cleaned body; it opens with `[VERDICT:` |
| Normalizer.SplitAtSeparator | app.py:123-124 | the split is at the first separator: the two parts join back to the text and no separator starts anywhere before the split point; no split means no separator |
| Normalizer.SplitJoin | app.py:124 | a verdict line with no separator that ends in `]` is recovered exactly, together with the body, by splitting the joined text |
| Normalizer.SentinelHasNoSeparator | app.py:105 | the sentinel does not contain the separator |
| Normalizer.NormalizeSplits | app.py:124 | when the verdict line holds no separator, splitting the final text at the first separator recovers the verdict line and the body exactly |
| Normalizer.NoVerdictNormalize | app.py:104-124 | a reply with no verdict yields the sentinel and, as body, the tag-stripped reply cleaned by passes 4 to 7; the split recovers both |
| Normalizer.PlainReplyNormalize | app.py:99-124 | plain prose (no `<`, no verdict, no `**`) comes out, after the sentinel and the separator, only stripped and with its line breaks collapsed |
| Analyze.SurvivorsAtMostUploads | app.py:71-85 | no more images survive than there were uploads |
| Analyze.SurvivorsAppend | app.py:71-85 | filtering a concatenation of uploads filters each part in turn, keeping the upload order |
| Analyze.SurvivorsMembership | app.py:71-85 | an image survives exactly when some upload carrying it has a file name and decodes |
| Analyze.SurvivorsEmpty | app.py:87 | no image survives exactly when no upload has both a file name and a successful decoding |
| Analyze.ContentSnoc | app.py:71-85 | one more upload appends its image to the content when it is kept, and nothing otherwise |
| Analyze.AssembleContent | app.py:69-85 | the loop builds the prompt followed by the kept images in upload order; the list is at most one longer than the uploads and has length one exactly when no upload is kept |
| Analyze.AnalyzeTuber | app.py:58-136 | no client gives the configuration message; no `photos` field or no usable image returns to the upload page without calling the model; otherwise the model is called once with the assembled content and its text is normalised, or its failure is passed on |

## Left out

- Flask routing, `redirect`, `url_for`, `render_template` and the query-parameter transport (app.py:46-49, 139-147): this is HTTP plumbing. The results template, which splits the text for display, is not part of this model; `Normalizer.SplitAtSeparator` states the split at the first separator that the joined format is designed for.
- The construction of the model client (app.py:11-16): it becomes an `Option` parameter of `AnalyzeTuber`, `None` when construction failed.
- The `generate_content` call (app.py:92-96): it becomes a function argument returning `Reply.Answer(text)` or `Reply.Raised(failure)`. A reply whose `.text` is `None` makes `re.sub` raise in Python, so it is folded into `Raised`.
- The exception message (app.py:133): it is built from foreign exception text, so the failure is carried opaquely in `Response.ToFailure`.
- `optimize_image`, `file.read()` and `Image.open` (app.py:30-43, 75-79): these are PIL and I/O. Each upload carries an abstract `Decoding` outcome instead, and the image type is a type parameter.
- `print` logging (app.py:15, 84, 134): it has no effect on the result.
- Verdict classification and confidence parsing: the code never parses the verdict line.
- Text.IsDigit: `\d` in Python 3 `str` patterns matches every Unicode decimal digit. The model accepts only ASCII `0`-`9`, so markers numbered with other scripts' digits are not deleted in the model.
- Normalizer.SplitJoin: it requires the verdict line to end in `]` as well as to hold no separator. Without the first condition, a verdict line ending in `---SEPARATOR` would let a separator straddle the join. Every verdict line ends in `]`, so `NormalizeSplits` needs only the second condition.
