# json-lens compare and inspector core, in Dafny

This project models the text side of json-lens's JSON compare feature, plus
the small pure helpers behind the inspector's search and tree. Each part is a
total function over strings, sequences and records, and the properties the
code promises are proved about it.

- **Line aligner** (`LineAligner`, lib/jsonDiffLines.ts):
  - `computeLineDiffs` walks the two pretty-printed texts line by line.
  - `findDiffForLine` attributes each line to a diff entry. It does this by
    scraping the first `"key":` token or a lone quoted array element.
  - Each row is typed `added`, `removed`, `modified` or `context`. The
    typing uses a fixed priority order and a value-based fallback.
- **Single-pane highlighter** (`CompareHighlight`, lib/useJsonCompareHighlight.ts):
  - It computes which lines of one side to highlight, and with which entry
    type.
  - It looks for each relevant path's deepest key.
  - On a tie, the deepest path wins, and at equal depth `modified` wins.
- **Legacy inline highlighter** (`LegacyHighlight`, components/JsonCompareInput.tsx):
  - It also counts `unchanged` entries.
  - It looks for every key segment of a path.
  - The first matching entry in list order wins.
- **Inspector search box** (`SearchInput`, components/JsonInput.tsx):
  - the normalised search;
  - the leftmost non-overlapping match scan;
  - the wrapped match index and the next/previous navigation;
  - the numbered highlight segments.
- **Compare summary** (`CompareSummary`, components/JsonCompare.tsx): the type
  filters, the per-type counts, the filtered list and the filter toggle.
- **Path list** (`PathSearch`, components/JsonPaths.tsx): substring filtering
  of the paths.
- **Tree** (`JsonTree`, components/inspector/JsonTree.tsx):
  - the recursive, path-cached search match;
  - collapse toggling;
  - when children are shown.

Supporting modules:

- `Wrappers`: `Option`.
- `Text`: ASCII lower-casing, `trim`, `split`, `indexOf`, and white-space and
  quote scanning.
- `Seqs`: an order-preserving filter.
- `Diffs`: the diff entry record and the path segment helpers.
- `Patterns`: hand-written matchers for the few fixed regular expressions the
  code uses.

The diff list is an input with no assumed invariants. Each entry is a path,
a type, and optional left and right values. A non-string value is
represented by the text `JSON.stringify` gives for it.

## Model

| member | source | states |
|---|---|---|
| Text.ToLower | components/JsonInput.tsx:25 | Lower-casing keeps the length and maps each character on its own: `A`-`Z` to `a`-`z`, everything else unchanged |
| Text.LowerIsIdempotent | components/JsonInput.tsx:20 | Lower-casing an already lower-cased string changes nothing |
| Text.Trim | components/JsonInput.tsx:20 | The trimmed string neither starts nor ends with white space, and it is the input with only leading and trailing white space removed |
| Text.TrimOfUnpadded | components/JsonInput.tsx:20 | A string that neither starts nor ends with white space is its own trim |
| Text.Split | lib/jsonDiffLines.ts:12-14 | There is at least one part and no part contains the separator |
| Text.SplitJoins | lib/jsonDiffLines.ts:13 | Joining the parts of a split with the separator gives back the input |
| Text.SplitIsUnique | lib/jsonDiffLines.ts:13 | Any separator-free list of parts that joins back to the text is exactly its split, so the split is the only such decomposition |
| Text.IndexOf | components/JsonInput.tsx:27-30 | The result is the leftmost occurrence at or after `from`. Nothing is returned only when there is no occurrence there. An empty needle is found at `from`, clamped to the length |
| Text.ContainsIffFound | components/JsonPaths.tsx:14 | `includes` holds exactly when `indexOf` from 0 finds the needle |
| Text.SkipSpaces | lib/jsonDiffLines.ts:23 | Stops at the first non-space character at or after `i`, having passed only white space (the `\s*`) |
| Text.NextQuote | lib/jsonDiffLines.ts:23 | Finds the first `"` at or after `i`; nothing is returned only when no quote follows |
| Seqs.Filter | components/JsonCompare.tsx:28 | The result is a subsequence of the input that keeps exactly the elements meeting the predicate, each with its multiplicity |
| Seqs.FilterFilter | lib/useJsonCompareHighlight.ts:19-35 | Filtering twice equals filtering once by the conjunction |
| Diffs.RelevantDiffs | lib/useJsonCompareHighlight.ts:65-71 | Keeps, in order, exactly the entries relevant to the side: removed or modified on the left, added or modified on the right, each as often as in the list. None of them is `unchanged` |
| Diffs.KeySegments | lib/useJsonCompareHighlight.ts:74 | The path segments that are neither `root` nor all digits, in path order and with their multiplicity; no other segment is kept |
| Diffs.StripQuotes | lib/jsonDiffLines.ts:74 | Drops exactly one leading `"` and one trailing `"` where each is present: both ends for a text quoted on both sides, one end otherwise, and a lone `"` becomes empty; a text with no quote at either end is unchanged |
| Patterns.KeyTokenText | lib/jsonDiffLines.ts:23 | The captured key is non-empty, has no quote, and is followed by the closing quote of the token |
| Patterns.KeyToken | lib/jsonDiffLines.ts:23 | Returns the capture of the leftmost `"([^"]+)"\s*:` match, and nothing exactly when the line has no such match |
| Patterns.KeyTokenFrom | lib/jsonDiffLines.ts:23 | The leftmost key-token match at or after a position, and nothing only when none starts there or later |
| Patterns.TrailerAgrees | lib/jsonDiffLines.ts:26 | The scanning matcher for the `\s*,?\s*$` tail accepts exactly the declarative trailer shape |
| Patterns.ArrayValueIffShape | lib/jsonDiffLines.ts:26 | The matcher `Patterns.ArrayValue` for `^\s*"([^"]+)"\s*,?\s*$` captures `v` exactly when the line is padding, a quoted quote-free non-empty `v`, an optional comma and padding |
| Patterns.ArrayValueHasQuotedPrefix | lib/jsonDiffLines.ts:201 | On a line that is a lone array element, the looser `^\s*"([^"]+)"\s*` capture is the same element |
| Patterns.TrimmedElementPrefix | lib/jsonDiffLines.ts:194-201 | When the trimmed line is a lone element, the quoted-prefix capture of the untrimmed line is that element, so the inner value extraction never fails |
| Patterns.KeyPatternIgnoresCase | lib/useJsonCompareHighlight.ts:41 | The `"k"\s*:` search with the `i` flag gives the same answer for any two keys equal up to ASCII case |
| Patterns.KeyTokenMatchesPattern | lib/jsonDiffLines.ts:23 | A line's scraped key token is itself found on the line by the highlighter's `"k"\s*:` pattern |
| LineAligner.FormatJsonLines | lib/jsonDiffLines.ts:12-14 | At least one line, and no line holds a line feed |
| LineAligner.LinesJoinBack | lib/jsonDiffLines.ts:12-14 | The lines joined by line feeds give back the text, and they are the only line-feed-free pieces that do |
| LineAligner.LineScoreMeaning | lib/jsonDiffLines.ts:40-84 | Under `LineAligner.LineScore`, an entry scores at least 1 exactly when its deepest key is the line's key token, or, on a line without a key token, when it is an index path whose side value reads as the line's element. The score is the count of key segments in the first case and of all segments in the second |
| LineAligner.FirstMax | lib/jsonDiffLines.ts:28-88 | Picks the earliest maximal positive score; nothing only when every score is negative (strict `>` keeps the first) |
| LineAligner.FindDiffForLine | lib/jsonDiffLines.ts:16-89 | The entry found is in the list, relevant to the side and never `unchanged`. It scores at least as high as every relevant entry and is the earliest such. Nothing is found exactly when no relevant entry matches the line |
| LineAligner.KeyBranch | lib/jsonDiffLines.ts:47-60 | On a line with a key token, the entry found has that token as its deepest key. Nothing is found exactly when no relevant entry has that deepest key |
| LineAligner.KeyBranchDeepest | lib/jsonDiffLines.ts:53-59 | The entry found has at least as many key segments as any relevant entry with the same deepest key, and strictly more than each such entry listed before it (the strict `>` keeps the first) |
| LineAligner.ElementBranch | lib/jsonDiffLines.ts:61-84 | On a keyless lone-element line, the entry found ends in an array index and its side value, unquoted, equals the element. Nothing is found exactly when no relevant entry is such an element |
| LineAligner.NoPatternNoDiff | lib/jsonDiffLines.ts:47-88 | A line with neither a key token nor a lone element is attributed to no entry |
| LineAligner.FirstValueMatch | lib/jsonDiffLines.ts:203-212 | Finds the first entry from `from` on with the given type whose side value reads as the element, and nothing only when there is none |
| LineAligner.InferFromValues | lib/jsonDiffLines.ts:191-236 | Left-only element line: `removed` via the first removed entry whose side value, read through `Diffs.NormalizedValue` (a string as is, other JSON without surrounding quotes), equals the element, whenever one exists. Right-only element line: `added` likewise. In every other case the row is `modified` with no entry |
| LineAligner.ClassifyChanged | lib/jsonDiffLines.ts:173-236 | When either line was attributed, the row takes the entry that ranks highest in the order right `added`, left `removed`, left `modified`, right `modified`, and takes that entry's type. The value-based inference decides only when neither line was attributed |
| LineAligner.AlignRow | lib/jsonDiffLines.ts:136-246 | The row carries both lines with their numbers. It is never `unchanged`, and it is `context` exactly when the two lines are equal. A row with only a right line is `added` and carries that line's entry, one with only a left line is `removed` and carries that line's entry, and a row of two equal lines carries the left line's entry or else the right line's |
| LineAligner.ComputeLineDiffs | lib/jsonDiffLines.ts:91-250 | There are as many rows as the longer text has lines. Row `i` carries line `i` of each side, numbered `i + 1`, where that side has one, and nothing otherwise |
| LineAligner.OneSidedRows | lib/jsonDiffLines.ts:97-113 | With the other text empty, each line becomes its own `removed` (left) or `added` (right) row, with no entry and the other side empty |
| LineAligner.EmptySideRows | lib/jsonDiffLines.ts:96-114 | Two empty texts give no rows. When one text is empty, no row carries an entry |
| LineAligner.NothingLost | lib/jsonDiffLines.ts:116-117 | The present left lines of the rows, in order, are the left text's lines, and the same holds on the right |
| LineAligner.RowKinds | lib/jsonDiffLines.ts:162-172 | No row is ever `unchanged`. A row is `context` exactly when both lines are present and equal. Missing-left rows are `added` and missing-right rows are `removed` |
| LineAligner.ChangedRow | lib/jsonDiffLines.ts:173-191 | A row whose lines differ is added, removed or modified. Its entry is the higher-priority one of the two lines' entries, and its type is that entry's type |
| CompareHighlight.HighlightKeyIsLastKey | lib/useJsonCompareHighlight.ts:19-38 | The two-stage filter of `getLinesToHighlight` picks the same key as the single filter of `getLineDiffType`: the path's deepest key |
| CompareHighlight.RootIndexHighlightsNothing | lib/useJsonCompareHighlight.ts:23-31 | A path whose only non-root segment is an array index has no key to look for |
| CompareHighlight.KeylessPathHighlightsNothing | lib/useJsonCompareHighlight.ts:34-35 | A path with no key segment has no key to look for |
| CompareHighlight.LinesFor | lib/useJsonCompareHighlight.ts:16-48 | Line `i` is collected exactly when it is a line and some path's deepest key is on it |
| CompareHighlight.LinesToHighlight | lib/useJsonCompareHighlight.ts:11-52 | Empty for an empty text. Otherwise line `i` is in the set exactly when one of the paths has its deepest key on it as `"k"\s*:`, case-insensitively |
| CompareHighlight.RelevantPaths | lib/useJsonCompareHighlight.ts:121-124 | Exactly the paths of entries relevant to the side |
| CompareHighlight.HighlightLines | lib/useJsonCompareHighlight.ts:119-126 | Empty for an empty text or diff list. Every index is a line, and a line is highlighted exactly when some side-relevant entry's deepest key is on it |
| CompareHighlight.KeyDepth | lib/useJsonCompareHighlight.ts:74-83 | An entry gets a positive depth exactly when its deepest key is on the line, and -1 otherwise |
| CompareHighlight.Preferred | lib/useJsonCompareHighlight.ts:87-96 | Picks a deepest match. At equal depth it picks a `modified` one if there is any, and otherwise the first. Nothing is picked only when nothing matches |
| CompareHighlight.LineDiffType | lib/useJsonCompareHighlight.ts:54-101 | A type is returned exactly when the line exists and some side-relevant entry's deepest key is on it. The type is that of the preferred such entry, and it is never `unchanged` |
| CompareHighlight.CreateLineSegments | lib/useJsonCompareHighlight.ts:103-116 | One segment per line with that line's text. It is highlighted exactly when its index is in the set, it is last only at the final index, and it is typed only when highlighted |
| CompareHighlight.UseJsonCompareHighlight | lib/useJsonCompareHighlight.ts:118-131 | An empty text gives no lines and no segments, and an empty diff list gives no lines. Every highlighted index has a segment |
| CompareHighlight.TypedIffHighlighted | lib/useJsonCompareHighlight.ts:100-108 | Within the hook a segment has a type exactly when it is highlighted, because both functions use the same filter and the same key |
| LegacyHighlight.LinesWithAnyKeyOf | components/JsonCompareInput.tsx:31-38 | Line `i` is collected exactly when some key segment of the path is on it |
| LegacyHighlight.LegacyLinesFor | components/JsonCompareInput.tsx:29-40 | Line `i` is collected exactly when some key segment of some path is on it |
| LegacyHighlight.LegacyLinesToHighlight | components/JsonCompareInput.tsx:24-43 | Empty for an empty text. Otherwise line `i` is in the set exactly when any key segment of any path is on it |
| LegacyHighlight.LegacyRelevantPaths | components/JsonCompareInput.tsx:45-51 | Exactly the paths of entries relevant to the side, `unchanged` included |
| LegacyHighlight.LegacyHighlightLines | components/JsonCompareInput.tsx:45-59 | Empty for an empty text or diff list. Otherwise a line is highlighted exactly when some side-relevant entry, `unchanged` included, has any key segment on it |
| LegacyHighlight.FirstHit | components/JsonCompareInput.tsx:80-95 | Finds the first entry from `from` on that is relevant and has a key segment on the line, and nothing only when there is none |
| LegacyHighlight.LegacyLineDiffType | components/JsonCompareInput.tsx:75-96 | A type is returned exactly when the line exists and some relevant entry has a key segment on it. The type is that of the first such entry in list order |
| LegacyHighlight.LegacyCreateLineSegments | components/JsonCompareInput.tsx:98-111 | One segment per line with its text. It is highlighted exactly when in the set, last only at the end, and untyped when not highlighted |
| LegacyHighlight.LegacyTypedIffHighlighted | components/JsonCompareInput.tsx:45-96 | A highlighted line always gets a type and an unhighlighted one never does, because both functions use the same relevance and keys |
| LegacyHighlight.LegacyMarksMore | components/JsonCompareInput.tsx:30-39 | Every line the current highlighter marks, the inline copy marks too |
| SearchInput.NormalizedSearch | components/JsonInput.tsx:20 | The search is the lower-cased text of a slice of the term with only white space around it in the term; it has no upper-case letter and neither starts nor ends with white space |
| SearchInput.NormalizedSearchIsIdempotent | components/JsonInput.tsx:20 | Normalising an already normalised search gives it back unchanged |
| SearchInput.Matches | components/JsonInput.tsx:22-23 | An empty normalised search gives no matches |
| SearchInput.ScanFrom | components/JsonInput.tsx:27-31 | Every position found is an occurrence at or after `from`, and they are spaced at least a needle apart. Every occurrence from `from` on lies inside a found one |
| SearchInput.MatchesAreLeftmostNonOverlapping | components/JsonInput.tsx:22-33 | Each match is the needle in the lower-cased value. Matches increase and do not overlap, and every occurrence is covered by a match at or before it |
| SearchInput.JsRem | components/JsonInput.tsx:37 | JavaScript's `%`: the remainder takes the dividend's sign, is smaller than the divisor in size, and is congruent to the dividend |
| SearchInput.SafeMatchIndex | components/JsonInput.tsx:35-37 | 0 with no matches. Otherwise the index lies in `[0, count)` and is congruent to the stored index |
| SearchInput.GoToMatch | components/JsonInput.tsx:130-137 | Nothing changes with no matches. Otherwise the next index is congruent to `prev + direction` and, for `prev >= 0`, lies in range |
| SearchInput.GoToMatchMovesDisplayed | components/JsonInput.tsx:134 | The displayed match moves by one, wrapping around, even when the stored index is out of range |
| SearchInput.NextThenPrevious | components/JsonInput.tsx:130-137 | Next followed by previous returns to the starting index, for any in-range start |
| SearchInput.StoredIndexStaysNatural | components/JsonInput.tsx:130-136 | From a non-negative index, navigation keeps it non-negative |
| SearchInput.SplitParts | components/JsonInput.tsx:49-50 | The split has one part more than twice the number of matches, and its parts joined give back the value. Where each part sits is stated by SearchInput.OddPartIsMatch and SearchInput.EvenPartIsPlain |
| SearchInput.OddPartIsMatch | components/JsonInput.tsx:49-50 | Part `2k + 1` of the split is the value's own text at the `k`-th match |
| SearchInput.EvenPartIsPlain | components/JsonInput.tsx:49-50 | Part `2k` of the split is the value's text from the end of match `k - 1` (or the start) up to match `k` (or the end), so every plain part sits where the split puts it |
| SearchInput.MatchedTextLowersToNeedle | components/JsonInput.tsx:49-50 | The text at the `k`-th match lower-cases to the needle |
| SearchInput.NumberPattern | components/JsonInput.tsx:51-56 | Numbering from any parity and counter highlights exactly the odd-positioned parts and gives them consecutive numbers |
| SearchInput.NumberFromStart | components/JsonInput.tsx:51-56 | From the start, part `i` is highlighted exactly when `i` is odd and then gets number `i / 2` |
| SearchInput.MatchSegments | components/JsonInput.tsx:49-57 | One segment per split part, showing that part or a zero-width space for an empty one. The odd ones are highlighted and numbered 0, 1, 2, … |
| SearchInput.HighlightSegments | components/JsonInput.tsx:45-58 | With no search there is one plain segment showing the value, or a zero-width space for an empty value. Otherwise there is one segment per part of the split, showing that part or a zero-width space for an empty one, the odd ones highlighted and numbered in order |
| SearchInput.HighlightedSegmentsAreMatches | components/JsonInput.tsx:49-56 | Highlighted segment number `k` shows the value's text at the `k`-th match |
| CompareSummary.Toggle | components/JsonCompare.tsx:32-34 | Flips the flag of the type and keeps the other three |
| CompareSummary.ToggleTwice | components/JsonCompare.tsx:32-34 | Toggling the same type twice restores the filters |
| CompareSummary.Count | components/JsonCompare.tsx:22-25 | The count is at most the total, and it is zero exactly when no entry has the type |
| CompareSummary.CountsAddUp | components/JsonCompare.tsx:22-25 | The four counts sum to the number of entries |
| CompareSummary.FilteredDiffs | components/JsonCompare.tsx:27-30 | An order-preserving subsequence holding exactly the entries whose type is switched on |
| CompareSummary.ShowingIsSumOfCounts | components/JsonCompare.tsx:112-113 | The shown number is the sum of the counts of the switched-on types |
| CompareSummary.ShowingAtMostTotal | components/JsonCompare.tsx:112-113 | The shown number never exceeds the total |
| CompareSummary.AllOnShowsEverything | components/JsonCompare.tsx:27-30 | With all four types on, the list is every entry |
| CompareSummary.InitiallyHidesUnchanged | components/JsonCompare.tsx:13-18 | With the initial filters `CompareSummary.InitialFilters`, an entry is listed exactly when it is not `unchanged` |
| PathSearch.VisiblePaths | components/JsonPaths.tsx:12-15 | An empty search shows every path. Otherwise the paths shown, in their order, are exactly those whose lower-cased text contains the search (`PathSearch.PathMatches`), each kept as often as it occurs in the list, and never more than the total |
| PathSearch.ContainsIsTransitive | components/JsonPaths.tsx:14 | A substring of a substring is a substring |
| PathSearch.NarrowingSearchHidesMore | components/JsonPaths.tsx:12-15 | Extending the search never reveals a path that was hidden |
| JsonTree.DoesNodeMatch | components/inspector/JsonTree.tsx:20-34 | An empty search matches nothing and leaves the cache alone. Cached answers are never altered, and the node's own answer is cached |
| JsonTree.SomeChild | components/inspector/JsonTree.tsx:30 | Threading the cache through the children never alters an existing answer |
| JsonTree.DoesNodeMatchIsReference | components/inspector/JsonTree.tsx:20-34 | With distinct paths and a sound cache, the cached search gives the uncached answer and keeps the cache sound. The uncached answer is: the node or some node below it matches by itself |
| JsonTree.SomeChildIsReference | components/inspector/JsonTree.tsx:30 | The cached `some` over the children is true exactly when some remaining child's subtree matches |
| JsonTree.CachedSearchIsReference | components/inspector/JsonTree.tsx:20-34 | Starting from an empty cache, the answer is the uncached recursive definition, and false for an empty search |
| JsonTree.MatchMarksAncestors | components/inspector/JsonTree.tsx:26-31 | A node that matches by itself makes every ancestor match |
| JsonTree.HandleToggle | components/inspector/JsonTree.tsx:16-18 | Flips the node's collapsed state, with an absent entry reading as expanded, and leaves every other path's entry as it was |
| JsonTree.ToggleTwiceRestores | components/inspector/JsonTree.tsx:16-18 | Two toggles of one path restore every path's collapsed state |
| JsonTree.ToggleAffectsOnlyItsPath | components/inspector/JsonTree.tsx:37-38 | A toggle flips child visibility (`JsonTree.ChildrenVisible`) for nodes with that path and children, and changes it for no other node |

## Left out

- `compareJson` is not part of this model. The diff list is an arbitrary
  input, with the record shape of components/JsonCompare.tsx:5.
- `JSON.stringify` is a foreign call. A non-string diff value and a tree
  node's value carry their stringified text as data.
- Regular expressions are modelled by hand-written matchers:
  - the key token `"([^"]+)"\s*:`;
  - the lone element `^\s*"([^"]+)"\s*,?\s*$`;
  - the quoted prefix `^\s*"([^"]+)"\s*`;
  - `^\d+$`;
  - the case-insensitive `"k"\s*:`, with `k` taken literally as `escapeRegex` makes it.
- `\s`, `trim` and `toLowerCase` are modelled over ASCII only. Unicode white
  space and non-ASCII case mappings are not modelled.
- The JsonInput split:
  - `split` with a capturing case-insensitive regular expression is modelled
    by cutting the value at the positions of the leftmost non-overlapping
    scan of its lower-cased text.
  - For ASCII this is the same as the regular expression's split.
- React machinery is modelled as pure functions of their inputs, and state
  setters as transitions. This covers `useMemo`, `useState`, `useEffect` and
  refs.
- The tree's `matchCache` is a map threaded through the calls of one render.
- DOM and browser effects are not modelled:
  - scroll syncing;
  - `selectMatch` centring;
  - `requestAnimationFrame` and `setTimeout`;
  - clipboard access;
  - rendering markup.
- JsonTree.CachedSearchIsReference: stated only for trees whose node paths
  are distinct. With a shared path, the cache can return another node's
  answer.
- SearchInput.GoToMatch: the range bound is stated only for a non-negative
  stored index. SearchInput.StoredIndexStaysNatural shows that the index
  starts at 0 and stays non-negative.
- SearchInput.Matches: its own contract covers only the empty search. The
  soundness, order and completeness of the matches are stated in
  SearchInput.MatchesAreLeftmostNonOverlapping.
- Deliberate consequences of the code as written:
  - Textually identical rows are always `context`. The code's `unchanged`
    branch cannot be reached, because `findDiffForLine` never returns an
    `unchanged` entry.
  - Ties in `findDiffForLine` go to the earliest entry.
  - The array-element branch scores an entry by its full segment count.
  - The legacy inline highlighter differs from the shared one as described
    above.
