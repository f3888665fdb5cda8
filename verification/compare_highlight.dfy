/**
 * The single-pane highlighter of the compare screen (`useJsonCompareHighlight`):
 * which lines of one side's text to highlight, and with which entry type.
 */
module CompareHighlight {
  import opened Wrappers
  import opened Text
  import opened Seqs
  import opened Patterns
  import opened Diffs
  import opened LineAligner

  predicate NotRoot(k: string) {
    k != "root"
  }

  predicate NotIndex(k: string) {
    !IsDigits(k)
  }

  /**
   * The key `getLinesToHighlight` looks for on behalf of a path: drop the
   * `root` marker; skip a path that is a single array index; otherwise the
   * last of the remaining segments that is not an index, if there is one.
   */
  function HighlightKey(path: string): Option<string> {
    var parts := Filter(Segments(path), NotRoot);
    if |parts| == 0 then None
    else if IsDigits(parts[|parts| - 1]) && |parts| == 1 then None
    else
      var keys := Filter(parts, NotIndex);
      if |keys| == 0 then None else Some(keys[|keys| - 1])
  }

  /**
   * The two-stage filtering of `getLinesToHighlight` picks the same key as
   * the one-stage filter of `getLineDiffType`: the path's deepest key.
   */
  lemma HighlightKeyIsLastKey(path: string)
    ensures HighlightKey(path) == LastKey(path)
  {
    var parts := Filter(Segments(path), NotRoot);
    FilterFilter(Segments(path), NotRoot, NotIndex, IsKeySegment);
    var keys := Filter(parts, NotIndex);
    assert keys == KeySegments(path);
    if |parts| == 1 && IsDigits(parts[0]) {
      assert !NotIndex(parts[0]);
      assert keys == Filter(parts[1..], NotIndex);
    }
  }

  /** A path whose only segment besides `root` is an array index highlights nothing. */
  lemma RootIndexHighlightsNothing(path: string)
    requires var parts := Filter(Segments(path), NotRoot); |parts| == 1 && IsDigits(parts[0])
    ensures HighlightKey(path).None?
  {
  }

  /** A path with no key segment highlights nothing. */
  lemma KeylessPathHighlightsNothing(path: string)
    requires forall k :: k in Segments(path) ==> !IsKeySegment(k)
    ensures HighlightKey(path).None?
  {
    HighlightKeyIsLastKey(path);
  }

  /** `line` matches `"k"\s*:` (case-insensitively) for the path's highlight key. */
  predicate LineHasKeyOf(line: string, path: string) {
    HighlightKey(path).Some? && KeyPatternIn(line, HighlightKey(path).value)
  }

  /** Some of the paths has its key on `line`. */
  predicate SomeKeyOn(line: string, paths: seq<string>) {
    exists p :: p in paths && LineHasKeyOf(line, p)
  }

  lemma SomeKeyOnLast(line: string, paths: seq<string>)
    requires |paths| > 0
    ensures var n := |paths| - 1;
      SomeKeyOn(line, paths) <==> SomeKeyOn(line, paths[..n]) || LineHasKeyOf(line, paths[n])
  {
    var n := |paths| - 1;
    assert paths == paths[..n] + [paths[n]];
    if SomeKeyOn(line, paths) {
      var p :| p in paths && LineHasKeyOf(line, p);
      if p != paths[n] {
        assert p in paths[..n];
      }
    }
  }

  /** The indices of the lines on which some of the paths has its key. */
  function LinesFor(lines: seq<string>, paths: seq<string>): (r: set<nat>)
    ensures forall i: nat :: i in r <==> i < |lines| && SomeKeyOn(lines[i], paths)
    decreases |paths|
  {
    if |paths| == 0 then {}
    else
      var n := |paths| - 1;
      var rest := LinesFor(lines, paths[..n]);
      var r := rest + LinesWithKeyOf(lines, paths[n]);
      forall i: nat | i < |lines| ensures i in r <==> SomeKeyOn(lines[i], paths) {
        SomeKeyOnLast(lines[i], paths);
      }
      r
  }

  /** The indices of the lines on which the path has its key. */
  function LinesWithKeyOf(lines: seq<string>, path: string): (r: set<nat>)
    ensures forall i: nat :: i in r <==> i < |lines| && LineHasKeyOf(lines[i], path)
  {
    set i: nat | i < |lines| && LineHasKeyOf(lines[i], path)
  }

  /** `getLinesToHighlight`: nothing for an empty text, otherwise the lines some path's key is on. */
  function LinesToHighlight(text: string, paths: seq<string>): (r: set<nat>)
    ensures |text| == 0 ==> r == {}
    ensures forall i: nat :: i in r <==> |text| > 0 && i < |TextLines(text)| && SomeKeyOn(TextLines(text)[i], paths)
  {
    if |text| == 0 then {} else LinesFor(FormatJsonLines(text), paths)
  }

  /** The paths of the side-relevant entries, in order. */
  function RelevantPaths(diffs: seq<DiffEntry>, isLeft: bool): (r: seq<string>)
    ensures forall p :: p in r <==> exists d :: d in diffs && RelevantFor(d.kind, isLeft) && d.path == p
  {
    var rel := RelevantDiffs(diffs, isLeft);
    var r := seq(|rel|, i requires 0 <= i < |rel| => rel[i].path);
    assert forall p :: p in r ==> exists d :: d in rel && d.path == p by {
      forall p | p in r ensures exists d :: d in rel && d.path == p {
        var i :| 0 <= i < |r| && r[i] == p;
        assert rel[i] in rel;
      }
    }
    assert forall d :: d in rel ==> d.path in r by {
      forall d | d in rel ensures d.path in r {
        var i :| 0 <= i < |rel| && rel[i] == d;
        assert r[i] == d.path;
      }
    }
    r
  }

  /**
   * The memoised highlight set of the hook: empty for an empty text or an
   * empty diff list, otherwise the lines holding the key of some
   * side-relevant entry.
   */
  function HighlightLines(text: string, diffs: seq<DiffEntry>, isLeft: bool): (r: set<nat>)
    ensures |text| == 0 || |diffs| == 0 ==> r == {}
    ensures forall i: nat :: i in r ==> i < |TextLines(text)|
    ensures forall i: nat :: i in r <==>
      && |text| > 0 && i < |TextLines(text)|
      && exists d :: d in diffs && RelevantFor(d.kind, isLeft) && LineHasKeyOf(TextLines(text)[i], d.path)
  {
    if |text| == 0 || |diffs| == 0 then {} else LinesToHighlight(text, RelevantPaths(diffs, isLeft))
  }

  // ---------------------------------------------------------- getLineDiffType

  /** `"k"\s*:` matches `line` for the deepest key of `d`'s path. */
  predicate KeyOnLine(line: string, d: DiffEntry) {
    LastKey(d.path).Some? && KeyPatternIn(line, LastKey(d.path).value)
  }

  /** The number of key segments of a matching entry's path, -1 for an entry that does not match. */
  function KeyDepth(line: string, d: DiffEntry): (r: int)
    ensures r >= 1 <==> KeyOnLine(line, d)
    ensures r < 1 ==> r == -1
  {
    if KeyOnLine(line, d) then |KeySegments(d.path)| else -1
  }

  /**
   * Candidate `i` is the one the tie-break keeps: it matches, nothing is
   * deeper, if it is not a modification then no candidate at its depth is,
   * and every earlier candidate at its depth is a non-modification while it
   * is a modification.
   */
  ghost predicate PreferredAt(depth: seq<int>, modified: seq<bool>, i: int)
    requires |depth| == |modified|
  {
    && 0 <= i < |depth|
    && depth[i] >= 0
    && (forall j :: 0 <= j < |depth| ==> depth[j] <= depth[i])
    && (!modified[i] ==> forall j :: 0 <= j < |depth| && depth[j] == depth[i] ==> !modified[j])
    && (forall j :: 0 <= j < i && depth[j] == depth[i] ==> !modified[j] && modified[i])
  }

  /**
   * The best-match loop of `getLineDiffType` over the candidates' depths
   * (negative for a candidate that does not match): a candidate replaces the
   * best when there is none yet, when it is deeper, or when it is as deep,
   * a modification, and the best is not.
   */
  function Preferred(depth: seq<int>, modified: seq<bool>): (r: Option<nat>)
    requires |depth| == |modified|
    ensures r.None? <==> forall j :: 0 <= j < |depth| ==> depth[j] < 0
    ensures r.Some? ==> PreferredAt(depth, modified, r.value)
    decreases |depth|
  {
    if |depth| == 0 then None
    else
      var n := |depth| - 1;
      var prev := Preferred(depth[..n], modified[..n]);
      if depth[n] < 0 then prev
      else if prev.None? || depth[n] > depth[prev.value]
              || (depth[n] == depth[prev.value] && modified[n] && !modified[prev.value]) then Some(n)
      else prev
  }

  function Depths(line: string, ds: seq<DiffEntry>): (r: seq<int>)
    ensures |r| == |ds| && forall j :: 0 <= j < |ds| ==> r[j] == KeyDepth(line, ds[j])
  {
    seq(|ds|, j requires 0 <= j < |ds| => KeyDepth(line, ds[j]))
  }

  function Modifications(ds: seq<DiffEntry>): (r: seq<bool>)
    ensures |r| == |ds| && forall j :: 0 <= j < |ds| ==> (r[j] <==> ds[j].kind == Modified)
  {
    seq(|ds|, j requires 0 <= j < |ds| => ds[j].kind == Modified)
  }

  /**
   * `getLineDiffType`: the type of the entry the tie-break keeps among the
   * side-relevant entries whose deepest key is on line `lineIndex`; nothing
   * past the last line or when no such entry exists.
   */
  function LineDiffType(lineIndex: nat, text: string, diffs: seq<DiffEntry>, isLeft: bool): (r: Option<DiffType>)
    ensures r.Some? ==> RelevantFor(r.value, isLeft) && r.value != Unchanged
    ensures r.Some? <==>
      && lineIndex < |FormatJsonLines(text)|
      && exists d :: d in diffs && RelevantFor(d.kind, isLeft) && KeyOnLine(FormatJsonLines(text)[lineIndex], d)
    ensures r.Some? ==>
      var rel := RelevantDiffs(diffs, isLeft);
      var line := FormatJsonLines(text)[lineIndex];
      exists i :: PreferredAt(Depths(line, rel), Modifications(rel), i) && r.value == rel[i].kind
  {
    var lines := FormatJsonLines(text);
    if lineIndex >= |lines| then None
    else
      var rel := RelevantDiffs(diffs, isLeft);
      var depth := Depths(lines[lineIndex], rel);
      match Preferred(depth, Modifications(rel))
      case None =>
        forall d | d in rel ensures !KeyOnLine(lines[lineIndex], d) {
          var j :| 0 <= j < |rel| && rel[j] == d;
          assert depth[j] < 0;
        }
        None
      case Some(i) =>
        assert rel[i] in rel;
        assert PreferredAt(depth, Modifications(rel), i);
        Some(rel[i].kind)
  }

  // --------------------------------------------------------------- segments

  /** One line of the highlight overlay. */
  datatype LineSegment = LineSegment(text: string, highlight: bool, kind: Option<DiffType>, isLastLine: bool)

  /**
   * `createLineSegments`: one segment per line of a non-empty text, carrying
   * the line, whether it is highlighted, the entry type of a highlighted
   * line, and whether it is the last line.
   */
  function CreateLineSegments(text: string, highlightLines: set<nat>, diffs: seq<DiffEntry>, isLeft: bool): (r: seq<LineSegment>)
    ensures |r| == |TextLines(text)|
    ensures forall i :: 0 <= i < |r| ==>
      && r[i].text == TextLines(text)[i]
      && (r[i].highlight <==> i in highlightLines)
      && (r[i].isLastLine <==> i == |r| - 1)
      && r[i].kind == (if i in highlightLines then LineDiffType(i, text, diffs, isLeft) else None)
  {
    if |text| == 0 then []
    else
      var lines := FormatJsonLines(text);
      seq(|lines|, i requires 0 <= i < |lines| =>
        var shouldHighlight := i in highlightLines;
        LineSegment(lines[i], shouldHighlight, if shouldHighlight then LineDiffType(i, text, diffs, isLeft) else None,
                    i == |lines| - 1))
  }

  /** `useJsonCompareHighlight`: the highlight set and the segments built from it. */
  function UseJsonCompareHighlight(text: string, diffs: seq<DiffEntry>, isLeft: bool): (r: (set<nat>, seq<LineSegment>))
    ensures |text| == 0 ==> r.0 == {} && r.1 == []
    ensures |diffs| == 0 ==> r.0 == {}
    ensures forall i: nat :: i in r.0 ==> i < |r.1|
  {
    var highlightLines := HighlightLines(text, diffs, isLeft);
    (highlightLines, CreateLineSegments(text, highlightLines, diffs, isLeft))
  }

  /**
   * A segment has an entry type exactly when it is highlighted, and that
   * type is never `unchanged` and always relevant to the side: the set and
   * the type lookup use the same filter and the same key.
   */
  lemma TypedIffHighlighted(text: string, diffs: seq<DiffEntry>, isLeft: bool)
    ensures var segments := UseJsonCompareHighlight(text, diffs, isLeft).1;
      forall i :: 0 <= i < |segments| ==>
        && (segments[i].kind.Some? <==> segments[i].highlight)
        && (segments[i].kind.Some? ==> segments[i].kind.value != Unchanged && RelevantFor(segments[i].kind.value, isLeft))
  {
    var r := UseJsonCompareHighlight(text, diffs, isLeft);
    forall i | 0 <= i < |r.1|
      ensures r.1[i].kind.Some? <==> r.1[i].highlight
    {
      var line := FormatJsonLines(text)[i];
      forall d: DiffEntry ensures LineHasKeyOf(line, d.path) <==> KeyOnLine(line, d) {
        HighlightKeyIsLastKey(d.path);
      }
    }
  }
}
