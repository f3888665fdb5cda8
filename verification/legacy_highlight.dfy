/**
 * The older inline copy of the highlighter kept in the compare input
 * component. It differs from `CompareHighlight` in three ways: `unchanged`
 * entries count on both sides, every key segment of a path is looked for
 * (not only the deepest), and the type of a line is that of the first
 * matching entry in list order.
 */
module LegacyHighlight {
  import opened Wrappers
  import opened Text
  import opened Seqs
  import opened Patterns
  import opened Diffs
  import opened LineAligner
  import opened CompareHighlight

  /** The entry types a side shows here: removed, modified or unchanged on the left; added, modified or unchanged on the right. */
  predicate LegacyRelevant(kind: DiffType, isLeft: bool) {
    if isLeft then kind == Removed || kind == Modified || kind == Unchanged
    else kind == Added || kind == Modified || kind == Unchanged
  }

  /** Some key segment of the path appears on `line` as `"k"\s*:`, case-insensitively. */
  predicate AnyKeyOn(line: string, path: string) {
    exists k :: k in KeySegments(path) && KeyPatternIn(line, k)
  }

  /** Some of the paths has one of its key segments on `line`. */
  predicate SomeAnyKeyOn(line: string, paths: seq<string>) {
    exists p :: p in paths && AnyKeyOn(line, p)
  }

  lemma SomeAnyKeyOnLast(line: string, paths: seq<string>)
    requires |paths| > 0
    ensures var n := |paths| - 1;
      SomeAnyKeyOn(line, paths) <==> SomeAnyKeyOn(line, paths[..n]) || AnyKeyOn(line, paths[n])
  {
    var n := |paths| - 1;
    assert paths == paths[..n] + [paths[n]];
    if SomeAnyKeyOn(line, paths) {
      var p :| p in paths && AnyKeyOn(line, p);
      if p != paths[n] {
        assert p in paths[..n];
      }
    }
  }

  function LinesWithAnyKeyOf(lines: seq<string>, path: string): (r: set<nat>)
    ensures forall i: nat :: i in r <==> i < |lines| && AnyKeyOn(lines[i], path)
  {
    set i: nat | i < |lines| && AnyKeyOn(lines[i], path)
  }

  function LegacyLinesFor(lines: seq<string>, paths: seq<string>): (r: set<nat>)
    ensures forall i: nat :: i in r <==> i < |lines| && SomeAnyKeyOn(lines[i], paths)
    decreases |paths|
  {
    if |paths| == 0 then {}
    else
      var n := |paths| - 1;
      var r := LegacyLinesFor(lines, paths[..n]) + LinesWithAnyKeyOf(lines, paths[n]);
      forall i: nat | i < |lines| ensures i in r <==> SomeAnyKeyOn(lines[i], paths) {
        SomeAnyKeyOnLast(lines[i], paths);
      }
      r
  }

  /** The inline `getLinesToHighlight`: the lines holding any key segment of any of the paths. */
  function LegacyLinesToHighlight(text: string, paths: seq<string>): (r: set<nat>)
    ensures forall i: nat :: i in r <==> |text| > 0 && i < |TextLines(text)| && SomeAnyKeyOn(TextLines(text)[i], paths)
  {
    if |text| == 0 then {} else LegacyLinesFor(FormatJsonLines(text), paths)
  }

  function LegacyRelevantPaths(diffs: seq<DiffEntry>, isLeft: bool): (r: seq<string>)
    ensures forall p :: p in r <==> exists d :: d in diffs && LegacyRelevant(d.kind, isLeft) && d.path == p
  {
    var rel := Filter(diffs, (d: DiffEntry) => LegacyRelevant(d.kind, isLeft));
    var r := seq(|rel|, i requires 0 <= i < |rel| => rel[i].path);
    forall d ensures d in rel <==> d in diffs && LegacyRelevant(d.kind, isLeft) {
      FilterMembership(diffs, (d: DiffEntry) => LegacyRelevant(d.kind, isLeft), d);
    }
    assert forall p :: p in r ==> exists d :: d in rel && d.path == p by {
      forall p | p in r ensures exists d :: d in rel && d.path == p {
        var i :| 0 <= i < |r| && r[i] == p;
        assert rel[i] in rel;
      }
    }
    assert forall d :: d in rel ==> d.path in r by {
      forall d | d in rel ensures d.path in r {
        var i :| 0 <= i < |rel| && rel[i] == d;
        assert r[i] == d.path;
      }
    }
    r
  }

  /**
   * `leftHighlightLines` / `rightHighlightLines`: empty for an empty text or
   * an empty diff list, otherwise the lines holding any key segment of a
   * side-relevant entry, `unchanged` entries included.
   */
  function LegacyHighlightLines(text: string, diffs: seq<DiffEntry>, isLeft: bool): (r: set<nat>)
    ensures |text| == 0 || |diffs| == 0 ==> r == {}
    ensures forall i: nat :: i in r <==>
      && |text| > 0 && |diffs| > 0 && i < |TextLines(text)|
      && exists d :: d in diffs && LegacyRelevant(d.kind, isLeft) && AnyKeyOn(TextLines(text)[i], d.path)
  {
    if |text| == 0 || |diffs| == 0 then {}
    else
      var paths := LegacyRelevantPaths(diffs, isLeft);
      var r := LegacyLinesToHighlight(text, paths);
      forall i: nat | i < |TextLines(text)|
        ensures SomeAnyKeyOn(TextLines(text)[i], paths) <==>
                exists d :: d in diffs && LegacyRelevant(d.kind, isLeft) && AnyKeyOn(TextLines(text)[i], d.path)
      {
        var line := TextLines(text)[i];
        if SomeAnyKeyOn(line, paths) {
          var p :| p in paths && AnyKeyOn(line, p);
          var d :| d in diffs && LegacyRelevant(d.kind, isLeft) && d.path == p;
        }
      }
      r
  }

  /** Entry `diffs[i]` is relevant with a key on the line. */
  predicate LegacyHit(line: string, d: DiffEntry, isLeft: bool) {
    LegacyRelevant(d.kind, isLeft) && AnyKeyOn(line, d.path)
  }

  /** The nested loops of the inline `getLineDiffType`: the first entry, from `from` on, that is relevant with a key on the line. */
  function FirstHit(line: string, diffs: seq<DiffEntry>, isLeft: bool, from: nat): (r: Option<nat>)
    ensures r.Some? ==> from <= r.value < |diffs| && LegacyHit(line, diffs[r.value], isLeft)
    ensures forall j :: from <= j < |diffs| && (r.None? || j < r.value) ==> !LegacyHit(line, diffs[j], isLeft)
    decreases |diffs| - from
  {
    if from >= |diffs| then None
    else if LegacyHit(line, diffs[from], isLeft) then Some(from)
    else FirstHit(line, diffs, isLeft, from + 1)
  }

  /**
   * The inline `getLineDiffType`: the type of the first entry in list order
   * that is relevant to the side and has a key segment on the line; nothing
   * past the last line or when there is no such entry.
   */
  function LegacyLineDiffType(lineIndex: nat, text: string, diffs: seq<DiffEntry>, isLeft: bool): (r: Option<DiffType>)
    ensures r.Some? ==> LegacyRelevant(r.value, isLeft)
    ensures r.Some? <==>
      && lineIndex < |FormatJsonLines(text)|
      && exists d :: d in diffs && LegacyHit(FormatJsonLines(text)[lineIndex], d, isLeft)
    ensures r.Some? ==> exists i ::
      && 0 <= i < |diffs| && LegacyHit(FormatJsonLines(text)[lineIndex], diffs[i], isLeft) && r.value == diffs[i].kind
      && forall j :: 0 <= j < i ==> !LegacyHit(FormatJsonLines(text)[lineIndex], diffs[j], isLeft)
  {
    var lines := FormatJsonLines(text);
    if lineIndex >= |lines| then None
    else
      var line := lines[lineIndex];
      match FirstHit(line, diffs, isLeft, 0)
      case None =>
        NoHitAnywhere(line, diffs, isLeft);
        None
      case Some(i) =>
        assert diffs[i] in diffs;
        Some(diffs[i].kind)
  }

  lemma NoHitAnywhere(line: string, diffs: seq<DiffEntry>, isLeft: bool)
    requires forall j :: 0 <= j < |diffs| ==> !LegacyHit(line, diffs[j], isLeft)
    ensures forall d :: d in diffs ==> !LegacyHit(line, d, isLeft)
  {
  }

  /** The inline `createLineSegments`. */
  function LegacyCreateLineSegments(text: string, highlightLines: set<nat>, diffs: seq<DiffEntry>, isLeft: bool): (r: seq<LineSegment>)
    ensures |r| == |TextLines(text)|
    ensures forall i :: 0 <= i < |r| ==>
      && r[i].text == TextLines(text)[i]
      && (r[i].highlight <==> i in highlightLines)
      && (r[i].isLastLine <==> i == |r| - 1)
      && r[i].kind == (if i in highlightLines then LegacyLineDiffType(i, text, diffs, isLeft) else None)
  {
    if |text| == 0 then []
    else
      var lines := FormatJsonLines(text);
      seq(|lines|, i requires 0 <= i < |lines| =>
        var shouldHighlight := i in highlightLines;
        LineSegment(lines[i], shouldHighlight, if shouldHighlight then LegacyLineDiffType(i, text, diffs, isLeft) else None,
                    i == |lines| - 1))
  }

  /**
   * A highlighted line always gets a type, and an unhighlighted one none:
   * the set and the type lookup use the same relevance and the same keys.
   */
  lemma LegacyTypedIffHighlighted(text: string, diffs: seq<DiffEntry>, isLeft: bool)
    ensures var segments := LegacyCreateLineSegments(text, LegacyHighlightLines(text, diffs, isLeft), diffs, isLeft);
      forall i :: 0 <= i < |segments| ==> (segments[i].kind.Some? <==> segments[i].highlight)
  {
  }

  /** A path's deepest key is one of its keys. */
  lemma DeepestKeyIsAKey(line: string, path: string)
    requires LineHasKeyOf(line, path)
    ensures AnyKeyOn(line, path)
  {
    HighlightKeyIsLastKey(path);
    var ks := KeySegments(path);
    assert ks[|ks| - 1] in ks;
  }

  /** Every line the current highlighter marks, the inline copy marks too. */
  lemma LegacyMarksMore(text: string, diffs: seq<DiffEntry>, isLeft: bool)
    ensures HighlightLines(text, diffs, isLeft) <= LegacyHighlightLines(text, diffs, isLeft)
  {
    forall i: nat | i in HighlightLines(text, diffs, isLeft)
      ensures i in LegacyHighlightLines(text, diffs, isLeft)
    {
      var line := TextLines(text)[i];
      var d :| d in diffs && RelevantFor(d.kind, isLeft) && LineHasKeyOf(line, d.path);
      DeepestKeyIsAKey(line, d.path);
    }
  }
}
