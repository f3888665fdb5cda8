/**
 * The side-by-side text view of the compare screen: both JSON texts are cut
 * into lines, the lines are paired by position, each line is attributed to
 * an entry of the diff list by scraping its key or its array element, and
 * each row is classified.
 */
module LineAligner {
  import opened Wrappers
  import opened Text
  import opened Seqs
  import opened Patterns
  import opened Diffs

  /** `formatJsonLines`: the text cut at every line feed. */
  function FormatJsonLines(json: string): (r: seq<string>)
    ensures |r| >= 1
    ensures forall i :: 0 <= i < |r| ==> '\n' !in r[i]
  {
    Split(json, '\n')
  }

  /**
   * The lines are the text's only decomposition into line-feed-free pieces:
   * they join back to it, and any such pieces that join back to it are they.
   */
  lemma LinesJoinBack(json: string, parts: seq<string>)
    ensures Join(FormatJsonLines(json), '\n') == json
    ensures |parts| >= 1 && (forall i :: 0 <= i < |parts| ==> '\n' !in parts[i]) && Join(parts, '\n') == json
      ==> parts == FormatJsonLines(json)
  {
    SplitJoins(json, '\n');
    if |parts| >= 1 && (forall i :: 0 <= i < |parts| ==> '\n' !in parts[i]) && Join(parts, '\n') == json {
      SplitIsUnique(json, '\n', parts);
    }
  }

  /** The lines a side shows: none for an empty text, its line-feed split otherwise. */
  function TextLines(json: string): seq<string> {
    if |json| == 0 then [] else FormatJsonLines(json)
  }

  /** `lines[i]`, which is `undefined` past the end. */
  function LineAt(lines: seq<string>, i: nat): Option<string> {
    if i < |lines| then Some(lines[i]) else None
  }

  function Max(a: nat, b: nat): nat {
    if a < b then b else a
  }

  // -------------------------------------------------------- findDiffForLine

  /** The line's first `"key":` token is the deepest key of the entry's path. */
  predicate KeyMatches(line: string, d: DiffEntry) {
    KeyToken(line).Some? && LastKey(d.path) == KeyToken(line)
  }

  /**
   * The line holds nothing but one quoted array element, it has no key token,
   * the entry's path ends in an array index, and the entry's value on this
   * side reads as that element's text.
   */
  predicate ElementMatches(line: string, d: DiffEntry, isLeft: bool) {
    && KeyToken(line).None?
    && ArrayValue(line).Some?
    && IsDigits(LastSegment(d.path))
    && SideValue(d, isLeft).Some?
    && NormalizedValue(SideValue(d, isLeft).value) == ArrayValue(line).value
  }

  /**
   * The depth `findDiffForLine` records for `d` on `line`, or -1 when `d`
   * does not match it. A key match counts the path's key segments, an
   * element match counts all of its segments.
   */
  function LineScore(line: string, d: DiffEntry, isLeft: bool): (s: int)
    ensures s == -1 || s >= 1
  {
    match KeyToken(line)
    case Some(key) =>
      var ks := KeySegments(d.path);
      if |ks| > 0 && ks[|ks| - 1] == key then |ks| else -1
    case None =>
      match ArrayValue(line)
      case None => -1
      case Some(v) =>
        var sv := SideValue(d, isLeft);
        if IsDigits(LastSegment(d.path)) && sv.Some? && NormalizedValue(sv.value) == v then |Segments(d.path)| else -1
  }

  /** An entry scores exactly when it matches the line by key or as an array element, and then scores its depth. */
  lemma LineScoreMeaning(line: string, d: DiffEntry, isLeft: bool)
    ensures LineScore(line, d, isLeft) >= 1 <==> KeyMatches(line, d) || ElementMatches(line, d, isLeft)
    ensures KeyMatches(line, d) ==> LineScore(line, d, isLeft) == |KeySegments(d.path)|
    ensures ElementMatches(line, d, isLeft) ==> LineScore(line, d, isLeft) == |Segments(d.path)|
  {
    match KeyToken(line)
    case Some(key) =>
      assert !ElementMatches(line, d, isLeft);
    case None =>
      assert !KeyMatches(line, d);
  }

  /** `s[i]` is a score above -1, no score is higher, and every earlier score is lower. */
  ghost predicate FirstMaxAt(s: seq<int>, i: int) {
    && 0 <= i < |s|
    && s[i] > -1
    && (forall j :: 0 <= j < |s| ==> s[j] <= s[i])
    && (forall j :: 0 <= j < i ==> s[j] < s[i])
  }

  /**
   * The best-match loop of `findDiffForLine` over the entries' scores: the
   * best starts at depth -1 and an entry replaces it only when it scores
   * strictly higher.
   */
  function FirstMax(s: seq<int>): (r: Option<nat>)
    ensures r.None? <==> forall j :: 0 <= j < |s| ==> s[j] <= -1
    ensures r.Some? ==> FirstMaxAt(s, r.value)
    decreases |s|
  {
    if |s| == 0 then None
    else
      var prev := FirstMax(s[..|s| - 1]);
      var best := if prev.None? then -1 else s[prev.value];
      if s[|s| - 1] > best then Some(|s| - 1) else prev
  }

  /** The score of every entry of `ds` on `line`. */
  function Scores(line: string, ds: seq<DiffEntry>, isLeft: bool): (s: seq<int>)
    ensures |s| == |ds| && forall j :: 0 <= j < |ds| ==> s[j] == LineScore(line, ds[j], isLeft)
  {
    seq(|ds|, j requires 0 <= j < |ds| => LineScore(line, ds[j], isLeft))
  }

  /** Entry `i` of `ds` matches `line`, no entry scores higher, and every earlier entry scores lower. */
  ghost predicate EarliestDeepestAt(line: string, ds: seq<DiffEntry>, isLeft: bool, i: int) {
    FirstMaxAt(Scores(line, ds, isLeft), i)
  }

  /**
   * `findDiffForLine`: the earliest deepest side-relevant entry matching the
   * line, or nothing when no side-relevant entry matches it.
   */
  function FindDiffForLine(line: string, diffs: seq<DiffEntry>, isLeft: bool): (r: Option<DiffEntry>)
    ensures r.Some? ==> r.value in diffs && RelevantFor(r.value.kind, isLeft) && r.value.kind != Unchanged
    ensures r.None? <==> forall d :: d in diffs && RelevantFor(d.kind, isLeft) ==> LineScore(line, d, isLeft) < 1
    ensures r.Some? ==> forall d :: d in diffs && RelevantFor(d.kind, isLeft) ==>
                          LineScore(line, d, isLeft) <= LineScore(line, r.value, isLeft)
    ensures r.Some? ==> exists i :: EarliestDeepestAt(line, RelevantDiffs(diffs, isLeft), isLeft, i)
                                 && r.value == RelevantDiffs(diffs, isLeft)[i]
  {
    var rel := RelevantDiffs(diffs, isLeft);
    var s := Scores(line, rel, isLeft);
    match FirstMax(s)
    case None =>
      ScoresBounded(line, rel, isLeft, -1);
      None
    case Some(i) =>
      assert EarliestDeepestAt(line, rel, isLeft, i);
      ScoresBounded(line, rel, isLeft, s[i]);
      Some(rel[i])
  }

  /** On a line whose key token is `key`, exactly the entries whose deepest key is `key` score. */
  lemma KeyScores(line: string, key: string, d: DiffEntry, isLeft: bool)
    requires KeyToken(line) == Some(key)
    ensures LineScore(line, d, isLeft) >= 1 <==> LastKey(d.path) == Some(key)
    ensures LastKey(d.path) == Some(key) ==> LineScore(line, d, isLeft) == |KeySegments(d.path)|
  {
    LineScoreMeaning(line, d, isLeft);
  }

  /**
   * Key branch: on a line with a `"key":` token the entry found has that
   * token as its deepest key, and it is missing only when no relevant entry
   * has that deepest key.
   */
  lemma KeyBranch(line: string, diffs: seq<DiffEntry>, isLeft: bool, key: string)
    requires KeyToken(line) == Some(key)
    ensures var r := FindDiffForLine(line, diffs, isLeft);
      && (r.Some? ==> LastKey(r.value.path) == Some(key))
      && (r.None? <==> forall d :: d in diffs && RelevantFor(d.kind, isLeft) ==> LastKey(d.path) != Some(key))
  {
    var r := FindDiffForLine(line, diffs, isLeft);
    forall d {
      KeyScores(line, key, d, isLeft);
    }
  }

  lemma ScoresBounded(line: string, ds: seq<DiffEntry>, isLeft: bool, b: int)
    requires forall j :: 0 <= j < |ds| ==> LineScore(line, ds[j], isLeft) <= b
    ensures forall d :: d in ds ==> LineScore(line, d, isLeft) <= b
  {
  }

  /**
   * Key branch, depth: the entry found has as many key segments as any
   * relevant entry with the same deepest key, and more than every such
   * entry listed before it among the relevant entries.
   */
  lemma KeyBranchDeepest(line: string, diffs: seq<DiffEntry>, isLeft: bool, key: string)
    requires KeyToken(line) == Some(key) && FindDiffForLine(line, diffs, isLeft).Some?
    ensures var r := FindDiffForLine(line, diffs, isLeft).value;
      forall d :: d in diffs && RelevantFor(d.kind, isLeft) && LastKey(d.path) == Some(key) ==>
        |KeySegments(d.path)| <= |KeySegments(r.path)|
    ensures var r := FindDiffForLine(line, diffs, isLeft).value;
      var rel := RelevantDiffs(diffs, isLeft);
      exists i :: 0 <= i < |rel| && rel[i] == r &&
        forall j :: 0 <= j < i && LastKey(rel[j].path) == Some(key) ==> |KeySegments(rel[j].path)| < |KeySegments(r.path)|
  {
    var r := FindDiffForLine(line, diffs, isLeft).value;
    forall d | d in diffs && RelevantFor(d.kind, isLeft) && LastKey(d.path) == Some(key)
      ensures |KeySegments(d.path)| <= |KeySegments(r.path)|
    {
      KeyScores(line, key, d, isLeft);
      KeyScores(line, key, r, isLeft);
    }
    var rel := RelevantDiffs(diffs, isLeft);
    var i :| EarliestDeepestAt(line, rel, isLeft, i) && r == rel[i];
    KeyScores(line, key, r, isLeft);
    forall j | 0 <= j < i && LastKey(rel[j].path) == Some(key)
      ensures |KeySegments(rel[j].path)| < |KeySegments(r.path)|
    {
      assert Scores(line, rel, isLeft)[j] < Scores(line, rel, isLeft)[i];
      KeyScores(line, key, rel[j], isLeft);
    }
  }

  /**
   * Array-element branch: on a line without a key token that holds one
   * quoted element `v`, the entry found ends in an array index and its value
   * on this side reads as `v`; no entry is found when no relevant entry is
   * such an element.
   */
  lemma ElementBranch(line: string, diffs: seq<DiffEntry>, isLeft: bool, v: string)
    requires KeyToken(line).None? && ArrayValueShape(line, v)
    ensures var r := FindDiffForLine(line, diffs, isLeft);
      && (r.Some? ==> IsDigits(LastSegment(r.value.path)) && SideValue(r.value, isLeft).Some?
                      && NormalizedValue(SideValue(r.value, isLeft).value) == v)
      && (r.None? <==> forall d :: d in diffs && RelevantFor(d.kind, isLeft) ==>
            !(IsDigits(LastSegment(d.path)) && SideValue(d, isLeft).Some? && NormalizedValue(SideValue(d, isLeft).value) == v))
  {
    ShapeHasArrayValue(line, v);
  }

  /** A line with neither a key token nor a lone array element is attributed to no entry. */
  lemma NoPatternNoDiff(line: string, diffs: seq<DiffEntry>, isLeft: bool)
    requires KeyToken(line).None? && ArrayValue(line).None?
    ensures FindDiffForLine(line, diffs, isLeft).None?
  {
  }

  // ------------------------------------------------------------------- rows

  datatype LineKind = AddedLine | RemovedLine | ModifiedLine | UnchangedLine | ContextLine

  /** One row of the side-by-side view; a missing side has neither text nor number. */
  datatype LineDiff = LineDiff(
    leftLine: Option<string>,
    rightLine: Option<string>,
    leftLineNumber: Option<nat>,
    rightLineNumber: Option<nat>,
    kind: LineKind,
    diff: Option<DiffEntry>)

  /** The row type that shows an entry type. */
  function KindOf(t: DiffType): LineKind {
    match t
    case Added => AddedLine
    case Removed => RemovedLine
    case Modified => ModifiedLine
    case Unchanged => UnchangedLine
  }

  /** The entry with type `kind` whose value on the given side reads as `v`. */
  predicate ValueMatches(d: DiffEntry, kind: DiffType, isLeft: bool, v: string) {
    d.kind == kind && SideValue(d, isLeft).Some? && NormalizedValue(SideValue(d, isLeft).value) == v
  }

  /** The index of the first entry, from `from` on, that has the type and whose side value reads as `v`. */
  function FirstValueMatch(diffs: seq<DiffEntry>, kind: DiffType, isLeft: bool, v: string, from: nat): (r: Option<nat>)
    ensures r.Some? ==> from <= r.value < |diffs| && ValueMatches(diffs[r.value], kind, isLeft, v)
    ensures forall j :: from <= j < |diffs| && (r.None? || j < r.value) ==> !ValueMatches(diffs[j], kind, isLeft, v)
    decreases |diffs| - from
  {
    if from >= |diffs| then None
    else if ValueMatches(diffs[from], kind, isLeft, v) then Some(from)
    else FirstValueMatch(diffs, kind, isLeft, v, from + 1)
  }

  /** The trimmed line is a lone quoted array element, optionally followed by a comma. */
  predicate IsArrayElementLine(line: string) {
    ArrayValue(Trim(line)).Some?
  }

  /** The quoted text of a lone array element. */
  function ElementText(line: string): string
    requires IsArrayElementLine(line)
  {
    ArrayValue(Trim(line)).value
  }

  /**
   * The value-based inference for two differing lines neither of which was
   * attributed to an entry: a lone element on one side only is looked up,
   * by value, among all removed (left) or added (right) entries.
   */
  function InferFromValues(left: string, right: string, diffs: seq<DiffEntry>): (r: (LineKind, Option<DiffEntry>))
    ensures r.0 == AddedLine || r.0 == RemovedLine || r.0 == ModifiedLine
    ensures r.0 == ModifiedLine <==> r.1.None?
    ensures r.1.Some? ==> r.1.value in diffs && r.0 == KindOf(r.1.value.kind)
    ensures r.0 == RemovedLine ==>
      && IsArrayElementLine(left) && !IsArrayElementLine(right)
      && exists i :: FirstValueMatchAt(diffs, Removed, true, ElementText(left), i) && r.1 == Some(diffs[i])
    ensures r.0 == AddedLine ==>
      && !IsArrayElementLine(left) && IsArrayElementLine(right)
      && exists i :: FirstValueMatchAt(diffs, Added, false, ElementText(right), i) && r.1 == Some(diffs[i])
    ensures (&& IsArrayElementLine(left) && !IsArrayElementLine(right)
             && exists d :: d in diffs && ValueMatches(d, Removed, true, ElementText(left)))
            ==> r.0 == RemovedLine
    ensures (&& !IsArrayElementLine(left) && IsArrayElementLine(right)
             && exists d :: d in diffs && ValueMatches(d, Added, false, ElementText(right)))
            ==> r.0 == AddedLine
  {
    var la := IsArrayElementLine(left);
    var ra := IsArrayElementLine(right);
    if la && !ra then
      TrimmedElementPrefix(left);
      match QuotedPrefix(left)
      case None => (ModifiedLine, None)
      case Some(v) =>
        match FirstValueMatch(diffs, Removed, true, v, 0)
        case Some(i) =>
          assert FirstValueMatchAt(diffs, Removed, true, v, i);
          (RemovedLine, Some(diffs[i]))
        case None => (ModifiedLine, None)
    else if !la && ra then
      TrimmedElementPrefix(right);
      match QuotedPrefix(right)
      case None => (ModifiedLine, None)
      case Some(v) =>
        match FirstValueMatch(diffs, Added, false, v, 0)
        case Some(i) =>
          assert FirstValueMatchAt(diffs, Added, false, v, i);
          (AddedLine, Some(diffs[i]))
        case None => (ModifiedLine, None)
    else (ModifiedLine, None)
  }

  /** Entry `i` is the first one of `diffs` that matches by value. */
  ghost predicate FirstValueMatchAt(diffs: seq<DiffEntry>, kind: DiffType, isLeft: bool, v: string, i: int) {
    && 0 <= i < |diffs|
    && ValueMatches(diffs[i], kind, isLeft, v)
    && forall j :: 0 <= j < i ==> !ValueMatches(diffs[j], kind, isLeft, v)
  }

  /**
   * How strongly an attributed entry claims a differing row: a right-side
   * addition first, then a left-side removal, a left-side modification and
   * a right-side modification; 0 for no entry.
   */
  function Priority(d: Option<DiffEntry>, isLeft: bool): nat {
    if d.None? then 0
    else match d.value.kind
      case Added => if isLeft then 0 else 4
      case Removed => if isLeft then 3 else 0
      case Modified => if isLeft then 2 else 1
      case Unchanged => 0
  }

  /**
   * The type and entry of a row whose two lines differ, given the entries
   * the two lines were attributed to.
   */
  function ClassifyChanged(left: string, right: string, leftDiff: Option<DiffEntry>, rightDiff: Option<DiffEntry>,
                           diffs: seq<DiffEntry>): (r: (LineKind, Option<DiffEntry>))
    requires leftDiff.Some? ==> RelevantFor(leftDiff.value.kind, true)
    requires rightDiff.Some? ==> RelevantFor(rightDiff.value.kind, false)
    ensures r.0 == AddedLine || r.0 == RemovedLine || r.0 == ModifiedLine
    ensures r.1.Some? ==> r.0 == KindOf(r.1.value.kind)
    ensures leftDiff.Some? || rightDiff.Some? ==>
      r.1 == (if Priority(rightDiff, false) > Priority(leftDiff, true) then rightDiff else leftDiff)
    ensures leftDiff.None? && rightDiff.None? ==> r == InferFromValues(left, right, diffs)
  {
    if rightDiff.Some? && rightDiff.value.kind == Added then (AddedLine, rightDiff)
    else if leftDiff.Some? && leftDiff.value.kind == Removed then (RemovedLine, leftDiff)
    else if leftDiff.Some? && leftDiff.value.kind == Modified then (ModifiedLine, leftDiff)
    else if rightDiff.Some? && rightDiff.value.kind == Modified then (ModifiedLine, rightDiff)
    else
      var v := InferFromValues(left, right, diffs);
      if v.0 == ModifiedLine && v.1.None? then (v.0, leftDiff.Or(rightDiff)) else v
  }

  /** One row of `computeLineDiffs` when both texts are non-empty; `n` is the row's 1-based number. */
  function AlignRow(left: Option<string>, right: Option<string>, n: nat, diffs: seq<DiffEntry>): (r: LineDiff)
    requires left.Some? || right.Some?
    ensures r.leftLine == left && r.rightLine == right
    ensures r.leftLineNumber == (if left.Some? then Some(n) else None)
    ensures r.rightLineNumber == (if right.Some? then Some(n) else None)
    ensures r.kind != UnchangedLine
    ensures r.kind == ContextLine <==> left == right
    ensures left.None? ==> r.kind == AddedLine
    ensures right.None? ==> r.kind == RemovedLine
    ensures left.None? ==> r.diff == FindDiffForLine(right.value, diffs, false)
    ensures right.None? ==> r.diff == FindDiffForLine(left.value, diffs, true)
    ensures left.Some? && left == right ==>
      r.diff == FindDiffForLine(left.value, diffs, true).Or(FindDiffForLine(right.value, diffs, false))
  {
    var leftDiff := if left.Some? then FindDiffForLine(left.value, diffs, true) else None;
    var rightDiff := if right.Some? then FindDiffForLine(right.value, diffs, false) else None;
    if left.None? then LineDiff(None, right, None, Some(n), AddedLine, rightDiff)
    else if right.None? then LineDiff(left, None, Some(n), None, RemovedLine, leftDiff)
    else if left == right then
      var diff := leftDiff.Or(rightDiff);
      LineDiff(left, right, Some(n), Some(n), if diff.Some? && diff.value.kind == Unchanged then UnchangedLine else ContextLine, diff)
    else
      var c := ClassifyChanged(left.value, right.value, leftDiff, rightDiff, diffs);
      LineDiff(left, right, Some(n), Some(n), c.0, c.1)
  }

  /**
   * `computeLineDiffs`: one row per line position up to the longer text.
   * Row `i` carries line `i` of each side, numbered `i + 1`, where that side
   * has one.
   */
  function ComputeLineDiffs(leftJson: string, rightJson: string, diffs: seq<DiffEntry>): (r: seq<LineDiff>)
    ensures |r| == Max(|TextLines(leftJson)|, |TextLines(rightJson)|)
    ensures forall i :: 0 <= i < |r| ==>
      && r[i].leftLine == LineAt(TextLines(leftJson), i)
      && r[i].rightLine == LineAt(TextLines(rightJson), i)
      && r[i].leftLineNumber == (if i < |TextLines(leftJson)| then Some(i + 1) else None)
      && r[i].rightLineNumber == (if i < |TextLines(rightJson)| then Some(i + 1) else None)
  {
    if |leftJson| == 0 && |rightJson| == 0 then []
    else if |leftJson| == 0 then OneSidedRows(FormatJsonLines(rightJson), false)
    else if |rightJson| == 0 then OneSidedRows(FormatJsonLines(leftJson), true)
    else AlignedRows(FormatJsonLines(leftJson), FormatJsonLines(rightJson), diffs)
  }

  /** The rows shown when the other text is empty: each line alone, `removed` on the left or `added` on the right, with no entry. */
  function OneSidedRows(lines: seq<string>, isLeft: bool): (r: seq<LineDiff>)
    ensures |r| == |lines|
    ensures forall i :: 0 <= i < |r| ==>
      r[i] == if isLeft then LineDiff(Some(lines[i]), None, Some(i + 1), None, RemovedLine, None)
              else LineDiff(None, Some(lines[i]), None, Some(i + 1), AddedLine, None)
  {
    if isLeft then seq(|lines|, i requires 0 <= i < |lines| => LineDiff(Some(lines[i]), None, Some(i + 1), None, RemovedLine, None))
    else seq(|lines|, i requires 0 <= i < |lines| => LineDiff(None, Some(lines[i]), None, Some(i + 1), AddedLine, None))
  }

  /** Row `i` of the positional walk over two non-empty texts. */
  function RowAt(leftLines: seq<string>, rightLines: seq<string>, i: nat, diffs: seq<DiffEntry>): LineDiff
    requires i < Max(|leftLines|, |rightLines|)
  {
    AlignRow(LineAt(leftLines, i), LineAt(rightLines, i), i + 1, diffs)
  }

  /** The positional walk over two non-empty texts. */
  function AlignedRows(leftLines: seq<string>, rightLines: seq<string>, diffs: seq<DiffEntry>): (r: seq<LineDiff>)
    ensures |r| == Max(|leftLines|, |rightLines|)
    ensures forall i :: 0 <= i < |r| ==> r[i] == RowAt(leftLines, rightLines, i, diffs)
  {
    var n := Max(|leftLines|, |rightLines|);
    seq(n, i requires 0 <= i < n => RowAt(leftLines, rightLines, i, diffs))
  }

  /** The text of a row on one side. */
  function Side(row: LineDiff, isLeft: bool): Option<string> {
    if isLeft then row.leftLine else row.rightLine
  }

  /** The non-null lines of one side of the rows, in row order. */
  function PresentLines(rows: seq<LineDiff>, isLeft: bool): seq<string>
    decreases |rows|
  {
    if |rows| == 0 then []
    else
      var last := Side(rows[|rows| - 1], isLeft);
      PresentLines(rows[..|rows| - 1], isLeft) + (if last.Some? then [last.value] else [])
  }

  lemma {:induction false} PresentPrefix(rows: seq<LineDiff>, lines: seq<string>, isLeft: bool)
    requires forall i :: 0 <= i < |rows| ==> Side(rows[i], isLeft) == LineAt(lines, i)
    ensures PresentLines(rows, isLeft) == lines[..if |rows| < |lines| then |rows| else |lines|]
    decreases |rows|
  {
    if |rows| > 0 {
      var n := |rows| - 1;
      PresentPrefix(rows[..n], lines, isLeft);
      if n < |lines| {
        assert lines[..n + 1] == lines[..n] + [lines[n]];
      }
    }
  }

  /**
   * Nothing is lost: the lines shown on each side, read top to bottom, are
   * exactly that side's text split at line feeds (none for an empty text).
   */
  lemma NothingLost(leftJson: string, rightJson: string, diffs: seq<DiffEntry>)
    ensures PresentLines(ComputeLineDiffs(leftJson, rightJson, diffs), true) == TextLines(leftJson)
    ensures PresentLines(ComputeLineDiffs(leftJson, rightJson, diffs), false) == TextLines(rightJson)
  {
    var rows := ComputeLineDiffs(leftJson, rightJson, diffs);
    PresentPrefix(rows, TextLines(leftJson), true);
    PresentPrefix(rows, TextLines(rightJson), false);
    assert TextLines(leftJson)[..|TextLines(leftJson)|] == TextLines(leftJson);
    assert TextLines(rightJson)[..|TextLines(rightJson)|] == TextLines(rightJson);
  }

  /**
   * Row types: no row is ever `unchanged`; a row is `context` exactly when
   * both sides have the same line; a row with only a right line is
   * `added` and one with only a left line is `removed`.
   */
  lemma RowKinds(leftJson: string, rightJson: string, diffs: seq<DiffEntry>)
    ensures var rows := ComputeLineDiffs(leftJson, rightJson, diffs);
      forall i :: 0 <= i < |rows| ==>
        && rows[i].kind != UnchangedLine
        && (rows[i].kind == ContextLine <==> rows[i].leftLine.Some? && rows[i].leftLine == rows[i].rightLine)
        && (rows[i].leftLine.None? ==> rows[i].kind == AddedLine)
        && (rows[i].rightLine.None? ==> rows[i].kind == RemovedLine)
  {
  }

  /** When one text is empty, every row belongs to the other side alone and carries no entry. */
  lemma EmptySideRows(leftJson: string, rightJson: string, diffs: seq<DiffEntry>)
    requires |leftJson| == 0 || |rightJson| == 0
    ensures var rows := ComputeLineDiffs(leftJson, rightJson, diffs);
      && (|leftJson| == 0 && |rightJson| == 0 <==> rows == [])
      && forall i :: 0 <= i < |rows| ==> rows[i].diff.None?
  {
  }

  /**
   * A row whose two lines differ: its entry is the stronger of the two
   * attributed entries by `Priority`, and its type is that entry's type;
   * only when neither line was attributed does the value-based inference
   * decide.
   */
  lemma ChangedRow(leftJson: string, rightJson: string, diffs: seq<DiffEntry>, i: nat)
    requires i < |ComputeLineDiffs(leftJson, rightJson, diffs)|
    requires var row := ComputeLineDiffs(leftJson, rightJson, diffs)[i];
      row.leftLine.Some? && row.rightLine.Some? && row.leftLine != row.rightLine
    ensures var row := ComputeLineDiffs(leftJson, rightJson, diffs)[i];
      var ld := FindDiffForLine(row.leftLine.value, diffs, true);
      var rd := FindDiffForLine(row.rightLine.value, diffs, false);
      && (row.kind == AddedLine || row.kind == RemovedLine || row.kind == ModifiedLine)
      && (row.diff.Some? ==> row.kind == KindOf(row.diff.value.kind))
      && (ld.Some? || rd.Some? ==> row.diff == (if Priority(rd, false) > Priority(ld, true) then rd else ld))
      && (ld.None? && rd.None? ==> (row.kind, row.diff) == InferFromValues(row.leftLine.value, row.rightLine.value, diffs))
  {
    var row := ComputeLineDiffs(leftJson, rightJson, diffs)[i];
    var left, right := row.leftLine.value, row.rightLine.value;
    var ld := FindDiffForLine(left, diffs, true);
    var rd := FindDiffForLine(right, diffs, false);
    var c := ClassifyChanged(left, right, ld, rd, diffs);
    assert row.kind == c.0 && row.diff == c.1;
  }
}
