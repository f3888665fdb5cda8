/**
 * The records the value differ hands to the views. How that list is produced
 * is not part of this model: every operation below takes it as an arbitrary
 * sequence, with no assumption about duplicates, order or paths.
 */
module Diffs {
  import opened Wrappers
  import opened Text
  import opened Seqs

  datatype DiffType = Added | Removed | Modified | Unchanged

  /**
   * A JSON value held by a diff entry. A string is kept as its text; any
   * other value is kept as the text `JSON.stringify` gives for it, since
   * only that text is ever compared.
   */
  datatype DiffValue = StringValue(text: string) | OtherValue(json: string)

  /** One entry of the differ's output: a dot-joined path from `root`, its type, and the values present on each side. */
  datatype DiffEntry = DiffEntry(
    path: string,
    kind: DiffType,
    leftValue: Option<DiffValue>,
    rightValue: Option<DiffValue>)

  /** The entry types a side shows: removed or modified on the left, added or modified on the right. */
  predicate RelevantFor(kind: DiffType, isLeft: bool) {
    if isLeft then kind == Removed || kind == Modified else kind == Added || kind == Modified
  }

  /** The entries relevant to a side, in list order. */
  function RelevantDiffs(diffs: seq<DiffEntry>, isLeft: bool): (r: seq<DiffEntry>)
    ensures forall d :: d in r <==> d in diffs && RelevantFor(d.kind, isLeft)
    ensures forall i :: 0 <= i < |r| ==> r[i].kind != Unchanged
    ensures IsSubsequence(r, diffs)
    ensures forall d :: multiset(r)[d] == if RelevantFor(d.kind, isLeft) then multiset(diffs)[d] else 0
  {
    var r := Filter(diffs, (d: DiffEntry) => RelevantFor(d.kind, isLeft));
    forall d ensures d in r <==> d in diffs && RelevantFor(d.kind, isLeft) {
      FilterMembership(diffs, (d: DiffEntry) => RelevantFor(d.kind, isLeft), d);
    }
    r
  }

  /** The value recorded for a side, if the path exists there. */
  function SideValue(d: DiffEntry, isLeft: bool): Option<DiffValue> {
    if isLeft then d.leftValue else d.rightValue
  }

  /** The dot-separated segments of a path. */
  function Segments(path: string): (r: seq<string>)
    ensures |r| >= 1
  {
    Split(path, '.')
  }

  /** The last segment of a path: its own key or array index. */
  function LastSegment(path: string): string {
    var parts := Segments(path);
    parts[|parts| - 1]
  }

  /** A segment naming an object key: neither the `root` marker nor an array index. */
  predicate IsKeySegment(k: string) {
    k != "root" && !IsDigits(k)
  }

  /** The segments of a path that name object keys, in path order, with the `root` marker and array indices left out. */
  function KeySegments(path: string): (r: seq<string>)
    ensures forall i :: 0 <= i < |r| ==> IsKeySegment(r[i])
    ensures forall k :: k in r <==> k in Segments(path) && IsKeySegment(k)
    ensures IsSubsequence(r, Segments(path))
    ensures forall k :: multiset(r)[k] == if IsKeySegment(k) then multiset(Segments(path))[k] else 0
  {
    var r := Filter(Segments(path), IsKeySegment);
    forall k ensures k in r <==> k in Segments(path) && IsKeySegment(k) {
      FilterMembership(Segments(path), IsKeySegment, k);
    }
    assert forall i :: 0 <= i < |r| ==> r[i] in r;
    r
  }

  /** The deepest key of a path, if it has one. */
  function LastKey(path: string): Option<string> {
    var ks := KeySegments(path);
    if |ks| == 0 then None else Some(ks[|ks| - 1])
  }

  /** Drops one double quote from the start and one from the end of the text, where present. */
  function StripQuotes(s: string): (r: string)
    ensures |r| <= |s|
    ensures (|s| == 0 || (s[0] != '"' && s[|s| - 1] != '"')) ==> r == s
    ensures |s| >= 2 && s[0] == '"' && s[|s| - 1] == '"' ==> r == s[1..|s| - 1]
    ensures |s| >= 1 && s[0] == '"' && s[|s| - 1] != '"' ==> r == s[1..]
    ensures |s| >= 1 && s[0] != '"' && s[|s| - 1] == '"' ==> r == s[..|s| - 1]
    ensures s == "\"" ==> r == ""
  {
    var a := if |s| > 0 && s[0] == '"' then s[1..] else s;
    if |a| > 0 && a[|a| - 1] == '"' then a[..|a| - 1] else a
  }

  /** The text a line is compared with: a string as is, any other value as its serialised text without surrounding quotes. */
  function NormalizedValue(v: DiffValue): string {
    match v
    case StringValue(s) => s
    case OtherValue(json) => StripQuotes(json)
  }
}
