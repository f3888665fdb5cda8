/**
 * The search box of the inspector's JSON input: the normalised search term,
 * the list of match positions, the wrapped-around current match, the
 * previous/next buttons, and the numbered highlight segments.
 */
module SearchInput {
  import opened Wrappers
  import opened Text

  /** The search term with its surrounding white space removed and its letters lower-cased. */
  function NormalizedSearch(term: string): (r: string)
    ensures |r| <= |term|
    ensures r == [] || (!IsSpace(r[0]) && !IsSpace(r[|r| - 1]))
    ensures forall i :: 0 <= i < |r| ==> !('A' <= r[i] <= 'Z')
    ensures exists i :: LoweredPaddedAt(term, r, i)
  {
    var r := ToLower(Trim(term));
    TrimThenLower(term);
    assert exists i :: LoweredPaddedAt(term, r, i);
    r
  }

  /**
   * `r` is the lower-cased text of `term` from index `i` on, with only white
   * space before and after it in `term`.
   */
  ghost predicate LoweredPaddedAt(term: string, r: string, i: int) {
    && 0 <= i <= |term| - |r|
    && (forall k :: 0 <= k < i ==> IsSpace(term[k]))
    && (forall k :: i + |r| <= k < |term| ==> IsSpace(term[k]))
    && (forall j :: 0 <= j < |r| ==> r[j] == LowerChar(term[i + j]))
  }

  lemma TrimThenLower(term: string)
    ensures exists i :: LoweredPaddedAt(term, ToLower(Trim(term)), i)
  {
    var t := Trim(term);
    var i :| PaddedAt(term, t, i);
    forall j | 0 <= j < |t| ensures ToLower(t)[j] == LowerChar(term[i + j]) {
      assert t[j] == term[i..i + |t|][j];
    }
    assert LoweredPaddedAt(term, ToLower(t), i);
  }

  /** Normalising an already normalised search changes nothing. */
  lemma NormalizedSearchIsIdempotent(term: string)
    ensures NormalizedSearch(NormalizedSearch(term)) == NormalizedSearch(term)
  {
    var r := NormalizedSearch(term);
    TrimOfUnpadded(r);
    LowerIsIdempotent(Trim(term));
  }

  /** Match positions in increasing order, each at least `len` after the one before. */
  ghost predicate Spaced(ms: seq<nat>, len: nat) {
    forall a, b :: 0 <= a < b < |ms| ==> ms[a] + len <= ms[b]
  }

  /** Position `j` lies inside one of the matches `ms` of a needle of length `len`. */
  ghost predicate Covered(ms: seq<nat>, len: nat, j: int) {
    exists k :: 0 <= k < |ms| && ms[k] <= j < ms[k] + len
  }

  lemma CoverExtends(i: nat, rest: seq<nat>, len: nat, j: int)
    requires i <= j < i + len || Covered(rest, len, j)
    ensures Covered([i] + rest, len, j)
  {
    var r := [i] + rest;
    if i <= j < i + len {
      assert r[0] == i;
    } else {
      var k :| 0 <= k < |rest| && rest[k] <= j < rest[k] + len;
      assert r[k + 1] == rest[k];
    }
  }

  /**
   * The `while (currentIndex !== -1)` scan: each match is searched for from
   * the end of the previous one, so matches never overlap.
   */
  function ScanFrom(h: string, n: string, from: nat): (r: seq<nat>)
    requires |n| > 0 && from <= |h|
    ensures forall k :: 0 <= k < |r| ==> from <= r[k] && Occurs(h, n, r[k])
    ensures Spaced(r, |n|)
    ensures forall j {:trigger Covered(r, |n|, j)} :: from <= j && Occurs(h, n, j) ==> Covered(r, |n|, j)
    decreases |h| - from
  {
    match IndexOf(h, n, from)
    case None => []
    case Some(i) =>
      var rest := ScanFrom(h, n, i + |n|);
      ScanStep(h, n, from, i, rest);
      [i] + rest
  }

  /** One round of the scan: a first match followed by the scan from its end. */
  lemma ScanStep(h: string, n: string, from: nat, i: nat, rest: seq<nat>)
    requires |n| > 0 && from <= i && Occurs(h, n, i)
    requires forall j :: from <= j < i ==> !Occurs(h, n, j)
    requires forall k :: 0 <= k < |rest| ==> i + |n| <= rest[k] && Occurs(h, n, rest[k])
    requires Spaced(rest, |n|)
    requires forall j {:trigger Covered(rest, |n|, j)} :: i + |n| <= j && Occurs(h, n, j) ==> Covered(rest, |n|, j)
    ensures var r := [i] + rest;
      && (forall k :: 0 <= k < |r| ==> from <= r[k] && Occurs(h, n, r[k]))
      && Spaced(r, |n|)
      && (forall j {:trigger Covered(r, |n|, j)} :: from <= j && Occurs(h, n, j) ==> Covered(r, |n|, j))
  {
    StepOver(j => Occurs(h, n, j), |n|, from, i, rest);
  }

  /** `ScanStep` for any notion of occurrence `occ`. */
  lemma StepOver(occ: int -> bool, len: nat, from: nat, i: nat, rest: seq<nat>)
    requires from <= i && occ(i)
    requires forall j :: from <= j < i ==> !occ(j)
    requires forall k :: 0 <= k < |rest| ==> i + len <= rest[k] && occ(rest[k])
    requires Spaced(rest, len)
    requires forall j {:trigger Covered(rest, len, j)} :: i + len <= j && occ(j) ==> Covered(rest, len, j)
    ensures var r := [i] + rest;
      && (forall k :: 0 <= k < |r| ==> from <= r[k] && occ(r[k]))
      && Spaced(r, len)
      && (forall j {:trigger Covered(r, len, j)} :: from <= j && occ(j) ==> Covered(r, len, j))
  {
    var r := [i] + rest;
    AllCons(occ, from, i, rest);
    SpacedCons(i, rest, len);
    forall j | from <= j && occ(j) ensures Covered(r, len, j) {
      CoverExtends(i, rest, len, j);
    }
  }

  lemma AllCons(occ: int -> bool, from: nat, i: nat, rest: seq<nat>)
    requires from <= i && occ(i)
    requires forall k :: 0 <= k < |rest| ==> from <= rest[k] && occ(rest[k])
    ensures forall k :: 0 <= k < |[i] + rest| ==> from <= ([i] + rest)[k] && occ(([i] + rest)[k])
  {
    var r := [i] + rest;
    assert forall k :: 1 <= k < |r| ==> r[k] == rest[k - 1];
  }

  lemma SpacedCons(i: nat, rest: seq<nat>, len: nat)
    requires forall k :: 0 <= k < |rest| ==> i + len <= rest[k]
    requires Spaced(rest, len)
    ensures Spaced([i] + rest, len)
  {
    var r := [i] + rest;
    forall a, b | 0 <= a < b < |r| ensures r[a] + len <= r[b] {
      assert r[b] == rest[b - 1];
      if a > 0 {
        assert r[a] == rest[a - 1];
      }
    }
  }

  /** `matches`: no positions for an empty normalised search, otherwise the scan of the lower-cased value. */
  function Matches(value: string, term: string): (r: seq<nat>)
    ensures |NormalizedSearch(term)| == 0 ==> r == []
  {
    var needle := NormalizedSearch(term);
    if |needle| == 0 then [] else ScanFrom(ToLower(value), needle, 0)
  }

  /** The matches are sound, in increasing order, non-overlapping, and miss no occurrence except inside an earlier match. */
  lemma MatchesAreLeftmostNonOverlapping(value: string, term: string)
    requires |NormalizedSearch(term)| > 0
    ensures var r := Matches(value, term);
      var needle := NormalizedSearch(term);
      && (forall k :: 0 <= k < |r| ==> ToLower(value)[r[k]..r[k] + |needle|] == needle)
      && (forall a, b :: 0 <= a < b < |r| ==> r[a] < r[b] && r[a] + |needle| <= r[b])
      && (forall j {:trigger Covered(r, |needle|, j)} :: Occurs(ToLower(value), needle, j) ==> Covered(r, |needle|, j))
  {
    var needle := NormalizedSearch(term);
    ScanIsLeftmost(ToLower(value), needle);
    assert ScanFrom(ToLower(value), needle, 0) == Matches(value, term);
  }

  lemma ScanIsLeftmost(h: string, n: string)
    requires |n| > 0
    ensures var r := ScanFrom(h, n, 0);
      && (forall k :: 0 <= k < |r| ==> h[r[k]..r[k] + |n|] == n)
      && (forall a, b :: 0 <= a < b < |r| ==> r[a] < r[b] && r[a] + |n| <= r[b])
      && (forall j {:trigger Covered(r, |n|, j)} :: Occurs(h, n, j) ==> Covered(r, |n|, j))
  {
    var r := ScanFrom(h, n, 0);
    forall k | 0 <= k < |r| ensures h[r[k]..r[k] + |n|] == n {
      assert Occurs(h, n, r[k]);
    }
  }

  // -------------------------------------------------------- current match

  lemma {:induction false} MulAtLeast(k: int, c: int)
    requires k >= 1 && c > 0
    ensures k * c >= c
    decreases k
  {
    if k > 1 {
      MulAtLeast(k - 1, c);
      assert k * c == (k - 1) * c + c;
    }
  }

  /** The Euclidean remainder is determined by any quotient that leaves a remainder in `[0, c)`. */
  lemma ModUnique(a: int, c: int, q: int, r: int)
    requires c > 0 && 0 <= r < c && a == q * c + r
    ensures a % c == r
  {
    var q0 := a / c;
    var r0 := a % c;
    assert a == q0 * c + r0;
    if q0 < q {
      assert (q - q0) * c == r0 - r;
      MulAtLeast(q - q0, c);
    } else if q0 > q {
      assert (q0 - q) * c == r - r0;
      MulAtLeast(q0 - q, c);
    }
  }

  lemma AddModulus(y: int, c: int)
    requires c > 0
    ensures (y + c) % c == y % c
  {
    var q := y / c;
    assert y == q * c + y % c;
    ModUnique(y + c, c, q + 1, y % c);
  }

  lemma ModOfSum(a: int, d: int, c: int)
    requires c > 0
    ensures (a + d) % c == (a % c + d) % c
  {
    var q := a / c;
    var s := a % c;
    assert a == q * c + s;
    var q2 := (s + d) / c;
    var t := (s + d) % c;
    assert s + d == q2 * c + t;
    assert a + d == (q + q2) * c + t;
    ModUnique(a + d, c, q + q2, t);
  }

  /** A truncated remainder is congruent to its dividend. */
  lemma TruncatedRemainder(a: int, b: int)
    requires b > 0
    ensures (if a >= 0 then a % b else -((-a) % b)) % b == a % b
  {
    if a >= 0 {
      ModUnique(a % b, b, 0, a % b);
    } else {
      var q := (-a) / b;
      var s := (-a) % b;
      assert -a == q * b + s;
      if s == 0 {
        ModUnique(a, b, -q, 0);
        ModUnique(-s, b, 0, 0);
      } else {
        ModUnique(a, b, -q - 1, b - s);
        ModUnique(-s, b, -1, b - s);
      }
    }
  }

  /** JavaScript's `%`: the remainder takes the sign of the dividend. */
  function JsRem(a: int, b: int): (r: int)
    requires b > 0
    ensures a >= 0 ==> 0 <= r < b
    ensures a < 0 ==> -b < r <= 0
    ensures r % b == a % b
  {
    TruncatedRemainder(a, b);
    if a >= 0 then a % b else -((-a) % b)
  }

  /**
   * `safeMatchIndex`: 0 without matches; otherwise the stored index wrapped
   * into `[0, count)`, keeping its remainder modulo `count`.
   */
  function SafeMatchIndex(matchIndex: int, count: nat): (r: int)
    ensures count == 0 ==> r == 0
    ensures count > 0 ==> 0 <= r < count && r == matchIndex % count
  {
    if count == 0 then 0
    else
      var x := JsRem(matchIndex, count);
      AddModulus(x, count);
      JsRem(x + count, count)
  }

  type Direction = d: int | d == 1 || d == -1 witness 1

  /** `goToMatch`: the stored index after one step; unchanged when there are no matches. */
  function GoToMatch(prev: int, direction: Direction, count: nat): (r: int)
    ensures count == 0 ==> r == prev
    ensures count > 0 ==> r % count == (prev + direction) % count
    ensures count > 0 && prev >= 0 ==> 0 <= r < count
  {
    if count == 0 then prev
    else
      AddModulus(prev + direction, count);
      JsRem(prev + direction + count, count)
  }

  /** A step moves the displayed match one place around the ring of matches, whatever the stored index. */
  lemma GoToMatchMovesDisplayed(prev: int, direction: Direction, count: nat)
    requires count > 0
    ensures SafeMatchIndex(GoToMatch(prev, direction, count), count) == (SafeMatchIndex(prev, count) + direction) % count
  {
    ModOfSum(prev, direction, count);
  }

  /** Next followed by previous returns to where it started, for any stored index in range. */
  lemma NextThenPrevious(prev: int, count: nat)
    requires 0 <= prev < count
    ensures GoToMatch(GoToMatch(prev, 1, count), -1, count) == prev
  {
    var next := GoToMatch(prev, 1, count);
    var back := GoToMatch(next, -1, count);
    ModOfSum(prev + 1, -1, count);
    ModUnique(prev, count, 0, prev);
    ModUnique(back, count, 0, back);
  }

  /**
   * The stored index starts at 0 and is reset to 0 or moved by `goToMatch`
   * only: it is never negative, so the displayed index is its plain
   * remainder.
   */
  lemma StoredIndexStaysNatural(prev: int, direction: Direction, count: nat)
    requires prev >= 0
    ensures GoToMatch(prev, direction, count) >= 0
    ensures SafeMatchIndex(prev, count) == if count == 0 then 0 else prev % count
  {
  }

  // ------------------------------------------------------------ segments

  /** The zero-width space an empty part is shown as. */
  const ZeroWidthSpace: char := '\U{200B}'

  datatype HighlightSegment = HighlightSegment(text: string, highlight: bool, matchIndex: Option<nat>)

  /** The concatenation of the parts. */
  function Concat(parts: seq<string>): string
    decreases |parts|
  {
    if |parts| == 0 then "" else parts[0] + Concat(parts[1..])
  }

  /** Match positions in increasing order, non-overlapping, inside `[from, n)`. */
  ghost predicate WellSpaced(ms: seq<nat>, len: nat, from: nat, n: nat) {
    && from <= n
    && (forall k :: 0 <= k < |ms| ==> from <= ms[k] && ms[k] + len <= n)
    && Spaced(ms, len)
  }

  lemma WellSpacedTail(ms: seq<nat>, len: nat, from: nat, n: nat)
    requires WellSpaced(ms, len, from, n) && |ms| > 0
    ensures WellSpaced(ms[1..], len, ms[0] + len, n)
  {
    var tail := ms[1..];
    assert forall k :: 0 <= k < |tail| ==> tail[k] == ms[k + 1];
    if |tail| > 0 {
      assert tail[0] == ms[1];
    }
  }

  /**
   * `value.split(/(needle)/gi)` from index `from`, given the match positions:
   * the text before each match, the match itself, and what follows the last.
   */
  function Pieces(value: string, ms: seq<nat>, len: nat, from: nat): (r: seq<string>)
    requires WellSpaced(ms, len, from, |value|)
    ensures |r| == 2 * |ms| + 1
    decreases |ms|
  {
    if |ms| == 0 then [value[from..]]
    else
      WellSpacedTail(ms, len, from, |value|);
      [value[from..ms[0]]] + ([value[ms[0]..ms[0] + len]] + Pieces(value, ms[1..], len, ms[0] + len))
  }

  /** Joining the pieces gives back the text they were cut from. */
  lemma {:induction false} PiecesConcat(value: string, ms: seq<nat>, len: nat, from: nat)
    requires WellSpaced(ms, len, from, |value|)
    ensures Concat(Pieces(value, ms, len, from)) == value[from..]
    decreases |ms|
  {
    if |ms| > 0 {
      var m := ms[0];
      PiecesCons(value, ms, len, from);
      var rest := Pieces(value, ms[1..], len, m + len);
      PiecesConcat(value, ms[1..], len, m + len);
      ConcatPair(value[from..m], value[m..m + len], rest);
      SliceThree(value, from, m, m + len);
    }
  }

  /** Piece `2k + 1` is the text at the `k`-th position. */
  lemma {:induction false} PieceAt(value: string, ms: seq<nat>, len: nat, from: nat, k: nat)
    requires WellSpaced(ms, len, from, |value|) && k < |ms|
    ensures ms[k] + len <= |value|
    ensures Pieces(value, ms, len, from)[2 * k + 1] == value[ms[k]..ms[k] + len]
    decreases k
  {
    var m := ms[0];
    var tail := ms[1..];
    PiecesCons(value, ms, len, from);
    var rest := Pieces(value, tail, len, m + len);
    if k > 0 {
      PieceAt(value, tail, len, m + len, k - 1);
      assert tail[k - 1] == ms[k];
      PrefixPairIndex(value[from..m], value[m..m + len], rest, 2 * (k - 1) + 1);
    }
  }

  /** Where plain piece `k` starts: `from` for the first, else just after match `k - 1`. */
  function GapStart(ms: seq<nat>, len: nat, from: nat, k: nat): nat
    requires k <= |ms|
  {
    if k == 0 then from else ms[k - 1] + len
  }

  /** Where plain piece `k` ends: the end of the value for the last, else at match `k`. */
  function GapEnd(ms: seq<nat>, n: nat, k: nat): nat
    requires k <= |ms|
  {
    if k == |ms| then n else ms[k]
  }

  /** Piece `2k` is the plain text between match `k - 1` (or `from`) and match `k` (or the end). */
  lemma {:induction false} EvenPieceAt(value: string, ms: seq<nat>, len: nat, from: nat, k: nat)
    requires WellSpaced(ms, len, from, |value|) && k <= |ms|
    ensures GapStart(ms, len, from, k) <= GapEnd(ms, |value|, k) <= |value|
    ensures Pieces(value, ms, len, from)[2 * k] == value[GapStart(ms, len, from, k)..GapEnd(ms, |value|, k)]
    decreases k
  {
    if k == 0 {
      FirstPiece(value, ms, len, from);
    } else {
      var m := ms[0];
      PiecesCons(value, ms, len, from);
      EvenPieceAt(value, ms[1..], len, m + len, k - 1);
      GapShift(ms, len, from, |value|, k);
      PrefixPairIndex(value[from..m], value[m..m + len], Pieces(value, ms[1..], len, m + len), 2 * (k - 1));
    }
  }

  lemma FirstPiece(value: string, ms: seq<nat>, len: nat, from: nat)
    requires WellSpaced(ms, len, from, |value|)
    ensures from <= GapEnd(ms, |value|, 0) <= |value|
    ensures Pieces(value, ms, len, from)[0] == value[from..GapEnd(ms, |value|, 0)]
  {
    if |ms| > 0 {
      PiecesCons(value, ms, len, from);
    }
  }

  /** The gaps of the positions after the first are the later gaps of all of them. */
  lemma GapShift(ms: seq<nat>, len: nat, from: nat, n: nat, k: nat)
    requires 0 < k <= |ms|
    ensures GapStart(ms[1..], len, ms[0] + len, k - 1) == GapStart(ms, len, from, k)
    ensures GapEnd(ms[1..], n, k - 1) == GapEnd(ms, n, k)
  {
    if k > 1 {
      assert ms[1..][k - 2] == ms[k - 1];
    }
    if k < |ms| {
      assert ms[1..][k - 1] == ms[k];
    }
  }

  lemma PiecesCons(value: string, ms: seq<nat>, len: nat, from: nat)
    requires WellSpaced(ms, len, from, |value|) && |ms| > 0
    ensures from <= ms[0] && ms[0] + len <= |value|
    ensures WellSpaced(ms[1..], len, ms[0] + len, |value|)
    ensures Pieces(value, ms, len, from)
      == [value[from..ms[0]]] + ([value[ms[0]..ms[0] + len]] + Pieces(value, ms[1..], len, ms[0] + len))
  {
    WellSpacedTail(ms, len, from, |value|);
  }

  lemma PrefixPairIndex(a: string, b: string, rest: seq<string>, j: nat)
    requires j < |rest|
    ensures ([a] + ([b] + rest))[j + 2] == rest[j]
  {
  }

  lemma ConcatPair(a: string, b: string, rest: seq<string>)
    ensures Concat([a] + ([b] + rest)) == a + (b + Concat(rest))
  {
    var r := [a] + ([b] + rest);
    assert r[1..] == [b] + rest;
    assert r[1..][1..] == rest;
  }

  lemma SliceThree(s: string, i: nat, j: nat, k: nat)
    requires i <= j <= k <= |s|
    ensures s[i..] == s[i..j] + (s[j..k] + s[k..])
  {
  }

  lemma OccurrencesAreWellSpaced(h: string, n: string, ms: seq<nat>)
    requires forall k :: 0 <= k < |ms| ==> Occurs(h, n, ms[k])
    requires Spaced(ms, |n|)
    ensures WellSpaced(ms, |n|, 0, |h|)
  {
    forall k | 0 <= k < |ms| ensures ms[k] + |n| <= |h| {
      assert Occurs(h, n, ms[k]);
    }
  }

  /** The parts `split` yields for a non-empty normalised search. */
  function SplitParts(value: string, needle: string): (r: seq<string>)
    requires |needle| > 0
    ensures |r| == 2 * |ScanFrom(ToLower(value), needle, 0)| + 1
    ensures Concat(r) == value
  {
    var ms := ScanFrom(ToLower(value), needle, 0);
    OccurrencesAreWellSpaced(ToLower(value), needle, ms);
    PiecesConcat(value, ms, |needle|, 0);
    assert value[0..] == value;
    Pieces(value, ms, |needle|, 0)
  }

  /** The text a part is shown as. */
  function Shown(part: string): string {
    if part == "" then [ZeroWidthSpace] else part
  }

  /**
   * The `parts.map` with `matchCounter`: every odd-indexed part is a match,
   * numbered by pre-incrementing a counter that starts at -1.
   */
  function Number(parts: seq<string>, index: nat, counter: int): (r: seq<HighlightSegment>)
    requires counter == index / 2 - 1
    ensures |r| == |parts|
    decreases |parts|
  {
    if |parts| == 0 then []
    else
      var highlight := index % 2 == 1;
      var next := if highlight then counter + 1 else counter;
      HalfStep(index);
      [HighlightSegment(Shown(parts[0]), highlight, if highlight then Some(next) else None)]
        + Number(parts[1..], index + 1, next)
  }

  /**
   * The counter numbers the matches by position: the segment of part `i`
   * shows that part, and it is highlighted and numbered `(index + i) / 2`
   * exactly when `index + i` is odd.
   */
  lemma {:induction false} NumberPattern(parts: seq<string>, index: nat, counter: int)
    requires counter == index / 2 - 1
    ensures var r := Number(parts, index, counter);
      forall i :: 0 <= i < |r| ==>
        && r[i].text == Shown(parts[i])
        && r[i].highlight == ((index + i) % 2 == 1)
        && r[i].matchIndex == (if (index + i) % 2 == 1 then Some((index + i) / 2) else None)
    decreases |parts|
  {
    if |parts| > 0 {
      var highlight := index % 2 == 1;
      var next := if highlight then counter + 1 else counter;
      HalfStep(index);
      var rest := Number(parts[1..], index + 1, next);
      NumberPattern(parts[1..], index + 1, next);
      var r := Number(parts, index, counter);
      assert r == [HighlightSegment(Shown(parts[0]), highlight, if highlight then Some(next) else None)] + rest;
      forall i | 0 <= i < |r|
        ensures r[i].text == Shown(parts[i])
        ensures r[i].highlight == ((index + i) % 2 == 1)
        ensures r[i].matchIndex == (if (index + i) % 2 == 1 then Some((index + i) / 2) else None)
      {
        if i > 0 {
          var j := i - 1;
          assert r[i] == rest[j] && parts[1..][j] == parts[i];
          assert (index + 1) + j == index + i;
        }
      }
    }
  }

  /** Exactly the odd-positioned segments are highlighted, and segment `2k + 1` carries number `k`. */
  ghost predicate OddNumbered(r: seq<HighlightSegment>) {
    forall i :: 0 <= i < |r| ==>
      && (r[i].highlight <==> i % 2 == 1)
      && r[i].matchIndex == (if i % 2 == 1 then Some(i / 2) else None)
  }

  /** Segment `i` shows part `i`, with a zero-width space standing in for an empty part. */
  ghost predicate ShowsParts(r: seq<HighlightSegment>, parts: seq<string>) {
    |r| == |parts| && forall i :: 0 <= i < |r| ==> r[i].text == Shown(parts[i])
  }

  /**
   * Numbering from the first part: every segment shows its part, and the odd
   * positions are the matches, numbered by half their position.
   */
  lemma NumberFromStart(parts: seq<string>)
    ensures ShowsParts(Number(parts, 0, -1), parts)
    ensures OddNumbered(Number(parts, 0, -1))
  {
    NumberPattern(parts, 0, -1);
    var r := Number(parts, 0, -1);
    forall i | 0 <= i < |r|
      ensures r[i].text == Shown(parts[i])
      ensures (r[i].highlight <==> i % 2 == 1)
      ensures r[i].matchIndex == (if i % 2 == 1 then Some(i / 2) else None)
    {
      assert 0 + i == i;
    }
  }

  /** Stepping the index by one moves `index / 2` up exactly when `index` is odd. */
  lemma HalfStep(index: nat)
    ensures (index + 1) / 2 == (if index % 2 == 1 then index / 2 + 1 else index / 2)
  {
  }

  /** The segments for a non-empty needle: one per part of the split, showing it, the odd ones highlighted and numbered 0, 1, 2, ... */
  function MatchSegments(value: string, needle: string): (r: seq<HighlightSegment>)
    requires |needle| > 0
    ensures |r| == 2 * |ScanFrom(ToLower(value), needle, 0)| + 1
    ensures ShowsParts(r, SplitParts(value, needle))
    ensures OddNumbered(r)
  {
    var parts := SplitParts(value, needle);
    NumberFromStart(parts);
    Number(parts, 0, -1)
  }

  /**
   * `highlightSegments`: for an empty normalised search one plain segment
   * holding the value (a zero-width space if the value is empty); otherwise
   * one segment per part of the split showing that part (a zero-width space
   * for an empty one), the odd ones highlighted and numbered 0, 1, 2, ...
   */
  function HighlightSegments(value: string, term: string): (r: seq<HighlightSegment>)
    ensures |NormalizedSearch(term)| == 0 ==> r == [HighlightSegment(Shown(value), false, None)]
    ensures |NormalizedSearch(term)| > 0 ==>
      && |r| == 2 * |Matches(value, term)| + 1
      && (forall i :: 0 <= i < |r| ==> r[i].text == Shown(SplitParts(value, NormalizedSearch(term))[i]))
      && OddNumbered(r)
  {
    var needle := NormalizedSearch(term);
    if |needle| == 0 then [HighlightSegment(Shown(value), false, None)]
    else MatchSegments(value, needle)
  }

  /**
   * The highlighted segments are exactly the matches, in order: segment
   * `2k + 1` shows the value's own text at the `k`-th match position, which
   * lower-cases to the needle, and carries number `k`.
   */
  lemma HighlightedSegmentsAreMatches(value: string, needle: string, k: nat)
    requires |needle| > 0 && k < |ScanFrom(ToLower(value), needle, 0)|
    ensures var r := MatchSegments(value, needle);
      var m := ScanFrom(ToLower(value), needle, 0)[k];
      && 2 * k + 1 < |r|
      && m + |needle| <= |value|
      && r[2 * k + 1] == HighlightSegment(value[m..m + |needle|], true, Some(k))
  {
    var parts := SplitParts(value, needle);
    OddPartIsMatch(value, needle, k);
    assert |parts[2 * k + 1]| == |needle|;
    assert Shown(parts[2 * k + 1]) == parts[2 * k + 1];
    NumberAtOdd(parts, k);
  }

  lemma NumberAtOdd(parts: seq<string>, k: nat)
    requires 2 * k + 1 < |parts|
    ensures Number(parts, 0, -1)[2 * k + 1] == HighlightSegment(Shown(parts[2 * k + 1]), true, Some(k))
  {
    NumberFromStart(parts);
    OddSegment(Number(parts, 0, -1), parts, k);
  }

  lemma OddSegment(segs: seq<HighlightSegment>, parts: seq<string>, k: nat)
    requires ShowsParts(segs, parts) && OddNumbered(segs) && 2 * k + 1 < |parts|
    ensures segs[2 * k + 1] == HighlightSegment(Shown(parts[2 * k + 1]), true, Some(k))
  {
    var i := 2 * k + 1;
    assert i % 2 == 1 && i / 2 == k;
    assert segs[i].matchIndex == Some(k);
  }

  /** Part `2k + 1` of the split is the text at the `k`-th scanned position. */
  lemma OddPartIsMatch(value: string, needle: string, k: nat)
    requires |needle| > 0 && k < |ScanFrom(ToLower(value), needle, 0)|
    ensures var m := ScanFrom(ToLower(value), needle, 0)[k];
      && m + |needle| <= |value|
      && SplitParts(value, needle)[2 * k + 1] == value[m..m + |needle|]
  {
    var ms := ScanFrom(ToLower(value), needle, 0);
    OccurrencesAreWellSpaced(ToLower(value), needle, ms);
    PieceAt(value, ms, |needle|, 0, k);
    assert SplitParts(value, needle) == Pieces(value, ms, |needle|, 0);
  }

  /**
   * Part `2k` of the split is the plain text between the `k - 1`-th scanned
   * position (or the start) and the `k`-th (or the end of the value).
   */
  lemma EvenPartIsPlain(value: string, needle: string, k: nat)
    requires |needle| > 0 && k <= |ScanFrom(ToLower(value), needle, 0)|
    ensures var ms := ScanFrom(ToLower(value), needle, 0);
      && GapStart(ms, |needle|, 0, k) <= GapEnd(ms, |value|, k) <= |value|
      && SplitParts(value, needle)[2 * k] == value[GapStart(ms, |needle|, 0, k)..GapEnd(ms, |value|, k)]
  {
    var ms := ScanFrom(ToLower(value), needle, 0);
    OccurrencesAreWellSpaced(ToLower(value), needle, ms);
    EvenPieceAt(value, ms, |needle|, 0, k);
    assert SplitParts(value, needle) == Pieces(value, ms, |needle|, 0);
  }

  /** The value's own text at the `k`-th match lower-cases to the needle. */
  lemma MatchedTextLowersToNeedle(value: string, needle: string, k: nat)
    requires |needle| > 0 && k < |ScanFrom(ToLower(value), needle, 0)|
    ensures var m := ScanFrom(ToLower(value), needle, 0)[k];
      m + |needle| <= |value| && ToLower(value[m..m + |needle|]) == needle
  {
    var m := ScanFrom(ToLower(value), needle, 0)[k];
    ScanHit(ToLower(value), needle, k);
    OccurrenceFits(value, needle, m);
    OccurrenceLowersToNeedle(value, needle, m);
  }

  /** The `k`-th scanned position is an occurrence. */
  lemma ScanHit(h: string, n: string, k: nat)
    requires |n| > 0 && k < |ScanFrom(h, n, 0)|
    ensures Occurs(h, n, ScanFrom(h, n, 0)[k])
  {
  }

  /** An occurrence in the lower-cased value lies inside the value. */
  lemma OccurrenceFits(value: string, needle: string, m: nat)
    requires Occurs(ToLower(value), needle, m)
    ensures m + |needle| <= |value|
  {
  }

  /** The text at an occurrence in the lower-cased value lower-cases to the needle. */
  lemma OccurrenceLowersToNeedle(value: string, needle: string, m: nat)
    requires Occurs(ToLower(value), needle, m)
    ensures ToLower(value[m..m + |needle|]) == needle
  {
    LowerOfSlice(value, m, m + |needle|);
  }

  lemma LowerOfSlice(s: string, i: nat, j: nat)
    requires i <= j <= |s|
    ensures ToLower(s[i..j]) == ToLower(s)[i..j]
  {
    var a := ToLower(s[i..j]);
    var b := ToLower(s)[i..j];
    forall x | 0 <= x < j - i ensures a[x] == b[x] {
      assert s[i..j][x] == s[i + x];
    }
  }
}
