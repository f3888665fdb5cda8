/**
 * The string primitives the JSON tools rely on: JavaScript's `\s` class and
 * `trim`, ASCII `toLowerCase`, `split` on a one-character separator,
 * `indexOf` and `includes`, and the scanning helpers the hand-written
 * pattern matchers are built from.
 */
module Text {
  import opened Wrappers

  /**
   * JavaScript's `\s` class over ASCII: space, tab, line feed, vertical tab,
   * form feed and carriage return; `String.prototype.trim` removes the same set.
   */
  predicate IsSpace(c: char) {
    c == ' ' || '\t' <= c <= '\r'
  }

  /** JavaScript's `\d` class. */
  predicate IsDigit(c: char) {
    '0' <= c <= '9'
  }

  /** The regular expression `^\d+$`: a non-empty run of decimal digits. */
  predicate IsDigits(s: string) {
    |s| > 0 && forall i :: 0 <= i < |s| ==> IsDigit(s[i])
  }

  /** ASCII lower-casing of one character. */
  function LowerChar(c: char): (r: char)
    ensures 'A' <= c <= 'Z' ==> 'a' <= r <= 'z' && r as int == c as int + 32
    ensures !('A' <= c <= 'Z') ==> r == c
  {
    if 'A' <= c <= 'Z' then (c as int + 32) as char else c
  }

  /** `toLowerCase`, restricted to ASCII letters. */
  function ToLower(s: string): (r: string)
    ensures |r| == |s|
    ensures forall i :: 0 <= i < |s| ==> r[i] == LowerChar(s[i])
    decreases |s|
  {
    if |s| == 0 then []
    else
      var rest := ToLower(s[1..]);
      assert forall i :: 1 <= i < |s| ==> ([LowerChar(s[0])] + rest)[i] == rest[i - 1] && s[1..][i - 1] == s[i];
      [LowerChar(s[0])] + rest
  }

  /** Characters equal up to ASCII case, as a case-insensitive regular expression compares them. */
  predicate SameLetter(a: char, b: char) {
    LowerChar(a) == LowerChar(b)
  }

  /** Case-insensitive equality of two strings. */
  predicate EqualsIgnoringCase(a: string, b: string) {
    |a| == |b| && forall i :: 0 <= i < |a| ==> SameLetter(a[i], b[i])
  }

  lemma LowerIsIdempotent(s: string)
    ensures ToLower(ToLower(s)) == ToLower(s)
  {
  }

  /** The index just past the last character of `s` that is not white space (0 if there is none). */
  function ContentEnd(s: string): (k: nat)
    ensures k <= |s|
    ensures forall j :: k <= j < |s| ==> IsSpace(s[j])
    ensures k > 0 ==> !IsSpace(s[k - 1])
    decreases |s|
  {
    if |s| > 0 && IsSpace(s[|s| - 1]) then ContentEnd(s[..|s| - 1]) else |s|
  }

  /** `r` sits in `s` at index `i` with only white space before and after it. */
  ghost predicate PaddedAt(s: string, r: string, i: int) {
    && 0 <= i <= |s| - |r|
    && s[i..i + |r|] == r
    && (forall k :: 0 <= k < i ==> IsSpace(s[k]))
    && (forall k :: i + |r| <= k < |s| ==> IsSpace(s[k]))
  }

  /** `String.prototype.trim`: the slice of `s` left after removing leading and trailing white space. */
  function Trim(s: string): (r: string)
    ensures r == [] || (!IsSpace(r[0]) && !IsSpace(r[|r| - 1]))
    ensures exists i :: PaddedAt(s, r, i)
  {
    var i := SkipSpaces(s, 0);
    var j := ContentEnd(s);
    if i <= j then
      assert PaddedAt(s, s[i..j], i);
      s[i..j]
    else
      assert PaddedAt(s, [], |s|);
      []
  }

  /** A text that neither starts nor ends with white space is its own trim. */
  lemma TrimOfUnpadded(s: string)
    requires s == [] || (!IsSpace(s[0]) && !IsSpace(s[|s| - 1]))
    ensures Trim(s) == s
  {
    var i :| PaddedAt(s, Trim(s), i);
  }

  /** Joins the pieces with the separator between consecutive pieces (`Array.prototype.join`). */
  function Join(parts: seq<string>, sep: char): string
    decreases |parts|
  {
    if |parts| == 0 then ""
    else if |parts| == 1 then parts[0]
    else parts[0] + [sep] + Join(parts[1..], sep)
  }

  /**
   * `s.split(sep)` for a one-character separator: never empty and no piece
   * holds the separator. `SplitJoins` shows the pieces join back to `s`.
   */
  function Split(s: string, sep: char): (r: seq<string>)
    ensures |r| >= 1
    ensures forall i :: 0 <= i < |r| ==> sep !in r[i]
    decreases |s|
  {
    if |s| == 0 then [""]
    else
      var rest := Split(s[1..], sep);
      if s[0] == sep then [""] + rest
      else [[s[0]] + rest[0]] + rest[1..]
  }

  /** Joining the pieces of a split with the separator gives back the text. */
  lemma {:induction false} SplitJoins(s: string, sep: char)
    ensures Join(Split(s, sep), sep) == s
    decreases |s|
  {
    if |s| > 0 {
      var rest := Split(s[1..], sep);
      SplitJoins(s[1..], sep);
      if s[0] == sep {
        assert ([""] + rest)[1..] == rest;
      } else {
        var r := [[s[0]] + rest[0]] + rest[1..];
        assert r[1..] == rest[1..];
        if |rest| > 1 {
          assert Join(rest, sep) == rest[0] + [sep] + Join(rest[1..], sep);
        }
      }
    }
  }

  /** The pieces of a split are the only separator-free pieces that join back to the text. */
  lemma {:induction false} SplitIsUnique(s: string, sep: char, parts: seq<string>)
    requires |parts| >= 1
    requires forall i :: 0 <= i < |parts| ==> sep !in parts[i]
    requires Join(parts, sep) == s
    ensures parts == Split(s, sep)
    decreases |s|
  {
    if |parts| == 1 {
      if |s| > 0 {
        var rest := Split(s[1..], sep);
        var tail := [parts[0][1..]];
        assert parts[0][0] == s[0] && s[0] != sep by { assert s[0] == parts[0][0]; }
        assert Join(tail, sep) == s[1..];
        SplitIsUnique(s[1..], sep, tail);
        assert rest == tail;
        assert parts[0] == [s[0]] + parts[0][1..];
        assert parts == [[s[0]] + rest[0]] + rest[1..];
      }
    } else {
      assert s == parts[0] + [sep] + Join(parts[1..], sep);
      if parts[0] == [] {
        assert s[0] == sep;
        assert s[1..] == Join(parts[1..], sep);
        SplitIsUnique(s[1..], sep, parts[1..]);
        assert parts == [""] + parts[1..];
      } else {
        assert s[0] == parts[0][0] && s[0] != sep;
        var tail := [parts[0][1..]] + parts[1..];
        assert tail[1..] == parts[1..];
        assert Join(tail, sep) == s[1..];
        SplitIsUnique(s[1..], sep, tail);
        var rest := Split(s[1..], sep);
        assert rest == tail;
        assert parts[0] == [s[0]] + parts[0][1..];
        assert parts == [[s[0]] + rest[0]] + rest[1..];
      }
    }
  }

  /** `n` occurs in `h` starting at index `i`. */
  predicate Occurs(h: string, n: string, i: int) {
    0 <= i && i + |n| <= |h| && h[i..i + |n|] == n
  }

  /** `n` occurs somewhere in `h`. */
  predicate Contains(h: string, n: string) {
    exists i | 0 <= i <= |h| - |n| :: Occurs(h, n, i)
  }

  /**
   * `h.indexOf(n, from)`: the first occurrence at or after `from`; an empty
   * needle is found at `from`, clamped to the length of `h`.
   */
  function IndexOf(h: string, n: string, from: nat): (r: Option<nat>)
    ensures |n| == 0 ==> r == Some(if from <= |h| then from else |h|)
    ensures |n| > 0 && r.Some? ==>
      from <= r.value && Occurs(h, n, r.value) && forall j :: from <= j < r.value ==> !Occurs(h, n, j)
    ensures |n| > 0 && r.None? ==> forall j :: from <= j ==> !Occurs(h, n, j)
    decreases |h| - from
  {
    if |n| == 0 then Some(if from <= |h| then from else |h|)
    else if from + |n| > |h| then None
    else if h[from..from + |n|] == n then Some(from)
    else IndexOf(h, n, from + 1)
  }

  /** `includes` holds exactly when `indexOf` from the start finds something. */
  lemma ContainsIffFound(h: string, n: string)
    ensures Contains(h, n) <==> IndexOf(h, n, 0).Some?
  {
    if IndexOf(h, n, 0).Some? {
      assert Occurs(h, n, IndexOf(h, n, 0).value);
    }
  }

  /** The first index at or after `i` that does not hold white space (`|s|` if there is none). */
  function SkipSpaces(s: string, i: nat): (k: nat)
    ensures k <= |s|
    ensures i <= |s| ==> i <= k
    ensures forall j :: i <= j < k ==> IsSpace(s[j])
    ensures k < |s| ==> !IsSpace(s[k])
    decreases |s| - i
  {
    if i < |s| && IsSpace(s[i]) then SkipSpaces(s, i + 1) else if i <= |s| then i else |s|
  }

  /** The first index at or after `i` holding a double quote. */
  function NextQuote(s: string, i: nat): (r: Option<nat>)
    ensures r.Some? ==> i <= r.value < |s| && s[r.value] == '"'
    ensures forall j :: i <= j < |s| && (r.None? || j < r.value) ==> s[j] != '"'
    decreases |s| - i
  {
    if i >= |s| then None
    else if s[i] == '"' then Some(i)
    else NextQuote(s, i + 1)
  }
}
