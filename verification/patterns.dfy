/**
 * Hand-written matchers for the few fixed regular expressions the compare
 * view uses on single lines of JSON text:
 *   - `"([^"]+)"\s*:`           the first object key on a line,
 *   - `^\s*"([^"]+)"\s*,?\s*$`  a line holding one quoted array element,
 *   - `^\s*"([^"]+)"\s*`        the quoted value at the start of a line,
 *   - `"k"\s*:` with flag `i`   a given key, compared case-insensitively.
 * A JavaScript regular expression reports its leftmost match; at a fixed
 * start `[^"]+` can only end right before the next quote, so each matcher
 * below has exactly one candidate per start index.
 */
module Patterns {
  import opened Wrappers
  import opened Text

  /** Every character of `s` is white space. */
  predicate AllSpaces(s: string) {
    forall i :: 0 <= i < |s| ==> IsSpace(s[i])
  }

  /** `\s*:` matches at index `i`. */
  predicate ColonAfterSpaces(line: string, i: nat) {
    var k := SkipSpaces(line, i);
    k < |line| && line[k] == ':'
  }

  // ---------------------------------------------------------------- key token

  /** `"([^"]+)"\s*:` matches starting at index `p`. */
  predicate KeyTokenAt(line: string, p: int) {
    && 0 <= p < |line|
    && line[p] == '"'
    && var q := NextQuote(line, p + 1);
       q.Some? && q.value > p + 1 && ColonAfterSpaces(line, q.value + 1)
  }

  /** The text captured by `([^"]+)` for a match at `p`. */
  function KeyTokenText(line: string, p: int): (k: string)
    requires KeyTokenAt(line, p)
    ensures |k| > 0 && '"' !in k
    ensures p + 1 + |k| < |line| && line[p + 1..p + 1 + |k|] == k && line[p + 1 + |k|] == '"'
    ensures NextQuote(line, p + 1) == Some(p + 1 + |k|)
  {
    var q := NextQuote(line, p + 1).value;
    assert forall j :: p + 1 <= j < q ==> line[j] != '"';
    line[p + 1..q]
  }

  function KeyTokenFrom(line: string, from: nat): (r: Option<string>)
    ensures r.None? ==> forall p :: from <= p ==> !KeyTokenAt(line, p)
    ensures r.Some? ==> exists p :: from <= p && KeyTokenAt(line, p) && r.value == KeyTokenText(line, p)
                                 && forall p' :: from <= p' < p ==> !KeyTokenAt(line, p')
    decreases |line| - from
  {
    if from >= |line| then None
    else if KeyTokenAt(line, from) then Some(KeyTokenText(line, from))
    else KeyTokenFrom(line, from + 1)
  }

  /**
   * The key token of a line: the quoted name of the leftmost quoted,
   * quote-free, non-empty name followed by optional white space and a colon,
   * or nothing when the line has none.
   */
  function KeyToken(line: string): (r: Option<string>)
    ensures r.None? <==> forall p :: !KeyTokenAt(line, p)
    ensures r.Some? ==> exists p :: KeyTokenAt(line, p) && r.value == KeyTokenText(line, p)
                                 && forall p' :: 0 <= p' < p ==> !KeyTokenAt(line, p')
  {
    KeyTokenFrom(line, 0)
  }

  // ------------------------------------------------------------ array values

  /** `,?\s*$` after white space: the rest of the line from `i` is blank but for at most one comma. */
  predicate TrailerFrom(line: string, i: nat) {
    var k := SkipSpaces(line, i);
    k == |line| || (line[k] == ',' && SkipSpaces(line, k + 1) == |line|)
  }

  /** `^\s*"([^"]+)"\s*,?\s*$`: the quoted element on a line that holds nothing else. */
  function ArrayValue(line: string): Option<string> {
    var j := SkipSpaces(line, 0);
    if j < |line| && line[j] == '"' then
      match NextQuote(line, j + 1)
      case None => None
      case Some(q) => if q > j + 1 && TrailerFrom(line, q + 1) then Some(line[j + 1..q]) else None
    else None
  }

  /** `^\s*"([^"]+)"\s*`: the quoted value at the start of a line, whatever follows it. */
  function QuotedPrefix(line: string): Option<string> {
    var j := SkipSpaces(line, 0);
    if j < |line| && line[j] == '"' then
      match NextQuote(line, j + 1)
      case None => None
      case Some(q) => if q > j + 1 then Some(line[j + 1..q]) else None
    else None
  }

  /** White space, then at most one comma, then white space. */
  ghost predicate IsTrailer(t: string) {
    AllSpaces(t) || exists i :: 0 <= i < |t| && t[i] == ',' && AllSpaces(t[..i]) && AllSpaces(t[i + 1..])
  }

  /**
   * A declarative reading of the array-element pattern: white space up to
   * index `j`, then `v` between two quotes, then a trailer.
   */
  ghost predicate ArrayValueShapeAt(line: string, v: string, j: int) {
    && 0 <= j && j + |v| + 2 <= |line|
    && AllSpaces(line[..j])
    && line[j] == '"'
    && |v| > 0 && line[j + 1..j + 1 + |v|] == v && '"' !in v
    && line[j + 1 + |v|] == '"'
    && IsTrailer(line[j + 2 + |v|..])
  }

  ghost predicate ArrayValueShape(line: string, v: string) {
    exists j :: ArrayValueShapeAt(line, v, j)
  }

  lemma TrailerAgrees(line: string, i: nat)
    requires i <= |line|
    ensures TrailerFrom(line, i) <==> IsTrailer(line[i..])
  {
    var t := line[i..];
    var k := SkipSpaces(line, i);
    if TrailerFrom(line, i) {
      if k < |line| {
        assert t[k - i] == ',' && AllSpaces(t[..k - i]) && AllSpaces(t[k - i + 1..]);
      }
    }
    if IsTrailer(t) {
      if !AllSpaces(t) {
        var c :| 0 <= c < |t| && t[c] == ',' && AllSpaces(t[..c]) && AllSpaces(t[c + 1..]);
        assert forall j :: i <= j < i + c ==> IsSpace(line[j]) by {
          forall j | i <= j < i + c ensures IsSpace(line[j]) { assert line[j] == t[..c][j - i]; }
        }
        assert k == i + c;
        assert forall j :: k + 1 <= j < |line| ==> IsSpace(line[j]) by {
          forall j | k + 1 <= j < |line| ensures IsSpace(line[j]) { assert line[j] == t[c + 1..][j - k - 1]; }
        }
      }
    }
  }

  /** Whatever the array-element matcher captures sits in the declared shape. */
  lemma ArrayValueHasShape(line: string)
    requires ArrayValue(line).Some?
    ensures ArrayValueShape(line, ArrayValue(line).value)
  {
    var j := SkipSpaces(line, 0);
    var q := NextQuote(line, j + 1).value;
    assert ArrayValue(line).value == line[j + 1..q];
    NoQuoteBefore(line, j + 1, q);
    SpacesBefore(line, j);
    TrailerAgrees(line, q + 1);
    ShapeAtFromFacts(line, j, q);
  }

  lemma ShapeAtFromFacts(line: string, j: nat, q: nat)
    requires j + 1 < q < |line| && line[j] == '"' && line[q] == '"'
    requires AllSpaces(line[..j]) && '"' !in line[j + 1..q] && IsTrailer(line[q + 1..])
    ensures ArrayValueShapeAt(line, line[j + 1..q], j)
  {
    var v := line[j + 1..q];
    assert j + 1 + |v| == q;
    assert line[j + 2 + |v|..] == line[q + 1..];
  }

  lemma NoQuoteBefore(line: string, i: nat, q: nat)
    requires i <= q && NextQuote(line, i) == Some(q)
    ensures '"' !in line[i..q]
  {
    var v := line[i..q];
    forall x | 0 <= x < |v| ensures v[x] != '"' {
      assert v[x] == line[i + x];
    }
  }

  lemma SpacesBefore(line: string, j: nat)
    requires j <= |line| && SkipSpaces(line, 0) == j
    ensures AllSpaces(line[..j])
  {
    var a := line[..j];
    forall x | 0 <= x < j ensures IsSpace(a[x]) {
      assert a[x] == line[x];
    }
  }

  /** A line of the declared shape is matched, with exactly its quoted text captured. */
  lemma ShapeHasArrayValue(line: string, v: string)
    requires ArrayValueShape(line, v)
    ensures ArrayValue(line) == Some(v)
  {
    var j :| ArrayValueShapeAt(line, v, j);
    var q := j + 1 + |v|;
    SkipOverSpacePrefix(line, j);
    QuoteAfterSlice(line, j + 1, v);
    TrailerAgrees(line, q + 1);
    ArrayValueAt(line, j, q);
  }

  lemma SkipOverSpacePrefix(line: string, j: nat)
    requires j < |line| && AllSpaces(line[..j]) && line[j] == '"'
    ensures SkipSpaces(line, 0) == j
  {
    forall x | 0 <= x < j ensures IsSpace(line[x]) {
      assert line[x] == line[..j][x];
    }
    SkipPastSpaces(line, 0, j);
  }

  lemma QuoteAfterSlice(line: string, i: nat, v: string)
    requires i + |v| < |line| && line[i..i + |v|] == v && '"' !in v && line[i + |v|] == '"'
    ensures NextQuote(line, i) == Some(i + |v|)
  {
    forall x | i <= x < i + |v| ensures line[x] != '"' {
      assert line[x] == v[x - i];
    }
    QuoteAfterQuoteless(line, i, i + |v|);
  }

  lemma ArrayValueAt(line: string, j: nat, q: nat)
    requires j < |line| && SkipSpaces(line, 0) == j && line[j] == '"'
    requires NextQuote(line, j + 1) == Some(q) && q > j + 1 && TrailerFrom(line, q + 1)
    ensures ArrayValue(line) == Some(line[j + 1..q])
  {
  }

  /** The array-element matcher captures `v` exactly when the line has the declared shape around `v`. */
  lemma ArrayValueIffShape(line: string, v: string)
    ensures ArrayValue(line) == Some(v) <==> ArrayValueShape(line, v)
  {
    if ArrayValue(line) == Some(v) {
      ArrayValueHasShape(line);
    }
    if ArrayValueShape(line, v) {
      ShapeHasArrayValue(line, v);
    }
  }

  lemma {:induction false} SkipPastSpaces(s: string, i: nat, j: nat)
    requires i <= j < |s| && !IsSpace(s[j])
    requires forall x :: i <= x < j ==> IsSpace(s[x])
    ensures SkipSpaces(s, i) == j
    decreases j - i
  {
    if i < j {
      SkipPastSpaces(s, i + 1, j);
    }
  }

  lemma {:induction false} QuoteAfterQuoteless(s: string, i: nat, q: nat)
    requires i <= q < |s| && s[q] == '"'
    requires forall x :: i <= x < q ==> s[x] != '"'
    ensures NextQuote(s, i) == Some(q)
    decreases q - i
  {
    if i < q {
      QuoteAfterQuoteless(s, i + 1, q);
    }
  }

  /** A line holding an array element also starts with that element's quoted value. */
  lemma ArrayValueHasQuotedPrefix(line: string)
    requires ArrayValue(line).Some?
    ensures QuotedPrefix(line) == ArrayValue(line)
  {
  }

  /**
   * When the trimmed line is a lone array element, the quoted value at the
   * start of the untrimmed line is that element.
   */
  lemma TrimmedElementPrefix(line: string)
    requires ArrayValue(Trim(line)).Some?
    ensures QuotedPrefix(line) == ArrayValue(Trim(line))
  {
    var t := Trim(line);
    var i :| PaddedAt(line, t, i);
    assert SkipSpaces(t, 0) == 0;
    var q := NextQuote(t, 1).value;
    assert ArrayValue(t) == Some(t[1..q]);
    PrefixThroughPadding(line, t, i, q);
  }

  lemma PrefixThroughPadding(line: string, t: string, i: int, q: nat)
    requires PaddedAt(line, t, i) && 1 < q < |t| && t[0] == '"' && NextQuote(t, 1) == Some(q)
    ensures QuotedPrefix(line) == Some(t[1..q])
  {
    assert line[i] == t[0];
    SkipPastSpaces(line, 0, i);
    forall x | i + 1 <= x < i + q ensures line[x] != '"' {
      assert line[x] == t[x - i];
    }
    assert line[i + q] == t[q];
    QuoteAfterQuoteless(line, i + 1, i + q);
    forall x | 0 <= x < q - 1 ensures line[i + 1..i + q][x] == t[1..q][x] {
      assert line[i + 1 + x] == line[i..i + |t|][1 + x];
    }
    assert line[i + 1..i + q] == t[1..q];
  }

  // ------------------------------------------------------- case-insensitive key

  /** `"k"\s*:` with flag `i` matches starting at index `p`, `k` taken literally. */
  predicate KeyPatternAt(line: string, k: string, p: int) {
    && 0 <= p
    && p + |k| + 2 <= |line|
    && line[p] == '"'
    && EqualsIgnoringCase(line[p + 1..p + 1 + |k|], k)
    && line[p + 1 + |k|] == '"'
    && ColonAfterSpaces(line, p + |k| + 2)
  }

  /** Somewhere on the line, `k` appears in double quotes, up to ASCII case, followed by optional white space and a colon. */
  predicate KeyPatternIn(line: string, k: string) {
    exists p | 0 <= p < |line| :: KeyPatternAt(line, k, p)
  }

  /** The key pattern does not see the case of the key's letters. */
  lemma KeyPatternIgnoresCase(line: string, k: string, k': string)
    requires EqualsIgnoringCase(k, k')
    ensures KeyPatternIn(line, k) <==> KeyPatternIn(line, k')
  {
    forall p | 0 <= p < |line|
      ensures KeyPatternAt(line, k, p) <==> KeyPatternAt(line, k', p)
    {
      if p + |k| + 2 <= |line| {
        var w := line[p + 1..p + 1 + |k|];
        assert EqualsIgnoringCase(w, k) <==> EqualsIgnoringCase(w, k');
      }
    }
  }

  lemma KeyTokenAtMatchesPattern(line: string, p: int)
    requires KeyTokenAt(line, p)
    ensures KeyPatternAt(line, KeyTokenText(line, p), p)
  {
    var k := KeyTokenText(line, p);
    assert EqualsIgnoringCase(line[p + 1..p + 1 + |k|], k);
  }

  /** A line whose first key token is `k` also matches the case-insensitive pattern for `k`. */
  lemma KeyTokenMatchesPattern(line: string)
    requires KeyToken(line).Some?
    ensures KeyPatternIn(line, KeyToken(line).value)
  {
    var k := KeyToken(line).value;
    var p :| KeyTokenAt(line, p) && k == KeyTokenText(line, p);
    KeyTokenAtMatchesPattern(line, p);
  }
}
