/** The path list of the inspector, narrowed by the search box. */
module PathSearch {
  import opened Text
  import opened Seqs
  import opened SearchInput

  /** A path passes the search when its lower-cased text includes the needle. */
  predicate PathMatches(path: string, needle: string) {
    Contains(ToLower(path), needle)
  }

  /**
   * `visiblePaths`: every path when the normalised search is empty, otherwise
   * the paths whose lower-cased text includes it, in their original order.
   */
  function VisiblePaths(paths: seq<string>, term: string): (r: seq<string>)
    ensures |NormalizedSearch(term)| == 0 ==> r == paths
    ensures IsSubsequence(r, paths) && |r| <= |paths|
    ensures forall p :: p in r <==> p in paths && (|NormalizedSearch(term)| == 0 || PathMatches(p, NormalizedSearch(term)))
    ensures forall p :: multiset(r)[p] == if |NormalizedSearch(term)| == 0 || PathMatches(p, NormalizedSearch(term)) then multiset(paths)[p] else 0
  {
    var needle := NormalizedSearch(term);
    if |needle| == 0 then
      FilterAll(paths, (p: string) => true);
      Filter(paths, (p: string) => true)
    else
      var r := Filter(paths, (p: string) => PathMatches(p, needle));
      forall p ensures p in r <==> p in paths && PathMatches(p, needle) {
        FilterMembership(paths, (p: string) => PathMatches(p, needle), p);
      }
      r
  }

  /** An occurrence of an occurrence is an occurrence. */
  lemma ContainsIsTransitive(h: string, m: string, n: string)
    requires Contains(h, m) && Contains(m, n)
    ensures Contains(h, n)
  {
    var i :| 0 <= i <= |h| - |m| && Occurs(h, m, i);
    var j :| 0 <= j <= |m| - |n| && Occurs(m, n, j);
    forall x | 0 <= x < |n| ensures n[x] == h[i + j + x] {
      assert m[j..j + |n|][x] == m[j + x];
      assert h[i..i + |m|][j + x] == h[i + j + x];
    }
    assert h[i + j..i + j + |n|] == n;
    assert Occurs(h, n, i + j);
  }

  /**
   * Typing more narrows the list: when the new normalised search includes
   * the old one, every path still shown was shown before.
   */
  lemma NarrowingSearchHidesMore(paths: seq<string>, before: string, after: string)
    requires |NormalizedSearch(before)| > 0 && Contains(NormalizedSearch(after), NormalizedSearch(before))
    ensures forall p :: p in VisiblePaths(paths, after) ==> p in VisiblePaths(paths, before)
  {
    forall p | p in VisiblePaths(paths, after) ensures p in VisiblePaths(paths, before) {
      ContainsIsTransitive(ToLower(p), NormalizedSearch(after), NormalizedSearch(before));
    }
  }
}
