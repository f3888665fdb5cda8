/**
 * The summary bar of the compare view: one toggle and one count per entry
 * type, and the list of entries whose type is switched on.
 */
module CompareSummary {
  import opened Seqs
  import opened Diffs

  /** Which entry types the list shows. */
  datatype Filters = Filters(addedOn: bool, removedOn: bool, modifiedOn: bool, unchangedOn: bool)

  /** Added, removed and modified entries are shown at first; unchanged ones are not. */
  const InitialFilters := Filters(true, true, true, false)

  /** `filters[type]`. */
  function Shows(f: Filters, t: DiffType): bool {
    match t
    case Added => f.addedOn
    case Removed => f.removedOn
    case Modified => f.modifiedOn
    case Unchanged => f.unchangedOn
  }

  /** `toggleFilter`: flips the flag of `t` and keeps the other three. */
  function Toggle(f: Filters, t: DiffType): (r: Filters)
    ensures Shows(r, t) == !Shows(f, t)
    ensures forall u :: u != t ==> Shows(r, u) == Shows(f, u)
  {
    match t
    case Added => f.(addedOn := !f.addedOn)
    case Removed => f.(removedOn := !f.removedOn)
    case Modified => f.(modifiedOn := !f.modifiedOn)
    case Unchanged => f.(unchangedOn := !f.unchangedOn)
  }

  /** Two clicks on the same toggle give back the filters one started with. */
  lemma ToggleTwice(f: Filters, t: DiffType)
    ensures Toggle(Toggle(f, t), t) == f
  {
  }

  /** The number of entries of type `t`. */
  function Count(diffs: seq<DiffEntry>, t: DiffType): (r: nat)
    ensures r <= |diffs|
    ensures r == 0 <==> forall d :: d in diffs ==> d.kind != t
  {
    var kept := Filter(diffs, (d: DiffEntry) => d.kind == t);
    forall d ensures d in kept <==> d in diffs && d.kind == t {
      FilterMembership(diffs, (d: DiffEntry) => d.kind == t, d);
    }
    if |kept| > 0 then
      assert kept[0] in kept;
      |kept|
    else
      |kept|
  }

  /** The four counts together account for every entry exactly once. */
  lemma {:induction false} CountsAddUp(diffs: seq<DiffEntry>)
    ensures Count(diffs, Added) + Count(diffs, Removed) + Count(diffs, Modified) + Count(diffs, Unchanged) == |diffs|
    decreases |diffs|
  {
    if |diffs| > 0 {
      CountsAddUp(diffs[1..]);
      CountStep(diffs, Added);
      CountStep(diffs, Removed);
      CountStep(diffs, Modified);
      CountStep(diffs, Unchanged);
    }
  }

  /** `filteredDiffs`: the entries whose type is switched on, in their original order. */
  function FilteredDiffs(diffs: seq<DiffEntry>, f: Filters): (r: seq<DiffEntry>)
    ensures IsSubsequence(r, diffs)
    ensures forall d :: d in r <==> d in diffs && Shows(f, d.kind)
  {
    var r := Filter(diffs, (d: DiffEntry) => Shows(f, d.kind));
    forall d ensures d in r <==> d in diffs && Shows(f, d.kind) {
      FilterMembership(diffs, (d: DiffEntry) => Shows(f, d.kind), d);
    }
    r
  }

  /** The per-type contribution to the "Showing" figure. */
  function ShownCount(diffs: seq<DiffEntry>, f: Filters, t: DiffType): nat {
    if Shows(f, t) then Count(diffs, t) else 0
  }

  /** "Showing: n / total": `n` is the sum of the counts of the switched-on types. */
  lemma {:induction false} ShowingIsSumOfCounts(diffs: seq<DiffEntry>, f: Filters)
    ensures |FilteredDiffs(diffs, f)|
      == ShownCount(diffs, f, Added) + ShownCount(diffs, f, Removed)
       + ShownCount(diffs, f, Modified) + ShownCount(diffs, f, Unchanged)
    decreases |diffs|
  {
    if |diffs| > 0 {
      ShowingIsSumOfCounts(diffs[1..], f);
      FilterLengthStep(diffs, (d: DiffEntry) => Shows(f, d.kind));
      ShownCountStep(diffs, f, Added);
      ShownCountStep(diffs, f, Removed);
      ShownCountStep(diffs, f, Modified);
      ShownCountStep(diffs, f, Unchanged);
      ShownOnce(f, diffs[0].kind);
    }
  }

  lemma ShownCountStep(diffs: seq<DiffEntry>, f: Filters, t: DiffType)
    requires |diffs| > 0
    ensures ShownCount(diffs, f, t) == (if Shows(f, t) && diffs[0].kind == t then 1 else 0) + ShownCount(diffs[1..], f, t)
  {
    CountStep(diffs, t);
  }

  /** An entry is counted under its own type only. */
  lemma ShownOnce(f: Filters, k: DiffType)
    ensures (if Shows(f, k) then 1 else 0)
      == (if Shows(f, Added) && k == Added then 1 else 0) + (if Shows(f, Removed) && k == Removed then 1 else 0)
       + (if Shows(f, Modified) && k == Modified then 1 else 0) + (if Shows(f, Unchanged) && k == Unchanged then 1 else 0)
  {
  }

  lemma CountStep(diffs: seq<DiffEntry>, t: DiffType)
    requires |diffs| > 0
    ensures Count(diffs, t) == (if diffs[0].kind == t then 1 else 0) + Count(diffs[1..], t)
  {
    FilterLengthStep(diffs, (d: DiffEntry) => d.kind == t);
  }

  /** The shown figure never exceeds the total. */
  lemma ShowingAtMostTotal(diffs: seq<DiffEntry>, f: Filters)
    ensures |FilteredDiffs(diffs, f)| <= |diffs|
  {
    ShowingIsSumOfCounts(diffs, f);
    CountsAddUp(diffs);
  }

  /** With every type switched on the list shows every entry. */
  lemma AllOnShowsEverything(diffs: seq<DiffEntry>)
    ensures FilteredDiffs(diffs, Filters(true, true, true, true)) == diffs
  {
    FilterAll(diffs, (d: DiffEntry) => Shows(Filters(true, true, true, true), d.kind));
  }

  /** At first the list is the entries that are not unchanged. */
  lemma InitiallyHidesUnchanged(diffs: seq<DiffEntry>, d: DiffEntry)
    ensures d in FilteredDiffs(diffs, InitialFilters) <==> d in diffs && d.kind != Unchanged
  {
  }
}
