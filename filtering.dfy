/**
 * The sidebar filter: keep the titles whose type is among the selected types
 * and whose release year lies in the selected range, bounds included.
 */
module Filtering {
  import opened Wrappers
  import opened Records

  /**
   * The mask of lines 41-42: `type` is in the selection (`isin`), and
   * `release_year` is present and between `lo` and `hi` inclusive (`between`
   * is false for a missing value).
   */
  predicate Selected(r: Record, types: set<string>, lo: int, hi: int) {
    && r.contentType in types
    && r.releaseYear.Some?
    && lo <= r.releaseYear.value <= hi
  }

  /** `a` is `b` with some elements left out, the rest in their order. */
  ghost predicate IsSubsequence<T>(a: seq<T>, b: seq<T>) {
    a == [] || (b != [] && ((a[0] == b[0] && IsSubsequence(a[1..], b[1..])) || IsSubsequence(a, b[1..])))
  }

  /**
   * `df[mask]`: the selected records, in catalog order. Nothing is added, so the
   * view is no longer than the catalog and every record in it is selected.
   */
  function FilterView(catalog: seq<Record>, types: set<string>, lo: int, hi: int): (view: seq<Record>)
    ensures |view| <= |catalog|
    ensures forall r :: r in view ==> r in catalog && Selected(r, types, lo, hi)
  {
    if catalog == [] then []
    else
      var rest := FilterView(catalog[1..], types, lo, hi);
      if Selected(catalog[0], types, lo, hi) then [catalog[0]] + rest else rest
  }

  /** Filtering a concatenation filters each part. */
  lemma {:induction false} FilterViewAppend(a: seq<Record>, b: seq<Record>, types: set<string>, lo: int, hi: int)
    ensures FilterView(a + b, types, lo, hi) == FilterView(a, types, lo, hi) + FilterView(b, types, lo, hi)
  {
    if a != [] {
      var rest := FilterView(a[1..] + b, types, lo, hi);
      assert FilterView(a + b, types, lo, hi) == (if Selected(a[0], types, lo, hi) then [a[0]] + rest else rest) by {
        assert (a + b)[0] == a[0] && (a + b)[1..] == a[1..] + b;
      }
      FilterViewAppend(a[1..], b, types, lo, hi);
    } else {
      assert a + b == b;
    }
  }

  /**
   * The view is exactly the selected part of the catalog: it is a subsequence
   * of the catalog, and each record occurs in it as often as in the catalog
   * when it is selected and not at all otherwise.
   */
  lemma {:induction false} FilterViewExact(catalog: seq<Record>, types: set<string>, lo: int, hi: int)
    ensures IsSubsequence(FilterView(catalog, types, lo, hi), catalog)
    ensures forall r :: multiset(FilterView(catalog, types, lo, hi))[r]
                        == if Selected(r, types, lo, hi) then multiset(catalog)[r] else 0
  {
    if catalog != [] {
      FilterViewExact(catalog[1..], types, lo, hi);
      assert catalog == [catalog[0]] + catalog[1..];
      var view := FilterView(catalog, types, lo, hi);
      var rest := FilterView(catalog[1..], types, lo, hi);
      if Selected(catalog[0], types, lo, hi) {
        assert view[1..] == rest;
      }
    }
  }

  /** An empty type selection matches nothing: the view is empty. */
  lemma {:induction false} EmptySelectionEmptyView(catalog: seq<Record>, lo: int, hi: int)
    ensures FilterView(catalog, {}, lo, hi) == []
  {
    if catalog != [] {
      EmptySelectionEmptyView(catalog[1..], lo, hi);
    }
  }

  /** A record with no release year is never in the view, whatever the selection. */
  lemma MissingYearNeverSelected(catalog: seq<Record>, types: set<string>, lo: int, hi: int, r: Record)
    requires r.releaseYear.None?
    ensures r !in FilterView(catalog, types, lo, hi)
  {
  }

  /** Filtering twice with the same criteria is filtering once. */
  lemma {:induction false} FilterViewIdempotent(catalog: seq<Record>, types: set<string>, lo: int, hi: int)
    ensures FilterView(FilterView(catalog, types, lo, hi), types, lo, hi) == FilterView(catalog, types, lo, hi)
  {
    if catalog != [] {
      FilterViewIdempotent(catalog[1..], types, lo, hi);
      var rest := FilterView(catalog[1..], types, lo, hi);
      if Selected(catalog[0], types, lo, hi) {
        assert ([catalog[0]] + rest)[1..] == rest;
      }
    }
  }

  /** Normalised records stay well formed in the view. */
  lemma ViewWellFormed(catalog: seq<Record>, types: set<string>, lo: int, hi: int)
    requires forall r :: r in catalog ==> WellFormed(r)
    ensures forall r :: r in FilterView(catalog, types, lo, hi) ==> WellFormed(r)
  {
  }
}
