/** `filteredLabels`: the sorted records whose names contain the search term, ignoring case. */
module Search {
  import opened Wrappers
  import opened Text
  import opened Species
  import Seqs
  import Sorting

  /**
   * `label.indo_name`, `label.english_name` or `label.latin_name`, lower-cased,
   * includes the lower-cased term.
   */
  function Matches(term: string, l: Label): (r: bool)
    ensures r <==>
      (exists i :: OccursAt(Lower(l.indoName), Lower(term), i)) ||
      (exists i :: OccursAt(Lower(l.englishName), Lower(term), i)) ||
      (exists i :: OccursAt(Lower(l.latinName), Lower(term), i))
  {
    var t := Lower(term);
    ContainsIffOccurs(Lower(l.indoName), t);
    ContainsIffOccurs(Lower(l.englishName), t);
    ContainsIffOccurs(Lower(l.latinName), t);
    Contains(Lower(l.indoName), t) || Contains(Lower(l.englishName), t) || Contains(Lower(l.latinName), t)
  }

  function MatchesTerm(term: string): Label -> bool {
    l => Matches(term, l)
  }

  /** `sortedLabels.filter(...)` with the search predicate. */
  function FilteredLabels(sorted: seq<Label>, term: string): (r: seq<Label>)
    ensures |r| <= |sorted|
    ensures forall l :: l in r <==> l in sorted && Matches(term, l)
  {
    Seqs.Filter(sorted, MatchesTerm(term))
  }

  /** The search ignores case: terms that differ only in ASCII case keep the same records. */
  lemma MatchesIgnoresCase(term: string, other: string, l: Label)
    requires |term| == |other|
    requires forall i :: 0 <= i < |term| ==> SameLetterIgnoringCase(term[i], other[i])
    ensures Matches(term, l) == Matches(other, l)
  {
    LowerIgnoresCase(term, other);
  }

  /** An empty search box shows every sorted record, in order. */
  lemma EmptyTermKeepsAll(sorted: seq<Label>)
    ensures FilteredLabels(sorted, "") == sorted
  {
    forall l | l in sorted ensures MatchesTerm("")(l) {
      ContainsEmpty(Lower(l.indoName));
    }
    Seqs.FilterKeepsAll(sorted, MatchesTerm(""));
  }

  /** Filtering after sorting keeps the sort: the kept records are still ordered. */
  lemma {:induction false} FilteredKeepsOrder(key: Option<Field>, dir: Sorting.Direction, sorted: seq<Label>, term: string)
    requires Sorting.Ordered(key, dir, sorted)
    ensures Sorting.Ordered(key, dir, FilteredLabels(sorted, term))
    decreases |sorted|
  {
    if sorted != [] {
      var rest := FilteredLabels(sorted[1..], term);
      Sorting.OrderedTail(key, dir, sorted);
      FilteredKeepsOrder(key, dir, sorted[1..], term);
      if Matches(term, sorted[0]) {
        var r := [sorted[0]] + rest;
        assert FilteredLabels(sorted, term) == r;
        forall j | 0 <= j < |rest| ensures Sorting.Precedes(key, dir, sorted[0], rest[j]) {
          assert rest[j] in sorted[1..];
          var m :| 0 <= m < |sorted[1..]| && sorted[1..][m] == rest[j];
          assert sorted[m + 1] == rest[j];
        }
        forall i, j | 0 <= i < j < |r| ensures Sorting.Precedes(key, dir, r[i], r[j]) {
          assert r[j] == rest[j - 1];
          if i > 0 {
            assert r[i] == rest[i - 1];
          }
        }
      } else {
        assert FilteredLabels(sorted, term) == rest;
      }
    }
  }
}
