/**
 * The sort behind `sortedLabels`: a copy of the fetched records sorted with a
 * case-insensitive comparator on one field's text, in the chosen direction.
 * `Array.prototype.sort` is stable, so the result is modelled by a stable
 * insertion sort driven by the same comparator.
 */
module Sorting {
  import opened Wrappers
  import opened Text
  import opened Species
  import Seqs

  datatype Direction = Asc | Desc

  /**
   * The text a record is sorted by, `label[key].toString().toLowerCase()`:
   * the field's text letter by letter up to case, with no capital left.
   */
  function SortText(l: Label, k: Field): (r: string)
    ensures |r| == |FieldText(l, k)|
    ensures forall i :: 0 <= i < |r| ==> SameLetterIgnoringCase(FieldText(l, k)[i], r[i]) && !IsUpper(r[i])
  {
    Lower(FieldText(l, k))
  }

  /** `a` may be shown before `b`: no key, or their sort texts are in the chosen direction. */
  predicate Precedes(key: Option<Field>, dir: Direction, a: Label, b: Label) {
    match key
    case None => true
    case Some(k) =>
      if dir == Asc then LexLessEq(SortText(a, k), SortText(b, k))
      else LexLessEq(SortText(b, k), SortText(a, k))
  }

  lemma PrecedesTransitive(key: Option<Field>, dir: Direction, a: Label, b: Label, c: Label)
    requires Precedes(key, dir, a, b) && Precedes(key, dir, b, c)
    ensures Precedes(key, dir, a, c)
  {
    if key.Some? {
      var k := key.value;
      if dir == Asc {
        LexLessEqTransitive(SortText(a, k), SortText(b, k), SortText(c, k));
      } else {
        LexLessEqTransitive(SortText(c, k), SortText(b, k), SortText(a, k));
      }
    }
  }

  /**
   * The comparator given to `sort`: 0 without a key; otherwise -1, 1 or 0 as
   * `a`'s lower-cased text is below, above or equal to `b`'s, with the sign
   * flipped when descending.
   */
  function Compare(key: Option<Field>, dir: Direction, a: Label, b: Label): (r: int)
    ensures -1 <= r <= 1
    ensures r <= 0 <==> Precedes(key, dir, a, b)
    ensures r >= 0 <==> Precedes(key, dir, b, a)
    ensures r == 0 <==> (key == None || SortText(a, key.value) == SortText(b, key.value))
  {
    match key
    case None => 0
    case Some(k) =>
      var aValue := SortText(a, k);
      var bValue := SortText(b, k);
      LexLessTrichotomy(aValue, bValue);
      if LexLess(aValue, bValue) then (if dir == Asc then -1 else 1)
      else if LexLess(bValue, aValue) then (if dir == Asc then 1 else -1)
      else 0
  }

  /** Every record may be shown before every later one. */
  predicate Ordered(key: Option<Field>, dir: Direction, s: seq<Label>) {
    forall i, j :: 0 <= i < j < |s| ==> Precedes(key, dir, s[i], s[j])
  }

  /**
   * Places `x` in front of the first record it does not compare above, so a
   * record goes before the records equal to it that came after it.
   */
  function Insert(key: Option<Field>, dir: Direction, x: Label, s: seq<Label>): (r: seq<Label>)
    ensures |r| == |s| + 1
    ensures multiset(r) == multiset(s) + multiset{x}
    decreases |s|
  {
    if s == [] then [x]
    else if Compare(key, dir, x, s[0]) > 0 then
      assert s == [s[0]] + s[1..];
      [s[0]] + Insert(key, dir, x, s[1..])
    else [x] + s
  }

  /** `[...labels].sort(comparator)`: a permutation of the fetched records. */
  function SortedLabels(labels: seq<Label>, key: Option<Field>, dir: Direction): (r: seq<Label>)
    ensures |r| == |labels|
    ensures multiset(r) == multiset(labels)
    decreases |labels|
  {
    if labels == [] then []
    else
      assert labels == [labels[0]] + labels[1..];
      Insert(key, dir, labels[0], SortedLabels(labels[1..], key, dir))
  }

  /** `a` may be shown before every record of `t`. */
  predicate PrecedesAll(key: Option<Field>, dir: Direction, a: Label, t: seq<Label>) {
    forall j :: 0 <= j < |t| ==> Precedes(key, dir, a, t[j])
  }

  /** Putting a record in front of an ordered list it precedes keeps the list ordered. */
  lemma ConsOrdered(key: Option<Field>, dir: Direction, a: Label, t: seq<Label>)
    requires PrecedesAll(key, dir, a, t) && Ordered(key, dir, t)
    ensures Ordered(key, dir, [a] + t)
  {
    var r := [a] + t;
    forall i, j | 0 <= i < j < |r| ensures Precedes(key, dir, r[i], r[j]) {
      assert r[j] == t[j - 1];
      if i > 0 {
        assert r[i] == t[i - 1];
      }
    }
  }

  /** A record that precedes every element of `s` precedes every rearrangement of them. */
  lemma PrecedesAllPermutation(key: Option<Field>, dir: Direction, a: Label, s: seq<Label>, t: seq<Label>)
    requires PrecedesAll(key, dir, a, s) && multiset(t) <= multiset(s)
    ensures PrecedesAll(key, dir, a, t)
  {
    forall j | 0 <= j < |t| ensures Precedes(key, dir, a, t[j]) {
      assert t[j] in multiset(t);
      var m :| 0 <= m < |s| && s[m] == t[j];
    }
  }

  /** Consecutive records taken from an ordered list are ordered. */
  lemma OrderedWindow(key: Option<Field>, dir: Direction, s: seq<Label>, r: seq<Label>, first: int)
    requires Ordered(key, dir, s)
    requires forall i :: 0 <= i < |r| ==> 0 <= first + i < |s| && r[i] == s[first + i]
    ensures Ordered(key, dir, r)
  {
    forall i, j | 0 <= i < j < |r| ensures Precedes(key, dir, r[i], r[j]) {
      var a, b := r[i], r[j];
      assert 0 <= first + i < first + j < |s|;
      assert a == s[first + i] && b == s[first + j];
    }
  }

  lemma {:induction false} InsertOrdered(key: Option<Field>, dir: Direction, x: Label, s: seq<Label>)
    requires Ordered(key, dir, s)
    ensures Ordered(key, dir, Insert(key, dir, x, s))
    decreases |s|
  {
    if s == [] {
    } else if Compare(key, dir, x, s[0]) > 0 {
      var t := Insert(key, dir, x, s[1..]);
      OrderedTail(key, dir, s);
      InsertOrdered(key, dir, x, s[1..]);
      assert PrecedesAll(key, dir, s[0], s[1..] + [x]) by {
        forall j | 0 <= j < |s[1..] + [x]| ensures Precedes(key, dir, s[0], (s[1..] + [x])[j]) {
          if j < |s[1..]| {
            assert (s[1..] + [x])[j] == s[j + 1];
          }
        }
      }
      assert multiset(t) == multiset(s[1..] + [x]);
      PrecedesAllPermutation(key, dir, s[0], s[1..] + [x], t);
      ConsOrdered(key, dir, s[0], t);
    } else {
      assert PrecedesAll(key, dir, x, s) by {
        forall j | 0 <= j < |s| ensures Precedes(key, dir, x, s[j]) {
          if j > 0 {
            PrecedesTransitive(key, dir, x, s[0], s[j]);
          }
        }
      }
      ConsOrdered(key, dir, x, s);
    }
  }

  /**
   * With a key, the sort texts along the sorted records never decrease when
   * ascending and never increase when descending.
   */
  lemma {:induction false} SortedOrdered(labels: seq<Label>, key: Option<Field>, dir: Direction)
    ensures Ordered(key, dir, SortedLabels(labels, key, dir))
    decreases |labels|
  {
    if labels != [] {
      SortedOrdered(labels[1..], key, dir);
      InsertOrdered(key, dir, labels[0], SortedLabels(labels[1..], key, dir));
    }
  }

  /** Without a key the comparator is constantly 0 and the fetch order stays. */
  lemma {:induction false} UnsortedKeepsOrder(labels: seq<Label>, dir: Direction)
    ensures SortedLabels(labels, None, dir) == labels
    decreases |labels|
  {
    if labels != [] {
      UnsortedKeepsOrder(labels[1..], dir);
      assert labels == [labels[0]] + labels[1..];
    }
  }

  /** The records whose sort text on `k` is exactly `v`. */
  function HasSortText(k: Field, v: string): Label -> bool {
    l => SortText(l, k) == v
  }

  lemma {:induction false} InsertKeepsRuns(k: Field, dir: Direction, x: Label, s: seq<Label>, v: string)
    ensures Seqs.Filter(Insert(Some(k), dir, x, s), HasSortText(k, v))
         == (if SortText(x, k) == v then [x] else []) + Seqs.Filter(s, HasSortText(k, v))
    decreases |s|
  {
    var p := HasSortText(k, v);
    if s == [] {
      assert Insert(Some(k), dir, x, s) == [x];
      Seqs.FilterSingleton(x, p);
    } else if Compare(Some(k), dir, x, s[0]) > 0 {
      InsertKeepsRuns(k, dir, x, s[1..], v);
      Seqs.FilterPastHead(s[0], Insert(Some(k), dir, x, s[1..]), s[1..],
                          if SortText(x, k) == v then [x] else [], p);
      assert [s[0]] + s[1..] == s;
    } else {
      Seqs.FilterSingleton(x, p);
      Seqs.FilterAppend([x], s, p);
    }
  }

  /**
   * Stability: for every sort text `v`, the records carrying it appear in the
   * sorted list in the same relative order as in the fetched list.
   */
  lemma {:induction false} SortedStable(labels: seq<Label>, k: Field, dir: Direction, v: string)
    ensures Seqs.Filter(SortedLabels(labels, Some(k), dir), HasSortText(k, v))
         == Seqs.Filter(labels, HasSortText(k, v))
    decreases |labels|
  {
    if labels != [] {
      SortedStable(labels[1..], k, dir, v);
      InsertKeepsRuns(k, dir, labels[0], SortedLabels(labels[1..], Some(k), dir), v);
      Seqs.FilterAppend([labels[0]], labels[1..], HasSortText(k, v));
      assert [labels[0]] + labels[1..] == labels;
    }
  }

  /** No two different records in `s` share a sort text on `k`. */
  ghost predicate TextsIdentify(k: Field, s: seq<Label>) {
    forall x, y :: x in s && y in s && SortText(x, k) == SortText(y, k) ==> x == y
  }

  lemma OrderedTail(key: Option<Field>, dir: Direction, s: seq<Label>)
    requires s != [] && Ordered(key, dir, s)
    ensures Ordered(key, dir, s[1..])
  {
    forall i, j | 0 <= i < j < |s[1..]| ensures Precedes(key, dir, s[1..][i], s[1..][j]) {
      assert s[1..][i] == s[i + 1] && s[1..][j] == s[j + 1];
    }
  }

  /** Two ordered arrangements of the same records start with the same record. */
  lemma OrderedSameHead(k: Field, dir: Direction, a: seq<Label>, b: seq<Label>)
    requires a != [] && Ordered(Some(k), dir, a) && Ordered(Some(k), dir, b)
    requires multiset(a) == multiset(b)
    requires TextsIdentify(k, a)
    ensures b != [] && a[0] == b[0]
  {
    assert a[0] in multiset(b) && b[0] in multiset(a);
    var i :| 0 <= i < |a| && a[i] == b[0];
    var j :| 0 <= j < |b| && b[j] == a[0];
    if i != 0 {
      assert Precedes(Some(k), dir, a[0], a[i]);
      assert Precedes(Some(k), dir, b[0], b[j]);
      LexLessTrichotomy(SortText(a[0], k), SortText(b[0], k));
    }
  }

  /** When sort texts identify records, there is only one ordered arrangement of them. */
  lemma {:induction false} OrderedPermutationUnique(k: Field, dir: Direction, a: seq<Label>, b: seq<Label>)
    requires Ordered(Some(k), dir, a) && Ordered(Some(k), dir, b)
    requires multiset(a) == multiset(b)
    requires TextsIdentify(k, a)
    ensures a == b
    decreases |a|
  {
    if a == [] {
      assert |b| == |multiset(b)| == 0;
    } else {
      OrderedSameHead(k, dir, a, b);
      assert a == [a[0]] + a[1..] && b == [b[0]] + b[1..];
      Seqs.SameTailMultiset(a, b);
      OrderedTail(Some(k), dir, a);
      OrderedTail(Some(k), dir, b);
      OrderedPermutationUnique(k, dir, a[1..], b[1..]);
    }
  }

  /**
   * When no two different records share a sort text, sorting descending
   * gives exactly the ascending order reversed.
   */
  lemma DescendingReversesAscending(labels: seq<Label>, k: Field)
    requires TextsIdentify(k, labels)
    ensures SortedLabels(labels, Some(k), Desc) == Seqs.Reverse(SortedLabels(labels, Some(k), Asc))
  {
    var up := SortedLabels(labels, Some(k), Asc);
    var down := SortedLabels(labels, Some(k), Desc);
    var back := Seqs.Reverse(up);
    SortedOrdered(labels, Some(k), Asc);
    SortedOrdered(labels, Some(k), Desc);
    forall i, j | 0 <= i < j < |back| ensures Precedes(Some(k), Desc, back[i], back[j]) {
      assert Precedes(Some(k), Asc, up[|up| - 1 - j], up[|up| - 1 - i]);
    }
    assert TextsIdentify(k, down) by {
      forall x | x in down ensures x in labels {
        assert x in multiset(down);
      }
    }
    OrderedPermutationUnique(k, Desc, down, back);
  }

  /**
   * Records that tie on the sort text stay in fetch order in both directions,
   * so with ties the descending order is not the ascending one reversed.
   */
  lemma TiesKeepFetchOrder(k: Field, first: Label, second: Label)
    requires SortText(first, k) == SortText(second, k) && first != second
    ensures SortedLabels([first, second], Some(k), Asc) == [first, second]
    ensures SortedLabels([first, second], Some(k), Desc) == [first, second]
    ensures SortedLabels([first, second], Some(k), Desc)
         != Seqs.Reverse(SortedLabels([first, second], Some(k), Asc))
  {
    assert [first, second][1..] == [second];
    assert [second][1..] == [];
    var back := Seqs.Reverse([first, second]);
    assert back[0] == second;
  }

  /**
   * Conversely, when the fetched list repeats no record but holds two
   * different records with the same sort text, the descending order is not
   * the ascending order reversed: both keep the tied records in fetch order.
   */
  lemma TiesBreakReversal(labels: seq<Label>, k: Field, x: Label, y: Label)
    requires Seqs.Distinct(labels)
    requires x in labels && y in labels && x != y
    requires SortText(x, k) == SortText(y, k)
    ensures SortedLabels(labels, Some(k), Desc) != Seqs.Reverse(SortedLabels(labels, Some(k), Asc))
  {
    var p := HasSortText(k, SortText(x, k));
    var up := SortedLabels(labels, Some(k), Asc);
    var down := SortedLabels(labels, Some(k), Desc);
    var tied := Seqs.Filter(labels, p);
    SortedStable(labels, k, Asc, SortText(x, k));
    SortedStable(labels, k, Desc, SortText(x, k));
    assert p(x) && p(y);
    assert x in tied && y in tied;
    Seqs.FilterDistinct(labels, p);
    Seqs.DistinctNotOwnReverse(tied, x, y);
    Seqs.FilterReverse(up, p);
    assert Seqs.Filter(Seqs.Reverse(up), p) != Seqs.Filter(down, p);
  }
}
