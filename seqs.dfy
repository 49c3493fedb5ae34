/** `Array.prototype.filter` on sequences. */
module Seqs {

  /** The elements of `s` that satisfy `p`, in their order in `s`. */
  function Filter<T(!new)>(s: seq<T>, p: T -> bool): (r: seq<T>)
    ensures |r| <= |s|
    ensures forall x :: x in r <==> x in s && p(x)
    decreases |s|
  {
    if s == [] then []
    else (if p(s[0]) then [s[0]] else []) + Filter(s[1..], p)
  }

  /** Filtering distributes over concatenation, so it never reorders what it keeps. */
  lemma {:induction false} FilterAppend<T(!new)>(a: seq<T>, b: seq<T>, p: T -> bool)
    ensures Filter(a + b, p) == Filter(a, p) + Filter(b, p)
    decreases |a|
  {
    if a == [] {
      assert a + b == b;
    } else {
      assert (a + b)[0] == a[0];
      assert (a + b)[1..] == a[1..] + b;
      FilterAppend(a[1..], b, p);
    }
  }

  /** Filtering keeps everything exactly when every element passes. */
  lemma {:induction false} FilterKeepsAll<T(!new)>(s: seq<T>, p: T -> bool)
    requires forall x :: x in s ==> p(x)
    ensures Filter(s, p) == s
    decreases |s|
  {
    if s != [] {
      FilterKeepsAll(s[1..], p);
      assert s == [s[0]] + s[1..];
    }
  }

  lemma FilterSingleton<T(!new)>(x: T, p: T -> bool)
    ensures Filter([x], p) == if p(x) then [x] else []
  {
    assert [x][1..] == [];
  }

  /**
   * Moving `mine` in front of an element `a` does not change what is kept,
   * provided `mine` is empty whenever `a` itself is kept.
   */
  lemma FilterPastHead<T(!new)>(a: T, rest: seq<T>, t: seq<T>, mine: seq<T>, p: T -> bool)
    requires Filter(rest, p) == mine + Filter(t, p)
    requires p(a) ==> mine == []
    ensures Filter([a] + rest, p) == mine + Filter([a] + t, p)
  {
    FilterSingleton(a, p);
    FilterAppend([a], rest, p);
    FilterAppend([a], t, p);
    if p(a) {
      assert mine + Filter(t, p) == Filter(t, p);
    } else {
      assert Filter([a], p) == [];
      assert [] + (mine + Filter(t, p)) == mine + ([] + Filter(t, p));
    }
  }

  /** `s` read from the back. */
  function Reverse<T>(s: seq<T>): (r: seq<T>)
    ensures |r| == |s|
    ensures forall i :: 0 <= i < |s| ==> r[i] == s[|s| - 1 - i]
    ensures multiset(r) == multiset(s)
    decreases |s|
  {
    if s == [] then []
    else
      assert s == [s[0]] + s[1..];
      Reverse(s[1..]) + [s[0]]
  }

  lemma SameTailMultiset<T>(a: seq<T>, b: seq<T>)
    requires a != [] && b != [] && a[0] == b[0]
    requires multiset(a) == multiset(b)
    ensures multiset(a[1..]) == multiset(b[1..])
  {
    assert a == [a[0]] + a[1..];
    assert b == [b[0]] + b[1..];
    assert multiset(a) == multiset{a[0]} + multiset(a[1..]);
    assert multiset(b) == multiset{a[0]} + multiset(b[1..]);
    assert multiset(a[1..]) == multiset(a) - multiset{a[0]};
    assert multiset(b[1..]) == multiset(b) - multiset{a[0]};
  }

  /** No element occurs twice. */
  ghost predicate Distinct<T>(s: seq<T>) {
    forall i, j :: 0 <= i < j < |s| ==> s[i] != s[j]
  }

  /** Filtering a list without repeats gives a list without repeats. */
  lemma {:induction false} FilterDistinct<T(!new)>(s: seq<T>, p: T -> bool)
    requires Distinct(s)
    ensures Distinct(Filter(s, p))
    decreases |s|
  {
    if s != [] {
      var rest := Filter(s[1..], p);
      assert Distinct(s[1..]) by {
        forall i, j | 0 <= i < j < |s[1..]| ensures s[1..][i] != s[1..][j] {
          assert s[1..][i] == s[i + 1] && s[1..][j] == s[j + 1];
        }
      }
      FilterDistinct(s[1..], p);
      if p(s[0]) {
        assert s[0] !in s[1..] by {
          forall m | 0 <= m < |s[1..]| ensures s[1..][m] != s[0] {
            assert s[1..][m] == s[m + 1];
          }
        }
        var r := [s[0]] + rest;
        forall i, j | 0 <= i < j < |r| ensures r[i] != r[j] {
          assert r[j] == rest[j - 1];
          if i > 0 {
            assert r[i] == rest[i - 1];
          }
        }
      }
    }
  }

  /** Filtering commutes with reading from the back. */
  lemma {:induction false} FilterReverse<T(!new)>(s: seq<T>, p: T -> bool)
    ensures Filter(Reverse(s), p) == Reverse(Filter(s, p))
    decreases |s|
  {
    if s != [] {
      FilterReverse(s[1..], p);
      FilterAppend(Reverse(s[1..]), [s[0]], p);
      FilterSingleton(s[0], p);
      var rest := Filter(s[1..], p);
      if p(s[0]) {
        assert ([s[0]] + rest)[1..] == rest;
      } else {
        assert Filter(s, p) == rest;
      }
    }
  }

  /** A list without repeats holding two different elements is not its own reverse. */
  lemma DistinctNotOwnReverse<T>(s: seq<T>, x: T, y: T)
    requires Distinct(s) && x in s && y in s && x != y
    ensures Reverse(s) != s
  {
    var i :| 0 <= i < |s| && s[i] == x;
    var j :| 0 <= j < |s| && s[j] == y;
    assert i != j;
    assert s[0] != s[|s| - 1];
    assert Reverse(s)[0] == s[|s| - 1];
  }
}
