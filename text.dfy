/**
 * The string operations the species table relies on: `toLowerCase`
 * (restricted to ASCII letters), JavaScript's `<` on strings and
 * `String.prototype.includes`.
 */
module Text {

  predicate IsUpper(c: char) {
    'A' <= c <= 'Z'
  }

  /**
   * `toLowerCase` on one character, for the ASCII letters only: a capital
   * becomes the small letter at the same place in the alphabet.
   */
  function LowerChar(c: char): (r: char)
    ensures !IsUpper(r)
    ensures IsUpper(c) ==> 'a' <= r <= 'z' && r as int - 'a' as int == c as int - 'A' as int
    ensures !IsUpper(c) ==> r == c
  {
    if IsUpper(c) then (c as int - 'A' as int + 'a' as int) as char else c
  }

  /** `s.toLowerCase()`, ASCII letters only. */
  function Lower(s: string): (r: string)
    ensures |r| == |s|
    ensures forall i :: 0 <= i < |r| ==> r[i] == LowerChar(s[i])
  {
    seq(|s|, i requires 0 <= i < |s| => LowerChar(s[i]))
  }

  /** `c` and `d` are the same character, or the same ASCII letter in different case. */
  predicate SameLetterIgnoringCase(c: char, d: char) {
    || c == d
    || (IsUpper(c) && d as int == c as int - 'A' as int + 'a' as int)
    || (IsUpper(d) && c as int == d as int - 'A' as int + 'a' as int)
  }

  /** Two strings have the same lower-cased form exactly when they differ only in ASCII case. */
  lemma LowerIgnoresCase(a: string, b: string)
    ensures Lower(a) == Lower(b) <==>
      |a| == |b| && forall i :: 0 <= i < |a| ==> SameLetterIgnoringCase(a[i], b[i])
  {
    if |a| == |b| && forall i :: 0 <= i < |a| ==> SameLetterIgnoringCase(a[i], b[i]) {
      forall i | 0 <= i < |a| ensures Lower(a)[i] == Lower(b)[i] {
        assert SameLetterIgnoringCase(a[i], b[i]);
      }
    }
    if Lower(a) == Lower(b) {
      forall i | 0 <= i < |a| ensures SameLetterIgnoringCase(a[i], b[i]) {
        assert LowerChar(a[i]) == Lower(a)[i] == Lower(b)[i] == LowerChar(b[i]);
      }
    }
  }

  /**
   * `a < b` on strings: compares character codes from the left; a proper
   * prefix is smaller than the longer string.
   */
  predicate LexLess(a: string, b: string)
    decreases |a|
  {
    if a == [] then b != []
    else if b == [] then false
    else if a[0] != b[0] then a[0] < b[0]
    else LexLess(a[1..], b[1..])
  }

  /** `a <= b` on strings. */
  predicate LexLessEq(a: string, b: string) {
    LexLess(a, b) || a == b
  }

  /** Any two strings are related by `<`, `==` or `>`, and by only one of them. */
  lemma {:induction false} LexLessTrichotomy(a: string, b: string)
    ensures LexLess(a, b) || a == b || LexLess(b, a)
    ensures !(LexLess(a, b) && LexLess(b, a))
    ensures LexLess(a, b) ==> a != b
  {
    if a == [] || b == [] {
    } else if a[0] != b[0] {
    } else {
      LexLessTrichotomy(a[1..], b[1..]);
      if a[1..] == b[1..] {
        assert a == [a[0]] + a[1..] && b == [b[0]] + b[1..];
      }
    }
  }

  lemma {:induction false} LexLessTransitive(a: string, b: string, c: string)
    requires LexLess(a, b) && LexLess(b, c)
    ensures LexLess(a, c)
  {
    if a != [] && a[0] == b[0] && b[0] == c[0] {
      LexLessTransitive(a[1..], b[1..], c[1..]);
    }
  }

  lemma LexLessEqTransitive(a: string, b: string, c: string)
    requires LexLessEq(a, b) && LexLessEq(b, c)
    ensures LexLessEq(a, c)
  {
    if LexLess(a, b) && LexLess(b, c) {
      LexLessTransitive(a, b, c);
    }
  }

  predicate StartsWith(s: string, prefix: string) {
    |prefix| <= |s| && s[..|prefix|] == prefix
  }

  /** `hay.includes(needle)`: some suffix of `hay` starts with `needle`. */
  predicate Contains(hay: string, needle: string)
    decreases |hay|
  {
    StartsWith(hay, needle) || (hay != [] && Contains(hay[1..], needle))
  }

  /** `needle` occurs in `hay` starting at index `i`. */
  ghost predicate OccursAt(hay: string, needle: string, i: int) {
    0 <= i && i + |needle| <= |hay| && hay[i..i + |needle|] == needle
  }

  /** `Contains` finds exactly the substrings: `needle` occurs at some index of `hay`. */
  lemma {:induction false} ContainsIffOccurs(hay: string, needle: string)
    ensures Contains(hay, needle) <==> exists i :: OccursAt(hay, needle, i)
  {
    if StartsWith(hay, needle) {
      assert OccursAt(hay, needle, 0);
    }
    if hay == [] {
      if exists i :: OccursAt(hay, needle, i) {
        var i :| OccursAt(hay, needle, i);
        assert StartsWith(hay, needle);
      }
    } else {
      ContainsIffOccurs(hay[1..], needle);
      if exists i :: OccursAt(hay[1..], needle, i) {
        var i :| OccursAt(hay[1..], needle, i);
        assert hay[1..][i..i + |needle|] == hay[i + 1..i + 1 + |needle|];
        assert OccursAt(hay, needle, i + 1);
      }
      if exists i :: OccursAt(hay, needle, i) {
        var i :| OccursAt(hay, needle, i);
        if i == 0 {
          assert StartsWith(hay, needle);
        } else {
          assert hay[1..][i - 1..i - 1 + |needle|] == hay[i..i + |needle|];
          assert OccursAt(hay[1..], needle, i - 1);
        }
      }
    }
  }

  /** `s.includes("")` holds for every `s`. */
  lemma ContainsEmpty(hay: string)
    ensures Contains(hay, "")
  {
    assert StartsWith(hay, "");
  }
}
