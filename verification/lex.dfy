/**
 Case-insensitive ordering of member names, as odtquery uses it to sort the
 names of missing files: both names are lower-cased and the results compared
 lexicographically.
 */
module Lex {

  /** Lower-cases one ASCII letter; every other character is left unchanged. */
  function LowerChar(c: char): char
  {
    if 'A' <= c <= 'Z' then (c as int + 32) as char else c
  }

  /** The lower-cased form of a name, character by character. */
  function Lower(s: string): string
  {
    seq(|s|, i requires 0 <= i < |s| => LowerChar(s[i]))
  }

  /** Strict lexicographic order on character sequences: a proper prefix comes
      first, otherwise the first differing character decides. */
  predicate LexLess(a: string, b: string)
    decreases |a|
  {
    |b| > 0 && (|a| == 0 || a[0] < b[0] || (a[0] == b[0] && LexLess(a[1..], b[1..])))
  }

  lemma {:induction false} LexIrreflexive(a: string)
    ensures !LexLess(a, a)
    decreases |a|
  {
    if |a| > 0 {
      LexIrreflexive(a[1..]);
    }
  }

  lemma {:induction false} LexTransitive(a: string, b: string, c: string)
    requires LexLess(a, b) && LexLess(b, c)
    ensures LexLess(a, c)
    decreases |a|
  {
    if |a| > 0 && a[0] == b[0] && b[0] == c[0] {
      LexTransitive(a[1..], b[1..], c[1..]);
    }
  }

  lemma {:induction false} LexTrichotomy(a: string, b: string)
    ensures LexLess(a, b) || a == b || LexLess(b, a)
    decreases |a|
  {
    if |a| > 0 && |b| > 0 && a[0] == b[0] {
      LexTrichotomy(a[1..], b[1..]);
      if a[1..] == b[1..] {
        assert a == [a[0]] + a[1..] && b == [b[0]] + b[1..];
      }
    }
  }

  lemma LexAsymmetric(a: string, b: string)
    requires LexLess(a, b)
    ensures !LexLess(b, a)
  {
  }

  /** The comparison odtquery sorts with: a comes before b when the
      lower-cased a is lexicographically smaller than the lower-cased b. */
  predicate LowerLess(a: string, b: string)
  {
    LexLess(Lower(a), Lower(b))
  }

  lemma LowerLessAsymmetric(a: string, b: string)
    requires LowerLess(a, b)
    ensures !LowerLess(b, a)
    ensures Lower(a) != Lower(b)
  {
    LexAsymmetric(Lower(a), Lower(b));
    LexIrreflexive(Lower(a));
  }

  lemma LowerLessTransitive(a: string, b: string, c: string)
    requires LowerLess(a, b) && LowerLess(b, c)
    ensures LowerLess(a, c)
  {
    LexTransitive(Lower(a), Lower(b), Lower(c));
  }

  /** "Not after" is transitive: the weak order the sort relies on. */
  lemma NotLessTransitive(a: string, b: string, c: string)
    requires !LowerLess(b, a) && !LowerLess(c, b)
    ensures !LowerLess(c, a)
  {
    var la, lb, lc := Lower(a), Lower(b), Lower(c);
    LexTrichotomy(la, lb);
    LexTrichotomy(lb, lc);
    if LexLess(la, lb) && LexLess(lb, lc) {
      LexTransitive(la, lb, lc);
      LexAsymmetric(la, lc);
    } else if LexLess(la, lb) {
      LexAsymmetric(la, lb);
    } else if LexLess(lb, lc) {
      LexAsymmetric(lb, lc);
    } else {
      LexIrreflexive(la);
    }
  }

  /** Two names are either strictly ordered or have the same lower-cased form. */
  lemma LowerTrichotomy(a: string, b: string)
    ensures LowerLess(a, b) || Lower(a) == Lower(b) || LowerLess(b, a)
  {
    LexTrichotomy(Lower(a), Lower(b));
  }
}
