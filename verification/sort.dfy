/**
 Sorting member names by their lower-cased form. The sort odtquery calls is
 not stable; it is modelled here by insertion sort, and the lemma
 StrictlySortedUnique shows that the order of the result is fully determined
 whenever the names have pairwise distinct lower-cased forms.
 */
module NameSort {
  import opened Lex

  /** No name comes after a later one. */
  ghost predicate SortedByLower(s: seq<string>)
  {
    forall i, j :: 0 <= i < j < |s| ==> !LowerLess(s[j], s[i])
  }

  /** Every name comes strictly before every later one. */
  ghost predicate StrictlySortedByLower(s: seq<string>)
  {
    forall i, j :: 0 <= i < j < |s| ==> LowerLess(s[i], s[j])
  }

  predicate NoDuplicates<T(==)>(s: seq<T>)
  {
    forall i, j :: 0 <= i < j < |s| ==> s[i] != s[j]
  }

  /** A sequence holds no element twice exactly when no element occurs in its
      multiset more than once. */
  lemma {:induction false} NoDuplicatesCount(s: seq<string>)
    ensures NoDuplicates(s) <==> forall x :: multiset(s)[x] <= 1
  {
    if |s| > 0 {
      var t := s[1..];
      assert s == [s[0]] + t;
      NoDuplicatesCount(t);
      if NoDuplicates(s) {
        assert s[0] !in t;
        assert NoDuplicates(t) by {
          forall i, j | 0 <= i < j < |t|
            ensures t[i] != t[j]
          {
            assert t[i] == s[i + 1] && t[j] == s[j + 1];
          }
        }
      } else {
        var i, j :| 0 <= i < j < |s| && s[i] == s[j];
        if i == 0 {
          assert s[j] == t[j - 1];
          assert multiset(s)[s[0]] == multiset(t)[s[0]] + 1;
        } else {
          assert t[i - 1] == t[j - 1];
          assert !NoDuplicates(t);
          var x :| multiset(t)[x] > 1;
          assert multiset(s)[x] >= multiset(t)[x];
        }
      }
    }
  }

  /** Reordering a duplicate-free sequence leaves it duplicate-free. */
  lemma NoDuplicatesPermutation(a: seq<string>, b: seq<string>)
    requires NoDuplicates(a) && multiset(a) == multiset(b)
    ensures NoDuplicates(b)
  {
    NoDuplicatesCount(a);
    NoDuplicatesCount(b);
  }

  /** A duplicate-free sequence has as many elements as the set of its
      elements. */
  lemma {:induction false} DistinctCardinality<T>(s: seq<T>)
    requires NoDuplicates(s)
    ensures |set x | x in s| == |s|
  {
    if |s| > 0 {
      var t := s[1..];
      assert NoDuplicates(t) by {
        forall i, j | 0 <= i < j < |t|
          ensures t[i] != t[j]
        {
          assert t[i] == s[i + 1] && t[j] == s[j + 1];
        }
      }
      DistinctCardinality(t);
      assert s[0] !in t;
      assert (set x | x in s) == {s[0]} + (set x | x in t);
    }
  }

  /** Inserts x into a sorted sequence, keeping it sorted. */
  function Insert(x: string, s: seq<string>): (r: seq<string>)
    requires SortedByLower(s)
    ensures SortedByLower(r)
    ensures multiset(r) == multiset(s) + multiset{x}
    decreases |s|
  {
    if |s| == 0 then [x]
    else if !LowerLess(s[0], x) then
      assert forall j :: 0 <= j < |s| ==> !LowerLess(s[j], x) by {
        forall j | 0 <= j < |s|
          ensures !LowerLess(s[j], x)
        {
          if j > 0 {
            NotLessTransitive(x, s[0], s[j]);
          }
        }
      }
      [x] + s
    else
      var t := Insert(x, s[1..]);
      assert s == [s[0]] + s[1..];
      assert forall k :: 0 <= k < |t| ==> !LowerLess(t[k], s[0]) by {
        forall k | 0 <= k < |t|
          ensures !LowerLess(t[k], s[0])
        {
          assert t[k] in multiset(t);
          if t[k] == x {
            LowerLessAsymmetric(s[0], x);
          } else {
            assert t[k] in multiset(s[1..]);
            var j :| 0 <= j < |s[1..]| && s[1..][j] == t[k];
            assert s[j + 1] == t[k];
          }
        }
      }
      [s[0]] + t
  }

  /** Sorts names ascending by their lower-cased form. */
  function SortByLower(s: seq<string>): (r: seq<string>)
    ensures SortedByLower(r)
    ensures multiset(r) == multiset(s)
  {
    if |s| == 0 then []
    else
      assert s == [s[0]] + s[1..];
      Insert(s[0], SortByLower(s[1..]))
  }

  /** A strictly sorted sequence holds no name twice. */
  lemma StrictlySortedNoDuplicates(s: seq<string>)
    requires StrictlySortedByLower(s)
    ensures NoDuplicates(s)
  {
    forall i, j | 0 <= i < j < |s|
      ensures s[i] != s[j]
    {
      LowerLessAsymmetric(s[i], s[j]);
    }
  }

  /** A sorted sequence whose names have pairwise distinct lower-cased forms
      is strictly sorted. */
  lemma SortedDistinctIsStrict(s: seq<string>)
    requires SortedByLower(s)
    requires forall i, j :: 0 <= i < j < |s| ==> Lower(s[i]) != Lower(s[j])
    ensures StrictlySortedByLower(s)
  {
    forall i, j | 0 <= i < j < |s|
      ensures LowerLess(s[i], s[j])
    {
      LowerTrichotomy(s[i], s[j]);
    }
  }

  /** Two strictly sorted sequences holding the same names are equal: the
      sorted order of a set of names is unique. */
  lemma {:induction false} StrictlySortedUnique(a: seq<string>, b: seq<string>)
    requires StrictlySortedByLower(a) && StrictlySortedByLower(b)
    requires forall x :: x in a <==> x in b
    ensures a == b
    decreases |a|
  {
    if |a| > 0 {
      assert a[0] in b;
      assert |b| > 0;
      var k :| 0 <= k < |b| && b[k] == a[0];
      assert b[0] in a;
      var m :| 0 <= m < |a| && a[m] == b[0];
      if k > 0 && m > 0 {
        assert LowerLess(b[0], a[0]);
        LowerLessAsymmetric(a[0], b[0]);
      }
      assert a[0] == b[0];
      forall x
        ensures x in a[1..] <==> x in b[1..]
      {
        if x in a[1..] {
          var i :| 0 <= i < |a[1..]| && a[1..][i] == x;
          LowerLessAsymmetric(a[0], a[i + 1]);
          assert x in b && x != b[0];
          var j :| 0 <= j < |b| && b[j] == x;
          assert j > 0;
          assert b[1..][j - 1] == x;
        }
        if x in b[1..] {
          var j :| 0 <= j < |b[1..]| && b[1..][j] == x;
          LowerLessAsymmetric(b[0], b[j + 1]);
          assert x in a && x != a[0];
          var i :| 0 <= i < |a| && a[i] == x;
          assert i > 0;
          assert a[1..][i - 1] == x;
        }
      }
      StrictlySortedUnique(a[1..], b[1..]);
      assert a == [a[0]] + a[1..] && b == [b[0]] + b[1..];
    }
  }
}
