/**
 The required-file verifier of odtquery: which of the five members every ODT
 package must contain are present in an archive, and which are missing.
 */
module Verifier {
  import opened Lex
  import opened NameSort

  /** An opened archive: each member name mapped to its content length in
      bytes. Member names are unique, as map keys are. */
  type Archive = map<string, nat>

  /** The members every ODT package must contain. */
  const ExpectedFiles: set<string> :=
    {"content.xml", "META-INF/manifest.xml", "meta.xml", "mimetype", "styles.xml"}

  /** The required members in ascending order of their lower-cased names
      ('-' sorts before '.', so META-INF/manifest.xml precedes meta.xml). */
  const ExpectedOrder: seq<string> :=
    ["content.xml", "META-INF/manifest.xml", "meta.xml", "mimetype", "styles.xml"]

  /** The outcome of verifying one archive. */
  datatype Verdict = Verified | Failed(missing: seq<string>)

  lemma ContentBeforeManifest()
    ensures LowerLess("content.xml", "META-INF/manifest.xml")
  {
  }

  lemma ManifestBeforeMeta()
    ensures LowerLess("META-INF/manifest.xml", "meta.xml")
  {
    assert Lower("META-INF/manifest.xml") == "meta-inf/manifest.xml";
    assert Lower("meta.xml") == "meta.xml";
    assert LexLess("-inf/manifest.xml", ".xml");
    assert LexLess("a-inf/manifest.xml", "a.xml");
    assert LexLess("ta-inf/manifest.xml", "ta.xml");
    assert LexLess("eta-inf/manifest.xml", "eta.xml");
  }

  lemma MetaBeforeMimetype()
    ensures LowerLess("meta.xml", "mimetype")
  {
  }

  lemma MimetypeBeforeStyles()
    ensures LowerLess("mimetype", "styles.xml")
  {
  }

  /** ExpectedOrder lists exactly the required members, each once. */
  lemma ExpectedOrderMembers()
    ensures forall x :: x in ExpectedOrder <==> x in ExpectedFiles
    ensures |ExpectedFiles| == |ExpectedOrder| == 5
  {
  }

  /** ExpectedOrder is the ascending order of the lower-cased required names. */
  lemma ExpectedOrderIsSorted()
    ensures StrictlySortedByLower(ExpectedOrder)
  {
    var e := ExpectedOrder;
    ContentBeforeManifest();
    ManifestBeforeMeta();
    MetaBeforeMimetype();
    MimetypeBeforeStyles();
    forall i, j | 0 <= i < j < |e|
      ensures LowerLess(e[i], e[j])
    {
      if j > i + 1 {
        LowerLessTransitive(e[i], e[i + 1], e[j]);
      }
    }
  }

  /** The required members have pairwise distinct lower-cased names. */
  lemma ExpectedLowerInjective(x: string, y: string)
    requires x in ExpectedFiles && y in ExpectedFiles && x != y
    ensures Lower(x) != Lower(y)
  {
    ExpectedOrderIsSorted();
    ExpectedOrderMembers();
    var i :| 0 <= i < |ExpectedOrder| && ExpectedOrder[i] == x;
    var j :| 0 <= j < |ExpectedOrder| && ExpectedOrder[j] == y;
    if i < j {
      LowerLessAsymmetric(x, y);
    } else {
      LowerLessAsymmetric(y, x);
    }
  }

  /** The names of a sequence that are not keys, in their original order. */
  function Absent(names: seq<string>, keys: set<string>): (r: seq<string>)
    ensures forall x :: x in r <==> x in names && x !in keys
    ensures StrictlySortedByLower(names) ==> StrictlySortedByLower(r)
  {
    if |names| == 0 then []
    else
      var rest := Absent(names[1..], keys);
      if names[0] in keys then rest
      else
        assert StrictlySortedByLower(names) ==> forall k :: 0 <= k < |rest| ==> LowerLess(names[0], rest[k]) by {
          if StrictlySortedByLower(names) {
            forall k | 0 <= k < |rest|
              ensures LowerLess(names[0], rest[k])
            {
              assert rest[k] in names[1..];
              var j :| 0 <= j < |names[1..]| && names[1..][j] == rest[k];
              assert names[j + 1] == rest[k];
            }
          }
        }
        [names[0]] + rest
  }

  /** The verdict odtquery should reach for an archive with these member
      names, stated independently of how it is computed: verified when every
      required member is present, otherwise the missing members in the
      canonical order. */
  function ExpectedVerdict(keys: set<string>): Verdict
  {
    if ExpectedFiles <= keys then Verified else Failed(Absent(ExpectedOrder, keys))
  }

  /** Absent depends on the keys only through the names it is given. */
  lemma {:induction false} AbsentAgrees(names: seq<string>, k1: set<string>, k2: set<string>)
    requires forall x :: x in names ==> (x in k1 <==> x in k2)
    ensures Absent(names, k1) == Absent(names, k2)
  {
    if |names| > 0 {
      AbsentAgrees(names[1..], k1, k2);
    }
  }

  /** With no keys at all, every name is absent, in its original order. */
  lemma {:induction false} AbsentFromNothing(names: seq<string>)
    ensures Absent(names, {}) == names
  {
    if |names| > 0 {
      AbsentFromNothing(names[1..]);
      assert names == [names[0]] + names[1..];
    }
  }

  /** Member names outside the required set never affect the verdict. */
  lemma OtherNamesIgnored(k1: set<string>, k2: set<string>)
    requires k1 * ExpectedFiles == k2 * ExpectedFiles
    ensures ExpectedVerdict(k1) == ExpectedVerdict(k2)
  {
    ExpectedOrderMembers();
    assert forall x :: x in ExpectedFiles ==> (x in k1 <==> x in k1 * ExpectedFiles);
    AbsentAgrees(ExpectedOrder, k1, k2);
  }

  /** An archive with none of the required members is reported as missing all
      five, in the order content.xml, META-INF/manifest.xml, meta.xml,
      mimetype, styles.xml. */
  lemma AllMissingOrder(files: Archive)
    requires files.Keys * ExpectedFiles == {}
    ensures ExpectedVerdict(files.Keys) == Failed(ExpectedOrder)
  {
    OtherNamesIgnored(files.Keys, {});
    AbsentFromNothing(ExpectedOrder);
  }

  /** An archive lacking only styles.xml and mimetype is reported as missing
      ["mimetype", "styles.xml"]. */
  lemma StylesAndMimetypeMissing()
    ensures ExpectedVerdict({"content.xml", "META-INF/manifest.xml", "meta.xml"})
         == Failed(["mimetype", "styles.xml"])
  {
    var keys := {"content.xml", "META-INF/manifest.xml", "meta.xml"};
    assert "mimetype" !in keys;
    var e := ExpectedOrder;
    assert Absent(e[4..], keys) == ["styles.xml"];
    assert Absent(e[3..], keys) == ["mimetype", "styles.xml"];
    assert Absent(e[2..], keys) == ["mimetype", "styles.xml"];
    assert Absent(e[1..], keys) == ["mimetype", "styles.xml"];
  }

  /** What the reference verdict means: verified exactly when every required
      member is present; otherwise a non-empty list of exactly the missing
      required members, each once, strictly ascending by lower-cased name. */
  lemma ExpectedVerdictMeaning(keys: set<string>)
    ensures ExpectedVerdict(keys).Verified? <==> ExpectedFiles <= keys
    ensures ExpectedVerdict(keys).Failed? ==>
      var missing := ExpectedVerdict(keys).missing;
      && |missing| > 0
      && (forall x :: x in missing <==> x in ExpectedFiles && x !in keys)
      && NoDuplicates(missing)
      && StrictlySortedByLower(missing)
  {
    ExpectedOrderMembers();
    ExpectedOrderIsSorted();
    if !(ExpectedFiles <= keys) {
      var missing := Absent(ExpectedOrder, keys);
      var n :| n in ExpectedFiles && n !in keys;
      assert n in missing;
      StrictlySortedNoDuplicates(missing);
    }
  }

  /** The present required members: the loop that intersects the archive's
      member names with the required set. */
  method CollectPresent(files: Archive) returns (present: set<string>)
    ensures present == files.Keys * ExpectedFiles
  {
    present := {};
    var rest := files.Keys;
    while rest != {}
      invariant rest <= files.Keys
      invariant present == (files.Keys - rest) * ExpectedFiles
      decreases rest
    {
      var name :| name in rest;
      if name in ExpectedFiles {
        present := present + {name};
      }
      rest := rest - {name};
    }
  }

  /** The size test odtquery uses holds exactly when a required member is
      absent. */
  lemma SizeTestMeansMissing(keys: set<string>)
    ensures |keys * ExpectedFiles| < |ExpectedFiles| <==> exists n :: n in ExpectedFiles && n !in keys
    ensures |keys * ExpectedFiles| <= 5
  {
    ExpectedOrderMembers();
    var present := keys * ExpectedFiles;
    assert ExpectedFiles == present + (ExpectedFiles - keys);
    assert |ExpectedFiles| == |present| + |ExpectedFiles - keys|;
    if n :| n in ExpectedFiles && n !in keys {
      assert n in ExpectedFiles - keys;
    }
  }

  /** Turns a set of names into a sequence holding each once, in an
      unspecified order. */
  method ToSlice(names: set<string>) returns (r: seq<string>)
    ensures forall x :: x in r <==> x in names
    ensures NoDuplicates(r)
    ensures |r| == |names|
  {
    r := [];
    var rest := names;
    while rest != {}
      invariant rest <= names
      invariant forall x :: x in r <==> x in names - rest
      invariant NoDuplicates(r)
      invariant |r| + |rest| == |names|
      decreases rest
    {
      var name :| name in rest;
      r := r + [name];
      rest := rest - {name};
    }
  }

  /** A duplicate-free, sorted list of exactly the missing required members
      is the canonical one: the order produced by an unstable sort is
      determined. */
  lemma SortedMissingIsCanonical(missing: seq<string>, keys: set<string>)
    requires SortedByLower(missing) && NoDuplicates(missing)
    requires forall x :: x in missing <==> x in ExpectedFiles && x !in keys
    ensures StrictlySortedByLower(missing)
    ensures missing == Absent(ExpectedOrder, keys)
  {
    forall i, j | 0 <= i < j < |missing|
      ensures Lower(missing[i]) != Lower(missing[j])
    {
      ExpectedLowerInjective(missing[i], missing[j]);
    }
    SortedDistinctIsStrict(missing);
    ExpectedOrderIsSorted();
    StrictlySortedUnique(missing, Absent(ExpectedOrder, keys));
  }

  /** Verifies that an archive holds every required member; on failure the
      missing members are reported, sorted by lower-cased name. */
  method Verify(files: Archive) returns (v: Verdict)
    ensures v.Verified? <==> ExpectedFiles <= files.Keys
    ensures v == ExpectedVerdict(files.Keys)
  {
    var present := CollectPresent(files);
    SizeTestMeansMissing(files.Keys);
    if |present| < |ExpectedFiles| {
      var slice := ToSlice(ExpectedFiles - present);
      var missing := SortByLower(slice);
      assert forall x :: x in slice <==> x in multiset(slice);
      assert forall x :: x in missing <==> x in multiset(missing);
      assert forall x :: x in missing <==> x in ExpectedFiles && x !in files;
      NoDuplicatesPermutation(slice, missing);
      SortedMissingIsCanonical(missing, files.Keys);
      v := Failed(missing);
    } else {
      v := Verified;
    }
  }
}
