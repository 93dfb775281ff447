/**
 The member listing of odtquery: one line per archive member, in the
 archive's unspecified iteration order.
 */
module Lister {
  import opened NameSort
  import opened Verifier
  import opened Report

  /** A listing of an archive: one line per member, each a member line of
      the archive, none repeated. The order is not constrained. */
  ghost predicate IsListing(lines: seq<Line>, files: Archive, indent: bool)
  {
    && |lines| == |files|
    && (forall i :: 0 <= i < |lines| ==> IsMemberLine(lines[i], files, indent))
    && NoDuplicates(lines)
  }

  /** Lists every member of an archive: "(empty)" for a member without
      content, its byte count otherwise. */
  method List(files: Archive, indent: bool) returns (lines: seq<Line>)
    ensures IsListing(lines, files, indent)
    ensures forall name :: name in files ==> MemberLine(name, files[name], indent) in lines
    ensures forall i :: 0 <= i < |lines| ==> lines[i].prefix == Prefix(indent)
    ensures forall i :: 0 <= i < |lines| ==>
      && lines[i].entry.MemberEntry?
      && lines[i].entry.name in files
      && (lines[i].entry.size == Empty <==> files[lines[i].entry.name] == 0)
      && (lines[i].entry.size.Bytes? ==> lines[i].entry.size.count == files[lines[i].entry.name])
  {
    lines := [];
    var rest := files.Keys;
    while rest != {}
      invariant rest <= files.Keys
      invariant |lines| + |rest| == |files|
      invariant forall i :: 0 <= i < |lines| ==> IsMemberLine(lines[i], files, indent) && lines[i].entry.name !in rest
      invariant NoDuplicates(lines)
      invariant forall name :: name in files.Keys - rest ==> MemberLine(name, files[name], indent) in lines
      decreases rest
    {
      var name :| name in rest;
      lines := lines + [MemberLine(name, files[name], indent)];
      rest := rest - {name};
    }
  }

  /** Any listing mentions every member: one line per member and no line
      twice leaves no member out. */
  lemma ListingCoversEveryMember(lines: seq<Line>, files: Archive, indent: bool)
    requires IsListing(lines, files, indent)
    ensures forall name :: name in files ==> MemberLine(name, files[name], indent) in lines
  {
    var names := seq(|lines|, i requires 0 <= i < |lines| => lines[i].entry.name);
    assert NoDuplicates(names) by {
      forall i, j | 0 <= i < j < |names|
        ensures names[i] != names[j]
      {
        assert lines[i] != lines[j];
      }
    }
    DistinctCardinality(names);
    var named := set x | x in names;
    assert named <= files.Keys;
    assert |files.Keys - named| == 0;
    forall name | name in files
      ensures MemberLine(name, files[name], indent) in lines
    {
      assert name in named;
      var i :| 0 <= i < |names| && names[i] == name;
      assert lines[i] == MemberLine(name, files[name], indent);
    }
  }
}
