/**
 The lines odtquery writes for one archive, kept abstract: which member or
 verdict a line reports and the indentation it carries. The styling and the
 digit grouping of the printed text are not part of this model.
 */
module Report {
  import opened Verifier

  /** What a listing line says about a member's content. */
  datatype Size = Empty | Bytes(count: nat)

  datatype Entry =
    | VerdictEntry(verdict: Verdict)
    | MemberEntry(name: string, size: Size)

  /** One report line: its indentation prefix and what it reports. */
  datatype Line = Line(prefix: string, entry: Entry)

  /** The prefix of every line: two spaces when several files are processed,
      nothing otherwise. */
  function Prefix(indent: bool): string
  {
    if indent then "  " else ""
  }

  /** The line that reports a verdict. */
  function VerdictLine(verdict: Verdict, indent: bool): Line
  {
    Line(Prefix(indent), VerdictEntry(verdict))
  }

  /** The listing line for a member of the given content length. */
  function MemberLine(name: string, length: nat, indent: bool): Line
  {
    Line(Prefix(indent), MemberEntry(name, if length == 0 then Empty else Bytes(length)))
  }

  /** A line is the listing line of one of the archive's members. */
  predicate IsMemberLine(line: Line, files: Archive, indent: bool)
  {
    && line.entry.MemberEntry?
    && line.entry.name in files
    && line == MemberLine(line.entry.name, files[line.entry.name], indent)
  }
}
