/**
 The per-file driver of odtquery and its configuration rule: open the
 archive, then verify and list it as the configuration asks.
 */
module Driver {
  import opened Wrappers
  import opened Verifier
  import opened Report
  import opened Lister

  /** The command-line configuration: which actions to run on which files. */
  datatype Config = Config(list: bool, verify: bool, filenames: seq<string>)

  /** The configuration built from the parsed flags; rejected when neither
      action is asked for. */
  function MakeConfig(list: bool, verify: bool, filenames: seq<string>): (r: Result<Config, string>)
    ensures r.Success? <==> list || verify
    ensures r.Success? ==> r.value.list || r.value.verify
    ensures r.Success? ==> r.value == Config(list, verify, filenames)
    ensures r.Failure? ==> r.error == "error: no action specified"
  {
    if !(list || verify) then Failure("error: no action specified")
    else Success(Config(list, verify, filenames))
  }

  /** Processes one file: an archive that fails to open yields its error and
      no report; otherwise the verdict line comes first when verification is
      on, followed by the listing when listing is on. */
  method Process(filename: string, open: string -> Result<Archive, string>, config: Config, indent: bool)
    returns (lines: seq<Line>, err: Option<string>)
    ensures open(filename).Failure? ==> lines == [] && err == Some(open(filename).error)
    ensures open(filename).Success? ==> err == None
    ensures open(filename).Success? ==>
      var files := open(filename).value;
      var k := if config.verify then 1 else 0;
      && k <= |lines|
      && (config.verify ==> lines[0] == VerdictLine(ExpectedVerdict(files.Keys), indent))
      && (config.list ==> IsListing(lines[k..], files, indent))
      && (!config.list ==> |lines| == k)
    ensures forall i :: 0 <= i < |lines| ==> lines[i].prefix == Prefix(indent)
  {
    var doc := open(filename);
    if doc.Failure? {
      return [], Some(doc.error);
    }
    lines := [];
    if config.verify {
      var verdict := Verify(doc.value);
      lines := lines + [VerdictLine(verdict, indent)];
    }
    if config.list {
      var listed := List(doc.value, indent);
      lines := lines + listed;
    }
    err := None;
  }
}
