/**
 * hexembed's `main` end to end. The file system is a parameter: `files`
 * holds the contents of every path `fopen(path, "rb")` can open, and
 * `writable` the paths `fopen(path, "wb")` can create or truncate. The
 * output is opened, and so emptied, before the input is opened.
 */
module HexEmbed {
  import opened Wrappers
  import opened Format
  import opened Args
  import opened Emitter

  datatype Destination = Stdout | OutputFile(path: string)

  datatype Failure = OutputOpenFailed | InputOpenFailed

  datatype Outcome =
    | ShowUsage
        // usage text on standard output; no file touched
    | Failed(opens: seq<string>, warnings: seq<Warning>, failure: Failure)
    | Embedded(opens: seq<string>, warnings: seq<Warning>, dest: Destination, text: string)

  const UsageText: string :=
    "Usage:\n\thexembed <filename> [-o <outfile>] [-n <variable name>]\n" +
    "By default, varname='file' and outfile is stdout.\n"

  /** What the run writes to standard output: the usage text, or the document when no `-o` was given. */
  function StdoutText(o: Outcome): string {
    match o
    case ShowUsage => UsageText
    case Failed(_, _, _) => ""
    case Embedded(_, _, dest, text) => if dest == Stdout then text else ""
  }

  /** The value `main` returns. */
  function Status(o: Outcome): int {
    if o.Embedded? then 0 else -1
  }

  /** The paths handed to fopen, in order. */
  function Opened(o: Outcome): seq<string> {
    if o.ShowUsage? then [] else o.opens
  }

  /** The files as the input sees them once the output has been opened for writing. */
  function AfterOutputOpen(files: map<string, seq<Byte>>, outfile: Option<string>): map<string, seq<Byte>> {
    if outfile.Some? then files[outfile.value := []] else files
  }

  /** What one run of `main` does. */
  function Run(argv: seq<string>, files: map<string, seq<Byte>>, writable: set<string>): Outcome {
    match Parse(argv)
    case Usage => ShowUsage
    case Parsed(inv) =>
      if inv.outfile.Some? && inv.outfile.value !in writable then
        Failed([inv.outfile.value], inv.warnings, OutputOpenFailed)
      else
        var opens := (if inv.outfile.Some? then [inv.outfile.value] else []) + [inv.infile];
        var dest := if inv.outfile.Some? then OutputFile(inv.outfile.value) else Stdout;
        var visible := AfterOutputOpen(files, inv.outfile);
        if inv.infile !in visible then Failed(opens, inv.warnings, InputOpenFailed)
        else Embedded(opens, inv.warnings, dest, Document(inv.infile, inv.varname, visible[inv.infile]))
  }

  /** `main` as written: parse, open the output, open the input, measure it, emit. */
  method Execute(argv: seq<string>, files: map<string, seq<Byte>>, writable: set<string>) returns (o: Outcome)
    ensures o == Run(argv, files, writable)
    ensures o == ShowUsage <==> |argv| < 2
    ensures Status(o) == 0 <==>
      Parse(argv).Parsed? &&
      (Parse(argv).inv.outfile.Some? ==> Parse(argv).inv.outfile.value in writable) &&
      Parse(argv).inv.infile in AfterOutputOpen(files, Parse(argv).inv.outfile)
  {
    var parsed := ParseArgs(argv);
    if parsed.Usage? {
      return ShowUsage;
    }
    var inv := parsed.inv;
    var fs := files;
    var opens: seq<string> := [];
    var dest := Stdout;
    if inv.outfile.Some? {
      var path := inv.outfile.value;
      opens := opens + [path];
      if path !in writable {
        return Failed(opens, inv.warnings, OutputOpenFailed);
      }
      fs := fs[path := []];
      dest := OutputFile(path);
    }
    opens := opens + [inv.infile];
    if inv.infile !in fs {
      return Failed(opens, inv.warnings, InputOpenFailed);
    }
    var contents := fs[inv.infile];
    var text := EmitDocument(inv.infile, inv.varname, contents);
    return Embedded(opens, inv.warnings, dest, text);
  }

  /** Fewer than two argv entries: usage, status -1, and no file is opened. */
  lemma UsageOpensNothing(argv: seq<string>, files: map<string, seq<Byte>>, writable: set<string>)
    requires |argv| < 2
    ensures var o := Run(argv, files, writable);
      Status(o) == -1 && Opened(o) == [] && StdoutText(o) == UsageText
  {
  }

  /** An output that cannot be created stops the run before the input is opened. */
  lemma OutputFailureSkipsInput(argv: seq<string>, files: map<string, seq<Byte>>, writable: set<string>)
    requires Parse(argv).Parsed? && Parse(argv).inv.outfile.Some?
    requires Parse(argv).inv.outfile.value !in writable
    ensures var o := Run(argv, files, writable);
      Status(o) == -1 && o.Failed? && o.failure == OutputOpenFailed &&
      Opened(o) == [Parse(argv).inv.outfile.value]
  {
  }

  /**
   * An input that cannot be opened once the output is open ends the run with
   * -1, after both paths have been handed to fopen.
   */
  lemma InputOpenFails(argv: seq<string>, files: map<string, seq<Byte>>, writable: set<string>)
    requires Parse(argv).Parsed?
    requires var inv := Parse(argv).inv;
      (inv.outfile.Some? ==> inv.outfile.value in writable) &&
      inv.infile !in AfterOutputOpen(files, inv.outfile)
    ensures var inv := Parse(argv).inv;
      var o := Run(argv, files, writable);
      Status(o) == -1 && o.Failed? && o.failure == InputOpenFailed &&
      Opened(o) == (if inv.outfile.Some? then [inv.outfile.value] else []) + [inv.infile]
  {
  }

  /**
   * With the input readable and its path a different path string from the
   * output's, the run succeeds and writes the document for the input's full
   * contents to the destination.
   */
  lemma EmbedsInput(argv: seq<string>, files: map<string, seq<Byte>>, writable: set<string>)
    requires Parse(argv).Parsed?
    requires var inv := Parse(argv).inv;
      inv.infile in files &&
      (inv.outfile.Some? ==> inv.outfile.value in writable && inv.outfile.value != inv.infile)
    ensures var inv := Parse(argv).inv;
      var o := Run(argv, files, writable);
      Status(o) == 0 && o.Embedded? &&
      o.text == Document(inv.infile, inv.varname, files[inv.infile]) &&
      o.dest == (if inv.outfile.Some? then OutputFile(inv.outfile.value) else Stdout)
  {
  }

  /**
   * Writing the output over the input empties it before it is read: the run
   * succeeds and declares an empty array.
   */
  lemma SameFileEmbedsNothing(argv: seq<string>, files: map<string, seq<Byte>>, writable: set<string>)
    requires Parse(argv).Parsed?
    requires var inv := Parse(argv).inv; inv.outfile == Some(inv.infile) && inv.infile in writable
    ensures var inv := Parse(argv).inv;
      Run(argv, files, writable) ==
        Embedded([inv.infile, inv.infile], inv.warnings, OutputFile(inv.infile), Document(inv.infile, inv.varname, []))
  {
  }

  /** `hexembed <path>` alone writes the array named `file` to standard output. */
  lemma DefaultRun(prog: string, path: string, files: map<string, seq<Byte>>, writable: set<string>)
    requires path in files
    ensures Run([prog, path], files, writable) ==
      Embedded([path], [], Stdout, Document(path, "file", files[path]))
    ensures StdoutText(Run([prog, path], files, writable)) == Document(path, "file", files[path])
  {
    ParseDefaults([prog, path]);
    assert AllUnexpected([prog, path][2..]) == [];
  }
}
