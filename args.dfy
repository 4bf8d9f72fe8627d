/**
 * The command-line scan at the top of hexembed's `main`: `argv[1]` is the
 * input path, and the tokens after it are read left to right for `-o <path>`
 * and `-n <name>`. Warnings that the program writes to stderr are returned as
 * tags, in the order they are written.
 */
module Args {
  import opened Wrappers

  datatype Warning =
    | MissingOutfile              // "-o" was the last token
    | MissingVarName              // "-n" was the last token
    | UnexpectedArgument(arg: string)

  /** The two locals the loop updates, plus the warnings it has written so far. */
  datatype Settings = Settings(outfile: Option<string>, varname: string, warnings: seq<Warning>)

  /** `outfile = NULL` (standard output) and `varname = "file"`. */
  const Defaults: Settings := Settings(None, "file", [])

  datatype Invocation = Invocation(infile: string, outfile: Option<string>, varname: string, warnings: seq<Warning>)

  /** Either the usage text (main returns -1) or the parsed invocation. */
  datatype ParseResult = Usage | Parsed(inv: Invocation)

  predicate IsFlag(t: string) {
    t == "-o" || t == "-n"
  }

  /** What the loop does to `s` when it starts at the first of `tokens`. */
  function Scan(tokens: seq<string>, s: Settings): Settings
    decreases |tokens|
  {
    if tokens == [] then s
    else if tokens[0] == "-o" then
      if |tokens| == 1 then s.(warnings := s.warnings + [MissingOutfile])
      else Scan(tokens[2..], s.(outfile := Some(tokens[1])))
    else if tokens[0] == "-n" then
      if |tokens| == 1 then s.(warnings := s.warnings + [MissingVarName])
      else Scan(tokens[2..], s.(varname := tokens[1]))
    else Scan(tokens[1..], s.(warnings := s.warnings + [UnexpectedArgument(tokens[0])]))
  }

  /** The whole argument handling of `main`, `argv[0]` being the program name. */
  function Parse(argv: seq<string>): ParseResult {
    if |argv| < 2 then Usage
    else
      var s := Scan(argv[2..], Defaults);
      Parsed(Invocation(argv[1], s.outfile, s.varname, s.warnings))
  }

  /** The argument loop as written: `i` steps over a flag and then over its value. */
  method ParseArgs(argv: seq<string>) returns (r: ParseResult)
    ensures r == Parse(argv)
    ensures r.Usage? <==> |argv| < 2
    ensures r.Parsed? ==> r.inv.infile == argv[1]
  {
    if |argv| < 2 {
      return Usage;
    }
    var infile := argv[1];
    var varname := "file";
    var outfile: Option<string> := None;
    var warnings: seq<Warning> := [];
    var i := 2;
    while i < |argv|
      invariant 2 <= i <= |argv| + 1
      invariant Scan(argv[2..], Defaults) ==
        if i <= |argv| then Scan(argv[i..], Settings(outfile, varname, warnings))
        else Settings(outfile, varname, warnings)
    {
      ghost var rest := argv[i..];
      if argv[i] == "-o" {
        i := i + 1;
        if |argv| < i + 1 {
          warnings := warnings + [MissingOutfile];
        } else {
          outfile := Some(argv[i]);
          assert rest[2..] == argv[i + 1..];
        }
      } else if argv[i] == "-n" {
        i := i + 1;
        if |argv| < i + 1 {
          warnings := warnings + [MissingVarName];
        } else {
          varname := argv[i];
          assert rest[2..] == argv[i + 1..];
        }
      } else {
        warnings := warnings + [UnexpectedArgument(argv[i])];
        assert rest[1..] == argv[i + 1..];
      }
      i := i + 1;
    }
    return Parsed(Invocation(infile, outfile, varname, warnings));
  }

  /** True when the scan of `tokens` ends on a flag that has no value after it. */
  predicate Dangling(tokens: seq<string>)
    decreases |tokens|
  {
    if tokens == [] then false
    else if IsFlag(tokens[0]) then |tokens| == 1 || Dangling(tokens[2..])
    else Dangling(tokens[1..])
  }

  /** A stretch of tokens that ends on a token boundary can be scanned on its own. */
  lemma {:induction false} ScanConcat(a: seq<string>, b: seq<string>, s: Settings)
    requires !Dangling(a)
    ensures Scan(a + b, s) == Scan(b, Scan(a, s))
    decreases |a|
  {
    if a == [] {
      assert a + b == b;
    } else if a[0] == "-o" {
      assert (a + b)[2..] == a[2..] + b;
      ScanConcat(a[2..], b, s.(outfile := Some(a[1])));
    } else if a[0] == "-n" {
      assert (a + b)[2..] == a[2..] + b;
      ScanConcat(a[2..], b, s.(varname := a[1]));
    } else {
      assert (a + b)[1..] == a[1..] + b;
      ScanConcat(a[1..], b, s.(warnings := s.warnings + [UnexpectedArgument(a[0])]));
    }
  }

  /** Warnings are only ever appended. */
  lemma {:induction false} ScanWarningsGrow(tokens: seq<string>, s: Settings)
    ensures |s.warnings| <= |Scan(tokens, s).warnings|
    ensures Scan(tokens, s).warnings[..|s.warnings|] == s.warnings
    decreases |tokens|
  {
    if tokens == [] {
    } else if tokens[0] == "-o" && |tokens| > 1 {
      ScanWarningsGrow(tokens[2..], s.(outfile := Some(tokens[1])));
    } else if tokens[0] == "-n" && |tokens| > 1 {
      ScanWarningsGrow(tokens[2..], s.(varname := tokens[1]));
    } else if !IsFlag(tokens[0]) {
      var s' := s.(warnings := s.warnings + [UnexpectedArgument(tokens[0])]);
      ScanWarningsGrow(tokens[1..], s');
      assert Scan(tokens, s).warnings[..|s'.warnings|] == s'.warnings;
    }
  }

  /** The values the scan ends with do not depend on the warnings written before it. */
  lemma {:induction false} ScanIgnoresWarnings(tokens: seq<string>, s: Settings, w: seq<Warning>)
    ensures Scan(tokens, s).outfile == Scan(tokens, s.(warnings := w)).outfile
    ensures Scan(tokens, s).varname == Scan(tokens, s.(warnings := w)).varname
    decreases |tokens|
  {
    if tokens == [] {
    } else if tokens[0] == "-o" && |tokens| > 1 {
      ScanIgnoresWarnings(tokens[2..], s.(outfile := Some(tokens[1])), w);
    } else if tokens[0] == "-n" && |tokens| > 1 {
      ScanIgnoresWarnings(tokens[2..], s.(varname := tokens[1]), w);
    } else if !IsFlag(tokens[0]) {
      var u := UnexpectedArgument(tokens[0]);
      ScanIgnoresWarnings(tokens[1..], s.(warnings := s.warnings + [u]), w + [u]);
    }
  }

  /**
   * The warnings a scan writes depend only on the tokens: they are appended
   * to whatever was written before, the same whatever the settings.
   */
  lemma {:induction false} ScanWarningsShift(tokens: seq<string>, s: Settings)
    ensures Scan(tokens, s).warnings == s.warnings + Scan(tokens, Defaults).warnings
    decreases |tokens|
  {
    if tokens == [] {
    } else if tokens[0] == "-o" && |tokens| > 1 {
      ScanWarningsShift(tokens[2..], s.(outfile := Some(tokens[1])));
      ScanWarningsShift(tokens[2..], Defaults.(outfile := Some(tokens[1])));
    } else if tokens[0] == "-n" && |tokens| > 1 {
      ScanWarningsShift(tokens[2..], s.(varname := tokens[1]));
      ScanWarningsShift(tokens[2..], Defaults.(varname := tokens[1]));
    } else if !IsFlag(tokens[0]) {
      var u := UnexpectedArgument(tokens[0]);
      ScanWarningsShift(tokens[1..], s.(warnings := s.warnings + [u]));
      ScanWarningsShift(tokens[1..], Defaults.(warnings := [u]));
      assert Defaults.warnings + [u] == [u];
      assert s.warnings + [u] + Scan(tokens[1..], Defaults).warnings
          == s.warnings + ([u] + Scan(tokens[1..], Defaults).warnings);
    }
  }

  /** Tokens with no `-o` among them leave the output path as it was. */
  lemma {:induction false} ScanKeepsOutfile(tokens: seq<string>, s: Settings)
    requires "-o" !in tokens
    ensures Scan(tokens, s).outfile == s.outfile
    decreases |tokens|
  {
    if tokens == [] {
    } else if tokens[0] == "-n" && |tokens| > 1 {
      assert tokens[2..] == tokens[1..][1..];
      ScanKeepsOutfile(tokens[2..], s.(varname := tokens[1]));
    } else if !IsFlag(tokens[0]) {
      ScanKeepsOutfile(tokens[1..], s.(warnings := s.warnings + [UnexpectedArgument(tokens[0])]));
    }
  }

  /** Tokens with no `-n` among them leave the variable name as it was. */
  lemma {:induction false} ScanKeepsVarName(tokens: seq<string>, s: Settings)
    requires "-n" !in tokens
    ensures Scan(tokens, s).varname == s.varname
    decreases |tokens|
  {
    if tokens == [] {
    } else if tokens[0] == "-o" && |tokens| > 1 {
      assert tokens[2..] == tokens[1..][1..];
      ScanKeepsVarName(tokens[2..], s.(outfile := Some(tokens[1])));
    } else if !IsFlag(tokens[0]) {
      ScanKeepsVarName(tokens[1..], s.(warnings := s.warnings + [UnexpectedArgument(tokens[0])]));
    }
  }

  /** One `UnexpectedArgument` warning per token, in order. */
  function AllUnexpected(tokens: seq<string>): (ws: seq<Warning>)
    ensures |ws| == |tokens|
    ensures forall i :: 0 <= i < |tokens| ==> ws[i] == UnexpectedArgument(tokens[i])
  {
    seq(|tokens|, i requires 0 <= i < |tokens| => UnexpectedArgument(tokens[i]))
  }

  /** Without flags the scan changes nothing but the warnings: one per token. */
  lemma {:induction false} ScanWithoutFlags(tokens: seq<string>, s: Settings)
    requires forall i :: 0 <= i < |tokens| ==> !IsFlag(tokens[i])
    ensures Scan(tokens, s) == s.(warnings := s.warnings + AllUnexpected(tokens))
    decreases |tokens|
  {
    if tokens != [] {
      var s' := s.(warnings := s.warnings + [UnexpectedArgument(tokens[0])]);
      ScanWithoutFlags(tokens[1..], s');
      assert s'.warnings + AllUnexpected(tokens[1..]) == s.warnings + AllUnexpected(tokens);
    }
  }

  /**
   * With only an input path and unrecognised tokens, the output goes to
   * standard output, the variable is named "file", and each extra token is
   * reported.
   */
  lemma ParseDefaults(argv: seq<string>)
    requires |argv| >= 2
    requires forall i :: 2 <= i < |argv| ==> !IsFlag(argv[i])
    ensures Parse(argv) == Parsed(Invocation(argv[1], None, "file", AllUnexpected(argv[2..])))
  {
    ScanWithoutFlags(argv[2..], Defaults);
  }

  /** The last `-o` that is read as a flag decides the output path, whatever its value is. */
  lemma LastOutfileWins(prog: string, infile: string, a: seq<string>, x: string, b: seq<string>)
    requires !Dangling(a) && "-o" !in b
    ensures Parse([prog, infile] + a + ["-o", x] + b).inv.outfile == Some(x)
  {
    var argv := [prog, infile] + a + ["-o", x] + b;
    assert argv[2..] == a + (["-o", x] + b);
    ScanConcat(a, ["-o", x] + b, Defaults);
    assert (["-o", x] + b)[2..] == b;
    ScanKeepsOutfile(b, Scan(a, Defaults).(outfile := Some(x)));
  }

  /** The last `-n` that is read as a flag decides the variable name, whatever its value is. */
  lemma LastVarNameWins(prog: string, infile: string, a: seq<string>, x: string, b: seq<string>)
    requires !Dangling(a) && "-n" !in b
    ensures Parse([prog, infile] + a + ["-n", x] + b).inv.varname == x
  {
    var argv := [prog, infile] + a + ["-n", x] + b;
    assert argv[2..] == a + (["-n", x] + b);
    ScanConcat(a, ["-n", x] + b, Defaults);
    assert (["-n", x] + b)[2..] == b;
    ScanKeepsVarName(b, Scan(a, Defaults).(varname := x));
  }

  /** A final `-o` with no value: a warning, and the output stays as it was. */
  lemma TrailingOutfileFlag(prog: string, infile: string, a: seq<string>)
    requires !Dangling(a)
    ensures var s := Scan(a, Defaults);
      Parse([prog, infile] + a + ["-o"]) ==
        Parsed(Invocation(infile, s.outfile, s.varname, s.warnings + [MissingOutfile]))
  {
    assert ([prog, infile] + a + ["-o"])[2..] == a + ["-o"];
    ScanConcat(a, ["-o"], Defaults);
  }

  /** A final `-n` with no value: a warning, and the name stays as it was. */
  lemma TrailingVarNameFlag(prog: string, infile: string, a: seq<string>)
    requires !Dangling(a)
    ensures var s := Scan(a, Defaults);
      Parse([prog, infile] + a + ["-n"]) ==
        Parsed(Invocation(infile, s.outfile, s.varname, s.warnings + [MissingVarName]))
  {
    assert ([prog, infile] + a + ["-n"])[2..] == a + ["-n"];
    ScanConcat(a, ["-n"], Defaults);
  }

  /**
   * An unrecognised token where a flag is expected is reported and otherwise
   * has no effect: the run parses as if it were absent, with one
   * `UnexpectedArgument` warning inserted where the token stood.
   */
  lemma UnexpectedArgumentIgnored(prog: string, infile: string, a: seq<string>, t: string, b: seq<string>)
    requires !Dangling(a) && !IsFlag(t)
    ensures var with := Parse([prog, infile] + a + [t] + b).inv;
      var without := Parse([prog, infile] + a + b).inv;
      var k := |Scan(a, Defaults).warnings|;
      with.outfile == without.outfile && with.varname == without.varname &&
      k <= |without.warnings| &&
      with.warnings == without.warnings[..k] + [UnexpectedArgument(t)] + without.warnings[k..]
  {
    assert ([prog, infile] + a + [t] + b)[2..] == a + ([t] + b);
    assert ([prog, infile] + a + b)[2..] == a + b;
    ScanSkipsUnexpected(a, t, b);
  }

  /** `UnexpectedArgumentIgnored` on the tokens after the input path. */
  lemma ScanSkipsUnexpected(a: seq<string>, t: string, b: seq<string>)
    requires !Dangling(a) && !IsFlag(t)
    ensures var with := Scan(a + ([t] + b), Defaults);
      var without := Scan(a + b, Defaults);
      var k := |Scan(a, Defaults).warnings|;
      with.outfile == without.outfile && with.varname == without.varname &&
      k <= |without.warnings| &&
      with.warnings == without.warnings[..k] + [UnexpectedArgument(t)] + without.warnings[k..]
  {
    ScanConcat(a, [t] + b, Defaults);
    ScanConcat(a, b, Defaults);
    var sa := Scan(a, Defaults);
    var sw := sa.(warnings := sa.warnings + [UnexpectedArgument(t)]);
    assert ([t] + b)[1..] == b;
    ScanIgnoresWarnings(b, sa, sw.warnings);
    ScanWarningsShift(b, sw);
    ScanWarningsShift(b, sa);
    var rest := Scan(b, Defaults).warnings;
    assert Scan(b, sa).warnings[..|sa.warnings|] == sa.warnings;
    assert Scan(b, sa).warnings[|sa.warnings|..] == rest;
  }

  /** A flag's value is taken as it is, even when it is itself a flag. */
  lemma FlagValueMayBeFlag(prog: string, infile: string)
    ensures Parse([prog, infile, "-o", "-n"]) == Parsed(Invocation(infile, Some("-n"), "file", []))
    ensures Parse([prog, infile, "-n", "-o"]) == Parsed(Invocation(infile, None, "-o", []))
  {
    var o: seq<string> := ["-o", "-n"];
    var n: seq<string> := ["-n", "-o"];
    assert [prog, infile, "-o", "-n"][2..] == o && o[2..] == [];
    assert [prog, infile, "-n", "-o"][2..] == n && n[2..] == [];
  }
}
