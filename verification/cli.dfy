/**
  CLI::parse of src/cli.cpp and the Config record of src/Config.h.

  parse reads the arguments after the program name one by one: -h/--help
  and -v/--version set a flag, -o/--output takes the next argument as the
  output file, -i/--include takes the next argument as a comma-separated
  list of patterns, and every other argument is a path. An option that
  needs a value but comes last is reported on the error stream and
  otherwise ignored. With no path given, the path list is ["."].
*/
module Cli {
  import opened Text
  import opened Utils

  /** The settings parse fills in. */
  datatype Config = Config(
    paths: seq<string>,
    outputFile: string,
    includePatterns: seq<string>,
    showHelp: bool,
    showVersion: bool)

  /** A freshly constructed Config: everything empty or false. */
  const Default: Config := Config([], "", [], false, false)

  predicate IsHelp(arg: string) { arg == "-h" || arg == "--help" }
  predicate IsVersion(arg: string) { arg == "-v" || arg == "--version" }
  predicate IsOutput(arg: string) { arg == "-o" || arg == "--output" }
  predicate IsInclude(arg: string) { arg == "-i" || arg == "--include" }

  /** The arguments parse gives a meaning of their own. */
  predicate IsOption(arg: string) {
    IsHelp(arg) || IsVersion(arg) || IsOutput(arg) || IsInclude(arg)
  }

  /** The settings after reading args, starting from cfg. */
  function Fold(args: seq<string>, cfg: Config): Config
    decreases |args|
  {
    if args == [] then cfg
    else
      var arg := args[0];
      if IsHelp(arg) then Fold(args[1..], cfg.(showHelp := true))
      else if IsVersion(arg) then Fold(args[1..], cfg.(showVersion := true))
      else if IsOutput(arg) then
        if |args| > 1 then Fold(args[2..], cfg.(outputFile := args[1])) else Fold(args[1..], cfg)
      else if IsInclude(arg) then
        if |args| > 1 then Fold(args[2..], cfg.(includePatterns := cfg.includePatterns + CommaTokens(args[1])))
        else Fold(args[1..], cfg)
      else Fold(args[1..], cfg.(paths := cfg.paths + [arg]))
  }

  /** The arguments after the program name. */
  function Args(argv: seq<string>): seq<string> {
    if argv == [] then [] else argv[1..]
  }

  /** The Config parse returns for argv. */
  function Parsed(argv: seq<string>): Config {
    var cfg := Fold(Args(argv), Default);
    if cfg.paths == [] then cfg.(paths := ["."]) else cfg
  }

  /** CLI::parse: reads argv[1..] one argument (or one option and its
      value) at a time; falls back to the path "." when no path was given. */
  method Parse(argv: seq<string>) returns (cfg: Config)
    ensures cfg == Parsed(argv)
    ensures cfg.paths != []
  {
    cfg := Default;
    var i := 1;
    while i < |argv|
      invariant 1 <= i && (argv != [] ==> i <= |argv|)
      invariant Fold(if i <= |argv| then argv[i..] else [], cfg) == Fold(Args(argv), Default)
      decreases |argv| - i
    {
      var arg := argv[i];
      assert argv[i..][1..] == argv[i + 1..];
      if IsHelp(arg) {
        cfg := cfg.(showHelp := true);
      } else if IsVersion(arg) {
        cfg := cfg.(showVersion := true);
      } else if IsOutput(arg) {
        if i + 1 < |argv| {
          assert argv[i..][2..] == argv[i + 2..];
          i := i + 1;
          cfg := cfg.(outputFile := argv[i]);
        }
      } else if IsInclude(arg) {
        if i + 1 < |argv| {
          assert argv[i..][2..] == argv[i + 2..];
          i := i + 1;
          var patterns := argv[i];
          var included := SplitComma(patterns, cfg.includePatterns);
          cfg := cfg.(includePatterns := included);
        }
      } else {
        cfg := cfg.(paths := cfg.paths + [arg]);
      }
      i := i + 1;
    }
    if cfg.paths == [] {
      cfg := cfg.(paths := ["."]);
    }
  }

  // ---------------------------------------------------------------------
  // What parse promises
  // ---------------------------------------------------------------------

  /** Reading arguments only adds: paths and patterns are appended to, the
      flags are only ever set. */
  lemma {:induction false} FoldExtends(args: seq<string>, cfg: Config)
    ensures var r := Fold(args, cfg);
      && |r.paths| >= |cfg.paths| && r.paths[..|cfg.paths|] == cfg.paths
      && |r.includePatterns| >= |cfg.includePatterns| && r.includePatterns[..|cfg.includePatterns|] == cfg.includePatterns
      && (cfg.showHelp ==> r.showHelp) && (cfg.showVersion ==> r.showVersion)
    decreases |args|
  {
    if args != [] {
      var arg := args[0];
      if IsHelp(arg) {
        FoldExtends(args[1..], cfg.(showHelp := true));
      } else if IsVersion(arg) {
        FoldExtends(args[1..], cfg.(showVersion := true));
      } else if IsOutput(arg) {
        if |args| > 1 {
          FoldExtends(args[2..], cfg.(outputFile := args[1]));
        } else {
          FoldExtends(args[1..], cfg);
        }
      } else if IsInclude(arg) {
        if |args| > 1 {
          var c := cfg.(includePatterns := cfg.includePatterns + CommaTokens(args[1]));
          FoldExtends(args[2..], c);
          var r := Fold(args[2..], c);
          assert r.includePatterns[..|cfg.includePatterns|] == r.includePatterns[..|c.includePatterns|][..|cfg.includePatterns|];
        } else {
          FoldExtends(args[1..], cfg);
        }
      } else {
        var c := cfg.(paths := cfg.paths + [arg]);
        FoldExtends(args[1..], c);
        var r := Fold(args[1..], c);
        assert r.paths[..|cfg.paths|] == r.paths[..|c.paths|][..|cfg.paths|];
      }
    }
  }

  /** The program name is never looked at. */
  lemma Argv0Ignored(name1: string, name2: string, args: seq<string>)
    ensures Parsed([name1] + args) == Parsed([name2] + args)
  {
    assert Args([name1] + args) == args;
    assert Args([name2] + args) == args;
  }

  /** With only flags after the program name, the path list is ["."], and
      each flag is set exactly when it was given. */
  lemma {:induction false} FlagsOnly(args: seq<string>, cfg: Config)
    requires forall k :: 0 <= k < |args| ==> IsHelp(args[k]) || IsVersion(args[k])
    ensures Fold(args, cfg) == cfg.(
      showHelp := cfg.showHelp || exists k :: 0 <= k < |args| && IsHelp(args[k]),
      showVersion := cfg.showVersion || exists k :: 0 <= k < |args| && IsVersion(args[k]))
    decreases |args|
  {
    if args != [] {
      var c := if IsHelp(args[0]) then cfg.(showHelp := true) else cfg.(showVersion := true);
      FlagsOnly(args[1..], c);
      var tail := args[1..];
      assert forall k :: 1 <= k < |args| ==> args[k] == tail[k - 1];
      if exists k :: 0 <= k < |tail| && IsHelp(tail[k]) {
        var k :| 0 <= k < |tail| && IsHelp(tail[k]);
        assert IsHelp(args[k + 1]);
      }
      if exists k :: 0 <= k < |tail| && IsVersion(tail[k]) {
        var k :| 0 <= k < |tail| && IsVersion(tail[k]);
        assert IsVersion(args[k + 1]);
      }
    }
  }

  /** The arguments parse takes as paths: every argument that is neither a
      flag, nor an option taking a value, nor that option's value; an option
      that comes last without its value ends the list. */
  function Positionals(args: seq<string>): seq<string>
    decreases |args|
  {
    if args == [] then []
    else
      var arg := args[0];
      if IsHelp(arg) || IsVersion(arg) then Positionals(args[1..])
      else if IsOutput(arg) || IsInclude(arg) then
        if |args| > 1 then Positionals(args[2..]) else []
      else [arg] + Positionals(args[1..])
  }

  /** Reading args appends exactly their positional arguments, in order, to
      the paths. */
  lemma {:induction false} FoldPositionals(args: seq<string>, cfg: Config)
    ensures Fold(args, cfg).paths == cfg.paths + Positionals(args)
    decreases |args|
  {
    if args == [] {
      assert cfg.paths + [] == cfg.paths;
    } else {
      var arg := args[0];
      if IsHelp(arg) {
        FoldPositionals(args[1..], cfg.(showHelp := true));
      } else if IsVersion(arg) {
        FoldPositionals(args[1..], cfg.(showVersion := true));
      } else if IsOutput(arg) {
        if |args| > 1 {
          FoldPositionals(args[2..], cfg.(outputFile := args[1]));
        } else {
          FoldPositionals(args[1..], cfg);
          assert args[1..] == [];
        }
      } else if IsInclude(arg) {
        if |args| > 1 {
          FoldPositionals(args[2..], cfg.(includePatterns := cfg.includePatterns + CommaTokens(args[1])));
        } else {
          FoldPositionals(args[1..], cfg);
          assert args[1..] == [];
        }
      } else {
        FoldPositionals(args[1..], cfg.(paths := cfg.paths + [arg]));
        AppendAssoc(cfg.paths, [arg], Positionals(args[1..]));
      }
    }
  }

  /** parse returns the positional arguments as its paths, and ["."] when
      there are none. */
  lemma DefaultPath(argv: seq<string>)
    ensures Positionals(Args(argv)) == [] ==> Parsed(argv).paths == ["."]
    ensures Positionals(Args(argv)) != [] ==> Parsed(argv).paths == Positionals(Args(argv))
  {
    FoldPositionals(Args(argv), Default);
    assert Default.paths + Positionals(Args(argv)) == Positionals(Args(argv));
  }

  /** Flags are not positional arguments. */
  lemma {:induction false} FlagsNotPositional(args: seq<string>)
    requires forall k :: 0 <= k < |args| ==> IsHelp(args[k]) || IsVersion(args[k])
    ensures Positionals(args) == []
    decreases |args|
  {
    if args != [] {
      FlagsNotPositional(args[1..]);
    }
  }

  // ---------------------------------------------------------------------
  // The round trip: a Config written as arguments reads back as itself
  // ---------------------------------------------------------------------

  /** The arguments that ask for the patterns ps, one -i per pattern. */
  function IncludeArgs(ps: seq<string>): seq<string> {
    if ps == [] then [] else ["-i", ps[0]] + IncludeArgs(ps[1..])
  }

  /** The flags that ask for help and for the version. */
  function FlagArgs(help: bool, version: bool): seq<string> {
    (if help then ["-h"] else []) + (if version then ["-v"] else [])
  }

  /** A command line that asks for cfg. */
  function Unparse(name: string, cfg: Config): seq<string> {
    [name] + (FlagArgs(cfg.showHelp, cfg.showVersion) + (cfg.paths + (IncludeArgs(cfg.includePatterns) + ["-o", cfg.outputFile])))
  }

  /** The settings a command line can ask for: at least one path, no path
      spelled like an option, every pattern non-empty, trimmed and free of
      commas. */
  predicate WellFormed(cfg: Config) {
    && cfg.paths != []
    && (forall k :: 0 <= k < |cfg.paths| ==> !IsOption(cfg.paths[k]))
    && (forall k :: 0 <= k < |cfg.includePatterns| ==>
          cfg.includePatterns[k] != [] && IsTrimmed(cfg.includePatterns[k]) && ',' !in cfg.includePatterns[k])
  }

  /** split_comma on a single clean pattern gives that pattern. */
  lemma CommaTokensOfPattern(p: string)
    requires p != [] && IsTrimmed(p) && ',' !in p
    ensures CommaTokens(p) == [p]
  {
    IndexOfFirst(p, ',');
    assert Split(p, ',') == [p];
    TrimOfTrimmed(p);
    assert TrimmedNonEmpty([p]) == TrimmedNonEmpty([]) + [Trim(p)];
  }

  /** Paths that are not options are appended as they are. */
  lemma {:induction false} FoldPaths(ps: seq<string>, rest: seq<string>, cfg: Config)
    requires forall k :: 0 <= k < |ps| ==> !IsOption(ps[k])
    ensures Fold(ps + rest, cfg) == Fold(rest, cfg.(paths := cfg.paths + ps))
    decreases |ps|
  {
    if ps != [] {
      assert (ps + rest)[1..] == ps[1..] + rest;
      FoldPaths(ps[1..], rest, cfg.(paths := cfg.paths + [ps[0]]));
      assert cfg.paths + [ps[0]] + ps[1..] == cfg.paths + ps;
    } else {
      assert ps + rest == rest;
      assert cfg.(paths := cfg.paths + ps) == cfg;
    }
  }

  /** An include option with its value appends the value's tokens. */
  lemma FoldInclude(args: seq<string>, cfg: Config)
    requires |args| > 1 && IsInclude(args[0])
    ensures Fold(args, cfg) == Fold(args[2..], cfg.(includePatterns := cfg.includePatterns + CommaTokens(args[1])))
  {
  }

  /** "-i p", p a clean pattern, appends p. */
  lemma IncludeStep(p: string, more: seq<string>, cfg: Config)
    requires p != [] && IsTrimmed(p) && ',' !in p
    ensures Fold(["-i", p] + more, cfg) == Fold(more, cfg.(includePatterns := cfg.includePatterns + [p]))
  {
    var args := ["-i", p] + more;
    assert args[2..] == more;
    FoldInclude(args, cfg);
    CommaTokensOfPattern(p);
  }

  /** Each "-i p" of clean patterns appends p. */
  lemma {:induction false} FoldIncludes(ps: seq<string>, rest: seq<string>, cfg: Config)
    requires forall k :: 0 <= k < |ps| ==> ps[k] != [] && IsTrimmed(ps[k]) && ',' !in ps[k]
    ensures Fold(IncludeArgs(ps) + rest, cfg) == Fold(rest, cfg.(includePatterns := cfg.includePatterns + ps))
    decreases |ps|
  {
    if ps != [] {
      var more := IncludeArgs(ps[1..]) + rest;
      var c1 := cfg.(includePatterns := cfg.includePatterns + [ps[0]]);
      calc {
        Fold(IncludeArgs(ps) + rest, cfg);
        { IncludeArgsCons(ps, rest); }
        Fold(["-i", ps[0]] + more, cfg);
        { IncludeStep(ps[0], more, cfg); }
        Fold(more, c1);
        { FoldIncludes(ps[1..], rest, c1); }
        Fold(rest, c1.(includePatterns := c1.includePatterns + ps[1..]));
        { AppendAssoc(cfg.includePatterns, [ps[0]], ps[1..]); assert [ps[0]] + ps[1..] == ps; }
        Fold(rest, cfg.(includePatterns := cfg.includePatterns + ps));
      }
    } else {
      assert IncludeArgs(ps) + rest == rest;
      assert cfg.(includePatterns := cfg.includePatterns + ps) == cfg;
    }
  }

  /** The arguments of the first pattern come first. */
  lemma IncludeArgsCons(ps: seq<string>, rest: seq<string>)
    requires ps != []
    ensures IncludeArgs(ps) + rest == ["-i", ps[0]] + (IncludeArgs(ps[1..]) + rest)
  {
  }

  /** Flags set what they ask for. */
  lemma FoldFlags(help: bool, version: bool, more: seq<string>, cfg: Config)
    ensures Fold(FlagArgs(help, version) + more, cfg) ==
      Fold(more, cfg.(showHelp := cfg.showHelp || help, showVersion := cfg.showVersion || version))
  {
    var args := FlagArgs(help, version) + more;
    if help && version {
      assert args[1..][1..] == more;
    } else if help || version {
      assert args[1..] == more;
    } else {
      assert args == more;
    }
  }

  /** An output option with its value sets the output file. */
  lemma OutputStep(opt: string, file: string, more: seq<string>, cfg: Config)
    requires IsOutput(opt)
    ensures Fold([opt, file] + more, cfg) == Fold(more, cfg.(outputFile := file))
  {
    assert ([opt, file] + more)[2..] == more;
  }

  /** An option left without its value at the end changes nothing. */
  lemma TrailingOptionIgnored(trailing: seq<string>, cfg: Config)
    requires trailing == [] || (|trailing| == 1 && (IsOutput(trailing[0]) || IsInclude(trailing[0])))
    ensures Fold(trailing, cfg) == cfg
  {
    if trailing != [] {
      assert trailing[1..] == [];
    }
  }

  /** How a written-out command line with trailing arguments is laid out. */
  lemma UnparseShape(name: string, cfg: Config, trailing: seq<string>)
    ensures Args(Unparse(name, cfg) + trailing) ==
      FlagArgs(cfg.showHelp, cfg.showVersion) + (cfg.paths + (IncludeArgs(cfg.includePatterns) + (["-o", cfg.outputFile] + trailing)))
  {
    var f := FlagArgs(cfg.showHelp, cfg.showVersion);
    var p := cfg.paths;
    var inc := IncludeArgs(cfg.includePatterns);
    var o := ["-o", cfg.outputFile];
    var x := f + (p + (inc + o));
    assert Unparse(name, cfg) + trailing == [name] + (x + trailing);
    AppendAssoc(inc, o, trailing);
    AppendAssoc(p, inc + o, trailing);
    AppendAssoc(f, p + (inc + o), trailing);
  }

  /** A Config written out as arguments is parsed back to itself; an
      option left without its value at the end changes nothing. */
  lemma ParseUnparse(name: string, cfg: Config, trailing: seq<string>)
    requires WellFormed(cfg)
    requires trailing == [] || (|trailing| == 1 && (IsOutput(trailing[0]) || IsInclude(trailing[0])))
    ensures Parsed(Unparse(name, cfg) + trailing) == cfg
  {
    var out := ["-o", cfg.outputFile] + trailing;
    var tail := IncludeArgs(cfg.includePatterns) + out;
    var c0 := Default.(showHelp := cfg.showHelp, showVersion := cfg.showVersion);
    var c1 := c0.(paths := cfg.paths);
    var c2 := c1.(includePatterns := cfg.includePatterns);
    calc {
      Fold(Args(Unparse(name, cfg) + trailing), Default);
      { UnparseShape(name, cfg, trailing); }
      Fold(FlagArgs(cfg.showHelp, cfg.showVersion) + (cfg.paths + tail), Default);
      { FoldFlags(cfg.showHelp, cfg.showVersion, cfg.paths + tail, Default); }
      Fold(cfg.paths + tail, c0);
      { FoldPaths(cfg.paths, tail, c0); assert c0.paths + cfg.paths == cfg.paths; }
      Fold(tail, c1);
      { FoldIncludes(cfg.includePatterns, out, c1); assert c1.includePatterns + cfg.includePatterns == cfg.includePatterns; }
      Fold(out, c2);
      { OutputStep("-o", cfg.outputFile, trailing, c2); }
      Fold(trailing, cfg);
      { TrailingOptionIgnored(trailing, cfg); }
      cfg;
    }
  }
}
