/**
 * The command line as `test_parse_arguments` in `include/test/test.h`
 * reads it: `--help` and `--list` set a flag, `--colored`, `--output` and
 * `--filter` take the next argument verbatim, `--` ends the options, and
 * anything else, or a value flag without a value, is refused.
 */
module Arguments {
  import opened Optional

  /** The option fields the scanner sets. */
  datatype Flags = Flags(showHelp: bool, printList: bool,
                         coloredValue: Option<string>, outputValue: Option<string>, filterValue: Option<string>)

  /** The fields after `memset(&options, 0, ...)`. */
  const Cleared: Flags := Flags(false, false, None, None, None)

  /** The scanner's verdict and the fields it has set by then. */
  datatype Scan = Scan(ok: bool, flags: Flags)

  /** Which option field a value flag sets. */
  datatype Field = ColoredValue | OutputValue | FilterValue

  /** What a word where an option could start is, by the comparisons the scanner makes in order. */
  datatype Word = EndOfOptions | HelpSwitch | ListSwitch | ValueFlag(field: Field) | Unknown

  function Classify(word: string): Word {
    if word == "--" then EndOfOptions
    else if word == "--help" then HelpSwitch
    else if word == "--list" then ListSwitch
    else if word == "--colored" then ValueFlag(ColoredValue)
    else if word == "--output" then ValueFlag(OutputValue)
    else if word == "--filter" then ValueFlag(FilterValue)
    else Unknown
  }

  predicate TakesValue(flag: string) {
    Classify(flag).ValueFlag?
  }

  predicate Known(word: string) {
    !Classify(word).Unknown?
  }

  function SetValue(f: Flags, field: Field, value: string): Flags {
    match field
    case ColoredValue => f.(coloredValue := Some(value))
    case OutputValue => f.(outputValue := Some(value))
    case FilterValue => f.(filterValue := Some(value))
  }

  /** Scanning `argv` from index `i` with the fields `f` set so far. */
  function ScanFrom(argv: seq<string>, i: nat, f: Flags): Scan
    decreases |argv| - i
  {
    if i >= |argv| then Scan(true, f)
    else
      match Classify(argv[i])
      case EndOfOptions => Scan(true, f)
      case HelpSwitch => ScanFrom(argv, i + 1, f.(showHelp := true))
      case ListSwitch => ScanFrom(argv, i + 1, f.(printList := true))
      case ValueFlag(field) =>
        if i + 1 >= |argv| then Scan(false, f)
        else ScanFrom(argv, i + 2, SetValue(f, field, argv[i + 1]))
      case Unknown => Scan(false, f)
  }

  /** The whole scan: `argv[0]` is the program name and is skipped, the fields start cleared. */
  function ScanArguments(argv: seq<string>): Scan {
    ScanFrom(argv, 1, Cleared)
  }

  // ---------------------------------------------------------------------
  // A reference reading: options as values, rendered to words
  // ---------------------------------------------------------------------

  /** One option as the user means it. */
  datatype Arg = Help | List | Colored(value: string) | Output(value: string) | Filter(value: string)

  function Words(a: Arg): (w: seq<string>)
    ensures 1 <= |w| <= 2
  {
    match a
    case Help => ["--help"]
    case List => ["--list"]
    case Colored(v) => ["--colored", v]
    case Output(v) => ["--output", v]
    case Filter(v) => ["--filter", v]
  }

  /** The words of a list of options, in order. */
  function Render(args: seq<Arg>): seq<string>
    decreases |args|
  {
    if args == [] then [] else Render(args[..|args| - 1]) + Words(args[|args| - 1])
  }

  function ApplyOne(f: Flags, a: Arg): Flags {
    match a
    case Help => f.(showHelp := true)
    case List => f.(printList := true)
    case Colored(v) => f.(coloredValue := Some(v))
    case Output(v) => f.(outputValue := Some(v))
    case Filter(v) => f.(filterValue := Some(v))
  }

  /** The fields after taking the options in order: a later value replaces an earlier one. */
  function Apply(f: Flags, args: seq<Arg>): Flags
    decreases |args|
  {
    if args == [] then f else ApplyOne(Apply(f, args[..|args| - 1]), args[|args| - 1])
  }

  /** How the scanner classifies the first word of an option. */
  function KindOf(a: Arg): Word {
    match a
    case Help => HelpSwitch
    case List => ListSwitch
    case Colored(_) => ValueFlag(ColoredValue)
    case Output(_) => ValueFlag(OutputValue)
    case Filter(_) => ValueFlag(FilterValue)
  }

  /** The first word of each option is classified as that option. */
  lemma ClassifyWords(a: Arg)
    ensures Classify(Words(a)[0]) == KindOf(a)
  {
    match a
    case Help =>
    case List =>
      assert "--list" != "--help";
    case Colored(_) =>
    case Output(_) =>
    case Filter(_) =>
      assert "--filter" != "--output" by { assert "--filter"[2] != "--output"[2]; }
  }

  /** Scanning the words of one option, wherever they stand, takes exactly those words and applies the option. */
  lemma ScanWordsAt(argv: seq<string>, i: nat, j: nat, a: Arg, f: Flags)
    requires j == i + |Words(a)| <= |argv| && argv[i..j] == Words(a)
    ensures ScanFrom(argv, i, f) == ScanFrom(argv, j, ApplyOne(f, a))
  {
    assert argv[i] == argv[i..j][0];
    ClassifyWords(a);
    if |Words(a)| == 2 {
      assert argv[i + 1] == argv[i..j][1];
    }
  }

  /** Where the words of a list of options stand, those of all but the last option come first and then the last one's. */
  lemma RenderSplit(argv: seq<string>, i: nat, m: nat, e: nat, args: seq<Arg>)
    requires args != [] && m == i + |Render(args[..|args| - 1])|
    requires e == i + |Render(args)| <= |argv| && argv[i..e] == Render(args)
    ensures e == m + |Words(args[|args| - 1])|
    ensures argv[i..m] == Render(args[..|args| - 1]) && argv[m..e] == Words(args[|args| - 1])
  {
    var r := argv[i..e];
    assert r == Render(args[..|args| - 1]) + Words(args[|args| - 1]);
    assert argv[i..m] == r[..m - i];
    assert argv[m..e] == r[m - i..];
  }

  /** Scanning the words of a list of options, wherever they stand, takes exactly those words, values verbatim, and applies the options in order. */
  lemma {:induction false} ScanRendered(argv: seq<string>, i: nat, e: nat, args: seq<Arg>, f: Flags)
    requires e == i + |Render(args)| <= |argv| && argv[i..e] == Render(args)
    ensures ScanFrom(argv, i, f) == ScanFrom(argv, e, Apply(f, args))
    decreases |args|
  {
    if args != [] {
      var init, a := args[..|args| - 1], args[|args| - 1];
      var m := i + |Render(init)|;
      RenderSplit(argv, i, m, e, args);
      ScanRendered(argv, i, m, init, f);
      ScanWordsAt(argv, m, e, a, Apply(f, init));
    }
  }

  /** A command line rendered from options is accepted and sets exactly what those options say. */
  lemma RoundTrip(program: string, args: seq<Arg>)
    ensures ScanArguments([program] + Render(args)) == Scan(true, Apply(Cleared, args))
  {
    var argv := [program] + Render(args);
    assert argv[1..1 + |Render(args)|] == Render(args);
    ScanRendered(argv, 1, 1 + |Render(args)|, args, Cleared);
  }

  /** Everything after a `--` that stands where an option could start is ignored. */
  lemma StopsAtDoubleDash(program: string, args: seq<Arg>, rest: seq<string>)
    ensures ScanArguments([program] + Render(args) + ["--"] + rest) == Scan(true, Apply(Cleared, args))
  {
    var argv := [program] + Render(args) + ["--"] + rest;
    assert argv[1..1 + |Render(args)|] == Render(args);
    ScanRendered(argv, 1, 1 + |Render(args)|, args, Cleared);
    assert argv[1 + |Render(args)|] == "--";
  }

  /** A word that is not an option, where an option could start, is refused. */
  lemma UnknownFlagRefused(program: string, args: seq<Arg>, word: string, rest: seq<string>)
    requires !Known(word)
    ensures !ScanArguments([program] + Render(args) + [word] + rest).ok
  {
    var argv := [program] + Render(args) + [word] + rest;
    assert argv[1..1 + |Render(args)|] == Render(args);
    ScanRendered(argv, 1, 1 + |Render(args)|, args, Cleared);
    assert argv[1 + |Render(args)|] == word;
  }

  /** A value flag as the last word has no value and is refused. */
  lemma MissingValueRefused(program: string, args: seq<Arg>, flag: string)
    requires TakesValue(flag)
    ensures !ScanArguments([program] + Render(args) + [flag]).ok
  {
    var argv := [program] + Render(args) + [flag];
    assert argv[1..1 + |Render(args)|] == Render(args);
    ScanRendered(argv, 1, 1 + |Render(args)|, args, Cleared);
    assert argv[1 + |Render(args)|] == flag;
  }

  /** `--help` and `--list` are set exactly when they occur among the options. */
  lemma {:induction false} SwitchesSet(f: Flags, args: seq<Arg>)
    ensures Apply(f, args).showHelp <==> f.showHelp || Help in args
    ensures Apply(f, args).printList <==> f.printList || List in args
    decreases |args|
  {
    if args != [] {
      SwitchesSet(f, args[..|args| - 1]);
      assert args == args[..|args| - 1] + [args[|args| - 1]];
    }
  }

  /** The last `--output` value wins, and one is set only when some `--output` occurs. */
  lemma {:induction false} LastOutputWins(f: Flags, args: seq<Arg>, v: string)
    ensures Apply(f, args + [Output(v)]).outputValue == Some(v)
    ensures (forall k :: 0 <= k < |args| ==> !args[k].Output?) ==> Apply(f, args).outputValue == f.outputValue
    decreases |args|
  {
    assert (args + [Output(v)])[..|args|] == args;
    if args != [] {
      LastOutputWins(f, args[..|args| - 1], v);
    }
  }
}
