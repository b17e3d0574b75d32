/**
 * The global state of the harness in `include/test/test.h` (`options`,
 * `test_register`, `test_runner` and the log) as one object, and the
 * functions that change it: argument and option parsing, the filter parser,
 * the registry build of `test_init`, the case filter, the runner and the
 * listing.
 */
module Harness {
  import opened Optional
  import opened Sequences
  import Matcher
  import FilterText
  import Arguments
  import opened HarnessSpec
  import Percentages

  /** Which option field a value flag writes (`second_argument_target`). */
  datatype Target = NoTarget | ColoredField | OutputField | FilterField

  /**
   * The scalar members of the `options` struct; its pattern offsets and the
   * pattern buffer are arrays of the harness.
   */
  datatype Options = Options(colored: bool, showHelp: bool, printList: bool,
                             coloredValue: Option<string>, outputValue: Option<string>, filterValue: Option<string>,
                             outputStream: Stream, filterPatternCount: nat)

  /** `options` after `memset(&options, 0, sizeof(options))`. */
  const Zeroed: Options := Options(false, false, false, None, None, None, NoStream, 0)

  /**
   * The loop of `test_parse_arguments` from index 1: each word is compared
   * with the option names in order; `--` ends the scan successfully, an
   * unknown word or a value flag without a value ends it with failure. The
   * scan sets only the flag and value fields.
   */
  method ScanOptions(argv: seq<string>, start: Options) returns (ok: bool, o: Options)
    ensures ok == Arguments.ScanFrom(argv, 1, FlagsOf(start)).ok
    ensures FlagsOf(o) == Arguments.ScanFrom(argv, 1, FlagsOf(start)).flags
    ensures o.colored == start.colored && o.outputStream == start.outputStream
    ensures o.filterPatternCount == start.filterPatternCount
  {
    o, ok := start, true;
    var i := 1;
    var stopped := false;
    while !stopped && i < |argv|
      invariant 1 <= i
      invariant !stopped ==> ok && Arguments.ScanFrom(argv, i, FlagsOf(o)) == Arguments.ScanFrom(argv, 1, FlagsOf(start))
      invariant stopped ==> Arguments.Scan(ok, FlagsOf(o)) == Arguments.ScanFrom(argv, 1, FlagsOf(start))
      invariant o.colored == start.colored && o.outputStream == start.outputStream
      invariant o.filterPatternCount == start.filterPatternCount
      decreases |argv| - i, !stopped
    {
      var target := NoTarget;
      var isValidArgument := false;
      if argv[i] == "--" {
        stopped := true;
      } else if argv[i] == "--help" {
        isValidArgument := true;
        o := o.(showHelp := true);
      } else if argv[i] == "--list" {
        isValidArgument := true;
        o := o.(printList := true);
      } else if argv[i] == "--colored" {
        isValidArgument := true;
        target := ColoredField;
      } else if argv[i] == "--output" {
        isValidArgument := true;
        target := OutputField;
      } else if argv[i] == "--filter" {
        isValidArgument := true;
        target := FilterField;
      }

      if stopped {
      } else if !isValidArgument {
        ok, stopped := false, true;
      } else if target != NoTarget && i + 1 >= |argv| {
        ok, stopped := false, true;
      } else {
        if target == ColoredField {
          o := o.(coloredValue := Some(argv[i + 1]));
        } else if target == OutputField {
          o := o.(outputValue := Some(argv[i + 1]));
        } else if target == FilterField {
          o := o.(filterValue := Some(argv[i + 1]));
        }
        i := if target == NoTarget then i + 1 else i + 2;
      }
    }
  }

  /** The option fields the argument scanner sets. */
  function FlagsOf(o: Options): Arguments.Flags {
    Arguments.Flags(o.showHelp, o.printList, o.coloredValue, o.outputValue, o.filterValue)
  }

  /** What `test_parse_options` accepts, given the scanned fields and the state of the file system. */
  predicate OptionsAccepted(f: Arguments.Flags, outputExists: bool, outputOpens: bool) {
    OutputAccepted(f.outputValue, outputExists, outputOpens) &&
    ColorAccepted(ColorSetting(f.coloredValue)) &&
    (f.filterValue.None? || FilterText.FilterAccepted(f.filterValue.value))
  }

  /** The filter patterns `test_init` leaves: none without `--filter`, otherwise the segments of its value. */
  function InitPatterns(f: Arguments.Flags): seq<string> {
    if f.filterValue.None? then [] else FilterText.FilterPatterns(f.filterValue.value)
  }

  class Harness {
    var options: Options
    /** `filter_pattern`: the offset of each pattern in `filterPatternBuffer`. */
    const filterPattern: array<nat>
    var filterPatternBuffer: array<char>

    // test_register
    var totalSuits: nat
    var totalTests: nat
    var suitList: array<Suit>

    // test_runner
    var runner: Runner

    /** Everything written to the output stream so far, and the calls made. */
    var log: seq<Event>

    /** The buffers have their fixed sizes, are distinct, and the pattern count fits the offsets. */
    ghost predicate Buffers()
      reads this`options, this`filterPatternBuffer
    {
      filterPattern.Length == FilterText.FilterCountLimit &&
      options.filterPatternCount <= FilterText.FilterCountLimit
    }

    /** The registry agrees with the suite count and the case total. */
    ghost predicate Registered()
      reads this`options, this`filterPatternBuffer, this`totalSuits, this`totalTests, this`suitList, suitList
    {
      Buffers() &&
      suitList.Length == totalSuits &&
      totalTests == TestTotal(suitList[..])
    }

    ghost predicate Valid()
      reads this`options, this`filterPatternBuffer, this`totalSuits, this`totalTests,
            this`suitList, this`runner, suitList
    {
      Registered() && Reportable(runner, totalTests)
    }

    /** The parsed filter patterns, in order: the C string at each recorded offset. */
    function Patterns(): seq<string>
      reads this`options, this`filterPatternBuffer, filterPattern, filterPatternBuffer
      requires options.filterPatternCount <= filterPattern.Length
    {
      FilterText.PatternsOf(filterPatternBuffer[..], filterPattern[..], options.filterPatternCount)
    }

    /** Every registered case with its suite, in the order the run loops visit them. */
    function Entries(): seq<Entry>
      reads this`suitList, suitList
    {
      Flatten(suitList[..])
    }

    /** The zero-initialised globals. */
    constructor ()
      ensures Valid()
      ensures options == Zeroed && totalSuits == 0 && totalTests == 0
      ensures runner == Reset && log == []
    {
      options := Zeroed;
      filterPattern := new nat[FilterText.FilterCountLimit](_ => 0);
      filterPatternBuffer := new char[0];
      totalSuits, totalTests := 0, 0;
      suitList := new Suit[0];
      runner := Reset;
      log := [];
    }

    /** `test_suit_find_by_name`: the first registered suite with this name. */
    method FindSuitByName(name: string) returns (r: Option<nat>)
      requires suitList.Length == totalSuits
      ensures r == FindSuit(SuitDatas(suitList[..]), name)
    {
      var i := 0;
      while i < totalSuits
        invariant 0 <= i <= totalSuits
        invariant forall k :: 0 <= k < i ==> suitList[k].suitData.name != name
      {
        if suitList[i].suitData.name == name {
          return Some(i);
        }
        i := i + 1;
      }
      return None;
    }

    /**
     * `test_init`: parses the arguments, stops after the help text when
     * `--help` is given, parses the options, builds the registry, and with
     * `--list` lists the cases that would run and stops. It returns true
     * exactly when the harness is ready to run. The suite and case
     * descriptors stand for the two linker sections, and their names are
     * those the `SUIT` and `TEST` macros produce.
     */
    method Init(argv: seq<string>, suits: seq<SuitData>, cases: seq<TestCase>,
                outputExists: bool, outputOpens: bool, isTty: bool) returns (ok: bool)
      requires Valid() && |suits| > 0
      requires DescriptorNames(suits, cases)
      modifies this`options, this`filterPatternBuffer, filterPattern
      modifies this`runner, this`totalSuits, this`totalTests, this`suitList, this`log
      ensures var scan := Arguments.ScanArguments(argv);
        ok <==> scan.ok && !scan.flags.showHelp && OptionsAccepted(scan.flags, outputExists, outputOpens) &&
                FirstUnknown(suits, cases) == |cases| && !scan.flags.printList
      ensures var scan := Arguments.ScanArguments(argv);
        scan.ok && scan.flags.showHelp ==> log == old(log) + [HelpText]
      ensures var scan := Arguments.ScanArguments(argv);
        scan.ok && !scan.flags.showHelp && OptionsAccepted(scan.flags, outputExists, outputOpens) &&
        FirstUnknown(suits, cases) == |cases| && scan.flags.printList ==>
          log == old(log) + Listing(Registry(suits, cases), InitPatterns(scan.flags))
      ensures ok ==> Valid() && suitList[..] == Registry(suits, cases) && runner == Reset && log == old(log)
      ensures ok ==> Patterns() == InitPatterns(Arguments.ScanArguments(argv).flags)
    {
      ok := ParseArguments(argv);
      if !ok {
        return false;
      }
      if options.showHelp {
        log := log + [HelpText];
        return false;
      }
      ghost var flags := FlagsOf(options);
      ok := ParseOptions(outputExists, outputOpens, isTty);
      if !ok {
        return false;
      }
      ghost var patterns := Patterns();
      assert patterns == InitPatterns(flags);
      ok := RegisterAndList(suits, cases);
    }

    /** The second half of `test_init`: the registry build, then the listing when `--list` is given. */
    method RegisterAndList(suits: seq<SuitData>, cases: seq<TestCase>) returns (ok: bool)
      requires Buffers() && |suits| > 0
      requires DescriptorNames(suits, cases)
      modifies this`runner, this`totalSuits, this`totalTests, this`suitList, this`log
      ensures ok <==> FirstUnknown(suits, cases) == |cases| && !options.printList
      ensures FirstUnknown(suits, cases) == |cases| && options.printList ==>
        log == old(log) + Listing(Registry(suits, cases), Patterns())
      ensures ok ==> Valid() && suitList[..] == Registry(suits, cases) && runner == Reset && log == old(log)
    {
      assert cases[..|cases|] == cases;
      ok := BuildRegistry(suits, cases);
      if !ok {
        assert FirstUnknown(suits, cases) < |cases|;
        return;
      }
      if options.printList {
        ListRegistry(suits, cases);
        ok := false;
      }
    }

    /** The listing `test_init` prints for `--list`, of a registry built from `suits` and `cases`. */
    method ListRegistry(suits: seq<SuitData>, cases: seq<TestCase>)
      requires Valid() && suitList[..] == Registry(suits, cases)
      requires DescriptorNames(suits, cases)
      modifies this`log
      ensures log == old(log) + Listing(Registry(suits, cases), Patterns())
    {
      RegistryNames(suits, cases);
      ListAll();
    }

    /**
     * The registry build of `test_init`: resets the counters, allocates one
     * suite per suite descriptor in section order, then appends every case,
     * in section order, to the first suite of its name. The suite of the
     * previous case is kept and looked up again only when the name changes.
     * An unknown suite name is reported and stops the build, keeping the
     * cases registered before it.
     */
    method BuildRegistry(suits: seq<SuitData>, cases: seq<TestCase>) returns (ok: bool)
      requires Buffers() && |suits| > 0
      modifies this`runner, this`totalSuits, this`totalTests, this`suitList, this`log
      ensures Valid() && fresh(suitList) && runner == Reset
      ensures ok <==> FirstUnknown(suits, cases) == |cases|
      ensures suitList[..] == Registry(suits, cases[..FirstUnknown(suits, cases)])
      ensures totalSuits == |suits| && totalTests == FirstUnknown(suits, cases)
      ensures ok ==> log == old(log)
      ensures !ok ==> log == old(log) + [UnknownSuite(cases[FirstUnknown(suits, cases)].suitName, cases[FirstUnknown(suits, cases)].name)]
    {
      runner := Reset;
      totalSuits, totalTests := |suits|, 0;
      suitList := RegisterSuits(suits);
      var j := RegisterResolved(suits, cases);
      ok := j == |cases|;
      if !ok {
        log := log + [UnknownSuite(cases[j].suitName, cases[j].name)];
      }
    }

    /** The suite pass of the registry build: each suite takes its descriptor, in section order. */
    method RegisterSuits(suits: seq<SuitData>) returns (list: array<Suit>)
      ensures fresh(list) && list[..] == Registry(suits, [])
    {
      list := new Suit[|suits|](_ => Suit([], SuitData([], false, false)));
      var suitIndex := 0;
      while suitIndex < |suits|
        invariant 0 <= suitIndex <= |suits| && list.Length == |suits|
        invariant fresh(list)
        invariant forall k :: 0 <= k < suitIndex ==> list[k] == Suit([], suits[k])
        invariant forall k :: suitIndex <= k < |suits| ==> list[k].testList == []
      {
        list[suitIndex] := list[suitIndex].(suitData := suits[suitIndex]);
        suitIndex := suitIndex + 1;
      }
      RegistryEmpty(suits);
    }

    /** The loop of the case pass: it registers cases until one names no suite, and says how many it registered. */
    method RegisterResolved(suits: seq<SuitData>, cases: seq<TestCase>) returns (j: nat)
      requires suitList.Length == totalSuits && totalTests == 0 && suitList[..] == Registry(suits, [])
      modifies suitList, this`totalTests
      ensures j == FirstUnknown(suits, cases)
      ensures suitList[..] == Registry(suits, cases[..j]) && totalTests == j && totalTests == TestTotal(suitList[..])
    {
      assert cases[..0] == [];
      var lastSuit: Option<nat> := None;
      var currentSuit: Option<nat> := None;
      var stopped := false;
      j := 0;
      while !stopped && j < |cases|
        invariant 0 <= j <= |cases| && totalTests == j
        invariant j <= FirstUnknown(suits, cases)
        invariant suitList[..] == Registry(suits, cases[..j])
        invariant stopped ==> j < |cases| && !Resolves(suits, cases[j])
        invariant !stopped ==> (j == 0 ==> currentSuit.None? && lastSuit.None?)
        invariant !stopped ==> (j > 0 ==> currentSuit == lastSuit && Cached(suits, currentSuit))
        decreases |cases| - j, !stopped
      {
        currentSuit := RegisterNext(suits, cases, j, lastSuit, currentSuit);
        if currentSuit.None? {
          stopped := true;
        } else {
          lastSuit := currentSuit;
          j := j + 1;
        }
      }
      RegistryStops(suits, cases, j);
    }

    /** One iteration of the case pass: case `j` is looked up through the cache and, when its suite exists, appended. */
    method RegisterNext(suits: seq<SuitData>, cases: seq<TestCase>, j: nat, lastSuit: Option<nat>, currentSuit: Option<nat>)
      returns (current: Option<nat>)
      requires j < |cases| && j <= FirstUnknown(suits, cases) && totalTests == j
      requires suitList.Length == totalSuits && suitList[..] == Registry(suits, cases[..j])
      requires (currentSuit.None? && lastSuit.None?) || (currentSuit == lastSuit && Cached(suits, currentSuit))
      modifies suitList, this`totalTests
      ensures current == FindSuit(suits, cases[j].suitName)
      ensures current.None? ==> suitList[..] == old(suitList[..]) && totalTests == j
      ensures current.Some? ==> Cached(suits, current) && j + 1 <= FirstUnknown(suits, cases) &&
                                suitList[..] == Registry(suits, cases[..j + 1]) && totalTests == j + 1
    {
      current := CachedLookup(suits, cases[..j], cases[j], lastSuit, currentSuit);
      if current.Some? {
        PastResolved(suits, cases, j);
        AppendCase(suits, cases, j, current.value);
      }
    }

    /**
     * The suite lookup of the case pass: the suite of the previous case is
     * kept unless this case names another, in which case it is looked up
     * again. The cache always agrees with a full lookup.
     */
    method CachedLookup(suits: seq<SuitData>, ghost registered: seq<TestCase>, testCase: TestCase,
                        lastSuit: Option<nat>, currentSuit: Option<nat>) returns (current: Option<nat>)
      requires suitList.Length == totalSuits && suitList[..] == Registry(suits, registered)
      requires (currentSuit.None? && lastSuit.None?) || (currentSuit == lastSuit && Cached(suits, currentSuit))
      ensures current == FindSuit(suits, testCase.suitName)
      ensures current.Some? ==> Cached(suits, current)
    {
      RegistrySuitDatas(suits, registered);
      current := currentSuit;
      if current.None? || (lastSuit.Some? && suitList[lastSuit.value].suitData.name != testCase.suitName) {
        current := FindSuitByName(testCase.suitName);
      } else {
        assert suitList[lastSuit.value].suitData == suits[lastSuit.value];
      }
    }

    /** Appends case `j` to the list of the suite it resolves to and counts it. */
    method AppendCase(suits: seq<SuitData>, cases: seq<TestCase>, j: nat, k: nat)
      requires j < |cases| && suitList[..] == Registry(suits, cases[..j]) && totalTests == j
      requires FindSuit(suits, cases[j].suitName) == Some(k)
      modifies suitList, this`totalTests
      ensures suitList[..] == Registry(suits, cases[..j + 1]) && totalTests == j + 1
    {
      var testCase := cases[j];
      ghost var before := suitList[..];
      RegistryStep(suits, cases[..j], testCase, k);
      suitList[k] := suitList[k].(testList := suitList[k].testList + [testCase]);
      assert suitList[..] == before[k := before[k].(testList := before[k].testList + [testCase])];
      totalTests := totalTests + 1;
      TakeOneMore(cases, j);
    }

    /**
     * `test_parse_arguments`: clears the options, then scans `argv` from
     * index 1 as `Arguments.ScanArguments` says.
     */
    method ParseArguments(argv: seq<string>) returns (ok: bool)
      requires Valid()
      modifies this`options, this`filterPatternBuffer, filterPattern
      ensures Valid()
      ensures ok == Arguments.ScanArguments(argv).ok && FlagsOf(options) == Arguments.ScanArguments(argv).flags
      ensures !options.colored && options.outputStream == NoStream && options.filterPatternCount == 0
      ensures Patterns() == []
      ensures fresh(filterPatternBuffer) && forall k :: 0 <= k < filterPattern.Length ==> filterPattern[k] == 0
    {
      forall k | 0 <= k < filterPattern.Length {
        filterPattern[k] := 0;
      }
      assert suitList[..] == old(suitList[..]);
      options := Zeroed;
      filterPatternBuffer := new char[0];

      ok, options := ScanOptions(argv, options);
    }

    /**
     * `test_parse_filter`: copies the filter value into a fresh zeroed buffer
     * of its length plus one, leaving a NUL in place of every comma, and
     * records where each pattern starts. It succeeds exactly when the value is
     * accepted, and then the recorded patterns are the value's segments.
     */
    method ParseFilter() returns (ok: bool)
      requires Valid() && options.filterValue.Some?
      modifies this`options, this`filterPatternBuffer, filterPattern
      ensures Valid()
      ensures fresh(filterPatternBuffer) && filterPatternBuffer.Length == |old(options).filterValue.value| + 1
      ensures ok <==> FilterText.FilterAccepted(old(options).filterValue.value)
      ensures ok ==> options == old(options).(filterPatternCount := |FilterText.FilterPatterns(old(options).filterValue.value)|)
      ensures ok ==> Patterns() == FilterText.FilterPatterns(old(options).filterValue.value)
      ensures !ok ==> options == old(options)
    {
      var raw := options.filterValue.value;
      filterPatternBuffer := new char[|raw| + 1](_ => FilterText.NUL);
      var filterCount;
      ok, filterCount := FillPatterns(raw);
      if ok {
        options := options.(filterPatternCount := filterCount);
      }
    }

    /**
     * The loop of `test_parse_filter` over the characters of `raw`, filling
     * the pattern buffer and the pattern offsets; `filterCount` is the number
     * of patterns it closed.
     */
    method FillPatterns(raw: string) returns (ok: bool, filterCount: nat)
      requires filterPatternBuffer.Length == |raw| + 1 && filterPattern.Length == FilterText.FilterCountLimit
      requires forall j :: 0 <= j <= |raw| ==> filterPatternBuffer[j] == FilterText.NUL
      modifies filterPatternBuffer, filterPattern
      ensures ok <==> FilterText.FilterAccepted(raw)
      ensures ok ==> filterCount == |FilterText.FilterPatterns(raw)| <= FilterText.FilterCountLimit
      ensures ok ==> FilterText.PatternsOf(filterPatternBuffer[..], filterPattern[..], filterCount) == FilterText.FilterPatterns(raw)
    {
      var n := |raw|;
      var length, filterStartIndex := 0, 0;
      filterCount := 0;

      var i := 0;
      var refused := false;
      while !refused && i < n
        invariant 0 <= i <= n
        invariant refused ==> i < n && FilterText.ParseTo(raw, i + 1) == FilterText.Refused
        invariant !refused ==> forall j :: 0 <= j < i ==> filterPatternBuffer[j] == FilterText.Mask(raw[j])
        invariant !refused ==> forall j :: i <= j <= n ==> filterPatternBuffer[j] == FilterText.NUL
        invariant filterCount <= FilterText.FilterCountLimit
        invariant !refused ==>
          FilterText.ParseTo(raw, i) == FilterText.Parsing(length, filterCount, filterStartIndex, filterPattern[..filterCount])
        decreases n - i, !refused
      {
        refused, length, filterCount, filterStartIndex := FillStep(raw, i, length, filterCount, filterStartIndex);
        if !refused {
          i := i + 1;
        }
      }

      FilterText.ParseOutcome(raw);
      if refused {
        FilterText.RefusedStays(raw, i + 1, n);
        return false, filterCount;
      }
      if n > 0 {
        FilterText.BufferPatterns(raw, filterPatternBuffer[..]);
      }
      return true, filterCount;
    }

    /** One iteration of `test_parse_filter`'s loop, on the character at index `i`. */
    method FillStep(raw: string, i: nat, length: nat, filterCount: nat, filterStartIndex: nat)
      returns (refused: bool, nextLength: nat, nextCount: nat, nextStart: nat)
      requires i < |raw| && filterPatternBuffer.Length == |raw| + 1 && filterPattern.Length == FilterText.FilterCountLimit
      requires filterCount <= FilterText.FilterCountLimit
      requires forall j :: 0 <= j < i ==> filterPatternBuffer[j] == FilterText.Mask(raw[j])
      requires forall j :: i <= j <= |raw| ==> filterPatternBuffer[j] == FilterText.NUL
      requires FilterText.ParseTo(raw, i) == FilterText.Parsing(length, filterCount, filterStartIndex, filterPattern[..filterCount])
      modifies filterPatternBuffer, filterPattern
      ensures nextCount <= FilterText.FilterCountLimit
      ensures refused ==> FilterText.ParseTo(raw, i + 1) == FilterText.Refused
      ensures !refused ==> forall j :: 0 <= j < i + 1 ==> filterPatternBuffer[j] == FilterText.Mask(raw[j])
      ensures !refused ==> forall j :: i + 1 <= j <= |raw| ==> filterPatternBuffer[j] == FilterText.NUL
      ensures !refused ==>
        FilterText.ParseTo(raw, i + 1) == FilterText.Parsing(nextLength, nextCount, nextStart, filterPattern[..nextCount])
    {
      var n := |raw|;
      var currentChar := raw[i];
      refused, nextLength, nextCount, nextStart := false, length, filterCount, filterStartIndex;

      if FilterText.PatternChar(currentChar) {
        filterPatternBuffer[i] := currentChar;
        nextLength := length + 1;
      } else if currentChar != ',' {
        return true, nextLength, nextCount, nextStart;
      }

      if currentChar == ',' || i + 1 >= n {
        if nextLength == 0 || (currentChar == ',' && i + 1 >= n) {
          return true, nextLength, nextCount, nextStart;
        }
        if filterCount >= FilterText.FilterCountLimit {
          return true, nextLength, nextCount, nextStart;
        }
        filterPattern[filterCount] := filterStartIndex;
        nextStart := i + 1;
        nextCount := filterCount + 1;
        nextLength := 0;
      }
    }

    /**
     * `test_parse_options`: opens the output (refusing an existing file or
     * one that cannot be opened), defaults `--colored` to `auto` and derives
     * the colour flag from it, then parses the filter when one is given.
     * `outputExists`, `outputOpens` and `isTty` stand for `access`, `fopen`
     * and `isatty` on the chosen stream.
     */
    method ParseOptions(outputExists: bool, outputOpens: bool, isTty: bool) returns (ok: bool)
      requires Valid()
      modifies this`options, this`filterPatternBuffer, filterPattern
      ensures Valid()
      ensures ok <==> OptionsAccepted(FlagsOf(old(options)), outputExists, outputOpens)
      ensures var o := old(options); var setting := ColorSetting(o.coloredValue);
        OutputAccepted(o.outputValue, outputExists, outputOpens) && ColorAccepted(setting) ==>
          options.outputStream == (if o.outputValue.None? then Stdout else File(o.outputValue.value)) &&
          FlagsOf(options) == FlagsOf(o).(coloredValue := Some(setting)) &&
          options.colored == ColorChoice(setting, isTty)
      ensures ok ==> Patterns() == if old(options).filterValue.None? then old(Patterns())
                                   else FilterText.FilterPatterns(old(options).filterValue.value)
    {
      ok := ParseStreamOptions(outputExists, outputOpens, isTty);
      if !ok {
        return false;
      }
      if options.filterValue.Some? {
        ok := ParseFilter();
        if !ok {
          return false;
        }
      }
      return true;
    }

    /**
     * The output and colour part of `test_parse_options`, which stops at the
     * first option it refuses and keeps what it has set by then.
     */
    method ParseStreamOptions(outputExists: bool, outputOpens: bool, isTty: bool) returns (ok: bool)
      modifies this`options
      ensures ok <==> OutputAccepted(old(options).outputValue, outputExists, outputOpens) && ColorAccepted(ColorSetting(old(options).coloredValue))
      ensures var o := old(options); var setting := ColorSetting(o.coloredValue);
        if !OutputAccepted(o.outputValue, outputExists, outputOpens) then options == o
        else
          options == o.(outputStream := if o.outputValue.None? then Stdout else File(o.outputValue.value),
                        coloredValue := Some(setting),
                        colored := if ColorAccepted(setting) then ColorChoice(setting, isTty) else o.colored)
    {
      var o := options;
      if o.outputValue.Some? {
        if outputExists {
          return false;
        }
        if !outputOpens {
          return false;
        }
        o := o.(outputStream := File(o.outputValue.value));
      } else {
        o := o.(outputStream := Stdout);
      }

      if o.coloredValue.None? {
        o := o.(coloredValue := Some("auto"));
      }
      var option := o.coloredValue.value;
      if option == "auto" {
        o := o.(colored := isTty);
      } else if option == "always" {
        o := o.(colored := true);
      } else if option == "never" {
        o := o.(colored := false);
      } else {
        options := o;
        return false;
      }
      options := o;
      return true;
    }

    /**
     * `test_filter_case`: composes `suite:case` in the name buffer (left all
     * NUL when it does not fit) and tries the patterns in order. A match
     * means the case is selected; for names without `*` (every name the
     * `SUIT` and `TEST` macros produce) it is exactly selection.
     */
    method FilterCase(suitName: string, testName: string) returns (matched: bool)
      requires Buffers() && CText(suitName) && CText(testName)
      ensures matched ==> Selects(suitName, testName, Patterns())
      ensures Matcher.NoStar(suitName) && Matcher.NoStar(testName) ==> (matched <==> Selects(suitName, testName, Patterns()))
    {
      var nameBuffer := new char[FilterText.FilterSizeLimit](_ => FilterText.NUL);
      if |suitName| + |testName| + 1 > FilterText.FilterSizeLimit {
        assert nameBuffer[..] == NameBuffer(suitName, testName);
        return false;
      }
      forall k | 0 <= k < |suitName| {
        nameBuffer[k] := suitName[k];
      }
      nameBuffer[|suitName|] := ':';
      forall k | 0 <= k < |testName| {
        nameBuffer[|suitName| + 1 + k] := testName[k];
      }
      assert nameBuffer[..] == NameBuffer(suitName, testName) by {
        forall j | 0 <= j < FilterText.FilterSizeLimit ensures nameBuffer[j] == NameBuffer(suitName, testName)[j] {
          NameBufferAt(suitName, testName, j);
        }
      }
      NameBufferReads(suitName, testName);

      var name := FilterText.CString(nameBuffer[..], 0);
      if Matcher.NoStar(suitName) && Matcher.NoStar(testName) {
        ComposedNoStar(suitName, testName);
      }
      matched := MatchesAny(name);
    }

    /** The pattern loop of `test_filter_case`: tries the patterns in order and stops at the first match. */
    method MatchesAny(name: string) returns (matched: bool)
      requires Buffers()
      ensures matched ==> AnyMatch(name, Patterns())
      ensures Matcher.NoStar(name) ==> (matched <==> AnyMatch(name, Patterns()))
    {
      ghost var patterns := Patterns();
      var i := 0;
      while i < options.filterPatternCount
        invariant 0 <= i <= options.filterPatternCount
        invariant Matcher.NoStar(name) ==> !AnyMatch(name, patterns[..i])
      {
        var pattern := FilterText.CString(filterPatternBuffer[..], filterPattern[i]);
        assert pattern == patterns[i];
        assert patterns[..i + 1][..i] == patterns[..i];
        var isMatch := Matcher.WildcardMatch(name, pattern);
        if isMatch {
          AnyMatchPrefix(name, patterns, i + 1);
          return true;
        }
        i := i + 1;
      }
      assert patterns[..i] == patterns;
      return false;
    }

    /** `test_runner_run_test`: logs the case, runs setup, body and teardown, counts and logs the outcome. */
    method RunTest(test: TestCase, suit: SuitData)
      modifies this`log, this`runner
      ensures log == old(log) + TestLog(Entry(suit, test), options.colored)
      ensures runner == Record(old(runner), Exec(test.body, Ok))
    {
      var colored := options.colored;
      var result := Ok;
      result := Exec(test.body, result);
      var counts := runner.(attempted := runner.attempted + 1);
      match result {
        case Ok => counts := counts.(successful := counts.successful + 1);
        case PartiallyOk => counts := counts.(partially := counts.partially + 1);
        case Skipped => counts := counts.(skipped := counts.skipped + 1);
        case Failed => counts := counts.(failed := counts.failed + 1);
      }
      runner := counts;
      var setup: seq<Event> := [];
      if suit.hasSetup {
        setup := [SetupCalled(suit.name)];
      }
      var teardown: seq<Event> := [];
      if suit.hasTeardown {
        teardown := [TeardownCalled(suit.name)];
      }
      log := log + ([Running(test.fileName, test.line, suit.name, test.name, colored)] + setup +
                    [BodyCalled(suit.name, test.name)] + BodyLog(test.body) + teardown +
                    [Outcome(ResultString(result, colored))]);
    }

    /** `test_runner_report`: each counter's share of `total_tests`, truncated, 0 for a zero counter. */
    method Report()
      requires Reportable(runner, totalTests)
      modifies this`log
      ensures log == old(log) + ReportLog(runner, totalTests)
    {
      var counts, total := runner, totalTests;
      var failedPercent := Percentages.Percent(counts.failed, total);
      var skippedPercent := Percentages.Percent(counts.skipped, total);
      var successPercent := Percentages.Percent(counts.successful, total);
      var partialPercent := Percentages.Percent(counts.partially, total);

      log := log + [Attempted(counts.attempted, total)];
      log := log + [Tally("successful", counts.successful, successPercent)];
      log := log + [Tally("failed", counts.failed, failedPercent)];
      log := log + [Tally("partially", counts.partially, partialPercent)];
      log := log + [Tally("skipped", counts.skipped, skippedPercent)];
    }

    /**
     * `test_run_all`: visits every case suite by suite; a case the filter
     * does not select counts as skipped, and a case runs when there are no
     * patterns or the filter selects it; then the report.
     */
    method RunAll()
      requires Valid() && RegisteredNames(suitList[..])
      modifies this`log, this`runner
      ensures Valid()
      ensures runner == RunEffect(old(runner), Entries(), Patterns())
      ensures log == old(log) + RunLog(RunSet(Entries(), Patterns()), options.colored) + ReportLog(runner, totalTests)
    {
      RunSuites();
      assert Registered();
      assert |Entries()| == totalTests;
      Report();
    }

    /** The loops of `test_run_all` over the suites and their cases, before the report. */
    method RunSuites()
      requires Valid() && RegisteredNames(suitList[..])
      modifies this`log, this`runner
      ensures runner == RunEffect(old(runner), Entries(), Patterns())
      ensures log == old(log) + RunLog(RunSet(Entries(), Patterns()), options.colored)
    {
      ghost var patterns, start, log0 := Patterns(), runner, log;
      var i := 0;
      while i < totalSuits
        modifies this`log, this`runner
        invariant 0 <= i <= totalSuits
        invariant Patterns() == patterns
        invariant runner == RunEffect(start, Flatten(suitList[..i]), patterns)
        invariant log == log0 + RunLog(RunSet(Flatten(suitList[..i]), patterns), options.colored)
      {
        var suit := suitList[i];
        assert suitList[..][i] == suit;
        ghost var visited := Flatten(suitList[..i]);
        RunSuitFiltered(suit, patterns);
        RunEffectAppend(start, visited, Pairs(suit), patterns);
        RunLogConcat(log0, visited, Pairs(suit), patterns, options.colored);
        FlattenStep(suitList[..], i);
        assert suitList[..][..i + 1] == suitList[..i + 1];
        i := i + 1;
      }
      assert suitList[..i] == suitList[..];
    }

    /** The inner loop of `test_run_all` over the cases of one suite. */
    method RunSuitFiltered(suit: Suit, ghost patterns: seq<string>)
      requires Buffers() && Patterns() == patterns
      requires MacroName(suit.suitData.name) && forall j :: 0 <= j < |suit.testList| ==> MacroName(suit.testList[j].name)
      modifies this`log, this`runner
      ensures runner == RunEffect(old(runner), Pairs(suit), patterns)
      ensures log == old(log) + RunLog(RunSet(Pairs(suit), patterns), options.colored)
    {
      ghost var start, log0 := runner, log;
      var j := 0;
      while j < |suit.testList|
        modifies this`log, this`runner
        invariant 0 <= j <= |suit.testList|
        invariant runner == RunEffect(start, Pairs(suit)[..j], patterns)
        invariant log == log0 + RunLog(RunSet(Pairs(suit)[..j], patterns), options.colored)
      {
        VisitNext(suit, j, start, log0, patterns);
        j := j + 1;
      }
      assert Pairs(suit)[..j] == Pairs(suit);
    }

    /** One iteration of the inner loop of `test_run_all`: case `j` of the suite is visited. */
    method VisitNext(suit: Suit, j: nat, ghost start: Runner, ghost log0: seq<Event>, ghost patterns: seq<string>)
      requires j < |suit.testList| && Buffers() && Patterns() == patterns
      requires MacroName(suit.suitData.name) && MacroName(suit.testList[j].name)
      requires runner == RunEffect(start, Pairs(suit)[..j], patterns)
      requires log == log0 + RunLog(RunSet(Pairs(suit)[..j], patterns), options.colored)
      modifies this`log, this`runner
      ensures runner == RunEffect(start, Pairs(suit)[..j + 1], patterns)
      ensures log == log0 + RunLog(RunSet(Pairs(suit)[..j + 1], patterns), options.colored)
    {
      ghost var e, es := Entry(suit.suitData, suit.testList[j]), Pairs(suit)[..j];
      VisitCase(suit.suitData, suit.testList[j], patterns);
      RunEffectStep(start, es, e, patterns);
      if Runs(e, patterns) {
        RunLogNext(log0, es, e, patterns, options.colored);
      } else {
        RunSetSame(es, e, patterns);
      }
      PairsPrefix(suit, j);
    }

    /** The body of `test_run_all`'s inner loop: one case, filtered, counted and perhaps run. */
    method VisitCase(suit: SuitData, test: TestCase, ghost patterns: seq<string>)
      requires Buffers() && Patterns() == patterns && MacroName(suit.name) && MacroName(test.name)
      modifies this`log, this`runner
      ensures runner == Visit(old(runner), Entry(suit, test), patterns)
      ensures log == old(log) + if Runs(Entry(suit, test), patterns) then TestLog(Entry(suit, test), options.colored) else []
    {
      var isMatch := FilterCase(suit.name, test.name);
      if !isMatch {
        runner := runner.(skipped := runner.skipped + 1);
      }
      if options.filterPatternCount == 0 || isMatch {
        RunTest(test, suit);
      }
    }

    /** `test_list_all`: the header, then `suite:case` for every case that runs under the current filter. */
    method ListAll()
      requires Valid() && RegisteredNames(suitList[..])
      modifies this`log
      ensures log == old(log) + [ListingHeader] + ListLog(RunSet(Entries(), Patterns()))
    {
      log := log + [ListingHeader];
      ghost var patterns, log0 := Patterns(), log;
      var i := 0;
      while i < totalSuits
        modifies this`log
        invariant 0 <= i <= totalSuits
        invariant log == log0 + ListLog(RunSet(Flatten(suitList[..i]), patterns))
      {
        var suit := suitList[i];
        assert suitList[..][i] == suit;
        ghost var visited := Flatten(suitList[..i]);
        ListSuit(suit, patterns);
        ListLogConcat(log0, visited, Pairs(suit), patterns);
        FlattenStep(suitList[..], i);
        assert suitList[..][..i + 1] == suitList[..i + 1];
        i := i + 1;
      }
      assert suitList[..i] == suitList[..];
    }

    /** The inner loop of `test_list_all` over the cases of one suite. */
    method ListSuit(suit: Suit, ghost patterns: seq<string>)
      requires Buffers() && Patterns() == patterns
      requires MacroName(suit.suitData.name) && forall j :: 0 <= j < |suit.testList| ==> MacroName(suit.testList[j].name)
      modifies this`log
      ensures log == old(log) + ListLog(RunSet(Pairs(suit), patterns))
    {
      ghost var log0 := log;
      var j := 0;
      while j < |suit.testList|
        modifies this`log
        invariant 0 <= j <= |suit.testList|
        invariant log == log0 + ListLog(RunSet(Pairs(suit)[..j], patterns))
      {
        ghost var e, es := Entry(suit.suitData, suit.testList[j]), Pairs(suit)[..j];
        var listed := options.filterPatternCount == 0;
        if !listed {
          listed := FilterCase(suit.suitData.name, suit.testList[j].name);
        }
        assert listed <==> Runs(e, patterns);
        if listed {
          ListLogNext(log0, es, e, patterns);
          log := log + [Listed(suit.suitData.name, suit.testList[j].name)];
        } else {
          RunSetSame(es, e, patterns);
        }
        PairsPrefix(suit, j);
        j := j + 1;
      }
      assert Pairs(suit)[..j] == Pairs(suit);
    }
  }
}
