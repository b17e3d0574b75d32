/**
 * The global state of the older engine in `src/test.c` (`test_options`,
 * `test_register`, `test_runner` and the output stream) as one object, and
 * the functions that change it: argument and option parsing, the registry
 * build of `test_init`, the runner, the single-case and single-suite entry
 * points and the report.
 */
module Legacy {
  import opened Optional
  import opened Sequences
  import opened LegacySpec

  /**
   * How `test_run_case` ends: it ran case `index` of the suite, or it found
   * no suite of the name or no case to run, and exits with status 1.
   */
  datatype CaseRun = Ran(index: nat) | NoSuite | NoCase

  /** Which option field a value flag writes (`second_argument_target`). */
  datatype Target = NoTarget | ColoredTarget | OutputTarget | FilterTarget

  class Engine {
    // test_options
    var flags: Flags
    var stream: Stream
    var colored: bool

    // test_register
    var totalSuits: nat
    var totalTests: nat
    var suits: array<Suit>

    // test_runner
    var runner: Runner

    /** Everything written to the output stream so far, and the calls made. */
    var log: seq<Event>

    /**
     * The registry agrees with the suite count and the case total, and the
     * counters are consistent with it (`Consistent`, written out), so the
     * report never divides by zero.
     */
    ghost predicate Valid()
      reads this`totalSuits, this`totalTests, this`suits, this`runner, suits
    {
      suits.Length == totalSuits &&
      totalTests == Total(suits[..]) &&
      runner.executed == runner.successful + runner.partially &&
      (totalTests == 0 ==> Finished(runner) == 0)
    }

    /** The zero-initialised globals. */
    constructor ()
      ensures Valid()
      ensures flags == Cleared && stream == NoStream && !colored
      ensures totalSuits == 0 && totalTests == 0 && runner == Reset && log == []
    {
      flags, stream, colored := Cleared, NoStream, false;
      totalSuits, totalTests := 0, 0;
      suits := new Suit[0];
      runner := Reset;
      log := [];
    }

    // -------------------------------------------------------------------
    // Output
    // -------------------------------------------------------------------

    /** `test_log_write_with_status`: the tag of `status` in brackets, unless it is `Empty`, then the message. */
    method WriteWithStatus(status: Status, message: Message)
      modifies this`log
      ensures log == old(log) + [Line(Prefix(status), message)]
    {
      var prefix: string := [];
      if status != Empty {
        prefix := "[ " + Tag(status) + " ] ";
      }
      log := log + [Line(prefix, message)];
    }

    /**
     * `test_runner_report`: the executed count and the failed and skipped
     * counts against `total_tests`, the fully and partially successful
     * counts against the executed count, each 0 for a zero count.
     */
    method Report()
      requires Reportable(runner, totalTests)
      modifies this`log
      ensures log == old(log) + ReportLog(runner, totalTests)
    {
      var counts, total := runner, totalTests;
      var failedPercent := if counts.failed > 0 then counts.failed * 100 / total else 0;
      var skippedPercent := if counts.skipped > 0 then counts.skipped * 100 / total else 0;
      var successfulPercent := if counts.successful > 0 then counts.successful * 100 / counts.executed else 0;
      var partialPercent := if counts.partially > 0 then counts.partially * 100 / counts.executed else 0;
      var executedPercent := if counts.executed > 0 then counts.executed * 100 / total else 0;

      log := log + [Line(Prefix(End), ResultsHeader),
                    Line(Prefix(Continued), Executed(counts.executed, total, executedPercent)),
                    Line(Prefix(Continued), Totally(counts.successful, successfulPercent)),
                    Line(Prefix(Continued), Partially(counts.partially, partialPercent)),
                    Line(Prefix(Continued), FailedTally(counts.failed, failedPercent)),
                    Line(Prefix(Continued), SkippedTally(counts.skipped, skippedPercent))];
    }

    /**
     * `test_intern_log_assertion_failed`: an "assertion" or "check" line with
     * both values and the line number, then the macro and its arguments.
     */
    method LogAssertionFailed(info: TestInfo)
      modifies this`log
      ensures log == old(log) + AssertionLog(info)
    {
      var messagePrefix := if info.result == Failed then "assertion failed: " else "check failed: ";
      WriteWithStatus(Pending, AssertionMessage(messagePrefix, info.valueOne, info.valueTwo, info.line));
      WriteWithStatus(Empty, MacroMessage(info.macroName, info.macroValueOne, info.macroValueTwo));
    }

    // -------------------------------------------------------------------
    // The runner
    // -------------------------------------------------------------------

    /**
     * `test_runner_run_test`: logs the case, runs setup, the case's function
     * and teardown, counts the outcome and logs it.
     */
    method RunTest(test: TestCase, suit: Suit)
      modifies this`log, this`runner
      ensures runner == Record(old(runner), test.outcome)
      ensures log == old(log) + TestLog(test, suit, colored)
    {
      var setup: seq<Event> := [];
      if suit.hasSetup {
        setup := [SetupCalled(suit.name)];
      }
      var result := test.outcome;
      var teardown: seq<Event> := [];
      if suit.hasTeardown {
        teardown := [TeardownCalled(suit.name)];
      }
      match result {
        case Ok => runner := runner.(successful := runner.successful + 1, executed := runner.executed + 1);
        case PartiallyOk => runner := runner.(partially := runner.partially + 1, executed := runner.executed + 1);
        case Skipped => runner := runner.(skipped := runner.skipped + 1);
        case Failed => runner := runner.(failed := runner.failed + 1);
      }
      log := log + ([Line(Prefix(Start), Running(test.fileName, suit.name, test.name))] + setup +
                    [BodyCalled(suit.name, test.name)] + teardown +
                    [Line(Prefix(ResultStatus), Outcome(ResultString(result, colored)))]);
    }

    /** `test_runner_run_suit`: every case of the suite in order, then one more executed suite. */
    method RunSuit(suit: Suit)
      modifies this`log, this`runner
      ensures runner == RunSuitEffect(old(runner), suit)
      ensures log == old(log) + SuitLog(suit, colored)
    {
      ghost var start, log0 := runner, log;
      var i := 0;
      while i < |suit.tests|
        invariant 0 <= i <= |suit.tests|
        invariant runner == RunCases(start, suit.tests[..i])
        invariant log == log0 + CasesLog(suit.tests[..i], suit, colored)
      {
        RunNextTest(suit, i, start, log0);
        i := i + 1;
      }
      assert suit.tests[..i] == suit.tests;
      runner := runner.(suitsExecuted := runner.suitsExecuted + 1);
    }

    /** One iteration of `test_runner_run_suit`'s loop: case `i` runs. */
    method RunNextTest(suit: Suit, i: nat, ghost start: Runner, ghost log0: seq<Event>)
      requires i < |suit.tests|
      requires runner == RunCases(start, suit.tests[..i])
      requires log == log0 + CasesLog(suit.tests[..i], suit, colored)
      modifies this`log, this`runner
      ensures runner == RunCases(start, suit.tests[..i + 1])
      ensures log == log0 + CasesLog(suit.tests[..i + 1], suit, colored)
    {
      RunTest(suit.tests[i], suit);
      RunCasesNext(start, suit.tests, i);
      CasesLogNext(suit.tests, i, suit, colored);
      Assoc(log0, CasesLog(suit.tests[..i], suit, colored), TestLog(suit.tests[i], suit, colored));
    }

    /** `test_suit_find_by_name`: the first registered suite with this name. */
    method FindSuitByName(name: string) returns (r: Option<nat>)
      requires suits.Length == totalSuits
      ensures r == FindSuit(suits[..], name)
    {
      var i := 0;
      while i < totalSuits
        invariant 0 <= i <= totalSuits
        invariant forall k :: 0 <= k < i ==> suits[k].name != name
      {
        if suits[i].name == name {
          return Some(i);
        }
        i := i + 1;
      }
      return None;
    }

    /**
     * `test_run_case`: finds the suite by name, then runs the first of its
     * cases whose name differs from `caseName`, as the inverted `strcmp`
     * test has it. Without such a suite or such a case nothing runs.
     */
    method RunCase(suitName: string, caseName: string) returns (outcome: CaseRun)
      requires Valid()
      modifies this`log, this`runner
      ensures Valid()
      ensures FindSuit(suits[..], suitName).None? ==> outcome == NoSuite
      ensures FindSuit(suits[..], suitName).Some? ==>
        var s := suits[FindSuit(suits[..], suitName).value];
        outcome == if FirstOther(s.tests, caseName, 0).None? then NoCase else Ran(FirstOther(s.tests, caseName, 0).value)
      ensures outcome.Ran? ==>
        var s := suits[FindSuit(suits[..], suitName).value];
        runner == Record(old(runner), s.tests[outcome.index].outcome) &&
        log == old(log) + TestLog(s.tests[outcome.index], s, colored)
      ensures !outcome.Ran? ==> runner == old(runner) && log == old(log)
    {
      var found := FindSuitByName(suitName);
      if found.None? {
        return NoSuite;
      }
      var k := found.value;
      var suit := suits[k];
      var i := 0;
      var matched := false;
      while !matched && i < |suit.tests|
        invariant 0 <= i <= |suit.tests|
        invariant matched ==> i < |suit.tests| && FirstOther(suit.tests, caseName, 0) == Some(i)
        invariant !matched ==> FirstOther(suit.tests, caseName, 0) == FirstOther(suit.tests, caseName, i)
        decreases |suit.tests| - i, !matched
      {
        if caseName != suit.tests[i].name {
          matched := true;
        } else {
          i := i + 1;
        }
      }
      if !matched {
        return NoCase;
      }
      RunTest(suit.tests[i], suit);
      TotalCovers(suits[..], k);
      outcome := Ran(i);
    }

    /**
     * `test_run_case` as evidently intended: it runs the first case of the
     * named suite whose name equals `caseName`, and nothing when the suite
     * or the case does not exist.
     */
    method RunCaseIntended(suitName: string, caseName: string) returns (outcome: CaseRun)
      requires Valid()
      modifies this`log, this`runner
      ensures Valid()
      ensures FindSuit(suits[..], suitName).None? ==> outcome == NoSuite
      ensures FindSuit(suits[..], suitName).Some? ==>
        var s := suits[FindSuit(suits[..], suitName).value];
        outcome == if FirstNamed(s.tests, caseName, 0).None? then NoCase else Ran(FirstNamed(s.tests, caseName, 0).value)
      ensures outcome.Ran? ==>
        var s := suits[FindSuit(suits[..], suitName).value];
        s.tests[outcome.index].name == caseName &&
        runner == Record(old(runner), s.tests[outcome.index].outcome) &&
        log == old(log) + TestLog(s.tests[outcome.index], s, colored)
      ensures !outcome.Ran? ==> runner == old(runner) && log == old(log)
    {
      var found := FindSuitByName(suitName);
      if found.None? {
        return NoSuite;
      }
      var k := found.value;
      var suit := suits[k];
      var i := 0;
      var matched := false;
      while !matched && i < |suit.tests|
        invariant 0 <= i <= |suit.tests|
        invariant matched ==> i < |suit.tests| && FirstNamed(suit.tests, caseName, 0) == Some(i)
        invariant !matched ==> FirstNamed(suit.tests, caseName, 0) == FirstNamed(suit.tests, caseName, i)
        decreases |suit.tests| - i, !matched
      {
        if caseName == suit.tests[i].name {
          matched := true;
        } else {
          i := i + 1;
        }
      }
      if !matched {
        return NoCase;
      }
      RunTest(suit.tests[i], suit);
      TotalCovers(suits[..], k);
      outcome := Ran(i);
    }

    /** `test_run_suit`: runs the suite of that name, which must exist, since the engine dereferences the lookup. */
    method RunSuitByName(name: string)
      requires Valid() && FindSuit(suits[..], name).Some?
      modifies this`log, this`runner
      ensures Valid()
      ensures var s := suits[FindSuit(suits[..], name).value];
        runner == RunSuitEffect(old(runner), s) && log == old(log) + SuitLog(s, colored)
    {
      var found := FindSuitByName(name);
      var suit := suits[found.value];
      RunCasesTotals(runner, suit.tests);
      TotalCovers(suits[..], found.value);
      RunSuit(suit);
    }

    /** `test_run_all`: every registered suite in order, then the report. */
    method RunAll()
      requires Valid()
      modifies this`log, this`runner
      ensures Valid()
      ensures runner == RunSuits(old(runner), suits[..])
      ensures log == old(log) + RunLog(suits[..], colored) + ReportLog(runner, totalTests)
    {
      RunSuites();
      RunKeepsConsistent(old(runner), suits[..], totalTests);
      ConsistentReportable(runner, totalTests);
      Report();
    }

    /** The loop of `test_run_all` over the suites, before the report. */
    method RunSuites()
      requires suits.Length == totalSuits
      modifies this`log, this`runner
      ensures runner == RunSuits(old(runner), suits[..])
      ensures log == old(log) + RunLog(suits[..], colored)
    {
      ghost var start, log0 := runner, log;
      var i := 0;
      while i < totalSuits
        invariant 0 <= i <= totalSuits
        invariant runner == RunSuits(start, suits[..i])
        invariant log == log0 + RunLog(suits[..i], colored)
      {
        RunNextSuit(i, start, log0);
        i := i + 1;
      }
      assert suits[..i] == suits[..];
    }

    /** One iteration of `test_run_all`'s loop: suite `i` runs. */
    method RunNextSuit(i: nat, ghost start: Runner, ghost log0: seq<Event>)
      requires i < suits.Length
      requires runner == RunSuits(start, suits[..i])
      requires log == log0 + RunLog(suits[..i], colored)
      modifies this`log, this`runner
      ensures runner == RunSuits(start, suits[..i + 1])
      ensures log == log0 + RunLog(suits[..i + 1], colored)
    {
      var suit := suits[i];
      RunSuit(suit);
      ghost var list := suits[..];
      RunSuitsNext(start, list, i);
      RunLogNext(list, i, colored);
      assert list[..i + 1] == suits[..i + 1] && list[..i] == suits[..i];
      Assoc(log0, RunLog(suits[..i], colored), SuitLog(suit, colored));
    }

    // -------------------------------------------------------------------
    // test_init
    // -------------------------------------------------------------------

    /**
     * `test_init`: parses the arguments and the options, resets the
     * counters, registers every suite of the suite section in order, then
     * appends every case of the case section, in order, to the first suite of
     * its name. It returns true exactly when every step succeeds. An unknown
     * suite name stops the build, keeping the cases registered before it.
     * Nothing is written to the output stream. `opens` and `isTty` stand
     * for `fopen` and `isatty`; the suites of the section have no cases yet.
     */
    method Init(argv: seq<string>, section: seq<Suit>, cases: seq<TestCase>, opens: bool, isTty: bool)
      returns (ok: bool)
      requires Valid() && |argv| > 0
      requires forall k :: 0 <= k < |section| ==> section[k].tests == []
      modifies this`flags, this`stream, this`colored
      modifies this`runner, this`totalSuits, this`totalTests, this`suits
      ensures Valid() && log == old(log)
      ensures flags == ScanArguments(argv).flags
      ensures var scan := ScanArguments(argv);
        ok <==> scan.ok && DeriveOptions(scan.flags, opens, isTty).ok && FirstUnknown(section, cases) == |cases|
      ensures ScanArguments(argv).ok ==> Derived(DeriveOptions(flags, opens, isTty).ok, stream, colored) == DeriveOptions(flags, opens, isTty)
      ensures ScanArguments(argv).ok && DeriveOptions(flags, opens, isTty).ok ==>
        runner == Reset && totalSuits == |section| && totalTests == FirstUnknown(section, cases) &&
        suits[..] == Registry(section, cases[..FirstUnknown(section, cases)])
    {
      ok := ParseArguments(argv);
      if ok {
        ok := ParseOptions(opens, isTty);
        if ok {
          ok := BuildRegistry(section, cases);
        }
      }
    }

    /** `test_parse_arguments`: clears the options, then scans `argv` from index 1 as `ScanArguments` says. */
    method ParseArguments(argv: seq<string>) returns (ok: bool)
      requires |argv| > 0
      modifies this`flags, this`stream, this`colored
      ensures ok == ScanArguments(argv).ok && flags == ScanArguments(argv).flags
      ensures stream == NoStream && !colored
    {
      flags, stream, colored := Cleared, NoStream, false;
      var f := flags;
      ok := true;
      var i := 1;
      var stopped := false;
      while !stopped && i < |argv|
        invariant 1 <= i
        invariant !stopped ==> ok && ScanFrom(argv, i, f) == ScanArguments(argv)
        invariant stopped ==> Scan(ok, f) == ScanArguments(argv)
        decreases |argv| - i, !stopped
      {
        var target := NoTarget;
        var isValidArgument := false;
        if argv[i] == "--verbose" || argv[i] == "-v" {
          isValidArgument := true;
          f := f.(verbose := true);
        } else if argv[i] == "--list" {
          isValidArgument := true;
        } else if argv[i] == "--colored" {
          isValidArgument := true;
          target := ColoredTarget;
        } else if argv[i] == "--output" {
          isValidArgument := true;
          target := OutputTarget;
        } else if argv[i] == "--filter" {
          isValidArgument := true;
          target := FilterTarget;
        }

        if !isValidArgument {
          ok, stopped := false, true;
        } else if target != NoTarget && i + 1 >= |argv| {
          ok, stopped := false, true;
        } else {
          if target == ColoredTarget {
            f := f.(coloredValue := Some(argv[i + 1]));
          } else if target == OutputTarget {
            f := f.(outputValue := Some(argv[i + 1]));
          } else if target == FilterTarget {
            f := f.(filterValue := Some(argv[i + 1]));
          }
          i := if target == NoTarget then i + 1 else i + 2;
        }
      }
      flags := f;
    }

    /**
     * `test_parse_options`, after the arguments cleared the stream and the
     * colour choice: the output stream, then the colour choice, as
     * `DeriveOptions` says.
     */
    method ParseOptions(opens: bool, isTty: bool) returns (ok: bool)
      requires stream == NoStream && !colored
      modifies this`stream, this`colored
      ensures Derived(ok, stream, colored) == DeriveOptions(flags, opens, isTty)
    {
      var option := flags.outputValue;
      if option.Some? {
        if !opens {
          return false;
        }
        stream := File(option.value);
      } else {
        stream := Stdout;
      }

      option := flags.coloredValue;
      if option.Some? {
        if option.value == "auto" {
          colored := isTty;
        } else if option.value == "always" {
          colored := true;
        } else if option.value == "never" {
          colored := false;
        } else {
          return false;
        }
      } else {
        colored := false;
      }
      return true;
    }

    /**
     * The registry build of `test_init`: resets the counters, registers one
     * suite per suite of the section in section order, then appends the
     * cases, looking the suite of the previous case up again only when the
     * name changes.
     */
    method BuildRegistry(section: seq<Suit>, cases: seq<TestCase>) returns (ok: bool)
      requires forall k :: 0 <= k < |section| ==> section[k].tests == []
      modifies this`runner, this`totalSuits, this`totalTests, this`suits
      ensures Valid() && fresh(suits) && runner == Reset
      ensures ok <==> FirstUnknown(section, cases) == |cases|
      ensures totalSuits == |section| && totalTests == FirstUnknown(section, cases)
      ensures suits[..] == Registry(section, cases[..FirstUnknown(section, cases)])
    {
      runner := Reset;
      totalSuits, totalTests := |section|, 0;
      suits := RegisterSuits(section);
      TotalEmpty(section);
      var j := RegisterResolved(section, cases);
      ok := j == |cases|;
    }

    /** The suite pass of the registry build: each suite of the section, in section order. */
    method RegisterSuits(section: seq<Suit>) returns (list: array<Suit>)
      ensures fresh(list) && list[..] == Registry(section, [])
    {
      list := new Suit[|section|](_ => Suit([], false, false, []));
      var suitIndex := 0;
      while suitIndex < |section|
        invariant 0 <= suitIndex <= |section| && list.Length == |section|
        invariant fresh(list)
        invariant forall k :: 0 <= k < suitIndex ==> list[k] == section[k]
      {
        list[suitIndex] := section[suitIndex];
        suitIndex := suitIndex + 1;
      }
      RegistryEmpty(section);
    }

    /** The loop of the case pass: it registers cases until one names no suite, and says how many it registered. */
    method RegisterResolved(section: seq<Suit>, cases: seq<TestCase>) returns (j: nat)
      requires suits.Length == totalSuits && totalTests == 0 && suits[..] == Registry(section, [])
      requires Total(section) == 0
      modifies suits, this`totalTests
      ensures j == FirstUnknown(section, cases)
      ensures suits[..] == Registry(section, cases[..j]) && totalTests == j && totalTests == Total(suits[..])
    {
      assert cases[..0] == [];
      var lastSuit: Option<nat> := None;
      var currentSuit: Option<nat> := None;
      var stopped := false;
      j := 0;
      while !stopped && j < |cases|
        invariant 0 <= j <= |cases| && totalTests == j
        invariant j <= FirstUnknown(section, cases)
        invariant suits[..] == Registry(section, cases[..j])
        invariant stopped ==> j < |cases| && !Resolves(section, cases[j])
        invariant !stopped ==> (j == 0 ==> currentSuit.None? && lastSuit.None?)
        invariant !stopped ==> (j > 0 ==> currentSuit == lastSuit && Cached(section, currentSuit))
        decreases |cases| - j, !stopped
      {
        currentSuit := RegisterNext(section, cases, j, lastSuit, currentSuit);
        if currentSuit.None? {
          stopped := true;
        } else {
          lastSuit := currentSuit;
          j := j + 1;
        }
      }
      RegistryStops(section, cases, j);
    }

    /** One iteration of the case pass: case `j` is looked up through the cache and, when its suite exists, appended. */
    method RegisterNext(section: seq<Suit>, cases: seq<TestCase>, j: nat, lastSuit: Option<nat>, currentSuit: Option<nat>)
      returns (current: Option<nat>)
      requires j < |cases| && j <= FirstUnknown(section, cases) && totalTests == j
      requires suits.Length == totalSuits && suits[..] == Registry(section, cases[..j])
      requires (currentSuit.None? && lastSuit.None?) || (currentSuit == lastSuit && Cached(section, currentSuit))
      modifies suits, this`totalTests
      ensures current == FindSuit(section, cases[j].suitName)
      ensures current.None? ==> suits[..] == old(suits[..]) && totalTests == j
      ensures current.Some? ==> Cached(section, current) && j + 1 <= FirstUnknown(section, cases) &&
                                suits[..] == Registry(section, cases[..j + 1]) && totalTests == j + 1
    {
      current := CachedLookup(section, cases[..j], cases[j], lastSuit, currentSuit);
      if current.Some? {
        PastResolved(section, cases, j);
        AppendCase(section, cases, j, current.value);
      }
    }

    /**
     * The suite lookup of the case pass: the suite of the previous case is
     * kept unless this case names another, in which case it is looked up
     * again. The cache always agrees with a full lookup.
     */
    method CachedLookup(section: seq<Suit>, ghost registered: seq<TestCase>, testCase: TestCase,
                        lastSuit: Option<nat>, currentSuit: Option<nat>) returns (current: Option<nat>)
      requires suits.Length == totalSuits && suits[..] == Registry(section, registered)
      requires (currentSuit.None? && lastSuit.None?) || (currentSuit == lastSuit && Cached(section, currentSuit))
      ensures current == FindSuit(section, testCase.suitName)
      ensures current.Some? ==> Cached(section, current)
    {
      RegistryFinds(section, registered, testCase.suitName);
      current := currentSuit;
      if current.None? || (lastSuit.Some? && suits[lastSuit.value].name != testCase.suitName) {
        current := FindSuitByName(testCase.suitName);
      } else {
        assert suits[lastSuit.value].name == section[lastSuit.value].name;
      }
    }

    /** Appends case `j` to the cases of the suite it resolves to and counts it. */
    method AppendCase(section: seq<Suit>, cases: seq<TestCase>, j: nat, k: nat)
      requires j < |cases| && suits[..] == Registry(section, cases[..j]) && totalTests == j
      requires FindSuit(section, cases[j].suitName) == Some(k)
      modifies suits, this`totalTests
      ensures suits[..] == Registry(section, cases[..j + 1]) && totalTests == j + 1
    {
      var testCase := cases[j];
      ghost var before := suits[..];
      TakeOneMore(cases, j);
      RegistryStep(section, cases[..j], testCase, cases[..j + 1], k);
      suits[k] := suits[k].(tests := suits[k].tests + [testCase]);
      assert suits[..] == before[k := before[k].(tests := before[k].tests + [testCase])];
      totalTests := totalTests + 1;
    }
  }
}
