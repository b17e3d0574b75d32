# libtest in Dafny

This project is a model of **libtest**, a small unit-test harness for C, with proofs about that model.

Suites and cases are declared with the `SUIT` and `TEST` macros, which place descriptors in two linker sections. `test_init` then does four things:

- it scans the command line (`--help`, `--list`, `--colored`, `--output`, `--filter`);
- it opens the output stream;
- it parses the filter into at most eight glob patterns;
- it builds a registry: every suite in section order, each with its cases.

`test_run_all` then visits every case. It counts a case that the filter does not select as skipped, and runs a case when there is no filter or the filter selects it. Running a case means calling setup, the case body and teardown, then counting the outcome. Finally it prints a summary of percentages.

The model has two parts.

- **include/test/test.h**, the header-only harness:
  - `Matcher` holds the glob semantics and the iterative wildcard matcher.
  - `FilterText` holds the comma-separated filter syntax and the parser's loop as a state function.
  - `Arguments` holds the argument scanner as a function, with a reference reading of options rendered as words.
  - `HarnessSpec` holds the specification functions: the outcome of a body, the registry, the run set, the counters and the logs.
  - `Harness` holds the class `Harness`. Its fields are the header's globals (`options` with its two buffers as arrays, `test_register`, `test_runner`), and its methods are the header's functions.
- **src/test.c**, an older revision of the same engine. It stands on its own:
  - `LegacySpec` holds the specification functions.
  - `Legacy` holds the class `Engine`.

  This revision differs from the header in several ways:
  - it has an executed counter;
  - it uses different percentage denominators;
  - it puts status tags in front of log lines;
  - it has `test_run_case`;
  - it applies no filter.

`Percentages` holds the truncating percentage that both reports use, and `Optional` holds an `Option` type.

Output is modelled as a log of events. Each event is a line with the values it prints, or a call the harness makes (setup, teardown). The characters `printf` would produce are not modelled.

Three defects of the source are shown by lemmas about the model of the code as written. Each also gets a corrected definition with the intended property proved about it (see "## Findings"):

- **Every case also counts as skipped when no filter is given.**
  - As written: `HarnessSpec.NoFilterCountsEverySkip`.
  - Intended, a skip only when a filter is set and does not select the case: `HarnessSpec.IntendedRunAccounts`.
- **The size guard lets a composed `suite:case` name fill the whole 128-byte buffer.**
  - As written: `HarnessSpec.NameBufferUnterminated` shows the buffer contents. The over-read that follows in C is not modelled (see "## Left out").
  - Intended guard: `HarnessSpec.TerminatedGuard`.
- **`test_run_case` in src/test.c runs the first case whose name differs from the one asked for, because its `strcmp` test is inverted.**
  - As written: `LegacySpec.FirstOther`, `Legacy.Engine.RunCase`.
  - Intended: `LegacySpec.FirstNamed`, `Legacy.Engine.RunCaseIntended`.

The class methods model the code as written. The corrected definitions stand beside them.

## Model

| member | source | states |
|---|---|---|
| Matcher.WildcardMatch | include/test/test.h:420-460 | The two-cursor matcher with one backtrack point is sound. A true answer means the whole text matches the whole pattern under glob rules. For a text without `*` it is also complete: true exactly when the text matches. |
| Matcher.SkipStars | include/test/test.h:454-459 | The final loop skips the pattern's trailing `*`s; it reaches the end of the pattern exactly when only `*`s remain. |
| Matcher.EmptyCases | include/test/test.h:420-460 | The empty pattern matches only the empty text. The empty text matches exactly the patterns made only of `*`. |
| Matcher.PlainMatchesItself | include/test/test.h:427-433 | A pattern without `?` or `*` matches exactly the text equal to it. |
| Matcher.StarMatchesAll | include/test/test.h:436-442 | The pattern `*` matches every text. |
| Matcher.SuiteWildcardExample | include/test/test.h:462-481 | `math:*` selects `math:add_overflow`. |
| Matcher.CasePrefixExample | include/test/test.h:462-481 | `math:sub_*` does not select `math:add_overflow`. |
| Matcher.AnySuiteExample | include/test/test.h:462-481 | `*:add_*` selects `math:add_overflow`. |
| Matcher.EarliestSuffices | include/test/test.h:436-449 | After a `*`, placing the star-free run that follows it at the earliest position is enough. This is why the matcher may drop an older backtrack point. |
| FilterText.ParseOutcome | include/test/test.h:525-556 | The parser's loop ends without refusing exactly when the filter value is accepted. It then records one offset per pattern, each where that pattern starts. |
| FilterText.EmptySegmentRefused | include/test/test.h:538-543 | A leading, doubled or trailing comma leaves an empty pattern, so the value is refused. |
| FilterText.TooManyRefused | include/test/test.h:545-548 | Eight or more commas mean more than eight patterns, so the value is refused. |
| FilterText.SinglePatternAccepted | include/test/test.h:528-532 | No pattern has a length limit: any non-empty run of allowed characters is accepted as one pattern. |
| FilterText.JoinedPatternsAccepted | include/test/test.h:518-562 | One to eight non-empty patterns of allowed characters, joined with commas, are accepted and give back exactly those patterns. |
| FilterText.SplitJoin | include/test/test.h:538-555 | Splitting at commas undoes joining with commas, for comma-free segments. |
| FilterText.JoinSplit | include/test/test.h:538-555 | Joining the segments with commas gives back the text. |
| FilterText.SegmentCount | include/test/test.h:538-555 | A value has one segment more than it has commas. |
| FilterText.BufferPatterns | include/test/test.h:523-551 | In the zeroed buffer, each comma stays NUL and each other character is copied. Read from each recorded offset, the buffer gives that segment as a C string. |
| FilterText.TrailingCommaRefused | include/test/test.h:540 | A value ending in a comma is refused. |
| Arguments.RoundTrip | include/test/test.h:597-643 | A command line rendered from a list of options is accepted. The scan sets exactly what those options say, taking each value verbatim. A later value replaces an earlier one. |
| Arguments.StopsAtDoubleDash | include/test/test.h:597-643 | Where an option could start, `--` ends the scan successfully and everything after it is ignored. |
| Arguments.UnknownFlagRefused | include/test/test.h:597-643 | An unknown word where an option could start makes the scan fail. |
| Arguments.MissingValueRefused | include/test/test.h:597-643 | A value flag as the last word makes the scan fail. |
| Arguments.SwitchesSet | include/test/test.h:597-643 | `--help` and `--list` are set exactly when they occur among the options. |
| Arguments.LastOutputWins | include/test/test.h:597-643 | The last `--output` value is the one kept. The field is set only when some `--output` occurs. |
| HarnessSpec.FailFast | include/test/test.h:84-100 | A failing comparison sets the outcome to failed whatever came before it. The body returns at once: nothing after the comparison runs or logs, and the comparison logs exactly one line. |
| HarnessSpec.ChecksOnly | include/test/test.h:84-100 | A body made only of comparisons ends ok exactly when every comparison holds, and failed otherwise. It logs a line exactly when it fails. |
| HarnessSpec.FindSuit | include/test/test.h:384-396 | The lookup gives the first suite with the name, or none exactly when no suite has it. |
| HarnessSpec.FirstUnknown | include/test/test.h:732-753 | The first case whose suite does not exist, or the number of cases when every case resolves. |
| HarnessSpec.Registry | include/test/test.h:715-762 | The registry has one suite per descriptor, in section order, each holding its own descriptor. |
| HarnessSpec.CasesForBelong | include/test/test.h:732-762 | Every case in a suite's list names that suite, and that suite is the first of its name: duplicate names resolve first-wins. |
| HarnessSpec.CasesForComplete | include/test/test.h:732-762 | Every case that resolves to a suite is in that suite's list. |
| HarnessSpec.RegistryAppend | include/test/test.h:755-761 | Registering one more case appends it to the end of its suite's list and changes no other list. |
| HarnessSpec.RegistryTotal | include/test/test.h:755-761 | When every case resolves, the per-suite `test_count` values add up to the number of cases. |
| HarnessSpec.RegistryStops | include/test/test.h:732-753 | The case pass stops at the first unknown case, having registered exactly the cases before it. |
| HarnessSpec.RegistrySuitDatas | include/test/test.h:715-730 | The registry keeps the suite descriptors in section order. |
| HarnessSpec.RegistryNames | include/test/test.h:58-82 | A registry built from macro-declared descriptors holds only C-identifier names, so no name contains `*`. |
| HarnessSpec.NameBufferReads | include/test/test.h:462-473 | When the composed name fits, the name buffer read as a C string is `suite:case`. |
| HarnessSpec.NameBufferUnterminated | include/test/test.h:466 | The size guard admits a `suite:case` of exactly 128 characters, which leaves the buffer without a NUL. |
| HarnessSpec.TerminatedGuard | include/test/test.h:466-472 | Every name the intended guard (name plus NUL must fit) admits leaves a NUL right after it, so the buffer reads back as `suite:case`. The written guard admits more only at exactly 128 characters. |
| HarnessSpec.SelectsTerminatedAgrees | include/test/test.h:462-481 | The intended selection agrees with the written one except at exactly 128 characters, where it refuses. |
| HarnessSpec.AnyMatchExists | include/test/test.h:474-480 | The in-order pattern loop finds a match exactly when some pattern matches. |
| HarnessSpec.RunSetMembers | include/test/test.h:483-501 | A case runs exactly when it is registered and either there are no patterns or the filter selects it. Cases run in visiting order. |
| HarnessSpec.FilteredPartition | include/test/test.h:487-497 | With patterns, every registered case either runs or is counted as not selected, and never both. |
| HarnessSpec.NoPatterns | include/test/test.h:487-497 | With no patterns, every case runs and every case is also counted as not selected. |
| HarnessSpec.Record | include/test/test.h:342-357 | One finished case adds one to `tests_attempted`. It adds exactly one to the four outcome counters together and leaves the suite counters unchanged. |
| HarnessSpec.VisitTotals | include/test/test.h:487-497 | Visiting one case adds a skip when the case is not selected, then the case's outcome when it runs. |
| HarnessSpec.RunEffectTotals | include/test/test.h:483-498 | After a run, in closed form: one attempt per case that runs and each outcome counted once. There is one extra skip per case not selected. The suite counters stay. |
| HarnessSpec.OutcomesPartition | include/test/test.h:344-357 | Every case ends with exactly one of the four outcomes. |
| HarnessSpec.IntendedAgreesFiltered | include/test/test.h:490-496 | With a filter set, the intended skip count is the one the code makes. |
| HarnessSpec.IntendedTotals | include/test/test.h:487-497 | Under the intended skip count each visited case is counted under exactly one outcome, and attempted exactly when it runs. |
| HarnessSpec.IntendedNoFilterSkips | include/test/test.h:490-496 | Without a filter, the intended skip count counts only the cases whose body ends skipped. |
| HarnessSpec.IntendedRunAccounts | include/test/test.h:483-501 | With the intended skip count and any filter, a run from zeroed counters counts every case under exactly one outcome, attempts exactly the cases that run, and reports no percentage above 100. |
| HarnessSpec.NoFilterCountsEverySkip | include/test/test.h:490-496 | From reset with no filter, every case is attempted and also counted as skipped. With at least one case, the summary reports at least 100 percent skipped. |
| HarnessSpec.FilteredRunAccounts | include/test/test.h:483-498 | From reset with a filter, the four outcome counters add up to the number of registered cases. |
| HarnessSpec.ResultStringsDistinct | include/test/test.h:359-373 | Different outcomes log different words, coloured or not. |
| HarnessSpec.TestLog | include/test/test.h:326-373 | A case's log opens with its `running` line and ends with the word for the outcome of its body. |
| HarnessSpec.HookOrder | include/test/test.h:331-340 | Setup is called before the body and teardown after it, each only when the suite has one. |
| HarnessSpec.BodyLogShape | include/test/test.h:84-100 | A body logs only comparison failures. |
| HarnessSpec.ListLog | include/test/test.h:511-513 | The listing has one `suite:case` line per listed case, in order. |
| HarnessSpec.RunLogAppend | include/test/test.h:483-498 | Running one list of cases and then another logs the first run's lines followed by the second's. |
| HarnessSpec.ReportLog | include/test/test.h:296-319 | The summary is the attempted line, then successful, failed, partially and skipped, in that order, each with its counter. A zero counter shows 0 percent. |
| HarnessSpec.ReportLogPercents | include/test/test.h:297-309 | Each line's percentage is the largest whole number whose share of `total_tests` does not exceed its count. |
| HarnessSpec.ReportPercentsBounded | include/test/test.h:296-319 | Counters that each stay within `total_tests` report at most 100 percent on every line. |
| HarnessSpec.FilteredReportBounded | include/test/test.h:483-501 | After a filtered run from reset, every percentage of the summary is at most 100. |
| Percentages.Percent | include/test/test.h:297-309 | A zero count reports 0 percent without dividing. A non-zero count needs a non-zero `total_tests`, because the C code divides by it. |
| Percentages.PercentBounds | include/test/test.h:297-309 | The percentage is the largest whole number whose share of the total does not exceed the count. |
| Percentages.PercentAtMostHundred | include/test/test.h:297-309 | A count no larger than the total reports at most 100 percent. |
| Percentages.PercentOfTotal | include/test/test.h:297-309 | The whole total is exactly 100 percent. |
| Percentages.PercentMonotonic | include/test/test.h:297-309 | A larger count never reports a smaller percentage of the same total. |
| Harness.ScanOptions | include/test/test.h:603-640 | The argument loop accepts, and sets, exactly what the scan function says. It touches no field other than the flags and values. |
| Harness.Harness.constructor | include/test/test.h:214-257 | The globals start zeroed: no options, an empty registry, reset counters and an empty log. |
| Harness.Harness.ParseArguments | include/test/test.h:597-643 | Clears the options, then accepts and sets exactly what the argument scan says. No pattern is recorded yet. |
| Harness.Harness.ParseFilter | include/test/test.h:518-562 | Allocates a buffer one longer than the value. Succeeds exactly when the value is accepted. On success the recorded patterns, read from the buffer, are the value's segments in order. On failure the scalar options and the pattern count are unchanged; the new buffer and the offsets written so far stay, as in C. |
| Harness.Harness.FillPatterns | include/test/test.h:525-557 | The character loop succeeds exactly when the value is accepted, and closes at most eight patterns. The buffer and offsets then spell those patterns. |
| Harness.Harness.FillStep | include/test/test.h:526-556 | One iteration keeps the buffer masked up to the current character and zero after it. The offsets stay in step with the parser's state function. |
| Harness.Harness.ParseOptions | include/test/test.h:645-695 | Succeeds exactly when four things hold: the output file is absent or new and opens; `--colored` (default `auto`) is `auto`, `always` or `never`; `auto` colours exactly on a terminal; any filter is accepted. The patterns are then the filter's segments, or stay as they were without a filter. |
| Harness.Harness.ParseStreamOptions | include/test/test.h:646-685 | The output and colour part: accepted exactly when the output and the colour setting are both accepted. The colour follows the setting and the tty bit. |
| Harness.Harness.FilterCase | include/test/test.h:462-481 | A true answer means the name fits the guard and matches some pattern. For star-free names it is true exactly then, so it is false when there are no patterns. |
| Harness.Harness.MatchesAny | include/test/test.h:474-480 | The loop tries the patterns in order. Its answer is sound, and complete for star-free names. |
| Harness.Harness.FindSuitByName | include/test/test.h:384-396 | The loop returns the index of the first registered suite with the name, or none. |
| Harness.Harness.RegisterSuits | include/test/test.h:715-730 | A fresh suite list with one empty suite per descriptor, in section order. |
| Harness.Harness.CachedLookup | include/test/test.h:738-743 | The one-suite cache always agrees with a full lookup. |
| Harness.Harness.AppendCase | include/test/test.h:755-761 | The case is appended to its suite and counted. The registry becomes the registry of one more case. |
| Harness.Harness.RegisterNext | include/test/test.h:734-761 | One case is looked up through the cache. It is appended when its suite exists; otherwise nothing changes. |
| Harness.Harness.RegisterResolved | include/test/test.h:732-762 | The case pass registers the cases up to the first unknown one. The total then equals the sum of the suites' case counts. |
| Harness.Harness.BuildRegistry | include/test/test.h:705-762 | Resets the counters and builds a fresh registry. Succeeds exactly when every case names an existing suite; otherwise it logs the first unknown case. `total_tests` is the number of cases registered. |
| Harness.Harness.ListRegistry | include/test/test.h:764-768 | With `--list`, logs the listing of the registry. |
| Harness.Harness.RegisterAndList | include/test/test.h:705-770 | Builds the registry, then with `--list` lists it and reports failure. Succeeds exactly when every case resolves and `--list` is not given. |
| Harness.Harness.Init | include/test/test.h:697-771 | Succeeds exactly when four things hold: the arguments scan; `--help` is not given; the options are accepted; every case resolves. `--list` also makes it fail. On success: the registry is built from the sections, the counters are reset, nothing is logged, and the patterns are the filter's. `--help` logs the help text. |
| Harness.Harness.RunTest | include/test/test.h:321-374 | Logs the case's `running` line, setup, body, teardown and outcome word. The counters become those recorded for the outcome of the body. |
| Harness.Harness.Report | include/test/test.h:296-319 | Logs the summary of the current counters against `total_tests`. |
| Harness.Harness.VisitCase | include/test/test.h:488-496 | One case is filtered, counted as skipped when not selected, and run when there are no patterns or it is selected. |
| Harness.Harness.VisitNext | include/test/test.h:487-497 | One iteration of the inner loop extends the counters and the log by one visited case. |
| Harness.Harness.RunSuitFiltered | include/test/test.h:487-497 | The inner loop visits one suite's cases in order: the counters and log follow the spec of the suite's cases. |
| Harness.Harness.RunSuites | include/test/test.h:484-498 | The counters become the run effect over all registered cases. The log gains the logs of exactly the cases in the run set, in order. |
| Harness.Harness.RunAll | include/test/test.h:483-501 | As `RunSuites`, then the summary of the final counters. It keeps the harness valid. |
| Harness.Harness.ListAll | include/test/test.h:503-516 | Logs the header, then one `suite:case` line for exactly the cases a run would run, in the same order. |
| Harness.Harness.ListSuit | include/test/test.h:508-514 | One suite's cases that would run are listed in order. |
| LegacySpec.Tag | src/test.c:131-136 | The tag of a status is seven characters. |
| LegacySpec.PrefixShape | src/test.c:127-157 | Every tagged prefix is `[ `, the seven-character tag, then ` ] `. |
| LegacySpec.TagRoundTrip | src/test.c:131-136 | Each status can be read back from its tag. |
| LegacySpec.StatusRoundTrip | src/test.c:127-157 | The status of a line can be read back from its prefix. `Empty` writes no prefix at all. |
| LegacySpec.PrefixInjective | src/test.c:127-157 | Different statuses write different prefixes. |
| LegacySpec.ResultStringShape | src/test.c:233-248 | The word for an outcome is the plain word, or, coloured, wrapped in its colour and the reset. |
| LegacySpec.TestLog | src/test.c:193-249 | A case logs a `RUNNING` line first and a `RESULT` line with its outcome word last: three to five events in all. |
| LegacySpec.HookOrder | src/test.c:193-214 | Setup is called before the case's function and teardown after it, each only when the suite has one. |
| LegacySpec.AssertionLog | src/test.c:278-295 | An assertion failure logs a `PENDING` line with the values, then an untagged line with the macro. |
| LegacySpec.FailureKindChoice | src/test.c:278-295 | The message says "assertion" exactly for a failed result, and "check" otherwise. |
| LegacySpec.Record | src/test.c:216-231 | One finished case adds one to exactly the counter of its outcome. Ok and partially ok also add one to `tests_executed`, so executed equals successful plus partially is preserved. Suite counters stay. |
| LegacySpec.RunCasesTotals | src/test.c:251-259 | Running cases finishes each once and keeps the executed counter balanced. |
| LegacySpec.RunSuitsTotals | src/test.c:330-336 | Running all suites finishes every case once and counts each suite as executed once. `suits_failed` and `suits_skipped` never change. |
| LegacySpec.ConsistentReportable | src/test.c:160-191 | Balanced counters that are zero while no case is registered never make the report divide by zero. |
| LegacySpec.RunKeepsConsistent | src/test.c:330-336 | A run over the registered suites keeps the counters consistent. |
| LegacySpec.ReportLog | src/test.c:160-191 | The summary is the `REPORT` header, then five continuation lines. Executed, failed and skipped are shares of `total_tests`; successful and partially are shares of `tests_executed`. |
| LegacySpec.ReportAfterRun | src/test.c:160-191 | From reset-like counters, a run finishes all `total_tests` cases and executes every suite. Each percentage of the following report is at most 100. |
| LegacySpec.FindSuit | src/test.c:264-276 | The first suite with the name, or none exactly when no suite has it. |
| LegacySpec.FirstUnknown | src/test.c:455-480 | The first case naming no suite, or the number of cases. |
| LegacySpec.Registry | src/test.c:444-480 | Every suite in section order, each with the cases naming it appended in section order. |
| LegacySpec.RegistryFinds | src/test.c:455-480 | Registering keeps the suite names, so lookups during the case pass are lookups in the section. |
| LegacySpec.RegistryTotal | src/test.c:455-480 | When every case resolves, `total_tests` grows by exactly the number of cases. |
| LegacySpec.RegistryStops | src/test.c:455-480 | The case pass stops at the first unknown case, with exactly the cases before it registered. |
| LegacySpec.FirstOther | src/test.c:305-316 | As written, `test_run_case` picks the first case whose name differs from the one asked for, or none when all have it. |
| LegacySpec.NamedCaseNotFound | src/test.c:305-321 | A suite whose only case is the one asked for has nothing to run. |
| LegacySpec.OtherCaseRuns | src/test.c:305-316 | Asking for the first of two differently named cases runs the second. |
| LegacySpec.FirstNamed | src/test.c:309-316 | The intended case lookup: the first case whose name equals the one asked for, or none when no case has it. |
| LegacySpec.FirstNamedFinds | src/test.c:309-316 | The intended lookup finds a case exactly when the suite has one of that name, and no later than any such case. |
| LegacySpec.NamedCaseFound | src/test.c:309-316 | For a suite whose only case is the one asked for, the intended lookup finds it where the written one finds nothing. |
| LegacySpec.RoundTrip | src/test.c:338-384 | A command line rendered from options is accepted and sets exactly what they say, taking values verbatim. |
| LegacySpec.UnknownFlagRefused | src/test.c:338-384 | Any other word where an option could start is refused. |
| LegacySpec.DoubleDashRefused | src/test.c:338-384 | This revision has no end-of-options word: `--` is refused. |
| LegacySpec.MissingValueRefused | src/test.c:338-384 | `--colored`, `--output` or `--filter` as the last word is refused. |
| LegacySpec.VerboseSet | src/test.c:338-384 | `--verbose` and `-v` set verbose exactly when one occurs, and `--list` sets nothing. |
| LegacySpec.DeriveOptions | src/test.c:386-428 | Accepted exactly when the output is absent or opens, and `--colored`, if given, is `auto`, `always` or `never`. The stream is the file or standard output. The colour is `always`, or `auto` on a terminal; it defaults off. |
| Legacy.Engine.constructor | src/test.c:40-79 | The zero-initialised globals: cleared options, no stream, an empty registry, reset counters and an empty log. |
| Legacy.Engine.WriteWithStatus | src/test.c:127-157 | Logs one line with the status prefix in front of the message. |
| Legacy.Engine.Report | src/test.c:160-191 | Logs the summary of the current counters. |
| Legacy.Engine.LogAssertionFailed | src/test.c:278-295 | Logs the two assertion-failure lines. |
| Legacy.Engine.RunTest | src/test.c:193-249 | Logs the case's lines and records its outcome in the counters. |
| Legacy.Engine.RunNextTest | src/test.c:255-257 | One iteration of the suite loop extends the counters and log by one case. |
| Legacy.Engine.RunSuit | src/test.c:251-259 | Runs the suite's cases in order and counts the suite as executed. |
| Legacy.Engine.FindSuitByName | src/test.c:264-276 | The loop returns the first registered suite with the name, or none. |
| Legacy.Engine.RunCase | src/test.c:297-322 | An unknown suite ends with `NoSuite`. Otherwise it runs the first case whose name differs from the one asked for, or ends with `NoCase` when there is none. Only a run changes the counters and the log. |
| Legacy.Engine.RunCaseIntended | src/test.c:297-322 | As `RunCase`, but the case run is the first whose name equals the one asked for; `NoCase` when there is none. |
| Legacy.Engine.RunSuitByName | src/test.c:324-328 | Runs the suite with the name, which must exist. |
| Legacy.Engine.RunNextSuit | src/test.c:331-333 | One iteration of the run loop extends the counters and log by one suite. |
| Legacy.Engine.RunSuites | src/test.c:331-333 | Runs every registered suite in order. |
| Legacy.Engine.RunAll | src/test.c:330-336 | Runs every registered suite in order, then logs the summary. It keeps the engine valid. |
| Legacy.Engine.ParseArguments | src/test.c:338-384 | Accepts and sets exactly what the argument scan says. |
| Legacy.Engine.ParseOptions | src/test.c:386-428 | The stream and colour follow `DeriveOptions` of the scanned values. |
| Legacy.Engine.RegisterSuits | src/test.c:444-453 | A fresh suite list holding the section's suites in order. |
| Legacy.Engine.CachedLookup | src/test.c:462-465 | The one-suite cache always agrees with a full lookup. |
| Legacy.Engine.AppendCase | src/test.c:467-478 | The case is appended to its suite and counted. |
| Legacy.Engine.RegisterNext | src/test.c:455-480 | One case is looked up through the cache and appended when its suite exists. |
| Legacy.Engine.RegisterResolved | src/test.c:455-480 | The case pass registers the cases up to the first unknown one. |
| Legacy.Engine.BuildRegistry | src/test.c:440-480 | Resets the counters and builds the registry. Succeeds exactly when every case resolves, and the totals agree. |
| Legacy.Engine.Init | src/test.c:430-483 | Succeeds exactly when three things hold: the arguments scan; the options are derived; every case resolves. The flags, stream and colour are those scanned and derived. On success the registry is built from the sections and the counters are reset. |

## Findings

| source | as written | input that shows it | evidently intended | confidence | as-written member | corrected member |
|---|---|---|---|---|---|---|
| include/test/test.h:490-492 | every case the filter does not select counts as skipped, which without a filter is every case | no `--filter` and one case whose body passes: successful 1, skipped 1, summary says 100% skipped | count a skip only when a filter is set and does not select the case | not executed | HarnessSpec.NoFilterCountsEverySkip | HarnessSpec.IntendedRunAccounts |
| include/test/test.h:466 | the guard `> 128` admits a composed name of exactly 128 characters | suite name of 60 characters, case name of 67: the buffer is full and has no NUL | refuse when the name and its NUL do not fit (`>= 128`) | not executed | HarnessSpec.NameBufferUnterminated | HarnessSpec.TerminatedGuard |
| src/test.c:311 | a non-zero `strcmp` is taken as a match | cases `a` then `b`, asking for `a`, runs `b`; a suite with only `a` exits | run the first case whose name equals the one asked for | not executed | LegacySpec.OtherCaseRuns | Legacy.Engine.RunCaseIntended |

## Left out

- Linker sections: the suite and case descriptors (`__start_`/`__stop_` symbols) are given as input sequences.
- Formatting: `printf`/`vsnprintf` formatting and the 1024-byte log buffer with its truncation are not modelled. Each line is an event that carries its values.
- ANSI colours: each colour escape is a fixed word wrapped around the outcome word; what a terminal does with it is not modelled.
- File system: `access`, `fopen`, `fclose`, `fileno` and `isatty` become boolean parameters (the file exists, it opens, the stream is a terminal).
- Error messages: the messages `test_parse_filter` and `test_parse_options` write to `stderr` are not logged, and neither are those of src/test.c.
- Memory: the aborts of `realloc`/`calloc` on failure are not modelled, nor the `free` calls of `test_exit`. Lists are sequences and arrays.
- Test bodies: setup, teardown and case bodies are function pointers in C.
  - For the header, a body is modelled as a sequence of steps. A step is either a `TEST_CMP` comparison with its outcome given as a boolean, or a write of a result to the outcome slot. Any other code in a body is not modelled.
  - For src/test.c, a case's outcome is given as data.
  - Comparisons (`strcmp`, `memcmp`, `==`) are abstract booleans. Crashes inside a body are not caught by the code and are not modelled.
- Percentages: `uint32_t` overflow of `count * 100` is not modelled; the percentages use unbounded integers.
- Help text: `print_help` is one event and its text is not modelled. In C it goes to standard output with `printf`, before the output stream is opened. The model appends it to the same log as the output stream.
- `TEST_DEBUG` trap macros: not modelled.
- `test_register_suit` and `test_register_case`: stubs that always return false; they are not part of this model.
- `test_runner_run_suit` in the header (include/test/test.h:376-382): nothing in the header calls it, and `test_run_all`'s own loops are modelled instead.
- test/main.c (the process entry) and test/test_assert.c (example input only) are not part of this model.
- `test_exit` and a second call of `test_init` are not modelled.
- Matcher.WildcardMatch: completeness is proved only for texts without `*`. A `*` in the text is matched literally against a `*` in the pattern, without a backtrack point, so for such texts only soundness is stated. Every registered name is a C identifier and has no `*` (`HarnessSpec.RegistryNames`).
- Harness.Harness.FilterCase: completeness is stated for star-free names only, for the reason just given.
- Harness.Harness.FilterCase: in C, a composed name of exactly 128 characters fills the buffer without a NUL. `test_wildcard_match` then runs `strlen` past the buffer's end, which is undefined behaviour. The model reads the full buffer instead, so it matches that name as if it were terminated.
- Harness.Harness.MatchesAny: completeness is stated for star-free names only, for the same reason.
- Legacy.Engine: src/test.c keeps pointers to the section's suites; the model keeps the suites as values in an array. Aliasing between the section and the registry is not modelled.
- Legacy.Engine.BuildRegistry: the per-case `realloc` growth of src/test.c is modelled as one list that grows by one case at a time.
- Legacy.Engine.RunCase: the `exit(1)` calls of `test_run_case` are modelled as the results `NoSuite` and `NoCase`, with the message left out.
- Legacy.Engine.RunSuitByName: a missing suite dereferences NULL in src/test.c; the model requires the suite to exist.
- Legacy.Engine.Init: it requires the section's suites to have no cases yet, as they do when the macros declare them.
