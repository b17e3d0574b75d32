/**
 * The values the test harness of `include/test/test.h` works on, and the
 * functions that say what its loops compute: the outcome of a test body,
 * the registry of suites and cases, which cases a filter selects, how the
 * counters grow over a run, and which lines the harness logs.
 */
module HarnessSpec {
  import opened Optional
  import opened Sequences
  import Matcher
  import FilterText
  import Percentages

  // ---------------------------------------------------------------------
  // Test outcomes
  // ---------------------------------------------------------------------

  /** `test_intern_Result`. */
  datatype Result = Ok | PartiallyOk | Skipped | Failed

  /**
   * One statement of a test body, as far as the harness can see it: a
   * `TEST_CMP` comparison (from one of the `test_assert*` macros) at a source
   * line, with whether it holds, or a direct write of the outcome slot.
   */
  datatype Step = Check(holds: bool, line: nat) | Store(result: Result)

  /**
   * The outcome slot after running `body` from the value `r`: a failing
   * comparison sets `Failed` and returns from the body at once.
   */
  function Exec(body: seq<Step>, r: Result): Result
    decreases |body|
  {
    if body == [] then r
    else match body[0]
      case Check(holds, _) => if holds then Exec(body[1..], r) else Failed
      case Store(x) => Exec(body[1..], x)
  }

  // ---------------------------------------------------------------------
  // Log lines
  // ---------------------------------------------------------------------

  /** A line the harness writes, or a call it makes, in the order it happens. */
  datatype Event =
    | Running(fileName: string, line: nat, suitName: string, caseName: string, dimmed: bool)
    | SetupCalled(suitName: string)
    | BodyCalled(suitName: string, caseName: string)
    | CheckFailed(line: nat)
    | TeardownCalled(suitName: string)
    | Outcome(text: string)
    | Attempted(attempted: nat, total: nat)
    | Tally(heading: string, count: nat, percent: nat)
    | ListingHeader
    | Listed(suitName: string, caseName: string)
    | UnknownSuite(suitName: string, caseName: string)
    | HelpText

  /** The lines a body logs: the message of the comparison that stopped it, if one did. */
  function BodyLog(body: seq<Step>): seq<Event>
    decreases |body|
  {
    if body == [] then []
    else match body[0]
      case Check(holds, line) => if holds then BodyLog(body[1..]) else [CheckFailed(line)]
      case Store(_) => BodyLog(body[1..])
  }

  /** A failing comparison makes the run `Failed`, whatever came before it, and nothing after it runs or logs. */
  lemma {:induction false} FailFast(pre: seq<Step>, line: nat, rest: seq<Step>, r: Result)
    ensures Exec(pre + [Check(false, line)] + rest, r) == Failed
    ensures BodyLog(pre + [Check(false, line)] + rest) == BodyLog(pre + [Check(false, line)])
    ensures |BodyLog(pre + [Check(false, line)])| == 1
    decreases |pre|
  {
    var body := pre + [Check(false, line)] + rest;
    if pre == [] {
      assert body[0] == Check(false, line);
      assert (pre + [Check(false, line)])[0] == Check(false, line);
    } else {
      assert body[0] == pre[0] && body[1..] == pre[1..] + [Check(false, line)] + rest;
      assert (pre + [Check(false, line)])[1..] == pre[1..] + [Check(false, line)];
      FailFast(pre[1..], line, rest, if pre[0].Store? then pre[0].result else r);
    }
  }

  /**
   * A body made only of comparisons ends `Ok` exactly when every comparison
   * holds, and `Failed` otherwise; it logs a line exactly when it fails.
   */
  lemma {:induction false} ChecksOnly(body: seq<Step>)
    requires forall i :: 0 <= i < |body| ==> body[i].Check?
    ensures Exec(body, Ok) == Ok <==> forall i :: 0 <= i < |body| ==> body[i].holds
    ensures Exec(body, Ok) == Ok || Exec(body, Ok) == Failed
    ensures BodyLog(body) == [] <==> Exec(body, Ok) == Ok
    decreases |body|
  {
    if body != [] {
      ChecksOnly(body[1..]);
      if body[0].holds {
        forall i | 0 <= i < |body[1..]| ensures body[1..][i] == body[i + 1] { }
      }
    }
  }

  // ---------------------------------------------------------------------
  // Suites, cases and the registry
  // ---------------------------------------------------------------------

  /** `test_intern_SuitData`: a suite's name and whether it has a setup and a teardown function. */
  datatype SuitData = SuitData(name: string, hasSetup: bool, hasTeardown: bool)

  /** `test_intern_TestCase`; the body stands for the case's function. */
  datatype TestCase = TestCase(line: nat, name: string, suitName: string, fileName: string, body: seq<Step>)

  /** `test_intern_Suit`: a registered suite and its cases; `test_count` is the length of the list. */
  datatype Suit = Suit(testList: seq<TestCase>, suitData: SuitData)

  /** A registered case together with the suite it runs in. */
  datatype Entry = Entry(suit: SuitData, test: TestCase)

  /** The first suite at or after `from` whose name is `name`. */
  function FindFrom(suits: seq<SuitData>, name: string, from: nat): (r: Option<nat>)
    ensures r.Some? ==> from <= r.value < |suits| && suits[r.value].name == name &&
                        forall k :: from <= k < r.value ==> suits[k].name != name
    ensures r.None? ==> forall k :: from <= k < |suits| ==> suits[k].name != name
    decreases |suits| - from
  {
    if from >= |suits| then None
    else if suits[from].name == name then Some(from)
    else FindFrom(suits, name, from + 1)
  }

  /** `test_suit_find_by_name` on the suite descriptors: the first suite named `name`. */
  function FindSuit(suits: seq<SuitData>, name: string): (r: Option<nat>)
    ensures r.Some? ==> r.value < |suits| && suits[r.value].name == name &&
                        forall k :: 0 <= k < r.value ==> suits[k].name != name
    ensures r.None? <==> forall k :: 0 <= k < |suits| ==> suits[k].name != name
  {
    FindFrom(suits, name, 0)
  }

  /** A suite index the lookup can return: the first suite of its own name. */
  predicate Cached(suits: seq<SuitData>, s: Option<nat>) {
    s.Some? && s.value < |suits| && FindSuit(suits, suits[s.value].name) == s
  }

  predicate Resolves(suits: seq<SuitData>, c: TestCase) {
    FindSuit(suits, c.suitName).Some?
  }

  /** The cases of `cs`, in order, whose suite name resolves to suite `i`. */
  function CasesFor(suits: seq<SuitData>, cs: seq<TestCase>, i: nat): seq<TestCase>
    decreases |cs|
  {
    if cs == [] then []
    else
      CasesFor(suits, cs[..|cs| - 1], i) +
      (if FindSuit(suits, cs[|cs| - 1].suitName) == Some(i) then [cs[|cs| - 1]] else [])
  }

  /** The index of the first case whose suite does not exist, or `|cs|` when every case resolves. */
  function FirstUnknown(suits: seq<SuitData>, cs: seq<TestCase>): (r: nat)
    ensures r <= |cs|
    ensures forall k :: 0 <= k < r ==> Resolves(suits, cs[k])
    ensures r < |cs| ==> !Resolves(suits, cs[r])
    decreases |cs|
  {
    if cs == [] then 0
    else
      var f := FirstUnknown(suits, cs[..|cs| - 1]);
      if f < |cs| - 1 then f
      else if Resolves(suits, cs[|cs| - 1]) then |cs|
      else |cs| - 1
  }

  /** The registry built from the suite and case descriptors: every suite in section order, each with its cases in section order. */
  function Registry(suits: seq<SuitData>, cs: seq<TestCase>): (r: seq<Suit>)
    ensures |r| == |suits|
    ensures forall i :: 0 <= i < |suits| ==> r[i].suitData == suits[i]
  {
    seq(|suits|, i requires 0 <= i < |suits| => Suit(CasesFor(suits, cs, i), suits[i]))
  }

  /** The sum of the suites' `test_count`. */
  function TestTotal(list: seq<Suit>): nat
    decreases |list|
  {
    if list == [] then 0 else TestTotal(list[..|list| - 1]) + |list[|list| - 1].testList|
  }

  /** A suite's cases paired with the suite. */
  function Pairs(s: Suit): (r: seq<Entry>)
    ensures |r| == |s.testList|
    ensures forall j :: 0 <= j < |r| ==> r[j] == Entry(s.suitData, s.testList[j])
  {
    seq(|s.testList|, j requires 0 <= j < |s.testList| => Entry(s.suitData, s.testList[j]))
  }

  /** Every registered case in the order the run loops visit them: suite by suite, case by case. */
  function Flatten(list: seq<Suit>): (r: seq<Entry>)
    ensures |r| == TestTotal(list)
    decreases |list|
  {
    if list == [] then [] else Flatten(list[..|list| - 1]) + Pairs(list[|list| - 1])
  }

  /** Lists that differ only in suite `i` having one more case have one more case in total. */
  lemma {:induction false} TestTotalBump(a: seq<Suit>, b: seq<Suit>, i: nat)
    requires |a| == |b| && i < |a|
    requires forall k :: 0 <= k < |a| && k != i ==> |a[k].testList| == |b[k].testList|
    requires |b[i].testList| == |a[i].testList| + 1
    ensures TestTotal(b) == TestTotal(a) + 1
    decreases |a|
  {
    var n := |a|;
    if i < n - 1 {
      TestTotalBump(a[..n - 1], b[..n - 1], i);
    } else {
      TestTotalSame(a[..n - 1], b[..n - 1]);
    }
  }

  lemma {:induction false} TestTotalSame(a: seq<Suit>, b: seq<Suit>)
    requires |a| == |b|
    requires forall k :: 0 <= k < |a| ==> |a[k].testList| == |b[k].testList|
    ensures TestTotal(b) == TestTotal(a)
    decreases |a|
  {
    if a != [] {
      TestTotalSame(a[..|a| - 1], b[..|b| - 1]);
    }
  }

  /** Registering one more case adds it to the end of its suite's list and to no other. */
  lemma RegistryAppend(suits: seq<SuitData>, cs: seq<TestCase>, c: TestCase)
    ensures var i := FindSuit(suits, c.suitName);
      forall k :: 0 <= k < |suits| ==>
        Registry(suits, cs + [c])[k].testList ==
        Registry(suits, cs)[k].testList + (if i == Some(k) then [c] else [])
  {
    assert (cs + [c])[..|cs|] == cs;
  }



  /** Appending a case to the list of the suite it resolves to turns the registry of `cs` into that of `cs + [c]`. */
  lemma RegistryStep(suits: seq<SuitData>, cs: seq<TestCase>, c: TestCase, k: nat)
    requires FindSuit(suits, c.suitName) == Some(k)
    ensures var before := Registry(suits, cs);
      Registry(suits, cs + [c]) == before[k := before[k].(testList := before[k].testList + [c])]
  {
    var before, after := Registry(suits, cs), Registry(suits, cs + [c]);
    var updated := before[k := before[k].(testList := before[k].testList + [c])];
    RegistryAppend(suits, cs, c);
    forall i | 0 <= i < |after| ensures after[i] == updated[i] {
      assert after[i].testList == updated[i].testList;
    }
  }

  /** Before any case is registered every suite has an empty list. */
  lemma RegistryEmpty(suits: seq<SuitData>)
    ensures forall k :: 0 <= k < |suits| ==> Registry(suits, [])[k] == Suit([], suits[k])
  {
  }

  /** A case at or before the first unknown one that resolves is not the first unknown one. */
  lemma PastResolved(suits: seq<SuitData>, cs: seq<TestCase>, j: nat)
    requires j < |cs| && j <= FirstUnknown(suits, cs) && Resolves(suits, cs[j])
    ensures j + 1 <= FirstUnknown(suits, cs)
  {
  }

  /**
   * Where the case pass stops: once the first `m` cases have resolved and
   * case `m` does not (or there is none), `m` is the first unknown case and
   * the registry of the first `m` cases holds exactly `m` cases.
   */
  lemma RegistryStops(suits: seq<SuitData>, cs: seq<TestCase>, m: nat)
    requires m <= FirstUnknown(suits, cs)
    requires m < |cs| ==> !Resolves(suits, cs[m])
    ensures FirstUnknown(suits, cs) == m
    ensures TestTotal(Registry(suits, cs[..m])) == m
  {
    RegistryTotal(suits, cs[..m]);
  }

  /**
   * Each case is registered once: when every case resolves, the suites'
   * `test_count` values add up to the number of cases.
   */
  lemma {:induction false} RegistryTotal(suits: seq<SuitData>, cs: seq<TestCase>)
    requires forall k :: 0 <= k < |cs| ==> Resolves(suits, cs[k])
    ensures TestTotal(Registry(suits, cs)) == |cs|
    decreases |cs|
  {
    if cs == [] {
      TestTotalZero(Registry(suits, cs));
    } else {
      var init, c := cs[..|cs| - 1], cs[|cs| - 1];
      assert forall k :: 0 <= k < |init| ==> init[k] == cs[k];
      RegistryTotal(suits, init);
      DropLast(cs);
      RegistryBump(suits, init, c, cs);
    }
  }

  /** Registering a case that resolves adds one to the total. */
  lemma RegistryBump(suits: seq<SuitData>, cs: seq<TestCase>, c: TestCase, more: seq<TestCase>)
    requires Resolves(suits, c) && more == cs + [c]
    ensures TestTotal(Registry(suits, more)) == TestTotal(Registry(suits, cs)) + 1
  {
    RegistryAppend(suits, cs, c);
    TestTotalBump(Registry(suits, cs), Registry(suits, more), FindSuit(suits, c.suitName).value);
  }

  lemma {:induction false} TestTotalZero(list: seq<Suit>)
    requires forall k :: 0 <= k < |list| ==> list[k].testList == []
    ensures TestTotal(list) == 0
    decreases |list|
  {
    if list != [] {
      TestTotalZero(list[..|list| - 1]);
    }
  }

  /** No suite holds more cases than the registry as a whole. */
  lemma {:induction false} TestTotalCovers(list: seq<Suit>, i: nat)
    requires i < |list|
    ensures |list[i].testList| <= TestTotal(list)
    decreases |list|
  {
    if i < |list| - 1 {
      TestTotalCovers(list[..|list| - 1], i);
    }
  }

  /** Every case of suite `i` names that suite, and is the first suite of that name (duplicates resolve first-wins). */
  lemma {:induction false} CasesForBelong(suits: seq<SuitData>, cs: seq<TestCase>, i: nat)
    ensures forall c :: c in CasesFor(suits, cs, i) ==> c in cs && FindSuit(suits, c.suitName) == Some(i)
    ensures i < |suits| ==> forall c :: c in CasesFor(suits, cs, i) ==>
              c.suitName == suits[i].name && forall k :: 0 <= k < i ==> suits[k].name != c.suitName
    decreases |cs|
  {
    if cs != [] {
      CasesForBelong(suits, cs[..|cs| - 1], i);
    }
  }

  /** Conversely, every case that resolves to suite `i` is in its list. */
  lemma {:induction false} CasesForComplete(suits: seq<SuitData>, cs: seq<TestCase>, i: nat)
    ensures forall c :: c in cs && FindSuit(suits, c.suitName) == Some(i) ==> c in CasesFor(suits, cs, i)
    decreases |cs|
  {
    if cs != [] {
      var init := cs[..|cs| - 1];
      CasesForComplete(suits, init, i);
      assert cs == init + [cs[|cs| - 1]];
    }
  }

  // ---------------------------------------------------------------------
  // Selection by filter patterns
  // ---------------------------------------------------------------------

  /** Some pattern of `patterns` matches `name` (checked in order, as `test_filter_case` does). */
  predicate AnyMatch(name: string, patterns: seq<string>)
    decreases |patterns|
  {
    |patterns| > 0 &&
    (AnyMatch(name, patterns[..|patterns| - 1]) || Matcher.Glob(name, patterns[|patterns| - 1]))
  }

  lemma {:induction false} AnyMatchExists(name: string, patterns: seq<string>)
    ensures AnyMatch(name, patterns) <==> exists k :: 0 <= k < |patterns| && Matcher.Glob(name, patterns[k])
    decreases |patterns|
  {
    if patterns != [] {
      var init := patterns[..|patterns| - 1];
      AnyMatchExists(name, init);
      if AnyMatch(name, init) {
        var k :| 0 <= k < |init| && Matcher.Glob(name, init[k]);
        assert patterns[k] == init[k];
      }
      if k :| 0 <= k < |patterns| && Matcher.Glob(name, patterns[k]) {
        if k < |init| {
          assert init[k] == patterns[k];
        }
      }
    }
  }

  /** A pattern match on a prefix of the patterns is a match on all of them. */
  lemma {:induction false} AnyMatchPrefix(name: string, patterns: seq<string>, j: nat)
    requires j <= |patterns| && AnyMatch(name, patterns[..j])
    ensures AnyMatch(name, patterns)
    decreases |patterns|
  {
    if j < |patterns| {
      var init := patterns[..|patterns| - 1];
      assert init[..j] == patterns[..j];
      AnyMatchPrefix(name, init, j);
    } else {
      assert patterns[..j] == patterns;
    }
  }

  /** The guard of `test_filter_case`: the suite name, a colon and the case name take no more than the buffer's size. */
  predicate Fits(suitName: string, caseName: string) {
    |suitName| + |caseName| + 1 <= FilterText.FilterSizeLimit
  }

  /** `test_filter_case`: the composed name fits and matches at least one pattern. */
  predicate Selects(suitName: string, caseName: string, patterns: seq<string>) {
    Fits(suitName, caseName) && AnyMatch(suitName + [':'] + caseName, patterns)
  }

  predicate Chosen(e: Entry, patterns: seq<string>) {
    Selects(e.suit.name, e.test.name, patterns)
  }

  /** The contents of `test_filter_case`'s name buffer: all NUL when the name does not fit, otherwise `suite:case` followed by NULs. */
  function NameBuffer(suitName: string, caseName: string): (b: seq<char>)
    ensures |b| == FilterText.FilterSizeLimit
  {
    var size := FilterText.FilterSizeLimit;
    if |suitName| + |caseName| + 1 > size then seq(size, _ => FilterText.NUL)
    else suitName + [':'] + caseName + seq(size - |suitName| - |caseName| - 1, _ => FilterText.NUL)
  }

  /** A string a C `char *` can hold: no NUL inside. */
  predicate CText(s: string) {
    forall i :: 0 <= i < |s| ==> s[i] != FilterText.NUL
  }

  /** The character at offset `j` of the name buffer of a name that fits. */
  lemma NameBufferAt(suitName: string, caseName: string, j: nat)
    requires Fits(suitName, caseName) && j < FilterText.FilterSizeLimit
    ensures NameBuffer(suitName, caseName)[j] ==
      if j < |suitName| then suitName[j]
      else if j == |suitName| then ':'
      else if j <= |suitName| + |caseName| then caseName[j - |suitName| - 1]
      else FilterText.NUL
  {
  }

  /** When the name fits, the buffer read as a C string is the composed `suite:case` name. */
  lemma NameBufferReads(suitName: string, caseName: string)
    requires Fits(suitName, caseName) && CText(suitName) && CText(caseName)
    ensures FilterText.CString(NameBuffer(suitName, caseName), 0) == suitName + [':'] + caseName
  {
    var b, name := NameBuffer(suitName, caseName), suitName + [':'] + caseName;
    forall j | 0 <= j < |name| ensures b[j] == name[j] && b[j] != FilterText.NUL {
      if j < |suitName| {
        assert name[j] == suitName[j];
      } else if j > |suitName| {
        assert name[j] == caseName[j - |suitName| - 1];
      }
    }
    FilterText.CStringOfRun(b, 0, |name|);
    assert b[0..|name|] == name;
  }

  /**
   * The size guard admits a name that fills the whole buffer: when `suite:case`
   * is exactly 128 characters long the buffer holds no NUL, so reading it as a
   * C string runs past its end.
   */
  lemma NameBufferUnterminated(suitName: string, caseName: string)
    requires |suitName| + |caseName| + 1 == FilterText.FilterSizeLimit && CText(suitName) && CText(caseName)
    ensures Fits(suitName, caseName)
    ensures forall j :: 0 <= j < FilterText.FilterSizeLimit ==> NameBuffer(suitName, caseName)[j] != FilterText.NUL
  {
    var b := NameBuffer(suitName, caseName);
    assert b == suitName + [':'] + caseName + [];
    forall j | 0 <= j < FilterText.FilterSizeLimit ensures b[j] != FilterText.NUL {
      if j < |suitName| {
        assert b[j] == suitName[j];
      } else if j > |suitName| {
        assert b[j] == caseName[j - |suitName| - 1];
      }
    }
  }

  /**
   * The evidently intended size guard of `test_filter_case`: the composed
   * name and its NUL terminator both fit in the buffer.
   */
  predicate FitsTerminated(suitName: string, caseName: string) {
    |suitName| + |caseName| + 1 < FilterText.FilterSizeLimit
  }

  /** `test_filter_case` with the intended guard: the terminated name fits and matches at least one pattern. */
  predicate SelectsTerminated(suitName: string, caseName: string, patterns: seq<string>) {
    FitsTerminated(suitName, caseName) && AnyMatch(suitName + [':'] + caseName, patterns)
  }

  /**
   * Every name the intended guard admits leaves a NUL right after it in the
   * buffer, so the buffer reads back as `suite:case` within its bounds. The
   * only names the written guard admits beyond it are those of exactly the
   * buffer's size.
   */
  lemma TerminatedGuard(suitName: string, caseName: string)
    requires CText(suitName) && CText(caseName)
    ensures FitsTerminated(suitName, caseName) ==>
      Fits(suitName, caseName) &&
      NameBuffer(suitName, caseName)[|suitName| + |caseName| + 1] == FilterText.NUL &&
      FilterText.CString(NameBuffer(suitName, caseName), 0) == suitName + [':'] + caseName
    ensures Fits(suitName, caseName) && !FitsTerminated(suitName, caseName) ==>
      |suitName| + |caseName| + 1 == FilterText.FilterSizeLimit
  {
    if FitsTerminated(suitName, caseName) {
      NameBufferAt(suitName, caseName, |suitName| + |caseName| + 1);
      NameBufferReads(suitName, caseName);
    }
  }

  /** The intended selection differs from the written one only on a name of exactly the buffer's size, which it refuses. */
  lemma SelectsTerminatedAgrees(suitName: string, caseName: string, patterns: seq<string>)
    ensures |suitName| + |caseName| + 1 != FilterText.FilterSizeLimit ==>
      (SelectsTerminated(suitName, caseName, patterns) <==> Selects(suitName, caseName, patterns))
    ensures |suitName| + |caseName| + 1 == FilterText.FilterSizeLimit ==> !SelectsTerminated(suitName, caseName, patterns)
  {
  }

  /** A name as the `SUIT` and `TEST` macros produce it: a C identifier, so without `*` or NUL. */
  predicate MacroName(s: string) {
    Matcher.NoStar(s) && CText(s)
  }

  /** Every suite name and case name in the registry is a macro name. */
  predicate RegisteredNames(list: seq<Suit>) {
    forall i :: 0 <= i < |list| ==>
      (MacroName(list[i].suitData.name) &&
       forall j :: 0 <= j < |list[i].testList| ==> MacroName(list[i].testList[j].name))
  }

  /** Every suite and case descriptor carries a name the registration macros can produce. */
  predicate DescriptorNames(suits: seq<SuitData>, cs: seq<TestCase>) {
    (forall i :: 0 <= i < |suits| ==> MacroName(suits[i].name)) &&
    (forall k :: 0 <= k < |cs| ==> MacroName(cs[k].name))
  }

  /** A registry built from descriptors with macro names has only macro names. */
  lemma RegistryNames(suits: seq<SuitData>, cs: seq<TestCase>)
    requires DescriptorNames(suits, cs)
    ensures RegisteredNames(Registry(suits, cs))
  {
    var r := Registry(suits, cs);
    forall i, j | 0 <= i < |r| && 0 <= j < |r[i].testList| ensures MacroName(r[i].testList[j].name) {
      CasesForBelong(suits, cs, i);
      assert r[i].testList[j] in cs;
    }
  }

  /** The composed name of two macro names has no `*`. */
  lemma ComposedNoStar(suitName: string, caseName: string)
    requires Matcher.NoStar(suitName) && Matcher.NoStar(caseName)
    ensures Matcher.NoStar(suitName + [':'] + caseName)
  {
    var name := suitName + [':'] + caseName;
    forall k | 0 <= k < |name| ensures name[k] != '*' {
      if k < |suitName| {
        assert name[k] == suitName[k];
      } else if k > |suitName| {
        assert name[k] == caseName[k - |suitName| - 1];
      }
    }
  }

  // ---------------------------------------------------------------------
  // The options `test_parse_options` derives
  // ---------------------------------------------------------------------

  /** Where the log goes: not set yet, standard output, or a new file. */
  datatype Stream = NoStream | Stdout | File(path: string)

  /** `--output` is absent, or names a file that does not exist yet and can be opened. */
  predicate OutputAccepted(outputValue: Option<string>, outputExists: bool, outputOpens: bool) {
    outputValue.None? || (!outputExists && outputOpens)
  }

  /** The `--colored` setting, `auto` when it is not given. */
  function ColorSetting(coloredValue: Option<string>): string {
    if coloredValue.None? then "auto" else coloredValue.value
  }

  predicate ColorAccepted(setting: string) {
    setting == "auto" || setting == "always" || setting == "never"
  }

  /** `auto` colours exactly when the output stream is a terminal. */
  function ColorChoice(setting: string, isTty: bool): bool {
    if setting == "auto" then isTty else setting == "always"
  }

  function SuitDatas(list: seq<Suit>): (r: seq<SuitData>)
    ensures |r| == |list| && forall i :: 0 <= i < |list| ==> r[i] == list[i].suitData
  {
    seq(|list|, i requires 0 <= i < |list| => list[i].suitData)
  }

  /** The registry keeps the suite descriptors, in order. */
  lemma RegistrySuitDatas(suits: seq<SuitData>, cs: seq<TestCase>)
    ensures SuitDatas(Registry(suits, cs)) == suits
  {
  }

  /** `test_run_all` runs a case when there are no patterns or when it is chosen. */
  predicate Runs(e: Entry, patterns: seq<string>) {
    |patterns| == 0 || Chosen(e, patterns)
  }

  /** The cases that run, in visiting order. */
  function RunSet(es: seq<Entry>, patterns: seq<string>): (r: seq<Entry>)
    ensures |r| <= |es|
    decreases |es|
  {
    if es == [] then []
    else RunSet(es[..|es| - 1], patterns) + (if Runs(es[|es| - 1], patterns) then [es[|es| - 1]] else [])
  }

  /** How many cases are not chosen. */
  function Unchosen(es: seq<Entry>, patterns: seq<string>): (r: nat)
    ensures r <= |es|
    decreases |es|
  {
    if es == [] then 0
    else Unchosen(es[..|es| - 1], patterns) + (if Chosen(es[|es| - 1], patterns) then 0 else 1)
  }

  /** A case runs exactly when it is registered and (there are no patterns or it is chosen); run order is visiting order. */
  lemma {:induction false} RunSetMembers(es: seq<Entry>, patterns: seq<string>)
    ensures forall e :: e in RunSet(es, patterns) <==> e in es && Runs(e, patterns)
    decreases |es|
  {
    if es != [] {
      var init := es[..|es| - 1];
      RunSetMembers(init, patterns);
      assert es == init + [es[|es| - 1]];
    }
  }

  /** With patterns, every registered case is either run or counted as not chosen. */
  lemma {:induction false} FilteredPartition(es: seq<Entry>, patterns: seq<string>)
    requires |patterns| > 0
    ensures |RunSet(es, patterns)| + Unchosen(es, patterns) == |es|
    decreases |es|
  {
    if es != [] {
      FilteredPartition(es[..|es| - 1], patterns);
    }
  }

  /** With no patterns, every case runs and every case is also counted as not chosen. */
  lemma {:induction false} NoPatterns(es: seq<Entry>)
    ensures RunSet(es, []) == es
    ensures Unchosen(es, []) == |es|
    decreases |es|
  {
    if es != [] {
      NoPatterns(es[..|es| - 1]);
      assert es == es[..|es| - 1] + [es[|es| - 1]];
    }
  }

  // ---------------------------------------------------------------------
  // Counters
  // ---------------------------------------------------------------------

  /** The `test_runner` counters. */
  datatype Runner = Runner(successful: nat, attempted: nat, failed: nat, partially: nat,
                           skipped: nat, suitsFailed: nat, suitsSkipped: nat)

  const Reset: Runner := Runner(0, 0, 0, 0, 0, 0, 0)

  /** `test_runner_run_test`'s counter update for a case that ended with `r`. */
  function Record(c: Runner, r: Result): (d: Runner)
    ensures d.attempted == c.attempted + 1
    ensures d.successful + d.partially + d.skipped + d.failed == c.successful + c.partially + c.skipped + c.failed + 1
    ensures d.suitsFailed == c.suitsFailed && d.suitsSkipped == c.suitsSkipped
  {
    var c := c.(attempted := c.attempted + 1);
    match r
    case Ok => c.(successful := c.successful + 1)
    case PartiallyOk => c.(partially := c.partially + 1)
    case Skipped => c.(skipped := c.skipped + 1)
    case Failed => c.(failed := c.failed + 1)
  }

  /** How many of the cases end with `r`. */
  function CountResult(es: seq<Entry>, r: Result): (n: nat)
    ensures n <= |es|
    decreases |es|
  {
    if es == [] then 0
    else CountResult(es[..|es| - 1], r) + (if Exec(es[|es| - 1].test.body, Ok) == r then 1 else 0)
  }

  /** The counters after `test_run_all` has visited one case: one more skip when it is not chosen, then its outcome when it runs. */
  function Visit(c: Runner, e: Entry, patterns: seq<string>): Runner {
    var counted := if Chosen(e, patterns) then c else c.(skipped := c.skipped + 1);
    if Runs(e, patterns) then Record(counted, Exec(e.test.body, Ok)) else counted
  }

  /** The counters after `test_run_all` has visited the cases `es`, starting from `c`. */
  function RunEffect(c: Runner, es: seq<Entry>, patterns: seq<string>): Runner
    decreases |es|
  {
    if es == [] then c
    else Visit(RunEffect(c, es[..|es| - 1], patterns), es[|es| - 1], patterns)
  }

  /** The effect of visiting one case on each counter. */
  lemma VisitTotals(c: Runner, e: Entry, patterns: seq<string>)
    ensures var d, r, runs := Visit(c, e, patterns), Exec(e.test.body, Ok), Runs(e, patterns);
      d.attempted == c.attempted + (if runs then 1 else 0) &&
      d.successful == c.successful + (if runs && r == Ok then 1 else 0) &&
      d.partially == c.partially + (if runs && r == PartiallyOk then 1 else 0) &&
      d.failed == c.failed + (if runs && r == Failed then 1 else 0) &&
      d.skipped == c.skipped + (if runs && r == Skipped then 1 else 0) + (if Chosen(e, patterns) then 0 else 1) &&
      d.suitsFailed == c.suitsFailed && d.suitsSkipped == c.suitsSkipped
  {
  }

  /** Counting one more case adds one to the count of its outcome. */
  lemma CountResultStep(run: seq<Entry>, e: Entry, r: Result)
    ensures CountResult(run + [e], r) == CountResult(run, r) + (if Exec(e.test.body, Ok) == r then 1 else 0)
  {
    assert (run + [e])[..|run|] == run;
  }

  /**
   * The counters after a run in closed form: one attempt per case that
   * runs, each outcome counted once, and one more skip for every case that
   * is not chosen. `suits_failed` and `suits_skipped` never change.
   */
  lemma {:induction false} RunEffectTotals(c: Runner, es: seq<Entry>, patterns: seq<string>)
    ensures var d, run := RunEffect(c, es, patterns), RunSet(es, patterns);
      d.attempted == c.attempted + |run| &&
      d.successful == c.successful + CountResult(run, Ok) &&
      d.partially == c.partially + CountResult(run, PartiallyOk) &&
      d.failed == c.failed + CountResult(run, Failed) &&
      d.skipped == c.skipped + CountResult(run, Skipped) + Unchosen(es, patterns) &&
      d.suitsFailed == c.suitsFailed && d.suitsSkipped == c.suitsSkipped
    decreases |es|
  {
    if es != [] {
      var init, e := es[..|es| - 1], es[|es| - 1];
      assert es == init + [e];
      RunEffectTotals(c, init, patterns);
      RunEffectStep(c, init, e, patterns);
      VisitTotals(RunEffect(c, init, patterns), e, patterns);
      RunSetStep(init, e, patterns);
      var run := RunSet(init, patterns);
      if Runs(e, patterns) {
        CountResultStep(run, e, Ok);
        CountResultStep(run, e, PartiallyOk);
        CountResultStep(run, e, Failed);
        CountResultStep(run, e, Skipped);
      } else {
        assert RunSet(es, patterns) == run;
      }
    }
  }

  /** Every case ends with exactly one of the four outcomes. */
  lemma {:induction false} OutcomesPartition(es: seq<Entry>)
    ensures CountResult(es, Ok) + CountResult(es, PartiallyOk) + CountResult(es, Skipped) + CountResult(es, Failed) == |es|
    decreases |es|
  {
    if es != [] {
      OutcomesPartition(es[..|es| - 1]);
    }
  }

  /**
   * With no patterns every registered case runs and is also counted as
   * skipped: from the reset counters the skip count is at least the number
   * of cases, and with at least one case the summary reports 100 percent or
   * more skipped, even when every case passed.
   */
  lemma NoFilterCountsEverySkip(es: seq<Entry>)
    ensures RunEffect(Reset, es, []).attempted == |es|
    ensures RunEffect(Reset, es, []).skipped == |es| + CountResult(es, Skipped)
    ensures |es| > 0 ==> Percentages.Percent(RunEffect(Reset, es, []).skipped, |es|) >= 100
  {
    RunEffectTotals(Reset, es, []);
    NoPatterns(es);
    if |es| > 0 {
      Percentages.PercentOfTotal(|es|);
      Percentages.PercentMonotonic(|es|, RunEffect(Reset, es, []).skipped, |es|);
    }
  }

  /** With patterns, from the reset counters the four outcome counters add up to the number of registered cases. */
  lemma FilteredRunAccounts(es: seq<Entry>, patterns: seq<string>)
    requires |patterns| > 0
    ensures var d := RunEffect(Reset, es, patterns);
      d.successful + d.partially + d.failed + d.skipped == |es| && d.attempted <= |es|
  {
    RunEffectTotals(Reset, es, patterns);
    OutcomesPartition(RunSet(es, patterns));
    FilteredPartition(es, patterns);
  }

  /**
   * After a filtered run from the reset counters no counter exceeds the
   * number of registered cases, so every percentage of the summary is at
   * most 100.
   */
  lemma FilteredReportBounded(es: seq<Entry>, patterns: seq<string>)
    requires |patterns| > 0
    ensures Reportable(RunEffect(Reset, es, patterns), |es|)
    ensures forall k :: 1 <= k < 5 ==> ReportLog(RunEffect(Reset, es, patterns), |es|)[k].percent <= 100
  {
    var d := RunEffect(Reset, es, patterns);
    FilteredRunAccounts(es, patterns);
    ReportPercentsBounded(d, |es|);
  }

  /** Counters that each stay within the total report at most 100 percent on every line. */
  lemma ReportPercentsBounded(c: Runner, total: nat)
    requires c.successful <= total && c.failed <= total && c.partially <= total && c.skipped <= total
    ensures Reportable(c, total)
    ensures forall k :: 1 <= k < 5 ==> ReportLog(c, total)[k].percent <= 100
  {
    Percentages.PercentAtMostHundred(c.successful, total);
    Percentages.PercentAtMostHundred(c.failed, total);
    Percentages.PercentAtMostHundred(c.partially, total);
    Percentages.PercentAtMostHundred(c.skipped, total);
  }

  // ---------------------------------------------------------------------
  // The skip count as intended
  // ---------------------------------------------------------------------

  /**
   * The evidently intended counter update of `test_run_all`: a case counts
   * as skipped only when a filter is set and does not select it, which is
   * exactly when it does not run.
   */
  function VisitIntended(c: Runner, e: Entry, patterns: seq<string>): Runner {
    if Runs(e, patterns) then Record(c, Exec(e.test.body, Ok)) else c.(skipped := c.skipped + 1)
  }

  /** The counters after visiting the cases `es` with the intended update, starting from `c`. */
  function RunEffectIntended(c: Runner, es: seq<Entry>, patterns: seq<string>): Runner
    decreases |es|
  {
    if es == [] then c
    else VisitIntended(RunEffectIntended(c, es[..|es| - 1], patterns), es[|es| - 1], patterns)
  }

  /** The four outcome counters together. */
  function Outcomes(c: Runner): nat {
    c.successful + c.partially + c.skipped + c.failed
  }

  /** With a filter set, the intended update is the one the code makes. */
  lemma {:induction false} IntendedAgreesFiltered(c: Runner, es: seq<Entry>, patterns: seq<string>)
    requires |patterns| > 0
    ensures RunEffectIntended(c, es, patterns) == RunEffect(c, es, patterns)
    decreases |es|
  {
    if es != [] {
      IntendedAgreesFiltered(c, es[..|es| - 1], patterns);
    }
  }

  /**
   * Under the intended update every visited case is counted under exactly
   * one outcome, whether it runs or is skipped, and it is attempted exactly
   * when it runs.
   */
  lemma {:induction false} IntendedTotals(c: Runner, es: seq<Entry>, patterns: seq<string>)
    ensures Outcomes(RunEffectIntended(c, es, patterns)) == Outcomes(c) + |es|
    ensures RunEffectIntended(c, es, patterns).attempted == c.attempted + |RunSet(es, patterns)|
    decreases |es|
  {
    if es != [] {
      IntendedTotals(c, es[..|es| - 1], patterns);
    }
  }

  /** Without a filter, the intended update counts as skipped only the cases whose body ends skipped. */
  lemma {:induction false} IntendedNoFilterSkips(c: Runner, es: seq<Entry>)
    ensures RunEffectIntended(c, es, []).skipped == c.skipped + CountResult(es, Skipped)
    decreases |es|
  {
    if es != [] {
      IntendedNoFilterSkips(c, es[..|es| - 1]);
    }
  }

  /**
   * With the intended update, whatever the filter, a run from counters with
   * nothing counted yet (such as the reset ones) counts every registered
   * case under exactly one outcome, attempts exactly the cases that run, and
   * reports no percentage above 100.
   */
  lemma IntendedRunAccounts(c: Runner, es: seq<Entry>, patterns: seq<string>)
    requires c.attempted == 0 && Outcomes(c) == 0
    ensures Outcomes(RunEffectIntended(c, es, patterns)) == |es|
    ensures RunEffectIntended(c, es, patterns).attempted == |RunSet(es, patterns)|
    ensures Reportable(RunEffectIntended(c, es, patterns), |es|)
    ensures forall k :: 1 <= k < 5 ==> ReportLog(RunEffectIntended(c, es, patterns), |es|)[k].percent <= 100
  {
    var d := RunEffectIntended(c, es, patterns);
    IntendedTotals(c, es, patterns);
    assert d.successful <= |es| && d.failed <= |es| && d.partially <= |es| && d.skipped <= |es|;
    ReportPercentsBounded(d, |es|);
  }

  // ---------------------------------------------------------------------
  // What the run and the listing log
  // ---------------------------------------------------------------------

  const Esc: char := 27 as char
  const ColorReset: string := [Esc] + "[0m"
  const ColorRed: string := [Esc] + "[31m"
  const ColorGreen: string := [Esc] + "[32m"
  const ColorYellow: string := [Esc] + "[33m"
  const ColorCyan: string := [Esc] + "[36m"

  function PlainResultString(r: Result): string {
    match r
    case Ok => "ok"
    case PartiallyOk => "partially ok"
    case Skipped => "skipped"
    case Failed => "failed"
  }

  function ResultColor(r: Result): string {
    match r
    case Ok => ColorGreen
    case PartiallyOk => ColorYellow
    case Skipped => ColorCyan
    case Failed => ColorRed
  }

  /** The word logged for an outcome, wrapped in its colour when the output is coloured. */
  function ResultString(r: Result, colored: bool): string {
    if colored then ResultColor(r) + PlainResultString(r) + ColorReset else PlainResultString(r)
  }

  /** Different outcomes log different words, coloured or not. */
  lemma ResultStringsDistinct(r1: Result, r2: Result, colored: bool)
    requires r1 != r2
    ensures ResultString(r1, colored) != ResultString(r2, colored)
  {
    var p1, p2 := PlainResultString(r1), PlainResultString(r2);
    assert |p1| != |p2|;
    assert |ResultColor(r1)| == |ResultColor(r2)|;
  }

  /** What `test_runner_run_test` logs and calls for one case, in order. */
  function TestLog(e: Entry, colored: bool): (r: seq<Event>)
    ensures |r| >= 3 && r[0] == Running(e.test.fileName, e.test.line, e.suit.name, e.test.name, colored)
    ensures r[|r| - 1] == Outcome(ResultString(Exec(e.test.body, Ok), colored))
  {
    [Running(e.test.fileName, e.test.line, e.suit.name, e.test.name, colored)] +
    (if e.suit.hasSetup then [SetupCalled(e.suit.name)] else []) +
    [BodyCalled(e.suit.name, e.test.name)] + BodyLog(e.test.body) +
    (if e.suit.hasTeardown then [TeardownCalled(e.suit.name)] else []) +
    [Outcome(ResultString(Exec(e.test.body, Ok), colored))]
  }

  /** Setup is called before the body and teardown after it, each only when the suite has one. */
  lemma HookOrder(e: Entry, colored: bool)
    ensures var log := TestLog(e, colored);
      (SetupCalled(e.suit.name) in log <==> e.suit.hasSetup) &&
      (TeardownCalled(e.suit.name) in log <==> e.suit.hasTeardown) &&
      (e.suit.hasSetup ==> log[1] == SetupCalled(e.suit.name) && log[2] == BodyCalled(e.suit.name, e.test.name)) &&
      (!e.suit.hasSetup ==> log[1] == BodyCalled(e.suit.name, e.test.name)) &&
      (e.suit.hasTeardown ==> log[|log| - 2] == TeardownCalled(e.suit.name))
  {
    BodyLogShape(e.test.body);
  }

  /** A body logs only comparison failures. */
  lemma {:induction false} BodyLogShape(body: seq<Step>)
    ensures forall k :: 0 <= k < |BodyLog(body)| ==> BodyLog(body)[k].CheckFailed?
    decreases |body|
  {
    if body != [] {
      BodyLogShape(body[1..]);
    }
  }

  /** What a run logs for the cases `es`, case after case. */
  function RunLog(es: seq<Entry>, colored: bool): seq<Event>
    decreases |es|
  {
    if es == [] then [] else RunLog(es[..|es| - 1], colored) + TestLog(es[|es| - 1], colored)
  }

  /** `test_list_all`'s line for each case. */
  function ListLog(es: seq<Entry>): (r: seq<Event>)
    ensures |r| == |es|
    ensures forall k :: 0 <= k < |es| ==> r[k] == Listed(es[k].suit.name, es[k].test.name)
    decreases |es|
  {
    if es == [] then [] else ListLog(es[..|es| - 1]) + [Listed(es[|es| - 1].suit.name, es[|es| - 1].test.name)]
  }

  /** The whole output of `--list` for a registry: the header, then one line per case the filter selects. */
  function Listing(list: seq<Suit>, patterns: seq<string>): seq<Event> {
    [ListingHeader] + ListLog(RunSet(Flatten(list), patterns))
  }

  /** The run order is suite by suite: the cases of one more suite come after all earlier ones. */
  lemma FlattenStep(list: seq<Suit>, i: nat)
    requires i < |list|
    ensures Flatten(list[..i + 1]) == Flatten(list[..i]) + Pairs(list[i])
  {
    assert list[..i + 1][..i] == list[..i];
  }

  /** The first `j + 1` cases of a suite are its first `j` cases and then case `j`. */
  lemma PairsPrefix(s: Suit, j: nat)
    requires j < |s.testList|
    ensures Pairs(s)[..j + 1] == Pairs(s)[..j] + [Entry(s.suitData, s.testList[j])]
  {
  }

  /** Visiting one more case applies its effect to the counters so far. */
  lemma RunEffectStep(c: Runner, es: seq<Entry>, e: Entry, patterns: seq<string>)
    ensures RunEffect(c, es + [e], patterns) == Visit(RunEffect(c, es, patterns), e, patterns)
  {
    assert (es + [e])[..|es|] == es;
  }

  /** Visiting one more case adds it to the cases that run exactly when it runs. */
  lemma RunSetStep(es: seq<Entry>, e: Entry, patterns: seq<string>)
    ensures RunSet(es + [e], patterns) == RunSet(es, patterns) + (if Runs(e, patterns) then [e] else [])
  {
    assert (es + [e])[..|es|] == es;
  }

  lemma RunLogStep(run: seq<Entry>, e: Entry, colored: bool)
    ensures RunLog(run + [e], colored) == RunLog(run, colored) + TestLog(e, colored)
  {
    assert (run + [e])[..|run|] == run;
  }

  lemma ListLogStep(run: seq<Entry>, e: Entry)
    ensures ListLog(run + [e]) == ListLog(run) + [Listed(e.suit.name, e.test.name)]
  {
    assert (run + [e])[..|run|] == run;
  }

  /** Visiting one more case that runs extends a log that ends with the run so far by that case's log. */
  lemma RunLogNext(log0: seq<Event>, es: seq<Entry>, e: Entry, patterns: seq<string>, colored: bool)
    requires Runs(e, patterns)
    ensures log0 + RunLog(RunSet(es + [e], patterns), colored) ==
      log0 + RunLog(RunSet(es, patterns), colored) + TestLog(e, colored)
  {
    RunSetStep(es, e, patterns);
    RunLogStep(RunSet(es, patterns), e, colored);
  }

  /** Visiting one more case that does not run leaves the cases that run as they are. */
  lemma RunSetSame(es: seq<Entry>, e: Entry, patterns: seq<string>)
    requires !Runs(e, patterns)
    ensures RunSet(es + [e], patterns) == RunSet(es, patterns)
  {
    RunSetStep(es, e, patterns);
  }

  /** Visiting `a` and then `b` leaves the counters that visiting `a` leaves, then visiting `b` from there. */
  lemma {:induction false} RunEffectAppend(c: Runner, a: seq<Entry>, b: seq<Entry>, patterns: seq<string>)
    ensures RunEffect(c, a + b, patterns) == RunEffect(RunEffect(c, a, patterns), b, patterns)
    decreases |b|
  {
    if b == [] {
      assert a + b == a;
    } else {
      var init := b[..|b| - 1];
      RunEffectAppend(c, a, init, patterns);
      assert (a + b)[..|a + b| - 1] == a + init;
    }
  }

  /** The cases of `a + b` that run are those of `a` followed by those of `b`. */
  lemma {:induction false} RunSetAppend(a: seq<Entry>, b: seq<Entry>, patterns: seq<string>)
    ensures RunSet(a + b, patterns) == RunSet(a, patterns) + RunSet(b, patterns)
    decreases |b|
  {
    if b == [] {
      assert a + b == a;
    } else {
      var init := b[..|b| - 1];
      RunSetAppend(a, init, patterns);
      assert (a + b)[..|a + b| - 1] == a + init;
    }
  }

  /** The run of a non-empty list is the run of all but its last case, then that case's run. */
  lemma RunLogLast(es: seq<Entry>, init: seq<Entry>, last: Entry, colored: bool)
    requires es != [] && es[..|es| - 1] == init && es[|es| - 1] == last
    ensures RunLog(es, colored) == RunLog(init, colored) + TestLog(last, colored)
  {
  }

  /** Running `a` and then `b` logs what `a` logs followed by what `b` logs. */
  lemma {:induction false} RunLogAppend(a: seq<Entry>, b: seq<Entry>, colored: bool)
    ensures RunLog(a + b, colored) == RunLog(a, colored) + RunLog(b, colored)
    decreases |b|
  {
    if b == [] {
      assert a + b == a;
    } else {
      var init, last := b[..|b| - 1], b[|b| - 1];
      assert (a + b)[..|a + b| - 1] == a + init;
      RunLogLast(a + b, a + init, last, colored);
      RunLogLast(b, init, last, colored);
      RunLogAppend(a, init, colored);
      Assoc(RunLog(a, colored), RunLog(init, colored), TestLog(last, colored));
    }
  }


  /** Running the cases of `a` and then those of `b` extends a log by what each run logs, in that order. */
  lemma RunLogConcat(log0: seq<Event>, a: seq<Entry>, b: seq<Entry>, patterns: seq<string>, colored: bool)
    ensures log0 + RunLog(RunSet(a + b, patterns), colored) ==
      log0 + RunLog(RunSet(a, patterns), colored) + RunLog(RunSet(b, patterns), colored)
  {
    var ra, rb := RunSet(a, patterns), RunSet(b, patterns);
    RunSetAppend(a, b, patterns);
    RunLogAppend(ra, rb, colored);
    Assoc(log0, RunLog(ra, colored), RunLog(rb, colored));
  }

  /** Listing one more case that runs extends a listing by that case's line. */
  lemma ListLogNext(log0: seq<Event>, es: seq<Entry>, e: Entry, patterns: seq<string>)
    requires Runs(e, patterns)
    ensures log0 + ListLog(RunSet(es + [e], patterns)) ==
      log0 + ListLog(RunSet(es, patterns)) + [Listed(e.suit.name, e.test.name)]
  {
    RunSetStep(es, e, patterns);
    ListLogStep(RunSet(es, patterns), e);
  }

  /** Listing the cases of `a` and then those of `b` extends a log by each listing, in that order. */
  lemma ListLogConcat(log0: seq<Event>, a: seq<Entry>, b: seq<Entry>, patterns: seq<string>)
    ensures log0 + ListLog(RunSet(a + b, patterns)) ==
      log0 + ListLog(RunSet(a, patterns)) + ListLog(RunSet(b, patterns))
  {
    var ra, rb := RunSet(a, patterns), RunSet(b, patterns);
    RunSetAppend(a, b, patterns);
    ListLogAppend(ra, rb);
    Assoc(log0, ListLog(ra), ListLog(rb));
  }

  /** The listing of `a + b` is the listing of `a` followed by that of `b`. */
  lemma {:induction false} ListLogAppend(a: seq<Entry>, b: seq<Entry>)
    ensures ListLog(a + b) == ListLog(a) + ListLog(b)
    decreases |b|
  {
    if b == [] {
      assert a + b == a;
    } else {
      var init, last := b[..|b| - 1], b[|b| - 1];
      assert (a + b)[..|a + b| - 1] == a + init;
      assert (a + b)[|a + b| - 1] == last;
      ListLogAppend(a, init);
    }
  }

  /** Counters that are all zero when there are no tests, so no percentage divides by zero. */
  predicate Reportable(c: Runner, total: nat) {
    total == 0 ==> c.successful == 0 && c.failed == 0 && c.partially == 0 && c.skipped == 0
  }

  /** `test_runner_report`: the attempted line, then each counter with its share of `total_tests`. */
  function ReportLog(c: Runner, total: nat): (r: seq<Event>)
    requires Reportable(c, total)
    ensures |r| == 5 && r[0] == Attempted(c.attempted, total)
    ensures forall k :: 1 <= k < 5 ==> r[k].Tally? && (r[k].count == 0 ==> r[k].percent == 0)
    ensures r[1].heading == "successful" && r[1].count == c.successful
    ensures r[2].heading == "failed" && r[2].count == c.failed
    ensures r[3].heading == "partially" && r[3].count == c.partially
    ensures r[4].heading == "skipped" && r[4].count == c.skipped
  {
    [Attempted(c.attempted, total),
     Tally("successful", c.successful, Percentages.Percent(c.successful, total)),
     Tally("failed", c.failed, Percentages.Percent(c.failed, total)),
     Tally("partially", c.partially, Percentages.Percent(c.partially, total)),
     Tally("skipped", c.skipped, Percentages.Percent(c.skipped, total))]
  }

  /**
   * Each summary line's percentage is its count's share of `total_tests`,
   * truncated: the largest whole number whose share of the total does not
   * exceed the count.
   */
  lemma ReportLogPercents(c: Runner, total: nat, k: nat)
    requires Reportable(c, total) && 1 <= k < 5
    ensures var t := ReportLog(c, total)[k];
      t.count > 0 ==> t.percent * total <= t.count * 100 < (t.percent + 1) * total
  {
    var t := ReportLog(c, total)[k];
    if t.count > 0 {
      Percentages.PercentBounds(t.count, total);
    }
  }
}
