/**
 * The text of a `--filter` value: a comma-separated list of patterns, and
 * the rules the harness header applies to it (`test_parse_filter`): only
 * the characters `[A-Za-z0-9_:?*]` and the separating comma, no empty
 * pattern, at most `FilterCountLimit` patterns. Also the C-string view of
 * the NUL-separated buffer the parser fills.
 */
module FilterText {

  /** `TEST_FILTER_COUNT_LIMIT`: the most patterns a filter may hold. */
  const FilterCountLimit: nat := 8

  /** `TEST_FILTER_SIZE_LIMIT`: the size of the buffer a `suite:case` name is composed in. */
  const FilterSizeLimit: nat := 128

  const NUL: char := '\0'

  /** A character a pattern may contain (`isalnum` in the C locale, `_`, `:`, `?`, `*`). */
  predicate PatternChar(c: char) {
    ('A' <= c <= 'Z') || ('a' <= c <= 'z') || ('0' <= c <= '9') || c == '_' || c == ':' || c == '?' || c == '*'
  }

  predicate NoComma(s: string) {
    forall i :: 0 <= i < |s| ==> s[i] != ','
  }

  /** The comma-separated segments of `s`, in order (a string without commas is one segment). */
  function Split(s: string): (r: seq<string>)
    ensures |r| >= 1
    decreases |s|
  {
    if s == [] then [[]]
    else
      var init, c := s[..|s| - 1], s[|s| - 1];
      var r := Split(init);
      if c == ',' then r + [[]] else r[..|r| - 1] + [r[|r| - 1] + [c]]
  }

  /** The segments joined back with commas in between. */
  function Join(segs: seq<string>): string
    requires |segs| >= 1
    decreases |segs|
  {
    if |segs| == 1 then segs[0] else Join(segs[..|segs| - 1]) + [','] + segs[|segs| - 1]
  }

  /** Every character is a pattern character or a comma. */
  predicate FilterChars(raw: string) {
    forall i :: 0 <= i < |raw| ==> PatternChar(raw[i]) || raw[i] == ','
  }

  /** The harness accepts the filter value `raw`: it is empty, or it has only allowed characters, no empty segment and at most eight segments. */
  predicate FilterAccepted(raw: string) {
    raw == [] ||
    (FilterChars(raw) &&
     (forall k :: 0 <= k < |Split(raw)| ==> Split(raw)[k] != []) &&
     |Split(raw)| <= FilterCountLimit)
  }

  /** The patterns an accepted filter value stands for. */
  function FilterPatterns(raw: string): seq<string> {
    if raw == [] then [] else Split(raw)
  }

  // ---------------------------------------------------------------------
  // Split and Join are inverse to each other
  // ---------------------------------------------------------------------

  /** Appending a character to the last segment appends it to the joined text. */
  lemma {:induction false} JoinExtendLast(r: seq<string>, c: char)
    requires |r| >= 1
    ensures Join(r[..|r| - 1] + [r[|r| - 1] + [c]]) == Join(r) + [c]
  {
    var r' := r[..|r| - 1] + [r[|r| - 1] + [c]];
    if |r| > 1 {
      assert r'[..|r'| - 1] == r[..|r| - 1];
      calc {
        Join(r');
        Join(r[..|r| - 1]) + [','] + (r[|r| - 1] + [c]);
        (Join(r[..|r| - 1]) + [','] + r[|r| - 1]) + [c];
      }
    }
  }

  /** Joining the segments gives back the text. */
  lemma {:induction false} JoinSplit(s: string)
    ensures Join(Split(s)) == s
    decreases |s|
  {
    if s != [] {
      var init, c := s[..|s| - 1], s[|s| - 1];
      JoinSplit(init);
      var r := Split(init);
      assert s == init + [c];
      if c == ',' {
        assert (r + [[]])[..|r|] == r;
        assert Join(r + [[]]) == Join(r) + [','] + [];
      } else {
        JoinExtendLast(r, c);
      }
    }
  }

  /** No segment contains a comma. */
  lemma {:induction false} SplitSegmentsNoComma(s: string)
    ensures forall k :: 0 <= k < |Split(s)| ==> NoComma(Split(s)[k])
    decreases |s|
  {
    if s != [] {
      var init, c := s[..|s| - 1], s[|s| - 1];
      SplitSegmentsNoComma(init);
      var r := Split(init);
      if c != ',' {
        assert NoComma(r[|r| - 1]);
        assert NoComma(r[|r| - 1] + [c]);
      }
    }
  }

  /** A text without commas is a single segment. */
  lemma {:induction false} SplitNoComma(s: string)
    requires NoComma(s)
    ensures Split(s) == [s]
    decreases |s|
  {
    if s != [] {
      SplitNoComma(s[..|s| - 1]);
      assert s == s[..|s| - 1] + [s[|s| - 1]];
    }
  }

  /** Appending a comma and a comma-free segment appends that segment. */
  lemma {:induction false} SplitAppend(a: string, b: string)
    requires NoComma(b)
    ensures Split(a + [','] + b) == Split(a) + [b]
    decreases |b|
  {
    if b == [] {
      assert a + [','] + b == a + [','];
      assert (a + [','])[..|a|] == a;
    } else {
      var b', c := b[..|b| - 1], b[|b| - 1];
      SplitAppend(a, b');
      assert (a + [','] + b)[..|a + [','] + b| - 1] == a + [','] + b';
      assert b' + [c] == b;
    }
  }

  /** Splitting undoes joining, for any non-empty list of comma-free segments. */
  lemma {:induction false} SplitJoin(segs: seq<string>)
    requires |segs| >= 1
    requires forall k :: 0 <= k < |segs| ==> NoComma(segs[k])
    ensures Split(Join(segs)) == segs
    decreases |segs|
  {
    if |segs| == 1 {
      SplitNoComma(segs[0]);
    } else {
      var init := segs[..|segs| - 1];
      SplitJoin(init);
      SplitAppend(Join(init), segs[|segs| - 1]);
    }
  }

  /**
   * Reading a prefix of a text already fixes every segment of the prefix but
   * its last: they are the leading segments of the whole text.
   */
  lemma {:induction false} SplitPrefix(s: string, j: nat)
    requires j <= |s|
    ensures |Split(s[..j])| <= |Split(s)|
    ensures forall k :: 0 <= k < |Split(s[..j])| - 1 ==> Split(s)[k] == Split(s[..j])[k]
    decreases |s|
  {
    if j < |s| {
      var init := s[..|s| - 1];
      assert init[..j] == s[..j];
      SplitPrefix(init, j);
    } else {
      assert s[..j] == s;
    }
  }

  // ---------------------------------------------------------------------
  // Which filter values are accepted
  // ---------------------------------------------------------------------

  /** No per-pattern length limit: any non-empty run of pattern characters is accepted as one pattern, however long. */
  lemma SinglePatternAccepted(raw: string)
    requires raw != [] && forall i :: 0 <= i < |raw| ==> PatternChar(raw[i])
    ensures FilterAccepted(raw) && FilterPatterns(raw) == [raw]
  {
    assert NoComma(raw) by {
      forall i | 0 <= i < |raw| ensures raw[i] != ',' {
        assert PatternChar(raw[i]);
      }
    }
    SplitNoComma(raw);
  }

  /** Non-empty comma-free patterns of allowed characters, at most eight of them, joined with commas, are accepted and give back those patterns. */
  lemma JoinedPatternsAccepted(segs: seq<string>)
    requires 1 <= |segs| <= FilterCountLimit
    requires forall k :: 0 <= k < |segs| ==> segs[k] != [] && NoComma(segs[k])
    requires FilterChars(Join(segs))
    ensures FilterAccepted(Join(segs)) && FilterPatterns(Join(segs)) == segs
  {
    SplitJoin(segs);
  }

  /** A leading, doubled or trailing comma leaves an empty segment, so the value is refused. */
  lemma {:induction false} EmptySegmentRefused(a: string, b: string)
    requires a == [] || b == [] || (|a| > 0 && a[|a| - 1] == ',')
    ensures !FilterAccepted(a + [','] + b)
  {
    var raw := a + [','] + b;
    var j := |a| + 1;
    assert raw[..j] == a + [','];
    assert (a + [','])[..|a|] == a;
    var r := Split(a);
    assert Split(raw[..j]) == r + [[]];
    SplitPrefix(raw, j);
    if b == [] {
      assert raw == raw[..j];
      assert Split(raw)[|r|] == [];
    } else if a == [] {
      assert Split(raw)[0] == [];
    } else {
      assert a[..|a| - 1] + [','] == a;
      assert r == Split(a[..|a| - 1]) + [[]];
      assert Split(raw)[|r| - 1] == [];
    }
  }

  /** A value has one segment more than it has commas. */
  lemma {:induction false} SegmentCount(s: string)
    ensures |Split(s)| == 1 + |set i | 0 <= i < |s| && s[i] == ','|
    decreases |s|
  {
    if s != [] {
      var init := s[..|s| - 1];
      SegmentCount(init);
      var commas := set i | 0 <= i < |s| && s[i] == ',';
      var commas' := set i | 0 <= i < |init| && init[i] == ',';
      if s[|s| - 1] == ',' {
        assert commas == commas' + {|s| - 1};
      } else {
        assert commas == commas';
      }
    }
  }

  /** More than seven commas give more than eight patterns, so the value is refused. */
  lemma TooManyRefused(raw: string)
    requires |set i | 0 <= i < |raw| && raw[i] == ','| >= FilterCountLimit
    ensures !FilterAccepted(raw)
  {
    SegmentCount(raw);
  }

  /** Where each segment of `s` starts: 0, then one past every comma. */
  function SegmentStarts(s: string): (r: seq<nat>)
    ensures |r| == |Split(s)|
    decreases |s|
  {
    if s == [] then [0]
    else if s[|s| - 1] == ',' then SegmentStarts(s[..|s| - 1]) + [|s|]
    else SegmentStarts(s[..|s| - 1])
  }

  /** Reading one more character: a comma opens a new empty segment starting after it; any other character extends the last segment. */
  lemma SplitExtend(s: string, c: char)
    ensures c == ',' ==> Split(s + [c]) == Split(s) + [[]] && SegmentStarts(s + [c]) == SegmentStarts(s) + [|s| + 1]
    ensures c != ',' ==> Split(s + [c]) == Split(s)[..|Split(s)| - 1] + [Split(s)[|Split(s)| - 1] + [c]]
    ensures c != ',' ==> SegmentStarts(s + [c]) == SegmentStarts(s)
  {
    assert (s + [c])[..|s|] == s;
  }

  /** `seg` sits in `s` at offset `st`, ended by a comma, or by the end of `s` when it is the last segment. */
  predicate RunAt(s: string, seg: string, st: nat, last: bool) {
    st + |seg| <= |s| && s[st..st + |seg|] == seg &&
    (if last then st + |seg| == |s| else st + |seg| < |s| && s[st + |seg|] == ',')
  }

  /** Segment `k` of `s` is the run of `s` at `SegmentStarts(s)[k]`. */
  predicate SegmentAt(s: string, k: nat)
    requires k < |Split(s)|
  {
    RunAt(s, Split(s)[k], SegmentStarts(s)[k], k + 1 == |Split(s)|)
  }

  /** How a run is affected by appending the character `c`. */
  lemma RunExtend(s: string, c: char, seg: string, st: nat, last: bool)
    requires RunAt(s, seg, st, last)
    ensures !last ==> RunAt(s + [c], seg, st, false)
    ensures last && c == ',' ==> RunAt(s + [c], seg, st, false) && RunAt(s + [c], [], |s| + 1, true)
    ensures last && c != ',' ==> RunAt(s + [c], seg + [c], st, true)
  {
    var t := s + [c];
    assert t[st..st + |seg|] == s[st..st + |seg|];
    if last && c != ',' {
      assert t[st..st + |seg| + 1] == s[st..st + |seg|] + [c];
    }
    if last {
      assert t[st + |seg|] == c;
    } else {
      assert t[st + |seg|] == s[st + |seg|];
    }
  }

  lemma {:induction false} SegmentStartsSpec(s: string)
    ensures forall k :: 0 <= k < |Split(s)| ==> SegmentAt(s, k)
    decreases |s|
  {
    if s != [] {
      var init, c := s[..|s| - 1], s[|s| - 1];
      SegmentStartsSpec(init);
      assert s == init + [c];
      SplitExtend(init, c);
      var r, st := Split(init), SegmentStarts(init);
      forall k | 0 <= k < |Split(s)| ensures SegmentAt(s, k) {
        if k < |r| {
          assert SegmentAt(init, k);
          RunExtend(init, c, r[k], st[k], k + 1 == |r|);
        } else {
          assert k == |r| && c == ',';
          assert SegmentAt(init, k - 1);
          RunExtend(init, c, r[k - 1], st[k - 1], true);
        }
      }
    }
  }

  // ---------------------------------------------------------------------
  // C strings in a shared buffer
  // ---------------------------------------------------------------------

  /** The C string starting at `from` in `buffer`: the characters up to the first NUL (or the end). */
  function CString(buffer: seq<char>, from: nat): string
    decreases |buffer| - from
  {
    if from >= |buffer| || buffer[from] == NUL then [] else [buffer[from]] + CString(buffer, from + 1)
  }

  /** A NUL-free run ended by a NUL (or the end of the buffer) is the C string starting where the run starts. */
  lemma {:induction false} CStringOfRun(buffer: seq<char>, from: nat, end: nat)
    requires from <= end <= |buffer|
    requires forall j :: from <= j < end ==> buffer[j] != NUL
    requires end == |buffer| || buffer[end] == NUL
    ensures CString(buffer, from) == buffer[from..end]
    decreases end - from
  {
    if from < end {
      CStringOfRun(buffer, from + 1, end);
      assert buffer[from..end] == [buffer[from]] + buffer[from + 1..end];
    }
  }

  /** The buffer character the parser stores for `c`: commas become NUL, pattern characters are copied. */
  function Mask(c: char): (m: char)
    ensures c != ',' ==> m == c
  {
    if c == ',' then NUL else c
  }

  /**
   * A buffer holding `raw` with every comma replaced by NUL and one more NUL
   * at the end holds the segments of `raw` as C strings, each at the offset
   * where that segment starts.
   */
  lemma BufferPatterns(raw: string, buffer: seq<char>)
    requires FilterChars(raw)
    requires |buffer| == |raw| + 1 && buffer[|raw|] == NUL
    requires forall j :: 0 <= j < |raw| ==> buffer[j] == Mask(raw[j])
    ensures forall k :: 0 <= k < |Split(raw)| ==> CString(buffer, SegmentStarts(raw)[k]) == Split(raw)[k]
  {
    SegmentStartsSpec(raw);
    SplitSegmentsNoComma(raw);
    forall k | 0 <= k < |Split(raw)| ensures CString(buffer, SegmentStarts(raw)[k]) == Split(raw)[k] {
      var st, seg := SegmentStarts(raw)[k], Split(raw)[k];
      assert SegmentAt(raw, k);
      assert RunAt(raw, seg, st, k + 1 == |Split(raw)|);
      var end := st + |seg|;
      forall j | st <= j < end ensures buffer[j] != NUL && buffer[j] == raw[j] {
        assert raw[j] == seg[j - st];
        assert NoComma(seg);
        assert PatternChar(raw[j]);
      }
      CStringOfRun(buffer, st, end);
      assert buffer[st..end] == raw[st..end];
    }
  }

  // ---------------------------------------------------------------------
  // The parser's loop, one character at a time
  // ---------------------------------------------------------------------

  /**
   * The locals of `test_parse_filter` after a prefix of the value: the length
   * of the open pattern, how many patterns are closed, where the open one
   * starts and the offsets recorded for the closed ones; or a refusal.
   */
  datatype Parse = Parsing(length: nat, count: nat, start: nat, starts: seq<nat>) | Refused

  /** One iteration of the parser's loop, on the character at index `i`. */
  function ParseStep(raw: string, i: nat, p: Parse): Parse
    requires i < |raw|
  {
    match p
    case Refused => Refused
    case Parsing(length, count, start, starts) =>
      var c := raw[i];
      if !PatternChar(c) && c != ',' then Refused
      else
        var length := if PatternChar(c) then length + 1 else length;
        if c == ',' || i + 1 >= |raw| then
          if length == 0 || (c == ',' && i + 1 >= |raw|) then Refused
          else if count >= FilterCountLimit then Refused
          else Parsing(0, count + 1, i + 1, starts + [start])
        else Parsing(length, count, start, starts)
  }

  /** The parser's state after the first `i` characters of `raw`. */
  function ParseTo(raw: string, i: nat): Parse
    requires i <= |raw|
  {
    if i == 0 then Parsing(0, 0, 0, []) else ParseStep(raw, i - 1, ParseTo(raw, i - 1))
  }

  /**
   * What the parser's state says about `raw`: a refusal means the value is
   * refused; otherwise the prefix read so far has only allowed characters,
   * at most the limit of patterns is closed, none of them empty, and their
   * recorded offsets are where those segments start.
   */
  ghost predicate Progress(raw: string, i: nat, p: Parse)
    requires i <= |raw|
  {
    match p
    case Refused => !FilterAccepted(raw)
    case Parsing(length, count, start, starts) =>
      var segs, offs := Split(raw[..i]), SegmentStarts(raw[..i]);
      FilterChars(raw[..i]) && count <= FilterCountLimit &&
      (if i == |raw| && i > 0 then count == |segs|
       else count + 1 == |segs| && length == |segs[count]| && start == offs[count]) &&
      starts == offs[..count] &&
      (forall k :: 0 <= k < count ==> segs[k] != [])
  }

  /** An empty segment closed by a comma that is also the value's last character. */
  lemma TrailingCommaRefused(raw: string)
    requires raw != [] && raw[|raw| - 1] == ','
    ensures !FilterAccepted(raw)
  {
    var init := raw[..|raw| - 1];
    assert raw == init + [','];
    SplitExtend(init, ',');
    assert Split(raw)[|Split(init)|] == [];
  }

  lemma FilterCharsExtend(s: string, c: char)
    requires FilterChars(s) && (PatternChar(c) || c == ',')
    ensures FilterChars(s + [c])
  {
    forall j | 0 <= j < |s| + 1 ensures PatternChar((s + [c])[j]) || (s + [c])[j] == ',' {
      if j < |s| {
        assert (s + [c])[j] == s[j];
      }
    }
  }

  /** One iteration keeps `Progress`. */
  lemma StepProgress(raw: string, i: nat, p: Parse)
    requires i < |raw| && Progress(raw, i, p)
    ensures Progress(raw, i + 1, ParseStep(raw, i, p))
  {
    if p.Parsing? {
      if !PatternChar(raw[i]) && raw[i] != ',' {
        assert !(PatternChar(raw[i]) || raw[i] == ',');
      } else if raw[i] == ',' || i + 1 >= |raw| {
        StepClose(raw, i, p);
      } else {
        StepExtend(raw, i, p);
      }
    }
  }

  /** A pattern character that is not the last one extends the open pattern. */
  lemma StepExtend(raw: string, i: nat, p: Parse)
    requires i + 1 < |raw| && Progress(raw, i, p) && p.Parsing? && PatternChar(raw[i])
    ensures Progress(raw, i + 1, ParseStep(raw, i, p))
  {
    var c, pre := raw[i], raw[..i];
    assert raw[..i + 1] == pre + [c];
    SplitExtend(pre, c);
    FilterCharsExtend(pre, c);
  }

  /** A comma, or the last character, closes the open pattern or refuses the value. */
  lemma StepClose(raw: string, i: nat, p: Parse)
    requires i < |raw| && Progress(raw, i, p) && p.Parsing?
    requires (PatternChar(raw[i]) || raw[i] == ',') && (raw[i] == ',' || i + 1 >= |raw|)
    ensures Progress(raw, i + 1, ParseStep(raw, i, p))
  {
    var c := raw[i];
    var length := if PatternChar(c) then p.length + 1 else p.length;
    if length == 0 {
      StepCloseEmpty(raw, i, p);
    } else if c == ',' && i + 1 >= |raw| {
      TrailingCommaRefused(raw);
    } else if p.count >= FilterCountLimit {
      StepCloseTooMany(raw, i, p);
    } else {
      StepCloseAccepted(raw, i, p);
    }
  }

  /** Closing an empty pattern refuses the value. */
  lemma StepCloseEmpty(raw: string, i: nat, p: Parse)
    requires i < |raw| && Progress(raw, i, p) && p.Parsing? && raw[i] == ',' && p.length == 0
    ensures !FilterAccepted(raw)
  {
    var c, pre := raw[i], raw[..i];
    assert raw[..i + 1] == pre + [c];
    SplitExtend(pre, c);
    PrefixEmptySegment(raw, i + 1, p.count);
  }

  /** Closing a pattern beyond the limit refuses the value. */
  lemma StepCloseTooMany(raw: string, i: nat, p: Parse)
    requires i < |raw| && Progress(raw, i, p) && p.Parsing? && p.count >= FilterCountLimit
    requires raw[i] == ',' || i + 1 >= |raw|
    requires (PatternChar(raw[i]) || raw[i] == ',') && (PatternChar(raw[i]) || p.length > 0)
    ensures !FilterAccepted(raw)
  {
    var c, pre := raw[i], raw[..i];
    assert raw[..i + 1] == pre + [c];
    SplitExtend(pre, c);
    PrefixTooMany(raw, i + 1);
  }

  /** Closing a non-empty pattern within the limit records where it starts. */
  lemma StepCloseAccepted(raw: string, i: nat, p: Parse)
    requires i < |raw| && Progress(raw, i, p) && p.Parsing? && p.count < FilterCountLimit
    requires (PatternChar(raw[i]) || raw[i] == ',') && (raw[i] == ',' || i + 1 >= |raw|)
    requires !(raw[i] == ',' && i + 1 >= |raw|) && (PatternChar(raw[i]) || p.length > 0)
    ensures Progress(raw, i + 1, ParseStep(raw, i, p))
  {
    if raw[i] == ',' {
      StepCloseComma(raw, i, p);
    } else {
      StepCloseLast(raw, i, p);
    }
  }

  /** A comma after a non-empty pattern closes it and opens the next one after the comma. */
  lemma StepCloseComma(raw: string, i: nat, p: Parse)
    requires i + 1 < |raw| && Progress(raw, i, p) && p.Parsing? && p.count < FilterCountLimit
    requires raw[i] == ',' && p.length > 0
    ensures Progress(raw, i + 1, Parsing(0, p.count + 1, i + 1, p.starts + [p.start]))
  {
    var pre := raw[..i];
    assert raw[..i + 1] == pre + [','];
    SplitExtend(pre, ',');
    FilterCharsExtend(pre, ',');
    var offs := SegmentStarts(pre);
    assert offs[..p.count] + [offs[p.count]] == offs[..p.count + 1];
  }

  /** The last character, a pattern character, closes the last pattern. */
  lemma StepCloseLast(raw: string, i: nat, p: Parse)
    requires i + 1 == |raw| && Progress(raw, i, p) && p.Parsing? && p.count < FilterCountLimit
    requires PatternChar(raw[i])
    ensures Progress(raw, i + 1, Parsing(0, p.count + 1, i + 1, p.starts + [p.start]))
  {
    var c, pre := raw[i], raw[..i];
    assert raw[..i + 1] == pre + [c];
    SplitExtend(pre, c);
    FilterCharsExtend(pre, c);
    var offs := SegmentStarts(pre);
    assert offs[..p.count] + [offs[p.count]] == offs[..p.count + 1];
    var segs, after := Split(pre), Split(pre + [c]);
    forall k | 0 <= k < p.count + 1 ensures after[k] != [] {
      if k < p.count {
        assert after[k] == segs[k];
      } else {
        assert after[k] == segs[k] + [c];
      }
    }
  }

  /** Every prefix's parser state keeps `Progress`. */
  lemma {:induction false} ParseToProgress(raw: string, i: nat)
    requires i <= |raw|
    ensures Progress(raw, i, ParseTo(raw, i))
  {
    if i == 0 {
      assert raw[..0] == [];
    } else {
      ParseToProgress(raw, i - 1);
      StepProgress(raw, i - 1, ParseTo(raw, i - 1));
    }
  }

  /** A refusal is final: it stays a refusal to the end of the value. */
  lemma {:induction false} RefusedStays(raw: string, i: nat, j: nat)
    requires i <= j <= |raw| && ParseTo(raw, i) == Refused
    ensures ParseTo(raw, j) == Refused
    decreases j - i
  {
    if i < j {
      RefusedStays(raw, i, j - 1);
    }
  }

  /**
   * The parser's loop agrees with the rules: it ends without a refusal
   * exactly when the value is accepted, and then it has recorded one offset
   * per pattern, each where that pattern starts.
   */
  lemma ParseOutcome(raw: string)
    ensures ParseTo(raw, |raw|).Parsing? <==> FilterAccepted(raw)
    ensures ParseTo(raw, |raw|).Parsing? ==> ParseTo(raw, |raw|).count == |FilterPatterns(raw)|
    ensures ParseTo(raw, |raw|).Parsing? && raw != [] ==> ParseTo(raw, |raw|).starts == SegmentStarts(raw)
  {
    ParseToProgress(raw, |raw|);
    assert raw[..|raw|] == raw;
  }

  /** The patterns a parsed filter holds: the C string at each of the first `count` offsets. */
  function PatternsOf(buffer: seq<char>, starts: seq<nat>, count: nat): (r: seq<string>)
    requires count <= |starts|
    ensures |r| == count && forall k :: 0 <= k < count ==> r[k] == CString(buffer, starts[k])
  {
    seq(count, k requires 0 <= k < count => CString(buffer, starts[k]))
  }

  /** A refusal found on a prefix: an empty segment that is already closed by a comma. */
  lemma PrefixEmptySegment(raw: string, j: nat, k: nat)
    requires 0 < j <= |raw| && k + 1 < |Split(raw[..j])| && Split(raw[..j])[k] == []
    ensures !FilterAccepted(raw)
  {
    SplitPrefix(raw, j);
  }

  /** A refusal found on a prefix: already more segments than the limit. */
  lemma PrefixTooMany(raw: string, j: nat)
    requires j <= |raw| && |Split(raw[..j])| > FilterCountLimit
    ensures !FilterAccepted(raw)
  {
    SplitPrefix(raw, j);
  }
}
