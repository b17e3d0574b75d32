/**
 * The glob matcher of the harness header (`test_wildcard_match`) and the
 * whole-string glob semantics it is meant to implement: `?` matches one
 * character, `*` matches any run of characters, every other character
 * matches itself, and both the text and the pattern must be consumed.
 *
 * Strings are the contents of C strings, so they hold no NUL character;
 * reading the pattern at its terminator is modelled as "no character".
 */
module Matcher {

  /** No character of `s` is a `*`. */
  predicate NoStar(s: string) {
    forall i :: 0 <= i < |s| ==> s[i] != '*'
  }

  /** Every character of `s` is a `*`. */
  predicate AllStars(s: string) {
    forall i :: 0 <= i < |s| ==> s[i] == '*'
  }

  /** Neither `*` nor `?` occurs in `s`: every character is literal. */
  predicate Plain(s: string) {
    forall i :: 0 <= i < |s| ==> s[i] != '*' && s[i] != '?'
  }

  /** Whole-string glob matching, the reference semantics. */
  predicate Glob(text: string, pattern: string)
    decreases |text| + |pattern|
  {
    if pattern == [] then text == []
    else if pattern[0] == '*' then Glob(text, pattern[1..]) || (text != [] && Glob(text[1..], pattern))
    else text != [] && (pattern[0] == '?' || pattern[0] == text[0]) && Glob(text[1..], pattern[1..])
  }

  /** `mid` matches `text[k..k + |mid|]` character by character (each pattern character is `?` or equal). */
  predicate CharsMatchAt(text: string, k: nat, mid: string) {
    k + |mid| <= |text| && forall i :: 0 <= i < |mid| ==> mid[i] == '?' || mid[i] == text[k + i]
  }

  // ---------------------------------------------------------------------
  // Facts about Glob
  // ---------------------------------------------------------------------

  /** The empty pattern matches only the empty text, and the empty text matches exactly the all-`*` patterns. */
  lemma {:induction false} EmptyCases(text: string, pattern: string)
    ensures Glob(text, []) <==> text == []
    ensures Glob([], pattern) <==> AllStars(pattern)
    decreases |pattern|
  {
    if pattern != [] {
      EmptyCases(text, pattern[1..]);
      if pattern[0] == '*' {
        assert AllStars(pattern) <==> AllStars(pattern[1..]) by {
          if AllStars(pattern[1..]) {
            forall i | 0 <= i < |pattern| ensures pattern[i] == '*' {
              if i > 0 { assert pattern[i] == pattern[1..][i - 1]; }
            }
          }
        }
      }
    }
  }

  /** A pattern of literal characters matches exactly the text equal to it. */
  lemma {:induction false} PlainMatchesItself(text: string, pattern: string)
    requires Plain(pattern)
    ensures Glob(text, pattern) <==> text == pattern
    decreases |pattern|
  {
    if pattern != [] && text != [] {
      PlainMatchesItself(text[1..], pattern[1..]);
      if text[0] == pattern[0] && text[1..] == pattern[1..] {
        assert text == [text[0]] + text[1..];
        assert pattern == [pattern[0]] + pattern[1..];
      }
    }
  }

  /** Every string matches itself read as a pattern: its `?` and `*` each match the same character. */
  lemma {:induction false} MatchesItself(s: string)
    ensures Glob(s, s)
    decreases |s|
  {
    if s != [] {
      MatchesItself(s[1..]);
      if s[0] == '*' {
        assert Glob(s[1..], s[1..]);
        assert Glob(s[1..], s);
      }
    }
  }

  /** The pattern `*` matches every text. */
  lemma {:induction false} StarMatchesAll(text: string)
    ensures Glob(text, "*")
    decreases |text|
  {
    assert "*"[1..] == [];
    if text != [] {
      StarMatchesAll(text[1..]);
    }
  }

  /** The documented examples of glob semantics with literal patterns and `?`. */
  lemma LiteralExamples()
    ensures Glob("", "*") && Glob("", "") && !Glob("a", "")
    ensures Glob("abc", "a?c") && !Glob("abc", "a?d")
    ensures !Glob("ABC", "abc")
  {
    StarMatchesAll("");
    PlainMatchesItself("ABC", "abc");
  }

  /** The documented examples of glob semantics with `*`. */
  lemma StarExamples()
    ensures Glob("foobar", "foo*bar") && !Glob("foobar", "foo*baz")
  {
    assert Glob("bar", "bar") by { PlainMatchesItself("bar", "bar"); }
    assert "foo*bar"[3..] == "*bar";
    assert "*bar"[1..] == "bar";
    assert "foo*baz"[3..] == "*baz";
    assert "*baz"[1..] == "baz";
    PlainMatchesItself("r", "baz");
    PlainMatchesItself("ar", "baz");
    PlainMatchesItself("bar", "baz");
    PlainMatchesItself("", "baz");
    assert !Glob("", "*baz");
    assert !Glob("r", "*baz");
    assert !Glob("ar", "*baz");
    assert !Glob("bar", "*baz");
  }

  /** A leading `*` may take any prefix of the text. */
  lemma {:induction false} StarTakes(u: string, k: nat, rest: string)
    requires k <= |u| && Glob(u[k..], rest)
    ensures Glob(u, ['*'] + rest)
    decreases k
  {
    assert (['*'] + rest)[1..] == rest;
    if k > 0 {
      assert u[1..][k - 1..] == u[k..];
      StarTakes(u[1..], k - 1, rest);
    }
  }

  /** Documented filter example: `math:*` selects suite `math`, case `add_overflow`. */
  lemma SuiteWildcardExample()
    ensures Glob("math:add_overflow", "math:*")
  {
    var name := "math:add_overflow";
    assert CharsMatchAt(name, 0, "math:");
    assert name[5..] == "add_overflow";
    StarMatchesAll("add_overflow");
    PrefixSound(name, "math:", "*");
    assert "math:" + "*" == "math:*";
  }

  /** Documented filter example: `math:sub_*` does not select `math:add_overflow`. */
  lemma CasePrefixExample()
    ensures !Glob("math:add_overflow", "math:sub_*")
  {
    var name := "math:add_overflow";
    assert "math:" + "sub_*" == "math:sub_*";
    assert name[5..] == "add_overflow";
    assert NoStar("math:");
    if Glob(name, "math:" + "sub_*") {
      StarFreePrefix(name, "math:", "sub_*");
    }
  }

  /** Documented filter example: `*:add_*` selects `math:add_overflow`. */
  lemma AnySuiteExample()
    ensures Glob("math:add_overflow", "*:add_*")
  {
    var name := "math:add_overflow";
    assert name[4..] == ":add_overflow";
    AddTailExample();
    StarTakes(name, 4, ":add_*");
    assert ['*'] + ":add_*" == "*:add_*";
  }

  /** The part of the example after the star: `:add_*` matches `:add_overflow`. */
  lemma AddTailExample()
    ensures Glob(":add_overflow", ":add_*")
  {
    var tail := ":add_overflow";
    assert CharsMatchAt(tail, 0, ":add_");
    assert tail[5..] == "overflow";
    StarMatchesAll("overflow");
    PrefixSound(tail, ":add_", "*");
    assert ":add_" + "*" == ":add_*";
  }

  // ---------------------------------------------------------------------
  // Lemmas behind the matcher's loop
  // ---------------------------------------------------------------------

  /** A prefix matched character by character can be put in front of any match (holds for every text). */
  lemma {:induction false} PrefixSound(u: string, mid: string, rest: string)
    requires CharsMatchAt(u, 0, mid)
    requires Glob(u[|mid|..], rest)
    ensures Glob(u, mid + rest)
    decreases |mid|
  {
    if mid != [] {
      assert CharsMatchAt(u[1..], 0, mid[1..]) by {
        forall i | 0 <= i < |mid[1..]| ensures mid[1..][i] == '?' || mid[1..][i] == u[1..][0 + i] {
          assert mid[i + 1] == '?' || mid[i + 1] == u[0 + (i + 1)];
        }
      }
      assert u[1..][|mid[1..]|..] == u[|mid|..];
      PrefixSound(u[1..], mid[1..], rest);
      assert (mid + rest)[1..] == mid[1..] + rest;
      assert (mid + rest)[0] == mid[0];
      assert mid[0] == '?' || mid[0] == u[0 + 0];
      if mid[0] == '*' {
        assert mid[0] == u[0 + 0];
        assert Glob(u[1..], mid + rest);
      }
    } else {
      assert u[|mid|..] == u && mid + rest == rest;
    }
  }

  /** A star-free prefix of the pattern consumes exactly as many characters as it has. */
  lemma {:induction false} StarFreePrefix(u: string, mid: string, rest: string)
    requires NoStar(mid)
    requires Glob(u, mid + rest)
    ensures |mid| <= |u| && Glob(u[|mid|..], rest)
    decreases |mid|
  {
    if mid != [] {
      assert (mid + rest)[1..] == mid[1..] + rest;
      assert (mid + rest)[0] == mid[0];
      assert mid[0] != '*';
      assert NoStar(mid[1..]) by {
        forall i | 0 <= i < |mid[1..]| ensures mid[1..][i] != '*' {
          assert mid[1..][i] == mid[i + 1];
        }
      }
      StarFreePrefix(u[1..], mid[1..], rest);
      assert u[1..][|mid[1..]|..] == u[|mid|..];
    } else {
      assert u[|mid|..] == u && mid + rest == rest;
    }
  }

  /** A text matched by `*` then a star-free run is at least as long as that run. */
  lemma {:induction false} StarLength(w: string, mid: string, rest: string)
    requires NoStar(mid)
    requires Glob(w, ['*'] + mid + rest)
    ensures |mid| <= |w|
    decreases |w|
  {
    assert (['*'] + mid + rest)[1..] == mid + rest;
    if Glob(w, mid + rest) {
      StarFreePrefix(w, mid, rest);
    } else {
      StarLength(w[1..], mid, rest);
    }
  }

  /**
   * Matching `*` then a star-free run: when the run is followed by another `*`
   * (or ends the text), it suffices to place the run at the earliest position.
   * This is why the matcher may forget an older backtrack point.
   */
  lemma {:induction false} EarliestSuffices(v: string, mid: string, q: string)
    requires NoStar(mid) && |mid| <= |v|
    requires Glob(v, ['*'] + mid + q)
    requires |v| == |mid| || (q != [] && q[0] == '*')
    ensures Glob(v[|mid|..], q)
    decreases |v|
  {
    assert (['*'] + mid + q)[1..] == mid + q;
    if Glob(v, mid + q) {
      StarFreePrefix(v, mid, q);
    } else {
      StarLength(v[1..], mid, q);
      EarliestSuffices(v[1..], mid, q);
      assert v[1..][|mid|..] == v[|mid|..][1..];
    }
  }

  /** One character step: `text[t]` against a pattern character that is `?` or the same character. */
  lemma StepOne(text: string, pattern: string, t: nat, p: nat)
    requires t < |text| && p < |pattern| && (text[t] == pattern[p] || pattern[p] == '?')
    ensures Glob(text[t + 1..], pattern[p + 1..]) ==> Glob(text[t..], pattern[p..])
    ensures NoStar(text) ==> Glob(text[t..], pattern[p..]) ==> Glob(text[t + 1..], pattern[p + 1..])
  {
    assert text[t..][1..] == text[t + 1..];
    assert pattern[p..][1..] == pattern[p + 1..];
    if pattern[p] == '*' && Glob(text[t + 1..], pattern[p + 1..]) {
      assert Glob(text[t + 1..], pattern[p..]);
    }
  }

  /** The rest of the text is not empty and cannot start matching the rest of the pattern. */
  predicate Mismatch(text: string, pattern: string, t: nat, p: nat)
    requires t < |text|
  {
    !(p < |pattern| && (text[t] == pattern[p] || pattern[p] == '?' || pattern[p] == '*'))
  }

  lemma MismatchFails(text: string, pattern: string, t: nat, p: nat)
    requires t < |text| && p <= |pattern| && Mismatch(text, pattern, t, p)
    ensures !Glob(text[t..], pattern[p..])
  {
  }

  /** Loop state while no `*` was met: the rest of the text against the rest of the pattern decides. */
  ghost predicate Direct(text: string, pattern: string, t: nat, p: nat) {
    t <= |text| && p <= |pattern| &&
    (Glob(text[t..], pattern[p..]) ==> Glob(text, pattern)) &&
    (NoStar(text) ==> Glob(text, pattern) ==> Glob(text[t..], pattern[p..]))
  }

  /**
   * Loop state with a backtrack point: the last `*` is at `bp`, it is being
   * tried from text position `bt`, and the pattern between it and `p` has
   * matched `text[bt..t]` character by character.
   */
  ghost predicate Resumable(text: string, pattern: string, t: nat, p: nat, bt: nat, bp: nat) {
    bt <= t <= |text| && bp < p <= |pattern| && pattern[bp] == '*' && t - bt == p - bp - 1 &&
    CharsMatchAt(text, bt, pattern[bp + 1..p]) &&
    (Glob(text[bt..], pattern[bp..]) ==> Glob(text, pattern)) &&
    (NoStar(text) ==> Glob(text, pattern) ==> Glob(text[bt..], pattern[bp..]))
  }

  ghost predicate Inv(text: string, pattern: string, t: nat, p: nat, bt: int, bp: int) {
    -1 <= bt && -1 <= bp && (bt == -1 <==> bp == -1) &&
    if bt == -1 then Direct(text, pattern, t, p) else Resumable(text, pattern, t, p, bt as nat, bp as nat)
  }

  /** The run matched since the backtrack point is star-free when the text is. */
  lemma RunStarFree(text: string, k: nat, mid: string)
    requires NoStar(text) && CharsMatchAt(text, k, mid)
    ensures NoStar(mid)
  {
    forall i | 0 <= i < |mid| ensures mid[i] != '*' {
      assert mid[i] == '?' || mid[i] == text[k + i];
    }
  }

  /** With a backtrack point, the current cursors decide whenever the next pattern character is `*` or the text is used up. */
  lemma Resolve(text: string, pattern: string, t: nat, p: nat, bt: nat, bp: nat)
    requires Resumable(text, pattern, t, p, bt, bp)
    requires t == |text| || (p < |pattern| && pattern[p] == '*')
    ensures Direct(text, pattern, t, p)
  {
    var mid := pattern[bp + 1..p];
    assert pattern[bp..] == ['*'] + mid + pattern[p..];
    assert pattern[bp + 1..] == mid + pattern[p..];
    assert text[bt..][|mid|..] == text[t..];
    assert CharsMatchAt(text[bt..], 0, mid) by {
      forall i | 0 <= i < |mid| ensures mid[i] == '?' || mid[i] == text[bt..][0 + i] {
        assert mid[i] == '?' || mid[i] == text[bt + i];
      }
    }
    if Glob(text[t..], pattern[p..]) {
      PrefixSound(text[bt..], mid, pattern[p..]);
      assert Glob(text[bt..], pattern[bp..]);
    }
    if NoStar(text) && Glob(text, pattern) {
      RunStarFree(text, bt, mid);
      EarliestSuffices(text[bt..], mid, pattern[p..]);
    }
  }

  /** Matching one character keeps the invariant. */
  lemma AdvanceBoth(text: string, pattern: string, t: nat, p: nat, bt: int, bp: int)
    requires Inv(text, pattern, t, p, bt, bp) && t < |text| && p < |pattern|
    requires text[t] == pattern[p] || pattern[p] == '?'
    ensures Inv(text, pattern, t + 1, p + 1, bt, bp)
  {
    StepOne(text, pattern, t, p);
    if bt != -1 {
      var mid := pattern[bp + 1..p];
      assert pattern[bp + 1..p + 1] == mid + [pattern[p]];
      assert pattern[bp + 1..] == mid + pattern[p..];
      assert pattern[bp + 1..] == pattern[bp + 1..p + 1] + pattern[p + 1..];
      assert CharsMatchAt(text, bt as nat, pattern[bp + 1..p + 1]) by {
        var mid' := pattern[bp + 1..p + 1];
        forall i | 0 <= i < |mid'| ensures mid'[i] == '?' || mid'[i] == text[bt as nat + i] {
          if i < |mid| { assert mid'[i] == mid[i]; }
        }
      }
    }
  }

  /** Meeting a `*` records a new backtrack point and keeps the invariant. */
  lemma RecordStar(text: string, pattern: string, t: nat, p: nat, bt: int, bp: int)
    requires Inv(text, pattern, t, p, bt, bp) && t < |text| && p < |pattern| && pattern[p] == '*'
    ensures Inv(text, pattern, t, p + 1, t, p)
  {
    if bt != -1 {
      Resolve(text, pattern, t, p, bt as nat, bp as nat);
    }
    assert pattern[p + 1..p + 1] == [];
  }

  /** On a mismatch the `*` at the backtrack point takes one more character. */
  lemma Backtrack(text: string, pattern: string, t: nat, p: nat, bt: nat, bp: nat)
    requires Resumable(text, pattern, t, p, bt, bp) && t < |text| && Mismatch(text, pattern, t, p)
    ensures Inv(text, pattern, bt + 1, bp + 1, bt + 1, bp)
  {
    var mid := pattern[bp + 1..p];
    assert pattern[bp..][1..] == pattern[bp + 1..];
    assert text[bt..][1..] == text[bt + 1..];
    assert pattern[bp + 1..bp + 1] == [];
    if NoStar(text) {
      assert pattern[bp + 1..] == mid + pattern[p..];
      assert text[bt..][|mid|..] == text[t..];
      RunStarFree(text, bt, mid);
      MismatchFails(text, pattern, t, p);
      if Glob(text[bt..], pattern[bp + 1..]) {
        StarFreePrefix(text[bt..], mid, pattern[p..]);
      }
    }
  }

  /** After the matched text, the trailing `*`s of the pattern are skipped. */
  lemma SkipStar(pattern: string, p: nat)
    requires p < |pattern| && pattern[p] == '*'
    ensures AllStars(pattern[p..]) <==> AllStars(pattern[p + 1..])
  {
    var whole, rest := pattern[p..], pattern[p + 1..];
    assert whole == [pattern[p]] + rest;
    if AllStars(rest) {
      forall i | 0 <= i < |whole| ensures whole[i] == '*' {
        if i > 0 { assert whole[i] == rest[i - 1]; }
      }
    }
    if AllStars(whole) {
      forall i | 0 <= i < |rest| ensures rest[i] == '*' {
        assert rest[i] == whole[i + 1];
      }
    }
  }

  // ---------------------------------------------------------------------
  // The matcher
  // ---------------------------------------------------------------------

  /**
   * `test_wildcard_match`: an iterative matcher with two cursors and a single
   * backtrack point. Whenever it answers true the text matches the pattern;
   * for a text without `*` (every suite and case name is a C identifier) it
   * answers true exactly when the text matches.
   */
  method WildcardMatch(text: string, pattern: string) returns (matched: bool)
    ensures matched ==> Glob(text, pattern)
    ensures NoStar(text) ==> (matched <==> Glob(text, pattern))
  {
    var t: nat, p: nat := 0, 0;
    var bt: int, bp: int := -1, -1;
    var failed := false;
    while !failed && t < |text|
      invariant t <= |text| && p <= |pattern|
      invariant -1 <= bt <= t && bp < p
      invariant Inv(text, pattern, t, p, bt, bp)
      invariant failed ==> t < |text| && bp == -1 && !Glob(text[t..], pattern[p..])
      decreases |text| - bt, |text| - t, |pattern| - p, !failed
    {
      if p < |pattern| && (text[t] == pattern[p] || pattern[p] == '?') {
        // Match one character
        AdvanceBoth(text, pattern, t, p, bt, bp);
        p := p + 1;
        t := t + 1;
      } else if p < |pattern| && pattern[p] == '*' {
        // Start of a `*`: remember where to resume
        RecordStar(text, pattern, t, p, bt, bp);
        bt := t;
        bp := p;
        p := p + 1;
      } else if bp != -1 {
        // Nothing matched: let the last `*` take one more character
        Backtrack(text, pattern, t, p, bt as nat, bp as nat);
        p := bp + 1;
        bt := bt + 1;
        t := bt;
      } else {
        MismatchFails(text, pattern, t, p);
        failed := true;
      }
    }
    if failed {
      return false;
    }
    if bt != -1 {
      Resolve(text, pattern, t, p, bt as nat, bp as nat);
    }
    assert Direct(text, pattern, t, p);
    assert text[t..] == [];
    EmptyCases([], pattern[p..]);
    var q := SkipStars(pattern, p);
    matched := q == |pattern|;
  }

  /** The last loop of `test_wildcard_match`: it consumes the `*`s from `p` and reaches the end exactly when only `*`s are left. */
  method SkipStars(pattern: string, p: nat) returns (q: nat)
    requires p <= |pattern|
    ensures p <= q <= |pattern|
    ensures q == |pattern| <==> AllStars(pattern[p..])
  {
    q := p;
    while q < |pattern| && pattern[q] == '*'
      invariant p <= q <= |pattern|
      invariant AllStars(pattern[p..]) <==> AllStars(pattern[q..])
    {
      SkipStar(pattern, q);
      q := q + 1;
    }
    assert q < |pattern| ==> pattern[q..][0] == pattern[q];
  }
}
