/**
 * The text normaliser of `src/train-case.ts`: `Case` (exported also as
 * `Lowercase`) turns free text into a lower-case, hyphen-delimited token in
 * seven rewrite steps, and `Scream` (exported as `Title`) capitalises every
 * space-, underscore- or hyphen-separated piece.
 */
module TrainCase {
  import opened Wrappers
  import opened Chars
  import opened Text

  // ----------------------------------------------------------------------
  // Steps 1 and 5: removing padding characters from both ends
  // ----------------------------------------------------------------------

  /** Drops the leading characters of `s` that belong to `pad`. */
  function StripStart(s: string, pad: set<char>): (r: string)
    ensures |r| <= |s| && r == s[|s| - |r|..]
    ensures forall i :: 0 <= i < |s| - |r| ==> s[i] in pad
    ensures r == [] || r[0] !in pad
    decreases |s|
  {
    if |s| > 0 && s[0] in pad then StripStart(s[1..], pad) else s
  }

  /** Drops the trailing characters of `s` that belong to `pad`. */
  function StripEnd(s: string, pad: set<char>): (r: string)
    ensures |r| <= |s| && r == s[..|r|]
    ensures forall i :: |r| <= i < |s| ==> s[i] in pad
    ensures r == [] || r[|r| - 1] !in pad
    decreases |s|
  {
    if |s| > 0 && s[|s| - 1] in pad then StripEnd(s[..|s| - 1], pad) else s
  }

  /**
   * Removes every leading and trailing character of `pad`: `trim()` for
   * `pad == WhiteSpace`, and `replace(/^-+|-+$/g, "")` for `pad == {'-'}`.
   */
  function Strip(s: string, pad: set<char>): (r: string)
    ensures StripSpec(s, pad, |s| - |StripStart(s, pad)|, r)
  {
    var t := StripStart(s, pad);
    var r := StripEnd(t, pad);
    StripFacts(s, pad, t, r);
    r
  }

  /**
   * What `Strip` promises, with `a` the length of the padding it drops at
   * the start: `r` is the slice of `s` at `a` with only padding before and
   * after it, and neither end of `r` is padding, so both dropped runs are
   * the longest possible. It holds only characters of `s`, is `s` itself
   * when `s` has no padding at either end, and is empty when `s` is all
   * padding.
   */
  predicate StripSpec(s: string, pad: set<char>, a: int, r: string)
  {
    && PaddedSlice(s, pad, a, r)
    && Unpadded(r, pad)
    && MembersOf(r, s)
    && (Unpadded(s, pad) ==> r == s)
    && (AllPadding(s, pad) ==> r == [])
  }

  /**
   * `r` is the slice of `s` that starts at `a`, and everything of `s`
   * before it and after it is padding.
   */
  predicate PaddedSlice(s: string, pad: set<char>, a: int, r: string)
  {
    && 0 <= a && a + |r| <= |s| && r == s[a..a + |r|]
    && (forall i :: 0 <= i < a ==> s[i] in pad)
    && (forall i :: a + |r| <= i < |s| ==> s[i] in pad)
  }

  /** Neither end of `s` is padding. */
  predicate Unpadded(s: string, pad: set<char>)
  {
    s == [] || (s[0] !in pad && s[|s| - 1] !in pad)
  }

  /** Every character of `s` is padding. */
  predicate AllPadding(s: string, pad: set<char>)
  {
    forall i :: 0 <= i < |s| ==> s[i] in pad
  }

  /** Every character of `r` occurs in `s`. */
  predicate MembersOf(r: string, s: string)
  {
    forall i :: 0 <= i < |r| ==> r[i] in s
  }

  /**
   * The two halves of `Strip` as plain facts about sequences: `t` is `s`
   * less a run of leading padding and does not start with padding, and `r`
   * is `t` less a run of trailing padding and does not end with padding.
   */
  predicate StripSteps(s: string, pad: set<char>, t: string, r: string)
  {
    && |t| <= |s| && t == s[|s| - |t|..] && (forall i :: 0 <= i < |s| - |t| ==> s[i] in pad)
    && (t == [] || t[0] !in pad)
    && |r| <= |t| && r == t[..|r|] && (forall i :: |r| <= i < |t| ==> t[i] in pad)
    && (r == [] || r[|r| - 1] !in pad)
  }

  /** A string with no padding at either end is its own strip. */
  lemma StripUnpadded(s: string, pad: set<char>)
    requires Unpadded(s, pad)
    ensures Strip(s, pad) == s
  {
  }

  /** Facts about `Strip`, one lemma each to keep the proofs small. */
  lemma StripFacts(s: string, pad: set<char>, t: string, r: string)
    requires t == StripStart(s, pad) && r == StripEnd(t, pad)
    ensures StripSpec(s, pad, |s| - |t|, r)
  {
    assert StripSteps(s, pad, t, r);
    StripSlice(s, pad, t, r);
    SliceMembers(s, t, r);
    StripEnds(s, pad, t, r);
    StripIdentity(s, pad, t, r);
    StripAll(s, pad, t, r);
  }

  /** The stripped result is the slice of `s` between the padding removed at each end. */
  lemma StripSlice(s: string, pad: set<char>, t: string, r: string)
    requires StripSteps(s, pad, t, r)
    ensures PaddedSlice(s, pad, |s| - |t|, r)
  {
    var a := |s| - |t|;
    assert r == s[a..a + |r|];
    forall i | a + |r| <= i < |s| ensures s[i] in pad {
      assert s[i] == t[i - a];
    }
  }
  /** A prefix of a suffix of `s` holds only characters of `s`. */
  lemma SliceMembers(s: string, t: string, r: string)
    requires |t| <= |s| && t == s[|s| - |t|..]
    requires |r| <= |t| && r == t[..|r|]
    ensures MembersOf(r, s)
  {
    var k := |s| - |t|;
    forall i | 0 <= i < |r| ensures r[i] in s {
      assert r[i] == t[i] == s[k + i];
    }
  }

  /** Neither end of the stripped result is padding. */
  lemma StripEnds(s: string, pad: set<char>, t: string, r: string)
    requires StripSteps(s, pad, t, r)
    ensures Unpadded(r, pad)
  {
    if r != [] {
      assert r[0] == t[0];
    }
  }

  /** Input with no padding at either end is left unchanged. */
  lemma StripIdentity(s: string, pad: set<char>, t: string, r: string)
    requires StripSteps(s, pad, t, r)
    ensures Unpadded(s, pad) ==> r == s
  {
    if s != [] && Unpadded(s, pad) {
      assert |t| == |s|;
      assert t == s;
      assert |r| == |t|;
    }
  }

  /** Input made only of padding strips to the empty string. */
  lemma StripAll(s: string, pad: set<char>, t: string, r: string)
    requires StripSteps(s, pad, t, r)
    ensures AllPadding(s, pad) ==> r == []
  {
    if t != [] {
      assert t[0] == s[|s| - |t|];
    }
  }

  // ----------------------------------------------------------------------
  // Step 2: `replace(/_/g, "-")`
  // ----------------------------------------------------------------------

  /** Every underscore becomes a hyphen; every other character is kept. */
  function Underscores(s: string): (r: string)
    ensures |r| == |s|
    ensures forall i :: 0 <= i < |s| ==> r[i] == (if s[i] == '_' then '-' else s[i])
  {
    if |s| == 0 then [] else [if s[0] == '_' then '-' else s[0]] + Underscores(s[1..])
  }

  // ----------------------------------------------------------------------
  // Step 3: `replace(/([a-z])([A-Z])/g, "$1-$2")`
  // ----------------------------------------------------------------------

  /** An ASCII lower-case letter directly followed by an ASCII upper-case one. */
  predicate CamelAt(s: string, i: nat)
    requires i + 1 < |s|
  {
    IsLower(s[i]) && IsUpper(s[i + 1])
  }

  /** No lower-to-upper boundary anywhere in `s`. */
  predicate NoCamel(s: string)
  {
    forall i :: 0 <= i < |s| - 1 ==> !CamelAt(s, i)
  }

  /**
   * What step 3 promises: the result is no shorter, starts with the same
   * character, has no lower-to-upper boundary left, holds only hyphens and
   * characters of `s`, and is `s` itself when `s` has no boundary.
   */
  predicate CamelSpec(s: string, r: string)
  {
    && |r| >= |s|
    && (|s| > 0 ==> r[0] == s[0])
    && NoCamel(r)
    && (forall i :: 0 <= i < |r| ==> r[i] == '-' || r[i] in s)
    && (NoCamel(s) ==> r == s)
  }

  /**
   * The global regular-expression replacement, scanning left to right: a
   * match consumes both letters, and scanning resumes after the upper-case
   * one.
   */
  function SplitCamel(s: string): (r: string)
    ensures CamelSpec(s, r)
    decreases |s|
  {
    if |s| < 2 then s
    else if CamelAt(s, 0) then
      var rest := SplitCamel(s[2..]);
      CamelMatch(s, rest);
      [s[0], '-', s[1]] + rest
    else
      var rest := SplitCamel(s[1..]);
      CamelSkip(s, rest);
      [s[0]] + rest
  }

  /** A boundary at the front: the pair with a hyphen between, then the rest. */
  lemma CamelMatch(s: string, rest: string)
    requires |s| >= 2 && CamelAt(s, 0)
    requires CamelSpec(s[2..], rest)
    ensures CamelSpec(s, [s[0], '-', s[1]] + rest)
  {
    var r := [s[0], '-', s[1]] + rest;
    assert forall i :: 0 <= i < |rest| ==> rest[i] == '-' || rest[i] in s by {
      SuffixMembers(s, 2);
    }
    forall i | 0 <= i < |r| - 1 ensures !CamelAt(r, i) {
      if i >= 3 {
        assert r[i] == rest[i - 3] && r[i + 1] == rest[i - 2];
        assert !CamelAt(rest, i - 3);
      } else if i == 2 {
        assert !IsLower(r[2]);
      }
    }
    assert !NoCamel(s) by {
      assert CamelAt(s, 0);
    }
  }

  /** No boundary at the front: the first character, then the rest. */
  lemma CamelSkip(s: string, rest: string)
    requires |s| >= 2 && !CamelAt(s, 0)
    requires CamelSpec(s[1..], rest)
    ensures CamelSpec(s, [s[0]] + rest)
  {
    var r := [s[0]] + rest;
    assert forall i :: 0 <= i < |rest| ==> rest[i] == '-' || rest[i] in s by {
      SuffixMembers(s, 1);
    }
    forall i | 0 <= i < |r| - 1 ensures !CamelAt(r, i) {
      if i >= 1 {
        assert r[i] == rest[i - 1] && r[i + 1] == rest[i];
        assert !CamelAt(rest, i - 1);
      } else {
        assert r[1] == s[1];
      }
    }
    if NoCamel(s) {
      forall i | 0 <= i < |s[1..]| - 1 ensures !CamelAt(s[1..], i) {
        assert !CamelAt(s, i + 1);
      }
      assert s == [s[0]] + s[1..];
    }
  }

  /** Every character of a suffix of `s` is a character of `s`. */
  lemma SuffixMembers(s: string, k: nat)
    requires k <= |s|
    ensures forall c :: c in s[k..] ==> c in s
  {
    assert s == s[..k] + s[k..];
  }

  /**
   * Reference definition of step 3, position by position: a hyphen follows
   * every character that is an ASCII lower-case letter followed by an ASCII
   * upper-case letter.
   */
  function HyphenateBoundaries(s: string): string
  {
    if |s| == 0 then []
    else [s[0]] + (if |s| >= 2 && CamelAt(s, 0) then "-" else "") + HyphenateBoundaries(s[1..])
  }

  // ----------------------------------------------------------------------
  // Step 4: `replace(/\W/g, ($) => /[À-ž]/.test($) ? $ : "-")`
  // ----------------------------------------------------------------------

  /**
   * Word characters and characters of U+00C0..U+017E are kept; every other
   * character becomes a hyphen.
   */
  function Scrub(s: string): (r: string)
    ensures |r| == |s|
    ensures forall i :: 0 <= i < |s| && (IsWord(s[i]) || IsLatin(s[i])) ==> r[i] == s[i]
    ensures forall i :: 0 <= i < |s| && !IsWord(s[i]) && !IsLatin(s[i]) ==> r[i] == '-'
  {
    if |s| == 0 then []
    else [if IsWord(s[0]) || IsLatin(s[0]) then s[0] else '-'] + Scrub(s[1..])
  }

  // ----------------------------------------------------------------------
  // Step 6: `replace(/-{2,}/g, ($) => options && options.condense ? "-" : $)`
  // ----------------------------------------------------------------------

  /** No two hyphens side by side. */
  predicate NoDoubleHyphen(s: string)
  {
    forall i :: 0 <= i < |s| - 1 ==> !(s[i] == '-' && s[i + 1] == '-')
  }

  /** Length of the run of hyphens that `s` starts with. */
  function HyphenRun(s: string): (n: nat)
    ensures n <= |s|
    ensures forall i :: 0 <= i < n ==> s[i] == '-'
    ensures n < |s| ==> s[n] != '-'
  {
    if |s| > 0 && s[0] == '-' then 1 + HyphenRun(s[1..]) else 0
  }

  /**
   * Each maximal run of two or more hyphens is one match of `-{2,}`: it is
   * replaced by a single hyphen when condensing and by itself otherwise.
   */
  function CollapseRuns(s: string, condense: bool): (r: string)
    ensures CollapseSpec(s, condense, r)
    decreases |s|
  {
    if |s| == 0 then []
    else if s[0] != '-' then
      var rest := CollapseRuns(s[1..], condense);
      CollapseKeepsPlain(s, condense, rest);
      [s[0]] + rest
    else
      var n := HyphenRun(s);
      var rest := CollapseRuns(s[n..], condense);
      CollapseRun(s, n, condense, rest);
      (if n >= 2 && condense then "-" else s[..n]) + rest
  }

  /**
   * What `CollapseRuns` promises: without condensing the string is
   * unchanged; with it no two hyphens are left side by side; a string
   * without doubled hyphens is unchanged either way; only the empty string
   * collapses to the empty string; and the first and last characters survive.
   */
  predicate CollapseSpec(s: string, condense: bool, r: string)
  {
    && (!condense ==> r == s)
    && (condense ==> NoDoubleHyphen(r))
    && (NoDoubleHyphen(s) ==> r == s)
    && (|r| == 0 <==> |s| == 0)
    && (|s| > 0 ==> r[0] == s[0] && r[|r| - 1] == s[|s| - 1])
  }

  /** A character that is not a hyphen is copied in front of the collapsed rest. */
  lemma CollapseKeepsPlain(s: string, condense: bool, rest: string)
    requires |s| > 0 && s[0] != '-'
    requires CollapseSpec(s[1..], condense, rest)
    ensures CollapseSpec(s, condense, [s[0]] + rest)
  {
    var r := [s[0]] + rest;
    assert s == [s[0]] + s[1..];
    NoDoubleHyphenTail(s, 1);
    if condense {
      forall i | 0 <= i < |r| - 1 ensures !(r[i] == '-' && r[i + 1] == '-') {
        if i >= 1 {
          assert r[i] == rest[i - 1] && r[i + 1] == rest[i];
        }
      }
    }
  }

  /** A run of `n` hyphens is replaced by one hyphen, or kept, in front of the collapsed rest. */
  lemma CollapseRun(s: string, n: nat, condense: bool, rest: string)
    requires |s| > 0 && s[0] == '-' && n == HyphenRun(s)
    requires CollapseSpec(s[n..], condense, rest)
    ensures CollapseSpec(s, condense, (if n >= 2 && condense then "-" else s[..n]) + rest)
  {
    CollapseRunKeeps(s, n, condense, rest);
    CollapseRunEnds(s, n, condense, rest);
    if condense {
      CollapseRunCondensed(s, n, rest);
    }
  }

  /** Without condensing, or without doubled hyphens, the run is kept as it is. */
  lemma CollapseRunKeeps(s: string, n: nat, condense: bool, rest: string)
    requires |s| > 0 && s[0] == '-' && n == HyphenRun(s)
    requires CollapseSpec(s[n..], condense, rest)
    ensures !condense ==> (if n >= 2 && condense then "-" else s[..n]) + rest == s
    ensures NoDoubleHyphen(s) ==> (if n >= 2 && condense then "-" else s[..n]) + rest == s
  {
    if NoDoubleHyphen(s) {
      SingleHyphenRun(s, n);
      NoDoubleHyphenTail(s, n);
    }
    assert s[..n] + s[n..] == s;
  }

  /** Without doubled hyphens every run of hyphens has length one. */
  lemma SingleHyphenRun(s: string, n: nat)
    requires |s| > 0 && s[0] == '-' && n == HyphenRun(s)
    requires NoDoubleHyphen(s)
    ensures n == 1
  {
    if |s| >= 2 {
      assert !(s[0] == '-' && s[1] == '-');
    }
  }

  /** The collapsed run keeps the first and the last character. */
  lemma CollapseRunEnds(s: string, n: nat, condense: bool, rest: string)
    requires |s| > 0 && s[0] == '-' && n == HyphenRun(s)
    requires CollapseSpec(s[n..], condense, rest)
    ensures var r := (if n >= 2 && condense then "-" else s[..n]) + rest;
      |r| > 0 && r[0] == s[0] && r[|r| - 1] == s[|s| - 1]
  {
    if |rest| == 0 {
      assert n == |s|;
    }
  }

  /** Condensing puts a single hyphen before a collapsed rest that does not start with one. */
  lemma CollapseRunCondensed(s: string, n: nat, rest: string)
    requires |s| > 0 && s[0] == '-' && n == HyphenRun(s)
    requires NoDoubleHyphen(rest) && (|rest| == 0 <==> n == |s|)
    requires n < |s| ==> rest[0] == s[n]
    ensures NoDoubleHyphen("-" + rest)
  {
    var r := "-" + rest;
    forall i | 0 <= i < |r| - 1 ensures !(r[i] == '-' && r[i + 1] == '-') {
      if i >= 1 {
        assert r[i] == rest[i - 1] && r[i + 1] == rest[i];
      } else {
        assert r[1] == rest[0] == s[n];
      }
    }
  }

  /** A suffix of a string without double hyphens has none either. */
  lemma NoDoubleHyphenTail(s: string, n: nat)
    requires n <= |s|
    ensures NoDoubleHyphen(s) ==> NoDoubleHyphen(s[n..])
  {
    if NoDoubleHyphen(s) {
      forall i | 0 <= i < |s[n..]| - 1 ensures !(s[n..][i] == '-' && s[n..][i + 1] == '-') {
        assert !(s[i + n] == '-' && s[i + n + 1] == '-');
      }
    }
  }

  /**
   * Reference definition of step 6 when condensing: every hyphen that is
   * directly followed by another hyphen is deleted.
   */
  function DropRepeatedHyphens(s: string): string
  {
    if |s| <= 1 then s
    else if s[0] == '-' && s[1] == '-' then DropRepeatedHyphens(s[1..])
    else [s[0]] + DropRepeatedHyphens(s[1..])
  }

  // ----------------------------------------------------------------------
  // Step 7: `toLowerCase()`
  // ----------------------------------------------------------------------

  /** Every ASCII upper-case letter becomes lower-case; nothing else changes. */
  function LowerAll(s: string): (r: string)
    ensures |r| == |s|
    ensures forall i :: 0 <= i < |s| ==> r[i] == ToLower(s[i])
  {
    if |s| == 0 then [] else [ToLower(s[0])] + LowerAll(s[1..])
  }

  // ----------------------------------------------------------------------
  // The pipeline
  // ----------------------------------------------------------------------

  /**
   * The `options` argument: `null`, or an object with a `condense` flag.
   * Leaving it `undefined` selects `Default`.
   */
  datatype CaseOptions = Null | CaseOptions(condense: bool)

  const Default: CaseOptions := CaseOptions(true)

  /** `options && options.condense`. */
  predicate Condenses(options: CaseOptions)
  {
    options.CaseOptions? && options.condense
  }

  /** A character that may appear in a normalised token. */
  predicate IsTokenChar(c: char)
  {
    IsLower(c) || IsDigit(c) || c == '-' || IsLatin(c)
  }

  /**
   * A normalised token: lower-case ASCII letters, digits, hyphens and
   * characters of U+00C0..U+017E only, no hyphen at either end, and, when
   * `condensed`, no two hyphens side by side.
   */
  predicate IsToken(t: string, condensed: bool)
  {
    && (forall i :: 0 <= i < |t| ==> IsTokenChar(t[i]))
    && (t == [] || (t[0] != '-' && t[|t| - 1] != '-'))
    && (condensed ==> NoDoubleHyphen(t))
  }

  /** The characters a string may hold after step 4. */
  predicate Scrubbed(s: string)
  {
    forall i :: 0 <= i < |s| ==> IsLower(s[i]) || IsUpper(s[i]) || IsDigit(s[i]) || s[i] == '-' || IsLatin(s[i])
  }

  /**
   * Steps 1 to 4 of `Case`: trim, underscores to hyphens, hyphens at
   * lower-to-upper boundaries, and non-word characters to hyphens. What is
   * left is ASCII letters, digits, hyphens and U+00C0..U+017E.
   */
  function Tidy(input: string): (r: string)
    ensures Scrubbed(r)
  {
    var trimmed := Strip(input, WhiteSpace);
    var dashed := Underscores(trimmed);
    var split := SplitCamel(dashed);
    ScrubbedAfterStepFour(dashed, split, Scrub(split));
    Scrub(split)
  }

  /**
   * `Case(input, options)`, the seven steps in order. Whatever the input,
   * the result is a normalised token, condensed exactly when the options
   * ask for it.
   */
  function Case(input: string, options: CaseOptions): (r: string)
    ensures IsToken(r, Condenses(options))
    ensures input == [] ==> r == []
  {
    var tidy := Tidy(input);
    FinishingSteps(tidy, Condenses(options));
    LowerAll(CollapseRuns(Strip(tidy, {'-'}), Condenses(options)))
  }

  /** Steps 5 to 7 turn a string of step 4's characters into a token. */
  lemma FinishingSteps(tidy: string, condense: bool)
    requires Scrubbed(tidy)
    ensures IsToken(LowerAll(CollapseRuns(Strip(tidy, {'-'}), condense)), condense)
  {
    var stripped := Strip(tidy, {'-'});
    var condensed := CollapseRuns(stripped, condense);
    StripKeepsScrubbed(tidy, stripped);
    CollapseRunsKeepsScrubbed(stripped, condense);
    LowerAllToken(condensed, condense);
  }

  /** Without underscores, step 3 and step 4 leave only letters, digits, hyphens and U+00C0..U+017E. */
  lemma ScrubbedAfterStepFour(dashed: string, split: string, scrubbed: string)
    requires '_' !in dashed
    requires split == SplitCamel(dashed) && scrubbed == Scrub(split)
    ensures Scrubbed(scrubbed)
  {
    forall i | 0 <= i < |scrubbed|
      ensures IsLower(scrubbed[i]) || IsUpper(scrubbed[i]) || IsDigit(scrubbed[i]) || scrubbed[i] == '-' || IsLatin(scrubbed[i])
    {
      assert split[i] == '-' || split[i] in dashed;
    }
  }

  /** Stripping hyphens keeps a scrubbed string scrubbed. */
  lemma StripKeepsScrubbed(s: string, r: string)
    requires Scrubbed(s) && r == Strip(s, {'-'})
    ensures Scrubbed(r)
  {
    forall i | 0 <= i < |r| ensures IsLower(r[i]) || IsUpper(r[i]) || IsDigit(r[i]) || r[i] == '-' || IsLatin(r[i]) {
      assert r[i] in s;
    }
  }

  lemma {:induction false} CollapseRunsKeepsScrubbed(s: string, condense: bool)
    requires Scrubbed(s)
    ensures Scrubbed(CollapseRuns(s, condense))
    decreases |s|
  {
    if |s| > 0 {
      if s[0] != '-' {
        CollapseRunsKeepsScrubbed(s[1..], condense);
      } else {
        var n := HyphenRun(s);
        CollapseRunsKeepsScrubbed(s[n..], condense);
      }
    }
  }

  /** Lower-casing a scrubbed string without end hyphens gives a token. */
  lemma LowerAllToken(s: string, condensed: bool)
    requires Scrubbed(s)
    requires s == [] || (s[0] != '-' && s[|s| - 1] != '-')
    requires condensed ==> NoDoubleHyphen(s)
    ensures IsToken(LowerAll(s), condensed)
  {
    var r := LowerAll(s);
    forall i | 0 <= i < |s| ensures IsTokenChar(r[i]) && (r[i] == '-' <==> s[i] == '-') {
    }
  }

  // ----------------------------------------------------------------------
  // Properties of the pipeline
  // ----------------------------------------------------------------------

  /**
   * The left-to-right scan of step 3 misses no boundary: it inserts exactly
   * one hyphen after every lower-case letter that is followed by an
   * upper-case one. A matched upper-case letter can never start a match, so
   * resuming after it loses nothing.
   */
  lemma {:induction false} SplitCamelHyphenatesEveryBoundary(s: string)
    ensures SplitCamel(s) == HyphenateBoundaries(s)
    decreases |s|
  {
    if |s| >= 2 {
      if CamelAt(s, 0) {
        SplitCamelHyphenatesEveryBoundary(s[2..]);
        assert s[1..][1..] == s[2..];
        assert HyphenateBoundaries(s[1..]) == [s[1]] + HyphenateBoundaries(s[2..]);
      } else {
        SplitCamelHyphenatesEveryBoundary(s[1..]);
      }
    }
  }

  /** `DropRepeatedHyphens` turns a leading run of `n` hyphens into one. */
  lemma {:induction false} DropRepeatedHyphensOfRun(s: string, n: nat)
    requires 1 <= n <= |s| && n == HyphenRun(s)
    ensures DropRepeatedHyphens(s) == "-" + DropRepeatedHyphens(s[n..])
    decreases n
  {
    if n >= 2 {
      assert HyphenRun(s[1..]) == n - 1;
      DropRepeatedHyphensOfRun(s[1..], n - 1);
      assert s[1..][n - 1..] == s[n..];
    }
  }

  /**
   * Condensing, run by run as the regular expression `-{2,}` matches, is
   * the same as deleting every hyphen that another hyphen follows.
   */
  lemma {:induction false} CondensingDropsRepeatedHyphens(s: string)
    ensures CollapseRuns(s, true) == DropRepeatedHyphens(s)
    decreases |s|
  {
    if |s| > 0 {
      if s[0] != '-' {
        CondensingDropsRepeatedHyphens(s[1..]);
      } else {
        var n := HyphenRun(s);
        CondensingDropsRepeatedHyphens(s[n..]);
        DropRepeatedHyphensOfRun(s, n);
        assert n == 1 ==> s[..n] == "-";
      }
    }
  }

  /** Lower-casing keeps every hyphen where it is, so it commutes with deleting repeated ones. */
  lemma {:induction false} LowerAllDropRepeatedHyphens(s: string)
    ensures LowerAll(DropRepeatedHyphens(s)) == DropRepeatedHyphens(LowerAll(s))
    decreases |s|
  {
    if |s| >= 2 {
      LowerAllDropRepeatedHyphens(s[1..]);
      assert LowerAll(s)[1..] == LowerAll(s[1..]);
    }
  }

  /**
   * The condensed result is the uncondensed one with every repeated hyphen
   * deleted, and `null` options behave as `{ condense: false }`.
   */
  lemma CondensedIsUncondensedWithoutRepeats(input: string)
    ensures Case(input, Null) == Case(input, CaseOptions(false))
    ensures Case(input, Default) == DropRepeatedHyphens(Case(input, CaseOptions(false)))
  {
    CondensedAfterStrip(Strip(Tidy(input), {'-'}));
  }

  /** Steps 6 and 7 with and without condensing, on any string. */
  lemma CondensedAfterStrip(stripped: string)
    ensures LowerAll(CollapseRuns(stripped, true)) == DropRepeatedHyphens(LowerAll(CollapseRuns(stripped, false)))
  {
    CondensingDropsRepeatedHyphens(stripped);
    LowerAllDropRepeatedHyphens(stripped);
  }

  /** Steps 1 to 4 leave a normalised token unchanged. */
  lemma TidyFixesTokens(t: string, condensed: bool)
    requires IsToken(t, condensed)
    ensures Tidy(t) == t
  {
    TokenCharacters(t, condensed);
    assert Strip(t, WhiteSpace) == t;
    assert Underscores(t) == t;
    assert NoCamel(t);
    assert Scrub(t) == t;
  }

  /** A normalised token is left unchanged by every step of `Case`. */
  lemma CaseFixesTokens(t: string, options: CaseOptions)
    requires IsToken(t, Condenses(options))
    ensures Case(t, options) == t
  {
    var condense := Condenses(options);
    assert Tidy(t) == t by { TidyFixesTokens(t, condense); }
    assert Strip(t, {'-'}) == t by { StripUnpadded(t, {'-'}); }
    assert CollapseRuns(t, condense) == t;
    assert LowerAll(t) == t by { LowerAllFixesTokens(t, condense); }
  }

  /** Lower-casing leaves a token unchanged. */
  lemma LowerAllFixesTokens(t: string, condensed: bool)
    requires IsToken(t, condensed)
    ensures LowerAll(t) == t
  {
    TokenCharacters(t, condensed);
  }

  /** The fixed points of `Case` are exactly the normalised tokens. */
  lemma CaseFixedPoints(t: string, options: CaseOptions)
    ensures Case(t, options) == t <==> IsToken(t, Condenses(options))
  {
    if IsToken(t, Condenses(options)) {
      CaseFixesTokens(t, options);
    }
  }

  /** Normalising twice with the same options is normalising once. */
  lemma CaseIdempotent(input: string, options: CaseOptions)
    ensures Case(Case(input, options), options) == Case(input, options)
  {
    CaseFixesTokens(Case(input, options), options);
  }

  /**
   * A normalised token holds no white space, no underscore and no ASCII
   * upper-case letter.
   */
  lemma TokenCharacters(t: string, condensed: bool)
    requires IsToken(t, condensed)
    ensures forall i :: 0 <= i < |t| ==> t[i] !in WhiteSpace && t[i] != '_' && !IsUpper(t[i])
  {
    forall i | 0 <= i < |t| ensures t[i] !in WhiteSpace && t[i] != '_' && !IsUpper(t[i]) {
      assert IsTokenChar(t[i]);
    }
  }

  // ----------------------------------------------------------------------
  // Interchangeable separators
  // ----------------------------------------------------------------------

  /**
   * A character steps 1 to 3 leave alone and step 4 turns into a hyphen:
   * neither white space, nor a word character, nor in U+00C0..U+017E.
   */
  predicate Inert(c: char)
  {
    c !in WhiteSpace && !IsWord(c) && !IsLatin(c)
  }

  /** `s` and `t` agree except where both hold (possibly different) inert characters. */
  predicate Interchangeable(s: string, t: string)
  {
    |s| == |t| && forall i :: 0 <= i < |s| ==> s[i] == t[i] || (Inert(s[i]) && Inert(t[i]))
  }

  lemma {:induction false} StripStartInterchangeable(s: string, t: string)
    requires Interchangeable(s, t)
    ensures Interchangeable(StripStart(s, WhiteSpace), StripStart(t, WhiteSpace))
    decreases |s|
  {
    if |s| > 0 && s[0] in WhiteSpace {
      assert t[0] in WhiteSpace;
      StripStartInterchangeable(s[1..], t[1..]);
    }
  }

  lemma {:induction false} StripEndInterchangeable(s: string, t: string)
    requires Interchangeable(s, t)
    ensures Interchangeable(StripEnd(s, WhiteSpace), StripEnd(t, WhiteSpace))
    decreases |s|
  {
    if |s| > 0 && s[|s| - 1] in WhiteSpace {
      assert t[|t| - 1] in WhiteSpace;
      StripEndInterchangeable(s[..|s| - 1], t[..|t| - 1]);
    }
  }

  lemma {:induction false} SplitCamelInterchangeable(s: string, t: string)
    requires Interchangeable(s, t)
    ensures Interchangeable(SplitCamel(s), SplitCamel(t))
    decreases |s|
  {
    if |s| >= 2 {
      if CamelAt(s, 0) {
        assert s[0] == t[0] && s[1] == t[1];
        SplitCamelInterchangeable(s[2..], t[2..]);
      } else {
        assert !CamelAt(t, 0);
        SplitCamelInterchangeable(s[1..], t[1..]);
      }
    }
  }

  /** Steps 1 to 4 cannot tell interchangeable strings apart. */
  lemma TidyInterchangeable(s: string, t: string)
    requires Interchangeable(s, t)
    ensures Tidy(s) == Tidy(t)
  {
    var a := Underscores(Strip(s, WhiteSpace));
    var b := Underscores(Strip(t, WhiteSpace));
    assert Interchangeable(a, b) by {
      StripInterchangeable(s, t);
      UnderscoresInterchangeable(Strip(s, WhiteSpace), Strip(t, WhiteSpace));
    }
    assert Interchangeable(SplitCamel(a), SplitCamel(b)) by {
      SplitCamelInterchangeable(a, b);
    }
    ScrubInterchangeable(SplitCamel(a), SplitCamel(b));
  }

  lemma StripInterchangeable(s: string, t: string)
    requires Interchangeable(s, t)
    ensures Interchangeable(Strip(s, WhiteSpace), Strip(t, WhiteSpace))
  {
    StripStartInterchangeable(s, t);
    StripEndInterchangeable(StripStart(s, WhiteSpace), StripStart(t, WhiteSpace));
  }

  lemma UnderscoresInterchangeable(s: string, t: string)
    requires Interchangeable(s, t)
    ensures Interchangeable(Underscores(s), Underscores(t))
  {
  }

  lemma ScrubInterchangeable(s: string, t: string)
    requires Interchangeable(s, t)
    ensures Scrub(s) == Scrub(t)
  {
    assert forall i :: 0 <= i < |s| ==> Scrub(s)[i] == Scrub(t)[i];
  }

  /**
   * `Case` gives the same token for strings that differ only in which inert
   * separator (such as `/` or `-`) stands at each position.
   */
  lemma CaseInterchangeable(s: string, t: string, options: CaseOptions)
    requires Interchangeable(s, t)
    ensures Case(s, options) == Case(t, options)
  {
    TidyInterchangeable(s, t);
  }

  // ----------------------------------------------------------------------
  // Scream, exported as Title
  // ----------------------------------------------------------------------

  /** `$[0].toUpperCase() + $.slice(1)`: reading index 0 of an empty piece throws. */
  function Capitalize(piece: string): Option<string>
  {
    if |piece| == 0 then None else Some([ToUpper(piece[0])] + piece[1..])
  }

  /**
   * `pieces.map(Capitalize)`: fails exactly when some piece is empty, and
   * otherwise capitalises every piece in place.
   */
  function CapitalizeAll(pieces: seq<string>): (r: Option<seq<string>>)
    ensures r.Some? <==> forall k :: 0 <= k < |pieces| ==> |pieces[k]| > 0
    ensures r.Some? ==> |r.value| == |pieces|
    ensures r.Some? ==> forall k :: 0 <= k < |pieces| ==> Capitalize(pieces[k]) == Some(r.value[k])
  {
    if |pieces| == 0 then Some([])
    else
      match Capitalize(pieces[0])
      case None => None
      case Some(first) =>
        match CapitalizeAll(pieces[1..])
        case None => None
        case Some(rest) => Some([first] + rest)
  }

  /** `input.split(d).map(Capitalize).join("-")`, one of the three stages of `Scream`. */
  function ScreamStage(input: string, d: char): Option<string>
  {
    match CapitalizeAll(Split(input, d))
    case None => None
    case Some(pieces) => Some(Join(pieces, '-'))
  }

  /**
   * `Scream(input)`: the stage for spaces, then for underscores, then for
   * hyphens. `None` stands for the TypeError thrown when a piece is empty.
   */
  function Scream(input: string): (r: Option<string>)
    ensures input == [] ==> r == None
    ensures r.Some? ==> |r.value| == |input|
  {
    ScreamStageSpec(input, ' ');
    match ScreamStage(input, ' ')
    case None => None
    case Some(spaced) =>
      ScreamStageSpec(spaced, '_');
      match ScreamStage(spaced, '_')
      case None => None
      case Some(underscored) =>
        ScreamStageSpec(underscored, '-');
        ScreamStage(underscored, '-')
  }

  /** `s` is non-empty, does not start or end with `d`, and never holds two `d` side by side. */
  predicate Separated(s: string, d: char)
  {
    && |s| > 0 && s[0] != d && s[|s| - 1] != d
    && forall i :: 0 <= i < |s| - 1 ==> !(s[i] == d && s[i + 1] == d)
  }

  /**
   * Reference definition of one stage, position by position: `d` becomes a
   * hyphen, the first character and every character after a `d` is
   * upper-cased, and everything else is kept.
   */
  function Staged(s: string, d: char): (r: string)
    ensures |r| == |s|
  {
    seq(|s|, i requires 0 <= i < |s| => if s[i] == d then '-' else if i == 0 || s[i - 1] == d then ToUpper(s[i]) else s[i])
  }

  /** Cutting `s` at its first `d`: `s` is separated exactly when the part before is non-empty and the part after is separated. */
  lemma SeparatedAtFirst(s: string, d: char, i: nat)
    requires i < |s| && s[i] == d && d !in s[..i]
    ensures Separated(s, d) <==> i > 0 && Separated(s[i + 1..], d)
  {
    var rest := s[i + 1..];
    if Separated(s, d) {
      assert s[0] != d;
      assert i != |s| - 1;
      assert rest[0] == s[i + 1];
      forall j | 0 <= j < |rest| - 1 ensures !(rest[j] == d && rest[j + 1] == d) {
        assert !(s[i + 1 + j] == d && s[i + 2 + j] == d);
      }
    }
    if i > 0 && Separated(rest, d) {
      assert s[0] == s[..i][0];
      assert s[|s| - 1] == rest[|rest| - 1];
      forall j | 0 <= j < |s| - 1 ensures !(s[j] == d && s[j + 1] == d) {
        if j < i {
          assert s[j] == s[..i][j];
        } else if j > i {
          assert s[j] == rest[j - i - 1] && s[j + 1] == rest[j - i];
        }
      }
    }
  }

  /** One stage, on `s` cut at its first `d`. */
  lemma StagedAtFirst(s: string, d: char, i: nat)
    requires 0 < i < |s| && s[i] == d && d !in s[..i]
    ensures Staged(s, d) == Capitalize(s[..i]).value + "-" + Staged(s[i + 1..], d)
  {
    var p := s[..i];
    var rest := s[i + 1..];
    var lhs := Staged(s, d);
    var rhs := Capitalize(p).value + "-" + Staged(rest, d);
    assert |lhs| == |rhs|;
    forall j | 0 <= j < |lhs| ensures lhs[j] == rhs[j] {
      if j < i {
        assert s[j] == p[j];
        if j > 0 {
          assert s[j - 1] == p[j - 1];
        }
      } else if j > i {
        assert s[j] == rest[j - i - 1];
      }
    }
  }

  /**
   * A stage succeeds exactly when no piece is empty, that is when `s` is
   * separated by `d`, and then it agrees with the reference `Staged`.
   */
  lemma {:induction false} ScreamStageSpec(s: string, d: char)
    ensures ScreamStage(s, d).Some? <==> Separated(s, d)
    ensures ScreamStage(s, d).Some? ==> ScreamStage(s, d).value == Staged(s, d)
    decreases |s|
  {
    if d !in s {
      assert Split(s, d) == [s];
      if |s| > 0 {
        assert Staged(s, d) == [ToUpper(s[0])] + s[1..];
      }
    } else {
      var i := IndexOf(s, d);
      var rest := s[i + 1..];
      ScreamStageSpec(rest, d);
      SeparatedAtFirst(s, d, i);
      ScreamStageAtFirst(s, d, i);
      if i > 0 && Separated(rest, d) {
        StagedAtFirst(s, d, i);
      }
    }
  }

  /** One stage on `s` cut at its first `d`: the first piece, a hyphen, and the stage of the rest. */
  lemma ScreamStageAtFirst(s: string, d: char, i: nat)
    requires d in s && i == IndexOf(s, d)
    ensures ScreamStage(s, d) ==
      if i == 0 then None
      else match ScreamStage(s[i + 1..], d)
        case None => None
        case Some(tail) => Some(Capitalize(s[..i]).value + "-" + tail)
  {
    var p := s[..i];
    var rest := Split(s[i + 1..], d);
    assert Split(s, d) == [p] + rest;
    assert ([p] + rest)[1..] == rest;
    if i > 0 && CapitalizeAll(rest).Some? {
      var caps := CapitalizeAll(rest).value;
      assert CapitalizeAll(Split(s, d)) == Some([Capitalize(p).value] + caps);
      assert ([Capitalize(p).value] + caps)[1..] == caps;
    }
  }

  /** The separators `Scream` splits on. */
  predicate IsSeparator(c: char)
  {
    c == ' ' || c == '_' || c == '-'
  }

  /**
   * Non-empty, no separator at either end, and no two separators side by
   * side: exactly the inputs for which no piece of any stage is empty.
   */
  predicate WellSeparated(s: string)
  {
    && |s| > 0 && !IsSeparator(s[0]) && !IsSeparator(s[|s| - 1])
    && forall i :: 0 <= i < |s| - 1 ==> !(IsSeparator(s[i]) && IsSeparator(s[i + 1]))
  }

  /**
   * Reference definition of `Scream`, position by position: every separator
   * becomes a hyphen, the first character of each piece is upper-cased, and
   * every other character is kept.
   */
  function Titled(s: string): (r: string)
    ensures |r| == |s|
  {
    seq(|s|, i requires 0 <= i < |s| => if IsSeparator(s[i]) then '-' else if i == 0 || IsSeparator(s[i - 1]) then ToUpper(s[i]) else s[i])
  }

  /** After the space stage, underscores sit where they were and hyphens stand for spaces and hyphens. */
  lemma SpaceStageSeparators(s: string)
    ensures forall i :: 0 <= i < |s| ==> (Staged(s, ' ')[i] == '_' <==> s[i] == '_')
    ensures forall i :: 0 <= i < |s| ==> (Staged(s, ' ')[i] == '-' <==> s[i] == ' ' || s[i] == '-')
  {
  }

  /** After the underscore stage, hyphens stand exactly for the separators of the input. */
  lemma UnderscoreStageSeparators(s: string)
    ensures forall i :: 0 <= i < |s| ==> (Staged(Staged(s, ' '), '_')[i] == '-' <==> IsSeparator(s[i]))
  {
    SpaceStageSeparators(s);
  }

  /** A string whose `d` positions are the separator positions of `s` is separated by `d` exactly when `s` is well separated. */
  lemma SeparatedIffWellSeparated(s: string, t: string, d: char)
    requires |t| == |s|
    requires forall i :: 0 <= i < |s| ==> (t[i] == d <==> IsSeparator(s[i]))
    ensures Separated(t, d) <==> WellSeparated(s)
  {
    if Separated(t, d) {
      forall i | 0 <= i < |s| - 1 ensures !(IsSeparator(s[i]) && IsSeparator(s[i + 1])) {
        assert !(t[i] == d && t[i + 1] == d);
      }
    }
    if WellSeparated(s) {
      forall i | 0 <= i < |t| - 1 ensures !(t[i] == d && t[i + 1] == d) {
        assert !(IsSeparator(s[i]) && IsSeparator(s[i + 1]));
      }
    }
  }

  /** Well separated inputs are separated by spaces, and after the space stage by underscores. */
  lemma WellSeparatedStages(s: string)
    requires WellSeparated(s)
    ensures Separated(s, ' ')
    ensures Separated(Staged(s, ' '), '_')
  {
    var t1 := Staged(s, ' ');
    SpaceStageSeparators(s);
    forall i | 0 <= i < |s| - 1 ensures !(s[i] == ' ' && s[i + 1] == ' ') {
      assert !(IsSeparator(s[i]) && IsSeparator(s[i + 1]));
    }
    forall i | 0 <= i < |t1| - 1 ensures !(t1[i] == '_' && t1[i + 1] == '_') {
      assert !(IsSeparator(s[i]) && IsSeparator(s[i + 1]));
    }
  }

  /** The three stages together capitalise each piece once. */
  lemma StagesComposeToTitled(s: string)
    ensures Staged(Staged(Staged(s, ' '), '_'), '-') == Titled(s)
  {
    var t1 := Staged(s, ' ');
    var t2 := Staged(t1, '_');
    var t3 := Staged(t2, '-');
    var r := Titled(s);
    SpaceStageSeparators(s);
    UnderscoreStageSeparators(s);
    forall i | 0 <= i < |s| ensures t3[i] == r[i] {
      if !IsSeparator(s[i]) && i > 0 && !IsSeparator(s[i - 1]) {
        assert t1[i] == s[i];
        assert t2[i] == s[i];
      }
    }
  }

  /**
   * `Scream` succeeds exactly on well-separated input, so `Scream("")`
   * throws, and its result is the reference `Titled`.
   */
  lemma ScreamSpec(s: string)
    ensures Scream(s).Some? <==> WellSeparated(s)
    ensures Scream(s).Some? ==> Scream(s).value == Titled(s)
  {
    ScreamThroughStages(s);
    StagesSeparatedIffWellSeparated(s);
    StagesComposeToTitled(s);
  }

  /** `Scream` succeeds exactly when every stage does, and then it is the three reference stages. */
  lemma ScreamThroughStages(s: string)
    ensures var t1 := Staged(s, ' ');
      var t2 := Staged(t1, '_');
      Scream(s) == if Separated(s, ' ') && Separated(t1, '_') && Separated(t2, '-')
        then Some(Staged(t2, '-')) else None
  {
    ScreamStageSpec(s, ' ');
    var t1 := Staged(s, ' ');
    if Separated(s, ' ') {
      ScreamStageSpec(t1, '_');
      if Separated(t1, '_') {
        ScreamStageSpec(Staged(t1, '_'), '-');
      }
    }
  }

  /** Every stage finds non-empty pieces exactly when the input is well separated. */
  lemma StagesSeparatedIffWellSeparated(s: string)
    ensures var t1 := Staged(s, ' ');
      var t2 := Staged(t1, '_');
      Separated(s, ' ') && Separated(t1, '_') && Separated(t2, '-') <==> WellSeparated(s)
  {
    var t2 := Staged(Staged(s, ' '), '_');
    UnderscoreStageSeparators(s);
    SeparatedIffWellSeparated(s, t2, '-');
    if WellSeparated(s) {
      WellSeparatedStages(s);
    }
  }

  /**
   * Upper-cases the first character of every hyphen-separated segment of
   * `t` and keeps everything else, hyphens included.
   */
  function CapitalizeSegments(t: string): (r: string)
    ensures |r| == |t|
  {
    seq(|t|, i requires 0 <= i < |t| => if i == 0 || t[i - 1] == '-' then ToUpper(t[i]) else t[i])
  }

  /**
   * `Title` of a normalised token succeeds exactly when the token is
   * non-empty and has no doubled hyphen (always the case for a non-empty
   * condensed token). It then keeps every hyphen where it is and
   * upper-cases only the first character of each hyphen-separated segment,
   * and lower-casing it gives the token back.
   */
  lemma TitleOfToken(t: string, condensed: bool)
    requires IsToken(t, condensed)
    ensures Scream(t).Some? <==> |t| > 0 && NoDoubleHyphen(t)
    ensures Scream(t).Some? ==> Scream(t).value == CapitalizeSegments(t)
    ensures Scream(t).Some? ==> LowerAll(Scream(t).value) == t
  {
    ScreamSpec(t);
    TokenWellSeparated(t, condensed);
    TitledToken(t, condensed);
    CapitalizeSegmentsLowers(t, condensed);
  }

  /** In a token the only separator is the hyphen. */
  lemma TokenWellSeparated(t: string, condensed: bool)
    requires IsToken(t, condensed)
    ensures WellSeparated(t) <==> |t| > 0 && NoDoubleHyphen(t)
  {
    TokenCharacters(t, condensed);
    assert forall i :: 0 <= i < |t| ==> (IsSeparator(t[i]) <==> t[i] == '-');
    if WellSeparated(t) {
      forall i | 0 <= i < |t| - 1 ensures !(t[i] == '-' && t[i + 1] == '-') {
        assert !(IsSeparator(t[i]) && IsSeparator(t[i + 1]));
      }
    }
  }

  /** On a token, `Titled` only looks at hyphens. */
  lemma TitledToken(t: string, condensed: bool)
    requires IsToken(t, condensed)
    ensures Titled(t) == CapitalizeSegments(t)
  {
    var r := Titled(t);
    var c := CapitalizeSegments(t);
    forall i | 0 <= i < |t| ensures r[i] == c[i] {
      assert IsTokenChar(t[i]);
      if i > 0 {
        assert IsTokenChar(t[i - 1]);
      }
    }
  }

  /** Lower-casing a token with capitalised segments restores the token. */
  lemma CapitalizeSegmentsLowers(t: string, condensed: bool)
    requires IsToken(t, condensed)
    ensures LowerAll(CapitalizeSegments(t)) == t
  {
    var r := CapitalizeSegments(t);
    forall i | 0 <= i < |t| ensures LowerAll(r)[i] == t[i] {
      assert IsTokenChar(t[i]);
      LowerOfUpper(t[i]);
    }
  }
}
