/**
  The substitution engine of nlstruct/core/text.py:87-118:
  `make_str_from_groups`, `regex_sub_with_spans` and
  `regex_multisub_with_spans`.

  The regular-expression engine is not modelled: a search is given as the
  list of its matches, in ascending order and without overlap, each with the
  text of its capture groups.
 */
module Substitution {
  import opened Wrappers
  import opened Deltas
  import opened Composition
  import DeltaLaws

  /** A match of the pattern in the searched text: its range [start, end) and
      its capture groups (group `k` at index `k - 1`; None when the group did
      not take part in the match). */
  datatype Match = Match(start: int, end: int, groups: seq<Option<string>>)

  /** `match.group(k)` for a group the pattern does not have raises
      IndexError; `str.replace` with a group that did not take part (None)
      raises TypeError. */
  datatype SubError = NoSuchGroup | UnmatchedGroup

  /** What `re.finditer` reports on a text of length `n`. */
  predicate ValidMatches(ms: seq<Match>, n: int)
  {
    && (forall k :: 0 <= k < |ms| ==> 0 <= ms[k].start <= ms[k].end <= n)
    && (forall i, j :: 0 <= i < j < |ms| ==> ms[i].end <= ms[j].start)
  }

  // ---------------------------------------------------------------------------
  // Back-references in the replacement string
  // ---------------------------------------------------------------------------

  predicate IsDigit(c: char)
  {
    '0' <= c <= '9'
  }

  predicate AllDigits(s: string)
  {
    forall k :: 0 <= k < |s| ==> IsDigit(s[k])
  }

  /** Length of the run of decimal digits that starts `s`. */
  function DigitRun(s: string): (n: nat)
    ensures n <= |s|
    ensures AllDigits(s[..n])
    ensures n < |s| ==> !IsDigit(s[n])
  {
    if |s| == 0 || !IsDigit(s[0]) then 0
    else
      var n := 1 + DigitRun(s[1..]);
      assert s[..n] == [s[0]] + s[1..][..n - 1];
      n
  }

  /** `int(...)` of a string of decimal digits. */
  function DigitsValue(s: string): nat
    requires AllDigits(s)
  {
    if |s| == 0 then 0
    else DigitsValue(s[..|s| - 1]) * 10 + (s[|s| - 1] as int - '0' as int)
  }

  /** `str(n)`: the decimal representation of `n`. */
  function Decimal(n: nat): (s: string)
    ensures |s| > 0 && AllDigits(s)
  {
    if n < 10 then [('0' as int + n) as char]
    else Decimal(n / 10) + [('0' as int + n % 10) as char]
  }

  /** Reading back the decimal representation gives the number. */
  lemma {:induction false} DecimalRoundTrip(n: nat)
    ensures DigitsValue(Decimal(n)) == n
  {
    if n >= 10 {
      var s := Decimal(n);
      assert s[..|s| - 1] == Decimal(n / 10);
      DecimalRoundTrip(n / 10);
    }
  }

  /** The group numbers the replacement refers to (line 94): every
      backslash followed by a maximal run of digits, left to right. */
  function BackRefs(repl: string): (r: seq<nat>)
    ensures 2 * |r| <= |repl|
    decreases |repl|
  {
    if |repl| < 2 then []
    else if repl[0] == '\\' && IsDigit(repl[1]) then
      var n := 1 + DigitRun(repl[1..]);
      assert repl[1..n] == repl[1..][..n - 1];
      [DigitsValue(repl[1..n])] + BackRefs(repl[n..])
    else BackRefs(repl[1..])
  }

  /** A replacement without a backslash has no back-reference. */
  lemma {:induction false} NoBackslashNoBackRefs(repl: string)
    requires forall k :: 0 <= k < |repl| ==> repl[k] != '\\'
    ensures BackRefs(repl) == []
  {
    if |repl| >= 2 {
      NoBackslashNoBackRefs(repl[1..]);
    }
  }

  /** The scan of `findall` restarts cleanly at a character that is not a
      digit: the references of `u + w` are those of `u` followed by those of
      `w`. */
  lemma {:induction false} BackRefsAppend(u: string, w: string)
    requires |w| == 0 || !IsDigit(w[0])
    ensures BackRefs(u + w) == BackRefs(u) + BackRefs(w)
    decreases |u|
  {
    if |u| == 0 {
      assert u + w == w;
    } else if |u| == 1 {
      BackRefsAppendOne(u, w);
    } else if u[0] == '\\' && IsDigit(u[1]) {
      var n := BackRefsAppendRef(u, w);
      BackRefsAppend(u[n..], w);
      PrependAppend(BackRefs(u + w), [DigitsValue(u[1..n])], BackRefs(u[n..]), BackRefs(u[n..] + w), BackRefs(u), BackRefs(w));
    } else {
      BackRefsAppend(u[1..], w);
      BackRefsAppendSkipCase(u, w);
    }
  }

  /** The list algebra behind the reference step of `BackRefsAppend`. */
  lemma PrependAppend<T>(whole: seq<T>, head: seq<T>, tail: seq<T>, tailWhole: seq<T>, left: seq<T>, right: seq<T>)
    requires whole == head + tailWhole && tailWhole == tail + right && left == head + tail
    ensures whole == left + right
  {
  }

  /** The step of `BackRefsAppend` at a character that starts no reference. */
  lemma BackRefsAppendSkipCase(u: string, w: string)
    requires |u| >= 2 && !(u[0] == '\\' && IsDigit(u[1]))
    requires BackRefs(u[1..] + w) == BackRefs(u[1..]) + BackRefs(w)
    ensures BackRefs(u + w) == BackRefs(u) + BackRefs(w)
  {
    BackRefsAppendSkip(u, w);
  }

  lemma BackRefsAppendOne(u: string, w: string)
    requires |u| == 1 && (|w| == 0 || !IsDigit(w[0]))
    ensures BackRefs(u + w) == BackRefs(w)
  {
    var s := u + w;
    if |s| >= 2 {
      assert s[1..] == w;
      assert !(s[0] == '\\' && IsDigit(s[1]));
    }
  }

  /** A reference at the start of `u` is read the same in `u + w`. */
  lemma BackRefsAppendRef(u: string, w: string) returns (n: nat)
    requires |u| >= 2 && u[0] == '\\' && IsDigit(u[1]) && (|w| == 0 || !IsDigit(w[0]))
    ensures n == 1 + DigitRun(u[1..])
    ensures 2 <= n <= |u| && AllDigits(u[1..n])
    ensures BackRefs(u) == [DigitsValue(u[1..n])] + BackRefs(u[n..])
    ensures BackRefs(u + w) == [DigitsValue(u[1..n])] + BackRefs(u[n..] + w)
  {
    var s := u + w;
    n := 1 + DigitRun(u[1..]);
    assert u[1..n] == u[1..][..n - 1];
    DigitRunPrefix(u[1..], s[1..], n - 1);
    assert s[1..n] == u[1..n];
    assert s[n..] == u[n..] + w;
  }

  /** A character that starts no reference is skipped in `u + w` too. */
  lemma BackRefsAppendSkip(u: string, w: string)
    requires |u| >= 2 && !(u[0] == '\\' && IsDigit(u[1]))
    ensures BackRefs(u) == BackRefs(u[1..])
    ensures BackRefs(u + w) == BackRefs(u[1..] + w)
  {
    var s := u + w;
    assert s[0] == u[0] && s[1] == u[1];
    assert s[1..] == u[1..] + w;
  }

  /** The digit run of `s` stops where the digit run of `t` stops when `s`
      agrees with `t` up to there, and has a non-digit there or ends there. */
  lemma DigitRunPrefix(t: string, s: string, n: nat)
    requires n == DigitRun(t) && n <= |s|
    requires s[..n] == t[..n]
    requires n < |s| ==> !IsDigit(s[n])
    ensures DigitRun(s) == n
  {
  }

  /** A backslash followed by the decimal form of `n`, when no digit
      follows, is one reference, to group `n`. */
  lemma BackRefsRef(n: nat, v: string)
    requires |v| == 0 || !IsDigit(v[0])
    ensures BackRefs("\\" + Decimal(n) + v) == [n] + BackRefs(v)
  {
    var d := Decimal(n);
    var s := "\\" + d + v;
    assert s[1..] == d + v;
    DigitRunPrefix(d, d + v, |d|);
    assert s[1..1 + |d|] == d;
    assert s[1 + |d|..] == v;
    DecimalRoundTrip(n);
  }

  /** A backslash followed by a non-digit, or by nothing, is no reference. */
  lemma BackRefsLoneBackslash(v: string)
    requires |v| == 0 || !IsDigit(v[0])
    ensures BackRefs("\\" + v) == BackRefs(v)
  {
    BackRefsAppend("\\", v);
  }

  /** The references of a template, in order of appearance: whatever comes
      before, a reference `\n` that no digit follows contributes `n` in its
      place. */
  lemma BackRefsInOrder(u: string, n: nat, v: string)
    requires |v| == 0 || !IsDigit(v[0])
    ensures BackRefs(u + "\\" + Decimal(n) + v) == BackRefs(u) + [n] + BackRefs(v)
  {
    var w := "\\" + Decimal(n) + v;
    calc {
      BackRefs(u + "\\" + Decimal(n) + v);
      { assert u + "\\" + Decimal(n) + v == u + w; }
      BackRefs(u + w);
      { BackRefsAppend(u, w); }
      BackRefs(u) + BackRefs(w);
      { BackRefsRef(n, v); }
      BackRefs(u) + ([n] + BackRefs(v));
    }
  }

  // ---------------------------------------------------------------------------
  // make_str_from_groups
  // ---------------------------------------------------------------------------

  /** `str.replace`: every non-overlapping occurrence of `target`, scanning
      left to right, becomes `with`. */
  function ReplaceAll(s: string, target: string, with: string): string
    requires |target| > 0
    decreases |s|
  {
    if |s| < |target| then s
    else if s[..|target|] == target then with + ReplaceAll(s[|target|..], target, with)
    else [s[0]] + ReplaceAll(s[1..], target, with)
  }

  /** A string without the first character of `target` is left alone. */
  lemma {:induction false} ReplaceAllAbsent(s: string, target: string, with: string)
    requires |target| > 0
    requires forall k :: 0 <= k < |s| ==> s[k] != target[0]
    ensures ReplaceAll(s, target, with) == s
  {
    if |s| >= |target| {
      assert s[..|target|][0] == s[0];
      ReplaceAllAbsent(s[1..], target, with);
    }
  }

  /** The loop of `make_str_from_groups` from the `i`-th group on: the text
      `\<i+1>` is replaced by the `i`-th group of the list, whatever group
      number that list entry came from. */
  function ExpandFrom(repl: string, groups: seq<Option<string>>, i: nat): (r: Result<string, SubError>)
    requires i <= |groups|
    ensures r.Failure? <==> exists j :: i <= j < |groups| && groups[j].None?
    ensures r.Failure? ==> r.error == UnmatchedGroup
    decreases |groups| - i
  {
    if i == |groups| then Success(repl)
    else match groups[i]
      case None => Failure(UnmatchedGroup)
      case Some(g) => ExpandFrom(ReplaceAll(repl, "\\" + Decimal(i + 1), g), groups, i + 1)
  }

  /** make_str_from_groups: it fails with TypeError exactly when a listed
      group did not take part in the match. */
  function MakeStrFromGroups(repl: string, groups: seq<Option<string>>): (r: Result<string, SubError>)
    ensures r.Failure? <==> exists j :: 0 <= j < |groups| && groups[j].None?
    ensures r.Failure? ==> r.error == UnmatchedGroup
  {
    ExpandFrom(repl, groups, 0)
  }

  /** `match.group(i)`; group 0 is the whole match, read from the searched
      text. */
  function Group(text: string, m: Match, i: nat): (r: Result<Option<string>, SubError>)
    requires 0 <= m.start <= m.end <= |text|
    ensures r.Failure? <==> i > |m.groups|
    ensures r == Failure(NoSuchGroup) || r.Success?
  {
    if i == 0 then Success(Some(text[m.start..m.end]))
    else if i <= |m.groups| then Success(m.groups[i - 1])
    else Failure(NoSuchGroup)
  }

  /** The groups of the match, one per needed group number, in order
      (line 99). */
  function Groups(text: string, m: Match, needed: seq<nat>): (r: Result<seq<Option<string>>, SubError>)
    requires 0 <= m.start <= m.end <= |text|
    ensures r.Failure? <==> exists j :: 0 <= j < |needed| && needed[j] > |m.groups|
    ensures r.Failure? ==> r.error == NoSuchGroup
    ensures r.Success? ==> |r.value| == |needed|
    ensures r.Success? ==> forall j :: 0 <= j < |needed| ==> Group(text, m, needed[j]) == Success(r.value[j])
  {
    if |needed| == 0 then Success([])
    else
      var g :- Group(text, m, needed[0]);
      var rest :- Groups(text, m, needed[1..]);
      Success([g] + rest)
  }

  /** The replacement text for one match (line 99). */
  function Expand(text: string, m: Match, repl: string): Result<string, SubError>
    requires 0 <= m.start <= m.end <= |text|
  {
    var groups :- Groups(text, m, BackRefs(repl));
    MakeStrFromGroups(repl, groups)
  }

  /** A replacement with no back-reference is inserted verbatim, whatever the
      match. */
  lemma ExpandVerbatim(text: string, m: Match, repl: string)
    requires 0 <= m.start <= m.end <= |text|
    requires BackRefs(repl) == []
    ensures Expand(text, m, repl) == Success(repl)
  {
  }

  /** A back-reference to a group the pattern does not have fails the whole
      substitution with IndexError. */
  lemma ExpandMissingGroup(text: string, m: Match, repl: string, j: nat)
    requires 0 <= m.start <= m.end <= |text|
    requires j < |BackRefs(repl)| && BackRefs(repl)[j] > |m.groups|
    ensures Expand(text, m, repl) == Failure(NoSuchGroup)
  {
  }

  /** `\k` stands for the k-th back-reference in order of appearance, not for
      group k: with groups "a" and "b", the replacement `\2\1` gives "ab"
      (first `\1` becomes group 2, then `\2` becomes group 1). */
  lemma SwappedReferencesExample()
    ensures MakeStrFromGroups("\\2\\1", [Some("b"), Some("a")]) == Success("ab")
    ensures BackRefs("\\2\\1") == [2, 1]
  {
    assert Decimal(1) == "1";
    assert Decimal(2) == "2";
    SwappedReplaceSteps();
    SwappedBackRefs();
  }

  lemma SwappedReplaceSteps()
    ensures ReplaceAll("\\2\\1", "\\1", "b") == "\\2b"
    ensures ReplaceAll("\\2b", "\\2", "a") == "ab"
  {
    var s0 := "\\2\\1";
    assert ReplaceAll(s0[2..], "\\1", "b") == "b";
    assert ReplaceAll(s0[1..], "\\1", "b") == "2b";
    var s1 := "\\2b";
    assert ReplaceAll(s1[2..], "\\2", "a") == "b";
  }

  lemma SwappedBackRefs()
    ensures BackRefs("\\2\\1") == [2, 1]
  {
    assert "\\2\\1"[1..2] == "2";
    assert DigitRun("\\2\\1"[1..]) == 1;
    assert "\\2\\1"[2..] == "\\1";
    assert DigitRun("\\1"[1..]) == 1;
    assert "\\1"[1..2] == "1";
  }

  /** The value of a decimal digit character. */
  function DigitValue(c: char): int
  {
    c as int - '0' as int
  }

  predicate NoBackslash(s: string)
  {
    forall k :: 0 <= k < |s| ==> s[k] != '\\'
  }

  /** No backslash directly follows another. */
  predicate NoDoubleBackslash(s: string)
  {
    forall k :: 0 <= k < |s| - 1 ==> s[k] == '\\' ==> s[k + 1] != '\\'
  }

  /** Every group took part in the match. */
  function Present(gs: seq<string>): (r: seq<Option<string>>)
    ensures |r| == |gs|
    ensures forall j :: 0 <= j < |gs| ==> r[j] == Some(gs[j])
  {
    seq(|gs|, j requires 0 <= j < |gs| => Some(gs[j]))
  }

  /** A reference reading of a template, independent of `str.replace`: one
      scan from left to right, in which a backslash followed by a digit d,
      1 <= d <= i, becomes the d-th entry of `gs` and every other character
      is kept. */
  function SubstituteRefs(s: string, gs: seq<string>, i: nat): string
    requires i <= |gs|
    decreases |s|
  {
    if |s| < 2 then s
    else if s[0] == '\\' && '1' <= s[1] <= '9' && DigitValue(s[1]) <= i then
      gs[DigitValue(s[1]) - 1] + SubstituteRefs(s[2..], gs, i)
    else [s[0]] + SubstituteRefs(s[1..], gs, i)
  }

  /** With at most nine groups, none containing a backslash, and a template
      without a doubled backslash, make_str_from_groups is the one-scan
      substitution: `\k` receives the k-th entry of the group list, that is
      the group of the k-th back-reference in order of appearance. */
  lemma MakeStrSubstitutes(repl: string, gs: seq<string>)
    requires |gs| <= 9
    requires NoDoubleBackslash(repl)
    requires forall j :: 0 <= j < |gs| ==> NoBackslash(gs[j])
    ensures MakeStrFromGroups(repl, Present(gs)) == Success(SubstituteRefs(repl, gs, |gs|))
  {
    SubstituteNone(repl, gs);
    ExpandFromSubstitutes(repl, gs, 0);
  }

  /** Substituting no group keeps the template. */
  lemma {:induction false} SubstituteNone(s: string, gs: seq<string>)
    ensures SubstituteRefs(s, gs, 0) == s
    decreases |s|
  {
    if |s| >= 2 {
      SubstituteNone(s[1..], gs);
    }
  }

  /** The loop of make_str_from_groups, from pass `i` on, completes the
      substitution. */
  lemma {:induction false} ExpandFromSubstitutes(repl: string, gs: seq<string>, i: nat)
    requires i <= |gs| <= 9
    requires NoDoubleBackslash(repl)
    requires forall j :: 0 <= j < |gs| ==> NoBackslash(gs[j])
    ensures ExpandFrom(SubstituteRefs(repl, gs, i), Present(gs), i) == Success(SubstituteRefs(repl, gs, |gs|))
    decreases |gs| - i
  {
    if i < |gs| {
      SubstituteStep(repl, gs, i);
      ExpandFromSubstitutes(repl, gs, i + 1);
    }
  }

  /** The reference text of group number i + 1 <= 9 is a backslash and one
      digit. */
  lemma RefTextOneDigit(i: nat)
    requires i < 9
    ensures "\\" + Decimal(i + 1) == ['\\', ('0' as int + i + 1) as char]
  {
  }

  /** `str.replace` passes over a prefix without the target's first
      character. */
  lemma {:induction false} ReplaceAllKeep(g: string, x: string, target: string, with: string)
    requires |target| > 0 && forall k :: 0 <= k < |g| ==> g[k] != target[0]
    ensures ReplaceAll(g + x, target, with) == g + ReplaceAll(x, target, with)
    decreases |g|
  {
    if |g| == 0 {
      assert g + x == x;
    } else {
      var gx := g + x;
      assert gx[0] == g[0] && gx[1..] == g[1..] + x;
      ReplaceAllKeep(g[1..], x, target, with);
      if |gx| >= |target| {
        assert gx[..|target|][0] != target[0];
        assert g == [g[0]] + g[1..];
      }
    }
  }

  /** The first character of a template not starting with a backslash is
      kept. */
  lemma SubstituteHead(u: string, gs: seq<string>, i: nat)
    requires i <= |gs| && |u| > 0 && u[0] != '\\'
    ensures var r := SubstituteRefs(u, gs, i); |r| > 0 && r[0] == u[0]
  {
  }

  /** A doubled-backslash-free template stays so after its first characters. */
  lemma NoDoubleBackslashTail(s: string, n: nat)
    requires NoDoubleBackslash(s) && n <= |s|
    ensures NoDoubleBackslash(s[n..])
  {
    var t := s[n..];
    forall k | 0 <= k < |t| - 1 && t[k] == '\\'
      ensures t[k + 1] != '\\'
    {
      assert t[k] == s[n + k] && t[k + 1] == s[n + k + 1];
    }
  }

  /** One pass of make_str_from_groups: replacing `\<i+1>` in the template
      with the first i references substituted substitutes the first i + 1. */
  lemma {:induction false} SubstituteStep(s: string, gs: seq<string>, i: nat)
    requires i < |gs| <= 9
    requires NoDoubleBackslash(s)
    requires forall j :: 0 <= j < |gs| ==> NoBackslash(gs[j])
    ensures ReplaceAll(SubstituteRefs(s, gs, i), "\\" + Decimal(i + 1), gs[i]) == SubstituteRefs(s, gs, i + 1)
    decreases |s|
  {
    var c := ('0' as int + i + 1) as char;
    var t := "\\" + Decimal(i + 1);
    RefTextOneDigit(i);
    assert t == ['\\', c];
    var w := gs[i];
    var p := SubstituteRefs(s, gs, i);
    if |s| < 2 {
    } else if s[0] == '\\' && '1' <= s[1] <= '9' && DigitValue(s[1]) <= i {
      var g := gs[DigitValue(s[1]) - 1];
      var x := SubstituteRefs(s[2..], gs, i);
      assert p == g + x;
      ReplaceAllKeep(g, x, t, w);
      NoDoubleBackslashTail(s, 2);
      SubstituteStep(s[2..], gs, i);
    } else if s[0] == '\\' && s[1] == c {
      var x := SubstituteRefs(s[2..], gs, i);
      assert DigitValue(c) == i + 1;
      assert p == [s[0]] + SubstituteRefs(s[1..], gs, i);
      if |s| == 2 {
        assert SubstituteRefs(s[1..], gs, i) == [c] && x == [];
      } else {
        assert s[1..][1..] == s[2..];
        assert SubstituteRefs(s[1..], gs, i) == [c] + x;
      }
      assert p == t + x;
      assert (t + x)[..|t|] == t && (t + x)[|t|..] == x;
      NoDoubleBackslashTail(s, 2);
      SubstituteStep(s[2..], gs, i);
    } else {
      var x := SubstituteRefs(s[1..], gs, i);
      assert p == [s[0]] + x;
      NoDoubleBackslashTail(s, 1);
      SubstituteStep(s[1..], gs, i);
      if s[0] == '\\' {
        assert s[1] != '\\';
        SubstituteHead(s[1..], gs, i);
      }
      SubstituteStepKept(s, x, t, w);
    }
  }

  /** The case of a kept first character: the pass leaves it, as it starts
      no reference to group i + 1. */
  lemma SubstituteStepKept(s: string, x: string, t: string, w: string)
    requires |s| >= 2 && |t| == 2 && t[0] == '\\'
    requires NoDoubleBackslash(s)
    requires s[0] == '\\' ==> s[1] != t[1]
    requires s[0] == '\\' ==> |x| > 0 && x[0] == s[1]
    ensures ReplaceAll([s[0]] + x, t, w) == [s[0]] + ReplaceAll(x, t, w)
  {
    if s[0] != '\\' {
      ReplaceAllKeep([s[0]], x, t, w);
    } else {
      var sx := [s[0]] + x;
      assert sx[..2] != t by {
        assert sx[1] == x[0];
      }
      assert sx[1..] == x;
    }
  }

  // ---------------------------------------------------------------------------
  // regex_sub_with_spans
  // ---------------------------------------------------------------------------

  /** The replacement of each match of the searched `text` (line 99). The
      matches of a search lie in the text, so the guard only makes the
      function total. */
  function ExpandIn(text: string, repl: string): Match -> Result<string, SubError>
  {
    (m: Match) => if 0 <= m.start <= m.end <= |text| then Expand(text, m, repl) else Failure(NoSuchGroup)
  }

  /** The loop of regex_sub_with_spans: the matches are rewritten from the
      last to the first, each splice recorded as one interval of the
      original text. `text` is the text rewritten so far; `expand` builds the
      replacement of a match from the searched text. */
  function SubLoop(text: string, ms: seq<Match>, expand: Match -> Result<string, SubError>): Result<Rewrite, SubError>
    requires ValidMatches(ms, |text|)
    decreases |ms|
  {
    if |ms| == 0 then Success(Rewrite(text, []))
    else
      var n := |ms| - 1;
      var m := ms[n];
      var middle :- expand(m);
      var spliced := text[..m.start] + middle + text[m.end..];
      SplicedValid(text, ms, middle);
      Prepend(Delta(m.start, m.end, |middle| - m.end + m.start), SubLoop(spliced, ms[..n], expand))
  }

  /** Records one more interval in front of a rewrite, passing a failure on. */
  function Prepend(d: Delta, rest: Result<Rewrite, SubError>): Result<Rewrite, SubError>
  {
    var w :- rest;
    Success(Rewrite(w.text, [d] + w.deltas))
  }

  /** regex_sub_with_spans, with the matches of the pattern given. */
  function RegexSub(text: string, ms: seq<Match>, repl: string): (r: Result<Rewrite, SubError>)
    requires ValidMatches(ms, |text|)
    ensures r.Success? <==> forall k :: 0 <= k < |ms| ==> Expand(text, ms[k], repl).Success?
    ensures r.Success? ==> |r.value.deltas| == |ms| && TotalDelta(r.value.deltas) == |r.value.text| - |text|
  {
    var expand := ExpandIn(text, repl);
    SubLoopClosedForm(text, ms, expand);
    ExpandInAgrees(text, ms, repl);
    var rm := Middles(ms, expand);
    if rm.Success? then
      SpliceShape(text, ms, rm.value);
      SubLoop(text, ms, expand)
    else
      SubLoop(text, ms, expand)
  }

  /** Inside the searched text, the replacement builder is Expand itself. */
  lemma ExpandInAgrees(text: string, ms: seq<Match>, repl: string)
    requires ValidMatches(ms, |text|)
    ensures forall k :: 0 <= k < |ms| ==> ExpandIn(text, repl)(ms[k]) == Expand(text, ms[k], repl)
  {
  }

  /** Every replacement text, computed from the last match to the first; the
      first failure met in that order is the error. */
  function Middles(ms: seq<Match>, expand: Match -> Result<string, SubError>): (r: Result<seq<string>, SubError>)
    ensures r.Success? <==> forall k :: 0 <= k < |ms| ==> expand(ms[k]).Success?
    ensures r.Success? ==> |r.value| == |ms|
    ensures r.Success? ==> forall k :: 0 <= k < |ms| ==> expand(ms[k]) == Success(r.value[k])
    decreases |ms|
  {
    if |ms| == 0 then Success([])
    else
      var n := |ms| - 1;
      var mid :- expand(ms[n]);
      var rest :- Middles(ms[..n], expand);
      Success(rest + [mid])
  }

  /** The rewritten text as a left-to-right splice of the replacements. */
  function NewText(text: string, ms: seq<Match>, mids: seq<string>): string
    requires |mids| == |ms| && ValidMatches(ms, |text|)
    decreases |ms|
  {
    if |ms| == 0 then text
    else
      var n := |ms| - 1;
      NewText(text[..ms[n].start], ms[..n], mids[..n]) + mids[n] + text[ms[n].end..]
  }

  /** One interval per match, in match order. */
  function Recorded(ms: seq<Match>, mids: seq<string>): seq<Delta>
    requires |mids| == |ms|
  {
    seq(|ms|, k requires 0 <= k < |ms| =>
      Delta(ms[k].start, ms[k].end, |mids[k]| - (ms[k].end - ms[k].start)))
  }

  lemma {:induction false} NewTextAppend(p: string, q: string, ms: seq<Match>, mids: seq<string>)
    requires |mids| == |ms| && ValidMatches(ms, |p|)
    ensures ValidMatches(ms, |p + q|)
    ensures NewText(p + q, ms, mids) == NewText(p, ms, mids) + q
  {
    if |ms| > 0 {
      var n := |ms| - 1;
      var front := NewText(p[..ms[n].start], ms[..n], mids[..n]);
      assert (p + q)[..ms[n].start] == p[..ms[n].start];
      assert (p + q)[ms[n].end..] == p[ms[n].end..] + q;
      assert NewText(p + q, ms, mids) == front + mids[n] + (p[ms[n].end..] + q);
      assert NewText(p, ms, mids) == front + mids[n] + p[ms[n].end..];
    }
  }

  /** Splicing the last replacement into the text and then the others gives
      the left-to-right splice of all of them. */
  lemma NewTextStep(text: string, ms: seq<Match>, front: seq<string>, middle: string)
    requires ValidMatches(ms, |text|) && |ms| > 0 && |front| == |ms| - 1
    ensures var n := |ms| - 1;
      var spliced := text[..ms[n].start] + middle + text[ms[n].end..];
      ValidMatches(ms[..n], |spliced|) &&
      NewText(spliced, ms[..n], front) == NewText(text, ms, front + [middle])
  {
    var n := |ms| - 1;
    var m := ms[n];
    var mids := front + [middle];
    assert mids[..n] == front;
    assert mids[n] == middle;
    NewTextAppend(text[..m.start], middle + text[m.end..], ms[..n], front);
    assert text[..m.start] + (middle + text[m.end..]) == text[..m.start] + middle + text[m.end..];
  }

  /** The interval of the last match comes first in the recorded list. */
  lemma RecordedStep(ms: seq<Match>, front: seq<string>, middle: string)
    requires |ms| > 0 && |front| == |ms| - 1
    ensures var n := |ms| - 1;
      Reverse(Recorded(ms, front + [middle])) ==
      [Delta(ms[n].start, ms[n].end, |middle| - ms[n].end + ms[n].start)] + Reverse(Recorded(ms[..n], front))
  {
    var n := |ms| - 1;
    var rec := Recorded(ms, front + [middle]);
    assert rec[..n] == Recorded(ms[..n], front);
    assert Reverse(rec) == [rec[n]] + Reverse(rec[..n]);
  }

  /** The loop of regex_sub_with_spans once every replacement is known:
      the splices, from the last match to the first. */
  function SpliceLoop(text: string, ms: seq<Match>, mids: seq<string>): Rewrite
    requires |mids| == |ms| && ValidMatches(ms, |text|)
    decreases |ms|
  {
    if |ms| == 0 then Rewrite(text, [])
    else
      var n := |ms| - 1;
      var m := ms[n];
      var spliced := text[..m.start] + mids[n] + text[m.end..];
      SplicedValid(text, ms, mids[n]);
      var rest := SpliceLoop(spliced, ms[..n], mids[..n]);
      Rewrite(rest.text, [Delta(m.start, m.end, |mids[n]| - m.end + m.start)] + rest.deltas)
  }

  /** Building each replacement as the loop meets it fails exactly when
      building them all first fails, and otherwise splices the same texts. */
  lemma {:induction false} SubLoopSplices(text: string, ms: seq<Match>, expand: Match -> Result<string, SubError>)
    requires ValidMatches(ms, |text|)
    ensures SubLoop(text, ms, expand).Success? <==> Middles(ms, expand).Success?
    ensures SubLoop(text, ms, expand).Success? ==>
      SubLoop(text, ms, expand).value == SpliceLoop(text, ms, Middles(ms, expand).value)
    decreases |ms|
  {
    if |ms| > 0 {
      var n := |ms| - 1;
      var m := ms[n];
      var e := expand(m);
      MiddlesStep(ms, expand);
      if e.Success? {
        var spliced := text[..m.start] + e.value + text[m.end..];
        SplicedValid(text, ms, e.value);
        SubLoopSplices(spliced, ms[..n], expand);
        assert SubLoop(text, ms, expand) ==
          Prepend(Delta(m.start, m.end, |e.value| - m.end + m.start), SubLoop(spliced, ms[..n], expand));
        var rm := Middles(ms[..n], expand);
        if rm.Success? {
          SpliceLoopStep(text, ms, rm.value, e.value);
        }
      } else {
        assert SubLoop(text, ms, expand).Failure?;
      }
    }
  }

  /** The spliced text is the left-to-right splice of the replacements. */
  lemma {:induction false} SpliceLoopText(text: string, ms: seq<Match>, mids: seq<string>)
    requires |mids| == |ms| && ValidMatches(ms, |text|)
    ensures SpliceLoop(text, ms, mids).text == NewText(text, ms, mids)
    decreases |ms|
  {
    if |ms| > 0 {
      var n := |ms| - 1;
      var m := ms[n];
      var spliced := text[..m.start] + mids[n] + text[m.end..];
      SplicedValid(text, ms, mids[n]);
      SpliceLoopText(spliced, ms[..n], mids[..n]);
      assert mids == mids[..n] + [mids[n]];
      NewTextStep(text, ms, mids[..n], mids[n]);
    }
  }

  /** The recorded intervals are those of the matches, last match first. */
  lemma {:induction false} SpliceLoopDeltas(text: string, ms: seq<Match>, mids: seq<string>)
    requires |mids| == |ms| && ValidMatches(ms, |text|)
    ensures SpliceLoop(text, ms, mids).deltas == Reverse(Recorded(ms, mids))
    decreases |ms|
  {
    if |ms| > 0 {
      var n := |ms| - 1;
      var m := ms[n];
      var spliced := text[..m.start] + mids[n] + text[m.end..];
      SplicedValid(text, ms, mids[n]);
      SpliceLoopDeltas(spliced, ms[..n], mids[..n]);
      assert mids == mids[..n] + [mids[n]];
      RecordedStep(ms, mids[..n], mids[n]);
    }
  }

  /** The loop computes the left-to-right splice and records the intervals
      from the last match to the first; it fails exactly when some
      replacement cannot be built. */
  lemma SubLoopClosedForm(text: string, ms: seq<Match>, expand: Match -> Result<string, SubError>)
    requires ValidMatches(ms, |text|)
    ensures SubLoop(text, ms, expand).Success? <==> Middles(ms, expand).Success?
    ensures SubLoop(text, ms, expand).Success? ==>
      var mids := Middles(ms, expand).value;
      SubLoop(text, ms, expand).value == Rewrite(NewText(text, ms, mids), Reverse(Recorded(ms, mids)))
  {
    SubLoopSplices(text, ms, expand);
    var rm := Middles(ms, expand);
    if rm.Success? {
      SpliceLoopText(text, ms, rm.value);
      SpliceLoopDeltas(text, ms, rm.value);
    }
  }

  /** Splicing a replacement at the last match leaves the earlier matches
      where they were. */
  lemma SplicedValid(text: string, ms: seq<Match>, middle: string)
    requires ValidMatches(ms, |text|) && |ms| > 0
    ensures var n := |ms| - 1;
      ValidMatches(ms[..n], |text[..ms[n].start] + middle + text[ms[n].end..]|)
  {
    var n := |ms| - 1;
    forall k | 0 <= k < n
      ensures ms[k].end <= ms[n].start
    {
    }
  }

  /** One step of the splicing: the last match is spliced first. */
  lemma SpliceLoopStep(text: string, ms: seq<Match>, front: seq<string>, last: string)
    requires |front| + 1 == |ms| && ValidMatches(ms, |text|)
    ensures var n := |ms| - 1;
      var m := ms[n];
      var spliced := text[..m.start] + last + text[m.end..];
      ValidMatches(ms[..n], |spliced|) &&
      Success(SpliceLoop(text, ms, front + [last])) ==
        Prepend(Delta(m.start, m.end, |last| - m.end + m.start), Success(SpliceLoop(spliced, ms[..n], front)))
  {
    var n := |ms| - 1;
    var mids := front + [last];
    assert mids[..n] == front && mids[n] == last;
    SplicedValid(text, ms, last);
  }

  /** One step of Middles: the last replacement is built first. */
  lemma MiddlesStep(ms: seq<Match>, expand: Match -> Result<string, SubError>)
    requires |ms| > 0
    ensures var n := |ms| - 1;
      var e := expand(ms[n]);
      var rm := Middles(ms[..n], expand);
      && (Middles(ms, expand).Success? <==> e.Success? && rm.Success?)
      && (Middles(ms, expand).Success? ==> Middles(ms, expand).value == rm.value + [e.value])
  {
  }

  lemma {:induction false} NewTextLength(text: string, ms: seq<Match>, mids: seq<string>)
    requires |mids| == |ms| && ValidMatches(ms, |text|)
    ensures |NewText(text, ms, mids)| == |text| + TotalDelta(Recorded(ms, mids))
    decreases |ms|
  {
    if |ms| > 0 {
      var n := |ms| - 1;
      var rec := Recorded(ms, mids);
      NewTextLength(text[..ms[n].start], ms[..n], mids[..n]);
      assert rec == Recorded(ms[..n], mids[..n]) + [rec[n]];
      TotalDeltaAppend(Recorded(ms[..n], mids[..n]), [rec[n]]);
    }
  }

  /** Everything up to and including the `k`-th replacement is a prefix of
      the rewritten text. */
  lemma {:induction false} NewTextPrefix(text: string, ms: seq<Match>, mids: seq<string>, k: nat)
    requires |mids| == |ms| && ValidMatches(ms, |text|) && k < |ms|
    ensures ValidMatches(ms[..k], ms[k].start)
    ensures NewText(text[..ms[k].start], ms[..k], mids[..k]) + mids[k] <= NewText(text, ms, mids)
    decreases |ms|
  {
    var n := |ms| - 1;
    var t := text[..ms[n].start];
    ValidBefore(ms, |text|, k);
    ValidBefore(ms, |text|, n);
    var front := NewText(t, ms[..n], mids[..n]);
    var whole := NewText(text, ms, mids);
    assert whole == front + mids[n] + text[ms[n].end..];
    if k < n {
      var ms' := ms[..n];
      assert ms'[k] == ms[k];
      NewTextPrefix(t, ms', mids[..n], k);
      assert t[..ms[k].start] == text[..ms[k].start];
      assert ms'[..k] == ms[..k];
      assert mids[..n][..k] == mids[..k];
      var p := NewText(text[..ms[k].start], ms[..k], mids[..k]) + mids[k];
      assert p <= front;
      assert front <= whole;
    }
  }

  /** The matches before the `k`-th all lie in the text before it. */
  lemma ValidBefore(ms: seq<Match>, n: int, k: nat)
    requires ValidMatches(ms, n) && k < |ms|
    ensures ValidMatches(ms[..k], ms[k].start)
  {
    forall j | 0 <= j < k
      ensures 0 <= ms[j].start <= ms[j].end <= ms[k].start
    {
    }
  }

  /** The intervals regex_sub_with_spans records: one per match, right to
      left, each the match's original range with the change of length of its
      replacement; together they account for the change of length of the
      text. */
  lemma RegexSubShape(text: string, ms: seq<Match>, repl: string)
    requires ValidMatches(ms, |text|)
    ensures RegexSub(text, ms, repl).Success? <==>
      forall k :: 0 <= k < |ms| ==> Expand(text, ms[k], repl).Success?
    ensures RegexSub(text, ms, repl).Success? ==>
      var r := RegexSub(text, ms, repl).value;
      && |r.deltas| == |ms|
      && Proper(r.deltas) && Descending(r.deltas)
      && (forall k :: 0 <= k < |ms| ==>
            var m := ms[|ms| - 1 - k];
            r.deltas[k] == Delta(m.start, m.end, |Expand(text, m, repl).value| - (m.end - m.start)))
      && TotalDelta(r.deltas) == |r.text| - |text|
  {
    var expand := ExpandIn(text, repl);
    SubLoopClosedForm(text, ms, expand);
    var rm := Middles(ms, expand);
    if rm.Success? {
      var mids := rm.value;
      SpliceShape(text, ms, mids);
      var r := RegexSub(text, ms, repl).value;
      forall k | 0 <= k < |ms|
        ensures var m := ms[|ms| - 1 - k];
          r.deltas[k] == Delta(m.start, m.end, |Expand(text, m, repl).value| - (m.end - m.start))
      {
        assert expand(ms[|ms| - 1 - k]) == Success(mids[|ms| - 1 - k]);
      }
    } else {
      forall k | 0 <= k < |ms|
        ensures expand(ms[k]) == Expand(text, ms[k], repl)
      {
      }
    }
  }

  /** RegexSubShape for given replacement texts. */
  lemma SpliceShape(text: string, ms: seq<Match>, mids: seq<string>)
    requires |mids| == |ms| && ValidMatches(ms, |text|)
    ensures var ds := Reverse(Recorded(ms, mids));
      && |ds| == |ms|
      && Proper(ds) && Descending(ds)
      && (forall k :: 0 <= k < |ms| ==>
            var m := ms[|ms| - 1 - k];
            ds[k] == Delta(m.start, m.end, |mids[|ms| - 1 - k]| - (m.end - m.start)))
      && TotalDelta(ds) == |NewText(text, ms, mids)| - |text|
  {
    SpliceOrder(ms, mids, |text|);
    SpliceTotal(text, ms, mids);
  }

  /** The recorded intervals, reversed, are proper and descending. */
  lemma SpliceOrder(ms: seq<Match>, mids: seq<string>, n: int)
    requires |mids| == |ms| && ValidMatches(ms, n)
    ensures var ds := Reverse(Recorded(ms, mids));
      && |ds| == |ms|
      && Proper(ds) && Descending(ds)
      && (forall k :: 0 <= k < |ms| ==>
            var m := ms[|ms| - 1 - k];
            ds[k] == Delta(m.start, m.end, |mids[|ms| - 1 - k]| - (m.end - m.start)))
  {
    var rec := Recorded(ms, mids);
    var ds := Reverse(rec);
    forall k | 0 <= k < |ds|
      ensures ds[k] == rec[|ms| - 1 - k] && ds[k].begin <= ds[k].end
    {
    }
    forall i, j | 0 <= i < j < |ds|
      ensures ds[j].end <= ds[i].begin
    {
      assert ds[i] == rec[|ms| - 1 - i] && ds[j] == rec[|ms| - 1 - j];
      assert ms[|ms| - 1 - j].end <= ms[|ms| - 1 - i].start;
    }
  }

  /** The recorded deltas, in either order, add up to the change in length. */
  lemma SpliceTotal(text: string, ms: seq<Match>, mids: seq<string>)
    requires |mids| == |ms| && ValidMatches(ms, |text|)
    ensures TotalDelta(Reverse(Recorded(ms, mids))) == |NewText(text, ms, mids)| - |text|
  {
    NewTextLength(text, ms, mids);
    TotalDeltaReverse(Recorded(ms, mids));
  }

  /** The `k`-th replacement sits in the rewritten text after the shifted
      start of its match. */
  lemma NewTextAt(text: string, ms: seq<Match>, mids: seq<string>, k: nat)
    requires |mids| == |ms| && ValidMatches(ms, |text|) && k < |ms|
    ensures var o := ms[k].start + TotalDelta(Recorded(ms, mids)[..k]);
      var out := NewText(text, ms, mids);
      0 <= o <= o + |mids[k]| <= |out| && out[o..o + |mids[k]|] == mids[k]
  {
    var s := ms[k].start;
    NewTextPrefix(text, ms, mids, k);
    var before := NewText(text[..s], ms[..k], mids[..k]);
    NewTextLength(text[..s], ms[..k], mids[..k]);
    RecordedPrefix(ms, mids, k);
    var o := s + TotalDelta(Recorded(ms, mids)[..k]);
    assert o == |before|;
    var out := NewText(text, ms, mids);
    var p := before + mids[k];
    assert p <= out;
    assert out[o..o + |mids[k]|] == p[o..o + |mids[k]|];
    assert p[o..o + |mids[k]|] == mids[k];
  }

  lemma RecordedPrefix(ms: seq<Match>, mids: seq<string>, k: nat)
    requires |mids| == |ms| && k <= |ms|
    ensures Recorded(ms[..k], mids[..k]) == Recorded(ms, mids)[..k]
  {
  }

  /** Where a non-empty match's start (Left) and end (Right) go under the
      collection regex_sub_with_spans records. */
  lemma MatchEdgesShift(ms: seq<Match>, n: int, mids: seq<string>, k: nat)
    requires |mids| == |ms| && ValidMatches(ms, n)
    requires k < |ms| && ms[k].start < ms[k].end
    requires forall j :: k < j < |ms| ==> ms[k].end < ms[j].end
    ensures var rec := Recorded(ms, mids);
      && Apply(Reverse(rec), ms[k].start, Left) == ms[k].start + TotalDelta(rec[..k])
      && Apply(Reverse(rec), ms[k].end, Right) == ms[k].end + TotalDelta(rec[..k + 1])
  {
    var rec := Recorded(ms, mids);
    var ds := Reverse(rec);
    var s := ms[k].start;
    var e := ms[k].end;
    forall j | 0 <= j < |rec|
      ensures !Inside(rec[j], s) && !Inside(rec[j], e)
      ensures j < k ==> rec[j].end <= s
      ensures k <= j ==> s < rec[j].end
      ensures j <= k ==> rec[j].end <= e
      ensures k < j ==> e < rec[j].end
    {
      if j < k {
        assert ms[j].end <= ms[k].start;
      } else if k < j {
        assert ms[k].end <= ms[j].start;
      }
    }
    ShiftBeforePrefix(rec, s, k);
    ShiftBeforePrefix(rec, e, k + 1);
    ShiftBeforeReverse(rec, s);
    ShiftBeforeReverse(rec, e);
    forall j | 0 <= j < |ds|
      ensures !Inside(ds[j], s) && !Inside(ds[j], e)
    {
      assert ds[j] == rec[|rec| - 1 - j];
    }
    assert FirstContaining(ds, s).None?;
    assert FirstContaining(ds, e).None?;
  }

  /** In the rewritten text, the new span of a non-empty match (its start
      mapped Left, its end mapped Right) holds exactly its replacement,
      provided no empty match sits at its end (that insertion would be
      counted by the Right mapping too). */
  lemma RegexSubSpan(text: string, ms: seq<Match>, repl: string, k: nat)
    requires ValidMatches(ms, |text|)
    requires RegexSub(text, ms, repl).Success?
    requires k < |ms| && ms[k].start < ms[k].end
    requires forall j :: k < j < |ms| ==> ms[k].end < ms[j].end
    ensures var r := RegexSub(text, ms, repl).value;
      var b := Apply(r.deltas, ms[k].start, Left);
      var e := Apply(r.deltas, ms[k].end, Right);
      0 <= b <= e <= |r.text| && Expand(text, ms[k], repl) == Success(r.text[b..e])
  {
    SubLoopClosedForm(text, ms, ExpandIn(text, repl));
    var mids := Middles(ms, ExpandIn(text, repl)).value;
    SpliceSpan(text, ms, mids, k);
    assert ExpandIn(text, repl)(ms[k]) == Success(mids[k]);
  }

  /** RegexSubSpan for given replacement texts. */
  lemma SpliceSpan(text: string, ms: seq<Match>, mids: seq<string>, k: nat)
    requires |mids| == |ms| && ValidMatches(ms, |text|)
    requires k < |ms| && ms[k].start < ms[k].end
    requires forall j :: k < j < |ms| ==> ms[k].end < ms[j].end
    ensures var ds := Reverse(Recorded(ms, mids));
      var out := NewText(text, ms, mids);
      var b := Apply(ds, ms[k].start, Left);
      var e := Apply(ds, ms[k].end, Right);
      0 <= b <= e <= |out| && out[b..e] == mids[k]
  {
    var rec := Recorded(ms, mids);
    MatchEdgesShift(ms, |text|, mids, k);
    TotalDeltaSnoc(rec, k);
    NewTextAt(text, ms, mids, k);
  }

  /** For a substitution whose replacements are all non-empty, unapply
      undoes apply at every position no match strictly contains. */
  lemma RegexSubRoundTrip(text: string, ms: seq<Match>, repl: string, p: int, side: Side)
    requires ValidMatches(ms, |text|)
    requires RegexSub(text, ms, repl).Success?
    requires forall k :: 0 <= k < |ms| ==> Expand(text, ms[k], repl) != Success("")
    requires Outside(RegexSub(text, ms, repl).value.deltas, p)
    ensures var ds := RegexSub(text, ms, repl).value.deltas;
      Unapply(ds, Apply(ds, p, side), side) == p
  {
    RegexSubShape(text, ms, repl);
    var ds := RegexSub(text, ms, repl).value.deltas;
    assert NonEmptyReplacements(ds) by {
      forall k | 0 <= k < |ds|
        ensures ds[k].end - ds[k].begin + ds[k].delta > 0
      {
        var m := ms[|ms| - 1 - k];
        assert Expand(text, m, repl).Success?;
      }
    }
    DeltaLaws.RoundTripDescending(ds, p, side);
  }

  /** "foo bar foo" with every "foo" replaced by "X". */
  lemma FooBarExample()
    ensures var ms := [Match(0, 3, []), Match(8, 11, [])];
      ValidMatches(ms, 11) &&
      RegexSub("foo bar foo", ms, "X") ==
        Success(Rewrite("X bar X", [Delta(8, 11, -2), Delta(0, 3, -2)]))
    ensures Apply([Delta(8, 11, -2), Delta(0, 3, -2)], 8, Left) == 6
    ensures Apply([Delta(8, 11, -2), Delta(0, 3, -2)], 11, Right) == 7
  {
    var ms := [Match(0, 3, []), Match(8, 11, [])];
    var text := "foo bar foo";
    ExpandVerbatim(text, ms[0], "X");
    ExpandVerbatim(text, ms[1], "X");
    var t1 := text[..8] + "X" + text[11..];
    assert t1 == "foo bar X";
    var t2 := t1[..0] + "X" + t1[3..];
    assert t2 == "X bar X";
    var first := ms[..1];
    assert first == [Match(0, 3, [])] && first[..0] == [];
    var expand := ExpandIn(text, "X");
    assert SubLoop(t2, [], expand) == Success(Rewrite(t2, []));
    assert first[|first| - 1] == ms[0] && ms[|ms| - 1] == ms[1] && ms[..|ms| - 1] == first;
    assert expand(first[|first| - 1]) == Success("X");
    assert expand(ms[|ms| - 1]) == Success("X");
    assert [Delta(0, 3, -2)] + [] == [Delta(0, 3, -2)];
    assert [Delta(8, 11, -2)] + [Delta(0, 3, -2)] == [Delta(8, 11, -2), Delta(0, 3, -2)];
    assert SubLoop(t1, first, expand) == Success(Rewrite(t2, [Delta(0, 3, -2)]));
    assert SubLoop(text, ms, expand) == Success(Rewrite(t2, [Delta(8, 11, -2), Delta(0, 3, -2)]));
    var ds := [Delta(8, 11, -2), Delta(0, 3, -2)];
    assert FirstContaining(ds, 8).None?;
    assert FirstContaining(ds, 11).None?;
  }

  // ---------------------------------------------------------------------------
  // regex_multisub_with_spans
  // ---------------------------------------------------------------------------

  /** regex_multisub_with_spans: each rule rewrites the current text (its
      matches found by `find`) and its collection is composed onto the
      running one. */
  function MultiSub<P(!new)>(find: (P, string) -> seq<Match>, rules: seq<(P, string)>,
                       text: string, deltas: seq<Delta>): (r: Result<Rewrite, SubError>)
    requires forall p, s :: ValidMatches(find(p, s), |s|)
    ensures r.Success? ==> |deltas| <= |r.value.deltas|
    decreases |rules|
  {
    if |rules| == 0 then Success(Rewrite(text, deltas))
    else
      var step :- RegexSub(text, find(rules[0].0, text), rules[0].1);
      MultiSub(find, rules[1..], step.text, Compose(deltas, step.deltas))
  }

  /** The optional starting collection: none means the empty collection. */
  function MultiSubFrom<P(!new)>(find: (P, string) -> seq<Match>, rules: seq<(P, string)>,
                           text: string, deltas: Option<seq<Delta>>): Result<Rewrite, SubError>
    requires forall p, s :: ValidMatches(find(p, s), |s|)
  {
    MultiSub(find, rules, text, match deltas case None => [] case Some(d) => d)
  }

  /** The composed collection accounts for the change of length of the text
      over all rules, on top of the starting collection. */
  lemma {:induction false} MultiSubTotal<P(!new)>(find: (P, string) -> seq<Match>, rules: seq<(P, string)>,
                                           text: string, deltas: seq<Delta>)
    requires forall p, s :: ValidMatches(find(p, s), |s|)
    requires MultiSub(find, rules, text, deltas).Success?
    ensures var r := MultiSub(find, rules, text, deltas).value;
      TotalDelta(r.deltas) == TotalDelta(deltas) + |r.text| - |text|
    decreases |rules|
  {
    if |rules| > 0 {
      var ms := find(rules[0].0, text);
      var step := RegexSub(text, ms, rules[0].1).value;
      RegexSubShape(text, ms, rules[0].1);
      ComposeTotal(deltas, step.deltas);
      MultiSubTotal(find, rules[1..], step.text, Compose(deltas, step.deltas));
    }
  }

  /** With no rule, the text and the collection come back unchanged; with one
      rule and no starting collection, the result is that rule's own
      substitution. */
  lemma MultiSubBase<P(!new)>(find: (P, string) -> seq<Match>, rule: (P, string), text: string)
    requires forall p, s :: ValidMatches(find(p, s), |s|)
    ensures MultiSubFrom(find, [], text, None) == Success(Rewrite(text, []))
    ensures MultiSubFrom(find, [rule], text, None) == RegexSub(text, find(rule.0, text), rule.1)
  {
    var r := RegexSub(text, find(rule.0, text), rule.1);
    if r.Success? {
      assert [rule][1..] == [];
      ComposeEmpty(r.value.deltas);
      assert MultiSub(find, [rule][1..], r.value.text, Compose([], r.value.deltas))
        == Success(Rewrite(r.value.text, r.value.deltas));
    }
  }
}
