/** Accepting or rejecting each match of an extractor (`replaceCheck`) and wrapping the accepted
    ones into a one-field result (`scrap`). */
module Scan {
  import opened Wrappers
  import opened Text
  import opened Subsequence
  import opened ScrapTypes

  // ---------------------------------------------------------------------------
  // The checks on one match
  // ---------------------------------------------------------------------------

  /** `/[a-z0-9]/i`: an ASCII letter or digit. */
  predicate AsciiAlnum(c: char) {
    'a' <= c <= 'z' || 'A' <= c <= 'Z' || '0' <= c <= '9'
  }

  /** `s.lastIndexOf(ch, from)` for one character: the last index at or before `from` holding `ch`, or -1. */
  function LastIndexOf(s: string, ch: char, from: int): (r: int)
    ensures -1 <= r < |s|
    ensures r != -1 ==> r <= from && s[r] == ch
    ensures forall j :: r < j <= from && j < |s| ==> s[j] != ch
    decreases if from < 0 then 0 else from + 1
  {
    if from < 0 then -1
    else if from >= |s| then LastIndexOf(s, ch, |s| - 1)
    else if s[from] == ch then from
    else LastIndexOf(s, ch, from - 1)
  }

  /** `s.indexOf(ch, from)` for one character: the first index at or after `from` holding `ch`, or -1. */
  function IndexOf(s: string, ch: char, from: nat): (r: int)
    ensures r == -1 || (from <= r < |s| && s[r] == ch)
    ensures forall j :: from <= j < |s| && (r == -1 || j < r) ==> s[j] != ch
    decreases |s| - from
  {
    if from >= |s| then -1
    else if s[from] == ch then from
    else IndexOf(s, ch, from + 1)
  }

  predicate StartsWith(u: string, w: string) {
    |w| <= |u| && u[..|w|] == w
  }

  /** `[^ ]+` followed by `w` (or, once the run has `started`, `w` right away) at the start of `v`. */
  predicate RunThen(v: string, w: string, started: bool)
    decreases |v|
  {
    (started && StartsWith(v, w)) || (v != [] && v[0] != ' ' && RunThen(v[1..], w, true))
  }

  /** One of `{ m }`, `{ X - m }` or `{ m - X }` (`X` a non-empty run without spaces) starts `u`. */
  predicate PlaceholderAt(u: string, m: string) {
    StartsWith(u, "{ " + m + " }") ||
    (StartsWith(u, "{ ") && RunThen(u[2..], " - " + m + " }", false)) ||
    (StartsWith(u, "{ " + m + " - ") && RunThen(u[|m| + 5..], " }", false))
  }

  /** A placeholder naming `m` occurs somewhere in `t`. */
  predicate PlaceholderIn(t: string, m: string)
    decreases |t|
  {
    t != [] && (PlaceholderAt(t, m) || PlaceholderIn(t[1..], m))
  }

  /** The match at `pos` lies between a `{` at or before it and a `}` at or after it, and that stretch
      holds a placeholder naming the match (`{ m }`, `{ X - m }` or `{ m - X }`). */
  predicate InPlaceholder(input: string, c: Cand) {
    var left := LastIndexOf(input, '{', c.pos);
    var right := IndexOf(input, '}', c.pos);
    left != -1 && right != -1 &&
    PlaceholderIn(if left <= right then input[left..right + 1] else "", c.m)
  }

  /** The character just before or just after the match is an ASCII letter or digit. */
  predicate TouchesWord(input: string, c: Cand) {
    (1 <= c.pos <= |input| && AsciiAlnum(input[c.pos - 1])) ||
    (End(c) < |input| && AsciiAlnum(input[End(c)]))
  }

  predicate IsDigit(c: char) {
    '0' <= c <= '9'
  }

  /** `/^[0-9.]+$/`. */
  predicate Numeric(m: string) {
    |m| > 0 && DigitsAndDots(m)
  }

  predicate DigitsAndDots(m: string) {
    m == [] || ((IsDigit(m[0]) || m[0] == '.') && DigitsAndDots(m[1..]))
  }

  /** The decimal value of a string of digits. */
  function DigitsValue(s: string): int {
    if s == [] then 0 else DigitsValue(s[..|s| - 1]) * 10 + (s[|s| - 1] as int - '0' as int)
  }

  /** How many digits `s` starts with. */
  function LeadingDigits(s: string): (n: nat)
    ensures n <= |s|
  {
    if s == [] || !IsDigit(s[0]) then 0 else 1 + LeadingDigits(s[1..])
  }

  /** `parseInt(m)`: the value of the leading digits, or nothing (NaN) when there are none. */
  function ParseInt(m: string): (r: Option<int>)
    ensures r.Some? <==> m != "" && IsDigit(m[0])
  {
    var n := LeadingDigits(m);
    if n == 0 then None else Some(DigitsValue(m[..n]))
  }

  /** A run of digits followed by a non-digit, or by nothing, is read as far as the run goes. */
  lemma {:induction false} LeadingDigitsRun(d: string, t: string)
    requires forall i :: 0 <= i < |d| ==> IsDigit(d[i])
    requires t == [] || !IsDigit(t[0])
    ensures LeadingDigits(d + t) == |d|
    decreases |d|
  {
    if d == [] {
      assert d + t == t;
    } else {
      assert (d + t)[1..] == d[1..] + t;
      LeadingDigitsRun(d[1..], t);
    }
  }

  /** `parseInt` reads the leading integer: the digits up to the first non-digit, so a dot and what
      follows it are ignored. */
  lemma ParseIntLeading(d: string, t: string)
    requires d != [] && forall i :: 0 <= i < |d| ==> IsDigit(d[i])
    requires t == [] || !IsDigit(t[0])
    ensures ParseInt(d + t) == Some(DigitsValue(d))
  {
    LeadingDigitsRun(d, t);
    assert (d + t)[..|d|] == d;
  }

  /** "12.5" is compared with the bounds as 12. */
  lemma ParseIntStopsAtDot()
    ensures ParseInt("12.5") == Some(12)
  {
    ParseIntLeading("12", ".5");
    assert "12"[..1] == "1";
    assert DigitsValue("1") == 1;
    assert "12.5" == "12" + ".5";
  }

  /** The numeric bounds: a number (digits and dots) whose leading integer lies above `max` or below
      `min` fails; a comparison with NaN never fails. */
  predicate WithinBounds(v: Validate, m: string) {
    !Numeric(m) ||
    match ParseInt(m)
    case None => true
    case Some(n) => !(v.max.Some? && n > v.max.value) && !(v.min.Some? && n < v.min.value)
  }

  /** The `validate` rules: bounds, then the regular expression, then the callback. */
  predicate Valid(validate: Option<Validate>, m: string) {
    match validate
    case None => true
    case Some(v) =>
      WithinBounds(v, m) && (v.regex.None? || v.regex.value(m)) && (v.check.None? || v.check.value(m))
  }

  /** The checks a match must pass whatever came before it. */
  predicate Passes(input: string, sc: Scrapper, c: Cand) {
    !InPlaceholder(input, c) && !TouchesWord(input, c) && Valid(sc.opts.validate, c.m)
  }

  /** A match is accepted when it passes its checks, and, for a non-global extractor, when no
      earlier match was accepted. */
  predicate Verdict(input: string, sc: Scrapper, c: Cand, found: bool) {
    (IsGlobal(sc.regex) || !found) && Passes(input, sc, c)
  }

  /** The verdicts, decided left to right from whether each match passes: a global extractor takes
      every match that passes, a non-global one stops taking after the first. */
  function Decide(global: bool, passes: seq<bool>): (vs: seq<bool>)
    ensures |vs| == |passes|
  {
    if passes == [] then []
    else
      var vs := Decide(global, passes[..|passes| - 1]);
      vs + [(global || !(true in vs)) && passes[|passes| - 1]]
  }

  /** The verdicts on the first `n` matches, decided left to right. */
  function Verdicts(input: string, sc: Scrapper, cands: seq<Cand>, n: nat): (vs: seq<bool>)
    requires n <= |cands|
    ensures |vs| == n
  {
    if n == 0 then []
    else
      var vs := Verdicts(input, sc, cands, n - 1);
      vs + [Verdict(input, sc, cands[n - 1], true in vs)]
  }

  /** The strings of the accepted matches, in order. */
  function Accepted(cands: seq<Cand>, vs: seq<bool>): seq<string>
    requires |vs| <= |cands|
  {
    if vs == [] then []
    else Accepted(cands, vs[..|vs| - 1]) + (if vs[|vs| - 1] then [cands[|vs| - 1].m] else [])
  }

  /** What the callback returns for each judged match: `rep` when accepted, the match itself otherwise. */
  function Outs(cands: seq<Cand>, vs: seq<bool>, rep: string): (outs: seq<string>)
    requires |vs| <= |cands|
    ensures |outs| == |vs|
  {
    if vs == [] then []
    else Outs(cands, vs[..|vs| - 1], rep) + [if vs[|vs| - 1] then rep else cands[|vs| - 1].m]
  }

  /** Where the `n`-th match ends (0 before the first). */
  function EndAt(cands: seq<Cand>, n: nat): nat
    requires n <= |cands|
  {
    if n == 0 then 0 else End(cands[n - 1])
  }

  lemma EndAtOrder(input: string, cands: seq<Cand>, n: nat)
    requires WellFormed(input, cands) && n < |cands|
    ensures EndAt(cands, n) <= cands[n].pos && End(cands[n]) <= |input|
    ensures input[cands[n].pos..End(cands[n])] == cands[n].m
  {
    assert MatchAt(input, cands[n]);
    if n > 0 {
      assert Before(cands[n - 1], cands[n]);
    }
  }

  /** The text up to the end of the first `n` matches, each replaced by its `outs` string. */
  function Spliced(input: string, cands: seq<Cand>, outs: seq<string>, n: nat): string
    requires WellFormed(input, cands) && |outs| <= |cands| && n <= |outs|
  {
    if n == 0 then ""
    else
      EndAtOrder(input, cands, n - 1);
      Spliced(input, cands, outs, n - 1) + input[EndAt(cands, n - 1)..cands[n - 1].pos] + outs[n - 1]
  }

  /** `input.replace(regexp, callback)`: every match replaced by what the callback returned for it. */
  function Replaced(input: string, cands: seq<Cand>, outs: seq<string>): string
    requires WellFormed(input, cands) && |outs| == |cands|
  {
    assert |cands| > 0 ==> EndAt(cands, |cands|) <= |input|;
    Spliced(input, cands, outs, |cands|) + input[EndAt(cands, |cands|)..]
  }

  function Replacement(sc: Scrapper, value: bool): string {
    if value then Placeholder(sc) else ""
  }

  // ---------------------------------------------------------------------------
  // replaceCheck
  // ---------------------------------------------------------------------------

  /** The verdict on one match, in the order replaceCheck's callback takes its decisions: the
      single-match cut-off, the placeholder context, the word boundary, then validation. */
  method Check(input: string, sc: Scrapper, c: Cand, isGlobal: bool, isFound: bool) returns (accept: bool)
    requires isGlobal == IsGlobal(sc.regex)
    ensures accept == Verdict(input, sc, c, isFound)
  {
    if !isGlobal && isFound {
      accept := false;
    } else if InPlaceholder(input, c) {
      accept := false;
    } else if TouchesWord(input, c) {
      accept := false;
    } else if !Valid(sc.opts.validate, c.m) {
      accept := false;
    } else {
      accept := true;
    }
  }

  /** replaceCheck: calls the callback on the matches left to right, collecting the accepted ones;
      an accepted match is replaced by the placeholder (when `value`) or by nothing, a rejected one
      by itself. */
  method ReplaceCheck(input: string, sc: Scrapper, cands: seq<Cand>, value: bool)
    returns (final: string, matches: seq<string>)
    requires WellFormed(input, cands)
    ensures var vs := Verdicts(input, sc, cands, |cands|);
      matches == Accepted(cands, vs) && final == Replaced(input, cands, Outs(cands, vs, Replacement(sc, value)))
  {
    var isGlobal := IsGlobal(sc.regex);
    var isFound := false;
    var rep := Replacement(sc, value);
    matches := [];
    var outs := [];
    ghost var done: seq<bool> := [];
    for i := 0 to |cands|
      invariant done == Verdicts(input, sc, cands, i)
      invariant isFound == (true in done)
      invariant matches == Accepted(cands, done)
      invariant outs == Outs(cands, done, rep)
    {
      var c := cands[i];
      var accept := Check(input, sc, c, isGlobal, isFound);
      VerdictStep(input, sc, cands, i, rep);
      matches := matches + (if accept then [c.m] else []);
      outs := outs + [if accept then rep else c.m];
      isFound := isFound || accept;
      done := done + [accept];
    }
    final := Substitute(input, cands, outs);
  }

  /** Judging one more match appends its verdict, its string when accepted, and its answer. */
  lemma VerdictStep(input: string, sc: Scrapper, cands: seq<Cand>, i: nat, rep: string)
    requires i < |cands|
    ensures var done := Verdicts(input, sc, cands, i);
      var accept := Verdict(input, sc, cands[i], true in done);
      var next := done + [accept];
      Verdicts(input, sc, cands, i + 1) == next &&
      (true in next <==> true in done || accept) &&
      Accepted(cands, next) == Accepted(cands, done) + (if accept then [cands[i].m] else []) &&
      Outs(cands, next, rep) == Outs(cands, done, rep) + [if accept then rep else cands[i].m]
  {
    var done := Verdicts(input, sc, cands, i);
    var next := done + [Verdict(input, sc, cands[i], true in done)];
    assert next[..i] == done;
  }

  /** The assembly `String.prototype.replace` does once the callback has answered for every match:
      the text between matches kept, each match replaced by its answer. */
  method Substitute(input: string, cands: seq<Cand>, outs: seq<string>) returns (result: string)
    requires WellFormed(input, cands) && |outs| == |cands|
    ensures result == Replaced(input, cands, outs)
  {
    result := "";
    var last := 0;
    for i := 0 to |cands|
      invariant last == EndAt(cands, i) && last <= |input|
      invariant result == Spliced(input, cands, outs, i)
    {
      EndAtOrder(input, cands, i);
      result := result + input[last..cands[i].pos] + outs[i];
      last := End(cands[i]);
    }
    result := result + input[last..];
  }

  // ---------------------------------------------------------------------------
  // Properties of the verdicts and of the replaced text
  // ---------------------------------------------------------------------------

  /** The verdicts read from whether each match passes. */
  lemma {:induction false} VerdictsDecide(input: string, sc: Scrapper, cands: seq<Cand>, ps: seq<bool>, n: nat)
    requires n <= |cands| == |ps|
    requires forall j :: 0 <= j < |ps| ==> ps[j] == Passes(input, sc, cands[j])
    ensures Verdicts(input, sc, cands, n) == Decide(IsGlobal(sc.regex), ps[..n])
  {
    if n > 0 {
      VerdictsDecide(input, sc, cands, ps, n - 1);
      var g := IsGlobal(sc.regex);
      assert ps[..n][..n - 1] == ps[..n - 1];
      var vs := Decide(g, ps[..n - 1]);
      assert Decide(g, ps[..n]) == vs + [(g || !(true in vs)) && ps[n - 1]];
    }
  }

  /** Each decision, stated on its own: a match is accepted exactly when it passes and, unless the
      extractor is global, no earlier match passes. */
  lemma {:induction false} DecidePointwise(global: bool, passes: seq<bool>)
    ensures forall j :: 0 <= j < |passes| ==>
      (Decide(global, passes)[j] <==> passes[j] && (global || forall i :: 0 <= i < j ==> !passes[i]))
    ensures !global ==> ((true in Decide(global, passes)) <==> true in passes)
  {
    if passes != [] {
      var n := |passes| - 1;
      DecidePointwise(global, passes[..n]);
      var vs := Decide(global, passes[..n]);
      if !global && true in vs {
        var k :| 0 <= k < n && vs[k];
        assert passes[..n][k];
      }
      if !global && true in passes[..n] {
        var k :| 0 <= k < n && passes[..n][k];
        assert passes[k];
      }
    }
  }

  /** Each verdict of replaceCheck, stated on its own. */
  lemma VerdictsPointwise(input: string, sc: Scrapper, cands: seq<Cand>)
    ensures forall j :: 0 <= j < |cands| ==>
      (Verdicts(input, sc, cands, |cands|)[j] <==>
         Passes(input, sc, cands[j]) && (IsGlobal(sc.regex) || forall i :: 0 <= i < j ==> !Passes(input, sc, cands[i])))
  {
    var ps := seq(|cands|, j requires 0 <= j < |cands| => Passes(input, sc, cands[j]));
    VerdictsDecide(input, sc, cands, ps, |cands|);
    assert ps[..|cands|] == ps;
    DecidePointwise(IsGlobal(sc.regex), ps);
  }

  /** A non-global extractor accepts at most one match: the first that passes. */
  lemma SingleMatch(input: string, sc: Scrapper, cands: seq<Cand>)
    requires !IsGlobal(sc.regex)
    ensures var vs := Verdicts(input, sc, cands, |cands|);
      forall i, j :: 0 <= i < j < |cands| && vs[i] ==> !vs[j]
  {
    VerdictsPointwise(input, sc, cands);
  }

  /** A global extractor accepts exactly the matches that pass. */
  lemma GlobalMatches(input: string, sc: Scrapper, cands: seq<Cand>)
    requires IsGlobal(sc.regex)
    ensures var vs := Verdicts(input, sc, cands, |cands|);
      forall j :: 0 <= j < |cands| ==> (vs[j] <==> Passes(input, sc, cands[j]))
  {
    VerdictsPointwise(input, sc, cands);
  }

  /** An accepted match is never glued to an ASCII letter or digit, never already inside a
      placeholder naming it, and passes validation. */
  lemma AcceptedPasses(input: string, sc: Scrapper, cands: seq<Cand>)
    ensures var vs := Verdicts(input, sc, cands, |cands|);
      forall j :: 0 <= j < |cands| && vs[j] ==>
        !TouchesWord(input, cands[j]) && !InPlaceholder(input, cands[j]) && Valid(sc.opts.validate, cands[j].m)
  {
    VerdictsPointwise(input, sc, cands);
  }

  /** Every accepted string is one of the matches. */
  lemma {:induction false} AcceptedAreMatches(cands: seq<Cand>, vs: seq<bool>)
    requires |vs| <= |cands|
    ensures |Accepted(cands, vs)| <= |vs|
    ensures forall s :: s in Accepted(cands, vs) ==> exists j :: 0 <= j < |vs| && vs[j] && cands[j].m == s
  {
    if vs != [] {
      AcceptedAreMatches(cands, vs[..|vs| - 1]);
    }
  }

  /** The callback's answers: the replacement for an accepted match, the match for a rejected one. */
  lemma {:induction false} OutsAt(cands: seq<Cand>, vs: seq<bool>, rep: string)
    requires |vs| <= |cands|
    ensures forall j :: 0 <= j < |vs| ==> Outs(cands, vs, rep)[j] == if vs[j] then rep else cands[j].m
  {
    if vs != [] {
      OutsAt(cands, vs[..|vs| - 1], rep);
    }
  }

  /** A text whose matches are all replaced by themselves comes back unchanged. */
  lemma {:induction false} KeptSpliced(input: string, cands: seq<Cand>, outs: seq<string>, k: nat)
    requires WellFormed(input, cands) && k <= |outs| <= |cands|
    requires forall j :: 0 <= j < k ==> outs[j] == cands[j].m
    ensures Spliced(input, cands, outs, k) == input[..EndAt(cands, k)]
  {
    if k > 0 {
      var n := k - 1;
      KeptSpliced(input, cands, outs, n);
      EndAtOrder(input, cands, n);
      KeepStep(input, EndAt(cands, n), cands[n].pos, End(cands[n]), Spliced(input, cands, outs, n), outs[n]);
    }
  }

  lemma KeepStep(input: string, a: nat, b: nat, e: nat, prev: string, out: string)
    requires a <= b <= e <= |input| && prev == input[..a] && out == input[b..e]
    ensures prev + input[a..b] + out == input[..e]
  {
  }

  /** With nothing accepted, replaceCheck gives the text back unchanged. */
  lemma NothingAccepted(input: string, cands: seq<Cand>, vs: seq<bool>, rep: string)
    requires WellFormed(input, cands) && |vs| == |cands|
    requires forall j :: 0 <= j < |vs| ==> !vs[j]
    ensures Replaced(input, cands, Outs(cands, vs, rep)) == input
  {
    OutsAt(cands, vs, rep);
    KeptSpliced(input, cands, Outs(cands, vs, rep), |vs|);
    assert |cands| > 0 ==> EndAt(cands, |cands|) <= |input|;
    assert input[..EndAt(cands, |cands|)] + input[EndAt(cands, |cands|)..] == input;
  }

  /** Erasing removes exactly the accepted matches: the text loses their total length. */
  lemma {:induction false} ErasedLength(input: string, cands: seq<Cand>, vs: seq<bool>)
    requires WellFormed(input, cands) && |vs| <= |cands|
    ensures |Spliced(input, cands, Outs(cands, vs, ""), |vs|)| + TotalLength(Accepted(cands, vs)) == EndAt(cands, |vs|)
  {
    if vs != [] {
      var n := |vs| - 1;
      ErasedLength(input, cands, vs[..n]);
      var outs := Outs(cands, vs, "");
      assert outs[..n] == Outs(cands, vs[..n], "");
      SplicedPrefix(input, cands, outs, Outs(cands, vs[..n], ""), n);
      assert outs[n] == if vs[n] then "" else cands[n].m;
      ErasedLengthStep(input, cands, outs, n, Accepted(cands, vs[..n]), Accepted(cands, vs));
    }
  }

  lemma ErasedLengthStep(input: string, cands: seq<Cand>, outs: seq<string>, n: nat, before: seq<string>, after: seq<string>)
    requires WellFormed(input, cands) && n < |outs| <= |cands|
    requires (outs[n] == "" && after == before + [cands[n].m]) || (outs[n] == cands[n].m && after == before + [])
    requires |Spliced(input, cands, outs, n)| + TotalLength(before) == EndAt(cands, n)
    ensures |Spliced(input, cands, outs, n + 1)| + TotalLength(after) == EndAt(cands, n + 1)
  {
    EndAtOrder(input, cands, n);
    TotalLengthAppend(before, [cands[n].m]);
    assert TotalLength([cands[n].m]) == |cands[n].m|;
    assert before + [] == before;
  }

  /** A splice of `n` matches reads only the first `n` answers. */
  lemma {:induction false} SplicedPrefix(input: string, cands: seq<Cand>, a: seq<string>, b: seq<string>, n: nat)
    requires WellFormed(input, cands) && |a| <= |cands| && |b| <= |cands| && n <= |a| && n <= |b|
    requires a[..n] == b[..n]
    ensures Spliced(input, cands, a, n) == Spliced(input, cands, b, n)
  {
    if n > 0 {
      assert a[..n - 1] == a[..n][..n - 1];
      assert b[..n - 1] == b[..n][..n - 1];
      SplicedPrefix(input, cands, a, b, n - 1);
      assert a[n - 1] == a[..n][n - 1];
      assert b[n - 1] == b[..n][n - 1];
    }
  }

  lemma {:induction false} TotalLengthAppend(a: seq<string>, b: seq<string>)
    ensures TotalLength(a + b) == TotalLength(a) + TotalLength(b)
  {
    if a == [] {
      assert a + b == b;
    } else {
      TotalLengthAppend(a[1..], b);
      assert (a + b)[1..] == a[1..] + b;
    }
  }

  /** Replacing matches by nothing or by themselves leaves a subsequence of the text. */
  lemma {:induction false} ErasedSubseq(input: string, cands: seq<Cand>, outs: seq<string>, k: nat)
    requires WellFormed(input, cands) && k <= |outs| <= |cands|
    requires forall j :: 0 <= j < k ==> outs[j] == "" || outs[j] == cands[j].m
    ensures Subseq(Spliced(input, cands, outs, k), input[..EndAt(cands, k)])
  {
    if k == 0 {
      SubseqEmpty(input[..0]);
    } else {
      ErasedSubseq(input, cands, outs, k - 1);
      ErasedStep(input, cands, outs, k);
    }
  }

  lemma ErasedStep(input: string, cands: seq<Cand>, outs: seq<string>, k: nat)
    requires WellFormed(input, cands) && 0 < k <= |outs| <= |cands|
    requires Subseq(Spliced(input, cands, outs, k - 1), input[..EndAt(cands, k - 1)])
    requires outs[k - 1] == "" || outs[k - 1] == cands[k - 1].m
    ensures Subseq(Spliced(input, cands, outs, k), input[..EndAt(cands, k)])
  {
    var n := k - 1;
    EndAtOrder(input, cands, n);
    var a, b := EndAt(cands, n), cands[n].pos;
    var prev := Spliced(input, cands, outs, n);
    assert Spliced(input, cands, outs, k) == prev + input[a..b] + outs[n];
    SpliceStep(prev, input, a, b, End(cands[n]), outs[n]);
  }

  /** One splice step keeps the subsequence relation: the gap is kept, the match kept or dropped. */
  lemma SpliceStep(prev: string, input: string, a: nat, b: nat, e: nat, out: string)
    requires a <= b <= e <= |input|
    requires Subseq(prev, input[..a]) && (out == "" || out == input[b..e])
    ensures Subseq(prev + input[a..b] + out, input[..e])
  {
    var gap, matched := input[a..b], input[b..e];
    SubseqRefl(gap);
    SubseqAppend(prev, input[..a], gap, gap);
    if out == "" {
      SubseqEmpty(matched);
    } else {
      SubseqRefl(matched);
    }
    SubseqAppend(prev + gap, input[..a] + gap, out, matched);
    assert input[..a] + gap + matched == input[..e];
  }

  /** The text replaceCheck erases to is a subsequence of the text it searched. */
  lemma ErasedWhole(input: string, cands: seq<Cand>, vs: seq<bool>)
    requires WellFormed(input, cands) && |vs| == |cands|
    ensures Subseq(Replaced(input, cands, Outs(cands, vs, "")), input)
  {
    var outs := Outs(cands, vs, "");
    OutsAt(cands, vs, "");
    ErasedSubseq(input, cands, outs, |outs|);
    var e := EndAt(cands, |cands|);
    assert |cands| > 0 ==> e <= |input|;
    KeepTail(Spliced(input, cands, outs, |cands|), input, e);
  }

  lemma KeepTail(s: string, input: string, e: nat)
    requires e <= |input| && Subseq(s, input[..e])
    ensures Subseq(s + input[e..], input)
  {
    SubseqRefl(input[e..]);
    SubseqAppend(s, input[..e], input[e..], input[e..]);
    assert input[..e] + input[e..] == input;
  }

  /** Every accepted string is the text at its match, hence a subsequence of the text. */
  lemma AcceptedSubseq(input: string, cands: seq<Cand>, vs: seq<bool>)
    requires WellFormed(input, cands) && |vs| <= |cands|
    ensures forall s :: s in Accepted(cands, vs) ==> Subseq(s, input)
  {
    AcceptedAreMatches(cands, vs);
    forall s | s in Accepted(cands, vs)
      ensures Subseq(s, input)
    {
      var j :| 0 <= j < |vs| && vs[j] && cands[j].m == s;
      EndAtOrder(input, cands, j);
      SubseqSlice(input, cands[j].pos, End(cands[j]));
    }
  }

  // ---------------------------------------------------------------------------
  // scrap
  // ---------------------------------------------------------------------------

  /** The texts a pass keeps: what it read, what is left once matches are erased, and the text
      annotated with placeholders. */
  datatype Raw = Raw(input: string, clean: string, final: string)

  datatype ScrapperResult = ScrapperResult(raw: Raw, data: map<string, FieldValue>)

  /** The value an extractor's matches give its field: grouped under its sub-key when it has one. */
  function Collected(sc: Scrapper, matches: seq<string>): (v: FieldValue)
    ensures v.List? <==> sc.key == ""
    ensures v.Keyed? ==> v.entries == map[sc.key := matches]
    ensures v.List? ==> v.items == matches
  {
    if sc.key != "" then Keyed(map[sc.key := matches]) else List(matches)
  }

  /** scrap: nothing when the extractor accepts no match; otherwise the text with the accepted matches
      erased and the matches under the extractor's field. */
  method Scrap(input: string, sc: Scrapper, cands: seq<Cand>) returns (res: Option<ScrapperResult>)
    requires WellFormed(input, cands)
    ensures var vs := Verdicts(input, sc, cands, |cands|);
      (res.None? <==> Accepted(cands, vs) == []) &&
      (res.Some? ==> res.value == ScrapperResult(Raw(input, Replaced(input, cands, Outs(cands, vs, "")), input),
                                                 map[sc.field := Collected(sc, Accepted(cands, vs))]))
  {
    if |cands| == 0 {
      return None;
    }
    var final, matches := ReplaceCheck(input, sc, cands, false);
    if |matches| == 0 {
      return None;
    }
    res := Some(ScrapperResult(Raw(input, final, input), map[sc.field := Collected(sc, matches)]));
  }

  /** What scrap keeps is a deletion from what it read, and what it collects comes from that text. */
  lemma ScrapSubseq(input: string, sc: Scrapper, cands: seq<Cand>)
    requires WellFormed(input, cands)
    ensures var vs := Verdicts(input, sc, cands, |cands|);
      Subseq(Replaced(input, cands, Outs(cands, vs, "")), input) &&
      Within(Collected(sc, Accepted(cands, vs)), input)
  {
    var vs := Verdicts(input, sc, cands, |cands|);
    ErasedWhole(input, cands, vs);
    AcceptedSubseq(input, cands, vs);
  }
}
