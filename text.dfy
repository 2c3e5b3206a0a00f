/** The string utilities of src/main.ts that the rest of the toolkit builds on:
    regular-expression escaping and construction, padding, whitespace trimming,
    splitting and joining on a string, and bracket segments. */
module Text {
  import opened Wrappers
  import opened Subsequence

  // ---------------------------------------------------------------------------
  // Regular expressions
  // ---------------------------------------------------------------------------

  /** A compiled `RegExp`: its source text and its flags. Matching is not modelled here. */
  datatype Regex = Regex(source: string, flags: string)

  /** A pattern given either as a string or as an already compiled `RegExp`. */
  datatype Pattern = Literal(text: string) | Compiled(regex: Regex)

  /** The characters `EscapeRegexp` puts a backslash before: ^ $ / . * - + ? | ( ) [ ] { } \ */
  predicate Special(c: char) {
    c in {'^', '$', '/', '.', '*', '-', '+', '?', '|', '(', ')', '[', ']', '{', '}', '\\'}
  }

  /** Every special character of `s` preceded by a backslash. */
  function Escape(s: string): string {
    if s == [] then []
    else (if Special(s[0]) then ['\\', s[0]] else [s[0]]) + Escape(s[1..])
  }

  /** EscapeRegexp: a compiled pattern is returned as it is, a string is escaped. */
  function EscapeRegexp(input: Pattern): (r: Pattern)
    ensures input.Compiled? ==> r == input
    ensures input.Literal? ==> r.Literal? && Unescape(r.text) == input.text
  {
    match input
    case Compiled(_) => input
    case Literal(s) => EscapeRoundTrip(s); Literal(Escape(s))
  }

  /** Reading a regular expression source as a literal: a backslash stands for the character after it. */
  function Unescape(t: string): string {
    if t == [] then []
    else if t[0] == '\\' && |t| >= 2 then [t[1]] + Unescape(t[2..])
    else [t[0]] + Unescape(t[1..])
  }

  /** In a source that is `Plain`, every special character is escaped, so it matches only its own text. */
  predicate Plain(t: string) {
    if t == [] then true
    else if t[0] == '\\' then |t| >= 2 && Special(t[1]) && Plain(t[2..])
    else !Special(t[0]) && Plain(t[1..])
  }

  /** The number of special characters in `s`. */
  function SpecialCount(s: string): nat {
    if s == [] then 0 else (if Special(s[0]) then 1 else 0) + SpecialCount(s[1..])
  }

  lemma {:induction false} EscapeRoundTrip(s: string)
    ensures Unescape(Escape(s)) == s
  {
    if s != [] {
      EscapeRoundTrip(s[1..]);
      var head := if Special(s[0]) then ['\\', s[0]] else [s[0]];
      var t := head + Escape(s[1..]);
      if Special(s[0]) {
        assert t[2..] == Escape(s[1..]);
      } else {
        assert t[1..] == Escape(s[1..]);
      }
      assert s == [s[0]] + s[1..];
    }
  }

  /** The escaped text matches only itself: every special character carries its backslash. */
  lemma {:induction false} EscapePlain(s: string)
    ensures Plain(Escape(s))
  {
    if s != [] {
      EscapePlain(s[1..]);
      var t := Escape(s);
      if Special(s[0]) {
        assert t[2..] == Escape(s[1..]);
      } else {
        assert t[1..] == Escape(s[1..]);
      }
    }
  }

  /** Exactly one backslash is added per special character, and nothing else changes in length. */
  lemma {:induction false} EscapeLength(s: string)
    ensures |Escape(s)| == |s| + SpecialCount(s)
  {
    if s != [] {
      EscapeLength(s[1..]);
    }
  }

  /** BuildRegex: a compiled pattern unchanged; a string, escaped when asked, with `g` and `i` flags chosen by the options. */
  function BuildRegex(input: Pattern, escapeRegexp: bool, regexpGlobal: bool, regexpInsensitive: bool): (r: Regex)
    ensures input.Compiled? ==> r == input.regex
    ensures input.Literal? ==> (IsGlobal(r) <==> regexpGlobal) && (IsInsensitive(r) <==> regexpInsensitive)
    ensures input.Literal? && escapeRegexp ==> Unescape(r.source) == input.text
    ensures input.Literal? && !escapeRegexp ==> r.source == input.text
  {
    match input
    case Compiled(r) => r
    case Literal(s) =>
      if escapeRegexp then
        EscapeRoundTrip(s);
        Regex(Escape(s), Flags(regexpGlobal, regexpInsensitive))
      else
        Regex(s, Flags(regexpGlobal, regexpInsensitive))
  }

  /** The flags BuildRegex gives a regular expression it compiles from a string. */
  function Flags(regexpGlobal: bool, regexpInsensitive: bool): string {
    (if regexpGlobal then "g" else "") + (if regexpInsensitive then "i" else "")
  }

  predicate IsGlobal(r: Regex) {
    'g' in r.flags
  }

  predicate IsInsensitive(r: Regex) {
    'i' in r.flags
  }

  /** The flags of a regular expression built from a string follow the options, and its source reads back as the string when escaped. */
  lemma BuildRegexFlags(s: string, escapeRegexp: bool, regexpGlobal: bool, regexpInsensitive: bool)
    ensures var r := BuildRegex(Literal(s), escapeRegexp, regexpGlobal, regexpInsensitive);
      (IsGlobal(r) <==> regexpGlobal) && (IsInsensitive(r) <==> regexpInsensitive) &&
      (escapeRegexp ==> Unescape(r.source) == s && Plain(r.source)) &&
      (!escapeRegexp ==> r.source == s)
  {
    if escapeRegexp {
      EscapeRoundTrip(s);
      EscapePlain(s);
    }
  }

  /** A compiled pattern is returned as it is, whatever the options. */
  lemma BuildRegexCompiled(r: Regex, escapeRegexp: bool, regexpGlobal: bool, regexpInsensitive: bool)
    ensures BuildRegex(Compiled(r), escapeRegexp, regexpGlobal, regexpInsensitive) == r
  {
  }
  // ---------------------------------------------------------------------------
  // Padding
  // ---------------------------------------------------------------------------

  const TypeError: string := "TypeError"
  const RangeError: string := "RangeError"

  /** The `pad` option. `text` is `None` when `pad.string` is not a string; a `count` or
      `length` of 0 stands for one that is absent, since both are only tested for truth. */
  datatype PadSpec = PadSpec(text: Option<string>, count: int, length: int, end: bool)

  /** `s.repeat(n)`: `n` copies of `s`, one after another. */
  function Repeat(s: string, n: nat): string {
    if n == 0 then "" else s + Repeat(s, n - 1)
  }

  /** `n` characters going round `s`: character `k` is `s[k % |s|]`. */
  function Cycle(s: string, n: nat): (r: string)
    requires |s| > 0
    ensures |r| == n && forall k :: 0 <= k < n ==> r[k] == s[k % |s|]
  {
    seq(n, k requires 0 <= k => s[k % |s|])
  }

  /** The pad `Pad` builds for `input`, or the error it throws. */
  function Padding(input: string, pad: Option<PadSpec>): Result<string, string> {
    match pad
    case None => Err(TypeError)
    case Some(spec) =>
      if spec.text.None? || spec.text.value == "" then Ok("")
      else if spec.count != 0 then
        if spec.count < 0 then Err(RangeError) else Ok(Repeat(spec.text.value, spec.count))
      else if spec.length != 0 && |input| + |spec.text.value| < spec.length then
        Ok(Cycle(spec.text.value, spec.length - |input|))
      else Ok("")
  }

  /** The pad placed after the input when `end` is set, before it otherwise. */
  function Padded(input: string, pad: Option<PadSpec>): Result<string, string> {
    match Padding(input, pad)
    case Err(e) => Err(e)
    case Ok(p) => Ok(if pad.value.end then input + p else p + input)
  }

  /** Pad: a repeated pad when a count is given, else one cycled character by character up to `length`. */
  method Pad(input: string, pad: Option<PadSpec>) returns (result: Result<string, string>)
    ensures result == Padded(input, pad)
  {
    var padding := "";
    if pad.Some? && pad.value.text.Some? && |pad.value.text.value| > 0 {
      var text := pad.value.text.value;
      if pad.value.count != 0 {
        if pad.value.count < 0 {
          return Err(RangeError);
        }
        padding := Repeat(text, pad.value.count);
      } else if pad.value.length != 0 && |input| + |text| < pad.value.length {
        var index := 0;
        while |padding| < pad.value.length - |input|
          invariant |padding| <= pad.value.length - |input|
          invariant 0 <= index <= |text|
          invariant index % |text| == |padding| % |text|
          invariant padding == Cycle(text, |padding|)
          decreases pad.value.length - |input| - |padding|
        {
          WrapIndex(index, |text|, |padding|);
          if index == |text| {
            index := 0;
          }
          CycleStep(text, |padding|, index);
          padding := padding + [text[index]];
          index := index + 1;
        }
      }
    }
    if pad.None? {
      return Err(TypeError);
    }
    result := Ok(if pad.value.end then input + padding else padding + input);
  }

  /** Resetting an index that ran off the end keeps it in step with the pad length. */
  lemma WrapIndex(index: nat, m: nat, n: nat)
    requires 0 < m && index <= m && index % m == n % m
    ensures (if index == m then 0 else index) == n % m
  {
    if index == m {
      ModUnique(m, m, 1, 0);
    } else {
      ModUnique(index, m, 0, index);
    }
  }

  /** One more character of the cycle is the one at the wrapped index. */
  lemma CycleStep(s: string, n: nat, index: nat)
    requires |s| > 0 && index == n % |s|
    ensures index < |s|
    ensures Cycle(s, n) + [s[index]] == Cycle(s, n + 1)
    ensures (index + 1) % |s| == (n + 1) % |s|
  {
    var r, t := Cycle(s, n) + [s[index]], Cycle(s, n + 1);
    assert r[n] == t[n];
    assert forall k :: 0 <= k < n ==> r[k] == t[k];
    assert r == t;
    NextIndex(n, |s|, index);
  }

  lemma NextIndex(n: nat, m: nat, index: nat)
    requires m > 0 && index == n % m
    ensures (index + 1) % m == (n + 1) % m
  {
    var q := n / m;
    assert n == q * m + index;
    if index + 1 < m {
      ModUnique(n + 1, m, q, index + 1);
      ModUnique(index + 1, m, 0, index + 1);
    } else {
      ModUnique(n + 1, m, q + 1, 0);
      ModUnique(index + 1, m, 1, 0);
    }
  }

  /** A whole turn of the cycle is the string itself. */
  lemma CycleShift(s: string, m: nat)
    requires |s| > 0
    ensures Cycle(s, |s| + m) == s + Cycle(s, m)
  {
    var r, t := Cycle(s, |s| + m), s + Cycle(s, m);
    forall k | 0 <= k < |r|
      ensures r[k] == t[k]
    {
      if k < |s| {
        ModUnique(k, |s|, 0, k);
      } else {
        ModShift(k, |s|);
      }
    }
    assert r == t;
  }

  lemma ModShift(k: nat, m: nat)
    requires 0 < m <= k
    ensures (k - m) % m == k % m
  {
    var q, r := (k - m) / m, (k - m) % m;
    assert k - m == q * m + r;
    assert k == (q + 1) * m + r;
    ModUnique(k, m, q + 1, r);
  }

  /** Euclidean remainder: `r` is `k % m` whenever `k == q * m + r` with `0 <= r < m`. */
  lemma ModUnique(k: int, m: int, q: int, r: int)
    requires m > 0 && 0 <= r < m && k == q * m + r
    ensures k % m == r
  {
    var q', r' := k / m, k % m;
    assert k == q' * m + r';
    assert (q - q') * m == r' - r;
    if q > q' {
      MulAtLeast(q - q', m);
    } else if q < q' {
      MulAtLeast(q' - q, m);
    }
  }

  lemma MulAtLeast(a: int, m: int)
    requires a >= 1 && m > 0
    ensures a * m >= m
  {
    assert a * m == m + (a - 1) * m;
  }

  /** `count` copies of the pad make a pad `count` times as long, cycling through it. */
  lemma {:induction false} RepeatIsCycle(s: string, n: nat)
    requires |s| > 0
    ensures Repeat(s, n) == Cycle(s, n * |s|)
  {
    if n > 0 {
      RepeatIsCycle(s, n - 1);
      assert n * |s| == |s| + (n - 1) * |s|;
      CycleShift(s, (n - 1) * |s|);
    }
  }

  /** With a length and no count, the padded text is exactly `length` long when padding happens,
      and the input unchanged otherwise. */
  lemma PaddedLength(input: string, spec: PadSpec)
    requires spec.count == 0
    ensures var r := Padded(input, Some(spec));
      r.Ok? && |r.value| == (if spec.text.Some? && spec.text.value != "" && spec.length != 0 &&
                                |input| + |spec.text.value| < spec.length
                             then spec.length else |input|)
  {
  }

  /** The input sits at the end of a start pad and at the start of an end pad, whatever the pad is. */
  lemma PaddedKeepsInput(input: string, spec: PadSpec)
    requires Padded(input, Some(spec)).Ok?
    ensures var r := Padded(input, Some(spec)).value;
      |r| >= |input| &&
      (spec.end ==> r[..|input|] == input) &&
      (!spec.end ==> r[|r| - |input|..] == input)
  {
  }

  /** An empty or missing pad string leaves the input as it is. */
  lemma PadWithoutText(input: string, spec: PadSpec)
    requires spec.text.None? || spec.text.value == ""
    ensures Padded(input, Some(spec)) == Ok(input)
  {
    assert input + "" == input && "" + input == input;
  }

  /** The `pad` option after `PadStart` or `PadEnd` has overwritten its `end` flag. */
  class PadOptions {
    var pad: Option<PadSpec>

    constructor(pad: Option<PadSpec>)
      ensures this.pad == pad
    {
      this.pad := pad;
    }

    /** The flag as written into `pad`: an absent `pad` becomes one with no string. */
    static function WithEnd(pad: Option<PadSpec>, end: bool): (r: PadSpec)
      ensures r.end == end
      ensures pad.Some? ==> r.text == pad.value.text && r.count == pad.value.count && r.length == pad.value.length
      ensures pad.None? ==> r.text.None?
    {
      match pad
      case None => PadSpec(None, 0, 0, end)
      case Some(spec) => spec.(end := end)
    }

    /** PadStart: `end` is overwritten with false, so the pad goes before the input. */
    method PadStart(input: string) returns (result: Result<string, string>)
      modifies this
      ensures pad == Some(WithEnd(old(pad), false))
      ensures result == Padded(input, pad)
    {
      pad := Some(WithEnd(pad, false));
      result := Pad(input, pad);
    }

    /** PadEnd: `end` is overwritten with true, so the pad goes after the input. */
    method PadEnd(input: string) returns (result: Result<string, string>)
      modifies this
      ensures pad == Some(WithEnd(old(pad), true))
      ensures result == Padded(input, pad)
    {
      pad := Some(WithEnd(pad, true));
      result := Pad(input, pad);
    }
  }
  /** PadStart and PadEnd never meet a missing `pad`: they fail only on a negative count. */
  lemma PadSidesFail(input: string, pad: Option<PadSpec>, end: bool)
    ensures var spec := PadOptions.WithEnd(pad, end);
      Padded(input, Some(spec)).Err? <==>
        spec.text.Some? && spec.text.value != "" && spec.count < 0
  {
  }

  // ---------------------------------------------------------------------------
  // Trimming
  // ---------------------------------------------------------------------------

  /** The characters `\s` matches: the ECMAScript white space and line terminators. */
  predicate IsSpace(c: char) {
    c in {'\t', '\n', '\U{000B}', '\U{000C}', '\r', ' ', '\U{00A0}', '\U{1680}',
          '\U{2028}', '\U{2029}', '\U{202F}', '\U{205F}', '\U{3000}', '\U{FEFF}'} ||
    ('\U{2000}' <= c <= '\U{200A}')
  }

  /** The length of the run of white space `s` starts with. */
  function LeadingSpaces(s: string): (n: nat)
    ensures n <= |s|
    ensures forall k :: 0 <= k < n ==> IsSpace(s[k])
    ensures n == |s| || !IsSpace(s[n])
  {
    if s != [] && IsSpace(s[0]) then 1 + LeadingSpaces(s[1..]) else 0
  }

  /** The length of the run of white space `s` ends with. */
  function TrailingSpaces(s: string): (n: nat)
    ensures n <= |s|
    ensures forall k :: |s| - n <= k < |s| ==> IsSpace(s[k])
    ensures n == |s| || !IsSpace(s[|s| - n - 1])
  {
    if s != [] && IsSpace(s[|s| - 1]) then 1 + TrailingSpaces(s[..|s| - 1]) else 0
  }

  /** The input after its leading run of white space. */
  function TrimStartOf(s: string): string {
    s[LeadingSpaces(s)..]
  }

  /** The input before its trailing run of white space. */
  function TrimEndOf(s: string): string {
    s[..|s| - TrailingSpaces(s)]
  }

  function TrimOf(s: string): string {
    TrimEndOf(TrimStartOf(s))
  }

  /** TrimStart with the default pattern: while the text starts with white space, one character goes. */
  method TrimStart(input: string, trim: bool) returns (output: string)
    ensures output == if trim then TrimStartOf(input) else input
  {
    output := input;
    if trim {
      while output != [] && IsSpace(output[0])
        invariant TrimStartOf(output) == TrimStartOf(input)
        decreases |output|
      {
        TrimStartStep(output);
        output := output[1..];
      }
    }
  }

  lemma TrimStartStep(s: string)
    requires s != [] && IsSpace(s[0])
    ensures TrimStartOf(s[1..]) == TrimStartOf(s)
  {
    assert LeadingSpaces(s) == 1 + LeadingSpaces(s[1..]);
  }

  /** TrimEnd with the default pattern: while the text ends with white space, one character goes. */
  method TrimEnd(input: string, trim: bool) returns (output: string)
    ensures output == if trim then TrimEndOf(input) else input
  {
    output := input;
    if trim {
      while output != [] && IsSpace(output[|output| - 1])
        invariant TrimEndOf(output) == TrimEndOf(input)
        decreases |output|
      {
        TrimEndStep(output);
        output := output[..|output| - 1];
      }
    }
  }

  lemma TrimEndStep(s: string)
    requires s != [] && IsSpace(s[|s| - 1])
    ensures TrimEndOf(s[..|s| - 1]) == TrimEndOf(s)
  {
    assert TrailingSpaces(s) == 1 + TrailingSpaces(s[..|s| - 1]);
  }

  /** Trim: TrimStart, then TrimEnd, with the same option. */
  method Trim(input: string, trim: bool) returns (output: string)
    ensures output == if trim then TrimOf(input) else input
  {
    output := TrimStart(input, trim);
    output := TrimEnd(output, trim);
  }

  /** The trimmed text is the stretch of the input that starts after its leading white space. */
  lemma TrimmedSlice(s: string)
    ensures LeadingSpaces(s) + |TrimOf(s)| <= |s|
    ensures TrimOf(s) == s[LeadingSpaces(s)..LeadingSpaces(s) + |TrimOf(s)|]
  {
    var i, t := LeadingSpaces(s), TrimStartOf(s);
    var n := TrailingSpaces(t);
    assert t[..|t| - n] == s[i..i + |t| - n];
  }

  /** What trimming cuts from either end is white space. */
  lemma TrimmedCut(s: string)
    ensures LeadingSpaces(s) + |TrimOf(s)| <= |s|
    ensures forall k :: LeadingSpaces(s) + |TrimOf(s)| <= k < |s| ==> IsSpace(s[k])
  {
    var i, t := LeadingSpaces(s), TrimStartOf(s);
    var n := TrailingSpaces(t);
    assert |TrimOf(s)| == |t| - n;
    forall k | i + |t| - n <= k < |s|
      ensures IsSpace(s[k])
    {
      assert s[k] == t[k - i];
    }
  }

  /** The trimmed text neither starts nor ends with white space. */
  lemma TrimmedEnds(s: string)
    ensures var r := TrimOf(s); r == [] || (!IsSpace(r[0]) && !IsSpace(r[|r| - 1]))
  {
    var t := TrimStartOf(s);
    var r := TrimEndOf(t);
    if r != [] {
      assert r[0] == t[0];
      assert r[|r| - 1] == t[|t| - TrailingSpaces(t) - 1];
    }
  }

  /** Trimming twice changes nothing more. */
  lemma TrimIdempotent(s: string)
    ensures TrimOf(TrimOf(s)) == TrimOf(s)
  {
    var r := TrimOf(s);
    TrimmedEnds(s);
    assert LeadingSpaces(r) == 0;
    assert TrailingSpaces(r) == 0;
  }

  // ---------------------------------------------------------------------------
  // Splitting and joining
  // ---------------------------------------------------------------------------

  /** `sep` occurs in `s` at index `k`. */
  predicate OccursAt(s: string, sep: string, k: int) {
    0 <= k && k + |sep| <= |s| && s[k..k + |sep|] == sep
  }

  /** `s.indexOf(sep)`: the first index where `sep` occurs, or -1. */
  function Find(s: string, sep: string): (r: int)
    requires sep != ""
    ensures r == -1 || OccursAt(s, sep, r)
    ensures forall k :: 0 <= k < (if r == -1 then |s| else r) ==> !OccursAt(s, sep, k)
    decreases |s|
  {
    if |s| < |sep| then
      assert forall k :: 0 <= k < |s| ==> !OccursAt(s, sep, k);
      -1
    else if s[..|sep|] == sep then 0
    else
      var r := Find(s[1..], sep);
      forall k | 1 <= k < (if r == -1 then |s| else r + 1)
        ensures !OccursAt(s, sep, k)
      {
        OccursShift(s, sep, k);
      }
      if r == -1 then -1
      else
        OccursShift(s, sep, r + 1);
        r + 1
  }

  lemma OccursShift(s: string, sep: string, k: nat)
    requires 1 <= k <= |s|
    ensures OccursAt(s, sep, k) <==> OccursAt(s[1..], sep, k - 1)
  {
    if k + |sep| <= |s| {
      assert s[1..][k - 1..k - 1 + |sep|] == s[k..k + |sep|];
    }
  }

  /** `s.split(sep)` for a string separator: the pieces between the leftmost occurrences of `sep`.
      The empty separator splits into single characters, and splits the empty string into nothing. */
  function SplitOn(s: string, sep: string): seq<string>
    decreases |s|
  {
    if sep == "" then seq(|s|, k requires 0 <= k < |s| => [s[k]])
    else
      var k := Find(s, sep);
      if k == -1 then [s] else [s[..k]] + SplitOn(s[k + |sep|..], sep)
  }

  /** `parts.join(connector)`. */
  function JoinWith(parts: seq<string>, connector: string): string {
    if parts == [] then ""
    else if |parts| == 1 then parts[0]
    else parts[0] + connector + JoinWith(parts[1..], connector)
  }

  /** Join: the connector defaults to a single space. */
  function Join(parts: seq<string>, connector: Option<string>): (r: string)
    ensures |r| == TotalLength(parts) + (if parts == [] then 0 else (|parts| - 1) * |connector.GetOr(" ")|)
    ensures var glue := connector.GetOr(" ");
      |glue| == 1 && parts != [] && (forall p :: p in parts ==> glue[0] !in p) ==> SplitOn(r, glue) == parts
  {
    JoinLength(parts, connector.GetOr(" "));
    var glue := connector.GetOr(" ");
    if |glue| == 1 && parts != [] && (forall p :: p in parts ==> glue[0] !in p) then
      assert glue == [glue[0]];
      JoinSplitInverse(parts, glue[0]);
      JoinWith(parts, glue)
    else JoinWith(parts, glue)
  }

  /** The options `Split` reads; the splitter is a string, by default a single space. */
  datatype SplitOptions = SplitOptions(empty: bool, trim: bool, splitter: string)

  const DefaultSplit: SplitOptions := SplitOptions(false, true, " ")

  function TrimAll(pieces: seq<string>): (r: seq<string>)
    ensures |r| == |pieces| && forall k :: 0 <= k < |r| ==> r[k] == TrimOf(pieces[k])
  {
    seq(|pieces|, k requires 0 <= k < |pieces| => TrimOf(pieces[k]))
  }

  /** The pieces that are not empty, in order: only non-empty pieces, every one of them as often as it
      occurs, in their original order. */
  function NonEmpty(pieces: seq<string>): (r: seq<string>)
    ensures forall k :: 0 <= k < |r| ==> r[k] != "" && r[k] in pieces
    ensures forall p :: p != "" ==> multiset(r)[p] == multiset(pieces)[p]
    ensures Subseq(r, pieces)
  {
    if pieces == [] then []
    else
      var rest := NonEmpty(pieces[1..]);
      assert pieces == [pieces[0]] + pieces[1..];
      if pieces[0] != "" then
        assert ([pieces[0]] + rest)[1..] == rest;
        [pieces[0]] + rest
      else
        rest
  }

  /** Split: split on the splitter, trim each piece when asked, then drop the empty ones unless they are wanted. */
  function Split(input: string, opts: SplitOptions): (r: seq<string>)
    ensures opts.empty ==> |r| == |SplitOn(input, opts.splitter)|
    ensures !opts.empty ==> forall k :: 0 <= k < |r| ==> r[k] != ""
    ensures !opts.trim ==> forall k :: 0 <= k < |r| ==> r[k] in SplitOn(input, opts.splitter)
  {
    var pieces := SplitOn(input, opts.splitter);
    var trimmed := if opts.trim then TrimAll(pieces) else pieces;
    if opts.empty then trimmed else NonEmpty(trimmed)
  }

  /** Joining the pieces with the separator gives back the text. */
  lemma {:induction false} JoinSplitOn(s: string, sep: string)
    requires sep != ""
    ensures JoinWith(SplitOn(s, sep), sep) == s
    decreases |s|
  {
    var k := Find(s, sep);
    if k != -1 {
      var rest := s[k + |sep|..];
      JoinSplitOn(rest, sep);
      SplitOnCons(s, sep);
      JoinCons(s[..k], SplitOn(rest, sep), sep);
      SplitAround(s, sep, k);
    }
  }

  lemma SplitOnCons(s: string, sep: string)
    requires sep != "" && Find(s, sep) != -1
    ensures var k := Find(s, sep);
      SplitOn(s, sep) == [s[..k]] + SplitOn(s[k + |sep|..], sep)
  {
  }

  lemma JoinCons(head: string, tail: seq<string>, connector: string)
    requires tail != []
    ensures JoinWith([head] + tail, connector) == head + connector + JoinWith(tail, connector)
  {
    assert ([head] + tail)[1..] == tail;
  }

  lemma SplitAround(s: string, sep: string, k: int)
    requires OccursAt(s, sep, k)
    ensures s == s[..k] + sep + s[k + |sep|..]
  {
    assert s == s[..k] + s[k..k + |sep|] + s[k + |sep|..];
  }

  /** `sep` occurs nowhere in `p`: `p.indexOf(sep)` is -1. */
  predicate Clear(p: string, sep: string)
    requires sep != ""
  {
    Find(p, sep) == -1
  }

  /** No piece contains `sep`. */
  predicate AllClear(pieces: seq<string>, sep: string)
    requires sep != ""
  {
    forall i :: 0 <= i < |pieces| ==> Clear(pieces[i], sep)
  }

  /** No piece contains the separator: each one ends where the next occurrence starts. */
  lemma {:induction false} SplitOnPieces(s: string, sep: string)
    requires sep != ""
    ensures AllClear(SplitOn(s, sep), sep)
    decreases |s|
  {
    var k := Find(s, sep);
    if k == -1 {
      PiecesWhole(s, sep);
    } else {
      SplitOnPieces(s[k + |sep|..], sep);
      PiecesStep(s, sep);
    }
  }

  /** Without an occurrence the text is its only piece, and it is clear. */
  lemma PiecesWhole(s: string, sep: string)
    requires sep != "" && Find(s, sep) == -1
    ensures AllClear(SplitOn(s, sep), sep)
  {
    assert SplitOn(s, sep) == [s];
  }

  /** The piece before the first occurrence is clear, and the rest are the pieces after it. */
  lemma PiecesStep(s: string, sep: string)
    requires sep != "" && Find(s, sep) != -1
    requires AllClear(SplitOn(s[Find(s, sep) + |sep|..], sep), sep)
    ensures AllClear(SplitOn(s, sep), sep)
  {
    var k := Find(s, sep);
    var tail := SplitOn(s[k + |sep|..], sep);
    SplitOnCons(s, sep);
    PiecesSplit(s, sep, k, tail, SplitOn(s, sep));
  }

  /** The piece before the first occurrence is clear, and the rest are the pieces after it. */
  lemma PiecesSplit(s: string, sep: string, k: nat, tail: seq<string>, pieces: seq<string>)
    requires sep != "" && k <= |s| && pieces == [s[..k]] + tail
    requires forall j :: 0 <= j < k ==> !OccursAt(s, sep, j)
    requires AllClear(tail, sep)
    ensures AllClear(pieces, sep)
  {
    NoOccurrencePrefix(s, sep, k);
    PiecesCons(s[..k], tail, pieces, sep);
  }

  /** A clear head before clear pieces gives clear pieces. */
  lemma PiecesCons(head: string, tail: seq<string>, pieces: seq<string>, sep: string)
    requires pieces == [head] + tail
    requires sep != "" && Clear(head, sep) && AllClear(tail, sep)
    ensures AllClear(pieces, sep)
  {
    forall i | 0 <= i < |pieces|
      ensures Clear(pieces[i], sep)
    {
      if i > 0 {
        assert pieces[i] == tail[i - 1];
      }
    }
  }

  /** Before the first occurrence, a prefix of `s` has no occurrence of its own. */
  lemma NoOccurrencePrefix(s: string, sep: string, n: nat)
    requires sep != "" && n <= |s|
    requires forall k :: 0 <= k < n ==> !OccursAt(s, sep, k)
    ensures Clear(s[..n], sep)
  {
    forall k | 0 <= k <= n - |sep|
      ensures !OccursAt(s[..n], sep, k)
    {
      assert !OccursAt(s, sep, k);
      assert s[..n][k..k + |sep|] == s[k..k + |sep|];
    }
    assert Find(s[..n], sep) == -1;
  }

  /** Without trimming and with empty pieces kept, Split is undone by joining on the splitter. */
  lemma SplitJoinRoundTrip(input: string, sep: string)
    requires sep != ""
    ensures JoinWith(Split(input, SplitOptions(true, false, sep)), sep) == input
  {
    JoinSplitOn(input, sep);
  }

  /** Joining with a one-character connector that no part contains is undone by splitting on it. */
  lemma {:induction false} JoinSplitInverse(parts: seq<string>, c: char)
    requires parts != []
    requires forall p :: p in parts ==> c !in p
    ensures SplitOn(JoinWith(parts, [c]), [c]) == parts
    decreases |parts|
  {
    var head := parts[0];
    if |parts| == 1 {
      NoConnector(head, c);
    } else {
      forall p | p in parts[1..]
        ensures c !in p
      {
        assert p in parts;
      }
      JoinSplitInverse(parts[1..], c);
      JoinCons(head, parts[1..], [c]);
      SplitAfterHead(head, c, JoinWith(parts[1..], [c]));
      assert parts == [head] + parts[1..];
    }
  }

  /** Splitting after a head without the connector character gives the head, then the pieces of the rest. */
  lemma SplitAfterHead(head: string, c: char, rest: string)
    requires c !in head
    ensures SplitOn(head + [c] + rest, [c]) == [head] + SplitOn(rest, [c])
  {
    var s := head + [c] + rest;
    FindAfterHead(head, c, rest);
    SplitOnCons(s, [c]);
    assert s[..|head|] == head;
    assert s[|head| + 1..] == rest;
  }

  /** A text without the connector character splits into itself alone. */
  lemma NoConnector(p: string, c: char)
    requires c !in p
    ensures SplitOn(p, [c]) == [p]
  {
    forall k | 0 <= k < |p|
      ensures !OccursAt(p, [c], k)
    {
      assert p[k..k + 1][0] == p[k];
    }
  }

  /** After a head without the connector character, the first connector is the one just after it. */
  lemma FindAfterHead(head: string, c: char, rest: string)
    requires c !in head
    ensures Find(head + [c] + rest, [c]) == |head|
  {
    var s := head + [c] + rest;
    assert s[|head|..|head| + 1] == [c];
    forall k | 0 <= k < |head|
      ensures !OccursAt(s, [c], k)
    {
      assert s[k..k + 1][0] == s[k] == head[k];
    }
    assert OccursAt(s, [c], |head|);
    var r := Find(s, [c]);
    assert r != -1 && !(r < |head|);
  }

  /** The default Split yields only non-empty pieces without white space at either end. */
  lemma SplitPiecesTrimmed(input: string, opts: SplitOptions)
    requires opts.trim && !opts.empty
    ensures forall p :: p in Split(input, opts) ==>
      p != "" && !IsSpace(p[0]) && !IsSpace(p[|p| - 1])
  {
    var pieces := SplitOn(input, opts.splitter);
    forall p | p in Split(input, opts)
      ensures p != "" && !IsSpace(p[0]) && !IsSpace(p[|p| - 1])
    {
      var k :| 0 <= k < |TrimAll(pieces)| && TrimAll(pieces)[k] == p;
      TrimmedEnds(pieces[k]);
    }
  }

  /** The joined text is as long as the parts plus one connector between each two. */
  lemma {:induction false} JoinLength(parts: seq<string>, connector: string)
    ensures |JoinWith(parts, connector)| ==
      TotalLength(parts) + (if parts == [] then 0 else (|parts| - 1) * |connector|)
  {
    if |parts| > 1 {
      JoinLength(parts[1..], connector);
    }
  }

  function TotalLength(parts: seq<string>): nat {
    if parts == [] then 0 else |parts[0]| + TotalLength(parts[1..])
  }
  // ---------------------------------------------------------------------------
  // Bracket segments
  // ---------------------------------------------------------------------------

  /** The bracket alphabet used when none is given: pairs of left and right brackets. */
  const DefaultBrackets: string := "()（）[]［］{}｛｝<>〈〉《》〔〕【】〖〗"

  /** The characters `.` does not match. */
  predicate IsLineTerminator(c: char) {
    c in {'\n', '\r', '\U{2028}', '\U{2029}'}
  }

  /** `bracket.match(/.{2}/g)`: successive pairs of characters, skipping line terminators one at a time. */
  function Pairs(b: string): seq<(char, char)>
    decreases |b|
  {
    if |b| < 2 then []
    else if !IsLineTerminator(b[0]) && !IsLineTerminator(b[1]) then [(b[0], b[1])] + Pairs(b[2..])
    else Pairs(b[1..])
  }

  function Lefts(pairs: seq<(char, char)>): set<char> {
    set k | 0 <= k < |pairs| :: pairs[k].0
  }

  function Rights(pairs: seq<(char, char)>): set<char> {
    set k | 0 <= k < |pairs| :: pairs[k].1
  }

  /** A matched segment `s[start..end]`. */
  datatype Span = Span(start: nat, end: nat)

  /** The first index at or after `from` holding a right bracket, or `|s|`. */
  function FirstRight(s: string, from: nat, right: set<char>): (j: nat)
    requires from <= |s|
    ensures from <= j <= |s| && (j < |s| ==> s[j] in right)
    ensures forall k :: from <= k < j ==> s[k] !in right
    decreases |s| - from
  {
    if from == |s| || s[from] in right then from else FirstRight(s, from + 1, right)
  }

  /** `[left]([^right]+)[right]` matches at `p`: a left bracket, then at least one character
      before the first right bracket after it. */
  predicate MatchStart(s: string, p: nat, left: set<char>, right: set<char>) {
    p + 1 < |s| && s[p] in left && p + 1 < FirstRight(s, p + 1, right) < |s|
  }

  /** What the pattern matches: a left bracket, a non-empty interior with no right bracket, a right bracket. */
  predicate Bracketed(s: string, sp: Span, left: set<char>, right: set<char>) {
    sp.start + 2 < sp.end <= |s| && s[sp.start] in left && s[sp.end - 1] in right &&
    forall k :: sp.start < k < sp.end - 1 ==> s[k] !in right
  }

  /** The global match from `from` on: the leftmost match, then the search goes on after its end. */
  function Scan(s: string, from: nat, left: set<char>, right: set<char>): (r: seq<Span>)
    requires from <= |s|
    ensures forall i :: 0 <= i < |r| ==> from <= r[i].start && Bracketed(s, r[i], left, right)
    ensures forall i :: 0 <= i < |r| - 1 ==> r[i].end <= r[i + 1].start
    decreases |s| - from
  {
    if from == |s| then []
    else if MatchStart(s, from, left, right) then
      var e := FirstRight(s, from + 1, right) + 1;
      var rest := Scan(s, e, left, right);
      assert forall i :: 0 <= i < |rest| ==> e <= rest[i].start;
      [Span(from, e)] + rest
    else Scan(s, from + 1, left, right)
  }

  /** Some span of `spans` contains position `p`. */
  predicate Covers(spans: seq<Span>, p: nat) {
    exists i :: 0 <= i < |spans| && spans[i].start <= p < spans[i].end
  }

  lemma CoversPrepend(sp: Span, rest: seq<Span>, p: nat)
    requires sp.start <= p < sp.end || Covers(rest, p)
    ensures Covers([sp] + rest, p)
  {
    if sp.start <= p < sp.end {
      assert ([sp] + rest)[0] == sp;
    } else {
      var i :| 0 <= i < |rest| && rest[i].start <= p < rest[i].end;
      assert ([sp] + rest)[i + 1] == rest[i];
    }
  }

  /** Every place where the pattern could start lies inside a returned span: nothing is missed. */
  lemma {:induction false} ScanComplete(s: string, from: nat, left: set<char>, right: set<char>, p: nat)
    requires from <= p < |s| && MatchStart(s, p, left, right)
    ensures Covers(Scan(s, from, left, right), p)
    decreases |s| - from
  {
    if MatchStart(s, from, left, right) {
      var e := FirstRight(s, from + 1, right) + 1;
      var rest := Scan(s, e, left, right);
      assert Scan(s, from, left, right) == [Span(from, e)] + rest;
      if e <= p {
        ScanComplete(s, e, left, right, p);
      }
      CoversPrepend(Span(from, e), rest, p);
    } else {
      assert p != from;
      assert Scan(s, from, left, right) == Scan(s, from + 1, left, right);
      ScanComplete(s, from + 1, left, right, p);
    }
  }

  /** Every returned span starts where a match can start and ends where that match ends. */
  lemma {:induction false} ScanLeftmost(s: string, from: nat, left: set<char>, right: set<char>)
    requires from <= |s|
    ensures forall sp :: sp in Scan(s, from, left, right) ==>
      MatchStart(s, sp.start, left, right) && sp.end == FirstRight(s, sp.start + 1, right) + 1
    decreases |s| - from
  {
    if from < |s| {
      if MatchStart(s, from, left, right) {
        ScanLeftmost(s, FirstRight(s, from + 1, right) + 1, left, right);
      } else {
        ScanLeftmost(s, from + 1, left, right);
      }
    }
  }

  /** The options `GetBracket` reads. */
  datatype BracketOptions = BracketOptions(bracket: Option<string>, bracketRemove: bool)

  /** The text of a span, without its brackets when `bracketRemove` is set. */
  function SegmentText(s: string, sp: Span, bracketRemove: bool): string
    requires sp.start + 2 < sp.end <= |s|
  {
    if bracketRemove then s[sp.start + 1..sp.end - 1] else s[sp.start..sp.end]
  }

  /** GetBracket: the bracket segments of `input`, left to right; no alphabet of two characters gives none,
      and an alphabet with no two adjacent characters other than line terminators throws. */
  function GetBracket(input: string, opts: BracketOptions): (r: Result<seq<string>, string>)
    ensures |opts.bracket.GetOr(DefaultBrackets)| < 2 ==> r == Ok([])
    ensures r.Err? <==> |opts.bracket.GetOr(DefaultBrackets)| >= 2 && Pairs(opts.bracket.GetOr(DefaultBrackets)) == []
    ensures r.Err? ==> r.error == TypeError
  {
    var b := opts.bracket.GetOr(DefaultBrackets);
    if |b| < 2 then Ok([])
    else
      var pairs := Pairs(b);
      if pairs == [] then Err(TypeError)
      else
        var spans := Scan(input, 0, Lefts(pairs), Rights(pairs));
        Ok(seq(|spans|, k requires 0 <= k < |spans| => SegmentText(input, spans[k], opts.bracketRemove)))
  }

  /** Each segment GetBracket returns is a bracketed stretch of the input, or its interior when the
      brackets are removed; the stretches come left to right without overlapping. */
  lemma GetBracketSegments(input: string, opts: BracketOptions)
    requires GetBracket(input, opts).Ok?
    ensures var b := opts.bracket.GetOr(DefaultBrackets);
      |b| >= 2 ==>
        var pairs := Pairs(b);
        var spans := Scan(input, 0, Lefts(pairs), Rights(pairs));
        var segments := GetBracket(input, opts).value;
        |segments| == |spans| &&
        (forall k :: 0 <= k < |spans| ==>
           Bracketed(input, spans[k], Lefts(pairs), Rights(pairs)) &&
           segments[k] == (if opts.bracketRemove then input[spans[k].start + 1..spans[k].end - 1]
                           else input[spans[k].start..spans[k].end])) &&
        (forall k :: 0 <= k < |spans| - 1 ==> spans[k].end <= spans[k + 1].start)
  {
  }

  /** A missing or too short alphabet gives no segments at all. */
  lemma GetBracketShortAlphabet(input: string, b: string, bracketRemove: bool)
    requires |b| < 2
    ensures GetBracket(input, BracketOptions(Some(b), bracketRemove)) == Ok([])
  {
  }

  /** Without line terminators, the alphabet is read two characters at a time: left, then right. */
  lemma {:induction false} PairsPlain(b: string)
    requires forall k :: 0 <= k < |b| ==> !IsLineTerminator(b[k])
    ensures |Pairs(b)| == |b| / 2
    ensures forall i :: 0 <= i < |b| / 2 ==> Pairs(b)[i] == (b[2 * i], b[2 * i + 1])
    decreases |b|
  {
    if |b| >= 2 {
      PairsPlain(b[2..]);
      forall i | 1 <= i < |b| / 2
        ensures Pairs(b)[i] == (b[2 * i], b[2 * i + 1])
      {
        assert Pairs(b)[i] == Pairs(b[2..])[i - 1];
        assert b[2..][2 * (i - 1)] == b[2 * i];
      }
    }
  }
}
