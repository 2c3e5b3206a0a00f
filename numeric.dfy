/** Roman numerals: the greedy encoder `ArabicToRoman` and the token-removing
    decoder `RomanToArabic` of src/numeric.ts, over integers. */
module Numeric {

  /** A row of the symbol table. */
  type Row = j: nat | j < 13

  /** The symbols in the order the encoder tries them, largest value first. */
  const Symbols: seq<string> := ["M", "CM", "D", "CD", "C", "XC", "L", "XL", "X", "IX", "V", "IV", "I"]

  /** `Values[j]` is the value of `Symbols[j]`. */
  const Values: seq<nat> := [1000, 900, 500, 400, 100, 90, 50, 40, 10, 9, 5, 4, 1]

  /** The rows in the order the decoder removes them: CM, M, CD, D, XC, C, XL, L, IX, X, IV, V, I. */
  const RemovalOrder: seq<Row> := [1, 0, 3, 2, 5, 4, 7, 6, 9, 8, 11, 10, 12]

  /** The letters a Roman numeral is written with. */
  const Letters: string := "MDCLXVI"

  // ---------------------------------------------------------------------------
  // Encoding
  // ---------------------------------------------------------------------------

  /** The rows the greedy decomposition of `n` emits when it starts at row `j`. */
  function GreedyTokens(n: nat, j: nat): seq<Row>
    requires j <= 13
    decreases 13 - j, n
  {
    if j == 13 then []
    else if n >= Values[j] then [j as Row] + GreedyTokens(n - Values[j], j)
    else GreedyTokens(n, j + 1)
  }

  /** The text of a sequence of rows. */
  function Spell(ts: seq<Row>): string {
    if ts == [] then "" else Symbols[ts[0]] + Spell(ts[1..])
  }

  /** The sum of the values of a sequence of rows. */
  function Total(ts: seq<Row>): nat {
    if ts == [] then 0 else Values[ts[0]] + Total(ts[1..])
  }

  lemma {:induction false} SpellAppend(ts: seq<Row>, t: Row)
    ensures Spell(ts + [t]) == Spell(ts) + Symbols[t]
    ensures Total(ts + [t]) == Total(ts) + Values[t]
  {
    if ts != [] {
      assert (ts + [t])[1..] == ts[1..] + [t];
      SpellAppend(ts[1..], t);
    }
  }

  lemma EmitStep(emitted: seq<Row>, rest: nat, i: Row)
    requires rest >= Values[i]
    ensures emitted + GreedyTokens(rest, i) == (emitted + [i]) + GreedyTokens(rest - Values[i], i)
    ensures Spell(emitted + [i]) == Spell(emitted) + Symbols[i]
    ensures Total(emitted + [i]) == Total(emitted) + Values[i]
  {
    SpellAppend(emitted, i);
    assert GreedyTokens(rest, i) == [i] + GreedyTokens(rest - Values[i], i);
  }

  /** ArabicToRoman over an integer input: nothing outside 1..3999, otherwise the
      greedy decomposition over the symbol table. */
  method ArabicToRoman(input: int) returns (result: string)
    ensures 0 < input < 4000 ==> result == Spell(GreedyTokens(input, 0))
    ensures !(0 < input < 4000) ==> result == ""
  {
    result := "";
    if input < 4000 && input > 0 {
      var rest: nat := input;
      ghost var emitted: seq<Row> := [];
      for i := 0 to 13
        invariant emitted + GreedyTokens(rest, i) == GreedyTokens(input, 0)
        invariant result == Spell(emitted)
        invariant Total(emitted) + rest == input
        invariant i > 0 ==> rest < Values[i - 1]
      {
        while rest >= Values[i]
          invariant emitted + GreedyTokens(rest, i) == GreedyTokens(input, 0)
          invariant result == Spell(emitted)
          invariant Total(emitted) + rest == input
          invariant i > 0 ==> rest < Values[i - 1]
        {
          EmitStep(emitted, rest, i);
          result := result + Symbols[i];
          rest := rest - Values[i];
          emitted := emitted + [i];
        }
      }
      // the remainder has reached 0: the emitted symbols add up to the input
      assert rest == 0 && Total(emitted) == input;
      assert GreedyTokens(rest, 13) == [] && emitted + [] == emitted;
    }
  }

  /** The greedy decomposition accounts for the whole number. */
  lemma {:induction false} GreedyTotal(n: nat, j: nat)
    requires j < 13
    ensures Total(GreedyTokens(n, j)) == n
    decreases 13 - j, n
  {
    if n >= Values[j] {
      GreedyTotal(n - Values[j], j);
    } else if j < 12 {
      GreedyTotal(n, j + 1);
    }
  }

  /** Rows are emitted in table order, so values never increase along the output. */
  lemma {:induction false} GreedyOrdered(n: nat, j: nat)
    requires j <= 13
    ensures forall a :: 0 <= a < |GreedyTokens(n, j)| ==> j <= GreedyTokens(n, j)[a]
    ensures forall a, b :: 0 <= a < b < |GreedyTokens(n, j)| ==>
              GreedyTokens(n, j)[a] <= GreedyTokens(n, j)[b] &&
              Values[GreedyTokens(n, j)[a]] >= Values[GreedyTokens(n, j)[b]]
    decreases 13 - j, n
  {
    if j < 13 {
      if n >= Values[j] {
        GreedyOrdered(n - Values[j], j);
      } else {
        GreedyOrdered(n, j + 1);
      }
    }
  }

  /** Every character of a spelled numeral is one of the letters MDCLXVI. */
  lemma {:induction false} SpellLetters(ts: seq<Row>)
    ensures forall c :: c in Spell(ts) ==> c in Letters
  {
    if ts != [] {
      SpellLetters(ts[1..]);
    }
  }

  // ---------------------------------------------------------------------------
  // Decoding
  // ---------------------------------------------------------------------------

  /** The case folding of a case-insensitive regular expression on ASCII letters. */
  function Upper(c: char): char {
    if 'a' <= c <= 'z' then (c as int - 32) as char else c
  }

  function UpperString(s: string): (r: string)
    ensures |r| == |s|
  {
    if s == [] then [] else [Upper(s[0])] + UpperString(s[1..])
  }

  /** The number of occurrences replaced and the text that is left. */
  datatype Removal = Removal(count: nat, rest: string)

  /** Does `sym` occur, case-insensitively, at the start of `s`? */
  predicate StartsWithSymbol(s: string, sym: string)
    requires |sym| == 1 || |sym| == 2
  {
    |s| >= |sym| && Upper(s[0]) == sym[0] && (|sym| == 1 || Upper(s[1]) == sym[1])
  }

  /** Removes every occurrence of `sym`, scanning left to right without overlaps,
      as a global case-insensitive replace by the empty string does. */
  function RemoveAll(s: string, sym: string): (r: Removal)
    requires |sym| == 1 || |sym| == 2
  {
    if s == [] then Removal(0, [])
    else if StartsWithSymbol(s, sym) then
      var r := RemoveAll(s[|sym|..], sym); Removal(r.count + 1, r.rest)
    else
      var r := RemoveAll(s[1..], sym); Removal(r.count, [s[0]] + r.rest)
  }

  /** The value collected by the removal steps from position `k` of the removal order on. */
  function RemovalSum(s: string, k: nat): nat
    requires k <= 13
    decreases 13 - k
  {
    if k == 13 then 0
    else
      var row := RemovalOrder[k];
      var r := RemoveAll(s, Symbols[row]);
      r.count * Values[row] + RemovalSum(r.rest, k + 1)
  }

  /** The number RomanToArabic returns for `s`. */
  function RomanValue(s: string): nat {
    RemovalSum(s, 0)
  }

  /** One removal step: a global case-insensitive replace of `sym` by the empty
      string, counting the occurrences replaced. */
  method ReplaceAllCounting(s: string, sym: string) returns (count: nat, out: string)
    requires |sym| == 1 || |sym| == 2
    ensures Removal(count, out) == RemoveAll(s, sym)
  {
    ghost var whole := RemoveAll(s, sym);
    out := "";
    count := 0;
    var j := 0;
    while j < |s|
      invariant 0 <= j <= |s|
      invariant out + RemoveAll(s[j..], sym).rest == whole.rest
      invariant count + RemoveAll(s[j..], sym).count == whole.count
      decreases |s| - j
    {
      if StartsWithSymbol(s[j..], sym) {
        count := count + 1;
        j := j + |sym|;
      } else {
        out := out + [s[j]];
        j := j + 1;
      }
    }
    assert s[j..] == [];
  }

  /** One step of the removal order, in the terms RomanToArabic uses. */
  lemma RemovalStep(s: string, k: nat, count: nat, out: string)
    requires k < 13
    requires Removal(count, out) == RemoveAll(s, Symbols[RemovalOrder[k]])
    ensures 0 <= count * Values[RemovalOrder[k]]
    ensures RemovalSum(s, k) == count * Values[RemovalOrder[k]] + RemovalSum(out, k + 1)
  {
  }

  /** RomanToArabic: each removal step counts and deletes the occurrences of one symbol. */
  method RomanToArabic(input: string) returns (num: nat)
    ensures num == RomanValue(input)
  {
    num := 0;
    var s := input;
    for k := 0 to 13
      invariant num + RemovalSum(s, k) == RomanValue(input)
    {
      var row := RemovalOrder[k];
      SymbolsAreSymbols(row);
      var count, out := ReplaceAllCounting(s, Symbols[row]);
      RemovalStep(s, k, count, out);
      num := num + count * Values[row];
      s := out;
    }
  }

  // ---------------------------------------------------------------------------
  // Properties of decoding
  // ---------------------------------------------------------------------------

  lemma {:induction false} RemoveAllUpper(s: string, sym: string)
    requires |sym| == 1 || |sym| == 2
    ensures RemoveAll(UpperString(s), sym).count == RemoveAll(s, sym).count
    ensures RemoveAll(UpperString(s), sym).rest == UpperString(RemoveAll(s, sym).rest)
  {
    if s != [] {
      var u := UpperString(s);
      assert u[0] == Upper(s[0]) && Upper(Upper(s[0])) == Upper(s[0]);
      if |s| >= 2 {
        assert u[1] == Upper(s[1]) && Upper(Upper(s[1])) == Upper(s[1]);
      }
      assert StartsWithSymbol(u, sym) == StartsWithSymbol(s, sym);
      if StartsWithSymbol(s, sym) {
        assert u[|sym|..] == UpperString(s[|sym|..]) by { UpperStringDrop(s, |sym|); }
        RemoveAllUpper(s[|sym|..], sym);
      } else {
        assert u[1..] == UpperString(s[1..]);
        RemoveAllUpper(s[1..], sym);
      }
    }
  }

  lemma {:induction false} UpperStringDrop(s: string, n: nat)
    requires n <= |s|
    ensures UpperString(s)[n..] == UpperString(s[n..])
  {
    if n > 0 {
      assert UpperString(s)[1..] == UpperString(s[1..]);
      UpperStringDrop(s[1..], n - 1);
      assert s[1..][n - 1..] == s[n..];
    }
  }

  lemma {:induction false} RemovalSumUpper(s: string, k: nat)
    requires k <= 13
    ensures RemovalSum(UpperString(s), k) == RemovalSum(s, k)
    decreases 13 - k
  {
    if k < 13 {
      var sym := Symbols[RemovalOrder[k]];
      RemoveAllUpper(s, sym);
      RemovalSumUpper(RemoveAll(s, sym).rest, k + 1);
    }
  }

  /** RomanToArabic does not depend on the case of its input. */
  lemma CaseInsensitive(s: string)
    ensures RomanValue(s) == RomanValue(UpperString(s))
  {
    RemovalSumUpper(s, 0);
  }

  /** A text without any Roman letter has no occurrence of any symbol. */
  lemma {:induction false} RemoveAllMisses(s: string, sym: string)
    requires |sym| == 1 || |sym| == 2
    requires sym[0] in Letters
    requires forall c :: c in s ==> Upper(c) !in Letters
    ensures RemoveAll(s, sym) == Removal(0, s)
  {
    if s != [] {
      assert s[0] in s;
      RemoveAllMisses(s[1..], sym);
      assert [s[0]] + s[1..] == s;
    }
  }

  lemma {:induction false} RemovalSumNoLetters(s: string, k: nat)
    requires k <= 13
    requires forall c :: c in s ==> Upper(c) !in Letters
    ensures RemovalSum(s, k) == 0
    decreases 13 - k
  {
    if k < 13 {
      var sym := Symbols[RemovalOrder[k]];
      RemoveAllMisses(s, sym);
      RemovalSumNoLetters(s, k + 1);
    }
  }

  /** Characters that are not Roman letters contribute nothing: in particular the
      empty text is worth 0. */
  lemma NoLettersWorthZero(s: string)
    requires forall c :: c in s ==> Upper(c) !in Letters
    ensures RomanValue(s) == 0
  {
    RemovalSumNoLetters(s, 0);
  }

  // ---------------------------------------------------------------------------
  // Round trip
  // ---------------------------------------------------------------------------

  /** Does `s` hold, in either case, one of the upper-case `letters`? */
  predicate Has(s: string, letters: string) {
    s != [] && (Upper(s[0]) in letters || Has(s[1..], letters))
  }

  /** No letter of `a` forms a two-letter symbol (CM, CD, XC, XL, IX, IV) with a
      letter of `b`, so no occurrence of a symbol in `a + b` straddles the parts. */
  predicate Separated(a: string, b: string) {
    && !(Has(a, "C") && Has(b, "MD"))
    && !(Has(a, "X") && Has(b, "CL"))
    && !(Has(a, "I") && Has(b, "XV"))
  }

  /** The shape of every table symbol: one letter, or one of the two-letter symbols. */
  predicate IsSymbol(sym: string) {
    |sym| == 1 || sym in ["CM", "CD", "XC", "XL", "IX", "IV"]
  }

  lemma {:induction false} HasAppend(a: string, b: string, letters: string)
    ensures Has(a + b, letters) == (Has(a, letters) || Has(b, letters))
  {
    if a == [] {
      assert a + b == b;
    } else {
      assert (a + b)[0] == a[0] && (a + b)[1..] == a[1..] + b;
      HasAppend(a[1..], b, letters);
    }
  }

  lemma {:induction false} HasDrop(a: string, n: nat, letters: string)
    requires n <= |a|
    ensures Has(a[n..], letters) ==> Has(a, letters)
  {
    if n > 0 {
      assert a[1..][n - 1..] == a[n..];
      HasDrop(a[1..], n - 1, letters);
    }
  }

  lemma {:induction false} RemoveAllRest(s: string, sym: string, letters: string)
    requires |sym| == 1 || |sym| == 2
    ensures Has(RemoveAll(s, sym).rest, letters) ==> Has(s, letters)
  {
    if s != [] {
      if StartsWithSymbol(s, sym) {
        RemoveAllRest(s[|sym|..], sym, letters);
        HasDrop(s, |sym|, letters);
      } else {
        RemoveAllRest(s[1..], sym, letters);
        var r := RemoveAll(s[1..], sym).rest;
        assert ([s[0]] + r)[1..] == r;
      }
    }
  }

  lemma SeparatedDrop(a: string, b: string, n: nat)
    requires n <= |a| && Separated(a, b)
    ensures Separated(a[n..], b)
  {
    HasDrop(a, n, "C");
    HasDrop(a, n, "X");
    HasDrop(a, n, "I");
  }

  /** No symbol occurrence at the start of `a + b` reaches into `b`. */
  lemma StartsSame(a: string, b: string, sym: string)
    requires IsSymbol(sym) && Separated(a, b) && a != []
    ensures StartsWithSymbol(a + b, sym) == StartsWithSymbol(a, sym)
  {
    var ab := a + b;
    assert ab[0] == a[0];
    if |a| >= 2 { assert ab[1] == a[1]; }
    if |a| == 1 && |sym| == 2 && b != [] && StartsWithSymbol(ab, sym) {
      assert false;
    }
  }

  lemma DropAppend(a: string, b: string, n: nat)
    requires n <= |a|
    ensures (a + b)[n..] == a[n..] + b
  {
  }

  /** Removal distributes over a concatenation whose parts are separated. */
  lemma {:induction false} RemoveAllSplit(a: string, b: string, sym: string)
    requires IsSymbol(sym)
    requires Separated(a, b)
    ensures RemoveAll(a + b, sym) ==
            Removal(RemoveAll(a, sym).count + RemoveAll(b, sym).count, RemoveAll(a, sym).rest + RemoveAll(b, sym).rest)
    decreases |a|, 1
  {
    if a == [] {
      assert a + b == b;
    } else if StartsWithSymbol(a, sym) {
      RemoveAllSplitMatch(a, b, sym);
    } else {
      RemoveAllSplitSkip(a, b, sym);
    }
  }

  lemma {:induction false} RemoveAllSplitMatch(a: string, b: string, sym: string)
    requires IsSymbol(sym) && Separated(a, b)
    requires a != [] && StartsWithSymbol(a, sym)
    ensures RemoveAll(a + b, sym) ==
            Removal(RemoveAll(a, sym).count + RemoveAll(b, sym).count, RemoveAll(a, sym).rest + RemoveAll(b, sym).rest)
    decreases |a|, 0
  {
    StartsSame(a, b, sym);
    DropAppend(a, b, |sym|);
    SeparatedDrop(a, b, |sym|);
    RemoveAllSplit(a[|sym|..], b, sym);
  }

  lemma {:induction false} RemoveAllSplitSkip(a: string, b: string, sym: string)
    requires IsSymbol(sym) && Separated(a, b)
    requires a != [] && !StartsWithSymbol(a, sym)
    ensures RemoveAll(a + b, sym) ==
            Removal(RemoveAll(a, sym).count + RemoveAll(b, sym).count, RemoveAll(a, sym).rest + RemoveAll(b, sym).rest)
    decreases |a|, 0
  {
    StartsSame(a, b, sym);
    DropAppend(a, b, 1);
    SeparatedDrop(a, b, 1);
    RemoveAllSplit(a[1..], b, sym);
    assert (a + b)[0] == a[0];
  }

  lemma SeparatedRests(a: string, b: string, sym: string)
    requires |sym| == 1 || |sym| == 2
    requires Separated(a, b)
    ensures Separated(RemoveAll(a, sym).rest, RemoveAll(b, sym).rest)
  {
    RemoveAllRest(a, sym, "C");
    RemoveAllRest(a, sym, "X");
    RemoveAllRest(a, sym, "I");
    RemoveAllRest(b, sym, "MD");
    RemoveAllRest(b, sym, "CL");
    RemoveAllRest(b, sym, "XV");
  }

  lemma Distribute(x: nat, y: nat, v: nat)
    ensures (x + y) * v == x * v + y * v
  {
  }

  lemma SymbolsAreSymbols(j: Row)
    ensures |Symbols[j]| == 1 || |Symbols[j]| == 2
    ensures IsSymbol(Symbols[j])
  {
  }

  /** The decoder value is additive over separated parts. */
  lemma {:induction false} RemovalSumSplit(a: string, b: string, k: nat)
    requires k <= 13
    requires Separated(a, b)
    ensures RemovalSum(a + b, k) == RemovalSum(a, k) + RemovalSum(b, k)
    decreases 13 - k, 1
  {
    if k < 13 {
      RemovalSumSplitStep(a, b, k);
    }
  }

  lemma {:induction false} RemovalSumSplitStep(a: string, b: string, k: nat)
    requires k < 13
    requires Separated(a, b)
    ensures RemovalSum(a + b, k) == RemovalSum(a, k) + RemovalSum(b, k)
    decreases 13 - k, 0
  {
    var sym := Symbols[RemovalOrder[k]];
    var ra, rb := RemoveAll(a, sym), RemoveAll(b, sym);
    SplitAtStep(a, b, k);
    RemovalStep(a + b, k, ra.count + rb.count, ra.rest + rb.rest);
    RemovalSumSplit(ra.rest, rb.rest, k + 1);
    RemovalStep(a, k, ra.count, ra.rest);
    RemovalStep(b, k, rb.count, rb.rest);
    var v := Values[RemovalOrder[k]];
    Distribute(ra.count, rb.count, v);
    Regroup(RemovalSum(a + b, k), RemovalSum(a, k), RemovalSum(b, k),
      (ra.count + rb.count) * v, ra.count * v, rb.count * v,
      RemovalSum(ra.rest, k + 1), RemovalSum(rb.rest, k + 1), RemovalSum(ra.rest + rb.rest, k + 1));
  }

  /** The arithmetic of one split step: counts and rests add up separately. */
  lemma Regroup(whole: int, left: int, right: int, pab: int, pa: int, pb: int, sa: int, sb: int, sab: int)
    requires whole == pab + sab && left == pa + sa && right == pb + sb
    requires pab == pa + pb && sab == sa + sb
    ensures whole == left + right
  {
  }

  /** Removal step `k` splits over separated parts and keeps their rests separated. */
  lemma SplitAtStep(a: string, b: string, k: nat)
    requires k < 13
    requires Separated(a, b)
    ensures var sym := Symbols[RemovalOrder[k]];
      RemoveAll(a + b, sym) ==
        Removal(RemoveAll(a, sym).count + RemoveAll(b, sym).count, RemoveAll(a, sym).rest + RemoveAll(b, sym).rest)
    ensures Separated(RemoveAll(a, Symbols[RemovalOrder[k]]).rest, RemoveAll(b, Symbols[RemovalOrder[k]]).rest)
  {
    SymbolsAreSymbols(RemovalOrder[k]);
    RemoveAllSplit(a, b, Symbols[RemovalOrder[k]]);
    SeparatedRests(a, b, Symbols[RemovalOrder[k]]);
  }

  lemma {:induction false} RemovalSumEmpty(k: nat)
    requires k <= 13
    ensures RemovalSum("", k) == 0
    decreases 13 - k
  {
    if k < 13 {
      RemovalSumEmpty(k + 1);
    }
  }

  /** Walks the removal order from `k` to `p`: nothing is removed before `p`, and
      step `p` removes the whole text as one occurrence. */
  lemma {:induction false} RemovalChain(s: string, k: nat, p: nat)
    requires k <= p < 13
    requires forall i :: k <= i < p ==> RemoveAll(s, Symbols[RemovalOrder[i]]) == Removal(0, s)
    requires RemoveAll(s, Symbols[RemovalOrder[p]]) == Removal(1, "")
    ensures RemovalSum(s, k) == Values[RemovalOrder[p]]
    decreases p - k
  {
    if k == p {
      RemovalSumLast(s, p);
    } else {
      RemovalSumSkip(s, k);
      RemovalChain(s, k + 1, p);
    }
  }

  lemma RemovalSumSkip(s: string, k: nat)
    requires k < 13 && RemoveAll(s, Symbols[RemovalOrder[k]]) == Removal(0, s)
    ensures RemovalSum(s, k) == RemovalSum(s, k + 1)
  {
  }

  lemma RemovalSumLast(s: string, p: nat)
    requires p < 13 && RemoveAll(s, Symbols[RemovalOrder[p]]) == Removal(1, "")
    ensures RemovalSum(s, p) == Values[RemovalOrder[p]]
  {
    RemovalSumEmpty(p + 1);
  }

  /** Symbol `sym`, removed at step `p` of the removal order, decodes to its own value. */
  lemma ValueM()
    ensures RomanValue("M") == 1000
  {
    RemovalChain("M", 0, 1);
  }

  lemma ValueCM()
    ensures RomanValue("CM") == 900
  {
    RemovalChain("CM", 0, 0);
  }

  lemma ValueD()
    ensures RomanValue("D") == 500
  {
    RemovalChain("D", 0, 3);
  }

  lemma ValueCD()
    ensures RomanValue("CD") == 400
  {
    RemovalChain("CD", 0, 2);
  }

  lemma ValueC()
    ensures RomanValue("C") == 100
  {
    RemovalChain("C", 0, 5);
  }

  lemma ValueXC()
    ensures RomanValue("XC") == 90
  {
    RemovalChain("XC", 0, 4);
  }

  lemma ValueL()
    ensures RomanValue("L") == 50
  {
    RemovalChain("L", 0, 7);
  }

  lemma ValueXL()
    ensures RomanValue("XL") == 40
  {
    RemovalChain("XL", 0, 6);
  }

  lemma ValueX()
    ensures RomanValue("X") == 10
  {
    RemovalChain("X", 0, 9);
  }

  lemma ValueIX()
    ensures RomanValue("IX") == 9
  {
    RemovalChain("IX", 0, 8);
  }

  lemma ValueV()
    ensures RomanValue("V") == 5
  {
    RemovalChain("V", 0, 11);
  }

  lemma ValueIV()
    ensures RomanValue("IV") == 4
  {
    RemovalChain("IV", 0, 10);
  }

  lemma ValueI()
    ensures RomanValue("I") == 1
  {
    RemovalChain("I", 0, 12);
  }

  /** Each symbol alone decodes to its own value. */
  lemma SymbolValue(j: Row)
    ensures RomanValue(Symbols[j]) == Values[j]
  {
    if j == 0 { ValueM(); }
    else if j == 1 { ValueCM(); }
    else if j == 2 { ValueD(); }
    else if j == 3 { ValueCD(); }
    else if j == 4 { ValueC(); }
    else if j == 5 { ValueXC(); }
    else if j == 6 { ValueL(); }
    else if j == 7 { ValueXL(); }
    else if j == 8 { ValueX(); }
    else if j == 9 { ValueIX(); }
    else if j == 10 { ValueV(); }
    else if j == 11 { ValueIV(); }
    else { ValueI(); }
  }

  /** How much the greedy encoder can still emit after emitting row `j`. */
  function Gap(j: Row): nat {
    if j == 0 then 4000 else Values[j - 1] - Values[j]
  }

  /** Letters that end a two-letter symbol only occur in symbols of large enough value. */
  lemma RowLetters(i: Row)
    ensures Has(Symbols[i], "MD") ==> Values[i] >= 400
    ensures Has(Symbols[i], "CL") ==> Values[i] >= 40
    ensures Has(Symbols[i], "XV") ==> Values[i] >= 4
  {
  }

  /** Letters that start a two-letter symbol only occur in symbols followed by little. */
  lemma HeadLetters(j: Row)
    ensures Has(Symbols[j], "C") ==> j > 0 && Gap(j) <= 400
    ensures Has(Symbols[j], "X") ==> j > 0 && Gap(j) <= 40
    ensures Has(Symbols[j], "I") ==> j > 0 && Gap(j) <= 4
  {
  }

  /** What the greedy encoder emits from remainder `m` contains a letter that ends a
      two-letter symbol only when `m` is large enough for it. */
  lemma {:induction false} GreedyLetters(m: nat, i: nat)
    requires i <= 13
    ensures Has(Spell(GreedyTokens(m, i)), "MD") ==> m >= 400
    ensures Has(Spell(GreedyTokens(m, i)), "CL") ==> m >= 40
    ensures Has(Spell(GreedyTokens(m, i)), "XV") ==> m >= 4
    decreases 13 - i, m
  {
    if i < 13 {
      if m >= Values[i] {
        var rest := Spell(GreedyTokens(m - Values[i], i));
        assert Spell(GreedyTokens(m, i)) == Symbols[i] + rest;
        GreedyLetters(m - Values[i], i);
        RowLetters(i);
        HasAppend(Symbols[i], rest, "MD");
        HasAppend(Symbols[i], rest, "CL");
        HasAppend(Symbols[i], rest, "XV");
      } else {
        GreedyLetters(m, i + 1);
      }
    }
  }

  /** A symbol is separated from whatever the encoder emits after it. */
  lemma SpellSeparated(j: Row, m: nat)
    requires j == 0 || m < Gap(j)
    ensures Separated(Symbols[j], Spell(GreedyTokens(m, j)))
  {
    GreedyLetters(m, j);
    HeadLetters(j);
  }

  /** Decoding what the encoder emits from remainder `m` at row `j` gives back the
      value of the emitted tokens. */
  lemma {:induction false} RoundTripFrom(m: nat, j: nat)
    requires j <= 13
    requires j == 0 || m < Values[j - 1]
    ensures RomanValue(Spell(GreedyTokens(m, j))) == Total(GreedyTokens(m, j))
    decreases 13 - j, m, 1
  {
    if j == 13 {
      RemovalSumEmpty(0);
    } else if m >= Values[j] {
      RoundTripEmit(m, j);
    } else {
      RoundTripFrom(m, j + 1);
    }
  }

  lemma {:induction false} RoundTripEmit(m: nat, j: Row)
    requires j == 0 || m < Values[j - 1]
    requires m >= Values[j]
    ensures RomanValue(Spell(GreedyTokens(m, j))) == Total(GreedyTokens(m, j))
    decreases 13 - j, m, 0
  {
    var rest := GreedyTokens(m - Values[j], j);
    EmitSplit(m, j);
    RoundTripFrom(m - Values[j], j);
    TotalEmit(m, j);
  }

  lemma TotalEmit(m: nat, j: Row)
    requires m >= Values[j]
    ensures Total(GreedyTokens(m, j)) == Values[j] + Total(GreedyTokens(m - Values[j], j))
  {
    assert GreedyTokens(m, j) == [j] + GreedyTokens(m - Values[j], j);
  }

  /** The text emitted for row `j` decodes separately from the text that follows it. */
  lemma EmitSplit(m: nat, j: Row)
    requires j == 0 || m < Values[j - 1]
    requires m >= Values[j]
    ensures RomanValue(Spell(GreedyTokens(m, j)))
         == Values[j] + RomanValue(Spell(GreedyTokens(m - Values[j], j)))
  {
    var rest := GreedyTokens(m - Values[j], j);
    assert Spell(GreedyTokens(m, j)) == Symbols[j] + Spell(rest);
    SpellSeparated(j, m - Values[j]);
    RemovalSumSplit(Symbols[j], Spell(rest), 0);
    SymbolValue(j);
  }

  /** RomanToArabic undoes ArabicToRoman on 1..3999. */
  lemma RoundTrip(n: nat)
    requires 0 < n < 4000
    ensures RomanValue(Spell(GreedyTokens(n, 0))) == n
  {
    RoundTripFrom(n, 0);
    GreedyTotal(n, 0);
  }
}
