/** Scrapping: noise removal, a pass of every extractor over each bracketed segment, the optional
    fallback extractors, and a pass of every extractor over the whole text. */
module Scrapping {
  import opened Wrappers
  import opened Text
  import opened Subsequence
  import opened ScrapTypes
  import opened Scan
  import opened Merge
  import opened Normalize

  const Unspecified: string := "Unspecified scraping source"

  /** `scrapRemains`: absent or false, `true` (both fallbacks), or an object naming the ones wanted. */
  datatype Remains = NoRemains | AllRemains | SomeRemains(bracket: bool, number: bool)

  /** The options Scrapping reads. `remove` holds the noise patterns: a single pattern is a list of one,
      and an empty string (which is falsy) is the empty list. */
  datatype Options = Options(scrapSource: Option<seq<(string, Decl)>>, remove: seq<Pattern>,
                             escapeRegexp: bool, regexpGlobal: Option<bool>, regexpInsensitive: Option<bool>,
                             bracket: BracketOptions, scrapRemains: Remains)

  // ---------------------------------------------------------------------------
  // Replacing with a plain string
  // ---------------------------------------------------------------------------

  /** Which of `len` matches `replace` with a plain string rewrites: all of them for a global
      expression, only the first otherwise. */
  function Leading(len: nat, global: bool): (vs: seq<bool>)
    ensures |vs| == len
    ensures forall j :: 0 <= j < len ==> (vs[j] <==> global || j == 0)
  {
    seq(len, j => global || j == 0)
  }

  /** `text.replace(regex, rep)` with a plain replacement string, given the matches of `regex` in `text`. */
  function ReplaceMatches(text: string, cands: seq<Cand>, global: bool, rep: string): string
    requires WellFormed(text, cands)
  {
    Replaced(text, cands, Outs(cands, Leading(|cands|, global), rep))
  }

  /** Replacing matches by nothing leaves a subsequence of the text; without matches nothing changes. */
  lemma ReplaceMatchesErases(text: string, cands: seq<Cand>, global: bool)
    requires WellFormed(text, cands)
    ensures Subseq(ReplaceMatches(text, cands, global, ""), text)
    ensures cands == [] ==> ReplaceMatches(text, cands, global, "") == text
  {
    ErasedWhole(text, cands, Leading(|cands|, global));
    if cands == [] {
      NothingAccepted(text, cands, [], "");
    }
  }

  /** `s.replace(pat, rep)` with a string pattern: the first occurrence of `pat` replaced by `rep`, the
      text unchanged when `pat` does not occur; the empty pattern occurs at the start. */
  function ReplaceFirst(s: string, pat: string, rep: string): string {
    if pat == "" then rep + s
    else
      var k := Find(s, pat);
      if k == -1 then s else s[..k] + rep + s[k + |pat|..]
  }

  /** Replacing an occurrence by a subsequence of it leaves a subsequence of the text. */
  lemma ReplaceFirstSubseq(s: string, pat: string, rep: string)
    requires Subseq(rep, pat)
    ensures Subseq(ReplaceFirst(s, pat, rep), s)
  {
    if pat == "" {
      SubseqLength(rep, pat);
      assert rep + s == s;
      SubseqRefl(s);
    } else {
      var k := Find(s, pat);
      if k == -1 {
        SubseqRefl(s);
      } else {
        assert s[..k] + pat + s[k + |pat|..] == s;
        SpliceSubseq(s[..k], rep, pat, s[k + |pat|..]);
      }
    }
  }

  lemma SpliceSubseq(pre: string, rep: string, pat: string, post: string)
    requires Subseq(rep, pat)
    ensures Subseq(pre + rep + post, pre + pat + post)
  {
    SubseqRefl(pre);
    SubseqRefl(post);
    SubseqAppend(pre, pre, rep, pat);
    SubseqAppend(pre + rep, pre + pat, post, post);
  }

  /** Replacing the first occurrence of a string by itself changes nothing, and a string that does not
      occur is not replaced. */
  lemma ReplaceFirstKeeps(s: string, pat: string, rep: string)
    requires pat != ""
    ensures ReplaceFirst(s, pat, pat) == s
    ensures (forall k :: 0 <= k <= |s| - |pat| ==> !OccursAt(s, pat, k)) ==> ReplaceFirst(s, pat, rep) == s
  {
    var k := Find(s, pat);
    if k != -1 {
      assert s[..k] + pat + s[k + |pat|..] == s;
    }
  }

  // ---------------------------------------------------------------------------
  // Remove
  // ---------------------------------------------------------------------------

  /** One noise pattern, compiled with the caller's options, replaced by nothing: every match when the
      expression is global, otherwise the first. */
  function RemoveOne(text: string, p: Pattern, escapeRegexp: bool, global: bool, insensitive: bool, engine: Engine): string
    requires EngineSound(engine)
  {
    var r := BuildRegex(p, escapeRegexp, global, insensitive);
    ReplaceMatches(text, engine(r, text), IsGlobal(r), "")
  }

  /** The text once the first `n` noise patterns are removed, in order. */
  function Removed(input: string, remove: seq<Pattern>, n: nat, escapeRegexp: bool, global: bool, insensitive: bool,
                   engine: Engine): string
    requires n <= |remove| && EngineSound(engine)
  {
    if n == 0 then input
    else RemoveOne(Removed(input, remove, n - 1, escapeRegexp, global, insensitive, engine), remove[n - 1],
                   escapeRegexp, global, insensitive, engine)
  }

  /** Remove: each noise pattern in turn replaced by nothing (RemovedSubseq: what is left is a deletion
      from the input). */
  method Remove(input: string, remove: seq<Pattern>, escapeRegexp: bool, global: bool, insensitive: bool, engine: Engine)
    returns (output: string)
    requires EngineSound(engine)
    ensures output == Removed(input, remove, |remove|, escapeRegexp, global, insensitive, engine)
  {
    output := input;
    for i := 0 to |remove|
      invariant output == Removed(input, remove, i, escapeRegexp, global, insensitive, engine)
    {
      output := RemoveOne(output, remove[i], escapeRegexp, global, insensitive, engine);
    }
  }

  /** Removing noise patterns only deletes characters. */
  lemma {:induction false} RemovedSubseq(input: string, remove: seq<Pattern>, n: nat, escapeRegexp: bool, global: bool,
                                         insensitive: bool, engine: Engine)
    requires n <= |remove| && EngineSound(engine)
    ensures Subseq(Removed(input, remove, n, escapeRegexp, global, insensitive, engine), input)
  {
    if n == 0 {
      SubseqRefl(input);
    } else {
      var text := Removed(input, remove, n - 1, escapeRegexp, global, insensitive, engine);
      RemovedSubseq(input, remove, n - 1, escapeRegexp, global, insensitive, engine);
      RemoveStep(text, input, remove[n - 1], escapeRegexp, global, insensitive, engine);
    }
  }

  /** Removing one more pattern keeps a subsequence of the input. */
  lemma RemoveStep(text: string, input: string, p: Pattern, escapeRegexp: bool, global: bool, insensitive: bool,
                   engine: Engine)
    requires EngineSound(engine) && Subseq(text, input)
    ensures Subseq(RemoveOne(text, p, escapeRegexp, global, insensitive, engine), input)
  {
    var r := BuildRegex(p, escapeRegexp, global, insensitive);
    ReplaceMatchesErases(text, engine(r, text), IsGlobal(r));
    SubseqTrans(RemoveOne(text, p, escapeRegexp, global, insensitive, engine), text, input);
  }

  /** A pattern that matches nowhere removes nothing. */
  lemma RemoveNothing(input: string, p: Pattern, escapeRegexp: bool, global: bool, insensitive: bool, engine: Engine)
    requires EngineSound(engine)
    requires engine(BuildRegex(p, escapeRegexp, global, insensitive), input) == []
    ensures Removed(input, [p], 1, escapeRegexp, global, insensitive, engine) == input
  {
    var r := BuildRegex(p, escapeRegexp, global, insensitive);
    ReplaceMatchesErases(input, engine(r, input), IsGlobal(r));
  }

  // ---------------------------------------------------------------------------
  // Collected data
  // ---------------------------------------------------------------------------

  /** Every string collected under every field is a subsequence of `text`. */
  predicate DataWithin(data: map<string, FieldValue>, text: string) {
    forall f :: f in data ==> Within(data[f], text)
  }

  /** The fields a list of extractors writes to. */
  function FieldNames(scs: seq<Scrapper>): set<string> {
    set i | 0 <= i < |scs| :: scs[i].field
  }

  /** The fields a declaration names. */
  function Declared(src: seq<(string, Decl)>): set<string> {
    set k | 0 <= k < |src| :: src[k].0
  }

  /** What is a subsequence of a text is a subsequence of anything the text is a subsequence of. */
  lemma WithinMono(v: FieldValue, a: string, b: string)
    requires Within(v, a) && Subseq(a, b)
    ensures Within(v, b)
  {
    match v
    case List(items) =>
      forall i | 0 <= i < |items|
        ensures Subseq(items[i], b)
      {
        SubseqTrans(items[i], a, b);
      }
    case Keyed(entries) =>
      forall k, i | k in entries && 0 <= i < |entries[k]|
        ensures Subseq(entries[k][i], b)
      {
        SubseqTrans(entries[k][i], a, b);
      }
  }

  /** `result.data[field] = _merge(result.data[field], value)`. */
  method Absorb(data: map<string, FieldValue>, field: string, value: FieldValue) returns (out: map<string, FieldValue>)
    ensures out == data[field := Merged(if field in data then Some(data[field]) else None, value)]
  {
    var merged := MergeValue(if field in data then Some(data[field]) else None, value);
    out := data[field := merged];
  }

  /** Merging a value drawn from a text into data drawn from it keeps the data drawn from it, and adds
      only the merged field. */
  lemma AbsorbWithin(data: map<string, FieldValue>, field: string, value: FieldValue, text: string)
    requires DataWithin(data, text) && Within(value, text)
    ensures var out := data[field := Merged(if field in data then Some(data[field]) else None, value)];
      DataWithin(out, text) && out.Keys == data.Keys + {field}
  {
    WithinMerge(if field in data then Some(data[field]) else None, value, text);
  }

  // ---------------------------------------------------------------------------
  // The two passes
  // ---------------------------------------------------------------------------

  /** What one extractor does to a pass's state: it hits when scrap accepts a match of the clean text;
      then the clean text loses the accepted matches, the data merges them into the extractor's field,
      and the annotated text gets placeholders (for the matches scrap accepts on it in the whole-text
      pass, for every match of the expression in a bracket segment). */
  ghost predicate StepOutcome(clean: string, final: string, sc: Scrapper, data: map<string, FieldValue>, engine: Engine,
                              whole: bool, found: bool, clean': string, final': string, data': map<string, FieldValue>)
    requires EngineSound(engine)
  {
    var cands := engine(sc.regex, clean);
    var vs := Verdicts(clean, sc, cands, |cands|);
    (found <==> Accepted(cands, vs) != []) &&
    (found ==> clean' == Replaced(clean, cands, Outs(cands, vs, "")) &&
               data' == data[sc.field := Merged(if sc.field in data then Some(data[sc.field]) else None,
                                                Collected(sc, Accepted(cands, vs)))]) &&
    (found && whole ==> var marks := engine(sc.regex, final);
      final' == Replaced(final, marks, Outs(marks, Verdicts(final, sc, marks, |marks|), Placeholder(sc)))) &&
    (found && !whole ==> final' == ReplaceMatches(final, engine(sc.regex, final), IsGlobal(sc.regex), Placeholder(sc)))
  }

  /** One extractor applied during a pass: when scrap accepts something, the erased text replaces the
      clean text, the matches are merged into the data, and the annotated text gets its placeholders. */
  method ScrapStep(clean: string, final: string, sc: Scrapper, data: map<string, FieldValue>, engine: Engine, whole: bool)
    returns (found: bool, clean': string, final': string, data': map<string, FieldValue>)
    requires EngineSound(engine)
    ensures !found ==> clean' == clean && final' == final && data' == data
    ensures StepOutcome(clean, final, sc, data, engine, whole, found, clean', final', data')
  {
    var cands := engine(sc.regex, clean);
    var res := Scrap(clean, sc, cands);
    if res.None? {
      return false, clean, final, data;
    }
    var vs := Verdicts(clean, sc, cands, |cands|);
    var value := res.value.data[sc.field];
    assert value == Collected(sc, Accepted(cands, vs));
    data' := Absorb(data, sc.field, value);
    clean' := res.value.raw.clean;
    if whole {
      final' := Annotate(final, sc, engine);
    } else {
      final' := Mark(final, sc, engine);
    }
    found := true;
  }

  /** One step of a pass keeps the pass's invariants: the clean text only loses characters, the data
      stays drawn from the text, and only the extractor's field is added. */
  method PassStep(clean: string, final: string, sc: Scrapper, data: map<string, FieldValue>, engine: Engine,
                  whole: bool, ghost text: string)
    returns (clean': string, final': string, data': map<string, FieldValue>)
    requires EngineSound(engine)
    requires Subseq(clean, text) && DataWithin(data, text)
    ensures Subseq(clean', clean) && DataWithin(data', text)
    ensures data'.Keys <= data.Keys + {sc.field}
  {
    var found;
    found, clean', final', data' := ScrapStep(clean, final, sc, data, engine, whole);
    StepKeeps(clean, final, sc, data, engine, whole, found, clean', final', data', text);
  }

  /** What a step leaves keeps the invariants of what it was given. */
  lemma StepKeeps(clean: string, final: string, sc: Scrapper, data: map<string, FieldValue>, engine: Engine,
                  whole: bool, found: bool, clean': string, final': string, data': map<string, FieldValue>, text: string)
    requires EngineSound(engine)
    requires Subseq(clean, text) && DataWithin(data, text)
    requires !found ==> clean' == clean && data' == data
    requires StepOutcome(clean, final, sc, data, engine, whole, found, clean', final', data')
    ensures Subseq(clean', clean) && DataWithin(data', text)
    ensures data'.Keys <= data.Keys + {sc.field}
  {
    var cands := engine(sc.regex, clean);
    ScrapSubseq(clean, sc, cands);
    if found {
      var vs := Verdicts(clean, sc, cands, |cands|);
      var value := Collected(sc, Accepted(cands, vs));
      WithinMono(value, clean, text);
      AbsorbWithin(data, sc.field, value, text);
    } else {
      SubseqRefl(clean);
    }
  }

  /** The pass over one bracketed segment: every extractor scraps the segment's clean text; the
      segment's annotated text gets a placeholder for what the extractor's expression matches. */
  method ScrapPart(part: string, scrappers: seq<Scrapper>, data: map<string, FieldValue>, engine: Engine, ghost text: string)
    returns (clean: string, final: string, out: map<string, FieldValue>)
    requires EngineSound(engine)
    requires Subseq(part, text) && DataWithin(data, text)
    ensures Subseq(clean, part) && DataWithin(out, text)
    ensures out.Keys <= data.Keys + FieldNames(scrappers)
  {
    clean, final, out := part, part, data;
    SubseqRefl(part);
    for i := 0 to |scrappers|
      invariant Subseq(clean, part) && DataWithin(out, text)
      invariant out.Keys <= data.Keys + FieldNames(scrappers[..i])
    {
      var sc := scrappers[i];
      FieldNamesStep(scrappers, i);
      SubseqTrans(clean, part, text);
      var clean', final', out' := PassStep(clean, final, sc, out, engine, false, text);
      SubseqTrans(clean', clean, part);
      clean, final, out := clean', final', out';
    }
    assert scrappers[..|scrappers|] == scrappers;
  }

  lemma FieldNamesStep(scrappers: seq<Scrapper>, i: nat)
    requires i < |scrappers|
    ensures FieldNames(scrappers[..i + 1]) == FieldNames(scrappers[..i]) + {scrappers[i].field}
  {
    assert forall j :: 0 <= j < i ==> scrappers[..i + 1][j] == scrappers[..i][j];
    assert scrappers[..i + 1][i] == scrappers[i];
  }

  /** `final.replace(sc.regex, placeholder)`: the segment's annotated text with a placeholder for every
      match of the extractor's expression (the first only when it is not global), accepted or not. */
  method Mark(final: string, sc: Scrapper, engine: Engine) returns (marked: string)
    requires EngineSound(engine)
    ensures marked == ReplaceMatches(final, engine(sc.regex, final), IsGlobal(sc.regex), Placeholder(sc))
  {
    marked := ReplaceMatches(final, engine(sc.regex, final), IsGlobal(sc.regex), Placeholder(sc));
  }

  /** `replaceCheck(result.final, sc, true).final`: a placeholder for every match scrap accepts. */
  method Annotate(final: string, sc: Scrapper, engine: Engine) returns (annotated: string)
    requires EngineSound(engine)
    ensures var cands := engine(sc.regex, final);
      annotated == Replaced(final, cands, Outs(cands, Verdicts(final, sc, cands, |cands|), Placeholder(sc)))
  {
    var matches;
    annotated, matches := ReplaceCheck(final, sc, engine(sc.regex, final), true);
  }

  /** The bracket-segment pass: each segment scrapped on its own, then written back over the first
      occurrence of the segment in the clean and the annotated text. */
  method BracketPass(text: string, parts: seq<string>, scrappers: seq<Scrapper>, engine: Engine)
    returns (clean: string, final: string, data: map<string, FieldValue>)
    requires EngineSound(engine)
    requires forall k :: 0 <= k < |parts| ==> Subseq(parts[k], text)
    ensures Subseq(clean, text) && DataWithin(data, text)
    ensures data.Keys <= FieldNames(scrappers)
  {
    clean, final, data := text, text, map[];
    SubseqRefl(text);
    for i := 0 to |parts|
      invariant Subseq(clean, text) && DataWithin(data, text)
      invariant data.Keys <= FieldNames(scrappers)
    {
      var part := parts[i];
      var partClean, partFinal, out := ScrapPart(part, scrappers, data, engine, text);
      ReplaceFirstSubseq(clean, part, partClean);
      SubseqTrans(ReplaceFirst(clean, part, partClean), clean, text);
      clean := ReplaceFirst(clean, part, partClean);
      final := ReplaceFirst(final, part, partFinal);
      data := out;
    }
  }

  /** The whole-text pass: every extractor scraps the clean text, and the annotated text gets a
      placeholder for each match replaceCheck accepts there. */
  method WholePass(clean0: string, final0: string, scrappers: seq<Scrapper>, data0: map<string, FieldValue>,
                   engine: Engine, ghost text: string)
    returns (clean: string, final: string, data: map<string, FieldValue>)
    requires EngineSound(engine)
    requires Subseq(clean0, text) && DataWithin(data0, text)
    ensures Subseq(clean, clean0) && DataWithin(data, text)
    ensures data.Keys <= data0.Keys + FieldNames(scrappers)
  {
    clean, final, data := clean0, final0, data0;
    SubseqRefl(clean0);
    for i := 0 to |scrappers|
      invariant Subseq(clean, clean0) && DataWithin(data, text)
      invariant data.Keys <= data0.Keys + FieldNames(scrappers[..i])
    {
      var sc := scrappers[i];
      FieldNamesStep(scrappers, i);
      SubseqTrans(clean, clean0, text);
      var clean', final', data' := PassStep(clean, final, sc, data, engine, true, text);
      SubseqTrans(clean', clean, clean0);
      clean, final, data := clean', final', data';
    }
    assert scrappers[..|scrappers|] == scrappers;
  }

  // ---------------------------------------------------------------------------
  // The fallback extractors
  // ---------------------------------------------------------------------------

  /** Whether the bracket fallback, and the number fallback, are wanted. */
  predicate WantsBracket(r: Remains) {
    r.AllRemains? || (r.SomeRemains? && r.bracket)
  }

  predicate WantsNumber(r: Remains) {
    r.AllRemains? || (r.SomeRemains? && r.number)
  }

  /** The characters the bracket fallback does not count as content. */
  const Punctuation: set<char> := {
    ' ', '(', ')', '（', '）', '[', ']', '［', '］', '{', '}', '｛', '｝', '<', '>', '〈', '〉', '《', '》',
    '〔', '〕', '【', '】', '〖', '〗', '!', '@', '#', '$', '%', '^', '&', '*', '+', '=', ':', ';', '\'', '"',
    '?', '/', '-', '。', '…', '？', '；', '：', '、', '＂', '—', '！'}

  /** The bracket fallback's check: between the first and the last character there is a character that
      is not punctuation. */
  predicate BracketInterior(val: string): (b: bool)
    ensures b ==> |val| >= 3 && val[1..|val| - 1] != ""
  {
    exists k :: 1 <= k < |val| - 1 && val[k] !in Punctuation
  }

  const InteriorCheck: Validate := Validate(None, None, None, Some(BracketInterior))

  /** `{ input: /[open][^close]+[close]/g, key: "bracket", opts: { validate: { method } } }`. */
  const BracketRemain: Base :=
    BDesc(One(IRe(Regex("[\\(（\\[［\\{｛<〈《〔【〖][^\\)）\\]］\\}｝>〉》〕】〗]+[\\)）\\]］\\}｝>〉》〕】〗]", "g"))),
          "bracket", OptsDecl(None, None, Some(InteriorCheck)))

  /** `{ input: /-?\d+(\.\d+)?/g, key: "number" }`. */
  const NumberRemain: Base := BDesc(One(IRe(Regex("-?\\d+(\\.\\d+)?", "g"))), "number", NoOpts)

  /** The fallback descriptors wanted, bracket first. */
  function RemainBases(r: Remains): (bases: seq<Base>)
    ensures |bases| == (if WantsBracket(r) then 1 else 0) + (if WantsNumber(r) then 1 else 0)
    ensures forall k :: 0 <= k < |bases| ==> bases[k] == BracketRemain || bases[k] == NumberRemain
  {
    (if WantsBracket(r) then [BracketRemain] else []) + (if WantsNumber(r) then [NumberRemain] else [])
  }

  /** `scrapSource({ ScrapRemain: remain })` as written: both descriptors in one list, so they share one
      configuration and the number descriptor inherits the bracket descriptor's `validate`. */
  function RemainSourceAsWritten(r: Remains): seq<(string, Decl)> {
    [("ScrapRemain", DList(RemainBases(r)))]
  }

  /** The keys of the wanted fallbacks, bracket first. */
  function RemainKeys(r: Remains): seq<string> {
    (if WantsBracket(r) then ["bracket"] else []) + (if WantsNumber(r) then ["number"] else [])
  }

  /** The fallback extractors as `Scrapping` builds them: all for "ScrapRemain", one per wanted fallback
      in order, and all with the bracket check as soon as the bracket fallback is wanted, since the
      number descriptor sets no `validate` of its own on the shared configuration. */
  ghost predicate AsWrittenShape(scs: seq<Scrapper>, r: Remains) {
    KeysOf(scs) == RemainKeys(r) && AllField(scs, "ScrapRemain") &&
    forall k :: 0 <= k < |scs| ==> scs[k].opts.validate == (if WantsBracket(r) then Some(InteriorCheck) else None)
  }

  /** The fallbacks as written share one configuration, so the bracket check carries over to the
      number extractor. */
  lemma RemainAsWritten(r: Remains)
    ensures AsWrittenShape(SourceScrappers(RemainSourceAsWritten(r), None, None), r)
  {
    var src := RemainSourceAsWritten(r);
    var cfg := FreshConfig("ScrapRemain", None, None);
    var bases := RemainBases(r);
    assert SourceScrappers(src, None, None) == Concat(FieldLists(src, None, None), 0, 1);
    assert FieldLists(src, None, None)[0] == ListScrappers(cfg, bases, |bases|);
    SharedRemains(cfg, r);
  }

  lemma SharedRemains(cfg: CfgState, r: Remains)
    requires cfg == FreshConfig("ScrapRemain", None, None)
    ensures AsWrittenShape(ListScrappers(cfg, RemainBases(r), |RemainBases(r)|), r)
  {
    if WantsBracket(r) && WantsNumber(r) {
      SharedBoth(cfg, r);
    } else if WantsBracket(r) {
      SharedBracket(cfg, r);
    } else if WantsNumber(r) {
      SharedNumber(cfg, r);
    } else {
      assert RemainBases(r) == [];
    }
  }

  /** Both fallbacks: the number descriptor runs on the configuration the bracket descriptor left. */
  lemma SharedBoth(cfg: CfgState, r: Remains)
    requires cfg == FreshConfig("ScrapRemain", None, None) && WantsBracket(r) && WantsNumber(r)
    ensures AsWrittenShape(ListScrappers(cfg, RemainBases(r), 2), r)
  {
    var bases := RemainBases(r);
    assert bases == [BracketRemain, NumberRemain];
    var after := Override(cfg, "bracket", OptsDecl(None, None, Some(InteriorCheck)));
    assert ListState(cfg, bases, 1) == after;
    assert ListScrappers(cfg, bases, 1) == [Normalize.Normalize(BracketRemain.input.item, after)];
    assert ListScrappers(cfg, bases, 2) == [Normalize.Normalize(BracketRemain.input.item, after),
                                           Normalize.Normalize(NumberRemain.input.item, Override(after, "number", NoOpts))];
  }

  lemma SharedBracket(cfg: CfgState, r: Remains)
    requires cfg == FreshConfig("ScrapRemain", None, None) && WantsBracket(r) && !WantsNumber(r)
    ensures AsWrittenShape(ListScrappers(cfg, RemainBases(r), 1), r)
  {
    var bases := RemainBases(r);
    assert bases == [BracketRemain];
    var after := Override(cfg, "bracket", OptsDecl(None, None, Some(InteriorCheck)));
    assert ListScrappers(cfg, bases, 1) == [Normalize.Normalize(BracketRemain.input.item, after)];
  }

  lemma SharedNumber(cfg: CfgState, r: Remains)
    requires cfg == FreshConfig("ScrapRemain", None, None) && !WantsBracket(r) && WantsNumber(r)
    ensures AsWrittenShape(ListScrappers(cfg, RemainBases(r), 1), r)
  {
    var bases := RemainBases(r);
    assert bases == [NumberRemain];
    assert ListScrappers(cfg, bases, 1) == [Normalize.Normalize(NumberRemain.input.item, Override(cfg, "number", NoOpts))];
  }

  /** Descriptors each declared as a field "ScrapRemain" of their own, so each starts from a fresh
      configuration. */
  function Apart(bases: seq<Base>): (src: seq<(string, Decl)>)
    ensures |src| == |bases|
    ensures forall k :: 0 <= k < |src| ==> src[k] == ("ScrapRemain", DList([bases[k]]))
  {
    seq(|bases|, k requires 0 <= k < |bases| => ("ScrapRemain", DList([bases[k]])))
  }

  /** The fallbacks as evidently intended: each declared on its own, so neither inherits the other's options. */
  function RemainSource(r: Remains): seq<(string, Decl)> {
    Apart(RemainBases(r))
  }

  /** The extractor a fallback descriptor yields under a fresh configuration with default flags. */
  function RemainScrapper(base: Base): Scrapper
    requires base.BDesc? && base.input.One?
  {
    Normalize.Normalize(base.input.item, Override(FreshConfig("ScrapRemain", None, None), base.key, base.opts))
  }

  /** As written, with both fallbacks on, the number extractor carries the bracket check, so a number of
      one or two characters is never collected: "42" has nothing between its first and last character. */
  lemma RemainAsWrittenRejectsShortNumbers()
    ensures var scs := SourceScrappers(RemainSourceAsWritten(AllRemains), None, None);
      |scs| == 2 && scs[1].key == "number" && scs[1].opts.validate == Some(InteriorCheck) &&
      !Valid(scs[1].opts.validate, "42")
  {
    var src := RemainSourceAsWritten(AllRemains);
    var cfg := FreshConfig("ScrapRemain", None, None);
    var bases := [BracketRemain, NumberRemain];
    assert RemainBases(AllRemains) == bases;
    var after := Override(cfg, "bracket", OptsDecl(None, None, Some(InteriorCheck)));
    assert ListState(cfg, bases, 1) == after;
    assert ListScrappers(cfg, bases, 2) == [Normalize.Normalize(BracketRemain.input.item, after),
                                           Normalize.Normalize(NumberRemain.input.item, Override(after, "number", NoOpts))];
    assert SourceScrappers(src, None, None) == Concat(FieldLists(src, None, None), 0, 1);
    assert FieldLists(src, None, None)[0] == ListScrappers(cfg, bases, 2);
    assert !BracketInterior("42");
  }

  /** What each fallback descriptor yields on its own: an extractor for "ScrapRemain" under the
      descriptor's key; the number extractor validates nothing, the bracket extractor checks for content
      between the brackets. */
  lemma RemainScrapperOf(base: Base)
    requires base == BracketRemain || base == NumberRemain
    ensures var sc := RemainScrapper(base);
      sc.field == "ScrapRemain" && sc.key == base.key &&
      (base == NumberRemain ==> sc.opts.validate == None) &&
      (base == BracketRemain ==> sc.opts.validate == Some(InteriorCheck))
  {
  }

  /** A descriptor declared on its own yields exactly its extractor. */
  lemma ApartPart(bases: seq<Base>, k: nat)
    requires k < |bases| && bases[k].BDesc? && bases[k].input.One?
    ensures FieldLists(Apart(bases), None, None)[k] == [RemainScrapper(bases[k])]
  {
    var cfg := FreshConfig("ScrapRemain", None, None);
    assert FieldLists(Apart(bases), None, None)[k] == ListScrappers(cfg, [bases[k]], 1);
  }

  /** Descriptors declared apart yield their own extractors, one each, in order. */
  lemma ApartScrappers(bases: seq<Base>)
    requires forall k :: 0 <= k < |bases| ==> bases[k].BDesc? && bases[k].input.One?
    ensures var scs := SourceScrappers(Apart(bases), None, None);
      |scs| == |bases| && forall k :: 0 <= k < |bases| ==> scs[k] == RemainScrapper(bases[k])
  {
    var parts := FieldLists(Apart(bases), None, None);
    forall k | 0 <= k < |bases|
      ensures parts[k] == [RemainScrapper(bases[k])]
    {
      ApartPart(bases, k);
    }
    SingletonConcat(parts, bases, |bases|);
  }

  /** Lists of one extractor each concatenate to the list of those extractors. */
  lemma {:induction false} SingletonConcat(parts: seq<seq<Scrapper>>, bases: seq<Base>, n: nat)
    requires n <= |parts| == |bases|
    requires forall k :: 0 <= k < |bases| ==> bases[k].BDesc? && bases[k].input.One?
    requires forall k :: 0 <= k < |parts| ==> parts[k] == [RemainScrapper(bases[k])]
    ensures var scs := Concat(parts, 0, n);
      |scs| == n && forall k :: 0 <= k < n ==> scs[k] == RemainScrapper(bases[k])
  {
    if n > 0 {
      SingletonConcat(parts, bases, n - 1);
    }
  }

  /** The fallback extractors all go to "ScrapRemain"; the number extractor accepts every match, the
      bracket extractor checks for content between the brackets. */
  ghost predicate FallbackShape(scs: seq<Scrapper>) {
    (forall k :: 0 <= k < |scs| ==> scs[k].field == "ScrapRemain") &&
    (forall k :: 0 <= k < |scs| && scs[k].key == "number" ==> forall m :: Valid(scs[k].opts.validate, m)) &&
    (forall k :: 0 <= k < |scs| && scs[k].key == "bracket" ==> scs[k].opts.validate == Some(InteriorCheck))
  }

  /** Declared apart, the fallbacks yield one extractor each, with the shape above. */
  lemma RemainScrappers(r: Remains)
    ensures var scs := SourceScrappers(RemainSource(r), None, None);
      |scs| == |RemainBases(r)| && FallbackShape(scs)
  {
    var bases := RemainBases(r);
    ApartScrappers(bases);
    RemainFacts(SourceScrappers(Apart(bases), None, None), bases);
  }

  /** Any list holding the fallbacks' extractors in order has the fallback shape. */
  lemma RemainFacts(scs: seq<Scrapper>, bases: seq<Base>)
    requires |scs| == |bases|
    requires forall k :: 0 <= k < |bases| ==> bases[k] == BracketRemain || bases[k] == NumberRemain
    requires forall k :: 0 <= k < |bases| ==> scs[k] == RemainScrapper(bases[k])
    ensures FallbackShape(scs)
  {
    forall k | 0 <= k < |scs|
      ensures scs[k].field == "ScrapRemain" && scs[k].key == bases[k].key
      ensures bases[k] == NumberRemain ==> scs[k].opts.validate == None
      ensures bases[k] == BracketRemain ==> scs[k].opts.validate == Some(InteriorCheck)
    {
      RemainScrapperOf(bases[k]);
    }
  }

  // ---------------------------------------------------------------------------
  // Scrapping
  // ---------------------------------------------------------------------------

  /** GetBracket throws: an alphabet of two characters or more without a single pair in it. */
  predicate BracketsThrow(o: BracketOptions) {
    var b := o.bracket.GetOr(DefaultBrackets);
    |b| >= 2 && Pairs(b) == []
  }

  /** The extractors of a declaration write only to the fields it declares. */
  lemma SourceFieldNames(src: seq<(string, Decl)>, regexpGlobal: Option<bool>, regexpInsensitive: Option<bool>)
    ensures FieldNames(SourceScrappers(src, regexpGlobal, regexpInsensitive)) <= Declared(src)
  {
    RangeFields(src, 0, |src|, regexpGlobal, regexpInsensitive);
  }

  /** Every bracket segment is a stretch of the text it was taken from, or the inside of one. */
  lemma BracketPartsWithin(text: string, o: BracketOptions)
    requires GetBracket(text, o).Ok?
    ensures forall k :: 0 <= k < |GetBracket(text, o).value| ==> Subseq(GetBracket(text, o).value[k], text)
  {
    GetBracketSegments(text, o);
    var parts := GetBracket(text, o).value;
    forall k | 0 <= k < |parts|
      ensures Subseq(parts[k], text)
    {
      var b := o.bracket.GetOr(DefaultBrackets);
      var pairs := Pairs(b);
      var sp := Text.Scan(text, 0, Lefts(pairs), Rights(pairs))[k];
      if o.bracketRemove {
        SubseqSlice(text, sp.start + 1, sp.end - 1);
      } else {
        SubseqSlice(text, sp.start, sp.end);
      }
    }
  }

  /** The declared extractors, built with the caller's flags. */
  method DeclaredScrappers(src: seq<(string, Decl)>, opts: Options) returns (scrappers: seq<Scrapper>)
    ensures FieldNames(scrappers) <= Declared(src)
  {
    scrappers := ScrapSource(src, opts.regexpGlobal, opts.regexpInsensitive);
    SourceFieldNames(src, opts.regexpGlobal, opts.regexpInsensitive);
  }

  /** `if (opts.remove) input = Remove(input, opts)`: the flags Remove compiles with are the caller's,
      absent meaning off. */
  method RemoveNoise(input: string, opts: Options, engine: Engine) returns (text: string)
    requires EngineSound(engine)
    ensures Subseq(text, input)
  {
    var global, insensitive := opts.regexpGlobal.GetOr(false), opts.regexpInsensitive.GetOr(false);
    text := Remove(input, opts.remove, opts.escapeRegexp, global, insensitive, engine);
    RemovedSubseq(input, opts.remove, |opts.remove|, opts.escapeRegexp, global, insensitive, engine);
  }

  /** The bracket segments of the text, or the error GetBracket throws. */
  method Segments(text: string, o: BracketOptions) returns (parts: Result<seq<string>, string>)
    ensures parts.Err? <==> BracketsThrow(o)
    ensures parts.Err? ==> parts.error == TypeError
    ensures parts.Ok? ==> forall k :: 0 <= k < |parts.value| ==> Subseq(parts.value[k], text)
  {
    parts := GetBracket(text, o);
    if parts.Ok? {
      BracketPartsWithin(text, o);
    }
  }

  /** `scrapSource({ ScrapRemain: remain })`: the fallback extractors as written, both descriptors in one
      list sharing one configuration. */
  method RemainScrappersOf(r: Remains) returns (remains: seq<Scrapper>)
    ensures FieldNames(remains) <= {"ScrapRemain"}
    ensures AsWrittenShape(remains, r)
  {
    remains := ScrapSource(RemainSourceAsWritten(r), None, None);
    RemainAsWritten(r);
  }

  /** Scrapping: the declared extractors, then noise removal, then the bracket-segment pass, then the
      fallback extractors joined to the declared ones for the whole-text pass. A missing declaration
      and an alphabet without pairs throw. What it returns keeps the input, a clean text with
      characters only deleted from it, and data drawn from the input under declared fields (and
      "ScrapRemain" when fallbacks are on). */
  method Scrapping(input: string, opts: Options, engine: Engine) returns (result: Result<ScrapperResult, string>)
    requires EngineSound(engine)
    ensures opts.scrapSource.None? ==> result == Err(Unspecified)
    ensures opts.scrapSource.Some? && BracketsThrow(opts.bracket) ==> result == Err(TypeError)
    ensures result.Ok? <==> opts.scrapSource.Some? && !BracketsThrow(opts.bracket)
    ensures result.Ok? ==>
      result.value.raw.input == input && Subseq(result.value.raw.clean, input) && DataWithin(result.value.data, input)
    ensures result.Ok? ==>
      result.value.data.Keys <= Declared(opts.scrapSource.value) + (if opts.scrapRemains.NoRemains? then {} else {"ScrapRemain"})
  {
    if opts.scrapSource.None? {
      return Err(Unspecified);
    }
    var src := opts.scrapSource.value;
    var scrappers := DeclaredScrappers(src, opts);
    var text := RemoveNoise(input, opts, engine);
    var parts := Segments(text, opts.bracket);
    if parts.Err? {
      return Err(parts.error);
    }
    var clean, final, data := BracketPass(text, parts.value, scrappers, engine);
    var all := scrappers;
    if !opts.scrapRemains.NoRemains? {
      var remains := RemainScrappersOf(opts.scrapRemains);
      all := scrappers + remains;
      assert FieldNames(all) <= FieldNames(scrappers) + FieldNames(remains) by {
        forall i | 0 <= i < |all|
          ensures all[i].field in FieldNames(scrappers) + FieldNames(remains)
        {
          if i >= |scrappers| {
            assert all[i] == remains[i - |scrappers|];
          }
        }
      }
    }
    var clean', final', data' := WholePass(clean, final, all, data, engine, text);
    SubseqTrans(clean', clean, text);
    SubseqTrans(clean', text, input);
    clean, final, data := clean', final', data';
    assert DataWithin(data, input) by {
      forall f | f in data
        ensures Within(data[f], input)
      {
        WithinMono(data[f], text, input);
      }
    }
    result := Ok(ScrapperResult(Raw(input, clean, final), data));
  }
}
