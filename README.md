# text-manipulate in Dafny

This project models the core of text-manipulate, a TypeScript library of string utilities. The
core has four parts.

- **Numeric** (`numeric.dfy`) models `ArabicToRoman` and `RomanToArabic` from `src/numeric.ts`.
  - Encoding is greedy over the thirteen-symbol table.
  - Decoding removes the table's symbols one after another with a global, case-insensitive
    replace, and counts them as it goes.
- **Base64** (`base64.dfy`) models `Base64Encode` and `Base64Decode` from `src/base64.ts`.
  - Strings are sequences of UTF-16 code units.
  - It covers both the standard and the URL-safe alphabet.
  - It covers the decoder's three checks: length, characters and padding.
- **Text** (`text.dfy`) models the string helpers of `src/main.ts` that the extraction engine and
  its callers rely on:
  - `EscapeRegexp` and `BuildRegex`;
  - `Pad`, `PadStart` and `PadEnd`;
  - `TrimStart`, `TrimEnd` and `Trim` with the default whitespace patterns;
  - `Split` with a string splitter, and `Join`;
  - `GetBracket`.
- **The extraction engine** of `src/scrapper.ts`, split across several files:
  - `scrap_types.dfy` holds the records;
  - `scan.dfy` models `replaceCheck` and `scrap`;
  - `merge.dfy` models `_merge`;
  - `normalize.dfy` models `normalize`, `scrapBase` and `scrapSource`;
  - `scrapping.dfy` models `Remove` and `Scrapping`:
    - the noise removal;
    - the pass over bracketed segments;
    - the fallback extractors built from `scrapRemains`;
    - the pass over the whole text.

`Scrapping` depends on regular-expression matching, which is abstracted as an engine parameter.
- The engine is a function from a regular expression and a text to the list of matches a global
  search reports, as positions and matched strings.
- `EngineSound` only demands what every such search guarantees: each match is the text at its
  position, and the matches run left to right without overlapping.
- A search without the `g` flag uses the first match.
- Caller-supplied validation tests (`validate.regex`, `validate.method`) are modelled as opaque
  predicates on the matched string.

In `scrapper.ts`, accepted matches are erased from the text. Erasing a match joins the text on
either side of it, so the clean text and the strings collected from it are *subsequences* of the
input, not necessarily substrings of it. `Subsequence.Subseq` is that relation.

The fallback extractors are built as the code builds them: both fallbacks in one list under one
field, sharing one configuration. The form with each fallback declared on its own is modelled
beside it, as the corrected half of the second finding below.

## Model

| member | source | states |
|---|---|---|
| Numeric.ArabicToRoman | src/numeric.ts:22-37 | for 0 < input < 4000 the result is the spelling of the greedy decomposition over the symbol table, otherwise the empty string |
| Numeric.GreedyTotal | src/numeric.ts:29-35 | the values of the symbols the loops emit add up to the input |
| Numeric.GreedyOrdered | src/numeric.ts:29-35 | symbols are emitted in table order, so their values never increase |
| Numeric.SpellLetters | src/numeric.ts:23 | the encoding uses only the letters M, D, C, L, X, V, I |
| Numeric.ReplaceAllCounting | src/numeric.ts:45-48 | one global case-insensitive replace by "" removes every occurrence left to right and counts them |
| Numeric.RomanToArabic | src/numeric.ts:39-51 | the result is the sum, over the removal order CM, M, CD, D, …, of the occurrences removed times the symbol's value |
| Numeric.CaseInsensitive | src/numeric.ts:45 | lower-case and upper-case numerals decode to the same number |
| Numeric.NoLettersWorthZero | src/numeric.ts:42-50 | a string without Roman letters decodes to 0 |
| Numeric.SymbolValue | src/numeric.ts:20 | each table symbol on its own decodes to its table value |
| Numeric.RemovalSumSplit | src/numeric.ts:44-49 | when no two-letter symbol straddles the join, the value of a concatenation is the sum of the values of the parts |
| Numeric.RoundTrip | src/numeric.ts:22-51 | decoding the encoding of any 0 < n < 4000 gives back n |
| Base64.AlphabetDigits | src/base64.ts:3-6 | the alphabet has 65 characters: the 62 letters and digits, the two extra characters of the chosen variant, and the pad |
| Base64.DigitInjective | src/base64.ts:15 | distinct alphabet positions hold distinct characters |
| Base64.Base64Encode | src/base64.ts:8-32 | the do-while loop produces one group of four characters per three code units, at least one group, with the pad for missing units |
| Base64.EncodedShape | src/base64.ts:18-30 | the encoding has four characters per group, uses only alphabet characters, and pads exactly its last 0-2 characters |
| Base64.EncodeEmpty | src/base64.ts:18-30 | the empty string encodes as "AA==" because the loop body runs once |
| Base64.IndexOf | src/base64.ts:49-52 | indexOf: -1 exactly when the character is absent, otherwise its first position |
| Base64.Base64Decode | src/base64.ts:34-62 | the length, character and padding errors in that order, otherwise the code units of the groups with zero units dropped |
| Base64.EncodedAccepted | src/base64.ts:44-46 | every encoding passes the decoder's three checks |
| Base64.RoundTrip | src/base64.ts:8-62 | decoding the encoding of units below 256 gives them back, with zero units dropped |
| Base64.DecodedBytes | src/base64.ts:55-59 | every decoded unit lies in 1..255 |
| Base64.PaddingOnlyAtEnd | src/base64.ts:46 | in an accepted input every pad is in the last two positions and is followed only by pads |
| Base64.DecodeEmpty | src/base64.ts:48-60 | as written, the empty string decodes to the three units 251, 255, 255 |
| Base64.DecodedFixedLength | src/base64.ts:48-60 | the corrected decoder yields at most three units per group of four characters |
| Base64.FixedRoundTrip | src/base64.ts:8-62 | the corrected decoder inverts the encoder as well |
| Text.EscapeRegexp | src/main.ts:124-127 | a regular expression is returned unchanged; unescaping an escaped string gives the string back |
| Text.EscapeRoundTrip | src/main.ts:126 | removing the inserted backslashes gives back the original string |
| Text.EscapePlain | src/main.ts:126 | in the escaped string every special character is preceded by a backslash |
| Text.EscapeLength | src/main.ts:126 | escaping adds exactly one backslash per special character |
| Text.BuildRegexFlags | src/main.ts:129-139 | a string compiles with g exactly when regexpGlobal is set and i exactly when regexpInsensitive is set, escaped when escapeRegexp is set |
| Text.BuildRegex | src/main.ts:129-139 | a regular expression is returned unchanged; a string gets g exactly when regexpGlobal is set and i exactly when regexpInsensitive is set, and its source reads back as the string (escaped only when escapeRegexp is set) |
| Text.BuildRegexCompiled | src/main.ts:132 | a regular expression is returned as it is, whatever the options |
| Text.Pad | src/main.ts:210-225 | repeat the pad string count times, or cycle it up to the target length, on the side `end` selects; TypeError without pad options |
| Text.PaddedLength | src/main.ts:216-221 | without a count the result is exactly the target length when the pad fits, otherwise the input unchanged |
| Text.PaddedKeepsInput | src/main.ts:224 | the input is kept as the prefix (end) or the suffix (start) of the result |
| Text.PadWithoutText | src/main.ts:213 | a missing or empty pad string leaves the input unchanged |
| Text.RepeatIsCycle | src/main.ts:215-221 | repeating the pad string n times equals cycling it for n times its length |
| Text.PadSidesFail | src/main.ts:213-215 | padding fails exactly when a non-empty pad string has a negative count, which makes repeat throw |
| Text.PadOptions.PadStart | src/main.ts:227-236 | sets the pad side to the start, keeping the other pad options, then pads |
| Text.PadOptions.PadEnd | src/main.ts:238-247 | sets the pad side to the end, keeping the other pad options, then pads |
| Text.LeadingSpaces | src/main.ts:96-98 | the loop strips exactly the maximal run of leading whitespace |
| Text.TrimStart | src/main.ts:86-101 | removes the leading whitespace run, or nothing when trim is false |
| Text.TrimEnd | src/main.ts:103-118 | removes the trailing whitespace run, or nothing when trim is false |
| Text.Trim | src/main.ts:120-122 | TrimEnd of TrimStart |
| Text.TrimmedSlice | src/main.ts:120-122 | the trimmed string is the contiguous slice that starts right after the leading whitespace |
| Text.TrimmedEnds | src/main.ts:96-98 | a trimmed string is empty or starts and ends with non-whitespace |
| Text.TrimIdempotent | src/main.ts:120-122 | trimming twice equals trimming once |
| Text.Find | src/main.ts:72 | the first occurrence of the splitter, or -1 when there is none |
| Text.JoinSplitOn | src/main.ts:72 | joining the raw pieces with the splitter rebuilds the input |
| Text.SplitOnPieces | src/main.ts:72 | no raw piece contains the splitter |
| Text.TrimAll | src/main.ts:72-76 | each piece is trimmed, one output per piece |
| Text.NonEmpty | src/main.ts:77-83 | exactly the non-empty pieces are kept, each as often as it occurs, in their original order |
| Text.SplitJoinRoundTrip | src/main.ts:53-84 | with empty pieces kept and trimming off, Join with the splitter inverts Split |
| Text.SplitPiecesTrimmed | src/main.ts:63-84 | with the defaults every piece is non-empty and has no whitespace at either end |
| Text.Join | src/main.ts:53-61 | the joined length is the parts' total length plus one connector (by default " ") between neighbours; with a one-character connector that no part contains, splitting the result on it gives the parts back |
| Text.JoinSplitInverse | src/main.ts:53-61 | splitting a join on a one-character connector that no part contains gives the parts back |
| Text.Split | src/main.ts:63-84 | with empty pieces kept there is one piece per raw piece; without them no piece is empty; without trimming every piece is a raw piece of the input |
| Text.JoinLength | src/main.ts:53-61 | the joined length is the sum of the lengths plus one connector between neighbours |
| Text.Scan | src/main.ts:158-159 | every reported span starts at a left bracket, ends at the first right bracket after it, has content, and the spans do not overlap |
| Text.ScanComplete | src/main.ts:158-159 | every position where a match could start is covered by a reported span |
| Text.ScanLeftmost | src/main.ts:158-159 | each span starts at a possible match and ends at the first right bracket after its start |
| Text.GetBracketSegments | src/main.ts:141-165 | one segment per span, left to right; the whole span, or its interior when bracketRemove is set |
| Text.GetBracketShortAlphabet | src/main.ts:149 | a bracket alphabet shorter than two characters yields no segments |
| Text.GetBracket | src/main.ts:141-165 | an alphabet shorter than two characters yields no segments; it throws TypeError exactly when an alphabet of two or more characters yields no pair |
| Text.PairsPlain | src/main.ts:152-155 | the bracket alphabet is read two characters at a time as (left, right) pairs |
| Scan.LastIndexOf | src/scrapper.ts:137 | the last position at or before the match holding '{', or -1 when there is none |
| Scan.IndexOf | src/scrapper.ts:138 | the first position at or after the match holding '}', or -1 when there is none |
| Scan.ParseInt | src/scrapper.ts:146 | parseInt yields a number exactly when the string starts with a digit, NaN otherwise; ParseIntLeading gives the number |
| Scan.ParseIntLeading | src/scrapper.ts:146 | a run of digits followed by a non-digit or by nothing is read as the run's decimal value |
| Scan.ParseIntStopsAtDot | src/scrapper.ts:145-148 | "12.5" is compared with the bounds as 12 |
| Scan.Check | src/scrapper.ts:139-158 | the callback accepts a match exactly when the cut-off, placeholder, word-boundary and validation tests let it through |
| Scan.ReplaceCheck | src/scrapper.ts:129-165 | the matches are those accepted in order; the text has each accepted match replaced, by the placeholder when `value` is set and otherwise by "" |
| Scan.Substitute | src/scrapper.ts:134-160 | replace assembles the text between matches with each match's answer |
| Scan.DecidePointwise | src/scrapper.ts:139-157 | a match is accepted exactly when it passes and, without g, no earlier match passed |
| Scan.VerdictsPointwise | src/scrapper.ts:133-157 | the verdict on match j: it passes the tests and, for a non-global expression, no earlier match passed |
| Scan.SingleMatch | src/scrapper.ts:139 | a non-global expression accepts at most one match |
| Scan.GlobalMatches | src/scrapper.ts:131-133 | a global expression accepts exactly the matches that pass |
| Scan.AcceptedPasses | src/scrapper.ts:141-156 | an accepted match does not touch a letter or digit, is not inside a placeholder, and passes validation |
| Scan.AcceptedAreMatches | src/scrapper.ts:157-158 | every collected string is an accepted match |
| Scan.OutsAt | src/scrapper.ts:139-159 | the callback answers the replacement for an accepted match and the match itself otherwise |
| Scan.NothingAccepted | src/scrapper.ts:134-160 | when nothing is accepted the text comes back unchanged |
| Scan.ErasedLength | src/scrapper.ts:159 | erasing shortens the text by exactly the total length of the accepted matches |
| Scan.ErasedWhole | src/scrapper.ts:159 | the erased text is a subsequence of the input |
| Scan.AcceptedSubseq | src/scrapper.ts:158 | every collected string is a subsequence of the input |
| Scan.Collected | src/scrapper.ts:117-123 | the matches go under the sub-key when there is one, otherwise they form the list |
| Scan.Scrap | src/scrapper.ts:99-127 | nothing when no match is accepted; otherwise the input, the erased text, and the collected value under the field |
| Scan.ScrapSubseq | src/scrapper.ts:113-123 | the clean text and every collected string are subsequences of the input |
| Merge.Merged | src/scrapper.ts:179-197 | an absent value takes the incoming one; two lists give the accumulated list followed by the incoming one; two keyed maps give the union of their keys; a list and a keyed map keep the accumulated value |
| Merge.MergeValue | src/scrapper.ts:179-197 | an absent value takes the incoming one, lists concatenate, keyed maps merge key by key |
| Merge.MergeEntries | src/scrapper.ts:186-193 | visiting every incoming key adds new keys and appends to present ones |
| Merge.CombineStep | src/scrapper.ts:187-192 | folding in one key adds it with its list or appends its list to the present one |
| Merge.MergeKeyed | src/scrapper.ts:185-195 | the merged map has the keys of both sides; a key on one side keeps its list, and a key on both sides holds the old list followed by the incoming one |
| Merge.MergeLists | src/scrapper.ts:183-184 | two lists merge into the accumulated list followed by the incoming one |
| Merge.MergeKeeps | src/scrapper.ts:179-197 | merging never loses a collected string |
| Merge.WithinMerge | src/scrapper.ts:179-197 | merging values drawn from a text yields a value drawn from the text |
| Normalize.Normalize | src/scrapper.ts:3-27 | the extractor carries the configuration's field, key, flags and validation; a string compiles to a source equal to it with g and i as configured, a regular expression is kept, anything else never matches |
| Normalize.NormalizeRegex | src/scrapper.ts:3-27 | a string compiles unescaped with g and i as configured; a regular expression is kept; anything else never matches |
| Normalize.NormalizeAt | src/scrapper.ts:36-39 | the i-th extractor of a descriptor's input list is the i-th pattern normalized |
| Normalize.NormalizeItems | src/scrapper.ts:35-40 | the loop normalizes every pattern of the input list in order |
| Normalize.Config.constructor | src/scrapper.ts:50-55 | a field starts with no key, no validation, and the two flags |
| Normalize.Config.ScrapBase | src/scrapper.ts:29-45 | a descriptor first writes its key and opts into the shared configuration; the extractors use the configuration that results |
| Normalize.Config.Apply | src/scrapper.ts:32-33 | the key is overwritten when truthy, and each opts entry present overwrites its entry |
| Normalize.Config.ScrapList | src/scrapper.ts:58-61 | the bases of a list run in order over one shared configuration, their extractors concatenated |
| Normalize.Config.ScrapField | src/scrapper.ts:57-80 | a list, string, regular expression, descriptor or sub-key map each yield the extractors of their branch, and the configuration is left as that branch's descriptors leave it; anything else yields none and changes nothing |
| Normalize.ScrapSubKeys | src/scrapper.ts:71-79 | every sub-key holding a list, string or regular expression runs as a descriptor with that key |
| Normalize.SubKeyStep | src/scrapper.ts:72-78 | an entry adds a descriptor exactly when its value is usable |
| Normalize.ScrapSource | src/scrapper.ts:47-83 | the extractors of all fields, field by field, each field starting from a fresh configuration |
| Normalize.Lookup | src/scrapper.ts:64 | a descriptor entry is found exactly when the object declares it |
| Normalize.BaseFacts | src/scrapper.ts:29-45 | a base's extractors carry the field, the key and the flags of the configuration the base leaves behind |
| Normalize.ListFacts | src/scrapper.ts:58-61 | a list's extractors carry the field; without flag overrides they keep the field's flags |
| Normalize.DeclFacts | src/scrapper.ts:57-80 | every extractor of a field carries the field's name; without flag overrides it carries the default flags |
| Normalize.RangeFields | src/scrapper.ts:49-81 | the extractors of fields lo..hi carry, in order, each field's name once per extractor that field yields |
| Normalize.SourceOrder | src/scrapper.ts:49-81 | the extractors of the first n fields are a prefix of the whole list; the rest come from the later fields |
| Normalize.SourceDefaults | src/scrapper.ts:54-55 | without overrides every extractor is global and case-insensitive unless the options turn that off |
| Normalize.ListKeys | src/scrapper.ts:32 | in a list of keyed descriptors the extractors carry, in order, each descriptor's key once per pattern it holds |
| Normalize.SubKeyOrigin | src/scrapper.ts:72-78 | every descriptor made from a sub-key map comes from a usable entry; none are made when no entry is usable |
| Normalize.SubKeyNames | src/scrapper.ts:71-79 | every extractor of a sub-key map carries one of its sub-keys; a map with no usable value yields none |
| Scrapping.Remove | src/main.ts:186-197 | each noise pattern in turn, compiled with the caller's options, is replaced by "" |
| Scrapping.RemovedSubseq | src/main.ts:193-195 | noise removal leaves a subsequence of the input |
| Scrapping.RemoveNothing | src/main.ts:194 | a pattern that does not match leaves the text unchanged |
| Scrapping.Leading | src/scrapper.ts:212 | a replace with a global expression replaces every match, otherwise only the first |
| Scrapping.ReplaceMatchesErases | src/scrapper.ts:212 | erasing matches leaves a subsequence; with no match the text is unchanged |
| Scrapping.ReplaceFirstSubseq | src/scrapper.ts:218 | replacing the first occurrence of a segment by a subsequence of it leaves a subsequence of the text |
| Scrapping.ReplaceFirstKeeps | src/scrapper.ts:218-219 | replacing a segment by itself, or a segment that does not occur, leaves the text unchanged |
| Scrapping.Absorb | src/scrapper.ts:213-215 | the field's value becomes the merge of the old and the incoming value; other fields are untouched |
| Scrapping.AbsorbWithin | src/scrapper.ts:213-215 | absorbing keeps all data drawn from the text and adds exactly the field |
| Scrapping.ScrapStep | src/scrapper.ts:209-216 | a miss changes nothing; a hit is exactly an accepted match, sets the clean text to the text with the accepted matches erased, merges the collected value into the field, and marks the annotated text (every accepted match in the whole-text pass, the expression's matches in a segment) |
| Scrapping.PassStep | src/scrapper.ts:209-216 | one extractor's step keeps the clean text a subsequence of what it was and the data drawn from the text, and adds at most the extractor's field |
| Scrapping.Mark | src/scrapper.ts:212 | the annotated segment has the expression's first (or, with g, every) match replaced by the placeholder |
| Scrapping.Annotate | src/scrapper.ts:252-253 | the annotated text has exactly the accepted matches replaced by the placeholder |
| Scrapping.ScrapPart | src/scrapper.ts:206-217 | the segment's clean text is a subsequence of the segment and the data gains only the extractors' fields |
| Scrapping.BracketPass | src/scrapper.ts:205-220 | after all segments the clean text is a subsequence of the text and all data is drawn from it |
| Scrapping.WholePass | src/scrapper.ts:247-258 | every extractor scraps the clean text in turn: it only shrinks, and only the extractors' fields are added |
| Scrapping.RemainBases | src/scrapper.ts:222-242 | one fallback for brackets and one for numbers, as scrapRemains asks |
| Scrapping.ApartScrappers | src/scrapper.ts:243-245 | fallbacks declared as separate "ScrapRemain" fields yield one extractor each, in order, each built from a fresh configuration |
| Scrapping.RemainAsWrittenRejectsShortNumbers | src/scrapper.ts:222-245 | as written, the number fallback inherits the bracket fallback's validation, which rejects "42" |
| Scrapping.RemainScrapperOf | src/scrapper.ts:225-241 | the bracket fallback validates its interior; the number fallback has no validation |
| Scrapping.RemainScrappers | src/scrapper.ts:222-245 | the corrected fallbacks all go to "ScrapRemain"; the number one accepts every match, the bracket one checks the interior |
| Scrapping.BracketInterior | src/scrapper.ts:231 | the bracket check passes only for a string of at least three characters, since its first and last characters are never counted |
| Scrapping.RemainAsWritten | src/scrapper.ts:222-245 | as written, the fallbacks yield extractors for "ScrapRemain" with the keys in order, each carrying the bracket check whenever the bracket fallback is on |
| Scrapping.RemainScrappersOf | src/scrapper.ts:222-245 | the fallback extractors Scrapping uses, built as written: only "ScrapRemain", with the shape RemainAsWritten states |
| Scrapping.SourceFieldNames | src/scrapper.ts:198 | every extractor goes to a declared field |
| Scrapping.BracketPartsWithin | src/scrapper.ts:205 | every bracketed segment is a subsequence of the text |
| Scrapping.Segments | src/scrapper.ts:205 | GetBracket throws TypeError exactly when the alphabet yields no pair; the segments are drawn from the text |
| Scrapping.Scrapping | src/scrapper.ts:167-261 | throws without a scraping source or on a bracket alphabet without pairs; otherwise raw.input is the input, the clean text and all data are drawn from it, and the fields are among the declared ones and "ScrapRemain" |

## Left out

- Regular-expression matching is a parameter (`Engine`). The model relies only on matches being in
  the text, left to right and not overlapping. Which matches a given expression finds is not
  modelled, and neither are lookahead or capture groups.
- Scan.ReplaceCheck: takes the match position as given. The code reads it as the callback's
  second-to-last argument (src/scrapper.ts:135). With a named capture group, that argument is the
  input string, not the position. The word-boundary test then never rejects, and the placeholder
  test looks at the text from its last `{` to its first `}`. Which matches are accepted then differs
  from the model.
- Normalize.Normalize, Scrapping.Remove, Scrapping.Scrapping: every pattern string is assumed to
  compile. In the code, `new RegExp` throws SyntaxError for a string that is not a valid regular
  expression (src/main.ts:138). That happens for a declared pattern (src/scrapper.ts:24) and for a
  noise pattern (src/main.ts:194). For example, `Scrapping("x", { scrapSource: { a: "(" } })`
  throws, while the model returns a result.
- `$` patterns in replacement strings are not modelled (`$&`, `$1` in a field or key name used in
  a placeholder, or in a segment handed to `replace`). Replacements are taken literally.
- The placeholder test in `replaceCheck` interpolates the match into a regular expression
  unescaped. The model compares the match literally.
- Object declarations are modelled as ordered lists of named entries. Keys inherited from
  `Object.prototype`, non-string keys and explicitly `undefined` option entries are not modelled.
- Inherited keys also reach the collected data. A field named `constructor` or `toString` starts
  from the inherited function (src/scrapper.ts:214, 255), and `_merge` returns that function, so
  the field's matches are lost. A sub-key with such a name is found by `key in src`
  (src/scrapper.ts:187). The model starts every field and sub-key from an absent value.
- A `null` field declaration makes `scrapSource` throw. The model has no `null` declarations.
- The string overload of `normalize` (`opts` given as a field name) is not modelled. `scrapBase`
  always passes an object.
- `scrapBase` copies every entry of a descriptor's `opts` into the shared configuration. Only
  `multiple`, `insensitive` and `validate` are modelled, the ones `normalize` reads.
- `Merge.Merged`: a list merged with a keyed map, or the other way round, keeps the accumulated
  value unchanged. The code changes it (src/scrapper.ts:185-193). A keyed accumulator merged with
  a list gains entries "0", "1", … holding single strings. A list accumulator merged with a keyed
  map gains named properties, which later concatenations drop.
- `Merge.Merged` builds a new value where the code mutates the accumulated object in place. No
  caller can tell the two apart, because each merge stores its result back.
- Numeric.ArabicToRoman takes an integer. The string form, which goes through `GetNumeric`, and
  the `Math.round` of fractional input are not modelled.
- Strings are sequences of `char`, and a `char` is a Unicode scalar value, so a lone surrogate
  code unit cannot be a `char`. Only text without surrogate code units can be represented one
  code unit per `char`. Text with characters outside the Basic Multilingual Plane is not
  modelled. In JavaScript, such a character counts as two code units in lengths, in Pad's cycling
  and in GetBracket's pairing. Base64 works on integer code units and is not affected.
- Scan.ParseInt: returns an unbounded integer. `parseInt` returns a double, so a run of more
  than 15 or 16 digits may be rounded. For example, "9007199254740993" is read as
  9007199254740992, which a `max` of 9007199254740992 accepts and the model rejects. `max` and
  `min` are integers in the model. A fractional JavaScript bound matches the model only when
  `max` is read as its floor and `min` as its ceiling.
- `Join` with an explicitly `undefined` connector would use ",". The model's absent connector is
  the default " ".
- `TrimStart` and `TrimEnd` with a caller-supplied trim pattern are not modelled. Only the default
  whitespace patterns and `trim: false` are.
- `Split` with a regular-expression splitter is not modelled. Only string splitters are.
- Scrapping.Scrapping: states invariants of the result rather than the exact clean text, annotated
  text and data. Those are what `BracketPass` and `WholePass` compute step by step.
- Scrapping.ScrapPart, Scrapping.BracketPass, Scrapping.WholePass: state what each pass keeps (a
  subsequence, data drawn from the text, the fields it may add), not the exact resulting text.
- Scrapping.PassStep: states only what one step keeps: the clean text stays a subsequence, the data
  stays drawn from the text, and at most the extractor's field is added. The exact clean text,
  annotated text and data after the step are stated by `Scrapping.ScrapStep`, which PassStep calls.
  The passes carry only the kept facts from one step to the next.
- `scrapSource` deletes every entry other than `input`, `key` and `opts` from a descriptor object
  the caller passed in (src/scrapper.ts:65-67). The model never changes the caller's declaration,
  so that side effect is not modelled. The extractors it yields do not depend on it.
- Text.Pad: `count` is an integer, with 0 standing for an absent count. A JavaScript count strictly
  between -1 and 1 other than 0 is truthy: it repeats the pad zero times without a RangeError and
  skips the length branch (src/main.ts:214-215). The model cannot express such a count.
- Scrapping.Scrapping does not return the annotated `final` text in its contract. It is computed,
  but no property of it is stated beyond the `Mark` and `Annotate` steps.

## Findings

| source | as written | input that shows it | evidently intended | confidence | as-written member | corrected member |
|---|---|---|---|---|---|---|
| src/base64.ts:48-60 | the do-while decodes one group even when the input is empty, reading `indexOf(undefined)` = -1 four times | `Base64Decode("")` returns the code units 251, 255, 255 | the empty string decodes to the empty string | not executed | Base64.DecodeEmpty | Base64.FixedRoundTrip |
| src/scrapper.ts:222-245 | both fallbacks go in one list under one field, so they share one configuration, and the number fallback inherits the bracket fallback's `validate` | `Scrapping("42", { scrapSource: { a: "x" }, scrapRemains: true })` rejects the number 42, because its interior "" holds no non-punctuation character | the number fallback has no validation | not executed | Scrapping.RemainAsWrittenRejectsShortNumbers | Scrapping.RemainScrappers |
