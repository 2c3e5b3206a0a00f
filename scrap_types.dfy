/** The records the extraction engine passes around: validation rules, normalized extractors,
    the spans a regular expression matches, and the values collected per field. */
module ScrapTypes {
  import opened Wrappers
  import opened Text
  import opened Subsequence

  /** The checks a match must pass besides its position: numeric bounds for matches made of digits
      and dots, and two caller-supplied tests (a regular expression, and the callback `method`, here `check`) whose outcome on a
      match is all the model needs of them. */
  datatype Validate = Validate(max: Option<int>, min: Option<int>,
                               regex: Option<string -> bool>, check: Option<string -> bool>)

  /** Options an extractor carries; an absent entry is one the declaration never set. */
  datatype ScrapperOptions = ScrapperOptions(multiple: Option<bool>, insensitive: Option<bool>,
                                             validate: Option<Validate>)

  /** A normalized extractor: the field its matches go to, its regular expression, the sub-key
      that groups them (the empty string when there is none, as every use tests it for truth)
      and its options. */
  datatype Scrapper = Scrapper(field: string, regex: Regex, key: string, opts: ScrapperOptions)

  /** One match a regular expression reports: where it starts and what it matched. */
  datatype Cand = Cand(pos: nat, m: string)

  function End(c: Cand): nat {
    c.pos + |c.m|
  }

  /** The match `c` is the text at its position. */
  predicate MatchAt(text: string, c: Cand) {
    End(c) <= |text| && text[c.pos..End(c)] == c.m
  }

  /** Match `a` ends before match `b` starts. */
  predicate Before(a: Cand, b: Cand) {
    End(a) <= b.pos && a.pos < b.pos
  }

  /** The matches a global search reports in `text`: each is the text at its position, and they
      come left to right without overlapping. */
  predicate WellFormed(text: string, cands: seq<Cand>) {
    (forall i :: 0 <= i < |cands| ==> MatchAt(text, cands[i])) &&
    (forall i :: 0 <= i < |cands| - 1 ==> Before(cands[i], cands[i + 1]))
  }

  /** The regular-expression engine: all matches of a pattern (with its case flag) in a text, as a
      global search finds them; a non-global search uses the first. */
  type Engine = (Regex, string) -> seq<Cand>

  ghost predicate EngineSound(engine: Engine) {
    forall r: Regex, text: string :: WellFormed(text, engine(r, text))
  }

  /** What an extractor collects for its field: the matched strings, or, for an extractor with a
      sub-key, the matched strings under each sub-key. */
  datatype FieldValue = List(items: seq<string>) | Keyed(entries: map<string, seq<string>>)

  /** The marker an accepted match leaves in the annotated text: `{ field }` or `{ field - key }`. */
  function Placeholder(sc: Scrapper): string {
    "{ " + sc.field + (if sc.key != "" then " - " + sc.key else "") + " }"
  }

  /** `s` is one of the strings `v` collected. */
  predicate Holds(v: FieldValue, s: string) {
    match v
    case List(items) => s in items
    case Keyed(entries) => exists k :: k in entries && s in entries[k]
  }

  /** Every string a value holds is a subsequence of `text`. */
  predicate Within(v: FieldValue, text: string) {
    match v
    case List(items) => forall i :: 0 <= i < |items| ==> Subseq(items[i], text)
    case Keyed(entries) => forall k, i :: k in entries && 0 <= i < |entries[k]| ==> Subseq(entries[k][i], text)
  }
}
