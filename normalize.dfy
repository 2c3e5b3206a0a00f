/** Turning a declaration of fields and their patterns into the ordered list of extractors. */
module Normalize {
  import opened Wrappers
  import opened Text
  import opened ScrapTypes

  /** What normalize is handed as a pattern: a string, a regular expression, or any other value, of
      which only whether it is truthy matters. */
  datatype Item = IStr(s: string) | IRe(r: Regex) | IOther(truthy: bool)

  /** The `input` of a descriptor: one pattern or a list of them. */
  datatype Input = One(item: Item) | Many(items: seq<Item>)

  /** The entries present in a descriptor's `opts`. */
  datatype OptsDecl = OptsDecl(multiple: Option<bool>, insensitive: Option<bool>, validate: Option<Validate>)

  const NoOpts: OptsDecl := OptsDecl(None, None, None)

  /** One element of a declaration: a string, a regular expression, or a descriptor
      `{ input, key, opts }` (a key of "" stands for no key). */
  datatype Base = BStr(s: string) | BRe(r: Regex) | BDesc(input: Input, key: string, opts: OptsDecl)

  /** A value inside an object declaration. */
  datatype Value = VStr(s: string) | VRe(r: Regex) | VList(items: seq<Item>) | VOpts(o: OptsDecl) | VOther(truthy: bool)

  /** What a field is declared as: a list, a string, a regular expression, an object (a descriptor when its
      `input` is truthy, otherwise a map from sub-keys to patterns), or anything else. */
  datatype Decl = DList(bases: seq<Base>) | DStr(s: string) | DRe(r: Regex) | DObject(entries: seq<(string, Value)>) | DOther

  /** The per-field configuration `scrapSource` creates and `scrapBase` updates. */
  datatype CfgState = CfgState(field: string, key: string, multiple: bool, insensitive: bool, validate: Option<Validate>)

  /** The pattern that matches nothing, used when the input is neither a string nor a regular expression. */
  const Never: Regex := Regex("(?!)", "")

  // ---------------------------------------------------------------------------
  // normalize
  // ---------------------------------------------------------------------------

  /** normalize: an extractor for the configured field and key, whose options are the configuration's
      flags and validation. */
  function Normalize(item: Item, cfg: CfgState): (sc: Scrapper)
    ensures sc.field == cfg.field && sc.key == cfg.key && sc.opts.validate == cfg.validate
    ensures sc.opts.multiple == Some(cfg.multiple) && sc.opts.insensitive == Some(cfg.insensitive)
    ensures item.IStr? ==> sc.regex.source == item.s
    ensures item.IStr? ==> (IsGlobal(sc.regex) <==> cfg.multiple) && (IsInsensitive(sc.regex) <==> cfg.insensitive)
    ensures item.IRe? ==> sc.regex == item.r
    ensures item.IOther? ==> sc.regex == Never
  {
    var regex := match item
      case IStr(s) => Regex(s, Flags(cfg.multiple, cfg.insensitive))
      case IRe(r) => r
      case IOther(_) => Never;
    Scrapper(cfg.field, regex, cfg.key, ScrapperOptions(Some(cfg.multiple), Some(cfg.insensitive), cfg.validate))
  }

  /** normalize compiles a string with BuildRegex, unescaped, global and case-insensitive as the
      configuration says; a regular expression is passed to BuildRegex too and kept as it is; anything
      else never matches. */
  lemma NormalizeRegex(item: Item, cfg: CfgState)
    ensures var sc := Normalize(item, cfg);
      (item.IStr? ==>
        sc.regex == BuildRegex(Literal(item.s), false, cfg.multiple, cfg.insensitive) && sc.regex.source == item.s &&
        (IsGlobal(sc.regex) <==> cfg.multiple) && (IsInsensitive(sc.regex) <==> cfg.insensitive)) &&
      (item.IRe? ==> sc.regex == BuildRegex(Compiled(item.r), false, cfg.multiple, cfg.insensitive) && sc.regex == item.r) &&
      (item.IOther? ==> sc.regex == Never)
  {
    if item.IStr? {
      BuildRegexFlags(item.s, false, cfg.multiple, cfg.insensitive);
    }
  }

  /** The first `n` items of a list normalized under one configuration, in order. */
  function NormalizeFirst(items: seq<Item>, n: nat, cfg: CfgState): (r: seq<Scrapper>)
    requires n <= |items|
    ensures |r| == n
  {
    if n == 0 then [] else NormalizeFirst(items, n - 1, cfg) + [Normalize(items[n - 1], cfg)]
  }

  /** Every item of a list normalized under one configuration. */
  function NormalizeAll(items: seq<Item>, cfg: CfgState): seq<Scrapper> {
    NormalizeFirst(items, |items|, cfg)
  }

  /** The `j`-th extractor of a normalized list is the `j`-th item normalized. */
  lemma {:induction false} NormalizeAt(items: seq<Item>, n: nat, cfg: CfgState)
    requires n <= |items|
    ensures forall j :: 0 <= j < n ==> NormalizeFirst(items, n, cfg)[j] == Normalize(items[j], cfg)
  {
    if n > 0 {
      NormalizeAt(items, n - 1, cfg);
    }
  }

  // ---------------------------------------------------------------------------
  // scrapBase
  // ---------------------------------------------------------------------------

  /** The configuration once a descriptor has written its key (when truthy) and its options into it. */
  function Override(cfg: CfgState, key: string, o: OptsDecl): CfgState {
    CfgState(cfg.field, if key != "" then key else cfg.key,
             o.multiple.GetOr(cfg.multiple), o.insensitive.GetOr(cfg.insensitive),
             if o.validate.Some? then o.validate else cfg.validate)
  }

  /** The configuration after scrapBase: only a descriptor changes it. */
  function AfterBase(cfg: CfgState, base: Base): CfgState {
    if base.BDesc? then Override(cfg, base.key, base.opts) else cfg
  }

  /** The extractors scrapBase returns: one per pattern, made under the configuration the descriptor
      leaves behind. */
  function BaseScrappers(cfg: CfgState, base: Base): seq<Scrapper> {
    match base
    case BStr(s) => [Normalize(IStr(s), cfg)]
    case BRe(r) => [Normalize(IRe(r), cfg)]
    case BDesc(input, _, _) =>
      var after := AfterBase(cfg, base);
      match input
      case One(item) => [Normalize(item, after)]
      case Many(items) => NormalizeAll(items, after)
  }

  /** The configuration after scrapBase has been called on the first `n` bases, sharing it. */
  function ListState(cfg: CfgState, bases: seq<Base>, n: nat): CfgState
    requires n <= |bases|
  {
    if n == 0 then cfg else AfterBase(ListState(cfg, bases, n - 1), bases[n - 1])
  }

  /** The extractors of scrapBase called on the first `n` bases, sharing one configuration, in order. */
  function ListScrappers(cfg: CfgState, bases: seq<Base>, n: nat): seq<Scrapper>
    requires n <= |bases|
  {
    if n == 0 then []
    else ListScrappers(cfg, bases, n - 1) + BaseScrappers(ListState(cfg, bases, n - 1), bases[n - 1])
  }

  // ---------------------------------------------------------------------------
  // scrapSource
  // ---------------------------------------------------------------------------

  /** The value an object declaration holds under `name` (the first entry of that name). */
  function Lookup(entries: seq<(string, Value)>, name: string): (r: Option<Value>)
    ensures r.Some? <==> exists j :: 0 <= j < |entries| && entries[j].0 == name
  {
    if entries == [] then None
    else if entries[0].0 == name then Some(entries[0].1)
    else
      var r := Lookup(entries[1..], name);
      assert forall j :: 1 <= j < |entries| ==> entries[j] == entries[1..][j - 1];
      r
  }

  predicate Truthy(v: Value) {
    match v
    case VStr(s) => s != ""
    case VOther(t) => t
    case _ => true
  }

  /** A value read as a descriptor's `input`. */
  function InputOf(v: Value): Input {
    match v
    case VStr(s) => One(IStr(s))
    case VRe(r) => One(IRe(r))
    case VList(items) => Many(items)
    case VOpts(_) => One(IOther(true))
    case VOther(t) => One(IOther(t))
  }

  /** An object whose `input` is truthy is read as a descriptor. */
  function DescriptorOf(entries: seq<(string, Value)>): Option<Base> {
    match Lookup(entries, "input")
    case Some(v) =>
      if Truthy(v) then
        var key := match Lookup(entries, "key") case Some(VStr(s)) => s case _ => "";
        var o := match Lookup(entries, "opts") case Some(VOpts(o)) => o case _ => NoOpts;
        Some(BDesc(InputOf(v), key, o))
      else None
    case None => None
  }

  /** A sub-key is used when its value is a list, a string or a regular expression. */
  predicate Usable(v: Value) {
    v.VList? || v.VStr? || v.VRe?
  }

  /** The descriptors `{ input: value, key: sub-key }` the first `n` entries of an object read as a
      sub-key map stand for. */
  function SubKeyBases(entries: seq<(string, Value)>, n: nat): (r: seq<Base>)
    requires n <= |entries|
    ensures |r| <= n
    ensures forall i :: 0 <= i < |r| ==> r[i].BDesc? && r[i].opts == NoOpts
  {
    if n == 0 then []
    else
      var (k, v) := entries[n - 1];
      SubKeyBases(entries, n - 1) + (if Usable(v) then [BDesc(InputOf(v), k, NoOpts)] else [])
  }

  /** The descriptors a whole sub-key map stands for. */
  function SubKeys(entries: seq<(string, Value)>): seq<Base> {
    SubKeyBases(entries, |entries|)
  }

  /** The extractors of scrapBase called on every base of a list, sharing one configuration. */
  function RunScrappers(cfg: CfgState, bases: seq<Base>): seq<Scrapper> {
    ListScrappers(cfg, bases, |bases|)
  }

  /** The configuration one field's declaration leaves behind. */
  function DeclState(cfg: CfgState, data: Decl): CfgState {
    match data
    case DList(bases) => ListState(cfg, bases, |bases|)
    case DObject(entries) =>
      (match DescriptorOf(entries)
       case Some(b) => AfterBase(cfg, b)
       case None => ListState(cfg, SubKeys(entries), |SubKeys(entries)|))
    case _ => cfg
  }

  /** The extractors of one field, made under its fresh configuration. */
  function DeclScrappers(cfg: CfgState, data: Decl): seq<Scrapper> {
    match data
    case DList(bases) => RunScrappers(cfg, bases)
    case DStr(s) => BaseScrappers(cfg, BStr(s))
    case DRe(r) => BaseScrappers(cfg, BRe(r))
    case DObject(entries) =>
      (match DescriptorOf(entries)
       case Some(b) => BaseScrappers(cfg, b)
       case None => RunScrappers(cfg, SubKeys(entries)))
    case DOther => []
  }

  /** The configuration `scrapSource` starts each field with: both flags on unless given. */
  function FreshConfig(field: string, regexpGlobal: Option<bool>, regexpInsensitive: Option<bool>): CfgState {
    CfgState(field, "", regexpGlobal.GetOr(true), regexpInsensitive.GetOr(true), None)
  }

  /** The extractors of the `k`-th declared field. */
  function FieldScrappers(src: seq<(string, Decl)>, k: nat, regexpGlobal: Option<bool>, regexpInsensitive: Option<bool>): seq<Scrapper>
    requires k < |src|
  {
    DeclScrappers(FreshConfig(src[k].0, regexpGlobal, regexpInsensitive), src[k].1)
  }

  /** The extractors of each declared field, field by field. */
  function FieldLists(src: seq<(string, Decl)>, regexpGlobal: Option<bool>, regexpInsensitive: Option<bool>): seq<seq<Scrapper>> {
    seq(|src|, k requires 0 <= k < |src| => FieldScrappers(src, k, regexpGlobal, regexpInsensitive))
  }

  /** The lists `parts[lo..hi]` one after the other. */
  function Concat<T>(parts: seq<seq<T>>, lo: nat, hi: nat): seq<T>
    requires lo <= hi <= |parts|
    decreases hi
  {
    if hi == lo then [] else Concat(parts, lo, hi - 1) + parts[hi - 1]
  }

  /** The extractors of a whole declaration: field by field, in the order the fields are enumerated. */
  function SourceScrappers(src: seq<(string, Decl)>, regexpGlobal: Option<bool>, regexpInsensitive: Option<bool>): seq<Scrapper> {
    Concat(FieldLists(src, regexpGlobal, regexpInsensitive), 0, |src|)
  }

  // ---------------------------------------------------------------------------
  // The mutable configuration
  // ---------------------------------------------------------------------------

  /** The configuration object one field's declarations share; scrapBase writes into it. */
  class Config {
    var field: string
    var key: string
    var multiple: bool
    var insensitive: bool
    var validate: Option<Validate>

    function State(): CfgState
      reads this
    {
      CfgState(field, key, multiple, insensitive, validate)
    }

    constructor(field: string, multiple: bool, insensitive: bool)
      ensures State() == CfgState(field, "", multiple, insensitive, None)
    {
      this.field := field;
      this.key := "";
      this.multiple := multiple;
      this.insensitive := insensitive;
      this.validate := None;
    }

    /** scrapBase: a descriptor first writes its key and options into this configuration; then each of
        its patterns is normalized under it. */
    method ScrapBase(base: Base) returns (out: seq<Scrapper>)
      modifies this
      ensures State() == AfterBase(old(State()), base)
      ensures out == BaseScrappers(old(State()), base)
    {
      match base
      case BStr(s) =>
        out := [Normalize(IStr(s), State())];
      case BRe(r) =>
        out := [Normalize(IRe(r), State())];
      case BDesc(input, k, o) =>
        Apply(k, o);
        match input
        case One(item) =>
          out := [Normalize(item, State())];
        case Many(items) =>
          out := NormalizeItems(items, State());
    }

    /** A descriptor writes its key, when truthy, and each of its options into the configuration. */
    method Apply(k: string, o: OptsDecl)
      modifies this
      ensures State() == Override(old(State()), k, o)
    {
      if k != "" {
        key := k;
      }
      if o.multiple.Some? {
        multiple := o.multiple.value;
      }
      if o.insensitive.Some? {
        insensitive := o.insensitive.value;
      }
      if o.validate.Some? {
        validate := o.validate;
      }
    }

    /** A run of scrapBase calls on this configuration, left to right. */
    method ScrapList(bases: seq<Base>) returns (out: seq<Scrapper>)
      modifies this
      ensures State() == ListState(old(State()), bases, |bases|)
      ensures out == RunScrappers(old(State()), bases)
    {
      out := [];
      ghost var start := State();
      var i := 0;
      while i < |bases|
        invariant 0 <= i <= |bases|
        invariant State() == ListState(start, bases, i)
        invariant out == ListScrappers(start, bases, i)
      {
        var more := ScrapBase(bases[i]);
        out := out + more;
        i := i + 1;
      }
    }

    /** The body of scrapSource's loop for one field: a list, a string or regular expression, a
        descriptor, or a sub-key map whose usable entries become descriptors with that sub-key. */
    method ScrapField(data: Decl) returns (out: seq<Scrapper>)
      modifies this
      ensures State() == DeclState(old(State()), data)
      ensures out == DeclScrappers(old(State()), data)
    {
      match data
      case DList(bases) =>
        out := ScrapList(bases);
      case DStr(s) =>
        out := ScrapBase(BStr(s));
      case DRe(r) =>
        out := ScrapBase(BRe(r));
      case DObject(entries) =>
        var desc := DescriptorOf(entries);
        if desc.Some? {
          out := ScrapBase(desc.value);
        } else {
          out := ScrapSubKeys(this, entries);
        }
      case DOther =>
        out := [];
    }
  }

  /** normalize applied to each pattern of a descriptor's list, in order. */
  method NormalizeItems(items: seq<Item>, cfg: CfgState) returns (out: seq<Scrapper>)
    ensures out == NormalizeAll(items, cfg)
  {
    out := [];
    var i := 0;
    while i < |items|
      invariant 0 <= i <= |items|
      invariant out == NormalizeFirst(items, i, cfg)
    {
      out := out + [Normalize(items[i], cfg)];
      i := i + 1;
    }
  }

  /** The sub-key map branch of scrapSource: each usable entry becomes a descriptor with its
      sub-key, handed to scrapBase on the shared configuration; other entries are skipped. */
  method ScrapSubKeys(cfg: Config, entries: seq<(string, Value)>) returns (out: seq<Scrapper>)
    modifies cfg
    ensures cfg.State() == ListState(old(cfg.State()), SubKeys(entries), |SubKeys(entries)|)
    ensures out == RunScrappers(old(cfg.State()), SubKeys(entries))
  {
    out := [];
    ghost var start := cfg.State();
    for i := 0 to |entries|
      invariant cfg.State() == ListState(start, SubKeyBases(entries, i), |SubKeyBases(entries, i)|)
      invariant out == ListScrappers(start, SubKeyBases(entries, i), |SubKeyBases(entries, i)|)
    {
      var (k, v) := entries[i];
      SubKeyAdvance(start, entries, i);
      if Usable(v) {
        var more := cfg.ScrapBase(BDesc(InputOf(v), k, NoOpts));
        out := out + more;
      }
    }
  }

  /** The run over the descriptors of one more entry: a usable entry's descriptor is handed to
      scrapBase, any other entry leaves the run as it was. */
  lemma SubKeyAdvance(start: CfgState, entries: seq<(string, Value)>, i: nat)
    requires i < |entries|
    ensures var done, next := SubKeyBases(entries, i), SubKeyBases(entries, i + 1);
      var b := BDesc(InputOf(entries[i].1), entries[i].0, NoOpts);
      if Usable(entries[i].1) then
        ListState(start, next, |next|) == AfterBase(ListState(start, done, |done|), b) &&
        ListScrappers(start, next, |next|) == ListScrappers(start, done, |done|) + BaseScrappers(ListState(start, done, |done|), b)
      else
        ListState(start, next, |next|) == ListState(start, done, |done|) &&
        ListScrappers(start, next, |next|) == ListScrappers(start, done, |done|)
  {
    SubKeyStep(entries, i);
    if Usable(entries[i].1) {
      ListAppend(start, SubKeyBases(entries, i), BDesc(InputOf(entries[i].1), entries[i].0, NoOpts));
    }
  }

  /** One more entry of a sub-key map adds its descriptor when it is usable. */
  lemma SubKeyStep(entries: seq<(string, Value)>, i: nat)
    requires i < |entries|
    ensures Usable(entries[i].1) ==>
      SubKeyBases(entries, i + 1) == SubKeyBases(entries, i) + [BDesc(InputOf(entries[i].1), entries[i].0, NoOpts)]
    ensures !Usable(entries[i].1) ==> SubKeyBases(entries, i + 1) == SubKeyBases(entries, i)
  {
    assert SubKeyBases(entries, i) + [] == SubKeyBases(entries, i);
  }

  /** Calling scrapBase on one more base extends the run. */
  lemma ListAppend(cfg: CfgState, bases: seq<Base>, b: Base)
    ensures ListState(cfg, bases + [b], |bases| + 1) == AfterBase(ListState(cfg, bases, |bases|), b)
    ensures ListScrappers(cfg, bases + [b], |bases| + 1) ==
      ListScrappers(cfg, bases, |bases|) + BaseScrappers(ListState(cfg, bases, |bases|), b)
  {
    ListPrefix(cfg, bases, bases + [b], |bases|);
  }

  /** A run only depends on the bases it has visited. */
  lemma {:induction false} ListPrefix(cfg: CfgState, bases: seq<Base>, more: seq<Base>, n: nat)
    requires n <= |bases| && n <= |more|
    requires forall i :: 0 <= i < n ==> bases[i] == more[i]
    ensures ListState(cfg, bases, n) == ListState(cfg, more, n)
    ensures ListScrappers(cfg, bases, n) == ListScrappers(cfg, more, n)
  {
    if n > 0 {
      ListPrefix(cfg, bases, more, n - 1);
    }
  }

  /** scrapSource: for each field in turn, a fresh configuration with the given or default flags, and
      the extractors its declaration yields appended to the list. */
  method ScrapSource(src: seq<(string, Decl)>, regexpGlobal: Option<bool>, regexpInsensitive: Option<bool>)
    returns (scrappers: seq<Scrapper>)
    ensures scrappers == SourceScrappers(src, regexpGlobal, regexpInsensitive)
  {
    scrappers := [];
    ghost var parts := FieldLists(src, regexpGlobal, regexpInsensitive);
    var i := 0;
    while i < |src|
      invariant 0 <= i <= |src|
      invariant scrappers == Concat(parts, 0, i)
    {
      var (field, data) := src[i];
      var cfg := new Config(field, regexpGlobal.GetOr(true), regexpInsensitive.GetOr(true));
      var more := cfg.ScrapField(data);
      scrappers := scrappers + more;
      i := i + 1;
    }
  }

  // ---------------------------------------------------------------------------
  // Properties of the extractor list
  // ---------------------------------------------------------------------------

  /** No descriptor of the declaration sets `multiple` or `insensitive`. */
  predicate NoFlagOverride(data: Decl) {
    match data
    case DList(bases) => forall i :: 0 <= i < |bases| ==> !bases[i].BDesc? || FlagFree(bases[i].opts)
    case DObject(entries) => DescriptorOf(entries).None? || FlagFree(DescriptorOf(entries).value.opts)
    case _ => true
  }

  predicate FlagFree(o: OptsDecl) {
    o.multiple.None? && o.insensitive.None?
  }

  /** Every extractor of `scs` carries field `f`. */
  predicate AllField(scs: seq<Scrapper>, f: string) {
    forall i :: 0 <= i < |scs| ==> scs[i].field == f
  }

  /** Every extractor of `scs` was made with these flags. */
  predicate AllFlags(scs: seq<Scrapper>, multiple: bool, insensitive: bool) {
    forall i :: 0 <= i < |scs| ==> scs[i].opts.multiple == Some(multiple) && scs[i].opts.insensitive == Some(insensitive)
  }

  /** Every extractor of `scs` carries the field of one of the declarations `src[lo..hi]`. */
  predicate FieldsFrom(scs: seq<Scrapper>, src: seq<(string, Decl)>, lo: nat, hi: nat) {
    forall i :: 0 <= i < |scs| ==> exists k :: lo <= k < hi && k < |src| && scs[i].field == src[k].0
  }

  /** What scrapBase makes: extractors for the configured field, whose options are the configuration
      the descriptor leaves behind. */
  lemma BaseFacts(cfg: CfgState, b: Base)
    ensures AfterBase(cfg, b).field == cfg.field
    ensures var scs := BaseScrappers(cfg, b); var after := AfterBase(cfg, b);
      AllField(scs, cfg.field) && AllFlags(scs, after.multiple, after.insensitive) &&
      forall i :: 0 <= i < |scs| ==> scs[i].key == after.key
  {
    if b.BDesc? && b.input.Many? {
      NormalizeAt(b.input.items, |b.input.items|, AfterBase(cfg, b));
    }
  }

  /** A run of scrapBase calls sharing one configuration keeps its field, and keeps its flags when no
      descriptor sets them. */
  lemma {:induction false} ListFacts(cfg: CfgState, bases: seq<Base>, n: nat)
    requires n <= |bases|
    ensures ListState(cfg, bases, n).field == cfg.field
    ensures AllField(ListScrappers(cfg, bases, n), cfg.field)
    ensures (forall i :: 0 <= i < n ==> !bases[i].BDesc? || FlagFree(bases[i].opts)) ==>
      ListState(cfg, bases, n).multiple == cfg.multiple && ListState(cfg, bases, n).insensitive == cfg.insensitive &&
      AllFlags(ListScrappers(cfg, bases, n), cfg.multiple, cfg.insensitive)
  {
    if n > 0 {
      ListFacts(cfg, bases, n - 1);
      BaseFacts(ListState(cfg, bases, n - 1), bases[n - 1]);
    }
  }

  /** Every extractor of a field carries that field, and the field's default flags unless one of its
      descriptors overrides them. */
  lemma DeclFacts(cfg: CfgState, data: Decl)
    ensures AllField(DeclScrappers(cfg, data), cfg.field)
    ensures NoFlagOverride(data) ==> AllFlags(DeclScrappers(cfg, data), cfg.multiple, cfg.insensitive)
  {
    match data
    case DList(bases) =>
      ListFacts(cfg, bases, |bases|);
    case DStr(s) =>
      BaseFacts(cfg, BStr(s));
    case DRe(r) =>
      BaseFacts(cfg, BRe(r));
    case DObject(entries) =>
      if DescriptorOf(entries).Some? {
        BaseFacts(cfg, DescriptorOf(entries).value);
      } else {
        ListFacts(cfg, SubKeys(entries), |SubKeys(entries)|);
      }
    case DOther =>
  }

  /** Every extractor of the `k`-th field carries that field, and its default flags unless one of its
      descriptors overrides them. */
  lemma FieldFacts(src: seq<(string, Decl)>, k: nat, regexpGlobal: Option<bool>, regexpInsensitive: Option<bool>)
    requires k < |src|
    ensures var scs := FieldLists(src, regexpGlobal, regexpInsensitive)[k];
      AllField(scs, src[k].0) &&
      (NoFlagOverride(src[k].1) ==> AllFlags(scs, regexpGlobal.GetOr(true), regexpInsensitive.GetOr(true)))
  {
    DeclFacts(FreshConfig(src[k].0, regexpGlobal, regexpInsensitive), src[k].1);
  }

  /** When each list of a range carries its own field, their concatenation carries fields of the range. */
  lemma {:induction false} ConcatFields(parts: seq<seq<Scrapper>>, src: seq<(string, Decl)>, lo: nat, hi: nat)
    requires lo <= hi <= |parts| && |parts| == |src|
    requires forall k :: lo <= k < hi ==> AllField(parts[k], src[k].0)
    ensures FieldsFrom(Concat(parts, lo, hi), src, lo, hi)
    decreases hi
  {
    if hi > lo {
      ConcatFields(parts, src, lo, hi - 1);
      var before: seq<Scrapper> := Concat(parts, lo, hi - 1);
      var last: seq<Scrapper> := parts[hi - 1];
      assert AllField(last, src[hi - 1].0);
      forall i: int | 0 <= i < |before + last|
        ensures exists k :: lo <= k < hi && k < |src| && (before + last)[i].field == src[k].0
      {
        if i < |before| {
          var k :| lo <= k < hi - 1 && k < |src| && before[i].field == src[k].0;
          assert (before + last)[i] == before[i];
        } else {
          assert (before + last)[i] == last[i - |before|];
        }
      }
    }
  }

  /** When each list of a range carries the same flags, so does their concatenation. */
  lemma {:induction false} ConcatFlags(parts: seq<seq<Scrapper>>, lo: nat, hi: nat, multiple: bool, insensitive: bool)
    requires lo <= hi <= |parts|
    requires forall k :: lo <= k < hi ==> AllFlags(parts[k], multiple, insensitive)
    ensures AllFlags(Concat(parts, lo, hi), multiple, insensitive)
    decreases hi
  {
    if hi > lo {
      ConcatFlags(parts, lo, hi - 1, multiple, insensitive);
      var before: seq<Scrapper> := Concat(parts, lo, hi - 1);
      var last: seq<Scrapper> := parts[hi - 1];
      assert AllFlags(last, multiple, insensitive);
      forall i: int | 0 <= i < |before + last|
        ensures (before + last)[i].opts.multiple == Some(multiple) && (before + last)[i].opts.insensitive == Some(insensitive)
      {
        if i < |before| {
          assert (before + last)[i] == before[i];
        } else {
          assert (before + last)[i] == last[i - |before|];
        }
      }
    }
  }

  /** The extractors of a range of fields carry exactly those fields, in order: the first field's name
      once per extractor it makes, then the next field's, and so on. */
  lemma RangeFields(src: seq<(string, Decl)>, lo: nat, hi: nat, regexpGlobal: Option<bool>, regexpInsensitive: Option<bool>)
    requires lo <= hi <= |src|
    ensures FieldsFrom(Concat(FieldLists(src, regexpGlobal, regexpInsensitive), lo, hi), src, lo, hi)
    ensures var parts := FieldLists(src, regexpGlobal, regexpInsensitive);
      FieldsOf(Concat(parts, lo, hi)) == FieldRun(parts, src, lo, hi)
  {
    var parts := FieldLists(src, regexpGlobal, regexpInsensitive);
    forall k | lo <= k < hi
      ensures AllField(parts[k], src[k].0)
    {
      FieldFacts(src, k, regexpGlobal, regexpInsensitive);
    }
    ConcatFields(parts, src, lo, hi);
    ConcatFieldRun(parts, src, lo, hi);
  }

  /** The fields of a list of extractors, in order. */
  function FieldsOf(scs: seq<Scrapper>): (fields: seq<string>)
    ensures |fields| == |scs|
  {
    seq(|scs|, i requires 0 <= i < |scs| => scs[i].field)
  }

  /** `n` copies of a name. */
  function Copies(s: string, n: nat): (r: seq<string>)
    ensures |r| == n
  {
    seq(n, _ => s)
  }

  /** The fields `parts[lo..hi]` are made for: the `k`-th field's name once per extractor in `parts[k]`. */
  function FieldRun(parts: seq<seq<Scrapper>>, src: seq<(string, Decl)>, lo: nat, hi: nat): seq<string>
    requires lo <= hi <= |parts| && |parts| == |src|
    decreases hi
  {
    if hi == lo then [] else FieldRun(parts, src, lo, hi - 1) + Copies(src[hi - 1].0, |parts[hi - 1]|)
  }

  lemma FieldsAppend(a: seq<Scrapper>, b: seq<Scrapper>)
    ensures FieldsOf(a + b) == FieldsOf(a) + FieldsOf(b)
  {
    assert forall i :: 0 <= i < |a + b| ==> FieldsOf(a + b)[i] == (FieldsOf(a) + FieldsOf(b))[i];
  }

  /** Lists that each carry their own field concatenate to the run of those fields. */
  lemma {:induction false} ConcatFieldRun(parts: seq<seq<Scrapper>>, src: seq<(string, Decl)>, lo: nat, hi: nat)
    requires lo <= hi <= |parts| && |parts| == |src|
    requires forall k :: lo <= k < hi ==> AllField(parts[k], src[k].0)
    ensures FieldsOf(Concat(parts, lo, hi)) == FieldRun(parts, src, lo, hi)
    decreases hi
  {
    if hi > lo {
      ConcatFieldRun(parts, src, lo, hi - 1);
      FieldsAppend(Concat(parts, lo, hi - 1), parts[hi - 1]);
      assert FieldsOf(parts[hi - 1]) == Copies(src[hi - 1].0, |parts[hi - 1]|);
    }
  }

  /** The lists of a range are those of its first part followed by those of the rest. */
  lemma {:induction false} ConcatSplit<T>(parts: seq<seq<T>>, lo: nat, mid: nat, hi: nat)
    requires lo <= mid <= hi <= |parts|
    ensures Concat(parts, lo, hi) == Concat(parts, lo, mid) + Concat(parts, mid, hi)
    decreases hi
  {
    if hi == mid {
      assert Concat(parts, lo, mid) + [] == Concat(parts, lo, mid);
    } else {
      ConcatSplit(parts, lo, mid, hi - 1);
      var a := Concat(parts, lo, mid);
      var b := Concat(parts, mid, hi - 1);
      assert (a + b) + parts[hi - 1] == a + (b + parts[hi - 1]);
    }
  }

  /** Extractors come field by field: those of the first `n` fields form a prefix of the list and carry
      one of those fields, and every later one carries the field of a later declaration. */
  lemma SourceOrder(src: seq<(string, Decl)>, regexpGlobal: Option<bool>, regexpInsensitive: Option<bool>, n: nat)
    requires n <= |src|
    ensures var all := SourceScrappers(src, regexpGlobal, regexpInsensitive);
      var pre := Concat(FieldLists(src, regexpGlobal, regexpInsensitive), 0, n);
      pre <= all && FieldsFrom(pre, src, 0, n) && FieldsFrom(all[|pre|..], src, n, |src|)
  {
    var parts := FieldLists(src, regexpGlobal, regexpInsensitive);
    ConcatSplit(parts, 0, n, |src|);
    RangeFields(src, 0, n, regexpGlobal, regexpInsensitive);
    RangeFields(src, n, |src|, regexpGlobal, regexpInsensitive);
    var pre := Concat(parts, 0, n);
    var post := Concat(parts, n, |src|);
    assert (pre + post)[|pre|..] == post;
  }

  /** Without overrides in the declarations, every extractor is global and case-insensitive unless the
      options turn that off. */
  lemma SourceDefaults(src: seq<(string, Decl)>, regexpGlobal: Option<bool>, regexpInsensitive: Option<bool>)
    requires forall k :: 0 <= k < |src| ==> NoFlagOverride(src[k].1)
    ensures AllFlags(SourceScrappers(src, regexpGlobal, regexpInsensitive), regexpGlobal.GetOr(true), regexpInsensitive.GetOr(true))
  {
    var parts := FieldLists(src, regexpGlobal, regexpInsensitive);
    forall k | 0 <= k < |src|
      ensures AllFlags(parts[k], regexpGlobal.GetOr(true), regexpInsensitive.GetOr(true))
    {
      FieldFacts(src, k, regexpGlobal, regexpInsensitive);
    }
    ConcatFlags(parts, 0, |src|, regexpGlobal.GetOr(true), regexpInsensitive.GetOr(true));
  }

  /** Every extractor of `scs` carries the key of one of the first `n` bases. */
  predicate KeysFrom(scs: seq<Scrapper>, bases: seq<Base>, n: nat)
    requires n <= |bases|
  {
    forall i :: 0 <= i < |scs| ==> exists j :: 0 <= j < n && bases[j].BDesc? && scs[i].key == bases[j].key
  }

  /** In a run of descriptors with non-empty keys, every extractor carries the key of its own
      descriptor: the first descriptor's key once per pattern it holds, then the next one's, and so on. */
  lemma {:induction false} ListKeys(cfg: CfgState, bases: seq<Base>, n: nat)
    requires n <= |bases|
    requires forall i :: 0 <= i < n ==> bases[i].BDesc? && bases[i].key != ""
    ensures KeysFrom(ListScrappers(cfg, bases, n), bases, n)
    ensures KeysOf(ListScrappers(cfg, bases, n)) == KeyRun(bases, n)
  {
    ListKeysFrom(cfg, bases, n);
    ListKeyRun(cfg, bases, n);
  }

  lemma {:induction false} ListKeysFrom(cfg: CfgState, bases: seq<Base>, n: nat)
    requires n <= |bases|
    requires forall i :: 0 <= i < n ==> bases[i].BDesc? && bases[i].key != ""
    ensures KeysFrom(ListScrappers(cfg, bases, n), bases, n)
  {
    if n > 0 {
      ListKeysFrom(cfg, bases, n - 1);
      BaseFacts(ListState(cfg, bases, n - 1), bases[n - 1]);
      var before: seq<Scrapper> := ListScrappers(cfg, bases, n - 1);
      var last: seq<Scrapper> := BaseScrappers(ListState(cfg, bases, n - 1), bases[n - 1]);
      assert KeysFrom(before, bases, n - 1);
      forall i: int | 0 <= i < |before + last|
        ensures exists j :: 0 <= j < n && bases[j].BDesc? && (before + last)[i].key == bases[j].key
      {
        if i < |before| {
          var j :| 0 <= j < n - 1 && bases[j].BDesc? && before[i].key == bases[j].key;
          assert (before + last)[i] == before[i];
        } else {
          assert (before + last)[i] == last[i - |before|];
          assert last[i - |before|].key == bases[n - 1].key;
        }
      }
    }
  }

  /** The keys of a list of extractors, in order. */
  function KeysOf(scs: seq<Scrapper>): (keys: seq<string>)
    ensures |keys| == |scs|
  {
    seq(|scs|, i requires 0 <= i < |scs| => scs[i].key)
  }

  /** How many extractors scrapBase makes from a base: one per pattern. */
  function Width(b: Base): nat {
    if b.BDesc? && b.input.Many? then |b.input.items| else 1
  }

  /** The keys the first `n` descriptors hand out: each one's own key, once per pattern it holds. */
  function KeyRun(bases: seq<Base>, n: nat): seq<string>
    requires n <= |bases| && forall i :: 0 <= i < n ==> bases[i].BDesc?
  {
    if n == 0 then [] else KeyRun(bases, n - 1) + Copies(bases[n - 1].key, Width(bases[n - 1]))
  }

  lemma KeysAppend(a: seq<Scrapper>, b: seq<Scrapper>)
    ensures KeysOf(a + b) == KeysOf(a) + KeysOf(b)
  {
    assert forall i :: 0 <= i < |a + b| ==> KeysOf(a + b)[i] == (KeysOf(a) + KeysOf(b))[i];
  }

  /** A descriptor with a key makes one extractor per pattern, each under that key. */
  lemma BaseKeys(cfg: CfgState, b: Base)
    requires b.BDesc? && b.key != ""
    ensures KeysOf(BaseScrappers(cfg, b)) == Copies(b.key, Width(b))
  {
    BaseFacts(cfg, b);
  }

  lemma {:induction false} ListKeyRun(cfg: CfgState, bases: seq<Base>, n: nat)
    requires n <= |bases|
    requires forall i :: 0 <= i < n ==> bases[i].BDesc? && bases[i].key != ""
    ensures KeysOf(ListScrappers(cfg, bases, n)) == KeyRun(bases, n)
  {
    if n > 0 {
      ListKeyRun(cfg, bases, n - 1);
      BaseKeys(ListState(cfg, bases, n - 1), bases[n - 1]);
      KeysAppend(ListScrappers(cfg, bases, n - 1), BaseScrappers(ListState(cfg, bases, n - 1), bases[n - 1]));
    }
  }

  /** Each of the descriptors `r` comes from a usable one of the first `n` entries, keyed by its sub-key. */
  predicate OriginsIn(r: seq<Base>, entries: seq<(string, Value)>, n: nat)
    requires n <= |entries|
  {
    forall i :: 0 <= i < |r| ==>
      exists j :: 0 <= j < n && Usable(entries[j].1) && r[i].BDesc? && r[i].key == entries[j].0 && r[i].input == InputOf(entries[j].1)
  }

  /** Each descriptor the first `n` entries of a sub-key map stand for comes from a usable entry,
      keyed by its sub-key; without usable entries there is none. */
  lemma {:induction false} SubKeyOrigin(entries: seq<(string, Value)>, n: nat)
    requires n <= |entries|
    ensures OriginsIn(SubKeyBases(entries, n), entries, n)
    ensures (forall j :: 0 <= j < n ==> !Usable(entries[j].1)) ==> SubKeyBases(entries, n) == []
  {
    if n > 0 {
      SubKeyOrigin(entries, n - 1);
      var before: seq<Base> := SubKeyBases(entries, n - 1);
      var (k, v) := entries[n - 1];
      var last: seq<Base> := if Usable(v) then [BDesc(InputOf(v), k, NoOpts)] else [];
      assert OriginsIn(before, entries, n - 1);
      forall i: int | 0 <= i < |before + last|
        ensures exists j :: 0 <= j < n && Usable(entries[j].1) && (before + last)[i].BDesc? &&
                            (before + last)[i].key == entries[j].0 && (before + last)[i].input == InputOf(entries[j].1)
      {
        if i < |before| {
          var j :| 0 <= j < n - 1 && Usable(entries[j].1) && before[i].BDesc? && before[i].key == entries[j].0 && before[i].input == InputOf(entries[j].1);
          assert (before + last)[i] == before[i];
        } else {
          assert (before + last)[i] == last[0];
        }
      }
    }
  }

  /** The descriptors of a sub-key map, handed to scrapBase, give extractors keyed by its usable
      sub-keys (when none is empty); without usable entries they give none. */
  lemma SubKeyRun(cfg: CfgState, entries: seq<(string, Value)>)
    requires forall j :: 0 <= j < |entries| ==> entries[j].0 != ""
    ensures var scs := RunScrappers(cfg, SubKeys(entries));
      (forall i :: 0 <= i < |scs| ==> exists j :: 0 <= j < |entries| && Usable(entries[j].1) && scs[i].key == entries[j].0) &&
      ((forall j :: 0 <= j < |entries| ==> !Usable(entries[j].1)) ==> scs == [])
  {
    var bases := SubKeys(entries);
    SubKeyOrigin(entries, |entries|);
    assert OriginsIn(bases, entries, |entries|);
    forall b | 0 <= b < |bases|
      ensures bases[b].BDesc? && bases[b].key != ""
    {
      var j :| 0 <= j < |entries| && Usable(entries[j].1) && bases[b].BDesc? && bases[b].key == entries[j].0 && bases[b].input == InputOf(entries[j].1);
    }
    ListKeys(cfg, bases, |bases|);
    var scs := RunScrappers(cfg, bases);
    assert KeysFrom(scs, bases, |bases|);
    forall i | 0 <= i < |scs|
      ensures exists j :: 0 <= j < |entries| && Usable(entries[j].1) && scs[i].key == entries[j].0
    {
      var b :| 0 <= b < |bases| && bases[b].BDesc? && scs[i].key == bases[b].key;
      var j :| 0 <= j < |entries| && Usable(entries[j].1) && bases[b].BDesc? && bases[b].key == entries[j].0 && bases[b].input == InputOf(entries[j].1);
    }
  }

  /** An object that is not a descriptor is read as a sub-key map: its extractors are keyed by its
      usable sub-keys (when none is empty), and entries that are not a list, a string or a regular
      expression give none. */
  lemma SubKeyNames(cfg: CfgState, entries: seq<(string, Value)>)
    requires DescriptorOf(entries).None?
    requires forall j :: 0 <= j < |entries| ==> entries[j].0 != ""
    ensures var scs := DeclScrappers(cfg, DObject(entries));
      (forall i :: 0 <= i < |scs| ==> exists j :: 0 <= j < |entries| && Usable(entries[j].1) && scs[i].key == entries[j].0) &&
      ((forall j :: 0 <= j < |entries| ==> !Usable(entries[j].1)) ==> scs == [])
  {
    SubKeyRun(cfg, entries);
  }
}
