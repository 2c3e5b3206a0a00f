// Base64 encoding and decoding of strings of UTF-16 code units, following the
// group-of-three loop of src/base64.ts: each three input units become four
// alphabet characters, with '=' standing for the units missing from the last group.

module Base64 {
  import opened Wrappers

  /** A JavaScript string is a sequence of UTF-16 code units. */
  type CodeUnit = c: int | 0 <= c < 0x1_0000

  /** The 62 letters and digits shared by both alphabets: A-Z, a-z, 0-9. */
  const Characters: string := CharRange('A', 26) + CharRange('a', 26) + CharRange('0', 10)

  /** The `n` characters counting up from `first`. */
  function CharRange(first: char, n: nat): (r: string)
    requires first as int + n <= 128
    ensures |r| == n
  {
    seq(n, k requires 0 <= k < n => (first as int + k) as char)
  }
  const Extra: string := "+/"
  const UrlExtra: string := "-_"
  const Pad: char := '='

  const LengthError: string := "Invalid length of encoded string."
  const CharacterError: string := "Invalid character(s) in encoded string."
  const PaddingError: string := "Invalid padding in encoded string."

  /** The 65 characters indexed by the encoder: 64 digits and the pad at index 64. */
  function Alphabet(urlSafe: bool): string {
    Characters + (if urlSafe then UrlExtra else Extra) + [Pad]
  }

  /** The character of index `k`, computed from its range. */
  function Digit(k: nat, urlSafe: bool): char
    requires k < 65
  {
    if k < 26 then ('A' as int + k) as char
    else if k < 52 then ('a' as int + k - 26) as char
    else if k < 62 then ('0' as int + k - 52) as char
    else if k == 62 then (if urlSafe then '-' else '+')
    else if k == 63 then (if urlSafe then '_' else '/')
    else Pad
  }

  lemma AlphabetDigits(urlSafe: bool)
    ensures |Alphabet(urlSafe)| == 65
    ensures forall k :: 0 <= k < 65 ==> Alphabet(urlSafe)[k] == Digit(k, urlSafe)
  {
  }

  /** Distinct indices name distinct characters. */
  lemma DigitInjective(j: nat, k: nat, urlSafe: bool)
    requires j < 65 && k < 65 && j != k
    ensures Digit(j, urlSafe) != Digit(k, urlSafe)
  {
  }

  // ---------------------------------------------------------------------------
  // Encoding
  // ---------------------------------------------------------------------------

  /** The code unit at `k`, or 0 past the end: `NaN << 16` and `NaN || 0` are both 0. */
  function UnitAt(x: seq<CodeUnit>, k: nat): nat {
    if k < |x| then x[k] else 0
  }

  /** The 24-bit buffer of the group starting `x`; only its low 24 bits are ever read. */
  function Buffer(x: seq<CodeUnit>): nat {
    UnitAt(x, 0) as int * 65536 + UnitAt(x, 1) as int * 256 + UnitAt(x, 2) as int
  }

  /** The four alphabet indices of the group starting `x`; 64 (the pad) for a missing unit. */
  function Indices(x: seq<CodeUnit>): seq<nat> {
    var buf := Buffer(x);
    [buf / 262144 % 64, buf / 4096 % 64,
     if |x| < 2 then 64 else buf / 64 % 64,
     if |x| < 3 then 64 else buf % 64]
  }

  function EncodeGroup(x: seq<CodeUnit>, urlSafe: bool): string {
    var idx := Indices(x);
    var chars := Alphabet(urlSafe);
    [chars[idx[0]], chars[idx[1]], chars[idx[2]], chars[idx[3]]]
  }

  /** What Base64Encode returns: one group, then the groups of the rest while units remain. */
  function Encoded(x: seq<CodeUnit>, urlSafe: bool): string
    decreases |x|
  {
    EncodeGroup(x, urlSafe) + (if |x| > 3 then Encoded(x[3..], urlSafe) else "")
  }

  /** Base64Encode: a do-while loop over groups of three code units. */
  method Base64Encode(input: seq<CodeUnit>, urlSafe: bool) returns (encoded: string)
    ensures encoded == Encoded(input, urlSafe)
  {
    var chars := Alphabet(urlSafe);
    var i := 0;
    encoded := "";
    var more := true;
    while more
      invariant i <= |input| + 3
      invariant more ==> i == 0 || i < |input|
      invariant more ==> encoded + Encoded(input[i..], urlSafe) == Encoded(input, urlSafe)
      invariant !more ==> encoded == Encoded(input, urlSafe)
      decreases |input| + 3 - i
    {
      var buf0: int := if i < |input| then input[i] else 0;
      var buf1: int := if i + 1 < |input| then input[i + 1] else 0;
      var buf2: int := if i + 2 < |input| then input[i + 2] else 0;
      var buf := buf0 * 65536 + buf1 * 256 + buf2;
      var idx := [buf / 262144 % 64, buf / 4096 % 64,
                  if i + 1 < |input| then buf / 64 % 64 else 64,
                  if i + 2 < |input| then buf % 64 else 64];
      EncodeStep(input, i, urlSafe, buf, idx);
      var quad := [chars[idx[0]], chars[idx[1]], chars[idx[2]], chars[idx[3]]];
      ghost var rest := if i + 3 < |input| then Encoded(input[i + 3..], urlSafe) else "";
      AppendAssoc(encoded, quad, rest);
      encoded := encoded + quad;
      i := i + 3;
      more := i < |input|;
    }
  }

  /** One pass of the encoding loop: the group at `i` and the groups after it. */
  lemma EncodeStep(input: seq<CodeUnit>, i: nat, urlSafe: bool, buf: int, idx: seq<int>)
    requires i == 0 || i < |input|
    requires buf == UnitAt(input, i) * 65536 + UnitAt(input, i + 1) * 256 + UnitAt(input, i + 2)
    requires idx == [buf / 262144 % 64, buf / 4096 % 64,
                     if i + 1 < |input| then buf / 64 % 64 else 64,
                     if i + 2 < |input| then buf % 64 else 64]
    ensures forall k :: 0 <= k < 4 ==> 0 <= idx[k] < |Alphabet(urlSafe)|
    ensures Encoded(input[i..], urlSafe) ==
      [Alphabet(urlSafe)[idx[0]], Alphabet(urlSafe)[idx[1]], Alphabet(urlSafe)[idx[2]], Alphabet(urlSafe)[idx[3]]] +
      (if i + 3 < |input| then Encoded(input[i + 3..], urlSafe) else "")
  {
    var group := input[i..];
    assert UnitAt(group, 0) == UnitAt(input, i);
    assert UnitAt(group, 1) == UnitAt(input, i + 1);
    assert UnitAt(group, 2) == UnitAt(input, i + 2);
    assert Indices(group) == idx;
    if i + 3 < |input| {
      assert group[3..] == input[i + 3..];
    }
  }

  lemma AppendAssoc<T>(a: seq<T>, b: seq<T>, c: seq<T>)
    ensures (a + b) + c == a + (b + c)
  {
  }

  /** The number of four-character groups: at least one, even for no input. */
  function GroupCount(n: nat): nat {
    if n == 0 then 1 else (n + 2) / 3
  }

  /** The number of pad characters ending the encoding of `n` units. */
  function PadCount(n: nat): (r: nat)
    ensures r <= 2
  {
    if n == 0 then 2 else (3 - n % 3) % 3
  }

  /** Three more units add one group and keep the padding. */
  lemma CountsShift(n: nat)
    requires n > 0
    ensures GroupCount(n + 3) == GroupCount(n) + 1
    ensures PadCount(n + 3) == PadCount(n)
  {
  }

  /** No match for the character class of everything outside the alphabet. */
  predicate ValidCharacters(s: string, urlSafe: bool) {
    forall k :: 0 <= k < |s| ==> s[k] in Alphabet(urlSafe)
  }

  /** The pads of `r` are exactly its last `p` characters. */
  predicate PadSuffix(r: string, p: nat) {
    p <= |r| && forall k :: 0 <= k < |r| ==> (r[k] == Pad <==> k >= |r| - p)
  }

  lemma ValidCharactersAppend(a: string, b: string, urlSafe: bool)
    requires ValidCharacters(a, urlSafe) && ValidCharacters(b, urlSafe)
    ensures ValidCharacters(a + b, urlSafe)
  {
    forall k | 0 <= k < |a + b|
      ensures (a + b)[k] in Alphabet(urlSafe)
    {
      if k >= |a| {
        assert (a + b)[k] == b[k - |a|];
      }
    }
  }

  lemma PadSuffixAppend(a: string, b: string, p: nat)
    requires PadSuffix(a, 0) && PadSuffix(b, p)
    ensures PadSuffix(a + b, p)
  {
    forall k | 0 <= k < |a + b|
      ensures (a + b)[k] == Pad <==> k >= |a + b| - p
    {
      if k >= |a| {
        assert (a + b)[k] == b[k - |a|];
      }
    }
  }

  /** Index 64 is the only index of the pad. */
  lemma PadIndex(k: nat, urlSafe: bool)
    requires k < 65
    ensures Alphabet(urlSafe)[k] in Alphabet(urlSafe)
    ensures Alphabet(urlSafe)[k] == Pad <==> k == 64
  {
    AlphabetDigits(urlSafe);
    if k < 64 {
      DigitInjective(k, 64, urlSafe);
    }
  }

  /** One group: four alphabet characters ending in `PadCount` pads when it is the last group. */
  lemma GroupShape(x: seq<CodeUnit>, urlSafe: bool)
    ensures |EncodeGroup(x, urlSafe)| == 4
    ensures ValidCharacters(EncodeGroup(x, urlSafe), urlSafe)
    ensures PadSuffix(EncodeGroup(x, urlSafe), if |x| < 3 then PadCount(|x|) else 0)
  {
    var idx := Indices(x);
    var p := if |x| < 3 then PadCount(|x|) else 0;
    assert forall k :: 0 <= k < 4 ==> (idx[k] == 64 <==> k >= 4 - p);
    QuadShape(idx, urlSafe, p);
  }

  /** Four characters picked by indices below 65, of which exactly the last `p` are 64. */
  lemma QuadShape(idx: seq<nat>, urlSafe: bool, p: nat)
    requires |idx| == 4 && p <= 4
    requires forall k :: 0 <= k < 4 ==> idx[k] < 65 && (idx[k] == 64 <==> k >= 4 - p)
    ensures var chars := Alphabet(urlSafe);
      var q := [chars[idx[0]], chars[idx[1]], chars[idx[2]], chars[idx[3]]];
      ValidCharacters(q, urlSafe) && PadSuffix(q, p)
  {
    PadIndex(idx[0], urlSafe);
    PadIndex(idx[1], urlSafe);
    PadIndex(idx[2], urlSafe);
    PadIndex(idx[3], urlSafe);
  }

  /** The length, the alphabet and the placement of pads in an encoding. */
  lemma {:induction false} EncodedShape(x: seq<CodeUnit>, urlSafe: bool)
    ensures |Encoded(x, urlSafe)| == 4 * GroupCount(|x|)
    ensures ValidCharacters(Encoded(x, urlSafe), urlSafe)
    ensures PadSuffix(Encoded(x, urlSafe), PadCount(|x|))
    decreases |x|
  {
    GroupShape(x, urlSafe);
    if |x| > 3 {
      var g, rest := EncodeGroup(x, urlSafe), Encoded(x[3..], urlSafe);
      EncodedShape(x[3..], urlSafe);
      CountsShift(|x| - 3);
      ValidCharactersAppend(g, rest, urlSafe);
      PadSuffixAppend(g, rest, PadCount(|x|));
    } else {
      assert Encoded(x, urlSafe) == EncodeGroup(x, urlSafe) + "";
    }
  }

  /** Encoding no input at all still yields one group. */
  lemma EncodeEmpty(urlSafe: bool)
    ensures Encoded([], urlSafe) == "AA=="
  {
    AlphabetDigits(urlSafe);
  }

  // ---------------------------------------------------------------------------
  // Decoding
  // ---------------------------------------------------------------------------

  /** `String.prototype.indexOf` for one character: the first index holding `c`, or -1. */
  function IndexOf(s: string, c: char): (r: int)
    ensures r == -1 <==> c !in s
    ensures r != -1 ==> 0 <= r < |s| && s[r] == c && c !in s[..r]
  {
    if s == [] then -1
    else if s[0] == c then 0
    else
      var r := IndexOf(s[1..], c);
      assert s[1..][..if r < 0 then 0 else r] == s[1..if r < 0 then 1 else r + 1];
      if r < 0 then -1 else r + 1
  }

  /** The alphabet index of the character at `k`; reading past the end gives -1. */
  function IdAt(s: string, k: nat, urlSafe: bool): int {
    if k < |s| then IndexOf(Alphabet(urlSafe), s[k]) else -1
  }

  /** The values greater than 0, in order. */
  function Kept(b: seq<int>): seq<CodeUnit>
    requires forall k :: 0 <= k < |b| ==> b[k] < 0x1_0000
  {
    if b == [] then []
    else (if b[0] > 0 then [b[0] as CodeUnit] else []) + Kept(b[1..])
  }

  /** The 24-bit buffer rebuilt from four indices, with `& 63` written as Euclidean `% 64`. */
  function Join(id0: int, id1: int, id2: int, id3: int): int {
    id0 * 262144 + id1 * 4096 + id2 % 64 * 64 + id3 % 64
  }

  /** The three candidate units of a buffer; -1 where the index was the pad. `& 255` is `% 256`. */
  function Octets(buf: int, id2: int, id3: int): seq<int> {
    [buf / 65536 % 256,
     if id2 == 64 then -1 else buf / 256 % 256,
     if id3 == 64 then -1 else buf % 256]
  }

  /** The code units of the group starting `s`. */
  function DecodeGroup(s: string, urlSafe: bool): seq<CodeUnit> {
    var id0, id1, id2, id3 := IdAt(s, 0, urlSafe), IdAt(s, 1, urlSafe), IdAt(s, 2, urlSafe), IdAt(s, 3, urlSafe);
    Kept(Octets(Join(id0, id1, id2, id3), id2, id3))
  }

  /** What the decoding loop collects: one group, then the groups of the rest while characters remain. */
  function DecodeFrom(s: string, urlSafe: bool): seq<CodeUnit>
    decreases |s|
  {
    DecodeGroup(s, urlSafe) + (if |s| > 4 then DecodeFrom(s[4..], urlSafe) else [])
  }

  /** `=[^=]`: a pad followed by something else. */
  predicate PadThenOther(s: string) {
    exists k :: 0 <= k < |s| - 1 && s[k] == Pad && s[k + 1] != Pad
  }

  /** `===`: three pads in a row. */
  predicate TriplePad(s: string) {
    exists k :: 0 <= k < |s| - 2 && s[k] == Pad && s[k + 1] == Pad && s[k + 2] == Pad
  }

  predicate BadPadding(s: string) {
    Pad in s && (PadThenOther(s) || TriplePad(s))
  }

  /** What Base64Decode returns or throws. */
  function Decoded(s: string, urlSafe: bool): Result<seq<CodeUnit>, string> {
    if |s| % 4 != 0 then Err(LengthError)
    else if !ValidCharacters(s, urlSafe) then Err(CharacterError)
    else if BadPadding(s) then Err(PaddingError)
    else Ok(DecodeFrom(s, urlSafe))
  }

  /** Base64Decode: three validity checks, then a do-while loop over groups of four characters. */
  method Base64Decode(input: string, urlSafe: bool) returns (result: Result<seq<CodeUnit>, string>)
    ensures result == Decoded(input, urlSafe)
  {
    var chars := Alphabet(urlSafe);
    if |input| % 4 != 0 {
      return Err(LengthError);
    } else if !ValidCharacters(input, urlSafe) {
      return Err(CharacterError);
    } else if BadPadding(input) {
      return Err(PaddingError);
    }
    var i := 0;
    var decoded := [];
    var more := true;
    while more
      invariant i <= |input| + 4
      invariant more ==> i == 0 || i < |input|
      invariant more ==> decoded + DecodeFrom(input[i..], urlSafe) == DecodeFrom(input, urlSafe)
      invariant !more ==> decoded == DecodeFrom(input, urlSafe)
      decreases |input| + 4 - i
    {
      var id0 := if i < |input| then IndexOf(chars, input[i]) else -1;
      var id1 := if i + 1 < |input| then IndexOf(chars, input[i + 1]) else -1;
      var id2 := if i + 2 < |input| then IndexOf(chars, input[i + 2]) else -1;
      var id3 := if i + 3 < |input| then IndexOf(chars, input[i + 3]) else -1;
      var buf := id0 * 262144 + id1 * 4096 + id2 % 64 * 64 + id3 % 64;
      var bufx := [buf / 65536 % 256,
                   if id2 == 64 then -1 else buf / 256 % 256,
                   if id3 == 64 then -1 else buf % 256];
      DecodeStep(input, i, urlSafe, id0, id1, id2, id3, buf, bufx);
      ghost var rest := if i + 4 < |input| then DecodeFrom(input[i + 4..], urlSafe) else [];
      var units := Kept(bufx);
      AppendAssoc(decoded, units, rest);
      decoded := decoded + units;
      i := i + 4;
      more := i < |input|;
    }
    return Ok(decoded);
  }

  /** One pass of the decoding loop: the group at `i` and the groups after it. */
  lemma DecodeStep(input: string, i: nat, urlSafe: bool, id0: int, id1: int, id2: int, id3: int,
                   buf: int, bufx: seq<int>)
    requires i == 0 || i < |input|
    requires id0 == if i < |input| then IndexOf(Alphabet(urlSafe), input[i]) else -1
    requires id1 == if i + 1 < |input| then IndexOf(Alphabet(urlSafe), input[i + 1]) else -1
    requires id2 == if i + 2 < |input| then IndexOf(Alphabet(urlSafe), input[i + 2]) else -1
    requires id3 == if i + 3 < |input| then IndexOf(Alphabet(urlSafe), input[i + 3]) else -1
    requires buf == id0 * 262144 + id1 * 4096 + id2 % 64 * 64 + id3 % 64
    requires bufx == [buf / 65536 % 256,
                      if id2 == 64 then -1 else buf / 256 % 256,
                      if id3 == 64 then -1 else buf % 256]
    ensures forall k :: 0 <= k < |bufx| ==> bufx[k] < 0x1_0000
    ensures DecodeFrom(input[i..], urlSafe) ==
      Kept(bufx) + (if i + 4 < |input| then DecodeFrom(input[i + 4..], urlSafe) else [])
  {
    IdsAt(input, i, urlSafe);
    OctetsOfJoin(id0, id1, id2, id3, buf, bufx);
    DecodeFromAt(input, i, urlSafe);
  }

  lemma IdsAt(input: string, i: nat, urlSafe: bool)
    requires i == 0 || i < |input|
    ensures forall k :: 0 <= k < 4 ==>
      IdAt(input[i..], k, urlSafe) == if i + k < |input| then IndexOf(Alphabet(urlSafe), input[i + k]) else -1
  {
  }

  lemma OctetsOfJoin(id0: int, id1: int, id2: int, id3: int, buf: int, bufx: seq<int>)
    requires buf == id0 * 262144 + id1 * 4096 + id2 % 64 * 64 + id3 % 64
    requires bufx == [buf / 65536 % 256,
                      if id2 == 64 then -1 else buf / 256 % 256,
                      if id3 == 64 then -1 else buf % 256]
    ensures Octets(Join(id0, id1, id2, id3), id2, id3) == bufx
    ensures forall k :: 0 <= k < |bufx| ==> bufx[k] < 256
  {
  }

  lemma DecodeFromAt(input: string, i: nat, urlSafe: bool)
    requires i == 0 || i < |input|
    ensures DecodeFrom(input[i..], urlSafe) ==
      DecodeGroup(input[i..], urlSafe) + (if i + 4 < |input| then DecodeFrom(input[i + 4..], urlSafe) else [])
  {
    if i + 4 < |input| {
      assert input[i..][4..] == input[i + 4..];
    }
  }

  // ---------------------------------------------------------------------------
  // Properties of decoding
  // ---------------------------------------------------------------------------

  /** Decoding the empty string reads past its end: every index is -1 and the group
      yields the units 251, 255 and 255. */
  lemma DecodeEmpty(urlSafe: bool)
    ensures Decoded("", urlSafe).Ok? && Decoded("", urlSafe).value == [251, 255, 255]
  {
    assert IdAt("", 0, urlSafe) == -1 && IdAt("", 1, urlSafe) == -1;
    assert IdAt("", 2, urlSafe) == -1 && IdAt("", 3, urlSafe) == -1;
    assert Join(-1, -1, -1, -1) == -262145;
    assert Octets(-262145, -1, -1) == [251, 255, 255];
    assert Kept([251, 255, 255]) == [251, 255, 255];
    assert DecodeGroup("", urlSafe) == [251, 255, 255];
    assert DecodeFrom("", urlSafe) == DecodeGroup("", urlSafe) + [];
    assert ValidCharacters("", urlSafe) && !BadPadding("");
  }

  /** Every element is a byte other than 0. */
  predicate NonZeroBytes(d: seq<CodeUnit>) {
    forall k :: 0 <= k < |d| ==> 0 < d[k] < 256
  }

  lemma {:induction false} KeptBytes(b: seq<int>)
    requires forall k :: 0 <= k < |b| ==> b[k] < 256
    ensures NonZeroBytes(Kept(b))
  {
    if b != [] {
      KeptBytes(b[1..]);
    }
  }

  lemma {:induction false} KeptAppend(a: seq<int>, b: seq<int>)
    requires forall k :: 0 <= k < |a| ==> a[k] < 0x1_0000
    requires forall k :: 0 <= k < |b| ==> b[k] < 0x1_0000
    ensures Kept(a + b) == Kept(a) + Kept(b)
  {
    if a != [] {
      assert (a + b)[1..] == a[1..] + b;
      KeptAppend(a[1..], b);
      AppendAssoc(if a[0] > 0 then [a[0] as CodeUnit] else [], Kept(a[1..]), Kept(b));
    } else {
      assert a + b == b;
    }
  }

  /** Every decoded unit is a byte other than 0. */
  lemma DecodedBytes(s: string, urlSafe: bool)
    ensures Decoded(s, urlSafe).Ok? ==> NonZeroBytes(Decoded(s, urlSafe).value)
  {
    if Decoded(s, urlSafe).Ok? {
      DecodeFromBytes(s, urlSafe);
    }
  }

  lemma {:induction false} DecodeFromBytes(s: string, urlSafe: bool)
    ensures NonZeroBytes(DecodeFrom(s, urlSafe))
    decreases |s|
  {
    var id2, id3 := IdAt(s, 2, urlSafe), IdAt(s, 3, urlSafe);
    KeptBytes(Octets(Join(IdAt(s, 0, urlSafe), IdAt(s, 1, urlSafe), id2, id3), id2, id3));
    if |s| > 4 {
      DecodeFromBytes(s[4..], urlSafe);
      BytesAppend(DecodeGroup(s, urlSafe), DecodeFrom(s[4..], urlSafe));
    } else {
      assert DecodeFrom(s, urlSafe) == DecodeGroup(s, urlSafe) + [];
    }
  }

  lemma BytesAppend(a: seq<CodeUnit>, b: seq<CodeUnit>)
    requires NonZeroBytes(a) && NonZeroBytes(b)
    ensures NonZeroBytes(a + b)
  {
    forall k | 0 <= k < |a + b|
      ensures 0 < (a + b)[k] < 256
    {
      if k >= |a| {
        assert (a + b)[k] == b[k - |a|];
      }
    }
  }

  /** The padding check accepts a string whose pads form a final run of at most two. */
  lemma PaddingRule(s: string, p: nat)
    requires p <= 2 && PadSuffix(s, p)
    ensures !BadPadding(s)
  {
  }

  /** Conversely, a string the padding check accepts has its pads in a final run of at most two. */
  lemma {:induction false} PaddingOnlyAtEnd(s: string, k: nat)
    requires !BadPadding(s)
    requires k < |s| && s[k] == Pad
    ensures k >= |s| - 2
    ensures forall j :: k <= j < |s| ==> s[j] == Pad
  {
    PadRun(s, k);
    if k < |s| - 2 {
      assert s[k] == Pad && s[k + 1] == Pad && s[k + 2] == Pad;
      assert TriplePad(s);
    }
  }

  lemma {:induction false} PadRun(s: string, k: nat)
    requires !BadPadding(s)
    requires k < |s| && s[k] == Pad
    ensures forall j :: k <= j < |s| ==> s[j] == Pad
    decreases |s| - k
  {
    if k + 1 < |s| {
      if s[k + 1] != Pad {
        assert PadThenOther(s);
      }
      PadRun(s, k + 1);
    }
  }

  // ---------------------------------------------------------------------------
  // Round trip
  // ---------------------------------------------------------------------------

  /** The decoder finds each digit at its own index. */
  lemma IndexOfDigit(k: nat, urlSafe: bool)
    requires k < 65
    ensures IndexOf(Alphabet(urlSafe), Alphabet(urlSafe)[k]) == k
  {
    AlphabetDigits(urlSafe);
    var chars := Alphabet(urlSafe);
    var r := IndexOf(chars, chars[k]);
    if r < k {
      DigitInjective(r, k, urlSafe);
    }
  }

  /** A buffer of 24 bits is the sum of its four sextets, each at its place. */
  lemma Sextets(buf: int)
    requires 0 <= buf < 16777216
    ensures buf == buf / 262144 % 64 * 262144 + buf / 4096 % 64 * 4096 + buf / 64 % 64 * 64 + buf % 64
  {
    var q1, q2, q3 := buf / 64, buf / 4096, buf / 262144;
    assert buf == q1 * 64 + buf % 64;
    assert q1 == q2 * 64 + q1 % 64 && q1 % 64 == buf / 64 % 64;
    assert q2 == q3 * 64 + q2 % 64 && q2 % 64 == buf / 4096 % 64;
    assert q3 < 64 && q3 % 64 == q3;
  }

  /** Reading the bytes back out of a buffer of three bytes. */
  lemma ReadOctets(b0: int, b1: int, b2: int)
    requires 0 <= b0 < 256 && 0 <= b1 < 256 && 0 <= b2 < 256
    ensures var buf := b0 * 65536 + b1 * 256 + b2;
      buf / 65536 % 256 == b0 && buf / 256 % 256 == b1 && buf % 256 == b2
  {
  }

  /** The decoder reads back the indices the encoder wrote. */
  lemma IdsOfGroup(x: seq<CodeUnit>, urlSafe: bool)
    ensures var g, idx := EncodeGroup(x, urlSafe), Indices(x);
      IdAt(g, 0, urlSafe) == idx[0] && IdAt(g, 1, urlSafe) == idx[1] &&
      IdAt(g, 2, urlSafe) == idx[2] && IdAt(g, 3, urlSafe) == idx[3]
  {
    var idx := Indices(x);
    IndexOfDigit(idx[0], urlSafe);
    IndexOfDigit(idx[1], urlSafe);
    IndexOfDigit(idx[2], urlSafe);
    IndexOfDigit(idx[3], urlSafe);
  }

  /** Joining the indices of a group gives back its buffer: the indices standing for missing
      units are pads, and the sextets they replace are 0. */
  lemma JoinIndices(x: seq<CodeUnit>)
    requires forall k :: 0 <= k < |x| ==> x[k] < 256
    ensures var idx := Indices(x); Join(idx[0], idx[1], idx[2], idx[3]) == Buffer(x)
  {
    var b0, b1, b2 := UnitAt(x, 0), UnitAt(x, 1), UnitAt(x, 2);
    var buf := Buffer(x);
    assert buf == b0 * 65536 + b1 * 256 + b2;
    if |x| < 3 {
      LowSextets(b0, b1);
    }
    var idx := Indices(x);
    JoinWithPads(buf, idx[2], idx[3]);
  }

  /** A buffer joins back from its two high sextets and two low indices, where a pad index (64)
      stands for a zero sextet. */
  lemma JoinWithPads(buf: int, id2: int, id3: int)
    requires 0 <= buf < 16777216
    requires id2 == 64 || id2 == buf / 64 % 64
    requires id3 == 64 || id3 == buf % 64
    requires id2 == 64 ==> buf / 64 % 64 == 0
    requires id3 == 64 ==> buf % 64 == 0
    ensures Join(buf / 262144 % 64, buf / 4096 % 64, id2, id3) == buf
  {
    var h1, h2, s2, s3 := buf / 262144 % 64, buf / 4096 % 64, buf / 64 % 64, buf % 64;
    Sextets(buf);
    PadSextet(id2, s2);
    PadSextet(id3, s3);
    assert Join(h1, h2, id2, id3) == h1 * 262144 + h2 * 4096 + s2 * 64 + s3;
  }

  /** An index read back as a sextet: the pad reads as 0. */
  lemma PadSextet(id: int, s: int)
    requires 0 <= s < 64 && (id == 64 || id == s) && (id == 64 ==> s == 0)
    ensures id % 64 == s
  {
  }

  /** Without its third unit a buffer ends in a zero sextet, and without its second unit
      in two. */
  lemma LowSextets(b0: nat, b1: nat)
    ensures (b0 * 65536 + b1 * 256) % 64 == 0
    ensures b1 == 0 ==> (b0 * 65536 + b1 * 256) / 64 % 64 == 0
  {
    var q := b0 * 1024 + b1 * 4;
    assert b0 * 65536 + b1 * 256 == q * 64;
    Times64(q);
    if b1 == 0 {
      Times64(b0 * 16);
      assert q == (b0 * 16) * 64;
    }
  }

  lemma Times64(q: nat)
    ensures (q * 64) / 64 == q && (q * 64) % 64 == 0
  {
  }

  /** The bytes the decoder emits for a group, unit by unit. */
  lemma GroupBytes(x: seq<CodeUnit>)
    requires forall k :: 0 <= k < |x| ==> x[k] < 256
    ensures var idx := Indices(x);
      Kept(Octets(Buffer(x), idx[2], idx[3])) == Kept(x[..if |x| < 3 then |x| else 3])
  {
    ReadOctets(UnitAt(x, 0), UnitAt(x, 1), UnitAt(x, 2));
    var n := if |x| < 3 then |x| else 3;
    var b := Octets(Buffer(x), Indices(x)[2], Indices(x)[3]);
    var missing: seq<int> := seq(3 - n, _ => -1);
    if |x| == 0 {
      assert b == [0] + [-1, -1];
      KeptMissing([-1, -1]);
    } else {
      assert b == x[..n] + missing;
      KeptAppend(x[..n], missing);
      KeptMissing(missing);
    }
  }

  lemma {:induction false} KeptMissing(b: seq<int>)
    requires forall k :: 0 <= k < |b| ==> b[k] == -1
    ensures Kept(b) == []
  {
    if b != [] {
      KeptMissing(b[1..]);
    }
  }

  /** Decoding one encoded group gives back its nonzero bytes. */
  lemma GroupRoundTrip(x: seq<CodeUnit>, urlSafe: bool)
    requires forall k :: 0 <= k < |x| ==> x[k] < 256
    ensures DecodeGroup(EncodeGroup(x, urlSafe), urlSafe) == Kept(x[..if |x| < 3 then |x| else 3])
  {
    IdsOfGroup(x, urlSafe);
    JoinIndices(x);
    GroupBytes(x);
  }

  /** Decoding a group followed by more groups decodes them one after the other. */
  lemma DecodeFromAppend(g: string, rest: string, urlSafe: bool)
    requires |g| == 4 && rest != []
    ensures DecodeFrom(g + rest, urlSafe) == DecodeGroup(g, urlSafe) + DecodeFrom(rest, urlSafe)
  {
    assert (g + rest)[4..] == rest;
    assert (g + rest)[0] == g[0] && (g + rest)[1] == g[1] && (g + rest)[2] == g[2] && (g + rest)[3] == g[3];
    assert DecodeGroup(g + rest, urlSafe) == DecodeGroup(g, urlSafe);
  }

  lemma {:induction false} DecodeEncoded(x: seq<CodeUnit>, urlSafe: bool)
    requires forall k :: 0 <= k < |x| ==> x[k] < 256
    ensures DecodeFrom(Encoded(x, urlSafe), urlSafe) == Kept(x)
    decreases |x|
  {
    if |x| > 3 {
      DecodeEncoded(x[3..], urlSafe);
      DecodeEncodedMore(x, urlSafe);
    } else {
      DecodeEncodedLast(x, urlSafe);
    }
  }

  /** The first group of a longer input decodes to its first three units. */
  lemma DecodeEncodedMore(x: seq<CodeUnit>, urlSafe: bool)
    requires forall k :: 0 <= k < |x| ==> x[k] < 256
    requires |x| > 3 && DecodeFrom(Encoded(x[3..], urlSafe), urlSafe) == Kept(x[3..])
    ensures DecodeFrom(Encoded(x, urlSafe), urlSafe) == Kept(x)
  {
    var g, rest := EncodeGroup(x, urlSafe), Encoded(x[3..], urlSafe);
    GroupRoundTrip(x, urlSafe);
    EncodedShape(x[3..], urlSafe);
    DecodeFromAppend(g, rest, urlSafe);
    assert x == x[..3] + x[3..];
    KeptAppend(x[..3], x[3..]);
  }

  /** An input of at most three units is one group. */
  lemma DecodeEncodedLast(x: seq<CodeUnit>, urlSafe: bool)
    requires forall k :: 0 <= k < |x| ==> x[k] < 256
    requires |x| <= 3
    ensures DecodeFrom(Encoded(x, urlSafe), urlSafe) == Kept(x)
  {
    var g := EncodeGroup(x, urlSafe);
    GroupRoundTrip(x, urlSafe);
    assert x[..|x|] == x;
    assert Encoded(x, urlSafe) == g + "";
    assert DecodeFrom(g, urlSafe) == DecodeGroup(g, urlSafe) + [];
  }

  /** Base64Decode undoes Base64Encode on strings of bytes, except that bytes equal to 0
      are dropped by the decoder. */
  lemma RoundTrip(x: seq<CodeUnit>, urlSafe: bool)
    requires forall k :: 0 <= k < |x| ==> x[k] < 256
    ensures Decoded(Encoded(x, urlSafe), urlSafe) == Ok(Kept(x))
  {
    EncodedAccepted(x, urlSafe);
    DecodeEncoded(x, urlSafe);
  }

  /** Every encoding passes the three checks of the decoder. */
  lemma EncodedAccepted(x: seq<CodeUnit>, urlSafe: bool)
    ensures |Encoded(x, urlSafe)| % 4 == 0
    ensures ValidCharacters(Encoded(x, urlSafe), urlSafe)
    ensures !BadPadding(Encoded(x, urlSafe))
  {
    EncodedShape(x, urlSafe);
    ShapeAccepted(Encoded(x, urlSafe), |x|);
  }

  lemma ShapeAccepted(r: string, n: nat)
    requires |r| == 4 * GroupCount(n) && PadSuffix(r, PadCount(n))
    ensures |r| % 4 == 0 && !BadPadding(r)
  {
    PaddingRule(r, PadCount(n));
  }
  // ---------------------------------------------------------------------------
  // Decoding the empty string, corrected
  // ---------------------------------------------------------------------------

  /** The decoder with the empty string decoding to no units, as every other
      well-formed input of four characters per group yields at most three. */
  function DecodedFixed(s: string, urlSafe: bool): Result<seq<CodeUnit>, string> {
    if s == "" then Ok([]) else Decoded(s, urlSafe)
  }

  lemma {:induction false} KeptLength(b: seq<int>)
    requires forall k :: 0 <= k < |b| ==> b[k] < 0x1_0000
    ensures |Kept(b)| <= |b|
  {
    if b != [] {
      KeptLength(b[1..]);
    }
  }

  lemma {:induction false} DecodeFromLength(s: string, urlSafe: bool)
    requires |s| > 0 && |s| % 4 == 0
    ensures |DecodeFrom(s, urlSafe)| <= |s| / 4 * 3
    decreases |s|
  {
    GroupLength(s, urlSafe);
    if |s| > 4 {
      QuarterStep(|s|);
      DecodeFromLength(s[4..], urlSafe);
    }
  }

  lemma QuarterStep(n: nat)
    requires n > 4 && n % 4 == 0
    ensures (n - 4) % 4 == 0 && (n - 4) / 4 * 3 + 3 == n / 4 * 3
  {
    var q := n / 4;
    assert n == 4 * q;
    assert n - 4 == 4 * (q - 1);
    assert (n - 4) / 4 == q - 1;
  }

  lemma GroupLength(s: string, urlSafe: bool)
    ensures |DecodeGroup(s, urlSafe)| <= 3
  {
    var id2, id3 := IdAt(s, 2, urlSafe), IdAt(s, 3, urlSafe);
    KeptLength(Octets(Join(IdAt(s, 0, urlSafe), IdAt(s, 1, urlSafe), id2, id3), id2, id3));
  }

  /** Each group of four characters decodes to at most three units. */
  lemma DecodedFixedLength(s: string, urlSafe: bool)
    ensures DecodedFixed(s, urlSafe).Ok? ==> |DecodedFixed(s, urlSafe).value| <= |s| / 4 * 3
  {
    if s != "" && DecodedFixed(s, urlSafe).Ok? {
      DecodeFromLength(s, urlSafe);
    }
  }

  /** The correction leaves every encoding's decoding as it was. */
  lemma FixedRoundTrip(x: seq<CodeUnit>, urlSafe: bool)
    requires forall k :: 0 <= k < |x| ==> x[k] < 256
    ensures DecodedFixed(Encoded(x, urlSafe), urlSafe) == Ok(Kept(x))
  {
    EncodedShape(x, urlSafe);
    RoundTrip(x, urlSafe);
  }
}
