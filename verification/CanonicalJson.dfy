/** The two canonical JSON encodings a digest is computed over, and a reader for them. */
module CanonicalJson {
  import opened Wrappers
  import opened Sorting
  import opened Decimals
  import Text

  /** A document: what `json.loads` yields without fractional numbers. Members keep insertion order. */
  datatype Json =
    | Null
    | Bool(b: bool)
    | Num(n: int)
    | Str(s: string)
    | Arr(items: seq<Json>)
    | Obj(members: seq<Member>)

  datatype Member = Member(key: string, value: Json)

  /** Every object, at every depth, has distinct keys, as a Python dict has. */
  predicate Dicts(v: Json) {
    match v
    case Arr(items) => forall i | 0 <= i < |items| :: Dicts(items[i])
    case Obj(members) =>
      && DistinctKeys(members)
      && forall i | 0 <= i < |members| :: Dicts(members[i].value)
    case _ => true
  }

  predicate DistinctKeys(members: seq<Member>) {
    forall i, j | 0 <= i < j < |members| :: members[i].key != members[j].key
  }

  predicate KeyLe(m: Member, n: Member) {
    Text.Le(m.key, n.key)
  }

  /** Equality of documents up to the order of object members. */
  ghost predicate SameDocument(v: Json, w: Json)
    decreases v
  {
    match (v, w)
    case (Arr(xs), Arr(ys)) =>
      |xs| == |ys| && forall i | 0 <= i < |xs| :: SameDocument(xs[i], ys[i])
    case (Obj(ms), Obj(ns)) =>
      && (forall m | m in ms :: exists n :: n in ns && SameMember(m, n))
      && (forall n | n in ns :: exists m :: m in ms && SameMember(m, n))
    case _ => v == w
  }

  ghost predicate SameMember(m: Member, n: Member)
    decreases m
  {
    m.key == n.key && SameDocument(m.value, n.value)
  }

  // ---- encoding ---------------------------------------------------------

  /** The document with every object's members in key order. */
  function Normal(v: Json): Json {
    match v
    case Arr(items) => Arr(NormalItems(items))
    case Obj(members) => Obj(Sort(NormalMembers(members), KeyLe))
    case _ => v
  }

  function NormalItems(items: seq<Json>): (r: seq<Json>)
    ensures |r| == |items|
  {
    if items == [] then [] else [Normal(items[0])] + NormalItems(items[1..])
  }

  function NormalMembers(members: seq<Member>): (r: seq<Member>)
    ensures |r| == |members|
  {
    if members == [] then []
    else [Member(members[0].key, Normal(members[0].value))] + NormalMembers(members[1..])
  }

  lemma {:induction false} NormalItemAt(items: seq<Json>, i: nat)
    requires i < |items|
    ensures NormalItems(items)[i] == Normal(items[i])
  {
    if i > 0 {
      NormalItemAt(items[1..], i - 1);
    }
  }

  lemma {:induction false} NormalMemberAt(members: seq<Member>, i: nat)
    requires i < |members|
    ensures NormalMembers(members)[i] == Member(members[i].key, Normal(members[i].value))
  {
    if i > 0 {
      NormalMemberAt(members[1..], i - 1);
    }
  }

  /** `ascii` is `json.dumps`'s `ensure_ascii`. */
  function Encode(v: Json, ascii: bool): string {
    Print(Normal(v), ascii)
  }

  function Print(v: Json, ascii: bool): string {
    match v
    case Null => "null"
    case Bool(b) => if b then "true" else "false"
    case Num(n) => if n < 0 then "-" + Show(-n) else Show(n)
    case Str(s) => Quote(s, ascii)
    case Arr(items) => "[" + PrintItems(items, ascii)
    case Obj(members) => "{" + PrintMembers(members, ascii)
  }

  /** The items and the closing bracket. */
  function PrintItems(items: seq<Json>, ascii: bool): string {
    if items == [] then "]"
    else Print(items[0], ascii) + (if |items| == 1 then "]" else "," + PrintItems(items[1..], ascii))
  }

  function PrintMembers(members: seq<Member>, ascii: bool): string {
    if members == [] then "}"
    else
      var head := Quote(members[0].key, ascii) + ":" + Print(members[0].value, ascii);
      head + (if |members| == 1 then "}" else "," + PrintMembers(members[1..], ascii))
  }

  function Quote(s: string, ascii: bool): string {
    "\"" + EscapeAll(s, ascii)
  }

  function EscapeAll(s: string, ascii: bool): string {
    if s == [] then "\"" else Escape(s[0], ascii) + EscapeAll(s[1..], ascii)
  }

  /** One character of a string literal; outside the BMP the ASCII form writes a surrogate pair. */
  function Escape(c: char, ascii: bool): string {
    var n := c as int;
    if c == '\"' then "\\\""
    else if c == '\\' then "\\\\"
    else if n == 8 then "\\b"
    else if n == 9 then "\\t"
    else if n == 10 then "\\n"
    else if n == 12 then "\\f"
    else if n == 13 then "\\r"
    else if n < 32 || (ascii && 126 < n < 0x1_0000) then "\\u" + Hex4(n)
    else if ascii && n >= 0x1_0000 then
      "\\u" + Hex4(0xd800 + (n - 0x1_0000) / 1024) + "\\u" + Hex4(0xdc00 + (n - 0x1_0000) % 1024)
    else [c]
  }

  function HexOf(d: nat): char
    requires d < 16
  {
    if d < 10 then (d + '0' as int) as char else (d - 10 + 'a' as int) as char
  }

  function Hex4(n: nat): string
    requires n < 0x1_0000
  {
    [HexOf(n / 4096), HexOf(n / 256 % 16), HexOf(n / 16 % 16), HexOf(n % 16)]
  }

  // ---- reading: RFC 8259, sections 2 to 7, without fractions and exponents ----

  type Parsed<T> = Option<(T, string)>

  predicate IsSpace(c: char) {
    c == ' ' || c as int == 9 || c as int == 10 || c as int == 13
  }

  function SkipSpace(s: string): (r: string)
    ensures |r| <= |s|
  {
    if s != [] && IsSpace(s[0]) then SkipSpace(s[1..]) else s
  }

  /** A whole text: one value, with insignificant space around it. */
  function ParseText(s: string): Option<Json> {
    match ParseValue(s)
    case Some((v, rest)) => if SkipSpace(rest) == [] then Some(v) else None
    case None => None
  }

  function ParseValue(text: string): (r: Parsed<Json>)
    ensures r.Some? ==> |r.value.1| < |text|
    decreases |text|, 0
  {
    var s := SkipSpace(text);
    if s == [] then None
    else if "null" <= s then Some((Null, s[4..]))
    else if "true" <= s then Some((Bool(true), s[4..]))
    else if "false" <= s then Some((Bool(false), s[5..]))
    else if s[0] == '\"' then
      (match ParseChars(s[1..]) case Some((t, rest)) => Some((Str(t), rest)) case None => None)
    else if s[0] == '[' then ParseArray(s[1..])
    else if s[0] == '{' then ParseObject(s[1..])
    else ParseNumber(s)
  }

  function ParseNumber(s: string): (r: Parsed<Json>)
    requires s != []
    ensures r.Some? ==> |r.value.1| < |s|
  {
    if s[0] == '-' then
      (match ParseNat(s[1..]) case Some((n, rest)) => Some((Num(0 - n), rest)) case None => None)
    else
      (match ParseNat(s) case Some((n, rest)) => Some((Num(n), rest)) case None => None)
  }

  function ParseArray(s: string): (r: Parsed<Json>)
    ensures r.Some? ==> |r.value.1| < |s|
    decreases |s|, 2
  {
    var t := SkipSpace(s);
    if t != [] && t[0] == ']' then Some((Arr([]), t[1..]))
    else (match ParseItems(t) case Some((xs, rest)) => Some((Arr(xs), rest)) case None => None)
  }

  function ParseObject(s: string): (r: Parsed<Json>)
    ensures r.Some? ==> |r.value.1| < |s|
    decreases |s|, 2
  {
    var t := SkipSpace(s);
    if t != [] && t[0] == '}' then Some((Obj([]), t[1..]))
    else (match ParseMembers(t) case Some((ms, rest)) => Some((Obj(ms), rest)) case None => None)
  }

  /** One or more items up to the closing bracket. */
  function ParseItems(s: string): (r: Parsed<seq<Json>>)
    ensures r.Some? ==> |r.value.1| < |s|
    decreases |s|, 1
  {
    match ParseValue(s)
    case None => None
    case Some((x, rest)) =>
      var t := SkipSpace(rest);
      if t == [] then None
      else if t[0] == ']' then Some(([x], t[1..]))
      else if t[0] != ',' then None
      else (match ParseItems(t[1..]) case Some((xs, u)) => Some(([x] + xs, u)) case None => None)
  }

  function ParseMembers(s: string): (r: Parsed<seq<Member>>)
    ensures r.Some? ==> |r.value.1| < |s|
    decreases |s|, 1
  {
    var k := SkipSpace(s);
    if k == [] || k[0] != '\"' then None else
    match ParseChars(k[1..])
    case None => None
    case Some((key, afterKey)) =>
      var colon := SkipSpace(afterKey);
      if colon == [] || colon[0] != ':' then None else
      match ParseValue(colon[1..])
      case None => None
      case Some((x, rest)) =>
        var t := SkipSpace(rest);
        if t == [] then None
        else if t[0] == '}' then Some(([Member(key, x)], t[1..]))
        else if t[0] != ',' then None
        else (match ParseMembers(t[1..])
              case Some((ms, u)) => Some(([Member(key, x)] + ms, u))
              case None => None)
  }

  /** `0`, or a digit run with no leading zero. */
  function ParseNat(s: string): (r: Parsed<nat>)
    ensures r.Some? ==> |r.value.1| < |s|
  {
    var k := DigitRun(s);
    if k == 0 || (k > 1 && s[0] == '0') then None else Some((Read(s[..k]), s[k..]))
  }

  function DigitRun(s: string): (k: nat)
    ensures k <= |s| && AllDigits(s[..k])
  {
    if s == [] || !IsDigit(s[0]) then 0 else
      var k := 1 + DigitRun(s[1..]);
      assert s[..k] == [s[0]] + s[1..][..k - 1];
      k
  }

  /** The characters of a string literal, after its opening quote, and the closing quote. */
  function ParseChars(s: string): (r: Parsed<string>)
    ensures r.Some? ==> |r.value.1| < |s|
  {
    if s == [] then None
    else if s[0] == '\"' then Some(([], s[1..]))
    else
      match ParseChar(s)
      case None => None
      case Some((c, rest)) =>
        (match ParseChars(rest) case Some((t, u)) => Some(([c] + t, u)) case None => None)
  }

  function ParseChar(s: string): (r: Parsed<char>)
    requires s != []
    ensures r.Some? ==> |r.value.1| < |s|
  {
    if s[0] as int < 32 then None
    else if s[0] != '\\' then Some((s[0], s[1..]))
    else if |s| < 2 then None
    else
      var rest := s[2..];
      match s[1]
      case '\"' => Some(('\"', rest))
      case '\\' => Some(('\\', rest))
      case '/' => Some(('/', rest))
      case 'b' => Some((8 as char, rest))
      case 't' => Some((9 as char, rest))
      case 'n' => Some((10 as char, rest))
      case 'f' => Some((12 as char, rest))
      case 'r' => Some((13 as char, rest))
      case 'u' => ParseUnicode(rest)
      case _ => None
  }

  function ParseUnicode(s: string): (r: Parsed<char>)
    ensures r.Some? ==> |r.value.1| < |s|
  {
    match ParseHex4(s)
    case None => None
    case Some(n) =>
      if !(0xd800 <= n < 0xe000) then Some((n as char, s[4..]))
      else if n < 0xdc00 && |s| >= 6 && s[4] == '\\' && s[5] == 'u' then
        (match ParseHex4(s[6..])
         case Some(low) =>
           if 0xdc00 <= low < 0xe000
           then Some(((0x1_0000 + (n - 0xd800) * 1024 + (low - 0xdc00)) as char, s[10..]))
           else None
         case None => None)
      else None
  }

  function HexValue(c: char): (d: int)
    ensures -1 <= d < 16
  {
    if '0' <= c <= '9' then c as int - '0' as int
    else if 'a' <= c <= 'f' then c as int - 'a' as int + 10
    else if 'A' <= c <= 'F' then c as int - 'A' as int + 10
    else -1
  }

  function ParseHex4(s: string): (r: Option<nat>)
    ensures r.Some? ==> |s| >= 4 && r.value < 0x1_0000
  {
    if |s| < 4 then None else
    var a, b, c, d := HexValue(s[0]), HexValue(s[1]), HexValue(s[2]), HexValue(s[3]);
    if a < 0 || b < 0 || c < 0 || d < 0 then None else Some(((a * 16 + b) * 16 + c) * 16 + d)
  }

  // ---- the reader undoes the printer -------------------------------------

  lemma HexDigitRoundTrip(d: nat)
    requires d < 16
    ensures HexValue(HexOf(d)) == d
  {
  }

  lemma Nibbles(n: nat)
    requires n < 0x1_0000
    ensures n / 4096 < 16
    ensures ((n / 4096 * 16 + n / 256 % 16) * 16 + n / 16 % 16) * 16 + n % 16 == n
  {
    assert n / 256 / 16 == n / 4096 && n / 16 / 16 == n / 256;
    assert n / 256 == n / 4096 * 16 + n / 256 % 16;
    assert n / 16 == n / 256 * 16 + n / 16 % 16;
  }

  lemma HexRoundTrip(n: nat, rest: string)
    requires n < 0x1_0000
    ensures ParseHex4(Hex4(n) + rest) == Some(n)
    ensures (Hex4(n) + rest)[4..] == rest
  {
    hide HexValue, HexOf;
    Nibbles(n);
    HexDigitRoundTrip(n / 4096);
    HexDigitRoundTrip(n / 256 % 16);
    HexDigitRoundTrip(n / 16 % 16);
    HexDigitRoundTrip(n % 16);
    var s := Hex4(n) + rest;
    assert s[0] == HexOf(n / 4096) && s[1] == HexOf(n / 256 % 16);
    assert s[2] == HexOf(n / 16 % 16) && s[3] == HexOf(n % 16);
  }

  lemma HexEscapeRoundTrip(c: char, rest: string, ascii: bool)
    requires |Escape(c, ascii)| == 6
    ensures ParseChar(Escape(c, ascii) + rest) == Some((c, rest))
  {
    var s := Escape(c, ascii) + rest;
    HexRoundTrip(c as int, rest);
    assert s[2..] == Hex4(c as int) + rest;
    hide ParseHex4, Hex4;
  }

  /** Two escaped surrogates read back as the character they stand for. */
  lemma SurrogatesRoundTrip(high: nat, low: nat, rest: string)
    requires 0xd800 <= high < 0xdc00 && 0xdc00 <= low < 0xe000
    ensures ParseUnicode(Hex4(high) + ("\\u" + Hex4(low) + rest))
         == Some(((0x1_0000 + (high - 0xd800) * 1024 + (low - 0xdc00)) as char, rest))
  {
    var s := Hex4(high) + ("\\u" + Hex4(low) + rest);
    HexRoundTrip(high, "\\u" + Hex4(low) + rest);
    HexRoundTrip(low, rest);
    assert |Hex4(high)| == |Hex4(low)| == 4;
    hide ParseHex4, Hex4;
    assert s[4] == '\\' && s[5] == 'u' && s[6..] == Hex4(low) + rest && s[10..] == rest;
  }

  /** The two surrogates of a character outside the BMP. */
  lemma PairShape(c: char, ascii: bool) returns (high: nat, low: nat)
    requires |Escape(c, ascii)| == 12
    ensures 0xd800 <= high < 0xdc00 && 0xdc00 <= low < 0xe000
    ensures Escape(c, ascii) == "\\u" + Hex4(high) + "\\u" + Hex4(low)
    ensures 0x1_0000 + (high - 0xd800) * 1024 + (low - 0xdc00) == c as int
  {
    var n := c as int - 0x1_0000;
    high, low := 0xd800 + n / 1024, 0xdc00 + n % 1024;
  }

  lemma ReadsUnicode(u: string)
    ensures ParseChar("\\u" + u) == ParseUnicode(u)
  {
    assert ("\\u" + u)[2..] == u;
    hide ParseUnicode;
  }

  lemma PairRoundTrip(c: char, rest: string, ascii: bool)
    requires |Escape(c, ascii)| == 12
    ensures ParseChar(Escape(c, ascii) + rest) == Some((c, rest))
  {
    hide Escape, Hex4, ParseChar, ParseUnicode;
    var high, low := PairShape(c, ascii);
    SurrogatesRoundTrip(high, low, rest);
    var u := Hex4(high) + ("\\u" + Hex4(low) + rest);
    ReadsUnicode(u);
    assert Escape(c, ascii) + rest == "\\u" + u;
  }

  lemma ShortRoundTrip(c: char, rest: string, ascii: bool)
    requires |Escape(c, ascii)| == 1 || |Escape(c, ascii)| == 2
    ensures ParseChar(Escape(c, ascii) + rest) == Some((c, rest))
  {
    hide ParseHex4;
    var s := Escape(c, ascii) + rest;
    assert s[|Escape(c, ascii)|..] == rest;
  }

  lemma EscapeSizes(c: char, ascii: bool)
    ensures Escape(c, ascii) != [] && Escape(c, ascii)[0] != '\"'
    ensures |Escape(c, ascii)| in {1, 2, 6, 12}
  {
  }

  /** Escaping is undone character by character, surrogate pairs included. */
  lemma EscapeRoundTrip(c: char, rest: string, ascii: bool)
    ensures Escape(c, ascii) != [] && Escape(c, ascii)[0] != '\"'
    ensures ParseChar(Escape(c, ascii) + rest) == Some((c, rest))
  {
    EscapeSizes(c, ascii);
    hide Escape, ParseChar;
    if |Escape(c, ascii)| == 6 {
      HexEscapeRoundTrip(c, rest, ascii);
    } else if |Escape(c, ascii)| == 12 {
      PairRoundTrip(c, rest, ascii);
    } else {
      ShortRoundTrip(c, rest, ascii);
    }
  }

  lemma {:induction false} CharsRoundTrip(t: string, rest: string, ascii: bool)
    ensures ParseChars(EscapeAll(t, ascii) + rest) == Some((t, rest))
  {
    var s := EscapeAll(t, ascii) + rest;
    if t == [] {
      assert s[1..] == rest;
    } else {
      var tail := EscapeAll(t[1..], ascii) + rest;
      assert s == Escape(t[0], ascii) + tail;
      EscapeRoundTrip(t[0], tail, ascii);
      CharsRoundTrip(t[1..], rest, ascii);
      assert t == [t[0]] + t[1..];
    }
  }

  /** `rest` cannot be mistaken for the continuation of a numeral. */
  predicate Ends(rest: string) {
    rest == [] || !IsDigit(rest[0])
  }

  lemma {:induction false} RunOfDigits(d: string, rest: string)
    requires AllDigits(d) && Ends(rest)
    ensures DigitRun(d + rest) == |d|
  {
    if d == [] {
      assert d + rest == rest;
    } else {
      assert (d + rest)[1..] == d[1..] + rest;
      RunOfDigits(d[1..], rest);
    }
  }

  lemma NatRoundTrip(n: nat, rest: string)
    requires Ends(rest)
    ensures ParseNat(Show(n) + rest) == Some((n, rest))
  {
    ReadShow(n);
    var d := Show(n);
    RunOfDigits(d, rest);
    assert (d + rest)[..|d|] == d && (d + rest)[|d|..] == rest;
    if n == 0 {
      assert |d| == 1;
    }
  }

  lemma PrintStarts(v: Json, ascii: bool)
    ensures Print(v, ascii) != []
    ensures !IsSpace(Print(v, ascii)[0])
    ensures Print(v, ascii)[0] != ']' && Print(v, ascii)[0] != '}'
  {
    if v.Num? {
      ReadShow(if v.n < 0 then -v.n else v.n);
    }
  }

  lemma NumberRoundTrip(n: int, rest: string, ascii: bool)
    requires Ends(rest)
    ensures ParseValue(Print(Num(n), ascii) + rest) == Some((Num(n), rest))
  {
    hide Show, DigitRun, ParseNat, Read;
    if n < 0 {
      NegativeRoundTrip(0 - n, rest);
      assert Print(Num(n), ascii) == "-" + Show(0 - n);
    } else {
      NaturalRoundTrip(n, rest);
    }
  }

  lemma NaturalRoundTrip(n: nat, rest: string)
    requires Ends(rest)
    ensures ParseValue(Show(n) + rest) == Some((Num(n), rest))
  {
    var s := Show(n) + rest;
    ReadShow(n);
    NatRoundTrip(n, rest);
    hide Show, DigitRun, ParseNat, Read;
    assert IsDigit(s[0]);
    assert ParseNumber(s) == Some((Num(n), rest));
    assert SkipSpace(s) == s;
  }

  lemma NegativeRoundTrip(m: nat, rest: string)
    requires Ends(rest) && m > 0
    ensures ParseValue("-" + Show(m) + rest) == Some((Num(0 - m), rest))
  {
    var s := "-" + Show(m) + rest;
    ReadShow(m);
    NatRoundTrip(m, rest);
    hide Show, DigitRun, ParseNat, Read, ParseItems, ParseMembers, ParseChars;
    assert s[0] == '-' && s[1..] == Show(m) + rest;
    assert ParseNumber(s) == Some((Num(0 - m), rest));
    assert SkipSpace(s) == s;
  }

  lemma WordRoundTrip(v: Json, rest: string, ascii: bool)
    requires v.Null? || v.Bool?
    ensures ParseValue(Print(v, ascii) + rest) == Some((v, rest))
  {
    hide ParseNumber, ParseChars, ParseItems, ParseMembers;
    var s := Print(v, ascii) + rest;
    if v == Bool(false) {
      assert s[5..] == rest && "false" <= s;
    } else if v == Bool(true) {
      assert s[4..] == rest && "true" <= s;
    } else {
      assert s[4..] == rest && "null" <= s;
    }
  }

  lemma TextRoundTrip(t: string, rest: string, ascii: bool)
    ensures ParseValue(Print(Str(t), ascii) + rest) == Some((Str(t), rest))
  {
    var s := Print(Str(t), ascii) + rest;
    CharsRoundTrip(t, rest, ascii);
    hide ParseNumber, ParseChars, ParseItems, ParseMembers, EscapeAll;
    assert s[1..] == EscapeAll(t, ascii) + rest;
    assert SkipSpace(s) == s;
  }

  lemma ScalarRoundTrip(v: Json, rest: string, ascii: bool)
    requires Ends(rest) && !v.Arr? && !v.Obj?
    ensures ParseValue(Print(v, ascii) + rest) == Some((v, rest))
  {
    hide ParseValue, Print;
    match v {
      case Num(n) => NumberRoundTrip(n, rest, ascii);
      case Str(t) => TextRoundTrip(t, rest, ascii);
      case _ => WordRoundTrip(v, rest, ascii);
    }
  }

  /** How one parsed item extends the parsed list. */
  lemma ItemsStep(s: string, x: Json, rest: string)
    ensures ParseValue(s) == Some((x, "]" + rest)) ==> ParseItems(s) == Some(([x], rest))
    ensures forall xs, u ::
      ParseValue(s) == Some((x, "," + rest)) && ParseItems(rest) == Some((xs, u))
      ==> ParseItems(s) == Some(([x] + xs, u))
  {
    assert SkipSpace("]" + rest) == "]" + rest && ("]" + rest)[1..] == rest;
    assert SkipSpace("," + rest) == "," + rest && ("," + rest)[1..] == rest;
  }

  /** How one parsed key and value extend the parsed members. */
  lemma MembersStep(s: string, key: string, colon: string, x: Json, rest: string)
    requires s != [] && s[0] == '\"' && ParseChars(s[1..]) == Some((key, ":" + colon))
    ensures ParseValue(colon) == Some((x, "}" + rest)) ==> ParseMembers(s) == Some(([Member(key, x)], rest))
    ensures forall ms, u ::
      ParseValue(colon) == Some((x, "," + rest)) && ParseMembers(rest) == Some((ms, u))
      ==> ParseMembers(s) == Some(([Member(key, x)] + ms, u))
  {
    assert SkipSpace(s) == s;
    assert SkipSpace(":" + colon) == ":" + colon && (":" + colon)[1..] == colon;
    assert SkipSpace("}" + rest) == "}" + rest && ("}" + rest)[1..] == rest;
    assert SkipSpace("," + rest) == "," + rest && ("," + rest)[1..] == rest;
  }

  lemma Reassociate(a: string, b: string, c: string)
    ensures (a + b) + c == a + (b + c)
  {
  }

  lemma ArrayText(items: seq<Json>, rest: string, ascii: bool)
    ensures Print(Arr(items), ascii) + rest == "[" + (PrintItems(items, ascii) + rest)
    ensures PrintItems(items, ascii) != []
    ensures items == [] ==> PrintItems(items, ascii) == "]"
    ensures items != [] ==> !IsSpace(PrintItems(items, ascii)[0]) && PrintItems(items, ascii)[0] != ']'
  {
    Reassociate("[", PrintItems(items, ascii), rest);
    if items != [] {
      PrintStarts(items[0], ascii);
    }
  }

  lemma ObjectText(members: seq<Member>, rest: string, ascii: bool)
    ensures Print(Obj(members), ascii) + rest == "{" + (PrintMembers(members, ascii) + rest)
    ensures PrintMembers(members, ascii) != []
    ensures members == [] ==> PrintMembers(members, ascii) == "}"
    ensures members != [] ==> PrintMembers(members, ascii)[0] == '\"'
  {
    Reassociate("{", PrintMembers(members, ascii), rest);
  }

  function AfterItem(items: seq<Json>, rest: string, ascii: bool): string
    requires items != []
  {
    if |items| == 1 then "]" + rest else "," + (PrintItems(items[1..], ascii) + rest)
  }

  lemma ItemsText(items: seq<Json>, rest: string, ascii: bool)
    requires items != []
    ensures PrintItems(items, ascii) + rest == Print(items[0], ascii) + AfterItem(items, rest, ascii)
  {
    if |items| == 1 {
      Reassociate(Print(items[0], ascii), "]", rest);
    } else {
      var tail := PrintItems(items[1..], ascii);
      Reassociate(Print(items[0], ascii), "," + tail, rest);
      Reassociate(",", tail, rest);
    }
  }

  function AfterMember(members: seq<Member>, rest: string, ascii: bool): string
    requires members != []
  {
    if |members| == 1 then "}" + rest else "," + (PrintMembers(members[1..], ascii) + rest)
  }

  lemma SplitMember(k: string, x: string, t: string, rest: string)
    ensures ("\"" + k + ":" + x + t) + rest == "\"" + (k + (":" + (x + (t + rest))))
  {
  }

  /** The printed members start with a key that reads back, and go on after its colon. */
  lemma MembersText(members: seq<Member>, rest: string, ascii: bool)
    requires members != []
    ensures
      var s := PrintMembers(members, ascii) + rest;
      var m := members[0];
      s != [] && s[0] == '\"'
      && ParseChars(s[1..]) == Some((m.key, ":" + (Print(m.value, ascii) + AfterMember(members, rest, ascii))))
  {
    var m := members[0];
    var k, x := EscapeAll(m.key, ascii), Print(m.value, ascii);
    var t := if |members| == 1 then "}" else "," + PrintMembers(members[1..], ascii);
    SplitMember(k, x, t, rest);
    if |members| > 1 {
      Reassociate(",", PrintMembers(members[1..], ascii), rest);
    }
    var colon := ":" + (x + AfterMember(members, rest, ascii));
    var s := PrintMembers(members, ascii) + rest;
    assert s == "\"" + (k + colon);
    assert s[1..] == k + colon;
    CharsRoundTrip(m.key, colon, ascii);
  }

  lemma ArrayStep(t: string, xs: seq<Json>, rest: string)
    requires t != [] && !IsSpace(t[0])
    requires if t[0] == ']' then xs == [] && t[1..] == rest else ParseItems(t) == Some((xs, rest))
    ensures ParseValue("[" + t) == Some((Arr(xs), rest))
  {
    var s := "[" + t;
    assert SkipSpace(t) == t && SkipSpace(s) == s && s[1..] == t;
    assert ParseArray(t) == Some((Arr(xs), rest));
  }

  lemma ObjectStep(t: string, ms: seq<Member>, rest: string)
    requires t != [] && !IsSpace(t[0])
    requires if t[0] == '}' then ms == [] && t[1..] == rest else ParseMembers(t) == Some((ms, rest))
    ensures ParseValue("{" + t) == Some((Obj(ms), rest))
  {
    var s := "{" + t;
    assert SkipSpace(t) == t && SkipSpace(s) == s && s[1..] == t;
    assert ParseObject(t) == Some((Obj(ms), rest));
  }

  /** Whatever follows, the reader takes back exactly the value that was printed. */
  lemma {:induction false} ValueRoundTrip(v: Json, rest: string, ascii: bool)
    requires Ends(rest)
    ensures ParseValue(Print(v, ascii) + rest) == Some((v, rest))
    decreases v, 0
  {
    hide Print, PrintItems, PrintMembers, ParseValue, ParseItems, ParseMembers;
    match v {
      case Arr(items) =>
        ArrayText(items, rest, ascii);
        if items != [] {
          ItemsRoundTrip(items, rest, ascii);
        }
        ArrayStep(PrintItems(items, ascii) + rest, items, rest);
      case Obj(members) =>
        ObjectText(members, rest, ascii);
        if members != [] {
          MembersRoundTrip(members, rest, ascii);
        }
        ObjectStep(PrintMembers(members, ascii) + rest, members, rest);
      case _ => ScalarRoundTrip(v, rest, ascii);
    }
  }

  lemma {:induction false} ItemsRoundTrip(items: seq<Json>, rest: string, ascii: bool)
    requires items != []
    ensures ParseItems(PrintItems(items, ascii) + rest) == Some((items, rest))
    decreases items, 1
  {
    hide Print, PrintItems, ParseValue, ParseItems;
    var x := items[0];
    ItemsText(items, rest, ascii);
    ValueRoundTrip(x, AfterItem(items, rest, ascii), ascii);
    if |items| == 1 {
      ItemsStep(PrintItems(items, ascii) + rest, x, rest);
      assert items == [x];
    } else {
      ItemsRoundTrip(items[1..], rest, ascii);
      ItemsStep(PrintItems(items, ascii) + rest, x, PrintItems(items[1..], ascii) + rest);
      assert items == [x] + items[1..];
    }
  }

  lemma {:induction false} MembersRoundTrip(members: seq<Member>, rest: string, ascii: bool)
    requires members != []
    ensures ParseMembers(PrintMembers(members, ascii) + rest) == Some((members, rest))
    decreases members, 1
  {
    hide Print, PrintMembers, ParseValue, ParseMembers;
    var m := members[0];
    assert m.value < m;
    var after := AfterMember(members, rest, ascii);
    var s := PrintMembers(members, ascii) + rest;
    MembersText(members, rest, ascii);
    ValueRoundTrip(m.value, after, ascii);
    if |members| == 1 {
      MembersStep(s, m.key, Print(m.value, ascii) + after, m.value, rest);
      assert members == [m];
    } else {
      MembersRoundTrip(members[1..], rest, ascii);
      MembersStep(s, m.key, Print(m.value, ascii) + after, m.value, PrintMembers(members[1..], ascii) + rest);
      assert members == [m] + members[1..];
    }
  }

  // ---- one text for each document -----------------------------------------

  lemma KeyLeIsPreorder()
    ensures TotalPreorder(KeyLe)
  {
    Text.LeIsTotalOrder();
    assert forall m, n :: KeyLe(m, n) <==> Text.Le(m.key, n.key);
  }

  lemma NormalMembersDistinct(ms: seq<Member>)
    requires DistinctKeys(ms)
    ensures NoDuplicates(NormalMembers(ms)) && Separates(KeyLe, NormalMembers(ms))
  {
    var r := NormalMembers(ms);
    forall i | 0 <= i < |ms| ensures r[i].key == ms[i].key {
      NormalMemberAt(ms, i);
    }
    forall x, y | x in r && y in r && KeyLe(x, y) && KeyLe(y, x) ensures x == y {
      Text.LeAntisymmetric(x.key, y.key);
      var i :| 0 <= i < |r| && r[i] == x;
      var j :| 0 <= j < |r| && r[j] == y;
      assert ms[i].key == ms[j].key;
    }
  }

  predicate Counterpart(m: Member, n: Member) {
    n.key == m.key && Normal(m.value) == Normal(n.value)
  }

  /** Every member of `ms` has a counterpart in `ns` with the same key and normal form. */
  ghost predicate Matched(ms: seq<Member>, ns: seq<Member>) {
    forall m | m in ms :: exists n :: n in ns && Counterpart(m, n)
  }

  lemma NormalMemberOf(ms: seq<Member>, x: Member)
    ensures x in NormalMembers(ms) <==> exists m :: m in ms && x == Member(m.key, Normal(m.value))
  {
    if x in NormalMembers(ms) {
      var i :| 0 <= i < |ms| && NormalMembers(ms)[i] == x;
      NormalMemberAt(ms, i);
      assert ms[i] in ms;
    }
    if m :| m in ms && x == Member(m.key, Normal(m.value)) {
      var i :| 0 <= i < |ms| && ms[i] == m;
      NormalMemberAt(ms, i);
      assert NormalMembers(ms)[i] == x;
    }
  }

  lemma MatchedIncludes(ms: seq<Member>, ns: seq<Member>)
    requires Matched(ms, ns)
    ensures forall x | x in NormalMembers(ms) :: x in NormalMembers(ns)
  {
    forall x | x in NormalMembers(ms) ensures x in NormalMembers(ns) {
      NormalMemberOf(ms, x);
      var m :| m in ms && x == Member(m.key, Normal(m.value));
      var n :| n in ns && Counterpart(m, n);
      NormalMemberOf(ns, x);
      assert x == Member(n.key, Normal(n.value));
    }
  }

  lemma IncludedMatches(ms: seq<Member>, ns: seq<Member>)
    requires forall x | x in NormalMembers(ms) :: x in NormalMembers(ns)
    ensures Matched(ms, ns)
  {
    forall m | m in ms ensures exists n :: n in ns && Counterpart(m, n) {
      var x := Member(m.key, Normal(m.value));
      NormalMemberOf(ms, x);
      NormalMemberOf(ns, x);
      var n :| n in ns && x == Member(n.key, Normal(n.value));
      assert Counterpart(m, n);
    }
  }

  lemma NormalObjectsDecide(ms: seq<Member>, ns: seq<Member>)
    requires DistinctKeys(ms) && DistinctKeys(ns)
    ensures Normal(Obj(ms)) == Normal(Obj(ns)) <==> Matched(ms, ns) && Matched(ns, ms)
  {
    KeyLeIsPreorder();
    NormalMembersDistinct(ms);
    NormalMembersDistinct(ns);
    var a, b := NormalMembers(ms), NormalMembers(ns);
    if Matched(ms, ns) && Matched(ns, ms) {
      MatchedIncludes(ms, ns);
      MatchedIncludes(ns, ms);
      DistinctListings(a, b);
      SortIgnoresOrder(a, b, KeyLe);
    }
    if Sort(a, KeyLe) == Sort(b, KeyLe) {
      SortKeeps(a, KeyLe);
      SortKeeps(b, KeyLe);
      MembersAgree(a, b);
      IncludedMatches(ms, ns);
      IncludedMatches(ns, ms);
    }
  }

  /** Each member of `ms` is the same as some member of `ns`, or the reverse. */
  ghost predicate Found(ms: seq<Member>, ns: seq<Member>) {
    forall m | m in ms :: exists n :: n in ns && SameMember(m, n)
  }

  ghost predicate Covered(ms: seq<Member>, ns: seq<Member>) {
    forall n | n in ns :: exists m :: m in ms && SameMember(m, n)
  }

  lemma SameObjectsAreFound(ms: seq<Member>, ns: seq<Member>)
    ensures SameDocument(Obj(ms), Obj(ns)) <==> Found(ms, ns) && Covered(ms, ns)
  {
  }

  lemma ScalarsAreEqual(v: Json, w: Json)
    requires SameDocument(v, w) && !v.Arr? && !v.Obj?
    ensures v == w
  {
  }

  lemma FoundScalar(ms: seq<Member>, ns: seq<Member>, m: Member)
    requires Found(ms, ns) && m in ms && !m.value.Arr? && !m.value.Obj?
    ensures m in ns
  {
    var n :| n in ns && SameMember(m, n);
    ScalarsAreEqual(m.value, n.value);
  }

  lemma FoundIsMatched(ms: seq<Member>, ns: seq<Member>)
    requires forall m, n | m in ms && n in ns :: SameMember(m, n) == Counterpart(m, n)
    ensures Found(ms, ns) <==> Matched(ms, ns)
  {
  }

  lemma CoveredIsMatched(ms: seq<Member>, ns: seq<Member>)
    requires forall m, n | m in ms && n in ns :: SameMember(m, n) == Counterpart(m, n)
    ensures Covered(ms, ns) <==> Matched(ns, ms)
  {
    forall m, n | m in ms && n in ns ensures SameMember(m, n) == Counterpart(n, m) {
      assert Counterpart(n, m) == Counterpart(m, n);
    }
  }

  /** Normal forms agree exactly on documents equal up to member order. */
  lemma {:induction false} NormalDecides(v: Json, w: Json)
    requires Dicts(v) && Dicts(w)
    ensures SameDocument(v, w) <==> Normal(v) == Normal(w)
    decreases v
  {
    match (v, w) {
      case (Arr(xs), Arr(ys)) =>
        if |xs| == |ys| {
          forall i | 0 <= i < |xs| ensures SameDocument(xs[i], ys[i]) <==> NormalItems(xs)[i] == NormalItems(ys)[i] {
            NormalDecides(xs[i], ys[i]);
            NormalItemAt(xs, i);
            NormalItemAt(ys, i);
          }
        }
      case (Obj(ms), Obj(ns)) =>
        forall m, n | m in ms && n in ns ensures SameMember(m, n) == Counterpart(m, n) {
          assert m.value < m;
          assert m.value < v;
          NormalDecides(m.value, n.value);
        }
        SameObjectsAreFound(ms, ns);
        FoundIsMatched(ms, ns);
        CoveredIsMatched(ms, ns);
        NormalObjectsDecide(ms, ns);
      case _ =>
    }
  }

  /** Reading an encoding gives the document back, members in key order; a final newline is harmless. */
  lemma EncodingReadsBack(v: Json, ascii: bool)
    ensures ParseText(Encode(v, ascii)) == Some(Normal(v))
    ensures ParseText(Encode(v, ascii) + "\n") == Some(Normal(v))
  {
    ValueRoundTrip(Normal(v), "", ascii);
    assert Encode(v, ascii) + "" == Encode(v, ascii);
    ValueRoundTrip(Normal(v), "\n", ascii);
    assert SkipSpace("\n") == "";
  }

  /** Two documents share a canonical text exactly when they differ in member order alone. */
  lemma EncodingIsCanonical(v: Json, w: Json, ascii: bool)
    requires Dicts(v) && Dicts(w)
    ensures Encode(v, ascii) == Encode(w, ascii) <==> SameDocument(v, w)
    ensures Encode(v, ascii) + "\n" == Encode(w, ascii) + "\n" <==> SameDocument(v, w)
  {
    NormalDecides(v, w);
    EncodingReadsBack(v, ascii);
    EncodingReadsBack(w, ascii);
  }

  lemma {:induction false} EscapedIsAscii(s: string)
    ensures forall i | 0 <= i < |EscapeAll(s, true)| :: EscapeAll(s, true)[i] as int < 128
  {
    if s != [] {
      EscapedIsAscii(s[1..]);
    }
  }

  /** The ASCII-escaped form is pure ASCII, whatever the document holds. */
  lemma {:induction false} PrintIsAscii(v: Json)
    ensures forall i | 0 <= i < |Print(v, true)| :: Print(v, true)[i] as int < 128
    decreases v, 0
  {
    match v {
      case Num(n) => ReadShow(if n < 0 then -n else n);
      case Str(s) => EscapedIsAscii(s);
      case Arr(items) => ItemsAscii(items);
      case Obj(members) => MembersAscii(members);
      case _ =>
    }
  }

  lemma {:induction false} ItemsAscii(items: seq<Json>)
    ensures forall i | 0 <= i < |PrintItems(items, true)| :: PrintItems(items, true)[i] as int < 128
    decreases items, 1
  {
    if items != [] {
      PrintIsAscii(items[0]);
      ItemsAscii(items[1..]);
    }
  }

  lemma {:induction false} MembersAscii(members: seq<Member>)
    ensures forall i | 0 <= i < |PrintMembers(members, true)| :: PrintMembers(members, true)[i] as int < 128
    decreases members, 1
  {
    if members != [] {
      var m := members[0];
      assert m.value < m;
      EscapedIsAscii(m.key);
      PrintIsAscii(m.value);
      MembersAscii(members[1..]);
    }
  }
}
