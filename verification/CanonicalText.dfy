/** The canonical encodings character by character: which text they are, and not only that it reads back. */
module CanonicalText {
  import opened Sorting
  import opened Decimals
  import opened Wrappers
  import opened CanonicalJson
  import Text

  /** `sep.join(parts)`. */
  function Between(parts: seq<string>, sep: string): string {
    if parts == [] then "" else parts[0] + if |parts| == 1 then "" else sep + Between(parts[1..], sep)
  }

  /**
   * A character stands for itself: neither quote nor backslash nor control, and in the ASCII form
   * up to the tilde.
   */
  predicate StandsForItself(c: char, ascii: bool) {
    c != '\"' && c != '\\' && ' ' <= c && (ascii ==> c <= '~')
  }

  const SHORT_ESCAPES: map<int, char> :=
    map[8 := 'b', 9 := 't', 10 := 'n', 12 := 'f', 13 := 'r', 34 := '\"', 92 := '\\']

  /** How every character is written: as itself, with a letter for seven of them, else by its UTF-16 units. */
  lemma CharacterText(c: char, ascii: bool)
    ensures StandsForItself(c, ascii) <==> Escape(c, ascii) == [c]
    ensures c as int in SHORT_ESCAPES ==> Escape(c, ascii) == ['\\', SHORT_ESCAPES[c as int]]
    ensures !StandsForItself(c, ascii) && c as int !in SHORT_ESCAPES && c as int < 0x1_0000 ==>
      UnitText(Escape(c, ascii), c as int)
    ensures !StandsForItself(c, ascii) && c as int >= 0x1_0000 ==>
      && |Escape(c, ascii)| == 12
      && UnitText(Escape(c, ascii)[..6], 0xd800 + (c as int - 0x1_0000) / 0x400)
      && UnitText(Escape(c, ascii)[6..], 0xdc00 + (c as int - 0x1_0000) % 0x400)
  {
    PlainText(c, ascii);
    ShortText(c, ascii);
    hide Escape, Hex4, UnitText;
    if !StandsForItself(c, ascii) && c as int !in SHORT_ESCAPES {
      if c as int < 0x1_0000 {
        OneUnit(c, ascii);
      } else {
        TwoUnits(c, ascii);
      }
    }
  }

  lemma PlainText(c: char, ascii: bool)
    ensures StandsForItself(c, ascii) <==> Escape(c, ascii) == [c]
  {
    hide Hex4;
    EscapeSizes(c, ascii);
  }

  lemma ShortText(c: char, ascii: bool)
    ensures c as int in SHORT_ESCAPES ==> Escape(c, ascii) == ['\\', SHORT_ESCAPES[c as int]]
  {
    hide Hex4;
  }

  lemma OneUnit(c: char, ascii: bool)
    requires !StandsForItself(c, ascii) && c as int !in SHORT_ESCAPES && c as int < 0x1_0000
    ensures UnitText(Escape(c, ascii), c as int)
  {
    hide Hex4, UnitText;
    UnitIsHex(c as int);
    assert Escape(c, ascii) == "\\u" + Hex4(c as int);
  }

  lemma TwoUnits(c: char, ascii: bool)
    requires !StandsForItself(c, ascii) && c as int >= 0x1_0000
    ensures |Escape(c, ascii)| == 12
    ensures UnitText(Escape(c, ascii)[..6], 0xd800 + (c as int - 0x1_0000) / 0x400)
    ensures UnitText(Escape(c, ascii)[6..], 0xdc00 + (c as int - 0x1_0000) % 0x400)
  {
    var n := c as int - 0x1_0000;
    var high, low := 0xd800 + n / 1024, 0xdc00 + n % 1024;
    UnitIsHex(high);
    UnitIsHex(low);
    hide Hex4, UnitText;
    var (first, second) := ("\\u" + Hex4(high), "\\u" + Hex4(low));
    assert Escape(c, ascii) == first + second;
    hide Escape;
    TwoHalves(first, second);
  }

  lemma TwoHalves(first: string, second: string)
    requires |first| == 6 && |second| == 6
    ensures |first + second| == 12 && (first + second)[..6] == first && (first + second)[6..] == second
  {
  }

  /** `\u` and four lower-case hexadecimal digits that read as `n`. */
  predicate UnitText(s: string, n: int) {
    |s| == 6 && s[..2] == "\\u" && Text.HexDigits(s[2..], 4) && ParseHex4(s[2..]) == Some(n)
  }

  lemma UnitIsHex(n: nat)
    requires n < 0x1_0000
    ensures UnitText("\\u" + Hex4(n), n)
  {
    HexRoundTrip(n, "");
    assert Hex4(n) + "" == Hex4(n);
    assert ("\\u" + Hex4(n))[2..] == Hex4(n);
    hide ParseHex4;
    assert forall d: nat | d < 16 :: Text.IsHex(HexOf(d));
    assert forall i | 0 <= i < 4 :: Text.IsHex(Hex4(n)[i]);
  }

  function Escapes(s: string, ascii: bool): (r: seq<string>)
    ensures |r| == |s| && forall i | 0 <= i < |s| :: r[i] == Escape(s[i], ascii)
  {
    seq(|s|, i requires 0 <= i < |s| => Escape(s[i], ascii))
  }

  function ItemTexts(items: seq<Json>, ascii: bool): (r: seq<string>)
    ensures |r| == |items| && forall i | 0 <= i < |items| :: r[i] == Print(items[i], ascii)
  {
    seq(|items|, i requires 0 <= i < |items| => Print(items[i], ascii))
  }

  function MemberTexts(members: seq<Member>, ascii: bool): (r: seq<string>)
    ensures |r| == |members|
    ensures forall i | 0 <= i < |members| ::
      r[i] == Quote(members[i].key, ascii) + ":" + Print(members[i].value, ascii)
  {
    seq(|members|, i requires 0 <= i < |members| =>
      Quote(members[i].key, ascii) + ":" + Print(members[i].value, ascii))
  }

  lemma {:induction false} EscapesJoin(s: string, ascii: bool)
    ensures EscapeAll(s, ascii) == Between(Escapes(s, ascii), "") + "\""
  {
    if s != [] {
      hide Escape;
      EscapesJoin(s[1..], ascii);
      assert Escapes(s, ascii)[1..] == Escapes(s[1..], ascii);
      if |s| == 1 {
        assert s[1..] == [];
      }
    }
  }

  lemma {:induction false} ItemsJoin(items: seq<Json>, ascii: bool)
    ensures PrintItems(items, ascii) == Between(ItemTexts(items, ascii), ",") + "]"
  {
    if items != [] {
      hide Print;
      ItemsJoin(items[1..], ascii);
      assert ItemTexts(items, ascii)[1..] == ItemTexts(items[1..], ascii);
    }
  }

  lemma {:induction false} MembersJoin(members: seq<Member>, ascii: bool)
    ensures PrintMembers(members, ascii) == Between(MemberTexts(members, ascii), ",") + "}"
  {
    if members != [] {
      hide Print, Quote;
      MembersJoin(members[1..], ascii);
      assert MemberTexts(members, ascii)[1..] == MemberTexts(members[1..], ascii);
    }
  }

  /** The text of a value, part by part: no space anywhere, items and members in their order. */
  lemma ValueText(v: Json, ascii: bool)
    ensures v.Null? ==> Print(v, ascii) == "null"
    ensures v.Bool? ==> Print(v, ascii) == if v.b then "true" else "false"
    ensures v.Num? ==> NumeralText(Print(v, ascii), v.n)
    ensures v.Str? ==> Print(v, ascii) == "\"" + Between(Escapes(v.s, ascii), "") + "\""
    ensures v.Arr? ==> Print(v, ascii) == "[" + Between(ItemTexts(v.items, ascii), ",") + "]"
    ensures v.Obj? ==> Print(v, ascii) == "{" + Between(MemberTexts(v.members, ascii), ",") + "}"
  {
    hide NumeralText, Escape;
    match v
    case Num(n) => NumberText(n, ascii);
    case Str(s) => EscapesJoin(s, ascii);
    case Arr(items) => ItemsJoin(items, ascii);
    case Obj(members) => MembersJoin(members, ascii);
    case _ =>
  }

  /** A sign for a negative number only, then its digits with no leading zero. */
  predicate NumeralText(s: string, n: int) {
    var digits := if n < 0 && s != [] then s[1..] else s;
    && (n < 0 ==> s != [] && s[0] == '-')
    && digits != [] && AllDigits(digits) && Read(digits) == (if n < 0 then 0 - n else n)
    && (digits[0] == '0' ==> n == 0 && |digits| == 1)
  }

  lemma NumberText(n: int, ascii: bool)
    ensures NumeralText(Print(Num(n), ascii), n)
  {
    var digits := Show(if n < 0 then 0 - n else n);
    ReadShow(if n < 0 then 0 - n else n);
    LoneZero(if n < 0 then 0 - n else n);
    hide Show, Read, AllDigits;
    if n < 0 {
      assert Print(Num(n), ascii) == "-" + digits;
      assert ("-" + digits)[1..] == digits;
    }
  }

  lemma LoneZero(n: nat)
    ensures n == 0 ==> Show(n) == "0"
  {
  }

  /** At every depth the keys of an object ascend strictly in code-point order. */
  predicate KeysAscend(v: Json) {
    match v
    case Arr(items) => forall i | 0 <= i < |items| :: KeysAscend(items[i])
    case Obj(members) =>
      && (forall i, j | 0 <= i < j < |members| :: Text.Lt(members[i].key, members[j].key))
      && forall i | 0 <= i < |members| :: KeysAscend(members[i].value)
    case _ => true
  }

  /** What is printed has its keys in strictly ascending order, and is the document up to member order. */
  lemma {:induction false} EncodedKeysAscend(v: Json)
    requires Dicts(v)
    ensures KeysAscend(Normal(v))
    decreases v
  {
    match v
    case Arr(items) =>
      forall i | 0 <= i < |items| ensures KeysAscend(NormalItems(items)[i]) {
        NormalItemAt(items, i);
        EncodedKeysAscend(items[i]);
      }
    case Obj(members) =>
      var printed := Sort(NormalMembers(members), KeyLe);
      KeyLeIsPreorder();
      SortSorts(NormalMembers(members), KeyLe);
      NormalMembersDistinct(members);
      PermutationKeepsDistinct(NormalMembers(members), printed);
      MembersAgree(NormalMembers(members), printed);
      KeysStrictlyAscend(NormalMembers(members), printed);
      forall i | 0 <= i < |printed| ensures KeysAscend(printed[i].value) {
        PrintedMember(members, printed[i]);
        var k :| 0 <= k < |members| && printed[i] == Member(members[k].key, Normal(members[k].value));
        assert members[k] < v && members[k].value < members[k];
        EncodedKeysAscend(members[k].value);
      }
    case _ =>
  }

  lemma PrintedMember(members: seq<Member>, m: Member)
    requires m in NormalMembers(members)
    ensures exists k :: 0 <= k < |members| && m == Member(members[k].key, Normal(members[k].value))
  {
    var k :| 0 <= k < |NormalMembers(members)| && NormalMembers(members)[k] == m;
    NormalMemberAt(members, k);
  }

  lemma KeysStrictlyAscend(members: seq<Member>, printed: seq<Member>)
    requires Sorted(printed, KeyLe) && NoDuplicates(printed)
    requires Separates(KeyLe, members) && forall m | m in printed :: m in members
    ensures forall i, j | 0 <= i < j < |printed| :: Text.Lt(printed[i].key, printed[j].key)
  {
    forall i, j | 0 <= i < j < |printed| ensures Text.Lt(printed[i].key, printed[j].key) {
      assert KeyLe(printed[i], printed[j]) && printed[i] != printed[j];
      assert printed[i] in members && printed[j] in members;
      Text.LeTotal(printed[j].key, printed[j].key);
      assert printed[i].key == printed[j].key ==> KeyLe(printed[j], printed[i]);
    }
  }
}
