/** PEP 503 'Normalized Names', in the validating form that refuses an edge separator. */
module PackageName {
  import opened Wrappers

  predicate IsSeparator(c: char) {
    c == '-' || c == '_' || c == '.'
  }

  predicate IsNameChar(c: char) {
    'A' <= c <= 'Z' || 'a' <= c <= 'z' || '0' <= c <= '9' || IsSeparator(c)
  }

  /** `\A[A-Za-z0-9._-]+\Z` */
  predicate IsNameText(s: string) {
    s != "" && forall i | 0 <= i < |s| :: IsNameChar(s[i])
  }

  function LowerChar(c: char): char {
    if 'A' <= c <= 'Z' then (c as int - 'A' as int + 'a' as int) as char else c
  }

  function Lower(s: string): (r: string)
    ensures |r| == |s| && forall i | 0 <= i < |s| :: r[i] == LowerChar(s[i])
  {
    if s == "" then "" else [LowerChar(s[0])] + Lower(s[1..])
  }

  /** Length of the longest prefix of separators, or of non-separators. */
  function Span(s: string, separators: bool): (n: nat)
    ensures n <= |s|
    ensures forall i | 0 <= i < n :: IsSeparator(s[i]) == separators
    ensures n < |s| ==> IsSeparator(s[n]) != separators
  {
    if s == "" || IsSeparator(s[0]) != separators then 0 else 1 + Span(s[1..], separators)
  }

  /** Every run of separators becomes one hyphen. */
  function Collapse(s: string): string
    decreases |s|
  {
    if s == "" then ""
    else if IsSeparator(s[0]) then "-" + Collapse(s[Span(s, true)..])
    else [s[0]] + Collapse(s[1..])
  }

  /** The normalised name, or nothing for a name the normaliser refuses. */
  function Normalise(name: string): Option<string> {
    if !IsNameText(name) then None else
      var n := Lower(Collapse(name));
      if "-" <= n || (n != "" && n[|n| - 1] == '-') then None else Some(n)
  }

  // ---- the specification: tokens between separators -----------------------------------

  type Token = s: string | s != "" && forall i | 0 <= i < |s| :: !IsSeparator(s[i]) witness "a"

  /** The maximal separator-free pieces of a name, in order. */
  function Tokens(s: string): seq<Token>
    decreases |s|
  {
    if s == "" then []
    else if IsSeparator(s[0]) then Tokens(s[1..])
    else
      var n := Span(s, false);
      assert n > 0;
      [s[..n]] + Tokens(s[n..])
  }

  /** Tokens ignoring case. */
  function FoldedTokens(s: string): seq<Token> {
    Tokens(Lower(s))
  }

  function Join(tokens: seq<Token>): string {
    if tokens == [] then ""
    else if |tokens| == 1 then tokens[0]
    else tokens[0] + "-" + Join(tokens[1..])
  }

  predicate NoEdgeSeparator(s: string) {
    s != "" && !IsSeparator(s[0]) && !IsSeparator(s[|s| - 1])
  }

  lemma {:induction false} SpanOfPrefix(t: string, rest: string, separators: bool)
    requires forall i | 0 <= i < |t| :: IsSeparator(t[i]) == separators
    requires rest != "" ==> IsSeparator(rest[0]) != separators
    ensures Span(t + rest, separators) == |t|
  {
    if t == "" {
      assert t + rest == rest;
    } else {
      assert (t + rest)[1..] == t[1..] + rest;
      SpanOfPrefix(t[1..], rest, separators);
    }
  }

  lemma FirstToken(t: Token, rest: string)
    requires rest != "" ==> IsSeparator(rest[0])
    ensures Tokens(t + rest) == [t] + Tokens(rest)
  {
    SpanOfPrefix(t, rest, false);
    assert (t + rest)[..|t|] == t && (t + rest)[|t|..] == rest;
  }

  lemma {:induction false} SkipSeparators(s: string, n: nat)
    requires n <= |s| && forall i | 0 <= i < n :: IsSeparator(s[i])
    ensures Tokens(s) == Tokens(s[n..])
  {
    if n > 0 {
      SkipSeparators(s[1..], n - 1);
      assert s[1..][n - 1..] == s[n..];
    }
  }

  lemma {:induction false} CollapseToken(t: string, rest: string)
    requires forall i | 0 <= i < |t| :: !IsSeparator(t[i])
    ensures Collapse(t + rest) == t + Collapse(rest)
  {
    if t == "" {
      assert t + rest == rest;
    } else {
      assert (t + rest)[1..] == t[1..] + rest;
      CollapseToken(t[1..], rest);
    }
  }

  /** Collapsing a name with sound edges joins its tokens with single hyphens. */
  lemma {:induction false} CollapseJoins(s: string)
    requires NoEdgeSeparator(s)
    ensures Tokens(s) != [] && Collapse(s) == Join(Tokens(s))
    decreases |s|
  {
    var n := Span(s, false);
    var t, rest := s[..n], s[n..];
    assert s == t + rest;
    FirstToken(t, rest);
    CollapseToken(t, rest);
    if rest != "" {
      var k := Span(rest, true);
      assert rest[|rest| - 1] == s[|s| - 1];
      var next := rest[k..];
      assert next[|next| - 1] == s[|s| - 1];
      SkipSeparators(rest, k);
      CollapseJoins(next);
      assert Tokens(s)[1..] == Tokens(next);
    } else {
      assert Tokens(s) == [t];
    }
  }

  /** Joining separator-free tokens loses nothing. */
  lemma {:induction false} TokensOfJoin(tokens: seq<Token>)
    ensures Tokens(Join(tokens)) == tokens
  {
    if |tokens| == 1 {
      FirstToken(tokens[0], "");
      assert tokens[0] + "" == Join(tokens);
    } else if |tokens| > 1 {
      var rest := "-" + Join(tokens[1..]);
      assert Join(tokens) == tokens[0] + rest;
      FirstToken(tokens[0], rest);
      SkipSeparators(rest, 1);
      assert rest[1..] == Join(tokens[1..]);
      TokensOfJoin(tokens[1..]);
    }
  }

  lemma {:induction false} SpanOfLower(s: string, separators: bool)
    ensures Span(Lower(s), separators) == Span(s, separators)
  {
    if s != "" {
      assert Lower(s)[1..] == Lower(s[1..]);
      SpanOfLower(s[1..], separators);
    }
  }

  lemma LowerConcat(a: string, b: string)
    ensures Lower(a + b) == Lower(a) + Lower(b)
  {
  }

  /** Lower-casing and collapsing commute. */
  lemma {:induction false} LowerCollapse(s: string)
    ensures Lower(Collapse(s)) == Collapse(Lower(s))
    decreases |s|
  {
    hide Lower;
    if s == "" {
      assert Lower(s) == "";
    } else {
      var separated := IsSeparator(s[0]);
      var n := if separated then Span(s, true) else 1;
      var head := if separated then "-" else [s[0]];
      SpanOfLower(s, true);
      LowerCollapse(s[n..]);
      LowerConcat(head, Collapse(s[n..]));
      assert Lower(s)[n..] == Lower(s[n..]);
      assert Lower(head) == [LowerChar(head[0])];
    }
  }

  lemma {:induction false} CollapseEdges(s: string)
    requires s != ""
    ensures Collapse(s) != ""
    ensures Collapse(s)[0] == '-' <==> IsSeparator(s[0])
    ensures Collapse(s)[|Collapse(s)| - 1] == '-' <==> IsSeparator(s[|s| - 1])
    decreases |s|
  {
    var n := if IsSeparator(s[0]) then Span(s, true) else 1;
    var rest := s[n..];
    CollapseFirst(s, n);
    hide Collapse, IsSeparator;
    if rest != "" {
      CollapseEdges(rest);
      assert rest[|rest| - 1] == s[|s| - 1];
      assert Collapse(s)[|Collapse(s)| - 1] == Collapse(rest)[|Collapse(rest)| - 1];
    } else {
      assert s[|s| - 1] == s[n - 1];
    }
  }

  /** Collapsing takes a run of separators, or one other character, at a time. */
  lemma CollapseFirst(s: string, n: nat)
    requires s != "" && n == if IsSeparator(s[0]) then Span(s, true) else 1
    ensures 0 < n <= |s| && IsSeparator(s[n - 1]) == IsSeparator(s[0])
    ensures Collapse(s) == [if IsSeparator(s[0]) then '-' else s[0]] + Collapse(s[n..])
    ensures !IsSeparator(s[0]) ==> s[0] != '-'
    ensures Collapse("") == ""
  {
  }

  /**
   * A name is accepted exactly when its text is legal and no separator stands at an edge; it then
   * reads as its folded tokens, hyphenated.
   */
  lemma NormaliseJoinsTokens(name: string)
    ensures Normalise(name).Some? <==> IsNameText(name) && NoEdgeSeparator(name)
    ensures Normalise(name).Some? ==> Normalise(name).value == Join(FoldedTokens(name)) && FoldedTokens(name) != []
  {
    hide Tokens, Join, Collapse, Lower;
    if IsNameText(name) {
      CollapseEdges(name);
      LowerCollapse(name);
      if NoEdgeSeparator(name) {
        CollapseJoins(Lower(name));
      }
    }
  }

  predicate IsNormalChar(c: char) {
    'a' <= c <= 'z' || '0' <= c <= '9' || c == '-'
  }

  /** Over `[a-z0-9-]`, with no doubled and no edge hyphen. */
  predicate IsNormal(s: string) {
    && s != "" && s[0] != '-' && s[|s| - 1] != '-'
    && (forall i | 0 <= i < |s| :: IsNormalChar(s[i]))
    && (forall i | 0 <= i < |s| - 1 :: !(s[i] == '-' && s[i + 1] == '-'))
  }

  lemma {:induction false} CollapseIsClean(s: string)
    requires forall i | 0 <= i < |s| :: IsNameChar(s[i])
    ensures
      var r := Collapse(s);
      && (forall i | 0 <= i < |r| :: IsNameChar(r[i]) && (IsSeparator(r[i]) ==> r[i] == '-'))
      && (forall i | 0 <= i < |r| - 1 :: !(r[i] == '-' && r[i + 1] == '-'))
    decreases |s|
  {
    if s != "" {
      var n := if IsSeparator(s[0]) then Span(s, true) else 1;
      CollapseIsClean(s[n..]);
      if s[n..] != "" {
        CollapseEdges(s[n..]);
      }
      var r, tail := Collapse(s), Collapse(s[n..]);
      assert r[1..] == tail;
      forall i | 0 <= i < |r| - 1 ensures !(r[i] == '-' && r[i + 1] == '-') {
        if i > 0 {
          assert r[i] == tail[i - 1] && r[i + 1] == tail[i];
        }
      }
    }
  }

  /** Every accepted name normalises to a clean one. */
  lemma NormaliseIsNormal(name: string)
    requires Normalise(name).Some?
    ensures IsNormal(Normalise(name).value)
  {
    CollapseIsClean(name);
    CollapseEdges(name);
    var c := Collapse(name);
    var r := Lower(c);
    forall i | 0 <= i < |r| ensures IsNormalChar(r[i]) {
      assert r[i] == LowerChar(c[i]);
    }
    forall i | 0 <= i < |r| - 1 ensures !(r[i] == '-' && r[i + 1] == '-') {
      assert r[i] == LowerChar(c[i]) && r[i + 1] == LowerChar(c[i + 1]);
    }
  }

  lemma {:induction false} LowerOfNormal(s: string)
    requires forall i | 0 <= i < |s| :: IsNormalChar(s[i])
    ensures Lower(s) == s
  {
  }

  /** Normalising twice is normalising once. */
  lemma NormaliseIsIdempotent(name: string)
    requires Normalise(name).Some?
    ensures Normalise(Normalise(name).value) == Normalise(name)
  {
    var n := Normalise(name).value;
    NormaliseIsNormal(name);
    NormalIsName(n);
    NormaliseJoinsTokens(name);
    TokensOfJoin(FoldedTokens(name));
    NormaliseJoinsTokens(n);
    hide Normalise, Join, Tokens, Lower, IsNormal, IsNameText, NoEdgeSeparator;
  }

  lemma NormalIsName(s: string)
    requires IsNormal(s)
    ensures IsNameText(s) && NoEdgeSeparator(s) && Lower(s) == s
  {
    hide Lower;
    LowerOfNormal(s);
    assert IsNormalChar(s[0]) && IsNormalChar(s[|s| - 1]);
  }

  /** Two accepted names normalise equally exactly when their tokens agree ignoring case. */
  lemma NormaliseDecidesTokens(a: string, b: string)
    requires Normalise(a).Some? && Normalise(b).Some?
    ensures Normalise(a) == Normalise(b) <==> FoldedTokens(a) == FoldedTokens(b)
  {
    NormaliseJoinsTokens(a);
    NormaliseJoinsTokens(b);
    TokensOfJoin(FoldedTokens(a));
    TokensOfJoin(FoldedTokens(b));
  }

  // ---- what normalisation does to a name, letter by letter -----------------------------------

  /** The same letter in upper and in lower case, as ASCII has them. */
  predicate IsCasePair(upper: char, lower: char) {
    'A' <= upper <= 'Z' && lower as int == upper as int + 32
  }

  predicate SameButCase(a: string, b: string) {
    |a| == |b| && forall i | 0 <= i < |a| :: a[i] == b[i] || IsCasePair(a[i], b[i]) || IsCasePair(b[i], a[i])
  }

  /**
   * Case never matters: a name and the name with the case of some letters changed normalise alike,
   * or neither does.
   */
  lemma NormaliseIgnoresCase(a: string, b: string)
    requires SameButCase(a, b)
    ensures Normalise(a) == Normalise(b)
  {
    LowerAgrees(a, b);
    CharactersAgree(a, b);
    NormaliseJoinsTokens(a);
    NormaliseJoinsTokens(b);
    hide Normalise, Lower, Tokens, Join, IsNameChar, IsSeparator;
  }

  lemma LowerAgrees(a: string, b: string)
    requires SameButCase(a, b)
    ensures Lower(a) == Lower(b)
  {
    hide Lower;
    forall i | 0 <= i < |a| ensures Lower(a)[i] == Lower(b)[i] {
      assert LowerChar(a[i]) == LowerChar(b[i]);
    }
  }

  lemma CharactersAgree(a: string, b: string)
    requires SameButCase(a, b)
    ensures forall i | 0 <= i < |a| ::
      (IsNameChar(a[i]) <==> IsNameChar(b[i])) && (IsSeparator(a[i]) <==> IsSeparator(b[i]))
  {
  }

  /** Exactly these names are accepted: ASCII letters, digits and the three separators, none of these at an edge. */
  lemma NormaliseAccepts(name: string)
    ensures Normalise(name).Some? <==>
      && name != "" && name[0] !in "-_." && name[|name| - 1] !in "-_."
      && forall i | 0 <= i < |name| ::
        'A' <= name[i] <= 'Z' || 'a' <= name[i] <= 'z' || '0' <= name[i] <= '9' || name[i] in "-_."
  {
    NormaliseJoinsTokens(name);
    SeparatorsAre();
    hide Normalise, Join, Tokens, Lower, IsSeparator;
  }

  lemma SeparatorsAre()
    ensures forall c :: IsSeparator(c) <==> c in "-_."
  {
    forall c ensures IsSeparator(c) <==> c in "-_." {
      var all := "-_.";
      assert all[0] in all && all[1] in all && all[2] in all;
    }
  }

  /** Lower-case letters and digits, with single hyphens between them, stay as they are. */
  lemma NormalStays(name: string)
    requires name != "" && name[0] != '-' && name[|name| - 1] != '-'
    requires forall i | 0 <= i < |name| :: 'a' <= name[i] <= 'z' || '0' <= name[i] <= '9' || name[i] == '-'
    requires forall i | 0 <= i < |name| - 1 :: name[i] != '-' || name[i + 1] != '-'
    ensures Normalise(name) == Some(name)
  {
    LowerOfNormal(name);
    CollapseKeeps(name);
    hide Lower, Collapse;
    assert IsNameText(name);
  }

  lemma {:induction false} CollapseKeeps(s: string)
    requires forall i | 0 <= i < |s| :: s[i] == '-' || !IsSeparator(s[i])
    requires forall i | 0 <= i < |s| - 1 :: s[i] != '-' || s[i + 1] != '-'
    ensures Collapse(s) == s
  {
    if s != "" {
      assert s == [s[0]] + s[1..];
      forall i | 0 <= i < |s[1..]| - 1 ensures s[1..][i] != '-' || s[1..][i + 1] != '-' {
        assert s[i + 1] != '-' || s[i + 1 + 1] != '-';
      }
      CollapseKeeps(s[1..]);
      if IsSeparator(s[0]) {
        assert |s| > 1 ==> s[0 + 1] != '-';
        assert Span(s, true) == 1;
      }
    }
  }

  lemma {:induction false} TokensAround(a: string, r: string, b: string)
    requires r != "" && forall i | 0 <= i < |r| :: IsSeparator(r[i])
    ensures Tokens(a + r + b) == Tokens(a) + Tokens(b)
    decreases |a|
  {
    var s := a + r + b;
    if a == "" {
      SkipSeparators(s, |r|);
      assert s[|r|..] == b;
    } else if IsSeparator(a[0]) {
      TokensAround(a[1..], r, b);
      assert s[1..] == a[1..] + r + b;
    } else {
      var n := Span(a, false);
      assert n > 0;
      TokensAround(a[n..], r, b);
      TokenThenAround(a[..n], a[n..], r, b);
      assert a == a[..n] + a[n..];
    }
  }

  lemma TokenThenAround(t: Token, a: string, r: string, b: string)
    requires (a != "" ==> IsSeparator(a[0])) && r != "" && IsSeparator(r[0])
    requires Tokens(a + r + b) == Tokens(a) + Tokens(b)
    ensures Tokens((t + a) + r + b) == Tokens(t + a) + Tokens(b)
  {
    hide Tokens;
    FirstToken(t, a);
    FirstToken(t, a + r + b);
    assert (t + a) + r + b == t + (a + r + b);
    assert ([t] + Tokens(a)) + Tokens(b) == [t] + (Tokens(a) + Tokens(b));
  }

  /** Any run of separators counts as one hyphen. */
  lemma SeparatorRunIsHyphen(a: string, r: string, b: string)
    requires a != "" && b != "" && r != "" && forall i | 0 <= i < |r| :: r[i] in "-_."
    ensures Normalise(a + r + b) == Normalise(a + "-" + b)
  {
    SeparatorsAre();
    var (s, t) := (a + r + b, a + "-" + b);
    NormaliseJoinsTokens(s);
    NormaliseJoinsTokens(t);
    LowerConcat(a + r, b);
    LowerConcat(a, r);
    LowerConcat(a + "-", b);
    LowerConcat(a, "-");
    TokensAround(Lower(a), Lower(r), Lower(b));
    TokensAround(Lower(a), Lower("-"), Lower(b));
    hide Normalise, Join, Tokens, Lower, IsSeparator;
    assert s[0] == t[0] == a[0] && s[|s| - 1] == t[|t| - 1] == b[|b| - 1];
    LegalAround(a, r, b);
    LegalAround(a, "-", b);
  }

  lemma LegalAround(a: string, r: string, b: string)
    requires a != "" && forall i | 0 <= i < |r| :: IsSeparator(r[i])
    ensures IsNameText(a + r + b) <==>
      (forall i | 0 <= i < |a| :: IsNameChar(a[i])) && (forall i | 0 <= i < |b| :: IsNameChar(b[i]))
  {
    var s := a + r + b;
    assert forall i | 0 <= i < |a| :: s[i] == a[i];
    assert forall i | 0 <= i < |r| :: s[|a| + i] == r[i];
    assert forall i | 0 <= i < |b| :: s[|a| + |r| + i] == b[i];
    if IsNameText(s) {
      forall i | 0 <= i < |a| ensures IsNameChar(a[i]) {
        assert s[i] == a[i];
      }
      forall i | 0 <= i < |b| ensures IsNameChar(b[i]) {
        assert IsNameChar(s[|a| + |r| + i]);
      }
    }
  }
}
