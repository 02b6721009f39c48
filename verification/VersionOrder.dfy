/** The natural version order of the declared-publication sweep. */
module VersionOrder {
  import opened Wrappers
  import opened Sorting
  import D = Decimals
  import Text

  /** The character tables `str.isdigit`, `str.isalpha` and `int` consult. */
  datatype Tables = Tables(digit: char -> bool, alpha: char -> bool, decimal: char -> Option<nat>)

  /** One element of a key: `(0, letters)` or `(1, number)`. */
  datatype Part = Letters(s: string) | Number(n: nat)

  type Run = s: string | s != "" witness "0"

  datatype Kind = DigitKind | AlphaKind | OtherKind

  function KindOf(c: char, t: Tables): Kind {
    if t.digit(c) then DigitKind else if t.alpha(c) then AlphaKind else OtherKind
  }

  /** `int(s)`: refused when a character has no decimal value (a superscript digit, say). */
  function ReadInt(s: string, t: Tables): Option<nat> {
    if s == [] then Some(0)
    else match (ReadInt(s[..|s| - 1], t), t.decimal(s[|s| - 1]))
      case (Some(n), Some(d)) => Some(10 * n + d)
      case _ => None
  }

  // ---- the specification: split into maximal runs ------------------------------

  /** Length of the longest prefix whose characters all have kind `k`. */
  function RunLength(s: string, k: Kind, t: Tables): (n: nat)
    ensures n <= |s|
    ensures forall i | 0 <= i < n :: KindOf(s[i], t) == k
    ensures n < |s| ==> KindOf(s[n], t) != k
  {
    if s == [] || KindOf(s[0], t) != k then 0 else 1 + RunLength(s[1..], k, t)
  }

  /** The maximal runs of digits and of letters, in order; everything else only separates. */
  function Runs(s: string, t: Tables): seq<Run>
    decreases |s|
  {
    if s == [] then []
    else if KindOf(s[0], t) == OtherKind then Runs(s[1..], t)
    else
      var n := RunLength(s, KindOf(s[0], t), t);
      assert n > 0;
      [s[..n]] + Runs(s[n..], t)
  }

  /** A digit run as a number, a letter run as text. */
  function PartOf(run: Run, t: Tables): Option<Part> {
    if KindOf(run[0], t) == DigitKind then
      (match ReadInt(run, t) case Some(n) => Some(Number(n)) case None => None)
    else Some(Letters(run))
  }

  function PartsOf(runs: seq<Run>, t: Tables): Option<seq<Part>> {
    if runs == [] then Some([])
    else match (PartOf(runs[0], t), PartsOf(runs[1..], t))
      case (Some(p), Some(ps)) => Some([p] + ps)
      case _ => None
  }

  /** The key of a version, or nothing when some digit run is no numeral. */
  function Key(version: string, t: Tables): Option<seq<Part>> {
    PartsOf(Runs(version, t), t)
  }

  // ---- the scan ------------------------------------------------------------------

  predicate Pure(run: string, k: Kind, t: Tables) {
    forall i | 0 <= i < |run| :: KindOf(run[i], t) == k
  }

  lemma {:induction false} RunLengthOfPrefix(run: string, rest: string, k: Kind, t: Tables)
    requires Pure(run, k, t) && (rest != [] ==> KindOf(rest[0], t) != k)
    ensures RunLength(run + rest, k, t) == |run|
  {
    if run == [] {
      assert run + rest == rest;
    } else {
      assert (run + rest)[1..] == run[1..] + rest;
      RunLengthOfPrefix(run[1..], rest, k, t);
    }
  }

  /** A pure run that cannot be prolonged is the first of the runs. */
  lemma FirstRun(run: Run, rest: string, k: Kind, t: Tables)
    requires k != OtherKind && Pure(run, k, t)
    requires rest != [] ==> KindOf(rest[0], t) != k
    ensures Runs(run + rest, t) == [run] + Runs(rest, t)
  {
    RunLengthOfPrefix(run, rest, k, t);
    assert (run + rest)[..|run|] == run && (run + rest)[|run|..] == rest;
  }

  lemma {:induction false} PartsSplit(a: seq<Run>, b: seq<Run>, t: Tables)
    ensures PartsOf(a + b, t) ==
      match (PartsOf(a, t), PartsOf(b, t)) { case (Some(p), Some(q)) => Some(p + q) case _ => None }
  {
    if a == [] {
      assert a + b == b;
      if PartsOf(b, t).Some? {
        assert [] + PartsOf(b, t).value == PartsOf(b, t).value;
      }
    } else {
      PartsSplit(a[1..], b, t);
      assert (a + b)[0] == a[0] && (a + b)[1..] == a[1..] + b;
      match (PartOf(a[0], t), PartsOf(a[1..], t), PartsOf(b, t)) {
        case (Some(p), Some(ps), Some(q)) => assert [p] + (ps + q) == ([p] + ps) + q;
        case _ =>
      }
    }
  }

  /** What one flush of a pending run does to the key under construction. */
  lemma Flush(version: string, done: seq<Run>, parts: seq<Part>, run: Run, rest: string, k: Kind, t: Tables)
    requires k != OtherKind && Pure(run, k, t) && (rest != [] ==> KindOf(rest[0], t) != k)
    requires PartsOf(done, t) == Some(parts) && Runs(version, t) == done + Runs(run + rest, t)
    ensures Runs(version, t) == (done + [run]) + Runs(rest, t)
    ensures PartOf(run, t).None? ==> Key(version, t) == None
    ensures PartOf(run, t).Some? ==> PartsOf(done + [run], t) == Some(parts + [PartOf(run, t).value])
  {
    FirstRun(run, rest, k, t);
    assert done + ([run] + Runs(rest, t)) == (done + [run]) + Runs(rest, t);
    PartsSplit(done, [run], t);
    PartsSplit(done + [run], Runs(rest, t), t);
    assert [run][1..] == [];
    if PartOf(run, t).Some? {
      var p := PartOf(run, t).value;
      assert [p] + [] == [p];
      assert PartsOf([run], t) == Some([p]);
    }
  }

  lemma FlushDigits(version: string, done: seq<Run>, parts: seq<Part>, digits: string, rest: string, t: Tables)
    requires digits != "" && Pure(digits, DigitKind, t) && (rest != [] ==> KindOf(rest[0], t) != DigitKind)
    requires PartsOf(done, t) == Some(parts) && Runs(version, t) == done + Runs(digits + rest, t)
    ensures Runs(version, t) == (done + [digits]) + Runs(rest, t)
    ensures ReadInt(digits, t).None? ==> Key(version, t) == None
    ensures ReadInt(digits, t).Some? ==> PartsOf(done + [digits], t) == Some(parts + [Number(ReadInt(digits, t).value)])
  {
    hide Runs, PartsOf, RunLength, Key;
    Flush(version, done, parts, digits, rest, DigitKind, t);
  }

  lemma FlushLetters(version: string, done: seq<Run>, parts: seq<Part>, letters: string, rest: string, t: Tables)
    requires letters != "" && Pure(letters, AlphaKind, t) && (rest != [] ==> KindOf(rest[0], t) != AlphaKind)
    requires PartsOf(done, t) == Some(parts) && Runs(version, t) == done + Runs(letters + rest, t)
    ensures Runs(version, t) == (done + [letters]) + Runs(rest, t)
    ensures PartsOf(done + [letters], t) == Some(parts + [Letters(letters)])
  {
    hide Runs, PartsOf, RunLength, Key;
    Flush(version, done, parts, letters, rest, AlphaKind, t);
  }

  /** Nothing is pending: what is left stands alone. */
  lemma NothingPending(rest: string)
    ensures "" + rest == rest
  {
  }

  /** The next character joins the pending run. */
  lemma JoinsRun(run: string, version: string, i: nat)
    requires i < |version|
    ensures run + version[i..] == (run + [version[i]]) + version[i + 1..]
  {
  }

  lemma SkipNext(version: string, i: nat, t: Tables)
    requires i < |version| && KindOf(version[i], t) == OtherKind
    ensures Runs(version[i..], t) == Runs(version[i + 1..], t)
  {
    SkipSeparator(version[i..], t);
    assert version[i..][1..] == version[i + 1..];
  }

  lemma ScanEnds(version: string, t: Tables)
    ensures version[|version|..] == "" && Runs("", t) == []
    ensures version[0..] == version
  {
  }

  /** The scan over a version, character by character, with its two pending runs. */
  method VersionKey(version: string, t: Tables) returns (key: Option<seq<Part>>)
    ensures key == Key(version, t)
  {
    hide RunLength, Runs, PartsOf, Pure, PartOf;
    var parts: seq<Part> := [];
    var digits, letters := "", "";
    ghost var done: seq<Run> := [];
    PartsOfNothing(t);
    ScanEnds(version, t);
    NothingPending(version);
    for i := 0 to |version|
      invariant Pure(digits, DigitKind, t) && Pure(letters, AlphaKind, t)
      invariant digits == "" || letters == ""
      invariant PartsOf(done, t) == Some(parts)
      invariant letters == "" ==> Runs(version, t) == done + Runs(digits + version[i..], t)
      invariant digits == "" ==> Runs(version, t) == done + Runs(letters + version[i..], t)
    {
      var character := version[i];
      assert version[i..][0] == character;
      NothingPending(version[i..]);
      if t.digit(character) {
        if letters != "" {
          FlushLetters(version, done, parts, letters, version[i..], t);
          done, parts, letters := done + [letters], parts + [Letters(letters)], "";
        }
        JoinsRun(digits, version, i);
        PureGrows(digits, character, DigitKind, t);
        digits := digits + [character];
      } else if t.alpha(character) {
        if digits != "" {
          FlushDigits(version, done, parts, digits, version[i..], t);
          var n := ReadInt(digits, t);
          if n.None? {
            return None;
          }
          done, parts, digits := done + [digits], parts + [Number(n.value)], "";
        }
        JoinsRun(letters, version, i);
        PureGrows(letters, character, AlphaKind, t);
        letters := letters + [character];
      } else {
        if digits != "" {
          FlushDigits(version, done, parts, digits, version[i..], t);
          var n := ReadInt(digits, t);
          if n.None? {
            return None;
          }
          done, parts, digits := done + [digits], parts + [Number(n.value)], "";
        }
        if letters != "" {
          FlushLetters(version, done, parts, letters, version[i..], t);
          done, parts, letters := done + [letters], parts + [Letters(letters)], "";
        }
        SkipNext(version, i, t);
        NothingPending(version[i + 1..]);
      }
    }
    if digits != "" {
      FlushDigits(version, done, parts, digits, "", t);
      var n := ReadInt(digits, t);
      if n.None? {
        return None;
      }
      done, parts, digits := done + [digits], parts + [Number(n.value)], "";
    }
    if letters != "" {
      FlushLetters(version, done, parts, letters, "", t);
      done, parts, letters := done + [letters], parts + [Letters(letters)], "";
    }
    NothingPending("");
    assert Runs(version, t) == done;
    return Some(parts);
  }

  lemma PureGrows(run: string, c: char, k: Kind, t: Tables)
    requires Pure(run, k, t) && KindOf(c, t) == k
    ensures Pure(run + [c], k, t)
  {
  }

  lemma PartsOfNothing(t: Tables)
    ensures PartsOf([], t) == Some([])
    ensures Pure("", DigitKind, t) && Pure("", AlphaKind, t)
  {
  }

  lemma SkipSeparator(s: string, t: Tables)
    requires s != [] && KindOf(s[0], t) == OtherKind
    ensures Runs(s, t) == Runs(s[1..], t)
  {
  }

  // ---- the order -----------------------------------------------------------------

  /** Words come before numbers; words compare as text, numbers as numbers. */
  predicate PartLe(p: Part, q: Part) {
    match (p, q)
    case (Letters(a), Letters(b)) => Text.Le(a, b)
    case (Number(m), Number(n)) => m <= n
    case _ => p.Letters?
  }

  /** Tuple order: the first difference decides, and a prefix comes first. */
  predicate KeyLe(a: seq<Part>, b: seq<Part>) {
    a == [] || (b != [] && if a[0] == b[0] then KeyLe(a[1..], b[1..]) else PartLe(a[0], b[0]))
  }

  lemma PartLeIsTotalOrder()
    ensures TotalOrder(PartLe)
  {
    Text.LeIsTotalOrder();
  }

  lemma {:induction false} KeyLeTotal(a: seq<Part>, b: seq<Part>)
    ensures KeyLe(a, b) || KeyLe(b, a)
    ensures KeyLe(a, b) && KeyLe(b, a) ==> a == b
  {
    PartLeIsTotalOrder();
    if a != [] && b != [] {
      assert PartLe(a[0], b[0]) || PartLe(b[0], a[0]);
      assert PartLe(a[0], b[0]) && PartLe(b[0], a[0]) ==> a[0] == b[0];
      KeyLeTotal(a[1..], b[1..]);
      assert a == [a[0]] + a[1..] && b == [b[0]] + b[1..];
    }
  }

  lemma {:induction false} KeyLeTransitive(a: seq<Part>, b: seq<Part>, c: seq<Part>)
    requires KeyLe(a, b) && KeyLe(b, c)
    ensures KeyLe(a, c)
  {
    PartLeIsTotalOrder();
    if a != [] {
      assert PartLe(a[0], b[0]) && PartLe(b[0], c[0]) ==> PartLe(a[0], c[0]);
      if a[0] == b[0] == c[0] {
        KeyLeTransitive(a[1..], b[1..], c[1..]);
      }
    }
  }

  lemma KeyLeIsTotalOrder()
    ensures TotalOrder(KeyLe)
  {
    forall a: seq<Part>, b: seq<Part>
      ensures (KeyLe(a, b) || KeyLe(b, a)) && (KeyLe(a, b) && KeyLe(b, a) ==> a == b)
    {
      KeyLeTotal(a, b);
    }
    forall a: seq<Part>, b: seq<Part>, c: seq<Part> | KeyLe(a, b) && KeyLe(b, c) ensures KeyLe(a, c) {
      KeyLeTransitive(a, b, c);
    }
  }

  /** A key element as Python holds it: a tag, then a string or an integer. */
  datatype Payload = Word(s: string) | Int(n: nat)

  function Raw(p: Part): (int, Payload) {
    match p case Letters(s) => (0, Word(s)) case Number(n) => (1, Int(n))
  }

  /** `<` on two such tuples; nothing stands for the TypeError of ordering a string against an integer. */
  function RawLess(a: seq<Part>, b: seq<Part>): Option<bool> {
    if b == [] then Some(false)
    else if a == [] then Some(true)
    else
      var (x, y) := (Raw(a[0]), Raw(b[0]));
      if x == y then RawLess(a[1..], b[1..])
      else if x.0 != y.0 then Some(x.0 < y.0)
      else match (x.1, y.1)
        case (Word(s), Word(t)) => Some(Text.Lt(s, t))
        case (Int(m), Int(n)) => Some(m < n)
        case _ => None
  }

  /** Comparing keys never raises, and `<` is the strict part of the order above. */
  lemma {:induction false} ComparisonNeverRaises(a: seq<Part>, b: seq<Part>)
    ensures RawLess(a, b) == Some(a != b && KeyLe(a, b))
  {
    if a != [] && b != [] {
      ComparisonNeverRaises(a[1..], b[1..]);
      assert a == [a[0]] + a[1..] && b == [b[0]] + b[1..];
    }
  }

  // ---- numbered versions ------------------------------------------------------------

  /** The tables read the ASCII digits as digits with their usual values. */
  ghost predicate ReadsAscii(t: Tables) {
    forall c | D.IsDigit(c) :: t.digit(c) && t.decimal(c) == Some(D.ValueOf(c))
  }

  lemma {:induction false} ReadIntShow(s: string, t: Tables)
    requires ReadsAscii(t) && D.AllDigits(s)
    ensures ReadInt(s, t) == Some(D.Read(s))
  {
    if s != [] {
      ReadIntShow(s[..|s| - 1], t);
    }
  }

  predicate EndsOpen(stem: string, t: Tables) {
    stem == "" || KindOf(stem[|stem| - 1], t) != DigitKind
  }

  lemma {:induction false} RunsAppend(stem: string, d: Run, t: Tables)
    requires EndsOpen(stem, t) && Pure(d, DigitKind, t)
    ensures Runs(stem + d, t) == Runs(stem, t) + [d]
    decreases |stem|
  {
    if stem == "" {
      FirstRun(d, "", DigitKind, t);
      ScanEnds("", t);
      assert stem + d == d + "";
    } else {
      var k := KindOf(stem[0], t);
      var n := if k == OtherKind then 1 else RunLength(stem, k, t);
      var run, rest := stem[..n], stem[n..];
      assert stem == run + rest && stem + d == run + (rest + d);
      if rest != "" {
        assert rest[|rest| - 1] == stem[|stem| - 1];
      }
      RunsAppend(rest, d, t);
      if k == OtherKind {
        SkipSeparator(stem, t);
        assert (stem + d)[1..] == rest + d;
        SkipSeparator(stem + d, t);
      } else {
        FirstRun(run, rest, k, t);
        if rest == "" {
          assert run[n - 1] == stem[|stem| - 1];
        } else {
          assert (rest + d)[0] == stem[n];
        }
        FirstRun(run, rest + d, k, t);
      }
    }
  }

  /** Numbering a stem appends one number to its key. */
  lemma KeyOfNumbered(stem: string, m: nat, t: Tables)
    requires ReadsAscii(t) && EndsOpen(stem, t) && Key(stem, t).Some?
    ensures Key(stem + D.Show(m), t) == Some(Key(stem, t).value + [Number(m)])
  {
    var d := D.Show(m);
    D.ReadShow(m);
    ReadIntShow(d, t);
    forall i | 0 <= i < |d| ensures KindOf(d[i], t) == DigitKind {
      assert D.IsDigit(d[i]);
    }
    RunsAppend(stem, d, t);
    PartsSplit(Runs(stem, t), [d], t);
    assert [d][1..] == [] && [Number(m)] + [] == [Number(m)];
  }

  /** Versions numbered on one stem are ordered by their numbers: `a9` before `a64`. */
  lemma NumberedVersionsInOrder(stem: string, m: nat, n: nat, t: Tables)
    requires ReadsAscii(t) && EndsOpen(stem, t) && Key(stem, t).Some?
    ensures Key(stem + D.Show(m), t).Some? && Key(stem + D.Show(n), t).Some?
    ensures RawLess(Key(stem + D.Show(m), t).value, Key(stem + D.Show(n), t).value) == Some(m < n)
  {
    KeyOfNumbered(stem, m, t);
    KeyOfNumbered(stem, n, t);
    LastDecides(Key(stem, t).value, m, n);
  }

  lemma {:induction false} LastDecides(k: seq<Part>, m: nat, n: nat)
    ensures RawLess(k + [Number(m)], k + [Number(n)]) == Some(m < n)
  {
    if k != [] {
      assert (k + [Number(m)])[1..] == k[1..] + [Number(m)];
      assert (k + [Number(n)])[1..] == k[1..] + [Number(n)];
      LastDecides(k[1..], m, n);
    } else {
      assert (k + [Number(m)])[1..] == [] == (k + [Number(n)])[1..];
    }
  }

  // ---- the survey of one distribution ---------------------------------------------------

  datatype State = Published | DeclaredUnpublished | NeverPublished

  datatype Finding = Finding(state: State, published: seq<string>)

  /** `v` is not later than `w`. */
  predicate VersionLe(v: string, w: string, t: Tables) {
    Key(v, t).Some? && Key(w, t).Some? && KeyLe(Key(v, t).value, Key(w, t).value)
  }

  /** A published version decorated with its sort key. */
  datatype Keyed = Keyed(key: seq<Part>, version: string)

  predicate KeyedLe(a: Keyed, b: Keyed) {
    KeyLe(a.key, b.key)
  }

  /** The latest tag a report shows for a finding. */
  function Latest(f: Finding): Option<string> {
    if f.published == [] then None else Some(f.published[|f.published| - 1])
  }

  /** Every tag of the prefix, keyed once; nothing when some version has no key. */
  method Collect(prefix: string, tags: set<string>, t: Tables) returns (r: Option<seq<Keyed>>)
    ensures r.None? <==> exists tag | tag in tags :: prefix <= tag && Key(tag[|prefix|..], t).None?
    ensures r.Some? ==> Collected(r.value, prefix, tags, t)
  {
    hide Key, KeyLe;
    var remaining := tags;
    var keyed: seq<Keyed> := [];
    while remaining != {}
      invariant remaining <= tags
      invariant Collected(keyed, prefix, tags - remaining, t)
      invariant forall tag | tag in tags - remaining && prefix <= tag :: Key(tag[|prefix|..], t).Some?
    {
      var tag :| tag in remaining;
      ghost var seen := tags - remaining;
      remaining := remaining - {tag};
      assert tags - remaining == seen + {tag};
      if prefix <= tag {
        var version := tag[|prefix|..];
        assert prefix + version == tag;
        var key := VersionKey(version, t);
        if key.None? {
          return None;
        }
        CollectOne(keyed, prefix, seen, tag, key.value, t);
        keyed := keyed + [Keyed(key.value, version)];
      } else {
        forall v | prefix + v in tags - remaining ensures prefix + v in seen {
          assert prefix <= prefix + v;
        }
      }
    }
    assert tags - remaining == tags;
    return Some(keyed);
  }

  /** `keyed` lists the versions of the tags that carry the prefix, each once, with their keys. */
  ghost predicate Collected(keyed: seq<Keyed>, prefix: string, tags: set<string>, t: Tables) {
    && NoDuplicates(keyed)
    && (forall k | k in keyed :: prefix + k.version in tags && Key(k.version, t) == Some(k.key))
    && (forall v | prefix + v in tags :: Key(v, t).Some? && Keyed(Key(v, t).value, v) in keyed)
  }

  lemma CollectOne(keyed: seq<Keyed>, prefix: string, seen: set<string>, tag: string, key: seq<Part>, t: Tables)
    requires Collected(keyed, prefix, seen, t) && tag !in seen
    requires prefix <= tag && Key(tag[|prefix|..], t) == Some(key)
    ensures Collected(keyed + [Keyed(key, tag[|prefix|..])], prefix, seen + {tag}, t)
  {
    hide Key;
    var last := Keyed(key, tag[|prefix|..]);
    assert prefix + last.version == tag;
    forall v | prefix + v in seen + {tag} ensures Key(v, t).Some? && Keyed(Key(v, t).value, v) in keyed + [last] {
      assert (prefix + v)[|prefix|..] == v;
    }
  }

  /**
   * One distribution's declared version against the tags, or nothing when a tag's version has no
   * key. The tags are a set: nothing is said of the order of versions whose keys are equal.
   */
  method Survey(declared: string, prefix: string, tags: set<string>, t: Tables) returns (r: Option<Finding>)
    ensures r.None? <==> exists tag | tag in tags :: prefix <= tag && Key(tag[|prefix|..], t).None?
    ensures r.Some? ==>
      var f := r.value;
      && (forall v :: v in f.published <==> prefix + v in tags)
      && NoDuplicates(f.published)
      && (f.state == Published <==> prefix + declared in tags)
      && (f.state == NeverPublished <==> f.published == [])
      && (forall i, j | 0 <= i <= j < |f.published| :: VersionLe(f.published[i], f.published[j], t))
      && (forall v | prefix + v in tags :: Latest(f).Some? && VersionLe(v, Latest(f).value, t))
  {
    hide Key, KeyLe;
    var keyed := Collect(prefix, tags, t);
    if keyed.None? {
      return None;
    }
    var sorted := Sort(keyed.value, KeyedLe);
    var published := Versions(sorted);
    InVersionOrder(keyed.value, prefix, tags, t);
    var state := if prefix + declared in tags then Published
                 else if published != [] then DeclaredUnpublished else NeverPublished;
    r := Some(Finding(state, published));
    assert declared in published <==> prefix + declared in tags;
    forall v | prefix + v in tags ensures Latest(r.value).Some? && VersionLe(v, Latest(r.value).value, t) {
      assert v in published;
      var i :| 0 <= i < |published| && published[i] == v;
      assert VersionLe(published[i], published[|published| - 1], t);
    }
  }

  function Versions(keyed: seq<Keyed>): seq<string> {
    seq(|keyed|, i requires 0 <= i < |keyed| => keyed[i].version)
  }

  lemma SortKeyed(keyed: seq<Keyed>)
    requires NoDuplicates(keyed)
    ensures
      var sorted := Sort(keyed, KeyedLe);
      Sorted(sorted, KeyedLe) && NoDuplicates(sorted) && forall k :: k in sorted <==> k in keyed
  {
    hide KeyLe;
    KeyLeIsTotalOrder();
    SortSorts(keyed, KeyedLe);
    MembersAgree(keyed, Sort(keyed, KeyedLe));
    PermutationKeepsDistinct(keyed, Sort(keyed, KeyedLe));
  }

  /** Sorted by key, the collected versions are the published ones in version order. */
  lemma InVersionOrder(keyed: seq<Keyed>, prefix: string, tags: set<string>, t: Tables)
    requires Collected(keyed, prefix, tags, t)
    ensures
      var published := Versions(Sort(keyed, KeyedLe));
      && (forall v :: v in published <==> prefix + v in tags)
      && NoDuplicates(published)
      && (forall i, j | 0 <= i <= j < |published| :: VersionLe(published[i], published[j], t))
  {
    hide Key, KeyLe, Sort;
    var sorted := Sort(keyed, KeyedLe);
    SortKeyed(keyed);
    var published := Versions(sorted);
    forall v ensures v in published <==> prefix + v in tags {
      if prefix + v in tags {
        var i :| 0 <= i < |sorted| && sorted[i] == Keyed(Key(v, t).value, v);
        assert published[i] == v;
      }
      if v in published {
        var i :| 0 <= i < |published| && published[i] == v;
        assert sorted[i] in keyed;
      }
    }
    forall i, j | 0 <= i <= j < |published| ensures VersionLe(published[i], published[j], t) {
      assert sorted[i] in keyed && sorted[j] in keyed;
      if i == j {
        SelfLe(sorted[i].key);
      } else {
        assert KeyedLe(sorted[i], sorted[j]);
      }
    }
    forall i, j | 0 <= i < j < |published| ensures published[i] != published[j] {
      assert sorted[i] in keyed && sorted[j] in keyed;
    }
  }

  lemma SelfLe(k: seq<Part>)
    ensures KeyLe(k, k)
  {
    KeyLeTotal(k, k);
  }
}
