/** What a sound disposition log says, field by field of the documents it is made of. */
module DispositionMeaning {
  import opened Wrappers
  import opened Decimals
  import opened CanonicalJson
  import opened DispositionLog
  import Text

  // ---- fields and values -----------------------------------------------------------------------------

  /** The first member under `key` holds `v`. */
  predicate Holds(entry: Entry, key: string, v: Json) {
    exists i :: 0 <= i < |entry| && entry[i] == Member(key, v) && forall j | 0 <= j < i :: entry[j].key != key
  }

  lemma {:induction false} GetExactly(entry: Entry, key: string, v: Json)
    ensures Get(entry, key) == Some(v) <==> Holds(entry, key, v)
    ensures Get(entry, key) == None <==> forall m | m in entry :: m.key != key
  {
    if entry != [] {
      var rest := entry[1..];
      assert entry == [entry[0]] + rest;
      GetExactly(rest, key, v);
      HoldsNext(entry[0], rest, key, v);
      hide Holds;
    }
  }

  /** One more member in front decides if it has the key, and changes nothing if it has not. */
  lemma HoldsNext(first: Member, rest: Entry, key: string, v: Json)
    ensures Holds([first] + rest, key, v) <==> if first.key == key then first.value == v else Holds(rest, key, v)
  {
    var entry := [first] + rest;
    assert entry[0] == first && forall j | 0 < j < |entry| :: entry[j] == rest[j - 1];
    if first.key == key && first.value == v {
      assert entry[0] == Member(key, v);
    } else if first.key != key && Holds(rest, key, v) {
      var i :| 0 <= i < |rest| && rest[i] == Member(key, v) && forall j | 0 <= j < i :: rest[j].key != key;
      assert entry[i + 1] == rest[i];
    }
    if Holds(entry, key, v) {
      var i :| 0 <= i < |entry| && entry[i] == Member(key, v) && forall j | 0 <= j < i :: entry[j].key != key;
      if i > 0 {
        assert entry[0].key != key && rest[i - 1] == entry[i];
        forall j | 0 <= j < i - 1 ensures rest[j].key != key {
          assert rest[j] == entry[j + 1];
        }
      }
    }
  }

  /** Python's truth of a value. */
  lemma TruthyExactly(v: Json)
    ensures !Truthy(v) <==> v in {Null, Bool(false), Num(0), Str(""), Arr([]), Obj([])}
  {
  }

  /** The text of a value where the checks look at one. */
  lemma TextExactly(v: Json)
    ensures v.Str? ==> TextOf(v) == v.s
    ensures v == Null ==> TextOf(v) == "None"
    ensures v.Bool? ==> TextOf(v) == if v.b then "True" else "False"
    ensures v.Num? && v.n >= 0 ==> AllDigits(TextOf(v)) && Read(TextOf(v)) == v.n && TextOf(v) != ""
    ensures v.Num? && v.n > 0 ==> TextOf(v)[0] != '0'
    ensures v.Num? && v.n < 0 ==> TextOf(v) == "-" + TextOf(Num(0 - v.n))
  {
    if v.Num? && v.n >= 0 {
      ReadShow(v.n);
    }
  }

  /** Equality as Python sees it: scalars by value, a boolean as a number; lists in order, objects by key. */
  ghost predicate Alike(v: Json, w: Json)
    decreases v
  {
    match (v, w)
    case (Arr(xs), Arr(ys)) => |xs| == |ys| && forall i | 0 <= i < |xs| :: Alike(xs[i], ys[i])
    case (Obj(ms), Obj(ns)) =>
      && (forall m | m in ms :: exists n :: n in ns && AlikeMember(m, n))
      && (forall n | n in ns :: exists m :: m in ms && AlikeMember(m, n))
    case (Bool(b), Num(n)) => n == if b then 1 else 0
    case (Num(n), Bool(b)) => n == if b then 1 else 0
    case _ => v == w
  }

  ghost predicate AlikeMember(m: Member, n: Member)
    decreases m
  {
    m.key == n.key && Alike(m.value, n.value)
  }

  lemma {:induction false} NumbersKeepDicts(v: Json)
    requires Dicts(v)
    ensures Dicts(AsNumbers(v))
    decreases v
  {
    match v
    case Arr(items) =>
      forall i | 0 <= i < |items| ensures Dicts(AsNumbers(v).items[i]) {
        NumbersKeepDicts(items[i]);
      }
    case Obj(members) =>
      forall i | 0 <= i < |members| ensures Dicts(AsNumbers(v).members[i].value) {
        assert members[i].value < members[i];
        assert members[i].value < v;
        NumbersKeepDicts(members[i].value);
      }
    case _ =>
  }

  function NumberMember(m: Member): Member {
    Member(m.key, AsNumbers(m.value))
  }

  lemma NumberedMembers(v: Json, m: Member)
    requires v.Obj?
    ensures m in AsNumbers(v).members <==> exists k :: k in v.members && NumberMember(k) == m
  {
    var (given, now) := (v.members, AsNumbers(v).members);
    forall i | 0 <= i < |given| ensures now[i] == NumberMember(given[i]) {}
    if m in now {
      var i :| 0 <= i < |now| && now[i] == m;
      assert given[i] in given;
    }
    if k :| k in given && NumberMember(k) == m {
      var i :| 0 <= i < |given| && given[i] == k;
      assert now[i] == m;
    }
  }

  lemma {:induction false} NumbersAgree(v: Json, w: Json)
    ensures SameDocument(AsNumbers(v), AsNumbers(w)) <==> Alike(v, w)
    decreases v
  {
    match (v, w)
    case (Arr(xs), Arr(ys)) =>
      if |xs| == |ys| {
        forall i | 0 <= i < |xs| ensures SameDocument(AsNumbers(xs[i]), AsNumbers(ys[i])) <==> Alike(xs[i], ys[i]) {
          NumbersAgree(xs[i], ys[i]);
        }
        assert forall i | 0 <= i < |xs| :: AsNumbers(v).items[i] == AsNumbers(xs[i]);
        assert forall i | 0 <= i < |xs| :: AsNumbers(w).items[i] == AsNumbers(ys[i]);
      }
    case (Obj(ms), Obj(ns)) =>
      forall m, n | m in ms && n in ns
        ensures SameMember(NumberMember(m), NumberMember(n)) <==> AlikeMember(m, n)
      {
        assert m.value < m;
        assert m.value < v;
        NumbersAgree(m.value, n.value);
      }
      ObjectsAgree(v, w);
    case _ =>
  }

  ghost predicate Images(ms: seq<Member>, xs: seq<Member>) {
    && (forall m | m in ms :: NumberMember(m) in xs)
    && forall x | x in xs :: exists m :: m in ms && NumberMember(m) == x
  }

  ghost predicate Corresponds(ms: seq<Member>, ns: seq<Member>) {
    forall m, n | m in ms && n in ns :: SameMember(NumberMember(m), NumberMember(n)) <==> AlikeMember(m, n)
  }

  lemma LeftCovered(ms: seq<Member>, ns: seq<Member>, xs: seq<Member>, ys: seq<Member>)
    requires Images(ms, xs) && Images(ns, ys) && Corresponds(ms, ns)
    ensures (forall x | x in xs :: exists y :: y in ys && SameMember(x, y))
      <==> forall m | m in ms :: exists n :: n in ns && AlikeMember(m, n)
  {
    hide SameMember, AlikeMember, NumberMember;
    if forall x | x in xs :: exists y :: y in ys && SameMember(x, y) {
      forall m | m in ms ensures exists n :: n in ns && AlikeMember(m, n) {
        var y :| y in ys && SameMember(NumberMember(m), y);
        var n :| n in ns && NumberMember(n) == y;
        assert AlikeMember(m, n);
      }
    }
    if forall m | m in ms :: exists n :: n in ns && AlikeMember(m, n) {
      forall x | x in xs ensures exists y :: y in ys && SameMember(x, y) {
        var m :| m in ms && NumberMember(m) == x;
        var n :| n in ns && AlikeMember(m, n);
        assert SameMember(x, NumberMember(n));
      }
    }
  }

  lemma RightCovered(ms: seq<Member>, ns: seq<Member>, xs: seq<Member>, ys: seq<Member>)
    requires Images(ms, xs) && Images(ns, ys) && Corresponds(ms, ns)
    ensures (forall y | y in ys :: exists x :: x in xs && SameMember(x, y))
      <==> forall n | n in ns :: exists m :: m in ms && AlikeMember(m, n)
  {
    hide SameMember, AlikeMember, NumberMember;
    if forall y | y in ys :: exists x :: x in xs && SameMember(x, y) {
      forall n | n in ns ensures exists m :: m in ms && AlikeMember(m, n) {
        var x :| x in xs && SameMember(x, NumberMember(n));
        var m :| m in ms && NumberMember(m) == x;
        assert AlikeMember(m, n);
      }
    }
    if forall n | n in ns :: exists m :: m in ms && AlikeMember(m, n) {
      forall y | y in ys ensures exists x :: x in xs && SameMember(x, y) {
        var n :| n in ns && NumberMember(n) == y;
        var m :| m in ms && AlikeMember(m, n);
        assert SameMember(NumberMember(m), y);
      }
    }
  }

  lemma MembersImaged(v: Json)
    requires v.Obj?
    ensures Images(v.members, AsNumbers(v).members)
  {
    forall x ensures x in AsNumbers(v).members <==> exists k :: k in v.members && NumberMember(k) == x {
      NumberedMembers(v, x);
    }
    hide AsNumbers, NumberMember;
  }

  lemma SameObjects(xs: seq<Member>, ys: seq<Member>)
    ensures SameDocument(Obj(xs), Obj(ys)) <==>
      && (forall x | x in xs :: exists y :: y in ys && SameMember(x, y))
      && forall y | y in ys :: exists x :: x in xs && SameMember(x, y)
  {
    hide SameMember;
  }

  lemma AlikeObjects(ms: seq<Member>, ns: seq<Member>)
    ensures Alike(Obj(ms), Obj(ns)) <==>
      && (forall m | m in ms :: exists n :: n in ns && AlikeMember(m, n))
      && forall n | n in ns :: exists m :: m in ms && AlikeMember(m, n)
  {
    hide AlikeMember;
  }

  lemma ObjectsAgree(v: Json, w: Json)
    requires v.Obj? && w.Obj? && Corresponds(v.members, w.members)
    ensures SameDocument(AsNumbers(v), AsNumbers(w)) <==> Alike(v, w)
  {
    var (xs, ys) := (AsNumbers(v).members, AsNumbers(w).members);
    MembersImaged(v);
    MembersImaged(w);
    SameObjects(xs, ys);
    AlikeObjects(v.members, w.members);
    assert AsNumbers(v) == Obj(xs) && AsNumbers(w) == Obj(ys);
    hide Images, Corresponds, SameMember, AlikeMember, AsNumbers, SameDocument, Alike;
    LeftCovered(v.members, w.members, xs, ys);
    RightCovered(v.members, w.members, xs, ys);
  }

  /** The comparison of the check is that equality. */
  lemma EqualExactly(v: Json, w: Json)
    requires Dicts(v) && Dicts(w)
    ensures PyEqual(v, w) <==> Alike(v, w)
  {
    NumbersKeepDicts(v);
    NumbersKeepDicts(w);
    NormalDecides(AsNumbers(v), AsNumbers(w));
    NumbersAgree(v, w);
  }

  /** A text equals only itself. */
  lemma TextEqualsItself(v: Json, s: string)
    ensures PyEqual(v, Str(s)) <==> v == Str(s)
    ensures PyEqual(Str(s), v) <==> v == Str(s)
  {
  }

  // ---- texts -------------------------------------------------------------------------------------------

  /** `n` lower-case hexadecimal digits, and perhaps a final newline. */
  predicate HexText(s: string, n: nat) {
    && (|s| == n || (|s| == n + 1 && s[n] == '\n'))
    && forall i | 0 <= i < n :: s[i] in "0123456789abcdef"
  }

  lemma HexExactly(s: string, n: nat)
    ensures MatchesHex(s, n) <==> HexText(s, n)
  {
    if |s| == n || |s| == n + 1 {
      Text.HexDigitsMean(s[..n], n);
      assert |s| == n ==> s[..n] == s;
      assert forall i | 0 <= i < n :: s[..n][i] == s[i];
    }
    hide Text.HexDigits;
  }

  predicate DigestText(s: string) {
    |s| >= 7 && s[..7] == "sha256:" && HexText(s[7..], 64)
  }

  lemma DigestExactly(s: string)
    ensures MatchesDigest(s) <==> DigestText(s)
  {
    if |s| >= 7 {
      HexExactly(s[7..], 64);
    }
    hide MatchesHex, HexText;
  }

  /** White space as Python's `str.strip` takes it. */
  const SPACES: set<int> := {
    9, 10, 11, 12, 13, 28, 29, 30, 31, 32, 0x85, 0xa0, 0x1680, 0x2000, 0x2001, 0x2002, 0x2003, 0x2004, 0x2005, 0x2006,
    0x2007, 0x2008, 0x2009, 0x200a, 0x2028, 0x2029, 0x202f, 0x205f, 0x3000}

  lemma BlankExactly(s: string)
    ensures Blank(s) <==> forall i | 0 <= i < |s| :: s[i] as int in SPACES
  {
    forall c: char ensures IsSpaceChar(c) <==> c as int in SPACES {}
    hide IsSpaceChar, SPACES;
  }

  // ---- a sound entry -------------------------------------------------------------------------------------

  predicate Has(entry: Entry, key: string) {
    exists m :: m in entry && m.key == key
  }

  predicate Complete(e: Entry) {
    && Has(e, "artifact") && Has(e, "disposition") && Has(e, "facility") && Has(e, "previous_digest")
    && Has(e, "publishable") && Has(e, "reason") && Has(e, "receipt_bytes_sha256") && Has(e, "receipt_digest")
    && Has(e, "receipt_path") && Has(e, "recorded_at") && Has(e, "schema") && Has(e, "sequence") && Has(e, "version")
  }

  /** The facts an entry at position `index` states about itself. */
  ghost predicate FactsSaid(e: Entry, index: nat) {
    && Holds(e, "schema", Str("CandidateDisposition.v1"))
    && (Holds(e, "sequence", Num(index + 1)) || (index == 0 && Holds(e, "sequence", Bool(true))))
    && (Invalidated(e) || Holds(e, "disposition", Str("superseded")) || Holds(e, "disposition", Str("published")))
    && (Invalidated(e) ==> NotPublishable(e) && NamesCommit(e))
    && GivesReason(e)
  }

  predicate Invalidated(e: Entry) {
    Holds(e, "disposition", Str("invalidated"))
  }

  ghost predicate NotPublishable(e: Entry) {
    exists v :: v in {Null, Bool(false), Num(0), Str(""), Arr([]), Obj([])} && Holds(e, "publishable", v)
  }

  ghost predicate NamesCommit(e: Entry) {
    exists v :: Holds(e, "invalidating_commit", v) && HexText(TextOf(v), 40)
  }

  ghost predicate GivesReason(e: Entry) {
    exists v :: Holds(e, "reason", v) && exists i :: 0 <= i < |TextOf(v)| && TextOf(v)[i] as int !in SPACES
  }

  /** The same value under `key`; `None` stands for an absent one on the receipt's side. */
  ghost predicate Agrees(v: Json, receipt: Entry, key: string) {
    (exists w :: Holds(receipt, key, w) && PyEqual(v, w)) || (!Has(receipt, key) && v == Null)
  }

  ghost predicate SameCoordinate(e: Entry, receipt: Entry, key: string) {
    exists artifact, v :: Holds(e, "artifact", Obj(artifact)) && Holds(artifact, key, v) && Agrees(v, receipt, key)
  }

  ghost predicate SameCoordinates(e: Entry, receipt: Entry) {
    && SameCoordinate(e, receipt, "artifact_id") && SameCoordinate(e, receipt, "filename")
    && SameCoordinate(e, receipt, "repository") && SameCoordinate(e, receipt, "run_id")
    && SameCoordinate(e, receipt, "sha256") && SameCoordinate(e, receipt, "size_bytes")
    && SameCoordinate(e, receipt, "source_sha")
  }

  ghost predicate SameField(e: Entry, receipt: Entry, key: string) {
    exists v :: Holds(e, key, v) && Agrees(v, receipt, key)
  }

  /** The file the entry names, its parsed object and its two digests. */
  ghost predicate ReceiptSaid(e: Entry, file: File, receipt: Entry, h: HexDigest) {
    && file.fromBytes.Some? && file.fromText == Some(Obj(receipt))
    && Holds(receipt, "schema", Str("CandidateArtifact.v1"))
    && Holds(e, "receipt_digest", Str("sha256:" + h(Encode(file.fromBytes.value, false))))
    && Holds(e, "receipt_bytes_sha256", Str("sha256:" + h(file.raw)))
    && SameCoordinates(e, receipt)
    && SameField(e, receipt, "version") && SameField(e, receipt, "facility")
  }

  /** The file under the path the entry names. */
  ghost predicate IsReceiptOf(file: File, e: Entry, repo: Repo) {
    exists v :: Holds(e, "receipt_path", v) && TextOf(v) in repo && repo[TextOf(v)] == file
  }

  /** The link: to the receipt's content for the first entry, to the entry before for every other. */
  ghost predicate LinkSaid(found: seq<Entry>, i: nat, file: File, h: HexDigest)
    requires i < |found|
  {
    exists v :: Holds(found[i], "previous_digest", v) && DigestText(TextOf(v))
      && if i == 0 then file.fromBytes.Some? && TextOf(v) == "sha256:" + h(Encode(file.fromBytes.value, false))
         else TextOf(v) == "sha256:" + h(Encode(Obj(found[i - 1]), false))
  }

  lemma GetsHold(e: Entry)
    ensures forall key, v :: Get(e, key) == Some(v) <==> Holds(e, key, v)
    ensures forall key :: Get(e, key).Some? <==> Has(e, key)
  {
    forall key, v ensures Get(e, key) == Some(v) <==> Holds(e, key, v) {
      GetExactly(e, key, v);
    }
    forall key ensures Get(e, key).Some? <==> Has(e, key) {
      GetExactly(e, key, Null);
    }
  }

  lemma CompleteExactly(e: Entry)
    ensures HasRequired(e) <==> Complete(e)
  {
    GetsHold(e);
    hide Get, Has, Holds;
  }

  lemma FieldHolds(e: Entry, key: string)
    requires HasRequired(e) && key in REQUIRED_FIELDS
    ensures forall v :: Holds(e, key, v) <==> Field(e, key) == v
  {
    GetsHold(e);
    assert Get(e, key).Some?;
    hide Get, Holds, HasRequired;
  }

  lemma FactsExactly(e: Entry, index: nat)
    requires HasRequired(e)
    ensures FactsOk(e, index) <==> FactsSaid(e, index)
  {
    ReasonExactly(e);
    CommitExactly(e);
    PublishableExactly(e);
    SequenceExactly(e, index);
    FieldHolds(e, "schema");
    FieldHolds(e, "disposition");
    hide Field, HasRequired, Holds, Truthy, Blank, MatchesHex, NotPublishable, NamesCommit, GivesReason, TextOf, GetOr,
      AsNumbers;
  }

  lemma ReasonExactly(e: Entry)
    requires HasRequired(e)
    ensures !Blank(TextOf(Field(e, "reason"))) <==> GivesReason(e)
  {
    GetsHold(e);
    BlankExactly(TextOf(Field(e, "reason")));
    hide Get, Holds, Blank, SPACES, TextOf;
  }

  lemma CommitExactly(e: Entry)
    ensures MatchesHex(TextOf(GetOr(e, "invalidating_commit", Str(""))), 40) <==> NamesCommit(e)
  {
    GetsHold(e);
    HexExactly(TextOf(GetOr(e, "invalidating_commit", Str(""))), 40);
    assert !HexText("", 40);
    hide Get, Holds, MatchesHex, HexText;
  }

  lemma PublishableExactly(e: Entry)
    requires HasRequired(e)
    ensures !Truthy(Field(e, "publishable")) <==> NotPublishable(e)
  {
    GetsHold(e);
    TruthyExactly(Field(e, "publishable"));
    hide Get, Holds, Truthy;
  }

  lemma SequenceExactly(e: Entry, index: nat)
    requires HasRequired(e)
    ensures AsNumbers(Field(e, "sequence")) == Num(index + 1) <==>
      Holds(e, "sequence", Num(index + 1)) || (index == 0 && Holds(e, "sequence", Bool(true)))
  {
    GetsHold(e);
    hide Get, Holds;
  }

  lemma AgreesExactly(v: Json, receipt: Entry, key: string)
    ensures PyEqual(v, GetOr(receipt, key, Null)) <==> Agrees(v, receipt, key)
  {
    GetsHold(receipt);
    assert PyEqual(v, Null) <==> v == Null;
    hide Get, Holds, PyEqual;
  }

  lemma CoordinateExactly(e: Entry, receipt: Entry, key: string)
    requires HasRequired(e) && Field(e, "artifact").Obj?
    ensures SameCoordinate(e, receipt, key) <==>
      && Get(Field(e, "artifact").members, key).Some?
      && PyEqual(Get(Field(e, "artifact").members, key).value, GetOr(receipt, key, Null))
  {
    var artifact := Field(e, "artifact").members;
    FieldHolds(e, "artifact");
    GetsHold(artifact);
    assert Holds(e, "artifact", Obj(artifact));
    hide Field, HasRequired, Get, Holds, PyEqual, Agrees, GetOr;
    if SameCoordinate(e, receipt, key) {
      var found, v :| Holds(e, "artifact", Obj(found)) && Holds(found, key, v) && Agrees(v, receipt, key);
      assert found == artifact;
      AgreesExactly(v, receipt, key);
    }
    if Get(artifact, key).Some? {
      AgreesExactly(Get(artifact, key).value, receipt, key);
    }
  }

  lemma FieldExactly(e: Entry, receipt: Entry, key: string)
    requires HasRequired(e) && key in REQUIRED_FIELDS
    ensures SameField(e, receipt, key) <==> PyEqual(Field(e, key), GetOr(receipt, key, Null))
  {
    GetsHold(e);
    forall v ensures PyEqual(v, GetOr(receipt, key, Null)) <==> Agrees(v, receipt, key) {
      AgreesExactly(v, receipt, key);
    }
    hide Get, Holds, PyEqual, Agrees, GetOr;
  }

  predicate Matches(e: Entry, receipt: Entry, key: string)
    requires HasRequired(e) && Field(e, "artifact").Obj?
  {
    && Get(Field(e, "artifact").members, key).Some?
    && PyEqual(Get(Field(e, "artifact").members, key).value, GetOr(receipt, key, Null))
  }

  lemma CoordinatesExactly(e: Entry, receipt: Entry)
    requires HasRequired(e) && Field(e, "artifact").Obj?
    ensures (forall key | key in ARTIFACT_COORDINATES :: Matches(e, receipt, key)) <==> SameCoordinates(e, receipt)
  {
    CoordinateKeys();
    hide SameCoordinate, Matches, Field, HasRequired, Holds, ARTIFACT_COORDINATES;
    forall key ensures SameCoordinate(e, receipt, key) <==> Matches(e, receipt, key) {
      CoordinateMatches(e, receipt, key);
    }
  }

  lemma CoordinateMatches(e: Entry, receipt: Entry, key: string)
    requires HasRequired(e) && Field(e, "artifact").Obj?
    ensures SameCoordinate(e, receipt, key) <==> Matches(e, receipt, key)
  {
    CoordinateExactly(e, receipt, key);
    hide SameCoordinate, Field, HasRequired, Get, GetOr, PyEqual;
  }

  lemma CoordinateKeys()
    ensures forall key :: key in ARTIFACT_COORDINATES <==>
      key in {"artifact_id", "filename", "repository", "run_id", "sha256", "size_bytes", "source_sha"}
  {
  }

  lemma NoCoordinate(e: Entry, receipt: Entry)
    requires HasRequired(e) && SameCoordinates(e, receipt)
    ensures Field(e, "artifact").Obj?
  {
    FieldHolds(e, "artifact");
    hide Field, Holds, Agrees, HasRequired;
  }

  lemma ContentExactly(e: Entry, file: File, receipt: Entry, h: HexDigest)
    requires HasRequired(e) && file.fromBytes.Some? && file.fromText == Some(Obj(receipt))
    ensures ContentOk(e, file, receipt, h) <==> ReceiptSaid(e, file, receipt, h)
  {
    FieldExactly(e, receipt, "version");
    FieldExactly(e, receipt, "facility");
    FieldHolds(e, "receipt_digest");
    FieldHolds(e, "receipt_bytes_sha256");
    SchemaExactly(receipt);
    if Field(e, "artifact").Obj? {
      CoordinatesExactly(e, receipt);
    }
    if SameCoordinates(e, receipt) {
      NoCoordinate(e, receipt);
    }
    hide Field, HasRequired, Holds, PyEqual, SameField, SameCoordinates, Encode, ARTIFACT_COORDINATES, GetOr, Get;
    assert Field(e, "artifact").Obj? ==> ((forall key | key in ARTIFACT_COORDINATES :: Matches(e, receipt, key)) <==>
      forall key | key in ARTIFACT_COORDINATES ::
        Get(Field(e, "artifact").members, key).Some?
        && PyEqual(Get(Field(e, "artifact").members, key).value, GetOr(receipt, key, Null)));
    hide Matches;
  }

  lemma SchemaExactly(receipt: Entry)
    ensures PyEqual(GetOr(receipt, "schema", Null), RECEIPT_SCHEMA)
      <==> Holds(receipt, "schema", Str("CandidateArtifact.v1"))
  {
    GetsHold(receipt);
    TextEqualsItself(GetOr(receipt, "schema", Null), "CandidateArtifact.v1");
    hide Get, Holds, PyEqual;
  }

  /** Soundness at one position, field by field. */
  lemma SoundExactly(found: seq<Entry>, i: nat, repo: Repo, h: HexDigest)
    requires i < |found|
    ensures SoundAt(found, i, repo, h) <==>
      && Complete(found[i]) && FactsSaid(found[i], i)
      && exists file, receipt ::
        IsReceiptOf(file, found[i], repo) && ReceiptSaid(found[i], file, receipt, h) && LinkSaid(found, i, file, h)
  {
    var e := found[i];
    CompleteExactly(e);
    hide Complete, HasRequired;
    if HasRequired(e) {
      FactsExactly(e, i);
      hide FactsOk, FactsSaid;
      ReceiptIsHeld(e, repo);
      var path := TextOf(Field(e, "receipt_path"));
      if path in repo {
        var file := repo[path];
        LinkExactly(found, i, repo, h);
        if Document(file).Some? {
          ContentExactly(e, file, Document(file).value, h);
        }
      }
      hide ContentOk, ReceiptSaid, LinkOk, LinkSaid, IsReceiptOf, Get, TextOf;
      ReadableIsSaid(e, h);
    }
  }

  lemma ReadableIsSaid(e: Entry, h: HexDigest)
    ensures forall file, receipt | ReceiptSaid(e, file, receipt, h) :: Document(file) == Some(receipt)
  {
  }

  lemma ReceiptIsHeld(e: Entry, repo: Repo)
    requires HasRequired(e)
    ensures forall file :: IsReceiptOf(file, e, repo) <==>
      TextOf(Field(e, "receipt_path")) in repo && repo[TextOf(Field(e, "receipt_path"))] == file
  {
    GetsHold(e);
    hide Get, Holds, TextOf;
  }

  lemma LinkExactly(found: seq<Entry>, i: nat, repo: Repo, h: HexDigest)
    requires i < |found| && HasRequired(found[i]) && TextOf(Field(found[i], "receipt_path")) in repo
    ensures LinkOk(found[i], Before(found, i), repo, h)
      <==> LinkSaid(found, i, repo[TextOf(Field(found[i], "receipt_path"))], h)
  {
    GetsHold(found[i]);
    DigestExactly(TextOf(Field(found[i], "previous_digest")));
    hide Get, Holds, MatchesDigest, DigestText, Encode, TextOf;
  }

  // ---- each complaint ------------------------------------------------------------------------------------------

  /** What is wrong with the facts of an entry, complaint by complaint. */
  lemma FactComplaints(e: Entry, index: nat)
    requires HasRequired(e)
    ensures FactWrong(e, index, EntrySchema) <==> !Holds(e, "schema", Str("CandidateDisposition.v1"))
    ensures FactWrong(e, index, Sequence) <==>
      !Holds(e, "sequence", Num(index + 1)) && !(index == 0 && Holds(e, "sequence", Bool(true)))
    ensures FactWrong(e, index, Disposition) <==>
      !Invalidated(e) && !Holds(e, "disposition", Str("superseded")) && !Holds(e, "disposition", Str("published"))
    ensures FactWrong(e, index, ClaimsPublishable) <==> Invalidated(e) && !NotPublishable(e)
    ensures FactWrong(e, index, NoReason) <==> !GivesReason(e)
    ensures FactWrong(e, index, InvalidatingCommit) <==> Invalidated(e) && !NamesCommit(e)
  {
    ReasonExactly(e);
    CommitExactly(e);
    PublishableExactly(e);
    SequenceExactly(e, index);
    FieldHolds(e, "schema");
    FieldHolds(e, "disposition");
    hide Field, HasRequired, Holds, Truthy, Blank, MatchesHex, NotPublishable, NamesCommit, GivesReason, TextOf, GetOr,
      AsNumbers;
  }

  /** The artifact coordinate an entry records under `key`. */
  ghost predicate Records(e: Entry, key: string, v: Json) {
    exists artifact :: Holds(e, "artifact", Obj(artifact)) && Holds(artifact, key, v)
  }

  ghost predicate HasArtifact(e: Entry) {
    exists artifact :: Holds(e, "artifact", Obj(artifact))
  }

  lemma ArtifactExactly(e: Entry)
    requires HasRequired(e)
    ensures Field(e, "artifact").Obj? <==> HasArtifact(e)
  {
    FieldHolds(e, "artifact");
    hide Field, HasRequired, Holds;
    if Field(e, "artifact").Obj? {
      assert Holds(e, "artifact", Obj(Field(e, "artifact").members));
    }
  }

  /** What is wrong with a receipt that can be read. */
  lemma ContentComplaints(e: Entry, file: File, receipt: Entry, h: HexDigest)
    requires HasRequired(e) && file.fromBytes.Some?
    ensures ContentWrong(e, file, receipt, h, ReceiptSchema)
      <==> !Holds(receipt, "schema", Str("CandidateArtifact.v1"))
    ensures ContentWrong(e, file, receipt, h, ReceiptDigest)
      <==> !Holds(e, "receipt_digest", Str("sha256:" + h(Encode(file.fromBytes.value, false))))
    ensures ContentWrong(e, file, receipt, h, ReceiptBytes)
      <==> !Holds(e, "receipt_bytes_sha256", Str("sha256:" + h(file.raw)))
    ensures ContentWrong(e, file, receipt, h, NoArtifact) <==> !HasArtifact(e)
    ensures ContentWrong(e, file, receipt, h, VersionDiffers)
      <==> HasArtifact(e) && !SameField(e, receipt, "version")
    ensures ContentWrong(e, file, receipt, h, FacilityDiffers)
      <==> HasArtifact(e) && !SameField(e, receipt, "facility")
  {
    hide ARTIFACT_COORDINATES, CoordinateWrong, PyEqual, Encode, SameField, HasArtifact, GetOr;
    FieldExactly(e, receipt, "version");
    FieldExactly(e, receipt, "facility");
    FieldHolds(e, "receipt_digest");
    FieldHolds(e, "receipt_bytes_sha256");
    ArtifactExactly(e);
    SchemaExactly(receipt);
    hide Field, HasRequired, Holds;
  }

  predicate IsCoordinate(key: string) {
    key in {"artifact_id", "filename", "repository", "run_id", "sha256", "size_bytes", "source_sha"}
  }

  lemma CoordinateComplaints(e: Entry, file: File, receipt: Entry, h: HexDigest, key: string)
    requires HasRequired(e) && file.fromBytes.Some?
    ensures ContentWrong(e, file, receipt, h, CoordinateOmitted(key))
      <==> HasArtifact(e) && IsCoordinate(key) && forall v :: !Records(e, key, v)
    ensures ContentWrong(e, file, receipt, h, CoordinateDiffers(key))
      <==> IsCoordinate(key) && (exists v :: Records(e, key, v)) && !SameCoordinate(e, receipt, key)
  {
    ArtifactExactly(e);
    assert key in ARTIFACT_COORDINATES <==> IsCoordinate(key);
    hide ARTIFACT_COORDINATES, PyEqual, HasArtifact, GetOr, IsCoordinate;
    if Field(e, "artifact").Obj? {
      CoordinateExactly(e, receipt, key);
      RecordedExactly(e, key);
    } else {
      forall v ensures !Records(e, key, v) {
        FieldHolds(e, "artifact");
      }
    }
    hide Field, HasRequired, Holds, SameCoordinate, Get, Records;
  }

  lemma RecordedExactly(e: Entry, key: string)
    requires HasRequired(e) && Field(e, "artifact").Obj?
    ensures (exists v :: Records(e, key, v)) <==> Get(Field(e, "artifact").members, key).Some?
  {
    var artifact := Field(e, "artifact").members;
    FieldHolds(e, "artifact");
    GetsHold(artifact);
    hide Field, HasRequired, Holds, Get;
    if Get(artifact, key).Some? {
      assert Records(e, key, Get(artifact, key).value);
    }
  }

  /** What is wrong with the link, and with a receipt that is not there or cannot be read. */
  lemma LinkComplaints(e: Entry, previous: Option<Entry>, repo: Repo, h: HexDigest, path: Json, stated: Json)
    requires HasRequired(e) && Holds(e, "receipt_path", path) && Holds(e, "previous_digest", stated)
    ensures ReceiptWrong(e, repo, h, ReceiptAbsent) <==> TextOf(path) !in repo
    ensures ReceiptWrong(e, repo, h, ReceiptUnreadable) <==>
      && TextOf(path) in repo
      && (repo[TextOf(path)].fromBytes == None || repo[TextOf(path)].fromText == None)
    ensures LinkWrong(e, previous, repo, h, NotADigest) <==> !DigestText(TextOf(stated))
    ensures LinkWrong(e, previous, repo, h, WrongAnchor) <==>
      && DigestText(TextOf(stated)) && previous == None
      && TextOf(path) in repo && repo[TextOf(path)].fromBytes.Some?
      && TextOf(stated) != "sha256:" + h(Encode(repo[TextOf(path)].fromBytes.value, false))
    ensures LinkWrong(e, previous, repo, h, WrongLink) <==>
      && DigestText(TextOf(stated)) && previous.Some?
      && TextOf(stated) != "sha256:" + h(Encode(Obj(previous.value), false))
    ensures Raises(e, previous, repo) <==>
      || (exists items :: Holds(e, "disposition", Arr(items)))
      || (exists members :: Holds(e, "disposition", Obj(members)))
      || (TextOf(path) in repo && repo[TextOf(path)].fromBytes.Some? && repo[TextOf(path)].fromText.Some?
          && !repo[TextOf(path)].fromText.value.Obj?)
      || (TextOf(path) in repo && repo[TextOf(path)].fromBytes == None && previous == None
          && DigestText(TextOf(stated)))
  {
    FieldHolds(e, "receipt_path");
    FieldHolds(e, "previous_digest");
    FieldHolds(e, "disposition");
    DigestExactly(TextOf(stated));
    hide Field, HasRequired, Holds, TextOf, MatchesDigest, DigestText, Encode, ContentWrong;
  }

  /** The entries of a log are the objects among its `entries`, in their order. */
  lemma {:induction false} EntriesJoin(a: seq<Json>, b: seq<Json>)
    ensures EntriesOf(a + b) == EntriesOf(a) + EntriesOf(b)
  {
    if a == [] {
      assert a + b == b;
    } else {
      var rest := a[1..];
      EntriesJoin(rest, b);
      assert (a + b)[0] == a[0] && (a + b)[1..] == rest + b;
      Regrouped(if a[0].Obj? then [a[0].members] else [], EntriesOf(rest), EntriesOf(b));
    }
  }

  lemma Regrouped(a: seq<Entry>, b: seq<Entry>, c: seq<Entry>)
    ensures a + (b + c) == (a + b) + c
  {
  }

  lemma OneEntry(v: Json)
    ensures EntriesOf([v]) == if v.Obj? then [v.members] else []
  {
    assert [v][1..] == [];
  }

  lemma EntriesExactly(log: Entry)
    ensures Entries(log).Some? <==> exists items :: Holds(log, "entries", Arr(items))
    ensures forall items | Holds(log, "entries", Arr(items)) :: Entries(log) == Some(EntriesOf(items))
  {
    GetsHold(log);
    hide Get, Holds, EntriesOf;
  }

  // ---- what a sound log tells a reader -----------------------------------------------------------------------

  lemma OneValue(e: Entry, key: string, v: Json, w: Json)
    requires Holds(e, key, v) && Holds(e, key, w)
    ensures v == w
  {
    GetExactly(e, key, v);
    GetExactly(e, key, w);
  }

  /**
   * Every entry of a sound log names a receipt on disk whose artifact digest, version and facility
   * are the entry's own, and an invalidated one is never publishable.
   */
  lemma SoundLogDescribesReceipts(found: seq<Entry>, i: nat, repo: Repo, h: HexDigest)
    returns (path: Json, receipt: Entry)
    requires Sound(found, repo, h) && i < |found|
    ensures Holds(found[i], "receipt_path", path) && TextOf(path) in repo
    ensures repo[TextOf(path)].fromText == Some(Obj(receipt))
    ensures forall s: string ::
      && (Records(found[i], "sha256", Str(s)) <==> Holds(receipt, "sha256", Str(s)))
      && (Holds(found[i], "version", Str(s)) <==> Holds(receipt, "version", Str(s)))
      && (Holds(found[i], "facility", Str(s)) <==> Holds(receipt, "facility", Str(s)))
    ensures Holds(found[i], "disposition", Str("invalidated")) ==> !Holds(found[i], "publishable", Bool(true))
    ensures Holds(found[i], "receipt_bytes_sha256", Str("sha256:" + h(repo[TextOf(path)].raw)))
  {
    assert SoundAt(found, i, repo, h);
    SoundExactly(found, i, repo, h);
    var e := found[i];
    hide SoundAt, Complete, LinkSaid, HexText, SPACES, NamesCommit, GivesReason, SameField, SameCoordinate;
    var file, r :| IsReceiptOf(file, e, repo) && ReceiptSaid(e, file, r, h) && LinkSaid(found, i, file, h);
    receipt := r;
    path :| Holds(e, "receipt_path", path) && TextOf(path) in repo && repo[TextOf(path)] == file;
    hide Holds;
    if NotPublishable(e) {
      var v :| v in {Null, Bool(false), Num(0), Str(""), Arr([]), Obj([])} && Holds(e, "publishable", v);
      if Holds(e, "publishable", Bool(true)) {
        OneValue(e, "publishable", v, Bool(true));
      }
    }
    forall s: string
      ensures Records(e, "sha256", Str(s)) <==> Holds(receipt, "sha256", Str(s))
      ensures Holds(e, "version", Str(s)) <==> Holds(receipt, "version", Str(s))
      ensures Holds(e, "facility", Str(s)) <==> Holds(receipt, "facility", Str(s))
    {
      SameTexts(e, receipt, "version", s);
      SameTexts(e, receipt, "facility", s);
      SameCoordinateText(e, receipt, "sha256", s);
    }
  }

  lemma AgreedText(v: Json, receipt: Entry, key: string, s: string)
    requires Agrees(v, receipt, key)
    ensures v == Str(s) <==> Holds(receipt, key, Str(s))
  {
    TextEqualsItself(v, s);
    if w :| Holds(receipt, key, w) && PyEqual(v, w) {
      TextEqualsItself(w, s);
      hide PyEqual, Holds;
      if Holds(receipt, key, Str(s)) {
        OneValue(receipt, key, w, Str(s));
      }
    }
  }

  lemma SameTexts(e: Entry, receipt: Entry, key: string, s: string)
    requires SameField(e, receipt, key)
    ensures Holds(e, key, Str(s)) <==> Holds(receipt, key, Str(s))
  {
    hide Holds, Agrees;
    var v :| Holds(e, key, v) && Agrees(v, receipt, key);
    AgreedText(v, receipt, key, s);
    if Holds(e, key, Str(s)) {
      OneValue(e, key, v, Str(s));
    }
  }

  lemma SameCoordinateText(e: Entry, receipt: Entry, key: string, s: string)
    requires SameCoordinate(e, receipt, key)
    ensures Records(e, key, Str(s)) <==> Holds(receipt, key, Str(s))
  {
    hide Holds, Agrees;
    var artifact, v :| Holds(e, "artifact", Obj(artifact)) && Holds(artifact, key, v) && Agrees(v, receipt, key);
    AgreedText(v, receipt, key, s);
    if other :| Holds(e, "artifact", Obj(other)) && Holds(other, key, Str(s)) {
      OneValue(e, "artifact", Obj(artifact), Obj(other));
      OneValue(artifact, key, v, Str(s));
    }
  }

  // ---- history ---------------------------------------------------------------------------------------------------

  /** Every entry of `past` has the digest of the entry in its place today, and there are no fewer today. */
  predicate KeptBy(past: seq<Entry>, today: seq<Entry>, h: HexDigest) {
    |past| <= |today|
    && forall k | 0 <= k < |past| :: h(Encode(Obj(past[k]), false)) == h(Encode(Obj(today[k]), false))
  }

  lemma PrefixExactly(past: seq<Entry>, today: seq<Entry>, h: HexDigest)
    ensures DigestsOf(past, h) <= DigestsOf(today, h) <==> KeptBy(past, today, h)
  {
    hide Encode;
    var (was, now) := (DigestsOf(past, h), DigestsOf(today, h));
    forall k | 0 <= k < |past| && k < |today|
      ensures was[k] == now[k] <==> h(Encode(Obj(past[k]), false)) == h(Encode(Obj(today[k]), false))
    {
      assert was[k][7..] == h(Encode(Obj(past[k]), false)) && now[k][7..] == h(Encode(Obj(today[k]), false));
    }
    if |past| <= |today| && was <= now {
      forall k | 0 <= k < |past| ensures was[k] == now[k] {
        assert was == now[..|was|];
      }
    }
  }

  /** Which histories are clean: every revision can be read and today's log keeps its entries in place. */
  lemma CleanExactly(revisions: seq<Revision>, today: seq<Entry>, h: HexDigest)
    ensures Clean(revisions, today, h) <==>
      forall r | 0 <= r < |revisions| :: revisions[r].Some? && KeptBy(revisions[r].value, today, h)
  {
    forall r | 0 <= r < |revisions| && revisions[r].Some?
      ensures DigestsOf(revisions[r].value, h) <= DigestsOf(today, h) <==> KeptBy(revisions[r].value, today, h)
    {
      PrefixExactly(revisions[r].value, today, h);
    }
    hide KeptBy, DigestsOf;
  }

  /** An unchanged history is clean: whatever each revision holds is the beginning of today's log. */
  lemma GrownHistoryIsClean(revisions: seq<Revision>, today: seq<Entry>, h: HexDigest)
    requires forall r | 0 <= r < |revisions| :: revisions[r].Some? && revisions[r].value <= today
    ensures Clean(revisions, today, h)
  {
    CleanExactly(revisions, today, h);
  }
}
