/** `CandidateDisposition.v1`: a hash-chained log of what became of each candidate. */
module DispositionLog {
  import opened Wrappers
  import opened CanonicalJson
  import opened Sorting
  import opened Decimals
  import Text

  const LOG_SCHEMA := Str("CandidateDispositionLog.v1")
  const ENTRY_SCHEMA := Str("CandidateDisposition.v1")
  const RECEIPT_SCHEMA := Str("CandidateArtifact.v1")

  const REQUIRED_FIELDS: set<string> := {
    "artifact", "disposition", "facility", "previous_digest", "publishable", "reason", "receipt_bytes_sha256",
    "receipt_digest", "receipt_path", "recorded_at", "schema", "sequence", "version"}

  const ARTIFACT_COORDINATES: seq<string> := [
    "artifact_id", "filename", "repository", "run_id", "sha256", "size_bytes", "source_sha"]

  type Entry = seq<Member>

  /**
   * A file under the repository root: its bytes, and the JSON values a parser reads from these and
   * from their UTF-8 text. A byte-order mark, for one, stops only the second.
   */
  datatype File = File(raw: string, fromBytes: Option<Json>, fromText: Option<Json>)
  type Repo = map<string, File>

  /** Both parsers read the file. */
  predicate Readable(file: File) {
    file.fromBytes.Some? && file.fromText.Some?
  }

  /** The JSON object of a readable file, or nothing when it holds none. */
  function Document(file: File): Option<Entry> {
    if Readable(file) && file.fromText.value.Obj? then Some(file.fromText.value.members) else None
  }

  /** The hex digest function; its values are all that is known about it. */
  type HexDigest = string -> string

  ghost predicate YieldsHex(h: HexDigest) {
    forall x :: Text.HexDigits(h(x), 64)
  }

  // ---- reading fields -----------------------------------------------------

  function Get(entry: Entry, key: string): Option<Json> {
    if entry == [] then None
    else if entry[0].key == key then Some(entry[0].value)
    else Get(entry[1..], key)
  }

  function GetOr(entry: Entry, key: string, default: Json): Json {
    match Get(entry, key) case Some(v) => v case None => default
  }

  /** `str(v)` as far as the checks look at it: the text of a scalar. */
  function TextOf(v: Json): string {
    match v
    case Str(s) => s
    case Num(n) => if n < 0 then "-" + Show(-n) else Show(n)
    case Bool(b) => if b then "True" else "False"
    case Null => "None"
    case _ => "(not text)"
  }

  /** Python's `==`: a boolean equals the number it stands for, at any depth, and member order is immaterial. */
  function AsNumbers(v: Json): Json {
    match v
    case Bool(b) => Num(if b then 1 else 0)
    case Arr(items) => Arr(seq(|items|, i requires 0 <= i < |items| => AsNumbers(items[i])))
    case Obj(members) =>
      Obj(seq(|members|,
              i requires 0 <= i < |members| => Member(members[i].key, AsNumbers(members[i].value))))
    case _ => v
  }

  predicate PyEqual(v: Json, w: Json) {
    Normal(AsNumbers(v)) == Normal(AsNumbers(w))
  }

  predicate Truthy(v: Json) {
    match v
    case Null => false
    case Bool(b) => b
    case Num(n) => n != 0
    case Str(s) => s != ""
    case Arr(items) => items != []
    case Obj(members) => members != []
  }

  predicate IsSpaceChar(c: char) {
    var n := c as int;
    9 <= n <= 13 || 28 <= n <= 32 || n == 0x85 || n == 0xa0 || n == 0x1680 || 0x2000 <= n <= 0x200a
    || n == 0x2028 || n == 0x2029 || n == 0x202f || n == 0x205f || n == 0x3000
  }

  predicate Blank(s: string) {
    forall i | 0 <= i < |s| :: IsSpaceChar(s[i])
  }

  /** `^[0-9a-f]{n}$` under `re.match`, whose `$` also stops before one final newline. */
  predicate MatchesHex(s: string, n: nat) {
    Text.HexDigits(s, n) || (|s| == n + 1 && Text.HexDigits(s[..n], n) && s[n] == '\n')
  }

  predicate MatchesDigest(s: string) {
    "sha256:" <= s && MatchesHex(s[7..], 64)
  }

  // ---- digests --------------------------------------------------------------

  function CanonicalText(entry: Entry): string {
    Encode(Obj(entry), false)
  }

  function DigestOf(entry: Entry, h: HexDigest): string {
    "sha256:" + h(CanonicalText(entry))
  }

  /** The digest of a file's content, as parsed from its bytes. */
  function ContentDigest(file: File, h: HexDigest): string
    requires file.fromBytes.Some?
  {
    "sha256:" + h(Encode(file.fromBytes.value, false))
  }

  /** Two different texts with one digest. */
  ghost predicate Collides(h: HexDigest, x: string, y: string) {
    x != y && h(x) == h(y)
  }

  // ---- the checks -------------------------------------------------------------

  function EntriesOf(items: seq<Json>): seq<Entry> {
    if items == [] then []
    else (if items[0].Obj? then [items[0].members] else []) + EntriesOf(items[1..])
  }

  /** The object entries of a log, or nothing when it carries no `entries` array. */
  function Entries(log: Entry): Option<seq<Entry>> {
    match Get(log, "entries")
    case Some(Arr(items)) => Some(EntriesOf(items))
    case _ => None
  }

  predicate HasRequired(entry: Entry) {
    forall f | f in REQUIRED_FIELDS :: Get(entry, f).Some?
  }

  function Field(entry: Entry, key: string): Json
    requires HasRequired(entry) && key in REQUIRED_FIELDS
  {
    Get(entry, key).value
  }

  /** What one entry states about itself at position `index`, apart from its receipt and its link. */
  predicate FactsOk(entry: Entry, index: nat)
    requires HasRequired(entry)
  {
    var disposition := Field(entry, "disposition");
    && Field(entry, "schema") == ENTRY_SCHEMA
    && AsNumbers(Field(entry, "sequence")) == Num(index + 1)
    && disposition in {Str("invalidated"), Str("superseded"), Str("published")}
    && (disposition == Str("invalidated") ==> !Truthy(Field(entry, "publishable")))
    && !Blank(TextOf(Field(entry, "reason")))
    && (disposition == Str("invalidated") ==> MatchesHex(TextOf(GetOr(entry, "invalidating_commit", Str(""))), 40))
  }

  /** The receipt is a candidate receipt, unchanged, of the candidate the entry names. */
  predicate ContentOk(entry: Entry, file: File, receipt: Entry, h: HexDigest)
    requires HasRequired(entry) && file.fromBytes.Some?
  {
    && PyEqual(GetOr(receipt, "schema", Null), RECEIPT_SCHEMA)
    && Field(entry, "receipt_digest") == Str(ContentDigest(file, h))
    && Field(entry, "receipt_bytes_sha256") == Str("sha256:" + h(file.raw))
    && Field(entry, "artifact").Obj?
    && (forall key | key in ARTIFACT_COORDINATES ::
          Get(Field(entry, "artifact").members, key).Some?
          && PyEqual(Get(Field(entry, "artifact").members, key).value, GetOr(receipt, key, Null)))
    && PyEqual(Field(entry, "version"), GetOr(receipt, "version", Null))
    && PyEqual(Field(entry, "facility"), GetOr(receipt, "facility", Null))
  }

  /** The entry's receipt is on disk, can be read and is as the entry says. */
  predicate ReceiptOk(entry: Entry, repo: Repo, h: HexDigest)
    requires HasRequired(entry)
  {
    var path := TextOf(Field(entry, "receipt_path"));
    path in repo && Document(repo[path]).Some? && ContentOk(entry, repo[path], Document(repo[path]).value, h)
  }

  predicate EntryOk(entry: Entry, index: nat, repo: Repo, h: HexDigest) {
    HasRequired(entry) && FactsOk(entry, index) && ReceiptOk(entry, repo, h)
  }

  /** Entry 1 chains to its receipt, every later entry to the entry before it. */
  predicate LinkOk(entry: Entry, previous: Option<Entry>, repo: Repo, h: HexDigest)
    requires HasRequired(entry)
  {
    var stated := TextOf(Field(entry, "previous_digest"));
    && MatchesDigest(stated)
    && match previous
       case Some(p) => stated == DigestOf(p, h)
       case None =>
         var path := TextOf(Field(entry, "receipt_path"));
         path in repo ==> repo[path].fromBytes.Some? && stated == ContentDigest(repo[path], h)
  }

  function Before(found: seq<Entry>, i: nat): Option<Entry>
    requires i <= |found|
  {
    if i == 0 then None else Some(found[i - 1])
  }

  predicate SoundAt(found: seq<Entry>, i: nat, repo: Repo, h: HexDigest)
    requires i < |found|
  {
    EntryOk(found[i], i, repo, h) && LinkOk(found[i], Before(found, i), repo, h)
  }

  /** The entries form an append-only history. */
  predicate Sound(found: seq<Entry>, repo: Repo, h: HexDigest) {
    forall i | 0 <= i < |found| :: SoundAt(found, i, repo, h)
  }

  datatype Problem =
    | LogSchema
    | NoEntries
    | Ratchet(held: nat, expected: nat)
    | At(entry: nat, wrong: Wrong)

  datatype Wrong =
    | MissingFields
    | EntrySchema | Sequence | Disposition | ClaimsPublishable | NoReason | InvalidatingCommit
    | ReceiptAbsent | ReceiptUnreadable | ReceiptSchema | ReceiptDigest | ReceiptBytes
    | NoArtifact | CoordinateOmitted(key: string) | CoordinateDiffers(key: string) | VersionDiffers | FacilityDiffers
    | NotADigest | WrongAnchor | WrongLink

  // ---- what each complaint means -----------------------------------------------

  predicate FactWrong(entry: Entry, index: nat, w: Wrong)
    requires HasRequired(entry)
  {
    var disposition := Field(entry, "disposition");
    match w
    case EntrySchema => Field(entry, "schema") != ENTRY_SCHEMA
    case Sequence => AsNumbers(Field(entry, "sequence")) != Num(index + 1)
    case Disposition => disposition !in {Str("invalidated"), Str("superseded"), Str("published")}
    case ClaimsPublishable => disposition == Str("invalidated") && Truthy(Field(entry, "publishable"))
    case NoReason => Blank(TextOf(Field(entry, "reason")))
    case InvalidatingCommit =>
      disposition == Str("invalidated") && !MatchesHex(TextOf(GetOr(entry, "invalidating_commit", Str(""))), 40)
    case _ => false
  }

  predicate CoordinateWrong(recorded: Entry, receipt: Entry, keys: seq<string>, w: Wrong) {
    match w
    case CoordinateOmitted(key) => key in keys && Get(recorded, key).None?
    case CoordinateDiffers(key) =>
      key in keys && Get(recorded, key).Some? && !PyEqual(Get(recorded, key).value, GetOr(receipt, key, Null))
    case _ => false
  }

  /** How an entry and its receipt disagree; without an artifact object the rest is not compared. */
  predicate CandidateWrong(entry: Entry, receipt: Entry, w: Wrong)
    requires HasRequired(entry)
  {
    var artifact := Field(entry, "artifact");
    match w
    case NoArtifact => !artifact.Obj?
    case VersionDiffers => artifact.Obj? && !PyEqual(Field(entry, "version"), GetOr(receipt, "version", Null))
    case FacilityDiffers => artifact.Obj? && !PyEqual(Field(entry, "facility"), GetOr(receipt, "facility", Null))
    case _ => artifact.Obj? && CoordinateWrong(artifact.members, receipt, ARTIFACT_COORDINATES, w)
  }

  /** What is wrong with a receipt that can be read. */
  predicate ContentWrong(entry: Entry, file: File, receipt: Entry, h: HexDigest, w: Wrong)
    requires HasRequired(entry) && file.fromBytes.Some?
  {
    match w
    case ReceiptSchema => !PyEqual(GetOr(receipt, "schema", Null), RECEIPT_SCHEMA)
    case ReceiptDigest => Field(entry, "receipt_digest") != Str(ContentDigest(file, h))
    case ReceiptBytes => Field(entry, "receipt_bytes_sha256") != Str("sha256:" + h(file.raw))
    case _ => CandidateWrong(entry, receipt, w)
  }

  predicate ReceiptWrong(entry: Entry, repo: Repo, h: HexDigest, w: Wrong)
    requires HasRequired(entry)
  {
    var path := TextOf(Field(entry, "receipt_path"));
    if path !in repo then w == ReceiptAbsent
    else if !Readable(repo[path]) then w == ReceiptUnreadable
    else Document(repo[path]).Some? && ContentWrong(entry, repo[path], Document(repo[path]).value, h, w)
  }

  predicate LinkWrong(entry: Entry, previous: Option<Entry>, repo: Repo, h: HexDigest, w: Wrong)
    requires HasRequired(entry)
  {
    var stated := TextOf(Field(entry, "previous_digest"));
    var path := TextOf(Field(entry, "receipt_path"));
    match w
    case NotADigest => !MatchesDigest(stated)
    case WrongAnchor =>
      && MatchesDigest(stated) && previous.None?
      && path in repo && repo[path].fromBytes.Some? && stated != ContentDigest(repo[path], h)
    case WrongLink => MatchesDigest(stated) && previous.Some? && stated != DigestOf(previous.value, h)
    case _ => false
  }

  predicate EntryWrong(entry: Entry, previous: Option<Entry>, index: nat, repo: Repo, h: HexDigest, w: Wrong) {
    if !HasRequired(entry) then w == MissingFields
    else FactWrong(entry, index, w) || ReceiptWrong(entry, repo, h, w) || LinkWrong(entry, previous, repo, h, w)
  }

  /**
   * The entry makes the check itself fail: its disposition cannot be looked up in a set, its
   * receipt is no object, or it anchors the log to a receipt whose bytes cannot be parsed.
   */
  predicate Raises(entry: Entry, previous: Option<Entry>, repo: Repo) {
    && HasRequired(entry)
    && var path := TextOf(Field(entry, "receipt_path"));
    || Field(entry, "disposition").Arr? || Field(entry, "disposition").Obj?
    || (path in repo && Readable(repo[path]) && !repo[path].fromText.value.Obj?)
    || (path in repo && repo[path].fromBytes.None? && previous.None?
        && MatchesDigest(TextOf(Field(entry, "previous_digest"))))
  }

  predicate RaisesAt(found: seq<Entry>, i: nat, repo: Repo)
    requires i < |found|
  {
    Raises(found[i], Before(found, i), repo)
  }

  lemma RaisingIsUnsound(entry: Entry, previous: Option<Entry>, index: nat, repo: Repo, h: HexDigest)
    requires Raises(entry, previous, repo)
    ensures !EntryOk(entry, index, repo, h)
  {
  }

  lemma NothingWrongWithFacts(entry: Entry, index: nat)
    requires HasRequired(entry)
    ensures FactsOk(entry, index) <==> forall w :: !FactWrong(entry, index, w)
  {
    if forall w :: !FactWrong(entry, index, w) {
      assert !FactWrong(entry, index, EntrySchema) && !FactWrong(entry, index, Sequence);
      assert !FactWrong(entry, index, Disposition) && !FactWrong(entry, index, ClaimsPublishable);
      assert !FactWrong(entry, index, NoReason) && !FactWrong(entry, index, InvalidatingCommit);
    }
  }

  lemma NothingWrongWithContent(entry: Entry, file: File, receipt: Entry, h: HexDigest)
    requires HasRequired(entry) && file.fromBytes.Some?
    ensures ContentOk(entry, file, receipt, h) <==> forall w :: !ContentWrong(entry, file, receipt, h, w)
  {
    hide PyEqual, ContentDigest, Get, GetOr, Field, ARTIFACT_COORDINATES;
    if forall w :: !ContentWrong(entry, file, receipt, h, w) {
      assert !ContentWrong(entry, file, receipt, h, ReceiptSchema);
      assert !ContentWrong(entry, file, receipt, h, ReceiptDigest);
      assert !ContentWrong(entry, file, receipt, h, ReceiptBytes);
      assert !ContentWrong(entry, file, receipt, h, NoArtifact);
      assert !ContentWrong(entry, file, receipt, h, VersionDiffers);
      assert !ContentWrong(entry, file, receipt, h, FacilityDiffers);
      var recorded := Field(entry, "artifact").members;
      forall key | key in ARTIFACT_COORDINATES
        ensures Get(recorded, key).Some? && PyEqual(Get(recorded, key).value, GetOr(receipt, key, Null))
      {
        assert !ContentWrong(entry, file, receipt, h, CoordinateOmitted(key));
        assert !ContentWrong(entry, file, receipt, h, CoordinateDiffers(key));
      }
    }
  }

  lemma NothingWrongWithReceipt(entry: Entry, repo: Repo, h: HexDigest)
    requires HasRequired(entry)
    requires
      var path := TextOf(Field(entry, "receipt_path"));
      path in repo && Readable(repo[path]) ==> repo[path].fromText.value.Obj?
    ensures ReceiptOk(entry, repo, h) <==> forall w :: !ReceiptWrong(entry, repo, h, w)
  {
    hide TextOf, ContentWrong, ContentOk;
    var path := TextOf(Field(entry, "receipt_path"));
    if path !in repo {
      assert ReceiptWrong(entry, repo, h, ReceiptAbsent);
    } else if !Readable(repo[path]) {
      assert ReceiptWrong(entry, repo, h, ReceiptUnreadable);
    } else {
      var file, receipt := repo[path], Document(repo[path]).value;
      NothingWrongWithContent(entry, file, receipt, h);
      assert forall w :: ReceiptWrong(entry, repo, h, w) <==> ContentWrong(entry, file, receipt, h, w);
    }
  }

  lemma NothingWrongWithLink(entry: Entry, previous: Option<Entry>, repo: Repo, h: HexDigest)
    requires HasRequired(entry) && !Raises(entry, previous, repo)
    ensures LinkOk(entry, previous, repo, h) <==> forall w :: !LinkWrong(entry, previous, repo, h, w)
  {
    hide DigestOf, ContentDigest, TextOf, MatchesDigest, HasRequired;
    if forall w :: !LinkWrong(entry, previous, repo, h, w) {
      assert !LinkWrong(entry, previous, repo, h, NotADigest);
      assert !LinkWrong(entry, previous, repo, h, WrongAnchor);
      assert !LinkWrong(entry, previous, repo, h, WrongLink);
    }
  }

  /** An entry that does not make the check fail is sound exactly when no complaint applies to it. */
  lemma NothingWrong(entry: Entry, previous: Option<Entry>, index: nat, repo: Repo, h: HexDigest)
    requires !Raises(entry, previous, repo)
    ensures (EntryOk(entry, index, repo, h) && LinkOk(entry, previous, repo, h))
      <==> forall w :: !EntryWrong(entry, previous, index, repo, h, w)
  {
    if HasRequired(entry) {
      NothingWrongWithFacts(entry, index);
      NothingWrongWithReceipt(entry, repo, h);
      NothingWrongWithLink(entry, previous, repo, h);
      hide FactsOk, ReceiptOk, LinkOk, FactWrong, ReceiptWrong, LinkWrong, HasRequired;
      assert forall w :: EntryWrong(entry, previous, index, repo, h, w) <==>
        FactWrong(entry, index, w) || ReceiptWrong(entry, repo, h, w) || LinkWrong(entry, previous, repo, h, w);
    } else {
      assert EntryWrong(entry, previous, index, repo, h, MissingFields);
    }
  }

  // ---- the checking methods ------------------------------------------------------

  /** The entry's receipt, or nothing when the receipt is no object. */
  method CheckReceipt(entry: Entry, repo: Repo, h: HexDigest) returns (r: Option<seq<Wrong>>)
    requires HasRequired(entry)
    ensures r.None? <==>
      var path := TextOf(Field(entry, "receipt_path"));
      path in repo && Readable(repo[path]) && !repo[path].fromText.value.Obj?
    ensures r.Some? ==> forall w :: w in r.value <==> ReceiptWrong(entry, repo, h, w)
  {
    hide PyEqual, ContentDigest, TextOf, HasRequired;
    var path := TextOf(Field(entry, "receipt_path"));
    if path !in repo {
      return Some([ReceiptAbsent]);
    }
    if !Readable(repo[path]) {
      return Some([ReceiptUnreadable]);
    }
    match repo[path].fromText.value {
      case Obj(receipt) =>
        var problems := CheckContent(entry, repo[path], receipt, h);
        return Some(problems);
      case _ => return None;
    }
  }

  method CheckContent(entry: Entry, file: File, receipt: Entry, h: HexDigest) returns (problems: seq<Wrong>)
    requires HasRequired(entry) && file.fromBytes.Some?
    ensures forall w :: w in problems <==> ContentWrong(entry, file, receipt, h, w)
  {
    hide PyEqual, ContentDigest, HasRequired, GetOr, CandidateWrong;
    problems := [];
    if !PyEqual(GetOr(receipt, "schema", Null), RECEIPT_SCHEMA) {
      problems := problems + [ReceiptSchema];
    }
    if Field(entry, "receipt_digest") != Str(ContentDigest(file, h)) {
      problems := problems + [ReceiptDigest];
    }
    if Field(entry, "receipt_bytes_sha256") != Str("sha256:" + h(file.raw)) {
      problems := problems + [ReceiptBytes];
    }
    var more := CheckCandidate(entry, receipt);
    NotOfCandidate(entry, receipt);
    problems := problems + more;
  }

  lemma NotOfCandidate(entry: Entry, receipt: Entry)
    requires HasRequired(entry)
    ensures forall w | w in {ReceiptSchema, ReceiptDigest, ReceiptBytes} :: !CandidateWrong(entry, receipt, w)
  {
  }

  method CheckCandidate(entry: Entry, receipt: Entry) returns (problems: seq<Wrong>)
    requires HasRequired(entry)
    ensures forall w :: w in problems <==> CandidateWrong(entry, receipt, w)
  {
    hide PyEqual, HasRequired, GetOr;
    var artifact := Field(entry, "artifact");
    if !artifact.Obj? {
      return [NoArtifact];
    }
    problems := CheckCoordinates(artifact.members, receipt);
    if !PyEqual(Field(entry, "version"), GetOr(receipt, "version", Null)) {
      problems := problems + [VersionDiffers];
    }
    if !PyEqual(Field(entry, "facility"), GetOr(receipt, "facility", Null)) {
      problems := problems + [FacilityDiffers];
    }
  }

  method CheckCoordinates(recorded: Entry, receipt: Entry) returns (problems: seq<Wrong>)
    ensures forall w :: w in problems <==> CoordinateWrong(recorded, receipt, ARTIFACT_COORDINATES, w)
  {
    hide PyEqual, Get, GetOr, ARTIFACT_COORDINATES;
    var keys := ARTIFACT_COORDINATES;
    problems := [];
    for k := 0 to |keys|
      invariant forall w :: w in problems <==> CoordinateWrong(recorded, receipt, keys[..k], w)
    {
      var key := keys[k];
      TakeNext(keys, k);
      if Get(recorded, key).None? {
        problems := problems + [CoordinateOmitted(key)];
      } else if !PyEqual(Get(recorded, key).value, GetOr(receipt, key, Null)) {
        problems := problems + [CoordinateDiffers(key)];
      }
    }
    TakeAll(keys);
  }

  /** The chain link, or nothing when the bytes of the receipt to anchor to cannot be parsed. */
  method CheckLink(entry: Entry, previous: Option<Entry>, repo: Repo, h: HexDigest) returns (r: Option<seq<Wrong>>)
    requires HasRequired(entry)
    ensures r.None? <==>
      var path := TextOf(Field(entry, "receipt_path"));
      && path in repo && repo[path].fromBytes.None? && previous.None?
      && MatchesDigest(TextOf(Field(entry, "previous_digest")))
    ensures r.Some? ==> forall w :: w in r.value <==> LinkWrong(entry, previous, repo, h, w)
  {
    hide DigestOf, ContentDigest, TextOf, MatchesDigest, HasRequired;
    var stated := TextOf(Field(entry, "previous_digest"));
    if !MatchesDigest(stated) {
      return Some([NotADigest]);
    }
    match previous {
      case None =>
        var path := TextOf(Field(entry, "receipt_path"));
        if path !in repo {
          return Some([]);
        }
        if repo[path].fromBytes.None? {
          return None;
        }
        return Some(if stated != ContentDigest(repo[path], h) then [WrongAnchor] else []);
      case Some(p) =>
        return Some(if stated != DigestOf(p, h) then [WrongLink] else []);
    }
  }

  method CheckFacts(entry: Entry, index: nat) returns (problems: seq<Wrong>)
    requires HasRequired(entry)
    ensures forall w :: w in problems <==> FactWrong(entry, index, w)
  {
    hide TextOf, Blank, MatchesHex, Truthy, HasRequired, GetOr;
    problems := [];
    if Field(entry, "schema") != ENTRY_SCHEMA {
      problems := problems + [EntrySchema];
    }
    if AsNumbers(Field(entry, "sequence")) != Num(index + 1) {
      problems := problems + [Sequence];
    }
    var disposition := Field(entry, "disposition");
    if disposition !in {Str("invalidated"), Str("superseded"), Str("published")} {
      problems := problems + [Disposition];
    }
    if disposition == Str("invalidated") && Truthy(Field(entry, "publishable")) {
      problems := problems + [ClaimsPublishable];
    }
    if Blank(TextOf(Field(entry, "reason"))) {
      problems := problems + [NoReason];
    }
    if disposition == Str("invalidated") {
      if !MatchesHex(TextOf(GetOr(entry, "invalidating_commit", Str(""))), 40) {
        problems := problems + [InvalidatingCommit];
      }
    }
  }

  /** What is wrong with one entry, given the entry before it; nothing when the check itself fails. */
  method CheckEntry(entry: Entry, previous: Option<Entry>, index: nat, repo: Repo, h: HexDigest)
    returns (r: Option<seq<Wrong>>)
    ensures r.None? <==> Raises(entry, previous, repo)
    ensures r.Some? ==> forall w :: w in r.value <==> EntryWrong(entry, previous, index, repo, h, w)
    ensures r == Some([]) <==> EntryOk(entry, index, repo, h) && LinkOk(entry, previous, repo, h)
  {
    hide FactsOk, ReceiptOk, LinkOk, FactWrong, ReceiptWrong, LinkWrong, HasRequired, MatchesDigest;
    if Raises(entry, previous, repo) {
      RaisingIsUnsound(entry, previous, index, repo, h);
    } else {
      NothingWrong(entry, previous, index, repo, h);
    }
    if !HasRequired(entry) {
      return Some([MissingFields]);
    }
    var facts := CheckFacts(entry, index);
    if Field(entry, "disposition").Arr? || Field(entry, "disposition").Obj? {
      return None;
    }
    var receipt := CheckReceipt(entry, repo, h);
    if receipt.None? {
      return None;
    }
    var link := CheckLink(entry, previous, repo, h);
    if link.None? {
      return None;
    }
    var problems := facts + receipt.value + link.value;
    EmptyMeansNone(problems, entry, previous, index, repo, h);
    return Some(problems);
  }

  lemma EmptyMeansNone(
      problems: seq<Wrong>, entry: Entry, previous: Option<Entry>, index: nat, repo: Repo, h: HexDigest)
    requires forall w :: w in problems <==> EntryWrong(entry, previous, index, repo, h, w)
    ensures problems == [] <==> forall w :: !EntryWrong(entry, previous, index, repo, h, w)
  {
    hide EntryWrong;
    if problems != [] {
      assert problems[0] in problems;
    }
  }

  ghost predicate Reported(problems: seq<Problem>, i: nat) {
    exists p | p in problems :: p.At? && p.entry == i + 1
  }

  function Place(wrongs: seq<Wrong>, index: nat): (r: seq<Problem>)
    ensures |r| == |wrongs|
    ensures forall k | 0 <= k < |r| :: r[k] == At(index + 1, wrongs[k])
  {
    seq(|wrongs|, k requires 0 <= k < |wrongs| => At(index + 1, wrongs[k]))
  }

  lemma PlacedMembers(wrongs: seq<Wrong>, index: nat, w: Wrong)
    ensures At(index + 1, w) in Place(wrongs, index) <==> w in wrongs
  {
    if w in wrongs {
      var k :| 0 <= k < |wrongs| && wrongs[k] == w;
      assert Place(wrongs, index)[k] == At(index + 1, w);
    }
  }

  /** The first `n` entries are blamed for exactly what is wrong with them. */
  ghost predicate Blamed(problems: seq<Problem>, found: seq<Entry>, n: nat, repo: Repo, h: HexDigest)
    requires n <= |found|
  {
    && (forall i, w | 0 <= i < n ::
          At(i + 1, w) in problems <==> EntryWrong(found[i], Before(found, i), i, repo, h, w))
    && (forall i | 0 <= i < n :: Reported(problems, i) <==> !SoundAt(found, i, repo, h))
  }

  /** The loop over the entries. */
  method CheckEntries(found: seq<Entry>, repo: Repo, h: HexDigest) returns (r: Option<seq<Problem>>)
    ensures r.None? <==> exists i | 0 <= i < |found| :: RaisesAt(found, i, repo)
    ensures r.Some? ==> forall p | p in r.value :: p.At? && 1 <= p.entry <= |found|
    ensures r.Some? ==> Blamed(r.value, found, |found|, repo, h)
  {
    hide EntryOk, LinkOk, EntryWrong, Raises;
    var problems: seq<Problem> := [];
    var previous: Option<Entry> := None;
    for index := 0 to |found|
      invariant previous == Before(found, index)
      invariant forall i | 0 <= i < index :: !RaisesAt(found, i, repo)
      invariant forall p | p in problems :: p.At? && 1 <= p.entry <= index
      invariant Blamed(problems, found, index, repo, h)
    {
      var more := CheckEntry(found[index], previous, index, repo, h);
      assert RaisesAt(found, index, repo) <==> more.None?;
      if more.None? {
        return None;
      }
      assert more.value == [] <==> SoundAt(found, index, repo, h);
      BlameAdds(problems, more.value, found, index, repo, h);
      problems := problems + Place(more.value, index);
      previous := Some(found[index]);
    }
    return Some(problems);
  }

  lemma BlameAdds(problems: seq<Problem>, more: seq<Wrong>, found: seq<Entry>, index: nat, repo: Repo, h: HexDigest)
    requires index < |found| && Blamed(problems, found, index, repo, h)
    requires forall p | p in problems :: p.At? && 1 <= p.entry <= index
    requires forall w :: w in more <==> EntryWrong(found[index], Before(found, index), index, repo, h, w)
    requires more == [] <==> SoundAt(found, index, repo, h)
    ensures Blamed(problems + Place(more, index), found, index + 1, repo, h)
    ensures forall p | p in problems + Place(more, index) :: p.At? && 1 <= p.entry <= index + 1
  {
    hide EntryWrong, SoundAt, Place;
    var placed := Place(more, index);
    var grown := problems + placed;
    ReportsAdd(problems, placed, index);
    forall i, w | 0 <= i < index + 1
      ensures At(i + 1, w) in grown <==> EntryWrong(found[i], Before(found, i), i, repo, h, w)
    {
      if i < index {
        assert At(i + 1, w) !in placed;
      } else {
        assert At(i + 1, w) !in problems;
        PlacedMembers(more, index, w);
      }
    }
  }

  /** Every way the log fails to be an append-only history; empty means sound. Nothing when the check itself fails. */
  method Check(log: Entry, repo: Repo, expected: nat, h: HexDigest) returns (r: Option<seq<Problem>>)
    ensures r == Some([]) <==>
      && Get(log, "schema") == Some(Str("CandidateDispositionLog.v1"))
      && Entries(log).Some? && |Entries(log).value| == expected
      && Sound(Entries(log).value, repo, h)
    ensures r.None? <==>
      && Entries(log).Some?
      && exists i | 0 <= i < |Entries(log).value| :: RaisesAt(Entries(log).value, i, repo)
    ensures r.Some? ==> (LogSchema in r.value <==> Get(log, "schema") != Some(Str("CandidateDispositionLog.v1")))
    ensures r.Some? ==> (NoEntries in r.value <==> Entries(log).None?)
    ensures r.Some? && Entries(log).Some? ==> forall n, m ::
      Ratchet(n, m) in r.value <==> n == |Entries(log).value| != expected == m
    ensures r.Some? && Entries(log).Some? ==> Blamed(r.value, Entries(log).value, |Entries(log).value|, repo, h)
  {
    hide SoundAt, EntryWrong, RaisesAt;
    var problems: seq<Problem> := [];
    if Get(log, "schema") != Some(LOG_SCHEMA) {
      problems := problems + [LogSchema];
    }
    var entries := Entries(log);
    if entries.None? {
      return Some(problems + [NoEntries]);
    }
    var found := entries.value;
    if |found| != expected {
      problems := problems + [Ratchet(|found|, expected)];
    }
    var more := CheckEntries(found, repo, h);
    if more.None? {
      SomeEntryRaises(found, repo, h);
      return None;
    }
    if more.value != [] {
      assert more.value[0] in more.value && Reported(more.value, more.value[0].entry - 1);
    }
    HeaderReportsNothing(problems, more.value);
    return Some(problems + more.value);
  }

  lemma SomeEntryRaises(found: seq<Entry>, repo: Repo, h: HexDigest)
    requires exists i | 0 <= i < |found| :: RaisesAt(found, i, repo)
    ensures !Sound(found, repo, h)
  {
    var i :| 0 <= i < |found| && RaisesAt(found, i, repo);
    RaisingIsUnsound(found[i], Before(found, i), i, repo, h);
    hide EntryOk, Raises;
    assert !SoundAt(found, i, repo, h);
  }

  /**
   * The check is meant to report problems and not to fail, yet replacing the receipt that a sound
   * log is anchored to by a file whose bytes cannot be parsed makes it fail.
   */
  lemma UnparsableAnchorRaises(found: seq<Entry>, repo: Repo, h: HexDigest, file: File)
    requires Sound(found, repo, h) && found != [] && file.fromBytes.None?
    ensures
      && HasRequired(found[0])
      && RaisesAt(found, 0, repo[TextOf(Field(found[0], "receipt_path")) := file])
  {
    hide FactsOk, ContentOk, DigestOf, MatchesDigest;
    assert SoundAt(found, 0, repo, h);
  }

  lemma HeaderReportsNothing(header: seq<Problem>, more: seq<Problem>)
    requires forall p | p in header :: !p.At?
    ensures forall i: nat :: Reported(header + more, i) <==> Reported(more, i)
  {
    forall i: nat ensures Reported(header + more, i) <==> Reported(more, i) {
      if Reported(more, i) {
        var p :| p in more && p.At? && p.entry == i + 1;
        assert p in header + more;
      }
    }
  }

  lemma ReportsAdd(problems: seq<Problem>, more: seq<Problem>, index: nat)
    requires forall p | p in problems && p.At? :: p.entry <= index
    requires forall p | p in more :: p.At? && p.entry == index + 1
    ensures forall i | 0 <= i < index :: Reported(problems + more, i) <==> Reported(problems, i)
    ensures Reported(problems + more, index) <==> more != []
  {
    forall i | 0 <= i < index ensures Reported(problems + more, i) <==> Reported(problems, i) {
      if Reported(problems, i) {
        var p :| p in problems && p.At? && p.entry == i + 1;
        assert p in problems + more;
      }
    }
    if more != [] {
      assert more[0] in problems + more;
    }
  }

  /** What a newly appended entry must chain to. */
  function NextPreviousDigest(found: seq<Entry>, receipt: File, h: HexDigest): string
    requires receipt.fromBytes.Some?
  {
    if found != [] then DigestOf(found[|found| - 1], h) else ContentDigest(receipt, h)
  }

  /** Appending keeps a log sound exactly when the entry is fit for its place and chained as told. */
  lemma AppendKeepsSound(found: seq<Entry>, entry: Entry, repo: Repo, h: HexDigest)
    requires YieldsHex(h) && Sound(found, repo, h)
    requires EntryOk(entry, |found|, repo, h)
    ensures
      var receipt := repo[TextOf(Field(entry, "receipt_path"))];
      Sound(found + [entry], repo, h)
      <==> Field(entry, "previous_digest") == Str(NextPreviousDigest(found, receipt, h))
  {
    LastLink(found, entry, repo, h);
    GrownSound(found, entry, repo, h);
    NumberIsNoDigest(Field(entry, "previous_digest"));
    var receipt := repo[TextOf(Field(entry, "receipt_path"))];
    NextDigestMatches(found, receipt, h);
    hide Sound, SoundAt, LinkOk, EntryOk, DigestOf, ContentDigest, MatchesDigest, Field;
  }

  /** A sound log with one more fit entry is sound exactly when the last link holds. */
  lemma GrownSound(found: seq<Entry>, entry: Entry, repo: Repo, h: HexDigest)
    requires Sound(found, repo, h) && EntryOk(entry, |found|, repo, h)
    ensures Sound(found + [entry], repo, h) <==> LinkOk(entry, Before(found + [entry], |found|), repo, h)
  {
    hide LinkOk, FactsOk, ReceiptOk, HasRequired;
    var grown := found + [entry];
    forall i | 0 <= i < |found| ensures SoundAt(grown, i, repo, h) {
      assert SoundAt(found, i, repo, h);
    }
    assert SoundAt(grown, |found|, repo, h) <==> LinkOk(entry, Before(grown, |found|), repo, h);
  }

  lemma NextDigestMatches(found: seq<Entry>, receipt: File, h: HexDigest)
    requires YieldsHex(h) && receipt.fromBytes.Some?
    ensures MatchesDigest(NextPreviousDigest(found, receipt, h))
  {
    var text := if found != [] then CanonicalText(found[|found| - 1]) else Encode(receipt.fromBytes.value, false);
    assert NextPreviousDigest(found, receipt, h)[7..] == h(text);
  }

  /** What the last link of a log says, whatever stands before it. */
  lemma LastLink(found: seq<Entry>, entry: Entry, repo: Repo, h: HexDigest)
    requires YieldsHex(h) && EntryOk(entry, |found|, repo, h)
    ensures
      var receipt := repo[TextOf(Field(entry, "receipt_path"))];
      LinkOk(entry, Before(found + [entry], |found|), repo, h)
      <==> TextOf(Field(entry, "previous_digest")) == NextPreviousDigest(found, receipt, h)
  {
    var receipt := repo[TextOf(Field(entry, "receipt_path"))];
    NextDigestMatches(found, receipt, h);
    hide DigestOf, ContentDigest, MatchesDigest, FactsOk;
  }

  lemma NumberIsNoDigest(v: Json)
    ensures MatchesDigest(TextOf(v)) ==> v.Str?
  {
    if v.Num? {
      ReadShow(if v.n < 0 then -v.n else v.n);
      assert "sha256:"[0] == 's';
    }
  }

  /** Both logs tell the same history. */
  ghost predicate SameLog(a: seq<Entry>, b: seq<Entry>) {
    |a| == |b| && forall i | 0 <= i < |a| :: SameDocument(Obj(a[i]), Obj(b[i]))
  }

  ghost predicate LogsCollide(a: seq<Entry>, b: seq<Entry>, h: HexDigest) {
    exists i, j | 0 <= i < |a| && 0 <= j < |b| :: Collides(h, CanonicalText(a[i]), CanonicalText(b[j]))
  }

  predicate WellFormed(found: seq<Entry>) {
    forall i | 0 <= i < |found| :: Dicts(Obj(found[i]))
  }

  lemma EqualDigests(x: Entry, y: Entry, h: HexDigest)
    requires Dicts(Obj(x)) && Dicts(Obj(y)) && DigestOf(x, h) == DigestOf(y, h)
    ensures SameDocument(Obj(x), Obj(y)) || Collides(h, CanonicalText(x), CanonicalText(y))
  {
    EncodingIsCanonical(Obj(x), Obj(y), false);
    assert DigestOf(x, h)[7..] == h(CanonicalText(x));
    assert DigestOf(y, h)[7..] == h(CanonicalText(y));
  }

  /** A scalar field of one document is the same field of any document equal to it. */
  lemma SameGet(x: Entry, y: Entry, key: string)
    requires Dicts(Obj(y)) && SameDocument(Obj(x), Obj(y))
    requires Get(x, key).Some? && !Get(x, key).value.Arr? && !Get(x, key).value.Obj?
    ensures Get(y, key) == Get(x, key)
  {
    GetIsMember(x, key);
    var m := Member(key, Get(x, key).value);
    SameObjectsAreFound(x, y);
    FoundScalar(x, y, m);
    MemberIsGot(y, m);
  }

  lemma {:induction false} GetIsMember(x: Entry, key: string)
    requires Get(x, key).Some?
    ensures Member(key, Get(x, key).value) in x
  {
    if x[0].key != key {
      GetIsMember(x[1..], key);
    }
  }

  lemma {:induction false} MemberIsGot(x: Entry, m: Member)
    requires DistinctKeys(x) && m in x
    ensures Get(x, m.key) == Some(m.value)
  {
    if x[0] != m {
      assert m in x[1..];
      MemberIsGot(x[1..], m);
    }
  }

  lemma SequenceOf(found: seq<Entry>, i: nat, repo: Repo, h: HexDigest)
    requires Sound(found, repo, h) && i < |found|
    ensures HasRequired(found[i]) && AsNumbers(Field(found[i], "sequence")) == Num(i + 1)
    ensures !Field(found[i], "sequence").Arr? && !Field(found[i], "sequence").Obj?
  {
    assert SoundAt(found, i, repo, h);
    hide ReceiptOk, LinkOk;
  }

  /** Sound logs whose last entries are one document have one length: the sequence number gives it. */
  lemma SameHeight(a: seq<Entry>, b: seq<Entry>, repoA: Repo, repoB: Repo, h: HexDigest)
    requires WellFormed(b) && a != [] && b != [] && Sound(a, repoA, h) && Sound(b, repoB, h)
    requires SameDocument(Obj(a[|a| - 1]), Obj(b[|b| - 1]))
    ensures |a| == |b|
  {
    SequenceOf(a, |a| - 1, repoA, h);
    SequenceOf(b, |b| - 1, repoB, h);
    hide Sound, SameDocument, AsNumbers;
    SameGet(a[|a| - 1], b[|b| - 1], "sequence");
  }

  /** Two sound logs ending in entries of one digest are one log, or a collision is in plain sight. */
  lemma TamperEvident(a: seq<Entry>, b: seq<Entry>, repoA: Repo, repoB: Repo, h: HexDigest)
    requires WellFormed(a) && WellFormed(b) && a != [] && b != []
    requires Sound(a, repoA, h) && Sound(b, repoB, h)
    requires DigestOf(a[|a| - 1], h) == DigestOf(b[|b| - 1], h)
    ensures SameLog(a, b) || LogsCollide(a, b, h)
  {
    if !LogsCollide(a, b, h) {
      EntriesAgree(a, b, |a| - 1, |b| - 1, h);
      hide Sound, SameDocument, DigestOf, WellFormed, LogsCollide;
      SameHeight(a, b, repoA, repoB, h);
      forall i | 0 <= i < |a| ensures SameDocument(Obj(a[i]), Obj(b[i])) {
        SameUpTo(a, b, repoA, repoB, h, |a|, i);
      }
    }
  }

  /** The link of a sound entry, carried over to any document equal to it. */
  lemma SameLink(a: seq<Entry>, b: seq<Entry>, repoA: Repo, repoB: Repo, h: HexDigest, k: nat)
    requires Sound(a, repoA, h) && Sound(b, repoB, h)
    requires 0 < k < |a| && k < |b|
    requires Dicts(Obj(b[k])) && SameDocument(Obj(a[k]), Obj(b[k]))
    ensures DigestOf(a[k - 1], h) == DigestOf(b[k - 1], h)
  {
    assert SoundAt(a, k, repoA, h) && SoundAt(b, k, repoB, h);
    NumberIsNoDigest(Field(a[k], "previous_digest"));
    SameGet(a[k], b[k], "previous_digest");
  }

  lemma EntriesAgree(a: seq<Entry>, b: seq<Entry>, m: nat, n: nat, h: HexDigest)
    requires WellFormed(a) && WellFormed(b) && !LogsCollide(a, b, h)
    requires m < |a| && n < |b| && DigestOf(a[m], h) == DigestOf(b[n], h)
    ensures SameDocument(Obj(a[m]), Obj(b[n])) && Dicts(Obj(b[n]))
  {
    hide SameDocument, DigestOf, CanonicalText;
    EqualDigests(a[m], b[n], h);
  }

  lemma {:induction false} SameUpTo(
      a: seq<Entry>, b: seq<Entry>, repoA: Repo, repoB: Repo, h: HexDigest, k: nat, i: nat)
    requires WellFormed(a) && WellFormed(b) && !LogsCollide(a, b, h)
    requires Sound(a, repoA, h) && Sound(b, repoB, h)
    requires i < k <= |a| && k <= |b|
    requires DigestOf(a[k - 1], h) == DigestOf(b[k - 1], h)
    ensures SameDocument(Obj(a[i]), Obj(b[i]))
  {
    EntriesAgree(a, b, k - 1, k - 1, h);
    hide Sound, DigestOf, SameDocument, WellFormed, LogsCollide;
    if i < k - 1 {
      SameLink(a, b, repoA, repoB, h, k - 1);
      SameUpTo(a, b, repoA, repoB, h, k - 1, i);
    }
  }

  /** Rewriting any entry but the last into a different document breaks the chain, or collides with the original. */
  lemma EditBreaksChain(found: seq<Entry>, i: nat, forged: Entry, repo: Repo, later: Repo, h: HexDigest)
    requires WellFormed(found) && Dicts(Obj(forged)) && i + 1 < |found|
    requires Sound(found, repo, h)
    requires !SameDocument(Obj(forged), Obj(found[i]))
    ensures !Sound(found[i := forged], later, h) || Collides(h, CanonicalText(forged), CanonicalText(found[i]))
  {
    var edited := found[i := forged];
    if Sound(edited, later, h) {
      assert SoundAt(edited, i + 1, later, h) && SoundAt(found, i + 1, repo, h);
      assert edited[i + 1] == found[i + 1];
      EqualDigests(forged, found[i], h);
    }
  }

  // ---- history ----------------------------------------------------------------

  function DigestsOf(found: seq<Entry>, h: HexDigest): (r: seq<string>)
    ensures |r| == |found|
    ensures forall i | 0 <= i < |found| :: r[i] == DigestOf(found[i], h)
  {
    seq(|found|, i requires 0 <= i < |found| => DigestOf(found[i], h))
  }

  /** A committed revision of the log file: its entries, or nothing when it cannot be read. */
  type Revision = Option<seq<Entry>>

  /** What `history_violations` finds nothing against: every revision can be read and is a prefix of today's log. */
  ghost predicate Clean(revisions: seq<Revision>, today: seq<Entry>, h: HexDigest) {
    forall r | 0 <= r < |revisions| :: revisions[r].Some? && DigestsOf(revisions[r].value, h) <= DigestsOf(today, h)
  }

  /** The revisions whose entries are not a prefix of today's. */
  method HistoryViolations(revisions: seq<Revision>, today: seq<Entry>, h: HexDigest) returns (problems: seq<nat>)
    ensures problems == [] <==> Clean(revisions, today, h)
    ensures forall r | 0 <= r < |revisions| ::
      r in problems <==> revisions[r].None? || !(DigestsOf(revisions[r].value, h) <= DigestsOf(today, h))
    ensures forall p | p in problems :: p < |revisions|
  {
    problems := [];
    if revisions == [] {
      return;
    }
    var current := DigestsOf(today, h);
    for r := 0 to |revisions|
      invariant forall p | p in problems :: p < r
      invariant forall q | 0 <= q < r ::
        q in problems <==> revisions[q].None? || !(DigestsOf(revisions[q].value, h) <= current)
    {
      match revisions[r] {
        case None => problems := problems + [r];
        case Some(found) =>
          var past := DigestsOf(found, h);
          // `past != current[:len(past)]`, where a slice past the end is the whole list
          var head := if |past| <= |current| then current[..|past|] else current;
          if past != head {
            problems := problems + [r];
          }
      }
    }
    if problems != [] {
      assert problems[0] in problems;
    }
  }

  /** `past` is a prefix of `now`, as documents. */
  ghost predicate GrewFrom(past: seq<Entry>, now: seq<Entry>) {
    |past| <= |now| && SameLog(past, now[..|past|])
  }

  /** A run of commits, each of whose logs the history check found nothing against. */
  ghost predicate CleanRun(run: seq<Revision>, h: HexDigest) {
    forall k | 0 <= k < |run| :: run[k].Some? && Clean(run[..k], run[k].value, h)
  }

  /** A run stays clean exactly while the history check reports nothing against the next commit. */
  lemma CleanRunGrows(run: seq<Revision>, next: seq<Entry>, h: HexDigest)
    requires CleanRun(run, h)
    ensures CleanRun(run + [Some(next)], h) <==> Clean(run, next, h)
  {
    var grown := run + [Some(next)];
    assert grown[..|run|] == run;
    forall k | 0 <= k < |run| ensures grown[..k] == run[..k] {}
  }

  /**
   * Along a run of commits that all passed the history check, every log is a prefix of every later
   * one, or two entries of the two logs collide.
   */
  lemma LogOnlyGrows(run: seq<Revision>, i: nat, j: nat, h: HexDigest)
    requires i <= j < |run| && CleanRun(run, h)
    requires WellFormed(run[i].value) && WellFormed(run[j].value)
    ensures GrewFrom(run[i].value, run[j].value) || LogsCollide(run[i].value, run[j].value, h)
  {
    var past, now := run[i].value, run[j].value;
    assert DigestsOf(past, h) <= DigestsOf(now, h) by {
      if i < j {
        assert run[..j][i] == run[i];
      }
    }
    if !LogsCollide(past, now, h) {
      forall k | 0 <= k < |past| ensures SameDocument(Obj(past[k]), Obj(now[k])) {
        assert DigestsOf(past, h)[k] == DigestsOf(now, h)[k];
        EqualDigests(past[k], now[k], h);
      }
    }
  }
}
