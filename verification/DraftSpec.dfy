/**
 * What a drafted opening assembly is: the census and target state it reads, and the candidate and
 * blockers they determine.
 */
module DraftSpec {
  import opened Wrappers
  import opened Sorting
  import opened Filtering
  import opened OpeningModel
  import Text

  // ---- the inputs ------------------------------------------------------------------------------

  /** A JSON value where a string is looked for: missing or null, a string, or anything else. */
  datatype Field = Null | Str(text: string) | Other

  datatype PartyRow = PartyRow(account: Field, currency: Field)

  datatype InvoiceRow = InvoiceRow(id: Field, party: PartyRow, precision: Option<int>)

  datatype SettlementRow = SettlementRow(kind: Field, id: Field, invoice: Field, source: Field, active: bool)

  datatype PrecisionRow = PrecisionRow(currency: Field, precision: Option<int>)

  datatype Census = Census(
    version: Field, complete: bool, precisions: seq<PrecisionRow>, controls: seq<PartyRow>, lanes: seq<PartyRow>,
    invoices: seq<InvoiceRow>, eligible: seq<Field>, settlements: seq<SettlementRow>)

  /** A declared format: literal text and the two identity fields. */
  datatype Piece = Literal(text: string) | SourceAccount | Currency

  type Template = seq<Piece>

  datatype Derivation = Derivation(namespace: Field, nameFormat: Template)

  datatype Position = Position(fingerprint: Field, mark: Field)

  datatype TargetRow = TargetRow(source: Field, currency: Field, account: Field, fingerprint: Field, mark: Field)

  datatype Target = Target(
    derivation: Option<Derivation>, keyFormat: Template, pristine: Option<map<string, Position>>, rows: seq<TargetRow>)

  /** `uuid5`, as text. */
  type Derive = (string, string) -> string

  const VERSIONS: set<string> := {"sub-billing-opening-census-v2", "sub-billing-opening-census-v3"}

  /** `str(UUID(text)) == text`. */
  predicate CanonicalUuid(s: string) {
    |s| == 36 && forall i | 0 <= i < 36 ::
      if i == 8 || i == 13 || i == 18 || i == 23 then s[i] == '-' else Text.IsHex(s[i])
  }

  predicate IsUuid(f: Field) {
    f.Str? && CanonicalUuid(f.text)
  }

  predicate IsText(f: Field) {
    f.Str? && f.text != ""
  }

  function TextOf(f: Field): string {
    if f.Str? then f.text else ""
  }

  // ---- blockers ----------------------------------------------------------------------------------

  /** The blocker codes, in the alphabetical order of the names they are reported under. */
  datatype Code =
    | CensusPopulationIncomplete
    | CensusRowUnattributed
    | CurrencyPrecisionUndeclared
    | DuplicateCensusInvoice
    | DuplicateCensusSettlement
    | DuplicateEligibleInvoice
    | EligibleInvoiceNotInCensus
    | InvoicePartitionUnmapped
    | InvoicePrecisionMismatch
    | SettlementInvoiceUnmapped
    | SettlementSourceIdUnavailable
    | TargetAccountCollision
    | TargetAccountUnavailable
    | TargetEntryWithoutCensusAccount
    | TargetPositionUnavailable
    | UnsupportedSettlementKind

  function Rank(c: Code): nat {
    match c
    case CensusPopulationIncomplete => 0
    case CensusRowUnattributed => 1
    case CurrencyPrecisionUndeclared => 2
    case DuplicateCensusInvoice => 3
    case DuplicateCensusSettlement => 4
    case DuplicateEligibleInvoice => 5
    case EligibleInvoiceNotInCensus => 6
    case InvoicePartitionUnmapped => 7
    case InvoicePrecisionMismatch => 8
    case SettlementInvoiceUnmapped => 9
    case SettlementSourceIdUnavailable => 10
    case TargetAccountCollision => 11
    case TargetAccountUnavailable => 12
    case TargetEntryWithoutCensusAccount => 13
    case TargetPositionUnavailable => 14
    case UnsupportedSettlementKind => 15
  }

  datatype Blocker = Blocker(code: Code, reference: string, detail: string)

  predicate BlockerLe(a: Blocker, b: Blocker) {
    Rank(a.code) < Rank(b.code)
    || (Rank(a.code) == Rank(b.code) && Text.TupleLe([a.reference, a.detail], [b.reference, b.detail]))
  }

  lemma BlockerLeIsTotalOrder()
    ensures TotalOrder(BlockerLe)
  {
    hide Text.TupleLe;
    Text.TupleLeIsTotalOrder();
    forall x: Blocker, y: Blocker | BlockerLe(x, y) && BlockerLe(y, x) ensures x == y {
      assert [x.reference, x.detail][0] == [y.reference, y.detail][0];
      assert [x.reference, x.detail][1] == [y.reference, y.detail][1];
      RankTellsApart(x.code, y.code);
    }
  }

  lemma RankTellsApart(a: Code, b: Code)
    requires Rank(a) == Rank(b)
    ensures a == b
  {
  }

  // ---- the partition universe --------------------------------------------------------------------

  datatype Section = Controls | Lanes | Invoices

  function SectionName(s: Section): string {
    match s case Controls => "controls" case Lanes => "lanes" case Invoices => "invoices"
  }

  function PartyKey(row: PartyRow): Option<Key> {
    if row.account.Str? && IsText(row.currency) then Some(Key(row.account.text, row.currency.text)) else None
  }

  function KeysOf(rows: seq<PartyRow>): set<Key> {
    set r | r in rows && PartyKey(r).Some? :: PartyKey(r).value
  }

  function Parties(invoices: seq<InvoiceRow>): (r: seq<PartyRow>)
    ensures |r| == |invoices| && forall i | 0 <= i < |r| :: r[i] == invoices[i].party
  {
    seq(|invoices|, i requires 0 <= i < |invoices| => invoices[i].party)
  }

  /** Every account and currency the census mentions. */
  function Universe(c: Census): set<Key> {
    KeysOf(c.controls) + KeysOf(c.lanes) + KeysOf(Parties(c.invoices))
  }

  function Unattributed(section: Section): PartyRow -> Option<Blocker> {
    (row: PartyRow) =>
      if PartyKey(row) == None && section != Invoices
      then Some(Blocker(CensusRowUnattributed, SectionName(section), "account/currency")) else None
  }

  // ---- resolving partitions ----------------------------------------------------------------------

  datatype Setup = Setup(precisions: map<string, int>, explicit: map<Key, TargetRow>, target: Target)

  function PrecisionTable(rows: seq<PrecisionRow>): map<string, int> {
    if rows == [] then map[]
    else
      var r := rows[|rows| - 1];
      PrecisionTable(rows[..|rows| - 1])[TextOf(r.currency) := if r.precision.Some? then r.precision.value else 0]
  }

  function TargetKey(r: TargetRow): Key {
    Key(TextOf(r.source), TextOf(r.currency))
  }

  function TargetTable(rows: seq<TargetRow>): map<Key, TargetRow> {
    if rows == [] then map[] else TargetTable(rows[..|rows| - 1])[TargetKey(rows[|rows| - 1]) := rows[|rows| - 1]]
  }

  function SetupOf(c: Census, t: Target): Setup {
    Setup(PrecisionTable(c.precisions), TargetTable(t.rows), t)
  }

  function Format(template: Template, k: Key): string {
    if template == [] then ""
    else
      (match template[0]
       case Literal(text) => text
       case SourceAccount => k.account
       case Currency => k.currency)
      + Format(template[1..], k)
  }

  function PartitionOf(k: Key, account: string, s: Setup, fingerprint: Field, mark: Field): Partition
    requires k.currency in s.precisions
  {
    Partition(k.account, "source-account:" + k.account, account, k.currency, s.precisions[k.currency],
              Format(s.target.keyFormat, k), TextOf(fingerprint), TextOf(mark))
  }

  function Pristine(t: Target): map<string, Position> {
    if t.pristine.Some? then t.pristine.value else map[]
  }

  /** A partition's target: declared, or derived with a pristine position; otherwise why there is none. */
  function Resolve(k: Key, s: Setup, derive: Derive): Result<Partition, Code> {
    if k.currency !in s.precisions then Err(CurrencyPrecisionUndeclared)
    else if k in s.explicit then
      var row := s.explicit[k];
      Ok(PartitionOf(k, TextOf(row.account), s, row.fingerprint, row.mark))
    else if s.target.derivation == None then Err(TargetAccountUnavailable)
    else if k.currency !in Pristine(s.target) then Err(TargetPositionUnavailable)
    else
      var (d, position) := (s.target.derivation.value, Pristine(s.target)[k.currency]);
      Ok(PartitionOf(k, derive(TextOf(d.namespace), Format(d.nameFormat, k)), s, position.fingerprint, position.mark))
  }

  function Reference(k: Key): string {
    k.account + ":" + k.currency
  }

  function PartitionBlocker(s: Setup, derive: Derive): Key -> Option<Blocker> {
    (k: Key) => match Resolve(k, s, derive) case Ok(_) => None case Err(code) => Some(Blocker(code, Reference(k), ""))
  }

  function Candidates(universe: set<Key>, s: Setup, derive: Derive): map<Key, Partition> {
    map k | k in universe && Resolve(k, s, derive).Ok? :: Resolve(k, s, derive).value
  }

  /** No other candidate has this one's target account. */
  predicate Alone(candidates: map<Key, Partition>, k: Key)
    requires k in candidates
  {
    forall j | j in candidates && candidates[j].account == candidates[k].account :: j == k
  }

  /** One target account backs at most one partition: all that share an account are dropped. */
  function WithoutCollisions(candidates: map<Key, Partition>): map<Key, Partition> {
    map k | k in candidates && Alone(candidates, k) :: candidates[k]
  }

  function AccountsOf(candidates: map<Key, Partition>): set<string> {
    set k | k in candidates :: candidates[k].account
  }

  function Backed(candidates: map<Key, Partition>, account: string): set<Key> {
    set k | k in candidates && candidates[k].account == account
  }

  function CollisionBlocker(candidates: map<Key, Partition>): string -> Option<Blocker> {
    (account: string) =>
      if |Backed(candidates, account)| > 1 then Some(Blocker(TargetAccountCollision, account, "")) else None
  }

  // ---- invoices ------------------------------------------------------------------------------------

  /** What becomes of one item: mapped, blocked, or passed over because it is reported elsewhere. */
  datatype Verdict<T> = Mapped(value: T) | Blocked(blocker: Blocker) | Skipped

  function WithId(id: string): InvoiceRow -> Option<InvoiceRow> {
    (r: InvoiceRow) => if TextOf(r.id) == id then Some(r) else None
  }

  function RowsOf(rows: seq<InvoiceRow>, id: string): seq<InvoiceRow> {
    FilterMap(rows, WithId(id))
  }

  function IdsOf(rows: seq<InvoiceRow>): set<string> {
    set r | r in rows :: TextOf(r.id)
  }

  function DuplicateIds(rows: seq<InvoiceRow>): set<string> {
    set r | r in rows && |RowsOf(rows, TextOf(r.id))| > 1 :: TextOf(r.id)
  }

  function DuplicateBlocker(): string -> Option<Blocker> {
    (id: string) => Some(Blocker(DuplicateCensusInvoice, id, ""))
  }

  function Texts(fields: seq<Field>): (r: seq<string>)
    ensures |r| == |fields| && forall i | 0 <= i < |r| :: r[i] == TextOf(fields[i])
  {
    seq(|fields|, i requires 0 <= i < |fields| => TextOf(fields[i]))
  }

  function EligibleSet(c: Census): set<string> {
    set f | f in c.eligible :: TextOf(f)
  }

  /** One row of a census invoice against the resolved partitions. */
  function RowVerdict(
      id: string, row: InvoiceRow, resolved: map<Key, Partition>, precisions: map<string, int>): Verdict<InvoiceMapping>
  {
    var key := PartyKey(row.party);
    if key == None || key.value !in resolved then Blocked(Blocker(InvoicePartitionUnmapped, id, ""))
    else if key.value.currency !in precisions || row.precision != Some(precisions[key.value.currency])
    then Blocked(Blocker(InvoicePrecisionMismatch, id, ""))
    else Mapped(InvoiceMapping(id, Identity("invoice", id), id))
  }

  function InvoiceVerdict(
      id: string, rows: seq<InvoiceRow>, resolved: map<Key, Partition>, precisions: map<string, int>)
    : Verdict<InvoiceMapping>
  {
    var found := RowsOf(rows, id);
    if found == [] then Blocked(Blocker(EligibleInvoiceNotInCensus, id, ""))
    else if |found| > 1 then Skipped
    else RowVerdict(id, found[0], resolved, precisions)
  }

  function MappedOf<T>(v: Verdict<T>): Option<T> {
    if v.Mapped? then Some(v.value) else None
  }

  function BlockedOf<T>(v: Verdict<T>): Option<Blocker> {
    if v.Blocked? then Some(v.blocker) else None
  }

  function MapInvoice(
      rows: seq<InvoiceRow>, resolved: map<Key, Partition>, precisions: map<string, int>)
    : string -> Option<InvoiceMapping>
  {
    (id: string) => MappedOf(InvoiceVerdict(id, rows, resolved, precisions))
  }

  function BlockInvoice(
      rows: seq<InvoiceRow>, resolved: map<Key, Partition>, precisions: map<string, int>): string -> Option<Blocker>
  {
    (id: string) => BlockedOf(InvoiceVerdict(id, rows, resolved, precisions))
  }

  function InvoicesOf(mappings: seq<InvoiceMapping>): set<string> {
    set m | m in mappings :: m.invoice
  }

  // ---- settlements -----------------------------------------------------------------------------------

  /** An active settlement on an eligible invoice. */
  datatype Scoped = Scoped(key: SettlementKey, invoice: string, source: Field)

  const MAPPABLE_KINDS: set<string> := {"payment", "credit_note"}

  predicate InScope(r: SettlementRow, eligible: set<string>) {
    r.active && TextOf(r.invoice) in eligible
  }

  function Scope(eligible: set<string>): SettlementRow -> Option<Scoped> {
    (r: SettlementRow) =>
      if InScope(r, eligible) then
        Some(Scoped(SettlementKey(TextOf(r.kind), TextOf(r.id)), TextOf(r.invoice), r.source))
      else None
  }

  function WithKey(key: SettlementKey): Scoped -> Option<Scoped> {
    (s: Scoped) => if s.key == key then Some(s) else None
  }

  function CountOf(scoped: seq<Scoped>, key: SettlementKey): nat {
    |FilterMap(scoped, WithKey(key))|
  }

  function KeysIn(scoped: seq<Scoped>): set<SettlementKey> {
    set s | s in scoped :: s.key
  }

  function RepeatBlocker(scoped: seq<Scoped>): SettlementKey -> Option<Blocker> {
    (k: SettlementKey) => if CountOf(scoped, k) > 1 then Some(Blocker(DuplicateCensusSettlement, k.id, "")) else None
  }

  function SettlementVerdict(s: Scoped, scoped: seq<Scoped>, mapped: set<string>): Verdict<DischargeMapping> {
    if CountOf(scoped, s.key) > 1 then Skipped
    else if s.key.kind !in MAPPABLE_KINDS then Blocked(Blocker(UnsupportedSettlementKind, s.key.id, s.key.kind))
    else if s.source == Null then Blocked(Blocker(SettlementSourceIdUnavailable, s.key.id, ""))
    else if s.invoice !in mapped then Blocked(Blocker(SettlementInvoiceUnmapped, s.key.id, ""))
    else Mapped(DischargeMapping(s.key, s.key.kind + ":" + s.key.id, TextOf(s.source)))
  }

  function MapSettlement(scoped: seq<Scoped>, mapped: set<string>): Scoped -> Option<DischargeMapping> {
    (s: Scoped) => MappedOf(SettlementVerdict(s, scoped, mapped))
  }

  function BlockSettlement(scoped: seq<Scoped>, mapped: set<string>): Scoped -> Option<Blocker> {
    (s: Scoped) => BlockedOf(SettlementVerdict(s, scoped, mapped))
  }

  // ---- refusals ----------------------------------------------------------------------------------------

  datatype Refusal = MalformedInput | MalformedTargetState | UnsupportedPopulationVersion

  predicate PrecisionRowOk(r: PrecisionRow) {
    IsText(r.currency) && r.precision.Some?
  }

  predicate PrecisionsOk(rows: seq<PrecisionRow>) {
    && (forall r | r in rows :: PrecisionRowOk(r))
    && forall i, j | 0 <= i < j < |rows| :: TextOf(rows[i].currency) != TextOf(rows[j].currency)
  }

  predicate PartiesOk(rows: seq<PartyRow>) {
    forall r | r in rows :: r.account == Null || IsUuid(r.account)
  }

  predicate InvoicesOk(rows: seq<InvoiceRow>) {
    forall r | r in rows :: IsUuid(r.id)
  }

  predicate EligibleOk(fields: seq<Field>) {
    forall f | f in fields :: IsUuid(f)
  }

  predicate PositionOk(p: Position) {
    IsText(p.fingerprint) && IsText(p.mark)
  }

  predicate TargetRowOk(r: TargetRow) {
    IsUuid(r.source) && IsText(r.currency) && IsUuid(r.account) && IsText(r.fingerprint) && IsText(r.mark)
  }

  /** The closed shape of the target state. */
  predicate TargetOk(t: Target) {
    && (t.derivation.Some? ==> IsUuid(t.derivation.value.namespace) && t.derivation.value.nameFormat != [])
    && t.keyFormat != []
    && (forall currency | currency in Pristine(t) :: currency != "" && PositionOk(Pristine(t)[currency]))
    && forall r | r in t.rows :: TargetRowOk(r)
  }

  predicate DistinctTargets(rows: seq<TargetRow>) {
    forall i, j | 0 <= i < j < |rows| :: TargetKey(rows[i]) != TargetKey(rows[j])
  }

  /** A settlement's invoice is always read; its kind and id only when it is in scope. */
  predicate SettlementRowOk(r: SettlementRow, eligible: set<string>) {
    IsUuid(r.invoice) && (InScope(r, eligible) ==> IsText(r.kind) && IsUuid(r.id))
  }

  predicate SettlementRowsOk(rows: seq<SettlementRow>, eligible: set<string>) {
    forall r | r in rows :: SettlementRowOk(r, eligible)
  }

  /** A source id is read only for a settlement that is alone and of a mappable kind. */
  predicate SourceOk(s: Scoped, scoped: seq<Scoped>) {
    CountOf(scoped, s.key) > 1 || s.key.kind !in MAPPABLE_KINDS || s.source == Null || IsUuid(s.source)
  }

  predicate SourcesOk(scoped: seq<Scoped>) {
    forall s | s in scoped :: SourceOk(s, scoped)
  }

  predicate CensusOk(c: Census) {
    && PrecisionsOk(c.precisions) && InvoicesOk(c.invoices) && EligibleOk(c.eligible)
    && PartiesOk(c.controls) && PartiesOk(c.lanes) && PartiesOk(Parties(c.invoices))
  }

  function InScopeOf(c: Census): seq<Scoped> {
    FilterMap(c.settlements, Scope(EligibleSet(c)))
  }

  /** Whether drafting refuses, and with which code. */
  function RefusalOf(c: Census, t: Target): Option<Refusal> {
    if !TargetOk(t) then Some(MalformedTargetState)
    else if !IsText(c.version) then Some(MalformedInput)
    else if TextOf(c.version) !in VERSIONS then Some(UnsupportedPopulationVersion)
    else if !CensusOk(c) then Some(MalformedInput)
    else if !DistinctTargets(t.rows) then Some(MalformedTargetState)
    else if !SettlementRowsOk(c.settlements, EligibleSet(c)) || !SourcesOk(InScopeOf(c)) then Some(MalformedInput)
    else None
  }

  // ---- the draft ---------------------------------------------------------------------------------------

  datatype Counts = Counts(
    censusInvoices: nat, eligibleInvoices: nat, invoiceMappings: nat, dischargeMappings: nat,
    censusPartitions: nat, partitions: nat, blockers: nat)

  datatype Draft = Draft(assembly: Assembly, blockers: seq<Blocker>, counts: Counts)

  function SortedKeys(keys: set<Key>): (r: seq<Key>)
    ensures (forall k :: k in r <==> k in keys) && NoDuplicates(r) && |r| == |keys|
  {
    KeyLeIsTotalOrder();
    Listing(keys, KeyLe)
  }

  function SortedSettlementKeys(keys: set<SettlementKey>): (r: seq<SettlementKey>)
    ensures (forall k :: k in r <==> k in keys) && NoDuplicates(r)
  {
    SettlementLeIsTotalOrder();
    Listing(keys, SettlementLe)
  }

  function ExtraBlocker(): Key -> Option<Blocker> {
    (k: Key) => Some(Blocker(TargetEntryWithoutCensusAccount, Reference(k), ""))
  }

  function When(condition: bool, b: Blocker): seq<Blocker> {
    if condition then [b] else []
  }

  /** The blockers of the census itself, in the order the sections are read. */
  function CensusBlockers(c: Census): seq<Blocker> {
    When(!c.complete, Blocker(CensusPopulationIncomplete, "capture", ""))
    + FilterMap(Text.InOrder(DuplicateIds(c.invoices)), DuplicateBlocker())
    + When(!NoDuplicates(Texts(c.eligible)), Blocker(DuplicateEligibleInvoice, "eligible_invoice_ids", ""))
    + FilterMap(c.controls, Unattributed(Controls)) + FilterMap(c.lanes, Unattributed(Lanes))
    + FilterMap(Parties(c.invoices), Unattributed(Invoices))
  }

  function CandidatesOf(c: Census, t: Target, derive: Derive): map<Key, Partition> {
    Candidates(Universe(c), SetupOf(c, t), derive)
  }

  function ResolvedOf(c: Census, t: Target, derive: Derive): map<Key, Partition> {
    WithoutCollisions(CandidatesOf(c, t, derive))
  }

  function PartitionBlockers(c: Census, t: Target, derive: Derive): seq<Blocker> {
    FilterMap(SortedKeys(TargetTable(t.rows).Keys - Universe(c)), ExtraBlocker())
    + FilterMap(SortedKeys(Universe(c)), PartitionBlocker(SetupOf(c, t), derive))
    + FilterMap(Text.InOrder(AccountsOf(CandidatesOf(c, t, derive))), CollisionBlocker(CandidatesOf(c, t, derive)))
  }

  function InvoiceMappings(c: Census, t: Target, derive: Derive): seq<InvoiceMapping> {
    FilterMap(
      Text.InOrder(EligibleSet(c)), MapInvoice(c.invoices, ResolvedOf(c, t, derive), PrecisionTable(c.precisions)))
  }

  function InvoiceBlockers(c: Census, t: Target, derive: Derive): seq<Blocker> {
    FilterMap(
      Text.InOrder(EligibleSet(c)), BlockInvoice(c.invoices, ResolvedOf(c, t, derive), PrecisionTable(c.precisions)))
  }

  function DischargeMappings(c: Census, t: Target, derive: Derive): seq<DischargeMapping> {
    FilterMap(InScopeOf(c), MapSettlement(InScopeOf(c), InvoicesOf(InvoiceMappings(c, t, derive))))
  }

  function SettlementBlockers(c: Census, t: Target, derive: Derive): seq<Blocker> {
    FilterMap(SortedSettlementKeys(KeysIn(InScopeOf(c))), RepeatBlocker(InScopeOf(c)))
    + FilterMap(InScopeOf(c), BlockSettlement(InScopeOf(c), InvoicesOf(InvoiceMappings(c, t, derive))))
  }

  function AllBlockers(c: Census, t: Target, derive: Derive): seq<Blocker> {
    CensusBlockers(c) + PartitionBlockers(c, t, derive)
    + InvoiceBlockers(c, t, derive) + SettlementBlockers(c, t, derive)
  }

  function ListedIn(keys: seq<Key>, resolved: map<Key, Partition>): (r: seq<Partition>)
    requires forall k | k in keys :: k in resolved
    ensures |r| == |keys| && forall i | 0 <= i < |r| :: r[i] == resolved[keys[i]]
  {
    seq(|keys|, i requires 0 <= i < |keys| => assert keys[i] in keys; resolved[keys[i]])
  }

  function Listed(resolved: map<Key, Partition>): seq<Partition> {
    ListedIn(SortedKeys(resolved.Keys), resolved)
  }

  predicate InvoiceLe(a: InvoiceMapping, b: InvoiceMapping) {
    Text.Le(a.invoice, b.invoice)
  }

  function AssemblyOf(c: Census, t: Target, derive: Derive): Assembly {
    Assembly(
      Listed(ResolvedOf(c, t, derive)),
      Sort(InvoiceMappings(c, t, derive), InvoiceLe),
      Sort(DischargeMappings(c, t, derive), DischargeLe))
  }

  function DraftOf(c: Census, t: Target, derive: Derive): Draft {
    Draft(
      AssemblyOf(c, t, derive),
      Sort(AllBlockers(c, t, derive), BlockerLe),
      Counts(
        |IdsOf(c.invoices)|, |EligibleSet(c)|, |InvoiceMappings(c, t, derive)|, |DischargeMappings(c, t, derive)|,
        |Universe(c)|, |ResolvedOf(c, t, derive)|, |AllBlockers(c, t, derive)|))
  }
}
