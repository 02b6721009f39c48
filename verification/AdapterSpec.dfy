/**
 * What the rehearsal adapter assembles: the observation and evidence it reads, and what each
 * invoice and settlement becomes.
 */
module AdapterSpec {
  import opened Wrappers
  import opened Sorting
  import opened Filtering
  import opened OpeningModel
  import opened MinorUnits
  import Text

  // ---- the inputs ------------------------------------------------------------------------------

  datatype ObservedInvoice = ObservedInvoice(
    id: string, account: string, currency: string, number: Option<string>, issuedAt: Option<string>,
    total: Dec, residual: Dec, settlements: seq<string>)

  datatype ObservedSettlement = ObservedSettlement(
    key: SettlementKey, invoice: string, source: string, amount: Dec, active: bool)

  datatype ObservedControl = ObservedControl(account: Option<string>, currency: Option<string>)

  /** A row under an identifier; several rows may share one. */
  datatype Row<V> = Row(id: string, value: V)

  datatype Observation = Observation(
    precisions: seq<Row<int>>, eligible: seq<string>, controls: seq<ObservedControl>,
    invoices: seq<ObservedInvoice>, settlements: seq<ObservedSettlement>)

  datatype Sidecar = Sidecar(exclusions: seq<Row<string>>, exceptions: seq<Row<string>>)

  datatype Original = Original(number: string, issuedAt: string, amount: Dec, currency: string, minorUnits: int)

  datatype Effect = Effect(reference: string, kind: string, amount: int)

  datatype Inputs = Inputs(obs: Observation, sidecar: Sidecar, assembly: Assembly)

  // ---- lookups ----------------------------------------------------------------------------------

  function Under<V>(id: string): Row<V> -> Option<V> {
    (r: Row<V>) => if r.id == id then Some(r.value) else None
  }

  function ValuesFor<V>(rows: seq<Row<V>>, id: string): seq<V> {
    FilterMap(rows, Under(id))
  }

  /** What `setdefault` keeps. */
  function FirstFor<V>(rows: seq<Row<V>>, id: string): Option<V> {
    if ValuesFor(rows, id) == [] then None else Some(ValuesFor(rows, id)[0])
  }

  /** What a dictionary comprehension keeps. */
  function LastFor<V>(rows: seq<Row<V>>, id: string): Option<V> {
    if ValuesFor(rows, id) == [] then None else Some(ValuesFor(rows, id)[|ValuesFor(rows, id)| - 1])
  }

  function PrecisionOf(obs: Observation, currency: string): Option<int> {
    LastFor(obs.precisions, currency)
  }

  function InvoiceRows(obs: Observation): (r: seq<Row<ObservedInvoice>>)
    ensures |r| == |obs.invoices| && forall i | 0 <= i < |r| :: r[i] == Row(obs.invoices[i].id, obs.invoices[i])
  {
    seq(|obs.invoices|, i requires 0 <= i < |obs.invoices| => Row(obs.invoices[i].id, obs.invoices[i]))
  }

  function MappingRows(a: Assembly): (r: seq<Row<InvoiceMapping>>)
    ensures |r| == |a.invoices| && forall i | 0 <= i < |r| :: r[i] == Row(a.invoices[i].invoice, a.invoices[i])
  {
    seq(|a.invoices|, i requires 0 <= i < |a.invoices| => Row(a.invoices[i].invoice, a.invoices[i]))
  }

  function Keyed(k: Key): Partition -> Option<Partition> {
    (p: Partition) => if PartitionKey(p) == k then Some(p) else None
  }

  /** The declared partition of a source account in a currency. */
  function PartitionFor(a: Assembly, k: Key): Option<Partition> {
    var found := FilterMap(a.partitions, Keyed(k));
    if found == [] then None else Some(found[|found| - 1])
  }

  function MappingFor(a: Assembly, id: string): Option<InvoiceMapping> {
    FirstFor(MappingRows(a), id)
  }

  function InvoiceKey(inv: ObservedInvoice): Key {
    Key(inv.account, inv.currency)
  }

  // ---- originals -----------------------------------------------------------------------------------

  /** An original for the one row of an eligible, mapped and unexceptional invoice, in every particular. */
  predicate OriginalOk(r: Row<Original>, x: Inputs) {
    var rows := ValuesFor(InvoiceRows(x.obs), r.id);
    && |rows| == 1
    && r.id in x.obs.eligible
    && MappingFor(x.assembly, r.id).Some?
    && FirstFor(x.sidecar.exclusions, r.id) == None
    && ValuesFor(x.sidecar.exceptions, r.id) == []
    && PartitionFor(x.assembly, InvoiceKey(rows[0])).Some?
    && Some(r.value.number) == rows[0].number
    && Some(r.value.issuedAt) == rows[0].issuedAt
    && Value(r.value.amount) == Value(rows[0].total)
    && r.value.currency == rows[0].currency
    && Some(r.value.minorUnits) == PrecisionOf(x.obs, rows[0].currency)
  }

  predicate DistinctIds<V>(rows: seq<Row<V>>) {
    forall i, j | 0 <= i < j < |rows| :: rows[i].id != rows[j].id
  }

  predicate OriginalsOk(originals: seq<Row<Original>>, x: Inputs) {
    DistinctIds(originals) && forall r | r in originals :: OriginalOk(r, x)
  }

  // ---- historical discharges ---------------------------------------------------------------------

  function ByReference(reference: string): DischargeMapping -> Option<DischargeMapping> {
    (m: DischargeMapping) => if m.reference == reference then Some(m) else None
  }

  function BySettlement(key: SettlementKey): DischargeMapping -> Option<DischargeMapping> {
    (m: DischargeMapping) => if m.settlement == key then Some(m) else None
  }

  function Observed(key: SettlementKey): ObservedSettlement -> Option<ObservedSettlement> {
    (s: ObservedSettlement) => if s.key == key then Some(s) else None
  }

  const EFFECT_KINDS: set<string> := {"payment", "credit_note"}

  /** The one declared mapping an effect's reference names, when its settlement key is declared once too. */
  function MappingOf(e: Effect, a: Assembly): Option<DischargeMapping> {
    var named := FilterMap(a.discharges, ByReference(e.reference));
    if |named| == 1 && |FilterMap(a.discharges, BySettlement(named[0].settlement))| == 1 then Some(named[0]) else None
  }

  /** The one observed settlement an effect stands for. */
  function SettlementOf(e: Effect, x: Inputs): Option<ObservedSettlement> {
    var m := MappingOf(e, x.assembly);
    if m == None then None
    else
      var observed := FilterMap(x.obs.settlements, Observed(m.value.settlement));
      if |observed| == 1 then Some(observed[0]) else None
  }

  /**
   * An effect of an invoice: its settlement is active, the invoice's own, of the declared source,
   * and exactly its amount.
   */
  predicate EffectOk(e: Effect, inv: ObservedInvoice, x: Inputs) {
    var (m, s) := (MappingOf(e, x.assembly), SettlementOf(e, x));
    && m.Some? && s.Some?
    && s.value.active && s.value.invoice == inv.id
    && s.value.key.id in inv.settlements && s.value.source == m.value.source
    && e.kind == s.value.key.kind && e.kind in EFFECT_KINDS
    && Minor(s.value.amount, PrecisionOf(x.obs, inv.currency)) == Some(e.amount)
  }

  /** An effect together with the invoice it is claimed for. */
  datatype Claim = Claim(invoice: string, effect: Effect)

  function ClaimsOf(id: string, effects: seq<Effect>): (r: seq<Claim>)
    ensures |r| == |effects| && forall i | 0 <= i < |r| :: r[i] == Claim(id, effects[i])
  {
    seq(|effects|, i requires 0 <= i < |effects| => Claim(id, effects[i]))
  }

  function AllClaims(histories: seq<Row<seq<Effect>>>): seq<Claim> {
    if histories == [] then []
    else
      var last := histories[|histories| - 1];
      AllClaims(histories[..|histories| - 1]) + ClaimsOf(last.id, last.value)
  }

  function References(claims: seq<Claim>): (r: seq<string>)
    ensures |r| == |claims| && forall i | 0 <= i < |r| :: r[i] == claims[i].effect.reference
  {
    seq(|claims|, i requires 0 <= i < |claims| => claims[i].effect.reference)
  }

  predicate HasOriginal(originals: seq<Row<Original>>, id: string) {
    exists r :: r in originals && r.id == id
  }

  /** A history: its invoice is observed and has an accepted original, and every effect stands up. */
  predicate HistoryOk(h: Row<seq<Effect>>, originals: seq<Row<Original>>, x: Inputs) {
    var inv := LastFor(InvoiceRows(x.obs), h.id);
    inv.Some? && HasOriginal(originals, h.id) && forall e | e in h.value :: EffectOk(e, inv.value, x)
  }

  predicate HistoriesOk(histories: seq<Row<seq<Effect>>>, originals: seq<Row<Original>>, x: Inputs) {
    && DistinctIds(histories)
    && (forall h | h in histories :: HistoryOk(h, originals, x))
    && NoDuplicates(References(AllClaims(histories)))
  }

  // ---- dispositions and receivables ----------------------------------------------------------------

  datatype Status = Eligible | Excluded | Blocking

  datatype Disposition = Disposition(
    identity: Identity, partition: Partition, status: Status, reason: string, residual: int)

  datatype Receivable = Receivable(
    identity: Identity, partition: Partition, key: string, original: Option<Original>, history: seq<Effect>,
    residual: int)

  datatype Standing = Standing(status: Status, reason: string)

  const PRECISION_MISMATCH := "currency_precision_mismatch"

  /** Blocking before excluded before eligible; anything else is blocking as unclassified. */
  function StandingOf(id: string, x: Inputs): Standing {
    var codes := ValuesFor(x.sidecar.exceptions, id);
    var exclusion := FirstFor(x.sidecar.exclusions, id);
    if codes != [] then SortKeeps(codes, Text.Le); Standing(Blocking, Sort(codes, Text.Le)[0])
    else if exclusion.Some? then Standing(Excluded, exclusion.value)
    else if id in x.obs.eligible then Standing(Eligible, "eligible")
    else Standing(Blocking, "unclassified")
  }

  function ResidualOf(inv: ObservedInvoice, x: Inputs): Option<int> {
    Minor(inv.residual, PrecisionOf(x.obs, inv.currency))
  }

  /** A residual that does not scale exactly blocks the invoice, whatever it was before. */
  function FinalStanding(inv: ObservedInvoice, x: Inputs): Standing {
    if ResidualOf(inv, x) == None then Standing(Blocking, PRECISION_MISMATCH) else StandingOf(inv.id, x)
  }

  function ResidualOrZero(inv: ObservedInvoice, x: Inputs): int {
    if ResidualOf(inv, x) == None then 0 else ResidualOf(inv, x).value
  }

  function OwnIdentity(id: string): Identity {
    Identity("invoice", id)
  }

  function IdentityOf(inv: ObservedInvoice, x: Inputs): Identity {
    var mapping := MappingFor(x.assembly, inv.id);
    if FinalStanding(inv, x).status == Eligible && mapping.Some? then mapping.value.identity else OwnIdentity(inv.id)
  }

  function DispositionOf(x: Inputs): ObservedInvoice -> Option<Disposition> {
    (inv: ObservedInvoice) =>
      var partition := PartitionFor(x.assembly, InvoiceKey(inv));
      if partition == None then None
      else
        var standing := FinalStanding(inv, x);
        Some(Disposition(IdentityOf(inv, x), partition.value, standing.status, standing.reason, ResidualOrZero(inv, x)))
  }

  /** An eligible invoice in a mapped partition. */
  predicate Receives(inv: ObservedInvoice, x: Inputs) {
    PartitionFor(x.assembly, InvoiceKey(inv)).Some? && FinalStanding(inv, x).status == Eligible
  }

  datatype Evidence = Evidence(originals: seq<Row<Original>>, histories: seq<Row<seq<Effect>>>)

  function HistoryFor(e: Evidence, id: string): seq<Effect> {
    if FirstFor(e.histories, id).Some? then FirstFor(e.histories, id).value else []
  }

  function ReceivableOf(x: Inputs, e: Evidence): ObservedInvoice -> Option<Receivable> {
    (inv: ObservedInvoice) =>
      var mapping := MappingFor(x.assembly, inv.id);
      if !Receives(inv, x) || mapping == None then None
      else Some(Receivable(mapping.value.identity, PartitionFor(x.assembly, InvoiceKey(inv)).value, mapping.value.key,
                           FirstFor(e.originals, inv.id), HistoryFor(e, inv.id), ResidualOrZero(inv, x)))
  }

  predicate DispositionLe(a: Disposition, b: Disposition) {
    Text.TupleLe(
      [a.partition.sourceKey, a.identity.kind, a.identity.key],
      [b.partition.sourceKey, b.identity.kind, b.identity.key])
  }

  predicate ReceivableLe(a: Receivable, b: Receivable) {
    Text.Le(a.key, b.key)
  }

  // ---- what is left unmapped -------------------------------------------------------------------------

  predicate InPartition(inv: ObservedInvoice, a: Assembly) {
    PartitionFor(a, InvoiceKey(inv)).Some?
  }

  predicate ControlUnmapped(c: ObservedControl, a: Assembly) {
    c.account.Some? && c.currency.Some? && PartitionFor(a, Key(c.account.value, c.currency.value)) == None
  }

  function AccountsOutside(invoices: seq<ObservedInvoice>, a: Assembly): set<string> {
    set inv | inv in invoices && !InPartition(inv, a) :: inv.account
  }

  function InvoicesOutside(invoices: seq<ObservedInvoice>, a: Assembly): set<string> {
    set inv | inv in invoices && !InPartition(inv, a) :: inv.id
  }

  function ControlsOutside(controls: seq<ObservedControl>, a: Assembly): set<string> {
    set c | c in controls && ControlUnmapped(c, a) :: c.account.value
  }

  function EligibleUnmapped(invoices: seq<ObservedInvoice>, x: Inputs): set<string> {
    set inv | inv in invoices && Receives(inv, x) && MappingFor(x.assembly, inv.id) == None :: inv.id
  }

  predicate IsDeclared(a: Assembly, key: SettlementKey) {
    exists m :: m in a.discharges && m.settlement == key
  }

  predicate SettlementUnmapped(s: ObservedSettlement, x: Inputs) {
    s.active && s.invoice in x.obs.eligible && !IsDeclared(x.assembly, s.key)
  }

  function SettlementsOutside(settlements: seq<ObservedSettlement>, x: Inputs): set<string> {
    set s | s in settlements && SettlementUnmapped(s, x) :: s.key.id
  }

  function UnmappedAccounts(x: Inputs): set<string> {
    AccountsOutside(x.obs.invoices, x.assembly) + ControlsOutside(x.obs.controls, x.assembly)
  }

  function UnmappedInvoices(x: Inputs): set<string> {
    InvoicesOutside(x.obs.invoices, x.assembly) + EligibleUnmapped(x.obs.invoices, x)
  }

  function UnmappedSettlements(x: Inputs): set<string> {
    SettlementsOutside(x.obs.settlements, x)
  }

  // ---- the outcome -----------------------------------------------------------------------------------

  datatype BlockerCode =
    | CurrencyPrecisionMismatch
    | UnmappedSourceAccount
    | UnmappedSourceInvoice
    | UnmappedSourceSettlement

  datatype AdapterBlocker = AdapterBlocker(code: BlockerCode, reference: string, partitionKey: Option<string>)

  datatype Population = Population(total: nat, eligible: nat, excluded: nat, blocking: nat)

  datatype Outcome = Outcome(
    dispositions: seq<Disposition>, receivables: seq<Receivable>, used: seq<InvoiceMapping>, population: Population,
    blockers: seq<AdapterBlocker>, unmappedAccounts: set<string>, unmappedInvoices: set<string>,
    unmappedSettlements: set<string>)

  datatype Refusal = OriginalDocumentMappingInvalid | HistoricalDischargeMappingInvalid

  function UsedMapping(x: Inputs): ObservedInvoice -> Option<InvoiceMapping> {
    (inv: ObservedInvoice) => if Receives(inv, x) then MappingFor(x.assembly, inv.id) else None
  }

  /**
   * The blockers of one invoice: a residual that does not scale, or an eligible invoice nobody
   * mapped; never both.
   */
  function InvoiceBlocker(x: Inputs): ObservedInvoice -> Option<AdapterBlocker> {
    (inv: ObservedInvoice) =>
      var partition := PartitionFor(x.assembly, InvoiceKey(inv));
      if ResidualOf(inv, x) == None then
        var key := if partition.Some? then Some(partition.value.sourceKey) else None;
        Some(AdapterBlocker(CurrencyPrecisionMismatch, inv.id, key))
      else if Receives(inv, x) && MappingFor(x.assembly, inv.id) == None then
        Some(AdapterBlocker(UnmappedSourceInvoice, inv.id, Some(partition.value.sourceKey)))
      else None
  }

  function Global(code: BlockerCode): string -> Option<AdapterBlocker> {
    (reference: string) => Some(AdapterBlocker(code, reference, None))
  }

  function WithStatus(status: Status): Disposition -> Option<Disposition> {
    (d: Disposition) => if d.status == status then Some(d) else None
  }

  function CountStatus(ds: seq<Disposition>, status: Status): nat {
    |FilterMap(ds, WithStatus(status))|
  }

  function PopulationOf(ds: seq<Disposition>): Population {
    Population(|ds|, CountStatus(ds, Eligible), CountStatus(ds, Excluded), CountStatus(ds, Blocking))
  }

  function BlockersOf(x: Inputs): seq<AdapterBlocker> {
    FilterMap(Text.InOrder(UnmappedAccounts(x)), Global(UnmappedSourceAccount))
    + FilterMap(x.obs.invoices, InvoiceBlocker(x))
    + FilterMap(Text.InOrder(UnmappedSettlements(x)), Global(UnmappedSourceSettlement))
  }

  function OutcomeOf(x: Inputs, e: Evidence): Outcome {
    var dispositions := Sort(FilterMap(x.obs.invoices, DispositionOf(x)), DispositionLe);
    Outcome(
      dispositions,
      Sort(FilterMap(x.obs.invoices, ReceivableOf(x, e)), ReceivableLe),
      FilterMap(x.obs.invoices, UsedMapping(x)),
      PopulationOf(dispositions), BlockersOf(x), UnmappedAccounts(x), UnmappedInvoices(x), UnmappedSettlements(x))
  }
}
