/**
 * Settlements are consumed at most once, every invoice is accounted for once, and only exact
 * residuals become receivables.
 */
module AdapterProperties {
  import opened Wrappers
  import opened Sorting
  import opened Filtering
  import opened OpeningModel
  import opened MinorUnits
  import opened AdapterSpec
  import Text

  // ---- settlements consumed ---------------------------------------------------------------------

  /** An effect that stands up names one declared mapping, declared once, and one observed settlement. */
  lemma EffectNames(e: Effect, x: Inputs)
    requires SettlementOf(e, x).Some?
    ensures MappingOf(e, x.assembly).Some?
    ensures
      var (m, s) := (MappingOf(e, x.assembly).value, SettlementOf(e, x).value);
      && m.reference == e.reference && m.settlement == s.key && s in x.obs.settlements
      && FilterMap(x.assembly.discharges, BySettlement(s.key)) == [m]
  {
    var m := MappingOf(e, x.assembly).value;
    var (named, keyed) := (FilterMap(x.assembly.discharges, ByReference(e.reference)),
      FilterMap(x.assembly.discharges, BySettlement(m.settlement)));
    var observed := FilterMap(x.obs.settlements, Observed(m.settlement));
    hide FilterMap;
    assert m in named && observed[0] in observed && keyed[0] in keyed;
    FilterMapMembers(x.assembly.discharges, ByReference(e.reference), m);
    FilterMapMembers(x.assembly.discharges, BySettlement(m.settlement), m);
    FilterMapMembers(x.obs.settlements, Observed(m.settlement), observed[0]);
    assert m in keyed;
  }

  /** Two effects on one settlement have one reference. */
  lemma SameSettlementSameReference(d: Effect, e: Effect, x: Inputs)
    requires SettlementOf(d, x).Some? && SettlementOf(e, x).Some?
    requires SettlementOf(d, x).value.key == SettlementOf(e, x).value.key
    ensures d.reference == e.reference
  {
    hide SettlementOf, MappingOf, FilterMap;
    EffectNames(d, x);
    EffectNames(e, x);
    assert [MappingOf(d, x.assembly).value][0] == [MappingOf(e, x.assembly).value][0];
  }

  /** The invoice a claim names is observed, and the claimed effect stands up against it. */
  predicate Stands(claim: Claim, x: Inputs) {
    var inv := LastFor(InvoiceRows(x.obs), claim.invoice);
    inv.Some? && EffectOk(claim.effect, inv.value, x)
  }

  lemma {:induction false} ClaimsStand(histories: seq<Row<seq<Effect>>>, originals: seq<Row<Original>>, x: Inputs)
    requires forall h | h in histories :: HistoryOk(h, originals, x)
    ensures forall claim | claim in AllClaims(histories) :: Stands(claim, x)
  {
    hide HistoryOk, Stands;
    if histories != [] {
      var (rest, last) := (histories[..|histories| - 1], histories[|histories| - 1]);
      assert histories == rest + [last] && last in histories;
      ClaimsStand(rest, originals, x);
      HistoryStands(last, originals, x);
    }
  }

  lemma HistoryStands(h: Row<seq<Effect>>, originals: seq<Row<Original>>, x: Inputs)
    requires HistoryOk(h, originals, x)
    ensures forall claim | claim in ClaimsOf(h.id, h.value) :: Stands(claim, x)
  {
    hide LastFor, EffectOk;
    var claims := ClaimsOf(h.id, h.value);
    forall i | 0 <= i < |claims| ensures Stands(claims[i], x) {
      assert h.value[i] in h.value;
    }
  }

  lemma LastIsOwn(obs: Observation, id: string)
    requires LastFor(InvoiceRows(obs), id).Some?
    ensures LastFor(InvoiceRows(obs), id).value.id == id && LastFor(InvoiceRows(obs), id).value in obs.invoices
  {
    var rows := InvoiceRows(obs);
    var found := ValuesFor(rows, id);
    var inv := found[|found| - 1];
    assert inv in found;
    FilterMapMembers(rows, Under(id), inv);
    var r :| r in rows && Under(id)(r) == Some(inv);
  }

  /** The settlements the claims stand for, in order. */
  function Consumed(claims: seq<Claim>, x: Inputs): (r: seq<ObservedSettlement>)
    requires forall i | 0 <= i < |claims| :: SettlementOf(claims[i].effect, x).Some?
    ensures |r| == |claims| && forall i | 0 <= i < |r| :: r[i] == SettlementOf(claims[i].effect, x).value
  {
    seq(|claims|, i requires 0 <= i < |claims| => SettlementOf(claims[i].effect, x).value)
  }

  /** A settlement's amount in the minor units of its own invoice's currency, if it is exactly some number of them. */
  function MinorOf(s: ObservedSettlement, x: Inputs): Option<int> {
    var inv := LastFor(InvoiceRows(x.obs), s.invoice);
    if inv == None then None else Minor(s.amount, PrecisionOf(x.obs, inv.value.currency))
  }

  function Total(s: seq<int>): int {
    if s == [] then 0 else Total(s[..|s| - 1]) + s[|s| - 1]
  }

  function Amounts(claims: seq<Claim>): (r: seq<int>)
    ensures |r| == |claims| && forall i | 0 <= i < |r| :: r[i] == claims[i].effect.amount
  {
    seq(|claims|, i requires 0 <= i < |claims| => claims[i].effect.amount)
  }

  function Minors(settlements: seq<ObservedSettlement>, x: Inputs): (r: seq<int>)
    requires forall i | 0 <= i < |settlements| :: MinorOf(settlements[i], x).Some?
    ensures |r| == |settlements| && forall i | 0 <= i < |r| :: Some(r[i]) == MinorOf(settlements[i], x)
  {
    seq(|settlements|, i requires 0 <= i < |settlements| => MinorOf(settlements[i], x).value)
  }

  lemma ClaimFacts(claim: Claim, x: Inputs)
    requires Stands(claim, x)
    ensures
      && SettlementOf(claim.effect, x).Some?
      && var s := SettlementOf(claim.effect, x).value;
      && s in x.obs.settlements && s.active && s.invoice == claim.invoice
      && MinorOf(s, x) == Some(claim.effect.amount)
  {
    LastIsOwn(x.obs, claim.invoice);
    EffectNames(claim.effect, x);
    hide LastFor, Minor, PrecisionOf, MappingOf, SettlementOf;
  }

  /**
   * Accepted historical effects and observed settlements correspond one to one: each effect is exactly the amount of
   * an active settlement of its own invoice, no two effects share a settlement, and so the totals agree.
   */
  lemma SettlementsAreConsumedOnce(x: Inputs, e: Evidence)
    requires HistoriesOk(e.histories, e.originals, x)
    ensures
      var claims := AllClaims(e.histories);
      && (forall i | 0 <= i < |claims| :: SettlementOf(claims[i].effect, x).Some?)
      && var consumed := Consumed(claims, x);
      && (forall i | 0 <= i < |claims| ::
            consumed[i] in x.obs.settlements && consumed[i].active && consumed[i].invoice == claims[i].invoice
            && MinorOf(consumed[i], x) == Some(claims[i].effect.amount))
      && (forall i, j | 0 <= i < j < |claims| :: consumed[i].key != consumed[j].key)
      && Total(Amounts(claims)) == Total(Minors(consumed, x))
  {
    hide HistoryOk, SettlementOf, AllClaims, MinorOf, Total, Stands;
    var claims := AllClaims(e.histories);
    ClaimsStand(e.histories, e.originals, x);
    forall i | 0 <= i < |claims| ensures
      && SettlementOf(claims[i].effect, x).Some?
      && var s := SettlementOf(claims[i].effect, x).value;
      && s in x.obs.settlements && s.active && s.invoice == claims[i].invoice
      && MinorOf(s, x) == Some(claims[i].effect.amount)
    {
      assert claims[i] in claims;
      ClaimFacts(claims[i], x);
    }
    var consumed := Consumed(claims, x);
    forall i, j | 0 <= i < j < |claims| ensures consumed[i].key != consumed[j].key {
      assert References(claims)[i] != References(claims)[j];
      if consumed[i].key == consumed[j].key {
        SameSettlementSameReference(claims[i].effect, claims[j].effect, x);
      }
    }
    assert Amounts(claims) == Minors(consumed, x);
  }

  // ---- dispositions -----------------------------------------------------------------------------------

  /** The observed invoices in a declared partition. */
  function Covered(x: Inputs): ObservedInvoice -> Option<ObservedInvoice> {
    (inv: ObservedInvoice) => if InPartition(inv, x.assembly) then Some(inv) else None
  }

  predicate IsExcepted(id: string, x: Inputs) {
    exists r :: r in x.sidecar.exceptions && r.id == id
  }

  predicate IsExcluded(id: string, x: Inputs) {
    exists r :: r in x.sidecar.exclusions && r.id == id
  }

  /** The residual is a whole number of its currency's minor units, within the guards. */
  ghost predicate Scales(inv: ObservedInvoice, x: Inputs) {
    var p := PrecisionOf(x.obs, inv.currency);
    Guarded(inv.residual, p) && exists m :: IsExact(inv.residual, p.value, m)
  }

  /** `v` stands in the first row under `id`. */
  ghost predicate IsFirst<V>(rows: seq<Row<V>>, id: string, v: V) {
    exists k :: 0 <= k < |rows| && rows[k] == Row(id, v) && forall j | 0 <= j < k :: rows[j].id != id
  }

  predicate IsMapped(id: string, x: Inputs) {
    exists m :: m in x.assembly.invoices && m.invoice == id
  }

  /** Why it is disposed so, and under which identity: the first mapping's when eligible and mapped, else its own. */
  ghost predicate Explains(d: Disposition, inv: ObservedInvoice, x: Inputs) {
    var id := inv.id;
    && (d.status == Excluded ==> IsFirst(x.sidecar.exclusions, id, d.reason))
    && (d.status == Eligible ==> d.reason == "eligible")
    && (Scales(inv, x) && !IsExcepted(id, x) && !IsExcluded(id, x) && id !in x.obs.eligible ==>
          d.reason == "unclassified")
    && (d.status == Eligible && IsMapped(id, x) ==>
          exists m :: IsFirst(MappingRows(x.assembly), id, m) && d.identity == m.identity)
    && (d.status != Eligible || !IsMapped(id, x) ==> d.identity == Identity("invoice", id))
  }

  lemma {:induction false} FirstForIsFirst<V>(rows: seq<Row<V>>, id: string)
    ensures FirstFor(rows, id).None? <==> forall r | r in rows :: r.id != id
    ensures FirstFor(rows, id).Some? ==> IsFirst(rows, id, FirstFor(rows, id).value)
  {
    if rows != [] {
      var (rest, last) := (rows[..|rows| - 1], rows[|rows| - 1]);
      FirstForIsFirst(rest, id);
      assert rows == rest + [last];
      if FirstFor(rest, id).Some? {
        var v := FirstFor(rest, id).value;
        var k :| 0 <= k < |rest| && rest[k] == Row(id, v) && forall j | 0 <= j < k :: rest[j].id != id;
        assert rows[k] == Row(id, v);
      } else if last.id == id {
        assert rows[|rest|] == Row(id, last.value);
      }
    }
  }

  lemma MappingIsFirst(id: string, x: Inputs)
    ensures MappingFor(x.assembly, id).Some? <==> IsMapped(id, x)
    ensures MappingFor(x.assembly, id).Some?
      ==> IsFirst(MappingRows(x.assembly), id, MappingFor(x.assembly, id).value)
  {
    var rows := MappingRows(x.assembly);
    FirstForIsFirst(rows, id);
    hide FirstFor, IsFirst;
    forall m | m in x.assembly.invoices && m.invoice == id ensures exists r :: r in rows && r.id == id {
      var i :| 0 <= i < |x.assembly.invoices| && x.assembly.invoices[i] == m;
      assert rows[i] in rows;
    }
    if r :| r in rows && r.id == id {
      assert r.value in x.assembly.invoices;
    }
  }

  /** The disposition an invoice must have: blocking before excluded before eligible, and exactness over all. */
  ghost predicate Describes(d: Disposition, inv: ObservedInvoice, x: Inputs) {
    var id := inv.id;
    && Explains(d, inv, x)
    && Some(d.partition) == PartitionFor(x.assembly, InvoiceKey(inv))
    && (d.status == Eligible <==> Scales(inv, x) && !IsExcepted(id, x) && !IsExcluded(id, x) && id in x.obs.eligible)
    && (d.status == Excluded <==> Scales(inv, x) && !IsExcepted(id, x) && IsExcluded(id, x))
    && (d.status == Blocking <==>
          !Scales(inv, x) || IsExcepted(id, x) || (!IsExcluded(id, x) && id !in x.obs.eligible))
    && (Scales(inv, x) ==> IsExact(inv.residual, PrecisionOf(x.obs, inv.currency).value, d.residual))
    && (!Scales(inv, x) ==> d.residual == 0 && d.reason == "currency_precision_mismatch")
    && (Scales(inv, x) && IsExcepted(id, x) ==>
          (exists r :: r in x.sidecar.exceptions && r == Row(id, d.reason))
          && forall r | r in x.sidecar.exceptions && r.id == id :: Text.Le(d.reason, r.value))
  }

  lemma ResidualScales(inv: ObservedInvoice, x: Inputs)
    ensures ResidualOf(inv, x).Some? <==> Scales(inv, x)
    ensures ResidualOf(inv, x).Some?
      ==> IsExact(inv.residual, PrecisionOf(x.obs, inv.currency).value, ResidualOf(inv, x).value)
  {
    hide Minor, IsExact, PrecisionOf;
    var p := PrecisionOf(x.obs, inv.currency);
    if ResidualOf(inv, x).Some? {
      MinorIsExact(inv.residual, p, ResidualOf(inv, x).value);
    }
    if Scales(inv, x) {
      var m :| IsExact(inv.residual, p.value, m);
      MinorIsExact(inv.residual, p, m);
    }
  }

  lemma ValueMember<V>(rows: seq<Row<V>>, id: string, v: V)
    ensures v in ValuesFor(rows, id) <==> Row(id, v) in rows
  {
    FilterMapMembers(rows, Under(id), v);
    if Row(id, v) in rows {
      assert Under(id)(Row(id, v)) == Some(v);
    }
  }

  lemma ValuesForMembers<V>(rows: seq<Row<V>>, id: string)
    ensures forall v :: v in ValuesFor(rows, id) <==> Row(id, v) in rows
    ensures ValuesFor(rows, id) != [] <==> exists r :: r in rows && r.id == id
  {
    hide ValuesFor;
    forall v ensures v in ValuesFor(rows, id) <==> Row(id, v) in rows {
      ValueMember(rows, id, v);
    }
    if ValuesFor(rows, id) != [] {
      ValueMember(rows, id, ValuesFor(rows, id)[0]);
    }
    forall r | r in rows && r.id == id ensures ValuesFor(rows, id) != [] {
      ValueMember(rows, id, r.value);
      assert r == Row(id, r.value);
    }
  }

  lemma LeastCode(codes: seq<string>)
    requires codes != []
    ensures |Sort(codes, Text.Le)| == |codes| && Sort(codes, Text.Le)[0] in codes
    ensures forall c | c in codes :: Text.Le(Sort(codes, Text.Le)[0], c)
  {
    hide Text.Le;
    Text.LeIsTotalOrder();
    SortSorts(codes, Text.Le);
    SortPermutes(codes, Text.Le);
    var s := Sort(codes, Text.Le);
    assert s[0] in s;
    forall c | c in codes ensures Text.Le(s[0], c) {
      assert c in s;
      var i :| 0 <= i < |s| && s[i] == c;
      assert Text.Le(s[0], s[0]);
    }
  }

  lemma StandingMeans(id: string, x: Inputs)
    ensures
      var s := StandingOf(id, x);
      && (s.status == Eligible <==> !IsExcepted(id, x) && !IsExcluded(id, x) && id in x.obs.eligible)
      && (s.status == Excluded <==> !IsExcepted(id, x) && IsExcluded(id, x))
      && (s.status == Blocking <==> IsExcepted(id, x) || (!IsExcluded(id, x) && id !in x.obs.eligible))
      && (IsExcepted(id, x) ==>
            Row(id, s.reason) in x.sidecar.exceptions
            && forall r | r in x.sidecar.exceptions && r.id == id :: Text.Le(s.reason, r.value))
      && (s.status == Excluded ==> IsFirst(x.sidecar.exclusions, id, s.reason))
      && (s.status == Eligible ==> s.reason == "eligible")
      && (s.status == Blocking && !IsExcepted(id, x) ==> s.reason == "unclassified")
  {
    var codes := ValuesFor(x.sidecar.exceptions, id);
    ValuesForMembers(x.sidecar.exceptions, id);
    ValuesForMembers(x.sidecar.exclusions, id);
    FirstForIsFirst(x.sidecar.exclusions, id);
    if codes != [] {
      LeastCode(codes);
    }
    hide ValuesFor, Sort, Text.Le, IsFirst;
    forall r | r in x.sidecar.exceptions && r.id == id ensures r.value in codes {
      assert r == Row(id, r.value);
    }
  }

  lemma DispositionExplains(inv: ObservedInvoice, x: Inputs)
    requires InPartition(inv, x.assembly)
    ensures Explains(DispositionOf(x)(inv).value, inv, x)
  {
    hide Scales, IsExcepted, IsExcluded, StandingOf, ResidualOf, PartitionFor, PrecisionOf, MappingFor, Text.Le,
      IsFirst;
    ResidualScales(inv, x);
    StandingMeans(inv.id, x);
    MappingIsFirst(inv.id, x);
  }

  lemma DispositionDescribes(inv: ObservedInvoice, x: Inputs)
    requires InPartition(inv, x.assembly)
    ensures DispositionOf(x)(inv).Some? && Describes(DispositionOf(x)(inv).value, inv, x)
  {
    hide Scales, IsExcepted, IsExcluded, StandingOf, ResidualOf, PartitionFor, PrecisionOf, MappingFor, IsExact;
    hide Text.Le, Explains;
    DispositionExplains(inv, x);
    ResidualScales(inv, x);
    StandingMeans(inv.id, x);
  }

  lemma {:induction false} DispositionsAlign(rows: seq<ObservedInvoice>, x: Inputs)
    ensures
      var (ds, covered) := (FilterMap(rows, DispositionOf(x)), FilterMap(rows, Covered(x)));
      |ds| == |covered| && forall i | 0 <= i < |ds| :: Describes(ds[i], covered[i], x)
  {
    hide Describes;
    if rows != [] {
      var (rest, last) := (rows[..|rows| - 1], rows[|rows| - 1]);
      DispositionsAlign(rest, x);
      if InPartition(last, x.assembly) {
        DispositionDescribes(last, x);
      }
    }
  }

  /** Exactly one disposition for each invoice in a declared partition, each as the precedence says. */
  lemma OneDispositionEach(x: Inputs, e: Evidence) returns (ds: seq<Disposition>)
    ensures multiset(ds) == multiset(OutcomeOf(x, e).dispositions)
    ensures
      var covered := FilterMap(x.obs.invoices, Covered(x));
      |ds| == |covered| && forall i | 0 <= i < |ds| :: Describes(ds[i], covered[i], x)
  {
    ds := FilterMap(x.obs.invoices, DispositionOf(x));
    SortPermutes(ds, DispositionLe);
    DispositionsAlign(x.obs.invoices, x);
  }

  lemma {:induction false} StatusesPartition(ds: seq<Disposition>)
    ensures |ds| == CountStatus(ds, Eligible) + CountStatus(ds, Excluded) + CountStatus(ds, Blocking)
  {
    if ds != [] {
      StatusesPartition(ds[..|ds| - 1]);
    }
  }

  /** The three counts add up to the population, and the population to the covered invoices. */
  lemma PopulationAddsUp(x: Inputs, e: Evidence)
    ensures
      var p := OutcomeOf(x, e).population;
      p.total == p.eligible + p.excluded + p.blocking == |FilterMap(x.obs.invoices, Covered(x))|
  {
    hide CountStatus;
    var ds := OneDispositionEach(x, e);
    MembersAgree(ds, OutcomeOf(x, e).dispositions);
    StatusesPartition(OutcomeOf(x, e).dispositions);
  }

  // ---- receivables --------------------------------------------------------------------------------------

  /** The invoices that may be receivable: covered, exact, eligible and in no exception or exclusion. */
  ghost predicate IsReceivable(inv: ObservedInvoice, x: Inputs) {
    && InPartition(inv, x.assembly) && Scales(inv, x) && !IsExcepted(inv.id, x) && !IsExcluded(inv.id, x)
    && inv.id in x.obs.eligible && MappingFor(x.assembly, inv.id).Some?
  }

  /** A receivable carries its invoice's mapping, partition, evidence and exact residual. */
  ghost predicate Carries(r: Receivable, inv: ObservedInvoice, x: Inputs, e: Evidence) {
    && InPartition(inv, x.assembly) && MappingFor(x.assembly, inv.id).Some? && PrecisionOf(x.obs, inv.currency).Some?
    && r.identity == MappingFor(x.assembly, inv.id).value.identity && r.key == MappingFor(x.assembly, inv.id).value.key
    && Some(r.partition) == PartitionFor(x.assembly, InvoiceKey(inv))
    && IsExact(inv.residual, PrecisionOf(x.obs, inv.currency).value, r.residual)
    && HasEvidence(r, inv.id, e)
  }

  /** The first original of the invoice, if there is one, and the first history, or else an empty one. */
  ghost predicate HasEvidence(r: Receivable, id: string, e: Evidence) {
    && (if exists o :: o in e.originals && o.id == id
        then r.original.Some? && IsFirst(e.originals, id, r.original.value) else r.original == None)
    && (if exists h :: h in e.histories && h.id == id then IsFirst(e.histories, id, r.history) else r.history == [])
  }

  lemma EvidenceIsFirst(id: string, e: Evidence, r: Receivable)
    requires r.original == FirstFor(e.originals, id) && r.history == HistoryFor(e, id)
    ensures HasEvidence(r, id, e)
  {
    FirstForIsFirst(e.originals, id);
    FirstForIsFirst(e.histories, id);
    hide FirstFor, IsFirst;
  }

  /** Accepted evidence is carried whole: each invoice's receivable has its original and its history, and no other. */
  lemma EvidenceIsCarried(x: Inputs, e: Evidence, inv: ObservedInvoice, r: Receivable)
    requires OriginalsOk(e.originals, x) && HistoriesOk(e.histories, e.originals, x)
    requires Carries(r, inv, x, e)
    ensures forall o | o in e.originals && o.id == inv.id :: r.original == Some(o.value)
    ensures forall h | h in e.histories && h.id == inv.id :: r.history == h.value
    ensures (forall o | o in e.originals :: o.id != inv.id) ==> r.original == None
    ensures (forall h | h in e.histories :: h.id != inv.id) ==> r.history == []
  {
    hide OriginalOk, HistoryOk, References, AllClaims, IsExact, PartitionFor, PrecisionOf, MappingFor;
    forall o | o in e.originals && o.id == inv.id ensures r.original == Some(o.value) {
      FirstOfDistinct(e.originals, o, r.original.value);
    }
    forall h | h in e.histories && h.id == inv.id ensures r.history == h.value {
      FirstOfDistinct(e.histories, h, r.history);
    }
  }

  lemma FirstOfDistinct<V>(rows: seq<Row<V>>, row: Row<V>, v: V)
    requires DistinctIds(rows) && row in rows && IsFirst(rows, row.id, v)
    ensures v == row.value
  {
    var k :| 0 <= k < |rows| && rows[k] == Row(row.id, v);
    var i :| 0 <= i < |rows| && rows[i] == row;
    assert rows[i].id == rows[k].id;
  }

  lemma ReceivableMeans(inv: ObservedInvoice, x: Inputs, e: Evidence)
    ensures
      var r := ReceivableOf(x, e)(inv);
      && (r.Some? <==> IsReceivable(inv, x))
      && (r.Some? ==> Carries(r.value, inv, x, e))
  {
    hide Scales, IsExcepted, IsExcluded, StandingOf, ResidualOf, PartitionFor, PrecisionOf, MappingFor, IsExact,
      FirstFor, HistoryFor;
    hide HasEvidence;
    ResidualScales(inv, x);
    StandingMeans(inv.id, x);
    if ResidualOf(inv, x).Some? {
      PrecisionIsKnown(inv, x);
    }
    if ReceivableOf(x, e)(inv).Some? {
      EvidenceIsFirst(inv.id, e, ReceivableOf(x, e)(inv).value);
    }
  }

  lemma PrecisionIsKnown(inv: ObservedInvoice, x: Inputs)
    requires ResidualOf(inv, x).Some?
    ensures PrecisionOf(x.obs, inv.currency).Some?
  {
  }

  /**
   * Receivables are exactly the eligible, mapped invoices with exact residuals: one that does not
   * scale is never among them.
   */
  lemma ReceivablesAreEligibleAndMapped(x: Inputs, e: Evidence, inv: ObservedInvoice)
    requires inv in x.obs.invoices
    ensures IsReceivable(inv, x) <==> exists r ::
      r in OutcomeOf(x, e).receivables && ReceivableOf(x, e)(inv) == Some(r) && Carries(r, inv, x, e)
    ensures !Scales(inv, x) ==> ReceivableOf(x, e)(inv) == None
  {
    hide IsReceivable, Carries, ReceivableOf, DispositionOf, FilterMap, Sort, UsedMapping, BlockersOf, PopulationOf;
    ReceivableMeans(inv, x, e);
    var rs := FilterMap(x.obs.invoices, ReceivableOf(x, e));
    SortPermutes(rs, ReceivableLe);
    if ReceivableOf(x, e)(inv).Some? {
      FilterMapMembers(x.obs.invoices, ReceivableOf(x, e), ReceivableOf(x, e)(inv).value);
    }
    if !Scales(inv, x) {
      assert !IsReceivable(inv, x) by {
        NotReceivable(inv, x);
      }
    }
  }

  lemma NotReceivable(inv: ObservedInvoice, x: Inputs)
    requires !Scales(inv, x)
    ensures !IsReceivable(inv, x)
  {
  }

  predicate Matches(d: Disposition, r: Receivable) {
    d.status == Eligible && d.identity == r.identity && d.partition == r.partition && d.residual == r.residual
  }

  /** Nothing else is a receivable, and each shares identity, partition and residual with an eligible disposition. */
  lemma ReceivableHasDisposition(x: Inputs, e: Evidence, r: Receivable)
    requires r in OutcomeOf(x, e).receivables
    ensures exists inv :: inv in x.obs.invoices && IsReceivable(inv, x) && Carries(r, inv, x, e)
    ensures exists d :: d in OutcomeOf(x, e).dispositions && Matches(d, r)
  {
    hide IsReceivable, Carries, FilterMap, Sort, UsedMapping, BlockersOf, PopulationOf, FinalStanding, PartitionFor,
      MappingFor, FirstFor, HistoryFor, ResidualOrZero;
    var (rs, ds) := (FilterMap(x.obs.invoices, ReceivableOf(x, e)), FilterMap(x.obs.invoices, DispositionOf(x)));
    SortPermutes(rs, ReceivableLe);
    SortPermutes(ds, DispositionLe);
    FilterMapMembers(x.obs.invoices, ReceivableOf(x, e), r);
    var inv :| inv in x.obs.invoices && ReceivableOf(x, e)(inv) == Some(r);
    ReceivableMeans(inv, x, e);
    var d := DispositionOf(x)(inv).value;
    FilterMapMembers(x.obs.invoices, DispositionOf(x), d);
    assert d in OutcomeOf(x, e).dispositions;
  }

  lemma OrdersArePreorders()
    ensures TotalPreorder(DispositionLe) && TotalPreorder(ReceivableLe)
  {
    hide Text.TupleLe, Text.Le;
    Text.TupleLeIsTotalOrder();
    Text.LeIsTotalOrder();
  }

  /** Dispositions come in the order of their partition and identity, receivables in that of their invoice key. */
  lemma OutcomeIsSorted(x: Inputs, e: Evidence)
    ensures Sorted(OutcomeOf(x, e).dispositions, DispositionLe) && Sorted(OutcomeOf(x, e).receivables, ReceivableLe)
  {
    OrdersArePreorders();
    hide Sort, Sorted, FilterMap, DispositionLe, ReceivableLe, TotalPreorder, BlockersOf, PopulationOf, DispositionOf,
      ReceivableOf, UsedMapping;
    SortSorts(FilterMap(x.obs.invoices, DispositionOf(x)), DispositionLe);
    SortSorts(FilterMap(x.obs.invoices, ReceivableOf(x, e)), ReceivableLe);
  }

  // ---- residuals are conserved ---------------------------------------------------------------------------

  function DispositionResiduals(status: Status): Disposition -> Option<int> {
    (d: Disposition) => if d.status == status then Some(d.residual) else None
  }

  function ReceivableResiduals(): Receivable -> Option<int> {
    (r: Receivable) => Some(r.residual)
  }

  /** The residuals of eligible invoices nobody mapped. */
  function UnmappedResiduals(x: Inputs): ObservedInvoice -> Option<int> {
    (inv: ObservedInvoice) =>
      if Receives(inv, x) && MappingFor(x.assembly, inv.id) == None then Some(ResidualOrZero(inv, x)) else None
  }

  lemma {:induction false} TotalTakenOut(s: seq<int>, i: nat)
    requires i < |s|
    ensures Total(s) == Total(s[..i] + s[i + 1..]) + s[i]
  {
    if i == |s| - 1 {
      assert s[..i] + s[i + 1..] == s[..|s| - 1];
    } else {
      var (init, last) := (s[..|s| - 1], s[|s| - 1]);
      TotalTakenOut(init, i);
      var without := s[..i] + s[i + 1..];
      assert without[..|without| - 1] == init[..i] + init[i + 1..];
      assert without[|without| - 1] == last;
    }
  }

  lemma {:induction false} TotalPermutes(a: seq<int>, b: seq<int>)
    requires multiset(a) == multiset(b)
    ensures Total(a) == Total(b)
    decreases |a|
  {
    if a == [] {
      MembersAgree(a, b);
    } else {
      var i, v := Position(a, b);
      var (rest, others) := (a[..0] + a[0 + 1..], b[..i] + b[i + 1..]);
      TakenOut(a, 0);
      TakenOut(b, i);
      CancelOne(multiset(rest), multiset(others), v);
      TotalPermutes(rest, others);
      TotalTakenOut(a, 0);
      TotalTakenOut(b, i);
    }
  }

  lemma LastOf<A, B>(s: seq<A>, f: A -> Option<B>)
    requires s != []
    ensures FilterMap(s, f) == FilterMap(s[..|s| - 1], f) + Optional(f(s[|s| - 1]))
  {
  }

  function OrZero(o: Option<int>): int {
    if o.Some? then o.value else 0
  }

  lemma TotalAppend(s: seq<int>, o: Option<int>)
    ensures Total(s + Optional(o)) == Total(s) + OrZero(o)
  {
    if o.Some? {
      assert (s + [o.value])[..|s|] == s;
    } else {
      assert s + [] == s;
    }
  }

  function Then<B, C>(o: Option<B>, g: B -> Option<C>): Option<C> {
    if o.Some? then g(o.value) else None
  }

  lemma MappedLast<A, B, C>(rows: seq<A>, f: A -> Option<B>, g: B -> Option<C>)
    requires rows != []
    ensures
      var (rest, last) := (rows[..|rows| - 1], rows[|rows| - 1]);
      FilterMap(FilterMap(rows, f), g) == FilterMap(FilterMap(rest, f), g) + Optional(Then(f(last), g))
  {
    var (rest, last) := (rows[..|rows| - 1], rows[|rows| - 1]);
    if f(last).Some? {
      FilterMapLast(FilterMap(rest, f), f(last).value, g);
    } else {
      assert FilterMap(rest, f) + [] == FilterMap(rest, f);
    }
  }

  lemma StillBalanced(a: seq<int>, b: seq<int>, c: seq<int>, x: Option<int>, y: Option<int>, z: Option<int>)
    requires Total(a) == Total(b) + Total(c) && OrZero(x) == OrZero(y) + OrZero(z)
    ensures Total(a + Optional(x)) == Total(b + Optional(y)) + Total(c + Optional(z))
  {
    hide Total, OrZero, Optional;
    TotalAppend(a, x);
    TotalAppend(b, y);
    TotalAppend(c, z);
  }

  /** An eligible invoice's residual goes to its receivable, or stays with the unmapped. */
  lemma ResidualShares(inv: ObservedInvoice, x: Inputs, e: Evidence)
    ensures
      OrZero(Then(DispositionOf(x)(inv), DispositionResiduals(Eligible)))
      == OrZero(Then(ReceivableOf(x, e)(inv), ReceivableResiduals())) + OrZero(UnmappedResiduals(x)(inv))
  {
    hide FinalStanding, PartitionFor, MappingFor, FirstFor, HistoryFor, ResidualOrZero;
  }

  lemma {:induction false} ResidualsSplit(rows: seq<ObservedInvoice>, x: Inputs, e: Evidence)
    ensures
      Total(FilterMap(FilterMap(rows, DispositionOf(x)), DispositionResiduals(Eligible)))
      == Total(FilterMap(FilterMap(rows, ReceivableOf(x, e)), ReceivableResiduals()))
      + Total(FilterMap(rows, UnmappedResiduals(x)))
  {
    if rows != [] {
      hide FilterMap, Total, DispositionOf, ReceivableOf, UnmappedResiduals, DispositionResiduals, ReceivableResiduals,
        OrZero, Then, Optional;
      var (rest, last) := (rows[..|rows| - 1], rows[|rows| - 1]);
      ResidualsSplit(rest, x, e);
      MappedLast(rows, DispositionOf(x), DispositionResiduals(Eligible));
      MappedLast(rows, ReceivableOf(x, e), ReceivableResiduals());
      LastOf(rows, UnmappedResiduals(x));
      ResidualShares(last, x, e);
      StillBalanced(
        FilterMap(FilterMap(rest, DispositionOf(x)), DispositionResiduals(Eligible)),
        FilterMap(FilterMap(rest, ReceivableOf(x, e)), ReceivableResiduals()), FilterMap(rest, UnmappedResiduals(x)),
        Then(DispositionOf(x)(last), DispositionResiduals(Eligible)),
        Then(ReceivableOf(x, e)(last), ReceivableResiduals()),
        UnmappedResiduals(x)(last));
    }
  }

  /** What the eligible dispositions hold is what the receivables carry plus what was reported unmapped. */
  lemma ResidualsAreConserved(x: Inputs, e: Evidence)
    ensures
      Total(FilterMap(OutcomeOf(x, e).dispositions, DispositionResiduals(Eligible)))
      == Total(FilterMap(OutcomeOf(x, e).receivables, ReceivableResiduals()))
      + Total(FilterMap(x.obs.invoices, UnmappedResiduals(x)))
  {
    var (rs, ds) := (FilterMap(x.obs.invoices, ReceivableOf(x, e)), FilterMap(x.obs.invoices, DispositionOf(x)));
    hide FilterMap, Sort, Total, DispositionOf, ReceivableOf, UnmappedResiduals, DispositionResiduals,
      ReceivableResiduals;
    ResidualsSplit(x.obs.invoices, x, e);
    SortPermutes(ds, DispositionLe);
    SortPermutes(rs, ReceivableLe);
    FilterMapPermutes(Sort(ds, DispositionLe), ds, DispositionResiduals(Eligible));
    FilterMapPermutes(Sort(rs, ReceivableLe), rs, ReceivableResiduals());
    TotalPermutes(FilterMap(Sort(ds, DispositionLe), DispositionResiduals(Eligible)),
      FilterMap(ds, DispositionResiduals(Eligible)));
    TotalPermutes(FilterMap(Sort(rs, ReceivableLe), ReceivableResiduals()), FilterMap(rs, ReceivableResiduals()));
  }
}
