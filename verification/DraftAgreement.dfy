/** A draft without blockers leaves the adapter nothing unmapped. */
module DraftAgreement {
  import opened Wrappers
  import opened Sorting
  import opened Filtering
  import opened OpeningModel
  import D = DraftSpec
  import A = AdapterSpec
  import P = DraftProperties
  import opened MinorUnits
  import Text

  function OptionalText(o: Option<string>): D.Field {
    if o.Some? then D.Str(o.value) else D.Null
  }

  /** The census as the drafter reads it and the observation the adapter loads from it are one document. */
  predicate SameDocument(c: D.Census, obs: A.Observation) {
    && |obs.precisions| == |c.precisions|
    && (forall i | 0 <= i < |obs.precisions| ::
          c.precisions[i] == D.PrecisionRow(D.Str(obs.precisions[i].id), Some(obs.precisions[i].value)))
    && |obs.eligible| == |c.eligible| && (forall i | 0 <= i < |obs.eligible| :: c.eligible[i] == D.Str(obs.eligible[i]))
    && |obs.controls| == |c.controls|
    && (forall i | 0 <= i < |obs.controls| ::
          c.controls[i] == D.PartyRow(OptionalText(obs.controls[i].account), OptionalText(obs.controls[i].currency)))
    && |obs.invoices| == |c.invoices|
    && (forall i | 0 <= i < |obs.invoices| :: SameInvoice(c.invoices[i], obs.invoices[i]))
    && |obs.settlements| == |c.settlements|
    && (forall i | 0 <= i < |obs.settlements| :: SameSettlement(c.settlements[i], obs.settlements[i], D.EligibleSet(c)))
  }

  predicate SameInvoice(row: D.InvoiceRow, inv: A.ObservedInvoice) {
    row.id == D.Str(inv.id) && row.party == D.PartyRow(D.Str(inv.account), D.Str(inv.currency))
  }

  /**
   * The drafter reads a settlement's own fields only when it is in scope; elsewhere an identifier
   * may be spelt otherwise.
   */
  predicate SameSettlement(row: D.SettlementRow, s: A.ObservedSettlement, eligible: set<string>) {
    && row.invoice == D.Str(s.invoice) && row.active == s.active && row.kind == D.Str(s.key.kind)
    && (D.InScope(row, eligible) ==> row.id == D.Str(s.key.id))
  }

  lemma PartitionIsFound(a: Assembly, k: Key)
    ensures A.PartitionFor(a, k).Some? <==> exists p :: p in a.partitions && PartitionKey(p) == k
  {
    var found := FilterMap(a.partitions, A.Keyed(k));
    if found != [] {
      assert found[0] in found;
      FilterMapMembers(a.partitions, A.Keyed(k), found[0]);
    }
    forall p | p in a.partitions && PartitionKey(p) == k ensures found != [] {
      FilterMapMembers(a.partitions, A.Keyed(k), p);
      assert A.Keyed(k)(p) == Some(p);
    }
  }

  lemma MappingIsFound(a: Assembly, m: InvoiceMapping)
    requires m in a.invoices
    ensures A.MappingFor(a, m.invoice).Some?
  {
    var rows := A.MappingRows(a);
    var i :| 0 <= i < |a.invoices| && a.invoices[i] == m;
    assert rows[i] in rows && A.Under<InvoiceMapping>(m.invoice)(rows[i]) == Some(m);
    FilterMapMembers(rows, A.Under(m.invoice), m);
  }

  lemma NothingReported(codes: set<D.Code>, reference: string)
    ensures !P.Reports([], codes, reference)
  {
  }

  lemma NoBlockersAtAll(c: D.Census, t: D.Target, derive: D.Derive)
    requires D.DraftOf(c, t, derive).blockers == []
    ensures D.AllBlockers(c, t, derive) == [] && D.CensusBlockers(c) == []
  {
    hide D.AllBlockers, D.AssemblyOf, Sort, D.BlockerLe;
    SortKeeps(D.AllBlockers(c, t, derive), D.BlockerLe);
    CensusBlockersFirst(c, t, derive);
  }

  lemma CensusBlockersFirst(c: D.Census, t: D.Target, derive: D.Derive)
    ensures |D.CensusBlockers(c)| <= |D.AllBlockers(c, t, derive)|
  {
    hide D.CensusBlockers, D.PartitionBlockers, D.InvoiceBlockers, D.SettlementBlockers;
  }

  /** With no blockers the declared partitions are the census's, no more and no fewer. */
  lemma PartitionsAreUniverse(c: D.Census, t: D.Target, derive: D.Derive, k: Key)
    requires D.DraftOf(c, t, derive).blockers == []
    ensures A.PartitionFor(D.DraftOf(c, t, derive).assembly, k).Some? <==> k in D.Universe(c)
  {
    hide D.Universe, D.AssemblyOf, D.AllBlockers, Sort, P.Reports, A.PartitionFor;
    PartitionIsFound(D.DraftOf(c, t, derive).assembly, k);
    P.TargetsAreDistinct(c, t, derive);
    if k in D.Universe(c) {
      P.PartitionsAreAccountedFor(c, t, derive, k);
      NothingReported(P.PARTITION_CODES, D.Reference(k));
      if k in D.CandidatesOf(c, t, derive) {
        NothingReported({D.TargetAccountCollision}, D.CandidatesOf(c, t, derive)[k].account);
      }
    }
  }

  lemma UniverseHasTexts(c: D.Census, k: Key)
    requires k in D.Universe(c)
    ensures k.currency != ""
  {
  }

  /** An observed invoice is in a declared partition exactly when its currency is not empty. */
  lemma InvoiceIsCovered(c: D.Census, t: D.Target, derive: D.Derive, obs: A.Observation, inv: A.ObservedInvoice)
    requires D.DraftOf(c, t, derive).blockers == [] && SameDocument(c, obs) && inv in obs.invoices
    ensures A.InPartition(inv, D.DraftOf(c, t, derive).assembly) <==> inv.currency != ""
  {
    hide D.DraftOf, A.PartitionFor;
    var k := A.InvoiceKey(inv);
    PartitionsAreUniverse(c, t, derive, k);
    if inv.currency != "" {
      var i :| 0 <= i < |obs.invoices| && obs.invoices[i] == inv;
      assert SameInvoice(c.invoices[i], inv);
      var row := D.Parties(c.invoices)[i];
      assert row in D.Parties(c.invoices) && D.PartyKey(row) == Some(k);
    } else if k in D.Universe(c) {
      UniverseHasTexts(c, k);
    }
  }

  lemma ControlsAreAttributed(c: D.Census, row: D.PartyRow)
    requires D.CensusBlockers(c) == [] && row in c.controls
    ensures D.PartyKey(row).Some?
  {
    hide FilterMap, Text.InOrder, D.DuplicateIds, NoDuplicates, D.Texts, D.Parties, D.PartyKey, D.DuplicateBlocker;
    var f := D.Unattributed(D.Controls);
    var unattributed := FilterMap(c.controls, f);
    assert unattributed == [] by {
      hide D.Unattributed;
      assert |unattributed| <= |D.CensusBlockers(c)|;
    }
    if f(row).Some? {
      FilterMapMembers(c.controls, f, f(row).value);
    }
  }

  lemma ControlIsCovered(c: D.Census, t: D.Target, derive: D.Derive, obs: A.Observation, control: A.ObservedControl)
    requires D.DraftOf(c, t, derive).blockers == [] && SameDocument(c, obs) && control in obs.controls
    ensures !A.ControlUnmapped(control, D.DraftOf(c, t, derive).assembly)
  {
    hide D.DraftOf, A.PartitionFor, D.CensusBlockers, D.AllBlockers, SameDocument, D.Universe;
    NoBlockersAtAll(c, t, derive);
    var row := ControlRow(c, obs, control);
    ControlsAreAttributed(c, row);
    KeyIsMentioned(c, row);
    PartitionsAreUniverse(c, t, derive, D.PartyKey(row).value);
  }

  lemma ControlRow(c: D.Census, obs: A.Observation, control: A.ObservedControl) returns (row: D.PartyRow)
    requires SameDocument(c, obs) && control in obs.controls
    ensures row in c.controls && row == D.PartyRow(OptionalText(control.account), OptionalText(control.currency))
  {
    hide D.EligibleSet, SameInvoice, SameSettlement;
    var i :| 0 <= i < |obs.controls| && obs.controls[i] == control;
    row := c.controls[i];
  }

  lemma KeyIsMentioned(c: D.Census, row: D.PartyRow)
    requires row in c.controls && D.PartyKey(row).Some?
    ensures D.PartyKey(row).value in D.Universe(c)
  {
    hide D.PartyKey;
  }

  lemma EligibleTexts(c: D.Census, obs: A.Observation, id: string)
    requires SameDocument(c, obs)
    ensures id in obs.eligible <==> id in D.EligibleSet(c)
  {
    hide D.Universe;
    if id in obs.eligible {
      var i :| 0 <= i < |obs.eligible| && obs.eligible[i] == id;
      assert c.eligible[i] in c.eligible && D.TextOf(c.eligible[i]) == id;
    }
    if id in D.EligibleSet(c) {
      var f :| f in c.eligible && D.TextOf(f) == id;
      var i :| 0 <= i < |c.eligible| && c.eligible[i] == f;
      assert obs.eligible[i] == id;
    }
  }

  lemma EligibleIsMapped(c: D.Census, t: D.Target, derive: D.Derive, obs: A.Observation, id: string)
    requires D.DraftOf(c, t, derive).blockers == [] && SameDocument(c, obs) && id in obs.eligible
    ensures A.MappingFor(D.DraftOf(c, t, derive).assembly, id).Some?
  {
    hide D.DraftOf, SameDocument, A.MappingFor, P.Reports, D.EligibleSet;
    EligibleTexts(c, obs, id);
    P.InvoicesAreAccountedFor(c, t, derive, id);
    NothingReported(P.INVOICE_CODES, id);
    var m :| m in D.DraftOf(c, t, derive).assembly.invoices && m.invoice == id;
    MappingIsFound(D.DraftOf(c, t, derive).assembly, m);
  }

  lemma ReceivesIsEligible(inv: A.ObservedInvoice, x: A.Inputs)
    requires A.Receives(inv, x)
    ensures inv.id in x.obs.eligible
  {
    hide A.PartitionFor, Minor, Sort, A.ValuesFor;
  }

  lemma SettlementIsMapped(c: D.Census, t: D.Target, derive: D.Derive, obs: A.Observation, s: A.ObservedSettlement)
    requires D.DraftOf(c, t, derive).blockers == [] && SameDocument(c, obs) && s in obs.settlements
    requires s.active && s.invoice in obs.eligible
    ensures A.IsDeclared(D.DraftOf(c, t, derive).assembly, s.key)
  {
    hide D.DraftOf, P.Reports, FilterMap, D.EligibleSet;
    EligibleTexts(c, obs, s.invoice);
    var i :| 0 <= i < |obs.settlements| && obs.settlements[i] == s;
    assert SameSettlement(c.settlements[i], s, D.EligibleSet(c));
    var row := c.settlements[i];
    var scoped := D.Scoped(s.key, s.invoice, row.source);
    assert row in c.settlements && D.Scope(D.EligibleSet(c))(row) == Some(scoped);
    FilterMapMembers(c.settlements, D.Scope(D.EligibleSet(c)), scoped);
    P.SettlementsAreAccountedFor(c, t, derive, scoped);
    NothingReported(P.SETTLEMENT_CODES, s.key.id);
  }

  /**
   * After a draft without blockers no settlement is unmapped, and no account or invoice is unmapped exactly when every
   * invoice names a currency: the drafter passes over an invoice without one in silence.
   */
  lemma CleanDraftIsMapped(c: D.Census, t: D.Target, derive: D.Derive, obs: A.Observation, sidecar: A.Sidecar)
    requires D.DraftOf(c, t, derive).blockers == [] && SameDocument(c, obs)
    ensures
      var x := A.Inputs(obs, sidecar, D.DraftOf(c, t, derive).assembly);
      && A.UnmappedSettlements(x) == {}
      && (A.UnmappedAccounts(x) == {} && A.UnmappedInvoices(x) == {} <==>
            forall inv | inv in obs.invoices :: inv.currency != "")
  {
    hide D.DraftOf, SameDocument, A.InPartition, A.ControlUnmapped, A.Receives, A.MappingFor, A.IsDeclared;
    var x := A.Inputs(obs, sidecar, D.DraftOf(c, t, derive).assembly);
    forall inv | inv in obs.invoices ensures A.InPartition(inv, x.assembly) <==> inv.currency != "" {
      InvoiceIsCovered(c, t, derive, obs, inv);
    }
    forall control | control in obs.controls ensures !A.ControlUnmapped(control, x.assembly) {
      ControlIsCovered(c, t, derive, obs, control);
    }
    forall inv | inv in obs.invoices && A.Receives(inv, x) ensures A.MappingFor(x.assembly, inv.id).Some? {
      ReceivesIsEligible(inv, x);
      EligibleIsMapped(c, t, derive, obs, inv.id);
    }
    forall s | s in obs.settlements ensures !A.SettlementUnmapped(s, x) {
      if s.active && s.invoice in obs.eligible {
        SettlementIsMapped(c, t, derive, obs, s);
      }
    }
    hide A.SettlementUnmapped;
    assert A.UnmappedSettlements(x) == {};
    assert A.ControlsOutside(obs.controls, x.assembly) == {};
    assert A.EligibleUnmapped(obs.invoices, x) == {};
    OutsideIsEmpty(obs.invoices, x.assembly);
  }

  lemma OutsideIsEmpty(invoices: seq<A.ObservedInvoice>, a: Assembly)
    ensures A.AccountsOutside(invoices, a) == {} <==> forall inv | inv in invoices :: A.InPartition(inv, a)
    ensures A.InvoicesOutside(invoices, a) == {} <==> forall inv | inv in invoices :: A.InPartition(inv, a)
  {
    hide A.InPartition;
    forall inv | inv in invoices && !A.InPartition(inv, a)
      ensures inv.account in A.AccountsOutside(invoices, a) && inv.id in A.InvoicesOutside(invoices, a)
    {
    }
  }

  /** What the loader's refusal of blank text leaves: no invoice with an empty currency. */
  predicate Loadable(obs: A.Observation) {
    forall inv | inv in obs.invoices :: inv.currency != ""
  }

  /** For a census both programs load, a draft without blockers makes the adapter report nothing unmapped. */
  lemma DraftAgreesWithAdapter(
      c: D.Census, t: D.Target, derive: D.Derive, obs: A.Observation, sidecar: A.Sidecar, e: A.Evidence)
    requires D.RefusalOf(c, t) == None && D.DraftOf(c, t, derive).blockers == []
    requires SameDocument(c, obs) && Loadable(obs)
    ensures
      var outcome := A.OutcomeOf(A.Inputs(obs, sidecar, D.DraftOf(c, t, derive).assembly), e);
      && outcome.unmappedAccounts == {} && outcome.unmappedInvoices == {} && outcome.unmappedSettlements == {}
      && forall b | b in outcome.blockers :: b.code == A.CurrencyPrecisionMismatch
  {
    hide D.DraftOf, D.RefusalOf, SameDocument, A.UnmappedAccounts, A.UnmappedInvoices, A.UnmappedSettlements, FilterMap,
      Sort, A.PopulationOf;
    var x := A.Inputs(obs, sidecar, D.DraftOf(c, t, derive).assembly);
    CleanDraftIsMapped(c, t, derive, obs, sidecar);
    assert Text.InOrder({}) == [];
    FilterMapEmpty(A.Global(A.UnmappedSourceAccount));
    FilterMapEmpty(A.Global(A.UnmappedSourceSettlement));
    forall b | b in FilterMap(obs.invoices, A.InvoiceBlocker(x)) ensures b.code == A.CurrencyPrecisionMismatch {
      FilterMapMembers(obs.invoices, A.InvoiceBlocker(x), b);
      var inv :| inv in obs.invoices && A.InvoiceBlocker(x)(inv) == Some(b);
      UnmappedIsReported(x, inv);
    }
  }

  lemma UnmappedIsListed(x: A.Inputs, inv: A.ObservedInvoice)
    requires inv in x.obs.invoices && A.Receives(inv, x) && A.MappingFor(x.assembly, inv.id) == None
    ensures inv.id in A.UnmappedInvoices(x)
  {
  }

  lemma UnmappedIsReported(x: A.Inputs, inv: A.ObservedInvoice)
    requires inv in x.obs.invoices && A.UnmappedInvoices(x) == {}
    ensures A.InvoiceBlocker(x)(inv).Some? ==> A.InvoiceBlocker(x)(inv).value.code == A.CurrencyPrecisionMismatch
  {
    hide A.Receives, A.MappingFor, A.ResidualOf, A.PartitionFor, A.UnmappedInvoices;
    if A.Receives(inv, x) && A.MappingFor(x.assembly, inv.id) == None {
      UnmappedIsListed(x, inv);
    }
  }

  // ---- the invoice nobody mentions ------------------------------------------------------------------------

  const SOME_ID := "00000000-0000-0000-0000-000000000001"

  function SilentCensus(): D.Census {
    D.Census(D.Str("sub-billing-opening-census-v2"), true, [], [], [],
             [D.InvoiceRow(D.Str(SOME_ID), D.PartyRow(D.Str(SOME_ID), D.Str("")), None)], [], [])
  }

  function EmptyTarget(): D.Target {
    D.Target(None, [D.Literal("key")], None, [])
  }

  function SilentObservation(): A.Observation {
    var zero := Dec(false, 0, 0);
    A.Observation([], [], [], [A.ObservedInvoice(SOME_ID, SOME_ID, "", None, None, zero, zero, [])], [])
  }

  lemma SilentIsAccepted()
    ensures D.RefusalOf(SilentCensus(), EmptyTarget()) == None
  {
    assert D.CanonicalUuid(SOME_ID);
    assert D.InScopeOf(SilentCensus()) == [];
  }

  lemma NothingListed()
    ensures Text.InOrder({}) == [] && D.SortedKeys({}) == [] && D.SortedSettlementKeys({}) == []
  {
    assert forall k :: k !in D.SortedSettlementKeys({});
  }

  lemma SilentCensusIsClean()
    ensures D.CensusBlockers(SilentCensus()) == []
  {
    var c := SilentCensus();
    var row := c.invoices[0];
    NothingListed();
    FilterMapOne(row, D.WithId(SOME_ID));
    assert D.RowsOf(c.invoices, SOME_ID) == [row];
    assert D.DuplicateIds(c.invoices) == {};
    assert D.Parties(c.invoices) == [row.party] && D.PartyKey(row.party) == None;
    FilterMapOne(row.party, D.Unattributed(D.Invoices));
    FilterMapEmpty(D.DuplicateBlocker());
    FilterMapEmpty(D.Unattributed(D.Controls));
    FilterMapEmpty(D.Unattributed(D.Lanes));
    hide FilterMap, D.DuplicateIds, D.Parties, D.RowsOf, Text.InOrder;
  }

  lemma SilentViewsAreEmpty(derive: D.Derive)
    ensures D.Universe(SilentCensus()) == {} && D.EligibleSet(SilentCensus()) == {} && D.InScopeOf(SilentCensus()) == []
    ensures D.CandidatesOf(SilentCensus(), EmptyTarget(), derive) == map[] && D.TargetTable(EmptyTarget().rows) == map[]
  {
    var c := SilentCensus();
    assert D.PartyKey(c.invoices[0].party) == None;
    assert D.Parties(c.invoices) == [c.invoices[0].party];
    assert D.Universe(c) == {};
    FilterMapEmpty(D.Scope(D.EligibleSet(c)));
    hide D.Universe, D.Resolve;
  }

  lemma SilentPartsAreClean(derive: D.Derive)
    ensures D.PartitionBlockers(SilentCensus(), EmptyTarget(), derive) == []
    ensures D.InvoiceBlockers(SilentCensus(), EmptyTarget(), derive) == []
    ensures D.SettlementBlockers(SilentCensus(), EmptyTarget(), derive) == []
  {
    var (c, t) := (SilentCensus(), EmptyTarget());
    NothingListed();
    SilentViewsAreEmpty(derive);
    assert D.AccountsOf(map[]) == {} && D.KeysIn([]) == {} && D.TargetTable(t.rows).Keys - D.Universe(c) == {};
    var scoped: seq<D.Scoped> := [];
    var mapped := D.InvoicesOf(D.InvoiceMappings(c, t, derive));
    FilterMapEmpty(D.ExtraBlocker());
    FilterMapEmpty(D.PartitionBlocker(D.SetupOf(c, t), derive));
    FilterMapEmpty(D.CollisionBlocker(map[]));
    FilterMapEmpty(D.BlockInvoice(c.invoices, D.ResolvedOf(c, t, derive), D.PrecisionTable(c.precisions)));
    FilterMapEmpty(D.RepeatBlocker(scoped));
    FilterMapEmpty(D.BlockSettlement(scoped, mapped));
    hide FilterMap, D.Universe, D.EligibleSet, D.InScopeOf, D.CandidatesOf, D.TargetTable, D.SortedKeys, Text.InOrder,
      D.SortedSettlementKeys, D.ExtraBlocker, D.PartitionBlocker, D.CollisionBlocker, D.BlockInvoice, D.RepeatBlocker,
      D.BlockSettlement, D.InvoiceMappings, D.ResolvedOf, D.AccountsOf, D.KeysIn, D.InvoicesOf, SilentCensus;
  }

  lemma SilentHasNoBlockers(derive: D.Derive)
    ensures D.DraftOf(SilentCensus(), EmptyTarget(), derive).blockers == []
  {
    hide D.CensusBlockers, D.PartitionBlockers, D.InvoiceBlockers, D.SettlementBlockers, D.AssemblyOf, SilentCensus,
      EmptyTarget;
    SilentCensusIsClean();
    SilentPartsAreClean(derive);
    assert D.AllBlockers(SilentCensus(), EmptyTarget(), derive) == [];
  }

  /** An invoice with an empty currency: drafted without a blocker, and unmapped if it were ever assembled. */
  lemma EmptyCurrencyIsSilent(derive: D.Derive, sidecar: A.Sidecar)
    ensures SameDocument(SilentCensus(), SilentObservation())
    ensures D.RefusalOf(SilentCensus(), EmptyTarget()) == None
    ensures D.DraftOf(SilentCensus(), EmptyTarget(), derive).blockers == []
    ensures
      var x := A.Inputs(SilentObservation(), sidecar, D.DraftOf(SilentCensus(), EmptyTarget(), derive).assembly);
      A.UnmappedAccounts(x) + A.UnmappedInvoices(x) != {}
  {
    SilentIsAccepted();
    SilentHasNoBlockers(derive);
    hide D.DraftOf, D.RefusalOf, A.UnmappedAccounts, A.UnmappedInvoices;
    CleanDraftIsMapped(SilentCensus(), EmptyTarget(), derive, SilentObservation(), sidecar);
    assert SilentObservation().invoices[0] in SilentObservation().invoices;
  }
}
