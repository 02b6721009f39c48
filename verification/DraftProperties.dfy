/** Nothing of the census is dropped silently, and what a draft maps can be looked up without ambiguity. */
module DraftProperties {
  import opened Wrappers
  import opened Sorting
  import opened Filtering
  import opened OpeningModel
  import opened DraftSpec
  import DraftOrder
  import Text

  const PARTITION_CODES: set<Code> := {CurrencyPrecisionUndeclared, TargetAccountUnavailable, TargetPositionUnavailable}
  const INVOICE_CODES: set<Code> :=
    {EligibleInvoiceNotInCensus, DuplicateCensusInvoice, InvoicePartitionUnmapped, InvoicePrecisionMismatch}
  const SETTLEMENT_CODES: set<Code> :=
    {DuplicateCensusSettlement, UnsupportedSettlementKind, SettlementSourceIdUnavailable, SettlementInvoiceUnmapped}

  /** A blocker under one of `codes` about `reference`. */
  predicate Reports(blockers: seq<Blocker>, codes: set<Code>, reference: string) {
    exists b :: b in blockers && b.code in codes && b.reference == reference
  }

  lemma ReportsMore(some: seq<Blocker>, all: seq<Blocker>, codes: set<Code>, reference: string)
    requires Reports(some, codes, reference) && forall b | b in some :: b in all
    ensures Reports(all, codes, reference)
  {
  }

  // ---- partitions --------------------------------------------------------------------------------

  /** The partitions of an assembly are the resolved ones, by key and in order. */
  lemma ListedIsResolved(resolved: map<Key, Partition>)
    requires forall k | k in resolved :: PartitionKey(resolved[k]) == k
    ensures forall p :: p in Listed(resolved) <==> PartitionKey(p) in resolved && resolved[PartitionKey(p)] == p
    ensures forall i, j | 0 <= i < j < |Listed(resolved)| ::
      PartitionKey(Listed(resolved)[i]) != PartitionKey(Listed(resolved)[j])
  {
    hide SortedKeys;
    var keys := SortedKeys(resolved.Keys);
    var r := Listed(resolved);
    forall p | PartitionKey(p) in resolved && resolved[PartitionKey(p)] == p ensures p in r {
      assert PartitionKey(p) in keys;
      var i :| 0 <= i < |keys| && keys[i] == PartitionKey(p);
      assert r[i] == p;
    }
    forall i | 0 <= i < |r| ensures PartitionKey(r[i]) == keys[i] && keys[i] in resolved {
      assert keys[i] in keys;
    }
  }

  lemma CandidateKeys(c: Census, t: Target, derive: Derive)
    ensures forall k | k in CandidatesOf(c, t, derive) ::
      PartitionKey(CandidatesOf(c, t, derive)[k]) == k && k in Universe(c)
    ensures forall k | k in ResolvedOf(c, t, derive) ::
      PartitionKey(ResolvedOf(c, t, derive)[k]) == k && k in Universe(c) && k.currency in PrecisionTable(c.precisions)
  {
    hide Universe;
  }

  lemma UnresolvableIsReported(c: Census, t: Target, derive: Derive, k: Key)
    requires k in Universe(c) && k !in CandidatesOf(c, t, derive)
    ensures Reports(PartitionBlockers(c, t, derive), PARTITION_CODES, Reference(k))
  {
    hide FilterMap, SortedKeys, Text.InOrder, Universe, TargetTable, ExtraBlocker, CollisionBlocker, AccountsOf;
    FailureIsReported(SortedKeys(Universe(c)), SetupOf(c, t), derive, k);
    hide PartitionBlocker, Reports, SetupOf;
    var some := FilterMap(SortedKeys(Universe(c)), PartitionBlocker(SetupOf(c, t), derive));
    ReportsMore(some, PartitionBlockers(c, t, derive), PARTITION_CODES, Reference(k));
  }

  lemma FailureIsReported(keys: seq<Key>, s: Setup, derive: Derive, k: Key)
    requires k in keys && Resolve(k, s, derive).Err?
    ensures Reports(FilterMap(keys, PartitionBlocker(s, derive)), PARTITION_CODES, Reference(k))
  {
    FailuresHaveCodes(s, derive);
    hide Resolve, FilterMap;
    var b := PartitionBlocker(s, derive)(k).value;
    FilterMapMembers(keys, PartitionBlocker(s, derive), b);
    assert b.code in PARTITION_CODES;
  }

  lemma CollidingIsReported(c: Census, t: Target, derive: Derive, k: Key)
    requires k in CandidatesOf(c, t, derive) && k !in ResolvedOf(c, t, derive)
    ensures Reports(PartitionBlockers(c, t, derive), {TargetAccountCollision}, CandidatesOf(c, t, derive)[k].account)
  {
    hide FilterMap, SortedKeys, Text.InOrder, CandidatesOf, TargetTable, ExtraBlocker, PartitionBlocker, Backed;
    var candidates := CandidatesOf(c, t, derive);
    var account := candidates[k].account;
    var b := Blocker(TargetAccountCollision, account, "");
    CollidingGroup(candidates, k);
    FilterMapMembers(Text.InOrder(AccountsOf(candidates)), CollisionBlocker(candidates), b);
    assert account in Text.InOrder(AccountsOf(candidates)) && CollisionBlocker(candidates)(account) == Some(b);
    assert b in PartitionBlockers(c, t, derive);
  }

  lemma CollidingGroup(candidates: map<Key, Partition>, k: Key)
    requires k in candidates && !Alone(candidates, k)
    ensures |Backed(candidates, candidates[k].account)| > 1
  {
    var group := Backed(candidates, candidates[k].account);
    var j :| j in candidates && candidates[j].account == candidates[k].account && j != k;
    assert j in group && k in group - {j};
    assert |group - {j}| > 0;
  }

  /** Every census partition is in the assembly, or has a blocker; and nothing else is in the assembly. */
  lemma PartitionsAreAccountedFor(c: Census, t: Target, derive: Derive, k: Key)
    requires k in Universe(c)
    ensures
      var (d, candidates) := (DraftOf(c, t, derive), CandidatesOf(c, t, derive));
      || (exists p :: p in d.assembly.partitions && PartitionKey(p) == k)
      || (k !in candidates && Reports(d.blockers, PARTITION_CODES, Reference(k)))
      || (k in candidates && Reports(d.blockers, {TargetAccountCollision}, candidates[k].account))
  {
    hide Universe, ResolvedOf, CandidatesOf, Listed, Sort, CensusBlockers, PartitionBlockers, InvoiceBlockers,
      SettlementBlockers, InvoiceMappings, DischargeMappings;
    CandidateKeys(c, t, derive);
    ListedIsResolved(ResolvedOf(c, t, derive));
    SortPermutes(AllBlockers(c, t, derive), BlockerLe);
    if k in ResolvedOf(c, t, derive) {
      var p := ResolvedOf(c, t, derive)[k];
      assert p in Listed(ResolvedOf(c, t, derive)) && PartitionKey(p) == k;
    } else {
      hide Reports;
      if k in CandidatesOf(c, t, derive) {
        CollidingIsReported(c, t, derive, k);
        ReportsMore(PartitionBlockers(c, t, derive), DraftOf(c, t, derive).blockers, {TargetAccountCollision},
          CandidatesOf(c, t, derive)[k].account);
      } else {
        UnresolvableIsReported(c, t, derive, k);
        ReportsMore(PartitionBlockers(c, t, derive), DraftOf(c, t, derive).blockers, PARTITION_CODES, Reference(k));
      }
    }
  }

  /** The assembly's partitions are census partitions, one per key and one per target account. */
  lemma TargetsAreDistinct(c: Census, t: Target, derive: Derive)
    ensures
      var partitions := DraftOf(c, t, derive).assembly.partitions;
      && (forall p | p in partitions :: PartitionKey(p) in Universe(c))
      && (forall i, j | 0 <= i < j < |partitions| :: PartitionKey(partitions[i]) != PartitionKey(partitions[j]))
      && (forall i, j | 0 <= i < j < |partitions| :: partitions[i].account != partitions[j].account)
  {
    hide Universe, CandidatesOf, Listed, Sort, InvoiceMappings, DischargeMappings, AllBlockers, Alone;
    var resolved := ResolvedOf(c, t, derive);
    CandidateKeys(c, t, derive);
    ListedIsResolved(resolved);
    var partitions := Listed(resolved);
    forall i, j | 0 <= i < j < |partitions| ensures partitions[i].account != partitions[j].account {
      assert partitions[i] in partitions && partitions[j] in partitions;
      ResolvedApart(CandidatesOf(c, t, derive), PartitionKey(partitions[i]), PartitionKey(partitions[j]));
    }
  }

  lemma ResolvedApart(candidates: map<Key, Partition>, j: Key, k: Key)
    requires j in WithoutCollisions(candidates) && k in WithoutCollisions(candidates) && j != k
    ensures candidates[j].account != candidates[k].account
  {
    assert Alone(candidates, j);
  }

  // ---- invoices ------------------------------------------------------------------------------------

  lemma MappedInvoice(c: Census, t: Target, derive: Derive, id: string)
    requires id in EligibleSet(c)
    ensures
      var v := InvoiceVerdict(id, c.invoices, ResolvedOf(c, t, derive), PrecisionTable(c.precisions));
      && (id in InvoicesOf(InvoiceMappings(c, t, derive)) <==> v.Mapped?)
      && (v.Mapped? ==> v.value in InvoiceMappings(c, t, derive))
      && (v.Blocked? ==> v.blocker in InvoiceBlockers(c, t, derive))
  {
    hide FilterMap, Text.InOrder, EligibleSet, ResolvedOf, RowsOf;
    var (resolved, precisions, ids) := (ResolvedOf(c, t, derive), PrecisionTable(c.precisions),
      Text.InOrder(EligibleSet(c)));
    var (f, v) := (MapInvoice(c.invoices, resolved, precisions), InvoiceVerdict(id, c.invoices, resolved, precisions));
    assert id in ids;
    if v.Mapped? {
      FilterMapMembers(ids, f, v.value);
      assert f(id) == Some(v.value);
    } else if v.Blocked? {
      var g := BlockInvoice(c.invoices, resolved, precisions);
      FilterMapMembers(ids, g, v.blocker);
      assert g(id) == Some(v.blocker);
    }
    forall m | m in InvoiceMappings(c, t, derive) && m.invoice == id ensures v.Mapped? {
      FilterMapMembers(ids, f, m);
      var other :| other in ids && f(other) == Some(m);
    }
  }

  /** What an invoice blocker says, and which invoice it is about. */
  lemma InvoiceBlockerSays(c: Census, t: Target, derive: Derive, b: Blocker)
    requires b in InvoiceBlockers(c, t, derive)
    ensures b.code in INVOICE_CODES && b.reference in EligibleSet(c)
    ensures InvoiceVerdict(b.reference, c.invoices, ResolvedOf(c, t, derive), PrecisionTable(c.precisions)).Blocked?
  {
    hide FilterMap, Text.InOrder, EligibleSet, ResolvedOf, RowsOf;
    var (resolved, precisions) := (ResolvedOf(c, t, derive), PrecisionTable(c.precisions));
    FilterMapMembers(Text.InOrder(EligibleSet(c)), BlockInvoice(c.invoices, resolved, precisions), b);
  }

  /** The census's own blockers speak of an invoice only when its id is repeated. */
  lemma CensusBlockerSays(c: Census, b: Blocker)
    requires b in CensusBlockers(c)
    ensures b.code in INVOICE_CODES
      <==> b == Blocker(DuplicateCensusInvoice, b.reference, "") && b.reference in DuplicateIds(c.invoices)
  {
    hide FilterMap, Text.InOrder, DuplicateIds, NoDuplicates, Texts, Parties;
    FilterMapMembers(Text.InOrder(DuplicateIds(c.invoices)), DuplicateBlocker(), b);
    FilterMapMembers(c.controls, Unattributed(Controls), b);
    FilterMapMembers(c.lanes, Unattributed(Lanes), b);
    FilterMapMembers(Parties(c.invoices), Unattributed(Invoices), b);
  }

  lemma RepeatedIsReported(c: Census, id: string)
    requires id in DuplicateIds(c.invoices)
    ensures Blocker(DuplicateCensusInvoice, id, "") in CensusBlockers(c)
  {
    hide FilterMap, Text.InOrder, DuplicateIds, NoDuplicates, Texts, Parties, Unattributed;
    var b := Blocker(DuplicateCensusInvoice, id, "");
    FilterMapMembers(Text.InOrder(DuplicateIds(c.invoices)), DuplicateBlocker(), b);
    assert id in Text.InOrder(DuplicateIds(c.invoices)) && DuplicateBlocker()(id) == Some(b);
  }

  lemma CodesWithin<A(!new)>(s: seq<A>, f: A -> Option<Blocker>, codes: set<Code>)
    requires forall x: A | f(x).Some? :: f(x).value.code in codes
    ensures forall b | b in FilterMap(s, f) :: b.code in codes
  {
    forall b | b in FilterMap(s, f) ensures b.code in codes {
      FilterMapMembers(s, f, b);
    }
  }

  lemma FailuresHaveCodes(s: Setup, derive: Derive)
    ensures forall k: Key | PartitionBlocker(s, derive)(k).Some? ::
      PartitionBlocker(s, derive)(k).value.code in PARTITION_CODES
  {
  }

  lemma CollisionsHaveCode(candidates: map<Key, Partition>)
    ensures forall a: string | CollisionBlocker(candidates)(a).Some? ::
      CollisionBlocker(candidates)(a).value.code in {TargetAccountCollision}
  {
  }

  lemma PartitionBlockerSays(c: Census, t: Target, derive: Derive, b: Blocker)
    requires b in PartitionBlockers(c, t, derive)
    ensures b.code !in INVOICE_CODES
  {
    hide FilterMap, Text.InOrder, SortedKeys, Universe, CandidatesOf, AccountsOf, TargetTable, ExtraBlocker,
      PartitionBlocker, CollisionBlocker, SetupOf;
    ExtrasSay(SortedKeys(TargetTable(t.rows).Keys - Universe(c)));
    FailuresSay(SortedKeys(Universe(c)), SetupOf(c, t), derive);
    CollisionsSay(Text.InOrder(AccountsOf(CandidatesOf(c, t, derive))), CandidatesOf(c, t, derive));
  }

  lemma ExtrasSay(keys: seq<Key>)
    ensures forall b | b in FilterMap(keys, ExtraBlocker()) :: b.code !in INVOICE_CODES
  {
    CodesWithin(keys, ExtraBlocker(), {TargetEntryWithoutCensusAccount});
  }

  lemma FailuresSay(keys: seq<Key>, s: Setup, derive: Derive)
    ensures forall b | b in FilterMap(keys, PartitionBlocker(s, derive)) :: b.code !in INVOICE_CODES
  {
    FailuresHaveCodes(s, derive);
    hide PartitionBlocker, FilterMap;
    CodesWithin(keys, PartitionBlocker(s, derive), PARTITION_CODES);
  }

  lemma CollisionsSay(accounts: seq<string>, candidates: map<Key, Partition>)
    ensures forall b | b in FilterMap(accounts, CollisionBlocker(candidates)) :: b.code !in INVOICE_CODES
  {
    CollisionsHaveCode(candidates);
    hide CollisionBlocker, FilterMap;
    CodesWithin(accounts, CollisionBlocker(candidates), {TargetAccountCollision});
  }

  lemma SettlementBlockerSays(c: Census, t: Target, derive: Derive, b: Blocker)
    requires b in SettlementBlockers(c, t, derive)
    ensures b.code !in INVOICE_CODES
  {
    hide FilterMap, SortedSettlementKeys, InScopeOf, InvoiceMappings, CountOf, KeysIn, InvoicesOf;
    var (scoped, mapped) := (InScopeOf(c), InvoicesOf(InvoiceMappings(c, t, derive)));
    FilterMapMembers(SortedSettlementKeys(KeysIn(scoped)), RepeatBlocker(scoped), b);
    FilterMapMembers(scoped, BlockSettlement(scoped, mapped), b);
  }

  lemma SkippedIsRepeated(
      id: string, rows: seq<InvoiceRow>, resolved: map<Key, Partition>, precisions: map<string, int>)
    ensures InvoiceVerdict(id, rows, resolved, precisions).Skipped? <==> id in DuplicateIds(rows)
  {
    var found := RowsOf(rows, id);
    if |found| > 1 {
      assert found[0] in found;
      FilterMapMembers(rows, WithId(id), found[0]);
    }
  }

  /** No blocker speaks under an invoice code of an invoice whose verdict is to be mapped. */
  lemma BlockerOfMapped(c: Census, t: Target, derive: Derive, b: Blocker)
    requires b in AllBlockers(c, t, derive)
    requires InvoiceVerdict(b.reference, c.invoices, ResolvedOf(c, t, derive), PrecisionTable(c.precisions)).Mapped?
    ensures b.code !in INVOICE_CODES
  {
    hide CensusBlockers, PartitionBlockers, InvoiceBlockers, SettlementBlockers, InvoiceVerdict, DuplicateIds,
      ResolvedOf, PrecisionTable;
    SkippedIsRepeated(b.reference, c.invoices, ResolvedOf(c, t, derive), PrecisionTable(c.precisions));
    if b in CensusBlockers(c) {
      CensusBlockerSays(c, b);
    } else if b in InvoiceBlockers(c, t, derive) {
      InvoiceBlockerSays(c, t, derive, b);
    } else if b in PartitionBlockers(c, t, derive) {
      PartitionBlockerSays(c, t, derive, b);
    } else {
      SettlementBlockerSays(c, t, derive, b);
    }
  }

  lemma MappedOrReported(c: Census, t: Target, derive: Derive, id: string)
    requires id in EligibleSet(c)
    ensures id in InvoicesOf(InvoiceMappings(c, t, derive)) <==> !Reports(AllBlockers(c, t, derive), INVOICE_CODES, id)
  {
    hide EligibleSet, ResolvedOf, CensusBlockers, PartitionBlockers, InvoiceBlockers, SettlementBlockers,
      InvoiceMappings, InvoiceVerdict, DuplicateIds, InvoicesOf;
    MappedInvoice(c, t, derive, id);
    var v := InvoiceVerdict(id, c.invoices, ResolvedOf(c, t, derive), PrecisionTable(c.precisions));
    SkippedIsRepeated(id, c.invoices, ResolvedOf(c, t, derive), PrecisionTable(c.precisions));
    if v.Skipped? {
      RepeatedIsReported(c, id);
      assert Blocker(DuplicateCensusInvoice, id, "") in AllBlockers(c, t, derive);
    } else if v.Blocked? {
      InvoiceBlockerSays(c, t, derive, v.blocker);
      VerdictNames(id, c.invoices, ResolvedOf(c, t, derive), PrecisionTable(c.precisions));
      assert v.blocker in AllBlockers(c, t, derive);
    } else {
      forall b | b in AllBlockers(c, t, derive) && b.reference == id ensures b.code !in INVOICE_CODES {
        BlockerOfMapped(c, t, derive, b);
      }
    }
  }

  /** Every eligible invoice is exactly one of mapped and blocked under an invoice code. */
  lemma InvoicesAreAccountedFor(c: Census, t: Target, derive: Derive, id: string)
    requires id in EligibleSet(c)
    ensures
      var d := DraftOf(c, t, derive);
      (exists m :: m in d.assembly.invoices && m.invoice == id) <==> !Reports(d.blockers, INVOICE_CODES, id)
  {
    hide EligibleSet, Listed, Sort, AllBlockers, InvoiceMappings, DischargeMappings, Reports, ResolvedOf;
    MappedOrReported(c, t, derive, id);
    SortPermutes(InvoiceMappings(c, t, derive), InvoiceLe);
    SortPermutes(AllBlockers(c, t, derive), BlockerLe);
    SameReports(AllBlockers(c, t, derive), DraftOf(c, t, derive).blockers, INVOICE_CODES, id);
  }

  lemma SameReports(a: seq<Blocker>, b: seq<Blocker>, codes: set<Code>, reference: string)
    requires forall x :: x in a <==> x in b
    ensures Reports(a, codes, reference) <==> Reports(b, codes, reference)
  {
  }

  lemma VerdictNames(id: string, rows: seq<InvoiceRow>, resolved: map<Key, Partition>, precisions: map<string, int>)
    ensures
      var v := InvoiceVerdict(id, rows, resolved, precisions);
      (v.Blocked? ==> v.blocker.reference == id) && (v.Mapped? ==> v.value.invoice == id)
  {
    hide RowsOf;
  }

  /** A mapped invoice is the census's one row of that id, in a resolved partition and at its declared precision. */
  lemma MappedInvoicesAreSound(c: Census, t: Target, derive: Derive, m: InvoiceMapping)
    requires m in DraftOf(c, t, derive).assembly.invoices
    ensures m == InvoiceMapping(m.invoice, Identity("invoice", m.invoice), m.invoice) && m.invoice in EligibleSet(c)
    ensures
      var (found, partitions) := (RowsOf(c.invoices, m.invoice), DraftOf(c, t, derive).assembly.partitions);
      && |found| == 1
      && exists p | p in partitions ::
        Some(PartitionKey(p)) == PartyKey(found[0].party) && found[0].precision == Some(p.precision)
  {
    hide EligibleSet, Listed, Sort, AllBlockers, DischargeMappings, RowsOf, ResolvedOf, Text.InOrder, FilterMap,
      InvoiceMappings;
    var resolved := ResolvedOf(c, t, derive);
    SortPermutes(InvoiceMappings(c, t, derive), InvoiceLe);
    MappingIsOfRow(c, t, derive, m);
    CandidateKeys(c, t, derive);
    ListedIsResolved(resolved);
    var key := PartyKey(RowsOf(c.invoices, m.invoice)[0].party).value;
    PrecisionIsDeclared(c, t, derive, key);
    assert resolved[key] in Listed(resolved);
  }

  lemma MappingIsOfRow(c: Census, t: Target, derive: Derive, m: InvoiceMapping)
    requires m in InvoiceMappings(c, t, derive)
    ensures m == InvoiceMapping(m.invoice, Identity("invoice", m.invoice), m.invoice) && m.invoice in EligibleSet(c)
    ensures
      var found := RowsOf(c.invoices, m.invoice);
      && |found| == 1 && PartyKey(found[0].party).Some? && PartyKey(found[0].party).value in ResolvedOf(c, t, derive)
      && PartyKey(found[0].party).value.currency in PrecisionTable(c.precisions)
      && found[0].precision == Some(PrecisionTable(c.precisions)[PartyKey(found[0].party).value.currency])
  {
    hide EligibleSet, RowsOf, ResolvedOf, Text.InOrder, FilterMap, PartyKey;
    var f := MapInvoice(c.invoices, ResolvedOf(c, t, derive), PrecisionTable(c.precisions));
    FilterMapMembers(Text.InOrder(EligibleSet(c)), f, m);
    var id :| id in Text.InOrder(EligibleSet(c)) && f(id) == Some(m);
  }

  lemma PrecisionIsDeclared(c: Census, t: Target, derive: Derive, k: Key)
    requires k in ResolvedOf(c, t, derive)
    ensures k.currency in PrecisionTable(c.precisions)
      && ResolvedOf(c, t, derive)[k].precision == PrecisionTable(c.precisions)[k.currency]
  {
    hide Universe;
  }

  // ---- settlements -----------------------------------------------------------------------------------

  lemma VerdictIsListed(s: Scoped, scoped: seq<Scoped>, mapped: set<string>)
    requires s in scoped
    ensures
      var v := SettlementVerdict(s, scoped, mapped);
      && (v.Mapped? ==> v.value in FilterMap(scoped, MapSettlement(scoped, mapped)) && v.value.settlement == s.key)
      && (v.Blocked? ==> Reports(FilterMap(scoped, BlockSettlement(scoped, mapped)), SETTLEMENT_CODES, s.key.id))
      && (v.Skipped? ==>
            Reports(FilterMap(SortedSettlementKeys(KeysIn(scoped)), RepeatBlocker(scoped)), SETTLEMENT_CODES, s.key.id))
  {
    hide CountOf, FilterMap, SortedSettlementKeys;
    match SettlementVerdict(s, scoped, mapped)
    case Mapped(m) =>
      assert MapSettlement(scoped, mapped)(s) == Some(m);
      FilterMapMembers(scoped, MapSettlement(scoped, mapped), m);
    case Blocked(b) =>
      assert BlockSettlement(scoped, mapped)(s) == Some(b);
      FilterMapMembers(scoped, BlockSettlement(scoped, mapped), b);
      assert b.code in SETTLEMENT_CODES;
    case Skipped =>
      var b := Blocker(DuplicateCensusSettlement, s.key.id, "");
      assert s.key in SortedSettlementKeys(KeysIn(scoped)) && RepeatBlocker(scoped)(s.key) == Some(b);
      FilterMapMembers(SortedSettlementKeys(KeysIn(scoped)), RepeatBlocker(scoped), b);
  }

  /** Every active settlement on an eligible invoice is mapped, or blocked under a settlement code. */
  lemma SettlementsAreAccountedFor(c: Census, t: Target, derive: Derive, s: Scoped)
    requires s in InScopeOf(c)
    ensures
      var d := DraftOf(c, t, derive);
      || (exists m :: m in d.assembly.discharges && m.settlement == s.key)
      || Reports(d.blockers, SETTLEMENT_CODES, s.key.id)
  {
    hide Listed, Sort, CensusBlockers, PartitionBlockers, InvoiceBlockers, ResolvedOf, InvoiceMappings, InScopeOf,
      FilterMap, SortedSettlementKeys, InvoicesOf, Reports, SettlementVerdict, KeysIn, RepeatBlocker, MapSettlement,
      BlockSettlement;
    var d := DraftOf(c, t, derive);
    SortPermutes(DischargeMappings(c, t, derive), DischargeLe);
    SortPermutes(AllBlockers(c, t, derive), BlockerLe);
    var (scoped, mapped) := (InScopeOf(c), InvoicesOf(InvoiceMappings(c, t, derive)));
    VerdictIsListed(s, scoped, mapped);
    match SettlementVerdict(s, scoped, mapped)
    case Mapped(m) =>
      assert m in d.assembly.discharges;
    case Blocked(_) =>
      ReportsMore(FilterMap(scoped, BlockSettlement(scoped, mapped)), d.blockers, SETTLEMENT_CODES, s.key.id);
    case Skipped =>
      ReportsMore(FilterMap(SortedSettlementKeys(KeysIn(scoped)), RepeatBlocker(scoped)), d.blockers, SETTLEMENT_CODES,
        s.key.id);
  }

  /**
   * A discharge mapping is the one in-scope settlement of its key, on a mapped invoice, and no
   * other mapping shares its reference.
   */
  lemma DischargesReferToMappedInvoices(c: Census, t: Target, derive: Derive, m: DischargeMapping)
    requires m in DraftOf(c, t, derive).assembly.discharges
    ensures exists s ::
      && s in InScopeOf(c) && s.key == m.settlement && TextOf(s.source) == m.source && CountOf(InScopeOf(c), s.key) <= 1
      && exists i :: i in DraftOf(c, t, derive).assembly.invoices && i.invoice == s.invoice
    ensures forall n | n in DraftOf(c, t, derive).assembly.discharges && n.reference == m.reference :: n == m
  {
    hide Listed, Sort, AllBlockers, ResolvedOf, InvoiceMappings, InScopeOf, CountOf, FilterMap;
    SortPermutes(DischargeMappings(c, t, derive), DischargeLe);
    SortPermutes(InvoiceMappings(c, t, derive), InvoiceLe);
    var (scoped, mapped) := (InScopeOf(c), InvoicesOf(InvoiceMappings(c, t, derive)));
    FilterMapMembers(scoped, MapSettlement(scoped, mapped), m);
    var s :| s in scoped && MapSettlement(scoped, mapped)(s) == Some(m);
    assert s.invoice in mapped;
    forall n | n in DischargeMappings(c, t, derive) && n.reference == m.reference ensures n == m {
      FilterMapMembers(scoped, MapSettlement(scoped, mapped), n);
      var r :| r in scoped && MapSettlement(scoped, mapped)(r) == Some(n);
      ReferenceNamesKey(n.settlement, m.settlement);
      DraftOrder.OneMappingPerKey(scoped, mapped, n, m);
    }
  }

  lemma ReferenceNamesKey(a: SettlementKey, b: SettlementKey)
    requires a.kind in MAPPABLE_KINDS && b.kind in MAPPABLE_KINDS
    requires a.kind + ":" + a.id == b.kind + ":" + b.id
    ensures a == b
  {
    var (x, y) := (a.kind + ":" + a.id, b.kind + ":" + b.id);
    assert x[0] == a.kind[0] && y[0] == b.kind[0];
    assert "payment"[0] == 'p' && "credit_note"[0] == 'c';
    assert a.kind == b.kind;
    assert x[|a.kind| + 1..] == a.id && y[|b.kind| + 1..] == b.id;
  }

  // ---- the declaration's own rules ---------------------------------------------------------------------

  lemma {:induction false} MappingsDistinct(
      ids: seq<string>, rows: seq<InvoiceRow>, resolved: map<Key, Partition>, precisions: map<string, int>)
    requires NoDuplicates(ids)
    ensures
      var mappings := FilterMap(ids, MapInvoice(rows, resolved, precisions));
      && (forall m | m in mappings :: m.invoice in ids)
      && forall i, j | 0 <= i < j < |mappings| :: mappings[i].invoice != mappings[j].invoice
  {
    hide InvoiceVerdict;
    if ids != [] {
      var (rest, last) := (ids[..|ids| - 1], ids[|ids| - 1]);
      assert ids == rest + [last];
      MappingsDistinct(rest, rows, resolved, precisions);
      VerdictNames(last, rows, resolved, precisions);
      var mappings := FilterMap(rest, MapInvoice(rows, resolved, precisions));
      forall i | 0 <= i < |mappings| ensures mappings[i].invoice != last {
        assert mappings[i] in mappings && mappings[i].invoice in rest;
        var j :| 0 <= j < |rest| && rest[j] == mappings[i].invoice;
        assert ids[j] == rest[j] && ids[|ids| - 1] == last;
      }
    }
  }

  /** Invoice mappings come out of the eligible ids already in order, so sorting them again moves nothing. */
  lemma {:induction false} MappingsSorted(
      ids: seq<string>, rows: seq<InvoiceRow>, resolved: map<Key, Partition>, precisions: map<string, int>)
    requires Sorted(ids, Text.Le)
    ensures
      var mappings := FilterMap(ids, MapInvoice(rows, resolved, precisions));
      (forall m | m in mappings :: m.invoice in ids) && Sorted(mappings, InvoiceLe)
  {
    hide InvoiceVerdict, Text.Le;
    if ids != [] {
      var (rest, last) := (ids[..|ids| - 1], ids[|ids| - 1]);
      assert ids == rest + [last];
      MappingsSorted(rest, rows, resolved, precisions);
      VerdictNames(last, rows, resolved, precisions);
      var mappings := FilterMap(rest, MapInvoice(rows, resolved, precisions));
      forall i | 0 <= i < |mappings| ensures Text.Le(mappings[i].invoice, last) {
        assert mappings[i] in mappings && mappings[i].invoice in rest;
        var j :| 0 <= j < |rest| && rest[j] == mappings[i].invoice;
        assert ids[j] == rest[j] && ids[|ids| - 1] == last;
      }
    }
  }

  /** A draft always passes the declaration's check against ambiguous lookups. */
  lemma DraftedLookupsAreDistinct(c: Census, t: Target, derive: Derive)
    ensures LookupsDistinct(DraftOf(c, t, derive).assembly)
  {
    hide Listed, Sort, AllBlockers, ResolvedOf, EligibleSet, Text.InOrder, FilterMap, DischargeMappings, Text.Le;
    TargetsAreDistinct(c, t, derive);
    var ids := Text.InOrder(EligibleSet(c));
    MappingsDistinct(ids, c.invoices, ResolvedOf(c, t, derive), PrecisionTable(c.precisions));
    MappingsSorted(ids, c.invoices, ResolvedOf(c, t, derive), PrecisionTable(c.precisions));
    SortIsIdentityOnSorted(InvoiceMappings(c, t, derive), InvoiceLe);
  }

  // ---- what a partition carries --------------------------------------------------------------------------

  lemma {:induction false} TableRow(rows: seq<TargetRow>, k: Key)
    ensures k in TargetTable(rows) <==> exists r :: r in rows && TargetKey(r) == k
    ensures k in TargetTable(rows) ==> TargetTable(rows)[k] in rows && TargetKey(TargetTable(rows)[k]) == k
  {
    hide TargetKey;
    if rows != [] {
      var (rest, last) := (rows[..|rows| - 1], rows[|rows| - 1]);
      TableRow(rest, k);
      assert rows == rest + [last];
    }
  }

  lemma {:induction false} PrecisionRowOf(rows: seq<PrecisionRow>, currency: string)
    requires forall r | r in rows :: PrecisionRowOk(r)
    ensures currency in PrecisionTable(rows) ==>
      PrecisionRow(Str(currency), Some(PrecisionTable(rows)[currency])) in rows
  {
    if rows != [] {
      var (rest, last) := (rows[..|rows| - 1], rows[|rows| - 1]);
      assert rows == rest + [last] && PrecisionRowOk(last);
      PrecisionRowOf(rest, currency);
    }
  }

  /**
   * A declared target wins; otherwise the account is derived from the identity and the position is
   * the pristine one.
   */
  predicate HasTarget(p: Partition, t: Target, derive: Derive) {
    var k := PartitionKey(p);
    if exists r :: r in t.rows && TargetKey(r) == k then
      exists r :: r in t.rows && TargetKey(r) == k
        && p.account == TextOf(r.account) && p.fingerprint == TextOf(r.fingerprint) && p.mark == TextOf(r.mark)
    else
      && t.derivation.Some? && k.currency in Pristine(t)
      && p.account == derive(TextOf(t.derivation.value.namespace), Format(t.derivation.value.nameFormat, k))
      && p.fingerprint == TextOf(Pristine(t)[k.currency].fingerprint) && p.mark == TextOf(Pristine(t)[k.currency].mark)
  }

  /** Every assembly partition carries its source account, its currency's declared precision, and its target. */
  lemma PartitionsCarryTheirTargets(c: Census, t: Target, derive: Derive, p: Partition)
    requires RefusalOf(c, t) == None && p in DraftOf(c, t, derive).assembly.partitions
    ensures p.sourceKey == "source-account:" + p.source && p.idempotencyKey == Format(t.keyFormat, PartitionKey(p))
    ensures PrecisionRow(Str(p.currency), Some(p.precision)) in c.precisions
    ensures HasTarget(p, t, derive)
  {
    PrecisionsAreTyped(c, t);
    hide RefusalOf, HasTarget, DraftOf, SetupOf, Resolve, Format, PrecisionRowOk;
    ListedResolves(c, t, derive, p);
    ResolvedCarries(c, t, derive, PartitionKey(p), p);
  }

  lemma ListedResolves(c: Census, t: Target, derive: Derive, p: Partition)
    requires p in DraftOf(c, t, derive).assembly.partitions
    ensures Resolve(PartitionKey(p), SetupOf(c, t), derive) == Ok(p)
  {
    CandidateKeys(c, t, derive);
    hide Universe, SetupOf, InvoiceMappings, DischargeMappings, AllBlockers, Sort, Listed, Alone, Resolve;
    ListedIsResolved(ResolvedOf(c, t, derive));
  }

  lemma ResolvedCarries(c: Census, t: Target, derive: Derive, k: Key, p: Partition)
    requires (forall r | r in c.precisions :: PrecisionRowOk(r)) && Resolve(k, SetupOf(c, t), derive) == Ok(p)
    ensures p.sourceKey == "source-account:" + p.source && p.idempotencyKey == Format(t.keyFormat, k)
    ensures PartitionKey(p) == k && PrecisionRow(Str(p.currency), Some(p.precision)) in c.precisions
    ensures HasTarget(p, t, derive)
  {
    hide PrecisionTable, TargetTable, Format, PrecisionRowOk, TargetKey;
    PrecisionRowOf(c.precisions, k.currency);
    TableRow(t.rows, k);
  }

  lemma PrecisionsAreTyped(c: Census, t: Target)
    requires RefusalOf(c, t) == None
    ensures forall r | r in c.precisions :: PrecisionRowOk(r)
  {
    hide TargetOk, IsText, InScopeOf, EligibleSet, PartiesOk, InvoicesOk, EligibleOk;
  }

  predicate PartitionLe(p: Partition, q: Partition) {
    KeyLe(PartitionKey(p), PartitionKey(q))
  }

  lemma KeysAreSorted(keys: set<Key>)
    ensures Sorted(SortedKeys(keys), KeyLe)
  {
    KeyLeIsTotalOrder();
  }

  lemma PartitionsAreSorted(c: Census, t: Target, derive: Derive)
    ensures Sorted(DraftOf(c, t, derive).assembly.partitions, PartitionLe)
  {
    var resolved := ResolvedOf(c, t, derive);
    var keys := SortedKeys(resolved.Keys);
    CandidateKeys(c, t, derive);
    KeysAreSorted(resolved.Keys);
    hide ResolvedOf, KeyLe, InvoiceMappings, DischargeMappings, AllBlockers, Universe, Sort, SortedKeys, EligibleSet,
      IdsOf;
    forall i | 0 <= i < |keys| ensures PartitionKey(Listed(resolved)[i]) == keys[i] {
      assert keys[i] in keys;
    }
  }

  /**
   * The lists of a draft are in order, and its counts are their lengths and the numbers of
   * distinct invoices, eligible ids and partitions of the census.
   */
  lemma DraftIsSortedAndCounted(c: Census, t: Target, derive: Derive)
    ensures
      var d := DraftOf(c, t, derive);
      && Sorted(d.blockers, BlockerLe) && Sorted(d.assembly.partitions, PartitionLe)
      && Sorted(d.assembly.invoices, InvoiceLe) && Sorted(d.assembly.discharges, DischargeLe)
      && d.counts.partitions == |d.assembly.partitions| && d.counts.invoiceMappings == |d.assembly.invoices|
      && d.counts.dischargeMappings == |d.assembly.discharges| && d.counts.blockers == |d.blockers|
      && d.counts.censusInvoices == |IdsOf(c.invoices)| && d.counts.eligibleInvoices == |EligibleSet(c)|
      && d.counts.censusPartitions == |Universe(c)|
  {
    PartitionsAreSorted(c, t, derive);
    hide Sort, AllBlockers, InvoiceMappings, DischargeMappings, ResolvedOf, BlockerLe, DischargeLe, InvoiceLe,
      PartitionLe, TotalPreorder, Sorted, Universe, EligibleSet, IdsOf;
    BlockerLeIsTotalOrder();
    DischargeLeIsTotalPreorder();
    InvoiceLeIsPreorder();
    SortSorts(AllBlockers(c, t, derive), BlockerLe);
    SortSorts(InvoiceMappings(c, t, derive), InvoiceLe);
    SortSorts(DischargeMappings(c, t, derive), DischargeLe);
  }

  lemma InvoiceLeIsPreorder()
    ensures TotalPreorder(InvoiceLe)
  {
    hide Text.Le;
    Text.LeIsTotalOrder();
  }
}
