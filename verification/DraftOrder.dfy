/** Drafting does not depend on the order in which the census lists anything. */
module DraftOrder {
  import opened Wrappers
  import opened Sorting
  import opened Filtering
  import opened OpeningModel
  import opened DraftSpec
  import Text

  /** The same rows, as often, in any order. */
  ghost predicate SameRows(a: Census, b: Census) {
    && a.version == b.version && a.complete == b.complete && a.precisions == b.precisions
    && multiset(a.controls) == multiset(b.controls) && multiset(a.lanes) == multiset(b.lanes)
    && multiset(a.invoices) == multiset(b.invoices) && multiset(a.eligible) == multiset(b.eligible)
    && multiset(a.settlements) == multiset(b.settlements)
  }

  lemma SizesAgree<T>(a: seq<T>, b: seq<T>)
    requires multiset(a) == multiset(b)
    ensures |a| == |b| && (|a| == 1 ==> a == b)
  {
    MembersAgree(a, b);
    if |a| == 1 {
      assert a[0] in a;
    }
  }

  lemma {:induction false} PointwiseIsFilterMap<A, B>(s: seq<A>, r: seq<B>, f: A -> Option<B>)
    requires |r| == |s| && forall i | 0 <= i < |s| :: f(s[i]) == Some(r[i])
    ensures FilterMap(s, f) == r
  {
    if s != [] {
      PointwiseIsFilterMap(s[..|s| - 1], r[..|r| - 1], f);
      assert r == r[..|r| - 1] + [r[|r| - 1]];
    }
  }

  lemma PartiesPermute(a: seq<InvoiceRow>, b: seq<InvoiceRow>)
    requires multiset(a) == multiset(b)
    ensures multiset(Parties(a)) == multiset(Parties(b))
  {
    var f := (r: InvoiceRow) => Some(r.party);
    PointwiseIsFilterMap(a, Parties(a), f);
    PointwiseIsFilterMap(b, Parties(b), f);
    FilterMapPermutes(a, b, f);
  }

  lemma TextsPermute(a: seq<Field>, b: seq<Field>)
    requires multiset(a) == multiset(b)
    ensures multiset(Texts(a)) == multiset(Texts(b))
    ensures NoDuplicates(Texts(a)) <==> NoDuplicates(Texts(b))
  {
    var f := (x: Field) => Some(TextOf(x));
    PointwiseIsFilterMap(a, Texts(a), f);
    PointwiseIsFilterMap(b, Texts(b), f);
    FilterMapPermutes(a, b, f);
    if NoDuplicates(Texts(a)) {
      PermutationKeepsDistinct(Texts(a), Texts(b));
    }
    if NoDuplicates(Texts(b)) {
      PermutationKeepsDistinct(Texts(b), Texts(a));
    }
  }

  lemma RowsAgree(a: seq<InvoiceRow>, b: seq<InvoiceRow>, id: string)
    requires multiset(a) == multiset(b)
    ensures |RowsOf(a, id)| == |RowsOf(b, id)|
    ensures |RowsOf(a, id)| == 1 ==> RowsOf(a, id) == RowsOf(b, id)
  {
    FilterMapPermutes(a, b, WithId(id));
    SizesAgree(RowsOf(a, id), RowsOf(b, id));
  }

  /** Even the row a repeated id would keep does not matter: repeated ids are passed over. */
  lemma InvoiceVerdictsAgree(
      a: seq<InvoiceRow>, b: seq<InvoiceRow>, resolved: map<Key, Partition>, precisions: map<string, int>, id: string)
    requires multiset(a) == multiset(b)
    ensures InvoiceVerdict(id, a, resolved, precisions) == InvoiceVerdict(id, b, resolved, precisions)
  {
    hide RowsOf, RowVerdict;
    RowsAgree(a, b, id);
  }

  lemma CountsAgree(a: seq<Scoped>, b: seq<Scoped>, key: SettlementKey)
    requires multiset(a) == multiset(b)
    ensures CountOf(a, key) == CountOf(b, key)
  {
    FilterMapPermutes(a, b, WithKey(key));
    SizesAgree(FilterMap(a, WithKey(key)), FilterMap(b, WithKey(key)));
  }

  /** The set-valued views of two orderings are the same sets. */
  lemma ViewsAgree(a: Census, b: Census)
    requires SameRows(a, b)
    ensures Universe(a) == Universe(b) && EligibleSet(a) == EligibleSet(b) && IdsOf(a.invoices) == IdsOf(b.invoices)
    ensures DuplicateIds(a.invoices) == DuplicateIds(b.invoices)
    ensures multiset(InScopeOf(a)) == multiset(InScopeOf(b))
  {
    MembersAgree(a.controls, b.controls);
    MembersAgree(a.lanes, b.lanes);
    PartiesPermute(a.invoices, b.invoices);
    MembersAgree(Parties(a.invoices), Parties(b.invoices));
    assert Universe(a) == Universe(b);
    MembersAgree(a.eligible, b.eligible);
    assert EligibleSet(a) == EligibleSet(b);
    FilterMapPermutes(a.settlements, b.settlements, Scope(EligibleSet(a)));
    MembersAgree(a.invoices, b.invoices);
    assert IdsOf(a.invoices) == IdsOf(b.invoices);
    forall id: string ensures |RowsOf(a.invoices, id)| == |RowsOf(b.invoices, id)| {
      RowsAgree(a.invoices, b.invoices, id);
    }
    hide RowsOf;
    assert DuplicateIds(a.invoices) == DuplicateIds(b.invoices);
  }

  lemma SourcesAgree(a: seq<Scoped>, b: seq<Scoped>)
    requires multiset(a) == multiset(b) && SourcesOk(a)
    ensures SourcesOk(b)
  {
    hide CountOf;
    MembersAgree(a, b);
    forall s | s in b ensures SourceOk(s, b) {
      CountsAgree(a, b, s.key);
      assert SourceOk(s, a);
    }
  }

  lemma CensusOkAgrees(a: Census, b: Census)
    requires SameRows(a, b) && CensusOk(a)
    ensures CensusOk(b)
  {
    hide PrecisionsOk, IsUuid;
    MembersAgree(a.controls, b.controls);
    MembersAgree(a.lanes, b.lanes);
    MembersAgree(a.invoices, b.invoices);
    MembersAgree(a.eligible, b.eligible);
    PartiesPermute(a.invoices, b.invoices);
    MembersAgree(Parties(a.invoices), Parties(b.invoices));
  }

  /** A census is refused, or not, whatever its order. */
  lemma RefusalIgnoresOrder(a: Census, b: Census, t: Target)
    requires SameRows(a, b)
    ensures RefusalOf(a, t) == RefusalOf(b, t)
  {
    hide CensusOk, TargetOk, DistinctTargets, SourcesOk, InScopeOf, EligibleSet, IsText, SettlementRowOk;
    ViewsAgree(a, b);
    MembersAgree(a.settlements, b.settlements);
    if CensusOk(a) {
      CensusOkAgrees(a, b);
    }
    if CensusOk(b) {
      CensusOkAgrees(b, a);
    }
    if SourcesOk(InScopeOf(a)) {
      SourcesAgree(InScopeOf(a), InScopeOf(b));
    }
    if SourcesOk(InScopeOf(b)) {
      SourcesAgree(InScopeOf(b), InScopeOf(a));
    }
  }

  lemma CensusBlockersAgree(a: Census, b: Census)
    requires SameRows(a, b)
    ensures multiset(CensusBlockers(a)) == multiset(CensusBlockers(b))
  {
    hide FilterMap, Text.InOrder, DuplicateIds, NoDuplicates, Parties, Texts, Unattributed, DuplicateBlocker;
    ViewsAgree(a, b);
    TextsPermute(a.eligible, b.eligible);
    PartiesPermute(a.invoices, b.invoices);
    FilterMapPermutes(a.controls, b.controls, Unattributed(Controls));
    FilterMapPermutes(a.lanes, b.lanes, Unattributed(Lanes));
    FilterMapPermutes(Parties(a.invoices), Parties(b.invoices), Unattributed(Invoices));
  }

  lemma InvoicesAgree(a: Census, b: Census, t: Target, derive: Derive)
    requires SameRows(a, b)
    ensures ResolvedOf(a, t, derive) == ResolvedOf(b, t, derive)
    ensures PartitionBlockers(a, t, derive) == PartitionBlockers(b, t, derive)
    ensures InvoiceMappings(a, t, derive) == InvoiceMappings(b, t, derive)
    ensures InvoiceBlockers(a, t, derive) == InvoiceBlockers(b, t, derive)
  {
    hide FilterMap, Text.InOrder, SortedKeys, Universe, EligibleSet, WithoutCollisions, Candidates, InvoiceVerdict,
      DuplicateIds, IdsOf, InScopeOf, ExtraBlocker, PartitionBlocker, CollisionBlocker, AccountsOf, TargetTable;
    ViewsAgree(a, b);
    var (resolved, precisions, ids) := (ResolvedOf(a, t, derive), PrecisionTable(a.precisions),
      Text.InOrder(EligibleSet(a)));
    forall id
      ensures InvoiceVerdict(id, a.invoices, resolved, precisions)
        == InvoiceVerdict(id, b.invoices, resolved, precisions)
    {
      InvoiceVerdictsAgree(a.invoices, b.invoices, resolved, precisions, id);
    }
    FilterMapCongruent(ids, MapInvoice(a.invoices, resolved, precisions), MapInvoice(b.invoices, resolved, precisions));
    FilterMapCongruent(ids, BlockInvoice(a.invoices, resolved, precisions),
      BlockInvoice(b.invoices, resolved, precisions));
  }

  /** Settlements of two orderings get the same verdicts, so the same mappings and blockers as often. */
  lemma VerdictListsAgree(a: seq<Scoped>, b: seq<Scoped>, mapped: set<string>)
    requires multiset(a) == multiset(b)
    ensures multiset(FilterMap(a, MapSettlement(a, mapped))) == multiset(FilterMap(b, MapSettlement(b, mapped)))
    ensures multiset(FilterMap(a, BlockSettlement(a, mapped))) == multiset(FilterMap(b, BlockSettlement(b, mapped)))
    ensures FilterMap(SortedSettlementKeys(KeysIn(a)), RepeatBlocker(a))
      == FilterMap(SortedSettlementKeys(KeysIn(b)), RepeatBlocker(b))
  {
    hide FilterMap, CountOf, SortedSettlementKeys;
    forall key: SettlementKey ensures CountOf(a, key) == CountOf(b, key) {
      CountsAgree(a, b, key);
    }
    FilterMapPermutes(a, b, MapSettlement(a, mapped));
    FilterMapCongruent(b, MapSettlement(a, mapped), MapSettlement(b, mapped));
    FilterMapPermutes(a, b, BlockSettlement(a, mapped));
    FilterMapCongruent(b, BlockSettlement(a, mapped), BlockSettlement(b, mapped));
    MembersAgree(a, b);
    assert KeysIn(a) == KeysIn(b);
    FilterMapCongruent(SortedSettlementKeys(KeysIn(b)), RepeatBlocker(a), RepeatBlocker(b));
  }

  lemma SettlementsAgree(a: Census, b: Census, t: Target, derive: Derive)
    requires SameRows(a, b)
    ensures multiset(DischargeMappings(a, t, derive)) == multiset(DischargeMappings(b, t, derive))
    ensures multiset(SettlementBlockers(a, t, derive)) == multiset(SettlementBlockers(b, t, derive))
  {
    hide FilterMap, Universe, EligibleSet, InvoiceMappings, InScopeOf, MapSettlement, BlockSettlement, RepeatBlocker,
      SortedSettlementKeys, KeysIn, InvoicesOf;
    ViewsAgree(a, b);
    InvoicesAgree(a, b, t, derive);
    VerdictListsAgree(InScopeOf(a), InScopeOf(b), InvoicesOf(InvoiceMappings(a, t, derive)));
  }

  /** Two discharge mappings of one settlement key are one mapping. */
  lemma MappingsSeparate(scoped: seq<Scoped>, mapped: set<string>)
    ensures Separates(DischargeLe, FilterMap(scoped, MapSettlement(scoped, mapped)))
  {
    var mappings := FilterMap(scoped, MapSettlement(scoped, mapped));
    forall x, y | x in mappings && y in mappings && DischargeLe(x, y) && DischargeLe(y, x) ensures x == y {
      SettlementLeIsTotalOrder();
      assert x.settlement == y.settlement;
      OneMappingPerKey(scoped, mapped, x, y);
    }
  }

  lemma OneMappingPerKey(scoped: seq<Scoped>, mapped: set<string>, x: DischargeMapping, y: DischargeMapping)
    requires x in FilterMap(scoped, MapSettlement(scoped, mapped))
      && y in FilterMap(scoped, MapSettlement(scoped, mapped))
    requires x.settlement == y.settlement
    ensures x == y
  {
    hide FilterMap;
    FilterMapMembers(scoped, MapSettlement(scoped, mapped), x);
    FilterMapMembers(scoped, MapSettlement(scoped, mapped), y);
    var r :| r in scoped && MapSettlement(scoped, mapped)(r) == Some(x);
    var s :| s in scoped && MapSettlement(scoped, mapped)(s) == Some(y);
    assert r.key == s.key == x.settlement;
    var alike := FilterMap(scoped, WithKey(x.settlement));
    FilterMapMembers(scoped, WithKey(x.settlement), r);
    FilterMapMembers(scoped, WithKey(x.settlement), s);
    assert r in alike && s in alike && |alike| <= 1;
  }

  lemma BlockersSeparate(s: seq<Blocker>)
    ensures TotalPreorder(BlockerLe) && Separates(BlockerLe, s)
  {
    hide BlockerLe;
    BlockerLeIsTotalOrder();
  }

  lemma BlockersAgree(a: Census, b: Census, t: Target, derive: Derive)
    requires SameRows(a, b)
    ensures multiset(AllBlockers(a, t, derive)) == multiset(AllBlockers(b, t, derive))
    ensures |AllBlockers(a, t, derive)| == |AllBlockers(b, t, derive)|
    ensures Sort(AllBlockers(a, t, derive), BlockerLe) == Sort(AllBlockers(b, t, derive), BlockerLe)
  {
    hide CensusBlockers, PartitionBlockers, InvoiceBlockers, SettlementBlockers, Sort, BlockerLe;
    CensusBlockersAgree(a, b);
    InvoicesAgree(a, b, t, derive);
    SettlementsAgree(a, b, t, derive);
    MembersAgree(AllBlockers(a, t, derive), AllBlockers(b, t, derive));
    BlockersSeparate(AllBlockers(a, t, derive));
    SortIgnoresOrder(AllBlockers(a, t, derive), AllBlockers(b, t, derive), BlockerLe);
  }

  /** Permuting any census list changes nothing: not the assembly, the blockers or the counts, duplicates included. */
  lemma DraftIgnoresOrder(a: Census, b: Census, t: Target, derive: Derive)
    requires SameRows(a, b)
    ensures RefusalOf(a, t) == RefusalOf(b, t) && DraftOf(a, t, derive) == DraftOf(b, t, derive)
  {
    RefusalIgnoresOrder(a, b, t);
    hide RefusalOf, ResolvedOf, InvoiceMappings, DischargeMappings, AllBlockers, Sort, Universe, EligibleSet, IdsOf,
      Listed, BlockerLe, DischargeLe, SameRows, InScopeOf, DuplicateIds;
    ViewsAgree(a, b);
    InvoicesAgree(a, b, t, derive);
    SettlementsAgree(a, b, t, derive);
    BlockersAgree(a, b, t, derive);
    var (x, y) := (DischargeMappings(a, t, derive), DischargeMappings(b, t, derive));
    MembersAgree(x, y);
    DischargeLeIsTotalPreorder();
    DischargesSeparate(a, t, derive);
    SortIgnoresOrder(x, y, DischargeLe);
  }

  lemma DischargesSeparate(c: Census, t: Target, derive: Derive)
    ensures Separates(DischargeLe, DischargeMappings(c, t, derive))
  {
    hide FilterMap, InScopeOf, InvoiceMappings, MapSettlement, DischargeLe;
    MappingsSeparate(InScopeOf(c), InvoicesOf(InvoiceMappings(c, t, derive)));
  }
}
