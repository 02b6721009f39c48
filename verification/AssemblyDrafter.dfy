/** The drafter's loops, each proved to compute its part of the draft. */
module AssemblyDrafter {
  import opened Wrappers
  import opened Sorting
  import opened Filtering
  import opened OpeningModel
  import opened DraftSpec
  import Text

  // ---- reading the census --------------------------------------------------------------------

  lemma PrecisionNext(rows: seq<PrecisionRow>, k: nat)
    requires k < |rows|
    ensures PrecisionTable(rows[..k + 1]) ==
      var precision := if rows[k].precision.Some? then rows[k].precision.value else 0;
      PrecisionTable(rows[..k])[TextOf(rows[k].currency) := precision]
  {
    assert rows[..k + 1][..k] == rows[..k];
  }

  ghost predicate CurrenciesOf(table: map<string, int>, rows: seq<PrecisionRow>) {
    && (forall i | 0 <= i < |rows| :: TextOf(rows[i].currency) in table)
    && forall currency | currency in table :: exists i :: 0 <= i < |rows| && TextOf(rows[i].currency) == currency
  }

  /** `_precisions`: a table of the declared precisions, refusing a repeated currency. */
  method ReadPrecisions(rows: seq<PrecisionRow>) returns (ok: bool, table: map<string, int>)
    ensures ok <==> PrecisionsOk(rows)
    ensures ok ==> table == PrecisionTable(rows)
  {
    table := map[];
    TakeAll(rows);
    for k := 0 to |rows|
      invariant PrecisionsOk(rows[..k]) && table == PrecisionTable(rows[..k]) && CurrenciesOf(table, rows[..k])
    {
      var r := rows[k];
      TakeNext(rows, k);
      if !PrecisionRowOk(r) {
        return false, table;
      }
      if r.currency.text in table {
        var i :| 0 <= i < k && TextOf(rows[..k][i].currency) == r.currency.text;
        assert TextOf(rows[i].currency) == TextOf(rows[k].currency);
        return false, table;
      }
      PrecisionNext(rows, k);
      ghost var before := table;
      table := table[r.currency.text := r.precision.value];
      CurrenciesNext(before, rows, k);
    }
    ok := true;
  }

  lemma CurrenciesNext(table: map<string, int>, rows: seq<PrecisionRow>, k: nat)
    requires k < |rows| && CurrenciesOf(table, rows[..k]) && PrecisionsOk(rows[..k])
    requires PrecisionRowOk(rows[k]) && rows[k].currency.text !in table
    ensures CurrenciesOf(table[rows[k].currency.text := rows[k].precision.value], rows[..k + 1])
      && PrecisionsOk(rows[..k + 1])
  {
    var (seen, next) := (rows[..k], rows[..k + 1]);
    TakeNext(rows, k);
    assert forall i | 0 <= i < k :: next[i] == seen[i];
    assert next[k] == rows[k];
    forall currency | currency in table ensures exists i :: 0 <= i < |next| && TextOf(next[i].currency) == currency {
      var i :| 0 <= i < |seen| && TextOf(seen[i].currency) == currency;
      assert TextOf(next[i].currency) == currency;
    }
  }

  /** The rows read so far, by id; the one a repeated id keeps is the last. */
  ghost predicate IndexedAt(
      rows: seq<InvoiceRow>, invoices: map<string, InvoiceRow>, duplicates: set<string>, id: string)
  {
    && (id in invoices <==> RowsOf(rows, id) != [])
    && (id in invoices ==> invoices[id] == RowsOf(rows, id)[|RowsOf(rows, id)| - 1])
    && (id in duplicates <==> |RowsOf(rows, id)| > 1)
  }

  ghost predicate Indexed(rows: seq<InvoiceRow>, invoices: map<string, InvoiceRow>, duplicates: set<string>) {
    forall id: string :: IndexedAt(rows, invoices, duplicates, id)
  }

  lemma IndexNext(rows: seq<InvoiceRow>, k: nat, invoices: map<string, InvoiceRow>, duplicates: set<string>)
    requires k < |rows| && Indexed(rows[..k], invoices, duplicates)
    ensures
      var id := TextOf(rows[k].id);
      Indexed(rows[..k + 1], invoices[id := rows[k]], if id in invoices then duplicates + {id} else duplicates)
  {
    var key := TextOf(rows[k].id);
    var repeats := if key in invoices then duplicates + {key} else duplicates;
    var (next, table) := (rows[..k + 1], invoices[key := rows[k]]);
    forall id: string ensures IndexedAt(next, table, repeats, id) {
      assert IndexedAt(rows[..k], invoices, duplicates, id);
      assert RowsOf(rows[..k + 1], id) == RowsOf(rows[..k], id) + Optional(WithId(id)(rows[k])) by {
        FilterMapNext(rows, k, WithId(id));
      }
      hide RowsOf;
    }
  }

  lemma IndexedMeans(rows: seq<InvoiceRow>, invoices: map<string, InvoiceRow>, duplicates: set<string>)
    requires Indexed(rows, invoices, duplicates)
    ensures invoices.Keys == IdsOf(rows) && duplicates == DuplicateIds(rows)
  {
    forall id: string ensures id in invoices <==> id in IdsOf(rows) {
      assert IndexedAt(rows, invoices, duplicates, id);
      RowsOfMembers(rows, id);
    }
    forall id: string ensures id in duplicates <==> id in DuplicateIds(rows) {
      assert IndexedAt(rows, invoices, duplicates, id);
      if id in duplicates {
        RowsOfMembers(rows, id);
      }
    }
  }

  lemma RowsOfMembers(rows: seq<InvoiceRow>, id: string)
    ensures RowsOf(rows, id) != [] <==> id in IdsOf(rows)
    ensures forall r :: r in RowsOf(rows, id) <==> r in rows && TextOf(r.id) == id
  {
    forall r ensures r in RowsOf(rows, id) <==> r in rows && TextOf(r.id) == id {
      FilterMapMembers(rows, WithId(id), r);
    }
    if RowsOf(rows, id) != [] {
      assert RowsOf(rows, id)[0] in RowsOf(rows, id);
    }
  }

  /** The invoice table and the ids that occur more than once. */
  method IndexInvoices(rows: seq<InvoiceRow>)
    returns (ok: bool, invoices: map<string, InvoiceRow>, duplicates: set<string>)
    ensures ok <==> InvoicesOk(rows)
    ensures ok ==> Indexed(rows, invoices, duplicates)
  {
    hide Indexed, IsUuid;
    invoices, duplicates := map[], {};
    TakeAll(rows);
    NothingIndexed();
    for k := 0 to |rows|
      invariant forall r | r in rows[..k] :: IsUuid(r.id)
      invariant Indexed(rows[..k], invoices, duplicates)
    {
      var row := rows[k];
      TakeNext(rows, k);
      if !IsUuid(row.id) {
        return false, invoices, duplicates;
      }
      IndexNext(rows, k, invoices, duplicates);
      var id := TextOf(row.id);
      if id in invoices {
        duplicates := duplicates + {id};
      }
      invoices := invoices[id := row];
    }
    ok := true;
  }

  lemma NothingIndexed()
    ensures Indexed([], map[], {})
  {
  }

  /**
   * One section's rows joined to the universe; rows without an account and currency are reported,
   * except invoices.
   */
  method CollectSection(section: Section, rows: seq<PartyRow>, before: set<Key>, reported: seq<Blocker>)
    returns (ok: bool, universe: set<Key>, blockers: seq<Blocker>)
    ensures ok <==> PartiesOk(rows)
    ensures ok ==> universe == before + KeysOf(rows) && blockers == reported + FilterMap(rows, Unattributed(section))
  {
    hide FilterMap, IsUuid;
    universe, blockers := before, reported;
    TakeAll(rows);
    FilterMapEmpty(Unattributed(section));
    for k := 0 to |rows|
      invariant forall r | r in rows[..k] :: r.account == Null || IsUuid(r.account)
      invariant universe == before + KeysOf(rows[..k])
      invariant blockers == reported + FilterMap(rows[..k], Unattributed(section))
    {
      var row := rows[k];
      TakeNext(rows, k);
      FilterMapNext(rows, k, Unattributed(section));
      KeysNext(rows, k);
      if row.account != Null && !IsUuid(row.account) {
        return false, universe, blockers;
      }
      if PartyKey(row) == None {
        if section != Invoices {
          blockers := blockers + [Blocker(CensusRowUnattributed, SectionName(section), "account/currency")];
        }
        continue;
      }
      universe := universe + {PartyKey(row).value};
    }
    ok := true;
  }

  lemma KeysNext(rows: seq<PartyRow>, k: nat)
    requires k < |rows|
    ensures KeysOf(rows[..k + 1]) ==
      KeysOf(rows[..k]) + if PartyKey(rows[k]).Some? then {PartyKey(rows[k]).value} else {}
    ensures KeysOf([]) == {}
  {
    TakeNext(rows, k);
  }

  // ---- partitions ----------------------------------------------------------------------------

  ghost predicate TargetsOf(explicit: map<Key, TargetRow>, rows: seq<TargetRow>) {
    && (forall i | 0 <= i < |rows| :: TargetKey(rows[i]) in explicit)
    && forall k | k in explicit :: exists i :: 0 <= i < |rows| && TargetKey(rows[i]) == k
  }

  lemma TargetNext(explicit: map<Key, TargetRow>, rows: seq<TargetRow>, k: nat)
    requires k < |rows| && TargetsOf(explicit, rows[..k]) && DistinctTargets(rows[..k])
    ensures DistinctTargets(rows) ==> TargetKey(rows[k]) !in explicit
    ensures TargetKey(rows[k]) !in explicit ==>
      && DistinctTargets(rows[..k + 1])
      && TargetsOf(explicit[TargetKey(rows[k]) := rows[k]], rows[..k + 1])
  {
    hide TargetKey;
    var (seen, next) := (rows[..k], rows[..k + 1]);
    assert |seen| == k && |next| == k + 1 && next[k] == rows[k];
    assert forall i | 0 <= i < k :: next[i] == seen[i] == rows[i];
    if TargetKey(rows[k]) in explicit {
      var i :| 0 <= i < |seen| && TargetKey(seen[i]) == TargetKey(rows[k]);
      assert TargetKey(rows[i]) == TargetKey(rows[k]);
    } else {
      forall q | q in explicit ensures exists i :: 0 <= i < |next| && TargetKey(next[i]) == q {
        var i :| 0 <= i < |seen| && TargetKey(seen[i]) == q;
        assert TargetKey(next[i]) == q;
      }
    }
  }

  lemma TargetTableNext(rows: seq<TargetRow>, k: nat)
    requires k < |rows|
    ensures TargetTable(rows[..k + 1]) == TargetTable(rows[..k])[TargetKey(rows[k]) := rows[k]]
  {
    assert rows[..k + 1][..k] == rows[..k];
  }

  /** The declared targets by partition, refusing a partition declared twice. */
  method IndexTargets(rows: seq<TargetRow>) returns (ok: bool, explicit: map<Key, TargetRow>)
    ensures ok <==> DistinctTargets(rows)
    ensures ok ==> explicit == TargetTable(rows)
  {
    hide TargetsOf, DistinctTargets, TargetTable;
    explicit := map[];
    TakeAll(rows);
    NoTargets();
    for k := 0 to |rows|
      invariant DistinctTargets(rows[..k]) && TargetsOf(explicit, rows[..k]) && explicit == TargetTable(rows[..k])
    {
      TargetNext(explicit, rows, k);
      TargetTableNext(rows, k);
      var key := TargetKey(rows[k]);
      if key in explicit {
        return false, explicit;
      }
      explicit := explicit[key := rows[k]];
    }
    ok := true;
  }

  lemma NoTargets()
    ensures DistinctTargets([]) && TargetsOf(map[], []) && TargetTable([]) == map[]
  {
  }

  /** The keys of `done` that resolve, with what they resolve to. */
  function ResolvedAmong(done: seq<Key>, s: Setup, derive: Derive): map<Key, Partition> {
    map k | k in done && Resolve(k, s, derive).Ok? :: Resolve(k, s, derive).value
  }

  lemma ResolvedNext(keys: seq<Key>, i: nat, s: Setup, derive: Derive)
    requires i < |keys|
    ensures ResolvedAmong(keys[..i + 1], s, derive) ==
      match Resolve(keys[i], s, derive)
      case Ok(p) => ResolvedAmong(keys[..i], s, derive)[keys[i] := p]
      case Err(_) => ResolvedAmong(keys[..i], s, derive)
  {
    hide Resolve;
    TakeNext(keys, i);
  }

  /** Each census partition in order: its target, or why it has none. */
  method ResolvePartitions(universe: set<Key>, s: Setup, derive: Derive, reported: seq<Blocker>)
    returns (resolved: map<Key, Partition>, blockers: seq<Blocker>)
    ensures resolved == Candidates(universe, s, derive)
    ensures blockers == reported + FilterMap(SortedKeys(universe), PartitionBlocker(s, derive))
  {
    hide FilterMap, Resolve, SortedKeys, ResolvedAmong;
    resolved, blockers := map[], reported;
    var keys := SortedKeys(universe);
    TakeAll(keys);
    FilterMapEmpty(PartitionBlocker(s, derive));
    NothingResolved(s, derive);
    for i := 0 to |keys|
      invariant resolved == ResolvedAmong(keys[..i], s, derive)
      invariant blockers == reported + FilterMap(keys[..i], PartitionBlocker(s, derive))
    {
      FilterMapNext(keys, i, PartitionBlocker(s, derive));
      ResolvedNext(keys, i, s, derive);
      match Resolve(keys[i], s, derive)
      case Err(code) =>
        blockers := blockers + [Blocker(code, Reference(keys[i]), "")];
      case Ok(partition) =>
        resolved := resolved[keys[i] := partition];
    }
    ResolvedIsCandidates(universe, s, derive);
  }

  lemma NothingResolved(s: Setup, derive: Derive)
    ensures ResolvedAmong([], s, derive) == map[]
  {
  }

  lemma ResolvedIsCandidates(universe: set<Key>, s: Setup, derive: Derive)
    ensures ResolvedAmong(SortedKeys(universe), s, derive) == Candidates(universe, s, derive)
  {
    hide Resolve, SortedKeys;
  }

  function BackedBy(candidates: map<Key, Partition>, account: string): Key -> Option<Key> {
    (k: Key) => if k in candidates && candidates[k].account == account then Some(k) else None
  }

  /** The keys grouped by target account, each group in order. */
  ghost predicate Grouped(byTarget: map<string, seq<Key>>, done: seq<Key>, candidates: map<Key, Partition>) {
    forall account: string ::
      && (account in byTarget <==> FilterMap(done, BackedBy(candidates, account)) != [])
      && (account in byTarget ==> byTarget[account] == FilterMap(done, BackedBy(candidates, account)))
  }

  lemma GroupNext(byTarget: map<string, seq<Key>>, keys: seq<Key>, i: nat, candidates: map<Key, Partition>)
    requires i < |keys| && keys[i] in candidates && Grouped(byTarget, keys[..i], candidates)
    ensures
      var account := candidates[keys[i]].account;
      var group := if account in byTarget then byTarget[account] else [];
      Grouped(byTarget[account := group + [keys[i]]], keys[..i + 1], candidates)
  {
    forall account: string ensures
      FilterMap(keys[..i + 1], BackedBy(candidates, account))
      == FilterMap(keys[..i], BackedBy(candidates, account)) + Optional(BackedBy(candidates, account)(keys[i]))
    {
      FilterMapNext(keys, i, BackedBy(candidates, account));
    }
    hide FilterMap;
  }

  lemma NothingGrouped(candidates: map<Key, Partition>)
    ensures Grouped(map[], [], candidates)
  {
  }

  method GroupByTarget(candidates: map<Key, Partition>) returns (byTarget: map<string, seq<Key>>)
    ensures Grouped(byTarget, SortedKeys(candidates.Keys), candidates)
  {
    hide Grouped, SortedKeys;
    byTarget := map[];
    var keys := SortedKeys(candidates.Keys);
    TakeAll(keys);
    NothingGrouped(candidates);
    for i := 0 to |keys|
      invariant Grouped(byTarget, keys[..i], candidates)
    {
      TakeNext(keys, i);
      GroupNext(byTarget, keys, i, candidates);
      var account := candidates[keys[i]].account;
      byTarget := byTarget[account := (if account in byTarget then byTarget[account] else []) + [keys[i]]];
    }
  }

  /** A group holds exactly the keys its account backs, once each. */
  lemma GroupIsBacked(byTarget: map<string, seq<Key>>, candidates: map<Key, Partition>, account: string)
    requires Grouped(byTarget, SortedKeys(candidates.Keys), candidates)
    ensures account in byTarget <==> account in AccountsOf(candidates)
    ensures account in byTarget ==>
      && |byTarget[account]| == |Backed(candidates, account)|
      && forall k :: k in byTarget[account] <==> k in Backed(candidates, account)
  {
    hide SortedKeys;
    var keys := SortedKeys(candidates.Keys);
    var group := FilterMap(keys, BackedBy(candidates, account));
    forall k: Key ensures k in group <==> k in Backed(candidates, account) {
      FilterMapMembers(keys, BackedBy(candidates, account), k);
    }
    if account in byTarget {
      assert group[0] in group;
    }
    if account in AccountsOf(candidates) {
      var k :| k in candidates && candidates[k].account == account;
      assert k in Backed(candidates, account);
    }
    GroupDistinct(keys, candidates, account);
    ListsSet(group, Backed(candidates, account));
  }

  lemma {:induction false} GroupDistinct(keys: seq<Key>, candidates: map<Key, Partition>, account: string)
    requires NoDuplicates(keys)
    ensures NoDuplicates(FilterMap(keys, BackedBy(candidates, account)))
    ensures forall k :: k in FilterMap(keys, BackedBy(candidates, account)) ==> k in keys
  {
    if keys != [] {
      var rest := keys[..|keys| - 1];
      var last := keys[|keys| - 1];
      assert keys == rest + [last];
      GroupDistinct(rest, candidates, account);
      var group := FilterMap(rest, BackedBy(candidates, account));
      forall i | 0 <= i < |group| ensures group[i] != last {
        assert group[i] in rest;
      }
    }
  }

  /** A duplicate-free listing of a set is as long as the set. */
  lemma {:induction false} ListsSet<T>(s: seq<T>, xs: set<T>)
    requires NoDuplicates(s) && forall x :: x in s <==> x in xs
    ensures |s| == |xs|
  {
    if s == [] {
      assert forall x :: x in xs <==> x in s;
      assert xs == {};
    } else {
      var (last, rest) := (s[|s| - 1], s[..|s| - 1]);
      assert s == rest + [last];
      ListsSet(rest, xs - {last});
    }
  }

  lemma LoneMember(candidates: map<Key, Partition>, k: Key)
    requires k in candidates
    ensures Alone(candidates, k) <==> |Backed(candidates, candidates[k].account)| <= 1
  {
    var group := Backed(candidates, candidates[k].account);
    assert k in group;
    if Alone(candidates, k) {
      assert group == {k};
    } else {
      var j :| j in candidates && candidates[j].account == candidates[k].account && j != k;
      assert j in group && {j, k} <= group;
      SubsetSize({j, k}, group);
    }
  }

  lemma {:induction false} SubsetSize<T>(a: set<T>, b: set<T>)
    requires a <= b
    ensures |a| <= |b|
  {
    if a != {} {
      var x :| x in a;
      SubsetSize(a - {x}, b - {x});
    }
  }

  method DeleteAll(m: map<Key, Partition>, keys: seq<Key>) returns (left: map<Key, Partition>)
    ensures left == m - set k | k in keys
  {
    left := m;
    for i := 0 to |keys|
      invariant left == m - set k | k in keys[..i]
    {
      TakeNext(keys, i);
      left := left - {keys[i]};
    }
    TakeAll(keys);
  }

  /** What is left once the colliding groups of the accounts seen so far are gone. */
  predicate Survives(candidates: map<Key, Partition>, done: seq<string>, k: Key)
    requires k in candidates
  {
    candidates[k].account in done ==> Alone(candidates, k)
  }

  function Surviving(candidates: map<Key, Partition>, done: seq<string>): map<Key, Partition> {
    map k | k in candidates && Survives(candidates, done, k) :: candidates[k]
  }

  lemma SurvivingNext(candidates: map<Key, Partition>, accounts: seq<string>, i: nat, byTarget: map<string, seq<Key>>)
    requires i < |accounts| && Grouped(byTarget, SortedKeys(candidates.Keys), candidates) && accounts[i] in byTarget
    requires NoDuplicates(accounts)
    ensures
      var (before, after, group) := (Surviving(candidates, accounts[..i]), Surviving(candidates, accounts[..i + 1]),
        byTarget[accounts[i]]);
      after == if |group| > 1 then before - set k | k in group else before
  {
    hide Grouped, SortedKeys, Alone;
    TakeNext(accounts, i);
    GroupIsBacked(byTarget, candidates, accounts[i]);
    forall k | k in candidates ensures Alone(candidates, k) <==> |Backed(candidates, candidates[k].account)| <= 1 {
      LoneMember(candidates, k);
    }
  }

  /** Drops every group of partitions that share a target account, and reports the account. */
  method RemoveCollisions(candidates: map<Key, Partition>, reported: seq<Blocker>)
    returns (resolved: map<Key, Partition>, blockers: seq<Blocker>)
    ensures resolved == WithoutCollisions(candidates)
    ensures blockers == reported + FilterMap(Text.InOrder(AccountsOf(candidates)), CollisionBlocker(candidates))
  {
    hide FilterMap, Grouped, SortedKeys, Text.InOrder, Alone, Survives, AccountsOf, Backed, Surviving;
    var byTarget := GroupByTarget(candidates);
    GroupedAccounts(byTarget, candidates);
    var accounts := Text.InOrder(byTarget.Keys);
    resolved, blockers := candidates, reported;
    TakeAll(accounts);
    FilterMapEmpty(CollisionBlocker(candidates));
    SurvivingEnds(candidates);
    for i := 0 to |accounts|
      invariant resolved == Surviving(candidates, accounts[..i])
      invariant blockers == reported + FilterMap(accounts[..i], CollisionBlocker(candidates))
    {
      var account := accounts[i];
      TakeNext(accounts, i);
      FilterMapNext(accounts, i, CollisionBlocker(candidates));
      SurvivingNext(candidates, accounts, i, byTarget);
      GroupIsBacked(byTarget, candidates, account);
      if |byTarget[account]| > 1 {
        blockers := blockers + [Blocker(TargetAccountCollision, account, "")];
        resolved := DeleteAll(resolved, byTarget[account]);
      }
    }
  }

  lemma GroupedAccounts(byTarget: map<string, seq<Key>>, candidates: map<Key, Partition>)
    requires Grouped(byTarget, SortedKeys(candidates.Keys), candidates)
    ensures byTarget.Keys == AccountsOf(candidates)
  {
    hide SortedKeys, Grouped;
    forall account: string ensures account in byTarget <==> account in AccountsOf(candidates) {
      GroupIsBacked(byTarget, candidates, account);
    }
  }

  lemma SurvivingEnds(candidates: map<Key, Partition>)
    ensures Surviving(candidates, []) == candidates
    ensures Surviving(candidates, Text.InOrder(AccountsOf(candidates))) == WithoutCollisions(candidates)
  {
    hide Text.InOrder, Alone;
  }

  // ---- invoices and settlements -----------------------------------------------------------------

  /** A row of the table speaks for its id exactly when the id is not repeated. */
  lemma VerdictOfTable(
      id: string, rows: seq<InvoiceRow>, invoices: map<string, InvoiceRow>, duplicates: set<string>,
      resolved: map<Key, Partition>, precisions: map<string, int>)
    requires Indexed(rows, invoices, duplicates)
    ensures InvoiceVerdict(id, rows, resolved, precisions) ==
      if id !in invoices then Blocked(Blocker(EligibleInvoiceNotInCensus, id, ""))
      else if id in duplicates then Skipped
      else RowVerdict(id, invoices[id], resolved, precisions)
  {
    hide RowVerdict, RowsOf;
    assert IndexedAt(rows, invoices, duplicates, id);
  }

  /** The eligible invoices in order: mapped, or blocked under an invoice code. */
  method MapInvoices(
      eligible: set<string>, ghost rows: seq<InvoiceRow>, invoices: map<string, InvoiceRow>, duplicates: set<string>,
      resolved: map<Key, Partition>, precisions: map<string, int>, reported: seq<Blocker>)
    returns (mappings: seq<InvoiceMapping>, mapped: set<string>, blockers: seq<Blocker>)
    requires Indexed(rows, invoices, duplicates)
    ensures mappings == FilterMap(Text.InOrder(eligible), MapInvoice(rows, resolved, precisions))
    ensures mapped == InvoicesOf(mappings)
    ensures blockers == reported + FilterMap(Text.InOrder(eligible), BlockInvoice(rows, resolved, precisions))
  {
    hide FilterMap, Indexed, Text.InOrder, InvoiceVerdict;
    mappings, mapped, blockers := [], {}, reported;
    var ids := Text.InOrder(eligible);
    TakeAll(ids);
    FilterMapEmpty(MapInvoice(rows, resolved, precisions));
    FilterMapEmpty(BlockInvoice(rows, resolved, precisions));
    for i := 0 to |ids|
      invariant mappings == FilterMap(ids[..i], MapInvoice(rows, resolved, precisions))
      invariant mapped == InvoicesOf(mappings)
      invariant blockers == reported + FilterMap(ids[..i], BlockInvoice(rows, resolved, precisions))
    {
      var id := ids[i];
      FilterMapNext(ids, i, MapInvoice(rows, resolved, precisions));
      FilterMapNext(ids, i, BlockInvoice(rows, resolved, precisions));
      VerdictOfTable(id, rows, invoices, duplicates, resolved, precisions);
      if id !in invoices {
        blockers := blockers + [Blocker(EligibleInvoiceNotInCensus, id, "")];
        continue;
      }
      if id in duplicates {
        continue;
      }
      var row := invoices[id];
      var key := PartyKey(row.party);
      if key == None || key.value !in resolved {
        blockers := blockers + [Blocker(InvoicePartitionUnmapped, id, "")];
        continue;
      }
      if key.value.currency !in precisions || row.precision != Some(precisions[key.value.currency]) {
        blockers := blockers + [Blocker(InvoicePrecisionMismatch, id, "")];
        continue;
      }
      mappings := mappings + [InvoiceMapping(id, Identity("invoice", id), id)];
      mapped := mapped + {id};
    }
  }

  /** How often each settlement key has been seen. */
  ghost predicate Counted(occurrences: map<SettlementKey, nat>, scoped: seq<Scoped>) {
    forall key: SettlementKey ::
      && (key in occurrences <==> CountOf(scoped, key) > 0)
      && (key in occurrences ==> occurrences[key] == CountOf(scoped, key))
  }

  lemma CountNext(occurrences: map<SettlementKey, nat>, scoped: seq<Scoped>, s: Scoped)
    requires Counted(occurrences, scoped)
    ensures Counted(occurrences[s.key := (if s.key in occurrences then occurrences[s.key] else 0) + 1], scoped + [s])
  {
    forall key: SettlementKey
      ensures CountOf(scoped + [s], key) == CountOf(scoped, key) + if s.key == key then 1 else 0
    {
      assert (scoped + [s])[..|scoped|] == scoped;
      FilterMapNext(scoped + [s], |scoped|, WithKey(key));
      assert (scoped + [s])[..|scoped| + 1] == scoped + [s];
    }
    hide CountOf;
  }

  lemma NothingCounted()
    ensures Counted(map[], [])
  {
  }

  lemma CountedKeys(occurrences: map<SettlementKey, nat>, scoped: seq<Scoped>)
    requires Counted(occurrences, scoped)
    ensures occurrences.Keys == KeysIn(scoped)
  {
    forall key: SettlementKey ensures CountOf(scoped, key) > 0 <==> key in KeysIn(scoped) {
      var found := FilterMap(scoped, WithKey(key));
      if found != [] {
        assert found[0] in found;
        FilterMapMembers(scoped, WithKey(key), found[0]);
      }
      if key in KeysIn(scoped) {
        var s :| s in scoped && s.key == key;
        FilterMapMembers(scoped, WithKey(key), s);
      }
    }
  }

  /** The active settlements on eligible invoices, and how often each key occurs among them. */
  method ScopeSettlements(rows: seq<SettlementRow>, eligible: set<string>)
    returns (ok: bool, scoped: seq<Scoped>, occurrences: map<SettlementKey, nat>)
    ensures ok <==> SettlementRowsOk(rows, eligible)
    ensures ok ==> scoped == FilterMap(rows, Scope(eligible)) && Counted(occurrences, scoped)
  {
    hide FilterMap, Counted, IsUuid, IsText;
    scoped, occurrences := [], map[];
    TakeAll(rows);
    FilterMapEmpty(Scope(eligible));
    NothingCounted();
    for k := 0 to |rows|
      invariant forall r | r in rows[..k] :: SettlementRowOk(r, eligible)
      invariant scoped == FilterMap(rows[..k], Scope(eligible)) && Counted(occurrences, scoped)
    {
      var row := rows[k];
      TakeNext(rows, k);
      FilterMapNext(rows, k, Scope(eligible));
      if !IsUuid(row.invoice) {
        return false, scoped, occurrences;
      }
      if !row.active || TextOf(row.invoice) !in eligible {
        continue;
      }
      if !IsText(row.kind) || !IsUuid(row.id) {
        return false, scoped, occurrences;
      }
      var s := Scoped(SettlementKey(TextOf(row.kind), TextOf(row.id)), TextOf(row.invoice), row.source);
      CountNext(occurrences, scoped, s);
      scoped := scoped + [s];
      occurrences := occurrences[s.key := (if s.key in occurrences then occurrences[s.key] else 0) + 1];
    }
    ok := true;
  }

  lemma RepeatAt(occurrences: map<SettlementKey, nat>, scoped: seq<Scoped>, key: SettlementKey)
    requires Counted(occurrences, scoped) && key in occurrences
    ensures RepeatBlocker(scoped)(key) ==
      if occurrences[key] > 1 then Some(Blocker(DuplicateCensusSettlement, key.id, "")) else None
  {
    hide CountOf;
    CountedAt(occurrences, scoped, key);
  }

  /** The settlement keys that occur more than once, each reported once. */
  method ReportRepeats(ghost scoped: seq<Scoped>, occurrences: map<SettlementKey, nat>, reported: seq<Blocker>)
    returns (blockers: seq<Blocker>)
    requires Counted(occurrences, scoped)
    ensures blockers == reported + FilterMap(SortedSettlementKeys(KeysIn(scoped)), RepeatBlocker(scoped))
  {
    hide FilterMap, SortedSettlementKeys, KeysIn, Counted, RepeatBlocker, NoDuplicates;
    CountedKeys(occurrences, scoped);
    var keys := SortedSettlementKeys(occurrences.Keys);
    blockers := reported;
    TakeAll(keys);
    FilterMapEmpty(RepeatBlocker(scoped));
    for i := 0 to |keys|
      invariant blockers == reported + FilterMap(keys[..i], RepeatBlocker(scoped))
    {
      var key := keys[i];
      TakeNext(keys, i);
      FilterMapNext(keys, i, RepeatBlocker(scoped));
      RepeatAt(occurrences, scoped, key);
      if occurrences[key] > 1 {
        blockers := blockers + [Blocker(DuplicateCensusSettlement, key.id, "")];
      }
    }
  }

  /** The settlements in scope: mapped, blocked under a settlement code, or passed over as repeated. */
  method MapSettlements(
      scoped: seq<Scoped>, occurrences: map<SettlementKey, nat>, mapped: set<string>, reported: seq<Blocker>)
    returns (ok: bool, mappings: seq<DischargeMapping>, blockers: seq<Blocker>)
    requires Counted(occurrences, scoped)
    ensures ok <==> SourcesOk(scoped)
    ensures ok ==> mappings == FilterMap(scoped, MapSettlement(scoped, mapped))
    ensures ok ==> blockers == reported + FilterMap(scoped, BlockSettlement(scoped, mapped))
  {
    hide FilterMap, CountOf, IsUuid;
    mappings, blockers := [], reported;
    TakeAll(scoped);
    FilterMapEmpty(MapSettlement(scoped, mapped));
    FilterMapEmpty(BlockSettlement(scoped, mapped));
    CountedAll(occurrences, scoped);
    hide Counted;
    for i := 0 to |scoped|
      invariant forall s | s in scoped[..i] :: SourceOk(s, scoped)
      invariant mappings == FilterMap(scoped[..i], MapSettlement(scoped, mapped))
      invariant blockers == reported + FilterMap(scoped[..i], BlockSettlement(scoped, mapped))
    {
      var s := scoped[i];
      TakeNext(scoped, i);
      FilterMapNext(scoped, i, MapSettlement(scoped, mapped));
      FilterMapNext(scoped, i, BlockSettlement(scoped, mapped));
      if occurrences[s.key] > 1 {
        continue;
      }
      if s.key.kind !in MAPPABLE_KINDS {
        blockers := blockers + [Blocker(UnsupportedSettlementKind, s.key.id, s.key.kind)];
        continue;
      }
      if s.source == Null {
        blockers := blockers + [Blocker(SettlementSourceIdUnavailable, s.key.id, "")];
        continue;
      }
      if !IsUuid(s.source) {
        return false, mappings, blockers;
      }
      if s.invoice !in mapped {
        blockers := blockers + [Blocker(SettlementInvoiceUnmapped, s.key.id, "")];
        continue;
      }
      mappings := mappings + [DischargeMapping(s.key, s.key.kind + ":" + s.key.id, TextOf(s.source))];
    }
    ok := true;
  }

  lemma CountedAll(occurrences: map<SettlementKey, nat>, scoped: seq<Scoped>)
    requires Counted(occurrences, scoped)
    ensures forall s | s in scoped :: s.key in occurrences && occurrences[s.key] == CountOf(scoped, s.key)
  {
    hide Counted;
    CountedKeys(occurrences, scoped);
    forall s | s in scoped ensures s.key in occurrences && occurrences[s.key] == CountOf(scoped, s.key) {
      assert s.key in KeysIn(scoped);
      CountedAt(occurrences, scoped, s.key);
    }
  }

  lemma CountedAt(occurrences: map<SettlementKey, nat>, scoped: seq<Scoped>, key: SettlementKey)
    requires Counted(occurrences, scoped) && key in occurrences
    ensures occurrences[key] == CountOf(scoped, key)
  {
  }

  // ---- the whole draft --------------------------------------------------------------------------

  /** The census sections: the invoice table, the repeats and the universe, with the census's own blockers. */
  method ReadCensus(c: Census)
    returns (ok: bool, precisions: map<string, int>, invoices: map<string, InvoiceRow>, duplicates: set<string>,
        universe: set<Key>, blockers: seq<Blocker>)
    ensures ok <==> CensusOk(c)
    ensures ok ==> precisions == PrecisionTable(c.precisions) && Indexed(c.invoices, invoices, duplicates)
    ensures ok ==> universe == Universe(c) && blockers == CensusBlockers(c)
  {
    hide PrecisionsOk, InvoicesOk, PartiesOk, Indexed, KeysOf, FilterMap, Text.InOrder, DuplicateIds, NoDuplicates,
      IsUuid, DuplicateBlocker, Unattributed, PrecisionTable, Texts;
    universe := {};
    blockers := When(!c.complete, Blocker(CensusPopulationIncomplete, "capture", ""));
    ok, precisions := ReadPrecisions(c.precisions);
    if !ok {
      invoices, duplicates := map[], {};
      return;
    }
    ok, invoices, duplicates := IndexInvoices(c.invoices);
    if !ok {
      return;
    }
    blockers := ReportDuplicates(c.invoices, invoices, duplicates, blockers);
    ok := EligibleOk(c.eligible);
    if !ok {
      return;
    }
    blockers := blockers + When(!NoDuplicates(Texts(c.eligible)),
      Blocker(DuplicateEligibleInvoice, "eligible_invoice_ids", ""));
    ok, universe, blockers := CollectSection(Controls, c.controls, universe, blockers);
    if !ok {
      return;
    }
    ok, universe, blockers := CollectSection(Lanes, c.lanes, universe, blockers);
    if !ok {
      return;
    }
    ok, universe, blockers := CollectSection(Invoices, Parties(c.invoices), universe, blockers);
  }

  method ReportDuplicates(
      ghost rows: seq<InvoiceRow>, ghost invoices: map<string, InvoiceRow>, duplicates: set<string>,
      reported: seq<Blocker>) returns (blockers: seq<Blocker>)
    requires Indexed(rows, invoices, duplicates)
    ensures blockers == reported + FilterMap(Text.InOrder(DuplicateIds(rows)), DuplicateBlocker())
  {
    hide FilterMap, Text.InOrder, DuplicateIds, Indexed, NoDuplicates;
    IndexedMeans(rows, invoices, duplicates);
    blockers := reported;
    var ids := Text.InOrder(duplicates);
    TakeAll(ids);
    FilterMapEmpty(DuplicateBlocker());
    for i := 0 to |ids|
      invariant blockers == reported + FilterMap(ids[..i], DuplicateBlocker())
    {
      FilterMapNext(ids, i, DuplicateBlocker());
      blockers := blockers + [Blocker(DuplicateCensusInvoice, ids[i], "")];
    }
  }

  /** The partitions: the declared targets nobody asked for, the resolution, the collisions. */
  method DraftPartitions(
      c: Census, t: Target, derive: Derive, universe: set<Key>, explicit: map<Key, TargetRow>, reported: seq<Blocker>)
    returns (resolved: map<Key, Partition>, blockers: seq<Blocker>)
    requires universe == Universe(c) && explicit == TargetTable(t.rows)
    ensures resolved == ResolvedOf(c, t, derive) && blockers == reported + PartitionBlockers(c, t, derive)
  {
    hide FilterMap, SortedKeys, Text.InOrder, Universe, TargetTable, PrecisionTable, WithoutCollisions, Candidates,
      AccountsOf, CollisionBlocker, PartitionBlocker, ExtraBlocker;
    var setup := Setup(PrecisionTable(c.precisions), explicit, t);
    blockers := ReportExtras(explicit.Keys - universe, reported);
    resolved, blockers := ResolvePartitions(universe, setup, derive, blockers);
    resolved, blockers := RemoveCollisions(resolved, blockers);
  }

  method ReportExtras(extras: set<Key>, reported: seq<Blocker>) returns (blockers: seq<Blocker>)
    ensures blockers == reported + FilterMap(SortedKeys(extras), ExtraBlocker())
  {
    hide FilterMap, SortedKeys, NoDuplicates;
    blockers := reported;
    var keys := SortedKeys(extras);
    TakeAll(keys);
    FilterMapEmpty(ExtraBlocker());
    for i := 0 to |keys|
      invariant blockers == reported + FilterMap(keys[..i], ExtraBlocker())
    {
      FilterMapNext(keys, i, ExtraBlocker());
      blockers := blockers + [Blocker(TargetEntryWithoutCensusAccount, Reference(keys[i]), "")];
    }
  }

  /** The drafter: refused for a malformed input, otherwise the one draft the inputs determine. */
  method DraftAssembly(c: Census, t: Target, derive: Derive) returns (r: Result<Draft, Refusal>)
    ensures RefusalOf(c, t).Some? ==> r == Err(RefusalOf(c, t).value)
    ensures RefusalOf(c, t) == None ==> r == Ok(DraftOf(c, t, derive))
  {
    hide FilterMap, Sort, CensusOk, TargetOk, DistinctTargets, SettlementRowsOk, SourcesOk, CensusBlockers, Universe,
      ResolvedOf, PartitionBlockers, Text.InOrder, SortedSettlementKeys, Indexed, Counted, Listed, KeysIn,
      PrecisionTable, TargetTable, InvoicesOf, EligibleSet, MapInvoice, BlockInvoice, MapSettlement, BlockSettlement,
      RepeatBlocker, Scope, IsText, IdsOf;
    if !TargetOk(t) {
      return Err(MalformedTargetState);
    }
    if !IsText(c.version) {
      return Err(MalformedInput);
    }
    if TextOf(c.version) !in VERSIONS {
      return Err(UnsupportedPopulationVersion);
    }
    var ok, precisions, invoices, duplicates, universe, blockers := ReadCensus(c);
    if !ok {
      return Err(MalformedInput);
    }
    var distinct, explicit := IndexTargets(t.rows);
    if !distinct {
      return Err(MalformedTargetState);
    }
    var eligible := EligibleSet(c);
    var resolved: map<Key, Partition>;
    resolved, blockers := DraftPartitions(c, t, derive, universe, explicit, blockers);
    var invoiceMappings, mapped: set<string>;
    invoiceMappings, mapped, blockers := MapInvoices(eligible, c.invoices, invoices, duplicates, resolved, precisions,
      blockers);
    var scopeOk, scoped, occurrences := ScopeSettlements(c.settlements, eligible);
    if !scopeOk {
      return Err(MalformedInput);
    }
    blockers := ReportRepeats(scoped, occurrences, blockers);
    var discharges: seq<DischargeMapping>;
    ok, discharges, blockers := MapSettlements(scoped, occurrences, mapped, blockers);
    if !ok {
      return Err(MalformedInput);
    }
    IndexedMeans(c.invoices, invoices, duplicates);
    assert blockers == AllBlockers(c, t, derive);
    var assembly := Assembly(Listed(resolved), Sort(invoiceMappings, InvoiceLe), Sort(discharges, DischargeLe));
    var counts := Counts(|invoices|, |eligible|, |invoiceMappings|, |discharges|, |universe|, |resolved|, |blockers|);
    return Ok(Draft(assembly, Sort(blockers, BlockerLe), counts));
  }
}
