/** The adapter's loops, each proved to compute its part of the outcome. */
module RehearsalAdapter {
  import opened Wrappers
  import opened Sorting
  import opened Filtering
  import opened OpeningModel
  import opened MinorUnits
  import opened AdapterSpec
  import Text

  // ---- lookup tables ---------------------------------------------------------------------------

  function Get<V>(table: map<string, V>, id: string): Option<V> {
    if id in table then Some(table[id]) else None
  }

  ghost predicate Firsts<V>(table: map<string, V>, rows: seq<Row<V>>) {
    forall id: string :: Get(table, id) == FirstFor(rows, id)
  }

  ghost predicate Groups<V>(table: map<string, seq<V>>, rows: seq<Row<V>>) {
    forall id: string :: Get(table, id) == if ValuesFor(rows, id) == [] then None else Some(ValuesFor(rows, id))
  }

  lemma ValuesNext<V>(rows: seq<Row<V>>, k: nat, id: string)
    requires k < |rows|
    ensures ValuesFor(rows[..k + 1], id) ==
      if rows[k].id == id then ValuesFor(rows[..k], id) + [rows[k].value] else ValuesFor(rows[..k], id)
  {
    FilterMapNext(rows, k, Under(id));
  }

  lemma FirstsNext<V>(table: map<string, V>, rows: seq<Row<V>>, k: nat)
    requires k < |rows| && Firsts(table, rows[..k])
    ensures Firsts(if rows[k].id in table then table else table[rows[k].id := rows[k].value], rows[..k + 1])
  {
    var r := rows[k];
    var next := if r.id in table then table else table[r.id := r.value];
    var later := rows[..k + 1];
    forall id: string ensures Get(next, id) == FirstFor(later, id) {
      assert Get(table, id) == FirstFor(rows[..k], id);
      ValuesNext(rows, k, id);
      hide ValuesFor;
    }
  }

  lemma GroupsNext<V>(table: map<string, seq<V>>, rows: seq<Row<V>>, k: nat)
    requires k < |rows| && Groups(table, rows[..k])
    ensures
      var r := rows[k];
      Groups(table[r.id := (if r.id in table then table[r.id] else []) + [r.value]], rows[..k + 1])
  {
    var r := rows[k];
    var next := table[r.id := (if r.id in table then table[r.id] else []) + [r.value]];
    var later := rows[..k + 1];
    forall id: string ensures Get(next, id) == if ValuesFor(later, id) == [] then None else Some(ValuesFor(later, id)) {
      assert Get(table, id) == if ValuesFor(rows[..k], id) == [] then None else Some(ValuesFor(rows[..k], id));
      ValuesNext(rows, k, id);
      hide ValuesFor;
    }
  }

  lemma NoRows<V>()
    ensures Firsts<V>(map[], []) && Groups<V>(map[], [])
  {
  }

  /** `setdefault` over the rows: the first value of each id. */
  method FirstTable<V>(rows: seq<Row<V>>) returns (table: map<string, V>)
    ensures Firsts(table, rows)
  {
    hide Firsts;
    table := map[];
    TakeAll(rows);
    NoRows<V>();
    for k := 0 to |rows|
      invariant Firsts(table, rows[..k])
    {
      FirstsNext(table, rows, k);
      if rows[k].id !in table {
        table := table[rows[k].id := rows[k].value];
      }
    }
  }

  /** `setdefault(…).append` over the rows: all values of each id, in order. */
  method GroupTable<V>(rows: seq<Row<V>>) returns (table: map<string, seq<V>>)
    ensures Groups(table, rows)
  {
    hide Groups;
    table := map[];
    TakeAll(rows);
    NoRows<V>();
    for k := 0 to |rows|
      invariant Groups(table, rows[..k])
    {
      GroupsNext(table, rows, k);
      var r := rows[k];
      table := table[r.id := (if r.id in table then table[r.id] else []) + [r.value]];
    }
  }

  datatype Tables = Tables(mappings: map<string, InvoiceMapping>, exclusions: map<string, string>,
      codes: map<string, seq<string>>)

  ghost predicate TablesOf(t: Tables, x: Inputs) {
    && Firsts(t.mappings, MappingRows(x.assembly))
    && Firsts(t.exclusions, x.sidecar.exclusions)
    && Groups(t.codes, x.sidecar.exceptions)
  }

  /** What the tables say of one invoice id. */
  lemma TablesSay(t: Tables, x: Inputs, id: string)
    requires TablesOf(t, x)
    ensures Get(t.mappings, id) == MappingFor(x.assembly, id)
    ensures Get(t.exclusions, id) == FirstFor(x.sidecar.exclusions, id)
    ensures id in t.codes <==> ValuesFor(x.sidecar.exceptions, id) != []
    ensures id in t.codes ==> t.codes[id] == ValuesFor(x.sidecar.exceptions, id)
  {
    hide ValuesFor;
    var codes := ValuesFor(x.sidecar.exceptions, id);
    assert Get(t.codes, id) == if codes == [] then None else Some(codes);
  }

  method BuildTables(x: Inputs) returns (t: Tables)
    ensures TablesOf(t, x)
  {
    hide Firsts, Groups;
    var mappings := FirstTable(MappingRows(x.assembly));
    var exclusions := FirstTable(x.sidecar.exclusions);
    var codes := GroupTable(x.sidecar.exceptions);
    t := Tables(mappings, exclusions, codes);
  }

  // ---- originals and histories --------------------------------------------------------------------

  /** The guard on one original, as the tables answer it. */
  predicate OriginalFits(r: Row<Original>, x: Inputs, t: Tables) {
    var rows := ValuesFor(InvoiceRows(x.obs), r.id);
    && |rows| == 1
    && r.id in x.obs.eligible && r.id in t.mappings && r.id !in t.exclusions && r.id !in t.codes
    && PartitionFor(x.assembly, InvoiceKey(rows[0])).Some?
    && Some(r.value.number) == rows[0].number && Some(r.value.issuedAt) == rows[0].issuedAt
    && Value(r.value.amount) == Value(rows[0].total)
    && r.value.currency == rows[0].currency
    && Some(r.value.minorUnits) == PrecisionOf(x.obs, rows[0].currency)
  }

  lemma FitsIsOk(r: Row<Original>, x: Inputs, t: Tables)
    requires TablesOf(t, x)
    ensures OriginalFits(r, x, t) <==> OriginalOk(r, x)
  {
    hide ValuesFor, PartitionFor, PrecisionOf, Value, MappingFor, FirstFor, TablesOf;
    TablesSay(t, x, r.id);
  }

  lemma DistinctNext<V>(rows: seq<Row<V>>, k: nat, table: map<string, V>)
    requires k < |rows| && DistinctIds(rows[..k]) && Firsts(table, rows[..k])
    ensures DistinctIds(rows[..k + 1]) <==> rows[k].id !in table
    ensures DistinctIds(rows) ==> DistinctIds(rows[..k + 1])
  {
    var (seen, next, id) := (rows[..k], rows[..k + 1], rows[k].id);
    assert forall i | 0 <= i < k :: next[i] == seen[i] == rows[i];
    assert next[k] == rows[k];
    assert Get(table, id) == FirstFor(seen, id);
    FoundIsPresent(seen, id);
    hide FirstFor;
  }

  lemma FoundIsPresent<V>(rows: seq<Row<V>>, id: string)
    ensures FirstFor(rows, id).Some? <==> exists i :: 0 <= i < |rows| && rows[i].id == id
  {
    var found := ValuesFor(rows, id);
    if found != [] {
      assert found[0] in found;
      FilterMapMembers(rows, Under(id), found[0]);
      var r :| r in rows && Under(id)(r) == Some(found[0]);
    }
    forall i | 0 <= i < |rows| && rows[i].id == id ensures found != [] {
      FilterMapMembers(rows, Under(id), rows[i].value);
      assert rows[i] in rows && Under(id)(rows[i]) == Some(rows[i].value);
    }
  }

  method CheckOriginals(originals: seq<Row<Original>>, x: Inputs, t: Tables)
    returns (ok: bool, table: map<string, Original>)
    requires TablesOf(t, x)
    ensures ok <==> OriginalsOk(originals, x)
    ensures ok ==> Firsts(table, originals)
  {
    hide Firsts, OriginalOk, OriginalFits, TablesOf, DistinctIds;
    table := map[];
    TakeAll(originals);
    NoRows<Original>();
    assert DistinctIds<Original>([]) by {
      NoneRepeated<Original>();
    }
    for k := 0 to |originals|
      invariant DistinctIds(originals[..k]) && Firsts(table, originals[..k])
      invariant forall r | r in originals[..k] :: OriginalOk(r, x)
    {
      var r := originals[k];
      TakeNext(originals, k);
      DistinctNext(originals, k, table);
      FirstsNext(table, originals, k);
      FitsIsOk(r, x, t);
      if r.id in table || !OriginalFits(r, x, t) {
        return false, table;
      }
      table := table[r.id := r.value];
    }
    ok := true;
  }

  lemma NoneRepeated<V>()
    ensures DistinctIds<V>([])
  {
  }

  lemma DistinctConcat<T>(a: seq<T>, b: seq<T>)
    ensures NoDuplicates(a + b) <==> NoDuplicates(a) && NoDuplicates(b) && forall x | x in a :: x !in b
  {
    var c := a + b;
    if NoDuplicates(c) {
      assert forall i | 0 <= i < |a| :: c[i] == a[i];
      assert forall j | 0 <= j < |b| :: c[|a| + j] == b[j];
      forall i, j | 0 <= i < j < |b| ensures b[i] != b[j] {
        assert c[|a| + i] != c[|a| + j];
      }
      forall x | x in a ensures x !in b {
        var i :| 0 <= i < |a| && a[i] == x;
        forall j | 0 <= j < |b| ensures b[j] != x {
          assert c[i] != c[|a| + j];
        }
      }
    }
    if NoDuplicates(a) && NoDuplicates(b) && forall x | x in a :: x !in b {
      forall i, j | 0 <= i < j < |c| ensures c[i] != c[j] {
        if i < |a| <= j {
          assert a[i] in a && b[j - |a|] in b;
        } else if j < |a| {
          assert a[i] != a[j];
        } else {
          assert b[i - |a|] != b[j - |a|];
        }
      }
    }
  }

  /** The references of one invoice's effects. */
  function EffectReferences(effects: seq<Effect>): (r: seq<string>)
    ensures |r| == |effects| && forall i | 0 <= i < |r| :: r[i] == effects[i].reference
  {
    seq(|effects|, i requires 0 <= i < |effects| => effects[i].reference)
  }

  function AsSet(s: seq<string>): set<string> {
    set x | x in s
  }

  lemma ReferenceNext(effects: seq<Effect>, k: nat)
    requires k < |effects|
    ensures EffectReferences(effects[..k + 1]) == EffectReferences(effects[..k]) + [effects[k].reference]
  {
  }

  /** No reference is used twice here, nor was used before. */
  ghost predicate NewReferences(used: set<string>, references: seq<string>) {
    NoDuplicates(references) && forall r | r in references :: r !in used
  }

  lemma NewNext(used: set<string>, references: seq<string>, r: string)
    requires NewReferences(used, references)
    ensures NewReferences(used, references + [r]) <==> r !in used + AsSet(references)
    ensures AsSet(references + [r]) == AsSet(references) + {r}
  {
    DistinctConcat(references, [r]);
  }

  lemma UsedStaysUsed(used: set<string>, effects: seq<Effect>, k: nat)
    requires k <= |effects| && !NewReferences(used, EffectReferences(effects[..k]))
    ensures !NewReferences(used, EffectReferences(effects))
  {
    var (some, all) := (EffectReferences(effects[..k]), EffectReferences(effects));
    assert forall i | 0 <= i < k :: some[i] == all[i];
  }

  /** One invoice's effects: each stands up, and none uses a reference already used. */
  method CheckEffects(effects: seq<Effect>, inv: ObservedInvoice, x: Inputs, before: set<string>)
    returns (ok: bool, used: set<string>)
    ensures ok <==> (forall e | e in effects :: EffectOk(e, inv, x)) && NewReferences(before, EffectReferences(effects))
    ensures ok ==> used == before + AsSet(EffectReferences(effects))
  {
    hide EffectOk, NewReferences, NoDuplicates, EffectReferences;
    used := before;
    TakeAll(effects);
    assert EffectReferences(effects[..0]) == [];
    assert NewReferences(before, []) by {
      NothingUsed(before);
    }
    for k := 0 to |effects|
      invariant forall e | e in effects[..k] :: EffectOk(e, inv, x)
      invariant NewReferences(before, EffectReferences(effects[..k]))
      invariant used == before + AsSet(EffectReferences(effects[..k]))
    {
      var e := effects[k];
      TakeNext(effects, k);
      ReferenceNext(effects, k);
      NewNext(before, EffectReferences(effects[..k]), e.reference);
      if !EffectOk(e, inv, x) {
        return false, used;
      }
      if e.reference in used {
        UsedStaysUsed(before, effects, k + 1);
        return false, used;
      }
      used := used + {e.reference};
    }
    ok := true;
  }

  lemma NothingUsed(used: set<string>)
    ensures NewReferences(used, [])
  {
  }

  lemma ClaimsNext(histories: seq<Row<seq<Effect>>>, k: nat)
    requires k < |histories|
    ensures References(AllClaims(histories[..k + 1])) ==
      References(AllClaims(histories[..k])) + EffectReferences(histories[k].value)
  {
    assert histories[..k + 1][..k] == histories[..k];
  }

  lemma NewMeansDistinct(before: seq<string>, more: seq<string>)
    requires NoDuplicates(before)
    ensures NoDuplicates(before + more) <==> NewReferences(AsSet(before), more)
    ensures AsSet(before + more) == AsSet(before) + AsSet(more)
  {
    DistinctConcat(before, more);
  }

  lemma {:induction false} ClaimsPrefix(histories: seq<Row<seq<Effect>>>, k: nat)
    requires k <= |histories| && NoDuplicates(References(AllClaims(histories)))
    ensures NoDuplicates(References(AllClaims(histories[..k])))
    decreases |histories| - k
  {
    if k < |histories| {
      ClaimsPrefix(histories, k + 1);
      ClaimsNext(histories, k);
      DistinctConcat(References(AllClaims(histories[..k])), EffectReferences(histories[k].value));
    } else {
      assert histories[..k] == histories;
    }
  }

  lemma OriginalsTable(table: map<string, Original>, originals: seq<Row<Original>>, id: string)
    requires Firsts(table, originals)
    ensures id in table <==> HasOriginal(originals, id)
  {
    assert Get(table, id) == FirstFor(originals, id);
    FoundIsPresent(originals, id);
    if HasOriginal(originals, id) {
      var r :| r in originals && r.id == id;
      var i :| 0 <= i < |originals| && originals[i] == r;
    }
  }

  /** Every history in turn, with one set of used references across all of them. */
  method CheckHistories(
      histories: seq<Row<seq<Effect>>>, ghost originals: seq<Row<Original>>, table: map<string, Original>, x: Inputs)
    returns (ok: bool, accepted: map<string, seq<Effect>>)
    requires Firsts(table, originals)
    ensures ok <==> HistoriesOk(histories, originals, x)
    ensures ok ==> Firsts(accepted, histories)
  {
    hide Firsts, DistinctIds, EffectOk, NoDuplicates, References, AllClaims, NewReferences, HasOriginal,
      EffectReferences, AsSet;
    accepted := map[];
    var used: set<string> := {};
    TakeAll(histories);
    NoRows<seq<Effect>>();
    NoClaims();
    for k := 0 to |histories|
      invariant DistinctIds(histories[..k]) && Firsts(accepted, histories[..k])
      invariant forall h | h in histories[..k] :: HistoryOk(h, originals, x)
      invariant NoDuplicates(References(AllClaims(histories[..k])))
      invariant used == AsSet(References(AllClaims(histories[..k])))
    {
      var h := histories[k];
      var inv := LastFor(InvoiceRows(x.obs), h.id);
      TakeNext(histories, k);
      DistinctNext(histories, k, accepted);
      FirstsNext(accepted, histories, k);
      OriginalsTable(table, originals, h.id);
      if inv == None || h.id in accepted || h.id !in table {
        return false, accepted;
      }
      var fine, more := CheckEffects(h.value, inv.value, x, used);
      ClaimsNext(histories, k);
      NewMeansDistinct(References(AllClaims(histories[..k])), EffectReferences(h.value));
      if !fine {
        if HistoriesOk(histories, originals, x) {
          ClaimsPrefix(histories, k + 1);
        }
        return false, accepted;
      }
      used := more;
      accepted := accepted[h.id := h.value];
    }
    ok := true;
  }

  lemma NoClaims()
    ensures NoDuplicates(References(AllClaims([]))) && AsSet(References(AllClaims([]))) == {}
    ensures DistinctIds<seq<Effect>>([])
  {
  }

  // ---- what is outside the declared partitions ------------------------------------------------------

  lemma OutsideNext(invoices: seq<ObservedInvoice>, k: nat, a: Assembly)
    requires k < |invoices|
    ensures
      var (inv, seen, next) := (invoices[k], invoices[..k], invoices[..k + 1]);
      var out := !InPartition(inv, a);
      && AccountsOutside(next, a) == AccountsOutside(seen, a) + (if out then {inv.account} else {})
      && InvoicesOutside(next, a) == InvoicesOutside(seen, a) + (if out then {inv.id} else {})
  {
    hide InPartition;
    TakeNext(invoices, k);
  }

  lemma ControlsNext(controls: seq<ObservedControl>, k: nat, a: Assembly)
    requires k < |controls|
    ensures ControlsOutside(controls[..k + 1], a) ==
      ControlsOutside(controls[..k], a) + if ControlUnmapped(controls[k], a) then {controls[k].account.value} else {}
  {
    hide PartitionFor;
    TakeNext(controls, k);
  }

  lemma NothingOutside(a: Assembly, x: Inputs)
    ensures AccountsOutside([], a) == InvoicesOutside([], a) == ControlsOutside([], a) == {}
    ensures EligibleUnmapped([], x) == SettlementsOutside([], x) == {}
  {
  }

  /** The accounts and invoices of rows whose account and currency no declared partition covers. */
  method FindOutside(x: Inputs) returns (accounts: set<string>, invoices: set<string>)
    ensures accounts == UnmappedAccounts(x)
    ensures invoices == InvoicesOutside(x.obs.invoices, x.assembly)
  {
    hide AccountsOutside, InvoicesOutside, ControlsOutside, PartitionFor;
    accounts, invoices := {}, {};
    var (rows, controls, a) := (x.obs.invoices, x.obs.controls, x.assembly);
    TakeAll(rows);
    TakeAll(controls);
    NothingOutside(a, x);
    for k := 0 to |rows|
      invariant accounts == AccountsOutside(rows[..k], a) && invoices == InvoicesOutside(rows[..k], a)
    {
      OutsideNext(rows, k, a);
      if PartitionFor(a, InvoiceKey(rows[k])) == None {
        accounts := accounts + {rows[k].account};
        invoices := invoices + {rows[k].id};
      }
    }
    for k := 0 to |controls|
      invariant accounts == AccountsOutside(rows, a) + ControlsOutside(controls[..k], a)
    {
      var c := controls[k];
      ControlsNext(controls, k, a);
      if c.account.Some? && c.currency.Some? {
        if PartitionFor(a, Key(c.account.value, c.currency.value)) == None {
          accounts := accounts + {c.account.value};
        }
      }
    }
  }

  // ---- dispositions ------------------------------------------------------------------------------------

  lemma StandingByTables(id: string, x: Inputs, t: Tables)
    requires TablesOf(t, x)
    ensures id in t.codes ==> t.codes[id] != [] && |Sort(t.codes[id], Text.Le)| == |t.codes[id]|
    ensures StandingOf(id, x) ==
      if id in t.codes then Standing(Blocking, Sort(t.codes[id], Text.Le)[0])
      else if id in t.exclusions then Standing(Excluded, t.exclusions[id])
      else if id in x.obs.eligible then Standing(Eligible, "eligible")
      else Standing(Blocking, "unclassified")
  {
    hide ValuesFor, FirstFor, TablesOf, Text.Le, MappingFor;
    TablesSay(t, x, id);
    SortKeeps(ValuesFor(x.sidecar.exceptions, id), Text.Le);
    hide Sort;
  }

  /** The precedence of blocking, excluded and eligible, and then the residual's exactness over all of them. */
  method Classify(inv: ObservedInvoice, x: Inputs, t: Tables) returns (standing: Standing, residual: int, exact: bool)
    requires TablesOf(t, x)
    ensures standing == FinalStanding(inv, x) && residual == ResidualOrZero(inv, x) && exact == ResidualOf(inv, x).Some?
  {
    hide TablesOf, StandingOf, Sort, PrecisionOf, Minor, Text.Le, IsExact, Guarded;
    StandingByTables(inv.id, x, t);
    if inv.id in t.codes {
      standing := Standing(Blocking, Sort(t.codes[inv.id], Text.Le)[0]);
    } else if inv.id in t.exclusions {
      standing := Standing(Excluded, t.exclusions[inv.id]);
    } else if inv.id in x.obs.eligible {
      standing := Standing(Eligible, "eligible");
    } else {
      standing := Standing(Blocking, "unclassified");
    }
    var minor := MinorUnitsOf(inv.residual, PrecisionOf(x.obs, inv.currency));
    exact := minor.Some?;
    if minor == None {
      standing := Standing(Blocking, PRECISION_MISMATCH);
      residual := 0;
    } else {
      residual := minor.value;
    }
  }

  lemma EligibleNext(invoices: seq<ObservedInvoice>, k: nat, x: Inputs)
    requires k < |invoices|
    ensures
      var inv := invoices[k];
      EligibleUnmapped(invoices[..k + 1], x) ==
        EligibleUnmapped(invoices[..k], x)
        + if Receives(inv, x) && MappingFor(x.assembly, inv.id) == None then {inv.id} else {}
  {
    hide Receives, MappingFor;
    TakeNext(invoices, k);
  }

  datatype Lists = Lists(
    dispositions: seq<Disposition>, receivables: seq<Receivable>, used: seq<InvoiceMapping>,
    unmapped: set<string>, blockers: seq<AdapterBlocker>)

  /** The lists after the invoices in `rows`. */
  function ListsOf(rows: seq<ObservedInvoice>, x: Inputs, e: Evidence): Lists {
    Lists(
      FilterMap(rows, DispositionOf(x)), FilterMap(rows, ReceivableOf(x, e)), FilterMap(rows, UsedMapping(x)),
      EligibleUnmapped(rows, x), FilterMap(rows, InvoiceBlocker(x)))
  }

  function UnmappedOf(inv: ObservedInvoice, x: Inputs): set<string> {
    if Receives(inv, x) && MappingFor(x.assembly, inv.id) == None then {inv.id} else {}
  }

  /** The lists with one more invoice. */
  function Added(seen: Lists, inv: ObservedInvoice, x: Inputs, e: Evidence): Lists {
    Lists(
      seen.dispositions + Optional(DispositionOf(x)(inv)), seen.receivables + Optional(ReceivableOf(x, e)(inv)),
      seen.used + Optional(UsedMapping(x)(inv)), seen.unmapped + UnmappedOf(inv, x),
      seen.blockers + Optional(InvoiceBlocker(x)(inv)))
  }

  lemma ListsNext(rows: seq<ObservedInvoice>, k: nat, x: Inputs, e: Evidence)
    requires k < |rows|
    ensures ListsOf(rows[..k + 1], x, e) == Added(ListsOf(rows[..k], x, e), rows[k], x, e)
  {
    FilterMapNext(rows, k, DispositionOf(x));
    FilterMapNext(rows, k, ReceivableOf(x, e));
    FilterMapNext(rows, k, UsedMapping(x));
    FilterMapNext(rows, k, InvoiceBlocker(x));
    EligibleNext(rows, k, x);
    hide FilterMap, EligibleUnmapped, DispositionOf, ReceivableOf, UsedMapping, InvoiceBlocker;
  }

  lemma NoLists(x: Inputs, e: Evidence)
    ensures ListsOf([], x, e) == Lists([], [], [], {}, [])
  {
  }

  /** What one invoice adds to each list. */
  lemma InvoiceAdds(inv: ObservedInvoice, x: Inputs, e: Evidence)
    ensures
      var (p, m) := (PartitionFor(x.assembly, InvoiceKey(inv)), MappingFor(x.assembly, inv.id));
      var s := FinalStanding(inv, x);
      var received := p.Some? && s.status == Eligible;
      && DispositionOf(x)(inv) == (
        if p == None then None
        else Some(Disposition(if s.status == Eligible && m.Some? then m.value.identity else OwnIdentity(inv.id),
                              p.value, s.status, s.reason, ResidualOrZero(inv, x))))
      && UsedMapping(x)(inv) == (if received then m else None)
      && ReceivableOf(x, e)(inv) == (
        if !received || m == None then None
        else Some(Receivable(m.value.identity, p.value, m.value.key,
                             FirstFor(e.originals, inv.id), HistoryFor(e, inv.id), ResidualOrZero(inv, x))))
      && InvoiceBlocker(x)(inv) == (
        if ResidualOf(inv, x) == None
        then Some(AdapterBlocker(CurrencyPrecisionMismatch, inv.id, if p.Some? then Some(p.value.sourceKey) else None))
        else if received && m == None then Some(AdapterBlocker(UnmappedSourceInvoice, inv.id, Some(p.value.sourceKey)))
        else None)
      && UnmappedOf(inv, x) == (if received && m == None then {inv.id} else {})
      && (ResidualOf(inv, x) == None ==> s.status == Blocking)
  {
    hide PartitionFor, MappingFor, FirstFor, ResidualOf, StandingOf, HistoryFor;
  }

  lemma AddSome<T>(x: T)
    ensures Optional(Some(x)) == [x]
  {
  }

  lemma AddNothing(s: Lists)
    ensures s.dispositions + Optional<Disposition>(None) == s.dispositions
    ensures s.receivables + Optional<Receivable>(None) == s.receivables
    ensures s.used + Optional<InvoiceMapping>(None) == s.used
    ensures s.blockers + Optional<AdapterBlocker>(None) == s.blockers
    ensures s.unmapped + {} == s.unmapped
  {
  }

  /** One turn: the invoice's disposition, and its receivable if it is eligible and mapped. */
  method DisposeOne(
      inv: ObservedInvoice, x: Inputs, t: Tables, originals: map<string, Original>,
      histories: map<string, seq<Effect>>, ghost e: Evidence, before: Lists) returns (after: Lists)
    requires TablesOf(t, x) && Firsts(originals, e.originals) && Firsts(histories, e.histories)
    ensures after == Added(before, inv, x, e)
  {
    InvoiceAdds(inv, x, e);
    TablesSay(t, x, inv.id);
    assert Get(originals, inv.id) == FirstFor(e.originals, inv.id);
    assert Get(histories, inv.id) == FirstFor(e.histories, inv.id);
    AddNothing(before);
    hide TablesOf, Firsts, PartitionFor, MappingFor, FirstFor, FinalStanding, ResidualOf, ResidualOrZero, ValuesFor,
      DispositionOf, ReceivableOf, UsedMapping, InvoiceBlocker, UnmappedOf, Optional;
    var (dispositions, receivables, used, unmapped, blockers) :=
      (before.dispositions, before.receivables, before.used, before.unmapped, before.blockers);
    var standing, residual, exact := Classify(inv, x, t);
    var partition := PartitionFor(x.assembly, InvoiceKey(inv));
    if !exact {
      var key := if partition.Some? then Some(partition.value.sourceKey) else None;
      var blocker := AdapterBlocker(CurrencyPrecisionMismatch, inv.id, key);
      AddSome(blocker);
      blockers := blockers + [blocker];
    }
    if partition == None {
      return Lists(dispositions, receivables, used, unmapped, blockers);
    }
    var mapping := Get(t.mappings, inv.id);
    var identity :=
      if standing.status == Eligible && mapping.Some? then mapping.value.identity else OwnIdentity(inv.id);
    var disposition := Disposition(identity, partition.value, standing.status, standing.reason, residual);
    AddSome(disposition);
    dispositions := dispositions + [disposition];
    if standing.status != Eligible {
      return Lists(dispositions, receivables, used, unmapped, blockers);
    }
    if mapping == None {
      unmapped := unmapped + {inv.id};
      var blocker := AdapterBlocker(UnmappedSourceInvoice, inv.id, Some(partition.value.sourceKey));
      AddSome(blocker);
      blockers := blockers + [blocker];
      return Lists(dispositions, receivables, used, unmapped, blockers);
    }
    var history := if inv.id in histories then histories[inv.id] else [];
    var receivable := Receivable(mapping.value.identity, partition.value, mapping.value.key, Get(originals, inv.id),
      history, residual);
    AddSome(receivable);
    AddSome(mapping.value);
    return Lists(dispositions, receivables + [receivable], used + [mapping.value], unmapped, blockers);
  }

  /** Every observed invoice in order. */
  method DisposeAll(
      x: Inputs, t: Tables, originals: map<string, Original>, histories: map<string, seq<Effect>>, ghost e: Evidence)
    returns (lists: Lists)
    requires TablesOf(t, x) && Firsts(originals, e.originals) && Firsts(histories, e.histories)
    ensures lists == ListsOf(x.obs.invoices, x, e)
  {
    hide ListsOf, TablesOf, Firsts, Added;
    lists := Lists([], [], [], {}, []);
    var rows := x.obs.invoices;
    TakeAll(rows);
    NoLists(x, e);
    for k := 0 to |rows|
      invariant lists == ListsOf(rows[..k], x, e)
    {
      ListsNext(rows, k, x, e);
      lists := DisposeOne(rows[k], x, t, originals, histories, e, lists);
    }
  }

  // ---- settlements and the whole assembly ----------------------------------------------------------------

  lemma SettlementsNext(settlements: seq<ObservedSettlement>, k: nat, x: Inputs)
    requires k < |settlements|
    ensures SettlementsOutside(settlements[..k + 1], x) ==
      SettlementsOutside(settlements[..k], x)
      + if SettlementUnmapped(settlements[k], x) then {settlements[k].key.id} else {}
  {
    hide SettlementUnmapped;
    TakeNext(settlements, k);
  }

  method FindUnmappedSettlements(x: Inputs) returns (ids: set<string>)
    ensures ids == UnmappedSettlements(x)
  {
    hide SettlementsOutside;
    ids := {};
    var (rows, declared) := (x.obs.settlements, set m | m in x.assembly.discharges :: m.settlement);
    TakeAll(rows);
    NothingOutside(x.assembly, x);
    for k := 0 to |rows|
      invariant ids == SettlementsOutside(rows[..k], x)
    {
      var s := rows[k];
      SettlementsNext(rows, k, x);
      assert s.key in declared <==> IsDeclared(x.assembly, s.key);
      if s.active && s.invoice in x.obs.eligible {
        if s.key !in declared {
          ids := ids + {s.key.id};
        }
      }
    }
  }

  method ReportEach(code: BlockerCode, references: set<string>, reported: seq<AdapterBlocker>)
    returns (blockers: seq<AdapterBlocker>)
    ensures blockers == reported + FilterMap(Text.InOrder(references), Global(code))
  {
    hide FilterMap, Text.InOrder;
    blockers := reported;
    var ids := Text.InOrder(references);
    TakeAll(ids);
    assert FilterMap([], Global(code)) == [] by {
      FilterMapEmpty(Global(code));
    }
    for k := 0 to |ids|
      invariant blockers == reported + FilterMap(ids[..k], Global(code))
    {
      FilterMapNext(ids, k, Global(code));
      blockers := blockers + [AdapterBlocker(code, ids[k], None)];
    }
  }

  /**
   * The assembly of a run: refused for evidence that does not stand up, otherwise the one outcome
   * the inputs determine.
   */
  method Assemble(x: Inputs, e: Evidence) returns (r: Result<Outcome, Refusal>)
    ensures !OriginalsOk(e.originals, x) ==> r == Err(OriginalDocumentMappingInvalid)
    ensures OriginalsOk(e.originals, x) && !HistoriesOk(e.histories, e.originals, x)
      ==> r == Err(HistoricalDischargeMappingInvalid)
    ensures OriginalsOk(e.originals, x) && HistoriesOk(e.histories, e.originals, x) ==> r == Ok(OutcomeOf(x, e))
  {
    hide OriginalsOk, HistoriesOk, TablesOf, Firsts, FilterMap, Sort, UnmappedAccounts, UnmappedSettlements,
      InvoicesOutside, EligibleUnmapped, Text.InOrder, PopulationOf, DispositionOf, ReceivableOf, UsedMapping,
      InvoiceBlocker, Global;
    var t := BuildTables(x);
    var ok, originals := CheckOriginals(e.originals, x, t);
    if !ok {
      return Err(OriginalDocumentMappingInvalid);
    }
    var fine, histories := CheckHistories(e.histories, e.originals, originals, x);
    if !fine {
      return Err(HistoricalDischargeMappingInvalid);
    }
    var accounts, invoices := FindOutside(x);
    var blockers := ReportEach(UnmappedSourceAccount, accounts, []);
    var lists := DisposeAll(x, t, originals, histories, e);
    var settlements := FindUnmappedSettlements(x);
    blockers := ReportEach(UnmappedSourceSettlement, settlements, blockers + lists.blockers);
    assert blockers == BlockersOf(x);
    var dispositions := Sort(lists.dispositions, DispositionLe);
    return Ok(Outcome(
      dispositions, Sort(lists.receivables, ReceivableLe), lists.used, PopulationOf(dispositions), blockers,
      accounts, invoices + lists.unmapped, settlements));
  }
}
