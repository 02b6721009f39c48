/** What the rehearsal adapter accepts and reports, said of the rows it is given. */
module AdapterMeaning {
  import opened Wrappers
  import opened Sorting
  import opened Filtering
  import opened OpeningModel
  import opened MinorUnits
  import opened AdapterSpec
  import P = AdapterProperties
  import Text

  // ---- which row a lookup finds -----------------------------------------------------------------

  /** `v` stands in the last row under `id`. */
  ghost predicate IsLast<V>(rows: seq<Row<V>>, id: string, v: V) {
    exists k :: 0 <= k < |rows| && rows[k] == Row(id, v) && forall j | k < j < |rows| :: rows[j].id != id
  }

  /** `p` is the last partition declared for an account and currency. */
  ghost predicate IsDeclaredFor(p: Partition, partitions: seq<Partition>, account: string, currency: string) {
    exists k ::
      && 0 <= k < |partitions| && partitions[k] == p && p.source == account && p.currency == currency
      && forall j | k < j < |partitions| :: partitions[j].source != account || partitions[j].currency != currency
  }

  predicate Covers(a: Assembly, account: string, currency: string) {
    exists p :: p in a.partitions && p.source == account && p.currency == currency
  }

  lemma {:induction false} LastForIsLast<V>(rows: seq<Row<V>>, id: string)
    ensures LastFor(rows, id).None? <==> forall r | r in rows :: r.id != id
    ensures LastFor(rows, id).Some? ==> IsLast(rows, id, LastFor(rows, id).value)
  {
    if rows != [] {
      var (rest, last) := (rows[..|rows| - 1], rows[|rows| - 1]);
      assert rows == rest + [last];
      LastForIsLast(rest, id);
      assert LastFor(rows, id) == if last.id == id then Some(last.value) else LastFor(rest, id);
      hide LastFor, IsLast;
      if last.id == id {
        NewIsLast(rest, last);
      } else if LastFor(rest, id).Some? {
        LastStays(rest, last, id, LastFor(rest, id).value);
      }
    }
  }

  lemma NewIsLast<V>(rest: seq<Row<V>>, last: Row<V>)
    ensures IsLast(rest + [last], last.id, last.value)
  {
    assert (rest + [last])[|rest|] == Row(last.id, last.value);
  }

  lemma LastStays<V>(rest: seq<Row<V>>, last: Row<V>, id: string, v: V)
    requires last.id != id && IsLast(rest, id, v)
    ensures IsLast(rest + [last], id, v)
  {
    var k :| 0 <= k < |rest| && rest[k] == Row(id, v) && forall j | k < j < |rest| :: rest[j].id != id;
    assert (rest + [last])[k] == Row(id, v);
  }

  lemma LastIsOne<V>(rows: seq<Row<V>>, id: string, v: V)
    ensures IsLast(rows, id, v) <==> LastFor(rows, id) == Some(v)
  {
    LastForIsLast(rows, id);
    hide LastFor;
    if IsLast(rows, id, v) {
      var w := LastFor(rows, id).value;
      var k :| 0 <= k < |rows| && rows[k] == Row(id, v) && forall j | k < j < |rows| :: rows[j].id != id;
      var i :| 0 <= i < |rows| && rows[i] == Row(id, w) && forall j | i < j < |rows| :: rows[j].id != id;
      assert rows[i].id == rows[k].id;
    }
  }

  lemma {:induction false} PartitionIsLast(a: Assembly, k: Key)
    ensures PartitionFor(a, k).Some? <==> Covers(a, k.account, k.currency)
    ensures PartitionFor(a, k).Some? ==> IsDeclaredFor(PartitionFor(a, k).value, a.partitions, k.account, k.currency)
    decreases |a.partitions|
  {
    if a.partitions != [] {
      var (rest, last) := (a.(partitions := a.partitions[..|a.partitions| - 1]), a.partitions[|a.partitions| - 1]);
      assert a.partitions == rest.partitions + [last];
      PartitionIsLast(rest, k);
      PartitionNext(a, rest, last, k);
      hide PartitionFor, IsDeclaredFor, FilterMap;
      if PartitionKey(last) == k {
        NewIsDeclared(rest.partitions, last);
      } else if PartitionFor(rest, k).Some? {
        DeclaredStays(rest.partitions, last, PartitionFor(rest, k).value, k);
      }
    }
  }

  lemma PartitionNext(a: Assembly, rest: Assembly, last: Partition, k: Key)
    requires a.partitions == rest.partitions + [last]
    ensures PartitionFor(a, k) == if PartitionKey(last) == k then Some(last) else PartitionFor(rest, k)
  {
    FilterMapLast(rest.partitions, last, Keyed(k));
    hide FilterMap;
  }

  lemma NewIsDeclared(rest: seq<Partition>, last: Partition)
    ensures IsDeclaredFor(last, rest + [last], last.source, last.currency)
  {
    assert (rest + [last])[|rest|] == last;
  }

  lemma DeclaredStays(rest: seq<Partition>, last: Partition, p: Partition, k: Key)
    requires PartitionKey(last) != k && IsDeclaredFor(p, rest, k.account, k.currency)
    ensures IsDeclaredFor(p, rest + [last], k.account, k.currency)
  {
    var i :| 0 <= i < |rest| && rest[i] == p
      && forall j | i < j < |rest| :: rest[j].source != k.account || rest[j].currency != k.currency;
    assert (rest + [last])[i] == p;
  }

  /**
   * The lookups of one invoice: the last precision and partition declared for it, and the first
   * mapping of its id.
   */
  lemma LookupsFind(inv: ObservedInvoice, x: Inputs)
    ensures PrecisionOf(x.obs, inv.currency).Some? ==>
      IsLast(x.obs.precisions, inv.currency, PrecisionOf(x.obs, inv.currency).value)
    ensures PrecisionOf(x.obs, inv.currency).None? ==> forall r | r in x.obs.precisions :: r.id != inv.currency
    ensures InPartition(inv, x.assembly) <==> Covers(x.assembly, inv.account, inv.currency)
    ensures InPartition(inv, x.assembly) ==>
      IsDeclaredFor(PartitionFor(x.assembly, InvoiceKey(inv)).value, x.assembly.partitions, inv.account, inv.currency)
    ensures MappingFor(x.assembly, inv.id).Some? <==> exists m :: m in x.assembly.invoices && m.invoice == inv.id
    ensures MappingFor(x.assembly, inv.id).Some? ==> exists k ::
      && 0 <= k < |x.assembly.invoices| && x.assembly.invoices[k] == MappingFor(x.assembly, inv.id).value
      && x.assembly.invoices[k].invoice == inv.id
      && forall j | 0 <= j < k :: x.assembly.invoices[j].invoice != inv.id
  {
    LastForIsLast(x.obs.precisions, inv.currency);
    PartitionIsLast(x.assembly, InvoiceKey(inv));
    P.MappingIsFirst(inv.id, x);
    hide LastFor, IsLast, PartitionFor, IsDeclaredFor, FirstFor;
    if MappingFor(x.assembly, inv.id).Some? {
      var (rows, m) := (MappingRows(x.assembly), MappingFor(x.assembly, inv.id).value);
      var k :| 0 <= k < |rows| && rows[k] == Row(inv.id, m) && forall j | 0 <= j < k :: rows[j].id != inv.id;
      assert rows[k] == Row(x.assembly.invoices[k].invoice, x.assembly.invoices[k]);
      forall j | 0 <= j < k ensures x.assembly.invoices[j].invoice != inv.id {
        assert rows[j].id != inv.id;
      }
    }
  }

  // ---- originals ----------------------------------------------------------------------------------

  /** The one observed invoice of an id. */
  ghost predicate IsTheInvoice(inv: ObservedInvoice, id: string, obs: Observation) {
    exists i :: 0 <= i < |obs.invoices| && obs.invoices[i] == inv && inv.id == id
      && forall j | 0 <= j < |obs.invoices| && obs.invoices[j].id == id :: j == i
  }

  lemma TheInvoice(inv: ObservedInvoice, id: string, obs: Observation)
    ensures ValuesFor(InvoiceRows(obs), id) == [inv] <==> IsTheInvoice(inv, id, obs)
  {
    var rows := InvoiceRows(obs);
    FilterMapOnly(rows, Under(id), inv);
    if KeepsOnly(rows, Under(id), inv) {
      var i :| 0 <= i < |rows| && Under(id)(rows[i]) == Some(inv)
        && forall j | 0 <= j < |rows| && Under(id)(rows[j]).Some? :: j == i;
      forall j | 0 <= j < |obs.invoices| && obs.invoices[j].id == id ensures j == i {
        assert Under(id)(rows[j]).Some?;
      }
    }
    if IsTheInvoice(inv, id, obs) {
      var i :| 0 <= i < |obs.invoices| && obs.invoices[i] == inv && inv.id == id
        && forall j | 0 <= j < |obs.invoices| && obs.invoices[j].id == id :: j == i;
      assert Under(id)(rows[i]) == Some(inv);
      forall j | 0 <= j < |rows| && Under(id)(rows[j]).Some? ensures j == i {
        assert rows[j] == Row(obs.invoices[j].id, obs.invoices[j]);
      }
    }
  }

  /**
   * An original stands up exactly when it fits, in every particular, the one eligible, mapped and
   * clean invoice of its id.
   */
  lemma OriginalExactly(r: Row<Original>, x: Inputs)
    ensures OriginalOk(r, x) <==> exists inv ::
      && IsTheInvoice(inv, r.id, x.obs)
      && r.id in x.obs.eligible && (exists m :: m in x.assembly.invoices && m.invoice == r.id)
      && (forall row | row in x.sidecar.exclusions :: row.id != r.id)
      && (forall row | row in x.sidecar.exceptions :: row.id != r.id)
      && Covers(x.assembly, inv.account, inv.currency)
      && inv.number == Some(r.value.number) && inv.issuedAt == Some(r.value.issuedAt)
      && Value(r.value.amount) == Value(inv.total) && r.value.currency == inv.currency
      && IsLast(x.obs.precisions, inv.currency, r.value.minorUnits)
  {
    var rows := ValuesFor(InvoiceRows(x.obs), r.id);
    P.ValuesForMembers(x.sidecar.exceptions, r.id);
    P.FirstForIsFirst(x.sidecar.exclusions, r.id);
    P.MappingIsFirst(r.id, x);
    if |rows| == 1 {
      assert rows == [rows[0]];
      TheInvoice(rows[0], r.id, x.obs);
      PartitionIsLast(x.assembly, InvoiceKey(rows[0]));
      LastIsOne(x.obs.precisions, rows[0].currency, r.value.minorUnits);
    }
    forall inv | IsTheInvoice(inv, r.id, x.obs) ensures rows == [inv] {
      TheInvoice(inv, r.id, x.obs);
    }
    hide ValuesFor, FirstFor, LastFor, MappingFor, PartitionFor, IsTheInvoice, IsLast, Covers, Value;
  }

  // ---- historical effects ---------------------------------------------------------------------------

  /** The one declared mapping of a reference, and of its settlement. */
  ghost predicate IsTheMapping(m: DischargeMapping, reference: string, a: Assembly) {
    exists i :: 0 <= i < |a.discharges| && a.discharges[i] == m && m.reference == reference
      && (forall j | 0 <= j < |a.discharges| && a.discharges[j].reference == reference :: j == i)
      && forall j | 0 <= j < |a.discharges| && a.discharges[j].settlement == m.settlement :: j == i
  }

  ghost predicate IsTheSettlement(s: ObservedSettlement, key: SettlementKey, obs: Observation) {
    exists i :: 0 <= i < |obs.settlements| && obs.settlements[i] == s && s.key == key
      && forall j | 0 <= j < |obs.settlements| && obs.settlements[j].key == key :: j == i
  }

  lemma TheMapping(m: DischargeMapping, e: Effect, a: Assembly)
    ensures MappingOf(e, a) == Some(m) <==> IsTheMapping(m, e.reference, a)
  {
    FilterMapOnly(a.discharges, ByReference(e.reference), m);
    FilterMapOnly(a.discharges, BySettlement(m.settlement), m);
    var (named, keyed) := (FilterMap(a.discharges, ByReference(e.reference)),
      FilterMap(a.discharges, BySettlement(m.settlement)));
    FilterMapMembers(a.discharges, BySettlement(m.settlement), m);
    FilterMapMembers(a.discharges, ByReference(e.reference), m);
    hide FilterMap;
    if MappingOf(e, a) == Some(m) {
      assert named == [m] && m in named;
      assert m in keyed && keyed == [keyed[0]];
      var i :| 0 <= i < |a.discharges| && ByReference(e.reference)(a.discharges[i]) == Some(m)
        && forall j | 0 <= j < |a.discharges| && ByReference(e.reference)(a.discharges[j]).Some? :: j == i;
      forall j | 0 <= j < |a.discharges| && a.discharges[j].reference == e.reference ensures j == i {
        assert ByReference(e.reference)(a.discharges[j]).Some?;
      }
      assert KeepsOnly(a.discharges, BySettlement(m.settlement), m);
      forall j | 0 <= j < |a.discharges| && a.discharges[j].settlement == m.settlement ensures j == i {
        assert BySettlement(m.settlement)(a.discharges[j]).Some?;
        assert BySettlement(m.settlement)(a.discharges[i]).Some?;
      }
    }
    if IsTheMapping(m, e.reference, a) {
      var i :| 0 <= i < |a.discharges| && a.discharges[i] == m && m.reference == e.reference
        && (forall j | 0 <= j < |a.discharges| && a.discharges[j].reference == e.reference :: j == i)
        && forall j | 0 <= j < |a.discharges| && a.discharges[j].settlement == m.settlement :: j == i;
      assert ByReference(e.reference)(a.discharges[i]) == Some(m);
      assert BySettlement(m.settlement)(a.discharges[i]) == Some(m);
      assert KeepsOnly(a.discharges, ByReference(e.reference), m);
      assert KeepsOnly(a.discharges, BySettlement(m.settlement), m);
    }
  }

  lemma TheSettlement(s: ObservedSettlement, key: SettlementKey, obs: Observation)
    ensures FilterMap(obs.settlements, Observed(key)) == [s] <==> IsTheSettlement(s, key, obs)
  {
    FilterMapOnly(obs.settlements, Observed(key), s);
    hide FilterMap;
    if KeepsOnly(obs.settlements, Observed(key), s) {
      var i :| 0 <= i < |obs.settlements| && Observed(key)(obs.settlements[i]) == Some(s)
        && forall j | 0 <= j < |obs.settlements| && Observed(key)(obs.settlements[j]).Some? :: j == i;
      forall j | 0 <= j < |obs.settlements| && obs.settlements[j].key == key ensures j == i {
        assert Observed(key)(obs.settlements[j]).Some?;
      }
    }
    if IsTheSettlement(s, key, obs) {
      var i :| 0 <= i < |obs.settlements| && obs.settlements[i] == s && s.key == key
        && forall j | 0 <= j < |obs.settlements| && obs.settlements[j].key == key :: j == i;
      assert Observed(key)(obs.settlements[i]) == Some(s);
    }
  }

  /** What an effect of an invoice stands for: a mapping and a settlement, each the only one, that agree with it. */
  ghost predicate StandsFor(
      e: Effect, m: DischargeMapping, s: ObservedSettlement, inv: ObservedInvoice, x: Inputs)
  {
    && IsTheMapping(m, e.reference, x.assembly) && IsTheSettlement(s, m.settlement, x.obs)
    && s.active && s.invoice == inv.id && s.key.id in inv.settlements && s.source == m.source
    && e.kind == s.key.kind && (e.kind == "payment" || e.kind == "credit_note")
    && Minor(s.amount, PrecisionOf(x.obs, inv.currency)) == Some(e.amount)
  }

  /** An effect is accepted exactly when there is such a mapping and settlement. */
  lemma EffectExactly(e: Effect, inv: ObservedInvoice, x: Inputs)
    ensures EffectOk(e, inv, x) <==> exists m, s :: StandsFor(e, m, s, inv, x)
  {
    hide Minor, PrecisionOf, FilterMap;
    if EffectOk(e, inv, x) {
      var (m, s) := (MappingOf(e, x.assembly).value, SettlementOf(e, x).value);
      TheMapping(m, e, x.assembly);
      var observed := FilterMap(x.obs.settlements, Observed(m.settlement));
      assert observed == [s];
      TheSettlement(s, m.settlement, x.obs);
      hide MappingOf, SettlementOf, IsTheMapping, IsTheSettlement;
      assert StandsFor(e, m, s, inv, x);
    }
    if m, s :| StandsFor(e, m, s, inv, x) {
      TheMapping(m, e, x.assembly);
      TheSettlement(s, m.settlement, x.obs);
      hide MappingOf, IsTheMapping, IsTheSettlement;
    }
  }

  /** No reference is given twice, in one history or in two. */
  predicate ReferencesApart(histories: seq<Row<seq<Effect>>>) {
    forall g, h, i, j | 0 <= g < |histories| && 0 <= h < |histories| && 0 <= i < |histories[g].value|
      && 0 <= j < |histories[h].value| && (g != h || i != j) ::
      histories[g].value[i].reference != histories[h].value[j].reference
  }

  predicate Mentions(histories: seq<Row<seq<Effect>>>, reference: string) {
    exists h, j | 0 <= h < |histories| && 0 <= j < |histories[h].value| :: histories[h].value[j].reference == reference
  }

  lemma {:induction false} ClaimedReferences(histories: seq<Row<seq<Effect>>>, reference: string)
    ensures reference in References(AllClaims(histories)) <==> Mentions(histories, reference)
  {
    if histories != [] {
      var (rest, last) := (histories[..|histories| - 1], histories[|histories| - 1]);
      ClaimedReferences(rest, reference);
      var (before, now) := (References(AllClaims(rest)), References(ClaimsOf(last.id, last.value)));
      ReferencesGrow(rest, last);
      assert histories == rest + [last];
      hide References, AllClaims;
      if Mentions(rest, reference) {
        var h, j :| 0 <= h < |rest| && 0 <= j < |rest[h].value| && rest[h].value[j].reference == reference;
        assert histories[h] == rest[h];
      }
      if reference in now {
        var j :| 0 <= j < |now| && now[j] == reference;
        assert histories[|rest|].value[j].reference == reference;
      }
      if Mentions(histories, reference) {
        var h, j :| 0 <= h < |histories| && 0 <= j < |histories[h].value|
          && histories[h].value[j].reference == reference;
        if h < |rest| {
          assert rest[h].value[j].reference == reference;
        } else {
          assert now[j] == reference;
        }
      }
    }
  }

  lemma ReferencesGrow(rest: seq<Row<seq<Effect>>>, last: Row<seq<Effect>>)
    ensures References(AllClaims(rest + [last])) ==
      References(AllClaims(rest)) + References(ClaimsOf(last.id, last.value))
    ensures |References(ClaimsOf(last.id, last.value))| == |last.value|
    ensures forall j | 0 <= j < |last.value| ::
      References(ClaimsOf(last.id, last.value))[j] == last.value[j].reference
  {
    assert (rest + [last])[..|rest + [last]| - 1] == rest;
    assert AllClaims(rest + [last]) == AllClaims(rest) + ClaimsOf(last.id, last.value);
  }

  lemma {:induction false} ReferencesAreApart(histories: seq<Row<seq<Effect>>>)
    ensures NoDuplicates(References(AllClaims(histories))) <==> ReferencesApart(histories)
  {
    if histories != [] {
      var (rest, last) := (histories[..|histories| - 1], histories[|histories| - 1]);
      assert histories == rest + [last];
      ReferencesAreApart(rest);
      ReferencesGrow(rest, last);
      forall reference ensures reference in References(AllClaims(rest)) <==> Mentions(rest, reference) {
        ClaimedReferences(rest, reference);
      }
      var (before, now) := (References(AllClaims(rest)), References(ClaimsOf(last.id, last.value)));
      ApartGrows(rest, last);
      DistinctJoins(before, now);
      hide References, AllClaims, ReferencesApart, Mentions, NoDuplicates;
      assert (forall r | r in now :: r !in before) <==> forall j | 0 <= j < |now| :: now[j] !in before;
      NowApart(now, last.value);
    }
  }

  lemma NowApart(now: seq<string>, effects: seq<Effect>)
    requires |now| == |effects| && forall j | 0 <= j < |now| :: now[j] == effects[j].reference
    ensures NoDuplicates(now) <==> forall i, j | 0 <= i < |effects| && 0 <= j < |effects| && i != j ::
      effects[i].reference != effects[j].reference
  {
    if NoDuplicates(now) {
      forall i, j | 0 <= i < |effects| && 0 <= j < |effects| && i != j
        ensures effects[i].reference != effects[j].reference
      {
        assert i < j ==> now[i] != now[j];
        assert j < i ==> now[j] != now[i];
      }
    }
  }

  lemma DistinctJoins(a: seq<string>, b: seq<string>)
    ensures NoDuplicates(a + b) <==> NoDuplicates(a) && NoDuplicates(b) && forall r | r in b :: r !in a
  {
    var s := a + b;
    if NoDuplicates(s) {
      forall i, j | 0 <= i < j < |b| ensures b[i] != b[j] {
        assert s[|a| + i] == b[i] && s[|a| + j] == b[j];
      }
      forall i, j | 0 <= i < j < |a| ensures a[i] != a[j] {
        assert s[i] == a[i] && s[j] == a[j];
      }
      forall i, j | 0 <= i < |a| && 0 <= j < |b| ensures a[i] != b[j] {
        assert s[i] == a[i] && s[|a| + j] == b[j];
      }
    }
    if NoDuplicates(a) && NoDuplicates(b) && forall r | r in b :: r !in a {
      forall i, j | 0 <= i < j < |s| ensures s[i] != s[j] {
        if i < |a| <= j {
          assert s[j] == b[j - |a|] && b[j - |a|] in b && s[i] in a;
        } else if |a| <= i {
          assert s[i] == b[i - |a|] && s[j] == b[j - |a|];
        }
      }
    }
  }

  lemma ApartGrows(rest: seq<Row<seq<Effect>>>, last: Row<seq<Effect>>)
    ensures ReferencesApart(rest + [last]) <==>
      && ReferencesApart(rest)
      && (forall i, j | 0 <= i < |last.value| && 0 <= j < |last.value| && i != j ::
            last.value[i].reference != last.value[j].reference)
      && forall j | 0 <= j < |last.value| :: !Mentions(rest, last.value[j].reference)
  {
    var all := rest + [last];
    assert all[|rest|] == last && forall h | 0 <= h < |rest| :: all[h] == rest[h];
    if ReferencesApart(all) {
      forall i, j | 0 <= i < |last.value| && 0 <= j < |last.value| && i != j
        ensures last.value[i].reference != last.value[j].reference
      {
        assert all[|rest|].value[i].reference != all[|rest|].value[j].reference;
      }
      forall j | 0 <= j < |last.value| ensures !Mentions(rest, last.value[j].reference) {
        forall h, i | 0 <= h < |rest| && 0 <= i < |rest[h].value|
          ensures rest[h].value[i].reference != last.value[j].reference
        {
          assert all[h].value[i].reference != all[|rest|].value[j].reference;
        }
      }
      forall g, h, i, j | 0 <= g < |rest| && 0 <= h < |rest| && 0 <= i < |rest[g].value|
        && 0 <= j < |rest[h].value| && (g != h || i != j)
        ensures rest[g].value[i].reference != rest[h].value[j].reference
      {
        assert all[g].value[i].reference != all[h].value[j].reference;
      }
    }
  }

  /**
   * Which histories are accepted: distinct observed invoices with originals, every effect standing
   * up, references apart.
   */
  lemma HistoriesExactly(histories: seq<Row<seq<Effect>>>, originals: seq<Row<Original>>, x: Inputs)
    ensures HistoriesOk(histories, originals, x) <==>
      && (forall i, j | 0 <= i < j < |histories| :: histories[i].id != histories[j].id)
      && ReferencesApart(histories)
      && forall h | h in histories ::
        && (exists o :: o in originals && o.id == h.id)
        && exists inv :: IsLast(InvoiceRows(x.obs), h.id, inv) && forall e | e in h.value :: EffectOk(e, inv, x)
  {
    ReferencesAreApart(histories);
    hide NoDuplicates, References, AllClaims, ReferencesApart, EffectOk;
    forall h | h in histories
      ensures HistoryOk(h, originals, x) <==>
        && (exists o :: o in originals && o.id == h.id)
        && exists inv :: IsLast(InvoiceRows(x.obs), h.id, inv) && forall e | e in h.value :: EffectOk(e, inv, x)
    {
      HistoryExactly(h, originals, x);
    }
    hide HistoryOk;
  }

  lemma HistoryExactly(h: Row<seq<Effect>>, originals: seq<Row<Original>>, x: Inputs)
    ensures HistoryOk(h, originals, x) <==>
      && (exists o :: o in originals && o.id == h.id)
      && exists inv :: IsLast(InvoiceRows(x.obs), h.id, inv) && forall e | e in h.value :: EffectOk(e, inv, x)
  {
    hide EffectOk, LastFor, IsLast, InvoiceRows;
    forall inv ensures IsLast(InvoiceRows(x.obs), h.id, inv) <==> LastFor(InvoiceRows(x.obs), h.id) == Some(inv) {
      LastIsOne(InvoiceRows(x.obs), h.id, inv);
    }
  }

  // ---- what is left unmapped ----------------------------------------------------------------------------

  /** The accounts reported as unmapped. */
  lemma AccountUnmappedExactly(x: Inputs, account: string)
    ensures account in UnmappedAccounts(x) <==>
      || (exists inv :: inv in x.obs.invoices && inv.account == account && !Covers(x.assembly, account, inv.currency))
      || (exists c :: c in x.obs.controls && c.account == Some(account) && c.currency.Some?
            && !Covers(x.assembly, account, c.currency.value))
  {
    CoverAgrees(x);
    hide PartitionFor, Covers;
    assert account in AccountsOutside(x.obs.invoices, x.assembly) <==>
      exists inv :: inv in x.obs.invoices && inv.account == account && !Covers(x.assembly, account, inv.currency);
    ControlIsOutside(x, account);
    hide AccountsOutside, ControlsOutside;
  }

  lemma CoverAgrees(x: Inputs)
    ensures forall k: Key :: PartitionFor(x.assembly, k).Some? <==> Covers(x.assembly, k.account, k.currency)
  {
    hide PartitionFor, Covers;
    forall k: Key ensures PartitionFor(x.assembly, k).Some? <==> Covers(x.assembly, k.account, k.currency) {
      PartitionIsLast(x.assembly, k);
    }
  }

  lemma ControlIsOutside(x: Inputs, account: string)
    requires forall k: Key :: PartitionFor(x.assembly, k).Some? <==> Covers(x.assembly, k.account, k.currency)
    ensures account in ControlsOutside(x.obs.controls, x.assembly) <==> exists c ::
      c in x.obs.controls && c.account == Some(account) && c.currency.Some?
      && !Covers(x.assembly, account, c.currency.value)
  {
    hide PartitionFor, Covers;
    if account in ControlsOutside(x.obs.controls, x.assembly) {
      var c :| c in x.obs.controls && ControlUnmapped(c, x.assembly) && c.account.value == account;
      assert c.account == Some(account) && !Covers(x.assembly, account, c.currency.value);
    }
    if c :|
      c in x.obs.controls && c.account == Some(account) && c.currency.Some?
      && !Covers(x.assembly, account, c.currency.value)
    {
      assert ControlUnmapped(c, x.assembly);
    }
  }

  /** The settlements reported as unmapped. */
  lemma SettlementUnmappedExactly(x: Inputs, settlement: string)
    ensures settlement in UnmappedSettlements(x) <==> exists s ::
      && s in x.obs.settlements && s.key.id == settlement && s.active && s.invoice in x.obs.eligible
      && forall m | m in x.assembly.discharges :: m.settlement != s.key
  {
    forall s ensures IsDeclared(x.assembly, s) <==> !forall m | m in x.assembly.discharges :: m.settlement != s {}
    hide IsDeclared;
    if settlement in UnmappedSettlements(x) {
      var s :| s in x.obs.settlements && SettlementUnmapped(s, x) && s.key.id == settlement;
    }
  }

  /** The invoices reported as unmapped. */
  lemma InvoiceUnmappedExactly(x: Inputs, id: string)
    ensures id in UnmappedInvoices(x) <==> exists inv ::
      && inv in x.obs.invoices && inv.id == id
      && (!Covers(x.assembly, inv.account, inv.currency)
          || (FinalStanding(inv, x).status == Eligible && forall m | m in x.assembly.invoices :: m.invoice != id))
  {
    CoverAgrees(x);
    P.MappingIsFirst(id, x);
    hide FinalStanding, PartitionFor, Covers, MappingFor, UnmappedInvoices;
    InvoiceIsUnmapped(x, id);
  }

  lemma InvoiceIsUnmapped(x: Inputs, id: string)
    requires forall k: Key :: PartitionFor(x.assembly, k).Some? <==> Covers(x.assembly, k.account, k.currency)
    requires MappingFor(x.assembly, id).Some? <==> P.IsMapped(id, x)
    ensures id in UnmappedInvoices(x) <==> exists inv ::
      && inv in x.obs.invoices && inv.id == id
      && (!Covers(x.assembly, inv.account, inv.currency)
          || (FinalStanding(inv, x).status == Eligible && forall m | m in x.assembly.invoices :: m.invoice != id))
  {
    hide FinalStanding, PartitionFor, Covers, MappingFor;
    if id in InvoicesOutside(x.obs.invoices, x.assembly) {
      var inv :| inv in x.obs.invoices && !InPartition(inv, x.assembly) && inv.id == id;
    } else if id in EligibleUnmapped(x.obs.invoices, x) {
      var inv :| inv in x.obs.invoices && Receives(inv, x) && MappingFor(x.assembly, inv.id) == None && inv.id == id;
    }
    if inv :|
      inv in x.obs.invoices && inv.id == id
      && (!Covers(x.assembly, inv.account, inv.currency)
          || (FinalStanding(inv, x).status == Eligible && forall m | m in x.assembly.invoices :: m.invoice != id))
    {
      if InPartition(inv, x.assembly) {
        assert Receives(inv, x) && MappingFor(x.assembly, inv.id) == None;
        assert id in EligibleUnmapped(x.obs.invoices, x);
      } else {
        assert id in InvoicesOutside(x.obs.invoices, x.assembly);
      }
    }
  }

  /** Exactly these blockers are reported. */
  lemma BlockersExactly(x: Inputs, e: Evidence, b: AdapterBlocker)
    ensures b in OutcomeOf(x, e).blockers <==>
      || (b.code == UnmappedSourceAccount && b.reference in UnmappedAccounts(x) && b.partitionKey == None)
      || (b.code == UnmappedSourceSettlement && b.reference in UnmappedSettlements(x) && b.partitionKey == None)
      || (b.code == CurrencyPrecisionMismatch && exists inv ::
            && inv in x.obs.invoices && inv.id == b.reference && !P.Scales(inv, x)
            && b.partitionKey == KeyOfPartition(PartitionFor(x.assembly, InvoiceKey(inv))))
      || (b.code == UnmappedSourceInvoice && exists inv ::
            && inv in x.obs.invoices && inv.id == b.reference && Receives(inv, x)
            && MappingFor(x.assembly, inv.id) == None
            && b.partitionKey == KeyOfPartition(PartitionFor(x.assembly, InvoiceKey(inv))))
  {
    var (accounts, settlements) := (Text.InOrder(UnmappedAccounts(x)), Text.InOrder(UnmappedSettlements(x)));
    FilterMapMembers(accounts, Global(UnmappedSourceAccount), b);
    FilterMapMembers(settlements, Global(UnmappedSourceSettlement), b);
    FilterMapMembers(x.obs.invoices, InvoiceBlocker(x), b);
    GlobalMeans(accounts, UnmappedSourceAccount, b);
    GlobalMeans(settlements, UnmappedSourceSettlement, b);
    hide FilterMap, Sort, Text.InOrder, UnmappedAccounts, UnmappedSettlements, UnmappedInvoices, DispositionOf,
      ReceivableOf, UsedMapping, PopulationOf, PartitionFor, MappingFor, P.Scales, Global;
    forall inv ensures ResidualOf(inv, x).Some? <==> P.Scales(inv, x) {
      P.ResidualScales(inv, x);
    }
    hide ResidualOf;
    InvoiceBlockersMean(x, b);
  }

  function KeyOfPartition(p: Option<Partition>): Option<string> {
    if p.Some? then Some(p.value.sourceKey) else None
  }

  lemma GlobalMeans(references: seq<string>, code: BlockerCode, b: AdapterBlocker)
    ensures (exists t :: t in references && Global(code)(t) == Some(b))
      <==> b.code == code && b.reference in references && b.partitionKey == None
  {
    if b.code == code && b.reference in references && b.partitionKey == None {
      assert Global(code)(b.reference) == Some(b);
    }
  }

  lemma InvoiceBlockersMean(x: Inputs, b: AdapterBlocker)
    requires forall inv :: ResidualOf(inv, x).Some? <==> P.Scales(inv, x)
    ensures (exists inv :: inv in x.obs.invoices && InvoiceBlocker(x)(inv) == Some(b)) <==>
      || (b.code == CurrencyPrecisionMismatch && exists inv ::
            && inv in x.obs.invoices && inv.id == b.reference && !P.Scales(inv, x)
            && b.partitionKey == KeyOfPartition(PartitionFor(x.assembly, InvoiceKey(inv))))
      || (b.code == UnmappedSourceInvoice && exists inv ::
            && inv in x.obs.invoices && inv.id == b.reference && Receives(inv, x)
            && MappingFor(x.assembly, inv.id) == None
            && b.partitionKey == KeyOfPartition(PartitionFor(x.assembly, InvoiceKey(inv))))
  {
    hide P.Scales, ResidualOf, PartitionFor, MappingFor, StandingOf;
    forall inv | Receives(inv, x) ensures ResidualOf(inv, x).Some? {}
    hide Receives;
    if inv :| inv in x.obs.invoices && InvoiceBlocker(x)(inv) == Some(b) {
      assert inv.id == b.reference;
    }
    if inv :|
      inv in x.obs.invoices && inv.id == b.reference && !P.Scales(inv, x)
      && b.partitionKey == KeyOfPartition(PartitionFor(x.assembly, InvoiceKey(inv)))
    {
      assert b.code == CurrencyPrecisionMismatch ==> InvoiceBlocker(x)(inv) == Some(b);
    }
    if inv :|
      inv in x.obs.invoices && inv.id == b.reference && Receives(inv, x)
      && MappingFor(x.assembly, inv.id) == None
      && b.partitionKey == KeyOfPartition(PartitionFor(x.assembly, InvoiceKey(inv)))
    {
      ReceivesCovered(inv, x);
      assert b.code == UnmappedSourceInvoice ==> InvoiceBlocker(x)(inv) == Some(b);
    }
  }

  lemma ReceivesCovered(inv: ObservedInvoice, x: Inputs)
    requires Receives(inv, x)
    ensures PartitionFor(x.assembly, InvoiceKey(inv)).Some?
  {
  }

  // ---- orders, counts and used mappings -------------------------------------------------------------------

  /** Dispositions by partition key, identity kind and identity key; receivables by invoice key. */
  lemma OutcomeInOrder(x: Inputs, e: Evidence, i: nat, j: nat)
    requires i < j
    ensures
      var o := OutcomeOf(x, e);
      && (j < |o.dispositions| ==>
            var (c, d) := (o.dispositions[i], o.dispositions[j]);
            Text.TupleLe([c.partition.sourceKey, c.identity.kind, c.identity.key],
                         [d.partition.sourceKey, d.identity.kind, d.identity.key]))
      && (j < |o.receivables| ==> Text.Le(o.receivables[i].key, o.receivables[j].key))
  {
    hide OutcomeOf, Text.TupleLe, Text.Le;
    P.OutcomeIsSorted(x, e);
  }

  ghost function InStanding(ds: seq<Disposition>, status: Status): set<int> {
    set i | 0 <= i < |ds| && ds[i].status == status
  }

  /** The population counts the dispositions, and those of each status. */
  lemma PopulationExactly(x: Inputs, e: Evidence)
    ensures
      var (p, ds) := (OutcomeOf(x, e).population, OutcomeOf(x, e).dispositions);
      && p.total == |ds| && p.eligible == |InStanding(ds, Eligible)| && p.excluded == |InStanding(ds, Excluded)|
      && p.blocking == |InStanding(ds, Blocking)|
  {
    var ds := OutcomeOf(x, e).dispositions;
    forall status ensures CountStatus(ds, status) == |InStanding(ds, status)| {
      FilterMapPlaces(ds, WithStatus(status));
      assert Places(ds, WithStatus(status)) == InStanding(ds, status);
    }
    hide CountStatus, Sort, FilterMap, BlockersOf, DispositionOf, ReceivableOf, UsedMapping;
  }

  /** The mappings used: the first of each covered, eligible invoice. */
  lemma UsedExactly(x: Inputs, e: Evidence, m: InvoiceMapping)
    ensures m in OutcomeOf(x, e).used <==> exists inv ::
      && inv in x.obs.invoices && Covers(x.assembly, inv.account, inv.currency)
      && FinalStanding(inv, x).status == Eligible && P.IsFirst(MappingRows(x.assembly), inv.id, m)
  {
    FilterMapMembers(x.obs.invoices, UsedMapping(x), m);
    forall inv: ObservedInvoice ensures UsedMapping(x)(inv) == Some(m) <==>
      && Covers(x.assembly, inv.account, inv.currency)
      && FinalStanding(inv, x).status == Eligible && P.IsFirst(MappingRows(x.assembly), inv.id, m)
    {
      PartitionIsLast(x.assembly, InvoiceKey(inv));
      FirstIsOne(MappingRows(x.assembly), inv.id, m);
      hide PartitionFor, Covers, FirstFor, P.IsFirst, FinalStanding;
    }
    hide FilterMap, UsedMapping, Sort, BlockersOf, DispositionOf, ReceivableOf, PopulationOf, Covers, FinalStanding,
      P.IsFirst;
  }

  lemma FirstIsOne<V>(rows: seq<Row<V>>, id: string, v: V)
    ensures P.IsFirst(rows, id, v) <==> FirstFor(rows, id) == Some(v)
  {
    P.FirstForIsFirst(rows, id);
    hide FirstFor;
    if P.IsFirst(rows, id, v) {
      var w := FirstFor(rows, id).value;
      var k :| 0 <= k < |rows| && rows[k] == Row(id, v) && forall j | 0 <= j < k :: rows[j].id != id;
      var i :| 0 <= i < |rows| && rows[i] == Row(id, w) && forall j | 0 <= j < i :: rows[j].id != id;
      assert rows[i].id == rows[k].id;
    }
  }
}
