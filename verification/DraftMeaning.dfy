/** What the drafter accepts, maps and reports, said of the rows it is given. */
module DraftMeaning {
  import opened Wrappers
  import opened Sorting
  import opened Filtering
  import opened OpeningModel
  import opened DraftSpec
  import P = DraftProperties
  import Text

  // ---- what is accepted -------------------------------------------------------------------------

  predicate Hex(s: string, n: nat) {
    |s| == n && forall i | 0 <= i < n :: s[i] in "0123456789abcdef"
  }

  /** Groups of 8, 4, 4, 4 and 12 lower-case hexadecimal digits, joined by hyphens. */
  ghost predicate UuidText(s: string) {
    exists a, b, c, d, e ::
      Hex(a, 8) && Hex(b, 4) && Hex(c, 4) && Hex(d, 4) && Hex(e, 12) && s == Grouped(a, b, c, d, e)
  }

  function Grouped(a: string, b: string, c: string, d: string, e: string): string {
    a + "-" + b + "-" + c + "-" + d + "-" + e
  }

  ghost predicate GivenUuid(f: Field) {
    f.Str? && UuidText(f.text)
  }

  predicate GivenText(f: Field) {
    f.Str? && f.text != ""
  }

  lemma GroupedAt(a: string, b: string, c: string, d: string, e: string)
    requires |a| == 8 && |b| == 4 && |c| == 4 && |d| == 4 && |e| == 12
    ensures
      var s := Grouped(a, b, c, d, e);
      && |s| == 36 && s[8] == s[13] == s[18] == s[23] == '-'
      && s[..8] == a && s[9..13] == b && s[14..18] == c && s[19..23] == d && s[24..] == e
  {
  }

  lemma PiecesJoin(s: string)
    requires |s| == 36 && s[8] == s[13] == s[18] == s[23] == '-'
    ensures s == Grouped(s[..8], s[9..13], s[14..18], s[19..23], s[24..])
  {
  }

  lemma UuidExactly(s: string)
    ensures CanonicalUuid(s) <==> UuidText(s)
  {
    forall ch ensures Text.IsHex(ch) <==> ch in "0123456789abcdef" {
      Text.HexDigitsAre(ch);
    }
    hide Text.IsHex, Grouped;
    if CanonicalUuid(s) {
      var (a, b, c, d, e) := (s[..8], s[9..13], s[14..18], s[19..23], s[24..]);
      assert Hex(a, 8) && Hex(b, 4) && Hex(c, 4) && Hex(d, 4) && Hex(e, 12);
      GroupedAt(a, b, c, d, e);
      assert s == Grouped(a, b, c, d, e) by {
        PiecesJoin(s);
      }
    }
    if UuidText(s) {
      var a, b, c, d, e :|
        Hex(a, 8) && Hex(b, 4) && Hex(c, 4) && Hex(d, 4) && Hex(e, 12) && s == Grouped(a, b, c, d, e);
      GroupedAt(a, b, c, d, e);
      forall i | 0 <= i < 36 && i != 8 && i != 13 && i != 18 && i != 23 ensures s[i] in "0123456789abcdef" {
        if i < 8 {
          assert s[i] == a[i];
        } else if i < 13 {
          assert s[i] == b[i - 9];
        } else if i < 18 {
          assert s[i] == c[i - 14];
        } else if i < 23 {
          assert s[i] == d[i - 19];
        } else {
          assert s[i] == e[i - 24];
        }
      }
    }
  }

  /** The target state has its closed shape. */
  ghost predicate TargetSound(t: Target) {
    && t.keyFormat != []
    && (t.derivation.Some? ==> GivenUuid(t.derivation.value.namespace) && t.derivation.value.nameFormat != [])
    && (t.pristine.Some? ==> forall currency | currency in t.pristine.value ::
          currency != "" && GivenText(t.pristine.value[currency].fingerprint)
          && GivenText(t.pristine.value[currency].mark))
    && forall r | r in t.rows ::
      && GivenUuid(r.source) && GivenText(r.currency) && GivenUuid(r.account) && GivenText(r.fingerprint)
      && GivenText(r.mark)
  }

  /** No partition is declared twice. */
  predicate TargetsApart(t: Target) {
    forall i, j | 0 <= i < j < |t.rows| ::
      t.rows[i].source != t.rows[j].source || t.rows[i].currency != t.rows[j].currency
  }

  /** The census's own rows can be read, and no currency has two precisions. */
  ghost predicate CensusSound(c: Census) {
    && (forall r | r in c.precisions :: GivenText(r.currency) && r.precision.Some?)
    && (forall i, j | 0 <= i < j < |c.precisions| :: c.precisions[i].currency != c.precisions[j].currency)
    && (forall f | f in c.eligible :: GivenUuid(f))
    && (forall r | r in c.controls :: r.account == Null || GivenUuid(r.account))
    && (forall r | r in c.lanes :: r.account == Null || GivenUuid(r.account))
    && forall r | r in c.invoices :: GivenUuid(r.id) && (r.party.account == Null || GivenUuid(r.party.account))
  }

  /** The settlement at `i` is active and on an eligible invoice. */
  predicate InScopeAt(c: Census, i: int) {
    0 <= i < |c.settlements| && c.settlements[i].active && c.settlements[i].invoice in c.eligible
  }

  /** No other settlement in scope has its kind and id. */
  predicate AloneAt(c: Census, i: int)
    requires 0 <= i < |c.settlements|
  {
    forall j | 0 <= j < |c.settlements| && InScopeAt(c, j) && c.settlements[j].kind == c.settlements[i].kind
      && c.settlements[j].id == c.settlements[i].id :: j == i
  }

  ghost predicate SettlementsSound(c: Census) {
    && (forall r | r in c.settlements :: GivenUuid(r.invoice))
    && (forall i | InScopeAt(c, i) :: GivenText(c.settlements[i].kind) && GivenUuid(c.settlements[i].id))
    && forall i | InScopeAt(c, i) && AloneAt(c, i)
        && (c.settlements[i].kind == Str("payment") || c.settlements[i].kind == Str("credit_note")) ::
      c.settlements[i].source == Null || GivenUuid(c.settlements[i].source)
  }

  lemma UuidFields()
    ensures forall f :: IsUuid(f) <==> GivenUuid(f)
  {
    hide CanonicalUuid, UuidText;
    forall f: Field | f.Str? ensures CanonicalUuid(f.text) <==> UuidText(f.text) {
      UuidExactly(f.text);
    }
  }

  lemma TargetExactly(t: Target)
    ensures TargetOk(t) <==> TargetSound(t)
  {
    UuidFields();
    hide IsUuid, GivenUuid;
    forall r ensures TargetRowOk(r) <==>
      && GivenUuid(r.source) && GivenText(r.currency) && GivenUuid(r.account) && GivenText(r.fingerprint)
      && GivenText(r.mark)
    {}
    hide TargetRowOk;
    if TargetOk(t) {
      forall currency | t.pristine.Some? && currency in t.pristine.value
        ensures currency != "" && GivenText(t.pristine.value[currency].fingerprint)
          && GivenText(t.pristine.value[currency].mark)
      {
        assert currency in Pristine(t);
      }
    }
  }

  lemma CensusExactly(c: Census)
    ensures CensusOk(c) <==> CensusSound(c)
  {
    UuidFields();
    hide IsUuid, GivenUuid;
    PartiesExactly(c);
    PrecisionsExactly(c);
    assert PartiesOk(c.controls) <==> forall r | r in c.controls :: r.account == Null || GivenUuid(r.account);
    assert PartiesOk(c.lanes) <==> forall r | r in c.lanes :: r.account == Null || GivenUuid(r.account);
    assert InvoicesOk(c.invoices) <==> forall r | r in c.invoices :: GivenUuid(r.id);
    assert EligibleOk(c.eligible) <==> forall f | f in c.eligible :: GivenUuid(f);
    hide PartiesOk, PrecisionsOk, Parties, InvoicesOk, EligibleOk, GivenText;
  }

  lemma PartiesExactly(c: Census)
    ensures PartiesOk(Parties(c.invoices)) <==>
      forall r | r in c.invoices :: r.party.account == Null || IsUuid(r.party.account)
  {
    hide IsUuid;
    var parties := Parties(c.invoices);
    forall r | r in c.invoices ensures r.party in parties {
      var i :| 0 <= i < |c.invoices| && c.invoices[i] == r;
      assert parties[i] == r.party;
    }
    forall q | q in parties ensures exists r :: r in c.invoices && r.party == q {
      var i :| 0 <= i < |parties| && parties[i] == q;
      assert c.invoices[i] in c.invoices;
    }
    hide Parties;
  }

  lemma PrecisionsExactly(c: Census)
    ensures PrecisionsOk(c.precisions) <==>
      && (forall r | r in c.precisions :: GivenText(r.currency) && r.precision.Some?)
      && forall i, j | 0 <= i < j < |c.precisions| :: c.precisions[i].currency != c.precisions[j].currency
  {
    var rows := c.precisions;
    if forall r | r in rows :: GivenText(r.currency) {
      forall i | 0 <= i < |rows| ensures rows[i].currency == Str(TextOf(rows[i].currency)) {
        assert rows[i] in rows;
      }
    }
  }

  // ---- the settlements in scope ---------------------------------------------------------------------

  lemma EligibleIds(c: Census, f: Field)
    requires f.Str? && forall g | g in c.eligible :: g.Str?
    ensures f.text in EligibleSet(c) <==> f in c.eligible
  {
  }

  lemma ScopeAt(c: Census, i: int)
    requires 0 <= i < |c.settlements| && c.settlements[i].invoice.Str? && forall f | f in c.eligible :: f.Str?
    ensures Scope(EligibleSet(c))(c.settlements[i]).Some? <==> InScopeAt(c, i)
  {
    EligibleIds(c, c.settlements[i].invoice);
  }

  function KeyAt(c: Census, i: int): SettlementKey
    requires 0 <= i < |c.settlements|
  {
    SettlementKey(TextOf(c.settlements[i].kind), TextOf(c.settlements[i].id))
  }

  function ScopedAt(c: Census, i: int): Scoped
    requires 0 <= i < |c.settlements|
  {
    Scoped(KeyAt(c, i), TextOf(c.settlements[i].invoice), c.settlements[i].source)
  }

  ghost predicate Texted(c: Census) {
    && (forall f | f in c.eligible :: f.Str?)
    && (forall r | r in c.settlements :: r.invoice.Str?)
    && forall i | InScopeAt(c, i) :: c.settlements[i].kind.Str? && c.settlements[i].id.Str?
  }

  lemma ScopedMembers(c: Census, s: Scoped)
    requires (forall f | f in c.eligible :: f.Str?) && forall r | r in c.settlements :: r.invoice.Str?
    ensures s in InScopeOf(c) <==> exists i :: InScopeAt(c, i) && s == ScopedAt(c, i)
  {
    var f := Scope(EligibleSet(c));
    FilterMapMembers(c.settlements, f, s);
    hide EligibleSet, FilterMap;
    if s in InScopeOf(c) {
      var r :| r in c.settlements && f(r) == Some(s);
      var i :| 0 <= i < |c.settlements| && c.settlements[i] == r;
      ScopeAt(c, i);
      assert InScopeAt(c, i) && s == ScopedAt(c, i);
    }
    if i :| InScopeAt(c, i) && s == ScopedAt(c, i) {
      assert c.settlements[i] in c.settlements;
      ScopeAt(c, i);
      assert f(c.settlements[i]) == Some(s);
    }
  }

  /** A key counts twice exactly when another settlement in scope has it. */
  lemma CountMeans(c: Census, i: int)
    requires Texted(c) && InScopeAt(c, i)
    ensures CountOf(InScopeOf(c), KeyAt(c, i)) > 1 <==> !AloneAt(c, i)
  {
    var (f, g) := (Scope(EligibleSet(c)), WithKey(KeyAt(c, i)));
    FilterMapTwice(c.settlements, f, g);
    FilterMapCount(c.settlements, Then(f, g));
    hide FilterMap, EligibleSet, Scope;
    forall j | 0 <= j < |c.settlements|
      ensures Then(f, g)(c.settlements[j]).Some? <==> InScopeAt(c, j) && KeyAt(c, j) == KeyAt(c, i)
    {
      assert c.settlements[j] in c.settlements;
      KeptAt(c, i, j);
    }
    KeptMany(c, i, Then(f, g));
  }

  lemma KeptAt(c: Census, i: int, j: int)
    requires Texted(c) && InScopeAt(c, i) && 0 <= j < |c.settlements|
    ensures Then(Scope(EligibleSet(c)), WithKey(KeyAt(c, i)))(c.settlements[j]).Some?
      <==> InScopeAt(c, j) && KeyAt(c, j) == KeyAt(c, i)
  {
    assert c.settlements[j] in c.settlements;
    ScopeAt(c, j);
    hide EligibleSet;
  }

  lemma KeptMany(c: Census, i: int, f: SettlementRow -> Option<Scoped>)
    requires Texted(c) && InScopeAt(c, i)
    requires forall j | 0 <= j < |c.settlements| ::
      f(c.settlements[j]).Some? <==> InScopeAt(c, j) && KeyAt(c, j) == KeyAt(c, i)
    ensures KeepsMany(c.settlements, f) <==> !AloneAt(c, i)
  {
    var rows := c.settlements;
    forall j | InScopeAt(c, j)
      ensures KeyAt(c, j) == KeyAt(c, i) <==> rows[j].kind == rows[i].kind && rows[j].id == rows[i].id
    {
      assert rows[j] in rows && rows[i] in rows;
    }
    hide Texted;
    if KeepsMany(rows, f) {
      var j, k :| 0 <= j < k < |rows| && f(rows[j]).Some? && f(rows[k]).Some?;
      assert InScopeAt(c, j) && InScopeAt(c, k);
    }
    if !AloneAt(c, i) {
      var j :| 0 <= j < |rows| && InScopeAt(c, j) && rows[j].kind == rows[i].kind && rows[j].id == rows[i].id && j != i;
      assert f(rows[i]).Some? && f(rows[j]).Some?;
      assert i < j || j < i;
    }
  }

  lemma SettlementsExactly(c: Census)
    requires CensusSound(c)
    ensures SettlementRowsOk(c.settlements, EligibleSet(c)) && SourcesOk(InScopeOf(c)) <==> SettlementsSound(c)
  {
    SettlementRowsExactly(c);
    hide SettlementRowsOk, EligibleSet, InScopeOf, CountOf, AloneAt, InScopeAt, GivenUuid, SourceOk;
    if SettlementRowsOk(c.settlements, EligibleSet(c)) {
      SourcesExactly(c);
    }
  }

  lemma SettlementRowsExactly(c: Census)
    requires CensusSound(c)
    ensures SettlementRowsOk(c.settlements, EligibleSet(c)) <==>
      && (forall r | r in c.settlements :: GivenUuid(r.invoice))
      && forall i | InScopeAt(c, i) :: GivenText(c.settlements[i].kind) && GivenUuid(c.settlements[i].id)
    ensures SettlementRowsOk(c.settlements, EligibleSet(c)) ==> Texted(c)
  {
    UuidFields();
    hide IsUuid, UuidText, EligibleSet;
    forall i | 0 <= i < |c.settlements| && GivenUuid(c.settlements[i].invoice)
      ensures InScope(c.settlements[i], EligibleSet(c)) <==> InScopeAt(c, i)
    {
      EligibleIds(c, c.settlements[i].invoice);
    }
    hide GivenUuid;
    if SettlementRowsOk(c.settlements, EligibleSet(c)) {
      forall i | InScopeAt(c, i) ensures GivenText(c.settlements[i].kind) && GivenUuid(c.settlements[i].id) {
        assert c.settlements[i] in c.settlements;
      }
      UuidsAreTexts();
    }
  }

  lemma UuidsAreTexts()
    ensures forall f | GivenUuid(f) :: f.Str?
  {
  }

  lemma SourcesExactly(c: Census)
    requires Texted(c)
    ensures SourcesOk(InScopeOf(c)) <==>
      forall i | InScopeAt(c, i) && AloneAt(c, i)
        && (c.settlements[i].kind == Str("payment") || c.settlements[i].kind == Str("credit_note")) ::
        c.settlements[i].source == Null || GivenUuid(c.settlements[i].source)
  {
    UuidFields();
    hide IsUuid, GivenUuid, CountOf, InScopeOf;
    forall s ensures s in InScopeOf(c) <==> exists i :: InScopeAt(c, i) && s == ScopedAt(c, i) {
      ScopedMembers(c, s);
    }
    forall i | InScopeAt(c, i) ensures CountOf(InScopeOf(c), KeyAt(c, i)) > 1 <==> !AloneAt(c, i) {
      CountMeans(c, i);
    }
    forall i | InScopeAt(c, i)
      ensures SourceOk(ScopedAt(c, i), InScopeOf(c)) <==>
        AloneAt(c, i) && (c.settlements[i].kind == Str("payment") || c.settlements[i].kind == Str("credit_note")) ==>
          c.settlements[i].source == Null || GivenUuid(c.settlements[i].source)
    {}
    hide SourceOk, AloneAt, InScopeAt, ScopedAt;
  }

  lemma TargetsExactly(t: Target)
    requires TargetSound(t)
    ensures DistinctTargets(t.rows) <==> TargetsApart(t)
  {
    forall i, j | 0 <= i < j < |t.rows|
      ensures TargetKey(t.rows[i]) == TargetKey(t.rows[j])
        <==> t.rows[i].source == t.rows[j].source && t.rows[i].currency == t.rows[j].currency
    {
      assert t.rows[i] in t.rows && t.rows[j] in t.rows;
    }
    hide TargetSound;
  }

  predicate Supported(version: Field) {
    version == Str("sub-billing-opening-census-v2") || version == Str("sub-billing-opening-census-v3")
  }

  /**
   * Drafting goes ahead exactly for inputs that are sound in all these respects, and is refused
   * otherwise by the first that fails.
   */
  lemma RefusalExactly(c: Census, t: Target)
    ensures RefusalOf(c, t) == None <==>
      TargetSound(t) && Supported(c.version) && CensusSound(c) && TargetsApart(t) && SettlementsSound(c)
    ensures RefusalOf(c, t) == Some(UnsupportedPopulationVersion) <==>
      TargetSound(t) && GivenText(c.version) && !Supported(c.version)
    ensures RefusalOf(c, t) == Some(MalformedTargetState) <==>
      !TargetSound(t) || (Supported(c.version) && CensusSound(c) && !TargetsApart(t))
    ensures RefusalOf(c, t) == Some(MalformedInput) <==>
      && TargetSound(t)
      && (!GivenText(c.version)
          || (Supported(c.version) && (!CensusSound(c) || (TargetsApart(t) && !SettlementsSound(c)))))
  {
    TargetExactly(t);
    CensusExactly(c);
    if TargetSound(t) {
      TargetsExactly(t);
    }
    if CensusSound(c) {
      SettlementsExactly(c);
    }
    hide TargetOk, TargetSound, CensusOk, CensusSound, DistinctTargets, TargetsApart, SettlementRowsOk, SourcesOk,
      SettlementsSound, InScopeOf, EligibleSet;
  }

  /** What an accepted census is known to hold. */
  lemma AcceptedMeans(c: Census, t: Target)
    requires RefusalOf(c, t) == None
    ensures CensusSound(c) && TargetSound(t) && TargetsApart(t) && Texted(c)
    ensures forall r | r in c.invoices :: r.id.Str?
  {
    RefusalExactly(c, t);
    hide RefusalOf;
    SettlementRowsExactly(c);
    SettlementsExactly(c);
    UuidsAreTexts();
    hide GivenUuid;
  }

  // ---- invoices -----------------------------------------------------------------------------------------

  /** A row names an account and a currency. */
  predicate Names(r: PartyRow, account: string, currency: string) {
    r.account == Str(account) && r.currency == Str(currency) && currency != ""
  }

  /** The one invoice row of an id. */
  ghost predicate OnlyRow(rows: seq<InvoiceRow>, id: string, row: InvoiceRow) {
    exists i :: 0 <= i < |rows| && rows[i] == row && row.id == Str(id)
      && forall j | 0 <= j < |rows| && rows[j].id == Str(id) :: j == i
  }

  ghost predicate Repeated(rows: seq<InvoiceRow>, id: string) {
    exists i, j :: 0 <= i < j < |rows| && rows[i].id == Str(id) && rows[j].id == Str(id)
  }

  lemma OnlyRowFound(rows: seq<InvoiceRow>, id: string, row: InvoiceRow)
    requires forall r | r in rows :: r.id.Str?
    ensures RowsOf(rows, id) == [row] <==> OnlyRow(rows, id, row)
  {
    var f := WithId(id);
    FilterMapOnly(rows, f, row);
    hide FilterMap;
    forall j | 0 <= j < |rows| ensures f(rows[j]).Some? <==> rows[j].id == Str(id) {
      assert rows[j] in rows;
    }
    if KeepsOnly(rows, f, row) {
      var i :| 0 <= i < |rows| && f(rows[i]) == Some(row) && forall j | 0 <= j < |rows| && f(rows[j]).Some? :: j == i;
      assert rows[i] == row && row.id == Str(id);
    }
    if OnlyRow(rows, id, row) {
      var i :| 0 <= i < |rows| && rows[i] == row && row.id == Str(id)
        && forall j | 0 <= j < |rows| && rows[j].id == Str(id) :: j == i;
      assert f(rows[i]) == Some(row);
    }
  }

  lemma RowsFound(rows: seq<InvoiceRow>, id: string)
    requires forall r | r in rows :: r.id.Str?
    ensures RowsOf(rows, id) == [] <==> forall r | r in rows :: r.id != Str(id)
    ensures |RowsOf(rows, id)| > 1 <==> Repeated(rows, id)
  {
    var f := WithId(id);
    FilterMapCount(rows, f);
    forall j | 0 <= j < |rows| ensures f(rows[j]).Some? <==> rows[j].id == Str(id) {
      assert rows[j] in rows;
    }
  }

  /** The partition of the assembly a row belongs to. */
  ghost predicate Belongs(r: PartyRow, p: Partition, a: Assembly) {
    p in a.partitions && Names(r, p.source, p.currency)
  }

  lemma Belonging(c: Census, t: Target, derive: Derive, r: PartyRow, p: Partition)
    ensures Belongs(r, p, AssemblyOf(c, t, derive)) <==>
      && PartyKey(r).Some? && PartyKey(r).value in ResolvedOf(c, t, derive)
      && p == ResolvedOf(c, t, derive)[PartyKey(r).value]
  {
    var resolved := ResolvedOf(c, t, derive);
    P.CandidateKeys(c, t, derive);
    ListedApart(c, t, derive);
    hide ResolvedOf, InvoiceMappings, DischargeMappings, Listed, Sort, Universe, PrecisionTable;
    if Names(r, p.source, p.currency) {
      assert PartyKey(r) == Some(PartitionKey(p));
    }
  }

  lemma ListedApart(c: Census, t: Target, derive: Derive)
    ensures forall p ::
      p in AssemblyOf(c, t, derive).partitions <==>
      PartitionKey(p) in ResolvedOf(c, t, derive) && ResolvedOf(c, t, derive)[PartitionKey(p)] == p
  {
    P.CandidateKeys(c, t, derive);
    hide ResolvedOf, InvoiceMappings, DischargeMappings, Listed, Sort, Universe, PrecisionTable;
    P.ListedIsResolved(ResolvedOf(c, t, derive));
  }

  /** Its only row stands in a partition of the assembly, at that partition's precision. */
  ghost predicate Mappable(c: Census, a: Assembly, id: string) {
    exists row, p :: OnlyRow(c.invoices, id, row) && Belongs(row.party, p, a) && row.precision == Some(p.precision)
  }

  predicate Absent(c: Census, id: string) {
    forall r | r in c.invoices :: r.id != Str(id)
  }

  ghost predicate Homeless(c: Census, a: Assembly, id: string) {
    exists row :: OnlyRow(c.invoices, id, row) && forall p :: !Belongs(row.party, p, a)
  }

  ghost predicate Mismatched(c: Census, a: Assembly, id: string) {
    exists row, p :: OnlyRow(c.invoices, id, row) && Belongs(row.party, p, a) && row.precision != Some(p.precision)
  }

  /** The resolved partition of a row, seen from the table and from the assembly. */
  ghost predicate Agrees(r: PartyRow, resolved: map<Key, Partition>, precisions: map<string, int>, a: Assembly) {
    if PartyKey(r).Some? && PartyKey(r).value in resolved then
      var p := resolved[PartyKey(r).value];
      && PartyKey(r).value.currency in precisions && precisions[PartyKey(r).value.currency] == p.precision
      && Belongs(r, p, a) && forall q | Belongs(r, q, a) :: q == p
    else forall p :: !Belongs(r, p, a)
  }

  lemma RowAgrees(c: Census, t: Target, derive: Derive, r: PartyRow)
    ensures Agrees(r, ResolvedOf(c, t, derive), PrecisionTable(c.precisions), AssemblyOf(c, t, derive))
  {
    hide AssemblyOf, ResolvedOf, Belongs, PrecisionTable, PartyKey;
    forall p ensures BelongsTo(r, p, ResolvedOf(c, t, derive), AssemblyOf(c, t, derive)) {
      Belonging(c, t, derive, r, p);
    }
    if PartyKey(r).Some? && PartyKey(r).value in ResolvedOf(c, t, derive) {
      P.PrecisionIsDeclared(c, t, derive, PartyKey(r).value);
    }
    hide BelongsTo;
    Agreeing(r, ResolvedOf(c, t, derive), PrecisionTable(c.precisions), AssemblyOf(c, t, derive));
  }

  ghost predicate BelongsTo(r: PartyRow, p: Partition, resolved: map<Key, Partition>, a: Assembly) {
    Belongs(r, p, a) <==> PartyKey(r).Some? && PartyKey(r).value in resolved && p == resolved[PartyKey(r).value]
  }

  lemma Agreeing(r: PartyRow, resolved: map<Key, Partition>, precisions: map<string, int>, a: Assembly)
    requires forall p :: BelongsTo(r, p, resolved, a)
    requires PartyKey(r).Some? && PartyKey(r).value in resolved ==>
      PartyKey(r).value.currency in precisions
      && resolved[PartyKey(r).value].precision == precisions[PartyKey(r).value.currency]
    ensures Agrees(r, resolved, precisions, a)
  {
    hide Belongs, PartyKey;
    forall p ensures Belongs(r, p, a) <==>
      PartyKey(r).Some? && PartyKey(r).value in resolved && p == resolved[PartyKey(r).value]
    {
      assert BelongsTo(r, p, resolved, a);
    }
  }

  /** What becomes of one eligible invoice. */
  lemma VerdictExactly(
      c: Census, id: string, resolved: map<Key, Partition>, precisions: map<string, int>, a: Assembly)
    requires forall r | r in c.invoices :: r.id.Str? && Agrees(r.party, resolved, precisions, a)
    ensures
      var v := InvoiceVerdict(id, c.invoices, resolved, precisions);
      && (v.Mapped? <==> Mappable(c, a, id))
      && (v.Mapped? ==> v.value == InvoiceMapping(id, Identity("invoice", id), id))
      && (v.Blocked? ==> v.blocker == Blocker(v.blocker.code, id, ""))
      && (v.Blocked? && v.blocker.code == EligibleInvoiceNotInCensus <==> Absent(c, id))
      && (v.Blocked? && v.blocker.code == InvoicePartitionUnmapped <==> Homeless(c, a, id))
      && (v.Blocked? && v.blocker.code == InvoicePrecisionMismatch <==> Mismatched(c, a, id))
  {
    var found := RowsOf(c.invoices, id);
    RowsFound(c.invoices, id);
    hide Agrees;
    forall row ensures found == [row] <==> OnlyRow(c.invoices, id, row) {
      OnlyRowFound(c.invoices, id, row);
    }
    hide RowsOf, Repeated, Belongs, RowVerdict;
    if |found| == 1 {
      var row := found[0];
      assert found == [row] && row in c.invoices;
      RowExactly(id, row, resolved, precisions, a);
      forall r | OnlyRow(c.invoices, id, r) ensures r == row {
        assert [r] == [row];
      }
      hide OnlyRow;
    } else {
      forall row ensures !OnlyRow(c.invoices, id, row) {
        assert found != [row];
      }
    }
  }

  lemma RowExactly(
      id: string, row: InvoiceRow, resolved: map<Key, Partition>, precisions: map<string, int>, a: Assembly)
    requires Agrees(row.party, resolved, precisions, a)
    ensures
      var v := RowVerdict(id, row, resolved, precisions);
      && (v.Mapped? <==> exists p :: Belongs(row.party, p, a) && row.precision == Some(p.precision))
      && (v.Mapped? ==> v.value == InvoiceMapping(id, Identity("invoice", id), id))
      && (v.Blocked? ==> v.blocker == Blocker(v.blocker.code, id, "")
                         && v.blocker.code in {InvoicePartitionUnmapped, InvoicePrecisionMismatch})
      && (v.Blocked? && v.blocker.code == InvoicePartitionUnmapped <==> forall p :: !Belongs(row.party, p, a))
      && (v.Blocked? && v.blocker.code == InvoicePrecisionMismatch <==>
            exists p :: Belongs(row.party, p, a) && row.precision != Some(p.precision))
      && !v.Skipped?
  {
    hide Belongs;
  }

  /**
   * The invoices a draft maps: exactly the eligible ones whose only row stands in a partition of the
   * assembly, at that partition's precision; each is mapped under its own id.
   */
  lemma InvoicesExactly(c: Census, t: Target, derive: Derive, m: InvoiceMapping)
    requires RefusalOf(c, t) == None
    ensures
      var a := DraftOf(c, t, derive).assembly;
      m in a.invoices <==>
      Str(m.invoice) in c.eligible && Mappable(c, a, m.invoice)
      && m == InvoiceMapping(m.invoice, Identity("invoice", m.invoice), m.invoice)
  {
    AcceptedMeans(c, t);
    EligibleExactly(c, m.invoice);
    AllRowsAgree(c, t, derive);
    hide RefusalOf, CensusSound, TargetSound, TargetsApart, Texted, EligibleSet, ResolvedOf, InvoiceVerdict, Agrees,
      Mappable, Homeless, Mismatched, PrecisionTable, AssemblyOf, DraftOf, InvoiceMappings;
    MappedExactly(c, m, ResolvedOf(c, t, derive), PrecisionTable(c.precisions), AssemblyOf(c, t, derive));
    MappingsExactly(c, t, derive, m);
    DraftHolds(c, t, derive);
  }

  lemma MappedExactly(
      c: Census, m: InvoiceMapping, resolved: map<Key, Partition>, precisions: map<string, int>, a: Assembly)
    requires forall r | r in c.invoices :: r.id.Str? && Agrees(r.party, resolved, precisions, a)
    ensures InvoiceVerdict(m.invoice, c.invoices, resolved, precisions) == Mapped(m) <==>
      Mappable(c, a, m.invoice) && m == InvoiceMapping(m.invoice, Identity("invoice", m.invoice), m.invoice)
  {
    VerdictExactly(c, m.invoice, resolved, precisions, a);
    hide InvoiceVerdict, Agrees, Mappable, Homeless, Mismatched, Absent;
  }

  /** The draft's lists are the unsorted ones in another order. */
  lemma DraftHolds(c: Census, t: Target, derive: Derive)
    ensures DraftOf(c, t, derive).assembly == AssemblyOf(c, t, derive)
    ensures forall m :: m in AssemblyOf(c, t, derive).invoices <==> m in InvoiceMappings(c, t, derive)
    ensures forall m :: m in AssemblyOf(c, t, derive).discharges <==> m in DischargeMappings(c, t, derive)
    ensures forall b :: b in DraftOf(c, t, derive).blockers <==> b in AllBlockers(c, t, derive)
  {
    SortPermutes(InvoiceMappings(c, t, derive), InvoiceLe);
    SortPermutes(DischargeMappings(c, t, derive), DischargeLe);
    SortPermutes(AllBlockers(c, t, derive), BlockerLe);
    hide Sort, EligibleSet, Universe, IdsOf, InvoiceMappings, DischargeMappings, ResolvedOf, AllBlockers, Listed,
      InvoiceLe, DischargeLe, BlockerLe;
  }

  lemma EligibleExactly(c: Census, id: string)
    requires forall f | f in c.eligible :: f.Str?
    ensures id in EligibleSet(c) <==> Str(id) in c.eligible
  {
    EligibleIds(c, Str(id));
  }

  lemma AllRowsAgree(c: Census, t: Target, derive: Derive)
    requires forall r | r in c.invoices :: r.id.Str?
    ensures forall r | r in c.invoices ::
      r.id.Str? && Agrees(r.party, ResolvedOf(c, t, derive), PrecisionTable(c.precisions), AssemblyOf(c, t, derive))
  {
    hide Agrees, ResolvedOf, AssemblyOf, PrecisionTable;
    forall r | r in c.invoices
      ensures Agrees(r.party, ResolvedOf(c, t, derive), PrecisionTable(c.precisions), AssemblyOf(c, t, derive))
    {
      RowAgrees(c, t, derive, r.party);
    }
  }

  lemma MappingsExactly(c: Census, t: Target, derive: Derive, m: InvoiceMapping)
    ensures m in InvoiceMappings(c, t, derive) <==>
      && m.invoice in EligibleSet(c)
      && InvoiceVerdict(m.invoice, c.invoices, ResolvedOf(c, t, derive), PrecisionTable(c.precisions)) == Mapped(m)
  {
    var f := MapInvoice(c.invoices, ResolvedOf(c, t, derive), PrecisionTable(c.precisions));
    FilterMapMembers(Text.InOrder(EligibleSet(c)), f, m);
    hide FilterMap, EligibleSet, ResolvedOf, PrecisionTable, Text.InOrder;
    if id :| id in Text.InOrder(EligibleSet(c)) && f(id) == Some(m) {
      P.VerdictNames(id, c.invoices, ResolvedOf(c, t, derive), PrecisionTable(c.precisions));
    }
    hide InvoiceVerdict;
    if m.invoice in EligibleSet(c) {
      assert m.invoice in Text.InOrder(EligibleSet(c));
    }
  }

  // ---- settlements ---------------------------------------------------------------------------------------

  /** The settlement at `i` is in scope, alone under its key and of a kind that can be mapped. */
  predicate Usable(c: Census, i: int) {
    && InScopeAt(c, i) && AloneAt(c, i)
    && (c.settlements[i].kind == Str("payment") || c.settlements[i].kind == Str("credit_note"))
  }

  predicate IsMapped(a: Assembly, invoice: Field) {
    exists m :: m in a.invoices && Str(m.invoice) == invoice
  }

  /** It has a source id and its invoice is mapped. */
  predicate Dischargeable(c: Census, a: Assembly, i: int) {
    Usable(c, i) && c.settlements[i].source != Null && IsMapped(a, c.settlements[i].invoice)
  }

  /** The discharges a draft maps: exactly the usable settlements on mapped invoices, each under its kind and id. */
  lemma DischargesExactly(c: Census, t: Target, derive: Derive, m: DischargeMapping)
    requires RefusalOf(c, t) == None
    ensures
      var a := DraftOf(c, t, derive).assembly;
      m in a.discharges <==> exists i ::
        && Dischargeable(c, a, i)
        && c.settlements[i].kind == Str(m.settlement.kind) && c.settlements[i].id == Str(m.settlement.id)
        && m.reference == m.settlement.kind + ":" + m.settlement.id
        && c.settlements[i].source == Str(m.source)
  {
    AcceptedMeans(c, t);
    SourcesGiven(c, t);
    var (a, scoped, mapped) := (DraftOf(c, t, derive).assembly, InScopeOf(c),
      InvoicesOf(InvoiceMappings(c, t, derive)));
    MappedAgree(c, t, derive);
    SortPermutes(DischargeMappings(c, t, derive), DischargeLe);
    hide RefusalOf, CensusSound, TargetSound, TargetsApart, Sort, ResolvedOf, AllBlockers, InvoiceMappings,
      InvoicesOf, EligibleSet, InScopeOf, Universe, IdsOf, Listed, DischargeLe;
    FilterMapMembers(scoped, MapSettlement(scoped, mapped), m);
    hide FilterMap;
    DischargesFrom(c, a, mapped, m);
    hide SettlementVerdict, IsMapped, Texted, Usable, MapSettlement;
    assert m in a.discharges <==> m in DischargeMappings(c, t, derive);
    assert DischargeMappings(c, t, derive) == FilterMap(scoped, MapSettlement(scoped, mapped));
  }

  lemma DischargesFrom(c: Census, a: Assembly, mapped: set<string>, m: DischargeMapping)
    requires Texted(c) && forall i | Usable(c, i) :: c.settlements[i].source.Str? || c.settlements[i].source == Null
    requires forall id :: id in mapped <==> IsMapped(a, Str(id))
    ensures (exists s :: s in InScopeOf(c) && MapSettlement(InScopeOf(c), mapped)(s) == Some(m)) <==> exists i ::
        && Dischargeable(c, a, i)
        && c.settlements[i].kind == Str(m.settlement.kind) && c.settlements[i].id == Str(m.settlement.id)
        && m.reference == m.settlement.kind + ":" + m.settlement.id
        && c.settlements[i].source == Str(m.source)
  {
    hide InScopeOf, SettlementVerdict, IsMapped, AloneAt;
    forall s ensures s in InScopeOf(c) <==> exists i :: InScopeAt(c, i) && s == ScopedAt(c, i) {
      ScopedMembers(c, s);
    }
    if s :| s in InScopeOf(c) && MapSettlement(InScopeOf(c), mapped)(s) == Some(m) {
      var i :| InScopeAt(c, i) && s == ScopedAt(c, i);
      VerdictMeans(c, a, mapped, i);
    }
    if i :|
      Dischargeable(c, a, i)
      && c.settlements[i].kind == Str(m.settlement.kind) && c.settlements[i].id == Str(m.settlement.id)
      && m.reference == m.settlement.kind + ":" + m.settlement.id && c.settlements[i].source == Str(m.source)
    {
      VerdictMeans(c, a, mapped, i);
      assert ScopedAt(c, i) in InScopeOf(c);
      assert MapSettlement(InScopeOf(c), mapped)(ScopedAt(c, i)) == Some(m);
    }
  }

  /** Why the settlement at `i` is not mapped, when it is in scope and alone. */
  predicate Unusable(c: Census, a: Assembly, i: int, b: Blocker)
    requires InScopeAt(c, i) && c.settlements[i].kind.Str? && c.settlements[i].id.Str?
  {
    var (row, id) := (c.settlements[i], c.settlements[i].id.text);
    if row.kind.text != "payment" && row.kind.text != "credit_note" then
      b == Blocker(UnsupportedSettlementKind, id, row.kind.text)
    else if row.source == Null then b == Blocker(SettlementSourceIdUnavailable, id, "")
    else !IsMapped(a, row.invoice) && b == Blocker(SettlementInvoiceUnmapped, id, "")
  }

  /** What becomes of one settlement in scope. */
  lemma VerdictMeans(c: Census, a: Assembly, mapped: set<string>, i: int)
    requires Texted(c) && InScopeAt(c, i)
    requires Usable(c, i) ==> c.settlements[i].source.Str? || c.settlements[i].source == Null
    requires forall id :: id in mapped <==> IsMapped(a, Str(id))
    ensures c.settlements[i].kind.Str? && c.settlements[i].id.Str?
    ensures
      var (row, v) := (c.settlements[i], SettlementVerdict(ScopedAt(c, i), InScopeOf(c), mapped));
      && (v.Skipped? <==> !AloneAt(c, i))
      && (v.Mapped? <==> Dischargeable(c, a, i))
      && (v.Mapped? ==>
            && row.source.Str?
            && v.value.settlement == SettlementKey(row.kind.text, row.id.text)
            && v.value.reference == row.kind.text + ":" + row.id.text && v.value.source == row.source.text)
      && forall b :: v == Blocked(b) <==> AloneAt(c, i) && Unusable(c, a, i, b)
  {
    CountMeans(c, i);
    assert c.settlements[i] in c.settlements;
    hide CountOf, InScopeOf, AloneAt, IsMapped;
  }

  lemma SourcesGiven(c: Census, t: Target)
    requires RefusalOf(c, t) == None
    ensures forall i | Usable(c, i) :: c.settlements[i].source.Str? || c.settlements[i].source == Null
  {
    RefusalExactly(c, t);
    hide RefusalOf, CensusSound, TargetSound, AloneAt, InScopeAt;
    UuidsAreTexts();
    hide GivenUuid;
  }

  lemma MappedAgree(c: Census, t: Target, derive: Derive)
    ensures forall id ::
      id in InvoicesOf(InvoiceMappings(c, t, derive)) <==> IsMapped(DraftOf(c, t, derive).assembly, Str(id))
  {
    SortPermutes(InvoiceMappings(c, t, derive), InvoiceLe);
    hide InvoiceMappings, Sort, DischargeMappings, AllBlockers, ResolvedOf, Universe, EligibleSet, IdsOf, Listed;
  }

  // ---- partitions ------------------------------------------------------------------------------------------

  /** A census row names this account and currency. */
  ghost predicate Mentions(c: Census, k: Key) {
    || (exists r :: r in c.controls && Names(r, k.account, k.currency))
    || (exists r :: r in c.lanes && Names(r, k.account, k.currency))
    || (exists i :: i in c.invoices && Names(i.party, k.account, k.currency))
  }

  predicate Undeclared(c: Census, currency: string) {
    forall r | r in c.precisions :: r.currency != Str(currency)
  }

  predicate IsTargetOf(r: TargetRow, k: Key) {
    r.source == Str(k.account) && r.currency == Str(k.currency)
  }

  predicate HasRow(t: Target, k: Key) {
    exists r :: r in t.rows && IsTargetOf(r, k)
  }

  /** The currency has a pristine position to derive a target with. */
  predicate HasPosition(t: Target, currency: string) {
    t.pristine.Some? && currency in t.pristine.value
  }

  /** The target of a partition: its declared row, or else the derived account at the pristine position. */
  predicate Stands(p: Partition, t: Target, derive: Derive) {
    var k := Key(p.source, p.currency);
    || (exists r :: r in t.rows && IsTargetOf(r, k)
          && r.account == Str(p.account) && r.fingerprint == Str(p.fingerprint) && r.mark == Str(p.mark))
    || (!HasRow(t, k) && t.derivation.Some? && t.derivation.value.namespace.Str? && HasPosition(t, p.currency)
          && p.account == derive(t.derivation.value.namespace.text, Format(t.derivation.value.nameFormat, k))
          && t.pristine.value[p.currency] == Position(Str(p.fingerprint), Str(p.mark)))
  }

  /** A partition the census and the target state call for. */
  ghost predicate Called(p: Partition, c: Census, t: Target, derive: Derive) {
    && Mentions(c, Key(p.source, p.currency)) && PrecisionRow(Str(p.currency), Some(p.precision)) in c.precisions
    && p.sourceKey == "source-account:" + p.source && p.idempotencyKey == Format(t.keyFormat, Key(p.source, p.currency))
    && Stands(p, t, derive)
  }

  lemma UniverseExactly(c: Census, k: Key)
    ensures k in Universe(c) <==> Mentions(c, k)
  {
    KeysExactly(c.controls, k);
    KeysExactly(c.lanes, k);
    KeysExactly(Parties(c.invoices), k);
    var parties := Parties(c.invoices);
    hide KeysOf, Names;
    if i :| i in c.invoices && Names(i.party, k.account, k.currency) {
      var n :| 0 <= n < |c.invoices| && c.invoices[n] == i;
      assert parties[n] in parties;
    }
    if r :| r in parties && Names(r, k.account, k.currency) {
      var n :| 0 <= n < |parties| && parties[n] == r;
      assert c.invoices[n] in c.invoices;
    }
  }

  lemma KeysExactly(rows: seq<PartyRow>, k: Key)
    ensures k in KeysOf(rows) <==> exists r :: r in rows && Names(r, k.account, k.currency)
  {
    forall r ensures PartyKey(r) == Some(k) <==> Names(r, k.account, k.currency) {}
    hide PartyKey, Names;
  }

  /** The precision table holds the declared rows. */
  lemma {:induction false} PrecisionsTabled(rows: seq<PrecisionRow>, currency: string, n: int)
    requires forall r | r in rows :: GivenText(r.currency) && r.precision.Some?
    requires forall i, j | 0 <= i < j < |rows| :: rows[i].currency != rows[j].currency
    ensures currency in PrecisionTable(rows) <==> exists r :: r in rows && r.currency == Str(currency)
    ensures currency in PrecisionTable(rows) && PrecisionTable(rows)[currency] == n
      <==> PrecisionRow(Str(currency), Some(n)) in rows
  {
    if rows != [] {
      var (rest, last) := (rows[..|rows| - 1], rows[|rows| - 1]);
      assert rows == rest + [last] && last in rows;
      assert forall r | r in rest :: r in rows;
      PrecisionsTabled(rest, currency, n);
      if PrecisionRow(Str(currency), Some(n)) in rest {
        var i :| 0 <= i < |rest| && rest[i] == PrecisionRow(Str(currency), Some(n));
        assert rows[i].currency != rows[|rest|].currency;
      }
    }
  }

  lemma TargetsTabled(t: Target, k: Key)
    requires TargetSound(t) && TargetsApart(t)
    ensures k in TargetTable(t.rows) <==> HasRow(t, k)
    ensures k in TargetTable(t.rows) ==> TargetTable(t.rows)[k] in t.rows && IsTargetOf(TargetTable(t.rows)[k], k)
    ensures k in TargetTable(t.rows) ==> forall r | r in t.rows && IsTargetOf(r, k) :: r == TargetTable(t.rows)[k]
  {
    P.TableRow(t.rows, k);
    UuidsAreTexts();
    hide TargetTable, UuidText;
    forall r | r in t.rows ensures TargetKey(r) == k <==> IsTargetOf(r, k) {}
    hide GivenUuid, TargetSound;
    if k in TargetTable(t.rows) {
      var row := TargetTable(t.rows)[k];
      var i :| 0 <= i < |t.rows| && t.rows[i] == row;
      forall r | r in t.rows && IsTargetOf(r, k) ensures r == row {
        var j :| 0 <= j < |t.rows| && t.rows[j] == r;
        assert t.rows[i].source == t.rows[j].source && t.rows[i].currency == t.rows[j].currency;
        assert i == j;
      }
    }
  }

  /** How one partition resolves: to the partition that stands for it, or to the first reason it has none. */
  lemma ResolveExactly(c: Census, t: Target, derive: Derive, k: Key)
    requires CensusSound(c) && TargetSound(t) && TargetsApart(t)
    ensures
      var r := Resolve(k, SetupOf(c, t), derive);
      && (forall p :: r == Ok(p) <==>
            && k == Key(p.source, p.currency) && PrecisionRow(Str(p.currency), Some(p.precision)) in c.precisions
            && p.sourceKey == "source-account:" + p.source && p.idempotencyKey == Format(t.keyFormat, k)
            && Stands(p, t, derive))
      && (r == Err(CurrencyPrecisionUndeclared) <==> Undeclared(c, k.currency))
      && (r == Err(TargetAccountUnavailable) <==>
            !Undeclared(c, k.currency) && !HasRow(t, k) && t.derivation == None)
      && (r == Err(TargetPositionUnavailable) <==>
            && !Undeclared(c, k.currency) && !HasRow(t, k) && t.derivation.Some? && !HasPosition(t, k.currency))
      && (r.Err? ==> r.error in {CurrencyPrecisionUndeclared, TargetAccountUnavailable, TargetPositionUnavailable})
  {
    forall n ensures k.currency in PrecisionTable(c.precisions) && PrecisionTable(c.precisions)[k.currency] == n
      <==> PrecisionRow(Str(k.currency), Some(n)) in c.precisions
    {
      PrecisionsTabled(c.precisions, k.currency, n);
    }
    PrecisionsTabled(c.precisions, k.currency, 0);
    TargetsTabled(t, k);
    TargetFields(t);
    hide CensusSound, TargetSound, TargetsApart, PrecisionTable, TargetTable, Format;
  }

  lemma TargetFields(t: Target)
    requires TargetSound(t)
    ensures forall r | r in t.rows :: r.account.Str? && r.fingerprint.Str? && r.mark.Str?
    ensures t.derivation.Some? ==> t.derivation.value.namespace.Str?
    ensures t.pristine.Some? ==> forall currency | currency in t.pristine.value ::
      t.pristine.value[currency].fingerprint.Str? && t.pristine.value[currency].mark.Str?
  {
    UuidsAreTexts();
    hide GivenUuid;
  }

  /** The partitions of a draft: exactly those called for that share their target account with no other. */
  lemma PartitionsExactly(c: Census, t: Target, derive: Derive, p: Partition)
    requires RefusalOf(c, t) == None
    ensures p in DraftOf(c, t, derive).assembly.partitions <==>
      Called(p, c, t, derive) && forall q | Called(q, c, t, derive) && q.account == p.account :: q == p
  {
    AcceptedMeans(c, t);
    hide RefusalOf, CensusSound, TargetSound, TargetsApart, Texted, CandidatesOf, InvoiceMappings, DischargeMappings,
      AllBlockers, Listed, Sort, Universe, EligibleSet, IdsOf, Called;
    ListedApart(c, t, derive);
    hide AssemblyOf;
    forall q ensures Called(q, c, t, derive) <==>
      PartitionKey(q) in CandidatesOf(c, t, derive) && CandidatesOf(c, t, derive)[PartitionKey(q)] == q
    {
      CandidateExactly(c, t, derive, q);
    }
    AloneExactly(c, t, derive, p);
    assert p in DraftOf(c, t, derive).assembly.partitions <==> p in AssemblyOf(c, t, derive).partitions;
  }

  lemma AloneExactly(c: Census, t: Target, derive: Derive, p: Partition)
    requires forall q :: Called(q, c, t, derive) <==>
      PartitionKey(q) in CandidatesOf(c, t, derive) && CandidatesOf(c, t, derive)[PartitionKey(q)] == q
    ensures PartitionKey(p) in ResolvedOf(c, t, derive) && ResolvedOf(c, t, derive)[PartitionKey(p)] == p <==>
      Called(p, c, t, derive) && forall q | Called(q, c, t, derive) && q.account == p.account :: q == p
  {
    P.CandidateKeys(c, t, derive);
    hide CandidatesOf, Called, Universe, PrecisionTable;
    var (candidates, k) := (CandidatesOf(c, t, derive), PartitionKey(p));
    if Called(p, c, t, derive) {
      forall j | j in candidates ensures Called(candidates[j], c, t, derive) && PartitionKey(candidates[j]) == j {}
    }
  }

  lemma CandidateExactly(c: Census, t: Target, derive: Derive, p: Partition)
    requires CensusSound(c) && TargetSound(t) && TargetsApart(t)
    ensures Called(p, c, t, derive) <==>
      PartitionKey(p) in CandidatesOf(c, t, derive) && CandidatesOf(c, t, derive)[PartitionKey(p)] == p
  {
    var k := PartitionKey(p);
    UniverseExactly(c, k);
    ResolveExactly(c, t, derive, k);
    hide CensusSound, TargetSound, TargetsApart, Universe, Mentions, Resolve, SetupOf, Stands, Format;
  }

  // ---- blockers --------------------------------------------------------------------------------------------

  /** A row that names no account and currency. */
  ghost predicate Nameless(r: PartyRow) {
    forall account, currency :: !Names(r, account, currency)
  }

  predicate EligibleTwice(c: Census) {
    exists i, j :: 0 <= i < j < |c.eligible| && c.eligible[i] == c.eligible[j]
  }

  /** What the census says against itself. */
  ghost predicate CensusReports(b: Blocker, c: Census) {
    || (b == Blocker(CensusPopulationIncomplete, "capture", "") && !c.complete)
    || (b == Blocker(DuplicateCensusInvoice, b.reference, "") && Repeated(c.invoices, b.reference))
    || (b == Blocker(DuplicateEligibleInvoice, "eligible_invoice_ids", "") && EligibleTwice(c))
    || (b == Blocker(CensusRowUnattributed, "controls", "account/currency") && HasNameless(c.controls))
    || (b == Blocker(CensusRowUnattributed, "lanes", "account/currency") && HasNameless(c.lanes))
  }

  ghost predicate HasNameless(rows: seq<PartyRow>) {
    exists r :: r in rows && Nameless(r)
  }

  /** Partitions without a target, targets without a partition, and target accounts that back two. */
  ghost predicate PartitionReports(b: Blocker, c: Census, t: Target, derive: Derive) {
    Unasked(b, c, t) || Lacking(b, c, t) || Colliding(b, c, t, derive)
  }

  ghost predicate Unasked(b: Blocker, c: Census, t: Target) {
    exists k :: HasRow(t, k) && !Mentions(c, k)
      && b == Blocker(TargetEntryWithoutCensusAccount, k.account + ":" + k.currency, "")
  }

  ghost predicate Lacking(b: Blocker, c: Census, t: Target) {
    exists k :: Mentions(c, k) && Lacks(b.code, c, t, k) && b == Blocker(b.code, k.account + ":" + k.currency, "")
  }

  ghost predicate Colliding(b: Blocker, c: Census, t: Target, derive: Derive) {
    exists p, q :: Called(p, c, t, derive) && Called(q, c, t, derive) && p != q && p.account == q.account
      && b == Blocker(TargetAccountCollision, p.account, "")
  }

  /** What keeps a partition from having a target; only the first thing missing is said. */
  predicate Lacks(code: Code, c: Census, t: Target, k: Key) {
    if Undeclared(c, k.currency) then code == CurrencyPrecisionUndeclared
    else if HasRow(t, k) then false
    else if t.derivation == None then code == TargetAccountUnavailable
    else !HasPosition(t, k.currency) && code == TargetPositionUnavailable
  }

  /** Why an eligible invoice is not mapped, unless its id is repeated. */
  ghost predicate InvoiceReports(b: Blocker, c: Census, a: Assembly) {
    && Str(b.reference) in c.eligible && b.detail == ""
    && match b.code
       case EligibleInvoiceNotInCensus => Absent(c, b.reference)
       case InvoicePartitionUnmapped => Homeless(c, a, b.reference)
       case InvoicePrecisionMismatch => Mismatched(c, a, b.reference)
       case _ => false
  }

  /** Why a settlement in scope is not mapped. */
  ghost predicate SettlementReports(b: Blocker, c: Census, a: Assembly)
    requires Texted(c)
  {
    RepeatedSettlement(b, c) || UnusableSettlement(b, c, a)
  }

  ghost predicate RepeatedSettlement(b: Blocker, c: Census) {
    exists i :: InScopeAt(c, i) && !AloneAt(c, i) && c.settlements[i].id == Str(b.reference)
      && b == Blocker(DuplicateCensusSettlement, b.reference, "")
  }

  ghost predicate UnusableSettlement(b: Blocker, c: Census, a: Assembly)
    requires Texted(c)
  {
    exists i :: InScopeAt(c, i) && AloneAt(c, i) && Unusable(c, a, i, b)
  }

  lemma CensusReportsExactly(c: Census, b: Blocker)
    requires (forall r | r in c.invoices :: r.id.Str?) && forall f | f in c.eligible :: f.Str?
    ensures b in CensusBlockers(c) <==> CensusReports(b, c)
  {
    hide FilterMap, Text.InOrder, DuplicateIds, NoDuplicates, Texts, Parties, Unattributed, Nameless, Repeated,
      DuplicateBlocker, HasNameless, EligibleTwice;
    DuplicatesReported(c, b);
    RepeatedEligible(c);
    UnattributedMeans(c.controls, b, Controls);
    UnattributedMeans(c.lanes, b, Lanes);
    UnattributedMeans(Parties(c.invoices), b, Invoices);
  }

  lemma NamelessExactly(r: PartyRow)
    ensures PartyKey(r) == None <==> Nameless(r)
  {
    if PartyKey(r).Some? {
      assert Names(r, r.account.text, r.currency.text);
    }
  }

  lemma UnattributedMeans(rows: seq<PartyRow>, b: Blocker, section: Section)
    ensures b in FilterMap(rows, Unattributed(section)) <==>
      && section != Invoices && HasNameless(rows)
      && b == Blocker(CensusRowUnattributed, if section == Controls then "controls" else "lanes", "account/currency")
  {
    FilterMapMembers(rows, Unattributed(section), b);
    forall r ensures PartyKey(r) == None <==> Nameless(r) {
      NamelessExactly(r);
    }
    hide FilterMap, Nameless, PartyKey;
    if HasNameless(rows) && section != Invoices
    {
      var r :| r in rows && Nameless(r);
      var said := if section == Controls then "controls" else "lanes";
      assert Unattributed(section)(r) == Some(Blocker(CensusRowUnattributed, said, "account/currency"));
    }
  }

  lemma DuplicatesReported(c: Census, b: Blocker)
    requires forall r | r in c.invoices :: r.id.Str?
    ensures b in FilterMap(Text.InOrder(DuplicateIds(c.invoices)), DuplicateBlocker())
      <==> b == Blocker(DuplicateCensusInvoice, b.reference, "") && Repeated(c.invoices, b.reference)
  {
    FilterMapMembers(Text.InOrder(DuplicateIds(c.invoices)), DuplicateBlocker(), b);
    hide FilterMap, Text.InOrder;
    RowsFound(c.invoices, b.reference);
    hide RowsOf;
    if Repeated(c.invoices, b.reference) {
      var i, j :| 0 <= i < j < |c.invoices|
        && c.invoices[i].id == Str(b.reference) && c.invoices[j].id == Str(b.reference);
      assert c.invoices[i] in c.invoices;
      assert b.reference in DuplicateIds(c.invoices);
    }
    if b.reference in DuplicateIds(c.invoices) && b == Blocker(DuplicateCensusInvoice, b.reference, "") {
      assert DuplicateBlocker()(b.reference) == Some(b);
    }
  }

  lemma RepeatedEligible(c: Census)
    requires forall f | f in c.eligible :: f.Str?
    ensures NoDuplicates(Texts(c.eligible)) <==> !EligibleTwice(c)
  {
    forall i | 0 <= i < |c.eligible| ensures c.eligible[i] == Str(Texts(c.eligible)[i]) {
      assert c.eligible[i] in c.eligible;
    }
    if EligibleTwice(c) {
      var i, j :| 0 <= i < j < |c.eligible| && c.eligible[i] == c.eligible[j];
      assert Texts(c.eligible)[i] == Texts(c.eligible)[j];
    }
    hide Texts;
  }

  lemma PartitionReportsExactly(c: Census, t: Target, derive: Derive, b: Blocker)
    requires CensusSound(c) && TargetSound(t) && TargetsApart(t)
    ensures b in PartitionBlockers(c, t, derive) <==> PartitionReports(b, c, t, derive)
  {
    hide FilterMap, SortedKeys, TargetTable, Universe, CandidatesOf, Text.InOrder, AccountsOf, ExtraBlocker,
      PartitionBlocker, CollisionBlocker, SetupOf, CensusSound, TargetSound, TargetsApart, Unasked, Lacking, Colliding;
    ExtrasExactly(c, t, b);
    LacksExactly(c, t, derive, b);
    CollisionsExactly(c, t, derive, b);
  }

  lemma ExtrasExactly(c: Census, t: Target, b: Blocker)
    requires TargetSound(t) && TargetsApart(t)
    ensures b in FilterMap(SortedKeys(TargetTable(t.rows).Keys - Universe(c)), ExtraBlocker()) <==> Unasked(b, c, t)
  {
    FilterMapMembers(SortedKeys(TargetTable(t.rows).Keys - Universe(c)), ExtraBlocker(), b);
    hide FilterMap, SortedKeys, TargetTable, Universe, HasRow, Mentions, TargetSound, TargetsApart;
    forall k ensures k in TargetTable(t.rows).Keys - Universe(c) <==> HasRow(t, k) && !Mentions(c, k) {
      UniverseExactly(c, k);
      TargetsTabled(t, k);
    }
    if Unasked(b, c, t) {
      var k :| HasRow(t, k) && !Mentions(c, k)
        && b == Blocker(TargetEntryWithoutCensusAccount, k.account + ":" + k.currency, "");
      assert ExtraBlocker()(k) == Some(b);
    }
  }

  lemma LacksExactly(c: Census, t: Target, derive: Derive, b: Blocker)
    requires CensusSound(c) && TargetSound(t) && TargetsApart(t)
    ensures b in FilterMap(SortedKeys(Universe(c)), PartitionBlocker(SetupOf(c, t), derive)) <==> Lacking(b, c, t)
  {
    var f := PartitionBlocker(SetupOf(c, t), derive);
    FilterMapMembers(SortedKeys(Universe(c)), f, b);
    forall k ensures k in Universe(c) <==> Mentions(c, k) {
      UniverseExactly(c, k);
    }
    forall k
      ensures f(k) == Some(b) <==>
        b == Blocker(b.code, k.account + ":" + k.currency, "") && Lacks(b.code, c, t, k)
    {
      ResolveExactly(c, t, derive, k);
      hide Resolve, SetupOf, Undeclared, HasRow, HasPosition, CensusSound, TargetSound, TargetsApart, Stands, Format,
        Mentions, Universe;
    }
    hide FilterMap, SortedKeys, PartitionBlocker, Lacks, Universe, Mentions, CensusSound, TargetSound, TargetsApart,
      SetupOf;
  }

  lemma CollisionsExactly(c: Census, t: Target, derive: Derive, b: Blocker)
    requires CensusSound(c) && TargetSound(t) && TargetsApart(t)
    ensures
      var candidates := CandidatesOf(c, t, derive);
      b in FilterMap(Text.InOrder(AccountsOf(candidates)), CollisionBlocker(candidates)) <==> Colliding(b, c, t, derive)
  {
    var candidates := CandidatesOf(c, t, derive);
    FilterMapMembers(Text.InOrder(AccountsOf(candidates)), CollisionBlocker(candidates), b);
    P.CandidateKeys(c, t, derive);
    hide FilterMap, CandidatesOf, Universe, PrecisionTable, ResolvedOf, Called, Text.InOrder;
    forall q ensures Called(q, c, t, derive) <==> PartitionKey(q) in candidates && candidates[PartitionKey(q)] == q {
      CandidateExactly(c, t, derive, q);
    }
    hide CensusSound, TargetSound, TargetsApart;
    if account :|
      account in Text.InOrder(AccountsOf(candidates)) && CollisionBlocker(candidates)(account) == Some(b)
    {
      var j, k := TwoOf(Backed(candidates, account));
      assert Called(candidates[j], c, t, derive) && Called(candidates[k], c, t, derive);
    }
    if Colliding(b, c, t, derive) {
      var p, q :| Called(p, c, t, derive) && Called(q, c, t, derive) && p != q && p.account == q.account
        && b == Blocker(TargetAccountCollision, p.account, "");
      var group := Backed(candidates, p.account);
      assert PartitionKey(p) in group - {PartitionKey(q)} && PartitionKey(q) in group;
      assert |group - {PartitionKey(q)}| > 0;
      assert p.account in AccountsOf(candidates) && CollisionBlocker(candidates)(p.account) == Some(b);
    }
  }

  lemma TwoOf<T>(s: set<T>) returns (x: T, y: T)
    requires |s| > 1
    ensures x in s && y in s && x != y
  {
    x :| x in s;
    var rest := s - {x};
    assert |rest| > 0;
    y :| y in rest;
  }

  lemma InvoiceReportsExactly(c: Census, t: Target, derive: Derive, b: Blocker)
    requires RefusalOf(c, t) == None
    ensures b in InvoiceBlockers(c, t, derive) <==> InvoiceReports(b, c, AssemblyOf(c, t, derive))
  {
    AcceptedMeans(c, t);
    AllRowsAgree(c, t, derive);
    hide RefusalOf, CensusSound, TargetSound, TargetsApart, FilterMap, Text.InOrder, EligibleSet, ResolvedOf,
      PrecisionTable, AssemblyOf, InvoiceReports, Agrees;
    EligibleTexts(c);
    ReportedInvoices(c, ResolvedOf(c, t, derive), PrecisionTable(c.precisions), AssemblyOf(c, t, derive), b);
  }

  lemma ReportedInvoices(
      c: Census, resolved: map<Key, Partition>, precisions: map<string, int>, a: Assembly, b: Blocker)
    requires forall r | r in c.invoices :: r.id.Str? && Agrees(r.party, resolved, precisions, a)
    requires forall f | f in c.eligible :: f.Str?
    ensures b in FilterMap(Text.InOrder(EligibleSet(c)), BlockInvoice(c.invoices, resolved, precisions))
      <==> InvoiceReports(b, c, a)
  {
    var (ids, f) := (Text.InOrder(EligibleSet(c)), BlockInvoice(c.invoices, resolved, precisions));
    FilterMapMembers(ids, f, b);
    EligibleExactly(c, b.reference);
    hide FilterMap, Text.InOrder, EligibleSet, InvoiceVerdict, InvoiceReports, Agrees;
    if id :| id in ids && f(id) == Some(b) {
      P.VerdictNames(id, c.invoices, resolved, precisions);
      BlockedExactly(c, resolved, precisions, a, b);
    }
    if InvoiceReports(b, c, a) {
      BlockedExactly(c, resolved, precisions, a, b);
      ReportsEligible(c, a, b);
      assert b.reference in ids && f(b.reference) == Some(b);
    }
  }

  lemma ReportsEligible(c: Census, a: Assembly, b: Blocker)
    ensures InvoiceReports(b, c, a) ==> Str(b.reference) in c.eligible
  {
    hide Absent, Homeless, Mismatched;
  }

  lemma BlockedExactly(
      c: Census, resolved: map<Key, Partition>, precisions: map<string, int>, a: Assembly, b: Blocker)
    requires forall r | r in c.invoices :: r.id.Str? && Agrees(r.party, resolved, precisions, a)
    ensures InvoiceReports(b, c, a) <==>
      Str(b.reference) in c.eligible && InvoiceVerdict(b.reference, c.invoices, resolved, precisions) == Blocked(b)
  {
    VerdictExactly(c, b.reference, resolved, precisions, a);
    CodesOfVerdict(c, b.reference, resolved, precisions);
    hide InvoiceVerdict, Mappable, Homeless, Mismatched, Absent, Agrees;
  }

  lemma CodesOfVerdict(c: Census, id: string, resolved: map<Key, Partition>, precisions: map<string, int>)
    ensures
      var v := InvoiceVerdict(id, c.invoices, resolved, precisions);
      v.Blocked? ==>
        v.blocker.code in {EligibleInvoiceNotInCensus, InvoicePartitionUnmapped, InvoicePrecisionMismatch}
  {
    hide RowsOf;
  }

  lemma SettlementReportsExactly(c: Census, t: Target, derive: Derive, b: Blocker)
    requires RefusalOf(c, t) == None && Texted(c)
    ensures b in SettlementBlockers(c, t, derive) <==> SettlementReports(b, c, DraftOf(c, t, derive).assembly)
  {
    SourcesGiven(c, t);
    MappedAgree(c, t, derive);
    hide RefusalOf, FilterMap, SortedSettlementKeys, InScopeOf, InvoicesOf, InvoiceMappings, DraftOf, KeysIn, Usable,
      IsMapped, RepeatedSettlement, UnusableSettlement;
    ScopedExactly(c);
    hide Texted, InScopeAt, ScopedAt;
    RepeatsExactly(c, b);
    UnusableExactly(c, DraftOf(c, t, derive).assembly, InvoicesOf(InvoiceMappings(c, t, derive)), b);
    hide RepeatBlocker, BlockSettlement;
  }

  lemma ScopedExactly(c: Census)
    requires Texted(c)
    ensures forall s :: s in InScopeOf(c) <==> exists i :: InScopeAt(c, i) && s == ScopedAt(c, i)
  {
    hide InScopeOf, ScopedAt;
    forall s ensures s in InScopeOf(c) <==> exists i :: InScopeAt(c, i) && s == ScopedAt(c, i) {
      ScopedMembers(c, s);
    }
  }

  lemma RepeatsExactly(c: Census, b: Blocker)
    requires Texted(c) && forall s :: s in InScopeOf(c) <==> exists i :: InScopeAt(c, i) && s == ScopedAt(c, i)
    ensures b in FilterMap(SortedSettlementKeys(KeysIn(InScopeOf(c))), RepeatBlocker(InScopeOf(c)))
      <==> RepeatedSettlement(b, c)
  {
    var scoped := InScopeOf(c);
    FilterMapMembers(SortedSettlementKeys(KeysIn(scoped)), RepeatBlocker(scoped), b);
    hide FilterMap, InScopeOf, SortedSettlementKeys, CountOf, AloneAt;
    if k :| k in SortedSettlementKeys(KeysIn(scoped)) && RepeatBlocker(scoped)(k) == Some(b) {
      var s :| s in scoped && s.key == k;
      var i :| InScopeAt(c, i) && s == ScopedAt(c, i);
      CountMeans(c, i);
    }
    if RepeatedSettlement(b, c) {
      var i :| InScopeAt(c, i) && !AloneAt(c, i) && c.settlements[i].id == Str(b.reference)
        && b == Blocker(DuplicateCensusSettlement, b.reference, "");
      CountMeans(c, i);
      assert ScopedAt(c, i) in scoped;
      assert KeyAt(c, i) in SortedSettlementKeys(KeysIn(scoped)) && RepeatBlocker(scoped)(KeyAt(c, i)) == Some(b);
    }
  }

  lemma UnusableExactly(c: Census, a: Assembly, mapped: set<string>, b: Blocker)
    requires Texted(c) && forall s :: s in InScopeOf(c) <==> exists i :: InScopeAt(c, i) && s == ScopedAt(c, i)
    requires forall i | Usable(c, i) :: c.settlements[i].source.Str? || c.settlements[i].source == Null
    requires forall id :: id in mapped <==> IsMapped(a, Str(id))
    ensures b in FilterMap(InScopeOf(c), BlockSettlement(InScopeOf(c), mapped)) <==> UnusableSettlement(b, c, a)
  {
    var scoped := InScopeOf(c);
    FilterMapMembers(scoped, BlockSettlement(scoped, mapped), b);
    hide FilterMap, InScopeOf, AloneAt, SettlementVerdict, IsMapped, Usable, Unusable;
    if s :| s in scoped && BlockSettlement(scoped, mapped)(s) == Some(b) {
      var i :| InScopeAt(c, i) && s == ScopedAt(c, i);
      VerdictMeans(c, a, mapped, i);
      assert SettlementVerdict(s, scoped, mapped) == Blocked(b);
    }
    if UnusableSettlement(b, c, a) {
      var i :| InScopeAt(c, i) && AloneAt(c, i) && Unusable(c, a, i, b);
      VerdictMeans(c, a, mapped, i);
      assert SettlementVerdict(ScopedAt(c, i), scoped, mapped) == Blocked(b);
      assert BlockSettlement(scoped, mapped)(ScopedAt(c, i)) == Some(b);
    }
  }

  /**
   * The blockers of a draft: exactly what the census, the partitions, the invoices and the
   * settlements give rise to.
   */
  lemma BlockersExactly(c: Census, t: Target, derive: Derive, b: Blocker)
    requires RefusalOf(c, t) == None
    ensures
      var d := DraftOf(c, t, derive);
      && Texted(c)
      && (b in d.blockers <==>
            || CensusReports(b, c) || PartitionReports(b, c, t, derive)
            || InvoiceReports(b, c, d.assembly) || SettlementReports(b, c, d.assembly))
  {
    AcceptedMeans(c, t);
    DraftHolds(c, t, derive);
    hide DraftOf, Texted, CensusReports, PartitionReports, InvoiceReports, SettlementReports, CensusBlockers,
      PartitionBlockers, InvoiceBlockers, SettlementBlockers, AssemblyOf, InvoiceMappings, DischargeMappings;
    SettlementReportsExactly(c, t, derive, b);
    InvoiceReportsExactly(c, t, derive, b);
    hide RefusalOf;
    PartitionReportsExactly(c, t, derive, b);
    EligibleTexts(c);
    CensusReportsExactly(c, b);
  }

  lemma EligibleTexts(c: Census)
    requires Texted(c)
    ensures forall f | f in c.eligible :: f.Str?
  {
  }

  // ---- formats and orders --------------------------------------------------------------------------------------

  /** A format is filled in piece by piece. */
  lemma {:induction false} FormatJoins(a: Template, b: Template, k: Key)
    ensures Format(a + b, k) == Format(a, k) + Format(b, k)
    ensures Format([SourceAccount], k) == k.account && Format([Currency], k) == k.currency && Format([], k) == ""
    ensures forall text :: Format([Literal(text)], k) == text
  {
    OnePiece(k);
    if a == [] {
      assert a + b == b;
    } else {
      var rest := a[1..];
      FormatJoins(rest, b, k);
      assert (a + b)[0] == a[0] && (a + b)[1..] == rest + b;
    }
  }

  lemma OnePiece(k: Key)
    ensures Format([SourceAccount], k) == k.account && Format([Currency], k) == k.currency && Format([], k) == ""
    ensures forall text :: Format([Literal(text)], k) == text
  {
    forall piece: Piece ensures [piece][1..] == [] {}
  }

  /** The name a blocker is reported under. */
  function CodeName(c: Code): string {
    match c
    case CensusPopulationIncomplete => "census_population_incomplete"
    case CensusRowUnattributed => "census_row_unattributed"
    case CurrencyPrecisionUndeclared => "currency_precision_undeclared"
    case DuplicateCensusInvoice => "duplicate_census_invoice"
    case DuplicateCensusSettlement => "duplicate_census_settlement"
    case DuplicateEligibleInvoice => "duplicate_eligible_invoice"
    case EligibleInvoiceNotInCensus => "eligible_invoice_not_in_census"
    case InvoicePartitionUnmapped => "invoice_partition_unmapped"
    case InvoicePrecisionMismatch => "invoice_precision_mismatch"
    case SettlementInvoiceUnmapped => "settlement_invoice_unmapped"
    case SettlementSourceIdUnavailable => "settlement_source_id_unavailable"
    case TargetAccountCollision => "target_account_collision"
    case TargetAccountUnavailable => "target_account_unavailable"
    case TargetEntryWithoutCensusAccount => "target_entry_without_census_account"
    case TargetPositionUnavailable => "target_position_unavailable"
    case UnsupportedSettlementKind => "unsupported_settlement_kind"
  }

  lemma Ascends(a: Code, b: Code, i: nat)
    requires i < |CodeName(a)| && i < |CodeName(b)| && CodeName(a)[..i] == CodeName(b)[..i]
    requires CodeName(a)[i] < CodeName(b)[i]
    ensures Text.Lt(CodeName(a), CodeName(b))
  {
    Text.FirstDifferenceDecides(CodeName(a), CodeName(b), i);
  }

  function CodeAt(rank: nat): Code
    requires rank < 16
  {
    [CensusPopulationIncomplete, CensusRowUnattributed, CurrencyPrecisionUndeclared, DuplicateCensusInvoice,
     DuplicateCensusSettlement, DuplicateEligibleInvoice, EligibleInvoiceNotInCensus,
     InvoicePartitionUnmapped, InvoicePrecisionMismatch, SettlementInvoiceUnmapped,
     SettlementSourceIdUnavailable, TargetAccountCollision, TargetAccountUnavailable,
     TargetEntryWithoutCensusAccount, TargetPositionUnavailable, UnsupportedSettlementKind][rank]
  }

  lemma CensusNamesAscend()
    ensures Text.Lt(CodeName(CensusPopulationIncomplete), CodeName(CensusRowUnattributed))
    ensures Text.Lt(CodeName(CensusRowUnattributed), CodeName(CurrencyPrecisionUndeclared))
    ensures Text.Lt(CodeName(CurrencyPrecisionUndeclared), CodeName(DuplicateCensusInvoice))
  {
    hide Text.Lt;
    Ascends(CensusPopulationIncomplete, CensusRowUnattributed, 7);
    Ascends(CensusRowUnattributed, CurrencyPrecisionUndeclared, 1);
    Ascends(CurrencyPrecisionUndeclared, DuplicateCensusInvoice, 0);
  }

  lemma DuplicateNamesAscend()
    ensures Text.Lt(CodeName(DuplicateCensusInvoice), CodeName(DuplicateCensusSettlement))
    ensures Text.Lt(CodeName(DuplicateCensusSettlement), CodeName(DuplicateEligibleInvoice))
    ensures Text.Lt(CodeName(DuplicateEligibleInvoice), CodeName(EligibleInvoiceNotInCensus))
  {
    hide Text.Lt;
    Ascends(DuplicateCensusInvoice, DuplicateCensusSettlement, 17);
    Ascends(DuplicateCensusSettlement, DuplicateEligibleInvoice, 10);
    Ascends(DuplicateEligibleInvoice, EligibleInvoiceNotInCensus, 0);
  }

  lemma InvoiceNamesAscend()
    ensures Text.Lt(CodeName(EligibleInvoiceNotInCensus), CodeName(InvoicePartitionUnmapped))
    ensures Text.Lt(CodeName(InvoicePartitionUnmapped), CodeName(InvoicePrecisionMismatch))
    ensures Text.Lt(CodeName(InvoicePrecisionMismatch), CodeName(SettlementInvoiceUnmapped))
  {
    hide Text.Lt;
    Ascends(EligibleInvoiceNotInCensus, InvoicePartitionUnmapped, 0);
    Ascends(InvoicePartitionUnmapped, InvoicePrecisionMismatch, 9);
    Ascends(InvoicePrecisionMismatch, SettlementInvoiceUnmapped, 0);
  }

  lemma SettlementNamesAscend()
    ensures Text.Lt(CodeName(SettlementInvoiceUnmapped), CodeName(SettlementSourceIdUnavailable))
    ensures Text.Lt(CodeName(SettlementSourceIdUnavailable), CodeName(TargetAccountCollision))
    ensures Text.Lt(CodeName(TargetAccountCollision), CodeName(TargetAccountUnavailable))
  {
    hide Text.Lt;
    Ascends(SettlementInvoiceUnmapped, SettlementSourceIdUnavailable, 11);
    Ascends(SettlementSourceIdUnavailable, TargetAccountCollision, 0);
    Ascends(TargetAccountCollision, TargetAccountUnavailable, 15);
  }

  lemma TargetNamesAscend()
    ensures Text.Lt(CodeName(TargetAccountUnavailable), CodeName(TargetEntryWithoutCensusAccount))
    ensures Text.Lt(CodeName(TargetEntryWithoutCensusAccount), CodeName(TargetPositionUnavailable))
    ensures Text.Lt(CodeName(TargetPositionUnavailable), CodeName(UnsupportedSettlementKind))
  {
    hide Text.Lt;
    Ascends(TargetAccountUnavailable, TargetEntryWithoutCensusAccount, 7);
    Ascends(TargetEntryWithoutCensusAccount, TargetPositionUnavailable, 7);
    Ascends(TargetPositionUnavailable, UnsupportedSettlementKind, 0);
  }

  lemma {:induction false} NamesAscend(i: nat, j: nat)
    requires i < j < 16
    ensures Text.Lt(CodeName(CodeAt(i)), CodeName(CodeAt(j)))
    decreases j
  {
    CensusNamesAscend();
    DuplicateNamesAscend();
    InvoiceNamesAscend();
    SettlementNamesAscend();
    TargetNamesAscend();
    hide Text.Lt, CodeName;
    if i + 1 < j {
      NamesAscend(i, j - 1);
      LtTransitive(CodeName(CodeAt(i)), CodeName(CodeAt(j - 1)), CodeName(CodeAt(j)));
    }
  }

  lemma LtTransitive(a: string, b: string, c: string)
    requires Text.Lt(a, b) && Text.Lt(b, c)
    ensures Text.Lt(a, c)
  {
    Text.LeTransitive(a, b, c);
    if a == c {
      Text.LeAntisymmetric(a, b);
    }
  }

  /** Blockers stand in the order of their code names, then references, then details. */
  lemma BlockersInNameOrder(a: Blocker, b: Blocker)
    ensures BlockerLe(a, b) <==>
      Text.TupleLe([CodeName(a.code), a.reference, a.detail], [CodeName(b.code), b.reference, b.detail])
  {
    hide CodeName, Text.Lt;
    RankOfCode(a.code);
    RankOfCode(b.code);
    var (x, y) := ([CodeName(a.code), a.reference, a.detail], [CodeName(b.code), b.reference, b.detail]);
    assert x[1..] == [a.reference, a.detail] && y[1..] == [b.reference, b.detail];
    if Rank(a.code) < Rank(b.code) {
      NamesAscend(Rank(a.code), Rank(b.code));
    } else if Rank(b.code) < Rank(a.code) {
      NamesAscend(Rank(b.code), Rank(a.code));
      LtAsymmetric(CodeName(b.code), CodeName(a.code));
    } else {
      RankTellsApart(a.code, b.code);
      assert !Text.Lt(CodeName(a.code), CodeName(a.code)) by {
        LtIrreflexive(CodeName(a.code));
      }
    }
  }

  lemma RankOfCode(c: Code)
    ensures Rank(c) < 16 && CodeAt(Rank(c)) == c
  {
  }

  lemma LtIrreflexive(a: string)
    ensures !Text.Lt(a, a)
  {
  }

  lemma LtAsymmetric(a: string, b: string)
    requires Text.Lt(a, b)
    ensures !Text.Lt(b, a) && a != b
  {
    if Text.Le(b, a) {
      Text.LeAntisymmetric(a, b);
    }
  }

  /** The lists of a draft, in the order a reader sees them. */
  lemma DraftInOrder(c: Census, t: Target, derive: Derive, i: nat, j: nat)
    requires i < j
    ensures
      var d := DraftOf(c, t, derive);
      && (j < |d.assembly.partitions| ==>
            var (p, q) := (d.assembly.partitions[i], d.assembly.partitions[j]);
            Text.TupleLe([p.source, p.currency], [q.source, q.currency]))
      && (j < |d.assembly.invoices| ==> Text.Le(d.assembly.invoices[i].invoice, d.assembly.invoices[j].invoice))
      && (j < |d.assembly.discharges| ==>
            var (m, n) := (d.assembly.discharges[i].settlement, d.assembly.discharges[j].settlement);
            Text.TupleLe([m.kind, m.id], [n.kind, n.id]))
      && (j < |d.blockers| ==>
            var (a, b) := (d.blockers[i], d.blockers[j]);
            Text.TupleLe([CodeName(a.code), a.reference, a.detail], [CodeName(b.code), b.reference, b.detail]))
  {
    hide DraftOf, CodeName, BlockerLe, Text.TupleLe, Text.Le;
    P.DraftIsSortedAndCounted(c, t, derive);
    var d := DraftOf(c, t, derive);
    if j < |d.blockers| {
      BlockersInNameOrder(d.blockers[i], d.blockers[j]);
    }
  }

  /**
   * What the counts of a draft count: distinct invoices, eligible ids and partitions of the census,
   * and its lists.
   */
  lemma CountsExactly(c: Census, t: Target, derive: Derive)
    returns (invoices: set<string>, eligible: set<string>, partitions: set<Key>)
    requires RefusalOf(c, t) == None
    ensures forall id :: id in invoices <==> exists r :: r in c.invoices && r.id == Str(id)
    ensures forall id :: id in eligible <==> Str(id) in c.eligible
    ensures forall k :: k in partitions <==> Mentions(c, k)
    ensures
      var d := DraftOf(c, t, derive);
      d.counts == Counts(|invoices|, |eligible|, |d.assembly.invoices|, |d.assembly.discharges|, |partitions|,
                         |d.assembly.partitions|, |d.blockers|)
  {
    AcceptedMeans(c, t);
    P.DraftIsSortedAndCounted(c, t, derive);
    invoices, eligible, partitions := IdsOf(c.invoices), EligibleSet(c), Universe(c);
    forall id ensures id in eligible <==> Str(id) in c.eligible {
      EligibleExactly(c, id);
    }
    forall k ensures k in partitions <==> Mentions(c, k) {
      UniverseExactly(c, k);
    }
    hide RefusalOf, CensusSound, TargetSound, TargetsApart, Texted, DraftOf, Mentions, Universe, EligibleSet, Sorted;
    forall id ensures id in invoices <==> exists r :: r in c.invoices && r.id == Str(id) {
      if id in invoices {
        var r :| r in c.invoices && TextOf(r.id) == id;
        assert r.id == Str(id);
      }
    }
  }
}
