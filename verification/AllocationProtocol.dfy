/** Concurrent allocation branches: what the gate, the in-tree digest check and a clean merge keep together. */
module AllocationProtocol {
  import opened Wrappers
  import opened AllocationGate

  /** The in-tree digest of a row set. */
  type DigestFn = Rows -> string

  /** A three-way merge of one cell: a side that did not move yields, two different moves conflict. */
  function MergeCell<T(==)>(base: T, ours: T, theirs: T): Option<T> {
    if ours == theirs || theirs == base then Some(ours)
    else if ours == base then Some(theirs)
    else None
  }

  function RowAt(rows: Rows, owner: string): Option<Row> {
    if owner in rows then Some(rows[owner]) else None
  }

  function Owners(base: Rows, ours: Rows, theirs: Rows): set<string> {
    base.Keys + ours.Keys + theirs.Keys
  }

  /** Rows merge owner by owner, so that different additions never conflict. */
  function MergeRows(base: Rows, ours: Rows, theirs: Rows): Option<Rows> {
    if exists o | o in Owners(base, ours, theirs) ::
      MergeCell(RowAt(base, o), RowAt(ours, o), RowAt(theirs, o)).None?
    then None
    else Some(map o | o in Owners(base, ours, theirs)
                && MergeCell(RowAt(base, o), RowAt(ours, o), RowAt(theirs, o)).value.Some?
                :: MergeCell(RowAt(base, o), RowAt(ours, o), RowAt(theirs, o)).value.value)
  }

  /** A clean merge of two ledgers, or nothing when some line conflicts. */
  function Merge(base: Ledger, ours: Ledger, theirs: Ledger): Option<Ledger> {
    match (MergeRows(base.rows, ours.rows, theirs.rows), MergeCell(base.digest, ours.digest, theirs.digest))
    case (Some(rows), Some(digest)) => Some(Ledger(rows, digest))
    case _ => None
  }

  lemma MergeRowsIs(base: Rows, ours: Rows, theirs: Rows, target: Rows)
    requires target.Keys <= Owners(base, ours, theirs)
    requires forall o | o in Owners(base, ours, theirs) ::
      MergeCell(RowAt(base, o), RowAt(ours, o), RowAt(theirs, o)) == Some(RowAt(target, o))
    ensures MergeRows(base, ours, theirs) == Some(target)
  {
    var merged := MergeRows(base, ours, theirs).value;
    forall o ensures o in merged <==> o in target {
      assert RowAt(target, o).Some? <==> o in target;
    }
    forall o | o in target ensures merged[o] == target[o] {
      assert RowAt(target, o) == Some(target[o]);
    }
    assert merged == target;
  }

  /** A side that did not move, or moved the same way, leaves the merge to the other. */
  lemma MergeRowsYields(base: Rows, ours: Rows, theirs: Rows)
    ensures ours == base ==> MergeRows(base, ours, theirs) == Some(theirs)
    ensures theirs == base ==> MergeRows(base, ours, theirs) == Some(ours)
    ensures ours == theirs ==> MergeRows(base, ours, theirs) == Some(ours)
  {
    if ours == base {
      MergeRowsIs(base, ours, theirs, theirs);
    }
    if theirs == base || ours == theirs {
      MergeRowsIs(base, ours, theirs, ours);
    }
  }

  /** Two row sets say the same of an owner. */
  predicate SameAt(a: Rows, b: Rows, owner: string) {
    (owner in a <==> owner in b) && (owner in a ==> a[owner] == b[owner])
  }

  /** An owner as a merge leaves it: from the side that moved it, or from both when they agree. */
  predicate OneSide(base: Rows, ours: Rows, theirs: Rows, merged: Rows, o: string) {
    || (SameAt(ours, theirs, o) && SameAt(merged, ours, o))
    || (SameAt(ours, base, o) && SameAt(merged, theirs, o))
    || (SameAt(theirs, base, o) && SameAt(merged, ours, o))
  }

  lemma SameCell(a: Rows, b: Rows, o: string)
    ensures RowAt(a, o) == RowAt(b, o) <==> SameAt(a, b, o)
  {
  }

  lemma CellExactly(base: Rows, ours: Rows, theirs: Rows, merged: Rows, o: string)
    ensures MergeCell(RowAt(base, o), RowAt(ours, o), RowAt(theirs, o)) == Some(RowAt(merged, o))
      <==> OneSide(base, ours, theirs, merged, o)
    ensures MergeCell(RowAt(base, o), RowAt(ours, o), RowAt(theirs, o)) == None
      <==> !SameAt(ours, theirs, o) && !SameAt(ours, base, o) && !SameAt(theirs, base, o)
  {
    SameCell(ours, theirs, o);
    SameCell(ours, base, o);
    SameCell(theirs, base, o);
    SameCell(merged, ours, o);
    SameCell(merged, theirs, o);
    hide RowAt, SameAt;
  }

  /** A merge takes each owner from the side that moved it, and fails when both moved it to different rows. */
  lemma MergeRowsExactly(base: Rows, ours: Rows, theirs: Rows, merged: Rows)
    ensures MergeRows(base, ours, theirs) == Some(merged) <==> forall o :: OneSide(base, ours, theirs, merged, o)
    ensures MergeRows(base, ours, theirs) == None <==> exists o ::
      !SameAt(ours, theirs, o) && !SameAt(ours, base, o) && !SameAt(theirs, base, o)
  {
    forall o
      ensures MergeCell(RowAt(base, o), RowAt(ours, o), RowAt(theirs, o)) == Some(RowAt(merged, o))
        <==> OneSide(base, ours, theirs, merged, o)
      ensures MergeCell(RowAt(base, o), RowAt(ours, o), RowAt(theirs, o)) == None
        <==> !SameAt(ours, theirs, o) && !SameAt(ours, base, o) && !SameAt(theirs, base, o)
    {
      CellExactly(base, ours, theirs, merged, o);
    }
    if forall o :: OneSide(base, ours, theirs, merged, o) {
      forall o | o in merged ensures o in Owners(base, ours, theirs) {
        assert OneSide(base, ours, theirs, merged, o);
      }
      hide OneSide, MergeCell, RowAt, SameAt;
      MergeRowsIs(base, ours, theirs, merged);
    } else if MergeRows(base, ours, theirs) == Some(merged) {
      MergedCells(base, ours, theirs, merged);
      hide OneSide, MergeCell, RowAt, SameAt;
    }
    hide OneSide;
    if o :| !SameAt(ours, theirs, o) && !SameAt(ours, base, o) && !SameAt(theirs, base, o) {
      assert o in Owners(base, ours, theirs);
    }
  }

  lemma MergedCells(base: Rows, ours: Rows, theirs: Rows, merged: Rows)
    requires MergeRows(base, ours, theirs) == Some(merged)
    ensures forall o :: MergeCell(RowAt(base, o), RowAt(ours, o), RowAt(theirs, o)) == Some(RowAt(merged, o))
  {
    hide MergeCell;
    forall o ensures MergeCell(RowAt(base, o), RowAt(ours, o), RowAt(theirs, o)) == Some(RowAt(merged, o)) {
      if o !in Owners(base, ours, theirs) {
        NoCell<Option<Row>>(None);
      }
    }
  }

  lemma NoCell<T>(x: T)
    ensures MergeCell(x, x, x) == Some(x)
  {
  }

  /** Two branches that both change rows and both pass the gate merge cleanly only with one digest between them. */
  lemma SiblingsNeedOneDigest(base: Ledger, ours: Ledger, theirs: Ledger)
    requires base.digest.Literal? && DigestMoves(base, ours) && DigestMoves(base, theirs)
    requires ours.rows != base.rows && theirs.rows != base.rows
    requires Merge(base, ours, theirs).Some?
    ensures ours.digest == theirs.digest
  {
  }

  // ---- runs ---------------------------------------------------------------------------

  /** A branch: the position in main's history of its merge base, and its head. */
  datatype Branch = Branch(baseAt: nat, head: Ledger)

  /** What landed: the head that was accepted, its merge base, and the modules whose source it changed. */
  datatype Landing = Landing(baseAt: nat, head: Ledger, modules: set<Declared>)

  /** Main's ledgers, oldest first; the open branches; the landings, in order. */
  datatype State = State(history: seq<Ledger>, branches: map<nat, Branch>, landings: seq<Landing>)

  function Main(s: State): Ledger
    requires s.history != []
  {
    s.history[|s.history| - 1]
  }

  datatype Step =
    | Fork(b: nat)
    | Edit(b: nat, head: Ledger)
    | Update(b: nat)
    | Land(b: nat, proposal: Proposal)

  /** The in-tree check of a head: its digest is well formed and is the digest of its own rows. */
  predicate InTree(l: Ledger, d: DigestFn) {
    l.digest == Literal(d(l.rows)) && WellFormedDigest(d(l.rows))
  }

  /** One step of the protocol; `Land` is guarded by the gate, the in-tree check and a clean merge. */
  ghost predicate Next(s: State, step: Step, t: State, d: DigestFn)
    requires s.history != []
  {
    match step
    case Fork(b) =>
      b !in s.branches && t == s.(branches := s.branches[b := Branch(|s.history| - 1, Main(s))])
    case Edit(b, head) =>
      b in s.branches && t == s.(branches := s.branches[b := s.branches[b].(head := head)])
    case Update(b) =>
      && b in s.branches && s.branches[b].baseAt < |s.history|
      && var merged := Merge(s.history[s.branches[b].baseAt], s.branches[b].head, Main(s));
      && merged.Some?
      && t == s.(branches := s.branches[b := Branch(|s.history| - 1, merged.value)])
    case Land(b, proposal) =>
      && b in s.branches && s.branches[b].baseAt < |s.history|
      && var Branch(baseAt, head) := s.branches[b];
      && var base := s.history[baseAt];
      && proposal.base == Some(base) && proposal.head == Some(head)
      && Determinate(proposal) && Serialized(proposal)
      && InTree(head, d)
      && var merged := Merge(base, Main(s), head);
      && merged.Some?
      && var landing := Landing(baseAt, head, ChangedModules(proposal));
      t == State(s.history + [merged.value], s.branches - {b}, s.landings + [landing])
  }

  /** Main starts undigested, before the one-time transition, or already carrying its own digest. */
  predicate FirstLedgerOk(l: Ledger, d: DigestFn) {
    l.digest.Absent? || l.digest == Literal(d(l.rows))
  }

  ghost predicate Initial(s: State, d: DigestFn) {
    |s.history| == 1 && FirstLedgerOk(s.history[0], d) && s.branches == map[] && s.landings == []
  }

  datatype Run = Run(states: seq<State>, steps: seq<Step>)

  ghost predicate IsRun(r: Run, d: DigestFn) {
    && |r.states| == |r.steps| + 1 && Initial(r.states[0], d)
    && forall k | 0 <= k < |r.steps| ::
      r.states[k].history != [] && Next(r.states[k], r.steps[k], r.states[k + 1], d)
  }

  /** The row sets main could hold: the first one and every landed head's. */
  function Candidates(s: State): set<Rows>
    requires s.history != []
  {
    {s.history[0].rows} + set l | l in s.landings :: l.head.rows
  }

  /** No two of the row sets in play share a digest. */
  ghost predicate CollisionFree(d: DigestFn, rows: set<Rows>) {
    forall x, y | x in rows && y in rows && d(x) == d(y) :: x == y
  }

  /** A ledger main may hold: undigested with the first rows, or digested by its own candidate rows. */
  ghost predicate Good(l: Ledger, s: State, d: DigestFn)
    requires s.history != []
  {
    if l.digest.Absent? then l.rows == s.history[0].rows
    else l.digest == Literal(d(l.rows)) && l.rows in Candidates(s)
  }

  /** Ledger `i + 1` of main is what landing `i` left, so a landing's merge base never comes after it. */
  ghost predicate Inv(s: State, d: DigestFn) {
    && |s.history| == |s.landings| + 1
    && (forall i | 0 <= i < |s.history| :: Good(s.history[i], s, d))
    && (forall i, j | 0 <= i <= j < |s.history| :: s.history[i].digest.Literal? ==> s.history[j].digest.Literal?)
    && (forall b | b in s.branches :: s.branches[b].baseAt < |s.history|)
    && (forall k | 0 <= k < |s.landings| ::
         s.landings[k].baseAt <= k
         && forall m | m in s.landings[k].modules :: Resolves(m, s.history[s.landings[k].baseAt].rows))
  }

  /** A landing leaves main with the landed head's rows or with the rows it had. */
  lemma LandingKeepsOneSide(base: Ledger, main: Ledger, head: Ledger, first: Rows, d: DigestFn, rows: set<Rows>)
    requires CollisionFree(d, rows) && base.rows in rows && main.rows in rows && head.rows in rows
    requires base.digest == Absent ==> base.rows == first
    requires base.digest != Absent ==> base.digest == Literal(d(base.rows)) && main.digest != Absent
    requires main.digest == Absent ==> main.rows == first
    requires main.digest != Absent ==> main.digest == Literal(d(main.rows))
    requires DigestMoves(base, head) && InTree(head, d)
    requires Merge(base, main, head).Some?
    ensures
      var merged := Merge(base, main, head).value;
      merged.digest == Literal(d(merged.rows)) && (merged.rows == head.rows || merged.rows == main.rows)
  {
    MergeRowsYields(base.rows, main.rows, head.rows);
  }

  /** Whatever main may hold stays allowed as landings accumulate. */
  lemma GoodStays(l: Ledger, s: State, t: State, d: DigestFn)
    requires s.history != [] && t.history != [] && t.history[0] == s.history[0]
    requires Candidates(s) <= Candidates(t) && Good(l, s, d)
    ensures Good(l, t, d)
  {
  }

  lemma CandidatesGrow(s: State, t: State, landing: Landing)
    requires s.history != [] && t.history != [] && t.history[0] == s.history[0]
    requires t.landings == s.landings + [landing]
    ensures Candidates(t) == Candidates(s) + {landing.head.rows}
  {
    assert t.landings[|s.landings|] == landing;
    forall l | l in s.landings ensures l in t.landings {}
  }

  lemma GoodRows(l: Ledger, s: State, d: DigestFn)
    requires s.history != [] && Good(l, s, d)
    ensures l.rows in Candidates(s)
  {
  }

  /** What landing does to main, taken alone. */
  lemma LandMerges(s: State, t: State, b: nat, proposal: Proposal, d: DigestFn)
    requires Inv(s, d) && Next(s, Land(b, proposal), t, d) && CollisionFree(d, Candidates(t))
    ensures Candidates(t) == Candidates(s) + {s.branches[b].head.rows}
    ensures Main(t).digest == Literal(d(Main(t).rows)) && Main(t).rows in Candidates(t)
    ensures Main(t).rows == Main(s).rows || Main(t).rows == s.branches[b].head.rows
  {
    hide Merge, MergeRows, DigestMoves, InTree, Resolves, ChangedModules, Determinate, Serialized, CollisionFree,
      Candidates;
    var Branch(baseAt, head) := s.branches[b];
    var base, main := s.history[baseAt], Main(s);
    CandidatesGrow(s, t, Landing(baseAt, head, ChangedModules(proposal)));
    assert Good(base, s, d) && Good(main, s, d);
    GoodRows(base, s, d);
    GoodRows(main, s, d);
    LandAccepted(proposal);
    LandingKeepsOneSide(base, main, head, s.history[0].rows, d, Candidates(t));
  }

  lemma LandAccepted(proposal: Proposal)
    requires Determinate(proposal) && Serialized(proposal)
    ensures DigestMoves(proposal.base.value, proposal.head.value)
    ensures forall m | m in ChangedModules(proposal) :: Resolves(m, proposal.base.value.rows)
  {
    hide DigestMoves, Resolves, ChangedModules;
    forall m | m in ChangedModules(proposal) ensures Resolves(m, proposal.base.value.rows) {
      ChangedModulesAreAllocated(proposal, m);
      UnheardExactly(m, proposal.base.value.rows);
    }
  }

  /** A landing keeps the invariant, and leaves main with its own rows or the landed head's. */
  lemma LandKeepsInv(s: State, t: State, b: nat, proposal: Proposal, d: DigestFn)
    requires Inv(s, d) && Next(s, Land(b, proposal), t, d)
    requires CollisionFree(d, Candidates(t))
    ensures Inv(t, d) && (Main(t).rows == Main(s).rows || Main(t).rows == s.branches[b].head.rows)
  {
    hide Merge, MergeRows, DigestMoves, InTree, Candidates, Resolves, ChangedModules, Determinate, Serialized,
      CollisionFree;
    LandMerges(s, t, b, proposal, d);
    LandAccepted(proposal);
    forall i | 0 <= i < |t.history| ensures Good(t.history[i], t, d) {
      if i < |s.history| {
        assert t.history[i] == s.history[i];
        GoodStays(s.history[i], s, t, d);
      }
    }
    forall k | 0 <= k < |t.landings|
      ensures t.landings[k].baseAt <= k
        && forall m | m in t.landings[k].modules :: Resolves(m, t.history[t.landings[k].baseAt].rows)
    {
      if k < |s.landings| {
        assert t.landings[k] == s.landings[k];
      }
    }
  }

  lemma OtherStepKeepsInv(s: State, step: Step, t: State, d: DigestFn)
    requires Inv(s, d) && !step.Land? && Next(s, step, t, d)
    ensures Inv(t, d) && t.history == s.history && t.landings == s.landings
  {
    hide Merge, MergeRows, DigestMoves, InTree, Resolves, ChangedModules, Determinate, Serialized;
    assert Candidates(t) == Candidates(s);
    forall i | 0 <= i < |t.history| ensures Good(t.history[i], t, d) {
      GoodStays(s.history[i], s, t, d);
    }
  }

  lemma {:induction false} CandidatesFinal(r: Run, k: nat, d: DigestFn)
    requires IsRun(r, d) && k < |r.states|
    requires r.states[k].history != [] && r.states[|r.steps|].history != []
    ensures Candidates(r.states[k]) <= Candidates(r.states[|r.steps|])
    decreases |r.steps| - k
  {
    hide Merge, MergeRows, DigestMoves, InTree, Resolves, ChangedModules, Determinate, Serialized;
    if k < |r.steps| {
      var s, t := r.states[k], r.states[k + 1];
      assert Next(s, r.steps[k], t, d);
      CandidatesFinal(r, k + 1, d);
      assert t.history[0] == s.history[0];
      forall l | l in s.landings ensures l in t.landings {}
    }
  }

  /** Every state of a run keeps the invariant, and main's rows are the first ones or some landed head's. */
  lemma {:induction false} RunKeepsInv(r: Run, k: nat, d: DigestFn)
    requires IsRun(r, d) && k < |r.states|
    requires r.states[|r.steps|].history != [] && CollisionFree(d, Candidates(r.states[|r.steps|]))
    ensures Inv(r.states[k], d)
    ensures Main(r.states[k]).rows == r.states[0].history[0].rows
      || exists l | l in r.states[k].landings :: l.head.rows == Main(r.states[k]).rows
  {
    hide Merge, MergeRows, DigestMoves, InTree, Resolves, ChangedModules, Determinate, Serialized;
    if k == 0 {
    } else {
      RunKeepsInv(r, k - 1, d);
      var s, step, t := r.states[k - 1], r.steps[k - 1], r.states[k - 1 + 1];
      assert Next(s, step, t, d);
      if step.Land? {
        CandidatesFinal(r, k, d);
        LandKeepsInv(s, t, step.b, step.proposal, d);
        assert t.landings[|s.landings|] in t.landings;
      } else {
        OtherStepKeepsInv(s, step, t, d);
      }
    }
  }

  /**
   * Any row property the first ledger and every landed head satisfy (prefixes being unique, say)
   * holds of main for ever, however the branches interleave.
   */
  lemma RowPropertyHoldsForever(r: Run, k: nat, d: DigestFn, p: Rows -> bool)
    requires IsRun(r, d) && k < |r.states|
    requires r.states[|r.steps|].history != [] && CollisionFree(d, Candidates(r.states[|r.steps|]))
    requires p(r.states[0].history[0].rows) && forall l | l in r.states[k].landings :: p(l.head.rows)
    ensures p(Main(r.states[k]).rows)
  {
    RunKeepsInv(r, k, d);
  }

  /** The n-th landing to change an allocated module's source rests on a row main had before that landing. */
  lemma AllocationPrecedesSource(r: Run, k: nat, d: DigestFn, n: nat, m: Declared)
    requires IsRun(r, d) && k < |r.states|
    requires r.states[|r.steps|].history != [] && CollisionFree(d, Candidates(r.states[|r.steps|]))
    requires n < |r.states[k].landings| && m in r.states[k].landings[n].modules
    ensures n + 1 < |r.states[k].history|
    ensures exists i, owner | 0 <= i <= n && owner in r.states[k].history[i].rows ::
      m.code == Some(owner) || m.branch == Some(r.states[k].history[i].rows[owner].branchLabel)
  {
    RunKeepsInv(r, k, d);
    var i := r.states[k].landings[n].baseAt;
    UnheardExactly(m, r.states[k].history[i].rows);
  }

  /** A head forked from main's tip that changes rows with a digest of its own, and no module's source, can land. */
  lemma FreshHeadLands(s: State, b: nat, head: Ledger, d: DigestFn) returns (proposal: Proposal, t: State)
    requires s.history != [] && Readable(Main(s)) && Readable(head)
    requires b in s.branches && s.branches[b] == Branch(|s.history| - 1, head) && InTree(head, d)
    requires head.rows == Main(s).rows || (Main(s).digest.Literal? && Main(s).digest != head.digest)
    ensures Next(s, Land(b, proposal), t, d) && Main(t).rows == head.rows
    ensures Main(t).digest == head.digest
  {
    proposal := Proposal(Some(Main(s)), Some(head), [], map[]);
    assert Touched([]) == {};
    MergeRowsYields(Main(s).rows, Main(s).rows, head.rows);
    var landing := Landing(|s.history| - 1, head, ChangedModules(proposal));
    hide MergeRows, ChangedModules, WellFormedDigest;
    var merged := Merge(Main(s), Main(s), head);
    t := State(s.history + [merged.value], s.branches - {b}, s.landings + [landing]);
  }

  // ---- why both checks are needed ---------------------------------------------------------

  predicate PrefixesUnique(rows: Rows) {
    forall a, b | a in rows && b in rows && a != b :: rows[a].prefix != rows[b].prefix
  }

  /** Without the digest, two branches that each keep prefixes unique merge cleanly into a duplicate. */
  lemma RowsAloneDoNotConflict()
    ensures
      var base: Rows := map["audit" := Row("audit", "aud", "")];
      var ours: Rows := base["sales" := Row("sales", "sa", "")];
      var theirs: Rows := base["support_access" := Row("support_access", "sa", "")];
      PrefixesUnique(ours) && PrefixesUnique(theirs)
      && MergeRows(base, ours, theirs).Some? && !PrefixesUnique(MergeRows(base, ours, theirs).value)
  {
    var base: Rows := map["audit" := Row("audit", "aud", "")];
    var ours: Rows := base["sales" := Row("sales", "sa", "")];
    var theirs: Rows := base["support_access" := Row("support_access", "sa", "")];
    var both: Rows := ours["support_access" := Row("support_access", "sa", "")];
    MergeRowsIs(base, ours, theirs, both);
    assert both["sales"].prefix == both["support_access"].prefix;
  }
}
