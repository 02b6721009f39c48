/** What a displacement window and its controller runs must say, word for word. */
module WindowMeaning {
  import opened Wrappers
  import opened Sorting
  import opened DisplacementWindow
  import Text

  predicate Filled(f: Field) {
    f.Some? && |f.value| > 0
  }

  predicate OneOf(f: Field, texts: set<string>) {
    f.Some? && f.value in texts
  }

  /** The header of an admissible window. */
  predicate HeaderSaid(w: Window, status: string) {
    && w.unknownKeys == {}
    && Filled(w.from) && Filled(w.to) && Filled(w.start) && Filled(w.end)
    && OneOf(w.verdict, {"displaced", "unmonitored", "not_displaced"})
    && w.from != w.to && Text.Le(w.from.value, w.to.value)
    && (status == "committed" ==> w.verdict == Some("displaced"))
    && w.source.Some? && SourceSaid(w.source.value, w.verdict) && w.changes.Some?
  }

  /** An event source is one of three and complete, unless nothing is claimed of the window. */
  predicate SourceSaid(s: EventSource, verdict: Field) {
    && Filled(s.name) && OneOf(s.method_, {"event_stream", "audit_log", "daemon_event_api"})
    && (s.completeness == Some("complete")
        || (s.completeness == Some("cannot_establish") && verdict == Some("unmonitored")))
  }

  /** Nothing, or what counts as nothing. */
  predicate Empty(a: Attribution) {
    a in {Absent, Named(""), Scalar(0), Compound(0)}
  }

  /** A change by a run, or one that moved nothing for one of four causes. */
  predicate ChangeSaid(c: Change) {
    && Filled(c.observedAt) && Filled(c.before) && Filled(c.after) && c.unknownKeys == {}
    && if Empty(c.run) then c.before == c.after && NonDeployment(c.cause) else Empty(c.cause) && !c.run.Compound?
  }

  predicate NonDeployment(a: Attribution) {
    a in {Named("same_container_restart"), Named("host_reboot_same_image"), Named("daemon_restart_same_image"),
          Named("operator_stop_start_same_image")}
  }

  /** A list of changes leads from `start` to `end` without a gap. */
  predicate Leads(ordered: seq<Change>, start: Field, end: Field) {
    && (if ordered == [] then start == end else ordered[0].before == start && ordered[|ordered| - 1].after == end)
    && forall k | 0 < k < |ordered| :: ordered[k - 1].after == ordered[k].before
  }

  lemma EmptyExactly(a: Attribution)
    ensures Given(a) <==> !Empty(a)
  {
  }

  lemma HeaderExactly(w: Window, status: string)
    ensures HeaderOk(w, status) <==> HeaderSaid(w, status)
  {
    if w.source.Some? && Stated(w.verdict) {
      SourceExactly(w.source.value, w.verdict.value);
    }
    hide SourceOk, SourceSaid, Text.Le;
  }

  lemma SourceExactly(s: EventSource, verdict: string)
    ensures SourceOk(s, verdict) <==> SourceSaid(s, Some(verdict))
  {
  }

  lemma ChangeExactly(c: Change)
    ensures ChangeOk(c) <==> ChangeSaid(c)
  {
    EmptyExactly(c.run);
    EmptyExactly(c.cause);
    NonDeploymentExactly(c.cause);
    hide Given, Empty, NonDeployment, NON_DEPLOYMENT_CAUSES;
  }

  lemma NonDeploymentExactly(a: Attribution)
    ensures NonDeployment(a) <==> a.Named? && a.name in NON_DEPLOYMENT_CAUSES
    ensures NonDeployment(a) ==> !Empty(a)
  {
  }

  lemma LeadsExactly(ordered: seq<Change>, start: Field, end: Field)
    ensures Chained(ordered, start, end) <==> Leads(ordered, start, end)
  {
    ChainedIsPairwise(ordered, start, end);
    hide Chained;
    if Leads(ordered, start, end) {
      forall k | 0 <= k < |ordered| - 1 ensures ordered[k].after == ordered[k + 1].before {
        assert ordered[k + 1 - 1].after == ordered[k + 1].before;
      }
    }
    if EndsMeet(ordered, start, end) {
      forall k | 0 < k < |ordered| ensures ordered[k - 1].after == ordered[k].before {
        assert ordered[k - 1].after == ordered[k - 1 + 1].before;
      }
    }
  }

  /** Which windows are admitted: header, every change, and an unbroken lead through the changes in time order. */
  lemma WindowExactly(w: Window, status: string)
    ensures WindowOk(w, status) <==>
      && HeaderSaid(w, status) && (forall c | c in w.changes.value :: ChangeSaid(c))
      && Leads(Sort(w.changes.value, ByTime), w.start, w.end)
  {
    HeaderExactly(w, status);
    forall c ensures ChangeOk(c) <==> ChangeSaid(c) {
      ChangeExactly(c);
    }
    if w.changes.Some? {
      LeadsExactly(Sort(w.changes.value, ByTime), w.start, w.end);
    }
    hide HeaderOk, ChangeOk, ChangeSaid, Chained, Leads, Sort;
    HeaderHasChanges(w, status);
    hide HeaderSaid;
  }

  lemma HeaderHasChanges(w: Window, status: string)
    ensures HeaderSaid(w, status) ==> w.changes.Some?
  {
  }

  predicate NoLater(c: Change, d: Change) {
    c.observedAt.Some? && d.observedAt.Some? && Text.Le(c.observedAt.value, d.observedAt.value)
  }

  /**
   * The time order: the same changes, none recorded later than one after it; a list already in
   * order stays as it is.
   */
  lemma TimeOrder(changes: seq<Change>, i: nat, j: nat)
    requires forall c | c in changes :: Filled(c.observedAt)
    requires i < j < |Sort(changes, ByTime)|
    ensures multiset(Sort(changes, ByTime)) == multiset(changes)
    ensures NoLater(Sort(changes, ByTime)[i], Sort(changes, ByTime)[j])
    ensures (forall k | 0 < k < |changes| :: NoLater(changes[k - 1], changes[k]))
      ==> Sort(changes, ByTime) == changes
  {
    ByTimeIsPreorder();
    SortSorts(changes, ByTime);
    var ordered := Sort(changes, ByTime);
    MembersAgree(ordered, changes);
    assert ordered[i] in ordered && ordered[j] in ordered && ByTime(ordered[i], ordered[j]);
    hide Sort, Text.Le;
    if forall k | 0 < k < |changes| :: NoLater(changes[k - 1], changes[k]) {
      AscendingIsSorted(changes);
      SortIsIdentityOnSorted(changes, ByTime);
    }
  }

  lemma {:induction false} AscendingIsSorted(changes: seq<Change>)
    requires forall c | c in changes :: Filled(c.observedAt)
    requires forall k | 0 < k < |changes| :: NoLater(changes[k - 1], changes[k])
    ensures Sorted(changes, ByTime)
  {
    hide Text.Le;
    if changes != [] {
      var (rest, last) := (changes[..|changes| - 1], changes[|changes| - 1]);
      AscendingIsSorted(rest);
      forall i | 0 <= i < |rest| ensures ByTime(changes[i], last) {
        assert changes[|rest|] == last && changes[|rest| - 1] == rest[|rest| - 1];
        assert NoLater(changes[|rest| - 1], changes[|rest|]);
        if i < |rest| - 1 {
          assert ByTime(rest[i], rest[|rest| - 1]);
          Text.LeTransitive(TimeOf(changes[i]), TimeOf(rest[|rest| - 1]), TimeOf(last));
        }
      }
      forall i, j | 0 <= i < j < |changes| ensures ByTime(changes[i], changes[j]) {
        if j < |rest| {
          assert ByTime(rest[i], rest[j]);
        }
      }
    }
  }

  /** The runs returned are those a change is attributed to. */
  lemma RunsExactly(changes: seq<Change>, a: Attribution)
    ensures a in RunsOf(changes) <==> !Empty(a) && exists c :: c in changes && c.run == a
  {
    EmptyExactly(a);
    hide Given, Empty;
  }

  // ---- the controller runs ---------------------------------------------------------------------------------

  /** A cycle that counts: all six fields, a deploy or redeploy that succeeded, and a full commit. */
  predicate CycleSaid(c: Cycle) {
    && Filled(c.runId) && Filled(c.observedAt) && Filled(c.observedBy)
    && OneOf(c.cycle, {"deploy", "redeploy"}) && c.outcome == Some("success")
    && c.headCommit.Some? && |c.headCommit.value| == 40
    && forall i | 0 <= i < 40 :: c.headCommit.value[i] in "0123456789abcdef"
  }

  lemma CycleExactly(c: Cycle)
    ensures CycleOk(c) <==> CycleSaid(c)
  {
    if c.headCommit.Some? {
      Text.HexDigitsMean(c.headCommit.value, 40);
    }
    hide Text.HexDigits;
  }

  /** Which lists of cycles are accepted: each counts, both kinds occur, and two runs differ. */
  lemma CyclesExactly(cycles: seq<Cycle>)
    ensures CyclesOk(Some(cycles)) <==>
      && (forall c | c in cycles :: CycleSaid(c))
      && (exists c :: c in cycles && c.cycle == Some("deploy"))
      && (exists c :: c in cycles && c.cycle == Some("redeploy"))
      && exists c, d :: c in cycles && d in cycles && c.runId != d.runId
  {
    forall c ensures CycleOk(c) <==> CycleSaid(c) {
      CycleExactly(c);
    }
    hide CycleOk;
    if forall c | c in cycles :: CycleSaid(c) {
      BothKinds(cycles);
      TwoRuns(cycles);
      hide CycleSaid, CycleNames, RunIds;
      if c, d :| c in cycles && d in cycles && c.runId != d.runId {
        var i :| 0 <= i < |cycles| && cycles[i] == c;
        var j :| 0 <= j < |cycles| && cycles[j] == d;
        assert i != j;
      }
    }
  }

  lemma BothKinds(cycles: seq<Cycle>)
    requires forall c | c in cycles :: CycleSaid(c)
    ensures CycleNames(cycles) == CYCLES <==>
      (exists c :: c in cycles && c.cycle == Some("deploy")) && exists c :: c in cycles && c.cycle == Some("redeploy")
  {
    assert CycleNames(cycles) <= {"deploy", "redeploy"};
    assert "deploy" in CycleNames(cycles) <==> exists c :: c in cycles && c.cycle == Some("deploy");
    assert "redeploy" in CycleNames(cycles) <==> exists c :: c in cycles && c.cycle == Some("redeploy");
  }

  lemma TwoRuns(cycles: seq<Cycle>)
    requires forall c | c in cycles :: CycleSaid(c)
    ensures |RunIds(cycles)| >= 2 <==> exists c, d :: c in cycles && d in cycles && c.runId != d.runId
  {
    var ids := RunIds(cycles);
    if |ids| >= 2 {
      var x :| x in ids;
      var others := ids - {x};
      assert |others| > 0;
      var y :| y in others;
      var c :| c in cycles && Stated(c.runId) && c.runId.value == x;
      var d :| d in cycles && Stated(d.runId) && d.runId.value == y;
      assert c.runId != d.runId;
    }
    if c, d :| c in cycles && d in cycles && c.runId != d.runId {
      assert CycleSaid(c) && CycleSaid(d);
      assert c.runId.value in ids - {d.runId.value} && d.runId.value in ids;
      assert |ids - {d.runId.value}| > 0;
    }
  }
}
