/** `DisplacementWindow.v1` and the controller runs a retirement receipt cites as proof. */
module DisplacementWindow {
  import opened Wrappers
  import opened Sorting
  import opened Filtering
  import Text

  /** A coordinate field: its text, or nothing when it is absent or not a string. */
  type Field = Option<string>

  predicate Stated(f: Field) {
    f.Some? && f.value != ""
  }

  /**
   * What a change is attributed to, which need not be text. `Scalar` stands for every other
   * hashable value, 0 being the one that counts as false; an array or a table is `Compound`.
   */
  datatype Attribution = Absent | Named(name: string) | Scalar(n: int) | Compound(size: nat)

  /** `bool(value)`. */
  predicate Given(a: Attribution) {
    match a
    case Absent => false
    case Named(name) => name != ""
    case Scalar(n) => n != 0
    case Compound(size) => size != 0
  }

  datatype Change = Change(
    observedAt: Field, before: Field, after: Field, run: Attribution, cause: Attribution, unknownKeys: set<string>)

  datatype EventSource = EventSource(name: Field, method_: Field, completeness: Field)

  datatype Window = Window(
    from: Field, to: Field, start: Field, end: Field, verdict: Field,
    source: Option<EventSource>, changes: Option<seq<Change>>, unknownKeys: set<string>)

  const VERDICTS := {"displaced", "unmonitored", "not_displaced"}
  const METHODS := {"event_stream", "audit_log", "daemon_event_api"}
  const METHODS_REFUSED := {"poll", "periodic_snapshot", "quiet_window"}
  const COMPLETENESS := {"complete", "cannot_establish"}
  const NON_DEPLOYMENT_CAUSES := {
    "same_container_restart", "host_reboot_same_image", "daemon_restart_same_image", "operator_stop_start_same_image"}
  const CYCLES := {"deploy", "redeploy"}
  const COMMITTED := "committed"

  // ---- what an admissible window is -----------------------------------------------------

  predicate HeaderOk(w: Window, status: string) {
    && w.unknownKeys == {}
    && Stated(w.from) && Stated(w.to) && Stated(w.start) && Stated(w.end) && Stated(w.verdict)
    && w.verdict.value in VERDICTS
    && Text.Lt(w.from.value, w.to.value)
    && w.source.Some? && SourceOk(w.source.value, w.verdict.value)
    && (w.verdict.value == "displaced" || status != COMMITTED)
    && w.changes.Some?
  }

  predicate SourceOk(s: EventSource, verdict: string) {
    && Stated(s.name) && Stated(s.method_) && Stated(s.completeness)
    && s.method_.value !in METHODS_REFUSED && s.method_.value in METHODS
    && s.completeness.value in COMPLETENESS
    && (s.completeness.value == "cannot_establish" ==> verdict == "unmonitored")
  }

  /**
   * A change is attributed to exactly one of a run and a cause, and a cause is a known one and
   * moves nothing. A run is kept in a set, where an array or a table cannot be.
   */
  predicate ChangeOk(c: Change) {
    && Stated(c.observedAt) && Stated(c.before) && Stated(c.after)
    && c.unknownKeys == {}
    && (Given(c.run) || Given(c.cause)) && !(Given(c.run) && Given(c.cause))
    && (Given(c.cause) ==> c.cause.Named? && c.cause.name in NON_DEPLOYMENT_CAUSES && c.before == c.after)
    && (Given(c.run) ==> !c.run.Compound?)
  }

  function TimeOf(c: Change): string {
    if c.observedAt.Some? then c.observedAt.value else ""
  }

  predicate ByTime(c: Change, d: Change) {
    Text.Le(TimeOf(c), TimeOf(d))
  }

  /** An unbroken chain of changes from `start` to `end`. */
  predicate Chained(ordered: seq<Change>, start: Field, end: Field) {
    if ordered == [] then start == end
    else start == ordered[0].before && Chained(ordered[1..], ordered[0].after, end)
  }

  function RunsOf(changes: seq<Change>): set<Attribution> {
    set c | c in changes && Given(c.run) :: c.run
  }

  ghost predicate WindowOk(w: Window, status: string) {
    && HeaderOk(w, status)
    && (forall c | c in w.changes.value :: ChangeOk(c))
    && Chained(Sort(w.changes.value, ByTime), w.start, w.end)
  }

  lemma ByTimeIsPreorder()
    ensures TotalPreorder(ByTime)
  {
    Text.LeIsTotalOrder();
  }

  /** The three chain checks of the code: both ends and every consecutive pair. */
  predicate EndsMeet(ordered: seq<Change>, start: Field, end: Field) {
    && (ordered == [] ==> start == end)
    && (ordered != [] ==> start == ordered[0].before && end == ordered[|ordered| - 1].after)
    && (forall k | 0 <= k < |ordered| - 1 :: ordered[k].after == ordered[k + 1].before)
  }

  lemma {:induction false} ChainedIsPairwise(ordered: seq<Change>, start: Field, end: Field)
    ensures Chained(ordered, start, end) <==> EndsMeet(ordered, start, end)
  {
    if ordered != [] {
      var rest := ordered[1..];
      ChainedIsPairwise(rest, ordered[0].after, end);
      if EndsMeet(ordered, start, end) {
        forall k | 0 <= k < |rest| - 1 ensures rest[k].after == rest[k + 1].before {
          assert ordered[k + 1].after == ordered[k + 1 + 1].before;
        }
        if rest != [] {
          assert ordered[0].after == ordered[0 + 1].before;
        }
      }
      if start == ordered[0].before && EndsMeet(rest, ordered[0].after, end) {
        forall k | 0 <= k < |ordered| - 1 ensures ordered[k].after == ordered[k + 1].before {
          if k > 0 {
            assert rest[k - 1].after == rest[k - 1 + 1].before;
          }
        }
      }
    }
  }

  /** The validator: the runs it attributes, or nothing when the window is refused. */
  method ValidateWindow(window: Option<Window>, status: string) returns (r: Option<set<Attribution>>)
    ensures window.None? ==> r == if status == COMMITTED then None else Some({})
    ensures window.Some? ==> (r.Some? <==> WindowOk(window.value, status))
    ensures window.Some? && r.Some? ==> r.value == RunsOf(window.value.changes.value)
  {
    if window.None? {
      return if status == COMMITTED then None else Some({});
    }
    var w := window.value;
    if !HeaderOk(w, status) {
      return None;
    }
    var changes := w.changes.value;
    var attributedRuns: set<Attribution> := {};
    var ordered: seq<Change> := [];
    for index := 0 to |changes|
      invariant forall c | c in changes[..index] :: ChangeOk(c)
      invariant ordered == changes[..index]
      invariant attributedRuns == RunsOf(changes[..index])
    {
      var change := changes[index];
      assert changes[..index + 1] == changes[..index] + [change];
      if !ChangeOk(change) {
        assert change in changes;
        return None;
      }
      if !Given(change.cause) {
        attributedRuns := attributedRuns + {change.run};
      }
      ordered := ordered + [change];
    }
    assert changes[..|changes|] == changes;
    ordered := Sort(ordered, ByTime);
    ChainedIsPairwise(ordered, w.start, w.end);
    if ordered != [] {
      if w.start != ordered[0].before || w.end != ordered[|ordered| - 1].after {
        return None;
      }
      for k := 0 to |ordered| - 1
        invariant forall i | 0 <= i < k :: ordered[i].after == ordered[i + 1].before
      {
        if ordered[k].after != ordered[k + 1].before {
          return None;
        }
      }
    } else if w.start != w.end {
      return None;
    }
    return Some(attributedRuns);
  }

  // ---- what an admitted window proves -------------------------------------------------------

  /** Every change that moves the runtime is attributed to a run the validator returns. */
  lemma MovesAreAttributed(w: Window, status: string, c: Change)
    requires WindowOk(w, status) && c in w.changes.value && c.before != c.after
    ensures Given(c.run) && c.run in RunsOf(w.changes.value)
  {
    assert ChangeOk(c);
  }

  lemma {:induction false} ChainSplits(a: seq<Change>, b: seq<Change>, start: Field, end: Field)
    ensures Chained(a + b, start, end)
      <==> exists m :: Chained(a, start, m) && Chained(b, m, end)
  {
    if a == [] {
      assert a + b == b;
      if Chained(a + b, start, end) {
        assert Chained(a, start, start) && Chained(b, start, end);
      }
    } else {
      assert (a + b)[0] == a[0] && (a + b)[1..] == a[1..] + b;
      ChainSplits(a[1..], b, a[0].after, end);
      if start == a[0].before {
        forall m ensures Chained(a, start, m) <==> Chained(a[1..], a[0].after, m) {}
      }
    }
  }

  lemma {:induction false} ChainEndsOnce(a: seq<Change>, start: Field, m: Field, n: Field)
    requires Chained(a, start, m) && Chained(a, start, n)
    ensures m == n
  {
    if a != [] {
      ChainEndsOnce(a[1..], a[0].after, m, n);
    }
  }

  lemma {:induction false} ChainEnd(a: seq<Change>, start: Field, m: Field)
    requires a != [] && Chained(a, start, m)
    ensures start == a[0].before && m == a[|a| - 1].after
  {
    if |a| > 1 {
      ChainEnd(a[1..], a[0].after, m);
    }
  }

  /** With its middle removed, a chain holds exactly when the middle moved nothing. */
  lemma ChainWithoutMiddle(a: seq<Change>, gap: seq<Change>, b: seq<Change>, start: Field, end: Field)
    requires gap != [] && Chained(a + gap + b, start, end)
    ensures Chained(a + b, start, end) <==> gap[0].before == gap[|gap| - 1].after
  {
    ChainSplits(a + gap, b, start, end);
    var n :| Chained(a + gap, start, n) && Chained(b, n, end);
    ChainSplits(a, gap, start, n);
    var m :| Chained(a, start, m) && Chained(gap, m, n);
    ChainEnd(gap, m, n);
    ChainSplits(a, b, start, end);
    if k :| Chained(a, start, k) && Chained(b, k, end) {
      ChainEndsOnce(a, start, m, k);
      ChainStartsOnce(b, n, k, end);
    }
  }

  lemma {:induction false} ChainStartsOnce(b: seq<Change>, m: Field, n: Field, end: Field)
    requires Chained(b, m, end) && Chained(b, n, end)
    ensures m == n
  {
  }

  // ---- omission ----------------------------------------------------------------------------

  /** A change that happened, and whether the source recorded it. */
  datatype Happened = Happened(change: Change, recorded: bool)

  function Recorded(h: Happened): Option<Change> {
    if h.recorded then Some(h.change) else None
  }

  function Everything(h: Happened): Option<Change> {
    Some(h.change)
  }

  predicate HappenedByTime(g: Happened, h: Happened) {
    ByTime(g.change, h.change)
  }

  /** `[i, j)` is a longest stretch of changes that were all lost. */
  predicate LostStretch(all: seq<Happened>, i: nat, j: nat) {
    && i < j <= |all|
    && (forall k | i <= k < j :: !all[k].recorded)
    && (i == 0 || all[i - 1].recorded)
    && (j == |all| || all[j].recorded)
  }

  predicate MovedNothing(all: seq<Happened>, i: nat, j: nat)
    requires i < j <= |all|
  {
    all[i].change.before == all[j - 1].change.after
  }

  /** Every longest lost stretch that starts at `from` or later moved nothing. */
  ghost predicate LossesMovedNothing(all: seq<Happened>, from: nat) {
    forall i: nat, j: nat | from <= i && LostStretch(all, i, j) :: MovedNothing(all, i, j)
  }

  /** The runtime just before change `k`, or at the end. */
  function RuntimeAt(all: seq<Happened>, k: nat, end: Field): Field
    requires k <= |all|
  {
    if k < |all| then all[k].change.before else end
  }

  /** The true changes form a chain. */
  predicate TrulyChained(all: seq<Happened>, end: Field) {
    forall k: nat | k < |all| :: all[k].change.after == RuntimeAt(all, k + 1, end)
  }

  lemma TrueChain(all: seq<Happened>, start: Field, end: Field)
    requires Chained(FilterMap(all, Everything), start, end)
    ensures TrulyChained(all, end) && RuntimeAt(all, 0, end) == start
  {
    var changes := FilterMap(all, Everything);
    FilterMapKeepsAll(all, Everything);
    ChainedIsPairwise(changes, start, end);
    forall k: nat | k < |all| ensures all[k].change.after == RuntimeAt(all, k + 1, end) {
      assert changes[k] == all[k].change;
      if k + 1 < |all| {
        assert changes[k].after == changes[k + 1].before;
      }
    }
  }

  /** Changes `[from, k)` are pending: all lost, with nothing lost just before them. */
  predicate Pending(all: seq<Happened>, from: nat, k: nat) {
    && from <= k <= |all|
    && (forall i | from <= i < k :: !all[i].recorded)
    && (from == 0 || all[from - 1].recorded)
  }

  /** With nothing pending left to close, only later stretches matter. */
  lemma StretchClosed(all: seq<Happened>, from: nat, k: nat)
    requires Pending(all, from, k) && (k < |all| ==> all[k].recorded)
    ensures LossesMovedNothing(all, from) <==> (from == k || MovedNothing(all, from, k)) && LossesMovedNothing(all, k)
  {
    assert from < k ==> LostStretch(all, from, k);
    forall i: nat, j: nat | from <= i && LostStretch(all, i, j) ensures k <= i || (i == from && j == k) {
    }
  }

  lemma NoStretchAt(all: seq<Happened>, k: nat)
    requires k < |all| && all[k].recorded
    ensures LossesMovedNothing(all, k) <==> LossesMovedNothing(all, k + 1)
  {
  }

  /**
   * What was recorded from `k` on continues the runtime before the pending losses exactly when
   * losses moved nothing.
   */
  lemma {:induction false} RecordedChain(all: seq<Happened>, from: nat, k: nat, end: Field)
    requires TrulyChained(all, end) && Pending(all, from, k)
    ensures Chained(FilterMap(all[k..], Recorded), RuntimeAt(all, from, end), end) <==> LossesMovedNothing(all, from)
    decreases |all| - k
  {
    hide FilterMap, LossesMovedNothing, Chained, TrulyChained, MovedNothing, RuntimeAt;
    if k == |all| {
      NothingRecordedAfter(all, from, k, end);
    } else if !all[k].recorded {
      LostNext(all, k);
      RecordedChain(all, from, k + 1, end);
    } else {
      RecordedNext(all, from, k, end);
      StretchClosed(all, from, k);
      NoStretchAt(all, k);
      RecordedChain(all, k + 1, k + 1, end);
    }
  }

  lemma LostNext(all: seq<Happened>, k: nat)
    requires k < |all| && !all[k].recorded
    ensures FilterMap(all[k..], Recorded) == FilterMap(all[k + 1..], Recorded)
  {
    FilterMapFirst(all[k], all[k + 1..], Recorded);
    assert all[k..] == [all[k]] + all[k + 1..];
  }

  lemma NothingRecordedAfter(all: seq<Happened>, from: nat, k: nat, end: Field)
    requires TrulyChained(all, end) && Pending(all, from, k) && k == |all|
    ensures Chained(FilterMap(all[k..], Recorded), RuntimeAt(all, from, end), end) <==> LossesMovedNothing(all, from)
  {
    assert all[k..] == [];
    StretchClosed(all, from, k);
    assert from < k ==> all[k - 1].change.after == RuntimeAt(all, k - 1 + 1, end);
  }

  lemma RecordedNext(all: seq<Happened>, from: nat, k: nat, end: Field)
    requires TrulyChained(all, end) && Pending(all, from, k) && k < |all| && all[k].recorded
    ensures Chained(FilterMap(all[k..], Recorded), RuntimeAt(all, from, end), end)
      <==>
        && (from == k || MovedNothing(all, from, k))
        && Chained(FilterMap(all[k + 1..], Recorded), RuntimeAt(all, k + 1, end), end)
  {
    FilterMapFirst(all[k], all[k + 1..], Recorded);
    assert all[k..] == [all[k]] + all[k + 1..];
    hide FilterMap;
    var later := FilterMap(all[k + 1..], Recorded);
    assert FilterMap(all[k..], Recorded) == [all[k].change] + later;
    assert ([all[k].change] + later)[1..] == later;
    assert from < k ==> all[k - 1].change.after == RuntimeAt(all, k - 1 + 1, end);
  }

  /**
   * Omission is detected: when the rows of an admitted window are what happened, in whatever
   * order, a source that lost any of them is refused exactly when some stretch it lost, in time
   * order, moved the runtime.
   */
  lemma OmissionDetected(w: Window, status: string, all: seq<Happened>)
    requires WindowOk(w, status) && w.changes.value == FilterMap(all, Everything)
    ensures WindowOk(w.(changes := Some(FilterMap(all, Recorded))), status)
      <==> LossesMovedNothing(Sort(all, HappenedByTime), 0)
  {
    var ordered := Sort(all, HappenedByTime);
    ByTimeIsPreorder();
    SortFiltered(all, Everything, HappenedByTime, ByTime);
    SortFiltered(all, Recorded, HappenedByTime, ByTime);
    TrueChain(ordered, w.start, w.end);
    RecordedChain(ordered, 0, 0, w.end);
    assert ordered[0..] == ordered;
    forall c | c in FilterMap(all, Recorded) ensures ChangeOk(c) {
      FilterMapMembers(all, Recorded, c);
      var h :| h in all && Recorded(h) == Some(c);
      FilterMapMembers(all, Everything, c);
      assert Everything(h) == Some(c);
    }
  }

  /** A stretch of the time order is lost, and the rest is on record in some order. */
  lemma StretchOmitted(w: Window, status: string, i: nat, j: nat, remaining: seq<Change>)
    requires WindowOk(w, status)
    requires i < j <= |Sort(w.changes.value, ByTime)|
    requires
      var ordered := Sort(w.changes.value, ByTime);
      Sort(remaining, ByTime) == ordered[..i] + ordered[j..]
    ensures
      var ordered := Sort(w.changes.value, ByTime);
      WindowOk(w.(changes := Some(remaining)), status) <==> ordered[i].before == ordered[j - 1].after
  {
    hide Sort, Chained, ByTime, ChangeOk, SourceOk, Text.Le;
    var changes := w.changes.value;
    var ordered := Sort(changes, ByTime);
    var gap := ordered[i..j];
    assert ordered == ordered[..i] + gap + ordered[j..];
    ChainWithoutMiddle(ordered[..i], gap, ordered[j..], w.start, w.end);
    SortKeeps(changes, ByTime);
    SortKeeps(remaining, ByTime);
    MembersAgree(changes, ordered);
    MembersAgree(remaining, ordered[..i] + ordered[j..]);
    forall c | c in remaining ensures ChangeOk(c) {
      assert c in ordered[..i] + ordered[j..];
      assert c in ordered;
    }
  }

  /** In particular for one stretch cut out of the list in time order. */
  lemma OmissionFromOrderedLog(w: Window, status: string, i: nat, j: nat)
    requires WindowOk(w, status)
    requires i < j <= |Sort(w.changes.value, ByTime)|
    ensures
      var ordered := Sort(w.changes.value, ByTime);
      WindowOk(w.(changes := Some(ordered[..i] + ordered[j..])), status) <==> ordered[i].before == ordered[j - 1].after
  {
    var ordered := Sort(w.changes.value, ByTime);
    var remaining := ordered[..i] + ordered[j..];
    ByTimeIsPreorder();
    SortSorts(w.changes.value, ByTime);
    SortIsIdentityOnSorted(remaining, ByTime);
    StretchOmitted(w, status, i, j, remaining);
  }

  // ---- the window's bounds ------------------------------------------------------------------

  /** The change was recorded between the window's bounds. */
  predicate Inside(w: Window, c: Change) {
    && w.from.Some? && w.to.Some? && c.observedAt.Some?
    && Text.Le(w.from.value, c.observedAt.value) && Text.Le(c.observedAt.value, w.to.value)
  }

  /** The first change comes no earlier than the window opens, the last no later than it closes. */
  predicate OpensAndCloses(w: Window, ordered: seq<Change>)
    requires ordered != []
  {
    var first, last := ordered[0], ordered[|ordered| - 1];
    && w.from.Some? && w.to.Some? && first.observedAt.Some? && last.observedAt.Some?
    && Text.Le(w.from.value, first.observedAt.value) && Text.Le(last.observedAt.value, w.to.value)
  }

  predicate OpensAndClosesAround(w: Window)
    requires w.changes.Some?
  {
    var ordered := Sort(w.changes.value, ByTime);
    ordered != [] ==> OpensAndCloses(w, ordered)
  }

  lemma Between(w: Window, first: Change, c: Change, last: Change)
    requires Stated(first.observedAt) && Stated(c.observedAt) && Stated(last.observedAt)
    requires ByTime(first, c) && ByTime(c, last) && w.from.Some? && w.to.Some?
    requires Text.Le(w.from.value, first.observedAt.value) && Text.Le(last.observedAt.value, w.to.value)
    ensures Inside(w, c)
  {
    Text.LeTransitive(w.from.value, first.observedAt.value, c.observedAt.value);
    Text.LeTransitive(c.observedAt.value, last.observedAt.value, w.to.value);
  }

  lemma InsideByEnds(w: Window, ordered: seq<Change>)
    requires Sorted(ordered, ByTime) && ordered != [] && OpensAndCloses(w, ordered)
    requires forall c | c in ordered :: Stated(c.observedAt)
    ensures forall c | c in ordered :: Inside(w, c)
  {
    hide Text.Le, Inside;
    var first, last := ordered[0], ordered[|ordered| - 1];
    forall k | 0 <= k < |ordered| ensures Inside(w, ordered[k]) {
      Text.LeTotal(ordered[k].observedAt.value, ordered[k].observedAt.value);
      assert ByTime(first, ordered[k]) && ByTime(ordered[k], last);
      Between(w, first, ordered[k], last);
    }
  }

  lemma EndsByInside(w: Window, ordered: seq<Change>)
    requires ordered != [] && forall c | c in ordered :: Inside(w, c)
    ensures OpensAndCloses(w, ordered)
  {
    hide Text.Le;
    assert ordered[0] in ordered && ordered[|ordered| - 1] in ordered;
  }

  lemma TimesAreStated(w: Window, status: string)
    requires WindowOk(w, status)
    ensures w.changes.Some? && forall c | c in w.changes.value :: Stated(c.observedAt)
  {
  }

  /** All changes of an admitted window lie inside it exactly when the first and the last do. */
  lemma BoundedExactly(w: Window, status: string)
    requires WindowOk(w, status)
    ensures (forall c | c in w.changes.value :: Inside(w, c)) <==> OpensAndClosesAround(w)
  {
    TimesAreStated(w, status);
    hide WindowOk, Text.Le, ByTime, Sort, Sorted, TotalPreorder, Inside, OpensAndCloses;
    var ordered := Sort(w.changes.value, ByTime);
    ByTimeIsPreorder();
    SortSorts(w.changes.value, ByTime);
    MembersAgree(w.changes.value, ordered);
    if ordered != [] {
      if OpensAndCloses(w, ordered) {
        InsideByEnds(w, ordered);
      }
      if forall c | c in ordered :: Inside(w, c) {
        EndsByInside(w, ordered);
      }
    }
  }

  // ---- the controller runs of a receipt ------------------------------------------------------

  datatype Cycle = Cycle(
    cycle: Field, runId: Field, headCommit: Field, observedAt: Field, observedBy: Field, outcome: Field)

  predicate CycleOk(c: Cycle) {
    && Stated(c.cycle) && Stated(c.runId) && Stated(c.headCommit)
    && Stated(c.observedAt) && Stated(c.observedBy) && Stated(c.outcome)
    && c.cycle.value in CYCLES && c.outcome.value == "success"
    && Text.HexDigits(c.headCommit.value, 40)
  }

  function RunIds(cycles: seq<Cycle>): set<string> {
    set c | c in cycles && Stated(c.runId) :: c.runId.value
  }

  function CycleNames(cycles: seq<Cycle>): set<string> {
    set c | c in cycles && Stated(c.cycle) :: c.cycle.value
  }

  ghost predicate CyclesOk(cycles: Option<seq<Cycle>>) {
    && cycles.Some? && |cycles.value| >= 2
    && (forall c | c in cycles.value :: CycleOk(c))
    && CycleNames(cycles.value) == CYCLES
    && |RunIds(cycles.value)| >= 2
  }

  method ValidateCycles(cycles: Option<seq<Cycle>>) returns (r: Option<set<string>>)
    ensures r.Some? <==> CyclesOk(cycles)
    ensures r.Some? ==> r.value == RunIds(cycles.value)
  {
    if cycles.None? || |cycles.value| < 2 {
      return None;
    }
    var rows := cycles.value;
    var seenCycles: set<string>, runIds: set<string> := {}, {};
    for index := 0 to |rows|
      invariant forall c | c in rows[..index] :: CycleOk(c)
      invariant seenCycles == CycleNames(rows[..index])
      invariant runIds == RunIds(rows[..index])
    {
      var cycle := rows[index];
      assert rows[..index + 1] == rows[..index] + [cycle];
      if !CycleOk(cycle) {
        assert cycle in rows;
        return None;
      }
      seenCycles := seenCycles + {cycle.cycle.value};
      runIds := runIds + {cycle.runId.value};
    }
    assert rows[..|rows|] == rows;
    if seenCycles != CYCLES || |runIds| < 2 {
      return None;
    }
    return Some(runIds);
  }

  /** Every cited run is among the attributed ones. */
  predicate AllSeen(cited: set<string>, attributed: set<Attribution>) {
    forall x | x in cited :: Named(x) in attributed
  }

  /** The parts of a receipt about controller runs and the displacement window. */
  method ValidateRuns(cycles: Option<seq<Cycle>>, window: Option<Window>, status: string) returns (ok: bool)
    ensures ok <==>
      && CyclesOk(cycles)
      && (window.None? ==> status != COMMITTED)
      && (window.Some? ==> WindowOk(window.value, status))
      && (window.Some? ==> AllSeen(RunIds(cycles.value), RunsOf(window.value.changes.value)) || status != COMMITTED)
  {
    var runs := ValidateCycles(cycles);
    if runs.None? {
      return false;
    }
    var attributed := ValidateWindow(window, status);
    if attributed.None? {
      return false;
    }
    if attributed.value != {} || window.Some? {
      var outside := set x | x in runs.value && Named(x) !in attributed.value;
      assert outside == {} <==> AllSeen(runs.value, attributed.value) by {
        if outside == {} {
          forall x | x in runs.value ensures Named(x) in attributed.value {
            assert x !in outside;
          }
        }
      }
      if outside != {} && status == COMMITTED {
        return false;
      }
    }
    return true;
  }

  /**
   * The window shows at least two changes made by different controller runs, both cited by the
   * receipt. They were seen inside the window if its bounds lie around its first and last change.
   */
  lemma CommittedRunsWereSeen(cycles: Option<seq<Cycle>>, w: Window) returns (c: Change, d: Change)
    requires CyclesOk(cycles) && WindowOk(w, COMMITTED)
    requires AllSeen(RunIds(cycles.value), RunsOf(w.changes.value))
    ensures w.verdict == Some("displaced")
    ensures c in w.changes.value && d in w.changes.value
    ensures c.run.Named? && d.run.Named? && c.run != d.run
    ensures c.run.name in RunIds(cycles.value) && d.run.name in RunIds(cycles.value)
    ensures OpensAndClosesAround(w) ==> Inside(w, c) && Inside(w, d)
  {
    var runs := RunIds(cycles.value);
    var x :| x in runs;
    var others := runs - {x};
    assert |others| == |runs| - 1;
    var y :| y in others;
    assert Named(x) in RunsOf(w.changes.value) && Named(y) in RunsOf(w.changes.value);
    c :| c in w.changes.value && Given(c.run) && c.run == Named(x);
    d :| d in w.changes.value && Given(d.run) && d.run == Named(y);
    BoundedExactly(w, COMMITTED);
  }

  /** A deploy and a redeploy of one commit by the runs `1` and `2`. */
  function TwoCycles(commit: string): seq<Cycle> {
    [Cycle(Some("deploy"), Some("1"), Some(commit), Some("t1"), Some("ci"), Some("success")),
     Cycle(Some("redeploy"), Some("2"), Some(commit), Some("t2"), Some("ci"), Some("success"))]
  }

  /** A window over the first day whose only changes were recorded after it closed. */
  function LateWindow(): Window {
    Window(
      Some("1"), Some("2"), Some("a"), Some("c"), Some("displaced"),
      Some(EventSource(Some("daemon"), Some("event_stream"), Some("complete"))),
      Some([Change(Some("3"), Some("a"), Some("b"), Named("1"), Absent, {}),
            Change(Some("4"), Some("b"), Some("c"), Named("2"), Absent, {})]),
      {})
  }

  /** A committed receipt passes although every change it rests on was recorded after its window closed. */
  lemma CommittedRunsMayBeSeenOutside(commit: string)
    requires Text.HexDigits(commit, 40)
    ensures
      var (cycles, w) := (TwoCycles(commit), LateWindow());
      && CyclesOk(Some(cycles)) && WindowOk(w, COMMITTED) && AllSeen(RunIds(cycles), RunsOf(w.changes.value))
      && forall c | c in w.changes.value :: Text.Lt(w.to.value, c.observedAt.value) && !Inside(w, c)
  {
    OneHeadCommitSuffices(commit);
    LateWindowIsChained();
    LateChangesAreLate(commit);
    hide Chained, Sort, ByTime, CyclesOk;
  }

  lemma LateWindowIsChained()
    ensures var w := LateWindow(); Chained(Sort(w.changes.value, ByTime), w.start, w.end)
  {
    var w := LateWindow();
    var changes := w.changes.value;
    assert ByTime(changes[0], changes[1]);
    SortIsIdentityOnSorted(changes, ByTime);
    assert Chained(changes[2..], Some("c"), w.end);
    assert Chained(changes[1..], Some("b"), w.end);
  }

  lemma LateChangesAreLate(commit: string)
    ensures
      var w := LateWindow();
      && AllSeen(RunIds(TwoCycles(commit)), RunsOf(w.changes.value))
      && forall c | c in w.changes.value ::
        ChangeOk(c) && Text.Lt(w.to.value, c.observedAt.value) && !Inside(w, c)
  {
    var changes, cycles := LateWindow().changes.value, TwoCycles(commit);
    assert changes[0] in changes && changes[1] in changes && cycles[0] in cycles && cycles[1] in cycles;
    assert RunsOf(changes) == {Named("1"), Named("2")};
    assert RunIds(cycles) == {"1", "2"};
  }

  // ---- head commits ----------------------------------------------------------------------------

  /** The same runs, all of one head commit. */
  function WithCommit(cycles: seq<Cycle>, commit: string): (r: seq<Cycle>)
    ensures |r| == |cycles|
    ensures forall i | 0 <= i < |r| :: r[i] == cycles[i].(headCommit := Some(commit))
  {
    seq(|cycles|, i requires 0 <= i < |cycles| => cycles[i].(headCommit := Some(commit)))
  }

  function HeadCommits(cycles: seq<Cycle>): set<Field> {
    set c | c in cycles :: c.headCommit
  }

  predicate CommitsAreWellFormed(cycles: seq<Cycle>) {
    forall c | c in cycles :: Stated(c.headCommit) && Text.HexDigits(c.headCommit.value, 40)
  }

  lemma SameNames(cycles: seq<Cycle>, commit: string)
    ensures RunIds(WithCommit(cycles, commit)) == RunIds(cycles)
    ensures CycleNames(WithCommit(cycles, commit)) == CycleNames(cycles)
  {
    var other := WithCommit(cycles, commit);
    forall c | c in cycles
      ensures Stated(c.runId) ==> c.runId.value in RunIds(other)
      ensures Stated(c.cycle) ==> c.cycle.value in CycleNames(other)
    {
      var i :| 0 <= i < |cycles| && cycles[i] == c;
      assert other[i] in other;
    }
    forall c | c in other
      ensures Stated(c.runId) ==> c.runId.value in RunIds(cycles)
      ensures Stated(c.cycle) ==> c.cycle.value in CycleNames(cycles)
    {
      var i :| 0 <= i < |other| && other[i] == c;
      assert cycles[i] in cycles;
    }
  }

  /**
   * Two runs are required to differ, two head commits are not: head commits are checked for their
   * form and decide nothing else. Whatever passes also passes with a single commit throughout.
   */
  lemma HeadCommitsDecideNothing(cycles: seq<Cycle>, commit: string)
    requires CommitsAreWellFormed(cycles) && Text.HexDigits(commit, 40)
    ensures CyclesOk(Some(cycles)) <==> CyclesOk(Some(WithCommit(cycles, commit)))
    ensures CyclesOk(Some(cycles)) ==> HeadCommits(WithCommit(cycles, commit)) == {Some(commit)}
  {
    hide RunIds, CycleNames, CycleOk, CommitsAreWellFormed, Text.HexDigits, HeadCommits;
    SameNames(cycles, commit);
    SameVerdicts(cycles, commit);
    if cycles != [] {
      OneCommitOnly(cycles, commit);
    }
  }

  lemma SameVerdicts(cycles: seq<Cycle>, commit: string)
    requires CommitsAreWellFormed(cycles) && Text.HexDigits(commit, 40)
    ensures (forall c | c in cycles :: CycleOk(c)) <==> (forall c | c in WithCommit(cycles, commit) :: CycleOk(c))
  {
    var other := WithCommit(cycles, commit);
    assert commit != "";
    forall i | 0 <= i < |cycles| ensures CycleOk(cycles[i]) <==> CycleOk(other[i]) {
      assert cycles[i] in cycles;
    }
    hide CycleOk;
    if forall c | c in other :: CycleOk(c) {
      forall i | 0 <= i < |cycles| ensures CycleOk(cycles[i]) {
        assert other[i] in other;
      }
    }
    if forall c | c in cycles :: CycleOk(c) {
      forall i | 0 <= i < |cycles| ensures CycleOk(other[i]) {
        assert cycles[i] in cycles;
      }
    }
  }

  lemma OneCommitOnly(cycles: seq<Cycle>, commit: string)
    requires cycles != []
    ensures HeadCommits(WithCommit(cycles, commit)) == {Some(commit)}
  {
    var other := WithCommit(cycles, commit);
    assert other[0] in other;
  }

  /** One commit deployed twice is enough. */
  lemma OneHeadCommitSuffices(commit: string)
    requires Text.HexDigits(commit, 40)
    ensures CyclesOk(Some(TwoCycles(commit))) && HeadCommits(TwoCycles(commit)) == {Some(commit)}
  {
    var rows := TwoCycles(commit);
    assert rows[0] in rows && rows[1] in rows;
    assert RunIds(rows) == {"1", "2"};
    assert CycleNames(rows) == CYCLES;
    HeadCommitsDecideNothing(rows, commit);
    assert WithCommit(rows, commit) == rows;
  }
}
