/** The canonical envelope constructor: every recorded binding is computed from real bytes. */
module BundleManifest {
  import opened Wrappers
  import opened Sorting
  import opened BundleModel
  import PackageName
  import Text

  // ---- what the constructor accepts --------------------------------------------------------

  predicate ArtifactOk(a: Artifact) {
    IsBare(a.filename) && a.package != "" && PackageName.Normalise(a.package) == Some(a.package)
  }

  /** Bare file names under normalised packages, different whatever their case. */
  ghost predicate PlanOk(plan: Plan, fold: Fold) {
    && IsSha256(plan.digest) && plan.artifacts != []
    && PlanRowsOk(plan.artifacts, fold)
    && |plan.artifacts| <= MAX_MEMBER_COUNT
  }

  function SizesOf(acquired: map<string, Bytes>): map<string, nat> {
    map f | f in acquired :: |acquired[f]|
  }

  predicate FileOk(a: Artifact, acquired: map<string, Bytes>, sha: Sha)
    requires a.filename in acquired
  {
    sha(acquired[a.filename]) == a.sha256 && 0 < |acquired[a.filename]| <= MAX_MEMBER_BYTES
  }

  /** Exactly the planned files were acquired, each with the planned digest and within the caps. */
  ghost predicate AcquiredOk(plan: Plan, acquired: map<string, Bytes>, sha: Sha) {
    && acquired.Keys == Filenames(plan)
    && (forall a | a in plan.artifacts :: FileOk(a, acquired, sha))
    && SumOver(Text.InOrder(acquired.Keys), SizesOf(acquired)) <= MAX_TOTAL_UNCOMPRESSED_BYTES
  }

  /** One archive entry against the acquired file of its name. */
  predicate EntryMatches(e: Entry, acquired: map<string, Bytes>, sha: Sha)
    requires e.name in acquired
  {
    && !IsSymlinkMode(e.mode) && e.fileSize == |acquired[e.name]| && RatioOk(e)
    && !e.corrupt && sha(e.stream) == sha(acquired[e.name])
  }

  /** The archive holds the acquired files, once each, and nothing else. */
  predicate ArchiveOk(archive: Archive, acquired: map<string, Bytes>, sha: Sha) {
    && archive.infos.Some?
    && var infos := archive.infos.value;
    && DistinctNames(infos) && NameSet(infos) == acquired.Keys
    && forall e | e in infos && e.name in acquired :: EntryMatches(e, acquired, sha)
  }

  ghost predicate Accepts(
      plan: Plan, acquired: map<string, Bytes>, archive: Archive, run: RunRecord, schemaVersion: int, sha: Sha,
      fold: Fold)
  {
    && schemaVersion == MANIFEST_SCHEMA_VERSION
    && PlanOk(plan, fold) && AcquiredOk(plan, acquired, sha) && ArchiveOk(archive, acquired, sha)
    && RunOk(Some(run))
  }

  /** The record of an acquired file of a planned artifact. */
  function RecordOf(a: Artifact, acquired: map<string, Bytes>, sha: Sha): MemberRecord
    requires a.filename in acquired
  {
    MemberRecord(Some(|acquired[a.filename]|), Some(sha(acquired[a.filename])), Some(a.package))
  }

  /** `members` records every planned artifact's acquired bytes and nothing else. */
  ghost predicate Records(members: map<string, MemberRecord>, plan: Plan, acquired: map<string, Bytes>, sha: Sha)
    requires acquired.Keys == Filenames(plan)
  {
    && members.Keys == Filenames(plan)
    && forall a | a in plan.artifacts :: members[a.filename] == RecordOf(a, acquired, sha)
  }

  // ---- the loops -----------------------------------------------------------------------------

  ghost predicate FoldedApart(artifacts: seq<Artifact>, fold: Fold) {
    forall i, j | 0 <= i < j < |artifacts| :: fold(artifacts[i].filename) != fold(artifacts[j].filename)
  }

  function FoldedNames(artifacts: seq<Artifact>, fold: Fold): set<string> {
    set a | a in artifacts :: fold(a.filename)
  }

  lemma FoldNext(artifacts: seq<Artifact>, k: nat, fold: Fold)
    requires k < |artifacts| && FoldedApart(artifacts[..k], fold)
    ensures FoldedApart(artifacts[..k + 1], fold) <==>
      fold(artifacts[k].filename) !in FoldedNames(artifacts[..k], fold)
    ensures FoldedApart(artifacts, fold) ==> FoldedApart(artifacts[..k + 1], fold)
    ensures FoldedNames(artifacts[..k + 1], fold) == FoldedNames(artifacts[..k], fold) + {fold(artifacts[k].filename)}
  {
    var seen, next := artifacts[..k], artifacts[..k + 1];
    assert next == seen + [artifacts[k]];
    if FoldedApart(next, fold) {
      forall a | a in seen ensures fold(a.filename) != fold(artifacts[k].filename) {
        var i :| 0 <= i < k && seen[i] == a;
        assert next[i] == a && next[k] == artifacts[k];
      }
    }
    if fold(artifacts[k].filename) !in FoldedNames(seen, fold) {
      forall i, j | 0 <= i < j < |next| ensures fold(next[i].filename) != fold(next[j].filename) {
        if j < k {
          assert seen[i] == next[i] && seen[j] == next[j];
        } else {
          assert seen[i] in seen;
        }
      }
    }
  }

  lemma FoldedApartNames(artifacts: seq<Artifact>, fold: Fold)
    requires FoldedApart(artifacts, fold)
    ensures forall i, j | 0 <= i < j < |artifacts| :: artifacts[i].filename != artifacts[j].filename
  {
  }

  ghost predicate PlanRowsOk(artifacts: seq<Artifact>, fold: Fold) {
    (forall a | a in artifacts :: ArtifactOk(a)) && FoldedApart(artifacts, fold)
  }

  lemma PlanNext(artifacts: seq<Artifact>, k: nat, byFilename: map<string, Artifact>, fold: Fold)
    requires k < |artifacts| && PlanRowsOk(artifacts[..k], fold) && Indexes(byFilename, artifacts[..k])
    ensures
      var (seen, next, a) := (artifacts[..k], artifacts[..k + 1], artifacts[k]);
      && (PlanRowsOk(next, fold) <==> ArtifactOk(a) && fold(a.filename) !in FoldedNames(seen, fold))
      && (PlanRowsOk(artifacts, fold) ==> PlanRowsOk(next, fold))
      && FoldedNames(next, fold) == FoldedNames(seen, fold) + {fold(a.filename)}
      && (a.filename in byFilename ==> fold(a.filename) in FoldedNames(seen, fold))
      && (a.filename !in byFilename ==> Indexes(byFilename[a.filename := a], next))
  {
    hide ArtifactOk, Indexes;
    FoldNext(artifacts, k, fold);
    TakeNext(artifacts, k);
    IndexNext(artifacts, k, byFilename);
  }

  /** The loop over the plan: file names and packages checked, duplicates refused whatever their case. */
  method ReadPlan(plan: Plan, fold: Fold) returns (ok: bool, byFilename: map<string, Artifact>)
    ensures ok <==> PlanRowsOk(plan.artifacts, fold)
    ensures ok ==> Indexes(byFilename, plan.artifacts) && |byFilename| == |plan.artifacts|
  {
    hide ArtifactOk, PlanRowsOk, FoldedNames, Indexes;
    var artifacts := plan.artifacts;
    byFilename := map[];
    var seenLower: map<string, string> := map[];
    TakeAll(artifacts);
    NothingRead(fold);
    for k := 0 to |artifacts|
      invariant PlanRowsOk(artifacts[..k], fold)
      invariant seenLower.Keys == FoldedNames(artifacts[..k], fold)
      invariant Indexes(byFilename, artifacts[..k]) && |byFilename| == k
    {
      var a := artifacts[k];
      PlanNext(artifacts, k, byFilename, fold);
      if !ArtifactOk(a) {
        return false, byFilename;
      }
      if a.filename in byFilename {
        return false, byFilename;
      }
      var lowered := fold(a.filename);
      if lowered in seenLower {
        return false, byFilename;
      }
      seenLower := seenLower[lowered := a.filename];
      byFilename := byFilename[a.filename := a];
    }
    ok := true;
  }

  lemma NothingRead(fold: Fold)
    ensures PlanRowsOk([], fold) && FoldedNames([], fold) == {} && Indexes(map[], [])
  {
  }

  lemma SumGrows(names: seq<string>, k: nat, sizes: map<string, nat>)
    requires k <= |names| && forall n | n in names :: n in sizes
    ensures SumOver(names[..k], sizes) <= SumOver(names, sizes)
    decreases |names| - k
  {
    if k < |names| {
      SumGrows(names, k + 1, sizes);
      SumNext(names, k, sizes);
    } else {
      assert names[..k] == names;
    }
  }

  lemma SumNext(names: seq<string>, k: nat, sizes: map<string, nat>)
    requires k < |names| && forall n | n in names :: n in sizes
    ensures SumOver(names[..k + 1], sizes) == SumOver(names[..k], sizes) + sizes[names[k]]
  {
    assert names[..k + 1][..k] == names[..k];
  }

  /** The files measured so far are fine and recorded. */
  ghost predicate Measured(
      members: map<string, MemberRecord>, names: seq<string>, byFilename: map<string, Artifact>,
      acquired: map<string, Bytes>, sha: Sha)
    requires byFilename.Keys == acquired.Keys && forall f | f in byFilename :: byFilename[f].filename == f
  {
    && (forall f :: f in members <==> f in names)
    && forall f | f in members ::
      f in byFilename && FileOk(byFilename[f], acquired, sha) && members[f] == RecordOf(byFilename[f], acquired, sha)
  }

  lemma MeasureNext(
      members: map<string, MemberRecord>, names: seq<string>, k: nat, byFilename: map<string, Artifact>,
      acquired: map<string, Bytes>, sha: Sha)
    requires byFilename.Keys == acquired.Keys && forall f | f in byFilename :: byFilename[f].filename == f
    requires k < |names| && names[k] in byFilename && Measured(members, names[..k], byFilename, acquired, sha)
    ensures FileOk(byFilename[names[k]], acquired, sha) ==>
      Measured(members[names[k] := RecordOf(byFilename[names[k]], acquired, sha)], names[..k + 1], byFilename,
        acquired, sha)
  {
    hide FileOk, RecordOf;
    TakeNext(names, k);
  }

  /** The loop over the acquired files, in sorted order, with its running total. */
  method MeasureAcquired(byFilename: map<string, Artifact>, acquired: map<string, Bytes>, sha: Sha)
    returns (ok: bool, members: map<string, MemberRecord>)
    requires byFilename.Keys == acquired.Keys && forall f | f in byFilename :: byFilename[f].filename == f
    ensures ok <==>
      && (forall f | f in byFilename :: FileOk(byFilename[f], acquired, sha))
      && SumOver(Text.InOrder(acquired.Keys), SizesOf(acquired)) <= MAX_TOTAL_UNCOMPRESSED_BYTES
    ensures ok ==> members.Keys == byFilename.Keys
    ensures ok ==> forall f | f in byFilename :: members[f] == RecordOf(byFilename[f], acquired, sha)
  {
    hide SumOver, Measured, FileOk, RecordOf, NoDuplicates, Text.InOrder;
    members := map[];
    var names := Text.InOrder(byFilename.Keys);
    var sizes := SizesOf(acquired);
    var total := 0;
    TakeAll(names);
    NothingMeasured(byFilename, acquired, sizes, sha);
    for k := 0 to |names|
      invariant Measured(members, names[..k], byFilename, acquired, sha)
      invariant total == SumOver(names[..k], sizes) <= MAX_TOTAL_UNCOMPRESSED_BYTES
    {
      var f := names[k];
      TakeNext(names, k);
      MeasureNext(members, names, k, byFilename, acquired, sha);
      SumNext(names, k, sizes);
      SumGrows(names, k + 1, sizes);
      if !FileOk(byFilename[f], acquired, sha) {
        return false, members;
      }
      total := total + |acquired[f]|;
      if total > MAX_TOTAL_UNCOMPRESSED_BYTES {
        return false, members;
      }
      members := members[f := RecordOf(byFilename[f], acquired, sha)];
    }
    AllMeasured(members, names, byFilename, acquired, sha);
    ok := true;
  }

  lemma NothingMeasured(
      byFilename: map<string, Artifact>, acquired: map<string, Bytes>, sizes: map<string, nat>, sha: Sha)
    requires byFilename.Keys == acquired.Keys && forall f | f in byFilename :: byFilename[f].filename == f
    ensures Measured(map[], [], byFilename, acquired, sha) && SumOver([], sizes) == 0
  {
  }

  lemma AllMeasured(
      members: map<string, MemberRecord>, names: seq<string>, byFilename: map<string, Artifact>,
      acquired: map<string, Bytes>, sha: Sha)
    requires byFilename.Keys == acquired.Keys && forall f | f in byFilename :: byFilename[f].filename == f
    requires Measured(members, names, byFilename, acquired, sha) && forall f :: f in names <==> f in byFilename
    ensures members.Keys == byFilename.Keys
    ensures forall f | f in byFilename ::
      FileOk(byFilename[f], acquired, sha) && members[f] == RecordOf(byFilename[f], acquired, sha)
  {
    hide FileOk, RecordOf;
  }

  /** `getinfo`: the last entry of a name. */
  function InfoOf(infos: seq<Entry>, name: string): (r: Entry)
    requires name in NameSet(infos)
    ensures r in infos && r.name == name
  {
    if infos[|infos| - 1].name == name then infos[|infos| - 1]
    else
      assert infos == infos[..|infos| - 1] + [infos[|infos| - 1]];
      InfoOf(infos[..|infos| - 1], name)
  }

  lemma {:induction false} InfoIsTheEntry(infos: seq<Entry>, e: Entry)
    requires e in infos && DistinctNames(infos)
    ensures e.name in NameSet(infos) && InfoOf(infos, e.name) == e
  {
    var last := infos[|infos| - 1];
    var rest := infos[..|infos| - 1];
    assert infos == rest + [last];
    if e != last {
      var i :| 0 <= i < |infos| && infos[i] == e;
      assert e in rest;
      InfoIsTheEntry(rest, e);
    }
  }

  /** The archive's raw name list, its closure over the members, and every member's entry and content. */
  method CheckArchive(archive: Archive, acquired: map<string, Bytes>, members: map<string, MemberRecord>, sha: Sha)
    returns (ok: bool)
    requires members.Keys == acquired.Keys
    requires forall f | f in members ::
      members[f].size == Some(|acquired[f]|) && members[f].sha256 == Some(sha(acquired[f]))
    ensures ok <==> ArchiveOk(archive, acquired, sha)
  {
    hide RatioOk, IsSymlinkMode;
    if archive.infos.None? {
      return false;
    }
    var infos := archive.infos.value;
    if !DistinctNames(infos) || NameSet(infos) != members.Keys {
      return false;
    }
    var remaining := members.Keys;
    while remaining != {}
      invariant remaining <= members.Keys
      invariant forall f | f in members && f !in remaining :: EntryMatches(InfoOf(infos, f), acquired, sha)
    {
      var f :| f in remaining;
      var info := InfoOf(infos, f);
      var record := members[f];
      if IsSymlinkMode(info.mode) || Some(info.fileSize as int) != record.size || !RatioOk(info) {
        return false;
      }
      if info.corrupt || Some(sha(info.stream)) != record.sha256 {
        return false;
      }
      remaining := remaining - {f};
    }
    forall e | e in infos && e.name in acquired ensures EntryMatches(e, acquired, sha) {
      InfoIsTheEntry(infos, e);
    }
    return true;
  }

  lemma IndexedNames(plan: Plan, byFilename: map<string, Artifact>)
    requires Indexes(byFilename, plan.artifacts)
    ensures byFilename.Keys == Filenames(plan)
  {
  }

  lemma AcquiredNames(plan: Plan, acquired: map<string, Bytes>, sha: Sha)
    ensures AcquiredOk(plan, acquired, sha) ==> acquired.Keys == Filenames(plan)
  {
  }

  /** What holds of the table's rows holds of the plan's artifacts, and the other way round. */
  lemma ByFilenameOrByPlan(plan: Plan, byFilename: map<string, Artifact>, acquired: map<string, Bytes>, sha: Sha)
    requires Indexes(byFilename, plan.artifacts) && byFilename.Keys == Filenames(plan) == acquired.Keys
    ensures forall f | f in byFilename :: byFilename[f].filename == f
    ensures AcquiredOk(plan, acquired, sha) <==>
      && (forall f | f in byFilename :: FileOk(byFilename[f], acquired, sha))
      && SumOver(Text.InOrder(acquired.Keys), SizesOf(acquired)) <= MAX_TOTAL_UNCOMPRESSED_BYTES
  {
    hide FileOk, SumOver, Text.InOrder;
    forall a | a in plan.artifacts ensures a.filename in byFilename && byFilename[a.filename] == a {}
    if forall f | f in byFilename :: FileOk(byFilename[f], acquired, sha) {
      forall a | a in plan.artifacts ensures FileOk(a, acquired, sha) {
        assert byFilename[a.filename] == a;
      }
    }
  }

  lemma MeasuredAreRecords(
      members: map<string, MemberRecord>, plan: Plan, byFilename: map<string, Artifact>, acquired: map<string, Bytes>,
      sha: Sha)
    requires Indexes(byFilename, plan.artifacts) && members.Keys == byFilename.Keys == Filenames(plan) == acquired.Keys
    requires forall f | f in byFilename :: members[f] == RecordOf(byFilename[f], acquired, sha)
    ensures Records(members, plan, acquired, sha)
    ensures forall f | f in members ::
      members[f].size == Some(|acquired[f]|) && members[f].sha256 == Some(sha(acquired[f]))
  {
  }

  /** The constructor: a manifest exactly when everything agrees, recording what it measured. */
  method CreateBundleManifest(
      plan: Plan, acquired: map<string, Bytes>, archive: Archive, run: RunRecord, schemaVersion: int, sha: Sha,
      fold: Fold) returns (r: Option<Manifest>)
    requires YieldsSha256(sha)
    ensures r.Some? <==> Accepts(plan, acquired, archive, run, schemaVersion, sha, fold)
    ensures r.Some? ==> IsManifestOf(r.value, plan, acquired, archive, run, sha)
  {
    hide AcquiredOk, ArchiveOk, FileOk, RunOk, SumOver, PlanRowsOk, Indexes, Records, RecordOf, Filenames, IsSha256,
      Text.InOrder, SizesOf, Sorted, NoDuplicates;
    if schemaVersion != MANIFEST_SCHEMA_VERSION || !IsSha256(plan.digest) || plan.artifacts == [] {
      return None;
    }
    var planOk, byFilename := ReadPlan(plan, fold);
    if !planOk || |byFilename| > MAX_MEMBER_COUNT {
      return None;
    }
    IndexedNames(plan, byFilename);
    AcquiredNames(plan, acquired, sha);
    if byFilename.Keys != acquired.Keys {
      return None;
    }
    ByFilenameOrByPlan(plan, byFilename, acquired, sha);
    var acquiredOk, members := MeasureAcquired(byFilename, acquired, sha);
    if !acquiredOk {
      return None;
    }
    MeasuredAreRecords(members, plan, byFilename, acquired, sha);
    var archiveOk := CheckArchive(archive, acquired, members, sha);
    if !archiveOk || !RunOk(Some(run)) {
      return None;
    }
    return Some(Manifest(Some(schemaVersion), Some(plan.digest), Some(sha(archive.raw)), Some(run), Some(members)));
  }

  ghost predicate IsManifestOf(
      m: Manifest, plan: Plan, acquired: map<string, Bytes>, archive: Archive, run: RunRecord, sha: Sha)
  {
    && m.schemaVersion == Some(MANIFEST_SCHEMA_VERSION)
    && m.planDigest == Some(plan.digest)
    && m.archiveSha256 == Some(sha(archive.raw))
    && m.run == Some(run)
    && m.members.Some?
    && acquired.Keys == Filenames(plan) && Records(m.members.value, plan, acquired, sha)
  }
}
