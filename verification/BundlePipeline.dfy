/** What the producer accepts, the extractor and the publisher accept too. */
module BundlePipeline {
  import opened Wrappers
  import opened Sorting
  import opened BundleModel
  import M = BundleManifest
  import X = BundleExtraction
  import L = LocalIndex
  import Text

  /** The acquired files' bytes and the bytes the archive yields for them. */
  function Contents(acquired: map<string, Bytes>, archive: Archive): set<Bytes> {
    acquired.Values + if archive.infos.Some? then set e | e in archive.infos.value :: e.stream else {}
  }

  /** An accepted archive's entry is, byte for byte, the acquired file of its name. */
  lemma EntryIsAcquired(acquired: map<string, Bytes>, archive: Archive, sha: Sha, e: Entry)
    requires M.ArchiveOk(archive, acquired, sha) && CollisionFree(sha, Contents(acquired, archive))
    requires e in archive.infos.value
    ensures e.name in acquired && e.stream == acquired[e.name]
    ensures e.fileSize == |e.stream| && !e.corrupt && !IsSymlinkMode(e.mode) && RatioOk(e)
  {
    assert e.name in NameSet(archive.infos.value);
    assert M.EntryMatches(e, acquired, sha);
    assert acquired[e.name] in acquired.Values;
  }

  lemma NamesDistinct(infos: seq<Entry>)
    requires DistinctNames(infos)
    ensures NoDuplicates(NamesOf(infos))
    ensures forall n :: n in NamesOf(infos) <==> n in NameSet(infos)
  {
    forall n | n in NameSet(infos) ensures n in NamesOf(infos) {
      var e :| e in infos && e.name == n;
      var i :| 0 <= i < |infos| && infos[i] == e;
      assert NamesOf(infos)[i] == n;
    }
  }

  /** The archive's own order and the plan's sorted order add up to one total. */
  lemma TotalsAgree(acquired: map<string, Bytes>, archive: Archive, sha: Sha)
    requires M.ArchiveOk(archive, acquired, sha) && CollisionFree(sha, Contents(acquired, archive))
    ensures TotalSize(archive.infos.value) == SumOver(Text.InOrder(acquired.Keys), M.SizesOf(acquired))
  {
    hide Text.Le, RatioOk, IsSymlinkMode;
    var infos := archive.infos.value;
    var sizes := M.SizesOf(acquired);
    forall i | 0 <= i < |infos| ensures infos[i].name in sizes && infos[i].fileSize == sizes[infos[i].name] {
      EntryIsAcquired(acquired, archive, sha, infos[i]);
    }
    TotalSizeIsSum(infos, sizes);
    NamesDistinct(infos);
    var names := Text.InOrder(acquired.Keys);
    DistinctListings(NamesOf(infos), names);
    SumIgnoresOrder(NamesOf(infos), names, sizes);
  }

  lemma BareNameIsSafe(f: string)
    requires IsBare(f)
    ensures !("/" <= f) && !("\\" <= f) && Parts(f) == [f] && ".." !in Parts(f)
  {
    BareParts(f);
    assert f[0] in f;
  }

  /** What an accepted plan and its manifest say of one artifact. */
  lemma ArtifactFacts(
      plan: Plan, acquired: map<string, Bytes>, archive: Archive, m: Manifest, run: RunRecord, sha: Sha, fold: Fold,
      a: Artifact)
    requires YieldsSha256(sha) && M.PlanOk(plan, fold) && M.AcquiredOk(plan, acquired, sha)
    requires M.IsManifestOf(m, plan, acquired, archive, run, sha) && a in plan.artifacts
    ensures a.filename in acquired && a.filename in m.members.value && a.filename in Filenames(plan)
    ensures M.ArtifactOk(a) && M.FileOk(a, acquired, sha)
    ensures m.members.value[a.filename] == M.RecordOf(a, acquired, sha)
    ensures Sized(m.members.value[a.filename])
  {
    hide Text.Le, SumOver, M.FoldedApart, Text.InOrder;
    assert a.filename in Filenames(plan);
    assert M.ArtifactOk(a) && M.FileOk(a, acquired, sha);
  }

  lemma ArtifactNamed(plan: Plan, f: string) returns (a: Artifact)
    requires f in Filenames(plan)
    ensures a in plan.artifacts && a.filename == f
  {
    a :| a in plan.artifacts && a.filename == f;
  }

  /** Each entry passes the extractor's own checks. */
  lemma MembersAreOk(
      plan: Plan, acquired: map<string, Bytes>, archive: Archive, m: Manifest, run: RunRecord, sha: Sha, fold: Fold,
      e: Entry)
    requires YieldsSha256(sha) && M.PlanOk(plan, fold) && M.AcquiredOk(plan, acquired, sha)
      && M.ArchiveOk(archive, acquired, sha)
    requires M.IsManifestOf(m, plan, acquired, archive, run, sha) && CollisionFree(sha, Contents(acquired, archive))
    requires (forall n | n in m.members.value :: Sized(m.members.value[n])) && e in archive.infos.value
    ensures X.MemberOk(e, X.SizesOf(m.members.value)) && X.StreamOk(e) && Parts(e.name) == [e.name]
    ensures e.name in Filenames(plan)
  {
    hide RatioOk, IsSymlinkMode, M.PlanOk, M.AcquiredOk, M.IsManifestOf, Parts, M.ArchiveOk, Sized;
    EntryIsAcquired(acquired, archive, sha, e);
    assert e.name in Filenames(plan) by {
      AcquiredArePlanned(plan, acquired, sha);
    }
    var a := ArtifactNamed(plan, e.name);
    ArtifactFacts(plan, acquired, archive, m, run, sha, fold, a);
    BareNameIsSafe(e.name);
  }

  lemma AcquiredArePlanned(plan: Plan, acquired: map<string, Bytes>, sha: Sha)
    requires M.AcquiredOk(plan, acquired, sha)
    ensures acquired.Keys == Filenames(plan)
    ensures SumOver(Text.InOrder(acquired.Keys), M.SizesOf(acquired)) <= MAX_TOTAL_UNCOMPRESSED_BYTES
  {
  }

  lemma NamesApart(plan: Plan, infos: seq<Entry>, fold: Fold)
    requires M.FoldedApart(plan.artifacts, fold) && DistinctNames(infos)
    requires forall e | e in infos :: Parts(e.name) == [e.name] && e.name in Filenames(plan)
    ensures X.ApartAll(infos, fold) && X.PrefixFree(infos)
  {
    hide Parts;
    forall i, j | 0 <= i < j < |infos| ensures X.Apart(infos[i], infos[j], fold) {
      var d, e := infos[i], infos[j];
      assert d in infos && e in infos;
      var a := ArtifactNamed(plan, d.name);
      var b := ArtifactNamed(plan, e.name);
      var k :| 0 <= k < |plan.artifacts| && plan.artifacts[k] == a;
      var l :| 0 <= l < |plan.artifacts| && plan.artifacts[l] == b;
      assert k != l;
      assert [d.name][0] != [e.name][0];
    }
    forall i, j | 0 <= i < |infos| && 0 <= j < |infos| ensures !(Parts(infos[i].name) < Parts(infos[j].name)) {
      assert infos[i] in infos && infos[j] in infos;
    }
  }

  lemma RecordsAreSized(
      plan: Plan, acquired: map<string, Bytes>, m: Manifest, archive: Archive, run: RunRecord, sha: Sha, fold: Fold)
    requires YieldsSha256(sha) && M.PlanOk(plan, fold) && M.AcquiredOk(plan, acquired, sha)
    requires M.IsManifestOf(m, plan, acquired, archive, run, sha) && RunOk(Some(run))
    ensures m.members.Some? && m.members.value.Keys == Filenames(plan) == acquired.Keys
    ensures forall n | n in m.members.value :: Sized(m.members.value[n])
    ensures HasMembers(m) && X.BindsArchive(archive, m, sha)
  {
    hide M.AcquiredOk, Sized, RunOk, M.FoldedApart, M.ArtifactOk;
    AcquiredArePlanned(plan, acquired, sha);
    forall n | n in m.members.value ensures Sized(m.members.value[n]) {
      var a := ArtifactNamed(plan, n);
      ArtifactFacts(plan, acquired, archive, m, run, sha, fold, a);
    }
    assert plan.artifacts[0].filename in Filenames(plan);
  }

  /** The members' recorded digests are those of the flat tree of acquired files. */
  lemma HashesAgree(
      plan: Plan, acquired: map<string, Bytes>, archive: Archive, m: Manifest, run: RunRecord, sha: Sha, fold: Fold,
      n: string)
    requires YieldsSha256(sha) && M.PlanOk(plan, fold) && M.AcquiredOk(plan, acquired, sha)
    requires M.IsManifestOf(m, plan, acquired, archive, run, sha) && n in Filenames(plan)
    ensures n in m.members.value && m.members.value[n].sha256.Some?
    ensures X.MemberHashOk(AcquiredTree(acquired), n, m.members.value[n].sha256.value, sha)
  {
    hide M.PlanOk, M.AcquiredOk, M.IsManifestOf, Parts, Sized;
    var a := ArtifactNamed(plan, n);
    ArtifactFacts(plan, acquired, archive, m, run, sha, fold, a);
    BareNameIsSafe(n);
    assert [n] in AcquiredTree(acquired);
  }

  /** The constructor never accepts an archive the extractor would refuse. */
  lemma AcceptedArchiveExtracts(
      plan: Plan, acquired: map<string, Bytes>, archive: Archive, run: RunRecord, m: Manifest, sha: Sha, fold: Fold)
    requires YieldsSha256(sha) && CollisionFree(sha, Contents(acquired, archive))
    requires M.Accepts(plan, acquired, archive, run, MANIFEST_SCHEMA_VERSION, sha, fold)
    requires M.IsManifestOf(m, plan, acquired, archive, run, sha)
    ensures X.ExtractVerdict(archive, m, false, sha, fold) == None
    ensures X.ExtractedTree(archive.infos.value) == AcquiredTree(acquired)
  {
    hide X.ExtractedTree, X.MemberOk, X.StreamOk, Parts, RunOk, M.PlanOk, M.AcquiredOk, M.IsManifestOf, Sized,
      X.SizesOf, X.BindsArchive, X.MemberHashOk, CollisionFree, YieldsSha256;
    RecordsAreSized(plan, acquired, m, archive, run, sha, fold);
    ArchiveIsSafe(plan, acquired, archive, run, m, sha, fold);
    BindsMeans(archive, m, sha);
    forall n | n in m.members.value
      ensures X.MemberHashOk(X.ExtractedTree(archive.infos.value), n, m.members.value[n].sha256.value, sha)
    {
      HashesAgree(plan, acquired, archive, m, run, sha, fold, n);
    }
  }

  lemma BindsMeans(archive: Archive, m: Manifest, sha: Sha)
    requires X.BindsArchive(archive, m, sha)
    ensures m.members.Some? && forall n | n in m.members.value :: m.members.value[n].sha256.Some?
  {
  }

  lemma TotalFits(plan: Plan, acquired: map<string, Bytes>, archive: Archive, sha: Sha)
    requires M.AcquiredOk(plan, acquired, sha) && M.ArchiveOk(archive, acquired, sha)
    requires CollisionFree(sha, Contents(acquired, archive))
    ensures TotalSize(archive.infos.value) <= MAX_TOTAL_UNCOMPRESSED_BYTES
  {
    hide TotalSize, SumOver, Text.InOrder, M.ArchiveOk, M.SizesOf, M.FileOk, CollisionFree;
    TotalsAgree(acquired, archive, sha);
    AcquiredArePlanned(plan, acquired, sha);
  }

  lemma ArchiveIsSafe(
      plan: Plan, acquired: map<string, Bytes>, archive: Archive, run: RunRecord, m: Manifest, sha: Sha, fold: Fold)
    requires YieldsSha256(sha) && CollisionFree(sha, Contents(acquired, archive))
    requires M.Accepts(plan, acquired, archive, run, MANIFEST_SCHEMA_VERSION, sha, fold)
    requires M.IsManifestOf(m, plan, acquired, archive, run, sha)
    requires m.members.Some? && m.members.value.Keys == Filenames(plan) == acquired.Keys
    requires forall n | n in m.members.value :: Sized(m.members.value[n])
    ensures archive.infos.Some?
    ensures X.SafeMembers(archive.infos.value, X.SizesOf(m.members.value), fold) && X.Extractable(archive.infos.value)
    ensures X.ExtractedTree(archive.infos.value) == AcquiredTree(acquired)
  {
    hide X.ExtractedTree, X.MemberOk, X.StreamOk, Parts, RunOk, M.AcquiredOk, M.IsManifestOf, Sized, CollisionFree,
      YieldsSha256, TotalSize, SumOver, Text.InOrder, M.SizesOf, M.FoldedApart, M.ArtifactOk, M.EntryMatches,
      X.ApartAll;
    var infos := archive.infos.value;
    forall e | e in infos
      ensures X.MemberOk(e, X.SizesOf(m.members.value)) && X.StreamOk(e) && Parts(e.name) == [e.name]
        && e.name in Filenames(plan)
    {
      MembersAreOk(plan, acquired, archive, m, run, sha, fold, e);
    }
    NamesApart(plan, infos, fold);
    TotalFits(plan, acquired, archive, sha);
    CountsAgree(plan, infos);
    TreeIsAcquired(acquired, archive, sha);
    forall i | 0 <= i < |infos| ensures X.StreamOk(infos[i]) {
      assert infos[i] in infos;
    }
  }

  /** As many entries as names, and as many names as planned files at most. */
  lemma CountsAgree(plan: Plan, infos: seq<Entry>)
    requires DistinctNames(infos) && NameSet(infos) == Filenames(plan)
    ensures |infos| <= |plan.artifacts|
  {
    NamesDistinct(infos);
    CardinalityOfDistinct(NamesOf(infos));
    assert (set n | n in NamesOf(infos)) == NameSet(infos);
    FilenamesAtMost(plan.artifacts);
  }

  lemma {:induction false} CardinalityOfDistinct(names: seq<string>)
    requires NoDuplicates(names)
    ensures |set n | n in names| == |names|
  {
    if names != [] {
      var rest := names[..|names| - 1];
      var last := names[|names| - 1];
      CardinalityOfDistinct(rest);
      assert names == rest + [last];
      assert (set n | n in names) == (set n | n in rest) + {last};
      assert last !in rest;
    }
  }

  lemma {:induction false} FilenamesAtMost(artifacts: seq<Artifact>)
    ensures |set a | a in artifacts :: a.filename| <= |artifacts|
  {
    if artifacts != [] {
      var rest := artifacts[..|artifacts| - 1];
      var last := artifacts[|artifacts| - 1];
      FilenamesAtMost(rest);
      assert artifacts == rest + [last];
      assert (set a | a in artifacts :: a.filename) == (set a | a in rest :: a.filename) + {last.filename};
    }
  }

  /** The acquired files as a flat tree. */
  function AcquiredTree(acquired: map<string, Bytes>): Tree {
    map f | f in acquired :: [f] := File(acquired[f])
  }

  lemma PartsApart(infos: seq<Entry>)
    requires DistinctNames(infos) && forall e | e in infos :: Parts(e.name) == [e.name]
    ensures forall j, k | 0 <= j < k < |infos| :: Parts(infos[j].name) != Parts(infos[k].name)
  {
    hide Parts;
    forall j, k | 0 <= j < k < |infos| ensures Parts(infos[j].name) != Parts(infos[k].name) {
      assert infos[j] in infos && infos[k] in infos;
      assert [infos[j].name][0] != [infos[k].name][0];
    }
  }

  /** An extracted entry is a file at its own name, with the acquired bytes. */
  lemma EntryInTree(acquired: map<string, Bytes>, archive: Archive, sha: Sha, e: Entry)
    requires M.ArchiveOk(archive, acquired, sha) && CollisionFree(sha, Contents(acquired, archive))
    requires (forall d | d in archive.infos.value :: Parts(d.name) == [d.name]) && e in archive.infos.value
    ensures e.name in acquired && [e.name] in X.ExtractedTree(archive.infos.value)
    ensures X.ExtractedTree(archive.infos.value)[[e.name]] == File(acquired[e.name])
  {
    EntryIsAcquired(acquired, archive, sha, e);
    PartsApart(archive.infos.value);
    hide Parts, X.ExtractedTree, CollisionFree, M.EntryMatches, RatioOk, IsSymlinkMode, NameSet;
    var infos := archive.infos.value;
    var i :| 0 <= i < |infos| && infos[i] == e;
    X.TreeContent(infos, i);
  }

  lemma TreeIsAcquired(acquired: map<string, Bytes>, archive: Archive, sha: Sha)
    requires M.ArchiveOk(archive, acquired, sha) && CollisionFree(sha, Contents(acquired, archive))
    requires forall e | e in archive.infos.value :: Parts(e.name) == [e.name]
    ensures X.ExtractedTree(archive.infos.value) == AcquiredTree(acquired)
  {
    hide Parts, X.ExtractedTree, CollisionFree, M.EntryMatches, RatioOk, IsSymlinkMode;
    var infos := archive.infos.value;
    var tree := X.ExtractedTree(infos);
    forall f | f in acquired ensures [f] in tree && tree[[f]] == File(acquired[f]) {
      assert f in NameSet(infos);
      var e :| e in infos && e.name == f;
      EntryInTree(acquired, archive, sha, e);
    }
    forall p | p in tree ensures p in AcquiredTree(acquired) {
      X.TreeHolds(infos, p);
      var i :| 0 <= i < |infos| && Parts(infos[i].name) == p;
      EntryInTree(acquired, archive, sha, infos[i]);
    }
    forall p | p in AcquiredTree(acquired) ensures p in tree && tree[p] == AcquiredTree(acquired)[p] {
      var f :| f in acquired && p == [f];
    }
  }

  lemma FlatTreeNames(plan: Plan, acquired: map<string, Bytes>)
    requires acquired.Keys == Filenames(plan) && forall a | a in plan.artifacts :: IsBare(a.filename)
    ensures L.IsPosix(AcquiredTree(acquired)) && L.HoldsExactly(AcquiredTree(acquired), Filenames(plan))
    ensures forall f | f in acquired ::
      L.OnDisk(AcquiredTree(acquired), f) && L.BytesAt(AcquiredTree(acquired), f) == acquired[f]
  {
    var tree := AcquiredTree(acquired);
    forall f | f in acquired ensures [f] in tree && IsBare(f) && L.Join([f]) == f {
      var a := ArtifactNamed(plan, f);
    }
    forall p | p in tree ensures p != [] && forall c | c in p :: c != "" && '/' !in c {
      var f :| f in acquired && p == [f];
    }
    assert (set p | p in tree :: L.Join(p)) == Filenames(plan) by {
      forall f | f in Filenames(plan) ensures f in set p | p in tree :: L.Join(p) {
        assert [f] in tree;
      }
      forall p | p in tree ensures L.Join(p) in Filenames(plan) {
        var f :| f in acquired && p == [f];
      }
    }
  }

  lemma PlanIsUsable(plan: Plan, fold: Fold)
    requires M.PlanOk(plan, fold)
    ensures L.PlanUsable(plan) && forall a | a in plan.artifacts :: L.PackageOk(a)
  {
    hide IsBare;
    M.FoldedApartNames(plan.artifacts, fold);
    forall a | a in plan.artifacts ensures IsBare(a.filename) && L.PackageOk(a) {
      assert M.ArtifactOk(a);
    }
  }

  lemma ManifestIsForPlan(
      plan: Plan, acquired: map<string, Bytes>, archive: Archive, run: RunRecord, m: Manifest, sha: Sha, fold: Fold)
    requires YieldsSha256(sha) && M.PlanOk(plan, fold) && M.AcquiredOk(plan, acquired, sha)
    requires M.IsManifestOf(m, plan, acquired, archive, run, sha) && RunOk(Some(run))
    ensures L.ManifestAgrees(plan, m)
  {
    hide M.AcquiredOk, M.PlanOk, Sized, Identified, YieldsSha256, M.FileOk, M.ArtifactOk, IsBare, IsSha256;
    RecordsAreSized(plan, acquired, m, archive, run, sha, fold);
    forall a | a in plan.artifacts
      ensures m.members.value[a.filename].package == Some(a.package)
        && m.members.value[a.filename].sha256 == Some(a.sha256)
    {
      ArtifactFacts(plan, acquired, archive, m, run, sha, fold, a);
      FileIsPlanned(a, acquired, sha);
    }
    forall n | n in m.members.value ensures Identified(m.members.value[n]) {
      SizedIsIdentified(m.members.value[n]);
    }
  }

  lemma AcquiredRehashes(plan: Plan, acquired: map<string, Bytes>, sha: Sha, a: Artifact)
    requires M.AcquiredOk(plan, acquired, sha) && a in plan.artifacts && IsBare(a.filename)
    requires forall f | f in acquired ::
      L.OnDisk(AcquiredTree(acquired), f) && L.BytesAt(AcquiredTree(acquired), f) == acquired[f]
    ensures L.RehashOk(a, AcquiredTree(acquired), sha)
  {
    hide AcquiredTree, L.OnDisk, L.BytesAt, SumOver, IsBare;
    assert a.filename in Filenames(plan);
    FileIsPlanned(a, acquired, sha);
  }

  /** What the constructor accepted and the extractor unpacked, the publisher publishes. */
  lemma AcceptedArchivePublishes(
      plan: Plan, acquired: map<string, Bytes>, archive: Archive, run: RunRecord, m: Manifest, sha: Sha, fold: Fold)
    requires YieldsSha256(sha) && CollisionFree(sha, Contents(acquired, archive))
    requires M.Accepts(plan, acquired, archive, run, MANIFEST_SCHEMA_VERSION, sha, fold)
    requires M.IsManifestOf(m, plan, acquired, archive, run, sha)
    ensures archive.infos.Some?
    ensures
      var tree := X.ExtractedTree(archive.infos.value);
      L.IsPosix(tree) && L.Publishable(plan, m, tree, sha)
  {
    hide X.ExtractedTree, RunOk, X.ExtractVerdict, M.AcquiredOk, M.PlanOk, M.IsManifestOf, CollisionFree, YieldsSha256,
      L.HoldsExactly, L.IsPosix, L.ManifestAgrees, L.RehashOk, L.PackageOk, IsBare, AcquiredTree, M.EntryMatches;
    AcceptedArchiveExtracts(plan, acquired, archive, run, m, sha, fold);
    PlanIsUsable(plan, fold);
    ManifestIsForPlan(plan, acquired, archive, run, m, sha, fold);
    AcquiredArePlanned(plan, acquired, sha);
    FlatTreeNames(plan, acquired);
    forall a | a in plan.artifacts ensures L.RehashOk(a, AcquiredTree(acquired), sha) {
      AcquiredRehashes(plan, acquired, sha, a);
    }
  }

  lemma FileIsPlanned(a: Artifact, acquired: map<string, Bytes>, sha: Sha)
    requires a.filename in acquired && M.FileOk(a, acquired, sha)
    ensures sha(acquired[a.filename]) == a.sha256
  {
  }

  lemma SizedIsIdentified(r: MemberRecord)
    requires Sized(r)
    ensures Identified(r)
  {
  }

  /**
   * End to end: the bytes served for an artifact are the bytes that were acquired for it, unless
   * its name is the page's.
   */
  lemma ServedIsAcquired(
      plan: Plan, acquired: map<string, Bytes>, archive: Archive, run: RunRecord, m: Manifest, sha: Sha, fold: Fold,
      t: L.IndexTree, a: Artifact)
    requires YieldsSha256(sha) && CollisionFree(sha, Contents(acquired, archive))
    requires M.Accepts(plan, acquired, archive, run, MANIFEST_SCHEMA_VERSION, sha, fold)
    requires M.IsManifestOf(m, plan, acquired, archive, run, sha) && archive.infos.Some?
    requires L.IsPublication(t, plan, X.ExtractedTree(archive.infos.value), sha)
    requires a in plan.artifacts
    ensures a.filename in acquired && L.ArtifactPlace(a) in t
    ensures t[L.ArtifactPlace(a)] == L.Served(acquired[a.filename]) <==> a.filename != L.PAGE
  {
    hide SumOver, X.ExtractedTree, RunOk, M.ArchiveOk, X.ExtractVerdict, L.ListsPackage, CollisionFree, YieldsSha256,
      M.PlanOk, M.IsManifestOf, L.OnDisk, L.BytesAt, AcquiredTree, M.AcquiredOk;
    AcceptedArchiveExtracts(plan, acquired, archive, run, m, sha, fold);
    AcquiredArePlanned(plan, acquired, sha);
    forall b | b in plan.artifacts ensures IsBare(b.filename) {
      ArtifactFacts(plan, acquired, archive, m, run, sha, fold, b);
    }
    FlatTreeNames(plan, acquired);
    assert a.filename in Filenames(plan);
    assert a.filename in L.FilesOf(plan, a.package) && a.package in L.PackagesOf(plan);
    assert L.IsPlace(L.ArtifactPlace(a), plan);
  }
}
