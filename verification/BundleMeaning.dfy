/** What the bundle programs accept, said of the bytes, modes and names themselves. */
module BundleMeaning {
  import opened Wrappers
  import opened Sorting
  import opened Filtering
  import opened BundleModel
  import M = BundleManifest
  import X = BundleExtraction
  import L = LocalIndex
  import PackageName
  import Text

  predicate LowerHex(s: string, n: nat) {
    |s| == n && forall c | c in s :: '0' <= c <= '9' || 'a' <= c <= 'f'
  }

  /** A Unix mode whose type bits say symbolic link. */
  predicate LinkType(mode: nat) {
    mode / 0x1000 % 0x10 == 0xA
  }

  // ---- names ------------------------------------------------------------------------------------

  function Slashed(pieces: seq<string>): string
    requires pieces != []
  {
    if |pieces| == 1 then pieces[0] else pieces[0] + "/" + Slashed(pieces[1..])
  }

  function Kept(piece: string): Option<string> {
    if piece == "" || piece == "." then None else Some(piece)
  }

  lemma {:induction false} SplitText(s: string)
    ensures Slashed(Split(s)) == s
    ensures forall p | p in Split(s) :: '/' !in p
  {
    if s != "" {
      SplitText(s[1..]);
      SplitFirst(s[0], s[1..]);
      assert s == [s[0]] + s[1..];
    }
  }

  lemma SplitFirst(c: char, s: string)
    requires Slashed(Split(s)) == s && forall p | p in Split(s) :: '/' !in p
    ensures Slashed(Split([c] + s)) == [c] + s
    ensures forall p | p in Split([c] + s) :: '/' !in p
  {
    var rest := Split(s);
    assert ([c] + s)[1..] == s && rest[0] in rest;
    if c == '/' {
      assert Split([c] + s) == [""] + rest && ([""] + rest)[1..] == rest;
      assert "" + "/" + s == [c] + s;
    } else {
      var first := [c] + rest[0];
      assert Split([c] + s) == [first] + rest[1..] && ([first] + rest[1..])[1..] == rest[1..];
      hide Split;
      FirstPieceGrows(c, rest);
    }
  }

  lemma FirstPieceGrows(c: char, rest: seq<string>)
    requires rest != []
    ensures Slashed([[c] + rest[0]] + rest[1..]) == [c] + Slashed(rest)
  {
    assert ([[c] + rest[0]] + rest[1..])[1..] == rest[1..];
    if |rest| > 1 {
      assert ([c] + rest[0]) + "/" + Slashed(rest[1..]) == [c] + (rest[0] + "/" + Slashed(rest[1..]));
    }
  }

  lemma {:induction false} SplitPiece(p: string, rest: string)
    requires '/' !in p
    ensures Split(p + "/" + rest) == [p] + Split(rest)
  {
    if p == "" {
      assert p + "/" + rest == "/" + rest && ("/" + rest)[1..] == rest;
    } else {
      SplitPiece(p[1..], rest);
      assert (p + "/" + rest)[1..] == p[1..] + "/" + rest;
      assert (p + "/" + rest)[0] == p[0];
      assert [p[0]] + p[1..] == p;
      assert p[0] in p;
    }
  }

  lemma {:induction false} SplitSlashed(pieces: seq<string>)
    requires pieces != [] && forall p | p in pieces :: '/' !in p
    ensures Split(Slashed(pieces)) == pieces
  {
    assert pieces[0] in pieces;
    if |pieces| == 1 {
      SplitWithoutSlash(pieces[0]);
    } else {
      SplitSlashed(pieces[1..]);
      SplitPiece(pieces[0], Slashed(pieces[1..]));
    }
  }

  lemma {:induction false} NoiseDropped(pieces: seq<string>)
    ensures DropNoise(pieces) == FilterMap(pieces, Kept)
  {
    if pieces != [] {
      NoiseDropped(pieces[1..]);
      FilterMapFirst(pieces[0], pieces[1..], Kept);
      assert pieces == [pieces[0]] + pieces[1..];
    }
  }

  /** A path's parts are its slash-free pieces without the empty ones and the dots. */
  lemma PartsOfPieces(pieces: seq<string>)
    requires pieces != [] && forall p | p in pieces :: '/' !in p
    ensures Parts(Slashed(pieces)) == FilterMap(pieces, Kept)
  {
    SplitSlashed(pieces);
    NoiseDropped(pieces);
  }

  lemma {:induction false} JoinIsSlashed(p: Path)
    requires p != []
    ensures L.Join(p) == Slashed(p)
  {
    if |p| > 1 {
      JoinIsSlashed(p[1..]);
    }
  }

  /** The relative names of a directory listing tell its entries apart. */
  lemma NamesTellEntriesApart(tree: Tree, p: Path, q: Path)
    requires L.IsPosix(tree) && p in tree && q in tree && L.Join(p) == L.Join(q)
    ensures p == q
  {
    JoinIsSlashed(p);
    JoinIsSlashed(q);
    SplitSlashed(p);
    SplitSlashed(q);
  }

  // ---- the constructor ----------------------------------------------------------------------------

  ghost predicate GoodPlan(plan: Plan, fold: Fold) {
    && LowerHex(plan.digest, 64) && 1 <= |plan.artifacts| <= 512
    && (forall a | a in plan.artifacts ::
          && a.filename != "" && '/' !in a.filename && '\\' !in a.filename && a.filename != "." && a.filename != ".."
          && a.package != "" && PackageName.Normalise(a.package) == Some(a.package))
    && forall i, j | 0 <= i < j < |plan.artifacts| ::
      fold(plan.artifacts[i].filename) != fold(plan.artifacts[j].filename)
  }

  function Sizes(acquired: map<string, Bytes>): map<string, nat> {
    map f | f in acquired :: |acquired[f]|
  }

  ghost predicate GoodFiles(plan: Plan, acquired: map<string, Bytes>, sha: Sha) {
    && acquired.Keys == (set a | a in plan.artifacts :: a.filename)
    && (forall a | a in plan.artifacts ::
          1 <= |acquired[a.filename]| <= 209715200 && sha(acquired[a.filename]) == a.sha256)
    && SumOver(Text.InOrder(acquired.Keys), Sizes(acquired)) <= 2147483648
  }

  /** The entry is no link and is what the archive says it is: these bytes, at most a hundredfold compressed. */
  predicate GoodEntry(e: Entry, bytes: Bytes, sha: Sha) {
    && !LinkType(e.mode) && e.fileSize == |bytes| && (e.compressSize > 0 ==> e.fileSize <= 100 * e.compressSize)
    && !e.corrupt && sha(e.stream) == sha(bytes)
  }

  ghost predicate GoodArchive(archive: Archive, acquired: map<string, Bytes>, sha: Sha) {
    && archive.infos.Some?
    && var infos := archive.infos.value;
    && (forall i, j | 0 <= i < j < |infos| :: infos[i].name != infos[j].name)
    && (forall f :: f in acquired <==> exists e :: e in infos && e.name == f)
    && forall e | e in infos && e.name in acquired :: GoodEntry(e, acquired[e.name], sha)
  }

  predicate GoodRun(r: RunRecord) {
    && (forall v | v in [r.repositoryId, r.runId, r.runAttempt, r.artifactId, r.artifactRunId] ::
          v.Some? && v.value > 0)
    && (forall v | v in [r.repositoryFullName, r.workflowPath, r.artifactName, r.environmentName] ::
          v.Some? && v.value != "")
    && r.trustedWorkflowSha.Some? && LowerHex(r.trustedWorkflowSha.value, 40)
    && exists c :: c in r.trustedWorkflowSha.value && c != '0'
  }

  lemma HexMeans(s: string, n: nat)
    ensures Text.HexDigits(s, n) <==> LowerHex(s, n)
  {
    if LowerHex(s, n) {
      forall i | 0 <= i < |s| ensures Text.IsHex(s[i]) {
        assert s[i] in s;
      }
    }
    if Text.HexDigits(s, n) {
      forall c | c in s ensures '0' <= c <= '9' || 'a' <= c <= 'f' {
        var i :| 0 <= i < |s| && s[i] == c;
        assert Text.IsHex(s[i]);
      }
    }
  }

  lemma RunMeans(r: RunRecord)
    ensures RunOk(Some(r)) <==> GoodRun(r)
  {
    if r.trustedWorkflowSha.Some? {
      HexMeans(r.trustedWorkflowSha.value, 40);
    }
    var numbers := [r.repositoryId, r.runId, r.runAttempt, r.artifactId, r.artifactRunId];
    var words := [r.repositoryFullName, r.workflowPath, r.artifactName, r.environmentName];
    assert numbers[0] in numbers && numbers[1] in numbers && numbers[2] in numbers;
    assert numbers[3] in numbers && numbers[4] in numbers;
    assert words[0] in words && words[1] in words && words[2] in words && words[3] in words;
    hide Text.HexDigits, LowerHex;
    if RunOk(Some(r)) {
      var i :| 0 <= i < 40 && r.trustedWorkflowSha.value[i] != '0';
      assert r.trustedWorkflowSha.value[i] in r.trustedWorkflowSha.value;
    }
  }

  lemma PlanMeans(plan: Plan, fold: Fold)
    ensures M.PlanOk(plan, fold) <==> GoodPlan(plan, fold)
  {
    HexMeans(plan.digest, 64);
    hide LowerHex, Text.HexDigits, PackageName.Normalise;
  }

  lemma FilesMean(plan: Plan, acquired: map<string, Bytes>, sha: Sha)
    ensures M.AcquiredOk(plan, acquired, sha) <==> GoodFiles(plan, acquired, sha)
  {
    hide SumOver, Text.InOrder;
    assert Sizes(acquired) == M.SizesOf(acquired);
  }

  lemma ArchiveMeans(archive: Archive, acquired: map<string, Bytes>, sha: Sha)
    ensures M.ArchiveOk(archive, acquired, sha) <==> GoodArchive(archive, acquired, sha)
  {
    if archive.infos.Some? {
      var infos := archive.infos.value;
      assert forall e | e in infos && e.name in acquired ::
        M.EntryMatches(e, acquired, sha) <==> GoodEntry(e, acquired[e.name], sha);
      hide M.EntryMatches, GoodEntry;
      assert NameSet(infos) == acquired.Keys <==>
        forall f :: f in acquired <==> exists e :: e in infos && e.name == f
      by {
        if forall f :: f in acquired <==> exists e :: e in infos && e.name == f {
          forall f ensures f in NameSet(infos) <==> f in acquired.Keys {}
        }
        if NameSet(infos) == acquired.Keys {
          forall f ensures f in acquired <==> exists e :: e in infos && e.name == f {
            assert f in acquired <==> f in NameSet(infos);
          }
        }
      }
    }
  }

  /** The constructor accepts exactly good plans with their files, a faithful archive of them, and a complete run. */
  lemma AcceptedExactly(
      plan: Plan, acquired: map<string, Bytes>, archive: Archive, run: RunRecord, version: int, sha: Sha, fold: Fold)
    ensures M.Accepts(plan, acquired, archive, run, version, sha, fold) <==>
      && version == 2 && GoodPlan(plan, fold) && GoodFiles(plan, acquired, sha)
      && GoodArchive(archive, acquired, sha) && GoodRun(run)
  {
    PlanMeans(plan, fold);
    FilesMean(plan, acquired, sha);
    ArchiveMeans(archive, acquired, sha);
    RunMeans(run);
    hide M.PlanOk, GoodPlan, M.AcquiredOk, GoodFiles, M.ArchiveOk, GoodArchive, RunOk, GoodRun;
  }

  /** What an accepted run records: of each planned file its length, digest and package, and nothing else. */
  lemma RecordedExactly(
      m: Manifest, plan: Plan, acquired: map<string, Bytes>, archive: Archive, run: RunRecord, sha: Sha)
    requires M.IsManifestOf(m, plan, acquired, archive, run, sha)
    ensures m.schemaVersion == Some(2) && m.planDigest == Some(plan.digest)
    ensures m.archiveSha256 == Some(sha(archive.raw)) && m.run == Some(run) && m.members.Some?
    ensures forall f :: f in m.members.value <==> exists a :: a in plan.artifacts && a.filename == f
    ensures forall a | a in plan.artifacts ::
      a.filename in acquired && m.members.value[a.filename]
        == MemberRecord(Some(|acquired[a.filename]|), Some(sha(acquired[a.filename])), Some(a.package))
  {
    forall f ensures f in m.members.value <==> exists a :: a in plan.artifacts && a.filename == f {
      assert f in m.members.value <==> f in Filenames(plan);
    }
    forall a | a in plan.artifacts ensures a.filename in acquired {
      assert a.filename in Filenames(plan);
    }
  }

  /**
   * Regular files pass: an archive of the acquired files whose entries are of type regular, or of
   * none, is accepted.
   */
  lemma RegularFilesPass(archive: Archive, acquired: map<string, Bytes>, sha: Sha)
    requires archive.infos.Some?
    requires forall i, j | 0 <= i < j < |archive.infos.value| ::
      archive.infos.value[i].name != archive.infos.value[j].name
    requires (set e | e in archive.infos.value :: e.name) == acquired.Keys
    requires forall e | e in archive.infos.value ::
      && e.mode / 0x1000 % 0x10 in {0, 8} && e.stream == acquired[e.name] && e.fileSize == |e.stream|
      && !e.corrupt && (e.compressSize == 0 || e.fileSize <= 100 * e.compressSize)
    ensures M.ArchiveOk(archive, acquired, sha)
  {
    ArchiveMeans(archive, acquired, sha);
    forall e | e in archive.infos.value ensures e.name in acquired {
      assert e.name in (set e | e in archive.infos.value :: e.name);
    }
    forall f ensures f in acquired <==> exists e :: e in archive.infos.value && e.name == f {
      assert f in acquired <==> f in (set e | e in archive.infos.value :: e.name);
    }
  }

  /** No link passes: neither program accepts an archive with an entry of that type. */
  lemma NoLinkPasses(
      archive: Archive, acquired: map<string, Bytes>, expected: map<string, nat>, sha: Sha, fold: Fold, e: Entry)
    requires archive.infos.Some? && e in archive.infos.value && e.mode / 0x1000 % 0x10 == 0xA
    ensures !M.ArchiveOk(archive, acquired, sha)
    ensures !X.SafeMembers(archive.infos.value, expected, fold)
  {
    ArchiveMeans(archive, acquired, sha);
    SafeExactly(archive.infos.value, expected, fold);
    hide M.ArchiveOk, X.SafeMembers, GoodArchive, Parts, TotalSize;
    if M.ArchiveOk(archive, acquired, sha) {
      EntryOfGoodArchive(archive, acquired, sha, e);
    }
  }

  lemma EntryOfGoodArchive(archive: Archive, acquired: map<string, Bytes>, sha: Sha, e: Entry)
    requires GoodArchive(archive, acquired, sha) && e in archive.infos.value
    ensures e.name in acquired && GoodEntry(e, acquired[e.name], sha)
  {
  }

  // ---- the extractor --------------------------------------------------------------------------------

  /** An entry at a relative place below the target, of the recorded size and within the caps. */
  predicate SafeEntry(e: Entry, expected: map<string, nat>) {
    && e.name in expected && e.fileSize == expected[e.name] && e.fileSize <= 209715200
    && (e.name != "" ==> e.name[0] != '/' && e.name[0] != '\\') && ".." !in Parts(e.name)
    && !LinkType(e.mode) && (e.compressSize > 0 ==> e.fileSize <= 100 * e.compressSize)
  }

  /** The extractor's validation accepts exactly these archives. */
  lemma SafeExactly(infos: seq<Entry>, expected: map<string, nat>, fold: Fold)
    ensures X.SafeMembers(infos, expected, fold) <==>
      && |infos| <= 512 && TotalSize(infos) <= 2147483648
      && (forall e | e in infos :: SafeEntry(e, expected))
      && (forall i, j | 0 <= i < j < |infos| ::
            && infos[i].name != infos[j].name && fold(infos[i].name) != fold(infos[j].name)
            && Parts(infos[i].name) != Parts(infos[j].name))
      && forall n | n in expected :: exists e :: e in infos && e.name == n
  {
    hide Parts, TotalSize;
    forall e ensures X.MemberOk(e, expected) <==> SafeEntry(e, expected) {
      StartsWith(e.name, '/');
      StartsWith(e.name, '\\');
    }
    hide X.MemberOk, SafeEntry;
    if X.SafeMembers(infos, expected, fold) {
      forall i, j | 0 <= i < j < |infos|
        ensures infos[i].name != infos[j].name && fold(infos[i].name) != fold(infos[j].name)
        ensures Parts(infos[i].name) != Parts(infos[j].name)
      {
        assert X.Apart(infos[i], infos[j], fold);
      }
    }
  }

  lemma StartsWith(s: string, c: char)
    ensures [c] <= s <==> s != "" && s[0] == c
  {
  }

  /** The members can be written: whole streams, at paths none of which is empty or lies below another. */
  lemma ExtractableExactly(infos: seq<Entry>)
    ensures X.Extractable(infos) <==>
      && (forall e | e in infos :: !e.corrupt && |e.stream| == e.fileSize && Parts(e.name) != [])
      && forall d, e | d in infos && e in infos :: !(Parts(d.name) < Parts(e.name))
  {
    hide Parts;
    if X.Extractable(infos) {
      forall e | e in infos ensures !e.corrupt && |e.stream| == e.fileSize && Parts(e.name) != [] {
        var i :| 0 <= i < |infos| && infos[i] == e;
      }
      forall d, e | d in infos && e in infos ensures !(Parts(d.name) < Parts(e.name)) {
        var i :| 0 <= i < |infos| && infos[i] == d;
        var j :| 0 <= j < |infos| && infos[j] == e;
      }
    }
  }

  predicate GoodShape(m: Manifest) {
    && m.schemaVersion == Some(2) && m.planDigest.Some? && LowerHex(m.planDigest.value, 64)
    && m.archiveSha256.Some? && LowerHex(m.archiveSha256.value, 64)
    && m.run.Some? && GoodRun(m.run.value)
  }

  predicate GoodRecord(r: MemberRecord) {
    && r.size.Some? && r.size.value > 0 && r.sha256.Some? && LowerHex(r.sha256.value, 64)
    && r.package.Some? && r.package.value != ""
  }

  lemma ShapeMeans(m: Manifest)
    ensures ShapeOk(m) <==> GoodShape(m)
  {
    if m.planDigest.Some? {
      HexMeans(m.planDigest.value, 64);
    }
    if m.archiveSha256.Some? {
      HexMeans(m.archiveSha256.value, 64);
    }
    if m.run.Some? {
      RunMeans(m.run.value);
    }
    hide RunOk, GoodRun, Text.HexDigits, LowerHex;
  }

  lemma RecordMeans(r: MemberRecord)
    ensures Sized(r) <==> GoodRecord(r)
    ensures Identified(r) <==>
      r.sha256.Some? && LowerHex(r.sha256.value, 64) && r.package.Some? && r.package.value != ""
  {
    if r.sha256.Some? {
      HexMeans(r.sha256.value, 64);
    }
    hide Text.HexDigits, LowerHex;
  }

  /** The manifest binds this archive: complete, and with the digest of the archive's own bytes. */
  lemma BoundExactly(archive: Archive, m: Manifest, sha: Sha)
    ensures X.BindsArchive(archive, m, sha) <==>
      && GoodShape(m) && m.archiveSha256 == Some(sha(archive.raw))
      && m.members.Some? && m.members.value != map[]
      && forall n | n in m.members.value :: GoodRecord(m.members.value[n])
  {
    ShapeMeans(m);
    if m.members.Some? {
      forall n | n in m.members.value ensures Sized(m.members.value[n]) <==> GoodRecord(m.members.value[n]) {
        RecordMeans(m.members.value[n]);
      }
    }
    hide RunOk, GoodRun, Sized, GoodRecord, LowerHex, Text.HexDigits;
  }

  /** What is refused as unverified and what as unsafe; nothing is refused exactly when all of it holds. */
  lemma VerdictExactly(archive: Archive, m: Manifest, destExists: bool, sha: Sha, fold: Fold)
    ensures
      var verdict := X.ExtractVerdict(archive, m, destExists, sha, fold);
      && (destExists ==> verdict == Some(Extraction))
      && (!destExists && !X.BindsArchive(archive, m, sha) ==> verdict == Some(Verification))
      && (!destExists && X.BindsArchive(archive, m, sha) ==>
            var sizes := map n | n in m.members.value :: m.members.value[n].size.value;
            && (verdict == Some(Extraction) <==>
                  archive.infos.None? || !X.SafeMembers(archive.infos.value, sizes, fold)
                  || !X.Extractable(archive.infos.value))
            && (verdict == None ==> forall e | e in archive.infos.value ::
                  Some(sha(e.stream)) == m.members.value[e.name].sha256))
  {
    hide X.SafeMembers, X.Extractable, ShapeOk, X.HashesMatch;
    if !destExists && X.BindsArchive(archive, m, sha) {
      var sizes: map<string, int> := map n | n in m.members.value :: m.members.value[n].size.value;
      assert sizes == X.SizesOf(m.members.value);
      if X.ExtractVerdict(archive, m, destExists, sha, fold) == None {
        UnpackedDigests(archive, m, sha, fold);
      }
    }
  }

  lemma UnpackedDigests(archive: Archive, m: Manifest, sha: Sha, fold: Fold)
    requires X.BindsArchive(archive, m, sha) && X.Unpacks(archive, m, sha, fold) && X.HashesMatch(archive, m, sha)
    ensures forall e | e in archive.infos.value ::
      e.name in m.members.value && Some(sha(e.stream)) == m.members.value[e.name].sha256
  {
    hide Parts, TotalSize, ShapeOk, X.ExtractedTree;
    var infos := archive.infos.value;
    forall i, j | 0 <= i < j < |infos| ensures Parts(infos[i].name) != Parts(infos[j].name) {
      assert X.Apart(infos[i], infos[j], fold);
    }
    forall e | e in infos
      ensures e.name in m.members.value && Some(sha(e.stream)) == m.members.value[e.name].sha256
    {
      var i :| 0 <= i < |infos| && infos[i] == e;
      X.TreeContent(infos, i);
      assert X.MemberOk(e, X.SizesOf(m.members.value));
      assert X.MemberHashOk(X.ExtractedTree(infos), e.name, m.members.value[e.name].sha256.value, sha);
    }
  }

  // ---- the publisher ----------------------------------------------------------------------------------

  /** An artifact whose name, package, record and bytes on disk all agree. */
  predicate GoodArtifact(a: Artifact, members: map<string, MemberRecord>, tree: Tree, sha: Sha) {
    && a.filename != "" && '/' !in a.filename && '\\' !in a.filename && a.filename != "." && a.filename != ".."
    && PackageName.Normalise(a.package) == Some(a.package) && a.package != "" && LowerHex(a.sha256, 64)
    && a.filename in members
    && members[a.filename].package == Some(a.package) && members[a.filename].sha256 == Some(a.sha256)
    && [a.filename] in tree && tree[[a.filename]].File? && sha(tree[[a.filename]].bytes) == a.sha256
  }

  /** Plan, manifest and directory name the same files, packages and digests, and the bytes hash to the digests. */
  lemma PublishedExactly(plan: Plan, m: Manifest, tree: Tree, sha: Sha)
    requires L.IsPosix(tree)
    ensures L.Publishable(plan, m, tree, sha) <==>
      && plan.artifacts != [] && GoodShape(m) && m.planDigest == Some(plan.digest) && m.members.Some?
      && (forall i, j | 0 <= i < j < |plan.artifacts| :: plan.artifacts[i].filename != plan.artifacts[j].filename)
      && m.members.value.Keys == (set a | a in plan.artifacts :: a.filename)
      && (forall p | p in tree :: tree[p].File?)
      && (set p | p in tree :: L.Join(p)) == (set a | a in plan.artifacts :: a.filename)
      && forall a | a in plan.artifacts :: GoodArtifact(a, m.members.value, tree, sha)
  {
    ShapeMeans(m);
    hide ShapeOk, GoodShape, GoodArtifact, L.Join, L.PlanUsable, L.RehashOk, L.PackageOk, Identified;
    if L.Publishable(plan, m, tree, sha) {
      PlanIsDistinct(plan);
      forall a | a in plan.artifacts ensures GoodArtifact(a, m.members.value, tree, sha) {
        assert a.filename in Filenames(plan);
        ArtifactIsGood(a, m.members.value, tree, sha);
      }
    }
    if m.members.Some? && forall a | a in plan.artifacts :: GoodArtifact(a, m.members.value, tree, sha) {
      forall a | a in plan.artifacts
        ensures IsBare(a.filename) && L.RehashOk(a, tree, sha) && L.PackageOk(a) && a.filename in m.members.value
        ensures Identified(m.members.value[a.filename])
        ensures m.members.value[a.filename].package == Some(a.package)
        ensures m.members.value[a.filename].sha256 == Some(a.sha256)
      {
        GoodIsArtifact(a, m.members.value, tree, sha);
      }
      PlanIsUsable(plan);
      if plan.artifacts != [] {
        assert plan.artifacts[0].filename in m.members.value;
      }
    }
  }

  lemma PlanIsDistinct(plan: Plan)
    requires L.PlanUsable(plan)
    ensures plan.artifacts != [] && forall a | a in plan.artifacts :: IsBare(a.filename)
    ensures forall i, j | 0 <= i < j < |plan.artifacts| :: plan.artifacts[i].filename != plan.artifacts[j].filename
  {
  }

  lemma PlanIsUsable(plan: Plan)
    requires forall a | a in plan.artifacts :: IsBare(a.filename)
    ensures L.PlanUsable(plan) <==>
      && plan.artifacts != []
      && forall i, j | 0 <= i < j < |plan.artifacts| :: plan.artifacts[i].filename != plan.artifacts[j].filename
  {
    hide IsBare;
  }

  lemma ArtifactIsGood(a: Artifact, members: map<string, MemberRecord>, tree: Tree, sha: Sha)
    requires IsBare(a.filename) && L.RehashOk(a, tree, sha) && L.PackageOk(a)
    requires a.filename in members && Identified(members[a.filename])
    requires members[a.filename].package == Some(a.package) && members[a.filename].sha256 == Some(a.sha256)
    ensures GoodArtifact(a, members, tree, sha)
  {
    RecordMeans(members[a.filename]);
    hide PackageName.Normalise, LowerHex;
  }

  lemma GoodIsArtifact(a: Artifact, members: map<string, MemberRecord>, tree: Tree, sha: Sha)
    requires GoodArtifact(a, members, tree, sha)
    ensures IsBare(a.filename) && L.RehashOk(a, tree, sha) && L.PackageOk(a)
    ensures a.filename in members && Identified(members[a.filename])
    ensures members[a.filename].package == Some(a.package) && members[a.filename].sha256 == Some(a.sha256)
  {
    RecordMeans(members[a.filename]);
    hide PackageName.Normalise, LowerHex;
  }

  /**
   * A published index: the root page lists the packages, each package's page lists its files in
   * ascending order with the digests of their bytes, every other file is served, and nothing else is there.
   */
  lemma PublicationExactly(t: L.IndexTree, plan: Plan, tree: Tree, sha: Sha)
    requires L.IsPublication(t, plan, tree, sha) && L.RootPlace in t
    ensures t[L.RootPlace].RootPage?
    ensures Sorted(t[L.RootPlace].packages, Text.Le) && NoDuplicates(t[L.RootPlace].packages)
    ensures forall p :: p in t[L.RootPlace].packages <==> exists a :: a in plan.artifacts && a.package == p
    ensures forall a | a in plan.artifacts ::
      && L.PagePlace(a.package) in t && t[L.PagePlace(a.package)].PackagePage?
      && PageExactly(t[L.PagePlace(a.package)].links, plan, a.package, tree, sha)
    ensures forall a | a in plan.artifacts && a.filename != "index.html" ::
      && L.ArtifactPlace(a) in t && [a.filename] in tree && tree[[a.filename]].File?
      && t[L.ArtifactPlace(a)] == L.Served(tree[[a.filename]].bytes)
    ensures forall place | place in t && place.InPackage? :: exists a ::
      a in plan.artifacts && a.package == place.package && (place.file == "index.html" || place.file == a.filename)
  {
    hide L.ListsPackage;
    forall p ensures p in L.PackagesOf(plan) <==> exists a :: a in plan.artifacts && a.package == p {}
    forall a | a in plan.artifacts
      ensures L.PagePlace(a.package) in t && t[L.PagePlace(a.package)].PackagePage?
      ensures PageExactly(t[L.PagePlace(a.package)].links, plan, a.package, tree, sha)
      ensures L.ArtifactPlace(a) in t
    {
      assert a.package in L.PackagesOf(plan) && a.filename in L.FilesOf(plan, a.package);
      assert L.IsPlace(L.PagePlace(a.package), plan) && L.IsPlace(L.ArtifactPlace(a), plan);
      PageLists(t[L.PagePlace(a.package)].links, plan, a.package, tree, sha);
    }
    forall place | place in t && place.InPackage?
      ensures exists a ::
        a in plan.artifacts && a.package == place.package && (place.file == "index.html" || place.file == a.filename)
    {
      assert L.IsPlace(place, plan);
    }
  }

  ghost predicate PageExactly(links: seq<L.Link>, plan: Plan, package: string, tree: Tree, sha: Sha) {
    && (forall i, j | 0 <= i < j < |links| :: Text.Lt(links[i].name, links[j].name))
    && (set l | l in links :: l.name) == (set a | a in plan.artifacts && a.package == package :: a.filename)
    && forall l | l in links :: [l.name] in tree && tree[[l.name]].File? && l.digest == sha(tree[[l.name]].bytes)
  }

  lemma PageLists(links: seq<L.Link>, plan: Plan, package: string, tree: Tree, sha: Sha)
    requires L.ListsPackage(links, plan, package, tree, sha)
    ensures PageExactly(links, plan, package, tree, sha)
  {
    hide Text.Le;
  }

  /** Where a published index keeps its pages and files. */
  lemma PublishedPaths(a: Artifact, package: string)
    ensures L.PathOf(L.RootPlace) == ["simple", "index.html"]
    ensures L.PathOf(L.PagePlace(package)) == ["simple", package, "index.html"]
    ensures L.PathOf(L.ArtifactPlace(a)) == ["simple", a.package, a.filename]
  {
  }

  // ---- totals -------------------------------------------------------------------------------------------

  /** The two totals are sums: of nothing zero, of one its size, of two lists both sums. */
  lemma TotalsAreSums(n: string, sizes: map<string, nat>, infos: seq<Entry>, e: Entry)
    requires n in sizes
    ensures SumOver([], sizes) == 0 && SumOver([n], sizes) == sizes[n]
    ensures TotalSize([]) == 0 && TotalSize(infos + [e]) == TotalSize(infos) + e.fileSize
  {
    assert [n][..0] == [] && (infos + [e])[..|infos|] == infos;
  }
}
