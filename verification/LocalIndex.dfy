/** The local PEP 503 index: plan, manifest and disk reconciled before anything is published. */
module LocalIndex {
  import opened Wrappers
  import opened Sorting
  import opened BundleModel
  import PackageName
  import Text

  datatype Link = Link(name: string, digest: string)

  /** What an index tree holds: an artifact's bytes, or a page, seen as what it lists. */
  datatype IndexNode = Served(bytes: Bytes) | PackagePage(links: seq<Link>) | RootPage(packages: seq<string>)

  /** A place under the index root: `simple/index.html`, or a file in a package's directory. */
  datatype Place = RootPlace | InPackage(package: string, file: string)

  function PathOf(place: Place): Path {
    match place
    case RootPlace => ["simple", PAGE]
    case InPackage(package, file) => ["simple", package, file]
  }

  type IndexTree = map<Place, IndexNode>

  class IndexVolume {
    var indexes: map<string, IndexTree>

    constructor ()
      ensures indexes == map[]
    {
      indexes := map[];
    }
  }

  const PAGE := "index.html"

  function ArtifactPlace(a: Artifact): Place {
    InPackage(a.package, a.filename)
  }

  function PagePlace(package: string): Place {
    InPackage(package, PAGE)
  }

  function FilesOf(plan: Plan, package: string): set<string> {
    set a | a in plan.artifacts && a.package == package :: a.filename
  }

  function PackagesOf(plan: Plan): set<string> {
    set a | a in plan.artifacts :: a.package
  }

  // ---- enumerating the extracted directory ---------------------------------------------------

  /** A directory listing as a POSIX file system can produce it. */
  predicate IsPosix(tree: Tree) {
    forall p | p in tree :: p != [] && forall c | c in p :: c != "" && '/' !in c
  }

  /** `as_posix` of a relative path. */
  function Join(p: Path): string
    requires p != []
  {
    if |p| == 1 then p[0] else p[0] + "/" + Join(p[1..])
  }

  /** Every entry is a regular file and the relative names are exactly `names`. */
  predicate HoldsExactly(tree: Tree, names: set<string>)
    requires IsPosix(tree)
  {
    && (forall p | p in tree :: tree[p].File?)
    && (set p | p in tree :: Join(p)) == names
  }

  /** The enumeration of the tree, refusing any entry that is not a regular file. */
  method Enumerate(tree: Tree) returns (ok: bool, names: set<string>)
    requires IsPosix(tree)
    ensures ok <==> forall p | p in tree :: tree[p].File?
    ensures ok ==> names == set p | p in tree :: Join(p)
  {
    names := {};
    var remaining := tree.Keys;
    while remaining != {}
      invariant remaining <= tree.Keys
      invariant forall p | p in tree && p !in remaining :: tree[p].File?
      invariant names == set p | p in tree && p !in remaining :: Join(p)
    {
      var p :| p in remaining;
      if !tree[p].File? {
        return false, names;
      }
      names := names + {Join(p)};
      remaining := remaining - {p};
    }
    ok := true;
  }

  // ---- what may be published -----------------------------------------------------------------

  predicate PlanUsable(plan: Plan) {
    && plan.artifacts != []
    && (forall a | a in plan.artifacts :: IsBare(a.filename))
    && DistinctFilenames(plan)
  }

  /** The manifest is for this plan and both name the same files, packages and digests. */
  predicate ManifestAgrees(plan: Plan, m: Manifest) {
    && ShapeOk(m) && m.planDigest == Some(plan.digest) && HasMembers(m)
    && (forall f | f in m.members.value :: Identified(m.members.value[f]))
    && m.members.value.Keys == Filenames(plan)
    && forall a | a in plan.artifacts ::
      m.members.value[a.filename].package == Some(a.package) && m.members.value[a.filename].sha256 == Some(a.sha256)
  }

  predicate RehashOk(a: Artifact, tree: Tree, sha: Sha) {
    OnDisk(tree, a.filename) && sha(BytesAt(tree, a.filename)) == a.sha256
  }

  predicate PackageOk(a: Artifact) {
    PackageName.Normalise(a.package) == Some(a.package)
  }

  /** Plan, manifest and disk agree, and the bytes on disk hash to the plan's digests now. */
  predicate Publishable(plan: Plan, m: Manifest, tree: Tree, sha: Sha)
    requires IsPosix(tree)
  {
    && PlanUsable(plan) && ManifestAgrees(plan, m)
    && HoldsExactly(tree, Filenames(plan))
    && (forall a | a in plan.artifacts :: RehashOk(a, tree, sha) && PackageOk(a))
  }

  function NamesOf(links: seq<Link>): set<string> {
    set l | l in links :: l.name
  }

  predicate OnDisk(tree: Tree, f: string) {
    [f] in tree && tree[[f]].File?
  }

  /** The bytes of the file at the top of a tree. */
  function BytesAt(tree: Tree, f: string): Bytes {
    if OnDisk(tree, f) then tree[[f]].bytes else []
  }

  predicate Increasing(links: seq<Link>) {
    forall i, j | 0 <= i < j < |links| :: Text.Lt(links[i].name, links[j].name)
  }

  /** A package page lists the package's files once each, in order, with the digests of their bytes. */
  ghost predicate ListsPackage(links: seq<Link>, plan: Plan, package: string, tree: Tree, sha: Sha) {
    && Increasing(links)
    && NamesOf(links) == FilesOf(plan, package)
    && forall l | l in links :: OnDisk(tree, l.name) && l.digest == sha(BytesAt(tree, l.name))
  }

  /** The root page, and for every package its page and its files. */
  predicate IsPlace(place: Place, plan: Plan) {
    match place
    case RootPlace => true
    case InPackage(package, file) => package in PackagesOf(plan) && (file == PAGE || file in FilesOf(plan, package))
  }

  /** The tree published for a plan over an extracted directory. */
  ghost predicate IsPublication(t: IndexTree, plan: Plan, tree: Tree, sha: Sha) {
    && (forall place :: place in t <==> IsPlace(place, plan))
    && t[RootPlace] == RootPage(Text.InOrder(PackagesOf(plan)))
    && (forall p | p in PackagesOf(plan) ::
          t[PagePlace(p)].PackagePage? && ListsPackage(t[PagePlace(p)].links, plan, p, tree, sha))
    && forall a | a in plan.artifacts && a.filename != PAGE ::
         OnDisk(tree, a.filename) && t[ArtifactPlace(a)] == Served(BytesAt(tree, a.filename))
  }

  // ---- the loops -------------------------------------------------------------------------------

  predicate DistinctRows(artifacts: seq<Artifact>) {
    forall i, j | 0 <= i < j < |artifacts| :: artifacts[i].filename != artifacts[j].filename
  }

  lemma RowNext(artifacts: seq<Artifact>, k: nat, byFilename: map<string, Artifact>)
    requires k < |artifacts| && Indexes(byFilename, artifacts[..k]) && DistinctRows(artifacts[..k])
    ensures
      var (next, a) := (artifacts[..k + 1], artifacts[k]);
      && (DistinctRows(next) <==> a.filename !in byFilename)
      && (DistinctRows(artifacts) ==> DistinctRows(next))
      && (a.filename !in byFilename ==> Indexes(byFilename[a.filename := a], next))
  {
    var (seen, next, a) := (artifacts[..k], artifacts[..k + 1], artifacts[k]);
    TakeNext(artifacts, k);
    if a.filename in byFilename {
      var i :| 0 <= i < k && seen[i] == byFilename[a.filename];
      assert next[i].filename == next[k].filename;
    } else {
      forall i, j | 0 <= i < j < |next| ensures next[i].filename != next[j].filename {
        if j == k {
          assert seen[i] in seen;
        } else {
          assert seen[i] == next[i] && seen[j] == next[j];
        }
      }
    }
  }

  method ReadPlan(plan: Plan) returns (ok: bool, byFilename: map<string, Artifact>)
    ensures ok <==> (forall a | a in plan.artifacts :: IsBare(a.filename)) && DistinctFilenames(plan)
    ensures ok ==> Indexes(byFilename, plan.artifacts) && byFilename.Keys == Filenames(plan)
  {
    hide Indexes, DistinctRows, IsBare;
    var artifacts := plan.artifacts;
    byFilename := map[];
    TakeAll(artifacts);
    NoRows(plan);
    for k := 0 to |artifacts|
      invariant forall a | a in artifacts[..k] :: IsBare(a.filename)
      invariant DistinctRows(artifacts[..k]) && Indexes(byFilename, artifacts[..k])
    {
      var a := artifacts[k];
      TakeNext(artifacts, k);
      RowNext(artifacts, k, byFilename);
      if !IsBare(a.filename) {
        return false, byFilename;
      }
      if a.filename in byFilename {
        return false, byFilename;
      }
      byFilename := byFilename[a.filename := a];
    }
    RowNames(plan, byFilename);
    ok := true;
  }

  lemma NoRows(plan: Plan)
    ensures DistinctRows([]) && Indexes(map[], [])
    ensures DistinctFilenames(plan) <==> DistinctRows(plan.artifacts)
  {
  }

  lemma RowNames(plan: Plan, byFilename: map<string, Artifact>)
    requires Indexes(byFilename, plan.artifacts)
    ensures byFilename.Keys == Filenames(plan)
  {
  }

  predicate RowAgrees(a: Artifact, record: MemberRecord) {
    record.package == Some(a.package) && record.sha256 == Some(a.sha256)
  }

  /**
   * Steps 1 and 4, file by file: the manifest's row agrees with the plan's, and the bytes hash to
   * the plan's digest.
   */
  method ReconcileRows(byFilename: map<string, Artifact>, members: map<string, MemberRecord>) returns (ok: bool)
    requires byFilename.Keys == members.Keys
    ensures ok <==> forall f | f in byFilename :: RowAgrees(byFilename[f], members[f])
  {
    var remaining := byFilename.Keys;
    while remaining != {}
      invariant remaining <= byFilename.Keys
      invariant forall f | f in byFilename && f !in remaining :: RowAgrees(byFilename[f], members[f])
    {
      var f :| f in remaining;
      if !RowAgrees(byFilename[f], members[f]) {
        return false;
      }
      remaining := remaining - {f};
    }
    return true;
  }

  method Rehash(byFilename: map<string, Artifact>, tree: Tree, sha: Sha) returns (ok: bool)
    ensures ok <==> forall f | f in byFilename :: RehashOk(byFilename[f], tree, sha)
  {
    var remaining := byFilename.Keys;
    while remaining != {}
      invariant remaining <= byFilename.Keys
      invariant forall f | f in byFilename && f !in remaining :: RehashOk(byFilename[f], tree, sha)
    {
      var f :| f in remaining;
      if !RehashOk(byFilename[f], tree, sha) {
        return false;
      }
      remaining := remaining - {f};
    }
    return true;
  }

  function NamesUnder(names: seq<string>, byFilename: map<string, Artifact>, p: string): set<string> {
    set n | n in names && n in byFilename && byFilename[n].package == p
  }

  /** One package's links: its files so far, in order, with the plan's digests. */
  ghost predicate GroupOk(links: seq<Link>, names: seq<string>, byFilename: map<string, Artifact>, p: string) {
    && Increasing(links)
    && NamesOf(links) == NamesUnder(names, byFilename, p) != {}
    && forall l | l in links :: l.name in byFilename && l.digest == byFilename[l.name].sha256
  }

  /** The files filed under their packages so far, in name order. */
  ghost predicate Grouped(packages: map<string, seq<Link>>, names: seq<string>, byFilename: map<string, Artifact>) {
    && (forall n | n in names :: n in byFilename && byFilename[n].package in packages)
    && (forall p | p in packages :: GroupOk(packages[p], names, byFilename, p))
  }

  function LinksUnder(packages: map<string, seq<Link>>, p: string): seq<Link> {
    if p in packages then packages[p] else []
  }

  lemma AppendIncreasing(links: seq<Link>, l: Link)
    requires Increasing(links) && forall n | n in NamesOf(links) :: Text.Lt(n, l.name)
    ensures Increasing(links + [l])
    ensures NamesOf(links + [l]) == NamesOf(links) + {l.name}
  {
    var more := links + [l];
    forall i, j | 0 <= i < j < |more| ensures Text.Lt(more[i].name, more[j].name) {
      if j == |links| {
        assert links[i].name in NamesOf(links);
      }
    }
  }

  lemma GroupNext(packages: map<string, seq<Link>>, names: seq<string>, k: nat, byFilename: map<string, Artifact>)
    requires k < |names| && Sorted(names, Text.Le) && NoDuplicates(names) && names[k] in byFilename
    requires Grouped(packages, names[..k], byFilename)
    ensures
      var a := byFilename[names[k]];
      Grouped(packages[a.package := LinksUnder(packages, a.package) + [Link(names[k], a.sha256)]], names[..k + 1],
        byFilename)
  {
    hide Text.Le;
    TakeNext(names, k);
    var (seen, next, n) := (names[..k], names[..k + 1], names[k]);
    var a := byFilename[n];
    var links := LinksUnder(packages, a.package);
    var grown := packages[a.package := links + [Link(n, a.sha256)]];
    forall m | m in seen ensures Text.Lt(m, n) {
      var i :| 0 <= i < k && names[i] == m;
      assert Text.Le(names[i], names[k]);
    }
    forall p | p in grown ensures GroupOk(grown[p], next, byFilename, p) {
      assert NamesUnder(next, byFilename, p) == NamesUnder(seen, byFilename, p) + (if p == a.package then {n} else {});
      if p == a.package {
        if p !in packages {
          NoneUnder(packages, seen, byFilename, p);
        }
        AppendIncreasing(links, Link(n, a.sha256));
        assert n in NamesUnder(next, byFilename, p);
      }
    }
  }

  lemma NoneUnder(packages: map<string, seq<Link>>, names: seq<string>, byFilename: map<string, Artifact>, p: string)
    requires Grouped(packages, names, byFilename) && p !in packages
    ensures NamesUnder(names, byFilename, p) == {} == NamesOf([])
  {
  }

  /** Step 5: the package map, in sorted file order, every package name canonical. */
  method GroupPackages(byFilename: map<string, Artifact>) returns (ok: bool, packages: map<string, seq<Link>>)
    ensures ok <==> forall f | f in byFilename :: PackageOk(byFilename[f])
    ensures ok ==> Grouped(packages, Text.InOrder(byFilename.Keys), byFilename)
  {
    hide Grouped, PackageOk;
    var names := Text.InOrder(byFilename.Keys);
    packages := map[];
    TakeAll(names);
    NothingGrouped(byFilename);
    for k := 0 to |names|
      invariant forall n | n in names[..k] :: PackageOk(byFilename[n])
      invariant Grouped(packages, names[..k], byFilename)
    {
      var n := names[k];
      TakeNext(names, k);
      GroupNext(packages, names, k, byFilename);
      var a := byFilename[n];
      if !PackageOk(a) {
        return false, packages;
      }
      packages := packages[a.package := LinksUnder(packages, a.package) + [Link(n, a.sha256)]];
    }
    ok := true;
  }

  lemma NothingGrouped(byFilename: map<string, Artifact>)
    ensures Grouped(map[], [], byFilename)
  {
  }

  // ---- staging -----------------------------------------------------------------------------------

  /** One package's directory: the linked files' bytes, then its page over whatever bears the page's name. */
  ghost predicate StagedPackage(t: IndexTree, p: string, links: seq<Link>, tree: Tree) {
    && PagePlace(p) in t && t[PagePlace(p)] == PackagePage(links)
    && forall n | n in NamesOf(links) && n != PAGE ::
      InPackage(p, n) in t && t[InPackage(p, n)] == Served(BytesAt(tree, n))
  }

  method StagePackage(p: string, links: seq<Link>, tree: Tree) returns (t: IndexTree)
    ensures StagedPackage(t, p, links, tree)
    ensures forall place ::
      place in t <==> place.InPackage? && place.package == p && (place.file == PAGE || place.file in NamesOf(links))
  {
    t := map[];
    for k := 0 to |links|
      invariant forall place ::
        place in t <==> place.InPackage? && place.package == p && place.file in NamesOf(links[..k])
      invariant forall n | n in NamesOf(links[..k]) :: t[InPackage(p, n)] == Served(BytesAt(tree, n))
    {
      var name := links[k].name;
      TakeNext(links, k);
      assert NamesOf(links[..k + 1]) == NamesOf(links[..k]) + {name};
      t := t[InPackage(p, name) := Served(BytesAt(tree, name))];
    }
    TakeAll(links);
    t := t[PagePlace(p) := PackagePage(links)];
  }

  /** The staged tree of the packages handled so far. */
  ghost predicate Staged(t: IndexTree, packages: map<string, seq<Link>>, done: set<string>, tree: Tree)
    requires done <= packages.Keys
  {
    && (forall p | p in done :: StagedPackage(t, p, packages[p], tree))
    && forall place :: place in t <==>
         && place.InPackage? && place.package in done
         && (place.file == PAGE || place.file in NamesOf(packages[place.package]))
  }

  predicate ByName(a: Link, b: Link) {
    Text.Le(a.name, b.name)
  }

  method StagePackages(packages: map<string, seq<Link>>, tree: Tree) returns (t: IndexTree)
    requires forall p | p in packages :: Sorted(packages[p], ByName)
    ensures Staged(t, packages, packages.Keys, tree)
  {
    hide Text.Le, NamesOf, BytesAt;
    t := map[];
    var remaining := packages.Keys;
    while remaining != {}
      invariant remaining <= packages.Keys
      invariant Staged(t, packages, packages.Keys - remaining, tree)
    {
      var p :| p in remaining;
      var links := Sort(packages[p], ByName);
      SortIsIdentityOnSorted(packages[p], ByName);
      var staged := StagePackage(p, links, tree);
      t := t + staged;
      remaining := remaining - {p};
    }
    assert packages.Keys - remaining == packages.Keys;
  }

  // ---- from what was grouped and staged to what is published -------------------------------------

  lemma PackagesAreThePlans(packages: map<string, seq<Link>>, byFilename: map<string, Artifact>, plan: Plan)
    requires Indexes(byFilename, plan.artifacts)
    requires Grouped(packages, Text.InOrder(byFilename.Keys), byFilename)
    ensures packages.Keys == PackagesOf(plan)
  {
    hide Text.Le, Increasing, Text.InOrder;
    var names := Text.InOrder(byFilename.Keys);
    assert forall n :: n in names <==> n in byFilename;
    forall p | p in PackagesOf(plan) ensures p in packages {
      var a :| a in plan.artifacts && a.package == p;
      assert byFilename[a.filename] == a && a.filename in names;
    }
    forall p | p in packages ensures p in PackagesOf(plan) {
      assert GroupOk(packages[p], names, byFilename, p);
      var n :| n in NamesUnder(names, byFilename, p);
    }
  }

  lemma GroupedListsPackage(
      packages: map<string, seq<Link>>, byFilename: map<string, Artifact>, plan: Plan, tree: Tree, sha: Sha, p: string)
    requires Indexes(byFilename, plan.artifacts)
    requires Grouped(packages, Text.InOrder(byFilename.Keys), byFilename) && p in packages
    requires forall f | f in byFilename :: RehashOk(byFilename[f], tree, sha)
    ensures Sorted(packages[p], ByName) && ListsPackage(packages[p], plan, p, tree, sha)
  {
    hide Text.Le, Text.InOrder;
    var names := Text.InOrder(byFilename.Keys);
    assert forall n :: n in names <==> n in byFilename;
    var links := packages[p];
    assert GroupOk(links, names, byFilename, p);
    assert NamesUnder(names, byFilename, p) == FilesOf(plan, p) by {
      forall f | f in FilesOf(plan, p) ensures f in NamesUnder(names, byFilename, p) {
        var a :| a in plan.artifacts && a.package == p && a.filename == f;
        assert byFilename[f] == a;
      }
    }
    forall l | l in links ensures OnDisk(tree, l.name) && l.digest == sha(BytesAt(tree, l.name)) {
      assert RehashOk(byFilename[l.name], tree, sha) && byFilename[l.name].filename == l.name;
    }
  }

  lemma StagedIsPublication(t: IndexTree, packages: map<string, seq<Link>>, plan: Plan, tree: Tree, sha: Sha)
    requires packages.Keys == PackagesOf(plan) && Staged(t, packages, packages.Keys, tree)
    requires forall p | p in packages :: ListsPackage(packages[p], plan, p, tree, sha)
    requires forall a | a in plan.artifacts :: RehashOk(a, tree, sha)
    ensures IsPublication(t[RootPlace := RootPage(Text.InOrder(PackagesOf(plan)))], plan, tree, sha)
  {
    hide Increasing, NamesOf, BytesAt, Text.InOrder;
    var u := t[RootPlace := RootPage(Text.InOrder(PackagesOf(plan)))];
    forall place ensures place in u <==> IsPlace(place, plan) {
      if place.InPackage? && place.package in packages {
        assert ListsPackage(packages[place.package], plan, place.package, tree, sha);
      }
    }
    forall a | a in plan.artifacts && a.filename != PAGE
      ensures OnDisk(tree, a.filename) && u[ArtifactPlace(a)] == Served(BytesAt(tree, a.filename))
    {
      assert RehashOk(a, tree, sha) && a.package in PackagesOf(plan) && a.filename in FilesOf(plan, a.package);
      assert StagedPackage(t, a.package, packages[a.package], tree);
    }
    forall p | p in PackagesOf(plan)
      ensures u[PagePlace(p)].PackagePage? && ListsPackage(u[PagePlace(p)].links, plan, p, tree, sha)
    {
      assert StagedPackage(t, p, packages[p], tree);
    }
  }

  /**
   * Publish the index at `indexRoot`, or change nothing. It is published exactly when the place is
   * free and plan, manifest and disk agree.
   */
  method BuildLocalIndex(volume: IndexVolume, indexRoot: string, plan: Plan, m: Manifest, tree: Tree, sha: Sha)
    returns (ok: bool)
    requires IsPosix(tree)
    modifies volume
    ensures ok <==> indexRoot !in old(volume.indexes) && Publishable(plan, m, tree, sha)
    ensures ok ==> indexRoot in volume.indexes && IsPublication(volume.indexes[indexRoot], plan, tree, sha)
    ensures volume.indexes - {indexRoot} == old(volume.indexes) - {indexRoot}
    ensures !ok ==> volume.indexes == old(volume.indexes)
  {
    hide IsPublication, RehashOk, PackageOk, PlanUsable, ManifestAgrees, HoldsExactly, IsPosix;
    if indexRoot in volume.indexes {
      return false;
    }
    var byFilename, t;
    ok, byFilename := Reconcile(plan, m, tree, sha);
    if ok {
      ok, t := Assemble(plan, byFilename, tree, sha);
    }
    if ok {
      volume.indexes := volume.indexes[indexRoot := t];
    }
  }

  /** Steps 1 to 4: plan against manifest, manifest against disk, and the bytes against the plan. */
  ghost predicate Reconciled(plan: Plan, m: Manifest, tree: Tree, sha: Sha)
    requires IsPosix(tree)
  {
    && PlanUsable(plan) && ManifestAgrees(plan, m) && HoldsExactly(tree, Filenames(plan))
    && forall a | a in plan.artifacts :: RehashOk(a, tree, sha)
  }

  method Reconcile(plan: Plan, m: Manifest, tree: Tree, sha: Sha) returns (ok: bool, byFilename: map<string, Artifact>)
    requires IsPosix(tree)
    ensures ok <==> Reconciled(plan, m, tree, sha)
    ensures ok ==> Indexes(byFilename, plan.artifacts) && byFilename.Keys == Filenames(plan)
  {
    hide ShapeOk, RehashOk, PackageOk, Indexes, IsBare, HoldsExactly, IsPosix, DistinctFilenames, Identified;
    byFilename := map[];
    if plan.artifacts == [] || !ShapeOk(m) || m.planDigest != Some(plan.digest) || !HasMembers(m) {
      return false, byFilename;
    }
    var planOk;
    planOk, byFilename := ReadPlan(plan);
    if !planOk {
      return false, byFilename;
    }
    var members := m.members.value;
    if !(forall f | f in members :: Identified(members[f])) || byFilename.Keys != members.Keys {
      return false, byFilename;
    }
    RowsOrPlan(plan, byFilename, members, tree, sha);
    var rowsAgree := ReconcileRows(byFilename, members);
    if !rowsAgree {
      return false, byFilename;
    }
    var regular, names := Enumerate(tree);
    Enumerated(tree, members.Keys);
    if !regular || names != members.Keys {
      return false, byFilename;
    }
    ok := Rehash(byFilename, tree, sha);
  }

  /** Step 5 and staging: the package map and the tree to be renamed into place. */
  method Assemble(plan: Plan, byFilename: map<string, Artifact>, tree: Tree, sha: Sha) returns (ok: bool, t: IndexTree)
    requires Indexes(byFilename, plan.artifacts) && byFilename.Keys == Filenames(plan)
    requires forall a | a in plan.artifacts :: RehashOk(a, tree, sha)
    ensures ok <==> forall a | a in plan.artifacts :: PackageOk(a)
    ensures ok ==> IsPublication(t, plan, tree, sha)
  {
    hide IsPublication, RehashOk, PackageOk, Grouped, Staged, ListsPackage, Text.InOrder;
    t := map[];
    forall f | f in byFilename ensures byFilename[f] in plan.artifacts {}
    var canonical, packages := GroupPackages(byFilename);
    if !canonical {
      return false, t;
    }
    forall p | p in packages ensures Sorted(packages[p], ByName) && ListsPackage(packages[p], plan, p, tree, sha) {
      GroupedListsPackage(packages, byFilename, plan, tree, sha, p);
    }
    PackagesAreThePlans(packages, byFilename, plan);
    t := StagePackages(packages, tree);
    StagedIsPublication(t, packages, plan, tree, sha);
    t := t[RootPlace := RootPage(Text.InOrder(packages.Keys))];
    ok := true;
  }

  lemma Enumerated(tree: Tree, names: set<string>)
    requires IsPosix(tree)
    ensures HoldsExactly(tree, names) <==>
      (forall p | p in tree :: tree[p].File?) && (set p | p in tree :: Join(p)) == names
  {
  }

  /** The row-by-row checks are the plan's checks. */
  lemma RowsOrPlan(
      plan: Plan, byFilename: map<string, Artifact>, members: map<string, MemberRecord>, tree: Tree, sha: Sha)
    requires Indexes(byFilename, plan.artifacts) && byFilename.Keys == Filenames(plan) == members.Keys
    ensures (forall f | f in byFilename :: RowAgrees(byFilename[f], members[f])) <==>
      forall a | a in plan.artifacts ::
        members[a.filename].package == Some(a.package) && members[a.filename].sha256 == Some(a.sha256)
    ensures (forall f | f in byFilename :: RehashOk(byFilename[f], tree, sha))
      <==> (forall a | a in plan.artifacts :: RehashOk(a, tree, sha))
    ensures (forall f | f in byFilename :: PackageOk(byFilename[f]))
      <==> (forall a | a in plan.artifacts :: PackageOk(a))
  {
    hide RehashOk, PackageOk;
    forall a | a in plan.artifacts ensures a.filename in byFilename && byFilename[a.filename] == a {}
    forall f | f in byFilename ensures byFilename[f] in plan.artifacts && byFilename[f].filename == f {}
  }

  // ---- what publication means --------------------------------------------------------------------

  /** Every artifact is served at its own place. */
  ghost predicate ServesAll(t: IndexTree, plan: Plan, tree: Tree) {
    forall a | a in plan.artifacts ::
      OnDisk(tree, a.filename) && ArtifactPlace(a) in t && t[ArtifactPlace(a)] == Served(BytesAt(tree, a.filename))
  }

  /** A published index serves every artifact exactly when none is named like a page. */
  lemma ServesAllUnlessNamedLikeAPage(t: IndexTree, plan: Plan, tree: Tree, sha: Sha)
    requires IsPublication(t, plan, tree, sha)
    ensures ServesAll(t, plan, tree) <==> forall a | a in plan.artifacts :: a.filename != PAGE
  {
    hide ListsPackage, BytesAt;
    forall a | a in plan.artifacts ensures ArtifactPlace(a) in t && a.package in PackagesOf(plan) {
      assert a.filename in FilesOf(plan, a.package);
      assert IsPlace(ArtifactPlace(a), plan);
    }
  }

  /** One artifact that happens to be called `index.html`, with a manifest and a directory that agree with it. */
  function PageNamedPlan(sha: Sha): Plan {
    Plan(sha([]), [Artifact("a", PAGE, sha([0]))])
  }

  function PageNamedManifest(sha: Sha): Manifest {
    var run := RunRecord(
      Some(1), Some(1), Some(1), Some(1), Some(1), Some("r"), Some("w"), Some("n"), Some("e"),
      Some(seq(40, _ => 'a')));
    Manifest(
      Some(MANIFEST_SCHEMA_VERSION), Some(sha([])), Some(sha([])), Some(run),
      Some(map[PAGE := MemberRecord(Some(1), Some(sha([0])), Some("a"))]))
  }

  function PageNamedTree(): Tree {
    map[[PAGE] := File([0])]
  }

  /** Such an artifact is accepted for publication, and the published index does not serve it. */
  lemma PageNamedArtifactIsLost(sha: Sha)
    requires YieldsSha256(sha)
    ensures
      var (plan, m, tree) := (PageNamedPlan(sha), PageNamedManifest(sha), PageNamedTree());
      && IsPosix(tree) && Publishable(plan, m, tree, sha) && PAGE in Filenames(plan)
      && forall t | IsPublication(t, plan, tree, sha) :: !ServesAll(t, plan, tree)
  {
    var (plan, m, tree) := (PageNamedPlan(sha), PageNamedManifest(sha), PageNamedTree());
    assert plan.artifacts[0] in plan.artifacts;
    assert Filenames(plan) == {PAGE};
    PageNamedManifestAgrees(sha);
    PageNamedTreeAgrees(sha);
    hide PlanUsable, ManifestAgrees, HoldsExactly, IsPublication, ServesAll, PackageName.Normalise;
    forall t | IsPublication(t, plan, tree, sha) ensures !ServesAll(t, plan, tree) {
      ServesAllUnlessNamedLikeAPage(t, plan, tree, sha);
    }
  }

  lemma PageNamedManifestAgrees(sha: Sha)
    requires YieldsSha256(sha)
    ensures ManifestAgrees(PageNamedPlan(sha), PageNamedManifest(sha))
  {
    var run := PageNamedManifest(sha).run;
    assert run.value.trustedWorkflowSha.value[0] != '0';
    assert RunOk(run);
    assert PAGE in PageNamedManifest(sha).members.value;
  }

  lemma PageNamedTreeAgrees(sha: Sha)
    ensures
      var (plan, tree) := (PageNamedPlan(sha), PageNamedTree());
      && PlanUsable(plan) && IsPosix(tree) && HoldsExactly(tree, Filenames(plan))
      && forall a | a in plan.artifacts :: RehashOk(a, tree, sha) && PackageOk(a)
  {
    OneLetterIsNormal();
    hide PackageName.Normalise;
    PageNamedPlanIsUsable(sha);
    PageNamedTreeHolds();
    hide PlanUsable, HoldsExactly, IsPosix, Filenames, PAGE;
  }

  lemma PageNamedPlanIsUsable(sha: Sha)
    ensures PlanUsable(PageNamedPlan(sha)) && Filenames(PageNamedPlan(sha)) == {PAGE}
  {
  }

  lemma PageNamedTreeHolds()
    ensures IsPosix(PageNamedTree()) && HoldsExactly(PageNamedTree(), {PAGE}) && [PAGE] in PageNamedTree()
  {
    var tree := PageNamedTree();
    assert Join([PAGE]) == PAGE;
    hide Join;
    assert tree.Keys == {[PAGE]};
    assert [PAGE] in tree && (set p | p in tree :: Join(p)) == {PAGE};
  }

  lemma OneLetterIsNormal()
    ensures PackageName.Normalise("a") == Some("a")
  {
    assert PackageName.Collapse("a") == "a" && PackageName.Lower("a") == "a";
  }

  /**
   * The published paths form a tree a file system can hold: different places have different paths,
   * none below another.
   */
  lemma PublicationIsATree(t: IndexTree, plan: Plan, m: Manifest, tree: Tree, sha: Sha, p: Place, q: Place)
    requires IsPosix(tree) && Publishable(plan, m, tree, sha) && IsPublication(t, plan, tree, sha)
    requires p in t && q in t
    ensures PathOf(p) == PathOf(q) ==> p == q
    ensures !(PathOf(p) < PathOf(q))
  {
    hide ListsPackage, HoldsExactly, ManifestAgrees, PlanUsable;
    if q.InPackage? {
      assert IsPlace(q, plan);
      var a :| a in plan.artifacts && a.package == q.package;
      assert PackageOk(a);
      NormalIsNoPage(a.package);
      PathShape(q);
    }
    PathShape(p);
  }

  lemma PathShape(p: Place)
    ensures p.InPackage? ==> |PathOf(p)| == 3 && PathOf(p)[1] == p.package && PathOf(p)[2] == p.file
    ensures p.RootPlace? ==> |PathOf(p)| == 2 && PathOf(p)[1] == PAGE
  {
  }

  lemma NormalIsNoPage(package: string)
    requires PackageName.Normalise(package) == Some(package)
    ensures package != PAGE
  {
    PackageName.NormaliseIsNormal(package);
    assert PAGE[5] == '.';
  }
}
