/** What the dependency-bundle envelope works on: archives, manifests, plans and trees of files. */
module BundleModel {
  import opened Wrappers
  import opened Sorting
  import Text

  type Byte = x: int | 0 <= x < 256
  type Bytes = seq<Byte>

  /** `sha256_hex`; nothing is known of it but the shape of its values. */
  type Sha = Bytes -> string

  ghost predicate YieldsSha256(sha: Sha) {
    forall data :: IsSha256(sha(data))
  }

  predicate IsSha256(s: string) {
    Text.HexDigits(s, 64)
  }

  /** No two of the contents in play share a digest. */
  ghost predicate CollisionFree(sha: Sha, contents: set<Bytes>) {
    forall x, y | x in contents && y in contents && sha(x) == sha(y) :: x == y
  }

  /** `str.lower`. */
  type Fold = string -> string

  /** Which of the two error classes a refusal raises. */
  datatype Refusal = Verification | Extraction

  const MAX_MEMBER_BYTES: nat := 200 * 1024 * 1024
  const MAX_MEMBER_COUNT: nat := 512
  const MAX_TOTAL_UNCOMPRESSED_BYTES: nat := 2 * 1024 * 1024 * 1024
  const MAX_COMPRESSION_RATIO: nat := 100
  const CHUNK: nat := 1024 * 1024

  // ---- archives --------------------------------------------------------------------

  /** One directory entry of a ZIP, and the bytes its stream really yields before it ends or proves corrupt. */
  datatype Entry = Entry(name: string, fileSize: nat, compressSize: nat, mode: nat, stream: Bytes, corrupt: bool)

  /** A file offered as an archive: its own bytes, and its entries when it opens as a ZIP. */
  datatype Archive = Archive(raw: Bytes, infos: Option<seq<Entry>>)

  /** `stat.S_ISLNK`. */
  predicate IsSymlinkMode(mode: nat) {
    mode / 0x1000 % 16 == 0xA
  }

  predicate RatioOk(e: Entry) {
    e.compressSize > 0 ==> e.fileSize <= MAX_COMPRESSION_RATIO * e.compressSize
  }

  predicate DistinctNames(infos: seq<Entry>) {
    forall i, j | 0 <= i < j < |infos| :: infos[i].name != infos[j].name
  }

  function NamesOf(infos: seq<Entry>): (r: seq<string>)
    ensures |r| == |infos| && forall i | 0 <= i < |infos| :: r[i] == infos[i].name
  {
    seq(|infos|, i requires 0 <= i < |infos| => infos[i].name)
  }

  function NameSet(infos: seq<Entry>): set<string> {
    set e | e in infos :: e.name
  }

  function TotalSize(infos: seq<Entry>): nat {
    if infos == [] then 0 else TotalSize(infos[..|infos| - 1]) + infos[|infos| - 1].fileSize
  }

  // ---- paths and trees -----------------------------------------------------------------

  type Path = seq<string>

  /** The pieces of a string between slashes. */
  function Split(s: string): (r: seq<string>)
    ensures r != []
  {
    if s == "" then [""]
    else
      var rest := Split(s[1..]);
      if s[0] == '/' then [""] + rest else [[s[0]] + rest[0]] + rest[1..]
  }

  function DropNoise(pieces: seq<string>): Path {
    if pieces == [] then []
    else (if pieces[0] == "" || pieces[0] == "." then [] else [pieces[0]]) + DropNoise(pieces[1..])
  }

  /** `Path(name).parts` of a relative name: empty pieces and `.` vanish, `..` stays. */
  function Parts(name: string): Path {
    DropNoise(Split(name))
  }

  /** A bare file name: no separator, not absolute, neither `.` nor `..`. */
  predicate IsBare(f: string) {
    f != "" && '/' !in f && '\\' !in f && f != "." && f != ".."
  }

  lemma {:induction false} SplitWithoutSlash(s: string)
    requires '/' !in s
    ensures Split(s) == [s]
  {
    if s != "" {
      assert s[0] in s && forall c | c in s[1..] :: c in s;
      SplitWithoutSlash(s[1..]);
      assert [s[0]] + s[1..] == s;
    }
  }

  lemma BareParts(f: string)
    requires IsBare(f)
    ensures Parts(f) == [f]
  {
    SplitWithoutSlash(f);
    assert [f][1..] == [] && DropNoise([]) == [];
    assert [f] + [] == [f];
  }

  /** What a path holds, seen without following it: a regular file, or a link or other special entry. */
  datatype Node = File(bytes: Bytes) | Special

  /** The files below a directory; directories are the proper prefixes of their paths. */
  type Tree = map<Path, Node>

  /** Opening `p` for writing succeeds: no part of the way is a file, and `p` is no directory. */
  predicate CanWrite(tree: Tree, p: Path) {
    && p != []
    && (forall k | 0 < k < |p| :: p[..k] !in tree)
    && (forall q | q in tree :: !(p < q))
  }

  // ---- plans and manifests ---------------------------------------------------------------

  datatype Artifact = Artifact(package: string, filename: string, sha256: string)

  datatype Plan = Plan(digest: string, artifacts: seq<Artifact>)

  function Filenames(plan: Plan): set<string> {
    set a | a in plan.artifacts :: a.filename
  }

  predicate DistinctFilenames(plan: Plan) {
    forall i, j | 0 <= i < j < |plan.artifacts| :: plan.artifacts[i].filename != plan.artifacts[j].filename
  }

  /** The plan as a table by file name. */
  ghost predicate Indexes(byFilename: map<string, Artifact>, artifacts: seq<Artifact>) {
    && (forall a | a in artifacts :: a.filename in byFilename && byFilename[a.filename] == a)
    && (forall f | f in byFilename :: byFilename[f] in artifacts && byFilename[f].filename == f)
  }

  /** One more row of the table, unless its file name is taken. */
  lemma IndexNext(artifacts: seq<Artifact>, k: nat, byFilename: map<string, Artifact>)
    requires k < |artifacts| && Indexes(byFilename, artifacts[..k])
    ensures
      var (next, a) := (artifacts[..k + 1], artifacts[k]);
      && (a.filename in byFilename ==> exists b :: b in artifacts[..k] && b.filename == a.filename)
      && (a.filename !in byFilename ==> Indexes(byFilename[a.filename := a], next))
  {
    TakeNext(artifacts, k);
    if artifacts[k].filename in byFilename {
      assert byFilename[artifacts[k].filename] in artifacts[..k];
    }
  }

  /** A manifest's run table; a field is absent when missing or of the wrong type. */
  datatype RunRecord = RunRecord(
    repositoryId: Option<int>, runId: Option<int>, runAttempt: Option<int>,
    artifactId: Option<int>, artifactRunId: Option<int>,
    repositoryFullName: Option<string>, workflowPath: Option<string>, artifactName: Option<string>,
    environmentName: Option<string>, trustedWorkflowSha: Option<string>)

  predicate Positive(v: Option<int>) {
    v.Some? && v.value > 0
  }

  predicate Worded(v: Option<string>) {
    v.Some? && v.value != ""
  }

  predicate RunOk(r: Option<RunRecord>) {
    && r.Some?
    && var v := r.value;
    && Positive(v.repositoryId) && Positive(v.runId) && Positive(v.runAttempt)
    && Positive(v.artifactId) && Positive(v.artifactRunId)
    && Worded(v.repositoryFullName) && Worded(v.workflowPath) && Worded(v.artifactName) && Worded(v.environmentName)
    && v.trustedWorkflowSha.Some? && Text.HexDigits(v.trustedWorkflowSha.value, 40)
    && exists i | 0 <= i < 40 :: v.trustedWorkflowSha.value[i] != '0'
  }

  datatype MemberRecord = MemberRecord(size: Option<int>, sha256: Option<string>, package: Option<string>)

  datatype Manifest = Manifest(
    schemaVersion: Option<int>, planDigest: Option<string>, archiveSha256: Option<string>, run: Option<RunRecord>,
    members: Option<map<string, MemberRecord>>)

  const MANIFEST_SCHEMA_VERSION: int := 2

  predicate ShapeOk(m: Manifest) {
    && m.schemaVersion == Some(MANIFEST_SCHEMA_VERSION)
    && m.planDigest.Some? && IsSha256(m.planDigest.value)
    && m.archiveSha256.Some? && IsSha256(m.archiveSha256.value)
    && RunOk(m.run)
  }

  predicate HasMembers(m: Manifest) {
    m.members.Some? && m.members.value != map[]
  }

  /** What the index asks of a member record. */
  predicate Identified(r: MemberRecord) {
    r.sha256.Some? && IsSha256(r.sha256.value) && Worded(r.package)
  }

  /** What extraction asks of it. */
  predicate Sized(r: MemberRecord) {
    r.size.Some? && r.size.value > 0 && Identified(r)
  }

  // ---- sums that do not depend on order ------------------------------------------------------

  function SumOver(names: seq<string>, sizes: map<string, nat>): nat
    requires forall n | n in names :: n in sizes
  {
    if names == [] then 0 else SumOver(names[..|names| - 1], sizes) + sizes[names[|names| - 1]]
  }

  lemma {:induction false} SumSplits(a: seq<string>, b: seq<string>, sizes: map<string, nat>)
    requires (forall n | n in a :: n in sizes) && (forall n | n in b :: n in sizes)
    ensures SumOver(a + b, sizes) == SumOver(a, sizes) + SumOver(b, sizes)
  {
    if b == [] {
      assert a + b == a;
    } else {
      assert (a + b)[..|a + b| - 1] == a + b[..|b| - 1];
      SumSplits(a, b[..|b| - 1], sizes);
    }
  }

  lemma SumWithout(b: seq<string>, k: nat, sizes: map<string, nat>)
    requires k < |b| && forall n | n in b :: n in sizes
    ensures SumOver(b, sizes) == SumOver(b[..k] + b[k + 1..], sizes) + sizes[b[k]]
  {
    SumSplits(b[..k], b[k + 1..], sizes);
    SumSplits(b[..k + 1], b[k + 1..], sizes);
    assert b == b[..k + 1] + b[k + 1..];
    assert b[..k + 1][..k] == b[..k];
  }

  lemma WithoutOne(a: seq<string>, b: seq<string>, k: nat)
    requires a != [] && k < |b| && b[k] == a[|a| - 1] && multiset(a) == multiset(b)
    ensures multiset(a[..|a| - 1]) == multiset(b[..k] + b[k + 1..])
  {
    assert a == a[..|a| - 1] + [a[|a| - 1]];
    assert b == b[..k] + [b[k]] + b[k + 1..];
    assert multiset(b) == multiset(b[..k]) + multiset{b[k]} + multiset(b[k + 1..]);
    assert multiset(a) == multiset(a[..|a| - 1]) + multiset{b[k]};
    assert multiset(b[..k] + b[k + 1..]) == multiset(b[..k]) + multiset(b[k + 1..]);
    assert multiset(a[..|a| - 1]) == multiset(a) - multiset{b[k]};
    assert multiset(b[..k] + b[k + 1..]) == multiset(b) - multiset{b[k]};
  }

  /** Two listings of the same names add up to the same total. */
  lemma {:induction false} SumIgnoresOrder(a: seq<string>, b: seq<string>, sizes: map<string, nat>)
    requires (forall n | n in a :: n in sizes) && (forall n | n in b :: n in sizes) && multiset(a) == multiset(b)
    ensures SumOver(a, sizes) == SumOver(b, sizes)
    decreases |a|
  {
    MembersAgree(a, b);
    if a != [] {
      assert a[|a| - 1] in b;
      var k :| 0 <= k < |b| && b[k] == a[|a| - 1];
      WithoutOne(a, b, k);
      SumWithout(b, k, sizes);
      SumIgnoresOrder(a[..|a| - 1], b[..k] + b[k + 1..], sizes);
    }
  }

  lemma {:induction false} TotalSizeIsSum(infos: seq<Entry>, sizes: map<string, nat>)
    requires forall i | 0 <= i < |infos| :: infos[i].name in sizes && infos[i].fileSize == sizes[infos[i].name]
    ensures TotalSize(infos) == SumOver(NamesOf(infos), sizes)
  {
    if infos != [] {
      TotalSizeIsSum(infos[..|infos| - 1], sizes);
      assert NamesOf(infos)[..|infos| - 1] == NamesOf(infos[..|infos| - 1]);
    }
  }
}
