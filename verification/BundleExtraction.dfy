/** Staged, all-or-nothing extraction of a verified bundle archive. */
module BundleExtraction {
  import opened Wrappers
  import opened BundleModel
  import opened Sorting

  /** A file system as far as extraction sees it: named directory trees, and a meter on what is written. */
  class Volume {
    var trees: map<string, Tree>
    /** Bytes ever written, and the most any one file ever held. */
    var written: nat
    var largest: nat

    constructor ()
      ensures trees == map[] && written == 0 && largest == 0
    {
      trees, written, largest := map[], 0, 0;
    }

    /** Append one chunk to a file of a tree. */
    method Append(root: string, path: Path, chunk: Bytes)
      requires root in trees && path in trees[root] && trees[root][path].File?
      modifies this
      ensures trees == old(trees)[root := old(trees)[root][path := File(old(trees)[root][path].bytes + chunk)]]
      ensures written == old(written) + |chunk|
      ensures largest == Max(old(largest), |old(trees)[root][path].bytes| + |chunk|)
    {
      var bytes := trees[root][path].bytes + chunk;
      trees := trees[root := trees[root][path := File(bytes)]];
      written := written + |chunk|;
      largest := Max(largest, |bytes|);
    }
  }

  function Max(a: nat, b: nat): nat {
    if a < b then b else a
  }

  // ---- what is safe to extract ----------------------------------------------------------

  /** One entry against the verified manifest's sizes. */
  predicate MemberOk(e: Entry, expected: map<string, nat>) {
    && e.name in expected
    && !("/" <= e.name) && !("\\" <= e.name) && ".." !in Parts(e.name)
    && !IsSymlinkMode(e.mode)
    && e.fileSize == expected[e.name]
    && e.fileSize <= MAX_MEMBER_BYTES
    && RatioOk(e)
  }

  /** Two entries that may stand in one archive: names differ whatever their case, and so do targets. */
  predicate Apart(d: Entry, e: Entry, fold: Fold) {
    d.name != e.name && fold(d.name) != fold(e.name) && Parts(d.name) != Parts(e.name)
  }

  ghost predicate SafeMembers(infos: seq<Entry>, expected: map<string, nat>, fold: Fold) {
    && |infos| <= MAX_MEMBER_COUNT
    && Valid(infos, expected, fold)
    && expected.Keys <= NameSet(infos)
  }

  lemma TotalSizeGrows(infos: seq<Entry>, k: nat)
    requires k <= |infos|
    ensures TotalSize(infos[..k]) <= TotalSize(infos)
    decreases |infos| - k
  {
    if k < |infos| {
      TotalSizeGrows(infos, k + 1);
      assert infos[..k + 1][..k] == infos[..k];
    } else {
      assert infos[..k] == infos;
    }
  }

  method DuplicateName(infos: seq<Entry>) returns (duplicate: bool, names: set<string>)
    ensures duplicate <==> !DistinctNames(infos)
    ensures !duplicate ==> names == NameSet(infos)
  {
    names := {};
    for i := 0 to |infos|
      invariant names == NameSet(infos[..i])
      invariant DistinctNames(infos[..i])
    {
      assert infos[..i + 1] == infos[..i] + [infos[i]];
      if infos[i].name in names {
        var e :| e in infos[..i] && e.name == infos[i].name;
        return true, names;
      }
      names := names + {infos[i].name};
    }
    assert infos[..|infos|] == infos;
    return false, names;
  }

  ghost predicate ApartAll(infos: seq<Entry>, fold: Fold) {
    forall i, j | 0 <= i < j < |infos| :: Apart(infos[i], infos[j], fold)
  }

  function FoldedNames(infos: seq<Entry>, fold: Fold): set<string> {
    set e | e in infos :: fold(e.name)
  }

  function Targets(infos: seq<Entry>): set<Path> {
    set e | e in infos :: Parts(e.name)
  }

  /** Every entry is fine on its own, and they stand apart within the total cap. */
  ghost predicate Valid(infos: seq<Entry>, expected: map<string, nat>, fold: Fold) {
    && (forall e | e in infos :: MemberOk(e, expected))
    && ApartAll(infos, fold)
    && TotalSize(infos) <= MAX_TOTAL_UNCOMPRESSED_BYTES
  }

  /** The validation loop, with its maps of names and targets already seen. */
  method ValidateEach(infos: seq<Entry>, expected: map<string, nat>, fold: Fold) returns (ok: bool)
    requires DistinctNames(infos)
    ensures ok <==> Valid(infos, expected, fold)
  {
    hide Parts, IsSymlinkMode, RatioOk, Valid, NameSet, FoldedNames, Targets;
    NothingSeen(expected, fold);
    assert infos[..0] == [];
    var seenLower: map<string, string> := map[];
    var seenResolved: map<Path, string> := map[];
    var totalDeclaredSize := 0;
    for i := 0 to |infos|
      invariant Valid(infos[..i], expected, fold)
      invariant seenLower.Keys == FoldedNames(infos[..i], fold) && seenLower.Values <= NameSet(infos[..i])
      invariant seenResolved.Keys == Targets(infos[..i])
      invariant totalDeclaredSize == TotalSize(infos[..i])
    {
      var e := infos[i];
      var name := e.name;
      var lowered, target := fold(name), Parts(name);
      ValidNext(infos, i, expected, fold);
      if name !in expected {
        return false;
      }
      assert lowered in seenLower ==> seenLower[lowered] in seenLower.Values;
      if lowered in seenLower && seenLower[lowered] != name {
        return false;
      }
      seenLower := seenLower[lowered := name];
      if "/" <= name || "\\" <= name {
        return false;
      }
      if ".." in target {
        return false;
      }
      if target in seenResolved {
        return false;
      }
      seenResolved := seenResolved[target := name];
      if IsSymlinkMode(e.mode) || e.fileSize != expected[name] || e.fileSize > MAX_MEMBER_BYTES || !RatioOk(e) {
        return false;
      }
      totalDeclaredSize := totalDeclaredSize + e.fileSize;
      if totalDeclaredSize > MAX_TOTAL_UNCOMPRESSED_BYTES {
        return false;
      }
    }
    assert infos[..|infos|] == infos;
    return true;
  }

  lemma NothingSeen(expected: map<string, nat>, fold: Fold)
    ensures Valid([], expected, fold) && TotalSize([]) == 0
    ensures FoldedNames([], fold) == {} && Targets([]) == {} && NameSet([]) == {}
  {
  }

  /** Extending a valid prefix by one entry; what the whole archive satisfies, every prefix does. */
  lemma ValidNext(infos: seq<Entry>, i: nat, expected: map<string, nat>, fold: Fold)
    requires i < |infos| && DistinctNames(infos) && Valid(infos[..i], expected, fold)
    ensures
      var (seen, next, e) := (infos[..i], infos[..i + 1], infos[i]);
      && (Valid(next, expected, fold) <==>
        MemberOk(e, expected) && fold(e.name) !in FoldedNames(seen, fold) && Parts(e.name) !in Targets(seen)
        && TotalSize(next) <= MAX_TOTAL_UNCOMPRESSED_BYTES)
      && (Valid(infos, expected, fold) ==> Valid(next, expected, fold))
      && FoldedNames(next, fold) == FoldedNames(seen, fold) + {fold(e.name)}
      && Targets(next) == Targets(seen) + {Parts(e.name)}
      && NameSet(next) == NameSet(seen) + {e.name} && e.name !in NameSet(seen)
      && TotalSize(next) == TotalSize(seen) + e.fileSize
  {
    hide Parts, MemberOk, ApartAll, FoldedNames, Targets, NameSet, TotalSize, DistinctNames;
    TakeNext(infos, i);
    SetsNext(infos, i, fold);
    TotalSizeGrows(infos, i + 1);
    NextApart(infos, i, fold);
  }

  lemma SetsNext(infos: seq<Entry>, i: nat, fold: Fold)
    requires i < |infos|
    ensures
      var (seen, next, e) := (infos[..i], infos[..i + 1], infos[i]);
      && FoldedNames(next, fold) == FoldedNames(seen, fold) + {fold(e.name)}
      && Targets(next) == Targets(seen) + {Parts(e.name)}
      && NameSet(next) == NameSet(seen) + {e.name}
      && TotalSize(next) == TotalSize(seen) + e.fileSize
  {
    hide Parts;
    TakeNext(infos, i);
    assert infos[..i + 1][..i] == infos[..i];
  }

  /** Extending a set of entries that stand apart by one more. */
  lemma NextApart(infos: seq<Entry>, i: nat, fold: Fold)
    requires i < |infos| && DistinctNames(infos) && ApartAll(infos[..i], fold)
    ensures ApartAll(infos[..i + 1], fold) <==>
      fold(infos[i].name) !in FoldedNames(infos[..i], fold) && Parts(infos[i].name) !in Targets(infos[..i])
    ensures ApartAll(infos, fold) ==> ApartAll(infos[..i + 1], fold)
    ensures infos[i].name !in NameSet(infos[..i])
  {
    hide Parts;
    var seen, next := infos[..i], infos[..i + 1];
    if ApartAll(next, fold) {
      forall e | e in seen ensures fold(e.name) != fold(infos[i].name) && Parts(e.name) != Parts(infos[i].name) {
        var k :| 0 <= k < i && infos[k] == e;
        assert Apart(next[k], next[i], fold);
      }
    }
    if fold(infos[i].name) !in FoldedNames(seen, fold) && Parts(infos[i].name) !in Targets(seen) {
      forall j, k | 0 <= j < k < |next| ensures Apart(next[j], next[k], fold) {
        if k < i {
          assert Apart(seen[j], seen[k], fold);
        } else {
          assert infos[j] in seen;
        }
      }
    }
    if ApartAll(infos, fold) {
      forall j, k | 0 <= j < k < |next| ensures Apart(next[j], next[k], fold) {
        assert Apart(infos[j], infos[k], fold);
      }
    }
  }

  method ValidateMembers(infos: seq<Entry>, expected: map<string, nat>, fold: Fold) returns (ok: bool)
    ensures ok <==> SafeMembers(infos, expected, fold)
  {
    hide MemberOk, TotalSize, Parts;
    if |infos| > MAX_MEMBER_COUNT {
      return false;
    }
    var duplicate, names := DuplicateName(infos);
    assert ApartAll(infos, fold) ==> DistinctNames(infos) by {
      if ApartAll(infos, fold) {
        forall i, j | 0 <= i < j < |infos| ensures infos[i].name != infos[j].name {
          assert Apart(infos[i], infos[j], fold);
        }
      }
    }
    if duplicate {
      return false;
    }
    var each := ValidateEach(infos, expected, fold);
    if !each {
      return false;
    }
    var missing := set n | n in expected && n !in names;
    assert missing == {} <==> expected.Keys <= names by {
      if missing == {} {
        forall n | n in expected.Keys ensures n in names {
          assert n !in missing;
        }
      }
    }
    return missing == {};
  }

  // ---- writing ------------------------------------------------------------------------------

  /** An entry whose stream is what it declares, at a path a file can have. */
  predicate StreamOk(e: Entry) {
    !e.corrupt && |e.stream| == e.fileSize && Parts(e.name) != []
  }

  /** No member's path lies below another's. */
  predicate PrefixFree(infos: seq<Entry>) {
    forall i, j | 0 <= i < |infos| && 0 <= j < |infos| :: !(Parts(infos[i].name) < Parts(infos[j].name))
  }

  predicate Extractable(infos: seq<Entry>) {
    (forall i | 0 <= i < |infos| :: StreamOk(infos[i])) && PrefixFree(infos)
  }

  /** The tree of the members' contents. */
  function ExtractedTree(infos: seq<Entry>): Tree {
    if infos == [] then map[]
    else
      var last := infos[|infos| - 1];
      ExtractedTree(infos[..|infos| - 1])[Parts(last.name) := File(last.stream)]
  }

  /** Copy one member's stream in chunks, under both caps; its file exists and is empty. */
  method CopyStream(volume: Volume, staging: string, e: Entry, runningTotal: nat) returns (ok: bool, total: nat)
    requires staging in volume.trees && Parts(e.name) in volume.trees[staging]
    requires volume.trees[staging][Parts(e.name)] == File([])
    requires runningTotal <= MAX_TOTAL_UNCOMPRESSED_BYTES
    modifies volume
    ensures ok <==>
      && !e.corrupt && |e.stream| == e.fileSize
      && |e.stream| <= MAX_MEMBER_BYTES && runningTotal + |e.stream| <= MAX_TOTAL_UNCOMPRESSED_BYTES
    ensures ok ==> total == runningTotal + |e.stream|
    ensures ok ==>
      volume.trees == old(volume.trees)[staging := old(volume.trees[staging])[Parts(e.name) := File(e.stream)]]
    ensures staging in volume.trees && volume.trees - {staging} == old(volume.trees) - {staging}
    ensures ok ==> volume.written - old(volume.written) == |e.stream|
    ensures runningTotal + (volume.written - old(volume.written)) <= MAX_TOTAL_UNCOMPRESSED_BYTES
    ensures volume.largest <= Max(old(volume.largest), MAX_MEMBER_BYTES)
  {
    total := runningTotal;
    ok := false;
    var path := Parts(e.name);
    var read := 0;
    ghost var before, tree := volume.trees, volume.trees[staging];
    assert e.stream[..0] == [] && tree[path := File([])] == tree && before[staging := tree] == before;
    while read < |e.stream|
      invariant read <= |e.stream| && read <= MAX_MEMBER_BYTES
      invariant total == runningTotal + read <= MAX_TOTAL_UNCOMPRESSED_BYTES
      invariant volume.trees == before[staging := tree[path := File(e.stream[..read])]]
      invariant volume.written == old(volume.written) + read
      invariant volume.largest <= Max(old(volume.largest), MAX_MEMBER_BYTES)
    {
      var upTo := if read + CHUNK < |e.stream| then read + CHUNK else |e.stream|;
      var chunk := e.stream[read..upTo];
      total := total + |chunk|;
      if upTo > MAX_MEMBER_BYTES || total > MAX_TOTAL_UNCOMPRESSED_BYTES {
        return;
      }
      volume.Append(staging, path, chunk);
      assert e.stream[..read] + chunk == e.stream[..upTo];
      assert tree[path := File(e.stream[..read])][path := File(e.stream[..upTo])]
        == tree[path := File(e.stream[..upTo])];
      assert volume.trees == before[staging := tree[path := File(e.stream[..upTo])]];
      read := upTo;
    }
    assert e.stream[..read] == e.stream;
    ok := !e.corrupt && read == e.fileSize;
  }

  lemma {:induction false} TreeHolds(infos: seq<Entry>, p: Path)
    ensures p in ExtractedTree(infos) <==> exists i | 0 <= i < |infos| :: Parts(infos[i].name) == p
  {
    if infos != [] {
      var rest := infos[..|infos| - 1];
      TreeHolds(rest, p);
      LastEntry(infos, p);
      hide ExtractedTree, Parts;
      assert forall i | 0 <= i < |rest| :: rest[i] == infos[i];
    }
  }

  lemma LastEntry(infos: seq<Entry>, p: Path)
    requires infos != []
    ensures
      var (rest, last) := (infos[..|infos| - 1], infos[|infos| - 1]);
      p in ExtractedTree(infos) <==> p in ExtractedTree(rest) || p == Parts(last.name)
  {
    hide Parts;
  }

  lemma {:induction false} TreeContent(infos: seq<Entry>, i: nat)
    requires i < |infos|
    requires forall j, k | 0 <= j < k < |infos| :: Parts(infos[j].name) != Parts(infos[k].name)
    ensures Parts(infos[i].name) in ExtractedTree(infos)
    ensures ExtractedTree(infos)[Parts(infos[i].name)] == File(infos[i].stream)
  {
    if i < |infos| - 1 {
      var rest := infos[..|infos| - 1];
      TreeContent(rest, i);
      assert rest[i] == infos[i];
    }
  }

  /** Neither path lies above the other; a member without a path is in nobody's way. */
  predicate OutOfTheWay(other: Path, p: Path) {
    other == [] || !(other < p || p < other)
  }

  /** A target can be opened exactly when no earlier member is above it or below it. */
  lemma CanWriteNext(infos: seq<Entry>, k: nat)
    requires k < |infos|
    ensures
      var p := Parts(infos[k].name);
      CanWrite(ExtractedTree(infos[..k]), p) <==>
        p != [] && forall i | 0 <= i < k :: OutOfTheWay(Parts(infos[i].name), p)
  {
    var p := Parts(infos[k].name);
    var tree := ExtractedTree(infos[..k]);
    if CanWrite(tree, p) {
      forall i | 0 <= i < k && Parts(infos[i].name) != []
        ensures !(Parts(infos[i].name) < p || p < Parts(infos[i].name))
      {
        var q := Parts(infos[i].name);
        assert infos[..k][i] == infos[i];
        TreeHolds(infos[..k], q);
        if |q| < |p| {
          assert p[..|q|] != q;
        }
      }
    }
    if p != [] && forall i | 0 <= i < k :: OutOfTheWay(Parts(infos[i].name), p) {
      forall m | 0 < m < |p| ensures p[..m] !in tree {
        TreeHolds(infos[..k], p[..m]);
        assert p[..m] < p;
      }
      forall q | q in tree ensures !(p < q) {
        TreeHolds(infos[..k], q);
      }
    }
  }

  /** Members extracted so far keep off each other and off the next one. */
  ghost predicate Settled(infos: seq<Entry>, k: nat)
    requires k <= |infos|
  {
    && (forall i | 0 <= i < k :: StreamOk(infos[i]))
    && (forall i, j | 0 <= i < k && 0 <= j < k :: !(Parts(infos[i].name) < Parts(infos[j].name)))
  }

  lemma SettleNext(infos: seq<Entry>, k: nat)
    requires k < |infos| && Settled(infos, k)
    ensures Settled(infos, k + 1) <==> StreamOk(infos[k]) && CanWrite(ExtractedTree(infos[..k]), Parts(infos[k].name))
    ensures Extractable(infos) ==> Settled(infos, k + 1)
    ensures CanWrite(ExtractedTree(infos[..k]), Parts(infos[k].name)) ==> Parts(infos[k].name) != []
  {
    CanWriteNext(infos, k);
  }

  lemma SettledAll(infos: seq<Entry>)
    ensures Settled(infos, |infos|) <==> Extractable(infos)
    ensures Settled(infos, 0) && TotalSize([]) == 0 && ExtractedTree([]) == map[]
  {
  }

  lemma TreeNext(infos: seq<Entry>, k: nat)
    requires k < |infos|
    ensures ExtractedTree(infos[..k + 1]) == ExtractedTree(infos[..k])[Parts(infos[k].name) := File(infos[k].stream)]
    ensures TotalSize(infos[..k + 1]) == TotalSize(infos[..k]) + infos[k].fileSize
  {
    assert infos[..k + 1][..k] == infos[..k];
  }

  /** Create one member's file and copy its stream. */
  method WriteMember(volume: Volume, e: Entry, staging: string, runningTotal: nat) returns (ok: bool, total: nat)
    requires staging in volume.trees && Parts(e.name) !in volume.trees[staging]
    requires e.fileSize <= MAX_MEMBER_BYTES && runningTotal + e.fileSize <= MAX_TOTAL_UNCOMPRESSED_BYTES
    modifies volume
    ensures ok <==> StreamOk(e) && CanWrite(old(volume.trees[staging]), Parts(e.name))
    ensures ok ==> total == runningTotal + e.fileSize
    ensures ok ==>
      volume.trees == old(volume.trees)[staging := old(volume.trees[staging])[Parts(e.name) := File(e.stream)]]
    ensures ok ==> volume.written - old(volume.written) == e.fileSize
    ensures staging in volume.trees && volume.trees - {staging} == old(volume.trees) - {staging}
    ensures runningTotal + (volume.written - old(volume.written)) <= MAX_TOTAL_UNCOMPRESSED_BYTES
    ensures volume.largest <= Max(old(volume.largest), MAX_MEMBER_BYTES)
  {
    hide Parts;
    var target := Parts(e.name);
    total := runningTotal;
    if !CanWrite(volume.trees[staging], target) {
      return false, total;
    }
    ghost var before, tree := volume.trees, volume.trees[staging];
    volume.trees := volume.trees[staging := volume.trees[staging][target := File([])]];
    assert volume.trees - {staging} == before - {staging};
    ok, total := CopyStream(volume, staging, e, runningTotal);
    assert tree[target := File([])][target := File(e.stream)] == tree[target := File(e.stream)];
  }

  /** The writing loop. */
  method WriteMembers(volume: Volume, infos: seq<Entry>, staging: string) returns (ok: bool, extracted: seq<string>)
    requires staging in volume.trees && volume.trees[staging] == map[]
    requires forall e | e in infos :: e.fileSize <= MAX_MEMBER_BYTES
    requires forall i, j | 0 <= i < j < |infos| :: Parts(infos[i].name) != Parts(infos[j].name)
    requires TotalSize(infos) <= MAX_TOTAL_UNCOMPRESSED_BYTES
    modifies volume
    ensures ok <==> Extractable(infos)
    ensures ok ==> extracted == NamesOf(infos)
    ensures ok ==> volume.trees == old(volume.trees)[staging := ExtractedTree(infos)]
    ensures staging in volume.trees && volume.trees - {staging} == old(volume.trees) - {staging}
    ensures volume.written - old(volume.written) <= MAX_TOTAL_UNCOMPRESSED_BYTES
    ensures volume.largest <= Max(old(volume.largest), MAX_MEMBER_BYTES)
  {
    hide Parts, CanWrite, StreamOk, Settled, Extractable, TotalSize, ExtractedTree;
    SettledAll(infos);
    assert infos[..0] == [];
    extracted := [];
    var runningTotal := 0;
    ghost var before := volume.trees;
    assert before == before[staging := ExtractedTree([])];
    for k := 0 to |infos|
      invariant extracted == NamesOf(infos)[..k]
      invariant Settled(infos, k)
      invariant runningTotal == TotalSize(infos[..k]) <= MAX_TOTAL_UNCOMPRESSED_BYTES
      invariant volume.trees == before[staging := ExtractedTree(infos[..k])]
      invariant volume.written - old(volume.written) == runningTotal
      invariant volume.largest <= Max(old(volume.largest), MAX_MEMBER_BYTES)
    {
      var e := infos[k];
      SettleNext(infos, k);
      TreeNext(infos, k);
      TotalSizeGrows(infos, k + 1);
      TreeHolds(infos[..k], Parts(e.name));
      ghost var was := volume.trees;
      var written, total := WriteMember(volume, e, staging, runningTotal);
      assert volume.trees - {staging} == was - {staging} == before - {staging};
      if !written {
        return false, extracted;
      }
      runningTotal := total;
      extracted := extracted + [e.name];
    }
    assert infos[..|infos|] == infos && NamesOf(infos)[..|infos|] == NamesOf(infos);
    return true, extracted;
  }

  /**
   * Extract into a fresh staging directory. It succeeds exactly on a safe and extractable archive;
   * whatever the streams hold, neither cap on bytes written is ever passed.
   */
  method ExtractZipMembers(volume: Volume, archive: Archive, staging: string, expected: map<string, nat>, fold: Fold)
    returns (r: Result<seq<string>, Refusal>)
    requires staging in volume.trees && volume.trees[staging] == map[]
    modifies volume
    ensures r.Ok? <==>
      && archive.infos.Some?
      && SafeMembers(archive.infos.value, expected, fold) && Extractable(archive.infos.value)
    ensures r.Ok? ==> r.value == NamesOf(archive.infos.value)
    ensures r.Ok? ==> volume.trees == old(volume.trees)[staging := ExtractedTree(archive.infos.value)]
    ensures r.Err? ==> r.error == Extraction
    ensures staging in volume.trees && volume.trees - {staging} == old(volume.trees) - {staging}
    ensures volume.written - old(volume.written) <= MAX_TOTAL_UNCOMPRESSED_BYTES
    ensures volume.largest <= Max(old(volume.largest), MAX_MEMBER_BYTES)
  {
    hide Extractable;
    if archive.infos.None? {
      return Err(Extraction);
    }
    var infos := archive.infos.value;
    var safe := ValidateMembers(infos, expected, fold);
    if !safe {
      return Err(Extraction);
    }
    forall e | e in infos ensures e.fileSize <= MAX_MEMBER_BYTES {
      assert MemberOk(e, expected);
    }
    forall i, j | 0 <= i < j < |infos| ensures Parts(infos[i].name) != Parts(infos[j].name) {
      assert Apart(infos[i], infos[j], fold);
    }
    var ok, extracted := WriteMembers(volume, infos, staging);
    return if ok then Ok(extracted) else Err(Extraction);
  }

  // ---- the public entry point -----------------------------------------------------------------

  /** A member's file is there, is regular and hashes to the recorded digest. */
  predicate MemberHashOk(tree: Tree, name: string, expected: string, sha: Sha) {
    && IsSha256(expected)
    && Parts(name) in tree && tree[Parts(name)].File?
    && sha(tree[Parts(name)].bytes) == expected
  }

  method VerifyMemberHashes(tree: Tree, expected: map<string, string>, sha: Sha) returns (ok: bool)
    ensures ok <==> forall name | name in expected :: MemberHashOk(tree, name, expected[name], sha)
  {
    var remaining := expected.Keys;
    while remaining != {}
      invariant remaining <= expected.Keys
      invariant forall name | name in expected && name !in remaining :: MemberHashOk(tree, name, expected[name], sha)
    {
      var name :| name in remaining;
      if !MemberHashOk(tree, name, expected[name], sha) {
        return false;
      }
      remaining := remaining - {name};
    }
    return true;
  }

  function SizesOf(members: map<string, MemberRecord>): map<string, nat>
    requires forall n | n in members :: Sized(members[n])
  {
    map n | n in members && Sized(members[n]) :: members[n].size.value
  }

  function HashesOf(members: map<string, MemberRecord>): map<string, string>
    requires forall n | n in members :: Sized(members[n])
  {
    map n | n in members && Sized(members[n]) :: members[n].sha256.value
  }

  /** The manifest is well formed, names this archive, and every member record is complete. */
  predicate BindsArchive(archive: Archive, m: Manifest, sha: Sha) {
    && ShapeOk(m) && sha(archive.raw) == m.archiveSha256.value
    && HasMembers(m) && forall n | n in m.members.value :: Sized(m.members.value[n])
  }

  /** The archive can be unpacked against the manifest's sizes. */
  ghost predicate Unpacks(archive: Archive, m: Manifest, sha: Sha, fold: Fold)
    requires BindsArchive(archive, m, sha)
  {
    && archive.infos.Some?
    && SafeMembers(archive.infos.value, SizesOf(m.members.value), fold) && Extractable(archive.infos.value)
  }

  ghost predicate HashesMatch(archive: Archive, m: Manifest, sha: Sha)
    requires BindsArchive(archive, m, sha) && archive.infos.Some?
  {
    forall n | n in m.members.value ::
      MemberHashOk(ExtractedTree(archive.infos.value), n, m.members.value[n].sha256.value, sha)
  }

  lemma HashesMatchMeans(archive: Archive, m: Manifest, sha: Sha)
    requires BindsArchive(archive, m, sha) && archive.infos.Some?
    ensures HashesMatch(archive, m, sha) <==>
      var hashes := HashesOf(m.members.value);
      forall n | n in hashes :: MemberHashOk(ExtractedTree(archive.infos.value), n, hashes[n], sha)
  {
    hide MemberHashOk, ExtractedTree;
    var hashes := HashesOf(m.members.value);
    assert hashes.Keys == m.members.value.Keys;
    if HashesMatch(archive, m, sha) {
      forall n | n in hashes ensures MemberHashOk(ExtractedTree(archive.infos.value), n, hashes[n], sha) {
        assert n in m.members.value;
      }
    }
    if forall n | n in hashes :: MemberHashOk(ExtractedTree(archive.infos.value), n, hashes[n], sha) {
      forall n | n in m.members.value
        ensures MemberHashOk(ExtractedTree(archive.infos.value), n, m.members.value[n].sha256.value, sha)
      {
        assert n in hashes && hashes[n] == m.members.value[n].sha256.value;
      }
    }
  }

  /** What staging a bound archive is refused for, if anything. */
  ghost function StageVerdict(archive: Archive, m: Manifest, sha: Sha, fold: Fold): Option<Refusal>
    requires BindsArchive(archive, m, sha)
  {
    if !Unpacks(archive, m, sha, fold) then Some(Extraction)
    else if !HashesMatch(archive, m, sha) then Some(Verification)
    else None
  }

  /** What extraction into `dest` is refused for, if anything. */
  ghost function ExtractVerdict(archive: Archive, m: Manifest, destExists: bool, sha: Sha, fold: Fold): Option<Refusal>
  {
    if destExists then Some(Extraction)
    else if !BindsArchive(archive, m, sha) then Some(Verification)
    else StageVerdict(archive, m, sha, fold)
  }

  /** The loop that checks the member records and collects their sizes and hashes. */
  method ReadMembers(members: map<string, MemberRecord>)
    returns (ok: bool, sizes: map<string, nat>, hashes: map<string, string>)
    ensures ok <==> forall n | n in members :: Sized(members[n])
    ensures ok ==> sizes == SizesOf(members) && hashes == HashesOf(members)
  {
    sizes, hashes := map[], map[];
    var remaining := members.Keys;
    while remaining != {}
      invariant remaining <= members.Keys
      invariant forall n | n in members && n !in remaining :: Sized(members[n])
      invariant sizes.Keys == members.Keys - remaining && hashes.Keys == members.Keys - remaining
      invariant forall n | n in sizes :: Some(sizes[n]) == members[n].size && Some(hashes[n]) == members[n].sha256
    {
      var name :| name in remaining;
      var record := members[name];
      if !Sized(record) {
        return false, sizes, hashes;
      }
      sizes := sizes[name := record.size.value];
      hashes := hashes[name := record.sha256.value];
      remaining := remaining - {name};
    }
    ok := true;
  }

  /** Unpack and check in the staging directory, which is gone again afterwards; the verified tree is handed on. */
  method Stage(
      volume: Volume, archive: Archive, m: Manifest, sizes: map<string, nat>, hashes: map<string, string>,
      staging: string, sha: Sha, fold: Fold) returns (r: Result<seq<string>, Refusal>, tree: Tree)
    requires BindsArchive(archive, m, sha)
    requires sizes == SizesOf(m.members.value) && hashes == HashesOf(m.members.value)
    requires staging !in volume.trees
    modifies volume
    ensures volume.trees == old(volume.trees)
    ensures match StageVerdict(archive, m, sha, fold)
      case Some(e) => r == Err(e)
      case None => r == Ok(NamesOf(archive.infos.value)) && tree == ExtractedTree(archive.infos.value)
    ensures volume.written - old(volume.written) <= MAX_TOTAL_UNCOMPRESSED_BYTES
    ensures volume.largest <= Max(old(volume.largest), MAX_MEMBER_BYTES)
  {
    hide SafeMembers, Extractable, MemberHashOk, Sized, ExtractedTree, ShapeOk, NamesOf, Max, HashesMatch, SizesOf,
      HashesOf;
    ghost var before := volume.trees;
    tree := map[];
    volume.trees := volume.trees[staging := map[]];
    r := ExtractZipMembers(volume, archive, staging, sizes, fold);
    if r.Ok? {
      tree := volume.trees[staging];
      var hashesOk := VerifyMemberHashes(tree, hashes, sha);
      HashesMatchMeans(archive, m, sha);
      r := if hashesOk then r else Err(Verification);
    }
    assert volume.trees - {staging} == before;
    volume.trees := volume.trees - {staging};
  }

  /**
   * All or nothing: the tree appears at `dest` exactly when nothing is refused, and otherwise no
   * directory changes; `staging` is the fresh name the temporary directory gets.
   */
  method ExtractVerifiedBundle(
      volume: Volume, archive: Archive, dest: string, m: Manifest, staging: string, sha: Sha, fold: Fold)
    returns (r: Result<seq<string>, Refusal>)
    requires staging !in volume.trees && staging != dest
    modifies volume
    ensures match ExtractVerdict(archive, m, dest in old(volume.trees), sha, fold)
      case Some(e) => r == Err(e) && volume.trees == old(volume.trees)
      case None =>
        && r == Ok(NamesOf(archive.infos.value))
        && volume.trees == old(volume.trees)[dest := ExtractedTree(archive.infos.value)]
    ensures volume.written - old(volume.written) <= MAX_TOTAL_UNCOMPRESSED_BYTES
    ensures volume.largest <= Max(old(volume.largest), MAX_MEMBER_BYTES)
  {
    hide SafeMembers, Extractable, MemberHashOk, Sized, RunOk, ExtractedTree, SizesOf, HashesOf;
    if dest in volume.trees {
      return Err(Extraction);
    }
    if !ShapeOk(m) || sha(archive.raw) != m.archiveSha256.value || !HasMembers(m) {
      return Err(Verification);
    }
    var ok, sizes, hashes := ReadMembers(m.members.value);
    if !ok {
      return Err(Verification);
    }
    var tree;
    r, tree := Stage(volume, archive, m, sizes, hashes, staging, sha, fold);
    if r.Ok? {
      volume.trees := volume.trees[dest := tree];
    }
  }

  /** What is published holds the manifest's members, each with its recorded size and digest, and nothing else. */
  lemma PublishedIsTheManifest(archive: Archive, m: Manifest, sha: Sha, fold: Fold)
    requires ExtractVerdict(archive, m, false, sha, fold).None?
    ensures
      var tree := ExtractedTree(archive.infos.value);
      && (forall n | n in m.members.value ::
            Parts(n) in tree && tree[Parts(n)].File?
            && Some(|tree[Parts(n)].bytes|) == m.members.value[n].size
            && Some(sha(tree[Parts(n)].bytes)) == m.members.value[n].sha256)
      && (forall p | p in tree :: exists n | n in m.members.value :: Parts(n) == p)
  {
    hide Parts;
    var infos := archive.infos.value;
    var tree := ExtractedTree(infos);
    forall i, j | 0 <= i < j < |infos| ensures Parts(infos[i].name) != Parts(infos[j].name) {
      assert Apart(infos[i], infos[j], fold);
    }
    forall n | n in m.members.value
      ensures Parts(n) in tree && tree[Parts(n)].File?
        && Some(|tree[Parts(n)].bytes|) == m.members.value[n].size
        && Some(sha(tree[Parts(n)].bytes)) == m.members.value[n].sha256
    {
      assert n in SizesOf(m.members.value).Keys;
      assert n in NameSet(infos);
      var e :| e in infos && e.name == n;
      var i :| 0 <= i < |infos| && infos[i] == e;
      TreeContent(infos, i);
      assert MemberOk(e, SizesOf(m.members.value)) && StreamOk(infos[i]);
      assert MemberHashOk(tree, n, m.members.value[n].sha256.value, sha);
    }
    forall p | p in tree ensures exists n | n in m.members.value :: Parts(n) == p {
      TreeHolds(infos, p);
      var i :| 0 <= i < |infos| && Parts(infos[i].name) == p;
      assert infos[i] in infos;
      assert MemberOk(infos[i], SizesOf(m.members.value));
    }
  }
}
