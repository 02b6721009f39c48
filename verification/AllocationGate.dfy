/** The merge-base gate: a ledger row change moves the digest, and module source follows its allocation. */
module AllocationGate {
  import opened Wrappers
  import opened Sorting
  import Text

  /** One `MigrationOwner(...)` row: its branch label, its prefix and the normalised text of the other fields. */
  datatype Row = Row(branchLabel: string, prefix: string, others: string)
  type Rows = map<string, Row>

  /** The digest assignment of a ledger revision, read without executing it. */
  datatype DigestCell = Absent | Literal(value: string) | Computed

  datatype Ledger = Ledger(rows: Rows, digest: DigestCell)

  datatype Digests =
    | HeadHasNoDigest(removed: bool)
    | HeadDigestMalformed
    | RowsChangedInTransition
    | DigestUnmoved

  datatype Violation =
    | OfDigest(d: Digests)
    | UnknownClassification(package: string)
    | ManifestCount(package: string)
    | ManifestUnreadable(package: string)
    | Unallocated(package: string)

  predicate WellFormedDigest(s: string) {
    "cv1:" <= s && Text.HexDigits(s[4..], 64)
  }

  /** The gate can read a revision: it has rows, and its digest, if any, is a literal. */
  predicate Readable(ledger: Ledger) {
    ledger.rows != map[] && !ledger.digest.Computed?
  }

  /** What a branch may do to the ledger between its merge base and its head. */
  predicate DigestMoves(base: Ledger, head: Ledger) {
    && head.digest.Literal? && WellFormedDigest(head.digest.value)
    && (base.digest.Absent? ==> base.rows == head.rows)
    && (base.digest.Literal? && base.rows != head.rows ==> head.digest != base.digest)
  }

  /** `cv1:` and 64 lower-case hexadecimal digits. */
  lemma WellFormedExactly(s: string)
    ensures WellFormedDigest(s) <==>
      |s| == 68 && s[..4] == "cv1:" && forall i | 4 <= i < 68 :: s[i] in "0123456789abcdef"
  {
    if |s| == 68 {
      Text.HexDigitsMean(s[4..], 64);
      assert forall i | 4 <= i < 68 :: s[i] == s[4..][i - 4];
    }
  }

  /** The one thing that can be wrong with the digest at head; the first that applies is said. */
  predicate DigestWrong(base: Ledger, head: Ledger, d: Digests) {
    match head.digest
    case Absent => d == HeadHasNoDigest(base.digest != Absent)
    case Computed => false
    case Literal(value) =>
      if !WellFormedDigest(value) then d == HeadDigestMalformed
      else if base.rows == head.rows then false
      else if base.digest == Absent then d == RowsChangedInTransition
      else base.digest == Literal(value) && d == DigestUnmoved
  }

  method DigestViolations(base: Ledger, head: Ledger) returns (violations: seq<Violation>)
    requires Readable(base) && Readable(head)
    ensures violations == [] <==> DigestMoves(base, head)
    ensures forall v :: v in violations <==> v.OfDigest? && DigestWrong(base, head, v.d)
  {
    var rowsMoved := base.rows != head.rows;
    if head.digest.Absent? {
      return [OfDigest(HeadHasNoDigest(base.digest.Literal?))];
    }
    if !WellFormedDigest(head.digest.value) {
      return [OfDigest(HeadDigestMalformed)];
    }
    if base.digest.Absent? {
      return if rowsMoved then [OfDigest(RowsChangedInTransition)] else [];
    }
    if !rowsMoved {
      return [];
    }
    return if head.digest == base.digest then [OfDigest(DigestUnmoved)] else [];
  }

  // ---- packages at the head ------------------------------------------------------------

  datatype Declared = Declared(code: Option<string>, shortCode: Option<string>, prefix: Option<string>,
      branch: Option<string>)

  /** A manifest blob: absent at head, not statically readable, or what it declares. */
  datatype Manifest = Missing | Opaque | Declares(d: Declared)

  /** A package's dossier: gone (the package is deleted), without a usable classification, or classified. */
  datatype Dossier = Deleted | Unclassified | Classified(classification: string)

  datatype Package = Package(dossier: Dossier, manifests: seq<Manifest>)

  const GATED := {"optional-module"}
  const EXEMPT := {
    "stateless-protocol-adapter", "stateless-contract-catalogue", "stateless-sql-adapter",
    "presentation-foundation", "universal-facility"}

  function PackageAt(head: map<string, Package>, name: string): Package {
    if name in head then head[name] else Package(Deleted, [])
  }

  predicate IsGated(p: Package) {
    p.dossier.Classified? && p.dossier.classification !in EXEMPT && p.dossier.classification in GATED
  }

  /** The gate can establish an answer about a package. */
  predicate Answerable(p: Package) {
    !p.dossier.Unclassified? && (IsGated(p) && |p.manifests| == 1 ==> !p.manifests[0].Opaque?)
  }

  /** A module's row, found by code or by the branch label that is its immutable identity. */
  predicate Resolves(d: Declared, rows: Rows) {
    || (d.code.Some? && d.code.value in rows)
    || (d.branch.Some? && exists owner | owner in rows :: rows[owner].branchLabel == d.branch.value)
  }

  predicate OwnsNamespace(d: Declared) {
    d.shortCode.Some? || d.prefix.Some?
  }

  /** A package whose source changed may land on this merge base. */
  predicate MayChange(p: Package, rows: Rows) {
    || p.dossier.Deleted?
    || (p.dossier.Classified? && p.dossier.classification in EXEMPT)
    || (IsGated(p) && |p.manifests| == 1 && p.manifests[0].Declares?
        && (OwnsNamespace(p.manifests[0].d) ==> Resolves(p.manifests[0].d, rows)))
  }

  /** `packages/<pkg>/src/...`, a path split at its separators. */
  predicate IsModuleSource(parts: seq<string>) {
    |parts| >= 4 && parts[0] == "packages" && parts[2] == "src"
  }

  function Touched(diff: seq<seq<string>>): set<string> {
    set parts | parts in diff && IsModuleSource(parts) :: parts[1]
  }

  /** The one thing that can be wrong with a changed package. */
  predicate PackageWrong(name: string, p: Package, rows: Rows, v: Violation) {
    && p.dossier.Classified?
    && p.dossier.classification !in {
         "stateless-protocol-adapter", "stateless-contract-catalogue", "stateless-sql-adapter",
         "presentation-foundation", "universal-facility"}
    && if p.dossier.classification != "optional-module" then v == UnknownClassification(name)
       else if |p.manifests| != 1 then v == ManifestCount(name)
       else
         match p.manifests[0]
         case Missing => v == ManifestUnreadable(name)
         case Opaque => false
         case Declares(d) => v == Unallocated(name) && (d.shortCode.Some? || d.prefix.Some?) && Unheard(d, rows)
  }

  /** No row has the module's code as its owner, and none has its branch as its label. */
  predicate Unheard(d: Declared, rows: Rows) {
    forall owner | owner in rows :: d.code != Some(owner) && d.branch != Some(rows[owner].branchLabel)
  }

  lemma UnheardExactly(d: Declared, rows: Rows)
    ensures Unheard(d, rows) <==> !Resolves(d, rows)
  {
  }

  method CheckPackage(name: string, p: Package, rows: Rows) returns (violations: seq<Violation>)
    requires Answerable(p)
    ensures violations == [] <==> MayChange(p, rows)
    ensures forall v :: v in violations <==> PackageWrong(name, p, rows, v)
  {
    if p.dossier.Deleted? || p.dossier.classification in EXEMPT {
      return [];
    }
    if p.dossier.classification !in GATED {
      return [UnknownClassification(name)];
    }
    if |p.manifests| != 1 {
      return [ManifestCount(name)];
    }
    match p.manifests[0] {
      case Missing => return [ManifestUnreadable(name)];
      case Declares(d) =>
        if !OwnsNamespace(d) {
          return [];
        }
        UnheardExactly(d, rows);
        var labels := set owner | owner in rows :: rows[owner].branchLabel;
        if (d.code.Some? && d.code.value in rows) || (d.branch.Some? && d.branch.value in labels) {
          return [];
        }
        return [Unallocated(name)];
    }
  }

  /** A branch as the gate sees it: the ledger at its merge base and at its head, its diff, its packages. */
  datatype Proposal = Proposal(
    base: Option<Ledger>, head: Option<Ledger>, diff: seq<seq<string>>, packages: map<string, Package>)

  predicate Determinate(p: Proposal) {
    && p.base.Some? && p.head.Some? && Readable(p.base.value) && Readable(p.head.value)
    && forall name | name in Touched(p.diff) :: Answerable(PackageAt(p.packages, name))
  }

  /** Serialized: the digest moved with the rows, and every changed module was allocated at the merge base. */
  predicate Serialized(p: Proposal)
    requires Determinate(p)
  {
    && DigestMoves(p.base.value, p.head.value)
    && forall name | name in Touched(p.diff) :: MayChange(PackageAt(p.packages, name), p.base.value.rows)
  }

  /** The packages whose module source a diff touches. */
  method TouchedPackages(diff: seq<seq<string>>) returns (touched: set<string>)
    ensures touched == Touched(diff)
  {
    touched := {};
    for k := 0 to |diff|
      invariant touched == Touched(diff[..k])
    {
      var parts := diff[k];
      assert diff[..k + 1] == diff[..k] + [parts];
      if IsModuleSource(parts) {
        touched := touched + {parts[1]};
      }
    }
    assert diff[..|diff|] == diff;
  }

  /** Every package by name, stopping at the first that gives no answer. */
  method CheckPackages(names: seq<string>, packages: map<string, Package>, rows: Rows)
    returns (r: Option<seq<Violation>>)
    ensures r.Some? <==> forall name | name in names :: Answerable(PackageAt(packages, name))
    ensures r.Some? ==> (r.value == [] <==> forall name | name in names :: MayChange(PackageAt(packages, name), rows))
    ensures r.Some? ==> forall v ::
      v in r.value <==> exists name | name in names :: PackageWrong(name, PackageAt(packages, name), rows, v)
  {
    hide MayChange, Answerable, PackageAt, PackageWrong;
    var violations := [];
    TakeAll(names);
    for k := 0 to |names|
      invariant forall name | name in names[..k] :: Answerable(PackageAt(packages, name))
      invariant violations == [] <==> forall name | name in names[..k] :: MayChange(PackageAt(packages, name), rows)
      invariant forall v ::
        v in violations <==> exists name | name in names[..k] :: PackageWrong(name, PackageAt(packages, name), rows, v)
    {
      TakeNext(names, k);
      var package := PackageAt(packages, names[k]);
      if !Answerable(package) {
        return None;
      }
      var more := CheckPackage(names[k], package, rows);
      violations := violations + more;
    }
    return Some(violations);
  }

  /** The gate: its violations, or nothing when it could not establish an answer. */
  method RunGate(p: Proposal) returns (r: Option<seq<Violation>>)
    ensures r.Some? <==> Determinate(p)
    ensures r.Some? ==> (r.value == [] <==> Serialized(p))
    ensures r.Some? ==> forall v ::
      v in r.value <==>
      || (v.OfDigest? && DigestWrong(p.base.value, p.head.value, v.d))
      || exists name | name in Touched(p.diff) ::
        PackageWrong(name, PackageAt(p.packages, name), p.base.value.rows, v)
  {
    hide DigestWrong, PackageWrong, DigestMoves, MayChange, Answerable, WellFormedDigest, PackageAt;
    if p.base.None? || p.head.None? || !Readable(p.base.value) || !Readable(p.head.value) {
      return None;
    }
    var violations := DigestViolations(p.base.value, p.head.value);
    var touched := TouchedPackages(p.diff);
    if touched == {} {
      return Some(violations);
    }
    Text.LeIsTotalOrder();
    var more := CheckPackages(Listing(touched, Text.Le), p.packages, p.base.value.rows);
    if more == None {
      return None;
    }
    return Some(violations + more.value);
  }

  /** The modules whose source a proposal changes and which own a database namespace. */
  function ChangedModules(p: Proposal): set<Declared> {
    set name | name in Touched(p.diff) && DeclaresNamespace(PackageAt(p.packages, name))
      :: PackageAt(p.packages, name).manifests[0].d
  }

  predicate DeclaresNamespace(p: Package) {
    IsGated(p) && |p.manifests| == 1 && p.manifests[0].Declares? && OwnsNamespace(p.manifests[0].d)
  }

  /** The modules a diff changes: those of optional modules touched under `src` that own a namespace. */
  lemma ChangedModulesExactly(p: Proposal, m: Declared)
    ensures m in ChangedModules(p) <==> exists parts ::
      && parts in p.diff && |parts| > 3 && parts[0] == "packages" && parts[2] == "src" && parts[1] in p.packages
      && p.packages[parts[1]] == Package(Classified("optional-module"), [Declares(m)])
      && (m.shortCode.Some? || m.prefix.Some?)
  {
    if name :|
      name in Touched(p.diff) && DeclaresNamespace(PackageAt(p.packages, name))
      && PackageAt(p.packages, name).manifests[0].d == m
    {
      var parts :| parts in p.diff && IsModuleSource(parts) && parts[1] == name;
      assert p.packages[name].manifests == [Declares(m)];
    }
    if parts :|
      parts in p.diff && |parts| > 3 && parts[0] == "packages" && parts[2] == "src" && parts[1] in p.packages
      && p.packages[parts[1]] == Package(Classified("optional-module"), [Declares(m)])
      && (m.shortCode.Some? || m.prefix.Some?)
    {
      assert parts[1] in Touched(p.diff) && DeclaresNamespace(PackageAt(p.packages, parts[1]));
    }
  }

  /** What a branch may do to the ledger: keep its rows, or change both them and a digest the base already has. */
  lemma DigestMovesExactly(base: Ledger, head: Ledger)
    requires Readable(base)
    ensures DigestMoves(base, head) <==>
      && (exists s :: head.digest == Literal(s) && |s| == 68 && s[..4] == "cv1:"
            && forall i | 4 <= i < 68 :: s[i] in "0123456789abcdef")
      && (head.rows == base.rows || (base.digest != Absent && head.digest != base.digest))
  {
    if head.digest.Literal? {
      WellFormedExactly(head.digest.value);
    }
    hide WellFormedDigest;
  }

  /** A serialized proposal changes no module its merge base has not allocated. */
  lemma ChangedModulesAreAllocated(p: Proposal, m: Declared)
    requires Determinate(p) && Serialized(p) && m in ChangedModules(p)
    ensures exists owner | owner in p.base.value.rows ::
      m.code == Some(owner) || m.branch == Some(p.base.value.rows[owner].branchLabel)
  {
    UnheardExactly(m, p.base.value.rows);
    hide Resolves;
    var name :| name in Touched(p.diff) && DeclaresNamespace(PackageAt(p.packages, name))
      && PackageAt(p.packages, name).manifests[0].d == m;
    assert MayChange(PackageAt(p.packages, name), p.base.value.rows);
  }
}
