# Verified models of the evidence pipelines

These modules model the scripts that decide whether evidence is accepted: the
dependency-bundle envelope, the executor-retirement checks, the billing opening
drafter and its rehearsal adapter, the append-only disposition log, the
allocation gate and the natural version order. Each loop modelled here is
a Dafny method proved against a declarative statement of what it accepts or
computes, and the promises the scripts make in their documentation are lemmas
about those statements.

| component | files | main results |
|---|---|---|
| dependency bundle | `BundleModel`, `BundleManifest`, `BundleExtraction`, `LocalIndex`, `BundlePipeline`, `BundleMeaning`, `PackageName` | what the constructor accepts, the extractor unpacks and the publisher publishes; extraction is all or nothing and bounded |
| executor retirement | `VerbResolution`, `DisplacementWindow`, `WindowMeaning` | per-path resolution is reachability; omitted transitions are detected |
| billing opening | `MinorUnits`, `OpeningModel`, `DraftSpec`, `AssemblyDrafter`, `DraftOrder`, `DraftProperties`, `DraftMeaning`, `AdapterSpec`, `RehearsalAdapter`, `AdapterProperties`, `AdapterMeaning`, `DraftAgreement` | nothing is dropped silently; the draft ignores input order; settlements are consumed once; a clean draft leaves the adapter nothing unmapped |
| disposition log | `CanonicalJson`, `CanonicalText`, `DispositionLog`, `DispositionMeaning` | equal last digests mean equal logs; a log that passes its history check only grows |
| allocation gate | `AllocationGate`, `AllocationProtocol` | main's rows are always those of one accepted head |
| version order | `VersionOrder`, `VersionMeaning` | the scan is the split into runs; `a9` comes before `a64` |

The `…Meaning` modules and `CanonicalText` say what each program accepts, reports
and writes in terms of the rows, fields and characters it is given, in both
directions and with the literal constants, so that no shared predicate stands
between a result and its input.

`Wrappers`, `Text`, `Sorting`, `Filtering` and `Decimals` hold what several
components share. `dafny verify dfyconfig.toml` checks everything.

## How the outside world appears

- A digest is a function parameter of which nothing is assumed but the shape of
  its values. A fixed-length digest cannot be injective on all inputs, so where
  a result needs it not to collide, the statement says so of the contents in
  play (`CollisionFree`), or its conclusion offers the collision as the only
  alternative.
- `str.lower`, `uuid5`, and the character tables behind `isdigit`, `isalpha` and
  `int` are function parameters.
- A file system is a map from paths to contents, an archive a list of entries
  each with the stream it really yields, so that an entry whose declared size
  lies is an ordinary input. Bytes written are metered.
- A repository tree is a map from artifacts to their direct verbs and to the
  paths their text mentions; a Git history is a list of states with steps
  between them, and a merge is three-way, row by row and on the digest line.

## Where the code and its documentation part

- `scripts/executor_retirement.py:2291-2297` says two runs with distinct head
  commits are required. The code collects the head commits and never compares
  them: `DisplacementWindow.HeadCommitsDecideNothing` shows that rewriting all of
  them to one commit never changes the verdict, and
  `DisplacementWindow.OneHeadCommitSuffices` gives such a receipt.
- `scripts/bundle_envelope.py:1451` writes a package's page under a name an
  artifact may also have. `LocalIndex.ServesAllUnlessNamedLikeAPage` gives the
  exact condition: every artifact is served if and only if none is called
  `index.html`; `LocalIndex.PageNamedArtifactIsLost` is an accepted plan with one.
- `scripts/billing_opening_assembly_drafter.py:277-291` passes over an invoice
  that names no currency without a blocker. `DraftAgreement.CleanDraftIsMapped`
  gives the exact condition for the drafter and the adapter to agree, and
  `DraftAgreement.EmptyCurrencyIsSilent` such an invoice. The adapter's records
  refuse blank text (`packages/dotmac-billing/src/dotmac_billing/_opening_values.py:129-130`),
  so a census that both load has none.
- `scripts/billing_opening_rehearsal_adapter.py:406-426` answers differently for
  two spellings of zero when one exponent trips the magnitude guard;
  `MinorUnits.DisagreementIsZero` shows this is the only disagreement.
- `scripts/executor_retirement.py:2547-2565` calls the window bounded and
  `scripts/executor_retirement.py:2484-2487` speaks of changes inside it; the
  recorded times of the changes are sorted and never compared with the bounds.
  `DisplacementWindow.CommittedRunsMayBeSeenOutside` gives an accepted committed
  window with all its changes after its end, and
  `DisplacementWindow.BoundedExactly` the exact condition: all changes lie inside
  if and only if the first comes no earlier than `from` and the last no later
  than `to`.
- `scripts/foundation_disposition.py:187-192` says problems are returned rather
  than raised. `DispositionLog.Check` states exactly when the check fails
  instead, and `DispositionLog.UnparsableAnchorRaises` gives such a log.
- `scripts/executor_retirement.py:1441-1458` counts the rows that mutate a
  Compose topology in the tree, by looking for a marker in a reason that also
  holds the paths called on the way. `VerbResolution.CountedRowsReach` gives the
  exact condition for a counted row to reach a mutation, whatever the tree holds:
  no discovered path other than the row's own spells the marker.
  `VerbResolution.ComposeCountIsExact` says that the whole count is right under
  the same condition, and `VerbResolution.MisnamedCalleeIsCounted` is a row
  counted in a tree without a Compose mutation.

## Model

| member | source | states |
|---|---|---|
| `BundlePipeline.AcceptedArchiveExtracts` | scripts/bundle_envelope.py:223-272 | if the constructor accepts a plan, acquired files and archive, the extractor accepts that archive with that manifest: every extractor rule follows from the constructor's, and the tree is exactly the acquired files |
| `BundlePipeline.AcceptedArchivePublishes` | scripts/bundle_envelope.py:1193-1359 | and the publisher accepts the same plan and manifest over the extracted tree |
| `BundlePipeline.ServedIsAcquired` | scripts/bundle_envelope.py:1429-1456 | end to end, the bytes served for an artifact are those acquired for it, if and only if its name is not the page's |
| `BundlePipeline.EntryIsAcquired` | scripts/bundle_envelope.py:1023-1054 | an accepted archive's entry is byte for byte the acquired file of its name, although only digests and sizes were compared |
| `BundlePipeline.TotalsAgree` | scripts/bundle_envelope.py:974-980 | the total over the archive's own order is the total over the plan's sorted order, so one cap implies the other |
| `BundlePipeline.NamesApart` | scripts/bundle_envelope.py:569-600 | names the constructor keeps apart ignoring case resolve to different targets, none below another |
| `BundleManifest.CreateBundleManifest` | scripts/bundle_envelope.py:816-1081 | a manifest exactly when schema, plan, acquired files, archive and run all agree; it records the measured size, digest and package of each planned file and nothing else |
| `BundleManifest.ReadPlan` | scripts/bundle_envelope.py:864-926 | accepted exactly when every row is a bare name under a normalised package and no two names agree ignoring case |
| `BundleManifest.MeasureAcquired` | scripts/bundle_envelope.py:949-985 | accepted exactly when every file has the planned digest, is non-empty and within the cap, and the total is within its cap; records what was read |
| `BundleManifest.CheckArchive` | scripts/bundle_envelope.py:995-1059 | accepted exactly when the archive holds each acquired name once and nothing else, each entry regular, of the recorded size, within the ratio and of the recorded digest |
| `BundleExtraction.ExtractVerifiedBundle` | scripts/bundle_envelope.py:679-780 | all or nothing: on any refusal every tree is as it was, otherwise the destination is the archive's tree; bytes written never exceed the total cap nor any file the member cap, even for a stream longer than declared |
| `BundleExtraction.ExtractZipMembers` | scripts/bundle_envelope.py:506-676 | succeeds exactly when the members are safe and can all be written and their streams are as declared; touches only the staging tree and stays within both caps |
| `BundleExtraction.ValidateMembers` | scripts/bundle_envelope.py:549-637 | accepts exactly the archives within the count and total caps whose members are expected, regular, of the expected size, within the ratio, and pairwise apart ignoring case and by target, with none missing |
| `BundleExtraction.ValidateEach` | scripts/bundle_envelope.py:559-630 | the loop over the entries with its two tables of names and targets seen so far decides pairwise apartness |
| `BundleExtraction.CopyStream` | scripts/bundle_envelope.py:642-674 | a chunked copy that stops at the first cap it would pass; succeeds exactly when the stream is whole, of the declared size and within both caps |
| `BundleExtraction.WriteMembers` | scripts/bundle_envelope.py:639-675 | the writing loop: the staging tree becomes the archive's tree exactly when no target is above or below another and every stream is as declared |
| `BundleExtraction.VerifyMemberHashes` | scripts/bundle_envelope.py:382-407 | accepted exactly when every expected member is a regular file of the expected digest |
| `BundleExtraction.Stage` | scripts/bundle_envelope.py:744-766 | staging is gone after success and after every failure |
| `BundleExtraction.PublishedIsTheManifest` | scripts/bundle_envelope.py:679-692 | what is published holds each manifest member with its recorded size and digest, and no other file |
| `BundleMeaning.AcceptedExactly` | scripts/bundle_envelope.py:816-1081 | the constructor accepts exactly when schema, run, plan, files and archive are as listed over the raw records, every entry's type being none or regular |
| `BundleMeaning.RecordedExactly` | scripts/bundle_envelope.py:1060-1081 | the manifest records exactly the planned names with measured size, digest and package |
| `BundleMeaning.RegularFilesPass` | scripts/bundle_envelope.py:1023-1054 | every archive whose entries are the acquired files once each, of type nibble 0 or 8, right in size, ratio and digest, is accepted |
| `BundleMeaning.NoLinkPasses` | scripts/bundle_envelope.py:602-603 | no entry of an accepted archive or of an accepted member list has the symbolic-link type nibble 0xA |
| `BundleMeaning.SafeExactly` | scripts/bundle_envelope.py:549-637 | which member lists the extractor takes, over the raw names, types, sizes and ratios |
| `BundleMeaning.VerdictExactly` | scripts/bundle_envelope.py:679-780 | the extractor succeeds exactly on a bound manifest, a free destination and such members that can all be written |
| `LocalIndex.BuildLocalIndex` | scripts/bundle_envelope.py:1119-1499 | from any input: publishes exactly when the root is free and plan, manifest and disk agree with bytes rehashed; the published tree is the plan's; on refusal nothing appears |
| `LocalIndex.Reconcile` | scripts/bundle_envelope.py:1193-1338 | steps 1 to 4 accept exactly when plan, manifest and disk name the same files, packages and digests, and the bytes hash to the plan's digests |
| `LocalIndex.Enumerate` | scripts/bundle_envelope.py:1288-1305 | refuses exactly the trees with an entry that is no regular file, otherwise lists every relative name |
| `LocalIndex.GroupPackages` | scripts/bundle_envelope.py:1340-1359 | each package gets its own files once each in name order; refused exactly when a package name is not normalised |
| `LocalIndex.Assemble` | scripts/bundle_envelope.py:1379-1482 | the staged tree holds each artifact in its package's directory with bytes hashing to the plan's digest, the pages, and nothing else |
| `LocalIndex.ServesAllUnlessNamedLikeAPage` | scripts/bundle_envelope.py:1450-1456 | every artifact is served if and only if none is named `index.html` |
| `LocalIndex.PageNamedArtifactIsLost` | scripts/bundle_envelope.py:1450-1456 | a plan with an artifact of that name is accepted for publication and no index published for it serves it |
| `LocalIndex.PublicationIsATree` | scripts/bundle_envelope.py:1387-1395 | different places have different paths and none lies below another, so the tree can exist on disk |
| `BundleMeaning.PublishedExactly` | scripts/bundle_envelope.py:1193-1359 | plan, manifest and tree are publishable exactly when they name the same files, packages and digests and the bytes on disk hash to them |
| `BundleMeaning.PublicationExactly` | scripts/bundle_envelope.py:1379-1482 | what stands at each place of a published index: the artifacts, the links of each page in order, and the root page |
| `PackageName.NormaliseJoinsTokens` | scripts/bundle_envelope.py:1094-1116 | a name is accepted exactly when its text is legal and no separator stands at an edge, and then reads as its lower-cased tokens joined by single hyphens |
| `PackageName.NormaliseIsNormal` | scripts/bundle_envelope.py:1094-1116 | the result is over [a-z0-9-] with no doubled and no edge hyphen |
| `PackageName.NormaliseIsIdempotent` | scripts/bundle_envelope.py:1094-1116 | normalising a normalised name changes nothing |
| `PackageName.NormaliseDecidesTokens` | scripts/bundle_envelope.py:1084-1116 | two accepted names normalise equally exactly when their token sequences agree ignoring case |
| `PackageName.NormaliseAccepts` | scripts/bundle_envelope.py:1094-1116 | which names are accepted, character by character |
| `PackageName.NormaliseIgnoresCase` | scripts/bundle_envelope.py:1094-1116 | changing the case of letters changes no result |
| `PackageName.NormalStays` | scripts/bundle_envelope.py:1094-1116 | a name of lower-case letters, digits and single inner hyphens stays as it is |
| `PackageName.SeparatorRunIsHyphen` | scripts/bundle_envelope.py:1084-1116 | any run of hyphens, underscores and dots between two parts is read as one hyphen |
| `CanonicalJson.ValueRoundTrip` | scripts/bundle_envelope.py:293-301 | a reader after RFC 8259 sections 2 to 7 undoes the printer for every value, whatever follows it, in both forms |
| `CanonicalJson.EncodingReadsBack` | scripts/bundle_envelope.py:293-301 | a whole encoding, with or without the final newline, reads back as the document with its members in key order |
| `CanonicalJson.EncodingIsCanonical` | scripts/foundation_disposition.py:137-151 | two documents have one canonical text if and only if they differ in member order alone |
| `CanonicalJson.NormalDecides` | scripts/executor_retirement.py:1757-1768 | key-sorted forms agree exactly on documents equal up to member order at every depth |
| `CanonicalJson.EscapeRoundTrip` | scripts/bundle_envelope.py:293-301 | every character reads back from its escape, surrogate pairs included |
| `CanonicalJson.PrintIsAscii` | scripts/bundle_envelope.py:293-301 | the escaped form is pure ASCII |
| `CanonicalText.CharacterText` | scripts/bundle_envelope.py:293-301 | the text of every character: itself, one of seven short escapes, or `\u` and four lower-case hex digits for each UTF-16 unit |
| `CanonicalText.ValueText` | scripts/bundle_envelope.py:293-301 | the text of every value: the constants, numerals, quoted strings, and lists and objects joined by single commas and colons without a space |
| `CanonicalText.EncodedKeysAscend` | scripts/bundle_envelope.py:293-301 | at every depth an encoding's members stand in strictly increasing code-point order of keys |
| `Text.FirstDifferenceDecides` | scripts/bundle_envelope.py:293-301 | that order of texts: the first differing code point decides, or the end of the shorter text |
| `DispositionLog.Check` | scripts/foundation_disposition.py:181-257 | exactly when the check fails; otherwise nothing is reported exactly when the log has its schema, the expected number of entries, and every entry fit and chained, and each complaint about the header or an entry is reported exactly when it applies |
| `DispositionLog.CheckEntries` | scripts/foundation_disposition.py:210-257 | the loop over the entries reports each complaint exactly for the entries it applies to, and blames exactly those not sound after the one before them |
| `DispositionLog.CheckEntry` | scripts/foundation_disposition.py:212-255 | each complaint about one entry is reported exactly when it applies, none exactly when fields, receipt and link are right, and the check fails exactly on the inputs that make it |
| `DispositionLog.CheckReceipt` | scripts/foundation_disposition.py:260-313 | each way a receipt can be absent, unreadable from its bytes or its text, or different is reported separately, and a receipt without an artifact object is compared no further |
| `DispositionLog.CheckLink` | scripts/foundation_disposition.py:316-349 | the first entry chains to its receipt, a later one to the entry before it, and an anchor whose bytes cannot be parsed makes the check fail |
| `DispositionLog.NothingWrong` | scripts/foundation_disposition.py:212-349 | an entry is fit and chained exactly when no complaint applies to it |
| `DispositionLog.UnparsableAnchorRaises` | scripts/foundation_disposition.py:329-333 | the check fails instead of reporting when the receipt a sound log is anchored to is replaced by one whose bytes cannot be parsed |
| `DispositionLog.AppendKeepsSound` | scripts/foundation_disposition.py:422-430 | appending an otherwise valid entry keeps the log sound if and only if it states the digest `next_previous_digest` gives |
| `DispositionLog.TamperEvident` | scripts/foundation_disposition.py:316-349 | two sound logs whose last entries have one digest are the same log, or a digest collision is in plain sight |
| `DispositionLog.EditBreaksChain` | scripts/foundation_disposition.py:316-349 | rewriting any entry but the last makes the log unsound, or collides with the original |
| `DispositionLog.HistoryViolations` | scripts/foundation_disposition.py:384-419 | reports exactly the revisions that are unreadable or whose entries are not a prefix of today's, and nothing exactly on a clean history |
| `DispositionLog.CleanRunGrows` | scripts/foundation_disposition.py:384-419 | a run of commits that passed the history check goes on passing it exactly while nothing is reported against the next commit |
| `DispositionLog.LogOnlyGrows` | scripts/foundation_disposition.py:384-419 | along any run of commits that each passed the history check, every log is a prefix of all later ones, or digests collide |
| `DispositionMeaning.SoundExactly` | scripts/foundation_disposition.py:212-349 | an entry is sound exactly when its thirteen fields, its facts, its receipt's fields and its link are as listed, over the documents and with literal texts |
| `DispositionMeaning.SoundLogDescribesReceipts` | scripts/foundation_disposition.py:260-313 | every entry of a sound log names a receipt on disk with its own sha256, version, facility and byte digest, and no invalidated entry is publishable |
| `DispositionMeaning.EqualExactly` | scripts/foundation_disposition.py:296-312 | the comparison of two documents is equality by value, with a boolean equal to its number at any depth and members in any order |
| `DispositionMeaning.TruthyExactly` | scripts/foundation_disposition.py:231-237 | which values count as false |
| `DispositionMeaning.FactComplaints` | scripts/foundation_disposition.py:216-252 | when each complaint about an entry's facts applies |
| `DispositionMeaning.ContentComplaints` | scripts/foundation_disposition.py:274-312 | when each complaint about a readable receipt applies |
| `DispositionMeaning.CoordinateComplaints` | scripts/foundation_disposition.py:293-302 | when an artifact coordinate is reported as omitted or different |
| `DispositionMeaning.LinkComplaints` | scripts/foundation_disposition.py:316-349 | when a receipt is absent or unreadable, a link wrong, and when the check fails |
| `DispositionMeaning.CleanExactly` | scripts/foundation_disposition.py:384-419 | a history is clean exactly when every revision can be read and today's log has, in place, entries of the same digests |
| `VersionOrder.VersionKey` | scripts/declared_publication_sweep.py:186-218 | the scan with its two pending runs computes the split into maximal letter and digit runs, and fails exactly when a digit run is no numeral |
| `VersionOrder.KeyLeIsTotalOrder` | scripts/declared_publication_sweep.py:186-218 | the order of keys is a total order |
| `VersionOrder.ComparisonNeverRaises` | scripts/declared_publication_sweep.py:186-218 | comparing two keys never meets a string and a number in one place |
| `VersionOrder.KeyOfNumbered` | scripts/declared_publication_sweep.py:186-218 | numbering a stem that ends in no digit appends that number to its key |
| `VersionOrder.NumberedVersionsInOrder` | scripts/declared_publication_sweep.py:186-193 | on one stem the versions are ordered by their numbers: `0.1.0a9` before `0.1.0a64` |
| `VersionMeaning.KeyAfterDigits` | scripts/declared_publication_sweep.py:186-218 | a longest run of digits is one number of the key, at its place value, or leaves the version without a key |
| `VersionMeaning.KeyAfterLetters` | scripts/declared_publication_sweep.py:186-218 | a longest run of letters is one word of the key |
| `VersionMeaning.KeyAfterSeparator` | scripts/declared_publication_sweep.py:186-218 | any other character only separates |
| `VersionMeaning.FirstPartDecides` | scripts/declared_publication_sweep.py:186-218 | the first differing part decides, words before numbers, and a key that ends there comes first |
| `VersionOrder.Collect` | scripts/declared_publication_sweep.py:267-270 | the tags of a prefix, keyed once each, refused exactly when one has no key |
| `VersionOrder.Survey` | scripts/declared_publication_sweep.py:264-284 | the published versions are exactly the tagged ones, once each in version order, the state follows the tags, and the version shown as latest is a maximum |
| `VersionOrder.InVersionOrder` | scripts/declared_publication_sweep.py:267-270 | sorting by key puts exactly the published versions in version order |
| `VerbResolution.ResolveVerbs` | scripts/executor_retirement.py:1398-1428 | the recursion terminates, with the set of artifacts seen passed down each path, and computes the specified table |
| `VerbResolution.ResolveIsReachability` | scripts/executor_retirement.py:1398-1428 | though the visited set is per path, a verb is returned exactly when a readable artifact reachable through readable artifacts commands it, cycles included |
| `VerbResolution.ReasonsAreReal` | scripts/executor_retirement.py:1398-1428 | every recorded reason is the trail of a repetition-free call chain to an artifact that gives it |
| `VerbResolution.KeptReason` | scripts/executor_retirement.py:1398-1428 | the reason kept for a verb is the artifact's own, or else comes through the first callee in text order that supplies one |
| `VerbResolution.ComposeMutations` | scripts/executor_retirement.py:1441-1471 | a name is reported exactly when some row of it has a resolved reason that is a Compose mutation, with exactly the verbs of its last such row |
| `VerbResolution.MarkedCalleesAreCounted` | scripts/executor_retirement.py:1424-1466 | a row is counted, whatever its verbs do, when all that command one of them are callees whose paths spell the marker |
| `VerbResolution.CountedRowsReach` | scripts/executor_retirement.py:1441-1466 | for every row and discovered paths: in all trees a counted row reaches an in-tree Compose mutation, if and only if no discovered path but the row's own spells the marker |
| `VerbResolution.ReachingRowIsCounted` | scripts/executor_retirement.py:1441-1466 | when artifacts agree on which verbs are Compose mutations, every row that reaches one is counted, whatever its paths spell |
| `VerbResolution.MarkedCalleeMisleads` | scripts/executor_retirement.py:1441-1466 | each other path that spells the marker has a tree without a Compose mutation in which the row is counted |
| `VerbResolution.MisnamedCalleeIsCounted` | scripts/executor_retirement.py:1441-1466 | such a tree: a shell script kept in a file named after the marker |
| `VerbResolution.ComposeCountIsExact` | scripts/executor_retirement.py:1441-1466 | in all trees whose artifacts agree on their verbs a row is counted exactly when it reaches a Compose mutation, if and only if no discovered path but the row's own spells the marker |
| `VerbResolution.CheckRow` | scripts/executor_retirement.py:1508-1574 | a row draws a finding exactly when the tree contradicts its disposition; the findings, and the verbs and targets named in them, are exactly those stated |
| `VerbResolution.ReconcileRows` | scripts/executor_retirement.py:1508-1574 | over all rows, exactly the contradicted ones draw findings |
| `VerbResolution.PassedRowReachesNothing` | scripts/executor_retirement.py:1554-1561 | a row that passes as `not_an_executor` reaches, through any chain, no artifact with a deployment verb |
| `DisplacementWindow.ValidateWindow` | scripts/executor_retirement.py:2547-2714 | accepts exactly the windows that are well formed and whose time-sorted changes chain from start to end; returns the runs they are attributed to |
| `DisplacementWindow.MovesAreAttributed` | scripts/executor_retirement.py:2655-2685 | in an accepted window every change that moves the runtime is attributed to a returned run |
| `DisplacementWindow.ChainWithoutMiddle` | scripts/executor_retirement.py:2688-2707 | a chain with its middle removed still holds if and only if the middle moved nothing |
| `DisplacementWindow.OmissionDetected` | scripts/executor_retirement.py:2547-2556 | whatever the order of the rows and whichever of them a source lost, it is refused if and only if some longest stretch it lost, in time order, moved the runtime |
| `DisplacementWindow.OmissionFromOrderedLog` | scripts/executor_retirement.py:2547-2556 | in particular for the time-ordered list with one block cut out |
| `DisplacementWindow.BoundedExactly` | scripts/executor_retirement.py:2583-2588 | all changes of an accepted window lie between its bounds if and only if the first comes no earlier than `from` and the last no later than `to` |
| `DisplacementWindow.CommittedRunsMayBeSeenOutside` | scripts/executor_retirement.py:2478-2488 | a committed receipt is accepted although all the changes it rests on were recorded after its window closed |
| `DisplacementWindow.ValidateCycles` | scripts/executor_retirement.py:2365-2398 | accepts exactly complete, successful deploy and redeploy cycles under at least two run ids |
| `DisplacementWindow.ValidateRuns` | scripts/executor_retirement.py:2478-2488 | a committed receipt passes exactly when its window does and every cited run is attributed in it |
| `DisplacementWindow.CommittedRunsWereSeen` | scripts/executor_retirement.py:2364-2398 | a committed receipt's window shows changes by two different cited runs, inside the window whenever its bounds lie around its first and last change |
| `DisplacementWindow.HeadCommitsDecideNothing` | scripts/executor_retirement.py:2363-2398 | for any cycles with well-formed head commits, rewriting all of these to one commit changes no verdict, so whatever passes also passes with a single commit |
| `DisplacementWindow.OneHeadCommitSuffices` | scripts/executor_retirement.py:2291-2297 | two runs of one head commit pass |
| `WindowMeaning.WindowExactly` | scripts/executor_retirement.py:2547-2714 | which windows are admitted, word for word: header, source, each change's attribution, and the lead from start to end |
| `WindowMeaning.TimeOrder` | scripts/executor_retirement.py:2686-2690 | the order the changes are read in: the same changes, none later than one after it, a list already in order left alone |
| `WindowMeaning.CyclesExactly` | scripts/executor_retirement.py:2363-2398 | which cycles are accepted: each a successful deploy or redeploy of a full commit, both kinds, two run ids |
| `AllocationGate.DigestViolations` | scripts/check_allocation_serialized.py:272-350 | no violation exactly when the head carries a well-formed digest which moved with the rows, or first appears over unchanged rows; each violation is reported exactly when it applies |
| `AllocationGate.CheckPackage` | scripts/check_allocation_serialized.py:440-491 | no violation exactly when the package may change on this merge base; each violation is reported exactly when it applies |
| `AllocationGate.RunGate` | scripts/check_allocation_serialized.py:408-492 | answers exactly when everything it must read is readable, and passes exactly when the proposal is serialized; each violation is reported exactly when it applies |
| `AllocationGate.ChangedModulesAreAllocated` | scripts/check_allocation_serialized.py:474-491 | for each namespace-owning module a passing proposal changes, a merge-base row has its code as key or its branch label as label |
| `AllocationGate.DigestMovesExactly` | scripts/check_allocation_serialized.py:272-350 | the digest rule over the two ledgers: `cv1:` and 64 hex digits at head, and rows unchanged or moved together with a digest the base has |
| `AllocationGate.ChangedModulesExactly` | scripts/check_allocation_serialized.py:440-491 | which modules a diff changes: those of optional modules touched under `src` that declare a short code or prefix |
| `AllocationProtocol.SiblingsNeedOneDigest` | scripts/check_allocation_serialized.py:56-77 | two branches that both change rows and pass the gate merge cleanly only if they wrote one digest |
| `AllocationProtocol.LandKeepsInv` | scripts/check_allocation_serialized.py:56-77 | a landing leaves main with its own rows or the landed head's, correctly digested |
| `AllocationProtocol.RunKeepsInv` | scripts/check_allocation_serialized.py:56-77 | after every run of forks, edits, updates and gated landings, main's rows are the first ones or some landed head's |
| `AllocationProtocol.RowPropertyHoldsForever` | scripts/check_allocation_serialized.py:56-77 | any row property the first ledger and every landed head has, such as unique prefixes, holds on main forever |
| `AllocationProtocol.AllocationPrecedesSource` | scripts/check_allocation_serialized.py:474-491 | a landing that changes a namespace-owning module's source rests on a row of an earlier ledger of main with the module's code as key or its branch label as label |
| `AllocationProtocol.RowsAloneDoNotConflict` | scripts/check_allocation_serialized.py:56-66 | without the digest, two branches with unique prefixes merge cleanly into a duplicate |
| `AllocationProtocol.MergeRowsYields` | scripts/check_allocation_serialized.py:56-77 | a side that did not move, or moved alike, leaves the merge to the other |
| `AllocationProtocol.MergeRowsExactly` | scripts/check_allocation_serialized.py:56-77 | a merge takes each owner from the side that moved it, and fails exactly when both moved one to different rows |
| `AllocationProtocol.FreshHeadLands` | scripts/check_allocation_serialized.py:56-77 | a head forked from main's tip that changes rows under a new digest can land |
| `MinorUnits.MinorIsExact` | scripts/billing_opening_rehearsal_adapter.py:406-426 | the answer is m exactly when amount x 10^precision is m and the guards hold; otherwise there is none |
| `MinorUnits.MinorUnitsOf` | scripts/billing_opening_rehearsal_adapter.py:406-426 | the rescaling of the coefficient computes exactly that |
| `MinorUnits.MinorInIntegers` | scripts/billing_opening_rehearsal_adapter.py:406-426 | the answer in whole numbers: precision 0 to 6, below 10^14, and an integer equation in powers of ten |
| `MinorUnits.MagnitudeGuard` | scripts/billing_opening_rehearsal_adapter.py:410-411 | for a non-zero amount the digit-count guard says |value| < 10^14, however it is written |
| `MinorUnits.MinorIsBounded` | scripts/billing_opening_rehearsal_adapter.py:406-426 | an answer is below 10^(14+precision), at most 10^20 |
| `MinorUnits.RepresentationsAgree` | scripts/billing_opening_rehearsal_adapter.py:406-426 | two spellings of one non-zero value give one answer |
| `MinorUnits.DisagreementIsZero` | scripts/billing_opening_rehearsal_adapter.py:406-426 | two spellings of one value disagree exactly when the value is zero and one exponent alone trips the guard |
| `AssemblyDrafter.DraftAssembly` | scripts/billing_opening_assembly_drafter.py:250-491 | refuses with the code of the first check that fails, otherwise returns the one draft the inputs determine |
| `AssemblyDrafter.ReadPrecisions` | scripts/billing_opening_assembly_drafter.py:232-242 | refuses exactly an ill-typed row or a repeated currency |
| `AssemblyDrafter.ReadCensus` | scripts/billing_opening_assembly_drafter.py:265-298 | refuses exactly an ill-typed census row or precision, otherwise yields the tables, the universe and the census blockers |
| `AssemblyDrafter.DraftPartitions` | scripts/billing_opening_assembly_drafter.py:300-371 | targets nobody asked for are reported, then the universe is resolved and collisions removed |
| `AssemblyDrafter.ReportRepeats` | scripts/billing_opening_assembly_drafter.py:415-418 | each settlement key that occurs more than once is reported once |
| `AssemblyDrafter.IndexInvoices` | scripts/billing_opening_assembly_drafter.py:269-278 | the table keeps the last row of an id and the repeated ids are exactly those with more than one row |
| `AssemblyDrafter.CollectSection` | scripts/billing_opening_assembly_drafter.py:285-298 | the universe gains exactly the accounts and currencies of the rows; rows without are reported, except invoices |
| `AssemblyDrafter.IndexTargets` | scripts/billing_opening_assembly_drafter.py:301-306 | refuses exactly a partition declared twice |
| `AssemblyDrafter.ResolvePartitions` | scripts/billing_opening_assembly_drafter.py:324-362 | each census partition gets its declared or derived target, or the reason it has none |
| `AssemblyDrafter.RemoveCollisions` | scripts/billing_opening_assembly_drafter.py:363-371 | the partitions left are exactly those alone on their target account; each shared account is reported once |
| `AssemblyDrafter.MapInvoices` | scripts/billing_opening_assembly_drafter.py:373-399 | each eligible invoice is mapped, blocked, or passed over as repeated |
| `AssemblyDrafter.ScopeSettlements` | scripts/billing_opening_assembly_drafter.py:401-414 | the active settlements on eligible invoices with the number of times each key occurs |
| `AssemblyDrafter.MapSettlements` | scripts/billing_opening_assembly_drafter.py:419-440 | each settlement in scope is mapped, blocked, or passed over as repeated |
| `DraftProperties.PartitionsAreAccountedFor` | scripts/billing_opening_assembly_drafter.py:325-371 | every census partition is in the assembly, or blocked under its reference, or in a reported collision |
| `DraftProperties.TargetsAreDistinct` | scripts/billing_opening_assembly_drafter.py:363-371 | assembly partitions are census partitions, one per key and one per target account |
| `DraftProperties.InvoicesAreAccountedFor` | scripts/billing_opening_assembly_drafter.py:373-399 | every eligible invoice is exactly one of mapped and blocked under an invoice code |
| `DraftProperties.MappedInvoicesAreSound` | scripts/billing_opening_assembly_drafter.py:376-399 | a mapped invoice is the census's one row of its id, in an assembly partition and at its declared precision |
| `DraftProperties.SettlementsAreAccountedFor` | scripts/billing_opening_assembly_drafter.py:401-440 | every active settlement on an eligible invoice is mapped or blocked under a settlement code |
| `DraftProperties.DischargesReferToMappedInvoices` | scripts/billing_opening_assembly_drafter.py:419-440 | a discharge mapping is the one settlement in scope of its key, on a mapped invoice, and no other mapping shares its reference |
| `DraftProperties.DraftedLookupsAreDistinct` | packages/dotmac-billing/src/dotmac_billing/opening_rehearsal_contracts.py:291-308 | a drafted assembly always passes the declaration's check against ambiguous lookups |
| `DraftProperties.PartitionsCarryTheirTargets` | scripts/billing_opening_assembly_drafter.py:325-362 | every assembly partition carries its source account, the declared precision of its currency, and the declared target if there is one, else the derived account at the pristine position |
| `DraftProperties.DraftIsSortedAndCounted` | scripts/billing_opening_assembly_drafter.py:448-479 | all four lists of a draft are in order, and its seven counts are their lengths and the numbers of distinct census invoices, eligible ids and partitions |
| `DraftMeaning.RefusalExactly` | scripts/billing_opening_assembly_drafter.py:203-242 | drafting goes ahead exactly for inputs sound in the listed respects, and each refusal code is given exactly when stated |
| `DraftMeaning.InvoicesExactly` | scripts/billing_opening_assembly_drafter.py:373-399 | an invoice is mapped exactly when eligible with one census row, in an assembly partition at that partition's precision |
| `DraftMeaning.DischargesExactly` | scripts/billing_opening_assembly_drafter.py:401-440 | a discharge is mapped exactly for a settlement in scope, alone under its key, of kind payment or credit note, with a source id, on a mapped invoice |
| `DraftMeaning.PartitionsExactly` | scripts/billing_opening_assembly_drafter.py:324-371 | the assembly's partitions are exactly those the census names with a declared precision and a declared or derived target that no other shares |
| `DraftMeaning.BlockersExactly` | scripts/billing_opening_assembly_drafter.py:265-440 | the blockers are exactly those the rows give rise to, each with its code, reference and detail |
| `DraftMeaning.BlockersInNameOrder` | scripts/billing_opening_assembly_drafter.py:466-466 | blockers stand in the order of their code names, references and details |
| `DraftMeaning.DraftInOrder` | scripts/billing_opening_assembly_drafter.py:442-466 | partitions by account and currency, invoices by id, discharges by kind and id, blockers by code name |
| `DraftMeaning.CountsExactly` | scripts/billing_opening_assembly_drafter.py:468-479 | what each of the seven counts counts |
| `DraftMeaning.FormatJoins` | scripts/billing_opening_assembly_drafter.py:188-200 | a format is filled in piece by piece |
| `DraftOrder.DraftIgnoresOrder` | scripts/billing_opening_assembly_drafter.py:269-298 | permuting controls, lanes, invoices, eligible ids or settlements changes neither refusal nor draft, duplicates included |
| `DraftOrder.InvoiceVerdictsAgree` | scripts/billing_opening_assembly_drafter.py:270-278 | which row a repeated id keeps never matters |
| `DraftOrder.BlockersAgree` | scripts/billing_opening_assembly_drafter.py:466-466 | the sorted blockers are those of any other order |
| `RehearsalAdapter.Assemble` | scripts/billing_opening_rehearsal_adapter.py:643-935 | refuses evidence that does not stand up, otherwise returns the one outcome the inputs determine |
| `RehearsalAdapter.CheckOriginals` | scripts/billing_opening_rehearsal_adapter.py:669-703 | accepts exactly originals given once each for the one row of an eligible, mapped, unexceptional invoice, equal in every particular |
| `RehearsalAdapter.BuildTables` | scripts/billing_opening_rehearsal_adapter.py:659-668 | the first mapping and exclusion and all blocking codes of each invoice id |
| `RehearsalAdapter.CheckHistories` | scripts/billing_opening_rehearsal_adapter.py:704-764 | accepts exactly histories of distinct invoices with originals, every effect standing up, and no reference used twice across all of them |
| `RehearsalAdapter.CheckEffects` | scripts/billing_opening_rehearsal_adapter.py:724-763 | one invoice's effects against the references used so far |
| `RehearsalAdapter.FindOutside` | scripts/billing_opening_rehearsal_adapter.py:765-775 | exactly the accounts and invoices no declared partition covers |
| `RehearsalAdapter.Classify` | scripts/billing_opening_rehearsal_adapter.py:787-813 | the standing of an invoice under the precedence, overridden when the residual does not scale |
| `RehearsalAdapter.DisposeAll` | scripts/billing_opening_rehearsal_adapter.py:784-855 | the dispositions, receivables, used mappings, unmapped invoices and blockers of every observed invoice |
| `RehearsalAdapter.FindUnmappedSettlements` | scripts/billing_opening_rehearsal_adapter.py:858-867 | exactly the active settlements on eligible invoices that no discharge mapping declares |
| `AdapterProperties.SettlementsAreConsumedOnce` | scripts/billing_opening_rehearsal_adapter.py:704-764 | accepted effects correspond one to one to distinct active observed settlements of their own invoice, each of which scales exactly, to the effect's amount, so the totals agree |
| `AdapterProperties.SameSettlementSameReference` | scripts/billing_opening_rehearsal_adapter.py:727-750 | two effects on one settlement have one reference |
| `AdapterProperties.OneDispositionEach` | scripts/billing_opening_rehearsal_adapter.py:784-833 | each invoice in a declared partition has exactly one disposition: the status and reason the precedence gives, and the first mapping's identity when eligible and mapped, else its own |
| `AdapterProperties.PopulationAddsUp` | scripts/billing_opening_rehearsal_adapter.py:930-935 | the three counts add up to the population, which is the number of covered invoices |
| `AdapterProperties.ReceivablesAreEligibleAndMapped` | scripts/billing_opening_rehearsal_adapter.py:824-855 | an observed invoice has a receivable exactly when it is covered, exact, eligible, unexceptional and mapped; one that does not scale never has |
| `AdapterProperties.ReceivableHasDisposition` | scripts/billing_opening_rehearsal_adapter.py:824-855 | nothing else is a receivable, and each shares identity, partition and residual with an eligible disposition |
| `AdapterProperties.ResidualsAreConserved` | scripts/billing_opening_rehearsal_adapter.py:784-855 | the residuals of eligible dispositions are those of the receivables plus those of eligible invoices reported unmapped |
| `AdapterProperties.OutcomeIsSorted` | scripts/billing_opening_rehearsal_adapter.py:921-928 | dispositions come in the order of partition and identity, receivables in that of their invoice key |
| `AdapterProperties.EvidenceIsCarried` | scripts/billing_opening_rehearsal_adapter.py:834-841 | accepted evidence is carried whole: each invoice's receivable has its original and its history, and no other |
| `AdapterMeaning.LookupsFind` | scripts/billing_opening_rehearsal_adapter.py:643-668 | which row each lookup of an invoice finds: the last precision and partition, the first mapping |
| `AdapterMeaning.OriginalExactly` | scripts/billing_opening_rehearsal_adapter.py:669-703 | when an original stands up, over the rows |
| `AdapterMeaning.EffectExactly` | scripts/billing_opening_rehearsal_adapter.py:724-763 | when an effect stands up: one mapping and one settlement that agree with it |
| `AdapterMeaning.HistoriesExactly` | scripts/billing_opening_rehearsal_adapter.py:704-764 | when histories are accepted: distinct invoices with originals, effects standing up, every reference once |
| `AdapterMeaning.AccountUnmappedExactly` | scripts/billing_opening_rehearsal_adapter.py:765-775 | which accounts are reported unmapped |
| `AdapterMeaning.InvoiceUnmappedExactly` | scripts/billing_opening_rehearsal_adapter.py:765-855 | which invoices are reported unmapped |
| `AdapterMeaning.SettlementUnmappedExactly` | scripts/billing_opening_rehearsal_adapter.py:858-867 | which settlements are reported unmapped |
| `AdapterMeaning.BlockersExactly` | scripts/billing_opening_rehearsal_adapter.py:776-867 | exactly which blockers are reported, with their partition keys |
| `AdapterMeaning.OutcomeInOrder` | scripts/billing_opening_rehearsal_adapter.py:921-928 | the order of dispositions and receivables, key by key |
| `AdapterMeaning.PopulationExactly` | scripts/billing_opening_rehearsal_adapter.py:930-935 | each count is the number of dispositions of its status |
| `AdapterMeaning.UsedExactly` | scripts/billing_opening_rehearsal_adapter.py:824-833 | the mappings used are the first ones of covered, eligible invoices |
| `DraftAgreement.CleanDraftIsMapped` | scripts/billing_opening_rehearsal_adapter.py:765-777 | after a draft without blockers no settlement is unmapped, and no account or invoice is exactly when every invoice names a currency |
| `DraftAgreement.DraftAgreesWithAdapter` | scripts/billing_opening_assembly_drafter.py:285-440 | for a census both programs load, a draft without blockers makes the adapter report nothing unmapped and no blocker but inexact residuals |
| `DraftAgreement.EmptyCurrencyIsSilent` | scripts/billing_opening_assembly_drafter.py:285-299 | an invoice with an empty currency is drafted without a blocker and would be unmapped |

## Left out

- ZIP decoding, SHA-256, `str.lower`, `uuid5` and the UTF-8 layer are parameters or given values; a canonical text stands for its bytes.
- Operating-system errors, name-length limits and concurrent writers: the file system is sequential, and a destination that appears during staging is not modelled.
- HTML and URL escaping of index pages: a page is the list of names and digests it links.
- Fractional numbers, NaN and lone surrogates in JSON documents.
- Integers beyond Python's digit limit for conversions between numerals and integers.
- TOML, AST and regular-expression reading: direct verbs, references, ledger rows, dossiers and manifests are given per artifact.
- The other sections of `validate_receipt` (removals, guard, recovery, no-return) and of `reconcile` (undeclared entrypoints, premises): independent field checks.
- `verify_archive_digest` on its own, the attestation scripts and the sidecar: flat record checks.
- BundleExtraction.VerifyMemberHashes: does not model names that are absolute paths, because the extractor has refused them before.
- BundleExtraction.ExtractZipMembers: every stream that cannot be read is an extraction refusal, where the source lets an encrypted member, a broken deflate stream or a truncated one escape with an exception class of their own.
- DisplacementWindow.ValidateWindow: an array or a table given as a run or cause is a refusal, where the source fails with a type error.
- VersionOrder.Survey: covers one distribution at a time; the refusals of a shallow or tagless checkout come before it.
- DispositionLog.Check: an array or object where text is expected counts as some text that is neither blank nor a digest; operating-system errors while reading a receipt are left out.
- AllocationProtocol.RunKeepsInv: a textual merge is modelled cell by cell, a row being one line of the ledger, so a conflict between neighbouring lines is not modelled; such a conflict only stops a landing.
- AssemblyDrafter.DraftAssembly: leaves out the census and target facts it copies verbatim, the parsing of format strings, currencies that are JSON arrays, boolean precisions, and the package's own parse of the finished declaration beyond its lookup check.
- RehearsalAdapter.Assemble: leaves out lane controls, commands, previews, the manifest's capture and collection evidence, and the record constructors' refusal of blank text.
- DraftAgreement.DraftAgreesWithAdapter: the declaration's parser is the identity on a drafted assembly; the loaders' typing of amounts and instants is in the types.
- The ratchets, `bump_version.py`, collectors and transports, `app/` and migrations: simple comparisons or orchestration of packages outside this model.
