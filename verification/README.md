# Closure authority, verified

A Dafny model of the gates in `scripts/`: the closure-authority protocol that decides which merges may
change the files guarding the gate itself, and the smaller protocols and algorithms around it. Verify with
`dafny verify dfyconfig.toml`.

## What is modelled

**The authority protocol.** `AuthorityPolicy` holds the data: trees, policies, receipts. `AuthorityRotation` is the
verifier of one rotation, pass by pass, with its issue codes; `LegalRotation` states the rules of a legal rotation
on their own and proves that the verifier accepts exactly those, and `RotationRules` that each code is reported
exactly when its own rule is broken. `Patterns` and `AuthorityShapes` give the shapes of texts a second time, as
the source's patterns. `ProposalGate` is the gate around the verifier with its merge-base drift rule, and
`LegalProposal` says on trees and bytes what it accepts. `RotationRuns` and `RotationTheorems` take the gate as the
step of a state machine over the protected branch, from a genesis with an empty ledger and no successor: any
interleaving of product merges, each against any merge base, and of up-to-date rotations. What holds over every
such run: pins stay true, the ledger only grows and its replay is the policy, the activation window is absolute,
active bytes were inert templates first and change only at activations. `RotationAttestation` relates receipts to
what rotations change, `ImportClosure` follows the imports of pinned code through runs, and `RotationWitness` and
`ImportWitness` are the accepted inputs at which their conditions fail.

**Release train and reviews.** `DependencyCycles` is the recursive search with its two sets, `ReleaseTrain` the
links declared from both ends, `ReviewAuthority` the choice of the approval a verdict rests on.

**Crash and concurrency protocols.** `ProofPublication` interleaves any number of runs that publish one signed
report as a file, and `ProofRuns` is the table of their operations. Below it, `LifecycleReport` builds the report
and has the validator's field rules, `LifecycleProof` signs and replays it, `LifecycleRules` says by literal keys
which file is accepted, `LifecycleReplay` proves that what is built is that, and `CanonicalJson`, `CanonicalText`
and `Utf8` are its text and bytes, `CanonicalForm` and `JsonGrammar` the text spelled out. `ObjectStore`
interleaves publishers of one backup, each stopping anywhere, and `PublishRuns` is the table of their operations.
`RecoveryProof` runs a recovery in a world that may fail at every call and kill the run between any two steps, over
`FileTrees` with the digest of `DigestForm`, and then any sequence of retries.

**Graphs, streams and edits.** `Reachability` and `Closures` are the work-list search, the cyclic re-export walk
and the dead-evidence verdicts, `StrictGate` what they are worth to the gate. `GitStreams` inverts two Git
printers, and `GitForm` spells out one of their languages. `MutationProof` mutates, runs and restores files as
bytes. `LiveRefresh` takes the claims registry from text to text: `RegistryJson` reads it, `LiveEvidence` edits it
through the line patterns of `QuotedText`, and `LiveContract` judges the result by the time stamps of `IsoTime`;
`JsonTokens`, `IsoStamps` and `LiveMeaning` spell out what their parts mean. `LiveRegistry` is one whole registry
in two layouts, and `LiveWitness` what becomes of it. `EvidenceHolds` partitions the registry's issues.

In the authority protocol SHA-256 is symbolic: a digest carries its bytes. Where the digest of a text is at stake
(`FileTrees`, `RecoveryProof`) it is an arbitrary function on bytes, injective where that is needed. Module
imports, the parsed JSON of policies and matrices, clocks, the network and the test runner are arbitrary functions
passed in, so every theorem holds for all of them.

## What the code does that its descriptions do not say

- A receipt may misstate a file whose name holds `#`, since the head is read without the fragment
  (`RotationIsAttested`, `AcceptedRotationMisstatesChange`); only an auxiliary file of the genesis policy can be
  such a file (`EveryRotationIsAttested`).
- An accepted rotation that is not up to date may lose a pin (`UnrebasedRotationKeepsPinExactly`). With no other
  rotation in between, it is one that the rotation itself adds, of a file changed since it branched
  (`EarlierBaseKeepsPinExactly`, `PinnedPathIsKept`, `AcceptedRotationLosesPin`).
- A product merge may leave pinned code importing an unpinned file (`ProductKeepsClosureExactly`,
  `AcceptedMergeLosesClosure`).
- The digest of a tree does not tell a directory from a file that holds its listing, nor a backslash in a name
  from a subdirectory, nor any empty directory (`DigestIdentifiesFiles`, `ListingFileCollides`,
  `EmptyListCollides`, `BackslashCollides`); a recorded recovery means no more than that (`HoldsRestored`).
- Mutated files are restored as re-encoded text, so a file that is not valid UTF-8 comes back changed, mutated or
  not (`RestoredExactly`, `InvalidFileIsChanged`).
- Observation stamps are compared as text: the 24th hour of a day and a day past the end of its month are second
  spellings of an instant and pass (`SameInstantExactly`, `OneInstantIsRefreshed`).
- Of live entries on one line only the first object is edited, with the last one's observation (`AllCarryExactly`).
  The contract stops that, unless the deployed revision is the audited one already and the other objects are still
  fresh (`SharedLinePassesExactly`, `SharedLineIsRefreshed`).
- The strict gate passes a verified requirement with an empty id, and pools evidence of requirements that share
  an id (`ScriptGateMeansOwnExactly`, `EmptyIdPasses`).
- The commit of a backup is last only when the backup directory itself holds no authenticated `commit.json`
  (`CommitLastExactly`). A directory with any other `commit.json` is never published (`OwnCommitFileBlocks`), and
  one with the very commit is published but cannot be downloaded (`DownloadGivesBack`).
- The seeded sample draws one past the end when its first state is the top one (`Sample`, `BadSeed`).
- The carriage-return scan stops at the first missing object, whose line has two words (`MissingStops`).

## Model

| member | source | states |
|---|---|---|
| `AuthorityRotation.VerifyAuthorityRotation` | scripts/production-closure-authority-rotation.ts:342-821 | The six passes together report exactly the codes that are broken, and nothing is reported if and only if the rotation is acceptable |
| `LegalRotation.AcceptedExactly` | scripts/production-closure-authority-rotation.ts:342-821 | A rotation is reported for nothing if and only if it is legal: a fresh chained timely receipt that binds ledger and policies, one of three kinds with its own rules, exactly the changed files once each and in scope, true pins, and imports that mean pinned files |
| `RotationRules.LedgerRuleExactly` | scripts/production-closure-authority-rotation.ts:342-361 | A ledger that is not the base ledger with one receipt added is reported for that alone |
| `RotationRules.ReceiptRulesExactly` | scripts/production-closure-authority-rotation.ts:362-484 | Each code of the receipt is reported if and only if its own rule is broken: chain and times, digests, identity, kind and tuple |
| `RotationRules.StageRulesExactly` | scripts/production-closure-authority-rotation.ts:485-569 | Each code of a stage is reported if and only if the rotation stages and breaks that rule; a re-stage keeps the tuple but for digest and deadline, and the window is seven days from the first stage |
| `RotationRules.StageContextExactly` | scripts/production-closure-authority-rotation.ts:540-616 | So for collisions with the active controller, the pinning of the template, the predecessor and the App identities |
| `RotationRules.ActivationRulesExactly` | scripts/production-closure-authority-rotation.ts:617-695 | Each code of an activation is reported if and only if the rotation activates and breaks that rule |
| `RotationRules.ChangeRulesExactly` | scripts/production-closure-authority-rotation.ts:696-773 | Each code of the changed files is reported if and only if its rule is broken |
| `RotationRules.PinRulesExactly` | scripts/production-closure-authority-rotation.ts:775-816 | Each code of pins and imports is reported if and only if its rule is broken |
| `AuthorityShapes.TupleExactly` | scripts/production-closure-authority-rotation.ts:211-240 | A successor tuple is valid if and only if each of its fields has its shape, by the source's patterns, and they belong together |
| `AuthorityShapes.NamespaceExactly` | scripts/production-closure-authority-rotation.ts:734-745 | New pins are allowed exactly at the paths of five patterns |
| `LegalRotation.OpenerIsOrigin` | scripts/production-closure-authority-rotation.ts:490-509 | The rotation the window is measured from is the one stage that opened the episode still open at the end of the ledger |
| `AuthorityRotation.CheckMovedPins` | scripts/production-closure-authority-rotation.ts:696-705 | Reported exactly when some base pin other than the predecessor's is not carried over unchanged |
| `AuthorityRotation.CheckDroppedPins` | scripts/production-closure-authority-rotation.ts:775-780 | Reported exactly when a base pin is missing afterwards, the activated predecessor's apart |
| `AuthorityRotation.CheckPins` | scripts/production-closure-authority-rotation.ts:781-788 | Reported exactly when a new pin leaves the authority namespace or a pin is not the digest of the proposed bytes |
| `AuthorityRotation.CheckFileImports` | scripts/production-closure-authority-rotation.ts:790-816 | A pinned code file is reported exactly for a dynamic relative import, an unresolved import and an unpinned import |
| `AuthorityRotation.CheckImports` | scripts/production-closure-authority-rotation.ts:790-816 | The import rules over every pinned code file |
| `ImportClosure.RotationCloses` | scripts/production-closure-authority-rotation.ts:790-816 | After every accepted rotation every import of pinned code means a pinned file, whatever held before |
| `ImportClosure.ProductKeepsClosureExactly` | scripts/production-closure-authority-rotation.ts:315-333 | A product merge keeps that closure if and only if it adds no file that an import of pinned code now finds first |
| `ImportClosure.EveryStateIsClosed` | scripts/production-closure-authority-rotation.ts:790-816 | Every state of a run whose product merges add no such file is closed |
| `ImportWitness.AcceptedMergeLosesClosure` | scripts/production-closure-authority-rotation.ts:315-333 | A product merge the gate accepts that adds `b.js` before the pinned `b.ts` |
| `RotationFacts.EpisodeOriginAppend` | scripts/production-closure-authority-rotation.ts:490-509 | The episode's first stage survives re-stages and runtime rotations, and only an activation ends the episode |
| `ProposalGate.VerifyProposal` | scripts/production-closure-proposal-authority.ts:428-980 | The gate reports nothing exactly when base authority, reads, merge base and the drift or rotation rules all hold; otherwise it reports exactly the failures of the first stage that fails, of a rotation by their codes |
| `LegalProposal.GateExactly` | scripts/production-closure-proposal-authority.ts:428-980 | The gate accepts exactly the legal proposals: stated on trees, literal paths, fetched bytes and policies alone, with the rules of a product merge or of a rotation |
| `ProposalGate.VerifyRotation` | scripts/production-closure-proposal-authority.ts:813-980 | A rotating proposal passes exactly when base bytes, tree difference, rotation verdict and ledger rule all hold |
| `ProposalGate.CheckSurfaces` | scripts/production-closure-proposal-authority.ts:796-812 | Drift is reported exactly for a pinned surface that was touched since the merge base and does not hold the pinned content |
| `ProposalGate.DiffTrees` | scripts/production-closure-proposal-authority.ts:835-866 | The change list has one entry per file that differs, directories and ledger apart; anything but regular files is reported |
| `RotationRuns.UpToDateMergeIsHead` | scripts/production-closure-proposal-authority.ts:813-820 | Merging a proposal that is up to date with the branch gives exactly its head |
| `RotationRuns.ProductStep` | scripts/production-closure-proposal-authority.ts:796-812 | A product merge, against any merge base, keeps every invariant of the authority |
| `RotationRuns.RotationStep` | scripts/production-closure-authority-rotation.ts:342-821 | An up-to-date accepted rotation keeps every invariant of the authority |
| `RotationRuns.HeadHoldsPin` | scripts/production-closure-authority-rotation.ts:781-788 | The head of an accepted rotation holds every surface its own policy pins, under the path itself |
| `RotationRuns.UnrebasedRotationKeepsPinExactly` | scripts/production-closure-proposal-authority.ts:813-820 | Merging an accepted rotation that is not up to date keeps a pin if and only if the head touched the path or the branch already holds the pinned surface |
| `RotationTheorems.EarlierBaseKeepsPinExactly` | scripts/production-closure-proposal-authority.ts:813-820 | Merging an accepted rotation that branched from an earlier state of the run keeps a pin if and only if the head touched the path or the branch still holds there what it held at that state |
| `RotationTheorems.PinnedPathIsKept` | scripts/production-closure-proposal-authority.ts:813-820 | So a pin of the branch is kept unless another rotation came in between |
| `RotationWitness.AcceptedRotationLosesPin` | scripts/production-closure-proposal-authority.ts:813-820 | A run with one product merge, and a rotation branched before it that the gate accepts and whose merge loses the pin it adds |
| `RotationRuns.AcceptedTransition` | scripts/production-closure-authority-rotation.ts:342-706 | Acceptance forces one legal transition: chained fresh id, and the stage or activation facts relating both policies and the receipt |
| `RotationTheorems.EveryStateIsGood` | scripts/production-closure-authority-rotation.ts:342-821 | Every reachable state keeps pins, ledger, episode window and App identities, over any interleaving of product merges and rotations |
| `RotationTheorems.PinsStayTrue` | scripts/production-closure-proposal-authority.ts:769-812 | In every reachable state each pinned path holds exactly the pinned surface, and policy and ledger are what the tree holds |
| `RotationTheorems.StepKinds` | scripts/production-closure-authority-rotation.ts:342-361 | Every step either appends exactly one receipt by a legal transition or leaves policy and ledger alone |
| `RotationTheorems.LedgerOnlyGrows` | scripts/production-closure-authority-rotation.ts:351-361 | An earlier ledger is a prefix of every later one |
| `RotationTheorems.LedgerReplaysToPolicy` | scripts/production-closure-authority-rotation.ts:351-398 | Folding the receipts from genesis rebuilds the active identity and the successor; ids are distinct and chained; each activation directly follows its stage; App ids never change |
| `RotationTheorems.ReplayEndsAtLatestStage` | scripts/production-closure-authority-rotation.ts:479-484 | The successor a replay ends in is the latest stage since the last activation, or null |
| `RotationTheorems.ProvenanceIsLatestStage` | scripts/production-closure-proposal-authority.ts:412-426 | The staging provenance names the id and issue time of the latest stage of the episode, in every reachable state |
| `RotationTheorems.ActivationWindowIsAbsolute` | scripts/production-closure-authority-rotation.ts:485-569 | An activation is observed at most seven days after the first stage since the previous activation, however often it was re-staged |
| `RotationTheorems.StagedExactlyInEpisode` | scripts/production-closure-authority-rotation.ts:532-539 | A successor is staged exactly while the episode has a stage, and is the first one with only digest and deadline replaced |
| `RotationTheorems.ReceiptWasAppended` | scripts/production-closure-authority-rotation.ts:351-361 | Every receipt of a ledger was appended by one earlier rotation of the run |
| `RotationTheorems.ActivatedBytesWereTemplateFirst` | scripts/production-closure-authority-rotation.ts:570-597 | Whatever becomes active had its bytes pinned and present as an inert template strictly before the stage that made them executable, and nothing was rotated in between stage and activation |
| `RotationTheorems.ActiveBytesStable` | scripts/production-closure-authority-rotation.ts:709-719 | Outside an activation the active workflow's path and bytes never change, product merges included |
| `RotationTheorems.ActivationInstallsStagedBytes` | scripts/production-closure-authority-rotation.ts:617-695 | An activation installs exactly the staged bytes, which already stood on the branch untouched, and the predecessor's file is gone |
| `RotationAttestation.RotationIsAttested` | scripts/production-closure-authority-rotation.ts:721-773 | A rotation's receipt lists exactly the files it changes, all in scope of the policy before it, and one trusted reviewer stays; a listed change states digests and modes truly if and only if what the gate reads for its path is that file or has its bytes |
| `RotationAttestation.IdentityIsFixed` | scripts/production-closure-authority-rotation.ts:411-430 | The policy's identity never changes in a run |
| `RotationAttestation.OnlyAuxiliaryHasMark` | scripts/production-closure-proposal-authority.ts:221-230 | In a reachable state a path in scope has a fragment mark only if it is an auxiliary file |
| `RotationAttestation.EveryRotationIsAttested` | scripts/production-closure-authority-rotation.ts:721-773 | If no auxiliary file of the genesis policy has a fragment mark, every receipt of the run states all its changes truly |
| `RotationWitness.AcceptedRotationMisstatesChange` | scripts/production-closure-proposal-authority.ts:221-230 | After the same run, the rotation brought up to date is accepted, and its receipt misstates an auxiliary file whose name holds `#` |
| `CanonicalJsonTheorems.PrintIsCanonical` | scripts/post-trained-lifecycle-proof.ts:423-429 | Two values print the same text if and only if they are equal up to key order and undefined members |
| `CanonicalForm.StandsExactly` | scripts/post-trained-lifecycle-proof.ts:423-429 | The printed text is the one text that stands for the value: every escape spelled out, members under ascending keys, parts between commas |
| `CanonicalForm.ReadStringExactly` | scripts/post-trained-lifecycle-proof.ts:605-686 | A string is read exactly if it is spelled unit by unit as RFC 8259 allows, up to its closing quote |
| `JsonGrammar.ReadExactly` | scripts/post-trained-lifecycle-proof.ts:670-686 | A text is read as a value if and only if it is compact JSON for it, strings spelled in any allowed way and members in any order |
| `CanonicalJsonTheorems.ReadPrinted` | scripts/post-trained-lifecycle-proof.ts:423-429 | Printed text parses back to the value with its keys in order |
| `CanonicalJsonTheorems.ReadPrintedString` | scripts/post-trained-lifecycle-proof.ts:423-429 | An escaped string, lone surrogates included, reads back exactly and leaves the rest of the text |
| `CanonicalJsonTheorems.SortSorts` | scripts/post-trained-lifecycle-proof.ts:423-429 | Sorting by key gives a strictly sorted permutation when keys are distinct |
| `CanonicalJsonTheorems.SortedIsUnique` | scripts/post-trained-lifecycle-proof.ts:423-429 | There is only one sorted order of the same members |
| `CanonicalText.PrintText` | scripts/post-trained-lifecycle-proof.ts:423-429 | Printed text holds no lone surrogate, so writing it as UTF-8 loses nothing, and its size in bytes is bounded by the value |
| `CanonicalText.PrintedBytesRead` | scripts/post-trained-lifecycle-proof.ts:670-686 | Printed text written to a file reads back unchanged |
| `LifecycleReplay.BuiltReportReplays` | scripts/post-trained-lifecycle-proof.ts:576-686 | The file of a report built from checked answers is accepted on replay exactly when the key of its id is current or retained and yields the same authentication code; it then returns canonically equal |
| `LifecycleReplay.BuiltFieldsAreValid` | scripts/post-trained-lifecycle-proof.ts:605-668 | Read back, such a report meets every rule the validator has for its fields |
| `LifecycleReplay.ReportHolds` | scripts/post-trained-lifecycle-proof.ts:576-598 | By key text: the report that is read back has one member for each of the 22 names, and each checked value stands under its own key, also in the nested objects |
| `LifecycleReplay.BuiltReportIsLegal` | scripts/post-trained-lifecycle-proof.ts:576-722 | The published file is canonical text and one line end, and holds a legal report of its authority, input and origin |
| `LifecycleRules.ReplaysExactly` | scripts/post-trained-lifecycle-proof.ts:605-686 | A file is taken for an earlier run's report if and only if it has one byte to one MiB and holds, under literal keys, a signed report that meets every rule: names, patterns, bounds, flags, digest and code over the other members, under the current or a retained key |
| `LifecycleRules.CheckedExactly` | scripts/post-trained-lifecycle-proof.ts:90-116 | What a run checked of each value, by the source's patterns and bounds |
| `LifecycleReplay.ReportFits` | scripts/post-trained-lifecycle-proof.ts:670-686 | Its file is neither empty nor larger than what replay reads |
| `LifecycleProof.SignedTextReadsBack` | scripts/post-trained-lifecycle-proof.ts:605-650 | The text the verifier recomputes from the file is the text that was signed |
| `LifecycleProof.CanonIsStable` | scripts/post-trained-lifecycle-proof.ts:423-429 | A value read back from its file prints the same text, and reading it again changes nothing |
| `ProofPublication.EveryStateHolds` | scripts/post-trained-lifecycle-proof.ts:687-722 | The protocol's invariant holds after any interleaving of any number of runs, each with its own request, failed file operations and kills |
| `ProofPublication.StepKeepsInvariant` | scripts/post-trained-lifecycle-proof.ts:687-722 | No step of one run touches another's temporary or phase, or an output that exists |
| `ProofRuns.StepExactly` | scripts/post-trained-lifecycle-proof.ts:670-722 | In every state of the protocol a run's steps are exactly fourteen operations, each with when it can happen and what it leaves: a report is found by the literal rules, the file is canonical text and a line end, and a run that loses the link takes the winner's report only if its text is the same |
| `ProofRuns.BuiltReportIsReturned` | scripts/post-trained-lifecycle-proof.ts:687-722 | A run that has built a report returns one with the same text, if it returns |
| `ProofPublication.OutputNeverChanges` | scripts/post-trained-lifecycle-proof.ts:687-722 | The output file is created at most once and never changes |
| `ProofPublication.ReturnedIsPublished` | scripts/post-trained-lifecycle-proof.ts:670-722 | Each run that returns does so with a report canonically equal to the file, and every return or throw has removed its temporary |
| `ProofPublication.ReturnedRunsAgree` | scripts/post-trained-lifecycle-proof.ts:670-722 | Any two runs that return agree |
| `DependencyCycles.CycleFinder.FindCycles` | scripts/production-closure-matrix.ts:1573-1593 | A cycle is reported exactly when the tracked dependency graph has one, self-dependencies included, and each number reported is on a cycle |
| `DependencyCycles.CycleFinder.Visit` | scripts/production-closure-matrix.ts:1575-1592 | The search terminates, restores the set in progress, and reports only numbers on cycles |
| `DependencyCycles.OrderExcludesCycles` | scripts/production-closure-matrix.ts:1573-1593 | A finishing order in which dependencies come first leaves no cycle of any length |
| `ReleaseTrain.CheckSupersession` | scripts/production-closure-matrix.ts:1455-1497 | Reports nothing exactly when every supersession declaration is coherent from its own end |
| `ReleaseTrain.CheckCoherent` | scripts/production-closure-matrix.ts:1470-1490 | A supersedes list is coherent exactly when each entry is a distinct tracked closed record that points back |
| `ReleaseTrain.SupersessionIsMutual` | scripts/production-closure-matrix.ts:1441-1497 | Accepted declarations are mutual inverses |
| `ReleaseTrain.SupersessionHasDepthOne` | scripts/production-closure-matrix.ts:1441-1497 | Links go from closed to merged records and never chain |
| `ReleaseTrain.GuardsAreRedundant` | scripts/production-closure-matrix.ts:1410-1497 | Dropping the shape, self-reference and target-not-superseded guards changes neither which matrices pass nor what is discharged |
| `ReleaseTrain.CheckDependencies` | scripts/production-closure-matrix.ts:1528-1572 | Reports nothing exactly when every tracked record's dependencies are tracked and, where they must be, discharged |
| `ReleaseTrain.DependenciesAreDischarged` | scripts/production-closure-matrix.ts:1528-1572 | Whatever a merged or green record depends on was merged, or closed in favour of a merged record that lists it |
| `ReleaseTrain.CheckReferences` | scripts/production-closure-matrix.ts:1622-1670 | Reports nothing exactly when rows, issues, pull requests and the current pull request agree in both directions |
| `ReleaseTrain.CheckIssueRecords` | scripts/production-closure-matrix.ts:973-985 | Issue records map back to every row they name |
| `ReleaseTrain.CheckRow` | scripts/production-closure-matrix.ts:773-800 | A row's issues and pull requests exist and map back |
| `ReleaseTrain.ReferencesAreConverse` | scripts/production-closure-matrix.ts:1622-1670 | Requirement and pull request lists are converses of each other, and so are requirement and issue lists |
| `GitStreams.ReadTree` | scripts/production-closure-proposal-authority.ts:1172-1219 | The cursor loop computes the listing parser's answer, error cases included |
| `GitStreams.PrintedTreeParses` | scripts/production-closure-proposal-authority.ts:1172-1219 | Any list of valid entries with distinct paths within the budget survives printing and parsing in order |
| `GitStreams.ParsedTreeIsValid` | scripts/production-closure-proposal-authority.ts:1172-1219 | Whatever is parsed is a list of valid entries with distinct paths within the budget |
| `GitForm.TreeExactly` | scripts/production-closure-proposal-authority.ts:1172-1219 | A listing is read as a tree if and only if it is the terminated records of at most 200,000 entries with distinct paths |
| `GitForm.RecordExactly` | scripts/production-closure-proposal-authority.ts:1184-1215 | A record is read as an entry if and only if it is a header by the source's pattern, the first tab, and a new legal path |
| `GitForm.EntryExactly` | scripts/production-closure-proposal-authority.ts:1195-1213 | Which entries are valid, by names between slashes, literal modes, object names and safe sizes |
| `GitStreams.ShasWithCr` | scripts/eol-normalization-check.ts:113-133 | The cursor loop computes the stream scan's answer |
| `GitStreams.ScanIsExact` | scripts/eol-normalization-check.ts:113-133 | The scan returns exactly the objects before the first missing one whose content holds a carriage return, whatever bytes contents hold |
| `GitForm.FoundExactly` | scripts/eol-normalization-check.ts:113-133 | Of the answers up to the first missing one, exactly those whose content holds the byte 13 are reported |
| `GitForm.AnswerExactly` | scripts/eol-normalization-check.ts:113-133 | One answer of the stream, byte by byte |
| `GitStreams.PresentScans` | scripts/eol-normalization-check.ts:113-133 | A present object is skipped by its declared size even when its content looks like headers |
| `GitStreams.MissingStops` | scripts/eol-normalization-check.ts:113-133 | The two-word line of a missing object ends the scan |
| `Reachability.ComputeReached` | scripts/evidence-reachability-check.ts:450-467 | The work-list search returns exactly the modules to which some entry has an import path |
| `Reachability.ExportScan.Names` | scripts/evidence-reachability-check.ts:602-653 | With the shared seen set, each call returns the exports of exactly the modules it newly sees, all of which it can reach, and leaves none of their targets unseen |
| `Reachability.SubjectSymbols` | scripts/evidence-reachability-check.ts:602-653 | The names are exactly the union of exports over all modules reachable by whole re-export, cycles included |
| `Closures.ClosedHoldsReachable` | scripts/evidence-reachability-check.ts:450-467 | A set closed under successors holds everything reachable from it |
| `Reachability.AnalyzeCitation` | scripts/evidence-reachability-check.ts:709-768 | Over the fields of the index: unreachable if and only if the citation is traceable, names something, and no file but tests uses and no entry declares any of it; live if and only if one of its names is declared by an entry or used by a file that imports lead to from an entry |
| `Reachability.StatusMeaning` | scripts/evidence-reachability-check.ts:537-553 | A traced symbol has a caller, and both flags mean what they are named |
| `Reachability.LoadedExactly` | scripts/evidence-reachability-check.ts:450-467 | A module is reached exactly if a chain of imports leads to it from an entry, over the fields of the index alone |
| `Reachability.UnreachableIsSound` | scripts/evidence-reachability-check.ts:670-707 | Under any use relation contained in the non-test text, no chain of uses from an entry module ends in anything an unreachable citation rests on |
| `Reachability.GroupVerdicts` | scripts/evidence-reachability-check.ts:861-867 | Verdicts are grouped by requirement id, all of them and only register ones |
| `Reachability.EvaluateStrictGate` | scripts/evidence-reachability-check.ts:840-920 | The strict gate fails exactly when some verified requirement with an id has, under that id, a citation proven dead, and it names these requirements in order |
| `StrictGate.ScriptGateMeansOwnExactly` | scripts/evidence-reachability-check.ts:840-920 | With the script's source extensions and kinds: whatever the code and the evidence, the gate fails exactly when a verified requirement rests on dead code of its own, if and only if verified ids are not empty and shared with verified requirements only |
| `StrictGate.ScriptChecksExactly` | scripts/evidence-reachability-check.ts:115-123 | The script's kinds, extensions and marks of tests that drive the application, by literal text |
| `StrictGate.GateMeansOwnExactly` | scripts/evidence-reachability-check.ts:840-920 | The same for any rules on kinds and paths that can trace something: whatever the code and the evidence, the gate fails exactly when a verified requirement rests on dead code of its own, if and only if verified ids are not empty and shared with verified requirements only |
| `StrictGate.EmptyIdPasses` | scripts/evidence-reachability-check.ts:861-867 | A verified requirement with an empty id that rests on dead code in `d.ts`, and passes the script's gate |
| `ObjectStore.DirectorySummary` | scripts/customer-object-store.ts:240-257 | Count and total size of a directory, whatever the order of the visit |
| `ObjectStore.StepKeepsInvariant` | scripts/customer-object-store.ts:259-308 | No remote operation of any publisher breaks what the others rely on |
| `PublishRuns.StepExactly` | scripts/customer-object-store.ts:259-308 | A publisher's steps are exactly nine operations, each with when it can happen and what it leaves of store and phase |
| `PublishRuns.ReturnsExactly` | scripts/customer-object-store.ts:259-308 | A publication into an empty prefix can return if and only if the directory has a manifest and no commit file but the very one to be written |
| `PublishRuns.ResolveExactly` | scripts/customer-object-store.ts:343-375 | A backup id resolves exactly to what its stored, authentic commit of the same locator says |
| `ObjectStore.CommitMeansComplete` | scripts/customer-object-store.ts:259-308 | With any number of publishers stopped anywhere, an authenticated commit in the store means that all files of its publisher are there |
| `ObjectStore.CommitLastExactly` | scripts/customer-object-store.ts:259-308 | That holds in every reachable state if and only if the local directory does not itself hold an authenticated commit file |
| `ObjectStore.ObjectsStay` | scripts/customer-object-store.ts:259-308 | Stored objects are never replaced or removed |
| `ObjectStore.UsedPrefixIsNotRepublished` | scripts/customer-object-store.ts:271-272 | Once anything is stored under a backup id, a publication that starts later never uploads, commits or returns |
| `ObjectStore.ReturnedPublishersAgree` | scripts/customer-object-store.ts:293-308 | Publishers that return for one backup id published the same commit |
| `ObjectStore.Destination.Download` | scripts/customer-object-store.ts:310-341 | A download returns exactly when the transfer succeeds, the commit authenticates and matches and the copied files have the published manifest, count and size; without a matching commit nothing is copied, and a failed transfer leaves what had arrived |
| `ObjectStore.RestoredIsPublished` | scripts/customer-object-store.ts:310-375 | In any run whose local directories hold no authenticated commit, what can be resolved or restored is what one publisher published, and all of that publisher's files are stored |
| `ObjectStore.DownloadGivesBack` | scripts/customer-object-store.ts:259-375 | What was published resolves, and downloads into an empty directory as exactly the local files, if and only if these include no commit file |
| `ObjectStore.OwnCommitFileBlocks` | scripts/customer-object-store.ts:259-308 | A publication with a local commit file other than the very commit being written never returns |
| `FileTrees.DigestIdentifiesFiles` | scripts/production-recovery-proof.ts:594-618 | Trees with the same files digest alike; of a directory without backslashes in its paths, an equal digest means the same files if and only if the other tree is such a directory too |
| `DigestForm.DigestExactly` | scripts/production-recovery-proof.ts:594-618 | A file's digest is the hash of its content, a directory's that of the text that lists path, length and digest of each file below it, spelled out |
| `DigestForm.FilesExactly` | scripts/production-recovery-proof.ts:601-616 | The files listed are exactly those that paths of the tree lead to |
| `FileTrees.ListingFileCollides` | scripts/production-recovery-proof.ts:594-618 | A file holding a directory's listing has that directory's digest |
| `FileTrees.EmptyListCollides` | scripts/production-recovery-proof.ts:594-618 | The file `[]` has the digest of an empty directory |
| `FileTrees.BackslashCollides` | scripts/production-recovery-proof.ts:606-611 | A name with a backslash and a subdirectory give one digest |
| `FileTrees.CopyTarget.Visit` | scripts/production-recovery-proof.ts:758-768 | Writing entry by entry into an empty directory makes it the source directory, and fails exactly where an operation fails or an entry is neither file nor directory |
| `FileTrees.CopyTarget.CopyTreeCreateOnly` | scripts/production-recovery-proof.ts:754-777 | The copy is made only where nothing is, is then the very source tree, and leaves nothing when any part of it fails |
| `FileTrees.CopiesExactly` | scripts/production-recovery-proof.ts:754-777 | A copy can be made exactly if every entry at every depth is a file or a directory and no operation on it fails |
| `RecoveryProof.Host.Prepare` | scripts/production-recovery-proof.ts:857-880 | The run goes on if and only if the revision is the expected one, the paths are safe and empty and the fence is free, and then it holds the fence |
| `RecoveryProof.Host.RestoreAndSnapshot` | scripts/production-recovery-proof.ts:884-923 | It succeeds if and only if the restore is in order and everything restored can be copied; target and snapshot are then the restored tree, whose digest is returned |
| `RecoveryProof.Host.ConvergeAndRollBack` | scripts/production-recovery-proof.ts:925-954 | It succeeds if and only if converging succeeds, the canaries pass on the converged trees, rolling back gives the restored digest again and the objectives are met |
| `RecoveryProof.Host.RunProductionRecoveryProof` | scripts/production-recovery-proof.ts:836-1024 | Existing evidence alone decides and nothing changes; from none and without a kill the run returns its proof and records it if and only if every stage passes, nobody else writes and the write is whole, and otherwise it throws and records its failure unless there is evidence by then; the fence is left as found on every exit; what a kill at each point leaves is stated, too |
| `RecoveryProof.PassesExactly` | scripts/production-recovery-proof.ts:857-954 | A run passes if and only if, on the expected deployment, some backup bound by its manifest restores to a directory with its digest that can be copied, the canaries pass once the stores converged, and rolling back gives that digest again in time |
| `RecoveryProof.EvidenceIsWriteOnce` | scripts/production-recovery-proof.ts:810-834 | Over all retries, evidence once present never changes |
| `RecoveryProof.FailureAlwaysThrows` | scripts/production-recovery-proof.ts:810-834 | After a recorded failure or a torn file no run ever returns |
| `RecoveryProof.PassReplaysExactlyItsRequest` | scripts/production-recovery-proof.ts:810-834 | After a pass a run returns that very proof exactly for the same request under the same key |
| `RecoveryProof.ReturnedRunsAgree` | scripts/production-recovery-proof.ts:810-1024 | All runs that return over all retries return one proof, for one request |
| `MutationProof.ApplyMutant` | scripts/mutation-proof.ts:332-334 | A splice replaces exactly the mutant's range and keeps every other character |
| `MutationProof.SortSorts` | scripts/mutation-proof.ts:430-435 | The order of mutants is a permutation by priority |
| `MutationProof.CapKeepsLowestPriorities` | scripts/mutation-proof.ts:430-460 | No mutant left out by the cap comes before one that is tried |
| `MutationProof.Workspace.RunMutant` | scripts/mutation-proof.ts:446-455 | The run sees the file with the mutant spliced in, and the file's text is back afterwards, also when the runner throws |
| `MutationProof.Workspace.RunAll` | scripts/mutation-proof.ts:457-498 | Every run sees one splice; the loop stops at the first failing run and otherwise has tried every effective mutant |
| `MutationProof.Workspace.ProveCitation` | scripts/mutation-proof.ts:374-516 | On every exit files that are valid UTF-8 have their original bytes, and once a mutant ran all files do if and only if all are; nothing is mutated unless the test is green before; killed names the first removal within the cap whose run failed, and survived means that all of them passed and the diagnostics ran until one failed |
| `MutationProof.VerdictsExactly` | scripts/mutation-proof.ts:387-516 | Killed and survived need a green baseline; undetermined if and only if there is no test, no file, a baseline that is not green, or no removal; an exception if and only if the baseline or a mutant run threw |
| `MutationProof.PlanExactly` | scripts/mutation-proof.ts:425-445 | The plan of a kind holds exactly the mutants of that kind of the files' texts |
| `MutationProof.OneMoreFile` | scripts/mutation-proof.ts:421-429 | Mutants come file by file, in the order of the files |
| `MutationProof.SortIsStable` | scripts/mutation-proof.ts:430-435 | Mutants of one priority stay in the order in which they were found |
| `Utf8.RoundTripsExactly` | scripts/mutation-proof.ts:446-455 | Reading bytes as UTF-8 and writing the text gives them back if and only if they are valid UTF-8 |
| `MutationProof.RestoredExactly` | scripts/mutation-proof.ts:511-515 | Writing files back from their text restores every byte if and only if each file is valid UTF-8 |
| `MutationProof.InvalidFileIsChanged` | scripts/mutation-proof.ts:511-515 | The file holding the single byte 0xFF comes back as three other bytes |
| `MutationProof.SpliceIsOnlyChange` | scripts/mutation-proof.ts:446-455 | For files that are valid UTF-8 a mutant run saw the original disk but for one spliced file |
| `MutationProof.Sample` | scripts/mutation-proof.ts:806-818 | The seeded sample exchanges each place, from the last to the second, with the one the next state draws; it is a permutation if and only if there is at most one item or the first state drawn is not the top one |
| `MutationProof.StatesExactly` | scripts/mutation-proof.ts:806-813 | The states: the seed's low 32 bits, or one, and then a linear sequence in 32 bits |
| `MutationProof.BadSeed` | scripts/mutation-proof.ts:806-818 | A seed for which it is not |
| `ReviewAuthority.ResolveReleaseOwner` | scripts/production-closure-github-authority.ts:504-513 | An owner is named exactly when the labels hold that agent's label text and neither of the other two |
| `ReviewAuthority.BindReviewers` | scripts/production-closure-github-authority.ts:1895-1930 | The configuration is refused exactly when it is empty or binds a login to two agents |
| `ReviewAuthority.TrustedReviewerIdentities` | scripts/production-closure-github-authority.ts:515-527 | Trust is the last binding of a login among the agents that are not the owner |
| `ReviewAuthority.TrustedIdMeaning` | scripts/production-closure-github-authority.ts:515-527 | A trusted id is bound to another agent, and an untrusted login is bound to no other agent |
| `ReviewAuthority.LatestByReviewer` | scripts/production-closure-github-authority.ts:535-540 | The map holds every reviewer's review of highest id and no other |
| `ReviewAuthority.QualifyingReviews` | scripts/production-closure-github-authority.ts:529-550 | The candidates are exactly the latest reviews that approve the head, highest id first |
| `ReviewAuthority.JudgeReview` | scripts/production-closure-github-authority.ts:1087-1188 | A review is found exactly when one qualifies, and it is the qualifying one of highest id |
| `ReviewAuthority.QualifyingIsIndependent` | scripts/production-closure-github-authority.ts:529-550 | A qualifying review is an approval of the exact head by a reviewer of another agent, never the owner's or the author, not taken back, given after every owner label change |
| `ReviewAuthority.QualifiesExactly` | scripts/production-closure-github-authority.ts:529-550 | With distinct review ids and bound logins, the qualifying reviews are exactly such approvals, a rotation's attestation included |
| `ReviewAuthority.CountsExactly` | scripts/production-closure-github-authority.ts:1087-1188 | A review counts exactly if it was given after every change of a label that starts with `release-owner:` and, for a rotation, its account attests it |
| `ReviewAuthority.TrustedExactly` | scripts/production-closure-github-authority.ts:515-527 | A reviewer is trusted exactly if the last binding of the login among the other agents has that account id |
| `ReviewAuthority.LaterLabelChangeInvalidates` | scripts/production-closure-github-authority.ts:1094-1121 | A later release-owner label event invalidates exactly the approvals submitted before it |
| `ReviewAuthority.LaterReviewRevokes` | scripts/production-closure-github-authority.ts:535-550 | A later review of the same login takes an approval back |
| `LiveEvidence.LinesAreText` | scripts/refresh-live-evidence.ts:305-305 | Splitting the registry into lines and the lines at their quotes loses nothing |
| `QuotedText.FirstMatch` | scripts/refresh-live-evidence.ts:147-151 | The first place of a key among the parts between quotes is the first match of the pattern in the text |
| `QuotedText.ReplacesFirstMatch` | scripts/refresh-live-evidence.ts:158-162 | Replacing writes the value into the pattern's first match and keeps every other character of the line |
| `LiveEvidence.FindLiveEntryLines` | scripts/refresh-live-evidence.ts:172-195 | Found exactly when every id is live on exactly one line that has a locator |
| `LiveEvidence.DeriveChanges` | scripts/refresh-live-evidence.ts:311-355 | Changes are derived exactly when every entry has an observation that counts and no two share a stamp; each follows its observation with freshness exactly the window later |
| `LiveEvidence.ApplyChanges` | scripts/refresh-live-evidence.ts:364-376 | The loop applies the changes one after another, each to the line of its entry, and refuses where one cannot be applied |
| `LiveEvidence.ChangesAreApplied` | scripts/refresh-live-evidence.ts:364-376 | All changes can be applied exactly when every live line has the three values; then nothing else changes, and each line carries the change of the last entry on it |
| `LiveEvidence.EditLineIsExact` | scripts/refresh-live-evidence.ts:364-376 | One line's edit changes only the three values, to those of the change |
| `LiveEvidence.ProduceText` | scripts/refresh-live-evidence.ts:237-378 | A new text is produced exactly when revisions, observations, lines and stamps are all in order, and it equals the old one but for the audited revision and three values on each live line |
| `LiveEvidence.RefreshIsUnique` | scripts/refresh-live-evidence.ts:237-378 | There is only one such text |
| `LiveRefresh.TextsAreSorted` | scripts/refresh-live-evidence.ts:294-295 | The live ids come in ascending order, and all of them come |
| `LiveRefresh.RefreshLiveEvidence` | scripts/refresh-live-evidence.ts:220-405 | From text to text: the result is the one refresh of the registry that is read as a registry meeting the contract, and it is refused exactly when there is none |
| `LiveMeaning.InputExactly` | scripts/refresh-live-evidence.ts:220-295 | A request is understood if and only if its registry is read and has an audited revision and an id for every live entry; the ids come in ascending order, and the revision may advance exactly under the stated conditions |
| `LiveMeaning.LiveEntryExactly` | scripts/refresh-live-evidence.ts:172-195 | A line is live for an id if and only if its text holds `"id": "<id>"` and a match of the type pattern |
| `LiveMeaning.LiveExactly` | scripts/refresh-live-evidence.ts:198-206 | The live evidence is every evidence entry of type live of every claim, in order |
| `LiveMeaning.ObservesExactly` | scripts/refresh-live-evidence.ts:316-340 | An observation counts if and only if its status is 200, a health check has its flag, and its stamp is a readable instant that is not in the future |
| `LiveMeaning.ObservationExactly` | scripts/refresh-live-evidence.ts:312-322 | The observation of an id is the last one of that id |
| `LiveMeaning.SeparatorExactly` | scripts/refresh-live-evidence.ts:147-151 | Between key and value stand one colon and white space, as the standard lists it |
| `LiveMeaning.AuditedAtExactly` | scripts/refresh-live-evidence.ts:360-363 | The audited revision is a full revision under its key |
| `LiveContract.ValidateLive` | packages/contract/src/public-claims.ts:343-432 | Each code is reported for a subject exactly if its rule is broken there; nothing is found exactly when the registry is at a full revision, every live entry is well stamped, not in the future, fresh and at that revision, and no stamp of whole seconds stands for two surfaces |
| `LiveMeaning.LiveRulesExactly` | packages/contract/src/public-claims.ts:343-432 | These rules by stamps, instants and trimmed locators: observed by then, fresh beyond it, at the audited revision, and no whole second shared by two surfaces |
| `RegistryJson.ReadsExactly` | scripts/refresh-live-evidence.ts:225-230 | A text without escapes is read as a value exactly when its tokens are those that write the value |
| `JsonTokens.MarksExactly` | scripts/refresh-live-evidence.ts:225-230 | The tokens between strings are exactly the marks and words the text is laid out as, with white space between them |
| `JsonTokens.LiteralExactly` | scripts/refresh-live-evidence.ts:225-230 | The words that are read as values are true, false, null and the numbers of the grammar of RFC 8259 |
| `JsonTokens.PlainLineExactly` | scripts/refresh-live-evidence.ts:225-230 | A line is read without a reader passed in exactly if its quotes close on it and it has no escape and no control character |
| `RegistryJson.NoNameAfterName` | scripts/refresh-live-evidence.ts:147-162 | In a text that is read, no key stands on a line as the value of a key, so the patterns see keys only |
| `LiveEvidence.AllCarryExactly` | scripts/refresh-live-evidence.ts:364-376 | Every live entry carries its own observation if and only if no line of the registry is live for two ids |
| `LiveWitness.SharedLinePassesExactly` | scripts/refresh-live-evidence.ts:364-396 | With both live entries of a registry on one line, the first gets the second's observation and the second keeps its old values; that passes the contract if and only if the audited revision stays and the old values are still fresh |
| `LiveWitness.SharedLineIsRefreshed` | scripts/refresh-live-evidence.ts:364-396 | A whole registry text refreshed so |
| `LiveWitness.SeparateLinesAreRefreshed` | scripts/refresh-live-evidence.ts:220-405 | On lines of their own both entries get their own observations, and the registry passes |
| `IsoTime.SameInstantExactly` | scripts/refresh-live-evidence.ts:322-332 | Two stamps are read as one instant if and only if their days and hours carry over to one spelling |
| `IsoStamps.ParseExactly` | scripts/refresh-live-evidence.ts:322-332 | A stamp is read if and only if it is the padded numbers of a date and time in range, as the instant of these |
| `IsoStamps.MonthExactly` | scripts/refresh-live-evidence.ts:322-332 | Months follow one another by their lengths, leap years included, on a count of milliseconds |
| `IsoStamps.EpochExactly` | scripts/refresh-live-evidence.ts:322-332 | That count starts with 1970 |
| `LiveEvidence.InstantsAreDistinct` | scripts/refresh-live-evidence.ts:316-355 | No instant is in the future, freshness is the window, and two instants are distinct if and only if their stamps do not carry over to one |
| `LiveWitness.OneInstantIsRefreshed` | scripts/refresh-live-evidence.ts:316-355 | A whole registry text that is refreshed and passes the contract with the end of one day and the start of the next as two observations |
| `EvidenceHolds.ReadHolds` | scripts/public-claims-check.ts:395-426 | Cover is exactly the first, well-formed, already recorded hold of each id; each other hold is reported |
| `EvidenceHolds.AcceptedExactly` | scripts/public-claims-check.ts:342-426 | A hold is accepted exactly if it is the first of its id, of live evidence, with a reason and a name that are not blank, for at most seven days after it was recorded; it is in effect once recorded and expired at its end |
| `EvidenceHolds.SplitIssues` | scripts/public-claims-check.ts:428-449 | Every issue has exactly one disposition in exactly one of the two lists |
| `EvidenceHolds.ApplyEvidenceHolds` | scripts/public-claims-check.ts:379-462 | Outputs are one disposition per issue and the notices about holds; every issue but stale evidence blocks; nothing blocks exactly when all holds are accepted and every issue is stale and covered now |
| `EvidenceHolds.OneHoldInEffect` | scripts/public-claims-check.ts:395-426 | At most one hold of an evidence id is ever accepted |
| `EvidenceHolds.CoverLastsSevenDays` | scripts/public-claims-check.ts:342-449 | One set of holds covers an evidence id during less than seven days |

## Left out

- AuthorityRotation.VerifyAuthorityRotation: the contract speaks of codes; issue subjects, messages and the final sort are not part of it. Extra keys of a JSON tuple are ruled out by its type; the changeset is compared as a multiset.
- LegalRotation.AcceptedExactly: reviewer identities are given normalized, and times and digests parsed.
- AuthorityRotation.CheckImports: finding import specifiers in text and listing what they may mean are functions passed in.
- ProposalGate.VerifyProposal: blob size and byte budgets, object name checks, provider-record, matrix-scope, bootstrap-binding, workflow-safety, specification and claims checks are not modelled; the real gate rejects more, so what is proved of every accepted proposal still holds.
- ProposalGate.VerifyRotation: the same checks are missing, and the observation time is given.
- ProposalGate.ReadAll: reads succeed or not; blob sizes, the total budget and object digests are not modelled.
- RotationTheorems.PinsStayTrue: merges are taken path by path, and rotations as up to date with the branch, as their exact base revision demands.
- RotationTheorems.ProvenanceIsLatestStage: one lookup stands for the gate's and the review authority's, which are the same.
- RotationWitness.AcceptedRotationMisstatesChange: acceptance is that of the modelled gate. The trees hold the matrix, requirement and claim documents the gate reads, all references are listed and the bootstrap flags set, but what these documents say, the provider records, the observation time that a rotation's receipt must match, and the safety of the workflows' texts are outside the model; file names and bytes stand for real ones. The real gate accepts these proposals where those checks pass too.
- RotationWitness.AcceptedRotationLosesPin: likewise.
- ImportWitness.AcceptedMergeLosesClosure: likewise.
- LifecycleReplay.BuiltReportReplays: the requests that fill the report's fields are not modelled, only the checks on their answers; an API origin has at most 20,000 characters, a rate's token 25 and a time stamp 27, which bounds the file. Digest and authentication code are arbitrary functions of the right form.
- LifecycleRules.ReplaysExactly: files are read as compact text; white space, other spellings of one number and repeated keys, which the parser accepts, are outside the model.
- JsonGrammar.ReadExactly: a number is a run of the characters that occur in numbers, and stands for itself.
- ProofPublication.EveryStateHolds: temporaries have names of their own, and removing a temporary succeeds when a run gets that far.
- CanonicalJsonTheorems.PrintIsCanonical: numbers are their printed tokens; undefined array elements, which would collide with null, are not values.
- ReleaseTrain.CheckDependencies: record shapes, ancestry on the main branch, active closure paths, evidence and observation rules of the matrix are single readings and would add only easy members; the review authority's copy of the supersession predicate is this one.
- GitStreams.ReadTree: whether a path is valid UTF-8 is a predicate passed in.
- GitStreams.ShasWithCr: a size that is not all digits ends the scan, as not-a-number does.
- Reachability.ComputeReached: entry collection, module resolution and parsing are given; results of sets are unordered.
- Reachability.UnreachableIsSound: assumes that every use stands in the text under the used name, since import spans are blanked; a file that imports a symbol under another name is outside it.
- Reachability.EvaluateStrictGate: report text and counts are not modelled.
- ObjectStore.StepKeepsInvariant: one backup prefix at a time, with local files that do not change; the recovery receipt and the readiness probe are not modelled.
- ObjectStore.ObjectsStay: storing an object where none is counts as one step, while the transport first looks and then writes; two publishers of one backup id that write one object at the same moment are outside the model.
- ObjectStore.ReturnedPublishersAgree: the same holds here, for the commit object.
- ObjectStore.Destination.Download: a transfer that fails leaves whole files, not partly written ones.
- FileTrees.CopyTarget.CopyTreeCreateOnly: file modes and timestamps are not modelled, and removing a failed copy succeeds.
- FileTrees.DigestIdentifiesFiles: entries come in the order of the tree, which stands for the sorted order of the reading.
- RecoveryProof.Host.RunProductionRecoveryProof: a kill leaves the fence to its lease's expiry, which is not modelled; stores, canaries and objectives are answers of the world; a kill within one step leaves what some answer of the world leaves.
- MutationProof.Workspace.ProveCitation: mutants are given per file by a function and in range, as syntax offsets are; the runner does not write source files, and writing back does not fail.
- MutationProof.Sample: double arithmetic is exact arithmetic with any rounding that is within the relative error of doubles between the least quotient drawn and the length an array may have, and exact on whole numbers up to it.
- ReviewAuthority.JudgeReview: logins are given in lower case and attestations parsed; required checks, merge state and event binding are not modelled.
- LiveRefresh.RefreshLiveEvidence: texts with escapes or with control characters other than line ends are read by a function passed in, which is taken to find no key that is the value of a key there either. The contract's rules on anything but live evidence, and whether a claim's surface is stale, are passed in. Ids hold no quote and are ordered by code point, and the audited revision's key and value stand on one line.
- LiveContract.ValidateLive: rules on other parts of the registry are left out as single readings, and so are messages, the sort of issues and how often one is reported.
- LiveWitness.SharedLinePassesExactly: the registry's other values are fixed; that they meet the other rules of the contract is a premise, and so is that instants are written as stamps that are read as them.
- LiveEvidence.InstantsAreDistinct: writing an instant is a function passed in; reading one is that of Node.js on the shape the gate admits.
- EvidenceHolds.ApplyEvidenceHolds: message texts and the final sort are not modelled.
- Retries of GitHub reads, changed provider records, requirement aggregation and diffing, and the end-of-line attribute parsers: single readings or plain loops over parsed data.
- Command lines, reports, process and filesystem plumbing, symlink and realpath checks: thin wrappers.
