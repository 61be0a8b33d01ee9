# A verified model of restoregap

restoregap gates risky changes on proof that recovery works, and records every decision in a
hash-chained ledger. This project models the parts of it where a small slip would go unnoticed and
proves what they promise:

- **The ledger.** `LedgerEntry`, `LedgerVerify`, `LedgerFile` and `LedgerRepair` model an entry, the
  chain walk with its later anchors, the file operations, and anchoring as a repair procedure;
  `LedgerRecords` reads appends back. `AppendProtocol` interleaves any number of writers step by step
  with process deaths and power cuts.
- **Bundles.** `Lines`, `BundleLines`, `BundleSlice`, `TarNames` and `BundleArchive` model the ledger
  slice, its JSON lines, the archive's members and their names, and verification of the whole; export
  and verification meet in one if-and-only-if. `BundleTamper` says what passing proves of an archive.
- **Ids and overrides.** `Ulid` models the bit packing of ids, `Overrides` and `Engine` the expiry of
  overrides and the verdict they soften.
- **Edit distance.** `EditDistance` proves the table optimal over all edits, and a metric.
- **Diffs and globs.** `Diff` is the line machine, first as a function on what each line says and then
  as the parser object proved equal to it; `DiffTokens`, `DiffStatus` and `DiffHunks` say, of every
  input, what each line, each section and each hunk header comes to; `DiffPrint`, `DiffRoundTrip`,
  `DiffMistaken` and `ParityDiff` print diffs and read them back. `Glob` is the doublestar matcher and
  the ancestor test.
- **Policy.** `PolicyLayers` and `PolicyFiles` merge files that may only tighten, `ProofCheck` decides
  what satisfies a guard, `GuardMatch` which changes it applies to, and `GuardVerdict` what it does to
  them and exactly when a tightening guard never loosens.
- **Metrics.** `Dora`, `DoraOrder`, `DoraLedger` and `DoraReport` pair breaks with recoveries and
  report what never recovered, `Calibrate` proposes budgets in float64 arithmetic (`Floats`); both use
  `Ranks` for medians and percentiles.
- **Small machines.** `TailBuffer` and `JsonKeys`.

`Wrappers`, `Text`, `Sorting`, `Picking` and `Decimal` are shared. `dafny verify dfyconfig.toml` checks it all.

## How it is modelled

An object whose methods update fields is a class, and each method is proved against a function of
the old fields; loops are loops. Hashing, signatures, encodings, `path.Match`, `path.Clean` and the
home directory are parameters, and a lemma states what it assumes of them: a collision-free hash, an
encoding that decodes, literal patterns that match themselves. The disk's answers to a write and an
fsync are arguments of `Append`, and what others write while `Anchor` waits for the lock is one of
`Anchor`. Float64 rounding is any function that keeps order and the numbers that have a
representation, and is off by at most one part in 2^53. Times are integers of nanoseconds.
`sort.Slice` is a method that promises a sorted arrangement and nothing about ties.

## Where the code and its promises differ

The model follows the code. Each point below has a lemma with the exact condition or a concrete input.

- The merge "may never loosen" (docs/SCHEMA.md:189). `tightens` compares some of what that takes:
  `GuardVerdict.NeverLoosensExactly` gives the whole condition. Not compared are `require_verified`
  (`ProofCheck.RequirementsKeptExactly`), the kind, and the match categories beside paths
  (`GuardMatch.CoversByCategory`). Giving paths to a guard that had none always narrows it
  (`GuardMatch.SameMatchersCoverExactly`); a catch-all like `**` keeps it for every change that names a
  path, and loses the others (`CatchAllKeepsNamedPaths`, `CatchAllLosesUnnamedPaths`). A lifeline that
  nothing could pass can be passed once it requires a proof (`GuardVerdict.AddedProofOpensLifeline`).
  Ages are compared in hours but used in nanoseconds that wrap around (`ProofCheck.AgeKeptExactly`,
  `HugeBoundWraps`).
- `Append`'s durability also needs the directory entry on disk. A writer that did not create the file
  skips that sync, so if the creator died the entry can be lost
  (`AppendProtocol.SuccessIsForGoodExactly`, `DirectorySyncCanBeSkipped`).
- An anchor that names an entry without vouching for it blocks that entry's repair for good
  (`LedgerRepair.RepairableExactly`). A second anchor of one entry is to be refused, but two that read
  before either locks both succeed; that does no harm (`LedgerRepair.SecondAnchorExactly`,
  `RaceAnchorsTwice`, `RacedAnchorIsHarmless`).
- A slice cut by time, when times are out of order, can have a hole or drop the anchor that vouches
  for a kept entry, and then the exported bundle fails its own verification
  (`BundleSlice.SliceOkExactly`, `CutCanDropTheAnchor`). Tar names are called collision-resistant, but
  every relative path collides with its rooted twin, and a slash with two underscores
  (`TarNames.RootedTwinCollides`, `WrittenOutCollides`); and export does not check the size limit that
  verification enforces (`BundleArchive.ExportedArchiveExactly`).
- Ids left-align their 128 bits and keep two padding bits, so a foreign text may decode and not
  re-encode to itself (`Ulid.EncodeUndoesDecode`); times wrap at 2^48 milliseconds.
- The ancestor test reads a backslash literally, and it cleans the guard pattern while the matcher
  does not, so a pattern with a doubled slash is judged beneath paths its names do not start with
  (`Glob.AncestorSoundExactly`, `AncestorPathExactly`, `BackslashIsUnsound`, `UncleanPatternIsUnsound`).
- The diff scanner drops a trailing carriage return, so text that ends in one is not kept
  (`DiffRoundTrip.ScanReadsBackExactly`); a removed line starting with two dashes and a space is
  taken for a path line (`DiffPrint.BodyLineReadsBackExactly`); and the header of a file whose path
  holds " b/" is cut in the wrong place, which an added or deleted file does not survive
  (`DiffPrint.HeaderReadsBack`, `DiffRoundTrip.MarkedNameIsMisread`). `DiffMistaken.RoundTripExactly` is
  the whole condition. A plain diff without "diff --git" lines parses to at most one file, however
  many it names (`Diff.FilesOfInput`), and a file without path lines counts as modified
  (`DiffStatus.HeaderAloneIsModified`).
- The pairing of breaks and recoveries behind the MTTR depends on how the unstable sort leaves ties
  exactly when a break and a recovery of one lifeline carry the same time
  (`DoraOrder.OrderIrrelevantExactly`). Without such a tie the MTTR is one (`DoraOrder.OneAnswer`).
- A calibration margin below one proposes budgets that the evidence misses (`Calibrate.MarginExactly`).

## Model

| member | source | states |
|---|---|---|
| `LedgerEntry.DigestNeverGenesis` | internal/ledger/canonical.go:52-59 | no digest hashEntry can print equals the genesis hash, which is three characters shorter than any digest |
| `LedgerEntry.IntactPinned` | internal/ledger/canonical.go:21-59 | with a collision-free hash, two entries whose stored hashes recompute and are equal are one entry |
| `LedgerVerify.ScanChainAnchors` | internal/ledger/verify.go:40-49 | for every id the table holds the last anchor naming it and its position, and nothing for an id no anchor names |
| `LedgerVerify.VerifyEntriesFrom` | internal/ledger/verify.go:80-115 | the walk answers ok exactly when every entry is linked and either recomputes or is vouched for by its governing later anchor; otherwise it stops at the first failing entry with that entry's reason; last hash, counts and anomalies are the declared ones |
| `LedgerVerify.VerifyEntries` | internal/ledger/verify.go:70-72 | the same from genesis |
| `LedgerVerify.VerdictUnique` | internal/ledger/verify.go:80-115 | the declared verdict determines the whole result, so the walk has only one answer to give |
| `LedgerVerify.AcceptedExactly` | internal/ledger/verify.go:80-115 | accepted, spelled out entry by entry: its prev is the hash before it, or genesis, and its hash recomputes or the last later anchor naming its id vouches for the hash it has |
| `LedgerVerify.PristineIsAcceptedWithoutAnomalies` | internal/ledger/verify.go:80-115 | a linked chain whose hashes all recompute is accepted and reports no anomaly |
| `LedgerVerify.LastHashPinsHistory` | internal/ledger/verify.go:80-115 | with a collision-free hash that avoids genesis, two anomaly-free chains from genesis with one last hash are the same entries, whatever their lengths |
| `LedgerVerify.PristineNoRepeats` | internal/ledger/verify.go:80-115 | an anomaly-free chain from genesis never holds an entry twice |
| `LedgerVerify.SuffixAccepted` | internal/ledger/verify.go:74-115 | every suffix of an accepted ledger is accepted when seeded with its own first prev, though anchors shift and the last one governs |
| `LedgerVerify.SuffixAnomalies` | internal/ledger/verify.go:74-115 | the suffix's anomalies are the ledger's anomalies that fall in its range, in order |
| `LedgerFile.File.LastHashLocked` | internal/ledger/ledger.go:208-233 | the hash of the last line that holds a record, genesis for a file without one, an error for a malformed line; blank lines are skipped |
| `LedgerFile.File.ReadAll` | internal/ledger/ledger.go:237-265 | the records of exactly the lines that hold one, in file order, or an error when any line is malformed |
| `LedgerFile.File.Append` | internal/ledger/ledger.go:90-177 | on success the file is the old one and one line more, which is synced and holds the returned entry: schema 2, the request's id, time, type, actor, payload and stamps, the last hash before it, and a hash that recomputes; every refusal before the write leaves the file unchanged; a failed fsync reports failure although the line is there |
| `LedgerFile.RecordsExactly` | internal/ledger/ledger.go:237-265 | the records of a file are those of the lines that hold one, each once and in order |
| `LedgerFile.LastHashExactly` | internal/ledger/ledger.go:208-233 | the last hash is that of the last such line, genesis if there is none |
| `LedgerRecords.AppendAll` | internal/ledger/ledger.go:90-177 | after any number of successful appends a read gives what was there before and then the requests back, each field by field in its own entry, in order |
| `LedgerRecords.AppendedOverrideCovers` | internal/ledger/override.go:75-121 | an appended override covers its finding exactly until its expiry, 30 days from the append if it has none, and changes nothing for other findings |
| `LedgerRecords.AppendedOverrideGoverns` | internal/ledger/override.go:75-111 | and until then the active override of that finding has its approver and its reason |
| `LedgerFile.File.Anchor` | internal/ledger/anchor.go:23-68 | each answer holds for its own reason, others' lines appended between the read and the lock included: success when a reason and approver are given, the entry read exists, no anchor read names it, its hash recomputes to something else, and the new entry encodes and reaches the disk after those lines; it names the first entry of that id with both hashes; refusals before the write change nothing |
| `LedgerFile.AnchorOutcomeUnique` | internal/ledger/anchor.go:23-68 | those reasons exclude each other, a hash that cannot be recomputed and each way the append can fail among them, so every one is exact |
| `LedgerFile.AnchorSucceedsExactly` | internal/ledger/anchor.go:23-68 | an anchor succeeds if and only if there is something to anchor in what it read, the lines are readable when it appends, and the disk takes it |
| `LedgerFile.AnchorSays` | internal/ledger/anchor.go:23-68 | the anchor entry names the first entry read with the id, with its stored and its recomputed hash, which differ, and carries the call's time, actor, reason and approver |
| `LedgerRepair.NoneUnvouchedIsAccepted` | internal/ledger/verify.go:80-115 | a ledger with unique ids and intact links verifies if and only if no mismatch is unvouched |
| `LedgerRepair.RepairLowersByOne` | internal/ledger/anchor.go:23-68 | a successful anchor keeps such a ledger such and lowers the number of unvouched mismatches by exactly one |
| `LedgerRepair.RacedAnchorIsHarmless` | internal/ledger/anchor.go:23-68 | an anchor that raced others keeps a sound ledger sound and an accepted one accepted, and takes exactly its target from the unvouched mismatches, if it is still there |
| `LedgerRepair.SecondAnchorExactly` | internal/ledger/anchor.go:50-54 | it is the second anchor of its entry if and only if another one was appended after it read |
| `LedgerRepair.RaceAnchorsTwice` | internal/ledger/anchor.go:50-54 | two anchors of one entry that read alike both succeed, against the refusal of a second one |
| `LedgerRepair.AcceptedIsRefused` | internal/ledger/anchor.go:40-66 | no anchor can succeed on a ledger that already verifies |
| `LedgerRepair.CanRepair` | internal/ledger/anchor.go:23-68 | an unvouched mismatch that no anchor names is anchored by every call that gives a reason and an approver and whose own entry encodes |
| `LedgerRepair.ConvergesWhenNoneStuck` | internal/ledger/anchor.go:23-68 | when no mismatch is named by a failing anchor, as many anchors as there are unvouched mismatches make the ledger verify |
| `LedgerRepair.RepairableExactly` | internal/ledger/anchor.go:40-50 | some run of anchors makes the ledger verify if and only if no unvouched mismatch is already named by an anchor: such an entry is refused as already anchored for ever |
| `LedgerRepair.EachSuccessCounts` | internal/ledger/anchor.go:23-68 | k successes in any order leave exactly k fewer unvouched mismatches |
| `LedgerRepair.RepairedLedgerVerifies` | internal/ledger/verify.go:80-115 | a run of repairs ends in acceptance exactly when its length is the initial number of unvouched mismatches, and the anomalies are the initially mismatched ids in file order |
| `AppendProtocol.RunKeepsInv` | internal/ledger/ledger.go:90-177 | every state of every interleaving of n writers, deaths and power cuts keeps the chain pristine and each lock holder's view of the file right |
| `AppendProtocol.EveryReachableFileVerifies` | internal/ledger/ledger.go:79-177 | every file that can ever be read is accepted by VerifyEntries with no anomalies |
| `AppendProtocol.MutualExclusion` | internal/ledger/ledger.go:104-130 | at most one writer is between lock and unlock |
| `AppendProtocol.EveryEntryWasAskedFor` | internal/ledger/ledger.go:90-177 | in every state of every interleaving, each entry in the file and each one returned carries, field by field, a request that some writer made |
| `AppendProtocol.SuccessIsPresentExactlyOnce` | internal/ledger/ledger.go:81-90 | in any run, a returned entry is in the file exactly once in every state from its return up to any later step if and only if no power cut in between loses the file's name |
| `AppendProtocol.RunKeepsDurable` | internal/ledger/ledger.go:81-90 | while the name is kept, everything returned is synced, no two successes return one entry, and none returned is still in a writer's hands |
| `AppendProtocol.ForGoodExactly` | internal/ledger/ledger.go:81-90 | in every state a run can reach, a synced entry is in the file exactly once at the end of every continuation if and only if the directory entry is on disk too |
| `AppendProtocol.SuccessIsForGoodExactly` | internal/ledger/ledger.go:81-90 | so a success is for good, whatever crashes follow, if and only if the directory entry is on disk when Append returns |
| `AppendProtocol.DirectorySyncSettles` | internal/ledger/ledger.go:168-176 | one successful directory sync by a writer that created the file makes every later success of any writer be for good |
| `AppendProtocol.DirectorySyncCanBeSkipped` | internal/ledger/ledger.go:96-102 | a run in which the creating writer dies, the next writer finds the file and so never syncs the directory, and its returned entry is lost |
| `BundleLines.LedgerJSONL` | internal/bundle/export.go:239-250 | one encoded entry a line, or failure exactly when some entry cannot be encoded |
| `Lines.SplitLines` | internal/bundle/verify.go:212-225 | the pieces hold no newline and joining them with newlines gives the data back; a last piece without newline counts unless empty |
| `Lines.SplitUnique` | internal/bundle/verify.go:212-225 | there is only one such cut |
| `BundleLines.ParseLedgerJSONL` | internal/bundle/verify.go:197-210 | all nonempty lines decoded in order, or failure when one does not decode |
| `BundleLines.SaysExactly` | internal/bundle/verify.go:197-210 | a slice is unreadable if and only if one of its nonempty lines does not decode; otherwise it says the entries of its nonempty lines, in order |
| `BundleLines.JsonlRoundTrip` | internal/bundle/verify.go:197-225 | printing a ledger slice and reading the text back gives exactly the slice |
| `BundleSlice.BuildLedgerSlice` | internal/bundle/export.go:210-237 | the entries at exactly the ascending positions whose entry was created at or after the cutoff; all of them when no window is given |
| `BundleSlice.SliceExactly` | internal/bundle/export.go:210-237 | those positions decide the slice: there is one such list of entries |
| `BundleSlice.NoWindowKeepsAll` | internal/bundle/export.go:218-226 | without a window it is the ledger |
| `BundleSlice.KeptIsSuffix` | internal/bundle/export.go:210-226 | with nondecreasing times the slice is a suffix of the ledger |
| `BundleSlice.SliceOfOrderedLedgerOk` | internal/bundle/export.go:210-237 | the slice of an accepted ledger with nondecreasing times re-verifies from its own first prev |
| `BundleSlice.SliceOkExactly` | internal/bundle/export.go:218-226 | the slice of any accepted ledger, anchored anomalies and all, re-verifies if and only if entries that become neighbours are linked by hash and every kept mismatched entry keeps its vouching anchor as the last one that names it |
| `BundleSlice.SeamsMeetExactly` | internal/bundle/export.go:218-226 | with hashes that differ, neighbours are linked if and only if no entry older than the cutoff lies between two kept ones |
| `BundleSlice.PristineSliceOkExactly` | internal/bundle/export.go:218-226 | so the slice of an anomaly-free ledger re-verifies if and only if the cut leaves no hole |
| `BundleSlice.CutCanDropTheAnchor` | internal/bundle/export.go:218-226 | an accepted ledger of two entries whose cut leaves no hole, drops the anchor and is refused |
| `BundleArchive.ReadTarGz` | internal/bundle/verify.go:248-282 | the last member of each name, or failure exactly when the sizes sum past the limit |
| `BundleArchive.UnpackedExactly` | internal/bundle/verify.go:248-282 | a name is read as some bytes if and only if they are those of the last member of that name |
| `BundleArchive.TotalSizeAdds` | internal/bundle/verify.go:248-282 | the size that is limited is the sum of all members' lengths |
| `BundleArchive.VerifySignature` | internal/bundle/verify.go:124-150 | passes exactly a well-formed signature of the manifest by the embedded key, which is the expected key when one is given; an unusable expected key is an error of its own |
| `BundleArchive.VerifyContentDigests` | internal/bundle/verify.go:157-172 | passes exactly when every listed context file and the slice are present with their digests |
| `BundleArchive.DecodeAndVerifyLedgerSlice` | internal/bundle/verify.go:182-195 | succeeds exactly when the bytes decode to entries that verify from their own first prev, and returns them |
| `BundleArchive.VerifyArchive` | internal/bundle/verify.go:80-122 | an archive passes with a manifest if and only if size, signature, manifest, digests, chain and entry count all hold; each of the seven reasons to reject holds for its own condition |
| `BundleArchive.OutcomeUnique` | internal/bundle/verify.go:80-122 | one archive has one outcome, so each of those conditions is exact |
| `BundleTamper.PassesExactly` | internal/bundle/verify.go:80-122 | an archive passes if and only if, member by member: its sizes are in the limit; its last manifest.json is signed by its last manifest.sig, with a 32-byte key and a 64-byte signature, the key being the expected one if one is given; each listed file is there with its digest; and the slice has its digest, its number of entries and a chain that holds from its own start |
| `BundleTamper.OneManifestOneContent` | internal/bundle/verify.go:157-195 | with a collision-free digest, two archives that pass with one manifest hold the same bytes in every listed file and in the slice |
| `BundleTamper.ChangeIsRejected` | internal/bundle/verify.go:157-172 | so of an archive that passes, any other that keeps manifest and signature and differs in a listed file or in the slice is rejected, for its digest |
| `BundleTamper.OnlySignedPasses` | internal/bundle/verify.go:124-150 | and under an expected key nothing passes but what carries a manifest that the key's holder signed |
| `BundleArchive.LoadContextFiles` | internal/bundle/export.go:124-138 | one reference a context file, named by its tar-safe name and its digest |
| `BundleArchive.WriteMembers` | internal/bundle/export.go:261-276 | the member map: later context files overwrite earlier ones of the same name, and the slice is written last |
| `BundleArchive.Export` | internal/bundle/export.go:51-118 | refuses without a signer or context files; otherwise some encoding fails, or, encodings being such that they decode, the slice member reads back as exactly the entries the window asks for, and the signed manifest lists every file by name and digest, and the slice by name, digest, number of entries and the hash its chain begins from |
| `BundleArchive.ExportedSliceExactly` | internal/bundle/export.go:51-118 | whatever reads the exported slice gets exactly those entries, and no other list of entries is read from it |
| `BundleArchive.ContextNamesAreApart` | internal/bundle/export.go:145-147 | no context member name collides with the manifest, signature or slice |
| `TarNames.RootedTwinCollides` | internal/bundle/export.go:140-147 | every relative path shares its member name with the same path from the root, against the comment's collision-resistant |
| `TarNames.WrittenOutCollides` | internal/bundle/export.go:140-147 | and a slash anywhere in a path meets two underscores in the same place |
| `TarNames.PlainPathsApart` | internal/bundle/export.go:140-147 | two relative paths without doubled underscores or an underscore beside a slash share a member name if and only if they clean to one path |
| `BundleArchive.UnpackUndoesPack` | internal/bundle/export.go:282-309 | reading an archive of the members, in whatever order the map was walked, gives the member map back |
| `BundleArchive.ExportedArchiveExactly` | internal/bundle/verify.go:80-122 | an exported archive passes verification if and only if it fits the size limit, files sharing a member name have one content, and its slice re-verifies |
| `BundleArchive.ExportedLedgerExactly` | internal/bundle/verify.go:80-122 | a bundle of any accepted ledger passes if and only if it fits the size limit, files sharing a member name have one content, and the cut keeps links and anchors |
| `BundleArchive.OrderedLedgerExportVerifies` | internal/bundle/verify.go:80-122 | hence a bundle of an accepted ledger with nondecreasing times, whose context files are listed by plain relative paths, passes within the size limit |
| `EditDistance.Levenshtein` | internal/cli/explain.go:322-346 | the table's last cell is the edit distance: some list of single insertions, deletions and replacements that long turns a into b, and no shorter one does |
| `EditDistance.DistIsCheapestScript` | internal/cli/explain.go:322-346 | the recurrence is the least cost over all aligned keep, substitute, delete and insert scripts, and a script of that cost exists |
| `EditDistance.DistIsEditDistance` | internal/cli/explain.go:322-346 | the recurrence equals the declared distance over free-position single-character edits |
| `EditDistance.EditDistanceUnique` | internal/cli/explain.go:322-346 | at most one number is that distance |
| `EditDistance.DistZero` | internal/cli/explain.go:322-346 | zero exactly on equal strings |
| `EditDistance.DistSymmetric` | internal/cli/explain.go:322-346 | symmetric |
| `EditDistance.DistTriangle` | internal/cli/explain.go:322-346 | triangle inequality |
| `EditDistance.DistBounds` | internal/cli/explain.go:322-346 | between the length difference and the longer length |
| `EditDistance.ClosestIDs` | internal/cli/explain.go:295-318 | the first max candidates in (distance, id) order, without loss or invention: no omitted candidate precedes a kept one |
| `EditDistance.ClosestUnique` | internal/cli/explain.go:295-318 | that answer is one list, however the sort breaks ties |
| `EditDistance.ClosestMeans` | internal/cli/explain.go:295-318 | as many as asked for or all: in ascending distance, equal ones in the lexicographic order of ids, and no omitted one before a kept one |
| `Diff.ParseDiff` | internal/intent/diff.go:176-205 | the parse of the scanned lines by the line machine, or failure |
| `Diff.ParseUnique` | internal/intent/diff.go:176-205 | a text parses to exactly one outcome |
| `Diff.DiffParser.FlushHunk` | internal/intent/diff.go:84-89 | the open hunk moves to the end of the open file's hunks |
| `Diff.DiffParser.FlushFile` | internal/intent/diff.go:91-97 | the open file, with its hunk, moves to the end of the files |
| `Diff.DiffParser.EnsureFile` | internal/intent/diff.go:101-105 | a file is open afterwards; an open one is kept |
| `Diff.DiffParser.HandleOldPath` | internal/intent/diff.go:107-115 | the old path is set, or the status becomes added for the null device |
| `Diff.DiffParser.HandleNewPath` | internal/intent/diff.go:117-130 | the new path is set, or the status becomes deleted; two different names make a rename unless the status is already settled |
| `Diff.DiffParser.HandleHunkHeader` | internal/intent/diff.go:132-144 | the open hunk is flushed and a new one opened at its two starts; a malformed header or one outside any file fails |
| `Diff.DiffParser.HandleBodyLine` | internal/intent/diff.go:148-173 | a line inside a hunk is recorded with the right number and counters; outside a hunk or with another first character nothing changes |
| `Diff.DiffParser.HandleLine` | internal/intent/diff.go:178-199 | each line takes the step its prefix calls for |
| `Diff.HandleLines` | internal/intent/diff.go:181-199 | the loop performs one step a line and fails at the first failing one |
| `Diff.EveryHunkIsNumbered` | internal/intent/diff.go:132-173 | for every input: each hunk's Added and Removed are its line counts, and each line number is the hunk's start plus the earlier lines on that side, in 64-bit arithmetic |
| `Diff.WrapIsIdentityInRange` | internal/intent/diff.go:148-173 | which is the plain sum exactly when it fits an int64 |
| `Diff.FilesOfInput` | internal/intent/diff.go:176-205 | for every input: one file a "diff --git" line, and one more when a path line comes first, so a plain diff of many files parses to at most one |
| `Diff.ToChangeIntents` | internal/intent/diff.go:296-309 | one intent a file in order: a deletion deletes the old name, a rename moves the old name to the new one, all else modifies the new name |
| `DiffStatus.EveryFileIsItsSection` | internal/intent/diff.go:176-205 | for every input: the file of the k-th section has the names and the status that the header and path lines of that section give, and nothing else |
| `DiffStatus.StatusExactly` | internal/intent/diff.go:107-130 | a section's file is deleted or added as its last null-device line says; without one it is renamed if and only if some +++ line left it with two different names |
| `DiffStatus.NamesExactly` | internal/intent/diff.go:107-130 | a section's old name is what its last --- line that is not the null device says, without one what its header says, and without that empty; likewise the new name of its +++ lines and the header's second name |
| `DiffStatus.EveryIntentExactly` | internal/intent/diff.go:296-309 | for every input: a section is reported as the deletion of its old name if and only if its last null-device line is a +++ line, as the move of its old name to its new one if and only if it has none and some +++ line left it with two names, and otherwise as the modification of its new name |
| `DiffStatus.HeaderAloneIsModified` | internal/intent/diff.go:296-309 | so a section without path lines, as a pure rename or the deletion of an empty file leaves, is reported as the modification of its header's second name |
| `DiffHunks.ParseFailsExactly` | internal/intent/diff.go:132-144 | for every input: a diff does not parse if and only if some hunk header is malformed or has no section header or path line before it |
| `DiffHunks.EveryHunkIsItsLines` | internal/intent/diff.go:132-199 | for every input: each hunk header gives the next hunk of its section's file, with the ranges it says, and the hunk's lines are exactly the body lines up to the next hunk header or section, in order, with their kinds and texts, whatever path lines and notes stand between |
| `DiffHunks.EveryHeaderIsAHunk` | internal/intent/diff.go:132-199 | and a file has no other hunks |
| `DiffTokens.SaysExactly` | internal/intent/diff.go:148-173 | a line is a body line of a kind and a text if and only if it has none of the four prefixes and is the kind's sign followed by the text, or is empty, an empty context line |
| `DiffTokens.SaysNothingExactly` | internal/intent/diff.go:148-173 | and says nothing if and only if it has no prefix, is not empty and begins with no sign |
| `DiffTokens.PathTokensExactly` | internal/intent/diff.go:107-130 | a line names a path on either side if and only if it is the prefix and, between spaces, the path with an a/ or b/ before it, or without one |
| `DiffTokens.HeaderExactly` | internal/intent/diff.go:216-226 | a section header names two paths if and only if what follows its prefix, cut at the first " b/", is the one, with or without an a/, and the other; without one both are empty |
| `DiffTokens.HunkExactly` | internal/intent/diff.go:229-268 | a line is a well-formed hunk header if and only if between its prefix and the first " @@" stand two fields: a minus and a plus, each with a start within 64 bits and, after a comma, a count, which is one without it |
| `DiffPrint.BodyLineReadsBackExactly` | internal/intent/diff.go:148-173 | a printed body line is read back as itself if and only if it is not a removed line starting with two dashes and a space or an added one starting with two pluses and a space |
| `DiffPrint.HunkHeaderReadsBack` | internal/intent/diff.go:229-268 | a printed hunk header, with counts of one left out, parses to its ranges |
| `DiffPrint.PathReadsBack` | internal/intent/diff.go:207-214 | a path line with its side prefix yields the path without its trailing space |
| `DiffPrint.HeaderReadsBack` | internal/intent/diff.go:216-226 | a header yields both paths if and only if the first one holds no " b/", and otherwise gets both wrong |
| `DiffPrint.RunHunk` | internal/intent/diff.go:132-173 | the lines of a hunk leave the machine holding exactly that hunk |
| `DiffPrint.RunReading` | internal/intent/diff.go:178-203 | the lines of one file add exactly the file that its header, path lines and hunks say |
| `DiffRoundTrip.ScanReadsBackExactly` | internal/intent/diff.go:176-182 | the scanner gives printed lines back if and only if none holds a newline or ends in a carriage return |
| `DiffRoundTrip.NamesKeptExactly` | internal/intent/diff.go:107-130 | the header and path lines give a printed file's names and status back if and only if: a side that names it has no trailing space and is not the null device, an added or deleted file's old path holds no " b/", and two different nonempty names go with a rename |
| `DiffRoundTrip.MarkedNameIsMisread` | internal/intent/diff.go:216-226 | an added file whose old path holds " b/" is read under the part before it |
| `DiffRoundTrip.RoundTrip` | internal/intent/diff.go:176-205 | numbered file diffs with no mistakable line, printed with any extended header lines, parse to exactly those files under the names and status their headers give |
| `DiffMistaken.ParseRecordsClearLines` | internal/intent/diff.go:148-173 | however its lines are mistaken, a printed diff parses, and what is recorded is at most the lines that cannot be mistaken |
| `DiffMistaken.RoundTripExactly` | internal/intent/diff.go:176-205 | printed file diffs parse back to themselves if and only if no body line can be mistaken for a path line, every hunk is numbered as parsed ones are, and the header and path lines give each file's names and status |
| `DiffMistaken.PrintedIntents` | internal/intent/diff.go:296-309 | where that holds, each printed file is read as the one intent that its status and names call for |
| `DiffMistaken.PrintedRenameMoves` | internal/intent/diff.go:296-309 | so a printed rename whose names are kept is read as the one move from its old name to its new one |
| `ParityDiff.ParityParses` | internal/cli/parity.go:138-148 | the rehearsal's diff of a one-line target parses to one deleted file with one hunk |
| `ParityDiff.ParityDeletesExactly` | internal/cli/parity.go:138-148 | it yields exactly one delete intent on the target if and only if the target is one line without trailing space (the null device aside) |
| `ParityDiff.ParsedPathsAreOneLine` | internal/intent/diff.go:176-226 | for every input: no parsed path spans lines |
| `Ulid.ReadBits` | internal/ledger/ulid.go:78-91 | the n bits from a position, zeros past the end |
| `Ulid.WriteBits` | internal/ledger/ulid.go:93-105 | sets exactly the value's bits that fall inside, and keeps every other bit |
| `Ulid.SymbolsSpellTheAlphabet` | internal/ledger/ulid.go:14-18 | the symbols are Crockford's 32 in order |
| `Ulid.ReverseAlphabet` | internal/ledger/ulid.go:62-66 | the reverse table holds exactly the 32 symbols with their values |
| `Ulid.EncodeCrockford` | internal/ledger/ulid.go:49-58 | 26 symbols, each the next five bits of the data from the left |
| `Ulid.DecodeCrockford` | internal/ledger/ulid.go:62-76 | succeeds exactly on symbols, names the first other character, and returns the 128 bits the text spells |
| `Ulid.DecodeUndoesEncode` | internal/ledger/ulid.go:49-76 | decoding an encoding gives exactly the 16 bytes |
| `Ulid.EncodeUndoesDecode` | internal/ledger/ulid.go:49-76 | re-encoding a decoded text of any length gives the text back if and only if it has 26 symbols and the last one's two padding bits are zero |
| `Ulid.TextOrderIsByteOrder` | internal/ledger/ulid.go:22-58 | string order of two ids is byte order of their data |
| `Ulid.NewULID` | internal/ledger/ulid.go:22-39 | needs a time not before 1970 and ten random bytes, and encodes six time bytes followed by them |
| `Ulid.DecodeTime` | internal/ledger/ulid.go:108-119 | succeeds exactly on 26 symbols and returns the first 48 bits |
| `Ulid.DecodeTimeOfNewULID` | internal/ledger/ulid.go:22-39 | the time read back is the milliseconds modulo 2^48, hence the milliseconds themselves if and only if they are below 2^48 |
| `Ulid.IdsSortByTime` | internal/ledger/ulid.go:22-39 | an id made at an earlier millisecond sorts before one made later, whatever the random bytes |
| `Overrides.NewOverridePayload` | internal/ledger/override.go:42-66 | accepts exactly nonblank finding, approver and reason with a window of zero to 90 days; zero means 30 days; the expiry is now plus the window |
| `Overrides.ActiveOverrideStates` | internal/ledger/override.go:89-111 | exactly the last unexpired override of each finding, in entry-id order |
| `Overrides.ActiveOverrides` | internal/ledger/override.go:75-84 | the same, as engine overrides |
| `Overrides.CoveredExactly` | internal/ledger/override.go:75-111 | a finding is covered if and only if some unexpired override entry names it |
| `Overrides.ActiveMeans` | internal/ledger/override.go:75-111 | the active overrides are those of the last unexpired entry of each finding, each with the finding, approver and reason its entry records, in lexicographic order of entry ids |
| `Overrides.ExitAfterOverrides` | internal/ledger/override.go:75-121 | from the ledger to the exit: the process fails exactly when a finding that blocks, or one that warns where warnings fail, has no unexpired override on file |
| `Overrides.ActiveShrinks` | internal/ledger/override.go:89-121 | an override active later was active at every earlier time |
| `Overrides.NewPayloadLapses` | internal/ledger/override.go:42-66 | no override built at t applies from t plus 90 days on |
| `Overrides.NothingOutlivesItsWindow` | internal/ledger/override.go:75-121 | no override is left once every entry's window has passed: 30 days from creation without an expiry of its own, 90 days with one |
| `Overrides.WindowExactly` | internal/ledger/override.go:113-121 | an entry without an expiry applies for exactly 30 days from its creation, and one built at its creation never past 90 |
| `Overrides.VerdictOnlyTightens` | internal/ledger/override.go:75-111 | over one ledger and one set of findings the overall verdict never gets less strict as time passes and never exceeds the verdict without overrides |
| `Engine.Overall` | internal/engine/overall.go:9-23 | the worst verdict among the findings, pass for none |
| `Engine.WorstUnique` | internal/engine/overall.go:9-23 | there is one worst verdict |
| `Engine.WorstIsMonotone` | internal/engine/overall.go:9-23 | findings weakened one by one never make it stricter |
| `Engine.ExitCodeMonotone` | internal/engine/overall.go:28-40 | a stricter verdict never exits more gently, and fail-on-warn never softens an exit |
| `Engine.ExitCodeExactly` | internal/engine/overall.go:28-40 | one exactly for a block, or a warning where warnings fail, and zero otherwise |
| `Engine.ExitExactly` | internal/engine/overall.go:9-40 | so of a run, one exactly when some finding blocks, or warns where warnings fail |
| `Engine.ApplyOverrides` | internal/engine/finding.go:37-59 | a non-passing finding named by overrides becomes a pass carrying the last of them; every other finding is unchanged |
| `Engine.AppliedIsWeaker` | internal/engine/finding.go:37-59 | overriding never makes the overall verdict stricter |
| `PolicyLayers.SupersetStrings` | internal/policy/layers.go:196-207 | holds exactly when every existing string is in the candidate |
| `PolicyLayers.TightensReflexive` | internal/policy/layers.go:148-165 | every guard tightens itself |
| `PolicyLayers.TightensTransitive` | internal/policy/layers.go:148-165 | tightening is transitive |
| `PolicyLayers.TightensBothWays` | internal/policy/layers.go:148-165 | two guards that tighten each other agree in every compared dimension |
| `PolicyLayers.LoosensExactly` | internal/policy/layers.go:144-191 | a later guard is refused if and only if it gives up the binding, blocking, a proof, a fact, a path, or freshness that the earlier one has |
| `PolicyLayers.UnionStrings` | internal/policy/layers.go:130-142 | the existing strings followed by the new ones, none twice: the concatenation with every repetition dropped |
| `PolicyLayers.DistinctAppend` | internal/policy/layers.go:130-142 | dropping repetitions file by file is dropping them once at the end |
| `PolicyLayers.MergeState.MergeGuard` | internal/policy/layers.go:109-128 | one declaration is added, replaces the guard of its id when it tightens it, or becomes a finding; the index stays right |
| `PolicyLayers.MergeState.MergeGuards` | internal/policy/layers.go:109-128 | one file's declarations in order, and the union of the commands |
| `PolicyFiles.Merge` | internal/policy/layers.go:47-77 | no paths is an error, one file is taken as it is; of more, over the files' own guards: the ids are exactly the declared ones, each once; each guard is the last one taken of its id, with its effective scope; a guard is taken if and only if it tightens every taken one of its id before it; each other one is a finding with its id and file, in order; and the commands are those of all files, each once |
| `PolicyFiles.TakenUnique` | internal/policy/layers.go:109-128 | the files decide which guards are taken |
| `PolicyFiles.DeclAt` | internal/policy/layers.go:109-128 | guard by guard and file by file, every guard of every file is declared to the merge, in that order |
| `PolicyFiles.MergeMeans` | internal/policy/layers.go:47-128 | what the fold over those declarations comes to, as the merge states it |
| `PolicyLayers.AfterConsistent` | internal/policy/layers.go:79-128 | after any number of declarations ids are distinct and the index points each id at its slot |
| `PolicyLayers.ConsistentIsDistinct` | internal/policy/layers.go:79-128 | so two slots never share an id |
| `PolicyLayers.LaterIsStricter` | internal/policy/layers.go:109-128 | every later state's guard in a slot has the same id and tightens the earlier one |
| `PolicyLayers.AddingAFileTightens` | internal/policy/layers.go:56-76 | a file added at the end yields guards that tighten the old ones id by id |
| `PolicyLayers.FinalTightensAccepted` | internal/policy/layers.go:109-128 | the final guard of an id tightens its first declaration and every accepted one |
| `PolicyLayers.FinalIsDeclared` | internal/policy/layers.go:109-128 | and is itself one of the accepted declarations |
| `PolicyLayers.DeclarationsAddUp` | internal/policy/layers.go:109-128 | declarations equal distinct ids plus replacements plus findings |
| `PolicyLayers.IdsAreTheDeclaredOnes` | internal/policy/layers.go:109-128 | the merged ids are exactly the declared ones |
| `PolicyLayers.RefusedByHistory` | internal/policy/layers.go:109-128 | a declaration becomes a finding if and only if it fails to tighten some accepted declaration of its id before it, though it is compared with the current guard alone |
| `PolicyLayers.PathsKeptExactly` | internal/rules/rules.go:112-114 | for any one path matcher: a tightening guard still matches every path the old one matched if and only if the old one had patterns, the new one has none, or the new patterns match every path |
| `ProofCheck.OutcomesExactly` | internal/contextspec/proofcheck.go:69-175 | unreachable, missing and contradicted each hold exactly for their own reasons, in the order the checks are made |
| `ProofCheck.ProofExactly` | internal/contextspec/proofcheck.go:69-175 | a proof is present if and only if the first record of its id counts: neither unreachable, disputed nor marked stale; signed well if signed; not past its expiry; unbound where the guard allows it, or bound with the recipe and the very dependencies of the first declared drill; verified where the guard demands it; and no older than the bound in 64-bit nanoseconds |
| `ProofCheck.FactExactly` | internal/contextspec/proofcheck.go:205-214 | a fact on record is present if and only if it is not past the expiry of its first record, and is stale otherwise |
| `ProofCheck.FactMissingExactly` | internal/contextspec/proofcheck.go:205-214 | and missing if and only if it is not on record |
| `ProofCheck.TimeOnlyMakesStale` | internal/contextspec/proofcheck.go:69-175 | time alone only ever makes a proof stale, and a stale one stays stale |
| `ProofCheck.PresentIsMonotoneInTime` | internal/contextspec/proofcheck.go:69-175 | a proof present at a later time is present at every earlier one: a lapse never reverses without a new record |
| `ProofCheck.SatisfiedIsMonotoneInTime` | internal/contextspec/proofcheck.go:69-214 | the same for all proofs and facts of a guard |
| `ProofCheck.AgeKeptExactly` | internal/contextspec/proofcheck.go:156-175 | one age bound refuses everything another refuses if and only if it is at most the other in the 64-bit nanoseconds that are compared |
| `ProofCheck.AgesInRangeKept` | internal/policy/layers.go:167-181 | up to the largest number of hours a duration holds, that is the order of the declared hours |
| `ProofCheck.StricterIsHarderToSatisfy` | internal/policy/layers.go:144-191 | whatever has the tightening guard's required proofs and facts has those of the guard it replaced, when require_verified and the age bound as compared are kept |
| `ProofCheck.RequirementsKeptExactly` | internal/policy/layers.go:148-165 | whatever has the tightening guard's required proofs and facts has the old guard's if and only if no proof was required, or require_verified is not dropped and the age bound is at most the old one as compared |
| `ProofCheck.HugeBoundWraps` | internal/contextspec/proofcheck.go:156-175 | past the largest representable age a longer bound makes a minute-old proof stale, while five hours does not |
| `GuardMatch.GuardMatches` | internal/rules/rules.go:98-150 | a guard applies exactly when it fills some category and every one it fills matches, an empty command or actor matching none; the label is the first nonempty path, command or package matched, or what the change is about |
| `GuardMatch.AppliesExactly` | internal/rules/rules.go:98-179 | over the guard's own lists: some category is filled; if paths are, one matches a path, or a deleted or moved path holds one; if commands are, there is a command and one matches; likewise packages, actors and, by equality, actions and windows |
| `GuardMatch.LabelExactly` | internal/rules/rules.go:98-150 | the label is the first path that matches, without paths the command, without those the first package that matches, and without any what the change names first |
| `GuardMatch.MatchGuardPaths` | internal/rules/rules.go:152-179 | the first path that matches or, when the action destroys directories, the first one that holds what a pattern guards; none exactly when neither is the case |
| `GuardMatch.CoversByCategory` | internal/rules/rules.go:98-150 | a guard applies wherever another does if and only if it fills some category and does so category by category |
| `GuardMatch.WindowsKeptExactly` | internal/rules/rules.go:129-131 | a later context-window list keeps every window if and only if it is dropped, or there was one and it was extended |
| `GuardMatch.SameMatchersCoverExactly` | internal/rules/rules.go:112-114 | with the other categories left alone, a tightening guard applies wherever the old one did if and only if it does not give patterns to a guard that had none |
| `GuardMatch.EveryPathExactly` | internal/globmatch/globmatch.go:170-190 | nonempty patterns match every path there is if and only if one of them consists of ** segments only |
| `Glob.DoublestarIsCatchAll` | internal/globmatch/globmatch.go:170-190 | the pattern ** is one of them, whatever the home directory |
| `GuardMatch.PathsKeptByGlobExactly` | internal/rules/rules.go:112-114 | so a tightening guard still matches every path the old one matched if and only if the old one had patterns, the new one has none, or one of the new ones is such a catch-all |
| `GuardMatch.CatchAllKeepsNamedPaths` | internal/rules/rules.go:112-114 | a guard given a catch-all and nothing else still applies to every change that names a path and to which it applied |
| `GuardMatch.CatchAllLosesUnnamedPaths` | internal/rules/rules.go:112-114 | but no longer to a change that names none, as a command without paths |
| `GuardVerdict.CheckRequirements` | internal/rules/decide.go:37-86 | without requirements a lifeline is missing its proof and any other guard needs none; otherwise the status is the first of the most severe states, and risk-free exactly when all are present |
| `GuardVerdict.WorstStateUnique` | internal/rules/decide.go:95-110 | there is one such state |
| `GuardVerdict.WorstStateMeans` | internal/rules/decide.go:95-125 | the first contradicted or unreachable one if there is any; else missing, stale and present in that order |
| `GuardVerdict.DecideGuard` | internal/engine/verdict.go:59-77 | a guard stops a change, at its enforcement, exactly when it is a lifeline without requirements or one of its requirements is not present and untouched |
| `GuardVerdict.VerdictExactly` | internal/rules/decide.go:20-86 | over the records: a guard lets a change pass if and only if every required proof has a first record that counts and no touched dependency, and every required fact a first record not past its expiry, or, without requirements, it is no lifeline; otherwise it warns if it is to warn, and blocks |
| `GuardVerdict.VerdictOnlyTightens` | internal/rules/decide.go:20-86 | over one context neither time nor more dependency conflicts ever soften a guard's verdict |
| `GuardVerdict.NeverLoosensExactly` | internal/policy/layers.go:144-165 | over every change, context, conflict and time: a tightening guard never lets through or softens what the old one stopped if and only if it applies wherever the old one did, keeps the enforcement, and keeps the requirements, a lifeline without any staying so |
| `GuardVerdict.InformationalNeverLoosens` | internal/policy/layers.go:144-165 | a guard that stops nothing, or applies to nothing, cannot be loosened |
| `GuardVerdict.NeverLoosensSameMatchers` | internal/policy/layers.go:144-165 | with kind and other categories left alone, that is a check on the two guards: no patterns for a guard that had none, no requirement for a lifeline that had none, and require_verified and the age bound kept |
| `GuardVerdict.MergeNeverLoosensExactly` | internal/policy/layers.go:109-128 | the guard a whole merge ends with never loosens an accepted declaration of its id if and only if the same three things were kept |
| `GuardVerdict.MergeNeverLoosensSameMatchers` | internal/policy/layers.go:109-128 | with kind and other categories left alone, that is a check of the last accepted declaration of the id against it |
| `GuardVerdict.OverallNeverSoftens` | internal/rules/rules.go:226-249 | guards that never loosen one by one never soften the overall verdict or the exit code, whatever guards are added |
| `GuardVerdict.AddedFileNeverSoftens` | internal/policy/layers.go:56-76 | a policy file added at the end never softens the verdict on any change, if that check holds of every guard and the one that stands in its place |
| `GuardVerdict.AddedProofOpensLifeline` | internal/rules/decide.go:49-56 | adding a required proof to a lifeline without requirements tightens it and lets a change through that it always stopped |
| `Dora.CollectSignals` | internal/dora/dora.go:180-211 | each signal comes from its own drill, finding or pass, in ledger order, and none of these is left out: a drill gives its proof, good if it verified; a finding that names a guard, of a decision whose gate is not broken, gives that guard, good if the verdict is pass; such a pass gives all guards, good |
| `Dora.SignalExactly` | internal/dora/dora.go:180-211 | so a signal is collected if and only if one of those three gives it |
| `DoraOrder.NamespacesAreApart` | internal/dora/dora.go:176-179 | no drill recovers or breaks a guard and no decision a proof |
| `Dora.OpenedExactly` | internal/dora/dora.go:119-131 | the broken table holds exactly the breaks that were first since the last recovery and have not recovered |
| `Dora.ClearGuards` | internal/dora/dora.go:132-144 | a pass of all guards closes every broken guard once, in whatever order the map yields them |
| `Dora.RunSignals` | internal/dora/dora.go:127-154 | the one-pass machine's gaps are those of the breaks in the window, each paired with its first recovery and counted once; what stays in the table is what never recovers |
| `Dora.GapsAreNonNegative` | internal/dora/dora.go:119-154 | no gap is negative |
| `Dora.LifelineMTTR` | internal/dora/dora.go:119-171 | for some time order of the signals: the median of exactly those gaps, none without gaps, and exactly the lifelines that broke in the window and never recover |
| `DoraOrder.BreaksAddUp` | internal/dora/dora.go:119-163 | breaks in the window equal gaps plus unrecovered lifelines |
| `DoraOrder.EpisodesByTime` | internal/dora/dora.go:119-154 | without a conflict the machine's pairing is what the times alone say |
| `DoraOrder.OrderIrrelevantExactly` | internal/dora/dora.go:121-121 | every order the unstable sort may leave gives the same pairing if and only if no break shares its time with a recovery of the same lifeline |
| `DoraOrder.OneAnswer` | internal/dora/dora.go:119-171 | then the median and the unrecovered lifelines do not depend on sort order or map iteration |
| `DoraLedger.UnrecoveredProofExactly` | internal/dora/dora.go:119-211 | over the ledger, without such a tie: a proof is unrecovered if and only if some failed drill of it broke it in the window, every earlier failure having been followed by a verified drill before it, and no verified drill comes later |
| `DoraLedger.UnrecoveredProofFailed` | internal/dora/dora.go:119-211 | tie or not, an unrecovered proof failed a drill in the window and passed none later |
| `DoraLedger.ProofGapsExactly` | internal/dora/dora.go:119-211 | and its gaps run from such a break to the first verified drill after it |
| `DoraLedger.UnrecoveredGuardExactly` | internal/dora/dora.go:119-211 | likewise a guard is unrecovered if and only if a decision naming it, that did not pass, broke it in the window, and no decision passed later |
| `DoraReport.DisplayedApart` | internal/dora/dora.go:213-221 | a guard and a proof of one name, or two names of one kind, never read alike in the report |
| `DoraReport.LifelineReport` | internal/dora/dora.go:119-171 | the median as above, and the display names of exactly the unrecovered lifelines in ascending order |
| `DoraReport.OneReport` | internal/dora/dora.go:119-171 | without a conflict a ledger has one report, however the sort breaks ties and the maps are walked |
| `Ranks.MedianDuration` | internal/dora/dora.go:227-234 | half the values lie on either side, it is between two of the values, and it is the middle of every ascending arrangement |
| `Calibrate.CollectCalibrateSamples` | internal/drill/calibrate.go:109-126 | for every proof exactly the recovery times of the entries that are verified drill runs of it, in ledger order, and the losses of those that measured one |
| `Calibrate.FloatRankIsRank` | internal/drill/calibrate.go:192-192 | the rank computed in float64, where 0.95 is a little less and the product is rounded, is the rank meant, for up to 2^46 samples |
| `Calibrate.Percentile95` | internal/drill/calibrate.go:186-201 | a sample that at least 95 percent of the samples do not exceed, and the least such value; zero for none |
| `Calibrate.SmallSampleIsMax` | internal/drill/calibrate.go:182-185 | with fewer than 20 samples it is the largest |
| `Calibrate.RoundUpIsLeastMultiple` | internal/drill/calibrate.go:214-239 | rounding gives the least nonnegative multiple of the step at or above its input |
| `Calibrate.RTOCoversP95` | internal/drill/calibrate.go:128-136 | with a margin of at least one the proposed RTO is never below the 95th percentile, float64 rounding included, for every duration of 64 bits |
| `Calibrate.CalibrateOne` | internal/drill/calibrate.go:128-162 | skips exactly below the minimum number of runs, and says how many there are; otherwise the proposals come from the 95th percentiles and, with a margin of at least one, are met by the evidence |
| `Calibrate.Calibrate` | internal/drill/calibrate.go:98-162 | for each proof in turn, from the ledger's runs of it: at least three of them, and a margin of four, unless told otherwise |
| `Calibrate.RTOIsTight` | internal/drill/calibrate.go:128-136 | the proposed RTO is a whole number of half minutes, of minutes past five, and less than one of them and a millisecond above the margin times the percentile, or half a minute if that is more; nor is it a millisecond below, float64 rounding included, where the product fits 64 bits |
| `Calibrate.RPOIsTight` | internal/drill/calibrate.go:150-157 | the proposed RPO is in whole hours, likewise, half as much again as the percentile or six hours more |
| `Calibrate.MarginExactly` | internal/drill/calibrate.go:128-136 | without rounding and overflow, every possible evidence meets the proposed RTO if and only if the margin is at least one |
| `Calibrate.RPOCoversP95` | internal/drill/calibrate.go:150-157 | the proposed RPO is never below the 95th percentile |
| `Calibrate.PrintedRTOIsExact` | internal/drill/calibrate.go:248-253 | the printed RTO denotes exactly the proposed duration, whichever unit it is printed in |
| `Calibrate.PrintedRPOIsExact` | internal/drill/calibrate.go:258-260 | likewise for the RPO |
| `Glob.MatchSegmentsExactly` | internal/globmatch/globmatch.go:170-190 | the matcher holds if and only if each ** can be given a run of zero or more segments and every other pattern segment one matching segment |
| `Glob.SplitSegments` | internal/globmatch/globmatch.go:154-168 | the segments hold no slash and joined with slashes give the path back; none for the empty path |
| `Glob.SegmentsUnique` | internal/globmatch/globmatch.go:154-168 | there is only one such list |
| `Glob.MatchPath` | internal/globmatch/globmatch.go:75-88 | the segments match after the home directory is expanded on both sides |
| `Glob.TildeIsHome` | internal/globmatch/globmatch.go:75-99 | a path after ~/ and after the home directory match alike, as a pattern and as a name |
| `Glob.TildeExactly` | internal/globmatch/globmatch.go:90-99 | the two spellings mean one path if and only if the home directory does not itself begin with ~/ |
| `Glob.OthersStand` | internal/globmatch/globmatch.go:75-99 | and every other spelling stands for itself |
| `Glob.LiteralPrefix` | internal/globmatch/globmatch.go:135-142 | the segments before the first wildcard one, and whether there is one |
| `Glob.IsAncestor` | internal/globmatch/globmatch.go:111-128 | holds exactly when the path's segments lead to the pattern's literal prefix, strictly when the pattern is all literal |
| `Glob.AncestorOfExactly` | internal/globmatch/globmatch.go:111-142 | that is: the path is not empty, properly begins the pattern segment by segment, and holds none of the characters * ? [ |
| `Glob.AncestorIsSound` | internal/globmatch/globmatch.go:101-128 | then the path's segments begin the segments of every name the pattern matches, properly when it has no wildcard |
| `Glob.AncestorPathIsSound` | internal/globmatch/globmatch.go:101-128 | every name a pattern matches starts with the path whose segments the pattern's own first ones force, properly when it has more segments and no ** among them |
| `Glob.NamesExactly` | internal/globmatch/globmatch.go:154-168 | the segments a path can have are the slash-free lists but the single empty segment |
| `Glob.AncestorSoundExactly` | internal/globmatch/globmatch.go:101-142 | for a pattern that matches something: every name it matches starts with the path judged its ancestor if and only if each of the path's segments, read as a pattern, matches nothing but itself |
| `Glob.AncestorPathExactly` | internal/globmatch/globmatch.go:101-152 | the same of the two functions on path strings, with the pattern as it is written: if and only if its own first segments can match nothing but the cleaned path's |
| `Glob.LiteralPatternExactly` | internal/globmatch/globmatch.go:101-152 | where those segments hold no metacharacter, that is if and only if the pattern as it is written starts with the cleaned path |
| `Glob.BackslashIsUnsound` | internal/globmatch/globmatch.go:135-142 | one way to fail: an escaped segment counts as literal but matches another name |
| `Glob.UncleanPatternIsUnsound` | internal/globmatch/globmatch.go:147-152 | another: a pattern with a doubled slash is cleaned for the ancestor test and not for the matcher, whose names start otherwise |
| `TailBuffer.Buffer.Write` | internal/command/command.go:166-185 | the digest absorbs all of the input, and the buffer stays its last limit bytes, marked truncated exactly when more was written |
| `TailBuffer.Buffer.Bytes` | internal/command/command.go:187-191 | the held bytes |
| `TailBuffer.Buffer.Truncated` | internal/command/command.go:193-197 | true exactly when the total exceeds the limit |
| `TailBuffer.TailOfTail` | internal/command/command.go:166-185 | cutting before and after more input is cutting once after it |
| `TailBuffer.FedIsTailOfJoined` | internal/command/command.go:156-185 | after any sequence of writes the buffer is the tail of the whole concatenation |
| `TailBuffer.Capture` | internal/command/command.go:126-135 | a command's result holds the tail of all its output in whatever chunks it came, whether it was cut, and the digest of all of it |
| `JsonKeys.Decoder.ConsumeJSONValue` | internal/bundle/summary.go:770-813 | consumes one value and fails on a repeated key, a key that is no string, a stray delimiter or the end of input |
| `JsonKeys.RejectDuplicateJSONKeys` | internal/bundle/summary.go:755-768 | passes exactly one value with nothing after it |
| `JsonKeys.ConsumesExactlyUniqueValues` | internal/bundle/summary.go:770-813 | on the tokens of any value and any rest, it succeeds and leaves exactly the rest if and only if no object inside the value repeats a key |
| `JsonKeys.PassesExactlyOneUniqueValue` | internal/bundle/summary.go:755-768 | so the whole check passes exactly duplicate-free values with nothing after them |

## Left out

- File systems, gzip, tar, YAML and JSON bytes, SHA-256 and Ed25519: parameters with stated assumptions.
- Torn writes and partial lines: a crash loses whole lines that were not synced; the 16 MB line limit of the ledger and diff scanners is not modelled either.
- Strings are sequences of runes, as in valid UTF-8; invalid bytes and their replacement are not told apart.
- Calibrate.CalibrateOne: durations do not overflow 64 bits.
- Calibrate: headroom warnings and declared budgets, which are copied fields, are not modelled.
- Dora: the other three keys of the metrics are not modelled.
- GuardMatch.GuardMatches: local path aliases are not modelled; path.Match, the path glob, the ancestor test and the command glob are one parameter.
- GuardVerdict.DecideGuard: dependency conflicts are a given set of proof ids, and the advisory heuristics and strict coverage that speak beside guards are not modelled.
- ProofCheck: explanatory text and the assurance label of a result are not modelled; normalized dependency lists are compared as sets, and a proof's age is not cut off at the largest duration.
- PolicyLayers: facts, drills and contexts merged beside guards, and errors of loading a file, are not modelled.
- The canonical JSON form: the hash is a function of the entry without its stored hash.
- Glob: what path.Match does with character classes and escapes is a parameter, and completeness of the ancestor test is not claimed.
- Diff: Rebase and the intents' source label are not modelled, and error texts are not.
- BundleArchive.Export: identity, evidence references, scope and host records of the manifest are one opaque field.
- Preflight, status, shell intents, proof storage, drills and the command line: plumbing around the parts above.
