# A verified model of SimpleSIEM's stateful engines

SimpleSIEM is a small security event collector written in Go. Most of it is plumbing; what is hard to get
right sits in a handful of stateful engines. This project models those engines in Dafny and proves what they
are for, over every input, every run and every interleaving.

| engine | modules | central results |
|---|---|---|
| Transactional restore | `Filesystem`, `RestoreLayout`, `ArchiveNames`, `RestoreInvariant`, `RestoreArchive`, `RestoreRollback`, `RestoreObstacles`, `RestoreTransaction`, `RestoreOverlap`, `RestoreOverlapCommit` | Whatever fails and wherever, the disk ends up exactly as it was. On success every entry is at its destination, however the trees nest. Without a refusal by the operating system, success is equivalent to the absence of three obstacles stated on archive and disk alone. On layouts where trees overlap unnoticed, the exact conditions for rollback to be exact, for commit to complete, and for each tree to end up in place. |
| Frame codec | `Bytes`, `Arithmetic`, `Frames`, `FrameStreams` | Any split into writes and any schedule of reads is a round trip; a cut stream never ends cleanly; all nonces of a backup differ. |
| Bundle codec | `Bundles`, `BundleUnpack` | Round trip on bytes and on disk; what every prefix unbundles to; all or nothing. |
| Rule engine | `Matchers`, `MatchMeaning`, `KeyedRuns`, `Thresholds`, `Sequences` | Compiling and testing an expression comes to what the expression means, in every key order; exactly when a match alerts, with the sliding window equal to the naive count; exactly when a sequence fires, on any clock; group keys do not influence one another. |
| Shipper | `Spool`, `Shipper`, `ShipperAgent` | No flushed batch is lost in any interleaving of flush, prune and drain, and it leaves only on a server's own 2xx or 4xx; the exact spool total after a write; the loops are runs of the step machine. |
| Hash chain | `HashChain`, `ChainWriter` | The head hash determines the whole log; exactly when what the logger writes verifies. |
| Replication | `Replication` | The watermark never decreases; orderly runs replicate exactly once; exactly which events a cut pull loses. |
| Enrolment | `Enrolment` | Slots are one-shot in every interleaving, and an open one goes to the first to ask. |

`dafny verify dfyconfig.toml` checks everything.

## How the model stands for the code

- The filesystem of a restore is a map from absolute paths (lists of components) to files and directories.
  Rename and remove act on whole subtrees. The operating system is an arbitrary function that says which
  call is refused although it is possible, so a result holds for every pattern of failures, and "fails only by
  a refusal" means that some call was refused. Rollback's own operations succeed whenever they are physically
  possible.
- Nesting is what `pathInside` says it is. Every restore relies on distinct destinations, on containing trees
  listed before nested ones, and on unused staging and pre-restore names. The class `RestoreTx` is about
  layouts in which, moreover, no tree that counts as outermost lies in another one. `RestoreOverlap` drops that
  condition: there the same steps are a relation between states, and rollback is the function that
  `RestoreTx.UndoAll` is proved to compute from any state on any layout. `RestoreOverlapCommit` follows commit
  over such layouts.
- Authenticated encryption is a pair of functions with `open(n, seal(n, p)) == Some(p)` and a fixed overhead
  (section 2 of RFC 5116). The chunk size is symbolic.
- Regular expressions, address parsing, number formatting, set files, JSON, SHA-384 and the clock are
  parameters. Collision freedom of the digest is assumed only between the records at hand. Float comparison
  is over `real`.
- The shipper's two activities interleave step by step; the server is arbitrary. The class in `ShipperAgent`
  runs the same loops undisturbed and is proved to take a run of that machine.
- A configuration change is one locked read-modify-write, whose save may fail.

## What the proofs found

- **A containing tree listed after a nested one.** The second pass of `prepareStaging` reads the container's
  staging directory before it is set, so the nested tree is staged at a relative path.
  `AllAbsoluteIffOrdered` gives the exact condition, `ConfigBelowStateIsRelative` an instance.
- **Components that start with `..`.** `pathInside` takes `/srv/..cache` not to be inside `/srv`
  (`PathInsideMeaning`). Both then count as outermost, the second is staged inside the live first, and once
  the first has been moved aside rollback brings it back with that staging directory in it: the host is not as
  before. `RollbackExactIff` states exactly when rollback is exact, `SrvCacheIsInexact` is this layout. Even
  without any refusal the second tree cannot be promoted any more (`InnerCannotFollow`); `CompletesIff` states
  exactly when commit goes through.
- **A successful restore that loses a tree.** With config at `/srv/..cache` and state at `/srv`, commit swaps
  config first and then moves all of `/srv` aside, with the restored config tree and its preserved copy in it.
  The restore reports success, and neither is where it should be (`CacheSrvLosesConfig`). `CommitEffect` says
  for every layout what is at each destination and pre-restore name in the end; `DeliveredIff` and `KeptIff`
  are the exact conditions for a tree to be delivered and its old content to be kept.
- **An outermost tree without entries.** Entries of trees nested in it are staged but never promoted, and the
  staging directory stays behind after a successful restore (`DeliveredIffRootHit`,
  `StateFileIsLeftInStaging`).
- **Bundle names.** If an entry is called like a later one with `.tmp` appended, unpacking succeeds and loses
  it; `BundleRoundTrip` and `DeliversIffNoClash` show that this is the only way, also when destinations
  coincide; `TmpNameFirstLosesIt` is an instance.
- **A failed unpack.** A comment in `unpackBundle` says that a failure leaves the directory untouched. It
  deletes files that already had one of the names involved: `UndoHarmlessIff` gives the exact condition,
  `FailureDeletesEarlierBackup` an instance.
- **The spool bound.** A rejection that renames a listed file before the prune has looked up its size, or
  before it removes it, makes the prune overlook a file that stays. `RejectionDuringPruneBreaksBound` has a run
  for each, and `BoundAfterWrite` gives the exact total and the exact condition for the bound.
- **A repeated time stamp** overwrites a spooled batch (`WriteKeepsAllIff`).
- **A pull that is cut, or whose local writes fail,** loses exactly the events that the mark it saves has
  overtaken (`PullLosesExactlyOvertaken`, `NotServedIsLost`; an instance is `CutPullLosesTheOlder`).
- **Hash lengths.** A comment in `verifyChainStream` says that a stored hash is accepted if it has the right
  length; the code accepts every length but 96 without recomputing (`OnlyFullHashesAreRecomputed`,
  `ForgedLineVerifiesIff`, `LegacyHashIsNotChecked`). The model follows the code. One stream with full-length
  hashes is nevertheless enough to pin down any other with the same head.
- **An event that cannot be marshalled** uses up a number in the log file without leaving a line, so the next
  line written makes the logger's own file fail verification, while a failed disk write gives its number back.
  `WrittenLogVerifiesIff` is the exact condition, `UnmarshalledBreaksChain` an instance.
- **Frame errors are not sticky.** After a bad length or a failed tag the reader continues behind the header or
  the frame if called again; `StickyIff` states which endings repeat, `ErrsThenEndsCleanly` and
  `FailsTagThenEndsCleanly` are streams that fail and then end cleanly.

## Model

| member | source | states |
|---|---|---|
| RestoreTransaction.RestoreTx.Restore | internal/sieg/backup_restore.go:225-276 | A failed restore leaves the disk equal to the initial one on every path. A successful one puts every entry at its destination, brings only archived files, keeps what it replaced under the pre-restore name and changes nothing elsewhere. It fails only by a refusal or one of three obstacles, and never succeeds in the presence of one. |
| RestoreTransaction.RestoreTx.Rollback | internal/sieg/backup_restore.go:655-696 | From every state a restore on a separate layout can reach, the disk returns to exactly the initial one. |
| RestoreTransaction.RestoreTx.UndoAll | internal/sieg/backup_restore.go:655-696 | From any state and on any layout, the loops compute the rollback function the other results are about. |
| RestoreRollback.RolledBackIsBefore | internal/sieg/backup_restore.go:655-696 | On separate layouts that function returns the initial disk from every state satisfying the invariant of a restore. |
| RestoreOverlap.RollbackExactIff | internal/sieg/backup_restore.go:412-696 | On every layout with distinct, ordered destinations and fresh names: every reachable state rolls back to the initial disk if and only if no tree that counts as outermost lies in an earlier one that exists, or a file above some destination keeps anything from being committed. |
| RestoreOverlap.SeparateIsSafe | internal/sieg/backup_restore.go:456-501 | The layouts of the transaction class are among the safe ones. |
| RestoreOverlap.SafeIsExact | internal/sieg/backup_restore.go:655-696 | No step of a run on such a layout changes what rollback would return. |
| RestoreOverlap.BacksKeepsBack | internal/sieg/backup_restore.go:633-640 | Moving a destination aside is undone exactly as long as no later staging directory lies in it. |
| RestoreOverlap.PromotesKeepsBack | internal/sieg/backup_restore.go:641-645 | Promotion is undone exactly, whatever lies in the tree. |
| RestoreOverlap.InnerLeftBehind | internal/sieg/backup_restore.go:655-696 | Otherwise the later tree's staging directory comes back with the tree around it and stays on disk. |
| RestoreOverlap.InnerCannotFollow | internal/sieg/backup_restore.go:618-648 | Once a tree has been promoted around a later one, that one can no longer be promoted. |
| RestoreOverlap.PromotionReplacesInside | internal/sieg/backup_restore.go:618-648 | Promotion replaces everything below the destination, also another restored tree. |
| RestoreOverlapCommit.CompletesIff | internal/sieg/backup_restore.go:618-648 | On every layout, commit can complete without any refusal if and only if no tree of the archive lies in an earlier one and one that is not there yet has no other outermost tree inside. |
| RestoreOverlapCommit.DoneIsInnerFirst | internal/sieg/backup_restore.go:618-648 | A completed commit has swapped no tree that lies in an earlier one. |
| RestoreOverlapCommit.CommitEffect | internal/sieg/backup_restore.go:618-648 | On every layout, after a completed commit each path of a tree holds what was staged there for the last tree around it, and so does its pre-restore name if a later tree swept over it. |
| RestoreOverlapCommit.OldContentKept | internal/sieg/backup_restore.go:618-648 | With no later tree around it, a tree's old content is under its pre-restore name, except where an earlier tree inside it was restored. |
| RestoreOverlapCommit.DeliveredIff | internal/sieg/backup_restore.go:618-648 | What was staged for a tree is at its destination if and only if no later tree of the archive contains it, or the last one that does holds the same thing there. |
| RestoreOverlapCommit.KeptIff | internal/sieg/backup_restore.go:618-648 | Its old content is under its pre-restore name if and only if the same holds. |
| RestoreOverlapCommit.CacheSrvLosesConfig | internal/sieg/backup_restore.go:618-648 | Config at /srv/..cache, state at /srv: commit completes, and neither the restored file nor the preserved tree is in place. |
| RestoreOverlap.SrvCacheIsInexact | internal/sieg/backup_restore.go:518-532 | Config at /srv and state at /srv/..cache: a restore that does not roll back. |
| RestoreRollback.UndoKeepsInv | internal/sieg/backup_restore.go:655-684 | Undoing one outermost record keeps the invariant and releases everything it owned. |
| RestoreRollback.DropAll | internal/sieg/backup_restore.go:685-696 | Removing the recorded parents innermost first removes exactly the directories the restore created. |
| RestoreTransaction.RestoreTx.PrepareStaging | internal/sieg/backup_restore.go:412-513 | Every tree is staged and outermost trees come first, or the state can be rolled back; it fails only by a refusal or a file above a destination, and never succeeds with such a file. |
| RestoreTransaction.RestoreTx.RecordSwaps | internal/sieg/backup_restore.go:437-452 | The first pass records one untouched swap per tree with whether its destination existed. |
| RestoreTransaction.RestoreTx.StageAll | internal/sieg/backup_restore.go:456-501 | The second pass prepares the trees one by one and stays recoverable at every failure. |
| RestoreTransaction.RestoreTx.StageNested | internal/sieg/backup_restore.go:476-491 | A nested tree is staged inside its innermost container's staging directory; only a refusal prevents that. |
| RestoreTransaction.RestoreTx.StageOutermost | internal/sieg/backup_restore.go:492-501 | An outermost tree gets its parents and a sibling staging directory. |
| RestoreTransaction.RestoreTx.FindMissing | internal/sieg/backup_restore.go:538-560 | The absent part of the ancestor chain, innermost first, ending at an existing directory. |
| RestoreTransaction.RestoreTx.EnsureParent | internal/sieg/backup_restore.go:538-569 | Only missing ancestors of destinations are created, each one recorded; it is blocked only by a file above. |
| RestoreTransaction.RestoreTx.Rename | internal/sieg/rename_fallback.go:33-70 | A directory rename moves the whole subtree or does nothing. |
| RestoreTransaction.RestoreTx.StagingPathFor | internal/sieg/backup_restore.go:577-611 | Each name is rejected, ignored, or mapped below its tree's staging directory, marking that tree, as the placement function says; `RejectedIff`, `IgnoredIff`, `PlacedIff` and `EntryFindsItsTree` say exactly when. |
| RestoreTransaction.RestoreTx.WriteStagedEntry | internal/sieg/backup_restore.go:726-757 | A directory or file appears at its staged path with directories leading to it and nothing else; it fails only by a refusal or something in the way. |
| RestoreTransaction.RestoreTx.Extract | internal/sieg/backup_restore.go:225-276 | After extraction every entry is staged, every staged file comes from an entry, and exactly the trees with entries are marked; it fails only by a refusal, a rejected name or a collision, and succeeds only without them. |
| RestoreTransaction.RestoreTx.Commit | internal/sieg/backup_restore.go:618-648 | Commit installs every outermost tree that received entries and fails only if a rename is refused: no rename is ever impossible. |
| RestoreTransaction.RestoreTx.CommitOne | internal/sieg/backup_restore.go:618-648 | Preserving and promoting one tree changes only its own three names and installs exactly the staged tree. |
| RestoreArchive.SortOuterFirst | internal/sieg/backup_restore.go:505-511 | The exchange sort keeps the records, puts outermost trees first and keeps their order. |
| RestoreArchive.StagingInjective | internal/sieg/backup_restore.go:456-501 | Two staged paths coincide only if the destinations they stand for coincide, across all nested trees. |
| RestoreArchive.CommitDelivers | internal/sieg/backup_restore.go:618-648 | One rename of the outermost tree delivers the entries of all trees nested in it. |
| RestoreArchive.RestoredByName | internal/sieg/backup_restore.go:577-648 | After a successful restore the last file named config/…, state/… or logs/… for a path of an outermost tree is at that path of the tree's destination. |
| RestoreArchive.CommitBringsOnlyArchive | internal/sieg/backup_restore.go:618-648 | A replaced tree holds no file the archive did not put there. |
| RestoreArchive.TreeSettled | internal/sieg/backup_restore.go:618-648 | A replaced tree's old content is intact under its pre-restore name; a tree without entries is untouched and leaves its staging directory behind. |
| RestoreArchive.DeliveredIffRootHit | internal/sieg/backup_restore.go:618-648 | A successful restore delivers a new file of a nested tree if and only if the outermost tree around it received an entry of its own. |
| RestoreTransaction.StateFileIsLeftInStaging | internal/sieg/backup_restore.go:618-648 | One state file under config: the restore runs and succeeds, the file is not at its destination and the staging directory stays. |
| RestoreArchive.BaselineElsewhere | internal/sieg/backup_restore.go:412-513 | Outside the names of the trees only missing ancestors of destinations have appeared. |
| RestoreObstacles.StagedWithoutCollision | internal/sieg/backup_restore.go:726-757 | An archive that could be staged in full wants no path both as a file and as a directory. |
| RestoreObstacles.WayIsCollision | internal/sieg/backup_restore.go:726-757 | Whatever blocks an entry in staging was put there by an entry or tree that collides with it. |
| RestoreObstacles.PreparedWithoutFile | internal/sieg/backup_restore.go:538-569 | A fully prepared restore found no file above any destination. |
| RestoreObstacles.BackupPossible | internal/sieg/backup_restore.go:618-648 | Moving an existing destination aside is always possible. |
| RestoreObstacles.PromotePossible | internal/sieg/backup_restore.go:618-648 | Moving a staged tree into place is always possible. |
| RestoreInvariant.Job.UndoSwapGet | internal/sieg/backup_restore.go:655-684 | Undoing a swap returns every path it owned to its initial state and touches no other. |
| RestoreInvariant.Job.UndoSwapKeepsInv | internal/sieg/backup_restore.go:655-684 | Undoing one swap leaves what is known of all others intact. |
| RestoreInvariant.Job.BringBackPossible | internal/sieg/backup_restore.go:655-684 | The rename that brings a preserved tree back is always possible. |
| RestoreInvariant.Job.StagingIsPrivate | internal/sieg/backup_restore.go:655-684 | Whatever happens inside a staging directory, the invariant does not notice, so removing it removes all that extraction wrote. |
| RestoreInvariant.Job.NewParentKeepsInv | internal/sieg/backup_restore.go:538-569 | Recording a created parent keeps the baseline exact. |
| RestoreInvariant.Job.BackupKeepsInv | internal/sieg/backup_restore.go:618-648 | Moving a destination aside preserves its content and the invariant. |
| RestoreInvariant.Job.PromoteKeepsInv | internal/sieg/backup_restore.go:618-648 | Promoting a staged tree keeps the invariant. |
| RestoreLayout.PathInsideMeaning | internal/sieg/backup_restore.go:518-532 | `pathInside` is strict containment, except through a component that starts with `..`. |
| RestoreLayout.FindOuter | internal/sieg/backup_restore.go:458-475 | The search yields the innermost containing tree, or shows that the tree is outermost. |
| RestoreLayout.PlanStaging | internal/sieg/backup_restore.go:456-501 | The second pass, run tree by tree, assigns exactly the planned staging directories. |
| RestoreLayout.PlanBelowRoot | internal/sieg/backup_restore.go:476-491 | In an ordered layout every tree is staged below the staging directory of the outermost tree around it, at its own relative path. |
| RestoreLayout.RootsSeparated | internal/sieg/backup_restore.go:437-501 | No destination, staging or pre-restore name of one outermost tree is related to one of another. |
| RestoreLayout.AbsoluteIffChainOrdered | internal/sieg/backup_restore.go:456-501 | A tree is staged at an absolute path if and only if the trees around it are listed outside in. |
| RestoreLayout.AllAbsoluteIffOrdered | internal/sieg/backup_restore.go:456-501 | The whole layout is staged at absolute paths if and only if it is ordered. |
| RestoreLayout.ConfigBelowStateIsRelative | internal/sieg/backup_restore.go:456-501 | A layout that is staged at a relative path. |
| RestoreLayout.TwoLevelLayoutIsValid | internal/sieg/backup_restore.go:429-436 | The nested layout that staging is designed for meets every assumption of the restore model. |
| ArchiveNames.CleanIsNormal | internal/sieg/backup_restore.go:577-611 | Cleaning any name yields the normal form: leading climbs, then ordinary components. |
| ArchiveNames.PlacedBelowItsTree | internal/sieg/backup_restore.go:577-611 | Containment: a placed entry lies strictly below the tree its prefix names, along ordinary components only, whatever the name. |
| ArchiveNames.EntryFindsItsTree | internal/sieg/backup_restore.go:590-596 | The converse: config/, state/ or logs/ followed by any ordinary components goes to that tree, if it is being restored, with the rest of the name as it is. |
| ArchiveNames.LooseRidesAlong | internal/sieg/backup_restore.go:598-609 | loose/ followed by any ordinary components goes below `_restored_loose` of the config tree, if that is being restored. |
| ArchiveNames.RejectedIff | internal/sieg/backup_restore.go:578-587 | A name is refused if and only if it is absolute, or cleans to a climb with something after it. |
| ArchiveNames.PlacedIff | internal/sieg/backup_restore.go:588-609 | A name is placed at a path of a tree if and only if it is not absolute and cleans to that tree's prefix, or loose/, and that path. |
| ArchiveNames.IgnoredIff | internal/sieg/backup_restore.go:588-611 | A name is passed over if and only if it has fewer than two components or starts with no prefix of a tree being restored. |
| ArchiveNames.CleanDropsIdle | internal/sieg/backup_restore.go:578 | Empty components and `.` drop out of a name, wherever they stand. |
| ArchiveNames.CleanCancels | internal/sieg/backup_restore.go:578 | An ordinary component and the `..` after it drop out together, wherever they stand. |
| ArchiveNames.CleanStopsAtRoot | internal/sieg/backup_restore.go:578 | `..` at the root drops out. |
| ArchiveNames.CleanKeepsNormal | internal/sieg/backup_restore.go:578 | Where none of this applies every component stays, in order. |
| ArchiveNames.SplitSlashed | internal/sieg/backup_restore.go:578 | Joining slash-free components with slashes and splitting again gives them back. |
| ArchiveNames.SlashedSplit | internal/sieg/backup_restore.go:578 | Splitting a name and joining it again gives the name back. |
| Filesystem.GetMoved | internal/sieg/rename_fallback.go:33-70 | A rename moves exactly the subtree and loses nothing. |
| Frames.MakeFrameNonce | internal/sieg/backup_frames.go:182-191 | The in-place fold yields the base with the big-endian counter xored into its last eight bytes. |
| Frames.NonceBytes | internal/sieg/backup_frames.go:182-191 | Byte 11 - i of the nonce is that of the base xored with counter byte i from the low end. |
| Bytes.XorHasDifferingBits | internal/sieg/backup_frames.go:187-189 | The exclusive or of two bytes has exactly the bits in which they differ. |
| Frames.NoncesDistinct | internal/sieg/backup_frames.go:182-191 | Different counters below 2^64 give different nonces. |
| Frames.EncodeUsesCounters | internal/sieg/backup_frames.go:74-97 | Frame i of a stream is sealed under counter i. |
| Frames.NonceDiscipline | internal/sieg/backup_frames.go:74-97 | All nonces of one backup of at most 2^64 frames differ and keep the first four bytes. |
| Frames.FrameReads | internal/sieg/backup_frames.go:136-174 | A frame at the front of any input reads back whole, under the nonce it was sealed under. |
| Frames.FrameByHeader | internal/sieg/backup_frames.go:136-174 | For every header and every rest: too long is a bad length, too short a truncation, a payload that does not open an authentication failure, and otherwise the opened payload comes out. |
| Frames.EveryHeader | internal/sieg/backup_frames.go:136-152 | Any four bytes are the header of one length and one final bit. |
| Frames.DecodeEncode | internal/sieg/backup_frames.go:119-174 | Reading a closed stream gives the data and a clean end, whatever bytes follow it. |
| Frames.EncodedLength | internal/sieg/backup_frames.go:74-97 | The stream is as long as its data plus one header and one tag per frame. |
| Frames.FrameCountIsQuotient | internal/sieg/backup_frames.go:41-72 | n bytes make ⌊n/chunk⌋ + 1 frames. |
| Frames.DecodePrefix | internal/sieg/backup_frames.go:119-174 | For every byte stream, valid or not, a prefix reads like the whole or yields a prefix of its data and the truncation error. |
| Frames.CutIsTruncated | internal/sieg/backup_frames.go:119-174 | A strict prefix of a closed stream yields exactly the whole chunks before the cut and then the truncation error. |
| Frames.StickyIff | internal/sieg/backup_frames.go:119-174 | An ending repeats on every later call if and only if it is a clean end or a truncation. |
| Frames.ErrsThenEndsCleanly | internal/sieg/backup_frames.go:145-152 | A stream that reports a bad length and then ends cleanly. |
| Frames.FailsTagThenEndsCleanly | internal/sieg/backup_frames.go:160-171 | A stream that fails authentication and then ends cleanly. |
| FrameStreams.FrameWriter.Write | internal/sieg/backup_frames.go:41-62 | Write takes all bytes and keeps the stream on track to the encoding of everything written; after Close it refuses. |
| FrameStreams.FrameWriter.Close | internal/sieg/backup_frames.go:66-72 | Closing completes the encoding of all data; a second Close changes nothing. |
| FrameStreams.FrameWriter.FlushFrame | internal/sieg/backup_frames.go:74-97 | One frame with the buffer is emitted under the current counter. |
| FrameStreams.FrameReader.FillNextFrame | internal/sieg/backup_frames.go:136-174 | One frame is consumed without changing what is still to be delivered, or the stream ends as its bytes demand; what a later call obtains after each kind of error. |
| FrameStreams.FrameReader.Read | internal/sieg/backup_frames.go:119-134 | A read delivers the next bytes of what is pending, or reports how the stream ends; after a bad length or a failed tag what remains is read from behind the header or the frame. |
| FrameStreams.WriteAll | internal/sieg/backup_frames.go:41-97 | The closed stream does not depend on how the data was split into writes. |
| FrameStreams.ReadAll | internal/sieg/backup_frames.go:119-174 | Any schedule of positive read sizes obtains exactly what the bytes decode to. |
| FrameStreams.WriteThenRead | internal/sieg/backup_frames.go:41-174 | Any split, any schedule, any trailing bytes: the data comes back, followed by a clean end. |
| FrameStreams.WriteThenReadCut | internal/sieg/backup_frames.go:41-174 | Any split, any schedule, any cut: a prefix of the data comes back, followed by the truncation error. |
| Bundles.FillEntryHeader | internal/sieg/backup_remote_pull.go:169-196 | The in-place header is name length, name and body length, big-endian. |
| Bundles.EntryByNameLength | internal/sieg/backup_remote_pull.go:818-840 | An entry is broken if and only if its name length is 0 or over 1024 or name and size do not follow whole. |
| Bundles.EntryByHeader | internal/sieg/backup_remote_pull.go:818-860 | With name and size there: a size of 2^63 or more copies nothing, a short body is cut short, and otherwise exactly the announced bytes are the body. |
| Bundles.HeaderBytes | internal/sieg/backup_remote_pull.go:152-161 | The twelve bytes in front of every bundle: SBKB, version 1, four zeros. |
| Bundles.UnbundleEncode | internal/sieg/backup_remote_pull.go:152-196 | Unbundling an encoded list of entries returns exactly that list. |
| Bundles.CutReads | internal/sieg/backup_remote_pull.go:818-860 | A cut between entries reads as the entries before it; any other cut does not read. |
| Bundles.UnbundlePrefix | internal/sieg/backup_remote_pull.go:782-860 | Any prefix of a bundle fails or yields exactly the first k entries. |
| BundleUnpack.Unpacker.Unpack | internal/sieg/backup_remote_pull.go:782-881 | All or nothing: a failure takes away a known set of names and nothing else, and those are temporaries it opened and destinations it had promoted; it leaves the directory unchanged if none of them existed. It fails only by a refusal, an unreadable bundle, or an obstacle. |
| BundleUnpack.BaseIsLastComponent | internal/sieg/backup_remote_pull.go:842 | The base of any name is its last component; slashes only give a slash, nothing a dot. |
| BundleUnpack.FinalStaysClose | internal/sieg/backup_remote_pull.go:842-844 | Whatever the name, an entry goes to the destination directory itself, to the one above it, or to a single component inside it. |
| BundleUnpack.Unpacker.StageAll | internal/sieg/backup_remote_pull.go:818-860 | The temporaries hold exactly the entries read so far; success means the whole stream was read. |
| BundleUnpack.Unpacker.PromoteAll | internal/sieg/backup_remote_pull.go:862-881 | All temporaries are renamed, or the directory is as before staging less the staged temporaries and the promoted names. |
| BundleUnpack.Unpacker.UndoPromotion | internal/sieg/backup_remote_pull.go:868-877 | Rolling back leaves exactly what was there before staging, less the staged temporaries and the promoted names. |
| BundleUnpack.UndoHarmlessIff | internal/sieg/backup_remote_pull.go:862-881 | Whichever promotion fails, the directory is left as it was, if and only if no temporary and no destination but the last existed before. |
| BundleUnpack.UndoneFromPromoted | internal/sieg/backup_remote_pull.go:868-877 | What the undo computes from the disk after i promotions. |
| BundleUnpack.FailureDeletesEarlierBackup | internal/sieg/backup_remote_pull.go:862-881 | A failed second rename deletes an earlier file of the first name. |
| BundleUnpack.DeliversIffNoClash | internal/sieg/backup_remote_pull.go:862-881 | After any successful promotion every body is in place if and only if no destination is a later entry's temporary. |
| BundleUnpack.BundleRoundTrip | internal/sieg/backup_remote_pull.go:782-881 | An encoded list of plainly named entries comes out on disk if and only if no name is a later name with `.tmp` appended. |
| BundleUnpack.UnpackTouchesOnly | internal/sieg/backup_remote_pull.go:782-881 | A successful unpack touches destinations and temporaries only. |
| BundleUnpack.NoTmpLeft | internal/sieg/backup_remote_pull.go:862-881 | No temporary is left behind unless its name is itself a destination. |
| BundleUnpack.PromotionPossible | internal/sieg/backup_remote_pull.go:862-881 | A rename is impossible only if a directory is in the way or two destinations coincide. |
| BundleUnpack.TmpNameFirstLosesIt | internal/sieg/backup_remote_pull.go:862-881 | The bundle `a.tmp`, `a` loses its first entry. |
| Matchers.ParseItems | internal/sieg/alerts.go:144-185 | A list compiles exactly when every element does, element by element. |
| Matchers.ParseFields | internal/sieg/alerts.go:187-258 | An object compiles exactly when every field does, field by field. |
| Matchers.ConjunctionMeans | internal/sieg/alerts.go:187-258 | A compiled object holds of a value if and only if all its conditions do. |
| MatchMeaning.ExpressionMeans | internal/sieg/alerts.go:144-470 | For every expression and value: it compiles if and only if it is well-formed, and the compiled matcher holds of the value if and only if the expression does, read off the JSON alone: text equality, regex, occurrence of a substring, some of a list, every key of an object, the four orders, networks and set files. |
| MatchMeaning.RuleMeans | internal/sieg/alerts.go:504-520 | A rule matches an event if and only if it has conditions and each holds: `type` of the log type, every other of the event's field of that name, null if missing. |
| MatchMeaning.ContainsIff | internal/sieg/alerts.go:392-393 | A substring condition holds if and only if the text splits around an occurrence. |
| MatchMeaning.CidrsAre | internal/sieg/alerts.go:260-283 | A list of networks compiles to exactly the networks it names, if and only if they are all valid. |
| MatchMeaning.ListTextLaws | internal/sieg/alerts.go:376-381 | The text of a list is that of its elements with single spaces between them. |
| Matchers.ShuffledParse | internal/sieg/alerts.go:144-258 | Visiting object keys in another order, at any depth, changes neither whether an expression compiles nor what it says of any value; `ExpressionMeans` says what that is. |
| Matchers.NegativeForms | internal/sieg/alerts.go:387-470 | `not_cidr` and `not_in_file` agree with `not` of their positive forms, also where the value is no address. |
| Matchers.PositiveAgrees | internal/sieg/alerts.go:387-470 | Rewriting every negative form into `not` of its positive form, at any depth, preserves meaning. |
| Matchers.PositiveHasNone | internal/sieg/alerts.go:187-258 | The rewriting leaves no negative form at any depth. |
| KeyedRuns.KeyIsolation | internal/sieg/alerts.go:550-669 | In any interleaved stream the state and the fires of one key are those of its own events alone. |
| KeyedRuns.OwnPosition | internal/sieg/alerts.go:550-669 | Event i of the stream comes right after the earlier events of its key, and so does its flag: none is left out or moved. |
| KeyedRuns.SoloRun | internal/sieg/alerts.go:550-669 | On one key's events the keyed run is the plain run. |
| Thresholds.PruneSamples | internal/sieg/alerts.go:566-572 | The loop drops exactly the leading samples before the cutoff. |
| Thresholds.AlertRule.Count | internal/sieg/alerts.go:550-599 | Threshold and dedup on the two maps act on one key as the reaction function says, which `AlertsOfKey` characterises, and leave all others alone. |
| Thresholds.AlertRule.ShouldFire | internal/sieg/alerts.go:530-599 | Outside the schedule, or without a match, nothing changes; otherwise the group key's state reacts. |
| Thresholds.Feed | internal/sieg/alerts.go:530-599 | Feeding a rule a stream of matches yields the keyed run. |
| Thresholds.MatchesConserved | internal/sieg/alerts.go:562-586 | On any clock, matches = count · crossings + expired + stored, and fewer than count are ever stored. |
| Thresholds.CrossesExactly | internal/sieg/alerts.go:562-586 | On a non-decreasing clock the pruned list crosses exactly when the naive count in the window since the last crossing reaches count. |
| Thresholds.FiresSpaced | internal/sieg/alerts.go:588-596 | With dedup on, alerts of one key that are k alerts apart are at least k dedup windows apart. |
| Thresholds.DedupBound | internal/sieg/alerts.go:588-596 | An interval of length L holds at most L / dedup + 1 alerts of one key. |
| Thresholds.AlertsOfKey | internal/sieg/alerts.go:530-599 | For one key of an interleaved stream, with or without a threshold: a match alerts if and only if there is no threshold or the naive rule crosses, and, with dedup on, the last alert of that key is at least the dedup window ago. The clock has to be in order only where there is a threshold. |
| Thresholds.RemembersLastAlert | internal/sieg/alerts.go:588-596 | With dedup on, what is remembered of a key is the time of its last alert, on any clock. |
| Thresholds.SameGroupIff | internal/sieg/alerts.go:550-556 | Events are counted together if and only if they agree in the text of the dedup field, without one of the group_by field, and otherwise always. |
| Sequences.SequenceTracker.Step | internal/sieg/alerts.go:615-669 | The search over steps advances one key's progress as the advance function says, which `FiresIff` characterises, and leaves all others alone. |
| Sequences.SequenceTracker.ShouldFireSequence | internal/sieg/alerts.go:615-669 | The event's group key advances by the steps the event matches, as the advance function says. |
| Sequences.Feed | internal/sieg/alerts.go:615-669 | Feeding a tracker a stream yields the keyed run. |
| Sequences.FireHasChain | internal/sieg/alerts.go:615-669 | A fire completes an in-order selection of events matching all steps, started by the last step-0 match, inside the window throughout and with no fire since its start; on any clock. |
| Sequences.ChainCausesFire | internal/sieg/alerts.go:615-669 | On a non-decreasing clock a completed selection inside the window without a further step-0 match has caused a fire no later than its last event. |
| Sequences.FiresIff | internal/sieg/alerts.go:615-669 | On any clock, an event of a key fires if and only if it completes such a selection. |
| Sequences.FiresAreApart | internal/sieg/alerts.go:650-665 | Fires use their starts up: between two fires of a key lies a fresh step-0 match. |
| Sequences.FlagsOfKey | internal/sieg/alerts.go:615-669 | The flags of one key in an interleaved stream are the fires of its own events. |
| Shipper.Send | internal/sieg/agent.go:478-540 | Peers are asked in order until the first 2xx or 4xx; only a 2xx is success. |
| Shipper.SendVerdictMeans | internal/sieg/agent.go:478-540 | A live send succeeds if and only if the first 2xx comes before any 4xx, and is refused if and only if the first 4xx comes before any 2xx. |
| Shipper.DrainVerdictMeans | internal/sieg/agent.go:688-739 | The drain takes a batch for delivered if and only if the first peer that answers at all says 2xx, and for refused if and only if it says 4xx. |
| Shipper.StepKeepsInv | internal/sieg/agent.go:263-321 | Every step of either activity, against any server, keeps the accounting and the books of a prune in progress. |
| Shipper.NoBatchLost | internal/sieg/agent.go:263-321 | In every run and interleaving, a batch that was spooled before or is flushed in the run is still being made room for, or some reply in the run is a 2xx to it in the place where the agent heeds it, or it is on disk as spooled or rejected, or a prune over its limit has removed and counted it. |
| Shipper.LeavesOnlyBy | internal/sieg/agent.go:585-740 | After any run a file leaves the spool only when the first answer to its own post was a 2xx, when it was a 4xx, which sets it aside, or by an oldest-first prune over the limit that counts it. |
| Shipper.DeliveredIffConfirmed | internal/sieg/agent.go:263-321 | In every run a batch counts as delivered if and only if a server said 2xx to it. |
| Shipper.PrunedIff | internal/sieg/agent.go:585-631 | In every run a batch counts as pruned if and only if a prune over its limit removed a file of it. |
| Shipper.PendingIs | internal/sieg/agent.go:652-671 | The drain lists exactly the files not set aside. |
| Shipper.BoundAfterWrite | internal/sieg/agent.go:567-631 | The exact total after a write, with what rejections renamed from under the listing or the removal, and exactly when it is within limit plus write. |
| Shipper.BoundInEveryRun | internal/sieg/agent.go:567-631 | In every run a write after a prune from under which nothing was renamed keeps the total within limit plus write. |
| Shipper.LosesOnlyRenamed | internal/sieg/agent.go:600-629 | A listed name is overlooked, or an item counted without being removed, exactly when a rejection has renamed it. |
| Shipper.OnlyWritesRaise | internal/sieg/agent.go:640-740 | No drain step and no prune ever raises the total. |
| Shipper.RejectionDuringPruneBreaksBound | internal/sieg/agent.go:585-740 | Two runs in which a rejection during a prune leaves more than limit plus write: between listing and lookup, and between lookup and removal. |
| Shipper.WriteKeepsAllIff | internal/sieg/agent.go:567-581 | A spool write keeps every spooled file if and only if its name is not taken. |
| ShipperAgent.Agent.Flush | internal/sieg/agent.go:263-321 | A flush delivers the batch or spools it after the least pruning that helps, and is a run of the step machine. |
| ShipperAgent.Agent.Prune | internal/sieg/agent.go:585-631 | The shortest oldest-first prefix is removed and counted that brings the total within the limit. |
| ShipperAgent.Agent.Drain | internal/sieg/agent.go:640-740 | A drain is a run of the step machine, drops nothing, never raises the total and makes nothing pending; if every first answer is a 2xx or a 4xx and the agent does not stop, nothing stays pending. |
| ShipperAgent.Agent.DrainOne | internal/sieg/agent.go:671-739 | The first answer decides: a 2xx removes the file, a 4xx sets it aside, anything else keeps it and ends the drain. |
| Spool.PutFresh | internal/sieg/agent.go:567-581 | Writing a fresh name adds exactly that file, in chronological place. |
| Spool.RemoveExact | internal/sieg/agent.go:717-720 | Removing a name takes away exactly that file. |
| Spool.RejectExact | internal/sieg/agent.go:721-736 | Rejecting a name relabels exactly that file and keeps the total. |
| HashChain.VerifyChainStream | internal/sieg/backup_verify.go:187-242 | Clean if and only if every line is in order; otherwise the first problem, at the right line. |
| HashChain.EveryPrefixVerifies | internal/sieg/backup_verify.go:187-242 | Every prefix of a verifying stream verifies. |
| HashChain.HashPinsRecord | internal/sieg/backup_verify.go:216-235 | A full-length hash pins down its record and the hash before it. |
| HashChain.HeadDeterminesLog | internal/sieg/backup_verify.go:187-242 | Two streams that verify and end in the same hash are equal line by line if one of them carries full-length hashes and numbers do not wrap around, or both carry full-length hashes. |
| HashChain.TamperingCaught | internal/sieg/backup_verify.go:187-242 | A stream that differs from a verified one with full-length hashes but ends in the same hash does not verify, whatever the lengths of its own hashes. |
| HashChain.OnlyFullHashesAreRecomputed | internal/sieg/backup_verify.go:210-234 | A line is in order if and only if number and predecessor are right and its hash is right or not 96 characters long. |
| HashChain.ForgedLineVerifiesIff | internal/sieg/backup_verify.go:224-234 | A one-line log with a made-up hash verifies if and only if the hash does not have 96 characters. |
| HashChain.LegacyHashIsNotChecked | internal/sieg/backup_verify.go:224-234 | Any 64 characters pass as the hash of a line. |
| ChainWriter.LogFile.WriteNow | internal/sieg/storage.go:626-664 | One write numbers, links and hashes the event; it uses up a number if marshalling fails and none if the disk does. |
| ChainWriter.WrittenLogVerifiesIff | internal/sieg/storage.go:626-664 | Round trip of logger and verifier over every sequence of writes and failures: the file verifies if and only if no event that could not be marshalled precedes a written line. |
| ChainWriter.LineInOrderIff | internal/sieg/storage.go:626-664 | A written line is in order if and only if the counter agrees with the file and a `_hash` the event brought along makes no difference to the digest. |
| ChainWriter.UnmarshalledBreaksChain | internal/sieg/storage.go:626-640 | Two events with one in between that cannot be marshalled: the file does not verify. |
| Replication.HandleSyncEvents | internal/sieg/collector_listener.go:307-381 | The walk serves the files not skipped by date, and of those the events not skipped by time. |
| Replication.ServedIff | internal/sieg/collector_listener.go:307-381 | Exactly which events are served: without a watermark all; with one, those of files not dated before its day that are newer than it or carry no received_at. |
| Replication.MidnightIs | internal/sieg/collector_listener.go:352 | The day boundary is the multiple of a day at or just before the watermark. |
| Replication.ServesExactlyNew | internal/sieg/collector_listener.go:307-381 | If no file is dated before its events, exactly the events newer than the watermark are served. |
| Replication.DoSyncEventsPull | internal/sieg/collector.go:359-429 | What is written is what arrived and was taken; the mark becomes the newest time written and never falls. |
| Replication.KeptIff | internal/sieg/collector.go:397-413 | What is written is each event the store takes, as often as it came. |
| Replication.NewestAttained | internal/sieg/collector.go:399-417 | The new mark is the old one or the time of some event written. |
| Replication.MarkNeverDecreases | internal/sieg/collector.go:359-429 | The watermark never decreases in any run, whatever is cut, lost or not saved. |
| Replication.CutCovers | internal/sieg/collector.go:359-429 | A pull cut where nothing older is left behind adds exactly the events the raised mark covers. |
| Replication.OrderlyRunStaysInStep | internal/sieg/collector.go:359-429 | In orderly runs the replica holds exactly the source events up to the mark, with multiplicity. |
| Replication.ReplicatedExactlyOnce | internal/sieg/collector.go:359-429 | After any orderly run one complete pull has replicated every source event exactly once. |
| Replication.OvertakenIsLost | internal/sieg/collector.go:359-429 | An event the mark has overtaken is never replicated again. |
| Replication.PullLosesExactlyOvertaken | internal/sieg/collector.go:359-429 | In any state, wherever a pull is cut, whichever local writes fail and whether or not its mark is saved, an event it was to bring is served again if and only if it is newer than the mark it leaves. |
| Replication.NotServedIsLost | internal/sieg/collector.go:359-429 | An event that was not written and is not served again is in no later replica. |
| Replication.CutPullLosesTheOlder | internal/sieg/collector.go:359-429 | A source with a newer event before an older one: a pull cut in between loses the older one for good. |
| Enrolment.ServerConfig.AssignCollector | internal/sieg/collector.go:882-905 | The check-and-claim step on the configuration fields. |
| Enrolment.ServerConfig.AcceptNextCollector | internal/sieg/collector.go:1170-1193 | Opening is refused while the slot is held. |
| Enrolment.ServerConfig.RevokeCollector | internal/sieg/collector.go:1195-1217 | Revoking clears holder and flag together. |
| Enrolment.ServerConfig.ClearCollectorCN | internal/sieg/depart_handlers.go:174-183 | A departing collector frees only the slot it holds. |
| Enrolment.SlotIsOneShot | internal/sieg/collector.go:882-905 | In every interleaving the slot is never both held and open, and fills plus the open flag never exceed the openings. |
| Enrolment.NoDirectHandover | internal/sieg/collector_listener.go:613-636 | No step replaces one holder by another. |
| Enrolment.FillNeedsOpening | internal/sieg/collector_listener.go:613-636 | A new holder is the one that asked, and consumed an opening. |
| Enrolment.HoldersAreSeparated | internal/sieg/collector_listener.go:719-783 | Between two different holders the slot was empty at some point of the run. |
| Enrolment.FirstToAskHolds | internal/sieg/collector.go:882-905 | An open slot goes to the first party that asks and is saved, which keeps it however many ask afterwards; the others are told it is taken. |
| Enrolment.AnswersExactly | internal/sieg/collector.go:882-905 | For every slot, which answer a party gets, if and only if which case holds, and who holds the slot then. |
| Enrolment.ActionsAchieve | internal/sieg/collector.go:1170-1217 | A saved revoke leaves the slot empty and closed, a saved accept-next on a free one leaves it open, a departing holder frees it and nobody else does; what is not saved changes nothing. |
| Enrolment.CollectorConfig.AssignMaster | internal/sieg/collector_listener.go:613-636 | The check-and-claim step on the master slot, leaving the realm servers alone. |
| Enrolment.CollectorConfig.AcceptNextMaster | internal/sieg/collector_listener.go:738-760 | Opening is refused while a master is paired and idempotent while open. |
| Enrolment.CollectorConfig.RevokeMaster | internal/sieg/collector_listener.go:719-783 | Revoking, like disabling, clears holder and flag together. |
| Enrolment.CollectorConfig.AssignRealmServer | internal/sieg/collector_realm_server_enroll.go:195-216 | A realm server is added only with no master paired and the slot open, which it closes. |
| Enrolment.CollectorConfig.AcceptNextRealmServer | internal/sieg/collector_realm_server_enroll.go:238-250 | Opening is refused while a master is paired. |
| Enrolment.CollectorConfig.RevokeRealmServer | internal/sieg/collector_realm_server_enroll.go:272-297 | The in-place filter removes exactly the given name, and an unknown name is refused. |
| Enrolment.RealmServersAreGated | internal/sieg/collector_realm_server_enroll.go:195-298 | In every interleaving the list is free of duplicates and additions plus the open flag never exceed the accept-next calls. |
| Enrolment.ListGrowth | internal/sieg/collector_realm_server_enroll.go:195-216 | The list grows only by one entry, through an open slot and with no master paired. |
| Enrolment.ServerAnswersExactly | internal/sieg/collector_realm_server_enroll.go:195-216 | For every collector, which answer a realm server gets, if and only if which case holds, and what changes. |
| Enrolment.ServerComesAndGoes | internal/sieg/collector_realm_server_enroll.go:195-297 | A server that enrols and is revoked leaves the list as it was, and needs a new opening. |

## Left out

- RestoreTransaction.RestoreTx.WriteStagedEntry: writes regular files and directories; symbolic links, file modes and ownership are not modelled.
- RestoreTransaction.RestoreTx.PrepareStaging: covers separate layouts; `PlanStaging` covers the assignment of staging directories on all others.
- RestoreTransaction.RestoreTx.Restore: covers separate layouts; for overlapping ones `RestoreOverlap` and `RestoreOverlapCommit` settle rollback and commit as a relation between states.
- RestoreTransaction.RestoreTx.Commit: covers separate layouts, where no rename is impossible; `CompletesIff` says when that is so on all others.
- RestoreArchive.CommitDelivers: covers separate layouts; `CommitEffect` covers all others.
- RestoreOverlapCommit.CommitEffect: takes it that no tree of the archive holds the staging directory of a later tree, a name the restore makes up.
- RestoreTransaction.RestoreTx.Rename: takes a directory rename as all or nothing; the copy fallback of `safeRenameDir`, which can fail half-way, is not part of this model.
- RestoreTransaction.RestoreTx.Rollback: covers separate layouts, and takes removals and the rename back to succeed whenever they are possible; a refusal during rollback is not modelled.
- Windows path rules, relative destinations, `resolveRestoreTargets`, the archive header, the manifest and the mode guard of a restore.
- FrameStreams.FrameWriter.Write: errors of the underlying writer, and of the underlying reader on the other side, are not modelled.
- FrameStreams.FrameWriter.Close: the error return of the final flush is not modelled.
- FrameStreams.FrameWriter.FlushFrame: the writer errors that keep the buffer are not modelled.
- BundleUnpack.Unpacker.Unpack: missing ancestors of the destination directory are not tracked; the destination itself is.
- AES-GCM, PBKDF2, SHA-384, gzip, tar and JSON internals.
- Matchers.PositiveAgrees: set files are a fixed snapshot, so their periodic reload is not modelled; numbers are reals, so float rounding is not either.
- Time-of-day windows, rule parsing apart from match expressions, and the extra fields reported with an alert.
- Shipper.StepKeepsInv: takes the write of a spool file as one step, so a drain that reads a half-written file is not among the interleavings.
- Shipper.NoBatchLost: takes the write of a spool file as one step, so a half-written file that the server accepts and the drain then removes is not covered; assumes local storage and a disk that does not fail; encoding errors, the mode without local storage, the batching queue, the local mirror and the degraded and recovered markers are not modelled.
- HashChain.HeadDeterminesLog: asks for 96-character hashes in one of the two streams; other lengths are not recomputed by the verifier.
- ChainWriter.WrittenLogVerifiesIff: takes events without a `_hash` of their own, as the ingest handler leaves them, fewer than 2^53 writes, and a digest that does not depend on how a number was written; rotation, which starts a new chain, and recovery of the counter from disk are not modelled.
- Storage rotation, master and realm synchronisation, and the writing of master events.
- HTTP, TLS, certificates and pre-shared keys; only the configuration transition of each handler is modelled.
- Host collectors, the command line, display and certificate expiry: shallow or platform plumbing.
