# respawn, verified

A Dafny model of respawn: a content-addressed store of snapshots with revert, surgical undo,
purge, replication and a signed audit chain. The model follows the code branch by branch and
proves what its documentation promises; where the code and the documentation part ways, the
model follows the code and the theorem states exactly when the promise holds.

Check everything with `dafny verify dfyconfig.toml`.

## How the model is built

- **State.** `Store` holds objects, manifests, HEAD and tombstones; `Worktree` maps places (lists
  of names) to bytes, with the invariant that a file is never a directory. Both are classes whose
  methods are the source's atomic disk steps. A ghost `trail` lists every state the disk has passed
  through, so a clause about the whole trail is a clause about every crash point. On a `faulty`
  disk any write may fail.
- **Code that works step by step is a method with a loop**, proved against a reading of the source
  that has no loop: surgical undo against `UndoneTo` and `UndoneList`, `apply` against `Applied`,
  `purge::run` against `Purges`, drift detection against `Reports`, the frame readers against
  `ReadFrame` and `ReadPlain`, `serve_conn` against `Conversation`. The theorems are lemmas about those
  readings. Directory walks and hash maps are visited in any order, ordered sets in ascending order.
- **Definitions that code and contract share are pinned.** Predicates of contracts are ghost and spell out
  names, sizes and bytes; the code has its own functions and constants, proved to agree with them. Pure
  functions that are both code and vocabulary (path splitting, byte order, encodings, frame readers, anchor
  and certificate checks) have a lemma or a contract that says what they mean without mentioning them.
- **Success is part of the contract.** On a sound disk `apply`, the drift gate, the removal pass,
  `revert --actor`, snapshots, `list`, `tip`, anchors and pulls from a smooth peer succeed if and only if
  a condition on the state before holds; a guard run's condition also speaks of the manifest it
  recorded, and `Calm` is a sufficient one that does not.
- **Uninterpreted.** BLAKE3, JSON, hex, ed25519, the Noise cipher, the pattern syntax of
  `.fabricignore` and FastCDC's cut point (clamped to its size limits) are constants about which
  nothing is known. What a theorem needs of them stands in its `requires`: `CollisionFree`,
  `ManifestRoundTrip`, `Binding`, `Encodings`, `ClaimRoundTrip`, `Aead`, `Authentic`. That a hash is 32
  bytes on the wire is asked for, by `Coded`, only of the hashes a peer's disk mentions, which
  collision freedom allows.
- **Nondeterminism** stands for what the model cannot see: the guarded command may leave any tree, a
  peer may answer anything, and whatever writes among the store's own files may leave anything there.

| files | source |
|---|---|
| Core, Ordering, Paths, Worktree, Storage | lib.rs, store.rs, part of snapshot.rs |
| Undo, UndoTheorems, Surgical | `revert::surgical_manifest` and `revert --actor` |
| Snapshots, Drift, Revert, RevertTheorems, Guard | snapshot.rs, drift.rs, revert.rs, guard.rs |
| History, Purge, Lifetimes | `snapshot::list`, purge.rs, whole runs |
| LittleEndian, Wire, Sync, SyncTheorems | sync.rs |
| Audit, Anchor | audit.rs, anchor.rs |
| Secure, Streams, Serve | secure.rs, `serve_conn` |
| Calendar | `days_to_ymd` |

## Where the code does less than its words

- Surgical undo promises that later work by other actors on a path survives (src/revert.rs:282-283). It
  counts every path *present* in an actor's snapshot as bytes the actor had there, changed or not
  (src/revert.rs:332-335), so such work is lost when the actor had the same bytes there before:
  `LaterWorkIsLost` is such a history, `OthersWorkSurvives` the exact condition.
- A deletion by somebody else never removes the fallback (src/revert.rs:344-353). So a path deleted by
  others comes back: `ComesBackIff`, `DeletionByOthersIsUndone`, and the condition in
  `UndoOfTailRestores`.
- `validate` promises to reject what `create` could not have produced, but lets through duplicate
  paths, interior dots and the excluded places, `.git` and the store's own files among them
  (src/snapshot.rs:84-109, src/lib.rs:136). With duplicates the undone list is not strictly sorted,
  exactly under the condition in `UndoneListMeans`. A revert is exact if and only if the manifest lists
  its places under the names a walk prints: `RevertIsExact`, `DottedPathIsLost`. It leaves the store
  alone if and only if every entry placed there says what is there already: `FabricLeftAlone`,
  `FabricPathsAreAdmitted`. Chains with duplicates that stay: `DoubledStays`, `DoubledHistoryAdmitted`.
- `validate` also lets through "a/" and "a/." for the place a (src/lib.rs:127-142), strings that the
  system never takes for a file. `apply` always fails on them (`SlashedPathIsNeverWritten`),
  `revert --actor` stops where such a path is dropped and the file stands (`StopsAtSlashedName`), and a
  purge under such a name does not find the file (`SlashedPurgeSparesFile`).
- Nothing keeps `purge` and the removal pass of `revert --actor` out of the fabric directory
  (src/purge.rs:213-218, src/main.rs:402-416). Any file of the store can be purged, HEAD and the
  tombstones too (`FabricIsPurgeable`), and pulled snapshots can make the undo take one
  (`FabricIsTaken`). The store's files are left alone if and only if the purged path is no existing file
  of the fabric (`PurgeLeavesFabricAlone`), and if no dropped path denotes one and what is written there
  is there already (`UndoLeavesFabricAlone`). What the contracts say of the store afterwards, tombstones
  included, stands under these conditions.
- The removal pass of `apply` ignores `.fabricignore`, drift detection and snapshots obey it
  (src/revert.rs:177-202, src/drift.rs:92); excluded places are written by `apply` and looked at by
  nobody. Unforced reverts are reversible if and only if no file is ignored and the target changes no
  excluded place: `UnforcedRevertIsReversible`; HEAD always fits over what was applied: `WayBackFits`.
  A guard run puts the tree back if and only if its
  snapshot left nothing out: `RestoredSnapshot`.
- A guard run cannot restore its snapshot over whatever the command wrote (src/guard.rs:56-57): it can
  if and only if no recorded file has become a directory and no directory of a recorded file has become
  a file: `SnapshotFits`, `SnapshotApplies`.
- Snapshots skip tombstoned files, drift detection reports them: `DriftIsDiff`.
- `revert --actor` can fail when it has rewritten the tree already (src/main.rs:402-416). Dropped paths
  are unlinked in ascending order, and each must have no file above it that is still there: the pass
  gets through if and only if every file above a dropped path is itself dropped, by a path that comes
  first, and for plain paths the order takes care of itself (`PassIff`, `PlainPathsClear`). It stops
  where the actor put a directory in the place of somebody else's file and put the file back
  (`StopsBelowFile`), and gets through when the file was the actor's own (`OwnFileClears`).
- The snapshot that ends `revert --actor` is to let HEAD track the undone tree (src/main.rs:417). It
  records the virtual manifest's contents if and only if nothing is ignored in that tree
  (`UndoneTreeRecorded`); the undo may bring an ignore file back (`UndoneTreeIgnores`).
- Removing what the actor created after an apply with keep_extra is not always what a plain revert to
  the virtual manifest does: `KeepExtraThenRemove` has the condition.
- With `full`, `touched` lists every unchanged file, not the files whose metadata changed
  (src/drift.rs:107-119); without it, a modification that keeps size and time is missed: `Detect`.
- A pull stores a manifest before its objects and stops at the first stored manifest
  (src/sync.rs:311-336), so a second pull does not repair the first: `PullDoesNotRepair`, and the
  condition in `PullFromCompletePeer`.
- A snapshot stores chunks before it looks at content tombstones (src/snapshot.rs:328-338), and a
  tombstone speaks of a path and a whole content. So a purged chunk returns to the store exactly when a
  file that is opened is cut into it, and a new manifest names it exactly when such a file is recorded:
  `ChunkReturnsIff`. The purged path and content themselves stay away: `PurgedStaysPurged`.
- A purge buries one content, the live file's or the newest recorded one (src/purge.rs:126-147). Other
  bytes that the path once held are recorded under another name as if nothing had happened:
  `OlderBytesReturn`.
- `verify_cert` promises that the chunks a certificate claims to have removed are absent
  (src/purge.rs:270-272); it looks for the tombstone only, so the certificate verifies with such chunks
  back in the store: `CertOutlivesPurge`, `CertOutlivesChunks`.
- A purge goes by the path string it is given (src/purge.rs:123-124, src/purge.rs:142). Under a name no
  walk prints it takes the file from the tree and no chunk of it from the store: `PurgeByAnotherName`.
- `tip` does not check the chain it summarises (src/audit.rs:121-140), so an anchor can checkpoint a
  corrupt log: `BrokenLogAnchored`. It binds the log if and only if the log was valid or no log at all is
  accepted: `ParsableLogBinds`.
- An anchor file and the fabric's memory of it are two writes (src/anchor.rs:228-235). An anchor cut off
  in between is no part of the series: `CutMintFallsOut`.
- An audit entry and its newline are two writes (src/audit.rs:69-71). An entry cut off in between takes
  the next one with it: `CutRecordSpoilsTheNext`.

## Model

| member | source | states |
|---|---|---|
| Undo.PreTouchNeverNeeded | src/revert.rs:312-371 | when a path existed before the actor first touched it, an entry that is somebody else's is on record already, so the pre-touch fallback never decides |
| Undo.FallbackUnique | src/revert.rs:363-371 | the newest entry of others that is not the actor's bytes is one entry, whatever order maps are visited in |
| Undo.Collect | src/revert.rs:323-324 | collecting a file list into a map keeps the last entry of every path |
| Undo.ReplayPresent | src/revert.rs:326-336 | paths the actor's snapshot holds: touched exactly when the content differs from the snapshot before, first pre-touch entry kept, every content held is on record |
| Undo.ReplayAbsent | src/revert.rs:337-343 | paths the actor's snapshot dropped become touched, first pre-touch entry kept |
| Undo.ReplayOther | src/revert.rs:344-354 | after every entry of somebody else's snapshot, the effective entry of each path is the newest foreign one so far |
| Undo.Replay | src/revert.rs:312-356 | the five-map fold over the whole chain computes the declarative touched set and fallback of every path, and a non-empty pre-touch entry always has an effective one beside it |
| Undo.RebuildHead | src/revert.rs:373-382 | HEAD's entries with touched ones replaced or dropped; the pre-touch branch of the resolution makes no difference |
| Undo.Rebuild | src/revert.rs:363-394 | the rebuilt list is HEAD's entries kept, replaced or dropped and what HEAD lacks, in ascending byte order of the paths, in whatever order the touched paths are visited |
| Undo.UndoneListMeans | src/revert.rs:373-394 | the list ascends by path in byte order (of two paths the first is the beginning of the second or has the smaller character where they part), gives each path exactly what the per-path reading owes it, and is strictly sorted if and only if HEAD names no path twice that is untouched or has a fallback |
| Ordering.SortByPath | src/revert.rs:394 | a permutation of the entries in ascending byte order of their paths |
| Ordering.SortLastAt | src/revert.rs:394 | sorting is stable: the last entry of each path stays the last |
| Ordering.SortEntriesAt | src/revert.rs:394 | sorting is stable: the entries of each path keep their order |
| Ordering.InOrder | src/revert.rs:384-398 | iterating over an ordered set visits each path once, each before those that follow it in byte order: it begins them or has the smaller character where they part |
| Ordering.LessMeans | src/revert.rs:394 | one string is less than another if and only if they differ and it begins the other or has the smaller character at their first difference |
| UndoTheorems.UndoDeterministic | src/revert.rs:312-398 | every chain has one undone list, also when HEAD names paths twice: hash-map order cannot show |
| UndoTheorems.DoubledStays | src/revert.rs:373-394 | for every path and any contents, a history whose undone list names the path twice |
| UndoTheorems.UndoIdempotent | src/revert.rs:322-398 | after any non-actor snapshot with the undone contents, undoing the same actor again touches the same paths, and yields the same contents if and only if the snapshot masks no touched path; one that names each path once masks none |
| UndoTheorems.OthersWorkSurvives | src/revert.rs:280-287 | the newest work of others on a touched path survives the undo if and only if the actor did not have those bytes there before, or they are what the path falls back to anyway |
| UndoTheorems.LaterWorkIsLost | src/revert.rs:332-335 | five snapshots in which another actor's last write is undone although the actor never wrote those bytes |
| UndoTheorems.UndoOfTailRestores | src/revert.rs:312-394 | when the actor works last, undo gives the contents of the last snapshot before it for every path, if and only if every touched path others ever recorded is in that snapshot |
| UndoTheorems.ComesBackIff | src/revert.rs:385-393 | a path missing from HEAD comes back if and only if the actor touched it and an entry of somebody else's is on record, no matter who deleted it |
| UndoTheorems.DeletionByOthersIsUndone | src/revert.rs:344-353 | three snapshots in which another actor's deletion is resurrected |
| Paths.SanitizeGood | src/lib.rs:127-142 | every accepted path denotes plain names only: no dot, dot-dot, separator or NUL |
| Paths.SanitizeMeans | src/lib.rs:127-142 | exactly the relative paths of at most 1024 characters without NUL or backslash are accepted that do not start with a dot component and have no dot-dot component; they denote the components that are neither empty nor a dot |
| Paths.SplitMeans | src/lib.rs:127-142 | a path's pieces are the one list of strings without separators that joins to it |
| Paths.EndsInNameMeans | src/revert.rs:143-169 | a string can be a file's if and only if it is neither empty nor a dot and ends neither in "/" nor in "/." |
| Paths.IsExcluded | src/snapshot.rs:162-167 | a place is excluded if and only if one of its components is `.respawn`, `.git` or `.DS_Store` |
| Paths.SanitizeJoin | src/lib.rs:127-142 | the path string of a place denotes that place again, unless it is too long |
| Paths.SlashedPath | src/lib.rs:127-142 | a path string with "/" or "/." behind it is accepted, denotes the same place, and is none the system takes for a file |
| Paths.JoinInjective | src/lib.rs:127-142 | two places have the same path string only when they are the same place |
| Worktrees.Worktree.Replace | src/revert.rs:143-169 | rename over the destination is one step: the whole new file or the old tree |
| Storage.Validate | src/snapshot.rs:84-109 | succeeds exactly on manifests with a known version, within the file and chunk caps, with safe paths and no bytes without chunks |
| Storage.ReadObject | src/store.rs:144-170 | bytes read from any store, corrupted or not, hash to the name asked for and are within the chunk bound |
| Storage.AssembleMonotone | src/revert.rs:151-157 | a chunk list that can be read stays readable, with the same bytes, in every larger store |
| Storage.Store.PutObject | src/store.rs:113-125 | stores under the content's own hash, changes nothing else, and leaves an existing object alone |
| Storage.Store.PutObjectAs | src/store.rs:129-138 | bytes that do not hash to the claimed name are refused and change nothing |
| Storage.Store.PutManifest | src/store.rs:177-188 | stores a manifest under its own hash and changes nothing else |
| Storage.Store.PutManifestAs | src/store.rs:191-197 | manifest bytes that do not hash to the claimed id are refused and change nothing |
| Storage.Store.SetHead | src/store.rs:232-238 | HEAD is swapped in one step or not at all |
| Storage.HeadChain | src/revert.rs:291-303 | returns HEAD's ancestry, oldest first, if and only if there is one of at most 2,000,001 snapshots that all load |
| Storage.ChainUnique | src/revert.rs:291-303 | a stored head has one ancestry |
| Snapshots.ChunkCount | src/snapshot.rs:208-220 | a file has at most one chunk more than the minimal chunk size goes into it |
| Snapshots.PieceLength | src/cdc.rs:10-40 | a chunk ends at the cut point where that is between 16 KiB and 256 KiB, else at the limit or the end of the file |
| Snapshots.ContainsMeans | src/snapshot.rs:319-321 | a pattern hits a path if and only if it stands somewhere in it |
| Snapshots.ChunksAssemble | src/snapshot.rs:208-220 | where all its chunks are stored, cutting and reading back a file is the identity |
| Snapshots.ChunkFile | src/snapshot.rs:208-220 | stores exactly the file's chunks, one after the other, and returns its content hash, chunk list and size; nothing else comes to the store at any crash point |
| Snapshots.CaptureOne | src/snapshot.rs:311-354 | one file is recorded exactly when no component of its path is `.respawn`, `.git` or `.DS_Store`, no pattern of `.fabricignore` stands anywhere in the path and neither path nor content is tombstoned, with its own size, time, content and chunks; its chunks are stored first, even when the content turns out to be tombstoned; on a sound disk only a path that is too long makes it fail |
| Snapshots.CaptureAll | src/snapshot.rs:293-355 | the walk records exactly the files just described, one entry each, all chunks present, and stores exactly the chunks of the files it opened; on a sound disk it fails exactly on a path that is too long |
| Snapshots.Create | src/snapshot.rs:286-387 | the manifest records exactly the files that have none of the three names among their components, are hit by no pattern and are not tombstoned, names the old HEAD as parent and becomes HEAD last; exactly the chunks of the opened files arrive; every earlier crash point has HEAD unmoved and, at most, new objects and then the manifest with all its chunks; on a sound disk it succeeds if and only if every path fits |
| Snapshots.Commit | src/snapshot.rs:383-386 | the manifest is stored before HEAD moves, and every state in between is one of the two |
| Snapshots.CreateKeepsHeadSound | src/snapshot.rs:286-387 | at every crash point HEAD names a stored manifest whose chunks are all present |
| Snapshots.RecordedRestores | src/snapshot.rs:293-355 | every file of a recorded tree can be rebuilt from any intact store that has the manifest's chunks |
| Drift.Detect | src/drift.rs:59-135 | added and deleted are exact; modified and touched are exactly the changed and unchanged files among those rehashed, and a file is not rehashed exactly when full is off and both its size and its time are the recorded ones; nothing with `.respawn`, `.git` or `.DS_Store` among its components is added, modified or touched |
| Drift.CompareFile | src/drift.rs:92-120 | one file of the walk goes to the right list and to no other |
| Drift.DiffManifests | src/snapshot.rs:447-473 | added, modified and deleted are the three ways two manifests can differ at a path |
| Drift.DriftIsDiff | src/drift.rs:59-135 | full drift equals the diff of a fresh snapshot against HEAD if and only if no tracked file is tombstoned |
| Revert.ResolveDest | src/revert.rs:55-88 | a resolved destination is the sanitized place and no ancestor of it is a file |
| Revert.ReadChunks | src/revert.rs:150-157 | reading chunk by chunk yields the assembled bytes or the first failure |
| Revert.RestoreOne | src/revert.rs:123-172 | on success the file holds bytes that hash to the entry's content and nothing else changed, rewritten exactly when it did not match before; on failure the tree is as before; on a sound disk it succeeds if and only if the place is safe and free, the string can be a file's, and the file matches or can be rebuilt |
| Revert.RestoreAll | src/revert.rs:118-172 | on success the old tree overridden by the manifest, which did fit over it and names no path that cannot be a file's; every file that is new or changed is reported; at every crash point each file is old, or whole and the manifest's; on a sound disk and outside the store's own files it succeeds if and only if everything fits, has a file's name and can be rebuilt in its turn |
| Revert.RemoveExtra | src/revert.rs:177-202 | removes exactly the files that are neither excluded nor listed, and reports exactly those: whatever has `.respawn`, `.git` or `.DS_Store` among its components stays, and of the rest, unless extras are kept, only listed paths are left |
| Revert.Apply | src/revert.rs:92-206 | success means the exact resulting tree and exact lists of rewritten and removed files, never with purged or invalid manifests or names that cannot be a file's, and only where the manifest fits; a file with `.respawn`, `.git` or `.DS_Store` among its components that no entry denotes keeps its bytes, and of the rest, unless extras are kept, only listed paths are left; every crash point is torn only between files; on a sound disk and outside the store's own files success is exact; the store is only read unless the manifest names its files |
| Revert.CheckThenApply | src/revert.rs:239-275 | refuses exactly when not forced and the tree disagrees with HEAD, and then changes nothing; otherwise applies, which on a sound disk and outside the store's own files succeeds exactly when HEAD loads and the manifest is admitted, fits, has only files' names and can be rebuilt |
| RevertTheorems.RevertIsExact | src/revert.rs:119-202 | after a revert without keep_extra the tree holds the manifest and nothing else, if and only if the manifest lists its places under canonical names |
| RevertTheorems.DottedPathIsLost | src/snapshot.rs:80-109 | every manifest naming b in a with a superfluous dot is valid and is lost by the revert that writes it |
| RevertTheorems.ManifestsAreShaped | src/snapshot.rs:298-355 | a manifest made by create has distinct, canonical, non-excluded paths |
| RevertTheorems.UnforcedRevertIsReversible | src/revert.rs:237-275 | from a tree the gate found clean, for any HEAD that validates and any target, an applied revert followed by an applied revert to HEAD gives back every original byte, if and only if no file is ignored and the target changes no excluded place |
| RevertTheorems.WayBackFits | src/revert.rs:237-275 | from a clean tree, whatever was applied, HEAD fits over the result, and can be restored if and only if each of its contents is in place or can be rebuilt |
| RevertTheorems.FabricLeftAlone | src/revert.rs:119-172 | a revert leaves the files of the fabric directory alone if and only if every entry placed there says what is there already |
| RevertTheorems.FabricPathsAreAdmitted | src/snapshot.rs:84-109 | every manifest naming a file directly inside the fabric directory passes validation |
| RevertTheorems.SlashedPathIsNeverWritten | src/revert.rs:119-167 | for every place, manifests that name it with "/" or "/." behind it pass validation and can be restored over no tree from no store |
| RevertTheorems.SnapshotIsRestorable | src/revert.rs:92-206 | a fresh snapshot within the caps is accepted, can be restored over its own tree and writes nothing into the store |
| Guard.RestoredSnapshot | src/guard.rs:58-103 | whatever the command left, applying the snapshot gives back the earlier tree outside the excluded names, if and only if the snapshot left no file out |
| Guard.SnapshotFits | src/revert.rs:123-169 | a snapshot fits over whatever the command left, if and only if no captured place and no file left are proper prefixes of each other |
| Guard.SnapshotApplies | src/guard.rs:88-103 | over the tree the command left, the loaded snapshot is admitted, can be rebuilt and fits, if and only if no recorded file was swapped with a directory |
| Guard.FinishableIff | src/guard.rs:86-103 | with the snapshot in the store, the part after the command ends well if and only if the snapshot loads and, for a revert, nothing was swapped |
| Guard.Finish | src/guard.rs:86-103 | with whatever snapshot is loaded: the report, a revert always, never, or on failure exactly when the command failed, as the policy says, the tree it leaves and where HEAD ends, with exact success |
| Guard.Run | src/guard.rs:58-126 | under Never nothing is reverted and the tree is the command's, under Always it is reverted, under OnFail if and only if the command failed; unless the command wrote among the store's own files, HEAD ends on the snapshot of the guard, the drift report is the one of the tree the command left, a reported revert has put the tree back under the exact condition above, and on a sound disk the run succeeds if and only if the command started, the tree can be recorded, the snapshot loads and, for a revert, nothing was swapped; a command that never started moves neither tree nor HEAD |
| Surgical.SurgicalManifest | src/revert.rs:288-400 | on the stored HEAD chain: HEAD's manifest with the undone file list, which ascends by path in byte order and owes each path what the per-path reading says, together with exactly the touched paths, in ascending byte order; it succeeds exactly when the actor touched something in a history that can be walked |
| Surgical.RemoveTouched | src/main.rs:402-416 | exactly the touched paths missing from the virtual manifest are unlinked, in order, and the number of files is returned; on a sound disk it succeeds if and only if every file above such a path, or at it when the string cannot be a file's, was removed before it; the store is untouched when no removed path is a file of its own |
| Surgical.PassIff | src/main.rs:402-416 | the removal pass gets through if and only if every file that keeps a dropped path from being looked up is dropped too, by an earlier path |
| Surgical.PlainPathsClear | src/main.rs:402-416 | for plain paths the order takes care of itself: the pass gets through if and only if every file above a dropped path is dropped too |
| Surgical.AboveComesFirst | src/main.rs:402-403 | a place's path string begins with, and so comes after, those of all places above it |
| Surgical.StopsBelowFile | src/main.rs:402-416 | histories, for all names and contents, with trees that match HEAD, in which the undo can be laid over the tree and changes it, and the removal pass then cannot get through |
| Surgical.StopsAtSlashedName | src/main.rs:402-416 | the same where the dropped path differs from the file's by "/" or "/." behind it |
| Surgical.OwnFileClears | src/main.rs:402-416 | the same history with a file of the actor's own, in which it does get through |
| Surgical.KeepExtraThenRemove | src/main.rs:381-416 | on a tree that matches HEAD, applying with keep_extra and then removing touched paths leaves what applying without keep_extra does, if and only if no dropped path hits a file a plain revert would spare and every file it would take without drift detection knowing it is dropped |
| Surgical.UndoLeavesFabricAlone | src/main.rs:385-416 | the undo leaves the files of the fabric directory alone if and only if no dropped path denotes one that is there and every entry written there says what is there already |
| Surgical.FabricIsTaken | src/main.rs:402-416 | for every file of the fabric, a history of admitted snapshots and a tree matching HEAD in which the undo writes nothing, gets through and takes that file |
| Surgical.DoubledHistoryAdmitted | src/snapshot.rs:84-109 | snapshots that name a path twice pass validation |
| Surgical.OrderlyUndo | src/main.rs:385-423 | in a history of created snapshots and on a clean tree with nothing ignored, the command leaves what a plain revert would, and the snapshot it takes records the virtual manifest's contents if and only if nothing is ignored in the tree that is left |
| Surgical.ApplyUndone | src/main.rs:385-416 | gate, apply with keep_extra and removal together put the virtual manifest over the tree, less the dropped paths; on a sound disk and with nothing written among the store's own files they get through if and only if the gate is open, the virtual manifest can be applied and the dropped paths clear in order; the store is untouched unless its files are written or taken |
| Surgical.UndoOnDisk | src/main.rs:385-416 | from the stored history to the undone tree, with the exact condition for success on a sound disk and the store untouched unless its files are written or taken |
| Surgical.UndoneIsShaped | src/revert.rs:373-394 | undoing in a chain of created snapshots yields a list a create could have made |
| Surgical.UndoneTreeRecorded | src/main.rs:417-423 | the snapshot taken afterwards records the virtual manifest's contents if and only if nothing is ignored in the undone tree |
| Surgical.UndoneTreeIgnores | src/main.rs:417-423 | a history whose undo brings an ignore file back beside a file it hides, so that something is ignored in the undone tree |
| Surgical.RevertActor | src/main.rs:380-428 | the whole command: the tree ends undone; unless the store's own files are written or taken, HEAD records the tree with the old HEAD as parent, and on a sound disk the command succeeds if and only if the actor touched something, the way is open and the tree that the undo leaves can be recorded |
| Surgical.UndoneTwice | src/main.rs:380-428 | running the command again finds the same touched paths and the same contents |
| History.SortNewestFirst | src/snapshot.rs:430 | newest first, a permutation of the distinct snapshots |
| History.List | src/snapshot.rs:391-432 | lists every loadable snapshot exactly once with its manifest, newest first, if and only if HEAD's ancestry loads as far as it can be walked |
| Purge.ScanManifest | src/purge.rs:140-158 | chunks named at the path, chunks named elsewhere, one more snapshot touched, first content kept |
| Purge.ScanHistory | src/purge.rs:139-159 | the same over all snapshots; the content is the live file's, else the newest snapshot's |
| Purge.SweepChunks | src/purge.rs:172-189 | deletes the unshared chunks and no others at every crash point, and counts exactly the removed and the retained ones |
| Purge.SweptCounts | src/purge.rs:172-189 | removed, retained and already absent chunks are counted exactly and sum to the chunks of the path |
| Purge.HoldersCounted | src/purge.rs:36-59 | the count of touched manifests is the number of snapshots that hold the path |
| Purge.Survey | src/purge.rs:122-167 | finds the content to bury (a live file only under a name that can be a file's), the chunks named at the path and elsewhere and the snapshots that hold it, and refuses nothing that can be purged |
| Purge.UnlinkLive | src/purge.rs:213-218 | removes the live file, if this very name denotes one, and says so; the store is untouched unless that file is one of its own |
| Purge.Erase | src/purge.rs:122-218 | everything but the certificate: true counts and the live file gone; unless that file is one of the store's own, exactly the chunks no other path names are gone and one tombstone came after all of them; every crash point before that unlink has lost only doomed chunks; what can be purged is |
| Purge.Certify | src/purge.rs:220-258 | signs, then appends to the log: the certificate reads as a claim with this path, content, fabric, time, the counts one by one and the log's next number and last hash, and its signature verifies under the key; fails exactly without the key or on an unparsable log line |
| Purge.Run | src/purge.rs:122-268 | a finished purge is the erasure above with, unless it hit the store's own files, a certificate that verifies under the key and reads as a claim whose removed, retained and touched counts are those of the disk before, with the log's next number and last hash; every crash point before such a hit has lost only doomed chunks; what can be purged is, given the key and a log that parses |
| Purge.PurgeLeavesFabricAlone | src/purge.rs:213-218 | a purge leaves the files of the fabric directory alone if and only if its path denotes no existing one |
| Purge.FabricIsPurgeable | src/purge.rs:122-218 | every file of the fabric directory that is not tombstoned can be purged, and is gone then |
| Purge.SlashedPurgeSparesFile | src/purge.rs:127-131 | under a name with "/" or "/." behind it the live file is neither found nor removed |
| Purge.CertOutlivesPurge | src/purge.rs:271-323 | the certificate verifies in a later state if and only if the tombstone is still there, as it is when tombstones are only appended, the fabric is its own, and no other signer is pinned |
| Purge.VerifyCert | src/purge.rs:271-323 | a certificate is accepted if and only if format and kind are the known ones, it is of this fabric and of the pinned signer, its signature verifies, and a tombstone bears out path and content |
| Lifetimes.RunsLoseNothing | src/purge.rs:170-189 | over every run of snapshots, purges that spare the store's own files, pulls and moves of HEAD, each finished or cut off anywhere, every file of every loadable snapshot can be rebuilt, unless its path was purged, a purge of it was cut short while the snapshot was there, or the pull that brought the snapshot was |
| Lifetimes.OtherPathsStay | src/purge.rs:170-189 | a purge, finished or cut off anywhere, leaves every file at another path as it was, as long as it has not unlinked a file of the store's own |
| Lifetimes.PurgedStaysPurged | src/snapshot.rs:320-338 | after a purge no later snapshot of a run names the path or the content, and apply never admits a manifest that does; no step of a run reaches the store's own files |
| Lifetimes.OlderBytesReturn | src/snapshot.rs:328-338 | after a purge a tracked file is recorded if and only if it has neither the purged path nor the one purged content and was not tombstoned before: older bytes of the path return under another name |
| Lifetimes.ChunkReturnsIff | src/snapshot.rs:320-338 | a chunk that is gone returns with a snapshot if and only if a file that is opened is cut into it, and the new manifest names it if and only if such a file is recorded |
| Lifetimes.CertOutlivesChunks | src/purge.rs:270-323 | after any snapshot the certificate still verifies, while a chunk it counts as removed is back if and only if a file that was opened is cut into it |
| Lifetimes.PurgeByAnotherName | src/purge.rs:122-189 | a purge under a name with a superfluous dot denotes the file's place and removes no chunk, whatever snapshots there are |
| Lifetimes.TombstonesStay | src/purge.rs:191-212 | over a run, no step of which reaches the store's own files, tombstones are only ever appended |
| LittleEndian.RoundTrip | src/sync.rs:47-52 | decoding an encoded number gives it back |
| LittleEndian.LE32Canonical | src/secure.rs:47-66 | four bytes are the encoding of the number they spell |
| LittleEndian.LE32Means | src/sync.rs:91-92 | the bytes of a 32-bit length are the four that add up to it, the low one first |
| LittleEndian.LE64Means | src/sync.rs:47-52 | the bytes of a 64-bit length are the eight that add up to it, the low one first |
| Wire.PayloadOfSized | src/sync.rs:54-65 | the bounds-checked reader returns what the responder put behind a length |
| Wire.PayloadMeans | src/sync.rs:54-65 | the bounds-checked reader returns a payload if and only if the frame begins with its 64-bit length and itself |
| Wire.RequestBytes | src/sync.rs:321-359 | the requests are the opcodes 2, 3 and 4 with a hash, a 32-bit count and that many hashes, and a hash |
| Wire.ResponderMeans | src/sync.rs:72-112 | any frame: opcode 1 gets HEAD, 2 and 4 are answered exactly at 33 bytes, 3 exactly when its length is that of the hashes it counts, anything else is refused |
| Wire.RespondsManifest | src/sync.rs:80-90 | a manifest request is answered with the stored bytes, or with none |
| Wire.RespondsObject | src/sync.rs:103-109 | an object request is answered with verified bytes, or with none |
| Wire.RespondsHave | src/sync.rs:91-102 | a HAVE request for any number of hashes is answered truthfully, hash by hash |
| Sync.FetchManifest | src/sync.rs:321-333 | only bytes that hash to the id asked for are stored, one more manifest at most |
| Sync.Walk | src/sync.rs:306-349 | whoever the peer is: the store only grows, at most 100,000 manifests arrive, the cycle guard is dead code, and on success everything visited loads, its parents are stored and all its chunks are on the list; from a smooth peer it succeeds if and only if the way to the first stored manifest is within both caps |
| Sync.AskHave | src/sync.rs:355-372 | the peer's answer to a batch has one byte a hash, and an understood peer's is true hash by hash |
| Sync.FetchBatch | src/sync.rs:355-385 | one HAVE exchange: fetched and skipped add up, every chunk of the batch is stored or was denied, and nothing but chunks of the batch is stored |
| Sync.FetchAll | src/sync.rs:351-385 | the same over any batching: nothing but wanted chunks is stored |
| Sync.PullFrom | src/sync.rs:303-391 | from the head on: growth, caps, exact counts and only needed chunks for any peer; from an honest, complete, reliable one it succeeds if and only if the way from head to the first stored manifest has at most 100,000 manifests naming at most 8,000,000 chunks, repetitions included |
| Sync.Pull | src/sync.rs:284-392 | the same including the HEAD exchange; local HEAD and earlier entries never change, only what is needed arrives, the report's counts are exact, and so is success with a smooth peer |
| SyncTheorems.PullFromCompletePeer | src/sync.rs:284-392 | from an honest peer whose manifests have their chunks, everything that arrives is complete, and the store ends closed under parents and chunks if and only if what it had before is closed with the help of what came |
| SyncTheorems.PulledRestores | src/sync.rs:284-392 | pulled from a peer that can rebuild its own files, every new file can be rebuilt here |
| SyncTheorems.PullDoesNotRepair | src/sync.rs:311-314 | when the peer's head is stored already a pull changes nothing, whatever is missing below it |
| Audit.NextLinkOfValid | src/audit.rs:46-54 | on a valid log the next entry's number is the number of entries and its predecessor the last hash |
| Audit.AuditLog.Record | src/audit.rs:42-73 | one entry is written that continues from the last line that parses and carries the hash of its own body, behind whatever the last line holds, and its newline after it unless cut off; the log is valid afterwards exactly when it was before and the entry had a line to itself |
| Audit.CutRecordSpoilsTheNext | src/audit.rs:69-71 | an entry without its newline reads well until the next entry shares its line, and then both are lost |
| Audit.AuditLog.Verify | src/audit.rs:87-116 | reports valid exactly for valid logs, with the number of entries; otherwise the count is the length of the valid part and the first bad number is the one that line carries |
| Audit.AuditLog.Tip | src/audit.rs:121-140 | fails exactly on an unparsable line, and gives the last entry's successor number and hash |
| Audit.AuditLog.TipIsPrefix | src/audit.rs:148-194 | succeeds exactly when nothing is covered or the first entries are a valid chain ending in the tip, whatever follows them |
| Anchor.Fabric.Create | src/anchor.rs:203-239 | writes a file that checks out under the fabric's key and signs number, tip, HEAD and previous anchor of the moment, except for destinations inside the fabric, a missing key and an unparsable log, and then remembers its hash unless cut off in between |
| Anchor.Fabric.Verify | src/anchor.rs:349-382 | accepts exactly files within 4 MiB that read as an anchor of the known format, signed by the key they name, with a payload of the known kind and version 1, of this fabric, whose key is the expected one but for the case of letters, and whose tip is still a valid prefix of the log; reports what was signed |
| Anchor.VerifyLink | src/anchor.rs:384-408 | a link holds if and only if both files are well-formed signed anchors and the later one signs the hash of the earlier one's bytes |
| Anchor.ReadAnchor | src/anchor.rs:290-347 | a file is read as an anchor if and only if it is within 4 MiB, of the known format, signed by the key it names, and its payload is of the known kind and version |
| Anchor.LowerMeans | src/anchor.rs:353-359 | keys compare equal if and only if they differ at most in the case of ASCII letters |
| Anchor.ChainsAreBound | src/audit.rs:27-34 | two chains of one length with one last hash are equal, entry for entry |
| Anchor.AnchorBinds | src/anchor.rs:366-371 | an anchor taken on a valid log covers a later log if and only if that log still begins with every entry of the first |
| Anchor.ParsableLogBinds | src/audit.rs:121-140 | an anchor on a log that parses binds it, so that every log it accepts begins with all entries, if and only if the log was valid or the anchor accepts no log at all |
| Anchor.BrokenLogAnchored | src/audit.rs:121-140 | for every first entry, the log that repeats it parses and is broken, and its anchor accepts a log half as long |
| Anchor.SeriesAgree | src/anchor.rs:384-408 | two verified series with the same last file agree byte for byte, counted from the end |
| Anchor.CompleteSeriesEqual | src/anchor.rs:384-408 | two verified series that reach back to a first anchor and end in the same file are identical |
| Anchor.DeletionBreaks | src/anchor.rs:384-408 | deleting a file from within a verified series breaks it, unless it was a copy of the one before |
| Anchor.MintedSeriesIsGood | src/anchor.rs:163-244 | every series one fabric mints over a growing valid log, with mintings cut off in between, verifies link by link, covers non-decreasing lengths and verifies against the log to the end |
| Anchor.CutMintFallsOut | src/anchor.rs:228-235 | after a minting that was cut off, the next anchor links to the predecessor of the cut one, and to that itself only if their hashes agree |
| Secure.GatherPieces | src/secure.rs:160-177 | any cut of a payload into non-empty pieces within the cap reads back as the payload |
| Secure.ChunksAddUp | src/secure.rs:189-195 | the writer's chunks add up to the payload, all but the last have 48 KiB, all are sendable, and each ciphertext is at most 49168 bytes |
| Secure.ConversationRoundTrip | src/secure.rs:146-197 | any frames cut in any way read back in order, consuming exactly what was sent, with the nonces in step |
| Secure.PayloadsRoundTrip | src/secure.rs:146-197 | the same for any list of payloads of at most 64 MiB as the writer frames them |
| Secure.FrameWasSent | src/secure.rs:146-178 | a frame that is accepted was sealed, piece by piece, under the nonces the reader expected |
| Secure.ReadMsgRoundTrip | src/secure.rs:47-66 | a length-prefixed message within the cap is read back, leaving the rest |
| Secure.ReadMsgMeans | src/secure.rs:56-66 | a message is read if and only if the input begins with it, it is not empty and it is within the cap |
| Secure.OpenNextMeans | src/secure.rs:146-154 | a message is opened if and only if it is within 49216 bytes, its nonce is not spent and it opens to at most 49216 bytes |
| Secure.ReadFrameMeans | src/secure.rs:146-178 | the reader takes exactly the frames of at most 64 MiB that were sealed in non-empty pieces within the message cap under unspent nonces, however they were cut |
| Streams.SecureStream.WriteFrame | src/secure.rs:180-197 | through the one buffer, puts exactly the framed payload on the wire and advances the nonce by one a message; refuses only oversized payloads or spent nonces |
| Streams.SecureStream.ReadFrame | src/secure.rs:146-178 | reusing the one buffer, accepts exactly what the reference reader accepts, with the same bytes, nonce and remaining input |
| Serve.PlainRoundTrip | src/secure.rs:207-235 | a plaintext frame within the cap is read back, leaving the rest |
| Serve.ReadPlainMeans | src/secure.rs:207-228 | a plaintext frame is read if and only if the input begins with its 32-bit length and its payload of at most 64 MiB |
| Serve.SelectorIsNoLength | src/sync.rs:129-152 | the selector's bytes spell a length over the frame cap |
| Serve.Connection.ReadFrame | src/secure.rs:208-228 | reading slice by slice is reading at once |
| Serve.Connection.Serve | src/sync.rs:123-171 | on an unsecured listener every client stream is answered as the plain loop from byte 0 would; a secured one answers nothing in plaintext and goes on exactly behind the selector |
| Calendar.YearBounds | src/main.rs:784-786 | the year of the era is the one whose days contain the day; no difference goes below zero |
| Calendar.AlwaysADate | src/main.rs:779-791 | month and day are valid for the year, for every day count that does not overflow |
| Calendar.DaysFollow | src/main.rs:779-791 | day n is the calendar successor of day n - 1 |
| Calendar.ClosedFormSteps | src/main.rs:779-791 | the closed form equals stepping one day at a time from 1970-01-01 |
| Calendar.CountedBack | src/main.rs:779-791 | counting years, months and days of the computed date gives n back |
| Calendar.DateIsRecovered | src/main.rs:779-791 | every date from 1970 on is the one computed for its own day count |

## Left out

- Modes, the quiescence retries of `chunk_file_stable` and restoring modification times: a snapshot records the times it is given, mode 0 and no unstable paths.
- Symbolic links, O_NOFOLLOW, races between check and use, unreadable entries, empty directories and names with backslashes: the tree is quiet and made of regular files.
- Writing among the store's own files: after a revert, an undo, a purge or a guarded command that does, the store (with a purge, the audit log and the certificate too) may be in any state; files of a tree under `.respawn` are not otherwise kept in step with it.
- Orders of reports: lists sorted for display are sets; `skipped_extra` and the CLI's printing are not modelled.
- Revert.Apply: the list of rewritten files is complete and names only paths of the manifest; that each of them needed rewriting is stated for one file, by `RestoreOne`. For manifests that write among the store's own files success is not characterised, only its consequences.
- Surgical.RevertActor: the lock and the audit record at the end; a command that failed midway promises nothing beyond what its parts promise at crash points.
- Guard.Run: the lock, the exit status and the audit record, which can turn a finished run into an error. After a command that wrote among the store's own files only what the policy decides, and HEAD after a reported revert, is promised.
- Purge.Survey: says that nothing purgeable is refused; among orphaned snapshots of one timestamp any may count as the newest, so which content is buried, and whether it was buried before, is not always determined.
- Lifetimes.RunsLoseNothing: what reaches the store's own files is no step of a run; the excuse for a pull cut short speaks of all manifests it brought, those whose chunks happened to be there included.
- Audit.AuditLog.Record: lines are text; an undecodable line is an I/O error in the source. An entry cut off within its own text is not modelled.
- Lifetimes.TombstonesStay: nothing is promised once something has reached the store's own files; `FabricIsPurgeable` and `FabricIsTaken` show that it can.
- Lifetimes.PurgedStaysPurged: the same.
- Lifetimes.OtherPathsStay: the same.
- Anchor.Fabric.Create: whether a destination resolves into the fabric is a parameter, and so is whether the key can be had.
- Anchor.CompleteSeriesEqual: says nothing of files whose link was never checked; two series that do not reach a first anchor agree only on the shorter length, by `SeriesAgree`.
- Serve.Connection.Serve: what follows an accepted selector (handshake and encrypted loop), time-outs and the connection limit.
- Sync.Pull: the transport is a request and a reply frame of at most 64 MiB; connecting, time-outs and the note of the peer's head on disk are not modelled.
- Path lengths are counted in characters; the source counts UTF-8 bytes. Other limits of the file system, such as the length of one name, are not modelled.
- Counters are unbounded; only the Noise nonce, the length fields and the day count have their width.
- Tombstone files that do not parse, compression, snapshot name prefixes, `.fabricignore` syntax.
- `anchor::next`, certificates of other kinds, fleet policies, scheduling, watching, key storage, APFS and the command-line interface apart from `revert --actor` and the calendar: platform calls, or easy members.
