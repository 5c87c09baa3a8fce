# UniGit status engine in Dafny

This project models the core of UniGit, a Git integration for the Unity editor. The model covers:

- **The status synchronisation of `GitManager`.** Each editor tick passes a gate (`GetUpdateStatus`). Then it runs a full update or one scoped to the dirty files, and it runs at most one queued action, first in, first out.
  - An update retrieves the repository status, synchronously or on a worker. It then builds the status tree and finishes.
  - Stage and unstage operations are registered while they run in the background. A finished stage job queues its completion callback on the action queue, and a later tick runs it.
  - The machine is defined as functions on a state value (module `ManagerSpec`). The class `Manager.GitManager` updates its fields in place and is proved to follow those functions.
- **The status tree.** A trie of path chunks. Every node ORs in the flags of every path that passes through it, so an asset and its `.meta` share a node. Near the leaves a node is marked as forced.
- **Meta pairing and the stage, unstage and blame predicates.**
- **The flag arithmetic of `FlagHelper` and `EnumExtensions.HasFlag`.**
- **The settings object `GitSettingsJson`.** Its flag layouts and the migration `Copy` from the obsolete asset.
- **The status-list comparer of the diff window (`GitDiffWindowSorter`).**
- **The icon selection of `GitOverlay`.**
- **The menu-path tree builder of `ContextGenericMenuPopup`.**
- **The command-line lookup `GetArg` of the CI build.**

Flags are modelled as the set of positions of their 1-bits in a 32-bit `int`. `&` is intersection, `|` is union and `~` is complement within the 32 positions. The `FileStatus` and `ChangeKind` values of LibGit2Sharp are given in `git_types.dfy` with that library's numbering; LibGit2Sharp itself is not part of this model.

## Model

| member | source | states |
|---|---|---|
| FlagHelper.AllBits | Editor/Utils/FlagHelper.cs:37-51 | the value -1 has all 32 bits set |
| FlagHelper.Not | Editor/Utils/FlagHelper.cs:45-50 | `~flags` holds exactly the positions `flags` lacks |
| FlagHelper.SetFlagsTo | Editor/Utils/FlagHelper.cs:37-51 | switching on sets every bit of the flags, switching off clears them; every other bit is kept |
| FlagHelper.SetFlags | Editor/Utils/FlagHelper.cs:53-56 | every bit of the flags is set afterwards and every other bit is kept |
| FlagHelper.ClearFlags | Editor/Utils/FlagHelper.cs:58-61 | the flags are no longer set, and every bit outside them is kept |
| FlagHelper.CombineFlags | Editor/Utils/FlagHelper.cs:63-73 | the loop computes the OR of all flags: each element is included, and each bit of the result comes from some element |
| FlagHelper.IsFlagSetAnyBit | Editor/Utils/FlagHelper.cs:29-35 | the flag 0 is never set; a multi-bit flag is set exactly when one of its bits is |
| FlagHelper.IsFlagSetPositions | Editor/Utils/FlagHelper.cs:29-35 | testing a one- or two-bit flag is testing membership of its positions |
| FlagHelper.SetFlagsIdempotent | Editor/Utils/FlagHelper.cs:53-56 | setting flags twice equals setting them once, and a non-zero flag is then reported set |
| FlagHelper.SetFlagsToBitwise | Editor/Utils/FlagHelper.cs:37-61 | the two outcomes are `v \| f` and `v & ~f`; clearing undoes setting |
| FlagHelper.CombinedIncludes | Editor/Utils/FlagHelper.cs:63-73 | every element is contained in the combination |
| FlagHelper.CombinedBitSource | Editor/Utils/FlagHelper.cs:63-73 | every bit of the combination comes from some element |
| FlagHelper.CombinedOrderIndependent | Editor/Utils/FlagHelper.cs:63-73 | the combination of nothing is 0; it depends on neither order nor repetition |
| FlagHelper.AreNotSetIffCombinedDisjoint | Editor/Utils/FlagHelper.cs:24-27 | `AreNotSet` holds exactly when the OR of the flags does not overlap the value; it holds for no flags |
| FlagHelper.IsFlagSet | Editor/Utils/FlagHelper.cs:29-35 | `(value & flag) != 0`; characterised by `IsFlagSetAnyBit` and `IsFlagSetPositions` |
| FlagHelper.AreNotSet | Editor/Utils/FlagHelper.cs:24-27 | no flag overlaps the value; characterised by `AreNotSetIffCombinedDisjoint` |
| FlagHelper.Combined | Editor/Utils/FlagHelper.cs:63-73 | the OR of the flags; its laws are `CombinedIncludes`, `CombinedBitSource` and `CombinedOrderIndependent` |
| EnumExtensions.HasFlag | Editor/Utils/EnumExtensions.cs:7-14 | an error exactly when the enum types differ; otherwise true exactly when every bit of the flag is set |
| EnumExtensions.HasFlagZero | Editor/Utils/EnumExtensions.cs:7-14 | `HasFlag(v, 0)` always holds, while `IsFlagSet(v, 0)` never does |
| EnumExtensions.HasFlagPreorder | Editor/Utils/EnumExtensions.cs:7-14 | `HasFlag` is reflexive and transitive |
| EnumExtensions.HasFlagImpliesIsFlagSet | Editor/Utils/EnumExtensions.cs:7-14 | for a non-zero flag, all bits set implies some bit set; for one-bit flags the two tests agree |
| Text.ReplaceChar | Assets/Plugins/UniGit/Editor/GitManager.cs:201 | `Replace(char, char)` keeps the length and replaces exactly the matching characters |
| Text.SplitAll | Assets/Plugins/UniGit/Editor/GitManager.cs:871 | `Split(char)` yields at least one piece |
| Text.NonEmpty | Editor/Utils/ContextGenericMenuPopup.cs:52 | `RemoveEmptyEntries` keeps exactly the non-empty pieces |
| Text.RemoveAll | Assets/Plugins/UniGit/Editor/GitManager.cs:880 | `Replace(pattern, "")` never lengthens the string, and returns it unchanged exactly when the pattern does not occur in it |
| Text.RemoveAllAppend | Assets/Plugins/UniGit/Editor/GitManager.cs:880 | when no occurrence straddles the join, removing from `a + b` removes from `a` and from `b` separately |
| Text.SplitJoin | Assets/Plugins/UniGit/Editor/GitManager.cs:871 | no piece holds the separator, and joining the pieces restores the string |
| Text.SplitAllAppend | Assets/Plugins/UniGit/Editor/GitManager.cs:871 | splitting around one separator splits each side on its own |
| Text.NonEmptyAppend | Editor/Utils/ContextGenericMenuPopup.cs:52 | dropping empty pieces distributes over concatenation |
| Text.DoubledSeparator | Editor/Utils/ContextGenericMenuPopup.cs:52 | a doubled separator splits like a single one ("A//B" like "A/B") |
| Text.RemoveMetaSuffix | Assets/Plugins/UniGit/Editor/GitManager.cs:880 | removing ".meta" from `s + ".meta"` acts on `s` as it would without the suffix |
| Text.MetaHasExtension | Assets/Plugins/UniGit/Editor/GitManager.cs:581-583 | a ".meta" path always has an extension |
| Text.SplitAllExtendLast | Assets/Plugins/UniGit/Editor/GitManager.cs:871 | appending text without a separator only extends the last piece |
| Text.EndsWith | Assets/Plugins/UniGit/Editor/GitManager.cs:554 | `EndsWith`: the last characters are the suffix; `EndsWithAppend` states it holds exactly for a string that is something followed by the suffix |
| Text.EndsWithAppend | Assets/Plugins/UniGit/Editor/GitManager.cs:554 | a string ends with the suffix exactly when it is some string followed by the suffix |
| Text.SplitNonEmpty | Assets/Plugins/UniGit/Editor/GitManager.cs:909 | `Split` with `RemoveEmptyEntries`: the non-empty pieces of `SplitAll`, in order; stated by `SplitNonEmptyPieces`, `DoubledSeparator`, `NonEmpty` and `SplitJoin` |
| Text.SplitNonEmptyPieces | Assets/Plugins/UniGit/Editor/GitManager.cs:909 | every piece is non-empty and free of the separator; a string without the separator is one piece, or none when empty |
| Text.HasExtension | Assets/Plugins/UniGit/Editor/GitManager.cs:583 | `Path.HasExtension`; stated by `HasExtensionMeaning` and `MetaHasExtension` |
| Text.HasExtensionMeaning | Assets/Plugins/UniGit/Editor/GitManager.cs:583 | true exactly when some '.' before the final character has neither a '.' nor a separator after it |
| Text.ExtensionScanMeaning | Assets/Plugins/UniGit/Editor/GitManager.cs:583 | scanning the first n characters backwards finds a '.' that is not the final character, with no '.' or separator after it before n |
| GitPaths.AssetPathFromMeta | Assets/Plugins/UniGit/Editor/GitManager.cs:552-559 | a ".meta" path loses exactly that suffix; any other path is returned unchanged |
| GitPaths.MetaPathFromAsset | Assets/Plugins/UniGit/Editor/GitManager.cs:561-564 | the result is non-empty and ends in ".meta" |
| GitPaths.GetPathsWithMeta | Assets/Plugins/UniGit/Editor/GitManager.cs:601-604 | a path is in the result exactly when it comes from some input path |
| GitPaths.PathsWithMetaSingle | Assets/Plugins/UniGit/Editor/GitManager.cs:601-604 | one path yields exactly what `GetPathWithMeta` yields for it |
| GitPaths.PathsWithMetaAppend | Assets/Plugins/UniGit/Editor/GitManager.cs:601-604 | the result for `a + b` is the result for `a` followed by the result for `b`, so order and repetition are kept as in `SelectMany` |
| GitPaths.GetPathWithMeta | Assets/Plugins/UniGit/Editor/GitManager.cs:579-599 | the path itself when it has an extension, then its partner when not empty; its properties are `PathWithMetaShape` |
| GitPaths.IsEmptyFolderMeta | Assets/Plugins/UniGit/Editor/GitManager.cs:534-541 | a ".meta" path whose asset path is an existing empty directory; used by `StatusTree.EffectiveStatus` |
| GitPaths.CanStage | Assets/Plugins/UniGit/Editor/GitManager.cs:566-569 | some working-directory change; characterised by `CanStageBits` |
| GitPaths.CanUnstage | Assets/Plugins/UniGit/Editor/GitManager.cs:571-574 | some index change; characterised by `CanUnstageBits` |
| GitPaths.CanBlame | Assets/Plugins/UniGit/Editor/GitManager.cs:444-447 | none of new in index, ignored, new in workdir; characterised by `CanBlameBits` |
| GitPaths.MetaRoundTrip | Assets/Plugins/UniGit/Editor/GitManager.cs:552-564 | asset to meta to asset is the identity, and so is meta to asset to meta |
| GitPaths.PathWithMetaShape | Assets/Plugins/UniGit/Editor/GitManager.cs:579-599 | at most two paths; the path itself first exactly when it has an extension; then its partner exactly when the partner is non-empty |
| GitPaths.CanStageBits | Assets/Plugins/UniGit/Editor/GitManager.cs:566-569 | stageable exactly when a working-directory change bit is set |
| GitPaths.CanUnstageBits | Assets/Plugins/UniGit/Editor/GitManager.cs:571-574 | unstageable exactly when an index change bit is set |
| GitPaths.CanBlameBits | Assets/Plugins/UniGit/Editor/GitManager.cs:444-447 | blame is refused exactly for paths new in the index, ignored, or new in the working directory |
| StatusTree.TreeKeys | Assets/Plugins/UniGit/Editor/GitManager.cs:871-880 | one key per `'\\'`-separated chunk, with ".meta" removed from each |
| StatusTree.EffectiveStatus | Assets/Plugins/UniGit/Editor/GitManager.cs:872 | the entry's flags, or `Ignored` for an empty-folder meta; always the flags when empty folders are shown |
| StatusTree.AddRecursive | Assets/Plugins/UniGit/Editor/GitManager.cs:877-904 | inserting adds the chunk's key at this level and leaves the other keys alone |
| StatusTree.AddedNode | Assets/Plugins/UniGit/Editor/GitManager.cs:885-894 | an existing node keeps its depth; a new node's depth is its chunk index |
| StatusTree.GetStatusRecursive | Assets/Plugins/UniGit/Editor/GitManager.cs:913-933 | null for an empty path or a missing first key; a one-chunk path finds its node |
| StatusTree.StatusTreeClass.constructor | Assets/Plugins/UniGit/Editor/GitManager.cs:861-864 | the new tree holds the snapshot built into an empty tree |
| StatusTree.StatusTreeClass.Build | Assets/Plugins/UniGit/Editor/GitManager.cs:866-875 | the loop inserts every snapshot entry in order |
| StatusTree.StatusTreeClass.GetStatus | Assets/Plugins/UniGit/Editor/GitManager.cs:906-911 | a found node lies under the first non-empty `'/'` segment |
| StatusTree.Merge | Assets/Plugins/UniGit/Editor/GitManager.cs:885-899 | a node's flags only grow, its depth never changes, and once forced it stays forced |
| StatusTree.PassesThroughStep | Assets/Plugins/UniGit/Editor/GitManager.cs:900-903 | a key path passes through the chunks from `index` exactly when its head matches and its tail passes from `index + 1` |
| StatusTree.AddedNodeSpec | Assets/Plugins/UniGit/Editor/GitManager.cs:885-903 | the node merges the entry's flags, its depth and the force rule `length - index < depth + 1`, and recurses below while chunks remain |
| StatusTree.AddRecursiveSpec | Assets/Plugins/UniGit/Editor/GitManager.cs:877-904 | looking up any key path after inserting equals folding the entry into what was there when the entry passes through it |
| StatusTree.BuildMatchesExpected | Assets/Plugins/UniGit/Editor/GitManager.cs:866-933 | the tree lookup equals a fold over the snapshot that builds no tree |
| StatusTree.ExpectedExists | Assets/Plugins/UniGit/Editor/GitManager.cs:877-904 | a node exists exactly when some entry's path passes through it, and its depth is its index |
| StatusTree.ExpectedState | Assets/Plugins/UniGit/Editor/GitManager.cs:885-894 | a node's flags are exactly the OR of the flags of the entries beneath it |
| StatusTree.ExpectedForce | Assets/Plugins/UniGit/Editor/GitManager.cs:895-899 | a node is forced exactly when some entry beneath it meets the depth rule |
| StatusTree.BuildLookup | Assets/Plugins/UniGit/Editor/GitManager.cs:866-933 | a node of the built tree has the depth, flags and force of the entries passing through it |
| StatusTree.MetaSharesKeys | Assets/Plugins/UniGit/Editor/GitManager.cs:880 | an asset and its meta file have the same key path, so they share a node |
| StatusTree.GetStatusPaths | Assets/Plugins/UniGit/Editor/GitManager.cs:906-919 | the empty path finds nothing, and a doubled `'/'` finds what a single one does |
| StatusTree.BuildFrom | Assets/Plugins/UniGit/Editor/GitManager.cs:866-875 | the snapshot entries inserted in order; `BuildMatchesExpected` and `BuildLookup` state what the result holds |
| ManagerSpec.GetUpdateStatus | Assets/Plugins/UniGit/Editor/GitManager.cs:635-658 | never `Other`; `Ready` exactly when the repository is valid, no play-mode switch is pending, nothing compiles or refreshes, and no update runs |
| ManagerSpec.FixPath | Assets/Plugins/UniGit/Editor/GitManager.cs:201 | the normalised path has the same length and no Unity separator `'/'` left |
| ManagerSpec.ReplaceStatus | Assets/Plugins/UniGit/Editor/GitManager.cs:214 | same length; the path's flags become the new ones when it had an entry; every other path's flags are kept |
| ManagerSpec.UpdateEntry | Assets/Plugins/UniGit/Editor/GitManager.cs:214 | afterwards the first entry for the path carries the new flags, and other paths keep their entries |
| ManagerSpec.Processed | Assets/Plugins/UniGit/Editor/GitManager.cs:210-215 | the paths before the first whose retrieval throws, as a prefix of the input |
| ManagerSpec.RemoveOperation | Assets/Plugins/UniGit/Editor/GitManager.cs:475 | keeps exactly the registrations of other operations |
| ManagerSpec.UpdateStatusPriority | Assets/Plugins/UniGit/Editor/GitManager.cs:635-658 | the reasons are reported in fixed priority: invalid repository, play-mode switch, compiling, asset refresh, updating |
| ManagerSpec.InitialValid | Assets/Plugins/UniGit/Editor/GitManager.cs:42-62 | a new manager is valid, has no dirty files, and has `repositoryDirty` set exactly when the repository is valid |
| ManagerSpec.MarkDirtyPathsSpec | Assets/Plugins/UniGit/Editor/GitManager.cs:197-206 | `IsFileDirty` afterwards holds exactly for the old dirty files and the normalised paths; a non-empty list makes `IsDirty` hold; marking twice equals marking once; the invariant is kept |
| ManagerSpec.MarkDirtySpec | Assets/Plugins/UniGit/Editor/GitManager.cs:181-190 | both overloads keep the invariant; `MarkDirty()` keeps `reloadDirty` and `MarkDirty(bool)` sets it to its argument |
| ManagerSpec.IsFileUpdatingSpec | Assets/Plugins/UniGit/Editor/GitManager.cs:332-340 | false outside an update, true for every path during a full one, membership during a scoped one |
| ManagerSpec.UpdatePathsSpec | Assets/Plugins/UniGit/Editor/GitManager.cs:210-216 | each path before the first failing one gets its reported flags; other paths keep their entries; completion means no path failed |
| ManagerSpec.UpdatePhaseGate | Assets/Plugins/UniGit/Editor/GitManager.cs:128-143 | when the gate is not `Ready` the update phase changes nothing |
| ManagerSpec.RebuildStatusShape | Assets/Plugins/UniGit/Editor/GitManager.cs:208-232 | rebuilding changes only the status, and a completed rebuild leaves a status |
| ManagerSpec.RetreiveSynchronously | Assets/Plugins/UniGit/Editor/GitManager.cs:253-303 | synchronous retrieval rebuilds, builds the tree on success, finishes, and leaves queues and dirty marks alone |
| ManagerSpec.BeginUpdateSpec | Assets/Plugins/UniGit/Editor/GitManager.cs:163-172 | the update is marked as running; a new repository is loaded and reported exactly when there is none or a reload is asked for and the repository is valid; nothing else changes |
| ManagerSpec.UpdateThreaded | Assets/Plugins/UniGit/Editor/GitManager.cs:174-177 | a threaded update hands retrieval to a worker and stays updating |
| ManagerSpec.UpdateSynchronous | Assets/Plugins/UniGit/Editor/GitManager.cs:174-177 | a synchronous update retrieves the status and finishes |
| ManagerSpec.UpdateSpec | Assets/Plugins/UniGit/Editor/GitManager.cs:163-179 | one update from idle, threaded or not, and it queues no action |
| ManagerSpec.FullUpdate | Assets/Plugins/UniGit/Editor/GitManager.cs:131-137 | a full update clears every dirty mark, reloads when asked, and ends idle with the new snapshot's status and tree when synchronous |
| ManagerSpec.ScopedUpdate | Assets/Plugins/UniGit/Editor/GitManager.cs:138-142 | a scoped update never reloads, clears the dirty files, and marks exactly them as updating or updates them |
| ManagerSpec.UpdatePhaseValid | Assets/Plugins/UniGit/Editor/GitManager.cs:128-143 | the update phase keeps the invariant and leaves the action queue alone |
| ManagerSpec.RunNextActionSpec | Assets/Plugins/UniGit/Editor/GitManager.cs:145-160 | takes the head of the queue, rethrows exactly when that action fails, and keeps the invariant; a stage completion at the head runs `CompleteStage` |
| ManagerSpec.OnEditorUpdateSpec | Assets/Plugins/UniGit/Editor/GitManager.cs:126-161 | a tick keeps the invariant and consumes exactly the head of the action queue |
| ManagerSpec.RunStatusJob | Assets/Plugins/UniGit/Editor/GitManager.cs:243-280 | a status job keeps the invariant and queues the publish action, or the finish action when retrieval throws |
| ManagerSpec.RunTreeJob | Assets/Plugins/UniGit/Editor/GitManager.cs:282-303 | a tree job builds the tree and queues the repaint and the finish |
| ManagerSpec.RunStageJob | Assets/Plugins/UniGit/Editor/GitManager.cs:467-508 | a stage job keeps the invariant; it reports the staging and appends its completion (`StageDone`) to the action queue, and until a tick runs that completion the registration stays (its paths still count as staging) and the dirty marks are unchanged |
| ManagerSpec.RunWorkerValid | Assets/Plugins/UniGit/Editor/GitManager.cs:243-303 | whatever job a worker finishes, the invariant holds afterwards |
| ManagerSpec.StageCompletion | Assets/Plugins/UniGit/Editor/GitManager.cs:472-477 | the completion, run from the action queue, unregisters exactly its operation, marks its paths dirty and keeps the other dirty paths, reports the completion, and leaves the queue, the workers, the status and the updating flag alone |
| ManagerSpec.AsyncStageSpec | Assets/Plugins/UniGit/Editor/GitManager.cs:467-508 | queues the stage job and registers its paths, so a path is staging exactly when it was or is one of them, and `IsAsyncStaging` holds; the invariant is kept |
| ManagerSpec.AutoStageSpec | Assets/Plugins/UniGit/Editor/GitManager.cs:454-493 | with the kind's threading flag the paths stage in the background, otherwise they are staged now and marked dirty |
| ManagerSpec.DefaultStagesSynchronously | Assets/Plugins/UniGit/Editor/GitManager.cs:454-493 | with the default threading, staging and unstaging are synchronous |
| ManagerSpec.ThreadedMatchesSynchronous | Assets/Plugins/UniGit/Editor/GitManager.cs:243-303 | a threaded full update, run to its end, reaches the state a synchronous one reaches |
| ManagerSpec.IsFileDirty | Assets/Plugins/UniGit/Editor/GitManager.cs:326-330 | membership in the dirty files; `MarkDirtyPathsSpec` states how it changes |
| ManagerSpec.IsFileUpdating | Assets/Plugins/UniGit/Editor/GitManager.cs:332-340 | stated by `IsFileUpdatingSpec` |
| ManagerSpec.IsFileStaging | Assets/Plugins/UniGit/Editor/GitManager.cs:342-345 | some registered stage operation holds the path; `AsyncStageSpec` and `StageCompletion` state how it changes |
| ManagerSpec.IsAsyncStaging | Assets/Plugins/UniGit/Editor/GitManager.cs:690-693 | some stage operation is registered; stated by `AsyncStageSpec` |
| ManagerSpec.MarkDirty | Assets/Plugins/UniGit/Editor/GitManager.cs:181-184 | stated by `MarkDirtySpec` |
| ManagerSpec.MarkDirtyPaths | Assets/Plugins/UniGit/Editor/GitManager.cs:197-206 | stated by `MarkDirtyPathsSpec` |
| ManagerSpec.UpdatePaths | Assets/Plugins/UniGit/Editor/GitManager.cs:210-216 | stated by `UpdatePathsSpec` |
| ManagerSpec.RebuildStatus | Assets/Plugins/UniGit/Editor/GitManager.cs:208-232 | stated by `RebuildStatusShape` |
| ManagerSpec.RetreiveStatus | Assets/Plugins/UniGit/Editor/GitManager.cs:253-280 | stated by `RetreiveSynchronously` and `RunStatusJob` |
| ManagerSpec.Update | Assets/Plugins/UniGit/Editor/GitManager.cs:163-179 | stated by `UpdateSpec`, `UpdateThreaded` and `UpdateSynchronous` |
| ManagerSpec.UpdatePhase | Assets/Plugins/UniGit/Editor/GitManager.cs:128-143 | stated by `UpdatePhaseGate`, `FullUpdate`, `ScopedUpdate` and `UpdatePhaseValid` |
| ManagerSpec.RunNextAction | Assets/Plugins/UniGit/Editor/GitManager.cs:145-160 | stated by `RunNextActionSpec` |
| ManagerSpec.OnEditorUpdate | Assets/Plugins/UniGit/Editor/GitManager.cs:126-161 | stated by `OnEditorUpdateSpec` |
| ManagerSpec.CompleteStage | Assets/Plugins/UniGit/Editor/GitManager.cs:472-477 | stated by `StageCompletion` and `RunNextActionSpec` |
| ManagerSpec.AsyncStage | Assets/Plugins/UniGit/Editor/GitManager.cs:467-508 | stated by `AsyncStageSpec` and `RunStageJob` |
| ManagerSpec.AutoStage | Assets/Plugins/UniGit/Editor/GitManager.cs:454-493 | stated by `AutoStageSpec` and `DefaultStagesSynchronously` |
| ManagerSpec.RunWorker | Assets/Plugins/UniGit/Editor/GitManager.cs:243-303 | stated by `RunWorkerValid`, `RunStatusJob`, `RunTreeJob`, `RunStageJob` and `ThreadedMatchesSynchronous`; a stage job queues its completion instead of running it |
| ManagerSpec.IsDirty | Assets/Plugins/UniGit/Editor/GitManager.cs:695-698 | some file is dirty; `InitialValid` and `MarkDirtyPathsSpec` state when it holds |
| ManagerSpec.MarkDirtyReload | Assets/Plugins/UniGit/Editor/GitManager.cs:186-190 | stated by `MarkDirtySpec` |
| ManagerSpec.StartUpdating | Assets/Plugins/UniGit/Editor/GitManager.cs:305-317 | stated by `UpdatingWindow` and `BeginUpdateSpec` |
| ManagerSpec.FinishUpdating | Assets/Plugins/UniGit/Editor/GitManager.cs:319-324 | stated by `UpdatingWindow` and `InvokeFrame` |
| ManagerSpec.Invoke | Assets/Plugins/UniGit/Editor/GitManager.cs:261-265 | running an action: the publish closure, the repaint, `FinishUpdating` or a stage completion; stated by `InvokeFrame`, `QueuedActionRunsLater`, `StageCompletion` and `RunNextActionSpec` |
| ManagerSpec.ExecuteAction | Assets/Plugins/UniGit/Editor/GitManager.cs:510-520 | stated by `QueuedActionRunsLater` |
| ManagerSpec.UpdateStatusTree | Assets/Plugins/UniGit/Editor/GitManager.cs:287-303 | stated by `UpdateStatusTreeSpec` and `RunTreeJob` |
| ManagerSpec.LoadRepository | Assets/Plugins/UniGit/Editor/GitManager.cs:167-171 | stated by `BeginUpdateSpec` |
| ManagerSpec.BeginUpdate | Assets/Plugins/UniGit/Editor/GitManager.cs:163-172 | stated by `BeginUpdateSpec` |
| ManagerSpec.ClearDirtyMarks | Assets/Plugins/UniGit/Editor/GitManager.cs:134-136 | stated by `FullUpdate` |
| ManagerSpec.UpdatingWindow | Assets/Plugins/UniGit/Editor/GitManager.cs:305-340 | between `StartUpdating` and `FinishUpdating` every path counts as updating when no paths are given, exactly the given ones otherwise; afterwards none does, and only the two callbacks remain |
| ManagerSpec.InvokeFrame | Assets/Plugins/UniGit/Editor/GitManager.cs:261-265 | running an action leaves the queue, reload marks, status and repository alone; only publishing starts a tree job, only finishing ends the update, and only a stage completion unregisters its operation and marks its paths dirty |
| ManagerSpec.QueuedActionRunsLater | Assets/Plugins/UniGit/Editor/GitManager.cs:510-520 | an action queued on an empty queue and run by the next tick has the effect of running it at once, unless it is an external action that throws, which is logged and rethrown |
| ManagerSpec.UpdateStatusTreeSpec | Assets/Plugins/UniGit/Editor/GitManager.cs:287-303 | with a snapshot the tree is built from it and the repaint and finish run (queued in that order when threaded); without one only the finish runs and the build error is logged; status, dirty marks and workers are untouched |
| Manager.ToArray | Assets/Plugins/UniGit/Editor/GitManager.cs:140 | lists each dirty file exactly once |
| Manager.GitManager.constructor | Assets/Plugins/UniGit/Editor/GitManager.cs:42-62 | the fields hold the initial state |
| Manager.GitManager.MarkDirty | Assets/Plugins/UniGit/Editor/GitManager.cs:181-184 | the fields step as `ManagerSpec.MarkDirty` |
| Manager.GitManager.MarkDirtyReload | Assets/Plugins/UniGit/Editor/GitManager.cs:186-190 | the fields step as `ManagerSpec.MarkDirtyReload` |
| Manager.GitManager.MarkDirtyPaths | Assets/Plugins/UniGit/Editor/GitManager.cs:197-206 | the loop adds each normalised path, as `ManagerSpec.MarkDirtyPaths` |
| Manager.GitManager.StartUpdating | Assets/Plugins/UniGit/Editor/GitManager.cs:305-317 | the loop records the updating files, as `ManagerSpec.StartUpdating` |
| Manager.GitManager.FinishUpdating | Assets/Plugins/UniGit/Editor/GitManager.cs:319-324 | updating ends and the updating files are cleared |
| Manager.GitManager.Invoke | Assets/Plugins/UniGit/Editor/GitManager.cs:261-265 | running an action steps as `ManagerSpec.Invoke` |
| Manager.GitManager.ExecuteAction | Assets/Plugins/UniGit/Editor/GitManager.cs:510-520 | async only enqueues; otherwise the action runs and the queue is unchanged |
| Manager.GitManager.RebuildStatus | Assets/Plugins/UniGit/Editor/GitManager.cs:208-232 | the loop updates path by path, or the whole status is replaced, as `ManagerSpec.RebuildStatus` |
| Manager.GitManager.UpdateStatusTree | Assets/Plugins/UniGit/Editor/GitManager.cs:287-303 | the fields step as `ManagerSpec.UpdateStatusTree` |
| Manager.GitManager.RetreiveStatus | Assets/Plugins/UniGit/Editor/GitManager.cs:253-280 | the fields step as `ManagerSpec.RetreiveStatus` |
| Manager.GitManager.LoadRepository | Assets/Plugins/UniGit/Editor/GitManager.cs:169-171 | a new repository replaces the old one and is reported |
| Manager.GitManager.BeginUpdate | Assets/Plugins/UniGit/Editor/GitManager.cs:165-172 | the fields step as `ManagerSpec.BeginUpdate` |
| Manager.GitManager.Update | Assets/Plugins/UniGit/Editor/GitManager.cs:163-179 | the fields step as `ManagerSpec.Update` |
| Manager.GitManager.RunNextAction | Assets/Plugins/UniGit/Editor/GitManager.cs:145-160 | the fields and outcome are those of `ManagerSpec.RunNextAction` |
| Manager.GitManager.ClearDirtyMarks | Assets/Plugins/UniGit/Editor/GitManager.cs:134-136 | both dirty flags and the dirty files are cleared |
| Manager.GitManager.ClearDirtyFiles | Assets/Plugins/UniGit/Editor/GitManager.cs:141 | the dirty files are cleared |
| Manager.GitManager.UpdatePhase | Assets/Plugins/UniGit/Editor/GitManager.cs:128-143 | the fields step as `ManagerSpec.UpdatePhase` for the order in which the dirty files were listed |
| Manager.GitManager.OnEditorUpdate | Assets/Plugins/UniGit/Editor/GitManager.cs:126-161 | the fields step as `ManagerSpec.OnEditorUpdate`, so the invariant is kept |
| Manager.GitManager.CompleteStage | Assets/Plugins/UniGit/Editor/GitManager.cs:472-477 | the fields step as `ManagerSpec.CompleteStage` |
| Manager.GitManager.RunWorker | Assets/Plugins/UniGit/Editor/GitManager.cs:243-303 | the fields step as `ManagerSpec.RunWorker` |
| Manager.GitManager.AsyncStage | Assets/Plugins/UniGit/Editor/GitManager.cs:467-508 | the fields and the operation are those of `ManagerSpec.AsyncStage` |
| Manager.GitManager.AutoStage | Assets/Plugins/UniGit/Editor/GitManager.cs:454-493 | the fields step as `ManagerSpec.AutoStage` |
| Settings.GitSettingsJson.constructor | Editor/GitSettings.cs:56-77 | the field initialisers, with `IsDirty` false |
| Settings.GitSettingsJson.Copy | Editor/GitSettings.cs:128-141 | the fields become `Copied(old fields, asset)` |
| Settings.GitSettingsJson.CopyRepositoryOptions | Editor/GitSettings.cs:130-135 | the six verbatim repository fields take the asset's values |
| Settings.GitSettingsJson.CopyDisplayOptions | Editor/GitSettings.cs:136-140 | the display fields take the asset's values, with threading and renames derived |
| Settings.GitSettingsJson.MarkDirty | Editor/GitSettings.cs:143-146 | only `IsDirty` changes, to true |
| Settings.GitSettingsJson.ResetDirty | Editor/GitSettings.cs:148-151 | only `IsDirty` changes, to false |
| Settings.ThreadingLayout | Editor/GitSettings.cs:56-104 | the five threading options are distinct single bits, and the default is Status, StatusListGui and CommitListGui without Stage or Unstage |
| Settings.ExternalsLayoutsAgree | Editor/GitSettings.cs:38-93 | the two `ExternalsTypeEnum` declarations agree member by member, and distinct members are disjoint bits |
| Settings.CopySpec | Editor/GitSettings.cs:128-141 | verbatim fields copied, threading the default exactly when multithreaded (else 0), renames All or None, other fields kept |
| Settings.CopyIdempotent | Editor/GitSettings.cs:128-141 | copying the same asset twice equals copying it once |
| Settings.Copied | Editor/GitSettings.cs:128-141 | the fields after `Copy`; stated by `CopySpec` and `CopyIdempotent` |
| DiffSorter.OrdinalCompare | Editor/Windows/Diff/GitDiffWindowSorter.cs:78-82 | the ordinal comparison; `OrdinalCompareZero`, `OrdinalCompareAntisymmetric` and `OrdinalCompareTransitive` make it a total order |
| DiffSorter.GetPriority | Editor/Windows/Diff/GitDiffWindowSorter.cs:101-124 | the priority of a status; stated by `PriorityByFlags` |
| DiffSorter.KeyCompare | Editor/Windows/Diff/GitDiffWindowSorter.cs:54-76 | the comparison by the chosen key, with each date read from its own row; `KeyCompareAntisymmetric` and `NewestFirst` |
| DiffSorter.Compare | Editor/Windows/Diff/GitDiffWindowSorter.cs:22-83 | the comparer with the date sorts corrected; stated by `CompareReflexive`, `CompareAntisymmetric`, `ZeroOnlyForSamePath`, `GroupingOrdersByPriority`, `DescendingSwaps`, `PendingFirst`, `OutOfRangeThrows` and `NewestFirst` |
| DiffSorter.CompareAsWritten | Editor/Windows/Diff/GitDiffWindowSorter.cs:22-83 | the comparer as written; `ModificationDateIgnoredAsWritten` and `ModificationDateCounterexample` show how it differs from `Compare` |
| DiffSorter.CompareValues | Editor/Windows/Diff/GitDiffWindowSorter.cs:24 | `CompareTo` is the sign of the difference |
| DiffSorter.OrdinalCompareZero | Editor/Windows/Diff/GitDiffWindowSorter.cs:78-82 | the ordinal comparison is 0 exactly on equal strings |
| DiffSorter.OrdinalCompareAntisymmetric | Editor/Windows/Diff/GitDiffWindowSorter.cs:78-82 | swapping the operands negates the ordinal comparison |
| DiffSorter.OrdinalCompareTransitive | Editor/Windows/Diff/GitDiffWindowSorter.cs:78-82 | the ordinal order is transitive |
| DiffSorter.PriorityByFlags | Editor/Windows/Diff/GitDiffWindowSorter.cs:101-124 | conflicted -1; else new 1; else modified 2; else deleted or renamed 3; else 4 |
| DiffSorter.GroupingOrdersByPriority | Editor/Windows/Diff/GitDiffWindowSorter.cs:24-26 | with grouping, different priorities order ascending whatever the other settings |
| DiffSorter.DescendingSwaps | Editor/Windows/Diff/GitDiffWindowSorter.cs:29-34 | within a group, descending compares the swapped pair ascending |
| DiffSorter.PendingFirst | Editor/Windows/Diff/GitDiffWindowSorter.cs:36-52 | a row with changes to stage and to unstage comes first ascending and last descending |
| DiffSorter.OutOfRangeThrows | Editor/Windows/Diff/GitDiffWindowSorter.cs:74-75 | an unknown sort type throws exactly when neither grouping nor unstaged priority decides first |
| DiffSorter.CompareReflexive | Editor/Windows/Diff/GitDiffWindowSorter.cs:22-83 | a row compares equal to itself for every known sort type |
| DiffSorter.KeyCompareAntisymmetric | Editor/Windows/Diff/GitDiffWindowSorter.cs:54-76 | the sort keys are antisymmetric |
| DiffSorter.CompareAntisymmetric | Editor/Windows/Diff/GitDiffWindowSorter.cs:22-83 | swapping the rows flips the sign of the result for every known sort type |
| DiffSorter.WithinGroupAntisymmetric | Editor/Windows/Diff/GitDiffWindowSorter.cs:29-82 | the steps after grouping keep the key's antisymmetry |
| DiffSorter.PendingCompareAntisymmetric | Editor/Windows/Diff/GitDiffWindowSorter.cs:36-52 | the unstaged-changes rule is antisymmetric |
| DiffSorter.ZeroOnlyForSamePath | Editor/Windows/Diff/GitDiffWindowSorter.cs:78-82 | the result is 0 only for rows with the same path |
| DiffSorter.NewestFirst | Editor/Windows/Diff/GitDiffWindowSorter.cs:62-73 | the newer row comes first ascending and last descending |
| DiffSorter.ModificationDateIgnoredAsWritten | Editor/Windows/Diff/GitDiffWindowSorter.cs:64-66 | as written, sorting by modification date ignores the dates |
| DiffSorter.ModificationDateCounterexample | Editor/Windows/Diff/GitDiffWindowSorter.cs:64-66 | as written, an older row is ordered before a newer one |
| DiffSorter.GroupCompare | Editor/Windows/Diff/GitDiffWindowSorter.cs:24 | the grouping step: priorities compared when grouping, 0 otherwise; stated by `GroupingOrdersByPriority` |
| DiffSorter.PendingCompare | Editor/Windows/Diff/GitDiffWindowSorter.cs:36-52 | the unstaged-changes step: -1 or 1 when exactly one row has changes to stage and to unstage, else 0; stated by `PendingFirst` and `PendingCompareAntisymmetric` |
| DiffSorter.WithinGroup | Editor/Windows/Diff/GitDiffWindowSorter.cs:29-82 | the steps after grouping: the unstaged-changes verdict when it decides, else the key's verdict with the ordinal path order on a tie, and the key's error when it throws; stated by `WithinGroupAntisymmetric`, `PendingFirst` and `OutOfRangeThrows` |
| Overlay.GuiContent.constructor | Editor/GitOverlay.cs:51-92 | an icon of the given kind and size, without a tooltip |
| Overlay.SetupTooltip | Editor/GitOverlay.cs:161-165 | the same content is returned with the status as its tooltip |
| Overlay.GitOverlay.constructor | Editor/GitOverlay.cs:51-92 | a fresh icon for every kind and size |
| Overlay.GitOverlay.Icon | Editor/GitOverlay.cs:100-124 | `small` picks the variant of the same kind |
| Overlay.GitOverlay.GetDiffTypeIcon | Editor/GitOverlay.cs:94-127 | none exactly when no category matches, else the first category's icon with the status tooltip; other icons untouched |
| Overlay.GitOverlay.YieldIf | Editor/GitOverlay.cs:131-158 | one step yields the category's icon exactly when its flags are set |
| Overlay.GitOverlay.GetDiffTypeIcons | Editor/GitOverlay.cs:129-159 | the icons of every matching category in order, each with the status tooltip; other icons untouched |
| Overlay.GitOverlay.GetChangeKindIcon | Editor/GitOverlay.cs:167-190 | an icon exactly for the known change kinds, of the requested size |
| Overlay.CategoryBits | Editor/GitOverlay.cs:98-124 | the flag positions that select each category |
| Overlay.KindsUpToSpec | Editor/GitOverlay.cs:129-159 | the list holds exactly the matching categories, in strictly increasing order |
| Overlay.KindsUpToFirst | Editor/GitOverlay.cs:94-159 | the list is empty exactly when no category matches, and starts with the first match |
| Overlay.DiffTypeKindIsFirst | Editor/GitOverlay.cs:94-159 | `GetDiffTypeIcon` picks the first icon `GetDiffTypeIcons` yields, and none when it yields none |
| Overlay.DiffTypeKindsOrder | Editor/GitOverlay.cs:129-159 | at most seven icons, in category order |
| Overlay.DiffTypeKindsMembers | Editor/GitOverlay.cs:129-159 | the icons are exactly the categories whose flags are set, never the valid icon |
| Overlay.DiffTypeKindByBits | Editor/GitOverlay.cs:94-127 | the chosen icon, by flag positions, in the order of the `if` chain |
| Overlay.ChangeKindAgrees | Editor/GitOverlay.cs:94-190 | the two overloads pick the same icon for the change kinds they both name |
| Overlay.ChangeKindIconDomain | Editor/GitOverlay.cs:167-190 | no icon exactly for copied, type-changed, unreadable and undeclared kinds |
| Overlay.DiffTypeKind | Editor/GitOverlay.cs:98-125 | the first matching icon category; stated by `DiffTypeKindByBits` and `DiffTypeKindIsFirst` |
| Overlay.ChangeKindIcon | Editor/GitOverlay.cs:167-190 | the icon category of a change kind; stated by `ChangeKindIconDomain` and `ChangeKindAgrees` |
| MenuPopup.Segments | Editor/Utils/ContextGenericMenuPopup.cs:52 | the segments are non-empty |
| MenuPopup.Element.constructor | Editor/Utils/ContextGenericMenuPopup.cs:13-26 | the fields as given, with children present exactly for a submenu |
| MenuPopup.Element.IsParent | Editor/Utils/ContextGenericMenuPopup.cs:25 | a sub-menu with at least one child; `AddElement` ensures the sub-menu it adds to is one afterwards |
| MenuPopup.FirstWithText | Editor/Utils/ContextGenericMenuPopup.cs:56 | null exactly when no element has the text, else the first that has it |
| MenuPopup.Walk | Editor/Utils/ContextGenericMenuPopup.cs:56-81 | the outcome of following the segments: a reached sub-menu is an old sub-menu, and a missing level lies before the last segment |
| MenuPopup.Destination | Editor/Utils/ContextGenericMenuPopup.cs:49-88 | the outcome for a whole text: top level for fewer than two segments, else `Walk` from the top |
| MenuPopup.ContextGenericMenuPopup.WalkMeaning | Editor/Utils/ContextGenericMenuPopup.cs:56-81 | `Walk` on the current menu means: top level only when an item lies on a proper prefix of the path; a reached menu has the path of all but the last segment; a missing level names the owner whose children lack the next segment |
| MenuPopup.ContextGenericMenuPopup.BuildPath | Editor/Utils/ContextGenericMenuPopup.cs:54-85 | from two segments on, the menu grows as `Walk` from the top predicts (`Grew`): nothing changes for a reached sub-menu or an item; otherwise one new sub-menu per missing level, the first named by the missing segment and hung under the last existing sub-menu or at the top level; every new sub-menu carries the item's image, an empty tooltip and the defaults of a new element: not on, no callback, not a separator, not disabled (`CreatedMenu`) |
| MenuPopup.ContextGenericMenuPopup.Begin | Editor/Utils/ContextGenericMenuPopup.cs:56-66 | the first step keeps the walk's prediction after one segment |
| MenuPopup.ContextGenericMenuPopup.Loop | Editor/Utils/ContextGenericMenuPopup.cs:68-81 | each loop step keeps the walk's prediction (`Along`); the loop ends at the reached or newly created parent, whose path is all but the last segment, with the menu grown as `Grew` states; every new sub-menu carries the item's image, an empty tooltip and the defaults of a new element: not on, no callback, not a separator, not disabled (`CreatedMenu`) |
| MenuPopup.ContextGenericMenuPopup.Advance | Editor/Utils/ContextGenericMenuPopup.cs:70-80 | one step keeps the walk's prediction (`Along`): an old sub-menu reached with nothing changed, or the chain of new sub-menus grown by one whose first is named by the missing segment; null exactly when the walk meets an item, with nothing changed; every new sub-menu carries the item's image, an empty tooltip and the defaults of a new element: not on, no callback, not a separator, not disabled (`CreatedMenu`) |
| MenuPopup.ContextGenericMenuPopup.PlaceTop | Editor/Utils/ContextGenericMenuPopup.cs:117-118 | with no parent the element is appended to the top level with its content unchanged and nothing else changes, as `Inserted` states for the outcome `TopLevel` |
| MenuPopup.ContextGenericMenuPopup.PlaceUnder | Editor/Utils/ContextGenericMenuPopup.cs:119-123 | under the parent `FindOrBuildTree` returned, the element is inserted as `Destination` predicts: appended to an old sub-menu's children, or the only child of the last new sub-menu, whose path is all but the last segment; one new entry per missing level plus the element; every new sub-menu carries the item's image, an empty tooltip and the defaults of a new element: not on, no callback, not a separator, not disabled (`CreatedMenu`) |
| MenuPopup.ContextGenericMenuPopup.AddBuilt | Editor/Utils/ContextGenericMenuPopup.cs:90-113 | the shared body of the four `Add` methods: one new element, inserted as `Destination` predicts; every new sub-menu carries the item's image, an empty tooltip and the defaults of a new element: not on, no callback, not a separator, not disabled (`CreatedMenu`) |
| MenuPopup.ContextGenericMenuPopup.constructor | Editor/Utils/ContextGenericMenuPopup.cs:41-47 | an empty menu |
| MenuPopup.ContextGenericMenuPopup.FindOrBuildTree | Editor/Utils/ContextGenericMenuPopup.cs:49-88 | the menu grows as `Destination` predicts: null exactly for an empty text, a single segment, or an item met where a sub-menu is needed, and then nothing changes; an existing sub-menu chain is reused unchanged; otherwise exactly one new sub-menu per missing level is created (the number of segments, less one, less the first missing level): the first carries the missing segment and the item's image and is appended to the top level or to the children of the last existing sub-menu, the only old entry whose children change; with the parent and child links of `Valid` the new sub-menus form the chain down to the parent, which is still empty; the parent's path is all but the last segment and the content becomes the last segment; every new sub-menu carries the item's image, an empty tooltip and the defaults of a new element: not on, no callback, not a separator, not disabled (`CreatedMenu`) |
| MenuPopup.ContextGenericMenuPopup.TopLevelMenu | Editor/Utils/ContextGenericMenuPopup.cs:56-66 | the first top-level entry with the text is reused when it is a sub-menu and gives null when it is an item, with nothing changed; when there is none, a fresh empty sub-menu is appended to the top level, with the text, the item's image, an empty tooltip and the defaults of a new element (not on, no callback, not a separator, not disabled) |
| MenuPopup.ContextGenericMenuPopup.AdvanceMissing | Editor/Utils/ContextGenericMenuPopup.cs:71-76 | with no child of the text, a new sub-menu is created: where the walk leaves the old menu it starts the chain of new sub-menus, named by the missing segment, otherwise it extends the chain by one; the invariant `Along` holds one segment further |
| MenuPopup.ContextGenericMenuPopup.AlongFound | Editor/Utils/ContextGenericMenuPopup.cs:70-80 | a step that finds a child with the text happens only on the old menu and changes nothing: an item ends the walk as `TopLevel`, a sub-menu keeps `Along` one segment further |
| MenuPopup.ContextGenericMenuPopup.NewSubMenu | Editor/Utils/ContextGenericMenuPopup.cs:73-75 | a fresh empty sub-menu is appended to the parent's children with a parent link, with the text, the item's image, an empty tooltip and the defaults of a new element |
| MenuPopup.ContextGenericMenuPopup.AddElement | Editor/Utils/ContextGenericMenuPopup.cs:115-124 | appends to the top level, or to the parent's children with a parent link |
| MenuPopup.ContextGenericMenuPopup.AddItem | Editor/Utils/ContextGenericMenuPopup.cs:90-94 | adds one new element with the callback, placed under its path; the old top-level elements are kept in order, the new element is appended to the parent `Destination` predicts (or to the top level), and no other old entry's children change; for a missing level, one new sub-menu per level is created, the first named by the missing segment with the item's image, and the new element is the only child of the last, whose path is all but the last segment; every new sub-menu carries the item's image, an empty tooltip and the defaults of a new element: not on, no callback, not a separator, not disabled (`CreatedMenu`) |
| MenuPopup.ContextGenericMenuPopup.AddDisabledItem | Editor/Utils/ContextGenericMenuPopup.cs:96-100 | adds one new disabled element placed under its path; the old top-level elements are kept in order, the new element is appended to the parent `Destination` predicts (or to the top level), and no other old entry's children change; for a missing level, one new sub-menu per level is created, the first named by the missing segment with the item's image, and the new element is the only child of the last, whose path is all but the last segment; every new sub-menu carries the item's image, an empty tooltip and the defaults of a new element: not on, no callback, not a separator, not disabled (`CreatedMenu`) |
| MenuPopup.ContextGenericMenuPopup.AddItemWithData | Editor/Utils/ContextGenericMenuPopup.cs:102-106 | adds one new element with the callback and its data, placed under its path; the old top-level elements are kept in order, the new element is appended to the parent `Destination` predicts (or to the top level), and no other old entry's children change; for a missing level, one new sub-menu per level is created, the first named by the missing segment with the item's image, and the new element is the only child of the last, whose path is all but the last segment; every new sub-menu carries the item's image, an empty tooltip and the defaults of a new element: not on, no callback, not a separator, not disabled (`CreatedMenu`) |
| MenuPopup.ContextGenericMenuPopup.AddSeparator | Editor/Utils/ContextGenericMenuPopup.cs:108-113 | adds one new separator placed under its path; the old top-level elements are kept in order, the new element is appended to the parent `Destination` predicts (or to the top level), and no other old entry's children change; for a missing level, one new sub-menu per level is created, the first named by the missing segment with the item's image, and the new element is the only child of the last, whose path is all but the last segment; every new sub-menu carries the item's image, an empty tooltip and the defaults of a new element: not on, no callback, not a separator, not disabled (`CreatedMenu`) |
| CiBuild.GetArg | Editor/Utils/GitCiBuild.cs:36-47 | the argument after the first occurrence of the name that has one; none when there is no such occurrence; a result is never the first argument |

## Left out

- LibGit2Sharp is not part of this model: `new Repository`, `RetrieveStatus`, `GitCommands.Stage` and `Unstage`. The status they report is the `Scan` parameter. Staging is an event in the log.
- `GetStatusOptions` and the rename-detection options it passes to LibGit2Sharp are not modelled.
- Threads and locks are not modelled. `GitAsyncManager` is not part of this model.
  - A worker job is an entry in `workers` and runs to its end as one step, whenever the environment chooses.
  - How `GitAsyncManager` hands a finished operation's `onComplete` back to the editor is not visible in this model. The model appends a stage job's completion to `actionQueue` as a `StageDone` action, so a tick runs it on the main thread after the actions queued before it.
  - Interleavings inside a job are not modelled.
  - `ThreadAbortException` is not modelled. In the source, `RebuildStatus` swallows it with `Thread.ResetAbort()` (GitManager.cs:225-229), so `RetreiveStatus` goes on as after a success: it publishes the old status and rebuilds the tree from it. The model treats an aborted whole-status retrieval like one that throws: it runs `FinishUpdating` and logs `StatusRetrievalError`.
- The threading option `StatusList` that `Update` tests does not exist in `ThreadingType`. The model uses the Status bit in its place; `threaded` is a parameter of the update.
- File-system queries are oracles:
  - `IsEmptyFolderMeta` takes the set of existing empty directories as a parameter.
  - File dates for the date sorts come from the `Environment` parameter.
  - `GetClosest` (GitDiffWindowSorter.cs:85-99) is not modelled; the environment gives each path's date directly.
- The culture-aware, case-insensitive `string.Compare` is a parameter. The comparer laws are proved assuming it is antisymmetric.
- `GetPathWithMeta` is a lazy `yield` sequence in the source. Here it is an eager sequence.
- Icons are kinds with a size; textures and the resource manager are not modelled.
- `SetupTooltip` stores the status itself as the tooltip; `FileStatus.ToString()` is not modelled.
- In `ContextGenericMenuPopup`, a null text is an empty string. Drawing, hovering, animation and window sizing are not modelled.
- The two `AddItem` overloads are `AddItem` and `AddItemWithData`.
- MenuPopup.ContextGenericMenuPopup.AddElement: requires the element to be new, with no children. That is how every caller in the file uses it.
- StatusTree.AddRecursive: the nested `Dictionary` updated in place is a map value returned by a function. The `currentPath`, `currentPathArray` and `currentStatus` fields become parameters.
- `GitCiBuild.PerformBuild` (file copies and the build) is not modelled. `GetArg` takes the command line as a parameter.
- `FlagHelper.GetDescription` uses reflection and is not modelled.
- Logging and the profiler samples appear only as events in the log, or not at all.
- `RepaintProjectWidnow` and the callbacks are events in the log; what their handlers do is not modelled.
- `MaxCommitTextAreaSize` is a `float` that is only copied. It is a `real` here.
- ManagerSpec.ReplaceStatus: `GitRepoStatus` is not part of this model. Its `Update` is taken to replace the entry for the path when there is one and to append one otherwise. A path with no entry reads as `Nonexistent`. `ManagerSpec.UpdateEntry` rests on the same reading.
- The model assumes Windows paths:
  - `ManagerSpec.FixPath` maps `'/'` to `'\\'`.
  - `Text.IsPathSeparator` counts `':'` as a separator, as `Path.HasExtension` does on Windows.
  - `StatusTree.TreeKeys` splits on `'\\'`.
  - The separators of other platforms are not modelled.
- Text.EndsWith: compares character by character. .NET's `EndsWith(string)` compares under the current culture (GitManager.cs:536, 554, 581). The two agree on ".meta" except under cultures that ignore or fold characters, which are not modelled.
- Text.HasExtension: on .NET Framework `Path.HasExtension` throws `ArgumentException` for a path with invalid characters. The model has no such error and answers from the characters alone.
- Overlay.GitOverlay.GetDiffTypeIcons: builds the whole list at once. The source is a lazy `yield` sequence (GitOverlay.cs:129-159), which sets no tooltip until it is enumerated. The model sets each tooltip as if the caller enumerated the whole sequence.
- Manager.GitManager: `actionQueue` is `static` in the source (GitManager.cs:27), so every manager shares one queue. Here it is a field of each manager. Interference between several managers through the shared queue is not modelled.
- DiffSorter.OrdinalCompare: compares Unicode scalar values. .NET compares UTF-16 code units. The two differ when a character above U+FFFF meets one in U+E000 to U+FFFF: a surrogate sorts below U+E000, but the scalar value sorts above it.

## Findings

| source | as written | input that shows it | evidently intended | confidence | as-written member | corrected member |
|---|---|---|---|---|---|---|
| Editor/Windows/Diff/GitDiffWindowSorter.cs:64-66 | both modification dates are read from `x.LocalPath`, so the comparison is always 0 and the rows fall through to the ordinal path order | "a.txt" modified at tick 1 and "b.txt" at tick 2, sorted ascending by modification date: "a.txt" comes first | read the right row's date from `y.LocalPath`, as the creation-date case does, so the newer row comes first | not executed | DiffSorter.ModificationDateCounterexample | DiffSorter.NewestFirst |
