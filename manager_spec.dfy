/**
  The status-synchronisation state machine of GitManager.cs, as functions on a
  value holding every field the machine reads or writes.  The class
  `Manager.GitManager` is proved against these functions; the lemmas here
  state what the machine guarantees.

  Inputs the source reads from its environment are parameters:
  - `Editor`: `IsValidRepo` and the editor's play-mode, compile and asset
    database flags, as `GetUpdateStatus` reads them;
  - `Scan`: what LibGit2Sharp's `RetrieveStatus` reports (LibGit2Sharp is not
    part of this model);
  - `threaded`: whether status retrieval runs on a worker;
  - `BuildSettings`: the settings the status tree reads.
  Work queued on a background worker (`GitAsyncManager` is not part of this
  model) is kept in `workers` and runs, one job at a time, when the
  environment chooses; callbacks and log messages are recorded in `events`.
 */
module ManagerSpec {
  import opened Wrappers
  import opened FlagHelper
  import opened GitTypes
  import opened Text
  import opened StatusTree
  import Settings

  /** `UpdateStatusEnum`. */
  datatype UpdateStatusEnum = Ready | Other | InvalidRepo | SwitchingToPlayMode | Compiling | UpdatingAssetDatabase | Updating

  /** The editor state `GetUpdateStatus` and `Update` read. */
  datatype Editor = Editor(isValidRepo: bool, isPlayingOrWillChangePlaymode: bool, isPlaying: bool, isCompiling: bool, isUpdating: bool)

  /** What `RetrieveStatus` reports: the whole snapshot (None when that call throws), the flags of single
      paths (`Nonexistent` for paths not listed), and the single paths whose retrieval throws. */
  datatype Scan = Scan(full: Option<seq<StatusEntry>>, files: map<string, Bits>, failing: set<string>)

  /** A loaded `Repository`, numbered in loading order. */
  datatype Repo = Repo(generation: nat)

  datatype StageKind = StageFiles | UnstageFiles

  /** `AsyncStageOperation`: the background operation and the set of its paths. */
  datatype AsyncStageOperation = AsyncStageOperation(operation: nat, paths: set<string>)

  /** The actions the manager puts on `actionQueue`, the completion callback of a stage job (delivered
      to the main thread through the same queue), plus actions queued by other code and null entries. */
  datatype Action =
    | PublishStatus(paths: Option<seq<string>>)
    | RepaintProjectWindow
    | FinishUpdatingAction
    | StageDone(operation: nat, files: seq<string>)
    | External(id: int)
    | NullAction

  /** Work handed to a background worker. */
  datatype Job =
    | StatusJob(paths: Option<seq<string>>)
    | TreeJob(snapshot: Option<seq<StatusEntry>>)
    | StageJob(operation: nat, kind: StageKind, files: seq<string>)

  /** Callbacks issued and messages logged. */
  datatype Event =
    | UpdateRepositoryStart
    | UpdateRepositoryFinish
    | RepositoryLoad(repo: Repo)
    | UpdateRepository(status: Option<seq<StatusEntry>>, paths: Option<seq<string>>)
    | StatusRetrievalError
    | TreeBuildError
    | ProjectWindowRepaint
    | ActionException(id: int)
    | Staged(stagedPaths: seq<string>)
    | Unstaged(unstagedPaths: seq<string>)
    | AsyncStageOperationDone(operation: nat)

  /** How a tick ends: normally, or rethrowing the exception of the action it ran. */
  datatype TickOutcome = Completed | Rethrown(id: int)

  /** The fields of a `GitManager`. */
  datatype ManagerState = ManagerState(
    repository: Option<Repo>,
    status: Option<seq<StatusEntry>>,
    statusTree: Option<map<string, Node>>,
    repositoryDirty: bool,
    reloadDirty: bool,
    isUpdating: bool,
    dirtyFiles: set<string>,
    updatingFiles: set<string>,
    actionQueue: seq<Action>,
    asyncStages: seq<AsyncStageOperation>,
    workers: seq<Job>,
    nextOperation: nat,
    nextRepository: nat,
    events: seq<Event>)

  /** The state after construction (`Initlize`): dirty exactly when the repository is valid. */
  function Initial(isValidRepo: bool): ManagerState
  {
    ManagerState(None, None, None, isValidRepo, false, false, {}, {}, [], [], [], 0, 0, [])
  }

  // ---------------------------------------------------------------------------
  // Queries

  /** `GetUpdateStatus`: the first reason not to update, in priority order, or `Ready`. */
  function GetUpdateStatus(editor: Editor, isUpdating: bool): (r: UpdateStatusEnum)
    ensures r != Other
    ensures r == Ready <==> (editor.isValidRepo && !(editor.isPlayingOrWillChangePlaymode && !editor.isPlaying)
                             && !editor.isCompiling && !editor.isUpdating && !isUpdating)
  {
    if !editor.isValidRepo then InvalidRepo
    else if editor.isPlayingOrWillChangePlaymode && !editor.isPlaying then SwitchingToPlayMode
    else if editor.isCompiling then Compiling
    else if editor.isUpdating then UpdatingAssetDatabase
    else if isUpdating then Updating
    else Ready
  }

  /** `IsFileDirty`. */
  predicate IsFileDirty(s: ManagerState, path: string)
  {
    s.dirtyFiles != {} && path in s.dirtyFiles
  }

  /** `IsFileUpdating`: while updating, every path when no paths were given, else the given ones. */
  predicate IsFileUpdating(s: ManagerState, path: string)
  {
    s.isUpdating && (s.updatingFiles == {} || path in s.updatingFiles)
  }

  /** `IsFileStaging`: some registered stage operation holds the path. */
  predicate IsFileStaging(s: ManagerState, path: string)
  {
    exists i :: 0 <= i < |s.asyncStages| && path in s.asyncStages[i].paths
  }

  /** `IsAsyncStaging`. */
  predicate IsAsyncStaging(s: ManagerState)
  {
    |s.asyncStages| > 0
  }

  /** `IsDirty`. */
  predicate IsDirty(s: ManagerState)
  {
    s.dirtyFiles != {}
  }

  // ---------------------------------------------------------------------------
  // Marking dirty

  /** A path with Unity's '/' separators replaced by the platform's '\\'. */
  function FixPath(path: string): (r: string)
    ensures |r| == |path| && '/' !in r
  {
    ReplaceChar(path, '/', '\\')
  }

  function FixedPaths(paths: seq<string>): set<string>
  {
    set p | p in paths :: FixPath(p)
  }

  /** `MarkDirty()`. */
  function MarkDirty(s: ManagerState): ManagerState
  {
    s.(repositoryDirty := true)
  }

  /** `MarkDirty(bool reloadRepo)`. */
  function MarkDirtyReload(s: ManagerState, reloadRepo: bool): ManagerState
  {
    s.(repositoryDirty := true, reloadDirty := reloadRepo)
  }

  /** `MarkDirty(paths)`: adds each path, normalised to the platform separator. */
  function MarkDirtyPaths(s: ManagerState, paths: seq<string>): ManagerState
  {
    s.(dirtyFiles := s.dirtyFiles + FixedPaths(paths))
  }

  // ---------------------------------------------------------------------------
  // Updating

  function PathSet(paths: Option<seq<string>>): set<string>
  {
    if paths.None? then {} else set p | p in paths.value
  }

  /** `StartUpdating`. */
  function StartUpdating(s: ManagerState, paths: Option<seq<string>>): ManagerState
  {
    s.(isUpdating := true, updatingFiles := PathSet(paths), events := s.events + [UpdateRepositoryStart])
  }

  /** `FinishUpdating`. */
  function FinishUpdating(s: ManagerState): ManagerState
  {
    s.(isUpdating := false, updatingFiles := {}, events := s.events + [UpdateRepositoryFinish])
  }

  /** Runs one of the manager's actions, or the completion of a stage job.  Code outside this model that an
      `External` action runs is not modelled. */
  function Invoke(s: ManagerState, action: Action): ManagerState
  {
    match action
    case PublishStatus(paths) =>
      s.(events := s.events + [UpdateRepository(s.status, paths)], workers := s.workers + [TreeJob(s.status)])
    case RepaintProjectWindow => s.(events := s.events + [ProjectWindowRepaint])
    case FinishUpdatingAction => FinishUpdating(s)
    case StageDone(operation, paths) => CompleteStage(s, operation, paths)
    case External(_) => s
    case NullAction => s
  }

  /** `ExecuteAction(action, async)`: queues the action, or runs it now. */
  function ExecuteAction(s: ManagerState, action: Action, async: bool): ManagerState
  {
    if async then s.(actionQueue := s.actionQueue + [action]) else Invoke(s, action)
  }

  /** The flags of the first snapshot entry for `path`. */
  function Find(entries: seq<StatusEntry>, path: string): Option<Bits>
  {
    if entries == [] then None
    else if entries[0].path == path then Some(entries[0].status)
    else Find(entries[1..], path)
  }

  /** Every entry for `path` with its flags replaced. */
  function ReplaceStatus(entries: seq<StatusEntry>, path: string, status: Bits): (r: seq<StatusEntry>)
    ensures |r| == |entries|
    ensures Find(r, path) == if Find(entries, path).Some? then Some(status) else None
    ensures forall q :: q != path ==> Find(r, q) == Find(entries, q)
  {
    if entries == [] then []
    else [if entries[0].path == path then StatusEntry(path, status) else entries[0]] + ReplaceStatus(entries[1..], path, status)
  }

  /** `GitRepoStatus.Update(path, status)` (GitRepoStatus is not part of this model): the path's entries
      get the new flags, and a path without one gets a new entry at the end. */
  function UpdateEntry(entries: seq<StatusEntry>, path: string, status: Bits): (r: seq<StatusEntry>)
    ensures Find(r, path) == Some(status)
    ensures forall q :: q != path ==> Find(r, q) == Find(entries, q)
  {
    if Find(entries, path).Some? then ReplaceStatus(entries, path, status)
    else
      FindAppend(entries, StatusEntry(path, status));
      entries + [StatusEntry(path, status)]
  }

  /** What `RetrieveStatus(path)` returns for a single path. */
  function FileStatusOf(scan: Scan, path: string): Bits
  {
    if path in scan.files then scan.files[path] else Nonexistent
  }

  /** The `foreach` of `RebuildStatus` over single paths: stops at the first path whose retrieval throws. */
  function UpdatePaths(entries: seq<StatusEntry>, paths: seq<string>, scan: Scan): (seq<StatusEntry>, bool)
    decreases |paths|
  {
    if paths == [] then (entries, true)
    else if paths[0] in scan.failing then (entries, false)
    else UpdatePaths(UpdateEntry(entries, paths[0], FileStatusOf(scan, paths[0])), paths[1..], scan)
  }

  /** The paths `UpdatePaths` gets to: those before the first failing one. */
  function Processed(paths: seq<string>, scan: Scan): (r: seq<string>)
    ensures |r| <= |paths| && r == paths[..|r|]
    ensures forall p :: p in r ==> p !in scan.failing
    ensures |r| < |paths| ==> paths[|r|] in scan.failing
  {
    if paths == [] || paths[0] in scan.failing then []
    else [paths[0]] + Processed(paths[1..], scan)
  }

  /** `RebuildStatus`: path by path when paths are given and a status exists, else a whole new snapshot;
      also whether it completed without an exception. */
  function RebuildStatus(s: ManagerState, paths: Option<seq<string>>, scan: Scan): (ManagerState, bool)
  {
    if paths.Some? && |paths.value| > 0 && s.status.Some? then
      var r := UpdatePaths(s.status.value, paths.value, scan);
      (s.(status := Some(r.0)), r.1)
    else if scan.full.Some? then (s.(status := scan.full), true)
    else (s, false)
  }

  /** `UpdateStatusTree(status, threaded)`: a new tree, then a repaint, and in any case `FinishUpdating`
      (each run now or queued).  A null status makes the build throw, which is logged. */
  function UpdateStatusTree(s: ManagerState, snapshot: Option<seq<StatusEntry>>, threaded: bool, settings: BuildSettings): ManagerState
  {
    if snapshot.None? then
      ExecuteAction(s.(events := s.events + [TreeBuildError]), FinishUpdatingAction, threaded)
    else
      var built := s.(statusTree := Some(BuildFrom(map[], snapshot.value, settings)));
      ExecuteAction(ExecuteAction(built, RepaintProjectWindow, threaded), FinishUpdatingAction, threaded)
  }

  /** `RetreiveStatus(paths, threaded)`. */
  function RetreiveStatus(s: ManagerState, paths: Option<seq<string>>, threaded: bool, scan: Scan, settings: BuildSettings): ManagerState
  {
    var (rebuilt, ok) := RebuildStatus(s, paths, scan);
    if !ok then
      var finished := ExecuteAction(rebuilt, FinishUpdatingAction, threaded);
      finished.(events := finished.events + [StatusRetrievalError])
    else if threaded then rebuilt.(actionQueue := rebuilt.actionQueue + [PublishStatus(paths)])
    else
      UpdateStatusTree(rebuilt.(events := rebuilt.events + [UpdateRepository(rebuilt.status, paths)]), rebuilt.status, false, settings)
  }

  /** Loads a new `Repository`. */
  function LoadRepository(s: ManagerState): ManagerState
  {
    var repo := Repo(s.nextRepository);
    s.(repository := Some(repo), nextRepository := s.nextRepository + 1, events := s.events + [RepositoryLoad(repo)])
  }

  /** The start of `Update`: marks the update as running and loads a repository when there is none or a
      reload is asked for, provided the repository is valid. */
  function BeginUpdate(s: ManagerState, reloadRepository: bool, paths: Option<seq<string>>, editor: Editor): ManagerState
  {
    var started := StartUpdating(s, paths);
    if (started.repository.None? || reloadRepository) && editor.isValidRepo then LoadRepository(started) else started
  }

  /** `Update(reloadRepository, paths)`. */
  function Update(s: ManagerState, reloadRepository: bool, paths: Option<seq<string>>, editor: Editor, scan: Scan, threaded: bool, settings: BuildSettings): ManagerState
  {
    var loaded := BeginUpdate(s, reloadRepository, paths, editor);
    if loaded.repository.None? then loaded
    else if threaded then loaded.(workers := loaded.workers + [StatusJob(paths)])
    else RetreiveStatus(loaded, paths, false, scan, settings)
  }

  /** Whether `Update` retrieves the status on a worker: the threading option `StatusList` it tests is not
      declared by `ThreadingType`, so the status bit stands for it. */
  function StatusThreaded(threading: Bits): bool
  {
    IsFlagSet(threading, Settings.ThreadingStatus)
  }

  /** `order` lists the elements of `files` once each, as `ToArray` does. */
  ghost predicate IsEnumeration(order: seq<string>, files: set<string>)
  {
    (forall p :: p in order <==> p in files) && (forall i, j :: 0 <= i < j < |order| ==> order[i] != order[j])
  }

  /** A full update clears every dirty mark. */
  function ClearDirtyMarks(s: ManagerState): ManagerState
  {
    s.(reloadDirty := false, repositoryDirty := false, dirtyFiles := {})
  }

  /** A scoped update clears the dirty files. */
  function ClearDirtyFiles(s: ManagerState): ManagerState
  {
    s.(dirtyFiles := {})
  }

  /** The update half of `OnEditorUpdate`; `order` is the order in which `dirtyFiles.ToArray()` lists the dirty files. */
  function UpdatePhase(s: ManagerState, editor: Editor, scan: Scan, threaded: bool, settings: BuildSettings, order: seq<string>): ManagerState
  {
    if GetUpdateStatus(editor, s.isUpdating) != Ready then s
    else if s.repository.None? || s.repositoryDirty then
      ClearDirtyMarks(Update(s, s.reloadDirty, None, editor, scan, threaded, settings))
    else if s.dirtyFiles != {} then
      ClearDirtyFiles(Update(s, s.reloadDirty || s.repository.None?, Some(order), editor, scan, threaded, settings))
    else s
  }

  /** The action half of `OnEditorUpdate`: dequeues one action and runs it unless it is null; an exception
      from it (`actionFails`) is logged and rethrown. */
  function RunNextAction(s: ManagerState, actionFails: bool): (ManagerState, TickOutcome)
  {
    if s.actionQueue == [] then (s, Completed)
    else
      var action := s.actionQueue[0];
      var rest := s.(actionQueue := s.actionQueue[1..]);
      if action.NullAction? then (rest, Completed)
      else if action.External? && actionFails then (rest.(events := rest.events + [ActionException(action.id)]), Rethrown(action.id))
      else (Invoke(rest, action), Completed)
  }

  /** `OnEditorUpdate`. */
  function OnEditorUpdate(s: ManagerState, editor: Editor, scan: Scan, threaded: bool, settings: BuildSettings, order: seq<string>, actionFails: bool): (ManagerState, TickOutcome)
  {
    RunNextAction(UpdatePhase(s, editor, scan, threaded, settings, order), actionFails)
  }

  // ---------------------------------------------------------------------------
  // Staging and background jobs

  /** `asyncStages.RemoveAll(s => s.Equals(operation))`. */
  function RemoveOperation(stages: seq<AsyncStageOperation>, operation: nat): (r: seq<AsyncStageOperation>)
    ensures forall x :: x in r <==> x in stages && x.operation != operation
  {
    if stages == [] then []
    else (if stages[0].operation == operation then [] else [stages[0]]) + RemoveOperation(stages[1..], operation)
  }

  /** The completion callback of `AsyncStage`/`AsyncUnstage`. */
  function CompleteStage(s: ManagerState, operation: nat, paths: seq<string>): ManagerState
  {
    var marked := MarkDirtyPaths(s, paths);
    marked.(asyncStages := RemoveOperation(marked.asyncStages, operation), events := marked.events + [AsyncStageOperationDone(operation)])
  }

  /** `AsyncStage`/`AsyncUnstage`: queues the job, registers its paths, and returns the operation. */
  function AsyncStage(s: ManagerState, kind: StageKind, paths: seq<string>): (ManagerState, nat)
  {
    var operation := s.nextOperation;
    (s.(workers := s.workers + [StageJob(operation, kind, paths)],
        asyncStages := s.asyncStages + [AsyncStageOperation(operation, set p | p in paths)],
        nextOperation := operation + 1),
     operation)
  }

  function StagedEvent(kind: StageKind, paths: seq<string>): Event
  {
    if kind == StageFiles then Staged(paths) else Unstaged(paths)
  }

  /** `AutoStage`/`AutoUnstage`: in the background when the threading flag of the kind is set, else now. */
  function AutoStage(s: ManagerState, threading: Bits, kind: StageKind, paths: seq<string>): ManagerState
  {
    var flag := if kind == StageFiles then Settings.ThreadingStage else Settings.ThreadingUnstage;
    if IsFlagSet(threading, flag) then AsyncStage(s, kind, paths).0
    else MarkDirtyPaths(s.(events := s.events + [StagedEvent(kind, paths)]), paths)
  }

  function RemoveAt<T>(xs: seq<T>, i: nat): (r: seq<T>)
    requires i < |xs|
    ensures |r| == |xs| - 1
  {
    xs[..i] + xs[i + 1..]
  }

  /** A worker runs job `i` to its end; a stage job's completion callback is queued for the main thread. */
  function RunWorker(s: ManagerState, i: nat, scan: Scan, settings: BuildSettings): ManagerState
    requires i < |s.workers|
  {
    var rest := s.(workers := RemoveAt(s.workers, i));
    match s.workers[i]
    case StatusJob(paths) => RetreiveStatus(rest, paths, true, scan, settings)
    case TreeJob(snapshot) => UpdateStatusTree(rest, snapshot, true, settings)
    case StageJob(operation, kind, paths) =>
      rest.(events := rest.events + [StagedEvent(kind, paths)], actionQueue := rest.actionQueue + [StageDone(operation, paths)])
  }

  // ---------------------------------------------------------------------------
  // The invariant

  function Count<T>(xs: seq<T>, p: T -> bool): nat
  {
    if xs == [] then 0 else (if p(xs[0]) then 1 else 0) + Count(xs[1..], p)
  }

  predicate IsPipelineJob(job: Job)
  {
    !job.StageJob?
  }

  predicate IsPipelineAction(action: Action)
  {
    action.PublishStatus? || action.FinishUpdatingAction?
  }

  /** The pieces of an update still to run: its status or tree job, or its publish or finish action. */
  function Pending(s: ManagerState): nat
  {
    Count(s.workers, IsPipelineJob) + Count(s.actionQueue, IsPipelineAction)
  }

  /** A stage job for the registration is still to run. */
  predicate HasJob(workers: seq<Job>, stage: AsyncStageOperation)
  {
    exists j :: 0 <= j < |workers| && workers[j].StageJob? && workers[j].operation == stage.operation
      && (set p | p in workers[j].files) == stage.paths
  }

  /** The completion of the registration's stage job is queued. */
  predicate HasDone(queue: seq<Action>, stage: AsyncStageOperation)
  {
    exists j :: 0 <= j < |queue| && queue[j].StageDone? && queue[j].operation == stage.operation
      && (set p | p in queue[j].files) == stage.paths
  }

  predicate StagesHaveJobs(s: ManagerState)
  {
    Covered(s.asyncStages, s.workers, s.actionQueue)
  }

  /** Exactly one piece of work is in flight while updating and none otherwise; nothing is listed as
      updating outside an update; a reload is only ever requested together with a full update; and every
      registered stage operation still has its job to run or its completion queued. */
  predicate Valid(s: ManagerState)
  {
    && Pending(s) == (if s.isUpdating then 1 else 0)
    && (!s.isUpdating ==> s.updatingFiles == {})
    && (s.reloadDirty ==> s.repositoryDirty)
    && StagesHaveJobs(s)
  }

  // ---------------------------------------------------------------------------
  // Lemmas about the helpers

  lemma {:induction false} FindAppend(entries: seq<StatusEntry>, e: StatusEntry)
    ensures forall q :: Find(entries + [e], q) == if Find(entries, q).Some? then Find(entries, q) else if e.path == q then Some(e.status) else None
  {
    if entries != [] {
      assert (entries + [e])[1..] == entries[1..] + [e];
      FindAppend(entries[1..], e);
    } else {
      assert ([e])[1..] == [];
    }
  }

  lemma {:induction false} CountAppend<T>(a: seq<T>, b: seq<T>, p: T -> bool)
    ensures Count(a + b, p) == Count(a, p) + Count(b, p)
  {
    if a != [] {
      assert (a + b)[1..] == a[1..] + b;
      CountAppend(a[1..], b, p);
    } else {
      assert a + b == b;
    }
  }

  lemma CountDropFirst<T>(xs: seq<T>, p: T -> bool)
    requires xs != []
    ensures Count(xs[1..], p) + (if p(xs[0]) then 1 else 0) == Count(xs, p)
  {
  }

  lemma {:induction false} CountRemoveAt<T>(xs: seq<T>, i: nat, p: T -> bool)
    requires i < |xs|
    ensures Count(RemoveAt(xs, i), p) + (if p(xs[i]) then 1 else 0) == Count(xs, p)
  {
    if i == 0 {
      assert RemoveAt(xs, 0) == xs[1..];
    } else {
      var tail := xs[1..];
      CountRemoveAt(tail, i - 1, p);
      var r := RemoveAt(xs, i);
      assert r[0] == xs[0];
      assert r[1..] == RemoveAt(tail, i - 1);
      assert tail[i - 1] == xs[i];
    }
  }

  lemma CountPush<T>(xs: seq<T>, x: T, p: T -> bool)
    ensures Count(xs + [x], p) == Count(xs, p) + (if p(x) then 1 else 0)
  {
    CountAppend(xs, [x], p);
    assert [x][1..] == [];
  }

  /** Every registration in `stages` has its job in `workers` or its completion in `queue`. */
  predicate Covered(stages: seq<AsyncStageOperation>, workers: seq<Job>, queue: seq<Action>)
  {
    forall stage :: stage in stages ==> HasJob(workers, stage) || HasDone(queue, stage)
  }

  lemma CoveredPushJob(stages: seq<AsyncStageOperation>, workers: seq<Job>, queue: seq<Action>, job: Job)
    requires Covered(stages, workers, queue)
    ensures Covered(stages, workers + [job], queue)
  {
    forall stage | stage in stages ensures HasJob(workers + [job], stage) || HasDone(queue, stage) {
      if HasJob(workers, stage) {
        var j :| 0 <= j < |workers| && workers[j].StageJob? && workers[j].operation == stage.operation
          && (set p | p in workers[j].files) == stage.paths;
        assert (workers + [job])[j] == workers[j];
      }
    }
  }

  lemma CoveredPushAction(stages: seq<AsyncStageOperation>, workers: seq<Job>, queue: seq<Action>, action: Action)
    requires Covered(stages, workers, queue)
    ensures Covered(stages, workers, queue + [action])
  {
    forall stage | stage in stages ensures HasJob(workers, stage) || HasDone(queue + [action], stage) {
      if HasDone(queue, stage) {
        var j :| 0 <= j < |queue| && queue[j].StageDone? && queue[j].operation == stage.operation
          && (set p | p in queue[j].files) == stage.paths;
        assert (queue + [action])[j] == queue[j];
      }
    }
  }

  /** Removing job `i` keeps every registration covered when the job's completion is queued in its
      place, or when no registration is waiting for that job. */
  lemma CoveredRemove(stages: seq<AsyncStageOperation>, workers: seq<Job>, queue: seq<Action>, i: nat, done: seq<Action>)
    requires i < |workers| && Covered(stages, workers, queue)
    requires workers[i].StageJob? ==> done == [StageDone(workers[i].operation, workers[i].files)]
    requires !workers[i].StageJob? ==> done == []
    ensures Covered(stages, RemoveAt(workers, i), queue + done)
  {
    var rest := RemoveAt(workers, i);
    forall stage | stage in stages ensures HasJob(rest, stage) || HasDone(queue + done, stage) {
      if HasDone(queue, stage) {
        var j :| 0 <= j < |queue| && queue[j].StageDone? && queue[j].operation == stage.operation
          && (set p | p in queue[j].files) == stage.paths;
        assert (queue + done)[j] == queue[j];
      } else {
        var j :| 0 <= j < |workers| && workers[j].StageJob? && workers[j].operation == stage.operation
          && (set p | p in workers[j].files) == stage.paths;
        if j < i {
          assert rest[j] == workers[j];
        } else if j > i {
          assert rest[j - 1] == workers[j];
        } else {
          assert (queue + done)[|queue|] == StageDone(workers[i].operation, workers[i].files);
        }
      }
    }
  }

  /** Dequeuing the head of the queue keeps every registration covered, except those a stage
      completion at the head is for: running it unregisters them. */
  lemma CoveredDequeue(stages: seq<AsyncStageOperation>, workers: seq<Job>, queue: seq<Action>)
    requires queue != [] && Covered(stages, workers, queue)
    ensures !queue[0].StageDone? ==> Covered(stages, workers, queue[1..])
    ensures queue[0].StageDone? ==> Covered(RemoveOperation(stages, queue[0].operation), workers, queue[1..])
  {
    var kept := if queue[0].StageDone? then RemoveOperation(stages, queue[0].operation) else stages;
    forall stage | stage in kept ensures HasJob(workers, stage) || HasDone(queue[1..], stage) {
      if !HasJob(workers, stage) {
        var j :| 0 <= j < |queue| && queue[j].StageDone? && queue[j].operation == stage.operation
          && (set p | p in queue[j].files) == stage.paths;
        assert j != 0;
        assert queue[1..][j - 1] == queue[j];
      }
    }
  }

  // ---------------------------------------------------------------------------
  // Properties

  /** `GetUpdateStatus` reports the reasons in a fixed priority: an invalid repository first, then a
      pending switch to play mode, compilation, an asset database refresh, and a running update last. */
  lemma UpdateStatusPriority(editor: Editor, isUpdating: bool)
    ensures var r := GetUpdateStatus(editor, isUpdating);
      var switching := editor.isPlayingOrWillChangePlaymode && !editor.isPlaying;
      && (r == InvalidRepo <==> !editor.isValidRepo)
      && (r == SwitchingToPlayMode <==> editor.isValidRepo && switching)
      && (r == Compiling <==> editor.isValidRepo && !switching && editor.isCompiling)
      && (r == UpdatingAssetDatabase <==> editor.isValidRepo && !switching && !editor.isCompiling && editor.isUpdating)
      && (r == Updating <==> editor.isValidRepo && !switching && !editor.isCompiling && !editor.isUpdating && isUpdating)
  {
  }

  /** A newly constructed manager satisfies the invariant. */
  lemma InitialValid(isValidRepo: bool)
    ensures Valid(Initial(isValidRepo))
    ensures IsDirty(Initial(isValidRepo)) == false && Initial(isValidRepo).repositoryDirty == isValidRepo
  {
  }

  /** Marking paths dirty adds exactly their normalised forms, is idempotent, and keeps the invariant. */
  lemma MarkDirtyPathsSpec(s: ManagerState, paths: seq<string>)
    ensures var r := MarkDirtyPaths(s, paths);
      && (forall p :: IsFileDirty(r, p) <==> IsFileDirty(s, p) || exists q :: q in paths && FixPath(q) == p)
      && (forall q :: q in paths ==> IsFileDirty(r, FixPath(q)))
      && (paths != [] ==> IsDirty(r))
      && MarkDirtyPaths(r, paths) == r
      && (Valid(s) ==> Valid(r))
  {
    var r := MarkDirtyPaths(s, paths);
    forall p ensures IsFileDirty(r, p) <==> IsFileDirty(s, p) || exists q :: q in paths && FixPath(q) == p {
      if exists q :: q in paths && FixPath(q) == p {
        var q :| q in paths && FixPath(q) == p;
        assert p in FixedPaths(paths);
      }
    }
    if paths != [] {
      assert FixPath(paths[0]) in r.dirtyFiles;
    }
  }

  /** The other two `MarkDirty` overloads keep the invariant; a reload request always comes with a full update request. */
  lemma MarkDirtySpec(s: ManagerState, reloadRepo: bool)
    requires Valid(s)
    ensures Valid(MarkDirty(s)) && Valid(MarkDirtyReload(s, reloadRepo))
    ensures MarkDirty(s).reloadDirty == s.reloadDirty && MarkDirtyReload(s, reloadRepo).reloadDirty == reloadRepo
  {
  }

  /** `IsFileUpdating`: nothing is updating outside an update, and everything is during a full one. */
  lemma IsFileUpdatingSpec(s: ManagerState, path: string)
    requires Valid(s)
    ensures !s.isUpdating ==> !IsFileUpdating(s, path)
    ensures s.isUpdating && s.updatingFiles == {} ==> IsFileUpdating(s, path)
    ensures s.updatingFiles != {} ==> (IsFileUpdating(s, path) <==> path in s.updatingFiles)
  {
  }

  /** Updating single paths: each path before the first one whose retrieval throws gets its reported
      flags, every other path keeps its entry, and the update completes exactly when no path throws. */
  lemma {:induction false} UpdatePathsSpec(entries: seq<StatusEntry>, paths: seq<string>, scan: Scan)
    ensures var r := UpdatePaths(entries, paths, scan);
      && (r.1 <==> Processed(paths, scan) == paths)
      && (r.1 <==> forall p :: p in paths ==> p !in scan.failing)
      && forall q :: Find(r.0, q) == if q in Processed(paths, scan) then Some(FileStatusOf(scan, q)) else Find(entries, q)
    decreases |paths|
  {
    if paths != [] && paths[0] !in scan.failing {
      var next := UpdateEntry(entries, paths[0], FileStatusOf(scan, paths[0]));
      UpdatePathsSpec(next, paths[1..], scan);
      assert Processed(paths, scan) == [paths[0]] + Processed(paths[1..], scan);
      assert paths == [paths[0]] + paths[1..];
      assert forall p :: p in paths <==> p == paths[0] || p in paths[1..];
    }
  }

  /** Outside a ready editor, or while an update runs, the update phase changes nothing. */
  lemma UpdatePhaseGate(s: ManagerState, editor: Editor, scan: Scan, threaded: bool, settings: BuildSettings, order: seq<string>)
    requires GetUpdateStatus(editor, s.isUpdating) != Ready || s.isUpdating
      || (s.repository.Some? && !s.repositoryDirty && s.dirtyFiles == {})
    ensures UpdatePhase(s, editor, scan, threaded, settings, order) == s
  {
  }

  /** Rebuilding changes nothing but the status, and a rebuild that completes leaves a status. */
  lemma RebuildStatusShape(t: ManagerState, paths: Option<seq<string>>, scan: Scan)
    ensures var (rebuilt, ok) := RebuildStatus(t, paths, scan);
      rebuilt == t.(status := rebuilt.status) && (ok ==> rebuilt.status.Some?)
  {
  }

  /** Synchronous status retrieval ends the update: it rebuilds the status, builds the tree when that
      succeeded, finishes, and touches neither the queues nor the dirty marks. */
  lemma RetreiveSynchronously(t: ManagerState, paths: Option<seq<string>>, scan: Scan, settings: BuildSettings)
    ensures var r := RetreiveStatus(t, paths, false, scan, settings);
      var (rebuilt, ok) := RebuildStatus(t, paths, scan);
      && !r.isUpdating && r.updatingFiles == {}
      && r.workers == t.workers && r.actionQueue == t.actionQueue && r.asyncStages == t.asyncStages
      && r.repository == t.repository && r.repositoryDirty == t.repositoryDirty
      && r.reloadDirty == t.reloadDirty && r.dirtyFiles == t.dirtyFiles
      && r.status == rebuilt.status
      && (ok ==> r.status.Some? && r.statusTree == Some(BuildFrom(map[], r.status.value, settings)))
      && (!ok ==> r.statusTree == t.statusTree)
  {
    RebuildStatusShape(t, paths, scan);
    var (rebuilt, ok) := RebuildStatus(t, paths, scan);
    if ok {
      var published := rebuilt.(events := rebuilt.events + [UpdateRepository(rebuilt.status, paths)]);
      assert RetreiveStatus(t, paths, false, scan, settings) == UpdateStatusTree(published, rebuilt.status, false, settings);
    }
  }

  /** The start of an update marks it as running and loads a new repository, reported to the
      callbacks, exactly when there is none or a reload is asked for and the repository is valid;
      nothing else changes. */
  lemma BeginUpdateSpec(s: ManagerState, reload: bool, paths: Option<seq<string>>, editor: Editor)
    ensures var t := BeginUpdate(s, reload, paths, editor);
      var loads := (s.repository.None? || reload) && editor.isValidRepo;
      && t.repository == (if loads then Some(Repo(s.nextRepository)) else s.repository)
      && t.nextRepository == (if loads then s.nextRepository + 1 else s.nextRepository)
      && t.events == s.events + [UpdateRepositoryStart] + (if loads then [RepositoryLoad(Repo(s.nextRepository))] else [])
      && t.isUpdating && t.updatingFiles == PathSet(paths)
      && t.workers == s.workers && t.actionQueue == s.actionQueue && t.asyncStages == s.asyncStages
      && t.status == s.status && t.statusTree == s.statusTree
      && t.repositoryDirty == s.repositoryDirty && t.reloadDirty == s.reloadDirty && t.dirtyFiles == s.dirtyFiles
  {
  }

  /** `StartUpdating` and `FinishUpdating` bracket an update: in between, every path counts as
      updating when no paths (or an empty list) were given, and exactly the given ones otherwise;
      afterwards none does, and only the two callbacks are left behind. */
  lemma UpdatingWindow(s: ManagerState, paths: Option<seq<string>>)
    ensures var t := StartUpdating(s, paths);
      && (paths.None? || paths.value == [] ==> forall p :: IsFileUpdating(t, p))
      && (paths.Some? && paths.value != [] ==> forall p :: IsFileUpdating(t, p) <==> p in paths.value)
      && (forall p :: !IsFileUpdating(FinishUpdating(t), p))
      && FinishUpdating(t) == s.(isUpdating := false, updatingFiles := {},
                                 events := s.events + [UpdateRepositoryStart, UpdateRepositoryFinish])
  {
    if paths.Some? && paths.value != [] {
      assert paths.value[0] in PathSet(paths);
    }
    assert s.events + [UpdateRepositoryStart] + [UpdateRepositoryFinish] == s.events + [UpdateRepositoryStart, UpdateRepositoryFinish];
  }

  /** Running an action leaves the queue, the reload marks, the status and the repository alone;
      only the publish action starts a job (a tree job for the current status), only the finish
      action ends the update, only a stage completion unregisters its operation and marks its paths
      dirty, and an external or null action changes nothing here. */
  lemma InvokeFrame(s: ManagerState, action: Action)
    ensures var r := Invoke(s, action);
      && r.actionQueue == s.actionQueue
      && r.status == s.status && r.statusTree == s.statusTree && r.repository == s.repository
      && r.repositoryDirty == s.repositoryDirty && r.reloadDirty == s.reloadDirty
      && r.asyncStages == (if action.StageDone? then RemoveOperation(s.asyncStages, action.operation) else s.asyncStages)
      && r.dirtyFiles == (if action.StageDone? then s.dirtyFiles + FixedPaths(action.files) else s.dirtyFiles)
      && r.workers == (if action.PublishStatus? then s.workers + [TreeJob(s.status)] else s.workers)
      && r.isUpdating == (s.isUpdating && !action.FinishUpdatingAction?)
      && (action.External? || action.NullAction? ==> r == s)
  {
  }

  /** An action queued by `ExecuteAction` on an empty queue and dequeued by the next tick has the
      effect of running it at once, unless it is an external action that throws: the tick then
      logs the exception and rethrows it. */
  lemma QueuedActionRunsLater(s: ManagerState, action: Action, actionFails: bool)
    requires s.actionQueue == []
    ensures var (r, outcome) := RunNextAction(ExecuteAction(s, action, true), actionFails);
      if action.External? && actionFails then
        r == s.(events := s.events + [ActionException(action.id)]) && outcome == Rethrown(action.id)
      else r == ExecuteAction(s, action, false) && outcome == Completed
  {
    assert (s.actionQueue + [action])[1..] == [];
  }

  /** Building the tree from a snapshot replaces the tree, then the repaint and the finish run (queued
      in that order when threaded); without a snapshot the build throws, is logged, and only the
      finish runs.  The status, the dirty marks and the workers are untouched. */
  lemma UpdateStatusTreeSpec(s: ManagerState, snapshot: Option<seq<StatusEntry>>, threaded: bool, settings: BuildSettings)
    ensures var r := UpdateStatusTree(s, snapshot, threaded, settings);
      && r.status == s.status && r.workers == s.workers && r.repository == s.repository
      && r.dirtyFiles == s.dirtyFiles && r.repositoryDirty == s.repositoryDirty && r.reloadDirty == s.reloadDirty
      && r.statusTree == (if snapshot.Some? then Some(BuildFrom(map[], snapshot.value, settings)) else s.statusTree)
      && (threaded ==>
            && r.isUpdating == s.isUpdating
            && r.actionQueue == s.actionQueue + (if snapshot.Some? then [RepaintProjectWindow, FinishUpdatingAction] else [FinishUpdatingAction]))
      && (!threaded ==> !r.isUpdating && r.updatingFiles == {} && r.actionQueue == s.actionQueue)
      && |s.events| <= |r.events| && r.events[..|s.events|] == s.events
      && (snapshot.None? <==> TreeBuildError in r.events[|s.events|..])
  {
    var r := UpdateStatusTree(s, snapshot, threaded, settings);
    if threaded && snapshot.Some? {
      assert s.actionQueue + [RepaintProjectWindow] + [FinishUpdatingAction] == s.actionQueue + [RepaintProjectWindow, FinishUpdatingAction];
    }
    if snapshot.None? {
      assert r.events[|s.events|] == TreeBuildError;
    }
  }

  /** A threaded update from an idle manager hands status retrieval to a worker and stays updating. */
  lemma UpdateThreaded(s: ManagerState, reload: bool, paths: Option<seq<string>>, editor: Editor, scan: Scan, settings: BuildSettings)
    requires Valid(s) && !s.isUpdating && editor.isValidRepo
    ensures var r := Update(s, reload, paths, editor, scan, true, settings);
      && r == BeginUpdate(s, reload, paths, editor).(workers := s.workers + [StatusJob(paths)])
      && Pending(r) == 1 && StagesHaveJobs(r)
  {
    BeginUpdateSpec(s, reload, paths, editor);
    CountPush(s.workers, StatusJob(paths), IsPipelineJob);
    CoveredPushJob(s.asyncStages, s.workers, s.actionQueue, StatusJob(paths));
  }

  /** A synchronous update from an idle manager retrieves the status and finishes. */
  lemma UpdateSynchronous(s: ManagerState, reload: bool, paths: Option<seq<string>>, editor: Editor, scan: Scan, settings: BuildSettings)
    requires Valid(s) && !s.isUpdating && editor.isValidRepo
    ensures var r := Update(s, reload, paths, editor, scan, false, settings);
      && r == RetreiveStatus(BeginUpdate(s, reload, paths, editor), paths, false, scan, settings)
      && r.workers == s.workers && r.actionQueue == s.actionQueue && r.asyncStages == s.asyncStages
      && !r.isUpdating && r.updatingFiles == {}
      && r.repositoryDirty == s.repositoryDirty && r.reloadDirty == s.reloadDirty && r.dirtyFiles == s.dirtyFiles
  {
    var loaded := BeginUpdate(s, reload, paths, editor);
    BeginUpdateSpec(s, reload, paths, editor);
    RetreiveSynchronously(loaded, paths, scan, settings);
  }

  /** One update from an idle manager: it loads a repository when there is none or a reload is asked
      for; threaded, it hands status retrieval to a worker and stays updating; otherwise it rebuilds the
      status, builds the tree from it when that succeeded, and finishes.  It queues no action. */
  lemma UpdateSpec(s: ManagerState, reload: bool, paths: Option<seq<string>>, editor: Editor, scan: Scan, threaded: bool, settings: BuildSettings)
    requires Valid(s) && !s.isUpdating && editor.isValidRepo
    ensures var r := Update(s, reload, paths, editor, scan, threaded, settings);
      var (rebuilt, ok) := RebuildStatus(s, paths, scan);
      && r.repository == (if s.repository.None? || reload then Some(Repo(s.nextRepository)) else s.repository)
      && Pending(r) == (if r.isUpdating then 1 else 0)
      && (!r.isUpdating ==> r.updatingFiles == {})
      && StagesHaveJobs(r)
      && r.isUpdating == threaded
      && r.actionQueue == s.actionQueue && r.asyncStages == s.asyncStages
      && r.repositoryDirty == s.repositoryDirty && r.reloadDirty == s.reloadDirty && r.dirtyFiles == s.dirtyFiles
      && (threaded ==> r.updatingFiles == PathSet(paths) && r.workers == s.workers + [StatusJob(paths)]
                       && r.status == s.status && r.statusTree == s.statusTree)
      && (!threaded ==> r.workers == s.workers && r.status == rebuilt.status)
      && (!threaded && ok ==> r.status.Some? && r.statusTree == Some(BuildFrom(map[], r.status.value, settings)))
      && (!threaded && !ok ==> r.statusTree == s.statusTree)
  {
    var loaded := BeginUpdate(s, reload, paths, editor);
    BeginUpdateSpec(s, reload, paths, editor);
    if threaded {
      UpdateThreaded(s, reload, paths, editor, scan, settings);
    } else {
      UpdateSynchronous(s, reload, paths, editor, scan, settings);
      RetreiveSynchronously(loaded, paths, scan, settings);
      assert RebuildStatus(loaded, paths, scan).0.status == RebuildStatus(s, paths, scan).0.status;
      assert RebuildStatus(loaded, paths, scan).1 == RebuildStatus(s, paths, scan).1;
    }
  }

  /** A full update (no repository yet, or marked dirty) clears every dirty mark, and reloads the
      repository when there is none or a reload was requested.  Run synchronously it ends idle with the
      status and tree of the new snapshot; threaded, every file counts as updating until it finishes. */
  lemma FullUpdate(s: ManagerState, editor: Editor, scan: Scan, threaded: bool, settings: BuildSettings, order: seq<string>)
    requires Valid(s) && GetUpdateStatus(editor, s.isUpdating) == Ready
    requires s.repository.None? || s.repositoryDirty
    ensures var r := UpdatePhase(s, editor, scan, threaded, settings, order);
      && Valid(r)
      && !r.repositoryDirty && !r.reloadDirty && r.dirtyFiles == {}
      && r.repository == (if s.repository.None? || s.reloadDirty then Some(Repo(s.nextRepository)) else s.repository)
      && r.actionQueue == s.actionQueue
      && (threaded ==> forall p :: IsFileUpdating(r, p))
      && (!threaded ==> !r.isUpdating)
      && (!threaded && scan.full.Some? ==> r.status == scan.full && r.statusTree == Some(BuildFrom(map[], scan.full.value, settings)))
  {
    UpdateSpec(s, s.reloadDirty, None, editor, scan, threaded, settings);
  }

  /** A scoped update (repository loaded and clean, some files dirty) never reloads the repository and
      clears the dirty files; threaded, exactly the files that were dirty count as updating; run
      synchronously, each of them, up to the first whose retrieval throws, gets its reported flags. */
  lemma ScopedUpdate(s: ManagerState, editor: Editor, scan: Scan, threaded: bool, settings: BuildSettings, order: seq<string>)
    requires Valid(s) && GetUpdateStatus(editor, s.isUpdating) == Ready
    requires s.repository.Some? && !s.repositoryDirty && s.dirtyFiles != {}
    requires IsEnumeration(order, s.dirtyFiles)
    ensures var r := UpdatePhase(s, editor, scan, threaded, settings, order);
      && Valid(r)
      && r.dirtyFiles == {} && r.repository == s.repository
      && r.actionQueue == s.actionQueue
      && (threaded ==> forall p :: IsFileUpdating(r, p) <==> p in s.dirtyFiles)
      && (!threaded ==> !r.isUpdating)
      && (!threaded && s.status.Some? ==> r.status == Some(UpdatePaths(s.status.value, order, scan).0))
  {
    UpdateSpec(s, s.reloadDirty || s.repository.None?, Some(order), editor, scan, threaded, settings);
    assert order != [] by {
      var p :| p in s.dirtyFiles;
    }
    assert PathSet(Some(order)) == s.dirtyFiles;
  }

  /** The update phase keeps the invariant and leaves the action queue alone. */
  lemma UpdatePhaseValid(s: ManagerState, editor: Editor, scan: Scan, threaded: bool, settings: BuildSettings, order: seq<string>)
    requires Valid(s)
    ensures var r := UpdatePhase(s, editor, scan, threaded, settings, order);
      Valid(r) && r.actionQueue == s.actionQueue && r.asyncStages == s.asyncStages
  {
    if GetUpdateStatus(editor, s.isUpdating) == Ready {
      if s.repository.None? || s.repositoryDirty {
        FullUpdate(s, editor, scan, threaded, settings, order);
      } else if s.dirtyFiles != {} {
        UpdateSpec(s, s.reloadDirty || s.repository.None?, Some(order), editor, scan, threaded, settings);
      }
    }
  }

  /** The action half of a tick takes the head of the queue (first in, first out), rethrows exactly
      when it is an external action that fails, and keeps the invariant. */
  lemma RunNextActionSpec(s: ManagerState, actionFails: bool)
    requires Valid(s)
    ensures var (r, outcome) := RunNextAction(s, actionFails);
      && Valid(r)
      && r.actionQueue == (if s.actionQueue == [] then [] else s.actionQueue[1..])
      && (outcome.Rethrown? <==> s.actionQueue != [] && s.actionQueue[0].External? && actionFails)
      && (outcome.Rethrown? ==> outcome.id == s.actionQueue[0].id)
      && (s.actionQueue != [] && s.actionQueue[0].FinishUpdatingAction? ==> !r.isUpdating && r.updatingFiles == {})
      && (s.actionQueue != [] && s.actionQueue[0].PublishStatus? ==> r.workers == s.workers + [TreeJob(s.status)])
      && (s.actionQueue != [] && s.actionQueue[0].StageDone? ==>
            r == CompleteStage(s.(actionQueue := s.actionQueue[1..]), s.actionQueue[0].operation, s.actionQueue[0].files))
  {
    if s.actionQueue != [] {
      var action := s.actionQueue[0];
      CountDropFirst(s.actionQueue, IsPipelineAction);
      CoveredDequeue(s.asyncStages, s.workers, s.actionQueue);
      if action.PublishStatus? {
        CountPush(s.workers, TreeJob(s.status), IsPipelineJob);
        CoveredPushJob(s.asyncStages, s.workers, s.actionQueue[1..], TreeJob(s.status));
      }
    }
  }

  /** A whole tick keeps the invariant and consumes exactly the head of the action queue. */
  lemma OnEditorUpdateSpec(s: ManagerState, editor: Editor, scan: Scan, threaded: bool, settings: BuildSettings, order: seq<string>, actionFails: bool)
    requires Valid(s)
    ensures var (r, _) := OnEditorUpdate(s, editor, scan, threaded, settings, order, actionFails);
      Valid(r) && r.actionQueue == (if s.actionQueue == [] then [] else s.actionQueue[1..])
  {
    var updated := UpdatePhase(s, editor, scan, threaded, settings, order);
    UpdatePhaseValid(s, editor, scan, threaded, settings, order);
    RunNextActionSpec(updated, actionFails);
  }

  /** A status job, run on its worker, keeps the invariant and queues the publish action, or the finish
      action when retrieval throws. */
  lemma RunStatusJob(s: ManagerState, i: nat, scan: Scan, settings: BuildSettings)
    requires Valid(s) && i < |s.workers| && s.workers[i].StatusJob?
    ensures var r := RunWorker(s, i, scan, settings);
      && Valid(r)
      && r.actionQueue == s.actionQueue + [if RebuildStatus(s, s.workers[i].paths, scan).1 then PublishStatus(s.workers[i].paths) else FinishUpdatingAction]
  {
    var paths := s.workers[i].paths;
    var rest := s.(workers := RemoveAt(s.workers, i));
    CountRemoveAt(s.workers, i, IsPipelineJob);
    CoveredRemove(s.asyncStages, s.workers, s.actionQueue, i, []);
    assert s.actionQueue + [] == s.actionQueue;
    RebuildStatusShape(rest, paths, scan);
    var ok := RebuildStatus(rest, paths, scan).1;
    assert ok == RebuildStatus(s, paths, scan).1;
    CountPush(s.actionQueue, if ok then PublishStatus(paths) else FinishUpdatingAction, IsPipelineAction);
    CoveredPushAction(s.asyncStages, rest.workers, s.actionQueue, if ok then PublishStatus(paths) else FinishUpdatingAction);
  }

  /** A tree job, run on its worker, keeps the invariant; with a snapshot it builds the tree and queues the
      repaint and the finish. */
  lemma RunTreeJob(s: ManagerState, i: nat, scan: Scan, settings: BuildSettings)
    requires Valid(s) && i < |s.workers| && s.workers[i].TreeJob?
    ensures var r := RunWorker(s, i, scan, settings);
      && Valid(r)
      && (s.workers[i].snapshot.Some? ==>
            r.statusTree == Some(BuildFrom(map[], s.workers[i].snapshot.value, settings))
            && r.actionQueue == s.actionQueue + [RepaintProjectWindow, FinishUpdatingAction])
  {
    var snapshot := s.workers[i].snapshot;
    var rest := RemoveAt(s.workers, i);
    CountRemoveAt(s.workers, i, IsPipelineJob);
    CoveredRemove(s.asyncStages, s.workers, s.actionQueue, i, []);
    assert s.actionQueue + [] == s.actionQueue;
    if snapshot.None? {
      CountPush(s.actionQueue, FinishUpdatingAction, IsPipelineAction);
      CoveredPushAction(s.asyncStages, rest, s.actionQueue, FinishUpdatingAction);
    } else {
      CountPush(s.actionQueue, RepaintProjectWindow, IsPipelineAction);
      CountPush(s.actionQueue + [RepaintProjectWindow], FinishUpdatingAction, IsPipelineAction);
      CoveredPushAction(s.asyncStages, rest, s.actionQueue, RepaintProjectWindow);
      CoveredPushAction(s.asyncStages, rest, s.actionQueue + [RepaintProjectWindow], FinishUpdatingAction);
      assert s.actionQueue + [RepaintProjectWindow] + [FinishUpdatingAction] == s.actionQueue + [RepaintProjectWindow, FinishUpdatingAction];
    }
  }

  /** A stage job, run on its worker, keeps the invariant: it reports the staging and queues its
      completion, and until a tick runs that completion its registration stays (its paths still count as
      staging) and the dirty marks are untouched. */
  lemma RunStageJob(s: ManagerState, i: nat, scan: Scan, settings: BuildSettings)
    requires Valid(s) && i < |s.workers| && s.workers[i].StageJob?
    ensures var r := RunWorker(s, i, scan, settings);
      var job := s.workers[i];
      && Valid(r)
      && r.actionQueue == s.actionQueue + [StageDone(job.operation, job.files)]
      && r.events == s.events + [StagedEvent(job.kind, job.files)]
      && r.asyncStages == s.asyncStages && r.dirtyFiles == s.dirtyFiles && r.repositoryDirty == s.repositoryDirty
      && r.isUpdating == s.isUpdating && r.status == s.status
  {
    var job := s.workers[i];
    CountRemoveAt(s.workers, i, IsPipelineJob);
    CountPush(s.actionQueue, StageDone(job.operation, job.files), IsPipelineAction);
    CoveredRemove(s.asyncStages, s.workers, s.actionQueue, i, [StageDone(job.operation, job.files)]);
  }

  /** Whatever job a worker finishes, the invariant holds afterwards. */
  lemma RunWorkerValid(s: ManagerState, i: nat, scan: Scan, settings: BuildSettings)
    requires Valid(s) && i < |s.workers|
    ensures Valid(RunWorker(s, i, scan, settings))
  {
    match s.workers[i]
    case StatusJob(_) => RunStatusJob(s, i, scan, settings);
    case TreeJob(_) => RunTreeJob(s, i, scan, settings);
    case StageJob(_, _, _) => RunStageJob(s, i, scan, settings);
  }

  /** A stage job's completion, run by a tick, unregisters its operation and nothing else, marks its
      paths dirty, and reports the completion. */
  lemma StageCompletion(s: ManagerState, operation: nat, paths: seq<string>)
    ensures var r := Invoke(s, StageDone(operation, paths));
      && (forall stage :: stage in r.asyncStages <==> stage in s.asyncStages && stage.operation != operation)
      && (forall p :: p in paths ==> IsFileDirty(r, FixPath(p)))
      && (forall p :: IsFileDirty(s, p) ==> IsFileDirty(r, p))
      && r.isUpdating == s.isUpdating && r.actionQueue == s.actionQueue && r.status == s.status && r.workers == s.workers
      && r.events == s.events + [AsyncStageOperationDone(operation)]
  {
    forall p | p in paths ensures FixPath(p) in FixedPaths(paths) {
    }
  }

  /** Starting a background stage registers a fresh operation holding exactly the given paths, so each
      of them counts as staging, and keeps the invariant. */
  lemma AsyncStageSpec(s: ManagerState, kind: StageKind, paths: seq<string>)
    ensures var (r, operation) := AsyncStage(s, kind, paths);
      && (Valid(s) ==> Valid(r))
      && IsAsyncStaging(r)
      && (forall p :: IsFileStaging(r, p) <==> IsFileStaging(s, p) || p in paths)
      && r.workers == s.workers + [StageJob(operation, kind, paths)]
      && r.isUpdating == s.isUpdating && r.dirtyFiles == s.dirtyFiles
  {
    var (r, operation) := AsyncStage(s, kind, paths);
    var stage := AsyncStageOperation(operation, set p | p in paths);
    assert r.asyncStages == s.asyncStages + [stage];
    forall p ensures IsFileStaging(r, p) <==> IsFileStaging(s, p) || p in paths {
      if IsFileStaging(s, p) {
        var i :| 0 <= i < |s.asyncStages| && p in s.asyncStages[i].paths;
        assert r.asyncStages[i] == s.asyncStages[i];
      }
      if p in paths {
        assert p in r.asyncStages[|s.asyncStages|].paths;
      }
      if IsFileStaging(r, p) {
        var i :| 0 <= i < |r.asyncStages| && p in r.asyncStages[i].paths;
        if i < |s.asyncStages| {
          assert r.asyncStages[i] == s.asyncStages[i];
        }
      }
    }
    if Valid(s) {
      CountPush(s.workers, StageJob(operation, kind, paths), IsPipelineJob);
      CoveredPushJob(s.asyncStages, s.workers, s.actionQueue, StageJob(operation, kind, paths));
      assert HasJob(r.workers, stage) by {
        assert r.workers[|s.workers|] == StageJob(operation, kind, paths);
      }
    }
  }

  /** `AutoStage`/`AutoUnstage` keep the invariant: with the kind's threading flag set the paths are
      staging in the background, otherwise they are staged now and marked dirty. */
  lemma AutoStageSpec(s: ManagerState, threading: Bits, kind: StageKind, paths: seq<string>)
    requires Valid(s)
    ensures var r := AutoStage(s, threading, kind, paths);
      var flag := if kind == StageFiles then Settings.ThreadingStage else Settings.ThreadingUnstage;
      && Valid(r)
      && (IsFlagSet(threading, flag) ==> forall p :: p in paths ==> IsFileStaging(r, p))
      && (!IsFlagSet(threading, flag) ==>
            && r.workers == s.workers && r.asyncStages == s.asyncStages
            && r.events == s.events + [StagedEvent(kind, paths)]
            && forall p :: p in paths ==> IsFileDirty(r, FixPath(p)))
  {
    AsyncStageSpec(s, kind, paths);
    var marked := s.(events := s.events + [StagedEvent(kind, paths)]);
    MarkDirtyPathsSpec(marked, paths);
  }

  /** With the default threading options, staging and unstaging run synchronously. */
  lemma DefaultStagesSynchronously(s: ManagerState, kind: StageKind, paths: seq<string>)
    ensures AutoStage(s, Settings.DefaultThreadingType, kind, paths).workers == s.workers
  {
    Settings.ThreadingLayout();
  }

  /** Run from an idle manager, a threaded full update - its status job, the publish action, its tree
      job, then the repaint and finish actions - ends in exactly the state a synchronous one reaches. */
  lemma ThreadedMatchesSynchronous(s: ManagerState, editor: Editor, scan: Scan, settings: BuildSettings, order: seq<string>)
    requires Valid(s) && GetUpdateStatus(editor, s.isUpdating) == Ready
    requires s.repository.None? || s.repositoryDirty
    requires s.workers == [] && s.actionQueue == [] && scan.full.Some?
    ensures var started := UpdatePhase(s, editor, scan, true, settings, order);
      |started.workers| == 1
      && var retrieved := RunWorker(started, 0, scan, settings);
      var published := RunNextAction(retrieved, false).0;
      |published.workers| == 1
      && var built := RunWorker(published, 0, scan, settings);
      var repainted := RunNextAction(built, false).0;
      RunNextAction(repainted, false).0 == UpdatePhase(s, editor, scan, false, settings, order)
  {
    FullUpdate(s, editor, scan, true, settings, order);
    UpdateSpec(s, s.reloadDirty, None, editor, scan, true, settings);
    var started := UpdatePhase(s, editor, scan, true, settings, order);
    assert started.workers == [StatusJob(None)];
    var retrieved := RunWorker(started, 0, scan, settings);
    assert retrieved.actionQueue == [PublishStatus(None)];
    var published := RunNextAction(retrieved, false).0;
    assert published.workers == [TreeJob(scan.full)];
    var built := RunWorker(published, 0, scan, settings);
    assert built.actionQueue == [RepaintProjectWindow, FinishUpdatingAction];
  }
}
