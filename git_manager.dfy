/**
  The `GitManager` object: the fields its status synchronisation updates and
  the methods that update them, each proved to compute the transition
  `ManagerSpec` defines for it (`Model()` is the value of the fields).

  The action queue, which the source keeps in a static field, the background
  jobs `GitAsyncManager` holds, and the log of callbacks and messages are
  fields of the object here.
 */
module Manager {
  import opened Wrappers
  import opened FlagHelper
  import opened GitTypes
  import opened Text
  import opened StatusTree
  import opened ManagerSpec
  import Settings

  /** `dirtyFiles.ToArray()`: the elements of the set, each once, in the order the loop picks them. */
  method ToArray(files: set<string>) returns (order: seq<string>)
    ensures IsEnumeration(order, files)
  {
    order := [];
    var rest := files;
    while rest != {}
      invariant rest <= files
      invariant forall p :: p in order <==> p in files && p !in rest
      invariant forall i, j :: 0 <= i < j < |order| ==> order[i] != order[j]
      decreases rest
    {
      var p :| p in rest;
      order := order + [p];
      rest := rest - {p};
    }
  }

  class GitManager {
    var repository: Option<Repo>
    var status: Option<seq<StatusEntry>>
    var statusTree: StatusTreeClass?
    var repositoryDirty: bool
    var reloadDirty: bool
    var isUpdating: bool
    var dirtyFiles: set<string>
    var updatingFiles: set<string>
    var actionQueue: seq<Action>
    var asyncStages: seq<AsyncStageOperation>
    var workers: seq<Job>
    var nextOperation: nat
    var nextRepository: nat
    var events: seq<Event>

    /** The value of the fields, with the tree as the entries of the current `StatusTreeClass`. */
    function Model(): ManagerState
      reads this, statusTree
    {
      ManagerState(repository, status, if statusTree == null then None else Some(statusTree.entries),
        repositoryDirty, reloadDirty, isUpdating, dirtyFiles, updatingFiles, actionQueue, asyncStages,
        workers, nextOperation, nextRepository, events)
    }

    /** The constructor with `Initlize`: a valid repository starts out dirty. */
    constructor (isValidRepo: bool)
      ensures Model() == Initial(isValidRepo)
    {
      repository := None;
      status := None;
      statusTree := null;
      repositoryDirty := isValidRepo;
      reloadDirty := false;
      isUpdating := false;
      dirtyFiles := {};
      updatingFiles := {};
      actionQueue := [];
      asyncStages := [];
      workers := [];
      nextOperation := 0;
      nextRepository := 0;
      events := [];
    }

    /** `MarkDirty()`. */
    method MarkDirty()
      modifies this
      ensures Model() == ManagerSpec.MarkDirty(old(Model()))
    {
      repositoryDirty := true;
    }

    /** `MarkDirty(bool reloadRepo)`. */
    method MarkDirtyReload(reloadRepo: bool)
      modifies this
      ensures Model() == ManagerSpec.MarkDirtyReload(old(Model()), reloadRepo)
    {
      repositoryDirty := true;
      reloadDirty := reloadRepo;
    }

    /** `MarkDirty(paths)`: adds each path, normalised, that is not already dirty. */
    method MarkDirtyPaths(paths: seq<string>)
      modifies this
      ensures Model() == ManagerSpec.MarkDirtyPaths(old(Model()), paths)
    {
      var files := dirtyFiles;
      var k := 0;
      while k < |paths|
        invariant 0 <= k <= |paths|
        invariant files == dirtyFiles + FixedPaths(paths[..k])
      {
        var fixedPath := FixPath(paths[k]);
        assert FixedPaths(paths[..k + 1]) == FixedPaths(paths[..k]) + {fixedPath} by {
          assert paths[..k + 1] == paths[..k] + [paths[k]];
        }
        if fixedPath !in files {
          files := files + {fixedPath};
        }
        k := k + 1;
      }
      assert paths[..k] == paths;
      dirtyFiles := files;
    }

    /** `StartUpdating`. */
    method StartUpdating(paths: Option<seq<string>>)
      modifies this
      ensures Model() == ManagerSpec.StartUpdating(old(Model()), paths)
    {
      isUpdating := true;
      var files: set<string> := {};
      if paths.Some? {
        var k := 0;
        while k < |paths.value|
          invariant 0 <= k <= |paths.value|
          invariant files == set p | p in paths.value[..k]
        {
          assert paths.value[..k + 1] == paths.value[..k] + [paths.value[k]];
          files := files + {paths.value[k]};
          k := k + 1;
        }
        assert paths.value[..k] == paths.value;
      }
      updatingFiles := files;
      events := events + [UpdateRepositoryStart];
    }

    /** `FinishUpdating`. */
    method FinishUpdating()
      modifies this
      ensures Model() == ManagerSpec.FinishUpdating(old(Model()))
    {
      isUpdating := false;
      updatingFiles := {};
      events := events + [UpdateRepositoryFinish];
    }

    /** Runs one of the manager's actions. */
    method Invoke(action: Action)
      modifies this
      ensures Model() == ManagerSpec.Invoke(old(Model()), action)
    {
      match action
      case PublishStatus(paths) =>
        events := events + [UpdateRepository(status, paths)];
        workers := workers + [TreeJob(status)];
      case RepaintProjectWindow =>
        events := events + [ProjectWindowRepaint];
      case FinishUpdatingAction =>
        FinishUpdating();
      case StageDone(operation, paths) =>
        CompleteStage(operation, paths);
      case External(_) =>
      case NullAction =>
    }

    /** `ExecuteAction`. */
    method ExecuteAction(action: Action, async: bool)
      modifies this
      ensures Model() == ManagerSpec.ExecuteAction(old(Model()), action, async)
    {
      if async {
        actionQueue := actionQueue + [action];
      } else {
        Invoke(action);
      }
    }

    /** `RebuildStatus`: path by path, stopping at the first path whose retrieval throws, or a whole new
        snapshot; `ok` is false when an exception ends it. */
    method RebuildStatus(paths: Option<seq<string>>, scan: Scan) returns (ok: bool)
      modifies this
      ensures Model() == ManagerSpec.RebuildStatus(old(Model()), paths, scan).0
      ensures ok == ManagerSpec.RebuildStatus(old(Model()), paths, scan).1
    {
      if paths.Some? && |paths.value| > 0 && status.Some? {
        var entries := status.value;
        var k := 0;
        while k < |paths.value|
          invariant 0 <= k <= |paths.value|
          invariant UpdatePaths(entries, paths.value[k..], scan) == UpdatePaths(old(status).value, paths.value, scan)
        {
          var path := paths.value[k];
          if path in scan.failing {
            status := Some(entries);
            return false;
          }
          assert paths.value[k..][1..] == paths.value[k + 1..];
          entries := UpdateEntry(entries, path, FileStatusOf(scan, path));
          k := k + 1;
        }
        status := Some(entries);
        ok := true;
      } else if scan.full.Some? {
        status := scan.full;
        ok := true;
      } else {
        ok := false;
      }
    }

    /** `UpdateStatusTree(status, threaded)`. */
    method UpdateStatusTree(snapshot: Option<seq<StatusEntry>>, threaded: bool, settings: BuildSettings)
      modifies this
      ensures Model() == ManagerSpec.UpdateStatusTree(old(Model()), snapshot, threaded, settings)
    {
      if snapshot.None? {
        events := events + [TreeBuildError];
      } else {
        var tree := new StatusTreeClass(snapshot.value, settings);
        statusTree := tree;
        ExecuteAction(RepaintProjectWindow, threaded);
      }
      ExecuteAction(FinishUpdatingAction, threaded);
    }

    /** `RetreiveStatus(paths, threaded)`. */
    method RetreiveStatus(paths: Option<seq<string>>, threaded: bool, scan: Scan, settings: BuildSettings)
      modifies this
      ensures Model() == ManagerSpec.RetreiveStatus(old(Model()), paths, threaded, scan, settings)
    {
      var ok := RebuildStatus(paths, scan);
      if !ok {
        ExecuteAction(FinishUpdatingAction, threaded);
        events := events + [StatusRetrievalError];
      } else if threaded {
        actionQueue := actionQueue + [PublishStatus(paths)];
      } else {
        events := events + [UpdateRepository(status, paths)];
        UpdateStatusTree(status, false, settings);
      }
    }

    /** Loads a new `Repository`, replacing the current one. */
    method LoadRepository()
      modifies this
      ensures Model() == ManagerSpec.LoadRepository(old(Model()))
    {
      var repo := Repo(nextRepository);
      repository := Some(repo);
      nextRepository := nextRepository + 1;
      events := events + [RepositoryLoad(repo)];
    }

    /** The start of `Update`. */
    method BeginUpdate(reloadRepository: bool, paths: Option<seq<string>>, editor: Editor)
      modifies this
      ensures Model() == ManagerSpec.BeginUpdate(old(Model()), reloadRepository, paths, editor)
    {
      StartUpdating(paths);
      if (repository.None? || reloadRepository) && editor.isValidRepo {
        LoadRepository();
      }
    }

    /** `Update(reloadRepository, paths)`. */
    method Update(reloadRepository: bool, paths: Option<seq<string>>, editor: Editor, scan: Scan, threaded: bool, settings: BuildSettings)
      modifies this
      ensures Model() == ManagerSpec.Update(old(Model()), reloadRepository, paths, editor, scan, threaded, settings)
    {
      BeginUpdate(reloadRepository, paths, editor);
      if repository.Some? {
        if threaded {
          workers := workers + [StatusJob(paths)];
        } else {
          RetreiveStatus(paths, false, scan, settings);
        }
      }
    }

    /** The action half of `OnEditorUpdate`. */
    method RunNextAction(actionFails: bool) returns (outcome: TickOutcome)
      modifies this
      ensures Model() == ManagerSpec.RunNextAction(old(Model()), actionFails).0
      ensures outcome == ManagerSpec.RunNextAction(old(Model()), actionFails).1
    {
      outcome := Completed;
      if actionQueue != [] {
        var action := actionQueue[0];
        actionQueue := actionQueue[1..];
        if !action.NullAction? {
          if action.External? && actionFails {
            events := events + [ActionException(action.id)];
            outcome := Rethrown(action.id);
          } else {
            Invoke(action);
          }
        }
      }
    }

    /** `reloadDirty = false; repositoryDirty = false; dirtyFiles.Clear();` */
    method ClearDirtyMarks()
      modifies this
      ensures Model() == ManagerSpec.ClearDirtyMarks(old(Model()))
    {
      reloadDirty := false;
      repositoryDirty := false;
      dirtyFiles := {};
    }

    /** `dirtyFiles.Clear();` */
    method ClearDirtyFiles()
      modifies this
      ensures Model() == ManagerSpec.ClearDirtyFiles(old(Model()))
    {
      dirtyFiles := {};
    }

    /** The update half of `OnEditorUpdate`. */
    method UpdatePhase(editor: Editor, scan: Scan, threaded: bool, settings: BuildSettings) returns (order: seq<string>)
      modifies this
      ensures order == [] || IsEnumeration(order, old(dirtyFiles))
      ensures Model() == ManagerSpec.UpdatePhase(old(Model()), editor, scan, threaded, settings, order)
    {
      order := [];
      if GetUpdateStatus(editor, isUpdating) == Ready {
        if repository.None? || repositoryDirty {
          Update(reloadDirty, None, editor, scan, threaded, settings);
          ClearDirtyMarks();
        } else if dirtyFiles != {} {
          order := ToArray(dirtyFiles);
          Update(reloadDirty || repository.None?, Some(order), editor, scan, threaded, settings);
          ClearDirtyFiles();
        }
      }
    }

    /** `OnEditorUpdate`: `threading` is the `Threading` property; `order` is how the dirty files were
        listed for a scoped update (empty otherwise). */
    method OnEditorUpdate(editor: Editor, scan: Scan, threading: Bits, settings: BuildSettings, actionFails: bool)
      returns (outcome: TickOutcome, order: seq<string>)
      modifies this
      ensures order == [] || IsEnumeration(order, old(dirtyFiles))
      ensures Model() == ManagerSpec.OnEditorUpdate(old(Model()), editor, scan, StatusThreaded(threading), settings, order, actionFails).0
      ensures outcome == ManagerSpec.OnEditorUpdate(old(Model()), editor, scan, StatusThreaded(threading), settings, order, actionFails).1
    {
      order := UpdatePhase(editor, scan, StatusThreaded(threading), settings);
      outcome := RunNextAction(actionFails);
    }

    /** The completion callback of a stage job. */
    method CompleteStage(operation: nat, paths: seq<string>)
      modifies this
      ensures Model() == ManagerSpec.CompleteStage(old(Model()), operation, paths)
    {
      MarkDirtyPaths(paths);
      asyncStages := RemoveOperation(asyncStages, operation);
      events := events + [AsyncStageOperationDone(operation)];
    }

    /** A worker runs job `i` to its end; a stage job queues its completion callback for the main thread. */
    method RunWorker(i: nat, scan: Scan, settings: BuildSettings)
      requires i < |workers|
      modifies this
      ensures Model() == ManagerSpec.RunWorker(old(Model()), i, scan, settings)
    {
      var job := workers[i];
      workers := RemoveAt(workers, i);
      match job
      case StatusJob(paths) =>
        RetreiveStatus(paths, true, scan, settings);
      case TreeJob(snapshot) =>
        UpdateStatusTree(snapshot, true, settings);
      case StageJob(operation, kind, paths) =>
        events := events + [StagedEvent(kind, paths)];
        actionQueue := actionQueue + [StageDone(operation, paths)];
    }

    /** `AsyncStage`/`AsyncUnstage`. */
    method AsyncStage(kind: StageKind, paths: seq<string>) returns (operation: nat)
      modifies this
      ensures Model() == ManagerSpec.AsyncStage(old(Model()), kind, paths).0
      ensures operation == ManagerSpec.AsyncStage(old(Model()), kind, paths).1
    {
      operation := nextOperation;
      workers := workers + [StageJob(operation, kind, paths)];
      asyncStages := asyncStages + [AsyncStageOperation(operation, set p | p in paths)];
      nextOperation := operation + 1;
    }

    /** `AutoStage`/`AutoUnstage`: `threading` is the `Threading` property. */
    method AutoStage(threading: Bits, kind: StageKind, paths: seq<string>)
      modifies this
      ensures Model() == ManagerSpec.AutoStage(old(Model()), threading, kind, paths)
    {
      var flag := if kind == StageFiles then Settings.ThreadingStage else Settings.ThreadingUnstage;
      if IsFlagSet(threading, flag) {
        var _ := AsyncStage(kind, paths);
      } else {
        events := events + [StagedEvent(kind, paths)];
        MarkDirtyPaths(paths);
      }
    }
  }
}
