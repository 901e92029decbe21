/**
 `install_update` of agent/src/updater.rs: replacing the Agent's executable,
 over an abstract set of files in which any operation may fail. A rename or a
 removal either happens or leaves the files as they were.
 */
module Updater {
  import opened Bytes

  datatype Path = Target | Staged | Backup

  type Files = map<Path, nat>

  datatype Operation = StopService | StartService | Rename(from: Path, to: Path) | Remove(path: Path) | Inherit

  /** One operation of a run: whether it worked, and the files and the update's standing afterwards. */
  datatype Entry = Entry(operation: Operation, ok: bool, files: Files, confirmed: bool)

  /** Why an update failed, and whether what it did was undone. */
  datatype Failure =
    | NotStopped
    | NotBackedUp
    | NotInstalled(restored: bool)
    | NotStarted(stopped: bool, restored: bool)

  datatype Ending = Updated | FailedUpdate(failure: Failure)

  function At(files: Files, path: Path): Option<nat> { if path in files then Some(files[path]) else None }

  /** `path` holds the executable, if there is one. */
  predicate Holds(files: Files, path: Path, executable: Option<nat>) {
    executable.Some? ==> At(files, path) == executable
  }

  lemma WhereItIs(files: Files, path: Path)
    ensures Holds(files, path, At(files, path))
  {
  }

  lemma StillThere(before: Files, after: Files, path: Path, executable: Option<nat>)
    requires Holds(before, path, executable) && At(before, path) == At(after, path)
    ensures Holds(after, path, executable)
  {
  }

  /** Renaming replaces what was at the other path. */
  function Moved(files: Files, from: Path, to: Path): (moved: Files)
    requires from in files && from != to
    ensures forall path :: At(moved, path) == if path == from then None else At(files, if path == to then from else path)
  {
    (files - {from})[to := files[from]]
  }

  /** The executable installed at the start is where it was, or where it is kept. */
  predicate Kept(files: Files, installed: Option<nat>) {
    Holds(files, Target, installed) || Holds(files, Backup, installed)
  }

  /** Whether the failed update left the previous executable installed. */
  predicate Undone(failure: Failure) {
    match failure
    case NotStopped => true
    case NotBackedUp => true
    case NotInstalled(restored) => restored
    case NotStarted(stopped, restored) => stopped && restored
  }

  /** Operation `i` of a run was `operation`, with this result. */
  ghost predicate Did(history: seq<Entry>, i: nat, operation: Operation, ok: bool) {
    i < |history| && history[i].operation == operation && history[i].ok == ok
  }

  /** Moving the staged executable into place failed, or making it runnable did. */
  ghost predicate InstallFailed(history: seq<Entry>, i: nat) {
    Did(history, i, Rename(Staged, Target), false) || Did(history, i, Inherit, false)
  }

  /** After operation `i`, the failed install, came the attempt to put the kept executable back. */
  ghost predicate TriedToReinstate(history: seq<Entry>, i: nat, restored: bool) {
    InstallFailed(history, i) && Did(history, i + 1, Rename(Backup, Target), restored)
  }

  /** After operation `i`, the failed start, came a stop and, once stopped, the attempt to put the kept executable back. */
  ghost predicate TriedToRollBack(history: seq<Entry>, i: nat, stopped: bool, restored: bool) {
    && Did(history, i, StartService, false) && Did(history, i + 1, StopService, stopped)
    && if stopped then Did(history, i + 2, Rename(Backup, Target), restored) else !restored
  }

  /** Operation `i` made the new executable runnable, the next started it, and the one after, the last, removed the backup. */
  ghost predicate StartedUpdate(history: seq<Entry>, i: nat) {
    && Did(history, i, Inherit, true) && Did(history, i + 1, StartService, true)
    && i + 3 == |history| && history[i + 2].operation == Remove(Backup)
  }

  /** What a reported failure says happened since `from` is what happened. */
  ghost predicate Happened(history: seq<Entry>, from: nat, failure: Failure) {
    match failure
    case NotStopped => Did(history, from, StopService, false)
    case NotBackedUp => exists i :: from <= i && Did(history, i, Rename(Target, Backup), false)
    case NotInstalled(restored) => exists i :: from <= i && TriedToReinstate(history, i, restored)
    case NotStarted(stopped, restored) => exists i :: from <= i && TriedToRollBack(history, i, stopped, restored)
  }

  /** Every stop and every restore tried since `from` worked. */
  ghost predicate UndoingWorked(history: seq<Entry>, from: nat) {
    forall i :: from <= i < |history| && history[i].operation in {StopService, Rename(Backup, Target)} ==> history[i].ok
  }

  lemma StillHappened(history: seq<Entry>, more: seq<Entry>, from: nat, later: nat, failure: Failure)
    requires history <= more && from <= later && Happened(history, later, failure) && failure != NotStopped
    ensures Happened(more, from, failure)
  {
    match failure
    case NotBackedUp =>
      var i: nat :| later <= i && Did(history, i, Rename(Target, Backup), false);
      assert Did(more, i, Rename(Target, Backup), false);
    case NotInstalled(restored) =>
      var i: nat :| later <= i && TriedToReinstate(history, i, restored);
      assert TriedToReinstate(more, i, restored);
    case NotStarted(stopped, restored) =>
      var i: nat :| later <= i && TriedToRollBack(history, i, stopped, restored);
      assert TriedToRollBack(more, i, stopped, restored);
  }

  /** If every stop and restore worked, the failure that happened was undone. */
  lemma WorkedMeansUndone(history: seq<Entry>, from: nat, failure: Failure)
    requires Happened(history, from, failure)
    ensures UndoingWorked(history, from) ==> Undone(failure)
  {
  }

  lemma StopFailed(history: seq<Entry>, from: nat)
    requires Did(history, from, StopService, false)
    ensures Happened(history, from, NotStopped)
  {
  }

  lemma BackupFailed(history: seq<Entry>, from: nat, i: nat)
    requires from <= i && Did(history, i, Rename(Target, Backup), false)
    ensures Happened(history, from, NotBackedUp)
  {
  }

  lemma RolledBack(history: seq<Entry>, from: nat, i: nat, stopped: bool, restored: bool)
    requires from <= i && TriedToRollBack(history, i, stopped, restored)
    ensures Happened(history, from, NotStarted(stopped, restored))
  {
  }

  class Machine {
    var files: Files
    /** The updated service was seen running. */
    var confirmed: bool
    ghost var history: seq<Entry>

    constructor (files: Files)
      ensures this.files == files && !confirmed && history == []
    {
      this.files := files;
      confirmed := false;
      history := [];
    }

    ghost method Note(operation: Operation, ok: bool)
      modifies this`history
      ensures history == old(history) + [Entry(operation, ok, files, confirmed)]
    {
      history := history + [Entry(operation, ok, files, confirmed)];
    }

    method RenameFile(from: Path, to: Path) returns (ok: bool)
      requires from != to
      modifies this`files, this`history
      ensures ok ==> At(old(files), from).Some? && files == Moved(old(files), from, to)
      ensures !ok ==> files == old(files)
      ensures history == old(history) + [Entry(Rename(from, to), ok, files, confirmed)]
    {
      ok := *;
      ok := ok && from in files;
      if ok {
        files := Moved(files, from, to);
      }
      Note(Rename(from, to), ok);
    }

    method RemoveIfPresent(path: Path)
      modifies this`files, this`history
      ensures files == old(files) || files == old(files) - {path}
      ensures forall other :: other != path ==> At(files, other) == At(old(files), other)
      ensures |history| == |old(history)| + 1 && old(history) <= history
      ensures history[|old(history)|].files == files && history[|old(history)|].confirmed == confirmed
      ensures history[|old(history)|].operation == Remove(path) && (history[|old(history)|].ok ==> At(files, path).None?)
    {
      var ok: bool := *;
      if ok {
        files := files - {path};
      }
      Note(Remove(path), ok);
    }

    /** Stopping the service, starting it, or changing a file's permissions: the files stay as they are. */
    method Perform(operation: Operation) returns (ok: bool)
      requires operation == StopService || operation == StartService || operation == Inherit
      modifies this`history
      ensures history == old(history) + [Entry(operation, ok, files, confirmed)]
    {
      ok := *;
      Note(operation, ok);
    }

    /** Every operation from `from` on left the installed executable in one of its two places, or came after confirmation. */
    ghost predicate KeptSince(from: nat, installed: Option<nat>)
      reads this
    {
      from <= |history| &&
      forall i :: from <= i < |history| ==> history[i].confirmed || Kept(history[i].files, installed)
    }

    /** The last operation was an attempt to start the service. */
    ghost predicate EndsWithStart()
      reads this
    {
      history != [] && history[|history| - 1].operation == StartService
    }

    method RestoreBackup(ghost from: nat, ghost installed: Option<nat>) returns (ok: bool)
      requires !confirmed && Holds(files, Backup, installed) && KeptSince(from, installed)
      modifies this`files, this`history
      ensures old(history) <= history && KeptSince(from, installed)
      ensures if ok then Holds(files, Target, installed) else files == old(files)
      ensures Did(history, |old(history)|, Rename(Backup, Target), ok)
    {
      ok := RenameFile(Backup, Target);
      if ok {
        // An executable that cannot be made runnable for everyone is still restored.
        var _ := Perform(Inherit);
      }
    }

    method ReplaceExecutable(ghost from: nat, ghost installed: Option<nat>) returns (failure: Option<Failure>)
      requires !confirmed && Holds(files, Target, installed) && KeptSince(from, installed)
      modifies this`files, this`history
      ensures old(history) <= history && KeptSince(from, installed)
      ensures failure.None? ==>
                && Holds(files, Backup, installed)
                && At(old(files), Staged).Some? && Holds(files, Target, At(old(files), Staged))
      ensures failure.None? ==> history != [] && Did(history, |history| - 1, Inherit, true)
      ensures failure.Some? ==> failure.value == NotBackedUp || failure.value.NotInstalled?
      ensures At(old(files), Target).None? ==> failure == Some(NotBackedUp)
      ensures failure.Some? && Undone(failure.value) ==> Holds(files, Target, installed)
      ensures failure.Some? && !Undone(failure.value) ==> Holds(files, Backup, installed)
      ensures failure.Some? ==> Happened(history, |old(history)|, failure.value)
    {
      hide Moved, Happened;
      RemoveIfPresent(Backup);
      var moved := RenameFile(Target, Backup);
      if !moved {
        BackupFailed(history, |old(history)|, |history| - 1);
        return Some(NotBackedUp);
      }
      failure := InstallStaged(|old(history)|, from, installed);
    }

    /** The second half: the staged executable takes the place of the one moved aside, or that is put back. */
    method InstallStaged(ghost begun: nat, ghost from: nat, ghost installed: Option<nat>) returns (failure: Option<Failure>)
      requires !confirmed && Holds(files, Backup, installed) && KeptSince(from, installed) && begun <= |history|
      modifies this`files, this`history
      ensures old(history) <= history && KeptSince(from, installed)
      ensures failure.None? ==>
                && Holds(files, Backup, installed)
                && At(old(files), Staged).Some? && Holds(files, Target, At(old(files), Staged))
      ensures failure.None? ==> history != [] && Did(history, |history| - 1, Inherit, true)
      ensures failure.Some? ==>
                && failure.value.NotInstalled? && Happened(history, begun, failure.value)
                && if Undone(failure.value) then Holds(files, Target, installed) else Holds(files, Backup, installed)
    {
      hide Moved;
      var ok := RenameFile(Staged, Target);
      if ok {
        ok := Perform(Inherit);
      }
      if ok {
        return None;
      }
      ghost var failed := |history| - 1;
      var restored := RestoreBackup(from, installed);
      assert TriedToReinstate(history, failed, restored);
      return Some(NotInstalled(restored));
    }

    /** The last step of every failed update: the service is started with what is now at the target. */
    method RestartInstalled(ghost from: nat, ghost installed: Option<nat>)
      requires !confirmed && KeptSince(from, installed) && Kept(files, installed)
      modifies this`history
      ensures old(history) <= history && KeptSince(from, installed) && EndsWithStart()
    {
      var _ := Perform(StartService);
    }

    /** The new service did not stay running: stops it, puts the kept executable back, and starts that. */
    method RollBack(ghost from: nat, ghost installed: Option<nat>) returns (failure: Failure)
      requires !confirmed && Holds(files, Backup, installed) && KeptSince(from, installed)
      requires from < |history| && Did(history, |history| - 1, StartService, false)
      modifies this`files, this`history
      ensures old(history) <= history && KeptSince(from, installed) && EndsWithStart()
      ensures failure.NotStarted? && TriedToRollBack(history, |old(history)| - 1, failure.stopped, failure.restored)
      ensures if Undone(failure) then Holds(files, Target, installed) else Holds(files, Backup, installed)
    {
      hide Moved;
      var stopped := Perform(StopService);
      var restored := false;
      if stopped {
        restored := RestoreBackup(from, installed);
      }
      RestartInstalled(from, installed);
      return NotStarted(stopped, restored);
    }

    /** `install_update` once the service has stopped. */
    method UpdateStopped(ghost from: nat, ghost installed: Option<nat>) returns (ending: Ending)
      requires !confirmed && Holds(files, Target, installed) && KeptSince(from, installed) && from < |history|
      modifies this
      ensures old(history) <= history && KeptSince(from, installed)
      ensures ending == Updated <==> confirmed
      ensures confirmed ==>
                && At(old(files), Staged).Some? && Holds(files, Target, At(old(files), Staged))
                && exists i :: from <= i && StartedUpdate(history, i)
      ensures !confirmed ==>
                && ending.FailedUpdate? && EndsWithStart()
                && ending.failure != NotStopped && Happened(history, from, ending.failure)
                && if Undone(ending.failure) then Holds(files, Target, installed) else Holds(files, Backup, installed)
      ensures At(old(files), Target).None? ==> ending == FailedUpdate(NotBackedUp)
    {
      hide Moved, Happened, TriedToRollBack, Holds;
      ghost var begun := |history|;
      var failure := ReplaceExecutable(from, installed);
      if failure.Some? {
        ghost var before := history;
        RestartInstalled(from, installed);
        StillHappened(before, history, from, begun, failure.value);
        return FailedUpdate(failure.value);
      }
      var started := Perform(StartService);
      ghost var start := |history| - 1;
      if started {
        confirmed := true;
        ghost var installing := files;
        RemoveIfPresent(Backup);
        StillThere(installing, files, Target, At(old(files), Staged));
        assert StartedUpdate(history, start - 1);
        return Updated;
      }
      var undoing := RollBack(from, installed);
      RolledBack(history, from, start, undoing.stopped, undoing.restored);
      return FailedUpdate(undoing);
    }

    /** `install_update`: every way it can go. */
    method InstallUpdate() returns (ending: Ending)
      modifies this
      ensures old(history) <= history && |old(history)| < |history|
      // The service is stopped first; nothing is touched while it runs.
      ensures history[|old(history)|].operation == StopService
      ensures !history[|old(history)|].ok <==> ending == FailedUpdate(NotStopped)
      ensures ending == FailedUpdate(NotStopped) ==> files == old(files)
      // Whatever fails, the executable is never lost before the update is confirmed.
      ensures KeptSince(|old(history)|, At(old(files), Target))
      // An update that ends well has the staged executable installed and seen running.
      ensures ending == Updated <==> confirmed
      ensures confirmed ==> At(old(files), Staged).Some? && Holds(files, Target, At(old(files), Staged))
      // A failed update ends by starting the service, with the old executable back exactly when it was undone.
      ensures !confirmed ==> ending.FailedUpdate? && EndsWithStart()
      ensures ending.FailedUpdate? && Undone(ending.failure) ==> Holds(files, Target, At(old(files), Target))
      ensures ending.FailedUpdate? && !Undone(ending.failure) ==> Holds(files, Backup, At(old(files), Target))
      // What is reported happened; if every stop and restore that was tried worked, the old executable is back.
      ensures ending.FailedUpdate? ==> Happened(history, |old(history)|, ending.failure)
      ensures ending.FailedUpdate? && UndoingWorked(history, |old(history)|) ==>
                Holds(files, Target, At(old(files), Target))
      ensures confirmed ==> exists i :: |old(history)| <= i && StartedUpdate(history, i)
      // Without an executable to replace, nothing is installed.
      ensures At(old(files), Target).None? ==> ending == FailedUpdate(NotStopped) || ending == FailedUpdate(NotBackedUp)
    {
      hide Moved, Happened, UndoingWorked, TriedToRollBack, Holds, StartedUpdate;
      WhereItIs(files, Target);
      ghost var from, installed := |history|, At(files, Target);
      confirmed := false;
      var stopped := Perform(StopService);
      if !stopped {
        RestartInstalled(from, installed);
        StopFailed(history, from);
        return FailedUpdate(NotStopped);
      }
      ending := UpdateStopped(from, installed);
      if ending.FailedUpdate? {
        WorkedMeansUndone(history, from, ending.failure);
      }
    }
  }
}
