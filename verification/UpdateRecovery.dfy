/** Self-update of the executable with recovery at startup. The directory holds
    three names: the executable, `.previous` and the pending-update marker.
    Every file-system call is one step that may fail, and the machine may stop
    between any two of them. */
module UpdateRecovery {
  import opened Basics

  /** One complete binary on disk: its inode and the version it reports. */
  datatype Binary = Binary(inode: nat, version: Text)

  /** Content of the pending-update marker file. */
  datatype Marker = Absent | Torn | Pending(version: Text)

  datatype Disk = Disk(executable: Option<Binary>, previous: Option<Binary>, marker: Marker) {

    /** POSIX `rename` of `.previous` onto the executable: nothing happens when
        both names are links to the same file. */
    function RenamePrevious(): Disk {
      if previous == executable then this
      else this.(executable := previous, previous := None)
    }

    predicate Clean() {
      previous.None? && marker.Absent?
    }
  }

  /** The update a disk state belongs to: replaced binary, candidate, whether
      some process running the candidate reported a good start, and its number. */
  datatype Update = Update(replaced: Binary, candidate: Binary, confirmed: bool, serial: nat)

  datatype Snapshot = Snapshot(disk: Disk, update: Update)

  /** What must hold of every state a crash can leave behind. */
  predicate Safe(s: Snapshot) {
    var d, u := s.disk, s.update;
    // the executable is the complete old or the complete new binary
    && (d.executable == Some(u.replaced) || d.executable == Some(u.candidate))
    // `.previous` is the old binary and its marker is intact
    && (d.previous.Some? ==> d.previous == Some(u.replaced) && d.marker == Pending(u.candidate.version))
    // an unconfirmed new binary can still be undone
    && (d.executable == Some(u.candidate) && u.candidate != u.replaced && !u.confirmed ==> d.previous == Some(u.replaced))
    // a half-written marker belongs to an update that changed nothing
    && (d.marker.Torn? ==> d.executable == Some(u.replaced))
  }

  function Undoable(s: Snapshot): nat {
    if s.disk.previous.Some? then 1 else 0
  }

  /** One when some state may still be undone. */
  ghost function UndoableIn(states: set<Snapshot>): nat {
    if exists s | s in states :: s.disk.previous.Some? then 1 else 0
  }

  ghost predicate NoneTwice(numbers: seq<nat>) {
    forall i, j | 0 <= i < j < |numbers| :: numbers[i] != numbers[j]
  }

  class Directory {
    var disk: Disk
    /** While set, calls fail only for a reason visible in the directory. The
        environment changes it between moves. */
    var reliable: bool

    /** The update in progress, or the last one. */
    var update: Update
    /** States a crash can leave now: directory changes reach the disk in order,
        so it is one of these; the first is durable, the last is current. */
    var history: seq<Snapshot>
    /** All states a crash could have left since the episode began. */
    var reachable: set<Snapshot>
    /** Updates that created a marker; they are numbered from one. */
    var begun: nat
    /** The updates whose rollback restarted the program, in order. */
    ghost var rolled: seq<nat>
    /** An upper bound on the length that `rolled` can still reach. */
    ghost var allowance: nat

    ghost predicate Valid()
      reads this
    {
      && |history| > 0 && history[|history| - 1] == Current() && Current() in reachable
      && (forall s | s in history :: s in reachable)
      && (forall s | s in reachable :: Admits(s))
      && NoneTwice(rolled) && forall n | n in rolled :: n <= begun
    }

    /** The state is safe, and what it can still undo was not undone before. */
    ghost predicate Admits(s: Snapshot)
      reads this`rolled, this`allowance, this`begun
    {
      && Safe(s) && |rolled| + Undoable(s) <= allowance && s.update.serial <= begun
      && (s.disk.previous.Some? ==> s.update.serial !in rolled)
    }

    function Current(): Snapshot
      reads this`disk, this`update
    {
      Snapshot(disk, update)
    }

    ghost predicate Durable()
      reads this
    {
      history == [Current()]
    }

    /** A directory in which no update is pending. */
    constructor (executable: Binary, reliable: bool)
      ensures Valid() && Durable() && disk == Disk(Some(executable), None, Absent)
      ensures this.reliable == reliable && reachable == {Snapshot(disk, update)} && rolled == []
    {
      var d := Disk(Some(executable), None, Absent);
      var u := Update(executable, executable, true, 0);
      this.disk, this.update, this.reliable := d, u, reliable;
      this.history, this.reachable := [Snapshot(d, u)], {Snapshot(d, u)};
      this.begun, this.rolled, this.allowance := 0, [], 0;
    }

    // ----- single file-system calls

    method Fault() returns (failed: bool)
      ensures reliable ==> !failed
    {
      failed := *;
      if reliable {
        failed := false;
      }
    }

    /** A directory change that succeeded. */
    method Change(next: Disk)
      requires Valid() && Admits(Snapshot(next, update))
      modifies this`disk, this`history, this`reachable
      ensures Valid() && disk == next
      ensures history == old(history) + [Snapshot(next, update)]
      ensures reachable == old(reachable) + {Snapshot(next, update)}
    {
      disk := next;
      history := history + [Snapshot(next, update)];
      reachable := reachable + {Snapshot(next, update)};
    }

    method RemovePrevious() returns (ok: bool)
      requires Valid() && (disk.executable == Some(update.replaced) || update.confirmed)
      modifies this`disk, this`history, this`reachable
      ensures Valid() && old(reachable) <= reachable
      ensures disk == if ok then old(disk).(previous := None) else old(disk)
      ensures reliable ==> ok == old(disk.previous.Some?)
    {
      var fault := Fault();
      if fault || disk.previous.None? {
        return false;
      }
      Change(disk.(previous := None));
      ok := true;
    }

    method RemoveMarker() returns (ok: bool)
      requires Valid() && disk.previous.None?
      modifies this`disk, this`history, this`reachable
      ensures Valid() && old(reachable) <= reachable
      ensures disk == if ok then old(disk).(marker := Absent) else old(disk)
      ensures reliable ==> ok == !old(disk.marker.Absent?)
    {
      var fault := Fault();
      if fault || disk.marker.Absent? {
        return false;
      }
      Change(disk.(marker := Absent));
      ok := true;
    }

    method RemoveMarkerIfPresent() returns (ok: bool)
      requires Valid() && disk.previous.None?
      modifies this`disk, this`history, this`reachable
      ensures Valid() && old(reachable) <= reachable
      ensures ok ==> disk == old(disk).(marker := Absent)
      ensures !ok ==> disk == old(disk)
      ensures reliable ==> ok
    {
      var fault := Fault();
      if fault {
        return false;
      }
      if disk.marker.Absent? {
        return true;
      }
      ok := RemoveMarker();
    }

    /** Flushes the directory: after success no older state can come back. */
    method SyncParent() returns (ok: bool)
      requires Valid()
      modifies this`history
      ensures Valid()
      ensures ok ==> Durable()
      ensures !ok ==> history == old(history)
      ensures reliable ==> ok
    {
      var fault := Fault();
      ok := !fault;
      if ok {
        history := [Snapshot(disk, update)];
      }
    }

    // ----- committing a candidate

    /** From here on the disk belongs to a new update. */
    method BeginUpdate(staged: Binary)
      requires Valid() && disk.executable.Some? && disk.previous.None? && disk.marker.Absent?
      modifies this`history, this`reachable, this`update, this`begun, this`allowance
      ensures Valid() && old(reachable) <= reachable
      ensures begun == old(begun) + 1 && begun !in rolled && allowance == old(allowance) + 1
      ensures update == Update(disk.executable.value, staged, false, begun)
    {
      begun, allowance := begun + 1, allowance + 1;
      update := Update(disk.executable.value, staged, false, begun);
      history, reachable := history + [Snapshot(disk, update)], reachable + {Snapshot(disk, update)};
    }

    /** Creates, writes and flushes the marker. A flushed file is never torn. */
    method WritePendingState(staged: Binary) returns (ok: bool)
      requires Valid() && disk.executable.Some?
      modifies this`disk, this`history, this`reachable, this`update, this`begun, this`allowance
      ensures Valid() && old(reachable) <= reachable
      ensures !old(disk.marker.Absent?) ==> !ok && unchanged(this)
      ensures ok ==> disk == old(disk).(marker := Pending(staged.version))
      ensures ok ==> update == Update(old(disk.executable.value), staged, false, begun) && begun == old(begun) + 1 && begun !in rolled
      ensures ok ==> allowance == old(allowance) + 1
      // a crash on the way can leave a half-written marker
      ensures ok ==> Snapshot(old(disk).(marker := Torn), update) in reachable
      ensures !ok ==> disk == old(disk).(marker := disk.marker)
      ensures old(begun) <= begun <= old(begun) + 1 && allowance - old(allowance) == begun - old(begun)
      ensures reliable ==> ok == old(disk.marker.Absent?)
    {
      var fault := Fault();
      if fault || !disk.marker.Absent? {
        return false;
      }
      var empty, full := disk.(marker := Torn), disk.(marker := Pending(staged.version));
      var before := history;
      BeginUpdate(staged);
      Change(empty);
      fault := Fault();
      if !fault {
        Change(full);
        fault := Fault();
      }
      if fault {
        var _ := RemoveMarker();
        return false;
      }
      history := before + [Snapshot(disk, update)];
      ok := true;
    }

    method CleanupUncommitted() returns (ok: bool)
      requires Valid() && disk.executable == Some(update.replaced)
      modifies this`disk, this`history, this`reachable
      ensures Valid() && disk.executable == old(disk.executable) && old(reachable) <= reachable
      ensures disk == old(disk) || disk == old(disk).(previous := None) || disk == old(disk).(previous := None, marker := Absent)
    {
      ok := RemovePrevious();
      if !ok {
        return;
      }
      ok := RemoveMarker();
      if !ok {
        return;
      }
      ok := SyncParent();
    }

    /** Replaces the executable by `staged`, keeping the old one undoable. */
    method CommitCandidate(staged: Binary) returns (ok: bool)
      requires Valid() && Some(staged) != disk.executable
      modifies this`disk, this`history, this`reachable, this`update, this`begun, this`allowance
      ensures Valid() && old(reachable) <= reachable
      ensures old(begun) <= begun <= old(begun) + 1 && allowance - old(allowance) == begun - old(begun)
      ensures ok ==> disk == Disk(Some(staged), old(disk.executable), Pending(staged.version)) && Durable()
      ensures !ok ==> disk.executable == old(disk.executable) || (disk.executable == Some(staged) && disk.previous == old(disk.executable))
      // an existing marker, torn or not, is never overwritten
      ensures !old(disk.marker.Absent?) ==> !ok && unchanged(this)
      ensures ok ==> update == Update(old(disk.executable.value), staged, false, begun)
      ensures ok ==> Snapshot(old(disk).(marker := Torn), update) in reachable
      ensures reliable ==> ok == old(disk.marker.Absent?)
    {
      assert Safe(Snapshot(disk, update));
      ok := WritePendingState(staged);
      if !ok {
        return;
      }
      var fault := Fault();
      if fault || disk.previous.Some? {
        var _ := RemoveMarker();
        return false;
      }
      Change(disk.(previous := disk.executable));
      ok := SyncParent();
      if !ok {
        var _ := CleanupUncommitted();
        return;
      }
      fault := Fault();
      if fault {
        var _ := CleanupUncommitted();
        return false;
      }
      Change(disk.(executable := Some(staged)));
      ok := SyncParent();
      if !ok {
        var _ := RestorePrevious();
      }
    }

    // ----- undoing and confirming

    /** Puts `.previous` back. Success leaves exactly the old binary, durably,
        also when both names were links to it. */
    method RestorePrevious() returns (ok: bool)
      requires Valid()
      modifies this`disk, this`history, this`reachable
      ensures Valid() && old(reachable) <= reachable
      ensures ok ==> old(disk.previous.Some?) && disk == Disk(Some(update.replaced), None, Absent) && Durable()
      ensures !ok ==> disk == old(disk) || disk == Disk(Some(update.replaced), None, old(disk.marker)) || disk == Disk(Some(update.replaced), None, Absent)
      ensures old(disk.previous.None?) ==> disk == old(disk)
      ensures reliable ==> ok == old(disk.previous.Some?)
    {
      assert Safe(Snapshot(disk, update));
      var fault := Fault();
      if fault || disk.previous.None? {
        return false;
      }
      fault := Fault();
      if fault {
        return false;
      }
      if disk.executable == disk.previous {
        ok := RemovePrevious();
      } else {
        fault := Fault();
        if !fault {
          Change(disk.RenamePrevious());
        }
        ok := !fault;
      }
      if !ok {
        return;
      }
      ok := RemoveMarkerIfPresent();
      if !ok {
        return;
      }
      ok := SyncParent();
    }

    method CleanupConfirmed() returns (ok: bool)
      requires Valid() && update.confirmed
      modifies this`disk, this`history, this`reachable
      ensures Valid() && disk.executable == old(disk.executable) && old(reachable) <= reachable
      ensures ok ==> disk.Clean() && Durable()
      ensures disk.marker == old(disk.marker) || disk.marker.Absent?
      ensures reliable ==> ok
    {
      var fault := Fault();
      if fault {
        return false;
      }
      if disk.previous.Some? {
        ok := RemovePrevious();
        if !ok {
          return;
        }
      }
      ok := RemoveMarkerIfPresent();
      if !ok {
        return;
      }
      ok := SyncParent();
    }

    /** A process running the candidate came up. */
    method Confirm()
      requires Valid()
      modifies this`update, this`history, this`reachable
      ensures Valid() && old(reachable) <= reachable && update == old(update).(confirmed := true)
    {
      assert Safe(Snapshot(disk, update));
      update := update.(confirmed := true);
      history, reachable := history + [Snapshot(disk, update)], reachable + {Snapshot(disk, update)};
    }

    // ----- crashes

    /** Starts a new episode: forgets what a crash could have left before now. */
    method BeginEpisode()
      requires Valid()
      modifies this`reachable
      ensures Valid() && reachable == (set s | s in history) && reachable <= old(reachable)
    {
      reachable := set s | s in history;
    }

    /** The program restarts after the update pending in `pending` was undone. */
    method CountRollback(ghost pending: Snapshot)
      requires Valid() && Durable() && disk.Clean()
      requires pending in reachable && pending.disk.previous.Some? && pending.update == update
      modifies this`reachable, this`rolled
      ensures Valid() && Durable() && reachable <= old(reachable) && rolled == old(rolled) + [update.serial]
    {
      BeginEpisode();
      rolled := rolled + [update.serial];
    }

    /** Power loss at a moment that leaves `s`. */
    method CrashTo(s: Snapshot)
      requires Valid() && s in reachable
      modifies this`disk, this`update, this`history, this`reachable
      ensures Valid() && Durable() && Snapshot(disk, update) == s && reachable == {s}
    {
      disk, update, history, reachable := s.disk, s.update, [s], {s};
    }

    /** Power loss at some moment of the episode. */
    method Crash()
      requires Valid()
      modifies this`disk, this`update, this`history, this`reachable
      ensures Valid() && Durable() && Snapshot(disk, update) in old(reachable) && reachable == {Snapshot(disk, update)}
    {
      var s :| s in reachable;
      CrashTo(s);
    }
  }

  // ----- startup recovery

  class StartupRecovery {
    const directory: Directory
    const target: Text
    var confirmed: bool

    constructor (directory: Directory, target: Text)
      ensures this.directory == directory && this.target == target && !confirmed
    {
      this.directory, this.target, this.confirmed := directory, target, false;
    }

    method ConfirmStartup()
      requires directory.Valid()
      modifies this, directory`disk, directory`update, directory`history, directory`reachable
      ensures confirmed && directory.Valid() && old(directory.reachable) <= directory.reachable
      ensures directory.disk.executable == old(directory.disk.executable)
      ensures directory.disk.marker == old(directory.disk.marker) || directory.disk.marker.Absent?
      ensures directory.reliable ==> directory.disk.Clean() && directory.Durable()
    {
      confirmed := true;
      directory.Confirm();
      var _ := directory.CleanupConfirmed();
    }

    /** A confirmed start is never rolled back. */
    method Rollback() returns (ok: bool)
      requires directory.Valid()
      modifies directory`disk, directory`history, directory`reachable
      ensures directory.Valid() && old(directory.reachable) <= directory.reachable
      ensures confirmed ==> !ok && directory.disk == old(directory.disk)
      ensures ok ==> directory.disk == Disk(Some(directory.update.replaced), None, Absent) && directory.Durable()
      ensures ok ==> old(directory.disk.previous.Some?)
      ensures directory.disk.marker == old(directory.disk.marker) || directory.disk.marker.Absent?
      ensures directory.reliable && !confirmed ==> ok == old(directory.disk.previous.Some?)
    {
      if confirmed {
        return false;
      }
      ok := directory.RestorePrevious();
    }
  }

  /** Looks for a pending update. `ok` is false for an unreadable marker. */
  method Discover(directory: Directory) returns (ok: bool, recovery: StartupRecovery?)
    requires directory.Valid()
    modifies directory`disk, directory`history, directory`reachable
    ensures directory.Valid() && old(directory.reachable) <= directory.reachable
    ensures recovery != null ==> ok && fresh(recovery) && recovery.directory == directory && !recovery.confirmed
    ensures recovery != null ==> directory.disk == old(directory.disk) && directory.disk.previous.Some? && directory.disk.marker == Pending(recovery.target)
    ensures old(directory.disk.previous.Some?) ==> directory.disk == old(directory.disk)
    ensures directory.disk == old(directory.disk) || directory.disk == old(directory.disk).(marker := Absent)
    ensures old(directory.disk.marker.Torn?) ==> !ok && unchanged(directory)
    ensures directory.reliable && !old(directory.disk.marker.Torn?) ==>
              ok && (recovery != null <==> old(directory.disk.previous.Some?)) && (recovery == null ==> directory.disk.Clean())
  {
    recovery := null;
    var fault := directory.Fault();
    if fault {
      return false, null;
    }
    assert Safe(Snapshot(directory.disk, directory.update));
    match directory.disk.marker {
      case Absent =>
        return true, null;
      case Torn =>
        return false, null;
      case Pending(version) =>
        fault := directory.Fault();
        if fault {
          return false, null;
        }
        if directory.disk.previous.None? {
          ok := directory.RemoveMarker();
          if !ok {
            return;
          }
          ok := directory.SyncParent();
          return;
        }
        recovery := new StartupRecovery(directory, version);
        ok := true;
    }
  }

  // ----- the startup driver

  datatype Lock = Held | Contended | Unavailable

  /** What the rest of startup does: failures before the lock, the instance
      lock, the runtime, and the application up to readiness. */
  datatype Events = Events(earlyFailure: bool, pathKnown: bool, lock: Lock, runtimeStarts: bool, applicationReady: bool)

  /** Nothing outside the update gets in the way of this start. */
  predicate Undisturbed(e: Events) {
    !e.earlyFailure && e.pathKnown && e.lock.Held?
  }

  datatype Exit = Serving | Failed | Restart

  /** Recovery before the lock is held; only for a restart made by an update. */
  method RecoverEarlyFailure(directory: Directory, updateRestart: bool) returns (exit: Exit)
    requires directory.Valid()
    modifies directory`disk, directory`history, directory`reachable
    ensures directory.Valid() && old(directory.reachable) <= directory.reachable
    ensures exit == Restart ==> updateRestart && RolledBack(directory) && old(directory.disk.previous.Some?)
    ensures exit != Serving
    ensures !updateRestart || old(directory.disk.marker.Torn?) ==> unchanged(directory)
    ensures old(directory.disk).Clean() ==> directory.disk == old(directory.disk)
    ensures directory.disk.marker == old(directory.disk.marker) || directory.disk.marker.Absent?
  {
    if !updateRestart {
      return Failed;
    }
    exit := RecoverPendingUpdate(directory);
  }

  ghost predicate RolledBack(directory: Directory)
    reads directory
  {
    directory.disk == Disk(Some(directory.update.replaced), None, Absent) && directory.Durable()
  }

  method RecoverPendingUpdate(directory: Directory) returns (exit: Exit)
    requires directory.Valid()
    modifies directory`disk, directory`history, directory`reachable
    ensures directory.Valid() && old(directory.reachable) <= directory.reachable
    ensures exit != Serving && (exit == Restart ==> RolledBack(directory) && old(directory.disk.previous.Some?))
    ensures directory.disk.marker == old(directory.disk.marker) || directory.disk.marker.Absent?
    ensures old(directory.disk.marker.Torn?) ==> unchanged(directory)
    ensures old(directory.disk).Clean() ==> directory.disk == old(directory.disk)
    ensures directory.reliable && !old(directory.disk.marker.Torn?) ==>
              directory.disk.Clean() && (exit == Restart <==> old(directory.disk.previous.Some?))
  {
    var found, recovery := Discover(directory);
    if recovery == null {
      return Failed;
    }
    var ok := recovery.Rollback();
    exit := if ok then Restart else Failed;
  }

  /** Failure while the lock is held. A confirmed start is left alone. */
  method RecoverLockedFailure(directory: Directory, recovery: StartupRecovery?) returns (exit: Exit)
    requires directory.Valid() && (recovery != null ==> recovery.directory == directory)
    modifies directory`disk, directory`history, directory`reachable
    ensures directory.Valid() && old(directory.reachable) <= directory.reachable
    ensures exit != Serving && (exit == Restart ==> RolledBack(directory) && old(directory.disk.previous.Some?))
    ensures recovery == null || recovery.confirmed ==> exit == Failed && unchanged(directory)
    ensures directory.disk.marker == old(directory.disk.marker) || directory.disk.marker.Absent?
    ensures directory.reliable && recovery != null && !recovery.confirmed && old(directory.disk.previous.Some?) ==>
              exit == Restart && directory.disk.Clean()
  {
    if recovery == null || recovery.confirmed {
      return Failed;
    }
    var ok := recovery.Rollback();
    exit := if ok then Restart else Failed;
  }

  /** One start of the program `running`. */
  method Run(directory: Directory, running: Binary, updateRestart: bool, e: Events) returns (exit: Exit)
    requires directory.Valid()
    modifies directory`disk, directory`update, directory`history, directory`reachable
    ensures directory.Valid() && old(directory.reachable) <= directory.reachable
    // a restart happens only after a durable rollback of a pending update
    ensures exit == Restart ==> RolledBack(directory) && old(directory.disk.previous.Some?)
    // a program that serves keeps the executable, and an update is confirmed
    // only by a program of the version that its marker names
    ensures exit == Serving ==> directory.disk.executable == old(directory.disk.executable)
    ensures directory.update != old(directory.update) ==> exit == Serving && old(directory.disk.marker) == Pending(running.version)
    // startup never tears a marker and never touches a torn one
    ensures directory.disk.marker == old(directory.disk.marker) || directory.disk.marker.Absent?
    ensures old(directory.disk.marker.Torn?) ==> unchanged(directory)
    // without a pending update, nothing changes
    ensures old(directory.disk).Clean() ==> directory.disk == old(directory.disk) && directory.update == old(directory.update)
    // an undisturbed start leaves no pending update behind, and a new binary in
    // place unless it restarts
    ensures directory.reliable && Undisturbed(e) && !old(directory.disk.marker.Torn?) ==>
              directory.disk.Clean() && (exit != Restart ==> directory.disk.executable == old(directory.disk.executable))
  {
    assert Safe(Snapshot(directory.disk, directory.update));
    if e.earlyFailure || (!e.pathKnown && updateRestart) {
      exit := RecoverEarlyFailure(directory, updateRestart);
      return;
    }
    if !e.lock.Held? {
      if e.lock.Unavailable? {
        exit := RecoverEarlyFailure(directory, updateRestart);
      } else {
        exit := Failed;
      }
      return;
    }
    var recovery: StartupRecovery? := null;
    if e.pathKnown {
      var _, found := Discover(directory);
      recovery := found;
    }
    if recovery != null && recovery.target != running.version {
      exit := RecoverLockedFailure(directory, recovery);
      return;
    }
    if !e.runtimeStarts || !e.applicationReady {
      exit := RecoverLockedFailure(directory, recovery);
      return;
    }
    if recovery != null {
      recovery.ConfirmStartup();
    }
    exit := Serving;
  }

  /** What a run does next; `reliable` and `events` carry the environment. */
  datatype Move =
    | Start(updateRestart: bool, events: Events, reliable: bool)
    | Commit(staged: Binary, restartExecs: bool, reliable: bool)

  predicate Calm(moves: seq<Move>) {
    forall m | m in moves :: m.Start? && m.reliable && Undisturbed(m.events)
  }

  /** Undisturbed starts settle any pending update whose marker is intact: the
      directory is clean after the first, at most one of them restarts, and then
      the replaced binary is back. A torn marker they leave alone. */
  method Settle(directory: Directory, starts: seq<Move>) returns (restarts: nat)
    requires directory.Valid() && starts != [] && Calm(starts)
    modifies directory`disk, directory`update, directory`history, directory`reachable, directory`reliable
    ensures directory.Valid() && restarts <= 1
    ensures old(directory.disk.marker.Torn?) ==> directory.disk == old(directory.disk)
    ensures !old(directory.disk.marker.Torn?) ==> directory.disk.Clean()
    ensures old(directory.disk.previous.None?) ==> restarts == 0
    ensures directory.disk.executable == if restarts == 1 then Some(directory.update.replaced) else old(directory.disk.executable)
  {
    restarts := 0;
    directory.reliable := true;
    for i := 0 to |starts|
      invariant directory.Valid() && directory.reliable && restarts <= 1
      invariant old(directory.disk.marker.Torn?) ==> directory.disk == old(directory.disk)
      invariant i == 0 ==> directory.disk == old(directory.disk)
      invariant i > 0 && !old(directory.disk.marker.Torn?) ==> directory.disk.Clean()
      invariant restarts == 1 ==> i > 0 && old(directory.disk.previous.Some?)
      invariant directory.disk.executable == if restarts == 1 then Some(directory.update.replaced) else old(directory.disk.executable)
    {
      assert starts[i] in starts;
      assert Safe(directory.Current());
      var exit := Run(directory, directory.disk.executable.value, starts[i].updateRestart, starts[i].events);
      if exit == Restart {
        restarts := restarts + 1;
      }
    }
  }

  // ----- whole histories

  function Updates(moves: seq<Move>): nat {
    if moves == [] then 0 else Updates(moves[..|moves| - 1]) + if moves[|moves| - 1].Commit? then 1 else 0
  }

  /** One move, possibly cut short by a crash at any moment. `seen` are all
      states that a crash could have left. */
  method Episode(directory: Directory, move: Move) returns (ghost seen: set<Snapshot>)
    requires directory.Valid()
    modifies directory
    ensures directory.Valid() && directory.reachable <= seen
    ensures forall s | s in seen :: Safe(s)
    ensures directory.rolled == old(directory.rolled)
            || (directory.rolled == old(directory.rolled) + [directory.update.serial] && directory.disk.Clean())
    ensures directory.allowance <= old(directory.allowance) + if move.Commit? then 1 else 0
    ensures old(directory.disk.marker.Torn? && directory.Durable()) ==> directory.disk == old(directory.disk) && directory.Durable()
  {
    directory.reliable := move.reliable;
    directory.BeginEpisode();
    assert Safe(Snapshot(directory.disk, directory.update));
    var restart := false;
    ghost var pending := directory.Current();
    match move {
      case Start(updateRestart, events, _) =>
        var exit := Run(directory, directory.disk.executable.value, updateRestart, events);
        restart := exit == Restart;
      case Commit(staged, restartExecs, _) =>
        if Some(staged) != directory.disk.executable {
          var ok := directory.CommitCandidate(staged);
          pending := directory.Current();
          if ok && !restartExecs {
            // the new binary could not be executed
            var exit := RecoverPendingUpdate(directory);
            restart := exit == Restart;
          }
        }
    }
    seen := directory.reachable;
    var crashed: bool := *;
    if crashed {
      directory.Crash();
    } else if restart {
      directory.CountRollback(pending);
    }
  }

  /** Any sequence of starts and updates, each possibly cut short by a crash at
      any moment. Every state a crash could ever leave is safe; no update is
      rolled back twice; and over any such stretch rollback restarts number at
      most the updates begun, plus one if an update was pending before. A torn
      marker, once on disk, outlasts everything. */
  method AnyHistory(directory: Directory, moves: seq<Move>) returns (ghost visited: set<Snapshot>)
    requires directory.Valid()
    modifies directory
    ensures directory.Valid()
    ensures old(directory.reachable) <= visited && directory.reachable <= visited
    ensures forall s | s in visited :: Safe(s)
    ensures old(directory.rolled) <= directory.rolled && NoneTwice(directory.rolled)
    ensures |directory.rolled| <= |old(directory.rolled)| + UndoableIn(old(directory.reachable)) + Updates(moves)
    ensures old(directory.disk.marker.Torn? && directory.Durable()) ==> directory.disk == old(directory.disk) && directory.Durable()
  {
    visited := directory.reachable;
    directory.allowance := |directory.rolled| + UndoableIn(directory.reachable);
    ghost var start := directory.allowance;
    for i := 0 to |moves|
      invariant directory.Valid()
      invariant old(directory.reachable) <= visited && directory.reachable <= visited
      invariant forall s | s in visited :: Safe(s)
      invariant old(directory.rolled) <= directory.rolled
      invariant directory.allowance <= start + Updates(moves[..i])
      invariant old(directory.disk.marker.Torn? && directory.Durable()) ==>
                  directory.disk == old(directory.disk) && directory.Durable()
    {
      assert moves[..i + 1][..i] == moves[..i];
      ghost var seen := Episode(directory, moves[i]);
      visited := visited + seen;
    }
    assert moves[..|moves|] == moves;
  }

  /** However a history of starts, updates, failed calls and crashes went, and
      whatever disk `between` it left: undisturbed starts then lead to a clean
      directory with at most one restart, back on the replaced binary if there
      was one. The exception is a torn marker, which stays, next to the binary
      that was to be replaced. */
  method Converge(directory: Directory, moves: seq<Move>, starts: seq<Move>) returns (between: Disk, restarts: nat)
    requires directory.Valid() && starts != [] && Calm(starts)
    modifies directory
    ensures directory.Valid() && restarts <= 1
    ensures !between.marker.Torn? ==> directory.disk.Clean()
    ensures between.marker.Torn? ==> directory.disk == between && restarts == 0 && between.executable == Some(directory.update.replaced)
    ensures directory.disk.executable == if restarts == 1 then Some(directory.update.replaced) else between.executable
  {
    ghost var _ := AnyHistory(directory, moves);
    between := directory.disk;
    assert Safe(directory.Current());
    restarts := Settle(directory, starts);
    assert Safe(directory.Current());
  }

  /** A crash while the marker is being written leaves it torn, and no later
      history of starts and updates, reliable or not, gets rid of it. */
  method TornMarkerStays(executable: Binary, staged: Binary, moves: seq<Move>) returns (directory: Directory)
    requires staged != executable
    ensures fresh(directory) && directory.Valid() && directory.disk == Disk(Some(executable), None, Torn)
  {
    directory := new Directory(executable, true);
    var _ := directory.CommitCandidate(staged);
    directory.CrashTo(Snapshot(Disk(Some(executable), None, Torn), directory.update));
    ghost var _ := AnyHistory(directory, moves);
  }
}
