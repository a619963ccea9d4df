/** Admission of update tasks: clients, the gated spawn, the task and its commit
    interleave over one mutex-guarded status, while shutdown may begin at any
    time. */
module UpdateTask {
  import opened Basics

  datatype Failure = CheckFailed | NoUpdate | DownloadFailed | VerificationFailed | InstallFailed

  datatype Status =
    | Idle
    | Checking
    | Downloading(target: Text, done: nat, total: nat)
    | Installing(target: Text)
    | Restarting(target: Text)
    | Failed(version: Option<Text>, kind: Failure)
  {
    predicate Active() {
      Checking? || Downloading? || Installing? || Restarting?
    }
  }

  // ----- the guarded status

  function Progressed(s: Status, target: Text, done: nat): Status {
    if s.Downloading? && s.target == target then s.(done := Max(Min(done, s.total), s.done)) else s
  }

  function RolledBack(s: Status, previous: Status): Status {
    if s == Checking then previous else s
  }

  // ----- the protocol

  /** Where a client's call to start an update stands. */
  datatype Call = Asked | Admitted(previous: Status) | Spawned(previous: Status) | Refused(previous: Status) | Answered

  /** Where the task of a call stands; `Gated` waits for its start signal. */
  datatype Task = Gated | Started | Fetching(target: Text, total: nat) | Prepared(target: Text) | Committing(target: Text) | Completing(target: Text) | Ended

  datatype State = State(
    accepting: bool,
    status: Status,
    calls: map<nat, Call>,
    tasks: map<nat, Task>,
    restart: nat,
    accepted: seq<nat>,
    manualSupported: bool
  )

  const MANUAL: nat := 1
  const UPDATE: nat := 2

  datatype Action =
    | Ask(id: nat)
    | BeginTask(id: nat)
    | SpawnGated(id: nat)
    | OpenGate(id: nat)
    | RollBack(id: nat)
    | Shutdown
    | Abort(id: nat)
    | StartDownload(id: nat, target: Text, total: nat)
    | Report(id: nat, done: nat)
    | PrepareOk(id: nat)
    | Schedule(id: nat)
    | CommitOk(id: nat)
    | Fail(id: nat, version: Option<Text>, kind: Failure)
    | AnnounceRestart(id: nat)
    | RequestRestart

  function Initial(manualSupported: bool): State {
    State(true, Idle, map[], map[], 0, [], manualSupported)
  }

  predicate CallIs(s: State, id: nat, c: Call) {
    id in s.calls && s.calls[id] == c
  }

  /** The call has been admitted and not yet answered. */
  predicate Waiting(s: State, id: nat) {
    id in s.calls && (s.calls[id].Admitted? || s.calls[id].Spawned? || s.calls[id].Refused?)
  }

  /** The task has begun to run and has not ended. */
  predicate Live(s: State, id: nat) {
    id in s.tasks && !s.tasks[id].Gated? && !s.tasks[id].Ended?
  }

  /** `fetch_max`, and whether the request counts as accepted. */
  function Requested(s: State, kind: nat): State {
    if s.restart < kind then s.(restart := kind, accepted := s.accepted + [kind]) else s
  }

  /** One step; an action that is not enabled changes nothing. */
  function Step(s: State, a: Action): State {
    match a
    case Ask(id) =>
      if s.accepting && id !in s.calls then s.(calls := s.calls[id := Asked]) else s
    case BeginTask(id) =>
      if !CallIs(s, id, Asked) then s
      else if s.status.Active() then s.(calls := s.calls[id := Answered])
      else s.(calls := s.calls[id := Admitted(s.status)], status := Checking)
    case SpawnGated(id) =>
      if id !in s.calls || !s.calls[id].Admitted? then s
      else if !s.accepting then s.(calls := s.calls[id := Refused(s.calls[id].previous)])
      else s.(calls := s.calls[id := Spawned(s.calls[id].previous)], tasks := s.tasks[id := Gated])
    case OpenGate(id) =>
      if id !in s.calls || !s.calls[id].Spawned? || id !in s.tasks then s
      else if !s.accepting || !s.tasks[id].Gated? then
        s.(calls := s.calls[id := Refused(s.calls[id].previous)], tasks := s.tasks[id := Ended])
      else s.(calls := s.calls[id := Answered], tasks := s.tasks[id := Started])
    case RollBack(id) =>
      if id !in s.calls || !s.calls[id].Refused? then s
      else s.(status := RolledBack(s.status, s.calls[id].previous), calls := s.calls[id := Answered])
    case Shutdown => s.(accepting := false)
    case Abort(id) =>
      if id !in s.tasks || s.tasks[id].Committing? || s.tasks[id].Completing? then s else s.(tasks := s.tasks[id := Ended])
    case StartDownload(id, target, total) =>
      if id !in s.tasks || !s.tasks[id].Started? then s
      else s.(status := Downloading(target, 0, total), tasks := s.tasks[id := Fetching(target, total)])
    case Report(id, done) =>
      if id !in s.tasks || !s.tasks[id].Fetching? then s
      else s.(status := Progressed(s.status, s.tasks[id].target, done))
    case PrepareOk(id) =>
      if id !in s.tasks || !s.tasks[id].Fetching? then s
      else s.(status := Installing(s.tasks[id].target), tasks := s.tasks[id := Prepared(s.tasks[id].target)])
    case Schedule(id) =>
      if id !in s.tasks || !s.tasks[id].Prepared? then s
      else s.(tasks := s.tasks[id := Committing(s.tasks[id].target)])
    case CommitOk(id) =>
      if id !in s.tasks || !s.tasks[id].Committing? then s
      else s.(status := Restarting(s.tasks[id].target), tasks := s.tasks[id := Completing(s.tasks[id].target)])
    case Fail(id, version, kind) =>
      if id !in s.tasks || !(s.tasks[id].Started? || s.tasks[id].Fetching? || s.tasks[id].Committing?) then s
      else s.(status := Status.Failed(version, kind), tasks := s.tasks[id := Ended])
    case AnnounceRestart(id) =>
      if id !in s.tasks || !s.tasks[id].Completing? then s
      else Requested(s.(tasks := s.tasks[id := Ended]), UPDATE)
    case RequestRestart => if s.manualSupported then Requested(s, MANUAL) else s
  }

  /** Each method runs under the lock, so it is one step of the protocol. */
  class UpdateTaskState {
    var status: Status

    constructor ()
      ensures status == Idle
    {
      status := Idle;
    }

    /** Admits a task unless one is active; remembers what to restore. */
    method Begin() returns (previous: Option<Status>)
      modifies this
      ensures previous.Some? <==> !old(status).Active()
      ensures previous.Some? ==> previous.value == old(status) && status == Checking
      ensures previous.None? ==> status == old(status)
    {
      if status.Active() {
        return None;
      }
      previous := Some(status);
      status := Checking;
    }

    method Rollback(previous: Status)
      modifies this
      ensures status == RolledBack(old(status), previous)
    {
      if status == Checking {
        status := previous;
      }
    }

    method Downloaded(target: Text, done: nat)
      modifies this
      ensures status == Progressed(old(status), target, done)
    {
      match status {
        case Downloading(current, bytes, total) =>
          if current == target {
            status := Downloading(current, Max(Min(done, total), bytes), total);
          }
        case _ =>
      }
    }

    /** `downloading`, `installing`, `restarting` and `failed`. */
    method Set(next: Status)
      modifies this
      ensures status == next
    {
      status := next;
    }

    /** One step of the protocol, with the guarded status kept here: whatever
        the interleaving, this object shows the status of the protocol. */
    method Perform(s: State, a: Action) returns (t: State)
      requires s.status == status
      modifies this
      ensures t == Step(s, a) && status == t.status
    {
      t := s;
      match a {
        case BeginTask(id) =>
          if CallIs(s, id, Asked) {
            var previous := Begin();
            t := s.(calls := s.calls[id := if previous.Some? then Admitted(previous.value) else Answered], status := status);
          }
        case RollBack(id) =>
          if id in s.calls && s.calls[id].Refused? {
            Rollback(s.calls[id].previous);
            t := s.(status := status, calls := s.calls[id := Answered]);
          }
        case StartDownload(id, target, total) =>
          if id in s.tasks && s.tasks[id].Started? {
            Set(Downloading(target, 0, total));
            t := s.(status := status, tasks := s.tasks[id := Fetching(target, total)]);
          }
        case Report(id, done) =>
          if id in s.tasks && s.tasks[id].Fetching? {
            Downloaded(s.tasks[id].target, done);
            t := s.(status := status);
          }
        case PrepareOk(id) =>
          if id in s.tasks && s.tasks[id].Fetching? {
            Set(Installing(s.tasks[id].target));
            t := s.(status := status, tasks := s.tasks[id := Prepared(s.tasks[id].target)]);
          }
        case CommitOk(id) =>
          if id in s.tasks && s.tasks[id].Committing? {
            Set(Restarting(s.tasks[id].target));
            t := s.(status := status, tasks := s.tasks[id := Completing(s.tasks[id].target)]);
          }
        case Fail(id, version, kind) =>
          if id in s.tasks && (s.tasks[id].Started? || s.tasks[id].Fetching? || s.tasks[id].Committing?) {
            Set(Status.Failed(version, kind));
            t := s.(status := status, tasks := s.tasks[id := Ended]);
          }
        case _ =>
          // the other steps do not touch the status
          t := Step(s, a);
      }
    }
  }

  /** What the status must be while `id` holds the update. */
  predicate StatusFits(s: State, id: nat) {
    if Waiting(s, id) then s.status == Checking && !s.calls[id].previous.Active()
    else if id !in s.tasks then true
    else match s.tasks[id]
      case Started => s.status == Checking
      case Fetching(target, total) => s.status.Downloading? && s.status.target == target && s.status.total == total
      case Prepared(target) => s.status == Installing(target)
      case Committing(target) => s.status == Installing(target)
      case Completing(target) => s.status == Restarting(target)
      case _ => true
  }

  predicate Holds(s: State, id: nat) {
    Waiting(s, id) || Live(s, id)
  }

  /** A call that waits has no running task, and a gated task has its call. */
  predicate Paired(s: State, i: nat) {
    && (Waiting(s, i) ==> !Live(s, i))
    && (i in s.tasks ==> i in s.calls)
    && (i in s.tasks && s.tasks[i].Gated? ==> i in s.calls && s.calls[i].Spawned?)
    && (i in s.calls && (s.calls[i].Asked? || s.calls[i].Admitted?) ==> i !in s.tasks)
  }

  ghost predicate Inv(s: State) {
    // one holder at a time, and the status is the holder's
    && (forall i, j | Holds(s, i) && Holds(s, j) :: i == j)
    && (forall i | Holds(s, i) :: StatusFits(s, i))
    && (forall i :: Paired(s, i))
    && (s.status.Downloading? ==> s.status.done <= s.status.total)
    // an update restart is signalled after it is shown
    && Ascends(s) && (s.restart == UPDATE ==> s.status.Restarting?)
  }

  lemma InitialInv(manualSupported: bool)
    ensures Inv(Initial(manualSupported))
  {
  }

  /** The call or task an action works on. */
  function Subject(a: Action): Option<nat> {
    match a
    case Shutdown => None
    case RequestRestart => None
    case _ => Some(a.id)
  }

  /** An action leaves other calls and tasks alone. */
  lemma OthersKeep(s: State, a: Action, i: nat)
    requires Subject(a) != Some(i)
    ensures var t := Step(s, a);
            && (i in t.calls <==> i in s.calls) && (i in s.calls ==> t.calls[i] == s.calls[i])
            && (i in t.tasks <==> i in s.tasks) && (i in s.tasks ==> t.tasks[i] == s.tasks[i])
  {
  }

  /** The status changes when a task is admitted, and else only by its holder. */
  lemma HolderWrites(s: State, a: Action)
    ensures var t := Step(s, a);
            || t.status == s.status
            || (a.BeginTask? && !s.status.Active() && t.status == Checking)
            || (Subject(a).Some? && Holds(s, Subject(a).value))
  {
  }

  lemma HolderIsActive(s: State, id: nat)
    requires Holds(s, id) && StatusFits(s, id) && Paired(s, id)
    ensures s.status.Active() && (s.status.Restarting? ==> id in s.tasks && s.tasks[id].Completing?)
  {
  }

  /** Whoever holds the update after a step either held it before, or was just
      admitted while nobody did. */
  lemma HoldersAfter(s: State, a: Action, j: nat)
    requires Paired(s, j) && Holds(Step(s, a), j)
    ensures Holds(s, j) || (a == BeginTask(j) && !s.status.Active())
  {
    if Subject(a) != Some(j) {
      OthersKeep(s, a, j);
    }
  }

  lemma OwnFit(s: State, a: Action, j: nat)
    requires Subject(a) == Some(j) && Paired(s, j) && (Holds(s, j) ==> StatusFits(s, j)) && Holds(Step(s, a), j)
    ensures StatusFits(Step(s, a), j)
  {
  }

  lemma FitsAfter(s: State, a: Action, j: nat)
    requires Inv(s) && Holds(Step(s, a), j)
    ensures StatusFits(Step(s, a), j)
  {
    hide Step;
    assert Paired(s, j);
    HoldersAfter(s, a, j);
    if Subject(a) == Some(j) {
      OwnFit(s, a, j);
    } else {
      OthersKeep(s, a, j);
      HolderIsActive(s, j);
      HolderWrites(s, a);
    }
  }

  lemma PairedAfter(s: State, a: Action, i: nat)
    requires Paired(s, i)
    ensures Paired(Step(s, a), i)
  {
    if Subject(a) != Some(i) {
      OthersKeep(s, a, i);
    }
  }

  /** A shown restart stays, progress grows, and stays within the total. */
  ghost predicate Onward(a: Status, b: Status) {
    && (a.Restarting? ==> b == a)
    && (b.Downloading? ==> b.done <= b.total)
    && (a.Downloading? && b.Downloading? ==> a.target == b.target && a.total == b.total && a.done <= b.done)
  }

  lemma HolderOnward(s: State, a: Action, i: nat)
    requires Subject(a) == Some(i) && Holds(s, i) && StatusFits(s, i) && Paired(s, i)
    requires s.status.Downloading? ==> s.status.done <= s.status.total
    ensures Onward(s.status, Step(s, a).status)
  {
  }

  lemma StatusAfter(s: State, a: Action)
    requires Inv(s)
    ensures Onward(s.status, Step(s, a).status)
  {
    hide Step, StatusFits, Ascends;
    HolderWrites(s, a);
    if Subject(a).Some? && Holds(s, Subject(a).value) {
      assert Paired(s, Subject(a).value);
      HolderOnward(s, a, Subject(a).value);
    }
  }

  /** Accepted restarts ascend up to the recorded kind. */
  ghost predicate Ascends(s: State) {
    && (forall i, j | 0 <= i < j < |s.accepted| :: s.accepted[i] < s.accepted[j])
    && (if s.accepted == [] then s.restart == 0 else s.restart == s.accepted[|s.accepted| - 1])
    && (!s.manualSupported ==> MANUAL !in s.accepted)
  }

  lemma RequestedAscends(s: State, kind: nat)
    requires Ascends(s) && (kind == MANUAL ==> s.manualSupported)
    ensures Ascends(Requested(s, kind))
  {
  }

  lemma RestartAfter(s: State, a: Action)
    requires Ascends(s)
    ensures Ascends(Step(s, a)) && Step(s, a).manualSupported == s.manualSupported
    ensures s.restart <= Step(s, a).restart && s.accepted <= Step(s, a).accepted
  {
    hide Ascends;
    if a.RequestRestart? && s.manualSupported {
      RequestedAscends(s, MANUAL);
    } else if a.AnnounceRestart? && a.id in s.tasks && s.tasks[a.id].Completing? {
      SameRestarts(s, s.(tasks := s.tasks[a.id := Ended]));
      RequestedAscends(s.(tasks := s.tasks[a.id := Ended]), UPDATE);
    } else {
      SameRestarts(s, Step(s, a));
    }
  }

  lemma SameRestarts(s: State, t: State)
    requires Ascends(s) && t.accepted == s.accepted && t.restart == s.restart && t.manualSupported == s.manualSupported
    ensures Ascends(t)
  {
  }

  lemma ShownAfter(s: State, a: Action)
    requires Inv(s)
    ensures Step(s, a).restart == UPDATE ==> Step(s, a).status.Restarting?
  {
    hide Step, Ascends, StatusFits;
    StatusAfter(s, a);
    RestartAfter(s, a);
    AnnouncedByHolder(s, a);
  }

  /** Only the update itself signals its restart, when it has shown it. */
  lemma AnnouncedByHolder(s: State, a: Action)
    requires Inv(s)
    ensures Step(s, a).restart == UPDATE ==> s.restart == UPDATE || s.status.Restarting?
  {
    if a.AnnounceRestart? && a.id in s.tasks && s.tasks[a.id].Completing? {
      assert Holds(s, a.id) && Paired(s, a.id);
    }
  }

  /** Every step keeps the invariant. */
  lemma StepKeepsInv(s: State, a: Action)
    requires Inv(s)
    ensures Inv(Step(s, a))
  {
    hide Step, StatusFits, Paired, Holds, Ascends;
    var t := Step(s, a);
    StatusAfter(s, a);
    RestartAfter(s, a);
    ShownAfter(s, a);
    forall i
      ensures Paired(t, i)
    {
      PairedAfter(s, a, i);
    }
    forall j | Holds(t, j)
      ensures StatusFits(t, j)
    {
      FitsAfter(s, a, j);
    }
    forall i, j | Holds(t, i) && Holds(t, j)
      ensures i == j
    {
      OneHolderAfter(s, a, i, j);
    }
  }

  lemma OneHolderAfter(s: State, a: Action, i: nat, j: nat)
    requires Inv(s) && Holds(Step(s, a), i) && Holds(Step(s, a), j)
    ensures i == j
  {
    hide Step, StatusFits;
    assert Paired(s, i) && Paired(s, j);
    HoldersAfter(s, a, i);
    HoldersAfter(s, a, j);
    if Holds(s, i) {
      HolderIsActive(s, i);
    }
    if Holds(s, j) {
      HolderIsActive(s, j);
    }
  }

  // ----- whole runs

  function RunFrom(s: State, actions: seq<Action>): State {
    if actions == [] then s else Step(RunFrom(s, actions[..|actions| - 1]), actions[|actions| - 1])
  }

  lemma {:induction false} RunKeepsInv(manual: bool, actions: seq<Action>)
    ensures var s := RunFrom(Initial(manual), actions); Inv(s) && s.manualSupported == manual
  {
    if actions == [] {
      InitialInv(manual);
    } else {
      RunKeepsInv(manual, actions[..|actions| - 1]);
      RestartAfter(RunFrom(Initial(manual), actions[..|actions| - 1]), actions[|actions| - 1]);
      StepKeepsInv(RunFrom(Initial(manual), actions[..|actions| - 1]), actions[|actions| - 1]);
    }
  }

  /** In every interleaving at most one update task runs, and while one runs no
      other call is between admission and answer. */
  lemma AtMostOneTask(manual: bool, actions: seq<Action>, i: nat, j: nat)
    requires var s := RunFrom(Initial(manual), actions); Live(s, i) && (Live(s, j) || Waiting(s, j))
    ensures i == j
  {
    RunKeepsInv(manual, actions);
    var s := RunFrom(Initial(manual), actions);
    assert Holds(s, i) && Holds(s, j);
  }

  /** A refused start restores exactly the status it found, whatever happened in
      between. */
  lemma RefusalRestores(manual: bool, actions: seq<Action>, id: nat)
    requires id in RunFrom(Initial(manual), actions).calls && RunFrom(Initial(manual), actions).calls[id].Refused?
    ensures var s := RunFrom(Initial(manual), actions);
            && Step(s, RollBack(id)).status == s.calls[id].previous
            && !s.calls[id].previous.Active()
  {
    RunKeepsInv(manual, actions);
    var s := RunFrom(Initial(manual), actions);
    assert Waiting(s, id) && Holds(s, id) && StatusFits(s, id);
  }

  /** The call is answered, so it can no longer be refused. */
  predicate IsAnswered(s: State, id: nat) {
    CallIs(s, id, Answered)
  }

  /** The call is refused or answered and its task, if any, is over. */
  predicate IsOver(s: State, id: nat) {
    && id in s.calls && (s.calls[id].Refused? || s.calls[id].Answered?)
    && (id in s.tasks ==> s.tasks[id].Ended?)
  }

  lemma AnsweredStays(s: State, a: Action, id: nat)
    requires IsAnswered(s, id)
    ensures IsAnswered(Step(s, a), id)
  {
  }

  lemma OverStays(s: State, a: Action, id: nat)
    requires IsOver(s, id)
    ensures IsOver(Step(s, a), id)
  {
  }

  lemma RunningOrRefused(s: State, id: nat)
    requires Inv(s)
    ensures Live(s, id) ==> IsAnswered(s, id)
    ensures id in s.calls && s.calls[id].Refused? ==> IsOver(s, id)
  {
    assert Paired(s, id);
  }

  /** What a step keeps, a run keeps. */
  lemma {:induction false} AlongTheRun(manual: bool, actions: seq<Action>, k: nat, id: nat)
    requires k <= |actions|
    ensures var s, t := RunFrom(Initial(manual), actions[..k]), RunFrom(Initial(manual), actions);
            && (IsAnswered(s, id) ==> IsAnswered(t, id))
            && (IsOver(s, id) ==> IsOver(t, id))
    decreases |actions|
  {
    hide Step, IsAnswered, IsOver;
    if k == |actions| {
      assert actions[..k] == actions;
    } else {
      var n := |actions| - 1;
      AlongTheRun(manual, actions[..n], k, id);
      assert actions[..n][..k] == actions[..k];
      var s := RunFrom(Initial(manual), actions[..n]);
      if IsAnswered(s, id) {
        AnsweredStays(s, actions[n], id);
      }
      if IsOver(s, id) {
        OverStays(s, actions[n], id);
      }
    }
  }

  /** The task of a call that is refused at some point of a run does not run at
      any other point, earlier or later. */
  lemma RefusedNeverRuns(manual: bool, actions: seq<Action>, k: nat, m: nat, id: nat)
    requires k <= |actions| && m <= |actions|
    requires var s := RunFrom(Initial(manual), actions[..k]); id in s.calls && s.calls[id].Refused?
    ensures !Live(RunFrom(Initial(manual), actions[..m]), id)
  {
    hide RunFrom, Inv;
    var s, t := RunFrom(Initial(manual), actions[..k]), RunFrom(Initial(manual), actions[..m]);
    RunKeepsInv(manual, actions[..k]);
    RunKeepsInv(manual, actions[..m]);
    RunningOrRefused(s, id);
    RunningOrRefused(t, id);
    if m <= k {
      AlongTheRun(manual, actions[..k], m, id);
      assert actions[..k][..m] == actions[..m];
    } else {
      AlongTheRun(manual, actions[..m], k, id);
      assert actions[..m][..k] == actions[..k];
    }
  }

  /** What a waiting call remembers is the status before its admission: it is
      written there and never changed. */
  lemma MemoryIsFaithful(s: State, a: Action, id: nat)
    requires Inv(s) && Waiting(Step(s, a), id)
    ensures if Waiting(s, id) then Step(s, a).calls[id].previous == s.calls[id].previous
            else a == BeginTask(id) && Step(s, a).calls[id].previous == s.status
  {
  }

  /** What one step may do to the visible status and the restart signal. */
  ghost predicate Advances(s: State, t: State) {
    && Onward(s.status, t.status)
    && s.restart <= t.restart && s.accepted <= t.accepted && s.manualSupported == t.manualSupported
  }

  lemma StepAdvances(s: State, a: Action)
    requires Inv(s)
    ensures Advances(s, Step(s, a))
  {
    hide Step, Ascends;
    StatusAfter(s, a);
    RestartAfter(s, a);
  }

  /** Over a run: a restart, once shown, stays shown; accepted restart requests
      only accumulate, with ascending kinds, so each kind is accepted at most
      once. The update restart is signalled only when it is shown, the manual one
      only where it is supported. */
  lemma {:induction false} RunsAdvance(manual: bool, actions: seq<Action>, k: nat)
    requires k <= |actions|
    ensures var s, t := RunFrom(Initial(manual), actions[..k]), RunFrom(Initial(manual), actions);
            && (s.status.Restarting? ==> t.status == s.status)
            && s.restart <= t.restart && s.accepted <= t.accepted && t.manualSupported == s.manualSupported
            && (forall i, j | 0 <= i < j < |t.accepted| :: t.accepted[i] < t.accepted[j])
            && (t.restart == UPDATE ==> t.status.Restarting?) && (MANUAL in t.accepted ==> manual)
    decreases |actions|
  {
    hide Step;
    RunKeepsInv(manual, actions);
    if k == |actions| {
      assert actions[..k] == actions;
    } else {
      var n := |actions| - 1;
      RunsAdvance(manual, actions[..n], k);
      assert actions[..n][..k] == actions[..k];
      RunKeepsInv(manual, actions[..n]);
      StepAdvances(RunFrom(Initial(manual), actions[..n]), actions[n]);
    }
  }

  /** While a download lasts, its progress only grows and stays within the total. */
  lemma {:induction false} ProgressGrows(manual: bool, actions: seq<Action>, k: nat)
    requires k <= |actions|
    requires forall n | k <= n <= |actions| :: RunFrom(Initial(manual), actions[..n]).status.Downloading?
    ensures var s, t := RunFrom(Initial(manual), actions[..k]).status, RunFrom(Initial(manual), actions).status;
            t.Downloading? && s.target == t.target && s.total == t.total && s.done <= t.done <= t.total
    decreases |actions|
  {
    hide Step;
    assert actions[..|actions|] == actions;
    RunKeepsInv(manual, actions);
    if k < |actions| {
      var n := |actions| - 1;
      assert forall m | k <= m <= n :: actions[..n][..m] == actions[..m];
      ProgressGrows(manual, actions[..n], k);
      RunKeepsInv(manual, actions[..n]);
      StepAdvances(RunFrom(Initial(manual), actions[..n]), actions[n]);
    }
  }
}
