/** Work bounded by a semaphore: zstd decodes that outlive their waiters, and
    accepted connections. Waits, timeouts, cancellations and completions
    interleave freely. */
module Permits {
  import opened Basics

  /** One caller. `Holding` has the permit but has not begun its work (a listener
      waiting for the next connection); `Working` runs a decode or serves a
      connection, `watched` until its waiter goes away. */
  datatype Stage = Waiting | Holding | Working(watched: bool) | Gone | Finished

  datatype State = State(limit: nat, available: nat, callers: map<nat, Stage>)

  datatype Action =
    | Arrive(id: nat)
    | Acquire(id: nat)
    | Begin(id: nat)
    | GiveUp(id: nat)
    | Finish(id: nat)

  function Fresh(limit: nat): State {
    State(limit, limit, map[])
  }

  predicate At(s: State, id: nat, stage: Stage) {
    id in s.callers && s.callers[id] == stage
  }

  predicate HasPermit(s: State, id: nat) {
    id in s.callers && (s.callers[id].Holding? || s.callers[id].Working?)
  }

  /** One step; an action that is not enabled changes nothing. */
  function Step(s: State, a: Action): State {
    match a
    case Arrive(id) =>
      if id in s.callers then s else s.(callers := s.callers[id := Waiting])
    case Acquire(id) =>
      if At(s, id, Waiting) && s.available > 0
      then s.(callers := s.callers[id := Holding], available := s.available - 1) else s
    case Begin(id) =>
      if At(s, id, Holding) then s.(callers := s.callers[id := Working(true)]) else s
    case GiveUp(id) =>
      // timeout or cancellation: a permit not yet in use comes back, one in use stays
      if At(s, id, Waiting) then s.(callers := s.callers[id := Gone])
      else if At(s, id, Holding) then s.(callers := s.callers[id := Gone], available := s.available + 1)
      else if At(s, id, Working(true)) then s.(callers := s.callers[id := Working(false)])
      else s
    case Finish(id) =>
      if id in s.callers && s.callers[id].Working?
      then s.(callers := s.callers[id := Finished], available := s.available + 1) else s
  }

  function Holders(s: State): set<nat> {
    set id | id in s.callers && HasPermit(s, id)
  }

  /** No permit is ever lost or made up. */
  ghost predicate Inv(s: State) {
    s.available + |Holders(s)| == s.limit
  }

  lemma StepKeepsPermits(s: State, a: Action)
    requires Inv(s)
    ensures Inv(Step(s, a)) && Step(s, a).limit == s.limit
  {
    var t, id := Step(s, a), a.id;
    var before, after := Holders(s), Holders(t);
    if HasPermit(t, id) && !HasPermit(s, id) {
      assert after == before + {id};
    } else if HasPermit(s, id) && !HasPermit(t, id) {
      assert after == before - {id};
    } else {
      assert after == before;
    }
  }

  function RunFrom(s: State, actions: seq<Action>): State {
    if actions == [] then s else Step(RunFrom(s, actions[..|actions| - 1]), actions[|actions| - 1])
  }

  lemma {:induction false} RunKeepsPermits(limit: nat, actions: seq<Action>)
    ensures var s := RunFrom(Fresh(limit), actions); Inv(s) && s.limit == limit
  {
    if actions == [] {
      assert Holders(Fresh(limit)) == {};
    } else {
      RunKeepsPermits(limit, actions[..|actions| - 1]);
      StepKeepsPermits(RunFrom(Fresh(limit), actions[..|actions| - 1]), actions[|actions| - 1]);
    }
  }

  function Workers(s: State): set<nat> {
    set id | id in s.callers && s.callers[id].Working?
  }

  /** Under every schedule, permits are conserved and the work in progress never
      exceeds the limit. */
  lemma WorkIsBounded(limit: nat, actions: seq<Action>)
    ensures var s := RunFrom(Fresh(limit), actions);
            s.available + |Holders(s)| == limit && |Workers(s)| <= limit
  {
    RunKeepsPermits(limit, actions);
    var s := RunFrom(Fresh(limit), actions);
    SubsetSize(Workers(s), Holders(s));
  }

  lemma {:induction false} SubsetSize(a: set<nat>, b: set<nat>)
    requires a <= b
    ensures |a| <= |b|
    decreases |a|
  {
    if a != {} {
      var x :| x in a;
      SubsetSize(a - {x}, b - {x});
    }
  }

  /** From a stage there is only one way on. */
  predicate Onward(a: Stage, b: Stage) {
    || a == b
    || a.Waiting?
    || (a.Holding? && !b.Waiting?)
    || (a == Working(true) && (b == Working(false) || b.Finished?))
    || (a == Working(false) && b.Finished?)
  }

  lemma StepGoesOnward(s: State, a: Action, id: nat)
    requires id in s.callers
    ensures id in Step(s, a).callers && Onward(s.callers[id], Step(s, a).callers[id])
  {
  }

  lemma OnwardItself(a: Stage)
    ensures Onward(a, a)
  {
  }

  lemma OnwardChain(a: Stage, b: Stage, c: Stage)
    requires Onward(a, b) && Onward(b, c)
    ensures Onward(a, c)
  {
  }

  lemma {:induction false} StagesGoOnward(limit: nat, actions: seq<Action>, k: nat, id: nat)
    requires k <= |actions| && id in RunFrom(Fresh(limit), actions[..k]).callers
    ensures var s, t := RunFrom(Fresh(limit), actions[..k]), RunFrom(Fresh(limit), actions);
            id in t.callers && Onward(s.callers[id], t.callers[id])
    decreases |actions|
  {
    hide Step, Onward;
    var s := RunFrom(Fresh(limit), actions[..k]);
    if k == |actions| {
      assert actions[..k] == actions;
      OnwardItself(s.callers[id]);
    } else {
      var n := |actions| - 1;
      assert actions[..n][..k] == actions[..k];
      StagesGoOnward(limit, actions[..n], k, id);
      var t := RunFrom(Fresh(limit), actions[..n]);
      StepGoesOnward(t, actions[n], id);
      OnwardChain(s.callers[id], t.callers[id], Step(t, actions[n]).callers[id]);
    }
  }

  /** A caller that gave up before its work began never works, and work that has
      begun keeps its permit until it is finished, watched or not. */
  lemma NoLateStartsNoEarlyReturns(limit: nat, actions: seq<Action>, k: nat, id: nat)
    requires k <= |actions| && id in RunFrom(Fresh(limit), actions[..k]).callers
    ensures var s, t := RunFrom(Fresh(limit), actions[..k]), RunFrom(Fresh(limit), actions);
            && id in t.callers
            && (s.callers[id].Gone? ==> t.callers[id].Gone?)
            && (s.callers[id].Working? && !t.callers[id].Finished? ==> id in Holders(t) && t.callers[id].Working?)
  {
    StagesGoOnward(limit, actions, k, id);
  }
}
