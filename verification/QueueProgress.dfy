/** The queue machine never deadlocks: ranking functions over the places of push and take. */
module QueueProgress {
  import opened Bytes
  import opened QueueMachine
  import opened QueueInvariant
  import opened QueueTheorems

  /** Places of an operation from which it never again waits for a lock. */
  predicate Committed(pc: Pc) {
    HoldsTake(pc) || pc.PushCopy? || pc.PushAdd? || pc.PushUnlockTake? || pc.PushUnlock? || pc.TakeReturn?
  }

  predicate IsTaker(pc: Pc) {
    pc.TakeLoadSize? || pc.TakeLoad? || pc.TakeCas? || pc.TakeCheck? || pc.TakeCopy? || pc.TakeSub?
    || pc.TakeUnlock? || pc.TakeReturn?
  }

  /** At most this many own steps remain for a committed thread. */
  function Rank(q: Shared, pc: Pc): nat {
    match pc
    case PushUnlock(_, _, _) => 1
    case PushUnlockTake(_, _, _, _) => 2
    case PushAdd(_, _, _) => 3
    case PushCopy(e, _, _, done) => 4 + (if done < |e| then |e| - done else 0)
    case GrowMove(e, _, _, _, done) => 5 + |e| + (if done < q.maxCapacity then q.maxCapacity - done else 0)
    case GrowAlloc(e, _, _) => 6 + |e| + q.maxCapacity
    case GrowCheck(e, _, _) => 7 + |e| + q.maxCapacity
    case TakeReturn(_) => 1
    case TakeUnlock(_, _) => 2
    case TakeSub(_, _) => 3
    case TakeCopy(_, buf) => 4 + (if |buf| < q.elementSize then q.elementSize - |buf| else 0)
    case TakeCheck(_) => 5 + q.elementSize
    case _ => 0
  }

  /** At most this many own steps remain for a thread when the locks it still needs stay free.
      A compare-and-swap on an outdated index costs one extra round. */
  function SoloRank(q: Shared, pc: Pc): nat {
    var longest := q.elementSize + q.maxCapacity;
    match pc
    case GrowCas(_, _, seen) => longest + (if seen == q.takeIdx then 8 else 10)
    case GrowLoad(_, _) => longest + 9
    case PushCheck(_, _) => longest + 11
    case PushCas(_, seen) => longest + (if seen == q.pushIdx then 12 else 14)
    case PushLoad(_) => longest + 13
    case TakeCas(seen) => q.elementSize + (if seen == q.takeIdx then 6 else 8)
    case TakeLoad => q.elementSize + 7
    case TakeLoadSize => q.elementSize + 9
    case _ => Rank(q, pc)
  }

  lemma CommittedPush(s: State, t: Tid, c: Choice)
    requires InBounds(s, t) && Committed(At(s, t)) && !IsTaker(At(s, t))
    requires PcOk(s.q, s.contents, At(s, t)) && ShapeOk(s.q) && |s.contents| <= s.q.maxCapacity
    requires At(s, t).GrowCheck? ==> At(s, t).t != UINT32_MAX
    ensures
      var s' := Advance(s, t, c);
      && (At(s', t) == Idle || Committed(At(s', t)))
      && Rank(s'.q, At(s', t)) < Rank(s.q, At(s, t))
  {
  }

  lemma CommittedTake(s: State, t: Tid, c: Choice)
    requires InBounds(s, t) && Committed(At(s, t)) && IsTaker(At(s, t))
    ensures
      var s' := Advance(s, t, c);
      && (At(s', t) == Idle || Committed(At(s', t)))
      && Rank(s'.q, At(s', t)) < Rank(s.q, At(s, t))
  {
  }

  /** A committed thread comes nearer to its return with every own step, whatever the environment
      decides. */
  lemma CommittedStep(s: State, t: Tid, c: Choice)
    requires Inv(s) && Committed(At(s, t))
    ensures
      var s' := Step(s, Resume(t, c));
      && (At(s', t) == Idle || Committed(At(s', t)))
      && Rank(s'.q, At(s', t)) < Rank(s.q, At(s, t))
  {
    AccessesInBounds(s, t);
    assert PcOk(s.q, s.contents, At(s, t));
    if IsTaker(At(s, t)) {
      CommittedTake(s, t, c);
    } else {
      SentinelNeverCollides(s, t);
      assert HoldsTake(At(s, t)) ==> s.takeOwner == Some(t);
      CommittedPush(s, t, c);
    }
  }

  /** The steps of other threads neither help nor hinder a committed thread. */
  lemma OthersLeaveRank(s: State, a: Action, t: Tid)
    requires a.tid != t
    ensures At(Step(s, a), t) == At(s, t)
    ensures Rank(Step(s, a).q, At(s, t)) == Rank(s.q, At(s, t))
  {
    StepRecorded(s, a);
  }

  /** How many of the actions are steps of one thread. */
  function OwnSteps(actions: seq<Action>, t: Tid): nat
    decreases |actions|
  {
    if actions == [] then 0
    else
      var last := actions[|actions| - 1];
      OwnSteps(actions[..|actions| - 1], t) + (if last.Resume? && last.tid == t then 1 else 0)
  }

  /** A committed thread after k own steps. */
  ghost predicate Progressed(s: State, s': State, t: Tid, k: nat) {
    Committed(At(s', t)) && Rank(s'.q, At(s', t)) + k <= Rank(s.q, At(s, t))
  }

  lemma ProgressedStep(s: State, mid: State, a: Action, t: Tid, k: nat)
    requires Inv(mid) && Progressed(s, mid, t, k)
    ensures
      var own := a.Resume? && a.tid == t;
      (own && At(Step(mid, a), t) == Idle) || Progressed(s, Step(mid, a), t, if own then k + 1 else k)
  {
    if a.tid != t {
      OthersLeaveRank(mid, a, t);
    } else if a.Resume? {
      CommittedStep(mid, t, a.choice);
    }
  }

  lemma LastStep(s: State, actions: seq<Action>, n: nat)
    requires |actions| == n + 1
    ensures Run(s, actions) == Step(Run(s, actions[..n]), actions[n])
  {
  }

  lemma LastOwn(actions: seq<Action>, n: nat, t: Tid)
    requires |actions| == n + 1
    ensures OwnSteps(actions, t)
         == OwnSteps(actions[..n], t) + (if actions[n].Resume? && actions[n].tid == t then 1 else 0)
  {
  }

  lemma CountdownStep(s: State, actions: seq<Action>, n: nat, t: Tid)
    requires |actions| == n + 1 && Inv(Run(s, actions[..n]))
    requires Progressed(s, Run(s, actions[..n]), t, OwnSteps(actions[..n], t))
    ensures At(Run(s, actions), t) == Idle || Progressed(s, Run(s, actions), t, OwnSteps(actions, t))
  {
    ProgressedStep(s, Run(s, actions[..n]), actions[n], t, OwnSteps(actions[..n], t));
    LastStep(s, actions, n);
    LastOwn(actions, n, t);
  }

  /** In any interleaving, a committed thread has returned by the time it has been given as many
      steps as its rank says: it returned after some prefix of the actions, or its rank has gone down
      by one per step. */
  lemma {:induction false} CommittedCountdown(s: State, actions: seq<Action>, t: Tid) returns (i: nat)
    requires Inv(s) && Committed(At(s, t))
    ensures i <= |actions|
    ensures At(Run(s, actions[..i]), t) == Idle || Progressed(s, Run(s, actions), t, OwnSteps(actions, t))
    decreases |actions|
  {
    if actions == [] {
      return 0;
    }
    var n := |actions| - 1;
    i := CommittedCountdown(s, actions[..n], t);
    if At(Run(s, actions[..n][..i]), t) == Idle {
      assert actions[..n][..i] == actions[..i];
    } else {
      RunKeeps(s, actions[..n]);
      CountdownStep(s, actions, n, t);
      i := n + 1;
      assert actions[..i] == actions;
    }
  }

  /** Once a thread holds the locks it needs, it returns within a bounded number of its own steps,
      whatever the other threads do in between. */
  lemma HolderReturns(s: State, actions: seq<Action>, t: Tid) returns (i: nat)
    requires Inv(s) && Committed(At(s, t))
    requires OwnSteps(actions, t) >= s.q.elementSize + s.q.maxCapacity + 7
    ensures i <= |actions| && At(Run(s, actions[..i]), t) == Idle
  {
    assert PcOk(s.q, s.contents, At(s, t));
    i := CommittedCountdown(s, actions, t);
  }

  // ----- a thread that is alone with its locks -----

  /** No other thread holds a lock that the operation of this thread may still have to take. */
  predicate Alone(s: State, t: Tid) {
    && (s.takeOwner == None || s.takeOwner == Some(t))
    && (IsTaker(At(s, t)) || s.pushOwner == None || s.pushOwner == Some(t))
  }

  lemma WaitingPush(s: State, t: Tid, c: Choice)
    requires Inv(s) && Alone(s, t) && InBounds(s, t) && !c.spurious
    requires !Committed(At(s, t)) && !IsTaker(At(s, t)) && At(s, t) != Idle
    requires |At(s, t).e| == s.q.elementSize
    ensures
      var s' := Advance(s, t, c);
      && Alone(s', t) && At(s', t) != Idle
      && SoloRank(s'.q, At(s', t)) < SoloRank(s.q, At(s, t))
  {
  }

  lemma WaitingTake(s: State, t: Tid, c: Choice)
    requires Inv(s) && Alone(s, t) && InBounds(s, t) && !c.spurious
    requires !Committed(At(s, t)) && IsTaker(At(s, t))
    ensures
      var s' := Advance(s, t, c);
      && Alone(s', t) && At(s', t) != Idle
      && SoloRank(s'.q, At(s', t)) < SoloRank(s.q, At(s, t))
  {
  }

  lemma CommittedRank(q: Shared, pc: Pc)
    requires Committed(pc) || pc == Idle
    ensures SoloRank(q, pc) == Rank(q, pc)
  {
  }

  /** A committed thread keeps its locks or gives them up. */
  lemma CommittedAlone(s: State, t: Tid, c: Choice)
    requires InBounds(s, t) && Committed(At(s, t)) && Alone(s, t)
    ensures Alone(Advance(s, t, c), t) || At(Advance(s, t, c), t) == Idle
  {
  }

  /** A thread that is alone comes nearer to its return with every own step, and stays alone. */
  lemma AloneStep(s: State, t: Tid, c: Choice)
    requires Inv(s) && Alone(s, t) && At(s, t) != Idle && !c.spurious
    ensures
      var s' := Step(s, Resume(t, c));
      && SoloRank(s'.q, At(s', t)) < SoloRank(s.q, At(s, t))
      && (At(s', t) == Idle || Alone(s', t))
  {
    AccessesInBounds(s, t);
    assert PcOk(s.q, s.contents, At(s, t));
    if Committed(At(s, t)) {
      CommittedAlone(s, t, c);
      CommittedStep(s, t, c);
      CommittedRank(s.q, At(s, t));
      CommittedRank(Step(s, Resume(t, c)).q, At(Step(s, Resume(t, c)), t));
    } else if IsTaker(At(s, t)) {
      WaitingTake(s, t, c);
    } else {
      WaitingPush(s, t, c);
    }
  }

  /** All the actions are steps of one thread, without spurious failures. */
  predicate AllBy(actions: seq<Action>, t: Tid) {
    forall i :: 0 <= i < |actions| ==> actions[i].Resume? && actions[i].tid == t && !actions[i].choice.spurious
  }

  /** A thread that is alone after k own steps is k steps nearer to its return. */
  ghost predicate Nearer(s: State, s': State, t: Tid, k: nat) {
    At(s', t) != Idle && Alone(s', t) && SoloRank(s'.q, At(s', t)) + k <= SoloRank(s.q, At(s, t))
  }

  lemma NearerStep(s: State, mid: State, a: Action, t: Tid, k: nat)
    requires Inv(mid) && Nearer(s, mid, t, k) && a.Resume? && a.tid == t && !a.choice.spurious
    ensures At(Step(mid, a), t) == Idle || Nearer(s, Step(mid, a), t, k + 1)
  {
    AloneStep(mid, t, a.choice);
  }

  lemma {:induction false} AloneCountdown(s: State, actions: seq<Action>, t: Tid) returns (i: nat)
    requires Inv(s) && Alone(s, t) && At(s, t) != Idle && AllBy(actions, t)
    ensures i <= |actions|
    ensures At(Run(s, actions[..i]), t) == Idle || Nearer(s, Run(s, actions), t, |actions|)
    decreases |actions|
  {
    if actions == [] {
      return 0;
    }
    var n := |actions| - 1;
    i := AloneCountdown(s, actions[..n], t);
    if At(Run(s, actions[..n][..i]), t) == Idle {
      assert actions[..n][..i] == actions[..i];
    } else {
      RunKeeps(s, actions[..n]);
      NearerStep(s, Run(s, actions[..n]), actions[n], t, n);
      LastStep(s, actions, n);
      i := n + 1;
      assert actions[..i] == actions;
    }
  }

  /** Takers never wait while they hold a lock, and a pusher takes the push lock first: so the holder
      of the take lock, or else the holder of the push lock, or else any busy thread, is alone. */
  lemma SomeThreadIsAlone(s: State, busy: Tid) returns (t: Tid)
    requires Inv(s) && At(s, busy) != Idle
    ensures At(s, t) != Idle && Alone(s, t)
  {
    if s.takeOwner.Some? {
      t := s.takeOwner.value;
      assert HoldsTake(At(s, t));
      assert HoldsPush(At(s, t)) <==> s.pushOwner == Some(t);
    } else if s.pushOwner.Some? {
      t := s.pushOwner.value;
      assert HoldsPush(At(s, t));
    } else {
      t := busy;
    }
  }

  ghost predicate Returns(s: State, actions: seq<Action>, t: Tid) {
    exists i: nat :: i <= |actions| && At(Run(s, actions[..i]), t) == Idle
  }

  lemma SoloBound(s: State, t: Tid)
    requires PcOk(s.q, s.contents, At(s, t))
    ensures SoloRank(s.q, At(s, t)) <= s.q.elementSize + s.q.maxCapacity + 14
  {
  }

  lemma AloneReturns(s: State, actions: seq<Action>, t: Tid)
    requires Inv(s) && Alone(s, t) && At(s, t) != Idle && AllBy(actions, t)
    requires |actions| >= s.q.elementSize + s.q.maxCapacity + 14
    ensures Returns(s, actions, t)
  {
    assert PcOk(s.q, s.contents, At(s, t));
    SoloBound(s, t);
    var i := AloneCountdown(s, actions, t);
    if At(Run(s, actions[..i]), t) != Idle {
      PositiveRank(Run(s, actions).q, At(Run(s, actions), t));
    }
  }

  lemma PositiveRank(q: Shared, pc: Pc)
    requires pc != Idle
    ensures SoloRank(q, pc) > 0
  {
  }

  /** Deadlock freedom: whenever some operation is unfinished, some thread returns within a bounded
      number of its own steps if it is scheduled, whatever the allocator answers meanwhile. */
  lemma DeadlockFree(s: State, busy: Tid) returns (t: Tid)
    requires Inv(s) && At(s, busy) != Idle
    ensures At(s, t) != Idle
    ensures forall actions: seq<Action> | AllBy(actions, t) && |actions| >= s.q.elementSize + s.q.maxCapacity + 14 ::
      Returns(s, actions, t)
  {
    t := SomeThreadIsAlone(s, busy);
    forall actions: seq<Action> | AllBy(actions, t) && |actions| >= s.q.elementSize + s.q.maxCapacity + 14
      ensures Returns(s, actions, t)
    {
      AloneReturns(s, actions, t);
    }
  }
}
