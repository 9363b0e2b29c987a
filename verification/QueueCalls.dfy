/**
 What a thread is told, against what it asked for: the results of push and take are tied to the calls
 and to the very arguments that they were made with.
 */
module QueueCalls {
  import opened Bytes
  import opened QueueMachine
  import opened QueueInvariant
  import opened QueueTheorems
  import opened QueueProgress

  datatype Called = AskedPush(e: Elem) | AskedTake

  /** A call that a thread makes while no other call of its own is under way; an element has the size
      that the queue was set up with. */
  predicate Accepted(s: State, a: Action) {
    match a
    case CallPush(t, e) => At(s, t) == Idle && |e| == s.q.elementSize
    case CallTake(t) => At(s, t) == Idle
    case Resume(_, _) => false
  }

  function Asked(a: Action): Called {
    if a.CallPush? then AskedPush(a.e) else AskedTake
  }

  /** The calls that one thread has made over a run, in order. */
  function Calls(s: State, actions: seq<Action>, t: Tid): seq<Called>
    decreases |actions|
  {
    if actions == [] then []
    else
      var before, a := actions[..|actions| - 1], actions[|actions| - 1];
      Calls(s, before, t) + (if a.tid == t && Accepted(Run(s, before), a) then [Asked(a)] else [])
  }

  /** A result that fits a call: the outcome of a push of that element, or of a take. */
  predicate Answers(r: Ret, c: Called) {
    match c
    case AskedPush(e) => r.PushRet? && r.e == e
    case AskedTake => r.TakeRet?
  }

  /** The call that a busy thread works on. */
  function Current(pc: Pc): Called {
    if IsTaker(pc) || pc == Idle then AskedTake else AskedPush(pc.e)
  }

  /** Every result answers its call, and a thread is busy with its last call until that returns. */
  predicate Matched(calls: seq<Called>, results: seq<Ret>, pc: Pc) {
    && |calls| == |results| + (if pc == Idle then 0 else 1)
    && (forall i :: 0 <= i < |results| ==> Answers(results[i], calls[i]))
    && (pc != Idle ==> calls[|results|] == Current(pc))
  }

  // ----- one step -----

  /** A step of a busy thread goes on with the same call, or returns a result that answers it. */
  ghost predicate GoesOn(s: State, s': State, t: Tid) {
    if At(s', t) == Idle then
      exists ret :: s'.responses == s.responses + [Response(t, ret)] && Answers(ret, Current(At(s, t)))
    else
      s'.responses == s.responses && Current(At(s', t)) == Current(At(s, t))
  }

  lemma TakerGoesOn(s: State, t: Tid, c: Choice)
    requires InBounds(s, t) && IsTaker(At(s, t))
    ensures GoesOn(s, Advance(s, t, c), t)
  {
    if At(s, t).TakeReturn? {
      var ret := TakeRet(At(s, t).got);
      assert Advance(s, t, c).responses == s.responses + [Response(t, ret)];
    }
  }

  lemma PusherGoesOn(s: State, t: Tid, c: Choice)
    requires InBounds(s, t) && At(s, t) != Idle && !IsTaker(At(s, t))
    ensures GoesOn(s, Advance(s, t, c), t)
  {
    if At(s, t).PushUnlock? {
      var ret := PushRet(At(s, t).e, At(s, t).ok);
      assert Advance(s, t, c).responses == s.responses + [Response(t, ret)];
    }
  }

  lemma OneMoreResult(before: seq<Response>, after: seq<Response>, u: Tid, ret: Ret, t: Tid)
    requires after == before + [Response(u, ret)]
    ensures Returned(after, t) == Returned(before, t) + (if u == t then [ret] else [])
  {
    assert after[..|after| - 1] == before;
  }

  /** The steps of other threads tell this one nothing. */
  lemma OthersTellNothing(s: State, a: Action, t: Tid)
    requires a.tid != t
    ensures At(Step(s, a), t) == At(s, t) && Returned(Step(s, a).responses, t) == Returned(s.responses, t)
  {
    OthersLeaveRank(s, a, t);
    StepRecorded(s, a);
    var s' := Step(s, a);
    if |s'.responses| > |s.responses| {
      var r := s'.responses[|s.responses|];
      assert s'.responses == s.responses + [Response(r.tid, r.ret)];
      OneMoreResult(s.responses, s'.responses, r.tid, r.ret, t);
    } else {
      assert s'.responses == s.responses;
    }
  }

  lemma ResumeMatches(s: State, t: Tid, c: Choice, calls: seq<Called>)
    requires InBounds(s, t) && At(s, t) != Idle && Matched(calls, Returned(s.responses, t), At(s, t))
    ensures Matched(calls, Returned(Advance(s, t, c).responses, t), At(Advance(s, t, c), t))
  {
    var s' := Advance(s, t, c);
    if IsTaker(At(s, t)) {
      TakerGoesOn(s, t, c);
    } else {
      PusherGoesOn(s, t, c);
    }
    if At(s', t) == Idle {
      var ret :| s'.responses == s.responses + [Response(t, ret)] && Answers(ret, Current(At(s, t)));
      OneMoreResult(s.responses, s'.responses, t, ret, t);
    }
  }

  /** An idle thread's call is accepted, and from then on the thread is busy with just that call. */
  lemma AcceptedStarts(s: State, a: Action)
    requires At(s, a.tid) == Idle && !a.Resume? && (a.CallPush? ==> |a.e| == s.q.elementSize)
    ensures Accepted(s, a)
    ensures
      var s' := Step(s, a);
      && At(s', a.tid) != Idle && s'.responses == s.responses
      && Current(At(s', a.tid)) == if a.CallPush? then AskedPush(a.e) else AskedTake
  {
  }

  lemma StepMatches(s: State, a: Action, t: Tid, calls: seq<Called>)
    requires Inv(s) && Matched(calls, Returned(s.responses, t), At(s, t))
    ensures
      var calls' := calls + (if a.tid == t && Accepted(s, a) then [Asked(a)] else []);
      Matched(calls', Returned(Step(s, a).responses, t), At(Step(s, a), t))
  {
    if a.tid != t {
      OthersTellNothing(s, a, t);
    } else if Accepted(s, a) {
      AcceptedStarts(s, a);
    } else if a.Resume? && At(s, t) != Idle {
      AccessesInBounds(s, t);
      ResumeMatches(s, t, a.choice, calls);
    }
  }

  lemma {:induction false} RunMatches(s: State, actions: seq<Action>, t: Tid)
    requires Inv(s) && At(s, t) == Idle && s.responses == []
    ensures Matched(Calls(s, actions, t), Returned(Run(s, actions).responses, t), At(Run(s, actions), t))
    decreases |actions|
  {
    if actions != [] {
      var n := |actions| - 1;
      RunMatches(s, actions[..n], t);
      RunKeeps(s, actions[..n]);
      StepMatches(Run(s, actions[..n]), actions[n], t, Calls(s, actions[..n], t));
    }
  }

  // ----- every run -----

  /** In every run, each thread's results and events answer its calls one by one and in order, with the
      arguments of those calls; only the last call may be open, and it is exactly when the thread is
      busy. */
  lemma CallsAnswered(elementSize: nat, maxCapacity: nat, data: seq<Elem>, actions: seq<Action>, t: Tid)
    requires IsConfig(elementSize, |data|, maxCapacity, data)
    ensures
      var init := Init(elementSize, maxCapacity, data);
      var s, calls := Run(init, actions), Calls(init, actions, t);
      var decided, returned := Decided(s.events, t), Returned(s.responses, t);
      && returned <= decided && |returned| <= |calls| <= |returned| + 1
      && (|calls| == |returned| <==> At(s, t) == Idle)
      && |decided| <= |calls|
      && (forall i :: 0 <= i < |decided| ==> Answers(decided[i], calls[i]))
  {
    var init := Init(elementSize, maxCapacity, data);
    InitHolds(elementSize, maxCapacity, data);
    RunMatches(init, actions, t);
    Linearizable(elementSize, maxCapacity, data, actions, t);
    Combined(Calls(init, actions, t), Returned(Run(init, actions).responses, t), At(Run(init, actions), t));
  }

  lemma Combined(calls: seq<Called>, returned: seq<Ret>, pc: Pc)
    requires Matched(calls, returned, pc)
    ensures
      var decided := returned + Pending(pc);
      && |decided| <= |calls| <= |returned| + 1
      && (|calls| == |returned| <==> pc == Idle)
      && (forall i :: 0 <= i < |decided| ==> Answers(decided[i], calls[i]))
  {
    PendingAnswers(pc);
  }

  lemma PendingAnswers(pc: Pc)
    ensures pc == Idle ==> Pending(pc) == []
    ensures |Pending(pc)| <= 1 && (Pending(pc) != [] ==> Answers(Pending(pc)[0], Current(pc)))
  {
  }

  /** A take that is called while nothing is in the queue fails at once: its next two own steps return,
      whoever holds the locks, and it touches neither of them. */
  lemma EmptyTakeNeverWaits(s: State, t: Tid, c: Choice, c': Choice)
    requires Inv(s) && At(s, t) == Idle && s.contents == []
    ensures
      var s' := Step(Step(Step(s, CallTake(t)), Resume(t, c)), Resume(t, c'));
      && At(s', t) == Idle && s'.responses == s.responses + [Response(t, TakeRet(None))]
      && s'.q == s.q && s'.pushOwner == s.pushOwner && s'.takeOwner == s.takeOwner
  {
  }
}
