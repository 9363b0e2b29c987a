/** The inductive invariant of the queue machine, one lemma per kind of step. */
module QueueInvariant {
  import opened Bytes
  import opened Ring
  import opened QueueMachine

  // ----- who holds which lock, and which index a holder keeps in its locals -----

  predicate HoldsPush(pc: Pc) {
    || pc.PushCheck? || pc.GrowLoad? || pc.GrowCas? || pc.GrowCheck? || pc.GrowAlloc? || pc.GrowMove?
    || pc.PushCopy? || pc.PushAdd? || pc.PushUnlockTake? || pc.PushUnlock?
  }

  predicate HoldsTake(pc: Pc) {
    match pc
    case GrowCheck(_, _, _) => true
    case GrowAlloc(_, _, _) => true
    case GrowMove(_, _, _, _, _) => true
    case PushCopy(_, _, t, _) => t != UINT32_MAX
    case PushAdd(_, _, t) => t != UINT32_MAX
    case PushUnlockTake(_, _, t, _) => t != UINT32_MAX
    case TakeCheck(_) => true
    case TakeCopy(_, _) => true
    case TakeSub(_, _) => true
    case TakeUnlock(_, _) => true
    case _ => false
  }

  function PushPos(pc: Pc): nat
    requires HoldsPush(pc)
  {
    pc.p
  }

  function TakePos(pc: Pc): nat
    requires HoldsTake(pc)
  {
    pc.t
  }

  /** The slot of the oldest element: the shared index, or its copy in the lock holder. */
  function Head(s: State): nat {
    match s.takeOwner
    case None => s.q.takeIdx
    case Some(t) => if HoldsTake(At(s, t)) then TakePos(At(s, t)) else 0
  }

  /** The slot after the newest element. */
  function Tail(s: State): nat {
    match s.pushOwner
    case None => s.q.pushIdx
    case Some(t) => if HoldsPush(At(s, t)) then PushPos(At(s, t)) else 0
  }

  // ----- the invariant -----

  predicate ShapeOk(q: Shared) {
    && q.elementSize <= MAX_ELEMENT_SIZE
    && MIN_CAPACITY <= q.capacity <= q.maxCapacity <= MAX_CAPACITY
    && IsSlots(q.data, q.capacity, q.elementSize)
  }

  /** The ring from head to tail holds the abstract contents, oldest first. */
  predicate RingOk(q: Shared, contents: seq<Elem>, head: nat, tail: nat) {
    && |q.data| == q.capacity
    && head < q.capacity
    && tail < q.capacity
    && q.size == |contents| <= q.capacity
    && tail == Wrap(head + |contents|, q.capacity)
    && (forall k :: 0 <= k < |contents| ==> q.data[Wrap(head + k, q.capacity)] == contents[k])
  }

  ghost predicate OwnersOk(s: State) {
    && (forall t: Tid :: HoldsPush(At(s, t)) <==> s.pushOwner == Some(t))
    && (forall t: Tid :: HoldsTake(At(s, t)) <==> s.takeOwner == Some(t))
    && (s.q.pushIdx == UINT32_MAX <==> s.pushOwner.Some?)
    && (s.q.takeIdx == UINT32_MAX <==> s.takeOwner.Some?)
  }

  /** What holds of the shared fields when a thread is at a given place. */
  predicate PcOk(q: Shared, contents: seq<Elem>, pc: Pc) {
    match pc
    case PushLoad(e) => |e| == q.elementSize
    case PushCas(e, seen) => |e| == q.elementSize && seen != UINT32_MAX
    case PushCheck(e, _) => |e| == q.elementSize
    case GrowLoad(e, _) => |e| == q.elementSize
    case GrowCas(e, _, seen) => |e| == q.elementSize && seen != UINT32_MAX
    case GrowCheck(e, _, _) => |e| == q.elementSize
    case GrowAlloc(e, _, _) => |e| == q.elementSize && q.size == q.capacity < NewCapacity(q)
    case GrowMove(e, _, _, region, done) =>
      && |e| == q.elementSize
      && q.size == q.capacity < NewCapacity(q)
      && IsSlots(region, NewCapacity(q), q.elementSize)
      && done <= |contents| == q.size
      && region[..done] == contents[..done]
    case PushCopy(e, p, _, done) =>
      && |e| == q.elementSize
      && q.size < q.capacity
      && done <= |e|
      && p < |q.data| && |q.data[p]| == |e|
      && q.data[p][..done] == e[..done]
    case PushAdd(e, p, _) =>
      && |e| == q.elementSize
      && q.size < q.capacity
      && p < |q.data| && q.data[p] == e
    case TakeCas(seen) => seen != UINT32_MAX
    case TakeCopy(_, buf) => 0 < |contents| == q.size && buf <= contents[0]
    case TakeSub(_, buf) => 0 < |contents| == q.size && buf == contents[0]
    case _ => true
  }

  ghost predicate PcsOk(s: State) {
    forall t: Tid :: PcOk(s.q, s.contents, At(s, t))
  }

  /** The events so far are a legal history of the abstract queue that leads to its contents, and
      every thread has been given, in order, the results of its events, bar the one that its
      unfinished operation is about to return. */
  ghost predicate HistoryOk(s: State) {
    && Replay(s.events, s.q.maxCapacity) == Some(s.contents)
    && (forall t: Tid :: Decided(s.events, t) == Returned(s.responses, t) + Pending(At(s, t)))
  }

  ghost predicate Inv(s: State) {
    && ShapeOk(s.q)
    && RingOk(s.q, s.contents, Head(s), Tail(s))
    && OwnersOk(s)
    && PcsOk(s)
    && HistoryOk(s)
  }

  // ----- what a step has to show, part by part -----

  /** A step of thread t changes the owner of a lock only by taking it for t or giving up t's own. */
  predicate OwnerMove(before: Option<Tid>, after: Option<Tid>, t: Tid) {
    after == before || (before == None && after == Some(t)) || (before == Some(t) && after == None)
  }

  predicate IsStepOf(s: State, s': State, t: Tid, pc: Pc) {
    s'.threads == s.threads[t := pc]
  }

  lemma AtAfter(s: State, s': State, t: Tid, pc: Pc, u: Tid)
    requires IsStepOf(s, s', t, pc)
    ensures At(s', u) == if u == t then pc else At(s, u)
  {
  }

  lemma OwnersKept(s: State, s': State, t: Tid, pc: Pc)
    requires OwnersOk(s) && IsStepOf(s, s', t, pc)
    requires OwnerMove(s.pushOwner, s'.pushOwner, t) && OwnerMove(s.takeOwner, s'.takeOwner, t)
    requires HoldsPush(pc) <==> s'.pushOwner == Some(t)
    requires HoldsTake(pc) <==> s'.takeOwner == Some(t)
    requires s'.q.pushIdx == UINT32_MAX <==> s'.pushOwner.Some?
    requires s'.q.takeIdx == UINT32_MAX <==> s'.takeOwner.Some?
    ensures OwnersOk(s')
  {
    forall u: Tid
      ensures HoldsPush(At(s', u)) <==> s'.pushOwner == Some(u)
      ensures HoldsTake(At(s', u)) <==> s'.takeOwner == Some(u)
    {
      AtAfter(s, s', t, pc, u);
    }
  }

  /** The steps that leave slots, size and contents alone leave every other thread's facts alone. */
  lemma PcsKept(s: State, s': State, t: Tid, pc: Pc)
    requires PcsOk(s) && IsStepOf(s, s', t, pc)
    requires s'.q == s.q.(takeIdx := s'.q.takeIdx, pushIdx := s'.q.pushIdx)
    requires s'.contents == s.contents
    requires PcOk(s.q, s.contents, pc)
    ensures PcsOk(s')
  {
    forall u: Tid
      ensures PcOk(s'.q, s'.contents, At(s', u))
    {
      AtAfter(s, s', t, pc, u);
      assert PcOk(s.q, s.contents, At(s', u));
    }
  }

  lemma HistoryQuiet(s: State, s': State, t: Tid, pc: Pc)
    requires HistoryOk(s) && IsStepOf(s, s', t, pc)
    requires s'.q.maxCapacity == s.q.maxCapacity && s'.contents == s.contents
    requires s'.events == s.events && s'.responses == s.responses
    requires Pending(pc) == Pending(At(s, t))
    ensures HistoryOk(s')
  {
    forall u: Tid
      ensures Decided(s'.events, u) == Returned(s'.responses, u) + Pending(At(s', u))
    {
      AtAfter(s, s', t, pc, u);
    }
  }

  lemma HistoryEvent(s: State, s': State, t: Tid, pc: Pc, op: Op)
    requires HistoryOk(s) && IsStepOf(s, s', t, pc)
    requires s'.q.maxCapacity == s.q.maxCapacity
    requires Apply(s.contents, op, s.q.maxCapacity) == Some(s'.contents)
    requires s'.events == s.events + [Event(t, op)] && s'.responses == s.responses
    requires Pending(At(s, t)) == [] && Pending(pc) == [RetOf(op)]
    ensures HistoryOk(s')
  {
    assert s'.events[..|s'.events| - 1] == s.events;
    forall u: Tid
      ensures Decided(s'.events, u) == Returned(s'.responses, u) + Pending(At(s', u))
    {
      AtAfter(s, s', t, pc, u);
    }
  }

  lemma HistoryReturn(s: State, s': State, t: Tid, pc: Pc, ret: Ret)
    requires HistoryOk(s) && IsStepOf(s, s', t, pc)
    requires s'.q.maxCapacity == s.q.maxCapacity && s'.contents == s.contents
    requires s'.events == s.events && s'.responses == s.responses + [Response(t, ret)]
    requires Pending(At(s, t)) == [ret] && Pending(pc) == []
    ensures HistoryOk(s')
  {
    assert s'.responses[..|s'.responses| - 1] == s.responses;
    forall u: Tid
      ensures Decided(s'.events, u) == Returned(s'.responses, u) + Pending(At(s', u))
    {
      AtAfter(s, s', t, pc, u);
    }
  }

  /** All of the invariant but the history, for the steps that leave slots and contents alone. */
  lemma ControlKept(s: State, s': State, t: Tid, pc: Pc)
    requires Inv(s) && IsStepOf(s, s', t, pc)
    requires s'.q == s.q.(takeIdx := s'.q.takeIdx, pushIdx := s'.q.pushIdx)
    requires s'.contents == s.contents
    requires PcOk(s.q, s.contents, pc)
    requires OwnerMove(s.pushOwner, s'.pushOwner, t) && OwnerMove(s.takeOwner, s'.takeOwner, t)
    requires HoldsPush(pc) <==> s'.pushOwner == Some(t)
    requires HoldsTake(pc) <==> s'.takeOwner == Some(t)
    requires s'.q.pushIdx == UINT32_MAX <==> s'.pushOwner.Some?
    requires s'.q.takeIdx == UINT32_MAX <==> s'.takeOwner.Some?
    requires Head(s') == Head(s) && Tail(s') == Tail(s)
    ensures ShapeOk(s'.q) && RingOk(s'.q, s'.contents, Head(s'), Tail(s')) && OwnersOk(s') && PcsOk(s')
  {
    OwnersKept(s, s', t, pc);
    PcsKept(s, s', t, pc);
  }

  // ----- locking, checking, unlocking -----

  lemma PushLoadKeeps(s: State, t: Tid, e: Elem)
    requires Inv(s) && At(s, t) == PushLoad(e)
    ensures Inv(StepPushLoad(s, t, e))
  {
    if s.q.pushIdx != UINT32_MAX {
      var pc := PushCas(e, s.q.pushIdx);
      ControlKept(s, StepPushLoad(s, t, e), t, pc);
      HistoryQuiet(s, StepPushLoad(s, t, e), t, pc);
    }
  }

  lemma PushCasKeeps(s: State, t: Tid, e: Elem, seen: nat, c: Choice)
    requires Inv(s) && At(s, t) == PushCas(e, seen)
    ensures Inv(StepPushCas(s, t, e, seen, c))
  {
    var s' := StepPushCas(s, t, e, seen, c);
    var pc := if s.q.pushIdx == seen && !c.spurious then PushCheck(e, seen) else PushLoad(e);
    ControlKept(s, s', t, pc);
    HistoryQuiet(s, s', t, pc);
  }

  lemma PushCheckKeeps(s: State, t: Tid, e: Elem, p: nat)
    requires Inv(s) && At(s, t) == PushCheck(e, p)
    ensures Inv(StepPushCheck(s, t, e, p))
  {
    var s' := StepPushCheck(s, t, e, p);
    var pc := if s.q.size == s.q.capacity then GrowLoad(e, p) else PushCopy(e, p, UINT32_MAX, 0);
    ControlKept(s, s', t, pc);
    HistoryQuiet(s, s', t, pc);
  }

  lemma GrowLoadKeeps(s: State, t: Tid, e: Elem, p: nat)
    requires Inv(s) && At(s, t) == GrowLoad(e, p)
    ensures Inv(StepGrowLoad(s, t, e, p))
  {
    if s.q.takeIdx != UINT32_MAX {
      var pc := GrowCas(e, p, s.q.takeIdx);
      ControlKept(s, StepGrowLoad(s, t, e, p), t, pc);
      HistoryQuiet(s, StepGrowLoad(s, t, e, p), t, pc);
    }
  }

  lemma GrowCasKeeps(s: State, t: Tid, e: Elem, p: nat, seen: nat, c: Choice)
    requires Inv(s) && At(s, t) == GrowCas(e, p, seen)
    ensures Inv(StepGrowCas(s, t, e, p, seen, c))
  {
    var s' := StepGrowCas(s, t, e, p, seen, c);
    var pc := if s.q.takeIdx == seen && !c.spurious then GrowCheck(e, p, seen) else GrowLoad(e, p);
    ControlKept(s, s', t, pc);
    HistoryQuiet(s, s', t, pc);
  }

  lemma GrowCheckKeeps(s: State, t: Tid, e: Elem, p: nat, tk: nat)
    requires Inv(s) && At(s, t) == GrowCheck(e, p, tk)
    ensures Inv(StepGrowCheck(s, t, e, p, tk))
  {
    var s' := StepGrowCheck(s, t, e, p, tk);
    if s.q.size == s.q.capacity == NewCapacity(s.q) {
      ControlKept(s, s', t, PushUnlockTake(e, p, tk, false));
      HistoryEvent(s, s', t, PushUnlockTake(e, p, tk, false), PushFull(e));
    } else {
      var pc := if s.q.size == s.q.capacity then GrowAlloc(e, p, tk) else PushCopy(e, p, tk, 0);
      ControlKept(s, s', t, pc);
      HistoryQuiet(s, s', t, pc);
    }
  }

  lemma GrowAllocKeeps(s: State, t: Tid, e: Elem, p: nat, tk: nat, c: Choice)
    requires Inv(s) && At(s, t) == GrowAlloc(e, p, tk)
    ensures Inv(StepGrowAlloc(s, t, e, p, tk, c))
  {
    assert PcOk(s.q, s.contents, At(s, t));
    var s' := StepGrowAlloc(s, t, e, p, tk, c);
    if c.malloc.Some? && IsSlots(c.malloc.value, NewCapacity(s.q), s.q.elementSize) {
      ControlKept(s, s', t, GrowMove(e, p, tk, c.malloc.value, 0));
      HistoryQuiet(s, s', t, GrowMove(e, p, tk, c.malloc.value, 0));
    } else {
      ControlKept(s, s', t, PushUnlockTake(e, p, tk, false));
      HistoryEvent(s, s', t, PushUnlockTake(e, p, tk, false), PushNoMemory(e));
    }
  }

  lemma PushUnlockTakeKeeps(s: State, t: Tid, e: Elem, p: nat, tk: nat, ok: bool)
    requires Inv(s) && At(s, t) == PushUnlockTake(e, p, tk, ok)
    ensures Inv(StepPushUnlockTake(s, t, e, p, tk, ok))
  {
    var s' := StepPushUnlockTake(s, t, e, p, tk, ok);
    var pc := PushUnlock(e, p, ok);
    ControlKept(s, s', t, pc);
    HistoryQuiet(s, s', t, pc);
  }

  lemma PushUnlockKeeps(s: State, t: Tid, e: Elem, p: nat, ok: bool)
    requires Inv(s) && At(s, t) == PushUnlock(e, p, ok)
    ensures Inv(StepPushUnlock(s, t, e, p, ok))
  {
    var s' := StepPushUnlock(s, t, e, p, ok);
    var pc := Idle;
    ControlKept(s, s', t, pc);
    HistoryReturn(s, s', t, pc, PushRet(e, ok));
  }

  lemma TakeLoadSizeKeeps(s: State, t: Tid)
    requires Inv(s) && At(s, t) == TakeLoadSize
    ensures Inv(StepTakeLoadSize(s, t))
  {
    var s' := StepTakeLoadSize(s, t);
    if s.q.size == 0 {
      ControlKept(s, s', t, TakeReturn(None));
      HistoryEvent(s, s', t, TakeReturn(None), TookNothing);
    } else {
      ControlKept(s, s', t, TakeLoad);
      HistoryQuiet(s, s', t, TakeLoad);
    }
  }

  lemma TakeLoadKeeps(s: State, t: Tid)
    requires Inv(s) && At(s, t) == TakeLoad
    ensures Inv(StepTakeLoad(s, t))
  {
    if s.q.takeIdx != UINT32_MAX {
      var pc := TakeCas(s.q.takeIdx);
      ControlKept(s, StepTakeLoad(s, t), t, pc);
      HistoryQuiet(s, StepTakeLoad(s, t), t, pc);
    }
  }

  lemma TakeCasKeeps(s: State, t: Tid, seen: nat, c: Choice)
    requires Inv(s) && At(s, t) == TakeCas(seen)
    ensures Inv(StepTakeCas(s, t, seen, c))
  {
    var s' := StepTakeCas(s, t, seen, c);
    var pc := if s.q.takeIdx == seen && !c.spurious then TakeCheck(seen) else TakeLoad;
    ControlKept(s, s', t, pc);
    HistoryQuiet(s, s', t, pc);
  }

  lemma TakeCheckKeeps(s: State, t: Tid, tk: nat)
    requires Inv(s) && At(s, t) == TakeCheck(tk)
    ensures Inv(StepTakeCheck(s, t, tk))
  {
    var s' := StepTakeCheck(s, t, tk);
    if s.q.size == 0 {
      ControlKept(s, s', t, TakeUnlock(tk, None));
      HistoryEvent(s, s', t, TakeUnlock(tk, None), TookNothing);
    } else {
      ControlKept(s, s', t, TakeCopy(tk, []));
      HistoryQuiet(s, s', t, TakeCopy(tk, []));
    }
  }

  lemma TakeUnlockKeeps(s: State, t: Tid, tk: nat, got: Option<Elem>)
    requires Inv(s) && At(s, t) == TakeUnlock(tk, got)
    ensures Inv(StepTakeUnlock(s, t, tk, got))
  {
    var s' := StepTakeUnlock(s, t, tk, got);
    var pc := TakeReturn(got);
    ControlKept(s, s', t, pc);
    HistoryQuiet(s, s', t, pc);
  }

  lemma TakeReturnKeeps(s: State, t: Tid, got: Option<Elem>)
    requires Inv(s) && At(s, t) == TakeReturn(got)
    ensures Inv(StepTakeReturn(s, t, got))
  {
    var s' := StepTakeReturn(s, t, got);
    var pc := Idle;
    ControlKept(s, s', t, pc);
    HistoryReturn(s, s', t, pc, TakeRet(got));
  }

  // ----- copying, publishing, removing, relocating -----

  /** The slot that the oldest element sits in, as the thread inside take sees it. */
  lemma OldestAtHead(s: State, t: Tid)
    requires Inv(s) && HoldsTake(At(s, t)) && 0 < |s.contents|
    ensures TakePos(At(s, t)) == Head(s) < |s.q.data|
    ensures s.q.data[Head(s)] == s.contents[0] && |s.contents[0]| == s.q.elementSize
  {
    assert Wrap(Head(s) + 0, s.q.capacity) == Head(s);
    assert s.q.data[Wrap(Head(s) + 0, s.q.capacity)] == s.contents[0];
  }

  lemma TakeCopyKeeps(s: State, t: Tid, tk: nat, buf: Elem)
    requires Inv(s) && At(s, t) == TakeCopy(tk, buf)
    ensures InBounds(s, t) && Inv(StepTakeCopy(s, t, tk, buf))
  {
    assert PcOk(s.q, s.contents, At(s, t));
    OldestAtHead(s, t);
    var s' := StepTakeCopy(s, t, tk, buf);
    var pc := if |buf| < s.q.elementSize then TakeCopy(tk, buf + [s.q.data[tk][|buf|]]) else TakeSub(tk, buf);
    ControlKept(s, s', t, pc);
    HistoryQuiet(s, s', t, pc);
  }

  lemma PcsMoved(s: State, s': State, t: Tid, pc: Pc)
    requires IsStepOf(s, s', t, pc)
    requires PcOk(s'.q, s'.contents, pc)
    requires forall u: Tid | u != t :: PcOk(s'.q, s'.contents, At(s, u))
    ensures PcsOk(s')
  {
    forall u: Tid
      ensures PcOk(s'.q, s'.contents, At(s', u))
    {
      AtAfter(s, s', t, pc, u);
    }
  }

  /** Writing the slot behind the newest element is seen by no thread but the pusher. */
  lemma WriteUnseen(q: Shared, contents: seq<Elem>, p: nat, slot: Elem, pc: Pc)
    requires p < |q.data| && PcOk(q, contents, pc) && !HoldsPush(pc)
    ensures PcOk(q.(data := q.data[p := slot]), contents, pc)
  {
  }

  lemma RingAfterWrite(q: Shared, contents: seq<Elem>, head: nat, tail: nat, slot: Elem)
    requires RingOk(q, contents, head, tail) && |contents| < q.capacity
    ensures RingOk(q.(data := q.data[tail := slot]), contents, head, tail)
  {
    forall k | 0 <= k < |contents|
      ensures q.data[tail := slot][Wrap(head + k, q.capacity)] == contents[k]
    {
      assert q.data[Wrap(head + k, q.capacity)] == contents[k];
      assert Wrap(head + k, q.capacity) != tail;
    }
  }

  lemma PushCopyKeeps(s: State, t: Tid, e: Elem, p: nat, tk: nat, done: nat)
    requires Inv(s) && At(s, t) == PushCopy(e, p, tk, done)
    ensures InBounds(s, t) && Inv(StepPushCopy(s, t, e, p, tk, done))
  {
    assert PcOk(s.q, s.contents, At(s, t));
    var s' := StepPushCopy(s, t, e, p, tk, done);
    if done < |e| {
      var pc := PushCopy(e, p, tk, done + 1);
      var slot := s.q.data[p][done := e[done]];
      RingAfterWrite(s.q, s.contents, Head(s), Tail(s), slot);
      forall u: Tid | u != t
        ensures PcOk(s'.q, s'.contents, At(s, u))
      {
        WriteUnseen(s.q, s.contents, p, slot, At(s, u));
      }
      assert slot[..done + 1] == e[..done + 1];
      PcsMoved(s, s', t, pc);
      OwnersKept(s, s', t, pc);
      HistoryQuiet(s, s', t, pc);
    } else {
      assert s.q.data[p] == s.q.data[p][..done];
      ControlKept(s, s', t, PushAdd(e, p, tk));
      HistoryQuiet(s, s', t, PushAdd(e, p, tk));
    }
  }

  lemma RingAfterAdd(q: Shared, contents: seq<Elem>, head: nat, tail: nat, e: Elem)
    requires RingOk(q, contents, head, tail) && |contents| < q.capacity && q.data[tail] == e
    ensures RingOk(q.(size := q.size + 1), contents + [e], head, (tail + 1) % q.capacity)
  {
    ModIsWrap(tail + 1, q.capacity);
  }

  /** A new element at the end does not disturb a thread that takes from the front. */
  lemma AddUnseen(q: Shared, contents: seq<Elem>, e: Elem, pc: Pc)
    requires PcOk(q, contents, pc) && !HoldsPush(pc) && q.size == |contents|
    ensures PcOk(q.(size := q.size + 1), contents + [e], pc)
  {
  }

  lemma PushAddKeeps(s: State, t: Tid, e: Elem, p: nat, tk: nat)
    requires Inv(s) && At(s, t) == PushAdd(e, p, tk)
    ensures InBounds(s, t) && Inv(StepPushAdd(s, t, e, p, tk))
  {
    assert PcOk(s.q, s.contents, At(s, t));
    var s' := StepPushAdd(s, t, e, p, tk);
    var pc := PushUnlockTake(e, (p + 1) % s.q.capacity, tk, true);
    RingAfterAdd(s.q, s.contents, Head(s), Tail(s), e);
    forall u: Tid | u != t
      ensures PcOk(s'.q, s'.contents, At(s, u))
    {
      AddUnseen(s.q, s.contents, e, At(s, u));
    }
    PcsMoved(s, s', t, pc);
    OwnersKept(s, s', t, pc);
    HistoryEvent(s, s', t, pc, Pushed(e));
  }

  lemma RingAfterRemove(q: Shared, contents: seq<Elem>, head: nat, tail: nat)
    requires RingOk(q, contents, head, tail) && 0 < |contents|
    ensures RingOk(q.(size := q.size - 1), contents[1..], (head + 1) % q.capacity, tail)
  {
    ModIsWrap(head + 1, q.capacity);
    var head' := (head + 1) % q.capacity;
    forall k | 0 <= k < |contents| - 1
      ensures q.data[Wrap(head' + k, q.capacity)] == contents[1..][k]
    {
      assert q.data[Wrap(head + (k + 1), q.capacity)] == contents[k + 1];
    }
  }

  /** Removing the oldest element does not disturb a pusher that works behind the newest one. */
  lemma RemoveUnseen(q: Shared, contents: seq<Elem>, pc: Pc)
    requires PcOk(q, contents, pc) && !HoldsTake(pc) && q.size == |contents| > 0
    ensures PcOk(q.(size := q.size - 1), contents[1..], pc)
  {
  }

  lemma TakeSubKeeps(s: State, t: Tid, tk: nat, buf: Elem)
    requires Inv(s) && At(s, t) == TakeSub(tk, buf)
    ensures InBounds(s, t) && Inv(StepTakeSub(s, t, tk, buf))
  {
    assert PcOk(s.q, s.contents, At(s, t));
    var s' := StepTakeSub(s, t, tk, buf);
    var pc := TakeUnlock((tk + 1) % s.q.capacity, Some(buf));
    RingAfterRemove(s.q, s.contents, Head(s), Tail(s));
    forall u: Tid | u != t
      ensures PcOk(s'.q, s'.contents, At(s, u))
    {
      RemoveUnseen(s.q, s.contents, At(s, u));
    }
    PcsMoved(s, s', t, pc);
    OwnersKept(s, s', t, pc);
    HistoryEvent(s, s', t, pc, Took(buf));
  }

  /** A relocation moves the elements oldest first. */
  lemma MoveSourceIsNext(q: Shared, contents: seq<Elem>, head: nat, tail: nat, i: nat)
    requires RingOk(q, contents, head, tail) && i < |contents|
    ensures Place(head, q.size, q.capacity, i) < |q.data|
    ensures q.data[Place(head, q.size, q.capacity, i)] == contents[i]
  {
    assert q.data[Wrap(head + i, q.capacity)] == contents[i];
  }

  /** Relocation keeps the abstract queue, starts it at slot 0, and leaves the slot after it free. */
  lemma RingAfterSwitch(q: Shared, contents: seq<Elem>, head: nat, tail: nat, region: seq<Elem>)
    requires RingOk(q, contents, head, tail) && q.size < NewCapacity(q) == |region|
    requires region[..q.size] == contents
    ensures RingOk(q.(data := region, capacity := NewCapacity(q)), contents, 0, q.size)
  {
    forall k | 0 <= k < |contents|
      ensures region[Wrap(0 + k, NewCapacity(q))] == contents[k]
    {
      assert region[k] == region[..q.size][k];
    }
  }

  /** A thread that holds neither lock does not notice that the region is replaced. */
  lemma SwitchUnseen(q: Shared, contents: seq<Elem>, region: seq<Elem>, capacity: nat, pc: Pc)
    requires PcOk(q, contents, pc) && !HoldsPush(pc) && !HoldsTake(pc)
    ensures PcOk(q.(data := region, capacity := capacity), contents, pc)
  {
  }

  lemma GrowMoveKeeps(s: State, t: Tid, e: Elem, p: nat, tk: nat, region: seq<Elem>, done: nat)
    requires Inv(s) && At(s, t) == GrowMove(e, p, tk, region, done)
    ensures InBounds(s, t) && Inv(StepGrowMove(s, t, e, p, tk, region, done))
  {
    assert PcOk(s.q, s.contents, At(s, t));
    if done < s.q.size {
      MoveSourceIsNext(s.q, s.contents, Head(s), Tail(s), done);
      var from := Place(tk, s.q.size, s.q.capacity, done);
      var region' := region[done := s.q.data[from]];
      assert region'[..done + 1] == s.contents[..done + 1];
      var s' := StepGrowMove(s, t, e, p, tk, region, done);
      ControlKept(s, s', t, GrowMove(e, p, tk, region', done + 1));
      HistoryQuiet(s, s', t, GrowMove(e, p, tk, region', done + 1));
    } else {
      GrowSwitchKeeps(s, t, e, p, tk, region, done);
    }
  }

  lemma GrowSwitchKeeps(s: State, t: Tid, e: Elem, p: nat, tk: nat, region: seq<Elem>, done: nat)
    requires Inv(s) && At(s, t) == GrowMove(e, p, tk, region, done)
    requires done == s.q.size
    ensures InBounds(s, t) && Inv(StepGrowMove(s, t, e, p, tk, region, done))
  {
    assert PcOk(s.q, s.contents, At(s, t));
    var s' := StepGrowMove(s, t, e, p, tk, region, done);
    var pc := PushCopy(e, s.q.size, 0, 0);
    assert s.contents[..done] == s.contents;
    RingAfterSwitch(s.q, s.contents, Head(s), Tail(s), region);
    forall u: Tid | u != t
      ensures PcOk(s'.q, s'.contents, At(s, u))
    {
      SwitchUnseen(s.q, s.contents, region, NewCapacity(s.q), At(s, u));
    }
    PcsMoved(s, s', t, pc);
    OwnersKept(s, s', t, pc);
    HistoryQuiet(s, s', t, pc);
  }
}
