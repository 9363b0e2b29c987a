/** What the queue machine guarantees over every run. */
module QueueTheorems {
  import opened Bytes
  import opened QueueMachine
  import opened QueueInvariant

  // ----- every step and every run keeps the invariant -----

  /** No thread's next access leaves the regions it uses. */
  lemma AccessesInBounds(s: State, t: Tid)
    requires Inv(s)
    ensures InBounds(s, t)
  {
    match At(s, t)
    case GrowMove(e, p, tk, region, done) => GrowMoveKeeps(s, t, e, p, tk, region, done);
    case PushCopy(e, p, tk, done) => PushCopyKeeps(s, t, e, p, tk, done);
    case PushAdd(e, p, tk) => PushAddKeeps(s, t, e, p, tk);
    case TakeCopy(tk, buf) => TakeCopyKeeps(s, t, tk, buf);
    case TakeSub(tk, buf) => TakeSubKeeps(s, t, tk, buf);
    case _ =>
  }

  lemma PushStepKeeps(s: State, t: Tid, c: Choice)
    requires Inv(s) && InBounds(s, t)
    requires At(s, t).PushLoad? || HoldsPush(At(s, t)) || At(s, t).PushCas?
    ensures Inv(Advance(s, t, c))
  {
    match At(s, t)
    case PushLoad(e) => PushLoadKeeps(s, t, e);
    case PushCas(e, seen) => PushCasKeeps(s, t, e, seen, c);
    case PushCheck(e, p) => PushCheckKeeps(s, t, e, p);
    case GrowLoad(e, p) => GrowLoadKeeps(s, t, e, p);
    case GrowCas(e, p, seen) => GrowCasKeeps(s, t, e, p, seen, c);
    case GrowCheck(e, p, tk) => GrowCheckKeeps(s, t, e, p, tk);
    case GrowAlloc(e, p, tk) => GrowAllocKeeps(s, t, e, p, tk, c);
    case GrowMove(e, p, tk, region, done) => GrowMoveKeeps(s, t, e, p, tk, region, done);
    case PushCopy(e, p, tk, done) => PushCopyKeeps(s, t, e, p, tk, done);
    case PushAdd(e, p, tk) => PushAddKeeps(s, t, e, p, tk);
    case PushUnlockTake(e, p, tk, ok) => PushUnlockTakeKeeps(s, t, e, p, tk, ok);
    case PushUnlock(e, p, ok) => PushUnlockKeeps(s, t, e, p, ok);
  }

  lemma AdvanceKeeps(s: State, t: Tid, c: Choice)
    requires Inv(s) && InBounds(s, t)
    ensures Inv(Advance(s, t, c))
  {
    match At(s, t)
    case Idle =>
    case TakeLoadSize => TakeLoadSizeKeeps(s, t);
    case TakeLoad => TakeLoadKeeps(s, t);
    case TakeCas(seen) => TakeCasKeeps(s, t, seen, c);
    case TakeCheck(tk) => TakeCheckKeeps(s, t, tk);
    case TakeCopy(tk, buf) => TakeCopyKeeps(s, t, tk, buf);
    case TakeSub(tk, buf) => TakeSubKeeps(s, t, tk, buf);
    case TakeUnlock(tk, got) => TakeUnlockKeeps(s, t, tk, got);
    case TakeReturn(got) => TakeReturnKeeps(s, t, got);
    case _ => PushStepKeeps(s, t, c);
  }

  lemma CallKeeps(s: State, t: Tid, pc: Pc)
    requires Inv(s) && At(s, t) == Idle
    requires pc == TakeLoadSize || (pc.PushLoad? && |pc.e| == s.q.elementSize)
    ensures Inv(Goto(s, t, pc))
  {
    ControlKept(s, Goto(s, t, pc), t, pc);
    HistoryQuiet(s, Goto(s, t, pc), t, pc);
  }

  lemma StepKeeps(s: State, a: Action)
    requires Inv(s)
    ensures Inv(Step(s, a))
  {
    match a
    case CallPush(t, e) =>
      if At(s, t) == Idle && |e| == s.q.elementSize { CallKeeps(s, t, PushLoad(e)); }
    case CallTake(t) =>
      if At(s, t) == Idle { CallKeeps(s, t, TakeLoadSize); }
    case Resume(t, c) =>
      if InBounds(s, t) { AdvanceKeeps(s, t, c); }
  }

  /** The sizes that the program accepts, in numbers. */
  lemma ConfigInNumbers(elementSize: nat, capacity: nat, maxCapacity: nat, data: seq<Elem>)
    ensures IsConfig(elementSize, capacity, maxCapacity, data) <==>
      && elementSize <= 0x400 && 0x40 <= capacity <= maxCapacity <= 0x40000
      && |data| == capacity && forall i :: 0 <= i < |data| ==> |data[i]| == elementSize
  {
  }

  lemma InitHolds(elementSize: nat, maxCapacity: nat, data: seq<Elem>)
    requires IsConfig(elementSize, |data|, maxCapacity, data)
    ensures Inv(Init(elementSize, maxCapacity, data))
  {
  }

  lemma {:induction false} RunKeeps(s: State, actions: seq<Action>)
    requires Inv(s)
    ensures Inv(Run(s, actions))
    decreases |actions|
  {
    if actions != [] {
      RunKeeps(s, actions[..|actions| - 1]);
      StepKeeps(Run(s, actions[..|actions| - 1]), actions[|actions| - 1]);
    }
  }

  // ----- linearizability -----

  /** One step appends at most one event, of the thread that steps, while its operation is under
      way; and hands out at most one result, of an operation that has taken effect. */
  ghost predicate StepRecord(s: State, s': State, t: Tid) {
    && s'.q.elementSize == s.q.elementSize && s'.q.maxCapacity == s.q.maxCapacity
    && s.events <= s'.events && |s'.events| <= |s.events| + 1
    && s.responses <= s'.responses && |s'.responses| <= |s.responses| + 1
    && (|s'.events| > |s.events| ==>
          && At(s, t) != Idle && Pending(At(s, t)) == []
          && s'.events[|s.events|].tid == t
          && Pending(At(s', t)) == [RetOf(s'.events[|s.events|].op)])
    && (|s'.responses| > |s.responses| ==>
          && s'.responses[|s.responses|].tid == t
          && Pending(At(s, t)) == [s'.responses[|s.responses|].ret]
          && At(s', t) == Idle)
  }

  lemma PushStepRecorded(s: State, t: Tid, c: Choice)
    requires InBounds(s, t)
    requires At(s, t).PushLoad? || HoldsPush(At(s, t)) || At(s, t).PushCas?
    ensures StepRecord(s, Advance(s, t, c), t)
  {
  }

  lemma StepRecorded(s: State, a: Action)
    ensures StepRecord(s, Step(s, a), a.tid)
  {
    match a
    case CallPush(t, e) =>
    case CallTake(t) =>
    case Resume(t, c) =>
      if At(s, t).PushLoad? || HoldsPush(At(s, t)) || At(s, t).PushCas? {
        if InBounds(s, t) { PushStepRecorded(s, t, c); }
      }
  }

  lemma {:induction false} RunAppend(s: State, first: seq<Action>, second: seq<Action>)
    ensures Run(s, first + second) == Run(Run(s, first), second)
    decreases |second|
  {
    if second == [] {
      assert first + second == first;
    } else {
      var n := |second| - 1;
      RunAppend(s, first, second[..n]);
      assert (first + second)[..|first + second| - 1] == first + second[..n];
    }
  }

  /** Events and results are only ever appended, and the limits never change. */
  lemma {:induction false} RunExtends(s: State, actions: seq<Action>)
    ensures s.events <= Run(s, actions).events && s.responses <= Run(s, actions).responses
    ensures Run(s, actions).q.maxCapacity == s.q.maxCapacity
    ensures Run(s, actions).q.elementSize == s.q.elementSize
    decreases |actions|
  {
    if actions != [] {
      RunExtends(s, actions[..|actions| - 1]);
      StepRecorded(Run(s, actions[..|actions| - 1]), actions[|actions| - 1]);
    }
  }

  /** Every run, of any number of threads, is a legal history of one bounded first-in first-out
      queue; each thread is told exactly what its own events did, in its own order; and the result
      of an operation that has not taken effect is never handed out. */
  lemma Linearizable(elementSize: nat, maxCapacity: nat, data: seq<Elem>, actions: seq<Action>, t: Tid)
    requires IsConfig(elementSize, |data|, maxCapacity, data)
    ensures
      var s := Run(Init(elementSize, maxCapacity, data), actions);
      && Replay(s.events, maxCapacity) == Some(s.contents)
      && |s.contents| == s.q.size <= maxCapacity
      && Decided(s.events, t) == Returned(s.responses, t) + Pending(At(s, t))
  {
    InitHolds(elementSize, maxCapacity, data);
    RunKeeps(Init(elementSize, maxCapacity, data), actions);
    RunExtends(Init(elementSize, maxCapacity, data), actions);
  }

  /** Real-time order: at any instant of a run, every result handed out so far belongs to an event
      recorded so far, a thread between operations has no event that awaits its result, and what is
      recorded later comes after all of it. */
  lemma RealTimeOrder(elementSize: nat, maxCapacity: nat, data: seq<Elem>,
                      before: seq<Action>, after: seq<Action>, t: Tid)
    requires IsConfig(elementSize, |data|, maxCapacity, data)
    ensures
      var mid := Run(Init(elementSize, maxCapacity, data), before);
      var end := Run(Init(elementSize, maxCapacity, data), before + after);
      && mid.events <= end.events && mid.responses <= end.responses
      && Returned(mid.responses, t) <= Decided(mid.events, t)
      && (At(mid, t) == Idle ==> Returned(mid.responses, t) == Decided(mid.events, t))
  {
    var init := Init(elementSize, maxCapacity, data);
    Linearizable(elementSize, maxCapacity, data, before, t);
    RunAppend(init, before, after);
    RunExtends(Run(init, before), after);
  }

  // ----- what a legal history says about the elements -----

  function PushedOf(events: seq<Event>): seq<Elem>
    decreases |events|
  {
    if events == [] then []
    else
      var last := events[|events| - 1].op;
      PushedOf(events[..|events| - 1]) + (if last.Pushed? then [last.e] else [])
  }

  function TakenOf(events: seq<Event>): seq<Elem>
    decreases |events|
  {
    if events == [] then []
    else
      var last := events[|events| - 1].op;
      TakenOf(events[..|events| - 1]) + (if last.Took? then [last.e] else [])
  }

  /** The elements taken are the elements pushed, in push order, each once, and the rest is in the
      queue. */
  lemma {:induction false} FirstInFirstOut(events: seq<Event>, maxCapacity: nat)
    requires Replay(events, maxCapacity).Some?
    ensures PushedOf(events) == TakenOf(events) + Replay(events, maxCapacity).value
    ensures |Replay(events, maxCapacity).value| <= maxCapacity
    decreases |events|
  {
    if events != [] {
      var prior := events[..|events| - 1];
      FirstInFirstOut(prior, maxCapacity);
      var queue := Replay(prior, maxCapacity).value;
      match events[|events| - 1].op
      case Pushed(e) => assert TakenOf(prior) + (queue + [e]) == (TakenOf(prior) + queue) + [e];
      case Took(e) => assert queue == [e] + queue[1..];
      case _ =>
    }
  }

  /** A failed take saw an empty queue; a push that failed without the allocator refusing saw exactly
      the maximal number of elements; a taken element was the oldest one. */
  lemma {:induction false} EventExplained(events: seq<Event>, maxCapacity: nat, i: nat)
    requires Replay(events, maxCapacity).Some? && i < |events|
    ensures Replay(events[..i], maxCapacity).Some?
    ensures
      var queue := Replay(events[..i], maxCapacity).value;
      match events[i].op
      case TookNothing => queue == []
      case PushFull(_) => |queue| == maxCapacity
      case PushNoMemory(_) => |queue| < maxCapacity
      case Took(e) => queue != [] && queue[0] == e
      case Pushed(_) => |queue| < maxCapacity
    decreases |events|
  {
    var n := |events| - 1;
    if i < n {
      EventExplained(events[..n], maxCapacity, i);
      assert events[..n][..i] == events[..i];
    }
  }

  /** In the machine itself: the step at which an operation takes effect sees an empty queue when a
      take fails, and a full queue when a push fails, which is at its limit unless the allocator
      refused; a push adds at the back, a take removes from the front. */
  ghost predicate Explained(s: State, s': State, op: Op, c: Choice) {
    match op
    case TookNothing => s.contents == [] == s'.contents
    case PushFull(_) => |s.contents| == s.q.capacity == s.q.maxCapacity && s'.contents == s.contents
    case PushNoMemory(_) =>
      && |s.contents| == s.q.capacity < s.q.maxCapacity && s'.contents == s.contents
      && !(c.malloc.Some? && IsSlots(c.malloc.value, NewCapacity(s.q), s.q.elementSize))
    case Pushed(e) => s'.contents == s.contents + [e]
    case Took(e) => s.contents == [e] + s'.contents
  }

  lemma PushExplained(s: State, t: Tid, c: Choice)
    requires InBounds(s, t) && HoldsPush(At(s, t)) && PcOk(s.q, s.contents, At(s, t))
    requires s.q.size == |s.contents| && ShapeOk(s.q) && |Advance(s, t, c).events| > |s.events|
    ensures Explained(s, Advance(s, t, c), Advance(s, t, c).events[|s.events|].op, c)
  {
  }

  lemma OutcomeExplained(s: State, t: Tid, c: Choice)
    requires Inv(s) && |Step(s, Resume(t, c)).events| > |s.events|
    ensures
      var s' := Step(s, Resume(t, c));
      Explained(s, s', s'.events[|s.events|].op, c)
  {
    AccessesInBounds(s, t);
    assert PcOk(s.q, s.contents, At(s, t));
    if HoldsPush(At(s, t)) {
      PushExplained(s, t, c);
    }
  }

  // ----- locks, slots and offsets -----

  /** A taker that still needs its slot: from the first byte of the copy to the decrement. */
  predicate NeedsSlot(pc: Pc) {
    pc.TakeCopy? || pc.TakeSub?
  }

  /** A pusher that copies and a taker that has not yet given its slot back use different slots, and
      both slots are inside the region. */
  lemma CopiesDoNotCollide(s: State, pusher: Tid, taker: Tid)
    requires Inv(s) && At(s, pusher).PushCopy? && NeedsSlot(At(s, taker))
    ensures At(s, pusher).p != At(s, taker).t
    ensures At(s, pusher).p < s.q.capacity && At(s, taker).t < s.q.capacity
  {
    assert PcOk(s.q, s.contents, At(s, pusher));
    assert PcOk(s.q, s.contents, At(s, taker));
    OldestAtHead(s, taker);
  }

  /** From the start of a taker's copy until its decrement, the steps of all other threads leave its
      slot alone; what it has copied so far is the start of the oldest element, and at the decrement
      it is all of it. */
  lemma TakenSlotStable(s: State, a: Action, taker: Tid)
    requires Inv(s) && NeedsSlot(At(s, taker)) && a.tid != taker
    ensures
      var k := At(s, taker).t;
      var s' := Step(s, a);
      && k < |s.q.data| && k < |s'.q.data| && s'.q.data[k] == s.q.data[k]
      && At(s', taker) == At(s, taker) && At(s, taker).buf <= s.q.data[k]
      && (At(s, taker).TakeSub? ==> At(s, taker).buf == s.q.data[k])
  {
    assert PcOk(s.q, s.contents, At(s, taker));
    OldestAtHead(s, taker);
    AccessesInBounds(s, a.tid);
    if At(s, a.tid).PushCopy? {
      CopiesDoNotCollide(s, a.tid, taker);
    }
    assert !HoldsTake(At(s, a.tid));
  }

  /** The step of a relocation that switches to the new region. */
  predicate IsSwitch(s: State, a: Action) {
    a.Resume? && At(s, a.tid).GrowMove? && At(s, a.tid).done >= s.q.size
  }

  /** What only that step changes: the region's size, the capacity, and the tallies of growth. */
  predicate SameRegion(s: State, s': State) {
    && s'.q.capacity == s.q.capacity && |s'.q.data| == |s.q.data| && s'.q.maxCapacity == s.q.maxCapacity
    && s'.copied == s.copied && s'.growths == s.growths
  }

  lemma PushLeavesRegion(s: State, t: Tid, c: Choice)
    requires InBounds(s, t) && HoldsPush(At(s, t)) && !IsSwitch(s, Resume(t, c))
    ensures SameRegion(s, Advance(s, t, c))
  {
  }

  lemma OnlyTheSwitchGrows(s: State, a: Action)
    requires !IsSwitch(s, a)
    ensures SameRegion(s, Step(s, a))
  {
    if a.Resume? && HoldsPush(At(s, a.tid)) && InBounds(s, a.tid) {
      PushLeavesRegion(s, a.tid, a.choice);
    }
  }

  /** The region and its capacity are replaced only by a thread that holds both index locks, and then
      no other thread is between locking and unlocking either index. */
  lemma RegionReplacedUnderBothLocks(s: State, a: Action, other: Tid)
    requires Inv(s)
    ensures Step(s, a).q.capacity != s.q.capacity || |Step(s, a).q.data| != |s.q.data| ==>
      && s.pushOwner == s.takeOwner == Some(a.tid)
      && s.q.pushIdx == s.q.takeIdx == UINT32_MAX
      && (other != a.tid ==> !HoldsPush(At(s, other)) && !HoldsTake(At(s, other)))
  {
    if IsSwitch(s, a) {
      assert HoldsPush(At(s, a.tid)) && HoldsTake(At(s, a.tid));
    } else {
      OnlyTheSwitchGrows(s, a);
    }
  }

  /** The locked marker is never a slot number, and the test at the end of push tells exactly whether
      this push holds the take lock. */
  lemma SentinelNeverCollides(s: State, t: Tid)
    requires Inv(s)
    ensures s.q.takeIdx == UINT32_MAX || s.q.takeIdx < s.q.capacity
    ensures s.q.pushIdx == UINT32_MAX || s.q.pushIdx < s.q.capacity
    ensures s.q.capacity <= s.q.maxCapacity < UINT32_MAX
    ensures At(s, t).PushUnlockTake? ==> (At(s, t).t != UINT32_MAX <==> s.takeOwner == Some(t))
  {
    assert HoldsTake(At(s, t)) <==> s.takeOwner == Some(t);
  }

  /** Every offset, every allocation size, the doubled capacity, and the sum of a held take index
      and the size fit in 32 bits. */
  lemma OffsetsFit(q: Shared, contents: seq<Elem>, head: nat, tail: nat, idx: nat)
    requires ShapeOk(q) && RingOk(q, contents, head, tail) && idx <= q.maxCapacity
    ensures idx * q.elementSize <= 0xFFFF_FFFF
    ensures q.capacity * 2 <= 0xFFFF_FFFF && head + q.size <= 0xFFFF_FFFF
  {
    assert idx * q.elementSize <= MAX_CAPACITY * q.elementSize;
    assert MAX_CAPACITY * q.elementSize <= MAX_CAPACITY * MAX_ELEMENT_SIZE;
  }

  // ----- the cost of growing -----

  function Pow2(n: nat): nat {
    if n == 0 then 1 else 2 * Pow2(n - 1)
  }

  lemma {:induction false} Pow2Monotone(m: nat, n: nat)
    requires m <= n
    ensures Pow2(m) <= Pow2(n)
  {
    if m < n {
      Pow2Monotone(m, n - 1);
    }
  }

  /** Until the limit cuts a doubling short, the capacity is the initial one doubled once per growth,
      and the relocations have copied as many elements as the growths have added slots. */
  ghost predicate CostOk(s: State, initial: nat) {
    && s.copied <= 2 * |PushedOf(s.events)|
    && (s.growths > 0 ==> initial * Pow2(s.growths - 1) < s.q.capacity)
    && (s.q.capacity < s.q.maxCapacity ==>
          && s.q.capacity == s.copied + initial
          && s.q.capacity == initial * Pow2(s.growths))
  }

  lemma PushedOfAppend(before: seq<Event>, after: seq<Event>)
    requires before <= after && |after| <= |before| + 1
    ensures |PushedOf(before)| <= |PushedOf(after)|
  {
    if before != after {
      assert after[..|after| - 1] == before;
    }
  }

  lemma DoublingStep(initial: nat, n: nat)
    ensures initial * Pow2(n + 1) == 2 * (initial * Pow2(n))
  {
  }

  lemma GrowthCost(s: State, t: Tid, e: Elem, p: nat, tk: nat, region: seq<Elem>, initial: nat)
    requires Inv(s) && CostOk(s, initial) && initial > 0
    requires At(s, t) == GrowMove(e, p, tk, region, s.q.size) && InBounds(s, t)
    ensures CostOk(StepGrowMove(s, t, e, p, tk, region, s.q.size), initial)
  {
    assert PcOk(s.q, s.contents, At(s, t));
    FirstInFirstOut(s.events, s.q.maxCapacity);
    assert s.q.size <= |PushedOf(s.events)|;
    DoublingStep(initial, s.growths);
  }

  lemma StepCost(s: State, a: Action, initial: nat)
    requires Inv(s) && CostOk(s, initial) && initial > 0
    ensures CostOk(Step(s, a), initial)
  {
    var pc := At(s, a.tid);
    assert PcOk(s.q, s.contents, pc);
    if IsSwitch(s, a) {
      AccessesInBounds(s, a.tid);
      GrowthCost(s, a.tid, pc.e, pc.p, pc.t, pc.region, initial);
    } else {
      StepRecorded(s, a);
      PushedOfAppend(s.events, Step(s, a).events);
      OnlyTheSwitchGrows(s, a);
    }
  }

  lemma {:induction false} RunCost(s: State, actions: seq<Action>, initial: nat)
    requires Inv(s) && CostOk(s, initial) && initial > 0
    ensures CostOk(Run(s, actions), initial)
    decreases |actions|
  {
    if actions != [] {
      RunCost(s, actions[..|actions| - 1], initial);
      RunKeeps(s, actions[..|actions| - 1]);
      StepCost(Run(s, actions[..|actions| - 1]), actions[|actions| - 1], initial);
    }
  }

  lemma ThirteenIsTooMany(initial: nat, growths: nat)
    requires MIN_CAPACITY <= initial && growths > 12
    ensures initial * Pow2(growths - 1) >= MAX_CAPACITY
  {
    Pow2Monotone(12, growths - 1);
    assert Pow2(12) == 4096;
    assert initial * Pow2(growths - 1) >= MIN_CAPACITY * Pow2(growths - 1);
  }

  lemma UnfinishedCost(s: State, t: Tid, initial: nat)
    requires Inv(s) && CostOk(s, initial) && At(s, t).GrowMove?
    ensures s.copied + At(s, t).done <= 2 * |PushedOf(s.events)|
  {
    assert PcOk(s.q, s.contents, At(s, t));
    FirstInFirstOut(s.events, s.q.maxCapacity);
  }

  /** Over any run from an empty queue, all relocations together copy at most two elements per
      successful push, those moved by a relocation still under way included, and there are at most
      twelve of them. */
  lemma GrowthIsAmortized(elementSize: nat, maxCapacity: nat, data: seq<Elem>, actions: seq<Action>, t: Tid)
    requires IsConfig(elementSize, |data|, maxCapacity, data)
    ensures
      var s := Run(Init(elementSize, maxCapacity, data), actions);
      && s.copied + (if At(s, t).GrowMove? then At(s, t).done else 0) <= 2 * |PushedOf(s.events)|
      && (s.growths > 0 ==> |data| * Pow2(s.growths - 1) < maxCapacity)
      && s.growths <= 12
  {
    var init := Init(elementSize, maxCapacity, data);
    InitHolds(elementSize, maxCapacity, data);
    assert CostOk(init, |data|) by {
      assert Pow2(0) == 1;
    }
    RunCost(init, actions, |data|);
    RunKeeps(init, actions);
    RunExtends(init, actions);
    var s := Run(init, actions);
    if At(s, t).GrowMove? {
      UnfinishedCost(s, t, |data|);
    }
    if s.growths > 12 {
      ThirteenIsTooMany(|data|, s.growths);
    }
  }
}
