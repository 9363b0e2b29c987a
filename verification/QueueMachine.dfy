/**
 The growing queue as a machine of interleaved threads.

 Any number of threads push and take.  One step is one atomic access, one byte of an element
 copy, or one element of a relocation; interleaving is sequentially consistent.  The fields
 `pushOwner`, `takeOwner`, `contents`, `events`, `responses`, `copied` and `growths` only record
 history: no step looks at them.
 */
module QueueMachine {
  import opened Bytes
  import opened Ring

  type Tid = nat
  type Elem = seq<byte>

  const MIN_CAPACITY: nat := 0x40
  const MAX_CAPACITY: nat := 0x40000
  const MAX_ELEMENT_SIZE: nat := 0x400

  /** The fields of the shared struct; one entry of `data` is one element-sized slot. */
  datatype Shared = Shared(
    elementSize: nat,
    maxCapacity: nat,
    capacity: nat,
    data: seq<Elem>,
    size: nat,
    takeIdx: nat,
    pushIdx: nat)

  /** Where a thread is in the text of push or take, with its live locals. */
  datatype Pc =
    | Idle
    | PushLoad(e: Elem)
    | PushCas(e: Elem, seen: nat)
    | PushCheck(e: Elem, p: nat)
    | GrowLoad(e: Elem, p: nat)
    | GrowCas(e: Elem, p: nat, seen: nat)
    | GrowCheck(e: Elem, p: nat, t: nat)
    | GrowAlloc(e: Elem, p: nat, t: nat)
    | GrowMove(e: Elem, p: nat, t: nat, region: seq<Elem>, done: nat)
    | PushCopy(e: Elem, p: nat, t: nat, done: nat)
    | PushAdd(e: Elem, p: nat, t: nat)
    | PushUnlockTake(e: Elem, p: nat, t: nat, ok: bool)
    | PushUnlock(e: Elem, p: nat, ok: bool)
    | TakeLoadSize
    | TakeLoad
    | TakeCas(seen: nat)
    | TakeCheck(t: nat)
    | TakeCopy(t: nat, buf: Elem)
    | TakeSub(t: nat, buf: Elem)
    | TakeUnlock(t: nat, got: Option<Elem>)
    | TakeReturn(got: Option<Elem>)

  /** What an operation does to the abstract queue at the instant it takes effect. */
  datatype Op = Pushed(e: Elem) | PushFull(e: Elem) | PushNoMemory(e: Elem) | Took(e: Elem) | TookNothing
  datatype Event = Event(tid: Tid, op: Op)

  /** What an operation gives back to its caller. */
  datatype Ret = PushRet(e: Elem, ok: bool) | TakeRet(got: Option<Elem>)
  datatype Response = Response(tid: Tid, ret: Ret)

  datatype State = State(
    q: Shared,
    threads: map<Tid, Pc>,
    pushOwner: Option<Tid>,
    takeOwner: Option<Tid>,
    contents: seq<Elem>,
    events: seq<Event>,
    responses: seq<Response>,
    copied: nat,
    growths: nat)

  /** What the environment decides in a step: a spurious compare-and-swap failure, the allocator's
      answer, and whatever bytes a fresh region happens to hold.  An answer that is not a region of
      the size asked for counts as a refusal. */
  datatype Choice = Choice(spurious: bool, malloc: Option<seq<Elem>>)

  datatype Action = CallPush(tid: Tid, e: Elem) | CallTake(tid: Tid) | Resume(tid: Tid, choice: Choice)

  function At(s: State, t: Tid): Pc {
    if t in s.threads then s.threads[t] else Idle
  }

  function Goto(s: State, t: Tid, pc: Pc): State {
    s.(threads := s.threads[t := pc])
  }

  function Emit(s: State, t: Tid, op: Op): State {
    s.(events := s.events + [Event(t, op)])
  }

  predicate IsSlots(xs: seq<Elem>, n: nat, elementSize: nat) {
    |xs| == n && forall i :: 0 <= i < n ==> |xs[i]| == elementSize
  }

  function NewCapacity(q: Shared): nat {
    Min(q.capacity * 2, q.maxCapacity)
  }

  // ----- the steps of push -----

  function StepPushLoad(s: State, t: Tid, e: Elem): State {
    if s.q.pushIdx == UINT32_MAX then s else Goto(s, t, PushCas(e, s.q.pushIdx))
  }

  function StepPushCas(s: State, t: Tid, e: Elem, seen: nat, c: Choice): State {
    if s.q.pushIdx == seen && !c.spurious then
      Goto(s.(q := s.q.(pushIdx := UINT32_MAX), pushOwner := Some(t)), t, PushCheck(e, seen))
    else
      Goto(s, t, PushLoad(e))
  }

  function StepPushCheck(s: State, t: Tid, e: Elem, p: nat): State {
    if s.q.size == s.q.capacity then
      Goto(s, t, GrowLoad(e, p))
    else
      Goto(s, t, PushCopy(e, p, UINT32_MAX, 0))
  }

  function StepGrowLoad(s: State, t: Tid, e: Elem, p: nat): State {
    if s.q.takeIdx == UINT32_MAX then s else Goto(s, t, GrowCas(e, p, s.q.takeIdx))
  }

  function StepGrowCas(s: State, t: Tid, e: Elem, p: nat, seen: nat, c: Choice): State {
    if s.q.takeIdx == seen && !c.spurious then
      Goto(s.(q := s.q.(takeIdx := UINT32_MAX), takeOwner := Some(t)), t, GrowCheck(e, p, seen))
    else
      Goto(s, t, GrowLoad(e, p))
  }

  function StepGrowCheck(s: State, t: Tid, e: Elem, p: nat, tk: nat): State {
    if s.q.size == s.q.capacity then
      if NewCapacity(s.q) == s.q.capacity then
        Goto(Emit(s, t, PushFull(e)), t, PushUnlockTake(e, p, tk, false))
      else
        Goto(s, t, GrowAlloc(e, p, tk))
    else
      Goto(s, t, PushCopy(e, p, tk, 0))
  }

  function StepGrowAlloc(s: State, t: Tid, e: Elem, p: nat, tk: nat, c: Choice): State {
    if c.malloc.Some? && IsSlots(c.malloc.value, NewCapacity(s.q), s.q.elementSize) then
      Goto(s, t, GrowMove(e, p, tk, c.malloc.value, 0))
    else
      Goto(Emit(s, t, PushNoMemory(e)), t, PushUnlockTake(e, p, tk, false))
  }

  /** One element of the relocation, picked up from one block or two, or, when all are moved, the
      switch to the new region. */
  function StepGrowMove(s: State, t: Tid, e: Elem, p: nat, tk: nat, region: seq<Elem>, done: nat): State
    requires tk < s.q.capacity && s.q.size <= s.q.capacity
    requires done < s.q.size ==> done < |region| && Place(tk, s.q.size, s.q.capacity, done) < |s.q.data|
  {
    if done < s.q.size then
      var from := Place(tk, s.q.size, s.q.capacity, done);
      Goto(s, t, GrowMove(e, p, tk, region[done := s.q.data[from]], done + 1))
    else
      var q := s.q.(data := region, capacity := NewCapacity(s.q));
      Goto(s.(q := q, copied := s.copied + done, growths := s.growths + 1), t, PushCopy(e, s.q.size, 0, 0))
  }

  function StepPushCopy(s: State, t: Tid, e: Elem, p: nat, tk: nat, done: nat): State
    requires p < |s.q.data| && |s.q.data[p]| == |e|
  {
    if done < |e| then
      var slot := s.q.data[p][done := e[done]];
      Goto(s.(q := s.q.(data := s.q.data[p := slot])), t, PushCopy(e, p, tk, done + 1))
    else
      Goto(s, t, PushAdd(e, p, tk))
  }

  function StepPushAdd(s: State, t: Tid, e: Elem, p: nat, tk: nat): State
    requires s.q.capacity != 0
  {
    var s' := s.(q := s.q.(size := s.q.size + 1), contents := s.contents + [e]);
    Goto(Emit(s', t, Pushed(e)), t, PushUnlockTake(e, (p + 1) % s.q.capacity, tk, true))
  }

  function StepPushUnlockTake(s: State, t: Tid, e: Elem, p: nat, tk: nat, ok: bool): State {
    if tk != UINT32_MAX then
      Goto(s.(q := s.q.(takeIdx := tk), takeOwner := None), t, PushUnlock(e, p, ok))
    else
      Goto(s, t, PushUnlock(e, p, ok))
  }

  function StepPushUnlock(s: State, t: Tid, e: Elem, p: nat, ok: bool): State {
    var r := Response(t, PushRet(e, ok));
    Goto(s.(q := s.q.(pushIdx := p), pushOwner := None, responses := s.responses + [r]), t, Idle)
  }

  // ----- the steps of take -----

  function StepTakeLoadSize(s: State, t: Tid): State {
    if s.q.size == 0 then
      Goto(Emit(s, t, TookNothing), t, TakeReturn(None))
    else
      Goto(s, t, TakeLoad)
  }

  function StepTakeLoad(s: State, t: Tid): State {
    if s.q.takeIdx == UINT32_MAX then s else Goto(s, t, TakeCas(s.q.takeIdx))
  }

  function StepTakeCas(s: State, t: Tid, seen: nat, c: Choice): State {
    if s.q.takeIdx == seen && !c.spurious then
      Goto(s.(q := s.q.(takeIdx := UINT32_MAX), takeOwner := Some(t)), t, TakeCheck(seen))
    else
      Goto(s, t, TakeLoad)
  }

  function StepTakeCheck(s: State, t: Tid, tk: nat): State {
    if s.q.size == 0 then
      Goto(Emit(s, t, TookNothing), t, TakeUnlock(tk, None))
    else
      Goto(s, t, TakeCopy(tk, []))
  }

  function StepTakeCopy(s: State, t: Tid, tk: nat, buf: Elem): State
    requires tk < |s.q.data| && |s.q.data[tk]| == s.q.elementSize
  {
    if |buf| < s.q.elementSize then
      Goto(s, t, TakeCopy(tk, buf + [s.q.data[tk][|buf|]]))
    else
      Goto(s, t, TakeSub(tk, buf))
  }

  function StepTakeSub(s: State, t: Tid, tk: nat, buf: Elem): State
    requires s.q.capacity != 0 && s.q.size > 0
  {
    var rest := if s.contents == [] then [] else s.contents[1..];
    var s' := s.(q := s.q.(size := s.q.size - 1), contents := rest);
    Goto(Emit(s', t, Took(buf)), t, TakeUnlock((tk + 1) % s.q.capacity, Some(buf)))
  }

  function StepTakeUnlock(s: State, t: Tid, tk: nat, got: Option<Elem>): State {
    Goto(s.(q := s.q.(takeIdx := tk), takeOwner := None), t, TakeReturn(got))
  }

  function StepTakeReturn(s: State, t: Tid, got: Option<Elem>): State {
    Goto(s.(responses := s.responses + [Response(t, TakeRet(got))]), t, Idle)
  }

  // ----- runs -----

  /** The accesses that the next step of a thread makes stay inside the regions it uses, and the
      shared size does not run below zero. */
  predicate InBounds(s: State, t: Tid) {
    match At(s, t)
    case GrowMove(e, p, tk, region, done) =>
      && tk < s.q.capacity && s.q.size <= s.q.capacity
      && (done < s.q.size ==> done < |region| && Place(tk, s.q.size, s.q.capacity, done) < |s.q.data|)
    case PushCopy(e, p, tk, done) => p < |s.q.data| && |s.q.data[p]| == |e|
    case PushAdd(e, p, tk) => s.q.capacity != 0
    case TakeCopy(tk, buf) => tk < |s.q.data| && |s.q.data[tk]| == s.q.elementSize
    case TakeSub(tk, buf) => s.q.capacity != 0 && s.q.size > 0
    case _ => true
  }

  function Advance(s: State, t: Tid, c: Choice): State
    requires InBounds(s, t)
  {
    match At(s, t)
    case Idle => s
    case PushLoad(e) => StepPushLoad(s, t, e)
    case PushCas(e, seen) => StepPushCas(s, t, e, seen, c)
    case PushCheck(e, p) => StepPushCheck(s, t, e, p)
    case GrowLoad(e, p) => StepGrowLoad(s, t, e, p)
    case GrowCas(e, p, seen) => StepGrowCas(s, t, e, p, seen, c)
    case GrowCheck(e, p, tk) => StepGrowCheck(s, t, e, p, tk)
    case GrowAlloc(e, p, tk) => StepGrowAlloc(s, t, e, p, tk, c)
    case GrowMove(e, p, tk, region, done) => StepGrowMove(s, t, e, p, tk, region, done)
    case PushCopy(e, p, tk, done) => StepPushCopy(s, t, e, p, tk, done)
    case PushAdd(e, p, tk) => StepPushAdd(s, t, e, p, tk)
    case PushUnlockTake(e, p, tk, ok) => StepPushUnlockTake(s, t, e, p, tk, ok)
    case PushUnlock(e, p, ok) => StepPushUnlock(s, t, e, p, ok)
    case TakeLoadSize => StepTakeLoadSize(s, t)
    case TakeLoad => StepTakeLoad(s, t)
    case TakeCas(seen) => StepTakeCas(s, t, seen, c)
    case TakeCheck(tk) => StepTakeCheck(s, t, tk)
    case TakeCopy(tk, buf) => StepTakeCopy(s, t, tk, buf)
    case TakeSub(tk, buf) => StepTakeSub(s, t, tk, buf)
    case TakeUnlock(tk, got) => StepTakeUnlock(s, t, tk, got)
    case TakeReturn(got) => StepTakeReturn(s, t, got)
  }

  /** One step of the machine; an action that does not apply leaves the state alone. */
  function Step(s: State, a: Action): State {
    match a
    case CallPush(t, e) => if At(s, t) == Idle && |e| == s.q.elementSize then Goto(s, t, PushLoad(e)) else s
    case CallTake(t) => if At(s, t) == Idle then Goto(s, t, TakeLoadSize) else s
    case Resume(t, c) => if InBounds(s, t) then Advance(s, t, c) else s
  }

  function Run(s: State, actions: seq<Action>): State
    decreases |actions|
  {
    if actions == [] then s
    else Step(Run(s, actions[..|actions| - 1]), actions[|actions| - 1])
  }

  /** What the caller of init may ask for, and a limit that is lowered at most to the capacity. */
  predicate IsConfig(elementSize: nat, capacity: nat, maxCapacity: nat, data: seq<Elem>) {
    && elementSize <= MAX_ELEMENT_SIZE
    && MIN_CAPACITY <= capacity <= maxCapacity <= MAX_CAPACITY
    && IsSlots(data, capacity, elementSize)
  }

  function Init(elementSize: nat, maxCapacity: nat, data: seq<Elem>): State {
    State(Shared(elementSize, maxCapacity, |data|, data, 0, 0, 0), map[], None, None, [], [], [], 0, 0)
  }

  // ----- the abstract queue -----

  /** A bounded first-in first-out queue, as a partial function: None is an outcome that the
      abstract queue does not allow. */
  function Apply(queue: seq<Elem>, op: Op, maxCapacity: nat): Option<seq<Elem>> {
    match op
    case Pushed(e) => if |queue| < maxCapacity then Some(queue + [e]) else None
    case PushFull(_) => if |queue| == maxCapacity then Some(queue) else None
    case PushNoMemory(_) => if |queue| < maxCapacity then Some(queue) else None
    case Took(e) => if |queue| > 0 && queue[0] == e then Some(queue[1..]) else None
    case TookNothing => if |queue| == 0 then Some(queue) else None
  }

  /** The abstract queue after a sequence of events that starts from an empty queue. */
  function Replay(events: seq<Event>, maxCapacity: nat): Option<seq<Elem>>
    decreases |events|
  {
    if events == [] then Some([])
    else
      match Replay(events[..|events| - 1], maxCapacity)
      case None => None
      case Some(queue) => Apply(queue, events[|events| - 1].op, maxCapacity)
  }

  function RetOf(op: Op): Ret {
    match op
    case Pushed(e) => PushRet(e, true)
    case PushFull(e) => PushRet(e, false)
    case PushNoMemory(e) => PushRet(e, false)
    case Took(e) => TakeRet(Some(e))
    case TookNothing => TakeRet(None)
  }

  /** The results that the events of one thread call for, in order. */
  function Decided(events: seq<Event>, t: Tid): seq<Ret>
    decreases |events|
  {
    if events == [] then []
    else
      var last := events[|events| - 1];
      Decided(events[..|events| - 1], t) + (if last.tid == t then [RetOf(last.op)] else [])
  }

  /** The results that one thread has been given, in order. */
  function Returned(responses: seq<Response>, t: Tid): seq<Ret>
    decreases |responses|
  {
    if responses == [] then []
    else
      var last := responses[|responses| - 1];
      Returned(responses[..|responses| - 1], t) + (if last.tid == t then [last.ret] else [])
  }

  /** The result of an operation that has taken effect and has not returned yet. */
  function Pending(pc: Pc): seq<Ret> {
    match pc
    case PushUnlockTake(e, _, _, ok) => [PushRet(e, ok)]
    case PushUnlock(e, _, ok) => [PushRet(e, ok)]
    case TakeUnlock(_, got) => [TakeRet(got)]
    case TakeReturn(got) => [TakeRet(got)]
    case _ => []
  }
}
