/**
 `recode_none` while the other stages run.  Its last access sets the counter to zero, where the other
 recoding calls subtract what they have published.  The machine of module Pipeline has no such step,
 so it is widened here by the call and by one flag: whether the recode under way is one of this kind.
 */
module PipelineRecodeNone {
  import opened Bytes
  import opened Pipeline
  import opened PipelineInvariant
  import opened PipelineTheorems
  import opened PipelineProgress

  datatype Call = RecodeNone | Usual(a: Action)

  datatype Wide = Wide(s: State, none: bool)

  /** The start of `recode_none`: it takes the whole counter, also when that is zero. */
  function BeginRecodeNone(s: State): State {
    s.(recoder := CXor(Zeros(s.canRecode), s.canRecode))
  }

  /** The last access of `recode_none`. */
  function StoreZero(s: State): State {
    s.(canRecode := 0, recoder := CIdle)
  }

  /** The step of the recoder that stores zero. */
  predicate Stores(x: Wide, c: Call) {
    c == Usual(RecoderStep) && x.none && x.s.recoder.CSubtract?
  }

  function WideStep(x: Wide, c: Call): Wide {
    if Stores(x, c) then Wide(StoreZero(x.s), false)
    else
      match c
      case RecodeNone => if RecoderFree(x.s) && !x.none then Wide(BeginRecodeNone(x.s), true) else x
      case Usual(a) => Wide(Step(x.s, a), x.none)
  }

  function WideRun(x: Wide, calls: seq<Call>): Wide
    decreases |calls|
  {
    if calls == [] then x
    else WideStep(WideRun(x, calls[..|calls| - 1]), calls[|calls| - 1])
  }

  function Usuals(actions: seq<Action>): (calls: seq<Call>)
    ensures |calls| == |actions|
    decreases |actions|
  {
    if actions == [] then [] else Usuals(actions[..|actions| - 1]) + [Usual(actions[|actions| - 1])]
  }

  predicate OthersOnly(actions: seq<Action>) {
    forall i :: 0 <= i < |actions| ==>
      actions[i].CallWrite? || actions[i].CallRead? || actions[i].WriterStep? || actions[i].ReaderStep?
  }

  lemma {:induction false} OthersLeaveRecoder(s: State, actions: seq<Action>)
    requires OthersOnly(actions)
    ensures
      var s' := Run(s, actions);
      && s'.recoder == s.recoder && s'.todo == s.todo && s'.masked == s.masked
      && s.written <= s'.written
    decreases |actions|
  {
    if actions != [] {
      OthersLeaveRecoder(s, actions[..|actions| - 1]);
    }
  }

  /** The other stages know nothing of the flag. */
  lemma {:induction false} WideOthers(x: Wide, actions: seq<Action>)
    requires OthersOnly(actions)
    ensures WideRun(x, Usuals(actions)) == Wide(Run(x.s, actions), x.none)
    decreases |actions|
  {
    if actions != [] {
      var n := |actions| - 1;
      WideOthers(x, actions[..n]);
      assert Usuals(actions)[..n] == Usuals(actions[..n]);
    }
  }

  // ----- what the counters account for -----

  function InFlight(s: State): nat {
    WriterInFlight(s) + RecoderInFlight(s) + ReaderInFlight(s)
  }

  /** The part of the ring that the counters account for. */
  function Accounted(s: State): int {
    s.canWrite + s.canRecode + s.canRead - InFlight(s)
  }

  lemma WriterAccounts(s: State)
    requires WriterInBounds(s)
    ensures Accounted(WriterAdvance(s)) == Accounted(s)
  {
  }

  lemma RecoderAccounts(s: State)
    requires RecoderInBounds(s)
    ensures Accounted(RecoderAdvance(s)) == Accounted(s)
  {
  }

  lemma ReaderAccounts(s: State)
    requires ReaderInBounds(s)
    ensures Accounted(ReaderAdvance(s)) == Accounted(s)
  {
  }

  /** No call and no step of the machine of module Pipeline changes it, in any state at all. */
  lemma StepAccounts(s: State, a: Action)
    ensures Accounted(Step(s, a)) == Accounted(s)
  {
    match a
    case WriterStep => if WriterInBounds(s) { WriterAccounts(s); }
    case RecoderStep => if RecoderInBounds(s) { RecoderAccounts(s); }
    case ReaderStep => if ReaderInBounds(s) { ReaderAccounts(s); }
    case _ =>
  }

  /** What the recode under way took from its counter when it began. */
  function Claim(s: State): nat {
    match s.recoder case CXor(mask, _) => |mask| case CPublish(mask) => |mask| case CSubtract(n) => n case CIdle => 0
  }

  /** Nobody but the recoder lowers its counter. */
  predicate ClaimOk(x: Wide) {
    x.none ==> x.s.recoder != CIdle && Claim(x.s) <= x.s.canRecode
  }

  lemma ClaimStays(s: State, a: Action)
    requires s.recoder != CIdle && !(a == RecoderStep && s.recoder.CSubtract?)
    ensures
      var s' := Step(s, a);
      s'.recoder != CIdle && Claim(s') == Claim(s) && s'.canRecode >= s.canRecode
  {
  }

  lemma WideStepAccounts(x: Wide, c: Call)
    requires ClaimOk(x)
    ensures
      var x' := WideStep(x, c);
      && ClaimOk(x')
      && Accounted(x'.s) == Accounted(x.s) - (if Stores(x, c) then x.s.canRecode - Claim(x.s) else 0)
      && Accounted(x'.s) <= Accounted(x.s)
  {
    if !Stores(x, c) && c.Usual? {
      StepAccounts(x.s, c.a);
      if x.none { ClaimStays(x.s, c.a); }
    }
  }

  /** What the counters have lost never comes back, whatever is called, `recode_none` included. */
  lemma {:induction false} NothingComesBack(x: Wide, calls: seq<Call>)
    requires ClaimOk(x)
    ensures ClaimOk(WideRun(x, calls)) && Accounted(WideRun(x, calls).s) <= Accounted(x.s)
    decreases |calls|
  {
    if calls != [] {
      var n := |calls| - 1;
      NothingComesBack(x, calls[..n]);
      WideStepAccounts(WideRun(x, calls[..n]), calls[n]);
    }
  }

  /** And without `recode_none` it stays exactly as it is. */
  lemma {:induction false} RunAccounts(s: State, actions: seq<Action>)
    ensures Accounted(Run(s, actions)) == Accounted(s)
    decreases |actions|
  {
    if actions != [] {
      RunAccounts(s, actions[..|actions| - 1]);
      StepAccounts(Run(s, actions[..|actions| - 1]), actions[|actions| - 1]);
    }
  }

  // ----- the exact condition -----

  lemma NothingToRecodePositions(s: State)
    requires PositionsOk(s) && RecoderFree(s) && s.canRecode == 0
    ensures PositionsOk(BeginRecodeNone(s))
  {
  }

  lemma NothingToRecodeStream(s: State)
    requires RecoderFree(s) && s.canRecode == 0
    ensures Stream(BeginRecodeNone(s)) == Stream(s) && Output(BeginRecodeNone(s)) == Output(s)
  {
    assert s.masked + Zeros(0)[..0] == s.masked;
  }

  lemma BeginRecodeNoneKeeps(s: State)
    requires Inv(s) && RecoderFree(s)
    ensures Inv(BeginRecodeNone(s))
  {
    if s.canRecode == 0 {
      NothingToRecodePositions(s);
      NothingToRecodeStream(s);
      QuietKeeps(s, BeginRecodeNone(s));
    } else {
      BeginRecodeNoMaskKeeps(s, s.canRecode);
    }
  }

  /** Setting the counter to zero keeps the ring sound if and only if nothing is left to recode. */
  lemma StoreZeroExactly(s: State)
    requires Inv(s) && s.recoder.CSubtract?
    ensures Inv(StoreZero(s)) <==> |s.written| == |s.masked|
    ensures |s.written| == |s.masked| ==> StoreZero(s) == Step(s, RecoderStep)
    ensures Accounted(StoreZero(s)) + (|s.written| - |s.masked|) == |s.ring|
  {
    RecoderKeeps(s);
  }

  /** What is left drops out of the counters for good: in every later state, whatever is called,
      they account for that much less than the ring, and when no call is under way that is all the
      room that is left for bytes in any stage. */
  lemma StoreZeroLosesForGood(s: State, later: seq<Call>)
    requires Inv(s) && s.recoder.CSubtract?
    ensures
      var lost, s' := |s.written| - |s.masked|, WideRun(Wide(StoreZero(s), false), later).s;
      && s'.canWrite + s'.canRecode + s'.canRead <= |s.ring| - lost + InFlight(s')
      && (InFlight(s') == 0 ==> s'.canWrite + s'.canRecode + s'.canRead <= |s.ring| - lost)
  {
    StoreZeroExactly(s);
    NothingComesBack(Wide(StoreZero(s), false), later);
  }

  /** One step of the recoder, followed by steps of the other stages. */
  function Phase(x: Wide, actions: seq<Action>): Wide {
    WideRun(WideStep(x, Usual(RecoderStep)), Usuals(actions))
  }

  lemma PhaseOne(s: State, actions: seq<Action>)
    requires Inv(s) && RecoderFree(s) && OthersOnly(actions)
    ensures
      var x' := WideRun(WideStep(Wide(s, false), RecodeNone), Usuals(actions));
      && x'.none && Inv(x'.s) && x'.s.recoder == CXor(Zeros(s.canRecode), s.canRecode)
      && x'.s.masked == s.masked && s.written <= x'.s.written && |x'.s.ring| == |s.ring|
  {
    BeginRecodeNoneKeeps(s);
    WideOthers(WideStep(Wide(s, false), RecodeNone), actions);
    RunKeeps(BeginRecodeNone(s), actions);
    OthersLeaveRecoder(BeginRecodeNone(s), actions);
  }

  lemma PhaseKeeps(x: Wide, actions: seq<Action>)
    requires Inv(x.s) && OthersOnly(actions) && !Stores(x, Usual(RecoderStep))
    ensures
      var s1, x' := Step(x.s, RecoderStep), Phase(x, actions);
      && x'.none == x.none && Inv(x'.s) && x'.s.recoder == s1.recoder && x'.s.masked == s1.masked
      && s1.written <= x'.s.written && |x'.s.ring| == |x.s.ring|
  {
    var s1 := Step(x.s, RecoderStep);
    StepKeeps(x.s, RecoderStep);
    SameSize(x.s, RecoderStep);
    WideOthers(Wide(s1, x.none), actions);
    RunKeeps(s1, actions);
    OthersLeaveRecoder(s1, actions);
  }

  lemma PhaseTwo(x: Wide, n: nat, actions: seq<Action>)
    requires x.none && Inv(x.s) && x.s.recoder == CXor(Zeros(n), n) && OthersOnly(actions)
    ensures
      var x' := Phase(x, actions);
      && x'.none && Inv(x'.s) && x'.s.recoder == CPublish(Zeros(n)) && x'.s.masked == x.s.masked
      && x.s.written <= x'.s.written && |x'.s.ring| == |x.s.ring|
  {
    var s1 := Step(x.s, RecoderStep);
    assert s1.recoder == CPublish(Zeros(n)) && s1.masked == x.s.masked && s1.written == x.s.written;
    PhaseKeeps(x, actions);
  }

  lemma PhaseThree(x: Wide, n: nat, actions: seq<Action>)
    requires x.none && Inv(x.s) && x.s.recoder == CPublish(Zeros(n)) && OthersOnly(actions)
    ensures
      var x' := Phase(x, actions);
      && x'.none && Inv(x'.s) && x'.s.recoder == CSubtract(n) && |x'.s.masked| == |x.s.masked| + n
      && x.s.written <= x'.s.written && |x'.s.ring| == |x.s.ring|
  {
    var s1 := Step(x.s, RecoderStep);
    assert s1.recoder == CSubtract(n) && |s1.masked| == |x.s.masked| + n && s1.written == x.s.written;
    PhaseKeeps(x, actions);
  }

  /** A `recode_none` up to its final store, with the other two stages running before its index update,
      before its publication and before that store. */
  function BeforeStore(s: State, first: seq<Action>, second: seq<Action>, third: seq<Action>): Wide {
    Phase(Phase(WideRun(WideStep(Wide(s, false), RecodeNone), Usuals(first)), second), third)
  }

  lemma BeforeStoreKeeps(s: State, first: seq<Action>, second: seq<Action>, third: seq<Action>)
    requires Inv(s) && RecoderFree(s) && OthersOnly(first) && OthersOnly(second) && OthersOnly(third)
    ensures
      var last := BeforeStore(s, first, second, third);
      && last.none && Inv(last.s) && last.s.recoder.CSubtract? && |last.s.ring| == |s.ring|
      && |last.s.masked| == |s.written| && s.written <= last.s.written
  {
    var x1 := WideRun(WideStep(Wide(s, false), RecodeNone), Usuals(first));
    PhaseOne(s, first);
    PhaseTwo(x1, s.canRecode, second);
    PhaseThree(Phase(x1, second), s.canRecode, third);
    IdleCountersExact(s);
  }

  /** A whole `recode_none` leaves the ring sound if and only if the writer publishes nothing between
      its load and its store, and if and only if the counters still account for the whole ring. */
  lemma RecodeNoneSoundExactly(s: State, first: seq<Action>, second: seq<Action>, third: seq<Action>)
    requires Inv(s) && RecoderFree(s) && OthersOnly(first) && OthersOnly(second) && OthersOnly(third)
    ensures
      var last := BeforeStore(s, first, second, third);
      var stored := WideStep(last, Usual(RecoderStep)).s;
      && s.written <= last.s.written
      && (Inv(stored) <==> last.s.written == s.written)
      && (Accounted(stored) == |s.ring| <==> last.s.written == s.written)
  {
    BeforeStoreKeeps(s, first, second, third);
    StoreZeroExactly(BeforeStore(s, first, second, third).s);
  }

  /** Every byte that the writer publishes in between costs the ring one byte of room for ever. */
  lemma RecodeNoneLosesForGood(s: State, first: seq<Action>, second: seq<Action>, third: seq<Action>,
                               later: seq<Call>)
    requires Inv(s) && RecoderFree(s) && OthersOnly(first) && OthersOnly(second) && OthersOnly(third)
    ensures
      var last := BeforeStore(s, first, second, third);
      var s' := WideRun(WideStep(last, Usual(RecoderStep)), later).s;
      s'.canWrite + s'.canRecode + s'.canRead + (|last.s.written| - |s.written|) <= |s.ring| + InFlight(s')
  {
    BeforeStoreKeeps(s, first, second, third);
    StoreZeroLosesForGood(BeforeStore(s, first, second, third).s, later);
  }

  // ----- the failing case -----

  /** A ring that is full of bytes which no stage will ever touch again. */
  predicate Dead(x: Wide, src: seq<byte>) {
    && x.s.canWrite == x.s.canRecode == x.s.canRead == 0
    && x.s.writer == WIdle && x.s.reader == RIdle && x.s.todo == []
    && x.s.written == src && x.s.delivered == []
    && (if x.none then x.s.recoder in [CXor([], 0), CPublish([]), CSubtract(0)] else x.s.recoder == CIdle)
  }

  lemma DeadStays(x: Wide, src: seq<byte>, c: Call)
    requires Dead(x, src)
    ensures Dead(WideStep(x, c), src) && WideStep(x, c).s.ring == x.s.ring
  {
    assert Zeros(0) == [];
  }

  lemma {:induction false} DeadForEver(x: Wide, src: seq<byte>, calls: seq<Call>)
    requires Dead(x, src)
    ensures Dead(WideRun(x, calls), src) && WideRun(x, calls).s.ring == x.s.ring
    decreases |calls|
  {
    if calls != [] {
      var n := |calls| - 1;
      DeadForEver(x, src, calls[..n]);
      DeadStays(WideRun(x, calls[..n]), src, calls[n]);
    }
  }

  /** A reader that finds nothing to read stays idle while only the others' steps run. */
  lemma {:induction false} NothingToRead(s: State, actions: seq<Action>)
    requires OthersOnly(actions) && s.canRead == 0 && s.reader == RIdle
    ensures Run(s, actions).canRead == 0 && Run(s, actions).reader == RIdle
    ensures Run(s, actions).delivered == s.delivered
    decreases |actions|
  {
    if actions != [] {
      NothingToRead(s, actions[..|actions| - 1]);
    }
  }

  /** The ring after a write of its whole size that came after the load of a `recode_none`. */
  lemma FilledAfterLoad(ring: seq<byte>, src: seq<byte>, between: seq<Action>)
    requires 0 < |ring| == |src|
    requires OthersOnly(between) && NoWrite(between) && Count(between, WriterStep) >= |src| + 3
    ensures
      var s' := Run(Step(BeginRecodeNone(Init(ring)), CallWrite(src)), between);
      && s'.written == src && s'.delivered == [] && s'.writer == WIdle && s'.reader == RIdle
      && s'.recoder == CXor([], 0) && s'.todo == [] && s'.canWrite == s'.canRead == 0 && |s'.ring| == |ring|
      && s'.recodeIdx < |ring|
  {
    var loaded := BeginRecodeNone(Init(ring));
    var called := Step(loaded, CallWrite(src));
    assert Zeros(0) == [];
    InitHolds(ring);
    BeginRecodeNoneKeeps(Init(ring));
    WriteFinishes(loaded, src, between, |src|);
    StepKeeps(loaded, CallWrite(src));
    RunKeeps(called, between);
    OthersLeaveRecoder(called, between);
    NothingToRead(called, between);
    assert src[..|src|] == src;
  }

  /** The recoder's three remaining steps. */
  function Finish(x: Wide): Wide {
    WideStep(WideStep(WideStep(x, Usual(RecoderStep)), Usual(RecoderStep)), Usual(RecoderStep))
  }

  lemma FinishKills(x: Wide, src: seq<byte>)
    requires x.none && x.s.recoder == CXor([], 0) && x.s.todo == [] && x.s.recodeIdx < |x.s.ring|
    requires x.s.canWrite == x.s.canRead == 0 && x.s.writer == WIdle && x.s.reader == RIdle
    requires x.s.written == src && x.s.delivered == []
    ensures Dead(Finish(x), src) && !Finish(x).none
  {
    var x1 := WideStep(x, Usual(RecoderStep));
    assert x1.none && x1.s.recoder == CPublish([]);
    var x2 := WideStep(x1, Usual(RecoderStep));
    assert x2.none && x2.s.recoder == CSubtract(0) && x2.s.canRead == 0;
  }

  /** In a ring of any size: when a write as large as the ring falls between the load and the store of
      a `recode_none`, in whatever order the other stages take their steps, the ring is dead.  Nothing
      can be written, recoded or read from then on, whatever is called, `recode_none` included. */
  lemma RecodeNoneCanKillTheRing(ring: seq<byte>, src: seq<byte>, between: seq<Action>, later: seq<Call>)
    requires 0 < |ring| == |src|
    requires OthersOnly(between) && NoWrite(between) && Count(between, WriterStep) >= |src| + 3
    ensures
      var called := WideStep(WideStep(Wide(Init(ring), false), RecodeNone), Usual(CallWrite(src)));
      Dead(WideRun(Finish(WideRun(called, Usuals(between))), later), src)
  {
    var called := WideStep(WideStep(Wide(Init(ring), false), RecodeNone), Usual(CallWrite(src)));
    FilledAfterLoad(ring, src, between);
    WideOthers(called, between);
    FinishKills(WideRun(called, Usuals(between)), src);
    DeadForEver(Finish(WideRun(called, Usuals(between))), src, later);
  }

  /** The steps of a writer that is alone. */
  function WriterSteps(n: nat): (steps: seq<Action>)
    ensures |steps| == n
  {
    if n == 0 then [] else WriterSteps(n - 1) + [WriterStep]
  }

  lemma {:induction false} WriterStepsAreSteps(n: nat)
    ensures OthersOnly(WriterSteps(n)) && NoWrite(WriterSteps(n)) && Count(WriterSteps(n), WriterStep) == n
  {
    if n > 0 {
      WriterStepsAreSteps(n - 1);
    }
  }

  /** The smallest ring that the program can make, concretely: one chunk of 4096 bytes, filled by a writer that runs
      alone between the load and the store. */
  lemma OneChunkDies(ring: seq<byte>, src: seq<byte>, later: seq<Call>)
    requires |ring| == |src| == 4096
    ensures
      var called := WideStep(WideStep(Wide(Init(ring), false), RecodeNone), Usual(CallWrite(src)));
      Dead(WideRun(Finish(WideRun(called, Usuals(WriterSteps(|src| + 3)))), later), src)
  {
    WriterStepsAreSteps(|src| + 3);
    RecodeNoneCanKillTheRing(ring, src, WriterSteps(|src| + 3), later);
  }
}
