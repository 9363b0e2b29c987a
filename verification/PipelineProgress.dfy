/**
 Every call of the three-stage ring returns after a fixed number of its own steps and does exactly
 what it set out to do, whatever the other two stages do meanwhile.
 */
module PipelineProgress {
  import opened Bytes
  import opened Pipeline
  import opened PipelineInvariant
  import opened PipelineTheorems

  /** How many of the actions are a given step. */
  function Count(actions: seq<Action>, step: Action): nat
    decreases |actions|
  {
    if actions == [] then 0
    else Count(actions[..|actions| - 1], step) + (if actions[|actions| - 1] == step then 1 else 0)
  }

  function Less(n: nat, k: nat): nat {
    if k <= n then n - k else 0
  }

  // ----- the writer -----

  /** Own steps that a write still takes. */
  function WriterLeft(s: State): nat {
    match s.writer
    case WCopy(src, done) => Less(|src|, done) + 3
    case WPublish(_) => 2
    case WSubtract(_) => 1
    case WIdle => 0
  }

  /** What the written stream will be when the write returns. */
  function WriterGoal(s: State): seq<byte> {
    s.written + (match s.writer case WCopy(src, _) => src case WPublish(src) => src case _ => [])
  }

  predicate NoWrite(actions: seq<Action>) {
    forall i :: 0 <= i < |actions| ==> !actions[i].CallWrite?
  }

  lemma WriterMoves(s: State)
    requires WriterInBounds(s)
    ensures
      var s' := WriterAdvance(s);
      WriterGoal(s') == WriterGoal(s) && WriterLeft(s') == Less(WriterLeft(s), 1)
  {
  }

  lemma OthersLeaveWriter(s: State, a: Action)
    requires !a.CallWrite? && !a.WriterStep?
    ensures Step(s, a).writer == s.writer && Step(s, a).written == s.written
  {
  }

  lemma WriterEffect(s: State, a: Action)
    requires Inv(s) && !a.CallWrite?
    ensures
      var s' := Step(s, a);
      WriterGoal(s') == WriterGoal(s) && WriterLeft(s') == Less(WriterLeft(s), if a == WriterStep then 1 else 0)
  {
    if a == WriterStep {
      WriterKeeps(s);
      WriterMoves(s);
    } else {
      OthersLeaveWriter(s, a);
    }
  }

  lemma {:induction false} RunWriter(s: State, actions: seq<Action>)
    requires Inv(s) && NoWrite(actions)
    ensures WriterGoal(Run(s, actions)) == WriterGoal(s)
    ensures WriterLeft(Run(s, actions)) == Less(WriterLeft(s), Count(actions, WriterStep))
    decreases |actions|
  {
    if actions != [] {
      var n := |actions| - 1;
      RunWriter(s, actions[..n]);
      RunKeeps(s, actions[..n]);
      WriterEffect(Run(s, actions[..n]), actions[n]);
    }
  }

  lemma WriteCalled(s: State, src: seq<byte>, n: nat)
    requires PositionsOk(s) && s.writer == WIdle && n == Min(|s.delivered| + |s.ring| - |s.written|, |src|)
    ensures
      var called := BeginWrite(s, src);
      WriterGoal(called) == s.written + src[..n] && WriterLeft(called) <= n + 3
  {
  }

  lemma WriterDone(s: State)
    requires WriterLeft(s) == 0
    ensures s.writer == WIdle && WriterGoal(s) == s.written
  {
  }

  /** A write appends exactly the first bytes of its source, as many as there was room for when it was
      called, and returns after three own steps more than bytes. */
  lemma WriteFinishes(s: State, src: seq<byte>, actions: seq<Action>, n: nat)
    requires Inv(s) && s.writer == WIdle && NoWrite(actions)
    requires n == Min(|s.delivered| + |s.ring| - |s.written|, |src|)
    requires Count(actions, WriterStep) >= n + 3
    ensures
      var s' := Run(Step(s, CallWrite(src)), actions);
      s'.writer == WIdle && s'.written == s.written + src[..n]
  {
    var called := Step(s, CallWrite(src));
    WriteCalled(s, src, n);
    BeginWriteKeeps(s, src);
    RunWriter(called, actions);
    WriterDone(Run(called, actions));
  }

  // ----- the reader -----

  function ReaderLeft(s: State): nat {
    match s.reader
    case RCopy(n, dest) => Less(n, |dest|) + 3
    case RPublish(_) => 2
    case RSubtract(_) => 1
    case RIdle => 0
  }

  /** How much will have come out when the read returns. */
  function ReaderGoal(s: State): nat {
    |s.delivered| + ReaderSpan(s)
  }

  predicate NoRead(actions: seq<Action>) {
    forall i :: 0 <= i < |actions| ==> !actions[i].CallRead?
  }

  lemma ReaderMoves(s: State)
    requires ReaderInBounds(s) && (s.reader.RCopy? ==> |s.reader.dest| <= s.reader.n)
    ensures
      var s' := ReaderAdvance(s);
      ReaderGoal(s') == ReaderGoal(s) && ReaderLeft(s') == Less(ReaderLeft(s), 1)
  {
  }

  lemma OthersLeaveReader(s: State, a: Action)
    requires !a.CallRead? && !a.ReaderStep?
    ensures Step(s, a).reader == s.reader && Step(s, a).delivered == s.delivered
  {
  }

  lemma ReaderEffect(s: State, a: Action)
    requires Inv(s) && !a.CallRead?
    ensures
      var s' := Step(s, a);
      ReaderGoal(s') == ReaderGoal(s) && ReaderLeft(s') == Less(ReaderLeft(s), if a == ReaderStep then 1 else 0)
  {
    if a == ReaderStep {
      ReaderKeeps(s);
      ReaderMoves(s);
    } else {
      OthersLeaveReader(s, a);
    }
  }

  lemma {:induction false} RunReader(s: State, actions: seq<Action>)
    requires Inv(s) && NoRead(actions)
    ensures ReaderGoal(Run(s, actions)) == ReaderGoal(s)
    ensures ReaderLeft(Run(s, actions)) == Less(ReaderLeft(s), Count(actions, ReaderStep))
    decreases |actions|
  {
    if actions != [] {
      var n := |actions| - 1;
      RunReader(s, actions[..n]);
      RunKeeps(s, actions[..n]);
      ReaderEffect(Run(s, actions[..n]), actions[n]);
    }
  }

  lemma ReadCalled(s: State, max: nat, n: nat)
    requires PositionsOk(s) && s.reader == RIdle && n == Min(|s.masked| - |s.delivered|, max)
    ensures
      var called := BeginRead(s, max);
      ReaderGoal(called) == |s.delivered| + n && ReaderLeft(called) <= n + 3
  {
  }

  lemma ReaderDone(s: State)
    requires ReaderLeft(s) == 0
    ensures s.reader == RIdle && ReaderGoal(s) == |s.delivered| && Output(s) == s.delivered
  {
  }

  /** A read hands out exactly as many bytes as were recoded when it was called, or asked for, and these
      are the next bytes of the masked stream. */
  lemma ReadFinishes(s: State, max: nat, actions: seq<Action>, n: nat)
    requires Inv(s) && s.reader == RIdle && NoRead(actions)
    requires n == Min(|s.masked| - |s.delivered|, max)
    requires Count(actions, ReaderStep) >= n + 3
    ensures
      var s' := Run(Step(s, CallRead(max)), actions);
      && s'.reader == RIdle && |s'.delivered| == |s.delivered| + n
      && s'.delivered <= XorZip(s'.written, s'.masked)
  {
    var called := Step(s, CallRead(max));
    ReadCalled(s, max, n);
    BeginReadKeeps(s, max);
    RunReader(called, actions);
    RunKeeps(called, actions);
    ReaderDone(Run(called, actions));
    OutputIsMasked(Run(called, actions));
  }

  // ----- the recoder -----

  function Flat(todo: seq<seq<byte>>): seq<byte> {
    if todo == [] then [] else todo[0] + Flat(todo[1..])
  }

  function TodoLeft(todo: seq<seq<byte>>): nat {
    if todo == [] then 0 else |todo[0]| + 4 + TodoLeft(todo[1..])
  }

  /** Own steps that a recode still takes at most, with the calls that it has still to make. */
  function RecoderLeft(s: State): nat {
    var now :=
      match s.recoder
      case CXor(mask, done) => Less(|mask|, done) + 3
      case CPublish(_) => 2
      case CSubtract(_) => 1
      case CIdle => 0;
    now + TodoLeft(s.todo)
  }

  /** What the consumed mask stream will be when the recode returns. */
  function RecoderGoal(s: State): seq<byte> {
    var now := match s.recoder case CXor(mask, _) => mask case CPublish(mask) => mask case _ => [];
    s.masked + (now + Flat(s.todo))
  }

  predicate NoRecode(actions: seq<Action>) {
    forall i :: 0 <= i < |actions| ==>
      !actions[i].CallRecode? && !actions[i].CallRecodeNoMask? && !actions[i].CallRecodeBuf?
  }

  /** Inside a call. */
  lemma RecoderMoves(s: State)
    requires RecoderInBounds(s) && s.recoder != CIdle
    ensures
      var s' := RecoderAdvance(s);
      RecoderGoal(s') == RecoderGoal(s) && RecoderLeft(s') < RecoderLeft(s)
  {
    if s.recoder.CPublish? {
      var mask := s.recoder.mask;
      assert s.masked + (mask + Flat(s.todo)) == (s.masked + mask) + ([] + Flat(s.todo));
    }
  }

  /** Between the calls of a recode from a second ring. */
  lemma NextCallMoves(s: State)
    requires Inv(s) && s.recoder == CIdle && s.todo != []
    ensures
      var s' := RecoderAdvance(s);
      RecoderGoal(s') == RecoderGoal(s) && RecoderLeft(s') < RecoderLeft(s)
  {
    if s.todo[0] != [] {
      InnerCallIsExact(s);
    } else {
      assert s.todo[0][..0] == [];
    }
    assert [] + Flat(s.todo) == s.todo[0] + Flat(s.todo[1..]);
  }

  lemma RecoderStepMoves(s: State)
    requires Inv(s)
    ensures
      var s' := Step(s, RecoderStep);
      RecoderGoal(s') == RecoderGoal(s) && RecoderLeft(s') <= Less(RecoderLeft(s), 1)
  {
    RecoderKeeps(s);
    if s.recoder != CIdle {
      RecoderMoves(s);
    } else if s.todo != [] {
      NextCallMoves(s);
    }
  }

  lemma OthersLeaveRecoding(s: State, a: Action)
    requires !a.CallRecode? && !a.CallRecodeNoMask? && !a.CallRecodeBuf? && !a.RecoderStep?
    ensures Step(s, a).recoder == s.recoder && Step(s, a).todo == s.todo && Step(s, a).masked == s.masked
  {
  }

  /** A recode after k own steps. */
  predicate RecoderAfter(s: State, s': State, k: nat) {
    RecoderGoal(s') == RecoderGoal(s) && RecoderLeft(s') <= Less(RecoderLeft(s), k)
  }

  lemma RecoderEffect(s: State, mid: State, a: Action, k: nat)
    requires Inv(mid) && RecoderAfter(s, mid, k)
    requires !a.CallRecode? && !a.CallRecodeNoMask? && !a.CallRecodeBuf?
    ensures RecoderAfter(s, Step(mid, a), if a == RecoderStep then k + 1 else k)
  {
    if a == RecoderStep {
      RecoderStepMoves(mid);
    } else {
      OthersLeaveRecoding(mid, a);
    }
  }

  lemma {:induction false} RunRecoder(s: State, actions: seq<Action>)
    requires Inv(s) && NoRecode(actions)
    ensures RecoderAfter(s, Run(s, actions), Count(actions, RecoderStep))
    decreases |actions|
  {
    if actions != [] {
      var n := |actions| - 1;
      RunRecoder(s, actions[..n]);
      RunKeeps(s, actions[..n]);
      RecoderEffect(s, Run(s, actions[..n]), actions[n], Count(actions[..n], RecoderStep));
    }
  }

  lemma RecoderDone(s: State)
    requires RecoderLeft(s) == 0
    ensures RecoderFree(s) && RecoderGoal(s) == s.masked
  {
  }

  lemma RecodeCalled(s: State, mask: seq<byte>, n: nat)
    requires PositionsOk(s) && RecoderFree(s) && n == Min(|s.written| - |s.masked|, |mask|)
    ensures
      var called := BeginRecode(s, mask);
      RecoderGoal(called) == s.masked + mask[..n] && RecoderLeft(called) <= n + 3
  {
  }

  /** A recode uses exactly the first mask bytes, as many as bytes waited when it was called. */
  lemma RecodeFinishes(s: State, mask: seq<byte>, actions: seq<Action>, n: nat)
    requires Inv(s) && RecoderFree(s) && NoRecode(actions)
    requires n == Min(|s.written| - |s.masked|, |mask|)
    requires Count(actions, RecoderStep) >= n + 3
    ensures
      var s' := Run(Step(s, CallRecode(mask)), actions);
      RecoderFree(s') && s'.masked == s.masked + mask[..n]
  {
    var called := Step(s, CallRecode(mask));
    RecodeCalled(s, mask, n);
    BeginRecodeKeeps(s, mask);
    RunRecoder(called, actions);
    RecoderDone(Run(called, actions));
  }

  lemma NoMaskCalled(s: State, max: nat, n: nat)
    requires PositionsOk(s) && RecoderFree(s) && n == Min(|s.written| - |s.masked|, max)
    ensures
      var called := BeginRecodeNoMask(s, max);
      RecoderGoal(called) == s.masked + Zeros(n) && RecoderLeft(called) <= n + 3
  {
  }

  /** A recode without a mask passes on as many bytes as waited when it was called, or were asked for,
      in the masked stream as if XORed with zeros. */
  lemma RecodeNoMaskFinishes(s: State, max: nat, actions: seq<Action>, n: nat)
    requires Inv(s) && RecoderFree(s) && NoRecode(actions)
    requires n == Min(|s.written| - |s.masked|, max)
    requires Count(actions, RecoderStep) >= n + 3
    ensures
      var s' := Run(Step(s, CallRecodeNoMask(max)), actions);
      RecoderFree(s') && s'.masked == s.masked + Zeros(n)
  {
    var called := Step(s, CallRecodeNoMask(max));
    NoMaskCalled(s, max, n);
    BeginRecodeNoMaskKeeps(s, max);
    RunRecoder(called, actions);
    RecoderDone(Run(called, actions));
  }

  lemma CallsAreMask(mask: seq<byte>, start: nat, total: nat)
    ensures Flat(BufCalls(mask, start, total)) == mask && TodoLeft(BufCalls(mask, start, total)) <= |mask| + 8
  {
    var calls := BufCalls(mask, start, total);
    assert |calls| == 1 ==> Flat(calls[1..]) == [];
    if |calls| == 2 {
      assert calls[1..] == [calls[1]];
      assert Flat([calls[1]]) == calls[1];
      assert TodoLeft([calls[1]]) == |calls[1]| + 4;
      assert mask == calls[0] + calls[1];
    }
  }

  lemma RecodeBufCalled(s: State, available: seq<byte>, start: nat, total: nat, n: nat)
    requires PositionsOk(s) && RecoderFree(s) && n == Min(|s.written| - |s.masked|, |available|)
    ensures
      var called := BeginRecodeBuf(s, available, start, total);
      RecoderGoal(called) == s.masked + available[..n] && RecoderLeft(called) <= n + 8
  {
    CallsAreMask(available[..n], start, total);
  }

  /** A recode from a second ring uses exactly its first bytes, as many as both rings had when it was
      called, in one inner call or two, however much is written in between. */
  lemma RecodeBufFinishes(s: State, available: seq<byte>, start: nat, total: nat, actions: seq<Action>, n: nat)
    requires Inv(s) && RecoderFree(s) && NoRecode(actions)
    requires n == Min(|s.written| - |s.masked|, |available|)
    requires Count(actions, RecoderStep) >= n + 8
    ensures
      var s' := Run(Step(s, CallRecodeBuf(available, start, total)), actions);
      RecoderFree(s') && s'.masked == s.masked + available[..n]
  {
    var called := Step(s, CallRecodeBuf(available, start, total));
    RecodeBufCalled(s, available, start, total, n);
    BeginRecodeBufKeeps(s, available, start, total);
    RunRecoder(called, actions);
    RecoderDone(Run(called, actions));
  }
}
