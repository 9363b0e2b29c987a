/**
 Recoding one ring with the bytes of a second one, while the other stages of both rings run.

 The recoder of the data ring is the reader of the mask ring: it XORs bytes where they lie there, one
 at a time, and gives their slots back to the mask ring's writer only when it is done.  The recoder's
 state in module Pipeline carries mask bytes; here only their number matters until they are read.
 */
module PipelinePair {
  import opened Bytes
  import opened Ring
  import opened Pipeline
  import opened PipelineInvariant
  import opened PipelineTheorems
  import opened PipelineProgress

  /** Between calls, after the first load, after the second load. */
  datatype Mode = Free | Loaded(waiting: nat) | Busy

  datatype Pair = Pair(data: State, mask: State, mode: Mode)

  /** The other stages of either ring, the call, and the steps of the call under way. */
  datatype Event = OnData(a: Action) | OnMask(a: Action) | RecodeXorBuf | BufStep

  predicate DataOwn(a: Action) {
    a.CallWrite? || a.CallRead? || a.WriterStep? || a.ReaderStep?
  }

  predicate MaskOwn(a: Action) {
    !a.CallRead? && !a.ReaderStep?
  }

  predicate HasByte(r: Recoder) {
    r.CXor? && r.done < |r.mask|
  }

  predicate CanCopy(m: State) {
    m.reader.RCopy? && |m.reader.dest| < m.reader.n && ReaderInBounds(m)
  }

  /** The mask byte that is next, where it lies in the mask ring. */
  function LiveByte(m: State): byte
    requires CanCopy(m)
  {
    m.ring[Place(m.readIdx, m.reader.n, |m.ring|, |m.reader.dest|)]
  }

  /** XORing with that byte, whatever byte the recoder's state carries. */
  function XorLive(d: State, b: byte): State
    requires HasByte(d.recoder) && RecoderInBounds(d)
  {
    var mask, done := d.recoder.mask, d.recoder.done;
    var slot := Place(d.recodeIdx, |mask|, |d.ring|, done);
    d.(ring := d.ring[slot := Xor(d.ring[slot], b)], recoder := CXor(mask[done := b], done + 1))
  }

  /** The second load fixes the amount and with it the inner calls. */
  function Begin(p: Pair): Pair
    requires p.mode.Loaded? && PairInBounds(p)
  {
    var k := Min(p.mode.waiting, p.mask.canRead);
    if p.mask.canRead == 0 then p.(mode := Free)
    else
      var calls := BufCalls(Seg(p.mask.ring, p.mask.readIdx, k), p.mask.readIdx, |p.mask.ring|);
      Pair(p.data.(todo := calls), p.mask.(reader := RCopy(k, [])), Busy)
  }

  predicate PairInBounds(p: Pair) {
    match p.mode
    case Free => true
    case Loaded(waiting) => p.mask.readIdx < |p.mask.ring| && Min(waiting, p.mask.canRead) <= |p.mask.ring|
    case Busy =>
      && RecoderInBounds(p.data) && ReaderInBounds(p.mask)
      && (HasByte(p.data.recoder) ==> CanCopy(p.mask))
  }

  function BufAdvance(p: Pair): Pair
    requires PairInBounds(p)
  {
    match p.mode
    case Free => p
    case Loaded(_) => Begin(p)
    case Busy =>
      if HasByte(p.data.recoder) then
        Pair(XorLive(p.data, LiveByte(p.mask)), ReaderAdvance(p.mask), Busy)
      else if !RecoderFree(p.data) then
        p.(data := RecoderAdvance(p.data))
      else
        var mask := ReaderAdvance(p.mask);
        Pair(p.data, mask, if mask.reader == RIdle then Free else Busy)
  }

  function PairStep(p: Pair, e: Event): Pair {
    match e
    case OnData(a) => if DataOwn(a) then p.(data := Step(p.data, a)) else p
    case OnMask(a) => if MaskOwn(a) then p.(mask := Step(p.mask, a)) else p
    case RecodeXorBuf => if p.mode == Free && p.data.canRecode != 0 then p.(mode := Loaded(p.data.canRecode)) else p
    case BufStep => if PairInBounds(p) then BufAdvance(p) else p
  }

  function PairRun(p: Pair, events: seq<Event>): Pair
    decreases |events|
  {
    if events == [] then p
    else PairStep(PairRun(p, events[..|events| - 1]), events[|events| - 1])
  }

  // ----- the invariant -----

  /** The mask stream: what the mask ring hands to its reader. */
  function MaskStream(m: State): seq<byte> {
    XorZip(m.written, m.masked)
  }

  /** The mask stream up to the end of the call under way. */
  function Upcoming(m: State): seq<byte>
    requires m.reader.RCopy? && |m.delivered| + m.reader.n <= Min(|m.written|, |m.masked|)
  {
    MaskStream(m)[..|m.delivered| + m.reader.n]
  }

  predicate ReadFits(m: State) {
    m.reader.RCopy? ==> |m.delivered| + m.reader.n <= Min(|m.written|, |m.masked|)
  }

  /** The data ring has used exactly the mask bytes that have been taken out of the mask ring. */
  predicate Linked(p: Pair) {
    && Mask(p.data) == Output(p.mask)
    && ReadFits(p.mask)
    && (p.mode == Busy <==> p.mask.reader != RIdle)
    && (p.mode.Loaded? ==> 0 < p.mode.waiting <= p.data.canRecode)
    && (if p.mask.reader.RCopy? then RecoderGoal(p.data) == Upcoming(p.mask) else RecoderFree(p.data))
  }

  ghost predicate PairInv(p: Pair) {
    Inv(p.data) && Inv(p.mask) && Linked(p)
  }

  // ----- the other stages -----

  lemma XorZipGrows(a: seq<byte>, b: seq<byte>, a': seq<byte>, b': seq<byte>)
    requires a <= a' && b <= b'
    ensures XorZip(a, b) <= XorZip(a', b')
  {
    var zip, zip' := XorZip(a, b), XorZip(a', b');
    forall i | 0 <= i < |zip|
      ensures zip[i] == zip'[i]
    {
      XorZipAt(a, b, i);
      XorZipAt(a', b', i);
    }
  }

  lemma DataOthers(d: State, a: Action)
    requires DataOwn(a)
    ensures
      var d' := Step(d, a);
      && d'.recoder == d.recoder && d'.todo == d.todo && d'.masked == d.masked
      && d'.canRecode >= d.canRecode
  {
  }

  lemma MaskOthers(m: State, a: Action)
    requires MaskOwn(a)
    ensures
      var m' := Step(m, a);
      && m'.reader == m.reader && m'.delivered == m.delivered
      && m.written <= m'.written && m.masked <= m'.masked
  {
  }

  lemma OnDataKeeps(p: Pair, a: Action)
    requires PairInv(p) && DataOwn(a)
    ensures PairInv(PairStep(p, OnData(a)))
  {
    StepKeeps(p.data, a);
    DataOthers(p.data, a);
  }

  lemma UpcomingStays(m: State, m': State)
    requires m'.reader == m.reader && m'.delivered == m.delivered && m.written <= m'.written && m.masked <= m'.masked
    requires m.reader.RCopy? && ReadFits(m)
    ensures ReadFits(m') && Upcoming(m') == Upcoming(m)
  {
    XorZipGrows(m.written, m.masked, m'.written, m'.masked);
  }

  lemma OnMaskKeeps(p: Pair, a: Action)
    requires PairInv(p) && MaskOwn(a)
    ensures PairInv(PairStep(p, OnMask(a)))
  {
    StepKeeps(p.mask, a);
    MaskOthers(p.mask, a);
    if p.mask.reader.RCopy? {
      UpcomingStays(p.mask, Step(p.mask, a));
    }
  }

  // ----- the call itself -----

  /** The byte that lies in the mask ring is the next one of the mask stream. */
  lemma LiveByteIsNext(m: State)
    requires Inv(m) && CanCopy(m)
    ensures
      var m' := ReaderAdvance(m);
      && Inv(m') && m'.reader == RCopy(m.reader.n, m.reader.dest + [LiveByte(m)])
      && Output(m') == Output(m) + [LiveByte(m)] <= MaskStream(m)
  {
    ReaderKeeps(m);
    assert m.delivered + (m.reader.dest + [LiveByte(m)]) == (m.delivered + m.reader.dest) + [LiveByte(m)];
    OutputIsMasked(ReaderAdvance(m));
  }

  /** And it is the byte that the recoder's state carries, so the step is a step of module Pipeline. */
  lemma LiveIsCarried(d: State, b: byte, goal: seq<byte>)
    requires HasByte(d.recoder) && RecoderInBounds(d)
    requires RecoderGoal(d) == goal && |Mask(d)| < |goal| && b == goal[|Mask(d)|]
    ensures b == d.recoder.mask[d.recoder.done] && XorLive(d, b) == RecoderAdvance(d)
    ensures Mask(XorLive(d, b)) == Mask(d) + [b]
  {
    var mask, done := d.recoder.mask, d.recoder.done;
    assert goal[|d.masked| + done] == mask[done];
    assert mask[done := b] == mask;
    assert d.masked + mask[..done + 1] == (d.masked + mask[..done]) + [mask[done]];
  }

  lemma MaskIsShort(d: State)
    requires HasByte(d.recoder)
    ensures |Mask(d)| < |RecoderGoal(d)|
  {
  }

  lemma XorRefines(p: Pair)
    requires PairInv(p) && p.mode == Busy && HasByte(p.data.recoder)
    ensures PairInBounds(p)
    ensures BufAdvance(p) == Pair(RecoderAdvance(p.data), ReaderAdvance(p.mask), Busy)
    ensures Mask(RecoderAdvance(p.data)) == Output(ReaderAdvance(p.mask))
  {
    RecoderKeeps(p.data);
    ReaderKeeps(p.mask);
    MaskIsShort(p.data);
    LiveByteIsNext(p.mask);
    LiveIsCarried(p.data, LiveByte(p.mask), Upcoming(p.mask));
  }

  lemma XorKeeps(p: Pair)
    requires PairInv(p) && p.mode == Busy && HasByte(p.data.recoder)
    ensures PairInBounds(p) && PairInv(BufAdvance(p))
    ensures BufAdvance(p).data == RecoderAdvance(p.data) && BufAdvance(p).mask == ReaderAdvance(p.mask)
  {
    RecoderKeeps(p.data);
    ReaderKeeps(p.mask);
    XorRefines(p);
    RecoderMoves(p.data);
    assert Upcoming(ReaderAdvance(p.mask)) == Upcoming(p.mask);
  }

  lemma InnerKeeps(p: Pair)
    requires PairInv(p) && p.mode == Busy && !HasByte(p.data.recoder) && !RecoderFree(p.data)
    ensures PairInBounds(p) && PairInv(BufAdvance(p))
  {
    var d := p.data;
    RecoderKeeps(d);
    ReaderKeeps(p.mask);
    InnerMask(d);
    if d.recoder == CIdle {
      NextCallMoves(d);
    } else {
      RecoderMoves(d);
    }
  }

  /** Steps that XOR nothing use no mask byte. */
  lemma InnerMask(d: State)
    requires Inv(d) && RecoderInBounds(d) && !HasByte(d.recoder)
    ensures Mask(RecoderAdvance(d)) == Mask(d)
  {
    if d.recoder.CXor? {
      assert d.recoder.mask[..d.recoder.done] == d.recoder.mask;
    } else if d.recoder == CIdle && d.todo != [] {
      var mask := d.todo[0][..Min(d.canRecode, |d.todo[0]|)];
      assert d.masked + mask[..0] == d.masked;
    }
  }

  lemma ReleaseKeeps(p: Pair)
    requires PairInv(p) && p.mode == Busy && RecoderFree(p.data)
    ensures PairInBounds(p) && PairInv(BufAdvance(p))
  {
    var m := p.mask;
    RecoderKeeps(p.data);
    ReaderKeeps(m);
    RecoderDone(p.data);
    if m.reader.RCopy? {
      assert |Output(m)| == |Upcoming(m)|;
    }
  }

  /** What lies in the mask ring from its read index on is the mask stream from its last release on. */
  lemma Snapshot(m: State, k: nat)
    requires Inv(m) && m.reader == RIdle && k <= m.canRead
    ensures m.readIdx < |m.ring| && k <= |m.ring| && |m.delivered| + k <= Min(|m.written|, |m.masked|)
    ensures m.delivered + Seg(m.ring, m.readIdx, k) == MaskStream(m)[..|m.delivered| + k]
  {
    var seg, front := Seg(m.ring, m.readIdx, k), MaskStream(m)[..|m.delivered| + k];
    OutputIsMasked(m);
    forall i | 0 <= i < k
      ensures seg[i] == front[|m.delivered| + i]
    {
      SnapshotAt(m, k, i);
    }
    assert m.delivered == front[..|m.delivered|];
    assert seg == front[|m.delivered|..];
  }

  lemma SnapshotAt(m: State, k: nat, i: nat)
    requires Inv(m) && m.reader == RIdle && i < k <= m.canRead
    ensures m.readIdx < |m.ring| && k <= |m.ring| && |m.delivered| + i < |MaskStream(m)|
    ensures Seg(m.ring, m.readIdx, k)[i] == MaskStream(m)[|m.delivered| + i]
  {
    var q := |m.delivered| + i;
    SegAt(m.ring, m.readIdx, k, i);
    SlotAdd(|m.delivered|, i, |m.ring|);
    assert Cell(m.ring, q) == Stream(m)[q];
    BlendAt(Input(m), Mask(m), q);
    XorZipAt(m.written, m.masked, q);
  }

  /** Fixing the amount is a call of module Pipeline on each ring, over the mask bytes that lie there. */
  lemma BeginRefines(p: Pair, k: nat)
    requires PairInv(p) && p.mode.Loaded? && k == Min(p.mode.waiting, p.mask.canRead) > 0
    ensures PairInBounds(p)
    ensures
      var seg := Seg(p.mask.ring, p.mask.readIdx, k);
      BufAdvance(p) == Pair(BeginRecodeBuf(p.data, seg, p.mask.readIdx, |p.mask.ring|), BeginRead(p.mask, k), Busy)
  {
    Snapshot(p.mask, k);
    var seg := Seg(p.mask.ring, p.mask.readIdx, k);
    assert seg[..k] == seg;
  }

  lemma BegunGoal(d: State, m: State, k: nat)
    requires Inv(d) && RecoderFree(d) && Inv(m) && m.reader == RIdle && d.masked == m.delivered
    requires 0 < k <= m.canRead && k <= d.canRecode
    ensures m.readIdx < |m.ring| && k <= |m.ring| && |m.delivered| + k <= Min(|m.written|, |m.masked|)
    ensures
      var d' := BeginRecodeBuf(d, Seg(m.ring, m.readIdx, k), m.readIdx, |m.ring|);
      RecoderGoal(d') == MaskStream(m)[..|m.delivered| + k] && RecoderLeft(d') <= k + 8 && Mask(d') == Mask(d)
  {
    Snapshot(m, k);
    var seg := Seg(m.ring, m.readIdx, k);
    IdleCountersExact(d);
    RecodeBufCalled(d, seg, m.readIdx, |m.ring|, k);
    assert seg[..k] == seg;
  }

  lemma BeginKeeps(p: Pair)
    requires PairInv(p) && p.mode.Loaded?
    ensures PairInBounds(p) && PairInv(BufAdvance(p))
    ensures p.mask.canRead > 0 ==>
      var k := Min(p.mode.waiting, p.mask.canRead);
      && BufAdvance(p).mode == Busy && ReaderGoal(BufAdvance(p).mask) == |p.mask.delivered| + k
      && PairLeft(BufAdvance(p)) <= 2 * k + 11
  {
    Snapshot(p.mask, Min(p.mode.waiting, p.mask.canRead));
    if p.mask.canRead > 0 {
      BegunKeeps(p, Min(p.mode.waiting, p.mask.canRead));
    }
  }

  lemma BegunKeeps(p: Pair, k: nat)
    requires PairInv(p) && p.mode.Loaded? && k == Min(p.mode.waiting, p.mask.canRead) > 0
    ensures PairInBounds(p) && PairInv(BufAdvance(p)) && BufAdvance(p).mode == Busy
    ensures ReaderGoal(BufAdvance(p).mask) == |p.mask.delivered| + k && PairLeft(BufAdvance(p)) <= 2 * k + 11
  {
    RecoderDone(p.data);
    BeginRefines(p, k);
    BegunGoal(p.data, p.mask, k);
    BeginRecodeBufKeeps(p.data, Seg(p.mask.ring, p.mask.readIdx, k), p.mask.readIdx, |p.mask.ring|);
    BeginReadKeeps(p.mask, k);
  }

  lemma BufStepKeeps(p: Pair)
    requires PairInv(p)
    ensures PairInv(PairStep(p, BufStep))
  {
    match p.mode
    case Free =>
    case Loaded(_) => BeginKeeps(p);
    case Busy =>
      if HasByte(p.data.recoder) {
        XorKeeps(p);
      } else if !RecoderFree(p.data) {
        InnerKeeps(p);
      } else {
        ReleaseKeeps(p);
      }
  }

  lemma PairStepKeeps(p: Pair, e: Event)
    requires PairInv(p)
    ensures PairInv(PairStep(p, e))
  {
    match e
    case OnData(a) => if DataOwn(a) { OnDataKeeps(p, a); }
    case OnMask(a) => if MaskOwn(a) { OnMaskKeeps(p, a); }
    case RecodeXorBuf =>
    case BufStep => BufStepKeeps(p);
  }

  lemma {:induction false} PairRunKeeps(p: Pair, events: seq<Event>)
    requires PairInv(p)
    ensures PairInv(PairRun(p, events))
    decreases |events|
  {
    if events != [] {
      PairRunKeeps(p, events[..|events| - 1]);
      PairStepKeeps(PairRun(p, events[..|events| - 1]), events[|events| - 1]);
    }
  }

  function PairInit(ring: seq<byte>, maskRing: seq<byte>): Pair {
    Pair(Pipeline.Init(ring), Pipeline.Init(maskRing), Free)
  }

  /** Over every run of both rings: the data ring has used exactly the bytes taken out of the mask ring,
      these are a prefix of the mask stream, and what comes out of the data ring is the written stream
      XORed with it.  Between calls both rings have moved on by the same amount. */
  lemma TwoRingLaw(ring: seq<byte>, maskRing: seq<byte>, events: seq<Event>)
    requires |ring| > 0 && |maskRing| > 0
    ensures
      var p := PairRun(PairInit(ring, maskRing), events);
      && Mask(p.data) == Output(p.mask) <= MaskStream(p.mask)
      && p.data.delivered <= XorZip(p.data.written, MaskStream(p.mask))
      && (p.mode == Free ==> p.data.masked == p.mask.delivered)
  {
    var p := PairRun(PairInit(ring, maskRing), events);
    InitHolds(ring);
    InitHolds(maskRing);
    PairRunKeeps(PairInit(ring, maskRing), events);
    OutputIsMasked(p.mask);
    OutputIsMasked(p.data);
    MaskCovers(p.data);
    XorZipGrows(p.data.written, p.data.masked, p.data.written, MaskStream(p.mask));
  }

  lemma MaskCovers(d: State)
    ensures d.masked <= Mask(d) && d.delivered <= Output(d)
  {
  }

  // ----- the call returns -----

  predicate NoCall(events: seq<Event>) {
    forall i :: 0 <= i < |events| ==> events[i] != RecodeXorBuf
  }

  function BufSteps(events: seq<Event>): nat
    decreases |events|
  {
    if events == [] then 0
    else BufSteps(events[..|events| - 1]) + (if events[|events| - 1] == BufStep then 1 else 0)
  }

  /** Own steps that the call still takes at most once its amount is fixed. */
  function PairLeft(p: Pair): nat {
    RecoderLeft(p.data) + ReaderLeft(p.mask)
  }

  /** The call under way after k own steps, or its return. */
  predicate PairAfter(p: Pair, p': Pair, k: nat) {
    && !p'.mode.Loaded? && ReaderGoal(p'.mask) == ReaderGoal(p.mask)
    && PairLeft(p') <= Less(PairLeft(p), k)
  }

  lemma BufStepMoves(p: Pair)
    requires PairInv(p) && !p.mode.Loaded?
    ensures
      var p' := PairStep(p, BufStep);
      !p'.mode.Loaded? && ReaderGoal(p'.mask) == ReaderGoal(p.mask) && PairLeft(p') <= Less(PairLeft(p), 1)
  {
    if p.mode == Busy {
      RecoderKeeps(p.data);
      ReaderKeeps(p.mask);
      if HasByte(p.data.recoder) {
        XorKeeps(p);
        RecoderMoves(p.data);
        ReaderMoves(p.mask);
      } else if !RecoderFree(p.data) {
        if p.data.recoder == CIdle { NextCallMoves(p.data); } else { RecoderMoves(p.data); }
      } else {
        ReaderMoves(p.mask);
      }
    }
  }

  lemma PairMoves(p: Pair, mid: Pair, e: Event, k: nat)
    requires PairInv(mid) && PairAfter(p, mid, k) && e != RecodeXorBuf
    ensures PairAfter(p, PairStep(mid, e), if e == BufStep then k + 1 else k)
  {
    match e
    case OnData(a) => if DataOwn(a) { DataOthers(mid.data, a); }
    case OnMask(a) => if MaskOwn(a) { MaskOthers(mid.mask, a); }
    case BufStep => BufStepMoves(mid);
  }

  lemma LastEvent(p: Pair, events: seq<Event>, n: nat)
    requires |events| == n + 1
    ensures PairRun(p, events) == PairStep(PairRun(p, events[..n]), events[n])
    ensures BufSteps(events) == BufSteps(events[..n]) + (if events[n] == BufStep then 1 else 0)
  {
  }

  lemma {:induction false} PairRunMoves(p: Pair, events: seq<Event>)
    requires PairInv(p) && !p.mode.Loaded? && NoCall(events)
    ensures PairAfter(p, PairRun(p, events), BufSteps(events))
    decreases |events|
  {
    if events != [] {
      var n := |events| - 1;
      var mid, k := PairRun(p, events[..n]), BufSteps(events[..n]);
      PairRunMoves(p, events[..n]);
      PairRunKeeps(p, events[..n]);
      PairMoves(p, mid, events[n], k);
      LastEvent(p, events, n);
    }
  }

  lemma PairDone(p: Pair)
    requires PairInv(p) && PairLeft(p) == 0
    ensures p.mode != Busy && p.data.masked == p.mask.delivered && |p.mask.delivered| == ReaderGoal(p.mask)
  {
    ReaderDone(p.mask);
    RecoderDone(p.data);
  }

  /** Only the other stages of the two rings. */
  predicate OthersOnly(events: seq<Event>) {
    forall i :: 0 <= i < |events| ==> events[i].OnData? || events[i].OnMask?
  }

  /** They change neither what the call has loaded nor how far the mask bytes are used. */
  lemma {:induction false} OthersLeaveCall(p: Pair, events: seq<Event>)
    requires OthersOnly(events)
    ensures
      var p' := PairRun(p, events);
      && p'.mode == p.mode && p'.data.masked == p.data.masked
      && p'.mask.delivered == p.mask.delivered && p'.mask.reader == p.mask.reader
    decreases |events|
  {
    if events != [] {
      var n := |events| - 1;
      var mid := PairRun(p, events[..n]);
      OthersLeaveCall(p, events[..n]);
      match events[n]
      case OnData(a) => if DataOwn(a) { DataOthers(mid.data, a); }
      case OnMask(a) => if MaskOwn(a) { MaskOthers(mid.mask, a); }
    }
  }

  lemma FinishesFrom(p: Pair, events: seq<Event>)
    requires PairInv(p) && !p.mode.Loaded? && NoCall(events) && BufSteps(events) >= PairLeft(p)
    ensures
      var p' := PairRun(p, events);
      p'.mode == Free && |p'.mask.delivered| == ReaderGoal(p.mask) && p'.data.masked == p'.mask.delivered
  {
    PairRunMoves(p, events);
    PairRunKeeps(p, events);
    PairDone(PairRun(p, events));
  }

  /** From the second load on. */
  lemma FinishesFromLoad(p: Pair, events: seq<Event>, k: nat)
    requires PairInv(p) && p.mode.Loaded? && k == Min(p.mode.waiting, p.mask.canRead)
    requires NoCall(events) && BufSteps(events) >= 2 * k + 11
    ensures
      var p' := PairRun(PairStep(p, BufStep), events);
      && p'.mode == Free && |p'.mask.delivered| == |p.mask.delivered| + k
      && p'.data.masked == p'.mask.delivered
  {
    if k > 0 {
      BegunKeeps(p, k);
    } else {
      BeginKeeps(p);
      NothingLeft(p);
    }
    FinishesFrom(BufAdvance(p), events);
  }

  lemma NothingLeft(p: Pair)
    requires PairInv(p) && p.mode != Busy
    ensures PairLeft(p) == 0 && ReaderGoal(p.mask) == |p.mask.delivered|
  {
  }

  lemma CallLoads(p: Pair)
    requires PairInv(p) && p.mode == Free
    ensures |p.data.masked| <= |p.data.written|
    ensures
      var called := PairStep(p, RecodeXorBuf);
      && called.data == p.data && called.mask == p.mask && PairInv(called)
      && called.mode == if |p.data.written| == |p.data.masked| then Free else Loaded(|p.data.written| - |p.data.masked|)
  {
    PairStepKeeps(p, RecodeXorBuf);
    RecoderIdle(p);
    IdleCountersExact(p.data);
  }

  lemma RecoderIdle(p: Pair)
    requires PairInv(p) && p.mode != Busy
    ensures p.data.recoder == CIdle && p.mask.reader == RIdle && p.data.masked == p.mask.delivered
  {
  }

  /** What the call has loaded at its second load. */
  lemma LoadedFrom(p: Pair, between: seq<Event>)
    requires PairInv(p) && p.mode == Free && OthersOnly(between) && |p.data.masked| <= |p.data.written|
    ensures
      var loaded := PairRun(PairStep(p, RecodeXorBuf), between);
      && PairInv(loaded) && loaded.mask.delivered == p.mask.delivered && loaded.data.masked == p.data.masked
      && loaded.mask.canRead == |loaded.mask.masked| - |loaded.mask.delivered|
      && loaded.mode == if |p.data.written| == |p.data.masked| then Free else Loaded(|p.data.written| - |p.data.masked|)
  {
    var called := PairStep(p, RecodeXorBuf);
    CallLoads(p);
    OthersLeaveCall(called, between);
    PairRunKeeps(called, between);
    RecoderIdle(PairRun(called, between));
    IdleCountersExact(PairRun(called, between).mask);
  }

  /** A whole call.  Whatever the other stages of both rings do between its two loads and after them, it
      returns after a fixed number of its own steps, and then both rings stand k bytes further on: k is
      the smaller of what waits in the data ring when the call is made and what is readable in the mask
      ring at the second load.  When either is nothing, nothing moves. */
  lemma RecodeXorBufFinishes(p: Pair, between: seq<Event>, later: seq<Event>, k: nat)
    requires PairInv(p) && p.mode == Free && OthersOnly(between) && NoCall(later)
    requires
      var loaded := PairRun(PairStep(p, RecodeXorBuf), between);
      var waiting, readable := |p.data.written| - |p.data.masked|, |loaded.mask.masked| - |loaded.mask.delivered|;
      k == if waiting <= readable then waiting else readable
    requires BufSteps(later) >= 2 * k + 11
    ensures
      var loaded := PairRun(PairStep(p, RecodeXorBuf), between);
      var p' := PairRun(PairStep(loaded, BufStep), later);
      && p'.mode == Free
      && |p'.mask.delivered| == |p.mask.delivered| + k && |p'.data.masked| == |p.data.masked| + k
      && p'.data.masked == p'.mask.delivered
  {
    var loaded := PairRun(PairStep(p, RecodeXorBuf), between);
    CallLoads(p);
    LoadedFrom(p, between);
    RecoderIdle(p);
    if loaded.mode.Loaded? {
      FinishesFromLoad(loaded, later, k);
    } else {
      NothingLeft(loaded);
      FinishesFrom(loaded, later);
    }
  }

  // ----- between calls the two rings are two machines of module Pipeline -----

  function Events(actions: seq<Action>, onMask: bool): (events: seq<Event>)
    ensures |events| == |actions|
    decreases |actions|
  {
    if actions == [] then []
    else
      var a := actions[|actions| - 1];
      Events(actions[..|actions| - 1], onMask) + [if onMask then OnMask(a) else OnData(a)]
  }

  /** Calls and steps of the data ring's writer and reader do there what they do in a ring by itself. */
  lemma {:induction false} DataStagesRun(p: Pair, actions: seq<Action>)
    requires forall i :: 0 <= i < |actions| ==>
      actions[i].CallWrite? || actions[i].CallRead? || actions[i] == WriterStep || actions[i] == ReaderStep
    ensures PairRun(p, Events(actions, false)) == p.(data := Run(p.data, actions))
    decreases |actions|
  {
    if actions != [] {
      var n := |actions| - 1;
      DataStagesRun(p, actions[..n]);
      assert Events(actions, false)[..n] == Events(actions[..n], false);
    }
  }

  /** And so do those of the mask ring's writer and recoder. */
  lemma {:induction false} MaskStagesRun(p: Pair, actions: seq<Action>)
    requires forall i :: 0 <= i < |actions| ==> !actions[i].CallRead? && actions[i] != ReaderStep
    ensures PairRun(p, Events(actions, true)) == p.(mask := Run(p.mask, actions))
    decreases |actions|
  {
    if actions != [] {
      var n := |actions| - 1;
      MaskStagesRun(p, actions[..n]);
      assert Events(actions, true)[..n] == Events(actions[..n], true);
    }
  }
}
