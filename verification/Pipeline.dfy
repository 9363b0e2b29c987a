/**
 The byte ring as a machine of three interleaved stages: one writer, one recoder, one reader.

 One step is one atomic access or the copying or recoding of one byte; interleaving is
 sequentially consistent.  `written`, `masked` and `delivered` record history: the bytes that the
 writer has published, the mask bytes that went into the bytes the recoder has published (zeros
 where the caller gave no mask), and the bytes that the reader has released.  No step looks at them.
 */
module Pipeline {
  import opened Bytes
  import opened Ring

  datatype Writer =
    | WIdle
    | WCopy(src: seq<byte>, done: nat)
    | WPublish(src: seq<byte>)
    | WSubtract(n: nat)

  datatype Recoder =
    | CIdle
    | CXor(mask: seq<byte>, done: nat)
    | CPublish(mask: seq<byte>)
    | CSubtract(n: nat)

  datatype Reader =
    | RIdle
    | RCopy(n: nat, dest: seq<byte>)
    | RPublish(dest: seq<byte>)
    | RSubtract(n: nat)

  /** `todo` holds the masks of the calls that a recode from a second ring has still to make. */
  datatype State = State(
    ring: seq<byte>,
    canWrite: nat,
    canRecode: nat,
    canRead: nat,
    writeIdx: nat,
    recodeIdx: nat,
    readIdx: nat,
    writer: Writer,
    recoder: Recoder,
    todo: seq<seq<byte>>,
    reader: Reader,
    written: seq<byte>,
    masked: seq<byte>,
    delivered: seq<byte>)

  /** The calls that the three threads make, and the steps of a call under way. */
  datatype Action =
    | CallWrite(src: seq<byte>)
    | CallRecode(mask: seq<byte>)
    | CallRecodeNoMask(max: nat)
    | CallRecodeBuf(available: seq<byte>, start: nat, total: nat)
    | CallRead(max: nat)
    | WriterStep
    | RecoderStep
    | ReaderStep

  function Zeros(n: nat): seq<byte> {
    seq(n, i => Byte(0))
  }

  // ----- the writer -----

  function BeginWrite(s: State, src: seq<byte>): State {
    if s.canWrite == 0 then s
    else s.(writer := WCopy(src[..Min(s.canWrite, |src|)], 0))
  }

  function WriterAdvance(s: State): State
    requires WriterInBounds(s)
  {
    match s.writer
    case WIdle => s
    case WCopy(src, done) =>
      if done < |src| then
        var slot := Place(s.writeIdx, |src|, |s.ring|, done);
        s.(ring := s.ring[slot := src[done]], writer := WCopy(src, done + 1))
      else
        s.(writeIdx := NextIdx(s.writeIdx, |src|, |s.ring|), writer := WPublish(src))
    case WPublish(src) =>
      s.(canRecode := s.canRecode + |src|, writer := WSubtract(|src|), written := s.written + src)
    case WSubtract(n) =>
      s.(canWrite := s.canWrite - n, writer := WIdle)
  }

  predicate WriterInBounds(s: State) {
    match s.writer
    case WCopy(src, _) => s.writeIdx < |s.ring| && |src| <= |s.ring|
    case WSubtract(n) => n <= s.canWrite
    case _ => true
  }

  // ----- the recoder -----

  function BeginRecode(s: State, mask: seq<byte>): State {
    if s.canRecode == 0 then s
    else s.(recoder := CXor(mask[..Min(s.canRecode, |mask|)], 0))
  }

  /** Without a mask the bytes stay as they are: the transfer is complete from the start. */
  function BeginRecodeNoMask(s: State, max: nat): State {
    if s.canRecode == 0 then s
    else
      var n := Min(s.canRecode, max);
      s.(recoder := CXor(Zeros(n), n))
  }

  /** The calls that recoding from a second ring makes: one, or two when the mask bytes wrap. */
  function BufCalls(mask: seq<byte>, start: nat, total: nat): seq<seq<byte>> {
    if start + |mask| > total && start <= total && total - start <= |mask| then
      [mask[..total - start], mask[total - start..]]
    else
      [mask]
  }

  function BeginRecodeBuf(s: State, available: seq<byte>, start: nat, total: nat): State {
    if s.canRecode == 0 || available == [] then s
    else s.(todo := BufCalls(available[..Min(s.canRecode, |available|)], start, total))
  }

  function RecoderAdvance(s: State): State
    requires RecoderInBounds(s)
  {
    match s.recoder
    case CIdle =>
      if s.todo == [] then s else BeginRecode(s, s.todo[0]).(todo := s.todo[1..])
    case CXor(mask, done) =>
      if done < |mask| then
        var slot := Place(s.recodeIdx, |mask|, |s.ring|, done);
        s.(ring := s.ring[slot := Xor(s.ring[slot], mask[done])], recoder := CXor(mask, done + 1))
      else
        s.(recodeIdx := NextIdx(s.recodeIdx, |mask|, |s.ring|), recoder := CPublish(mask))
    case CPublish(mask) =>
      s.(canRead := s.canRead + |mask|, recoder := CSubtract(|mask|), masked := s.masked + mask)
    case CSubtract(n) =>
      s.(canRecode := s.canRecode - n, recoder := CIdle)
  }

  predicate RecoderInBounds(s: State) {
    match s.recoder
    case CXor(mask, _) => s.recodeIdx < |s.ring| && |mask| <= |s.ring|
    case CSubtract(n) => n <= s.canRecode
    case _ => true
  }

  // ----- the reader -----

  function BeginRead(s: State, max: nat): State {
    if s.canRead == 0 then s
    else s.(reader := RCopy(Min(s.canRead, max), []))
  }

  function ReaderAdvance(s: State): State
    requires ReaderInBounds(s)
  {
    match s.reader
    case RIdle => s
    case RCopy(n, dest) =>
      if |dest| < n then
        var slot := Place(s.readIdx, n, |s.ring|, |dest|);
        s.(reader := RCopy(n, dest + [s.ring[slot]]))
      else
        s.(readIdx := NextIdx(s.readIdx, n, |s.ring|), reader := RPublish(dest))
    case RPublish(dest) =>
      s.(canWrite := s.canWrite + |dest|, reader := RSubtract(|dest|), delivered := s.delivered + dest)
    case RSubtract(n) =>
      s.(canRead := s.canRead - n, reader := RIdle)
  }

  predicate ReaderInBounds(s: State) {
    match s.reader
    case RCopy(n, _) => s.readIdx < |s.ring| && n <= |s.ring|
    case RSubtract(n) => n <= s.canRead
    case _ => true
  }

  // ----- runs -----

  predicate RecoderFree(s: State) {
    s.recoder == CIdle && s.todo == []
  }

  /** One step of the machine; an action that does not apply leaves the state alone. */
  function Step(s: State, a: Action): State {
    match a
    case CallWrite(src) => if s.writer == WIdle then BeginWrite(s, src) else s
    case CallRecode(mask) => if RecoderFree(s) then BeginRecode(s, mask) else s
    case CallRecodeNoMask(max) => if RecoderFree(s) then BeginRecodeNoMask(s, max) else s
    case CallRecodeBuf(available, start, total) =>
      if RecoderFree(s) then BeginRecodeBuf(s, available, start, total) else s
    case CallRead(max) => if s.reader == RIdle then BeginRead(s, max) else s
    case WriterStep => if WriterInBounds(s) then WriterAdvance(s) else s
    case RecoderStep => if RecoderInBounds(s) then RecoderAdvance(s) else s
    case ReaderStep => if ReaderInBounds(s) then ReaderAdvance(s) else s
  }

  function Run(s: State, actions: seq<Action>): State
    decreases |actions|
  {
    if actions == [] then s
    else Step(Run(s, actions[..|actions| - 1]), actions[|actions| - 1])
  }

  /** A fresh ring over whatever bytes its region holds. */
  function Init(ring: seq<byte>): State {
    State(ring, |ring|, 0, 0, 0, 0, 0, WIdle, CIdle, [], RIdle, [], [], [])
  }
}
