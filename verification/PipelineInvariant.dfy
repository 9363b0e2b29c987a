/** The inductive invariant of the three-stage ring, stage by stage. */
module PipelineInvariant {
  import opened Bytes
  import opened Ring
  import opened Pipeline

  // ----- how far each stage has got, in bytes since the start -----

  /** Bytes that a stage works on and has not published yet. */
  function WriterSpan(s: State): nat {
    match s.writer case WCopy(src, _) => |src| case WPublish(src) => |src| case _ => 0
  }

  function RecoderSpan(s: State): nat {
    match s.recoder case CXor(mask, _) => |mask| case CPublish(mask) => |mask| case _ => 0
  }

  function ReaderSpan(s: State): nat {
    match s.reader case RCopy(n, _) => n case RPublish(dest) => |dest| case _ => 0
  }

  /** Bytes that a stage has published to the next one and not yet subtracted from its own counter. */
  function WriterInFlight(s: State): nat {
    match s.writer case WSubtract(n) => n case _ => 0
  }

  function RecoderInFlight(s: State): nat {
    match s.recoder case CSubtract(n) => n case _ => 0
  }

  function ReaderInFlight(s: State): nat {
    match s.reader case RSubtract(n) => n case _ => 0
  }

  function TodoBytes(todo: seq<seq<byte>>): nat {
    if todo == [] then 0 else |todo[0]| + TodoBytes(todo[1..])
  }

  /** The bytes put into the ring so far, published or not. */
  function Input(s: State): seq<byte> {
    match s.writer
    case WCopy(src, done) => if done <= |src| then s.written + src[..done] else s.written
    case WPublish(src) => s.written + src
    case _ => s.written
  }

  /** The mask bytes XORed into the ring so far, published or not. */
  function Mask(s: State): seq<byte> {
    match s.recoder
    case CXor(mask, done) => if done <= |mask| then s.masked + mask[..done] else s.masked
    case CPublish(mask) => s.masked + mask
    case _ => s.masked
  }

  /** The bytes copied out of the ring so far, released or not. */
  function Output(s: State): seq<byte> {
    match s.reader
    case RCopy(_, dest) => s.delivered + dest
    case RPublish(dest) => s.delivered + dest
    case _ => s.delivered
  }

  // ----- the invariant -----

  predicate OrderOk(s: State) {
    && 0 < |s.ring|
    && |s.delivered| + ReaderSpan(s) <= |s.masked|
    && |s.masked| + RecoderSpan(s) + TodoBytes(s.todo) <= |s.written|
    && |s.written| + WriterSpan(s) <= |s.delivered| + |s.ring|
    && WriterInFlight(s) <= |s.ring| && RecoderInFlight(s) <= |s.ring| && ReaderInFlight(s) <= |s.ring|
    && (s.writer.WCopy? ==> s.writer.done <= |s.writer.src|)
    && (s.recoder.CXor? ==> s.recoder.done <= |s.recoder.mask|)
    && (s.reader.RCopy? ==> |s.reader.dest| <= s.reader.n)
  }

  predicate CountersOk(s: State) {
    && s.canRecode + |s.masked| == |s.written| + RecoderInFlight(s)
    && s.canRead + |s.delivered| == |s.masked| + ReaderInFlight(s)
    && s.canWrite + |s.written| == |s.delivered| + |s.ring| + WriterInFlight(s)
  }

  predicate IndicesOk(s: State)
    requires |s.ring| > 0
  {
    && s.writeIdx == Slot(|s.written| + (if s.writer.WPublish? then |s.writer.src| else 0), |s.ring|)
    && s.recodeIdx == Slot(|s.masked| + (if s.recoder.CPublish? then |s.recoder.mask| else 0), |s.ring|)
    && s.readIdx == Slot(|s.delivered| + (if s.reader.RPublish? then |s.reader.dest| else 0), |s.ring|)
  }

  /** The stream as it must look in the ring: masked as far as the mask goes. */
  function Blend(input: seq<byte>, mask: seq<byte>): (stream: seq<byte>)
    ensures |stream| == |input|
    decreases |input|
  {
    if input == [] then []
    else
      var p := |input| - 1;
      Blend(input[..p], mask) + [if p < |mask| then Xor(input[p], mask[p]) else input[p]]
  }

  lemma {:induction false} BlendAt(input: seq<byte>, mask: seq<byte>, p: nat)
    requires p < |input|
    ensures Blend(input, mask)[p] == if p < |mask| then Xor(input[p], mask[p]) else input[p]
    decreases |input|
  {
    if p < |input| - 1 {
      BlendAt(input[..|input| - 1], mask, p);
    }
  }

  function Stream(s: State): seq<byte> {
    Blend(Input(s), Mask(s))
  }

  function Cell(ring: seq<byte>, p: nat): byte
    requires |ring| > 0
  {
    ring[Slot(p, |ring|)]
  }

  /** Every position between the last release and the last byte put in is in its slot. */
  ghost predicate BytesOk(ring: seq<byte>, stream: seq<byte>, released: nat)
    requires |ring| > 0
  {
    forall p: nat :: released <= p < |stream| ==> Cell(ring, p) == stream[p]
  }

  predicate PositionsOk(s: State) {
    OrderOk(s) && CountersOk(s) && IndicesOk(s)
  }

  ghost predicate Inv(s: State) {
    && PositionsOk(s)
    && BytesOk(s.ring, Stream(s), |s.delivered|)
    && Output(s) <= Stream(s)
  }

  // ----- what one byte does -----

  lemma BlendAppend(input: seq<byte>, mask: seq<byte>, x: byte)
    requires |mask| <= |input|
    ensures Blend(input + [x], mask) == Blend(input, mask) + [x]
  {
    assert (input + [x])[..|input|] == input;
  }

  lemma {:induction false} BlendXor(input: seq<byte>, mask: seq<byte>, m: byte)
    requires |mask| < |input|
    ensures Blend(input, mask)[|mask|] == input[|mask|]
    ensures Blend(input, mask + [m]) == Blend(input, mask)[|mask| := Xor(input[|mask|], m)]
    decreases |input|
  {
    var p := |input| - 1;
    if |mask| == p {
      BlendBeyond(input[..p], mask, m);
    } else {
      BlendXor(input[..p], mask, m);
    }
  }

  lemma {:induction false} BlendBeyond(input: seq<byte>, mask: seq<byte>, m: byte)
    requires |input| <= |mask|
    ensures Blend(input, mask + [m]) == Blend(input, mask)
    decreases |input|
  {
    if input != [] {
      BlendBeyond(input[..|input| - 1], mask, m);
    }
  }

  lemma ZeroMask(x: byte)
    ensures Xor(x, Byte(0)) == x
  {
  }

  lemma BlendZeros(input: seq<byte>, mask: seq<byte>, k: nat)
    ensures Blend(input, mask + Zeros(k)) == Blend(input, mask)
  {
    var now, then' := Blend(input, mask), Blend(input, mask + Zeros(k));
    forall p | 0 <= p < |input|
      ensures then'[p] == now[p]
    {
      BlendAt(input, mask, p);
      BlendAt(input, mask + Zeros(k), p);
      ZeroMask(input[p]);
    }
  }

  lemma BytesAppend(ring: seq<byte>, stream: seq<byte>, released: nat, x: byte)
    requires |ring| > 0 && BytesOk(ring, stream, released)
    requires released <= |stream| < released + |ring|
    ensures BytesOk(ring[Slot(|stream|, |ring|) := x], stream + [x], released)
  {
    forall p: nat | released <= p < |stream| + 1
      ensures Cell(ring[Slot(|stream|, |ring|) := x], p) == (stream + [x])[p]
    {
      if p < |stream| {
        SlotsApart(p, |stream|, |ring|);
        assert Cell(ring, p) == stream[p];
      }
    }
  }

  lemma BytesUpdate(ring: seq<byte>, stream: seq<byte>, released: nat, q: nat, x: byte)
    requires |ring| > 0 && BytesOk(ring, stream, released)
    requires released <= q < |stream| <= released + |ring|
    ensures BytesOk(ring[Slot(q, |ring|) := x], stream[q := x], released)
  {
    var ring', stream' := ring[Slot(q, |ring|) := x], stream[q := x];
    forall p: nat | released <= p < |stream'|
      ensures Cell(ring', p) == stream'[p]
    {
      assert Cell(ring, p) == stream[p];
      if p != q {
        SlotsApart(p, q, |ring|);
      }
    }
  }

  /** Steps that move no byte of the ring only have to keep the positions straight. */
  lemma QuietKeeps(s: State, s': State)
    requires Inv(s) && PositionsOk(s')
    requires s'.ring == s.ring && Stream(s') == Stream(s) && Output(s') == Output(s)
    requires |s.delivered| <= |s'.delivered|
    ensures Inv(s')
  {
    forall p: nat | |s'.delivered| <= p < |Stream(s')|
      ensures Cell(s'.ring, p) == Stream(s')[p]
    {
      assert Cell(s.ring, p) == Stream(s)[p];
    }
  }

  // ----- the writer -----

  lemma WriterCopyPositions(s: State)
    requires PositionsOk(s) && s.writer.WCopy? && s.writer.done < |s.writer.src|
    ensures WriterInBounds(s) && PositionsOk(WriterAdvance(s))
  {
  }

  lemma WriterCopyInput(s: State)
    requires s.writer.WCopy? && s.writer.done < |s.writer.src| && WriterInBounds(s)
    ensures |Input(s)| == |s.written| + s.writer.done
    ensures Input(WriterAdvance(s)) == Input(s) + [s.writer.src[s.writer.done]]
    ensures Mask(WriterAdvance(s)) == Mask(s)
  {
    var src, done := s.writer.src, s.writer.done;
    assert s.written + src[..done + 1] == (s.written + src[..done]) + [src[done]];
  }

  lemma WriterCopyStream(s: State)
    requires s.writer.WCopy? && s.writer.done < |s.writer.src| && WriterInBounds(s)
    requires |Mask(s)| <= |s.written|
    ensures |Stream(s)| == |s.written| + s.writer.done
    ensures Stream(WriterAdvance(s)) == Stream(s) + [s.writer.src[s.writer.done]]
  {
    WriterCopyInput(s);
    BlendAppend(Input(s), Mask(s), s.writer.src[s.writer.done]);
  }

  lemma WriterCopyBytes(s: State)
    requires s.writer.WCopy? && s.writer.done < |s.writer.src| && WriterInBounds(s) && |s.ring| > 0
    requires s.writeIdx == Slot(|s.written|, |s.ring|)
    requires |Mask(s)| <= |s.written| && |s.delivered| <= |s.written|
    requires |s.written| + |s.writer.src| <= |s.delivered| + |s.ring|
    requires BytesOk(s.ring, Stream(s), |s.delivered|)
    ensures
      var s' := WriterAdvance(s);
      |s'.ring| > 0 && BytesOk(s'.ring, Stream(s'), |s.delivered|) && Stream(s) <= Stream(s')
  {
    var src, done := s.writer.src, s.writer.done;
    WriterCopyStream(s);
    PlaceIsSlot(|s.written|, |src|, |s.ring|, done);
    BytesAppend(s.ring, Stream(s), |s.delivered|, src[done]);
  }

  lemma WriterFinishPositions(s: State)
    requires PositionsOk(s) && s.writer.WCopy? && s.writer.done >= |s.writer.src|
    ensures WriterInBounds(s) && PositionsOk(WriterAdvance(s))
  {
    NextIsSlot(|s.written|, |s.writer.src|, |s.ring|);
  }

  lemma WriterFinishKeeps(s: State)
    requires Inv(s) && s.writer.WCopy? && s.writer.done >= |s.writer.src|
    ensures WriterInBounds(s) && Inv(WriterAdvance(s))
  {
    WriterFinishPositions(s);
    assert s.writer.src[..s.writer.done] == s.writer.src;
    QuietKeeps(s, WriterAdvance(s));
  }

  lemma WriterCounterPositions(s: State)
    requires PositionsOk(s) && !s.writer.WCopy?
    ensures WriterInBounds(s) && PositionsOk(WriterAdvance(s))
  {
  }

  lemma WriterCounterKeeps(s: State)
    requires Inv(s) && !s.writer.WCopy?
    ensures WriterInBounds(s) && Inv(WriterAdvance(s))
  {
    WriterCounterPositions(s);
    QuietKeeps(s, WriterAdvance(s));
  }

  lemma WriterKeeps(s: State)
    requires Inv(s)
    ensures WriterInBounds(s) && Inv(WriterAdvance(s))
  {
    if !s.writer.WCopy? {
      WriterCounterKeeps(s);
    } else if s.writer.done < |s.writer.src| {
      WriterCopyPositions(s);
      WriterCopyBytes(s);
    } else {
      WriterFinishKeeps(s);
    }
  }

  lemma BeginWritePositions(s: State, src: seq<byte>)
    requires PositionsOk(s) && s.writer == WIdle
    ensures PositionsOk(BeginWrite(s, src))
  {
  }

  lemma BeginWriteKeeps(s: State, src: seq<byte>)
    requires Inv(s) && s.writer == WIdle
    ensures Inv(BeginWrite(s, src))
  {
    BeginWritePositions(s, src);
    assert s.written + src[..0] == s.written;
    QuietKeeps(s, BeginWrite(s, src));
  }

  // ----- the recoder -----

  lemma RecoderXorPositions(s: State)
    requires PositionsOk(s) && s.recoder.CXor? && s.recoder.done < |s.recoder.mask|
    ensures RecoderInBounds(s) && PositionsOk(RecoderAdvance(s))
  {
  }

  lemma RecoderXorStream(s: State)
    requires s.recoder.CXor? && s.recoder.done < |s.recoder.mask| && RecoderInBounds(s)
    requires |s.masked| + |s.recoder.mask| <= |Input(s)|
    ensures
      var q := |s.masked| + s.recoder.done;
      && Stream(s)[q] == Input(s)[q]
      && Stream(RecoderAdvance(s)) == Stream(s)[q := Xor(Stream(s)[q], s.recoder.mask[s.recoder.done])]
  {
    var mask, done := s.recoder.mask, s.recoder.done;
    assert s.masked + mask[..done + 1] == (s.masked + mask[..done]) + [mask[done]];
    BlendXor(Input(s), Mask(s), mask[done]);
  }

  lemma RecoderXorRing(s: State)
    requires s.recoder.CXor? && s.recoder.done < |s.recoder.mask| && RecoderInBounds(s)
    requires s.recodeIdx == Slot(|s.masked|, |s.ring|)
    ensures
      var q := |s.masked| + s.recoder.done;
      RecoderAdvance(s).ring == s.ring[Slot(q, |s.ring|) := Xor(Cell(s.ring, q), s.recoder.mask[s.recoder.done])]
  {
    PlaceIsSlot(|s.masked|, |s.recoder.mask|, |s.ring|, s.recoder.done);
  }

  lemma RecoderXorBytes(s: State)
    requires s.recoder.CXor? && s.recoder.done < |s.recoder.mask| && RecoderInBounds(s) && |s.ring| > 0
    requires s.recodeIdx == Slot(|s.masked|, |s.ring|)
    requires |s.delivered| <= |s.masked| && |s.masked| + |s.recoder.mask| <= |Input(s)| <= |s.delivered| + |s.ring|
    requires BytesOk(s.ring, Stream(s), |s.delivered|)
    ensures
      var s' := RecoderAdvance(s);
      |s'.ring| > 0 && BytesOk(s'.ring, Stream(s'), |s.delivered|)
  {
    var q := |s.masked| + s.recoder.done;
    RecoderXorStream(s);
    RecoderXorRing(s);
    assert Cell(s.ring, q) == Stream(s)[q];
    BytesUpdate(s.ring, Stream(s), |s.delivered|, q, Xor(Stream(s)[q], s.recoder.mask[s.recoder.done]));
  }

  lemma RecoderXorOutput(s: State)
    requires s.recoder.CXor? && s.recoder.done < |s.recoder.mask| && RecoderInBounds(s)
    requires |s.masked| + |s.recoder.mask| <= |Input(s)| && |Output(s)| <= |s.masked|
    requires Output(s) <= Stream(s)
    ensures Output(RecoderAdvance(s)) <= Stream(RecoderAdvance(s))
  {
    RecoderXorStream(s);
  }

  lemma RecoderFinishPositions(s: State)
    requires PositionsOk(s) && s.recoder.CXor? && s.recoder.done >= |s.recoder.mask|
    ensures RecoderInBounds(s) && PositionsOk(RecoderAdvance(s))
  {
    NextIsSlot(|s.masked|, |s.recoder.mask|, |s.ring|);
  }

  lemma RecoderFinishKeeps(s: State)
    requires Inv(s) && s.recoder.CXor? && s.recoder.done >= |s.recoder.mask|
    ensures RecoderInBounds(s) && Inv(RecoderAdvance(s))
  {
    RecoderFinishPositions(s);
    assert s.recoder.mask[..s.recoder.done] == s.recoder.mask;
    QuietKeeps(s, RecoderAdvance(s));
  }

  lemma RecoderCounterPositions(s: State)
    requires PositionsOk(s) && (s.recoder.CPublish? || s.recoder.CSubtract?)
    ensures RecoderInBounds(s) && PositionsOk(RecoderAdvance(s))
  {
  }

  lemma RecoderCounterKeeps(s: State)
    requires Inv(s) && (s.recoder.CPublish? || s.recoder.CSubtract?)
    ensures RecoderInBounds(s) && Inv(RecoderAdvance(s))
  {
    RecoderCounterPositions(s);
    QuietKeeps(s, RecoderAdvance(s));
  }

  lemma NextCallPositions(s: State)
    requires PositionsOk(s) && s.recoder == CIdle && s.todo != []
    ensures PositionsOk(RecoderAdvance(s))
  {
  }

  lemma NextCallKeeps(s: State)
    requires Inv(s) && s.recoder == CIdle && s.todo != []
    ensures Inv(RecoderAdvance(s))
  {
    NextCallPositions(s);
    assert s.masked + s.todo[0][..Min(s.canRecode, |s.todo[0]|)][..0] == s.masked;
    QuietKeeps(s, RecoderAdvance(s));
  }

  lemma RecoderXorKeeps(s: State)
    requires Inv(s) && s.recoder.CXor? && s.recoder.done < |s.recoder.mask|
    ensures RecoderInBounds(s) && Inv(RecoderAdvance(s))
  {
    RecoderXorPositions(s);
    RecoderXorBytes(s);
    RecoderXorOutput(s);
  }

  lemma RecoderKeeps(s: State)
    requires Inv(s)
    ensures RecoderInBounds(s) && Inv(RecoderAdvance(s))
  {
    if s.recoder == CIdle {
      if s.todo != [] { NextCallKeeps(s); }
    } else if !s.recoder.CXor? {
      RecoderCounterKeeps(s);
    } else if s.recoder.done < |s.recoder.mask| {
      RecoderXorKeeps(s);
    } else {
      RecoderFinishKeeps(s);
    }
  }

  lemma BeginRecodePositions(s: State, mask: seq<byte>)
    requires PositionsOk(s) && RecoderFree(s)
    ensures PositionsOk(BeginRecode(s, mask))
  {
  }

  lemma BeginRecodeKeeps(s: State, mask: seq<byte>)
    requires Inv(s) && RecoderFree(s)
    ensures Inv(BeginRecode(s, mask))
  {
    BeginRecodePositions(s, mask);
    assert s.masked + mask[..Min(s.canRecode, |mask|)][..0] == s.masked;
    QuietKeeps(s, BeginRecode(s, mask));
  }

  lemma BeginRecodeNoMaskPositions(s: State, max: nat)
    requires PositionsOk(s) && RecoderFree(s)
    ensures PositionsOk(BeginRecodeNoMask(s, max))
  {
  }

  lemma BeginRecodeNoMaskKeeps(s: State, max: nat)
    requires Inv(s) && RecoderFree(s)
    ensures Inv(BeginRecodeNoMask(s, max))
  {
    BeginRecodeNoMaskPositions(s, max);
    var n := Min(s.canRecode, max);
    assert Zeros(n)[..n] == Zeros(n);
    BlendZeros(Input(s), s.masked, n);
    QuietKeeps(s, BeginRecodeNoMask(s, max));
  }

  /** No inner call reads past the end of the mask ring: a stretch that wraps is read in two calls, the
      first up to the end, the second from the start and not into what the first has read. */
  lemma CallsStayInside(mask: seq<byte>, start: nat, total: nat)
    requires start < total && |mask| <= total
    ensures
      var calls := BufCalls(mask, start, total);
      if start + |mask| <= total then calls == [mask]
      else |calls| == 2 && calls[0] + calls[1] == mask && start + |calls[0]| == total && 0 < |calls[1]| <= start
  {
  }

  /** The calls made for a recode from a second ring ask for the mask bytes, no more and no less. */
  lemma TodoOfCalls(mask: seq<byte>, start: nat, total: nat)
    ensures TodoBytes(BufCalls(mask, start, total)) == |mask|
  {
    var calls := BufCalls(mask, start, total);
    if |calls| == 2 {
      assert TodoBytes(calls) == |calls[0]| + TodoBytes(calls[1..]);
      assert TodoBytes(calls[1..]) == |calls[1]| + TodoBytes(calls[1..][1..]);
    } else {
      assert TodoBytes(calls) == |calls[0]| + TodoBytes(calls[1..]);
    }
  }

  lemma BeginRecodeBufPositions(s: State, available: seq<byte>, start: nat, total: nat)
    requires PositionsOk(s) && RecoderFree(s)
    ensures PositionsOk(BeginRecodeBuf(s, available, start, total))
  {
    TodoOfCalls(available[..Min(s.canRecode, |available|)], start, total);
  }

  lemma BeginRecodeBufKeeps(s: State, available: seq<byte>, start: nat, total: nat)
    requires Inv(s) && RecoderFree(s)
    ensures Inv(BeginRecodeBuf(s, available, start, total))
  {
    BeginRecodeBufPositions(s, available, start, total);
    QuietKeeps(s, BeginRecodeBuf(s, available, start, total));
  }

  // ----- the reader -----

  lemma ReaderCopyPositions(s: State)
    requires PositionsOk(s) && s.reader.RCopy? && |s.reader.dest| < s.reader.n
    ensures ReaderInBounds(s) && PositionsOk(ReaderAdvance(s))
  {
  }

  lemma NextByte(out: seq<byte>, stream: seq<byte>)
    requires out <= stream && |out| < |stream|
    ensures out + [stream[|out|]] <= stream
  {
  }

  lemma ReaderCopyBytes(s: State)
    requires s.reader.RCopy? && |s.reader.dest| < s.reader.n && ReaderInBounds(s) && |s.ring| > 0
    requires s.readIdx == Slot(|s.delivered|, |s.ring|)
    requires |s.delivered| + s.reader.n <= |Input(s)|
    requires BytesOk(s.ring, Stream(s), |s.delivered|) && Output(s) <= Stream(s)
    ensures Output(ReaderAdvance(s)) <= Stream(s)
  {
    var n, dest := s.reader.n, s.reader.dest;
    var p := |s.delivered| + |dest|;
    PlaceIsSlot(|s.delivered|, n, |s.ring|, |dest|);
    assert Cell(s.ring, p) == Stream(s)[p];
    NextByte(Output(s), Stream(s));
    assert s.delivered + (dest + [Stream(s)[p]]) == Output(s) + [Stream(s)[p]];
  }

  lemma ReaderFinishPositions(s: State)
    requires PositionsOk(s) && s.reader.RCopy? && |s.reader.dest| >= s.reader.n
    ensures ReaderInBounds(s) && PositionsOk(ReaderAdvance(s))
  {
    NextIsSlot(|s.delivered|, s.reader.n, |s.ring|);
  }

  lemma ReaderFinishKeeps(s: State)
    requires Inv(s) && s.reader.RCopy? && |s.reader.dest| >= s.reader.n
    ensures ReaderInBounds(s) && Inv(ReaderAdvance(s))
  {
    ReaderFinishPositions(s);
    QuietKeeps(s, ReaderAdvance(s));
  }

  lemma ReaderCounterPositions(s: State)
    requires PositionsOk(s) && !s.reader.RCopy?
    ensures ReaderInBounds(s) && PositionsOk(ReaderAdvance(s))
  {
  }

  lemma ReaderCounterKeeps(s: State)
    requires Inv(s) && !s.reader.RCopy?
    ensures ReaderInBounds(s) && Inv(ReaderAdvance(s))
  {
    ReaderCounterPositions(s);
    QuietKeeps(s, ReaderAdvance(s));
  }

  lemma ReaderKeeps(s: State)
    requires Inv(s)
    ensures ReaderInBounds(s) && Inv(ReaderAdvance(s))
  {
    if !s.reader.RCopy? {
      ReaderCounterKeeps(s);
    } else if |s.reader.dest| < s.reader.n {
      ReaderCopyPositions(s);
      ReaderCopyBytes(s);
    } else {
      ReaderFinishKeeps(s);
    }
  }

  lemma BeginReadPositions(s: State, max: nat)
    requires PositionsOk(s) && s.reader == RIdle
    ensures PositionsOk(BeginRead(s, max))
  {
  }

  lemma BeginReadKeeps(s: State, max: nat)
    requires Inv(s) && s.reader == RIdle
    ensures Inv(BeginRead(s, max))
  {
    BeginReadPositions(s, max);
    QuietKeeps(s, BeginRead(s, max));
  }

  // ----- steps and runs -----

  lemma StepKeeps(s: State, a: Action)
    requires Inv(s)
    ensures Inv(Step(s, a))
  {
    match a
    case CallWrite(src) => if s.writer == WIdle { BeginWriteKeeps(s, src); }
    case CallRecode(mask) => if RecoderFree(s) { BeginRecodeKeeps(s, mask); }
    case CallRecodeNoMask(max) => if RecoderFree(s) { BeginRecodeNoMaskKeeps(s, max); }
    case CallRecodeBuf(available, start, total) =>
      if RecoderFree(s) { BeginRecodeBufKeeps(s, available, start, total); }
    case CallRead(max) => if s.reader == RIdle { BeginReadKeeps(s, max); }
    case WriterStep => WriterKeeps(s);
    case RecoderStep => RecoderKeeps(s);
    case ReaderStep => ReaderKeeps(s);
  }

  lemma InitHolds(ring: seq<byte>)
    requires |ring| > 0
    ensures Inv(Init(ring))
  {
  }

  lemma {:induction false} RunKeeps(s: State, actions: seq<Action>)
    requires Inv(s)
    ensures Inv(Run(s, actions)) && |Run(s, actions).ring| == |s.ring|
    decreases |actions|
  {
    if actions != [] {
      var before := actions[..|actions| - 1];
      RunKeeps(s, before);
      StepKeeps(Run(s, before), actions[|actions| - 1]);
      SameSize(Run(s, before), actions[|actions| - 1]);
    }
  }

  lemma SameSize(s: State, a: Action)
    ensures |Step(s, a).ring| == |s.ring|
  {
  }
}
