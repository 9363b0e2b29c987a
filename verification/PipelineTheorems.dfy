/** What the three-stage ring guarantees over every run. */
module PipelineTheorems {
  import opened Bytes
  import opened Ring
  import opened Pipeline
  import opened PipelineInvariant

  // ----- the stream law -----

  lemma OutputIsMasked(s: State)
    requires Inv(s)
    ensures Output(s) <= XorZip(s.written, s.masked)
  {
    forall i | 0 <= i < |Output(s)|
      ensures Output(s)[i] == XorZip(s.written, s.masked)[i]
    {
      BlendAt(Input(s), Mask(s), i);
      XorZipAt(s.written, s.masked, i);
      assert Output(s)[i] == Stream(s)[i];
    }
  }

  /** Over every run, the bytes that have come out are a prefix of the written stream XORed with the
      consumed mask stream: nothing is lost, repeated, reordered, masked twice or read unmasked. */
  lemma StreamLaw(ring: seq<byte>, actions: seq<Action>)
    requires |ring| > 0
    ensures
      var s := Run(Init(ring), actions);
      && s.delivered <= Output(s) <= XorZip(s.written, s.masked)
      && |s.delivered| <= |s.masked| <= |s.written| <= |s.delivered| + |s.ring|
  {
    InitHolds(ring);
    RunKeeps(Init(ring), actions);
    OutputIsMasked(Run(Init(ring), actions));
  }

  /** XORing what has come out with the same mask stream once more gives back the written bytes. */
  lemma XorBack(ring: seq<byte>, actions: seq<Action>)
    requires |ring| > 0
    ensures
      var s := Run(Init(ring), actions);
      |s.delivered| <= |s.written| && XorZip(s.delivered, s.masked) == s.written[..|s.delivered|]
  {
    var s := Run(Init(ring), actions);
    StreamLaw(ring, actions);
    XorBackPrefix(s.delivered, s.written, s.masked);
  }

  lemma XorBackPrefix(out: seq<byte>, input: seq<byte>, mask: seq<byte>)
    requires out <= XorZip(input, mask)
    ensures |out| <= |input| && XorZip(out, mask) == input[..|out|]
  {
    var zip, back := XorZip(input, mask), XorZip(out, mask);
    XorZipTwice(input, mask);
    forall i | 0 <= i < |out|
      ensures back[i] == input[i]
    {
      XorZipAt(out, mask, i);
      XorZipAt(zip, mask, i);
    }
  }

  /** Nothing stays behind: when the reader has emptied its stage and the recoder its own, everything
      that was written has come out. */
  lemma DrainedMeansDelivered(s: State)
    requires Inv(s) && RecoderFree(s) && s.reader == RIdle
    requires s.canRecode == 0 && s.canRead == 0
    ensures s.delivered == XorZip(s.written, s.masked) && |s.delivered| == |s.written|
  {
    OutputIsMasked(s);
  }

  /** Two rings in a row with the same mask stream give the original bytes back, whatever their sizes
      and however writes, recodes and reads are cut up and interleaved in each of them. */
  lemma EncodeDecode(ring1: seq<byte>, actions1: seq<Action>, ring2: seq<byte>, actions2: seq<Action>,
                     mask: seq<byte>)
    requires |ring1| > 0 && |ring2| > 0
    requires Run(Init(ring1), actions1).masked <= mask
    requires Run(Init(ring2), actions2).masked <= mask
    requires Run(Init(ring2), actions2).written <= Run(Init(ring1), actions1).delivered
    ensures Run(Init(ring2), actions2).delivered <= Run(Init(ring1), actions1).written
  {
    var s1, s2 := Run(Init(ring1), actions1), Run(Init(ring2), actions2);
    StreamLaw(ring1, actions1);
    StreamLaw(ring2, actions2);
    forall i | 0 <= i < |s2.delivered|
      ensures s2.delivered[i] == s1.written[i]
    {
      XorZipAt(s1.written, s1.masked, i);
      XorZipAt(s2.written, s2.masked, i);
      assert s2.delivered[i] == XorZip(s2.written, s2.masked)[i] == Xor(s2.written[i], mask[i]);
      assert s2.written[i] == s1.delivered[i] == XorZip(s1.written, s1.masked)[i] == Xor(s1.written[i], mask[i]);
      XorCancels(s1.written[i], mask[i]);
    }
  }

  // ----- the stages keep out of each other's way -----

  /** The slots that the three stages may be working on are pairwise different, also while counters
      count bytes twice between a publication and its subtraction. */
  lemma WriterApartFromRecoder(s: State, i: nat, j: nat)
    requires Inv(s) && s.writer.WCopy? && s.recoder.CXor?
    requires i < |s.writer.src| && j < |s.recoder.mask|
    ensures WriterInBounds(s) && RecoderInBounds(s)
    ensures Place(s.writeIdx, |s.writer.src|, |s.ring|, i) != Place(s.recodeIdx, |s.recoder.mask|, |s.ring|, j)
  {
    PlaceIsSlot(|s.written|, |s.writer.src|, |s.ring|, i);
    PlaceIsSlot(|s.masked|, |s.recoder.mask|, |s.ring|, j);
    SlotsApart(|s.written| + i, |s.masked| + j, |s.ring|);
  }

  lemma WriterApartFromReader(s: State, i: nat, j: nat)
    requires Inv(s) && s.writer.WCopy? && s.reader.RCopy?
    requires i < |s.writer.src| && j < s.reader.n
    ensures WriterInBounds(s) && ReaderInBounds(s)
    ensures Place(s.writeIdx, |s.writer.src|, |s.ring|, i) != Place(s.readIdx, s.reader.n, |s.ring|, j)
  {
    PlaceIsSlot(|s.written|, |s.writer.src|, |s.ring|, i);
    PlaceIsSlot(|s.delivered|, s.reader.n, |s.ring|, j);
    SlotsApart(|s.written| + i, |s.delivered| + j, |s.ring|);
  }

  lemma RecoderApartFromReader(s: State, i: nat, j: nat)
    requires Inv(s) && s.recoder.CXor? && s.reader.RCopy?
    requires i < |s.recoder.mask| && j < s.reader.n
    ensures RecoderInBounds(s) && ReaderInBounds(s)
    ensures Place(s.recodeIdx, |s.recoder.mask|, |s.ring|, i) != Place(s.readIdx, s.reader.n, |s.ring|, j)
  {
    PlaceIsSlot(|s.masked|, |s.recoder.mask|, |s.ring|, i);
    PlaceIsSlot(|s.delivered|, s.reader.n, |s.ring|, j);
    SlotsApart(|s.masked| + i, |s.delivered| + j, |s.ring|);
  }

  predicate WriterWrites(s: State, a: Action, slot: nat) {
    && a.WriterStep? && s.writer.WCopy? && s.writer.done < |s.writer.src|
    && WriterInBounds(s) && slot == Place(s.writeIdx, |s.writer.src|, |s.ring|, s.writer.done)
  }

  predicate RecoderWrites(s: State, a: Action, slot: nat) {
    && a.RecoderStep? && s.recoder.CXor? && s.recoder.done < |s.recoder.mask|
    && RecoderInBounds(s) && slot == Place(s.recodeIdx, |s.recoder.mask|, |s.ring|, s.recoder.done)
  }

  /** A byte of the ring changes only under the writer's or the recoder's copying step. */
  lemma OnlyCopiesWrite(s: State, a: Action, slot: nat)
    requires slot < |s.ring|
    ensures |Step(s, a).ring| == |s.ring|
    ensures Step(s, a).ring[slot] == s.ring[slot] || WriterWrites(s, a, slot) || RecoderWrites(s, a, slot)
  {
  }

  /** No step of the other stages changes a byte that the reader is copying out. */
  lemma ReadRangeUndisturbed(s: State, a: Action, j: nat)
    requires Inv(s) && s.reader.RCopy? && j < s.reader.n && !a.ReaderStep?
    ensures ReaderInBounds(s)
    ensures
      var slot := Place(s.readIdx, s.reader.n, |s.ring|, j);
      slot < |s.ring| == |Step(s, a).ring| && Step(s, a).ring[slot] == s.ring[slot]
  {
    PlaceIsSlot(|s.delivered|, s.reader.n, |s.ring|, j);
    var slot := Place(s.readIdx, s.reader.n, |s.ring|, j);
    OnlyCopiesWrite(s, a, slot);
    if WriterWrites(s, a, slot) {
      WriterApartFromReader(s, s.writer.done, j);
    } else if RecoderWrites(s, a, slot) {
      RecoderApartFromReader(s, s.recoder.done, j);
    }
  }

  /** No step of the other stages changes a byte that the recoder is masking. */
  lemma RecodeRangeUndisturbed(s: State, a: Action, j: nat)
    requires Inv(s) && s.recoder.CXor? && j < |s.recoder.mask| && !a.RecoderStep?
    ensures RecoderInBounds(s)
    ensures
      var slot := Place(s.recodeIdx, |s.recoder.mask|, |s.ring|, j);
      slot < |s.ring| == |Step(s, a).ring| && Step(s, a).ring[slot] == s.ring[slot]
  {
    PlaceIsSlot(|s.masked|, |s.recoder.mask|, |s.ring|, j);
    var slot := Place(s.recodeIdx, |s.recoder.mask|, |s.ring|, j);
    OnlyCopiesWrite(s, a, slot);
    if WriterWrites(s, a, slot) {
      WriterApartFromRecoder(s, s.writer.done, j);
    }
  }

  // ----- the counters -----

  /** In every reachable state the counters add up to the size of the ring plus what is published and
      not yet subtracted, and none of them exceeds twice the size: with rings of at most 2^30 bytes
      no counter and no index sum leaves 32 bits. */
  lemma CounterAccounting(s: State)
    requires Inv(s)
    ensures s.canWrite + s.canRecode + s.canRead
         == |s.ring| + WriterInFlight(s) + RecoderInFlight(s) + ReaderInFlight(s)
    ensures s.canWrite <= 2 * |s.ring| && s.canRecode <= 2 * |s.ring| && s.canRead <= 2 * |s.ring|
    ensures s.writeIdx < |s.ring| && s.recodeIdx < |s.ring| && s.readIdx < |s.ring|
    ensures |s.ring| <= 0x4000_0000 ==>
      && 2 * |s.ring| <= UINT32_MAX
      && s.writeIdx + WriterSpan(s) <= UINT32_MAX
      && s.recodeIdx + RecoderSpan(s) <= UINT32_MAX
      && s.readIdx + ReaderSpan(s) <= UINT32_MAX
  {
  }

  /** What a stage sees when it starts a call is the exact amount that it may work on. */
  lemma IdleCountersExact(s: State)
    requires Inv(s)
    ensures s.writer == WIdle ==> s.canWrite == |s.ring| - (|s.written| - |s.delivered|)
    ensures s.recoder == CIdle ==> s.canRecode == |s.written| - |s.masked|
    ensures s.reader == RIdle ==> s.canRead == |s.masked| - |s.delivered|
  {
  }

  /** Every call that a recode from a second ring makes consumes exactly the mask bytes it was asked
      to, whatever the other stages have done since the amount was fixed. */
  lemma InnerCallIsExact(s: State)
    requires Inv(s) && s.recoder == CIdle && s.todo != [] && s.todo[0] != []
    ensures RecoderInBounds(s)
    ensures RecoderAdvance(s).recoder == CXor(s.todo[0], 0)
    ensures RecoderAdvance(s).todo == s.todo[1..]
  {
    assert TodoBytes(s.todo) == |s.todo[0]| + TodoBytes(s.todo[1..]);
    assert s.todo[0][..|s.todo[0]|] == s.todo[0];
  }
}
