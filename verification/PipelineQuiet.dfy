/** What the struct's view of the ring, module CyclicBuffer, is in the machine of interleaved stages. */
module PipelineQuiet {
  import opened Bytes
  import opened Ring
  import opened Pipeline
  import opened PipelineInvariant
  import opened PipelineTheorems
  import opened CyclicBuffer

  predicate Quiet(s: State) {
    s.writer == WIdle && RecoderFree(s) && s.reader == RIdle
  }

  lemma QuietFacts(s: State)
    requires Inv(s) && Quiet(s)
    ensures |s.written| <= |s.delivered| + |s.ring| && 0 < |s.ring| && s.readIdx == Slot(|s.delivered|, |s.ring|)
    ensures BytesOk(s.ring, Blend(s.written, s.masked), |s.delivered|)
    ensures s.canRead == |s.masked| - |s.delivered| && s.canRecode == |s.written| - |s.masked|
  {
  }

  /** One byte of the ring, seen from the oldest on, is one position of the stream. */
  lemma SeenAt(s: State, k: nat)
    requires Inv(s) && Quiet(s) && |s.delivered| + k < |s.written|
    ensures s.readIdx < |s.ring| && k < |s.ring|
    ensures Seg(s.ring, s.readIdx, |s.ring|)[k] == Blend(s.written, s.masked)[|s.delivered| + k]
  {
    QuietFacts(s);
    SeenIn(s.ring, Blend(s.written, s.masked), |s.delivered|, k);
  }

  lemma SeenIn(ring: seq<byte>, stream: seq<byte>, released: nat, k: nat)
    requires 0 < |ring| && BytesOk(ring, stream, released) && released + k < |stream| <= released + |ring|
    ensures Seg(ring, Slot(released, |ring|), |ring|)[k] == stream[released + k]
  {
    CellSeen(ring, released, k);
    assert Cell(ring, released + k) == stream[released + k];
  }

  lemma CellSeen(ring: seq<byte>, released: nat, k: nat)
    requires k < |ring|
    ensures Seg(ring, Slot(released, |ring|), |ring|)[k] == Cell(ring, released + k)
  {
    SlotAdd(released, k, |ring|);
    SegAt(ring, Slot(released, |ring|), |ring|, k);
  }

  lemma OldestSeen(s: State, turn: seq<byte>)
    requires Inv(s) && Quiet(s) && turn == Seg(s.ring, s.readIdx, |s.ring|)
    ensures s.canRead + s.canRecode <= |turn|
    ensures s.delivered + turn[..s.canRead] == XorZip(s.written, s.masked)
  {
    var zip, out := XorZip(s.written, s.masked), s.delivered + turn[..s.canRead];
    OutputIsMasked(s);
    forall i | 0 <= i < |zip|
      ensures out[i] == zip[i]
    {
      if i >= |s.delivered| {
        SeenAt(s, i - |s.delivered|);
        BlendAt(s.written, s.masked, i);
        XorZipAt(s.written, s.masked, i);
      }
    }
  }

  lemma NextSeenAt(s: State, turn: seq<byte>, i: nat)
    requires Inv(s) && Quiet(s) && turn == Seg(s.ring, s.readIdx, |s.ring|) && i < s.canRecode
    ensures s.canRead + i < |turn| && |s.masked| + i < |s.written|
    ensures turn[s.canRead + i] == s.written[|s.masked| + i]
  {
    SeenAt(s, s.canRead + i);
    BlendAt(s.written, s.masked, |s.masked| + i);
  }

  lemma NextSeen(s: State, turn: seq<byte>, r: nat, c: nat)
    requires Inv(s) && Quiet(s) && turn == Seg(s.ring, s.readIdx, |s.ring|) && r == s.canRead && c == s.canRecode
    requires r + c <= |turn| && c == |s.written| - |s.masked|
    ensures turn[r..r + c] == s.written[|s.masked|..]
  {
    var waiting, rest := turn[r..r + c], s.written[|s.masked|..];
    forall i | 0 <= i < c
      ensures waiting[i] == rest[i]
    {
      NextSeenAt(s, turn, i);
    }
  }

  /** Whenever no call is under way, in any reachable state, the bytes that wait for the reader complete
      what has been read to the masked stream, the bytes that wait for the recoder are the written
      stream from the last mask byte on, and the rest is free. */
  lemma QuietRingIsStages(s: State)
    requires Inv(s) && Quiet(s)
    ensures s.readIdx < |s.ring| && s.canRead + s.canRecode <= |s.ring|
    ensures
      var v := Split(Seg(s.ring, s.readIdx, |s.ring|), s.canRead, s.canRecode);
      && s.delivered + v.readable == XorZip(s.written, s.masked)
      && v.recodable == s.written[|s.masked|..]
      && |v.free| == s.canWrite
  {
    OldestSeen(s, Seg(s.ring, s.readIdx, |s.ring|));
    QuietFacts(s);
    NextSeen(s, Seg(s.ring, s.readIdx, |s.ring|), s.canRead, s.canRecode);
  }
}
