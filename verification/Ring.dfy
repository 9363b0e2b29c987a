/** Index arithmetic shared by the two rings of the program. */
module Ring {
  import opened Bytes

  /** Slot reached from a slot by going forward at most one full turn. */
  function Wrap(x: nat, n: nat): nat
    requires x < 2 * n
  {
    if x < n then x else x - n
  }

  /** The remainder operator agrees with Wrap on everything the program feeds it. */
  lemma ModIsWrap(x: nat, n: nat)
    requires x < 2 * n
    ensures x % n == Wrap(x, n)
  {
    if x >= n {
      assert x == n + (x - n);
    }
  }

  /** The remainder of a stream position by the ring's size: its slot.  Written as a recursion so that
      proofs about positions stay linear; it is the remainder operator. */
  function Slot(p: nat, n: nat): (slot: nat)
    requires n > 0
    ensures slot < n
  {
    if p < n then p else Slot(p - n, n)
  }

  lemma {:induction false} SlotIsRemainder(p: nat, n: nat)
    requires n > 0
    ensures Slot(p, n) == p % n
  {
    if p >= n {
      SlotIsRemainder(p - n, n);
      RemainderStep(p - n, n);
    }
  }

  lemma RemainderStep(x: nat, n: nat)
    requires n > 0
    ensures (x + n) % n == x % n
  {
    var d := (x + n) / n - x / n - 1;
    assert d * n == x % n - (x + n) % n by {
      assert x + n == ((x + n) / n) * n + (x + n) % n;
      assert x == (x / n) * n + x % n;
    }
    assert d == 0 by {
      assert d >= 1 ==> d * n >= n;
      assert d <= -1 ==> d * n + n <= 0;
    }
  }

  /** The next index after size bytes, with the branch on the end of the ring that the byte ring's
      operations take. */
  function NextIdx(idx: nat, size: nat, total: nat): nat
    requires idx < total && size <= total
  {
    if idx + size > total then size - (total - idx) else Slot(idx + size, total)
  }

  lemma NextIdxWraps(idx: nat, size: nat, total: nat)
    requires idx < total && size <= total
    ensures NextIdx(idx, size, total) == Wrap(idx + size, total) < total
  {
    SlotAdd(idx, size, total);
  }

  /** The slot of the i-th item of a transfer of size items, bytes of the byte ring or elements of the
      queue: two block copies when the transfer crosses the end of the ring, one otherwise. */
  function Place(idx: nat, size: nat, total: nat, i: nat): nat
    requires idx < total && i < size <= total
  {
    if idx + size > total then
      var tillEnd := total - idx;
      if i < tillEnd then idx + i else i - tillEnd
    else
      idx + i
  }

  lemma PlaceWraps(idx: nat, size: nat, total: nat, i: nat)
    requires idx < total && i < size <= total
    ensures Place(idx, size, total, i) == Wrap(idx + i, total) < total
  {
  }

  // ----- a ring seen from one of its slots -----

  /** The bytes of a ring from a slot on. */
  function Seg(ring: seq<byte>, start: nat, len: nat): (seg: seq<byte>)
    requires start < |ring| && len <= |ring|
    ensures |seg| == len
    decreases len
  {
    if len == 0 then [] else Seg(ring, start, len - 1) + [ring[Wrap(start + len - 1, |ring|)]]
  }

  lemma {:induction false} SegAt(ring: seq<byte>, start: nat, len: nat, k: nat)
    requires start < |ring| && k < len <= |ring|
    ensures Seg(ring, start, len)[k] == ring[Wrap(start + k, |ring|)]
    decreases len
  {
    if k < len - 1 {
      SegAt(ring, start, len - 1, k);
    }
  }

  /** How far a slot lies ahead of another. */
  function Ahead(slot: nat, start: nat, n: nat): nat
    requires slot < n && start < n
  {
    if slot >= start then slot - start else slot + n - start
  }

  /** A ring with bytes stored from a slot on. */
  function Put(ring: seq<byte>, start: nat, bytes: seq<byte>): seq<byte>
    requires start < |ring| && |bytes| <= |ring|
  {
    seq(|ring|, i requires 0 <= i < |ring| =>
      if Ahead(i, start, |ring|) < |bytes| then bytes[Ahead(i, start, |ring|)] else ring[i])
  }

  /** Storing bytes some way ahead of a slot replaces just that stretch of the ring seen from it. */
  lemma SegOfPut(ring: seq<byte>, start: nat, at: nat, bytes: seq<byte>)
    requires start < |ring| && at < |ring| && at + |bytes| <= |ring|
    ensures Seg(Put(ring, Wrap(start + at, |ring|), bytes), start, |ring|)
         == StoreAt(Seg(ring, start, |ring|), at, bytes)
  {
    var n := |ring|;
    var from := Wrap(start + at, n);
    forall k | 0 <= k < n
      ensures Seg(Put(ring, from, bytes), start, n)[k] == StoreAt(Seg(ring, start, n), at, bytes)[k]
    {
      var slot := Wrap(start + k, n);
      SegAt(ring, start, n, k);
      SegAt(Put(ring, from, bytes), start, n, k);
      StoreAtByte(Seg(ring, start, n), at, bytes, k);
      assert Ahead(slot, from, n) == if k >= at then k - at else k + n - at;
    }
  }

  /** Moving the point of view forward rotates what is seen. */
  lemma SegRotates(ring: seq<byte>, start: nat, k: nat)
    requires start < |ring| && k <= |ring|
    ensures
      var seen := Seg(ring, start, |ring|);
      Seg(ring, Wrap(start + k, |ring|), |ring|) == seen[k..] + seen[..k]
  {
    var n := |ring|;
    var seen := Seg(ring, start, n);
    forall i | 0 <= i < n
      ensures Seg(ring, Wrap(start + k, n), n)[i] == (seen[k..] + seen[..k])[i]
    {
      SegAt(ring, Wrap(start + k, n), n, i);
      SegAt(ring, start, n, Wrap(k + i, n));
      assert Wrap(Wrap(start + k, n) + i, n) == Wrap(start + Wrap(k + i, n), n);
    }
  }

  /** The first bytes from a slot on are a prefix of the whole turn from it. */
  lemma SegPrefix(ring: seq<byte>, start: nat, at: nat, len: nat)
    requires start < |ring| && at + len <= |ring|
    ensures Seg(ring, Wrap(start + at, |ring|), len) == Seg(ring, start, |ring|)[at..at + len]
  {
    var n := |ring|;
    var near, far := Seg(ring, Wrap(start + at, n), len), Seg(ring, start, n)[at..at + len];
    forall i | 0 <= i < len
      ensures near[i] == far[i]
    {
      SegAt(ring, Wrap(start + at, n), len, i);
      SegAt(ring, start, n, at + i);
      assert Wrap(Wrap(start + at, n) + i, n) == Wrap(start + (at + i), n);
    }
  }

  // ----- positions in an endless stream that passes through a ring -----

  /** The slot of a later position, from the slot of an earlier one at most a turn back. */
  lemma {:induction false} SlotAdd(p: nat, i: nat, n: nat)
    requires n > 0 && i <= n
    ensures Slot(p + i, n) == Wrap(Slot(p, n) + i, n)
  {
    if p >= n {
      SlotAdd(p - n, i, n);
    }
  }

  /** Positions less than a turn apart lie in different slots. */
  lemma SlotsApart(p: nat, p': nat, n: nat)
    requires n > 0 && p != p' && p < p' + n && p' < p + n
    ensures Slot(p, n) != Slot(p', n)
  {
    if p < p' { SlotAdd(p, p' - p, n); } else { SlotAdd(p', p - p', n); }
  }

  /** The slot that a transfer uses for its i-th byte is the slot of that stream position. */
  lemma PlaceIsSlot(base: nat, size: nat, n: nat, i: nat)
    requires n > 0 && i < size <= n
    ensures Place(Slot(base, n), size, n, i) == Slot(base + i, n)
  {
    PlaceWraps(Slot(base, n), size, n, i);
    SlotAdd(base, i, n);
  }

  /** The index that a transfer leaves behind is the slot of the position after it. */
  lemma NextIsSlot(base: nat, size: nat, n: nat)
    requires n > 0 && size <= n
    ensures NextIdx(Slot(base, n), size, n) == Slot(base + size, n)
  {
    NextIdxWraps(Slot(base, n), size, n);
    SlotAdd(base, size, n);
  }
}
