/** Bytes stored into a ring that lies somewhere in a flat memory. */
module RingStore {
  import opened Bytes
  import opened Ring
  import opened XorMemory

  method Memcpy(mem: array<byte>, dst: nat, src: nat, n: nat, ghost bytes: seq<byte>)
    requires dst + n <= mem.Length && src + n <= mem.Length && Apart(dst, src, n)
    requires bytes == mem[..][src..src + n]
    modifies mem
    ensures mem[..] == StoreAt(old(mem[..]), dst, bytes)
  {
    var loaded := Load(mem, src, n, Region(src, src + n));
    assert loaded == mem[..][src..src + n];
    Store(mem, dst, loaded, Region(dst, dst + n));
  }

  /** A transfer into the ring: two blocks when it crosses the end of the ring, one otherwise. */
  function StoreRing(s: seq<byte>, base: nat, total: nat, idx: nat, bytes: seq<byte>): (r: seq<byte>)
    requires base + total <= |s| && idx < total && |bytes| <= total
    ensures |r| == |s|
  {
    if idx + |bytes| > total then
      var tillEnd := total - idx;
      StoreAt(StoreAt(s, base + idx, bytes[..tillEnd]), base, bytes[tillEnd..])
    else
      StoreAt(s, base + idx, bytes)
  }

  lemma StoreRingByte(s: seq<byte>, base: nat, total: nat, idx: nat, bytes: seq<byte>, i: nat)
    requires base + total <= |s| && idx < total && |bytes| <= total && i < |s|
    ensures StoreRing(s, base, total, idx, bytes)[i]
         == if base <= i < base + total && Ahead(i - base, idx, total) < |bytes|
            then bytes[Ahead(i - base, idx, total)] else s[i]
  {
    if idx + |bytes| > total {
      var tillEnd := total - idx;
      StoreAtByte(s, base + idx, bytes[..tillEnd], i);
      StoreAtByte(StoreAt(s, base + idx, bytes[..tillEnd]), base, bytes[tillEnd..], i);
    } else {
      StoreAtByte(s, base + idx, bytes, i);
    }
  }

  /** Two memories that agree outside a region. */
  predicate SameOutside(s: seq<byte>, s': seq<byte>, base: nat, total: nat) {
    && |s'| == |s|
    && (forall i :: 0 <= i < |s| && !(base <= i < base + total) ==> s'[i] == s[i])
  }

  lemma BlockOutside(s: seq<byte>, s': seq<byte>, base: nat, total: nat, q: nat, k: nat)
    requires SameOutside(s, s', base, total) && q + k <= |s| && (q + k <= base || base + total <= q)
    ensures s'[q..q + k] == s[q..q + k]
  {
  }

  lemma SameOutsideChains(s: seq<byte>, s': seq<byte>, s'': seq<byte>, base: nat, total: nat)
    requires SameOutside(s, s', base, total) && SameOutside(s', s'', base, total)
    ensures SameOutside(s, s'', base, total)
  {
  }

  /** Seen as a ring, the transfer stores the bytes from idx on, and nothing outside changes. */
  lemma StoreRingIsPut(s: seq<byte>, base: nat, total: nat, idx: nat, bytes: seq<byte>)
    requires base + total <= |s| && idx < total && |bytes| <= total
    ensures
      var s' := StoreRing(s, base, total, idx, bytes);
      && s'[base..base + total] == Put(s[base..base + total], idx, bytes)
      && SameOutside(s, s', base, total)
  {
    var s' := StoreRing(s, base, total, idx, bytes);
    var ring', put := s'[base..base + total], Put(s[base..base + total], idx, bytes);
    forall k | 0 <= k < total
      ensures ring'[k] == put[k]
    {
      StoreRingByte(s, base, total, idx, bytes, base + k);
    }
    forall i | 0 <= i < |s| && !(base <= i < base + total)
      ensures s'[i] == s[i]
    {
      StoreRingByte(s, base, total, idx, bytes, i);
    }
  }

  /** The bytes that a transfer out of the ring picks up, block by block. */
  function LoadRing(s: seq<byte>, base: nat, total: nat, idx: nat, n: nat): seq<byte>
    requires base + total <= |s| && idx < total && n <= total
  {
    if idx + n > total then
      var tillEnd := total - idx;
      s[base + idx..base + total] + s[base..base + (n - tillEnd)]
    else
      s[base + idx..base + idx + n]
  }

  /** Seen as a ring, they are the bytes from idx on. */
  lemma LoadRingIsSeg(s: seq<byte>, base: nat, total: nat, idx: nat, n: nat)
    requires base + total <= |s| && idx < total && n <= total
    ensures LoadRing(s, base, total, idx, n) == Seg(s[base..base + total], idx, n)
  {
    var loaded, seg := LoadRing(s, base, total, idx, n), Seg(s[base..base + total], idx, n);
    assert |loaded| == |seg| == n;
    forall k | 0 <= k < n
      ensures loaded[k] == seg[k]
    {
      var slot := Wrap(idx + k, total);
      SegAt(s[base..base + total], idx, n, k);
      assert seg[k] == s[base..base + total][slot] == s[base + slot];
      if idx + n > total && idx + k >= total {
        assert loaded[k] == s[base..base + (n - (total - idx))][k - (total - idx)];
      }
    }
  }

  lemma {:induction false} StoreAtParts(s: seq<byte>, p: nat, a: seq<byte>, b: seq<byte>)
    requires p + |a| + |b| <= |s|
    ensures StoreAt(StoreAt(s, p, a), p + |a|, b) == StoreAt(s, p, a + b)
    decreases |b|
  {
    if b == [] {
      assert a + b == a;
    } else {
      var k := |b| - 1;
      StoreAtParts(s, p, a, b[..k]);
      assert (a + b)[..|a + b| - 1] == a + b[..k];
    }
  }

  /** Storing into the ring replaces a stretch of it, seen from any of its slots. */
  lemma TurnAfterStore(s: seq<byte>, base: nat, total: nat, start: nat, at: nat, bytes: seq<byte>)
    requires base + total <= |s| && start < total && at < total && at + |bytes| <= total
    ensures
      var s' := StoreRing(s, base, total, Wrap(start + at, total), bytes);
      && Seg(s'[base..base + total], start, total) == StoreAt(Seg(s[base..base + total], start, total), at, bytes)
      && SameOutside(s, s', base, total)
  {
    StoreRingIsPut(s, base, total, Wrap(start + at, total), bytes);
    SegOfPut(s[base..base + total], start, at, bytes);
  }

  /** What a transfer from some way ahead of a slot picks up, seen from that slot. */
  lemma TurnLoaded(s: seq<byte>, base: nat, total: nat, start: nat, at: nat, n: nat)
    requires base + total <= |s| && start < total && at + n <= total
    ensures LoadRing(s, base, total, Wrap(start + at, total), n)
         == Seg(s[base..base + total], start, total)[at..at + n]
  {
    LoadRingIsSeg(s, base, total, Wrap(start + at, total), n);
    SegPrefix(s[base..base + total], start, at, n);
  }

  // ----- the three kinds of transfer -----

  /** A block outside the part that is stored is as it was. */
  lemma StoreAtElsewhere(s: seq<byte>, p: nat, bytes: seq<byte>, q: nat, k: nat)
    requires p + |bytes| <= |s| && q + k <= |s| && (q + k <= p || p + |bytes| <= q)
    ensures StoreAt(s, p, bytes)[q..q + k] == s[q..q + k]
  {
    var now, was := StoreAt(s, p, bytes)[q..q + k], s[q..q + k];
    forall i | 0 <= i < k
      ensures now[i] == was[i]
    {
      StoreAtByte(s, p, bytes, q + i);
    }
  }

  predicate OutsideRing(p: nat, n: nat, base: nat, total: nat, size: nat) {
    p + n <= size && (p + n <= base || base + total <= p)
  }

  predicate Covers(p: nat, n: nat, address: nat) {
    p <= address < p + n
  }

  /** The blocks outside are the ones that share no address with the ring. */
  lemma OutsideSharesNothing(p: nat, n: nat, base: nat, total: nat, size: nat)
    requires 0 < n && 0 < total
    ensures OutsideRing(p, n, base, total, size) <==>
      p + n <= size && forall a: nat :: Covers(p, n, a) ==> !Covers(base, total, a)
  {
    if p + n <= size && !OutsideRing(p, n, base, total, size) {
      var shared := if p <= base then base else p;
      assert Covers(p, n, shared) && Covers(base, total, shared);
    }
  }

  /** Out of the ring, as one block or two. */
  method CopyFromRing(mem: array<byte>, base: nat, total: nat, idx: nat, dest: nat, n: nat, ghost bytes: seq<byte>)
    requires base + total <= mem.Length && idx < total && n <= total
    requires OutsideRing(dest, n, base, total, mem.Length)
    requires bytes == LoadRing(mem[..], base, total, idx, n)
    modifies mem
    ensures |bytes| == n && mem[..] == StoreAt(old(mem[..]), dest, bytes)
  {
    if idx + n > total {
      var n1 := total - idx;
      ghost var a, b := LoadRingBlocks(mem[..], base, total, idx, n, n1, n - n1);
      CopyTwo(mem, dest, base + idx, n1, base, n - n1, a, b);
    } else {
      Memcpy(mem, dest, base + idx, n, bytes);
    }
  }

  lemma LoadRingBlocks(s: seq<byte>, base: nat, total: nat, idx: nat, n: nat, n1: nat, n2: nat)
      returns (a: seq<byte>, b: seq<byte>)
    requires base + total <= |s| && idx < total && n <= total && idx + n > total
    requires n1 == total - idx && n2 == n - n1
    ensures a == s[base + idx..base + idx + n1] && b == s[base..base + n2]
    ensures LoadRing(s, base, total, idx, n) == a + b
  {
    a, b := s[base + idx..base + idx + n1], s[base..base + n2];
  }

  /** Two blocks copied next to each other. */
  method CopyTwo(mem: array<byte>, dst: nat, src1: nat, n1: nat, src2: nat, n2: nat,
                 ghost a: seq<byte>, ghost b: seq<byte>)
    requires dst + n1 + n2 <= mem.Length && src1 + n1 <= mem.Length && src2 + n2 <= mem.Length
    requires Apart(dst, src1, n1) && Apart(dst + n1, src2, n2)
    requires src2 + n2 <= dst || dst + n1 <= src2
    requires a == mem[..][src1..src1 + n1] && b == mem[..][src2..src2 + n2]
    modifies mem
    ensures mem[..] == StoreAt(old(mem[..]), dst, a + b)
  {
    StoreAtElsewhere(mem[..], dst, a, src2, n2);
    StoreAtParts(mem[..], dst, a, b);
    Memcpy(mem, dst, src1, n1, a);
    Memcpy(mem, dst + n1, src2, n2, b);
  }

  /** Into the ring, as one block or two. */
  method CopyToRing(mem: array<byte>, base: nat, total: nat, idx: nat, src: nat, n: nat, ghost bytes: seq<byte>)
    requires base + total <= mem.Length && idx < total && n <= total
    requires OutsideRing(src, n, base, total, mem.Length)
    requires bytes == mem[..][src..src + n]
    modifies mem
    ensures mem[..] == StoreRing(old(mem[..]), base, total, idx, bytes)
  {
    if idx + n > total {
      var n1: nat := total - idx;
      var n2: nat := n - n1;
      ghost var a, b := Halves(mem[..], src, n1, n2, bytes);
      StoreRingOfTwo(mem[..], base, total, idx, bytes, n1, a, b);
      ScatterTwo(mem, base + idx, n1, base, n2, src, a, b);
    } else {
      Memcpy(mem, base + idx, src, n, bytes);
    }
  }

  lemma Halves(s: seq<byte>, p: nat, n1: nat, n2: nat, whole: seq<byte>) returns (x: seq<byte>, y: seq<byte>)
    requires p + n1 + n2 <= |s| && whole == s[p..p + (n1 + n2)]
    ensures x == s[p..p + n1] && y == s[p + n1..p + n1 + n2] && whole == x + y
  {
    x, y := s[p..p + n1], s[p + n1..p + n1 + n2];
  }

  /** Two adjacent blocks copied to different places. */
  method ScatterTwo(mem: array<byte>, dst1: nat, n1: nat, dst2: nat, n2: nat, src: nat,
                    ghost a: seq<byte>, ghost b: seq<byte>)
    requires dst1 + n1 <= mem.Length && dst2 + n2 <= mem.Length && src + n1 + n2 <= mem.Length
    requires Apart(dst1, src, n1) && Apart(dst2, src + n1, n2)
    requires src + n1 + n2 <= dst1 || dst1 + n1 <= src + n1
    requires a == mem[..][src..src + n1] && b == mem[..][src + n1..src + n1 + n2]
    modifies mem
    ensures mem[..] == StoreAt(StoreAt(old(mem[..]), dst1, a), dst2, b)
  {
    StoreAtElsewhere(mem[..], dst1, a, src + n1, n2);
    Memcpy(mem, dst1, src, n1, a);
    Memcpy(mem, dst2, src + n1, n2, b);
  }

  /** XORed in the ring, as one block or two. */
  method XorRing(mem: array<byte>, width: nat, base: nat, total: nat, idx: nat, mask: nat, n: nat,
                 ghost loaded: seq<byte>, ghost masks: seq<byte>)
    requires IsWidth(width)
    requires base + total <= mem.Length && idx < total && n <= total
    requires OutsideRing(mask, n, base, total, mem.Length)
    requires loaded == LoadRing(mem[..], base, total, idx, n) && masks == mem[..][mask..mask + n]
    modifies mem
    ensures |loaded| == n && mem[..] == StoreRing(old(mem[..]), base, total, idx, XorZip(loaded, masks))
  {
    if idx + n > total {
      var n1: nat := total - idx;
      var n2: nat := n - n1;
      ghost var a, b := LoadRingBlocks(mem[..], base, total, idx, n, n1, n2);
      ghost var x, y := Halves(mem[..], mask, n1, n2, masks);
      XorAcrossEnd(mem, width, base, total, idx, mask, n1, n2, a, b, x, y);
    } else {
      OneBlockXored(mem[..], base, total, idx, mask, n, loaded, masks);
      XorMemoryRegion(mem, width, base + idx, mask, n);
    }
  }

  method XorTwo(mem: array<byte>, width: nat, d1: nat, n1: nat, d2: nat, n2: nat, mask: nat)
    requires IsWidth(width)
    requires d1 + n1 <= mem.Length && d2 + n2 <= mem.Length && mask + n1 + n2 <= mem.Length
    requires Apart(d1, mask, n1) && Apart(d2, mask + n1, n2)
    modifies mem
    ensures mem[..] == XorAt(XorAt(old(mem[..]), d1, mask, n1), d2, mask + n1, n2)
  {
    XorMemoryRegion(mem, width, d1, mask, n1);
    XorMemoryRegion(mem, width, d2, mask + n1, n2);
  }

  lemma OneBlockXored(s: seq<byte>, base: nat, total: nat, idx: nat, mask: nat, n: nat,
                      loaded: seq<byte>, masks: seq<byte>)
    requires base + total <= |s| && idx < total && idx + n <= total && mask + n <= |s|
    requires loaded == LoadRing(s, base, total, idx, n) && masks == s[mask..mask + n]
    ensures XorAt(s, base + idx, mask, n) == StoreRing(s, base, total, idx, XorZip(loaded, masks))
  {
    StoreIsXorAt(s, base + idx, mask, n);
  }

  /** XORing stretches that are still as they were in an earlier memory. */
  lemma XorAtLate(s: seq<byte>, now: seq<byte>, d: nat, m: nat, n: nat, a: seq<byte>, x: seq<byte>)
    requires d + n <= |now| && m + n <= |now|
    requires now[d..d + n] == a && now[m..m + n] == x
    ensures XorAt(now, d, m, n) == StoreAt(now, d, XorZip(a, x))
  {
    StoreIsXorAt(now, d, m, n);
  }

  /** What XORing two places with adjacent blocks of a mask does, in terms of the memory before. */
  lemma XorTwoStretches(s: seq<byte>, d1: nat, n1: nat, d2: nat, n2: nat, m: nat,
                        a: seq<byte>, b: seq<byte>, x: seq<byte>, y: seq<byte>)
    requires d1 + n1 <= |s| && d2 + n2 <= |s| && m + n1 + n2 <= |s|
    requires d2 + n2 <= d1 || d1 + n1 <= d2
    requires m + n1 + n2 <= d1 || d1 + n1 <= m + n1
    requires a == s[d1..d1 + n1] && b == s[d2..d2 + n2]
    requires x == s[m..m + n1] && y == s[m + n1..m + n1 + n2]
    ensures XorAt(XorAt(s, d1, m, n1), d2, m + n1, n2) == StoreAt(StoreAt(s, d1, XorZip(a, x)), d2, XorZip(b, y))
  {
    var half := XorAt(s, d1, m, n1);
    assert half == StoreAt(s, d1, XorZip(a, x)) by { XorAtLate(s, s, d1, m, n1, a, x); }
    assert half[d2..d2 + n2] == b by { XorAtUntouched(s, d1, m, n1, d2, n2); }
    assert half[m + n1..m + n1 + n2] == y by { XorAtUntouched(s, d1, m, n1, m + n1, n2); }
    XorAtLate(s, half, d2, m + n1, n2, b, y);
  }

  lemma XorZipHalves(a: seq<byte>, b: seq<byte>, x: seq<byte>, y: seq<byte>)
    requires |a| == |x| && |b| == |y|
    ensures XorZip(a + b, x + y)[..|a|] == XorZip(a, x) && XorZip(a + b, x + y)[|a|..] == XorZip(b, y)
  {
    XorZipAppend(a, b, x, y);
  }

  lemma StoreRingOfTwo(s: seq<byte>, base: nat, total: nat, idx: nat, bytes: seq<byte>, n1: nat,
                       front: seq<byte>, back: seq<byte>)
    requires base + total <= |s| && idx < total && |bytes| <= total && idx + |bytes| > total
    requires n1 == total - idx && front == bytes[..n1] && back == bytes[n1..]
    ensures StoreRing(s, base, total, idx, bytes) == StoreAt(StoreAt(s, base + idx, front), base, back)
  {
  }

  lemma TwoBlocksZipped(s: seq<byte>, base: nat, total: nat, idx: nat, n1: nat,
                        a: seq<byte>, b: seq<byte>, x: seq<byte>, y: seq<byte>)
    requires base + total <= |s| && idx < total && n1 == total - idx && n1 + |b| <= total && b != []
    requires |a| == |x| == n1 && |b| == |y|
    ensures StoreRing(s, base, total, idx, XorZip(a + b, x + y))
         == StoreAt(StoreAt(s, base + idx, XorZip(a, x)), base, XorZip(b, y))
  {
    XorZipHalves(a, b, x, y);
    StoreRingOfTwo(s, base, total, idx, XorZip(a + b, x + y), n1, XorZip(a, x), XorZip(b, y));
  }

  lemma TwoBlocksXored(s: seq<byte>, base: nat, total: nat, idx: nat, mask: nat, n1: nat, n2: nat,
                       a: seq<byte>, b: seq<byte>, x: seq<byte>, y: seq<byte>)
    requires base + total <= |s| && idx < total && n1 == total - idx && 0 < n2 <= idx
    requires OutsideRing(mask, n1 + n2, base, total, |s|)
    requires a == s[base + idx..base + idx + n1] && b == s[base..base + n2]
    requires x == s[mask..mask + n1] && y == s[mask + n1..mask + n1 + n2]
    ensures XorAt(XorAt(s, base + idx, mask, n1), base, mask + n1, n2)
         == StoreRing(s, base, total, idx, XorZip(a + b, x + y))
  {
    TwoBlocksZipped(s, base, total, idx, n1, a, b, x, y);
    XorTwoStretches(s, base + idx, n1, base, n2, mask, a, b, x, y);
  }

  method XorAcrossEnd(mem: array<byte>, width: nat, base: nat, total: nat, idx: nat, mask: nat, n1: nat, n2: nat,
                      ghost a: seq<byte>, ghost b: seq<byte>, ghost x: seq<byte>, ghost y: seq<byte>)
    requires IsWidth(width)
    requires base + total <= mem.Length && idx < total && n1 == total - idx && 0 < n2 <= idx
    requires OutsideRing(mask, n1 + n2, base, total, mem.Length)
    requires a == mem[..][base + idx..base + idx + n1] && b == mem[..][base..base + n2]
    requires x == mem[..][mask..mask + n1] && y == mem[..][mask + n1..mask + n1 + n2]
    modifies mem
    ensures mem[..] == StoreRing(old(mem[..]), base, total, idx, XorZip(a + b, x + y))
  {
    TwoBlocksXored(mem[..], base, total, idx, mask, n1, n2, a, b, x, y);
    XorTwo(mem, width, base + idx, n1, base, n2, mask);
  }

  lemma OldestLoaded(s: seq<byte>, base: nat, total: nat, start: nat, n: nat)
    requires base + total <= |s| && start < total && n <= total
    ensures LoadRing(s, base, total, start, n) == Seg(s[base..base + total], start, total)[..n]
  {
    TurnLoaded(s, base, total, start, 0, n);
    assert Wrap(start + 0, total) == start;
  }

  /** Copying the first bytes seen from a slot to a place elsewhere leaves the ring as it was. */
  lemma TurnAfterCopyOut(s: seq<byte>, base: nat, total: nat, start: nat, dest: nat, n: nat)
    requires base + total <= |s| && start < total && n <= total && OutsideRing(dest, n, base, total, |s|)
    ensures
      var oldest := Seg(s[base..base + total], start, total)[..n];
      var s' := StoreAt(s, dest, oldest);
      LoadRing(s, base, total, start, n) == oldest && s'[base..base + total] == s[base..base + total]
  {
    OldestLoaded(s, base, total, start, n);
    StoreAtElsewhere(s, dest, Seg(s[base..base + total], start, total)[..n], base, total);
  }

  // ----- the same transfers, with the ring seen from one of its slots -----

  function Turn(s: seq<byte>, base: nat, total: nat, start: nat): (turn: seq<byte>)
    requires base + total <= |s| && start < total
    ensures |turn| == total
  {
    Seg(s[base..base + total], start, total)
  }

  /** A ring elsewhere is as it was. */
  lemma TurnOutside(s: seq<byte>, s': seq<byte>, base: nat, total: nat, q: nat, k: nat, start: nat)
    requires SameOutside(s, s', base, total) && q + k <= |s| && (q + k <= base || base + total <= q) && start < k
    ensures Turn(s', q, k, start) == Turn(s, q, k, start)
  {
    BlockOutside(s, s', base, total, q, k);
  }

  /** Moving on by n slots turns the first n bytes into the last ones. */
  lemma TurnRotates(s: seq<byte>, base: nat, total: nat, start: nat, n: nat)
    requires base + total <= |s| && start < total && n <= total
    ensures
      var turn := Turn(s, base, total, start);
      Turn(s, base, total, Wrap(start + n, total)) == turn[n..] + turn[..n]
  {
    SegRotates(s[base..base + total], start, n);
  }

  method TakeFromTurn(mem: array<byte>, base: nat, total: nat, start: nat, dest: nat, n: nat, ghost bytes: seq<byte>)
    requires base + total <= mem.Length && start < total && n <= total
    requires OutsideRing(dest, n, base, total, mem.Length)
    requires bytes == Turn(mem[..], base, total, start)[..n]
    modifies mem
    ensures mem[..] == StoreAt(old(mem[..]), dest, bytes)
    ensures Turn(mem[..], base, total, start) == Turn(old(mem[..]), base, total, start)
  {
    TurnAfterCopyOut(mem[..], base, total, start, dest, n);
    CopyFromRing(mem, base, total, start, dest, n, bytes);
  }

  method PutIntoTurn(mem: array<byte>, base: nat, total: nat, start: nat, at: nat, idx: nat, src: nat, n: nat,
                     ghost bytes: seq<byte>)
    requires base + total <= mem.Length && start < total && at < total && at + n <= total
    requires idx == Wrap(start + at, total) && OutsideRing(src, n, base, total, mem.Length)
    requires bytes == mem[..][src..src + n]
    modifies mem
    ensures Turn(mem[..], base, total, start) == StoreAt(Turn(old(mem[..]), base, total, start), at, bytes)
    ensures SameOutside(old(mem[..]), mem[..], base, total)
  {
    TurnAfterStore(mem[..], base, total, start, at, bytes);
    CopyToRing(mem, base, total, idx, src, n, bytes);
  }

  method XorIntoTurn(mem: array<byte>, width: nat, base: nat, total: nat, start: nat, at: nat, idx: nat,
                     mask: nat, n: nat, ghost bytes: seq<byte>)
    requires IsWidth(width)
    requires base + total <= mem.Length && start < total && at < total && at + n <= total
    requires idx == Wrap(start + at, total) && OutsideRing(mask, n, base, total, mem.Length)
    requires bytes == XorZip(Turn(mem[..], base, total, start)[at..at + n], mem[..][mask..mask + n])
    modifies mem
    ensures Turn(mem[..], base, total, start) == StoreAt(Turn(old(mem[..]), base, total, start), at, bytes)
    ensures SameOutside(old(mem[..]), mem[..], base, total)
  {
    TurnLoaded(mem[..], base, total, start, at, n);
    TurnAfterStore(mem[..], base, total, start, at, bytes);
    XorRing(mem, width, base, total, idx, mask, n,
            Turn(mem[..], base, total, start)[at..at + n], mem[..][mask..mask + n]);
  }
}
