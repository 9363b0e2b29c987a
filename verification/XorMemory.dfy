/**
 XOR of memory regions: the plain byte loop, machine words, and vectors, all in one flat memory.

 The memory is one array and an address is an index into it.  `width` is the size in bytes of the
 widest scalar of the build: 4 or 8 for plain words, 16 or 32 for vectors.
 */
module XorMemory {
  import opened Bytes
  import opened Ring

  predicate IsWidth(width: nat) {
    width == 4 || width == 8 || width == 16 || width == 32
  }

  /** Two regions of the same size that share no byte. */
  predicate Apart(d: nat, m: nat, n: nat) {
    d + n <= m || m + n <= d
  }

  /** XORing n bytes at m into n bytes at d, one byte after the other. */
  function XorAt(s: seq<byte>, d: nat, m: nat, n: nat): (r: seq<byte>)
    requires d + n <= |s| && m + n <= |s|
    ensures |r| == |s|
  {
    if n == 0 then s else XorAt(s, d, m, n - 1)[d + n - 1 := Xor(s[d + n - 1], s[m + n - 1])]
  }

  /** What that means for each byte of the memory: the region is XORed, nothing else changes. */
  lemma {:induction false} XorAtByte(s: seq<byte>, d: nat, m: nat, n: nat, i: nat)
    requires d + n <= |s| && m + n <= |s| && i < |s|
    ensures XorAt(s, d, m, n)[i] == if d <= i < d + n then Xor(s[i], s[m + (i - d)]) else s[i]
  {
    if n > 0 {
      XorAtByte(s, d, m, n - 1, i);
    }
  }

  /** Doing a region in two parts is doing it at once. */
  lemma {:induction false} XorAtParts(s: seq<byte>, d: nat, m: nat, a: nat, b: nat)
    requires d + a + b <= |s| && m + a + b <= |s| && Apart(d, m, a + b)
    ensures XorAt(XorAt(s, d, m, a), d + a, m + a, b) == XorAt(s, d, m, a + b)
  {
    if b > 0 {
      XorAtParts(s, d, m, a, b - 1);
      XorAtByte(s, d, m, a, d + a + b - 1);
      XorAtByte(s, d, m, a, m + a + b - 1);
    }
  }

  /** XORing the same region in twice restores the memory. */
  lemma XorAtTwice(s: seq<byte>, d: nat, m: nat, n: nat)
    requires d + n <= |s| && m + n <= |s| && Apart(d, m, n)
    ensures XorAt(XorAt(s, d, m, n), d, m, n) == s
  {
    var once := XorAt(s, d, m, n);
    forall i | 0 <= i < |s|
      ensures XorAt(once, d, m, n)[i] == s[i]
    {
      XorAtByte(once, d, m, n, i);
      XorAtByte(s, d, m, n, i);
      if d <= i < d + n {
        XorAtByte(s, d, m, n, m + (i - d));
        XorCancels(s[i], s[m + (i - d)]);
      }
    }
  }

  /** The bytes that are still to come are as they were. */
  lemma XorAtUntouched(s: seq<byte>, d: nat, m: nat, n: nat, p: nat, k: nat)
    requires d + n <= |s| && m + n <= |s| && p + k <= |s|
    requires p + k <= d || d + n <= p
    ensures XorAt(s, d, m, n)[p..p + k] == s[p..p + k]
  {
    var now, was := XorAt(s, d, m, n)[p..p + k], s[p..p + k];
    forall i | 0 <= i < k
      ensures now[i] == was[i]
    {
      XorAtByte(s, d, m, n, p + i);
    }
  }

  /** Storing the XOR of two loaded stretches is XORing the one into the other. */
  lemma StoreIsXorAt(s: seq<byte>, d: nat, m: nat, k: nat)
    requires d + k <= |s| && m + k <= |s|
    ensures StoreAt(s, d, XorZip(s[d..d + k], s[m..m + k])) == XorAt(s, d, m, k)
  {
    var bytes := XorZip(s[d..d + k], s[m..m + k]);
    var stored, xored := StoreAt(s, d, bytes), XorAt(s, d, m, k);
    forall i | 0 <= i < |s|
      ensures stored[i] == xored[i]
    {
      StoreAtByte(s, d, bytes, i);
      XorAtByte(s, d, m, k, i);
      if d <= i < d + k { XorZipAt(s[d..d + k], s[m..m + k], i - d); }
    }
  }

  // ----- machine words -----

  function Pack32(b0: bv8, b1: bv8, b2: bv8, b3: bv8): bv32 {
    (b0 as bv32) | ((b1 as bv32) << 8) | ((b2 as bv32) << 16) | ((b3 as bv32) << 24)
  }

  /** The word that a little-endian machine loads from four bytes. */
  function Word32(b: seq<byte>): bv32
    requires |b| == 4
  {
    Pack32(b[0].bits, b[1].bits, b[2].bits, b[3].bits)
  }

  function Bytes32(w: bv32): (b: seq<byte>)
    ensures |b| == 4
  {
    [Byte((w & 0xFF) as bv8), Byte(((w >> 8) & 0xFF) as bv8),
     Byte(((w >> 16) & 0xFF) as bv8), Byte(((w >> 24) & 0xFF) as bv8)]
  }

  lemma PackedXor(a0: byte, a1: byte, a2: byte, a3: byte, b0: byte, b1: byte, b2: byte, b3: byte)
    ensures Bytes32(Pack32(a0.bits, a1.bits, a2.bits, a3.bits) ^ Pack32(b0.bits, b1.bits, b2.bits, b3.bits))
         == [Xor(a0, b0), Xor(a1, b1), Xor(a2, b2), Xor(a3, b3)]
  {
  }

  lemma FourBytes(x: seq<byte>, a: seq<byte>, b: seq<byte>)
    requires |a| == |b| == 4
    requires x == [Xor(a[0], b[0]), Xor(a[1], b[1]), Xor(a[2], b[2]), Xor(a[3], b[3])]
    ensures x == XorZip(a, b)
  {
    var zip := XorZip(a, b);
    forall i | 0 <= i < 4
      ensures x[i] == zip[i]
    {
      XorZipAt(a, b, i);
      if i == 0 {} else if i == 1 {} else if i == 2 {} else {}
    }
  }

  lemma LanesOfWord(a: seq<byte>, b: seq<byte>)
    requires |a| == |b| == 4
    ensures Bytes32(Word32(a) ^ Word32(b))
         == [Xor(a[0], b[0]), Xor(a[1], b[1]), Xor(a[2], b[2]), Xor(a[3], b[3])]
  {
    PackedXor(a[0], a[1], a[2], a[3], b[0], b[1], b[2], b[3]);
  }

  /** The XOR of two packed words is the packed byte-wise XOR. */
  lemma Word32Xor(a: seq<byte>, b: seq<byte>)
    requires |a| == |b| == 4
    ensures Bytes32(Word32(a) ^ Word32(b)) == XorZip(a, b)
  {
    LanesOfWord(a, b);
    FourBytes(Bytes32(Word32(a) ^ Word32(b)), a, b);
  }

  /** A 64-bit word is two 32-bit words, low half first. */
  function Word64(b: seq<byte>): bv64
    requires |b| == 8
  {
    (Word32(b[..4]) as bv64) | ((Word32(b[4..]) as bv64) << 32)
  }

  function Bytes64(w: bv64): (b: seq<byte>)
    ensures |b| == 8
  {
    Bytes32((w & 0xFFFF_FFFF) as bv32) + Bytes32((w >> 32) as bv32)
  }

  lemma XorBits64(l: bv32, h: bv32, l': bv32, h': bv32)
    ensures
      var w := ((l as bv64) | ((h as bv64) << 32)) ^ ((l' as bv64) | ((h' as bv64) << 32));
      (w & 0xFFFF_FFFF) as bv32 == l ^ l' && (w >> 32) as bv32 == h ^ h'
  {
  }

  lemma Word64Xor(a: seq<byte>, b: seq<byte>)
    requires |a| == |b| == 8
    ensures Bytes64(Word64(a) ^ Word64(b)) == XorZip(a, b)
  {
    XorBits64(Word32(a[..4]), Word32(a[4..]), Word32(b[..4]), Word32(b[4..]));
    Word32Xor(a[..4], b[..4]);
    Word32Xor(a[4..], b[4..]);
    XorZipAppend(a[..4], a[4..], b[..4], b[4..]);
    assert a == a[..4] + a[4..] && b == b[..4] + b[4..];
  }

  // ----- single accesses -----

  /** The addresses that a loop may touch; every access shows that it stays inside. */
  datatype Region = Region(lo: nat, hi: nat)

  ghost predicate Inside(p: nat, n: nat, r: Region, mem: array<byte>) {
    r.lo <= p && p + n <= r.hi <= mem.Length
  }

  method Store(mem: array<byte>, p: nat, bytes: seq<byte>, ghost r: Region)
    requires Inside(p, |bytes|, r, mem)
    modifies mem
    ensures mem[..] == StoreAt(old(mem[..]), p, bytes)
  {
    ghost var before := mem[..];
    forall i | 0 <= i < |bytes| {
      mem[p + i] := bytes[i];
    }
    forall i | 0 <= i < |before|
      ensures mem[..][i] == StoreAt(before, p, bytes)[i]
    {
      StoreAtByte(before, p, bytes, i);
    }
  }

  method Load(mem: array<byte>, p: nat, n: nat, ghost r: Region) returns (bytes: seq<byte>)
    requires Inside(p, n, r, mem)
    ensures bytes == mem[p..p + n]
  {
    bytes := mem[p..p + n];
  }

  /** An address that is a multiple of the vector's size. */
  predicate Aligned(p: nat, w: nat) {
    w > 0 && Slot(p, w) == 0
  }

  lemma AlignedMeansMultiple(p: nat, w: nat)
    requires w > 0
    ensures Aligned(p, w) <==> p % w == 0
  {
    SlotIsRemainder(p, w);
  }

  lemma NextAligned(p: nat, w: nat)
    requires w > 0
    ensures Aligned(p + w, w) <==> Aligned(p, w)
  {
  }

  /** The aligned vector accesses, which demand an address divisible by the vector's size. */
  method StoreAligned(mem: array<byte>, p: nat, vector: seq<byte>, ghost r: Region)
    requires Inside(p, |vector|, r, mem) && Aligned(p, |vector|)
    modifies mem
    ensures mem[..] == StoreAt(old(mem[..]), p, vector)
  {
    Store(mem, p, vector, r);
  }

  method LoadAligned(mem: array<byte>, p: nat, n: nat, ghost r: Region) returns (vector: seq<byte>)
    requires Inside(p, n, r, mem) && Aligned(p, n)
    ensures vector == mem[p..p + n]
  {
    vector := Load(mem, p, n, r);
  }

  // ----- one word or one byte -----

  /** A 64-bit word, a 32-bit word or a byte: load both, XOR, store. */
  method XorOne(mem: array<byte>, d: nat, m: nat, k: nat, ghost data: Region, ghost mask: Region)
    requires k == 8 || k == 4 || k == 1
    requires Inside(d, k, data, mem) && Inside(m, k, mask, mem)
    modifies mem
    ensures mem[..] == XorAt(old(mem[..]), d, m, k)
  {
    StoreIsXorAt(mem[..], d, m, k);
    var v0 := Load(mem, d, k, data);
    var m0 := Load(mem, m, k, mask);
    if k == 8 {
      Word64Xor(v0, m0);
      Store(mem, d, Bytes64(Word64(v0) ^ Word64(m0)), data);
    } else if k == 4 {
      Word32Xor(v0, m0);
      Store(mem, d, Bytes32(Word32(v0) ^ Word32(m0)), data);
    } else {
      assert XorZip(v0, m0) == [Xor(v0[0], m0[0])];
      Store(mem, d, [Xor(v0[0], m0[0])], data);
    }
  }

  // ----- the loops -----

  /** Words of k bytes while more than one word remains. */
  method XorWords(mem: array<byte>, k: nat, dptr: nat, mask: nat, size: nat) returns (done: nat)
    requires k == 8 || k == 4
    requires dptr + size <= mem.Length && mask + size <= mem.Length && Apart(dptr, mask, size)
    modifies mem
    ensures done <= size <= done + k
    ensures size > 0 ==> done < size
    ensures mem[..] == XorAt(old(mem[..]), dptr, mask, done)
  {
    ghost var data, masks := Region(dptr, dptr + size), Region(mask, mask + size);
    done := 0;
    while size - done > k
      invariant done <= size && (size > 0 ==> done < size)
      invariant mem[..] == XorAt(old(mem[..]), dptr, mask, done)
    {
      XorOne(mem, dptr + done, mask + done, k, data, masks);
      XorAtParts(old(mem[..]), dptr, mask, done, k);
      done := done + k;
    }
  }

  /** The bytes that remain. */
  method XorBytes(mem: array<byte>, dptr: nat, mask: nat, size: nat)
    requires dptr + size <= mem.Length && mask + size <= mem.Length && Apart(dptr, mask, size)
    modifies mem
    ensures mem[..] == XorAt(old(mem[..]), dptr, mask, size)
  {
    ghost var data, masks := Region(dptr, dptr + size), Region(mask, mask + size);
    var done: nat := 0;
    while done < size
      invariant done <= size && mem[..] == XorAt(old(mem[..]), dptr, mask, done)
    {
      XorOne(mem, dptr + done, mask + done, 1, data, masks);
      XorAtParts(old(mem[..]), dptr, mask, done, 1);
      done := done + 1;
    }
  }

  /** The word part of the simple loop: 64-bit words and at most one 32-bit word, or 32-bit words
      alone where that is the widest scalar.  At most four bytes remain either way. */
  method XorAllWords(mem: array<byte>, width: nat, dptr: nat, mask: nat, size: nat) returns (done: nat)
    requires IsWidth(width)
    requires dptr + size <= mem.Length && mask + size <= mem.Length && Apart(dptr, mask, size)
    modifies mem
    ensures done <= size <= done + 4
    ensures size > 0 ==> done < size
    ensures mem[..] == XorAt(old(mem[..]), dptr, mask, done)
  {
    if width < 8 {
      done := XorWords(mem, 4, dptr, mask, size);
      return;
    }
    done := XorWords(mem, 8, dptr, mask, size);
    if size - done > 4 {
      XorOne(mem, dptr + done, mask + done, 4, Region(dptr, dptr + size), Region(mask, mask + size));
      XorAtParts(old(mem[..]), dptr, mask, done, 4);
      done := done + 4;
    }
  }

  /** Words, then bytes. */
  method XorSimple(mem: array<byte>, width: nat, dptr: nat, mask: nat, size: nat)
    requires IsWidth(width)
    requires dptr + size <= mem.Length && mask + size <= mem.Length && Apart(dptr, mask, size)
    modifies mem
    ensures mem[..] == XorAt(old(mem[..]), dptr, mask, size)
  {
    var done := XorAllWords(mem, width, dptr, mask, size);
    XorBytes(mem, dptr + done, mask + done, size - done);
    XorAtParts(old(mem[..]), dptr, mask, done, size - done);
  }

  // ----- vectors -----

  /** One vector, by the aligned access where the address is known to be aligned. */
  method LoadOne(mem: array<byte>, p: nat, w: nat, aligned: bool, ghost r: Region) returns (v: seq<byte>)
    requires Inside(p, w, r, mem) && (aligned ==> Aligned(p, w))
    ensures v == mem[p..p + w]
  {
    if aligned {
      v := LoadAligned(mem, p, w, r);
    } else {
      v := Load(mem, p, w, r);
    }
  }

  method LoadTwo(mem: array<byte>, p: nat, w: nat, aligned: bool, ghost r: Region)
      returns (v0: seq<byte>, v1: seq<byte>)
    requires w > 0 && Inside(p, w + w, r, mem) && (aligned ==> Aligned(p, w))
    ensures v0 == mem[p..p + w] && v1 == mem[p + w..p + w + w]
  {
    NextAligned(p, w);
    v0 := LoadOne(mem, p, w, aligned, r);
    v1 := LoadOne(mem, p + w, w, aligned, r);
  }

  /** A stretch that was loaded before the stretch in front of it was stored. */
  lemma StoredLate(s: seq<byte>, half: seq<byte>, d: nat, m: nat, w: nat, v: seq<byte>, x: seq<byte>)
    requires d + w + w <= |s| && m + w + w <= |s| && Apart(d, m, w + w)
    requires half == XorAt(s, d, m, w)
    requires v == s[d + w..d + w + w] && x == s[m + w..m + w + w]
    ensures StoreAt(half, d + w, XorZip(v, x)) == XorAt(s, d, m, w + w)
  {
    var d', m' := d + w, m + w;
    assert half[d'..d' + w] == v by { XorAtUntouched(s, d, m, w, d', w); }
    assert half[m'..m' + w] == x by { XorAtUntouched(s, d, m, w, m', w); }
    assert StoreAt(half, d', XorZip(v, x)) == XorAt(half, d', m', w) by { StoreIsXorAt(half, d', m', w); }
    XorAtParts(s, d, m, w, w);
  }

  lemma {:induction false} AlignedSum(p: nat, q: nat, w: nat)
    requires Aligned(p, w) && Aligned(q, w)
    ensures Aligned(p + q, w)
  {
    if q >= w {
      AlignedSum(p, q - w, w);
    }
  }

  /** Where a vector loop stands: at a whole number of vectors from aligned start addresses. */
  predicate VectorLoop(w: nat, dptr: nat, mask: nat, maskAligned: bool) {
    Aligned(dptr, w) && (maskAligned ==> Aligned(mask, w))
  }

  method XorOneVector(mem: array<byte>, w: nat, dptr: nat, mask: nat, at: nat, maskAligned: bool,
                      ghost data: Region, ghost masks: Region)
    requires VectorLoop(w, dptr, mask, maskAligned) && Aligned(at, w)
    requires Inside(dptr + at, w, data, mem) && Inside(mask + at, w, masks, mem)
    modifies mem
    ensures mem[..] == XorAt(old(mem[..]), dptr + at, mask + at, w)
    ensures Aligned(at + w, w)
  {
    NextAligned(at, w);
    AlignedSum(dptr, at, w);
    if maskAligned { AlignedSum(mask, at, w); }
    XorVectorAt(mem, w, dptr + at, mask + at, maskAligned, data, masks);
  }

  method XorVectorAt(mem: array<byte>, w: nat, d: nat, m: nat, maskAligned: bool,
                     ghost data: Region, ghost masks: Region)
    requires VectorLoop(w, d, m, maskAligned)
    requires Inside(d, w, data, mem) && Inside(m, w, masks, mem)
    modifies mem
    ensures mem[..] == XorAt(old(mem[..]), d, m, w)
  {
    StoreIsXorAt(mem[..], d, m, w);
    var s0 := LoadAligned(mem, d, w, data);
    var m0 := LoadOne(mem, m, w, maskAligned, masks);
    StoreAligned(mem, d, XorZip(s0, m0), data);
  }

  /** Two vectors: both loads of each operand come before the two stores. */
  method XorPair(mem: array<byte>, w: nat, dptr: nat, mask: nat, at: nat, maskAligned: bool,
                 ghost data: Region, ghost masks: Region)
    requires VectorLoop(w, dptr, mask, maskAligned) && Aligned(at, w)
    requires Inside(dptr + at, w + w, data, mem) && Inside(mask + at, w + w, masks, mem)
    requires Apart(dptr + at, mask + at, w + w)
    modifies mem
    ensures mem[..] == XorAt(old(mem[..]), dptr + at, mask + at, w + w)
    ensures Aligned(at + w + w, w)
  {
    var d, m := dptr + at, mask + at;
    AlignedSum(dptr, at, w);
    if maskAligned { AlignedSum(mask, at, w); }
    XorPairAt(mem, w, d, m, maskAligned, data, masks);
    NextAligned(at, w);
    NextAligned(at + w, w);
  }

  lemma PairStored(s: seq<byte>, d: nat, m: nat, w: nat, v0: seq<byte>, x0: seq<byte>, v1: seq<byte>, x1: seq<byte>)
    requires d + w + w <= |s| && m + w + w <= |s| && Apart(d, m, w + w)
    requires v0 == s[d..d + w] && v1 == s[d + w..d + w + w]
    requires x0 == s[m..m + w] && x1 == s[m + w..m + w + w]
    ensures StoreAt(StoreAt(s, d, XorZip(v0, x0)), d + w, XorZip(v1, x1)) == XorAt(s, d, m, w + w)
  {
    StoreIsXorAt(s, d, m, w);
    StoredLate(s, XorAt(s, d, m, w), d, m, w, v1, x1);
  }

  method StorePair(mem: array<byte>, d: nat, w: nat, a: seq<byte>, b: seq<byte>, ghost data: Region)
    requires Aligned(d, w) && |a| == |b| == w && Inside(d, w + w, data, mem)
    modifies mem
    ensures mem[..] == StoreAt(StoreAt(old(mem[..]), d, a), d + w, b)
  {
    NextAligned(d, w);
    StoreAligned(mem, d, a, data);
    StoreAligned(mem, d + w, b, data);
  }

  method XorPairAt(mem: array<byte>, w: nat, d: nat, m: nat, maskAligned: bool,
                   ghost data: Region, ghost masks: Region)
    requires VectorLoop(w, d, m, maskAligned)
    requires Inside(d, w + w, data, mem) && Inside(m, w + w, masks, mem) && Apart(d, m, w + w)
    modifies mem
    ensures mem[..] == XorAt(old(mem[..]), d, m, w + w)
  {
    var s0, s1 := LoadTwo(mem, d, w, true, data);
    var m0, m1 := LoadTwo(mem, m, w, maskAligned, masks);
    PairStored(mem[..], d, m, w, s0, m0, s1, m1);
    StorePair(mem, d, w, XorZip(s0, m0), XorZip(s1, m1), data);
  }

  /** The body of the unrolled loop: four vectors, as two pairs. */
  method XorFour(mem: array<byte>, w: nat, dptr: nat, mask: nat, at: nat, maskAligned: bool,
                 ghost data: Region, ghost masks: Region)
    requires VectorLoop(w, dptr, mask, maskAligned) && Aligned(at, w)
    requires Inside(dptr + at, 4 * w, data, mem) && Inside(mask + at, 4 * w, masks, mem)
    requires Apart(dptr + at, mask + at, 4 * w)
    modifies mem
    ensures mem[..] == XorAt(old(mem[..]), dptr + at, mask + at, 4 * w)
    ensures Aligned(at + 4 * w, w)
  {
    XorPair(mem, w, dptr, mask, at, maskAligned, data, masks);
    XorPair(mem, w, dptr, mask, at + w + w, maskAligned, data, masks);
    XorAtParts(old(mem[..]), dptr + at, mask + at, w + w, w + w);
  }

  /** The unrolled loop. */
  method XorQuads(mem: array<byte>, w: nat, dptr: nat, mask: nat, size: nat, maskAligned: bool) returns (done: nat)
    requires VectorLoop(w, dptr, mask, maskAligned)
    requires dptr + size <= mem.Length && mask + size <= mem.Length && Apart(dptr, mask, size)
    modifies mem
    ensures done <= size < done + 4 * w && Aligned(done, w)
    ensures mem[..] == XorAt(old(mem[..]), dptr, mask, done)
  {
    ghost var data, masks := Region(dptr, dptr + size), Region(mask, mask + size);
    done := 0;
    while size - done >= 4 * w
      invariant done <= size && Aligned(done, w)
      invariant mem[..] == XorAt(old(mem[..]), dptr, mask, done)
    {
      XorFour(mem, w, dptr, mask, done, maskAligned, data, masks);
      XorAtParts(old(mem[..]), dptr, mask, done, 4 * w);
      done := done + 4 * w;
    }
  }

  /** The single vectors that remain. */
  method XorVectors(mem: array<byte>, w: nat, dptr: nat, mask: nat, size: nat, maskAligned: bool) returns (done: nat)
    requires VectorLoop(w, dptr, mask, maskAligned)
    requires dptr + size <= mem.Length && mask + size <= mem.Length && Apart(dptr, mask, size)
    modifies mem
    ensures done <= size < done + w
    ensures mem[..] == XorAt(old(mem[..]), dptr, mask, done)
  {
    ghost var data, masks := Region(dptr, dptr + size), Region(mask, mask + size);
    done := 0;
    while size - done >= w
      invariant done <= size && Aligned(done, w)
      invariant mem[..] == XorAt(old(mem[..]), dptr, mask, done)
    {
      XorOneVector(mem, w, dptr, mask, done, maskAligned, data, masks);
      XorAtParts(old(mem[..]), dptr, mask, done, w);
      done := done + w;
    }
  }

  method XorAllVectors(mem: array<byte>, w: nat, dptr: nat, mask: nat, size: nat, maskAligned: bool) returns (done: nat)
    requires VectorLoop(w, dptr, mask, maskAligned)
    requires dptr + size <= mem.Length && mask + size <= mem.Length && Apart(dptr, mask, size)
    modifies mem
    ensures done <= size < done + w
    ensures mem[..] == XorAt(old(mem[..]), dptr, mask, done)
  {
    var quads := XorQuads(mem, w, dptr, mask, size, maskAligned);
    AlignedSum(dptr, quads, w);
    if maskAligned { AlignedSum(mask, quads, w); }
    var more := XorVectors(mem, w, dptr + quads, mask + quads, size - quads, maskAligned);
    XorAtParts(old(mem[..]), dptr, mask, quads, more);
    done := quads + more;
  }

  /** The vector loops over an aligned region, with an aligned mask or not, and the remainder. */
  method XorAligned(mem: array<byte>, w: nat, dptr: nat, mask: nat, size: nat, maskAligned: bool)
    requires IsWidth(w) && VectorLoop(w, dptr, mask, maskAligned)
    requires dptr + size <= mem.Length && mask + size <= mem.Length && Apart(dptr, mask, size)
    modifies mem
    ensures mem[..] == XorAt(old(mem[..]), dptr, mask, size)
  {
    var done := XorAllVectors(mem, w, dptr, mask, size, maskAligned);
    if done < size {
      XorSimple(mem, w, dptr + done, mask + done, size - done);
      XorAtParts(old(mem[..]), dptr, mask, done, size - done);
    }
  }

  // ----- alignment -----

  /** The bits that two numbers have in common. */
  function BitAnd(a: nat, b: nat): nat {
    if a == 0 || b == 0 then 0
    else 2 * BitAnd(a / 2, b / 2) + (if a % 2 == 1 && b % 2 == 1 then 1 else 0)
  }

  lemma LowBit(p: nat, half: nat)
    ensures BitAnd(p, 2 * half + 1) == 2 * BitAnd(p / 2, half) + p % 2
  {
  }

  lemma Remainder4(p: nat)
    ensures p % 4 == 2 * (p / 2 % 2) + p % 2
  {
    var q, r := p / 4, p % 4;
    assert p == 2 * (2 * q + r / 2) + r % 2;
    assert p / 2 == 2 * q + r / 2;
  }

  lemma Remainder8(p: nat)
    ensures p % 8 == 2 * (p / 2 % 4) + p % 2
  {
    var q, r := p / 8, p % 8;
    assert p == 2 * (4 * q + r / 2) + r % 2;
    assert p / 2 == 4 * q + r / 2;
  }

  lemma Remainder16(p: nat)
    ensures p % 16 == 2 * (p / 2 % 8) + p % 2
  {
    var q, r := p / 16, p % 16;
    assert p == 2 * (8 * q + r / 2) + r % 2;
    assert p / 2 == 8 * q + r / 2;
  }

  lemma Remainder32(p: nat)
    ensures p % 32 == 2 * (p / 2 % 16) + p % 2
  {
    var q, r := p / 32, p % 32;
    assert p == 2 * (16 * q + r / 2) + r % 2;
    assert p / 2 == 16 * q + r / 2;
  }

  lemma MaskStep(p: nat, half: nat, low: nat)
    requires BitAnd(p / 2, half) == low
    ensures BitAnd(p, 2 * half + 1) == 2 * low + p % 2
  {
    LowBit(p, half);
  }

  lemma Mask4(p: nat)
    ensures BitAnd(p, 3) == p % 4
  {
    LowBit(p / 2, 0);
    MaskStep(p, 1, p / 2 % 2);
    Remainder4(p);
  }

  lemma Mask8(p: nat)
    ensures BitAnd(p, 7) == p % 8
  {
    Mask4(p / 2);
    MaskStep(p, 3, p / 2 % 4);
    Remainder8(p);
  }

  lemma Mask16(p: nat)
    ensures BitAnd(p, 15) == p % 16
  {
    Mask8(p / 2);
    MaskStep(p, 7, p / 2 % 8);
    Remainder16(p);
  }

  lemma Mask32(p: nat)
    ensures BitAnd(p, 31) == p % 32
  {
    Mask16(p / 2);
    MaskStep(p, 15, p / 2 % 16);
    Remainder32(p);
  }

  /** Masking an address with the low bits of a scalar width takes its remainder. */
  lemma MaskTakesRemainder(p: nat, width: nat)
    requires width == 4 || width == 8 || width == 16 || width == 32
    ensures BitAnd(p, width - 1) == p % width
  {
    if width == 4 {
      Mask4(p);
    } else if width == 8 {
      Mask8(p);
    } else if width == 16 {
      Mask16(p);
    } else {
      Mask32(p);
    }
  }

  /** The same on machine words, where the mask is written as the complement of the alignment mask. */
  lemma WordMaskTakesRemainder(p: bv64)
    ensures p & !(!(4 - 1)) == p % 4 && p & !(!(8 - 1)) == p % 8
    ensures p & !(!(16 - 1)) == p % 16 && p & !(!(32 - 1)) == p % 32
  {
  }

  /** How far an address lies behind the last aligned one. */
  method UnalignedTail(p: nat, width: nat) returns (tail: nat)
    requires IsWidth(width)
    ensures tail == Slot(p, width) && (tail == 0 <==> Aligned(p, width))
  {
    tail := BitAnd(p, width - 1);
    MaskTakesRemainder(p, width);
    AlignedMeansMultiple(p, width);
    SlotIsRemainder(p, width);
  }

  /** The part up to the first aligned address, then the rest. */
  method XorFromHead(mem: array<byte>, width: nat, dptr: nat, mask: nat, size: nat, head: nat)
    requires IsWidth(width) && 0 < head < width && head < size && Slot(dptr, width) + head == width
    requires dptr + size <= mem.Length && mask + size <= mem.Length && Apart(dptr, mask, size)
    modifies mem
    ensures mem[..] == XorAt(old(mem[..]), dptr, mask, size)
  {
    SlotAdd(dptr, head, width);
    XorAtParts(mem[..], dptr, mask, head, size - head);
    XorSimple(mem, width, dptr, mask, head);
    XorFromAligned(mem, width, dptr + head, mask + head, size - head);
  }

  /** The XOR of a region, from any start address: a simple part up to the first aligned address, then
      the vector loops where the build has vectors. */
  method XorMemoryRegion(mem: array<byte>, width: nat, dptr: nat, mask: nat, size: nat)
    requires width == 4 || width == 8 || width == 16 || width == 32
    requires dptr + size <= mem.Length && mask + size <= mem.Length && Apart(dptr, mask, size)
    modifies mem
    ensures mem[..] == XorAt(old(mem[..]), dptr, mask, size)
  {
    var tail := UnalignedTail(dptr, width);
    if tail != 0 {
      var head := width - tail;
      if size <= head {
        XorSimple(mem, width, dptr, mask, size);
        return;
      }
      XorFromHead(mem, width, dptr, mask, size, head);
    } else {
      XorFromAligned(mem, width, dptr, mask, size);
    }
  }

  /** The part from the first aligned address on. */
  method XorFromAligned(mem: array<byte>, width: nat, dptr: nat, mask: nat, size: nat)
    requires IsWidth(width) && Aligned(dptr, width)
    requires dptr + size <= mem.Length && mask + size <= mem.Length && Apart(dptr, mask, size)
    modifies mem
    ensures mem[..] == XorAt(old(mem[..]), dptr, mask, size)
  {
    if width > 8 {
      var maskTail := UnalignedTail(mask, width);
      XorAligned(mem, width, dptr, mask, size, maskTail == 0);
    } else {
      XorSimple(mem, width, dptr, mask, size);
    }
  }
}
