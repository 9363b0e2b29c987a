/**
 The byte ring of one writer, one recoder and one reader, as the program's struct and its calls, each
 call taken alone.  How the calls of three threads interleave is the subject of module Pipeline.

 The ring's bytes lie in the flat memory `mem` at address `dataPtr`; sources, masks and destinations
 are addresses in the same memory, None standing for a null pointer.
 */
module CyclicBuffer {
  import opened Bytes
  import opened Ring
  import opened XorMemory
  import opened RingStore

  const CHUNK_SIZE: nat := 0x1000
  const MAX_SIZE: nat := 0x4000_0000

  /** What the three stages see of the ring: recoded bytes that wait for the reader, written bytes that
      wait for the recoder, and what the slots open to the writer happen to hold; oldest first. */
  datatype Stages = Stages(readable: seq<byte>, recodable: seq<byte>, free: seq<byte>)

  function Split(turn: seq<byte>, r: nat, c: nat): Stages
    requires r + c <= |turn|
  {
    Stages(turn[..r], turn[r..r + c], turn[r + c..])
  }

  /** The oldest n bytes leave and their slots become free. */
  function ReadStages(v: Stages, n: nat): Stages
    requires n <= |v.readable|
  {
    Stages(v.readable[n..], v.recodable, v.free + v.readable[..n])
  }

  /** New bytes take the place of as many free ones. */
  function WriteStages(v: Stages, bytes: seq<byte>): Stages
    requires |bytes| <= |v.free|
  {
    Stages(v.readable, v.recodable + bytes, v.free[|bytes|..])
  }

  /** Recoded bytes take the place of as many unrecoded ones and go on to the reader. */
  function RecodeStages(v: Stages, bytes: seq<byte>): Stages
    requires |bytes| <= |v.recodable|
  {
    Stages(v.readable + bytes, v.recodable[|bytes|..], v.free)
  }

  /** Recoding by XOR with as many mask bytes. */
  function XorStages(v: Stages, mask: seq<byte>): Stages
    requires |mask| <= |v.recodable|
  {
    RecodeStages(v, XorZip(v.recodable[..|mask|], mask))
  }

  lemma AfterRotation(turn: seq<byte>, turn': seq<byte>, r: nat, c: nat, n: nat)
    requires n <= r && r + c <= |turn| && turn' == turn[n..] + turn[..n]
    ensures Split(turn', r - n, c) == ReadStages(Split(turn, r, c), n)
    ensures turn[..n] == turn[..r][..n]
  {
  }

  lemma NothingMoves(v: Stages)
    ensures ReadStages(v, 0) == WriteStages(v, []) == RecodeStages(v, []) == v
  {
  }

  lemma NothingRecoded(v: Stages, mask: seq<byte>)
    requires mask == []
    ensures XorStages(v, mask) == v
  {
  }

  lemma AfterWrite(turn: seq<byte>, turn': seq<byte>, r: nat, c: nat, bytes: seq<byte>)
    requires r + c + |bytes| <= |turn| && turn' == StoreAt(turn, r + c, bytes)
    ensures Split(turn', r, c + |bytes|) == WriteStages(Split(turn, r, c), bytes)
  {
    StoreAtBlocks(turn, r + c, bytes);
  }

  lemma AfterRecode(turn: seq<byte>, turn': seq<byte>, r: nat, c: nat, n: nat, bytes: seq<byte>)
    requires r + c <= |turn| && |bytes| == n <= c && turn' == StoreAt(turn, r, bytes)
    ensures Split(turn', r + n, c - n) == RecodeStages(Split(turn, r, c), bytes)
  {
    StoreAtBlocks(turn, r, bytes);
  }

  lemma SliceOfSlice(turn: seq<byte>, at: nat, len: nat, n: nat)
    requires at + len <= |turn| && n <= len
    ensures turn[at..at + len][..n] == turn[at..at + n]
  {
  }

  lemma PassedAsIs(turn: seq<byte>, r: nat, c: nat, n: nat)
    requires r + c <= |turn| && n <= c
    ensures
      var v := Split(turn, r, c);
      Split(turn, r + n, c - n) == RecodeStages(v, v.recodable[..n])
  {
  }

  lemma WrittenAsIs(turn: seq<byte>, r: nat, c: nat, n: nat)
    requires r + c + n <= |turn|
    ensures
      var v := Split(turn, r, c);
      Split(turn, r, c + n) == WriteStages(v, v.free[..n])
  {
  }

  /** Recoding with two stretches of mask, one after the other, is recoding with both at once. */
  lemma XorTwice(v: Stages, x: seq<byte>, y: seq<byte>)
    requires |x| + |y| <= |v.recodable|
    ensures |y| <= |XorStages(v, x).recodable| && XorStages(XorStages(v, x), y) == XorStages(v, x + y)
  {
    var a, b := v.recodable[..|x|], v.recodable[|x|..][..|y|];
    XorZipAppend(a, b, x, y);
    assert v.recodable[..|x| + |y|] == a + b;
  }

  class CyclicBuffer {
    const mem: array<byte>
    const width: nat
    var dataPtr: nat
    var totalSize: nat
    var readIdx: nat
    var writeIdx: nat
    var recodeIdx: nat
    var availableToRead: nat
    var availableToWrite: nat
    var availableToRecode: nat

    constructor (mem: array<byte>, width: nat)
      ensures this.mem == mem && this.width == width
    {
      this.mem := mem;
      this.width := width;
    }

    ghost predicate Valid()
      reads this
    {
      && IsWidth(width)
      && 0 < totalSize <= MAX_SIZE
      && dataPtr + totalSize <= mem.Length
      && readIdx < totalSize && recodeIdx < totalSize && writeIdx < totalSize
      && availableToRead + availableToRecode + availableToWrite == totalSize
      && recodeIdx == Wrap(readIdx + availableToRead, totalSize)
      && writeIdx == Wrap(recodeIdx + availableToRecode, totalSize)
    }

    /** The whole ring, seen from the oldest byte on. */
    ghost function Contents(): (turn: seq<byte>)
      requires Valid()
      reads this, mem
      ensures |turn| == totalSize
    {
      Turn(mem[..], dataPtr, totalSize, readIdx)
    }

    /** What the three stages see. */
    ghost function Stages(): (v: Stages)
      requires Valid()
      reads this, mem
    {
      Split(Contents(), availableToRead, availableToRecode)
    }

    /** A block of memory that has nothing in common with the ring. */
    ghost predicate Elsewhere(p: nat, n: nat)
      reads this
    {
      OutsideRing(p, n, dataPtr, totalSize, mem.Length)
    }

    /** No address of it is one of the ring's. */
    lemma ElsewhereSharesNothing(p: nat, n: nat)
      requires Valid() && 0 < n
      ensures Elsewhere(p, n) <==>
        p + n <= mem.Length && forall a: nat :: Covers(p, n, a) ==> !Covers(dataPtr, totalSize, a)
    {
      OutsideSharesNothing(p, n, dataPtr, totalSize, mem.Length);
    }

    /** Sets the struct up for a number of chunks over the region the allocator gives, if any. */
    method Init(chunks: int, malloc: Option<nat>) returns (ok: bool)
      requires IsWidth(width)
      requires 4096 * chunks <= 0x7FFF_FFFF
      requires chunks > 0 && malloc.Some? ==> malloc.value + 4096 * chunks <= mem.Length
      modifies this
      ensures ok <==> 0 < chunks <= 0x4_0000 && malloc.Some?
      ensures ok ==>
        && Valid() && totalSize == 4096 * chunks && dataPtr == malloc.value
        && readIdx == writeIdx == recodeIdx == 0
        && Stages().readable == [] && Stages().recodable == [] && |Stages().free| == totalSize
      ensures !ok ==> availableToRead == 0 && availableToWrite == 0 && availableToRecode == 0
    {
      dataPtr, totalSize, readIdx, writeIdx, recodeIdx := 0, 0, 0, 0, 0;
      availableToRead, availableToWrite, availableToRecode := 0, 0, 0;
      if chunks <= 0 {
        return false;
      }
      totalSize := CHUNK_SIZE * chunks;
      if totalSize > MAX_SIZE {
        return false;
      }
      if malloc.None? {
        return false;
      }
      dataPtr := malloc.value;
      availableToWrite := totalSize;
      return true;
    }

    // ----- reading -----

    /** The advance: the oldest bytes become the youngest free slots. */
    method AdvanceRead(n: nat)
      requires Valid() && n <= availableToRead
      modifies this`readIdx, this`availableToRead, this`availableToWrite
      ensures Valid() && availableToRead == old(availableToRead) - n
      ensures availableToWrite == old(availableToWrite) + n
      ensures Contents() == old(Contents())[n..] + old(Contents())[..n]
    {
      NextIdxWraps(readIdx, n, totalSize);
      TurnRotates(mem[..], dataPtr, totalSize, readIdx, n);
      readIdx := NextIdx(readIdx, n, totalSize);
      availableToWrite := availableToWrite + n;
      availableToRead := availableToRead - n;
    }

    method ReadAway(n: nat)
      requires Valid() && n <= availableToRead
      modifies this`readIdx, this`availableToRead, this`availableToWrite
      ensures Valid() && Stages() == ReadStages(old(Stages()), n)
    {
      ghost var turn := Contents();
      AdvanceRead(n);
      AfterRotation(turn, Contents(), old(availableToRead), availableToRecode, n);
    }

    method CopyOldest(dest: nat, n: nat)
      requires Valid() && n <= availableToRead && Elsewhere(dest, n)
      modifies mem
      ensures Stages() == old(Stages())
      ensures mem[..] == StoreAt(old(mem[..]), dest, old(Stages()).readable[..n])
    {
      SliceOfSlice(Contents(), 0, availableToRead, n);
      TakeFromTurn(mem, dataPtr, totalSize, readIdx, dest, n, Stages().readable[..n]);
    }

    /** Hands the oldest recoded bytes to the caller, at most max of them, or drops them when there is
        no destination; their slots become writable. */
    method Read(dest: Option<nat>, max: nat) returns (n: nat)
      requires Valid() && (dest.Some? ==> Elsewhere(dest.value, max))
      modifies this`readIdx, this`availableToRead, this`availableToWrite, mem
      ensures n == Min(|old(Stages()).readable|, max)
      ensures Valid() && Stages() == ReadStages(old(Stages()), n)
      ensures mem[..] ==
        if dest.Some? then StoreAt(old(mem[..]), dest.value, old(Stages()).readable[..n]) else old(mem[..])
    {
      NothingMoves(Stages());
      if availableToRead == 0 {
        return 0;
      }
      n := Min(availableToRead, max);
      if dest.Some? {
        CopyOldest(dest.value, n);
      }
      ReadAway(n);
    }

    // ----- writing -----

    method PutYoungest(src: nat, n: nat, ghost bytes: seq<byte>)
      requires Valid() && n <= availableToWrite && 0 < availableToWrite && Elsewhere(src, n)
      requires bytes == mem[..][src..src + n]
      modifies mem
      ensures Contents() == StoreAt(old(Contents()), availableToRead + availableToRecode, bytes)
      ensures SameOutside(old(mem[..]), mem[..], dataPtr, totalSize)
    {
      PutIntoTurn(mem, dataPtr, totalSize, readIdx, availableToRead + availableToRecode, writeIdx, src, n, bytes);
    }

    method AdvanceWrite(n: nat)
      requires Valid() && n <= availableToWrite
      modifies this`writeIdx, this`availableToRecode, this`availableToWrite
      ensures Valid() && Contents() == old(Contents())
      ensures availableToRecode == old(availableToRecode) + n && availableToWrite == old(availableToWrite) - n
    {
      NextIdxWraps(writeIdx, n, totalSize);
      writeIdx := NextIdx(writeIdx, n, totalSize);
      availableToRecode := availableToRecode + n;
      availableToWrite := availableToWrite - n;
    }

    /** Once the bytes are in place, the advance hands them to the recoder. */
    method Written(n: nat, ghost turn: seq<byte>, ghost bytes: seq<byte>)
      requires Valid() && |bytes| == n <= availableToWrite && |turn| == totalSize
      requires Contents() == StoreAt(turn, availableToRead + availableToRecode, bytes)
      modifies this`writeIdx, this`availableToRecode, this`availableToWrite
      ensures Valid() && Stages() == WriteStages(Split(turn, old(availableToRead), old(availableToRecode)), bytes)
    {
      AfterWrite(turn, Contents(), availableToRead, availableToRecode, bytes);
      AdvanceWrite(n);
    }

    method WriteFrom(src: nat, n: nat, ghost bytes: seq<byte>)
      requires Valid() && n <= availableToWrite && 0 < availableToWrite && Elsewhere(src, n)
      requires bytes == mem[..][src..src + n]
      modifies this`writeIdx, this`availableToRecode, this`availableToWrite, mem
      ensures Valid() && Stages() == WriteStages(old(Stages()), bytes)
      ensures SameOutside(old(mem[..]), mem[..], dataPtr, totalSize)
    {
      ghost var turn := Contents();
      PutYoungest(src, n, bytes);
      Written(n, turn, bytes);
    }

    method WriteMost(src: nat, max: nat) returns (n: nat, ghost bytes: seq<byte>)
      requires Valid() && Elsewhere(src, max)
      modifies this`writeIdx, this`availableToRecode, this`availableToWrite, mem
      ensures n == Min(old(availableToWrite), max) && bytes == old(mem[..])[src..src + n]
      ensures Valid() && Stages() == WriteStages(old(Stages()), bytes)
      ensures SameOutside(old(mem[..]), mem[..], dataPtr, totalSize)
    {
      n := Min(availableToWrite, max);
      bytes := mem[..][src..src + n];
      if availableToWrite == 0 {
        NothingMoves(Stages());
      } else {
        WriteFrom(src, n, bytes);
      }
    }

    method WriteNothing(max: nat) returns (n: nat)
      requires Valid()
      modifies this`writeIdx, this`availableToRecode, this`availableToWrite
      ensures n == Min(old(availableToWrite), max)
      ensures Valid() && Stages() == WriteStages(old(Stages()), old(Stages()).free[..n])
    {
      NothingMoves(Stages());
      if availableToWrite == 0 {
        return 0;
      }
      n := Min(availableToWrite, max);
      WrittenAsIs(Contents(), availableToRead, availableToRecode, n);
      AdvanceWrite(n);
    }

    /** Takes at most max bytes from the caller, as many as there is room for; without a source the
        slots keep what they hold. */
    method Write(src: Option<nat>, max: nat) returns (n: nat)
      requires Valid() && (src.Some? ==> Elsewhere(src.value, max))
      modifies this`writeIdx, this`availableToRecode, this`availableToWrite, mem
      ensures n == Min(|old(Stages()).free|, max)
      ensures Valid()
      ensures src.Some? ==> Stages() == WriteStages(old(Stages()), old(mem[..])[src.value..src.value + n])
      ensures src.None? ==> Stages() == WriteStages(old(Stages()), old(Stages()).free[..n])
      ensures SameOutside(old(mem[..]), mem[..], dataPtr, totalSize)
    {
      match src
      case Some(p) =>
        ghost var bytes: seq<byte>;
        n, bytes := WriteMost(p, max);
      case None =>
        n := WriteNothing(max);
    }

    // ----- recoding -----

    method XorOldest(mask: nat, n: nat, ghost bytes: seq<byte>)
      requires Valid() && n <= availableToRecode && 0 < availableToRecode && Elsewhere(mask, n)
      requires bytes == XorZip(Contents()[availableToRead..availableToRead + n], mem[..][mask..mask + n])
      modifies mem
      ensures Contents() == StoreAt(old(Contents()), availableToRead, bytes)
      ensures SameOutside(old(mem[..]), mem[..], dataPtr, totalSize)
    {
      XorIntoTurn(mem, width, dataPtr, totalSize, readIdx, availableToRead, recodeIdx, mask, n, bytes);
    }

    method AdvanceRecode(n: nat)
      requires Valid() && n <= availableToRecode
      modifies this`recodeIdx, this`availableToRead, this`availableToRecode
      ensures Valid() && Contents() == old(Contents())
      ensures availableToRead == old(availableToRead) + n && availableToRecode == old(availableToRecode) - n
    {
      NextIdxWraps(recodeIdx, n, totalSize);
      recodeIdx := NextIdx(recodeIdx, n, totalSize);
      availableToRead := availableToRead + n;
      availableToRecode := availableToRecode - n;
    }

    /** Once the bytes are in place, the advance hands them to the reader. */
    method Recoded(n: nat, ghost turn: seq<byte>, ghost bytes: seq<byte>)
      requires Valid() && |bytes| == n <= availableToRecode && |turn| == totalSize
      requires Contents() == StoreAt(turn, availableToRead, bytes)
      modifies this`recodeIdx, this`availableToRead, this`availableToRecode
      ensures Valid() && Stages() == RecodeStages(Split(turn, old(availableToRead), old(availableToRecode)), bytes)
    {
      AfterRecode(turn, Contents(), availableToRead, availableToRecode, n, bytes);
      AdvanceRecode(n);
    }

    method RecodeTo(mask: nat, n: nat, ghost bytes: seq<byte>)
      requires Valid() && n <= availableToRecode && 0 < availableToRecode && Elsewhere(mask, n)
      requires bytes == XorZip(Contents()[availableToRead..availableToRead + n], mem[..][mask..mask + n])
      modifies this`recodeIdx, this`availableToRead, this`availableToRecode, mem
      ensures Valid() && Stages() == RecodeStages(old(Stages()), bytes)
      ensures SameOutside(old(mem[..]), mem[..], dataPtr, totalSize)
    {
      ghost var turn := Contents();
      XorOldest(mask, n, bytes);
      Recoded(n, turn, bytes);
    }

    method RecodeWith(mask: nat, n: nat, ghost bytes: seq<byte>)
      requires Valid() && n <= availableToRecode && 0 < availableToRecode && Elsewhere(mask, n)
      requires bytes == mem[..][mask..mask + n]
      modifies this`recodeIdx, this`availableToRead, this`availableToRecode, mem
      ensures Valid() && Stages() == XorStages(old(Stages()), bytes)
      ensures SameOutside(old(mem[..]), mem[..], dataPtr, totalSize)
    {
      SliceOfSlice(Contents(), availableToRead, availableToRecode, n);
      RecodeTo(mask, n, XorZip(Stages().recodable[..|bytes|], bytes));
    }

    method RecodePlain(n: nat)
      requires Valid() && n <= availableToRecode
      modifies this`recodeIdx, this`availableToRead, this`availableToRecode
      ensures Valid() && Stages() == RecodeStages(old(Stages()), old(Stages()).recodable[..n])
    {
      PassedAsIs(Contents(), availableToRead, availableToRecode, n);
      AdvanceRecode(n);
    }

    method RecodeUnmasked(max: nat) returns (n: nat)
      requires Valid()
      modifies this`recodeIdx, this`availableToRead, this`availableToRecode
      ensures n == Min(|old(Stages()).recodable|, max)
      ensures Valid() && Stages() == RecodeStages(old(Stages()), old(Stages()).recodable[..n])
    {
      NothingMoves(Stages());
      if availableToRecode == 0 {
        return 0;
      }
      n := Min(availableToRecode, max);
      RecodePlain(n);
    }

    method RecodeBlock(mask: nat, n: nat, ghost bytes: seq<byte>)
      requires Valid() && n <= availableToRecode && Elsewhere(mask, n) && bytes == mem[..][mask..mask + n]
      modifies this`recodeIdx, this`availableToRead, this`availableToRecode, mem
      ensures Valid() && Stages() == XorStages(old(Stages()), bytes)
      ensures SameOutside(old(mem[..]), mem[..], dataPtr, totalSize)
    {
      if availableToRecode == 0 {
        NothingRecoded(Stages(), bytes);
      } else {
        RecodeWith(mask, n, bytes);
      }
    }

    /** The call with a mask. */
    method RecodeMasked(mask: nat, max: nat) returns (n: nat, ghost bytes: seq<byte>)
      requires Valid() && Elsewhere(mask, max)
      modifies this`recodeIdx, this`availableToRead, this`availableToRecode, mem
      ensures n == Min(old(availableToRecode), max) && bytes == old(mem[..])[mask..mask + n]
      ensures Valid() && Stages() == XorStages(old(Stages()), bytes)
      ensures SameOutside(old(mem[..]), mem[..], dataPtr, totalSize)
    {
      n := Min(availableToRecode, max);
      bytes := mem[..][mask..mask + n];
      RecodeBlock(mask, n, bytes);
    }

    /** XORs the oldest unrecoded bytes, at most max of them, with the mask bytes; without a mask they
        pass as they are. */
    method RecodeXor(mask: Option<nat>, max: nat) returns (n: nat)
      requires Valid() && (mask.Some? ==> Elsewhere(mask.value, max))
      modifies this`recodeIdx, this`availableToRead, this`availableToRecode, mem
      ensures n == Min(|old(Stages()).recodable|, max)
      ensures Valid()
      ensures mask.Some? ==> Stages() == XorStages(old(Stages()), old(mem[..])[mask.value..mask.value + n])
      ensures mask.None? ==> Stages() == RecodeStages(old(Stages()), old(Stages()).recodable[..n])
      ensures SameOutside(old(mem[..]), mem[..], dataPtr, totalSize)
    {
      match mask
      case Some(p) =>
        ghost var bytes: seq<byte>;
        n, bytes := RecodeMasked(p, max);
      case None =>
        n := RecodeUnmasked(max);
    }

    /** With at least as much waiting as is asked for, the call recodes exactly that. */
    method RecodeExactly(p: nat, n: nat, ghost x: seq<byte>)
      requires Valid() && n <= availableToRecode && Elsewhere(p, n) && x == mem[..][p..p + n]
      modifies this`recodeIdx, this`availableToRead, this`availableToRecode, mem
      ensures Valid() && Stages() == XorStages(old(Stages()), x)
      ensures SameOutside(old(mem[..]), mem[..], dataPtr, totalSize)
    {
      ghost var bytes: seq<byte>;
      var done: nat;
      done, bytes := RecodeMasked(p, n);
      assert bytes == x;
    }

    /** XORs with two stretches of mask that lie in different places. */
    method RecodeTwice(p: nat, n1: nat, q: nat, n2: nat, ghost x: seq<byte>, ghost y: seq<byte>)
      requires Valid() && n1 + n2 <= availableToRecode && Elsewhere(p, n1) && Elsewhere(q, n2)
      requires x == mem[..][p..p + n1] && y == mem[..][q..q + n2]
      modifies this`recodeIdx, this`availableToRead, this`availableToRecode, mem
      ensures Valid() && Stages() == XorStages(old(Stages()), x + y)
      ensures SameOutside(old(mem[..]), mem[..], dataPtr, totalSize)
    {
      ghost var s := mem[..];
      XorTwice(Stages(), x, y);
      RecodeExactly(p, n1, x);
      ghost var s' := mem[..];
      BlockOutside(s, s', dataPtr, totalSize, q, n2);
      RecodeExactly(q, n2, y);
      SameOutsideChains(s, s', mem[..], dataPtr, totalSize);
    }

    /** Passes everything that waits on to the reader as it is.  No other thread may use the ring
        meanwhile: the last access sets the counter to zero whatever was added to it. */
    method RecodeNone() returns (n: nat)
      requires Valid()
      modifies this`recodeIdx, this`availableToRead, this`availableToRecode
      ensures n == |old(Stages()).recodable|
      ensures Valid() && Stages() == RecodeStages(old(Stages()), old(Stages()).recodable)
    {
      n := availableToRecode;
      PassedAsIs(Contents(), availableToRead, n, n);
      ModIsWrap(recodeIdx + n, totalSize);
      recodeIdx := (recodeIdx + n) % totalSize;
      availableToRead := availableToRead + n;
      availableToRecode := 0;
    }

    // ----- recoding with the bytes of another ring -----

    /** Another ring in the same memory that shares no byte with this one. */
    ghost predicate ApartFrom(other: CyclicBuffer)
      reads this, other
    {
      other != this && other.mem == mem && Elsewhere(other.dataPtr, other.totalSize)
    }

    lemma ApartSharesNothing(other: CyclicBuffer)
      requires Valid() && other.Valid()
      ensures ApartFrom(other) <==>
        && other != this && other.mem == mem
        && forall a: nat :: Covers(other.dataPtr, other.totalSize, a) ==> !Covers(dataPtr, totalSize, a)
    {
      if other.mem == mem {
        ElsewhereSharesNothing(other.dataPtr, other.totalSize);
      }
    }

    /** The oldest bytes of the other ring, as one block or two, go into this ring. */
    method RecodeFrom(maskBuf: CyclicBuffer, n: nat)
      requires Valid() && maskBuf.Valid() && ApartFrom(maskBuf)
      requires n <= availableToRecode && n <= maskBuf.availableToRead
      modifies this`recodeIdx, this`availableToRead, this`availableToRecode, mem
      ensures Valid() && Stages() == XorStages(old(Stages()), old(maskBuf.Stages()).readable[..n])
      ensures SameOutside(old(mem[..]), mem[..], dataPtr, totalSize)
    {
      ghost var x := MaskBytes(maskBuf, n);
      if maskBuf.readIdx + n > maskBuf.totalSize {
        RecodeAcrossEnd(maskBuf, n, x);
      } else {
        RecodeExactly(maskBuf.dataPtr + maskBuf.readIdx, n, x);
      }
    }

    lemma MaskBytes(maskBuf: CyclicBuffer, n: nat) returns (x: seq<byte>)
      requires Valid() && maskBuf.Valid() && ApartFrom(maskBuf)
      requires n <= maskBuf.availableToRead
      ensures x == maskBuf.Stages().readable[..n]
      ensures x == LoadRing(mem[..], maskBuf.dataPtr, maskBuf.totalSize, maskBuf.readIdx, n)
    {
      OldestLoaded(mem[..], maskBuf.dataPtr, maskBuf.totalSize, maskBuf.readIdx, n);
      SliceOfSlice(maskBuf.Contents(), 0, maskBuf.availableToRead, n);
      x := maskBuf.Stages().readable[..n];
    }

    method RecodeAcrossEnd(maskBuf: CyclicBuffer, n: nat, ghost x: seq<byte>)
      requires Valid() && maskBuf.Valid() && ApartFrom(maskBuf)
      requires n <= availableToRecode && n <= maskBuf.availableToRead
      requires maskBuf.readIdx + n > maskBuf.totalSize
      requires x == LoadRing(mem[..], maskBuf.dataPtr, maskBuf.totalSize, maskBuf.readIdx, n)
      modifies this`recodeIdx, this`availableToRead, this`availableToRecode, mem
      ensures Valid() && Stages() == XorStages(old(Stages()), x)
      ensures SameOutside(old(mem[..]), mem[..], dataPtr, totalSize)
    {
      var n1: nat := maskBuf.totalSize - maskBuf.readIdx;
      var n2: nat := n - n1;
      ghost var a, b := LoadRingBlocks(mem[..], maskBuf.dataPtr, maskBuf.totalSize, maskBuf.readIdx, n, n1, n2);
      RecodeTwice(maskBuf.dataPtr + maskBuf.readIdx, n1, maskBuf.dataPtr, n2, a, b);
    }

    /** The other ring's bytes stay as they are. */
    method RecodeKeeping(maskBuf: CyclicBuffer, n: nat, ghost x: seq<byte>)
      requires Valid() && maskBuf.Valid() && ApartFrom(maskBuf)
      requires n <= availableToRecode && n <= maskBuf.availableToRead
      requires x == maskBuf.Stages().readable[..n]
      modifies this`recodeIdx, this`availableToRead, this`availableToRecode, mem
      ensures Valid() && Stages() == XorStages(old(Stages()), x)
      ensures maskBuf.Contents() == old(maskBuf.Contents())
      ensures SameOutside(old(mem[..]), mem[..], dataPtr, totalSize)
    {
      ghost var s := mem[..];
      RecodeFrom(maskBuf, n);
      TurnOutside(s, mem[..], dataPtr, totalSize, maskBuf.dataPtr, maskBuf.totalSize, maskBuf.readIdx);
    }

    /** The same, and the other ring moves past the bytes used. */
    method RecodeAndConsume(maskBuf: CyclicBuffer, n: nat, ghost x: seq<byte>)
      requires Valid() && maskBuf.Valid() && ApartFrom(maskBuf)
      requires n <= availableToRecode && n <= maskBuf.availableToRead
      requires x == maskBuf.Stages().readable[..n]
      modifies this`recodeIdx, this`availableToRead, this`availableToRecode, mem
      modifies maskBuf`readIdx, maskBuf`availableToRead, maskBuf`availableToWrite
      ensures Valid() && Stages() == XorStages(old(Stages()), x)
      ensures maskBuf.Valid() && maskBuf.Stages() == ReadStages(old(maskBuf.Stages()), n)
      ensures SameOutside(old(mem[..]), mem[..], dataPtr, totalSize)
    {
      RecodeKeeping(maskBuf, n, x);
      maskBuf.ReadAway(n);
    }

    /** XORs the oldest unrecoded bytes with the oldest bytes of another ring, as many as both have,
        and uses those mask bytes up. */
    method RecodeXorBuf(maskBuf: CyclicBuffer) returns (n: nat, ghost x: seq<byte>)
      requires Valid() && maskBuf.Valid() && ApartFrom(maskBuf)
      modifies this`recodeIdx, this`availableToRead, this`availableToRecode, mem
      modifies maskBuf`readIdx, maskBuf`availableToRead, maskBuf`availableToWrite
      ensures n == Min(|old(Stages()).recodable|, |old(maskBuf.Stages()).readable|)
      ensures x == old(maskBuf.Stages()).readable[..n]
      ensures Valid() && Stages() == XorStages(old(Stages()), x)
      ensures maskBuf.Valid() && maskBuf.Stages() == ReadStages(old(maskBuf.Stages()), n)
      ensures SameOutside(old(mem[..]), mem[..], dataPtr, totalSize)
    {
      n := Min(availableToRecode, maskBuf.availableToRead);
      x := maskBuf.Stages().readable[..n];
      if availableToRecode == 0 || maskBuf.availableToRead == 0 {
        NothingMoves(maskBuf.Stages());
        NothingRecoded(Stages(), x);
      } else {
        RecodeAndConsume(maskBuf, n, x);
      }
    }
  }
}
