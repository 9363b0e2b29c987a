/**
 The growing queue as the program's struct and its calls, each call taken alone, down to the bytes of
 the region.  How the calls of many threads interleave is the subject of module QueueMachine; both
 meet the same abstract queue, QueueMachine.Apply.
 */
module CyclicQueue {
  import opened Bytes
  import opened Ring
  import opened XorMemory
  import opened RingStore
  import opened QueueMachine
  import opened QueueInvariant

  // ----- slots laid out one after the other in a region of bytes -----

  predicate Uniform(slots: seq<Elem>, es: nat) {
    IsSlots(slots, |slots|, es)
  }

  function Flat(slots: seq<Elem>): seq<byte>
    decreases |slots|
  {
    if slots == [] then [] else Flat(slots[..|slots| - 1]) + slots[|slots| - 1]
  }

  lemma OneMore(i: nat, es: nat)
    ensures (i + 1) * es == i * es + es
  {
  }

  lemma {:induction false} FlatLength(slots: seq<Elem>, es: nat)
    requires Uniform(slots, es)
    ensures |Flat(slots)| == |slots| * es
    decreases |slots|
  {
    if slots != [] {
      FlatLength(slots[..|slots| - 1], es);
      OneMore(|slots| - 1, es);
    }
  }

  lemma {:induction false} FlatAppend(a: seq<Elem>, b: seq<Elem>)
    ensures Flat(a + b) == Flat(a) + Flat(b)
    decreases |b|
  {
    if b == [] {
      assert a + b == a;
    } else {
      var n := |b| - 1;
      FlatAppend(a, b[..n]);
      assert (a + b)[..|a + b| - 1] == a + b[..n];
      assert (a + b)[|a + b| - 1] == b[n];
    }
  }

  lemma FlatOne(e: Elem)
    ensures Flat([e]) == e
  {
    assert [e][..0] == [];
  }

  /** A block of whole slots holds the bytes of just those slots. */
  lemma FlatBlock(slots: seq<Elem>, es: nat, i: nat, j: nat)
    requires Uniform(slots, es) && i <= j <= |slots|
    ensures i * es <= j * es <= |Flat(slots)| && Flat(slots)[i * es..j * es] == Flat(slots[i..j])
  {
    var a, b, c := slots[..i], slots[i..j], slots[j..];
    assert slots == (a + b) + c;
    FlatAppend(a + b, c);
    FlatAppend(a, b);
    FlatLength(a, es);
    FlatLength(a + b, es);
  }

  lemma FlatSlot(slots: seq<Elem>, es: nat, i: nat)
    requires Uniform(slots, es) && i < |slots|
    ensures i * es + es <= |Flat(slots)| && Flat(slots)[i * es..i * es + es] == slots[i]
  {
    OneMore(i, es);
    FlatBlock(slots, es, i, i + 1);
    assert slots[i..i + 1] == [slots[i]];
    FlatOne(slots[i]);
  }

  lemma StoreMiddle(s: seq<byte>, a: seq<byte>, b: seq<byte>, c: seq<byte>, b': seq<byte>)
    requires s == a + b + c && |b'| == |b|
    ensures StoreAt(s, |a|, b') == a + b' + c
  {
    StoreAtBlocks(s, |a|, b');
  }

  /** Storing an element at its slot's offset changes that slot and no other. */
  lemma FlatStore(slots: seq<Elem>, es: nat, p: nat, e: Elem)
    requires Uniform(slots, es) && p < |slots| && |e| == es
    ensures p * es + es <= |Flat(slots)|
    ensures StoreAt(Flat(slots), p * es, e) == Flat(slots[p := e])
  {
    FlatSlot(slots, es, p);
    var a, c := slots[..p], slots[p + 1..];
    FlatThree(a, slots[p], c);
    FlatThree(a, e, c);
    assert slots == a + [slots[p]] + c && slots[p := e] == a + [e] + c;
    FlatLength(a, es);
    StoreMiddle(Flat(slots), Flat(a), slots[p], Flat(c), e);
  }

  lemma FlatThree(a: seq<Elem>, e: Elem, c: seq<Elem>)
    ensures Flat(a + [e] + c) == Flat(a) + e + Flat(c)
  {
    FlatAppend(a + [e], c);
    FlatAppend(a, [e]);
    FlatOne(e);
  }

  /** Any region of the right size is made of slots. */
  function Cut(bytes: seq<byte>, n: nat, es: nat): (slots: seq<Elem>)
    requires |bytes| == n * es
    ensures IsSlots(slots, n, es)
    ensures Flat(slots) == bytes
    decreases n
  {
    if n == 0 then []
    else
      OneMore(n - 1, es);
      var front := Cut(bytes[..(n - 1) * es], n - 1, es);
      var slots := front + [bytes[(n - 1) * es..]];
      assert slots[..n - 1] == front;
      slots
  }

  /** The slots of a full or partly full ring from the oldest on, as one block or two. */
  lemma OldestFirst(q: Shared, contents: seq<Elem>, head: nat, tail: nat)
    requires RingOk(q, contents, head, tail)
    ensures contents ==
      if head + q.size > q.capacity then q.data[head..] + q.data[..q.size - (q.capacity - head)]
      else q.data[head..head + q.size]
  {
    var blocks :=
      if head + q.size > q.capacity then q.data[head..] + q.data[..q.size - (q.capacity - head)]
      else q.data[head..head + q.size];
    forall k | 0 <= k < |contents|
      ensures contents[k] == blocks[k]
    {
      MoveSourceIsNext(q, contents, head, tail, k);
    }
  }

  method CopyBlock(dst: array<byte>, at: nat, src: array<byte>, from: nat, n: nat)
    requires dst != src && at + n <= dst.Length && from + n <= src.Length
    modifies dst
    ensures dst[..] == StoreAt(old(dst[..]), at, src[..][from..from + n])
  {
    var bytes := Load(src, from, n, Region(from, from + n));
    assert bytes == src[..][from..from + n];
    Store(dst, at, bytes, Region(at, at + n));
  }

  lemma MulAdd(i: nat, j: nat, es: nat)
    ensures (i + j) * es == i * es + j * es
  {
  }

  /** A block of n slots from slot i on. */
  lemma FlatRun(slots: seq<Elem>, es: nat, i: nat, n: nat)
    requires Uniform(slots, es) && i + n <= |slots|
    ensures i * es + n * es <= |Flat(slots)|
    ensures Flat(slots)[i * es..i * es + n * es] == Flat(slots[i..i + n])
  {
    MulAdd(i, n, es);
    FlatBlock(slots, es, i, i + n);
  }

  lemma StoredFirst(s: seq<byte>, bytes: seq<byte>)
    requires |bytes| <= |s|
    ensures StoreAt(s, 0, bytes)[..|bytes|] == bytes
  {
    StoreAtBlocks(s, 0, bytes);
  }

  /** Two blocks of a region go to the start of another one. */
  method GatherTwo(dst: array<byte>, src: array<byte>, from: nat, n1: nat, n2: nat,
                   ghost a: seq<byte>, ghost b: seq<byte>)
    requires dst != src && from + n1 <= src.Length && n2 <= src.Length && n1 + n2 <= dst.Length
    requires a == src[..][from..from + n1] && b == src[..][0..0 + n2]
    modifies dst
    ensures dst[..][..n1 + n2] == a + b
  {
    ghost var s := dst[..];
    CopyBlock(dst, 0, src, from, n1);
    CopyBlock(dst, n1, src, 0, n2);
    StoreAtParts(s, 0, a, b);
    StoredFirst(s, a + b);
  }

  method GatherOne(dst: array<byte>, src: array<byte>, from: nat, n: nat, ghost a: seq<byte>)
    requires dst != src && from + n <= src.Length && n <= dst.Length
    requires a == src[..][from..from + n]
    modifies dst
    ensures dst[..][..n] == a
  {
    StoredFirst(dst[..], a);
    CopyBlock(dst, 0, src, from, n);
  }

  /** The relocation reads two blocks when the elements wrap, one otherwise; put one after the other
      they are the elements, oldest first. */
  lemma TwoBlocksMoved(q: Shared, contents: seq<Elem>, head: nat, tail: nat, n1: nat, n2: nat,
                       from: nat, m1: nat, m2: nat) returns (a: seq<byte>, b: seq<byte>)
    requires RingOk(q, contents, head, tail) && Uniform(q.data, q.elementSize)
    requires head + q.size > q.capacity && n1 == q.capacity - head && n2 == q.size - n1
    requires from == head * q.elementSize && m1 == n1 * q.elementSize && m2 == n2 * q.elementSize
    ensures from + m1 <= |Flat(q.data)| && m2 <= |Flat(q.data)| && m1 + m2 == q.size * q.elementSize
    ensures a == Flat(q.data)[from..from + m1] && b == Flat(q.data)[0..0 + m2] && Flat(contents) == a + b
  {
    OldestFirst(q, contents, head, tail);
    FlatRun(q.data, q.elementSize, head, n1);
    FlatRun(q.data, q.elementSize, 0, n2);
    assert q.data[head..head + n1] == q.data[head..] && q.data[0..0 + n2] == q.data[..n2];
    a, b := Flat(q.data[head..]), Flat(q.data[..n2]);
    FlatAppend(q.data[head..], q.data[..n2]);
    MulAdd(n1, n2, q.elementSize);
  }

  lemma OneBlockMoved(q: Shared, contents: seq<Elem>, head: nat, tail: nat, from: nat, m: nat) returns (a: seq<byte>)
    requires RingOk(q, contents, head, tail) && Uniform(q.data, q.elementSize)
    requires head + q.size <= q.capacity && from == head * q.elementSize && m == q.size * q.elementSize
    ensures from + m <= |Flat(q.data)| && a == Flat(q.data)[from..from + m] && Flat(contents) == a
  {
    OldestFirst(q, contents, head, tail);
    FlatRun(q.data, q.elementSize, head, q.size);
    a := Flat(contents);
  }

  method MoveOne(dst: array<byte>, src: array<byte>, es: nat, t: nat, size: nat,
                 ghost q: Shared, ghost contents: seq<Elem>, ghost tail: nat)
    requires dst != src && src[..] == Flat(q.data) && Uniform(q.data, es)
    requires q.elementSize == es && q.size == size && RingOk(q, contents, t, tail) && t + size <= q.capacity
    requires size * es <= dst.Length
    modifies dst
    ensures dst[..][..size * es] == Flat(contents)
  {
    var from, m := t * es, size * es;
    ghost var a := OneBlockMoved(q, contents, t, tail, from, m);
    GatherOne(dst, src, from, m, a);
  }

  /** The relocation: the elements go to the start of the new region, oldest first. */
  method MoveOut(dst: array<byte>, src: array<byte>, es: nat, t: nat, size: nat, capacity: nat,
                 ghost q: Shared, ghost contents: seq<Elem>, ghost tail: nat)
    requires dst != src && src[..] == Flat(q.data) && Uniform(q.data, es)
    requires q.elementSize == es && q.size == size && q.capacity == capacity && RingOk(q, contents, t, tail)
    requires size * es <= dst.Length
    modifies dst
    ensures dst[..][..size * es] == Flat(contents)
  {
    if t + size > capacity {
      var tillEnd: nat := capacity - t;
      MoveTwo(dst, src, es, t, tillEnd, size - tillEnd, q, contents, tail);
    } else {
      MoveOne(dst, src, es, t, size, q, contents, tail);
    }
  }

  method MoveTwo(dst: array<byte>, src: array<byte>, es: nat, t: nat, n1: nat, n2: nat,
                 ghost q: Shared, ghost contents: seq<Elem>, ghost tail: nat)
    requires dst != src && src[..] == Flat(q.data) && Uniform(q.data, es)
    requires q.elementSize == es && RingOk(q, contents, t, tail)
    requires t + q.size > q.capacity && n1 == q.capacity - t && n2 == q.size - n1
    requires q.size * es <= dst.Length
    modifies dst
    ensures dst[..][..q.size * es] == Flat(contents)
  {
    var from, m1, m2 := t * es, n1 * es, n2 * es;
    ghost var a, b := TwoBlocksMoved(q, contents, t, tail, n1, n2, from, m1, m2);
    GatherTwo(dst, src, from, m1, m2, a, b);
  }

  /** What sits in the ring has the size of an element. */
  lemma ContentsUniform(q: Shared, contents: seq<Elem>, head: nat, tail: nat)
    requires RingOk(q, contents, head, tail) && Uniform(q.data, q.elementSize)
    ensures Uniform(contents, q.elementSize)
  {
    forall k | 0 <= k < |contents|
      ensures |contents[k]| == q.elementSize
    {
      assert q.data[Wrap(head + k, q.capacity)] == contents[k];
    }
  }

  /** The new region, with the elements at its start, is made of slots. */
  lemma RegionAfterMove(region: seq<byte>, contents: seq<Elem>, n: nat, es: nat, used: nat) returns (slots: seq<Elem>)
    requires Uniform(contents, es) && |region| == n * es && |contents| <= n
    requires used == |contents| * es <= |region| && region[..used] == Flat(contents)
    ensures IsSlots(slots, n, es) && Flat(slots) == region && slots[..|contents|] == contents
  {
    MulAdd(|contents|, n - |contents|, es);
    var rest := Cut(region[used..], n - |contents|, es);
    slots := contents + rest;
    FlatAppend(contents, rest);
    assert region == region[..used] + region[used..];
  }

  /** A caller's buffer with an element copied to its start. */
  ghost function Filled(buffer: seq<byte>, e: Elem): seq<byte>
    requires |e| <= |buffer|
  {
    e + buffer[|e|..]
  }

  lemma FilledByStore(buffer: seq<byte>, e: Elem)
    requires |e| <= |buffer|
    ensures StoreAt(buffer, 0, e) == Filled(buffer, e)
  {
    StoreAtBlocks(buffer, 0, e);
  }

  class CyclicQueue {
    var dataPtr: array?<byte>
    var elementSize: nat
    var capacity: nat
    var maxCapacity: nat
    var size: nat
    var takeIdx: nat
    var pushIdx: nat
    ghost var slots: seq<Elem>
    ghost var contents: seq<Elem>

    constructor ()
    {
    }

    ghost function View(): Shared
      reads this
    {
      Shared(elementSize, maxCapacity, capacity, slots, size, takeIdx, pushIdx)
    }

    /** The region is made of element-sized slots, and the ring from head to tail holds the abstract
        contents; a holder of a lock keeps that index in a local. */
    ghost predicate Holds(head: nat, tail: nat)
      reads this, dataPtr
    {
      && dataPtr != null && dataPtr[..] == Flat(slots)
      && ShapeOk(View())
      && RingOk(View(), contents, head, tail)
    }

    ghost predicate Valid()
      reads this, dataPtr
    {
      Holds(takeIdx, pushIdx)
    }

    /** Puts an empty ring over a fresh region. */
    method SetUp(es: nat, cap: nat, bytes: nat)
      requires es <= MAX_ELEMENT_SIZE && MIN_CAPACITY <= cap <= MAX_CAPACITY && bytes == cap * es
      modifies this
      ensures Holds(0, 0) && contents == [] && size == takeIdx == pushIdx == 0 && fresh(dataPtr)
      ensures elementSize == es && capacity == cap && maxCapacity == MAX_CAPACITY
    {
      dataPtr := new byte[bytes];
      elementSize, capacity, maxCapacity, size, takeIdx, pushIdx := es, cap, MAX_CAPACITY, 0, 0, 0;
      slots, contents := Cut(dataPtr[..], cap, es), [];
    }

    /** Sets the struct up with at least the minimal capacity. */
    method Init(es: nat, initialCapacity: nat, mallocOk: bool) returns (ok: bool)
      modifies this
      ensures ok <==> initialCapacity <= 0x40000 && es <= 0x400 && mallocOk
      ensures ok ==>
        && Valid() && contents == [] && fresh(dataPtr) && elementSize == es && maxCapacity == 0x40000
        && capacity == if initialCapacity < 0x40 then 0x40 else initialCapacity
      ensures !ok ==> dataPtr == null && size == 0
    {
      dataPtr, elementSize, capacity, maxCapacity, size, takeIdx, pushIdx := null, 0, 0, 0, 0, 0, 0;
      var cap := if initialCapacity < MIN_CAPACITY then MIN_CAPACITY else initialCapacity;
      if cap > MAX_CAPACITY {
        return false;
      }
      if es > MAX_ELEMENT_SIZE {
        return false;
      }
      if !mallocOk {
        return false;
      }
      SetUp(es, cap, cap * es);
      return true;
    }

    // ----- growing -----

    /** Switches to a new region that already holds the elements. */
    method Switch(region: array<byte>, newCapacity: nat, ghost head: nat, ghost tail: nat)
      requires Holds(head, tail) && size == capacity < newCapacity == NewCapacity(View())
      requires region.Length == newCapacity * elementSize && size * elementSize <= region.Length
      requires region[..][..size * elementSize] == Flat(contents)
      modifies this`dataPtr, this`capacity, this`slots
      ensures Holds(0, size) && size < capacity && capacity == newCapacity && dataPtr == region
    {
      ContentsUniform(View(), contents, head, tail);
      ghost var cut := RegionAfterMove(region[..], contents, newCapacity, elementSize, size * elementSize);
      RingAfterSwitch(View(), contents, head, tail, cut);
      dataPtr, capacity, slots := region, newCapacity, cut;
    }

    method Relocate(t: nat, newCapacity: nat, bytes: nat, ghost tail: nat)
      requires Holds(t, tail) && size == capacity < newCapacity == NewCapacity(View())
      requires bytes == newCapacity * elementSize
      modifies this`dataPtr, this`capacity, this`slots
      ensures Holds(0, size) && size < capacity && capacity == newCapacity && fresh(dataPtr)
    {
      var region := new byte[bytes];
      MulAdd(size, newCapacity - size, elementSize);
      MoveOut(region, dataPtr, elementSize, t, size, capacity, View(), contents, tail);
      Switch(region, newCapacity, t, tail);
    }

    /** Both locks are held and the ring is full: moves the elements to a region of twice the capacity,
        or as much as the limit allows; fails at the limit or when the allocator refuses. */
    method Grow(t: nat, mallocOk: bool, ghost tail: nat) returns (ok: bool)
      requires Holds(t, tail) && size == capacity
      modifies this`dataPtr, this`capacity, this`slots
      ensures ok <==> old(capacity) < maxCapacity && mallocOk
      ensures ok ==> Holds(0, size) && size < capacity && capacity == Min(2 * old(capacity), maxCapacity)
      ensures ok ==> fresh(dataPtr)
      ensures !ok ==> capacity == old(capacity) && dataPtr == old(dataPtr) && Holds(t, tail)
    {
      var newCapacity := Min(capacity * 2, maxCapacity);
      if newCapacity == capacity {
        return false;
      }
      if !mallocOk {
        return false;
      }
      Relocate(t, newCapacity, elementSize * newCapacity, tail);
      return true;
    }

    // ----- push and take -----

    method WriteSlot(p: nat, element: array<byte>, ghost e: Elem, ghost head: nat)
      requires Holds(head, p) && size < capacity && element != dataPtr
      requires elementSize <= element.Length && e == element[..elementSize]
      modifies this`slots, dataPtr
      ensures Holds(head, p) && slots[p] == e
    {
      FlatStore(slots, elementSize, p, e);
      RingAfterWrite(View(), contents, head, p, e);
      assert element[..][0..0 + elementSize] == e;
      CopyBlock(dataPtr, p * elementSize, element, 0, elementSize);
      slots := slots[p := e];
    }

    /** Copies the element to the free slot p and counts it; p becomes the slot after it. */
    method Append(p: nat, element: array<byte>, ghost e: Elem, ghost head: nat) returns (p': nat)
      requires Holds(head, p) && size < capacity && element != dataPtr
      requires elementSize <= element.Length && e == element[..elementSize]
      modifies this`slots, this`size, this`contents, dataPtr
      ensures Holds(head, p') && contents == old(contents) + [e]
    {
      WriteSlot(p, element, e, head);
      RingAfterAdd(View(), contents, head, p, e);
      p' := (p + 1) % capacity;
      size := size + 1;
      contents := contents + [e];
    }

    /** What a push does to the abstract queue. */
    ghost function PushOp(e: Elem, ok: bool): Op
      reads this
    {
      if ok then Pushed(e) else if capacity == maxCapacity then PushFull(e) else PushNoMemory(e)
    }

    /** When the ring is full: locks the take index too, reads the size again, and grows. */
    method MakeRoom(p: nat, mallocOk: bool) returns (ok: bool, p': nat, t: nat, ghost head: nat)
      requires Holds(takeIdx, p)
      modifies this`dataPtr, this`capacity, this`slots, this`takeIdx
      ensures Holds(head, p') && head == if t == UINT32_MAX then takeIdx else t
      ensures ok <==> old(size) < old(capacity) || (old(capacity) < maxCapacity && mallocOk)
      ensures if ok then size < capacity else size == capacity
      ensures capacity ==
        if ok && old(size) == old(capacity) then Min(2 * old(capacity), maxCapacity) else old(capacity)
      ensures dataPtr == old(dataPtr) || fresh(dataPtr)
    {
      ok, p', t, head := true, p, UINT32_MAX, takeIdx;
      if size == capacity {
        t := takeIdx;
        takeIdx := UINT32_MAX;
        if size == capacity {
          ok := Grow(t, mallocOk, p);
          if ok {
            t, p', head := 0, size, 0;
          }
        }
      }
    }

    /** Gives back the locks that are held: the take lock only when the local index is a real one. */
    method Unlock(p: nat, t: nat, ghost head: nat)
      requires Holds(head, p) && head == if t == UINT32_MAX then takeIdx else t
      modifies this`takeIdx, this`pushIdx
      ensures Valid()
    {
      if t != UINT32_MAX {
        takeIdx := t;
      }
      pushIdx := p;
    }

    /** Appends an element, growing when the ring is full; it fails exactly when the ring is full and
        cannot grow. */
    method Push(element: array<byte>, mallocOk: bool) returns (ok: bool)
      requires Valid() && element != dataPtr && elementSize <= element.Length
      modifies this`dataPtr, this`capacity, this`slots, this`contents, this`size, this`takeIdx, this`pushIdx, dataPtr
      ensures Valid() && (dataPtr == old(dataPtr) || fresh(dataPtr))
      ensures ok <==> old(size) < old(capacity) || (old(capacity) < maxCapacity && mallocOk)
      ensures contents == if ok then old(contents) + [old(element[..elementSize])] else old(contents)
      ensures Apply(old(contents), PushOp(old(element[..elementSize]), ok), maxCapacity) == Some(contents)
      ensures capacity ==
        if ok && old(size) == old(capacity) then Min(2 * old(capacity), maxCapacity) else old(capacity)
    {
      ghost var e := element[..elementSize];
      var p := pushIdx;
      pushIdx := UINT32_MAX;
      var t: nat;
      ghost var head: nat;
      ok, p, t, head := MakeRoom(p, mallocOk);
      if ok {
        p := Append(p, element, e, head);
      }
      Unlock(p, t, head);
    }

    lemma OldestSlot(t: nat, tail: nat)
      requires Holds(t, tail) && size > 0
      ensures t < |slots| && slots[t] == contents[0] && |slots[t]| == elementSize
    {
      assert Wrap(t + 0, capacity) == t;
      assert slots[Wrap(t + 0, capacity)] == contents[0];
    }

    method ReadSlot(t: nat, element: array<byte>, ghost tail: nat)
      requires Holds(t, tail) && t < |slots| && element != dataPtr && elementSize <= element.Length
      modifies element
      ensures |slots[t]| <= element.Length && element[..] == Filled(old(element[..]), slots[t])
    {
      FlatSlot(slots, elementSize, t);
      FilledByStore(element[..], slots[t]);
      CopyBlock(element, 0, dataPtr, t * elementSize, elementSize);
    }

    /** Copies the oldest element out and uncounts it; t becomes the slot after it. */
    method Remove(t: nat, element: array<byte>, ghost tail: nat) returns (t': nat)
      requires Holds(t, tail) && size > 0 && element != dataPtr && elementSize <= element.Length
      modifies this`size, this`contents, element
      ensures Holds(t', tail) && contents == old(contents)[1..]
      ensures |old(contents)[0]| <= element.Length && element[..] == Filled(old(element[..]), old(contents)[0])
    {
      OldestSlot(t, tail);
      ReadSlot(t, element, tail);
      RingAfterRemove(View(), contents, t, tail);
      t' := (t + 1) % capacity;
      size := size - 1;
      contents := contents[1..];
    }

    /** With the take lock held: reads the size again, and removes the oldest element if there is one. */
    method TakeLocked(t: nat, element: array<byte>, ghost tail: nat) returns (ok: bool, t': nat)
      requires Holds(t, tail) && element != dataPtr && elementSize <= element.Length
      modifies this`size, this`contents, element
      ensures Holds(t', tail) && (ok <==> old(contents) != [])
      ensures ok ==> contents == old(contents)[1..] && |old(contents)[0]| <= element.Length
      ensures ok ==> element[..] == Filled(old(element[..]), old(contents)[0])
      ensures !ok ==> contents == old(contents) && element[..] == old(element[..])
    {
      ok, t' := false, t;
      if size != 0 {
        t' := Remove(t, element, tail);
        ok := true;
      }
    }

    /** Takes the oldest element; it fails exactly when there is none. */
    method Take(element: array<byte>) returns (ok: bool)
      requires Valid() && element != dataPtr && elementSize <= element.Length
      modifies this`size, this`contents, this`takeIdx, element
      ensures Valid() && (ok <==> old(contents) != [])
      ensures ok ==> contents == old(contents)[1..] && |old(contents)[0]| == elementSize
      ensures ok ==> element[..] == old(contents)[0] + old(element[elementSize..])
      ensures !ok ==> contents == old(contents) && element[..] == old(element[..])
    {
      if size == 0 {
        return false;
      }
      ContentsUniform(View(), contents, takeIdx, pushIdx);
      var t := takeIdx;
      takeIdx := UINT32_MAX;
      ok, t := TakeLocked(t, element, pushIdx);
      takeIdx := t;
    }
  }
}
