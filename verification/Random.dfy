/** The byte stream of the pseudo-random generator, and how a buffer is filled from it. */
module Random {
  import opened Bytes
  import opened XorMemory
  import opened RingStore
  import opened Xoshiro

  // ----- the byte stream -----

  /** An output as it is laid out in memory, low byte first. */
  function Emitted(w: Words): (bytes: seq<byte>)
    ensures |bytes| == 4
  {
    Bytes32(Output(w).bits)
  }

  /** The first n outputs from a state on. */
  function Outputs(w: Words, n: nat): (words: seq<word>)
    ensures |words| == n
  {
    if n == 0 then [] else Outputs(w, n - 1) + [Output(After(w, n - 1))]
  }

  /** Words as bytes, each low byte first. */
  function Serialized(words: seq<word>): (bytes: seq<byte>)
    ensures |bytes| == 4 * |words|
    decreases |words|
  {
    if words == [] then []
    else Serialized(words[..|words| - 1]) + Bytes32(words[|words| - 1].bits)
  }

  /** How many outputs n bytes take. */
  function Draws(n: nat): nat {
    (n + 3) / 4
  }

  /** The first n bytes from a state on: the serialized outputs, the last one cut off where n ends. */
  function Stream(w: Words, n: nat): (bytes: seq<byte>)
    ensures |bytes| == n
  {
    Serialized(Outputs(w, Draws(n)))[..n]
  }

  lemma OneMoreOutput(w: Words, n: nat)
    ensures Serialized(Outputs(w, n + 1)) == Serialized(Outputs(w, n)) + Emitted(After(w, n))
  {
    assert Outputs(w, n + 1)[..n] == Outputs(w, n);
  }

  lemma OutputsGrow(w: Words, n: nat)
    ensures Outputs(w, n + 1)[..n] == Outputs(w, n)
  {
  }

  lemma TakeTwice(words: seq<word>, n: nat, m: nat)
    requires m <= n <= |words|
    ensures words[..n][..m] == words[..m]
  {
  }

  lemma {:induction false} OutputsPrefix(w: Words, m: nat, n: nat)
    requires m <= n
    ensures Outputs(w, n)[..m] == Outputs(w, m)
  {
    if m < n {
      OutputsPrefix(w, m, n - 1);
      OutputsGrow(w, n - 1);
      TakeTwice(Outputs(w, n), n - 1, m);
    }
  }

  lemma {:induction false} SerializedPrefix(words: seq<word>, m: nat)
    requires m <= |words|
    ensures Serialized(words)[..4 * m] == Serialized(words[..m])
    decreases |words|
  {
    if m == |words| {
      assert words[..m] == words;
    } else {
      var front := words[..|words| - 1];
      SerializedPrefix(front, m);
      assert front[..m] == words[..m];
    }
  }

  /** Asking for fewer bytes gives the beginning of what asking for more would give. */
  lemma StreamPrefix(w: Words, m: nat, n: nat)
    requires m <= n
    ensures Stream(w, m) == Stream(w, n)[..m]
  {
    OutputsPrefix(w, Draws(m), Draws(n));
    SerializedPrefix(Outputs(w, Draws(n)), Draws(m));
  }

  function LowByte(x: word): byte {
    Byte((x.bits & 0xFF) as bv8)
  }

  function DropByte(x: word): word {
    Word(x.bits >> 8)
  }

  /** The bytes that shifting a word out gives, low byte first. */
  function LowBytes(x: word, n: nat): (bytes: seq<byte>)
    ensures |bytes| == n
    decreases n
  {
    if n == 0 then [] else [LowByte(x)] + LowBytes(DropByte(x), n - 1)
  }

  lemma BytesInPlace(x: word)
    ensures Bytes32(x.bits)[0] == LowByte(x)
    ensures Bytes32(x.bits)[1] == LowByte(DropByte(x))
    ensures Bytes32(x.bits)[2] == LowByte(DropByte(DropByte(x)))
  {
  }

  /** They are the first bytes of the word as it is laid out in memory. */
  lemma LowBytesAreFirst(x: word, n: nat)
    requires n < 4
    ensures LowBytes(x, n) == Bytes32(x.bits)[..n]
  {
    BytesInPlace(x);
    var x1 := DropByte(x);
    var x2 := DropByte(x1);
    if n == 1 {
      assert LowBytes(x, 1) == [LowByte(x)] + LowBytes(x1, 0);
    } else if n == 2 {
      assert LowBytes(x1, 1) == [LowByte(x1)] + LowBytes(x2, 0);
    } else if n == 3 {
      assert LowBytes(x2, 1) == [LowByte(x2)];
      assert LowBytes(x1, 2) == [LowByte(x1)] + LowBytes(x2, 1);
    }
  }

  // ----- filling a buffer from the generator -----

  /** One output goes to memory. */
  method FillWord(buf: array<byte>, p: nat, state: array<word>, ghost w: Words)
    requires p + 4 <= buf.Length && state.Length == 4 && WordsOf(state[..]) == w
    modifies buf, state
    ensures buf[..] == StoreAt(old(buf[..]), p, Emitted(w)) && WordsOf(state[..]) == Next(w)
  {
    var next := Xoshiro128Plus(state);
    Store(buf, p, Bytes32(next.bits), Region(p, p + 4));
  }

  lemma StoredNext(s: seq<byte>, at: nat, w: Words, k: nat)
    requires at + 4 * (k + 1) <= |s|
    ensures StoreAt(StoreAt(s, at, Serialized(Outputs(w, k))), at + 4 * k, Emitted(After(w, k)))
         == StoreAt(s, at, Serialized(Outputs(w, k + 1)))
  {
    OneMoreOutput(w, k);
    StoreAtParts(s, at, Serialized(Outputs(w, k)), Emitted(After(w, k)));
  }

  /** How far filling with whole words has come. */
  ghost predicate Filled(s: seq<byte>, now: seq<byte>, at: nat, w: Words, state: Words, k: nat) {
    at + 4 * k <= |s| && now == StoreAt(s, at, Serialized(Outputs(w, k))) && state == After(w, k)
  }

  lemma FilledNext(s: seq<byte>, now: seq<byte>, now': seq<byte>, at: nat, w: Words, state: Words, k: nat)
    requires Filled(s, now, at, w, state, k) && at + 4 * (k + 1) <= |s|
    requires now' == StoreAt(now, at + 4 * k, Emitted(state))
    ensures Filled(s, now', at, w, Next(state), k + 1)
  {
    StoredNext(s, at, w, k);
  }

  lemma NothingFilled(s: seq<byte>, at: nat, w: Words)
    requires at <= |s|
    ensures Filled(s, s, at, w, w, 0)
  {
  }

  method FillNext(buf: array<byte>, at: nat, filled: nat, state: array<word>,
                  ghost s: seq<byte>, ghost w: Words, ghost k: nat)
    requires state.Length == 4 && Filled(s, buf[..], at, w, WordsOf(state[..]), k)
    requires filled == 4 * k && at + filled + 4 <= buf.Length == |s|
    modifies buf, state
    ensures Filled(s, buf[..], at, w, WordsOf(state[..]), k + 1)
  {
    ghost var now, was := buf[..], WordsOf(state[..]);
    FillWord(buf, at + filled, state, was);
    FilledNext(s, now, buf[..], at, w, was, k);
  }

  /** Whole words, one output each. */
  method FillWords(buf: array<byte>, at: nat, n: nat, state: array<word>, ghost s: seq<byte>, ghost w: Words)
    requires at + 4 * n <= buf.Length && state.Length == 4
    requires s == buf[..] && w == WordsOf(state[..])
    modifies buf, state
    ensures Filled(s, buf[..], at, w, WordsOf(state[..]), n)
  {
    NothingFilled(s, at, w);
    for k := 0 to n
      invariant Filled(s, buf[..], at, w, WordsOf(state[..]), k)
    {
      FillNext(buf, at, 4 * k, state, s, w, k);
    }
  }

  /** The bytes after the last whole word, shifted out of one more output. */
  method FillTail(buf: array<byte>, p: nat, left: nat, word0: word)
    requires p + left <= buf.Length
    modifies buf
    ensures buf[..] == StoreAt(old(buf[..]), p, LowBytes(word0, left))
  {
    var next := word0;
    var filled: nat := 0;
    while filled < left
      invariant filled <= left
      invariant StoreAt(buf[..], p + filled, LowBytes(next, left - filled))
             == StoreAt(old(buf[..]), p, LowBytes(word0, left))
    {
      StoreAtParts(buf[..], p + filled, [LowByte(next)], LowBytes(DropByte(next), left - filled - 1));
      StoreByte(buf, p + filled, LowByte(next));
      next := DropByte(next);
      filled := filled + 1;
    }
  }

  method StoreByte(buf: array<byte>, p: nat, b: byte)
    requires p < buf.Length
    modifies buf
    ensures buf[..] == StoreAt(old(buf[..]), p, [b])
  {
    Store(buf, p, [b], Region(p, p + 1));
  }

  lemma CutInside(whole: seq<byte>, more: seq<byte>, r: nat)
    requires r <= |more|
    ensures (whole + more)[..|whole| + r] == whole + more[..r]
  {
  }

  lemma PartOfWord(w: Words, k: nat, r: nat, drawn: nat, max: nat)
    requires 0 < r < 4 && drawn == k + 1 && max == 4 * k + r
    ensures Serialized(Outputs(w, drawn))[..max] == Serialized(Outputs(w, k)) + LowBytes(Output(After(w, k)), r)
  {
    OneMoreOutput(w, k);
    LowBytesAreFirst(Output(After(w, k)), r);
    CutInside(Serialized(Outputs(w, k)), Emitted(After(w, k)), r);
  }

  lemma NoBytesMore(bytes: seq<byte>, x: word)
    ensures bytes + LowBytes(x, 0) == bytes == bytes[..|bytes|]
  {
  }

  lemma WholeWords(w: Words, k: nat, max: nat)
    requires max == 4 * k
    ensures Stream(w, max) == Serialized(Outputs(w, k)) + LowBytes(Output(After(w, k)), 0)
  {
    assert Draws(max) == k;
    NoBytesMore(Serialized(Outputs(w, k)), Output(After(w, k)));
  }

  lemma WordsAndPart(w: Words, k: nat, r: nat, max: nat)
    requires 0 < r < 4 && max == 4 * k + r
    ensures Stream(w, max) == Serialized(Outputs(w, k)) + LowBytes(Output(After(w, k)), r)
  {
    PartOfWord(w, k, r, Draws(max), max);
  }

  lemma StreamSplit(w: Words, k: nat, r: nat, max: nat)
    requires r < 4 && max == 4 * k + r
    ensures Stream(w, max) == Serialized(Outputs(w, k)) + LowBytes(Output(After(w, k)), r)
  {
    if r > 0 {
      WordsAndPart(w, k, r, max);
    } else {
      WholeWords(w, k, max);
    }
  }

  lemma FilledAll(s: seq<byte>, now: seq<byte>, now': seq<byte>, at: nat, w: Words, state: Words,
                  n: nat, left: nat, max: nat)
    requires Filled(s, now, at, w, state, n) && left < 4 && max == 4 * n + left && at + max <= |s|
    requires now' == StoreAt(now, at + 4 * n, LowBytes(Output(state), left))
    ensures now' == StoreAt(s, at, Stream(w, max))
  {
    StreamSplit(w, n, left, max);
    StoreAtParts(s, at, Serialized(Outputs(w, n)), LowBytes(Output(state), left));
  }

  method FillRest(buf: array<byte>, p: nat, left: nat, state: array<word>, ghost w: Words)
    requires p + left <= buf.Length && left < 4 && state.Length == 4 && WordsOf(state[..]) == w
    modifies buf, state
    ensures buf[..] == StoreAt(old(buf[..]), p, LowBytes(Output(w), left))
    ensures WordsOf(state[..]) == if left > 0 then Next(w) else w
  {
    if left > 0 {
      var next := Xoshiro128Plus(state);
      FillTail(buf, p, left, next);
    }
  }

  lemma LastState(w: Words, max: nat, n: nat, left: nat)
    requires max == 4 * n + left && left < 4
    ensures After(w, Draws(max)) == if left > 0 then Next(After(w, n)) else After(w, n)
  {
  }

  /** What is left after the whole words. */
  method FillLast(buf: array<byte>, at: nat, whole: nat, left: nat, max: nat, state: array<word>,
                  ghost s: seq<byte>, ghost w: Words, ghost n: nat, ghost was: Words)
    requires at + max <= buf.Length == |s| && whole == 4 * n && left < 4 && max == whole + left
    requires state.Length == 4 && was == WordsOf(state[..]) && Filled(s, buf[..], at, w, was, n)
    modifies buf, state
    ensures buf[..] == StoreAt(s, at, Stream(w, max)) && WordsOf(state[..]) == if left > 0 then Next(was) else was
  {
    ghost var now := buf[..];
    FillRest(buf, at + whole, left, state, was);
    FilledAll(s, now, buf[..], at, w, was, n, left, max);
  }

  /** Fills max bytes from a fresh state: exactly the stream of the seed, one step for every four bytes
      or part of four. */
  method FillPrng(buf: array<byte>, at: nat, max: nat, seed: word) returns (filled: nat, ghost last: Words)
    requires at + max <= buf.Length
    modifies buf
    ensures filled == max && last == After(Seeded(seed), Draws(max))
    ensures buf[..] == StoreAt(old(buf[..]), at, Stream(Seeded(seed), max))
  {
    ghost var s, w, n := buf[..], Seeded(seed), max / 4;
    var state := new word[4];
    FillState(state, seed);
    var whole: nat := (max / 4) * 4;
    FillWords(buf, at, max / 4, state, s, w);
    FillLast(buf, at, whole, max - whole, max, state, s, w, n, WordsOf(state[..]));
    LastState(w, max, n, max - whole);
    filled := max;
    last := WordsOf(state[..]);
  }

  /** The first bytes that the seed 1 gives: two outputs, each low byte first, the second one cut off. */
  lemma SeedOneBytes()
    ensures Stream(Seeded(Word(1)), 6)
         == [Byte(0x38), Byte(0xbe), Byte(0x3d), Byte(0x2f), Byte(0xcd), Byte(0x8a)]
  {
    var w := Seeded(Word(1));
    SeedOneOutputs();
    assert Draws(6) == 2 && After(w, 0) == w && After(w, 1) == Next(w);
    OneMoreOutput(w, 0);
    OneMoreOutput(w, 1);
    assert Emitted(w) == [Byte(0x38), Byte(0xbe), Byte(0x3d), Byte(0x2f)];
    assert Emitted(Next(w)) == [Byte(0xcd), Byte(0x8a), Byte(0x46), Byte(0x2a)];
  }
}
