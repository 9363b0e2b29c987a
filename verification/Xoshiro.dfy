/** The generator's state step and its seeding, on machine words. */
module Xoshiro {
  // ----- 32-bit words -----

  datatype word = Word(bits: bv32)

  function Mix(a: word, b: word): word {
    Word(a.bits ^ b.bits)
  }

  function Sum(a: word, b: word): word {
    Word(a.bits + b.bits)
  }

  function Left9(x: word): word {
    Word(x.bits << 9)
  }

  function Left18(x: word): word {
    Word(x.bits << 18)
  }

  function RotateLeft11(x: word): word {
    Word((x.bits << 11) | (x.bits >> 21))
  }

  function RotateRight11(x: word): word {
    Word((x.bits >> 11) | (x.bits << 21))
  }

  /** The word x whose Mix with Left9(x) is y: mixing twice is mixing with a shift of 18, and mixing
      with that twice changes nothing, because shifts of 36 leave nothing. */
  function Unmix9(y: word): word {
    Mix(Mix(y, Left9(y)), Left18(Mix(y, Left9(y))))
  }

  lemma RotationsCancel(x: word)
    ensures RotateRight11(RotateLeft11(x)) == x && RotateLeft11(RotateRight11(x)) == x
  {
  }

  lemma ShiftsAreLinear(a: word, b: word)
    ensures Left9(Mix(a, b)) == Mix(Left9(a), Left9(b)) && Left18(Mix(a, b)) == Mix(Left18(a), Left18(b))
  {
  }

  lemma ShiftsAdd(x: word)
    ensures Left9(Left9(x)) == Left18(x) && Left9(Left18(x)) == Left18(Left9(x))
  {
  }

  lemma MixCommutes(a: word, b: word)
    ensures Mix(a, b) == Mix(b, a)
  {
  }

  lemma Regroup(a: word, b: word, c: word)
    ensures Mix(Mix(a, b), c) == Mix(a, Mix(b, c))
  {
  }

  /** A word mixed in twice is gone. */
  lemma Drop(a: word, b: word)
    ensures Mix(a, Mix(a, b)) == b && Mix(a, Mix(b, a)) == b
    ensures Mix(Mix(a, b), a) == b && Mix(Mix(b, a), a) == b
  {
    MixCommutes(a, b);
    MixCommutes(Mix(a, b), a);
  }

  lemma DropMiddle(a: word, b: word, c: word)
    ensures Mix(Mix(a, b), Mix(b, c)) == Mix(a, c)
  {
    Regroup(a, b, Mix(b, c));
    Drop(b, c);
  }

  lemma SwapMiddle(a: word, b: word, c: word, d: word)
    ensures Mix(Mix(a, b), Mix(c, d)) == Mix(Mix(a, c), Mix(b, d))
  {
    Regroup(a, b, Mix(c, d));
    Regroup(b, c, d);
    MixCommutes(b, c);
    Regroup(c, b, d);
    Regroup(a, c, Mix(b, d));
  }

  lemma Reorder(a: word, b: word, c: word)
    ensures Mix(Mix(a, b), c) == Mix(b, Mix(a, c)) == Mix(b, Mix(c, a))
  {
    MixCommutes(a, b);
    Regroup(b, a, c);
    MixCommutes(a, c);
  }

  lemma DropLast(a: word, b: word, c: word)
    ensures Mix(Mix(Mix(a, b), c), Mix(b, c)) == a
  {
    Regroup(a, b, c);
    Drop(Mix(b, c), a);
  }

  lemma DropTwo(a: word, b: word, c: word)
    ensures Mix(Mix(Mix(Mix(a, b), c), a), b) == c
  {
    Regroup(Mix(Mix(a, b), c), a, b);
    Drop(Mix(a, b), c);
  }

  lemma DropShared(a: word, b: word, c: word, d: word)
    ensures Mix(Mix(Mix(a, b), c), Mix(Mix(a, c), d)) == Mix(b, d)
  {
    Reorder(a, b, c);
    DropMiddle(b, Mix(a, c), d);
  }

  lemma DropInner(a: word, b: word, c: word)
    ensures Mix(a, Mix(Mix(c, a), b)) == Mix(c, b)
  {
    Regroup(a, Mix(c, a), b);
    Drop(a, c);
  }

  lemma DropPair(a: word, b: word, c: word)
    ensures Mix(Mix(a, b), Mix(Mix(c, a), b)) == c
  {
    Regroup(c, a, b);
    Drop(Mix(a, b), c);
  }

  lemma Twice9(x: word)
    ensures Mix(Mix(x, Left9(x)), Left9(Mix(x, Left9(x)))) == Mix(x, Left18(x))
  {
    ShiftsAreLinear(x, Left9(x));
    ShiftsAdd(x);
    DropMiddle(x, Left9(x), Left18(x));
  }

  lemma Twice18(x: word)
    ensures Mix(Mix(x, Left18(x)), Left18(Mix(x, Left18(x)))) == x
  {
  }

  lemma ShiftsSwap(x: word)
    ensures Mix(Mix(x, Left18(x)), Left9(Mix(x, Left18(x)))) == Mix(Mix(x, Left9(x)), Left18(Mix(x, Left9(x))))
  {
    ShiftsAreLinear(x, Left18(x));
    ShiftsAreLinear(x, Left9(x));
    ShiftsAdd(x);
    SwapMiddle(x, Left18(x), Left9(x), Left18(Left9(x)));
  }

  lemma Unmixed(x: word)
    ensures Unmix9(Mix(x, Left9(x))) == x
    ensures Mix(Unmix9(x), Left9(Unmix9(x))) == x
  {
    Twice9(x);
    Twice18(x);
    ShiftsSwap(Mix(x, Left9(x)));
  }

  // ----- the generator's state as a value -----

  datatype Words = Words(s0: word, s1: word, s2: word, s3: word)

  const ZERO := Words(Word(0), Word(0), Word(0), Word(0))

  /** One step, each new word in terms of the old ones. */
  function Next(w: Words): Words {
    Words(Mix(Mix(w.s0, w.s1), w.s3),
          Mix(Mix(w.s0, w.s1), w.s2),
          Mix(Mix(w.s0, w.s2), Left9(w.s1)),
          RotateLeft11(Mix(w.s1, w.s3)))
  }

  function Output(w: Words): word {
    Sum(w.s0, w.s3)
  }

  /** The state before a step. */
  function Prev(w: Words): Words {
    var b := RotateRight11(w.s3);
    var s0, s1 := Mix(w.s0, b), Unmix9(Mix(w.s1, w.s2));
    Words(s0, s1, Mix(Mix(w.s1, s0), s1), Mix(b, s1))
  }

  /** A step loses nothing: the state before can be had back. */
  lemma PrevOfNext(w: Words)
    ensures Prev(Next(w)) == w
  {
    RotationsCancel(Mix(w.s1, w.s3));
    DropLast(w.s0, w.s1, w.s3);
    DropShared(w.s0, w.s1, w.s2, Left9(w.s1));
    Unmixed(w.s1);
    DropTwo(w.s0, w.s1, w.s2);
    Drop(w.s1, w.s3);
  }

  /** And every state is reached from one. */
  lemma NextOfPrev(w: Words)
    ensures Next(Prev(w)) == w
  {
    var b := RotateRight11(w.s3);
    var s0, s1 := Mix(w.s0, b), Unmix9(Mix(w.s1, w.s2));
    DropLast(w.s0, b, s1);
    DropPair(s0, s1, w.s1);
    DropInner(s0, s1, w.s1);
    Regroup(w.s1, s1, Left9(s1));
    Unmixed(Mix(w.s1, w.s2));
    Drop(w.s1, w.s2);
    Drop(s1, b);
    RotationsCancel(w.s3);
  }

  /** The state after n steps. */
  function After(w: Words, n: nat): Words {
    if n == 0 then w else Next(After(w, n - 1))
  }

  lemma NextInjective(w: Words, w': Words)
    ensures Next(w) == Next(w') <==> w == w'
  {
    PrevOfNext(w);
    PrevOfNext(w');
  }

  /** No two states ever run together. */
  lemma {:induction false} NeverRunsTogether(w: Words, w': Words, n: nat)
    ensures After(w, n) == After(w', n) <==> w == w'
  {
    if n > 0 {
      NeverRunsTogether(w, w', n - 1);
      NextInjective(After(w, n - 1), After(w', n - 1));
    }
  }

  lemma {:induction false} ZeroStays(n: nat)
    ensures After(ZERO, n) == ZERO
  {
    if n > 0 {
      ZeroStays(n - 1);
    }
  }

  // ----- seeding -----

  /** The counter of the seeding loop as a machine word. */
  function Digit(i: nat): bv32
    requires i < 4
  {
    if i == 0 then 0 else if i == 1 then 1 else if i == 2 then 2 else 3
  }

  function Scramble(s: word, i: nat): word
    requires i < 4
  {
    Word(s.bits * 0x1b1 + Digit(i))
  }

  function SeedWord(seed: word, i: nat): word
    requires i < 4
  {
    if i == 0 then Scramble(seed, 0) else Scramble(SeedWord(seed, i - 1), i)
  }

  function Seeded(seed: word): Words {
    Words(SeedWord(seed, 0), SeedWord(seed, 1), SeedWord(seed, 2), SeedWord(seed, 3))
  }

  /** The multiplier and the counter, by the state that one seed gives. */
  lemma SeedOne()
    ensures Seeded(Word(1)) == Words(Word(0x1b1), Word(0x2dc62), Word(0x4d6c1c4), Word(0x2f3dbc87))
  {
  }

  lemma ZeroScrambled()
    ensures Scramble(Word(0), 1) != Word(0)
  {
  }

  lemma SeededNotZero(seed: word)
    ensures Seeded(seed) != ZERO
  {
    ZeroScrambled();
    assert SeedWord(seed, 1) == Scramble(SeedWord(seed, 0), 1);
  }

  /** From no seed does the generator ever reach the state that it could not leave. */
  lemma NeverDegenerates(seed: word, n: nat)
    ensures After(Seeded(seed), n) != ZERO
  {
    SeededNotZero(seed);
    ZeroStays(n);
    NeverRunsTogether(Seeded(seed), ZERO, n);
  }

  // ----- the generator's state in place -----

  function WordsOf(s: seq<word>): Words
    requires |s| == 4
  {
    Words(s[0], s[1], s[2], s[3])
  }

  // ----- the step in machine arithmetic: wrapping addition, exclusive or, and shifts -----

  lemma MixInBits(a: word, b: word)
    ensures Mix(a, b).bits == a.bits ^ b.bits
  {
  }

  lemma Left9InBits(x: word)
    ensures Left9(x).bits == x.bits << 9
  {
  }

  lemma RotateInBits(x: word)
    ensures RotateLeft11(x).bits == (x.bits << 11) | (x.bits >> 21)
  {
  }

  lemma Next0InBits(w: Words)
    ensures Next(w).s0.bits == w.s0.bits ^ w.s1.bits ^ w.s3.bits
  {
  }

  lemma Next1InBits(w: Words)
    ensures Next(w).s1.bits == w.s0.bits ^ w.s1.bits ^ w.s2.bits
  {
  }

  lemma Next2InBits(w: Words)
    ensures Next(w).s2.bits == w.s0.bits ^ w.s2.bits ^ (w.s1.bits << 9)
  {
  }

  lemma Next3InBits(w: Words)
    ensures Next(w).s3.bits == ((w.s1.bits ^ w.s3.bits) << 11) | ((w.s1.bits ^ w.s3.bits) >> 21)
  {
  }

  /** The words of the state after a step, in terms of the old array. */
  lemma StepInBits(w: Words)
    ensures Next(w).s0.bits == w.s0.bits ^ w.s1.bits ^ w.s3.bits
    ensures Next(w).s1.bits == w.s0.bits ^ w.s1.bits ^ w.s2.bits
    ensures Next(w).s2.bits == w.s0.bits ^ w.s2.bits ^ (w.s1.bits << 9)
    ensures Next(w).s3.bits == ((w.s1.bits ^ w.s3.bits) << 11) | ((w.s1.bits ^ w.s3.bits) >> 21)
  {
    Next0InBits(w);
    Next1InBits(w);
    Next2InBits(w);
    Next3InBits(w);
  }

  /** The step in place: the output is the sum of the old first and last words, and the words are
      replaced as the updates one after the other say. */
  method Xoshiro128Plus(state: array<word>) returns (result: word)
    requires state.Length == 4
    modifies state
    ensures result == Word(old(state[0]).bits + old(state[3]).bits)
    ensures state[0] == Mix(old(state[0]), Mix(old(state[3]), old(state[1])))
    ensures state[1] == Mix(old(state[1]), Mix(old(state[2]), old(state[0])))
    ensures state[2] == Mix(Mix(old(state[2]), old(state[0])), Left9(old(state[1])))
    ensures state[3] == RotateLeft11(Mix(old(state[3]), old(state[1])))
    ensures result == Output(old(WordsOf(state[..]))) && WordsOf(state[..]) == Next(old(WordsOf(state[..])))
  {
    ghost var a, b, c, d := state[0], state[1], state[2], state[3];
    result := Sum(state[0], state[3]);
    var t := Left9(state[1]);
    state[2] := Mix(state[2], state[0]);
    state[3] := Mix(state[3], state[1]);
    state[1] := Mix(state[1], state[2]);
    state[0] := Mix(state[0], state[3]);
    state[2] := Mix(state[2], t);
    state[3] := RotateLeft11(state[3]);
    Reorder(a, b, c);
    Reorder(b, a, d);
    MixCommutes(a, b);
    MixCommutes(a, c);
    MixCommutes(b, d);
  }

  method FillState(state: array<word>, seed: word)
    requires state.Length == 4
    modifies state
    ensures WordsOf(state[..]) == Seeded(seed)
  {
    var s := seed;
    for i := 0 to 4
      invariant forall j :: 0 <= j < i ==> state[j] == SeedWord(seed, j)
      invariant i > 0 ==> s == state[i - 1]
      invariant i == 0 ==> s == seed
    {
      s := Scramble(s, i);
      state[i] := s;
    }
  }

  /** The first two outputs from that seed. */
  lemma SeedOneOutputs()
    ensures Output(Seeded(Word(1))) == Word(0x2f3dbe38) && Output(Next(Seeded(Word(1)))) == Word(0x2a468acd)
  {
    SeedOne();
  }
}
