/**
 The loop that asks for random bytes until it has enough.  It asks the kernel, which may give fewer
 bytes than asked for or fail, or the generator of module Random; the choice is fixed for a run.
 */
module RandomFill {
  import opened Bytes
  import opened XorMemory
  import opened RingStore
  import opened Random
  import opened Xoshiro

  /** One answer of the kernel; it hands over at most as many of its bytes as the call asks for. */
  datatype Answer = Failed(code: int) | Got(bytes: seq<byte>)

  /** How a call ends; it waits for ever when the kernel stops answering. */
  datatype Outcome = Full(n: nat) | Error(code: int) | Waiting

  /** All bytes on offer before the first failure. */
  function Joined(answers: seq<Answer>): seq<byte> {
    if answers == [] || answers[0].Failed? then [] else answers[0].bytes + Joined(answers[1..])
  }

  function FirstFailure(answers: seq<Answer>): Outcome {
    if answers == [] then Waiting
    else match answers[0]
      case Failed(code) => Error(code)
      case Got(_) => FirstFailure(answers[1..])
  }

  // ----- what these two mean, answer by answer -----

  /** The number of answers before the first failure, all of them when there is none. */
  predicate Served(answers: seq<Answer>, i: nat) {
    i <= |answers| && (forall j :: 0 <= j < i ==> answers[j].Got?) && (i == |answers| || answers[i].Failed?)
  }

  /** How many bytes the first answers offer. */
  function Offered(answers: seq<Answer>, i: nat): nat
    requires i <= |answers|
  {
    if i == 0 then 0
    else Offered(answers, i - 1) + (match answers[i - 1] case Got(bytes) => |bytes| case Failed(_) => 0)
  }

  lemma {:induction false} OfferedTail(answers: seq<Answer>, i: nat)
    requires 0 < i <= |answers| && answers[0].Got?
    ensures Offered(answers, i) == |answers[0].bytes| + Offered(answers[1..], i - 1)
  {
    if i > 1 {
      OfferedTail(answers, i - 1);
      assert answers[1..][i - 2] == answers[i - 1];
    }
  }

  /** There are as many bytes as the answers before the first failure offer. */
  lemma {:induction false} JoinedLength(answers: seq<Answer>, i: nat)
    requires Served(answers, i)
    ensures |Joined(answers)| == Offered(answers, i)
    decreases |answers|
  {
    if i > 0 {
      JoinedLength(answers[1..], i - 1);
      OfferedTail(answers, i);
    }
  }

  /** And each byte of each of them is in its place behind the answers before. */
  lemma {:induction false} JoinedAt(answers: seq<Answer>, i: nat, j: nat, k: nat)
    requires Served(answers, i) && j < i && k < |answers[j].bytes|
    ensures Offered(answers, j) + k < |Joined(answers)|
    ensures Joined(answers)[Offered(answers, j) + k] == answers[j].bytes[k]
    decreases |answers|
  {
    if j > 0 {
      JoinedAt(answers[1..], i - 1, j - 1, k);
      OfferedTail(answers, j);
    }
  }

  lemma {:induction false} FailureAt(answers: seq<Answer>) returns (i: nat)
    ensures Served(answers, i)
    ensures FirstFailure(answers) == if i < |answers| then Error(answers[i].code) else Waiting
    decreases |answers|
  {
    if answers == [] || answers[0].Failed? {
      i := 0;
    } else {
      var rest := FailureAt(answers[1..]);
      i := rest + 1;
    }
  }

  /** One answer stored behind the bytes gathered so far. */
  lemma Gathered(s: seq<byte>, at: nat, all: seq<byte>, filled: nat, given: seq<byte>, rest: seq<byte>, n: nat)
    requires filled <= |all| && all[filled..] == given + rest && n <= |given|
    requires at + filled + n <= |s|
    ensures filled + n <= |all|
    ensures StoreAt(StoreAt(s, at, all[..filled]), at + filled, given[..n]) == StoreAt(s, at, all[..filled + n])
    ensures n == |given| ==> all[filled + n..] == rest
  {
    StoreAtParts(s, at, all[..filled], given[..n]);
    assert given[..n] == all[filled..][..n];
    assert all[..filled] + given[..n] == all[..filled + n];
  }

  method StoreAnswer(buf: array<byte>, at: nat, filled: nat, given: seq<byte>, n: nat,
                     ghost s: seq<byte>, ghost all: seq<byte>, ghost rest: seq<byte>)
    requires at + filled + n <= buf.Length == |s| && n <= |given|
    requires filled <= |all| && all[filled..] == given + rest && buf[..] == StoreAt(s, at, all[..filled])
    modifies buf
    ensures filled + n <= |all| && buf[..] == StoreAt(s, at, all[..filled + n])
    ensures n == |given| ==> all[filled + n..] == rest
  {
    Gathered(s, at, all, filled, given, rest, n);
    Store(buf, at + filled, given[..n], Region(at, at + filled + n));
  }

  /** Fills max bytes with what the kernel gives, however it cuts its answers: the call succeeds exactly
      when that is enough before the first failure, and reports that failure otherwise. */
  method FillFromKernel(buf: array<byte>, at: nat, max: nat, answers: seq<Answer>)
      returns (r: Outcome, ghost served: nat)
    requires at + max <= buf.Length
    modifies buf
    ensures Served(answers, served) && |Joined(answers)| == Offered(answers, served)
    ensures Offered(answers, served) >= max ==> r == Full(max)
    ensures Offered(answers, served) < max && served < |answers| ==> r == Error(answers[served].code)
    ensures Offered(answers, served) < max && served == |answers| ==> r == Waiting
    ensures buf[..] == StoreAt(old(buf[..]), at, Joined(answers)[..Min(max, |Joined(answers)|)])
  {
    served := FailureAt(answers);
    JoinedLength(answers, served);
    ghost var s, all := buf[..], Joined(answers);
    var filled: nat := 0;
    var i := 0;
    while filled < max
      invariant i <= |answers| && filled <= max && filled <= |all|
      invariant filled < max ==>
        all[filled..] == Joined(answers[i..]) && FirstFailure(answers) == FirstFailure(answers[i..])
      invariant buf[..] == StoreAt(s, at, all[..filled])
      decreases |answers| - i
    {
      if i == |answers| {
        r := Waiting;
        return;
      }
      match answers[i]
      case Failed(code) =>
        r := Error(code);
        return;
      case Got(bytes) =>
        var n := Min(|bytes|, max - filled);
        assert answers[i..][1..] == answers[i + 1..];
        StoreAnswer(buf, at, filled, bytes, n, s, all, Joined(answers[i + 1..]));
        filled := filled + n;
        i := i + 1;
    }
    r := Full(filled);
  }

  /** The generator gives all that is asked for at once. */
  method FillFromPrng(buf: array<byte>, at: nat, max: nat, seed: word) returns (r: Outcome)
    requires at + max <= buf.Length
    modifies buf
    ensures r == Full(max) && buf[..] == StoreAt(old(buf[..]), at, Stream(Seeded(seed), max))
  {
    var filled: nat := 0;
    while filled < max
      invariant filled == 0 || filled == max
      invariant buf[..] == if filled == 0 then old(buf[..]) else StoreAt(old(buf[..]), at, Stream(Seeded(seed), max))
      decreases max - filled
    {
      ghost var last: Words;
      var n: nat;
      n, last := FillPrng(buf, at + filled, max - filled, seed);
      filled := filled + n;
    }
    return Full(filled);
  }
}
