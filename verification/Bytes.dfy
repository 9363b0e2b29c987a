/** Bytes, 32-bit limits and the byte-wise XOR of streams that the other modules share. */
module Bytes {

  datatype byte = Byte(bits: bv8)

  function Xor(a: byte, b: byte): byte {
    Byte(a.bits ^ b.bits)
  }

  datatype Option<+T> = None | Some(value: T)

  const UINT32_MAX: nat := 0xFFFF_FFFF

  function Min(a: nat, b: nat): nat {
    if a <= b then a else b
  }

  /** The XOR of the first n bytes of two streams. */
  function XorFirst(a: seq<byte>, b: seq<byte>, n: nat): (x: seq<byte>)
    requires n <= |a| && n <= |b|
    ensures |x| == n
  {
    if n == 0 then [] else XorFirst(a, b, n - 1) + [Xor(a[n - 1], b[n - 1])]
  }

  /** The XOR of two streams, as long as the shorter of them. */
  function XorZip(a: seq<byte>, b: seq<byte>): (x: seq<byte>)
    ensures |x| == Min(|a|, |b|)
  {
    XorFirst(a, b, Min(|a|, |b|))
  }

  lemma {:induction false} XorFirstAt(a: seq<byte>, b: seq<byte>, n: nat, i: nat)
    requires i < n <= |a| && n <= |b|
    ensures XorFirst(a, b, n)[i] == Xor(a[i], b[i])
  {
    if i < n - 1 {
      XorFirstAt(a, b, n - 1, i);
    }
  }

  lemma XorZipAt(a: seq<byte>, b: seq<byte>, i: nat)
    requires i < Min(|a|, |b|)
    ensures XorZip(a, b)[i] == Xor(a[i], b[i])
  {
    XorFirstAt(a, b, Min(|a|, |b|), i);
  }

  /** XORing the same byte in twice gives the original byte back. */
  lemma XorCancels(x: byte, m: byte)
    ensures Xor(Xor(x, m), m) == x
  {
  }

  /** A mask stream undoes itself, however much of it the first pass used. */
  lemma XorZipTwice(a: seq<byte>, m: seq<byte>)
    ensures XorZip(XorZip(a, m), m) == a[..Min(|a|, |m|)]
  {
    var once := XorZip(a, m);
    var twice := XorZip(once, m);
    forall i | 0 <= i < Min(|a|, |m|)
      ensures twice[i] == a[i]
    {
      XorZipAt(once, m, i);
      XorZipAt(a, m, i);
      XorCancels(a[i], m[i]);
    }
  }

  /** XOR of streams can be done piecewise when the pieces match in length. */
  lemma XorZipAppend(a: seq<byte>, b: seq<byte>, m: seq<byte>, n: seq<byte>)
    requires |a| == |m|
    ensures XorZip(a + b, m + n) == XorZip(a, m) + XorZip(b, n)
  {
    var whole, parts := XorZip(a + b, m + n), XorZip(a, m) + XorZip(b, n);
    forall i | 0 <= i < |parts|
      ensures whole[i] == parts[i]
    {
      XorZipAt(a + b, m + n, i);
      if i < |a| { XorZipAt(a, m, i); } else { XorZipAt(b, n, i - |a|); }
    }
  }

  // ----- bytes stored over other bytes -----

  /** Bytes stored from p on, one after the other. */
  function StoreAt(s: seq<byte>, p: nat, bytes: seq<byte>): (r: seq<byte>)
    requires p + |bytes| <= |s|
    ensures |r| == |s|
    decreases |bytes|
  {
    if bytes == [] then s
    else
      var k := |bytes| - 1;
      StoreAt(s, p, bytes[..k])[p + k := bytes[k]]
  }

  lemma {:induction false} StoreAtByte(s: seq<byte>, p: nat, bytes: seq<byte>, i: nat)
    requires p + |bytes| <= |s| && i < |s|
    ensures StoreAt(s, p, bytes)[i] == if p <= i < p + |bytes| then bytes[i - p] else s[i]
    decreases |bytes|
  {
    if bytes != [] {
      StoreAtByte(s, p, bytes[..|bytes| - 1], i);
    }
  }

  /** In one piece: what comes before, the bytes, and what comes after. */
  lemma StoreAtBlocks(s: seq<byte>, p: nat, bytes: seq<byte>)
    requires p + |bytes| <= |s|
    ensures StoreAt(s, p, bytes) == s[..p] + bytes + s[p + |bytes|..]
  {
    var stored, blocks := StoreAt(s, p, bytes), s[..p] + bytes + s[p + |bytes|..];
    assert |blocks| == |s|;
    forall i | 0 <= i < |s|
      ensures stored[i] == blocks[i]
    {
      StoreAtByte(s, p, bytes, i);
      BlocksAt(s, p, bytes, i);
    }
  }

  lemma BlocksAt(s: seq<byte>, p: nat, bytes: seq<byte>, i: nat)
    requires p + |bytes| <= |s| && i < |s|
    ensures (s[..p] + bytes + s[p + |bytes|..])[i] == if p <= i < p + |bytes| then bytes[i - p] else s[i]
  {
  }
}
