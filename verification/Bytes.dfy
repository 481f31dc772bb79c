/** Octets, big-endian integers, exclusive-or and flattening of lists of byte strings. */
module Bytes {

  type byte = b: int | 0 <= b < 256
  type bytes = seq<byte>

  datatype Option<+T> = None | Some(value: T)

  const M16: int := 0x1_0000
  const M32: int := 0x1_0000_0000

  type uint16 = n: int | 0 <= n < M16
  type uint32 = n: int | 0 <= n < M32

  // ---------------------------------------------------------------- big-endian

  function PutU16(n: uint16): (r: bytes)
    ensures |r| == 2
  {
    [n / 256, n % 256]
  }

  function U16(s: bytes): (n: uint16)
    requires |s| == 2
    ensures PutU16(n) == s
  {
    var hi: int := s[0];
    hi * 256 + s[1]
  }

  function PutU32(n: uint32): (r: bytes)
    ensures |r| == 4
  {
    PutU16(n / M16) + PutU16(n % M16)
  }

  function U32(s: bytes): (n: uint32)
    requires |s| == 4
  {
    U16(s[..2]) * M16 + U16(s[2..])
  }

  lemma U16RoundTrip(n: uint16)
    ensures U16(PutU16(n)) == n
  {
  }

  lemma U32RoundTrip(n: uint32)
    ensures U32(PutU32(n)) == n
  {
    U16RoundTrip(n / M16);
    U16RoundTrip(n % M16);
    assert PutU32(n)[..2] == PutU16(n / M16) && PutU32(n)[2..] == PutU16(n % M16);
  }

  // ---------------------------------------------------------------- exclusive or

  function Pow2(k: nat): (r: nat)
    ensures r >= 1
  {
    if k == 0 then 1 else 2 * Pow2(k - 1)
  }

  /** Bitwise exclusive or of the low k bits, least significant bit first. */
  function XorBits(k: nat, a: nat, b: nat): (r: nat)
    ensures r < Pow2(k)
  {
    if k == 0 then 0
    else (if a % 2 == b % 2 then 0 else 1) + 2 * XorBits(k - 1, a / 2, b / 2)
  }

  function Xor(a: byte, b: byte): (r: byte) {
    assert Pow2(8) == 256 by { assert Pow2(2) == 4; assert Pow2(4) == 16; assert Pow2(6) == 64; }
    XorBits(8, a, b)
  }

  lemma {:induction false} XorBitsAssociative(k: nat, a: nat, b: nat, c: nat)
    ensures XorBits(k, XorBits(k, a, b), c) == XorBits(k, a, XorBits(k, b, c))
  {
    if k > 0 {
      XorBitsAssociative(k - 1, a / 2, b / 2, c / 2);
      assert XorBits(k, a, b) / 2 == XorBits(k - 1, a / 2, b / 2);
      assert XorBits(k, b, c) / 2 == XorBits(k - 1, b / 2, c / 2);
    }
  }

  lemma {:induction false} XorBitsGroup(k: nat, a: nat, b: nat)
    ensures XorBits(k, a, b) == XorBits(k, b, a)
    ensures XorBits(k, a, a) == 0
    ensures a < Pow2(k) ==> XorBits(k, a, 0) == a
  {
    if k > 0 { XorBitsGroup(k - 1, a / 2, b / 2); }
  }

  lemma XorLaws(a: byte, b: byte, c: byte)
    ensures Xor(Xor(a, b), c) == Xor(a, Xor(b, c))
    ensures Xor(a, b) == Xor(b, a)
    ensures Xor(a, a) == 0
    ensures Xor(a, 0) == a
  {
    XorBitsAssociative(8, a, b, c);
    XorBitsGroup(8, a, b);
    assert Pow2(8) == 256 by { assert Pow2(2) == 4; assert Pow2(4) == 16; assert Pow2(6) == 64; }
  }

  /** Masking twice with the same key restores the octet. */
  lemma XorCancel(a: byte, b: byte)
    ensures Xor(Xor(a, b), b) == a
  {
    XorLaws(a, b, b);
    XorLaws(b, b, b);
  }

  // ---------------------------------------------------------------- flattening

  function Flatten(ss: seq<bytes>): bytes {
    if |ss| == 0 then [] else Flatten(ss[..|ss| - 1]) + ss[|ss| - 1]
  }

  lemma FlattenSnoc(ss: seq<bytes>, s: bytes)
    ensures Flatten(ss + [s]) == Flatten(ss) + s
  {
    assert (ss + [s])[..|ss|] == ss;
  }

  lemma {:induction false} FlattenConcat(a: seq<bytes>, b: seq<bytes>)
    ensures Flatten(a + b) == Flatten(a) + Flatten(b)
  {
    if |b| == 0 {
      assert a + b == a;
    } else {
      var n := |b| - 1;
      FlattenConcat(a, b[..n]);
      assert (a + b)[..|a + b| - 1] == a + b[..n];
    }
  }

  lemma FlattenCons(s: bytes, ss: seq<bytes>)
    ensures Flatten([s] + ss) == s + Flatten(ss)
  {
    FlattenConcat([s], ss);
    assert Flatten([s]) == s by { assert [s][..0] == []; }
  }
}
