/** XOR parity over a group of packets: what it is and what it can restore. */
module Parity {
  import opened Bytes

  const K: nat := 7
  const STRIDE: nat := 3

  // ---------------------------------------------------------------- one column of bytes

  function XorAll(bs: seq<byte>): byte {
    if |bs| == 0 then 0 else Xor(XorAll(bs[..|bs| - 1]), bs[|bs| - 1])
  }

  ghost function Without<T>(s: seq<T>, m: nat): seq<T>
    requires m < |s|
  {
    s[..m] + s[m + 1..]
  }

  lemma {:induction false} XorAllConcat(a: seq<byte>, b: seq<byte>)
    ensures XorAll(a + b) == Xor(XorAll(a), XorAll(b))
  {
    if |b| == 0 {
      assert a + b == a;
      XorLaws(XorAll(a), 0, 0);
    } else {
      var n := |b| - 1;
      XorAllConcat(a, b[..n]);
      assert (a + b)[..|a| + n] == a + b[..n];
      XorLaws(XorAll(a), XorAll(b[..n]), b[n]);
    }
  }

  lemma XorAllOne(x: byte)
    ensures XorAll([x]) == x
  {
    assert [x][..0] == [];
    XorLaws(0, x, 0);
    XorLaws(x, 0, 0);
  }

  lemma XorAllSplit(a: seq<byte>, x: byte, b: seq<byte>)
    ensures XorAll(a + [x] + b) == Xor(XorAll(a), Xor(x, XorAll(b)))
  {
    XorAllConcat(a + [x], b);
    XorAllConcat(a, [x]);
    XorAllOne(x);
    XorLaws(XorAll(a), x, XorAll(b));
  }

  lemma SplitAround<T>(s: seq<T>, m: nat)
    requires m < |s|
    ensures s[..m] + [s[m]] + s[m + 1..] == s
  {
  }

  lemma XorAllRestoresOne(a: seq<byte>, x: byte, b: seq<byte>)
    ensures Xor(XorAll(a + [x] + b), XorAll(a + b)) == x
  {
    XorAllSplit(a, x, b);
    XorAllConcat(a, b);
    XorRearrange(XorAll(a), x, XorAll(b));
  }

  /** The parity of a column, with every member but one taken out again, is that member. */
  lemma XorAllRestores(bs: seq<byte>, m: nat)
    requires m < |bs|
    ensures Xor(XorAll(bs), XorAll(Without(bs, m))) == bs[m]
  {
    SplitAround(bs, m);
    XorAllRestoresOne(bs[..m], bs[m], bs[m + 1..]);
  }

  lemma XorRearrange(a: byte, x: byte, b: byte)
    ensures Xor(Xor(a, Xor(x, b)), Xor(a, b)) == x
  {
    // a ^ (x ^ b) = x ^ (a ^ b)
    XorLaws(a, x, b);
    XorLaws(x, a, b);
    XorCancel(x, Xor(a, b));
  }

  // ---------------------------------------------------------------- padded payloads

  /** Length prefix, payload, zeros up to n bytes; a payload that does not fit is cut. */
  function Padded(p: bytes, n: nat): (r: bytes)
    requires n >= 2
    ensures |r| == n
  {
    var q := PutU16(|p| % M16) + p;
    if |q| >= n then q[..n] else q + Zeros(n - |q|)
  }

  function Zeros(n: nat): (r: bytes)
    ensures |r| == n && forall i :: 0 <= i < n ==> r[i] == 0
  {
    seq(n, _ => 0)
  }

  function MaxLen(ps: seq<bytes>): nat {
    if |ps| == 0 then 0
    else var m := MaxLen(ps[..|ps| - 1]); var l := |ps[|ps| - 1]|; if l > m then l else m
  }

  lemma {:induction false} MaxLenBounds(ps: seq<bytes>, i: nat)
    requires i < |ps|
    ensures |ps[i]| <= MaxLen(ps)
  {
    var n := |ps| - 1;
    if i < n { MaxLenBounds(ps[..n], i); }
  }

  /** Exclusive or of two strings, as long as the first. */
  function XorInto(dst: bytes, src: bytes): (r: bytes)
    ensures |r| == |dst|
    ensures forall i :: 0 <= i < |dst| ==> r[i] == if i < |src| then Xor(dst[i], src[i]) else dst[i]
  {
    seq(|dst|, i requires 0 <= i < |dst| => if i < |src| then Xor(dst[i], src[i]) else dst[i])
  }

  /** Folds the padded payloads into an accumulator. */
  function Fold(acc: bytes, ps: seq<bytes>): (r: bytes)
    requires |acc| >= 2
    ensures |r| == |acc|
  {
    if |ps| == 0 then acc else XorInto(Fold(acc, ps[..|ps| - 1]), Padded(ps[|ps| - 1], |acc|))
  }

  /** The parity that the encoder sends for a full group. */
  function ParityOf(ps: seq<bytes>): (r: bytes)
    ensures |r| == MaxLen(ps) + 2
  {
    Fold(Zeros(MaxLen(ps) + 2), ps)
  }

  /** The bytes at position k of the padded payloads. */
  ghost function Column(ps: seq<bytes>, n: nat, k: nat): (c: seq<byte>)
    requires n >= 2 && k < n
    ensures |c| == |ps| && forall i :: 0 <= i < |ps| ==> c[i] == Padded(ps[i], n)[k]
  {
    seq(|ps|, i requires 0 <= i < |ps| => Padded(ps[i], n)[k])
  }

  lemma ColumnStep(ps: seq<bytes>, n: nat, k: nat)
    requires n >= 2 && k < n && |ps| > 0
    ensures var m := |ps| - 1;
            XorAll(Column(ps, n, k)) == Xor(XorAll(Column(ps[..m], n, k)), Padded(ps[m], n)[k])
  {
    var m := |ps| - 1;
    assert Column(ps, n, k)[..m] == Column(ps[..m], n, k);
  }

  lemma FoldAt(acc: bytes, ps: seq<bytes>, k: nat)
    requires |acc| >= 2 && k < |acc| && |ps| > 0
    ensures var m := |ps| - 1; Fold(acc, ps)[k] == Xor(Fold(acc, ps[..m])[k], Padded(ps[m], |acc|)[k])
  {
  }

  lemma {:induction false} FoldColumn(acc: bytes, ps: seq<bytes>, k: nat)
    requires |acc| >= 2 && k < |acc|
    ensures Fold(acc, ps)[k] == Xor(acc[k], XorAll(Column(ps, |acc|, k)))
  {
    if |ps| == 0 {
      XorLaws(acc[k], 0, 0);
    } else {
      var m := |ps| - 1;
      FoldColumn(acc, ps[..m], k);
      FoldAt(acc, ps, k);
      ColumnStep(ps, |acc|, k);
      XorLaws(acc[k], XorAll(Column(ps[..m], |acc|, k)), Padded(ps[m], |acc|)[k]);
    }
  }

  lemma ColumnWithout(ps: seq<bytes>, m: nat, n: nat, k: nat)
    requires m < |ps| && n >= 2 && k < n
    ensures Column(Without(ps, m), n, k) == Without(Column(ps, n, k), m)
  {
  }

  lemma XorFromZero(x: byte)
    ensures Xor(0, x) == x
  {
    XorLaws(0, x, 0);
    XorLaws(x, 0, 0);
  }

  lemma FoldZeros(zeros: bytes, ps: seq<bytes>, k: nat)
    requires |zeros| >= 2 && k < |zeros| && zeros[k] == 0
    ensures Fold(zeros, ps)[k] == XorAll(Column(ps, |zeros|, k))
  {
    FoldColumn(zeros, ps, k);
    XorFromZero(XorAll(Column(ps, |zeros|, k)));
  }

  lemma RestoredFrom(par: bytes, ps: seq<bytes>, rest: seq<bytes>, m: nat, k: nat)
    requires m < |ps| && k < |par| && |par| >= 2
    requires par[k] == XorAll(Column(ps, |par|, k))
    requires Column(rest, |par|, k) == Without(Column(ps, |par|, k), m)
    ensures Fold(par, rest)[k] == Padded(ps[m], |par|)[k]
  {
    FoldColumn(par, rest, k);
    XorAllRestores(Column(ps, |par|, k), m);
  }

  /** Each byte of par is the exclusive or of the bytes at its position. */
  ghost predicate SumsColumns(par: bytes, ps: seq<bytes>)
    requires |par| >= 2
  {
    forall k :: 0 <= k < |par| ==> par[k] == XorAll(Column(ps, |par|, k))
  }

  lemma FoldSums(zeros: bytes, ps: seq<bytes>, par: bytes)
    requires |zeros| >= 2 && zeros == Zeros(|zeros|) && par == Fold(zeros, ps)
    ensures SumsColumns(par, ps)
  {
    forall k | 0 <= k < |par| ensures par[k] == XorAll(Column(ps, |par|, k)) { FoldZeros(zeros, ps, k); }
  }

  lemma ParitySums(ps: seq<bytes>, par: bytes)
    requires par == ParityOf(ps)
    ensures SumsColumns(par, ps)
  {
    FoldSums(Zeros(MaxLen(ps) + 2), ps, par);
  }

  lemma FoldRestoresFrom(par: bytes, ps: seq<bytes>, rest: seq<bytes>, m: nat)
    requires m < |ps| && |par| >= 2 && rest == Without(ps, m) && SumsColumns(par, ps)
    ensures Fold(par, rest) == Padded(ps[m], |par|)
  {
    forall k | 0 <= k < |par| ensures Fold(par, rest)[k] == Padded(ps[m], |par|)[k] {
      ColumnWithout(ps, m, |par|, k);
      RestoredFrom(par, ps, rest, m, k);
    }
  }

  /** Folding all members but one into the parity leaves the padded form of the one. */
  lemma FoldRestores(ps: seq<bytes>, m: nat, par: bytes)
    requires m < |ps| && par == ParityOf(ps)
    ensures Fold(par, Without(ps, m)) == Padded(ps[m], |par|)
  {
    ParitySums(ps, par);
    FoldRestoresFrom(par, ps, Without(ps, m), m);
  }

  /** What the decoder reads back from a padded string. */
  function Unpad(r: bytes): (p: Option<bytes>)
    requires |r| >= 2
  {
    var n := U16(r[..2]);
    if n > |r| - 2 then None else Some(r[2..2 + n])
  }

  lemma UnpadParts(h: bytes, p: bytes, pad: bytes)
    requires |h| == 2 && U16(h) == |p|
    ensures Unpad(h + p + pad) == Some(p)
  {
    var r := h + p + pad;
    assert r[..2] == h && r[2..2 + |p|] == p;
  }

  lemma PaddedParts(p: bytes, n: nat)
    requires |p| < M16 && |p| + 2 <= n
    ensures Padded(p, n) == PutU16(|p|) + p + Zeros(n - 2 - |p|)
  {
    var q := PutU16(|p|) + p;
    assert |p| % M16 == |p|;
    assert |q| == n ==> q[..n] == q + Zeros(0);
  }

  lemma UnpadPadded(p: bytes, n: nat)
    requires |p| < M16 && |p| + 2 <= n
    ensures Unpad(Padded(p, n)) == Some(p)
  {
    PaddedParts(p, n);
    U16RoundTrip(|p|);
    UnpadParts(PutU16(|p|), p, Zeros(n - 2 - |p|));
  }
}
