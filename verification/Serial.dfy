/** Wrapping sequence numbers: signed subtraction of unsigned counters (section 3.2 of RFC 1982). */
module Serial {
  import opened Bytes

  const H32: int := 0x8000_0000
  const H16: int := 0x8000

  /** int32(a - b) < 0 on unsigned 32-bit operands. */
  predicate Less32(a: uint32, b: uint32) {
    (a - b) % M32 >= H32
  }

  /** int16(a - b) > 0 on unsigned 16-bit operands. */
  predicate After16(a: uint16, b: uint16) {
    0 < (a - b) % M16 < H16
  }

  /** How far x lies ahead of the cursor on the circle of 2^32 numbers. */
  function Ahead32(cursor: uint32, x: uint32): (r: uint32) {
    (x - cursor) % M32
  }

  /** Less than half a turn ahead of the cursor, possibly at it. */
  predicate Near32(cursor: uint32, x: uint32) {
    Ahead32(cursor, x) < H32
  }

  /** Ahead of the cursor by at least one and less than half a turn. */
  predicate Beyond32(cursor: uint32, x: uint32) {
    0 < Ahead32(cursor, x) < H32
  }

  predicate Window32(cursor: int, i: int) {
    cursor - H32 <= i < cursor + H32
  }

  /** On numbers less than 2^31 ahead of a common cursor the circular comparison is the order of the distances. */
  lemma LessIsDistance(c: uint32, a: uint32, b: uint32)
    requires Ahead32(c, a) < H32 && Ahead32(c, b) < H32
    ensures Less32(a, b) <==> Ahead32(c, a) < Ahead32(c, b)
    ensures Ahead32(c, a) == Ahead32(c, b) ==> a == b
  {
    assert (a - b) % M32 == (Ahead32(c, a) - Ahead32(c, b)) % M32;
  }

  lemma TurnsAndRest(d: int, k: int, r: int)
    requires d == k * M32 + r && 0 <= r < M32
    ensures d % M32 == r
  {
  }

  /** Counted in half turns, the parity decides on which half of the circle a distance ends. */
  lemma HalfTurns(d: int, q: int, r: int)
    requires d == q * H32 + r && 0 <= r < H32
    ensures d % M32 == if q % 2 == 0 then r else r + H32
  {
    var k := q / 2;
    if q % 2 == 0 {
      assert q == 2 * k;
      TurnsAndRest(d, k, r);
    } else {
      assert q == 2 * k + 1;
      TurnsAndRest(d, k, r + H32);
    }
  }

  lemma WrappedDifference(i: int, c: int)
    ensures (i % M32 - c % M32) % M32 == (i - c) % M32
  {
    var k, r := i / M32 - c / M32, i % M32 - c % M32;
    assert i - c == k * M32 + r;
    if r >= 0 {
      TurnsAndRest(r, 0, r);
      TurnsAndRest(i - c, k, r);
    } else {
      TurnsAndRest(r, -1, r + M32);
      TurnsAndRest(i - c, k - 1, r + M32);
    }
  }

  /**
   * Exactly when the comparison of wrapped indices tells the truth about the unbounded ones: the
   * distance, counted in half turns, has the parity of its sign. The window is the first half turn
   * on each side.
   */
  lemma LessExact(i: int, c: int)
    ensures (Less32(i % M32, c % M32) <==> i < c) <==> ((i - c) / H32) % 2 == (if i < c then 1 else 0)
    ensures Window32(c, i) ==> (Less32(i % M32, c % M32) <==> i < c)
  {
    var q, r := (i - c) / H32, (i - c) % H32;
    WrappedDifference(i, c);
    HalfTurns(i - c, q, r);
    assert Window32(c, i) ==> q == if i < c then -1 else 0;
  }

  /** Moving the cursor by one shortens the distance of every other number by one. */
  lemma AheadStep(c: uint32, s: uint32)
    requires s != c
    ensures Ahead32((c + 1) % M32, s) == Ahead32(c, s) - 1
  {
  }

  /** Inside the window the distance on the circle is the distance between the indices. */
  lemma AheadOfIndex(c: int, i: int)
    requires c <= i < c + M32
    ensures Ahead32(c % M32, i % M32) == i - c
  {
  }

  lemma NumberOfAhead(c: int, s: uint32)
    ensures (c + Ahead32(c % M32, s)) % M32 == s
  {
    var k := c / M32;
    assert c == k * M32 + c % M32;
    if s >= c % M32 {
      assert Ahead32(c % M32, s) == s - c % M32;
      assert c + Ahead32(c % M32, s) == k * M32 + s;
    } else {
      assert Ahead32(c % M32, s) == s - c % M32 + M32;
      assert c + Ahead32(c % M32, s) == (k + 1) * M32 + s;
    }
  }

  /** Two indices less than 2^15 apart compare as their wrapped numbers do. */
  lemma After16Exact(a: int, b: int)
    requires b - H16 <= a < b + H16
    ensures After16(a % M16, b % M16) <==> a > b
  {
    assert (a % M16 - b % M16) % M16 == (a - b) % M16;
  }
}
