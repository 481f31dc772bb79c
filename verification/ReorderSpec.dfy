/** What a reorder buffer holds, independent of how it stores it. */
module ReorderSpec {
  import opened Bytes
  import opened Serial

  /** nextSeq, the buffered chunks by sequence number, and the start of the gap timer (None: zero time). */
  datatype Reorder = Reorder(nextSeq: uint32, held: map<uint32, bytes>, gapSince: Option<int>) {
    /** Every buffered number lies strictly ahead of the cursor, less than half a turn. */
    ghost predicate Valid() {
      && (forall s :: s in held ==> Beyond32(nextSeq, s))
      && (gapSince.Some? <==> held != map[])
    }
  }

  const EMPTY := Reorder(0, map[], None)
  const MAX_FRAMES: nat := 4096

  /** Removes the run of consecutive numbers that starts at the cursor. */
  function Drain(next: uint32, held: map<uint32, bytes>): (r: (uint32, map<uint32, bytes>, seq<bytes>))
    decreases |held|
  {
    if next in held then
      var (n, rest, out) := Drain((next + 1) % M32, held - {next});
      (n, rest, [held[next]] + out)
    else (next, held, [])
  }

  /** Behind the cursor or already held: nothing. Otherwise hold the chunk, time the gap, drain the run. */
  function Insert(r: Reorder, s: uint32, data: bytes, now: int): (res: (Reorder, seq<bytes>)) {
    if Less32(s, r.nextSeq) || s in r.held then (r, [])
    else
      var (next, held, out) := Drain(r.nextSeq, r.held[s := data]);
      var gap := if s != r.nextSeq && r.gapSince.None? then Some(now) else r.gapSince;
      (Reorder(next, held, if held == map[] then None else gap), out)
  }

  /** The held numbers at distance d or more from c, nearest first: a walk around the circle. */
  ghost function Nearest(c: uint32, held: set<uint32>, d: nat): (order: seq<uint32>)
    ensures forall s :: s in order ==> s in held
    decreases H32 - d
  {
    if d >= H32 then []
    else if (c + d) % M32 in held then [(c + d) % M32] + Nearest(c, held, d + 1)
    else Nearest(c, held, d + 1)
  }

  /** Everything held, in sequence order: what is emitted when the buffer is flushed at close. */
  ghost function FlushNumbers(r: Reorder): seq<uint32> {
    Nearest(r.nextSeq, r.held.Keys, 0)
  }

  ghost function PayloadsOf(held: map<uint32, bytes>, order: seq<uint32>): (out: seq<bytes>)
    requires forall s :: s in order ==> s in held
    ensures |out| == |order| && forall i :: 0 <= i < |out| ==> out[i] == held[order[i]]
  {
    seq(|order|, i requires 0 <= i < |order| => assert order[i] in order; held[order[i]])
  }

  ghost function FlushData(r: Reorder): seq<bytes> {
    PayloadsOf(r.held, FlushNumbers(r))
  }

  ghost predicate Increasing(c: uint32, o: seq<uint32>) {
    forall i, j :: 0 <= i < j < |o| ==> Ahead32(c, o[i]) < Ahead32(c, o[j])
  }

  ghost predicate HeldFrom(c: uint32, held: set<uint32>, d: nat, o: seq<uint32>) {
    forall s :: s in o <==> s in held && d <= Ahead32(c, s) < H32
  }

  /** The walk meets exactly the held numbers, at strictly increasing distances. */
  lemma {:induction false} NearestOrder(c: uint32, held: set<uint32>, d: nat)
    ensures HeldFrom(c, held, d, Nearest(c, held, d)) && Increasing(c, Nearest(c, held, d))
    decreases H32 - d
  {
    if d < H32 {
      NearestOrder(c, held, d + 1);
      var x := (c + d) % M32;
      assert Ahead32(c, x) == d;
      NextNearest(c, held, d, x, Nearest(c, held, d + 1));
    }
  }

  lemma NextNearest(c: uint32, held: set<uint32>, d: nat, x: uint32, rest: seq<uint32>)
    requires d < H32 && Ahead32(c, x) == d && HeldFrom(c, held, d + 1, rest) && Increasing(c, rest)
    ensures var o := if x in held then [x] + rest else rest; HeldFrom(c, held, d, o) && Increasing(c, o)
  {
    forall s | Ahead32(c, s) == d ensures s == x { LessIsDistance(c, s, x); }
    var o := [x] + rest;
    forall i, j | x in held && 0 <= i < j < |o| ensures Ahead32(c, o[i]) < Ahead32(c, o[j]) {
      assert o[j] == rest[j - 1] && rest[j - 1] in rest;
    }
  }

  /** Two arrangements of the same numbers, both strictly increasing in distance, are the same. */
  lemma {:induction false} IncreasingUnique(c: uint32, a: seq<uint32>, b: seq<uint32>)
    requires forall s :: s in a <==> s in b
    requires Increasing(c, a) && Increasing(c, b)
    ensures a == b
  {
    assert |b| > 0 ==> b[0] in b;
    if |a| > 0 {
      assert a[0] in b;
      var i :| 0 <= i < |a| && a[i] == b[0];
      var j :| 0 <= j < |b| && b[j] == a[0];
      assert i == 0;
      forall s ensures s in a[1..] <==> s in b[1..] {
        TailMembers(c, a, s);
        TailMembers(c, b, s);
      }
      IncreasingUnique(c, a[1..], b[1..]);
    }
  }

  lemma TailMembers(c: uint32, a: seq<uint32>, s: uint32)
    requires |a| > 0 && Increasing(c, a)
    ensures s in a[1..] <==> s in a && s != a[0]
  {
    if s in a && s != a[0] {
      var k :| 0 <= k < |a| && a[k] == s;
      assert a[1..][k - 1] == s;
    }
  }

  ghost function DrainOnto(acc: seq<bytes>, next: uint32, held: map<uint32, bytes>)
    : (uint32, map<uint32, bytes>, seq<bytes>)
  {
    var (n, rest, out) := Drain(next, held);
    (n, rest, acc + out)
  }

  lemma DrainFromNothing(next: uint32, held: map<uint32, bytes>)
    ensures DrainOnto([], next, held) == Drain(next, held)
  {
    var out := Drain(next, held).2;
    assert [] + out == out;
  }

  lemma DrainStep(acc: seq<bytes>, next: uint32, held: map<uint32, bytes>)
    requires next in held
    ensures DrainOnto(acc, next, held) == DrainOnto(acc + [held[next]], (next + 1) % M32, held - {next})
  {
    var out := Drain((next + 1) % M32, held - {next}).2;
    assert acc + ([held[next]] + out) == acc + [held[next]] + out;
  }

  lemma DrainDone(acc: seq<bytes>, next: uint32, held: map<uint32, bytes>)
    requires next !in held
    ensures DrainOnto(acc, next, held) == (next, held, acc)
  {
    assert acc + [] == acc;
  }

  ghost predicate AllNear(c: uint32, held: map<uint32, bytes>) {
    forall s :: s in held ==> Near32(c, s)
  }

  /** What is left after a drain is strictly ahead of the new cursor and part of what was there. */
  lemma {:induction false} DrainKeepsWindow(next: uint32, held: map<uint32, bytes>)
    requires AllNear(next, held)
    ensures var (n, rest, _) := Drain(next, held);
            && (forall s :: s in rest ==> Beyond32(n, s))
            && rest.Keys <= held.Keys
    decreases |held|
  {
    if next in held {
      var held' := held - {next};
      forall s | s in held' ensures Near32((next + 1) % M32, s) { AheadStep(next, s); }
      DrainKeepsWindow((next + 1) % M32, held');
    } else {
      forall s | s in held ensures Beyond32(next, s) {
        LessIsDistance(next, s, next);
      }
    }
  }

  /**
   * What the gap timer measures: the time since the buffer last became non-empty. Filling the gap
   * that started it does not restart it while anything is left behind a later gap.
   */
  lemma GapTimerMeaning(r: Reorder, s: uint32, data: bytes, now: int)
    requires r.Valid()
    ensures var r' := Insert(r, s, data, now).0;
            r'.gapSince == if r'.held == map[] then None else if r.held == map[] then Some(now) else r.gapSince
  {
    InsertKeepsValid(r, s, data, now);
    if r.held == map[] && s == r.nextSeq {
      assert r.held[s := data] - {s} == map[];
    }
  }

  /** Insert keeps the window, and the timer runs exactly while something is buffered. */
  lemma InsertKeepsValid(r: Reorder, s: uint32, data: bytes, now: int)
    requires r.Valid()
    ensures Insert(r, s, data, now).0.Valid()
  {
    if !(Less32(s, r.nextSeq) || s in r.held) {
      DrainKeepsWindow(r.nextSeq, r.held[s := data]);
      if s == r.nextSeq && r.held == map[] {
        assert r.held[s := data] - {s} == map[];
      }
    }
  }
}
