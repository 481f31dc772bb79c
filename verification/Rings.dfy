/** Both circular buffers against the drop-oldest queue that they implement. */
module RingSpec {

  /** Frames that a connection keeps for retransmission. */
  const RING_SIZE: nat := 128

  /** The slots in use of a circular buffer, oldest first. */
  function Unroll<T>(s: seq<T>, head: nat, count: nat): (r: seq<T>)
    requires count <= |s| && (|s| > 0 ==> head < |s|)
    ensures |r| == count
    ensures forall i :: 0 <= i < count ==> r[i] == s[Slot(|s|, head, i)]
  {
    seq(count, i requires 0 <= i < count => s[Slot(|s|, head, i)])
  }

  function Slot(cap: nat, head: nat, i: nat): (k: nat)
    requires head < cap && i < cap
    ensures k < cap
  {
    if head + i < cap then head + i else head + i - cap
  }

  /** The program computes the slot with a remainder. */
  lemma SlotIsRemainder(cap: nat, head: nat, i: nat)
    requires head < cap && i <= cap
    ensures (head + i) % cap == if head + i < cap then head + i else head + i - cap
  {
    var x := head + i;
    if x < cap {
      SmallRemainder(x, cap);
    } else {
      SmallRemainder(x - cap, cap);
      ShiftRemainder(x - cap, cap);
    }
  }

  lemma SmallRemainder(x: nat, cap: nat)
    requires x < cap
    ensures x % cap == x
  {
    assert x == cap * (x / cap) + x % cap;
    assert x / cap == 0;
  }

  lemma ShiftRemainder(x: nat, cap: nat)
    requires x < cap
    ensures (x + cap) % cap == x
  {
    var q, r := (x + cap) / cap, (x + cap) % cap;
    assert x + cap == cap * q + r;
    assert q <= 0 ==> cap * q <= 0;
    assert q >= 2 ==> cap * q >= cap * 2;
    assert q == 1;
  }

  /** A drop-oldest queue of the given capacity. */
  function PushDrop<T>(q: seq<T>, x: T, cap: nat): (r: seq<T>)
    requires cap > 0
    ensures |q| < cap ==> r == q + [x]
    ensures |q| <= cap ==> |r| <= cap
  {
    if |q| < cap then q + [x] else q[1..] + [x]
  }

  lemma UnrollAppend<T>(s: seq<T>, head: nat, count: nat, x: T)
    requires head < |s| && count < |s|
    ensures Unroll(s[Slot(|s|, head, count) := x], head, count + 1) == Unroll(s, head, count) + [x]
  {
  }

  /** Overwriting the oldest slot of a full buffer and moving on drops the oldest and appends. */
  lemma UnrollOverwrite<T>(s: seq<T>, head: nat, x: T)
    requires head < |s|
    ensures var next := if head + 1 < |s| then head + 1 else 0;
            Unroll(s[head := x], next, |s|) == Unroll(s, head, |s|)[1..] + [x]
  {
  }

  lemma UnrollPop<T>(s: seq<T>, head: nat, count: nat, blank: T)
    requires head < |s| && 0 < count <= |s|
    ensures var next := if head + 1 < |s| then head + 1 else 0;
            Unroll(s[head := blank], next, count - 1) == Unroll(s, head, count)[1..]
  {
  }
}

/** The per-connection ring of recent frames. */
module RetransmitRings {
  import opened Bytes
  import opened RingSpec

  ghost function Pushed(q: seq<bytes>, xs: seq<bytes>): seq<bytes> {
    if |xs| == 0 then q else PushDrop(Pushed(q, xs[..|xs| - 1]), xs[|xs| - 1], RING_SIZE)
  }

  /** From empty, the ring holds the newest 128 pushes, in order. */
  lemma {:induction false} RingKeepsNewest(xs: seq<bytes>)
    ensures Pushed([], xs) == xs[if |xs| > RING_SIZE then |xs| - RING_SIZE else 0..]
  {
    if |xs| > 0 { RingKeepsNewest(xs[..|xs| - 1]); }
  }

  function Oldest(write: nat, count: nat): (head: nat)
    requires write < RING_SIZE && count <= RING_SIZE
    ensures head < RING_SIZE
  {
    if write >= count then write - count else write - count + RING_SIZE
  }

  /** Writing at the write position appends to a ring that has room and overwrites the oldest of a full one. */
  lemma RingPushed(s: seq<bytes>, write: nat, count: nat, x: bytes)
    requires |s| == RING_SIZE && write < RING_SIZE && count <= RING_SIZE
    ensures var w, c := (write + 1) % RING_SIZE, if count < RING_SIZE then count + 1 else count;
            Unroll(s[write := x], Oldest(w, c), c) == PushDrop(Unroll(s, Oldest(write, count), count), x, RING_SIZE)
  {
    var head := Oldest(write, count);
    if count < RING_SIZE { UnrollAppend(s, head, count, x); } else { UnrollOverwrite(s, head, x); }
  }

  class RetransmitRing {
    const buf: array<bytes>
    var write: nat
    var count: nat

    ghost predicate Valid()
      reads this
    {
      buf.Length == RING_SIZE && write < RING_SIZE && count <= RING_SIZE
    }

    ghost function View(): seq<bytes>
      requires Valid()
      reads this, buf
    {
      Unroll(buf[..], Oldest(write, count), count)
    }

    constructor ()
      ensures Valid() && fresh(buf) && View() == []
    {
      buf := new bytes[RING_SIZE](_ => []);
      write, count := 0, 0;
    }

    method Push(data: bytes)
      requires Valid()
      modifies this, buf
      ensures Valid() && View() == PushDrop(old(View()), data, RING_SIZE)
    {
      RingPushed(buf[..], write, count, data);
      ghost var s := buf[..];
      buf[write] := data;
      assert buf[..] == s[write := data];
      write := (write + 1) % RING_SIZE;
      if count < RING_SIZE { count := count + 1; }
    }

    /** Returns everything pushed since the last drain that is still held, oldest first, and empties the ring. */
    method Drain() returns (out: seq<bytes>)
      requires Valid()
      modifies this, buf
      ensures Valid() && View() == [] && out == old(View())
    {
      out := [];
      if count == 0 { return; }
      var start := (write - count + RING_SIZE) % RING_SIZE;
      ghost var slots := buf[..];
      for i := 0 to count
        invariant Valid() && count == old(count) && write == old(write)
        invariant out == Unroll(slots, start, count)[..i]
        invariant forall k :: i <= k < count ==> buf[Slot(RING_SIZE, start, k)] == slots[Slot(RING_SIZE, start, k)]
      {
        var idx := (start + i) % RING_SIZE;
        out := out + [buf[idx]];
        buf[idx] := [];
      }
      count, write := 0, 0;
    }
  }
}

/** The bounded buffer of raw packets. */
module RawRings {
  import opened Bytes
  import opened RingSpec

  // ---------------------------------------------------------------- runs

  /** accepted: every frame accepted, in order; queue: those still held. */
  datatype Ledger<T> = Ledger(queue: seq<T>, closed: bool, accepted: seq<T>, popped: seq<T>, evicted: nat, drained: nat)

  datatype Op<T> = Push(x: T) | Pop | DrainAll | Close

  function Apply<T>(l: Ledger<T>, op: Op<T>, cap: nat): Ledger<T>
    requires cap > 0
  {
    match op
    case Push(x) =>
      if l.closed then l
      else l.(queue := PushDrop(l.queue, x, cap), accepted := l.accepted + [x],
              evicted := l.evicted + if |l.queue| < cap then 0 else 1)
    case Pop => if |l.queue| == 0 then l else l.(queue := l.queue[1..], popped := l.popped + [l.queue[0]])
    case DrainAll => l.(queue := [], drained := l.drained + |l.queue|)
    case Close => l.(closed := true)
  }

  function Run<T>(l: Ledger<T>, ops: seq<Op<T>>, cap: nat): Ledger<T>
    requires cap > 0
  {
    if |ops| == 0 then l else Apply(Run(l, ops[..|ops| - 1], cap), ops[|ops| - 1], cap)
  }

  function Fresh<T>(): Ledger<T> {
    Ledger([], false, [], [], 0, 0)
  }

  /** What is held is the newest part of what was accepted; the rest was popped, evicted or drained. */
  ghost predicate Balanced<T>(l: Ledger<T>, cap: nat) {
    && |l.queue| <= cap && |l.queue| <= |l.accepted|
    && l.queue == l.accepted[|l.accepted| - |l.queue|..]
    && |l.accepted| == |l.popped| + l.evicted + l.drained + |l.queue|
    && InOrder(l.popped, l.accepted[..|l.accepted| - |l.queue|])
  }

  /** xs can be read off ys from left to right. */
  ghost predicate InOrder<T>(xs: seq<T>, ys: seq<T>)
    decreases |ys|
  {
    if |xs| == 0 then true
    else if |ys| == 0 then false
    else
      var x, y := xs[|xs| - 1], ys[|ys| - 1];
      (x == y && InOrder(xs[..|xs| - 1], ys[..|ys| - 1])) || InOrder(xs, ys[..|ys| - 1])
  }

  lemma {:induction false} InOrderMore<T>(xs: seq<T>, ys: seq<T>, zs: seq<T>)
    requires InOrder(xs, ys)
    ensures InOrder(xs, ys + zs)
    decreases |zs|
  {
    if |zs| == 0 {
      assert ys + zs == ys;
    } else {
      InOrderMore(xs, ys, zs[..|zs| - 1]);
      assert (ys + zs)[..|ys + zs| - 1] == ys + zs[..|zs| - 1];
    }
  }

  lemma InOrderBoth<T>(xs: seq<T>, ys: seq<T>, x: T)
    requires InOrder(xs, ys)
    ensures InOrder(xs + [x], ys + [x])
  {
    assert (xs + [x])[..|xs|] == xs && (ys + [x])[..|ys|] == ys;
  }

  /** The oldest of those held is given up. */
  lemma GiveUpOldest<T>(popped: seq<T>, a: seq<T>, gone: nat, x: T)
    requires gone < |a| && InOrder(popped, a[..gone])
    ensures InOrder(popped, (a + [x])[..gone + 1])
  {
    assert (a + [x])[..gone + 1] == a[..gone] + [a[gone]];
    InOrderMore(popped, a[..gone], [a[gone]]);
  }

  lemma PushBalanced<T>(l: Ledger<T>, x: T, cap: nat)
    requires cap > 0 && Balanced(l, cap)
    ensures Balanced(Apply(l, Push(x), cap), cap)
  {
    var gone, a := |l.accepted| - |l.queue|, l.accepted;
    if !l.closed && |l.queue| == cap {
      GiveUpOldest(l.popped, a, gone, x);
    } else if !l.closed {
      assert (a + [x])[..gone] == a[..gone];
    }
  }

  lemma PopBalanced<T>(l: Ledger<T>, cap: nat)
    requires cap > 0 && Balanced(l, cap)
    ensures Balanced(Apply(l, Pop, cap), cap)
  {
    var gone, a := |l.accepted| - |l.queue|, l.accepted;
    if |l.queue| > 0 {
      assert a[..gone + 1] == a[..gone] + [a[gone]];
      InOrderBoth(l.popped, a[..gone], a[gone]);
    }
  }

  lemma DrainBalanced<T>(l: Ledger<T>, cap: nat)
    requires cap > 0 && Balanced(l, cap)
    ensures Balanced(Apply(l, DrainAll, cap), cap)
  {
    var gone, a := |l.accepted| - |l.queue|, l.accepted;
    assert a[..|a|] == a[..gone] + a[gone..];
    InOrderMore(l.popped, a[..gone], a[gone..]);
  }

  lemma ApplyBalanced<T>(l: Ledger<T>, op: Op<T>, cap: nat)
    requires cap > 0 && Balanced(l, cap)
    ensures Balanced(Apply(l, op, cap), cap)
  {
    match op
    case Push(x) => PushBalanced(l, x, cap);
    case Pop => PopBalanced(l, cap);
    case DrainAll => DrainBalanced(l, cap);
    case Close =>
  }

  /**
   * In every run: frames accepted = frames popped + evicted + drained + still held; what is held is the
   * newest part of what was accepted, and what was popped came out in the order of acceptance.
   */
  lemma {:induction false} RunConserves<T>(ops: seq<Op<T>>, cap: nat)
    requires cap > 0
    ensures Balanced(Run(Fresh(), ops, cap), cap)
  {
    if |ops| > 0 {
      RunConserves(ops[..|ops| - 1], cap);
      ApplyBalanced(Run(Fresh(), ops[..|ops| - 1], cap), ops[|ops| - 1], cap);
    }
  }

  /** The frames pushed before the buffer was closed. */
  ghost function Offered<T>(ops: seq<Op<T>>): seq<T> {
    if |ops| == 0 then []
    else
      var n := |ops| - 1;
      Offered(ops[..n]) + if ops[n].Push? && !ClosedIn(ops[..n]) then [ops[n].x] else []
  }

  ghost predicate ClosedIn<T>(ops: seq<Op<T>>) {
    exists k :: 0 <= k < |ops| && ops[k].Close?
  }

  /** What the pops of a run returned: each the frame that was then the oldest, if there was one. */
  ghost function Returned<T>(ops: seq<Op<T>>, cap: nat): seq<T>
    requires cap > 0
  {
    if |ops| == 0 then []
    else
      var n := |ops| - 1;
      var queue := Run(Fresh(), ops[..n], cap).queue;
      Returned(ops[..n], cap) + if ops[n].Pop? && |queue| > 0 then [queue[0]] else []
  }

  lemma {:induction false} ClosedExact<T>(ops: seq<Op<T>>, cap: nat)
    requires cap > 0
    ensures Run(Fresh(), ops, cap).closed <==> ClosedIn(ops)
  {
    if |ops| > 0 {
      var n := |ops| - 1;
      ClosedExact(ops[..n], cap);
      assert ClosedIn(ops) <==> ClosedIn(ops[..n]) || ops[n].Close? by {
        if ClosedIn(ops[..n]) {
          var k :| 0 <= k < n && ops[..n][k].Close?;
          assert ops[k].Close?;
        }
        if ClosedIn(ops) && !ops[n].Close? {
          var k :| 0 <= k < |ops| && ops[k].Close?;
          assert ops[..n][k].Close?;
        }
      }
    }
  }

  /** In every run: accepted is what was pushed before the close, popped is what the pops returned, in order. */
  lemma {:induction false} RunReturns<T>(ops: seq<Op<T>>, cap: nat)
    requires cap > 0
    ensures Run(Fresh(), ops, cap).accepted == Offered(ops)
    ensures Run(Fresh(), ops, cap).popped == Returned(ops, cap)
  {
    if |ops| > 0 {
      var n := |ops| - 1;
      RunReturns(ops[..n], cap);
      ClosedExact(ops[..n], cap);
      var before := Run(Fresh(), ops[..n], cap);
      assert Run(Fresh(), ops, cap) == Apply(before, ops[n], cap);
      StepReturns(before, ops[n], cap);
    }
  }

  lemma StepReturns<T>(l: Ledger<T>, op: Op<T>, cap: nat)
    requires cap > 0
    ensures var r := Apply(l, op, cap);
            && r.accepted == l.accepted + (if op.Push? && !l.closed then [op.x] else [])
            && r.popped == l.popped + (if op.Pop? && |l.queue| > 0 then [l.queue[0]] else [])
  {
  }

  // ---------------------------------------------------------------- the buffer

  lemma Overwritten<T>(s: seq<T>, t: seq<T>, head: nat, next: nat, x: T)
    requires head < |s| && t == s[head := x] && next == (head + 1) % |s|
    ensures next < |t| && Unroll(t, next, |t|) == PushDrop(Unroll(s, head, |s|), x, |s|)
  {
    SlotIsRemainder(|s|, head, 1);
    UnrollOverwrite(s, head, x);
  }

  lemma Appended<T>(s: seq<T>, head: nat, count: nat, idx: nat, x: T)
    requires head < |s| && count < |s| && idx == (head + count) % |s|
    ensures idx < |s| && Unroll(s[idx := x], head, count + 1) == PushDrop(Unroll(s, head, count), x, |s|)
  {
    SlotIsRemainder(|s|, head, count);
    UnrollAppend(s, head, count, x);
  }

  lemma Popped<T>(s: seq<T>, t: seq<T>, head: nat, count: nat, next: nat, blank: T)
    requires head < |s| && 0 < count <= |s| && t == s[head := blank] && next == (head + 1) % |s|
    ensures next < |t| && Unroll(t, next, count - 1) == Unroll(s, head, count)[1..]
  {
    SlotIsRemainder(|s|, head, 1);
    UnrollPop(s, head, count, blank);
  }

  /** The slots in use hold exactly the frames of the queue. */
  ghost function Slotted<T>(q: seq<T>): (s: seq<Option<T>>)
    ensures |s| == |q| && forall i :: 0 <= i < |q| ==> s[i] == Some(q[i])
  {
    seq(|q|, i requires 0 <= i < |q| => Some(q[i]))
  }

  lemma SlottedPush<T>(q: seq<T>, x: T, cap: nat)
    requires cap > 0
    ensures Slotted(PushDrop(q, x, cap)) == PushDrop(Slotted(q), Some(x), cap)
  {
  }

  /** The buffer together with the ledger of all that has happened to it. */
  class RawRingBuffer<T> {
    const buf: array<Option<T>>
    var head: nat
    var count: nat
    var closed: bool
    ghost var ledger: Ledger<T>

    ghost predicate Valid()
      reads this, buf
    {
      && InBounds()
      && closed == ledger.closed && Slots() == Slotted(ledger.queue)
      && Balanced(ledger, buf.Length)
    }

    constructor (capacity: nat)
      requires capacity > 0
      ensures Valid() && fresh(buf) && buf.Length == capacity && ledger == Fresh()
    {
      buf := new Option<T>[capacity](_ => None);
      head, count, closed, ledger := 0, 0, false, Fresh();
    }

    ghost predicate InBounds()
      reads this
    {
      0 < buf.Length && head < buf.Length && count <= buf.Length
    }

    ghost function Slots(): seq<Option<T>>
      requires InBounds()
      reads this, buf
    {
      Unroll(buf[..], head, count)
    }

    /** Writes into the ring, over the oldest slot when there is no other. */
    method Place(x: T) returns (evicted: nat)
      requires InBounds()
      modifies this, buf
      ensures InBounds() && Slots() == PushDrop(old(Slots()), Some(x), buf.Length)
      ensures evicted == (if |old(Slots())| < buf.Length then 0 else 1)
      ensures closed == old(closed) && ledger == old(ledger)
    {
      ghost var s := buf[..];
      if count == buf.Length {
        var next := (head + 1) % buf.Length;
        buf[head] := Some(x);
        Overwritten(s, buf[..], head, next, Some(x));
        head := next;
        evicted := 1;
      } else {
        var idx := (head + count) % buf.Length;
        Appended(s, head, count, idx, Some(x));
        buf[idx] := Some(x);
        assert buf[..] == s[idx := Some(x)];
        count := count + 1;
        evicted := 0;
      }
    }

    method Push(x: T) returns (evicted: nat)
      requires Valid()
      modifies this, buf
      ensures Valid() && ledger == Apply(old(ledger), Op.Push(x), buf.Length)
      ensures old(closed) ==> ledger == old(ledger) && evicted == 0
      ensures !old(closed) ==> ledger.accepted == old(ledger).accepted + [x] && ledger.popped == old(ledger).popped
      ensures !old(closed) && |old(ledger).queue| < buf.Length ==> ledger.queue == old(ledger).queue + [x] && evicted == 0
      ensures !old(closed) && |old(ledger).queue| == buf.Length ==>
                ledger.queue == old(ledger).queue[1..] + [x] && evicted == 1
    {
      if closed { return 0; }
      ApplyBalanced(ledger, Op.Push(x), buf.Length);
      SlottedPush(ledger.queue, x, buf.Length);
      evicted := Place(x);
      ledger := Apply(ledger, Op.Push(x), buf.Length);
    }

    /** The oldest frame, and whether there was one. */
    method Pop() returns (f: Option<T>, ok: bool)
      requires Valid()
      modifies this, buf
      ensures Valid() && ledger == Apply(old(ledger), Op.Pop, buf.Length)
      ensures ok <==> old(ledger).queue != []
      ensures ok ==> f == Some(old(ledger).queue[0]) && ledger.queue == old(ledger).queue[1..]
      ensures ok ==> ledger.popped == old(ledger).popped + [f.value] && ledger.accepted == old(ledger).accepted
      ensures !ok ==> f == None && ledger == old(ledger)
    {
      if count == 0 { return None, false; }
      ghost var s := buf[..];
      ApplyBalanced(ledger, Op.Pop, buf.Length);
      f, ok := buf[head], true;
      assert f == Unroll(s, head, count)[0];
      var next := (head + 1) % buf.Length;
      buf[head] := None;
      Popped(s, buf[..], head, count, next, None);
      assert Slotted(ledger.queue[1..]) == Slotted(ledger.queue)[1..];
      head, count := next, count - 1;
      ledger := Apply(ledger, Op.Pop, buf.Length);
    }

    method Drain() returns (n: nat)
      requires Valid()
      modifies this, buf
      ensures Valid() && ledger == Apply(old(ledger), DrainAll, buf.Length)
      ensures n == |old(ledger).queue| && ledger.queue == [] && ledger.drained == old(ledger).drained + n
    {
      n := count;
      ApplyBalanced(ledger, DrainAll, buf.Length);
      for i := 0 to buf.Length
        invariant closed == old(closed) && ledger == old(ledger)
      {
        buf[i] := None;
      }
      head, count := 0, 0;
      ledger := Apply(ledger, DrainAll, buf.Length);
    }

    method Len() returns (n: nat)
      requires Valid()
      ensures n == |ledger.queue|
      ensures |ledger.accepted| == |ledger.popped| + ledger.evicted + ledger.drained + n
    {
      n := count;
    }

    method Close()
      requires Valid()
      modifies this
      ensures Valid() && ledger == Apply(old(ledger), Op.Close, buf.Length)
      ensures closed && ledger.queue == old(ledger).queue && ledger.accepted == old(ledger).accepted
    {
      closed := true;
      ledger := Apply(ledger, Op.Close, buf.Length);
    }
  }
}
