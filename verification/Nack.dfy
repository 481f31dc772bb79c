/** Gap tracking on the 16-bit packet number: the program's state and its steps. */
module NackSpec {
  import opened Bytes
  import opened Serial

  const NACK_DELAY: int := 30_000_000
  const NACK_RETRY: int := 100_000_000
  const MAX_NACKS: nat := 32

  datatype Gap = Gap(detected: int, lastNack: Option<int>)

  datatype Tracker = Tracker(gaps: map<uint16, Gap>, received: set<uint16>, nextExpect: uint16, initialized: bool)

  const EMPTY := Tracker(map[], {}, 0, false)

  /** s lies in the circular interval [from, to). */
  predicate Between(from: uint16, to: uint16, s: uint16) {
    (s - from) % M16 < (to - from) % M16
  }

  /** The numbers in [from, to) that are neither received nor already known to be missing. */
  ghost function NewGaps(gaps: map<uint16, Gap>, received: set<uint16>, from: uint16, to: uint16, now: int)
    : map<uint16, Gap>
  {
    map s: uint16 | 0 <= s < M16 && Between(from, to, s) && s !in received && s !in gaps :: Gap(now, None)
  }

  function Advance(received: set<uint16>, next: uint16): (r: (set<uint16>, uint16))
    decreases |received|
  {
    if next in received then Advance(received - {next}, (next + 1) % M16) else (received, next)
  }

  ghost function Record(t: Tracker, p: uint16, now: int): Tracker {
    if !t.initialized then t.(nextExpect := (p + 1) % M16, initialized := true)
    else
      var gaps, received := t.gaps - {p}, t.received + {p};
      var added := if After16(p, t.nextExpect) then NewGaps(gaps, received, t.nextExpect, p, now) else map[];
      var (rest, next) := Advance(received, t.nextExpect);
      Tracker(gaps + added, rest, next, true)
  }

  function Resolve(t: Tracker, p: uint16): Tracker {
    var (rest, next) := Advance(t.received + {p}, t.nextExpect);
    t.(gaps := t.gaps - {p}, received := rest, nextExpect := next)
  }

  function Prune(t: Tracker, minSeq: uint16): Tracker {
    t.(gaps := map s | s in t.gaps && !After16(minSeq, s) :: t.gaps[s],
       received := set s | s in t.received && !After16(minSeq, s))
  }

  predicate Due(g: Gap, now: int) {
    match g.lastNack
    case None => now - g.detected >= NACK_DELAY
    case Some(t) => now - t >= NACK_RETRY
  }
}

/** When a missing packet is asked for. */
module NackTiming {
  import opened Bytes
  import opened NackSpec

  /** A gap that lasts through calls at the given times, in none of which the limit of requests is reached. */
  function After(g: Gap, calls: seq<int>): Gap {
    if |calls| == 0 then g
    else
      var before, t := After(g, calls[..|calls| - 1]), calls[|calls| - 1];
      if Due(before, t) then before.(lastNack := Some(t)) else before
  }

  /** The times at which it is asked for. */
  function Asks(g: Gap, calls: seq<int>): seq<int> {
    if |calls| == 0 then []
    else
      var t := calls[|calls| - 1];
      Asks(g, calls[..|calls| - 1]) + if Due(After(g, calls[..|calls| - 1]), t) then [t] else []
  }

  /** A gap is detected when a later number is recorded, and keeps its times as long as it lasts. */
  lemma DetectedWhenFound(t: Tracker, p: uint16, now: int, s: uint16)
    requires s in Record(t, p, now).gaps
    ensures Record(t, p, now).gaps[s] == if s in t.gaps then t.gaps[s] else Gap(now, None)
  {
  }

  lemma {:induction false} LastAsked(detected: int, calls: seq<int>)
    ensures var asks := Asks(Gap(detected, None), calls);
            After(Gap(detected, None), calls) == Gap(detected, if asks == [] then None else Some(asks[|asks| - 1]))
  {
    if |calls| > 0 { LastAsked(detected, calls[..|calls| - 1]); }
  }

  /** It is asked for the first time 30 milliseconds after it was detected or later, and from then on whenever 100
      milliseconds have passed since the last time: exactly then. */
  lemma AsksExact(detected: int, calls: seq<int>, t: int)
    ensures var before := Asks(Gap(detected, None), calls);
            Asks(Gap(detected, None), calls + [t]) ==
            before + if t >= (if before == [] then detected + 30_000_000 else before[|before| - 1] + 100_000_000) then [t]
                     else []
  {
    LastAsked(detected, calls);
    assert (calls + [t])[..|calls|] == calls;
  }
}

/** What the tracker knows, in terms of unbounded packet indices inside one window of 2^15. */
module NackExactness {
  import opened Bytes
  import opened Serial
  import opened NackSpec

  /** The index in [low, low + 2^16) with number s. */
  function IndexOf(low: nat, s: uint16): (n: nat)
    ensures low <= n < low + M16 && n % M16 == s
  {
    low + (s - low) % M16
  }

  lemma IndexUnique(low: nat, n: nat)
    requires low <= n < low + M16
    ensures IndexOf(low, n % M16) == n
  {
  }

  /**
   * seen: indices recorded or resolved; first: the first recorded; high: the highest recorded;
   * next: the least index after first that has not been seen.
   */
  ghost predicate Exact(t: Tracker, low: nat, first: nat, high: nat, next: nat, seen: set<nat>) {
    && t.initialized
    && low <= first <= high < low + H16 && first < next <= low + H16
    && (forall n :: n in seen ==> low <= n < low + H16)
    && first in seen && high in seen
    && (forall n :: first < n < next ==> n in seen) && next !in seen
    && t.nextExpect == next % M16
    && (forall s :: s in t.gaps <==> Lacking(low, first, high, seen, s))
    && (forall s :: s in t.received ==> IndexOf(low, s) in seen)
    && (forall s :: IndexOf(low, s) in seen && IndexOf(low, s) >= next ==> s in t.received)
  }

  /** s is the number of an index strictly between the first and the highest recorded, not seen. */
  ghost predicate Lacking(low: nat, first: nat, high: nat, seen: set<nat>, s: uint16) {
    first < IndexOf(low, s) < high && IndexOf(low, s) !in seen
  }

  /** The part of exactness about the numbers received ahead of the expected one. */
  ghost predicate AheadOK(received: set<uint16>, low: nat, first: nat, next: nat, seen: set<nat>) {
    && first < next <= low + H16
    && (forall n :: first < n < next ==> n in seen)
    && (forall s :: s in received ==> IndexOf(low, s) in seen)
    && (forall s :: IndexOf(low, s) in seen && IndexOf(low, s) >= next ==> s in received)
  }

  /** The advance loop stops at the least index that has not been seen. */
  lemma {:induction false} AdvanceExact(received: set<uint16>, low: nat, first: nat, next: nat, seen: set<nat>)
    returns (next': nat)
    requires (forall n :: n in seen ==> low <= n < low + H16) && low <= first && AheadOK(received, low, first, next, seen)
    ensures var (rest, n) := Advance(received, next % M16);
            n == next' % M16 && next <= next' && next' !in seen && AheadOK(rest, low, first, next', seen)
    decreases |received|
  {
    IndexUnique(low, next);
    if next % M16 in received {
      assert next in seen;
      var rest := received - {next % M16};
      assert (next + 1) % M16 == (next % M16 + 1) % M16;
      next' := AdvanceExact(rest, low, first, next + 1, seen);
    } else {
      next' := next;
    }
  }

  lemma ModDifference(a: nat, b: nat)
    ensures (a % M16 - b % M16) % M16 == (a - b) % M16
  {
  }

  lemma BetweenExact(low: nat, next: nat, n: nat, s: uint16)
    requires low <= next <= n < low + H16
    ensures Between(next % M16, n % M16, s) <==> next <= IndexOf(low, s) < n
  {
    var i := IndexOf(low, s);
    ModDifference(n, next);
    ModDifference(i, next);
    SmallDifference(n - next);
    SmallDifference(i - next);
  }

  lemma SmallDifference(d: int)
    requires -M16 <= d < M16
    ensures d % M16 == if d >= 0 then d else d + M16
  {
  }

  /** Which numbers are gaps after recording n: exactly those lacking for the enlarged set. */
  lemma RecordGaps(t: Tracker, low: nat, first: nat, high: nat, next: nat, seen: set<nat>, n: nat, now: int, s: uint16)
    requires Exact(t, low, first, high, next, seen) && low <= n < low + H16
    ensures s in Record(t, n % M16, now).gaps <==> Lacking(low, first, if n > high then n else high, seen + {n}, s)
  {
    var p := n % M16;
    IndexUnique(low, n);
    After16Exact(n, next);
    var i := IndexOf(low, s);
    if n > next {
      BetweenExact(low, next, n, s);
      assert s in t.gaps <==> Lacking(low, first, high, seen, s);
      assert next <= i && i in seen ==> s in t.received;
      assert s in t.received ==> i in seen;
    } else {
      assert s in t.gaps <==> Lacking(low, first, high, seen, s);
    }
  }

  lemma RecordExact(t: Tracker, low: nat, first: nat, high: nat, next: nat, seen: set<nat>, n: nat, now: int)
    returns (next': nat)
    requires Exact(t, low, first, high, next, seen) && low <= n < low + H16
    ensures next <= next'
    ensures Exact(Record(t, n % M16, now), low, first, if n > high then n else high, next', seen + {n})
  {
    forall s ensures s in Record(t, n % M16, now).gaps <==>
                       Lacking(low, first, if n > high then n else high, seen + {n}, s)
    {
      RecordGaps(t, low, first, high, next, seen, n, now, s);
    }
    AheadGrows(t.received, low, first, next, seen, n);
    next' := AdvanceExact(t.received + {n % M16}, low, first, next, seen + {n});
  }

  lemma AheadGrows(received: set<uint16>, low: nat, first: nat, next: nat, seen: set<nat>, n: nat)
    requires AheadOK(received, low, first, next, seen) && low <= n < low + H16
    ensures AheadOK(received + {n % M16}, low, first, next, seen + {n})
  {
    IndexUnique(low, n);
  }

  /** A recovered packet is no longer a gap; recovery does not raise the highest recorded. */
  lemma ResolveExact(t: Tracker, low: nat, first: nat, high: nat, next: nat, seen: set<nat>, n: nat)
    returns (next': nat)
    requires Exact(t, low, first, high, next, seen) && low <= n < low + H16
    ensures next <= next'
    ensures Exact(Resolve(t, n % M16), low, first, high, next', seen + {n})
  {
    forall s ensures s in t.gaps - {n % M16} <==> Lacking(low, first, high, seen + {n}, s) {
      IndexUnique(low, n);
      assert s in t.gaps <==> Lacking(low, first, high, seen, s);
    }
    AheadGrows(t.received, low, first, next, seen, n);
    next' := AdvanceExact(t.received + {n % M16}, low, first, next, seen + {n});
  }

  lemma FirstRecordExact(n: nat, low: nat, now: int)
    requires low <= n < low + H16
    ensures Exact(Record(EMPTY, n % M16, now), low, n, n, n + 1, {n})
  {
    assert (n % M16 + 1) % M16 == (n + 1) % M16;
  }

  /**
   * Pruning below an index that is not past the least unseen one removes no gap: every gap lies at or
   * beyond that index. It removes only stale entries of the received set.
   */
  lemma PruneExact(t: Tracker, low: nat, first: nat, high: nat, next: nat, seen: set<nat>, m: nat)
    requires Exact(t, low, first, high, next, seen) && low <= m <= next
    ensures Prune(t, m % M16).gaps == t.gaps
    ensures Exact(Prune(t, m % M16), low, first, high, next, seen)
  {
    forall s | s in t.gaps || (s in t.received && IndexOf(low, s) >= next) ensures !After16(m % M16, s) {
      assert s in t.gaps <==> Lacking(low, first, high, seen, s);
      var i := IndexOf(low, s);
      assert i >= next;
      After16Exact(m, i);
    }
  }

  /** Pruning below any index of the window removes exactly the gaps before it. */
  lemma PruneGapsExact(t: Tracker, low: nat, m: nat, s: uint16)
    requires low <= m < low + H16 && (s in t.gaps ==> IndexOf(low, s) < low + H16)
    ensures s in Prune(t, m % M16).gaps <==> s in t.gaps && m <= IndexOf(low, s)
  {
    if s in t.gaps { After16Exact(m, IndexOf(low, s)); }
  }

  // ---------------------------------------------------------------- runs

  datatype Op = Recorded(n: nat, at: int) | Resolved(n: nat)

  ghost function RunOps(t: Tracker, ops: seq<Op>): Tracker {
    if |ops| == 0 then t
    else
      var before := RunOps(t, ops[..|ops| - 1]);
      match ops[|ops| - 1]
      case Recorded(n, at) => Record(before, n % M16, at)
      case Resolved(n) => Resolve(before, n % M16)
  }

  ghost function SeenIn(first: nat, ops: seq<Op>): set<nat> {
    {first} + set k | 0 <= k < |ops| :: ops[k].n
  }

  ghost function HighIn(first: nat, ops: seq<Op>): nat {
    if |ops| == 0 then first
    else
      var h := HighIn(first, ops[..|ops| - 1]);
      match ops[|ops| - 1]
      case Recorded(n, _) => if n > h then n else h
      case Resolved(_) => h
  }

  /**
   * After the first record and any further records and recoveries inside a window of 2^15 indices, the
   * gaps are exactly the unseen indices between the first and the highest recorded, and the expected
   * number is that of the least unseen index after the first.
   */
  lemma {:induction false} RunExact(first: nat, at: int, ops: seq<Op>, low: nat) returns (next: nat)
    requires low <= first < low + H16 && forall k :: 0 <= k < |ops| ==> low <= ops[k].n < low + H16
    ensures Exact(RunOps(Record(EMPTY, first % M16, at), ops), low, first, HighIn(first, ops), next, SeenIn(first, ops))
  {
    var t := Record(EMPTY, first % M16, at);
    if |ops| == 0 {
      FirstRecordExact(first, low, at);
      assert SeenIn(first, ops) == {first};
      next := first + 1;
    } else {
      var k := |ops| - 1;
      var before := RunExact(first, at, ops[..k], low);
      assert SeenIn(first, ops) == SeenIn(first, ops[..k]) + {ops[k].n} by {
        forall x | x in SeenIn(first, ops) ensures x in SeenIn(first, ops[..k]) + {ops[k].n} {
          if x != first {
            var j :| 0 <= j < |ops| && ops[j].n == x;
            assert j < k ==> ops[..k][j].n == x;
          }
        }
        assert ops[k].n in SeenIn(first, ops);
      }
      match ops[k]
      case Recorded(n, now) =>
        next := RecordExact(RunOps(t, ops[..k]), low, first, HighIn(first, ops[..k]), before,
                            SeenIn(first, ops[..k]), n, now);
      case Resolved(n) =>
        next := ResolveExact(RunOps(t, ops[..k]), low, first, HighIn(first, ops[..k]), before,
                             SeenIn(first, ops[..k]), n);
    }
  }
}

/** The gap tracker as the program keeps it. */
module NackTrackers {
  import opened Bytes
  import opened Serial
  import opened NackSpec

  /** Distances from a fixed number: one step adds one, and the distance determines the number. */
  lemma DistanceStep(from: uint16, at: uint16, s: uint16)
    requires (at - from) % M16 < M16 - 1
    ensures ((at + 1) % M16 - from) % M16 == (at - from) % M16 + 1
    ensures (s - from) % M16 == (at - from) % M16 <==> s == at
  {
    if at < from { assert (at - from) % M16 == at - from + M16; } else { assert (at - from) % M16 == at - from; }
    if s < from { assert (s - from) % M16 == s - from + M16; } else { assert (s - from) % M16 == s - from; }
    if at + 1 < M16 {
      assert (at + 1) % M16 == at + 1;
    } else {
      assert (at + 1) % M16 == 0;
    }
  }

  lemma RemainingStep(from: uint16, at: uint16, to: uint16)
    requires Between(from, to, at)
    ensures (to - at) % M16 == (to - from) % M16 - (at - from) % M16
  {
    assert (to - at) % M16 == ((to - from) % M16 - (at - from) % M16) % M16;
  }

  /** The interval walked so far, one number longer. */
  lemma WalkStep(from: uint16, at: uint16, to: uint16, s: uint16)
    requires Between(from, to, at)
    ensures Between(from, (at + 1) % M16, s) <==> Between(from, at, s) || s == at
    ensures (to - (at + 1) % M16) % M16 == (to - at) % M16 - 1
    ensures (at + 1) % M16 != to ==> Between(from, to, (at + 1) % M16)
  {
    var a' := (at + 1) % M16;
    DistanceStep(from, at, s);
    RemainingStep(from, at, to);
    if a' != to {
      assert (to - from) % M16 != (a' - from) % M16;
      RemainingStep(from, a', to);
    } else {
      assert (to - a') % M16 == 0;
    }
  }

  lemma NewGapsStep(gaps: map<uint16, Gap>, received: set<uint16>, from: uint16, at: uint16, to: uint16, now: int)
    requires Between(from, to, at)
    ensures var m := NewGaps(gaps, received, from, at, now);
            && at !in m
            && NewGaps(gaps, received, from, (at + 1) % M16, now) ==
               if at !in received && at !in gaps then m[at := Gap(now, None)] else m
    ensures (to - (at + 1) % M16) % M16 == (to - at) % M16 - 1
    ensures (at + 1) % M16 != to ==> Between(from, to, (at + 1) % M16)
  {
    WalkStep(from, at, to, at);
    forall x: uint16 ensures Between(from, (at + 1) % M16, x) <==> Between(from, at, x) || x == at {
      WalkStep(from, at, to, x);
    }
  }

  class NackTracker {
    var gaps: map<uint16, Gap>
    var received: set<uint16>
    var nextExpect: uint16
    var initialized: bool

    ghost function View(): Tracker
      reads this
    {
      Tracker(gaps, received, nextExpect, initialized)
    }

    constructor ()
      ensures View() == EMPTY
    {
      gaps, received, nextExpect, initialized := map[], {}, 0, false;
    }

    method AdvanceExpected()
      modifies this
      ensures gaps == old(gaps) && initialized == old(initialized)
      ensures (received, nextExpect) == Advance(old(received), old(nextExpect))
    {
      while nextExpect in received
        invariant gaps == old(gaps) && initialized == old(initialized)
        invariant Advance(received, nextExpect) == Advance(old(received), old(nextExpect))
        decreases |received|
      {
        received, nextExpect := received - {nextExpect}, (nextExpect + 1) % M16;
      }
    }

    method AddGaps(to: uint16, now: int)
      requires After16(to, nextExpect)
      modifies this
      ensures received == old(received) && nextExpect == old(nextExpect) && initialized == old(initialized)
      ensures gaps == old(gaps) + NewGaps(old(gaps), received, nextExpect, to, now)
    {
      var s: uint16 := nextExpect;
      while s != to
        invariant received == old(received) && nextExpect == old(nextExpect) && initialized == old(initialized)
        invariant s != to ==> Between(nextExpect, to, s)
        invariant gaps == old(gaps) + NewGaps(old(gaps), received, nextExpect, s, now)
        decreases (to - s) % M16
      {
        NewGapsStep(old(gaps), received, nextExpect, s, to, now);
        if s !in received && s !in gaps { gaps := gaps[s := Gap(now, None)]; }
        s := (s + 1) % M16;
      }
    }

    method Record(pktSeq: uint16, now: int)
      modifies this
      ensures View() == NackSpec.Record(old(View()), pktSeq, now)
    {
      if !initialized {
        nextExpect, initialized := (pktSeq + 1) % M16, true;
        return;
      }
      gaps, received := gaps - {pktSeq}, received + {pktSeq};
      if After16(pktSeq, nextExpect) { AddGaps(pktSeq, now); }
      AdvanceExpected();
    }

    method Resolve(pktSeq: uint16)
      modifies this
      ensures View() == NackSpec.Resolve(old(View()), pktSeq)
    {
      gaps, received := gaps - {pktSeq}, received + {pktSeq};
      AdvanceExpected();
    }

    method Prune(minSeq: uint16)
      modifies this
      ensures View() == NackSpec.Prune(old(View()), minSeq)
    {
      var keys := gaps.Keys;
      while keys != {}
        invariant keys <= old(gaps).Keys && received == old(received)
        invariant nextExpect == old(nextExpect) && initialized == old(initialized)
        invariant gaps == map s: uint16 | s in old(gaps) && (s in keys || !After16(minSeq, s)) :: old(gaps)[s]
        decreases keys
      {
        var s :| s in keys;
        keys := keys - {s};
        if After16(minSeq, s) { gaps := gaps - {s}; }
      }
      keys := received;
      while keys != {}
        invariant keys <= old(received) && gaps == NackSpec.Prune(old(View()), minSeq).gaps
        invariant nextExpect == old(nextExpect) && initialized == old(initialized)
        invariant received == set s: uint16 | s in old(received) && (s in keys || !After16(minSeq, s))
        decreases keys
      {
        var s :| s in keys;
        keys := keys - {s};
        if After16(minSeq, s) { received := received - {s}; }
      }
    }

    /** Visits the gaps in an arbitrary order and stops after 32 requests: only due gaps are asked for, each
        once, none is forgotten, and unless the limit was hit every due gap is asked for. */
    method GetNacks(now: int) returns (nacks: seq<uint16>)
      modifies this
      ensures received == old(received) && nextExpect == old(nextExpect) && initialized == old(initialized)
      ensures |nacks| <= MAX_NACKS && forall i, j :: 0 <= i < j < |nacks| ==> nacks[i] != nacks[j]
      ensures forall s: uint16 :: s in nacks ==> s in old(gaps) && Due(old(gaps)[s], now)
      ensures |nacks| < MAX_NACKS ==> forall s: uint16 :: s in old(gaps) && Due(old(gaps)[s], now) ==> s in nacks
      ensures gaps == map s: uint16 | s in old(gaps) :: if s in nacks then old(gaps)[s].(lastNack := Some(now)) else old(gaps)[s]
    {
      nacks := [];
      var rest := gaps.Keys;
      while rest != {} && |nacks| < MAX_NACKS
        invariant received == old(received) && nextExpect == old(nextExpect) && initialized == old(initialized)
        invariant rest <= old(gaps).Keys && |nacks| <= MAX_NACKS
        invariant forall i, j :: 0 <= i < j < |nacks| ==> nacks[i] != nacks[j]
        invariant forall s :: s in nacks ==> s in old(gaps) && s !in rest && Due(old(gaps)[s], now)
        invariant forall s: uint16 :: s in old(gaps) && s !in rest && Due(old(gaps)[s], now) ==> s in nacks
        invariant gaps == map s: uint16 | s in old(gaps) ::
                    if s in nacks then old(gaps)[s].(lastNack := Some(now)) else old(gaps)[s]
        decreases rest
      {
        var s :| s in rest;
        rest := rest - {s};
        if Due(gaps[s], now) {
          gaps := gaps[s := gaps[s].(lastNack := Some(now))];
          nacks := nacks + [s];
        }
      }
    }
  }
}
