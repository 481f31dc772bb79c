/** The decoder: a pool of received payloads and recovery of a single missing member. */
module FecDecoding {
  import opened Bytes
  import opened Serial
  import opened Parity

  type Pool = map<uint16, bytes>

  function Member(first: uint16, stride: byte, i: nat): uint16 {
    (first + i * stride) % M16
  }

  /** Positions of the group whose packets are not in the pool. */
  function Missing(pool: Pool, first: uint16, stride: byte, count: nat): (ms: seq<nat>)
    ensures forall k :: 0 <= k < |ms| ==> ms[k] < count && Member(first, stride, ms[k]) !in pool
  {
    if count == 0 then []
    else
      var ms := Missing(pool, first, stride, count - 1);
      if Member(first, stride, count - 1) in pool then ms else ms + [count - 1]
  }

  /** The pool's payloads for the first count positions, skipping those absent. */
  function Held(pool: Pool, first: uint16, stride: byte, count: nat): (ps: seq<bytes>) {
    if count == 0 then []
    else
      var ps := Held(pool, first, stride, count - 1);
      var s := Member(first, stride, count - 1);
      if s in pool then ps + [pool[s]] else ps
  }

  function Recover(pool: Pool, first: uint16, stride: byte, count: int, parity: bytes): (r: Option<(uint16, bytes)>) {
    if count < 1 || count > K then None
    else
      var ms := Missing(pool, first, stride, count);
      if |ms| != 1 || |parity| < 2 then None
      else
        match Unpad(Fold(parity, Held(pool, first, stride, count)))
        case None => None
        case Some(p) => Some((Member(first, stride, ms[0]), p))
  }

  /** Drops everything before minSeq in circular order. */
  function Prune(pool: Pool, minSeq: uint16): (r: Pool) {
    map s | s in pool && !After16(minSeq, s) :: pool[s]
  }

  // ---------------------------------------------------------------- recovery is exact

  /** The payloads of the parity group that starts at packet f. */
  ghost function Group(pkts: seq<bytes>, f: nat, count: nat): (g: seq<bytes>)
    requires count > 0 ==> f + STRIDE * (count - 1) < |pkts|
    ensures |g| == count && forall i :: 0 <= i < count ==> g[i] == pkts[f + STRIDE * i]
  {
    seq(count, i requires 0 <= i < count => pkts[f + STRIDE * i])
  }

  /** Every pool entry is what the sender gave that packet number. */
  ghost predicate Faithful(pool: Pool, pkts: seq<bytes>) {
    forall s :: s in pool ==> s < |pkts| && pool[s] == pkts[s]
  }

  ghost predicate Sendable(pkts: seq<bytes>) {
    |pkts| <= M16 && forall i :: 0 <= i < |pkts| ==> |pkts[i]| < M16
  }

  lemma MemberNumber(pkts: seq<bytes>, f: nat, i: nat)
    requires Sendable(pkts) && f + STRIDE * i < |pkts|
    ensures f < M16 && Member(f, 3, i) == f + STRIDE * i
  {
  }

  /** With exactly position m absent, the pool supplies the group without m. */
  lemma {:induction false} HeldIsRest(pool: Pool, pkts: seq<bytes>, f: nat, count: nat)
    requires Sendable(pkts) && Faithful(pool, pkts) && count > 0 && f + STRIDE * (count - 1) < |pkts|
    ensures f < M16
    ensures var ms := Missing(pool, f, 3, count); var g := Group(pkts, f, count);
            && (ms == [] ==> Held(pool, f, 3, count) == g)
            && (|ms| == 1 ==> Held(pool, f, 3, count) == Without(g, ms[0]))
  {
    MemberNumber(pkts, f, count - 1);
    var n := count - 1;
    GroupSnoc(pkts, f, n);
    if n > 0 { HeldIsRest(pool, pkts, f, n); }
    RestStep(Missing(pool, f, 3, n), Held(pool, f, 3, n), Group(pkts, f, n), pkts[f + STRIDE * n],
             Member(f, 3, n) in pool);
  }

  lemma GroupSnoc(pkts: seq<bytes>, f: nat, n: nat)
    requires f + STRIDE * n < |pkts|
    ensures Group(pkts, f, n + 1) == Group(pkts, f, n) + [pkts[f + STRIDE * n]]
  {
  }

  /** One more member, present or not. */
  lemma RestStep(ms: seq<nat>, held: seq<bytes>, g: seq<bytes>, x: bytes, present: bool)
    requires forall k :: 0 <= k < |ms| ==> ms[k] < |g|
    requires ms == [] ==> held == g
    requires |ms| == 1 ==> held == Without(g, ms[0])
    ensures var ms', held' := if present then ms else ms + [|g|], if present then held + [x] else held;
            && (ms' == [] ==> held' == g + [x])
            && (|ms'| == 1 ==> held' == Without(g + [x], ms'[0]))
  {
    if |ms| == 1 { WithoutSnoc(g, x, ms[0]); }
    WithoutLast(g, x);
  }

  lemma WithoutSnoc(g: seq<bytes>, x: bytes, m: nat)
    requires m < |g|
    ensures Without(g + [x], m) == Without(g, m) + [x]
  {
  }

  lemma WithoutLast(g: seq<bytes>, x: bytes)
    ensures Without(g + [x], |g|) == g
  {
  }

  lemma {:induction false} MissingAll(pool: Pool, first: uint16, stride: byte, count: nat, i: nat)
    requires i < count
    ensures Member(first, stride, i) !in pool <==> i in Missing(pool, first, stride, count)
  {
    if i < count - 1 { MissingAll(pool, first, stride, count - 1, i); }
  }

  ghost function Lost(pool: Pool, f: nat): set<nat> {
    set i | 0 <= i < K && (f + STRIDE * i) !in pool
  }

  /** The list of missing positions has one entry exactly when one member is absent. */
  lemma MissingOne(pool: Pool, pkts: seq<bytes>, f: nat)
    requires Sendable(pkts) && f + STRIDE * (K - 1) < |pkts|
    ensures |Missing(pool, f, 3, K)| == 1 <==> |Lost(pool, f)| == 1
    ensures |Lost(pool, f)| == 1 ==> Missing(pool, f, 3, K)[0] in Lost(pool, f)
  {
    var ms := Missing(pool, f, 3, K);
    forall i | 0 <= i < K ensures i in Lost(pool, f) <==> i in ms {
      MemberNumber(pkts, f, i);
      MissingAll(pool, f, 3, K, i);
    }
    MissingSize(pool, f, 3, K);
    assert Lost(pool, f) == Elements(ms);
  }

  ghost function Elements(ms: seq<nat>): set<nat> {
    set i | i in ms
  }

  lemma SizeStep(before: seq<nat>, n: nat)
    requires forall k :: 0 <= k < |before| ==> before[k] < n
    ensures |Elements(before + [n])| == |Elements(before)| + 1
  {
    assert n !in Elements(before);
    assert Elements(before + [n]) == Elements(before) + {n};
  }

  lemma {:induction false} MissingSize(pool: Pool, first: uint16, stride: byte, count: nat)
    ensures |Elements(Missing(pool, first, stride, count))| == |Missing(pool, first, stride, count)|
  {
    if count > 0 {
      MissingSize(pool, first, stride, count - 1);
      SizeStep(Missing(pool, first, stride, count - 1), count - 1);
    }
  }

  lemma RecoverFrom(pool: Pool, first: uint16, g: seq<bytes>, m: nat, number: uint16)
    requires |Missing(pool, first, 3, K)| == 1 && Missing(pool, first, 3, K)[0] == m && Member(first, 3, m) == number
    requires m < |g| && |g[m]| < M16 && Held(pool, first, 3, K) == Without(g, m)
    ensures Recover(pool, first, 3, K, ParityOf(g)) == Some((number, g[m]))
  {
    RestoredPayload(g, m, Held(pool, first, 3, K));
    RecoverWith(pool, first, ParityOf(g), g[m], m, number);
  }

  lemma RecoverOne(pool: Pool, pkts: seq<bytes>, f: nat, g: seq<bytes>, m: nat)
    requires Sendable(pkts) && Faithful(pool, pkts) && f + STRIDE * (K - 1) < |pkts| && g == Group(pkts, f, K)
    requires |Missing(pool, f, 3, K)| == 1 && Missing(pool, f, 3, K)[0] == m
    ensures m < K && Recover(pool, f, 3, K, ParityOf(g)) == Some((f + STRIDE * m, g[m]))
  {
    HeldIsRest(pool, pkts, f, K);
    MemberNumber(pkts, f, m);
    RecoverFrom(pool, f, g, m, f + STRIDE * m);
  }

  lemma RestoredPayload(g: seq<bytes>, m: nat, rest: seq<bytes>)
    requires m < |g| && |g[m]| < M16 && rest == Without(g, m)
    ensures Unpad(Fold(ParityOf(g), rest)) == Some(g[m])
  {
    var par := ParityOf(g);
    FoldRestores(g, m, par);
    MaxLenBounds(g, m);
    UnpadPadded(g[m], |par|);
  }

  lemma RecoverWith(pool: Pool, first: uint16, parity: bytes, payload: bytes, m: nat, number: uint16)
    requires |Missing(pool, first, 3, K)| == 1 && Missing(pool, first, 3, K)[0] == m && |parity| >= 2
    requires Unpad(Fold(parity, Held(pool, first, 3, K))) == Some(payload) && Member(first, 3, m) == number
    ensures Recover(pool, first, 3, K, parity) == Some((number, payload))
  {
  }

  /**
   * Recovery from the parity of a group, whatever else the pool holds: it succeeds exactly when one
   * member is absent, and then returns that member's number and payload.
   */
  lemma RecoverExact(pool: Pool, pkts: seq<bytes>, f: nat)
    requires Sendable(pkts) && Faithful(pool, pkts) && f + STRIDE * (K - 1) < |pkts|
    ensures f < M16
    ensures var r := Recover(pool, f, 3, K, ParityOf(Group(pkts, f, K)));
            && (r.Some? <==> |Lost(pool, f)| == 1)
            && forall i :: i in Lost(pool, f) && r.Some? ==> r.value == (f + STRIDE * i, pkts[f + STRIDE * i])
  {
    MissingOne(pool, pkts, f);
    if |Missing(pool, f, 3, K)| == 1 {
      RecoverOne(pool, pkts, f, Group(pkts, f, K), Missing(pool, f, 3, K)[0]);
      OnlyOne(Lost(pool, f), Missing(pool, f, 3, K)[0]);
    }
  }

  // ---------------------------------------------------------------- bursts

  /** A group of seven whose last member has been sent. */
  ghost predicate Grouped(pkts: seq<bytes>, f: nat) {
    f + STRIDE * (K - 1) < |pkts|
  }

  /** Handles the parity of the group of f, adding what is recovered. */
  ghost function HealOne(pool: Pool, pkts: seq<bytes>, f: nat): Pool
    requires Sendable(pkts) && Grouped(pkts, f)
  {
    match Recover(pool, f, 3, K, ParityOf(Group(pkts, f, K)))
    case None => pool
    case Some((s, payload)) => pool[s := payload]
  }

  ghost predicate AllGrouped(pkts: seq<bytes>, fs: seq<nat>) {
    forall k :: 0 <= k < |fs| ==> Grouped(pkts, fs[k])
  }

  ghost function Heal(pool: Pool, pkts: seq<bytes>, fs: seq<nat>): Pool
    requires Sendable(pkts) && AllGrouped(pkts, fs)
  {
    if |fs| == 0 then pool else HealOne(Heal(pool, pkts, fs[..|fs| - 1]), pkts, fs[|fs| - 1])
  }

  ghost predicate Complete(pool: Pool, f: nat) {
    forall i :: 0 <= i < K ==> (f + STRIDE * i) in pool
  }

  /** The members of the group of f other than the lost ones are in the pool. */
  ghost predicate OthersHeld(pool: Pool, f: nat, lost: set<nat>) {
    forall i :: 0 <= i < K && (f + STRIDE * i) !in lost ==> (f + STRIDE * i) in pool
  }

  /** Three consecutive numbers contain at most one member of any group. */
  lemma BurstHitsOnce(pool: Pool, f: nat, lost: set<nat>, s: nat)
    requires Burst(lost, s) && OthersHeld(pool, f, lost)
    ensures |Lost(pool, f)| <= 1
  {
    forall i, j | i in Lost(pool, f) && j in Lost(pool, f) ensures i == j {
      assert (f + STRIDE * i) in lost && (f + STRIDE * j) in lost;
    }
    if i :| i in Lost(pool, f) {
      assert Lost(pool, f) == {i};
    }
  }

  lemma HealStep(p: Pool, pkts: seq<bytes>, f: nat, lost: set<nat>, s: nat)
    requires Sendable(pkts) && Faithful(p, pkts) && Grouped(pkts, f)
    requires Burst(lost, s) && OthersHeld(p, f, lost)
    ensures var q := HealOne(p, pkts, f); Faithful(q, pkts) && p.Keys <= q.Keys && Complete(q, f)
  {
    BurstHitsOnce(p, f, lost, s);
    RecoverExact(p, pkts, f);
    HealOneEffect(p, pkts, f);
  }

  /** With at most one member lost, handling the parity completes the group. */
  lemma HealOneEffect(p: Pool, pkts: seq<bytes>, f: nat)
    requires Sendable(pkts) && Faithful(p, pkts) && Grouped(pkts, f) && |Lost(p, f)| <= 1
    ensures var q := HealOne(p, pkts, f); Faithful(q, pkts) && p.Keys <= q.Keys && Complete(q, f)
  {
    RecoverExact(p, pkts, f);
    if |Lost(p, f)| == 1 {
      var i :| i in Lost(p, f);
      OnlyOne(Lost(p, f), i);
      HealOneAdds(p, pkts, f, f + STRIDE * i, pkts[f + STRIDE * i]);
      AddLost(p, pkts, f, i);
    } else {
      forall k | 0 <= k < K ensures (f + STRIDE * k) in p { assert k !in Lost(p, f); }
    }
  }

  lemma HealOneAdds(p: Pool, pkts: seq<bytes>, f: nat, s: uint16, payload: bytes)
    requires Sendable(pkts) && Grouped(pkts, f)
    requires Recover(p, f, 3, K, ParityOf(Group(pkts, f, K))) == Some((s, payload))
    ensures HealOne(p, pkts, f) == p[s := payload]
  {
  }

  lemma AddLost(p: Pool, pkts: seq<bytes>, f: nat, i: nat)
    requires Sendable(pkts) && Faithful(p, pkts) && Grouped(pkts, f) && Lost(p, f) == {i}
    ensures i < K && f + STRIDE * i < M16
    ensures var q := p[f + STRIDE * i := pkts[f + STRIDE * i]]; Faithful(q, pkts) && Complete(q, f)
  {
    assert i in Lost(p, f);
    forall k | 0 <= k < K && k != i ensures (f + STRIDE * k) in p { assert k !in Lost(p, f); }
  }

  lemma OnlyOne(s: set<nat>, i: nat)
    requires i in s && |s| <= 1
    ensures s == {i}
  {
    assert |s - {i}| == |s| - 1;
    assert s == {i} + (s - {i});
  }

  lemma CompleteGrows(p: Pool, q: Pool, f: nat)
    requires Complete(p, f) && p.Keys <= q.Keys
    ensures Complete(q, f)
  {
  }

  lemma OthersGrow(p: Pool, q: Pool, f: nat, lost: set<nat>)
    requires OthersHeld(p, f, lost) && p.Keys <= q.Keys
    ensures OthersHeld(q, f, lost)
  {
  }

  /** Each group has its members in the pool, apart from the lost ones. */
  ghost predicate AllOthersHeld(pool: Pool, fs: seq<nat>, lost: set<nat>) {
    forall k :: 0 <= k < |fs| ==> OthersHeld(pool, fs[k], lost)
  }

  ghost predicate AllComplete(pool: Pool, fs: seq<nat>) {
    forall k :: 0 <= k < |fs| ==> Complete(pool, fs[k])
  }

  lemma CompleteOneMore(p: Pool, q: Pool, fs: seq<nat>, f: nat)
    requires AllComplete(p, fs) && p.Keys <= q.Keys && Complete(q, f)
    ensures AllComplete(q, fs + [f])
  {
    forall k | 0 <= k < |fs| ensures Complete(q, fs[k]) { CompleteGrows(p, q, fs[k]); }
  }

  ghost predicate Burst(lost: set<nat>, s: nat) {
    forall l :: l in lost ==> s <= l < s + STRIDE
  }

  /** q extends the pool by packets that were sent, and completes every group. */
  ghost predicate Healed(pool: Pool, q: Pool, pkts: seq<bytes>, fs: seq<nat>) {
    Faithful(q, pkts) && pool.Keys <= q.Keys && AllComplete(q, fs)
  }

  lemma HealMore(pool: Pool, p: Pool, pkts: seq<bytes>, fs: seq<nat>, f: nat, lost: set<nat>, s: nat)
    requires Sendable(pkts) && Grouped(pkts, f) && OthersHeld(pool, f, lost) && Burst(lost, s)
    requires Healed(pool, p, pkts, fs)
    ensures Healed(pool, HealOne(p, pkts, f), pkts, fs + [f])
  {
    OthersGrow(pool, p, f, lost);
    HealStep(p, pkts, f, lost, s);
    CompleteOneMore(p, HealOne(p, pkts, f), fs, f);
  }

  lemma SplitLast(pool: Pool, pkts: seq<bytes>, fs: seq<nat>, n: nat, lost: set<nat>)
    requires |fs| == n + 1 && AllGrouped(pkts, fs) && AllOthersHeld(pool, fs, lost)
    ensures AllGrouped(pkts, fs[..n]) && AllOthersHeld(pool, fs[..n], lost)
    ensures Grouped(pkts, fs[n]) && OthersHeld(pool, fs[n], lost) && fs == fs[..n] + [fs[n]]
  {
  }

  /**
   * Burst resilience: if what was lost lies within three consecutive packets, then once the parities
   * of groups that cover it are handled, every packet of those groups is in the pool, unaltered.
   */
  lemma {:induction false} BurstHealed(pool: Pool, pkts: seq<bytes>, fs: seq<nat>, lost: set<nat>, s: nat)
    requires Sendable(pkts) && Faithful(pool, pkts) && AllGrouped(pkts, fs) && AllOthersHeld(pool, fs, lost)
    requires Burst(lost, s)
    ensures Healed(pool, Heal(pool, pkts, fs), pkts, fs)
  {
    if |fs| > 0 {
      var n := |fs| - 1;
      SplitLast(pool, pkts, fs, n, lost);
      BurstHealed(pool, pkts, fs[..n], lost, s);
      HealMore(pool, Heal(pool, pkts, fs[..n]), pkts, fs[..n], fs[n], lost, s);
    }
  }
}

/** The decoder as the program keeps it. */
module FecDecoders {
  import opened Bytes
  import opened Serial
  import opened Parity
  import opened FecDecoding

  method XorIntoArray(dst: array<byte>, src: bytes)
    modifies dst
    ensures dst[..] == XorInto(old(dst[..]), src)
  {
    for i := 0 to |src|
      invariant forall j :: 0 <= j < dst.Length ==>
                  dst[j] == if j < i then Xor(old(dst[j]), src[j]) else old(dst[j])
    {
      if i < dst.Length { dst[i] := Xor(dst[i], src[i]); }
    }
  }

  lemma FoldStep(acc: bytes, ps: seq<bytes>, p: bytes)
    requires |acc| >= 2
    ensures Fold(acc, ps + [p]) == XorInto(Fold(acc, ps), Padded(p, |acc|))
  {
    assert (ps + [p])[..|ps|] == ps;
  }

  class FecDecoder {
    var pool: Pool

    constructor ()
      ensures pool == map[]
    {
      pool := map[];
    }

    method AddData(pktSeq: uint16, payload: bytes)
      modifies this
      ensures pool == old(pool)[pktSeq := payload]
    {
      pool := pool[pktSeq := payload];
    }

    method FindMissing(first: uint16, stride: byte, count: nat) returns (many: bool, missing: Option<nat>)
      ensures many <==> |Missing(pool, first, stride, count)| > 1
      ensures !many ==> missing == (var ms := Missing(pool, first, stride, count); if |ms| == 0 then None else Some(ms[0]))
    {
      many, missing := false, None;
      for i := 0 to count
        invariant var ms := Missing(pool, first, stride, i);
                  |ms| <= 1 && missing == if |ms| == 0 then None else Some(ms[0])
      {
        if Member(first, stride, i) !in pool {
          if missing.Some? {
            MissingGrows(pool, first, stride, i + 1, count);
            many := true;
            return;
          }
          missing := Some(i);
        }
      }
    }

    method Recover(first: uint16, stride: byte, count: int, parity: bytes) returns (r: Option<(uint16, bytes)>)
      ensures r == FecDecoding.Recover(pool, first, stride, count, parity)
    {
      if count < 1 || count > K { return None; }
      var many, missing := FindMissing(first, stride, count);
      if many || missing.None? || |parity| < 2 { return None; }
      var result := new byte[|parity|](i requires 0 <= i < |parity| => parity[i]);
      assert result[..] == parity;
      for i := 0 to count
        invariant result[..] == Fold(parity, Held(pool, first, stride, i))
      {
        var s := Member(first, stride, i);
        if i != missing.value {
          AbsentOnce(pool, first, stride, count, i);
          FoldStep(parity, Held(pool, first, stride, i), pool[s]);
          XorIntoArray(result, Padded(pool[s], |parity|));
        }
      }
      match Unpad(result[..])
      case None => return None;
      case Some(p) => return Some((Member(first, stride, missing.value), p));
    }

    method Prune(minSeq: uint16)
      modifies this
      ensures pool == FecDecoding.Prune(old(pool), minSeq)
    {
      var rest := pool.Keys;
      while rest != {}
        invariant rest <= old(pool).Keys
        invariant pool == map s | s in old(pool) && (s in rest || !After16(minSeq, s)) :: old(pool)[s]
        decreases rest
      {
        var s :| s in rest;
        rest := rest - {s};
        if After16(minSeq, s) { pool := pool - {s}; }
      }
    }
  }

  lemma {:induction false} MissingGrows(pool: Pool, first: uint16, stride: byte, i: nat, count: nat)
    requires i <= count
    ensures |Missing(pool, first, stride, i)| <= |Missing(pool, first, stride, count)|
    decreases count
  {
    if i < count { MissingGrows(pool, first, stride, i, count - 1); }
  }

  /** When one position is absent, every other one is present. */
  lemma AbsentOnce(pool: Pool, first: uint16, stride: byte, count: nat, i: nat)
    requires |Missing(pool, first, stride, count)| == 1 && i < count && i != Missing(pool, first, stride, count)[0]
    ensures Member(first, stride, i) in pool
  {
    MissingAll(pool, first, stride, count, i);
  }
}
