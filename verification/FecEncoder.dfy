/** The encoder fed with consecutive packets, seen through unbounded packet indices. */
module FecEncoding {
  import opened Bytes
  import opened Parity

  datatype Packet = Packet(seqno: uint16, payload: bytes)

  /** The packets collected so far in each of the interleaved groups. */
  type Groups = seq<seq<Packet>>

  datatype ParityPacket = ParityPacket(first: uint16, count: nat, parity: bytes)

  ghost predicate WellFormed(gs: Groups) {
    |gs| == STRIDE && forall g :: 0 <= g < STRIDE ==> |gs[g]| < K
  }

  function Payloads(ms: seq<Packet>): (ps: seq<bytes>)
    ensures |ps| == |ms| && forall i :: 0 <= i < |ms| ==> ps[i] == ms[i].payload
  {
    seq(|ms|, i requires 0 <= i < |ms| => ms[i].payload)
  }

  function AddPacket(gs: Groups, p: Packet): (r: (Groups, Option<ParityPacket>))
    requires WellFormed(gs)
    ensures WellFormed(r.0)
  {
    var g := p.seqno % STRIDE;
    var ms := gs[g] + [p];
    if |ms| < K then (gs[g := ms], None)
    else (gs[g := []], Some(ParityPacket(ms[0].seqno, K, ParityOf(Payloads(ms)))))
  }

  // ---------------------------------------------------------------- indices

  /** The group into which packet n goes. */
  function Class(n: nat): nat {
    (n % M16) % STRIDE
  }

  /** The next packet of the same group: three later, or the first of that group after the number wraps. */
  function Next(n: nat): (r: nat)
    ensures r > n
  {
    if n % M16 + STRIDE < M16 then n + STRIDE else (n / M16 + 1) * M16 + Class(n)
  }

  lemma NextClass(n: nat)
    ensures Class(Next(n)) == Class(n)
  {
    if n % M16 + STRIDE < M16 {
      assert (n + STRIDE) % M16 == n % M16 + STRIDE;
    } else {
      assert Next(n) % M16 == Class(n);
    }
  }

  lemma NextIsLeast(n: nat, m: nat)
    requires n < m < Next(n)
    ensures Class(m) != Class(n)
  {
    if m / M16 == n / M16 {
      assert m % M16 == n % M16 + (m - n);
    } else {
      assert m / M16 == n / M16 + 1;
    }
  }

  /** Consecutive packets of one group, the last of which is also the group's latest before n. */
  ghost predicate Chain(ms: seq<nat>, g: nat, n: nat) {
    && (forall i :: 0 <= i < |ms| ==> Class(ms[i]) == g && ms[i] < n)
    && (forall i :: 0 <= i < |ms| - 1 ==> ms[i + 1] == Next(ms[i]))
    && (|ms| > 0 ==> Next(ms[|ms| - 1]) >= n)
  }

  /** How many of the first n packets go into group g. */
  ghost function InGroup(g: nat, n: nat): nat {
    if n == 0 then 0 else InGroup(g, n - 1) + if Class(n - 1) == g then 1 else 0
  }

  /** Packet n is the seventh, fourteenth, ... of its group. */
  ghost predicate Completes(n: nat) {
    InGroup(Class(n), n) % K == K - 1
  }

  /** A group holds exactly the packets whose indices idx lists, after n packets: those since the last multiple of
      seven. */
  ghost predicate GroupTracks(ps: seq<Packet>, idx: seq<nat>, g: nat, n: nat, pay: nat -> bytes) {
    Chain(idx, g, n) && Holds(ps, idx, pay) && |idx| == InGroup(g, n) % K
  }

  ghost predicate Tracks(gs: Groups, idx: seq<seq<nat>>, n: nat, pay: nat -> bytes) {
    && WellFormed(gs) && |idx| == STRIDE
    && forall g :: 0 <= g < STRIDE ==> GroupTracks(gs[g], idx[g], g, n, pay)
  }

  ghost predicate Holds(ms: seq<Packet>, idx: seq<nat>, pay: nat -> bytes) {
    && |ms| == |idx|
    && forall i :: 0 <= i < |ms| ==> ms[i] == Packet(idx[i] % M16, pay(idx[i]))
  }

  ghost function PayloadsAt(pay: nat -> bytes, ms: seq<nat>): (ps: seq<bytes>)
    ensures |ps| == |ms| && forall i :: 0 <= i < |ms| ==> ps[i] == pay(ms[i])
  {
    seq(|ms|, i requires 0 <= i < |ms| => pay(ms[i]))
  }

  lemma ChainGrows(ms: seq<nat>, g: nat, n: nat)
    requires Chain(ms, g, n)
    ensures Class(n) == g ==> Chain(ms + [n], g, n + 1)
    ensures Class(n) != g ==> Chain(ms, g, n + 1)
  {
    if |ms| > 0 {
      var last := ms[|ms| - 1];
      NextClass(last);
      if Class(n) == g && n < Next(last) { NextIsLeast(last, n); }
    }
  }

  /**
   * Feeding packet n: the groups go on to hold consecutive packets; every seventh packet of a group releases a
   * parity and no other does; and that is the parity of the last seven packets of the group, announced under the
   * number of the first.
   */
  lemma AddPacketTracks(gs: Groups, idx: seq<seq<nat>>, n: nat, pay: nat -> bytes)
    returns (idx': seq<seq<nat>>, ms: seq<nat>)
    requires Tracks(gs, idx, n, pay)
    ensures var r := AddPacket(gs, Packet(n % M16, pay(n)));
            && Tracks(r.0, idx', n + 1, pay)
            && (r.1.Some? <==> Completes(n))
            && (r.1.Some? ==>
                  && |ms| == K && Chain(ms, Class(n), n + 1) && ms[K - 1] == n
                  && r.1.value.first == ms[0] % M16 && r.1.value.count == K
                  && r.1.value.parity == ParityOf(PayloadsAt(pay, ms)))
  {
    var g, packet := Class(n), Packet(n % M16, pay(n));
    assert GroupTracks(gs[g], idx[g], g, n, pay);
    ms := idx[g] + [n];
    idx' := idx[g := if |ms| < K then ms else []];
    OwnGroup(gs[g], idx[g], n, pay);
    var gs' := AddPacket(gs, packet).0;
    assert gs' == gs[g := if |ms| < K then gs[g] + [packet] else []];
    forall h | 0 <= h < STRIDE ensures GroupTracks(gs'[h], idx'[h], h, n + 1, pay) {
      if h != g { OtherGroup(gs[h], idx[h], h, n, pay); }
    }
  }

  lemma OtherGroup(ps: seq<Packet>, idx: seq<nat>, g: nat, n: nat, pay: nat -> bytes)
    requires GroupTracks(ps, idx, g, n, pay) && Class(n) != g
    ensures GroupTracks(ps, idx, g, n + 1, pay)
  {
    ChainGrows(idx, g, n);
  }

  /** The group of packet n: one more, or a new start. */
  lemma OwnGroup(ps: seq<Packet>, idx: seq<nat>, n: nat, pay: nat -> bytes)
    requires GroupTracks(ps, idx, Class(n), n, pay)
    ensures var more, ms := ps + [Packet(n % M16, pay(n))], idx + [n];
            && Chain(ms, Class(n), n + 1) && Holds(more, ms, pay) && Payloads(more) == PayloadsAt(pay, ms)
            && (|ms| == K <==> Completes(n)) && |ms| <= K
            && (if |ms| < K then GroupTracks(more, ms, Class(n), n + 1, pay) else GroupTracks([], [], Class(n), n + 1, pay))
  {
    ChainGrows(idx, Class(n), n);
    HoldsMore(ps, idx, n, pay);
    CountOn(InGroup(Class(n), n));
    assert InGroup(Class(n), n + 1) == InGroup(Class(n), n) + 1;
  }

  lemma CountOn(c: nat)
    ensures (c + 1) % K == if c % K == K - 1 then 0 else c % K + 1
  {
  }

  lemma HoldsMore(ps: seq<Packet>, idx: seq<nat>, n: nat, pay: nat -> bytes)
    requires Holds(ps, idx, pay)
    ensures var more := ps + [Packet(n % M16, pay(n))];
            Holds(more, idx + [n], pay) && Payloads(more) == PayloadsAt(pay, idx + [n])
  {
  }

  // ---------------------------------------------------------------- the numbering across the wrap

  lemma NextAcross(n: nat)
    ensures Next(n) / M16 == n / M16 <==> Next(n) == n + STRIDE
    ensures (Next(n) % M16 == (n + STRIDE) % M16) <==> Next(n) / M16 == n / M16
  {
    if n % M16 + STRIDE < M16 {
      assert Next(n) / M16 == n / M16;
    } else {
      var e := n / M16;
      assert n + STRIDE == (e + 1) * M16 + (n % M16 + STRIDE - M16);
      assert (n + STRIDE) % M16 == n % M16 + STRIDE - M16;
      assert Next(n) == (e + 1) * M16 + Class(n);
      assert Next(n) % M16 == Class(n);
    }
  }

  lemma {:induction false} ChainMonotone(ms: seq<nat>, g: nat, n: nat, i: nat, j: nat)
    requires Chain(ms, g, n) && i <= j < |ms|
    ensures ms[i] <= ms[j]
  {
    if i < j { ChainMonotone(ms, g, n, i, j - 1); }
  }

  /** Within one turn of the packet number the members are three apart. */
  lemma {:induction false} ChainWithinTurn(ms: seq<nat>, g: nat, n: nat, i: nat)
    requires Chain(ms, g, n) && i < |ms| && ms[0] / M16 == ms[|ms| - 1] / M16
    ensures ms[i] == ms[0] + STRIDE * i
  {
    if i > 0 {
      ChainWithinTurn(ms, g, n, i - 1);
      ChainMonotone(ms, g, n, 0, i - 1);
      ChainMonotone(ms, g, n, i - 1, i);
      ChainMonotone(ms, g, n, i, |ms| - 1);
      NextAcross(ms[i - 1]);
    }
  }

  /**
   * The receiver takes member i of a group to be number first + 3i. That is right for every member
   * exactly when the group does not straddle the wrap of the 16-bit packet number.
   */
  lemma MembersExact(ms: seq<nat>, g: nat, n: nat)
    requires Chain(ms, g, n) && |ms| == K
    ensures (forall i :: 0 <= i < K ==> (ms[0] + STRIDE * i) % M16 == ms[i] % M16) <==> ms[0] / M16 == ms[K - 1] / M16
  {
    if ms[0] / M16 == ms[K - 1] / M16 {
      forall i | 0 <= i < K ensures (ms[0] + STRIDE * i) % M16 == ms[i] % M16 { ChainWithinTurn(ms, g, n, i); }
    } else {
      var i := FirstCrossing(ms, g, n, K - 1);
      CrossingBreaks(ms, g, n, i);
    }
  }

  /** Up to the wrap a third of the packets goes into each group. */
  lemma {:induction false} InGroupWithinTurn(g: nat, n: nat)
    requires g < STRIDE && n <= M16
    ensures InGroup(g, n) == (n + 2 - g) / STRIDE
  {
    if n > 0 { InGroupWithinTurn(g, n - 1); }
  }

  /** Position r of group g in block b. */
  lemma BlockPosition(b: nat, r: nat, g: nat, n: nat)
    requires r < K && g < STRIDE && n == 21 * b + 3 * r + g
    ensures n % STRIDE == g && (n + 2 - g) / STRIDE == 7 * b + r && (7 * b + r) % K == r
    ensures n >= 18 && (n - 18) % 21 < 3 <==> r == K - 1
  {
    var q := 7 * b + r;
    assert n == STRIDE * q + g && n + 2 - g == STRIDE * q + 2;
    if r == K - 1 {
      assert n - 18 == 21 * b + g;
    } else if n >= 18 {
      assert n - 18 == 21 * (b - 1) + (3 * r + 3 + g);
    }
  }

  lemma SmallNumber(n: nat)
    requires n < M16
    ensures Class(n) == n % STRIDE
  {
  }

  lemma SplitBlock(n: nat) returns (b: nat, r: nat, g: nat)
    ensures r < K && g < STRIDE && n == 21 * b + 3 * r + g
  {
    b, r, g := n / 21, (n % 21) / 3, (n % 21) % 3;
  }

  /** Up to the wrap the groups are blocks: the last three of every twenty-one packets complete one each. */
  lemma CompletesWithinTurn(n: nat)
    requires n < M16
    ensures Completes(n) <==> n >= 18 && (n - 18) % 21 < 3
  {
    var b, r, g := SplitBlock(n);
    BlockPosition(b, r, g, n);
    SmallNumber(n);
    InGroupWithinTurn(g, n);
  }

  /** Seven consecutive packets of the middle group that an encoder started at packet 0 does put together; the sixth
      comes after the wrap under number 1, and the receiver takes it to be number 0, which belongs to another group. */
  lemma StraddlingGroup()
    ensures var ms := [65521, 65524, 65527, 65530, 65533, 65537, 65540];
            && |ms| == K && Chain(ms, 1, 65541) && ms[5] % M16 == 1
            && (ms[0] + STRIDE * 5) % M16 == 0 && Class(0) != Class(ms[5])
            && Completes(ms[6])
  {
    StraddlingCompletes(M16);
    assert Next(65521) == 65524 && Next(65524) == 65527 && Next(65527) == 65530 && Next(65530) == 65533;
    assert Next(65533) == 65537 && Next(65537) == 65540 && Next(65540) == 65543;
  }

  lemma StraddlingCompletes(m: nat)
    requires m == M16
    ensures Completes(m + 4)
  {
    InGroupWithinTurn(1, m);
    AfterWrap(m);
    InGroupNext(1, m);
    InGroupNext(1, m + 1);
    InGroupNext(1, m + 2);
    InGroupNext(1, m + 3);
  }

  lemma InGroupNext(g: nat, n: nat)
    ensures InGroup(g, n + 1) == InGroup(g, n) + if Class(n) == g then 1 else 0
  {
  }

  lemma AfterWrap(m: nat)
    requires m == M16
    ensures Class(m) == 0 && Class(m + 1) == 1 && Class(m + 2) == 2 && Class(m + 3) == 0 && Class(m + 4) == 1
  {
  }

  lemma StepModulo(a: nat, b: nat)
    requires a % M16 == b % M16
    ensures (a + STRIDE) % M16 == (b + STRIDE) % M16
  {
  }

  /** Right up to the crossing, the numbering is wrong just after it. */
  lemma CrossingBreaks(ms: seq<nat>, g: nat, n: nat, i: nat)
    requires Chain(ms, g, n) && i + 1 < |ms| && ms[i] / M16 != ms[i + 1] / M16
    ensures (ms[0] + STRIDE * i) % M16 != ms[i] % M16 || (ms[0] + STRIDE * (i + 1)) % M16 != ms[i + 1] % M16
  {
    NextAcross(ms[i]);
    if (ms[0] + STRIDE * i) % M16 == ms[i] % M16 {
      StepModulo(ms[0] + STRIDE * i, ms[i]);
      assert ms[0] + STRIDE * (i + 1) == ms[0] + STRIDE * i + STRIDE;
    }
  }

  lemma {:induction false} FirstCrossing(ms: seq<nat>, g: nat, n: nat, j: nat) returns (i: nat)
    requires Chain(ms, g, n) && j < |ms| && ms[0] / M16 != ms[j] / M16
    ensures i < j && ms[i] / M16 != ms[i + 1] / M16
    decreases j
  {
    if ms[j - 1] / M16 != ms[j] / M16 { i := j - 1; } else { i := FirstCrossing(ms, g, n, j - 1); }
  }
}

/** The encoder as the program keeps it: per group the members, the longest payload and the first number. */
module FecEncoders {
  import opened Bytes
  import opened Parity
  import opened FecDecoders
  import opened FecEncoding

  datatype EncGroup = EncGroup(members: seq<Packet>, maxPayLen: nat, startSeq: uint16) {
    ghost predicate Valid() {
      && maxPayLen == MaxLen(Payloads(members))
      && (members != [] ==> startSeq == members[0].seqno)
    }
  }

  ghost function MembersOf(gs: seq<EncGroup>): (r: Groups)
    ensures |r| == |gs| && forall g :: 0 <= g < |gs| ==> r[g] == gs[g].members
  {
    seq(|gs|, g requires 0 <= g < |gs| => gs[g].members)
  }

  ghost predicate AllValid(gs: seq<EncGroup>) {
    forall g :: 0 <= g < |gs| ==> gs[g].Valid()
  }

  lemma ReplaceGroup(gs: seq<EncGroup>, g: nat, x: EncGroup)
    requires g < |gs| && AllValid(gs) && x.Valid()
    ensures AllValid(gs[g := x]) && MembersOf(gs[g := x]) == MembersOf(gs)[g := x.members]
  {
  }

  lemma MaxLenGrows(ms: seq<Packet>, p: Packet)
    ensures MaxLen(Payloads(ms + [p])) ==
              if |p.payload| > MaxLen(Payloads(ms)) then |p.payload| else MaxLen(Payloads(ms))
  {
    assert Payloads(ms + [p])[..|ms|] == Payloads(ms);
  }

  lemma PayloadsStep(ms: seq<Packet>, i: nat)
    requires i < |ms|
    ensures Payloads(ms[..i + 1]) == Payloads(ms[..i]) + [ms[i].payload]
  {
  }

  method FoldMembers(ms: seq<Packet>, paddedLen: nat) returns (parity: bytes)
    requires paddedLen == MaxLen(Payloads(ms)) + 2
    ensures parity == ParityOf(Payloads(ms))
  {
    var acc := new byte[paddedLen](_ => 0);
    ghost var zeros := Zeros(paddedLen);
    assert acc[..] == zeros;
    for i := 0 to |ms|
      invariant acc[..] == Fold(zeros, Payloads(ms[..i]))
    {
      PayloadsStep(ms, i);
      FoldStep(zeros, Payloads(ms[..i]), ms[i].payload);
      XorIntoArray(acc, Padded(ms[i].payload, paddedLen));
    }
    assert ms[..|ms|] == ms;
    return acc[..];
  }

  class FecEncoder {
    var groups: seq<EncGroup>

    ghost function View(): Groups
      reads this
    {
      MembersOf(groups)
    }

    ghost predicate Valid()
      reads this
    {
      AllValid(groups) && WellFormed(View())
    }

    constructor ()
      ensures Valid() && View() == [[], [], []]
    {
      var empty := EncGroup([], 0, 0);
      groups := [empty, empty, empty];
      assert MembersOf([empty, empty, empty]) == [[], [], []];
    }

    method AddPacket(pktSeq: uint16, payload: bytes) returns (out: Option<ParityPacket>)
      requires Valid()
      modifies this
      ensures Valid()
      ensures (View(), out) == FecEncoding.AddPacket(old(View()), Packet(pktSeq, payload))
    {
      var g := pktSeq % STRIDE;
      var group := groups[g];
      assert group.Valid() && group.members == View()[g];
      var start := if |group.members| == 0 then pktSeq else group.startSeq;
      var ms := group.members + [Packet(pktSeq, payload)];
      MaxLenGrows(group.members, Packet(pktSeq, payload));
      var maxLen := if |payload| > group.maxPayLen then |payload| else group.maxPayLen;
      if |ms| < K {
        ReplaceGroup(groups, g, EncGroup(ms, maxLen, start));
        groups := groups[g := EncGroup(ms, maxLen, start)];
        out := None;
      } else {
        var parity := FoldMembers(ms, maxLen + 2);
        ReplaceGroup(groups, g, EncGroup([], 0, start));
        groups := groups[g := EncGroup([], 0, start)];
        out := Some(ParityPacket(start, |ms|, parity));
      }
    }
  }
}
