/** Writing: numbering, retransmit buffer and parity, as one state. */
module RtpSending {
  import opened Bytes
  import opened Chunking
  import P = Parity
  import Fec = FecDecoding
  import Enc = FecEncoding
  import Retx = RetransmitSpec

  /** sent: the chunk payloads sent as data packets, in order; parities: the parity packets sent. */
  datatype Tx = Tx(seqNum: uint16, nextPkt: uint16, retx: Retx.Slots, groups: Enc.Groups, sent: seq<bytes>,
                   parities: seq<Enc.ParityPacket>)

  ghost function Fresh(): Tx {
    Tx(0, 0, seq(Retx.SLOTS, _ => None), [[], [], []], [], [])
  }

  /** One chunk: number, keep for retransmission, send; the encoder sees it only if sending succeeded. */
  ghost function SendChunk(tx: Tx, payload: bytes, ok: bool): Tx
    requires Enc.WellFormed(tx.groups)
  {
    var n := tx.nextPkt;
    var tx1 := tx.(nextPkt := (n + 1) % M16, retx := Retx.Store(tx.retx, n, payload), sent := tx.sent + [payload]);
    if !ok then tx1
    else
      var (groups, out) := Enc.AddPacket(tx.groups, Enc.Packet(n, payload));
      tx1.(groups := groups, parities := tx.parities + match out case None => [] case Some(p) => [p])
  }

  /** Chunks sent one after the other, none failing. */
  ghost function SendList(tx: Tx, cs: seq<bytes>): (r: Tx)
    requires Enc.WellFormed(tx.groups)
    ensures Enc.WellFormed(r.groups) && r.seqNum == tx.seqNum
  {
    if |cs| == 0 then tx else SendChunk(SendList(tx, cs[..|cs| - 1]), cs[|cs| - 1], true)
  }

  /** Sending stops at the chunk whose sending fails, if there is one. */
  ghost function SendUpTo(tx: Tx, cs: seq<bytes>, fail: Option<nat>): (r: Tx)
    requires Enc.WellFormed(tx.groups)
    ensures Enc.WellFormed(r.groups)
  {
    if fail.Some? && fail.value < |cs|
    then SendChunk(SendList(tx, cs[..fail.value]), cs[fail.value], false)
    else SendList(tx, cs)
  }

  ghost function Numbered(tx: Tx): Tx {
    tx.(seqNum := (tx.seqNum + 1) % M16)
  }

  /** A write takes the next write number and sends its chunks. */
  ghost function Write(tx: Tx, p: bytes, fail: Option<nat>): (r: Tx)
    requires Enc.WellFormed(tx.groups)
    ensures Enc.WellFormed(r.groups)
  {
    SendUpTo(Numbered(tx), ChunkList(tx.seqNum, p), fail)
  }

  ghost function WriteAll(writes: seq<bytes>): (r: Tx)
    ensures Enc.WellFormed(r.groups)
  {
    if |writes| == 0 then Fresh() else Write(WriteAll(writes[..|writes| - 1]), writes[|writes| - 1], None)
  }

  // ---------------------------------------------------------------- what goes on the wire

  /** The payload of each packet number. */
  ghost function PayOf(pkts: seq<bytes>): nat -> bytes {
    (i: nat) => if i < |pkts| then pkts[i] else []
  }

  /** q is the parity of the seven consecutive packets ms of one interleaved group, under the number of the first. */
  ghost predicate ChainParity(q: Enc.ParityPacket, ms: seq<nat>, pay: nat -> bytes) {
    && |ms| == P.K && Enc.Chain(ms, Enc.Class(ms[P.K - 1]), ms[P.K - 1] + 1)
    && q.first == ms[0] % M16 && q.count == P.K && q.parity == P.ParityOf(Enc.PayloadsAt(pay, ms))
  }

  ghost predicate IsChainParity(q: Enc.ParityPacket, last: nat, pay: nat -> bytes) {
    exists ms :: ChainParity(q, ms, pay) && ms[P.K - 1] == last
  }

  /** The packets among the first n that complete a group, in order. */
  ghost function Releases(n: nat): seq<nat> {
    if n == 0 then [] else Releases(n - 1) + if Enc.Completes(n - 1) then [n - 1] else []
  }

  ghost predicate Encodes(groups: Enc.Groups, n: nat, pay: nat -> bytes) {
    exists idx :: Enc.Tracks(groups, idx, n, pay)
  }

  /** One parity for each packet that completes a group, in order, each that of the last seven of the group. */
  ghost predicate ParitiesOf(parities: seq<Enc.ParityPacket>, n: nat, pay: nat -> bytes) {
    && |parities| == |Releases(n)|
    && forall k :: 0 <= k < |parities| ==> IsChainParity(parities[k], Releases(n)[k], pay)
  }

  /** After sending the first packets of pkts, none failing, whatever the number of wraps. */
  ghost predicate TxInv(tx: Tx, pkts: seq<bytes>, pay: nat -> bytes) {
    && |tx.sent| <= |pkts| && tx.sent == pkts[..|tx.sent|]
    && tx.nextPkt == |tx.sent| % M16
    && Retx.Recent(tx.retx, |tx.sent|, pay)
    && Encodes(tx.groups, |tx.sent|, pay)
    && ParitiesOf(tx.parities, |tx.sent|, pay)
  }

  ghost predicate PayIs(pay: nat -> bytes, pkts: seq<bytes>) {
    forall i :: 0 <= i < |pkts| ==> pay(i) == pkts[i]
  }

  lemma EncoderStep(groups: Enc.Groups, n: nat, pay: nat -> bytes)
    requires Encodes(groups, n, pay) && Enc.WellFormed(groups)
    ensures var r := Enc.AddPacket(groups, Enc.Packet(n % M16, pay(n)));
            && Encodes(r.0, n + 1, pay)
            && (r.1.Some? <==> Enc.Completes(n)) && (r.1.Some? ==> IsChainParity(r.1.value, n, pay))
  {
    var idx :| Enc.Tracks(groups, idx, n, pay);
    var idx', ms := Enc.AddPacketTracks(groups, idx, n, pay);
    var r := Enc.AddPacket(groups, Enc.Packet(n % M16, pay(n)));
    assert Enc.Tracks(r.0, idx', n + 1, pay);
    if r.1.Some? { assert ChainParity(r.1.value, ms, pay); }
  }

  lemma ParitiesMore(parities: seq<Enc.ParityPacket>, n: nat, out: Option<Enc.ParityPacket>, pay: nat -> bytes)
    requires ParitiesOf(parities, n, pay) && (out.Some? <==> Enc.Completes(n))
    requires out.Some? ==> IsChainParity(out.value, n, pay)
    ensures ParitiesOf(parities + match out case None => [] case Some(q) => [q], n + 1, pay)
  {
    assert out.None? ==> parities + [] == parities;
  }

  /** The parts of the state that the next packet changes, apart from the encoder. */
  lemma SentMore(tx: Tx, pkts: seq<bytes>, pay: nat -> bytes)
    requires TxInv(tx, pkts, pay) && PayIs(pay, pkts) && |tx.sent| < |pkts|
    ensures var n := |tx.sent|;
            && pay(n) == pkts[n] && tx.sent + [pkts[n]] == pkts[..n + 1]
            && (tx.nextPkt + 1) % M16 == (n + 1) % M16
            && Retx.Recent(Retx.Store(tx.retx, tx.nextPkt, pkts[n]), n + 1, pay)
  {
    var n := |tx.sent|;
    assert pkts[..n + 1] == pkts[..n] + [pkts[n]];
    Retx.StoreKeepsRecent(tx.retx, n, pay);
    NumberStep(n);
  }

  /** The encoder and the parities after the next packet. */
  lemma EncodedMore(tx: Tx, pkts: seq<bytes>, pay: nat -> bytes, r: (Enc.Groups, Option<Enc.ParityPacket>))
    requires TxInv(tx, pkts, pay) && PayIs(pay, pkts) && |tx.sent| < |pkts| && Enc.WellFormed(tx.groups)
    requires r == Enc.AddPacket(tx.groups, Enc.Packet(tx.nextPkt, pkts[|tx.sent|]))
    ensures Encodes(r.0, |tx.sent| + 1, pay)
    ensures ParitiesOf(tx.parities + match r.1 case None => [] case Some(q) => [q], |tx.sent| + 1, pay)
  {
    EncoderStep(tx.groups, |tx.sent|, pay);
    ParitiesMore(tx.parities, |tx.sent|, r.1, pay);
  }

  lemma SendChunkParts(tx: Tx, c: bytes, r: (Enc.Groups, Option<Enc.ParityPacket>))
    requires Enc.WellFormed(tx.groups) && r == Enc.AddPacket(tx.groups, Enc.Packet(tx.nextPkt, c))
    ensures SendChunk(tx, c, true) ==
              Tx(tx.seqNum, (tx.nextPkt + 1) % M16, Retx.Store(tx.retx, tx.nextPkt, c), r.0, tx.sent + [c],
                 tx.parities + match r.1 case None => [] case Some(q) => [q])
  {
  }

  lemma SendChunkInv(tx: Tx, c: bytes, pkts: seq<bytes>, pay: nat -> bytes)
    requires TxInv(tx, pkts, pay) && PayIs(pay, pkts) && Enc.WellFormed(tx.groups)
    requires |tx.sent| < |pkts| && c == pkts[|tx.sent|]
    ensures var r := SendChunk(tx, c, true);
            TxInv(r, pkts, pay) && |r.sent| == |tx.sent| + 1 && Enc.WellFormed(r.groups)
  {
    var r := Enc.AddPacket(tx.groups, Enc.Packet(tx.nextPkt, c));
    SentMore(tx, pkts, pay);
    EncodedMore(tx, pkts, pay, r);
    SendChunkParts(tx, c, r);
  }

  lemma NumberStep(n: nat)
    ensures (n % M16 + 1) % M16 == (n + 1) % M16
  {
  }

  /** The packets from off on are the chunks cs. */
  ghost predicate ListAt(pkts: seq<bytes>, off: nat, cs: seq<bytes>) {
    off + |cs| <= |pkts| && forall j :: 0 <= j < |cs| ==> cs[j] == pkts[off + j]
  }

  lemma {:induction false} SendListInv(tx: Tx, cs: seq<bytes>, pkts: seq<bytes>, pay: nat -> bytes)
    requires TxInv(tx, pkts, pay) && PayIs(pay, pkts) && Enc.WellFormed(tx.groups)
    requires ListAt(pkts, |tx.sent|, cs)
    ensures TxInv(SendList(tx, cs), pkts, pay) && |SendList(tx, cs).sent| == |tx.sent| + |cs|
  {
    if |cs| > 0 {
      var n := |cs| - 1;
      SendListInv(tx, cs[..n], pkts, pay);
      SendChunkInv(SendList(tx, cs[..n]), cs[n], pkts, pay);
    }
  }

  lemma ListAtBase(writes: seq<bytes>, m: nat)
    requires m < |writes|
    ensures ListAt(Packets(writes), Base(writes, m), ChunkList(m, writes[m]))
    ensures Base(writes, m + 1) == Base(writes, m) + Chunks(writes[m])
  {
    BaseMonotone(writes, m, |writes|);
    var cs := ChunkList(m, writes[m]);
    forall j | 0 <= j < |cs| ensures cs[j] == Packets(writes)[Base(writes, m) + j] {
      PacketAt(writes, |writes|, m, j);
    }
  }

  lemma WriteAllStep(writes: seq<bytes>, l: nat)
    requires l < |writes|
    ensures WriteAll(writes[..l + 1]) == Write(WriteAll(writes[..l]), writes[l], None)
  {
    assert writes[..l + 1][..l] == writes[..l];
  }

  /** What is known after m writes of base packets in all. */
  ghost predicate After(tx: Tx, m: nat, base: nat, pkts: seq<bytes>, pay: nat -> bytes) {
    TxInv(tx, pkts, pay) && |tx.sent| == base && tx.seqNum == m % M16
  }

  /** Only the low 16 bits of the write number go into a chunk. */
  lemma NumberInChunk(m: nat, p: bytes)
    ensures ChunkList(m % M16, p) == ChunkList(m, p)
  {
    assert (m % M16) % M16 == m % M16;
    forall i | 0 <= i < Chunks(p) ensures ChunkPayload(m % M16, p, i) == ChunkPayload(m, p, i) {}
  }

  lemma WriteUnfolds(tx: Tx, p: bytes, m: nat)
    requires tx.seqNum == m % M16 && Enc.WellFormed(tx.groups)
    ensures Write(tx, p, None) == SendUpTo(Numbered(tx), ChunkList(m, p), None)
  {
    NumberInChunk(m, p);
  }

  lemma NextWrite(tx: Tx, p: bytes, m: nat, base: nat, pkts: seq<bytes>, pay: nat -> bytes)
    requires After(tx, m, base, pkts, pay) && PayIs(pay, pkts) && Enc.WellFormed(tx.groups)
    requires ListAt(pkts, base, ChunkList(m, p))
    ensures After(Write(tx, p, None), m + 1, base + Chunks(p), pkts, pay)
  {
    WriteUnfolds(tx, p, m);
    ListSent(tx, ChunkList(m, p), pkts, pay);
    NumberStep(m);
  }

  lemma {:induction false} WritesInv(writes: seq<bytes>, m: nat, pkts: seq<bytes>, pay: nat -> bytes)
    requires m <= |writes| && pkts == Packets(writes) && PayIs(pay, pkts)
    ensures After(WriteAll(writes[..m]), m, Base(writes, m), pkts, pay)
  {
    if m == 0 {
      FreshInv(pkts, pay);
    } else {
      var l := m - 1;
      WritesInv(writes, l, pkts, pay);
      WriteAllStep(writes, l);
      ListAtBase(writes, l);
      NextWrite(WriteAll(writes[..l]), writes[l], l, Base(writes, l), pkts, pay);
    }
  }

  lemma NumberUnused(tx: Tx, pkts: seq<bytes>, pay: nat -> bytes)
    requires TxInv(tx, pkts, pay)
    ensures TxInv(Numbered(tx), pkts, pay)
  {
  }

  lemma ListSent(tx: Tx, cs: seq<bytes>, pkts: seq<bytes>, pay: nat -> bytes)
    requires TxInv(tx, pkts, pay) && PayIs(pay, pkts) && Enc.WellFormed(tx.groups)
    requires ListAt(pkts, |tx.sent|, cs)
    ensures var r := SendUpTo(Numbered(tx), cs, None);
            TxInv(r, pkts, pay) && |r.sent| == |tx.sent| + |cs| && r.seqNum == (tx.seqNum + 1) % M16
  {
    NumberUnused(tx, pkts, pay);
    SendListInv(Numbered(tx), cs, pkts, pay);
  }

  lemma FreshInv(pkts: seq<bytes>, pay: nat -> bytes)
    ensures TxInv(Fresh(), pkts, pay)
  {
    assert Enc.Tracks([[], [], []], [[], [], []], 0, pay);
  }

  /** All the writes made. */
  lemma AllWritten(writes: seq<bytes>)
    ensures TxInv(WriteAll(writes), Packets(writes), PayOf(Packets(writes)))
    ensures |WriteAll(writes).sent| == |Packets(writes)|
  {
    WritesInv(writes, |writes|, Packets(writes), PayOf(Packets(writes)));
    assert writes[..|writes|] == writes;
  }

  /** Whatever is written, none failing: on the wire go exactly the packets of the model, in order. */
  lemma WriteAllSends(writes: seq<bytes>)
    ensures WriteAll(writes).sent == Packets(writes)
  {
    AllWritten(writes);
    assert Packets(writes)[..|Packets(writes)|] == Packets(writes);
  }

  lemma {:induction false} ListNumbers(tx: Tx, cs: seq<bytes>)
    requires Enc.WellFormed(tx.groups)
    ensures SendList(tx, cs).sent == tx.sent + cs && SendList(tx, cs).nextPkt == (tx.nextPkt + |cs|) % M16
  {
    if |cs| > 0 {
      var n := |cs| - 1;
      ListNumbers(tx, cs[..n]);
      NumberStep(tx.nextPkt + n);
      assert cs == cs[..n] + [cs[n]];
      OneNumber(SendList(tx, cs[..n]), cs[n], true);
    }
  }

  lemma OneNumber(tx: Tx, c: bytes, ok: bool)
    requires Enc.WellFormed(tx.groups)
    ensures SendChunk(tx, c, ok).sent == tx.sent + [c] && SendChunk(tx, c, ok).nextPkt == (tx.nextPkt + 1) % M16
  {
  }

  /**
   * A write whose chunk j cannot be sent: the chunks up to and with that one have taken numbers and are kept for
   * retransmission, later ones have not; but the encoder has seen only those before it.
   */
  lemma FailedWrite(tx: Tx, p: bytes, j: nat)
    requires Enc.WellFormed(tx.groups) && j < Chunks(p)
    ensures var cs := ChunkList(tx.seqNum, p); var r := Write(tx, p, Some(j)); var q := SendList(Numbered(tx), cs[..j]);
            && r.seqNum == (tx.seqNum + 1) % M16 && r.sent == tx.sent + cs[..j + 1]
            && r.nextPkt == (tx.nextPkt + j + 1) % M16
            && Retx.Get(r.retx, (tx.nextPkt + j) % M16) == Some(cs[j])
            && r.groups == q.groups && r.parities == q.parities
  {
    var cs := ChunkList(tx.seqNum, p);
    var q := SendList(Numbered(tx), cs[..j]);
    ListNumbers(Numbered(tx), cs[..j]);
    NumberStep(tx.nextPkt + j);
    assert cs[..j + 1] == cs[..j] + [cs[j]];
    assert Write(tx, p, Some(j)) == SendChunk(q, cs[j], false);
    NotEncoded(q, cs[j]);
  }

  /** A packet that cannot be sent is numbered and kept, and that is all. */
  lemma NotEncoded(q: Tx, c: bytes)
    requires Enc.WellFormed(q.groups) && c != []
    ensures SendChunk(q, c, false) ==
              q.(nextPkt := (q.nextPkt + 1) % M16, retx := Retx.Store(q.retx, q.nextPkt, c), sent := q.sent + [c])
    ensures Retx.Get(SendChunk(q, c, false).retx, q.nextPkt) == Some(c)
  {
  }

  /** Under any number of wraps: a number is answered exactly when one of the last 512 packets carries it, and
      then with that packet. */
  lemma RetransmissionFaithful(writes: seq<bytes>, n: uint16)
    ensures var r := Retx.Get(WriteAll(writes).retx, n); var pkts := Packets(writes);
            && (r.Some? <==> exists j: nat :: Retx.Carries(|pkts|, j, n))
            && forall j: nat :: Retx.Carries(|pkts|, j, n) ==> r == Some(pkts[j])
  {
    AllWritten(writes);
    PacketsFilled(writes, |writes|);
    Answers(WriteAll(writes).retx, Packets(writes), PayOf(Packets(writes)), n);
  }

  lemma {:induction false} PacketsFilled(writes: seq<bytes>, m: nat)
    requires m <= |writes|
    ensures forall i :: 0 <= i < |PacketsUpTo(writes, m)| ==> PacketsUpTo(writes, m)[i] != []
  {
    if m > 0 { PacketsFilled(writes, m - 1); }
  }

  lemma Answers(retx: Retx.Slots, pkts: seq<bytes>, pay: nat -> bytes, n: uint16)
    requires Retx.Recent(retx, |pkts|, pay) && PayIs(pay, pkts)
    requires forall i :: 0 <= i < |pkts| ==> pkts[i] != []
    ensures Retx.Get(retx, n).Some? <==> exists j: nat :: Retx.Carries(|pkts|, j, n)
    ensures forall j: nat :: Retx.Carries(|pkts|, j, n) ==> Retx.Get(retx, n) == Some(pkts[j])
  {
    if Retx.Get(retx, n).Some? {
      var j := Retx.GetFindsOnlyRecent(retx, |pkts|, pay, n);
      assert Retx.Carries(|pkts|, j, n);
    }
    forall j: nat | Retx.Carries(|pkts|, j, n) ensures Retx.Get(retx, n) == Some(pkts[j]) {
      Retx.GetFindsRecent(retx, |pkts|, pay, j);
    }
  }

  /** Exactly the packets that complete a group, each once. */
  lemma {:induction false} ReleasesExact(n: nat)
    ensures forall e :: e in Releases(n) <==> 0 <= e < n && Enc.Completes(e)
    ensures forall j, k :: 0 <= j < k < |Releases(n)| ==> Releases(n)[j] < Releases(n)[k]
  {
    if n > 0 {
      ReleasesExact(n - 1);
      var before := Releases(n - 1);
      forall j | 0 <= j < |before| ensures before[j] < n - 1 { assert before[j] in before; }
    }
  }

  /** Under any number of wraps, what goes on the wire besides the packets is one parity for each packet that completes
      a group, in order: the parity of the last seven packets of that group. */
  lemma ParitiesAreChains(writes: seq<bytes>)
    ensures ParitiesOf(WriteAll(writes).parities, |Packets(writes)|, PayOf(Packets(writes)))
  {
    AllWritten(writes);
  }

  /** A completed chain below 2^16 is a group of the model. */
  lemma ChainIsGroup(ms: seq<nat>, g: nat, n: nat, pkts: seq<bytes>, pay: nat -> bytes)
    requires Enc.Chain(ms, g, n) && |ms| == P.K && n <= |pkts| <= M16 && PayIs(pay, pkts)
    ensures Fec.Grouped(pkts, ms[0]) && ms[P.K - 1] == ms[0] + 18
    ensures Enc.PayloadsAt(pay, ms) == Fec.Group(pkts, ms[0], P.K)
    ensures ms[0] % M16 == ms[0]
  {
    forall i | 0 <= i < P.K ensures ms[i] == ms[0] + P.STRIDE * i { Enc.ChainWithinTurn(ms, g, n, i); }
  }

  /** The first packets of the groups completed by the first n packets, up to the wrap. */
  ghost function Starts(n: nat): (fs: seq<nat>)
    requires n <= M16
    ensures |fs| == |Releases(n)| && forall k :: 0 <= k < |fs| ==> fs[k] + 18 == Releases(n)[k]
  {
    ReleasesLate(n);
    seq(|Releases(n)|, k requires 0 <= k < |Releases(n)| => Releases(n)[k] - 18)
  }

  lemma ReleasesLate(n: nat)
    requires n <= M16
    ensures forall k :: 0 <= k < |Releases(n)| ==> Releases(n)[k] >= 18
  {
    ReleasesExact(n);
    forall k | 0 <= k < |Releases(n)| ensures Releases(n)[k] >= 18 {
      assert Releases(n)[k] in Releases(n);
      Enc.CompletesWithinTurn(Releases(n)[k]);
    }
  }

  /** They are the first three of every twenty-one packets, as long as all seven of the group have been sent. */
  lemma StartsExact(n: nat)
    requires n <= M16
    ensures forall f :: f in Starts(n) <==> 0 <= f && f % 21 < 3 && f + 18 < n
    ensures forall j, k :: 0 <= j < k < |Starts(n)| ==> Starts(n)[j] < Starts(n)[k]
  {
    ReleasesExact(n);
    forall f ensures f in Starts(n) <==> 0 <= f && f % 21 < 3 && f + 18 < n {
      if f in Starts(n) { StartReleased(n, f); }
      if 0 <= f && f % 21 < 3 && f + 18 < n { ReleasedStart(n, f); }
    }
  }

  lemma StartReleased(n: nat, f: nat)
    requires n <= M16 && f in Starts(n)
    ensures f % 21 < 3 && f + 18 < n
  {
    ReleasesExact(n);
    var k :| 0 <= k < |Starts(n)| && Starts(n)[k] == f;
    var e := Releases(n)[k];
    assert e in Releases(n) && e == f + 18;
    StartOf(e, f);
  }

  lemma StartOf(e: nat, f: nat)
    requires e < M16 && Enc.Completes(e) && e == f + 18
    ensures f % 21 < 3
  {
    Enc.CompletesWithinTurn(e);
  }

  lemma ReleasedStart(n: nat, f: nat)
    requires n <= M16 && f % 21 < 3 && f + 18 < n
    ensures f in Starts(n)
  {
    ReleasesExact(n);
    Enc.CompletesWithinTurn(f + 18);
    assert f + 18 in Releases(n);
    var k :| 0 <= k < |Releases(n)| && Releases(n)[k] == f + 18;
    assert Starts(n)[k] == f;
  }

  /** Up to the wrap the parities put on the wire are exactly those of the groups that begin at the first three of every
      twenty-one packets and are complete, in order: parities that the receiver's runs admit. */
  lemma ParitiesAreGroups(writes: seq<bytes>, k: nat)
    requires |Packets(writes)| <= M16
    ensures |WriteAll(writes).parities| == |Starts(|Packets(writes)|)|
    ensures k < |WriteAll(writes).parities| ==>
              var pkts := Packets(writes); var f := Starts(|pkts|)[k];
              && Fec.Grouped(pkts, f)
              && WriteAll(writes).parities[k] == Enc.ParityPacket(f, P.K, P.ParityOf(Fec.Group(pkts, f, P.K)))
  {
    ParitiesAreChains(writes);
    if k < |WriteAll(writes).parities| { GroupAt(WriteAll(writes).parities[k], Packets(writes), k); }
  }

  lemma GroupAt(q: Enc.ParityPacket, pkts: seq<bytes>, k: nat)
    requires |pkts| <= M16 && k < |Releases(|pkts|)| && IsChainParity(q, Releases(|pkts|)[k], PayOf(pkts))
    ensures var f := Starts(|pkts|)[k];
            Fec.Grouped(pkts, f) && q == Enc.ParityPacket(f, P.K, P.ParityOf(Fec.Group(pkts, f, P.K)))
  {
    var e, pay := Releases(|pkts|)[k], PayOf(pkts);
    ReleasesExact(|pkts|);
    assert e in Releases(|pkts|);
    var ms :| ChainParity(q, ms, pay) && ms[P.K - 1] == e;
    ChainIsGroup(ms, Enc.Class(e), e + 1, pkts, pay);
  }

  // ---------------------------------------------------------------- bursts

  /** The group of packet l has been sent whole. */
  ghost predicate InWholeGroup(l: nat, n: nat) {
    21 * (l / 21) + l % 3 + 18 < n
  }

  lemma GroupOf(l: nat, n: nat) returns (f: nat, i: nat)
    requires InWholeGroup(l, n)
    ensures f % 21 < 3 && f + 18 < n && i < P.K && l == f + P.STRIDE * i
  {
    var b, r, g := Enc.SplitBlock(l);
    Enc.BlockPosition(b, r, g, l);
    assert l / 21 == b;
    f, i := 21 * b + g, r;
  }

  lemma GroupsHeld(pool: Fec.Pool, pkts: seq<bytes>, fs: seq<nat>, lost: set<nat>)
    requires forall k :: 0 <= k < |fs| ==> fs[k] + 18 < |pkts|
    requires forall n :: 0 <= n < |pkts| && n !in lost ==> n in pool
    ensures Fec.AllGrouped(pkts, fs) && Fec.AllOthersHeld(pool, fs, lost)
  {
    forall k | 0 <= k < |fs| ensures Fec.OthersHeld(pool, fs[k], lost) {
      forall i | 0 <= i < P.K && (fs[k] + P.STRIDE * i) !in lost ensures (fs[k] + P.STRIDE * i) in pool {
        assert fs[k] + P.STRIDE * i < |pkts|;
      }
    }
  }

  /**
   * Burst resilience, end to end up to the wrap: of whatever was written, let all packets arrive but some within three
   * consecutive ones, and then the parities that were sent; every packet of a group sent whole is then in the pool, as
   * sent.
   */
  lemma BurstRecovered(writes: seq<bytes>, pool: Fec.Pool, lost: set<nat>, s: nat)
    requires |Packets(writes)| <= M16 && Fec.Faithful(pool, Packets(writes)) && Fec.Burst(lost, s)
    requires forall n :: 0 <= n < |Packets(writes)| && n !in lost ==> n in pool
    ensures var pkts := Packets(writes); var fs := Starts(|pkts|);
            && Fec.Sendable(pkts) && Fec.AllGrouped(pkts, fs)
            && forall l :: 0 <= l && InWholeGroup(l, |pkts|) ==>
                 var q := Fec.Heal(pool, pkts, fs); l in q && l < |pkts| && q[l] == pkts[l]
  {
    var pkts := Packets(writes);
    var fs := Starts(|pkts|);
    PacketsShort(writes, |writes|);
    StartsExact(|pkts|);
    forall k | 0 <= k < |fs| ensures fs[k] + 18 < |pkts| { assert fs[k] in fs; }
    GroupsHeld(pool, pkts, fs, lost);
    Fec.BurstHealed(pool, pkts, fs, lost, s);
    var q := Fec.Heal(pool, pkts, fs);
    forall l | 0 <= l && InWholeGroup(l, |pkts|) ensures l in q && l < |pkts| && q[l] == pkts[l] {
      InCompletePool(q, pkts, fs, l);
    }
  }

  lemma InCompletePool(q: Fec.Pool, pkts: seq<bytes>, fs: seq<nat>, l: nat)
    requires Fec.AllComplete(q, fs) && Fec.Faithful(q, pkts) && InWholeGroup(l, |pkts|)
    requires forall f: nat :: f % 21 < 3 && f + 18 < |pkts| ==> f in fs
    ensures l in q && l < |pkts| && q[l] == pkts[l]
  {
    var f, i := GroupOf(l, |pkts|);
    assert f in fs;
    var k :| 0 <= k < |fs| && fs[k] == f;
    assert Fec.Complete(q, fs[k]);
  }
}

/** Reassembly as the program keeps it. */
module Reassemblers {
  import opened Bytes
  import opened ReassemblySpec

  method Join(chunks: seq<Option<bytes>>) returns (m: bytes)
    ensures m == Assembled(chunks)
  {
    m := [];
    for i := 0 to |chunks|
      invariant m == Assembled(chunks[..i])
    {
      assert chunks[..i + 1][..i] == chunks[..i];
      match chunks[i]
      case Some(c) => m := m + c;
      case None =>
    }
    assert chunks[..|chunks|] == chunks;
  }

  class Reassembler {
    var bufs: map<uint16, Buf>
    var next: uint16
    var out: seq<bytes>

    ghost function View(): Reassembly
      reads this
    {
      Reassembly(bufs, next, out)
    }

    constructor (start: uint16)
      ensures View() == Reassembly(map[], start, [])
    {
      bufs, next, out := map[], start, [];
    }

    method DeliverReady()
      modifies this
      ensures View() == Deliver(old(View()))
    {
      while next in bufs && bufs[next].got >= |bufs[next].chunks|
        invariant Deliver(View()) == Deliver(old(View()))
        decreases |bufs|
      {
        ghost var before := View();
        var assembled := Join(bufs[next].chunks);
        bufs, next := bufs - {next}, (next + 1) % M16;
        if |assembled| > 0 { out := out + [assembled]; }
        assert View() == DeliverOne(before);
      }
    }

    method Accept(raw: bytes)
      requires InBounds(View(), raw)
      modifies this
      ensures View() == ReassemblySpec.Accept(old(View()), raw)
    {
      if |raw| < 4 { return; }
      var w, idx, total, data := U16(raw[..2]), raw[2], raw[3], raw[4..];
      if total < 1 || idx >= total { return; }
      assert Parse(raw) == Some(Chunk(w, idx, total, data));
      var buf := if w in bufs then bufs[w] else Buf(Blank(total), 0);
      if buf.chunks[idx].None? { buf := Buf(buf.chunks[idx := Some(data)], buf.got + 1); }
      bufs := bufs[w := buf];
      assert View() == Stored(old(View()), Chunk(w, idx, total, data));
      DeliverReady();
    }
  }
}

/** The receiving side of the connection. */
module RtpReceivers {
  import opened Bytes
  import opened FecDecoders
  import opened NackTrackers
  import opened Reassemblers
  import Re = ReassemblySpec
  import R = RtpReceiving

  class RtpReceiver {
    const decoder: FecDecoder
    const tracker: NackTracker
    const reassembler: Reassembler
    var queue: seq<bytes>

    ghost function View(): R.Receiver
      reads this, decoder, tracker, reassembler
    {
      R.Receiver(decoder.pool, tracker.View(), queue, reassembler.View())
    }

    constructor (start: uint16)
      ensures fresh(decoder) && fresh(tracker) && fresh(reassembler)
      ensures View() == R.Receiver(map[], R.Nack.EMPTY, [], Re.Reassembly(map[], start, []))
    {
      decoder := new FecDecoder();
      tracker := new NackTracker();
      reassembler := new Reassembler(start);
      queue := [];
    }

    method HandleData(raw: bytes, now: int)
      modifies this, decoder, tracker
      ensures View() == R.HandleData(old(View()), raw, now)
    {
      if |raw| < 3 { return; }
      var pktSeq, payload := U16(raw[1..3]), raw[3..];
      decoder.AddData(pktSeq, payload);
      tracker.Record(pktSeq, now);
      if pktSeq % 64 == 0 {
        decoder.Prune(reassembler.next);
        tracker.Prune(reassembler.next);
      }
      queue := queue + [payload];
    }

    method HandleFec(raw: bytes)
      modifies this, decoder, tracker
      ensures View() == R.HandleFec(old(View()), raw)
    {
      if |raw| < 5 { return; }
      var recovered := decoder.Recover(U16(raw[1..3]), raw[3], raw[4], raw[5..]);
      match recovered
      case None =>
      case Some((pktSeq, payload)) =>
        tracker.Resolve(pktSeq);
        decoder.AddData(pktSeq, payload);
        queue := queue + [payload];
    }

    method Handle(raw: bytes, now: int)
      modifies this, decoder, tracker
      ensures View() == R.Handle(old(View()), raw, now)
    {
      if |raw| < 1 { return; }
      if raw[0] == R.DATA || raw[0] == R.RETX { HandleData(raw, now); } else if raw[0] == R.FEC { HandleFec(raw); }
    }

    method TakeChunk()
      requires queue != [] && Re.InBounds(reassembler.View(), queue[0])
      modifies this, reassembler
      ensures View() == R.Reassemble(old(View()))
    {
      reassembler.Accept(queue[0]);
      queue := queue[1..];
    }
  }
}

/** The sending side of the connection. */
module RtpSenders {
  import opened Bytes
  import opened Chunking
  import opened FecEncoders
  import opened RetransmitBuffers
  import Enc = FecEncoding
  import S = RtpSending

  class RtpSender {
    var seqNum: uint16
    var nextPktSeq: uint16
    const retx: RetransmitBuffer
    const encoder: FecEncoder
    var sent: seq<bytes>
    var parities: seq<Enc.ParityPacket>

    ghost predicate Valid()
      reads this, retx.buf, encoder
    {
      retx.Valid() && encoder.Valid()
    }

    ghost function View(): S.Tx
      requires Valid()
      reads this, retx.buf, encoder
    {
      S.Tx(seqNum, nextPktSeq, retx.View(), encoder.View(), sent, parities)
    }

    constructor ()
      ensures Valid() && fresh(retx) && fresh(retx.buf) && fresh(encoder) && View() == S.Fresh()
    {
      seqNum, nextPktSeq, sent, parities := 0, 0, [], [];
      retx := new RetransmitBuffer();
      encoder := new FecEncoder();
    }

    method SendChunk(payload: bytes, ok: bool)
      requires Valid()
      modifies this, retx.buf, encoder
      ensures Valid() && View() == S.SendChunk(old(View()), payload, ok)
    {
      var pktSeq := nextPktSeq;
      nextPktSeq := (nextPktSeq + 1) % M16;
      retx.Store(pktSeq, payload);
      sent := sent + [payload];
      if ok {
        var out := encoder.AddPacket(pktSeq, payload);
        match out
        case None =>
        case Some(p) => parities := parities + [p];
      }
    }

    method SendList(cs: seq<bytes>)
      requires Valid()
      modifies this, retx.buf, encoder
      ensures Valid() && View() == S.SendList(old(View()), cs)
    {
      for i := 0 to |cs|
        invariant Valid() && View() == S.SendList(old(View()), cs[..i])
      {
        assert cs[..i + 1][..i] == cs[..i];
        SendChunk(cs[i], true);
      }
      assert cs[..|cs|] == cs;
    }

    method SendUpTo(cs: seq<bytes>, fail: Option<nat>)
      requires Valid()
      modifies this, retx.buf, encoder
      ensures Valid() && View() == S.SendUpTo(old(View()), cs, fail)
    {
      if fail.Some? && fail.value < |cs| {
        SendList(cs[..fail.value]);
        SendChunk(cs[fail.value], false);
      } else {
        SendList(cs);
      }
    }

    /** fail: the chunk whose sending fails, if there is one; n: bytes reported written. */
    method Write(p: bytes, fail: Option<nat>) returns (n: nat, ok: bool)
      requires Valid()
      modifies this, retx.buf, encoder
      ensures Valid() && View() == S.Write(old(View()), p, fail)
      ensures ok <==> !(fail.Some? && fail.value < Chunks(p))
      ensures n == if ok then |p| else fail.value * CHUNK
    {
      var cs := ChunkList(seqNum, p);
      seqNum := (seqNum + 1) % M16;
      SendUpTo(cs, fail);
      ok := !(fail.Some? && fail.value < |cs|);
      n := if ok then |p| else fail.value * CHUNK;
    }
  }
}
