/** The receiving side of the reliability layer: packet handlers, queue and reassembly. */
module RtpReceiving {
  import opened Bytes
  import Fec = FecDecoding
  import Nack = NackSpec
  import Re = ReassemblySpec

  const DATA: byte := 1
  const FEC: byte := 2
  const RETX: byte := 4

  /** queue: chunks handed from the packet handlers to reassembly, oldest first. */
  datatype Receiver = Receiver(pool: Fec.Pool, tracker: Nack.Tracker, queue: seq<bytes>, reasm: Re.Reassembly)

  /** Pool, gap tracker and queue take the packet. */
  ghost function Recorded(rx: Receiver, n: uint16, payload: bytes, now: int): Receiver {
    rx.(pool := rx.pool[n := payload],
        tracker := Nack.Record(rx.tracker, n, now),
        queue := rx.queue + [payload])
  }

  /** Pool and tracker are pruned with the cursor of reassembly, which counts writes, not packets. */
  ghost function Pruned(rx: Receiver): Receiver {
    rx.(pool := Fec.Prune(rx.pool, rx.reasm.next), tracker := Nack.Prune(rx.tracker, rx.reasm.next))
  }

  ghost function HandleData(rx: Receiver, raw: bytes, now: int): Receiver {
    if |raw| < 3 then rx
    else
      var n := U16(raw[1..3]);
      var rx1 := Recorded(rx, n, raw[3..], now);
      if n % 64 == 0 then Pruned(rx1) else rx1
  }

  ghost function HandleFec(rx: Receiver, raw: bytes): Receiver {
    if |raw| < 5 then rx
    else
      match Fec.Recover(rx.pool, U16(raw[1..3]), raw[3], raw[4], raw[5..])
      case None => rx
      case Some((n, payload)) =>
        rx.(pool := rx.pool[n := payload], tracker := Nack.Resolve(rx.tracker, n), queue := rx.queue + [payload])
  }

  ghost function Handle(rx: Receiver, raw: bytes, now: int): Receiver {
    if |raw| < 1 then rx
    else if raw[0] == DATA || raw[0] == RETX then HandleData(rx, raw, now)
    else if raw[0] == FEC then HandleFec(rx, raw)
    else rx
  }

  ghost function Reassemble(rx: Receiver): Receiver
    requires rx.queue != [] && Re.InBounds(rx.reasm, rx.queue[0])
  {
    rx.(queue := rx.queue[1..], reasm := Re.Accept(rx.reasm, rx.queue[0]))
  }

  /** What the sender puts on the wire. */
  function DataPacket(kind: byte, n: uint16, payload: bytes): bytes {
    [kind] + PutU16(n) + payload
  }

  function FecPacket(first: uint16, stride: byte, count: byte, parity: bytes): bytes {
    [FEC] + PutU16(first) + [stride, count] + parity
  }

  lemma ParseData(kind: byte, n: uint16, payload: bytes)
    ensures var raw := DataPacket(kind, n, payload);
            |raw| >= 3 && raw[0] == kind && U16(raw[1..3]) == n && raw[3..] == payload
  {
    var raw := DataPacket(kind, n, payload);
    assert raw[1..3] == PutU16(n);
    U16RoundTrip(n);
  }

  lemma ParseFec(first: uint16, stride: byte, count: byte, parity: bytes)
    ensures var raw := FecPacket(first, stride, count, parity);
            && |raw| >= 5 && raw[0] == FEC && U16(raw[1..3]) == first
            && raw[3] == stride && raw[4] == count && raw[5..] == parity
  {
    var raw := FecPacket(first, stride, count, parity);
    assert raw[1..3] == PutU16(first);
    U16RoundTrip(first);
  }

  lemma HandleFecEffect(rx: Receiver, first: uint16, stride: byte, count: byte, parity: bytes, now: int)
    ensures Handle(rx, FecPacket(first, stride, count, parity), now) ==
              match Fec.Recover(rx.pool, first, stride, count, parity)
              case None => rx
              case Some((n, payload)) =>
                rx.(pool := rx.pool[n := payload], tracker := Nack.Resolve(rx.tracker, n), queue := rx.queue + [payload])
  {
    ParseFec(first, stride, count, parity);
  }
}

/** Runs of the reliability layer against a fixed list of writes. */
module RtpSystem {
  import opened Bytes
  import opened Chunking
  import opened RtpReceiving
  import P = Parity
  import Fec = FecDecoding
  import Nack = NackSpec
  import Re = ReassemblySpec
  import Rx = ReassemblyExactness

  /** What was sent: the writes, their packets, and the write from which the receiver starts. */
  datatype Sender = Sender(writes: seq<bytes>, pkts: seq<bytes>, start: nat) {
    ghost predicate Valid() {
      && Sent(writes) && Rx.Parses(pkts, writes) && Fec.Sendable(pkts)
      && start <= |writes|
    }
  }

  /** seen: packets recorded or recovered; first and high: the first and the highest recorded;
      queued: the packets in the queue; arrived: the packets that reassembly has taken. */
  datatype State = State(rx: Receiver, seen: set<nat>, first: nat, high: nat, queued: seq<nat>, arrived: set<nat>)

  datatype Step =
    | PacketArrives(n: nat, again: bool, now: int)
    | ParityArrives(f: nat, at: int)
    | ChunkTaken

  ghost function Start(tx: Sender): State
    requires tx.Valid()
  {
    Rx.SentFits(tx.writes);
    State(Receiver(map[], Nack.EMPTY, [], Re.Reassembly(map[], tx.start, [])), {}, 0, 0, [], {})
  }

  /** Any packet or parity may arrive at any time, again or never. */
  ghost predicate Enabled(tx: Sender, s: State, step: Step)
    requires tx.Valid()
  {
    match step
    case PacketArrives(n, _, _) => n < |tx.pkts|
    case ParityArrives(f, _) => Fec.Grouped(tx.pkts, f)
    case ChunkTaken => s.rx.queue != []
  }

  ghost function Apply(tx: Sender, s: State, step: Step): State
    requires tx.Valid() && Enabled(tx, s, step)
  {
    match step
    case PacketArrives(n, again, now) =>
      State(Handle(s.rx, DataPacket(if again then RETX else DATA, n, tx.pkts[n]), now),
            s.seen + {n}, if s.seen == {} then n else s.first,
            if s.seen == {} || n > s.high then n else s.high, s.queued + [n], s.arrived)
    case ParityArrives(f, at) =>
      var rx := Handle(s.rx, FecPacket(f, 3, 7, P.ParityOf(Fec.Group(tx.pkts, f, P.K))), at);
      var lost := Fec.Recover(s.rx.pool, f, 3, P.K, P.ParityOf(Fec.Group(tx.pkts, f, P.K)));
      (match lost
       case None => s.(rx := rx)
       case Some((n, _)) => s.(rx := rx, seen := s.seen + {n}, queued := s.queued + [n]))
    case ChunkTaken =>
      if |s.queued| > 0 && Re.InBounds(s.rx.reasm, s.rx.queue[0])
      then s.(rx := Reassemble(s.rx), queued := s.queued[1..], arrived := s.arrived + {s.queued[0]})
      else s
  }

  // ---------------------------------------------------------------- invariant

  ghost predicate QueueHolds(tx: Sender, s: State) {
    && |s.rx.queue| == |s.queued|
    && forall k :: 0 <= k < |s.queued| ==>
         s.queued[k] in s.seen && s.queued[k] < |tx.pkts| && s.rx.queue[k] == tx.pkts[s.queued[k]]
  }

  /** Pool, queue and reassembly; nothing here turns on the gap tracker. */
  ghost predicate Inv(tx: Sender, s: State) {
    && Fec.Faithful(s.rx.pool, tx.pkts)
    && (forall n :: n in s.seen ==> n < |tx.pkts|)
    && QueueHolds(tx, s)
    && s.arrived <= s.seen
    && Rx.Exact(s.rx.reasm, tx.writes, tx.start, s.arrived)
    && (s.seen == {} ==> s.rx.pool == map[])
  }

  // ---------------------------------------------------------------- steps

  ghost function AfterRecord(tx: Sender, s: State, n: nat, now: int): State
    requires tx.Valid() && n < |tx.pkts|
  {
    State(Recorded(s.rx, n, tx.pkts[n], now), s.seen + {n}, if s.seen == {} then n else s.first,
          if s.seen == {} || n > s.high then n else s.high, s.queued + [n], s.arrived)
  }

  lemma RecordKeeps(tx: Sender, s: State, n: nat, now: int)
    requires tx.Valid() && Inv(tx, s) && n < |tx.pkts|
    ensures Inv(tx, AfterRecord(tx, s, n, now))
  {
  }

  lemma PoolPruned(tx: Sender, s: State)
    requires tx.Valid() && Inv(tx, s)
    ensures Inv(tx, s.(rx := Pruned(s.rx)))
  {
  }

  /** An arrival is recorded; every 64th number prunes as well. */
  lemma PacketEffect(tx: Sender, s: State, n: nat, again: bool, now: int)
    requires tx.Valid() && n < |tx.pkts|
    ensures var s1 := AfterRecord(tx, s, n, now);
            Apply(tx, s, PacketArrives(n, again, now)) == if n % 64 == 0 then s1.(rx := Pruned(s1.rx)) else s1
  {
    ParseData(if again then RETX else DATA, n, tx.pkts[n]);
  }

  lemma PacketKeeps(tx: Sender, s: State, n: nat, again: bool, now: int)
    requires tx.Valid() && Inv(tx, s) && n < |tx.pkts|
    ensures Inv(tx, Apply(tx, s, PacketArrives(n, again, now)))
  {
    PacketEffect(tx, s, n, again, now);
    RecordKeeps(tx, s, n, now);
    PoolPruned(tx, AfterRecord(tx, s, n, now));
  }

  ghost function AfterRecovery(tx: Sender, s: State, n: nat): State
    requires tx.Valid() && n < |tx.pkts|
  {
    s.(rx := s.rx.(pool := s.rx.pool[n := tx.pkts[n]], tracker := Nack.Resolve(s.rx.tracker, n),
                   queue := s.rx.queue + [tx.pkts[n]]),
       seen := s.seen + {n}, queued := s.queued + [n])
  }

  lemma RecoveryKeeps(tx: Sender, s: State, n: nat)
    requires tx.Valid() && Inv(tx, s) && n < |tx.pkts|
    ensures Inv(tx, AfterRecovery(tx, s, n))
  {
  }

  /** A parity either changes nothing or supplies one packet, exactly as sent. */
  lemma ParityEffect(tx: Sender, s: State, f: nat, at: int) returns (n: nat)
    requires tx.Valid() && Inv(tx, s) && Enabled(tx, s, ParityArrives(f, at))
    ensures n < |tx.pkts|
    ensures var s' := Apply(tx, s, ParityArrives(f, at)); s' == s || (s' == AfterRecovery(tx, s, n) && s.seen != {})
  {
    var parity := P.ParityOf(Fec.Group(tx.pkts, f, P.K));
    HandleFecEffect(s.rx, f, 3, 7, parity, at);
    n := f;
    if Fec.Recover(s.rx.pool, f, 3, P.K, parity).Some? {
      n := RecoverGives(s.rx.pool, tx.pkts, f);
    }
  }

  lemma RecoverGives(pool: Fec.Pool, pkts: seq<bytes>, f: nat) returns (n: nat)
    requires Fec.Sendable(pkts) && Fec.Faithful(pool, pkts) && Fec.Grouped(pkts, f)
    requires Fec.Recover(pool, f, 3, P.K, P.ParityOf(Fec.Group(pkts, f, P.K))).Some?
    ensures n < |pkts| && Fec.Recover(pool, f, 3, P.K, P.ParityOf(Fec.Group(pkts, f, P.K))) == Some((n, pkts[n]))
    ensures pool != map[]
  {
    Fec.RecoverExact(pool, pkts, f);
    n := Fec.Recover(pool, f, 3, P.K, P.ParityOf(Fec.Group(pkts, f, P.K))).value.0;
    PoolNotEmpty(pool, pkts, f);
  }

  lemma ParityKeeps(tx: Sender, s: State, f: nat, at: int)
    requires tx.Valid() && Inv(tx, s) && Enabled(tx, s, ParityArrives(f, at))
    ensures Inv(tx, Apply(tx, s, ParityArrives(f, at)))
  {
    var n := ParityEffect(tx, s, f, at);
    RecoveryKeeps(tx, s, n);
  }

  /** Nothing can be recovered from an empty pool. */
  lemma PoolNotEmpty(pool: Fec.Pool, pkts: seq<bytes>, f: nat)
    requires |Fec.Lost(pool, f)| == 1
    ensures pool != map[]
  {
    if pool == map[] {
      assert 0 in Fec.Lost(pool, f) && 1 in Fec.Lost(pool, f);
      Fec.OnlyOne(Fec.Lost(pool, f), 0);
    }
  }

  lemma TakeKeeps(tx: Sender, s: State)
    requires tx.Valid() && Inv(tx, s) && s.rx.queue != []
    ensures Re.InBounds(s.rx.reasm, s.rx.queue[0])
    ensures Inv(tx, Apply(tx, s, ChunkTaken))
    ensures s.rx.reasm.next <= Apply(tx, s, ChunkTaken).rx.reasm.next
  {
    var n := s.queued[0];
    assert Rx.IsPacket(tx.pkts[n], tx.writes, n);
    var w, i :| Rx.Carries(tx.pkts[n], tx.writes, n, w, i);
    Rx.AcceptExact(s.rx.reasm, tx.writes, tx.start, s.arrived, tx.pkts[n], n, w, i);
  }

  lemma StepKeeps(tx: Sender, s: State, step: Step)
    requires tx.Valid() && Inv(tx, s) && Enabled(tx, s, step)
    ensures Inv(tx, Apply(tx, s, step))
  {
    match step
    case PacketArrives(n, again, now) => PacketKeeps(tx, s, n, again, now);
    case ParityArrives(f, at) => ParityKeeps(tx, s, f, at);
    case ChunkTaken => TakeKeeps(tx, s);
  }

  // ---------------------------------------------------------------- runs

  ghost predicate IsRun(tx: Sender, states: seq<State>, steps: seq<Step>)
    requires tx.Valid()
  {
    && |states| == |steps| + 1
    && states[0] == Start(tx)
    && forall k :: 0 <= k < |steps| ==> Enabled(tx, states[k], steps[k]) && states[k + 1] == Apply(tx, states[k], steps[k])
  }

  lemma StartInv(tx: Sender)
    requires tx.Valid()
    ensures Inv(tx, Start(tx))
  {
    var r := Start(tx).rx.reasm;
    if tx.start < |tx.writes| {
      assert Chunks(tx.writes[tx.start]) > 0;
      assert !Rx.Has(tx.writes, tx.start, {}, 0);
    }
  }

  lemma {:induction false} RunInv(tx: Sender, states: seq<State>, steps: seq<Step>, k: nat)
    requires tx.Valid() && IsRun(tx, states, steps) && k < |states|
    ensures Inv(tx, states[k])
  {
    if k == 0 {
      StartInv(tx);
    } else {
      RunInv(tx, states, steps, k - 1);
      StepKeeps(tx, states[k - 1], steps[k - 1]);
      assert states[k] == Apply(tx, states[k - 1], steps[k - 1]);
    }
  }

  /**
   * Delivery, at every point of every run with loss, reordering, duplicates, retransmissions and
   * recoveries: the messages delivered are exactly the writes from the start up to the first of which a
   * chunk has not reached reassembly.
   */
  lemma DeliveredExactly(tx: Sender, states: seq<State>, steps: seq<Step>, k: nat)
    requires tx.Valid() && IsRun(tx, states, steps) && k < |states|
    ensures var s := states[k]; var c := s.rx.reasm.next;
            && tx.start <= c <= |tx.writes|
            && s.rx.reasm.out == tx.writes[tx.start..c]
            && (forall w :: tx.start <= w < c ==> Rx.AllArrived(tx.writes, w, s.arrived))
            && (c < |tx.writes| ==> !Rx.AllArrived(tx.writes, c, s.arrived))
  {
    RunInv(tx, states, steps, k);
  }

  /** Nothing is fabricated: every pool entry and every chunk on its way to reassembly is what the sender
      assigned to that packet number. */
  lemma NothingFabricated(tx: Sender, states: seq<State>, steps: seq<Step>, k: nat)
    requires tx.Valid() && IsRun(tx, states, steps) && k < |states|
    ensures var s := states[k];
            && (forall n :: n in s.rx.pool ==> n < |tx.pkts| && s.rx.pool[n] == tx.pkts[n])
            && |s.rx.queue| == |s.queued|
            && (forall j :: 0 <= j < |s.rx.queue| ==>
                  s.queued[j] < |tx.pkts| && s.rx.queue[j] == tx.pkts[s.queued[j]])
  {
    RunInv(tx, states, steps, k);
  }

  /** Taking a chunk from the queue never indexes outside the buffer it belongs to. */
  lemma NeverOutOfBounds(tx: Sender, states: seq<State>, steps: seq<Step>, k: nat)
    requires tx.Valid() && IsRun(tx, states, steps) && k < |states| && states[k].rx.queue != []
    ensures Re.InBounds(states[k].rx.reasm, states[k].rx.queue[0])
  {
    RunInv(tx, states, steps, k);
    TakeKeeps(tx, states[k]);
  }

  /** The packets of any list of admissible writes are such a sender. */
  lemma SenderExists(writes: seq<bytes>, start: nat)
    requires Sent(writes) && start <= |writes|
    ensures Sender(writes, Packets(writes), start).Valid()
  {
    Rx.PacketsParse(writes);
  }
}

/** The same runs as the gap tracker sees them: at most 2^15 packets, the first not older than the start. */
module RtpGaps {
  import opened Bytes
  import opened Serial
  import opened Chunking
  import opened RtpReceiving
  import opened RtpSystem
  import Fec = FecDecoding
  import Nack = NackSpec
  import Gaps = NackExactness
  import Rx = ReassemblyExactness

  ghost predicate Tracked(t: Nack.Tracker, first: nat, high: nat, seen: set<nat>) {
    exists next :: Gaps.Exact(t, 0, first, high, next, seen)
  }

  ghost predicate TrackInv(tx: Sender, s: State)
    requires tx.start <= |tx.writes|
  {
    && (s.seen == {} ==> s.rx.tracker == Nack.EMPTY)
    && (s.seen != {} ==> Base(tx.writes, tx.start) <= s.first && Tracked(s.rx.tracker, s.first, s.high, s.seen))
  }

  /** The write cursor is never past the least packet not yet seen. */
  lemma CursorNotPast(tx: Sender, s: State, next: nat)
    requires tx.Valid() && Inv(tx, s) && TrackInv(tx, s) && s.seen != {}
    requires Gaps.Exact(s.rx.tracker, 0, s.first, s.high, next, s.seen)
    ensures s.rx.reasm.next <= next
  {
    var c := s.rx.reasm.next;
    BaseAtLeast(tx.writes, c);
    if next < Base(tx.writes, c) {
      Rx.DeliveredArrived(s.rx.reasm, tx.writes, tx.start, s.arrived, next);
    }
  }

  lemma NumberIsIndex(n: nat)
    requires n < M16
    ensures n % M16 == n
  {
  }

  lemma TrackedRecord(t: Nack.Tracker, first: nat, high: nat, seen: set<nat>, n: nat, now: int)
    requires Tracked(t, first, high, seen) && n < H16
    ensures Tracked(Nack.Record(t, n, now), first, if n > high then n else high, seen + {n})
  {
    var next :| Gaps.Exact(t, 0, first, high, next, seen);
    NumberIsIndex(n);
    var next' := Gaps.RecordExact(t, 0, first, high, next, seen, n, now);
    var r, top := Nack.Record(t, n, now), if n > high then n else high;
    assert Gaps.Exact(r, 0, first, top, next', seen + {n});
  }

  lemma TrackedFirst(n: nat, now: int)
    requires n < H16
    ensures Tracked(Nack.Record(Nack.EMPTY, n, now), n, n, {n})
  {
    Gaps.FirstRecordExact(n, 0, now);
    assert n % M16 == n;
  }

  lemma TrackedResolve(t: Nack.Tracker, first: nat, high: nat, seen: set<nat>, n: nat)
    requires Tracked(t, first, high, seen) && n < H16
    ensures Tracked(Nack.Resolve(t, n), first, high, seen + {n})
  {
    var next :| Gaps.Exact(t, 0, first, high, next, seen);
    NumberIsIndex(n);
    var next' := Gaps.ResolveExact(t, 0, first, high, next, seen, n);
    assert Gaps.Exact(Nack.Resolve(t, n), 0, first, high, next', seen + {n});
  }

  lemma TrackedPrune(t: Nack.Tracker, first: nat, high: nat, seen: set<nat>, next: nat, m: nat)
    requires Gaps.Exact(t, 0, first, high, next, seen) && m <= next && m < M16
    ensures Nack.Prune(t, m).gaps == t.gaps && Tracked(Nack.Prune(t, m), first, high, seen)
  {
    Gaps.PruneExact(t, 0, first, high, next, seen, m);
    assert m % M16 == m;
  }

  lemma RecordTracked(tx: Sender, s: State, n: nat, now: int)
    requires tx.Valid() && |tx.pkts| <= H16 && TrackInv(tx, s) && n < |tx.pkts|
    requires s.seen == {} ==> Base(tx.writes, tx.start) <= n
    ensures TrackInv(tx, AfterRecord(tx, s, n, now))
  {
    if s.seen == {} {
      TrackedFirst(n, now);
      assert s.seen + {n} == {n};
    } else {
      TrackedRecord(s.rx.tracker, s.first, s.high, s.seen, n, now);
    }
  }

  /** Pruning with the write cursor removes no gap, so no request for a missing packet is forgotten. */
  lemma PruneKeeps(tx: Sender, s: State)
    requires tx.Valid() && Inv(tx, s) && TrackInv(tx, s) && s.seen != {}
    ensures Pruned(s.rx).tracker.gaps == s.rx.tracker.gaps
    ensures TrackInv(tx, s.(rx := Pruned(s.rx)))
  {
    var next :| Gaps.Exact(s.rx.tracker, 0, s.first, s.high, next, s.seen);
    CursorNotPast(tx, s, next);
    TrackedPrune(s.rx.tracker, s.first, s.high, s.seen, next, s.rx.reasm.next);
  }

  /** The first packet to be recorded belongs to the write from which the receiver starts, or to a later one. */
  ghost predicate StartsInTime(tx: Sender, s: State, step: Step)
    requires tx.Valid()
  {
    step.PacketArrives? && s.seen == {} ==> Base(tx.writes, tx.start) <= step.n
  }

  lemma PacketTracked(tx: Sender, s: State, n: nat, again: bool, now: int)
    requires tx.Valid() && |tx.pkts| <= H16 && Inv(tx, s) && TrackInv(tx, s) && n < |tx.pkts|
    requires s.seen == {} ==> Base(tx.writes, tx.start) <= n
    ensures TrackInv(tx, Apply(tx, s, PacketArrives(n, again, now)))
  {
    PacketEffect(tx, s, n, again, now);
    RecordKeeps(tx, s, n, now);
    RecordTracked(tx, s, n, now);
    PruneKeeps(tx, AfterRecord(tx, s, n, now));
  }

  lemma ParityTracked(tx: Sender, s: State, f: nat, at: int)
    requires tx.Valid() && |tx.pkts| <= H16 && Inv(tx, s) && TrackInv(tx, s) && Enabled(tx, s, ParityArrives(f, at))
    ensures TrackInv(tx, Apply(tx, s, ParityArrives(f, at)))
  {
    var n := ParityEffect(tx, s, f, at);
    if s.seen != {} { TrackedResolve(s.rx.tracker, s.first, s.high, s.seen, n); }
  }

  lemma TrackStepKeeps(tx: Sender, s: State, step: Step)
    requires tx.Valid() && |tx.pkts| <= H16 && Inv(tx, s) && TrackInv(tx, s)
    requires Enabled(tx, s, step) && StartsInTime(tx, s, step)
    ensures TrackInv(tx, Apply(tx, s, step))
  {
    match step
    case PacketArrives(n, again, now) => PacketTracked(tx, s, n, again, now);
    case ParityArrives(f, at) => ParityTracked(tx, s, f, at);
    case ChunkTaken =>
  }

  /** A run short enough for the circular comparison of packet numbers, rightly started. */
  ghost predicate IsTrackedRun(tx: Sender, states: seq<State>, steps: seq<Step>)
    requires tx.Valid()
  {
    && |tx.pkts| <= H16 && IsRun(tx, states, steps)
    && forall k :: 0 <= k < |steps| ==> StartsInTime(tx, states[k], steps[k])
  }

  lemma {:induction false} TrackRunInv(tx: Sender, states: seq<State>, steps: seq<Step>, k: nat)
    requires tx.Valid() && IsTrackedRun(tx, states, steps) && k < |states|
    ensures TrackInv(tx, states[k])
  {
    if k > 0 {
      TrackRunInv(tx, states, steps, k - 1);
      RunInv(tx, states, steps, k - 1);
      assert StartsInTime(tx, states[k - 1], steps[k - 1]);
      TrackStepKeeps(tx, states[k - 1], steps[k - 1]);
      assert states[k] == Apply(tx, states[k - 1], steps[k - 1]);
    }
  }

  /**
   * Pruning packet state with the write cursor is safe at every point of every such run: it forgets no gap,
   * and every packet between the first and the highest recorded that was not seen is a gap, so it goes on
   * being asked for.
   */
  lemma PruneForgetsNothing(tx: Sender, states: seq<State>, steps: seq<Step>, k: nat)
    requires tx.Valid() && IsTrackedRun(tx, states, steps) && k < |states| && states[k].seen != {}
    ensures var s := states[k];
            && Pruned(s.rx).tracker.gaps == s.rx.tracker.gaps
            && forall n: uint16 :: n in s.rx.tracker.gaps <==> s.first < n < s.high && n !in s.seen
  {
    RunInv(tx, states, steps, k);
    TrackRunInv(tx, states, steps, k);
    var s := states[k];
    PruneKeeps(tx, s);
    GapsAreMissing(s.rx.tracker, s.first, s.high, s.seen);
  }

  lemma GapsAreMissing(t: Nack.Tracker, first: nat, high: nat, seen: set<nat>)
    requires Tracked(t, first, high, seen)
    ensures forall n: uint16 :: n in t.gaps <==> first < n < high && n !in seen
  {
    var next :| Gaps.Exact(t, 0, first, high, next, seen);
    forall n: uint16 ensures n in t.gaps <==> first < n < high && n !in seen {
      assert Gaps.IndexOf(0, n) == n;
      assert n in t.gaps <==> Gaps.Lacking(0, first, high, seen, n);
    }
  }

  // ---------------------------------------------------------------- what pruning leaves in the pool

  /** Every packet seen from the write cursor on is there for recovery. */
  ghost predicate PoolInv(s: State) {
    forall n :: n in s.seen && s.rx.reasm.next <= n ==> n in s.rx.pool
  }

  lemma NotBefore(c: uint16, n: uint16)
    requires c <= n < H16
    ensures !After16(c, n)
  {
  }

  lemma Kept(pool: Fec.Pool, c: uint16, n: uint16)
    requires n in pool && c <= n < H16
    ensures n in Fec.Prune(pool, c)
  {
    NotBefore(c, n);
  }

  lemma PruneLeaves(tx: Sender, s: State)
    requires tx.Valid() && |tx.pkts| <= H16 && Inv(tx, s) && PoolInv(s)
    ensures PoolInv(s.(rx := Pruned(s.rx)))
  {
    forall n | n in s.seen && s.rx.reasm.next <= n ensures n in Pruned(s.rx).pool {
      Kept(s.rx.pool, s.rx.reasm.next, n);
    }
  }

  lemma PoolStep(tx: Sender, s: State, step: Step)
    requires tx.Valid() && |tx.pkts| <= H16 && Inv(tx, s) && PoolInv(s) && Enabled(tx, s, step)
    ensures PoolInv(Apply(tx, s, step))
  {
    match step
    case PacketArrives(n, again, now) =>
      PacketEffect(tx, s, n, again, now);
      RecordKeeps(tx, s, n, now);
      assert PoolInv(AfterRecord(tx, s, n, now));
      PruneLeaves(tx, AfterRecord(tx, s, n, now));
    case ParityArrives(f, at) =>
      var n := ParityEffect(tx, s, f, at);
    case ChunkTaken => TakeKeeps(tx, s);
  }

  /** At every point of every run of at most 2^15 packets, whatever was pruned, every packet received or recovered is in
      the pool unless its number is below the write cursor. */
  lemma {:induction false} PoolKeepsNeeded(tx: Sender, states: seq<State>, steps: seq<Step>, k: nat)
    requires tx.Valid() && |tx.pkts| <= H16 && IsRun(tx, states, steps) && k < |states|
    ensures PoolInv(states[k])
  {
    if k > 0 {
      PoolKeepsNeeded(tx, states, steps, k - 1);
      RunInv(tx, states, steps, k - 1);
      PoolStep(tx, states[k - 1], steps[k - 1]);
      assert states[k] == Apply(tx, states[k - 1], steps[k - 1]);
    }
  }

  lemma Dropped(pool: Fec.Pool, c: uint16, n: uint16)
    requires n < c < H16
    ensures After16(c, n) && n !in Fec.Prune(pool, c)
  {
  }

  /** Every 64th packet number prunes: after it neither the pool nor the numbers received ahead keep anything below the
      write cursor. */
  lemma PruneRemoves(tx: Sender, states: seq<State>, steps: seq<Step>, k: nat)
    requires tx.Valid() && IsTrackedRun(tx, states, steps) && k < |steps|
    requires steps[k].PacketArrives? && steps[k].n % 64 == 0 && states[k].rx.reasm.next < H16
    ensures var rx := states[k + 1].rx;
            && rx.reasm.next == states[k].rx.reasm.next
            && (forall n :: n in rx.pool ==> rx.reasm.next <= n)
            && (forall n :: n in rx.tracker.received ==> rx.reasm.next <= n)
  {
    RunInv(tx, states, steps, k);
    TrackRunInv(tx, states, steps, k);
    var s, step := states[k], steps[k];
    assert Enabled(tx, s, step) && StartsInTime(tx, s, step) && states[k + 1] == Apply(tx, s, step);
    PacketEffect(tx, s, step.n, step.again, step.now);
    var s1 := AfterRecord(tx, s, step.n, step.now);
    forall n: uint16 | n in Pruned(s1.rx).pool ensures s.rx.reasm.next <= n {
      if n < s.rx.reasm.next { Dropped(s1.rx.pool, s.rx.reasm.next, n); }
    }
    forall n: uint16 | n in Pruned(s1.rx).tracker.received ensures s.rx.reasm.next <= n {
      if n < s.rx.reasm.next { Dropped(map[], s.rx.reasm.next, n); }
    }
  }
}
