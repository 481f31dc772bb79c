/** Receiving side of a striped stream: dispatch, early frames, and the ways a stream ends. */
module StripeReceiving {
  import opened Bytes
  import opened ReorderSpec
  import opened StripeSending

  const GAP_TIMEOUT: int := 5_000_000_000

  datatype Fate = Unopened | Live | ClosedByPeer | ClosedByLimit | ClosedLocally

  /** What one dispatch reads from outside: the clock at insertion and at the limit check, and which
      flushed chunks the receive channel takes within its time limit if the stream is closed. */
  datatype Env = Env(now: int, later: int, accept: seq<bool>)

  /** recv: chunks delivered in order; tail: chunks added by a flush at close. */
  datatype Receiver = Receiver(fate: Fate, pending: seq<bytes>, buf: Reorder, recv: seq<bytes>, tail: seq<bytes>,
                               closePending: bool)

  function Kept<T>(xs: seq<T>, accept: seq<bool>): (r: seq<T>)
    ensures |r| <= |xs|
  {
    if |xs| == 0 then []
    else
      var n := |xs| - 1;
      Kept(xs[..n], accept) + if n < |accept| && accept[n] then [xs[n]] else []
  }

  /** What the channel takes is kept, each at its place: with the mask cut short after k, the k-th is next or left out. */
  lemma {:induction false} KeptExact<T>(xs: seq<T>, accept: seq<bool>, k: nat)
    requires k < |xs|
    ensures Kept(xs[..k + 1], accept) == Kept(xs[..k], accept) + if k < |accept| && accept[k] then [xs[k]] else []
    ensures Kept(xs[..k + 1], accept) <= Kept(xs, accept)
    decreases |xs|
  {
    assert xs[..k + 1][..k] == xs[..k];
    var n := |xs| - 1;
    if k < n {
      KeptExact(xs[..n], accept, k);
      assert xs[..n][..k + 1] == xs[..k + 1];
    } else {
      assert xs[..k + 1] == xs;
    }
  }

  /** A chunk that the channel takes is delivered. */
  lemma KeptTaken<T>(xs: seq<T>, accept: seq<bool>, k: nat)
    requires k < |xs| && k < |accept| && accept[k]
    ensures xs[k] in Kept(xs, accept)
  {
    KeptExact(xs, accept, k);
    var r := Kept(xs[..k + 1], accept);
    assert r[|r| - 1] == xs[k] && Kept(xs, accept)[|r| - 1] == xs[k];
  }

  predicate TimedOut(buf: Reorder, later: int) {
    buf.gapSince.Some? && buf.held != map[] && later - buf.gapSince.value > GAP_TIMEOUT
  }

  /** closeStream: only the first close counts; what is still buffered is flushed in order. */
  ghost function CloseStream(rx: Receiver, fate: Fate, accept: seq<bool>): Receiver {
    if rx.fate != Live then rx
    else rx.(fate := fate, tail := Kept(FlushData(rx.buf), accept), buf := Reorder(rx.buf.nextSeq, map[], None))
  }

  ghost function Dispatch(rx: Receiver, payload: bytes, env: Env): Receiver {
    if rx.fate != Live || |payload| < STRIP_SEQ_SIZE then rx
    else
      var (buf, out) := Insert(rx.buf, U32(payload[..4]), payload[4..], env.now);
      var rx1 := rx.(buf := buf, recv := rx.recv + out);
      if |buf.held| > MAX_FRAMES || TimedOut(buf, env.later) then CloseStream(rx1, ClosedByLimit, env.accept)
      else if rx1.closePending && buf.held == map[] then CloseStream(rx1, ClosedByPeer, env.accept)
      else rx1
  }

  /** A data frame: dispatched to a live stream, set aside when the stream is not in the table. */
  ghost function OnData(rx: Receiver, payload: bytes, env: Env): Receiver {
    if rx.fate == Live then Dispatch(rx, payload, env)
    else rx.(pending := rx.pending + [payload])
  }

  ghost function Replay(rx: Receiver, frames: seq<bytes>, envs: nat -> Env): Receiver {
    if |frames| == 0 then rx
    else var n := |frames| - 1; Dispatch(Replay(rx, frames[..n], envs), frames[n], envs(n))
  }

  /** An open frame creates the stream and replays what arrived before it. */
  ghost function OnOpen(rx: Receiver, envs: nat -> Env): Receiver {
    Replay(rx.(fate := Live, pending := []), rx.pending, envs)
  }

  ghost function OnClose(rx: Receiver, env: Env): Receiver {
    if rx.fate != Live then rx
    else if rx.buf.held != map[] then rx.(closePending := true)
    else CloseStream(rx, ClosedByPeer, env.accept)
  }

  /** The check that RemoveConn makes of every stream when a connection dies. */
  ghost function OnConnDeath(rx: Receiver, env: Env): Receiver {
    if rx.fate == Live && TimedOut(rx.buf, env.later) then CloseStream(rx, ClosedByLimit, env.accept) else rx
  }

  ghost function OnLocalClose(rx: Receiver): Receiver {
    if rx.fate != Live then rx else rx.(fate := ClosedLocally)
  }
}

/** The receiving stream as the program keeps it. */
module StripeReaders {
  import opened Bytes
  import opened ReorderSpec
  import opened ReorderBuffers
  import opened StripeSending
  import R = StripeReceiving

  /** Offers each flushed chunk to the receive channel; those not taken in time are lost. */
  method Offer(flushed: seq<bytes>, accept: seq<bool>) returns (tail: seq<bytes>)
    ensures tail == R.Kept(flushed, accept)
  {
    tail := [];
    for k := 0 to |flushed|
      invariant tail == R.Kept(flushed[..k], accept)
    {
      assert flushed[..k + 1][..k] == flushed[..k];
      if k < |accept| && accept[k] { tail := tail + [flushed[k]]; }
    }
    assert flushed[..|flushed|] == flushed;
  }

  class StripeReader {
    var fate: R.Fate
    var pending: seq<bytes>
    var recv: seq<bytes>
    var tail: seq<bytes>
    var closePending: bool
    const reorder: ReorderBuffer

    ghost function View(): R.Receiver
      reads this, reorder
    {
      R.Receiver(fate, pending, reorder.View(), recv, tail, closePending)
    }

    ghost predicate Valid()
      reads this, reorder
    {
      reorder.Valid()
    }

    constructor ()
      ensures Valid() && fresh(reorder)
      ensures View() == R.Receiver(R.Unopened, [], EMPTY, [], [], false)
    {
      fate, pending, recv, tail, closePending := R.Unopened, [], [], [], false;
      reorder := new ReorderBuffer();
    }

    method CloseStream(to: R.Fate, accept: seq<bool>)
      requires Valid()
      modifies this, reorder
      ensures Valid() && View() == R.CloseStream(old(View()), to, accept)
    {
      if fate != R.Live { return; }
      fate := to;
      var flushed := reorder.FlushAll();
      tail := Offer(flushed, accept);
    }

    method Dispatch(payload: bytes, env: R.Env)
      requires Valid()
      modifies this, reorder
      ensures Valid() && View() == R.Dispatch(old(View()), payload, env)
    {
      if fate != R.Live || |payload| < STRIP_SEQ_SIZE { return; }
      var flushed := reorder.Insert(U32(payload[..4]), payload[4..], env.now);
      recv := recv + flushed;
      var over := reorder.Overflowed();
      var waiting := reorder.Len();
      if over || reorder.GapTimedOut(env.later, R.GAP_TIMEOUT) {
        CloseStream(R.ClosedByLimit, env.accept);
      } else if closePending && waiting == 0 {
        CloseStream(R.ClosedByPeer, env.accept);
      }
    }

    method OnData(payload: bytes, env: R.Env)
      requires Valid()
      modifies this, reorder
      ensures Valid() && View() == R.OnData(old(View()), payload, env)
    {
      if fate == R.Live { Dispatch(payload, env); } else { pending := pending + [payload]; }
    }

    method OnOpen(envs: nat -> R.Env)
      requires Valid()
      modifies this, reorder
      ensures Valid() && View() == R.OnOpen(old(View()), envs)
    {
      var frames := pending;
      fate, pending := R.Live, [];
      ghost var rx := View();
      for k := 0 to |frames|
        invariant Valid() && View() == R.Replay(rx, frames[..k], envs)
      {
        assert frames[..k + 1][..k] == frames[..k];
        Dispatch(frames[k], envs(k));
      }
      assert frames[..|frames|] == frames;
    }

    method OnClose(env: R.Env)
      requires Valid()
      modifies this, reorder
      ensures Valid() && View() == R.OnClose(old(View()), env)
    {
      if fate != R.Live { return; }
      var waiting := reorder.Len();
      if waiting > 0 { closePending := true; } else { CloseStream(R.ClosedByPeer, env.accept); }
    }

    method OnConnDeath(env: R.Env)
      requires Valid()
      modifies this, reorder
      ensures Valid() && View() == R.OnConnDeath(old(View()), env)
    {
      if fate == R.Live && reorder.GapTimedOut(env.later, R.GAP_TIMEOUT) {
        CloseStream(R.ClosedByLimit, env.accept);
      }
    }
  }
}

/** Sender, lossy and duplicating network, and receiver of one striped stream as one state machine. */
module StripedSystem {
  import opened Bytes
  import opened Serial
  import opened RingSpec
  import opened ReorderSpec
  import opened ReorderRefinement
  import opened StripeSending
  import opened StripeReceiving

  /** net: indices whose frames may arrive, any number of times or never; got: indices dispatched so
      far; early: the indices of the frames set aside before the open frame; replays: the indices resent at each
      death of a connection. */
  datatype System = System(tx: Sender, net: set<nat>, rx: Receiver, got: set<nat>, early: seq<nat>,
                           replays: seq<seq<nat>>)

  datatype Step =
    | Write(p: bytes, maxFrame: nat, conns: seq<nat>)
    | ConnDies(conn: nat)
    | Arrive(index: nat, env: Env)
    | Open(envs: nat -> Env)
    | CloseArrives(closeEnv: Env)
    | PeerConnDies(deathEnv: Env)
    | LocalClose

  const START := System(Sender([], {}, [], map[], map[]), {}, Receiver(Unopened, [], EMPTY, [], [], false), {}, [], [])

  /** The premise on arrivals is that an index lies within half a turn of the receiver's cursor. */
  ghost predicate Enabled(s: System, step: Step) {
    match step
    case Write(_, maxFrame, _) => maxFrame > STRIP_SEQ_SIZE
    case Arrive(i, _) => i in s.net && Window32(|s.rx.recv|, i)
    case Open(_) => s.rx.fate == Unopened
    case _ => true
  }

  ghost function Fresh(before: Sender, after: Sender): set<nat> {
    set i | |before.chunks| <= i < |after.chunks| && i !in after.orphans
  }

  ghost function Apply(s: System, step: Step): System
    requires Enabled(s, step)
  {
    match step
    case Write(p, maxFrame, conns) =>
      var tx := SendAll(s.tx, Cut(p, maxFrame - STRIP_SEQ_SIZE), conns);
      s.(tx := tx, net := s.net + Fresh(s.tx, tx))
    case ConnDies(c) =>
      var ring := if c in s.tx.rings then s.tx.rings[c] else [];
      s.(tx := s.tx.Without(c), net := s.net + (set i | i in ring), replays := s.replays + [ring])
    case Arrive(i, env) =>
      var payload := if i < |s.tx.chunks| then Payload(i, s.tx.chunks[i]) else [];
      if s.rx.fate == Live then s.(rx := OnData(s.rx, payload, env), got := s.got + {i})
      else s.(rx := OnData(s.rx, payload, env), early := s.early + [i])
    case Open(envs) =>
      var rx := s.rx.(fate := Live, pending := []);
      s.(rx := OnOpen(s.rx, envs), got := Opened(rx, s.rx.pending, s.early, envs))
    case CloseArrives(env) => s.(rx := OnClose(s.rx, env))
    case PeerConnDies(env) => s.(rx := OnConnDeath(s.rx, env))
    case LocalClose => s.(rx := OnLocalClose(s.rx))
  }

  /** The early indices that were dispatched before the stream closed again, if it did. */
  ghost function Opened(rx: Receiver, frames: seq<bytes>, early: seq<nat>, envs: nat -> Env): set<nat> {
    if |frames| == 0 || |early| != |frames| then {}
    else
      var n := |frames| - 1;
      Opened(rx, frames[..n], early[..n], envs) +
      if Replay(rx, frames[..n], envs).fate == Live then {early[n]} else {}
  }

  // ---------------------------------------------------------------- invariant

  /** The chunks delivered are exactly those below the least index not dispatched. */
  ghost predicate Prefix(rx: Receiver, got: set<nat>, chunks: seq<bytes>) {
    && |rx.recv| <= |chunks|
    && rx.recv == chunks[..|rx.recv|]
    && |rx.recv| !in got
    && forall i :: 0 <= i < |rx.recv| ==> i in got
  }

  /** Chunks with strictly increasing indices beyond the prefix, each of which was received. */
  ghost predicate LaterChunks(tail: seq<bytes>, js: seq<nat>, from: nat, got: set<nat>, chunks: seq<bytes>) {
    && |js| == |tail|
    && (forall k :: 0 <= k < |js| ==> from < js[k] < |chunks| && js[k] in got && tail[k] == chunks[js[k]])
    && (forall k, l :: 0 <= k < l < |js| ==> js[k] < js[l])
  }

  ghost predicate RxInv(rx: Receiver, got: set<nat>, chunks: seq<bytes>) {
    && Prefix(rx, got, chunks)
    && (rx.fate == Live ==> Tracks(rx.buf, |rx.recv|, got, chunks))
    && (rx.fate == ClosedByPeer ==> forall i :: i in got ==> i < |rx.recv|)
    && (rx.fate != ClosedByLimit ==> rx.tail == [])
    && (rx.fate == ClosedByLimit ==> exists js :: LaterChunks(rx.tail, js, |rx.recv|, got, chunks))
  }

  lemma {:induction false} KeptChunks(tail: seq<bytes>, js: seq<nat>, from: nat, got: set<nat>, chunks: seq<bytes>,
                                      accept: seq<bool>)
    requires LaterChunks(tail, js, from, got, chunks)
    ensures LaterChunks(Kept(tail, accept), Kept(js, accept), from, got, chunks)
    ensures forall j :: j in Kept(js, accept) ==> j in js
  {
    if |js| > 0 {
      var n := |js| - 1;
      KeptChunks(tail[..n], js[..n], from, got, chunks, accept);
      var kept := Kept(js[..n], accept);
      forall k | 0 <= k < |kept| ensures kept[k] < js[n] {
        assert kept[k] in kept && kept[k] in js[..n];
      }
    }
  }

  /** The index that a held number stands for. */
  lemma HeldIndex(r: Reorder, cursor: nat, got: set<nat>, chunks: seq<bytes>, s: uint32)
    requires Tracks(r, cursor, got, chunks) && s in r.held
    ensures var j := cursor + Ahead32(r.nextSeq, s);
            cursor < j < |chunks| && j in got && r.held[s] == chunks[j]
  {
    assert Received(cursor, got, s) && Beyond32(r.nextSeq, s);
    var j := cursor + Ahead32(r.nextSeq, s);
    assert HeldAt(r.held, cursor, j, chunks);
    NumberOfAhead(cursor, s);
  }

  /** The indices that the numbers of a flush stand for. */
  ghost function FlushIndices(r: Reorder, cursor: nat): (js: seq<nat>)
    ensures |js| == |FlushNumbers(r)|
    ensures forall k :: 0 <= k < |js| ==> js[k] == cursor + Ahead32(r.nextSeq, FlushNumbers(r)[k])
  {
    var order := FlushNumbers(r);
    seq(|order|, k requires 0 <= k < |order| => cursor + Ahead32(r.nextSeq, order[k]))
  }

  /** A flush emits what was received beyond the prefix, in index order. */
  lemma FlushTracks(r: Reorder, cursor: nat, got: set<nat>, chunks: seq<bytes>)
    requires Tracks(r, cursor, got, chunks)
    ensures LaterChunks(FlushData(r), FlushIndices(r, cursor), cursor, got, chunks)
  {
    var order, js := FlushNumbers(r), FlushIndices(r, cursor);
    NearestOrder(r.nextSeq, r.held.Keys, 0);
    forall k | 0 <= k < |js|
      ensures cursor < js[k] < |chunks| && js[k] in got && FlushData(r)[k] == chunks[js[k]]
    {
      assert order[k] in order;
      HeldIndex(r, cursor, got, chunks, order[k]);
    }
  }

  /** All of it. */
  lemma FlushCovers(r: Reorder, cursor: nat, got: set<nat>, chunks: seq<bytes>, i: nat) returns (k: nat)
    requires Tracks(r, cursor, got, chunks) && i in got && i >= cursor
    ensures k < |FlushIndices(r, cursor)| && FlushIndices(r, cursor)[k] == i
  {
    assert HeldAt(r.held, cursor, i, chunks);
    AheadOfIndex(cursor, i);
    NearestOrder(r.nextSeq, r.held.Keys, 0);
    assert i % M32 in FlushNumbers(r);
    k :| 0 <= k < |FlushNumbers(r)| && FlushNumbers(r)[k] == i % M32;
  }

  // ---------------------------------------------------------------- the receiver keeps its invariant

  lemma CloseKeeps(rx: Receiver, fate: Fate, accept: seq<bool>, got: set<nat>, chunks: seq<bytes>)
    requires RxInv(rx, got, chunks) && rx.fate == Live
    requires fate == ClosedByLimit || (fate == ClosedByPeer && rx.buf.held == map[])
    ensures RxInv(CloseStream(rx, fate, accept), got, chunks)
  {
    var js := FlushIndices(rx.buf, |rx.recv|);
    FlushTracks(rx.buf, |rx.recv|, got, chunks);
    KeptChunks(FlushData(rx.buf), js, |rx.recv|, got, chunks, accept);
    if fate == ClosedByPeer {
      forall i | i in got ensures i < |rx.recv| {
        assert i >= |rx.recv| ==> HeldAt(rx.buf.held, |rx.recv|, i, chunks);
      }
    }
  }

  /** Dispatching the frame of an index enlarges the received set by that index. */
  lemma DispatchKeeps(rx: Receiver, got: set<nat>, chunks: seq<bytes>, i: nat, env: Env)
    requires RxInv(rx, got, chunks) && rx.fate == Live && i < |chunks| && Window32(|rx.recv|, i)
    ensures RxInv(Dispatch(rx, Payload(i, chunks[i]), env), got + {i}, chunks)
    ensures |Dispatch(rx, Payload(i, chunks[i]), env).recv| >= |rx.recv|
  {
    PayloadParts(i, chunks[i]);
    InsertTracks(rx.buf, |rx.recv|, got, chunks, i, env.now);
    var (buf, out) := Insert(rx.buf, i % M32, chunks[i], env.now);
    var rx1 := rx.(buf := buf, recv := rx.recv + out);
    var c := |rx1.recv|;
    assert rx1.recv == chunks[..c];
    assert RxInv(rx1, got + {i}, chunks);
    if |buf.held| > MAX_FRAMES || TimedOut(buf, env.later) {
      CloseKeeps(rx1, ClosedByLimit, env.accept, got + {i}, chunks);
    } else if rx1.closePending && buf.held == map[] {
      CloseKeeps(rx1, ClosedByPeer, env.accept, got + {i}, chunks);
    }
  }

  // ---------------------------------------------------------------- the system keeps its invariant

  ghost predicate Inv(s: System) {
    && s.tx.Valid()
    && (forall i :: i in s.net ==> s.tx.Sent(i))
    && (forall i :: i in s.got ==> s.tx.Sent(i))
    && RxInv(s.rx, s.got, s.tx.chunks)
    && (s.rx.fate == Unopened ==>
          && s.got == {} && s.rx.recv == [] && s.rx.buf == EMPTY
          && EarlyFrames(s.rx.pending, s.early, s.tx))
  }

  /** The frames set aside are encodings of sent chunks of the first half turn. */
  ghost predicate EarlyFrames(frames: seq<bytes>, early: seq<nat>, tx: Sender) {
    && |frames| == |early|
    && forall k :: 0 <= k < |early| ==>
         tx.Sent(early[k]) && early[k] < H32 && frames[k] == Payload(early[k], tx.chunks[early[k]])
  }

  /** What holds of a stream some of whose early frames have been replayed. */
  ghost predicate Replayed(rx: Receiver, got: set<nat>, early: seq<nat>, chunks: seq<bytes>) {
    && RxInv(rx, got, chunks)
    && (forall i :: i in got ==> i in early)
    && |rx.recv| <= H32
    && rx.fate != Unopened
  }

  lemma ReplayOne(rx: Receiver, got: set<nat>, early: seq<nat>, i: nat, env: Env, chunks: seq<bytes>)
    requires Replayed(rx, got, early, chunks) && rx.fate == Live && i < |chunks| && i < H32
    requires forall j :: 0 <= j < |early| ==> early[j] < H32
    ensures Replayed(Dispatch(rx, Payload(i, chunks[i]), env), got + {i}, early + [i], chunks)
  {
    DispatchKeeps(rx, got, chunks, i, env);
    var r := Dispatch(rx, Payload(i, chunks[i]), env);
    assert |r.recv| > 0 ==> |r.recv| - 1 in got + {i};
  }

  lemma ReplayStep(rx: Receiver, frames: seq<bytes>, early: seq<nat>, envs: nat -> Env)
    requires |frames| == |early| > 0
    ensures var n := |frames| - 1;
            var r, got := Replay(rx, frames[..n], envs), Opened(rx, frames[..n], early[..n], envs);
            && Replay(rx, frames, envs) == Dispatch(r, frames[n], envs(n))
            && Opened(rx, frames, early, envs) == if r.fate == Live then got + {early[n]} else got
  {
  }

  lemma EarlyPrefix(frames: seq<bytes>, early: seq<nat>, tx: Sender)
    requires EarlyFrames(frames, early, tx) && |frames| > 0
    ensures EarlyFrames(frames[..|frames| - 1], early[..|frames| - 1], tx)
    ensures early[..|frames| - 1] + [early[|frames| - 1]] == early
  {
  }

  lemma {:induction false} ReplayKeeps(rx: Receiver, frames: seq<bytes>, early: seq<nat>, envs: nat -> Env, tx: Sender)
    requires EarlyFrames(frames, early, tx)
    requires rx.fate == Live && rx.recv == [] && RxInv(rx, {}, tx.chunks)
    ensures Replayed(Replay(rx, frames, envs), Opened(rx, frames, early, envs), early, tx.chunks)
  {
    if |frames| > 0 {
      var n := |frames| - 1;
      EarlyPrefix(frames, early, tx);
      ReplayKeeps(rx, frames[..n], early[..n], envs, tx);
      ReplayStep(rx, frames, early, envs);
      var r, got := Replay(rx, frames[..n], envs), Opened(rx, frames[..n], early[..n], envs);
      if r.fate == Live {
        ReplayOne(r, got, early[..n], early[n], envs(n), tx.chunks);
      } else {
        ReplayedMore(r, got, early[..n], early[n], tx.chunks);
      }
    }
  }

  lemma ReplayedMore(rx: Receiver, got: set<nat>, early: seq<nat>, i: nat, chunks: seq<bytes>)
    requires Replayed(rx, got, early, chunks)
    ensures Replayed(rx, got, early + [i], chunks)
  {
  }

  lemma EarlyMore(frames: seq<bytes>, early: seq<nat>, tx: Sender, tx': Sender)
    requires EarlyFrames(frames, early, tx) && tx.chunks <= tx'.chunks && forall i :: tx.Sent(i) ==> tx'.Sent(i)
    ensures EarlyFrames(frames, early, tx')
  {
  }

  lemma WriteKeeps(s: System, p: bytes, maxFrame: nat, conns: seq<nat>)
    requires Inv(s) && maxFrame > STRIP_SEQ_SIZE
    ensures Inv(Apply(s, Write(p, maxFrame, conns)))
  {
    var tx := SendAll(s.tx, Cut(p, maxFrame - STRIP_SEQ_SIZE), conns);
    SendAllKeeps(s.tx, Cut(p, maxFrame - STRIP_SEQ_SIZE), conns);
    MoreKeeps(s, tx);
  }

  lemma MoreKeeps(s: System, tx: Sender)
    requires Inv(s) && tx.Valid() && s.tx.chunks <= tx.chunks && forall i :: s.tx.Sent(i) ==> tx.Sent(i)
    ensures Inv(s.(tx := tx, net := s.net + Fresh(s.tx, tx)))
  {
    MoreChunks(s.rx, s.got, s.tx.chunks, tx.chunks);
    if s.rx.fate == Unopened { EarlyMore(s.rx.pending, s.early, s.tx, tx); }
  }

  /** Numbering more chunks does not disturb the receiver. */
  lemma MoreChunks(rx: Receiver, got: set<nat>, chunks: seq<bytes>, all: seq<bytes>)
    requires RxInv(rx, got, chunks) && chunks <= all
    ensures RxInv(rx, got, all)
  {
    assert all == chunks + all[|chunks|..];
    if rx.fate == Live { TracksMoreChunks(rx.buf, |rx.recv|, got, chunks, all[|chunks|..]); }
    if rx.fate == ClosedByLimit {
      var js :| LaterChunks(rx.tail, js, |rx.recv|, got, chunks);
      assert LaterChunks(rx.tail, js, |rx.recv|, got, all);
    }
  }

  lemma ArriveKeeps(s: System, i: nat, env: Env)
    requires Inv(s) && Enabled(s, Arrive(i, env))
    ensures Inv(Apply(s, Arrive(i, env)))
  {
    assert s.tx.Sent(i);
    if s.rx.fate == Live { DispatchKeeps(s.rx, s.got, s.tx.chunks, i, env); }
  }

  lemma EmptyTracks(chunks: seq<bytes>)
    ensures Tracks(EMPTY, 0, {}, chunks)
  {
  }

  lemma OpenKeeps(s: System, envs: nat -> Env)
    requires Inv(s) && s.rx.fate == Unopened
    ensures Inv(Apply(s, Open(envs)))
  {
    var rx := s.rx.(fate := Live, pending := []);
    EmptyTracks(s.tx.chunks);
    ReplayKeeps(rx, s.rx.pending, s.early, envs, s.tx);
  }

  lemma CloseArrivesKeeps(s: System, env: Env)
    requires Inv(s)
    ensures Inv(Apply(s, CloseArrives(env)))
  {
    if s.rx.fate == Live && s.rx.buf.held == map[] {
      CloseKeeps(s.rx, ClosedByPeer, env.accept, s.got, s.tx.chunks);
    }
  }

  lemma PeerConnDiesKeeps(s: System, env: Env)
    requires Inv(s)
    ensures Inv(Apply(s, PeerConnDies(env)))
  {
    if s.rx.fate == Live { CloseKeeps(s.rx, ClosedByLimit, env.accept, s.got, s.tx.chunks); }
  }

  lemma ConnDiesKeeps(s: System, c: nat)
    requires Inv(s)
    ensures Inv(Apply(s, ConnDies(c)))
  {
  }

  lemma LocalCloseKeeps(s: System)
    requires Inv(s)
    ensures Inv(Apply(s, LocalClose))
  {
  }

  /** Every step of the sender, the network and the receiver keeps the invariant. */
  lemma StepKeeps(s: System, step: Step)
    requires Inv(s) && Enabled(s, step)
    ensures Inv(Apply(s, step))
  {
    match step
    case Write(p, maxFrame, conns) => WriteKeeps(s, p, maxFrame, conns);
    case ConnDies(c) => ConnDiesKeeps(s, c);
    case Arrive(i, env) => ArriveKeeps(s, i, env);
    case Open(envs) => OpenKeeps(s, envs);
    case CloseArrives(env) => CloseArrivesKeeps(s, env);
    case PeerConnDies(env) => PeerConnDiesKeeps(s, env);
    case LocalClose => LocalCloseKeeps(s);
  }

  // ---------------------------------------------------------------- runs

  /** States that each follow from the one before by an enabled step, from the start. */
  ghost predicate IsRun(states: seq<System>, steps: seq<Step>) {
    && |states| == |steps| + 1
    && states[0] == START
    && forall k :: 0 <= k < |steps| ==> Enabled(states[k], steps[k]) && states[k + 1] == Apply(states[k], steps[k])
  }

  lemma {:induction false} RunInv(states: seq<System>, steps: seq<Step>, k: nat)
    requires IsRun(states, steps) && k < |states|
    ensures Inv(states[k])
  {
    if k > 0 {
      RunInv(states, steps, k - 1);
      StepKeeps(states[k - 1], steps[k - 1]);
      assert states[k] == Apply(states[k - 1], steps[k - 1]);
    }
  }

  /**
   * End to end, at every point of every run: the chunks delivered in order are exactly those below
   * the least index not yet dispatched, and as bytes they are a prefix of what Write reported written.
   */
  lemma DeliveredIsPrefix(states: seq<System>, steps: seq<Step>, k: nat)
    requires IsRun(states, steps) && k < |states|
    ensures var s := states[k]; var n := |s.rx.recv|;
            && n <= |s.tx.chunks| && s.rx.recv == s.tx.chunks[..n]
            && n !in s.got && (forall i :: 0 <= i < n ==> i in s.got)
            && Flatten(s.rx.recv) <= s.tx.accepted
  {
    RunInv(states, steps, k);
    PrefixBeforeOrphans(states[k]);
    var s := states[k];
    SentPrefix(s.tx.chunks, s.tx.orphans, |s.rx.recv|);
  }

  /** Nothing from an orphan on is delivered. */
  lemma PrefixBeforeOrphans(s: System)
    requires Inv(s)
    ensures forall o :: o in s.tx.orphans ==> |s.rx.recv| <= o
  {
    forall o | o in s.tx.orphans ensures |s.rx.recv| <= o {
      assert o < |s.rx.recv| ==> o in s.got && s.tx.Sent(o);
    }
  }

  /** A close that the peer asked for adds nothing: all that was dispatched has been delivered in order. */
  lemma PeerCloseAddsNothing(states: seq<System>, steps: seq<Step>, k: nat)
    requires IsRun(states, steps) && k < |states| && states[k].rx.fate == ClosedByPeer
    ensures var s := states[k]; s.rx.tail == [] && forall i :: i in s.got <==> 0 <= i < |s.rx.recv|
  {
    RunInv(states, steps, k);
  }

  /** A close forced by overflow or by the gap timer adds later chunks only, in order, each at most once. */
  lemma LimitCloseAddsLaterChunks(states: seq<System>, steps: seq<Step>, k: nat) returns (js: seq<nat>)
    requires IsRun(states, steps) && k < |states| && states[k].rx.fate == ClosedByLimit
    ensures var s := states[k]; LaterChunks(s.rx.tail, js, |s.rx.recv|, s.got, s.tx.chunks)
  {
    RunInv(states, steps, k);
    var s := states[k];
    js :| LaterChunks(s.rx.tail, js, |s.rx.recv|, s.got, s.tx.chunks);
  }

  /** What the steps of a run say was handed to connection c: the numbers that fell to it in each write, counted from
      its last death on. */
  ghost function HandedSince(states: seq<System>, steps: seq<Step>, k: nat, c: nat): seq<nat>
    requires k <= |steps| < |states|
  {
    if k == 0 then []
    else
      match steps[k - 1]
      case Write(p, maxFrame, conns) =>
        if maxFrame <= STRIP_SEQ_SIZE then []
        else
          HandedSince(states, steps, k - 1, c) +
          HandedNow(Used(Cut(p, maxFrame - STRIP_SEQ_SIZE), conns), |states[k - 1].tx.chunks|, c)
      case ConnDies(d) => if d == c then [] else HandedSince(states, steps, k - 1, c)
      case _ => HandedSince(states, steps, k - 1, c)
  }

  lemma {:induction false} HandedExact(states: seq<System>, steps: seq<Step>, k: nat, c: nat)
    requires IsRun(states, steps) && k < |states|
    ensures states[k].tx.HandedTo(c) == HandedSince(states, steps, k, c)
  {
    if k > 0 {
      HandedExact(states, steps, k - 1, c);
      var s, step := states[k - 1], steps[k - 1];
      assert Enabled(s, step) && states[k] == Apply(s, step);
      if step.Write? { SendAllHands(s.tx, Cut(step.p, step.maxFrame - STRIP_SEQ_SIZE), step.conns, c); }
    }
  }

  /**
   * At every death of a connection in every run: what is resent is the newest 128 of the frames that the writes since
   * its last death gave it, in order; that is all of them if and only if there were no more than 128.
   */
  lemma ReplayExact(states: seq<System>, steps: seq<Step>, k: nat, c: nat)
    requires IsRun(states, steps) && k < |steps| && steps[k] == ConnDies(c)
    ensures var handed := HandedSince(states, steps, k, c);
            && states[k + 1].replays == states[k].replays + [Newest(handed)]
            && (forall i :: i in Newest(handed) ==> i in states[k + 1].net)
            && ((forall i :: i in handed ==> i in Newest(handed)) <==> |handed| <= RING_SIZE)
  {
    RunInv(states, steps, k);
    HandedExact(states, steps, k, c);
    var tx := states[k].tx;
    assert c in tx.handed ==> tx.rings[c] == Newest(tx.handed[c]) && tx.SentInOrder(tx.handed[c]);
    NewestIsAll(tx.HandedTo(c));
  }

  // ---------------------------------------------------------------- when the stream closes

  /** A live stream is within its limit, and waits to be closed only while something is held. */
  ghost predicate Prompt(rx: Receiver) {
    && (rx.fate == Live ==> |rx.buf.held| <= MAX_FRAMES && (rx.closePending ==> rx.buf.held != map[]))
    && (rx.fate == Unopened ==> rx.buf == EMPTY && !rx.closePending)
  }

  lemma DispatchPrompt(rx: Receiver, payload: bytes, env: Env)
    requires Prompt(rx) && rx.fate != Unopened
    ensures Prompt(Dispatch(rx, payload, env)) && Dispatch(rx, payload, env).fate != Unopened
  {
  }

  lemma {:induction false} ReplayPrompt(rx: Receiver, frames: seq<bytes>, envs: nat -> Env)
    requires Prompt(rx) && rx.fate != Unopened
    ensures Prompt(Replay(rx, frames, envs)) && Replay(rx, frames, envs).fate != Unopened
  {
    if |frames| > 0 {
      var n := |frames| - 1;
      ReplayPrompt(rx, frames[..n], envs);
      DispatchPrompt(Replay(rx, frames[..n], envs), frames[n], envs(n));
    }
  }

  lemma StepPrompt(s: System, step: Step)
    requires Prompt(s.rx) && Enabled(s, step)
    ensures Prompt(Apply(s, step).rx)
  {
    match step
    case Open(envs) => ReplayPrompt(s.rx.(fate := Live, pending := []), s.rx.pending, envs);
    case _ =>
  }

  /** At every point of every run a live stream holds at most 4096 chunks, and none once a close is pending and nothing
      is held: a deferred close takes effect in the very dispatch that drains the buffer. */
  lemma {:induction false} LiveIsPrompt(states: seq<System>, steps: seq<Step>, k: nat)
    requires IsRun(states, steps) && k < |states|
    ensures Prompt(states[k].rx)
  {
    if k > 0 {
      LiveIsPrompt(states, steps, k - 1);
      StepPrompt(states[k - 1], steps[k - 1]);
      assert states[k] == Apply(states[k - 1], steps[k - 1]);
    }
  }

  /** The stream has been asked to close. */
  ghost predicate Asked(rx: Receiver) {
    rx.fate != Unopened && (rx.fate == Live ==> rx.closePending)
  }

  lemma {:induction false} AskedFrom(states: seq<System>, steps: seq<Step>, j: nat, k: nat)
    requires IsRun(states, steps) && j < k < |states| && steps[j].CloseArrives? && states[j].rx.fate == Live
    ensures Asked(states[k].rx)
  {
    assert states[k] == Apply(states[k - 1], steps[k - 1]);
    if j < k - 1 { AskedFrom(states, steps, j, k - 1); }
  }

  /** From the arrival of a close frame on, at every point of every run the stream is live only while it holds
      something. */
  lemma CloseTakesEffect(states: seq<System>, steps: seq<Step>, j: nat, k: nat)
    requires IsRun(states, steps) && j < k < |states| && steps[j].CloseArrives? && states[j].rx.fate == Live
    ensures states[k].rx.fate == Live ==> states[k].rx.buf.held != map[]
  {
    AskedFrom(states, steps, j, k);
    LiveIsPrompt(states, steps, k);
  }

  ghost predicate AnyClose(steps: seq<Step>, k: nat)
    requires k <= |steps|
  {
    exists j :: 0 <= j < k && steps[j].CloseArrives?
  }

  lemma {:induction false} UnaskedReplay(rx: Receiver, frames: seq<bytes>, envs: nat -> Env)
    requires !rx.closePending && rx.fate != ClosedByPeer
    ensures var r := Replay(rx, frames, envs); !r.closePending && r.fate != ClosedByPeer
  {
    if |frames| > 0 { UnaskedReplay(rx, frames[..|frames| - 1], envs); }
  }

  /** A stream is closed at the peer's wish only after a close frame has arrived. */
  lemma {:induction false} ClosedOnlyIfAsked(states: seq<System>, steps: seq<Step>, k: nat)
    requires IsRun(states, steps) && k < |states| && !AnyClose(steps, k)
    ensures !states[k].rx.closePending && states[k].rx.fate != ClosedByPeer
  {
    if k > 0 {
      var s, step := states[k - 1], steps[k - 1];
      ClosedOnlyIfAsked(states, steps, k - 1);
      assert states[k] == Apply(s, step);
      assert !step.CloseArrives?;
      if step.Open? { UnaskedReplay(s.rx.(fate := Live, pending := []), s.rx.pending, step.envs); }
    }
  }

  /** More than five seconds, in nanoseconds, have passed since the timer was started. */
  ghost predicate FiveSeconds(buf: Reorder, later: int) {
    buf.held != map[] && buf.gapSince.Some? && later > buf.gapSince.value + 5_000_000_000
  }

  /** A dispatch closes a live stream for its limits exactly when more than 4096 chunks are held or the timer has run
      out; so does the death of a connection, for the timer. */
  lemma LimitsEnforced(states: seq<System>, steps: seq<Step>, k: nat)
    requires IsRun(states, steps) && k < |steps| && states[k].rx.fate == Live
    ensures var s, step := states[k], steps[k];
            && (step.Arrive? ==>
                  && step.index < |s.tx.chunks|
                  && var buf := Insert(s.rx.buf, step.index % M32, s.tx.chunks[step.index], step.env.now).0;
                     states[k + 1].rx.fate == ClosedByLimit <==> |buf.held| > 4096 || FiveSeconds(buf, step.env.later))
            && (step.PeerConnDies? ==>
                  (states[k + 1].rx.fate == ClosedByLimit <==> FiveSeconds(s.rx.buf, step.deathEnv.later)))
  {
    RunInv(states, steps, k);
    assert Enabled(states[k], steps[k]) && states[k + 1] == Apply(states[k], steps[k]);
    var s, step := states[k], steps[k];
    if step.Arrive? {
      assert s.tx.Sent(step.index);
      PayloadParts(step.index, s.tx.chunks[step.index]);
    }
  }

  /** Once closed, in whatever way, the stream stays closed and delivers nothing more. */
  lemma {:induction false} OnceClosed(states: seq<System>, steps: seq<Step>, j: nat, k: nat)
    requires IsRun(states, steps) && j <= k < |states| && states[j].rx.fate != Unopened && states[j].rx.fate != Live
    ensures var a, b := states[j].rx, states[k].rx; b.fate == a.fate && b.recv == a.recv && b.tail == a.tail
  {
    if j < k {
      OnceClosed(states, steps, j, k - 1);
      assert states[k] == Apply(states[k - 1], steps[k - 1]);
    }
  }

  /** A local close ends a live stream at once and for good, with what has been delivered. */
  lemma LocalCloseEnds(states: seq<System>, steps: seq<Step>, j: nat, k: nat)
    requires IsRun(states, steps) && j < k < |states| && steps[j] == LocalClose && states[j].rx.fate == Live
    ensures states[k].rx.fate == ClosedLocally && states[k].rx.recv == states[j].rx.recv && states[k].rx.tail == []
  {
    RunInv(states, steps, j);
    assert states[j + 1] == Apply(states[j], steps[j]);
    OnceClosed(states, steps, j + 1, k);
  }

  /** When a live stream is closed for its limits and the channel takes everything, nothing that was received is lost. */
  lemma ClosingLosesNothing(states: seq<System>, steps: seq<Step>, k: nat, accept: seq<bool>)
    requires IsRun(states, steps) && k < |states| && states[k].rx.fate == Live
    requires |accept| >= |FlushData(states[k].rx.buf)| && forall i :: 0 <= i < |accept| ==> accept[i]
    ensures var s := states[k]; var tail := CloseStream(s.rx, ClosedByLimit, accept).tail;
            forall i :: i in s.got && i >= |s.rx.recv| ==> i < |s.tx.chunks| && s.tx.chunks[i] in tail
  {
    RunInv(states, steps, k);
    var s := states[k];
    FlushTracks(s.rx.buf, |s.rx.recv|, s.got, s.tx.chunks);
    forall i | i in s.got && i >= |s.rx.recv|
      ensures i < |s.tx.chunks| && s.tx.chunks[i] in CloseStream(s.rx, ClosedByLimit, accept).tail
    {
      var m := FlushCovers(s.rx.buf, |s.rx.recv|, s.got, s.tx.chunks, i);
      KeptTaken(FlushData(s.rx.buf), accept, m);
    }
  }

  // ---------------------------------------------------------------- writes that find no connection

  /** A write that found no connection left a number unsent: delivery never gets past it. */
  lemma OrphanStopsDelivery(states: seq<System>, steps: seq<Step>, k: nat, o: nat)
    requires IsRun(states, steps) && k < |states| && o in states[k].tx.orphans
    ensures |states[k].rx.recv| <= o
  {
    RunInv(states, steps, k);
    PrefixBeforeOrphans(states[k]);
  }

  /** No chunk was sent after one that found no connection. */
  ghost predicate NothingSentAfterOrphan(tx: Sender) {
    forall o, i :: o in tx.orphans && o < i < |tx.chunks| ==> i in tx.orphans
  }

  /**
   * When nothing is lost, exactly when all that Write reported written is delivered: at every point of every run
   * in which every chunk sent has been dispatched, if and only if nothing was sent after a write that failed for
   * want of a connection.
   */
  lemma AllDeliveredExactly(states: seq<System>, steps: seq<Step>, k: nat)
    requires IsRun(states, steps) && k < |states|
    requires forall i :: states[k].tx.Sent(i) ==> i in states[k].got
    ensures var s := states[k]; Flatten(s.rx.recv) == s.tx.accepted <==> NothingSentAfterOrphan(s.tx)
  {
    RunInv(states, steps, k);
    var s := states[k];
    var n := |s.rx.recv|;
    PrefixBeforeOrphans(s);
    SentPrefix(s.tx.chunks, s.tx.orphans, n);
    assert n < |s.tx.chunks| ==> n in s.tx.orphans by {
      assert s.tx.Sent(n) ==> n in s.got;
    }
  }

  lemma CutOne(x: byte)
    ensures Cut([x], 1) == [[x]]
  {
  }

  lemma SendUnconnected(tx: Sender, x: byte)
    ensures SendAll(tx, Cut([x], 1), []) == SendChunk(tx, [x], None)
  {
    CutOne(x);
  }

  lemma SendConnected(tx: Sender, x: byte, c: nat)
    ensures SendAll(tx, Cut([x], 1), [c]) == SendChunk(tx, [x], Some(c))
  {
    CutOne(x);
    var r := SendChunk(tx, [x], Some(c));
    assert SendAll(r, [], []) == r;
    assert [[x]][1..] == [] && [c][1..] == [];
  }

  /** The second write is accepted although the number before it was never sent. */
  lemma StallSteps(envs: nat -> Env) returns (s1: System, s2: System, s3: System)
    ensures Apply(START, Open(envs)) == s1 && Apply(s1, Write([7], 5, [])) == s2 && Apply(s2, Write([9], 5, [0])) == s3
    ensures s3.tx.chunks == [[7], [9]] && s3.tx.orphans == {0} && s3.tx.accepted == [9]
    ensures s3.net == {1} && s3.rx.fate == Live && s3.rx.recv == []
  {
    s1 := Apply(START, Open(envs));
    assert s1.tx == START.tx && s1.net == {} && s1.rx.fate == Live && s1.rx.recv == [];
    SendUnconnected(s1.tx, 7);
    s2 := s1.(tx := SendChunk(s1.tx, [7], None));
    assert Fresh(s1.tx, s2.tx) == {};
    SendConnected(s2.tx, 9, 0);
    s3 := s2.(tx := SendChunk(s2.tx, [9], Some(0)), net := {1});
    assert Fresh(s2.tx, s3.tx) == {1};
  }

  /** A failing run: a write finds no connection, the next one is accepted, its chunk arrives, and its byte is never
      delivered. */
  lemma StalledRun(env: Env, envs: nat -> Env) returns (states: seq<System>, steps: seq<Step>)
    ensures IsRun(states, steps) && |steps| == 4
    ensures var s := states[4];
            && (forall i :: s.tx.Sent(i) ==> i in s.got)
            && s.tx.accepted == [9] && s.rx.recv == []
  {
    var s1, s2, s3 := StallSteps(envs);
    var s4 := Apply(s3, Arrive(1, env));
    ArriveMeans(s3, 1, env);
    var a, b, c, d := Open(envs), Write([7], 5, []), Write([9], 5, [0]), Arrive(1, env);
    RunOfFour(s1, s2, s3, s4, a, b, c, d);
    states, steps := [START, s1, s2, s3, s4], [a, b, c, d];
    Stalled(states, steps, 4);
  }

  lemma Stalled(states: seq<System>, steps: seq<Step>, k: nat)
    requires IsRun(states, steps) && k < |states|
    requires |states[k].tx.chunks| == 2 && states[k].tx.orphans == {0} && 1 in states[k].got
    ensures states[k].rx.recv == [] && forall i :: states[k].tx.Sent(i) ==> i in states[k].got
  {
    OrphanStopsDelivery(states, steps, k, 0);
  }

  lemma ArriveMeans(s: System, i: nat, env: Env)
    requires Enabled(s, Arrive(i, env)) && s.rx.fate == Live
    ensures Apply(s, Arrive(i, env)).tx == s.tx && Apply(s, Arrive(i, env)).got == s.got + {i}
  {
  }

  lemma RunOfFour(s1: System, s2: System, s3: System, s4: System, a: Step, b: Step, c: Step, d: Step)
    requires Enabled(START, a) && s1 == Apply(START, a) && Enabled(s1, b) && s2 == Apply(s1, b)
    requires Enabled(s2, c) && s3 == Apply(s2, c) && Enabled(s3, d) && s4 == Apply(s3, d)
    ensures IsRun([START, s1, s2, s3, s4], [a, b, c, d])
  {
  }
}
