/** The reorder buffer seen through unbounded chunk indices. */
module ReorderRefinement {
  import opened Bytes
  import opened Serial
  import opened ReorderSpec

  /**
   * The buffer with cursor index `cursor` stands for the set `got` of chunk indices received so far:
   * everything below the cursor has been received, the cursor itself has not, and what was received
   * beyond it is held under its wrapped number.
   */
  ghost predicate Tracks(r: Reorder, cursor: nat, got: set<nat>, chunks: seq<bytes>) {
    && r.Valid()
    && cursor !in got
    && Holds(r.nextSeq, r.held, cursor, got, chunks)
  }

  ghost predicate Holds(next: uint32, held: map<uint32, bytes>, cursor: nat, got: set<nat>, chunks: seq<bytes>) {
    && next == cursor % M32
    && (forall i :: 0 <= i < cursor ==> i in got)
    && (forall i :: i in got ==> i < |chunks|)
    && (forall i {:trigger HeldAt(held, cursor, i, chunks)} :: i in got && i >= cursor ==> HeldAt(held, cursor, i, chunks))
    && (forall s {:trigger Received(cursor, got, s)} :: s in held ==> Received(cursor, got, s))
  }

  /** The held number s stands for a received index less than half a turn past the cursor. */
  ghost predicate Received(cursor: nat, got: set<nat>, s: uint32) {
    Near32(cursor % M32, s) && cursor + Ahead32(cursor % M32, s) in got
  }

  ghost predicate HeldAt(held: map<uint32, bytes>, cursor: nat, i: nat, chunks: seq<bytes>)
    requires i < |chunks|
  {
    i < cursor + H32 && i % M32 in held && held[i % M32] == chunks[i]
  }

  /** A drain emits exactly the chunks from the cursor to the least index not received. */
  lemma {:induction false} DrainTracks(next: uint32, held: map<uint32, bytes>, cursor: nat, got: set<nat>,
                                       chunks: seq<bytes>)
    requires Holds(next, held, cursor, got, chunks)
    ensures var (n, rest, out) := Drain(next, held);
            var c := cursor + |out|;
            && c <= |chunks| && out == chunks[cursor..c]
            && c !in got && Holds(n, rest, c, got, chunks)
    decreases |held|
  {
    if next in held {
      StepTracks(next, held, cursor, got, chunks);
      DrainTracks((next + 1) % M32, held - {next}, cursor + 1, got, chunks);
      JoinSlices(chunks, cursor, cursor + 1 + |Drain((next + 1) % M32, held - {next}).2|);
    } else {
      StoppedTracks(next, held, cursor, got, chunks);
    }
  }

  lemma JoinSlices(chunks: seq<bytes>, lo: nat, hi: nat)
    requires lo < hi <= |chunks|
    ensures chunks[lo..hi] == [chunks[lo]] + chunks[lo + 1..hi]
  {
  }

  lemma StoppedTracks(next: uint32, held: map<uint32, bytes>, cursor: nat, got: set<nat>, chunks: seq<bytes>)
    requires Holds(next, held, cursor, got, chunks) && next !in held
    ensures cursor <= |chunks| && cursor !in got
  {
    assert cursor > 0 ==> cursor - 1 in got;
    assert cursor in got ==> HeldAt(held, cursor, cursor, chunks);
  }

  lemma ReceivedStep(cursor: nat, got: set<nat>, s: uint32)
    requires Received(cursor, got, s) && s != cursor % M32
    ensures Received(cursor + 1, got, s)
  {
    AheadStep(cursor % M32, s);
    assert (cursor % M32 + 1) % M32 == (cursor + 1) % M32;
  }

  lemma StepTracks(next: uint32, held: map<uint32, bytes>, cursor: nat, got: set<nat>, chunks: seq<bytes>)
    requires Holds(next, held, cursor, got, chunks) && next in held
    ensures cursor in got && held[next] == chunks[cursor]
    ensures Holds((next + 1) % M32, held - {next}, cursor + 1, got, chunks)
  {
    assert Received(cursor, got, next);
    assert HeldAt(held, cursor, cursor, chunks);
    var held' := held - {next};
    forall s | s in held' ensures Received(cursor + 1, got, s) {
      assert Received(cursor, got, s);
      ReceivedStep(cursor, got, s);
    }
    forall i | i in got && i >= cursor + 1 ensures HeldAt(held', cursor + 1, i, chunks) {
      assert HeldAt(held, cursor, i, chunks);
      HeldStep(held, cursor, i, chunks);
    }
  }

  lemma HeldStep(held: map<uint32, bytes>, cursor: nat, i: nat, chunks: seq<bytes>)
    requires cursor < i < |chunks| && HeldAt(held, cursor, i, chunks)
    ensures HeldAt(held - {cursor % M32}, cursor + 1, i, chunks)
  {
    AheadOfIndex(cursor, i);
  }

  /**
   * One arrival, any order, duplicate or not: the buffer goes on to stand for the enlarged set, and
   * emits exactly the chunks by which the contiguous prefix grew. The premise is that the index lies
   * within half a turn of the cursor.
   */
  lemma InsertTracks(r: Reorder, cursor: nat, got: set<nat>, chunks: seq<bytes>, i: nat, now: int)
    requires Tracks(r, cursor, got, chunks) && i < |chunks| && Window32(cursor, i)
    ensures var (r', out) := Insert(r, i % M32, chunks[i], now);
            var c := cursor + |out|;
            && c <= |chunks| && out == chunks[cursor..c]
            && Tracks(r', c, got + {i}, chunks)
  {
    var s := i % M32;
    LessExact(i, cursor);
    InsertKeepsValid(r, s, chunks[i], now);
    assert cursor > 0 ==> cursor - 1 in got;
    if i < cursor {
      assert got + {i} == got;
    } else if s in r.held {
      AheadOfIndex(cursor, i);
      assert Received(cursor, got, s);
      assert got + {i} == got;
    } else {
      AcceptTracks(r, cursor, got, chunks, i);
      DrainTracks(r.nextSeq, r.held[s := chunks[i]], cursor, got + {i}, chunks);
    }
  }

  lemma HeldAfter(held: map<uint32, bytes>, cursor: nat, i: nat, j: nat, chunks: seq<bytes>)
    requires cursor <= i < |chunks| && i < cursor + H32 && cursor <= j < |chunks|
    requires j == i || HeldAt(held, cursor, j, chunks)
    ensures HeldAt(held[i % M32 := chunks[i]], cursor, j, chunks)
  {
    AheadOfIndex(cursor, i);
    if j != i { AheadOfIndex(cursor, j); }
  }

  lemma ReceivedAfter(cursor: nat, got: set<nat>, i: nat, s: uint32)
    requires cursor <= i < cursor + H32 && (s == i % M32 || Received(cursor, got, s))
    ensures Received(cursor, got + {i}, s)
  {
    AheadOfIndex(cursor, i);
  }

  lemma AcceptTracks(r: Reorder, cursor: nat, got: set<nat>, chunks: seq<bytes>, i: nat)
    requires Tracks(r, cursor, got, chunks) && cursor <= i < |chunks| && i < cursor + H32
    ensures Holds(r.nextSeq, r.held[i % M32 := chunks[i]], cursor, got + {i}, chunks)
  {
    var held, got' := r.held[i % M32 := chunks[i]], got + {i};
    forall j | j in got' && j >= cursor ensures HeldAt(held, cursor, j, chunks) {
      assert j != i ==> HeldAt(r.held, cursor, j, chunks);
      HeldAfter(r.held, cursor, i, j, chunks);
    }
    forall s | s in held ensures Received(cursor, got', s) {
      assert s != i % M32 ==> Received(cursor, got, s);
      ReceivedAfter(cursor, got, i, s);
    }
  }

  /** More chunks may be numbered while the old ones are in flight. */
  lemma TracksMoreChunks(r: Reorder, cursor: nat, got: set<nat>, chunks: seq<bytes>, more: seq<bytes>)
    requires Tracks(r, cursor, got, chunks)
    ensures Tracks(r, cursor, got, chunks + more)
  {
    forall i | i in got && i >= cursor ensures HeldAt(r.held, cursor, i, chunks + more) {
      assert HeldAt(r.held, cursor, i, chunks);
    }
  }
}

/** Sending side of a striped stream: cutting, numbering, retransmit rings. */
module StripeSending {
  import opened Bytes
  import opened RingSpec

  const STRIP_SEQ_SIZE: nat := 4

  ghost predicate AllFilled(chunks: seq<bytes>) {
    forall i :: 0 <= i < |chunks| ==> chunks[i] != []
  }

  /** The chunks into which Write cuts its argument. */
  function Cut(p: bytes, m: nat): (pieces: seq<bytes>)
    requires m > 0
    ensures AllFilled(pieces) && forall i :: 0 <= i < |pieces| ==> |pieces[i]| <= m
    ensures forall i :: 0 <= i < |pieces| - 1 ==> |pieces[i]| == m
  {
    if |p| == 0 then []
    else if |p| <= m then [p]
    else [p[..m]] + Cut(p[m..], m)
  }

  lemma {:induction false} CutFlattens(p: bytes, m: nat)
    requires m > 0
    ensures Flatten(Cut(p, m)) == p
  {
    if |p| == 0 {
    } else if |p| <= m {
      FlattenCons(p, []);
    } else {
      FlattenCons(p[..m], Cut(p[m..], m));
      CutFlattens(p[m..], m);
      assert p[..m] + p[m..] == p;
    }
  }

  /** The frame payload of a striped chunk: its index modulo 2^32, then the data. */
  function Payload(i: nat, chunk: bytes): (r: bytes) {
    PutU32(i % M32) + chunk
  }

  lemma PayloadParts(i: nat, chunk: bytes)
    ensures var p := Payload(i, chunk);
            |p| == 4 + |chunk| && U32(p[..4]) == i % M32 && p[4..] == chunk
  {
    U32RoundTrip(i % M32);
    assert Payload(i, chunk)[..4] == PutU32(i % M32);
  }

  /**
   * chunks: every chunk that was ever given a number, in order of the numbers;
   * orphans: numbers consumed by a chunk for which no connection was found, so never sent;
   * accepted: the bytes that Write reported as written;
   * rings: the numbers of the frames that each connection keeps;
   * handed: the numbers of all frames handed to each connection since it was last known to have died.
   */
  datatype Sender = Sender(chunks: seq<bytes>, orphans: set<nat>, accepted: bytes, rings: map<nat, seq<nat>>,
                           handed: map<nat, seq<nat>>) {
    ghost predicate Sent(i: nat) {
      i < |chunks| && i !in orphans
    }

    ghost predicate SentInOrder(ns: seq<nat>) {
      (forall k :: 0 <= k < |ns| ==> Sent(ns[k])) && forall j, k :: 0 <= j < k < |ns| ==> ns[j] < ns[k]
    }

    function HandedTo(c: nat): seq<nat> {
      if c in handed then handed[c] else []
    }

    /** The connection has died and its ring has been drained. */
    function Without(c: nat): Sender {
      this.(rings := rings - {c}, handed := handed - {c})
    }

    ghost predicate Valid() {
      && (forall o :: o in orphans ==> o < |chunks|)
      && rings.Keys == handed.Keys
      && (forall c :: c in handed ==> rings[c] == Newest(handed[c]) && SentInOrder(handed[c]))
      && AllFilled(chunks)
      && accepted == SentBytes(chunks, orphans)
    }
  }

  /** The bytes of the chunks that were sent. */
  function SentBytes(chunks: seq<bytes>, orphans: set<nat>): bytes {
    if |chunks| == 0 then []
    else
      var n := |chunks| - 1;
      SentBytes(chunks[..n], orphans) + if n in orphans then [] else chunks[n]
  }

  lemma {:induction false} SentBytesAgree(chunks: seq<bytes>, a: set<nat>, b: set<nat>)
    requires forall i :: 0 <= i < |chunks| ==> (i in a <==> i in b)
    ensures SentBytes(chunks, a) == SentBytes(chunks, b)
  {
    if |chunks| > 0 { SentBytesAgree(chunks[..|chunks| - 1], a, b); }
  }

  /** Chunks before the first orphan make up a prefix of what was sent, all of it exactly when no chunk after them
      was sent. */
  lemma {:induction false} SentPrefix(chunks: seq<bytes>, orphans: set<nat>, k: nat)
    requires k <= |chunks| && AllFilled(chunks)
    requires forall o :: o in orphans ==> k <= o
    ensures Flatten(chunks[..k]) <= SentBytes(chunks, orphans)
    ensures Flatten(chunks[..k]) == SentBytes(chunks, orphans) <==> forall i :: k <= i < |chunks| ==> i in orphans
  {
    var n := |chunks| - 1;
    if k <= n {
      SentPrefix(chunks[..n], orphans, k);
      assert chunks[..n][..k] == chunks[..k];
      if n !in orphans { assert |SentBytes(chunks, orphans)| > |SentBytes(chunks[..n], orphans)|; }
    } else {
      NoneOrphaned(chunks, orphans);
      assert chunks[..k] == chunks;
    }
  }

  lemma {:induction false} NoneOrphaned(chunks: seq<bytes>, orphans: set<nat>)
    requires forall o :: o in orphans ==> |chunks| <= o
    ensures SentBytes(chunks, orphans) == Flatten(chunks)
  {
    if |chunks| > 0 { NoneOrphaned(chunks[..|chunks| - 1], orphans); }
  }

  /** The newest 128. */
  function Newest(ns: seq<nat>): (r: seq<nat>)
    ensures |ns| <= RING_SIZE ==> r == ns
  {
    ns[if |ns| > RING_SIZE then |ns| - RING_SIZE else 0..]
  }

  lemma NewestPush(ns: seq<nat>, i: nat)
    ensures PushDrop(Newest(ns), i, RING_SIZE) == Newest(ns + [i])
  {
  }

  /** Numbers in increasing order are all among the newest 128 exactly when there are no more. */
  lemma NewestIsAll(ns: seq<nat>)
    requires forall j, k :: 0 <= j < k < |ns| ==> ns[j] < ns[k]
    ensures (forall i :: i in ns ==> i in Newest(ns)) <==> |ns| <= RING_SIZE
  {
    if |ns| > RING_SIZE {
      var first, rest := ns[0], Newest(ns);
      assert first in ns;
      assert forall k :: 0 <= k < |rest| ==> rest[k] == ns[|ns| - RING_SIZE + k] > first;
    }
  }

  function PushOn(rings: map<nat, seq<nat>>, c: nat, i: nat): (r: map<nat, seq<nat>>) {
    rings[c := PushDrop(if c in rings then rings[c] else [], i, RING_SIZE)]
  }

  /** One turn of Write's loop: the number is taken before a connection is looked for. */
  function SendChunk(tx: Sender, chunk: bytes, conn: Option<nat>): (r: Sender) {
    var i := |tx.chunks|;
    match conn
    case None => tx.(chunks := tx.chunks + [chunk], orphans := tx.orphans + {i})
    case Some(c) => tx.(chunks := tx.chunks + [chunk],
                        accepted := tx.accepted + chunk,
                        rings := PushOn(tx.rings, c, i),
                        handed := tx.handed[c := tx.HandedTo(c) + [i]])
  }

  /** The rest of Write's loop over the remaining pieces; conns are the connections selectConn finds, then none. */
  function SendAll(tx: Sender, pieces: seq<bytes>, conns: seq<nat>): (r: Sender)
    decreases |pieces|
  {
    if |pieces| == 0 then tx
    else if |conns| == 0 then SendChunk(tx, pieces[0], None)
    else SendAll(SendChunk(tx, pieces[0], Some(conns[0])), pieces[1..], conns[1..])
  }

  lemma SendChunkKeeps(tx: Sender, chunk: bytes, conn: Option<nat>)
    requires tx.Valid() && chunk != []
    ensures SendChunk(tx, chunk, conn).Valid()
    ensures forall i :: tx.Sent(i) ==> SendChunk(tx, chunk, conn).Sent(i)
  {
    var r := SendChunk(tx, chunk, conn);
    assert r.chunks[..|tx.chunks|] == tx.chunks;
    SentBytesAgree(tx.chunks, tx.orphans, r.orphans);
    forall c | c in r.handed ensures r.rings[c] == Newest(r.handed[c]) && r.SentInOrder(r.handed[c]) {
      HandedKeeps(tx, chunk, conn, c);
    }
  }

  /** What was handed before is still sent, and the new number comes after it. */
  lemma InOrderMore(tx: Sender, chunk: bytes, conn: Option<nat>, ns: seq<nat>)
    requires tx.SentInOrder(ns) && forall o :: o in tx.orphans ==> o < |tx.chunks|
    ensures SendChunk(tx, chunk, conn).SentInOrder(ns)
    ensures conn.Some? ==> SendChunk(tx, chunk, conn).SentInOrder(ns + [|tx.chunks|])
  {
    var r := SendChunk(tx, chunk, conn);
    assert forall i :: tx.Sent(i) ==> r.Sent(i);
  }

  lemma HandedKeeps(tx: Sender, chunk: bytes, conn: Option<nat>, c: nat)
    requires tx.Valid() && c in SendChunk(tx, chunk, conn).handed
    ensures var r := SendChunk(tx, chunk, conn);
            c in r.rings && r.rings[c] == Newest(r.handed[c]) && r.SentInOrder(r.handed[c])
  {
    var before := tx.HandedTo(c);
    assert tx.SentInOrder(before) && (c in tx.handed ==> tx.rings[c] == Newest(before));
    InOrderMore(tx, chunk, conn, before);
    if conn == Some(c) { NewestPush(before, |tx.chunks|); }
  }

  lemma {:induction false} SendAllKeeps(tx: Sender, pieces: seq<bytes>, conns: seq<nat>)
    requires tx.Valid() && AllFilled(pieces)
    ensures var r := SendAll(tx, pieces, conns);
            r.Valid() && tx.chunks <= r.chunks && forall i :: tx.Sent(i) ==> r.Sent(i)
    decreases |pieces|
  {
    if |pieces| == 0 {
    } else if |conns| == 0 {
      SendChunkKeeps(tx, pieces[0], None);
    } else {
      SendChunkKeeps(tx, pieces[0], Some(conns[0]));
      SendAllKeeps(SendChunk(tx, pieces[0], Some(conns[0])), pieces[1..], conns[1..]);
    }
  }

  /** Of the numbers from n on, handed in turn to the connections conns, those that connection c gets. */
  ghost function HandedNow(conns: seq<nat>, n: nat, c: nat): seq<nat> {
    if |conns| == 0 then []
    else
      var m := |conns| - 1;
      HandedNow(conns[..m], n, c) + if conns[m] == c then [n + m] else []
  }

  lemma {:induction false} HandedNowFirst(conns: seq<nat>, n: nat, c: nat)
    requires |conns| > 0
    ensures HandedNow(conns, n, c) == (if conns[0] == c then [n] else []) + HandedNow(conns[1..], n + 1, c)
  {
    var m := |conns| - 1;
    if m > 0 {
      HandedNowFirst(conns[..m], n, c);
      assert conns[..m][1..] == conns[1..][..m - 1];
    } else {
      assert conns[..0] == [] && conns[1..] == [];
    }
  }

  /** The connections that a write makes use of. */
  function Used(pieces: seq<bytes>, conns: seq<nat>): seq<nat> {
    if |conns| > |pieces| then conns[..|pieces|] else conns
  }

  lemma UsedRest(pieces: seq<bytes>, conns: seq<nat>)
    requires |pieces| > 0 && |conns| > 0
    ensures |Used(pieces, conns)| > 0 && Used(pieces, conns)[0] == conns[0]
    ensures Used(pieces, conns)[1..] == Used(pieces[1..], conns[1..])
  {
  }

  lemma HandedByOne(tx: Sender, chunk: bytes, d: nat, c: nat)
    ensures SendChunk(tx, chunk, Some(d)).HandedTo(c) == tx.HandedTo(c) + if d == c then [|tx.chunks|] else []
  {
  }

  /** A write hands each chunk, with the next number, to the connection found for it and to no other. */
  lemma {:induction false} SendAllHands(tx: Sender, pieces: seq<bytes>, conns: seq<nat>, c: nat)
    ensures SendAll(tx, pieces, conns).HandedTo(c) == tx.HandedTo(c) + HandedNow(Used(pieces, conns), |tx.chunks|, c)
    decreases |pieces|
  {
    if |pieces| > 0 && |conns| > 0 {
      var d, n := conns[0], |tx.chunks|;
      var next := SendChunk(tx, pieces[0], Some(d));
      SendAllHands(next, pieces[1..], conns[1..], c);
      UsedRest(pieces, conns);
      HandedNowFirst(Used(pieces, conns), n, c);
      HandedByOne(tx, pieces[0], d, c);
    }
  }

  /** With a connection for every piece, a write numbers exactly its pieces and accepts all its bytes. */
  lemma {:induction false} SendAllComplete(tx: Sender, pieces: seq<bytes>, conns: seq<nat>)
    requires |conns| >= |pieces|
    ensures var r := SendAll(tx, pieces, conns);
            && r.chunks == tx.chunks + pieces
            && r.orphans == tx.orphans
            && r.accepted == tx.accepted + Flatten(pieces)
    decreases |pieces|
  {
    if |pieces| > 0 {
      SendAllComplete(SendChunk(tx, pieces[0], Some(conns[0])), pieces[1..], conns[1..]);
      FlattenCons(pieces[0], pieces[1..]);
      assert pieces == [pieces[0]] + pieces[1..];
    }
  }
}

/** The sending stream as the program keeps it. */
module StripeWriters {
  import opened Bytes
  import opened RingSpec
  import opened StripeSending

  /** Room for data in a frame whose payload begins with the chunk number. */
  function PieceSize(maxFrame: nat): (m: nat)
    requires STRIP_SEQ_SIZE < maxFrame
    ensures 0 < m && m + STRIP_SEQ_SIZE == maxFrame
  {
    maxFrame - STRIP_SEQ_SIZE
  }

  function Head(p: bytes, m: nat): (c: bytes)
    requires m > 0 && |p| > 0
    ensures 0 < |c| <= |p| && c == p[..|c|]
  {
    if |p| > m then p[..m] else p
  }

  /** One turn of the loop takes the head piece and leaves the pieces of the rest. */
  lemma WriteStep(tx: Sender, p: bytes, m: nat, conns: seq<nat>)
    requires m > 0 && |p| > 0
    ensures var c := Head(p, m); var rest := p[|c|..];
            && |Cut(p, m)| == 1 + |Cut(rest, m)|
            && SendAll(tx, Cut(p, m), conns) ==
               if |conns| == 0 then SendChunk(tx, c, None)
               else SendAll(SendChunk(tx, c, Some(conns[0])), Cut(rest, m), conns[1..])
  {
    var c := Head(p, m);
    assert Cut(p, m) == [c] + Cut(p[|c|..], m);
  }

  lemma JoinPrefix(a: bytes, p: bytes, k: nat, n: nat)
    requires k + n <= |p|
    ensures (a + p[..k]) + p[k..][..n] == a + p[..k + n]
  {
    assert p[..k] + p[k..][..n] == p[..k + n];
  }

  /** The loop is on its way to the goal, or has stopped there for want of a connection; spare: connections in
      excess of pieces; size: bytes accepted so far. */
  ghost predicate OnCourse(tx: Sender, rest: bytes, m: nat, left: seq<nat>, goal: Sender, spare: int, size: nat, ok: bool)
    requires m > 0
  {
    && |tx.accepted| == size
    && if ok then SendAll(tx, Cut(rest, m), left) == goal && |left| - |Cut(rest, m)| == spare
       else tx == goal && spare < 0
  }

  lemma CourseStep(tx: Sender, rest: bytes, m: nat, left: seq<nat>, goal: Sender, spare: int, size: nat)
    requires m > 0 && |rest| > 0 && OnCourse(tx, rest, m, left, goal, spare, size, true)
    ensures var c := Head(rest, m);
            if |left| == 0 then OnCourse(SendChunk(tx, c, None), rest, m, left, goal, spare, size, false)
            else OnCourse(SendChunk(tx, c, Some(left[0])), rest[|c|..], m, left[1..], goal, spare, size + |c|, true)
  {
    WriteStep(tx, rest, m, left);
  }

  /** The frames that left between two states: one for each number taken, except one that found no connection. */
  ghost predicate FramesLeft(start: Sender, tx: Sender, frames: seq<bytes>, ok: bool) {
    && start.chunks <= tx.chunks
    && |tx.chunks| == |start.chunks| + |frames| + (if ok then 0 else 1)
    && forall j :: 0 <= j < |frames| ==> frames[j] == Payload(|start.chunks| + j, tx.chunks[|start.chunks| + j])
  }

  lemma FrameLeaves(start: Sender, tx: Sender, frames: seq<bytes>, chunk: bytes, conn: Option<nat>)
    requires FramesLeft(start, tx, frames, true)
    ensures var left := if conn.None? then frames else frames + [Payload(|tx.chunks|, chunk)];
            FramesLeft(start, SendChunk(tx, chunk, conn), left, conn.Some?)
  {
  }

  /** The outcome of a write: n bytes reported, without error exactly when there were connections enough. */
  ghost predicate Written(start: Sender, p: bytes, m: nat, conns: seq<nat>, tx: Sender, n: nat, ok: bool)
    requires m > 0
  {
    && tx == SendAll(start, Cut(p, m), conns)
    && n <= |p| && tx.accepted == start.accepted + p[..n]
    && (ok <==> |conns| >= |Cut(p, m)|)
    && (ok ==> n == |p|)
  }

  lemma CourseEnds(start: Sender, p: bytes, m: nat, conns: seq<nat>, tx: Sender, rest: bytes, left: seq<nat>, n: nat,
                   ok: bool)
    requires m > 0 && (ok ==> rest == [])
    requires OnCourse(tx, rest, m, left, SendAll(start, Cut(p, m), conns), |conns| - |Cut(p, m)|, |start.accepted| + n, ok)
    ensures Written(start, p, m, conns, tx, n, ok)
  {
    var k := AcceptedPrefix(start, p, m, conns);
  }

  /** What a write accepts is a prefix of its argument, all of it when there are connections enough. */
  lemma {:induction false} AcceptedPrefix(tx: Sender, p: bytes, m: nat, conns: seq<nat>) returns (n: nat)
    requires m > 0
    ensures n <= |p| && SendAll(tx, Cut(p, m), conns).accepted == tx.accepted + p[..n]
    ensures |conns| >= |Cut(p, m)| ==> n == |p|
    decreases |p|
  {
    n := 0;
    if |p| > 0 {
      WriteStep(tx, p, m, conns);
      if |conns| > 0 {
        var k := |Head(p, m)|;
        n := AcceptedPrefix(SendChunk(tx, Head(p, m), Some(conns[0])), p[k..], m, conns[1..]);
        JoinPrefix(tx.accepted, p, k, n);
        n := k + n;
      }
    }
  }

  /** The frames in the rings are the encodings of the chunks whose indices the model records. */
  ghost predicate RingsMatch(rings: map<nat, seq<bytes>>, tx: Sender) {
    && rings.Keys == tx.rings.Keys
    && forall c :: c in rings ==> FramesOf(rings[c], tx.rings[c], tx.chunks)
  }

  ghost predicate FramesOf(frames: seq<bytes>, indices: seq<nat>, chunks: seq<bytes>) {
    && |frames| == |indices|
    && forall k :: 0 <= k < |frames| ==> indices[k] < |chunks| && frames[k] == Payload(indices[k], chunks[indices[k]])
  }

  lemma FramesOfMore(frames: seq<bytes>, indices: seq<nat>, chunks: seq<bytes>, chunk: bytes)
    requires FramesOf(frames, indices, chunks)
    ensures FramesOf(frames, indices, chunks + [chunk])
    ensures FramesOf(PushDrop(frames, Payload(|chunks|, chunk), RING_SIZE), PushDrop(indices, |chunks|, RING_SIZE), chunks + [chunk])
  {
  }

  function RingsAfter(rings: map<nat, seq<bytes>>, frame: bytes, conn: Option<nat>): map<nat, seq<bytes>> {
    match conn
    case None => rings
    case Some(c) => rings[c := PushDrop(if c in rings then rings[c] else [], frame, RING_SIZE)]
  }

  lemma RingsMatchSend(rings: map<nat, seq<bytes>>, tx: Sender, chunk: bytes, conn: Option<nat>)
    requires RingsMatch(rings, tx)
    ensures RingsMatch(RingsAfter(rings, Payload(|tx.chunks|, chunk), conn), SendChunk(tx, chunk, conn))
  {
    forall c | c in rings ensures FramesOf(rings[c], tx.rings[c], tx.chunks + [chunk]) {
      FramesOfMore(rings[c], tx.rings[c], tx.chunks, chunk);
    }
    if conn.Some? {
      var c := conn.value;
      FramesOfMore(if c in rings then rings[c] else [], if c in rings then tx.rings[c] else [], tx.chunks, chunk);
    }
  }

  class StripeWriter {
    var closed: bool
    var nextStripSeq: uint32
    var rings: map<nat, seq<bytes>>
    ghost var tx: Sender

    ghost predicate Valid()
      reads this
    {
      nextStripSeq == |tx.chunks| % M32 && RingsMatch(rings, tx)
    }

    constructor ()
      ensures Valid() && !closed && tx == Sender([], {}, [], map[], map[])
    {
      closed, nextStripSeq, rings, tx := false, 0, map[], Sender([], {}, [], map[], map[]);
    }

    /** Numbers one chunk, then hands it to the connection found for it, if any. */
    method SendOne(chunk: bytes, conn: Option<nat>) returns (frame: bytes)
      requires Valid()
      modifies this
      ensures Valid() && closed == old(closed)
      ensures tx == SendChunk(old(tx), chunk, conn)
      ensures frame == Payload(|old(tx).chunks|, chunk)
    {
      RingsMatchSend(rings, tx, chunk, conn);
      frame := PutU32(nextStripSeq) + chunk;
      nextStripSeq := (nextStripSeq + 1) % M32;
      tx := SendChunk(tx, chunk, conn);
      rings := RingsAfter(rings, frame, conn);
    }

    /** One turn of the loop: the next piece goes to the next connection; k: bytes taken. */
    method SendNext(rest: bytes, m: nat, left: seq<nat>, ghost goal: Sender, ghost spare: int, ghost size: nat)
      returns (k: nat, ok: bool, frame: bytes)
      requires Valid() && m > 0 && |rest| > 0 && OnCourse(tx, rest, m, left, goal, spare, size, true)
      modifies this
      ensures Valid() && closed == old(closed)
      ensures ok == (|left| > 0) && k == if ok then |Head(rest, m)| else 0
      ensures OnCourse(tx, rest[k..], m, if ok then left[1..] else left, goal, spare, size + k, ok)
      ensures var c := Head(rest, m);
              && tx == SendChunk(old(tx), c, if ok then Some(left[0]) else None)
              && frame == Payload(|old(tx).chunks|, c)
    {
      CourseStep(tx, rest, m, left, goal, spare, size);
      var chunk := Head(rest, m);
      if |left| == 0 {
        frame := SendOne(chunk, None);
        k, ok := 0, false;
      } else {
        frame := SendOne(chunk, Some(left[0]));
        k, ok := |chunk|, true;
      }
    }

    /** The loop over the pieces; conns: the connections selectConn finds, then none; frames[j] goes to conns[j]. */
    method SendPieces(p: bytes, m: nat, conns: seq<nat>) returns (n: nat, ok: bool, frames: seq<bytes>)
      requires Valid() && m > 0
      modifies this
      ensures Valid() && closed == old(closed)
      ensures Written(old(tx), p, m, conns, tx, n, ok) && FramesLeft(old(tx), tx, frames, ok)
    {
      var rest, left := p, conns;
      ghost var start, goal, spare := tx, SendAll(tx, Cut(p, m), conns), |conns| - |Cut(p, m)|;
      n, ok, frames := 0, true, [];
      while ok && |rest| > 0
        invariant Valid() && closed == old(closed)
        invariant OnCourse(tx, rest, m, left, goal, spare, |start.accepted| + n, ok)
        invariant FramesLeft(start, tx, frames, ok)
        decreases ok, |rest|
      {
        ghost var before, next := tx, Head(rest, m);
        var k, frame;
        FrameLeaves(start, tx, frames, next, if |left| > 0 then Some(left[0]) else None);
        k, ok, frame := SendNext(rest, m, left, goal, spare, |start.accepted| + n);
        if ok { frames, left := frames + [frame], left[1..]; }
        n, rest := n + k, rest[k..];
      }
      CourseEnds(start, p, m, conns, tx, rest, left, n, ok);
    }

    /** n: bytes reported written; ok: no error; frames: what left, in order. */
    method Write(p: bytes, maxFrame: nat, conns: seq<nat>) returns (n: nat, ok: bool, frames: seq<bytes>)
      requires Valid() && STRIP_SEQ_SIZE < maxFrame
      modifies this
      ensures Valid() && closed == old(closed)
      ensures closed ==> tx == old(tx) && n == 0 && !ok && frames == []
      ensures !closed ==> Written(old(tx), p, PieceSize(maxFrame), conns, tx, n, ok) && FramesLeft(old(tx), tx, frames, ok)
    {
      if closed { return 0, false, []; }
      n, ok, frames := SendPieces(p, PieceSize(maxFrame), conns);
    }

    /** RemoveConn: the ring of a dead connection is drained and resent. */
    method Drain(c: nat) returns (resent: seq<bytes>)
      requires Valid()
      modifies this
      ensures Valid() && closed == old(closed) && tx == old(tx).Without(c)
      ensures FramesOf(resent, if c in old(tx).rings then old(tx).rings[c] else [], tx.chunks)
    {
      resent := if c in rings then rings[c] else [];
      rings := rings - {c};
      tx := tx.Without(c);
    }
  }
}
