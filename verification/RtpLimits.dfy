/** Which writes are delivered, when all their packets arrive in order. */
module ReassemblyLimits {
  import opened Bytes
  import opened Chunking
  import opened ReassemblySpec
  import opened ReassemblyExactness

  /** No buffer has more than 255 chunks, none longer than the sender makes them. */
  ghost predicate Bounded(bufs: map<uint16, Buf>) {
    forall s :: s in bufs ==> BoundedChunks(bufs[s].chunks)
  }

  ghost predicate BoundedChunks(cs: seq<Option<bytes>>) {
    |cs| <= 255 && forall i :: 0 <= i < |cs| && cs[i].Some? ==> |cs[i].value| <= CHUNK
  }

  lemma {:induction false} AssembledBounded(cs: seq<Option<bytes>>)
    requires BoundedChunks(cs)
    ensures |Assembled(cs)| <= |cs| * CHUNK
  {
    if |cs| > 0 { AssembledBounded(cs[..|cs| - 1]); }
  }

  ghost predicate Deliverable(m: bytes) {
    0 < |m| <= MAX_WRITE
  }

  ghost predicate AllDeliverable(out: seq<bytes>) {
    forall k :: 0 <= k < |out| ==> Deliverable(out[k])
  }

  lemma {:induction false} DeliverBounded(r: Reassembly)
    requires Bounded(r.bufs) && AllDeliverable(r.out)
    ensures Bounded(Deliver(r).bufs) && AllDeliverable(Deliver(r).out)
    decreases |r.bufs|
  {
    if Ready(r) {
      AssembledBounded(r.bufs[r.next].chunks);
      DeliverBounded(DeliverOne(r));
    }
  }

  /** Whatever chunks arrive, of whatever writes: no message outside 1 .. 280500 bytes is ever delivered. */
  lemma OnlyDeliverableDelivered(r: Reassembly, raw: bytes)
    requires Bounded(r.bufs) && AllDeliverable(r.out) && |raw| <= CHUNK + 4 && InBounds(r, raw)
    ensures var r' := Accept(r, raw); Bounded(r'.bufs) && AllDeliverable(r'.out)
  {
    if Parse(raw).Some? {
      var c := Parse(raw).value;
      assert BoundedChunks(Current(r, c).chunks);
      DeliverBounded(Stored(r, c));
    }
  }

  /** Exactly the writes of 1 .. 280500 bytes have chunks, and have them read back as what they are: a longer
      write overflows the one-byte chunk count, an empty one takes a number and sends nothing. */
  lemma ChunksReadBack(w: uint16, p: bytes)
    ensures (Chunks(p) > 0 && forall i :: 0 <= i < Chunks(p) ==> ReadBack(w, p, i)) <==> 0 < |p| <= MAX_WRITE
  {
    if 0 < |p| <= MAX_WRITE {
      forall i | 0 <= i < Chunks(p) ensures ReadBack(w, p, i) { ParseChunk(w, p, i); }
    } else if |p| > MAX_WRITE {
      assert Chunks(p) > 255;
      assert !ReadBack(w, p, 0);
    }
  }

  ghost predicate ReadBack(w: uint16, p: bytes, i: nat)
    requires i < Chunks(p)
  {
    Parse(ChunkPayload(w, p, i)) == Some(Chunk(w, i, Chunks(p), Piece(p, i)))
  }

  // ---------------------------------------------------------------- packets in order

  /** One packet taken; a chunk that would be indexed out of bounds is left out. */
  ghost function Take(r: Reassembly, raw: bytes): Reassembly {
    if InBounds(r, raw) then Accept(r, raw) else r
  }

  /** Packets taken one after the other. */
  ghost function TakeAll(r: Reassembly, cs: seq<bytes>): Reassembly {
    if |cs| == 0 then r else Take(TakeAll(r, cs[..|cs| - 1]), cs[|cs| - 1])
  }

  lemma TakeStep(r: Reassembly, cs: seq<bytes>, k: nat)
    requires k < |cs|
    ensures TakeAll(r, cs[..k + 1]) == Take(TakeAll(r, cs[..k]), cs[k])
  {
    assert cs[..k + 1][..k] == cs[..k];
  }

  lemma {:induction false} TakeConcat(r: Reassembly, a: seq<bytes>, b: seq<bytes>)
    ensures TakeAll(r, a + b) == TakeAll(TakeAll(r, a), b)
  {
    if |b| == 0 {
      assert a + b == a;
    } else {
      var n := |b| - 1;
      TakeConcat(r, a, b[..n]);
      assert (a + b)[..|a + b| - 1] == a + b[..n];
    }
  }

  lemma {:induction false} TakeAllBounded(r: Reassembly, cs: seq<bytes>)
    requires Bounded(r.bufs) && AllDeliverable(r.out) && forall i :: 0 <= i < |cs| ==> |cs[i]| <= CHUNK + 4
    ensures var q := TakeAll(r, cs); Bounded(q.bufs) && AllDeliverable(q.out)
  {
    if |cs| > 0 {
      var n := |cs| - 1;
      TakeAllBounded(r, cs[..n]);
      if InBounds(TakeAll(r, cs[..n]), cs[n]) { OnlyDeliverableDelivered(TakeAll(r, cs[..n]), cs[n]); }
    }
  }

  // ---------------------------------------------------------------- one write alone

  /** The chunk count that the packets of a write carry. */
  function Total(p: bytes): nat {
    Chunks(p) % 256
  }

  /** The first t pieces of a write. */
  function Message(p: bytes, t: nat): bytes {
    p[..if t * CHUNK > |p| then |p| else t * CHUNK]
  }

  ghost function Fresh(w: uint16): Reassembly {
    Reassembly(map[], w, [])
  }

  ghost function Filled(p: bytes, t: nat, k: nat): (cs: seq<Option<bytes>>)
    requires t <= Chunks(p)
    ensures |cs| == t && forall i :: 0 <= i < t ==> cs[i] == if i < k then Some(Piece(p, i)) else None
  {
    seq(t, i requires 0 <= i < t => if i < k then Some(Piece(p, i)) else None)
  }

  ghost function Partly(w: uint16, p: bytes, t: nat, k: nat): Reassembly
    requires t <= Chunks(p)
  {
    Reassembly(if k == 0 then map[] else map[w := Buf(Filled(p, t, k), k)], w, [])
  }

  /** The next chunk of the write is put in its place. */
  lemma PutNext(w: uint16, p: bytes, t: nat, k: nat)
    requires k < t <= Chunks(p)
    ensures var c := Chunk(w, k, t, Piece(p, k));
            && k < |Current(Partly(w, p, t, k), c).chunks|
            && Stored(Partly(w, p, t, k), c) == Partly(w, p, t, k + 1)
  {
    var c := Chunk(w, k, t, Piece(p, k));
    assert k == 0 ==> Blank(t) == Filled(p, t, 0);
    assert Current(Partly(w, p, t, k), c) == Buf(Filled(p, t, k), k);
    assert Filled(p, t, k)[k := Some(Piece(p, k))] == Filled(p, t, k + 1);
    assert Put(Buf(Filled(p, t, k), k), k, c.data) == Buf(Filled(p, t, k + 1), k + 1);
    assert Partly(w, p, t, k).bufs[w := Buf(Filled(p, t, k + 1), k + 1)] == map[w := Buf(Filled(p, t, k + 1), k + 1)];
  }

  /** A complete message is the only one buffered. */
  lemma DeliverOnly(w: uint16, b: Buf)
    requires b.got >= |b.chunks| && Assembled(b.chunks) != []
    ensures Deliver(Reassembly(map[w := b], w, [])) == Reassembly(map[], (w + 1) % M16, [Assembled(b.chunks)])
  {
    var r := Reassembly(map[w := b], w, []);
    assert r.bufs - {w} == map[];
    assert [] + [Assembled(b.chunks)] == [Assembled(b.chunks)];
    assert DeliverOne(r) == Reassembly(map[], (w + 1) % M16, [Assembled(b.chunks)]);
    assert !Ready(DeliverOne(r));
  }

  lemma FilledIsMessage(p: bytes, t: nat)
    requires 0 < t <= Chunks(p)
    ensures Assembled(Filled(p, t, t)) == Message(p, t) != []
  {
    AssembledPieces(Filled(p, t, t), p);
    PiecesFlatten(p, t);
  }

  /** The header of chunk i, as it is read. */
  lemma ParseWrapped(w: uint16, p: bytes, i: nat)
    requires i < Chunks(p)
    ensures Parse(ChunkPayload(w, p, i)) ==
              if i % 256 < Total(p) then Some(Chunk(w, i % 256, Total(p), Piece(p, i))) else None
  {
    assert w % M16 == w;
    U16RoundTrip(w);
    if i % 256 < Total(p) { ParseParts(PutU16(w), i % 256, Total(p), Piece(p, i)); }
  }

  /** The first chunks are collected, and delivered as soon as there are as many as the count says. */
  lemma TakeNext(w: uint16, p: bytes, k: nat)
    requires k < Total(p)
    ensures k < Chunks(p)
    ensures Take(Partly(w, p, Total(p), k), ChunkPayload(w, p, k)) ==
              if k + 1 < Total(p) then Partly(w, p, Total(p), k + 1)
              else Reassembly(map[], (w + 1) % M16, [Message(p, Total(p))])
  {
    var t := Total(p);
    ParseWrapped(w, p, k);
    PutNext(w, p, t, k);
    AcceptChunk(Partly(w, p, t, k), ChunkPayload(w, p, k), Chunk(w, k, t, Piece(p, k)));
    if k + 1 < t {
      assert !Ready(Partly(w, p, t, k + 1));
    } else {
      FilledIsMessage(p, t);
      DeliverOnly(w, Buf(Filled(p, t, t), t));
    }
  }

  /** All of the write's chunks that will be, have been put together; what is left of it goes to a buffer that is never
      looked at again. */
  ghost predicate Over(r: Reassembly, w: uint16, t: nat, out: seq<bytes>) {
    && r.out == out && r.next == (w + 1) % M16
    && forall s :: s in r.bufs ==> s == w && |r.bufs[s].chunks| == t
  }

  lemma OverStep(r: Reassembly, w: uint16, p: bytes, i: nat, out: seq<bytes>)
    requires i < Chunks(p) && Over(r, w, Total(p), out)
    ensures Over(Take(r, ChunkPayload(w, p, i)), w, Total(p), out)
  {
    var raw := ChunkPayload(w, p, i);
    ParseWrapped(w, p, i);
    if Parse(raw).Some? {
      var c := Parse(raw).value;
      AcceptChunk(r, raw, c);
      assert (w + 1) % M16 != w;
      assert !Ready(Stored(r, c));
    }
  }

  ghost function Collected(w: uint16, p: bytes, k: nat): Reassembly
    requires k <= Total(p)
  {
    if k < Total(p) || k == 0 then Partly(w, p, Total(p), k) else Reassembly(map[], (w + 1) % M16, [Message(p, Total(p))])
  }

  lemma {:induction false} TakeFirst(w: uint16, p: bytes, k: nat)
    requires k <= Total(p)
    ensures TakeAll(Fresh(w), ChunkList(w, p)[..k]) == Collected(w, p, k)
  {
    if k > 0 {
      TakeFirst(w, p, k - 1);
      TakeNext(w, p, k - 1);
      TakeStep(Fresh(w), ChunkList(w, p), k - 1);
    }
  }

  lemma {:induction false} TakeLater(w: uint16, p: bytes, k: nat)
    requires 0 < Total(p) <= k <= Chunks(p)
    ensures Over(TakeAll(Fresh(w), ChunkList(w, p)[..k]), w, Total(p), [Message(p, Total(p))])
  {
    if k == Total(p) {
      TakeFirst(w, p, k);
    } else {
      TakeLater(w, p, k - 1);
      TakeStep(Fresh(w), ChunkList(w, p), k - 1);
      OverStep(TakeAll(Fresh(w), ChunkList(w, p)[..k - 1]), w, p, k - 1, [Message(p, Total(p))]);
    }
  }

  lemma {:induction false} TakeDropped(w: uint16, p: bytes, k: nat)
    requires Total(p) == 0 && k <= Chunks(p)
    ensures TakeAll(Fresh(w), ChunkList(w, p)[..k]) == Fresh(w)
  {
    if k > 0 {
      TakeDropped(w, p, k - 1);
      TakeStep(Fresh(w), ChunkList(w, p), k - 1);
      ParseWrapped(w, p, k - 1);
    }
  }

  /**
   * A write of c chunks, of whatever length, all of whose packets arrive in order and nothing else: its first
   * c modulo 256 chunks are delivered as one message, and nothing if that is none.
   */
  lemma DeliveredAlone(w: uint16, p: bytes)
    ensures TakeAll(Fresh(w), ChunkList(w, p)).out == if Total(p) == 0 then [] else [Message(p, Total(p))]
  {
    assert ChunkList(w, p)[..Chunks(p)] == ChunkList(w, p);
    if Total(p) == 0 { TakeDropped(w, p, Chunks(p)); } else { TakeLater(w, p, Chunks(p)); }
  }

  /** So it is delivered as written if and only if it has 1 .. 280500 bytes. */
  lemma DeliveredAsWritten(w: uint16, p: bytes)
    ensures TakeAll(Fresh(w), ChunkList(w, p)).out == [p] <==> 0 < |p| <= MAX_WRITE
  {
    DeliveredAlone(w, p);
    var t := Total(p);
    if 0 < |p| <= MAX_WRITE {
      assert t == Chunks(p) && Message(p, t) == p;
    } else if t > 0 {
      assert t * CHUNK < |p|;
      assert |Message(p, t)| < |p|;
    }
  }

  /** A message that nobody wrote: the first of the 257 chunks of a write of 282700 bytes says that it is the only
      one, and is delivered as a whole message. */
  lemma FirstChunkAlone(w: uint16, p: bytes)
    requires |p| == 257 * CHUNK
    ensures Chunks(p) == 257 && TakeAll(Fresh(w), ChunkList(w, p)[..1]).out == [p[..CHUNK]]
  {
    TakeFirst(w, p, 1);
  }

  // ---------------------------------------------------------------- lists of writes

  ghost function Below(k: nat): (s: set<nat>)
    ensures forall i :: i in s <==> 0 <= i < k
  {
    if k == 0 then {} else Below(k - 1) + {k - 1}
  }

  lemma StartExact(writes: seq<bytes>)
    requires Sent(writes)
    ensures Exact(Fresh(0), writes, 0, Below(0))
  {
    if |writes| > 0 {
      assert Chunks(writes[0]) > 0;
      assert !Has(writes, 0, Below(0), 0);
    }
  }

  lemma TakeExact(r: Reassembly, writes: seq<bytes>, arrived: set<nat>, n: nat)
    requires Sent(writes) && n < |Packets(writes)| && Exact(r, writes, 0, arrived)
    ensures Exact(Take(r, Packets(writes)[n]), writes, 0, arrived + {n})
  {
    var w, i := PacketCarries(writes, n);
    AcceptExact(r, writes, 0, arrived, Packets(writes)[n], n, w, i);
  }

  lemma {:induction false} TakenExact(writes: seq<bytes>, k: nat)
    requires Sent(writes) && k <= |Packets(writes)|
    ensures Exact(TakeAll(Fresh(0), Packets(writes)[..k]), writes, 0, Below(k))
  {
    if k == 0 {
      StartExact(writes);
    } else {
      var n := k - 1;
      TakenExact(writes, n);
      TakeStep(Fresh(0), Packets(writes), n);
      TakeExact(TakeAll(Fresh(0), Packets(writes)[..n]), writes, Below(n), n);
    }
  }

  /** When all packets of admissible writes have been taken, all writes are delivered. */
  lemma TakenAll(writes: seq<bytes>)
    requires Sent(writes)
    ensures var r := TakeAll(Fresh(0), Packets(writes));
            r.out == writes && r.next == |writes| && Sized(r.bufs, writes)
  {
    var pkts := Packets(writes);
    TakenExact(writes, |pkts|);
    assert pkts[..|pkts|] == pkts;
    var r := TakeAll(Fresh(0), pkts);
    if r.next < |writes| { EverythingArrived(writes, r.next); }
    assert writes[0..|writes|] == writes;
  }

  lemma EverythingArrived(writes: seq<bytes>, w: nat)
    requires w < |writes|
    ensures AllArrived(writes, w, Below(|Packets(writes)|))
  {
    forall i | 0 <= i < Chunks(writes[w]) ensures Has(writes, w, Below(|Packets(writes)|), i) {
      PacketAt(writes, |writes|, w, i);
    }
  }

  /**
   * Any list of writes, fewer than 2^16 packets in all, every packet arriving in order: what is delivered is what was
   * written if and only if every write has 1 .. 280500 bytes.
   */
  lemma ListDelivered(writes: seq<bytes>)
    requires Base(writes, |writes|) < M16
    ensures TakeAll(Fresh(0), Packets(writes)).out == writes <==> AllNonEmpty(writes)
  {
    PacketsShort(writes, |writes|);
    TakeAllBounded(Fresh(0), Packets(writes));
    if AllNonEmpty(writes) { TakenAll(writes); }
  }

  // ---------------------------------------------------------------- an empty write

  /** Delivery waits for write w, of which nothing has come. */
  ghost predicate Blocked(r: Reassembly, w: uint16, out: seq<bytes>) {
    r.out == out && r.next == w && w !in r.bufs
  }

  lemma BlockedStep(r: Reassembly, w: uint16, v: uint16, p: bytes, i: nat, out: seq<bytes>)
    requires v != w && i < Chunks(p) && Blocked(r, w, out)
    ensures Blocked(Take(r, ChunkPayload(v, p, i)), w, out)
  {
    var raw := ChunkPayload(v, p, i);
    ParseWrapped(v, p, i);
    if Parse(raw).Some? && InBounds(r, raw) {
      var c := Parse(raw).value;
      AcceptChunk(r, raw, c);
      assert !Ready(Stored(r, c));
    }
  }

  lemma {:induction false} BlockedChunks(r: Reassembly, w: uint16, v: uint16, p: bytes, k: nat, out: seq<bytes>)
    requires v != w && k <= Chunks(p) && Blocked(r, w, out)
    ensures Blocked(TakeAll(r, ChunkList(v, p)[..k]), w, out)
  {
    if k > 0 {
      BlockedChunks(r, w, v, p, k - 1, out);
      TakeStep(r, ChunkList(v, p), k - 1);
      BlockedStep(TakeAll(r, ChunkList(v, p)[..k - 1]), w, v, p, k - 1, out);
    }
  }

  lemma {:induction false} PrefixPackets(writes: seq<bytes>, w: nat, m: nat)
    requires m <= w <= |writes|
    ensures Base(writes[..w], m) == Base(writes, m) && PacketsUpTo(writes[..w], m) == PacketsUpTo(writes, m)
  {
    if m > 0 { PrefixPackets(writes, w, m - 1); }
  }

  /** The packets of one more write. */
  lemma BlockedWrite(r: Reassembly, pkts: seq<bytes>, w: uint16, v: uint16, p: bytes, out: seq<bytes>)
    requires v != w && Blocked(TakeAll(r, pkts), w, out)
    ensures Blocked(TakeAll(r, pkts + ChunkList(v, p)), w, out)
  {
    TakeConcat(r, pkts, ChunkList(v, p));
    BlockedChunks(TakeAll(r, pkts), w, v, p, Chunks(p), out);
    assert ChunkList(v, p)[..Chunks(p)] == ChunkList(v, p);
  }

  lemma OneMoreWrite(writes: seq<bytes>, m: nat)
    requires 0 < m <= |writes|
    ensures PacketsUpTo(writes, m) == PacketsUpTo(writes, m - 1) + ChunkList(m - 1, writes[m - 1])
  {
  }

  lemma BlockedNext(writes: seq<bytes>, w: uint16, m: nat, out: seq<bytes>)
    requires 0 < m <= |writes| <= M16 && m - 1 != w && Blocked(TakeAll(Fresh(0), PacketsUpTo(writes, m - 1)), w, out)
    ensures Blocked(TakeAll(Fresh(0), PacketsUpTo(writes, m)), w, out)
  {
    BlockedWrite(Fresh(0), PacketsUpTo(writes, m - 1), w, m - 1, writes[m - 1], out);
    OneMoreWrite(writes, m);
  }

  lemma BlockedAt(writes: seq<bytes>, w: nat)
    requires w < |writes| <= M16 && writes[w] == [] && Sent(writes[..w])
    ensures Blocked(TakeAll(Fresh(0), PacketsUpTo(writes, w + 1)), w, writes[..w])
  {
    PrefixPackets(writes, w, w);
    TakenAll(writes[..w]);
    assert PacketsUpTo(writes, w + 1) == PacketsUpTo(writes, w);
  }

  lemma {:induction false} BlockedFrom(writes: seq<bytes>, w: nat, m: nat)
    requires w < m <= |writes| <= M16 && writes[w] == [] && Sent(writes[..w])
    ensures Blocked(TakeAll(Fresh(0), PacketsUpTo(writes, m)), w, writes[..w])
  {
    if m == w + 1 {
      BlockedAt(writes, w);
    } else {
      BlockedFrom(writes, w, m - 1);
      BlockedNext(writes, w, m, writes[..w]);
    }
  }

  /** An empty write blocks all that follow it: though every packet arrives, what is delivered is what was written
      before it. */
  lemma EmptyWriteBlocks(writes: seq<bytes>, w: nat)
    requires w < |writes| <= M16 && writes[w] == [] && Sent(writes[..w])
    ensures TakeAll(Fresh(0), Packets(writes)).out == writes[..w]
  {
    BlockedFrom(writes, w, |writes|);
  }

  /** For one: an empty write before any other. */
  lemma NothingAfterEmpty(p: bytes)
    ensures TakeAll(Fresh(0), Packets([[], p])).out == []
  {
    EmptyWriteBlocks([[], p], 0);
  }
}
