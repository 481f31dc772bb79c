/** Cutting writes into numbered packets. */
module Chunking {
  import opened Bytes

  const CHUNK: nat := 1100
  const MAX_WRITE: nat := 280500

  function Chunks(p: bytes): nat {
    (|p| + CHUNK - 1) / CHUNK
  }

  /** The i-th piece of a write. */
  function Piece(p: bytes, i: nat): (r: bytes)
    requires i < Chunks(p)
    ensures |r| <= CHUNK
  {
    var end := (i + 1) * CHUNK;
    p[i * CHUNK..if end > |p| then |p| else end]
  }

  /** Write number, index and count as single bytes, then the piece. */
  function ChunkPayload(w: nat, p: bytes, i: nat): (r: bytes)
    requires i < Chunks(p)
    ensures 4 <= |r| <= CHUNK + 4
  {
    PutU16(w % M16) + [i % 256, Chunks(p) % 256] + Piece(p, i)
  }

  ghost function Pieces(p: bytes, n: nat): (r: seq<bytes>)
    requires n <= Chunks(p)
    ensures |r| == n && forall i :: 0 <= i < n ==> r[i] == Piece(p, i)
  {
    seq(n, i requires 0 <= i < n => Piece(p, i))
  }

  /** The pieces of a write put together again are the write. */
  lemma {:induction false} PiecesFlatten(p: bytes, n: nat)
    requires n <= Chunks(p)
    ensures Flatten(Pieces(p, n)) == p[..if n * CHUNK > |p| then |p| else n * CHUNK]
  {
    if n > 0 {
      PiecesFlatten(p, n - 1);
      assert Pieces(p, n)[..n - 1] == Pieces(p, n - 1);
    }
  }

  // ---------------------------------------------------------------- packet numbers

  /** Number of packets sent before write w. */
  ghost function Base(writes: seq<bytes>, w: nat): nat
    requires w <= |writes|
  {
    if w == 0 then 0 else Base(writes, w - 1) + Chunks(writes[w - 1])
  }

  /** The write to which packet n belongs, looked for among the first w writes. */
  ghost function WriteOf(writes: seq<bytes>, n: nat, w: nat): (v: nat)
    requires w <= |writes| && n < Base(writes, w)
    ensures v < w && Base(writes, v) <= n < Base(writes, v) + Chunks(writes[v])
  {
    if n >= Base(writes, w - 1) then w - 1 else WriteOf(writes, n, w - 1)
  }

  /** The chunks of one write, in order. */
  function ChunkList(w: nat, p: bytes): (cs: seq<bytes>)
    ensures |cs| == Chunks(p) && forall i :: 0 <= i < |cs| ==> cs[i] == ChunkPayload(w, p, i)
  {
    seq(Chunks(p), i requires 0 <= i < Chunks(p) => ChunkPayload(w, p, i))
  }

  /** The packets of the first m writes, by packet number. */
  ghost function PacketsUpTo(writes: seq<bytes>, m: nat): (pkts: seq<bytes>)
    requires m <= |writes|
    ensures |pkts| == Base(writes, m)
  {
    if m == 0 then [] else PacketsUpTo(writes, m - 1) + ChunkList(m - 1, writes[m - 1])
  }

  /** Every packet ever sent, by packet number. */
  ghost function Packets(writes: seq<bytes>): (pkts: seq<bytes>)
    ensures |pkts| == Base(writes, |writes|)
  {
    PacketsUpTo(writes, |writes|)
  }

  lemma LastChunks(writes: seq<bytes>, m: nat, i: nat)
    requires 0 < m <= |writes| && i < Chunks(writes[m - 1])
    ensures PacketsUpTo(writes, m)[Base(writes, m - 1) + i] == ChunkPayload(m - 1, writes[m - 1], i)
  {
    assert ChunkList(m - 1, writes[m - 1])[i] == ChunkPayload(m - 1, writes[m - 1], i);
  }

  /** Where the chunks of a write lie among the packets. */
  lemma {:induction false} PacketAt(writes: seq<bytes>, m: nat, w: nat, i: nat)
    requires w < m <= |writes| && i < Chunks(writes[w])
    ensures Base(writes, w) + i < Base(writes, m)
    ensures PacketsUpTo(writes, m)[Base(writes, w) + i] == ChunkPayload(w, writes[w], i)
  {
    BaseMonotone(writes, w, m);
    if w < m - 1 { PacketAt(writes, m - 1, w, i); } else { LastChunks(writes, m, i); }
  }

  lemma {:induction false} PacketsShort(writes: seq<bytes>, m: nat)
    requires m <= |writes|
    ensures forall i :: 0 <= i < |PacketsUpTo(writes, m)| ==> |PacketsUpTo(writes, m)[i]| <= CHUNK + 4
  {
    if m > 0 { PacketsShort(writes, m - 1); }
  }

  ghost predicate AllNonEmpty(writes: seq<bytes>) {
    forall w :: 0 <= w < |writes| ==> 0 < |writes[w]| <= MAX_WRITE
  }

  /** The premise of the run: every write non-empty and short enough, fewer than 2^16 packets. */
  ghost predicate Sent(writes: seq<bytes>) {
    AllNonEmpty(writes) && Base(writes, |writes|) < M16
  }

  lemma {:induction false} BaseMonotone(writes: seq<bytes>, v: nat, w: nat)
    requires v <= w <= |writes|
    ensures Base(writes, v) <= Base(writes, w)
    ensures v < w ==> Base(writes, v) + Chunks(writes[v]) <= Base(writes, w)
  {
    if v < w { BaseMonotone(writes, v, w - 1); }
  }

  /** A packet's number is never below the number of its write. */
  lemma {:induction false} BaseAtLeast(writes: seq<bytes>, w: nat)
    requires AllNonEmpty(writes) && w <= |writes|
    ensures w <= Base(writes, w)
  {
    if w > 0 { BaseAtLeast(writes, w - 1); }
  }

  lemma WriteOfUnique(writes: seq<bytes>, w: nat, i: nat)
    requires w < |writes| && i < Chunks(writes[w])
    ensures Base(writes, w) + i < Base(writes, |writes|)
    ensures WriteOf(writes, Base(writes, w) + i, |writes|) == w
  {
    BaseMonotone(writes, w, |writes|);
    var n := Base(writes, w) + i;
    var v := WriteOf(writes, n, |writes|);
    if v < w { BaseMonotone(writes, v, w); } else if w < v { BaseMonotone(writes, w, v); }
  }
}

/** Reassembly: the program's state and its steps. */
module ReassemblySpec {
  import opened Bytes

  datatype Buf = Buf(chunks: seq<Option<bytes>>, got: nat)

  /** bufs: partial messages by write number; next: the write to deliver next; out: messages delivered. */
  datatype Reassembly = Reassembly(bufs: map<uint16, Buf>, next: uint16, out: seq<bytes>)

  function Blank(total: nat): (r: seq<Option<bytes>>)
    ensures |r| == total && forall i :: 0 <= i < total ==> r[i] == None
  {
    seq(total, _ => None)
  }

  function Assembled(chunks: seq<Option<bytes>>): bytes {
    if |chunks| == 0 then []
    else
      var n := |chunks| - 1;
      Assembled(chunks[..n]) + match chunks[n] case Some(c) => c case None => []
  }

  predicate Ready(r: Reassembly) {
    r.next in r.bufs && r.bufs[r.next].got >= |r.bufs[r.next].chunks|
  }

  function DeliverOne(r: Reassembly): Reassembly
    requires Ready(r)
  {
    var m := Assembled(r.bufs[r.next].chunks);
    Reassembly(r.bufs - {r.next}, (r.next + 1) % M16, if m == [] then r.out else r.out + [m])
  }

  /** Delivers consecutive complete messages from the cursor on. */
  function Deliver(r: Reassembly): Reassembly
    decreases |r.bufs|
  {
    if Ready(r) then Deliver(DeliverOne(r)) else r
  }

  datatype Chunk = Chunk(w: uint16, idx: nat, total: nat, data: bytes)

  /** The header of a chunk; None when the program drops the chunk. */
  function Parse(raw: bytes): Option<Chunk> {
    if |raw| < 4 || raw[3] < 1 || raw[2] >= raw[3] then None
    else Some(Chunk(U16(raw[..2]), raw[2], raw[3], raw[4..]))
  }

  function Current(r: Reassembly, c: Chunk): Buf {
    if c.w in r.bufs then r.bufs[c.w] else Buf(Blank(c.total), 0)
  }

  /** The program indexes the stored chunk list without checking it against this chunk's own count. */
  predicate InBounds(r: Reassembly, raw: bytes) {
    Parse(raw).Some? ==> Parse(raw).value.idx < |Current(r, Parse(raw).value).chunks|
  }

  function Put(b: Buf, idx: nat, data: bytes): Buf
    requires idx < |b.chunks|
  {
    if b.chunks[idx].None? then Buf(b.chunks[idx := Some(data)], b.got + 1) else b
  }

  function Stored(r: Reassembly, c: Chunk): Reassembly
    requires c.idx < |Current(r, c).chunks|
  {
    r.(bufs := r.bufs[c.w := Put(Current(r, c), c.idx, c.data)])
  }

  function Accept(r: Reassembly, raw: bytes): Reassembly
    requires InBounds(r, raw)
  {
    match Parse(raw)
    case None => r
    case Some(c) => Deliver(Stored(r, c))
  }

  lemma AcceptChunk(r: Reassembly, raw: bytes, c: Chunk)
    requires Parse(raw) == Some(c) && c.idx < |Current(r, c).chunks|
    ensures InBounds(r, raw) && Accept(r, raw) == Deliver(Stored(r, c))
  {
  }
}

/** Reassembly of the packets of a given list of writes. */
module ReassemblyExactness {
  import opened Bytes
  import opened Chunking
  import opened ReassemblySpec

  function CountSome(cs: seq<Option<bytes>>): nat {
    if |cs| == 0 then 0 else CountSome(cs[..|cs| - 1]) + if cs[|cs| - 1].Some? then 1 else 0
  }

  lemma {:induction false} CountSomeFull(cs: seq<Option<bytes>>)
    ensures CountSome(cs) <= |cs|
    ensures CountSome(cs) == |cs| <==> forall i :: 0 <= i < |cs| ==> cs[i].Some?
  {
    if |cs| > 0 { CountSomeFull(cs[..|cs| - 1]); }
  }

  lemma {:induction false} CountSomeUpdate(cs: seq<Option<bytes>>, i: nat, d: bytes)
    requires i < |cs| && cs[i].None?
    ensures CountSome(cs[i := Some(d)]) == CountSome(cs) + 1
  {
    var n := |cs| - 1;
    if i < n {
      CountSomeUpdate(cs[..n], i, d);
      assert cs[i := Some(d)][..n] == cs[..n][i := Some(d)];
    } else {
      assert cs[i := Some(d)][..n] == cs[..n];
    }
  }

  lemma {:induction false} CountSomeBlank(n: nat)
    ensures CountSome(Blank(n)) == 0
  {
    if n > 0 {
      CountSomeBlank(n - 1);
      assert Blank(n)[..n - 1] == Blank(n - 1);
    }
  }

  ghost predicate Has(writes: seq<bytes>, w: nat, arrived: set<nat>, i: nat)
    requires w < |writes|
  {
    (Base(writes, w) + i) in arrived
  }

  /** The buffer of write w holds exactly the chunks whose packets have arrived. */
  ghost predicate BufHolds(b: Buf, writes: seq<bytes>, w: nat, arrived: set<nat>)
    requires w < |writes|
  {
    && |b.chunks| == Chunks(writes[w])
    && b.got == CountSome(b.chunks)
    && forall i :: 0 <= i < |b.chunks| ==>
         b.chunks[i] == if Has(writes, w, arrived, i) then Some(Piece(writes[w], i)) else None
  }

  ghost predicate AllArrived(writes: seq<bytes>, w: nat, arrived: set<nat>)
    requires w < |writes|
  {
    forall i :: 0 <= i < Chunks(writes[w]) ==> Has(writes, w, arrived, i)
  }

  ghost predicate NoneArrived(writes: seq<bytes>, w: nat, arrived: set<nat>)
    requires w < |writes|
  {
    forall i :: 0 <= i < Chunks(writes[w]) ==> !Has(writes, w, arrived, i)
  }

  ghost predicate Pending(bufs: map<uint16, Buf>, writes: seq<bytes>, w: nat, arrived: set<nat>)
    requires w < |writes|
  {
    if w in bufs then BufHolds(bufs[w], writes, w, arrived) else NoneArrived(writes, w, arrived)
  }

  /** Everything but the stopping condition of delivery; entries for delivered writes may be stale. */
  ghost predicate Loose(r: Reassembly, writes: seq<bytes>, start: nat, arrived: set<nat>) {
    && start <= r.next <= |writes|
    && r.out == writes[start..r.next]
    && Sized(r.bufs, writes)
    && (forall w :: start <= w < r.next ==> AllArrived(writes, w, arrived))
    && (forall w :: r.next <= w < |writes| ==> Pending(r.bufs, writes, w, arrived))
  }

  /** The messages delivered are the writes from the start up to the first that is not complete. */
  ghost predicate Exact(r: Reassembly, writes: seq<bytes>, start: nat, arrived: set<nat>) {
    && Loose(r, writes, start, arrived)
    && (r.next < |writes| ==> !AllArrived(writes, r.next, arrived))
  }

  lemma {:induction false} AssembledPieces(cs: seq<Option<bytes>>, p: bytes)
    requires |cs| <= Chunks(p) && forall i :: 0 <= i < |cs| ==> cs[i] == Some(Piece(p, i))
    ensures Assembled(cs) == Flatten(Pieces(p, |cs|))
  {
    if |cs| > 0 {
      var n := |cs| - 1;
      AssembledPieces(cs[..n], p);
      assert Pieces(p, |cs|)[..n] == Pieces(p, n);
    }
  }

  lemma AssembledWhole(cs: seq<Option<bytes>>, p: bytes)
    requires |cs| == Chunks(p) && forall i :: 0 <= i < |cs| ==> cs[i] == Some(Piece(p, i))
    ensures Assembled(cs) == p
  {
    AssembledPieces(cs, p);
    PiecesFlatten(p, |cs|);
    assert p[..|p|] == p;
  }

  /** A buffer counts as full exactly when all its packets have arrived. */
  lemma FullIsArrived(b: Buf, writes: seq<bytes>, w: nat, arrived: set<nat>)
    requires w < |writes| && BufHolds(b, writes, w, arrived)
    ensures b.got >= |b.chunks| <==> AllArrived(writes, w, arrived)
    ensures AllArrived(writes, w, arrived) ==> Assembled(b.chunks) == writes[w]
  {
    CountSomeFull(b.chunks);
    if AllArrived(writes, w, arrived) {
      forall i | 0 <= i < |b.chunks| ensures b.chunks[i] == Some(Piece(writes[w], i)) {
        assert Has(writes, w, arrived, i);
      }
      AssembledWhole(b.chunks, writes[w]);
    } else {
      var i :| 0 <= i < Chunks(writes[w]) && !Has(writes, w, arrived, i);
      assert b.chunks[i].None?;
    }
  }

  lemma ReadyIsArrived(r: Reassembly, writes: seq<bytes>, start: nat, arrived: set<nat>)
    requires Sent(writes) && Loose(r, writes, start, arrived)
    ensures Ready(r) <==> r.next < |writes| && AllArrived(writes, r.next, arrived)
    ensures Ready(r) ==> Assembled(r.bufs[r.next].chunks) == writes[r.next]
  {
    if r.next < |writes| {
      assert Pending(r.bufs, writes, r.next, arrived);
      if r.next in r.bufs {
        FullIsArrived(r.bufs[r.next], writes, r.next, arrived);
      } else {
        assert Chunks(writes[r.next]) > 0;
        assert !Has(writes, r.next, arrived, 0);
      }
    }
  }

  /** A write other than the delivered one keeps its buffer. */
  lemma PendingStays(bufs: map<uint16, Buf>, writes: seq<bytes>, n: uint16, w: nat, arrived: set<nat>)
    requires w < |writes| && w != n && Pending(bufs, writes, w, arrived)
    ensures Pending(bufs - {n}, writes, w, arrived)
  {
  }

  lemma DeliverOneLoose(r: Reassembly, writes: seq<bytes>, start: nat, arrived: set<nat>)
    requires Sent(writes) && Loose(r, writes, start, arrived) && Ready(r)
    ensures Loose(DeliverOne(r), writes, start, arrived)
  {
    ReadyIsArrived(r, writes, start, arrived);
    SentFits(writes);
    var r' := DeliverOne(r);
    assert r'.next == r.next + 1 && Sized(r'.bufs, writes);
    assert writes[start..r'.next] == writes[start..r.next] + [writes[r.next]];
    forall w | r'.next <= w < |writes| ensures Pending(r'.bufs, writes, w, arrived) {
      PendingStays(r.bufs, writes, r.next, w, arrived);
    }
  }

  lemma {:induction false} DeliverExact(r: Reassembly, writes: seq<bytes>, start: nat, arrived: set<nat>)
    requires Sent(writes) && Loose(r, writes, start, arrived)
    ensures Exact(Deliver(r), writes, start, arrived)
    ensures Deliver(r).next >= r.next
    decreases |r.bufs|
  {
    ReadyIsArrived(r, writes, start, arrived);
    if Ready(r) {
      DeliverOneLoose(r, writes, start, arrived);
      DeliverExact(DeliverOne(r), writes, start, arrived);
    }
  }

  lemma ParseParts(h: bytes, idx: byte, total: byte, data: bytes)
    requires |h| == 2 && idx < total
    ensures Parse(h + [idx, total] + data) == Some(Chunk(U16(h), idx, total, data))
  {
    var raw := h + [idx, total] + data;
    assert raw[..2] == h && raw[4..] == data;
  }

  /** What the program reads back from the header of a chunk. */
  lemma ParseChunk(w: nat, p: bytes, i: nat)
    requires w < M16 && i < Chunks(p) && |p| <= MAX_WRITE
    ensures Parse(ChunkPayload(w, p, i)) == Some(Chunk(w, i, Chunks(p), Piece(p, i)))
  {
    assert w % M16 == w && Chunks(p) < 256;
    ParseParts(PutU16(w), i, Chunks(p), Piece(p, i));
    U16RoundTrip(w);
  }

  /** There are fewer writes than 16-bit numbers. */
  lemma SentFits(writes: seq<bytes>)
    requires Sent(writes)
    ensures |writes| < M16
  {
    BaseAtLeast(writes, |writes|);
  }

  /** raw is packet n: chunk i of write w. */
  ghost predicate Carries(raw: bytes, writes: seq<bytes>, n: nat, w: nat, i: nat) {
    && w < |writes| && w < M16 && i < Chunks(writes[w]) && n == Base(writes, w) + i
    && Parse(raw) == Some(Chunk(w, i, Chunks(writes[w]), Piece(writes[w], i)))
  }

  /** pkts are the packets of the writes, as the receiver reads them. */
  ghost predicate Parses(pkts: seq<bytes>, writes: seq<bytes>) {
    && |pkts| == Base(writes, |writes|)
    && forall n :: 0 <= n < |pkts| ==> IsPacket(pkts[n], writes, n)
  }

  ghost predicate IsPacket(raw: bytes, writes: seq<bytes>, n: nat) {
    exists w, i :: Carries(raw, writes, n, w, i)
  }

  lemma PacketCarries(writes: seq<bytes>, n: nat) returns (w: nat, i: nat)
    requires Sent(writes) && n < Base(writes, |writes|)
    ensures Carries(Packets(writes)[n], writes, n, w, i) && |Packets(writes)[n]| <= CHUNK + 4
  {
    w := WriteOf(writes, n, |writes|);
    i := n - Base(writes, w);
    BaseAtLeast(writes, |writes|);
    PacketAt(writes, |writes|, w, i);
    ParseChunk(w, writes[w], i);
  }

  lemma PacketsParse(writes: seq<bytes>)
    requires Sent(writes)
    ensures Parses(Packets(writes), writes)
    ensures forall n :: 0 <= n < |Packets(writes)| ==> 4 <= |Packets(writes)[n]| <= CHUNK + 4
  {
    var pkts := Packets(writes);
    forall n | 0 <= n < |pkts| ensures IsPacket(pkts[n], writes, n) && 4 <= |pkts[n]| <= CHUNK + 4 {
      var w, i := PacketCarries(writes, n);
    }
  }

  lemma ArrivedElsewhere(writes: seq<bytes>, w: nat, i: nat, v: nat, j: nat, arrived: set<nat>)
    requires w < |writes| && i < Chunks(writes[w]) && v < |writes| && j < Chunks(writes[v])
    ensures Has(writes, v, arrived + {Base(writes, w) + i}, j) <==> Has(writes, v, arrived, j) || (v == w && j == i)
  {
    WriteOfUnique(writes, v, j);
    WriteOfUnique(writes, w, i);
  }

  /** Storing a packet in its buffer makes the buffer hold the enlarged set. */
  lemma PutHolds(b: Buf, writes: seq<bytes>, w: nat, i: nat, arrived: set<nat>)
    requires w < |writes| && i < Chunks(writes[w]) && BufHolds(b, writes, w, arrived)
    ensures BufHolds(Put(b, i, Piece(writes[w], i)), writes, w, arrived + {Base(writes, w) + i})
  {
    var more, b' := arrived + {Base(writes, w) + i}, Put(b, i, Piece(writes[w], i));
    forall j | 0 <= j < |b'.chunks|
      ensures b'.chunks[j] == if Has(writes, w, more, j) then Some(Piece(writes[w], j)) else None
    {
      ArrivedElsewhere(writes, w, i, w, j, arrived);
    }
    if b.chunks[i].None? { CountSomeUpdate(b.chunks, i, Piece(writes[w], i)); }
  }

  lemma BlankHolds(writes: seq<bytes>, w: nat, arrived: set<nat>)
    requires w < |writes| && NoneArrived(writes, w, arrived)
    ensures BufHolds(Buf(Blank(Chunks(writes[w])), 0), writes, w, arrived)
  {
    CountSomeBlank(Chunks(writes[w]));
  }

  /** Another write's buffer does not notice. */
  lemma PendingElsewhere(bufs: map<uint16, Buf>, writes: seq<bytes>, w: nat, i: nat, v: nat, arrived: set<nat>)
    requires w < |writes| && i < Chunks(writes[w]) && v < |writes| && v != w && Pending(bufs, writes, v, arrived)
    ensures Pending(bufs, writes, v, arrived + {Base(writes, w) + i})
  {
    var more := arrived + {Base(writes, w) + i};
    if v in bufs {
      var b := bufs[v];
      forall j | 0 <= j < |b.chunks|
        ensures b.chunks[j] == if Has(writes, v, more, j) then Some(Piece(writes[v], j)) else None
      {
        ArrivedElsewhere(writes, w, i, v, j, arrived);
      }
    } else {
      forall j | 0 <= j < Chunks(writes[v]) ensures !Has(writes, v, more, j) {
        ArrivedElsewhere(writes, w, i, v, j, arrived);
      }
    }
  }

  ghost predicate Sized(bufs: map<uint16, Buf>, writes: seq<bytes>) {
    forall s :: s in bufs ==> s < |writes| && |bufs[s].chunks| == Chunks(writes[s])
  }

  lemma ArrivedStays(writes: seq<bytes>, w: nat, arrived: set<nat>, more: set<nat>)
    requires w < |writes| && arrived <= more && AllArrived(writes, w, arrived)
    ensures AllArrived(writes, w, more)
  {
    forall j | 0 <= j < Chunks(writes[w]) ensures Has(writes, w, more, j) { assert Has(writes, w, arrived, j); }
  }

  /** The buffer of write v after chunk i of write w has been stored. */
  lemma PendingAfter(bufs: map<uint16, Buf>, writes: seq<bytes>, w: nat, i: nat, v: nat, arrived: set<nat>)
    requires w < |writes| && w < M16 && i < Chunks(writes[w]) && v < |writes|
    requires Pending(bufs, writes, v, arrived)
    requires w in bufs ==> |bufs[w].chunks| == Chunks(writes[w])
    ensures var b := if w in bufs then bufs[w] else Buf(Blank(Chunks(writes[w])), 0);
            Pending(bufs[w := Put(b, i, Piece(writes[w], i))], writes, v, arrived + {Base(writes, w) + i})
  {
    if v == w {
      if w !in bufs { BlankHolds(writes, w, arrived); }
      PutHolds(if w in bufs then bufs[w] else Buf(Blank(Chunks(writes[w])), 0), writes, w, i, arrived);
    } else {
      PendingElsewhere(bufs, writes, w, i, v, arrived);
    }
  }

  lemma StoreLoose(r: Reassembly, writes: seq<bytes>, start: nat, arrived: set<nat>, w: nat, i: nat)
    requires Sent(writes) && Loose(r, writes, start, arrived) && w < |writes| && w < M16 && i < Chunks(writes[w])
    ensures var c := Chunk(w, i, Chunks(writes[w]), Piece(writes[w], i));
            && i < |Current(r, c).chunks|
            && Loose(Stored(r, c), writes, start, arrived + {Base(writes, w) + i})
  {
    var c := Chunk(w, i, Chunks(writes[w]), Piece(writes[w], i));
    var more := arrived + {Base(writes, w) + i};
    var q := Stored(r, c);
    assert Sized(q.bufs, writes);
    forall v | start <= v < r.next ensures AllArrived(writes, v, more) { ArrivedStays(writes, v, arrived, more); }
    forall v | r.next <= v < |writes| ensures Pending(q.bufs, writes, v, more) {
      PendingAfter(r.bufs, writes, w, i, v, arrived);
    }
  }

  /**
   * One packet, any order, new or duplicate: reassembly never indexes out of bounds and goes on to have
   * delivered exactly the writes from the start to the first incomplete one.
   */
  lemma AcceptExact(r: Reassembly, writes: seq<bytes>, start: nat, arrived: set<nat>, raw: bytes, n: nat, w: nat, i: nat)
    requires Sent(writes) && Exact(r, writes, start, arrived) && Carries(raw, writes, n, w, i)
    ensures InBounds(r, raw)
    ensures Exact(Accept(r, raw), writes, start, arrived + {n})
    ensures Accept(r, raw).next >= r.next
  {
    var c := Chunk(w, i, Chunks(writes[w]), Piece(writes[w], i));
    StoreLoose(r, writes, start, arrived, w, i);
    AcceptChunk(r, raw, c);
    DeliverExact(Stored(r, c), writes, start, arrived + {n});
  }

  /** Every packet between the start and the cursor has been taken. */
  lemma DeliveredArrived(r: Reassembly, writes: seq<bytes>, start: nat, arrived: set<nat>, n: nat)
    requires Loose(r, writes, start, arrived) && Base(writes, start) <= n < Base(writes, r.next)
    ensures n in arrived
  {
    var v := WriteOf(writes, n, r.next);
    if v < start { BaseMonotone(writes, v, start); }
    assert AllArrived(writes, v, arrived);
    assert Has(writes, v, arrived, n - Base(writes, v));
  }
}
