/** The frame format, reading a byte stream of frames, and coalescing frames into writes. */
module FrameCodec {
  import opened Bytes

  const HEADER: nat := 13
  const MAX_PAYLOAD: nat := 65535

  datatype Frame = Frame(streamId: uint32, kind: byte, sequence: uint32, payload: bytes)

  datatype ReadError = EndOfStream | CutShort | TooLong

  datatype ReadResult = Got(frame: Frame, rest: bytes) | Failed(error: ReadError)

  /** A payload over the limit is refused. */
  function Marshal(f: Frame): (r: Option<bytes>) {
    if |f.payload| > MAX_PAYLOAD then None
    else Some(PutU32(f.streamId) + [f.kind] + PutU32(f.sequence) + PutU32(|f.payload|) + f.payload)
  }

  /** A frame that can be sent. */
  type Wired = f: Frame | |f.payload| <= MAX_PAYLOAD witness Frame(0, 0, 0, [])

  function Encode(f: Wired): (r: bytes)
    ensures |r| == HEADER + |f.payload|
  {
    Marshal(f).value
  }

  function ReadFrame(s: bytes): (r: ReadResult)
    ensures r.Got? ==> |r.frame.payload| <= MAX_PAYLOAD && |s| == HEADER + |r.frame.payload| + |r.rest|
  {
    if |s| < HEADER then Failed(if |s| == 0 then EndOfStream else CutShort)
    else
      var n := U32(s[9..13]);
      if n > MAX_PAYLOAD then Failed(TooLong)
      else if |s| < HEADER + n then Failed(CutShort)
      else Got(Frame(U32(s[0..4]), s[4], U32(s[5..9]), s[13..13 + n]), s[13 + n..])
  }

  /** Reads frames until the stream fails. */
  function ReadAll(s: bytes): (r: (seq<Wired>, ReadError))
    decreases |s|
  {
    match ReadFrame(s)
    case Failed(e) => ([], e)
    case Got(f, rest) => var (fs, e) := ReadAll(rest); ([f] + fs, e)
  }

  function Wire(fs: seq<Wired>): bytes {
    if |fs| == 0 then [] else Encode(fs[0]) + Wire(fs[1..])
  }

  lemma HeaderParts(f: Wired, t: bytes)
    ensures var s := Encode(f) + t;
            && s[0..4] == PutU32(f.streamId) && s[4] == f.kind && s[5..9] == PutU32(f.sequence)
            && s[9..13] == PutU32(|f.payload|) && s[13..13 + |f.payload|] == f.payload && s[13 + |f.payload|..] == t
  {
  }

  /** Reading from the encoding of a frame followed by anything returns the frame and what follows. */
  lemma ReadEncoded(f: Wired, t: bytes)
    ensures ReadFrame(Encode(f) + t) == Got(f, t)
  {
    HeaderParts(f, t);
    U32RoundTrip(f.streamId);
    U32RoundTrip(f.sequence);
    U32RoundTrip(|f.payload|);
  }

  lemma PutU32Back(s: bytes)
    requires |s| == 4
    ensures PutU32(U32(s)) == s
  {
    var hi, lo := U16(s[..2]), U16(s[2..]);
    assert (hi * M16 + lo) / M16 == hi && (hi * M16 + lo) % M16 == lo;
    assert s == s[..2] + s[2..];
  }

  /** And a frame is read only from its own encoding. */
  lemma ReadExact(s: bytes, f: Frame, rest: bytes)
    ensures ReadFrame(s) == Got(f, rest) <==> |f.payload| <= MAX_PAYLOAD && s == Encode(f) + rest
  {
    if |f.payload| <= MAX_PAYLOAD && s == Encode(f) + rest {
      ReadEncoded(f, rest);
    }
    if ReadFrame(s) == Got(f, rest) {
      PutU32Back(s[0..4]);
      PutU32Back(s[5..9]);
      PutU32Back(s[9..13]);
      var n := |f.payload|;
      assert s == s[0..4] + [s[4]] + s[5..9] + s[9..13] + s[13..13 + n] + s[13 + n..];
    }
  }

  /** A stream that breaks off inside a frame yields no frame from there on. */
  lemma ReadCut(f: Wired, k: nat)
    requires k < |Encode(f)|
    ensures ReadFrame(Encode(f)[..k]) == Failed(if k == 0 then EndOfStream else CutShort)
  {
    if k >= HEADER {
      HeaderParts(f, []);
      assert Encode(f) + [] == Encode(f);
      assert Encode(f)[..k][9..13] == Encode(f)[9..13];
      U32RoundTrip(|f.payload|);
    }
  }

  /** How many whole frames the first k bytes of the wire hold. */
  function Whole(fs: seq<Wired>, k: nat): (m: nat)
    ensures m <= |fs|
  {
    if |fs| == 0 || |Encode(fs[0])| > k then 0 else 1 + Whole(fs[1..], k - |Encode(fs[0])|)
  }

  lemma {:induction false} WholeFits(fs: seq<Wired>, k: nat)
    ensures |Wire(fs[..Whole(fs, k)])| <= k
    ensures Whole(fs, k) < |fs| ==> |Wire(fs[..Whole(fs, k) + 1])| > k
  {
    if |fs| > 0 {
      if |Encode(fs[0])| > k {
        assert fs[..1][1..] == [];
      } else {
        var m := Whole(fs[1..], k - |Encode(fs[0])|);
        WholeFits(fs[1..], k - |Encode(fs[0])|);
        HeadFrame(fs, m);
        if m + 1 < |fs| { HeadFrame(fs, m + 1); }
      }
    }
  }

  /** What a reader should see of the first k bytes: the whole frames, then the end of the stream when the cut
      falls between frames, a short read otherwise. */
  ghost function Expected(fs: seq<Wired>, k: nat): (seq<Wired>, ReadError) {
    var m := Whole(fs, k);
    (fs[..m], if |Wire(fs[..m])| == k then EndOfStream else CutShort)
  }

  lemma ExpectedStep(fs: seq<Wired>, k: nat)
    requires |fs| > 0 && |Encode(fs[0])| <= k
    ensures var rest := Expected(fs[1..], k - |Encode(fs[0])|); Expected(fs, k) == ([fs[0]] + rest.0, rest.1)
  {
    HeadFrame(fs, Whole(fs[1..], k - |Encode(fs[0])|));
  }

  /** Whatever prefix of the wire arrives, repeated reading returns exactly what it should. */
  lemma {:induction false} ReadPrefix(fs: seq<Wired>, k: nat)
    requires k <= |Wire(fs)|
    ensures ReadAll(Wire(fs)[..k]) == Expected(fs, k)
  {
    if |fs| == 0 {
      assert Wire(fs)[..k] == [];
    } else {
      var e, t := Encode(fs[0]), Wire(fs[1..]);
      if |e| > k {
        assert Wire(fs)[..k] == e[..k];
        ReadCut(fs[0], k);
      } else {
        TakeConcat(e, t, k);
        ReadPrefix(fs[1..], k - |e|);
        ReadStep(fs[0], t[..k - |e|]);
        ExpectedStep(fs, k);
      }
    }
  }

  lemma TakeConcat(e: bytes, t: bytes, k: nat)
    requires |e| <= k <= |e| + |t|
    ensures (e + t)[..k] == e + t[..k - |e|]
  {
  }

  lemma ReadStep(f: Wired, t: bytes)
    ensures ReadAll(Encode(f) + t) == ([f] + ReadAll(t).0, ReadAll(t).1)
  {
    ReadEncoded(f, t);
  }

  lemma HeadFrame(fs: seq<Wired>, m: nat)
    requires m < |fs|
    ensures fs[..m + 1] == [fs[0]] + fs[1..][..m]
    ensures Wire(fs[..m + 1]) == Encode(fs[0]) + Wire(fs[1..][..m])
  {
    assert fs[..m + 1][1..] == fs[1..][..m];
  }

  lemma {:induction false} WholeAll(fs: seq<Wired>)
    ensures Whole(fs, |Wire(fs)|) == |fs|
  {
    if |fs| > 0 { WholeAll(fs[1..]); }
  }

  /** The whole wire gives back exactly the frames. */
  lemma ReadWire(fs: seq<Wired>)
    ensures ReadAll(Wire(fs)) == (fs, EndOfStream)
  {
    WholeAll(fs);
    ReadPrefix(fs, |Wire(fs)|);
    assert Wire(fs)[..|Wire(fs)|] == Wire(fs) && fs[..|fs|] == fs;
  }
}

/** The write loop: queued frames leave in batches, each batch in one write. */
module WriteBatching {
  import opened Bytes
  import opened FrameCodec

  const MAX_BATCH_FRAMES: nat := 64
  const MAX_BATCH_BYTES: nat := 4096

  ghost function Encodings(fs: seq<Wired>): (r: seq<bytes>)
    ensures |r| == |fs| && forall i :: 0 <= i < |fs| ==> r[i] == Encode(fs[i])
  {
    seq(|fs|, i requires 0 <= i < |fs| => Encode(fs[i]))
  }

  lemma EncodingsCons(fs: seq<Wired>)
    requires |fs| > 0
    ensures Encodings(fs) == [Encode(fs[0])] + Encodings(fs[1..])
  {
  }

  lemma {:induction false} WireIsFlat(fs: seq<Wired>)
    ensures Wire(fs) == Flatten(Encodings(fs))
  {
    if |fs| > 0 {
      WireIsFlat(fs[1..]);
      EncodingsCons(fs);
      FlattenCons(Encode(fs[0]), Encodings(fs[1..]));
    }
  }

  /** One batch: the first frame, then more while they are ready, fewer than 64 and below 4096 bytes so far. */
  method TakeBatch(queue: seq<bytes>, ready: nat) returns (k: nat, buf: bytes)
    requires queue != []
    ensures 1 <= k <= |queue| && k <= MAX_BATCH_FRAMES
    ensures buf == Flatten(queue[..k])
    ensures k == 1 || k <= ready
    ensures k > 1 ==> |Flatten(queue[..k - 1])| < MAX_BATCH_BYTES
    ensures k < |queue| && k < ready ==> k == MAX_BATCH_FRAMES || |buf| >= MAX_BATCH_BYTES
  {
    k, buf := 1, queue[0];
    assert Flatten(queue[..1]) == queue[0] by {
      assert queue[..1] == [] + [queue[0]];
      FlattenSnoc([], queue[0]);
    }
    while k < |queue| && k < ready && k < MAX_BATCH_FRAMES && |buf| < MAX_BATCH_BYTES
      invariant 1 <= k <= |queue| && k <= MAX_BATCH_FRAMES && (k == 1 || k <= ready)
      invariant buf == Flatten(queue[..k])
      invariant k > 1 ==> |Flatten(queue[..k - 1])| < MAX_BATCH_BYTES
    {
      assert queue[..k + 1] == queue[..k] + [queue[k]];
      FlattenSnoc(queue[..k], queue[k]);
      buf := buf + queue[k];
      k := k + 1;
    }
  }

  /** Indices into a list of n, in order, none twice. */
  ghost predicate Picks(kept: seq<nat>, n: nat) {
    && (forall i :: 0 <= i < |kept| ==> kept[i] < n)
    && (forall i, j :: 0 <= i < j < |kept| ==> kept[i] < kept[j])
  }

  ghost function Picked<T>(s: seq<T>, kept: seq<nat>): (r: seq<T>)
    requires Picks(kept, |s|)
    ensures |r| == |kept| && forall i :: 0 <= i < |kept| ==> r[i] == s[kept[i]]
  {
    seq(|kept|, i requires 0 <= i < |kept| => s[kept[i]])
  }

  function Range(from: nat, k: nat): (r: seq<nat>)
    ensures |r| == k && forall i :: 0 <= i < k ==> r[i] == from + i
  {
    seq(k, i requires 0 <= i < k => from + i)
  }

  /** A batch from position done on, after frames before it. */
  lemma PickBatch(queue: seq<bytes>, kept: seq<nat>, done: nat, k: nat)
    requires Picks(kept, done) && done + k <= |queue|
    ensures Picks(kept, |queue|) && Picks(kept + Range(done, k), done + k) && Picks(kept + Range(done, k), |queue|)
    ensures Flatten(Picked(queue, kept + Range(done, k))) == Flatten(Picked(queue, kept)) + Flatten(queue[done..][..k])
  {
    var more := kept + Range(done, k);
    assert Picked(queue, more) == Picked(queue, kept) + queue[done..][..k];
    FlattenConcat(Picked(queue, kept), queue[done..][..k]);
  }

  /** The frames from one cut to the next are a batch, kept exactly when its write did not fail. */
  ghost predicate KeptBatch(from: nat, to: nat, kept: seq<nat>, failed: bool) {
    && from < to && to - from <= MAX_BATCH_FRAMES
    && forall i :: from <= i < to ==> (i in kept <==> !failed)
  }

  ghost predicate Turn(cuts: seq<nat>, t: nat, kept: seq<nat>, fails: nat -> bool)
    requires t + 1 < |cuts|
  {
    KeptBatch(cuts[t], cuts[t + 1], kept, fails(t))
  }

  /** A batch takes one frame, then more while they are ready, fewer than 64 and below 4096 bytes so far. */
  ghost predicate Filled(queue: seq<bytes>, from: nat, to: nat, ready: nat) {
    && from < to <= |queue| && (to - from == 1 || to - from <= ready)
    && (to - from > 1 ==> |Flatten(queue[from..to - 1])| < 4096)
    && (to < |queue| && to - from < ready ==> to - from == 64 || |Flatten(queue[from..to])| >= 4096)
  }

  ghost predicate AllBatchesFilled(queue: seq<bytes>, cuts: seq<nat>, ready: nat -> nat) {
    forall t :: 0 <= t < |cuts| - 1 ==> Filled(queue, cuts[t], cuts[t + 1], ready(t))
  }

  lemma BatchFilled(queue: seq<bytes>, from: nat, k: nat, ready: nat)
    requires from + k <= |queue| && k > 0 && (k == 1 || k <= ready)
    requires k > 1 ==> |Flatten(queue[from..][..k - 1])| < MAX_BATCH_BYTES
    requires k < |queue| - from && k < ready ==> k == MAX_BATCH_FRAMES || |Flatten(queue[from..][..k])| >= MAX_BATCH_BYTES
    ensures Filled(queue, from, from + k, ready)
  {
    assert k > 1 ==> queue[from..][..k - 1] == queue[from..from + k - 1];
    assert queue[from..][..k] == queue[from..from + k];
  }

  lemma OneMoreFilled(queue: seq<bytes>, cuts: seq<nat>, ready: nat -> nat, to: nat)
    requires |cuts| > 0 && AllBatchesFilled(queue, cuts, ready)
    requires Filled(queue, cuts[|cuts| - 1], to, ready(|cuts| - 1))
    ensures AllBatchesFilled(queue, cuts + [to], ready)
  {
    var cuts' := cuts + [to];
    forall t | 0 <= t < |cuts'| - 1 ensures Filled(queue, cuts'[t], cuts'[t + 1], ready(t)) {
      if t < |cuts| - 1 { assert Filled(queue, cuts[t], cuts[t + 1], ready(t)); }
    }
  }

  /** cuts: where the batches begin and end, from the first frame to the n-th. */
  ghost predicate Batched(cuts: seq<nat>, n: nat, kept: seq<nat>, fails: nat -> bool) {
    && |cuts| > 0 && cuts[0] == 0 && cuts[|cuts| - 1] == n
    && forall t :: 0 <= t < |cuts| - 1 ==> Turn(cuts, t, kept, fails)
  }

  lemma {:induction false} CutsAtMost(cuts: seq<nat>, n: nat, kept: seq<nat>, fails: nat -> bool, t: nat)
    requires Batched(cuts, n, kept, fails) && t < |cuts|
    ensures cuts[t] <= n
    decreases |cuts| - t
  {
    if t < |cuts| - 1 {
      assert Turn(cuts, t, kept, fails);
      CutsAtMost(cuts, n, kept, fails, t + 1);
    }
  }

  /** Keeping later frames does not change an earlier batch. */
  lemma EarlierBatch(from: nat, to: nat, kept: seq<nat>, failed: bool, n: nat, k: nat)
    requires KeptBatch(from, to, kept, failed) && to <= n
    ensures KeptBatch(from, to, kept + Range(n, k), failed)
  {
    forall i | from <= i < to ensures i in kept + Range(n, k) <==> i in kept { assert i !in Range(n, k); }
  }

  lemma ThisBatch(n: nat, k: nat, kept: seq<nat>)
    requires Picks(kept, n) && 0 < k <= MAX_BATCH_FRAMES
    ensures KeptBatch(n, n + k, kept, true) && KeptBatch(n, n + k, kept + Range(n, k), false)
  {
    forall i | n <= i < n + k ensures i !in kept && i in Range(n, k) { assert Range(n, k)[i - n] == i; }
  }

  lemma NextTurn(cuts: seq<nat>, n: nat, k: nat, kept: seq<nat>, fails: nat -> bool)
    requires Batched(cuts, n, kept, fails) && Picks(kept, n) && 0 < k <= MAX_BATCH_FRAMES
    ensures Batched(cuts + [n + k], n + k, if fails(|cuts| - 1) then kept else kept + Range(n, k), fails)
  {
    var last, cuts' := |cuts| - 1, cuts + [n + k];
    var more := if fails(last) then kept else kept + Range(n, k);
    forall t | 0 <= t < |cuts'| - 1 ensures Turn(cuts', t, more, fails) {
      if t < last {
        assert Turn(cuts, t, kept, fails);
        CutsAtMost(cuts, n, kept, fails, t + 1);
        EarlierBatch(cuts[t], cuts[t + 1], kept, fails(t), n, k);
      } else {
        ThisBatch(n, k, kept);
      }
    }
  }

  /**
   * All the frames of a queue, however many are ready each time and whichever writes fail: a write that fails loses
   * its batch, and only that, and the loop goes on to the end. writes: those that succeed; kept: the frames they carry,
   * in order, each once; cuts: the batches.
   */
  method WriteLoop(queue: seq<bytes>, ready: nat -> nat, fails: nat -> bool)
    returns (writes: seq<bytes>, kept: seq<nat>, cuts: seq<nat>)
    ensures Picks(kept, |queue|) && Flatten(writes) == Flatten(Picked(queue, kept))
    ensures Batched(cuts, |queue|, kept, fails) && AllBatchesFilled(queue, cuts, ready)
  {
    writes, kept, cuts := [], [], [0];
    var done := 0;
    while done < |queue|
      invariant done <= |queue| && Batched(cuts, done, kept, fails) && Carry(writes, queue, kept, done)
      invariant AllBatchesFilled(queue, cuts, ready)
    {
      var turn := |cuts| - 1;
      var k, buf := TakeBatch(queue[done..], ready(turn));
      CarryMore(writes, queue, kept, done, k, buf);
      NextTurn(cuts, done, k, kept, fails);
      BatchFilled(queue, done, k, ready(turn));
      OneMoreFilled(queue, cuts, ready, done + k);
      cuts := cuts + [done + k];
      if !fails(turn) { writes, kept := writes + [buf], kept + Range(done, k); }
      done := done + k;
      assert Batched(cuts, done, kept, fails) && Carry(writes, queue, kept, done);
    }
  }

  /** The writes carry the frames kept, which are among the first n. */
  ghost predicate Carry(writes: seq<bytes>, queue: seq<bytes>, kept: seq<nat>, n: nat)
    requires n <= |queue|
  {
    Picks(kept, n) && Picks(kept, |queue|) && Flatten(writes) == Flatten(Picked(queue, kept))
  }

  lemma CarryMore(writes: seq<bytes>, queue: seq<bytes>, kept: seq<nat>, n: nat, k: nat, buf: bytes)
    requires n + k <= |queue| && Carry(writes, queue, kept, n) && buf == Flatten(queue[n..][..k])
    ensures Carry(writes, queue, kept, n + k) && Carry(writes + [buf], queue, kept + Range(n, k), n + k)
  {
    PickBatch(queue, kept, n, k);
    FlattenSnoc(writes, buf);
  }

  /** However the frames were batched into writes and whichever writes failed, the peer reads back exactly the frames
      whose writes succeeded. */
  lemma BatchesReadBack(fs: seq<Wired>, kept: seq<nat>, writes: seq<bytes>)
    requires Picks(kept, |fs|) && Flatten(writes) == Flatten(Picked(Encodings(fs), kept))
    ensures ReadAll(Flatten(writes)) == (Picked(fs, kept), EndOfStream)
  {
    assert Picked(Encodings(fs), kept) == Encodings(Picked(fs, kept));
    WireIsFlat(Picked(fs, kept));
    ReadWire(Picked(fs, kept));
  }
}
