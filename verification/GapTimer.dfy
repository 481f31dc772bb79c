/** The timer is documented as the age of the oldest gap; it is not. */
module GapTimer {
  import opened Bytes
  import opened Serial
  import opened ReorderSpec

  /**
   * Chunk 1 arrives at second 0 and chunk 3 at second 4, then chunk 0 fills the first gap. At second
   * 6 the only gap left, at chunk 2, opened two seconds ago, yet more than five seconds are measured.
   */
  lemma TimerOutlivesItsGap(a: bytes, b: bytes, d: bytes)
    ensures var r1 := Insert(EMPTY, 1, b, 0).0;
            var r2 := Insert(r1, 3, d, 4).0;
            var r3 := Insert(r2, 0, a, 4).0;
            && Insert(r2, 0, a, 4).1 == [a, b]
            && r3.nextSeq == 2 && r3.held == map[3 := d]
            && r3.gapSince == Some(0) && 6 - r3.gapSince.value > 5
  {
    var r1 := Insert(EMPTY, 1, b, 0).0;
    assert r1 == Reorder(0, map[1 := b], Some(0));
    var r2 := Insert(r1, 3, d, 4).0;
    assert r2 == Reorder(0, map[1 := b, 3 := d], Some(0));
    var h0: map<uint32, bytes> := r2.held[0 := a];
    var h1: map<uint32, bytes> := map[1 := b, 3 := d];
    var h2: map<uint32, bytes> := map[3 := d];
    assert h0 - {0} == h1 && h1 - {1} == h2;
    assert Drain(2, h2) == (2, h2, []);
    assert Drain(1, h1) == (2, h2, [b] + []);
    assert Drain(0, h0) == (2, h2, [a] + ([b] + []));
  }

  // ---------------------------------------------------------------- exactly when it is

  function NumberAt(c: uint32, d: nat): uint32 {
    (c + d) % M32
  }

  /** Everything from the cursor up to q is held. */
  ghost predicate InRun(c: uint32, held: map<uint32, bytes>, q: uint32) {
    forall d :: 0 <= d <= Ahead32(c, q) ==> NumberAt(c, d) in held
  }

  lemma InRunStep(c: uint32, held: map<uint32, bytes>, q: uint32)
    requires c in held && q != c && Near32(c, q)
    ensures InRun(c, held, q) <==> InRun((c + 1) % M32, held - {c}, q)
  {
    var c', held', n := (c + 1) % M32, held - {c}, Ahead32(c, q);
    AheadStep(c, q);
    forall d | 0 < d <= n ensures NumberAt(c, d) in held <==> NumberAt(c', d - 1) in held' {
      assert NumberAt(c', d - 1) == NumberAt(c, d) != c;
    }
    if InRun(c, held, q) {
      forall d | 0 <= d <= Ahead32(c', q) ensures NumberAt(c', d) in held' { assert NumberAt(c, d + 1) in held; }
    }
    if InRun(c', held', q) {
      forall d | 0 <= d <= n ensures NumberAt(c, d) in held {
        if d > 0 { assert NumberAt(c', d - 1) in held'; }
      }
    }
  }

  lemma NearStep(c: uint32, held: map<uint32, bytes>)
    requires AllNear(c, held)
    ensures AllNear((c + 1) % M32, held - {c})
  {
    forall s | s in held - {c} ensures Near32((c + 1) % M32, s) { AheadStep(c, s); }
  }

  lemma DrainsCursor(c: uint32, held: map<uint32, bytes>)
    requires AllNear(c, held) && c in held
    ensures c !in Drain(c, held).1 && InRun(c, held, c)
  {
    NearStep(c, held);
    DrainKeepsWindow((c + 1) % M32, held - {c});
    assert NumberAt(c, 0) == c;
  }

  /** A drain leaves exactly what does not belong to the run from the cursor. */
  lemma {:induction false} DrainRest(c: uint32, held: map<uint32, bytes>, q: uint32)
    requires AllNear(c, held) && q in held
    ensures q in Drain(c, held).1 <==> !InRun(c, held, q)
    decreases |held|
  {
    if c !in held {
      assert NumberAt(c, 0) == c;
    } else if q == c {
      DrainsCursor(c, held);
    } else {
      NearStep(c, held);
      DrainRest((c + 1) % M32, held - {c}, q);
      InRunStep(c, held, q);
    }
  }

  ghost predicate Oldest(at: map<uint32, int>, t: int) {
    (exists q :: q in at && at[q] == t) && forall q :: q in at ==> t <= at[q]
  }

  /** The timer tells the truth: it started when the oldest chunk behind the gap at the cursor arrived. */
  ghost predicate OnTime(r: Reorder, at: map<uint32, int>) {
    at.Keys == r.held.Keys && (r.held != map[] ==> r.gapSince.Some? && Oldest(at, r.gapSince.value))
  }

  /** Arrival times of what is held after an insertion. */
  ghost function Arrivals(at: map<uint32, int>, held: map<uint32, bytes>, now: int): map<uint32, int> {
    map q | q in held :: if q in at then at[q] else now
  }

  /** The run that chunk s is about to release takes the chunk that started the timer, and leaves another. */
  ghost predicate ReleasesOpener(r: Reorder, at: map<uint32, int>, s: uint32, data: bytes)
    requires at.Keys == r.held.Keys
  {
    && s == r.nextSeq
    && (exists q :: q in r.held && !InRun(s, r.held[s := data], q))
    && forall q :: q in at && r.gapSince == Some(at[q]) ==> InRun(s, r.held[s := data], q)
  }

  lemma BufferedOnTime(r: Reorder, at: map<uint32, int>, s: uint32, data: bytes, now: int)
    requires r.Valid() && OnTime(r, at) && (forall q :: q in at ==> at[q] <= now) && s != r.nextSeq
    ensures var r' := Insert(r, s, data, now).0; OnTime(r', Arrivals(at, r'.held, now))
  {
    var r' := Insert(r, s, data, now).0;
    var at' := Arrivals(at, r'.held, now);
    assert r.nextSeq !in r.held;
    if Less32(s, r.nextSeq) || s in r.held {
      assert at' == at;
    } else {
      assert r'.held == r.held[s := data];
      if r.held == map[] {
        assert at'[s] == now;
      } else {
        var q :| q in at && at[q] == r.gapSince.value;
        assert at'[q] == at[q];
      }
    }
  }

  /**
   * The timer stays true to its description exactly until an insertion releases the chunk that started
   * it while leaving another one behind a later gap.
   */
  lemma GapTimerExact(r: Reorder, at: map<uint32, int>, s: uint32, data: bytes, now: int)
    requires r.Valid() && OnTime(r, at) && forall q :: q in at ==> at[q] <= now
    ensures var r' := Insert(r, s, data, now).0;
            OnTime(r', Arrivals(at, r'.held, now)) <==> !ReleasesOpener(r, at, s, data)
  {
    if s != r.nextSeq {
      BufferedOnTime(r, at, s, data, now);
    } else {
      ReleasedOnTime(r, at, data, now);
    }
  }

  lemma ReleasedOnTime(r: Reorder, at: map<uint32, int>, data: bytes, now: int)
    requires r.Valid() && OnTime(r, at)
    ensures var r' := Insert(r, r.nextSeq, data, now).0;
            OnTime(r', Arrivals(at, r'.held, now)) <==> !ReleasesOpener(r, at, r.nextSeq, data)
  {
    var c, held := r.nextSeq, r.held[r.nextSeq := data];
    var rest := Drain(c, held).1;
    assert c !in r.held;
    DrainsCursor(c, held);
    DrainKeepsWindow(c, held);
    assert Insert(r, c, data, now).0.held == rest;
    forall q | q in r.held ensures q in rest <==> !InRun(c, held, q) { DrainRest(c, held, q); }
    GapTimerMeaning(r, c, data, now);
    var at' := Arrivals(at, rest, now);
    assert forall q :: q in rest ==> at'[q] == at[q];
  }

  // ---------------------------------------------------------------- runs

  datatype Insertion = Insertion(s: uint32, data: bytes, now: int)

  /** The buffer and the arrival times of what it holds. */
  datatype Timed = Timed(r: Reorder, at: map<uint32, int>) {
    /** The times belong to the chunks held, and none is later than now. */
    ghost predicate Valid(now: int) {
      r.Valid() && at.Keys == r.held.Keys && forall q :: q in at ==> at[q] <= now
    }
  }

  ghost function After(t: Timed, x: Insertion): Timed {
    var r := Insert(t.r, x.s, x.data, x.now).0;
    Timed(r, Arrivals(t.at, r.held, x.now))
  }

  /** Insertions one after the other into an empty buffer, the clock never going back. */
  ghost predicate IsRun(ts: seq<Timed>, xs: seq<Insertion>) {
    && |ts| == |xs| + 1 && ts[0] == Timed(EMPTY, map[])
    && (forall k :: 0 <= k < |xs| ==> ts[k + 1] == After(ts[k], xs[k]))
    && (forall j, k :: 0 <= j < k < |xs| ==> xs[j].now <= xs[k].now)
  }

  lemma AfterValid(t: Timed, x: Insertion, later: int)
    requires t.Valid(x.now) && x.now <= later
    ensures After(t, x).Valid(later)
  {
    InsertKeepsValid(t.r, x.s, x.data, x.now);
  }

  lemma {:induction false} RunValid(ts: seq<Timed>, xs: seq<Insertion>, k: nat)
    requires IsRun(ts, xs) && k < |xs|
    ensures ts[k].Valid(xs[k].now)
  {
    if k > 0 {
      RunValid(ts, xs, k - 1);
      AfterValid(ts[k - 1], xs[k - 1], xs[k].now);
    }
  }

  ghost predicate Releases(t: Timed, x: Insertion) {
    t.at.Keys == t.r.held.Keys && ReleasesOpener(t.r, t.at, x.s, x.data)
  }

  lemma {:induction false} OnTimeUpTo(ts: seq<Timed>, xs: seq<Insertion>, k: nat)
    requires IsRun(ts, xs) && k < |ts| && forall j :: 0 <= j < |xs| ==> !Releases(ts[j], xs[j])
    ensures OnTime(ts[k].r, ts[k].at)
  {
    if k > 0 {
      OnTimeUpTo(ts, xs, k - 1);
      RunValid(ts, xs, k - 1);
      assert !Releases(ts[k - 1], xs[k - 1]);
      GapTimerExact(ts[k - 1].r, ts[k - 1].at, xs[k - 1].s, xs[k - 1].data, xs[k - 1].now);
    }
  }

  /**
   * In every run the timer is true to its description at every point if and only if no insertion releases the
   * chunk that started it while leaving another one behind a later gap.
   */
  lemma GapTimerRuns(ts: seq<Timed>, xs: seq<Insertion>)
    requires IsRun(ts, xs)
    ensures (forall k :: 0 <= k < |ts| ==> OnTime(ts[k].r, ts[k].at)) <==>
            (forall k :: 0 <= k < |xs| ==> !Releases(ts[k], xs[k]))
  {
    if forall k :: 0 <= k < |ts| ==> OnTime(ts[k].r, ts[k].at) {
      forall k | 0 <= k < |xs| ensures !Releases(ts[k], xs[k]) {
        RunValid(ts, xs, k);
        assert OnTime(ts[k].r, ts[k].at) && OnTime(ts[k + 1].r, ts[k + 1].at);
        GapTimerExact(ts[k].r, ts[k].at, xs[k].s, xs[k].data, xs[k].now);
      }
    }
    if forall k :: 0 <= k < |xs| ==> !Releases(ts[k], xs[k]) {
      forall k | 0 <= k < |ts| ensures OnTime(ts[k].r, ts[k].at) { OnTimeUpTo(ts, xs, k); }
    }
  }
}
