/** Creating n relay allocations in batches, with retries, a growing delay and a final mark. */
module GradualAllocation {

  const DEFAULT_BATCH_SIZE: nat := 2
  const SECOND: nat := 1_000_000_000
  const DEFAULT_BATCH_DELAY: nat := 2 * SECOND
  const MAX_BATCH_DELAY: nat := 300 * SECOND
  const FLOOD_RETRY_DELAY: nat := 300 * SECOND
  const MAX_RETRIES: nat := 5

  datatype Item = Item(idx: nat, retries: nat)
  datatype Outcome = Created | RateLimited(code: int) | Failed
  datatype Batch = Batch(allocs: seq<nat>, final: bool)

  /** One report: which of the outstanding attempts it comes from, and how that attempt ended. */
  datatype Event = Event(pick: nat, outcome: Outcome)

  /** The reports in the order in which they come; past the end of the trace every attempt fails. */
  function At(trace: seq<Event>, pos: nat): Event {
    if pos < |trace| then trace[pos] else Event(0, Failed)
  }

  /** What the loop sees when it looks for the i-th time whether the caller has cancelled. */
  predicate Cancelled(cancels: seq<bool>, i: nat) {
    i < |cancels| ==> cancels[i]
  }

  // ---------------------------------------------------------------- bookkeeping

  /** How often index i occurs among the items. */
  ghost function Times(items: seq<Item>, i: nat): nat {
    if |items| == 0 then 0
    else Times(items[..|items| - 1], i) + if items[|items| - 1].idx == i then 1 else 0
  }

  ghost function Occurs(xs: seq<nat>, i: nat): nat {
    if |xs| == 0 then 0 else Occurs(xs[..|xs| - 1], i) + if xs[|xs| - 1] == i then 1 else 0
  }

  /** Attempts left before an item is given up: six failures in all. */
  ghost function Left(items: seq<Item>): int {
    if |items| == 0 then 0 else Left(items[..|items| - 1]) + MAX_RETRIES + 1 - items[|items| - 1].retries
  }

  ghost predicate Retriable(items: seq<Item>) {
    forall i :: 0 <= i < |items| ==> items[i].retries <= MAX_RETRIES
  }

  function Removed(items: seq<Item>, j: nat): (r: seq<Item>)
    requires j < |items|
  {
    items[..j] + items[j + 1..]
  }

  lemma {:induction false} Concat(a: seq<Item>, b: seq<Item>, i: nat)
    ensures Left(a + b) == Left(a) + Left(b) && Times(a + b, i) == Times(a, i) + Times(b, i)
  {
    if |b| == 0 {
      assert a + b == a;
    } else {
      Concat(a, b[..|b| - 1], i);
      assert (a + b)[..|a + b| - 1] == a + b[..|b| - 1];
    }
  }

  lemma Append(items: seq<Item>, x: Item, i: nat)
    ensures Times(items + [x], i) == Times(items, i) + if x.idx == i then 1 else 0
    ensures Left(items + [x]) == Left(items) + MAX_RETRIES + 1 - x.retries
  {
    assert (items + [x])[..|items|] == items;
  }

  lemma TakeOut(a: seq<Item>, x: Item, b: seq<Item>, i: nat)
    ensures Times(a + [x] + b, i) == Times(a + b, i) + if x.idx == i then 1 else 0
    ensures Left(a + [x] + b) == Left(a + b) + MAX_RETRIES + 1 - x.retries
  {
    Concat(a + [x], b, i);
    Append(a, x, i);
    Concat(a, b, i);
  }

  lemma SplitAround(items: seq<Item>, j: nat)
    requires j < |items|
    ensures items[..j] + [items[j]] + items[j + 1..] == items
  {
  }

  /** Taking one item out takes out its index and its attempts left. */
  lemma RemovedEffect(items: seq<Item>, j: nat, i: nat)
    requires j < |items|
    ensures Times(items, i) == Times(Removed(items, j), i) + if items[j].idx == i then 1 else 0
    ensures Left(items) == Left(Removed(items, j)) + MAX_RETRIES + 1 - items[j].retries
  {
    TakeOut(items[..j], items[j], items[j + 1..], i);
    SplitAround(items, j);
  }

  lemma OccursAppend(xs: seq<nat>, ys: seq<nat>, x: nat, i: nat)
    ensures Occurs(xs + (ys + [x]), i) == Occurs(xs + ys, i) + if x == i then 1 else 0
  {
    assert (xs + (ys + [x]))[..|xs + ys|] == xs + ys;
  }

  lemma {:induction false} LeftNonNegative(items: seq<Item>)
    requires Retriable(items)
    ensures Left(items) >= |items|
  {
    if |items| > 0 { LeftNonNegative(items[..|items| - 1]); }
  }

  lemma {:induction false} LeftOfFresh(items: seq<Item>)
    requires forall i :: 0 <= i < |items| ==> items[i].retries == 0
    ensures Left(items) == (MAX_RETRIES + 1) * |items|
  {
    if |items| > 0 { LeftOfFresh(items[..|items| - 1]); }
  }

  /** Index i is in exactly one place (waiting, in flight, to be retried, created or given up) if it is below n. */
  ghost predicate PlacedAt(n: nat, pending: seq<Item>, batch: seq<Item>, retry: seq<Item>, created: seq<nat>,
                           dropped: seq<nat>, i: nat)
  {
    Times(pending, i) + Times(batch, i) + Times(retry, i) + Occurs(created, i) + Occurs(dropped, i)
    == if i < n then 1 else 0
  }

  ghost predicate Placed(n: nat, pending: seq<Item>, batch: seq<Item>, retry: seq<Item>, created: seq<nat>,
                         dropped: seq<nat>)
  {
    && |pending| + |batch| + |retry| + |created| + |dropped| == n
    && forall i: nat :: PlacedAt(n, pending, batch, retry, created, dropped, i)
  }

  /** The reports so far, by kind. */
  datatype Counts = Counts(created: nat, failed: nat, limited: nat)

  function Counted(c: Counts, outcome: Outcome): Counts {
    match outcome
    case Created => c.(created := c.created + 1)
    case RateLimited(_) => c.(limited := c.limited + 1)
    case Failed => c.(failed := c.failed + 1)
  }

  /** The first m reports, by kind. */
  function CountsOf(trace: seq<Event>, m: nat): Counts {
    if m == 0 then Counts(0, 0, 0) else Counted(CountsOf(trace, m - 1), At(trace, m - 1).outcome)
  }

  lemma {:induction false} CountsTotal(trace: seq<Event>, m: nat)
    ensures var c := CountsOf(trace, m); c.created + c.failed + c.limited == m
  {
    if m > 0 { CountsTotal(trace, m - 1); }
  }

  /** Failures that the items still carry. */
  ghost function Spent(items: seq<Item>): int {
    (MAX_RETRIES + 1) * |items| - Left(items)
  }

  /**
   * made, gone: how many indices are created and given up. Creations match the reports of success; an index is
   * given up only for six failures; failures and successes, with the attempts left, fit in six for each index.
   */
  ghost predicate Bounded(n: nat, pending: seq<Item>, batch: seq<Item>, retry: seq<Item>, made: nat, gone: nat, c: Counts)
  {
    && Retriable(pending) && Retriable(batch) && Retriable(retry)
    && c.created == made
    && c.failed >= (MAX_RETRIES + 1) * gone + Spent(pending) + Spent(batch) + Spent(retry)
    && c.created + c.failed + Left(pending) + Left(batch) + Left(retry) <= (MAX_RETRIES + 1) * n
  }

  // ---------------------------------------------------------------- one report

  /** What one report changes: the items to retry, the allocations, the indices given up, delay and escalation. */
  datatype Tally = Tally(retry: seq<Item>, allocs: seq<nat>, dropped: seq<nat>, delay: nat, escalate: bool)

  function Report(t: Tally, item: Item, outcome: Outcome): Tally {
    match outcome
    case Created => t.(allocs := t.allocs + [item.idx])
    case RateLimited(code) =>
      t.(retry := t.retry + [item],
         delay := if code == 14 then FLOOD_RETRY_DELAY else t.delay,
         escalate := t.escalate || code == 9 || code == 29)
    case Failed =>
      if item.retries + 1 <= MAX_RETRIES then t.(retry := t.retry + [item.(retries := item.retries + 1)])
      else t.(dropped := t.dropped + [item.idx])
  }

  lemma ReportPlacedAt(n: nat, pending: seq<Item>, batch: seq<Item>, t: Tally, created: seq<nat>, dropped: seq<nat>,
                       j: nat, outcome: Outcome, i: nat)
    requires j < |batch| && PlacedAt(n, pending, batch, t.retry, created + t.allocs, dropped + t.dropped, i)
    ensures var t' := Report(t, batch[j], outcome);
            PlacedAt(n, pending, Removed(batch, j), t'.retry, created + t'.allocs, dropped + t'.dropped, i)
  {
    RemovedEffect(batch, j, i);
    ReportAdds(t, batch[j], outcome, created, dropped, i);
  }

  /** A report adds its item's index to exactly one of the three lists. */
  lemma ReportAdds(t: Tally, x: Item, outcome: Outcome, created: seq<nat>, dropped: seq<nat>, i: nat)
    ensures var t' := Report(t, x, outcome);
            Times(t'.retry, i) + Occurs(created + t'.allocs, i) + Occurs(dropped + t'.dropped, i) ==
            Times(t.retry, i) + Occurs(created + t.allocs, i) + Occurs(dropped + t.dropped, i) + if x.idx == i then 1 else 0
  {
    match outcome
    case Created => OccursAppend(created, t.allocs, x.idx, i);
    case RateLimited(code) => Append(t.retry, x, i);
    case Failed =>
      if x.retries + 1 <= MAX_RETRIES {
        Append(t.retry, x.(retries := x.retries + 1), i);
      } else {
        OccursAppend(dropped, t.dropped, x.idx, i);
      }
  }

  lemma ReportPlaced(n: nat, pending: seq<Item>, batch: seq<Item>, t: Tally, created: seq<nat>, dropped: seq<nat>,
                     j: nat, outcome: Outcome)
    requires j < |batch| && Placed(n, pending, batch, t.retry, created + t.allocs, dropped + t.dropped)
    ensures var t' := Report(t, batch[j], outcome);
            Placed(n, pending, Removed(batch, j), t'.retry, created + t'.allocs, dropped + t'.dropped)
  {
    var t' := Report(t, batch[j], outcome);
    forall i: nat
      ensures PlacedAt(n, pending, Removed(batch, j), t'.retry, created + t'.allocs, dropped + t'.dropped, i)
    {
      assert PlacedAt(n, pending, batch, t.retry, created + t.allocs, dropped + t.dropped, i);
      ReportPlacedAt(n, pending, batch, t, created, dropped, j, outcome, i);
    }
  }

  lemma ReportBounded(n: nat, pending: seq<Item>, batch: seq<Item>, t: Tally, made: nat, gone: nat, c: Counts, j: nat,
                      outcome: Outcome)
    requires j < |batch| && Bounded(n, pending, batch, t.retry, made + |t.allocs|, gone + |t.dropped|, c)
    ensures var t' := Report(t, batch[j], outcome);
            Bounded(n, pending, Removed(batch, j), t'.retry, made + |t'.allocs|, gone + |t'.dropped|, Counted(c, outcome))
  {
    var x := batch[j];
    RemovedEffect(batch, j, 0);
    Append(t.retry, x, 0);
    Append(t.retry, x.(retries := x.retries + 1), 0);
  }

  // ---------------------------------------------------------------- one batch

  /** The reports of a batch in the order in which they come. */
  function Collect(batch: seq<Item>, t: Tally, trace: seq<Event>, pos: nat): Tally
    decreases |batch|
  {
    if |batch| == 0 then t
    else
      var j := At(trace, pos).pick % |batch|;
      Collect(Removed(batch, j), Report(t, batch[j], At(trace, pos).outcome), trace, pos + 1)
  }

  ghost predicate Seen(trace: seq<Event>, pos: nat, k: nat, code: int) {
    exists i :: pos <= i < pos + k && At(trace, i).outcome == RateLimited(code)
  }

  lemma SeenStep(trace: seq<Event>, pos: nat, k: nat, code: int)
    requires k > 0
    ensures Seen(trace, pos, k, code) <==> At(trace, pos).outcome == RateLimited(code) || Seen(trace, pos + 1, k - 1, code)
  {
  }

  /** A demand for a captcha sets the delay to the maximum; codes 9 and 29 ask for it to be doubled. */
  lemma {:induction false} DelayRule(batch: seq<Item>, t: Tally, trace: seq<Event>, pos: nat)
    ensures var r := Collect(batch, t, trace, pos); var k := |batch|;
            && r.delay == (if Seen(trace, pos, k, 14) then FLOOD_RETRY_DELAY else t.delay)
            && (r.escalate <==> t.escalate || Seen(trace, pos, k, 9) || Seen(trace, pos, k, 29))
    decreases |batch|
  {
    if |batch| > 0 {
      var j := At(trace, pos).pick % |batch|;
      DelayRule(Removed(batch, j), Report(t, batch[j], At(trace, pos).outcome), trace, pos + 1);
      SeenStep(trace, pos, |batch|, 14);
      SeenStep(trace, pos, |batch|, 9);
      SeenStep(trace, pos, |batch|, 29);
    }
  }

  // ---------------------------------------------------------------- the loop

  /** The channel's batches carry exactly the created allocations, in order. */
  function Allocs(sent: seq<Batch>): seq<nat> {
    if |sent| == 0 then [] else Allocs(sent[..|sent| - 1]) + sent[|sent| - 1].allocs
  }

  /** Nothing before the last batch is marked final. */
  ghost predicate NoneFinal(sent: seq<Batch>) {
    forall k :: 0 <= k < |sent| ==> !sent[k].final
  }

  /** Waits for the reports of one batch, in whatever order they come. */
  method CollectBatch(n: nat, pending: seq<Item>, batch0: seq<Item>, created: seq<nat>, dropped: seq<nat>, delay: nat,
                      trace: seq<Event>, pos0: nat)
    returns (t: Tally)
    requires Placed(n, pending, batch0, [], created, dropped)
    requires Bounded(n, pending, batch0, [], |created|, |dropped|, CountsOf(trace, pos0))
    ensures t == Collect(batch0, Tally([], [], [], delay, false), trace, pos0)
    ensures Placed(n, pending, [], t.retry, created + t.allocs, dropped + t.dropped)
    ensures Bounded(n, pending, [], t.retry, |created + t.allocs|, |dropped + t.dropped|, CountsOf(trace, pos0 + |batch0|))
  {
    t := Tally([], [], [], delay, false);
    var batch, pos := batch0, pos0;
    assert created + [] == created && dropped + [] == dropped;
    while |batch| > 0
      invariant pos + |batch| == pos0 + |batch0|
      invariant Placed(n, pending, batch, t.retry, created + t.allocs, dropped + t.dropped)
      invariant Bounded(n, pending, batch, t.retry, |created| + |t.allocs|, |dropped| + |t.dropped|, CountsOf(trace, pos))
      invariant Collect(batch, t, trace, pos) == Collect(batch0, Tally([], [], [], delay, false), trace, pos0)
    {
      var e := At(trace, pos);
      var j := e.pick % |batch|;
      ReportPlaced(n, pending, batch, t, created, dropped, j, e.outcome);
      ReportBounded(n, pending, batch, t, |created|, |dropped|, CountsOf(trace, pos), j, e.outcome);
      t := Report(t, batch[j], e.outcome);
      batch, pos := Removed(batch, j), pos + 1;
    }
    assert batch == [];
  }

  /** The variables of the loop between two batches; pos: the reports so far. */
  datatype Loop = Loop(pending: seq<Item>, created: seq<nat>, dropped: seq<nat>, delay: nat, pos: nat)

  ghost predicate LoopInv(n: nat, s: Loop, trace: seq<Event>) {
    && Placed(n, s.pending, [], [], s.created, s.dropped)
    && Bounded(n, s.pending, [], [], |s.created|, |s.dropped|, CountsOf(trace, s.pos))
  }

  function BatchOf(s: Loop, size: nat): nat {
    if size > |s.pending| then |s.pending| else size
  }

  /** What the reports of the next batch come to. */
  function TallyOf(s: Loop, size: nat, trace: seq<Event>): Tally {
    Collect(s.pending[..BatchOf(s, size)], Tally([], [], [], s.delay, false), trace, s.pos)
  }

  /** One batch: its items leave the queue, those to be retried go to the end, and the delay may grow. */
  function AfterBatch(s: Loop, size: nat, trace: seq<Event>): Loop {
    var k, t := BatchOf(s, size), TallyOf(s, size, trace);
    var delay := if t.escalate then (if t.delay * 2 > MAX_BATCH_DELAY then MAX_BATCH_DELAY else t.delay * 2) else t.delay;
    Loop(s.pending[k..] + t.retry, s.created + t.allocs, s.dropped + t.dropped, delay, s.pos + k)
  }

  /** Starts one batch and waits for its reports. */
  method RunBatch(n: nat, s: Loop, size: nat, trace: seq<Event>) returns (r: Loop, allocs: seq<nat>)
    requires LoopInv(n, s, trace) && s.pending != [] && size > 0
    ensures r == AfterBatch(s, size, trace) && allocs == TallyOf(s, size, trace).allocs
    ensures LoopInv(n, r, trace) && s.pos < r.pos
    ensures var k := r.pos - s.pos; var d := if Seen(trace, s.pos, k, 14) then 300_000_000_000 else s.delay;
            var doubled := if 2 * d > 300_000_000_000 then 300_000_000_000 else 2 * d;
            r.delay == if Seen(trace, s.pos, k, 9) || Seen(trace, s.pos, k, 29) then doubled else d
    ensures s.delay <= MAX_BATCH_DELAY ==> s.delay <= r.delay <= MAX_BATCH_DELAY
  {
    var k := BatchOf(s, size);
    SplitPending(n, s.pending, k, s.created, s.dropped, CountsOf(trace, s.pos));
    var t := CollectBatch(n, s.pending[k..], s.pending[..k], s.created, s.dropped, s.delay, trace, s.pos);
    DelayRule(s.pending[..k], Tally([], [], [], s.delay, false), trace, s.pos);
    MergeRetries(n, s.pending[k..], t.retry, s.created + t.allocs, s.dropped + t.dropped, CountsOf(trace, s.pos + k));
    var delay := t.delay;
    if t.escalate { delay := if delay * 2 > MAX_BATCH_DELAY then MAX_BATCH_DELAY else delay * 2; }
    r := Loop(s.pending[k..] + t.retry, s.created + t.allocs, s.dropped + t.dropped, delay, s.pos + k);
    allocs := t.allocs;
  }

  // ---------------------------------------------------------------- rounds

  function Start(n: nat, delay: nat): Loop {
    Loop(seq(n, i requires 0 <= i < n => Item(i, 0)), [], [], delay, 0)
  }

  /** What the caller asks for, and the reports that will come. */
  datatype Plan = Plan(n: nat, size: nat, delay: nat, trace: seq<Event>)

  /** The loop's variables after k batches. */
  function Rounds(p: Plan, k: nat): Loop {
    if k == 0 then Start(p.n, p.delay) else AfterBatch(Rounds(p, k - 1), p.size, p.trace)
  }

  /** What is sent out after batch k, counting from 0. */
  function Emitted(p: Plan, k: nat): Batch {
    Batch(TallyOf(Rounds(p, k), p.size, p.trace).allocs, Rounds(p, k + 1).pending == [])
  }

  /** So many batches were run, each with something waiting; s: the loop's variables after them. What was sent out and
      waited for is what the batches yield. */
  ghost predicate Ran(p: Plan, rounds: nat, s: Loop, sent: seq<Batch>, delays: seq<nat>) {
    s == Rounds(p, rounds) && Busy(p, rounds) && SentOut(p, sent) && Waited(p, delays)
  }

  ghost predicate Busy(p: Plan, rounds: nat) {
    forall k :: 0 <= k < rounds ==> Rounds(p, k).pending != []
  }

  ghost predicate SentOut(p: Plan, sent: seq<Batch>) {
    forall k :: 0 <= k < |sent| ==> sent[k] == Emitted(p, k)
  }

  ghost predicate Waited(p: Plan, delays: seq<nat>) {
    forall k :: 0 <= k < |delays| ==> delays[k] == Rounds(p, k + 1).delay
  }

  lemma RanNext(p: Plan, rounds: nat, s: Loop, sent: seq<Batch>, delays: seq<nat>, r: Loop, allocs: seq<nat>)
    requires Ran(p, rounds, s, sent, delays) && s.pending != [] && |sent| == |delays| == rounds
    requires r == AfterBatch(s, p.size, p.trace) && allocs == TallyOf(s, p.size, p.trace).allocs
    ensures var sent' := sent + [Batch(allocs, r.pending == [])];
            && Ran(p, rounds + 1, r, sent, delays)
            && Ran(p, rounds + 1, r, sent', delays)
            && Ran(p, rounds + 1, r, sent', delays + [r.delay])
  {
    RoundNext(p, rounds, r, allocs);
    BusyMore(p, rounds);
    SentMore(p, sent, Batch(allocs, r.pending == []));
    WaitedMore(p, delays, r);
  }

  lemma BusyMore(p: Plan, rounds: nat)
    requires Busy(p, rounds) && Rounds(p, rounds).pending != []
    ensures Busy(p, rounds + 1)
  {
  }

  lemma SentMore(p: Plan, sent: seq<Batch>, b: Batch)
    requires SentOut(p, sent) && b == Emitted(p, |sent|)
    ensures SentOut(p, sent + [b])
  {
  }

  lemma WaitedMore(p: Plan, delays: seq<nat>, r: Loop)
    requires Waited(p, delays) && r == Rounds(p, |delays| + 1)
    ensures Waited(p, delays + [r.delay])
  {
  }

  lemma RoundNext(p: Plan, k: nat, r: Loop, allocs: seq<nat>)
    requires r == AfterBatch(Rounds(p, k), p.size, p.trace) && allocs == TallyOf(Rounds(p, k), p.size, p.trace).allocs
    ensures r == Rounds(p, k + 1) && Batch(allocs, r.pending == []) == Emitted(p, k)
  {
  }

  ghost predicate Rising(delays: seq<nat>, top: nat) {
    && (forall k :: 0 <= k < |delays| ==> delays[k] <= top)
    && (forall k, l :: 0 <= k < l < |delays| ==> delays[k] <= delays[l])
  }

  /** The last batch is marked final exactly when nothing is pending; no other batch is. */
  ghost predicate Marked(n: nat, pending: seq<Item>, sent: seq<Batch>) {
    && (pending != [] ==> NoneFinal(sent))
    && (pending == [] && n > 0 ==> |sent| > 0 && sent[|sent| - 1].final && NoneFinal(sent[..|sent| - 1]))
    && (n == 0 ==> sent == [])
  }

  lemma MarkNext(n: nat, sent: seq<Batch>, allocs: seq<nat>, pending: seq<Item>)
    requires n > 0 && NoneFinal(sent)
    ensures Marked(n, pending, sent + [Batch(allocs, pending == [])])
    ensures Allocs(sent + [Batch(allocs, pending == [])]) == Allocs(sent) + allocs
  {
    assert (sent + [Batch(allocs, pending == [])])[..|sent|] == sent;
  }

  /** What holds at the head of the loop; capped: the configured delay is at most five minutes. */
  ghost predicate RunInv(n: nat, s: Loop, trace: seq<Event>, sent: seq<Batch>, delays: seq<nat>, capped: bool) {
    && LoopInv(n, s, trace) && (n == 0 ==> s.pending == [])
    && Allocs(sent) == s.created && Marked(n, s.pending, sent)
    && (capped ==> s.delay <= MAX_BATCH_DELAY && Rising(delays, s.delay))
  }

  lemma NextRound(n: nat, s: Loop, r: Loop, trace: seq<Event>, allocs: seq<nat>, sent: seq<Batch>, delays: seq<nat>,
                  capped: bool)
    requires RunInv(n, s, trace, sent, delays, capped) && s.pending != []
    requires LoopInv(n, r, trace) && r.created == s.created + allocs
    requires s.delay <= MAX_BATCH_DELAY ==> s.delay <= r.delay <= MAX_BATCH_DELAY
    ensures var sent' := sent + [Batch(allocs, r.pending == [])];
            RunInv(n, r, trace, sent', delays, capped) && RunInv(n, r, trace, sent', delays + [r.delay], capped)
  {
    MarkNext(n, sent, allocs, r.pending);
  }

  lemma {:induction false} TimesFresh(items: seq<Item>, i: nat)
    requires forall j :: 0 <= j < |items| ==> items[j].idx == j
    ensures Times(items, i) == if i < |items| then 1 else 0
  {
    if |items| > 0 { TimesFresh(items[..|items| - 1], i); }
  }

  lemma StartInv(n: nat, delay: nat, trace: seq<Event>)
    ensures LoopInv(n, Start(n, delay), trace)
  {
    var pending := Start(n, delay).pending;
    forall i: nat ensures PlacedAt(n, pending, [], [], [], [], i) { TimesFresh(pending, i); }
    LeftOfFresh(pending);
  }

  /** What holds of the loop's variables however the run ends. */
  ghost predicate Accounted(n: nat, s: Loop, trace: seq<Event>) {
    var c := CountsOf(trace, s.pos);
    // every index is created, given up or still waiting, exactly once
    && Placed(n, s.pending, [], [], s.created, s.dropped)
    // each success made one allocation, and only six failures give an index up
    && c.created == |s.created| && c.failed >= 6 * |s.dropped|
    // of the reports, as many as there are beyond six for each index were rate limits
    && c.created + c.failed + c.limited == s.pos <= 6 * n + c.limited
  }

  /** How the looks for cancellation went: none saw it but the last, and that one only if the run was cancelled. */
  ghost predicate Looked(cancels: seq<bool>, looks: nat, done: bool) {
    && (forall i :: 0 <= i < (if done then looks else looks - 1) ==> !Cancelled(cancels, i))
    && (!done ==> looks > 0 && Cancelled(cancels, looks - 1))
  }

  lemma LookedNext(cancels: seq<bool>, looks: nat)
    requires Looked(cancels, looks, true)
    ensures Looked(cancels, looks + 1, !Cancelled(cancels, looks))
  {
  }

  /** A run so far. rounds: batches run; looks: how often it looked for cancellation, once when it sends a batch out and
      once before the next; s: the loop's variables; delays: the delay before each batch after the first. */
  datatype Run = Run(s: Loop, sent: seq<Batch>, delays: seq<nat>, rounds: nat, looks: nat)

  /** At the head of the loop. */
  ghost predicate Going(p: Plan, cancels: seq<bool>, q: Run, capped: bool) {
    && RunInv(p.n, q.s, p.trace, q.sent, q.delays, capped)
    && Ran(p, q.rounds, q.s, q.sent, q.delays)
    && Paced(|q.sent|, |q.delays|, q.rounds, q.looks, q.s.pending == []) && Looked(cancels, q.looks, true)
  }

  /** Two looks for each batch but the last. */
  ghost predicate Paced(sent: nat, delays: nat, rounds: nat, looks: nat, last: bool) {
    sent == rounds && looks == 2 * rounds - (if last && rounds > 0 then 1 else 0) && delays == looks - rounds
  }

  /** However the run ended; done: it was not cancelled. */
  ghost predicate Ended(p: Plan, cancels: seq<bool>, q: Run, done: bool) {
    // the batches are those of the plan, and the run stopped for no other reason than cancellation or having finished
    && Ran(p, q.rounds, q.s, q.sent, q.delays)
    && Looked(cancels, q.looks, done) && 2 * q.rounds - 1 <= q.looks <= 2 * q.rounds
    && |q.sent| == (if !done && q.looks < 2 * q.rounds then q.rounds - 1 else q.rounds)
    && Accounted(p.n, q.s, p.trace)
    // a run that was not cancelled leaves nothing waiting and sends out all it created, the last batch marked
    && (done ==> q.s.pending == [] && Allocs(q.sent) == q.s.created && Marked(p.n, q.s.pending, q.sent))
  }

  /** s and allocs: what the next batch leaves and yields. */
  ghost predicate NextBatch(p: Plan, q: Run, s: Loop, allocs: seq<nat>) {
    && q.s.pending != [] && LoopInv(p.n, s, p.trace)
    && s == AfterBatch(q.s, p.size, p.trace) && allocs == TallyOf(q.s, p.size, p.trace).allocs
    && (q.s.delay <= MAX_BATCH_DELAY ==> q.s.delay <= s.delay <= MAX_BATCH_DELAY)
  }

  lemma CutOff(p: Plan, cancels: seq<bool>, q: Run, s: Loop, allocs: seq<nat>, capped: bool)
    requires Going(p, cancels, q, capped) && NextBatch(p, q, s, allocs) && Cancelled(cancels, q.looks)
    ensures Ended(p, cancels, Run(s, q.sent, q.delays, q.rounds + 1, q.looks + 1), false)
  {
    RanNext(p, q.rounds, q.s, q.sent, q.delays, s, allocs);
    AccountedFor(p.n, s, p.trace);
    LookedNext(cancels, q.looks);
  }

  lemma CutOffWaiting(p: Plan, cancels: seq<bool>, q: Run, s: Loop, allocs: seq<nat>, capped: bool)
    requires Going(p, cancels, q, capped) && NextBatch(p, q, s, allocs) && s.pending != []
    requires !Cancelled(cancels, q.looks) && Cancelled(cancels, q.looks + 1)
    ensures Ended(p, cancels, Run(s, q.sent + [Batch(allocs, false)], q.delays, q.rounds + 1, q.looks + 2), false)
  {
    RanNext(p, q.rounds, q.s, q.sent, q.delays, s, allocs);
    AccountedFor(p.n, s, p.trace);
    LookedNext(cancels, q.looks);
    LookedNext(cancels, q.looks + 1);
  }

  lemma Finishes(p: Plan, cancels: seq<bool>, q: Run, s: Loop, allocs: seq<nat>, capped: bool)
    requires Going(p, cancels, q, capped) && NextBatch(p, q, s, allocs) && s.pending == []
    requires !Cancelled(cancels, q.looks)
    ensures Going(p, cancels, Run(s, q.sent + [Batch(allocs, true)], q.delays, q.rounds + 1, q.looks + 1), capped)
  {
    RanNext(p, q.rounds, q.s, q.sent, q.delays, s, allocs);
    NextRound(p.n, q.s, s, p.trace, allocs, q.sent, q.delays, capped);
    LookedNext(cancels, q.looks);
  }

  lemma GoesOn(p: Plan, cancels: seq<bool>, q: Run, s: Loop, allocs: seq<nat>, capped: bool)
    requires Going(p, cancels, q, capped) && NextBatch(p, q, s, allocs) && s.pending != []
    requires !Cancelled(cancels, q.looks) && !Cancelled(cancels, q.looks + 1)
    ensures Going(p, cancels,
                  Run(s, q.sent + [Batch(allocs, false)], q.delays + [s.delay], q.rounds + 1, q.looks + 2), capped)
  {
    assert Batch(allocs, s.pending == []) == Batch(allocs, false);
    assert Looked(cancels, q.looks + 2, true) by {
      LookedNext(cancels, q.looks);
      LookedNext(cancels, q.looks + 1);
    }
    assert Ran(p, q.rounds + 1, s, q.sent + [Batch(allocs, false)], q.delays + [s.delay]) by {
      RanNext(p, q.rounds, q.s, q.sent, q.delays, s, allocs);
    }
    NextRound(p.n, q.s, s, p.trace, allocs, q.sent, q.delays, capped);
  }

  /** One turn of the loop. */
  method OneRound(p: Plan, cancels: seq<bool>, q: Run, ghost capped: bool) returns (r: Run, done: bool)
    requires p.size > 0 && Going(p, cancels, q, capped) && q.s.pending != []
    ensures done ==> Going(p, cancels, r, capped) && q.looks < r.looks && q.looks < |cancels|
    ensures !done ==> Ended(p, cancels, r, false) && r.delays == q.delays
  {
    var s, allocs := RunBatch(p.n, q.s, p.size, p.trace);
    if Cancelled(cancels, q.looks) {
      CutOff(p, cancels, q, s, allocs, capped);
      return Run(s, q.sent, q.delays, q.rounds + 1, q.looks + 1), false;
    }
    var final := |s.pending| == 0;
    var sent := q.sent + [Batch(allocs, final)];
    if final {
      Finishes(p, cancels, q, s, allocs, capped);
      return Run(s, sent, q.delays, q.rounds + 1, q.looks + 1), true;
    }
    done := !Cancelled(cancels, q.looks + 1);
    if done { GoesOn(p, cancels, q, s, allocs, capped); } else { CutOffWaiting(p, cancels, q, s, allocs, capped); }
    r := Run(s, sent, if done then q.delays + [s.delay] else q.delays, q.rounds + 1, q.looks + 2);
  }

  /**
   * The whole allocation. It ends exactly when it sees that it is cancelled or when nothing is waiting. An uncancelled
   * run sends out all it created, and marks its last batch and no other as final. Up to five minutes the delay never
   * falls and never exceeds five minutes.
   */
  method AllocateGradual(n: nat, batchSize: int, batchDelay: int, trace: seq<Event>, cancels: seq<bool>)
    returns (q: Run, done: bool)
    ensures Ended(Plan(n, SizeOf(batchSize), DelayOf(batchDelay), trace), cancels, q, done)
    ensures batchDelay <= MAX_BATCH_DELAY ==> Rising(q.delays, MAX_BATCH_DELAY)
  {
    var p := Plan(n, SizeOf(batchSize), DelayOf(batchDelay), trace);
    q, done := Run(Start(n, p.delay), [], [], 0, 0), true;
    StartInv(n, p.delay, trace);
    ghost var capped := batchDelay <= MAX_BATCH_DELAY;
    while |q.s.pending| > 0
      invariant Going(p, cancels, q, capped) && done
      decreases |cancels| - q.looks
    {
      q, done := OneRound(p, cancels, q, capped);
      if !done { return; }
    }
    AccountedFor(n, q.s, trace);
  }

  function SizeOf(batchSize: int): (size: nat)
    ensures size > 0
  {
    if batchSize <= 0 then DEFAULT_BATCH_SIZE else batchSize
  }

  function DelayOf(batchDelay: int): (delay: nat)
    ensures delay > 0
  {
    if batchDelay <= 0 then DEFAULT_BATCH_DELAY else batchDelay
  }

  lemma AccountedFor(n: nat, s: Loop, trace: seq<Event>)
    requires LoopInv(n, s, trace)
    ensures Accounted(n, s, trace)
  {
    LeftNonNegative(s.pending);
    LeftAtMost(s.pending);
    CountsTotal(trace, s.pos);
  }

  lemma SplitPending(n: nat, pending: seq<Item>, size: nat, created: seq<nat>, dropped: seq<nat>, c: Counts)
    requires size <= |pending| && Placed(n, pending, [], [], created, dropped)
    requires Bounded(n, pending, [], [], |created|, |dropped|, c)
    ensures Placed(n, pending[size..], pending[..size], [], created, dropped)
    ensures Bounded(n, pending[size..], pending[..size], [], |created|, |dropped|, c)
  {
    assert pending == pending[..size] + pending[size..];
    Concat(pending[..size], pending[size..], 0);
    forall i: nat ensures PlacedAt(n, pending[size..], pending[..size], [], created, dropped, i) {
      assert PlacedAt(n, pending, [], [], created, dropped, i);
      Concat(pending[..size], pending[size..], i);
    }
  }

  lemma MergeRetries(n: nat, rest: seq<Item>, retry: seq<Item>, created: seq<nat>, dropped: seq<nat>, c: Counts)
    requires Placed(n, rest, [], retry, created, dropped) && Bounded(n, rest, [], retry, |created|, |dropped|, c)
    ensures Placed(n, rest + retry, [], [], created, dropped)
    ensures Bounded(n, rest + retry, [], [], |created|, |dropped|, c)
  {
    Concat(rest, retry, 0);
    forall i: nat ensures PlacedAt(n, rest + retry, [], [], created, dropped, i) {
      assert PlacedAt(n, rest, [], retry, created, dropped, i);
      Concat(rest, retry, i);
    }
  }

  lemma {:induction false} LeftAtMost(items: seq<Item>)
    ensures Spent(items) >= 0
  {
    if |items| > 0 { LeftAtMost(items[..|items| - 1]); }
  }

  // ---------------------------------------------------------------- first in, first out

  /** Each attempt of a batch ends in one of three ways, whatever the order of the reports. */
  lemma {:induction false} CollectAccounts(batch: seq<Item>, t: Tally, trace: seq<Event>, pos: nat, i: nat)
    ensures var r := Collect(batch, t, trace, pos);
            Times(r.retry, i) + Occurs(r.allocs, i) + Occurs(r.dropped, i) ==
            Times(t.retry, i) + Occurs(t.allocs, i) + Occurs(t.dropped, i) + Times(batch, i)
    decreases |batch|
  {
    if |batch| > 0 {
      var j, outcome := At(trace, pos).pick % |batch|, At(trace, pos).outcome;
      var t' := Report(t, batch[j], outcome);
      CollectAccounts(Removed(batch, j), t', trace, pos + 1, i);
      RemovedEffect(batch, j, i);
      ReportAdds(t, batch[j], outcome, [], [], i);
      assert [] + t.allocs == t.allocs && [] + t.dropped == t.dropped;
      assert [] + t'.allocs == t'.allocs && [] + t'.dropped == t'.dropped;
    }
  }

  /** A batch tries as many items as it may, from the front of the queue: each of their indices is allocated, given up or
      put back, and those of no others. */
  lemma BatchTriesFront(s: Loop, size: nat, trace: seq<Event>, i: nat)
    ensures var k := if size > |s.pending| then |s.pending| else size; var t := TallyOf(s, size, trace);
            && AfterBatch(s, size, trace).pos == s.pos + k
            && Times(t.retry, i) + Occurs(t.allocs, i) + Occurs(t.dropped, i) == Times(s.pending[..k], i)
  {
    CollectAccounts(s.pending[..BatchOf(s, size)], Tally([], [], [], s.delay, false), trace, s.pos, i);
  }

  /** The items not in the batch move up; what is put back goes behind them. */
  lemma MovesUp(s: Loop, size: nat, trace: seq<Event>, i: nat)
    requires i + size < |s.pending|
    ensures var q := AfterBatch(s, size, trace).pending; i < |q| && q[i] == s.pending[i + size]
  {
  }

  lemma OneMoreTurn(d: nat, size: nat)
    ensures (d + 1) * size == d * size + size
  {
  }

  lemma RoundMovesUp(p: Plan, k: nat, i: nat)
    requires i + p.size < |Rounds(p, k).pending|
    ensures var q := Rounds(p, k + 1).pending; i < |q| && q[i] == Rounds(p, k).pending[i + p.size]
  {
    MovesUp(Rounds(p, k), p.size, p.trace, i);
  }

  /** Queues each of which goes on from the one before where its first size items end. */
  ghost predicate Shifts(qs: nat -> seq<Item>, size: nat) {
    forall k: nat, i: nat :: i + size < |qs(k)| ==> Shifted(qs, size, k, i)
  }

  ghost predicate Shifted(qs: nat -> seq<Item>, size: nat, k: nat, i: nat)
    requires i + size < |qs(k)|
  {
    i < |qs(k + 1)| && qs(k + 1)[i] == qs(k)[i + size]
  }

  /** far: the distance that d batches cover. */
  lemma {:induction false} MovesFar(qs: nat -> seq<Item>, size: nat, k: nat, d: nat, i: nat, far: nat)
    requires Shifts(qs, size) && far == d * size && far <= i < |qs(k)|
    ensures i - far < |qs(k + d)| && qs(k + d)[i - far] == qs(k)[i]
  {
    if d > 0 {
      OneMoreTurn(d - 1, size);
      MovesFar(qs, size, k, d - 1, i, far - size);
      assert Shifted(qs, size, k + (d - 1), i - far);
    }
  }

  ghost function Queues(p: Plan): nat -> seq<Item> {
    (k: nat) => Rounds(p, k).pending
  }

  lemma QueuesShift(p: Plan)
    ensures Shifts(Queues(p), p.size)
  {
    var qs := Queues(p);
    forall k: nat, i: nat | i + p.size < |qs(k)| ensures Shifted(qs, p.size, k, i) { RoundMovesUp(p, k, i); }
  }

  /** In every run nobody is overtaken: the item at position i is moved up by every batch, until after d of them it
      stands d batches nearer to the front. */
  lemma WaitsItsTurn(p: Plan, k: nat, d: nat, i: nat, far: nat)
    requires far == d * p.size && far <= i < |Queues(p)(k)|
    ensures i - far < |Queues(p)(k + d)| && Queues(p)(k + d)[i - far] == Queues(p)(k)[i]
  {
    QueuesShift(p);
    MovesFar(Queues(p), p.size, k, d, i, far);
  }

  /** So no index is tried a second time before every index has been tried once: as long as some have not been, they
      stand at the front, in order, as they were at the start. */
  lemma FirstPass(p: Plan, k: nat, i: nat, far: nat)
    requires far == k * p.size && far + i < p.n
    ensures i < |Queues(p)(k)| && Queues(p)(k)[i] == Item(far + i, 0)
  {
    AtStart(p, far + i);
    QueuesShift(p);
    FrontAfter(Queues(p), p.size, k, i, far);
  }

  lemma FrontAfter(qs: nat -> seq<Item>, size: nat, k: nat, i: nat, far: nat)
    requires Shifts(qs, size) && far == k * size && far + i < |qs(0)| && qs(0)[far + i] == Item(far + i, 0)
    ensures i < |qs(k)| && qs(k)[i] == Item(far + i, 0)
  {
    MovesFar(qs, size, 0, k, far + i, far);
    assert 0 + k == k && far + i - far == i;
  }

  lemma AtStart(p: Plan, j: nat)
    requires j < p.n
    ensures |Queues(p)(0)| == p.n && Queues(p)(0)[j] == Item(j, 0)
  {
  }

  // ---------------------------------------------------------------- what the placement means

  lemma {:induction false} OccursIn(xs: seq<nat>, i: nat)
    ensures i in xs <==> Occurs(xs, i) > 0
  {
    if |xs| > 0 {
      OccursIn(xs[..|xs| - 1], i);
      assert xs == xs[..|xs| - 1] + [xs[|xs| - 1]];
    }
  }

  lemma {:induction false} OccursTwice(xs: seq<nat>, j: nat, k: nat)
    requires j < k < |xs| && xs[j] == xs[k]
    ensures Occurs(xs, xs[j]) >= 2
  {
    var m := |xs| - 1;
    if k < m {
      OccursTwice(xs[..m], j, k);
    } else {
      OccursIn(xs[..m], xs[j]);
      assert xs[..m][j] == xs[j];
    }
  }

  /** At every loop head: what is created, given up and waiting adds up to n, and no index is allocated twice or
      both allocated and given up. */
  lemma PlacedMeaning(n: nat, left: seq<Item>, created: seq<nat>, dropped: seq<nat>)
    requires Placed(n, left, [], [], created, dropped)
    ensures |left| + |created| + |dropped| == n
    ensures forall j, k :: 0 <= j < k < |created| ==> created[j] != created[k]
    ensures forall i: nat :: i in created ==> i < n && i !in dropped && Times(left, i) == 0
    ensures forall i: nat :: i < n && i !in created && i !in dropped ==> Times(left, i) == 1
  {
    forall j, k | 0 <= j < k < |created| ensures created[j] != created[k] {
      assert PlacedAt(n, left, [], [], created, dropped, created[j]);
      if created[j] == created[k] { OccursTwice(created, j, k); }
    }
    forall i: nat ensures PlacedAt(n, left, [], [], created, dropped, i) && (i in created <==> Occurs(created, i) > 0)
                          && (i in dropped <==> Occurs(dropped, i) > 0)
    {
      OccursIn(created, i);
      OccursIn(dropped, i);
    }
  }
}
