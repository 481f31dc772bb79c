/** The binary min-heap that the buffer keeps, ordered by circular comparison. */
module ReorderHeap {
  import opened Bytes
  import opened Serial

  datatype Entry = Entry(stripSeq: uint32, data: bytes)

  /** The entries' distances from the cursor, on which circular order is the order of the integers. */
  ghost function Keys(c: uint32, h: seq<Entry>): (ks: seq<int>)
    ensures |ks| == |h| && forall k :: 0 <= k < |h| ==> ks[k] == Ahead32(c, h[k].stripSeq)
  {
    seq(|h|, k requires 0 <= k < |h| => Ahead32(c, h[k].stripSeq))
  }

  ghost predicate Near(ks: seq<int>) {
    forall k :: 0 <= k < |ks| ==> ks[k] < H32
  }

  ghost predicate ParentFirst(ks: seq<int>, k: int)
    requires 0 < k < |ks|
  {
    ks[(k - 1) / 2] <= ks[k]
  }

  ghost predicate Ordered(ks: seq<int>) {
    forall k :: 0 < k < |ks| ==> ParentFirst(ks, k)
  }

  /** Ordered except possibly between j and its parent; j's children still lie below j's parent. */
  ghost predicate OrderedBut(ks: seq<int>, j: nat) {
    && (forall k :: 0 < k < |ks| && k != j ==> ParentFirst(ks, k))
    && (forall k :: 0 < j < k < |ks| && (k - 1) / 2 == j ==> ks[(j - 1) / 2] <= ks[k])
  }

  /** Ordered except possibly between i and its children, which still lie below i's parent. */
  ghost predicate OrderedBelow(ks: seq<int>, i: nat) {
    && (forall k :: 0 < k < |ks| && (k - 1) / 2 != i ==> ParentFirst(ks, k))
    && (forall k :: 0 < i < k < |ks| && (k - 1) / 2 == i ==> ks[(i - 1) / 2] <= ks[k])
  }

  lemma {:induction false} RootIsLeast(ks: seq<int>, k: nat)
    requires Ordered(ks) && k < |ks|
    ensures ks[0] <= ks[k]
  {
    if k > 0 {
      RootIsLeast(ks, (k - 1) / 2);
      assert ParentFirst(ks, k);
    }
  }

  function Swap<T>(h: seq<T>, i: nat, j: nat): (r: seq<T>)
    requires i < |h| && j < |h|
    ensures multiset(r) == multiset(h)
  {
    h[i := h[j]][j := h[i]]
  }

  lemma KeysSwap(c: uint32, h: seq<Entry>, i: nat, j: nat)
    requires i < |h| && j < |h|
    ensures Keys(c, Swap(h, i, j)) == Swap(Keys(c, h), i, j)
  {
  }

  lemma SiftUpStep(ks: seq<int>, j: nat)
    requires 0 < j < |ks| && OrderedBut(ks, j) && ks[j] < ks[(j - 1) / 2]
    ensures OrderedBut(Swap(ks, (j - 1) / 2, j), (j - 1) / 2)
  {
    var i := (j - 1) / 2;
    var r := Swap(ks, i, j);
    forall k | 0 < k < |ks| && k != i ensures ParentFirst(r, k) {
      if k != j { assert ParentFirst(ks, k); }
    }
    if i > 0 {
      assert ParentFirst(ks, i);
      forall k | i < k < |ks| && (k - 1) / 2 == i ensures r[(i - 1) / 2] <= r[k] {
        if k != j { assert ParentFirst(ks, k); }
      }
    }
  }

  lemma SiftDownStep(ks: seq<int>, i: nat, j: nat)
    requires i < j < |ks| && (j - 1) / 2 == i && OrderedBelow(ks, i) && ks[j] < ks[i]
    requires forall k :: i < k < |ks| && (k - 1) / 2 == i ==> ks[j] <= ks[k]
    ensures OrderedBelow(Swap(ks, i, j), j)
  {
    var r := Swap(ks, i, j);
    forall k | 0 < k < |ks| && (k - 1) / 2 != j ensures ParentFirst(r, k) {
      if (k - 1) / 2 != i { assert ParentFirst(ks, k); }
    }
    forall k | j < k < |ks| && (k - 1) / 2 == j ensures r[(j - 1) / 2] <= r[k] {
      assert ParentFirst(ks, k);
    }
  }

  /** Appends an entry and sifts it up. */
  method Push(h: seq<Entry>, e: Entry, ghost c: uint32) returns (r: seq<Entry>)
    requires Near(Keys(c, h)) && Ahead32(c, e.stripSeq) < H32 && Ordered(Keys(c, h))
    ensures multiset(r) == multiset(h) + multiset{e}
    ensures Ordered(Keys(c, r))
  {
    r := h + [e];
    var j := |h|;
    assert forall k :: 0 < k < |h| ==> ParentFirst(Keys(c, h), k) ==> ParentFirst(Keys(c, r), k);
    while j > 0
      invariant 0 <= j < |r| == |h| + 1
      invariant multiset(r) == multiset(h) + multiset{e}
      invariant Near(Keys(c, r)) && OrderedBut(Keys(c, r), j)
    {
      var i := (j - 1) / 2;
      LessIsDistance(c, r[j].stripSeq, r[i].stripSeq);
      if !Less32(r[j].stripSeq, r[i].stripSeq) {
        assert ParentFirst(Keys(c, r), j);
        return;
      }
      SiftUpStep(Keys(c, r), j);
      KeysSwap(c, r, i, j);
      r := Swap(r, i, j);
      j := i;
    }
  }

  lemma SiftDownDone(ks: seq<int>, i: nat)
    requires OrderedBelow(ks, i)
    requires forall k :: i < k < |ks| && (k - 1) / 2 == i ==> ks[i] <= ks[k]
    ensures Ordered(ks)
  {
  }

  /** Index of the child that comes first; only children of i lie at 2i + 1 and 2i + 2. */
  method FirstChild(h: seq<Entry>, i: nat, ghost c: uint32) returns (j: nat)
    requires 2 * i + 1 < |h| && Near(Keys(c, h))
    ensures i < j < |h| && (j - 1) / 2 == i
    ensures forall k :: i < k < |h| && (k - 1) / 2 == i ==> Keys(c, h)[j] <= Keys(c, h)[k]
  {
    j := 2 * i + 1;
    if j + 1 < |h| {
      LessIsDistance(c, h[j + 1].stripSeq, h[j].stripSeq);
      if Less32(h[j + 1].stripSeq, h[j].stripSeq) { j := j + 1; }
    }
  }

  method SiftDown(h: seq<Entry>, ghost c: uint32) returns (r: seq<Entry>)
    requires Near(Keys(c, h)) && OrderedBelow(Keys(c, h), 0)
    ensures multiset(r) == multiset(h)
    ensures Ordered(Keys(c, r))
  {
    r := h;
    var i := 0;
    while 2 * i + 1 < |r|
      invariant 0 <= i && |r| == |h| && multiset(r) == multiset(h)
      invariant Near(Keys(c, r)) && OrderedBelow(Keys(c, r), i)
    {
      var j := FirstChild(r, i, c);
      LessIsDistance(c, r[j].stripSeq, r[i].stripSeq);
      if !Less32(r[j].stripSeq, r[i].stripSeq) {
        SiftDownDone(Keys(c, r), i);
        return;
      }
      SiftDownStep(Keys(c, r), i, j);
      KeysSwap(c, r, i, j);
      r := Swap(r, i, j);
      i := j;
    }
  }

  /** Moves the last entry to the root, sifts it down and returns the old root. */
  method Pop(h: seq<Entry>, ghost c: uint32) returns (top: Entry, r: seq<Entry>)
    requires |h| > 0 && Near(Keys(c, h)) && Ordered(Keys(c, h))
    ensures top == h[0]
    ensures multiset(r) == multiset(h) - multiset{top}
    ensures Ordered(Keys(c, r))
  {
    top := h[0];
    var n := |h| - 1;
    r := Swap(h, 0, n)[..n];
    assert Swap(h, 0, n) == r + [top];
    assert OrderedBelow(Keys(c, r), 0) by {
      forall k | 0 < k < n && (k - 1) / 2 != 0 ensures ParentFirst(Keys(c, r), k) {
        assert ParentFirst(Keys(c, h), k);
      }
    }
    r := SiftDown(r, c);
  }
}

/** The receiver's reorder buffer: heap, seen-set, cursor and gap timer. */
module ReorderBuffers {
  import opened Bytes
  import opened Serial
  import opened ReorderHeap
  import S = ReorderSpec

  ghost function Entries(held: map<uint32, bytes>): set<Entry> {
    set s | s in held :: Entry(s, held[s])
  }

  ghost predicate Stored(h: seq<Entry>, held: map<uint32, bytes>) {
    multiset(h) == multiset(Entries(held))
  }

  lemma StoredMembers(h: seq<Entry>, held: map<uint32, bytes>)
    requires Stored(h, held)
    ensures forall k :: 0 <= k < |h| ==> h[k].stripSeq in held && held[h[k].stripSeq] == h[k].data
    ensures forall s :: s in held ==> Entry(s, held[s]) in h
    ensures |h| == 0 <==> held == map[]
  {
    forall k | 0 <= k < |h| ensures h[k].stripSeq in held && held[h[k].stripSeq] == h[k].data {
      assert h[k] in multiset(h);
      assert h[k] in Entries(held);
    }
    forall s | s in held ensures Entry(s, held[s]) in h {
      assert Entry(s, held[s]) in Entries(held);
      assert Entry(s, held[s]) in multiset(h);
    }
    if held != map[] {
      var s :| s in held;
      assert Entry(s, held[s]) in h;
    }
    if |h| > 0 { assert h[0].stripSeq in held; }
  }

  lemma StoredPush(h: seq<Entry>, held: map<uint32, bytes>, e: Entry, r: seq<Entry>)
    requires Stored(h, held) && e.stripSeq !in held && multiset(r) == multiset(h) + multiset{e}
    ensures Stored(r, held[e.stripSeq := e.data])
  {
    var held' := held[e.stripSeq := e.data];
    assert Entries(held') == Entries(held) + {e} by {
      forall x | x in Entries(held) + {e} ensures x in Entries(held') {
        assert x.stripSeq in held';
      }
    }
    assert e !in Entries(held);
  }

  lemma EntriesWithout(held: map<uint32, bytes>, s: uint32)
    requires s in held
    ensures Entries(held - {s}) == Entries(held) - {Entry(s, held[s])}
  {
    forall e | e in Entries(held) - {Entry(s, held[s])} ensures e in Entries(held - {s}) {
      assert e.stripSeq in held - {s};
    }
  }

  lemma StoredPop(h: seq<Entry>, held: map<uint32, bytes>, e: Entry, r: seq<Entry>)
    requires Stored(h, held) && e in h && multiset(r) == multiset(h) - multiset{e}
    ensures e.stripSeq in held && held[e.stripSeq] == e.data && Stored(r, held - {e.stripSeq})
  {
    StoredMembers(h, held);
    EntriesWithout(held, e.stripSeq);
  }

  /** The heap's root carries the cursor exactly when the cursor's chunk is buffered. */
  lemma RootIsCursor(c: uint32, h: seq<Entry>, held: map<uint32, bytes>)
    requires Stored(h, held) && S.AllNear(c, held) && Ordered(Keys(c, h))
    ensures Near(Keys(c, h))
    ensures (|h| > 0 && h[0].stripSeq == c) <==> c in held
  {
    StoredMembers(h, held);
    if c in held {
      var k :| 0 <= k < |h| && h[k] == Entry(c, held[c]);
      RootIsLeast(Keys(c, h), k);
      LessIsDistance(c, h[0].stripSeq, c);
    }
  }

  /** Once the cursor's chunk is gone, moving the cursor by one shortens every distance by one. */
  lemma CursorStep(c: uint32, h: seq<Entry>, held: map<uint32, bytes>)
    requires Stored(h, held) && S.AllNear(c, held) && c !in held && Ordered(Keys(c, h))
    ensures S.AllNear((c + 1) % M32, held) && Ordered(Keys((c + 1) % M32, h))
  {
    StoredMembers(h, held);
    var d := (c + 1) % M32;
    forall s | s in held ensures Near32(d, s) { AheadStep(c, s); }
    var ks, ls := Keys(c, h), Keys(d, h);
    forall k | 0 <= k < |h| ensures ls[k] == ks[k] - 1 { AheadStep(c, h[k].stripSeq); }
    forall k | 0 < k < |h| ensures ParentFirst(ls, k) { assert ParentFirst(ks, k); }
  }

  ghost predicate Ascending(ks: seq<int>) {
    forall i, j :: 0 <= i < j < |ks| ==> ks[i] <= ks[j]
  }

  lemma SplitAt(out: seq<Entry>, p: nat, e: Entry)
    requires p <= |out|
    ensures multiset(out[..p] + [e] + out[p..]) == multiset(out) + multiset{e}
  {
    assert out[..p] + out[p..] == out;
  }

  lemma PlacedAscending(ks: seq<int>, p: nat, x: int)
    requires p <= |ks| && Ascending(ks) && (p > 0 ==> ks[p - 1] <= x)
    requires forall k :: p <= k < |ks| ==> x <= ks[k]
    ensures Ascending(ks[..p] + [x] + ks[p..])
  {
  }

  /** Puts an entry after every entry that does not come later. */
  method Place(out: seq<Entry>, e: Entry, ghost c: uint32) returns (r: seq<Entry>)
    requires Near(Keys(c, out)) && Ascending(Keys(c, out)) && Ahead32(c, e.stripSeq) < H32
    ensures multiset(r) == multiset(out) + multiset{e}
    ensures Near(Keys(c, r)) && Ascending(Keys(c, r))
  {
    ghost var ks, x := Keys(c, out), Ahead32(c, e.stripSeq);
    var p := |out|;
    while p > 0 && Less32(e.stripSeq, out[p - 1].stripSeq)
      invariant 0 <= p <= |out|
      invariant forall k :: p <= k < |out| ==> x <= ks[k]
    {
      LessIsDistance(c, e.stripSeq, out[p - 1].stripSeq);
      p := p - 1;
    }
    if p > 0 { LessIsDistance(c, e.stripSeq, out[p - 1].stripSeq); }
    SplitAt(out, p, e);
    r := out[..p] + [e] + out[p..];
    PlacedAscending(ks, p, x);
    assert Keys(c, r) == ks[..p] + [x] + ks[p..];
  }

  /** Stands for sort.Slice with the circular comparison. */
  method SortBySeq(h: seq<Entry>, ghost c: uint32) returns (out: seq<Entry>)
    requires Near(Keys(c, h))
    ensures multiset(out) == multiset(h) && Ascending(Keys(c, out))
  {
    out := [];
    for i := 0 to |h|
      invariant multiset(out) == multiset(h[..i])
      invariant Near(Keys(c, out)) && Ascending(Keys(c, out))
    {
      assert Keys(c, h)[i] < H32;
      assert h[..i + 1] == h[..i] + [h[i]];
      out := Place(out, h[i], c);
    }
    assert h[..|h|] == h;
  }

  ghost function Datas(es: seq<Entry>): (ds: seq<bytes>)
    ensures |ds| == |es| && forall i :: 0 <= i < |es| ==> ds[i] == es[i].data
  {
    seq(|es|, i requires 0 <= i < |es| => es[i].data)
  }

  method Payloads(es: seq<Entry>) returns (out: seq<bytes>)
    ensures out == Datas(es)
  {
    out := [];
    for i := 0 to |es|
      invariant out == Datas(es)[..i]
    {
      out := out + [es[i].data];
    }
  }

  lemma OnceInBag(out: seq<Entry>, i: nat, j: nat)
    requires i < j < |out| && multiset(out)[out[i]] == 1
    ensures out[i] != out[j]
  {
    assert out == out[..j] + [out[j]] + out[j + 1..];
    assert out[..j][i] == out[i];
  }

  ghost function Numbers(es: seq<Entry>): (ns: seq<uint32>)
    ensures |ns| == |es| && forall i :: 0 <= i < |es| ==> ns[i] == es[i].stripSeq
  {
    seq(|es|, i requires 0 <= i < |es| => es[i].stripSeq)
  }

  /** A sorted arrangement of distinct numbers is strictly increasing. */
  lemma SortedIsStrict(c: uint32, held: map<uint32, bytes>, out: seq<Entry>)
    requires Stored(out, held) && S.AllNear(c, held) && Ascending(Keys(c, out))
    ensures var ns := Numbers(out); forall i, j :: 0 <= i < j < |ns| ==> Ahead32(c, ns[i]) < Ahead32(c, ns[j])
  {
    StoredMembers(out, held);
    var ks := Keys(c, out);
    forall i, j | 0 <= i < j < |out| ensures ks[i] < ks[j] {
      assert out[i] in multiset(out);
      OnceInBag(out, i, j);
      LessIsDistance(c, out[i].stripSeq, out[j].stripSeq);
    }
  }

  /** Hence it is the flush order. */
  lemma SortedIsFlush(r: S.Reorder, out: seq<Entry>)
    requires Stored(out, r.held) && S.AllNear(r.nextSeq, r.held) && Ascending(Keys(r.nextSeq, out))
    ensures Datas(out) == S.FlushData(r)
  {
    StoredMembers(out, r.held);
    SortedIsStrict(r.nextSeq, r.held, out);
    var order := Numbers(out);
    forall s | s in r.held ensures s in order {
      var k :| 0 <= k < |out| && out[k] == Entry(s, r.held[s]);
      assert order[k] == s;
    }
    S.NearestOrder(r.nextSeq, r.held.Keys, 0);
    assert forall s :: s in r.held ==> Near32(r.nextSeq, s);
    S.IncreasingUnique(r.nextSeq, order, S.FlushNumbers(r));
  }

  lemma {:induction false} EntriesSize(held: map<uint32, bytes>)
    ensures |Entries(held)| == |held|
    decreases |held|
  {
    if held == map[] {
      assert Entries(held) == {};
    } else {
      var s :| s in held;
      EntriesSize(held - {s});
      EntriesWithout(held, s);
      assert held.Keys == (held - {s}).Keys + {s};
      assert Entry(s, held[s]) in Entries(held);
    }
  }

  /** Heap, seen-set and cursor stand for the chunks held; the cursor's own chunk may be among them. */
  ghost predicate Rep(c: uint32, h: seq<Entry>, seen: set<uint32>, held: map<uint32, bytes>) {
    S.AllNear(c, held) && seen == held.Keys && Stored(h, held) && Ordered(Keys(c, h))
  }

  lemma RepFacts(c: uint32, h: seq<Entry>, seen: set<uint32>, held: map<uint32, bytes>)
    requires Rep(c, h, seen, held)
    ensures Near(Keys(c, h))
    ensures (|h| > 0 && h[0].stripSeq == c) <==> c in held
    ensures |h| == 0 <==> held == map[]
    ensures |h| == |held|
  {
    RootIsCursor(c, h, held);
    StoredMembers(h, held);
    EntriesSize(held);
    assert |h| == |multiset(h)|;
  }

  lemma RepPush(c: uint32, h: seq<Entry>, seen: set<uint32>, held: map<uint32, bytes>, e: Entry, r: seq<Entry>)
    requires Rep(c, h, seen, held) && e.stripSeq !in held && !Less32(e.stripSeq, c)
    requires multiset(r) == multiset(h) + multiset{e} && Ordered(Keys(c, r))
    ensures Rep(c, r, seen + {e.stripSeq}, held[e.stripSeq := e.data])
  {
    StoredPush(h, held, e, r);
  }

  lemma RepPop(c: uint32, h: seq<Entry>, seen: set<uint32>, held: map<uint32, bytes>, e: Entry, r: seq<Entry>)
    requires Rep(c, h, seen, held) && c in held && h != [] && e == h[0]
    requires multiset(r) == multiset(h) - multiset{e} && Ordered(Keys(c, r))
    ensures e == Entry(c, held[c])
    ensures Rep((c + 1) % M32, r, seen - {c}, held - {c})
  {
    RootIsCursor(c, h, held);
    StoredPop(h, held, e, r);
    CursorStep(c, r, held - {c});
  }

  lemma RepEmpty(c: uint32)
    ensures Rep(c, [], {}, map[])
  {
    var none: map<uint32, bytes> := map[];
    assert Entries(none) == {};
  }

  /** Pops the root when it carries the cursor: that is the cursor's chunk. */
  method PopCursor(h: seq<Entry>, next: uint32, seen: set<uint32>, ghost held: map<uint32, bytes>)
    returns (data: bytes, r: seq<Entry>)
    requires Rep(next, h, seen, held) && |h| > 0 && h[0].stripSeq == next
    ensures next in held && data == held[next] && Rep((next + 1) % M32, r, seen - {next}, held - {next})
  {
    RepFacts(next, h, seen, held);
    var entry;
    entry, r := Pop(h, next);
    RepPop(next, h, seen, held, entry, r);
    data := entry.data;
  }

  /** The flush loop: pops the root while it carries the cursor. */
  method FlushRun(h0: seq<Entry>, next0: uint32, seen0: set<uint32>, ghost held0: map<uint32, bytes>)
    returns (h: seq<Entry>, next: uint32, seen: set<uint32>, flushed: seq<bytes>, ghost held: map<uint32, bytes>)
    requires Rep(next0, h0, seen0, held0)
    ensures Rep(next, h, seen, held)
    ensures next == S.Drain(next0, held0).0 && flushed == S.Drain(next0, held0).2
    ensures held == S.Drain(next0, held0).1
  {
    h, next, seen, flushed, held := h0, next0, seen0, [], held0;
    ghost var goal := S.DrainOnto([], next0, held0);
    S.DrainFromNothing(next0, held0);
    while |h| > 0 && h[0].stripSeq == next
      invariant Rep(next, h, seen, held)
      invariant S.DrainOnto(flushed, next, held) == goal
      decreases held.Keys
    {
      var data, r := PopCursor(h, next, seen, held);
      S.DrainStep(flushed, next, held);
      h, held, seen, flushed, next := r, held - {next}, seen - {next}, flushed + [data], (next + 1) % M32;
    }
    RepFacts(next, h, seen, held);
    S.DrainDone(flushed, next, held);
  }

  /** A chunk that is neither behind the cursor nor held: push, time the gap, flush the run. */
  method Accept(h0: seq<Entry>, next0: uint32, seen0: set<uint32>, gap0: Option<int>, ghost held0: map<uint32, bytes>,
                stripSeq: uint32, data: bytes, now: int)
    returns (h: seq<Entry>, next: uint32, seen: set<uint32>, gap: Option<int>, flushed: seq<bytes>,
             ghost held: map<uint32, bytes>)
    requires Rep(next0, h0, seen0, held0) && stripSeq !in held0 && !Less32(stripSeq, next0)
    ensures Rep(next, h, seen, held)
    ensures var (r, out) := S.Insert(S.Reorder(next0, held0, gap0), stripSeq, data, now);
            flushed == out && next == r.nextSeq && gap == r.gapSince
    ensures held == S.Insert(S.Reorder(next0, held0, gap0), stripSeq, data, now).0.held
  {
    RepFacts(next0, h0, seen0, held0);
    var r := Push(h0, Entry(stripSeq, data), next0);
    RepPush(next0, h0, seen0, held0, Entry(stripSeq, data), r);
    gap := if stripSeq != next0 && gap0.None? then Some(now) else gap0;
    h, next, seen, flushed, held := FlushRun(r, next0, seen0 + {stripSeq}, held0[stripSeq := data]);
    RepFacts(next, h, seen, held);
    if |h| == 0 { gap := None; }
  }

  class ReorderBuffer {
    var h: seq<Entry>
    var nextSeq: uint32
    var gapSince: Option<int>
    var seen: set<uint32>
    ghost var held: map<uint32, bytes>

    ghost function View(): S.Reorder
      reads this
    {
      S.Reorder(nextSeq, held, gapSince)
    }

    ghost predicate Loose()
      reads this
    {
      Rep(nextSeq, h, seen, held)
    }

    ghost predicate Valid()
      reads this
    {
      Loose() && View().Valid()
    }

    constructor ()
      ensures Valid() && View() == S.EMPTY
    {
      h, nextSeq, gapSince, seen, held := [], 0, None, {}, map[];
      RepEmpty(0);
    }

    method Insert(stripSeq: uint32, data: bytes, now: int) returns (flushed: seq<bytes>)
      requires Valid()
      modifies this
      ensures Valid()
      ensures (View(), flushed) == S.Insert(old(View()), stripSeq, data, now)
    {
      flushed := [];
      if Less32(stripSeq, nextSeq) { return; }
      if stripSeq in seen { return; }
      S.InsertKeepsValid(View(), stripSeq, data, now);
      h, nextSeq, seen, gapSince, flushed, held := Accept(h, nextSeq, seen, gapSince, held, stripSeq, data, now);
    }

    method Len() returns (n: nat)
      requires Valid()
      ensures n == |held| && (n == 0 <==> held == map[])
    {
      RepFacts(nextSeq, h, seen, held);
      n := |h|;
    }

    method Overflowed() returns (yes: bool)
      requires Valid()
      ensures yes <==> |held| > S.MAX_FRAMES
    {
      RepFacts(nextSeq, h, seen, held);
      yes := |h| > S.MAX_FRAMES;
    }

    /** True when something has been buffered without interruption for longer than the timeout. */
    predicate GapTimedOut(now: int, timeout: int)
      requires Valid()
      reads this
      ensures GapTimedOut(now, timeout) <==>
                View().gapSince.Some? && View().held != map[] && now - View().gapSince.value > timeout
    {
      RepFacts(nextSeq, h, seen, held);
      gapSince.Some? && |h| > 0 && now - gapSince.value > timeout
    }

    /** Empties the buffer in sequence order; the cursor stays. */
    method FlushAll() returns (out: seq<bytes>)
      requires Valid()
      modifies this
      ensures Valid() && View() == S.Reorder(old(nextSeq), map[], None)
      ensures out == S.FlushData(old(View()))
    {
      RepFacts(nextSeq, h, seen, held);
      var sorted := SortBySeq(h, nextSeq);
      SortedIsFlush(View(), sorted);
      out := Payloads(sorted);
      h, seen, gapSince, held := [], {}, None, map[];
      RepEmpty(nextSeq);
    }
  }
}
