/** Smooth weighted round robin over a vector of slots; weight 0 marks a slot that takes no part. */
module WeightedRounds {

  ghost function Sum(s: seq<int>): int {
    if |s| == 0 then 0 else Sum(s[..|s| - 1]) + s[|s| - 1]
  }

  /** Each participating slot's current weight is raised by its weight. */
  function Raise(w: seq<nat>, c: seq<int>): (d: seq<int>)
    requires |w| == |c|
    ensures |d| == |c| && forall i :: 0 <= i < |c| ==> d[i] == c[i] + w[i]
  {
    seq(|c|, i requires 0 <= i < |c| => c[i] + w[i])
  }

  /** b participates and no participant is higher; among the highest it comes first. */
  ghost predicate Wins(w: seq<nat>, d: seq<int>, b: nat)
    requires |w| == |d|
  {
    && b < |w| && w[b] > 0
    && (forall i :: 0 <= i < |w| && w[i] > 0 ==> d[i] <= d[b])
    && (forall i :: 0 <= i < b && w[i] > 0 ==> d[i] < d[b])
  }

  /** One selection: raise all, charge the winner the total weight. */
  ghost predicate Round(w: seq<nat>, c: seq<int>, b: nat, c': seq<int>) {
    |w| == |c| && Charges(w, Raise(w, c), b, c')
  }

  ghost predicate Charges(w: seq<nat>, d: seq<int>, b: nat, c': seq<int>) {
    |w| == |d| && Wins(w, d, b) && c' == d[b := d[b] - Sum(w)]
  }

  /** The current weights of the participants alone. */
  ghost function Part(w: seq<nat>, c: seq<int>): (p: seq<int>)
    requires |w| == |c|
    ensures |p| == |c| && forall i :: 0 <= i < |c| ==> p[i] == if w[i] > 0 then c[i] else 0
  {
    seq(|c|, i requires 0 <= i < |c| => if w[i] > 0 then c[i] else 0)
  }

  lemma {:induction false} SumRaise(a: seq<int>, b: seq<int>, s: seq<int>)
    requires |a| == |b| == |s| && forall i :: 0 <= i < |s| ==> s[i] == a[i] + b[i]
    ensures Sum(s) == Sum(a) + Sum(b)
  {
    if |s| > 0 {
      var n := |s| - 1;
      SumRaise(a[..n], b[..n], s[..n]);
    }
  }

  lemma {:induction false} SumUpdate(s: seq<int>, b: nat, x: int)
    requires b < |s|
    ensures Sum(s[b := x]) == Sum(s) - s[b] + x
  {
    var n := |s| - 1;
    if b < n {
      SumUpdate(s[..n], b, x);
      assert s[b := x][..n] == s[..n][b := x];
    } else {
      assert s[b := x][..n] == s[..n];
    }
  }

  lemma {:induction false} SumPositive(s: seq<int>) returns (i: nat)
    requires Sum(s) > 0
    ensures i < |s| && s[i] > 0
  {
    var n := |s| - 1;
    if s[n] > 0 { i := n; } else { i := SumPositive(s[..n]); }
  }

  lemma {:induction false} SumNonNegative(s: seq<int>)
    requires forall i :: 0 <= i < |s| ==> s[i] >= 0
    ensures Sum(s) >= 0
    ensures Sum(s) == 0 ==> forall i :: 0 <= i < |s| ==> s[i] == 0
  {
    if |s| > 0 {
      var n := |s| - 1;
      SumNonNegative(s[..n]);
    }
  }

  /** A selection keeps the sum of the current weights, over all slots and over the participants. */
  lemma RoundKeepsSum(w: seq<nat>, c: seq<int>, b: nat, c': seq<int>)
    requires Round(w, c, b, c')
    ensures Sum(c') == Sum(c)
    ensures Sum(Part(w, c')) == Sum(Part(w, c))
    ensures Sum(Part(w, Raise(w, c))) == Sum(Part(w, c)) + Sum(w)
  {
    var d := Raise(w, c);
    assert Charges(w, d, b, c');
    SumRaise(c, w, d);
    SumRaise(Part(w, c), w, Part(w, d));
    ChargeKeeps(w, d, b, c', Sum(w));
  }

  /** Charging takes the charge from the sum, and from the sum of the participants. */
  lemma ChargeKeeps(w: seq<nat>, d: seq<int>, b: nat, c': seq<int>, total: int)
    requires |w| == |d| && b < |w| && w[b] > 0 && c' == d[b := d[b] - total]
    ensures Sum(c') == Sum(d) - total && Sum(Part(w, c')) == Sum(Part(w, d)) - total
  {
    SumLess(d, b, total, c');
    PartCharged(w, d, b, d[b] - total);
    SumLess(Part(w, d), b, total, Part(w, c'));
  }

  lemma SumLess(s: seq<int>, b: nat, x: int, t: seq<int>)
    requires b < |s| && t == s[b := s[b] - x]
    ensures Sum(t) == Sum(s) - x
  {
    SumUpdate(s, b, s[b] - x);
  }

  lemma PartCharged(w: seq<nat>, d: seq<int>, b: nat, x: int)
    requires |w| == |d| && b < |w| && w[b] > 0
    ensures Part(w, d[b := x]) == Part(w, d)[b := x]
  {
  }

  /** Participants balanced around zero, none as low as minus the total weight. */
  ghost predicate Balanced(w: seq<nat>, c: seq<int>) {
    && |w| == |c|
    && Sum(Part(w, c)) == 0
    && forall i :: 0 <= i < |w| && w[i] > 0 ==> c[i] > -Sum(w)
  }

  lemma RoundKeepsBalance(w: seq<nat>, c: seq<int>, b: nat, c': seq<int>)
    requires Balanced(w, c) && Round(w, c, b, c')
    ensures Balanced(w, c')
  {
    RoundKeepsSum(w, c, b, c');
    SumNonNegative(w);
    assert Sum(w) > 0 by { assert w[b] > 0; }
    var i := SumPositive(Part(w, Raise(w, c)));
    assert w[i] > 0 && Raise(w, c)[b] > 0;
  }

  // ---------------------------------------------------------------- runs

  /** t selections with fixed weights: the vectors passed through and the winners. */
  ghost predicate IsRun(w: seq<nat>, cs: seq<seq<int>>, picks: seq<nat>) {
    && |cs| == |picks| + 1
    && |cs[0]| == |w|
    && forall k :: 0 <= k < |picks| ==> Round(w, cs[k], picks[k], cs[k + 1])
  }

  function Count(picks: seq<nat>, i: nat): (n: nat) {
    if |picks| == 0 then 0 else Count(picks[..|picks| - 1], i) + if picks[|picks| - 1] == i then 1 else 0
  }

  ghost function Counts(picks: seq<nat>, n: nat): (r: seq<int>)
    ensures |r| == n && forall i :: 0 <= i < n ==> r[i] == Count(picks, i)
  {
    seq(n, i requires 0 <= i < n => Count(picks, i))
  }

  lemma {:induction false} RunBalanced(w: seq<nat>, cs: seq<seq<int>>, picks: seq<nat>, k: nat)
    requires IsRun(w, cs, picks) && Balanced(w, cs[0]) && k < |cs|
    ensures Balanced(w, cs[k])
  {
    if k > 0 {
      RunBalanced(w, cs, picks, k - 1);
      assert Round(w, cs[k - 1], picks[k - 1], cs[k]);
      RoundKeepsBalance(w, cs[k - 1], picks[k - 1], cs[k]);
    }
  }

  lemma RunInit(w: seq<nat>, cs: seq<seq<int>>, picks: seq<nat>)
    requires IsRun(w, cs, picks) && |picks| > 0
    ensures var t := |picks| - 1;
            IsRun(w, cs[..t + 1], picks[..t]) && Round(w, cs[t], picks[t], cs[t + 1])
  {
    var t := |picks| - 1;
    var cs', ps' := cs[..t + 1], picks[..t];
    forall k | 0 <= k < t ensures Round(w, cs'[k], ps'[k], cs'[k + 1]) {
      assert Round(w, cs[k], picks[k], cs[k + 1]);
    }
  }

  lemma LedgerStep(t: nat, x: nat, n: nat, total: int)
    ensures (t + 1) * x == t * x + x && (n + 1) * total == n * total + total
  {
  }

  /** Where a slot stands: raised once per selection, charged once per win. */
  lemma {:induction false} RunLedger(w: seq<nat>, cs: seq<seq<int>>, picks: seq<nat>, i: nat)
    requires IsRun(w, cs, picks) && i < |w|
    ensures |cs[|picks|]| == |w|
    ensures cs[|picks|][i] == cs[0][i] + |picks| * w[i] - Count(picks, i) * Sum(w)
    ensures w[i] == 0 ==> Count(picks, i) == 0
  {
    if |picks| > 0 {
      var t := |picks| - 1;
      RunInit(w, cs, picks);
      RunLedger(w, cs[..t + 1], picks[..t], i);
      LedgerStep(t, w[i], Count(picks[..t], i), Sum(w));
    }
  }

  lemma {:induction false} CountsTotal(picks: seq<nat>, n: nat)
    requires forall k :: 0 <= k < |picks| ==> picks[k] < n
    ensures Sum(Counts(picks, n)) == |picks|
  {
    if |picks| == 0 {
      SumNonNegative(Counts(picks, n));
      AllZero(Counts(picks, n));
    } else {
      var t := |picks| - 1;
      var before, b := Counts(picks[..t], n), picks[t];
      CountsTotal(picks[..t], n);
      SumUpdate(before, b, before[b] + 1);
      assert Counts(picks, n) == before[b := before[b] + 1];
    }
  }

  lemma {:induction false} AllZero(s: seq<int>)
    requires forall i :: 0 <= i < |s| ==> s[i] == 0
    ensures Sum(s) == 0
  {
    if |s| > 0 { AllZero(s[..|s| - 1]); }
  }

  /** At no point of a run is a slot more than one win ahead of its share. */
  lemma NeverOneAhead(w: seq<nat>, cs: seq<seq<int>>, picks: seq<nat>, i: nat)
    requires IsRun(w, cs, picks) && i < |w|
    requires forall j :: 0 <= j < |w| && w[j] > 0 ==> cs[0][j] == 0
    ensures w[i] > 0 ==> Count(picks, i) * Sum(w) < |picks| * w[i] + Sum(w)
  {
    AllZero(Part(w, cs[0]));
    SumNonNegative(w);
    if w[i] > 0 {
      RunBalanced(w, cs, picks, |picks|);
      RunLedger(w, cs, picks, i);
    }
  }

  lemma AtMostShare(n: nat, share: nat, total: nat)
    requires n * total < total * share + total
    ensures n <= share
  {
    assert n > share ==> n * total >= (share + 1) * total;
  }

  lemma ShareNotExceeded(w: seq<nat>, cs: seq<seq<int>>, picks: seq<nat>, i: nat)
    requires IsRun(w, cs, picks) && |picks| == Sum(w) && i < |w|
    requires forall j :: 0 <= j < |w| && w[j] > 0 ==> cs[0][j] == 0
    ensures Count(picks, i) <= w[i]
  {
    NeverOneAhead(w, cs, picks, i);
    RunLedger(w, cs, picks, i);
    if w[i] > 0 { AtMostShare(Count(picks, i), w[i], Sum(w)); }
  }

  /** Nobody has more than his share and nothing is left over: everybody has his share. */
  lemma SharesExact(w: seq<nat>, picks: seq<nat>)
    requires |picks| == Sum(w) && forall k :: 0 <= k < |picks| ==> picks[k] < |w|
    requires forall i :: 0 <= i < |w| ==> Count(picks, i) <= w[i]
    ensures forall i :: 0 <= i < |w| ==> Count(picks, i) == w[i]
  {
    var n, counts := |w|, Counts(picks, |w|);
    var spare := seq(n, i requires 0 <= i < n => w[i] - counts[i]);
    CountsTotal(picks, n);
    SumRaise(spare, counts, w);
    SumNonNegative(spare);
    forall i | 0 <= i < n ensures Count(picks, i) == w[i] { assert spare[i] == 0; }
  }

  lemma PickInRange(w: seq<nat>, cs: seq<seq<int>>, picks: seq<nat>, k: nat)
    requires IsRun(w, cs, picks) && k < |picks|
    ensures picks[k] < |w|
  {
    assert Round(w, cs[k], picks[k], cs[k + 1]);
  }

  lemma BackAtRest(w: seq<nat>, cs: seq<seq<int>>, picks: seq<nat>, i: nat)
    requires IsRun(w, cs, picks) && |picks| == Sum(w) && i < |w| && cs[0][i] == 0 && Count(picks, i) == w[i]
    ensures |cs[|picks|]| == |w| && cs[|picks|][i] == 0
  {
    RunLedger(w, cs, picks, i);
  }

  /**
   * Fairness: from rest and with fixed weights, as many selections as the total weight pick every slot
   * exactly as often as its weight, and leave every participant at rest again.
   */
  lemma BlockIsFair(w: seq<nat>, cs: seq<seq<int>>, picks: seq<nat>)
    requires IsRun(w, cs, picks) && |picks| == Sum(w)
    requires forall j :: 0 <= j < |w| && w[j] > 0 ==> cs[0][j] == 0
    ensures forall i :: 0 <= i < |w| ==> Count(picks, i) == w[i]
    ensures |cs[|picks|]| == |w| && forall i :: 0 <= i < |w| && w[i] > 0 ==> cs[|picks|][i] == 0
  {
    forall i | 0 <= i < |w| ensures Count(picks, i) <= w[i] { ShareNotExceeded(w, cs, picks, i); }
    forall k | 0 <= k < |picks| ensures picks[k] < |w| { PickInRange(w, cs, picks, k); }
    SharesExact(w, picks);
    RunLength(w, cs, picks);
    forall i | 0 <= i < |w| && w[i] > 0 ensures cs[|picks|][i] == 0 { BackAtRest(w, cs, picks, i); }
  }

  lemma RunLength(w: seq<nat>, cs: seq<seq<int>>, picks: seq<nat>)
    requires IsRun(w, cs, picks)
    ensures |cs[|picks|]| == |w|
  {
    if |picks| > 0 { assert Round(w, cs[|picks| - 1], picks[|picks| - 1], cs[|picks|]); }
  }

  ghost predicate AtRest(w: seq<nat>, c: seq<int>) {
    |c| == |w| && forall j :: 0 <= j < |w| && w[j] > 0 ==> c[j] == 0
  }

  lemma RunSlice(w: seq<nat>, cs: seq<seq<int>>, picks: seq<nat>, lo: nat, hi: nat)
    requires IsRun(w, cs, picks) && lo <= hi <= |picks| && |cs[lo]| == |w|
    ensures IsRun(w, cs[lo..hi + 1], picks[lo..hi])
  {
    var cs', ps' := cs[lo..hi + 1], picks[lo..hi];
    forall k | 0 <= k < |ps'| ensures Round(w, cs'[k], ps'[k], cs'[k + 1]) {
      assert Round(w, cs[lo + k], picks[lo + k], cs[lo + k + 1]);
    }
  }

  /** Every aligned block of a run from rest is fair, however long the run. */
  lemma {:induction false} EveryBlockIsFair(w: seq<nat>, cs: seq<seq<int>>, picks: seq<nat>, k: nat)
    requires IsRun(w, cs, picks) && AtRest(w, cs[0]) && (k + 1) * Sum(w) <= |picks|
    ensures 0 <= k * Sum(w) <= (k + 1) * Sum(w)
    ensures forall i :: 0 <= i < |w| ==> Count(picks[k * Sum(w)..(k + 1) * Sum(w)], i) == w[i]
    ensures AtRest(w, cs[(k + 1) * Sum(w)])
  {
    var lo, hi := k * Sum(w), (k + 1) * Sum(w);
    SumNonNegative(w);
    LedgerStep(0, 0, k, Sum(w));
    assert AtRest(w, cs[lo]) by {
      if k > 0 { EveryBlockIsFair(w, cs, picks, k - 1); }
    }
    RunSlice(w, cs, picks, lo, hi);
    BlockIsFair(w, cs[lo..hi + 1], picks[lo..hi]);
  }
}

/** Choosing a connection: latency filter, then one weighted round over the connections that pass. */
module ConnSelection {
  import opened WeightedRounds
  import opened Bytes

  const DEFAULT_LATENCY: nat := 1_000_000

  /** Latency and error count are measured elsewhere; current is the round-robin state. */
  datatype Conn = Conn(latency: nat, errors: nat, current: int)

  type Slots = seq<Option<Conn>>

  function Latency(c: Conn): (r: nat)
    ensures r > 0
  {
    if c.latency == 0 then DEFAULT_LATENCY else c.latency
  }

  function Weight(c: Conn): (w: nat)
    ensures w > 0
  {
    var w := 1_000_000_000 / Latency(c) - c.errors * 10;
    if w < 1 then 1 else w
  }

  lemma DivisionBounds(x: nat, d: nat)
    requires d > 0
    ensures (x / d) * d <= x < (x / d + 1) * d
  {
    assert x == d * (x / d) + x % d;
  }

  lemma ProductPositive(x: int, d: int)
    requires x > 0 && d > 0
    ensures x * d > 0
  {
  }

  lemma ProductOrder(a: int, b: int, d: nat)
    requires d > 0
    ensures a < b <==> a * d < b * d
    ensures a <= b <==> a * d <= b * d
  {
    if a < b {
      ProductPositive(b - a, d);
      assert (b - a) * d == b * d - a * d;
    } else if b < a {
      ProductPositive(a - b, d);
      assert (a - b) * d == a * d - b * d;
    }
  }

  /**
   * What a weight is: with a latency of lat nanoseconds (a millisecond if it was never measured), the number of times
   * that lat goes into a second, less ten for each error; but 1 exactly when that is below 2.
   */
  lemma WeightExact(c: Conn)
    ensures var lat := if c.latency == 0 then 1_000_000 else c.latency; var w := Weight(c);
            && (w == 1 <==> 1_000_000_000 < (10 * c.errors + 2) * lat)
            && (w != 1 ==> (w + 10 * c.errors) * lat <= 1_000_000_000 < (w + 10 * c.errors + 1) * lat)
  {
    var lat := Latency(c);
    var q := 1_000_000_000 / lat;
    DivisionBounds(1_000_000_000, lat);
    ProductOrder(q, 10 * c.errors + 2, lat);
    ProductOrder(q + 1, 10 * c.errors + 2, lat);
  }

  lemma DivisionOrder(x: nat, a: nat, b: nat)
    requires 0 < a <= b
    ensures x / b <= x / a
  {
    var q, r := x / b, x / a;
    DivisionBounds(x, a);
    DivisionBounds(x, b);
    if q > 0 { ProductOrder(a, b, q); }
    ProductOrder(q, r + 1, a);
  }

  /** No slower and with no more errors never means a smaller weight. */
  lemma WeightMonotone(a: Conn, b: Conn)
    requires Latency(a) <= Latency(b) && a.errors <= b.errors
    ensures Weight(a) >= Weight(b)
  {
    DivisionOrder(1_000_000_000, Latency(a), Latency(b));
  }

  ghost predicate IsMinimum(slots: Slots, m: nat) {
    && (exists i :: 0 <= i < |slots| && slots[i].Some? && Latency(slots[i].value) == m)
    && (forall i :: 0 <= i < |slots| && slots[i].Some? ==> m <= Latency(slots[i].value))
  }

  ghost predicate AnyLive(slots: Slots) {
    exists i :: 0 <= i < |slots| && slots[i].Some?
  }

  /** The weights that take part when m is the least latency: live and at most three times m. */
  ghost function Weights(slots: Slots, m: nat): (w: seq<nat>)
    ensures |w| == |slots|
    ensures forall i :: 0 <= i < |slots| ==>
              w[i] == if slots[i].Some? && Latency(slots[i].value) <= 3 * m then Weight(slots[i].value) else 0
  {
    seq(|slots|, i requires 0 <= i < |slots| =>
      if slots[i].Some? && Latency(slots[i].value) <= 3 * m then Weight(slots[i].value) else 0)
  }

  ghost function Currents(slots: Slots): (c: seq<int>)
    ensures |c| == |slots|
    ensures forall i :: 0 <= i < |slots| ==> c[i] == if slots[i].Some? then slots[i].value.current else 0
  {
    seq(|slots|, i requires 0 <= i < |slots| => if slots[i].Some? then slots[i].value.current else 0)
  }

  /** The same connections with the same measurements. */
  ghost predicate SameStats(a: Slots, b: Slots) {
    && |a| == |b|
    && forall i :: 0 <= i < |a| ==>
         && (a[i].Some? <==> b[i].Some?)
         && (a[i].Some? ==> a[i].value.latency == b[i].value.latency && a[i].value.errors == b[i].value.errors)
  }

  /** Measurements alone decide who takes part, so consecutive selections use the same weights. */
  lemma StatsFixWeights(a: Slots, b: Slots, m: nat)
    requires SameStats(a, b)
    ensures IsMinimum(a, m) <==> IsMinimum(b, m)
    ensures Weights(a, m) == Weights(b, m)
  {
    if IsMinimum(a, m) {
      var i :| 0 <= i < |a| && a[i].Some? && Latency(a[i].value) == m;
      assert Latency(b[i].value) == m;
    }
    if IsMinimum(b, m) {
      var i :| 0 <= i < |b| && b[i].Some? && Latency(b[i].value) == m;
      assert Latency(a[i].value) == m;
    }
  }

  method LeastLatency(slots: Slots) returns (m: nat)
    ensures AnyLive(slots) ==> IsMinimum(slots, m)
  {
    m := 0;
    for i := 0 to |slots|
      invariant AnyLive(slots[..i]) ==> IsMinimum(slots[..i], m)
      invariant !AnyLive(slots[..i]) ==> m == 0
    {
      assert slots[..i + 1] == slots[..i] + [slots[i]];
      if slots[i].Some? {
        var lat := Latency(slots[i].value);
        if m == 0 || lat < m {
          m := lat;
          assert slots[..i + 1][i] == slots[i];
        } else {
          var k :| 0 <= k < i && slots[..i][k].Some? && Latency(slots[..i][k].value) == m;
          assert slots[..i + 1][k] == slots[k];
        }
      }
    }
    assert slots[..|slots|] == slots;
  }

  /** The indices that take part, in slot order. */
  ghost predicate Lists(e: seq<nat>, w: seq<nat>) {
    && (forall k, l :: 0 <= k < l < |e| ==> e[k] < e[l])
    && (forall k :: 0 <= k < |e| ==> e[k] < |w| && w[e[k]] > 0)
    && (forall i :: 0 <= i < |w| && w[i] > 0 ==> i in e)
  }

  method LiveWithin(slots: Slots, threshold: Option<nat>) returns (e: seq<nat>)
    ensures forall k, l :: 0 <= k < l < |e| ==> e[k] < e[l]
    ensures forall k :: 0 <= k < |e| ==> 0 <= e[k] < |slots| && slots[e[k]].Some?
    ensures forall i :: i in e <==>
              0 <= i < |slots| && slots[i].Some? && (threshold.Some? ==> Latency(slots[i].value) <= threshold.value)
  {
    e := [];
    for i := 0 to |slots|
      invariant forall k :: 0 <= k < |e| ==> 0 <= e[k] < i && slots[e[k]].Some?
      invariant forall k, l :: 0 <= k < l < |e| ==> e[k] < e[l]
      invariant forall j :: j in e <==>
                  0 <= j < i && slots[j].Some? && (threshold.Some? ==> Latency(slots[j].value) <= threshold.value)
    {
      if slots[i].Some? && (threshold.None? || Latency(slots[i].value) <= threshold.value) { e := e + [i]; }
    }
  }

  /** Between two consecutive listed indices no slot takes part. */
  lemma NoneBetween(e: seq<nat>, w: seq<nat>, k: nat, lo: nat)
    requires Lists(e, w) && k <= |e| && (forall j :: 0 <= j < k ==> e[j] < lo)
    ensures forall i :: lo <= i < (if k < |e| then e[k] else |w|) ==> w[i] == 0
  {
    forall i | lo <= i < (if k < |e| then e[k] else |w|) ensures w[i] == 0 {
      assert w[i] > 0 ==> i in e;
    }
  }

  ghost function UpTo(w: seq<nat>, n: nat): (r: seq<int>)
    ensures |r| == |w| && forall i :: 0 <= i < |w| ==> r[i] == if i < n then w[i] else 0
  {
    seq(|w|, i requires 0 <= i < |w| => if i < n then w[i] else 0)
  }

  /** The slots with every participant below n raised to its new current weight. */
  ghost predicate RaisedUpTo(slots: Slots, r: Slots, w: seq<nat>, n: nat)
    requires |w| == |slots|
  {
    && |r| == |slots|
    && forall i :: 0 <= i < |r| ==>
         r[i] == if slots[i].Some? && i < n
                 then Some(slots[i].value.(current := slots[i].value.current + w[i])) else slots[i]
  }

  /** b is the first highest among the first k listed. */
  ghost predicate Leads(d: seq<int>, e: seq<nat>, k: nat, b: nat)
    requires k <= |e| && b < |d| && forall j :: 0 <= j < |e| ==> e[j] < |d|
  {
    && b in e[..k]
    && forall j :: 0 <= j < k ==> d[e[j]] <= d[b] && (e[j] < b ==> d[e[j]] < d[b])
  }

  lemma LeadsStep(d: seq<int>, e: seq<nat>, k: nat, best: Option<nat>)
    requires k < |e| && (forall j :: 0 <= j < |e| ==> e[j] < |d|) && (forall j, l :: 0 <= j < l < |e| ==> e[j] < e[l])
    requires best.None? <==> k == 0
    requires best.Some? ==> best.value < |d| && Leads(d, e, k, best.value)
    ensures var b := if best.None? || d[e[k]] > d[best.value] then e[k] else best.value; Leads(d, e, k + 1, b)
  {
    assert e[..k + 1] == e[..k] + [e[k]];
  }

  function RaiseAt(r: Slots, i: nat): Slots
    requires i < |r| && r[i].Some?
  {
    var c := r[i].value;
    r[i := Some(c.(current := c.current + Weight(c)))]
  }

  lemma RaiseStep(slots: Slots, r: Slots, w: seq<nat>, e: seq<nat>, k: nat, n: nat)
    requires |w| == |slots| && Lists(e, w) && k < |e| && n <= e[k] && (forall j :: 0 <= j < k ==> e[j] < n)
    requires RaisedUpTo(slots, r, w, n) && slots[e[k]].Some? && w[e[k]] == Weight(slots[e[k]].value)
    ensures r[e[k]] == slots[e[k]]
    ensures RaisedUpTo(slots, RaiseAt(r, e[k]), w, e[k] + 1)
    ensures Sum(UpTo(w, e[k] + 1)) == Sum(UpTo(w, n)) + w[e[k]]
  {
    var i := e[k];
    NoneBetween(e, w, k, n);
    SumUpdate(UpTo(w, n), i, w[i]);
    assert UpTo(w, i + 1) == UpTo(w, n)[i := w[i]];
  }

  lemma RaisedValue(slots: Slots, r: Slots, w: seq<nat>, n: nat, i: nat)
    requires |w| == |slots| && RaisedUpTo(slots, r, w, n) && i < n <= |w| && slots[i].Some?
    ensures r[i].Some? && r[i].value.current == Raise(w, Currents(slots))[i]
  {
  }

  ghost predicate Participants(slots: Slots, e: seq<nat>, w: seq<nat>) {
    && |w| == |slots| && Lists(e, w)
    && forall k :: 0 <= k < |e| ==> slots[e[k]].Some? && w[e[k]] == Weight(slots[e[k]].value)
  }

  /** After k listed slots, the last of which is n - 1. */
  ghost predicate Progress(slots: Slots, e: seq<nat>, w: seq<nat>, k: nat, n: nat, r: Slots, best: Option<nat>,
                           total: int)
    requires Participants(slots, e, w) && k <= |e|
  {
    && n <= |w| && (forall j :: 0 <= j < k ==> e[j] < n) && (forall j :: k <= j < |e| ==> n <= e[j])
    && RaisedUpTo(slots, r, w, n) && total == Sum(UpTo(w, n))
    && (best.None? <==> k == 0)
    && (best.Some? ==> best.value < n && slots[best.value].Some?
                       && Leads(Raise(w, Currents(slots)), e, k, best.value))
  }

  function Better(r: Slots, best: Option<nat>, i: nat): Option<nat>
    requires i < |r| && r[i].Some? && (best.Some? ==> best.value < |r| && r[best.value].Some?)
  {
    if best.None? || r[i].value.current > r[best.value].value.current then Some(i) else best
  }

  lemma ProgressStep(slots: Slots, e: seq<nat>, w: seq<nat>, k: nat, n: nat, r: Slots, best: Option<nat>, total: int)
    requires Participants(slots, e, w) && k < |e| && Progress(slots, e, w, k, n, r, best, total)
    ensures r[e[k]] == slots[e[k]]
    ensures var r' := RaiseAt(r, e[k]);
            && (best.Some? ==> r'[best.value].Some?)
            && Progress(slots, e, w, k + 1, e[k] + 1, r', Better(r', best, e[k]), total + Weight(r[e[k]].value))
  {
    var i, d := e[k], Raise(w, Currents(slots));
    RaiseStep(slots, r, w, e, k, n);
    LeadsStep(d, e, k, best);
    var r' := RaiseAt(r, i);
    RaisedValue(slots, r', w, i + 1, i);
    if best.Some? { RaisedValue(slots, r', w, i + 1, best.value); }
  }

  /** Raises every listed slot in turn, keeping the total weight and the first highest. */
  method RaiseListed(slots: Slots, e: seq<nat>, ghost w: seq<nat>) returns (r: Slots, best: Option<nat>, total: int)
    requires Participants(slots, e, w)
    ensures RaisedUpTo(slots, r, w, |w|) && total == Sum(w)
    ensures best.None? <==> e == []
    ensures best.Some? ==> best.value < |w| && Leads(Raise(w, Currents(slots)), e, |e|, best.value)
  {
    r, best, total := slots, None, 0;
    ghost var n := 0;
    AllZero(UpTo(w, 0));
    for k := 0 to |e|
      invariant Progress(slots, e, w, k, n, r, best, total)
    {
      ProgressStep(slots, e, w, k, n, r, best, total);
      total := total + Weight(r[e[k]].value);
      r := RaiseAt(r, e[k]);
      best := Better(r, best, e[k]);
      n := e[k] + 1;
    }
    NoneBetween(e, w, |e|, n);
    assert UpTo(w, n) == w;
  }

  /** The latency filter always leaves the least latency in, so the fallback to all is never taken. */
  lemma FilterKeepsLeast(slots: Slots, m: nat, e: seq<nat>)
    requires IsMinimum(slots, m)
    requires forall i :: i in e <==> 0 <= i < |slots| && slots[i].Some? && Latency(slots[i].value) <= 3 * m
    ensures e != []
  {
    var i :| 0 <= i < |slots| && slots[i].Some? && Latency(slots[i].value) == m;
    assert i in e;
  }

  function ChargeAt(r: Slots, b: nat, total: int): Slots
    requires b < |r| && r[b].Some?
  {
    r[b := Some(r[b].value.(current := r[b].value.current - total))]
  }

  lemma RaisedCurrents(slots: Slots, raised: Slots, w: seq<nat>)
    requires |w| == |slots| && RaisedUpTo(slots, raised, w, |w|)
    requires forall i :: 0 <= i < |w| && slots[i].None? ==> w[i] == 0
    ensures SameStats(slots, raised) && Currents(raised) == Raise(w, Currents(slots))
  {
  }

  lemma ChargedCurrents(raised: Slots, b: nat, total: int)
    requires b < |raised| && raised[b].Some?
    ensures var r := ChargeAt(raised, b, total);
            SameStats(raised, r) && Currents(r) == Currents(raised)[b := Currents(raised)[b] - total]
  {
  }

  lemma LeaderWins(w: seq<nat>, d: seq<int>, e: seq<nat>, b: nat)
    requires |w| == |d| && Lists(e, w) && b < |d| && Leads(d, e, |e|, b)
    ensures Wins(w, d, b)
  {
    assert e[..|e|] == e;
    forall i | 0 <= i < |w| && w[i] > 0 ensures d[i] <= d[b] && (i < b ==> d[i] < d[b]) {
      assert i in e;
    }
  }

  /** Charging the winner of a raised vector completes the round. */
  lemma Charged(slots: Slots, raised: Slots, w: seq<nat>, e: seq<nat>, b: nat)
    requires |w| == |slots| && Lists(e, w) && RaisedUpTo(slots, raised, w, |w|)
    requires forall i :: 0 <= i < |w| && slots[i].None? ==> w[i] == 0
    requires b < |w| && Leads(Raise(w, Currents(slots)), e, |e|, b)
    ensures w[b] > 0 && raised[b].Some?
    ensures var r := ChargeAt(raised, b, Sum(w)); SameStats(slots, r) && Round(w, Currents(slots), b, Currents(r))
  {
    var c := Currents(slots);
    var d := Raise(w, c);
    RaisedCurrents(slots, raised, w);
    LeaderWins(w, d, e, b);
    ChargedCurrents(raised, b, Sum(w));
    var r := ChargeAt(raised, b, Sum(w));
    SameStatsTransitive(slots, raised, r);
    assert Charges(w, d, b, Currents(r));
  }

  /** One selection: the pick is live, within three times the least latency m, and wins the round. */
  ghost predicate Selects(a: Slots, m: nat, pick: nat, b: Slots) {
    && IsMinimum(a, m) && SameStats(a, b)
    && pick < |a| && a[pick].Some? && Latency(a[pick].value) <= 3 * m
    && Round(Weights(a, m), Currents(a), pick, Currents(b))
  }

  ghost predicate IsSelectionRun(states: seq<Slots>, ms: seq<nat>, picks: seq<nat>) {
    && |states| == |picks| + 1 == |ms| + 1
    && forall k :: 0 <= k < |picks| ==> Selects(states[k], ms[k], picks[k], states[k + 1])
  }

  lemma SameStatsTransitive(a: Slots, b: Slots, c: Slots)
    requires SameStats(a, b) && SameStats(b, c)
    ensures SameStats(a, c)
  {
  }

  lemma MinimumUnique(a: Slots, m: nat, n: nat)
    requires IsMinimum(a, m) && IsMinimum(a, n)
    ensures m == n
  {
    var i :| 0 <= i < |a| && a[i].Some? && Latency(a[i].value) == m;
    var j :| 0 <= j < |a| && a[j].Some? && Latency(a[j].value) == n;
  }

  lemma {:induction false} StatsStayFixed(states: seq<Slots>, ms: seq<nat>, picks: seq<nat>, k: nat)
    requires IsSelectionRun(states, ms, picks) && k < |states|
    ensures SameStats(states[0], states[k])
  {
    if k > 0 {
      StatsStayFixed(states, ms, picks, k - 1);
      assert Selects(states[k - 1], ms[k - 1], picks[k - 1], states[k]);
      SameStatsTransitive(states[0], states[k - 1], states[k]);
    }
  }

  lemma RunOfRounds(states: seq<Slots>, ms: seq<nat>, picks: seq<nat>, m: nat, j: nat)
    requires IsSelectionRun(states, ms, picks) && IsMinimum(states[0], m) && j < |picks|
    ensures Round(Weights(states[0], m), Currents(states[j]), picks[j], Currents(states[j + 1]))
  {
    StatsStayFixed(states, ms, picks, j);
    assert Selects(states[j], ms[j], picks[j], states[j + 1]);
    StatsFixWeights(states[0], states[j], m);
    MinimumUnique(states[j], m, ms[j]);
  }

  /** Selections between which no measurement changes, from rest: each block of as many selections as the
      total weight picks every connection exactly as often as its weight. */
  lemma SelectionsAreFair(states: seq<Slots>, ms: seq<nat>, picks: seq<nat>, m: nat, k: nat)
    requires IsSelectionRun(states, ms, picks) && IsMinimum(states[0], m)
    requires forall i :: 0 <= i < |states[0]| && states[0][i].Some? ==> states[0][i].value.current == 0
    requires (k + 1) * Sum(Weights(states[0], m)) <= |picks|
    ensures var w := Weights(states[0], m);
            && 0 <= k * Sum(w) <= (k + 1) * Sum(w)
            && forall i :: 0 <= i < |w| ==> Count(picks[k * Sum(w)..(k + 1) * Sum(w)], i) == w[i]
  {
    var w, n := Weights(states[0], m), |states|;
    var cs := seq(n, j requires 0 <= j < n => Currents(states[j]));
    assert IsRun(w, cs, picks) by {
      forall j | 0 <= j < |picks| ensures Round(w, cs[j], picks[j], cs[j + 1]) {
        RunOfRounds(states, ms, picks, m, j);
      }
    }
    assert AtRest(w, cs[0]);
    EveryBlockIsFair(w, cs, picks, k);
  }

  /** In each such block a connection that is no slower and has no more errors is picked at least as often. */
  lemma BetterPickedMore(states: seq<Slots>, ms: seq<nat>, picks: seq<nat>, m: nat, k: nat, i: nat, j: nat)
    requires IsSelectionRun(states, ms, picks) && IsMinimum(states[0], m)
    requires forall i :: 0 <= i < |states[0]| && states[0][i].Some? ==> states[0][i].value.current == 0
    requires (k + 1) * Sum(Weights(states[0], m)) <= |picks|
    requires i < |states[0]| && j < |states[0]| && states[0][i].Some? && states[0][j].Some?
    requires Latency(states[0][i].value) <= Latency(states[0][j].value)
    requires states[0][i].value.errors <= states[0][j].value.errors
    ensures var total := Sum(Weights(states[0], m));
            && 0 <= k * total <= (k + 1) * total
            && Count(picks[k * total..(k + 1) * total], i) >= Count(picks[k * total..(k + 1) * total], j)
  {
    SelectionsAreFair(states, ms, picks, m, k);
    WeightMonotone(states[0][i].value, states[0][j].value);
    var w := Weights(states[0], m);
    assert w[i] >= w[j];
  }

  class Scheduler {
    var conns: Slots

    /** Picks none exactly when no connection is live; otherwise one weighted round among those within
        three times the least latency. */
    method Select() returns (pick: Option<nat>)
      modifies this
      ensures SameStats(old(conns), conns)
      ensures pick.None? <==> !AnyLive(old(conns))
      ensures pick.None? ==> conns == old(conns)
      ensures pick.Some? ==> exists m :: Selects(old(conns), m, pick.value, conns)
    {
      var m := LeastLatency(conns);
      var e := LiveWithin(conns, Some(3 * m));
      if AnyLive(conns) { FilterKeepsLeast(conns, m, e); }
      if |e| == 0 {
        assert !AnyLive(conns);
        e := LiveWithin(conns, None);
      }
      ghost var w := Weights(conns, m);
      var r, best, total := RaiseListed(conns, e, w);
      pick := best;
      if best.Some? {
        Charged(conns, r, w, e, best.value);
        ghost var before := conns;
        conns := ChargeAt(r, best.value, total);
        assert Selects(before, m, best.value, conns);
      }
    }
  }
}
