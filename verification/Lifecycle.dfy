/** When the multiplexer is declared dead: reader and reconnect counters, one atomic operation a step. */
module DeathNotice {

  /**
   * readers, reconnecting: the two counters; everLeft: some counter has been decremented;
   * readerChecks: readers that saw zero and have not yet looked at the other counter; endChecks: likewise for
   * ended reconnects; closers: threads that have decided to close; dead: the notice has been given.
   */
  datatype State = State(readers: nat, reconnecting: nat, everLeft: bool, readerChecks: nat, endChecks: nat,
                         closers: nat, dead: bool)

  datatype Step = StartReader | ReaderLeaves | ReaderLooks | BeginReconnect | ReconnectEnds | EndLooks | Close

  const START := State(0, 0, false, 0, 0, 0, false)

  /** Brackets are balanced: only a begun reconnect ends, only a started reader leaves. */
  predicate Enabled(s: State, step: Step) {
    match step
    case ReaderLeaves => s.readers > 0
    case ReaderLooks => s.readerChecks > 0
    case ReconnectEnds => s.reconnecting > 0
    case EndLooks => s.endChecks > 0
    case Close => s.closers > 0
    case _ => true
  }

  function Apply(s: State, step: Step): State
    requires Enabled(s, step)
  {
    match step
    case StartReader => s.(readers := s.readers + 1)
    case ReaderLeaves =>
      s.(readers := s.readers - 1, everLeft := true,
         readerChecks := if s.readers - 1 == 0 then s.readerChecks + 1 else s.readerChecks)
    case ReaderLooks =>
      s.(readerChecks := s.readerChecks - 1, closers := if s.reconnecting == 0 then s.closers + 1 else s.closers)
    case BeginReconnect => s.(reconnecting := s.reconnecting + 1)
    case ReconnectEnds =>
      s.(reconnecting := s.reconnecting - 1, everLeft := true,
         endChecks := if s.reconnecting - 1 <= 0 then s.endChecks + 1 else s.endChecks)
    case EndLooks =>
      s.(endChecks := s.endChecks - 1, closers := if s.readers == 0 then s.closers + 1 else s.closers)
    case Close => s.(closers := s.closers - 1, dead := true)
  }

  /** Nobody left and nobody coming back: the notice is given or on its way. */
  ghost predicate Inv(s: State) {
    s.readers == 0 && s.reconnecting == 0 && s.everLeft ==>
      s.dead || s.readerChecks > 0 || s.endChecks > 0 || s.closers > 0
  }

  ghost predicate IsRun(states: seq<State>, steps: seq<Step>) {
    && |states| == |steps| + 1 && states[0] == START
    && forall k :: 0 <= k < |steps| ==> Enabled(states[k], steps[k]) && states[k + 1] == Apply(states[k], steps[k])
  }

  lemma {:induction false} RunInv(states: seq<State>, steps: seq<Step>, k: nat)
    requires IsRun(states, steps) && k < |states|
    ensures Inv(states[k])
  {
    if k > 0 {
      RunInv(states, steps, k - 1);
      assert states[k] == Apply(states[k - 1], steps[k - 1]);
    }
  }

  /**
   * No lost notice, in any interleaving: once both counters are zero, something has been decremented, and no
   * thread is between its decrement and the end of its check, the mux has been declared dead.
   */
  lemma NoLostNotice(states: seq<State>, steps: seq<Step>, k: nat)
    requires IsRun(states, steps) && k < |states|
    requires states[k].readers == 0 && states[k].reconnecting == 0 && states[k].everLeft
    requires states[k].readerChecks == 0 && states[k].endChecks == 0 && states[k].closers == 0
    ensures states[k].dead
  {
    RunInv(states, steps, k);
  }

  /** What the threads between a decrement and the end of its check still have to do. */
  function Outstanding(s: State): nat {
    2 * s.readerChecks + 2 * s.endChecks + s.closers
  }

  /** They get through: each of their own steps leaves less to do, and only a decrement makes more. */
  lemma ThreadsGetThrough(s: State, step: Step)
    requires Enabled(s, step)
    ensures step == ReaderLooks || step == EndLooks || step == Close ==> Outstanding(Apply(s, step)) < Outstanding(s)
    ensures step == StartReader || step == BeginReconnect ==> Outstanding(Apply(s, step)) == Outstanding(s)
  {
  }

  // ---------------------------------------------------------------- what holds the notice back

  /** Nothing is on its way to a notice, unless a look at one counter finds it zero. */
  ghost predicate Quiet(s: State) {
    !s.dead && s.closers == 0
  }

  /**
   * An open reconnect bracket holds the notice back: if nobody has decided to close and no ended reconnect is still to
   * look, then as long as some reconnect is under way, in every interleaving, no notice is given or decided.
   */
  lemma {:induction false} BracketHolds(states: seq<State>, steps: seq<Step>, j: nat, k: nat)
    requires IsRun(states, steps) && j <= k < |states| && Quiet(states[j]) && states[j].endChecks == 0
    requires forall t :: j <= t <= k ==> states[t].reconnecting > 0
    ensures Quiet(states[k]) && states[k].endChecks == 0
  {
    if j < k {
      BracketHolds(states, steps, j, k - 1);
      assert states[k] == Apply(states[k - 1], steps[k - 1]) && states[k].reconnecting > 0;
    }
  }

  /** So does a live reader, if no reader that saw zero is still to look. */
  lemma {:induction false} ReaderHolds(states: seq<State>, steps: seq<Step>, j: nat, k: nat)
    requires IsRun(states, steps) && j <= k < |states| && Quiet(states[j]) && states[j].readerChecks == 0
    requires forall t :: j <= t <= k ==> states[t].readers > 0
    ensures Quiet(states[k]) && states[k].readerChecks == 0
  {
    if j < k {
      ReaderHolds(states, steps, j, k - 1);
      assert states[k] == Apply(states[k - 1], steps[k - 1]) && states[k].readers > 0;
    }
  }

  /** And nothing is declared dead before anything has been decremented. */
  lemma {:induction false} NothingBeforeFirst(states: seq<State>, steps: seq<Step>, k: nat)
    requires IsRun(states, steps) && k < |states| && !states[k].everLeft
    ensures Quiet(states[k]) && states[k].readerChecks == 0 && states[k].endChecks == 0
  {
    if k > 0 {
      assert states[k] == Apply(states[k - 1], steps[k - 1]);
      NothingBeforeFirst(states, steps, k - 1);
    }
  }

  // ---------------------------------------------------------------- whether the notice is true

  /**
   * The converse does not hold: a reader may start after another has decided to close, and then the mux is
   * declared dead while a reader is alive.
   */
  lemma DeadWithLiveReader() returns (states: seq<State>, steps: seq<Step>)
    ensures IsRun(states, steps) && FalseNotice(states[|steps|])
  {
    var s1 := Apply(START, StartReader);
    var s2 := Apply(s1, ReaderLeaves);
    var s3 := Apply(s2, ReaderLooks);
    var s4 := Apply(s3, StartReader);
    states := [START, s1, s2, s3, s4, Apply(s4, Close)];
    steps := [StartReader, ReaderLeaves, ReaderLooks, StartReader, Close];
  }

  predicate FalseNotice(s: State) {
    s.dead && s.readers > 0
  }

  /** The steps that make the notice false: closing beside a live reader, or starting one after the notice. */
  predicate Falsifies(s: State, step: Step) {
    (step == Close && s.readers > 0) || (step == StartReader && s.dead)
  }

  /** A thread is about to give, or has given, a notice that a live reader belies. */
  predicate Doomed(s: State) {
    (s.dead || s.closers > 0) && s.readers > 0
  }

  /** Where that comes from: a reader starts after the decision, or one that has started since the last one left is
      overlooked by the look that decides. */
  predicate Dooms(s: State, step: Step) {
    || (step == StartReader && (s.dead || s.closers > 0))
    || (step == ReaderLooks && s.readers > 0 && s.reconnecting == 0)
  }

  /** Doomed means: the notice is false, or closing now would make it so. */
  lemma DoomedMeaning(s: State)
    ensures Doomed(s) <==> FalseNotice(s) || (Enabled(s, Close) && FalseNotice(Apply(s, Close)))
  {
  }

  ghost predicate Avoids(states: seq<State>, steps: seq<Step>, bad: (State, Step) -> bool)
    requires |states| == |steps| + 1
  {
    forall k :: 0 <= k < |steps| ==> !bad(states[k], steps[k])
  }

  ghost predicate Never(states: seq<State>, bad: State -> bool) {
    forall k :: 0 <= k < |states| ==> !bad(states[k])
  }

  /** What a guard makes true exactly when it fires, a run meets exactly when the guard fires in it. */
  lemma {:induction false} RunExact(states: seq<State>, steps: seq<Step>, bad: State -> bool,
                                    guard: (State, Step) -> bool)
    requires IsRun(states, steps) && !bad(START)
    requires forall s, step :: Enabled(s, step) && !bad(s) ==> (bad(Apply(s, step)) <==> guard(s, step))
    ensures Never(states, bad) <==> Avoids(states, steps, guard)
  {
    if Never(states, bad) {
      forall k | 0 <= k < |steps| ensures !guard(states[k], steps[k]) { assert !bad(states[k]) && !bad(states[k + 1]); }
    }
    if Avoids(states, steps, guard) {
      forall k | 0 <= k < |states| ensures !bad(states[k]) { AvoidedUpTo(states, steps, bad, guard, k); }
    }
  }

  lemma {:induction false} AvoidedUpTo(states: seq<State>, steps: seq<Step>, bad: State -> bool,
                                       guard: (State, Step) -> bool, k: nat)
    requires IsRun(states, steps) && !bad(START) && Avoids(states, steps, guard) && k < |states|
    requires forall s, step :: Enabled(s, step) && !bad(s) ==> (bad(Apply(s, step)) <==> guard(s, step))
    ensures !bad(states[k])
  {
    if k > 0 {
      AvoidedUpTo(states, steps, bad, guard, k - 1);
      assert states[k] == Apply(states[k - 1], steps[k - 1]) && !guard(states[k - 1], steps[k - 1]);
    }
  }

  /** In every interleaving: the notice is true at every point exactly when no step closes beside a live reader or
      starts one after the notice. */
  lemma NoticeTrueExact(states: seq<State>, steps: seq<Step>)
    requires IsRun(states, steps)
    ensures Never(states, FalseNotice) <==> Avoids(states, steps, Falsifies)
  {
    RunExact(states, steps, FalseNotice, Falsifies);
  }

  /** And nobody is ever about to give a false notice exactly when no reader starts once a decision to close stands,
      and none is alive when a leaving reader's look decides. */
  lemma DoomedExact(states: seq<State>, steps: seq<Step>)
    requires IsRun(states, steps)
    ensures Never(states, Doomed) <==> Avoids(states, steps, Dooms)
  {
    RunExact(states, steps, Doomed, Dooms);
  }
}

/** Closing a stream from several threads. */
module CloseOnce {

  /** won: threads that swapped the closed flag and have not yet closed the done channel; announced: those that
      have, but have not yet lowered the stream count; doneCloses and drops count the two effects. */
  datatype State = State(closed: bool, won: nat, announced: nat, doneCloses: nat, drops: nat)

  datatype Step = Swap | CloseDone | DropCount

  const START := State(false, 0, 0, 0, 0)

  predicate Enabled(s: State, step: Step) {
    match step
    case Swap => true
    case CloseDone => s.won > 0
    case DropCount => s.announced > 0
  }

  function Apply(s: State, step: Step): State
    requires Enabled(s, step)
  {
    match step
    case Swap => if s.closed then s else s.(closed := true, won := s.won + 1)
    case CloseDone => s.(won := s.won - 1, announced := s.announced + 1, doneCloses := s.doneCloses + 1)
    case DropCount => s.(announced := s.announced - 1, drops := s.drops + 1)
  }

  ghost predicate IsRun(states: seq<State>, steps: seq<Step>) {
    && |states| == |steps| + 1 && states[0] == START
    && forall k :: 0 <= k < |steps| ==> Enabled(states[k], steps[k]) && states[k + 1] == Apply(states[k], steps[k])
  }

  ghost predicate Inv(s: State) {
    && s.won + s.announced + s.drops == (if s.closed then 1 else 0)
    && s.doneCloses == s.announced + s.drops
  }

  lemma {:induction false} RunInv(states: seq<State>, steps: seq<Step>, k: nat)
    requires IsRun(states, steps) && k < |states|
    ensures Inv(states[k])
  {
    if k > 0 {
      RunInv(states, steps, k - 1);
      assert states[k] == Apply(states[k - 1], steps[k - 1]);
    }
  }

  /** However many threads close, in whatever order: each effect happens at most once, so the done channel is
      never closed twice, and once the winner is through, exactly once. */
  lemma ExactlyOnce(states: seq<State>, steps: seq<Step>, k: nat)
    requires IsRun(states, steps) && k < |states|
    ensures states[k].doneCloses <= 1 && states[k].drops <= 1
    ensures states[k].closed && states[k].won == 0 && states[k].announced == 0 ==>
              states[k].doneCloses == 1 && states[k].drops == 1
  {
    RunInv(states, steps, k);
  }
}

/** The reconnect loop around the counters. */
module ReconnectLoop {

  const NORMAL_MAX_ATTEMPTS: nat := 5
  const MAX_BACKOFF: nat := 30

  /** One look at the outside world: cancellation, signaling, the readers alive at that moment (they come and go on
      their own), health, and the result of one reconnect attempt. */
  datatype Obs = Obs(cancelled: bool, sigAlive: bool, active: nat, healthy: bool, reconnected: bool)

  /** Past the end of the observations everything has failed. */
  function At(trace: seq<Obs>, pos: nat): Obs {
    if pos < |trace| then trace[pos] else Obs(true, false, 0, false, false)
  }

  class Counters {
    var readers: nat
    var reconnecting: int
    var dead: bool

    method BeginReconnect()
      modifies this
      ensures reconnecting == old(reconnecting) + 1 && readers == old(readers) && dead == old(dead)
    {
      reconnecting := reconnecting + 1;
    }

    method EndReconnect()
      modifies this
      ensures reconnecting == old(reconnecting) - 1 && readers == old(readers)
      ensures dead == (old(dead) || (reconnecting <= 0 && readers == 0))
    {
      reconnecting := reconnecting - 1;
      if reconnecting <= 0 && readers == 0 { dead := true; }
    }
  }

  method Look(m: Counters, trace: seq<Obs>, pos: nat) returns (o: Obs)
    modifies m
    ensures o == At(trace, pos) && m.readers == o.active
    ensures m.reconnecting == old(m.reconnecting) && m.dead == old(m.dead)
  {
    o := At(trace, pos);
    m.readers := o.active;
  }

  /** So many attempts were made, each with signaling alive, and all failed but the last if there was a success. */
  ghost predicate Attempted(trace: seq<Obs>, start: nat, attempts: nat, success: bool) {
    && (forall j :: 0 <= j < attempts ==> Attempt(trace, start, j).sigAlive)
    && (forall j :: 0 <= j < attempts ==> (Attempt(trace, start, j).reconnected <==> success && j == attempts - 1))
    && (success ==> attempts > 0)
  }

  /** What is seen at attempt j; between two attempts there is one more look. */
  function Attempt(trace: seq<Obs>, start: nat, j: nat): Obs {
    At(trace, start + 2 * j)
  }

  /** Whether attempt j, counted from 1, is made in critical mode: as the caller said at first, then as the look before
      it showed. */
  predicate CriticalAt(trace: seq<Obs>, start: nat, critical0: bool, minActive: nat, j: nat) {
    if j <= 1 then critical0 else At(trace, start + 2 * j - 3).active < minActive || !At(trace, start + 2 * j - 3).healthy
  }

  /**
   * Attempts to bring one connection back; stop: the whole loop must end. Either way the bracket is closed, and
   * death is declared exactly when no reader is left at that moment and no other reconnect is under way: the new
   * reader may be gone before the bracket is closed. It gives up at the first attempt from the fifth on that is made in
   * normal mode.
   */
  method ReconnectSlot(m: Counters, trace: seq<Obs>, start: nat, critical0: bool, minActive: nat)
    returns (stop: bool, pos: nat, failed: bool, critical: bool, attempts: nat)
    modifies m
    ensures m.reconnecting == old(m.reconnecting)
    ensures m.dead == (old(m.dead) || (old(m.reconnecting) <= 0 && m.readers == 0))
    ensures pos > start && m.readers == At(trace, pos - 1).active
    ensures start >= |trace| ==> stop
    ensures Attempted(trace, start, attempts, !failed)
    ensures !stop ==> pos == start + 2 * attempts && attempts > 0
    ensures !stop ==> critical == CriticalAt(trace, start, critical0, minActive, attempts)
    ensures failed && !stop ==> !critical && attempts >= NORMAL_MAX_ATTEMPTS
    ensures forall j :: NORMAL_MAX_ATTEMPTS <= j < attempts ==> CriticalAt(trace, start, critical0, minActive, j)
    ensures stop ==> failed
    ensures stop ==> || (pos == start + 2 * attempts + 2 && !At(trace, start + 2 * attempts).sigAlive)
                     || (pos == start + 2 * attempts + 1 && attempts > 0 && At(trace, start + 2 * attempts - 1).cancelled)
  {
    m.BeginReconnect();
    stop, pos, failed, critical, attempts := false, start, true, critical0, 0;
    var backoff := 1;
    while true
      invariant m.reconnecting == old(m.reconnecting) + 1 && m.dead == old(m.dead)
      invariant pos == start + 2 * attempts && !stop && failed && 1 <= backoff <= MAX_BACKOFF
      invariant Attempted(trace, start, attempts, false)
      invariant critical == CriticalAt(trace, start, critical0, minActive, attempts + 1)
      invariant forall j :: NORMAL_MAX_ATTEMPTS <= j <= attempts ==> CriticalAt(trace, start, critical0, minActive, j)
      invariant start >= |trace| ==> pos == start
      decreases |trace| - pos
    {
      var o := Look(m, trace, pos);
      pos := pos + 1;
      if !o.sigAlive {
        stop := true;
        break;
      }
      attempts := attempts + 1;
      if o.reconnected {
        m.readers := m.readers + 1;
        failed := false;
        break;
      }
      if !critical && attempts >= NORMAL_MAX_ATTEMPTS { break; }
      o := Look(m, trace, pos);
      pos := pos + 1;
      if o.cancelled {
        stop := true;
        break;
      }
      backoff := if backoff * 2 > MAX_BACKOFF then MAX_BACKOFF else backoff * 2;
      critical := o.active < minActive || !o.healthy;
    }
    var _ := Look(m, trace, pos);
    pos := pos + 1;
    m.EndReconnect();
  }

  /** Brings back up to needed connections; gaveUp: the last one failed in normal mode, and the rest are left for the
      next turn. Each of the slots tried takes an attempt and a look before its bracket closes. */
  method ReconnectAll(m: Counters, trace: seq<Obs>, start: nat, needed: nat, critical0: bool, minActive: nat)
    returns (stop: bool, pos: nat, slots: nat, gaveUp: bool)
    modifies m
    ensures m.reconnecting == old(m.reconnecting)
    ensures old(m.reconnecting) > 0 ==> m.dead == old(m.dead)
    ensures slots <= needed && pos >= start + 2 * slots
    ensures !stop ==> slots == needed || gaveUp
    ensures needed > 0 ==> slots > 0
    ensures stop ==> slots > 0 && pos > 1 && Ends(At(trace, pos - 2))
  {
    stop, pos, slots, gaveUp := false, start, 0, false;
    var critical := critical0;
    while slots < needed
      invariant m.reconnecting == old(m.reconnecting) && slots <= needed && pos >= start + 2 * slots
      invariant !stop && !gaveUp
      invariant old(m.reconnecting) > 0 ==> m.dead == old(m.dead)
    {
      var failed, attempts;
      stop, pos, failed, critical, attempts := ReconnectSlot(m, trace, pos, critical, minActive);
      slots := slots + 1;
      if stop { return; }
      if failed && !critical {
        gaveUp := true;
        return;
      }
    }
  }

  /** What ends the whole loop. */
  predicate Ends(o: Obs) {
    o.cancelled || !o.sigAlive
  }

  /** One turn of the loop, from its first look to where the next begins; needed: connections missing; slots: how many
      of them it tried to bring back; gaveUp: it left the rest because one failed in normal mode. */
  datatype Turn = Turn(start: nat, end: nat, needed: nat, slots: nat, gaveUp: bool)

  /** How many are missing: counted again after the probe when there are enough but they are not healthy. */
  function Missing(trace: seq<Obs>, start: nat, target: nat): nat {
    var o := At(trace, start);
    if o.active < target then target - o.active
    else if o.healthy then 0
    else if At(trace, start + 1).active < target then target - At(trace, start + 1).active
    else 0
  }

  ghost predicate TurnTaken(trace: seq<Obs>, target: nat, t: Turn) {
    && t.start < t.end && t.needed == Missing(trace, t.start, target) && t.slots <= t.needed
    && (t.needed > 0 ==> t.slots > 0) && (t.slots == t.needed || t.gaveUp)
    && !Ends(At(trace, t.start))
  }

  /** The turns follow each other without a gap, from the start to position pos. */
  ghost predicate Turns(trace: seq<Obs>, target: nat, turns: seq<Turn>, pos: nat) {
    && (forall k :: 0 <= k < |turns| ==> TurnTaken(trace, target, turns[k]))
    && (forall k :: 0 <= k < |turns| - 1 ==> turns[k].end == turns[k + 1].start)
    && (if |turns| == 0 then pos == 0 else turns[0].start == 0 && turns[|turns| - 1].end == pos)
  }

  /** The whole loop: at every exit the reconnect counter is what it was on entry, and while another reconnect is
      under way throughout, this one never declares death. In every turn it tries to bring back as many connections as
      are missing, or until it gives up. It ends only on seeing that it is cancelled or that signaling is dead, at its
      last look or, inside a bracket, at the one before. turns: those completed; last: where the last one began. */
  method Run(m: Counters, trace: seq<Obs>, target: nat) returns (pos: nat, turns: seq<Turn>, last: nat)
    modifies m
    ensures m.reconnecting == old(m.reconnecting)
    ensures old(m.reconnecting) > 0 ==> m.dead == old(m.dead)
    ensures Turns(trace, target, turns, last) && last < pos
    ensures Ends(At(trace, pos - 1)) || (pos > 1 && Ends(At(trace, pos - 2)))
  {
    var minActive := if target / 2 < 2 then 2 else target / 2;
    if minActive > target { minActive := target; }
    pos, turns, last := 0, [], 0;
    while true
      invariant m.reconnecting == old(m.reconnecting)
      invariant old(m.reconnecting) > 0 ==> m.dead == old(m.dead)
      invariant pos == last && Turns(trace, target, turns, last)
      decreases |trace| - pos
    {
      var o := Look(m, trace, pos);
      pos := pos + 1;
      if o.cancelled || !o.sigAlive { return; }
      var active, healthy := o.active, o.healthy;
      if active >= target && healthy {
        turns, last := turns + [Turn(last, pos, 0, 0, false)], pos;
        continue;
      }
      var critical := active < minActive || !healthy;
      if active >= target {
        o := Look(m, trace, pos);
        pos := pos + 1;
        if o.cancelled { return; }
        active := o.active;
        if active >= target {
          turns, last := turns + [Turn(last, pos, 0, 0, false)], pos;
          continue;
        }
      }
      var stop, slots, gaveUp;
      stop, pos, slots, gaveUp := ReconnectAll(m, trace, pos, target - active, critical, minActive);
      if stop { return; }
      turns, last := turns + [Turn(last, pos, target - active, slots, gaveUp)], pos;
    }
  }
}
