/** The sender's 512-slot buffer of recent packets, indexed by packet number. */
module RetransmitSpec {
  import opened Bytes

  const SLOTS: nat := 512

  datatype Entry = Entry(seqno: uint16, payload: bytes)

  type Slots = s: seq<Option<Entry>> | |s| == SLOTS witness seq(SLOTS, _ => None)

  function Store(b: Slots, p: uint16, payload: bytes): (r: Slots) {
    b[p % SLOTS := Some(Entry(p, payload))]
  }

  /** The stored payload; an empty one cannot be told from nothing. */
  function Get(b: Slots, p: uint16): (r: Option<bytes>) {
    match b[p % SLOTS]
    case Some(e) => if e.seqno == p && e.payload != [] then Some(e.payload) else None
    case None => None
  }

  /** After packets 0 .. n - 1 were stored under their numbers modulo 2^16. */
  ghost function StoredUpTo(n: nat, pay: nat -> bytes): Slots {
    if n == 0 then seq(SLOTS, _ => None) else Store(StoredUpTo(n - 1, pay), (n - 1) % M16, pay(n - 1))
  }

  /** The number of slots divides the number of packet numbers, so the wrap does not move a packet's slot. */
  lemma SlotOfIndex(j: nat)
    ensures (j % M16) % SLOTS == j % SLOTS
  {
    var q := j / M16;
    assert j == q * M16 + j % M16;
    assert q * M16 == (q * 128) * SLOTS;
  }

  /** Slot k after n stores: the latest index of its residue class, if any was stored. */
  ghost predicate Latest(slot: Option<Entry>, n: nat, pay: nat -> bytes, k: nat) {
    match slot
    case None => n <= k
    case Some(e) => exists j :: 0 <= j < n <= j + SLOTS && j % SLOTS == k && e == Entry(j % M16, pay(j))
  }

  ghost predicate Recent(b: Slots, n: nat, pay: nat -> bytes) {
    forall k :: 0 <= k < SLOTS ==> Latest(b[k], n, pay, k)
  }

  lemma LatestStep(slot: Option<Entry>, n: nat, pay: nat -> bytes, k: nat)
    requires k < SLOTS && Latest(slot, n, pay, k) && n % SLOTS != k
    ensures Latest(slot, n + 1, pay, k)
  {
    if slot.Some? {
      var j :| 0 <= j < n <= j + SLOTS && j % SLOTS == k && slot.value == Entry(j % M16, pay(j));
      OneTurnOn(j);
      assert j < n + 1 <= j + SLOTS;
    }
  }

  lemma OneTurnOn(j: nat)
    ensures (j + SLOTS) % SLOTS == j % SLOTS
  {
  }

  /** Storing the next index keeps every slot the latest of its class. */
  lemma StoreKeepsRecent(b: Slots, n: nat, pay: nat -> bytes)
    requires Recent(b, n, pay)
    ensures Recent(Store(b, n % M16, pay(n)), n + 1, pay)
  {
    SlotOfIndex(n);
    var b' := Store(b, n % M16, pay(n));
    forall k | 0 <= k < SLOTS ensures Latest(b'[k], n + 1, pay, k) {
      if n % SLOTS == k {
        assert b'[k] == Some(Entry(n % M16, pay(n)));
      } else {
        LatestStep(b[k], n, pay, k);
      }
    }
  }

  lemma {:induction false} StoredIsRecent(n: nat, pay: nat -> bytes)
    ensures Recent(StoredUpTo(n, pay), n, pay)
  {
    if n > 0 {
      StoredIsRecent(n - 1, pay);
      StoreKeepsRecent(StoredUpTo(n - 1, pay), n - 1, pay);
    }
  }

  lemma SameSlot(i: nat, j: nat)
    requires i % SLOTS == j % SLOTS && i <= j < i + SLOTS
    ensures i == j
  {
  }

  /** Under any number of wraps, index j among the last 512 is found under its number, with its own payload. */
  lemma GetFindsRecent(b: Slots, n: nat, pay: nat -> bytes, j: nat)
    requires Recent(b, n, pay) && j < n <= j + SLOTS && pay(j) != []
    ensures Get(b, j % M16) == Some(pay(j))
  {
    SlotOfIndex(j);
    var k := j % SLOTS;
    assert Latest(b[k], n, pay, k);
    if b[k].Some? {
      var i :| 0 <= i < n <= i + SLOTS && i % SLOTS == k && b[k].value == Entry(i % M16, pay(i));
      if i <= j { SameSlot(i, j); } else { SameSlot(j, i); }
    }
  }

  /** And whatever is found under a number is the payload of an index among the last 512 with that number. */
  lemma GetFindsOnlyRecent(b: Slots, n: nat, pay: nat -> bytes, p: uint16) returns (j: nat)
    requires Recent(b, n, pay) && Get(b, p).Some?
    ensures j < n <= j + SLOTS && j % M16 == p && Get(b, p) == Some(pay(j))
  {
    assert Latest(b[p % SLOTS], n, pay, p % SLOTS);
    var e := b[p % SLOTS].value;
    j :| 0 <= j < n <= j + SLOTS && j % SLOTS == p % SLOTS && e == Entry(j % M16, pay(j));
  }

  /**
   * After any number of consecutive stores numbered modulo 2^16: a number is found exactly when one of the
   * last 512 indices carries it with a payload that is not empty, and what is found is that payload.
   */
  lemma RetransmitExact(n: nat, pay: nat -> bytes, p: uint16)
    ensures Get(StoredUpTo(n, pay), p).Some? <==> exists j :: Carries(n, j, p) && pay(j) != []
    ensures forall j :: Carries(n, j, p) ==>
              Get(StoredUpTo(n, pay), p) == if pay(j) == [] then None else Some(pay(j))
  {
    StoredIsRecent(n, pay);
    var b := StoredUpTo(n, pay);
    if Get(b, p).Some? {
      var j := GetFindsOnlyRecent(b, n, pay, p);
      assert Carries(n, j, p) && pay(j) != [];
      forall i | Carries(n, i, p) ensures i == j { CarriedOnce(n, i, j, p); }
    }
    forall j | Carries(n, j, p) && pay(j) != [] ensures Get(b, p) == Some(pay(j)) {
      GetFindsRecent(b, n, pay, j);
    }
  }

  lemma CarriedOnce(n: nat, i: nat, j: nat, p: uint16)
    requires Carries(n, i, p) && Carries(n, j, p)
    ensures i == j
  {
    SlotOfIndex(i);
    SlotOfIndex(j);
    if i <= j { SameSlot(i, j); } else { SameSlot(j, i); }
  }

  /** Index j is among the last 512 of n and has number p. */
  ghost predicate Carries(n: nat, j: nat, p: uint16) {
    j < n <= j + SLOTS && j % M16 == p
  }
}

module RetransmitBuffers {
  import opened Bytes
  import opened RetransmitSpec

  class RetransmitBuffer {
    const buf: array<Option<Entry>>

    ghost predicate Valid()
    {
      buf.Length == SLOTS
    }

    ghost function View(): Slots
      requires Valid()
      reads buf
    {
      buf[..]
    }

    constructor ()
      ensures Valid() && fresh(buf) && View() == seq(SLOTS, _ => None)
    {
      buf := new Option<Entry>[SLOTS](_ => None);
    }

    method Store(pktSeq: uint16, payload: bytes)
      requires Valid()
      modifies buf
      ensures View() == RetransmitSpec.Store(old(View()), pktSeq, payload)
    {
      buf[pktSeq % SLOTS] := Some(Entry(pktSeq, payload));
    }

    method Get(pktSeq: uint16) returns (r: Option<bytes>)
      requires Valid()
      ensures r == RetransmitSpec.Get(View(), pktSeq)
    {
      var slot := buf[pktSeq % SLOTS];
      if slot.Some? && slot.value.seqno == pktSeq && slot.value.payload != [] {
        return Some(slot.value.payload);
      }
      return None;
    }
  }
}
