/** The overwriting ring buffer in which a store records what changed since the last synchronisation. */
module SyncBuffer {
  import opened Prelude
  import Bits

  datatype SyncOp =
    | SetOp(key: string, version: int, value: seq<byte>, expireAt: int)
    | DeleteOp(key: string, version: int)

  /** Recording in a full buffer drops the oldest operation. */
  function Push(pending: seq<SyncOp>, op: SyncOp, capacity: nat): seq<SyncOp> {
    if |pending| >= capacity then (pending + [op])[1..] else pending + [op]
  }

  /** A batch write moves the tail as soon as the buffer is full, one operation early. */
  function PushBatched(pending: seq<SyncOp>, op: SyncOp, capacity: nat): seq<SyncOp> {
    if |pending| + 1 >= capacity then (pending + [op])[1..] else pending + [op]
  }

  /** The `capacity` newest operations. */
  function Newest(ops: seq<SyncOp>, capacity: nat): seq<SyncOp> {
    if |ops| <= capacity then ops else ops[|ops| - capacity..]
  }

  datatype Event = Record(op: SyncOp) | RecordBatched(op: SyncOp) | Drain

  /** What is pending after a sequence of events. */
  function PendingAfter(events: seq<Event>, capacity: nat): seq<SyncOp> {
    if events == [] then []
    else
      var pending := PendingAfter(events[..|events| - 1], capacity);
      match events[|events| - 1]
      case Record(op) => Push(pending, op, capacity)
      case RecordBatched(op) => PushBatched(pending, op, capacity)
      case Drain => []
  }

  /** Everything recorded since the last drain. */
  function SinceDrain(events: seq<Event>): seq<SyncOp> {
    if events == [] then []
    else
      var ops := SinceDrain(events[..|events| - 1]);
      match events[|events| - 1]
      case Record(op) => ops + [op]
      case RecordBatched(op) => ops + [op]
      case Drain => []
  }

  /** What a drain returns after single writes and deletes: exactly the newest operations since the drain
      before, as many as fit, in order; nothing is returned twice. */
  lemma {:induction false} KeepsNewest(events: seq<Event>, capacity: nat)
    requires capacity >= 1
    requires forall e :: e in events ==> !e.RecordBatched?
    ensures PendingAfter(events, capacity) == Newest(SinceDrain(events), capacity)
  {
    if events != [] {
      var front, last := events[..|events| - 1], events[|events| - 1];
      KeepsNewest(front, capacity);
      assert last in events;
      if last.Record? {
        PushNewest(SinceDrain(front), last.op, capacity);
      }
    }
  }

  lemma PushNewest(ops: seq<SyncOp>, op: SyncOp, capacity: nat)
    requires capacity >= 1
    ensures Push(Newest(ops, capacity), op, capacity) == Newest(ops + [op], capacity)
  {
  }

  ghost predicate IsSuffix(s: seq<SyncOp>, t: seq<SyncOp>) {
    |s| <= |t| && s == t[|t| - |s|..]
  }

  /** What is pending is an unbroken run of the newest operations, at most one short of those that fit. */
  ghost predicate Kept(pending: seq<SyncOp>, ops: seq<SyncOp>, capacity: nat) {
    IsSuffix(pending, ops) && |pending| <= capacity && (|pending| == |ops| || |pending| + 1 >= capacity)
  }

  /** With batch writes in the mix a drain still returns an unbroken run of the newest operations; at most
      one that would have fitted is missing. */
  lemma {:induction false} KeepsSuffix(events: seq<Event>, capacity: nat)
    requires capacity >= 1
    ensures Kept(PendingAfter(events, capacity), SinceDrain(events), capacity)
  {
    if events != [] {
      var front, last := events[..|events| - 1], events[|events| - 1];
      KeepsSuffix(front, capacity);
      EventKept(PendingAfter(front, capacity), SinceDrain(front), last, capacity);
    }
  }

  lemma EventKept(pending: seq<SyncOp>, ops: seq<SyncOp>, event: Event, capacity: nat)
    requires capacity >= 1 && Kept(pending, ops, capacity)
    ensures match event
            case Record(op) => Kept(Push(pending, op, capacity), ops + [op], capacity)
            case RecordBatched(op) => Kept(PushBatched(pending, op, capacity), ops + [op], capacity)
            case Drain => Kept([], [], capacity)
  {
    if !event.Drain? {
      assert pending + [event.op] == (ops + [event.op])[|ops| - |pending|..];
    }
  }

  /** Since the last drain a single write came when at least `capacity` - 1 operations were recorded. */
  predicate Filled(events: seq<Event>, capacity: nat) {
    events != [] &&
    var front := events[..|events| - 1];
    match events[|events| - 1]
    case Record(_) => Filled(front, capacity) || |SinceDrain(front)| + 1 >= capacity
    case RecordBatched(_) => Filled(front, capacity)
    case Drain => false
  }

  lemma {:induction false} PendingLength(events: seq<Event>, capacity: nat)
    requires capacity >= 1
    ensures var n := |SinceDrain(events)|;
      |PendingAfter(events, capacity)| ==
        if n < capacity then n else if Filled(events, capacity) then capacity else capacity - 1
    ensures Filled(events, capacity) ==> |SinceDrain(events)| >= capacity
  {
    if events != [] {
      PendingLength(events[..|events| - 1], capacity);
    }
  }

  /** WHEN A BATCH WRITE COSTS AN OPERATION.  A drain returns the newest operations, as many as fit, if and
      only if fewer than `capacity` were recorded since the drain before, or a single write came once
      `capacity` - 1 were. */
  lemma NewestExactly(events: seq<Event>, capacity: nat)
    requires capacity >= 1
    ensures PendingAfter(events, capacity) == Newest(SinceDrain(events), capacity)
       <==> |SinceDrain(events)| < capacity || Filled(events, capacity)
  {
    KeepsSuffix(events, capacity);
    PendingLength(events, capacity);
  }

  function Batch(ops: seq<SyncOp>): seq<Event> {
    if ops == [] then [] else Batch(ops[..|ops| - 1]) + [RecordBatched(ops[|ops| - 1])]
  }

  lemma OneMoreBatched(events: seq<Event>, op: SyncOp, capacity: nat)
    ensures SinceDrain(events + [RecordBatched(op)]) == SinceDrain(events) + [op]
    ensures Filled(events + [RecordBatched(op)], capacity) == Filled(events, capacity)
  {
    assert (events + [RecordBatched(op)])[..|events|] == events;
  }

  lemma {:induction false} BatchOnly(ops: seq<SyncOp>, capacity: nat)
    ensures SinceDrain(Batch(ops)) == ops && !Filled(Batch(ops), capacity)
  {
    if ops != [] {
      var front, last := ops[..|ops| - 1], RecordBatched(ops[|ops| - 1]);
      BatchOnly(front, capacity);
      OneMoreBatched(Batch(front), last.op, capacity);
      assert ops == front + [last.op];
    }
  }

  /** A run that loses one: a batch that would just fit comes back without its first operation. */
  lemma BatchLosesFirst(ops: seq<SyncOp>)
    requires ops != []
    ensures PendingAfter(Batch(ops), |ops|) == ops[1..]
  {
    BatchOnly(ops, |ops|);
    PendingLength(Batch(ops), |ops|);
    KeepsSuffix(Batch(ops), |ops|);
  }

  lemma DistinctSlots(i: nat, j: nat, capacity: nat)
    requires i < j < i + capacity
    ensures i % capacity != j % capacity
  {
    var a, b := i / capacity, j / capacity;
    assert i == a * capacity + i % capacity && j == b * capacity + j % capacity;
    if i % capacity == j % capacity {
      assert (b - a) * capacity == j - i;
      SmallMultiple(b - a, capacity);
    }
  }

  /** Moving the tail along drops the oldest operation. */
  lemma PushIsTail(pending: seq<SyncOp>, op: SyncOp, capacity: nat)
    requires 1 <= capacity && |pending| <= capacity
    ensures Push(pending, op, capacity) == (pending + [op])[if |pending| < capacity then 0 else 1..]
    ensures PushBatched(pending, op, capacity) == (pending + [op])[if |pending| + 1 < capacity then 0 else 1..]
  {
  }

  class SyncRing {
    const syncBuffer: array<Option<SyncOp>>
    ghost const exponent: nat
    var syncHead: nat
    var syncTail: nat

    ghost predicate Valid()
      reads this, syncBuffer
    {
      && syncBuffer.Length == Bits.Pow2(exponent)
      && syncTail <= syncHead <= syncTail + syncBuffer.Length
      && forall i :: syncTail <= i < syncHead ==> syncBuffer[i % syncBuffer.Length].Some?
    }

    /** The operations between tail and head, oldest first. */
    ghost function Pending(): (ops: seq<SyncOp>)
      requires Valid()
      reads this, syncBuffer
      ensures |ops| == syncHead - syncTail
    {
      seq(syncHead - syncTail, i requires 0 <= i < syncHead - syncTail reads this, syncBuffer requires Valid() =>
        syncBuffer[(syncTail + i) % syncBuffer.Length].value)
    }

    ghost function Capacity(): nat {
      syncBuffer.Length
    }

    constructor (k: nat)
      ensures Valid() && Capacity() == Bits.Pow2(k) && Pending() == [] && fresh(syncBuffer)
    {
      exponent := k;
      syncBuffer := new Option<SyncOp>[Bits.Pow2(k)](_ => None);
      syncHead, syncTail := 0, 0;
    }

    /** Writing the slot at the head touches no pending operation but, in a full buffer, the oldest. */
    twostate lemma SlotsKept(op: SyncOp)
      requires old(Valid()) && syncHead == old(syncHead) + 1
      requires old(syncTail) <= syncTail <= syncHead <= syncTail + syncBuffer.Length
      requires forall k :: 0 <= k < syncBuffer.Length ==>
        syncBuffer[k] == if k == old(syncHead) % syncBuffer.Length then Some(op) else old(syncBuffer[k])
      ensures Valid()
      ensures Pending() == (old(Pending()) + [op])[syncTail - old(syncTail)..]
    {
      forall i | syncTail <= i < old(syncHead)
        ensures syncBuffer[i % syncBuffer.Length] == old(syncBuffer[i % syncBuffer.Length])
      {
        DistinctSlots(i, old(syncHead), syncBuffer.Length);
      }
    }

    /** Fills the slot that the head names, by its mask, and advances the head. */
    method WriteHead(op: SyncOp)
      requires syncBuffer.Length == Bits.Pow2(exponent)
      modifies this`syncHead, syncBuffer
      ensures syncHead == old(syncHead) + 1
      ensures forall k :: 0 <= k < syncBuffer.Length ==>
        syncBuffer[k] == if k == old(syncHead) % syncBuffer.Length then Some(op) else old(syncBuffer[k])
    {
      var syncMask := syncBuffer.Length - 1;
      var head := syncHead;
      Bits.MaskIsRemainder(head, exponent);
      syncBuffer[Bits.And(head, syncMask)] := Some(op);
      syncHead := head + 1;
    }

    /** Stores at the head, advances the head, and moves the tail along when the buffer was full. */
    method RecordOp(op: SyncOp)
      requires Valid()
      modifies this, syncBuffer
      ensures Valid() && Pending() == Push(old(Pending()), op, Capacity())
      ensures Pending() == if |old(Pending())| < Capacity() then old(Pending()) + [op] else (old(Pending()) + [op])[1..]
    {
      ghost var pending := Pending();
      var head := syncHead;
      WriteHead(op);
      var tail := syncTail;
      if head - tail >= syncBuffer.Length {
        syncTail := tail + 1;
      }
      SlotsKept(op);
      PushIsTail(pending, op, syncBuffer.Length);
    }

    /** The same for a batch write, which compares after advancing the head. */
    method RecordBatchedOp(op: SyncOp)
      requires Valid()
      modifies this, syncBuffer
      ensures Valid() && Pending() == PushBatched(old(Pending()), op, Capacity())
      ensures Pending() == if |old(Pending())| < Capacity() - 1 then old(Pending()) + [op] else (old(Pending()) + [op])[1..]
    {
      ghost var pending := Pending();
      WriteHead(op);
      if syncHead - syncTail >= syncBuffer.Length {
        syncTail := syncTail + 1;
      }
      SlotsKept(op);
      PushIsTail(pending, op, syncBuffer.Length);
    }

    /** Returns what is pending and moves the tail up to the head. */
    method GetSyncBuffer() returns (ops: seq<SyncOp>)
      requires Valid()
      modifies this`syncTail
      ensures Valid() && ops == old(Pending()) && Pending() == []
    {
      ghost var pending := Pending();
      ops := [];
      var mask := syncBuffer.Length - 1;
      var tail := syncTail;
      for i := tail to syncHead
        invariant Valid() && syncTail == tail && Pending() == pending
        invariant ops == pending[..i - tail]
      {
        Bits.MaskIsRemainder(i, exponent);
        assert pending[i - tail] == syncBuffer[i % syncBuffer.Length].value;
        var slot := syncBuffer[Bits.And(i, mask)];
        if slot.Some? {
          ops := ops + [slot.value];
        }
      }
      assert pending[..syncHead - tail] == pending;
      syncTail := syncHead;
    }

    method Discard()
      requires Valid()
      modifies this`syncTail
      ensures Valid() && Pending() == []
    {
      syncTail := syncHead;
    }
  }
}
