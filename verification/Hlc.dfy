/** The hybrid logical clock: readings that never go back, and that respect causality across nodes. */
module Hlc {
  import opened Prelude
  import opened Decimal

  const COUNTER_MAX := 0xFFFF_FFFF_FFFF_FFFF

  /** A clock reading: physical nanoseconds, then a counter that separates equal times. */
  datatype Clock = Clock(ts: int64, counter: uint64)

  const START := Clock(0, 0)

  predicate Less(a: Clock, b: Clock) {
    a.ts < b.ts || (a.ts == b.ts && a.counter < b.counter)
  }

  predicate AtMost(a: Clock, b: Clock) {
    a == b || Less(a, b)
  }

  /** One tick: adopt the wall clock if it moved ahead, otherwise count; the counter wraps. */
  function Tick(c: Clock, physical: int64): Clock {
    if physical > c.ts then Clock(physical, 0)
    else Clock(c.ts, if c.counter == COUNTER_MAX then 0 else c.counter + 1)
  }

  /** The merge of a remote reading. */
  function Merge(c: Clock, remote: Clock): Clock {
    if remote.ts > c.ts then remote
    else if remote.ts == c.ts && remote.counter > c.counter then Clock(c.ts, remote.counter)
    else c
  }

  /** The text of a reading; the counter is reinterpreted as a signed integer before printing. */
  function Text(node: string, c: Clock): string {
    Format(node, Printed(c.ts), Printed(Signed(c.counter)))
  }

  function Signed(u: uint64): int64 {
    if u < 0x8000_0000_0000_0000 then u else u - 0x1_0000_0000_0000_0000
  }

  /** How a received text is read; nothing is learnt from a text that is not understood. */
  type Decoder = string -> Option<Clock>

  function Receive(c: Clock, decode: Decoder, remote: string): Clock {
    if remote == "" then c
    else match decode(remote)
      case None => c
      case Some(r) => Merge(c, r)
  }

  class HLC {
    const nodeID: string
    var lastTs: int64
    var counter: uint64
    var buf: string

    ghost function State(): Clock
      reads this
    {
      Clock(lastTs, counter)
    }

    constructor (nodeID: string)
      ensures this.nodeID == nodeID && State() == START
    {
      this.nodeID, lastTs, counter, buf := nodeID, 0, 0, [];
    }

    method Now(physical: int64) returns (stamp: string)
      modifies this
      ensures State() == Tick(old(State()), physical)
      ensures stamp == Text(nodeID, State())
      ensures if physical > old(lastTs) then lastTs == physical && counter == 0
        else lastTs == old(lastTs) && counter == (old(counter) + 1) % 0x1_0000_0000_0000_0000
      ensures stamp == nodeID + ":" + Printed(lastTs) + ":"
        + Printed(if counter >= 0x8000_0000_0000_0000 then counter - 0x1_0000_0000_0000_0000 else counter)
    {
      if physical > lastTs {
        lastTs := physical;
        counter := 0;
      } else {
        counter := if counter == COUNTER_MAX then 0 else counter + 1;
      }
      buf := nodeID;
      buf := buf + [':'];
      buf := AppendInt(buf, lastTs);
      buf := buf + [':'];
      buf := AppendInt(buf, Signed(counter));
      stamp := buf;
    }

    method Update(decode: Decoder, remote: string)
      modifies this
      ensures State() == Receive(old(State()), decode, remote)
      ensures buf == old(buf)
      ensures var read := if remote == "" then None else decode(remote);
        var ahead := read.Some? &&
          (read.value.ts > old(lastTs) || (read.value.ts == old(lastTs) && read.value.counter > old(counter)));
        if ahead then lastTs == read.value.ts && counter == read.value.counter
        else lastTs == old(lastTs) && counter == old(counter)
    {
      if remote == "" {
        return;
      }
      match decode(remote)
      case None =>
      case Some(r) =>
        if r.ts > lastTs {
          lastTs := r.ts;
          counter := r.counter;
        } else if r.ts == lastTs && r.counter > counter {
          counter := r.counter;
        }
    }
  }

  /** A reading's text names its node and value, whatever the node is called. */
  lemma TextInjective(n1: string, a: Clock, n2: string, b: Clock)
    requires Text(n1, a) == Text(n2, b)
    ensures n1 == n2 && a == b
  {
    PrintedParse(a.ts);
    PrintedParse(b.ts);
    PrintedParse(Signed(a.counter));
    PrintedParse(Signed(b.counter));
    FormatSplit(n1, Printed(a.ts), Printed(Signed(a.counter)));
    FormatSplit(n2, Printed(b.ts), Printed(Signed(b.counter)));
    PrintedInjective(a.ts, b.ts);
    PrintedInjective(Signed(a.counter), Signed(b.counter));
  }

  /** A tick moves the clock strictly forward unless the wall clock stands still or runs backwards
      while the 64-bit counter is exhausted. */
  lemma TickForward(c: Clock, physical: int64)
    ensures Less(c, Tick(c, physical)) <==> (physical > c.ts || c.counter < COUNTER_MAX)
  {
  }

  /** The merge is the later of the two readings. */
  lemma MergeIsJoin(c: Clock, remote: Clock)
    ensures AtMost(c, Merge(c, remote)) && AtMost(remote, Merge(c, remote))
    ensures Merge(c, remote) == c || Merge(c, remote) == remote
  {
  }

  // ---------------------------------------------------------------- runs of many nodes

  /** A node reads its clock, or receives the stamp that event number `from` produced. */
  datatype Event =
    | Stamp(node: string, physical: int64)
    | Deliver(node: string, from: nat)

  /** What event `i` delivers, if anything, is a stamp that was produced before. */
  ghost predicate SentBefore(events: seq<Event>, i: nat)
    requires i < |events|
  {
    events[i].Deliver? ==> events[i].from < i && events[events[i].from].Stamp?
  }

  ghost predicate Run(events: seq<Event>) {
    forall i {:trigger SentBefore(events, i)} :: 0 <= i < |events| ==> SentBefore(events, i)
  }

  /** The clock of `node` after the first `n` events. */
  ghost function ClockOf(decode: Decoder, events: seq<Event>, node: string, n: nat): Clock
    requires Run(events) && n <= |events|
    decreases n, 0
  {
    if n == 0 then START
    else
      var before := ClockOf(decode, events, node, n - 1);
      var e := events[n - 1];
      assert SentBefore(events, n - 1);
      if e.node != node then before
      else match e
        case Stamp(_, physical) => Tick(before, physical)
        case Deliver(_, from) => Receive(before, decode, StampText(decode, events, from))
  }

  /** The clock of the node of event `i` just after it. */
  ghost function After(decode: Decoder, events: seq<Event>, i: nat): Clock
    requires Run(events) && i < |events|
    decreases i + 1, 1
  {
    ClockOf(decode, events, events[i].node, i + 1)
  }

  ghost function StampText(decode: Decoder, events: seq<Event>, i: nat): string
    requires Run(events) && i < |events|
    decreases i + 1, 2
  {
    Text(events[i].node, After(decode, events, i))
  }

  /** A decoder may fail to understand a stamp but never mistakes it for another reading. */
  ghost predicate Honest(decode: Decoder) {
    forall node, c :: decode(Text(node, c)) == None || decode(Text(node, c)) == Some(c)
  }

  /** The decoder reads back every stamp of the run. */
  ghost predicate Understood(decode: Decoder, events: seq<Event>)
    requires Run(events)
  {
    forall i :: 0 <= i < |events| && events[i].Stamp? ==>
      decode(StampText(decode, events, i)) == Some(After(decode, events, i))
  }

  /** Every receipt lifts the receiver to at least the reading it received. */
  ghost predicate Lifts(decode: Decoder, events: seq<Event>)
    requires Run(events)
  {
    forall j :: 0 <= j < |events| && events[j].Deliver? ==>
      assert SentBefore(events, j);
      AtMost(After(decode, events, events[j].from), After(decode, events, j))
  }

  /** Event `i` comes before `j` on the same node, or is the stamp that `j` received. */
  ghost predicate Step(events: seq<Event>, i: nat, j: nat) {
    && i < j < |events|
    && (events[i].node == events[j].node || (events[j].Deliver? && events[j].from == i))
  }

  ghost predicate Chain(events: seq<Event>, path: seq<nat>) {
    forall a :: 0 <= a < |path| - 1 ==> Step(events, path[a], path[a + 1])
  }

  /** Lamport's happens-before: a chain of steps leads from `i` to `j`. */
  ghost predicate HappensBefore(events: seq<Event>, i: nat, j: nat) {
    exists path: seq<nat> :: |path| >= 2 && path[0] == i && path[|path| - 1] == j && Chain(events, path)
  }

  /** Whatever the wall clocks do, a counter never exceeds the number of events so far, and times are not
      negative. */
  lemma {:induction false} Bounded(decode: Decoder, events: seq<Event>, node: string, n: nat)
    requires Run(events) && Honest(decode) && n <= |events| <= COUNTER_MAX
    ensures ClockOf(decode, events, node, n).counter <= n && ClockOf(decode, events, node, n).ts >= 0
    decreases n
  {
    if n > 0 {
      Bounded(decode, events, node, n - 1);
      var e := events[n - 1];
      if e.Deliver? {
        assert SentBefore(events, n - 1);
        Bounded(decode, events, events[e.from].node, e.from + 1);
        var sent := After(decode, events, e.from);
        assert decode(Text(events[e.from].node, sent)) == None || decode(Text(events[e.from].node, sent)) == Some(sent);
      }
    }
  }

  lemma AtMostThenLess(a: Clock, b: Clock, c: Clock)
    requires AtMost(a, b)
    ensures AtMost(b, c) ==> AtMost(a, c)
    ensures Less(b, c) ==> Less(a, c)
  {
  }

  lemma StampForward(decode: Decoder, events: seq<Event>, j: nat)
    requires Run(events) && Honest(decode) && |events| <= COUNTER_MAX
    requires j < |events| && events[j].Stamp?
    ensures Less(ClockOf(decode, events, events[j].node, j), After(decode, events, j))
  {
    Bounded(decode, events, events[j].node, j);
    TickForward(ClockOf(decode, events, events[j].node, j), events[j].physical);
  }

  lemma ReceiptForward(decode: Decoder, events: seq<Event>, j: nat)
    requires Run(events) && j < |events| && events[j].Deliver?
    ensures AtMost(ClockOf(decode, events, events[j].node, j), After(decode, events, j))
  {
  }

  /** The clock of one node never goes back. */
  lemma {:induction false} Monotone(decode: Decoder, events: seq<Event>, node: string, m: nat, n: nat)
    requires Run(events) && Honest(decode) && m <= n <= |events| <= COUNTER_MAX
    ensures AtMost(ClockOf(decode, events, node, m), ClockOf(decode, events, node, n))
    decreases n
  {
    if m < n {
      Monotone(decode, events, node, m, n - 1);
      if events[n - 1].node == node {
        if events[n - 1].Stamp? {
          StampForward(decode, events, n - 1);
        } else {
          ReceiptForward(decode, events, n - 1);
        }
      }
      AtMostThenLess(ClockOf(decode, events, node, m), ClockOf(decode, events, node, n - 1),
                     ClockOf(decode, events, node, n));
    }
  }

  /** On one node readings never go back, and a stamp exceeds everything before it. */
  lemma LaterOnNode(decode: Decoder, events: seq<Event>, i: nat, j: nat)
    requires Run(events) && Honest(decode) && |events| <= COUNTER_MAX
    requires i < j < |events| && events[i].node == events[j].node
    ensures AtMost(After(decode, events, i), After(decode, events, j))
    ensures events[j].Stamp? ==> Less(After(decode, events, i), After(decode, events, j))
  {
    var node := events[j].node;
    var between := ClockOf(decode, events, node, j);
    Monotone(decode, events, node, i + 1, j);
    if events[j].Stamp? {
      StampForward(decode, events, j);
    } else {
      ReceiptForward(decode, events, j);
    }
    AtMostThenLess(After(decode, events, i), between, After(decode, events, j));
  }

  lemma StepMonotone(decode: Decoder, events: seq<Event>, i: nat, j: nat)
    requires Run(events) && Honest(decode) && |events| <= COUNTER_MAX
    requires Lifts(decode, events) && Step(events, i, j)
    ensures AtMost(After(decode, events, i), After(decode, events, j))
    ensures events[j].Stamp? ==> Less(After(decode, events, i), After(decode, events, j))
  {
    if events[i].node == events[j].node {
      LaterOnNode(decode, events, i, j);
    }
  }

  lemma {:induction false} ChainMonotone(decode: Decoder, events: seq<Event>, path: seq<nat>)
    requires Run(events) && Honest(decode) && |events| <= COUNTER_MAX && Lifts(decode, events)
    requires |path| >= 2 && Chain(events, path)
    ensures path[0] < path[|path| - 1] < |events|
    ensures AtMost(After(decode, events, path[0]), After(decode, events, path[|path| - 1]))
    ensures events[path[|path| - 1]].Stamp? ==>
      Less(After(decode, events, path[0]), After(decode, events, path[|path| - 1]))
  {
    var n := |path|;
    assert Step(events, path[n - 2], path[n - 2 + 1]);
    StepMonotone(decode, events, path[n - 2], path[n - 1]);
    if n > 2 {
      ChainMonotone(decode, events, path[..n - 1]);
      AtMostThenLess(After(decode, events, path[0]), After(decode, events, path[n - 2]), After(decode, events, path[n - 1]));
    }
  }

  /** Whatever happens before an event has a reading no later, and a strictly smaller one if the event is a
      stamp. */
  ghost predicate Ordered(decode: Decoder, events: seq<Event>)
    requires Run(events)
  {
    forall i, j :: 0 <= i < j < |events| && HappensBefore(events, i, j) ==>
      && AtMost(After(decode, events, i), After(decode, events, j))
      && (events[j].Stamp? ==> Less(After(decode, events, i), After(decode, events, j)))
  }

  /** Before every receipt the stamp is one the decoder understands, or the receiver's clock has passed it
      already. */
  ghost predicate Guarded(decode: Decoder, events: seq<Event>)
    requires Run(events)
  {
    forall j :: 0 <= j < |events| && events[j].Deliver? ==>
      assert SentBefore(events, j);
      || decode(StampText(decode, events, events[j].from)).Some?
      || AtMost(After(decode, events, events[j].from), ClockOf(decode, events, events[j].node, j))
  }

  /** A receipt lifts the receiver to the sender's reading if and only if it is guarded. */
  lemma LiftExactly(decode: Decoder, events: seq<Event>, j: nat)
    requires Run(events) && Honest(decode) && j < |events| && events[j].Deliver?
    ensures SentBefore(events, j)
    ensures AtMost(After(decode, events, events[j].from), After(decode, events, j)) <==>
      (|| decode(StampText(decode, events, events[j].from)).Some?
       || AtMost(After(decode, events, events[j].from), ClockOf(decode, events, events[j].node, j)))
  {
    assert SentBefore(events, j);
    var from, before := events[j].from, ClockOf(decode, events, events[j].node, j);
    var sent := After(decode, events, from);
    MergeIsJoin(before, sent);
    FormatNonEmpty(events[from].node, Printed(sent.ts), Printed(Signed(sent.counter)));
    var text := Text(events[from].node, sent);
    assert decode(text) == None || decode(text) == Some(sent);
  }

  lemma LiftsExactly(decode: Decoder, events: seq<Event>)
    requires Run(events) && Honest(decode)
    ensures Lifts(decode, events) <==> Guarded(decode, events)
  {
    forall j | 0 <= j < |events| && events[j].Deliver?
      ensures SentBefore(events, j)
      ensures AtMost(After(decode, events, events[j].from), After(decode, events, j)) <==>
        (|| decode(StampText(decode, events, events[j].from)).Some?
         || AtMost(After(decode, events, events[j].from), ClockOf(decode, events, events[j].node, j)))
    {
      LiftExactly(decode, events, j);
    }
  }

  /** EXACTLY WHEN TIME RESPECTS CAUSALITY: in a run of any nodes with any wall clocks, happens-before orders
      the readings if and only if at every receipt the stamp is understood or the receiver is already past
      it. */
  lemma CausalityExactly(decode: Decoder, events: seq<Event>)
    requires Run(events) && Honest(decode) && |events| <= COUNTER_MAX
    ensures Ordered(decode, events) <==> Guarded(decode, events)
  {
    LiftsExactly(decode, events);
    OrderedExactly(decode, events);
  }

  lemma OrderedExactly(decode: Decoder, events: seq<Event>)
    requires Run(events) && Honest(decode) && |events| <= COUNTER_MAX
    ensures Ordered(decode, events) <==> Lifts(decode, events)
  {
    if Lifts(decode, events) {
      forall i, j | 0 <= i < j < |events| && HappensBefore(events, i, j)
        ensures AtMost(After(decode, events, i), After(decode, events, j))
        ensures events[j].Stamp? ==> Less(After(decode, events, i), After(decode, events, j))
      {
        var path: seq<nat> :| |path| >= 2 && path[0] == i && path[|path| - 1] == j && Chain(events, path);
        ChainMonotone(decode, events, path);
      }
    }
    if Ordered(decode, events) {
      forall j | 0 <= j < |events| && events[j].Deliver?
        ensures SentBefore(events, j) && AtMost(After(decode, events, events[j].from), After(decode, events, j))
      {
        assert SentBefore(events, j);
        var path: seq<nat> := [events[j].from, j];
        assert Chain(events, path);
        assert HappensBefore(events, events[j].from, j);
      }
    }
  }

  lemma UnderstoodLifts(decode: Decoder, events: seq<Event>)
    requires Run(events) && Understood(decode, events)
    ensures Lifts(decode, events)
  {
    forall j | 0 <= j < |events| && events[j].Deliver?
      ensures SentBefore(events, j) && AtMost(After(decode, events, events[j].from), After(decode, events, j))
    {
      assert SentBefore(events, j);
      var from := events[j].from;
      var sent := After(decode, events, from);
      MergeIsJoin(ClockOf(decode, events, events[j].node, j), sent);
      FormatNonEmpty(events[from].node, Printed(sent.ts), Printed(Signed(sent.counter)));
    }
  }

  lemma FormatNonEmpty(node: string, time: string, counter: string)
    ensures Format(node, time, counter) != ""
  {
  }

  // ---------------------------------------------------------------- the documented format

  /** The documented reader: node, time and counter, split from the right, each number in its range. */
  function ReadStamp(text: string): Option<Clock> {
    match Parse(text)
    case None => None
    case Some(parts) =>
      if INT64_MIN <= parts.1 < 0x8000_0000_0000_0000 && 0 <= parts.2 <= COUNTER_MAX then Some(Clock(parts.1, parts.2))
      else None
  }

  /** It reads every stamp back but those with the least time or with a counter from 2^63 on, which are
      printed with a sign; and it never mistakes one for another. */
  lemma StampReads(node: string, c: Clock)
    ensures ReadStamp(Text(node, c)) ==
      if c.ts != INT64_MIN && c.counter < 0x8000_0000_0000_0000 then Some(c) else None
  {
    var time, counter := Printed(c.ts), Printed(Signed(c.counter));
    PrintedParse(c.ts);
    PrintedParse(Signed(c.counter));
    FormatSplit(node, time, counter);
    PrintedReads(c.ts);
    PrintedReads(Signed(c.counter));
  }

  lemma PrintedReads(i: int64)
    ensures ParseInt(Printed(i)) == if i == INT64_MIN then None else Some(i)
  {
    ItoaParse(i);
    assert "-"[1..] == "";
  }

  /** In a run of fewer than 2^63 events it understands every stamp. */
  lemma ReadStampUnderstands(events: seq<Event>)
    requires Run(events) && |events| < 0x8000_0000_0000_0000
    ensures Honest(ReadStamp) && Understood(ReadStamp, events)
  {
    forall node, c
      ensures ReadStamp(Text(node, c)) == None || ReadStamp(Text(node, c)) == Some(c)
    {
      StampReads(node, c);
    }
    forall i | 0 <= i < |events| && events[i].Stamp?
      ensures ReadStamp(StampText(ReadStamp, events, i)) == Some(After(ReadStamp, events, i))
    {
      Bounded(ReadStamp, events, events[i].node, i + 1);
      StampReads(events[i].node, After(ReadStamp, events, i));
    }
  }

  /** CAUSALITY.  Whatever the wall clocks do, in every run of fewer than 2^63 events a stamp that another
      event happens before is strictly larger than every reading on the way to it. */
  lemma Causality(events: seq<Event>, i: nat, j: nat)
    requires Run(events) && |events| < 0x8000_0000_0000_0000
    requires HappensBefore(events, i, j)
    ensures i < j < |events|
    ensures AtMost(After(ReadStamp, events, i), After(ReadStamp, events, j))
    ensures events[j].Stamp? ==> Less(After(ReadStamp, events, i), After(ReadStamp, events, j))
  {
    ReadStampUnderstands(events);
    UnderstoodLifts(ReadStamp, events);
    var path: seq<nat> :| |path| >= 2 && path[0] == i && path[|path| - 1] == j && Chain(events, path);
    ChainMonotone(ReadStamp, events, path);
  }

  /** No two readings of one run carry the same text, whatever is understood of them. */
  lemma StampsDistinct(decode: Decoder, events: seq<Event>, i: nat, j: nat)
    requires Run(events) && Honest(decode) && |events| <= COUNTER_MAX
    requires i < j < |events| && events[i].Stamp? && events[j].Stamp?
    ensures StampText(decode, events, i) != StampText(decode, events, j)
  {
    if StampText(decode, events, i) == StampText(decode, events, j) {
      TextInjective(events[i].node, After(decode, events, i), events[j].node, After(decode, events, j));
      LaterOnNode(decode, events, i, j);
    }
  }

  lemma {:induction false} ClockOfPrefix(decode: Decoder, events: seq<Event>, all: seq<Event>, node: string, n: nat)
    requires Run(events) && Run(all) && events <= all && n <= |events|
    ensures ClockOf(decode, all, node, n) == ClockOf(decode, events, node, n)
    decreases n, 0
  {
    if n > 0 {
      ClockOfPrefix(decode, events, all, node, n - 1);
      var e := events[n - 1];
      assert all[n - 1] == e;
      if e.Deliver? && e.node == node {
        assert SentBefore(events, n - 1) && SentBefore(all, n - 1);
        StampOfPrefix(decode, events, all, e.from);
      }
    }
  }

  lemma StampOfPrefix(decode: Decoder, events: seq<Event>, all: seq<Event>, i: nat)
    requires Run(events) && Run(all) && events <= all && i < |events|
    ensures StampText(decode, all, i) == StampText(decode, events, i)
    decreases i + 1, 2
  {
    AfterOfPrefix(decode, events, all, i);
    assert all[i] == events[i];
  }

  lemma AfterOfPrefix(decode: Decoder, events: seq<Event>, all: seq<Event>, i: nat)
    requires Run(events) && Run(all) && events <= all && i < |events|
    ensures After(decode, all, i) == After(decode, events, i)
    decreases i + 1, 1
  {
    assert all[i] == events[i];
    ClockOfPrefix(decode, events, all, events[i].node, i + 1);
  }

  lemma {:induction false} ClockOfStranger(decode: Decoder, events: seq<Event>, node: string, n: nat)
    requires Run(events) && n <= |events| && forall i :: 0 <= i < |events| ==> events[i].node != node
    ensures ClockOf(decode, events, node, n) == START
    decreases n
  {
    if n > 0 {
      ClockOfStranger(decode, events, node, n - 1);
    }
  }

  /** `all` continues `events`: a node receives the stamp of event `i` and then makes one of its own. */
  ghost predicate Continues(events: seq<Event>, all: seq<Event>, node: string, i: nat) {
    && |all| == |events| + 2
    && events <= all
    && all[|events|] == Deliver(node, i) && all[|events| + 1] == Stamp(node, 0)
  }

  lemma Continued(events: seq<Event>, node: string, i: nat) returns (all: seq<Event>)
    requires Run(events) && i < |events| && events[i].Stamp?
    ensures Continues(events, all, node, i) && Run(all)
  {
    all := events + [Deliver(node, i), Stamp(node, 0)];
    forall k | 0 <= k < |all|
      ensures SentBefore(all, k)
    {
      assert all[i] == events[i];
      if k < |events| {
        assert SentBefore(events, k) && all[k] == events[k];
        assert events[k].Deliver? ==> all[events[k].from] == events[events[k].from];
      }
    }
  }

  lemma NewName(events: seq<Event>) returns (node: string)
    ensures forall k :: 0 <= k < |events| ==> events[k].node != node
  {
    var names := set k | 0 <= k < |events| :: events[k].node;
    node := LongerThanAll(names);
    assert forall k :: 0 <= k < |events| ==> events[k].node in names;
  }

  /** A node that was silent so far learns nothing from a stamp it does not understand. */
  lemma StrangerMisses(decode: Decoder, events: seq<Event>, all: seq<Event>, node: string, i: nat)
    requires Run(events) && Run(all) && Continues(events, all, node, i)
    requires i < |events| && decode(StampText(decode, events, i)).None?
    requires forall k :: 0 <= k < |events| ==> events[k].node != node
    ensures ClockOf(decode, all, node, |events| + 1) == START
  {
    var n := |events|;
    assert all[i] == events[i];
    ClockOfPrefix(decode, events, all, events[i].node, i + 1);
    assert StampText(decode, all, i) == StampText(decode, events, i);
    ClockOfPrefix(decode, events, all, node, n);
    ClockOfStranger(decode, events, node, n);
  }

  /** One stamp that is not understood breaks it: a node that was silent so far receives that stamp and then
      makes one of its own, which is not larger. */
  lemma UnreadStampBreaks(decode: Decoder, events: seq<Event>, i: nat) returns (all: seq<Event>, node: string)
    requires Run(events) && Honest(decode) && |events| + 2 <= COUNTER_MAX
    requires i < |events| && events[i].Stamp? && decode(StampText(decode, events, i)).None?
    ensures Continues(events, all, node, i) && Run(all) && !Ordered(decode, all)
  {
    node := NewName(events);
    all := Continued(events, node, i);
    StrangerMisses(decode, events, all, node, i);
    NotOrdered(decode, all, node, i, |events|);
  }

  /** A node whose clock has not moved after a receipt is not ordered after the sender. */
  lemma NotOrdered(decode: Decoder, events: seq<Event>, node: string, i: nat, n: nat)
    requires Run(events) && Honest(decode) && |events| <= COUNTER_MAX
    requires i < n && n + 2 == |events| && events[i].Stamp?
    requires events[n] == Deliver(node, i) && events[n + 1] == Stamp(node, 0)
    requires ClockOf(decode, events, node, n + 1) == START
    ensures !Ordered(decode, events)
  {
    FirstStamp(decode, events, n + 1);
    StampNotFirst(decode, events, i);
    TwoSteps(events, i, n);
  }

  lemma FirstStamp(decode: Decoder, events: seq<Event>, j: nat)
    requires Run(events) && j < |events| && events[j] == Stamp(events[j].node, 0)
    requires ClockOf(decode, events, events[j].node, j) == START
    ensures After(decode, events, j) == Clock(0, 1)
  {
  }

  lemma StampNotFirst(decode: Decoder, events: seq<Event>, i: nat)
    requires Run(events) && Honest(decode) && |events| <= COUNTER_MAX && i < |events| && events[i].Stamp?
    ensures !Less(After(decode, events, i), Clock(0, 1))
  {
    Bounded(decode, events, events[i].node, i);
    StampForward(decode, events, i);
  }

  lemma TwoSteps(events: seq<Event>, i: nat, n: nat)
    requires Step(events, i, n) && Step(events, n, n + 1)
    ensures HappensBefore(events, i, n + 1)
  {
    var path: seq<nat> := [i, n, n + 1];
    assert Chain(events, path);
  }

  /** Reading stamps back is what causality rests on: with a decoder that understands nothing, a node
      may answer a stamp with a smaller one. */
  lemma CausalityNeedsDecoding()
    ensures var decode: Decoder := _ => None;
      var events := [Stamp("a", 10), Deliver("b", 0), Stamp("b", 5)];
      && Run(events) && HappensBefore(events, 0, 2)
      && Less(After(decode, events, 2), After(decode, events, 0))
  {
    var decode: Decoder := _ => None;
    var events := [Stamp("a", 10), Deliver("b", 0), Stamp("b", 5)];
    assert Run(events);
    assert ClockOf(decode, events, "a", 0) == START;
    assert After(decode, events, 0) == Clock(10, 0);
    assert ClockOf(decode, events, "b", 0) == START;
    assert ClockOf(decode, events, "b", 1) == START;
    assert ClockOf(decode, events, "b", 2) == START;
    assert After(decode, events, 2) == Clock(5, 0);
    var path: seq<nat> := [0, 1, 2];
    assert Step(events, 0, 1) && Step(events, 1, 2);
    assert Chain(events, path);
  }
}
