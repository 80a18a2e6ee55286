/**
  Correlating acknowledgements with the calls that wait for them.  Calls register a recycled one-place
  channel under their operation id; acknowledgements arrive concurrently, look the channel up and drop
  themselves in.
 */
module Acks {
  import opened Prelude

  const MAX_PENDING := 65536

  datatype Ack = Ack(opId: string, peerId: string, success: bool)

  type Channel = nat

  /** Where a call stands.  `Admitted` and `Rejecting` have raised the counter; a registered call owns a
      channel until it hands it back. */
  datatype Call =
    | Rejecting
    | Admitted
    | Waiting(ch: Channel)
    | Received(ch: Channel, ack: Ack)
    | GaveUp(ch: Channel)
    | Unregistered(ch: Channel, result: Option<Ack>)
    | Done(result: Option<Ack>)
  {
    predicate Owns(c: Channel) {
      (Waiting? || Received? || GaveUp? || Unregistered?) && ch == c
    }

    /** Does the call take up one of the pending places? */
    predicate Counted() {
      Admitted? || Waiting? || Received? || GaveUp?
    }
  }

  datatype State = State(
    pendingAcks: map<string, Channel>,
    pendingAckCount: int,
    content: map<Channel, Ack>,
    pool: set<Channel>,
    calls: map<string, Call>,
    inHand: multiset<(Ack, Channel)>)

  const INITIAL := State(map[], 0, map[], {}, map[], multiset{})

  datatype Step =
    | Begin(op: string)
    | Reject(op: string)
    | Register(op: string, ch: Channel)
    | SendFailed(op: string)
    | Take(op: string)
    | TimeOut(op: string)
    | Unregister(op: string)
    | Recycle(op: string)
    | Look(ack: Ack)
    | Deliver(ack: Ack, ch: Channel)

  /** Is the channel owned by a call or in the pool? */
  ghost predicate InUse(s: State, ch: Channel) {
    ch in s.pool || exists op :: op in s.calls && s.calls[op].Owns(ch)
  }

  ghost predicate Enabled(s: State, step: Step) {
    match step
    case Begin(op) => op != "" && op !in s.calls
    case Reject(op) => op in s.calls && s.calls[op].Rejecting?
    case Register(op, ch) =>
      // a channel from the pool, or a new one
      op in s.calls && s.calls[op].Admitted? && (ch in s.pool || (!InUse(s, ch) && ch !in s.content))
    case SendFailed(op) => op in s.calls && s.calls[op].Waiting?
    case Take(op) => op in s.calls && s.calls[op].Waiting? && s.calls[op].ch in s.content
    case TimeOut(op) => op in s.calls && s.calls[op].Waiting?
    case Unregister(op) => op in s.calls && (s.calls[op].Received? || s.calls[op].GaveUp?)
    case Recycle(op) => op in s.calls && s.calls[op].Unregistered?
    case Look(ack) => ack.opId in s.pendingAcks
    case Deliver(ack, ch) => (ack, ch) in s.inHand
  }

  function Next(s: State, step: Step): State
    requires Enabled(s, step)
  {
    match step
    case Begin(op) =>
      s.(pendingAckCount := s.pendingAckCount + 1,
         calls := s.calls[op := if s.pendingAckCount + 1 > MAX_PENDING then Rejecting else Admitted])
    case Reject(op) =>
      s.(pendingAckCount := s.pendingAckCount - 1, calls := s.calls[op := Done(None)])
    case Register(op, ch) =>
      s.(pool := s.pool - {ch}, pendingAcks := s.pendingAcks[op := ch], calls := s.calls[op := Waiting(ch)])
    case SendFailed(op) =>
      s.(pendingAcks := WithoutKey(s.pendingAcks, op), pendingAckCount := s.pendingAckCount - 1,
         calls := s.calls[op := Unregistered(s.calls[op].ch, None)])
    case Take(op) =>
      s.(content := WithoutKey(s.content, s.calls[op].ch),
         calls := s.calls[op := Received(s.calls[op].ch, s.content[s.calls[op].ch])])
    case TimeOut(op) =>
      s.(calls := s.calls[op := GaveUp(s.calls[op].ch)])
    case Unregister(op) =>
      var result := if s.calls[op].Received? then Some(s.calls[op].ack) else None;
      s.(pendingAcks := WithoutKey(s.pendingAcks, op), pendingAckCount := s.pendingAckCount - 1,
         calls := s.calls[op := Unregistered(s.calls[op].ch, result)])
    case Recycle(op) =>
      s.(content := WithoutKey(s.content, s.calls[op].ch), pool := s.pool + {s.calls[op].ch},
         calls := s.calls[op := Done(s.calls[op].result)])
    case Look(ack) =>
      s.(inHand := s.inHand + multiset{(ack, s.pendingAcks[ack.opId])})
    case Deliver(ack, ch) =>
      // a full channel drops the acknowledgement and its registration
      var inHand := s.inHand - multiset{(ack, ch)};
      if ch in s.content then s.(inHand := inHand, pendingAcks := WithoutKey(s.pendingAcks, ack.opId))
      else s.(inHand := inHand, content := s.content[ch := ack])
  }

  // ---------------------------------------------------------------- what every run keeps

  function Counted(s: State): set<string> {
    set op | op in s.calls && s.calls[op].Counted()
  }

  function Rejected(s: State): set<string> {
    set op | op in s.calls && s.calls[op].Rejecting?
  }

  /** Whatever lies in a channel belongs to a call that owns the channel and has the right id. */
  ghost predicate Correlated(s: State) {
    forall ch :: ch in s.content ==>
      s.content[ch].opId in s.calls && s.calls[s.content[ch].opId].Owns(ch)
  }

  ghost predicate OneOwner(s: State) {
    forall a, b, ch :: a in s.calls && b in s.calls && s.calls[a].Owns(ch) && s.calls[b].Owns(ch) ==> a == b
  }

  ghost predicate PoolUnowned(s: State) {
    forall op, ch :: op in s.calls && s.calls[op].Owns(ch) ==> ch !in s.pool
  }

  ghost predicate RegisteredOwn(s: State) {
    forall op :: op in s.pendingAcks ==>
      op in s.calls && !s.calls[op].Unregistered? && s.calls[op].Owns(s.pendingAcks[op])
  }

  ghost predicate ResultsMatch(s: State) {
    forall op :: op in s.calls ==>
      match s.calls[op]
      case Received(_, ack) => ack.opId == op
      case Unregistered(_, Some(ack)) => ack.opId == op
      case Done(Some(ack)) => ack.opId == op
      case _ => true
  }

  ghost predicate CountsMatch(s: State) {
    s.pendingAckCount == |Counted(s)| + |Rejected(s)| && |Counted(s)| <= MAX_PENDING
  }

  /** An acknowledgement in hand was looked up for a call that had registered. */
  ghost predicate InHandKnown(s: State) {
    forall ack, ch :: (ack, ch) in s.inHand ==>
      ack.opId in s.calls && !s.calls[ack.opId].Rejecting? && !s.calls[ack.opId].Admitted?
  }

  /** What holds whatever the handlers do. */
  ghost predicate Bookkeeping(s: State) {
    OneOwner(s) && PoolUnowned(s) && RegisteredOwn(s) && InHandKnown(s) && CountsMatch(s)
  }

  ghost predicate Invariant(s: State) {
    Bookkeeping(s) && Correlated(s) && ResultsMatch(s)
  }

  /** An acknowledgement is dropped into the channel it looked up before that channel is handed back:
      what taking lookup and drop as one step amounts to. */
  ghost predicate Timely(s: State, step: Step) {
    step.Deliver? ==> step.ack.opId in s.calls && s.calls[step.ack.opId].Owns(step.ch)
  }

  lemma SizeWithout(s: set<string>, x: string)
    ensures |s| == |s - {x}| + if x in s then 1 else 0
  {
  }

  lemma CountedKept(s: State, t: State, op: string, call: Call)
    requires t.calls == s.calls[op := call]
    ensures |Counted(t)| - (if call.Counted() then 1 else 0)
         == |Counted(s)| - (if op in s.calls && s.calls[op].Counted() then 1 else 0)
  {
    SizeWithout(Counted(s), op);
    SizeWithout(Counted(t), op);
    assert Counted(t) - {op} == Counted(s) - {op};
  }

  lemma RejectedKept(s: State, t: State, op: string, call: Call)
    requires t.calls == s.calls[op := call]
    ensures |Rejected(t)| - (if call.Rejecting? then 1 else 0)
         == |Rejected(s)| - (if op in s.calls && s.calls[op].Rejecting? then 1 else 0)
  {
    SizeWithout(Rejected(s), op);
    SizeWithout(Rejected(t), op);
    assert Rejected(t) - {op} == Rejected(s) - {op};
  }

  /** The call a step moves, if any. */
  function Mover(step: Step): Option<string> {
    match step
    case Look(_) => None
    case Deliver(_, _) => None
    case _ => Some(step.op)
  }

  lemma CountsKept(s: State, step: Step)
    requires CountsMatch(s) && Enabled(s, step)
    ensures CountsMatch(Next(s, step))
  {
    var t := Next(s, step);
    match Mover(step)
    case Some(op) =>
      CountedKept(s, t, op, t.calls[op]);
      RejectedKept(s, t, op, t.calls[op]);
    case None =>
      assert t.calls == s.calls;
  }

  lemma OwnersKept(s: State, step: Step)
    requires OneOwner(s) && PoolUnowned(s) && Enabled(s, step)
    ensures OneOwner(Next(s, step)) && PoolUnowned(Next(s, step))
  {
  }

  lemma CorrelatedKept(s: State, step: Step)
    requires Correlated(s) && OneOwner(s) && PoolUnowned(s) && Enabled(s, step) && Timely(s, step)
    ensures Correlated(Next(s, step))
  {
  }

  lemma RegisteredKept(s: State, step: Step)
    requires RegisteredOwn(s) && Enabled(s, step)
    ensures RegisteredOwn(Next(s, step))
  {
  }

  lemma InHandKept(s: State, step: Step)
    requires InHandKnown(s) && RegisteredOwn(s) && Enabled(s, step)
    ensures InHandKnown(Next(s, step))
  {
    forall op | op in s.calls && !s.calls[op].Rejecting? && !s.calls[op].Admitted?
      ensures op in Next(s, step).calls && !Next(s, step).calls[op].Rejecting? && !Next(s, step).calls[op].Admitted?
    {
      RegisteredOnwards(s, step, op);
    }
  }

  /** A call that has come as far as registering never falls back. */
  lemma RegisteredOnwards(s: State, step: Step, op: string)
    requires Enabled(s, step) && op in s.calls && !s.calls[op].Rejecting? && !s.calls[op].Admitted?
    ensures op in Next(s, step).calls && !Next(s, step).calls[op].Rejecting? && !Next(s, step).calls[op].Admitted?
  {
  }

  lemma BookkeepingKept(s: State, step: Step)
    requires Bookkeeping(s) && Enabled(s, step)
    ensures Bookkeeping(Next(s, step))
  {
    CountsKept(s, step);
    OwnersKept(s, step);
    RegisteredKept(s, step);
    InHandKept(s, step);
  }

  lemma ResultsKept(s: State, step: Step)
    requires Correlated(s) && OneOwner(s) && ResultsMatch(s) && Enabled(s, step)
    ensures ResultsMatch(Next(s, step))
  {
  }

  lemma InvariantKept(s: State, step: Step)
    requires Invariant(s) && Enabled(s, step) && Timely(s, step)
    ensures Invariant(Next(s, step))
  {
    BookkeepingKept(s, step);
    CorrelatedKept(s, step);
    ResultsKept(s, step);
  }

  // ---------------------------------------------------------------- runs

  ghost predicate Possible(run: seq<Step>)
    decreases |run|, 0
  {
    run != [] ==> Possible(run[..|run| - 1]) && Enabled(After(run[..|run| - 1]), run[|run| - 1])
  }

  ghost function After(run: seq<Step>): State
    requires Possible(run)
    decreases |run|, 1
  {
    if run == [] then INITIAL else Next(After(run[..|run| - 1]), run[|run| - 1])
  }

  ghost predicate AllTimely(run: seq<Step>)
    requires Possible(run)
    decreases |run|
  {
    run != [] ==> AllTimely(run[..|run| - 1]) && Timely(After(run[..|run| - 1]), run[|run| - 1])
  }

  lemma {:induction false} Reachable(run: seq<Step>)
    requires Possible(run) && AllTimely(run)
    ensures Invariant(After(run))
    decreases |run|
  {
    if run != [] {
      Reachable(run[..|run| - 1]);
      InvariantKept(After(run[..|run| - 1]), run[|run| - 1]);
    } else {
      assert Counted(INITIAL) == {} && Rejected(INITIAL) == {};
    }
  }

  /** CORRELATION, over all interleavings: an acknowledgement that a caller receives or returns carries
      the caller's id, a pooled channel is empty and registered nowhere, no channel is registered twice,
      and the accepted calls never exceed the limit. */
  lemma Correlation(run: seq<Step>)
    requires Possible(run) && AllTimely(run)
    ensures var s := After(run);
      && (forall op :: op in s.calls && s.calls[op].Received? ==> s.calls[op].ack.opId == op)
      && (forall op :: op in s.calls && s.calls[op].Done? && s.calls[op].result.Some? ==> s.calls[op].result.value.opId == op)
      && (forall ch :: ch in s.pool ==> ch !in s.content && ch !in s.pendingAcks.Values)
      && (forall a, b :: a in s.pendingAcks && b in s.pendingAcks && s.pendingAcks[a] == s.pendingAcks[b] ==> a == b)
      && |Counted(s)| <= MAX_PENDING
  {
    Reachable(run);
  }

  /** Handling an acknowledgement as one step: every look-up is followed at once by its own delivery. */
  ghost predicate OneStepHandlers(run: seq<Step>)
    requires Possible(run)
    decreases |run|
  {
    run == [] ||
    var front, last := run[..|run| - 1], run[|run| - 1];
    match last
    case Look(_) => false
    case Deliver(ack, ch) =>
      front != [] && front[|front| - 1] == Look(ack) &&
      var before := front[..|front| - 1];
      ch == After(before).pendingAcks[ack.opId] && OneStepHandlers(before)
    case _ => OneStepHandlers(front)
  }

  /** What was just looked up is still its caller's. */
  lemma LookIsTimely(s: State, ack: Ack)
    requires RegisteredOwn(s) && Enabled(s, Look(ack))
    ensures var t := Next(s, Look(ack)); var deliver := Deliver(ack, s.pendingAcks[ack.opId]);
      Enabled(t, deliver) && Timely(t, deliver)
  {
  }

  lemma {:induction false} OneStepIsTimely(run: seq<Step>)
    requires Possible(run) && OneStepHandlers(run)
    ensures AllTimely(run)
    decreases |run|
  {
    if run != [] {
      var front, last := run[..|run| - 1], run[|run| - 1];
      if last.Deliver? {
        var before := front[..|front| - 1];
        OneStepIsTimely(before);
        Reachable(before);
        LookIsTimely(After(before), last.ack);
      } else {
        OneStepIsTimely(front);
      }
    }
  }

  /** Correlation, with every handler taken as one step and no other premise. */
  lemma OneStepCorrelation(run: seq<Step>)
    requires Possible(run) && OneStepHandlers(run)
    ensures var s := After(run);
      && (forall op :: op in s.calls && s.calls[op].Received? ==> s.calls[op].ack.opId == op)
      && (forall op :: op in s.calls && s.calls[op].Done? && s.calls[op].result.Some? ==> s.calls[op].result.value.opId == op)
      && (forall ch :: ch in s.pool ==> ch !in s.content && ch !in s.pendingAcks.Values)
      && (forall a, b :: a in s.pendingAcks && b in s.pendingAcks && s.pendingAcks[a] == s.pendingAcks[b] ==> a == b)
      && |Counted(s)| <= MAX_PENDING
  {
    OneStepIsTimely(run);
    Correlation(run);
  }

  // ---------------------------------------------------------------- what a late acknowledgement does

  /** `run` is possible from `s`. */
  ghost predicate PossibleFrom(s: State, run: seq<Step>)
    decreases |run|
  {
    run != [] ==> Enabled(s, run[0]) && PossibleFrom(Next(s, run[0]), run[1..])
  }

  ghost function AfterFrom(s: State, run: seq<Step>): State
    requires PossibleFrom(s, run)
    decreases |run|
  {
    if run == [] then s else AfterFrom(Next(s, run[0]), run[1..])
  }

  /** Every delivery in `run` is in time. */
  ghost predicate TimelyFrom(s: State, run: seq<Step>)
    requires PossibleFrom(s, run)
    decreases |run|
  {
    run != [] ==> Timely(s, run[0]) && TimelyFrom(Next(s, run[0]), run[1..])
  }

  /** Some caller has received an acknowledgement that is not its own. */
  ghost predicate Misled(s: State) {
    exists op :: op in s.calls && s.calls[op].Received? && s.calls[op].ack.opId != op
  }

  /** From here on, even if every further delivery is in time, some caller may be misled. */
  ghost predicate MayMislead(s: State) {
    exists run :: PossibleFrom(s, run) && TimelyFrom(s, run) && Misled(AfterFrom(s, run))
  }

  /** No pooled channel is full, and what lies in the channel of a waiting call is that call's. */
  ghost predicate Harmless(s: State) {
    forall ch :: ch in s.content ==>
      ch !in s.pool && forall op :: op in s.calls && s.calls[op] == Waiting(ch) ==> s.content[ch].opId == op
  }

  lemma HarmlessKept(s: State, step: Step)
    requires Harmless(s) && OneOwner(s) && PoolUnowned(s) && Enabled(s, step) && Timely(s, step)
    ensures Harmless(Next(s, step))
  {
  }

  lemma HarmlessResults(s: State, step: Step)
    requires Harmless(s) && ResultsMatch(s) && Enabled(s, step)
    ensures ResultsMatch(Next(s, step))
  {
  }

  lemma {:induction false} HarmlessNeverMisleads(s: State, run: seq<Step>)
    requires Harmless(s) && Bookkeeping(s) && ResultsMatch(s) && PossibleFrom(s, run) && TimelyFrom(s, run)
    ensures !Misled(AfterFrom(s, run))
    decreases |run|
  {
    if run != [] {
      HarmlessKept(s, run[0]);
      HarmlessResults(s, run[0]);
      BookkeepingKept(s, run[0]);
      HarmlessNeverMisleads(Next(s, run[0]), run[1..]);
    }
  }

  lemma Prefixed(step: Step, run: seq<Step>) returns (all: seq<Step>)
    ensures all != [] && all[0] == step && all[1..] == run
  {
    all := [step] + run;
  }

  /** Prefixing a step that is not a delivery. */
  lemma MayMisleadBefore(s: State, step: Step)
    requires Enabled(s, step) && !step.Deliver? && MayMislead(Next(s, step))
    ensures MayMislead(s)
  {
    var t := Next(s, step);
    var run :| PossibleFrom(t, run) && TimelyFrom(t, run) && Misled(AfterFrom(t, run));
    var all := Prefixed(step, run);
    assert AfterFrom(s, all) == AfterFrom(t, run);
  }

  lemma WaitingMisled(s: State, op: string, ch: Channel)
    requires op in s.calls && s.calls[op] == Waiting(ch) && ch in s.content && s.content[ch].opId != op
    ensures MayMislead(s)
  {
    var t := Next(s, Take(op));
    assert t.calls[op] == Received(ch, s.content[ch]);
    assert PossibleFrom(t, []) && TimelyFrom(t, []) && Misled(AfterFrom(t, []));
    MayMisleadBefore(s, Take(op));
  }

  /** The call is past its registration. */
  predicate Registered(s: State, op: string) {
    op in s.calls && !s.calls[op].Rejecting? && !s.calls[op].Admitted?
  }

  /** One step of some call that lowers the count of pending calls and touches no channel. */
  lemma RoomStep(s: State, ch: Channel) returns (step: Step)
    requires Bookkeeping(s) && s.pendingAckCount >= MAX_PENDING
    requires ch in s.content && Registered(s, s.content[ch].opId)
    requires forall op :: op in s.calls && s.calls[op].Admitted? ==> op == s.content[ch].opId
    ensures Enabled(s, step) && (step.Reject? || step.SendFailed? || step.Unregister?)
  {
    if op :| op in Rejected(s) {
      step := Reject(op);
    } else {
      assert Rejected(s) == {};
      assert Counted(s) != {};
      var op :| op in Counted(s);
      step := if s.calls[op].Waiting? then SendFailed(op) else Unregister(op);
    }
  }

  lemma RoomMade(s: State, ch: Channel, step: Step)
    requires Bookkeeping(s) && ch in s.content && Registered(s, s.content[ch].opId)
    requires Enabled(s, step) && (step.Reject? || step.SendFailed? || step.Unregister?)
    ensures var t := Next(s, step);
      && Bookkeeping(t) && t.pendingAckCount == s.pendingAckCount - 1
      && t.pool == s.pool && t.content == s.content && Registered(t, s.content[ch].opId)
  {
    BookkeepingKept(s, step);
  }

  /** A full channel in the pool misleads the next call that takes it. */
  lemma {:induction false} PooledMisled(s: State, ch: Channel)
    requires Bookkeeping(s) && ch in s.pool && ch in s.content && Registered(s, s.content[ch].opId)
    ensures MayMislead(s)
    decreases s.pendingAckCount
  {
    var owner := s.content[ch].opId;
    if op :| op in s.calls && s.calls[op].Admitted? && op != owner {
      AdmittedMisled(s, op, ch);
    } else if s.pendingAckCount < MAX_PENDING {
      var longest := LongerThanAll(s.calls.Keys);
      var op := longest + "x";
      assert op !in s.calls;
      AdmittedMisled(Next(s, Begin(op)), op, ch);
      MayMisleadBefore(s, Begin(op));
    } else {
      var step := RoomStep(s, ch);
      RoomMade(s, ch, step);
      PooledMisled(Next(s, step), ch);
      MayMisleadBefore(s, step);
    }
  }

  lemma AdmittedMisled(s: State, op: string, ch: Channel)
    requires op in s.calls && s.calls[op].Admitted?
    requires ch in s.pool && ch in s.content && s.content[ch].opId != op
    ensures MayMislead(s)
  {
    WaitingMisled(Next(s, Register(op, ch)), op, ch);
    MayMisleadBefore(s, Register(op, ch));
  }

  /** EXACTLY WHEN A LATE ACKNOWLEDGEMENT MISLEADS.  After an acknowledgement is dropped into the channel it
      was looked up in, some continuation, with no further delivery late, lets a caller receive what is not
      its own, if and only if the channel is empty and is by now back in the pool or owned by another call
      that is still waiting. */
  lemma MisleadsExactly(s: State, ack: Ack, ch: Channel)
    requires Invariant(s) && Enabled(s, Deliver(ack, ch))
    ensures MayMislead(Next(s, Deliver(ack, ch)))
       <==> ch !in s.content
            && (ch in s.pool || exists op :: op in s.calls && s.calls[op] == Waiting(ch) && op != ack.opId)
  {
    var t := Next(s, Deliver(ack, ch));
    BookkeepingKept(s, Deliver(ack, ch));
    if ch !in s.content && ch in s.pool {
      PooledMisled(t, ch);
    } else if op :| ch !in s.content && op in s.calls && s.calls[op] == Waiting(ch) && op != ack.opId {
      WaitingMisled(t, op, ch);
    } else {
      HarmlessDelivery(s, ack, ch);
      NeverMisled(t);
    }
  }

  lemma HarmlessDelivery(s: State, ack: Ack, ch: Channel)
    requires Invariant(s) && Enabled(s, Deliver(ack, ch))
    requires ch in s.content ||
      (ch !in s.pool && forall op :: op in s.calls && s.calls[op] == Waiting(ch) ==> op == ack.opId)
    ensures Harmless(Next(s, Deliver(ack, ch))) && ResultsMatch(Next(s, Deliver(ack, ch)))
  {
  }

  lemma NeverMisled(s: State)
    requires Harmless(s) && Bookkeeping(s) && ResultsMatch(s)
    ensures !MayMislead(s)
  {
    forall run | PossibleFrom(s, run) && TimelyFrom(s, run)
      ensures !Misled(AfterFrom(s, run))
    {
      HarmlessNeverMisleads(s, run);
    }
  }

  lemma Extend(run: seq<Step>, s: State, step: Step, t: State) returns (longer: seq<Step>)
    requires Possible(run) && After(run) == s && Enabled(s, step) && t == Next(s, step)
    ensures Possible(longer) && After(longer) == t
  {
    longer := run + [step];
    assert longer[..|run|] == run;
  }

  /** What goes wrong otherwise: an acknowledgement looked up for "a" and dropped after its channel was
      recycled is received by "b". */
  lemma LateDelivery(ack: Ack) returns (run: seq<Step>)
    requires ack.opId == "a"
    ensures Possible(run) && "b" in After(run).calls && After(run).calls["b"] == Received(0, ack)
  {
    run := RecycledRun(ack);
    var late := RecycledState(ack);
    var s1 := Next(late, Deliver(ack, 0));
    run := Extend(run, late, Deliver(ack, 0), s1);
    run := Extend(run, s1, Take("b"), Next(s1, Take("b")));
  }

  /** The acknowledgement for "a" is in hand while "b" waits on the channel that "a" gave back. */
  ghost function RecycledState(ack: Ack): State {
    State(map["b" := 0], 1, map[], {}, map["a" := Done(None), "b" := Waiting(0)], multiset{(ack, 0)})
  }

  /** The acknowledgement for "a" is in hand when "a" gives up. */
  ghost function LateState(ack: Ack): State {
    State(map["a" := 0], 1, map[], {}, map["a" := GaveUp(0)], multiset{(ack, 0)})
  }

  /** "a" has handed its channel back. */
  ghost function HandedBackState(ack: Ack): State {
    State(map[], 0, map[], {0}, map["a" := Done(None)], multiset{(ack, 0)})
  }

  /** "a" waits. */
  ghost function WaitingState(): State {
    State(map["a" := 0], 1, map[], {}, map["a" := Waiting(0)], multiset{})
  }

  lemma WaitingRun() returns (run: seq<Step>)
    ensures Possible(run) && After(run) == WaitingState()
  {
    var s := State(map[], 1, map[], {}, map["a" := Admitted], multiset{});
    run := Extend([], INITIAL, Begin("a"), s);
    run := Extend(run, s, Register("a", 0), WaitingState());
  }

  ghost function LookedUpState(ack: Ack): State {
    WaitingState().(inHand := multiset{(ack, 0)})
  }

  lemma LookedUpRun(ack: Ack) returns (run: seq<Step>)
    requires ack.opId == "a"
    ensures Possible(run) && After(run) == LookedUpState(ack)
  {
    run := WaitingRun();
    run := Extend(run, WaitingState(), Look(ack), LookedUpState(ack));
  }

  lemma LateRun(ack: Ack) returns (run: seq<Step>)
    requires ack.opId == "a"
    ensures Possible(run) && After(run) == LateState(ack)
  {
    run := LookedUpRun(ack);
    run := Extend(run, LookedUpState(ack), TimeOut("a"), LateState(ack));
  }

  ghost function UnregisteredState(ack: Ack): State {
    State(map[], 0, map[], {}, map["a" := Unregistered(0, None)], multiset{(ack, 0)})
  }

  lemma UnregisteredRun(ack: Ack) returns (run: seq<Step>)
    requires ack.opId == "a"
    ensures Possible(run) && After(run) == UnregisteredState(ack)
  {
    run := LateRun(ack);
    run := Extend(run, LateState(ack), Unregister("a"), UnregisteredState(ack));
  }

  lemma HandedBackRun(ack: Ack) returns (run: seq<Step>)
    requires ack.opId == "a"
    ensures Possible(run) && After(run) == HandedBackState(ack)
  {
    run := UnregisteredRun(ack);
    run := Extend(run, UnregisteredState(ack), Recycle("a"), HandedBackState(ack));
  }

  lemma RecycledRun(ack: Ack) returns (run: seq<Step>)
    requires ack.opId == "a"
    ensures Possible(run) && After(run) == RecycledState(ack)
  {
    run := HandedBackRun(ack);
    var s := AdmittedState(ack);
    run := Extend(run, HandedBackState(ack), Begin("b"), s);
    RecycledStep(ack);
    run := Extend(run, s, Register("b", 0), RecycledState(ack));
  }

  ghost function AdmittedState(ack: Ack): State {
    State(map[], 1, map[], {0}, map["a" := Done(None), "b" := Admitted], multiset{(ack, 0)})
  }

  lemma RecycledStep(ack: Ack)
    ensures Enabled(AdmittedState(ack), Register("b", 0))
    ensures Next(AdmittedState(ack), Register("b", 0)) == RecycledState(ack)
  {
    assert {0} - {0} == {};
  }
}
