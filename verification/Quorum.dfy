/**
  Quorum writes and reads as a protocol of messages.  A replica acknowledges a write when it receives
  it and applies it later, if at all: its worker pool may be full when the message arrives, and its store
  may refuse the write.  A coordinator stores first and then collects acknowledgements; a reader
  combines its own answer with those of other replicas.  Messages may be delayed, reordered, duplicated
  or lost, applies happen in any order, and any number of writes and reads are in progress at once.
 */
module Quorum {
  import opened Prelude
  import opened LastWriteWins

  type Node = string

  /** The preference list of each key, whose head coordinates, and the two quorums. */
  datatype Config = Config(replicas: string -> seq<Node>, writeQuorum: nat, readQuorum: nat) {
    ghost predicate Valid() {
      forall key :: replicas(key) != [] && NoDuplicates(replicas(key))
    }

    function Coordinator(key: string): Node
      requires replicas(key) != []
    {
      replicas(key)[0]
    }
  }

  /** What a node stores, and the operations received but not yet applied. */
  datatype Replica = Replica(store: Store, queue: multiset<Op>)

  /** A write in progress or finished: the replicas found alive, those a request was handed out for,
      those whose acknowledgement was counted, and the result. */
  datatype Write = Write(op: Op, targets: set<Node>, sentTo: set<Node>, acked: set<Node>, outcome: Option<bool>)

  /** What a responder knew, and whether nothing was queued there for the key. */
  datatype Answer = Answer(item: Option<Item>, clean: bool)

  /** A read: the writes known to have succeeded when it began, and the answers given so far. */
  datatype Read = Read(key: string, reader: Node, after: set<nat>, offered: map<Node, Answer>)

  /** `refused` records which operations a node turned away after acknowledging them. */
  datatype State = State(
    nodes: map<Node, Replica>,
    writes: seq<Write>,
    acks: set<(nat, Node)>,
    refused: set<(Node, Op)>,
    queries: seq<Read>)

  const INITIAL := State(map[], [], {}, {}, [])

  function At(s: State, n: Node): Replica {
    if n in s.nodes then s.nodes[n] else Replica(map[], multiset{})
  }

  /** `queued`: the replica's worker pool took the operation; `stored`: its store would take it. */
  datatype Step =
    | StartWrite(op: Op, targets: set<Node>, sentTo: set<Node>)
    | Receive(write: nat, node: Node, queued: bool)
    | ApplyQueued(node: Node, op: Op, stored: bool)
    | ApplyDirect(node: Node, op: Op)
    | CountAck(write: nat, node: Node)
    | FinishWrite(write: nat, ok: bool)
    | StartRead(key: string, reader: Node)
    | Respond(read: nat, node: Node)

  // ---------------------------------------------------------------- the rules of the code

  /** How many acknowledgements the coordinator waits for: one less than the write quorum, or all the
      live replicas when they are fewer. */
  function Required(targets: nat, writeQuorum: int): int {
    if targets < writeQuorum - 1 then targets else writeQuorum - 1
  }

  /** When a write reports success: nobody to write to, nobody a request could be handed out for, or
      enough acknowledgements. */
  predicate Succeeds(c: Config, w: Write) {
    w.targets == {} || w.sentTo == {} || |w.acked| >= Required(|w.targets|, c.writeQuorum)
  }

  function Recall(s: State, n: Node, key: string): Answer {
    Answer(Lookup(At(s, n).store, key), forall op :: op in At(s, n).queue ==> op.key != key)
  }

  predicate Enabled(c: Config, s: State, step: Step) {
    match step
    case StartWrite(op, targets, sentTo) =>
      // versions of a key rise at its coordinator
      && op.key != "" && c.replicas(op.key) != []
      && (var known := Lookup(At(s, c.Coordinator(op.key)).store, op.key);
          known.None? || known.value.version < op.item.version)
      && sentTo <= targets <= Elements(c.replicas(op.key)[1..])
    case Receive(w, n, _) => w < |s.writes| && n in s.writes[w].sentTo
    case ApplyQueued(n, op, _) => op in At(s, n).queue
    case ApplyDirect(n, op) => true
    case CountAck(w, n) => (w, n) in s.acks && w < |s.writes| && s.writes[w].outcome.None?
    case FinishWrite(w, ok) =>
      w < |s.writes| && s.writes[w].outcome.None? && (ok ==> Succeeds(c, s.writes[w]))
    case StartRead(key, r) => r in c.replicas(key)
    case Respond(r, n) => r < |s.queries| && n in c.replicas(s.queries[r].key) && n !in s.queries[r].offered
  }

  function Next(c: Config, s: State, step: Step): State
    requires Enabled(c, s, step)
  {
    match step
    case StartWrite(op, targets, sentTo) =>
      var n := c.Coordinator(op.key);
      s.(nodes := s.nodes[n := At(s, n).(store := At(s, n).store[op.key := op.item])],
         writes := s.writes + [Write(op, targets, sentTo, {}, None)])
    case Receive(w, n, queued) =>
      var op := s.writes[w].op;
      if queued then
        s.(nodes := s.nodes[n := At(s, n).(queue := At(s, n).queue + multiset{op})], acks := s.acks + {(w, n)})
      else s.(acks := s.acks + {(w, n)}, refused := s.refused + {(n, op)})
    case ApplyQueued(n, op, stored) =>
      var store, queue := At(s, n).store, At(s, n).queue - multiset{op};
      if stored || Outdated(store, op) then s.(nodes := s.nodes[n := Replica(Apply(store, op), queue)])
      else s.(nodes := s.nodes[n := Replica(store, queue)], refused := s.refused + {(n, op)})
    case ApplyDirect(n, op) =>
      s.(nodes := s.nodes[n := At(s, n).(store := Apply(At(s, n).store, op))])
    case CountAck(w, n) =>
      s.(writes := s.writes[w := s.writes[w].(acked := s.writes[w].acked + {n})])
    case FinishWrite(w, ok) =>
      s.(writes := s.writes[w := s.writes[w].(outcome := Some(ok))])
    case StartRead(key, r) =>
      s.(queries := s.queries + [Read(key, r, Succeeded(s, key), map[r := Recall(s, r, key)])])
    case Respond(r, n) =>
      var read := s.queries[r];
      s.(queries := s.queries[r := read.(offered := read.offered[n := Recall(s, n, read.key)])])
  }

  /** The writes of a key that have succeeded so far. */
  function Succeeded(s: State, key: string): set<nat> {
    set w | 0 <= w < |s.writes| && s.writes[w].outcome == Some(true) && s.writes[w].op.key == key
  }

  /** `run` is a possible run of the protocol from the initial state. */
  ghost predicate Possible(c: Config, run: seq<Step>)
    decreases |run|, 0
  {
    run != [] ==> Possible(c, run[..|run| - 1]) && Enabled(c, After(c, run[..|run| - 1]), run[|run| - 1])
  }

  ghost function After(c: Config, run: seq<Step>): State
    requires Possible(c, run)
    decreases |run|, 1
  {
    if run == [] then INITIAL
    else Next(c, After(c, run[..|run| - 1]), run[|run| - 1])
  }

  // ---------------------------------------------------------------- what every run keeps

  predicate Stored(r: Replica, key: string, version: int) {
    key in r.store && r.store[key].version >= version
  }

  /** The node stores the operation's version or a higher one, or has the operation queued. */
  predicate Holds(s: State, n: Node, op: Op) {
    Stored(At(s, n), op.key, op.item.version) || op in At(s, n).queue
  }

  /** What is stored is never replaced by a lower version. */
  lemma StoredForward(c: Config, s: State, step: Step, n: Node, key: string, version: int)
    requires Enabled(c, s, step) && Stored(At(s, n), key, version)
    ensures Stored(At(Next(c, s, step), n), key, version)
  {
    match step
    case ApplyQueued(m, op, _) =>
      ApplyForward(At(s, m).store, op, key, version);
    case ApplyDirect(m, op) =>
      ApplyForward(At(s, m).store, op, key, version);
    case _ =>
  }

  lemma ApplyForward(store: Store, op: Op, key: string, version: int)
    ensures key in store && store[key].version >= version ==>
      key in Apply(store, op) && Apply(store, op)[key].version >= version
  {
  }

  lemma QueueForward(c: Config, s: State, step: Step, n: Node, op: Op)
    requires Enabled(c, s, step) && op in At(s, n).queue && op.key != ""
    ensures var s' := Next(c, s, step);
      (n, op) in s'.refused || op in At(s', n).queue || Stored(At(s', n), op.key, op.item.version)
  {
  }

  /** No step takes an operation away from a node that holds it, unless the node's store refuses it. */
  lemma HoldsForward(c: Config, s: State, step: Step, n: Node, op: Op)
    requires Enabled(c, s, step) && Holds(s, n, op) && op.key != ""
    ensures (n, op) in Next(c, s, step).refused || Holds(Next(c, s, step), n, op)
  {
    if Stored(At(s, n), op.key, op.item.version) {
      StoredForward(c, s, step, n, op.key, op.item.version);
    } else {
      QueueForward(c, s, step, n, op);
    }
  }

  /** The nodes a write can rely on: its coordinator and those whose acknowledgement was counted. */
  function Witnesses(c: Config, w: Write): set<Node>
    requires c.replicas(w.op.key) != []
  {
    {c.Coordinator(w.op.key)} + w.acked
  }

  ghost predicate WriteOk(c: Config, s: State, w: nat)
    requires w < |s.writes| && c.Valid()
  {
    var write := s.writes[w];
    && write.op.key != ""
    && write.acked <= write.sentTo <= write.targets <= Elements(c.replicas(write.op.key)[1..])
    && Stored(At(s, c.Coordinator(write.op.key)), write.op.key, write.op.item.version)
    && (forall n :: n in write.acked ==> (n, write.op) in s.refused || Holds(s, n, write.op))
    && (write.outcome == Some(true) ==> Succeeds(c, write))
  }

  /** Does an answer report the write's version or a higher one? */
  predicate Sees(answer: Answer, op: Op) {
    answer.item.Some? && answer.item.value.version >= op.item.version
  }

  ghost predicate ReadOk(c: Config, s: State, r: nat)
    requires r < |s.queries| && c.Valid()
  {
    var read := s.queries[r];
    && read.offered.Keys <= Elements(c.replicas(read.key))
    && (forall w :: w in read.after ==>
      w < |s.writes| && s.writes[w].outcome == Some(true) && s.writes[w].op.key == read.key)
    && (c.Coordinator(read.key) in read.offered ==>
      forall w :: w in read.after ==> Sees(read.offered[c.Coordinator(read.key)], s.writes[w].op))
    && (forall w, n :: w in read.after && n in s.writes[w].acked && n in read.offered && read.offered[n].clean ==>
      (n, s.writes[w].op) in s.refused || Sees(read.offered[n], s.writes[w].op))
  }

  ghost predicate AckOk(s: State, w: nat, n: Node) {
    w < |s.writes| && n in s.writes[w].sentTo && ((n, s.writes[w].op) in s.refused || Holds(s, n, s.writes[w].op))
  }

  ghost predicate Invariant(c: Config, s: State)
    requires c.Valid()
  {
    && (forall w :: 0 <= w < |s.writes| ==> WriteOk(c, s, w))
    && (forall w, n :: (w, n) in s.acks ==> AckOk(s, w, n))
    && (forall r :: 0 <= r < |s.queries| ==> ReadOk(c, s, r))
  }

  lemma AckedKept(c: Config, s: State, step: Step, w: nat, n: Node)
    requires c.Valid() && Invariant(c, s) && Enabled(c, s, step) && w < |s.writes| && n in Next(c, s, step).writes[w].acked
    ensures var s', op := Next(c, s, step), s.writes[w].op; (n, op) in s'.refused || Holds(s', n, op)
  {
    assert WriteOk(c, s, w);
    assert n in s.writes[w].acked || AckOk(s, w, n);
    if (n, s.writes[w].op) !in s.refused {
      HoldsForward(c, s, step, n, s.writes[w].op);
    }
  }

  lemma WritesKept(c: Config, s: State, step: Step, w: nat)
    requires c.Valid() && Invariant(c, s) && Enabled(c, s, step) && w < |Next(c, s, step).writes|
    ensures WriteOk(c, Next(c, s, step), w)
  {
    var s' := Next(c, s, step);
    var write := s'.writes[w];
    if w < |s.writes| {
      assert WriteOk(c, s, w);
      StoredForward(c, s, step, c.Coordinator(write.op.key), write.op.key, write.op.item.version);
      forall n | n in write.acked
        ensures (n, write.op) in s'.refused || Holds(s', n, write.op)
      {
        AckedKept(c, s, step, w, n);
      }
    }
  }

  lemma AcksKept(c: Config, s: State, step: Step, w: nat, n: Node)
    requires c.Valid() && Invariant(c, s) && Enabled(c, s, step) && (w, n) in Next(c, s, step).acks
    ensures AckOk(Next(c, s, step), w, n)
  {
    if (w, n) in s.acks {
      assert AckOk(s, w, n) && WriteOk(c, s, w);
      if (n, s.writes[w].op) !in s.refused {
        HoldsForward(c, s, step, n, s.writes[w].op);
      }
    }
  }

  /** An answer given while nothing is queued reports what the node holds. */
  lemma CleanAnswer(s: State, n: Node, op: Op)
    requires Holds(s, n, op) && Recall(s, n, op.key).clean
    ensures Sees(Recall(s, n, op.key), op)
  {
  }

  /** The writes a read may rely on finished before it, and no longer change. */
  lemma EarlierWrites(c: Config, s: State, step: Step, r: nat, w: nat)
    requires c.Valid() && Invariant(c, s) && Enabled(c, s, step) && r < |Next(c, s, step).queries|
    requires w in Next(c, s, step).queries[r].after
    ensures w < |s.writes| && s.writes[w].outcome == Some(true)
    ensures s.writes[w].op.key == Next(c, s, step).queries[r].key
    ensures w < |Next(c, s, step).writes| && Next(c, s, step).writes[w] == s.writes[w]
  {
    if r < |s.queries| {
      assert ReadOk(c, s, r);
    }
  }

  /** Where an answer comes from: it was there before, or it is what its node recalls right now. */
  lemma AnswerSource(c: Config, s: State, step: Step, r: nat, n: Node)
    requires Enabled(c, s, step) && r < |Next(c, s, step).queries| && n in Next(c, s, step).queries[r].offered
    ensures var read := Next(c, s, step).queries[r];
      || (r < |s.queries| && n in s.queries[r].offered && read.offered[n] == s.queries[r].offered[n]
          && read.after == s.queries[r].after && read.key == s.queries[r].key)
      || read.offered[n] == Recall(s, n, read.key)
  {
  }

  lemma CoordinatorAnswerKept(c: Config, s: State, step: Step, r: nat, w: nat)
    requires c.Valid() && Invariant(c, s) && Enabled(c, s, step) && r < |Next(c, s, step).queries|
    requires w in Next(c, s, step).queries[r].after
    requires c.Coordinator(Next(c, s, step).queries[r].key) in Next(c, s, step).queries[r].offered
    ensures w < |s.writes|
    ensures var read := Next(c, s, step).queries[r]; Sees(read.offered[c.Coordinator(read.key)], s.writes[w].op)
  {
    EarlierWrites(c, s, step, r, w);
    var read := Next(c, s, step).queries[r];
    AnswerSource(c, s, step, r, c.Coordinator(read.key));
    assert WriteOk(c, s, w);
    if r < |s.queries| {
      assert ReadOk(c, s, r);
    }
  }

  lemma CleanAnswerKept(c: Config, s: State, step: Step, r: nat, w: nat, n: Node)
    requires c.Valid() && Invariant(c, s) && Enabled(c, s, step) && r < |Next(c, s, step).queries|
    requires w in Next(c, s, step).queries[r].after && w < |s.writes| && n in s.writes[w].acked
    requires n in Next(c, s, step).queries[r].offered && Next(c, s, step).queries[r].offered[n].clean
    ensures (n, s.writes[w].op) in Next(c, s, step).refused || Sees(Next(c, s, step).queries[r].offered[n], s.writes[w].op)
  {
    EarlierWrites(c, s, step, r, w);
    AnswerSource(c, s, step, r, n);
    var read := Next(c, s, step).queries[r];
    if r < |s.queries| && n in s.queries[r].offered && read.offered[n] == s.queries[r].offered[n] {
      assert ReadOk(c, s, r);
    }
    if read.offered[n] == Recall(s, n, read.key) {
      assert WriteOk(c, s, w);
      if (n, s.writes[w].op) !in s.refused {
        CleanAnswer(s, n, s.writes[w].op);
      }
    }
  }

  lemma ReadsKept(c: Config, s: State, step: Step, r: nat)
    requires c.Valid() && Invariant(c, s) && Enabled(c, s, step) && r < |Next(c, s, step).queries|
    ensures ReadOk(c, Next(c, s, step), r)
  {
    var s' := Next(c, s, step);
    var read := s'.queries[r];
    assert read.offered.Keys <= Elements(c.replicas(read.key)) by {
      if r < |s.queries| {
        assert ReadOk(c, s, r);
      }
    }
    forall w | w in read.after
      ensures w < |s.writes| && s'.writes[w] == s.writes[w] && s.writes[w].outcome == Some(true)
      ensures s.writes[w].op.key == read.key
    {
      EarlierWrites(c, s, step, r, w);
    }
    forall w | w in read.after && c.Coordinator(read.key) in read.offered
      ensures Sees(read.offered[c.Coordinator(read.key)], s'.writes[w].op)
    {
      CoordinatorAnswerKept(c, s, step, r, w);
    }
    forall w, n | w in read.after && n in s'.writes[w].acked && n in read.offered && read.offered[n].clean
      ensures (n, s'.writes[w].op) in s'.refused || Sees(read.offered[n], s'.writes[w].op)
    {
      CleanAnswerKept(c, s, step, r, w, n);
    }
  }

  lemma InvariantKept(c: Config, s: State, step: Step)
    requires c.Valid() && Invariant(c, s) && Enabled(c, s, step)
    ensures Invariant(c, Next(c, s, step))
  {
    var s' := Next(c, s, step);
    forall w | 0 <= w < |s'.writes|
      ensures WriteOk(c, s', w)
    {
      WritesKept(c, s, step, w);
    }
    forall w, n | (w, n) in s'.acks
      ensures AckOk(s', w, n)
    {
      AcksKept(c, s, step, w, n);
    }
    forall r | 0 <= r < |s'.queries|
      ensures ReadOk(c, s', r)
    {
      ReadsKept(c, s, step, r);
    }
  }

  lemma {:induction false} Reachable(c: Config, run: seq<Step>)
    requires c.Valid() && Possible(c, run)
    ensures Invariant(c, After(c, run))
    decreases |run|
  {
    if run != [] {
      Reachable(c, run[..|run| - 1]);
      InvariantKept(c, After(c, run[..|run| - 1]), run[|run| - 1]);
    }
  }

  // ---------------------------------------------------------------- the guarantees

  /** When success is a promise of the full quorum: requests were handed out, and either enough replicas
      were alive or not all live ones were asked (so that success needs more than can be counted). */
  predicate Promises(c: Config, w: Write) {
    c.writeQuorum <= 1 || (w.sentTo != {} && (|w.targets| >= c.writeQuorum - 1 || |w.sentTo| < |w.targets|))
  }

  /** The code reports success exactly when a quorum holds the write if and only if the write can promise
      it; otherwise some pattern of acknowledgements makes success mean less. */
  lemma SuccessMeansQuorum(c: Config, w: Write)
    requires w.sentTo <= w.targets
    ensures Promises(c, w)
       <==> (forall acked :: acked <= w.sentTo && Succeeds(c, w.(acked := acked)) ==> 1 + |acked| >= c.writeQuorum)
  {
    SubsetCardinality(w.sentTo, w.targets);
    if Promises(c, w) {
      forall acked | acked <= w.sentTo && Succeeds(c, w.(acked := acked))
        ensures 1 + |acked| >= c.writeQuorum
      {
        SubsetCardinality(acked, w.sentTo);
      }
    } else {
      var acked := if w.sentTo == {} then {} else w.sentTo;
      assert Succeeds(c, w.(acked := acked));
      assert 1 + |acked| < c.writeQuorum;
    }
  }

  lemma WitnessCount(c: Config, s: State, w: nat)
    requires c.Valid() && w < |s.writes| && WriteOk(c, s, w)
    ensures Witnesses(c, s.writes[w]) <= Elements(c.replicas(s.writes[w].op.key))
    ensures |Witnesses(c, s.writes[w])| == 1 + |s.writes[w].acked|
  {
  }

  /** DURABILITY OF A QUORUM WRITE.  In every state of every run, if a write that can promise its quorum
      has reported success, it has at least W distinct witnesses among the replicas of its key: the
      coordinator, which stores its version or a higher one, and replicas each of which holds the operation
      unless it turned it away. */
  lemma QuorumWrite(c: Config, run: seq<Step>, w: nat)
    requires c.Valid() && Possible(c, run)
    requires w < |After(c, run).writes|
    requires After(c, run).writes[w].outcome == Some(true) && Promises(c, After(c, run).writes[w])
    ensures var s, write := After(c, run), After(c, run).writes[w];
      && |Witnesses(c, write)| >= c.writeQuorum
      && Witnesses(c, write) <= Elements(c.replicas(write.op.key))
      && Stored(At(s, c.Coordinator(write.op.key)), write.op.key, write.op.item.version)
      && forall n :: n in Witnesses(c, write) ==> Holds(s, n, write.op) || (n, write.op) in s.refused
  {
    Reachable(c, run);
    var s, write := After(c, run), After(c, run).writes[w];
    assert WriteOk(c, s, w);
    WitnessCount(c, s, w);
    SuccessMeansQuorum(c, write);
    assert write == write.(acked := write.acked);
  }

  /** One more answer: a strictly higher version replaces the choice so far, and no version below zero is
      ever chosen. */
  function Choose(chosen: Option<Item>, answer: Option<Item>): Option<Item> {
    if answer.Some? && answer.value.version > (if chosen.Some? then chosen.value.version else -1) then answer
    else chosen
  }

  /** The item a read returns for the answers it used. */
  function Latest(used: seq<Option<Item>>): Option<Item> {
    if used == [] then None else Choose(Latest(used[..|used| - 1]), used[|used| - 1])
  }

  lemma {:induction false} LatestIsMaximum(used: seq<Option<Item>>)
    ensures Latest(used).Some? ==> Latest(used) in used && Latest(used).value.version >= 0
    ensures Latest(used).Some? <==> exists i :: 0 <= i < |used| && used[i].Some? && used[i].value.version >= 0
    ensures forall i :: 0 <= i < |used| && used[i].Some? && used[i].value.version >= 0 ==>
      Latest(used).Some? && used[i].value.version <= Latest(used).value.version
  {
    if used != [] {
      LatestIsMaximum(used[..|used| - 1]);
    }
  }

  /** Of several answers with the highest version the first is chosen. */
  lemma {:induction false} LatestIsFirst(used: seq<Option<Item>>) returns (i: nat)
    requires Latest(used).Some?
    ensures i < |used| && used[i] == Latest(used)
    ensures forall j :: 0 <= j < i && used[j].Some? ==> used[j].value.version < used[i].value.version
  {
    var front := used[..|used| - 1];
    LatestIsMaximum(front);
    if Latest(used) == Latest(front) {
      i := LatestIsFirst(front);
      assert forall j :: 0 <= j <= i ==> used[j] == front[j];
    } else {
      i := |used| - 1;
      assert forall j :: 0 <= j < i ==> used[j] == front[j];
    }
  }

  /** An item stored under a negative version is not returned even if it is the only answer. */
  lemma NegativeVersion(item: Item)
    requires item.version < 0
    ensures Latest([Some(item)]) == None
  {
    assert [Some(item)][..0] == [];
  }

  /** The answers of the responders a read waited for. */
  function AnswersOf(read: Read, responders: seq<Node>): seq<Option<Item>>
    requires Elements(responders) <= read.offered.Keys
  {
    seq(|responders|, i requires 0 <= i < |responders| =>
      assert responders[i] in Elements(responders);
      read.offered[responders[i]].item)
  }

  /** Two sets of replicas that are together larger than the whole have a member in common. */
  lemma QuorumsMeet(all: set<Node>, a: set<Node>, b: set<Node>)
    requires a <= all && b <= all && |a| + |b| > |all|
    ensures exists n :: n in a && n in b
  {
    if a * b == {} {
      assert |a + b| == |a| + |b|;
      SubsetCardinality(a + b, all);
    } else {
      var n :| n in a * b;
      assert n in a && n in b;
    }
  }

  /** What a read does with its answers is complete: `responders` are distinct, answered it, and are at least
      as many as the effective read quorum. */
  ghost predicate Collected(c: Config, read: Read, responders: seq<Node>) {
    && NoDuplicates(responders) && Elements(responders) <= read.offered.Keys
    && (|responders| >= c.readQuorum || |responders| >= |c.replicas(read.key)|)
  }

  /** Does the read return the write's version or a higher one? */
  ghost predicate ReturnsAtLeast(read: Read, responders: seq<Node>, op: Op)
    requires Elements(responders) <= read.offered.Keys
  {
    var latest := Latest(AnswersOf(read, responders));
    latest.Some? && latest.value.version >= op.item.version
  }

  lemma OneAnswerSuffices(read: Read, responders: seq<Node>, n: Node, op: Op)
    requires Elements(responders) <= read.offered.Keys && n in responders
    requires Sees(read.offered[n], op) && op.item.version >= 0
    ensures ReturnsAtLeast(read, responders, op)
  {
    var i :| 0 <= i < |responders| && responders[i] == n;
    var answers := AnswersOf(read, responders);
    assert answers[i] == read.offered[n].item;
    LatestIsMaximum(answers);
  }

  /** THE COORDINATOR KNOWS.  In every run a read whose answers include the coordinator's sees every write of
      its key that succeeded before it began, whatever is queued or refused elsewhere. */
  lemma CoordinatorAnswerSuffices(c: Config, run: seq<Step>, w: nat, r: nat, responders: seq<Node>)
    requires c.Valid() && Possible(c, run) && r < |After(c, run).queries| && w in After(c, run).queries[r].after
    requires Elements(responders) <= After(c, run).queries[r].offered.Keys
    requires c.Coordinator(After(c, run).queries[r].key) in responders
    ensures w < |After(c, run).writes|
    ensures After(c, run).writes[w].op.item.version >= 0 ==>
      ReturnsAtLeast(After(c, run).queries[r], responders, After(c, run).writes[w].op)
  {
    Reachable(c, run);
    var s := After(c, run);
    assert ReadOk(c, s, r);
    var n := c.Coordinator(s.queries[r].key);
    assert n in Elements(responders);
    if s.writes[w].op.item.version >= 0 {
      OneAnswerSuffices(s.queries[r], responders, n, s.writes[w].op);
    }
  }

  /** The responders answered with nothing queued for the key, and did not turn the write away. */
  ghost predicate AnsweredClean(s: State, write: Write, read: Read, responders: seq<Node>) {
    forall n :: n in responders ==> n in read.offered && read.offered[n].clean && (n, write.op) !in s.refused
  }

  /** W + R > N, the write can promise its quorum, and the answers are clean. */
  ghost predicate AllClean(c: Config, s: State, write: Write, read: Read, responders: seq<Node>) {
    && Promises(c, write) && c.writeQuorum + c.readQuorum > |c.replicas(read.key)|
    && AnsweredClean(s, write, read, responders)
  }

  /** READS SEE SUCCESSFUL WRITES.  With W + R > N, a read that began after a quorum write of its key
      succeeded, and that uses R distinct answers given while nothing was queued there for the key by
      replicas that did not turn the write away, returns that write's version or a higher one, in every
      run. */
  lemma QuorumRead(c: Config, run: seq<Step>, w: nat, r: nat, responders: seq<Node>)
    requires c.Valid() && Possible(c, run)
    requires w < |After(c, run).writes| && r < |After(c, run).queries|
    requires w in After(c, run).queries[r].after && After(c, run).writes[w].op.item.version >= 0
    requires Collected(c, After(c, run).queries[r], responders)
    requires AllClean(c, After(c, run), After(c, run).writes[w], After(c, run).queries[r], responders)
    ensures ReturnsAtLeast(After(c, run).queries[r], responders, After(c, run).writes[w].op)
  {
    var s := After(c, run);
    var read, write := s.queries[r], s.writes[w];
    Reachable(c, run);
    assert ReadOk(c, s, r);
    QuorumWrite(c, run, w);
    assert c.Coordinator(write.op.key) in Witnesses(c, write);
    NoDuplicatesCardinality(c.replicas(read.key));
    NoDuplicatesCardinality(responders);
    QuorumsMeet(Elements(c.replicas(read.key)), Witnesses(c, write), Elements(responders));
    var n :| n in Witnesses(c, write) && n in Elements(responders);
    OneAnswerSuffices(read, responders, n, write.op);
  }
}
