/** How far the promises of quorum writes and reads go: exact conditions, and runs of any configuration in
    which they end. */
module QuorumLimits {
  import opened Prelude
  import opened LastWriteWins
  import opened Quorum
  import Storage

  lemma RunStep(c: Config, run: seq<Step>, s: State, step: Step, s': State)
    requires Possible(c, run) && After(c, run) == s
    requires Enabled(c, s, step) && Next(c, s, step) == s'
    ensures Possible(c, run + [step]) && After(c, run + [step]) == s'
  {
  }

  // ---------------------------------------------------------------- a write that only its coordinator applies

  /** The replicas of a key but the coordinator. */
  function Others(c: Config, key: string): seq<Node>
    requires c.replicas(key) != []
  {
    c.replicas(key)[1..]
  }

  /** The write has been requested from all other replicas, and its outcome is given; the first `k` of them
      have acknowledged it.  If `queued` is false they have turned it away. */
  ghost predicate AckedBy(c: Config, s: State, op: Op, k: nat, queued: bool, outcome: Option<bool>)
    requires c.Valid() && k <= |Others(c, op.key)|
  {
    var others := Others(c, op.key);
    && s.writes == [Write(op, Elements(others), Elements(others), Elements(others[..k]), outcome)]
    && s.queries == []
    && Unapplied(c, s, op, k, queued)
  }

  /** Only the coordinator has applied the write, and only the first `k` others have refused it, if any. */
  ghost predicate Unapplied(c: Config, s: State, op: Op, k: nat, queued: bool)
    requires c.Valid() && k <= |Others(c, op.key)|
  {
    && (forall n :: n != c.Coordinator(op.key) ==>
      op.key !in At(s, n).store && (queued || At(s, n).queue == multiset{}))
    && (forall n :: (n, op) in s.refused ==> n in Others(c, op.key)[..k])
  }

  lemma NotCoordinator(c: Config, key: string, k: nat)
    requires c.Valid() && k < |Others(c, key)|
    ensures Others(c, key)[k] != c.Coordinator(key) && Others(c, key)[k] in Elements(Others(c, key))
    ensures Others(c, key)[k] in c.replicas(key)
    ensures Elements(Others(c, key)[..k + 1]) == Elements(Others(c, key)[..k]) + {Others(c, key)[k]}
  {
  }

  lemma SameNodes(c: Config, s: State, t: State, op: Op, k: nat, queued: bool)
    requires c.Valid() && k <= |Others(c, op.key)| && Unapplied(c, s, op, k, queued)
    requires s.nodes == t.nodes && s.refused == t.refused
    ensures Unapplied(c, t, op, k, queued)
  {
    assert forall n :: At(t, n) == At(s, n);
  }

  lemma ReceiveUnapplied(c: Config, s: State, op: Op, k: nat, queued: bool)
    requires c.Valid() && k < |Others(c, op.key)| && Unapplied(c, s, op, k, queued)
    requires Enabled(c, s, Receive(0, Others(c, op.key)[k], queued)) && s.writes[0].op == op
    ensures Unapplied(c, Next(c, s, Receive(0, Others(c, op.key)[k], queued)), op, k + 1, queued)
  {
    var n, t := Others(c, op.key)[k], Next(c, s, Receive(0, Others(c, op.key)[k], queued));
    forall m | m != c.Coordinator(op.key)
      ensures op.key !in At(t, m).store && (queued || At(t, m).queue == multiset{})
    {
      assert At(t, m).store == At(s, m).store && (queued || At(t, m).queue == At(s, m).queue);
    }
    assert Others(c, op.key)[..k + 1] == Others(c, op.key)[..k] + [n];
  }

  lemma AckedStep(c: Config, s: State, op: Op, k: nat, queued: bool)
    requires c.Valid() && k < |Others(c, op.key)| && AckedBy(c, s, op, k, queued, None)
    ensures var n := Others(c, op.key)[k];
      && Enabled(c, s, Receive(0, n, queued))
      && (var t := Next(c, s, Receive(0, n, queued));
          && Enabled(c, t, CountAck(0, n))
          && AckedBy(c, Next(c, t, CountAck(0, n)), op, k + 1, queued, None))
  {
    NotCoordinator(c, op.key, k);
    var n := Others(c, op.key)[k];
    ReceiveUnapplied(c, s, op, k, queued);
    var t := Next(c, s, Receive(0, n, queued));
    SameNodes(c, t, Next(c, t, CountAck(0, n)), op, k + 1, queued);
  }

  lemma {:induction false} AckedRun(c: Config, op: Op, k: nat, queued: bool) returns (run: seq<Step>)
    requires c.Valid() && op.key != "" && k <= |Others(c, op.key)|
    ensures Possible(c, run) && AckedBy(c, After(c, run), op, k, queued, None)
  {
    var others := Others(c, op.key);
    if k == 0 {
      var start := StartWrite(op, Elements(others), Elements(others));
      RunStep(c, [], INITIAL, start, Next(c, INITIAL, start));
      run := [] + [start];
      assert others[..0] == [] && Elements(others[..0]) == {};
    } else {
      run := AckedRun(c, op, k - 1, queued);
      var s := After(c, run);
      AckedStep(c, s, op, k - 1, queued);
      var n := others[k - 1];
      var t := Next(c, s, Receive(0, n, queued));
      RunStep(c, run, s, Receive(0, n, queued), t);
      run := run + [Receive(0, n, queued)];
      RunStep(c, run, t, CountAck(0, n), Next(c, t, CountAck(0, n)));
      run := run + [CountAck(0, n)];
    }
  }

  lemma OthersSize(c: Config, key: string, k: nat)
    requires c.Valid() && k <= |Others(c, key)|
    ensures |Elements(Others(c, key)[..k])| == k && |Elements(Others(c, key))| == |c.replicas(key)| - 1
  {
    NoDuplicatesCardinality(Others(c, key)[..k]);
    NoDuplicatesCardinality(Others(c, key));
  }

  /** With W at most N such a write can promise its quorum. */
  lemma AskedEverybody(c: Config, op: Op, acked: set<Node>, outcome: Option<bool>)
    requires c.Valid() && c.writeQuorum <= |c.replicas(op.key)|
    ensures Promises(c, Write(op, Elements(Others(c, op.key)), Elements(Others(c, op.key)), acked, outcome))
  {
    OthersSize(c, op.key, 0);
  }

  /** A write that enough replicas acknowledge can succeed before any of them has applied it. */
  lemma FinishedRun(c: Config, op: Op, k: nat, queued: bool) returns (run: seq<Step>)
    requires c.Valid() && op.key != "" && Required(|Others(c, op.key)|, c.writeQuorum) <= k <= |Others(c, op.key)|
    ensures Possible(c, run) && AckedBy(c, After(c, run), op, k, queued, Some(true))
  {
    run := AckedRun(c, op, k, queued);
    var s := After(c, run);
    OthersSize(c, op.key, k);
    SameNodes(c, s, Next(c, s, FinishWrite(0, true)), op, k, queued);
    RunStep(c, run, s, FinishWrite(0, true), Next(c, s, FinishWrite(0, true)));
    run := run + [FinishWrite(0, true)];
  }

  // ---------------------------------------------------------------- durability

  /** The replicas of a key that hold an operation. */
  function Holders(c: Config, s: State, op: Op): set<Node> {
    set n | n in c.replicas(op.key) && Holds(s, n, op)
  }

  /** Is every successful write of the key that can promise its quorum held by W replicas ever after? */
  ghost predicate Durable(c: Config, key: string) {
    forall run, w: nat :: DurableAt(c, key, run, w)
  }

  ghost predicate DurableAt(c: Config, key: string, run: seq<Step>, w: nat) {
    Possible(c, run) && w < |After(c, run).writes| ==>
      var s := After(c, run); var write := s.writes[w];
      write.op.key == key && write.outcome == Some(true) && Promises(c, write) ==>
        |Holders(c, s, write.op)| >= c.writeQuorum
  }

  /** EXACTLY WHAT ACKNOWLEDGEMENTS ARE WORTH.  As a replica may turn an acknowledged operation away, a
      configuration guarantees that W replicas hold each successful write that can promise them if and only
      if W is at most one, or so large that no write can; otherwise some run ends with the coordinator
      alone. */
  lemma DurableExactly(c: Config, key: string)
    requires c.Valid() && key != ""
    ensures Durable(c, key) <==> c.writeQuorum <= 1 || c.writeQuorum > |c.replicas(key)|
  {
    if c.writeQuorum <= 1 || c.writeQuorum > |c.replicas(key)| {
      forall run, w: nat
        ensures DurableAt(c, key, run, w)
      {
        if Possible(c, run) && w < |After(c, run).writes| {
          CoordinatorHolds(c, run, w);
          if c.writeQuorum > 1 && After(c, run).writes[w].op.key == key {
            NeverPromised(c, run, w, key);
          }
        }
      }
    } else {
      var op := Op(key, SomeItem());
      var run := FinishedRun(c, op, |Others(c, key)|, false);
      AskedEverybody(c, op, After(c, run).writes[0].acked, Some(true));
      OnlyCoordinator(c, After(c, run), op);
      assert !DurableAt(c, key, run, 0);
    }
  }

  /** With W above N no write that could promise its quorum succeeds. */
  lemma NeverPromised(c: Config, run: seq<Step>, w: nat, key: string)
    requires c.Valid() && Possible(c, run) && w < |After(c, run).writes|
    requires After(c, run).writes[w].op.key == key && c.writeQuorum > |c.replicas(key)|
    ensures !(After(c, run).writes[w].outcome == Some(true) && Promises(c, After(c, run).writes[w]))
  {
    if After(c, run).writes[w].outcome == Some(true) && Promises(c, After(c, run).writes[w]) {
      QuorumWrite(c, run, w);
      NoDuplicatesCardinality(c.replicas(key));
      SubsetCardinality(Witnesses(c, After(c, run).writes[w]), Elements(c.replicas(key)));
      assert false;
    }
  }

  function SomeItem(): Item {
    Storage.StoredItem(0, 0, [])
  }

  lemma CoordinatorHolds(c: Config, run: seq<Step>, w: nat)
    requires c.Valid() && Possible(c, run) && w < |After(c, run).writes|
    ensures |Holders(c, After(c, run), After(c, run).writes[w].op)| >= 1
  {
    Reachable(c, run);
    var s := After(c, run);
    assert WriteOk(c, s, w);
    assert c.Coordinator(s.writes[w].op.key) in Holders(c, s, s.writes[w].op);
  }

  lemma OnlyCoordinator(c: Config, s: State, op: Op)
    requires c.Valid() && Unapplied(c, s, op, |Others(c, op.key)|, false)
    ensures |Holders(c, s, op)| <= 1
  {
    var coordinator := c.Coordinator(op.key);
    assert Holders(c, s, op) <= {coordinator};
    SubsetCardinality(Holders(c, s, op), {coordinator});
  }

  /** How many refusals cost how much: after a successful write that can promise its quorum, at least W less
      the number of replicas that turned it away hold it. */
  lemma RefusalsCost(c: Config, run: seq<Step>, w: nat)
    requires c.Valid() && Possible(c, run) && w < |After(c, run).writes|
    requires After(c, run).writes[w].outcome == Some(true) && Promises(c, After(c, run).writes[w])
    ensures var s, write := After(c, run), After(c, run).writes[w];
      |Holders(c, s, write.op)| >= c.writeQuorum - |Refusing(c, s, write)|
  {
    QuorumWrite(c, run, w);
    var s, write := After(c, run), After(c, run).writes[w];
    var witnesses, refusing := Witnesses(c, write), Refusing(c, s, write);
    assert witnesses <= Holders(c, s, write.op) + refusing by {
      forall n | n in witnesses
        ensures n in Holders(c, s, write.op) || n in refusing
      {
        assert n in Elements(c.replicas(write.op.key));
      }
    }
    SubsetCardinality(witnesses, Holders(c, s, write.op) + refusing);
  }

  /** The replicas whose acknowledgement was counted and that turned the operation away. */
  function Refusing(c: Config, s: State, w: Write): set<Node> {
    set n | n in w.acked && (n, w.op) in s.refused
  }

  // ---------------------------------------------------------------- reading

  /** A write, the number of other replicas that acknowledge it, whether they queue it or turn it away, and
      where in the list of others a reader is. */
  datatype Plan = Plan(op: Op, acks: nat, queued: bool, reader: nat)

  ghost predicate Feasible(c: Config, p: Plan)
    requires c.Valid()
  {
    var n := |Others(c, p.op.key)|;
    p.op.key != "" && Required(n, c.writeQuorum) <= p.acks <= n && p.reader < n
  }

  /** `m` replicas from the reader on. */
  function From(c: Config, p: Plan, m: nat): seq<Node>
    requires c.Valid() && p.reader + m <= |Others(c, p.op.key)|
  {
    Others(c, p.op.key)[p.reader..p.reader + m]
  }

  /** The write has succeeded, and the reader and those after it, `m` in all, have answered a read that began
      later; none knew the key. */
  ghost predicate AnsweredBy(c: Config, s: State, p: Plan, m: nat)
    requires c.Valid() && Feasible(c, p) && p.reader + m <= |Others(c, p.op.key)|
  {
    var others := Others(c, p.op.key);
    && s.writes == [Write(p.op, Elements(others), Elements(others), Elements(others[..p.acks]), Some(true))]
    && |s.queries| == 1 && s.queries[0].key == p.op.key && 0 in s.queries[0].after
    && s.queries[0].offered.Keys == Elements(From(c, p, m))
    && (forall n :: n in s.queries[0].offered ==>
      s.queries[0].offered[n].item == None && (p.queued || s.queries[0].offered[n].clean))
    && Unapplied(c, s, p.op, p.acks, p.queued)
  }

  lemma StartedRead(c: Config, s: State, p: Plan)
    requires c.Valid() && Feasible(c, p) && AckedBy(c, s, p.op, p.acks, p.queued, Some(true))
    ensures var step := StartRead(p.op.key, Others(c, p.op.key)[p.reader]);
      Enabled(c, s, step) && AnsweredBy(c, Next(c, s, step), p, 1)
  {
    NotCoordinator(c, p.op.key, p.reader);
    var reader := Others(c, p.op.key)[p.reader];
    assert From(c, p, 1) == [reader];
    assert 0 in Succeeded(s, p.op.key);
    SameNodes(c, s, Next(c, s, StartRead(p.op.key, reader)), p.op, p.acks, p.queued);
  }

  lemma OneMoreFrom(c: Config, p: Plan, m: nat)
    requires c.Valid() && p.reader + m < |Others(c, p.op.key)|
    ensures From(c, p, m + 1) == From(c, p, m) + [Others(c, p.op.key)[p.reader + m]]
    ensures Others(c, p.op.key)[p.reader + m] !in From(c, p, m)
  {
    assert forall i :: 0 <= i < |Others(c, p.op.key)| ==> Others(c, p.op.key)[i] == c.replicas(p.op.key)[i + 1];
  }

  lemma AnsweredStep(c: Config, s: State, p: Plan, m: nat)
    requires c.Valid() && Feasible(c, p) && p.reader + m < |Others(c, p.op.key)| && AnsweredBy(c, s, p, m)
    ensures var step := Respond(0, Others(c, p.op.key)[p.reader + m]);
      Enabled(c, s, step) && AnsweredBy(c, Next(c, s, step), p, m + 1)
  {
    var n := Others(c, p.op.key)[p.reader + m];
    NotCoordinator(c, p.op.key, p.reader + m);
    OneMoreFrom(c, p, m);
    SameNodes(c, s, Next(c, s, Respond(0, n)), p.op, p.acks, p.queued);
  }

  lemma StartedReadRun(c: Config, p: Plan) returns (run: seq<Step>)
    requires c.Valid() && Feasible(c, p)
    ensures Possible(c, run) && AnsweredBy(c, After(c, run), p, 1)
  {
    var before := FinishedRun(c, p.op, p.acks, p.queued);
    var s, step := After(c, before), StartRead(p.op.key, Others(c, p.op.key)[p.reader]);
    StartedRead(c, s, p);
    RunStep(c, before, s, step, Next(c, s, step));
    run := before + [step];
  }

  lemma AnsweredOnce(c: Config, before: seq<Step>, p: Plan, m: nat) returns (run: seq<Step>)
    requires c.Valid() && Feasible(c, p) && m > 1 && p.reader + m <= |Others(c, p.op.key)|
    requires Possible(c, before) && AnsweredBy(c, After(c, before), p, m - 1)
    ensures Possible(c, run) && AnsweredBy(c, After(c, run), p, m)
  {
    var s, step := After(c, before), Respond(0, Others(c, p.op.key)[p.reader + m - 1]);
    AnsweredStep(c, s, p, m - 1);
    RunStep(c, before, s, step, Next(c, s, step));
    run := before + [step];
  }

  lemma AnsweredRun(c: Config, p: Plan, m: nat) returns (run: seq<Step>)
    requires c.Valid() && Feasible(c, p) && m >= 1 && p.reader + m <= |Others(c, p.op.key)|
    ensures Possible(c, run) && AnsweredBy(c, After(c, run), p, m)
  {
    run := StartedReadRun(c, p);
    for i := 1 to m
      invariant Possible(c, run) && AnsweredBy(c, After(c, run), p, i)
    {
      run := AnsweredOnce(c, run, p, i + 1);
    }
  }

  lemma NothingFound(read: Read, responders: seq<Node>)
    requires Elements(responders) <= read.offered.Keys
    requires forall n :: n in read.offered ==> read.offered[n].item == None
    ensures Latest(AnswersOf(read, responders)) == None
  {
    var answers := AnswersOf(read, responders);
    LatestIsMaximum(answers);
    forall i | 0 <= i < |answers|
      ensures answers[i] == None
    {
      assert responders[i] in Elements(responders);
    }
  }

  lemma PlannedRead(c: Config, p: Plan) returns (run: seq<Step>, responders: seq<Node>)
    requires c.Valid() && Feasible(c, p) && c.readQuorum >= 1 && p.reader + c.readQuorum <= |Others(c, p.op.key)|
    ensures Possible(c, run) && AnsweredBy(c, After(c, run), p, c.readQuorum)
    ensures responders == From(c, p, c.readQuorum)
    ensures Collected(c, After(c, run).queries[0], responders)
    ensures Latest(AnswersOf(After(c, run).queries[0], responders)) == None
  {
    run := AnsweredRun(c, p, c.readQuorum);
    responders := From(c, p, c.readQuorum);
    assert forall i :: 0 <= i < |responders| ==> responders[i] == c.replicas(p.op.key)[p.reader + i + 1];
    NothingFound(After(c, run).queries[0], responders);
  }

  /** READS CAN BE STALE wherever R is less than N: in every such configuration, however large W, a run of a
      write that all replicas acknowledge and that succeeds, and of a read that begins later, collects R
      distinct answers, and finds nothing. */
  lemma StaleRead(c: Config, op: Op) returns (run: seq<Step>, responders: seq<Node>)
    requires c.Valid() && op.key != "" && 1 <= c.readQuorum < |c.replicas(op.key)|
    ensures Possible(c, run) && |After(c, run).writes| == 1 && |After(c, run).queries| == 1
    ensures After(c, run).writes[0].op == op && After(c, run).writes[0].acked == Elements(c.replicas(op.key)[1..])
    ensures c.writeQuorum <= |c.replicas(op.key)| ==> Promises(c, After(c, run).writes[0])
    ensures var read := After(c, run).queries[0];
      && read.key == op.key && 0 in read.after
      && Collected(c, read, responders) && |responders| == c.readQuorum
      && Latest(AnswersOf(read, responders)) == None
  {
    run, responders := PlannedRead(c, Plan(op, |Others(c, op.key)|, true, 0));
    assert Others(c, op.key)[..|Others(c, op.key)|] == Others(c, op.key);
    if c.writeQuorum <= |c.replicas(op.key)| {
      AskedEverybody(c, op, After(c, run).writes[0].acked, Some(true));
    }
  }

  /** With W + R at most N: a write acknowledged by the first W - 1 others, and a read of the R after them, where
      nothing is queued and nothing was turned away. */
  lemma CleanStaleRead(c: Config, op: Op) returns (run: seq<Step>, responders: seq<Node>)
    requires c.Valid() && op.key != "" && c.writeQuorum >= 1 && c.readQuorum >= 1
    requires c.writeQuorum + c.readQuorum <= |c.replicas(op.key)|
    ensures Possible(c, run) && |After(c, run).writes| == 1 && |After(c, run).queries| == 1
    ensures After(c, run).writes[0].op == op && Promises(c, After(c, run).writes[0])
    ensures var s, read := After(c, run), After(c, run).queries[0];
      && read.key == op.key && 0 in read.after && Collected(c, read, responders)
      && AnsweredClean(s, s.writes[0], read, responders)
      && Latest(AnswersOf(read, responders)) == None
  {
    var p := Plan(op, c.writeQuorum - 1, false, c.writeQuorum - 1);
    run, responders := PlannedRead(c, p);
    AskedEverybody(c, op, After(c, run).writes[0].acked, Some(true));
    Untouched(c, p, c.readQuorum);
  }

  /** Where the reader comes after those that acknowledged, nobody is both. */
  lemma Untouched(c: Config, p: Plan, m: nat)
    requires c.Valid() && p.acks <= p.reader && p.reader + m <= |Others(c, p.op.key)|
    ensures forall n :: n in From(c, p, m) ==> n !in Others(c, p.op.key)[..p.acks]
  {
    assert forall i :: 0 <= i < |Others(c, p.op.key)| ==> Others(c, p.op.key)[i] == c.replicas(p.op.key)[i + 1];
  }

  /** Does every read of the key that collects its answers return what had succeeded before it began?
      Versions below zero count as nothing anyway. */
  ghost predicate ReadsSee(c: Config, key: string) {
    forall run, w: nat, r: nat, responders :: SeenAt(c, key, run, w, r, responders)
  }

  ghost predicate SeenAt(c: Config, key: string, run: seq<Step>, w: nat, r: nat, responders: seq<Node>) {
    && Possible(c, run) && w < |After(c, run).writes| && r < |After(c, run).queries| ==>
      var write, read := After(c, run).writes[w], After(c, run).queries[r];
      && read.key == key && w in read.after && write.op.item.version >= 0 && Collected(c, read, responders) ==>
        ReturnsAtLeast(read, responders, write.op)
  }

  lemma AllReplicas(c: Config, read: Read, responders: seq<Node>)
    requires c.Valid() && Collected(c, read, responders) && read.offered.Keys <= Elements(c.replicas(read.key))
    requires |responders| >= |c.replicas(read.key)|
    ensures c.Coordinator(read.key) in responders
  {
    NoDuplicatesCardinality(responders);
    NoDuplicatesCardinality(c.replicas(read.key));
    if c.Coordinator(read.key) !in responders {
      var rest := Elements(c.replicas(read.key)) - {c.Coordinator(read.key)};
      assert c.Coordinator(read.key) in Elements(c.replicas(read.key));
      assert Elements(responders) <= rest;
      SubsetCardinality(Elements(responders), rest);
    }
  }

  /** EXACTLY WHEN READS SEE WRITES.  In every run every read that collects R distinct answers, or all there
      are, returns every write that succeeded before it began, if and only if R is at least N, however
      large W is: only the coordinator is sure to have applied the write.  (A read quorum below one is
      replaced by the default.) */
  lemma ReadsExactly(c: Config, key: string)
    requires c.Valid() && key != "" && c.readQuorum >= 1
    ensures ReadsSee(c, key) <==> c.readQuorum >= |c.replicas(key)|
  {
    if c.readQuorum >= |c.replicas(key)| {
      forall run, w: nat, r: nat, responders
        ensures SeenAt(c, key, run, w, r, responders)
      {
        FullReadSees(c, key, run, w, r, responders);
      }
    } else {
      var op := Op(key, SomeItem());
      var run, responders := StaleRead(c, op);
      assert !SeenAt(c, key, run, 0, 0, responders);
    }
  }

  lemma FullReadSees(c: Config, key: string, run: seq<Step>, w: nat, r: nat, responders: seq<Node>)
    requires c.Valid() && c.readQuorum >= |c.replicas(key)|
    ensures SeenAt(c, key, run, w, r, responders)
  {
    if Possible(c, run) && w < |After(c, run).writes| && r < |After(c, run).queries| {
      var read := After(c, run).queries[r];
      if read.key == key && w in read.after && Collected(c, read, responders) {
        Reachable(c, run);
        assert ReadOk(c, After(c, run), r);
        AllReplicas(c, read, responders);
        CoordinatorAnswerSuffices(c, run, w, r, responders);
      }
    }
  }

  /** Does every read of the key whose answers are clean return what had succeeded, under a promise of its
      quorum, before it began? */
  ghost predicate CleanReadsSee(c: Config, key: string) {
    forall run, w: nat, r: nat, responders :: CleanSeenAt(c, key, run, w, r, responders)
  }

  ghost predicate CleanSeenAt(c: Config, key: string, run: seq<Step>, w: nat, r: nat, responders: seq<Node>) {
    Possible(c, run) && w < |After(c, run).writes| && r < |After(c, run).queries| ==>
      (var s, write, read := After(c, run), After(c, run).writes[w], After(c, run).queries[r];
       Promises(c, write) && AnsweredClean(s, write, read, responders) ==> SeenAt(c, key, run, w, r, responders))
  }

  /** EXACTLY WHEN QUORUMS MEET.  Reads with clean answers see every successful write that can promise its
      quorum if and only if W + R > N.  (Quorums below one are replaced by the defaults.) */
  lemma CleanReadsExactly(c: Config, key: string)
    requires c.Valid() && key != "" && c.writeQuorum >= 1 && c.readQuorum >= 1
    ensures CleanReadsSee(c, key) <==> c.writeQuorum + c.readQuorum > |c.replicas(key)|
  {
    if c.writeQuorum + c.readQuorum > |c.replicas(key)| {
      forall run, w: nat, r: nat, responders
        ensures CleanSeenAt(c, key, run, w, r, responders)
      {
        CleanReadSees(c, key, run, w, r, responders);
      }
    } else {
      var op := Op(key, SomeItem());
      var run, responders := CleanStaleRead(c, op);
      assert !CleanSeenAt(c, key, run, 0, 0, responders);
    }
  }

  lemma CleanReadSees(c: Config, key: string, run: seq<Step>, w: nat, r: nat, responders: seq<Node>)
    requires c.Valid() && c.writeQuorum + c.readQuorum > |c.replicas(key)|
    ensures CleanSeenAt(c, key, run, w, r, responders)
  {
    if Possible(c, run) && w < |After(c, run).writes| && r < |After(c, run).queries| {
      var s, write, read := After(c, run), After(c, run).writes[w], After(c, run).queries[r];
      if read.key == key && w in read.after && write.op.item.version >= 0 && Collected(c, read, responders)
         && AllClean(c, s, write, read, responders) {
        QuorumRead(c, run, w, r, responders);
      }
    }
  }
}
