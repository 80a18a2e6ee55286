/** The loops of the quorum protocol: counting acknowledgements, collecting answers, serving messages. */
module Coordination {
  import opened Prelude
  import opened LastWriteWins
  import opened Quorum
  import QuorumLimits
  import Storage
  import HashRing
  import RingStore

  // ---------------------------------------------------------------- who holds a key

  /** The replicas of a key are its preference list on the ring. */
  ghost function OnRing(r: HashRing.Ring, hash: string -> uint32, n: nat, writeQuorum: nat, readQuorum: nat): Config {
    Config(key => HashRing.Preference(r, hash(key), n), writeQuorum, readQuorum)
  }

  /** A ring with at least one member, none of its virtual nodes lost, is a valid configuration: every key
      has a coordinator, its owner on the ring, and as many distinct replicas as asked for, or everybody. */
  lemma RingConfigures(p: HashRing.Placement, r: HashRing.Ring, hash: string -> uint32, n: nat, w: nat, q: nat)
    requires HashRing.Faithful(p, r) && r.nodes != {} && n >= 1
    requires forall x :: x in r.nodes ==> p(x) != []
    ensures var c := OnRing(r, hash, n, w, q);
      && c.Valid()
      && forall key :: (
        && |c.replicas(key)| == (if n <= |r.nodes| then n else |r.nodes|)
        && Elements(c.replicas(key)) <= r.nodes
        && c.Coordinator(key) == HashRing.Primary(r, hash(key)))
  {
    var c := OnRing(r, hash, n, w, q);
    forall key
      ensures c.replicas(key) != [] && NoDuplicates(c.replicas(key)) && Elements(c.replicas(key)) <= r.nodes
      ensures |c.replicas(key)| == if n <= |r.nodes| then n else |r.nodes|
      ensures c.replicas(key)[0] == HashRing.Primary(r, hash(key))
    {
      HashRing.PreferenceMembers(p, r, hash(key), n);
      HashRing.PreferenceLength(p, r, hash(key), n);
      if r.keys != [] {
        HashRing.FirstIsPrimary(p, r, hash(key));
      }
    }
  }

  // ---------------------------------------------------------------- writing

  /** What the acknowledgement channel yields: a verdict on one target, or the end of patience. */
  datatype AckEvent = Verdict(ok: bool) | Timeout

  /** The verdicts read before patience ends, at most `limit` of them. */
  function Heard(arrivals: seq<AckEvent>, limit: nat): seq<AckEvent> {
    if arrivals == [] || limit == 0 || arrivals[0].Timeout? then []
    else [arrivals[0]] + Heard(arrivals[1..], limit - 1)
  }

  function Positive(heard: seq<AckEvent>): nat {
    if heard == [] then 0
    else Positive(heard[1..]) + if heard[0] == Verdict(true) then 1 else 0
  }

  /** The replicas that can be asked, in preference order. */
  function Live(replicaIDs: seq<Node>, alive: set<Node>): seq<Node> {
    if replicaIDs == [] then []
    else (if replicaIDs[0] in alive then [replicaIDs[0]] else []) + Live(replicaIDs[1..], alive)
  }

  /** Those of them for which the worker pool takes the request. */
  function Accepted(targets: seq<Node>, poolTakes: Node -> bool): nat {
    if targets == [] then 0
    else Accepted(targets[1..], poolTakes) + if poolTakes(targets[0]) then 1 else 0
  }

  function Taken(targets: seq<Node>, poolTakes: Node -> bool): seq<Node> {
    if targets == [] then []
    else (if poolTakes(targets[0]) then [targets[0]] else []) + Taken(targets[1..], poolTakes)
  }

  /** Could nobody be asked, or were enough of the verdicts heard positive? */
  predicate Acknowledged(replicaIDs: seq<Node>, alive: set<Node>, poolTakes: Node -> bool, writeQuorum: int,
                         arrivals: seq<AckEvent>) {
    var targets := Live(replicaIDs, alive);
    var sent := Accepted(targets, poolTakes);
    |targets| == 0 || sent == 0 || Positive(Heard(arrivals, sent)) >= Required(|targets|, writeQuorum)
  }

  /** The positions of the positive verdicts among the first `k` arrivals. */
  function PositiveAt(arrivals: seq<AckEvent>, k: nat): set<nat> {
    set i: nat | i < k && i < |arrivals| && arrivals[i] == Verdict(true)
  }

  /** Enough positive verdicts come in among the first `limit` arrivals, before any timeout. */
  ghost predicate Confirmed(arrivals: seq<AckEvent>, limit: nat, required: int) {
    exists k: nat :: k <= limit && k <= |arrivals| && (forall i :: 0 <= i < k ==> arrivals[i].Verdict?)
                     && |PositiveAt(arrivals, k)| >= required
  }

  /** What is heard is the longest beginning of the arrivals without a timeout that the limit allows. */
  lemma {:induction false} HeardPrefix(arrivals: seq<AckEvent>, limit: nat)
    ensures var m := |Heard(arrivals, limit)|;
      && m <= limit && m <= |arrivals| && Heard(arrivals, limit) == arrivals[..m]
      && (forall i :: 0 <= i < m ==> arrivals[i].Verdict?)
      && (m == limit || m == |arrivals| || arrivals[m].Timeout?)
  {
    if !(arrivals == [] || limit == 0 || arrivals[0].Timeout?) {
      HeardPrefix(arrivals[1..], limit - 1);
    }
  }

  lemma {:induction false} PositiveAppend(heard: seq<AckEvent>, last: AckEvent)
    ensures Positive(heard + [last]) == Positive(heard) + if last == Verdict(true) then 1 else 0
  {
    if heard != [] {
      assert (heard + [last])[1..] == heard[1..] + [last];
      PositiveAppend(heard[1..], last);
    }
  }

  lemma {:induction false} PositiveCount(arrivals: seq<AckEvent>, k: nat)
    requires k <= |arrivals|
    ensures Positive(arrivals[..k]) == |PositiveAt(arrivals, k)|
    decreases k
  {
    if k == 0 {
      assert PositiveAt(arrivals, 0) == {};
    } else {
      PositiveCount(arrivals, k - 1);
      assert arrivals[..k] == arrivals[..k - 1] + [arrivals[k - 1]];
      PositiveAppend(arrivals[..k - 1], arrivals[k - 1]);
      assert PositiveAt(arrivals, k) ==
        PositiveAt(arrivals, k - 1) + if arrivals[k - 1] == Verdict(true) then {k - 1} else {};
    }
  }

  /** The verdicts heard suffice if and only if enough positive ones come in before patience ends. */
  lemma HeardMeans(arrivals: seq<AckEvent>, limit: nat, required: int)
    ensures Positive(Heard(arrivals, limit)) >= required <==> Confirmed(arrivals, limit, required)
  {
    HeardPrefix(arrivals, limit);
    var m := |Heard(arrivals, limit)|;
    PositiveCount(arrivals, m);
    if k: nat :| k <= limit && k <= |arrivals| && (forall i :: 0 <= i < k ==> arrivals[i].Verdict?)
                 && |PositiveAt(arrivals, k)| >= required {
      assert k <= m;
      SubsetCardinality(PositiveAt(arrivals, k), PositiveAt(arrivals, m));
    }
  }

  /** The positions, among the first `k`, of the replicas found alive, and of those whose request the pool
      takes. */
  function AliveAt(replicaIDs: seq<Node>, k: nat, alive: set<Node>): set<nat> {
    set i: nat | i < k && i < |replicaIDs| && replicaIDs[i] in alive
  }

  function AskedAt(replicaIDs: seq<Node>, k: nat, alive: set<Node>, poolTakes: Node -> bool): set<nat> {
    set i: nat | i < k && i < |replicaIDs| && replicaIDs[i] in alive && poolTakes(replicaIDs[i])
  }

  lemma {:induction false} LiveAppend(replicaIDs: seq<Node>, last: Node, alive: set<Node>, poolTakes: Node -> bool)
    ensures |Live(replicaIDs + [last], alive)| == |Live(replicaIDs, alive)| + if last in alive then 1 else 0
    ensures Accepted(Live(replicaIDs + [last], alive), poolTakes) ==
      Accepted(Live(replicaIDs, alive), poolTakes) + if last in alive && poolTakes(last) then 1 else 0
  {
    if replicaIDs == [] {
      assert [last][1..] == [];
      assert [] + [last] == [last];
    } else {
      assert (replicaIDs + [last])[1..] == replicaIDs[1..] + [last];
      LiveAppend(replicaIDs[1..], last, alive, poolTakes);
      LiveFirst(replicaIDs, alive, poolTakes);
      LiveFirst(replicaIDs + [last], alive, poolTakes);
    }
  }

  lemma LiveFirst(replicaIDs: seq<Node>, alive: set<Node>, poolTakes: Node -> bool)
    requires replicaIDs != []
    ensures |Live(replicaIDs, alive)| == |Live(replicaIDs[1..], alive)| + if replicaIDs[0] in alive then 1 else 0
    ensures Accepted(Live(replicaIDs, alive), poolTakes) == Accepted(Live(replicaIDs[1..], alive), poolTakes)
      + if replicaIDs[0] in alive && poolTakes(replicaIDs[0]) then 1 else 0
  {
    if replicaIDs[0] in alive {
      assert Live(replicaIDs, alive) == [replicaIDs[0]] + Live(replicaIDs[1..], alive);
      assert Live(replicaIDs, alive)[1..] == Live(replicaIDs[1..], alive);
    } else {
      assert Live(replicaIDs, alive) == Live(replicaIDs[1..], alive);
    }
  }

  lemma {:induction false} LiveCount(replicaIDs: seq<Node>, alive: set<Node>, poolTakes: Node -> bool, k: nat)
    requires k <= |replicaIDs|
    ensures |Live(replicaIDs[..k], alive)| == |AliveAt(replicaIDs, k, alive)|
    ensures Accepted(Live(replicaIDs[..k], alive), poolTakes) == |AskedAt(replicaIDs, k, alive, poolTakes)|
    decreases k
  {
    if k == 0 {
      assert AliveAt(replicaIDs, 0, alive) == {} && AskedAt(replicaIDs, 0, alive, poolTakes) == {};
    } else {
      LiveCount(replicaIDs, alive, poolTakes, k - 1);
      assert replicaIDs[..k] == replicaIDs[..k - 1] + [replicaIDs[k - 1]];
      LiveAppend(replicaIDs[..k - 1], replicaIDs[k - 1], alive, poolTakes);
      OneMoreAlive(replicaIDs, k - 1, alive);
      OneMoreAsked(replicaIDs, k - 1, alive, poolTakes);
    }
  }

  lemma OneMoreAlive(replicaIDs: seq<Node>, k: nat, alive: set<Node>)
    requires k < |replicaIDs|
    ensures |AliveAt(replicaIDs, k + 1, alive)| == |AliveAt(replicaIDs, k, alive)| + if replicaIDs[k] in alive then 1 else 0
  {
    assert AliveAt(replicaIDs, k + 1, alive) == AliveAt(replicaIDs, k, alive) + if replicaIDs[k] in alive then {k} else {};
  }

  lemma OneMoreAsked(replicaIDs: seq<Node>, k: nat, alive: set<Node>, poolTakes: Node -> bool)
    requires k < |replicaIDs|
    ensures |AskedAt(replicaIDs, k + 1, alive, poolTakes)| ==
      |AskedAt(replicaIDs, k, alive, poolTakes)| + if replicaIDs[k] in alive && poolTakes(replicaIDs[k]) then 1 else 0
  {
    assert AskedAt(replicaIDs, k + 1, alive, poolTakes) ==
      AskedAt(replicaIDs, k, alive, poolTakes) + if replicaIDs[k] in alive && poolTakes(replicaIDs[k]) then {k} else {};
  }

  /** WHEN A WRITE IS ACKNOWLEDGED, by counting: T of the replicas are alive, and the pool takes the requests of
      S of them; if either is none the write succeeds at once, and otherwise W - 1 positive verdicts, or T if
      that is fewer, must be among the first S, before time is up. */
  lemma AcknowledgedMeans(replicaIDs: seq<Node>, alive: set<Node>, poolTakes: Node -> bool, writeQuorum: int,
                          arrivals: seq<AckEvent>)
    ensures var n := |replicaIDs|;
      var t, s := |AliveAt(replicaIDs, n, alive)|, |AskedAt(replicaIDs, n, alive, poolTakes)|;
      Acknowledged(replicaIDs, alive, poolTakes, writeQuorum, arrivals) <==>
        t == 0 || s == 0 || Confirmed(arrivals, s, if t < writeQuorum - 1 then t else writeQuorum - 1)
  {
    assert replicaIDs[..|replicaIDs|] == replicaIDs;
    LiveCount(replicaIDs, alive, poolTakes, |replicaIDs|);
    var n := |replicaIDs|;
    var t, s := |AliveAt(replicaIDs, n, alive)|, |AskedAt(replicaIDs, n, alive, poolTakes)|;
    HeardMeans(arrivals, s, if t < writeQuorum - 1 then t else writeQuorum - 1);
  }

  /** Replicates to the live replicas and waits.  `arrivals` lists what the channel will yield, the
      failures of rejected requests included; a channel that runs dry is a timeout. */
  method ReplicateToNodes(replicaIDs: seq<Node>, alive: set<Node>, poolTakes: Node -> bool, writeQuorum: int,
                          arrivals: seq<AckEvent>)
    returns (ok: bool)
    ensures ok <==> Acknowledged(replicaIDs, alive, poolTakes, writeQuorum, arrivals)
    ensures var n := |replicaIDs|;
      var t, s := |AliveAt(replicaIDs, n, alive)|, |AskedAt(replicaIDs, n, alive, poolTakes)|;
      ok <==> t == 0 || s == 0 || Confirmed(arrivals, s, if t < writeQuorum - 1 then t else writeQuorum - 1)
  {
    AcknowledgedMeans(replicaIDs, alive, poolTakes, writeQuorum, arrivals);
    if |replicaIDs| == 0 {
      return true;
    }
    var targets := FindLive(replicaIDs, alive);
    var required := writeQuorum - 1;
    if |targets| == 0 {
      return true;
    }
    if |targets| < required {
      required := |targets|;
    }
    var sentCount := SubmitAll(targets, poolTakes);
    if sentCount == 0 {
      return true;
    }
    ok := AwaitQuorum(required, sentCount, arrivals);
  }

  method FindLive(replicaIDs: seq<Node>, alive: set<Node>) returns (targets: seq<Node>)
    ensures targets == Live(replicaIDs, alive)
  {
    targets := [];
    for i := 0 to |replicaIDs|
      invariant targets + Live(replicaIDs[i..], alive) == Live(replicaIDs, alive)
    {
      if replicaIDs[i] in alive {
        targets := targets + [replicaIDs[i]];
      }
    }
  }

  method SubmitAll(targets: seq<Node>, poolTakes: Node -> bool) returns (sentCount: nat)
    ensures sentCount == Accepted(targets, poolTakes)
  {
    sentCount := 0;
    for i := 0 to |targets|
      invariant sentCount + Accepted(targets[i..], poolTakes) == Accepted(targets, poolTakes)
    {
      if poolTakes(targets[i]) {
        sentCount := sentCount + 1;
      }
    }
  }

  /** Reads verdicts until enough are positive, all senders have answered, or time is up. */
  method AwaitQuorum(required: int, maxWait: nat, arrivals: seq<AckEvent>) returns (ok: bool)
    ensures ok <==> Positive(Heard(arrivals, maxWait)) >= required
    ensures ok <==> Confirmed(arrivals, maxWait, required)
  {
    HeardMeans(arrivals, maxWait, required);
    var acks, responses, next := 0, 0, arrivals;
    while acks < required && responses < maxWait
      invariant 0 <= acks && 0 <= responses <= maxWait
      invariant acks + Positive(Heard(next, maxWait - responses)) == Positive(Heard(arrivals, maxWait))
      decreases maxWait - responses
    {
      if next == [] || next[0].Timeout? {
        return acks >= required;
      }
      var verdict := next[0];
      next := next[1..];
      responses := responses + 1;
      if verdict.ok {
        acks := acks + 1;
      }
      if acks >= required {
        return true;
      }
    }
    return acks >= required;
  }

  // ---------------------------------------------------------------- a call is a run of the protocol

  /** What one replica's request came to: an acknowledgement received from it, or a failure or rejection. */
  datatype Reply = Reply(node: Node, ok: bool)

  function Verdicts(replies: seq<Reply>): seq<AckEvent> {
    if replies == [] then [] else [Verdict(replies[0].ok)] + Verdicts(replies[1..])
  }

  function OkNodes(replies: seq<Reply>): set<Node> {
    if replies == [] then {} else (if replies[0].ok then {replies[0].node} else {}) + OkNodes(replies[1..])
  }

  /** Each replica replies at most once. */
  ghost predicate OneEach(replies: seq<Reply>) {
    forall i, j :: 0 <= i < j < |replies| ==> replies[i].node != replies[j].node
  }

  lemma {:induction false} OkNodesFrom(replies: seq<Reply>)
    ensures forall n :: n in OkNodes(replies) <==> exists i :: 0 <= i < |replies| && replies[i] == Reply(n, true)
  {
    if replies != [] {
      OkNodesFrom(replies[1..]);
      forall n
        ensures n in OkNodes(replies) <==> exists i :: 0 <= i < |replies| && replies[i] == Reply(n, true)
      {
        if i :| 0 <= i < |replies[1..]| && replies[1..][i] == Reply(n, true) {
          assert replies[i + 1] == Reply(n, true);
        }
        if i :| 1 <= i < |replies| && replies[i] == Reply(n, true) {
          assert replies[1..][i - 1] == Reply(n, true);
        }
      }
    }
  }

  lemma FirstNotLater(replies: seq<Reply>, limit: nat)
    requires OneEach(replies) && replies != []
    ensures replies[0].node !in OkNodes(Take(replies[1..], limit))
  {
    var later := Take(replies[1..], limit);
    OkNodesFrom(later);
    assert forall i :: 0 <= i < |later| ==> later[i] == replies[i + 1];
  }

  /** The verdicts heard are those of the first replies, and the positive ones count distinct replicas. */
  lemma {:induction false} HeardReplies(replies: seq<Reply>, limit: nat)
    requires OneEach(replies)
    ensures Positive(Heard(Verdicts(replies), limit)) == |OkNodes(Take(replies, limit))|
  {
    if replies != [] && limit > 0 {
      CountFirst(replies, limit);
      HeardReplies(replies[1..], limit - 1);
      HeardFirst(replies, limit);
    }
  }

  lemma CountFirst(replies: seq<Reply>, limit: nat)
    requires OneEach(replies) && replies != [] && limit > 0
    ensures OneEach(replies[1..])
    ensures |OkNodes(Take(replies, limit))| ==
      |OkNodes(Take(replies[1..], limit - 1))| + if replies[0].ok then 1 else 0
  {
    FirstNotLater(replies, limit - 1);
    TakeFirst(replies, limit);
  }

  lemma HeardFirst(replies: seq<Reply>, limit: nat)
    requires replies != [] && limit > 0
    ensures Positive(Heard(Verdicts(replies), limit)) ==
      Positive(Heard(Verdicts(replies[1..]), limit - 1)) + if replies[0].ok then 1 else 0
  {
    var heard := Heard(Verdicts(replies[1..]), limit - 1);
    assert Heard(Verdicts(replies), limit) == [Verdict(replies[0].ok)] + heard;
    assert ([Verdict(replies[0].ok)] + heard)[1..] == heard;
  }

  lemma TakeFirst(replies: seq<Reply>, limit: nat)
    requires replies != [] && limit > 0
    ensures OkNodes(Take(replies, limit)) ==
      (if replies[0].ok then {replies[0].node} else {}) + OkNodes(Take(replies[1..], limit - 1))
  {
    assert Take(replies, limit)[1..] == Take(replies[1..], limit - 1);
  }

  /** Counting acknowledgements one after the other. */
  lemma {:induction false} CountedRun(c: Config, before: seq<Step>, w: nat, replies: seq<Reply>) returns (run: seq<Step>)
    requires Possible(c, before) && w < |After(c, before).writes| && After(c, before).writes[w].outcome.None?
    requires forall n :: n in OkNodes(replies) ==> (w, n) in After(c, before).acks
    ensures before <= run && Possible(c, run)
    ensures var s, t := After(c, before), After(c, run);
      t == s.(writes := s.writes[w := s.writes[w].(acked := s.writes[w].acked + OkNodes(replies))])
    decreases |replies|
  {
    run := before;
    if replies == [] {
      var s := After(c, run);
      assert s.writes[w].acked + {} == s.writes[w].acked;
      assert s.writes[w := s.writes[w]] == s.writes;
    } else {
      var s := After(c, before);
      if replies[0].ok {
        run := StepRun(c, before, CountAck(w, replies[0].node));
      }
      var t := After(c, run);
      run := CountedRun(c, run, w, replies[1..]);
      assert s.writes[w].acked + OkNodes(replies) == t.writes[w].acked + OkNodes(replies[1..]);
    }
  }

  lemma StepRun(c: Config, before: seq<Step>, step: Step) returns (run: seq<Step>)
    requires Possible(c, before) && Enabled(c, After(c, before), step)
    ensures before <= run && Possible(c, run) && After(c, run) == Next(c, After(c, before), step)
  {
    run := before + [step];
    assert run[..|run| - 1] == before;
  }

  /** A SUCCESSFUL CALL IS A QUORUM WRITE.  Whenever the loops of a coordinator that stored a higher version
      report success, from replies each of which is an acknowledgement its replica sent or a failure, the run
      of the protocol extends by counting the replies heard and finishing the write; and if the write can
      promise its quorum, W distinct replicas of its key then hold it or turned it away. */
  lemma SuccessfulCall(c: Config, before: seq<Step>, w: nat, alive: set<Node>, poolTakes: Node -> bool, replies: seq<Reply>)
    returns (run: seq<Step>)
    requires c.Valid() && Possible(c, before) && w < |After(c, before).writes|
    requires After(c, before).writes[w].outcome.None? && After(c, before).writes[w].acked == {}
    requires var write := After(c, before).writes[w]; var others := c.replicas(write.op.key)[1..];
      && write.targets == Elements(Live(others, alive))
      && write.sentTo == Elements(Taken(Live(others, alive), poolTakes))
      && Acknowledged(others, alive, poolTakes, c.writeQuorum, Verdicts(replies))
    requires OneEach(replies) && forall n :: n in OkNodes(replies) ==> (w, n) in After(c, before).acks
    ensures before <= run && Possible(c, run) && w < |After(c, run).writes|
    ensures var s, write := After(c, run), After(c, run).writes[w];
      && write.op == After(c, before).writes[w].op && write.outcome == Some(true)
      && write.acked <= OkNodes(replies)
      && (Promises(c, write) ==>
            && |Witnesses(c, write)| >= c.writeQuorum && Witnesses(c, write) <= Elements(c.replicas(write.op.key))
            && forall n :: n in Witnesses(c, write) ==> Holds(s, n, write.op) || (n, write.op) in s.refused)
  {
    var write := After(c, before).writes[w];
    var others := c.replicas(write.op.key)[1..];
    var sent := Accepted(Live(others, alive), poolTakes);
    TakeOk(replies, sent);
    run := CountedRun(c, before, w, Take(replies, sent));
    var counted := After(c, run).writes[w];
    assert counted.acked == OkNodes(Take(replies, sent));
    AcknowledgedSucceeds(c, counted, alive, poolTakes, replies);
    run := StepRun(c, run, FinishWrite(w, true));
    if Promises(c, After(c, run).writes[w]) {
      QuorumWrite(c, run, w);
    }
  }

  lemma TakeOk(replies: seq<Reply>, limit: nat)
    ensures OkNodes(Take(replies, limit)) <= OkNodes(replies)
  {
    OkNodesFrom(replies);
    OkNodesFrom(Take(replies, limit));
    forall n | n in OkNodes(Take(replies, limit))
      ensures n in OkNodes(replies)
    {
      var i :| 0 <= i < |Take(replies, limit)| && Take(replies, limit)[i] == Reply(n, true);
      assert replies[i] == Reply(n, true);
    }
  }

  /** A success of the loops is a success in the protocol's sense. */
  lemma AcknowledgedSucceeds(c: Config, w: Write, alive: set<Node>, poolTakes: Node -> bool, replies: seq<Reply>)
    requires c.Valid() && OneEach(replies)
    requires var others := c.replicas(w.op.key)[1..]; var live := Live(others, alive);
      && w.targets == Elements(live) && w.sentTo == Elements(Taken(live, poolTakes))
      && w.acked == OkNodes(Take(replies, Accepted(live, poolTakes)))
      && Acknowledged(others, alive, poolTakes, c.writeQuorum, Verdicts(replies))
    ensures Succeeds(c, w)
  {
    var live := Live(c.replicas(w.op.key)[1..], alive);
    LiveDistinct(c.replicas(w.op.key)[1..], alive);
    NoDuplicatesCardinality(live);
    HeardReplies(replies, Accepted(live, poolTakes));
    TakenAccepted(live, poolTakes);
    assert Accepted(live, poolTakes) == 0 ==> Elements(Taken(live, poolTakes)) == {};
  }

  lemma {:induction false} TakenAccepted(targets: seq<Node>, poolTakes: Node -> bool)
    ensures |Taken(targets, poolTakes)| == Accepted(targets, poolTakes)
    ensures forall n :: n in Taken(targets, poolTakes) <==> n in targets && poolTakes(n)
  {
    if targets != [] {
      TakenAccepted(targets[1..], poolTakes);
      assert targets == [targets[0]] + targets[1..];
    }
  }

  /** Storing a higher version at the coordinator and submitting the requests begins a write of the protocol,
      of which no acknowledgement is counted yet. */
  lemma CallBegins(c: Config, before: seq<Step>, op: Op, alive: set<Node>, poolTakes: Node -> bool)
    returns (run: seq<Step>)
    requires c.Valid() && Possible(c, before) && op.key != ""
    requires !Outdated(At(After(c, before), c.Coordinator(op.key)).store, op)
    ensures before <= run && Possible(c, run)
    ensures var s, w := After(c, run), |After(c, before).writes|; var live := Live(c.replicas(op.key)[1..], alive);
      && |s.writes| == w + 1
      && s.writes[w] == Write(op, Elements(live), Elements(Taken(live, poolTakes)), {}, None)
  {
    var live := Live(c.replicas(op.key)[1..], alive);
    LiveDistinct(c.replicas(op.key)[1..], alive);
    TakenAccepted(live, poolTakes);
    run := StepRun(c, before, StartWrite(op, Elements(live), Elements(Taken(live, poolTakes))));
  }

  lemma {:induction false} LiveDistinct(replicaIDs: seq<Node>, alive: set<Node>)
    requires NoDuplicates(replicaIDs)
    ensures NoDuplicates(Live(replicaIDs, alive))
    ensures forall n :: n in Live(replicaIDs, alive) <==> n in replicaIDs && n in alive
  {
    if replicaIDs != [] {
      var rest := replicaIDs[1..];
      LiveDistinct(rest, alive);
      assert replicaIDs == [replicaIDs[0]] + rest;
      assert replicaIDs[0] !in rest;
    }
  }

  // ---------------------------------------------------------------- rejected requests

  function Min(a: nat, b: nat): nat {
    if a < b then a else b
  }

  /** All replies are in: `acks` positive verdicts and `rejections` failures, in any order. */
  ghost predicate AllIn(arrivals: seq<AckEvent>, acks: nat, rejections: nat) {
    && |arrivals| == acks + rejections && Positive(arrivals) == acks
    && forall i :: 0 <= i < |arrivals| ==> arrivals[i].Verdict?
  }

  lemma {:induction false} PositiveBound(arrivals: seq<AckEvent>)
    ensures Positive(arrivals) <= |arrivals|
  {
    if arrivals != [] {
      PositiveBound(arrivals[1..]);
    }
  }

  /** Hearing only some of the verdicts misses at most those not heard. */
  lemma {:induction false} HeardBounds(arrivals: seq<AckEvent>, limit: nat)
    requires limit <= |arrivals| && forall i :: 0 <= i < |arrivals| ==> arrivals[i].Verdict?
    ensures |Heard(arrivals, limit)| == limit
    ensures Positive(Heard(arrivals, limit)) + (|arrivals| - limit) >= Positive(arrivals)
    decreases limit
  {
    PositiveBound(arrivals);
    if limit > 0 {
      var rest := arrivals[1..];
      assert forall i :: 0 <= i < |rest| ==> rest[i] == arrivals[i + 1];
      HeardBounds(rest, limit - 1);
      assert Heard(arrivals, limit)[1..] == Heard(rest, limit - 1);
    }
  }

  /** The worst order: the rejections, which are reported at once, before every acknowledgement. */
  function RejectionsFirst(acks: nat, rejections: nat): seq<AckEvent> {
    if rejections > 0 then [Verdict(false)] + RejectionsFirst(acks, rejections - 1)
    else if acks > 0 then [Verdict(true)] + RejectionsFirst(acks - 1, 0)
    else []
  }

  lemma {:induction false} WorstOrder(acks: nat, rejections: nat, limit: nat)
    ensures AllIn(RejectionsFirst(acks, rejections), acks, rejections)
    ensures Positive(Heard(RejectionsFirst(acks, rejections), limit)) ==
      if limit <= rejections then 0 else Min(limit - rejections, acks)
    decreases acks + rejections
  {
    var all := RejectionsFirst(acks, rejections);
    if rejections > 0 || acks > 0 {
      var rest := if rejections > 0 then RejectionsFirst(acks, rejections - 1) else RejectionsFirst(acks - 1, 0);
      assert all[1..] == rest;
      WorstOrder(if rejections > 0 then acks else acks - 1, if rejections > 0 then rejections - 1 else 0,
                 if limit > 0 then limit - 1 else 0);
      assert forall i :: 1 <= i < |all| ==> all[i] == rest[i - 1];
      if limit > 0 {
        assert Heard(all, limit)[1..] == Heard(rest, limit - 1);
      }
    }
  }

  /** WHAT A REJECTION COSTS.  A request the worker pool rejects reports failure on the channel but does not
      widen the wait, so it can use up the place of an acknowledgement.  With T live targets of which the pool
      takes S, at least one, and all S acknowledging, the write succeeds in whatever order the verdicts arrive
      if and only if the acknowledgements required are at most S less the rejections. */
  lemma RejectionsExactly(replicaIDs: seq<Node>, alive: set<Node>, poolTakes: Node -> bool, writeQuorum: int)
    requires Accepted(Live(replicaIDs, alive), poolTakes) > 0
    ensures var live := Live(replicaIDs, alive);
      var t, s := |live|, Accepted(live, poolTakes);
      s <= t &&
      ((forall arrivals :: AllIn(arrivals, s, t - s) ==> Acknowledged(replicaIDs, alive, poolTakes, writeQuorum, arrivals))
        <==> Required(t, writeQuorum) <= s - Min(t - s, s))
  {
    var live := Live(replicaIDs, alive);
    var t, s := |live|, Accepted(live, poolTakes);
    AcceptedBound(live, poolTakes);
    if Required(t, writeQuorum) <= s - Min(t - s, s) {
      forall arrivals | AllIn(arrivals, s, t - s)
        ensures Acknowledged(replicaIDs, alive, poolTakes, writeQuorum, arrivals)
      {
        HeardBounds(arrivals, s);
      }
    } else {
      WorstOrder(s, t - s, s);
      assert !Acknowledged(replicaIDs, alive, poolTakes, writeQuorum, RejectionsFirst(s, t - s));
    }
  }

  lemma {:induction false} AcceptedBound(targets: seq<Node>, poolTakes: Node -> bool)
    ensures Accepted(targets, poolTakes) <= |targets|
  {
    if targets != [] {
      AcceptedBound(targets[1..], poolTakes);
    }
  }

  /** A call that misses a quorum it has: three live replicas, one request rejected, two acknowledged, W = 3. */
  method MissedQuorum(a: Node, b: Node, rejected: Node) returns (ok: bool)
    requires rejected !in {a, b}
    ensures !ok
  {
    var replicas, alive, takes := [a, b, rejected], {a, b, rejected}, (n: Node) => n != rejected;
    var arrivals := RejectionsFirst(2, 1);
    ok := ReplicateToNodes(replicas, alive, takes, 3, arrivals);
    LiveAll(replicas, alive);
    assert replicas[1..][1..][1..] == [] && replicas[1..][1..] == [rejected];
    assert Accepted(replicas[1..][1..], takes) == 0;
    assert Accepted(replicas[1..], takes) == 1;
    WorstOrder(2, 1, 2);
  }

  lemma {:induction false} LiveAll(replicaIDs: seq<Node>, alive: set<Node>)
    requires forall i :: 0 <= i < |replicaIDs| ==> replicaIDs[i] in alive
    ensures Live(replicaIDs, alive) == replicaIDs
  {
    if replicaIDs != [] {
      LiveAll(replicaIDs[1..], alive);
    }
  }

  // ---------------------------------------------------------------- reading

  /** A local lookup: an item, none, one that has expired, or a failure of the store itself. */
  datatype LocalResult = Found(item: Item) | Missing | Lapsed | Failed

  datatype ReadEvent = Response(item: Option<Item>) | Deadline

  function Responses(arrivals: seq<ReadEvent>, limit: nat): seq<Option<Item>> {
    if arrivals == [] || limit == 0 || arrivals[0].Deadline? then []
    else [arrivals[0].item] + Responses(arrivals[1..], limit - 1)
  }

  function LocalAnswer(local: LocalResult): seq<Option<Item>> {
    match local
    case Found(item) => [Some(item)]
    case Missing => [None]
    case Lapsed => [None]
    case Failed => []
  }

  function EffectiveQuorum(readQuorum: int, replicas: nat): int {
    if replicas < readQuorum then (if replicas < 1 then 1 else replicas) else readQuorum
  }

  /** How many remote answers a read waits for: with the local one they make the read quorum, and there is
      always at least one, if there is another replica. */
  function Remote(readQuorum: int, replicas: nat): nat {
    var quorum := EffectiveQuorum(readQuorum, replicas);
    if replicas < 2 then 0 else if quorum >= 2 then quorum - 1 else 1
  }

  /** The answers a quorum read uses: the local one and the remote ones that arrive in time. */
  function Used(local: LocalResult, replicas: nat, readQuorum: int, arrivals: seq<ReadEvent>): seq<Option<Item>> {
    LocalAnswer(local) + Responses(arrivals, Remote(readQuorum, replicas))
  }

  /** Does some answer differ in version from the latest? */
  predicate NeedsRepair(answers: seq<Option<Item>>) {
    exists i :: 0 <= i < |answers| && answers[i].Some? && Latest(answers).Some?
             && answers[i].value.version != Latest(answers).value.version
  }

  /** An item that a read may return: the local one, or one among the first `limit` arrivals that comes in
      before the deadline. */
  ghost predicate InTime(local: LocalResult, arrivals: seq<ReadEvent>, limit: nat, item: Item) {
    || local == Found(item)
    || exists i: nat :: i < limit && i < |arrivals| && arrivals[i] == Response(Some(item))
                        && forall j: nat :: j < i ==> arrivals[j].Response?
  }

  lemma {:induction false} ResponsesPrefix(arrivals: seq<ReadEvent>, limit: nat)
    ensures var m := |Responses(arrivals, limit)|;
      && m <= limit && m <= |arrivals|
      && (forall i :: 0 <= i < m ==> arrivals[i] == Response(Responses(arrivals, limit)[i]))
      && (m == limit || m == |arrivals| || arrivals[m].Deadline?)
  {
    if !(arrivals == [] || limit == 0 || arrivals[0].Deadline?) {
      ResponsesPrefix(arrivals[1..], limit - 1);
    }
  }

  lemma UsedMeans(local: LocalResult, replicas: nat, readQuorum: int, arrivals: seq<ReadEvent>, item: Item)
    ensures Some(item) in Used(local, replicas, readQuorum, arrivals)
       <==> InTime(local, arrivals, Remote(readQuorum, replicas), item)
  {
    var limit := Remote(readQuorum, replicas);
    ResponsesPrefix(arrivals, limit);
    var responses := Responses(arrivals, limit);
    if Some(item) in responses {
      var i :| 0 <= i < |responses| && responses[i] == Some(item);
      assert arrivals[i] == Response(Some(item)) && forall j: nat :: j < i ==> arrivals[j].Response?;
    }
    if i: nat :| i < limit && i < |arrivals| && arrivals[i] == Response(Some(item))
                 && forall j: nat :: j < i ==> arrivals[j].Response? {
      assert i < |responses|;
      assert responses[i] == Some(item);
    }
  }

  /** A quorum read: the highest version among the local answer and those that arrived in time, and whether
      stale replicas are to be repaired.  A quorum of one is answered locally, errors included. */
  method ReadWithQuorum(local: LocalResult, replicas: nat, readQuorum: int, arrivals: seq<ReadEvent>)
    returns (result: LocalResult, repair: bool)
    ensures EffectiveQuorum(readQuorum, replicas) == 1 ==> result == local && !repair
    ensures EffectiveQuorum(readQuorum, replicas) != 1 ==>
      var used := Used(local, replicas, readQuorum, arrivals);
      && result == (match Latest(used) case Some(item) => Found(item) case None => Missing)
      && repair == NeedsRepair(used)
    ensures var quorum := if readQuorum <= replicas then readQuorum else if replicas >= 1 then replicas else 1;
      if quorum == 1 then result == local && !repair
      else ReadsLatest(local, arrivals, if replicas <= 1 then 0 else if quorum <= 1 then 1 else quorum - 1, result, repair)
  {
    UsedRead(local, replicas, readQuorum, arrivals);
    var effectiveReadQuorum := readQuorum;
    if replicas < readQuorum {
      effectiveReadQuorum := replicas;
      if effectiveReadQuorum < 1 {
        effectiveReadQuorum := 1;
      }
    }
    if effectiveReadQuorum == 1 {
      return local, false;
    }
    var results := CollectAnswers(local, replicas, readQuorum, effectiveReadQuorum, arrivals);
    var latestItem := SelectLatest(results);
    repair := false;
    match latestItem
    case None => result := Missing;
    case Some(item) =>
      result := Found(item);
      for i := 0 to |results|
        invariant repair == exists j :: 0 <= j < i && results[j].Some? && results[j].value.version != item.version
      {
        if results[i].Some? && results[i].value.version != item.version {
          repair := true;
        }
      }
  }

  /** The result is the highest version, none below zero, among the local item and those that come in in time,
      the local one if it is as high as any; and repair is asked for exactly if these differ in version. */
  ghost predicate ReadsLatest(local: LocalResult, arrivals: seq<ReadEvent>, limit: nat, result: LocalResult, repair: bool) {
    && (forall item :: InTime(local, arrivals, limit, item) && item.version >= 0 ==>
      result.Found? && result.item.version >= item.version)
    && (result.Found? ==> InTime(local, arrivals, limit, result.item) && result.item.version >= 0)
    && (result.Found? && local.Found? && local.item.version == result.item.version ==> result == local)
    && (!result.Found? ==> result == Missing)
    && (repair <==>
      result.Found? && exists item :: InTime(local, arrivals, limit, item) && item.version != result.item.version)
  }

  lemma UsedRead(local: LocalResult, replicas: nat, readQuorum: int, arrivals: seq<ReadEvent>)
    ensures var used := Used(local, replicas, readQuorum, arrivals);
      ReadsLatest(local, arrivals, Remote(readQuorum, replicas),
                  match Latest(used) case Some(item) => Found(item) case None => Missing, NeedsRepair(used))
  {
    var used := Used(local, replicas, readQuorum, arrivals);
    var result := match Latest(used) case Some(item) => Found(item) case None => Missing;
    forall item
      ensures Some(item) in used <==> InTime(local, arrivals, Remote(readQuorum, replicas), item)
    {
      UsedMeans(local, replicas, readQuorum, arrivals, item);
    }
    LatestOf(used);
    if local.Found? {
      LocalFirst(local, replicas, readQuorum, arrivals);
    }
    RepairOf(used);
  }

  /** The latest answer is one of the items, and no item of a version that counts is newer. */
  lemma LatestOf(used: seq<Option<Item>>)
    ensures forall item :: Some(item) in used && item.version >= 0 ==>
      Latest(used).Some? && Latest(used).value.version >= item.version
    ensures Latest(used).Some? ==> Latest(used) in used && Latest(used).value.version >= 0
  {
    LatestIsMaximum(used);
    forall item | Some(item) in used && item.version >= 0
      ensures Latest(used).Some? && Latest(used).value.version >= item.version
    {
      var i :| 0 <= i < |used| && used[i] == Some(item);
      assert used[i].value == item;
    }
  }

  /** The local answer comes first, so it wins a tie. */
  lemma LocalFirst(local: LocalResult, replicas: nat, readQuorum: int, arrivals: seq<ReadEvent>)
    requires local.Found?
    ensures var latest := Latest(Used(local, replicas, readQuorum, arrivals));
      latest.Some? && latest.value.version == local.item.version ==> latest == Some(local.item)
  {
    var used := Used(local, replicas, readQuorum, arrivals);
    assert used[0] == Some(local.item);
    if Latest(used).Some? {
      var i := LatestIsFirst(used);
    }
  }

  lemma RepairOf(used: seq<Option<Item>>)
    ensures NeedsRepair(used) <==>
      Latest(used).Some? && exists item :: Some(item) in used && item.version != Latest(used).value.version
  {
    if NeedsRepair(used) {
      var i :| 0 <= i < |used| && used[i].Some? && used[i].value.version != Latest(used).value.version;
      assert Some(used[i].value) in used;
    }
    if Latest(used).Some? {
      forall item | Some(item) in used && item.version != Latest(used).value.version
        ensures NeedsRepair(used)
      {
        var i :| 0 <= i < |used| && used[i] == Some(item);
        assert used[i].value == item;
      }
    }
  }

  method CollectAnswers(local: LocalResult, replicas: nat, readQuorum: int, effectiveReadQuorum: int, arrivals: seq<ReadEvent>)
    returns (results: seq<Option<Item>>)
    requires effectiveReadQuorum == EffectiveQuorum(readQuorum, replicas) != 1
    ensures results == Used(local, replicas, readQuorum, arrivals)
  {
    results := LocalAnswer(local);
    var collected, next := 1, arrivals;
    while collected <= replicas - 1
      invariant collected == 1 || collected < effectiveReadQuorum
      invariant 1 <= collected <= Remote(readQuorum, replicas) + 1
      invariant results + Responses(next, Remote(readQuorum, replicas) - (collected - 1))
        == Used(local, replicas, readQuorum, arrivals)
      decreases replicas - collected
    {
      if next == [] || next[0].Deadline? {
        break;
      }
      results := results + [next[0].item];
      next := next[1..];
      collected := collected + 1;
      if collected >= effectiveReadQuorum {
        break;
      }
    }
    assert Responses(next, Remote(readQuorum, replicas) - (collected - 1)) == [];
    assert results + [] == results;
  }

  method SelectLatest(results: seq<Option<Item>>) returns (latestItem: Option<Item>)
    ensures latestItem == Latest(results)
  {
    latestItem := None;
    var latestVersion := -1;
    for i := 0 to |results|
      invariant latestItem == Latest(results[..i])
      invariant latestVersion == if latestItem.Some? then latestItem.value.version else -1
    {
      assert results[..i + 1][..i] == results[..i];
      if results[i].Some? && results[i].value.version > latestVersion {
        latestVersion := results[i].value.version;
        latestItem := results[i];
      }
    }
    assert results[..|results|] == results;
  }

  // ---------------------------------------------------------------- a read is a read of the protocol

  datatype RemoteAnswer = RemoteAnswer(node: Node, item: Option<Item>)

  function Arriving(answers: seq<RemoteAnswer>): seq<ReadEvent> {
    if answers == [] then [] else [Response(answers[0].item)] + Arriving(answers[1..])
  }

  lemma {:induction false} ResponsesTaken(answers: seq<RemoteAnswer>, limit: nat)
    ensures |Responses(Arriving(answers), limit)| == |Take(answers, limit)|
    ensures forall i :: 0 <= i < |Take(answers, limit)| ==> Responses(Arriving(answers), limit)[i] == answers[i].item
  {
    if answers != [] && limit > 0 {
      ResponsesTaken(answers[1..], limit - 1);
      FirstResponse(answers, limit);
    }
  }

  lemma FirstResponse(answers: seq<RemoteAnswer>, limit: nat)
    requires answers != [] && limit > 0
    ensures Responses(Arriving(answers), limit) == [answers[0].item] + Responses(Arriving(answers[1..]), limit - 1)
  {
    assert Arriving(answers)[1..] == Arriving(answers[1..]);
  }

  /** The nodes whose answers a read uses: the reader itself, then those that answered first. */
  function Responders(read: Read, answers: seq<RemoteAnswer>, limit: nat): seq<Node> {
    [read.reader] + seq(|Take(answers, limit)|, i requires 0 <= i < |Take(answers, limit)| => answers[i].node)
  }

  /** What a reader was told is what its own node and distinct other replicas offered. */
  ghost predicate Told(read: Read, local: LocalResult, answers: seq<RemoteAnswer>) {
    && read.reader in read.offered
    && (match local
        case Found(item) => read.offered[read.reader].item == Some(item)
        case Missing => read.offered[read.reader].item == None
        case Lapsed => read.offered[read.reader].item == None
        case Failed => false)
    && (forall i :: 0 <= i < |answers| ==>
      && answers[i].node != read.reader && answers[i].node in read.offered
      && read.offered[answers[i].node].item == answers[i].item)
    && (forall i, j :: 0 <= i < j < |answers| ==> answers[i].node != answers[j].node)
  }

  lemma RespondersDistinct(read: Read, local: LocalResult, answers: seq<RemoteAnswer>, limit: nat)
    requires Told(read, local, answers)
    ensures NoDuplicates(Responders(read, answers, limit))
    ensures Elements(Responders(read, answers, limit)) <= read.offered.Keys
    ensures |Responders(read, answers, limit)| == 1 + |Take(answers, limit)|
  {
  }

  lemma UsedAnswers(read: Read, local: LocalResult, answers: seq<RemoteAnswer>, replicas: nat, readQuorum: int)
    requires Told(read, local, answers)
    ensures var responders := Responders(read, answers, Remote(readQuorum, replicas));
      && Elements(responders) <= read.offered.Keys
      && Used(local, replicas, readQuorum, Arriving(answers)) == AnswersOf(read, responders)
  {
    var limit := Remote(readQuorum, replicas);
    RespondersDistinct(read, local, answers, limit);
    ResponsesTaken(answers, limit);
    AnswersInOrder(read, local, answers, Responses(Arriving(answers), limit), limit);
  }

  lemma AnswersInOrder(read: Read, local: LocalResult, answers: seq<RemoteAnswer>, responses: seq<Option<Item>>, limit: nat)
    requires Told(read, local, answers) && Elements(Responders(read, answers, limit)) <= read.offered.Keys
    requires |responses| == |Take(answers, limit)|
    requires forall i :: 0 <= i < |responses| ==> responses[i] == answers[i].item
    ensures LocalAnswer(local) + responses == AnswersOf(read, Responders(read, answers, limit))
  {
    var used, offered := LocalAnswer(local) + responses, AnswersOf(read, Responders(read, answers, limit));
    assert |used| == |offered| && used[0] == offered[0];
    forall i | 1 <= i < |used|
      ensures used[i] == offered[i]
    {
      assert used[i] == responses[i - 1] == answers[i - 1].item;
    }
  }

  /** A COMPLETE READ RETURNS WHAT SUCCEEDED.  When enough distinct replicas answer, the loops return the
      latest of the answers of a protocol read that collected its quorum.  So the result is at least as new as
      a write that succeeded before the read began, whatever is queued anywhere, if R reaches the number of
      replicas; and also if W + R exceeds it, the write can promise its quorum, and the answers come from
      replicas that did not turn it away and had nothing queued for the key. */
  lemma CompleteRead(c: Config, run: seq<Step>, w: nat, r: nat, local: LocalResult, answers: seq<RemoteAnswer>)
    requires c.Valid() && Possible(c, run) && w < |After(c, run).writes| && r < |After(c, run).queries|
    requires Told(After(c, run).queries[r], local, answers)
    requires var n := |c.replicas(After(c, run).queries[r].key)|;
      EffectiveQuorum(c.readQuorum, n) != 1 && |answers| >= Remote(c.readQuorum, n)
    requires w in After(c, run).queries[r].after && After(c, run).writes[w].op.item.version >= 0
    ensures var s := After(c, run); var read, write := s.queries[r], s.writes[w];
      var n := |c.replicas(read.key)|;
      var responders := Responders(read, answers, Remote(c.readQuorum, n));
      var latest := Latest(Used(local, n, c.readQuorum, Arriving(answers)));
      && Collected(c, read, responders)
      && latest == Latest(AnswersOf(read, responders))
      && (c.readQuorum >= n || AllClean(c, s, write, read, responders) ==>
            latest.Some? && latest.value.version >= write.op.item.version)
  {
    var s := After(c, run);
    var read, write := s.queries[r], s.writes[w];
    var n := |c.replicas(read.key)|;
    var responders := Responders(read, answers, Remote(c.readQuorum, n));
    RespondersDistinct(read, local, answers, Remote(c.readQuorum, n));
    UsedAnswers(read, local, answers, n, c.readQuorum);
    if c.readQuorum >= n {
      QuorumLimits.FullReadSees(c, read.key, run, w, r, responders);
      assert QuorumLimits.SeenAt(c, read.key, run, w, r, responders);
    }
    if AllClean(c, s, write, read, responders) {
      QuorumRead(c, run, w, r, responders);
    }
  }

  // ---------------------------------------------------------------- serving

  /** `ForwardFailed`: the coordinator is unknown, or the message could not be sent to it. */
  datatype SetOutcome = NilItem | LocalFailed | LocalOnly | Forwarded(coordinator: Node) | ForwardFailed | Replicated(ok: bool)

  /** The acknowledgement of one message, and where it goes. */
  datatype Acknowledgement = Acknowledgement(address: string, opId: string)

  class ReplicaNode {
    var store: Store
    var queue: multiset<Op>

    ghost function State(): Replica
      reads this
    {
      Replica(store, queue)
    }

    constructor ()
      ensures State() == Replica(map[], multiset{})
    {
      store, queue := map[], multiset{};
    }

    /** The preference list of a key, for as many replicas as configured, or as there are nodes if they are
        fewer, but at least one then. */
    method ReplicasOf(hashRing: RingStore.ConsistentHash, availableNodes: nat, replicaCount: int, key: string)
      returns (replicas: seq<Node>)
      requires hashRing.Valid()
      ensures replicas == HashRing.Preference(hashRing.State(), hashRing.hashFunc(key),
        if replicaCount <= availableNodes then replicaCount else if availableNodes >= 1 then availableNodes else 1)
    {
      var effectiveReplicaCount := replicaCount;
      if availableNodes < replicaCount {
        effectiveReplicaCount := if availableNodes == 0 then 1 else availableNodes;
      }
      replicas := hashRing.GetN(key, effectiveReplicaCount);
    }

    /** A client's write.  It is stored here at once if this node is alone, knows no replica, or
        coordinates the key, and in the last case replicated; otherwise it goes to the coordinator, if that
        is known.  `storeTakes` says whether the store has room, and `sent` what becomes of a message. */
    method Set(me: Node, hashRing: RingStore.ConsistentHash, availableNodes: nat, replicaCount: int,
               key: string, item: Option<Item>,
               storeTakes: (string, Item) -> bool, addresses: map<Node, string>, sent: string -> bool,
               alive: set<Node>, poolTakes: Node -> bool, writeQuorum: int, arrivals: seq<AckEvent>)
      returns (outcome: SetOutcome)
      requires hashRing.Valid()
      modifies this`store
      ensures var wanted :=
          if replicaCount <= availableNodes then replicaCount else if availableNodes >= 1 then availableNodes else 1;
        var replicas := HashRing.Preference(hashRing.State(), hashRing.hashFunc(key), wanted);
        outcome == if item.None? then NilItem
                   else if availableNodes != 1 && replicas != [] && replicas[0] != me
                     then (if replicas[0] in addresses && sent(addresses[replicas[0]]) then Forwarded(replicas[0])
                           else ForwardFailed)
                   else if key == "" || !storeTakes(key, item.value) then LocalFailed
                   else if availableNodes == 1 || replicas == [] then LocalOnly
                   else Replicated(Acknowledged(replicas[1..], alive, poolTakes, writeQuorum, arrivals))
      ensures store ==
        if outcome.LocalOnly? || outcome.Replicated? then old(store)[key := item.value] else old(store)
    {
      if item.None? {
        return NilItem;
      }
      var replicas := [];
      if availableNodes != 1 {
        replicas := ReplicasOf(hashRing, availableNodes, replicaCount, key);
      }
      if replicas != [] && replicas[0] != me {
        if replicas[0] !in addresses || !sent(addresses[replicas[0]]) {
          return ForwardFailed;
        }
        return Forwarded(replicas[0]);
      }
      if key == "" || !storeTakes(key, item.value) {
        return LocalFailed;
      }
      store := store[key := item.value];
      if replicas == [] {
        return LocalOnly;
      }
      var ok := ReplicateToNodes(replicas[1..], alive, poolTakes, writeQuorum, arrivals);
      return Replicated(ok);
    }

    /** A synchronisation message: acknowledged at once if it names an operation and a sender, some pool takes
        the acknowledgement, and the sender's address is known; its operations are handed to the worker
        pool one by one, and those the pool has no room for are dropped. */
    method HandleCacheSync(opId: string, sender: Node, addresses: map<Node, string>, ackTaken: bool,
                           ops: seq<Op>, poolTakes: nat -> bool)
      returns (ack: Option<Acknowledgement>)
      modifies this`queue
      ensures ack.Some? <==> opId != "" && sender != "" && ackTaken && sender in addresses && addresses[sender] != ""
      ensures ack.Some? ==> ack.value == Acknowledgement(addresses[sender], opId)
      ensures forall op :: queue[op] == old(queue)[op] + |set i: nat | i < |ops| && poolTakes(i) && ops[i] == op|
    {
      ack := None;
      if opId != "" && sender != "" && ackTaken && sender in addresses && addresses[sender] != "" {
        ack := Some(Acknowledgement(addresses[sender], opId));
      }
      for i := 0 to |ops|
        invariant forall op :: queue[op] == old(queue)[op] + |TakenAt(ops, poolTakes, i, op)|
      {
        OneMoreTaken(ops, poolTakes, i);
        if poolTakes(i) {
          queue := queue + multiset{ops[i]};
        }
      }
      AllTaken(ops, poolTakes);
    }

    /** A worker runs one queued operation: read, compare versions, write.  An expired item is dropped by the
        read and then counts as absent. */
    method RunQueued(op: Op, now: int, storeTakes: bool)
      requires op in queue
      modifies this
      ensures State() == Replica(ApplyAt(old(store), op, now, storeTakes), old(queue) - multiset{op})
      ensures forall k :: k != op.key ==> Lookup(store, k) == Lookup(old(store), k)
      ensures var known := Lookup(old(store), op.key);
        var lapsed := known.Some? && known.value.expireAt != 0 && now > known.value.expireAt;
        Lookup(store, op.key) ==
          if op.key == "" then known
          else if storeTakes && (known.None? || lapsed || op.item.version > known.value.version) then Some(op.item)
          else if lapsed then None
          else known
    {
      queue := queue - multiset{op};
      if op.key == "" {
        return;
      }
      if op.key in store {
        if Storage.Expired(store[op.key].expireAt, now) {
          store := WithoutKey(store, op.key);
        } else if op.item.version <= store[op.key].version {
          return;
        }
      }
      if storeTakes {
        store := store[op.key := op.item];
      }
    }
  }

  /** The positions before `k` at which an operation stands that the worker pool takes. */
  function TakenAt(ops: seq<Op>, poolTakes: nat -> bool, k: nat, op: Op): set<nat> {
    set i: nat | i < k && i < |ops| && poolTakes(i) && ops[i] == op
  }

  lemma OneMoreTaken(ops: seq<Op>, poolTakes: nat -> bool, k: nat)
    requires k < |ops|
    ensures forall op ::
      |TakenAt(ops, poolTakes, k + 1, op)| == |TakenAt(ops, poolTakes, k, op)| + if poolTakes(k) && ops[k] == op then 1 else 0
  {
    forall op
      ensures |TakenAt(ops, poolTakes, k + 1, op)| ==
        |TakenAt(ops, poolTakes, k, op)| + if poolTakes(k) && ops[k] == op then 1 else 0
    {
      assert TakenAt(ops, poolTakes, k + 1, op) ==
        TakenAt(ops, poolTakes, k, op) + if poolTakes(k) && ops[k] == op then {k} else {};
    }
  }

  lemma AllTaken(ops: seq<Op>, poolTakes: nat -> bool)
    ensures forall op :: TakenAt(ops, poolTakes, |ops|, op) == set i: nat | i < |ops| && poolTakes(i) && ops[i] == op
  {
  }

  /** Handling a message that carries the operation of one write is the protocol's step of receiving it: the
      queue the handler leaves is the one the step leaves, and the step sends the acknowledgement. */
  lemma HandlerIsProtocolStep(c: Config, s: State, w: nat, n: Node, poolTakes: nat -> bool, queue: multiset<Op>)
    requires Enabled(c, s, Receive(w, n, poolTakes(0)))
    requires var ops := [s.writes[w].op];
      forall op :: queue[op] == At(s, n).queue[op] + |set i: nat | i < |ops| && poolTakes(i) && ops[i] == op|
    ensures var t := Next(c, s, Receive(w, n, poolTakes(0)));
      At(t, n) == Replica(At(s, n).store, queue) && (w, n) in t.acks
      && (!poolTakes(0) ==> (n, s.writes[w].op) in t.refused)
  {
    var ops := [s.writes[w].op];
    OneMoreTaken(ops, poolTakes, 0);
    AllTaken(ops, poolTakes);
    var after := At(s, n).queue + if poolTakes(0) then multiset{s.writes[w].op} else multiset{};
    forall op
      ensures queue[op] == after[op]
    {
      assert TakenAt(ops, poolTakes, 0, op) == {};
      assert queue[op] == At(s, n).queue[op] + |TakenAt(ops, poolTakes, 1, op)|;
    }
    assert queue == after;
  }

  function ApplyAt(s: Store, op: Op, now: int, storeTakes: bool): Store {
    if op.key == "" then s
    else
      var live := if op.key in s && Storage.Expired(s[op.key].expireAt, now) then WithoutKey(s, op.key) else s;
      if Outdated(live, op) || !storeTakes then live else live[op.key := op.item]
  }

  /** As long as the stored item has not expired, a worker makes a step of the protocol. */
  lemma WorkerIsProtocolStep(c: Config, s: State, n: Node, op: Op, now: int, storeTakes: bool)
    requires op in At(s, n).queue && op.key != ""
    requires op.key in At(s, n).store ==> !Storage.Expired(At(s, n).store[op.key].expireAt, now)
    ensures var step := ApplyQueued(n, op, storeTakes);
      Enabled(c, s, step) && At(Next(c, s, step), n) ==
        Replica(ApplyAt(At(s, n).store, op, now, storeTakes), At(s, n).queue - multiset{op})
  {
  }
}
