/** Cluster membership: what a node believes about the others, and the hash ring that follows it. */
module Membership {
  import opened Prelude
  import opened Detection
  import HashRing

  datatype NodeInfo = NodeInfo(address: string, lastActive: int, state: NodeState, version: int)

  /** The known nodes, the ring, and the local version counter. */
  datatype View = View(live: map<string, NodeInfo>, ring: HashRing.Ring, localVersion: int)

  /** Who we are, where virtual nodes go, and the timeouts. */
  datatype Local = Local(id: string, place: HashRing.Placement, timeouts: Timeouts)

  /** A node starts out knowing itself. */
  function Start(me: Local, address: string, now: int, version: int): View {
    View(map[me.id := NodeInfo(address, now, Alive, version)],
         HashRing.Join(me.place, HashRing.EMPTY, me.id), version)
  }

  /** News about a node: stale news is ignored, an unknown node is taken for alive whatever is said of it,
      and a known one changes state.  Only the transitions to and from death or suspicion touch the ring. */
  function Update(me: Local, v: View, id: string, address: string, state: NodeState, version: int, now: int): View {
    if id !in v.live then
      v.(live := v.live[id := NodeInfo(address, now, Alive, version)],
         ring := if id != me.id then HashRing.Join(me.place, v.ring, id) else v.ring)
    else if version < v.live[id].version then v
    else
      var before := v.live[id].state;
      v.(live := v.live[id := NodeInfo(address, now, state, version)],
         ring :=
           if state == Dead && before != Dead then HashRing.Leave(me.place, v.ring, id)
           else if state == Alive && before != Alive && id != me.id then HashRing.Join(me.place, v.ring, id)
           else v.ring)
  }

  /** A successful probe clears a suspicion. */
  function Probed(v: View, id: string, now: int): View {
    if id in v.live && v.live[id].state == Suspect then
      v.(live := v.live[id := v.live[id].(state := Alive, lastActive := now, version := v.localVersion + 1)],
         localVersion := v.localVersion + 1)
    else v
  }

  function VerdictOn(me: Local, live: map<string, NodeInfo>, size: nat, now: int, id: string): Verdict
    requires id in live
  {
    if id == me.id then Keep else Judge(me.timeouts, size, now, live[id].state, live[id].lastActive)
  }

  /** The record of `id` after a verdict; only transitions take a new local version. */
  function Sentence(v: View, id: string, verdict: Verdict, now: int): (w: View)
    requires id in v.live
    ensures w.live.Keys == v.live.Keys
  {
    match verdict
    case Refresh => v.(live := v.live[id := v.live[id].(lastActive := now)])
    case MarkSuspect =>
      v.(live := v.live[id := v.live[id].(state := Suspect, version := v.localVersion + 1)],
         localVersion := v.localVersion + 1)
    case MarkDead =>
      v.(live := v.live[id := v.live[id].(state := Dead, version := v.localVersion + 1)],
         localVersion := v.localVersion + 1)
    case _ => v
  }

  /** One pass of the failure detector over the nodes listed in `order`: states first. */
  function Judged(me: Local, v: View, size: nat, now: int, order: seq<string>): View
    requires forall id :: id in order ==> id in v.live
    ensures Judged(me, v, size, now, order).live.Keys == v.live.Keys
  {
    if order == [] then v
    else
      var id := order[|order| - 1];
      assert forall x :: x in order[..|order| - 1] ==> x in order;
      var w := Judged(me, v, size, now, order[..|order| - 1]);
      Sentence(w, id, VerdictOn(me, w.live, size, now, id), now)
  }

  /** The nodes of `order` that a pass judges so. */
  function Picked(me: Local, v: View, size: nat, now: int, order: seq<string>, verdict: Verdict): seq<string>
    requires forall id :: id in order ==> id in v.live
    ensures forall id :: id in Picked(me, v, size, now, order, verdict) ==>
      id in order && VerdictOn(me, v.live, size, now, id) == verdict
  {
    if order == [] then []
    else
      var id := order[|order| - 1];
      assert forall x :: x in order[..|order| - 1] ==> x in order;
      var front := Picked(me, v, size, now, order[..|order| - 1], verdict);
      if VerdictOn(me, v.live, size, now, id) == verdict then front + [id] else front
  }

  function LeaveAll(place: HashRing.Placement, ring: HashRing.Ring, ids: seq<string>): HashRing.Ring {
    if ids == [] then ring
    else HashRing.Leave(place, LeaveAll(place, ring, ids[..|ids| - 1]), ids[|ids| - 1])
  }

  /** A whole pass: the states, then the dead leave the ring, then the long dead are forgotten. */
  function Pass(me: Local, v: View, now: int, order: seq<string>): View
    requires forall id :: id in order ==> id in v.live
  {
    var w := Judged(me, v, |v.live|, now, order);
    w.(ring := LeaveAll(me.place, v.ring, Picked(me, v, |v.live|, now, order, MarkDead)),
       live := Outside(w.live, Elements(Picked(me, v, |v.live|, now, order, Forget))))
  }

  // ---------------------------------------------------------------- what a pass does to one node

  /** How a record may differ after a verdict on it; versions aside, the verdict fixes it. */
  predicate Sentenced(old': NodeInfo, new': NodeInfo, verdict: Verdict, now: int) {
    && new'.address == old'.address
    && match verdict
       case Refresh => new' == old'.(lastActive := now)
       case MarkSuspect => new'.state == Suspect && new'.lastActive == old'.lastActive
       case MarkDead => new'.state == Dead && new'.lastActive == old'.lastActive
       case _ => new' == old'
  }

  /** A pass treats every node by itself: what becomes of it is what the detector's rule for one peer
      says, whatever the others do and in whatever order they are visited. */
  lemma {:induction false} JudgedNode(me: Local, v: View, size: nat, now: int, order: seq<string>, id: string)
    requires NoDuplicates(order) && (forall x :: x in order ==> x in v.live) && id in v.live
    ensures var new' := Judged(me, v, size, now, order).live[id];
      if id !in order then new' == v.live[id]
      else Sentenced(v.live[id], new', VerdictOn(me, v.live, size, now, id), now)
    ensures Judged(me, v, size, now, order).ring == v.ring
  {
    if order != [] {
      var front, last := order[..|order| - 1], order[|order| - 1];
      assert forall x :: x in front ==> x in order;
      assert last !in front;
      JudgedNode(me, v, size, now, front, id);
      if id == last {
        assert Judged(me, v, size, now, front).live[last] == v.live[last];
      } else {
        assert id in order <==> id in front;
      }
    }
  }

  lemma {:induction false} PickedExactly(me: Local, v: View, size: nat, now: int, order: seq<string>, verdict: Verdict,
                                         id: string)
    requires forall x :: x in order ==> x in v.live
    requires id in order && VerdictOn(me, v.live, size, now, id) == verdict
    ensures id in Picked(me, v, size, now, order, verdict)
  {
    assert forall x :: x in order[..|order| - 1] ==> x in order;
    if id != order[|order| - 1] {
      assert order == order[..|order| - 1] + [order[|order| - 1]];
      PickedExactly(me, v, size, now, order[..|order| - 1], verdict, id);
    }
  }

  /** A node as the detector sees it. */
  function PeerOf(v: View, id: string): Peer {
    if id in v.live then Peer(v.live[id].state, v.live[id].lastActive) else Gone
  }

  /** The order of a pass lists every known node once. */
  ghost predicate Covers(order: seq<string>, v: View) {
    NoDuplicates(order) && Elements(order) == v.live.Keys
  }

  /** The timing results about one peer apply to every peer of a whole pass. */
  lemma PassPeer(me: Local, v: View, now: int, order: seq<string>, id: string)
    requires Covers(order, v) && id != me.id
    ensures (forall x :: x in order ==> x in v.live)
    ensures PeerOf(Pass(me, v, now, order), id) == Tick(me.timeouts, |v.live|, now, PeerOf(v, id))
  {
    forall x | x in order
      ensures x in v.live
    {
      assert x in Elements(order);
    }
    if id in v.live {
      assert id in Elements(order);
      JudgedNode(me, v, |v.live|, now, order, id);
      if VerdictOn(me, v.live, |v.live|, now, id) == Forget {
        PickedExactly(me, v, |v.live|, now, order, Forget, id);
      }
    }
  }

  // ---------------------------------------------------------------- the ring follows the membership

  /** Every member of the ring is known and not dead. */
  ghost predicate NoDeadMembers(v: View) {
    forall id :: id in v.ring.nodes ==> id in v.live && v.live[id].state != Dead
  }

  /** Is this node in the ring exactly if it is known and not dead? */
  ghost predicate Matches(v: View, id: string) {
    id in v.ring.nodes <==> id in v.live && v.live[id].state != Dead
  }

  /** The members of the ring are exactly the known nodes that are not dead. */
  ghost predicate InSync(v: View) {
    forall id :: Matches(v, id)
  }

  lemma {:induction false} LeaveAllNodes(place: HashRing.Placement, ring: HashRing.Ring, ids: seq<string>)
    ensures LeaveAll(place, ring, ids).nodes == ring.nodes - Elements(ids)
    ensures HashRing.Coherent(place, ring) ==> HashRing.Coherent(place, LeaveAll(place, ring, ids))
  {
    if ids != [] {
      var front, last := ids[..|ids| - 1], ids[|ids| - 1];
      LeaveAllNodes(place, ring, front);
      assert ids == front + [last];
      assert Elements(ids) == Elements(front) + {last};
      if HashRing.Coherent(place, ring) {
        HashRing.LeaveCoherent(place, LeaveAll(place, ring, front), last);
      }
    }
  }

  /** What one node's standing after a pass says about the ring. */
  lemma PassStanding(me: Local, v: View, now: int, order: seq<string>, id: string)
    requires Covers(order, v) && (forall x :: x in order ==> x in v.live)
    ensures var w := Pass(me, v, now, order);
      var killed := id in v.live && VerdictOn(me, v.live, |v.live|, now, id) == MarkDead;
      && (id in w.ring.nodes <==> id in v.ring.nodes && !killed)
      && (id in w.live && w.live[id].state != Dead <==> id in v.live && v.live[id].state != Dead && !killed)
  {
    PassRing(me, v, now, order, id);
    if id in v.live {
      assert id in Elements(order);
      JudgedNode(me, v, |v.live|, now, order, id);
      if VerdictOn(me, v.live, |v.live|, now, id) == Forget {
        PickedExactly(me, v, |v.live|, now, order, Forget, id);
      }
    }
  }

  /** The ring loses exactly the nodes that are found dead. */
  lemma PassRing(me: Local, v: View, now: int, order: seq<string>, id: string)
    requires Covers(order, v) && (forall x :: x in order ==> x in v.live)
    ensures id in Pass(me, v, now, order).ring.nodes <==>
      id in v.ring.nodes && !(id in v.live && VerdictOn(me, v.live, |v.live|, now, id) == MarkDead)
  {
    var dead := Picked(me, v, |v.live|, now, order, MarkDead);
    LeaveAllNodes(me.place, v.ring, dead);
    if id in v.live && VerdictOn(me, v.live, |v.live|, now, id) == MarkDead {
      assert id in Elements(order);
      PickedExactly(me, v, |v.live|, now, order, MarkDead, id);
      assert id in Elements(dead);
    }
  }

  /** What one pass makes of one record, in numbers: a live peer silent for longer than its limit becomes
      suspect, unless the silence is shorter than 20 seconds, when it only gets more time; a suspect becomes
      dead, and a dead peer is forgotten.  Whatever is not forgotten keeps its address, and what keeps its
      state keeps its version. */
  ghost predicate PassedOver(c: Timeouts, size: nat, now: int, local: bool, old': NodeInfo, new': Option<NodeInfo>) {
    var silence := now - old'.lastActive;
    if local || old'.state == Unknown then new' == Some(old')
    else match old'.state
      case Alive =>
        var limit := if size <= 4 then c.failure + c.failure else if size <= 9 then c.failure + c.failure / 2 else c.failure;
        if silence <= limit then new' == Some(old')
        else if silence < 20_000_000_000 then new' == Some(old'.(lastActive := now))
        else new'.Some? && new'.value == old'.(state := Suspect, version := new'.value.version)
      case Suspect =>
        var limit := c.failure + c.suspect;
        if silence <= (if size <= 10 then limit else limit + limit) then new' == Some(old')
        else new'.Some? && new'.value == old'.(state := Dead, version := new'.value.version)
      case _ =>
        new' == if silence <= c.failure + c.suspect then Some(old') else None
  }

  lemma PassMeans(me: Local, v: View, now: int, order: seq<string>, id: string)
    requires Covers(order, v) && (forall x :: x in order ==> x in v.live)
    ensures var w := Pass(me, v, now, order);
      && (id in w.live ==> id in v.live)
      && (id in v.live ==> PassedOver(me.timeouts, |v.live|, now, id == me.id, v.live[id], Lookup(w.live, id)))
  {
    if id in v.live {
      assert id in Elements(order);
      JudgedNode(me, v, |v.live|, now, order, id);
      if VerdictOn(me, v.live, |v.live|, now, id) == Forget {
        PickedExactly(me, v, |v.live|, now, order, Forget, id);
      }
    }
  }

  /** The nodes a pass gives a new state. */
  ghost function Marked(me: Local, v: View, size: nat, now: int, order: seq<string>): set<string>
    requires forall id :: id in order ==> id in v.live
  {
    set id | id in order && VerdictOn(me, v.live, size, now, id) in {MarkSuspect, MarkDead}
  }

  /** The marked nodes have versions of their own, all of them new. */
  ghost predicate Versioned(v: View, w: View, marked: set<string>) {
    && w.localVersion == v.localVersion + |marked|
    && (forall a :: a in marked ==> a in w.live && v.localVersion < w.live[a].version <= w.localVersion)
    && (forall a, b :: a in marked && b in marked && a != b ==> w.live[a].version != w.live[b].version)
  }

  lemma SentenceVersioned(v: View, w: View, marked: set<string>, id: string, verdict: Verdict, now: int)
    requires Versioned(v, w, marked) && id !in marked && id in w.live
    ensures Versioned(v, Sentence(w, id, verdict, now),
                      if verdict == MarkSuspect || verdict == MarkDead then marked + {id} else marked)
  {
  }

  lemma MarkedNext(me: Local, v: View, size: nat, now: int, order: seq<string>)
    requires order != [] && NoDuplicates(order) && (forall id :: id in order ==> id in v.live)
    ensures var front, last := order[..|order| - 1], order[|order| - 1];
      && (forall x :: x in order <==> x in front || x == last) && last !in front
      && var verdict := VerdictOn(me, v.live, size, now, last);
         Marked(me, v, size, now, order) ==
           if verdict == MarkSuspect || verdict == MarkDead then Marked(me, v, size, now, front) + {last}
           else Marked(me, v, size, now, front)
  {
    assert order == order[..|order| - 1] + [order[|order| - 1]];
  }

  /** Each node that gets a new state gets a new local version of its own with it. */
  lemma {:induction false} JudgedVersions(me: Local, v: View, size: nat, now: int, order: seq<string>)
    requires NoDuplicates(order) && (forall id :: id in order ==> id in v.live)
    ensures Versioned(v, Judged(me, v, size, now, order), Marked(me, v, size, now, order))
  {
    if order == [] {
      assert Marked(me, v, size, now, order) == {};
    } else {
      var front, last := order[..|order| - 1], order[|order| - 1];
      MarkedNext(me, v, size, now, order);
      JudgedVersions(me, v, size, now, front);
      JudgedNode(me, v, size, now, front, last);
      var w := Judged(me, v, size, now, front);
      SentenceVersioned(v, w, Marked(me, v, size, now, front), last, VerdictOn(me, w.live, size, now, last), now);
    }
  }

  /** The nodes known before and after that changed state. */
  function Changed(before: map<string, NodeInfo>, after: map<string, NodeInfo>): set<string> {
    set id | id in before && id in after && after[id].state != before[id].state
  }

  /** A pass takes one local version for every node that changes state, and gives it to that node. */
  lemma PassVersions(me: Local, v: View, now: int, order: seq<string>)
    requires Covers(order, v) && (forall x :: x in order ==> x in v.live)
    ensures Versioned(v, Pass(me, v, now, order), Changed(v.live, Pass(me, v, now, order).live))
  {
    var j, w := Judged(me, v, |v.live|, now, order), Pass(me, v, now, order);
    var marked, changed := Marked(me, v, |v.live|, now, order), Changed(v.live, w.live);
    JudgedVersions(me, v, |v.live|, now, order);
    forall id
      ensures id in marked <==> id in changed
      ensures id in marked ==> id in w.live && w.live[id] == j.live[id]
    {
      MarkedChanges(me, v, now, order, id);
    }
    assert marked == changed;
    SameVersioned(v, j, w, changed);
  }

  lemma SameVersioned(v: View, j: View, w: View, marked: set<string>)
    requires Versioned(v, j, marked) && w.localVersion == j.localVersion
    requires forall id :: id in marked ==> id in j.live && id in w.live && w.live[id] == j.live[id]
    ensures Versioned(v, w, marked)
  {
  }

  /** What a pass over the nodes of `v` leaves: each node is judged by its own record, ring members found dead
      leave the ring, and versions are counted on. */
  ghost predicate PassedAll(me: Local, v: View, w: View, now: int) {
    && (forall id :: id in w.live ==> id in v.live)
    && (forall id :: id in v.live ==>
      PassedOver(me.timeouts, |v.live|, now, id == me.id, v.live[id], Lookup(w.live, id)))
    && (forall id :: id in w.ring.nodes <==>
      (id in v.ring.nodes && !(id in Changed(v.live, w.live) && w.live[id].state == Dead)))
    && Versioned(v, w, Changed(v.live, w.live))
  }

  lemma PassExactly(me: Local, v: View, now: int, order: seq<string>)
    requires Covers(order, v) && (forall x :: x in order ==> x in v.live)
    ensures PassedAll(me, v, Pass(me, v, now, order), now)
  {
    var w := Pass(me, v, now, order);
    PassVersions(me, v, now, order);
    forall id
      ensures id in w.live ==> id in v.live
      ensures id in v.live ==> PassedOver(me.timeouts, |v.live|, now, id == me.id, v.live[id], Lookup(w.live, id))
      ensures id in w.ring.nodes <==>
        (id in v.ring.nodes && !(id in Changed(v.live, w.live) && w.live[id].state == Dead))
    {
      PassMeans(me, v, now, order, id);
      RingMeans(me, v, now, order, id);
    }
  }

  lemma RingMeans(me: Local, v: View, now: int, order: seq<string>, id: string)
    requires Covers(order, v) && (forall x :: x in order ==> x in v.live)
    ensures var w := Pass(me, v, now, order);
      id in w.ring.nodes <==>
        (id in v.ring.nodes && !(id in Changed(v.live, w.live) && w.live[id].state == Dead))
  {
    PassRing(me, v, now, order, id);
    if id in v.live {
      FoundDead(me, v, now, order, id);
    }
  }

  lemma FoundDead(me: Local, v: View, now: int, order: seq<string>, id: string)
    requires Covers(order, v) && (forall x :: x in order ==> x in v.live) && id in v.live
    ensures var live := Pass(me, v, now, order).live;
      VerdictOn(me, v.live, |v.live|, now, id) == MarkDead <==>
        (id in Changed(v.live, live) && live[id].state == Dead)
  {
    MarkedChanges(me, v, now, order, id);
    assert id in Elements(order);
    JudgedNode(me, v, |v.live|, now, order, id);
  }

  lemma MarkedChanges(me: Local, v: View, now: int, order: seq<string>, id: string)
    requires Covers(order, v) && (forall x :: x in order ==> x in v.live)
    ensures var w, marked := Pass(me, v, now, order), Marked(me, v, |v.live|, now, order);
      && (id in marked <==> id in Changed(v.live, w.live))
      && (id in marked ==> id in w.live && w.live[id] == Judged(me, v, |v.live|, now, order).live[id])
  {
    if id in v.live {
      assert id in Elements(order);
      JudgedNode(me, v, |v.live|, now, order, id);
    }
  }

  /** `VersionTaken`: some other local operation takes a new local version. */
  datatype Event =
    | News(id: string, address: string, state: NodeState, version: int, now: int)
    | ProbeAnswered(id: string, now: int)
    | DetectorPass(now: int, order: seq<string>)
    | VersionTaken

  ghost predicate Admissible(v: View, e: Event) {
    e.DetectorPass? ==> Covers(e.order, v) && forall id :: id in e.order ==> id in v.live
  }

  function Next(me: Local, v: View, e: Event): View
    requires Admissible(v, e)
  {
    match e
    case News(id, address, state, version, now) => Update(me, v, id, address, state, version, now)
    case ProbeAnswered(id, now) => Probed(v, id, now)
    case DetectorPass(now, order) => Pass(me, v, now, order)
    case VersionTaken => v.(localVersion := v.localVersion + 1)
  }

  lemma NoDeadMembersKept(me: Local, v: View, e: Event)
    requires NoDeadMembers(v) && Admissible(v, e)
    ensures NoDeadMembers(Next(me, v, e))
  {
    if e.DetectorPass? {
      forall id | id in Next(me, v, e).ring.nodes
        ensures id in Next(me, v, e).live && Next(me, v, e).live[id].state != Dead
      {
        PassStanding(me, v, e.now, e.order, id);
      }
    }
  }

  lemma UpdateCoherent(me: Local, v: View, id: string, address: string, state: NodeState, version: int, now: int)
    requires HashRing.Coherent(me.place, v.ring)
    ensures HashRing.Coherent(me.place, Update(me, v, id, address, state, version, now).ring)
  {
    HashRing.JoinCoherent(me.place, v.ring, id);
    HashRing.LeaveCoherent(me.place, v.ring, id);
    var ring := Update(me, v, id, address, state, version, now).ring;
    assert ring == v.ring || ring == HashRing.Join(me.place, v.ring, id) || ring == HashRing.Leave(me.place, v.ring, id);
  }

  lemma CoherentKept(me: Local, v: View, e: Event)
    requires HashRing.Coherent(me.place, v.ring) && Admissible(v, e)
    ensures HashRing.Coherent(me.place, Next(me, v, e).ring)
  {
    match e
    case News(id, address, state, version, now) =>
      UpdateCoherent(me, v, id, address, state, version, now);
    case ProbeAnswered(_, _) =>
    case DetectorPass(now, order) =>
      LeaveAllNodes(me.place, v.ring, Picked(me, v, |v.live|, now, order, MarkDead));
    case VersionTaken =>
  }

  /** News that brings a node back without its virtual nodes: a dead node that becomes suspect or unknown,
      or the local node itself coming back. */
  predicate Strands(me: Local, v: View, e: Event) {
    && e.News?
    && if e.id !in v.live then e.id == me.id
       else
         && e.version >= v.live[e.id].version
         && v.live[e.id].state == Dead && e.state != Dead
         && (e.state != Alive || e.id == me.id)
  }

  lemma NewsMatches(me: Local, v: View, e: Event, id: string)
    requires e.News? && Matches(v, id) && Matches(v, e.id)
    ensures Matches(Next(me, v, e), id) <==> !(id == e.id && Strands(me, v, e))
  {
  }

  /** The ring stays equal to the membership under exactly the events that strand nobody. */
  lemma InSyncExactly(me: Local, v: View, e: Event)
    requires InSync(v) && Admissible(v, e)
    ensures InSync(Next(me, v, e)) <==> !Strands(me, v, e)
  {
    var w := Next(me, v, e);
    match e
    case News(changed, _, _, _, _) =>
      assert Matches(v, changed);
      NewsMatches(me, v, e, changed);
      if !Strands(me, v, e) {
        forall id
          ensures Matches(w, id)
        {
          assert Matches(v, id);
          NewsMatches(me, v, e, id);
        }
      }
    case ProbeAnswered(_, _) =>
      forall id
        ensures Matches(w, id)
      {
        assert Matches(v, id);
      }
    case VersionTaken =>
      assert forall id :: Matches(v, id) <==> Matches(w, id);
    case DetectorPass(now, order) =>
      forall id
        ensures Matches(w, id)
      {
        assert Matches(v, id);
        PassStanding(me, v, now, order, id);
      }
  }

  // ---------------------------------------------------------------- whole runs

  ghost predicate Possible(me: Local, start: View, run: seq<Event>)
    decreases |run|, 0
  {
    run != [] ==> Possible(me, start, run[..|run| - 1]) && Admissible(After(me, start, run[..|run| - 1]), run[|run| - 1])
  }

  ghost function After(me: Local, start: View, run: seq<Event>): View
    requires Possible(me, start, run)
    decreases |run|, 1
  {
    if run == [] then start else Next(me, After(me, start, run[..|run| - 1]), run[|run| - 1])
  }

  lemma StartInSync(me: Local, address: string, now: int, version: int)
    ensures InSync(Start(me, address, now, version))
    ensures HashRing.Coherent(me.place, Start(me, address, now, version).ring)
  {
    HashRing.JoinCoherent(me.place, HashRing.EMPTY, me.id);
  }

  lemma {:induction false} Reachable(me: Local, address: string, now: int, version: int, run: seq<Event>)
    requires Possible(me, Start(me, address, now, version), run)
    ensures NoDeadMembers(After(me, Start(me, address, now, version), run))
    ensures HashRing.Coherent(me.place, After(me, Start(me, address, now, version), run).ring)
    decreases |run|
  {
    StartInSync(me, address, now, version);
    if run != [] {
      Reachable(me, address, now, version, run[..|run| - 1]);
      var v := After(me, Start(me, address, now, version), run[..|run| - 1]);
      NoDeadMembersKept(me, v, run[|run| - 1]);
      CoherentKept(me, v, run[|run| - 1]);
    }
  }

  /** NEVER TO THE DEAD.  In every run, collisions or not, every node on every preference list is known and
      not dead, and so is the primary of every key. */
  lemma NeverRoutesToDead(me: Local, address: string, now: int, version: int, run: seq<Event>, h: uint32, n: int)
    requires Possible(me, Start(me, address, now, version), run)
    ensures var v := After(me, Start(me, address, now, version), run);
      && (forall id :: id in HashRing.Preference(v.ring, h, n) ==> id in v.live && v.live[id].state != Dead)
      && (v.ring.keys != [] ==>
            var id := HashRing.Primary(v.ring, h); id in v.live && v.live[id].state != Dead)
  {
    Reachable(me, address, now, version, run);
    var v := After(me, Start(me, address, now, version), run);
    HashRing.PreferenceMembers(me.place, v.ring, h, n);
    assert forall id :: id in HashRing.Preference(v.ring, h, n) ==> id in Elements(HashRing.Preference(v.ring, h, n));
    if v.ring.keys != [] {
      HashRing.FirstIsPrimary(me.place, v.ring, h);
    }
  }

  /** No event of the run strands a node. */
  /** NEWS NEVER TURNS BACK.  In every run, whatever is reported about whom, a known node stays known and its
      recorded version does not fall. */
  lemma NewsNeverLowers(me: Local, start: View, run: seq<Event>, id: string)
    requires run != [] && Possible(me, start, run) && run[|run| - 1].News?
    requires id in After(me, start, run[..|run| - 1]).live
    ensures id in After(me, start, run).live
    ensures After(me, start, run).live[id].version >= After(me, start, run[..|run| - 1]).live[id].version
  {
  }

  ghost predicate NoStranding(me: Local, start: View, run: seq<Event>)
    requires Possible(me, start, run)
    decreases |run|
  {
    run != [] ==>
      && NoStranding(me, start, run[..|run| - 1])
      && !Strands(me, After(me, start, run[..|run| - 1]), run[|run| - 1])
  }

  /** On runs without stranding news the ring is the membership, at every moment. */
  lemma {:induction false} RingIsMembership(me: Local, address: string, now: int, version: int, run: seq<Event>)
    requires Possible(me, Start(me, address, now, version), run)
    requires NoStranding(me, Start(me, address, now, version), run)
    ensures InSync(After(me, Start(me, address, now, version), run))
    decreases |run|
  {
    StartInSync(me, address, now, version);
    if run != [] {
      var front := run[..|run| - 1];
      RingIsMembership(me, address, now, version, front);
      InSyncExactly(me, After(me, Start(me, address, now, version), front), run[|run| - 1]);
    }
  }

  // ---------------------------------------------------------------- detection in whole runs

  /** Nothing is heard of `id`: no news about it, and no probe of it is answered. */
  ghost predicate Silent(run: seq<Event>, id: string) {
    forall i :: 0 <= i < |run| ==>
      !(run[i].News? && run[i].id == id) && !(run[i].ProbeAnswered? && run[i].id == id)
  }

  /** The detector's passes of a run, with the number of nodes known at each. */
  ghost function Passes(me: Local, start: View, run: seq<Event>): seq<Visit>
    requires Possible(me, start, run)
    decreases |run|
  {
    if run == [] then []
    else
      var front := run[..|run| - 1];
      match run[|run| - 1]
      case DetectorPass(now, _) => Passes(me, start, front) + [Visit(now, |After(me, start, front).live|)]
      case _ => Passes(me, start, front)
  }

  lemma SilentStep(me: Local, v: View, e: Event, id: string)
    requires Admissible(v, e) && id != me.id && Silent([e], id)
    ensures PeerOf(Next(me, v, e), id) ==
      if e.DetectorPass? then Tick(me.timeouts, |v.live|, e.now, PeerOf(v, id)) else PeerOf(v, id)
  {
    assert [e][0] == e;
    if e.DetectorPass? {
      PassPeer(me, v, e.now, e.order, id);
    }
  }

  /** Whatever else happens, a silent peer is what the passes alone make of it. */
  lemma {:induction false} RunWatched(me: Local, start: View, run: seq<Event>, id: string, t0: int)
    requires Possible(me, start, run) && id != me.id && Silent(run, id) && PeerOf(start, id) == Peer(Alive, t0)
    ensures PeerOf(After(me, start, run), id) == Watched(me.timeouts, t0, Passes(me, start, run))
    decreases |run|
  {
    if run != [] {
      var front, last := run[..|run| - 1], run[|run| - 1];
      assert forall i :: 0 <= i < |front| ==> front[i] == run[i];
      RunWatched(me, start, front, id, t0);
      SilentStep(me, After(me, start, front), last, id);
      if last.DetectorPass? {
        var passes := Passes(me, start, run);
        assert passes[..|passes| - 1] == Passes(me, start, front);
      }
    }
  }

  /** DETECTION IN A CLUSTER.  From any moment on, in every run with any news about and any probes of other
      nodes, nodes coming and going within a size class, and passes at most `d` apart: a live peer of which
      nothing is heard is suspected, declared dead and forgotten within the bounds, and never early. */
  lemma SilentPeerDetected(me: Local, start: View, run: seq<Event>, id: string, t0: int, d: nat, e: nat, dl: nat)
    requires Possible(me, start, run) && id != me.id && Silent(run, id) && PeerOf(start, id) == Peer(Alive, t0)
    requires e >= GRACE - 1
    requires Spaced(t0, d, Passes(me, start, run)) && InClass(me.timeouts, e, dl, Passes(me, start, run))
    ensures Timely(PeerOf(After(me, start, run), id), t0, Last(t0, Passes(me, start, run)), e, dl, d)
  {
    RunWatched(me, start, run, id, t0);
    DetectionTime(me.timeouts, e, dl, t0, d, Passes(me, start, run));
  }

  // ---------------------------------------------------------------- two nodes, one view

  /** AGREEMENT.  Two nodes with the same hash and without collisions, whatever each of them went through,
      hold the same ring if they know the same nodes that are not dead and no event stranded one: so they
      name the same coordinator and the same replicas for every key. */
  lemma SameMembersSameRing(a: Local, runA: seq<Event>, b: Local, runB: seq<Event>,
                            startA: View, startB: View, names: set<string>)
    requires a.place == b.place && HashRing.CollisionFree(a.place, names)
    requires StartedBy(a, startA) && StartedBy(b, startB)
    requires Possible(a, startA, runA) && NoStranding(a, startA, runA) && Named(runA, names) && a.id in names
    requires Possible(b, startB, runB) && NoStranding(b, startB, runB) && Named(runB, names) && b.id in names
    requires forall id :: Standing(After(a, startA, runA), id) <==> Standing(After(b, startB, runB), id)
    ensures After(a, startA, runA).ring == After(b, startB, runB).ring
  {
    StandingRing(a, startA, runA, names);
    StandingRing(b, startB, runB, names);
    var v, w := After(a, startA, runA), After(b, startB, runB);
    forall id
      ensures id in v.ring.nodes <==> id in w.ring.nodes
    {
      assert Matches(v, id) && Matches(w, id);
      assert Standing(v, id) <==> Standing(w, id);
    }
    HashRing.FaithfulUnique(a.place, v.ring, w.ring);
  }

  ghost predicate StartedBy(me: Local, start: View) {
    exists address, now, version :: start == Start(me, address, now, version)
  }

  /** Is the node known and not dead? */
  predicate Standing(v: View, id: string) {
    id in v.live && v.live[id].state != Dead
  }

  /** All news of a run is about nodes of `names`. */
  ghost predicate Named(run: seq<Event>, names: set<string>) {
    forall i :: 0 <= i < |run| && run[i].News? ==> run[i].id in names
  }

  lemma {:induction false} LeaveAllFaithful(place: HashRing.Placement, ring: HashRing.Ring, ids: seq<string>)
    requires HashRing.Faithful(place, ring)
    ensures HashRing.Faithful(place, LeaveAll(place, ring, ids))
  {
    if ids != [] {
      LeaveAllFaithful(place, ring, ids[..|ids| - 1]);
      HashRing.LeaveFaithful(place, LeaveAll(place, ring, ids[..|ids| - 1]), ids[|ids| - 1]);
    }
  }

  lemma UpdateFaithful(me: Local, v: View, id: string, address: string, state: NodeState, version: int, now: int,
                       names: set<string>)
    requires HashRing.Faithful(me.place, v.ring) && v.ring.nodes <= names && id in names
    requires HashRing.CollisionFree(me.place, names)
    ensures var ring := Update(me, v, id, address, state, version, now).ring;
      HashRing.Faithful(me.place, ring) && ring.nodes <= names
  {
    HashRing.JoinFaithful(me.place, v.ring, id);
    HashRing.LeaveFaithful(me.place, v.ring, id);
    var ring := Update(me, v, id, address, state, version, now).ring;
    assert ring == v.ring || ring == HashRing.Join(me.place, v.ring, id) || ring == HashRing.Leave(me.place, v.ring, id);
  }

  lemma NextFaithful(me: Local, v: View, e: Event, names: set<string>)
    requires HashRing.Faithful(me.place, v.ring) && v.ring.nodes <= names && Admissible(v, e)
    requires HashRing.CollisionFree(me.place, names) && (e.News? ==> e.id in names)
    ensures HashRing.Faithful(me.place, Next(me, v, e).ring) && Next(me, v, e).ring.nodes <= names
  {
    match e
    case News(id, address, state, version, now) =>
      UpdateFaithful(me, v, id, address, state, version, now, names);
    case DetectorPass(now, order) =>
      LeaveAllFaithful(me.place, v.ring, Picked(me, v, |v.live|, now, order, MarkDead));
      LeaveAllNodes(me.place, v.ring, Picked(me, v, |v.live|, now, order, MarkDead));
    case ProbeAnswered(_, _) =>
    case VersionTaken =>
  }

  /** On such a run nothing is lost from the ring, and it is the membership. */
  lemma {:induction false} StandingRing(me: Local, start: View, run: seq<Event>, names: set<string>)
    requires StartedBy(me, start) && Possible(me, start, run) && NoStranding(me, start, run)
    requires HashRing.CollisionFree(me.place, names) && Named(run, names) && me.id in names
    ensures InSync(After(me, start, run)) && HashRing.Faithful(me.place, After(me, start, run).ring)
    ensures After(me, start, run).ring.nodes <= names
    decreases |run|
  {
    var address, now, version :| start == Start(me, address, now, version);
    if run == [] {
      StartInSync(me, address, now, version);
      HashRing.JoinFaithful(me.place, HashRing.EMPTY, me.id);
    } else {
      var front := run[..|run| - 1];
      assert forall i :: 0 <= i < |front| ==> front[i] == run[i];
      StandingRing(me, start, front, names);
      InSyncExactly(me, After(me, start, front), run[|run| - 1]);
      NextFaithful(me, After(me, start, front), run[|run| - 1], names);
    }
  }

  /** A run that strands a node: it is reported dead and then suspect, and a probe of it is answered; it is
      alive again, but no longer in the ring. */
  lemma StrandedNode(me: Local, v: View, id: string, now: int)
    requires id != me.id && id in v.live && v.live[id].state == Alive && id in v.ring.nodes
    ensures var version := v.live[id].version;
      var v1 := Next(me, v, News(id, "", Dead, version, now));
      var v2 := Next(me, v1, News(id, "", Suspect, version, now));
      var v3 := Next(me, v2, ProbeAnswered(id, now));
      id in v3.live && v3.live[id].state == Alive && id !in v3.ring.nodes
  {
  }
}
