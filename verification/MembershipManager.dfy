/** The membership table of a running node, updated in place together with its hash ring. */
module MembershipManager {
  import opened Prelude
  import opened Detection
  import opened Membership
  import opened RingStore
  import HashRing

  class GossipManager {
    const localNodeID: string
    const timeouts: Timeouts
    const hashRing: ConsistentHash
    var liveNodes: map<string, NodeInfo>
    var localVersion: int

    ghost function Me(): Local {
      Local(localNodeID, hashRing.Place(), timeouts)
    }

    ghost function State(): View
      reads this, hashRing
    {
      View(liveNodes, hashRing.State(), localVersion)
    }

    ghost predicate Valid()
      reads this, hashRing
    {
      hashRing.Valid()
    }

    constructor (id: string, address: string, timeouts: Timeouts, replicas: nat, hash: Hash, now: int, version: int)
      ensures Valid() && fresh(hashRing)
      ensures localNodeID == id && this.timeouts == timeouts
      ensures State() == Start(Me(), address, now, version)
      ensures liveNodes == map[id := NodeInfo(address, now, Alive, version)] && localVersion == version
      ensures hashRing.nodes == {id}
    {
      localNodeID, this.timeouts := id, timeouts;
      var ring := new ConsistentHash(replicas, hash);
      hashRing := ring;
      liveNodes := map[id := NodeInfo(address, now, Alive, version)];
      localVersion := version;
      new;
      hashRing.Add(id);
    }

    method UpdateNode(nodeID: string, address: string, newState: NodeState, version: int, now: int)
      requires Valid()
      modifies this, hashRing
      ensures Valid() && State() == Update(Me(), old(State()), nodeID, address, newState, version, now)
      ensures localVersion == old(localVersion)
      ensures nodeID in old(liveNodes) && version < old(liveNodes)[nodeID].version ==>
        liveNodes == old(liveNodes) && hashRing.State() == old(hashRing.State())
      ensures !(nodeID in old(liveNodes) && version < old(liveNodes)[nodeID].version) ==>
        var state := if nodeID in old(liveNodes) then newState else Alive;
        && nodeID in liveNodes && liveNodes[nodeID] == NodeInfo(address, now, state, version)
        && (forall k :: k != nodeID ==> Lookup(liveNodes, k) == Lookup(old(liveNodes), k))
        && hashRing.nodes ==
             (if nodeID !in old(liveNodes) then
                (if nodeID == localNodeID then old(hashRing.nodes) else old(hashRing.nodes) + {nodeID})
              else if newState == Dead && old(liveNodes)[nodeID].state != Dead then old(hashRing.nodes) - {nodeID}
              else if newState == Alive && old(liveNodes)[nodeID].state != Alive && nodeID != localNodeID
                then old(hashRing.nodes) + {nodeID}
              else old(hashRing.nodes))
    {
      var add, remove := false, false;
      var found := nodeID in liveNodes;
      if found && version < liveNodes[nodeID].version {
        return;
      }
      if !found {
        liveNodes := liveNodes[nodeID := NodeInfo(address, now, Alive, version)];
        if nodeID != localNodeID {
          add := true;
        }
        if add {
          hashRing.Add(nodeID);
        }
        return;
      }
      var oldState := liveNodes[nodeID].state;
      liveNodes := liveNodes[nodeID := NodeInfo(address, now, newState, version)];
      if newState == Dead && oldState != Dead {
        remove := true;
      }
      if newState == Alive && oldState != Alive && nodeID != localNodeID {
        add := true;
      }
      if remove {
        hashRing.Remove(nodeID);
      }
      if add {
        hashRing.Add(nodeID);
      }
    }

    method MarkNodeAliveFromProbe(nodeID: string, now: int)
      requires Valid()
      modifies this
      ensures Valid() && State() == Probed(old(State()), nodeID, now)
      ensures forall k :: k != nodeID ==> Lookup(liveNodes, k) == Lookup(old(liveNodes), k)
      ensures var known := Lookup(old(liveNodes), nodeID);
        if known.Some? && known.value.state == Suspect then
          && localVersion == old(localVersion) + 1
          && Lookup(liveNodes, nodeID) == Some(NodeInfo(known.value.address, now, Alive, localVersion))
        else localVersion == old(localVersion) && Lookup(liveNodes, nodeID) == known
    {
      if nodeID in liveNodes && liveNodes[nodeID].state == Suspect {
        localVersion := localVersion + 1;
        liveNodes := liveNodes[nodeID := liveNodes[nodeID].(state := Alive, lastActive := now, version := localVersion)];
      }
    }

    /** An operator declares a node dead.  A record of a version beyond the next local one stays as it is. */
    method ForceRemoveNode(nodeID: string, now: int)
      requires Valid()
      modifies this, hashRing
      ensures Valid()
      ensures var v := old(State());
        State() == if nodeID !in v.live then v
                   else Update(Me(), v.(localVersion := v.localVersion + 1), nodeID, v.live[nodeID].address, Dead,
                               v.localVersion + 1, now)
      ensures Reported(old(liveNodes), old(localVersion), nodeID, Dead, now)
    {
      if nodeID !in liveNodes {
        return;
      }
      localVersion := localVersion + 1;
      UpdateNode(nodeID, liveNodes[nodeID].address, Dead, localVersion, now);
    }

    /** A replica was found in a new state; one already in that state, or unknown, is left alone. */
    method MarkReplicaState(nodeID: string, newState: NodeState, now: int)
      requires Valid()
      modifies this, hashRing
      ensures Valid()
      ensures var v := old(State());
        State() == if nodeID !in v.live || v.live[nodeID].state == newState then v
                   else Update(Me(), v.(localVersion := v.localVersion + 1), nodeID, v.live[nodeID].address, newState,
                               v.localVersion + 1, now)
      ensures if nodeID in old(liveNodes) && old(liveNodes)[nodeID].state == newState
        then liveNodes == old(liveNodes) && localVersion == old(localVersion)
        else Reported(old(liveNodes), old(localVersion), nodeID, newState, now)
    {
      if nodeID !in liveNodes || liveNodes[nodeID].state == newState {
        return;
      }
      localVersion := localVersion + 1;
      UpdateNode(nodeID, liveNodes[nodeID].address, newState, localVersion, now);
    }

    /** A known node was given the state under the next local version, unless its record is newer than that. */
    ghost predicate Reported(before: map<string, NodeInfo>, version: int, nodeID: string, state: NodeState, now: int)
      reads this
    {
      && localVersion == (if nodeID in before then version + 1 else version)
      && (forall k :: k != nodeID ==> Lookup(liveNodes, k) == Lookup(before, k))
      && Lookup(liveNodes, nodeID) ==
           if nodeID !in before then None
           else if version + 1 < before[nodeID].version then Some(before[nodeID])
           else Some(NodeInfo(before[nodeID].address, now, state, version + 1))
    }

    /** One pass over all nodes, in whatever order the map is walked. */
    method RunFailureDetection(now: int) returns (ghost order: seq<string>)
      requires Valid()
      modifies this, hashRing
      ensures Valid()
      ensures Covers(order, old(State())) && forall id :: id in order ==> id in old(liveNodes)
      ensures State() == Pass(Me(), old(State()), now, order)
      ensures PassedAll(Me(), old(State()), State(), now)
    {
      var toMarkDead, toRemove;
      order, toMarkDead, toRemove := JudgeAll(now);
      RemoveFromRing(toMarkDead);
      liveNodes := Outside(liveNodes, Elements(toRemove));
      PassExactly(Me(), old(State()), now, order);
    }

    method RemoveFromRing(toMarkDead: seq<string>)
      requires Valid()
      modifies hashRing
      ensures Valid() && hashRing.State() == LeaveAll(Me().place, old(hashRing.State()), toMarkDead)
    {
      for i := 0 to |toMarkDead|
        invariant Valid() && hashRing.State() == LeaveAll(Me().place, old(hashRing.State()), toMarkDead[..i])
      {
        assert toMarkDead[..i + 1][..i] == toMarkDead[..i];
        hashRing.Remove(toMarkDead[i]);
      }
      assert toMarkDead[..|toMarkDead|] == toMarkDead;
    }

    method JudgeAll(now: int)
      returns (ghost order: seq<string>, toMarkDead: seq<string>, toRemove: seq<string>)
      requires Valid()
      modifies this
      ensures Covers(order, old(State())) && forall id :: id in order ==> id in old(liveNodes)
      ensures State() == Judged(Me(), old(State()), |old(liveNodes)|, now, order)
      ensures toMarkDead == Picked(Me(), old(State()), |old(liveNodes)|, now, order, MarkDead)
      ensures toRemove == Picked(Me(), old(State()), |old(liveNodes)|, now, order, Forget)
    {
      ghost var v := State();
      var clusterSize := |liveNodes|;
      order, toMarkDead, toRemove := [], [], [];
      var todo := liveNodes.Keys;
      while todo != {}
        invariant NoDuplicates(order) && todo <= v.live.Keys
        invariant forall id :: id in order <==> id in v.live && id !in todo
        invariant State() == Judged(Me(), v, clusterSize, now, order)
        invariant toMarkDead == Picked(Me(), v, clusterSize, now, order, MarkDead)
        invariant toRemove == Picked(Me(), v, clusterSize, now, order, Forget)
      {
        var id :| id in todo;
        todo := todo - {id};
        JudgeNext(Me(), v, clusterSize, now, order, id);
        order := order + [id];
        var verdict := JudgeOne(id, clusterSize, now);
        if verdict == MarkDead {
          toMarkDead := toMarkDead + [id];
        }
        if verdict == Forget {
          toRemove := toRemove + [id];
        }
      }
    }

    /** The body of the pass for one node; the local node is skipped. */
    method JudgeOne(id: string, clusterSize: nat, now: int) returns (verdict: Verdict)
      requires id in liveNodes
      modifies this
      ensures verdict == VerdictOn(Me(), old(liveNodes), clusterSize, now, id)
      ensures State() == Sentence(old(State()), id, verdict, now)
    {
      if id == localNodeID {
        return Keep;
      }
      var node := liveNodes[id];
      verdict := Judge(timeouts, clusterSize, now, node.state, node.lastActive);
      match verdict
      case Refresh =>
        liveNodes := liveNodes[id := node.(lastActive := now)];
      case MarkSuspect =>
        localVersion := localVersion + 1;
        liveNodes := liveNodes[id := node.(state := Suspect, version := localVersion)];
      case MarkDead =>
        localVersion := localVersion + 1;
        liveNodes := liveNodes[id := node.(state := Dead, version := localVersion)];
      case _ =>
    }
  }

  /** Visiting one more node: it still looks as it did when the pass began. */
  lemma JudgeNext(me: Local, v: View, size: nat, now: int, order: seq<string>, id: string)
    requires NoDuplicates(order) && (forall x :: x in order ==> x in v.live) && id in v.live && id !in order
    ensures forall x :: x in order + [id] <==> x in order || x == id
    ensures NoDuplicates(order + [id])
    ensures var w, verdict := Judged(me, v, size, now, order), VerdictOn(me, v.live, size, now, id);
      && VerdictOn(me, w.live, size, now, id) == verdict
      && Judged(me, v, size, now, order + [id]) == Sentence(w, id, verdict, now)
      && forall p :: Picked(me, v, size, now, order + [id], p) ==
           Picked(me, v, size, now, order, p) + if p == verdict then [id] else []
  {
    assert (order + [id])[..|order|] == order;
    JudgedNode(me, v, size, now, order, id);
  }
}
