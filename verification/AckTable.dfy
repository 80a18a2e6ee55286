/** The table of pending acknowledgements as the network layer keeps it.  Each method is one atomic piece
    of a call or of a handler; `calls` and `inHand` record where every call and every handler stands. */
module AckTable {
  import opened Prelude
  import opened Acks

  class NetworkImpl {
    var pendingAcks: map<string, Channel>
    var pendingAckCount: int
    var content: map<Channel, Ack>
    var pool: set<Channel>
    ghost var calls: map<string, Call>
    ghost var inHand: multiset<(Ack, Channel)>

    ghost function Table(): State
      reads this
    {
      State(pendingAcks, pendingAckCount, content, pool, calls, inHand)
    }

    /** Every channel is with its owner; with each method as one step this never ends. */
    ghost predicate Valid()
      reads this
    {
      Invariant(Table())
    }

    constructor ()
      ensures Valid() && Table() == INITIAL
    {
      pendingAcks, pendingAckCount, content, pool := map[], 0, map[], {};
      calls, inHand := map[], multiset{};
      new;
      assert Counted(INITIAL) == {} && Rejected(INITIAL) == {};
    }

    /** Raises the counter first and takes it back when the limit is passed. */
    method Enter(op: string) returns (accepted: bool)
      requires Valid() && Enabled(Table(), Begin(op))
      modifies this
      ensures Valid()
      ensures accepted <==> old(pendingAckCount) < 65536
      ensures pendingAckCount == old(pendingAckCount) + if accepted then 1 else 0
      ensures pendingAcks == old(pendingAcks) && content == old(content) && pool == old(pool)
      ensures var s := Next(old(Table()), Begin(op));
        if accepted then Table() == s else Enabled(s, Reject(op)) && Table() == Next(s, Reject(op))
    {
      ghost var before := Table();
      accepted := Admit(op);
      if accepted {
        InvariantKept(before, Begin(op));
      } else {
        BothKept(before, Begin(op), Reject(op), Table());
      }
    }

    method Admit(op: string) returns (accepted: bool)
      requires Enabled(Table(), Begin(op))
      modifies this`pendingAckCount, this`calls
      ensures accepted <==> old(pendingAckCount) < MAX_PENDING
      ensures var s := Next(old(Table()), Begin(op));
        if accepted then Table() == s else Enabled(s, Reject(op)) && Table() == Next(s, Reject(op))
    {
      ghost var before := Table();
      pendingAckCount := pendingAckCount + 1;
      if pendingAckCount > MAX_PENDING {
        calls := calls[op := Rejecting];
        pendingAckCount := pendingAckCount - 1;
        calls := calls[op := Done(None)];
        TurnedAway(before, op);
        return false;
      }
      calls := calls[op := Admitted];
      return true;
    }

    /** Takes a channel from the pool, or the newly made one, and registers it. */
    method RegisterChannel(op: string, made: Channel) returns (ch: Channel)
      requires Valid() && op in calls && calls[op].Admitted?
      requires !InUse(Table(), made) && made !in content
      modifies this
      ensures Valid()
      ensures Enabled(old(Table()), Register(op, ch)) && Table() == Next(old(Table()), Register(op, ch))
      ensures if old(pool) == {} then ch == made && pool == {} else ch in old(pool) && pool == old(pool) - {ch}
      ensures pendingAcks == old(pendingAcks)[op := ch]
      ensures content == old(content) && pendingAckCount == old(pendingAckCount)
    {
      ghost var before := Table();
      if pool != {} {
        ch :| ch in pool;
      } else {
        ch := made;
      }
      pool := pool - {ch};
      pendingAcks := pendingAcks[op := ch];
      calls := calls[op := Waiting(ch)];
      InvariantKept(before, Register(op, ch));
    }

    /** Routes an acknowledgement, as one step: looks the channel up and drops the acknowledgement in; when
        the channel stays full the registration is dropped instead. */
    method HandleAck(ack: Ack)
      requires Valid()
      modifies this
      ensures Valid()
      ensures ack.opId == "" || ack.opId !in old(pendingAcks) ==> Table() == old(Table())
      ensures ack.opId != "" && ack.opId in old(pendingAcks) ==>
        var s := Next(old(Table()), Look(ack));
        Table() == Next(s, Deliver(ack, old(pendingAcks)[ack.opId]))
      ensures pendingAckCount == old(pendingAckCount) && pool == old(pool)
      ensures var ch := Lookup(old(pendingAcks), ack.opId);
        var known := ack.opId != "" && ch.Some?;
        var full := known && ch.value in old(content);
        && (forall c :: Lookup(content, c) == if known && !full && c == ch.value then Some(ack) else Lookup(old(content), c))
        && (forall op :: Lookup(pendingAcks, op) == if full && op == ack.opId then None else Lookup(old(pendingAcks), op))
    {
      if ack.opId == "" {
        return;
      }
      if ack.opId in pendingAcks {
        ghost var before := Table();
        DropInto(pendingAcks[ack.opId], ack);
        HandledAtOnce(before, ack, Table());
      }
    }

    method DropInto(ch: Channel, ack: Ack)
      requires ack.opId in pendingAcks && pendingAcks[ack.opId] == ch
      modifies this`content, this`pendingAcks
      ensures Table() == Next(Next(old(Table()), Look(ack)), Deliver(ack, ch))
      ensures var full := ch in old(content);
        && (forall c :: Lookup(content, c) == if !full && c == ch then Some(ack) else Lookup(old(content), c))
        && (forall op :: Lookup(pendingAcks, op) == if full && op == ack.opId then None else Lookup(old(pendingAcks), op))
    {
      LookedUpAndDropped(Table(), ack);
      if ch !in content {
        content := content[ch := ack];
      } else {
        pendingAcks := WithoutKey(pendingAcks, ack.opId);
      }
    }

    /** Waits: receives what lies in the call's channel, or gives up when time is up; when both are possible
        either may happen. */
    method Await(op: string, ch: Channel, timedOut: bool) returns (result: Option<Ack>)
      requires Valid() && op in calls && calls[op] == Waiting(ch)
      requires ch in content || timedOut
      modifies this
      ensures Valid() && (result.Some? ==> result.value.opId == op)
      ensures result.None? ==> timedOut && Table() == Next(old(Table()), TimeOut(op))
      ensures result.Some? ==> ch in old(content) && result.value == old(content)[ch]
                               && Table() == Next(old(Table()), Take(op))
      ensures pendingAcks == old(pendingAcks) && pendingAckCount == old(pendingAckCount) && pool == old(pool)
      ensures forall c :: Lookup(content, c) == if result.Some? && c == ch then None else Lookup(old(content), c)
    {
      ghost var before := Table();
      var receive: bool :| receive ==> ch in content;
      if receive || !timedOut {
        result := Some(content[ch]);
        TakeOut(op, ch, content[ch]);
        InvariantKept(before, Take(op));
      } else {
        result := None;
        calls := calls[op := GaveUp(ch)];
        InvariantKept(before, TimeOut(op));
      }
    }

    method TakeOut(op: string, ch: Channel, ghost ack: Ack)
      modifies this`content, this`calls
      ensures content == WithoutKey(old(content), ch) && calls == old(calls)[op := Received(ch, ack)]
      ensures forall c :: Lookup(content, c) == if c == ch then None else Lookup(old(content), c)
    {
      content := WithoutKey(content, ch);
      calls := calls[op := Received(ch, ack)];
    }

    /** Cleans up after a call: takes its registration back, then empties its channel and returns it to
        the pool. */
    method Cleanup(op: string, ch: Channel)
      requires Valid() && op in calls && (calls[op].Received? || calls[op].GaveUp?) && calls[op].ch == ch
      modifies this
      ensures Valid() && Table() == Next(Next(old(Table()), Unregister(op)), Recycle(op))
      ensures pendingAckCount == old(pendingAckCount) - 1 && pool == old(pool) + {ch}
      ensures forall o :: Lookup(pendingAcks, o) == if o == op then None else Lookup(old(pendingAcks), o)
      ensures forall c :: Lookup(content, c) == if c == ch then None else Lookup(old(content), c)
    {
      ghost var before := Table();
      ghost var result := if calls[op].Received? then Some(calls[op].ack) else None;
      HandBack(op, ch, result);
      BothKept(before, Unregister(op), Recycle(op), Table());
    }

    /** Cleans up after a message that could not be sent. */
    method AbandonSend(op: string, ch: Channel)
      requires Valid() && op in calls && calls[op] == Waiting(ch)
      modifies this
      ensures Valid() && Table() == Next(Next(old(Table()), SendFailed(op)), Recycle(op))
      ensures pendingAckCount == old(pendingAckCount) - 1 && pool == old(pool) + {ch}
      ensures forall o :: Lookup(pendingAcks, o) == if o == op then None else Lookup(old(pendingAcks), o)
      ensures forall c :: Lookup(content, c) == if c == ch then None else Lookup(old(content), c)
    {
      ghost var before := Table();
      HandBack(op, ch, None);
      BothKept(before, SendFailed(op), Recycle(op), Table());
    }

    /** Takes a registration back, empties its channel and returns that to the pool. */
    method HandBack(op: string, ch: Channel, ghost result: Option<Ack>)
      modifies this`pendingAcks, this`pendingAckCount, this`content, this`pool, this`calls
      ensures pendingAcks == WithoutKey(old(pendingAcks), op) && pendingAckCount == old(pendingAckCount) - 1
      ensures content == WithoutKey(old(content), ch) && pool == old(pool) + {ch}
      ensures calls == old(calls)[op := Unregistered(ch, result)][op := Done(result)]
      ensures forall o :: Lookup(pendingAcks, o) == if o == op then None else Lookup(old(pendingAcks), o)
      ensures forall c :: Lookup(content, c) == if c == ch then None else Lookup(old(content), c)
    {
      pendingAcks := WithoutKey(pendingAcks, op);
      pendingAckCount := pendingAckCount - 1;
      content := WithoutKey(content, ch);
      pool := pool + {ch};
      calls := calls[op := Unregistered(ch, result)][op := Done(result)];
    }
  }

  lemma BothKept(s: State, first: Step, second: Step, t: State)
    requires Invariant(s) && Enabled(s, first) && Enabled(Next(s, first), second)
    requires !first.Deliver? && !second.Deliver? && t == Next(Next(s, first), second)
    ensures Invariant(t)
  {
    InvariantKept(s, first);
    InvariantKept(Next(s, first), second);
  }

  lemma LookedUpAndDropped(s: State, ack: Ack)
    requires ack.opId in s.pendingAcks
    ensures var ch := s.pendingAcks[ack.opId];
      Next(Next(s, Look(ack)), Deliver(ack, ch)) ==
        if ch in s.content then s.(pendingAcks := WithoutKey(s.pendingAcks, ack.opId)) else s.(content := s.content[ch := ack])
  {
  }

  lemma TurnedAway(s: State, op: string)
    requires Enabled(s, Begin(op)) && s.pendingAckCount + 1 > MAX_PENDING
    ensures var t := Next(s, Begin(op));
      Enabled(t, Reject(op)) && Next(t, Reject(op)) == s.(calls := s.calls[op := Rejecting][op := Done(None)])
  {
  }

  lemma HandledAtOnce(s: State, ack: Ack, t: State)
    requires Invariant(s) && Enabled(s, Look(ack))
    requires t == Next(Next(s, Look(ack)), Deliver(ack, s.pendingAcks[ack.opId]))
    ensures Invariant(t)
  {
    LookIsTimely(s, ack);
    InvariantKept(s, Look(ack));
    InvariantKept(Next(s, Look(ack)), Deliver(ack, s.pendingAcks[ack.opId]));
  }
}
