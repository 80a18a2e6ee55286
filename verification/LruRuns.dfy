/** What the memory-limited store holds after a run of commands: the last entry set under each key, unless
    something took it away since. */
module LruRuns {
  import opened Prelude
  import opened Lru

  /** Does this command store an entry under the key? */
  ghost predicate Stores(c: Cache, cmd: Command, limit: int, budget: nat, key: string) {
    cmd.Set? && cmd.key == key != "" && Fits(c, |key| + |cmd.entry.value| + 64, limit, budget)
  }

  /** Does this command take the key away?  Erasing and clearing do; so does finding it expired; and so does
      evicting it to make room. */
  ghost predicate Loses(c: Cache, cmd: Command, limit: int, budget: nat, key: string) {
    match cmd
    case Set(k, e) => k != "" && key in Victims(c, |k| + |e.value| + 64, limit, budget)
    case Get(k, now) => k == key != "" && key in c.data && c.data[key].expireAt != 0 && now > c.data[key].expireAt
    case Erase(k) => k == key != ""
    case Keys(now) => key in c.data && c.data[key].expireAt != 0 && now > c.data[key].expireAt
    case Clear => true
  }

  /** One command, key by key. */
  lemma CommandContents(c: Cache, cmd: Command, limit: int, budget: nat, key: string)
    requires WellFormed(c) && "" !in c.data
    ensures Lookup(Execute(c, cmd, limit, budget).0.data, key) ==
      if Stores(c, cmd, limit, budget, key) then Some(cmd.entry)
      else if Loses(c, cmd, limit, budget, key) then None
      else Lookup(c.data, key)
  {
    match cmd
    case Set(k, e) =>
      SetContents(c, k, e, limit, budget, key);
    case Get(k, now) =>
      GetContents(c, k, now, limit, budget, key);
    case Erase(k) =>
      EraseContents(c, k, limit, budget, key);
    case Keys(now) =>
      KeysContents(c, now, limit, budget, key);
    case Clear =>
      ClearContents(c, limit, budget, key);
  }

  lemma SetContents(c: Cache, k: string, e: Entry, limit: int, budget: nat, key: string)
    requires WellFormed(c)
    ensures Lookup(Execute(c, Set(k, e), limit, budget).0.data, key) ==
      if Stores(c, Set(k, e), limit, budget, key) then Some(e)
      else if Loses(c, Set(k, e), limit, budget, key) then None
      else Lookup(c.data, key)
  {
    if k != "" {
      SetMeans(c, k, e, limit, budget, key);
    }
  }

  lemma KeysContents(c: Cache, now: int, limit: int, budget: nat, key: string)
    ensures Lookup(Execute(c, Keys(now), limit, budget).0.data, key) ==
      if Loses(c, Keys(now), limit, budget, key) then None else Lookup(c.data, key)
  {
    PurgedContents(c, now, key);
  }

  lemma ClearContents(c: Cache, limit: int, budget: nat, key: string)
    ensures Lookup(Execute(c, Clear, limit, budget).0.data, key) == None
  {
  }

  lemma GetContents(c: Cache, k: string, now: int, limit: int, budget: nat, key: string)
    ensures Lookup(Execute(c, Get(k, now), limit, budget).0.data, key) ==
      if Loses(c, Get(k, now), limit, budget, key) then None else Lookup(c.data, key)
  {
  }

  lemma EraseContents(c: Cache, k: string, limit: int, budget: nat, key: string)
    requires "" !in c.data
    ensures Lookup(Execute(c, Erase(k), limit, budget).0.data, key) == if k == key then None else Lookup(c.data, key)
  {
  }

  ghost predicate StoredAt(cmds: seq<Command>, limit: int, budget: nat, i: nat, key: string) {
    i < |cmds| && Stores(After(cmds[..i], limit, budget), cmds[i], limit, budget, key)
  }

  ghost predicate LostAt(cmds: seq<Command>, limit: int, budget: nat, i: nat, key: string) {
    i < |cmds| && Loses(After(cmds[..i], limit, budget), cmds[i], limit, budget, key)
  }

  /** The last command that stored the key is at `i`, and none has taken it away since. */
  ghost predicate LastStored(cmds: seq<Command>, limit: int, budget: nat, i: nat, key: string) {
    && StoredAt(cmds, limit, budget, i, key)
    && forall j :: i < j < |cmds| ==> !StoredAt(cmds, limit, budget, j, key) && !LostAt(cmds, limit, budget, j, key)
  }

  lemma {:induction false} NoEmptyKey(cmds: seq<Command>, limit: int, budget: nat)
    ensures WellFormed(After(cmds, limit, budget)) && "" !in After(cmds, limit, budget).data
  {
    RunKeeps(cmds, limit, budget);
    if cmds != [] {
      var front := cmds[..|cmds| - 1];
      NoEmptyKey(front, limit, budget);
      CommandContents(After(front, limit, budget), cmds[|cmds| - 1], limit, budget, "");
    }
  }

  lemma SameBefore(cmds: seq<Command>, limit: int, budget: nat, i: nat, key: string)
    requires i < |cmds| - 1
    ensures StoredAt(cmds, limit, budget, i, key) <==> StoredAt(cmds[..|cmds| - 1], limit, budget, i, key)
    ensures LostAt(cmds, limit, budget, i, key) <==> LostAt(cmds[..|cmds| - 1], limit, budget, i, key)
  {
    assert cmds[..|cmds| - 1][..i] == cmds[..i];
  }

  lemma LastStoredBefore(cmds: seq<Command>, limit: int, budget: nat, i: nat, key: string)
    requires cmds != []
    ensures LastStored(cmds, limit, budget, i, key) <==>
      var front, n := cmds[..|cmds| - 1], |cmds| - 1;
      if StoredAt(cmds, limit, budget, n, key) then i == n
      else !LostAt(cmds, limit, budget, n, key) && LastStored(front, limit, budget, i, key)
  {
    var front, n := cmds[..|cmds| - 1], |cmds| - 1;
    if i < n {
      forall j | i <= j < n
        ensures StoredAt(cmds, limit, budget, j, key) <==> StoredAt(front, limit, budget, j, key)
        ensures LostAt(cmds, limit, budget, j, key) <==> LostAt(front, limit, budget, j, key)
      {
        SameBefore(cmds, limit, budget, j, key);
      }
      if LastStored(front, limit, budget, i, key) && !StoredAt(cmds, limit, budget, n, key)
         && !LostAt(cmds, limit, budget, n, key) {
        forall j | i < j < |cmds|
          ensures !StoredAt(cmds, limit, budget, j, key) && !LostAt(cmds, limit, budget, j, key)
        {
          assert j < n ==> !StoredAt(front, limit, budget, j, key) && !LostAt(front, limit, budget, j, key);
        }
      }
      if LastStored(cmds, limit, budget, i, key) {
        assert !StoredAt(cmds, limit, budget, n, key) && !LostAt(cmds, limit, budget, n, key);
      }
    }
  }

  /** WHAT IS STORED.  After any commands a key holds the entry of the last Set that stored it if nothing took it
      away since, and nothing otherwise. */
  lemma {:induction false} ContentsExactly(cmds: seq<Command>, limit: int, budget: nat, key: string)
    ensures var data := After(cmds, limit, budget).data;
      && (key in data <==> exists i: nat :: LastStored(cmds, limit, budget, i, key))
      && forall i: nat :: LastStored(cmds, limit, budget, i, key) ==> Lookup(data, key) == Some(cmds[i].entry)
  {
    if cmds != [] {
      var front := cmds[..|cmds| - 1];
      ContentsExactly(front, limit, budget, key);
      ContentsNext(cmds, limit, budget, key);
      if i: nat :| LastStored(front, limit, budget, i, key) {
        LastStoredBefore(cmds, limit, budget, i, key);
      }
    }
  }

  /** The last command decides, or else what was there before it. */
  lemma ContentsNext(cmds: seq<Command>, limit: int, budget: nat, key: string)
    requires cmds != []
    ensures var front, n := cmds[..|cmds| - 1], |cmds| - 1;
      var data := After(cmds, limit, budget).data;
      if StoredAt(cmds, limit, budget, n, key) then
        && LastStored(cmds, limit, budget, n, key) && Lookup(data, key) == Some(cmds[n].entry)
        && forall i: nat :: LastStored(cmds, limit, budget, i, key) ==> i == n
      else
        && Lookup(data, key) ==
             (if LostAt(cmds, limit, budget, n, key) then None else Lookup(After(front, limit, budget).data, key))
        && forall i: nat :: LastStored(cmds, limit, budget, i, key) <==>
             (!LostAt(cmds, limit, budget, n, key) && LastStored(front, limit, budget, i, key))
  {
    var front, n := cmds[..|cmds| - 1], |cmds| - 1;
    NoEmptyKey(front, limit, budget);
    CommandContents(After(front, limit, budget), cmds[n], limit, budget, key);
    forall i: nat
      ensures LastStored(cmds, limit, budget, i, key) <==>
        if StoredAt(cmds, limit, budget, n, key) then i == n
        else !LostAt(cmds, limit, budget, n, key) && LastStored(front, limit, budget, i, key)
    {
      LastStoredBefore(cmds, limit, budget, i, key);
    }
  }
}
