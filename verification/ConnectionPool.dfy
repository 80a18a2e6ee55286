/**
  The pool of connections to one peer.  Connections are dialled outside the lock, so a caller first
  reserves a place; every section that runs under the lock is one step.  A caller that finds the pool
  exhausted sleeps on a condition variable until it is signalled.
 */
module ConnectionPool {
  import opened Prelude

  type Conn = nat

  datatype Idle = Idle(conn: Conn, lastUsed: int)

  datatype Settings = Settings(maxIdle: nat, maxConns: nat, idleTimeout: nat)

  /** `sleeping` callers wait on the condition variable; `woken` ones were signalled and have not looked
      again yet. */
  datatype Pool = Pool(idle: seq<Idle>, total: int, closed: bool, sleeping: nat, woken: nat)

  const NEW := Pool([], 0, false, 0, 0)

  /** What a caller of Get leaves the lock with. */
  datatype Grant = Closed | Reuse(conn: Conn) | Reserved | Cancelled | Asleep

  predicate Usable(c: Idle, now: int, timeout: nat, broken: set<Conn>) {
    now - c.lastUsed <= timeout && c.conn !in broken
  }

  /** One past the position of the last usable connection; zero if there is none. */
  function LastUsable(idle: seq<Idle>, now: int, timeout: nat, broken: set<Conn>): (n: nat)
    ensures n <= |idle|
    ensures n > 0 ==> Usable(idle[n - 1], now, timeout, broken)
    ensures forall i :: n <= i < |idle| ==> !Usable(idle[i], now, timeout, broken)
  {
    if idle == [] then 0
    else if Usable(idle[|idle| - 1], now, timeout, broken) then |idle|
    else LastUsable(idle[..|idle| - 1], now, timeout, broken)
  }

  function Conns(idle: seq<Idle>): set<Conn> {
    if idle == [] then {} else Conns(idle[..|idle| - 1]) + {idle[|idle| - 1].conn}
  }

  lemma {:induction false} ConnsExactly(idle: seq<Idle>)
    ensures Conns(idle) == set c | c in idle :: c.conn
  {
    if idle != [] {
      var front, last := idle[..|idle| - 1], idle[|idle| - 1];
      ConnsExactly(front);
      assert forall c :: c in idle <==> c in front || c == last;
    }
  }

  /** Wakes one sleeper, if there is one. */
  function Signal(p: Pool): Pool {
    if p.sleeping > 0 then p.(sleeping := p.sleeping - 1, woken := p.woken + 1) else p
  }

  function Broadcast(p: Pool): Pool {
    p.(sleeping := 0, woken := p.woken + p.sleeping)
  }

  /** One turn of Get: take the most recently returned connection that is usable, else reserve a place,
      else sleep.  The unusable connections met on the way are closed. */
  function Turn(p: Pool, s: Settings, now: int, broken: set<Conn>, cancelled: bool): (Pool, Grant) {
    if p.closed then (p, Closed)
    else
      var n := LastUsable(p.idle, now, s.idleTimeout, broken);
      var total := p.total - (|p.idle| - n);
      if n > 0 then (p.(idle := p.idle[..n - 1], total := total), Reuse(p.idle[n - 1].conn))
      else if total < s.maxConns then (p.(idle := [], total := total + 1), Reserved)
      else if cancelled then (p.(idle := [], total := total), Cancelled)
      else (p.(idle := [], total := total, sleeping := p.sleeping + 1), Asleep)
  }

  /** A signalled caller is running again. */
  function Awake(p: Pool): Pool
    requires p.woken > 0
  {
    p.(woken := p.woken - 1)
  }

  function DialFailed(p: Pool): Pool {
    p.(total := p.total - 1)
  }

  /** Is there no room to keep one more idle connection? */
  predicate Full(p: Pool, s: Settings) {
    p.closed || |p.idle| >= s.maxIdle
  }

  function Returned(p: Pool, s: Settings, conn: Conn, now: int): Pool {
    Signal(if Full(p, s) then p.(total := p.total - 1) else p.(idle := p.idle + [Idle(conn, now)]))
  }

  function Invalidated(p: Pool): Pool {
    if p.total > 0 then Signal(p.(total := p.total - 1)) else p
  }

  function Prewarmed(p: Pool, s: Settings, conn: Conn, now: int): Pool {
    if Full(p, s) then p else p.(idle := p.idle + [Idle(conn, now)], total := p.total + 1)
  }

  /** How many dials succeed before one fails, of the first `limit`. */
  function Successes(dials: seq<Option<Conn>>, limit: int): (n: nat)
    ensures n <= |dials| && (n == 0 || n <= limit)
    ensures forall i :: 0 <= i < n ==> dials[i].Some?
    ensures n == |dials| || n >= limit || dials[n].None?
  {
    if dials == [] || limit <= 0 || dials[0].None? then 0 else 1 + Successes(dials[1..], limit - 1)
  }

  lemma {:induction false} SuccessesAre(dials: seq<Option<Conn>>, limit: int, i: nat)
    requires i <= |dials| && (i == 0 || i <= limit) && forall j :: 0 <= j < i ==> dials[j].Some?
    requires i >= limit || i == |dials| || dials[i].None?
    ensures Successes(dials, limit) == i
  {
    if i > 0 {
      SuccessesAre(dials[1..], limit - 1, i - 1);
    }
  }

  /** The connections that dialling yielded. */
  function Opened(dials: seq<Option<Conn>>): set<Conn> {
    set d | d in dials && d.Some? :: d.value
  }

  lemma OpenedNext(dials: seq<Option<Conn>>, from: nat, i: nat)
    requires from <= i < |dials| && dials[i].Some?
    ensures Opened(dials[from..i + 1]) == Opened(dials[from..i]) + {dials[i].value}
    ensures Opened(dials[i + 1..i + 1]) == {}
  {
  }

  function PrewarmedAll(p: Pool, s: Settings, dials: seq<Option<Conn>>, now: int): Pool
    requires forall i :: 0 <= i < |dials| ==> dials[i].Some?
  {
    if dials == [] then p
    else Prewarmed(PrewarmedAll(p, s, dials[..|dials| - 1], now), s, dials[|dials| - 1].value, now)
  }

  predicate Stale(c: Idle, now: int, timeout: nat) {
    now - c.lastUsed >= timeout
  }

  function Active(idle: seq<Idle>, now: int, timeout: nat): seq<Idle> {
    if idle == [] then []
    else
      var front, last := Active(idle[..|idle| - 1], now, timeout), idle[|idle| - 1];
      if Stale(last, now, timeout) then front else front + [last]
  }

  function StaleConns(idle: seq<Idle>, now: int, timeout: nat): set<Conn> {
    if idle == [] then {}
    else
      var front, last := StaleConns(idle[..|idle| - 1], now, timeout), idle[|idle| - 1];
      if Stale(last, now, timeout) then front + {last.conn} else front
  }

  function Cleaned(p: Pool, s: Settings, now: int): Pool {
    if p.closed then p
    else
      var active := Active(p.idle, now, s.idleTimeout);
      p.(idle := active, total := p.total - (|p.idle| - |active|))
  }

  function Shut(p: Pool): Pool {
    if p.closed then p else Broadcast(p.(idle := [], total := 0, closed := true))
  }

  // ---------------------------------------------------------------- the pool among its callers

  /** `out` are the connections callers hold, `dialling` the dials in flight, `gone` the closed connections
      and `dialled` all there ever were; `prewarmed` counts those dialled ahead of need. */
  datatype World = World(pool: Pool, out: set<Conn>, dialling: nat, gone: set<Conn>, dialled: set<Conn>, prewarmed: nat)

  const START := World(NEW, {}, 0, {}, {}, 0)

  datatype Step =
    | Get(now: int, broken: set<Conn>, cancelled: bool)
    | Wake(now: int, broken: set<Conn>, cancelled: bool)
    | Dialled(conn: Conn)
    | DialError
    | Put(conn: Conn, now: int)
    | Invalidate(conn: Conn)
    | Prewarm(conn: Conn, now: int)
    | Cleanup(now: int)
    | WakeAll
    | Close

  /** A connection is handed back once, by the caller that holds it; a dial yields a new connection. */
  predicate Enabled(w: World, step: Step) {
    match step
    case Wake(_, _, _) => w.pool.woken > 0
    case Dialled(conn) => w.dialling > 0 && conn !in w.dialled
    case DialError => w.dialling > 0
    case Put(conn, _) => conn in w.out
    case Invalidate(conn) => conn in w.out
    case Prewarm(conn, _) => conn !in w.dialled
    case _ => true
  }

  /** The world in which the pool has become `p` and its caller holds `taken`: the idle connections that
      are in neither are closed. */
  function Settled(w: World, p: Pool, taken: set<Conn>): World {
    w.(pool := p, out := w.out + taken, gone := w.gone + (Conns(w.pool.idle) - Conns(p.idle) - taken))
  }

  function Granted(w: World, turn: (Pool, Grant)): World {
    var (p, grant) := turn;
    match grant
    case Reuse(conn) => Settled(w, p, {conn})
    case Reserved => Settled(w, p, {}).(dialling := w.dialling + 1)
    case _ => Settled(w, p, {})
  }

  function Next(w: World, s: Settings, step: Step): World
    requires Enabled(w, step)
  {
    match step
    case Get(now, broken, cancelled) => Granted(w, Turn(w.pool, s, now, broken, cancelled))
    case Wake(now, broken, cancelled) =>
      // a caller whose context is done leaves without looking
      var w1 := w.(pool := Awake(w.pool));
      if cancelled then w1 else Granted(w1, Turn(w1.pool, s, now, broken, cancelled))
    case Dialled(conn) => w.(out := w.out + {conn}, dialling := w.dialling - 1, dialled := w.dialled + {conn})
    case DialError => w.(pool := DialFailed(w.pool), dialling := w.dialling - 1)
    case Put(conn, now) =>
      w.(pool := Returned(w.pool, s, conn, now), out := w.out - {conn},
         gone := if Full(w.pool, s) then w.gone + {conn} else w.gone)
    case Invalidate(conn) =>
      w.(pool := Invalidated(w.pool), out := w.out - {conn}, gone := w.gone + {conn})
    case Prewarm(conn, now) =>
      w.(pool := Prewarmed(w.pool, s, conn, now), dialled := w.dialled + {conn},
         gone := if Full(w.pool, s) then w.gone + {conn} else w.gone,
         prewarmed := if Full(w.pool, s) then w.prewarmed else w.prewarmed + 1)
    case Cleanup(now) => Settled(w, Cleaned(w.pool, s, now), {})
    case WakeAll => w.(pool := Broadcast(w.pool))
    case Close => Settled(w, Shut(w.pool), {})
  }

  // ---------------------------------------------------------------- conservation

  /** No connection is idle twice. */
  ghost predicate Apart(idle: seq<Idle>) {
    idle != [] ==>
      Apart(idle[..|idle| - 1]) && idle[|idle| - 1].conn !in Conns(idle[..|idle| - 1])
  }

  /** In how many places a connection is. */
  ghost function Places(w: World, conn: Conn): nat {
    (if conn in Conns(w.pool.idle) then 1 else 0) + (if conn in w.out then 1 else 0) + (if conn in w.gone then 1 else 0)
  }

  /** Every connection ever dialled is in exactly one place, and no other connection is anywhere. */
  ghost predicate InOnePlace(w: World) {
    && Apart(w.pool.idle)
    && forall conn :: Places(w, conn) == if conn in w.dialled then 1 else 0
  }

  /** The count is right until the pool is closed; then nothing is idle and nobody sleeps. */
  ghost predicate Accounted(w: World, s: Settings) {
    if w.pool.closed then w.pool.idle == [] && w.pool.total <= 0 && w.pool.sleeping == 0
    else
      && w.pool.total == |w.pool.idle| + |w.out| + w.dialling
      && |w.pool.idle| <= s.maxIdle
      && w.pool.total <= s.maxConns + w.prewarmed
  }

  ghost predicate Invariant(w: World, s: Settings) {
    InOnePlace(w) && Accounted(w, s)
  }

  lemma ConnsAppend(idle: seq<Idle>, c: Idle)
    requires Apart(idle) && c.conn !in Conns(idle)
    ensures Apart(idle + [c]) && Conns(idle + [c]) == Conns(idle) + {c.conn}
  {
  }

  lemma {:induction false} ConnsPrefix(idle: seq<Idle>, n: nat)
    requires n < |idle| && Apart(idle)
    ensures Apart(idle[..n]) && Conns(idle[..n]) <= Conns(idle) - {idle[n].conn}
    ensures idle[n].conn in Conns(idle)
  {
    if n < |idle| - 1 {
      ConnsPrefix(idle[..|idle| - 1], n);
      assert idle[..|idle| - 1][..n] == idle[..n];
    }
  }

  lemma {:induction false} ActiveConns(idle: seq<Idle>, now: int, timeout: nat)
    requires Apart(idle)
    ensures var active := Active(idle, now, timeout);
      && Apart(active) && Conns(active) <= Conns(idle) && |active| <= |idle|
      && StaleConns(idle, now, timeout) == Conns(idle) - Conns(active)
  {
    if idle != [] {
      var front, last := idle[..|idle| - 1], idle[|idle| - 1];
      ActiveConns(front, now, timeout);
      ConnsAppend(Active(front, now, timeout), last);
      OneMoreConn(Conns(front), Conns(Active(front, now, timeout)), last.conn);
    }
  }

  lemma OneMoreConn(all: set<Conn>, kept: set<Conn>, conn: Conn)
    requires conn !in all && kept <= all
    ensures all + {conn} - kept == all - kept + {conn}
    ensures all + {conn} - (kept + {conn}) == all - kept
  {
  }

  lemma SettledKeeps(w: World, p: Pool, taken: set<Conn>)
    requires InOnePlace(w) && Apart(p.idle)
    requires taken <= Conns(w.pool.idle) && Conns(p.idle) <= Conns(w.pool.idle) - taken
    ensures InOnePlace(Settled(w, p, taken))
    ensures |Settled(w, p, taken).out| == |w.out| + |taken|
  {
    forall conn
      ensures Places(Settled(w, p, taken), conn) == Places(w, conn)
    {
    }
    assert w.out !! taken by {
      assert forall conn :: conn in w.out ==> Places(w, conn) <= 1;
    }
  }

  lemma TurnPlaces(p: Pool, s: Settings, now: int, broken: set<Conn>, cancelled: bool)
    requires Apart(p.idle)
    ensures var (q, grant) := Turn(p, s, now, broken, cancelled);
      && Apart(q.idle)
      && Conns(q.idle) <= Conns(p.idle) - (if grant.Reuse? then {grant.conn} else {})
      && (grant.Reuse? ==> grant.conn in Conns(p.idle))
  {
    var n := LastUsable(p.idle, now, s.idleTimeout, broken);
    if n > 0 {
      ConnsPrefix(p.idle, n - 1);
    }
  }

  lemma TurnAccounted(w: World, s: Settings, now: int, broken: set<Conn>, cancelled: bool)
    requires Accounted(w, s)
    requires var grant := Turn(w.pool, s, now, broken, cancelled).1; grant.Reuse? ==> grant.conn !in w.out
    ensures Accounted(Granted(w, Turn(w.pool, s, now, broken, cancelled)), s)
  {
    var (p, grant) := Turn(w.pool, s, now, broken, cancelled);
    if grant.Reuse? {
      assert |w.out + {grant.conn}| == |w.out| + 1;
    } else {
      assert w.out + {} == w.out;
    }
  }

  lemma TurnKeeps(w: World, s: Settings, now: int, broken: set<Conn>, cancelled: bool)
    requires Invariant(w, s)
    ensures Invariant(Granted(w, Turn(w.pool, s, now, broken, cancelled)), s)
  {
    TurnPlaces(w.pool, s, now, broken, cancelled);
    var (p, grant) := Turn(w.pool, s, now, broken, cancelled);
    SettledKeeps(w, p, if grant.Reuse? then {grant.conn} else {});
    if grant.Reuse? {
      assert Places(w, grant.conn) <= 1;
    }
    TurnAccounted(w, s, now, broken, cancelled);
    GrantedPlaces(w, (p, grant));
  }

  lemma GrantedPlaces(w: World, turn: (Pool, Grant))
    requires InOnePlace(Settled(w, turn.0, if turn.1.Reuse? then {turn.1.conn} else {}))
    ensures InOnePlace(Granted(w, turn))
  {
  }

  lemma WakeKeeps(w: World, s: Settings, now: int, broken: set<Conn>, cancelled: bool)
    requires Invariant(w, s) && w.pool.woken > 0
    ensures Invariant(Next(w, s, Wake(now, broken, cancelled)), s)
  {
    var w1 := w.(pool := Awake(w.pool));
    assert Invariant(w1, s) by {
      assert forall conn :: Places(w1, conn) == Places(w, conn);
    }
    if !cancelled {
      TurnKeeps(w1, s, now, broken, cancelled);
    }
  }

  /** A caller's connection becomes idle. */
  lemma HandedToIdle(w: World, p: Pool, conn: Conn, now: int)
    requires InOnePlace(w) && conn in w.out && p.idle == w.pool.idle + [Idle(conn, now)]
    ensures InOnePlace(w.(pool := p, out := w.out - {conn}))
  {
    assert Places(w, conn) == 1;
    ConnsAppend(w.pool.idle, Idle(conn, now));
    var w' := w.(pool := p, out := w.out - {conn});
    forall c
      ensures Places(w', c) == Places(w, c)
    {
    }
  }

  /** A caller's connection is closed. */
  lemma HandedToGone(w: World, p: Pool, conn: Conn)
    requires InOnePlace(w) && conn in w.out && p.idle == w.pool.idle
    ensures InOnePlace(w.(pool := p, out := w.out - {conn}, gone := w.gone + {conn}))
  {
  }

  lemma OneLessOut(w: World, conn: Conn)
    requires conn in w.out
    ensures |w.out - {conn}| == |w.out| - 1
  {
  }

  lemma PutKeeps(w: World, s: Settings, conn: Conn, now: int)
    requires Invariant(w, s) && conn in w.out
    ensures Invariant(Next(w, s, Put(conn, now)), s)
  {
    var p := Returned(w.pool, s, conn, now);
    OneLessOut(w, conn);
    if Full(w.pool, s) {
      HandedToGone(w, p, conn);
    } else {
      HandedToIdle(w, p, conn, now);
    }
  }

  lemma InvalidateKeeps(w: World, s: Settings, conn: Conn)
    requires Invariant(w, s) && conn in w.out
    ensures Invariant(Next(w, s, Invalidate(conn)), s)
  {
  }

  lemma PrewarmKeeps(w: World, s: Settings, conn: Conn, now: int)
    requires Invariant(w, s) && conn !in w.dialled
    ensures Invariant(Next(w, s, Prewarm(conn, now)), s)
  {
    if !Full(w.pool, s) {
      ConnsAppend(w.pool.idle, Idle(conn, now));
    }
  }

  lemma DialledKeeps(w: World, s: Settings, conn: Conn)
    requires Invariant(w, s) && w.dialling > 0 && conn !in w.dialled
    ensures Invariant(Next(w, s, Dialled(conn)), s)
  {
  }

  lemma CleanupKeeps(w: World, s: Settings, now: int)
    requires Invariant(w, s)
    ensures Invariant(Next(w, s, Cleanup(now)), s)
  {
    ActiveConns(w.pool.idle, now, s.idleTimeout);
    SettledKeeps(w, Cleaned(w.pool, s, now), {});
  }

  lemma CloseKeeps(w: World, s: Settings)
    requires Invariant(w, s)
    ensures Invariant(Next(w, s, Close), s)
  {
  }

  lemma InvariantKept(w: World, s: Settings, step: Step)
    requires Invariant(w, s) && Enabled(w, step)
    ensures Invariant(Next(w, s, step), s)
  {
    match step
    case Get(now, broken, cancelled) => TurnKeeps(w, s, now, broken, cancelled);
    case Wake(now, broken, cancelled) => WakeKeeps(w, s, now, broken, cancelled);
    case Dialled(conn) => DialledKeeps(w, s, conn);
    case DialError =>
    case Put(conn, now) => PutKeeps(w, s, conn, now);
    case Invalidate(conn) => InvalidateKeeps(w, s, conn);
    case Prewarm(conn, now) => PrewarmKeeps(w, s, conn, now);
    case Cleanup(now) => CleanupKeeps(w, s, now);
    case WakeAll =>
    case Close => CloseKeeps(w, s);
  }

  // ---------------------------------------------------------------- whole runs

  /** A run of enabled steps, recorded with the settings of its pool. */
  ghost predicate Possible(s: Settings, run: seq<Step>)
    decreases |run|, 0
  {
    run != [] ==>
      Possible(s, run[..|run| - 1]) && Enabled(After(s, run[..|run| - 1]), run[|run| - 1])
  }

  ghost function After(s: Settings, run: seq<Step>): World
    requires Possible(s, run)
    decreases |run|, 1
  {
    if run == [] then START else Next(After(s, run[..|run| - 1]), s, run[|run| - 1])
  }

  lemma {:induction false} Reachable(s: Settings, run: seq<Step>)
    requires Possible(s, run)
    ensures Invariant(After(s, run), s)
  {
    if run != [] {
      var front, last := run[..|run| - 1], run[|run| - 1];
      Reachable(s, front);
      InvariantKept(After(s, front), s, last);
    }
  }

  lemma {:induction false} NonePrewarmed(s: Settings, run: seq<Step>)
    requires Possible(s, run) && forall step :: step in run ==> !step.Prewarm?
    ensures After(s, run).prewarmed == 0
  {
    if run != [] {
      NonePrewarmed(s, run[..|run| - 1]);
      assert run[|run| - 1] in run;
      SamePrewarmed(After(s, run[..|run| - 1]), s, run[|run| - 1]);
    }
  }

  lemma SamePrewarmed(w: World, s: Settings, step: Step)
    requires Enabled(w, step) && !step.Prewarm?
    ensures Next(w, s, step).prewarmed == w.prewarmed
  {
  }

  /** CONSERVATION, over all interleavings: until the pool is closed it counts exactly its idle connections,
      those that callers hold and the dials in flight; it keeps no more idle ones than it may; and it opens
      no more than its limit unless some were dialled ahead of need. */
  lemma Conservation(s: Settings, run: seq<Step>)
    requires Possible(s, run) && !After(s, run).pool.closed
    ensures var w := After(s, run);
      && w.pool.total == |w.pool.idle| + |w.out| + w.dialling
      && |w.pool.idle| <= s.maxIdle
      && w.pool.total <= s.maxConns + w.prewarmed
      && ((forall step :: step in run ==> !step.Prewarm?) ==> w.pool.total <= s.maxConns)
  {
    Reachable(s, run);
    if forall step :: step in run ==> !step.Prewarm? {
      NonePrewarmed(s, run);
    }
  }

  /** Every connection ever dialled is idle, held or closed, and only one of these, in every run, also after
      closing; and once the pool is closed and every caller has handed its connection back, all of them are
      closed. */
  lemma NothingLost(s: Settings, run: seq<Step>, conn: Conn)
    requires Possible(s, run)
    ensures var w := After(s, run);
      && Places(w, conn) == (if conn in w.dialled then 1 else 0)
      && (w.pool.closed && w.out == {} ==> w.gone == w.dialled && w.pool.sleeping == 0)
  {
    Reachable(s, run);
    var w := After(s, run);
    if w.pool.closed && w.out == {} {
      forall c
        ensures c in w.gone <==> c in w.dialled
      {
        assert Places(w, c) == if c in w.dialled then 1 else 0;
      }
    }
  }

  /** Dialling ahead of need respects the limit if and only if there was room below it, or for no idle one. */
  lemma PrewarmExact(w: World, s: Settings, conn: Conn, now: int)
    requires Invariant(w, s) && !w.pool.closed && w.pool.total <= s.maxConns && conn !in w.dialled
    ensures Next(w, s, Prewarm(conn, now)).pool.total <= s.maxConns
       <==> w.pool.total < s.maxConns || |w.pool.idle| >= s.maxIdle
  {
  }

  lemma Extend(s: Settings, run: seq<Step>, w: World, step: Step)
    requires Possible(s, run) && After(s, run) == w && Enabled(w, step)
    ensures Possible(s, run + [step]) && After(s, run + [step]) == Next(w, s, step)
  {
  }

  /** What a caller gets from an open pool: the most recently returned connection that has not been idle for
      longer than the timeout and is not broken, if there is any; otherwise a place, if one is free once the
      others are closed; and otherwise it sleeps, unless its context is done. */
  lemma GrantMeaning(p: Pool, s: Settings, now: int, broken: set<Conn>, cancelled: bool)
    requires !p.closed
    ensures var (q, grant) := Turn(p, s, now, broken, cancelled); var n := |q.idle|;
      && !q.closed && q.woken == p.woken && q.sleeping == p.sleeping + (if grant == Asleep then 1 else 0)
      && (forall j :: 0 <= j < |p.idle| && (j > n || !grant.Reuse?) ==>
            now - p.idle[j].lastUsed > s.idleTimeout || p.idle[j].conn in broken)
      && if grant.Reuse? then
           && n < |p.idle| && q.idle == p.idle[..n] && grant.conn == p.idle[n].conn && grant.conn !in broken
           && now - p.idle[n].lastUsed <= s.idleTimeout && q.total == p.total - (|p.idle| - 1 - n)
         else
           && q.idle == []
           && grant == (if p.total - |p.idle| < s.maxConns then Reserved else if cancelled then Cancelled else Asleep)
           && q.total == p.total - |p.idle| + if grant == Reserved then 1 else 0
  {
  }

  /** What cleaning up leaves: the connections idle for less than the timeout, in their order. */
  lemma CleanupMeaning(idle: seq<Idle>, now: int, timeout: nat)
    ensures Active(idle, now, timeout) == Without(idle, set c | c in idle && now - c.lastUsed >= timeout)
    ensures StaleConns(idle, now, timeout) == set c | c in idle && now - c.lastUsed >= timeout :: c.conn
  {
    StillActive(idle, idle, now, timeout);
  }

  lemma {:induction false} StillActive(idle: seq<Idle>, all: seq<Idle>, now: int, timeout: nat)
    requires forall c :: c in idle ==> c in all
    ensures Active(idle, now, timeout) == Without(idle, set c | c in all && now - c.lastUsed >= timeout)
    ensures StaleConns(idle, now, timeout) == set c | c in idle && now - c.lastUsed >= timeout :: c.conn
  {
    if idle != [] {
      var front, last := idle[..|idle| - 1], idle[|idle| - 1];
      assert forall c :: c in idle <==> c in front || c == last;
      StillActive(front, all, now, timeout);
    }
  }

  /** What prewarming keeps: as many of the connections as there is room for among the idle ones. */
  lemma {:induction false} PrewarmMeaning(p: Pool, s: Settings, dials: seq<Option<Conn>>, now: int)
    requires forall i :: 0 <= i < |dials| ==> dials[i].Some?
    ensures var q := PrewarmedAll(p, s, dials, now);
      var room := if p.closed || |p.idle| >= s.maxIdle then 0 else s.maxIdle - |p.idle|;
      var kept := if |dials| <= room then |dials| else room;
      && q == p.(idle := q.idle, total := p.total + kept) && |q.idle| == |p.idle| + kept && p.idle <= q.idle
      && forall i :: 0 <= i < kept ==> q.idle[|p.idle| + i] == Idle(dials[i].value, now)
  {
    if dials != [] {
      PrewarmMeaning(p, s, dials[..|dials| - 1], now);
    }
  }

  /** How many places were given back since the pool was closed, by handing a connection back or by a dial
      that failed. */
  ghost function GivenBack(s: Settings, run: seq<Step>): nat
    requires Possible(s, run)
    decreases |run|
  {
    if run == [] || !After(s, run[..|run| - 1]).pool.closed then 0
    else GivenBack(s, run[..|run| - 1]) + if run[|run| - 1].Put? || run[|run| - 1].DialError? then 1 else 0
  }

  lemma ClosedStep(w: World, s: Settings, step: Step)
    requires Enabled(w, step) && (w.pool.closed ==> w.pool.total <= 0)
    ensures var p := Next(w, s, step).pool;
      if w.pool.closed then
        p.closed && p.total == w.pool.total - if step.Put? || step.DialError? then 1 else 0
      else p.closed ==> p.total == 0
  {
  }

  /** THE COUNT AFTER CLOSING starts at zero and goes below it by one for every place given back; handing a
      broken connection back does not lower it. */
  lemma {:induction false} CountAfterClosing(s: Settings, run: seq<Step>)
    requires Possible(s, run) && After(s, run).pool.closed
    ensures After(s, run).pool.total == 0 - GivenBack(s, run)
    decreases |run|
  {
    if run != [] {
      var front := run[..|run| - 1];
      Reachable(s, front);
      ClosedStep(After(s, front), s, run[|run| - 1]);
      if After(s, front).pool.closed {
        CountAfterClosing(s, front);
      }
    }
  }

  /** One caller holds the connection it dialled. */
  ghost function Holding(run: seq<Step>): seq<Step> {
    run + [Get(0, {}, false)] + [Dialled(0)]
  }

  lemma HoldingRun(s: Settings)
    requires s.maxConns >= 1
    ensures Possible(s, Holding([]))
    ensures After(s, Holding([])) == World(NEW.(total := 1), {0}, 0, {}, {0}, 0)
  {
    var get := Get(0, {}, false);
    var w1 := START.(pool := NEW.(total := 1), dialling := 1);
    assert Possible(s, []) && After(s, []) == START;
    Extend(s, [], START, get);
    assert Next(START, s, get) == w1;
    Extend(s, [] + [get], w1, Dialled(0));
    assert {} + {0} == {0};
  }

  /** A run in which the count ends below zero: the pool is closed while a caller holds a connection. */
  lemma NegativeCount(s: Settings)
    requires s.maxConns >= 1
    ensures var run := Holding([]) + [Close] + [Put(0, 0)];
      Possible(s, run) && After(s, run).pool.total == -1
  {
    ClosedRun(s);
    Extend(s, Holding([]) + [Close], World(Pool([], 0, true, 0, 0), {0}, 0, {}, {0}, 0), Put(0, 0));
  }

  lemma ClosedRun(s: Settings)
    requires s.maxConns >= 1
    ensures var run := Holding([]) + [Close];
      Possible(s, run) && After(s, run) == World(Pool([], 0, true, 0, 0), {0}, 0, {}, {0}, 0)
  {
    HoldingRun(s);
    var w := World(NEW.(total := 1), {0}, 0, {}, {0}, 0);
    Extend(s, Holding([]), w, Close);
    assert Next(w, s, Close).gone == {};
  }

  /** A run that opens more than its limit: prewarming while a caller holds the only connection allowed. */
  lemma PrewarmedOver(s: Settings)
    requires s.maxConns == 1 && s.maxIdle >= 1
    ensures var run := Holding([]) + [Prewarm(1, 0)];
      Possible(s, run) && After(s, run).pool.total == 2 > s.maxConns
  {
    HoldingRun(s);
    Extend(s, Holding([]), World(NEW.(total := 1), {0}, 0, {}, {0}, 0), Prewarm(1, 0));
  }

  // ---------------------------------------------------------------- nobody sleeps beside a free place

  /** How many callers could be served at once. */
  function Available(p: Pool, s: Settings): nat {
    |p.idle| + if p.total < s.maxConns then s.maxConns - p.total else 0
  }

  /** For every free place a caller is awake to take it, or nobody sleeps. */
  predicate Served(p: Pool, s: Settings) {
    p.sleeping == 0 || p.woken >= Available(p, s)
  }

  /** Which steps may leave a caller asleep beside a free place: only a failed dial, a woken caller that
      leaves without looking, and dialling beyond the limit, each only when no other caller is awake to
      make up for it. */
  predicate Attended(p: Pool, s: Settings, step: Step) {
    var spare := p.sleeping == 0 || p.woken > Available(p, s);
    match step
    case DialError => spare || p.total > s.maxConns
    case Wake(_, _, true) => spare
    case Prewarm(_, _) => spare || Full(p, s) || p.total < s.maxConns
    case _ => true
  }

  lemma TurnServes(p: Pool, s: Settings, now: int, broken: set<Conn>, cancelled: bool)
    requires !p.closed && (p.sleeping == 0 || p.woken + 1 >= Available(p, s))
    ensures Served(Turn(p, s, now, broken, cancelled).0, s)
  {
  }

  /** EXACTLY WHEN A WAKE-UP IS LOST.  If everyone is served, everyone is still served after a step if and
      only if the step is attended. */
  lemma ServedExactly(w: World, s: Settings, step: Step)
    requires Invariant(w, s) && Enabled(w, step) && !w.pool.closed && Served(w.pool, s)
    ensures Served(Next(w, s, step).pool, s) <==> Attended(w.pool, s, step)
  {
    match step
    case Get(now, broken, cancelled) => TurnServes(w.pool, s, now, broken, cancelled);
    case Wake(now, broken, cancelled) =>
      if !cancelled {
        TurnServes(Awake(w.pool), s, now, broken, cancelled);
      }
    case Cleanup(now) => ActiveConns(w.pool.idle, now, s.idleTimeout);
    case _ =>
  }

  ghost predicate AllAttended(s: Settings, run: seq<Step>)
    requires Possible(s, run)
    decreases |run|
  {
    run != [] ==>
      AllAttended(s, run[..|run| - 1]) && Attended(After(s, run[..|run| - 1]).pool, s, run[|run| - 1])
  }

  /** NOBODY SLEEPS BESIDE A FREE PLACE, in any run until closing whose steps are all attended. */
  lemma {:induction false} AlwaysServed(s: Settings, run: seq<Step>)
    requires Possible(s, run) && AllAttended(s, run) && !After(s, run).pool.closed
    ensures Served(After(s, run).pool, s)
    decreases |run|
  {
    if run != [] {
      var front := run[..|run| - 1];
      AlwaysServed(s, front);
      Reachable(s, front);
      ServedExactly(After(s, front), s, run[|run| - 1]);
    }
  }

  /** A failed dial gives its place back without a signal: the caller that waited for it sleeps on although
      nothing is open, nothing is being dialled and nobody is awake. */
  lemma StrandedCaller(s: Settings)
    requires s.maxConns == 1
    ensures exists run :: Possible(s, run) && After(s, run) == START.(pool := NEW.(sleeping := 1))
  {
    var get := Get(0, {}, false);
    var w1 := START.(pool := NEW.(total := 1), dialling := 1);
    assert Possible(s, []) && After(s, []) == START;
    Extend(s, [], START, get);
    assert Next(START, s, get) == w1;
    var w2 := START.(pool := NEW.(total := 1, sleeping := 1), dialling := 1);
    Extend(s, [] + [get], w1, get);
    assert Next(w1, s, get) == w2;
    Extend(s, [] + [get] + [get], w2, DialError);
  }

  // ---------------------------------------------------------------- the pool itself

  class ConnPool {
    const settings: Settings
    var idleConns: seq<Idle>
    var total: int
    var closed: bool
    var sleeping: nat
    var woken: nat

    ghost function State(): Pool
      reads this
    {
      Pool(idleConns, total, closed, sleeping, woken)
    }

    constructor (settings: Settings)
      ensures State() == NEW && this.settings == settings
    {
      this.settings := settings;
      idleConns, total, closed, sleeping, woken := [], 0, false, 0, 0;
    }

    /** Takes the last usable connection off the idle list and closes the unusable ones behind it. */
    method PopUsable(now: int, broken: set<Conn>) returns (found: Option<Conn>, shut: set<Conn>)
      requires Apart(idleConns)
      modifies this`idleConns, this`total
      ensures var idle, n := old(idleConns), LastUsable(old(idleConns), now, settings.idleTimeout, broken);
        && total == old(total) - (|idle| - n)
        && found == (if n > 0 then Some(idle[n - 1].conn) else None)
        && idleConns == idle[..if n > 0 then n - 1 else 0]
      ensures shut == Conns(old(idleConns)) - Conns(idleConns) - (if found.Some? then {found.value} else {})
    {
      shut := {};
      ghost var idle := idleConns;
      ghost var n := LastUsable(idle, now, settings.idleTimeout, broken);
      while |idleConns| > 0
        invariant n <= |idleConns| <= |idle| && idleConns == idle[..|idleConns|]
        invariant n == LastUsable(idleConns, now, settings.idleTimeout, broken)
        invariant Apart(idleConns) && Conns(idleConns) <= Conns(idle) && shut == Conns(idle) - Conns(idleConns)
        invariant total == old(total) - (|idle| - |idleConns|)
      {
        var last := idleConns[|idleConns| - 1];
        idleConns := idleConns[..|idleConns| - 1];
        if now - last.lastUsed <= settings.idleTimeout && last.conn !in broken {
          return Some(last.conn), shut;
        }
        shut, total := shut + {last.conn}, total - 1;
      }
      found := None;
    }

    /** One turn of Get under the lock; `shut` are the connections it closes. */
    method Take(now: int, broken: set<Conn>, cancelled: bool) returns (grant: Grant, shut: set<Conn>)
      requires Apart(idleConns)
      modifies this
      ensures (State(), grant) == Turn(old(State()), settings, now, broken, cancelled)
      ensures shut == Conns(old(idleConns)) - Conns(idleConns) - (if grant.Reuse? then {grant.conn} else {})
    {
      if closed {
        return Closed, {};
      }
      var found;
      found, shut := PopUsable(now, broken);
      if found.Some? {
        return Reuse(found.value), shut;
      }
      if total < settings.maxConns {
        total := total + 1;
        return Reserved, shut;
      }
      if cancelled {
        return Cancelled, shut;
      }
      sleeping := sleeping + 1;
      return Asleep, shut;
    }

    /** A caller that was woken looks again, unless its context is done. */
    method TakeAfterWait(now: int, broken: set<Conn>, cancelled: bool) returns (grant: Grant, shut: set<Conn>)
      requires Apart(idleConns) && woken > 0
      modifies this
      ensures woken == old(woken) - 1
      ensures cancelled ==> State() == Awake(old(State())) && grant == Cancelled
      ensures !cancelled ==> (State(), grant) == Turn(Awake(old(State())), settings, now, broken, cancelled)
      ensures shut == Conns(old(idleConns)) - Conns(idleConns) - (if grant.Reuse? then {grant.conn} else {})
    {
      woken := woken - 1;
      if cancelled {
        return Cancelled, {};
      }
      grant, shut := Take(now, broken, cancelled);
    }

    /** Gives the reserved place of a failed dial back. */
    method AbandonDial()
      modifies this`total
      ensures State() == DialFailed(old(State())) && total == old(total) - 1
    {
      total := total - 1;
    }

    method WakeOne()
      modifies this`sleeping, this`woken
      ensures State() == Signal(old(State()))
      ensures sleeping == (if old(sleeping) == 0 then 0 else old(sleeping) - 1)
      ensures woken == old(woken) + old(sleeping) - sleeping
    {
      if sleeping > 0 {
        sleeping, woken := sleeping - 1, woken + 1;
      }
    }

    method Put(conn: Conn, now: int) returns (shut: set<Conn>)
      modifies this
      ensures State() == Returned(old(State()), settings, conn, now)
      ensures shut == if Full(old(State()), settings) then {conn} else {}
      ensures closed == old(closed) && sleeping == (if old(sleeping) == 0 then 0 else old(sleeping) - 1)
      ensures woken == old(woken) + old(sleeping) - sleeping
      ensures if old(closed) || |old(idleConns)| >= settings.maxIdle
        then idleConns == old(idleConns) && total == old(total) - 1 && shut == {conn}
        else idleConns == old(idleConns) + [Idle(conn, now)] && total == old(total) && shut == {}
    {
      if closed || |idleConns| >= settings.maxIdle {
        total := total - 1;
        shut := {conn};
      } else {
        idleConns := idleConns + [Idle(conn, now)];
        shut := {};
      }
      WakeOne();
    }

    method Invalidate(conn: Conn) returns (shut: set<Conn>)
      modifies this
      ensures State() == Invalidated(old(State())) && shut == {conn}
      ensures closed == old(closed) && idleConns == old(idleConns)
      ensures total == if old(total) > 0 then old(total) - 1 else old(total)
      ensures sleeping == if old(total) > 0 && old(sleeping) > 0 then old(sleeping) - 1 else old(sleeping)
      ensures woken == old(woken) + old(sleeping) - sleeping
    {
      shut := {conn};
      if total > 0 {
        total := total - 1;
        WakeOne();
      }
    }

    /** What a sender does with its connection after writing to it: exactly one of Put and Invalidate. */
    method HandBack(conn: Conn, written: bool, now: int) returns (shut: set<Conn>)
      modifies this
      ensures State() == if written then Returned(old(State()), settings, conn, now) else Invalidated(old(State()))
      ensures shut == if written && !Full(old(State()), settings) then {} else {conn}
    {
      if written {
        shut := Put(conn, now);
      } else {
        shut := Invalidate(conn);
      }
    }

    /** Dials up to `count` connections ahead of need, but no more than are kept idle, until a dial fails;
        `dials` is what dialling yields. */
    method Prewarm(count: int, dials: seq<Option<Conn>>, now: int) returns (created: nat, shut: set<Conn>)
      requires |dials| >= count
      modifies this
      ensures var n := Successes(dials, if count > settings.maxIdle then settings.maxIdle else count);
        && State() == PrewarmedAll(old(State()), settings, dials[..n], now)
        && created == |State().idle| - |old(State()).idle| && created <= n
        && shut == Opened(dials[created..n])
    {
      var limit := if count > settings.maxIdle then settings.maxIdle else count;
      created, shut := 0, {};
      ghost var before := State();
      var i := 0;
      while i < limit && dials[i].Some?
        invariant 0 <= i && (i == 0 || i <= limit) && forall j :: 0 <= j < i ==> dials[j].Some?
        invariant State() == PrewarmedAll(before, settings, dials[..i], now)
        invariant created == |idleConns| - |before.idle| && created <= i
        invariant created < i ==> Full(State(), settings)
        invariant shut == Opened(dials[created..i])
      {
        OpenedNext(dials, created, i);
        assert dials[..i + 1][..i] == dials[..i];
        var kept := AddPrewarmed(dials[i].value, now);
        if kept {
          created := created + 1;
        } else {
          shut := shut + {dials[i].value};
        }
        i := i + 1;
      }
      SuccessesAre(dials, limit, i);
    }

    /** Adds one connection dialled ahead of need, if the pool is open and keeps that many. */
    method AddPrewarmed(conn: Conn, now: int) returns (created: bool)
      modifies this
      ensures State() == Prewarmed(old(State()), settings, conn, now)
      ensures created == (!old(closed) && |old(idleConns)| < settings.maxIdle) == !Full(old(State()), settings)
    {
      created := |idleConns| < settings.maxIdle && !closed;
      if created {
        idleConns, total := idleConns + [Idle(conn, now)], total + 1;
      }
    }

    /** Closes the connections that have been idle for the whole timeout. */
    method Cleanup(now: int) returns (shut: set<Conn>)
      requires Apart(idleConns)
      modifies this
      ensures State() == Cleaned(old(State()), settings, now)
      ensures !old(closed) ==> total == old(total) - (|old(idleConns)| - |idleConns|)
      ensures shut == Conns(old(idleConns)) - Conns(idleConns)
    {
      shut := {};
      if closed {
        return;
      }
      var active: seq<Idle> := [];
      ghost var conns := idleConns;
      for i := 0 to |idleConns|
        invariant idleConns == conns && !closed && sleeping == old(sleeping) && woken == old(woken)
        invariant active == Active(conns[..i], now, settings.idleTimeout)
        invariant shut == StaleConns(conns[..i], now, settings.idleTimeout)
        invariant total == old(total) - (i - |active|)
      {
        var pc := idleConns[i];
        assert conns[..i + 1][..i] == conns[..i];
        if now - pc.lastUsed < settings.idleTimeout {
          active := active + [pc];
        } else {
          shut, total := shut + {pc.conn}, total - 1;
        }
      }
      assert conns[..|conns|] == conns;
      idleConns := active;
      ActiveConns(conns, now, settings.idleTimeout);
    }

    method Close() returns (shut: set<Conn>)
      requires Apart(idleConns)
      modifies this
      ensures State() == Shut(old(State())) && closed
      ensures !old(closed) ==>
        idleConns == [] && total == 0 && sleeping == 0 && woken == old(woken) + old(sleeping)
      ensures shut == Conns(old(idleConns)) - Conns(idleConns)
    {
      shut := {};
      if closed {
        return;
      }
      closed := true;
      sleeping, woken := 0, woken + sleeping;
      for i := 0 to |idleConns|
        invariant shut == Conns(idleConns[..i])
      {
        assert idleConns[..i + 1][..i] == idleConns[..i];
        shut := shut + {idleConns[i].conn};
      }
      assert idleConns[..|idleConns|] == idleConns;
      idleConns, total := [], 0;
    }
  }
}
