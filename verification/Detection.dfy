/** How the failure detector judges one peer, and how long a silent peer goes undetected. */
module Detection {
  import opened Prelude

  datatype NodeState = Unknown | Alive | Suspect | Dead

  /** Timeouts in nanoseconds. */
  datatype Timeouts = Timeouts(failure: nat, suspect: nat)

  /** The fixed grace period of 20 seconds. */
  const GRACE := 20_000_000_000

  /** How long a live peer of a cluster of `size` nodes may be silent. */
  function Effective(c: Timeouts, size: nat): nat {
    if size < 5 then c.failure * 2
    else if size < 10 then c.failure * 3 / 2
    else c.failure
  }

  /** How long a suspect may be silent. */
  function Deadline(c: Timeouts, size: nat): nat {
    if size > 10 then (c.failure + c.suspect) * 2 else c.failure + c.suspect
  }

  datatype Verdict = Keep | Refresh | MarkSuspect | MarkDead | Forget

  /** The verdict of one pass at time `now` on a peer last heard of at `lastActive`. */
  function Judge(c: Timeouts, size: nat, now: int, state: NodeState, lastActive: int): Verdict {
    var elapsed := now - lastActive;
    match state
    case Alive =>
      if elapsed > Effective(c, size) then (if elapsed < GRACE then Refresh else MarkSuspect) else Keep
    case Suspect => if elapsed > Deadline(c, size) then MarkDead else Keep
    case Dead => if elapsed > c.failure + c.suspect then Forget else Keep
    case Unknown => Keep
  }

  /** What a node knows of a peer. */
  datatype Peer = Gone | Peer(state: NodeState, lastActive: int)

  function Tick(c: Timeouts, size: nat, now: int, p: Peer): Peer {
    if p.Gone? then Gone
    else match Judge(c, size, now, p.state, p.lastActive)
      case Keep => p
      case Refresh => p.(lastActive := now)
      case MarkSuspect => p.(state := Suspect)
      case MarkDead => p.(state := Dead)
      case Forget => Gone
  }

  /** One pass of the detector: when, and how many nodes were known. */
  datatype Visit = Visit(now: int, size: nat)

  /** A peer that fell silent, alive, at `t0`, after the given passes. */
  function Watched(c: Timeouts, t0: int, passes: seq<Visit>): Peer {
    if passes == [] then Peer(Alive, t0)
    else
      var last := passes[|passes| - 1];
      Tick(c, last.size, last.now, Watched(c, t0, passes[..|passes| - 1]))
  }

  function Last(t0: int, passes: seq<Visit>): int {
    if passes == [] then t0 else passes[|passes| - 1].now
  }

  /** Passes come in order from `t0` on, and never more than `d` apart. */
  ghost predicate Spaced(t0: int, d: nat, passes: seq<Visit>) {
    passes != [] ==>
      var before := Last(t0, passes[..|passes| - 1]);
      Spaced(t0, d, passes[..|passes| - 1]) && before <= passes[|passes| - 1].now <= before + d
  }

  /** The cluster may grow and shrink within a size class, where both timeouts stay the same. */
  ghost predicate InClass(c: Timeouts, e: nat, dl: nat, passes: seq<Visit>) {
    passes != [] ==>
      && InClass(c, e, dl, passes[..|passes| - 1])
      && Effective(c, passes[|passes| - 1].size) == e && Deadline(c, passes[|passes| - 1].size) == dl
  }

  function Max(a: int, b: int): int {
    if a < b then b else a
  }

  /** When a silent peer may be in which state: alive only up to E after it was last heard of, suspect only
      after E and up to max(E + d, D), dead only after D and up to max(E + d, D) + d, and gone only after D.
      So it is suspected by E + d, dead by max(E + d, D) + d, forgotten by the pass after that, and never
      early. */
  predicate Timely(p: Peer, t0: int, last: int, e: nat, dl: nat, d: nat) {
    var silence := last - t0;
    match p
    case Gone => dl < silence
    case Peer(state, lastActive) =>
      && lastActive == t0
      && match state
         case Alive => silence <= e
         case Suspect => e < silence <= Max(e + d, dl)
         case Dead => dl < silence <= Max(e + d, dl) + d
         case Unknown => false
  }

  /** DETECTION TIME, both ways, if the effective timeout reaches the grace period. */
  lemma {:induction false} DetectionTime(c: Timeouts, e: nat, dl: nat, t0: int, d: nat, passes: seq<Visit>)
    requires e >= GRACE - 1
    requires Spaced(t0, d, passes) && InClass(c, e, dl, passes)
    ensures Timely(Watched(c, t0, passes), t0, Last(t0, passes), e, dl, d)
  {
    if passes != [] {
      DetectionTime(c, e, dl, t0, d, passes[..|passes| - 1]);
    }
  }

  /** A dead peer does not survive another pass, and no pass moves a peer by more than one state. */
  lemma OneStateAtATime(c: Timeouts, e: nat, dl: nat, t0: int, d: nat, passes: seq<Visit>, pass: Visit)
    requires e >= GRACE - 1 && Effective(c, pass.size) >= GRACE - 1
    requires Spaced(t0, d, passes) && InClass(c, e, dl, passes) && Last(t0, passes) <= pass.now
    ensures var before := Watched(c, t0, passes);
      var after := Tick(c, pass.size, pass.now, before);
      match before
      case Gone => after.Gone?
      case Peer(Alive, _) => after == before || after == before.(state := Suspect)
      case Peer(Suspect, _) => after == before || after == before.(state := Dead)
      case Peer(_, _) => after.Gone?
  {
  }

  function EachNanosecond(t0: int, size: nat, n: nat): (passes: seq<Visit>)
    ensures |passes| == n
  {
    if n == 0 then [] else EachNanosecond(t0, size, n - 1) + [Visit(t0 + n, size)]
  }

  /** With a shorter timeout a detector that looks often enough refreshes the peer for ever. */
  lemma {:induction false} RefreshedForEver(c: Timeouts, size: nat, t0: int, n: nat)
    requires Effective(c, size) < GRACE - 1
    ensures forall d: nat :: d >= 1 ==> Spaced(t0, d, EachNanosecond(t0, size, n))
    ensures InClass(c, Effective(c, size), Deadline(c, size), EachNanosecond(t0, size, n))
    ensures Last(t0, EachNanosecond(t0, size, n)) == t0 + n
    ensures var p := Watched(c, t0, EachNanosecond(t0, size, n));
      p.Peer? && p.state == Alive && p.lastActive <= t0 + n <= p.lastActive + Effective(c, size)
  {
    if n > 0 {
      RefreshedForEver(c, size, t0, n - 1);
      var passes := EachNanosecond(t0, size, n);
      assert passes[..|passes| - 1] == EachNanosecond(t0, size, n - 1);
    }
  }

  /** The documented rule, that silence beyond the timeout makes a peer suspect, holds on every schedule of
      passes within a size class if and only if the effective timeout reaches the grace period. */
  lemma SilenceIsNoticed(c: Timeouts, size: nat, t0: int, d: nat)
    requires d >= 1
    ensures var e, dl := Effective(c, size), Deadline(c, size);
      (e >= GRACE - 1) <==>
      (forall passes :: Spaced(t0, d, passes) && InClass(c, e, dl, passes) && Last(t0, passes) > t0 + e ==>
        Watched(c, t0, passes).Gone? || Watched(c, t0, passes).state != Alive)
  {
    var e, dl := Effective(c, size), Deadline(c, size);
    if e >= GRACE - 1 {
      forall passes | Spaced(t0, d, passes) && InClass(c, e, dl, passes) && Last(t0, passes) > t0 + e
        ensures Watched(c, t0, passes).Gone? || Watched(c, t0, passes).state != Alive
      {
        DetectionTime(c, e, dl, t0, d, passes);
      }
    } else {
      var n := e + 1;
      RefreshedForEver(c, size, t0, n);
      var passes := EachNanosecond(t0, size, n);
      assert Spaced(t0, d, passes);
      assert Last(t0, passes) > t0 + e;
      assert Watched(c, t0, passes).state == Alive;
    }
  }
}
