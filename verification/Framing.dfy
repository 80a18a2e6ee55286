/** Length-prefixed framing: the two writers, the incremental event-loop reader and the blocking reader. */
module Framing {
  import opened Prelude

  type Bytes = seq<byte>

  const MAX_MESSAGE := 10 * 1024 * 1024
  const MAX_BATCH := 64

  /** Four bytes, most significant first. */
  function PutUint32(n: uint32): (b: Bytes)
    ensures |b| == 4
  {
    [n / 0x100_0000, n / 0x1_0000 % 0x100, n / 0x100 % 0x100, n % 0x100]
  }

  function Uint32(b: Bytes): uint32
    requires |b| == 4
  {
    var b0: int, b1: int, b2: int, b3: int := b[0], b[1], b[2], b[3];
    b0 * 0x100_0000 + b1 * 0x1_0000 + b2 * 0x100 + b3
  }

  lemma PrefixRoundTrip(n: uint32)
    ensures Uint32(PutUint32(n)) == n
    ensures var b := PutUint32(n); n == ((b[0] as int * 256 + b[1]) * 256 + b[2]) * 256 + b[3]
  {
    var a := n / 0x100;
    var b := a / 0x100;
    var c := b / 0x100;
    assert n == a * 0x100 + n % 0x100 && a == b * 0x100 + a % 0x100 && b == c * 0x100 + b % 0x100;
    assert n / 0x1_0000 == b && n / 0x100_0000 == c;
  }

  /** One frame: the length, truncated to 32 bits, and the message. */
  function Frame(message: Bytes): Bytes {
    PutUint32(|message| % 0x1_0000_0000) + message
  }

  function EncodeAll(messages: seq<Bytes>): Bytes {
    if messages == [] then [] else Frame(messages[0]) + EncodeAll(messages[1..])
  }

  /** What may be sent and will be accepted. */
  predicate Sendable(message: Bytes) {
    0 < |message| <= MAX_MESSAGE
  }

  // ---------------------------------------------------------------- decoding a byte stream

  /** What stands at the head of a buffer. */
  datatype Head = Incomplete | TooLarge | Ready(message: Bytes, rest: Bytes)

  function ReadHead(s: Bytes): (h: Head)
    ensures h.Ready? ==> |h.rest| < |s|
  {
    if |s| < 4 then Incomplete
    else
      var n := Uint32(s[..4]);
      if n > MAX_MESSAGE then TooLarge
      else if |s| < 4 + n then Incomplete
      else Ready(s[4..4 + n], s[4 + n..])
  }

  /** All messages of a byte stream, up to the first incomplete or oversized frame. */
  function Decode(s: Bytes): seq<Bytes>
    decreases |s|
  {
    match ReadHead(s)
    case Ready(message, rest) => [message] + Decode(rest)
    case _ => []
  }

  /** The bytes behind the last message of a stream. */
  function Remainder(s: Bytes): Bytes
    decreases |s|
  {
    match ReadHead(s)
    case Ready(_, rest) => Remainder(rest)
    case _ => s
  }

  lemma ReadFrame(message: Bytes, rest: Bytes)
    requires |message| <= MAX_MESSAGE
    ensures ReadHead(Frame(message) + rest) == Ready(message, rest)
  {
    var s := Frame(message) + rest;
    assert s[..4] == PutUint32(|message|);
    PrefixRoundTrip(|message|);
    assert s[4..4 + |message|] == message;
    assert s[4 + |message|..] == rest;
  }

  /** What stands at the head of a buffer, byte by byte: a message is ready exactly if the buffer begins with its
      frame; and it is too large exactly if the first four bytes say so, whatever follows them. */
  lemma HeadExactly(s: Bytes, message: Bytes, rest: Bytes)
    ensures ReadHead(s) == Ready(message, rest) <==> s == Frame(message) + rest && |message| <= 10485760
    ensures ReadHead(s) == TooLarge <==>
      |s| >= 4 && ((s[0] as int * 256 + s[1]) * 256 + s[2]) * 256 + s[3] > 10485760
  {
    if |message| <= 10485760 {
      ReadFrame(message, rest);
    }
    if ReadHead(s).Ready? {
      ReadyFrame(s);
    }
  }

  lemma ReadyFrame(s: Bytes)
    requires ReadHead(s).Ready?
    ensures s == Frame(ReadHead(s).message) + ReadHead(s).rest
    ensures |ReadHead(s).message| <= 10485760
  {
    PrefixUnique(s[..4]);
    FrameOf(s, Uint32(s[..4]));
  }

  lemma FrameOf(s: Bytes, n: uint32)
    requires 4 + n <= |s| && s[..4] == PutUint32(n)
    ensures s == Frame(s[4..4 + n]) + s[4 + n..]
  {
    SplitThrice(s, 4, 4 + n);
    FramePrefix(s[4..4 + n]);
  }

  lemma FramePrefix(message: Bytes)
    requires |message| < 0x1_0000_0000
    ensures Frame(message) == PutUint32(|message|) + message
  {
  }

  lemma SplitThrice(s: Bytes, i: nat, j: nat)
    requires i <= j <= |s|
    ensures s == s[..i] + s[i..j] + s[j..]
  {
  }

  lemma PrefixUnique(b: Bytes)
    requires |b| == 4
    ensures PutUint32(Uint32(b)) == b
  {
    var b0: int, b1: int, b2: int, b3: int := b[0], b[1], b[2], b[3];
    var n := Uint32(b);
    assert n / 0x100 == b0 * 0x1_0000 + b1 * 0x100 + b2;
    assert n / 0x1_0000 == b0 * 0x100 + b1;
  }

  /** More bytes do not change a verdict already reached. */
  lemma ReadMore(s: Bytes, more: Bytes)
    requires !ReadHead(s).Incomplete?
    ensures ReadHead(s + more) ==
      if ReadHead(s).TooLarge? then TooLarge else Ready(ReadHead(s).message, ReadHead(s).rest + more)
  {
  }

  /** Decoding may stop after any stretch of bytes and go on from what is left over. */
  lemma {:induction false} DecodeMore(s: Bytes, more: Bytes)
    ensures Decode(s + more) == Decode(s) + Decode(Remainder(s) + more)
    ensures ReadHead(Remainder(s)).TooLarge? ==> Decode(s + more) == Decode(s)
    decreases |s|
  {
    match ReadHead(s)
    case Ready(message, rest) =>
      DecodeMore(rest, more);
      assert Decode(s + more) == [message] + Decode(rest + more) by {
        ReadMore(s, more);
      }
      ConcatAssociative([message], Decode(rest), Decode(Remainder(rest) + more));
    case TooLarge =>
      ReadMore(s, more);
    case Incomplete =>
      assert Decode(s) == [];
  }

  lemma ConcatAssociative<T>(a: seq<T>, b: seq<T>, c: seq<T>)
    ensures a + (b + c) == a + b + c
  {
  }

  lemma ShortFrame(message: Bytes, cut: Bytes)
    requires |message| <= MAX_MESSAGE && cut < Frame(message)
    ensures ReadHead(cut).Incomplete?
  {
    if |cut| >= 4 {
      assert cut[..4] == PutUint32(|message|);
      PrefixRoundTrip(|message|);
    }
  }

  lemma CutOfConcat(a: Bytes, b: Bytes, cut: Bytes)
    requires cut <= a + b
    ensures |cut| < |a| ==> cut < a
    ensures |cut| >= |a| ==> cut == a + cut[|a|..] && cut[|a|..] <= b
  {
  }

  /** A beginning of an encoded stream decodes to a beginning of what was sent, and never to more. */
  lemma {:induction false} DecodeCut(messages: seq<Bytes>, cut: Bytes)
    requires forall i :: 0 <= i < |messages| ==> |messages[i]| <= MAX_MESSAGE
    requires cut <= EncodeAll(messages)
    ensures Decode(cut) <= messages
    ensures ReadHead(Remainder(cut)).Incomplete?
    ensures cut == EncodeAll(messages) ==> Decode(cut) == messages
  {
    if messages != [] {
      var frame, rest := Frame(messages[0]), EncodeAll(messages[1..]);
      CutOfConcat(frame, rest, cut);
      if |cut| < |frame| {
        ShortFrame(messages[0], cut);
      } else {
        var cut' := cut[|frame|..];
        DecodeCut(messages[1..], cut');
        DecodeFrame(messages[0], cut');
        FirstThenPrefix(messages, Decode(cut'));
        assert frame + cut' == frame + rest ==> cut' == rest by {
          SameTail(frame, cut', rest);
        }
      }
    }
  }

  lemma FirstThenPrefix(messages: seq<Bytes>, decoded: seq<Bytes>)
    requires messages != [] && decoded <= messages[1..]
    ensures [messages[0]] + decoded <= messages
    ensures decoded == messages[1..] ==> [messages[0]] + decoded == messages
  {
  }

  lemma SameTail(a: Bytes, b: Bytes, c: Bytes)
    ensures a + b == a + c ==> b == c
  {
    assert (a + b)[|a|..] == b && (a + c)[|a|..] == c;
  }

  /** The head of a stream of frames is decoded first. */
  lemma DecodeFrame(message: Bytes, rest: Bytes)
    requires |message| <= MAX_MESSAGE
    ensures Decode(Frame(message) + rest) == [message] + Decode(rest)
    ensures Remainder(Frame(message) + rest) == Remainder(rest)
  {
    ReadFrame(message, rest);
  }

  // ---------------------------------------------------------------- the writers

  /** The event-loop writer: one buffer per message; an empty message is not written at all. */
  method GnetWrite(out: Bytes, data: Bytes) returns (out': Bytes)
    ensures out' == if data == [] then out else out + Frame(data)
  {
    var dataLen := |data|;
    if dataLen == 0 {
      return out;
    }
    var buf := PutUint32(dataLen % 0x1_0000_0000);
    buf := buf + data;
    out' := out + buf;
  }

  /** The blocking writer: prefix and message in one vectored write, empty messages included. */
  method TcpWrite(out: Bytes, data: Bytes) returns (out': Bytes)
    ensures out' == out + Frame(data)
  {
    var lengthPrefix := PutUint32(|data| % 0x1_0000_0000);
    assert Frame(data) == lengthPrefix + data;
    out' := out + lengthPrefix;
    out' := out' + data;
    assert out' == out + (lengthPrefix + data);
  }

  // ---------------------------------------------------------------- the event-loop reader

  /** The buffered bytes of a connection, what its handler was given, and whether it was closed.
      `accepts` stands for the handler's verdict on a message. */
  datatype Reader = Reader(inbound: Bytes, delivered: seq<Bytes>, closed: bool)

  const FRESH := Reader([], [], false)

  /** One traffic event: at most `budget` messages, stopping at an incomplete frame, and closing on an
      oversized frame or a handler error. */
  function Traffic(r: Reader, accepts: Bytes -> bool, budget: nat): Reader
    decreases budget
  {
    if budget == 0 then r
    else match ReadHead(r.inbound)
      case Incomplete => r
      case TooLarge => r.(closed := true)
      case Ready(message, rest) =>
        if !accepts(message) then Reader(r.inbound[4..], r.delivered + [message], true)
        else Traffic(Reader(rest, r.delivered + [message], false), accepts, budget - 1)
  }

  /** What the event loop's buffer does when asked to show or to drop zero bytes is up to its library. */
  datatype Library = Library(peekNothing: Bytes -> Bytes, discardNothing: Bytes -> Bytes) {
    ghost predicate DoesNothing() {
      forall s :: peekNothing(s) == [] && discardNothing(s) == s
    }
  }

  /** One traffic event with a given library. */
  /** What becomes of the message at the head of the buffer, and whether the event goes on to the next. */
  function Handled(r: Reader, accepts: Bytes -> bool, lib: Library): (Reader, bool) {
    match ReadHead(r.inbound)
    case Incomplete => (r, false)
    case TooLarge => (r.(closed := true), false)
    case Ready(message, rest) =>
      var shown := if message == [] then lib.peekNothing(rest) else message;
      if !accepts(shown) then (Reader(r.inbound[4..], r.delivered + [shown], true), false)
      else (Reader(if message == [] then lib.discardNothing(rest) else rest, r.delivered + [shown], false), true)
  }

  /** A step taken up to `n` times, as long as it says to go on. */
  function Repeated(step: Reader -> (Reader, bool), r: Reader, n: nat): Reader
    decreases n
  {
    if n == 0 then r
    else
      var (next, more) := step(r);
      if more then Repeated(step, next, n - 1) else next
  }

  function Handler(accepts: Bytes -> bool, lib: Library): Reader -> (Reader, bool) {
    r => Handled(r, accepts, lib)
  }

  function TrafficWith(r: Reader, accepts: Bytes -> bool, budget: nat, lib: Library): Reader {
    Repeated(Handler(accepts, lib), r, budget)
  }

  lemma TrafficNext(r: Reader, accepts: Bytes -> bool, budget: nat, lib: Library)
    ensures TrafficWith(r, accepts, 0, lib) == r
    ensures budget > 0 ==>
      var (next, more) := Handled(r, accepts, lib);
      TrafficWith(r, accepts, budget, lib) == if more then TrafficWith(next, accepts, budget - 1, lib) else next
  {
    var step := Handler(accepts, lib);
    assert step(r) == Handled(r, accepts, lib);
  }

  lemma {:induction false} AtMostBatch(r: Reader, accepts: Bytes -> bool, budget: nat, lib: Library)
    ensures |r.delivered| <= |TrafficWith(r, accepts, budget, lib).delivered| <= |r.delivered| + budget
    decreases budget
  {
    TrafficNext(r, accepts, budget, lib);
    if budget > 0 {
      AtMostBatch(Handled(r, accepts, lib).0, accepts, budget - 1, lib);
    }
  }

  /** The state after `n` steps, and whether it goes on. */
  function Steps(step: Reader -> (Reader, bool), r: Reader, n: nat): (Reader, bool)
    decreases n
  {
    if n == 0 then (r, true)
    else
      var (before, more) := Steps(step, r, n - 1);
      if more then step(before) else (before, false)
  }

  lemma {:induction false} StepsFirst(step: Reader -> (Reader, bool), r: Reader, n: nat)
    ensures Steps(step, r, n + 1) ==
      var (next, more) := step(r);
      if more then Steps(step, next, n) else (next, false)
    decreases n
  {
    if n > 0 {
      StepsFirst(step, r, n - 1);
    } else {
      assert Steps(step, r, 0) == (r, true);
    }
  }

  lemma {:induction false} StepsAre(step: Reader -> (Reader, bool), r: Reader, n: nat)
    ensures Repeated(step, r, n) == Steps(step, r, n).0
    decreases n
  {
    if n > 0 {
      StepsFirst(step, r, n - 1);
      StepsAre(step, step(r).0, n - 1);
    }
  }

  lemma StepsStop(step: Reader -> (Reader, bool), r: Reader, n: nat, m: nat)
    requires n <= m && !Steps(step, r, n).1
    ensures Repeated(step, r, m) == Steps(step, r, n).0
  {
    for i := n to m
      invariant Steps(step, r, i) == Steps(step, r, n)
    {
    }
    StepsAre(step, r, m);
  }

  class GnetConn {
    const lib: Library
    var inbound: Bytes
    var delivered: seq<Bytes>
    var closed: bool

    ghost function State(): Reader
      reads this
    {
      Reader(inbound, delivered, closed)
    }

    constructor (lib: Library)
      ensures State() == FRESH && this.lib == lib
    {
      this.lib := lib;
      inbound, delivered, closed := [], [], false;
    }

    method Arrive(chunk: Bytes)
      modifies this`inbound
      ensures inbound == old(inbound) + chunk
    {
      inbound := inbound + chunk;
    }

    /** One traffic event: at most 64 messages, so that other connections get their turn. */
    method OnTraffic(accepts: Bytes -> bool)
      requires !closed
      modifies this
      ensures State() == TrafficWith(old(State()), accepts, MAX_BATCH, lib)
      ensures |delivered| <= |old(delivered)| + 64
    {
      AtMostBatch(State(), accepts, MAX_BATCH, lib);
      Process(accepts, MAX_BATCH);
    }

    method Process(accepts: Bytes -> bool, maxBatch: nat)
      requires !closed
      modifies this
      ensures State() == TrafficWith(old(State()), accepts, maxBatch, lib)
    {
      ghost var step, r := Handler(accepts, lib), State();
      for processed := 0 to maxBatch
        invariant !closed && Steps(step, r, processed) == (State(), true)
      {
        var more := ProcessOne(accepts);
        if !more {
          StepsStop(step, r, processed + 1, maxBatch);
          return;
        }
      }
      StepsAre(step, r, maxBatch);
    }

    /** The body of the loop: hands over one message if a complete one is buffered. */
    method ProcessOne(accepts: Bytes -> bool) returns (more: bool)
      requires !closed
      modifies this
      ensures more ==> !closed
      ensures (State(), more) == Handler(accepts, lib)(old(State()))
    {
      var buffered := |inbound|;
      if buffered < 4 {
        return false;
      }
      var msgLen := Uint32(inbound[..4]);
      if msgLen > MAX_MESSAGE {
        closed := true;
        return false;
      }
      var totalNeeded := 4 + msgLen;
      if buffered < totalNeeded {
        return false;
      }
      HeadSlices(inbound, msgLen);
      inbound := inbound[4..];
      var message := if msgLen == 0 then lib.peekNothing(inbound) else inbound[..msgLen];
      delivered := delivered + [message];
      if !accepts(message) {
        closed := true;
        return false;
      }
      inbound := if msgLen == 0 then lib.discardNothing(inbound) else inbound[msgLen..];
      return true;
    }
  }

  lemma HeadSlices(s: Bytes, n: nat)
    requires |s| >= 4 + n && Uint32(s[..4]) == n <= MAX_MESSAGE
    ensures ReadHead(s) == Ready(s[4..][..n], s[4..][n..])
  {
  }

  /** The messages a handler is given before it refuses one, the refused one included. */
  function UpToRefusal(messages: seq<Bytes>, accepts: Bytes -> bool): seq<Bytes> {
    if messages == [] then []
    else if !accepts(messages[0]) then [messages[0]]
    else [messages[0]] + UpToRefusal(messages[1..], accepts)
  }

  /** That is the beginning of the list up to the first message that is refused. */
  lemma {:induction false} UpToRefusalExactly(messages: seq<Bytes>, accepts: Bytes -> bool, k: nat)
    requires k <= |messages| && (k == |messages| || !accepts(messages[k]))
    requires forall i :: 0 <= i < k ==> accepts(messages[i])
    ensures UpToRefusal(messages, accepts) == if k < |messages| then messages[..k + 1] else messages
  {
    if k > 0 {
      UpToRefusalExactly(messages[1..], accepts, k - 1);
    }
  }

  predicate AllAccepted(messages: seq<Bytes>, accepts: Bytes -> bool) {
    forall i :: 0 <= i < |messages| ==> accepts(messages[i])
  }

  lemma {:induction false} RefusalConcat(s: seq<Bytes>, t: seq<Bytes>, accepts: Bytes -> bool)
    ensures UpToRefusal(s + t, accepts) ==
      if AllAccepted(s, accepts) then s + UpToRefusal(t, accepts) else UpToRefusal(s, accepts)
  {
    if s == [] {
      assert s + t == t;
    } else {
      RefusalConcat(s[1..], t, accepts);
      FirstAccepted(s, accepts);
      FirstOfConcat(s, t, accepts);
      if AllAccepted(s, accepts) {
        assert s == [s[0]] + s[1..];
        ConcatAssociative([s[0]], s[1..], UpToRefusal(t, accepts));
      }
    }
  }

  lemma FirstAccepted(s: seq<Bytes>, accepts: Bytes -> bool)
    requires s != []
    ensures AllAccepted(s, accepts) <==> accepts(s[0]) && AllAccepted(s[1..], accepts)
  {
    if accepts(s[0]) && AllAccepted(s[1..], accepts) {
      forall i | 0 <= i < |s|
        ensures accepts(s[i])
      {
        assert i > 0 ==> s[i] == s[1..][i - 1];
      }
    }
  }

  lemma FirstOfConcat(s: seq<Bytes>, t: seq<Bytes>, accepts: Bytes -> bool)
    requires s != []
    ensures UpToRefusal(s + t, accepts) ==
      if accepts(s[0]) then [s[0]] + UpToRefusal(s[1..] + t, accepts) else [s[0]]
  {
    assert (s + t)[1..] == s[1..] + t;
  }

  /** How a reader relates to the stream that has arrived for it: an open one has delivered accepted
      messages and buffers exactly the rest; a closed one has delivered all it ever will. */
  ghost predicate Tracks(r: Reader, arrived: Bytes, accepts: Bytes -> bool) {
    if r.closed then
      forall more: Bytes :: r.delivered == UpToRefusal(Decode(arrived + more), accepts)
    else
      && AllAccepted(r.delivered, accepts)
      && forall more: Bytes :: Decode(arrived + more) == r.delivered + Decode(r.inbound + more)
  }

  lemma OversizedTracks(r: Reader, arrived: Bytes, accepts: Bytes -> bool)
    requires !r.closed && Tracks(r, arrived, accepts) && ReadHead(r.inbound).TooLarge?
    ensures Tracks(r.(closed := true), arrived, accepts)
  {
    forall more: Bytes
      ensures r.delivered == UpToRefusal(Decode(arrived + more), accepts)
    {
      ReadMore(r.inbound, more);
      assert Decode(arrived + more) == r.delivered + Decode(r.inbound + more);
      RefusalConcat(r.delivered, [], accepts);
      assert r.delivered + [] == r.delivered;
    }
  }

  lemma DeliveryDecodes(r: Reader, arrived: Bytes, accepts: Bytes -> bool, more: Bytes)
    requires !r.closed && Tracks(r, arrived, accepts) && ReadHead(r.inbound).Ready?
    ensures var h := ReadHead(r.inbound);
      && Decode(arrived + more) == r.delivered + ([h.message] + Decode(h.rest + more))
      && Decode(arrived + more) == r.delivered + [h.message] + Decode(h.rest + more)
  {
    ReadMore(r.inbound, more);
    assert Decode(arrived + more) == r.delivered + Decode(r.inbound + more);
    var h := ReadHead(r.inbound);
    ConcatAssociative(r.delivered, [h.message], Decode(h.rest + more));
  }

  lemma AcceptedTracks(r: Reader, arrived: Bytes, accepts: Bytes -> bool)
    requires !r.closed && Tracks(r, arrived, accepts) && ReadHead(r.inbound).Ready?
    requires accepts(ReadHead(r.inbound).message)
    ensures var h := ReadHead(r.inbound);
      Tracks(Reader(h.rest, r.delivered + [h.message], false), arrived, accepts)
  {
    forall more: Bytes
      ensures Decode(arrived + more) ==
        r.delivered + [ReadHead(r.inbound).message] + Decode(ReadHead(r.inbound).rest + more)
    {
      DeliveryDecodes(r, arrived, accepts, more);
    }
  }

  lemma RefusedTracks(r: Reader, arrived: Bytes, accepts: Bytes -> bool, inbound: Bytes)
    requires !r.closed && Tracks(r, arrived, accepts) && ReadHead(r.inbound).Ready?
    requires !accepts(ReadHead(r.inbound).message)
    ensures Tracks(Reader(inbound, r.delivered + [ReadHead(r.inbound).message], true), arrived, accepts)
  {
    var h := ReadHead(r.inbound);
    forall more: Bytes
      ensures r.delivered + [h.message] == UpToRefusal(Decode(arrived + more), accepts)
    {
      DeliveryDecodes(r, arrived, accepts, more);
      RefusalConcat(r.delivered, [h.message] + Decode(h.rest + more), accepts);
    }
  }

  /** Does the event go on to another message? */
  predicate GoesOn(r: Reader, accepts: Bytes -> bool, budget: nat) {
    budget > 0 && ReadHead(r.inbound).Ready? && accepts(ReadHead(r.inbound).message)
  }

  lemma StoppedTracks(r: Reader, arrived: Bytes, accepts: Bytes -> bool, budget: nat)
    requires !r.closed && Tracks(r, arrived, accepts) && !GoesOn(r, accepts, budget)
    ensures Tracks(Traffic(r, accepts, budget), arrived, accepts)
  {
    if budget > 0 {
      match ReadHead(r.inbound)
      case Incomplete =>
      case TooLarge =>
        OversizedTracks(r, arrived, accepts);
      case Ready(_, _) =>
        RefusedTracks(r, arrived, accepts, r.inbound[4..]);
    }
  }

  lemma {:induction false} TrafficTracks(r: Reader, arrived: Bytes, accepts: Bytes -> bool, budget: nat)
    requires !r.closed && Tracks(r, arrived, accepts)
    ensures Tracks(Traffic(r, accepts, budget), arrived, accepts)
    decreases budget
  {
    if GoesOn(r, accepts, budget) {
      var h := ReadHead(r.inbound);
      AcceptedTracks(r, arrived, accepts);
      TrafficTracks(Reader(h.rest, r.delivered + [h.message], false), arrived, accepts, budget - 1);
    } else {
      StoppedTracks(r, arrived, accepts, budget);
    }
  }

  // ---------------------------------------------------------------- whole runs

  /** What the event loop does to one connection. */
  datatype Event = Arrive(chunk: Bytes) | OnTraffic

  /** A closed connection sees no more events. */
  function Run(events: seq<Event>, accepts: Bytes -> bool, batch: nat): Reader {
    if events == [] then FRESH
    else
      var r := Run(events[..|events| - 1], accepts, batch);
      if r.closed then r
      else match events[|events| - 1]
        case Arrive(chunk) => r.(inbound := r.inbound + chunk)
        case OnTraffic => Traffic(r, accepts, batch)
  }

  /** All bytes that arrived during a run, whatever the chunks. */
  function Arrived(events: seq<Event>): Bytes {
    if events == [] then []
    else
      var before := Arrived(events[..|events| - 1]);
      match events[|events| - 1]
      case Arrive(chunk) => before + chunk
      case OnTraffic => before
  }

  /** After any run, however the bytes were cut, the reader tracks the stream. */
  lemma {:induction false} RunTracks(events: seq<Event>, accepts: Bytes -> bool, batch: nat)
    ensures Tracks(Run(events, accepts, batch), Arrived(events), accepts)
  {
    if events != [] {
      var front := events[..|events| - 1];
      RunTracks(front, accepts, batch);
      var r, arrived := Run(front, accepts, batch), Arrived(front);
      match events[|events| - 1]
      case Arrive(chunk) =>
        forall more: Bytes
          ensures arrived + chunk + more == arrived + (chunk + more)
          ensures r.inbound + chunk + more == r.inbound + (chunk + more)
        {
        }
      case OnTraffic =>
        if !r.closed {
          TrafficTracks(r, arrived, accepts, batch);
        }
    }
  }

  lemma {:induction false} RefusalPrefix(s: seq<Bytes>, accepts: Bytes -> bool)
    ensures UpToRefusal(s, accepts) <= s
    ensures AllAccepted(s, accepts) ==> UpToRefusal(s, accepts) == s
  {
    if s != [] {
      RefusalPrefix(s[1..], accepts);
      assert s == [s[0]] + s[1..];
      assert AllAccepted(s, accepts) ==> AllAccepted(s[1..], accepts);
    }
  }

  /** For ANY bytes whatever: what a run delivered is a beginning of what the stream decodes to, and it
      never delivers past a refused message. */
  lemma DeliveredIsPrefix(events: seq<Event>, accepts: Bytes -> bool, batch: nat)
    ensures Run(events, accepts, batch).delivered <= UpToRefusal(Decode(Arrived(events)), accepts)
    ensures Run(events, accepts, batch).delivered <= Decode(Arrived(events))
  {
    var r, arrived := Run(events, accepts, batch), Arrived(events);
    RunTracks(events, accepts, batch);
    assert arrived + [] == arrived;
    RefusalPrefix(Decode(arrived), accepts);
    if !r.closed {
      assert Decode(arrived + []) == r.delivered + Decode(r.inbound + []);
      RefusalConcat(r.delivered, Decode(r.inbound + []), accepts);
    }
  }

  /** How much one event delivers: everything complete, or a full batch. */
  lemma {:induction false} TrafficProgress(r: Reader, accepts: Bytes -> bool, budget: nat)
    requires !r.closed
    ensures var r' := Traffic(r, accepts, budget);
      && (r'.closed || |r'.delivered| == |r.delivered| + budget || ReadHead(r'.inbound).Incomplete? || budget == 0)
    decreases budget
  {
    if budget > 0 {
      match ReadHead(r.inbound)
      case Incomplete =>
      case TooLarge =>
      case Ready(message, rest) =>
        if accepts(message) {
          TrafficProgress(Reader(rest, r.delivered + [message], false), accepts, budget - 1);
        }
    }
  }

  function Calls(n: nat): seq<Event> {
    if n == 0 then [] else Calls(n - 1) + [OnTraffic]
  }

  lemma OneCall(events: seq<Event>, accepts: Bytes -> bool, batch: nat)
    ensures Arrived(events + [OnTraffic]) == Arrived(events)
    ensures var r := Run(events, accepts, batch);
      Run(events + [OnTraffic], accepts, batch) == if r.closed then r else Traffic(r, accepts, batch)
  {
  }

  /** The reader after `n` further traffic events. */
  function Later(r: Reader, accepts: Bytes -> bool, batch: nat, n: nat): Reader {
    if n == 0 then r
    else
      var before := Later(r, accepts, batch, n - 1);
      if before.closed then before else Traffic(before, accepts, batch)
  }

  lemma {:induction false} RunLater(events: seq<Event>, accepts: Bytes -> bool, batch: nat, n: nat)
    ensures Arrived(events + Calls(n)) == Arrived(events)
    ensures Run(events + Calls(n), accepts, batch) == Later(Run(events, accepts, batch), accepts, batch, n)
  {
    if n == 0 {
      assert events + Calls(0) == events;
    } else {
      var front := events + Calls(n - 1);
      ConcatAssociative(events, Calls(n - 1), [OnTraffic]);
      OneCall(front, accepts, batch);
      RunLater(events, accepts, batch, n - 1);
    }
  }

  /** `n` further events either close the reader, or drain it, or deliver `n` full batches. */
  lemma {:induction false} LaterAdvances(r: Reader, accepts: Bytes -> bool, batch: nat, n: nat)
    ensures var after := Later(r, accepts, batch, n);
      after.closed || ReadHead(after.inbound).Incomplete? || |after.delivered| >= |r.delivered| + batch * n
  {
    if n > 0 {
      LaterAdvances(r, accepts, batch, n - 1);
      var before := Later(r, accepts, batch, n - 1);
      if !before.closed {
        TrafficProgress(before, accepts, batch);
      }
      assert batch * n == batch * (n - 1) + batch;
    }
  }

  /** For ANY bytes and any chunking: enough traffic events after the last byte deliver everything the
      stream decodes to, up to a refusal, although each event stops after `batch` messages. */
  lemma EverythingDelivered(events: seq<Event>, accepts: Bytes -> bool, batch: nat, n: nat)
    requires batch * n >= |Decode(Arrived(events))|
    ensures Run(events + Calls(n), accepts, batch).delivered == UpToRefusal(Decode(Arrived(events)), accepts)
  {
    var all := events + Calls(n);
    var r, arrived := Run(all, accepts, batch), Arrived(events);
    RunLater(events, accepts, batch, n);
    LaterAdvances(Run(events, accepts, batch), accepts, batch, n);
    RunTracks(all, accepts, batch);
    DeliveredIsPrefix(all, accepts, batch);
    RefusalPrefix(Decode(arrived), accepts);
    assert arrived + [] == arrived;
    if !r.closed {
      assert Decode(arrived + []) == r.delivered + Decode(r.inbound + []);
      assert r.inbound + [] == r.inbound;
      assert |r.delivered| <= |Decode(arrived)|;
    }
  }

  // ---------------------------------------------------------------- independence of the library

  function RunWith(events: seq<Event>, accepts: Bytes -> bool, batch: nat, lib: Library): Reader {
    if events == [] then FRESH
    else
      var r := RunWith(events[..|events| - 1], accepts, batch, lib);
      if r.closed then r
      else match events[|events| - 1]
        case Arrive(chunk) => r.(inbound := r.inbound + chunk)
        case OnTraffic => TrafficWith(r, accepts, batch, lib)
  }

  predicate NoneEmpty(messages: seq<Bytes>) {
    forall i :: 0 <= i < |messages| ==> messages[i] != []
  }

  lemma {:induction false} TrafficSame(r: Reader, accepts: Bytes -> bool, budget: nat, lib: Library)
    requires NoneEmpty(Decode(r.inbound)) || lib.DoesNothing()
    ensures TrafficWith(r, accepts, budget, lib) == Traffic(r, accepts, budget)
    decreases budget
  {
    if budget > 0 && ReadHead(r.inbound).Ready? {
      var h := ReadHead(r.inbound);
      var decoded := Decode(r.inbound);
      assert decoded == [h.message] + Decode(h.rest);
      if NoneEmpty(decoded) {
        assert decoded[0] == h.message;
        assert forall i :: 0 <= i < |Decode(h.rest)| ==> Decode(h.rest)[i] == decoded[i + 1];
      }
      TrafficSame(Reader(h.rest, r.delivered + [h.message], false), accepts, budget - 1, lib);
    }
  }

  /** As long as no empty frame arrives, or if the library does nothing when asked for nothing, a connection
      behaves as if there were no such question. */
  lemma {:induction false} LibraryIndependent(events: seq<Event>, accepts: Bytes -> bool, batch: nat, lib: Library)
    requires NoneEmpty(Decode(Arrived(events))) || lib.DoesNothing()
    ensures RunWith(events, accepts, batch, lib) == Run(events, accepts, batch)
  {
    if events != [] {
      var front := events[..|events| - 1];
      var r, arrived := Run(front, accepts, batch), Arrived(front);
      EarlierNoneEmpty(events);
      LibraryIndependent(front, accepts, batch, lib);
      if events[|events| - 1].OnTraffic? && !r.closed {
        if NoneEmpty(Decode(arrived)) {
          StillNoneEmpty(r, arrived, front, accepts, batch);
        }
        TrafficSame(r, accepts, batch, lib);
      }
    }
  }

  lemma EarlierNoneEmpty(events: seq<Event>)
    requires events != []
    ensures NoneEmpty(Decode(Arrived(events))) ==> NoneEmpty(Decode(Arrived(events[..|events| - 1])))
  {
    var arrived := Arrived(events[..|events| - 1]);
    match events[|events| - 1]
    case OnTraffic =>
    case Arrive(chunk) =>
      DecodeMore(arrived, chunk);
      assert forall i :: 0 <= i < |Decode(arrived)| ==> Decode(arrived + chunk)[i] == Decode(arrived)[i];
  }

  lemma StillNoneEmpty(r: Reader, arrived: Bytes, events: seq<Event>, accepts: Bytes -> bool, batch: nat)
    requires r == Run(events, accepts, batch) && arrived == Arrived(events) && !r.closed
    requires NoneEmpty(Decode(arrived))
    ensures NoneEmpty(Decode(r.inbound))
  {
    RunTracks(events, accepts, batch);
    assert arrived + [] == arrived && r.inbound + [] == r.inbound;
    assert Decode(arrived + []) == r.delivered + Decode(r.inbound + []);
    assert forall i :: 0 <= i < |Decode(r.inbound)| ==> Decode(r.inbound)[i] == Decode(arrived)[|r.delivered| + i];
  }

  /** ANY BYTES without empty frames, or any whatever if the library does nothing when asked for nothing: what
      a connection delivers is a beginning of what the stream decodes to, never past a refused message, and
      all of that once enough traffic events follow the last byte. */
  lemma AnyBytes(events: seq<Event>, accepts: Bytes -> bool, batch: nat, n: nat, lib: Library)
    requires NoneEmpty(Decode(Arrived(events))) || lib.DoesNothing()
    ensures RunWith(events, accepts, batch, lib).delivered <= UpToRefusal(Decode(Arrived(events)), accepts)
    ensures batch * n >= |Decode(Arrived(events))| ==>
      RunWith(events + Calls(n), accepts, batch, lib).delivered == UpToRefusal(Decode(Arrived(events)), accepts)
  {
    DeliveredIsPrefix(events, accepts, batch);
    LibraryIndependent(events, accepts, batch, lib);
    RunLater(events, accepts, batch, n);
    LibraryIndependent(events + Calls(n), accepts, batch, lib);
    if batch * n >= |Decode(Arrived(events))| {
      EverythingDelivered(events, accepts, batch, n);
    }
  }

  /** ROUND TRIP.  However the bytes of a list of sendable messages are cut into chunks and whenever
      traffic events come in between, and whatever the library does with nothing, the handler sees a
      beginning of that list and the connection stays open; and it sees the whole list after the last byte
      and enough events. */
  lemma RoundTrip(messages: seq<Bytes>, events: seq<Event>, accepts: Bytes -> bool, batch: nat, n: nat, lib: Library)
    requires forall i :: 0 <= i < |messages| ==> Sendable(messages[i]) && accepts(messages[i])
    requires Arrived(events) <= EncodeAll(messages)
    ensures RunWith(events, accepts, batch, lib).delivered <= messages && !RunWith(events, accepts, batch, lib).closed
    ensures Arrived(events) == EncodeAll(messages) && batch * n >= |messages|
      ==> RunWith(events + Calls(n), accepts, batch, lib).delivered == messages
  {
    DecodeCut(messages, Arrived(events));
    DeliveredIsPrefix(events, accepts, batch);
    RefusalPrefix(messages, accepts);
    StaysHealthy(events, accepts, batch);
    assert NoneEmpty(Decode(Arrived(events)));
    LibraryIndependent(events, accepts, batch, lib);
    if Arrived(events) == EncodeAll(messages) && batch * n >= |messages| {
      RunLater(events, accepts, batch, n);
      LibraryIndependent(events + Calls(n), accepts, batch, lib);
      EverythingDelivered(events, accepts, batch, n);
    }
  }

  lemma {:induction false} TrafficOpen(r: Reader, accepts: Bytes -> bool, budget: nat)
    requires !r.closed && AllAccepted(Decode(r.inbound), accepts) && !ReadHead(Remainder(r.inbound)).TooLarge?
    ensures !Traffic(r, accepts, budget).closed
    ensures Remainder(Traffic(r, accepts, budget).inbound) == Remainder(r.inbound)
    ensures AllAccepted(Decode(Traffic(r, accepts, budget).inbound), accepts)
    decreases budget
  {
    if budget > 0 && ReadHead(r.inbound).Ready? {
      var h := ReadHead(r.inbound);
      assert Decode(r.inbound)[0] == h.message;
      assert forall i :: 0 <= i < |Decode(h.rest)| ==> Decode(h.rest)[i] == Decode(r.inbound)[i + 1];
      TrafficOpen(Reader(h.rest, r.delivered + [h.message], false), accepts, budget - 1);
    }
  }

  lemma {:induction false} RemainderMore(s: Bytes, more: Bytes)
    requires !ReadHead(Remainder(s)).TooLarge?
    ensures Remainder(s + more) == Remainder(Remainder(s) + more)
    decreases |s|
  {
    if ReadHead(s).Ready? {
      ReadMore(s, more);
      RemainderMore(ReadHead(s).rest, more);
    }
  }

  /** An open reader that will only ever meet accepted messages and no oversized frame. */
  ghost predicate Healthy(r: Reader, arrived: Bytes, accepts: Bytes -> bool) {
    && !r.closed
    && AllAccepted(Decode(r.inbound), accepts)
    && Remainder(r.inbound) == Remainder(arrived)
  }

  lemma ArrivalHealthy(r: Reader, arrived: Bytes, chunk: Bytes, accepts: Bytes -> bool)
    requires Healthy(r, arrived, accepts) && ReadHead(Remainder(arrived)).Incomplete?
    requires AllAccepted(Decode(arrived + chunk), accepts)
    ensures Healthy(r.(inbound := r.inbound + chunk), arrived + chunk, accepts)
  {
    RemainderMore(arrived, chunk);
    RemainderMore(r.inbound, chunk);
    DecodeMore(arrived, chunk);
    DecodeMore(r.inbound, chunk);
    var tail := Decode(Remainder(arrived) + chunk);
    forall i | 0 <= i < |Decode(r.inbound + chunk)|
      ensures accepts(Decode(r.inbound + chunk)[i])
    {
      if i >= |Decode(r.inbound)| {
        var j := i - |Decode(r.inbound)|;
        assert Decode(r.inbound + chunk)[i] == tail[j] == Decode(arrived + chunk)[|Decode(arrived)| + j];
      }
    }
  }

  lemma {:induction false} RemainderStands(s: Bytes, more: Bytes)
    ensures !ReadHead(Remainder(s)).Ready?
    ensures ReadHead(Remainder(s)).TooLarge? ==> Remainder(s + more) == Remainder(s) + more
    ensures ReadHead(Remainder(s)).TooLarge? ==> ReadHead(Remainder(s + more)).TooLarge?
    decreases |s|
  {
    if ReadHead(s).Ready? {
      ReadMore(s, more);
      RemainderStands(ReadHead(s).rest, more);
    } else if ReadHead(s).TooLarge? {
      ReadMore(s, more);
    }
  }

  /** Nothing decoded so far is refused, and no oversized frame has been met. */
  ghost predicate Sound(arrived: Bytes, accepts: Bytes -> bool) {
    AllAccepted(Decode(arrived), accepts) && !ReadHead(Remainder(arrived)).TooLarge?
  }

  lemma SoundBefore(arrived: Bytes, chunk: Bytes, accepts: Bytes -> bool)
    requires Sound(arrived + chunk, accepts)
    ensures Sound(arrived, accepts)
  {
    DecodeMore(arrived, chunk);
    RemainderStands(arrived, chunk);
    assert forall i :: 0 <= i < |Decode(arrived)| ==> Decode(arrived + chunk)[i] == Decode(arrived)[i];
  }

  lemma {:induction false} StaysHealthy(events: seq<Event>, accepts: Bytes -> bool, batch: nat)
    requires Sound(Arrived(events), accepts)
    ensures Healthy(Run(events, accepts, batch), Arrived(events), accepts)
  {
    if events != [] {
      var front := events[..|events| - 1];
      if events[|events| - 1].Arrive? {
        SoundBefore(Arrived(front), events[|events| - 1].chunk, accepts);
      }
      StaysHealthy(front, accepts, batch);
      RemainderStands(Arrived(front), []);
      match events[|events| - 1]
      case Arrive(chunk) =>
        ArrivalHealthy(Run(front, accepts, batch), Arrived(front), chunk, accepts);
      case OnTraffic =>
        TrafficOpen(Run(front, accepts, batch), accepts, batch);
    }
  }

  lemma {:induction false} TrafficLeaves(r: Reader, accepts: Bytes -> bool, budget: nat)
    ensures !r.closed && !Traffic(r, accepts, budget).closed ==>
      Remainder(Traffic(r, accepts, budget).inbound) == Remainder(r.inbound)
    decreases budget
  {
    if budget > 0 && ReadHead(r.inbound).Ready? {
      var h := ReadHead(r.inbound);
      TrafficLeaves(Reader(h.rest, r.delivered + [h.message], false), accepts, budget - 1);
    }
  }

  /** What an open reader has not decoded ends as the stream ends. */
  lemma {:induction false} OpenRemainder(events: seq<Event>, accepts: Bytes -> bool, batch: nat)
    ensures var r := Run(events, accepts, batch); !r.closed ==> Remainder(r.inbound) == Remainder(Arrived(events))
  {
    if events != [] {
      var front := events[..|events| - 1];
      OpenRemainder(front, accepts, batch);
      var r := Run(front, accepts, batch);
      match events[|events| - 1]
      case Arrive(chunk) =>
        if !r.closed {
          if ReadHead(Remainder(r.inbound)).TooLarge? {
            RemainderStands(r.inbound, chunk);
            RemainderStands(Arrived(front), chunk);
          } else {
            RemainderMore(r.inbound, chunk);
            RemainderMore(Arrived(front), chunk);
          }
        }
      case OnTraffic =>
        TrafficLeaves(r, accepts, batch);
    }
  }

  /** EXACTLY WHEN A CONNECTION IS CLOSED: never as long as nothing that arrived is refused or oversized; and
      otherwise as soon as enough traffic events follow, however the bytes were cut. */
  lemma ClosedExactly(events: seq<Event>, accepts: Bytes -> bool, batch: nat, n: nat, lib: Library)
    requires NoneEmpty(Decode(Arrived(events))) || lib.DoesNothing()
    ensures RunWith(events, accepts, batch, lib).closed ==> !Sound(Arrived(events), accepts)
    ensures batch * n > |Decode(Arrived(events))| ==>
      (RunWith(events + Calls(n), accepts, batch, lib).closed <==> !Sound(Arrived(events), accepts))
  {
    LibraryIndependent(events, accepts, batch, lib);
    RunLater(events, accepts, batch, n);
    LibraryIndependent(events + Calls(n), accepts, batch, lib);
    if Sound(Arrived(events), accepts) {
      StaysHealthy(events, accepts, batch);
      StaysHealthy(events + Calls(n), accepts, batch);
    } else if batch * n > |Decode(Arrived(events))| {
      ClosedAtLast(events, accepts, batch, n);
    }
  }

  lemma OpenSound(events: seq<Event>, accepts: Bytes -> bool, batch: nat)
    requires !Run(events, accepts, batch).closed && ReadHead(Run(events, accepts, batch).inbound).Incomplete?
    ensures Sound(Arrived(events), accepts)
  {
    var r, arrived := Run(events, accepts, batch), Arrived(events);
    RunTracks(events, accepts, batch);
    OpenRemainder(events, accepts, batch);
    assert arrived + [] == arrived && r.inbound + [] == r.inbound;
    assert Decode(arrived + []) == r.delivered + Decode(r.inbound + []);
  }

  lemma ClosedAtLast(events: seq<Event>, accepts: Bytes -> bool, batch: nat, n: nat)
    requires !Sound(Arrived(events), accepts) && batch * n > |Decode(Arrived(events))|
    ensures Run(events + Calls(n), accepts, batch).closed
  {
    RunLater(events, accepts, batch, n);
    LaterAdvances(Run(events, accepts, batch), accepts, batch, n);
    DeliveredIsPrefix(events + Calls(n), accepts, batch);
    if !Run(events + Calls(n), accepts, batch).closed {
      OpenSound(events + Calls(n), accepts, batch);
    }
  }

  // ---------------------------------------------------------------- the blocking reader

  function NonEmpty(messages: seq<Bytes>): seq<Bytes> {
    if messages == [] then []
    else if messages[0] == [] then NonEmpty(messages[1..])
    else [messages[0]] + NonEmpty(messages[1..])
  }

  /** Reads a connection to its end; `stream` is every byte it ever carries.  Empty frames are skipped,
      an oversized one ends the connection, and a handler error is ignored. */
  method HandleConnection(stream: Bytes) returns (delivered: seq<Bytes>)
    ensures delivered == NonEmpty(Decode(stream))
  {
    delivered := [];
    var reader := stream;
    while true
      invariant delivered + NonEmpty(Decode(reader)) == NonEmpty(Decode(stream))
      decreases |reader|
    {
      if |reader| < 4 {
        return;
      }
      ghost var whole := reader;
      var dataLength := Uint32(reader[..4]);
      reader := reader[4..];
      if dataLength == 0 || dataLength > MAX_MESSAGE {
        if dataLength > MAX_MESSAGE {
          return;
        }
        HeadSlices(whole, 0);
        continue;
      }
      if |reader| < dataLength {
        return;
      }
      HeadSlices(whole, dataLength);
      var data := reader[..dataLength];
      reader := reader[dataLength..];
      ConcatAssociative(delivered, [data], NonEmpty(Decode(reader)));
      delivered := delivered + [data];
    }
  }

  /** Just the empty ones are missing, the order is kept. */
  lemma {:induction false} NonEmptyExactly(messages: seq<Bytes>)
    ensures NonEmpty(messages) == Delete(messages, [])
  {
    if messages != [] {
      NonEmptyExactly(messages[1..]);
      DeleteConcat([messages[0]], messages[1..], []);
      assert messages == [messages[0]] + messages[1..];
      var first: seq<Bytes> := [messages[0]];
      assert first[..0] == [];
    }
  }

  lemma {:induction false} NonEmptyAll(messages: seq<Bytes>)
    requires forall i :: 0 <= i < |messages| ==> messages[i] != []
    ensures NonEmpty(messages) == messages
  {
    if messages != [] {
      NonEmptyAll(messages[1..]);
    }
  }

  /** THE TWO READERS AGREE: with a handler that accepts all, the blocking reader delivers the non-empty
      messages among those the event loop delivers, on any bytes if the library does nothing when asked for
      nothing; on what a writer wrote, the two deliver the same, namely what was written, whatever the library
      does. */
  lemma ReadersAgree(events: seq<Event>, accepts: Bytes -> bool, batch: nat, n: nat, messages: seq<Bytes>, lib: Library)
    requires forall m :: accepts(m)
    requires batch * n >= |Decode(Arrived(events))|
    ensures lib.DoesNothing() ==>
      NonEmpty(RunWith(events + Calls(n), accepts, batch, lib).delivered) == NonEmpty(Decode(Arrived(events)))
    ensures (forall i :: 0 <= i < |messages| ==> Sendable(messages[i])) && Arrived(events) == EncodeAll(messages)
      ==> NonEmpty(Decode(Arrived(events))) == messages == RunWith(events + Calls(n), accepts, batch, lib).delivered
  {
    RefusalPrefix(Decode(Arrived(events)), accepts);
    if lib.DoesNothing() {
      AnyBytes(events, accepts, batch, n, lib);
    }
    if (forall i :: 0 <= i < |messages| ==> Sendable(messages[i])) && Arrived(events) == EncodeAll(messages) {
      DecodeCut(messages, Arrived(events));
      NonEmptyAll(messages);
      AnyBytes(events, accepts, batch, n, lib);
    }
  }
}
