/** Result frames on the control socket: a length header and the frame, written and read in
    whatever pieces the socket takes, until a deadline, a cancellation or an error. */
module BoundedSocket {
  import opened Order
  import opened Utf8
  import opened Scan
  import opened ResultReader
  import opened BoundedReader

  const ECANCELED: Errno := Os(89)
  const ETIMEDOUT: Errno := Os(60)
  const EBADF: Errno := Os(9)
  const EPIPE: Errno := Os(32)
  const ECLOCK: Errno := Os(22)

  /** What one round of waiting and calling the system meets. `Retry` stands for every
      outcome after which the loop goes around again: an interrupted or idle poll, and a
      call that would block. */
  datatype Event = PollFails(errno: int) | Retry | BadDescriptor | Transfers(n: nat) | CallFails(errno: int) | Closes

  /** One round: whether the caller has cancelled, the clock, the event, and what has come in
      from the peer since the round before. */
  datatype Step = Step(cancelled: bool, now: Option<nat>, event: Event, arrives: Bytes)

  /** What comes in during these rounds. */
  function Arrivals(steps: seq<Step>): Bytes {
    if steps == [] then [] else steps[0].arrives + Arrivals(steps[1..])
  }

  /** Why a round ends the loop before its event, if it does. */
  function Stop(s: Step, deadline: nat): Option<Errno> {
    if s.cancelled then Some(ECANCELED)
    else if s.now.None? then Some(ECLOCK)
    else if s.now.value >= deadline then Some(ETIMEDOUT)
    else None
  }

  function ErrnoOf(code: int): (e: Errno)
    ensures e != NoError
  {
    Os(code)
  }

  // ---- The length header ----

  function Header(n: nat): Bytes
    requires n < 0x1_0000_0000
  {
    [n / 0x100_0000, n / 0x1_0000 % 0x100, n / 0x100 % 0x100, n % 0x100]
  }

  function HeaderValue(h: Bytes): nat
    requires |h| == 4
  {
    h[0] as int * 0x100_0000 + h[1] as int * 0x1_0000 + h[2] as int * 0x100 + h[3] as int
  }

  lemma HeaderRoundTrip(n: nat)
    requires n < 0x1_0000_0000
    ensures HeaderValue(Header(n)) == n
  {
    var b := n / 0x100;
    var c := b / 0x100;
    assert n / 0x1_0000 == c && n / 0x100_0000 == c / 0x100;
    assert n == b * 0x100 + n % 0x100 && b == c * 0x100 + b % 0x100 && c == c / 0x100 * 0x100 + c % 0x100;
  }

  /** The number bytes stand for, the most significant first. */
  function BigEndian(b: Bytes): nat {
    if b == [] then 0 else BigEndian(b[..|b| - 1]) * 0x100 + b[|b| - 1]
  }

  /** The header is the length in network order: of all four bytes exactly those. */
  lemma HeaderIsBigEndian(h: Bytes, n: nat)
    requires |h| == 4 && n < 0x1_0000_0000
    ensures HeaderValue(h) == BigEndian(h)
    ensures h == Header(n) <==> BigEndian(h) == n
  {
    hide Header, HeaderValue;
    FourBytes(h);
    HeaderRoundTrip(n);
    HeaderLength(n);
    FourBytes(Header(n));
    if HeaderValue(h) == n { SameBytes(h, Header(n)); }
  }

  lemma FourBytes(h: Bytes)
    requires |h| == 4
    ensures HeaderValue(h) == BigEndian(h)
  {
    assert h[..3][..2] == h[..2] && h[..2][..1] == h[..1] && h[..1][..0] == [];
    assert BigEndian(h[..1]) == h[0];
    assert BigEndian(h[..2]) == h[0] as int * 0x100 + h[1] as int;
    assert BigEndian(h[..3]) == (h[0] as int * 0x100 + h[1] as int) * 0x100 + h[2] as int;
  }

  lemma SameBytes(a: Bytes, b: Bytes)
    requires |a| == |b| == 4 && HeaderValue(a) == HeaderValue(b)
    ensures a == b
  {
    assert a[0] == b[0];
    assert a[1] == b[1];
    assert a[2] == b[2];
  }

  // ---- The socket ----

  class Socket {
    /** What has come in from the peer and this side has not read. */
    var incoming: Bytes
    /** What this side has sent. */
    var outgoing: Bytes
    /** The rounds to come; when none is left the deadline has passed. */
    var steps: seq<Step>
    const deadline: nat

    /** What has come in and what will. */
    ghost function Coming(): Bytes
      reads this`incoming, this`steps
    {
      incoming + Arrivals(steps)
    }

    /** The next round. */
    method NextStep() returns (step: Step)
      requires steps != []
      modifies this`incoming, this`steps
      ensures step == old(steps)[0] && steps == old(steps)[1..] && incoming == old(incoming) + step.arrives
      ensures Coming() == old(Coming())
    {
      step := steps[0];
      ArrivesFirst(incoming, steps);
      steps := steps[1..];
      incoming := incoming + step.arrives;
    }

    /** One read: some bytes from the front of what has arrived, or why there are none. */
    method Read(capacity: nat) returns (reply: Reply)
      requires 0 < capacity
      modifies this`incoming, this`steps
      ensures Received(reply, steps, incoming) == ReadOnce(old(steps), old(incoming), deadline, capacity)
    {
      hide Arrivals;
      while steps != []
        invariant ReadOnce(steps, incoming, deadline, capacity)
               == ReadOnce(old(steps), old(incoming), deadline, capacity)
        decreases |steps|
      {
        var step := NextStep();
        if step.cancelled { return Failure(ECANCELED); }
        if step.now.None? { return Failure(ECLOCK); }
        if step.now.value >= deadline { return Failure(ETIMEDOUT); }
        match step.event {
          case PollFails(e) => return Failure(ErrnoOf(e));
          case Retry =>
          case BadDescriptor => return Failure(EBADF);
          case CallFails(e) => return Failure(ErrnoOf(e));
          case Closes => return Eof;
          case Transfers(n) =>
            var count := Taken(n, capacity, |incoming|);
            if count > 0 {
              reply := Data(incoming[..count]);
              incoming := incoming[count..];
              return;
            }
        }
      }
      reply := Failure(ETIMEDOUT);
    }

    /** Sends all of `bytes`, or its first `sent` bytes and an error. */
    method Write(bytes: Bytes) returns (errno: Errno, sent: nat)
      modifies this`outgoing, this`incoming, this`steps
      ensures sent <= |bytes| && outgoing == old(outgoing) + bytes[..sent]
      ensures errno == NoError <==> sent == |bytes|
      ensures Written(errno, sent, steps) == WriteRun(old(steps), deadline, |bytes|, 0)
      ensures Coming() == old(Coming())
    {
      hide Arrivals, Coming;
      sent := 0;
      while sent < |bytes|
        invariant sent <= |bytes| && outgoing == old(outgoing) + bytes[..sent] && Coming() == old(Coming())
        invariant WriteRun(steps, deadline, |bytes|, sent) == WriteRun(old(steps), deadline, |bytes|, 0)
        decreases |steps|
      {
        if steps == [] { return ETIMEDOUT, sent; }
        var step := NextStep();
        if step.cancelled { return ECANCELED, sent; }
        if step.now.None? { return ECLOCK, sent; }
        if step.now.value >= deadline { return ETIMEDOUT, sent; }
        match step.event {
          case PollFails(e) => return ErrnoOf(e), sent;
          case Retry =>
          case BadDescriptor => return EBADF, sent;
          case CallFails(e) => return ErrnoOf(e), sent;
          case Closes => return EPIPE, sent;
          case Transfers(n) =>
            var chunk := if |bytes| - sent < CHUNK then |bytes| - sent else CHUNK;
            var count := if n < chunk then n else chunk;
            if count == 0 { return EPIPE, sent; }
            outgoing := outgoing + bytes[sent..sent + count];
            NextPart(old(outgoing), bytes, sent, count);
            sent := sent + count;
        }
      }
      errno := NoError;
    }

    /** Reassembles the length header. */
    method ReadHeader() returns (h: Option<Bytes>, errno: Errno)
      modifies this`incoming, this`steps
      ensures h.Some? ==> |h.value| == 4
      ensures h.None? ==> errno != NoError
      ensures Head(h, errno, steps, incoming) == HeaderRead(old(steps), old(incoming), deadline, [])
    {
      hide ReadOnce;
      var header: Bytes := [];
      while |header| < 4
        invariant |header| <= 4
        invariant HeaderRead(steps, incoming, deadline, header) == HeaderRead(old(steps), old(incoming), deadline, [])
      {
        var reply := Read(4 - |header|);
        if !reply.Data? {
          return None, if reply.Failure? then reply.errno else Eproto;
        }
        header := header + reply.bytes;
      }
      h, errno := Some(header), NoError;
    }

    /** Sends one frame: its length in network order, then its bytes. What was sent when it
        fails is the front of these. */
    method WriteResults(frame: Bytes) returns (ok: bool)
      modifies this`outgoing, this`incoming, this`steps
      ensures Coming() == old(Coming())
      ensures !(0 < |frame| <= FRAME_MAX_BYTES) ==> !ok && outgoing == old(outgoing) && steps == old(steps)
      ensures 0 < |frame| <= FRAME_MAX_BYTES ==>
                var run := FrameRun(old(steps), deadline, |frame|);
                && ok == (run.errno == NoError) && steps == run.steps
                && outgoing == old(outgoing) + (Header(|frame|) + frame)[..run.sent]
    {
      hide WriteRun, Coming;
      if |frame| == 0 || |frame| > FRAME_MAX_BYTES { return false; }
      var errno, sent := Write(Header(|frame|));
      assert (Header(|frame|) + frame)[..sent] == Header(|frame|)[..sent];
      if errno != NoError { return false; }
      errno, sent := Write(frame);
      assert (Header(|frame|) + frame)[..4 + sent] == Header(|frame|) + frame[..sent];
      ok := errno == NoError;
    }
  }

  lemma ArrivesFirst(incoming: Bytes, steps: seq<Step>)
    requires steps != []
    ensures incoming + Arrivals(steps) == (incoming + steps[0].arrives) + Arrivals(steps[1..])
  {
  }

  lemma NextPart(before: Bytes, bytes: Bytes, sent: nat, count: nat)
    requires sent + count <= |bytes|
    ensures before + bytes[..sent] + bytes[sent..sent + count] == before + bytes[..sent + count]
  {
  }

  // ---- What is sent ----

  /** The outcome of a write: the error, how much was sent, and the rounds that remain. */
  datatype Written = Written(errno: Errno, sent: nat, steps: seq<Step>)

  /** Sending `length` bytes of which `sent` are out. */
  function WriteRun(steps: seq<Step>, deadline: nat, length: nat, sent: nat): (r: Written)
    requires sent <= length
    ensures r.sent <= length && (r.errno == NoError <==> r.sent == length)
    decreases |steps|
  {
    if sent == length then Written(NoError, sent, steps)
    else if steps == [] then Written(ETIMEDOUT, sent, [])
    else
      var rest := steps[1..];
      var stop := Stop(steps[0], deadline);
      if stop.Some? then Written(stop.value, sent, rest)
      else
        match steps[0].event
        case PollFails(e) => Written(ErrnoOf(e), sent, rest)
        case Retry => WriteRun(rest, deadline, length, sent)
        case BadDescriptor => Written(EBADF, sent, rest)
        case CallFails(e) => Written(ErrnoOf(e), sent, rest)
        case Closes => Written(EPIPE, sent, rest)
        case Transfers(n) =>
          var count := Min(n, Min(length - sent, CHUNK));
          if count == 0 then Written(EPIPE, sent, rest) else WriteRun(rest, deadline, length, sent + count)
  }

  /** Sending a header and a frame of that size. */
  function FrameRun(steps: seq<Step>, deadline: nat, size: nat): (r: Written)
    ensures r.sent <= 4 + size && (r.errno == NoError <==> r.sent == 4 + size)
  {
    var header := WriteRun(steps, deadline, 4, 0);
    if header.errno != NoError then header
    else
      var frame := WriteRun(header.steps, deadline, size, 0);
      Written(frame.errno, 4 + frame.sent, frame.steps)
  }

  function Taken(n: nat, capacity: nat, available: nat): (k: nat)
    ensures k <= n && k <= capacity && k <= available
  {
    Min(Min(n, capacity), available)
  }

  /** The outcome of one read: the reply, and the rounds and bytes that remain. */
  datatype Received = Received(reply: Reply, steps: seq<Step>, incoming: Bytes)

  function ReadOnce(steps: seq<Step>, incoming: Bytes, deadline: nat, capacity: nat): (g: Received)
    ensures g.reply.Data? ==> 0 < |g.reply.bytes| <= capacity
    ensures g.reply.Failure? ==> g.reply.errno != NoError
    decreases |steps|
  {
    if steps == [] then Received(Failure(ETIMEDOUT), [], incoming)
    else
      var rest, here := steps[1..], incoming + steps[0].arrives;
      var stop := Stop(steps[0], deadline);
      if stop.Some? then Received(Failure(stop.value), rest, here)
      else
        match steps[0].event
        case PollFails(e) => Received(Failure(ErrnoOf(e)), rest, here)
        case Retry => ReadOnce(rest, here, deadline, capacity)
        case BadDescriptor => Received(Failure(EBADF), rest, here)
        case CallFails(e) => Received(Failure(ErrnoOf(e)), rest, here)
        case Closes => Received(Eof, rest, here)
        case Transfers(n) =>
          var k := Taken(n, capacity, |here|);
          if k == 0 then ReadOnce(rest, here, deadline, capacity)
          else Received(Data(here[..k]), rest, here[k..])
  }

  // ---- How waiting ends ----

  /** The caller has not cancelled, the clock can be read and shows a time before the deadline. */
  predicate Timely(s: Step, deadline: nat) {
    !s.cancelled && s.now.Some? && s.now.value < deadline
  }

  /** Rounds after which the loops go around again, having moved nothing. */
  predicate Idle(steps: seq<Step>, deadline: nat) {
    forall i :: 0 <= i < |steps| ==> Timely(steps[i], deadline) && steps[i].event == Retry
  }

  /** The error a round that is not idle ends with, if it moves nothing: cancelled before
      anything else, then no clock, then too late, then what the system reports. */
  predicate Ends(s: Step, deadline: nat, error: int) {
    || (s.cancelled && error == 89)
    || (!s.cancelled && s.now.None? && error == 22)
    || (!s.cancelled && s.now.Some? && deadline <= s.now.value && error == 60)
    || (Timely(s, deadline) && s.event.BadDescriptor? && error == 9)
    || (Timely(s, deadline) && s.event == PollFails(error))
    || (Timely(s, deadline) && s.event == CallFails(error))
  }

  predicate Least(k: nat, a: nat, b: nat, c: nat) {
    k in {a, b, c} && k <= a && k <= b && k <= c
  }

  /** After any number of idle rounds a read ends in the first round that is not: with that
      round's error, with the end of the stream, or with as much as was asked for, offered and
      there. What came in meanwhile stays. Without such a round it is late. */
  lemma {:induction false} ReadEnds(idle: seq<Step>, s: Step, rest: seq<Step>, incoming: Bytes, deadline: nat,
                                    capacity: nat, k: nat)
    requires Idle(idle, deadline)
    ensures var g := ReadOnce(idle + [s] + rest, incoming, deadline, capacity);
            var here := incoming + Arrivals(idle) + s.arrives;
            && (forall error :: Ends(s, deadline, error) ==> g == Received(Failure(Os(error)), rest, here))
            && (Timely(s, deadline) && s.event.Closes? ==> g == Received(Eof, rest, here))
            && (Timely(s, deadline) && s.event.Transfers? && 0 < k && Least(k, s.event.n, capacity, |here|) ==>
                  g == Received(Data(here[..k]), rest, here[k..]))
    ensures ReadOnce(idle, incoming, deadline, capacity)
         == Received(Failure(Os(60)), [], incoming + Arrivals(idle))
    decreases |idle|
  {
    if idle == [] {
      assert (idle + [s] + rest)[1..] == rest && incoming + [] == incoming;
    } else {
      var here := incoming + idle[0].arrives;
      assert (idle + [s] + rest)[1..] == idle[1..] + [s] + rest;
      ReadEnds(idle[1..], s, rest, here, deadline, capacity, k);
      assert here + Arrivals(idle[1..]) == incoming + Arrivals(idle);
    }
  }

  /** A write ends likewise, having sent no more; a peer that takes nothing is gone. What is
      taken is never more than a chunk. */
  lemma {:induction false} WriteEnds(idle: seq<Step>, s: Step, rest: seq<Step>, deadline: nat, length: nat, sent: nat,
                                     k: nat)
    requires Idle(idle, deadline) && sent < length
    ensures var r := WriteRun(idle + [s] + rest, deadline, length, sent);
            && (forall error :: Ends(s, deadline, error) ==> r == Written(Os(error), sent, rest))
            && (Timely(s, deadline) && (s.event.Closes? || s.event == Transfers(0)) ==>
                  r == Written(Os(32), sent, rest))
            && (Timely(s, deadline) && s.event.Transfers? && 0 < k && Least(k, s.event.n, length - sent, 4096) ==>
                  r == WriteRun(rest, deadline, length, sent + k))
    ensures WriteRun(idle, deadline, length, sent) == Written(Os(60), sent, [])
    decreases |idle|
  {
    if idle == [] {
      assert (idle + [s] + rest)[1..] == rest;
    } else {
      assert (idle + [s] + rest)[1..] == idle[1..] + [s] + rest;
      WriteEnds(idle[1..], s, rest, deadline, length, sent, k);
    }
  }

  /** What has come in and what will, in these rounds. */
  function Stream(steps: seq<Step>, incoming: Bytes): Bytes {
    incoming + Arrivals(steps)
  }

  /** A read takes its bytes off the front of the stream. */
  lemma {:induction false} ReadTakesFront(steps: seq<Step>, incoming: Bytes, deadline: nat, capacity: nat)
    ensures var g := ReadOnce(steps, incoming, deadline, capacity);
            var n := if g.reply.Data? then |g.reply.bytes| else 0;
            && n <= |Stream(steps, incoming)|
            && (g.reply.Data? ==> g.reply.bytes == Stream(steps, incoming)[..n])
            && Stream(g.steps, g.incoming) == Stream(steps, incoming)[n..]
    decreases |steps|
  {
    hide Stream;
    if steps == [] {
      assert Stream(steps, incoming)[0..] == Stream(steps, incoming);
    } else {
      var here := incoming + steps[0].arrives;
      Onward(steps, incoming);
      var g := ReadOnce(steps, incoming, deadline, capacity);
      if g == ReadOnce(steps[1..], here, deadline, capacity) {
        ReadTakesFront(steps[1..], here, deadline, capacity);
      } else if g.reply.Data? {
        CutFront(steps[1..], here, |g.reply.bytes|);
      } else {
        assert Stream(steps, incoming)[0..] == Stream(steps, incoming);
      }
    }
  }

  lemma Onward(steps: seq<Step>, incoming: Bytes)
    requires steps != []
    ensures Stream(steps[1..], incoming + steps[0].arrives) == Stream(steps, incoming)
  {
  }

  lemma CutFront(steps: seq<Step>, incoming: Bytes, k: nat)
    requires k <= |incoming|
    ensures k <= |Stream(steps, incoming)| && incoming[..k] == Stream(steps, incoming)[..k]
    ensures Stream(steps, incoming[k..]) == Stream(steps, incoming)[k..]
  {
  }

  // ---- What arrives ----

  datatype Head = Head(header: Option<Bytes>, errno: Errno, steps: seq<Step>, incoming: Bytes)

  function HeaderRead(steps: seq<Step>, incoming: Bytes, deadline: nat, have: Bytes): (r: Head)
    requires |have| <= 4
    ensures r.header.Some? ==> |r.header.value| == 4
    decreases 4 - |have|
  {
    if |have| == 4 then Head(Some(have), NoError, steps, incoming)
    else
      var g := ReadOnce(steps, incoming, deadline, 4 - |have|);
      if !g.reply.Data? then Head(None, if g.reply.Failure? then g.reply.errno else Eproto, g.steps, g.incoming)
      else HeaderRead(g.steps, g.incoming, deadline, have + g.reply.bytes)
  }

  /** The header is the front of the stream. */
  lemma {:induction false} HeaderTakesFront(steps: seq<Step>, incoming: Bytes, deadline: nat, have: Bytes)
    requires |have| <= 4
    ensures var h := HeaderRead(steps, incoming, deadline, have);
            h.header.Some? ==> h.header.value + Stream(h.steps, h.incoming) == have + Stream(steps, incoming)
    decreases 4 - |have|
  {
    hide ReadOnce, Stream;
    if |have| < 4 {
      var g := ReadOnce(steps, incoming, deadline, 4 - |have|);
      if g.reply.Data? {
        ReadTakesFront(steps, incoming, deadline, 4 - |have|);
        HeaderTakesFront(g.steps, g.incoming, deadline, have + g.reply.bytes);
        Regroup(have, g.reply.bytes, Stream(g.steps, g.incoming), Stream(steps, incoming));
      }
    }
  }

  lemma Regroup(a: Bytes, b: Bytes, c: Bytes, whole: Bytes)
    requires |b| <= |whole| && b == whole[..|b|] && c == whole[|b|..]
    ensures (a + b) + c == a + whole
  {
  }

  /** The replies the reader gets for a frame of `remaining` bytes. */
  function SocketReplies(steps: seq<Step>, incoming: Bytes, deadline: nat, remaining: nat): seq<Reply>
    decreases remaining
  {
    if remaining == 0 then []
    else
      var g := ReadOnce(steps, incoming, deadline, Min(remaining, CHUNK));
      if !g.reply.Data? then [g.reply]
      else [g.reply] + SocketReplies(g.steps, g.incoming, deadline, remaining - |g.reply.bytes|)
  }

  /** The socket between two calls. */
  datatype Place = Place(steps: seq<Step>, incoming: Bytes)

  /** Where the socket is after the first `used` of these replies. */
  function SocketAfter(steps: seq<Step>, incoming: Bytes, deadline: nat, remaining: nat, used: nat): Place
    decreases remaining
  {
    if remaining == 0 || used == 0 then Place(steps, incoming)
    else
      var g := ReadOnce(steps, incoming, deadline, Min(remaining, CHUNK));
      if !g.reply.Data? then Place(g.steps, g.incoming)
      else SocketAfter(g.steps, g.incoming, deadline, remaining - |g.reply.bytes|, used - 1)
  }

  /** However the socket cuts it, what arrives is the front of what was sent: all of the
      frame, or less and an error. */
  lemma {:induction false} SocketDelivers(steps: seq<Step>, incoming: Bytes, deadline: nat, remaining: nat)
    ensures var d := Delivered(SocketReplies(steps, incoming, deadline, remaining), remaining);
            var stream := Stream(steps, incoming);
            && |d.t| <= |stream| && d.t == stream[..|d.t|]
            && (d.fault == NoError ==> |d.t| == remaining)
    decreases remaining
  {
    hide ReadOnce, Stream, Delivered;
    var script := SocketReplies(steps, incoming, deadline, remaining);
    if remaining == 0 {
      DeliveredNone(script);
    } else {
      var g := ReadOnce(steps, incoming, deadline, Min(remaining, CHUNK));
      ReadTakesFront(steps, incoming, deadline, Min(remaining, CHUNK));
      if g.reply.Data? {
        var rest := SocketReplies(g.steps, g.incoming, deadline, remaining - |g.reply.bytes|);
        assert script[1..] == rest;
        SocketDelivers(g.steps, g.incoming, deadline, remaining - |g.reply.bytes|);
        DeliveredMore(script, remaining);
        FrontThenFront(Stream(steps, incoming), |g.reply.bytes|, |Delivered(rest, remaining - |g.reply.bytes|).t|);
      } else {
        DeliveredStops(script, remaining);
      }
    }
  }

  lemma FrontThenFront(s: Bytes, a: nat, b: nat)
    requires a <= |s| && b <= |s[a..]|
    ensures s[..a] + s[a..][..b] == s[..a + b] && s[a..][b..] == s[a + b..]
  {
  }

  /** What the first replies brought is what they took off the stream, and they bring the
      whole frame only if they are all there are. */
  lemma {:induction false} RepliesTake(steps: seq<Step>, incoming: Bytes, deadline: nat, remaining: nat, used: nat)
    requires used <= |SocketReplies(steps, incoming, deadline, remaining)|
    ensures var n := Brought(SocketReplies(steps, incoming, deadline, remaining), remaining, used).bytes;
            var p := SocketAfter(steps, incoming, deadline, remaining, used);
            && n <= |Stream(steps, incoming)| && Stream(p.steps, p.incoming) == Stream(steps, incoming)[n..]
            && (n == remaining ==> used == |SocketReplies(steps, incoming, deadline, remaining)|)
    decreases remaining
  {
    hide ReadOnce, Stream, Brought;
    var script := SocketReplies(steps, incoming, deadline, remaining);
    var stream := Stream(steps, incoming);
    BroughtNone(script, remaining);
    assert stream[0..] == stream;
    if 0 < remaining && 0 < used {
      var g := ReadOnce(steps, incoming, deadline, Min(remaining, CHUNK));
      ReadTakesFront(steps, incoming, deadline, Min(remaining, CHUNK));
      BroughtFirst(script, remaining, used);
      if g.reply.Data? {
        var n := |g.reply.bytes|;
        assert script[1..] == SocketReplies(g.steps, g.incoming, deadline, remaining - n);
        RepliesTake(g.steps, g.incoming, deadline, remaining - n, used - 1);
        FrontThenFront(stream, n, Brought(script[1..], remaining - n, used - 1).bytes);
      }
    }
  }

  lemma BroughtNone(script: seq<Reply>, remaining: nat)
    ensures Brought(script, remaining, 0) == Progress(0, true)
  {
  }

  /** The first reply and those after it. */
  lemma {:induction false} BroughtFirst(script: seq<Reply>, remaining: nat, used: nat)
    requires 0 < used <= |script|
    ensures Brought(script, remaining, used) ==
            if Useful(script[0], remaining) then
              var n := |script[0].bytes|;
              var p := Brought(script[1..], remaining - n, used - 1);
              Progress(n + p.bytes, p.useful)
            else Progress(0, false)
  {
    if 1 < used { BroughtFirst(script, remaining, used - 1); }
  }

  // ---- When nothing fails ----

  /** No round is cancelled or late, and none fails; a transfer moves something. */
  predicate Smooth(steps: seq<Step>, deadline: nat) {
    forall i :: 0 <= i < |steps| ==>
      Stop(steps[i], deadline).None? && (steps[i].event.Retry? || (steps[i].event.Transfers? && 0 < steps[i].event.n))
  }

  /** The rounds in which something can be sent. */
  function Moves(steps: seq<Step>): nat {
    if steps == [] then 0 else (if steps[0].event.Transfers? then 1 else 0) + Moves(steps[1..])
  }

  /** The rounds in which something can be received and nothing more is to come in. */
  function LateMoves(steps: seq<Step>): nat {
    if steps == [] then 0
    else (if steps[0].event.Transfers? && Arrivals(steps[1..]) == [] then 1 else 0) + LateMoves(steps[1..])
  }

  /** Enough smooth rounds send everything. */
  lemma {:induction false} WritesAll(steps: seq<Step>, deadline: nat, length: nat, sent: nat)
    requires Smooth(steps, deadline) && sent <= length <= sent + Moves(steps)
    ensures var r := WriteRun(steps, deadline, length, sent);
            && r.errno == NoError && Smooth(r.steps, deadline)
            && Moves(steps) <= Moves(r.steps) + (length - sent)
    decreases |steps|
  {
    if sent < length {
      var rest := steps[1..];
      assert Smooth(rest, deadline);
      match steps[0].event {
        case Retry => WritesAll(rest, deadline, length, sent);
        case Transfers(n) => WritesAll(rest, deadline, length, sent + Min(n, Min(length - sent, CHUNK)));
      }
    }
  }

  lemma FrameIsSent(steps: seq<Step>, deadline: nat, size: nat)
    requires Smooth(steps, deadline) && 4 + size <= Moves(steps)
    ensures FrameRun(steps, deadline, size).errno == NoError
  {
    hide WriteRun, Smooth, Moves;
    WritesAll(steps, deadline, 4, 0);
    WritesAll(WriteRun(steps, deadline, 4, 0).steps, deadline, size, 0);
  }

  /** A late smooth round reads something of what is there. */
  lemma {:induction false} ReadsSome(steps: seq<Step>, incoming: Bytes, deadline: nat, capacity: nat)
    requires Smooth(steps, deadline) && 0 < LateMoves(steps) && Stream(steps, incoming) != [] && 0 < capacity
    ensures var g := ReadOnce(steps, incoming, deadline, capacity);
            g.reply.Data? && Smooth(g.steps, deadline) && LateMoves(steps) <= LateMoves(g.steps) + 1
    decreases |steps|
  {
    hide Stream;
    var rest, here := steps[1..], incoming + steps[0].arrives;
    assert Smooth(rest, deadline);
    Onward(steps, incoming);
    if steps[0].event.Retry? || |here| == 0 {
      if steps[0].event.Transfers? { MoreIsToCome(rest); }
      ReadsSome(rest, here, deadline, capacity);
    }
  }

  /** With nothing there, something is still to come. */
  lemma MoreIsToCome(steps: seq<Step>)
    ensures Stream(steps, []) == Arrivals(steps)
  {
  }

  lemma {:induction false} HeaderArrives(steps: seq<Step>, incoming: Bytes, deadline: nat, have: Bytes)
    requires |have| <= 4 && Smooth(steps, deadline) && 4 - |have| <= LateMoves(steps)
    requires 4 <= |have| + |Stream(steps, incoming)|
    ensures var h := HeaderRead(steps, incoming, deadline, have);
            var all := have + Stream(steps, incoming);
            && h.header == Some(all[..4]) && Stream(h.steps, h.incoming) == all[4..]
            && Smooth(h.steps, deadline) && LateMoves(steps) <= LateMoves(h.steps) + (4 - |have|)
    decreases 4 - |have|
  {
    hide ReadOnce, Smooth, LateMoves, Stream;
    var stream := Stream(steps, incoming);
    if |have| == 4 {
      assert (have + stream)[..4] == have && (have + stream)[4..] == stream;
    } else {
      ReadsSome(steps, incoming, deadline, 4 - |have|);
      ReadTakesFront(steps, incoming, deadline, 4 - |have|);
      var g := ReadOnce(steps, incoming, deadline, 4 - |have|);
      Regroup(have, g.reply.bytes, Stream(g.steps, g.incoming), stream);
      HeaderArrives(g.steps, g.incoming, deadline, have + g.reply.bytes);
    }
  }

  /** Enough late smooth rounds deliver a frame whole, however they cut it. */
  lemma {:induction false} FrameArrives(steps: seq<Step>, incoming: Bytes, deadline: nat, size: nat)
    requires Smooth(steps, deadline) && size <= LateMoves(steps) && size <= |Stream(steps, incoming)|
    ensures var script := SocketReplies(steps, incoming, deadline, size);
            var p := SocketAfter(steps, incoming, deadline, size, |script|);
            && Delivered(script, size) == Arrival(Stream(steps, incoming)[..size], NoError)
            && Smooth(p.steps, deadline) && LateMoves(steps) <= LateMoves(p.steps) + size
            && Stream(p.steps, p.incoming) == Stream(steps, incoming)[size..]
    decreases size
  {
    hide ReadOnce, Smooth, LateMoves, Stream, Delivered;
    var script, stream := SocketReplies(steps, incoming, deadline, size), Stream(steps, incoming);
    if size == 0 {
      DeliveredNone(script);
      assert stream[0..] == stream;
    } else {
      ReadsSome(steps, incoming, deadline, Min(size, CHUNK));
      ReadTakesFront(steps, incoming, deadline, Min(size, CHUNK));
      var g := ReadOnce(steps, incoming, deadline, Min(size, CHUNK));
      var n := |g.reply.bytes|;
      assert script[1..] == SocketReplies(g.steps, g.incoming, deadline, size - n);
      FrameArrives(g.steps, g.incoming, deadline, size - n);
      DeliveredMore(script, size);
      FrontThenFront(stream, n, size - n);
    }
  }

  // ---- Reading a frame ----

  /** What a reader with these rounds ahead is told. */
  function WireOutcome(steps: seq<Step>, incoming: Bytes, deadline: nat, limit: nat, alloc: Allocations): Outcome {
    if limit == 0 || limit > OUTPUT_MAX_BYTES
    then Outcome(None, EMPTY_OUTPUT.(state := Invalid, reason := ReadFailure), Einval)
    else
      var h := HeaderRead(steps, incoming, deadline, []);
      if h.header.None? then Outcome(None, EMPTY_OUTPUT.(state := Invalid, reason := ReadFailure), h.errno)
      else
        var n := HeaderValue(h.header.value);
        ReadOutcome(SocketReplies(h.steps, h.incoming, deadline, n), n, limit, alloc)
  }

  /** Reads a header and the frame it announces; an invalid limit is refused before anything
      is read. The result is a function of the rounds, and so is where the socket is left
      after a frame that was read; after any other it is where `used` replies leave it. */
  method ReadResults(socket: Socket, limit: nat, alloc: Allocations) returns (r: Outcome, bytesRead: nat, used: nat)
    modifies socket`incoming, socket`steps
    ensures r == WireOutcome(old(socket.steps), old(socket.incoming), socket.deadline, limit, alloc)
    ensures r.tree.None? ==> r.output.value == None && r.output.state == Invalid && r.errno != NoError
    ensures limit == 0 || limit > OUTPUT_MAX_BYTES ==>
              socket.steps == old(socket.steps) && socket.incoming == old(socket.incoming)
    ensures 0 < limit <= OUTPUT_MAX_BYTES ==>
              var h := HeaderRead(old(socket.steps), old(socket.incoming), socket.deadline, []);
              if h.header.None? then socket.steps == h.steps && socket.incoming == h.incoming
              else
                var n := HeaderValue(h.header.value);
                && Place(socket.steps, socket.incoming) == SocketAfter(h.steps, h.incoming, socket.deadline, n, used)
                && used <= |SocketReplies(h.steps, h.incoming, socket.deadline, n)|
                && bytesRead <= n && 4 + bytesRead <= |old(socket.Coming())|
                && socket.Coming() == old(socket.Coming())[4 + bytesRead..]
                && (r.tree.Some? ==> used == |SocketReplies(h.steps, h.incoming, socket.deadline, n)|)
    ensures r.tree.Some? ==>
              var all := old(socket.Coming());
              && 4 <= |all|
              && (var n := HeaderValue(all[..4]);
                  && 0 < n == bytesRead <= FRAME_MAX_BYTES && 4 + n <= |all|
                  && socket.Coming() == all[4 + n..]
                  && r == Reading(Arrival(all[4..4 + n], NoError), limit, alloc))
  {
    hide ReadOnce, HeaderRead, Delivered, Brought, Reading, SocketReplies, SocketAfter, HeaderValue, Root, Arrivals;
    bytesRead, used := 0, 0;
    if limit == 0 || limit > OUTPUT_MAX_BYTES {
      return Outcome(None, EMPTY_OUTPUT.(state := Invalid, reason := ReadFailure), Einval), 0, 0;
    }
    ghost var all := socket.Coming();
    HeaderTakesFront(socket.steps, socket.incoming, socket.deadline, []);
    var h, errno := socket.ReadHeader();
    if h.None? { return Outcome(None, EMPTY_OUTPUT.(state := Invalid, reason := ReadFailure), errno), 0, 0; }
    HeaderAndRest(h.value, socket.Coming(), all);
    var n := HeaderValue(h.value);
    var script := SocketReplies(socket.steps, socket.incoming, socket.deadline, n);
    ghost var d := Delivered(script, n);
    SocketDelivers(socket.steps, socket.incoming, socket.deadline, n);
    ghost var reach;
    r, bytesRead, used, reach := ReadBoundedResults(script, n, limit, alloc);
    RepliesTake(socket.steps, socket.incoming, socket.deadline, n, used);
    FrontThenFront(all, 4, bytesRead);
    if r.tree.Some? { ReadsAll(d, limit, alloc); }
    var after := SocketAfter(socket.steps, socket.incoming, socket.deadline, n, used);
    socket.steps, socket.incoming := after.steps, after.incoming;
  }

  lemma HeaderAndRest(header: Bytes, rest: Bytes, all: Bytes)
    requires |header| == 4 && header + rest == [] + all
    ensures 4 <= |all| && all[..4] == header && all[4..] == rest
    ensures forall n :: 0 <= n <= |rest| ==> all[4..4 + n] == rest[..n]
  {
    assert [] + all == all;
  }

  /** A frame whose bytes come in among enough smooth rounds is read as a whole, and leaves
      what follows it and the other rounds. */
  lemma WholeFrameIsRead(steps: seq<Step>, incoming: Bytes, deadline: nat, frame: Bytes, more: Bytes, limit: nat,
                         alloc: Allocations)
    requires 0 < |frame| <= FRAME_MAX_BYTES && 0 < limit <= OUTPUT_MAX_BYTES && alloc.core
    requires Stream(steps, incoming) == Header(|frame|) + frame + more
    requires Smooth(steps, deadline) && 4 + |frame| <= LateMoves(steps)
    ensures WireOutcome(steps, incoming, deadline, limit, alloc) == Reading(Arrival(frame, NoError), limit, alloc)
    ensures var h := HeaderRead(steps, incoming, deadline, []);
            var script := SocketReplies(h.steps, h.incoming, deadline, |frame|);
            var p := SocketAfter(h.steps, h.incoming, deadline, |frame|, |script|);
            && h.header == Some(Header(|frame|)) && Stream(p.steps, p.incoming) == more
            && Smooth(p.steps, deadline) && LateMoves(steps) <= LateMoves(p.steps) + 4 + |frame|
  {
    hide HeaderRead, SocketReplies, SocketAfter, Delivered, Reading, Smooth, LateMoves, HeaderValue, Header, Stream;
    var all := Stream(steps, incoming);
    HeaderLength(|frame|);
    HeaderRoundTrip(|frame|);
    FrameRoundTrip(frame, more);
    HeaderArrives(steps, incoming, deadline, []);
    assert [] + all == all && all[..4] == Header(|frame|);
    var h := HeaderRead(steps, incoming, deadline, []);
    FrameArrives(h.steps, h.incoming, deadline, |frame|);
    FrontThenFront(all, 4, |frame|);
    assert all[4..][..|frame|] == all[4..4 + |frame|];
  }

  lemma HeaderLength(n: nat)
    requires n < 0x1_0000_0000
    ensures |Header(n)| == 4
  {
  }

  lemma ReadsAll(d: Arrival, limit: nat, alloc: Allocations)
    requires Reading(d, limit, alloc).tree.Some?
    ensures d.fault == NoError
  {
  }

  /** What one side writes for a frame is what the other side takes for that frame, and it
      leaves whatever follows untouched. */
  lemma FrameRoundTrip(frame: Bytes, more: Bytes)
    requires 0 < |frame| <= FRAME_MAX_BYTES
    ensures var sent := Header(|frame|) + frame + more;
            && HeaderValue(sent[..4]) == |frame|
            && sent[4..4 + |frame|] == frame
            && sent[4 + |frame|..] == more
  {
    HeaderRoundTrip(|frame|);
    assert (Header(|frame|) + frame + more)[..4] == Header(|frame|);
  }
}
