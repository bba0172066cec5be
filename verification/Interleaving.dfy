/** One side sends a frame while the other receives it: their rounds interleave in any way. */
module Interleaving {
  import opened Order
  import opened Utf8
  import opened Scan
  import opened ResultReader
  import opened BoundedReader
  import opened BoundedSocket

  // ---- The sender's rounds ----

  /** How much of `size` bytes, their header and `more` the sender has on the wire after its
      first `j` rounds; `more` follows as soon as the frame is out. */
  function OnWire(steps: seq<Step>, deadline: nat, size: nat, more: nat, j: nat): nat
    requires j <= |steps|
  {
    var run := FrameRun(steps[..j], deadline, size);
    run.sent + if run.errno == NoError then more else 0
  }

  lemma {:induction false} Advances(steps: seq<Step>, deadline: nat, length: nat, sent: nat)
    requires sent <= length
    ensures sent <= WriteRun(steps, deadline, length, sent).sent
    decreases |steps|
  {
    if sent < length && steps != [] {
      match steps[0].event {
        case Retry => Advances(steps[1..], deadline, length, sent);
        case Transfers(n) =>
          var count := Min(n, Min(length - sent, CHUNK));
          if count > 0 { Advances(steps[1..], deadline, length, sent + count); }
        case _ =>
      }
    }
  }

  /** A writer's rounds so far are the front of its run. */
  lemma {:induction false} WritesOn(steps: seq<Step>, deadline: nat, length: nat, sent: nat, j: nat)
    requires sent <= length && j <= |steps|
    ensures var p, r := WriteRun(steps[..j], deadline, length, sent), WriteRun(steps, deadline, length, sent);
            && sent <= p.sent <= r.sent
            && (p.errno == NoError ==>
                  && r.errno == NoError && |p.steps| <= j && |r.steps| == |p.steps| + |steps| - j
                  && r.steps[..|p.steps|] == p.steps)
    decreases |steps|
  {
    Advances(steps, deadline, length, sent);
    if sent < length && 0 < j {
      var rest := steps[1..];
      assert steps[..j][0] == steps[0] && steps[..j][1..] == rest[..j - 1];
      if Stop(steps[0], deadline).None? {
        match steps[0].event {
          case Retry => WritesOn(rest, deadline, length, sent, j - 1);
          case Transfers(n) =>
            var count := Min(n, Min(length - sent, CHUNK));
            if count > 0 { WritesOn(rest, deadline, length, sent + count, j - 1); }
          case _ =>
        }
      }
    }
  }

  lemma OnWireWithin(steps: seq<Step>, deadline: nat, size: nat, more: nat, j: nat)
    requires j <= |steps|
    ensures OnWire(steps, deadline, size, more, j) <= OnWire(steps, deadline, size, more, |steps|)
    ensures FrameRun(steps[..j], deadline, size).errno == NoError ==> FrameRun(steps, deadline, size).errno == NoError
    ensures steps[..|steps|] == steps
  {
    hide WriteRun;
    assert steps[..|steps|] == steps;
    WritesOn(steps, deadline, 4, 0, j);
    var p, r := WriteRun(steps[..j], deadline, 4, 0), WriteRun(steps, deadline, 4, 0);
    if p.errno == NoError { WritesOn(r.steps, deadline, size, 0, |p.steps|); }
  }

  /** What more of the stream has come by a later round. */
  lemma OnWireGrows(steps: seq<Step>, deadline: nat, size: nat, more: nat, j: nat, k: nat)
    requires j <= k <= |steps|
    ensures OnWire(steps, deadline, size, more, j) <= OnWire(steps, deadline, size, more, k)
  {
    hide FrameRun;
    OnWireWithin(steps[..k], deadline, size, more, j);
    assert steps[..k][..j] == steps[..j] && steps[..k][..k] == steps[..k];
  }

  // ---- The receiver's rounds among them ----

  /** An interleaving: how many of the sender's rounds come before each of the receiver's. */
  predicate Schedule(times: seq<nat>, receiver: nat, sender: nat) {
    && |times| == receiver && (forall i :: 0 <= i < |times| ==> times[i] <= sender)
    && forall i, j :: 0 <= i < j < |times| ==> times[i] <= times[j]
  }

  /** Marks on a stream, none before another. */
  predicate Rising(marks: seq<nat>, from: nat, end: nat) {
    if marks == [] then from <= end else from <= marks[0] && Rising(marks[1..], marks[0], end)
  }

  lemma {:induction false} RisingEnds(marks: seq<nat>, from: nat, end: nat)
    requires Rising(marks, from, end)
    ensures from <= end && (marks != [] ==> marks[0] <= end)
  {
    if marks != [] { RisingEnds(marks[1..], marks[0], end); }
  }

  /** The receiver's rounds with the parts of `wire` up to each mark come in. */
  function Fed(steps: seq<Step>, wire: Bytes, marks: seq<nat>, from: nat): (r: seq<Step>)
    requires |marks| == |steps| && Rising(marks, from, |wire|)
    ensures |r| == |steps|
    decreases |steps|
  {
    if steps == [] then []
    else
      RisingEnds(marks[1..], marks[0], |wire|);
      [steps[0].(arrives := wire[from..marks[0]])] + Fed(steps[1..], wire, marks[1..], marks[0])
  }

  /** Where the last mark is. */
  function End(marks: seq<nat>, from: nat): nat {
    if marks == [] then from else marks[|marks| - 1]
  }

  lemma {:induction false} FedArrives(steps: seq<Step>, wire: Bytes, marks: seq<nat>, from: nat)
    requires |marks| == |steps| && Rising(marks, from, |wire|)
    ensures from <= End(marks, from) <= |wire|
    ensures Arrivals(Fed(steps, wire, marks, from)) == wire[from..End(marks, from)]
    decreases |steps|
  {
    RisingEnds(marks, from, |wire|);
    if steps != [] {
      FedArrives(steps[1..], wire, marks[1..], marks[0]);
      assert End(marks[1..], marks[0]) == End(marks, from);
      var fed := Fed(steps, wire, marks, from);
      assert fed[0].arrives == wire[from..marks[0]] && fed[1..] == Fed(steps[1..], wire, marks[1..], marks[0]);
      assert wire[from..marks[0]] + wire[marks[0]..End(marks, from)] == wire[from..End(marks, from)];
    }
  }

  /** The rounds with a transfer once everything is on the wire. */
  function AfterAll(steps: seq<Step>, marks: seq<nat>, end: nat): nat
    requires |marks| == |steps|
  {
    if steps == [] then 0
    else (if steps[0].event.Transfers? && marks[0] == end then 1 else 0) + AfterAll(steps[1..], marks[1..], end)
  }

  lemma {:induction false} FedMoves(steps: seq<Step>, wire: Bytes, marks: seq<nat>, from: nat, deadline: nat)
    requires |marks| == |steps| && Rising(marks, from, |wire|) && Smooth(steps, deadline)
    ensures var fed := Fed(steps, wire, marks, from);
            Smooth(fed, deadline) && AfterAll(steps, marks, |wire|) <= LateMoves(fed)
    decreases |steps|
  {
    hide Arrivals;
    if steps != [] {
      assert Smooth(steps[1..], deadline);
      FedMoves(steps[1..], wire, marks[1..], marks[0], deadline);
      var fed := Fed(steps, wire, marks, from);
      assert fed[0].event == steps[0].event && fed[1..] == Fed(steps[1..], wire, marks[1..], marks[0]);
      FedArrives(steps[1..], wire, marks[1..], marks[0]);
      assert Stop(fed[0], deadline) == Stop(steps[0], deadline);
    }
  }

  /** The marks an interleaving gives: what is on the wire by each of the receiver's rounds. */
  function Marks(times: seq<nat>, steps: seq<Step>, deadline: nat, size: nat, more: nat): (r: seq<nat>)
    requires Schedule(times, |times|, |steps|)
    ensures |r| == |times|
  {
    if times == [] then []
    else [OnWire(steps, deadline, size, more, times[0])] + Marks(times[1..], steps, deadline, size, more)
  }

  lemma {:induction false} MarksRise(times: seq<nat>, steps: seq<Step>, deadline: nat, size: nat, more: nat, j: nat)
    requires Schedule(times, |times|, |steps|) && j <= |steps| && (times != [] ==> j <= times[0])
    ensures Rising(Marks(times, steps, deadline, size, more), OnWire(steps, deadline, size, more, j),
                   OnWire(steps, deadline, size, more, |steps|))
  {
    hide OnWire;
    if times == [] {
      OnWireWithin(steps, deadline, size, more, j);
    } else {
      OnWireGrows(steps, deadline, size, more, j, times[0]);
      MarksRise(times[1..], steps, deadline, size, more, times[0]);
      var marks := Marks(times, steps, deadline, size, more);
      assert marks[1..] == Marks(times[1..], steps, deadline, size, more);
    }
  }

  /** What is on the wire once `k` bytes of header and frame are out. */
  function WireOf(frame: Bytes, more: Bytes, k: nat): (w: Bytes)
    requires |frame| <= FRAME_MAX_BYTES && k <= 4 + |frame|
    ensures |w| == k + if k == 4 + |frame| then |more| else 0
  {
    (Header(|frame|) + frame)[..k] + if k == 4 + |frame| then more else []
  }

  /** Whatever of it has come in holds the frame whole only if all of it has. */
  lemma OnlyWhole(frame: Bytes, more: Bytes, k: nat, e: nat)
    requires 0 < |frame| <= FRAME_MAX_BYTES && k <= 4 + |frame| && e <= |WireOf(frame, more, k)|
    requires e < 4 + |frame| || e == 4 + |frame| + |more|
    ensures var all := WireOf(frame, more, k)[..e];
            && (4 <= e && 4 + HeaderValue(all[..4]) <= e ==>
                  k == 4 + |frame| && e == 4 + |frame| + |more| && HeaderValue(all[..4]) == |frame|)
            && (e == 4 + |frame| + |more| && k == 4 + |frame| ==>
                  && all == Header(|frame|) + frame + more
                  && all[4..4 + |frame|] == frame && all[4 + |frame|..] == more)
  {
    hide Header, HeaderValue;
    HeaderLength(|frame|);
    HeaderRoundTrip(|frame|);
    var whole, wire := Header(|frame|) + frame, WireOf(frame, more, k);
    if 4 <= e {
      assert 4 <= k;
      assert whole[..k][..4] == Header(|frame|);
      assert wire[..e][..4] == whole[..k][..4];
    }
    if k == 4 + |frame| && e == 4 + |frame| + |more| {
      assert whole[..k] == whole && wire[..e] == whole + more;
    }
  }

  lemma AllOrLess(steps: seq<Step>, deadline: nat, size: nat, more: nat, j: nat)
    requires j <= |steps|
    ensures var n := OnWire(steps, deadline, size, more, j); n < 4 + size || n == 4 + size + more
  {
    hide WriteRun;
  }

  lemma NothingRises(n: nat)
    ensures Rising(seq(n, i => 0), 0, 0)
  {
    if n > 0 {
      NothingRises(n - 1);
      assert seq(n, i => 0)[1..] == seq(n - 1, i => 0);
    }
  }

  /** The last mark of an interleaving. */
  lemma {:induction false} LastMark(times: seq<nat>, steps: seq<Step>, deadline: nat, size: nat, more: nat)
    requires Schedule(times, |times|, |steps|) && times != []
    ensures var marks := Marks(times, steps, deadline, size, more);
            marks[|marks| - 1] == OnWire(steps, deadline, size, more, times[|times| - 1])
  {
    hide OnWire;
    if |times| > 1 { LastMark(times[1..], steps, deadline, size, more); }
  }

  /** What of the sender's stream has come in by the end of the receiver's rounds. */
  lemma WhatComesIn(times: seq<nat>, steps: seq<Step>, deadline: nat, size: nat, more: nat)
    requires Schedule(times, |times|, |steps|)
    ensures var marks := Marks(times, steps, deadline, size, more);
            var total := OnWire(steps, deadline, size, more, |steps|);
            && Rising(marks, 0, total)
            && (End(marks, 0) < 4 + size || End(marks, 0) == 4 + size + more)
  {
    hide OnWire;
    MarksRise(times, steps, deadline, size, more, 0);
    AllOrLess(steps, deadline, size, more, 0);
    RisingFrom(Marks(times, steps, deadline, size, more), OnWire(steps, deadline, size, more, 0),
               OnWire(steps, deadline, size, more, |steps|));
    if times != [] {
      LastMark(times, steps, deadline, size, more);
      AllOrLess(steps, deadline, size, more, times[|times| - 1]);
    }
  }

  /** The receiver's rounds in an interleaving, and what comes in during them. */
  function ClientRounds(rounds: seq<Step>, times: seq<nat>, steps: seq<Step>, deadline: nat, wire: Bytes, size: nat,
                        more: nat): seq<Step>
    requires Schedule(times, |rounds|, |steps|)
    requires wire == [] || |wire| == OnWire(steps, deadline, size, more, |steps|)
  {
    NothingRises(|times|);
    WhatComesIn(times, steps, deadline, size, more);
    Fed(rounds, wire, if wire == [] then seq(|times|, i => 0) else Marks(times, steps, deadline, size, more), 0)
  }

  /** If the header and the whole of the frame it announces come in, then all of it has been
      sent, and everything comes in. */
  lemma ComesWhole(rounds: seq<Step>, times: seq<nat>, steps: seq<Step>, deadline: nat, frame: Bytes, more: Bytes)
    requires Schedule(times, |rounds|, |steps|) && 0 < |frame| <= FRAME_MAX_BYTES
    ensures var run := FrameRun(steps, deadline, |frame|);
            var wire := WireOf(frame, more, run.sent);
            && |wire| == OnWire(steps, deadline, |frame|, |more|, |steps|)
            && (var all := Arrivals(ClientRounds(rounds, times, steps, deadline, wire, |frame|, |more|));
                && (4 <= |all| && 4 + HeaderValue(all[..4]) <= |all| ==>
                      && run.errno == NoError && HeaderValue(all[..4]) == |frame|
                      && all[4..4 + |frame|] == frame && all[4 + |frame|..] == more)
                && (run.errno == NoError &&
                    End(Marks(times, steps, deadline, |frame|, |more|), 0) == 4 + |frame| + |more| ==>
                      all == Header(|frame|) + frame + more))
  {
    hide FrameRun, Marks, Fed, Arrivals, End, HeaderValue, Header, Rising, Schedule;
    var run := FrameRun(steps, deadline, |frame|);
    var wire := WireOf(frame, more, run.sent);
    assert steps[..|steps|] == steps;
    NothingRises(|times|);
    ScheduleLength(times, |rounds|, |steps|);
    WhatComesIn(times, steps, deadline, |frame|, |more|);
    var marks := if wire == [] then seq(|times|, i => 0) else Marks(times, steps, deadline, |frame|, |more|);
    FedArrives(rounds, wire, marks, 0);
    if wire == [] {
      NothingComes(rounds, marks);
    } else {
      OnlyWhole(frame, more, run.sent, End(marks, 0));
      assert wire[0..End(marks, 0)] == wire[..End(marks, 0)];
    }
  }

  lemma ScheduleLength(times: seq<nat>, receiver: nat, sender: nat)
    requires Schedule(times, receiver, sender)
    ensures |times| == receiver
  {
  }

  lemma NothingComes(rounds: seq<Step>, marks: seq<nat>)
    requires |marks| == |rounds| && Rising(marks, 0, 0)
    ensures Arrivals(Fed(rounds, [], marks, 0)) == []
  {
    FedArrives(rounds, [], marks, 0);
  }

  lemma RisingFrom(marks: seq<nat>, from: nat, end: nat)
    requires Rising(marks, from, end)
    ensures Rising(marks, 0, end)
  {
  }

  lemma {:induction false} AllAtEnd(steps: seq<Step>, marks: seq<nat>, end: nat, from: nat)
    requires |marks| == |steps| && 0 < AfterAll(steps, marks, end) && Rising(marks, from, end)
    ensures End(marks, from) == end
    decreases |steps|
  {
    if marks[0] == end { StaysAt(marks[1..], end); }
    else { AllAtEnd(steps[1..], marks[1..], end, marks[0]); }
  }

  lemma {:induction false} StaysAt(marks: seq<nat>, end: nat)
    requires Rising(marks, end, end)
    ensures End(marks, end) == end
  {
    if marks != [] {
      RisingEnds(marks[1..], marks[0], end);
      StaysAt(marks[1..], end);
    }
  }

  /** With the whole frame sent and as many of the receiver's rounds after that, it is read as
      a whole. */
  lemma IsReadWhole(rounds: seq<Step>, clientDeadline: nat, times: seq<nat>, steps: seq<Step>, deadline: nat,
                    frame: Bytes, more: Bytes, clientLimit: nat, alloc: Allocations)
    requires Schedule(times, |rounds|, |steps|) && 0 < |frame| <= FRAME_MAX_BYTES
    requires 0 < clientLimit <= OUTPUT_MAX_BYTES && alloc.core
    requires FrameRun(steps, deadline, |frame|).errno == NoError && Smooth(rounds, clientDeadline)
    requires 4 + |frame| <= AfterAll(rounds, Marks(times, steps, deadline, |frame|, |more|), 4 + |frame| + |more|)
    ensures var wire := WireOf(frame, more, 4 + |frame|);
            && |wire| == OnWire(steps, deadline, |frame|, |more|, |steps|)
            && WireOutcome(ClientRounds(rounds, times, steps, deadline, wire, |frame|, |more|), [], clientDeadline,
                           clientLimit, alloc)
               == Reading(Arrival(frame, NoError), clientLimit, alloc)
  {
    hide FrameRun, Marks, Fed, Arrivals, End, HeaderValue, Header, Rising, Schedule, Smooth, LateMoves, Reading,
      WireOutcome, HeaderRead, SocketReplies, SocketAfter, OnWire, AfterAll;
    ScheduleLength(times, |rounds|, |steps|);
    var marks := Marks(times, steps, deadline, |frame|, |more|);
    ComesWhole(rounds, times, steps, deadline, frame, more);
    WhatComesIn(times, steps, deadline, |frame|, |more|);
    var wire := WireOf(frame, more, 4 + |frame|);
    AllAtEnd(rounds, marks, |wire|, 0);
    FedMoves(rounds, wire, marks, 0, clientDeadline);
    var fed := Fed(rounds, wire, marks, 0);
    assert Stream(fed, []) == Arrivals(fed);
    WholeFrameIsRead(fed, [], clientDeadline, frame, more, clientLimit, alloc);
  }

  lemma SentPart(before: Bytes, frame: Bytes, more: Bytes, k: nat)
    requires |frame| <= FRAME_MAX_BYTES && k <= 4 + |frame|
    ensures (before + (Header(|frame|) + frame)[..k])[|before|..] + (if k == 4 + |frame| then more else [])
         == WireOf(frame, more, k)
  {
    var part := (Header(|frame|) + frame)[..k];
    assert (before + part)[|before|..] == part;
  }

  lemma NoRounds(rounds: seq<Step>, times: seq<nat>, steps: seq<Step>, deadline: nat, size: nat, more: nat)
    requires Schedule(times, |rounds|, |steps|)
    ensures Arrivals(ClientRounds(rounds, times, steps, deadline, [], size, more)) == []
  {
    NothingRises(|times|);
    NothingComes(rounds, seq(|times|, i => 0));
  }

  /** What a sender has put on the wire, and what of it comes in: if that is a whole frame by
      its header, then it is the frame and all of it was sent. */
  lemma OnTheWire(before: Bytes, after: Bytes, ok: bool, fits: bool, frame: Bytes, more: Bytes, steps: seq<Step>,
                  deadline: nat, rounds: seq<Step>, times: seq<nat>)
    requires Schedule(times, |rounds|, |steps|)
    requires !fits ==> !ok && after == before
    requires fits ==>
               var run := FrameRun(steps, deadline, |frame|);
               && 0 < |frame| <= FRAME_MAX_BYTES && ok == (run.errno == NoError)
               && after == before + (Header(|frame|) + frame)[..run.sent]
    ensures |before| <= |after|
    ensures var wire := after[|before|..] + if ok then more else [];
            && (wire == [] || |wire| == OnWire(steps, deadline, |frame|, |more|, |steps|))
            && (ok ==> wire == WireOf(frame, more, 4 + |frame|))
            && (var all := Arrivals(ClientRounds(rounds, times, steps, deadline, wire, |frame|, |more|));
                4 <= |all| && 4 + HeaderValue(all[..4]) <= |all| ==>
                  && ok && HeaderValue(all[..4]) == |frame|
                  && all[4..4 + |frame|] == frame && all[4 + |frame|..] == more)
  {
    hide FrameRun, ClientRounds, Arrivals, Schedule, Header, HeaderValue, OnWire, WireOf;
    if fits {
      ComesWhole(rounds, times, steps, deadline, frame, more);
      SentPart(before, frame, more, FrameRun(steps, deadline, |frame|).sent);
    } else {
      assert after[|before|..] + [] == [];
      NoRounds(rounds, times, steps, deadline, |frame|, |more|);
    }
  }
}
