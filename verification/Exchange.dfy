/** The server's results on the wire and the client's record of them. */
module Exchange {
  import opened Utf8
  import opened Scan
  import opened Tree
  import opened Printer
  import opened JsonCollector
  import opened PeerStatus
  import opened Results
  import opened ResultReader
  import opened BoundedReader
  import opened EndToEnd
  import opened Served
  import opened BoundedSocket
  import opened Interleaving

  /** The results can be printed into a buffer sized for the output limit. */
  predicate Fits(results: Tree, limit: nat) {
    Numbers(results) && |CompactTree(results)| + 2 <= Capacity(limit) && 0 < |CompactTree(results)| <= FRAME_MAX_BYTES
  }

  /** Prints the results into a buffer sized for the output limit and sends them as a frame.
      What was sent when it fails is the front of the frame, or nothing. */
  method SendResults(socket: Socket, results: Tree, limit: nat, alloc: bool) returns (ok: bool)
    requires Clean(results)
    modifies socket`outgoing, socket`incoming, socket`steps
    ensures socket.Coming() == old(socket.Coming())
    ensures !(alloc && Fits(results, limit)) ==> !ok && socket.outgoing == old(socket.outgoing)
    ensures alloc && Fits(results, limit) ==>
              var frame := CompactTree(results);
              var run := FrameRun(old(socket.steps), socket.deadline, |frame|);
              && ok == (run.errno == NoError) && socket.steps == run.steps
              && socket.outgoing == old(socket.outgoing) + (Header(|frame|) + frame)[..run.sent]
  {
    hide CompactTree, TreeText, Clean, Numbers, FrameRun, Header, Arrivals;
    if !alloc { return false; }
    var bytes := new Byte[Capacity(limit)];
    CompactTreeText(results);
    ok := PrintPreallocated(results, bytes, false);
    if !ok { return; }
    TextNoZero(false, results, 0);
    var size := StringLength(bytes, CompactTree(results));
    ok := socket.WriteResults(bytes[..size]);
  }

  // ---- The frame's parts ----

  /** Statistics and output without NUL and with numbers that can be printed. */
  predicate Sendable(base: TKids, o: Output, rest: TKids) {
    && CleanKids(base) && CleanKids(rest) && NumbersKids(base) && NumbersKids(rest)
    && (o.value.Some? ==> 0 !in o.value.value)
  }

  lemma {:induction false} NumbersAppend(a: TKids, b: TKids)
    ensures NumbersKids(Append(a, b)) <==> NumbersKids(a) && NumbersKids(b)
  {
    hide Numbers;
    if a.TCons? { NumbersAppend(a.next, b); }
  }

  lemma SendableResults(base: TKids, o: Output, rest: TKids)
    requires Sendable(base, o, rest)
    ensures Clean(TComp(true, ResultMembers(base, o, rest))) && Numbers(TComp(true, ResultMembers(base, o, rest)))
  {
    hide CleanKids, NumbersKids, Append, StatusKids, Valid;
    StatusIsSmall(o);
    StatusIsProper(o);
    StatusKeysAreAscii();
    OutputKeys();
    var tail := Tail(o, rest);
    Member(STATUS, StatusTree(o), rest);
    var members := if o.value.None? then tail
      else TCons(OutputKey(o), if o.format == JsonFormat then TRaw(o.value.value) else TStr(o.value.value), tail);
    if o.value.Some? { Member(members.key, members.val, tail); }
    CleanAppend(base, members);
    NumbersAppend(base, members);
  }

  lemma Member(key: Bytes, val: Tree, next: TKids)
    requires 0 !in key && Clean(val) && Numbers(val) && CleanKids(next) && NumbersKids(next)
    ensures CleanKids(TCons(key, val, next)) && NumbersKids(TCons(key, val, next))
  {
  }

  lemma FrameIsObject(base: TKids, o: Output, rest: TKids)
    ensures 2 <= |Frame(base, o, rest)|
  {
  }

  lemma FrameIsCompact(base: TKids, o: Output, rest: TKids, limit: nat)
    ensures CompactTree(TComp(true, ResultMembers(base, o, rest))) == Frame(base, o, rest)
    ensures Fits(TComp(true, ResultMembers(base, o, rest)), limit) ==> 0 < |Frame(base, o, rest)| <= FRAME_MAX_BYTES
  {
  }

  // ---- From one socket to the other ----

  /** Enough goes well on both sides for the output's frame: the server's rounds send it, and
      the client has as many rounds once it is out. */
  ghost predicate GoesWell(server: Socket, client: Socket, base: TKids, o: Output, rest: TKids, limit: nat,
                           clientLimit: nat, more: Bytes, times: seq<nat>)
    requires Schedule(times, |client.steps|, |server.steps|)
    reads server`steps, client`steps
  {
    var size := |Frame(base, o, rest)|;
    && Statistics(base, o, rest) && Length(o) <= limit <= OUTPUT_MAX_BYTES && 0 < clientLimit <= OUTPUT_MAX_BYTES
    && Smooth(server.steps, server.deadline) && 4 + size <= Moves(server.steps)
    && Smooth(client.steps, client.deadline)
    && 4 + size <= AfterAll(client.steps, Marks(times, server.steps, server.deadline, size, |more|), 4 + size + |more|)
  }

  /** A frame that fits goes through when enough goes well. */
  lemma SendsWhole(base: TKids, o: Output, rest: TKids, limit: nat, steps: seq<Step>, deadline: nat)
    requires Statistics(base, o, rest) && Sendable(base, o, rest) && Length(o) <= limit <= OUTPUT_MAX_BYTES
    requires Smooth(steps, deadline) && 4 + |Frame(base, o, rest)| <= Moves(steps)
    ensures var frame := Frame(base, o, rest);
            && 0 < |frame| <= FRAME_MAX_BYTES && Fits(TComp(true, ResultMembers(base, o, rest)), limit)
            && FrameRun(steps, deadline, |frame|).errno == NoError
  {
    hide Sendable, Statistics, FrameRun, Capacity, Smooth, Moves, ResultMembers, Length, Numbers, CompactTree;
    FrameFits(base, o, rest, limit);
    FrameIsObject(base, o, rest);
    SendableResults(base, o, rest);
    FrameIsSent(steps, deadline, |Frame(base, o, rest)|);
  }

  /** When enough goes well the frame is sent whole. */
  lemma WellMeans(server: Socket, client: Socket, base: TKids, o: Output, rest: TKids, limit: nat, clientLimit: nat,
                  more: Bytes, times: seq<nat>)
    requires Schedule(times, |client.steps|, |server.steps|) && Sendable(base, o, rest)
    requires GoesWell(server, client, base, o, rest, limit, clientLimit, more, times)
    ensures var frame := Frame(base, o, rest);
            && Fits(TComp(true, ResultMembers(base, o, rest)), limit) && 0 < |frame| <= FRAME_MAX_BYTES
            && FrameRun(server.steps, server.deadline, |frame|).errno == NoError
            && 0 < clientLimit <= OUTPUT_MAX_BYTES && Smooth(client.steps, client.deadline)
            && 4 + |frame| <= AfterAll(client.steps, Marks(times, server.steps, server.deadline, |frame|, |more|),
                                       4 + |frame| + |more|)
  {
    hide Sendable, Statistics, FrameRun, Smooth, Moves, ResultMembers, Length, Fits, Schedule, Marks, AfterAll, Frame;
    SendsWhole(base, o, rest, limit, server.steps, server.deadline);
  }

  lemma NothingYet(socket: Socket)
    requires socket.incoming == []
    ensures socket.Coming() == Arrivals(socket.steps)
  {
  }

  /** Sends the results from one side while the other takes them off the wire and merges the
      status they carry. `more` is what the server sends after them. The rounds of both sides
      interleave in any way: nothing of the client's reaches the server meanwhile, so that
      what counts is how many of the server's rounds come before each of the client's. The
      client has a record only if the whole frame was sent, and then it is that of the frame
      and `more` is still to be read; and it has one when enough goes well and the frame is
      acceptable. */
  method DeliverResults(server: Socket, client: Socket, num: Bytes -> Double, base: TKids, o: Output, rest: TKids,
                        limit: nat, clientLimit: nat, more: Bytes, times: seq<nat>)
    returns (ok: bool, r: Option<Output>)
    requires server != client && client.incoming == [] && Sendable(base, o, rest)
    requires Schedule(times, |client.steps|, |server.steps|)
    modifies server`outgoing, server`incoming, server`steps, client`incoming, client`steps
    ensures r.Some? ==> ok && client.Coming() == more && r.value == ClientRecord(num, Frame(base, o, rest), clientLimit)
    ensures Reading(Arrival(Frame(base, o, rest), NoError), clientLimit, ALL).tree.Some? ==>
              (old(GoesWell(server, client, base, o, rest, limit, clientLimit, more, times)) ==> r.Some?)
  {
    hide Sendable, Statistics, Frame, Reading, Merged, FrameRun, Header, HeaderValue, WireOutcome, HeaderRead, Smooth,
      Moves, Fits, Capacity, CompactTree, ResultMembers, Schedule, Marks, Fed, AfterAll, LateMoves, Arrivals,
      SocketAfter, SocketReplies, Rising, End, GoesWell, OnWire, ClientRounds;
    var frame, before := Frame(base, o, rest), |server.outgoing|;
    var steps, rounds := server.steps, client.steps;
    ghost var well := GoesWell(server, client, base, o, rest, limit, clientLimit, more, times);
    SendableResults(base, o, rest);
    FrameIsCompact(base, o, rest, limit);
    if well {
      WellMeans(server, client, base, o, rest, limit, clientLimit, more, times);
      IsReadWhole(rounds, client.deadline, times, steps, server.deadline, frame, more, clientLimit, ALL);
    }
    ok := SendResults(server, TComp(true, ResultMembers(base, o, rest)), limit, true);
    var wire := server.outgoing[before..] + if ok then more else [];
    ghost var fits := Fits(TComp(true, ResultMembers(base, o, rest)), limit);
    OnTheWire(old(server.outgoing), server.outgoing, ok, fits, frame, more, steps, server.deadline, rounds, times);
    client.steps := ClientRounds(rounds, times, steps, server.deadline, wire, |frame|, |more|);
    NothingYet(client);
    var outcome, bytesRead, used := ReadResults(client, clientLimit, ALL);
    if outcome.tree.None? { return ok, None; }
    var merged := ApplyPeerStatus(num, outcome.output, outcome.tree.value);
    r := Some(merged);
  }

  // ---- The whole way ----

  /** Text: the server prints lines, collects them, sends the results and the client reads
      them. */
  method ServeText(server: Socket, client: Socket, num: Bytes -> Double, lines: seq<Line>, base: TKids, rest: TKids,
                   limit: nat, clientLimit: nat, alloc: bool, more: Bytes, times: seq<nat>)
    returns (o: Output, ok: bool, r: Option<Output>)
    requires server != client && client.incoming == [] && CleanLines(lines) && ReadsIntegers(num)
    requires CleanKids(base) && CleanKids(rest) && NumbersKids(base) && NumbersKids(rest)
    requires Schedule(times, |client.steps|, |server.steps|)
    modifies server`outgoing, server`incoming, server`steps, client`incoming, client`steps
    ensures o == TextRun(limit, Printed(lines), alloc)
    ensures r.Some? && Statistics(base, o, rest) ==>
              ok && client.Coming() == more && r.value == ServedTextRecord(Printed(lines), limit, clientLimit, alloc)
    ensures old(GoesWell(server, client, base, TextRun(limit, Printed(lines), alloc), rest, limit, clientLimit,
                         more, times)) ==>
              r.Some?
  {
    hide Statistics, Frame, ClientRecord, ServedTextRecord, ReadsIntegers, Valid, GoesWell, Reading, TextRun, CleanKids,
      NumbersKids, Printed, CleanLines;
    o := CollectText(limit, lines, alloc);
    TextIsSendable(limit, Printed(lines), alloc);
    if Statistics(base, o, rest) {
      TextServed(num, lines, limit, alloc, clientLimit, base, rest);
      FrameIsAccepted(base, o, rest, clientLimit);
    }
    GoesWellMeans(server, client, base, o, rest, limit, clientLimit, more, times);
    ok, r := DeliverResults(server, client, num, base, o, rest, limit, clientLimit, more, times);
  }

  lemma TextIsSendable(limit: nat, text: Bytes, alloc: bool)
    requires Valid(text) && 0 !in text
    ensures var o := TextRun(limit, text, alloc); Collected(o) && (o.value.Some? ==> 0 !in o.value.value)
  {
    hide Lsp, Valid;
    LspIsLongest(text, limit);
    PrefixNoZero(text, Lsp(text, limit));
  }

  lemma GoesWellMeans(server: Socket, client: Socket, base: TKids, o: Output, rest: TKids, limit: nat, clientLimit: nat,
                      more: Bytes, times: seq<nat>)
    requires Schedule(times, |client.steps|, |server.steps|)
    ensures GoesWell(server, client, base, o, rest, limit, clientLimit, more, times) ==> Statistics(base, o, rest)
  {
    hide Statistics, Frame;
  }

  /** JSON: the server collects intervals, makes its document of them, sends the results and
      the client reads them. */
  method ServeJson(server: Socket, client: Socket, num: Bytes -> Double, intervals: seq<Tree>, before: TKids,
                   after: TKids, m: Means, base: TKids, rest: TKids, limit: nat, clientLimit: nat, more: Bytes,
                   times: seq<nat>)
    returns (o: Output, ok: bool, r: Option<Output>)
    requires server != client && client.incoming == [] && Built(before, after, intervals) && ReadsIntegers(num)
    requires limit <= OUTPUT_MAX_BYTES
    requires CleanKids(base) && CleanKids(rest) && NumbersKids(base) && NumbersKids(rest)
    requires Schedule(times, |client.steps|, |server.steps|)
    modifies server`outgoing, server`incoming, server`steps, client`incoming, client`steps
    ensures o == JsonRun(limit, intervals, before, after, m)
    ensures r.Some? && Statistics(base, o, rest) ==>
              && ok && client.Coming() == more
              && r.value == if m.All() && Whole(before, after, intervals, limit)
                            then JsonRecord(Document(before, after, intervals), clientLimit)
                            else Gone(RunReason(limit, intervals, before, after, m))
    ensures old(GoesWell(server, client, base, o, rest, limit, clientLimit, more, times)) ==> r.Some?
  {
    hide Statistics, Frame, ClientRecord, JsonRecord, ReadsIntegers, Valid, GoesWell, Reading, CleanKids, NumbersKids,
      Whole, Document, Built, Finalisable, CompactTree;
    o := CollectJson(limit, intervals, before, after, m);
    ghost var doc := Document(before, after, intervals);
    if o.state == Complete { DocumentIsSendable(doc); }
    if Statistics(base, o, rest) {
      JsonServed(num, limit, intervals, before, after, m, clientLimit, base, rest);
      if o.state == Complete { DocumentFrameIsAccepted(base, doc, rest, clientLimit); }
      else { FrameIsAccepted(base, o, rest, clientLimit); }
    }
    GoesWellMeans(server, client, base, o, rest, limit, clientLimit, more, times);
    ok, r := DeliverResults(server, client, num, base, o, rest, limit, clientLimit, more, times);
  }

  lemma DocumentIsSendable(doc: Tree)
    requires Finalisable(doc)
    ensures 0 !in CompactTree(doc)
  {
    hide CompactTree, TreeText, Valid, Numbers;
    CompactTreeText(doc);
    TextNoZero(false, doc, 0);
  }
}
