/** Whole runs of the server's collectors, and what the client ends with after each. */
module Served {
  import opened Utf8
  import opened Grammar
  import opened Scan
  import opened Tree
  import opened Printer
  import opened RoundTrip
  import opened Collector
  import opened JsonCollector
  import opened PeerStatus
  import opened Results
  import opened EndToEnd

  // ---- Text ----

  /** One printed line with its optional prefix. */
  datatype Line = Line(prefix: Option<Bytes>, text: Bytes)

  function LineText(line: Line): Bytes {
    (if line.prefix.Some? then line.prefix.value else []) + line.text
  }

  function Printed(lines: seq<Line>): Bytes {
    if lines == [] then [] else Printed(lines[..|lines| - 1]) + LineText(lines[|lines| - 1])
  }

  predicate CleanLine(line: Line) {
    && Valid(line.text) && 0 !in line.text
    && (line.prefix.Some? ==> Valid(line.prefix.value) && 0 !in line.prefix.value)
  }

  predicate CleanLines(lines: seq<Line>) {
    forall i :: 0 <= i < |lines| ==> CleanLine(lines[i])
  }

  /** The record of a run, with or without memory for it. */
  function TextRun(limit: nat, text: Bytes, alloc: bool): Output {
    if alloc then TextOf(limit, text) else GivenUp(text)
  }

  /** Collects any lines, however the text is divided among them. */
  method CollectText(limit: nat, lines: seq<Line>, alloc: bool) returns (o: Output)
    requires CleanLines(lines)
    ensures o == TextRun(limit, Printed(lines), alloc)
    ensures Valid(Printed(lines)) && 0 !in Printed(lines)
  {
    hide Valid, TextOf, GivenUp, LineText, TextCollector.Valid;
    var c := new TextCollector(limit);
    var i := 0;
    while i < |lines|
      invariant i <= |lines| && c.Valid() && fresh(c) && c.limit == limit && !c.finalized && c.clean
      invariant c.text == Printed(lines[..i])
      invariant c.granted == (alloc || c.output.state == Missing)
    {
      assert CleanLine(lines[i]);
      assert lines[..i + 1][..i] == lines[..i];
      ghost var before := c.text;
      c.CollectPrintf(lines[i].prefix, Some(lines[i].text), true, alloc);
      OneMoreLine(before, lines[i]);
      i := i + 1;
    }
    assert lines[..i] == lines;
    CollectedIsClean(c);
    o := c.Finish(alloc);
  }

  lemma OneMoreLine(before: Bytes, line: Line)
    ensures before + (if line.prefix.Some? then line.prefix.value else []) + line.text == before + LineText(line)
  {
  }

  lemma CollectedIsClean(c: TextCollector)
    requires c.Valid() && c.clean
    ensures Valid(c.text) && 0 !in c.text
  {
  }

  /** The client's record of a run. */
  function ServedTextRecord(text: Bytes, server: nat, client: nat, alloc: bool): Output {
    if alloc then TextRecord(text, server, client)
    else
      var known := |text| <= SAFE_INTEGER;
      Output(None, if known then |text| else 0, Discarded, TextFormat, AllocationFailure, known)
  }

  /** Text, from the lines the server prints to the record the client ends with. Whatever the
      lines, the client has the longest prefix of all that was printed, in whole scalars,
      that both limits allow; or, when the server had no memory for it, nothing and the
      reason. */
  lemma TextServed(num: Bytes -> Double, lines: seq<Line>, server: nat, alloc: bool, client: nat, base: TKids,
                   rest: TKids)
    requires CleanLines(lines) && ReadsIntegers(num)
    requires Statistics(base, TextRun(server, Printed(lines), alloc), rest)
    ensures ClientRecord(num, Frame(base, TextRun(server, Printed(lines), alloc), rest), client)
         == ServedTextRecord(Printed(lines), server, client, alloc)
  {
    hide Statistics, Frame, ClientRecord, TextRecord, ReadsIntegers, Valid, TextOf;
    PrintedIsClean(lines);
    if alloc {
      TextEndToEnd(num, Printed(lines), server, client, base, rest);
    } else {
      DiscardedEndToEnd(num, GivenUp(Printed(lines)), client, base, rest);
    }
  }

  lemma {:induction false} PrintedIsClean(lines: seq<Line>)
    requires CleanLines(lines)
    ensures Valid(Printed(lines)) && 0 !in Printed(lines)
  {
    hide Valid;
    if lines == [] {
      NothingIsValid();
    } else {
      var last := lines[|lines| - 1];
      PrintedIsClean(lines[..|lines| - 1]);
      NothingIsValid();
      assert CleanLine(last);
      var prefix := if last.prefix.Some? then last.prefix.value else [];
      CleanMore(prefix, last.text);
      CleanMore(Printed(lines[..|lines| - 1]), LineText(last));
    }
  }

  lemma NothingIsValid()
    ensures Valid([])
  {
  }

  // ---- JSON ----

  /** Intervals and the other members of a document as the server builds them: strings
      without NUL, numbers that are tokens, nothing raw. */
  predicate Built(before: TKids, after: TKids, intervals: seq<Tree>) {
    && CleanKids(before) && CleanKids(after) && ProperKids(true, before) && ProperKids(true, after)
    && CleanKids(Elements(intervals)) && ProperKids(false, Elements(intervals))
  }

  lemma {:induction false} ElementIsBuilt(intervals: seq<Tree>, i: nat)
    requires CleanKids(Elements(intervals)) && ProperKids(false, Elements(intervals)) && i < |intervals|
    ensures Clean(intervals[i]) && Proper(intervals[i])
    ensures NumbersKids(Elements(intervals)) ==> Numbers(intervals[i])
  {
    hide Clean, Proper, Numbers;
    if i > 0 {
      assert intervals[1..][i - 1] == intervals[i];
      ElementIsBuilt(intervals[1..], i - 1);
    }
  }

  /** More intervals only take more. */
  lemma {:induction false} JoinedGrows(intervals: seq<Tree>, i: nat)
    requires i <= |intervals|
    ensures |Joined(intervals[..i])| <= |Joined(intervals)|
    ensures NodesOf(intervals[..i]) <= NodesOf(intervals)
    ensures HeightOf(intervals[..i]) <= HeightOf(intervals)
  {
    hide Joined, NodesOf, HeightOf, CompactTree, Nodes, Height;
    var n := |intervals|;
    if i == n {
      assert intervals[..i] == intervals;
    } else {
      var front := intervals[..n - 1];
      JoinedGrows(front, i);
      assert front[..i] == intervals[..i];
      JoinedMore(front, intervals[n - 1]);
      assert front + [intervals[n - 1]] == intervals;
    }
  }

  lemma {:induction false} LastIsIn(kids: TKids, key: Bytes, v: Tree)
    ensures |CompactTree(v)| <= |KidsText(true, SyntaxKids(true, Append(kids, Single(key, v))))|
  {
    hide EscapeAll, Text;
    if kids.TCons? {
      LastIsIn(kids.next, key, v);
    }
  }

  lemma HistoryWithin(before: TKids, after: TKids, intervals: seq<Tree>)
    ensures |Joined(intervals)| + 4 <= |CompactTree(Document(before, after, intervals))|
  {
    hide Joined, Append, KidsText;
    RawDocument(before, after, intervals);
    LastIsIn(Append(before, after), INTERVALS, TRaw([91] + Joined(intervals) + [93]));
  }

  /** What the server finalises is what the client can take. */
  lemma WholeIsFinalisable(before: TKids, after: TKids, intervals: seq<Tree>, limit: nat)
    requires Built(before, after, intervals) && Whole(before, after, intervals, limit) && limit <= OUTPUT_MAX_BYTES
    ensures Finalisable(Document(before, after, intervals))
  {
    hide CompactTree, Nodes, Height, Append, Elements, Valid, Syntax;
    CleanAppend(before, after);
    LastMeasures(Append(before, after), INTERVALS, TComp(false, Elements(intervals)));
  }

  /** Which of the server's allocations succeed, and whether it has a document at all. */
  datatype Means = Means(alloc: bool, scratch: bool, raw: bool, present: bool) {
    predicate All() { alloc && scratch && raw && present }
  }

  lemma BuiltMeans(before: TKids, after: TKids, intervals: seq<Tree>)
    requires Built(before, after, intervals)
    ensures CleanKids(before) && CleanKids(after)
    ensures CleanKids(Elements(intervals)) && ProperKids(false, Elements(intervals))
  {
  }

  /** Why the first interval that is not kept is not. */
  function KeepReason(limit: nat, intervals: seq<Tree>, m: Means): Reason {
    if intervals == [] then NoReason
    else
      var front, last := intervals[..|intervals| - 1], intervals[|intervals| - 1];
      var r := KeepReason(limit, front, m);
      if r != NoReason then r
      else if !m.alloc then AllocationFailure
      else IntervalReason(front, last, limit, m.scratch)
  }

  /** Why a run leaves no document. */
  function RunReason(limit: nat, intervals: seq<Tree>, before: TKids, after: TKids, m: Means): Reason {
    var kept := KeepReason(limit, intervals, m);
    if kept != NoReason then kept
    else if !m.alloc then AllocationFailure
    else FinalReason(before, after, intervals, limit, m.present, m.scratch, m.raw)
  }

  /** The record of a run: the document, or nothing and the reason. */
  function JsonRun(limit: nat, intervals: seq<Tree>, before: TKids, after: TKids, m: Means): Output {
    var why := RunReason(limit, intervals, before, after, m);
    if why == NoReason then JsonOf(Document(before, after, intervals)) else Gone(why)
  }

  /** Intervals that were all kept are within every limit. */
  predicate InBounds(intervals: seq<Tree>) {
    && NodesOf(intervals) <= CORE_MAX_VALUES && 2 + HeightOf(intervals) <= MAX_DEPTH
    && 0 !in Joined(intervals) && Recorded(intervals)
  }

  lemma {:induction false} KeptIsInBounds(limit: nat, intervals: seq<Tree>, m: Means)
    requires CleanKids(Elements(intervals)) && ProperKids(false, Elements(intervals))
    requires KeepReason(limit, intervals, m) == NoReason
    ensures InBounds(intervals) && (intervals != [] ==> m.alloc && m.scratch)
  {
    hide Joined, NodesOf, HeightOf, Recorded, Height, Nodes, CompactTree, IntervalReason, Elements, Clean, Proper;
    EmptyHistory();
    if intervals != [] {
      var front, last := intervals[..|intervals| - 1], intervals[|intervals| - 1];
      assert front + [last] == intervals;
      FrontIsBuilt(intervals);
      KeptIsInBounds(limit, front, m);
      IntervalReasonIs(front, last, limit, m.scratch);
      JoinedMore(front, last);
      RecordedMore(front, last);
      ElementIsBuilt(intervals, |intervals| - 1);
      NoZeroJoined(front, last);
    }
  }

  lemma NoZeroJoined(front: seq<Tree>, last: Tree)
    requires 0 !in Joined(front) && Clean(last)
    ensures 0 !in Joined(front) + (if front == [] then [] else [COMMA]) + CompactTree(last)
  {
    hide Joined, CompactTree, Clean, TreeText;
    CompactTreeText(last);
    TextNoZero(false, last, 0);
    var comma := if front == [] then [] else [COMMA];
    NoZero(Joined(front), comma);
    NoZero(Joined(front) + comma, CompactTree(last));
  }

  lemma {:induction false} FrontIsBuilt(intervals: seq<Tree>)
    requires intervals != [] && CleanKids(Elements(intervals)) && ProperKids(false, Elements(intervals))
    ensures var front := intervals[..|intervals| - 1];
            CleanKids(Elements(front)) && ProperKids(false, Elements(front))
  {
    hide Clean, Proper;
    if |intervals| > 1 {
      FrontIsBuilt(intervals[1..]);
      assert intervals[..|intervals| - 1][1..] == intervals[1..][..|intervals| - 2];
    }
  }

  /** How the document of all intervals compares with each in its place. */
  lemma PlaceInDocument(before: TKids, after: TKids, intervals: seq<Tree>, k: nat)
    requires k < |intervals| && CleanKids(Elements(intervals)) && ProperKids(false, Elements(intervals))
    ensures var doc, front, t := Document(before, after, intervals), intervals[..k], intervals[k];
            && 2 + Height(Syntax(t)) <= Height(Syntax(doc))
            && NodesOf(front) + Nodes(Syntax(t)) <= Nodes(Syntax(doc))
            && |Joined(front)| + (if front == [] then 0 else 1) + |CompactTree(t)| + 2 <= |CompactTree(doc)|
            && (Numbers(doc) ==> Numbers(t))
  {
    hide Joined, NodesOf, HeightOf, CompactTree, Nodes, Height, Append, Elements, KidsText;
    assert intervals[..k] + [intervals[k]] == intervals[..k + 1];
    JoinedGrows(intervals, k + 1);
    JoinedMore(intervals[..k], intervals[k]);
    RawDocument(before, after, intervals);
    HistoryWithin(before, after, intervals);
    LastMeasures(Append(before, after), INTERVALS, TComp(false, Elements(intervals)));
    ElementIsBuilt(intervals, k);
  }

  /** A document that stands every check as a whole has room for each interval in turn. */
  lemma WholeHasRoom(before: TKids, after: TKids, intervals: seq<Tree>, limit: nat, i: nat)
    requires Built(before, after, intervals) && Whole(before, after, intervals, limit) && i < |intervals|
    ensures Room(intervals[..i], intervals[i], limit)
  {
    hide Joined, NodesOf, CompactTree, Nodes, Height, Document, Elements;
    PlaceInDocument(before, after, intervals, i);
  }

  /** An interval is refused only for a limit that the document of all of them exceeds. */
  lemma {:induction false} KeepReasonIs(limit: nat, intervals: seq<Tree>, before: TKids, after: TKids, m: Means, k: nat)
    requires Built(before, after, intervals) && m.alloc && m.scratch && k <= |intervals|
    ensures var r, doc := KeepReason(limit, intervals[..k], m), Document(before, after, intervals);
            && r in {NoReason, DepthLimit, NodeLimit, ByteLimit}
            && (r == DepthLimit ==> Height(Syntax(doc)) > MAX_DEPTH)
            && (r == NodeLimit ==> Nodes(Syntax(doc)) > CORE_MAX_VALUES)
            && (r == ByteLimit ==> !Numbers(doc) || |CompactTree(doc)| > limit)
  {
    hide Document, CompactTree, Height, Nodes, Joined, NodesOf, ShapeReason, Built, Elements;
    BuiltMeans(before, after, intervals);
    if k > 0 {
      var front := intervals[..k - 1];
      assert intervals[..k][..k - 1] == front;
      KeepReasonIs(limit, intervals, before, after, m, k - 1);
      PlaceInDocument(before, after, intervals, k - 1);
      if KeepReason(limit, front, m) == NoReason {
        PrefixIsBuilt(intervals, k - 1);
        KeptIsInBounds(limit, front, m);
        ReasonIsLimit(intervals[k - 1], 3, NodesOf(front));
      }
    }
  }

  lemma {:induction false} PrefixIsBuilt(intervals: seq<Tree>, k: nat)
    requires k <= |intervals| && CleanKids(Elements(intervals)) && ProperKids(false, Elements(intervals))
    ensures CleanKids(Elements(intervals[..k])) && ProperKids(false, Elements(intervals[..k]))
  {
    hide Elements;
    if k == |intervals| {
      assert intervals[..k] == intervals;
    } else {
      FrontIsBuilt(intervals);
      PrefixIsBuilt(intervals[..|intervals| - 1], k);
      assert intervals[..|intervals| - 1][..k] == intervals[..k];
    }
  }

  /** Why a run is given up when nothing is missing: always for a limit its document exceeds,
      or because the text that fits is not UTF-8; and it is not exactly when the document
      stands every check. */
  lemma RunReasonIs(limit: nat, intervals: seq<Tree>, before: TKids, after: TKids, m: Means)
    requires Built(before, after, intervals) && m.All()
    ensures var r, doc := RunReason(limit, intervals, before, after, m), Document(before, after, intervals);
            var deep, many := Height(Syntax(doc)) > MAX_DEPTH, Nodes(Syntax(doc)) > CORE_MAX_VALUES;
            var long := !Numbers(doc) || |CompactTree(doc)| > limit;
            && r in {NoReason, DepthLimit, NodeLimit, ByteLimit, InvalidData}
            && (r == DepthLimit ==> deep) && (r == NodeLimit ==> many) && (r == ByteLimit ==> long)
            && (r == InvalidData ==> !deep && !many && !long && !Valid(CompactTree(doc)))
            && (r == NoReason <==> Whole(before, after, intervals, limit))
  {
    hide Document, CompactTree, Height, Nodes, Joined, NodesOf, HeightOf, ShapeReason, Valid, Elements, RawTop,
      Recorded;
    BuiltMeans(before, after, intervals);
    KeepReasonIs(limit, intervals, before, after, m, |intervals|);
    assert intervals[..|intervals|] == intervals;
    var kept := KeepReason(limit, intervals, m);
    if kept == NoReason {
      KeptIsInBounds(limit, intervals, m);
      FinalReasonIs(limit, intervals, before, after, m);
    }
  }

  lemma FinalReasonIs(limit: nat, intervals: seq<Tree>, before: TKids, after: TKids, m: Means)
    requires CleanKids(before) && CleanKids(after) && InBounds(intervals) && m.All()
    ensures var r := FinalReason(before, after, intervals, limit, m.present, m.scratch, m.raw);
            var doc := Document(before, after, intervals);
            var deep, many := Height(Syntax(doc)) > MAX_DEPTH, Nodes(Syntax(doc)) > CORE_MAX_VALUES;
            var long := !Numbers(doc) || |CompactTree(doc)| > limit;
            && r in {NoReason, DepthLimit, NodeLimit, ByteLimit, InvalidData}
            && (r == DepthLimit ==> deep) && (r == NodeLimit ==> many) && (r == ByteLimit ==> long)
            && (r == InvalidData ==> !deep && !many && !long && !Valid(CompactTree(doc)))
            && (r == NoReason <==> Whole(before, after, intervals, limit))
  {
    hide CompactTree, Height, Nodes, Joined, NodesOf, HeightOf, ShapeReason, Valid, Elements, Recorded, Append;
    var top := RawTop(before, after, Joined(intervals));
    RawIsWhole(before, after, intervals, limit);
    RawDocument(before, after, intervals);
    LastMeasures(Append(before, after), INTERVALS, TRaw([91] + Joined(intervals) + [93]));
    LastMeasures(Append(before, after), INTERVALS, TComp(false, Elements(intervals)));
    NumbersOfHistory(intervals);
    BracesTake2(before, after, intervals);
    TextReasonIs(top, NodesOf(intervals), limit);
    ReasonIsLimit(top, 1, NodesOf(intervals));
  }

  lemma NumbersOfHistory(intervals: seq<Tree>)
    requires Recorded(intervals)
    ensures NumbersKids(Elements(intervals))
  {
  }

  /** Why a run is given up when something is missing: memory, in the order in which it is
      asked for and after the shape of the interval at hand, or the document itself. */
  lemma MissingMeans(limit: nat, intervals: seq<Tree>, before: TKids, after: TKids, m: Means)
    requires CleanKids(Elements(intervals)) && ProperKids(false, Elements(intervals))
    ensures var r := RunReason(limit, intervals, before, after, m);
            && (!m.alloc ==> r == AllocationFailure)
            && (m.alloc && !m.scratch ==>
                  if intervals == [] || ShapeReason(intervals[0], 3, 0) == NoReason then r == AllocationFailure
                  else r == ShapeReason(intervals[0], 3, 0))
            && (m.alloc && m.scratch && KeepReason(limit, intervals, m) == NoReason ==>
                  && (!m.present ==> r == InvalidData)
                  && (m.present && 2 <= limit && !m.raw ==> r == AllocationFailure))
  {
    hide ShapeReason;
    if intervals != [] && (!m.alloc || !m.scratch) { FirstStops(limit, intervals, m); }
  }

  lemma {:induction false} FirstStops(limit: nat, intervals: seq<Tree>, m: Means)
    requires intervals != [] && (!m.alloc || !m.scratch)
    ensures var shape := ShapeReason(intervals[0], 3, 0);
            KeepReason(limit, intervals, m)
            == if m.alloc && shape != NoReason then shape else AllocationFailure
  {
    hide ShapeReason;
    EmptyHistory();
    if |intervals| > 1 {
      FirstStops(limit, intervals[..|intervals| - 1], m);
    } else {
      assert intervals[..0] == [];
    }
  }

  lemma NoneKept(limit: nat, m: Means)
    ensures KeepReason(limit, [], m) == NoReason
  {
  }

  lemma KeepNext(limit: nat, intervals: seq<Tree>, m: Means, i: nat)
    requires i < |intervals|
    ensures intervals[..i + 1] == intervals[..i] + [intervals[i]]
    ensures var r := KeepReason(limit, intervals[..i], m);
            KeepReason(limit, intervals[..i + 1], m)
            == if r != NoReason then r else if !m.alloc then AllocationFailure
               else IntervalReason(intervals[..i], intervals[i], limit, m.scratch)
  {
    assert intervals[..i + 1][..i] == intervals[..i];
  }

  /** Collects any intervals, one by one, and finalises the document. The result is the whole
      document, exactly when that stands every check as a whole, or nothing and the reason. */
  method CollectJson(limit: nat, intervals: seq<Tree>, before: TKids, after: TKids, m: Means) returns (o: Output)
    requires Built(before, after, intervals) && limit <= OUTPUT_MAX_BYTES
    ensures o == JsonRun(limit, intervals, before, after, m)
    ensures o.state == Complete <==> m.All() && Whole(before, after, intervals, limit)
    ensures o.state == Complete ==> Finalisable(Document(before, after, intervals))
    ensures o.state in {Complete, Discarded, Invalid} && (o.state == Invalid <==> o.reason == InvalidData)
    ensures o.state != Complete ==> o.value == None && !o.observedComplete && o.reason != NoReason
  {
    hide Whole, Room, Built, Document, Finalisable, CompactTree, IntervalReason, FinalReason, KeepReason, Clean, Proper,
      Elements, CleanKids, ProperKids;
    NoneKept(limit, m);
    BuiltMeans(before, after, intervals);
    var c := new IntervalCollector(limit);
    var i := 0;
    while i < |intervals|
      invariant i <= |intervals| && c.Valid() && fresh(c) && c.limit == limit && !c.finalized
      invariant c.output.state in {Missing, Complete} ==> c.history == intervals[..i]
      invariant c.output.state == Missing ==> i == 0
      invariant c.output.state == Complete ==> m.alloc
      invariant if c.output.state in {Missing, Complete} then KeepReason(limit, intervals[..i], m) == NoReason
                else KeepReason(limit, intervals[..i], m) == c.output.reason
    {
      ElementIsBuilt(intervals, i);
      KeepNext(limit, intervals, m, i);
      c.CollectInterval(intervals[i], m.alloc, m.scratch);
      i := i + 1;
    }
    assert intervals[..i] == intervals;
    o := c.Finish(before, after, m.present, m.alloc, m.scratch, m.raw);
    RunIsWhole(limit, intervals, before, after, m);
    if o.state == Complete { WholeIsFinalisable(before, after, intervals, limit); }
  }

  /** There is a document exactly when nothing is missing and it stands every check. */
  lemma RunIsWhole(limit: nat, intervals: seq<Tree>, before: TKids, after: TKids, m: Means)
    requires Built(before, after, intervals)
    ensures RunReason(limit, intervals, before, after, m) == NoReason <==>
              m.All() && Whole(before, after, intervals, limit)
  {
    hide RunReason, Whole, Built;
    BuiltMeans(before, after, intervals);
    NothingMissing(limit, intervals, before, after, m);
    if m.All() { RunReasonIs(limit, intervals, before, after, m); }
  }

  lemma NothingMissing(limit: nat, intervals: seq<Tree>, before: TKids, after: TKids, m: Means)
    ensures RunReason(limit, intervals, before, after, m) == NoReason ==> m.All()
  {
    hide TextReason, KeepReason;
  }

  /** JSON, from the intervals the server collects to the record the client ends with. A
      document that stands every check arrives whole at a client whose limit it fits; in
      every other case the client has no byte of it, and the server's reason. */
  lemma JsonServed(num: Bytes -> Double, limit: nat, intervals: seq<Tree>, before: TKids, after: TKids, m: Means,
                   client: nat, base: TKids, rest: TKids)
    requires Built(before, after, intervals) && limit <= OUTPUT_MAX_BYTES && ReadsIntegers(num)
    requires Statistics(base, JsonRun(limit, intervals, before, after, m), rest)
    ensures ClientRecord(num, Frame(base, JsonRun(limit, intervals, before, after, m), rest), client)
         == if m.All() && Whole(before, after, intervals, limit)
            then JsonRecord(Document(before, after, intervals), client)
            else Gone(RunReason(limit, intervals, before, after, m))
  {
    hide Statistics, Frame, ClientRecord, JsonRecord, ReadsIntegers, Whole, Document, Finalisable, Built, RunReason;
    RunIsWhole(limit, intervals, before, after, m);
    if m.All() && Whole(before, after, intervals, limit) {
      WholeIsFinalisable(before, after, intervals, limit);
      JsonEndToEnd(num, Document(before, after, intervals), client, base, rest);
    } else {
      DiscardedEndToEnd(num, JsonRun(limit, intervals, before, after, m), client, base, rest);
    }
  }
}
