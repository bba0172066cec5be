/** The server's JSON output: intervals kept as text one after another, and the document
    made of them at the end, without the full history ever being a tree. */
module JsonCollector {
  import opened Order
  import opened Utf8
  import opened Grammar
  import opened Scan
  import opened Tree
  import opened Render
  import opened Printer
  import opened RoundTrip
  import opened Collector

  const INTERVALS: Bytes := [105, 110, 116, 101, 114, 118, 97, 108, 115]

  // ---- The history as a tree ----

  function Elements(history: seq<Tree>): TKids {
    if history == [] then TNil else TCons([], history[0], Elements(history[1..]))
  }

  /** The intervals' texts, joined by commas. */
  function Joined(history: seq<Tree>): Bytes {
    KidsText(false, SyntaxKids(false, Elements(history)))
  }

  function NodesOf(history: seq<Tree>): nat {
    KidsNodes(SyntaxKids(false, Elements(history)))
  }

  function HeightOf(history: seq<Tree>): nat {
    KidsHeight(SyntaxKids(false, Elements(history)))
  }

  function CompactTree(t: Tree): Bytes {
    Text(Syntax(t))
  }

  lemma CompactTreeText(t: Tree)
    ensures TreeText(false, t, 0) == CompactTree(t)
  {
    CompactText(Syntax(t), 0);
  }

  /** One more interval: its text after a comma, its nodes added. */
  lemma {:induction false} JoinedMore(history: seq<Tree>, t: Tree)
    ensures Joined(history + [t]) == Joined(history) + (if history == [] then [] else [COMMA]) + CompactTree(t)
    ensures NodesOf(history + [t]) == NodesOf(history) + Nodes(Syntax(t))
    ensures HeightOf(history + [t]) == Max(HeightOf(history), Height(Syntax(t)))
  {
    hide Joined, NodesOf, HeightOf, CompactTree, Nodes, Height;
    var all := history + [t];
    var text := CompactTree(t);
    JoinedFront(all);
    EmptyHistory();
    if history == [] {
      assert all[1..] == [] && all[0] == t;
      assert text + [] == [] + [] + text;
    } else {
      var rest := history[1..];
      assert all[1..] == rest + [t] && all[0] == history[0];
      JoinedMore(rest, t);
      JoinedFront(history);
      var first := CompactTree(history[0]);
      if rest == [] {
        assert first + ([COMMA] + ([] + [] + text)) == first + [] + [COMMA] + text;
      } else {
        assert first + ([COMMA] + (Joined(rest) + [COMMA] + text)) == first + ([COMMA] + Joined(rest)) + [COMMA] + text;
      }
    }
  }

  lemma JoinedFront(history: seq<Tree>)
    requires history != []
    ensures Joined(history)
         == CompactTree(history[0]) + if |history| == 1 then [] else [COMMA] + Joined(history[1..])
    ensures NodesOf(history) == Nodes(Syntax(history[0])) + NodesOf(history[1..])
    ensures HeightOf(history) == Max(Height(Syntax(history[0])), HeightOf(history[1..]))
  {
    hide Text, Nodes, Height;
    var first := CompactTree(history[0]);
    var more := MoreText(false, SyntaxKids(false, Elements(history[1..])));
    assert [] + first + more == first + more;
  }

  // ---- Counting nodes ----

  /** Values `n` and levels `h` more are within the limits. */
  predicate InShape(depth: nat, h: nat, nodes: nat, n: nat) {
    depth + h <= MAX_DEPTH && nodes + n <= CORE_MAX_VALUES
  }

  /** The values before the first one, in the order of the text, that is too deep; all of
      them if none is. */
  function Shallow(value: Tree, depth: nat): (s: nat)
    decreases value, 1
  {
    if depth > MAX_DEPTH then 0
    else if value.TComp? then 1 + ShallowKids(value.obj, value.kids, depth + 1)
    else 1
  }

  function ShallowKids(obj: bool, kids: TKids, depth: nat): (s: nat)
    decreases kids, 0
  {
    match kids
    case TNil => 0
    case TCons(_, val, next) =>
      var s := Shallow(val, depth);
      if s < Nodes(Syntax(val)) then s else s + ShallowKids(obj, next, depth)
  }

  /** The limit that is met first among `n` values of which `s` come before one too deep. */
  function LimitMet(s: nat, n: nat, nodes: nat): Reason {
    if s < n && nodes + s <= CORE_MAX_VALUES then DepthLimit
    else if nodes + n > CORE_MAX_VALUES then NodeLimit
    else NoReason
  }

  /** Why a value that starts `depth` levels down, after `nodes` others, is refused. */
  function ShapeReason(value: Tree, depth: nat, nodes: nat): Reason {
    LimitMet(Shallow(value, depth), Nodes(Syntax(value)), nodes)
  }

  function KidsReason(obj: bool, kids: TKids, depth: nat, nodes: nat): Reason {
    LimitMet(ShallowKids(obj, kids, depth), KidsNodes(SyntaxKids(obj, kids)), nodes)
  }

  /** Values are all shallow exactly when the tree is. */
  lemma {:induction false} ShallowIsHeight(value: Tree, depth: nat)
    requires 1 <= depth
    ensures Shallow(value, depth) <= Nodes(Syntax(value))
    ensures Shallow(value, depth) == Nodes(Syntax(value)) <==> depth - 1 + Height(Syntax(value)) <= MAX_DEPTH
    decreases value, 1
  {
    ValueShape(value);
    hide Nodes, Height, KidsNodes, KidsHeight, Syntax, SyntaxKids;
    if value.TComp? && depth <= MAX_DEPTH { ShallowKidsIsHeight(value.obj, value.kids, depth + 1); }
  }

  lemma {:induction false} ShallowKidsIsHeight(obj: bool, kids: TKids, depth: nat)
    requires 1 <= depth <= MAX_DEPTH + 1
    ensures ShallowKids(obj, kids, depth) <= KidsNodes(SyntaxKids(obj, kids))
    ensures ShallowKids(obj, kids, depth) == KidsNodes(SyntaxKids(obj, kids)) <==>
              depth - 1 + KidsHeight(SyntaxKids(obj, kids)) <= MAX_DEPTH
    decreases kids, 0
  {
    if kids.TCons? {
      ChildShape(obj, kids);
      ValueShape(kids.val);
      ShallowIsHeight(kids.val, depth);
      ShallowKidsIsHeight(obj, kids.next, depth);
    } else {
      NoShape(obj);
    }
  }

  /** No reason exactly within the limits; otherwise a limit that is exceeded, and the one
      that is if it is only one. */
  lemma ReasonIsLimit(value: Tree, depth: nat, nodes: nat)
    requires 1 <= depth && nodes <= CORE_MAX_VALUES
    ensures var why := ShapeReason(value, depth, nodes);
            var deep := depth - 1 + Height(Syntax(value)) > MAX_DEPTH;
            var many := nodes + Nodes(Syntax(value)) > CORE_MAX_VALUES;
            && (why == NoReason <==> !deep && !many) && why in {NoReason, DepthLimit, NodeLimit}
            && (why == DepthLimit ==> deep) && (why == NodeLimit ==> many)
  {
    hide Nodes, Height, Shallow;
    ShallowIsHeight(value, depth);
  }

  /** One child and those after it. */
  lemma KidsReasonStep(obj: bool, kids: TKids, depth: nat, nodes: nat)
    requires kids.TCons? && 1 <= depth && nodes <= CORE_MAX_VALUES
    ensures var first := ShapeReason(kids.val, depth, nodes);
            KidsReason(obj, kids, depth, nodes)
            == if first != NoReason then first else KidsReason(obj, kids.next, depth, nodes + Nodes(Syntax(kids.val)))
  {
    hide Nodes, Height, Shallow, KidsNodes, KidsHeight;
    ChildShape(obj, kids);
    ShallowIsHeight(kids.val, depth);
  }

  /** Counts the values of a tree, which starts `depth` levels down, against the limits. */
  method Shape(value: Tree, depth: nat, nodes: nat) returns (ok: bool, total: nat, reason: Reason)
    requires 1 <= depth && nodes <= CORE_MAX_VALUES
    ensures reason == ShapeReason(value, depth, nodes) && (ok <==> reason == NoReason)
    ensures ok ==> total == nodes + Nodes(Syntax(value)) <= CORE_MAX_VALUES
    ensures ok <==> InShape(depth - 1, Height(Syntax(value)), nodes, Nodes(Syntax(value)))
    decreases value
  {
    hide Nodes, Height, KidsNodes, KidsHeight, Syntax, SyntaxKids, ShallowKids;
    total, reason := nodes, NoReason;
    ValueShape(value);
    ReasonIsLimit(value, depth, nodes);
    if depth > MAX_DEPTH { return false, total, DepthLimit; }
    total := total + 1;
    if total > CORE_MAX_VALUES {
      ManyFirst(value, depth, nodes);
      return false, total, NodeLimit;
    }
    if !value.TComp? { return true, total, NoReason; }
    var child := value.kids;
    while child.TCons?
      invariant child == value.kids || child < value.kids
      invariant total + KidsNodes(SyntaxKids(value.obj, child)) == nodes + Nodes(Syntax(value))
      invariant total <= CORE_MAX_VALUES && reason == NoReason
      invariant KidsReason(value.obj, child, depth + 1, total) == ShapeReason(value, depth, nodes)
      decreases child
    {
      ChildShape(value.obj, child);
      KidsReasonStep(value.obj, child, depth + 1, total);
      ok, total, reason := Shape(child.val, depth + 1, total);
      if !ok { return; }
      child := child.next;
    }
    NoShape(value.obj);
    NoneLeft(value.obj, depth + 1, total);
    ok := true;
  }

  lemma NoneLeft(obj: bool, depth: nat, nodes: nat)
    requires nodes <= CORE_MAX_VALUES
    ensures KidsReason(obj, TNil, depth, nodes) == NoReason
  {
    NoShape(obj);
  }

  /** With no room for the first value, that is the limit met. */
  lemma ManyFirst(value: Tree, depth: nat, nodes: nat)
    requires depth <= MAX_DEPTH && nodes + 1 > CORE_MAX_VALUES
    ensures ShapeReason(value, depth, nodes) == NodeLimit
  {
    ValueShape(value);
  }

  lemma ValueShape(value: Tree)
    ensures 1 <= Nodes(Syntax(value)) && 1 <= Height(Syntax(value))
    ensures !value.TComp? ==> Nodes(Syntax(value)) == 1 && Height(Syntax(value)) == 1
    ensures value.TComp? ==>
              var kids := SyntaxKids(value.obj, value.kids);
              Nodes(Syntax(value)) == 1 + KidsNodes(kids) && Height(Syntax(value)) == 1 + KidsHeight(kids)
  {
  }

  lemma ChildShape(obj: bool, kids: TKids)
    requires kids.TCons?
    ensures var all, rest := SyntaxKids(obj, kids), SyntaxKids(obj, kids.next);
            && KidsNodes(all) == Nodes(Syntax(kids.val)) + KidsNodes(rest)
            && KidsHeight(all) == Max(Height(Syntax(kids.val)), KidsHeight(rest))
  {
  }

  lemma NoShape(obj: bool)
    ensures KidsNodes(SyntaxKids(obj, TNil)) == 0 && KidsHeight(SyntaxKids(obj, TNil)) == 0
  {
  }

  // ---- The document ----

  /** The members of the document with its intervals, as `intervals`, at the end. */
  function TopMembers(before: TKids, after: TKids, intervals: Tree): TKids {
    Append(Append(before, after), Single(INTERVALS, intervals))
  }

  /** The document of the whole history. */
  function Document(before: TKids, after: TKids, history: seq<Tree>): Tree {
    TComp(true, TopMembers(before, after, TComp(false, Elements(history))))
  }

  lemma {:induction false} LastMember(kids: TKids, key: Bytes, a: Tree, b: Tree)
    requires CompactTree(a) == CompactTree(b)
    ensures KidsText(true, SyntaxKids(true, Append(kids, Single(key, a))))
         == KidsText(true, SyntaxKids(true, Append(kids, Single(key, b))))
  {
    hide Text, EscapeAll;
    if kids.TCons? {
      LastMember(kids.next, key, a, b);
    }
  }

  lemma {:induction false} LastMeasures(kids: TKids, key: Bytes, v: Tree)
    ensures var all := SyntaxKids(true, Append(kids, Single(key, v)));
            && KidsNodes(all) == KidsNodes(SyntaxKids(true, kids)) + Nodes(Syntax(v))
            && KidsHeight(all) == Max(KidsHeight(SyntaxKids(true, kids)), Height(Syntax(v)))
            && (CleanKids(Append(kids, Single(key, v))) <==> CleanKids(kids) && 0 !in key && Clean(v))
            && (NumbersKids(Append(kids, Single(key, v))) <==> NumbersKids(kids) && Numbers(v))
            && (ProperKids(true, Append(kids, Single(key, v))) <==> ProperKids(true, kids) && Proper(v))
  {
    hide Nodes, Height, EscapeAll;
    if kids.TCons? { LastMeasures(kids.next, key, v); }
  }

  lemma {:induction false} CleanAppend(a: TKids, b: TKids)
    requires CleanKids(a) && CleanKids(b)
    ensures CleanKids(Append(a, b))
    ensures ProperKids(true, a) && ProperKids(true, b) ==> ProperKids(true, Append(a, b))
  {
    if a.TCons? { CleanAppend(a.next, b); }
  }

  /** Printing the retained text as raw intervals prints the document of the history, and
      counts its nodes but for those already counted. */
  lemma RawDocument(before: TKids, after: TKids, history: seq<Tree>)
    ensures var raw := TRaw([91] + Joined(history) + [93]);
            var top := TComp(true, TopMembers(before, after, raw));
            var doc := Document(before, after, history);
            && CompactTree(top) == CompactTree(doc)
            && Nodes(Syntax(doc)) == Nodes(Syntax(top)) + NodesOf(history)
            && Height(Syntax(doc)) == Max(Height(Syntax(top)), 2 + HeightOf(history))
            && (CleanKids(before) && CleanKids(after) && Clean(raw) ==> Clean(top))
  {
    hide Append, KidsNodes, KidsHeight, KidsText;
    var raw := TRaw([91] + Joined(history) + [93]);
    var list := TComp(false, Elements(history));
    var outer := Append(before, after);
    LastMember(outer, INTERVALS, raw, list);
    LastMeasures(outer, INTERVALS, raw);
    LastMeasures(outer, INTERVALS, list);
    if CleanKids(before) && CleanKids(after) { CleanAppend(before, after); }
  }

  /** The history fits one document that stands every check. */
  predicate Whole(before: TKids, after: TKids, history: seq<Tree>, limit: nat) {
    var doc := Document(before, after, history);
    && Height(Syntax(doc)) <= MAX_DEPTH
    && Nodes(Syntax(doc)) <= CORE_MAX_VALUES
    && Numbers(doc)
    && |CompactTree(doc)| <= limit
    && Utf8.Valid(CompactTree(doc))
  }

  /** Intervals as the collector takes them: without NUL and raw text, and with numbers that
      can be printed. */
  predicate Recorded(history: seq<Tree>) {
    var kids := Elements(history);
    CleanKids(kids) && ProperKids(false, kids) && NumbersKids(kids)
  }

  lemma {:induction false} RecordedMore(history: seq<Tree>, t: Tree)
    ensures Recorded(history + [t]) <==> Recorded(history) && Clean(t) && Proper(t) && Numbers(t)
  {
    hide Clean, Proper, Numbers;
    var all := history + [t];
    if history == [] {
      assert all[1..] == [];
    } else {
      assert all[1..] == history[1..] + [t] && all[0] == history[0];
      RecordedMore(history[1..], t);
    }
  }

  /** What is checked and printed: the document with its intervals as raw text. */
  function RawTop(before: TKids, after: TKids, text: Bytes): Tree {
    TComp(true, TopMembers(before, after, TRaw([91] + text + [93])))
  }

  /** The document's text can be made of the raw form, whose `values` nodes are missing. */
  predicate Printable(top: Tree, values: nat, limit: nat) {
    && Height(Syntax(top)) <= MAX_DEPTH && values + Nodes(Syntax(top)) <= CORE_MAX_VALUES
    && Numbers(top) && |CompactTree(top)| <= limit && Utf8.Valid(CompactTree(top))
  }

  lemma RawIsWhole(before: TKids, after: TKids, history: seq<Tree>, limit: nat)
    requires CleanKids(before) && CleanKids(after) && 0 !in Joined(history) && 2 + HeightOf(history) <= MAX_DEPTH
    requires Recorded(history)
    ensures var top := RawTop(before, after, Joined(history));
            && Clean(top)
            && (Printable(top, NodesOf(history), limit) <==> Whole(before, after, history, limit))
            && CompactTree(top) == CompactTree(Document(before, after, history))
            && (Whole(before, after, history, limit) ==> 2 <= limit)
  {
    hide Append, CompactTree, Height, Nodes, NodesOf, HeightOf, Joined, Utf8.Valid;
    RawDocument(before, after, history);
    LastMeasures(Append(before, after), INTERVALS, TRaw([91] + Joined(history) + [93]));
    LastMeasures(Append(before, after), INTERVALS, TComp(false, Elements(history)));
    BracesTake2(before, after, history);
    NoZero([91] + Joined(history), [93]);
    NoZero([91], Joined(history));
  }

  /** There is room for one more interval. */
  predicate Room(history: seq<Tree>, t: Tree, limit: nat) {
    && 2 + Height(Syntax(t)) <= MAX_DEPTH
    && NodesOf(history) + Nodes(Syntax(t)) <= CORE_MAX_VALUES
    && TextFits(history, t, limit)
  }

  /** Its text can be printed and leaves room for the brackets. */
  predicate TextFits(history: seq<Tree>, t: Tree, limit: nat) {
    var extra := if history == [] then 0 else 1;
    Numbers(t) && |Joined(history)| + extra + |CompactTree(t)| + 2 <= limit
  }

  // ---- Why output is given up ----

  /** Why an interval is not kept after those of `history`. */
  function IntervalReason(history: seq<Tree>, t: Tree, limit: nat, allocScratch: bool): Reason {
    var shape := ShapeReason(t, 3, NodesOf(history));
    if shape != NoReason then shape
    else if !allocScratch then AllocationFailure
    else if !TextFits(history, t, limit) then ByteLimit
    else NoReason
  }

  /** Why the text of a document is not made: its raw form is checked, whose `values` nodes are
      missing. */
  function TextReason(top: Tree, values: nat, limit: nat): Reason {
    var shape := ShapeReason(top, 1, values);
    if shape != NoReason then shape
    else if !Numbers(top) || |CompactTree(top)| > limit then ByteLimit
    else if !Utf8.Valid(CompactTree(top)) then InvalidData
    else NoReason
  }

  /** Why there is no document at the end, though all intervals were kept. */
  function FinalReason(before: TKids, after: TKids, history: seq<Tree>, limit: nat,
                       present: bool, allocScratch: bool, allocRaw: bool): Reason {
    if !allocScratch then AllocationFailure
    else if !present then InvalidData
    else if limit < 2 then ByteLimit
    else if !allocRaw then AllocationFailure
    else TextReason(RawTop(before, after, Joined(history)), NodesOf(history), limit)
  }

  /** The record of an output that was given up: invalid data makes it invalid, anything else
      discards it. */
  function Gone(why: Reason): Output {
    Output(None, 0, if why == InvalidData then Invalid else Discarded, JsonFormat, why, false)
  }

  lemma TextReasonIs(top: Tree, values: nat, limit: nat)
    requires values <= CORE_MAX_VALUES
    ensures TextReason(top, values, limit) == NoReason <==> Printable(top, values, limit)
  {
    hide Height, Nodes, ShapeReason, CompactTree;
    ReasonIsLimit(top, 1, values);
  }

  lemma IntervalReasonIs(history: seq<Tree>, t: Tree, limit: nat, allocScratch: bool)
    requires NodesOf(history) <= CORE_MAX_VALUES
    ensures IntervalReason(history, t, limit, allocScratch) == NoReason <==> allocScratch && Room(history, t, limit)
    ensures IntervalReason(history, t, limit, allocScratch) != InvalidData
  {
    hide Height, Nodes, ShapeReason, CompactTree, Joined, NodesOf;
    ReasonIsLimit(t, 3, NodesOf(history));
  }

  // ---- The collector ----

  class IntervalCollector {
    const limit: nat
    var output: Output
    var values: nat
    var intervals: nat
    var finalized: bool

    /** The intervals retained so far. */
    ghost var history: seq<Tree>

    ghost predicate Valid()
      reads this
    {
      && (output.state == Missing ==> output == EMPTY_OUTPUT && history == [] && values == intervals == 0)
      && (output.state == Complete && !finalized ==> Retains())
      && (output.state in {Discarded, Invalid} ==> output == Gone(output.reason) && output.reason != NoReason)
      && output.state != Truncated
      && (output.state != Missing ==> output.format == JsonFormat)
      && (finalized ==> output.state != Missing)
    }

    /** The buffer is the comma-join of the intervals' texts and leaves room for brackets;
        the running count is that of the whole history. */
    ghost predicate Retains()
      reads this
    {
      && output == Output(Some(Joined(history)), 0, Complete, JsonFormat, NoReason, false)
      && (history != [] ==> |Joined(history)| + 2 <= limit)
      && intervals == |history|
      && values == NodesOf(history) <= CORE_MAX_VALUES
      && 2 + HeightOf(history) <= MAX_DEPTH
      && 0 !in Joined(history) && Recorded(history)
    }

    constructor (limit: nat)
      ensures Valid() && this.limit == limit && history == [] && output == EMPTY_OUTPUT && !finalized
    {
      this.limit := limit;
      output, values, intervals, finalized, history := EMPTY_OUTPUT, 0, 0, false, [];
    }

    method Discard(why: Reason)
      requires Valid() && !finalized && output.state != Missing && why != NoReason
      modifies this`output
      ensures Valid() && output == Dropped(old(output), why)
    {
      output := Dropped(output, why);
    }

    method Begin(alloc: bool) returns (ok: bool)
      requires Valid() && !finalized
      modifies this`output
      ensures Valid() && output.state != Missing
      ensures ok <==> output.state == Complete
      ensures old(output).state != Missing ==> output == old(output)
      ensures old(output).state == Missing ==>
                if alloc then output.state == Complete else output == Gone(AllocationFailure)
    {
      if output.state != Missing { return output.state == Complete; }
      output := output.(format := JsonFormat, observedComplete := false);
      if !alloc {
        output := Dropped(output, AllocationFailure);
        return false;
      }
      output := output.(value := Some([]), state := Complete);
      ok := true;
    }

    /** Keeps one interval or gives up; after giving up nothing is kept again. */
    method CollectInterval(interval: Tree, alloc: bool, allocScratch: bool)
      requires Valid() && Clean(interval) && Proper(interval) && limit <= OUTPUT_MAX_BYTES
      modifies this
      ensures Valid() && finalized == old(finalized)
      ensures finalized || old(output).state in {Discarded, Invalid} ==>
                output == old(output) && history == old(history)
      ensures !finalized && output.state == Complete ==>
                history == old(history) + [interval] && Room(old(history), interval, limit)
      ensures !finalized && old(output).state in {Missing, Complete} && Room(old(history), interval, limit) &&
              alloc && allocScratch ==>
                output.state == Complete
      ensures !finalized && old(output).state == Missing && !alloc ==>
                output == Gone(AllocationFailure) && history == old(history)
      ensures !finalized && (old(output).state == Complete || (old(output).state == Missing && alloc)) ==>
                var why := IntervalReason(old(history), interval, limit, allocScratch);
                if why == NoReason then output.state == Complete && history == old(history) + [interval]
                else output == Gone(why) && history == old(history)
    {
      hide Joined, NodesOf, HeightOf, TreeText, CompactTree, Nodes, Height, Recorded, ShapeReason;
      if finalized { return; }
      EmptyHistory();
      var ok := Begin(alloc);
      if !ok { return; }
      IntervalReasonIs(history, interval, limit, allocScratch);
      var total, why;
      ok, total, why := Shape(interval, 3, values);
      if !ok { Discard(why); return; }
      if !allocScratch { Discard(AllocationFailure); return; }
      var text := PrintCompact(interval, limit);
      if text.None? { Discard(ByteLimit); return; }
      var length := |output.value.value|;
      var extra := if intervals > 0 then 1 else 0;
      if limit < 2 || length > limit - 2 || |text.value| + extra > limit - 2 - length {
        Discard(ByteLimit);
        return;
      }
      Retain(interval, text.value, total);
    }

    /** Adds the text of an interval for which there is room. */
    method Retain(interval: Tree, text: Bytes, total: nat)
      requires Retains() && !finalized && text == CompactTree(interval) && 0 !in text
      requires Clean(interval) && Proper(interval) && Room(history, interval, limit)
      requires total == NodesOf(history) + Nodes(Syntax(interval))
      modifies this
      ensures Retains() && Valid() && output.state == Complete && !finalized && history == old(history) + [interval]
    {
      hide Joined, NodesOf, HeightOf, CompactTree, Nodes, Height, Recorded;
      JoinedMore(history, interval);
      RecordedMore(history, interval);
      var comma := if intervals > 0 then [COMMA] else [];
      NoZero(output.value.value, comma);
      NoZero(output.value.value + comma, text);
      output := output.(value := Some(output.value.value + comma + text));
      values := total;
      intervals := intervals + 1;
      history := history + [interval];
    }

    /** Makes the document, whose other members are `before` and `after` the intervals.
        `present` says that the server has such a document at all. */
    method FinalizeJson(before: TKids, after: TKids, present: bool, alloc: bool, allocScratch: bool, allocRaw: bool)
      requires Valid() && !finalized && CleanKids(before) && CleanKids(after) && limit <= OUTPUT_MAX_BYTES
      modifies this`output
      ensures output.state in {Complete, Discarded, Invalid} && output.format == JsonFormat
      ensures old(output).state in {Discarded, Invalid} ==> output == old(output)
      ensures old(output).state == Missing && !alloc ==> output == Gone(AllocationFailure)
      ensures old(output).state == Complete || (old(output).state == Missing && alloc) ==>
                var why := FinalReason(before, after, history, limit, present, allocScratch, allocRaw);
                if why == NoReason then output.state == Complete else output == Gone(why)
      ensures output.state == Complete <==>
                && old(output).state in {Missing, Complete} && (old(output).state == Missing ==> alloc)
                && allocScratch && present && allocRaw && Whole(before, after, history, limit)
      ensures output.state == Complete ==>
                var text := CompactTree(Document(before, after, history));
                output == Output(Some(text), |text|, Complete, JsonFormat, NoReason, true)
    {
      hide Joined, NodesOf, HeightOf, CompactTree, Document, RawTop, Whole, Printable, Recorded, TextReason;
      EmptyHistory();
      var ok := Begin(alloc);
      if !ok { return; }
      if !allocScratch { Discard(AllocationFailure); return; }
      if !present { Discard(InvalidData); return; }
      RawIsWhole(before, after, history, limit);
      TextReasonIs(RawTop(before, after, output.value.value), values, limit);
      if limit < 2 { Discard(ByteLimit); return; }
      if !allocRaw { Discard(AllocationFailure); return; }
      var text, why := DocumentText(RawTop(before, after, output.value.value), values, limit);
      if text.None? { Discard(why); return; }
      output := output.(value := text, observed := |text.value|, observedComplete := true);
    }

    /** The record handed over with the results; nothing is collected after it. */
    method Finish(before: TKids, after: TKids, present: bool, alloc: bool, allocScratch: bool, allocRaw: bool)
      returns (o: Output)
      requires Valid() && CleanKids(before) && CleanKids(after) && limit <= OUTPUT_MAX_BYTES
      modifies this`output, this`finalized
      ensures Valid() && finalized && o == output
      ensures old(finalized) ==> output == old(output)
      ensures !old(finalized) && old(output).state in {Discarded, Invalid} ==> o == old(output)
      ensures !old(finalized) && old(output).state == Missing && !alloc ==> o == Gone(AllocationFailure)
      ensures !old(finalized) && (old(output).state == Complete || (old(output).state == Missing && alloc)) ==>
                var why := FinalReason(before, after, history, limit, present, allocScratch, allocRaw);
                if why == NoReason then o.state == Complete else o == Gone(why)
      ensures !old(finalized) ==>
                (o.state == Complete <==>
                   && old(output).state in {Missing, Complete} && (old(output).state == Missing ==> alloc)
                   && allocScratch && present && allocRaw && Whole(before, after, history, limit))
      ensures !old(finalized) && o.state == Complete ==>
                var text := CompactTree(Document(before, after, history));
                o == Output(Some(text), |text|, Complete, JsonFormat, NoReason, true)
    {
      hide CompactTree, Document, Whole, FinalReason;
      if !finalized {
        FinalizeJson(before, after, present, alloc, allocScratch, allocRaw);
        finalized := true;
      }
      o := output;
    }
  }

  /** Prints a tree into a scratch buffer for texts up to the limit. */
  method PrintCompact(t: Tree, limit: nat) returns (r: Option<Bytes>)
    requires Clean(t)
    ensures r.Some? <==> Numbers(t) && |CompactTree(t)| + 2 <= limit + 5
    ensures r.Some? ==> r.value == CompactTree(t) && 0 !in r.value
  {
    hide CompactTree, TreeText, Clean, Numbers;
    var scratch := new Byte[limit + 5];
    CompactTreeText(t);
    var ok := PrintPreallocated(t, scratch, false);
    if !ok { return None; }
    TextNoZero(false, t, 0);
    var bytes := StringLength(scratch, CompactTree(t));
    r := Some(scratch[..bytes]);
  }

  /** The text of a document whose intervals, `values` nodes of them, are raw text. */
  method DocumentText(top: Tree, values: nat, limit: nat) returns (r: Option<Bytes>, why: Reason)
    requires Clean(top) && values <= CORE_MAX_VALUES
    ensures r.Some? ==> r.value == CompactTree(top)
    ensures r.Some? <==> Printable(top, values, limit)
    ensures why == TextReason(top, values, limit) && (r.Some? <==> why == NoReason)
  {
    hide CompactTree, TreeText, Syntax, Height, Nodes, ShapeReason;
    TextReasonIs(top, values, limit);
    var ok, total;
    ok, total, why := Shape(top, 1, values);
    if !ok { return None, why; }
    var text := PrintCompact(top, limit);
    if text.None? || |text.value| > limit { return None, ByteLimit; }
    var checked;
    ok, checked := Utf8Prefix(text.value, false);
    WholeIsValid(text.value, checked);
    if !ok { return None, InvalidData; }
    r := text;
  }

  /** An uncut scan reaches the end exactly on valid text. */
  lemma WholeIsValid(text: Bytes, e: nat)
    requires e <= |text| && StopsAt(text, e) && 0 !in text
    ensures e == |text| <==> Utf8.Valid(text)
  {
    if e == |text| {
      BoundaryPrefix(text, 0, e);
      assert text[..e] == text;
    } else if Utf8.Valid(text) {
      BoundaryKeepsValid(text, 0, e);
    }
  }

  /** A document has at least its braces. */
  lemma BracesTake2(before: TKids, after: TKids, history: seq<Tree>)
    ensures 2 <= |CompactTree(Document(before, after, history))|
  {
    hide KidsText, SyntaxKids, TopMembers;
  }

  lemma EmptyHistory()
    ensures Joined([]) == [] && NodesOf([]) == 0 && HeightOf([]) == 0 && Recorded([])
  {
  }
}
