/** Reading one result frame from start to end: the arguments, the single-pass reader, the
    tree library's parse of the rebuilt core, and what the caller is told. */
module BoundedReader {
  import opened Utf8
  import opened Grammar
  import opened Scan
  import opened Delivery
  import opened RootExact
  import opened Placement
  import opened Render
  import opened Escaping
  import opened Tree
  import opened TreeParser
  import opened ResultReader

  // ---- The tree library reads the core as the frame means it ----

  lemma {:induction false} CoreMeasures(kids: Kids)
    requires PlainKids(kids, MAX_NUMBER)
    ensures PlainKids(CoreKids(kids), MAX_NUMBER) && KidsHeight(CoreKids(kids)) <= KidsHeight(kids)
  {
    hide IsOutputKey;
    if kids.KCons? { CoreMeasures(kids.next); }
  }

  /** A strict literal denotes valid UTF-8. */
  lemma LitIsUtf8(lit: Lit)
    requires LitOk(true, lit)
    ensures Valid(lit.val)
  {
    BodyScalars(lit.raw + [QUOTE], 0);
    FlatValid(StringBody(true, lit.raw + [QUOTE], 0).items);
  }

  lemma {:induction false} CoreIsWellFormed(kids: Kids)
    requires WellFormedKids(true, true, kids)
    ensures WellFormedKids(true, true, CoreKids(kids))
  {
    hide IsOutputKey, LitOk, EscapeAll, Valid;
    if kids.KCons? {
      CoreIsWellFormed(kids.next);
      LitIsUtf8(kids.key);
      EscapedBody(true, false, kids.key.val);
    }
  }

  /** The tree library must read the core of an accepted frame as the object the frame
      denotes without its output members. */
  lemma CoreIsReadable(g: Input)
    requires Accepted(g)
    ensures var core := CoreOf(FrameKids(g.t));
            var content := Text(core) + [0];
            var p := ParseValueAt(false, content, SkipWs(content, 0));
            Readable(content, p, 0) && SkipWs(content, p.end) == |content| - 1 && p.v == core
  {
    hide ParseValueAt, SkipWs, Text, CoreKids, WellFormedKids, RenderText, AllocOk, UniqueOk, KeysOk;
    var kids := FrameKids(g.t);
    var core := CoreOf(kids);
    var content := Text(core) + [0];
    ParsedIsWellFormed(true, g.t, SkipWs(g.t, 0));
    CoreIsWellFormed(kids);
    CompactText(core, 0);
    RenderedTerminated(true, false, core);
    LenientValue(content, 0);
    CoreMeasures(kids);
    PlainKidsIsShort(CoreKids(kids));
    NestingBelowHeight(core);
  }

  // ---- What the caller gets ----

  /** The caller's view: a tree and its output record, or the reason there is none. */
  datatype Outcome = Outcome(tree: Option<Tree>, output: Output, errno: Errno)

  function Rejected(errno: Errno): Outcome {
    Outcome(None, EMPTY_OUTPUT.(state := Invalid, reason :=
      match errno case Enomem => AllocationFailure case Eproto => InvalidData case _ => ReadFailure), errno)
  }

  /** The result of reading what `d` delivers of a frame. */
  function Reading(d: Arrival, limit: nat, alloc: Allocations): Outcome {
    var g := Input(d.t, d.fault, limit, alloc.text, alloc.json);
    var kids := FrameKids(d.t);
    if d.fault == NoError && Accepted(g) then
      if alloc.tree then Outcome(Some(Denote(CoreOf(kids))), OutputOf(limit, kids, false, EMPTY_OUTPUT), NoError)
      else Rejected(Enomem)
    else Rejected(Root(g, START).err)
  }

  /** Which allocations succeed. */
  datatype Allocations = Allocations(core: bool, text: bool, json: bool, tree: bool)

  /** What a caller that reads a frame of `frameLength` bytes is told. */
  function ReadOutcome(script: seq<Reply>, frameLength: nat, limit: nat, alloc: Allocations): Outcome {
    if limit == 0 || limit > OUTPUT_MAX_BYTES then Outcome(None, EMPTY_OUTPUT.(state := Invalid), Einval)
    else if frameLength == 0 || frameLength > FRAME_MAX_BYTES
    then Outcome(None, EMPTY_OUTPUT.(state := Invalid, reason := ByteLimit), Efbig)
    else if !alloc.core then Rejected(Enomem)
    else Reading(Delivered(script, frameLength), limit, alloc)
  }

  /** Reads a result frame of `frameLength` bytes. It consumes exactly the frame when it
      succeeds, never asks for a byte beyond it, and is at most one chunk ahead of where the
      scan stops. `used` counts the replies it took. */
  method ReadBoundedResults(script: seq<Reply>, frameLength: nat, limit: nat, alloc: Allocations)
    returns (r: Outcome, bytesRead: nat, used: nat, ghost reach: nat)
    ensures r == ReadOutcome(script, frameLength, limit, alloc)
    ensures r.tree.Some? ==> bytesRead == frameLength
    ensures bytesRead <= frameLength && reach <= frameLength
    ensures used <= |script| && bytesRead == Brought(script, frameLength, used).bytes
    ensures var d := Delivered(script, frameLength);
            && bytesRead <= |d.t|
            && (0 < bytesRead ==>
                  var stop := Root(Input(d.t, d.fault, limit, alloc.text, alloc.json), START).pos;
                  stop <= bytesRead <= stop + CHUNK)
    ensures r.tree.None? ==> r.output.value.None? && r.output.state == Invalid && r.errno != NoError
    ensures !(1 <= limit <= 1048576) ==>
              r == Outcome(None, Output(None, 0, Invalid, NoFormat, NoReason, false), Einval) && used == 0
    ensures 1 <= limit <= 1048576 && !(1 <= frameLength <= 67108864) ==>
              r == Outcome(None, Output(None, 0, Invalid, NoFormat, ByteLimit, false), Efbig) && used == 0
    ensures 1 <= limit <= 1048576 && 1 <= frameLength <= 67108864 && !alloc.core ==>
              r == Outcome(None, Output(None, 0, Invalid, NoFormat, AllocationFailure, false), Enomem) && used == 0
  {
    hide Delivered, Root, OutputOf, Accepted, Denote, CoreOf, ParseValueAt, SkipWs, Readable, Parser.Fed,
      Parser.Live;
    bytesRead, used, reach := 0, 0, 0;
    if limit == 0 || limit > OUTPUT_MAX_BYTES {
      return Outcome(None, EMPTY_OUTPUT.(state := Invalid), Einval), 0, 0, 0;
    }
    if frameLength == 0 || frameLength > FRAME_MAX_BYTES {
      return Outcome(None, EMPTY_OUTPUT.(state := Invalid, reason := ByteLimit), Efbig), 0, 0, 0;
    }
    if !alloc.core { return Rejected(Enomem), 0, 0, 0; }
    var p := new Parser(script, frameLength, limit, alloc.text, alloc.json);
    ghost var d := Delivered(script, frameLength);
    if d.fault == NoError { RootIsExact(p.g); } else { RootNeedsAll(p.g); }
    var ok := p.Root();
    Counts(p);
    bytesRead, used, reach := p.bytesRead, |script| - |p.script|, p.reach;
    if !ok { return Rejected(p.error), bytesRead, used, reach; }
    AllRead(p);
    if !alloc.tree { return Rejected(Enomem), bytesRead, used, reach; }
    CoreIsReadable(p.g);
    var tree := ParseTerminated(p.core + [0]);
    r := Outcome(tree, p.output, NoError);
  }

  lemma Counts(p: Parser)
    requires p.Valid()
    ensures |p.script| <= |p.replies|
    ensures p.bytesRead == Brought(p.replies, p.frameLength, |p.replies| - |p.script|).bytes <= p.frameLength
    ensures p.bytesRead <= |p.g.t| && p.reach <= p.frameLength && p.pos <= p.bytesRead <= p.pos + CHUNK
  {
  }

  /** At the end of the input nothing of the frame is left unread. */
  lemma AllRead(p: Parser)
    requires p.Valid() && p.error == NoError && p.g.fault == NoError && p.pos == |p.g.t|
    ensures p.bytesRead == p.frameLength
  {
    assert |Delivered(p.script, p.remaining).t| == 0;
  }

  // ---- What the result does not depend on ----

  function Replies(pieces: seq<Bytes>): seq<Reply> {
    if pieces == [] then [] else [Data(pieces[0])] + Replies(pieces[1..])
  }

  /** Any way of cutting a frame into pieces the reader can ask for delivers the frame,
      and what the callback would say afterwards is never asked. */
  lemma {:induction false} AnyFragmentation(pieces: seq<Bytes>, after: seq<Reply>)
    requires forall k :: 0 <= k < |pieces| ==> 0 < |pieces[k]| <= CHUNK
    ensures Delivered(Replies(pieces) + after, |Flat(pieces)|) == Arrival(Flat(pieces), NoError)
  {
    if pieces != [] {
      var script := Replies(pieces) + after;
      assert script[1..] == Replies(pieces[1..]) + after;
      AnyFragmentation(pieces[1..], after);
    }
  }

  /** Two deliveries of the same frame are read alike. */
  lemma ChunkingIndependence(a: seq<Bytes>, b: seq<Bytes>, limit: nat, alloc: Allocations)
    requires forall k :: 0 <= k < |a| ==> 0 < |a[k]| <= CHUNK
    requires forall k :: 0 <= k < |b| ==> 0 < |b[k]| <= CHUNK
    requires Flat(a) == Flat(b)
    ensures Reading(Delivered(Replies(a), |Flat(a)|), limit, alloc)
         == Reading(Delivered(Replies(b), |Flat(b)|), limit, alloc)
  {
    hide Reading, Delivered;
    AnyFragmentation(a, []);
    AnyFragmentation(b, []);
    assert Replies(a) + [] == Replies(a) && Replies(b) + [] == Replies(b);
  }

  lemma {:induction false} AllocIgnoresLimit(g: Input, limit: nat, kids: Kids, seenJson: bool)
    ensures AllocOk(g.(limit := limit), kids, seenJson) <==> AllocOk(g, kids, seenJson)
  {
    hide EqNoCase;
    if kids.KCons? { AllocIgnoresLimit(g, limit, kids.next, seenJson || EqNoCase(kids.key.val, OUTPUT_JSON)); }
  }

  /** The statistics do not depend on the output limit. */
  lemma LimitIrrelevant(d: Arrival, limit: nat, limit': nat, alloc: Allocations)
    ensures Reading(d, limit, alloc).tree == Reading(d, limit', alloc).tree
  {
    hide Root, OutputOf, Denote, ParseText, KeysOk, UniqueOk, PlainKids, AllocOk, CoreKids, Text;
    var g := Input(d.t, d.fault, limit, alloc.text, alloc.json);
    AllocIgnoresLimit(g, limit', FrameKids(d.t), false);
  }

  /** The same members, but for what the output members hold. */
  predicate SameStatistics(a: Kids, b: Kids) {
    match a
    case KNil => b.KNil?
    case KCons(key, val, next) =>
      && b.KCons? && b.key == key && (IsOutputKey(key.val) || b.val == val)
      && SameStatistics(next, b.next)
  }

  lemma {:induction false} SameCore(a: Kids, b: Kids)
    requires SameStatistics(a, b)
    ensures CoreOf(a) == CoreOf(b)
  {
    hide IsOutputKey, EscapeAll;
    if a.KCons? { SameCore(a.next, b.next); }
  }

  /** Two accepted frames that differ only in what their output members hold give the same
      statistics, whatever the limits. */
  lemma OutputIrrelevant(d: Arrival, limit: nat, alloc: Allocations, d': Arrival, limit': nat, alloc': Allocations)
    requires SameStatistics(FrameKids(d.t), FrameKids(d'.t))
    requires Reading(d, limit, alloc).tree.Some? && Reading(d', limit', alloc').tree.Some?
    ensures Reading(d, limit, alloc).tree == Reading(d', limit', alloc').tree
  {
    hide Root, OutputOf, Denote, Accepted, FrameKids, CoreOf, SameStatistics;
    SameCore(FrameKids(d.t), FrameKids(d'.t));
  }
}
