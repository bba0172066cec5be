/** From the server's collector through the wire to the client's record. */
module EndToEnd {
  import opened Order
  import opened Utf8
  import opened Grammar
  import opened Scan
  import opened TraceLimits
  import opened ValueExact
  import opened Delivery
  import opened RootExact
  import opened Placement
  import opened Render
  import opened Escaping
  import opened Tree
  import opened Printer
  import opened RoundTrip
  import opened Collector
  import opened JsonCollector
  import opened PeerStatus
  import opened Results
  import opened ResultReader
  import opened BoundedReader

  const ALL := Allocations(true, true, true, true)

  // ---- The frame ----

  function StatusTree(o: Output): Tree {
    TComp(true, StatusKids(o))
  }

  /** The members after the output: the status, then the other statistics. */
  function Tail(o: Output, rest: TKids): TKids {
    TCons(STATUS, StatusTree(o), rest)
  }

  function OutputKey(o: Output): Bytes {
    if o.format == JsonFormat then OUTPUT_JSON else OUTPUT_TEXT
  }

  /** The members of the results as the server sends them: statistics, the output if any of
      it was kept, its status, more statistics. */
  function ResultMembers(base: TKids, o: Output, rest: TKids): TKids {
    match o.value
    case None => Append(base, Tail(o, rest))
    case Some(v) =>
      Append(base, TCons(OutputKey(o), if o.format == JsonFormat then TRaw(v) else TStr(v), Tail(o, rest)))
  }

  function Frame(base: TKids, o: Output, rest: TKids): Bytes {
    CompactTree(TComp(true, ResultMembers(base, o, rest)))
  }

  /** The statistics, with the status among them, are UTF-8 JSON within the reader's limits. */
  predicate Statistics(base: TKids, o: Output, rest: TKids) {
    var core := Without(base, Tail(o, rest));
    && Outputless(base) && Outputless(rest)
    && WellFormedKids(true, true, core)
    && KeysOk(core) && UniqueOk(core, {}) && PlainKids(core, MAX_NUMBER)
    && KidsHeight(core) <= MAX_DEPTH && KidsNodes(core) <= CORE_MAX_VALUES
    && |Text(CoreOf(core))| <= CORE_MAX_BYTES
  }

  lemma StatusIsCore()
    ensures !IsOutputKey(STATUS) && IsOutputKey(OUTPUT_TEXT) && IsOutputKey(OUTPUT_JSON)
    ensures !EqNoCase(OUTPUT_TEXT, OUTPUT_JSON) && EqNoCase(OUTPUT_JSON, OUTPUT_JSON)
  {
    assert Lower(OUTPUT_TEXT[14]) != Lower(OUTPUT_JSON[14]);
  }

  lemma OutputKeys()
    ensures Valid(OUTPUT_TEXT) && Valid(OUTPUT_JSON) && 0 !in OUTPUT_TEXT && 0 !in OUTPUT_JSON
  {
    AsciiIsValid(OUTPUT_TEXT);
    AsciiIsValid(OUTPUT_JSON);
  }

  lemma {:induction false} AsciiIsValid(t: Bytes)
    requires forall i :: 0 <= i < |t| ==> t[i] < 0x80
    ensures Valid(t)
  {
    if t != [] {
      AsciiIsValid(t[1..]);
      assert t == [t[0]] + t[1..];
      assert Valid([t[0]]);
      ValidConcat([t[0]], t[1..]);
    }
  }

  /** What an output member may hold for its frame to be accepted. */
  predicate Acceptable(v: Json) {
    && WellFormed(true, v) && Plain(v, MAX_NUMBER)
    && Height(v) <= MAX_DEPTH && Nodes(v) <= CORE_MAX_VALUES
  }

  lemma FrameAdmissible(base: TKids, key: Bytes, val: Tree, o: Output, rest: TKids, g: Input)
    requires Statistics(base, o, rest) && key in {OUTPUT_TEXT, OUTPUT_JSON} && Acceptable(Syntax(val))
    requires g.allocText && g.allocJson
    ensures var kids := Inserted(base, key, val, Tail(o, rest));
            Admissible(g, kids) && WellFormedKids(true, true, kids)
            && CoreOf(kids) == CoreOf(Without(base, Tail(o, rest)))
  {
    hide CoreKids, KeysOk, UniqueOk, PlainKids, AllocOk, Text, WellFormedKids, WellFormed, Height, Nodes, Plain,
      Inserted, Without, KidsHeight, KidsNodes, Outputless, IsOutputKey, UniqueIndices, Valid, Tail;
    var after := Tail(o, rest);
    var kids := Inserted(base, key, val, after);
    StatusIsCore();
    OutputKeys();
    OutputNames();
    TailIsCore(o, rest);
    InsertedWellFormed(base, key, val, after);
    InsertedMeasures(base, key, val, after);
    InsertedUnique(base, key, val, after, {});
    InsertedCore(base, key, val, after);
    AllAllocated(g, kids, false);
    CoreNodes(Without(base, after));
  }

  lemma {:induction false} CoreNodes(kids: Kids)
    ensures KidsNodes(CoreKids(kids)) <= KidsNodes(kids)
  {
    hide IsOutputKey, Nodes;
    if kids.KCons? { CoreNodes(kids.next); }
  }

  /** A frame with the output member `key` denoting `val` is accepted, its output is what
      that member denotes, and its tree is the statistics. */
  lemma FrameIsRead(base: TKids, key: Bytes, val: Tree, o: Output, rest: TKids, limit: nat)
    requires Statistics(base, o, rest) && key in {OUTPUT_TEXT, OUTPUT_JSON} && Acceptable(Syntax(val))
    ensures var t := CompactTree(TComp(true, Append(base, TCons(key, val, Tail(o, rest)))));
            Reading(Arrival(t, NoError), limit, ALL)
            == Outcome(Some(Denote(CoreOf(Without(base, Tail(o, rest))))),
                       ReceivedField(limit, key == OUTPUT_JSON, Syntax(val)), NoError)
  {
    hide CoreOf, OutputOf, ReceivedField, Root, Admissible, ParseText, Denote, CompactTree, IsOutputKey,
      WellFormedKids, Acceptable, Without, Outputless, Tail, OUTPUT_TEXT, OUTPUT_JSON, EqNoCase;
    var after := Tail(o, rest);
    var kids := Inserted(base, key, val, after);
    var frame := TComp(true, Append(base, TCons(key, val, after)));
    var g := Input(CompactTree(frame), NoError, limit, true, true);
    StatusIsCore();
    TailIsCore(o, rest);
    FrameAdmissible(base, key, val, o, rest, g);
    InsertedOutput(limit, base, key, val, after, EMPTY_OUTPUT);
    FrameParses(frame, kids);
    DifferentNames();
  }

  lemma DifferentNames()
    ensures OUTPUT_TEXT != OUTPUT_JSON
  {
    assert OUTPUT_TEXT[14] != OUTPUT_JSON[14];
  }

  lemma TailIsCore(o: Output, rest: TKids)
    requires Outputless(rest)
    ensures Outputless(Tail(o, rest))
  {
    StatusIsCore();
  }

  /** The text of a frame parses to the members it was printed from. */
  lemma FrameParses(frame: Tree, kids: Kids)
    requires Syntax(frame) == Comp(true, kids) && WellFormedKids(true, true, kids)
    ensures ParseText(true, CompactTree(frame)).Parse? && ParseText(true, CompactTree(frame)).v == Comp(true, kids)
    ensures FrameKids(CompactTree(frame)) == kids
  {
    hide WellFormedKids, ParseText, Text, RenderText;
    CompactText(Syntax(frame), 0);
    RenderedText(true, false, Syntax(frame));
  }

  // ---- The status inside the received tree ----

  /** The index of the status among the protocol fields. */
  const STATUS_INDEX: nat := 8

  lemma StatusIndex(key: Bytes)
    ensures key == STATUS ==> STATUS_INDEX in UniqueIndices(key)
  {
    assert UNIQUE[8] == STATUS;
  }

  lemma {:induction false} NoSecondStatus(base: TKids, v: Tree, rest: TKids, seen: set<nat>)
    requires STATUS_INDEX in seen
    ensures !UniqueOk(SyntaxKids(true, Append(base, TCons(STATUS, v, rest))), seen)
  {
    hide UniqueIndices, EscapeAll;
    if base.TCons? {
      NoSecondStatus(base.next, v, rest, seen + UniqueIndices(base.key));
    } else {
      StatusIndex(STATUS);
      assert STATUS_INDEX in UniqueIndices(STATUS) * seen;
    }
  }

  /** Looking the status up in the tree the client parsed finds the one the server sent. */
  lemma {:induction false} StatusIsFound(base: TKids, v: Tree, rest: TKids, seen: set<nat>)
    requires Outputless(base) && UniqueOk(Without(base, TCons(STATUS, v, rest)), seen)
    ensures Find(DenoteKids(CoreKids(Without(base, TCons(STATUS, v, rest)))), STATUS) == Some(Denote(Syntax(v)))
  {
    hide UniqueIndices, EscapeAll, IsOutputKey, Denote, Syntax;
    StatusIsCore();
    if base.TCons? {
      StatusIsFound(base.next, v, rest, seen + UniqueIndices(base.key));
      if base.key == STATUS {
        StatusIndex(base.key);
        NoSecondStatus(base.next, v, rest, seen + UniqueIndices(base.key));
      }
    }
  }

  lemma StatusIsProper(o: Output)
    ensures Proper(StatusTree(o)) && Numbers(StatusTree(o))
  {
    hide Decimal;
    var tail := if SendsTotal(o) then NumberMember(OBSERVED, o.observed) else TNil;
    if SendsTotal(o) { NumberIsProper(OBSERVED, o.observed, TNil); }
    NumberIsProper(REASON, ReasonNumber(o.reason), tail);
    var k3 := TCons(REASON, TNum(Decimal(ReasonNumber(o.reason))), tail);
    NumberIsProper(FORMAT, FormatNumber(o.format), k3);
    var k2 := TCons(FORMAT, TNum(Decimal(FormatNumber(o.format))), k3);
    NumberIsProper(STATE, StateNumber(o.state), k2);
    NumberIsProper(VERSION, 1, TCons(STATE, TNum(Decimal(StateNumber(o.state))), k2));
  }

  lemma NumberIsProper(key: Bytes, n: nat, next: TKids)
    requires n <= SAFE_INTEGER && ProperKids(true, next) && NumbersKids(next)
    ensures var kids := TCons(key, TNum(Decimal(n)), next); ProperKids(true, kids) && NumbersKids(kids)
  {
    hide Decimal, TokOk;
    DecimalIsToken(n);
    SafeIsShort(n);
  }

  /** The client reads the server's claim. */
  lemma ClaimArrives(num: Bytes -> Double, base: TKids, o: Output, rest: TKids)
    requires Statistics(base, o, rest) && ReadsIntegers(num)
    requires o.state != Missing && o.format != NoFormat && Consistent(ClaimFor(o))
    ensures var tree := Denote(CoreOf(Without(base, Tail(o, rest))));
            var status := Lookup(tree, STATUS);
            status.Some? && ClaimOf(num, status.value) == Some(ClaimFor(o))
  {
    hide CoreKids, Without, KeysOk, PlainKids, WellFormedKids, KidsHeight, KidsNodes, Text, UniqueOk, Outputless, Find,
      ClaimOf, StatusKids, ReadsIntegers, Consistent, Syntax, Proper, Numbers;
    StatusIsFound(base, StatusTree(o), rest, {});
    StatusIsProper(o);
    SyntaxDenotes(StatusTree(o));
    StatusRoundTrip(num, o);
  }

  // ---- End to end ----

  /** What the client ends with: the frame read under its own limit, merged with the status
      the frame carries. */
  function ClientRecord(num: Bytes -> Double, frame: Bytes, limit: nat): Output {
    var r := Reading(Arrival(frame, NoError), limit, ALL);
    if r.tree.Some? then Merged(num, r.output, r.tree.value) else r.output
  }

  lemma TextIsAcceptable(v: Bytes)
    requires Valid(v)
    ensures Acceptable(Syntax(TStr(v)))
  {
    hide LitOk, EscapeAll, Valid;
    EscapedBody(true, true, v);
  }

  /** The record after reading a frame is the received output adjusted by the claim of the
      sender's record. */
  lemma RecordOfFrame(num: Bytes -> Double, base: TKids, key: Bytes, val: Tree, o: Output, rest: TKids, limit: nat)
    requires Statistics(base, o, rest) && ReadsIntegers(num) && key in {OUTPUT_TEXT, OUTPUT_JSON}
    requires Acceptable(Syntax(val))
    requires o.state != Missing && o.format != NoFormat && Consistent(ClaimFor(o))
    ensures var received := ReceivedField(limit, key == OUTPUT_JSON, Syntax(val));
            Agrees(received, ClaimFor(o)) ==>
              ClientRecord(num, CompactTree(TComp(true, Append(base, TCons(key, val, Tail(o, rest))))), limit)
              == Adopted(received, ClaimFor(o))
  {
    hide Statistics, Reading, ReadsIntegers, ReceivedField, Acceptable, CoreOf, Denote, CompactTree, ClaimOf, Tail,
      Adopted, Agrees, Consistent, OUTPUT_TEXT, OUTPUT_JSON, Lookup, ClaimFor;
    FrameIsRead(base, key, val, o, rest, limit);
    ClaimArrives(num, base, o, rest);
  }

  /** The record a client with limit `client` ends with for a text the server collected
      under the limit `server`. */
  function TextRecord(text: Bytes, server: nat, client: nat): Output {
    var limit := Min(server, client);
    var known := |text| <= SAFE_INTEGER;
    Output(Some(Lsp(text, limit)), if known then |text| else |Lsp(text, server)|,
           if |text| <= limit then Complete else Truncated, TextFormat,
           if |text| <= limit then NoReason else ByteLimit, known)
  }

  lemma TextMerged(text: Bytes, server: nat, client: nat)
    requires Valid(text) && 0 !in text
    ensures var o := TextOf(server, text);
            var received := ReceivedText(client, Lsp(text, server));
            && o.value == Some(Lsp(text, server)) && Consistent(ClaimFor(o))
            && Agrees(received, ClaimFor(o))
            && Adopted(received, ClaimFor(o)) == TextRecord(text, server, client)
  {
    hide Lsp, Valid;
    var kept := Lsp(text, server);
    LspIsLongest(text, server);
    if |text| <= server { LspWhole(text, server); }
    LspTwice(text, server, client);
    if |kept| <= client { LspWhole(kept, client); }
    PrefixNoZero(text, kept);
  }

  /** Text, end to end. Whatever the server printed, as UTF-8 without NUL, the client ends
      with its longest prefix of whole scalars within both limits, knows whether that is all
      of it, and knows the full length unless it is beyond what a number can carry. */
  lemma TextEndToEnd(num: Bytes -> Double, text: Bytes, server: nat, client: nat, base: TKids, rest: TKids)
    requires Valid(text) && 0 !in text && ReadsIntegers(num)
    requires Statistics(base, TextOf(server, text), rest)
    ensures ClientRecord(num, Frame(base, TextOf(server, text), rest), client) == TextRecord(text, server, client)
  {
    hide Lsp, Valid, Statistics, ClientRecord, ReadsIntegers, ReceivedField, Acceptable, CompactTree, TextRecord,
      Adopted, Agrees, Consistent, ClaimFor, ReceivedText, OUTPUT_TEXT, OUTPUT_JSON, Tail;
    var o := TextOf(server, text);
    var kept := Lsp(text, server);
    LspIsLongest(text, server);
    TextMerged(text, server, client);
    TextIsAcceptable(kept);
    TextField(client, kept);
    DifferentNames();
    RecordOfFrame(num, base, OUTPUT_TEXT, TStr(kept), o, rest, client);
  }

  lemma PrefixNoZero(text: Bytes, p: Bytes)
    requires p <= text && 0 !in text
    ensures 0 !in p
  {
  }

  lemma TextField(limit: nat, v: Bytes)
    ensures ReceivedField(limit, false, Syntax(TStr(v))) == ReceivedText(limit, v)
  {
  }

  // ---- JSON ----

  lemma {:induction false} PlainSyntax(t: Tree)
    requires Clean(t) && Numbers(t) && Proper(t)
    ensures Plain(Syntax(t), MAX_NUMBER)
    decreases t, 1
  {
    hide EscapeAll, TokOk;
    if t.TComp? { PlainSyntaxKids(t.obj, t.kids); }
  }

  lemma {:induction false} PlainSyntaxKids(obj: bool, kids: TKids)
    requires CleanKids(kids) && NumbersKids(kids) && ProperKids(obj, kids)
    ensures PlainKids(SyntaxKids(obj, kids), MAX_NUMBER)
    decreases kids, 0
  {
    hide EscapeAll;
    if kids.TCons? {
      PlainSyntax(kids.val);
      PlainSyntaxKids(obj, kids.next);
    }
  }

  /** A document the server can finalise: an object within its node and depth limits whose
      text is UTF-8. */
  predicate Finalisable(doc: Tree) {
    && doc.TComp? && doc.obj && Clean(doc) && Proper(doc) && Numbers(doc)
    && Height(Syntax(doc)) <= MAX_DEPTH && Nodes(Syntax(doc)) <= CORE_MAX_VALUES
    && Valid(CompactTree(doc)) && |CompactTree(doc)| <= OUTPUT_MAX_BYTES
  }

  function JsonOf(doc: Tree): Output {
    Output(Some(CompactTree(doc)), |CompactTree(doc)|, Complete, JsonFormat, NoReason, true)
  }

  /** The record of a client with that limit. */
  function JsonRecord(doc: Tree, client: nat): Output {
    if |CompactTree(doc)| <= client then JsonOf(doc)
    else Output(None, |CompactTree(doc)|, Discarded, JsonFormat, ByteLimit, true)
  }

  /** The sender's limits imply the receiver's. */
  lemma DocumentIsAcceptable(doc: Tree)
    requires Finalisable(doc)
    ensures Acceptable(Syntax(doc))
  {
    hide Valid, CompactTree, Syntax, Proper, Clean, Numbers, Height, Nodes;
    TextIsUtf8(doc);
    StrictSyntax(doc);
    PlainSyntax(doc);
  }

  lemma DocumentReceived(doc: Tree, client: nat)
    requires Finalisable(doc)
    ensures ReceivedField(client, true, Syntax(doc)) == JsonRecord(doc, client)
  {
    hide Valid, Proper, Clean, Numbers, Height, Nodes, OutputRun, Trace, Text;
    var v := Syntax(doc);
    TraceStats(v, 1);
    OutputRunExact(BEGIN_JSON, client, 0, Trace(v, 1));
    assert [] + Text(v) == Text(v);
  }

  lemma JsonMerged(doc: Tree, client: nat)
    requires |CompactTree(doc)| <= OUTPUT_MAX_BYTES
    ensures var o := JsonOf(doc);
            var received := JsonRecord(doc, client);
            && Consistent(ClaimFor(o)) && Agrees(received, ClaimFor(o))
            && Adopted(received, ClaimFor(o)) == received
  {
    hide CompactTree;
  }

  /** In the text of the frame the raw document is the document. */
  lemma RawInFrame(base: TKids, doc: Tree, rest: TKids)
    ensures Frame(base, JsonOf(doc), rest)
         == CompactTree(TComp(true, Append(base, TCons(OUTPUT_JSON, doc, Tail(JsonOf(doc), rest)))))
  {
    hide KidsText, StatusKids, Append, OUTPUT_JSON, OUTPUT_TEXT;
    var raw := TRaw(CompactTree(doc));
    assert CompactTree(raw) == CompactTree(doc);
    SameText(base, OUTPUT_JSON, raw, doc, Tail(JsonOf(doc), rest));
  }

  /** JSON, end to end. A document the server finalises arrives byte for byte at every
      client whose limit it fits, and as discarded, with no fragment of it, at every other;
      its length is known in both cases. */
  lemma JsonEndToEnd(num: Bytes -> Double, doc: Tree, client: nat, base: TKids, rest: TKids)
    requires Finalisable(doc) && ReadsIntegers(num) && Statistics(base, JsonOf(doc), rest)
    ensures ClientRecord(num, Frame(base, JsonOf(doc), rest), client) == JsonRecord(doc, client)
  {
    hide Statistics, ClientRecord, ReadsIntegers, ReceivedField, Acceptable, CompactTree, JsonRecord, Syntax, Frame,
      Adopted, Agrees, Consistent, ClaimFor, OUTPUT_TEXT, OUTPUT_JSON, Tail, Proper, Clean, Numbers, Valid;
    JsonMerged(doc, client);
    DocumentIsAcceptable(doc);
    DocumentReceived(doc, client);
    RawInFrame(base, doc, rest);
    RecordOfFrame(num, base, OUTPUT_JSON, doc, JsonOf(doc), rest, client);
  }

  // ---- Output that was given up ----

  lemma StatisticsAdmissible(base: TKids, o: Output, rest: TKids, g: Input)
    requires Statistics(base, o, rest) && g.allocText && g.allocJson
    ensures Admissible(g, Without(base, Tail(o, rest)))
  {
    hide CoreKids, KeysOk, UniqueOk, PlainKids, AllocOk, Text, WellFormedKids, Without, KidsHeight, KidsNodes,
      Outputless;
    AllAllocated(g, Without(base, Tail(o, rest)), false);
    CoreNodes(Without(base, Tail(o, rest)));
  }

  lemma {:induction false} OutputlessAppend(a: TKids, b: TKids)
    requires Outputless(a) && Outputless(b)
    ensures Outputless(Append(a, b))
  {
    hide IsOutputKey;
    if a.TCons? { OutputlessAppend(a.next, b); }
  }

  lemma PlainFrameIsRead(base: TKids, o: Output, rest: TKids, limit: nat)
    requires Statistics(base, o, rest)
    ensures var core := Without(base, Tail(o, rest));
            Reading(Arrival(CompactTree(TComp(true, Append(base, Tail(o, rest)))), NoError), limit, ALL)
            == Outcome(Some(Denote(CoreOf(core))), EMPTY_OUTPUT, NoError)
  {
    hide CoreOf, OutputOf, Root, Admissible, ParseText, Denote, CompactTree, IsOutputKey, WellFormedKids, Outputless,
      Tail, KeysOk, UniqueOk, PlainKids, KidsHeight, KidsNodes;
    var after := Tail(o, rest);
    var frame := TComp(true, Append(base, after));
    var g := Input(CompactTree(frame), NoError, limit, true, true);
    TailIsCore(o, rest);
    OutputlessAppend(base, after);
    StatisticsAdmissible(base, o, rest, g);
    NoOutput(limit, Append(base, after), false, EMPTY_OUTPUT);
    FrameParses(frame, Without(base, after));
  }

  /** Output the server gave up leaves no byte at the client, which learns the state and the
      reason. */
  lemma DiscardedEndToEnd(num: Bytes -> Double, o: Output, client: nat, base: TKids, rest: TKids)
    requires o.value == None && o.state in {Discarded, Invalid} && o.format != NoFormat && o.reason != NoReason
    requires ReadsIntegers(num) && Statistics(base, o, rest)
    ensures ClientRecord(num, Frame(base, o, rest), client)
         == Output(None, if SendsTotal(o) then o.observed else 0, o.state, o.format, o.reason, SendsTotal(o))
  {
    hide Statistics, Reading, ReadsIntegers, CoreOf, Denote, CompactTree, ClaimOf, Tail, Lookup;
    PlainFrameIsRead(base, o, rest, client);
    ClaimArrives(num, base, o, rest);
  }

  // ---- Every frame is accepted ----

  /** Valid text, or nothing kept. */
  predicate Collected(o: Output) {
    o.value.Some? ==> o.format == TextFormat && Valid(o.value.value)
  }

  lemma FrameIsAccepted(base: TKids, o: Output, rest: TKids, limit: nat)
    requires Statistics(base, o, rest) && Collected(o)
    ensures Reading(Arrival(Frame(base, o, rest), NoError), limit, ALL).tree.Some?
  {
    hide Statistics, Reading, Acceptable, CompactTree, Tail, Denote, CoreOf, Without, ReceivedField, Valid, OUTPUT_TEXT,
      OUTPUT_JSON;
    if o.value.Some? {
      TextIsAcceptable(o.value.value);
      FrameIsRead(base, OUTPUT_TEXT, TStr(o.value.value), o, rest, limit);
    } else {
      PlainFrameIsRead(base, o, rest, limit);
    }
  }

  lemma DocumentFrameIsAccepted(base: TKids, doc: Tree, rest: TKids, limit: nat)
    requires Statistics(base, JsonOf(doc), rest) && Finalisable(doc)
    ensures Reading(Arrival(Frame(base, JsonOf(doc), rest), NoError), limit, ALL).tree.Some?
  {
    hide Statistics, Reading, Acceptable, CompactTree, Tail, Denote, CoreOf, Without, ReceivedField, Frame, Finalisable,
      Syntax, OUTPUT_TEXT, OUTPUT_JSON;
    DocumentIsAcceptable(doc);
    RawInFrame(base, doc, rest);
    FrameIsRead(base, OUTPUT_JSON, doc, JsonOf(doc), rest, limit);
  }

  // ---- Every frame fits ----

  lemma {:induction false} ShortIsShorter(bs: Bytes)
    ensures |EscapeAll(true, bs)| <= |EscapeAll(false, bs)|
  {
    if bs != [] { ShortIsShorter(bs[1..]); }
  }

  lemma {:induction false} CoreLength(kids: TKids)
    requires Outputless(kids)
    ensures |KidsText(true, SyntaxKids(true, kids))| <= |KidsText(true, CoreKids(SyntaxKids(true, kids)))|
  {
    hide EscapeAll, IsOutputKey, Text;
    if kids.TCons? {
      ShortIsShorter(kids.key);
      CoreLength(kids.next);
    }
  }

  lemma {:induction false} InsertedLength(before: TKids, key: Bytes, val: Tree, after: TKids)
    ensures |KidsText(true, Inserted(before, key, val, after))|
         <= |KidsText(true, Without(before, after))| + |EscapeAll(true, key)| + 4 + |CompactTree(val)|
  {
    hide EscapeAll, Text;
    if before.TCons? { InsertedLength(before.next, key, val, after); }
  }

  /** The writer's buffer under an output limit. */
  function Capacity(limit: nat): nat {
    CORE_MAX_BYTES + 6 * limit + 1024 + 5
  }

  lemma OutputLength(v: Bytes)
    ensures |CompactTree(TRaw(v))| <= 6 * |v| && |CompactTree(TStr(v))| <= 2 + 6 * |v|
  {
    EscapeGrowth(true, v);
  }

  lemma NameLength()
    ensures |EscapeAll(true, OUTPUT_TEXT)| <= 108 && |EscapeAll(true, OUTPUT_JSON)| <= 108
  {
    EscapeGrowth(true, OUTPUT_TEXT);
    EscapeGrowth(true, OUTPUT_JSON);
  }

  /** A frame whose core is within its megabyte always fits the writer's buffer, which is
      within the frame limit. */
  lemma FrameFits(base: TKids, o: Output, rest: TKids, limit: nat)
    requires Statistics(base, o, rest) && Length(o) <= limit <= OUTPUT_MAX_BYTES
    ensures |Frame(base, o, rest)| + 2 <= Capacity(limit) && |Frame(base, o, rest)| <= FRAME_MAX_BYTES
  {
    hide Inserted, KidsText, CoreKids, WellFormedKids, KeysOk, UniqueOk, PlainKids, KidsHeight, KidsNodes,
      Outputless, Tail, EscapeAll;
    var after := Tail(o, rest);
    TailIsCore(o, rest);
    OutputlessAppend(base, after);
    CoreLength(Append(base, after));
    if o.value.Some? {
      var val := if o.format == JsonFormat then TRaw(o.value.value) else TStr(o.value.value);
      InsertedLength(base, OutputKey(o), val, after);
      OutputLength(o.value.value);
      NameLength();
      InsertedUnfold(base, OutputKey(o), val, after);
    }
  }

  lemma InsertedUnfold(before: TKids, key: Bytes, val: Tree, after: TKids)
    ensures Inserted(before, key, val, after) == SyntaxKids(true, Append(before, TCons(key, val, after)))
  {
  }

  // ---- The premises can be met ----

  /** At most `m` small members: what the status is made of. */
  predicate SmallMembers(kids: TKids, m: nat) {
    && CleanKids(kids) && Utf8Kids(true, kids)
    && KidsHeight(SyntaxKids(true, kids)) <= 1 && KidsNodes(SyntaxKids(true, kids)) <= m
    && |KidsText(true, SyntaxKids(true, kids))| <= 200 * m
  }

  lemma SmallMore(key: Bytes, n: nat, next: TKids, m: nat)
    requires SmallMembers(next, m) && n <= SAFE_INTEGER && |key| <= 20 && 0 !in key && Valid(key)
    ensures SmallMembers(TCons(key, TNum(Decimal(n)), next), m + 1)
  {
    hide Decimal, EscapeAll, Valid;
    DecimalIsToken(n);
    SafeIsShort(n);
    EscapeGrowth(true, key);
    var val := TNum(Decimal(n));
    var kids := TCons(key, val, next);
    assert Clean(val) && Utf8Tree(val) && Height(Syntax(val)) == 1 && Nodes(Syntax(val)) == 1;
    assert CleanKids(kids) && Utf8Kids(true, kids);
    var syntax := SyntaxKids(true, kids);
    assert syntax == KCons(Lit(EscapeAll(true, key), key), Num(Decimal(n)), SyntaxKids(true, next));
    MoreFront(true, next);
    assert |KeyText(true, syntax.key)| <= 6 * |key| + 3;
    assert KidsText(true, syntax) == KeyText(true, syntax.key) + Decimal(n) + MoreText(true, syntax.next);
  }

  lemma StatusKeysAreAscii()
    ensures Valid(VERSION) && Valid(STATE) && Valid(FORMAT) && Valid(REASON) && Valid(OBSERVED) && Valid(STATUS)
    ensures 0 !in VERSION && 0 !in STATE && 0 !in FORMAT && 0 !in REASON && 0 !in OBSERVED && 0 !in STATUS
  {
    AsciiIsValid(VERSION);
    AsciiIsValid(STATE);
    AsciiIsValid(FORMAT);
    AsciiIsValid(REASON);
    AsciiIsValid(OBSERVED);
    AsciiIsValid(STATUS);
  }

  lemma StatusIsSmall(o: Output)
    ensures SmallMembers(StatusKids(o), 5)
  {
    hide SmallMembers, Decimal, Valid;
    StatusKeysAreAscii();
    NothingIsSmall();
    var tail := if SendsTotal(o) then NumberMember(OBSERVED, o.observed) else TNil;
    if SendsTotal(o) { SmallMore(OBSERVED, o.observed, TNil, 0); }
    SmallMore(REASON, ReasonNumber(o.reason), tail, 1);
    var k3 := TCons(REASON, TNum(Decimal(ReasonNumber(o.reason))), tail);
    SmallMore(FORMAT, FormatNumber(o.format), k3, 2);
    var k2 := TCons(FORMAT, TNum(Decimal(FormatNumber(o.format))), k3);
    SmallMore(STATE, StateNumber(o.state), k2, 3);
    SmallMore(VERSION, 1, TCons(STATE, TNum(Decimal(StateNumber(o.state))), k2), 4);
  }

  lemma NothingIsSmall()
    ensures SmallMembers(TNil, 0) && SmallMembers(TNil, 1)
  {
  }

  /** Whatever the output, results that hold nothing but its status are statistics within
      the limits. */
  lemma StatisticsCanBeMet(o: Output)
    ensures Statistics(TNil, o, TNil)
  {
    hide Valid, EscapeAll, StatusKids, LitOk, Decimal, UniqueIndices, IsOutputKey, Syntax, Plain, WellFormed, Height,
      Nodes, Text;
    StatusKeysAreAscii();
    StatusIsCore();
    StatusMeasures(o);
    EscapedBody(true, true, STATUS);
    var status := Syntax(StatusTree(o));
    var core := Without(TNil, Tail(o, TNil));
    OnlyStatus(o);
    assert CoreKids(core) == KCons(Lit(EscapeAll(false, STATUS), STATUS), status, KNil);
    OneMember(Lit(EscapeAll(false, STATUS), STATUS), status);
    EscapeGrowth(false, STATUS);
    assert UniqueOk(KNil, {} + UniqueIndices(STATUS));
    assert WellFormedKids(true, true, core);
    assert KeysOk(core);
    assert UniqueOk(core, {});
    assert PlainKids(core, MAX_NUMBER);
    assert KidsHeight(core) <= MAX_DEPTH;
    assert KidsNodes(core) <= CORE_MAX_VALUES;
    assert |Text(CoreOf(core))| <= CORE_MAX_BYTES;
  }

  lemma OnlyStatus(o: Output)
    ensures Without(TNil, Tail(o, TNil)) == KCons(Lit(EscapeAll(true, STATUS), STATUS), Syntax(StatusTree(o)), KNil)
    ensures Outputless(TNil)
  {
    hide EscapeAll, StatusKids;
    assert SyntaxKids(true, TNil) == KNil;
  }

  lemma OneMember(key: Lit, v: Json)
    ensures |Text(Comp(true, KCons(key, v, KNil)))| == |key.raw| + |Text(v)| + 5
  {
    hide Text;
    OneMemberText(key, v);
  }

  lemma OneMemberText(key: Lit, v: Json)
    ensures Text(Comp(true, KCons(key, v, KNil))) == [123] + (KeyText(true, key) + Text(v) + []) + [125]
  {
    assert MoreText(true, KNil) == [];
    assert KidsText(true, KCons(key, v, KNil)) == KeyText(true, key) + Text(v) + MoreText(true, KNil);
  }

  lemma StatusMeasures(o: Output)
    ensures var v := Syntax(StatusTree(o));
            && WellFormed(true, v) && Plain(v, MAX_NUMBER)
            && Height(v) <= 2 && Nodes(v) <= 6 && |Text(v)| <= 1002
  {
    hide Valid, EscapeAll, StatusKids, LitOk, Decimal, KidsText, KidsHeight, KidsNodes, Proper, Numbers, SyntaxKids;
    StatusIsSmall(o);
    StatusIsProper(o);
    StrictSyntax(StatusTree(o));
    PlainSyntax(StatusTree(o));
  }
}
