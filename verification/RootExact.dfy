/** The top level: which frames the reader accepts, and what it makes of them. */
module RootExact {
  import opened Order
  import opened Utf8
  import opened Grammar
  import opened Placement
  import opened Scan
  import opened ScanExact
  import opened ValueExact
  import opened TraceLimits
  import opened Delivery

  // ---- What a frame denotes ----

  /** The members that are not output, each name written again from its decoded bytes. */
  function CoreKids(kids: Kids): Kids {
    match kids
    case KNil => KNil
    case KCons(key, val, next) =>
      if IsOutputKey(key.val) then CoreKids(next)
      else KCons(Lit(EscapeAll(false, key.val), key.val), val, CoreKids(next))
  }

  /** The core of a frame: its object without the output members. */
  function CoreOf(kids: Kids): Json {
    Comp(true, CoreKids(kids))
  }

  const BEGIN_JSON := Output(Some([]), 0, Complete, JsonFormat, NoReason, true)

  function Unusable(format: Format): Output {
    Output(None, 0, Invalid, format, InvalidData, false)
  }

  /** The JSON output a receiver with `limit` reports for the value `v`. */
  function ReceivedJson(limit: nat, v: Json): Output {
    if v.Comp? && v.obj then OutputRun(BEGIN_JSON, limit, 0, Trace(v, 1)) else Unusable(JsonFormat)
  }

  function ReceivedField(limit: nat, json: bool, v: Json): Output {
    if json then ReceivedJson(limit, v)
    else if v.Str? then ReceivedText(limit, v.lit.val)
    else Unusable(TextFormat)
  }

  /** The output record after the members `kids`: JSON takes precedence over text. */
  function OutputOf(limit: nat, kids: Kids, seenJson: bool, o: Output): Output {
    match kids
    case KNil => o
    case KCons(key, val, next) =>
      var json := EqNoCase(key.val, OUTPUT_JSON);
      var o1 := if json || (EqNoCase(key.val, OUTPUT_TEXT) && !seenJson)
                then ReceivedField(limit, json, val) else o;
      OutputOf(limit, next, seenJson || json, o1)
  }

  // ---- When it is accepted ----

  predicate KeysOk(kids: Kids) {
    match kids
    case KNil => true
    case KCons(key, _, next) => 0 !in key.val && |key.val| <= MAX_KEY && KeysOk(next)
  }

  /** No protocol field occurs twice, whatever its case or escapes. */
  predicate UniqueOk(kids: Kids, seen: set<nat>) {
    match kids
    case KNil => true
    case KCons(key, _, next) =>
      UniqueIndices(key.val) * seen == {} && UniqueOk(next, seen + UniqueIndices(key.val))
  }

  /** The buffers of the output members can be allocated. */
  predicate AllocOk(g: Input, kids: Kids, seenJson: bool) {
    match kids
    case KNil => true
    case KCons(key, _, next) =>
      var json := EqNoCase(key.val, OUTPUT_JSON);
      && (json ==> g.allocJson)
      && (!json && EqNoCase(key.val, OUTPUT_TEXT) && !seenJson ==> g.allocText)
      && AllocOk(g, next, seenJson || json)
  }

  // ---- One member ----

  /** What one member adds to the core text. */
  function Piece(key: Bytes, v: Json, first: bool): Bytes {
    (if first then [] else [COMMA]) + CoreKeyText(key) + Text(v)
  }

  predicate FieldOk(g: Input, s: St, key: Bytes, v: Json, first: bool, seenJson: bool) {
    var json := EqNoCase(key, OUTPUT_JSON);
    var text := EqNoCase(key, OUTPUT_TEXT);
    && Plain(v, MAX_NUMBER)
    && Height(v) <= MAX_DEPTH
    && s.values + Nodes(v) <= MAX_VALUES
    && (!json && !text ==>
          && s.coreValues + Nodes(v) <= CORE_MAX_VALUES
          && |s.core| + |Piece(key, v, first)| <= CORE_MAX_BYTES)
    && (json ==> g.allocJson)
    && (!json && text && !seenJson ==> g.allocText)
  }

  function FieldSt(g: Input, s: St, key: Bytes, v: Json, first: bool, seenJson: bool): St {
    var json := EqNoCase(key, OUTPUT_JSON);
    var text := EqNoCase(key, OUTPUT_TEXT);
    var s1 := s.(values := s.values + Nodes(v), maxDepth := Max(s.maxDepth, Height(v)));
    if json || (text && !seenJson) then s1.(out := ReceivedField(g.limit, json, v))
    else if text then s1
    else s1.(core := s.core + Piece(key, v, first), coreValues := s.coreValues + Nodes(v))
  }

  /** Equal but for the two scratch fields that are reset before they are used again. */
  predicate Same(a: St, b: St) {
    a.(capture := Discard, outputValues := 0) == b.(capture := Discard, outputValues := 0)
  }

  predicate FieldOutcome(g: Input, s: St, r: St, p: Parse, key: Bytes, first: bool, seenJson: bool) {
    && (p.NoParse? ==> r.err != NoError)
    && (p.Parse? ==>
          && (r.err == NoError <==> FieldOk(g, s, key, p.v, first, seenJson))
          && (r.err == NoError ==> Same(r, FieldSt(g, s, key, p.v, first, seenJson).(pos := p.end))))
  }

  /** The cursor stands on a value, not on whitespace before it. */
  predicate AtValue(g: Input, s: St) {
    && Ready(g, s) && s.capture == Discard && InLimits(s)
    && SkipWs(g.t, s.pos) == s.pos
  }

  /** The first character of a value tells strings and objects from the rest. */
  lemma ShapeByFirst(t: Bytes, i: nat)
    requires i <= |t| && SkipWs(t, i) == i && ParseValue(true, t, i).Parse?
    ensures ParseValue(true, t, i).v.Str? <==> At(t, i, QUOTE)
    ensures ParseValue(true, t, i).v.Comp? && ParseValue(true, t, i).v.obj <==> At(t, i, 123)
  {
    hide StringBody, NumEnd, ParseKids, WordAt, SkipWs;
    assert ParseValue(true, t, i) == ParseValueAt(true, t, i);
    WordsByFirst(t, i);
  }

  lemma SkippedValue(g: Input, s: St)
    requires AtValue(g, s)
    ensures Ready(g, s) && InLimits(s)
    ensures CoreFieldDiscarded(g, s)
  {
    ValueTraced(g, s, 1);
    var p := ParseValue(true, g.t, s.pos);
    if p.Parse? {
      TraceStats(p.v, 1);
      RunDiscarded(g, s, Trace(p.v, 1));
    }
  }

  /** A value that is read and dropped. */
  predicate CoreFieldDiscarded(g: Input, s: St)
    requires Ready(g, s)
  {
    var p := ParseValue(true, g.t, s.pos);
    var r := Value(g, s, 1, NoDest);
    && (p.NoParse? ==> r.err != NoError)
    && (p.Parse? ==>
          && (r.err == NoError <==>
                Plain(p.v, MAX_NUMBER) && Height(p.v) <= MAX_DEPTH && s.values + Nodes(p.v) <= MAX_VALUES)
          && (r.err == NoError ==>
                r == s.(values := s.values + Nodes(p.v), maxDepth := Max(s.maxDepth, Height(p.v)), pos := p.end)))
  }

  lemma CoreFieldExact(g: Input, s: St, key: Bytes, first: bool, seenJson: bool)
    requires AtValue(g, s) && !IsOutputKey(key)
    ensures FieldOutcome(g, s, Field(g, s, key, first, seenJson), ParseValue(true, g.t, s.pos), key, first, seenJson)
  {
    hide Run, EmitAll, Value, ParseValue, Trace, CoreKeyText, EqNoCase, Plain, Nodes, Height, Text;
    var p := ParseValue(true, g.t, s.pos);
    var prefix := (if first then [] else [COMMA]) + CoreKeyText(key);
    var s0 := s.(capture := Core);
    var s1 := EmitAll(g, s0, prefix);
    var r := CoreField(g, s, first, key);
    EmitAllIsRun(g, s0, prefix);
    StatsOuts(prefix);
    RunCore(g, s0, Outs(prefix));
    if s1.err == NoError {
      ValueTraced(g, s1, 1);
      if p.Parse? {
        TraceStats(p.v, 1);
        RunCore(g, s1, Trace(p.v, 1));
        assert s.core + prefix + Text(p.v) == s.core + Piece(key, p.v, first);
      }
    }
  }

  lemma JsonFieldExact(g: Input, s: St, key: Bytes, first: bool, seenJson: bool)
    requires AtValue(g, s) && EqNoCase(key, OUTPUT_JSON)
    ensures FieldOutcome(g, s, Field(g, s, key, first, seenJson), ParseValue(true, g.t, s.pos), key, first, seenJson)
  {
    hide Run, Value, Trace, EqNoCase, Plain, Nodes, Height, ParseValue, OutputRun;
    var p := ParseValue(true, g.t, s.pos);
    var s1 := BeginOutput(g, s, true);
    if s1.err == NoError {
      PeekReady(g, s1);
      if At(g.t, s.pos, 123) {
        var s2 := s1.(capture := OutputJson);
        ValueTraced(g, s2, 1);
        if p.Parse? {
          TraceStats(p.v, 1);
          RunOutput(g, s2, Trace(p.v, 1));
          ShapeByFirst(g.t, s.pos);
        }
      } else {
        var s2 := s1.(out := Unusable(JsonFormat));
        SkippedValue(g, s2);
        if p.Parse? { ShapeByFirst(g.t, s.pos); }
      }
    }
  }

  lemma TextFieldExact(g: Input, s: St, key: Bytes, first: bool, seenJson: bool)
    requires AtValue(g, s) && EqNoCase(key, OUTPUT_TEXT) && !EqNoCase(key, OUTPUT_JSON)
    ensures FieldOutcome(g, s, Field(g, s, key, first, seenJson), ParseValue(true, g.t, s.pos), key, first, seenJson)
  {
    hide Run, Value, Trace, EqNoCase, ParseValue;
    var p := ParseValue(true, g.t, s.pos);
    if seenJson {
      SkippedValue(g, s);
    } else {
      var s1 := BeginOutput(g, s, false);
      if s1.err == NoError {
        PeekReady(g, s1);
        if At(g.t, s.pos, QUOTE) {
          TextValueExact(g, s1);
        } else {
          var s2 := s1.(out := Unusable(TextFormat));
          SkippedValue(g, s2);
          if p.Parse? { ShapeByFirst(g.t, s.pos); }
        }
      }
    }
  }

  /** A string value delivered to the textual output. */
  lemma TextValueExact(g: Input, s: St)
    requires AtValue(g, s) && At(g.t, s.pos, QUOTE)
    requires s.out == Output(Some([]), 0, Complete, TextFormat, NoReason, true)
    ensures var p := ParseValue(true, g.t, s.pos);
            var r := Value(g, s, 1, OutText);
            && (p.NoParse? ==> r.err != NoError)
            && (p.Parse? ==>
                  && p.v.Str?
                  && (r.err == NoError <==> s.values + 1 <= MAX_VALUES)
                  && (r.err == NoError ==>
                        r == s.(values := s.values + 1, maxDepth := Max(s.maxDepth, 1), pos := p.end,
                                out := ReceivedText(g.limit, p.v.lit.val))))
  {
    hide Run, StringLoop, StringBody, Flat, DeliverAll, ReceivedText, Adv;
    var s1 := Enter(g, s, 1);
    if s1.err == NoError {
      WhitespaceReady(g, s1);
      PeekReady(g, s1);
      ExpectExact(g, s1, QUOTE);
      AdvDiscard(g, s1, s.pos + 1);
      var s2 := s1.(pos := s.pos + 1);
      assert Expect(g, s1, QUOTE) == s2;
      StringLoopDelivers(g, s2, OutText);
      var b := StringBody(true, g.t, s.pos + 1);
      if b.Body? {
        BodyScalars(g.t, s.pos + 1);
        TextDelivered(g, s2, b.items);
        TextReceived(g.limit, b.items);
      }
    }
  }

  lemma FieldExact(g: Input, s: St, key: Bytes, first: bool, seenJson: bool)
    requires AtValue(g, s)
    ensures FieldOutcome(g, s, Field(g, s, key, first, seenJson), ParseValue(true, g.t, s.pos), key, first, seenJson)
  {
    hide Field, ParseValue, FieldOutcome, EqNoCase, AtValue;
    if EqNoCase(key, OUTPUT_JSON) {
      JsonFieldExact(g, s, key, first, seenJson);
    } else if EqNoCase(key, OUTPUT_TEXT) {
      TextFieldExact(g, s, key, first, seenJson);
    } else {
      CoreFieldExact(g, s, key, first, seenJson);
    }
  }

  // ---- All members ----

  /** What the members add to the core text. */
  function CoreTail(kids: Kids, first: bool): Bytes {
    var core := CoreKids(kids);
    if core.KNil? then [] else (if first then [] else [COMMA]) + KidsText(true, core)
  }

  predicate FieldsOk(g: Input, s: St, kids: Kids, seen: set<nat>, first: bool, seenJson: bool) {
    && KeysOk(kids)
    && UniqueOk(kids, seen)
    && PlainKids(kids, MAX_NUMBER)
    && KidsHeight(kids) <= MAX_DEPTH
    && s.values + KidsNodes(kids) <= MAX_VALUES
    && s.coreValues + KidsNodes(CoreKids(kids)) <= CORE_MAX_VALUES
    && |s.core| + |CoreTail(kids, first)| <= CORE_MAX_BYTES
    && AllocOk(g, kids, seenJson)
  }

  function FieldsSt(g: Input, s: St, kids: Kids, first: bool, seenJson: bool): St {
    s.(core := s.core + CoreTail(kids, first),
       values := s.values + KidsNodes(kids),
       coreValues := s.coreValues + KidsNodes(CoreKids(kids)),
       maxDepth := Max(s.maxDepth, KidsHeight(kids)),
       out := OutputOf(g.limit, kids, seenJson, s.out))
  }

  lemma CoreTailCons(key: Lit, v: Json, next: Kids, first: bool)
    ensures CoreTail(KCons(key, v, next), first)
         == if IsOutputKey(key.val) then CoreTail(next, first)
            else Piece(key.val, v, first) + CoreTail(next, false)
  {
    hide Text, EscapeAll, EqNoCase, KidsText, MoreText;
    if !IsOutputKey(key.val) {
      var core := CoreKids(next);
      var comma := if first then [] else [COMMA];
      CoreTextCons(key, v, core);
      assert comma + (CoreKeyText(key.val) + Text(v) + MoreText(true, core))
          == Piece(key.val, v, first) + MoreText(true, core);
      MoreIsTail(next);
    }
  }

  lemma CoreTextCons(key: Lit, v: Json, core: Kids)
    ensures KidsText(true, KCons(Lit(EscapeAll(false, key.val), key.val), v, core))
         == CoreKeyText(key.val) + Text(v) + MoreText(true, core)
  {
    hide Text, EscapeAll, MoreText;
  }

  lemma MoreIsTail(next: Kids)
    ensures MoreText(true, CoreKids(next)) == CoreTail(next, false)
  {
    hide CoreKids, KidsText;
  }

  /** One member after another. */
  lemma FieldsUnfold(g: Input, s: St, key: Lit, v: Json, next: Kids, seen: set<nat>, first: bool, seenJson: bool)
    requires InLimits(s)
    ensures var kids := KCons(key, v, next);
            var s1 := FieldSt(g, s, key.val, v, first, seenJson);
            var first1 := first && IsOutputKey(key.val);
            var json1 := seenJson || EqNoCase(key.val, OUTPUT_JSON);
            var here := 0 !in key.val && |key.val| <= MAX_KEY && UniqueIndices(key.val) * seen == {};
            && (FieldsOk(g, s, kids, seen, first, seenJson) <==>
                  && here && FieldOk(g, s, key.val, v, first, seenJson)
                  && FieldsOk(g, s1, next, seen + UniqueIndices(key.val), first1, json1))
            && FieldsSt(g, s, kids, first, seenJson) == FieldsSt(g, s1, next, first1, json1)
            && (FieldOk(g, s, key.val, v, first, seenJson) ==> InLimits(s1))
  {
    hide EqNoCase, UniqueIndices, FieldsOk, FieldsSt, FieldOk, FieldSt;
    FieldsOkUnfold(g, s, key, v, next, seen, first, seenJson);
    FieldsStUnfold(g, s, key, v, next, first, seenJson);
    if FieldOk(g, s, key.val, v, first, seenJson) { FieldStShape(g, s, key.val, v, first, seenJson); }
  }

  lemma FieldsOkOutput(g: Input, s: St, key: Lit, v: Json, next: Kids, seen: set<nat>, first: bool, seenJson: bool)
    requires InLimits(s) && IsOutputKey(key.val)
    ensures var kids := KCons(key, v, next);
            var s1 := FieldSt(g, s, key.val, v, first, seenJson);
            var first1 := first && IsOutputKey(key.val);
            var json1 := seenJson || EqNoCase(key.val, OUTPUT_JSON);
            var here := 0 !in key.val && |key.val| <= MAX_KEY && UniqueIndices(key.val) * seen == {};
            FieldsOk(g, s, kids, seen, first, seenJson) <==>
              && here && FieldOk(g, s, key.val, v, first, seenJson)
              && FieldsOk(g, s1, next, seen + UniqueIndices(key.val), first1, json1)
  {
    hide EqNoCase, UniqueIndices, CoreTail, Piece, ReceivedField, Plain, Text, Nodes, Height;
    CoreTailCons(key, v, next, first);
  }

  lemma FieldsOkCore(g: Input, s: St, key: Lit, v: Json, next: Kids, seen: set<nat>, first: bool, seenJson: bool)
    requires InLimits(s) && !IsOutputKey(key.val)
    ensures var kids := KCons(key, v, next);
            var s1 := FieldSt(g, s, key.val, v, first, seenJson);
            var first1 := first && IsOutputKey(key.val);
            var json1 := seenJson || EqNoCase(key.val, OUTPUT_JSON);
            var here := 0 !in key.val && |key.val| <= MAX_KEY && UniqueIndices(key.val) * seen == {};
            FieldsOk(g, s, kids, seen, first, seenJson) <==>
              && here && FieldOk(g, s, key.val, v, first, seenJson)
              && FieldsOk(g, s1, next, seen + UniqueIndices(key.val), first1, json1)
  {
    hide EqNoCase, UniqueIndices, CoreTail, Piece, ReceivedField, Plain, Text, Nodes, Height;
    CoreTailCons(key, v, next, first);
  }

  lemma FieldsOkUnfold(g: Input, s: St, key: Lit, v: Json, next: Kids, seen: set<nat>, first: bool, seenJson: bool)
    requires InLimits(s)
    ensures var kids := KCons(key, v, next);
            var s1 := FieldSt(g, s, key.val, v, first, seenJson);
            var first1 := first && IsOutputKey(key.val);
            var json1 := seenJson || EqNoCase(key.val, OUTPUT_JSON);
            var here := 0 !in key.val && |key.val| <= MAX_KEY && UniqueIndices(key.val) * seen == {};
            FieldsOk(g, s, kids, seen, first, seenJson) <==>
              && here && FieldOk(g, s, key.val, v, first, seenJson)
              && FieldsOk(g, s1, next, seen + UniqueIndices(key.val), first1, json1)
  {
    hide FieldsOk, FieldOk, FieldSt, EqNoCase, UniqueIndices;
    if IsOutputKey(key.val) {
      FieldsOkOutput(g, s, key, v, next, seen, first, seenJson);
    } else {
      FieldsOkCore(g, s, key, v, next, seen, first, seenJson);
    }
  }

  lemma FieldsStUnfold(g: Input, s: St, key: Lit, v: Json, next: Kids, first: bool, seenJson: bool)
    ensures FieldsSt(g, s, KCons(key, v, next), first, seenJson)
         == FieldsSt(g, FieldSt(g, s, key.val, v, first, seenJson), next, first && IsOutputKey(key.val),
                     seenJson || EqNoCase(key.val, OUTPUT_JSON))
  {
    hide EqNoCase, CoreTail, Piece, ReceivedField, Text, Nodes, Height;
    CoreTailCons(key, v, next, first);
    if !IsOutputKey(key.val) {
      assert s.core + (Piece(key.val, v, first) + CoreTail(next, false))
          == s.core + Piece(key.val, v, first) + CoreTail(next, false);
    }
  }

  /** A top-level name. */
  lemma RootKeyExact(g: Input, s: St)
    requires Ready(g, s) && s.capture == Discard
    ensures var b := StringBody(true, g.t, s.pos + 1);
            var r := String(g, s, RootKey([]));
            && (!At(g.t, s.pos, QUOTE) || b.NoBody? ==> r.s.err != NoError)
            && (At(g.t, s.pos, QUOTE) && b.Body? ==>
                  && (r.s.err == NoError <==> 0 !in Flat(b.items) && |Flat(b.items)| <= MAX_KEY)
                  && (r.s.err == NoError ==> r == Sent(s.(pos := b.end), RootKey(Flat(b.items)))))
  {
    hide Run, Adv, StringLoop, StringBody, Flat, DeliverAll;
    ExpectExact(g, s, QUOTE);
    if At(g.t, s.pos, QUOTE) {
      AdvDiscard(g, s, s.pos + 1);
      var s1 := s.(pos := s.pos + 1);
      assert Expect(g, s, QUOTE) == s1;
      StringLoopDelivers(g, s1, RootKey([]));
      var b := StringBody(true, g.t, s.pos + 1);
      if b.Body? {
        BodyScalars(g.t, s.pos + 1);
        KeyDelivered(g, s1, [], b.items);
        assert [] + Flat(b.items) == Flat(b.items);
      }
    }
  }

  lemma ExpectDiscarded(g: Input, s: St, b: Byte)
    requires Ready(g, s) && s.capture == Discard
    ensures Expect(g, s, b).err == NoError <==> At(g.t, s.pos, b)
    ensures At(g.t, s.pos, b) ==> Expect(g, s, b) == s.(pos := s.pos + 1)
  {
    hide Adv;
    ExpectExact(g, s, b);
    if At(g.t, s.pos, b) { AdvDiscard(g, s, s.pos + 1); }
  }

  predicate FieldsOutcome(g: Input, s: St, r: St, k: KidsParse, seen: set<nat>, first: bool, seenJson: bool) {
    && (k.NoKids? ==> r.err != NoError)
    && (k.KidsParse? ==>
          && 0 < k.end <= |g.t| && g.t[k.end - 1] == 125
          && (r.err == NoError <==> FieldsOk(g, s, k.kids, seen, first, seenJson))
          && (r.err == NoError ==> Same(r, FieldsSt(g, s, k.kids, first, seenJson).(pos := k.end - 1))
                                   && r.capture == Discard))
  }

  lemma {:induction false} FieldsExact(g: Input, s: St, seen: set<nat>, first: bool, seenJson: bool)
    requires Ready(g, s) && s.capture == Discard && InLimits(s)
    ensures FieldsOutcome(g, s, Fields(g, s, seen, first, seenJson),
                          ParseMembers(true, g.t, s.pos, true), seen, first, seenJson)
    decreases |g.t| - s.pos, 1
  {
    hide String, ParseKey, Field, ParseValue, Expect, Whitespace, SkipWs, EqNoCase, UniqueIndices,
      FieldsOk, FieldOk, FieldSt, FieldsSt, MoreFields, ParseMore;
    var km := ParseMembers(true, g.t, s.pos, true);
    var r := Fields(g, s, seen, first, seenJson);
    var k := ParseKey(true, g.t, s.pos, true);
    NameExact(g, s);
    if k.KeyParse? {
      var key := k.key.val;
      var here := 0 !in key && |key| <= MAX_KEY && UniqueIndices(key) * seen == {};
      var s2 := s.(pos := SkipWs(g.t, k.end));
      SkipWsTwice(g.t, k.end);
      ParseValueSkips(g.t, k.end);
      FieldExact(g, s2, key, first, seenJson);
      var p := ParseValue(true, g.t, k.end);
      if p.Parse? {
        FieldMoves(g, s, key, p.v, first, seenJson, s2.pos);
        if here && FieldOk(g, s, key, p.v, first, seenJson) {
          FieldsAfter(g, s, s2, k.key, p, seen, first, seenJson);
        } else if km.KidsParse? {
          FieldsUnfold(g, s, km.kids.key, km.kids.val, km.kids.next, seen, first, seenJson);
        }
      }
    }
  }

  /** A top-level name and its colon, with the cursor moved to the value. */
  lemma NameExact(g: Input, s: St)
    requires Ready(g, s) && s.capture == Discard
    ensures var k := ParseKey(true, g.t, s.pos, true);
            var r := String(g, s, RootKey([]));
            var s1 := Expect(g, Whitespace(g, r.s), COLON);
            && (r.s.err == NoError && k.NoKey? ==> s1.err != NoError)
            && (k.KeyParse? ==>
                  && (r.s.err == NoError <==> 0 !in k.key.val && |k.key.val| <= MAX_KEY)
                  && (r.s.err == NoError ==>
                        && r.d == RootKey(k.key.val)
                        && s1 == s.(pos := k.end)
                        && Whitespace(g, s1) == s.(pos := SkipWs(g.t, k.end))))
  {
    hide String, StringBody, Flat, Expect, Whitespace, SkipWs;
    var b := StringBody(true, g.t, s.pos + 1);
    RootKeyExact(g, s);
    if At(g.t, s.pos, QUOTE) && b.Body? {
      var s1 := s.(pos := b.end);
      var j := SkipWs(g.t, b.end);
      WhitespaceReady(g, s1);
      ExpectDiscarded(g, s1.(pos := j), COLON);
      if At(g.t, j, COLON) { WhitespaceReady(g, s.(pos := j + 1)); }
    }
  }

  lemma ParseValueSkips(t: Bytes, i: nat)
    requires i <= |t|
    ensures ParseValue(true, t, SkipWs(t, i)) == ParseValue(true, t, i)
  {
    SkipWsTwice(t, i);
  }

  lemma FieldMoves(g: Input, s: St, key: Bytes, v: Json, first: bool, seenJson: bool, e: nat)
    ensures FieldOk(g, s.(pos := e), key, v, first, seenJson) <==> FieldOk(g, s, key, v, first, seenJson)
    ensures FieldSt(g, s.(pos := e), key, v, first, seenJson) == FieldSt(g, s, key, v, first, seenJson).(pos := e)
  {
  }

  /** The rest of the members, once one is accepted. */
  lemma {:induction false} FieldsAfter(g: Input, s: St, s2: St, lit: Lit, p: Parse,
                                      seen: set<nat>, first: bool, seenJson: bool)
    requires Ready(g, s) && s.capture == Discard && InLimits(s)
    requires s.pos < s2.pos <= |g.t| && s2 == s.(pos := s2.pos)
    requires p.Parse? && s2.pos < p.end <= |g.t|
    requires FieldOk(g, s, lit.val, p.v, first, seenJson)
    requires 0 !in lit.val && |lit.val| <= MAX_KEY && UniqueIndices(lit.val) * seen == {}
    requires FieldOutcome(g, s2, Field(g, s2, lit.val, first, seenJson), p, lit.val, first, seenJson)
    ensures var f := Field(g, s2, lit.val, first, seenJson);
            var r := MoreFields(g, f.(capture := Discard), seen + UniqueIndices(lit.val),
                                first && IsOutputKey(lit.val), seenJson || EqNoCase(lit.val, OUTPUT_JSON));
            var m := ParseMore(true, g.t, p.end, true);
            var k := if m.NoKids? then NoKids else KidsParse(KCons(lit, p.v, m.kids), m.end);
            f.err == NoError && FieldsOutcome(g, s, r, k, seen, first, seenJson)
    decreases |g.t| - s.pos, 0
  {
    hide Field, EqNoCase, UniqueIndices, FieldsOk, FieldOk, FieldSt, FieldsSt, MoreFields, ParseMore;
    var key := lit.val;
    FieldMoves(g, s, key, p.v, first, seenJson, s2.pos);
    var f := Field(g, s2, key, first, seenJson).(capture := Discard);
    var s1 := FieldSt(g, s, key, p.v, first, seenJson);
    FieldStShape(g, s, key, p.v, first, seenJson);
    var seen1 := seen + UniqueIndices(key);
    var first1 := first && IsOutputKey(key);
    var json1 := seenJson || EqNoCase(key, OUTPUT_JSON);
    MoreFieldsExact(g, f, seen1, first1, json1);
    FieldsSame(g, f, s1, seen1, first1, json1);
    var m := ParseMore(true, g.t, p.end, true);
    if m.KidsParse? { FieldsUnfold(g, s, lit, p.v, m.kids, seen, first, seenJson); }
  }

  lemma {:induction false} MoreFieldsExact(g: Input, s: St, seen: set<nat>, first: bool, seenJson: bool)
    requires Ready(g, s) && s.capture == Discard && InLimits(s)
    ensures FieldsOutcome(g, s, MoreFields(g, s, seen, first, seenJson),
                          ParseMore(true, g.t, s.pos, true), seen, first, seenJson)
    decreases |g.t| - s.pos, 2
  {
    hide Expect, Whitespace, SkipWs, FieldsOk, FieldsSt, Fields, ParseMembers;
    var j := SkipWs(g.t, s.pos);
    var w := s.(pos := j);
    WhitespaceReady(g, s);
    PeekReady(g, w);
    if At(g.t, j, 125) {
      NoFields(g, s, seen, first, seenJson);
    } else {
      ExpectDiscarded(g, w, COMMA);
      if At(g.t, j, COMMA) {
        WhitespaceReady(g, s.(pos := j + 1));
        var s1 := s.(pos := SkipWs(g.t, j + 1));
        FieldsExact(g, s1, seen, first, seenJson);
        FieldsSame(g, s1, s, seen, first, seenJson);
      }
    }
  }

  lemma NoFields(g: Input, s: St, seen: set<nat>, first: bool, seenJson: bool)
    requires InLimits(s)
    ensures FieldsOk(g, s, KNil, seen, first, seenJson)
    ensures FieldsSt(g, s, KNil, first, seenJson) == s
  {
    assert s.core + [] == s.core;
  }

  lemma FieldStShape(g: Input, s: St, key: Bytes, v: Json, first: bool, seenJson: bool)
    requires FieldOk(g, s, key, v, first, seenJson) && InLimits(s)
    ensures var r := FieldSt(g, s, key, v, first, seenJson);
            r.err == s.err && r.capture == s.capture && InLimits(r)
  {
  }

  /** The outcome does not depend on the scratch fields or the cursor. */
  lemma FieldsSame(g: Input, a: St, b: St, seen: set<nat>, first: bool, seenJson: bool)
    requires Same(a, b.(pos := a.pos))
    ensures forall kids :: FieldsOk(g, a, kids, seen, first, seenJson) <==> FieldsOk(g, b, kids, seen, first, seenJson)
    ensures forall kids, e: nat :: Same(FieldsSt(g, a, kids, first, seenJson).(pos := e),
                                        FieldsSt(g, b, kids, first, seenJson).(pos := e))
  {
  }

  // ---- The whole frame ----

  /** What the limits demand of the members of an accepted frame. */
  predicate Admissible(g: Input, kids: Kids) {
    && KeysOk(kids)
    && UniqueOk(kids, {})
    && PlainKids(kids, MAX_NUMBER)
    && KidsHeight(kids) <= MAX_DEPTH
    && KidsNodes(kids) <= MAX_VALUES
    && KidsNodes(CoreKids(kids)) <= CORE_MAX_VALUES
    && |Text(CoreOf(kids))| <= CORE_MAX_BYTES
    && AllocOk(g, kids, false)
  }

  predicate Accepted(g: Input) {
    var p := ParseText(true, g.t);
    p.Parse? && p.v.Comp? && p.v.obj && Admissible(g, p.v.kids)
  }

  function FrameKids(t: Bytes): Kids {
    var p := ParseText(true, t);
    if p.Parse? && p.v.Comp? then p.v.kids else KNil
  }

  /** The state after the opening brace. */
  const OPENED := START.(core := [123])

  lemma OpenExact(g: Input)
    requires g.fault == NoError
    ensures var s1 := Expect(g, Whitespace(g, START.(capture := Discard)), 123);
            var j := SkipWs(g.t, 0);
            && (s1.err == NoError <==> At(g.t, j, 123))
            && (s1.err == NoError ==> s1 == START.(pos := j + 1))
    ensures Emit(g, START.(capture := Core), 123) == OPENED.(capture := Core)
  {
    WhitespaceReady(g, START);
    ExpectDiscarded(g, START.(pos := SkipWs(g.t, 0)), 123);
    assert [] + [123] == [123];
  }

  lemma FinishExact(g: Input, s: St)
    requires Ready(g, s) && s.capture == Discard && InLimits(s) && At(g.t, s.pos, 125)
    ensures var r := Finish(g, s);
            && (r.err == NoError <==> |s.core| < CORE_MAX_BYTES && SkipWs(g.t, s.pos + 1) == |g.t|)
            && (r.err == NoError ==> r == s.(core := s.core + [125], pos := |g.t|))
  {
    hide Expect, Whitespace, SkipWs;
    ExpectDiscarded(g, s, 125);
    var s1 := s.(pos := s.pos + 1);
    var s2 := Emit(g, s1.(capture := Core), 125);
    if s2.err == NoError {
      var s3 := s2.(capture := Discard);
      WhitespaceReady(g, s3);
      PeekReady(g, s3.(pos := SkipWs(g.t, s.pos + 1)));
    }
  }

  lemma ParseTextObject(t: Bytes)
    ensures var j := SkipWs(t, 0);
            var p := ParseText(true, t);
            var k := if At(t, j, 123) then ParseKids(true, t, j + 1, true) else NoKids;
            && (p.Parse? && p.v.Comp? && p.v.obj <==> k.KidsParse? && SkipWs(t, k.end) == |t|)
            && (p.Parse? && p.v.Comp? && p.v.obj ==> p.v == Comp(true, k.kids) && p.end == k.end)
  {
    hide ParseKids, SkipWs, StringBody, NumEnd, WordAt;
    var j := SkipWs(t, 0);
    assert ParseValue(true, t, 0) == ParseValueAt(true, t, j);
    if j < |t| { WordsByFirst(t, j); }
  }

  lemma AdmissibleIsFieldsOk(g: Input, kids: Kids)
    ensures Admissible(g, kids) <==>
              FieldsOk(g, OPENED, kids, {}, true, false) && 1 + |CoreTail(kids, true)| < CORE_MAX_BYTES
    ensures [123] + CoreTail(kids, true) + [125] == Text(CoreOf(kids))
  {
    hide KeysOk, UniqueOk, PlainKids, KidsHeight, KidsNodes, AllocOk, CoreKids;
    assert Text(CoreOf(kids)) == [123] + KidsText(true, CoreKids(kids)) + [125];
    assert [] + KidsText(true, CoreKids(kids)) == KidsText(true, CoreKids(kids));
  }

  /** The single-pass filter refines parse-then-filter. A frame that arrives whole is
      accepted exactly when it is the strict JSON text of an object whose members meet
      the limits; then the core holds the whitespace-free text of that object without its
      output members, in the same order and with the same decoded names, and the output
      record is the one its output members denote. */
  lemma RootIsExact(g: Input)
    requires g.fault == NoError
    ensures var r := Root(g, START);
            var kids := FrameKids(g.t);
            && (r.err == NoError <==> Accepted(g))
            && (r.err == NoError ==>
                  && r.core == Text(CoreOf(kids))
                  && r.out == OutputOf(g.limit, kids, false, EMPTY_OUTPUT)
                  && r.pos == |g.t|
                  && r.values == KidsNodes(kids)
                  && r.coreValues == KidsNodes(CoreKids(kids))
                  && r.maxDepth == KidsHeight(kids))
  {
    hide Fields, Finish, ParseMembers, FieldsOk, Admissible, CoreTail, Expect, Whitespace, SkipWs, Text, OutputOf,
      ParseText, Emit, CoreKids, KidsNodes, KidsHeight, Root;
    ParseTextObject(g.t);
    var j := SkipWs(g.t, 0);
    RootOpens(g);
    if At(g.t, j, 123) {
      var w := OPENED.(pos := SkipWs(g.t, j + 1));
      if At(g.t, w.pos, 125) {
        NoFields(g, OPENED, {}, true, false);
        FinishFields(g, w, KNil, w.pos);
      } else {
        FieldsExact(g, w, {}, true, false);
        FieldsSame(g, w, OPENED, {}, true, false);
        var k := ParseMembers(true, g.t, w.pos, true);
        var f := Fields(g, w, {}, true, false);
        if k.KidsParse? {
          AdmissibleIsFieldsOk(g, k.kids);
          if f.err == NoError { FinishFields(g, f, k.kids, k.end - 1); }
        }
      }
    }
  }

  /** The pass up to the first member. */
  lemma RootOpens(g: Input)
    requires g.fault == NoError
    ensures var j := SkipWs(g.t, 0);
            if At(g.t, j, 123) then
              var w := OPENED.(pos := SkipWs(g.t, j + 1));
              var f := Fields(g, w, {}, true, false);
              && Ready(g, w)
              && Root(g, START)
                 == if At(g.t, w.pos, 125) then Finish(g, w) else if f.err != NoError then f else Finish(g, f)
            else Root(g, START).err != NoError
  {
    hide Fields, Finish, Expect, Whitespace, SkipWs, Emit;
    OpenExact(g);
    var j := SkipWs(g.t, 0);
    if At(g.t, j, 123) {
      var s := OPENED.(pos := j + 1);
      EmitMoves(g, j + 1);
      WhitespaceReady(g, s);
      PeekReady(g, s.(pos := SkipWs(g.t, j + 1)));
    }
  }

  lemma EmitMoves(g: Input, e: nat)
    ensures Emit(g, START.(capture := Core, pos := e), 123) == OPENED.(capture := Core, pos := e)
  {
    assert [] + [123] == [123];
  }

  lemma FinishFields(g: Input, f: St, kids: Kids, e: nat)
    requires Ready(g, f) && f.capture == Discard && At(g.t, e, 125)
    requires Same(f, FieldsSt(g, OPENED, kids, true, false).(pos := e))
    requires FieldsOk(g, OPENED, kids, {}, true, false)
    ensures var r := Finish(g, f);
            && (r.err == NoError <==> Admissible(g, kids) && SkipWs(g.t, e + 1) == |g.t|)
            && (r.err == NoError ==>
                  && r.core == Text(CoreOf(kids))
                  && r.out == OutputOf(g.limit, kids, false, EMPTY_OUTPUT)
                  && r.pos == |g.t|
                  && r.values == KidsNodes(kids)
                  && r.coreValues == KidsNodes(CoreKids(kids))
                  && r.maxDepth == KidsHeight(kids))
  {
    hide CoreTail, OutputOf, Text, KidsNodes, KidsHeight, CoreKids, Finish, SkipWs, Admissible;
    AdmissibleIsFieldsOk(g, kids);
    FinishExact(g, f);
  }

  /** A frame that does not arrive whole is never accepted. */
  lemma RootNeedsAll(g: Input)
    requires g.fault != NoError
    ensures Root(g, START).err != NoError
  {
    hide Fields, Expect, Emit, Whitespace;
  }
}
