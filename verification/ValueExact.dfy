/** Values and their members: the scanner's recursion against the grammar's. */
module ValueExact {
  import opened Utf8
  import opened Grammar
  import opened Placement
  import opened Scan
  import opened ScanExact

  /** The trace of a value entered at `depth`: an entry per value, and its
      whitespace-free text. */
  function Trace(v: Json, depth: nat): seq<Event>
    decreases v, 1
  {
    [Node(depth)] + TraceTail(v, depth)
  }

  function TraceTail(v: Json, depth: nat): seq<Event>
    decreases v, 0
  {
    match v
    case Comp(obj, kids) => [Out(Open(obj))] + (KidsTrace(obj, kids, depth + 1) + [Out(Close(obj))])
    case _ => Outs(Text(v))
  }

  function KidsTrace(obj: bool, kids: Kids, depth: nat): seq<Event>
    decreases kids, 0
  {
    match kids
    case KNil => []
    case KCons(key, val, next) =>
      Outs(KeyText(obj, key)) + Trace(val, depth) + MoreTrace(obj, next, depth)
  }

  function MoreTrace(obj: bool, kids: Kids, depth: nat): seq<Event>
    decreases kids, 1
  {
    if kids.KNil? then [] else [Out(COMMA)] + KidsTrace(obj, kids, depth)
  }

  /** `r` is what the trace does, ending at `e`, if `ok`. */
  predicate Traced(g: Input, s: St, r: St, ok: bool, evs: seq<Event>, e: nat) {
    && (r.err == NoError <==> ok && Run(g, s, evs).err == NoError)
    && (r.err == NoError ==> r == Run(g, s, evs).(pos := e))
  }

  lemma TracedTrans(g: Input, s: St, s1: St, r: St, ok1: bool, ok2: bool,
                    a: seq<Event>, b: seq<Event>, m: nat, e: nat)
    requires s.err == NoError
    requires Traced(g, s, s1, ok1, a, m)
    requires s1.err == NoError ==> Traced(g, s1, r, ok2, b, e)
    requires s1.err != NoError ==> r.err != NoError
    ensures Traced(g, s, r, ok1 && ok2, a + b, e)
  {
    hide Run;
    RunConcat(g, s, a, b);
    if s1.err == NoError { RunPos(g, Run(g, s, a), b, m); }
  }

  /** Moving over whitespace leaves the trace alone. */
  lemma TracedMove(g: Input, s: St, s1: St, r: St, ok: bool, evs: seq<Event>, e: nat)
    requires s1 == s.(pos := s1.pos)
    requires Traced(g, s1, r, ok, evs, e)
    ensures Traced(g, s, r, ok, evs, e)
  {
    hide Run;
    RunPos(g, s, evs, s1.pos);
  }

  lemma ExactTraced(g: Input, s: St, r: St, ok: bool, e: nat)
    requires Exact(g, s, r, ok, e)
    requires ok ==> s.pos <= e <= |g.t|
    ensures ok ==> Traced(g, s, r, true, Outs(g.t[s.pos..e]), e)
    ensures !ok ==> r.err != NoError
  {
    hide Run;
  }

  lemma RunOut(g: Input, s: St, b: Byte)
    ensures Outs([b]) == [Out(b)]
  {
  }

  lemma ExpectTraced(g: Input, s: St, b: Byte)
    requires Ready(g, s)
    ensures Traced(g, s, Expect(g, s, b), At(g.t, s.pos, b), [Out(b)], s.pos + 1)
  {
    hide Run, Adv, Expect;
    ExpectExact(g, s, b);
    if At(g.t, s.pos, b) {
      ExactTraced(g, s, Expect(g, s, b), true, s.pos + 1);
      assert g.t[s.pos..s.pos + 1] == [b];
      RunOut(g, s, b);
    }
  }

  // ---- The outcome of each production ----

  predicate ValueOutcome(g: Input, s: St, r: St, p: Parse, depth: nat) {
    && (p.NoParse? ==> r.err != NoError)
    && (p.Parse? ==> Traced(g, s, r, Plain(p.v, MAX_NUMBER), Trace(p.v, depth), p.end))
  }

  predicate KidsOutcome(g: Input, s: St, r: St, k: KidsParse, obj: bool, depth: nat) {
    && (k.NoKids? ==> r.err != NoError)
    && (k.KidsParse? ==>
          Traced(g, s, r, PlainKids(k.kids, MAX_NUMBER), KidsTrace(obj, k.kids, depth) + [Out(Close(obj))], k.end))
  }

  predicate MoreOutcome(g: Input, s: St, r: St, k: KidsParse, obj: bool, depth: nat) {
    && (k.NoKids? ==> r.err != NoError)
    && (k.KidsParse? ==>
          Traced(g, s, r, PlainKids(k.kids, MAX_NUMBER), MoreTrace(obj, k.kids, depth) + [Out(Close(obj))], k.end))
  }

  predicate KeyOutcome(g: Input, s: St, r: St, k: KeyParse, obj: bool) {
    && (k.NoKey? ==> r.err != NoError)
    && (k.KeyParse? ==> Traced(g, s, r, 0 !in k.key.val, Outs(KeyText(obj, k.key)), k.end))
  }

  /** A quoted string at the cursor, checked for NUL if it is a member name. */
  lemma StringTraced(g: Input, s: St, d: Dest)
    requires Ready(g, s) && (d.NoDest? || d.NestedKey?)
    ensures var b := StringBody(true, g.t, s.pos + 1);
            var r := String(g, s, d).s;
            && (!At(g.t, s.pos, QUOTE) || b.NoBody? ==> r.err != NoError)
            && (At(g.t, s.pos, QUOTE) && b.Body? ==>
                  Traced(g, s, r, d.NestedKey? ==> 0 !in Flat(b.items),
                         Outs(Quoted(LitOf(g.t, s.pos + 1, b).raw)), b.end))
  {
    hide Run, Adv, Expect, StringLoop, StringBody, Flat;
    var b := StringBody(true, g.t, s.pos + 1);
    var r := String(g, s, d).s;
    var s1 := Expect(g, s, QUOTE);
    ExpectExact(g, s, QUOTE);
    if At(g.t, s.pos, QUOTE) && b.Body? {
      BodyNul(g.t, s.pos + 1);
      var ok := d.NestedKey? ==> [0] !in b.items;
      if s1.err == NoError { StringLoopPlain(g, s1, d); }
      ExactTrans(g, s, s1, r, true, ok, s.pos + 1, b.end);
      ExactTraced(g, s, r, ok, b.end);
      QuotedSlice(g.t, s.pos, b);
    } else if s1.err == NoError {
      StringLoopPlain(g, s1, d);
    }
  }

  lemma QuotedSlice(t: Bytes, i: nat, b: Body)
    requires b.Body? && i + 1 < b.end <= |t| && t[i] == QUOTE && t[b.end - 1] == QUOTE
    ensures t[i..b.end] == Quoted(LitOf(t, i + 1, b).raw)
  {
  }

  lemma KeyExact(g: Input, s: St, obj: bool)
    requires Ready(g, s)
    ensures KeyOutcome(g, s, MemberKey(g, s, obj), ParseKey(true, g.t, s.pos, obj), obj)
  {
    hide Run, Adv, Expect, String, StringBody, Flat, Whitespace, SkipWs, Traced;
    var k := ParseKey(true, g.t, s.pos, obj);
    var r := MemberKey(g, s, obj);
    if !obj {
      NothingTraced(g, s);
    } else {
      StringTraced(g, s, NestedKey);
      var b := StringBody(true, g.t, s.pos + 1);
      var s1 := String(g, s, NestedKey).s;
      if At(g.t, s.pos, QUOTE) && b.Body? {
        var lit := LitOf(g.t, s.pos + 1, b);
        TracedPos(g, s, s1, 0 !in lit.val, Outs(Quoted(lit.raw)), b.end);
        if s1.err == NoError {
          WhitespaceReady(g, s1);
          var s2 := Whitespace(g, s1);
          ExpectTraced(g, s2, COLON);
          TracedMove(g, s1, s2, r, At(g.t, s2.pos, COLON), [Out(COLON)], s2.pos + 1);
          TracedEnd(g, s1, r, At(g.t, s2.pos, COLON), [Out(COLON)], s2.pos + 1);
        }
        KeyChain(g, s, s1, r, lit, b.end, SkipWs(g.t, b.end));
      }
    }
  }

  lemma NothingTraced(g: Input, s: St)
    requires s.err == NoError
    ensures Traced(g, s, s, true, Outs([]), s.pos)
  {
    assert Outs([]) == [];
  }

  lemma TracedPos(g: Input, s: St, r: St, ok: bool, evs: seq<Event>, e: nat)
    requires Traced(g, s, r, ok, evs, e)
    ensures r.err == NoError ==> ok && r.pos == e
  {
    hide Run;
  }

  lemma TracedEnd(g: Input, s: St, r: St, ok: bool, evs: seq<Event>, e: nat)
    requires Traced(g, s, r, ok, evs, e)
    ensures !ok ==> r.err != NoError
  {
    hide Run;
  }

  lemma KeyChain(g: Input, s: St, s1: St, r: St, lit: Lit, m: nat, j: nat)
    requires s.err == NoError && m <= j <= |g.t|
    requires Traced(g, s, s1, 0 !in lit.val, Outs(Quoted(lit.raw)), m)
    requires s1.err == NoError ==> Traced(g, s1, r, At(g.t, j, COLON), [Out(COLON)], j + 1)
    requires s1.err != NoError ==> r.err != NoError
    ensures At(g.t, j, COLON) ==> Traced(g, s, r, 0 !in lit.val, Outs(KeyText(true, lit)), j + 1)
    ensures !At(g.t, j, COLON) ==> r.err != NoError
  {
    hide Run;
    TracedTrans(g, s, s1, r, 0 !in lit.val, At(g.t, j, COLON), Outs(Quoted(lit.raw)), [Out(COLON)], m, j + 1);
    OutsConcat(Quoted(lit.raw), [COLON]);
    RunOut(g, s, COLON);
  }

  // ---- Values ----

  predicate TailOutcome(g: Input, s: St, r: St, p: Parse, depth: nat) {
    && (p.NoParse? ==> r.err != NoError)
    && (p.Parse? ==> Traced(g, s, r, Plain(p.v, MAX_NUMBER), TraceTail(p.v, depth), p.end))
  }

  lemma WordTraced(g: Input, s: St, w: Bytes)
    requires Ready(g, s)
    ensures WordAt(g.t, s.pos, w) ==> Traced(g, s, ExpectAll(g, s, w), true, Outs(w), s.pos + |w|)
    ensures !WordAt(g.t, s.pos, w) ==> ExpectAll(g, s, w).err != NoError
  {
    hide Run, Adv, ExpectAll;
    ExpectAllExact(g, s, w);
    ExactTraced(g, s, ExpectAll(g, s, w), WordAt(g.t, s.pos, w), s.pos + |w|);
  }

  lemma NumberTraced(g: Input, s: St)
    requires Ready(g, s)
    ensures var e := NumEnd(g.t, s.pos);
            && (e.NoEnd? ==> Number(g, s).err != NoError)
            && (e.End? ==> Traced(g, s, Number(g, s), e.at - s.pos <= MAX_NUMBER, Outs(g.t[s.pos..e.at]), e.at))
  {
    hide Run, Adv, Number, NumEnd;
    NumberExact(g, s);
    var e := NumEnd(g.t, s.pos);
    if e.End? && e.at - s.pos <= MAX_NUMBER {
      ExactTraced(g, s, Number(g, s), true, e.at);
    }
  }

  lemma {:induction false} BodyTraced(g: Input, s: St, depth: nat)
    requires Ready(g, s)
    ensures TailOutcome(g, s, ValueBody(g, s, depth, NoDest), ParseValueAt(true, g.t, s.pos), depth)
    decreases |g.t| - s.pos, 2
  {
    hide Run, Adv, ExpectAll, Number, NumEnd, String, StringBody, Compound, ParseKids, Traced, KidsTrace, Flat;
    PeekReady(g, s);
    var j := s.pos;
    if j < |g.t| {
      WordsByFirst(g.t, j);
      if g.t[j] == QUOTE {
        StringTraced(g, s, NoDest);
      } else if g.t[j] == 45 || Digit(g.t[j]) {
        NumberTraced(g, s);
      } else if g.t[j] == 116 {
        WordTraced(g, s, TRUE);
      } else if g.t[j] == 102 {
        WordTraced(g, s, FALSE);
      } else if g.t[j] == 110 {
        WordTraced(g, s, NULL);
      } else if g.t[j] == 91 || g.t[j] == 123 {
        CompoundTraced(g, s, depth, g.t[j] == 123);
      }
    }
  }

  lemma {:induction false} CompoundTraced(g: Input, s: St, depth: nat, obj: bool)
    requires Ready(g, s) && At(g.t, s.pos, Open(obj))
    ensures var k := ParseKids(true, g.t, s.pos + 1, obj);
            TailOutcome(g, s, Compound(g, s, depth, obj),
                        if k.NoKids? then NoParse else Parse(Comp(obj, k.kids), k.end), depth)
    decreases |g.t| - s.pos, 1
  {
    hide Run, Adv, Take, Expect, Whitespace, SkipWs, Members, ParseMembers, Traced;
    var k := ParseKids(true, g.t, s.pos + 1, obj);
    var r := Compound(g, s, depth, obj);
    var s1 := Take(g, s).s;
    OpenTraced(g, s, obj);
    if s1.err == NoError {
      WhitespaceReady(g, s1);
      var s2 := Whitespace(g, s1);
      PeekReady(g, s2);
      if At(g.t, s2.pos, Close(obj)) {
        ExpectTraced(g, s2, Close(obj));
        assert KidsTrace(obj, KNil, depth + 1) + [Out(Close(obj))] == [Out(Close(obj))];
      } else {
        MembersTraced(g, s2, depth, obj);
      }
      assert KidsOutcome(g, s2, r, k, obj, depth + 1);
      CompoundChain(g, s, s1, s2, r, k, depth, obj);
    } else if k.KidsParse? {
      CompoundChain(g, s, s1, s1, r, k, depth, obj);
    }
  }

  lemma OpenTraced(g: Input, s: St, obj: bool)
    requires Ready(g, s) && At(g.t, s.pos, Open(obj))
    ensures Traced(g, s, Take(g, s).s, true, [Out(Open(obj))], s.pos + 1)
    ensures Take(g, s).s.err == NoError ==> Take(g, s).s.pos == s.pos + 1
  {
    hide Run;
    ExpectTraced(g, s, Open(obj));
    TakeIsAdv(g, s);
  }

  lemma CompoundChain(g: Input, s: St, s1: St, s2: St, r: St, k: KidsParse, depth: nat, obj: bool)
    requires s.err == NoError
    requires Traced(g, s, s1, true, [Out(Open(obj))], s.pos + 1)
    requires s1.err == NoError ==> s2 == s1.(pos := s2.pos) && KidsOutcome(g, s2, r, k, obj, depth + 1)
    requires s1.err != NoError ==> r.err != NoError
    ensures k.KidsParse? ==>
              Traced(g, s, r, PlainKids(k.kids, MAX_NUMBER), TraceTail(Comp(obj, k.kids), depth), k.end)
  {
    hide Run, Traced, KidsTrace;
    if k.KidsParse? {
      var rest := KidsTrace(obj, k.kids, depth + 1) + [Out(Close(obj))];
      var ok := PlainKids(k.kids, MAX_NUMBER);
      if s1.err == NoError { TracedMove(g, s1, s2, r, ok, rest, k.end); }
      TracedTrans(g, s, s1, r, true, ok, [Out(Open(obj))], rest, s.pos + 1, k.end);
    }
  }

  lemma {:induction false} MembersTraced(g: Input, s: St, depth: nat, obj: bool)
    requires Ready(g, s)
    ensures KidsOutcome(g, s, Members(g, s, depth, obj), ParseMembers(true, g.t, s.pos, obj), obj, depth + 1)
    decreases |g.t| - s.pos, 7
  {
    hide Run, Traced, MemberKey, ParseKey, Value, ParseValue, More, ParseMore, KidsTrace, MoreTrace,
      Plain, PlainKids, KeyText, Outs, Trace, Close;
    var km := ParseMembers(true, g.t, s.pos, obj);
    var r := Members(g, s, depth, obj);
    var k := ParseKey(true, g.t, s.pos, obj);
    var s1 := MemberKey(g, s, obj);
    KeyExact(g, s, obj);
    if k.KeyParse? {
      TracedPos(g, s, s1, 0 !in k.key.val, Outs(KeyText(obj, k.key)), k.end);
      var p := ParseValue(true, g.t, k.end);
      var s2 := Value(g, s1, depth + 1, NoDest);
      if s1.err == NoError { ValueTraced(g, s1, depth + 1); }
      if p.Parse? {
        if s1.err == NoError { TracedPos(g, s1, s2, Plain(p.v, MAX_NUMBER), Trace(p.v, depth + 1), p.end); }
        var m := ParseMore(true, g.t, p.end, obj);
        if s2.err == NoError { MoreTraced(g, s2, depth, obj); }
        MemberChain(g, s, s1, s2, r, k, p, m, depth, obj);
      }
    }
  }

  lemma {:induction false} MoreTraced(g: Input, s: St, depth: nat, obj: bool)
    requires Ready(g, s)
    ensures MoreOutcome(g, s, More(g, s, depth, obj), ParseMore(true, g.t, s.pos, obj), obj, depth + 1)
    decreases |g.t| - s.pos, 5
  {
    hide Run, Traced, Expect, Whitespace, SkipWs, Members, ParseMembers, KidsTrace, PlainKids;
    var r := More(g, s, depth, obj);
    var j := SkipWs(g.t, s.pos);
    WhitespaceReady(g, s);
    var s1 := Whitespace(g, s);
    PeekReady(g, s1);
    if At(g.t, j, Close(obj)) {
      ExpectTraced(g, s1, Close(obj));
      TracedMove(g, s, s1, r, true, [Out(Close(obj))], j + 1);
      LastMember(g, s, r, j, depth, obj);
    } else {
      var s2 := Expect(g, s1, COMMA);
      ExpectTraced(g, s1, COMMA);
      TracedMove(g, s, s1, s2, At(g.t, j, COMMA), [Out(COMMA)], j + 1);
      TracedPos(g, s, s2, At(g.t, j, COMMA), [Out(COMMA)], j + 1);
      if At(g.t, j, COMMA) {
        var rest := ParseMembers(true, g.t, SkipWs(g.t, j + 1), obj);
        if s2.err == NoError {
          WhitespaceReady(g, s2);
          MembersTraced(g, Whitespace(g, s2), depth, obj);
        }
        NextMember(g, s, s2, Whitespace(g, s2), r, rest, j, depth, obj);
      }
    }
  }

  /** Name, value and the rest of one member. */
  lemma MemberChain(g: Input, s: St, s1: St, s2: St, r: St, k: KeyParse, p: Parse, m: KidsParse, depth: nat, obj: bool)
    requires s.err == NoError && k.KeyParse? && p.Parse?
    requires KeyOutcome(g, s, s1, k, obj)
    requires s1.err == NoError ==> ValueOutcome(g, s1, s2, p, depth + 1)
    requires s1.err != NoError ==> s2.err != NoError
    requires s2.err == NoError ==> MoreOutcome(g, s2, r, m, obj, depth + 1)
    requires s1.err != NoError || s2.err != NoError ==> r.err != NoError
    ensures KidsOutcome(g, s, r, if m.NoKids? then NoKids else KidsParse(KCons(k.key, p.v, m.kids), m.end),
                        obj, depth + 1)
  {
    hide Run, Traced, Trace, MoreTrace, Plain;
    var a := Outs(KeyText(obj, k.key));
    var b := Trace(p.v, depth + 1);
    var ok := Plain(p.v, MAX_NUMBER);
    TracedTrans(g, s, s1, s2, 0 !in k.key.val, ok, a, b, k.end, p.end);
    if m.KidsParse? {
      var c := MoreTrace(obj, m.kids, depth + 1) + [Out(Close(obj))];
      TracedTrans(g, s, s2, r, 0 !in k.key.val && ok, PlainKids(m.kids, MAX_NUMBER), a + b, c, p.end, m.end);
      assert KidsTrace(obj, KCons(k.key, p.v, m.kids), depth + 1) + [Out(Close(obj))] == a + b + c;
    }
  }

  lemma LastMember(g: Input, s: St, r: St, j: nat, depth: nat, obj: bool)
    requires Traced(g, s, r, true, [Out(Close(obj))], j + 1)
    ensures MoreOutcome(g, s, r, KidsParse(KNil, j + 1), obj, depth + 1)
  {
    hide Run, Traced;
    assert MoreTrace(obj, KNil, depth + 1) + [Out(Close(obj))] == [Out(Close(obj))];
  }

  lemma NextMember(g: Input, s: St, s1: St, s2: St, r: St, rest: KidsParse, j: nat, depth: nat, obj: bool)
    requires s.err == NoError
    requires Traced(g, s, s1, true, [Out(COMMA)], j + 1)
    requires s1.err == NoError ==> s2 == s1.(pos := s2.pos) && KidsOutcome(g, s2, r, rest, obj, depth + 1)
    requires s1.err != NoError ==> r.err != NoError
    requires rest.KidsParse? ==> rest.kids.KCons?
    ensures MoreOutcome(g, s, r, rest, obj, depth + 1)
  {
    hide Run, Traced, KidsTrace;
    if rest.KidsParse? {
      var ok := PlainKids(rest.kids, MAX_NUMBER);
      var c := KidsTrace(obj, rest.kids, depth + 1) + [Out(Close(obj))];
      if s1.err == NoError { TracedMove(g, s1, s2, r, ok, c, rest.end); }
      TracedTrans(g, s, s1, r, true, ok, [Out(COMMA)], c, j + 1, rest.end);
      assert MoreTrace(obj, rest.kids, depth + 1) + [Out(Close(obj))] == [Out(COMMA)] + c;
    }
  }

  /** A value: accepted exactly when the grammar has one here, its names are free of NUL,
      its numbers are short enough and its trace meets no limit; and then the scanner's
      state is the trace's, with the cursor behind the value. */
  lemma {:induction false} ValueTraced(g: Input, s: St, depth: nat)
    requires Ready(g, s)
    ensures ValueOutcome(g, s, Value(g, s, depth, NoDest), ParseValue(true, g.t, s.pos), depth)
    decreases |g.t| - s.pos, 4
  {
    hide Run, Adv, Whitespace, SkipWs, Traced, ValueBody, ParseValueAt, TraceTail, Enter;
    var p := ParseValue(true, g.t, s.pos);
    var r := Value(g, s, depth, NoDest);
    var s1 := Enter(g, s, depth);
    EnterTraced(g, s, depth);
    if s1.err == NoError {
      WhitespaceReady(g, s1);
      var s2 := Whitespace(g, s1);
      BodyTraced(g, s2, depth);
      if p.Parse? {
        TracedMove(g, s1, s2, r, Plain(p.v, MAX_NUMBER), TraceTail(p.v, depth), p.end);
      }
    }
    if p.Parse? {
      TracedTrans(g, s, s1, r, true, Plain(p.v, MAX_NUMBER), [Node(depth)], TraceTail(p.v, depth), s.pos, p.end);
    }
  }

  lemma EnterTraced(g: Input, s: St, depth: nat)
    requires s.err == NoError
    ensures Traced(g, s, Enter(g, s, depth), true, [Node(depth)], s.pos)
  {
    assert [Node(depth)][1..] == [];
    assert Run(g, s, [Node(depth)]) == Run(g, Enter(g, s, depth), []);
  }
}
