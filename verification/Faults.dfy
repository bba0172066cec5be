/** Where the errors of the bounded reader come from, and the reason the caller is told. */
module Faults {
  import opened Utf8
  import opened Grammar
  import opened Scan
  import opened RootExact
  import opened ResultReader
  import opened BoundedReader

  /** `r` is the error there was, malformed input, a limit, memory that is not there, or the
      error that ended the delivery. */
  predicate Cause(g: Input, s: Errno, r: Errno) {
    || r == s || r == Eproto || r == Efbig
    || (r == Enomem && !(g.allocText && g.allocJson))
    || (r == g.fault && g.fault != NoError)
  }

  // ---- Characters and strings ----

  lemma PeekFault(g: Input, s: St)
    ensures Cause(g, s.err, Peek(g, s).s.err)
  {
  }

  lemma TakeFault(g: Input, s: St)
    ensures Cause(g, s.err, Take(g, s).s.err)
  {
  }

  lemma ExpectFault(g: Input, s: St, b: Byte)
    ensures Cause(g, s.err, Expect(g, s, b).err)
  {
    hide Take;
    TakeFault(g, s);
  }

  lemma {:induction false} ExpectAllFault(g: Input, s: St, w: Bytes)
    ensures Cause(g, s.err, ExpectAll(g, s, w).err)
    decreases |w|
  {
    hide Expect;
    if w != [] && s.err == NoError {
      ExpectFault(g, s, w[0]);
      ExpectAllFault(g, Expect(g, s, w[0]), w[1..]);
    }
  }

  lemma {:induction false} WhitespaceFault(g: Input, s: St)
    ensures Cause(g, s.err, Whitespace(g, s).err)
    decreases |g.t| - s.pos
  {
    PeekFault(g, s);
    var p := Peek(g, s);
    if Space(p.c) { WhitespaceFault(g, p.s.(pos := p.s.pos + 1)); }
  }

  lemma HexFault(g: Input, r: Read)
    ensures Cause(g, r.s.err, TakeHexDigit(g, r).s.err)
  {
    hide Take;
    TakeFault(g, r.s);
  }

  lemma TakeHexFault(g: Input, s: St)
    ensures Cause(g, s.err, TakeHex(g, s).s.err)
  {
    hide TakeHexDigit;
    var r1 := TakeHexDigit(g, Read(0, s));
    var r2 := TakeHexDigit(g, r1);
    HexFault(g, Read(0, s));
    HexFault(g, r1);
    HexFault(g, r2);
    HexFault(g, TakeHexDigit(g, r2));
  }

  lemma LowSurrogateFault(g: Input, s: St, high: nat)
    requires 0xD800 <= high <= 0xDBFF
    ensures Cause(g, s.err, TakeLowSurrogate(g, s, high).s.err)
  {
    hide Expect, TakeHex;
    ExpectFault(g, s, 92);
    ExpectFault(g, Expect(g, s, 92), 117);
    TakeHexFault(g, Expect(g, Expect(g, s, 92), 117));
  }

  lemma EscapeFault(g: Input, s: St)
    ensures Cause(g, s.err, TakeEscape(g, s).s.err)
  {
    hide Take, TakeHex, TakeLowSurrogate;
    TakeFault(g, s);
    var q := Take(g, s).s;
    TakeHexFault(g, q);
    var h := TakeHex(g, q);
    if 0xD800 <= h.n <= 0xDBFF { LowSurrogateFault(g, h.s, h.n); }
  }

  lemma {:induction false} ContFault(g: Input, s: St, k: nat, acc: nat)
    requires k <= 3
    ensures Cause(g, s.err, TakeCont(g, s, k, acc).s.err)
    decreases k
  {
    hide Take;
    if k > 0 {
      TakeFault(g, s);
      var q := Take(g, s);
      if 0x80 <= q.c <= 0xBF { ContFault(g, q.s, k - 1, Push6(acc, q.c - 0x80)); }
    }
  }

  lemma ScalarFault(g: Input, s: St, c: int)
    requires 0x20 <= c < 256
    ensures Cause(g, s.err, TakeScalar(g, s, c).s.err)
  {
    hide TakeEscape, TakeCont;
    EscapeFault(g, s);
    if 0x80 <= c && 2 <= Width(c) {
      ContFault(g, s, Width(c) - 1, if Width(c) == 2 then c - 0xC0 else if Width(c) == 3 then c - 0xE0 else c - 0xF0);
    }
  }

  lemma DeliverFault(g: Input, s: St, d: Dest, e: Bytes)
    ensures Cause(g, s.err, Deliver(g, s, d, e).s.err)
  {
  }

  lemma {:induction false} StringLoopFault(g: Input, s: St, d: Dest)
    ensures Cause(g, s.err, StringLoop(g, s, d).s.err)
    decreases |g.t| - s.pos
  {
    hide Take, TakeScalar, Deliver, Encode;
    if s.err == NoError {
      TakeFault(g, s);
      var q := Take(g, s);
      if 0x20 <= q.c && q.c != QUOTE {
        ScalarFault(g, q.s, q.c);
        var n := TakeScalar(g, q.s, q.c);
        if n.s.err == NoError {
          DeliverFault(g, n.s, d, Encode(n.n));
          var v := Deliver(g, n.s, d, Encode(n.n));
          if v.s.err == NoError { StringLoopFault(g, v.s, v.d); }
        }
      }
    }
  }

  lemma StringFault(g: Input, s: St, d: Dest)
    ensures Cause(g, s.err, String(g, s, d).s.err)
  {
    hide Expect, StringLoop;
    ExpectFault(g, s, QUOTE);
    StringLoopFault(g, Expect(g, s, QUOTE), d);
  }

  // ---- Numbers ----

  lemma {:induction false} DigitsFault(g: Input, s: St, count: nat)
    ensures Cause(g, s.err, TakeDigits(g, s, count).s.err)
    decreases |g.t| - s.pos, s.err == NoError
  {
    hide Take, Peek;
    TakeFault(g, s);
    var q := Take(g, s);
    PeekFault(g, q.s);
    var p := Peek(g, q.s);
    if count + 1 <= MAX_NUMBER && Digit(p.c) { DigitsFault(g, p.s, count + 1); }
  }

  lemma NumberIntFault(g: Input, s: St)
    ensures Cause(g, s.err, NumberInt(g, s).s.err)
  {
    hide Take, Peek, TakeDigits;
    PeekFault(g, s);
    var p := Peek(g, s);
    TakeFault(g, p.s);
    var m := if p.c == 45 then Read(1, Take(g, p.s).s) else Read(0, p.s);
    PeekFault(g, m.s);
    var q := Peek(g, m.s).s;
    TakeFault(g, q);
    DigitsFault(g, q, m.n);
  }

  lemma NumberFracFault(g: Input, s: St, count: nat)
    ensures Cause(g, s.err, NumberFrac(g, s, count).s.err)
  {
    hide Take, Peek, TakeDigits;
    PeekFault(g, s);
    TakeFault(g, Peek(g, s).s);
    var t := Take(g, Peek(g, s).s).s;
    PeekFault(g, t);
    DigitsFault(g, Peek(g, t).s, count + 1);
  }

  lemma NumberExpFault(g: Input, s: St, count: nat)
    ensures Cause(g, s.err, NumberExp(g, s, count).s.err)
  {
    hide Take, Peek, TakeDigits;
    PeekFault(g, s);
    var p := Peek(g, s);
    TakeFault(g, p.s);
    var t := Take(g, p.s).s;
    PeekFault(g, t);
    var q := Peek(g, t);
    TakeFault(g, q.s);
    var m := if q.c == 43 || q.c == 45 then Read(count + 2, Take(g, q.s).s) else Read(count + 1, q.s);
    PeekFault(g, m.s);
    DigitsFault(g, Peek(g, m.s).s, m.n);
  }

  lemma NumberFault(g: Input, s: St)
    ensures Cause(g, s.err, Number(g, s).err)
  {
    hide NumberInt, NumberFrac, NumberExp;
    NumberIntFault(g, s);
    var n := NumberInt(g, s);
    NumberFracFault(g, n.s, n.n);
    var f := NumberFrac(g, n.s, n.n);
    NumberExpFault(g, f.s, f.n);
  }

  // ---- Values ----

  lemma EnterFault(g: Input, s: St, depth: nat)
    ensures Cause(g, s.err, Enter(g, s, depth).err)
  {
  }

  lemma {:induction false} ValueFault(g: Input, s: St, depth: nat, d: Dest)
    requires s.pos <= |g.t|
    ensures Cause(g, s.err, Value(g, s, depth, d).err)
    decreases |g.t| - s.pos, 4
  {
    hide Enter, Whitespace, ValueBody;
    EnterFault(g, s, depth);
    var s1 := Enter(g, s, depth);
    if s1.err == NoError {
      WhitespaceFault(g, s1);
      ValueBodyFault(g, Whitespace(g, s1), depth, d);
    }
  }

  lemma {:induction false} ValueBodyFault(g: Input, s: St, depth: nat, d: Dest)
    requires s.pos <= |g.t|
    ensures Cause(g, s.err, ValueBody(g, s, depth, d).err)
    decreases |g.t| - s.pos, 2
  {
    hide Peek, String, Number, ExpectAll, Compound;
    PeekFault(g, s);
    var p := Peek(g, s);
    StringFault(g, p.s, d);
    NumberFault(g, p.s);
    ExpectAllFault(g, p.s, TRUE);
    ExpectAllFault(g, p.s, FALSE);
    ExpectAllFault(g, p.s, NULL);
    CompoundFault(g, p.s, depth, p.c == 123);
  }

  lemma {:induction false} CompoundFault(g: Input, s: St, depth: nat, obj: bool)
    requires s.pos <= |g.t|
    ensures Cause(g, s.err, Compound(g, s, depth, obj).err)
    decreases |g.t| - s.pos, 1
  {
    hide Take, Whitespace, Peek, Expect, Members;
    TakeFault(g, s);
    var s1 := Take(g, s).s;
    if s1.err == NoError {
      WhitespaceFault(g, s1);
      PeekFault(g, Whitespace(g, s1));
      var p := Peek(g, Whitespace(g, s1)).s;
      ExpectFault(g, p, Close(obj));
      MembersFault(g, p, depth, obj);
    }
  }

  lemma MemberKeyFault(g: Input, s: St, obj: bool)
    ensures Cause(g, s.err, MemberKey(g, s, obj).err)
  {
    hide String, Whitespace, Expect;
    StringFault(g, s, NestedKey);
    var k := String(g, s, NestedKey).s;
    WhitespaceFault(g, k);
    ExpectFault(g, Whitespace(g, k), COLON);
  }

  lemma {:induction false} MembersFault(g: Input, s: St, depth: nat, obj: bool)
    requires s.pos <= |g.t|
    ensures Cause(g, s.err, Members(g, s, depth, obj).err)
    decreases |g.t| - s.pos, 7
  {
    hide MemberKey, Value, More;
    MemberKeyFault(g, s, obj);
    var s1 := MemberKey(g, s, obj);
    ValueFault(g, s1, depth + 1, NoDest);
    var s2 := Value(g, s1, depth + 1, NoDest);
    if s2.err == NoError { MoreFault(g, s2, depth, obj); }
  }

  lemma {:induction false} MoreFault(g: Input, s: St, depth: nat, obj: bool)
    requires s.pos <= |g.t|
    ensures Cause(g, s.err, More(g, s, depth, obj).err)
    decreases |g.t| - s.pos, 5
  {
    hide Whitespace, Peek, Expect, Members;
    WhitespaceFault(g, s);
    PeekFault(g, Whitespace(g, s));
    var p := Peek(g, Whitespace(g, s));
    ExpectFault(g, p.s, Close(obj));
    ExpectFault(g, p.s, COMMA);
    var s1 := Expect(g, p.s, COMMA);
    if s1.err == NoError {
      WhitespaceFault(g, s1);
      MembersFault(g, Whitespace(g, s1), depth, obj);
    }
  }

  // ---- Top level ----

  lemma {:induction false} EmitAllFault(g: Input, s: St, bs: Bytes)
    ensures Cause(g, s.err, EmitAll(g, s, bs).err)
    decreases |bs|
  {
    if bs != [] && s.err == NoError { EmitAllFault(g, Emit(g, s, bs[0]), bs[1..]); }
  }

  lemma OutputFieldFault(g: Input, s: St, json: bool)
    requires s.pos <= |g.t|
    ensures Cause(g, s.err, OutputField(g, s, json).err)
  {
    hide Peek, Value;
    var s1 := BeginOutput(g, s, json);
    PeekFault(g, s1);
    var p := Peek(g, s1);
    var valid := p.c == if json then 123 else 34;
    var s2 := if valid then p.s
              else p.s.(out := DiscardOutput(p.s.out, Invalid, InvalidData).(observedComplete := false));
    ValueFault(g, s2.(capture := if json && valid then OutputJson else Discard), 1,
               if !json && valid then OutText else NoDest);
  }

  lemma FieldFault(g: Input, s: St, key: Bytes, first: bool, seenJson: bool)
    requires s.pos <= |g.t|
    ensures Cause(g, s.err, Field(g, s, key, first, seenJson).err)
  {
    hide OutputField, Value, EmitAll, EqNoCase, CoreKeyText;
    OutputFieldFault(g, s, EqNoCase(key, OUTPUT_JSON));
    ValueFault(g, s, 1, NoDest);
    var text := (if first then [] else [COMMA]) + CoreKeyText(key);
    EmitAllFault(g, s.(capture := Core), text);
    ValueFault(g, EmitAll(g, s.(capture := Core), text), 1, NoDest);
  }

  lemma {:induction false} FieldsFault(g: Input, s: St, seen: set<nat>, first: bool, seenJson: bool)
    requires s.pos <= |g.t|
    ensures Cause(g, s.err, Fields(g, s, seen, first, seenJson).err)
    decreases |g.t| - s.pos, 1
  {
    hide String, Expect, Whitespace, Field, MoreFields, EqNoCase, UniqueIndices;
    StringFault(g, s, RootKey([]));
    var k := String(g, s, RootKey([]));
    if k.s.err == NoError && UniqueIndices(k.d.key) * seen == {} {
      WhitespaceFault(g, k.s);
      ExpectFault(g, Whitespace(g, k.s), COLON);
      var s1 := Expect(g, Whitespace(g, k.s), COLON);
      WhitespaceFault(g, s1);
      var w := Whitespace(g, s1);
      if w.err == NoError {
        FieldFault(g, w, k.d.key, first, seenJson);
        var s2 := Field(g, w, k.d.key, first, seenJson);
        if s2.err == NoError {
          MoreFieldsFault(g, s2.(capture := Discard), seen + UniqueIndices(k.d.key),
                          first && IsOutputKey(k.d.key), seenJson || EqNoCase(k.d.key, OUTPUT_JSON));
        }
      }
    }
  }

  lemma {:induction false} MoreFieldsFault(g: Input, s: St, seen: set<nat>, first: bool, seenJson: bool)
    requires s.pos <= |g.t|
    ensures Cause(g, s.err, MoreFields(g, s, seen, first, seenJson).err)
    decreases |g.t| - s.pos, 2
  {
    hide Whitespace, Peek, Expect, Fields;
    WhitespaceFault(g, s);
    PeekFault(g, Whitespace(g, s));
    var p := Peek(g, Whitespace(g, s)).s;
    ExpectFault(g, p, COMMA);
    var s1 := Expect(g, p, COMMA);
    if s1.err == NoError {
      WhitespaceFault(g, s1);
      FieldsFault(g, Whitespace(g, s1), seen, first, seenJson);
    }
  }

  lemma FinishFault(g: Input, s: St)
    ensures Cause(g, s.err, Finish(g, s).err)
  {
    hide Expect, Whitespace, Peek;
    ExpectFault(g, s, 125);
    var s2 := Emit(g, Expect(g, s, 125).(capture := Core), 125).(capture := Discard);
    WhitespaceFault(g, s2);
    PeekFault(g, Whitespace(g, s2));
  }

  lemma RootFault(g: Input)
    ensures Cause(g, NoError, Root(g, START).err)
  {
    hide Expect, Whitespace, Peek, Fields, Finish;
    WhitespaceFault(g, START);
    ExpectFault(g, Whitespace(g, START), 123);
    var s2 := Emit(g, Expect(g, Whitespace(g, START), 123).(capture := Core), 123).(capture := Discard);
    WhitespaceFault(g, s2);
    PeekFault(g, Whitespace(g, s2));
    if s2.pos <= |g.t| {
      var p := Peek(g, Whitespace(g, s2));
      FieldsFault(g, p.s, {}, true, false);
      FinishFault(g, if p.c == 125 then p.s else Fields(g, p.s, {}, true, false));
    }
  }

  // ---- What the caller is told ----

  /** The reason told for a frame that is rejected. Memory is blamed exactly when the error
      says so, malformed data likewise, and reading for everything else: a delivery that
      ended early, and a limit of the reader. With all of the frame there and memory enough
      it is malformed data or a limit. */
  lemma ReasonToldIs(d: Arrival, limit: nat, alloc: Allocations)
    requires alloc.core && Reading(d, limit, alloc).tree.None?
    ensures var r := Reading(d, limit, alloc);
            && r.output == Output(None, 0, Invalid, NoFormat, r.output.reason, false)
            && (r.output.reason == AllocationFailure <==> r.errno == Enomem)
            && (r.output.reason == InvalidData <==> r.errno == Eproto)
            && (r.output.reason == ReadFailure <==> r.errno != Enomem && r.errno != Eproto)
            && (r.errno == Enomem ==> !(alloc.text && alloc.json && alloc.tree) || d.fault == Enomem)
            && (r.errno in {Eproto, Efbig, Enomem} || (r.errno == d.fault && d.fault != NoError))
            && (d.fault == NoError && alloc.text && alloc.json && alloc.tree ==> r.errno in {Eproto, Efbig})
  {
    hide Root, Accepted, OutputOf, CoreOf, FrameKids;
    var g := Input(d.t, d.fault, limit, alloc.text, alloc.json);
    RootFault(g);
    if d.fault == NoError { RootIsExact(g); } else { RootNeedsAll(g); }
  }
}
