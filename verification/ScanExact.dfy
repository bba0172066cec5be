/** The single-pass scanner against the grammar: it accepts a value exactly when the
    reference parser does and the limits allow it, and its effect is that of feeding
    the whitespace-free text of the parsed value to the current capture. */
module ScanExact {
  import opened Utf8
  import opened Grammar
  import opened Scan

  // ---- Effects as traces ----

  /** What a value does to the state besides moving the cursor: it is entered at a
      depth, and its bytes are emitted. */
  datatype Event = Node(depth: nat) | Out(b: Byte)

  function Step(g: Input, s: St, ev: Event): (r: St)
    ensures r.pos == s.pos
    ensures s.err != NoError ==> r.err == s.err
  {
    match ev
    case Node(depth) => Enter(g, s, depth)
    case Out(b) => Emit(g, s, b)
  }

  function Run(g: Input, s: St, evs: seq<Event>): (r: St)
    ensures r.pos == s.pos
    ensures s.err != NoError ==> r == s
    decreases |evs|
  {
    if evs == [] || s.err != NoError then s else Run(g, Step(g, s, evs[0]), evs[1..])
  }

  function Outs(bs: Bytes): (evs: seq<Event>)
    ensures |evs| == |bs|
  {
    seq(|bs|, i requires 0 <= i < |bs| => Out(bs[i]))
  }

  lemma OutsConcat(a: Bytes, b: Bytes)
    ensures Outs(a + b) == Outs(a) + Outs(b)
  {
  }

  lemma {:induction false} RunConcat(g: Input, s: St, a: seq<Event>, b: seq<Event>)
    ensures Run(g, s, a + b) == Run(g, Run(g, s, a), b)
    decreases |a|
  {
    if a == [] {
      assert a + b == b;
    } else if s.err == NoError {
      assert (a + b)[1..] == a[1..] + b;
      RunConcat(g, Step(g, s, a[0]), a[1..], b);
    }
  }

  lemma {:induction false} RunPos(g: Input, s: St, evs: seq<Event>, e: nat)
    ensures Run(g, s.(pos := e), evs) == Run(g, s, evs).(pos := e)
    decreases |evs|
  {
    if evs != [] && s.err == NoError {
      assert Step(g, s.(pos := e), evs[0]) == Step(g, s, evs[0]).(pos := e);
      RunPos(g, Step(g, s, evs[0]), evs[1..], e);
    }
  }

  lemma {:induction false} EmitAllIsRun(g: Input, s: St, bs: Bytes)
    ensures EmitAll(g, s, bs) == Run(g, s, Outs(bs))
    decreases |bs|
  {
    if bs != [] && s.err == NoError {
      assert Outs(bs)[1..] == Outs(bs[1..]);
      EmitAllIsRun(g, Emit(g, s, bs[0]), bs[1..]);
    }
  }

  // ---- Contiguous text ----

  /** The state after taking every byte up to `e`. */
  function Adv(g: Input, s: St, e: nat): (r: St)
    requires s.pos <= e <= |g.t|
    ensures r.pos == e
    ensures s.err != NoError ==> r.err == s.err
  {
    Run(g, s, Outs(g.t[s.pos..e])).(pos := e)
  }

  lemma AdvTrans(g: Input, s: St, m: nat, e: nat)
    requires s.pos <= m <= e <= |g.t|
    ensures Adv(g, Adv(g, s, m), e) == Adv(g, s, e)
  {
    var a := g.t[s.pos..m];
    var b := g.t[m..e];
    assert g.t[s.pos..e] == a + b;
    OutsConcat(a, b);
    RunConcat(g, s, Outs(a), Outs(b));
    RunPos(g, Run(g, s, Outs(a)), Outs(b), m);
  }

  lemma AdvSelf(g: Input, s: St)
    requires s.pos <= |g.t|
    ensures Adv(g, s, s.pos) == s
  {
    assert g.t[s.pos..s.pos] == [];
  }

  /** Taking one byte. */
  lemma TakeIsAdv(g: Input, s: St)
    requires s.err == NoError && s.pos < |g.t|
    ensures Take(g, s).s == Adv(g, s, s.pos + 1)
    ensures Take(g, s).c == if Adv(g, s, s.pos + 1).err == NoError then g.t[s.pos] else -1
  {
    var b := g.t[s.pos];
    assert g.t[s.pos..s.pos + 1] == [b];
    var evs := Outs([b]);
    assert evs == [Out(b)] && evs[1..] == [];
    assert Run(g, s, evs) == Run(g, Emit(g, s, b), []);
    assert Emit(g, s.(pos := s.pos + 1), b) == Emit(g, s, b).(pos := s.pos + 1);
  }

  /** `r` is the outcome of scanning the bytes up to `e`, if `ok` says they are well formed. */
  predicate Exact(g: Input, s: St, r: St, ok: bool, e: nat) {
    && (r.err == NoError <==> ok && s.pos <= e <= |g.t| && Adv(g, s, e).err == NoError)
    && (r.err == NoError ==> r == Adv(g, s, e))
  }

  /** The preconditions every lemma here shares: all of the frame arrives. */
  predicate Ready(g: Input, s: St) {
    g.fault == NoError && s.err == NoError && s.pos <= |g.t|
  }

  lemma TakeExact(g: Input, s: St)
    requires Ready(g, s)
    ensures Exact(g, s, Take(g, s).s, s.pos < |g.t|, s.pos + 1)
    ensures Take(g, s).s.err == NoError ==> Take(g, s).c == g.t[s.pos]
  {
    if s.pos < |g.t| { TakeIsAdv(g, s); }
  }

  lemma ExpectExact(g: Input, s: St, b: Byte)
    requires Ready(g, s)
    ensures Exact(g, s, Expect(g, s, b), At(g.t, s.pos, b), s.pos + 1)
  {
    TakeExact(g, s);
  }

  /** Chains two outcomes. */
  lemma ExactTrans(g: Input, s: St, s1: St, r: St, ok1: bool, ok2: bool, m: nat, e: nat)
    requires s.err == NoError && s.pos <= m <= e
    requires Exact(g, s, s1, ok1, m)
    requires s1.err == NoError ==> Exact(g, s1, r, ok2, e)
    requires s1.err != NoError ==> r.err != NoError
    ensures Exact(g, s, r, ok1 && ok2, e)
  {
    if ok1 && ok2 && s.pos <= m && e <= |g.t| {
      AdvTrans(g, s, m, e);
    } else if s1.err == NoError && e <= |g.t| {
      AdvTrans(g, s, m, e);
    }
  }

  lemma {:induction false} ExpectAllExact(g: Input, s: St, w: Bytes)
    requires Ready(g, s)
    ensures Exact(g, s, ExpectAll(g, s, w), WordAt(g.t, s.pos, w), s.pos + |w|)
    decreases |w|
  {
    if w == [] {
      AdvSelf(g, s);
    } else {
      var s1 := Expect(g, s, w[0]);
      ExpectExact(g, s, w[0]);
      if s1.err == NoError {
        ExpectAllExact(g, s1, w[1..]);
        assert WordAt(g.t, s.pos, w) <==> At(g.t, s.pos, w[0]) && WordAt(g.t, s.pos + 1, w[1..]) by {
          WordSplit(g.t, s.pos, w);
        }
      }
      ExactTrans(g, s, s1, ExpectAll(g, s, w), At(g.t, s.pos, w[0]), WordAt(g.t, s.pos + 1, w[1..]),
                 s.pos + 1, s.pos + |w|);
      WordSplit(g.t, s.pos, w);
    }
  }

  lemma WordSplit(t: Bytes, i: nat, w: Bytes)
    requires w != []
    ensures WordAt(t, i, w) <==> At(t, i, w[0]) && WordAt(t, i + 1, w[1..])
  {
    if i + |w| <= |t| {
      assert t[i..i + |w|] == [t[i]] + t[i + 1..i + |w|];
      assert w == [w[0]] + w[1..];
    }
  }

  // ---- String elements ----

  /** A digit appended to the number `r` that ends at `r.s.pos`. */
  lemma HexDigitExact(g: Input, r: Read)
    requires Ready(g, r.s)
    ensures Exact(g, r.s, TakeHexDigit(g, r).s, HexAt(g.t, r.s.pos), r.s.pos + 1)
    ensures TakeHexDigit(g, r).s.err == NoError ==>
              HexAt(g.t, r.s.pos) && TakeHexDigit(g, r).n == PushHex(r.n, g.t[r.s.pos])
  {
    TakeExact(g, r.s);
  }

  predicate HexAt(t: Bytes, i: nat) {
    i < |t| && 0 <= Hex(t[i])
  }

  lemma HexExact(g: Input, s: St)
    requires Ready(g, s)
    ensures Exact(g, s, TakeHex(g, s).s, 0 <= Hex4(g.t, s.pos), s.pos + 4)
    ensures TakeHex(g, s).s.err == NoError ==> TakeHex(g, s).n == Hex4(g.t, s.pos)
  {
    hide Adv, Run, Emit, Take, TakeHexDigit, PushHex, Exact;
    var t, i := g.t, s.pos;
    var r1 := TakeHexDigit(g, Read(0, s));
    var r2 := TakeHexDigit(g, r1);
    var r3 := TakeHexDigit(g, r2);
    HexDigitExact(g, Read(0, s));
    HexNext(g, s, r1, HexAt(t, i), i + 1);
    HexNext(g, s, r2, HexAt(t, i) && HexAt(t, i + 1), i + 2);
    HexNext(g, s, r3, HexAt(t, i) && HexAt(t, i + 1) && HexAt(t, i + 2), i + 3);
  }

  /** One more digit after those up to `m`. */
  lemma HexNext(g: Input, s: St, r: Read, ok: bool, m: nat)
    requires Ready(g, s) && s.pos <= m && Exact(g, s, r.s, ok, m)
    ensures var q := TakeHexDigit(g, r);
            && Exact(g, s, q.s, ok && HexAt(g.t, m), m + 1)
            && (q.s.err == NoError ==> r.s.err == NoError && HexAt(g.t, m) && q.n == PushHex(r.n, g.t[m]))
  {
    hide Adv, Run, Emit, Take, TakeHexDigit, PushHex;
    if r.s.err == NoError { HexDigitExact(g, r); }
    ExactTrans(g, s, r.s, TakeHexDigit(g, r).s, ok, HexAt(g.t, m), m, m + 1);
  }

  /** The scalar `r` read is the one `c` says, up to its end. */
  predicate CodeExact(g: Input, s: St, r: Read, c: Code) {
    && Exact(g, s, r.s, c.Code?, if c.Code? then c.next else 0)
    && (r.s.err == NoError ==> r.n == c.n)
  }

  lemma LowSurrogateExact(g: Input, s: St, high: nat, i: nat)
    requires Ready(g, s) && s.pos == i + 6
    requires 0xD800 <= high <= 0xDBFF && Hex4(g.t, i + 2) == high
    ensures CodeExact(g, s, TakeLowSurrogate(g, s, high), UnicodeEscape(g.t, i))
  {
    hide Adv, Run, Emit, Hex4, Take, TakeHex, Expect;
    var r := TakeLowSurrogate(g, s, high);
    var s1 := Expect(g, Expect(g, s, 92), 117);
    var ok := At(g.t, i + 6, 92) && At(g.t, i + 7, 117);
    LowPrefixExact(g, s);
    if s1.err == NoError {
      HexExact(g, s1);
      ExactTrans(g, s, s1, TakeHex(g, s1).s, ok, 0 <= Hex4(g.t, i + 8), i + 8, i + 12);
    } else if i + 12 <= |g.t| {
      AdvTrans(g, s, i + 8, i + 12);
    }
  }

  lemma LowPrefixExact(g: Input, s: St)
    requires Ready(g, s)
    ensures Exact(g, s, Expect(g, Expect(g, s, 92), 117), At(g.t, s.pos, 92) && At(g.t, s.pos + 1, 117), s.pos + 2)
  {
    var s0 := Expect(g, s, 92);
    ExpectExact(g, s, 92);
    if s0.err == NoError { ExpectExact(g, s0, 117); }
    ExactTrans(g, s, s0, Expect(g, s0, 117), At(g.t, s.pos, 92), At(g.t, s.pos + 1, 117), s.pos + 1, s.pos + 2);
  }

  lemma EscapeExact(g: Input, s: St, i: nat)
    requires Ready(g, s) && s.pos == i + 1 && g.t[i] == BACKSLASH
    ensures CodeExact(g, s, TakeEscape(g, s), Escape(g.t, i))
  {
    hide Adv, Run, Emit, UnicodeEscape, Hex4, Take;
    var r := TakeEscape(g, s);
    var q := Take(g, s);
    var item := Escape(g.t, i);
    TakeExact(g, s);
    if q.s.err != NoError {
      if item.Code? { AdvTrans(g, s, i + 2, item.next); }
    } else if q.c == 117 {
      var h := TakeHex(g, q.s);
      HexExact(g, q.s);
      UnicodeEscapeExact(g, s, i);
    }
  }

  lemma UnicodeEscapeExact(g: Input, s: St, i: nat)
    requires Ready(g, s) && s.pos == i + 1 && g.t[i] == BACKSLASH
    requires Take(g, s).s.err == NoError && Take(g, s).c == 117
    ensures CodeExact(g, s, TakeEscape(g, s), UnicodeEscape(g.t, i))
  {
    hide Adv, Run, Emit, Hex4, Take, TakeHex;
    var r := TakeEscape(g, s);
    var q := Take(g, s);
    var item := UnicodeEscape(g.t, i);
    TakeExact(g, s);
    var h := TakeHex(g, q.s);
    HexExact(g, q.s);
    ExactTrans(g, s, q.s, h.s, true, 0 <= Hex4(g.t, i + 2), i + 2, i + 6);
    if h.s.err != NoError {
      assert r == h;
      if item.Code? { AdvTrans(g, s, i + 6, item.next); }
    } else if 0xD800 <= h.n <= 0xDBFF {
      LowSurrogateExact(g, h.s, h.n, i);
      if item.Code? {
        ExactTrans(g, s, h.s, r.s, true, true, i + 6, item.next);
      }
    }
  }

  predicate ContsAt(t: Bytes, i: nat, k: nat)
    decreases k
  {
    k == 0 || (i < |t| && Cont(t[i]) && ContsAt(t, i + 1, k - 1))
  }

  function ContsValue(t: Bytes, i: nat, k: nat, acc: nat): nat
    requires ContsAt(t, i, k)
    decreases k
  {
    if k == 0 then acc else ContsValue(t, i + 1, k - 1, Push6(acc, Six(t, i)))
  }

  lemma {:induction false} ContExact(g: Input, s: St, k: nat, acc: nat)
    requires Ready(g, s) && k <= 3
    ensures Exact(g, s, TakeCont(g, s, k, acc).s, ContsAt(g.t, s.pos, k), s.pos + k)
    ensures TakeCont(g, s, k, acc).s.err == NoError ==>
              ContsAt(g.t, s.pos, k) && TakeCont(g, s, k, acc).n == ContsValue(g.t, s.pos, k, acc)
    decreases k
  {
    hide Adv, Run, Emit, Take, Push6;
    if k == 0 {
      AdvSelf(g, s);
    } else {
      var q := Take(g, s);
      TakeExact(g, s);
      if q.s.err == NoError && 0x80 <= q.c <= 0xBF {
        ContExact(g, q.s, k - 1, Push6(acc, q.c - 0x80));
        ExactTrans(g, s, q.s, TakeCont(g, s, k, acc).s, true, ContsAt(g.t, s.pos + 1, k - 1), s.pos + 1, s.pos + k);
      } else if s.pos + k <= |g.t| {
        AdvTrans(g, s, s.pos + 1, s.pos + k);
      }
    }
  }

  function MultiStart(c: Byte): nat
    requires 2 <= Width(c)
  {
    if Width(c) == 2 then c - 0xC0 else if Width(c) == 3 then c - 0xE0 else c - 0xF0
  }

  /** The range check on the value is the second-byte rule of RFC 3629. */
  lemma MultibyteRange(t: Bytes, i: nat)
    requires i < |t| && 2 <= Width(t[i]) && ContsAt(t, i + 1, Width(t[i]) - 1)
    ensures var w := Width(t[i]);
            var n := ContsValue(t, i + 1, w - 1, MultiStart(t[i]));
            var minimum := if w == 2 then 0x80 else if w == 3 then 0x800 else 0x10000;
            && (ScalarAt(t, i) <==> minimum <= n && IsScalar(n))
            && (ScalarAt(t, i) ==> n == Decode(t, i))
  {
    var w := Width(t[i]);
    var a := MultiStart(t[i]);
    var n := ContsValue(t, i + 1, w - 1, a);
    var b := Six(t, i + 1);
    if w == 2 {
      assert n == ContsValue(t, i + 2, 0, Push6(a, b)) == Push6(a, b);
    } else if w == 3 {
      var c := Six(t, i + 2);
      assert n == ContsValue(t, i + 2, 1, Push6(a, b)) == ContsValue(t, i + 3, 0, Push6(Push6(a, b), c));
      assert n == a * 0x1000 + b * 0x40 + c;
    } else {
      var c := Six(t, i + 2);
      var d := Six(t, i + 3);
      assert n == ContsValue(t, i + 2, 2, Push6(a, b)) == ContsValue(t, i + 3, 1, Push6(Push6(a, b), c))
               == ContsValue(t, i + 4, 0, Push6(Push6(Push6(a, b), c), d));
      assert n == a * 0x40000 + b * 0x1000 + c * 0x40 + d;
    }
  }

  lemma ScalarNeedsConts(t: Bytes, i: nat)
    requires ScalarAt(t, i) && 2 <= Width(t[i])
    ensures ContsAt(t, i + 1, Width(t[i]) - 1)
  {
    var w := Width(t[i]);
    assert ContsAt(t, i + w, 0);
    assert ContsAt(t, i + w - 1, 1);
    if 3 <= w { assert ContsAt(t, i + w - 2, 2); }
  }

  lemma MultibyteExact(g: Input, s: St, i: nat)
    requires Ready(g, s) && s.pos == i + 1 && 0x80 <= g.t[i]
    ensures CodeExact(g, s, TakeMultibyte(g, s, g.t[i]),
                      if ScalarAt(g.t, i) then Code(Decode(g.t, i), i + Width(g.t[i])) else NoCode)
  {
    hide Adv, Run, Emit, Take, TakeCont, Decode, Push6, SecondOk, IsScalar;
    var c := g.t[i];
    var w := Width(c);
    if 2 <= w {
      ContExact(g, s, w - 1, MultiStart(c));
      if ContsAt(g.t, i + 1, w - 1) { MultibyteRange(g.t, i); }
      if ScalarAt(g.t, i) { ScalarNeedsConts(g.t, i); }
    }
  }

  /** One string element: the scalar the scanner decodes is, encoded again, the element
      the grammar has there. */
  lemma ItemExact(g: Input, s: St, i: nat)
    requires Ready(g, s) && s.pos == i + 1 && 0x20 <= g.t[i] && g.t[i] != QUOTE
    ensures var r := TakeScalar(g, s, g.t[i]);
            var item := StringItem(true, g.t, i);
            && Exact(g, s, r.s, item.Item?, if item.Item? then item.next else 0)
            && (r.s.err == NoError ==> Encode(r.n) == item.e)
  {
    hide Adv, Run, Emit, Take, Decode, TakeEscape, TakeMultibyte, Escape;
    if g.t[i] == BACKSLASH {
      EscapeExact(g, s, i);
    } else if g.t[i] < 0x80 {
      AdvSelf(g, s);
      assert ScalarAt(g.t, i);
    } else {
      MultibyteExact(g, s, i);
      if ScalarAt(g.t, i) { EncodeDecode(g.t, i); }
    }
  }

  // ---- Strings ----

  function EndOr0(b: Body): nat {
    if b.Body? then b.end else 0
  }

  /** A string whose decoded bytes go nowhere, or are only checked for NUL. */
  lemma {:induction false} StringLoopPlain(g: Input, s: St, d: Dest)
    requires Ready(g, s) && (d.NoDest? || d.NestedKey?)
    ensures var b := StringBody(true, g.t, s.pos);
            Exact(g, s, StringLoop(g, s, d).s, b.Body? && (d.NestedKey? ==> [0] !in b.items), EndOr0(b))
    decreases |g.t| - s.pos
  {
    hide Adv, Run, Emit, Take, TakeScalar, StringItem, Encode;
    var b := StringBody(true, g.t, s.pos);
    var q := Take(g, s);
    var r := StringLoop(g, s, d).s;
    TakeExact(g, s);
    if q.s.err != NoError {
      if b.Body? { AdvTrans(g, s, s.pos + 1, b.end); }
    } else if q.c != QUOTE && 0x20 <= q.c {
      var n := TakeScalar(g, q.s, q.c);
      var item := StringItem(true, g.t, s.pos);
      ItemExact(g, q.s, s.pos);
      if item.Item? {
        ExactTrans(g, s, q.s, n.s, true, true, s.pos + 1, item.next);
        var rest := StringBody(true, g.t, item.next);
        assert b.Body? ==> b.items == [item.e] + rest.items && b.end == rest.end;
        if n.s.err != NoError {
          if b.Body? { AdvTrans(g, s, item.next, b.end); }
        } else {
          var v := Deliver(g, n.s, d, Encode(n.n));
          if v.s.err == NoError {
            assert r == StringLoop(g, n.s, d).s;
            StringLoopPlain(g, n.s, d);
            if b.Body? {
              ExactTrans(g, s, n.s, r, true, d.NestedKey? ==> [0] !in rest.items, item.next, b.end);
            }
          }
        }
      }
    } else if q.c != QUOTE {
      ControlHasNoItem(g.t, s.pos);
    }
  }

  lemma ControlHasNoItem(t: Bytes, i: nat)
    requires i < |t| && t[i] < 0x20
    ensures StringItem(true, t, i).NoItem?
  {
  }

  /** Hands decoded elements to a destination one by one. */
  function DeliverAll(g: Input, s: St, d: Dest, items: seq<Bytes>): (r: Sent)
    ensures r.s.pos == s.pos
    decreases |items|
  {
    if items == [] || s.err != NoError then Sent(s, d)
    else
      var v := Deliver(g, s, d, items[0]);
      DeliverAll(g, v.s, v.d, items[1..])
  }

  lemma {:induction false} RunDiscard(g: Input, s: St, bs: Bytes)
    requires s.capture == Discard
    ensures Run(g, s, Outs(bs)) == s
    decreases |bs|
  {
    if bs != [] && s.err == NoError {
      assert Outs(bs)[1..] == Outs(bs[1..]);
      RunDiscard(g, s, bs[1..]);
    }
  }

  lemma AdvDiscard(g: Input, s: St, e: nat)
    requires s.capture == Discard && s.pos <= e <= |g.t|
    ensures Adv(g, s, e) == s.(pos := e)
  {
    RunDiscard(g, s, g.t[s.pos..e]);
  }

  lemma {:induction false} DeliverAllPos(g: Input, s: St, d: Dest, items: seq<Bytes>, e: nat)
    ensures DeliverAll(g, s.(pos := e), d, items)
         == Sent(DeliverAll(g, s, d, items).s.(pos := e), DeliverAll(g, s, d, items).d)
    decreases |items|
  {
    if items != [] && s.err == NoError {
      var v := Deliver(g, s, d, items[0]);
      assert Deliver(g, s.(pos := e), d, items[0]) == Sent(v.s.(pos := e), v.d);
      DeliverAllPos(g, v.s, v.d, items[1..], e);
    }
  }

  /** A string read while nothing is captured: all that matters is its destination. */
  lemma {:induction false} StringLoopDelivers(g: Input, s: St, d: Dest)
    requires Ready(g, s) && s.capture == Discard
    ensures var b := StringBody(true, g.t, s.pos);
            var r := StringLoop(g, s, d);
            && (r.s.err == NoError <==> b.Body? && DeliverAll(g, s, d, b.items).s.err == NoError)
            && (r.s.err == NoError ==> r == Sent(DeliverAll(g, s, d, b.items).s.(pos := b.end),
                                                 DeliverAll(g, s, d, b.items).d))
    decreases |g.t| - s.pos
  {
    hide Adv, Run, Emit, Take, TakeScalar, StringItem, Encode, Deliver;
    var b := StringBody(true, g.t, s.pos);
    var q := Take(g, s);
    var r := StringLoop(g, s, d);
    TakeExact(g, s);
    if s.pos < |g.t| { AdvDiscard(g, s, s.pos + 1); }
    if q.s.err == NoError && q.c != QUOTE {
      if q.c < 0x20 {
        ControlHasNoItem(g.t, s.pos);
      } else {
        var n := TakeScalar(g, q.s, q.c);
        var item := StringItem(true, g.t, s.pos);
        ItemExact(g, q.s, s.pos);
        if item.Item? {
          AdvDiscard(g, q.s, item.next);
          var rest := StringBody(true, g.t, item.next);
          assert b.Body? ==> b.items == [item.e] + rest.items && b.end == rest.end;
          assert b.Body? ==> b.items[0] == item.e && b.items[1..] == rest.items;
          var v := Deliver(g, n.s, d, item.e);
          DeliverMoves(g, s, d, item.e, item.next);
          if v.s.err == NoError {
            assert r == StringLoop(g, v.s, v.d);
            StringLoopDelivers(g, v.s, v.d);
            if rest.Body? {
              var w := Deliver(g, s, d, item.e);
              DeliverAllPos(g, w.s, w.d, rest.items, item.next);
              assert DeliverAll(g, s, d, b.items) == DeliverAll(g, w.s, w.d, rest.items);
            }
          }
        }
      }
    }
  }

  lemma DeliverMoves(g: Input, s: St, d: Dest, e: Bytes, next: nat)
    ensures Deliver(g, s.(pos := next), d, e)
         == Sent(Deliver(g, s, d, e).s.(pos := next), Deliver(g, s, d, e).d)
    ensures Deliver(g, s, d, e).s.capture == s.capture
  {
  }

  /** A decoded element holds a NUL only if it is the NUL element. */
  lemma ItemNul(t: Bytes, i: nat)
    requires i < |t| && StringItem(true, t, i).Item?
    ensures 0 in StringItem(true, t, i).e <==> StringItem(true, t, i).e == [0]
  {
    hide Decode, Escape;
    var e := StringItem(true, t, i).e;
    if t[i] == BACKSLASH {
      EncodeNul(Escape(t, i).n);
    } else {
      assert forall j :: 0 <= j < |e| ==> e[j] == t[i + j];
    }
  }

  lemma EncodeNul(n: nat)
    requires n <= 0x10FFFF
    ensures 0 in Encode(n) <==> Encode(n) == [0]
  {
  }

  lemma {:induction false} BodyNul(t: Bytes, i: nat)
    requires StringBody(true, t, i).Body?
    ensures [0] in StringBody(true, t, i).items <==> 0 in Flat(StringBody(true, t, i).items)
    decreases |t| - i
  {
    hide StringItem;
    var b := StringBody(true, t, i);
    if t[i] != QUOTE {
      var item := StringItem(true, t, i);
      var rest := StringBody(true, t, item.next);
      ItemNul(t, i);
      BodyNul(t, item.next);
      assert b.items[0] == item.e && b.items[1..] == rest.items;
      assert Flat(b.items) == item.e + Flat(rest.items);
      assert b.items == [item.e] + rest.items;
    }
  }

  // ---- Numbers ----

  lemma PeekReady(g: Input, s: St)
    requires Ready(g, s)
    ensures Peek(g, s) == Got(if s.pos < |g.t| then g.t[s.pos] else -1, s)
  {
  }

  lemma {:induction false} WhitespaceReady(g: Input, s: St)
    requires Ready(g, s)
    ensures Whitespace(g, s) == s.(pos := SkipWs(g.t, s.pos))
    decreases |g.t| - s.pos
  {
    if s.pos < |g.t| && Space(g.t[s.pos]) { WhitespaceReady(g, s.(pos := s.pos + 1)); }
  }

  lemma {:induction false} DigitsExact(g: Input, s: St, count: nat)
    requires Ready(g, s) && DigitAt(g.t, s.pos)
    ensures var e := SkipDigits(g.t, s.pos);
            var r := TakeDigits(g, s, count);
            && Exact(g, s, r.s, count + (e - s.pos) <= MAX_NUMBER, e)
            && (r.s.err == NoError ==> r.n == count + (e - s.pos))
    decreases |g.t| - s.pos
  {
    hide Adv, Run, Emit, Take;
    var e := SkipDigits(g.t, s.pos);
    var q := Take(g, s);
    var r := TakeDigits(g, s, count);
    TakeExact(g, s);
    assert e == SkipDigits(g.t, s.pos + 1);
    if q.s.err != NoError {
      AdvTrans(g, s, s.pos + 1, e);
    } else if count + 1 <= MAX_NUMBER {
      PeekReady(g, q.s);
      if DigitAt(g.t, s.pos + 1) {
        DigitsExact(g, q.s, count + 1);
        ExactTrans(g, s, q.s, r.s, true, count + (e - s.pos) <= MAX_NUMBER, s.pos + 1, e);
      } else {
        assert e == s.pos + 1;
      }
    }
  }

  function At0(e: End): nat {
    if e.End? then e.at else 0
  }

  /** A part of a number that starts at `i` and is read with `count` characters before it. */
  predicate PartExact(g: Input, s: St, r: Read, count: nat, e: End) {
    && (e.End? ==> s.pos <= e.at)
    && Exact(g, s, r.s, e.End? && count + (e.at - s.pos) <= MAX_NUMBER, At0(e))
    && (r.s.err == NoError ==> e.End? && s.pos <= e.at && r.n == count + (e.at - s.pos))
  }

  lemma UnsignedExact(g: Input, s: St, count: nat)
    requires Ready(g, s) && count <= 1
    ensures var q := Peek(g, s);
            var r := if q.c == 48 then Read(count + 1, Take(g, q.s).s)
                     else if !Digit(q.c) then Read(0, Fail(q.s, Eproto))
                     else TakeDigits(g, q.s, count);
            PartExact(g, s, r, count, IntEnd(g.t, s.pos))
  {
    hide Adv, Run, Emit, Take, TakeDigits;
    PeekReady(g, s);
    TakeExact(g, s);
    if DigitAt(g.t, s.pos) && g.t[s.pos] != 48 { DigitsExact(g, s, count); }
  }

  lemma IntExact(g: Input, s: St)
    requires Ready(g, s)
    ensures PartExact(g, s, NumberInt(g, s), 0, IntEnd(g.t, if At(g.t, s.pos, 45) then s.pos + 1 else s.pos))
  {
    hide Adv, Run, Emit, Take, TakeDigits, IntEnd;
    PeekReady(g, s);
    if At(g.t, s.pos, 45) {
      var e := IntEnd(g.t, s.pos + 1);
      var s1 := Take(g, s).s;
      TakeExact(g, s);
      if s1.err == NoError {
        UnsignedExact(g, s1, 1);
        if e.End? {
          ExactTrans(g, s, s1, NumberInt(g, s).s, true, 1 + (e.at - (s.pos + 1)) <= MAX_NUMBER, s.pos + 1, e.at);
        }
      } else if e.End? {
        AdvTrans(g, s, s.pos + 1, e.at);
      }
    } else {
      UnsignedExact(g, s, 0);
    }
  }

  lemma FracExact(g: Input, s: St, count: nat)
    requires Ready(g, s) && count <= MAX_NUMBER
    ensures PartExact(g, s, NumberFrac(g, s, count), count, FracEnd(g.t, s.pos))
  {
    hide Adv, Run, Emit, Take, TakeDigits;
    PeekReady(g, s);
    var e := FracEnd(g.t, s.pos);
    if !At(g.t, s.pos, 46) {
      AdvSelf(g, s);
    } else {
      var s1 := Take(g, s).s;
      TakeExact(g, s);
      if s1.err == NoError {
        PeekReady(g, s1);
        if DigitAt(g.t, s.pos + 1) {
          DigitsExact(g, s1, count + 1);
          ExactTrans(g, s, s1, NumberFrac(g, s, count).s, true,
                     count + 1 + (e.at - (s.pos + 1)) <= MAX_NUMBER, s.pos + 1, e.at);
        }
      } else if e.End? {
        AdvTrans(g, s, s.pos + 1, e.at);
      }
    }
  }

  lemma ExpDigitsExact(g: Input, s: St, count: nat)
    requires Ready(g, s)
    ensures var d := Peek(g, s);
            var r := if !Digit(d.c) then Read(0, Fail(d.s, Eproto)) else TakeDigits(g, d.s, count);
            PartExact(g, s, r, count, if DigitAt(g.t, s.pos) then End(SkipDigits(g.t, s.pos)) else NoEnd)
  {
    hide Adv, Run, Emit, Take, TakeDigits;
    PeekReady(g, s);
    if DigitAt(g.t, s.pos) { DigitsExact(g, s, count); }
  }

  /** The sign and digits of an exponent. */
  lemma ExpTailExact(g: Input, s: St, count: nat)
    requires Ready(g, s)
    ensures var q := Peek(g, s);
            var m := if q.c == 43 || q.c == 45 then Read(count + 1, Take(g, q.s).s) else Read(count, q.s);
            var d := Peek(g, m.s);
            var r := if !Digit(d.c) then Read(0, Fail(d.s, Eproto)) else TakeDigits(g, d.s, m.n);
            var j := if At(g.t, s.pos, 43) || At(g.t, s.pos, 45) then s.pos + 1 else s.pos;
            PartExact(g, s, r, count, if DigitAt(g.t, j) then End(SkipDigits(g.t, j)) else NoEnd)
  {
    hide Adv, Run, Emit, Take, TakeDigits;
    PeekReady(g, s);
    var i := s.pos;
    if At(g.t, i, 43) || At(g.t, i, 45) {
      var s1 := Take(g, s).s;
      TakeExact(g, s);
      if s1.err != NoError {
        if DigitAt(g.t, i + 1) { AdvTrans(g, s, i + 1, SkipDigits(g.t, i + 1)); }
      } else {
        ExpDigitsExact(g, s1, count + 1);
        if DigitAt(g.t, i + 1) {
          var e := SkipDigits(g.t, i + 1);
          var d := Peek(g, s1);
          ExactTrans(g, s, s1, TakeDigits(g, d.s, count + 1).s, true, count + 1 + (e - (i + 1)) <= MAX_NUMBER,
                     i + 1, e);
        }
      }
    } else {
      ExpDigitsExact(g, s, count);
    }
  }

  lemma ExpExact(g: Input, s: St, count: nat)
    requires Ready(g, s) && count <= MAX_NUMBER
    ensures PartExact(g, s, NumberExp(g, s, count), count, ExpEnd(g.t, s.pos))
  {
    hide Adv, Run, Emit, Take, TakeDigits;
    PeekReady(g, s);
    var i := s.pos;
    var e := ExpEnd(g.t, i);
    if !At(g.t, i, 101) && !At(g.t, i, 69) {
      AdvSelf(g, s);
    } else {
      var s1 := Take(g, s).s;
      TakeExact(g, s);
      if s1.err != NoError {
        if e.End? { AdvTrans(g, s, i + 1, e.at); }
      } else {
        ExpTailExact(g, s1, count + 1);
        if e.End? {
          var r := NumberExp(g, s, count);
          ExactTrans(g, s, s1, r.s, true, count + 1 + (e.at - (i + 1)) <= MAX_NUMBER, i + 1, e.at);
        }
      }
    }
  }

  /** Numbers: exactly those of RFC 8259 with at most 63 characters. */
  lemma NumberExact(g: Input, s: St)
    requires Ready(g, s)
    ensures var e := NumEnd(g.t, s.pos);
            Exact(g, s, Number(g, s), e.End? && e.at - s.pos <= MAX_NUMBER, At0(e))
  {
    hide Adv, Run, Emit, Take, TakeDigits, IntEnd, FracEnd, ExpEnd, NumberInt, NumberFrac, NumberExp;
    var e := NumEnd(g.t, s.pos);
    var r := Number(g, s);
    var ne := IntEnd(g.t, if At(g.t, s.pos, 45) then s.pos + 1 else s.pos);
    var n := NumberInt(g, s);
    IntExact(g, s);
    if n.s.err != NoError {
      if e.End? { AdvTrans(g, s, ne.at, e.at); }
    } else {
      var fe := FracEnd(g.t, ne.at);
      var f := NumberFrac(g, n.s, n.n);
      FracExact(g, n.s, n.n);
      if fe.End? {
        ExactTrans(g, s, n.s, f.s, true, n.n + (fe.at - ne.at) <= MAX_NUMBER, ne.at, fe.at);
      }
      if f.s.err != NoError {
        if e.End? { AdvTrans(g, s, fe.at, e.at); }
      } else {
        ExpExact(g, f.s, f.n);
        if e.End? {
          ExactTrans(g, s, f.s, r, true, f.n + (e.at - fe.at) <= MAX_NUMBER, fe.at, e.at);
        }
      }
    }
  }
}
