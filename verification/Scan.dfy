/** The bounded result reader as a function of what its input delivers: every
    operation of the single-pass scanner as a step on its state. The state holds
    no chunk boundary, so whatever is proved here cannot depend on one. */
module Scan {
  import opened Order
  import opened Utf8
  import opened Grammar

  const CORE_MAX_BYTES: nat := 1048576
  const OUTPUT_MAX_BYTES: nat := 1048576
  const FRAME_MAX_BYTES: nat := 67108864
  const MAX_DEPTH: nat := 64
  const CORE_MAX_VALUES: nat := 16384
  const MAX_VALUES: nat := 1048576
  const MAX_NUMBER: nat := 63
  const MAX_KEY: nat := 127

  datatype Errno = NoError | Eproto | Efbig | Enomem | Einval | Os(code: int)

  datatype Capture = Discard | Core | OutputJson

  datatype OutputState = Missing | Complete | Truncated | Discarded | Invalid
  datatype Format = NoFormat | TextFormat | JsonFormat
  datatype Reason =
    | NoReason | ByteLimit | NodeLimit | DepthLimit
    | InvalidData | AllocationFailure | ReadFailure

  datatype Option<T> = None | Some(value: T)

  /** The optional output a result frame carries, as the reader delivers it. */
  datatype Output = Output(
    value: Option<Bytes>, observed: nat, state: OutputState,
    format: Format, reason: Reason, observedComplete: bool)

  const EMPTY_OUTPUT := Output(None, 0, Missing, NoFormat, NoReason, false)

  function Length(o: Output): nat {
    match o.value
    case None => 0
    case Some(v) => |v|
  }

  /** What the reader is run against: the bytes its input delivers within the frame,
      the error that ends an incomplete delivery, the output limit, and whether the
      output buffers can be allocated. */
  datatype Input = Input(t: Bytes, fault: Errno, limit: nat, allocText: bool, allocJson: bool)

  datatype St = St(
    pos: nat, err: Errno, core: Bytes, capture: Capture, out: Output,
    values: nat, coreValues: nat, outputValues: nat, maxDepth: nat)

  const START := St(0, NoError, [], Discard, EMPTY_OUTPUT, 0, 0, 0, 0)

  /** A character (or -1) together with the state it leaves. */
  datatype Got = Got(c: int, s: St)

  /** Only the first error is kept. */
  function Fail(s: St, e: Errno): (r: St)
    requires e != NoError
    ensures r.err != NoError && r.pos == s.pos
    ensures s.err != NoError ==> r == s
  {
    if s.err == NoError then s.(err := e) else s
  }

  function Peek(g: Input, s: St): (r: Got)
    ensures r.s.pos == s.pos
    ensures s.err != NoError ==> r == Got(-1, s)
    ensures 0 <= r.c ==> s.pos < |g.t| && r.c == g.t[s.pos] && r.s == s && s.err == NoError
    ensures -1 <= r.c < 256
  {
    if s.err != NoError then Got(-1, s)
    else if s.pos < |g.t| then Got(g.t[s.pos], s)
    else if g.fault == NoError then Got(-1, s)
    else Got(-1, s.(err := g.fault))
  }

  /** Frees the retained output and records why. */
  function DiscardOutput(o: Output, state: OutputState, reason: Reason): Output {
    o.(value := None, state := state, reason := reason)
  }

  function EmitOutput(o: Output, limit: nat, b: Byte): Output {
    var o1 := o.(observed := o.observed + 1);
    if o1.state != Complete then o1
    else if Length(o1) == limit then DiscardOutput(o1, Discarded, ByteLimit)
    else o1.(value := Some((if o1.value.Some? then o1.value.value else []) + [b]))
  }

  function Emit(g: Input, s: St, b: Byte): (r: St)
    ensures r.pos == s.pos
    ensures s.err != NoError ==> r.err == s.err
  {
    match s.capture
    case Discard => s
    case Core => if |s.core| == CORE_MAX_BYTES then Fail(s, Efbig) else s.(core := s.core + [b])
    case OutputJson => s.(out := EmitOutput(s.out, g.limit, b))
  }

  function Take(g: Input, s: St): (r: Got)
    ensures s.pos <= r.s.pos <= s.pos + 1
    ensures s.pos <= |g.t| ==> r.s.pos <= |g.t|
    ensures s.err != NoError ==> r == Got(-1, s)
    ensures 0 <= r.c ==> s.pos < |g.t| && r.c == g.t[s.pos] && r.s.pos == s.pos + 1 && r.s.err == NoError
    ensures r.s.err == NoError ==> 0 <= r.c
    ensures -1 <= r.c < 256
  {
    var p := Peek(g, s);
    if p.c < 0 then Got(-1, Fail(p.s, Eproto))
    else
      var e := Emit(g, p.s.(pos := p.s.pos + 1), p.c);
      if e.err == NoError then Got(p.c, e) else Got(-1, e)
  }

  function Expect(g: Input, s: St, b: Byte): (r: St)
    ensures s.pos <= r.pos <= s.pos + 1
    ensures s.pos <= |g.t| ==> r.pos <= |g.t|
    ensures s.err != NoError ==> r == s
    ensures r.err == NoError ==> s.pos < |g.t| && g.t[s.pos] == b && r.pos == s.pos + 1
  {
    var q := Take(g, s);
    if q.c == b then q.s else Fail(q.s, Eproto)
  }

  function ExpectAll(g: Input, s: St, w: Bytes): (r: St)
    ensures s.pos <= r.pos
    ensures s.pos <= |g.t| ==> r.pos <= |g.t|
    ensures s.err != NoError ==> r == s
    ensures r.err == NoError ==> s.pos + |w| == r.pos
    decreases |w|
  {
    if w == [] || s.err != NoError then s else ExpectAll(g, Expect(g, s, w[0]), w[1..])
  }

  function Whitespace(g: Input, s: St): (r: St)
    ensures s.pos <= r.pos
    ensures s.pos <= |g.t| ==> r.pos <= |g.t|
    ensures s.err != NoError ==> r == s
    decreases |g.t| - s.pos
  {
    var p := Peek(g, s);
    if Space(p.c) then Whitespace(g, p.s.(pos := p.s.pos + 1)) else p.s
  }

  // ---- Strings ----

  /** Where decoded scalars go: nowhere, into a nested member name, into a top-level
      member name, or into the textual output. */
  datatype Dest = NoDest | NestedKey | RootKey(key: Bytes) | OutText

  datatype Sent = Sent(s: St, d: Dest)

  function TextOutput(o: Output, limit: nat, e: Bytes): Output {
    var o1 := o.(observed := o.observed + |e|);
    if e == [0] then DiscardOutput(o1, Invalid, InvalidData)
    else if o1.state != Complete then o1
    else if Length(o1) + |e| > limit then o1.(state := Truncated, reason := ByteLimit)
    else o1.(value := Some((if o1.value.Some? then o1.value.value else []) + e))
  }

  /** Hands one decoded scalar, already encoded as `e`, to its destination. */
  function Deliver(g: Input, s: St, d: Dest, e: Bytes): (r: Sent)
    ensures r.s.pos == s.pos
    ensures s.err != NoError ==> r.s.err == s.err
    ensures r.d.RootKey? <==> d.RootKey?
  {
    match d
    case NoDest => Sent(s, d)
    case NestedKey => Sent(if e == [0] then Fail(s, Eproto) else s, d)
    case RootKey(key) =>
      if e == [0] then Sent(Fail(s, Eproto), d)
      else if |key| + |e| > MAX_KEY then Sent(Fail(s, Efbig), d)
      else Sent(s, RootKey(key + e))
    case OutText => Sent(s.(out := TextOutput(s.out, g.limit, e)), d)
  }

  datatype Read = Read(n: nat, s: St)

  /** One more hexadecimal digit of a number read so far. */
  function TakeHexDigit(g: Input, r: Read): (q: Read)
    ensures r.s.pos <= q.s.pos
    ensures r.s.pos <= |g.t| ==> q.s.pos <= |g.t|
    ensures r.s.err != NoError ==> q.s.err == r.s.err
    ensures q.n <= r.n * 16 + 15
  {
    var q := Take(g, r.s);
    if Hex(q.c) < 0 then Read(0, Fail(q.s, Eproto)) else Read(PushHex(r.n, q.c), q.s)
  }

  function TakeHex(g: Input, s: St): (r: Read)
    ensures s.pos <= r.s.pos
    ensures s.pos <= |g.t| ==> r.s.pos <= |g.t|
    ensures s.err != NoError ==> r.s.err == s.err
    ensures r.n <= 0xFFFF
  {
    TakeHexDigit(g, TakeHexDigit(g, TakeHexDigit(g, TakeHexDigit(g, Read(0, s)))))
  }

  /** The escape after a backslash: the scalar value it denotes. */
  function TakeEscape(g: Input, s: St): (r: Read)
    ensures s.pos <= r.s.pos
    ensures s.pos <= |g.t| ==> r.s.pos <= |g.t|
    ensures s.err != NoError ==> r.s.err == s.err
    ensures r.n <= 0x10FFFF
  {
    var q := Take(g, s);
    if 0 <= ShortEscape(q.c) then Read(ShortEscape(q.c), q.s)
    else if q.c != 117 then Read(0, Fail(q.s, Eproto))
    else
      var h := TakeHex(g, q.s);
      if h.s.err != NoError then h
      else if 0xD800 <= h.n <= 0xDBFF then TakeLowSurrogate(g, h.s, h.n)
      else if 0xDC00 <= h.n <= 0xDFFF then Read(0, Fail(h.s, Eproto))
      else h
  }

  function TakeLowSurrogate(g: Input, s: St, high: nat): (r: Read)
    requires 0xD800 <= high <= 0xDBFF
    ensures s.pos <= r.s.pos
    ensures s.pos <= |g.t| ==> r.s.pos <= |g.t|
    ensures s.err != NoError ==> r.s.err == s.err
    ensures r.n <= 0x10FFFF
  {
    var s1 := Expect(g, Expect(g, s, 92), 117);
    if s1.err != NoError then Read(0, s1)
    else
      var l := TakeHex(g, s1);
      if l.s.err != NoError then l
      else if l.n < 0xDC00 || l.n > 0xDFFF then Read(0, Fail(l.s, Eproto))
      else Read(Paired(high, l.n), l.s)
  }

  function TakeCont(g: Input, s: St, k: nat, acc: nat): (r: Read)
    requires k <= 3
    ensures s.pos <= r.s.pos
    ensures s.pos <= |g.t| ==> r.s.pos <= |g.t|
    ensures s.err != NoError ==> r.s.err == s.err
    decreases k
  {
    if k == 0 then Read(acc, s)
    else
      var q := Take(g, s);
      if q.c < 0x80 || q.c > 0xBF then Read(0, Fail(q.s, Eproto))
      else TakeCont(g, q.s, k - 1, Push6(acc, q.c - 0x80))
  }

  /** The continuation bytes of a multi-byte scalar whose lead byte is `c`. */
  function TakeMultibyte(g: Input, s: St, c: int): (r: Read)
    requires 0x80 <= c < 256
    ensures s.pos <= r.s.pos
    ensures s.pos <= |g.t| ==> r.s.pos <= |g.t|
    ensures s.err != NoError ==> r.s.err == s.err
    ensures r.n <= 0x10FFFF
  {
    var w := Width(c);
    if w < 2 then Read(0, Fail(s, Eproto))
    else
      var start := if w == 2 then c - 0xC0 else if w == 3 then c - 0xE0 else c - 0xF0;
      var minimum := if w == 2 then 0x80 else if w == 3 then 0x800 else 0x10000;
      var r := TakeCont(g, s, w - 1, start);
      if r.s.err != NoError then Read(0, r.s)
      else if r.n < minimum || !IsScalar(r.n) then Read(0, Fail(r.s, Eproto))
      else r
  }

  /** The scalar that starts with the character `c` already taken. */
  function TakeScalar(g: Input, s: St, c: int): (r: Read)
    requires 0x20 <= c < 256
    ensures s.pos <= r.s.pos
    ensures s.pos <= |g.t| ==> r.s.pos <= |g.t|
    ensures s.err != NoError ==> r.s.err == s.err
    ensures r.n <= 0x10FFFF
  {
    if c == BACKSLASH then TakeEscape(g, s)
    else if c < 0x80 then Read(c, s)
    else TakeMultibyte(g, s, c)
  }

  function StringLoop(g: Input, s: St, d: Dest): (r: Sent)
    ensures s.pos <= r.s.pos
    ensures s.pos <= |g.t| ==> r.s.pos <= |g.t|
    ensures s.err != NoError ==> r.s.err == s.err
    ensures r.s.err == NoError ==> s.pos < r.s.pos
    ensures r.d.RootKey? <==> d.RootKey?
    decreases |g.t| - s.pos
  {
    if s.err != NoError then Sent(s, d)
    else
      var q := Take(g, s);
      if q.c == QUOTE then Sent(q.s, d)
      else if q.c < 0x20 then Sent(Fail(q.s, Eproto), d)
      else
        var n := TakeScalar(g, q.s, q.c);
        if n.s.err != NoError then Sent(n.s, d)
        else
          var v := Deliver(g, n.s, d, Encode(n.n));
          if v.s.err != NoError then v else StringLoop(g, v.s, v.d)
  }

  function String(g: Input, s: St, d: Dest): (r: Sent)
    ensures s.pos <= r.s.pos
    ensures s.pos <= |g.t| ==> r.s.pos <= |g.t|
    ensures s.err != NoError ==> r.s.err == s.err
    ensures r.s.err == NoError ==> s.pos < r.s.pos
    ensures r.d.RootKey? <==> d.RootKey?
  {
    var s1 := Expect(g, s, QUOTE);
    if s1.err != NoError then Sent(s1, d) else StringLoop(g, s1, d)
  }

  // ---- Numbers ----

  /** Takes digits while there are any, counting every character of the number. */
  function TakeDigits(g: Input, s: St, count: nat): (r: Read)
    ensures s.pos <= r.s.pos
    ensures s.pos <= |g.t| ==> r.s.pos <= |g.t|
    ensures s.err != NoError ==> r.s.err == s.err
    decreases |g.t| - s.pos, s.err == NoError
  {
    var q := Take(g, s);
    if count + 1 > MAX_NUMBER then Read(count + 1, Fail(q.s, Eproto))
    else
      var p := Peek(g, q.s);
      if Digit(p.c) then TakeDigits(g, p.s, count + 1) else Read(count + 1, p.s)
  }

  function NumberInt(g: Input, s: St): (r: Read)
    ensures s.pos <= r.s.pos
    ensures s.pos <= |g.t| ==> r.s.pos <= |g.t|
    ensures s.err != NoError ==> r.s.err == s.err
  {
    var p := Peek(g, s);
    var m := if p.c == 45 then Read(1, Take(g, p.s).s) else Read(0, p.s);
    var q := Peek(g, m.s);
    if q.c == 48 then Read(m.n + 1, Take(g, q.s).s)
    else if !Digit(q.c) then Read(0, Fail(q.s, Eproto))
    else TakeDigits(g, q.s, m.n)
  }

  function NumberFrac(g: Input, s: St, count: nat): (r: Read)
    ensures s.pos <= r.s.pos
    ensures s.pos <= |g.t| ==> r.s.pos <= |g.t|
    ensures s.err != NoError ==> r.s.err == s.err
  {
    var p := Peek(g, s);
    if p.c != 46 then Read(count, p.s)
    else
      var q := Peek(g, Take(g, p.s).s);
      if !Digit(q.c) then Read(0, Fail(q.s, Eproto)) else TakeDigits(g, q.s, count + 1)
  }

  function NumberExp(g: Input, s: St, count: nat): (r: Read)
    ensures s.pos <= r.s.pos
    ensures s.pos <= |g.t| ==> r.s.pos <= |g.t|
    ensures s.err != NoError ==> r.s.err == s.err
  {
    var p := Peek(g, s);
    if p.c != 101 && p.c != 69 then Read(count, p.s)
    else
      var q := Peek(g, Take(g, p.s).s);
      var m := if q.c == 43 || q.c == 45 then Read(count + 2, Take(g, q.s).s) else Read(count + 1, q.s);
      var d := Peek(g, m.s);
      if !Digit(d.c) then Read(0, Fail(d.s, Eproto)) else TakeDigits(g, d.s, m.n)
  }

  function Number(g: Input, s: St): (r: St)
    ensures s.pos <= r.pos
    ensures s.pos <= |g.t| ==> r.pos <= |g.t|
    ensures s.err != NoError ==> r.err == s.err
  {
    var n := NumberInt(g, s);
    if n.s.err != NoError then n.s
    else
      var f := NumberFrac(g, n.s, n.n);
      if f.s.err != NoError then f.s else NumberExp(g, f.s, f.n).s
  }

  // ---- Values ----

  /** Accounting on entry to a value at `depth`. */
  function Enter(g: Input, s: St, depth: nat): (r: St)
    ensures r.pos == s.pos
    ensures s.err != NoError ==> r.err == s.err
  {
    if depth > MAX_DEPTH then Fail(s, Efbig)
    else
      var s1 := s.(values := s.values + 1);
      if s1.values > MAX_VALUES then Fail(s1, Efbig)
      else EnterCapture(s1.(maxDepth := Max(s1.maxDepth, depth)))
  }

  function EnterCapture(s: St): (r: St)
    ensures r.pos == s.pos
    ensures s.err != NoError ==> r.err == s.err
  {
    match s.capture
    case Discard => s
    case Core =>
      var s1 := s.(coreValues := s.coreValues + 1);
      if s1.coreValues > CORE_MAX_VALUES then Fail(s1, Efbig) else s1
    case OutputJson =>
      var s1 := s.(outputValues := s.outputValues + 1);
      if s1.outputValues > CORE_MAX_VALUES && s1.out.state == Complete
      then s1.(out := DiscardOutput(s1.out, Discarded, NodeLimit)) else s1
  }

  function Value(g: Input, s: St, depth: nat, d: Dest): (r: St)
    requires s.pos <= |g.t|
    ensures s.pos <= r.pos <= |g.t|
    ensures s.err != NoError ==> r.err != NoError
    decreases |g.t| - s.pos, 4
  {
    var s1 := Enter(g, s, depth);
    if s1.err != NoError then s1 else ValueBody(g, Whitespace(g, s1), depth, d)
  }

  /** The value at the cursor, once it is accounted for. */
  function ValueBody(g: Input, s: St, depth: nat, d: Dest): (r: St)
    requires s.pos <= |g.t|
    ensures s.pos <= r.pos <= |g.t|
    ensures s.err != NoError ==> r.err != NoError
    decreases |g.t| - s.pos, 2
  {
    var p := Peek(g, s);
    if p.c == QUOTE then String(g, p.s, d).s
    else if p.c == 45 || Digit(p.c) then Number(g, p.s)
    else if p.c == 116 then ExpectAll(g, p.s, TRUE)
    else if p.c == 102 then ExpectAll(g, p.s, FALSE)
    else if p.c == 110 then ExpectAll(g, p.s, NULL)
    else if p.c == 91 || p.c == 123 then Compound(g, p.s, depth, p.c == 123)
    else Fail(p.s, Eproto)
  }

  function Compound(g: Input, s: St, depth: nat, obj: bool): (r: St)
    requires s.pos <= |g.t|
    ensures s.pos <= r.pos <= |g.t|
    ensures s.err != NoError ==> r.err != NoError
    decreases |g.t| - s.pos, 1
  {
    var s1 := Take(g, s).s;
    if s1.err != NoError then s1
    else
      var p := Peek(g, Whitespace(g, s1));
      if p.c == Close(obj) then Expect(g, p.s, Close(obj)) else Members(g, p.s, depth, obj)
  }

  function MemberKey(g: Input, s: St, obj: bool): (r: St)
    ensures s.pos <= r.pos
    ensures s.pos <= |g.t| ==> r.pos <= |g.t|
    ensures s.err != NoError ==> r.err != NoError
  {
    if !obj then s
    else
      var k := String(g, s, NestedKey);
      if k.s.err != NoError then k.s else Expect(g, Whitespace(g, k.s), COLON)
  }

  function Members(g: Input, s: St, depth: nat, obj: bool): (r: St)
    requires s.pos <= |g.t|
    ensures s.pos <= r.pos <= |g.t|
    ensures s.err != NoError ==> r.err != NoError
    decreases |g.t| - s.pos, 7
  {
    var s1 := MemberKey(g, s, obj);
    if obj && s1.err != NoError then s1
    else
      var s2 := Value(g, s1, depth + 1, NoDest);
      if s2.err != NoError then s2 else More(g, s2, depth, obj)
  }

  /** After a member: the closing bracket, or a comma and another member. */
  function More(g: Input, s: St, depth: nat, obj: bool): (r: St)
    requires s.pos <= |g.t|
    ensures s.pos <= r.pos <= |g.t|
    ensures s.err != NoError ==> r.err != NoError
    decreases |g.t| - s.pos, 5
  {
    var p := Peek(g, Whitespace(g, s));
    if p.c == Close(obj) then Expect(g, p.s, Close(obj))
    else
      var s1 := Expect(g, p.s, COMMA);
      if s1.err != NoError then s1 else Members(g, Whitespace(g, s1), depth, obj)
  }

  // ---- Top level ----

  /** Emits bytes until one is refused. */
  function EmitAll(g: Input, s: St, bs: Bytes): (r: St)
    ensures r.pos == s.pos
    ensures s.err != NoError ==> r == s
    decreases |bs|
  {
    if bs == [] || s.err != NoError then s else EmitAll(g, Emit(g, s, bs[0]), bs[1..])
  }

  /** A decoded top-level name, written again for the tree library. */
  function CoreKeyText(key: Bytes): Bytes {
    Quoted(EscapeAll(false, key)) + [COLON]
  }

  function Lower(b: Byte): Byte {
    if 65 <= b <= 90 then b + 32 else b
  }

  predicate EqNoCase(a: Bytes, b: Bytes) {
    |a| == |b| && forall i :: 0 <= i < |a| ==> Lower(a[i]) == Lower(b[i])
  }

  // cpu_util_total, cpu_util_user, cpu_util_system, sender_has_retransmits, streams,
  // congestion_used, server_output_text, server_output_json, iperf_swift_server_output
  const UNIQUE: seq<Bytes> := [
    [99, 112, 117, 95, 117, 116, 105, 108, 95, 116, 111, 116, 97, 108],
    [99, 112, 117, 95, 117, 116, 105, 108, 95, 117, 115, 101, 114],
    [99, 112, 117, 95, 117, 116, 105, 108, 95, 115, 121, 115, 116, 101, 109],
    [115, 101, 110, 100, 101, 114, 95, 104, 97, 115, 95, 114, 101, 116, 114, 97, 110, 115, 109, 105, 116, 115],
    [115, 116, 114, 101, 97, 109, 115],
    [99, 111, 110, 103, 101, 115, 116, 105, 111, 110, 95, 117, 115, 101, 100],
    OUTPUT_TEXT,
    OUTPUT_JSON,
    STATUS
  ]

  const OUTPUT_TEXT: Bytes :=
    [115, 101, 114, 118, 101, 114, 95, 111, 117, 116, 112, 117, 116, 95, 116, 101, 120, 116]
  const OUTPUT_JSON: Bytes :=
    [115, 101, 114, 118, 101, 114, 95, 111, 117, 116, 112, 117, 116, 95, 106, 115, 111, 110]
  const STATUS: Bytes :=
    [105, 112, 101, 114, 102, 95, 115, 119, 105, 102, 116, 95,
     115, 101, 114, 118, 101, 114, 95, 111, 117, 116, 112, 117, 116]

  /** The protocol fields `key` names, by index. */
  function UniqueIndices(key: Bytes): set<nat> {
    set i: nat | i < |UNIQUE| && EqNoCase(key, UNIQUE[i])
  }

  function BeginOutput(g: Input, s: St, json: bool): (r: St)
    ensures r.pos == s.pos
    ensures s.err != NoError ==> r.err == s.err
  {
    var alloc := if json then g.allocJson else g.allocText;
    var o := Output(if alloc then Some([]) else None, 0, Complete,
                    if json then JsonFormat else TextFormat, NoReason, true);
    if alloc then s.(out := o, outputValues := 0) else Fail(s.(out := o), Enomem)
  }

  /** The value of one of the two output fields. */
  function OutputField(g: Input, s: St, json: bool): (r: St)
    requires s.pos <= |g.t|
    ensures s.pos <= r.pos <= |g.t|
  {
    var s1 := BeginOutput(g, s, json);
    if s1.err != NoError then s1
    else
      var p := Peek(g, s1);
      var valid := p.c == if json then 123 else 34;
      var s2 := if valid then p.s
                else p.s.(out := DiscardOutput(p.s.out, Invalid, InvalidData).(observedComplete := false));
      Value(g, s2.(capture := if json && valid then OutputJson else Discard), 1,
            if !json && valid then OutText else NoDest)
  }

  function CoreField(g: Input, s: St, first: bool, key: Bytes): (r: St)
    requires s.pos <= |g.t|
    ensures s.pos <= r.pos <= |g.t|
  {
    var s1 := EmitAll(g, s.(capture := Core), (if first then [] else [COMMA]) + CoreKeyText(key));
    if s1.err != NoError then s1 else Value(g, s1, 1, NoDest)
  }

  /** Everything of a top-level member after its name. */
  function Field(g: Input, s: St, key: Bytes, first: bool, seenJson: bool): (r: St)
    requires s.pos <= |g.t|
    ensures s.pos <= r.pos <= |g.t|
  {
    var json := EqNoCase(key, OUTPUT_JSON);
    var text := EqNoCase(key, OUTPUT_TEXT);
    if json || (text && !seenJson) then OutputField(g, s, json)
    else if text then Value(g, s, 1, NoDest)
    else CoreField(g, s, first, key)
  }

  predicate IsOutputKey(key: Bytes) {
    EqNoCase(key, OUTPUT_JSON) || EqNoCase(key, OUTPUT_TEXT)
  }

  function Fields(g: Input, s: St, seen: set<nat>, first: bool, seenJson: bool): (r: St)
    requires s.pos <= |g.t|
    ensures s.pos <= r.pos <= |g.t|
    decreases |g.t| - s.pos, 1
  {
    var k := String(g, s, RootKey([]));
    if k.s.err != NoError then k.s
    else
      var key := k.d.key;
      if UniqueIndices(key) * seen != {} then Fail(k.s, Eproto)
      else
        var s1 := Expect(g, Whitespace(g, k.s), COLON);
        var w := Whitespace(g, s1);
        if w.err != NoError then w
        else
          var s2 := Field(g, w, key, first, seenJson);
          if s2.err != NoError then s2
          else MoreFields(g, s2.(capture := Discard), seen + UniqueIndices(key),
                          first && IsOutputKey(key), seenJson || EqNoCase(key, OUTPUT_JSON))
  }

  /** After a top-level member: the cursor stays on the closing brace, or passes a comma. */
  function MoreFields(g: Input, s: St, seen: set<nat>, first: bool, seenJson: bool): (r: St)
    requires s.pos <= |g.t|
    ensures s.pos <= r.pos <= |g.t|
    decreases |g.t| - s.pos, 2
  {
    var p := Peek(g, Whitespace(g, s));
    if p.c == 125 then p.s
    else
      var s1 := Expect(g, p.s, COMMA);
      if s1.err != NoError then s1 else Fields(g, Whitespace(g, s1), seen, first, seenJson)
  }

  function Finish(g: Input, s: St): St {
    var s1 := Expect(g, s, 125);
    if s1.err != NoError then s1
    else
      var s2 := Emit(g, s1.(capture := Core), 125);
      if s2.err != NoError then s2
      else
        var p := Peek(g, Whitespace(g, s2.(capture := Discard)));
        if p.c < 0 && p.s.err == NoError then p.s else Fail(p.s, Eproto)
  }

  function Root(g: Input, s: St): St
    requires s.pos <= |g.t|
  {
    var s1 := Expect(g, Whitespace(g, s.(capture := Discard)), 123);
    if s1.err != NoError then s1
    else
      var s2 := Emit(g, s1.(capture := Core), 123);
      if s2.err != NoError then s2
      else
        var p := Peek(g, Whitespace(g, s2.(capture := Discard)));
        var s3 := if p.c == 125 then p.s else Fields(g, p.s, {}, true, false);
        if s3.err != NoError then s3 else Finish(g, s3)
  }
}
