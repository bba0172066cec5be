/** The bounded result reader as it runs: one parser object whose input arrives in
    chunks, and whose every operation has the effect `Scan` gives it. */
module ResultReader {
  import opened Order
  import opened Utf8
  import opened Grammar
  import opened Scan

  /** What the read callback can answer: some bytes, end of input, or an error. */
  datatype Reply = Data(bytes: Bytes) | Eof | Failure(errno: Errno)

  const CHUNK: nat := 4096

  /** The bytes a script of replies delivers within a frame of `remaining` bytes, and the
      error that ends it early. A reply that is empty or larger than what was asked for is
      a protocol error. */
  datatype Arrival = Arrival(t: Bytes, fault: Errno)

  function Delivered(script: seq<Reply>, remaining: nat): (d: Arrival)
    ensures |d.t| <= remaining
    ensures d.fault == NoError ==> |d.t| == remaining
    decreases |script|
  {
    if remaining == 0 then Arrival([], NoError)
    else if script == [] || script[0].Eof? then Arrival([], Eproto)
    else
      match script[0]
      case Failure(e) => Arrival([], if e == NoError then Eproto else e)
      case Data(b) =>
        if b == [] || |b| > Min(remaining, CHUNK) then Arrival([], Eproto)
        else
          var d := Delivered(script[1..], remaining - |b|);
          Arrival(b + d.t, d.fault)
  }

  lemma DeliveredMore(script: seq<Reply>, remaining: nat)
    requires script != [] && script[0].Data? && 0 < |script[0].bytes| <= Min(remaining, CHUNK)
    ensures var d := Delivered(script[1..], remaining - |script[0].bytes|);
            Delivered(script, remaining) == Arrival(script[0].bytes + d.t, d.fault)
  {
  }

  lemma DeliveredStops(script: seq<Reply>, remaining: nat)
    requires 0 < remaining
    requires script == [] || !script[0].Data? || script[0].bytes == [] || |script[0].bytes| > Min(remaining, CHUNK)
    ensures Delivered(script, remaining)
         == Arrival([], if script != [] && script[0].Failure? && script[0].errno != NoError then script[0].errno
                        else Eproto)
  {
  }

  /** A reply with some of the bytes that were asked for. */
  predicate Useful(reply: Reply, remaining: nat) {
    reply.Data? && 0 < |reply.bytes| <= Min(remaining, CHUNK)
  }

  /** What the first `used` replies of a script brought: the bytes, and whether all of them
      were useful. */
  datatype Progress = Progress(bytes: nat, useful: bool)

  function Brought(script: seq<Reply>, remaining: nat, used: nat): (p: Progress)
    requires used <= |script|
    ensures p.bytes <= remaining
    decreases used
  {
    if used == 0 then Progress(0, true)
    else
      var p := Brought(script, remaining, used - 1);
      var reply := script[used - 1];
      if p.useful && Useful(reply, remaining - p.bytes) then Progress(p.bytes + |reply.bytes|, true)
      else Progress(p.bytes, false)
  }

  /** The next of `replies`, of which `script` are still to come and `remaining` bytes of the
      frame: it brings the front of what is delivered, or ends the delivery. */
  lemma NextReply(replies: seq<Reply>, frameLength: nat, script: seq<Reply>, remaining: nat)
    requires |script| <= |replies| && script == replies[|replies| - |script|..] && 0 < remaining <= frameLength
    requires Brought(replies, frameLength, |replies| - |script|) == Progress(frameLength - remaining, true)
    ensures var used, d := |replies| - |script|, Delivered(script, remaining);
            && (script != [] ==> script[1..] == replies[used + 1..])
            && if script != [] && Useful(script[0], remaining) then
                 var b := script[0].bytes;
                 && d.t == b + Delivered(script[1..], remaining - |b|).t
                 && d.fault == Delivered(script[1..], remaining - |b|).fault
                 && Brought(replies, frameLength, used + 1) == Progress(frameLength - remaining + |b|, true)
               else
                 && d.t == []
                 && d.fault == (if script != [] && script[0].Failure? && script[0].errno != NoError
                                then script[0].errno else Eproto)
                 && (script != [] ==> Brought(replies, frameLength, used + 1).bytes == frameLength - remaining)
  {
    hide Delivered;
    if script != [] && Useful(script[0], remaining) { DeliveredMore(script, remaining); }
    else { DeliveredStops(script, remaining); }
  }

  lemma AtEnd(input: Bytes, cursor: nat, rest: Bytes)
    requires cursor == |input|
    ensures input[cursor..] + rest == rest
  {
  }

  lemma DeliveredNone(script: seq<Reply>)
    ensures Delivered(script, 0) == Arrival([], NoError)
  {
  }

  /** Hexadecimal digits still to come, as the loop that reads them sees it. */
  function TakeHexRest(g: Input, r: Read, k: nat): Read
    decreases k
  {
    if k == 0 then r else TakeHexRest(g, TakeHexDigit(g, r), k - 1)
  }

  lemma TakeHexUnrolled(g: Input, s: St)
    ensures TakeHexRest(g, Read(0, s), 4) == TakeHex(g, s)
  {
    hide TakeHexDigit;
    var r1 := TakeHexDigit(g, Read(0, s));
    var r2 := TakeHexDigit(g, r1);
    var r3 := TakeHexDigit(g, r2);
    assert TakeHexRest(g, Read(0, s), 4) == TakeHexRest(g, r1, 3);
    assert TakeHexRest(g, r1, 3) == TakeHexRest(g, r2, 2);
    assert TakeHexRest(g, r2, 2) == TakeHexRest(g, r3, 1);
    assert TakeHexRest(g, r3, 1) == TakeHexRest(g, TakeHexDigit(g, r3), 0);
  }

  lemma TakeHexFailed(g: Input, r: Read, k: nat)
    requires r.s.err != NoError
    ensures TakeHexRest(g, r, k).s == r.s
    decreases k
  {
    if k > 0 { TakeHexFailed(g, TakeHexDigit(g, r), k - 1); }
  }

  class Parser {
    const frameLength: nat
    const limit: nat
    const allocText: bool
    const allocJson: bool

    /** Replies the read callback has yet to give. */
    var script: seq<Reply>
    var remaining: nat
    var input: Bytes
    var cursor: nat
    var core: Bytes
    var capture: Capture
    var output: Output
    var values: nat
    var outputValues: nat
    var error: Errno
    var bytesRead: nat
    var coreValues: nat
    var maximumDepth: nat

    /** All the input there is, fixed when the parser is set up. */
    ghost const g: Input
    /** All the replies there are. */
    ghost const replies: seq<Reply>
    ghost var pos: nat
    /** The furthest byte of the stream any read request covered. */
    ghost var reach: nat

    /** What the reader retains and counts stays within its limits. */
    ghost predicate InBounds()
      reads this`core, this`output, this`maximumDepth, this`error, this`values, this`coreValues
    {
      && |core| <= CORE_MAX_BYTES
      && Length(output) <= limit
      && maximumDepth <= MAX_DEPTH
      && (error == NoError ==> values <= MAX_VALUES && coreValues <= CORE_MAX_VALUES)
    }

    /** What was read and not yet scanned is the rest of one chunk; the callback has given its
        replies in order, and they brought the bytes read. */
    ghost predicate Fed()
      reads this`script, this`remaining, this`input, this`cursor, this`bytesRead, this`pos, this`reach
    {
      && cursor <= |input| <= CHUNK && pos + |input| - cursor == bytesRead <= |g.t|
      && bytesRead + remaining == frameLength && reach <= frameLength
      && |script| <= |replies| && script == replies[|replies| - |script|..]
      && Brought(replies, frameLength, |replies| - |script|).bytes == bytesRead
    }

    /** Until an error, the rest of the input is what was read and what is still delivered. */
    ghost predicate Live()
      reads this`script, this`remaining, this`input, this`cursor, this`pos
    {
      && cursor <= |input| && pos <= |g.t| && |script| <= |replies|
      && g.t[pos..] == input[cursor..] + Delivered(script, remaining).t
      && g.fault == Delivered(script, remaining).fault
      && Brought(replies, frameLength, |replies| - |script|).useful
    }

    ghost predicate Valid()
      reads this
    {
      && g.limit == limit && g.allocText == allocText && g.allocJson == allocJson
      && pos <= |g.t| && Fed() && InBounds() && (error == NoError ==> Live())
    }

    ghost function State(): St
      reads this
    {
      St(pos, error, core, capture, output, values, coreValues, outputValues, maximumDepth)
    }

    constructor (script: seq<Reply>, frameLength: nat, limit: nat, allocText: bool, allocJson: bool)
      ensures Valid() && State() == START
      ensures g == Input(Delivered(script, frameLength).t, Delivered(script, frameLength).fault,
                         limit, allocText, allocJson)
      ensures this.frameLength == frameLength && bytesRead == 0 && replies == script
    {
      this.script, this.frameLength, this.limit := script, frameLength, limit;
      this.allocText, this.allocJson := allocText, allocJson;
      remaining, input, cursor := frameLength, [], 0;
      core, capture, output := [], Discard, EMPTY_OUTPUT;
      values, outputValues, error := 0, 0, NoError;
      bytesRead, coreValues, maximumDepth := 0, 0, 0;
      g := Input(Delivered(script, frameLength).t, Delivered(script, frameLength).fault,
                 limit, allocText, allocJson);
      replies := script;
      pos, reach := 0, 0;
    }

    method Fail(e: Errno)
      requires Valid() && e != NoError
      modifies this`error
      ensures Valid() && State() == Scan.Fail(old(State()), e)
    {
      hide Fed, Live;
      if error == NoError { error := e; }
    }

    /** Asks the callback for up to `count` bytes. */
    method Read(count: nat) returns (reply: Reply)
      requires bytesRead + count <= frameLength && reach <= frameLength
      modifies this`script, this`reach
      ensures reply == if old(script) == [] then Eof else old(script)[0]
      ensures script == if old(script) == [] then [] else old(script)[1..]
      ensures reach <= frameLength
    {
      if reach < bytesRead + count { reach := bytesRead + count; }
      if script == [] {
        reply := Eof;
      } else {
        reply, script := script[0], script[1..];
      }
    }

    /** Reads the next chunk, once the last one is used up. */
    method Refill() returns (ok: bool)
      requires Valid() && error == NoError && cursor == |input| && 0 < remaining
      modifies this`script, this`reach, this`remaining, this`bytesRead, this`cursor, this`input, this`error
      ensures Valid()
      ensures ok ==> State() == old(State()) && cursor < |input|
      ensures !ok ==> pos == |g.t| && g.fault != NoError && State() == old(State()).(err := g.fault)
    {
      hide Delivered, Brought, Live, InBounds;
      UsedUp();
      NextReply(replies, frameLength, script, remaining);
      var count := Min(remaining, CHUNK);
      var reply := Read(count);
      if !reply.Data? || reply.bytes == [] || |reply.bytes| > count {
        Refuse(if reply.Failure? && reply.errno != NoError then reply.errno else Eproto);
        return false;
      }
      Load(reply.bytes);
      ok := true;
    }

    /** With no input left, the rest is what is still delivered. */
    lemma UsedUp()
      requires Valid() && error == NoError && cursor == |input|
      ensures var d := Delivered(script, remaining);
              && g.t[pos..] == d.t && |g.t| == pos + |d.t| && g.fault == d.fault
              && Brought(replies, frameLength, |replies| - |script|) == Progress(frameLength - remaining, true)
    {
      hide Delivered, Brought;
      AtEnd(input, cursor, Delivered(script, remaining).t);
    }

    /** The delivery has ended early. */
    method Refuse(e: Errno)
      requires e != NoError && error == NoError && Fed() && InBounds() && pos <= |g.t|
      requires g.limit == limit && g.allocText == allocText && g.allocJson == allocJson
      modifies this`error
      ensures Valid() && State() == old(State()).(err := e)
    {
      hide Fed;
      error := e;
    }

    /** Makes a chunk the input, of which nothing was left. */
    method Load(bytes: Bytes)
      requires cursor == |input| && pos == bytesRead && 0 < |bytes| <= Min(remaining, CHUNK)
      requires bytesRead + remaining == frameLength && reach <= frameLength && bytesRead + |bytes| <= |g.t|
      requires |script| <= |replies| && script == replies[|replies| - |script|..]
      requires Brought(replies, frameLength, |replies| - |script|) == Progress(bytesRead + |bytes|, true)
      requires g.t[pos..] == bytes + Delivered(script, remaining - |bytes|).t
      requires g.fault == Delivered(script, remaining - |bytes|).fault
      modifies this`remaining, this`bytesRead, this`cursor, this`input
      ensures Fed() && Live() && cursor < |input|
    {
      hide Delivered, Brought;
      remaining := remaining - |bytes|;
      bytesRead := bytesRead + |bytes|;
      cursor := 0;
      input := bytes;
      assert input[cursor..] == input;
    }

    method Peek() returns (c: int)
      requires Valid()
      modifies this
      ensures Valid() && State() == Scan.Peek(g, old(State())).s && c == Scan.Peek(g, old(State())).c
      ensures 0 <= c ==> cursor < |input|
    {
      hide Delivered;
      if error != NoError { return -1; }
      if cursor == |input| {
        if remaining == 0 {
          DeliveredNone(script);
          assert |g.t[pos..]| == 0;
          return -1;
        }
        var ok := Refill();
        if !ok { return -1; }
      }
      assert g.t[pos] == g.t[pos..][0] == input[cursor..][0];
      c := input[cursor];
    }

    /** Steps over the byte `Peek` has just shown. */
    method Advance()
      requires Valid() && error == NoError && cursor < |input|
      modifies this`cursor, this`pos
      ensures Valid() && State() == old(State()).(pos := old(pos) + 1)
    {
      assert g.t[pos..][1..] == g.t[pos + 1..];
      assert (input[cursor..] + Delivered(script, remaining).t)[1..]
          == input[cursor + 1..] + Delivered(script, remaining).t;
      cursor := cursor + 1;
      pos := pos + 1;
    }

    method DiscardOutput(state: OutputState, reason: Reason)
      requires Valid()
      modifies this`output
      ensures Valid() && output == Scan.DiscardOutput(old(output), state, reason)
    {
      hide Fed, Live;
      output := output.(value := None, state := state, reason := reason);
    }

    method Emit(b: Byte) returns (ok: bool)
      requires Valid() && error == NoError
      modifies this
      ensures Valid() && State() == Scan.Emit(g, old(State()), b)
      ensures ok <==> error == NoError
    {
      hide Fed, Live;
      if capture == Core {
        if |core| == CORE_MAX_BYTES {
          Fail(Efbig);
          return false;
        }
        core := core + [b];
      } else if capture == OutputJson {
        output := output.(observed := output.observed + 1);
        if output.state == Complete {
          if Length(output) == limit {
            DiscardOutput(Discarded, ByteLimit);
          } else {
            output := output.(value := Some((if output.value.Some? then output.value.value else []) + [b]));
          }
        }
      }
      ok := true;
    }

    method Take() returns (c: int)
      requires Valid()
      modifies this
      ensures Valid() && State() == Scan.Take(g, old(State())).s && c == Scan.Take(g, old(State())).c
    {
      hide Fed, Live;
      c := Peek();
      if c < 0 {
        Fail(Eproto);
        return -1;
      }
      Advance();
      var ok := Emit(c);
      if !ok { c := -1; }
    }

    method Expect(expected: Byte) returns (ok: bool)
      requires Valid()
      modifies this
      ensures Valid() && State() == Scan.Expect(g, old(State()), expected)
      ensures ok <==> error == NoError
    {
      hide Fed, Live;
      var c := Take();
      ok := c == expected;
      if !ok { Fail(Eproto); }
    }

    method Literal(w: Bytes) returns (ok: bool)
      requires Valid() && error == NoError
      modifies this
      ensures Valid() && State() == ExpectAll(g, old(State()), w)
      ensures ok <==> error == NoError
    {
      hide Fed, Live;
      var i := 0;
      while i < |w|
        invariant 0 <= i <= |w| && Valid() && error == NoError
        invariant ExpectAll(g, State(), w[i..]) == ExpectAll(g, old(State()), w)
      {
        assert w[i..][1..] == w[i + 1..];
        ok := Expect(w[i]);
        if !ok { return; }
        i := i + 1;
      }
      ok := true;
    }

    method Whitespace()
      requires Valid()
      modifies this
      ensures Valid() && State() == Scan.Whitespace(g, old(State()))
    {
      hide Fed, Live;
      while true
        invariant Valid()
        invariant Scan.Whitespace(g, State()) == Scan.Whitespace(g, old(State()))
        decreases |g.t| - pos
      {
        var c := Peek();
        if !Space(c) { return; }
        Advance();
      }
    }

    // ---- Strings ----

    method DecodedScalar(d: Dest, scalar: nat) returns (ok: bool, r: Dest)
      requires Valid() && error == NoError && scalar <= 0x10FFFF
      modifies this
      ensures Valid() && Sent(State(), r) == Deliver(g, old(State()), d, Encode(scalar))
      ensures ok <==> error == NoError
    {
      hide Fed, Live;
      r := d;
      var e := Encode(scalar);
      match d {
        case NoDest =>
        case NestedKey =>
          if scalar == 0 { Fail(Eproto); }
        case RootKey(key) =>
          if scalar == 0 { Fail(Eproto); }
          else if |key| + |e| > MAX_KEY { Fail(Efbig); }
          else { r := RootKey(key + e); }
        case OutText =>
          output := output.(observed := output.observed + |e|);
          if scalar == 0 {
            DiscardOutput(Invalid, InvalidData);
          } else if output.state == Complete {
            if Length(output) + |e| > limit {
              output := output.(state := Truncated, reason := ByteLimit);
            } else {
              output := output.(value := Some((if output.value.Some? then output.value.value else []) + e));
            }
          }
      }
      assert e == [0] <==> scalar == 0;
      ok := error == NoError;
    }

    method Hex4() returns (ok: bool, n: nat)
      requires Valid() && error == NoError
      modifies this
      ensures Valid() && State() == TakeHex(g, old(State())).s
      ensures ok <==> error == NoError
      ensures ok ==> n == TakeHex(g, old(State())).n
    {
      hide Fed, Live, Scan.Take, TakeHex, PushHex;
      n := 0;
      TakeHexUnrolled(g, State());
      var i := 0;
      while i < 4
        invariant 0 <= i <= 4 && Valid() && error == NoError
        invariant TakeHexRest(g, Scan.Read.Read(n, State()), 4 - i) == TakeHex(g, old(State()))
      {
        ghost var s0 := State();
        var c := Take();
        if Hex(c) < 0 {
          Fail(Eproto);
          TakeHexFailed(g, TakeHexDigit(g, Scan.Read.Read(n, s0)), 3 - i);
          return false, 0;
        }
        n := PushHex(n, c);
        i := i + 1;
      }
      ok := true;
    }

    method Escape() returns (ok: bool, n: nat)
      requires Valid() && error == NoError
      modifies this
      ensures Valid() && State() == TakeEscape(g, old(State())).s
      ensures ok <==> error == NoError
      ensures ok ==> n == TakeEscape(g, old(State())).n
    {
      hide Valid, TakeHex, Scan.Take, TakeLowSurrogate;
      var c := Take();
      n := 0;
      if 0 <= ShortEscape(c) { return true, ShortEscape(c); }
      if c != 117 {
        Fail(Eproto);
        return false, 0;
      }
      ok, n := Hex4();
      if !ok { return; }
      if 0xD800 <= n <= 0xDBFF {
        ok, n := LowSurrogate(n);
      } else if 0xDC00 <= n <= 0xDFFF {
        Fail(Eproto);
        return false, 0;
      }
    }

    method LowSurrogate(high: nat) returns (ok: bool, n: nat)
      requires Valid() && error == NoError && 0xD800 <= high <= 0xDBFF
      modifies this
      ensures Valid() && State() == TakeLowSurrogate(g, old(State()), high).s
      ensures ok <==> error == NoError
      ensures ok ==> n == TakeLowSurrogate(g, old(State()), high).n
    {
      hide Scan.Expect, TakeHex, Valid;
      n := 0;
      ok := Expect(92);
      if !ok { return; }
      ok := Expect(117);
      if !ok { return; }
      var low;
      ok, low := Hex4();
      if !ok { return; }
      if low < 0xDC00 || low > 0xDFFF {
        Fail(Eproto);
        return false, 0;
      }
      n := Paired(high, low);
    }

    method Multibyte(lead: Byte) returns (ok: bool, n: nat)
      requires Valid() && error == NoError && 0x80 <= lead
      modifies this
      ensures Valid() && State() == TakeMultibyte(g, old(State()), lead).s
      ensures ok <==> error == NoError
      ensures ok ==> n == TakeMultibyte(g, old(State()), lead).n
    {
      hide TakeCont, IsScalar, Valid;
      var following, start, minimum := Lead(lead);
      if following == 0 {
        Fail(Eproto);
        return false, 0;
      }
      ok, n := Continuation(following, start);
      if ok && (n < minimum || !IsScalar(n)) {
        Fail(Eproto);
        ok := false;
      }
    }

    /** What a lead byte announces: the bytes to follow, its own bits, and the least scalar. */
    static method Lead(lead: Byte) returns (following: nat, start: nat, minimum: nat)
      requires 0x80 <= lead
      ensures following == if Width(lead) < 2 then 0 else Width(lead) - 1
      ensures following == 1 ==> start == lead - 0xC0 && minimum == 0x80
      ensures following == 2 ==> start == lead - 0xE0 && minimum == 0x800
      ensures following == 3 ==> start == lead - 0xF0 && minimum == 0x10000
    {
      if 0xC2 <= lead <= 0xDF { return 1, lead - 0xC0, 0x80; }
      if 0xE0 <= lead <= 0xEF { return 2, lead - 0xE0, 0x800; }
      if 0xF0 <= lead <= 0xF4 { return 3, lead - 0xF0, 0x10000; }
      return 0, 0, 0;
    }

    method Continuation(following: nat, start: nat) returns (ok: bool, n: nat)
      requires Valid() && error == NoError && following <= 3
      modifies this
      ensures Valid() && State() == TakeCont(g, old(State()), following, start).s
      ensures ok <==> error == NoError
      ensures ok ==> n == TakeCont(g, old(State()), following, start).n
    {
      hide Scan.Take, Push6, Valid;
      n := start;
      var i := 0;
      while i < following
        invariant 0 <= i <= following && Valid() && error == NoError
        invariant TakeCont(g, State(), following - i, n) == TakeCont(g, old(State()), following, start)
      {
        var c := Take();
        if c < 0x80 || c > 0xBF {
          Fail(Eproto);
          return false, 0;
        }
        n := Push6(n, c - 0x80);
        i := i + 1;
      }
      ok := true;
    }

    method String(destination: Dest) returns (ok: bool, d: Dest)
      requires Valid()
      modifies this
      ensures Valid() && Sent(State(), d) == Scan.String(g, old(State()), destination)
      ensures ok <==> error == NoError
    {
      hide Fed, Live, Scan.Take, TakeScalar, Deliver, Encode;
      d := destination;
      ok := Expect(QUOTE);
      if !ok { return; }
      while true
        invariant Valid() && error == NoError
        invariant StringLoop(g, State(), d) == Scan.String(g, old(State()), destination)
        decreases |g.t| - pos
      {
        ghost var s0 := State();
        var c := Take();
        if c == QUOTE { return true, d; }
        if c < 0x20 {
          Fail(Eproto);
          return false, d;
        }
        var scalar;
        ok, scalar := Scalar(c);
        if !ok { return; }
        ok, d := DecodedScalar(d, scalar);
        if !ok { return; }
      }
    }

    method Scalar(c: int) returns (ok: bool, n: nat)
      requires Valid() && error == NoError && 0x20 <= c < 256
      modifies this
      ensures Valid() && State() == TakeScalar(g, old(State()), c).s
      ensures ok <==> error == NoError
      ensures ok ==> n == TakeScalar(g, old(State()), c).n
    {
      hide Fed, Live;
      if c == BACKSLASH { ok, n := Escape(); }
      else if c < 0x80 { ok, n := true, c; }
      else { ok, n := Multibyte(c); }
    }

    // ---- Numbers ----

    method Digits(start: nat) returns (ok: bool, count: nat)
      requires Valid()
      modifies this
      ensures Valid() && State() == TakeDigits(g, old(State()), start).s
      ensures ok ==> count == TakeDigits(g, old(State()), start).n
      ensures !ok ==> error != NoError
    {
      hide Scan.Take, Scan.Peek, Valid;
      count := start;
      while true
        invariant Valid()
        invariant TakeDigits(g, State(), count) == TakeDigits(g, old(State()), start)
        decreases |g.t| - pos, error == NoError
      {
        ghost var s0 := State();
        var c := Take();
        count := count + 1;
        if count > MAX_NUMBER {
          Fail(Eproto);
          return false, count;
        }
        c := Peek();
        if !Digit(c) { return true, count; }
      }
    }

    method Number() returns (ok: bool)
      requires Valid() && error == NoError
      modifies this
      ensures Valid() && State() == Scan.Number(g, old(State()))
      ensures ok <==> error == NoError
    {
      hide NumberInt, NumberFrac, NumberExp, Valid;
      var count;
      ok, count := IntPart();
      if !ok { return; }
      ok, count := FracPart(count);
      if !ok { return; }
      ok := ExpPart(count);
    }

    method IntPart() returns (ok: bool, count: nat)
      requires Valid() && error == NoError
      modifies this
      ensures Valid() && State() == NumberInt(g, old(State())).s
      ensures ok <==> error == NoError
      ensures ok ==> count == NumberInt(g, old(State())).n
    {
      hide Scan.Take, TakeDigits, Valid;
      count := 0;
      var c := Peek();
      if c == 45 {
        c := Take();
        count := 1;
      }
      c := Peek();
      if c == 48 {
        c := Take();
        count := count + 1;
      } else if !Digit(c) {
        Fail(Eproto);
      } else {
        ok, count := Digits(count);
      }
      ok := error == NoError;
    }

    method FracPart(before: nat) returns (ok: bool, count: nat)
      requires Valid() && error == NoError
      modifies this
      ensures Valid() && State() == NumberFrac(g, old(State()), before).s
      ensures ok <==> error == NoError
      ensures ok ==> count == NumberFrac(g, old(State()), before).n
    {
      hide Scan.Take, TakeDigits, Valid;
      count := before;
      var c := Peek();
      if c == 46 {
        c := Take();
        c := Peek();
        if !Digit(c) {
          Fail(Eproto);
        } else {
          ok, count := Digits(count + 1);
        }
      }
      ok := error == NoError;
    }

    method ExpPart(before: nat) returns (ok: bool)
      requires Valid() && error == NoError
      modifies this
      ensures Valid() && State() == NumberExp(g, old(State()), before).s
      ensures ok <==> error == NoError
    {
      hide Scan.Take, TakeDigits, Valid;
      var c := Peek();
      if c == 101 || c == 69 {
        var count := before + 1;
        c := Take();
        c := Peek();
        if c == 43 || c == 45 {
          c := Take();
          count := count + 1;
        }
        c := Peek();
        if !Digit(c) {
          Fail(Eproto);
        } else {
          ok, count := Digits(count);
        }
      }
      ok := error == NoError;
    }

    // ---- Values ----

    method Enter(depth: nat) returns (ok: bool)
      requires Valid()
      modifies this
      ensures Valid() && State() == Scan.Enter(g, old(State()), depth)
      ensures ok <==> error == NoError
    {
      hide Fed, Live, Scan.EnterCapture;
      ok := false;
      if depth > MAX_DEPTH {
        Fail(Efbig);
        return;
      }
      values := values + 1;
      if values > MAX_VALUES {
        if error == NoError { error := Efbig; }
        return;
      }
      if depth > maximumDepth { maximumDepth := depth; }
      ok := EnterCapture();
    }

    method EnterCapture() returns (ok: bool)
      requires Valid()
      modifies this
      ensures Valid() && State() == Scan.EnterCapture(old(State()))
      ensures ok <==> error == NoError
    {
      hide Fed, Live;
      if capture == Core {
        coreValues := coreValues + 1;
        if coreValues > CORE_MAX_VALUES {
          if error == NoError { error := Efbig; }
          return false;
        }
      }
      if capture == OutputJson {
        outputValues := outputValues + 1;
        if outputValues > CORE_MAX_VALUES && output.state == Complete {
          DiscardOutput(Discarded, NodeLimit);
        }
      }
      ok := error == NoError;
    }

    method Value(depth: nat, destination: Dest) returns (ok: bool)
      requires Valid()
      modifies this
      ensures Valid() && State() == Scan.Value(g, old(State()), depth, destination)
      ensures ok <==> error == NoError
      decreases |g.t| - pos, 2
    {
      hide Fed, Live, Scan.Enter, Scan.Whitespace, Scan.String, Scan.Number, Scan.Compound, ExpectAll, Scan.Take;
      ok := Enter(depth);
      if !ok { return; }
      Whitespace();
      var c := Peek();
      if c == QUOTE {
        var d;
        ok, d := String(destination);
      } else if c == 45 || Digit(c) {
        ok := Number();
      } else if c == 116 || c == 102 || c == 110 {
        ok := Literal(if c == 116 then TRUE else if c == 102 then FALSE else NULL);
      } else if c != 91 && c != 123 {
        Fail(Eproto);
        ok := false;
      } else {
        ok := Compound(depth, c == 123);
      }
    }

    method Compound(depth: nat, obj: bool) returns (ok: bool)
      requires Valid() && error == NoError
      requires pos < |g.t| && g.t[pos] == Open(obj)
      modifies this
      ensures Valid() && State() == Scan.Compound(g, old(State()), depth, obj)
      ensures ok <==> error == NoError
      decreases |g.t| - pos, 1
    {
      hide Fed, Live, Scan.Whitespace, Scan.Take, Scan.Value, MemberKey, Scan.Expect, Close, Scan.Peek;
      ghost var start := pos;
      var c := Take();
      if c < 0 { return false; }
      Whitespace();
      c := Peek();
      if c == Close(obj) {
        ok := Expect(Close(obj));
        return;
      }
      while true
        invariant Valid() && start < pos
        invariant Members(g, State(), depth, obj) == Scan.Compound(g, old(State()), depth, obj)
        decreases |g.t| - pos
      {
        ghost var s0 := State();
        if obj {
          ok := Name();
          if !ok { return; }
        }
        assert State() == MemberKey(g, s0, obj) by { MemberKeyArray(g, s0); }
        ok := Value(depth + 1, NoDest);
        if !ok { return; }
        ghost var s2 := State();
        Whitespace();
        c := Peek();
        if c == Close(obj) {
          ok := Expect(Close(obj));
          return;
        }
        ok := Expect(COMMA);
        if !ok { return; }
        Whitespace();
      }
    }

    /** A member name and its colon. */
    method Name() returns (ok: bool)
      requires Valid()
      modifies this
      ensures Valid() && State() == MemberKey(g, old(State()), true)
      ensures ok <==> error == NoError
    {
      hide Scan.String, Scan.Whitespace, Scan.Expect, Valid;
      var d;
      ok, d := String(NestedKey);
      if !ok { return; }
      Whitespace();
      ok := Expect(COLON);
    }

    // ---- Top level ----

    method EmitBytes(bs: Bytes) returns (ok: bool)
      requires Valid() && error == NoError
      modifies this
      ensures Valid() && State() == EmitAll(g, old(State()), bs)
      ensures ok <==> error == NoError
    {
      hide Scan.Emit, Valid;
      var i := 0;
      while i < |bs|
        invariant 0 <= i <= |bs| && Valid() && error == NoError
        invariant EmitAll(g, State(), bs[i..]) == EmitAll(g, old(State()), bs)
      {
        assert bs[i..][1..] == bs[i + 1..];
        ok := Emit(bs[i]);
        if !ok { return; }
        i := i + 1;
      }
      ok := true;
    }

    /** Writes a decoded name again, escaped, with its colon. */
    method CoreKey(key: Bytes) returns (ok: bool)
      requires Valid() && error == NoError
      modifies this
      ensures Valid() && State() == EmitAll(g, old(State()), CoreKeyText(key))
      ensures ok <==> error == NoError
    {
      hide EmitAll, EscapeByte, Valid;
      ghost var s0 := State();
      EmitAllConcat(g, s0, [QUOTE], EscapeAll(false, key) + [QUOTE, COLON]);
      assert CoreKeyText(key) == [QUOTE] + (EscapeAll(false, key) + [QUOTE, COLON]);
      ok := EmitBytes([QUOTE]);
      if !ok { return; }
      var i := 0;
      assert key[0..] == key;
      while i < |key|
        invariant 0 <= i <= |key| && Valid() && error == NoError
        invariant EmitAll(g, State(), EscapeAll(false, key[i..]) + [QUOTE, COLON]) == EmitAll(g, s0, CoreKeyText(key))
      {
        ghost var rest := EscapeAll(false, key[i + 1..]) + [QUOTE, COLON];
        assert key[i..][1..] == key[i + 1..];
        assert EscapeAll(false, key[i..]) + [QUOTE, COLON] == EscapeByte(false, key[i]) + rest;
        EmitAllConcat(g, State(), EscapeByte(false, key[i]), rest);
        ok := EmitBytes(EscapeByte(false, key[i]));
        if !ok { return; }
        i := i + 1;
      }
      assert EscapeAll(false, key[i..]) + [QUOTE, COLON] == [QUOTE, COLON];
      ok := EmitBytes([QUOTE, COLON]);
    }

    method BeginOutput(json: bool) returns (ok: bool)
      requires Valid() && error == NoError
      modifies this
      ensures Valid() && State() == Scan.BeginOutput(g, old(State()), json)
      ensures ok <==> error == NoError
    {
      hide Fed, Live;
      output := EMPTY_OUTPUT;
      output := output.(format := if json then JsonFormat else TextFormat, state := Complete, observedComplete := true);
      if !(if json then allocJson else allocText) {
        Fail(Enomem);
        return false;
      }
      output := output.(value := Some([]));
      outputValues := 0;
      ok := true;
    }

    method OutputField(json: bool) returns (ok: bool)
      requires Valid() && error == NoError
      modifies this
      ensures Valid() && State() == Scan.OutputField(g, old(State()), json)
      ensures ok <==> error == NoError
    {
      hide Fed, Live, Scan.Value, Scan.BeginOutput;
      ok := BeginOutput(json);
      if !ok { return; }
      var c := Peek();
      var valid := c == if json then 123 else 34;
      if !valid {
        DiscardOutput(Invalid, InvalidData);
        output := output.(observedComplete := false);
      }
      capture := if json && valid then OutputJson else Discard;
      ok := Value(1, if !json && valid then OutText else NoDest);
    }

    method CoreField(first: bool, key: Bytes) returns (ok: bool)
      requires Valid() && error == NoError
      modifies this
      ensures Valid() && State() == Scan.CoreField(g, old(State()), first, key)
      ensures ok <==> error == NoError
    {
      hide Fed, Live, Scan.Value, EmitAll, CoreKeyText;
      capture := Core;
      ghost var s0 := State();
      EmitAllConcat(g, s0, if first then [] else [COMMA], CoreKeyText(key));
      if !first {
        ok := EmitBytes([COMMA]);
        if !ok { return; }
      } else {
        EmitNothing(g, s0);
      }
      ok := CoreKey(key);
      if !ok { return; }
      ok := Value(1, NoDest);
    }

    method Field(key: Bytes, first: bool, seenJson: bool) returns (ok: bool)
      requires Valid() && error == NoError
      modifies this
      ensures Valid() && State() == Scan.Field(g, old(State()), key, first, seenJson)
      ensures ok <==> error == NoError
    {
      hide Fed, Live, Scan.OutputField, Scan.Value, Scan.CoreField, EqNoCase;
      var json := EqNoCase(key, OUTPUT_JSON);
      var text := EqNoCase(key, OUTPUT_TEXT);
      if json || (text && !seenJson) {
        ok := OutputField(json);
      } else if text {
        ok := Value(1, NoDest);
      } else {
        ok := CoreField(first, key);
      }
    }

    /** Marks the protocol fields `key` names, unless one was seen before. */
    method MarkSeen(key: Bytes, seen: set<nat>) returns (ok: bool, r: set<nat>)
      requires Valid() && error == NoError
      modifies this
      ensures Valid() && ok == (UniqueIndices(key) * seen == {})
      ensures ok ==> State() == old(State()) && r == seen + UniqueIndices(key)
      ensures !ok ==> State() == Scan.Fail(old(State()), Eproto)
    {
      hide Fed, Live, EqNoCase;
      r := seen;
      var i: nat := 0;
      while i < |UNIQUE|
        invariant i <= |UNIQUE| && Valid() && State() == old(State())
        invariant r == seen + set j: nat | j < i && EqNoCase(key, UNIQUE[j])
        invariant forall j: nat :: j < i && EqNoCase(key, UNIQUE[j]) ==> j !in seen
      {
        if EqNoCase(key, UNIQUE[i]) {
          if i in r {
            assert i in UniqueIndices(key) * seen;
            Fail(Eproto);
            return false, r;
          }
          r := r + {i};
        }
        i := i + 1;
      }
      ok := true;
    }

    /** One top-level member, up to what follows it. */
    method Member(seen: set<nat>, first: bool, seenJson: bool)
      returns (ok: bool, seen1: set<nat>, first1: bool, seenJson1: bool)
      requires Valid()
      modifies this
      ensures Valid() && old(pos) <= pos
      ensures Scan.Fields(g, old(State()), seen, first, seenJson)
           == if ok then MoreFields(g, State(), seen1, first1, seenJson1) else State()
    {
      hide Scan.String, Scan.Whitespace, Scan.Expect, Scan.Field, EqNoCase, UniqueIndices, MoreFields, Valid;
      first1, seenJson1 := first, seenJson;
      var d;
      seen1 := seen;
      ok, d := String(RootKey([]));
      if !ok { return; }
      var key := d.key;
      ok, seen1 := MarkSeen(key, seen);
      if !ok { return; }
      Whitespace();
      ok := Expect(COLON);
      Whitespace();
      if error != NoError {
        ok := false;
        return;
      }
      ok := Field(key, first, seenJson);
      if !ok { return; }
      first1 := first && IsOutputKey(key);
      seenJson1 := seenJson || EqNoCase(key, OUTPUT_JSON);
      StopCapture();
    }

    method StopCapture()
      requires Valid()
      modifies this`capture
      ensures Valid() && State() == old(State()).(capture := Discard)
    {
      hide Fed, Live;
      capture := Discard;
    }

    method Fields()
      requires Valid()
      modifies this
      ensures Valid() && State() == Scan.Fields(g, old(State()), {}, true, false)
    {
      hide Fed, Live, Scan.Whitespace, Scan.Expect, Scan.Fields, Scan.Peek;
      var seen: set<nat>, first, seenJson := {}, true, false;
      while true
        invariant Valid()
        invariant Scan.Fields(g, State(), seen, first, seenJson) == Scan.Fields(g, old(State()), {}, true, false)
        decreases |g.t| - pos
      {
        var ok;
        ok, seen, first, seenJson := Member(seen, first, seenJson);
        if !ok { return; }
        Whitespace();
        var c := Peek();
        if c == 125 { return; }
        ok := Expect(COMMA);
        if !ok { return; }
        Whitespace();
      }
    }

    method Root() returns (ok: bool)
      requires Valid() && error == NoError && pos == 0
      modifies this
      ensures Valid() && State() == Scan.Root(g, old(State()))
      ensures ok <==> error == NoError
    {
      hide Fed, Live, Scan.Fields, Scan.Whitespace, Scan.Expect, Scan.Emit;
      capture := Discard;
      Whitespace();
      ok := Expect(123);
      if !ok { return; }
      capture := Core;
      ok := Emit(123);
      if !ok { return; }
      capture := Discard;
      Whitespace();
      var c := Peek();
      if c != 125 {
        Fields();
        if error != NoError { return false; }
      }
      ok := Finish();
    }

    method Finish() returns (ok: bool)
      requires Valid() && error == NoError
      modifies this
      ensures Valid() && State() == Scan.Finish(g, old(State()))
      ensures ok <==> error == NoError
    {
      hide Fed, Live, Scan.Whitespace, Scan.Expect, Scan.Emit;
      ok := Expect(125);
      if !ok { return; }
      capture := Core;
      ok := Emit(125);
      if !ok { return; }
      capture := Discard;
      Whitespace();
      var c := Peek();
      ok := c < 0 && error == NoError;
      if !ok { Fail(Eproto); }
    }
  }

  lemma {:induction false} EmitAllConcat(g: Input, s: St, a: Bytes, b: Bytes)
    ensures EmitAll(g, s, a + b) == EmitAll(g, EmitAll(g, s, a), b)
    decreases |a|
  {
    if a == [] {
      assert a + b == b;
    } else if s.err == NoError {
      assert (a + b)[1..] == a[1..] + b;
      EmitAllConcat(g, Emit(g, s, a[0]), a[1..], b);
    }
  }

  lemma EmitNothing(g: Input, s: St)
    ensures EmitAll(g, s, []) == s
  {
  }

  lemma MemberKeyArray(g: Input, s: St)
    ensures MemberKey(g, s, false) == s
  {
  }
}
