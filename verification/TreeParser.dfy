/** The tree library's parser: an offset and a nesting depth moved over a buffer. It
    accepts more than RFC 8259 does; what is proved is that on every text of the grammar
    it builds the tree the text denotes, and that it never leaves its buffers. */
module TreeParser {
  import opened Utf8
  import opened Grammar
  import opened Placement
  import opened Tree
  import opened Scan

  // ---- Whitespace as the library skips it ----

  /** The library skips every byte up to and including the space, and steps back from the
      end of the buffer. */
  function SkipLow(t: Bytes, i: nat): (j: nat)
    requires i <= |t|
    ensures i <= j <= |t|
    decreases |t| - i
  {
    if i < |t| && t[i] <= 32 then SkipLow(t, i + 1) else i
  }

  /** Where the grammar's whitespace ends at a visible byte, so does the library's. */
  lemma {:induction false} SkipAgrees(t: Bytes, i: nat)
    requires i <= |t| && SkipWs(t, i) < |t| && 32 < t[SkipWs(t, i)]
    ensures SkipLow(t, i) == SkipWs(t, i)
    decreases |t| - i
  {
    if Space(t[i]) { SkipAgrees(t, i + 1); }
  }

  // ---- Numbers as strtod reads them ----

  predicate NumChar(b: int) {
    Digit(b) || b == 43 || b == 45 || b == 46 || b == 101 || b == 69
  }

  /** End of the run of number characters from `i`, at most `k` of them. */
  function RunEnd(t: Bytes, i: nat, k: nat): (j: nat)
    requires i <= |t|
    ensures i <= j <= |t| && j <= i + k
    decreases k
  {
    if k > 0 && i < |t| && NumChar(t[i]) then RunEnd(t, i + 1, k - 1) else i
  }

  /** How far strtod reads in `s` from `i`: a sign, digits with an optional point and at
      least one digit, and an exponent if it has digits; 0 if there is no number. */
  function StrtodEnd(s: Bytes, i: nat): (e: nat)
    requires i <= |s|
    ensures e <= |s|
  {
    var a := if At(s, i, 45) || At(s, i, 43) then i + 1 else i;
    var d := SkipDigits(s, a);
    var f := if At(s, d, 46) then SkipDigits(s, d + 1) else d;
    var digits := d > a || f > d + 1;
    if !digits then 0
    else
      var x := if At(s, f, 101) || At(s, f, 69) then f + 1 else f;
      var y := if x > f && (At(s, x, 43) || At(s, x, 45)) then x + 1 else x;
      if x > f && DigitAt(s, y) then SkipDigits(s, y) else f
  }

  /** strtod reads all of a number of the grammar. */
  lemma StrtodReadsNumber(s: Bytes)
    requires NumEnd(s, 0) == End(|s|)
    ensures 0 < |s| && StrtodEnd(s, 0) == |s|
  {
    var a := if At(s, 0, 45) then 1 else 0;
    var n := IntEnd(s, a);
    if At(s, a, 48) { ZeroEndsDigits(s, a); }
  }

  /** After a leading zero a whole number has no more digits. */
  lemma ZeroEndsDigits(s: Bytes, a: nat)
    requires a <= 1 && At(s, a, 48) && NumEnd(s, 0) == End(|s|)
    requires a == if At(s, 0, 45) then 1 else 0
    ensures SkipDigits(s, a) == a + 1
  {
    assert IntEnd(s, a) == End(a + 1);
    assert At(s, a + 1, 46) || FracEnd(s, a + 1) == End(a + 1);
    assert At(s, a + 1, 101) || At(s, a + 1, 69) || ExpEnd(s, a + 1) == End(a + 1);
  }

  lemma {:induction false} DigitsAreNumChars(t: Bytes, i: nat)
    requires i <= |t|
    ensures forall j :: i <= j < SkipDigits(t, i) ==> NumChar(t[j])
    decreases |t| - i
  {
    if i < |t| && Digit(t[i]) { DigitsAreNumChars(t, i + 1); }
  }

  lemma NumberIsNumChars(t: Bytes, i: nat)
    requires i <= |t| && NumEnd(t, i).End?
    ensures forall j :: i <= j < NumEnd(t, i).at ==> NumChar(t[j])
  {
    hide IntEnd, FracEnd, ExpEnd, NumChar;
    var a := if At(t, i, 45) then i + 1 else i;
    var n := IntEnd(t, a);
    var f := FracEnd(t, n.at);
    MinusIsNumChar();
    PartsAreNumChars(t, a);
    PartsAreNumChars(t, n.at);
    PartsAreNumChars(t, f.at);
  }

  lemma MinusIsNumChar()
    ensures NumChar(45)
  {
  }

  lemma PartsAreNumChars(t: Bytes, a: nat)
    requires a <= |t|
    ensures IntEnd(t, a).End? ==> forall j :: a <= j < IntEnd(t, a).at ==> NumChar(t[j])
    ensures FracEnd(t, a).End? ==> forall j :: a <= j < FracEnd(t, a).at ==> NumChar(t[j])
    ensures ExpEnd(t, a).End? ==> forall j :: a <= j < ExpEnd(t, a).at ==> NumChar(t[j])
  {
    hide SkipDigits;
    DigitsAreNumChars(t, a);
    if At(t, a, 46) { DigitsAreNumChars(t, a + 1); }
    if At(t, a, 101) || At(t, a, 69) {
      DigitsAreNumChars(t, if At(t, a + 1, 43) || At(t, a + 1, 45) then a + 2 else a + 1);
    }
  }

  lemma {:induction false} RunIsToken(t: Bytes, i: nat, e: nat, k: nat)
    requires i <= e <= |t| && e - i <= k
    requires forall j :: i <= j < e ==> NumChar(t[j])
    requires e == |t| || !NumChar(t[e])
    ensures RunEnd(t, i, k) == e
    decreases k
  {
    if i < e { RunIsToken(t, i + 1, e, k - 1); }
  }

  // ---- Strings ----

  /** End of a string body as the first pass finds it: the first quote not skipped by a
      backslash before it; |t| if there is none. */
  function QuoteFrom(t: Bytes, i: nat): (j: nat)
    requires i <= |t|
    ensures i <= j <= |t|
    ensures j < |t| ==> t[j] == QUOTE
    decreases |t| - i
  {
    if i == |t| then i
    else if t[i] == QUOTE then i
    else if t[i] == BACKSLASH then if i + 1 < |t| then QuoteFrom(t, i + 2) else |t|
    else QuoteFrom(t, i + 1)
  }

  /** Backslashes the first pass counts among the bytes from `p` up to `i`. */
  function Skips(t: Bytes, p: nat, i: nat): nat
    requires i <= |t|
    decreases i - p
  {
    if p >= i then 0
    else if t[p] == BACKSLASH then 1 + Skips(t, p + 2, i)
    else Skips(t, p + 1, i)
  }

  /** Escapes do not overlap, so any `k` bytes hold at most half as many, rounded up; and a
      byte that is no backslash starts none. */
  lemma {:induction false} SkipsStep(t: Bytes, p: nat, i: nat, j: nat)
    requires i <= j <= |t|
    ensures Skips(t, p, i) <= Skips(t, p, j) <= Skips(t, p, i) + (j - i + 1) / 2
    ensures i < |t| && t[i] != BACKSLASH && j == i + 1 ==> Skips(t, p, j) == Skips(t, p, i)
    decreases j - p
  {
    if p >= i {
      SkipsBound(t, p, j);
    } else {
      SkipsStep(t, if t[p] == BACKSLASH then p + 2 else p + 1, i, j);
    }
  }

  lemma {:induction false} SkipsBound(t: Bytes, p: nat, j: nat)
    requires j <= |t|
    ensures Skips(t, p, j) <= if p < j then (j - p + 1) / 2 else 0
    decreases j - p
  {
    if p < j { SkipsBound(t, if t[p] == BACKSLASH then p + 2 else p + 1, j); }
  }

  lemma {:induction false} SkipsMono(t: Bytes, p: nat, i: nat)
    requires p <= i <= |t|
    ensures Skips(t, p, i) <= i - p
  {
    SkipsBound(t, p, i);
  }

  /** The four digits as the library reads them: 0 if one is not hexadecimal. */
  function Hex4OrZero(t: Bytes, i: nat): (h: nat)
    requires i + 4 <= |t|
    ensures h <= 0xFFFF
  {
    if Hex4(t, i) < 0 then 0 else Hex4(t, i)
  }

  /** `k` digits at `i` after a number read so far, or -1. */
  function HexFrom(t: Bytes, i: nat, k: nat, h: nat): (r: int)
    requires i + k <= |t|
    ensures -1 <= r
    decreases k
  {
    if k == 0 then h
    else if Hex(t[i]) < 0 then -1
    else HexFrom(t, i + 1, k - 1, PushHex(h, t[i]))
  }

  lemma HexFromIsHex4(t: Bytes, i: nat)
    requires i + 4 <= |t|
    ensures HexFrom(t, i, 4, 0) == Hex4(t, i)
  {
    hide PushHex, Hex;
    if 0 <= Hex(t[i]) && 0 <= Hex(t[i + 1]) && 0 <= Hex(t[i + 2]) && 0 <= Hex(t[i + 3]) {
      var a := PushHex(0, t[i]);
      var b := PushHex(a, t[i + 1]);
      var c := PushHex(b, t[i + 2]);
      assert HexFrom(t, i, 4, 0) == HexFrom(t, i + 1, 3, a) == HexFrom(t, i + 2, 2, b)
          == HexFrom(t, i + 3, 1, c) == HexFrom(t, i + 4, 0, PushHex(c, t[i + 3]));
    } else if 0 <= Hex(t[i]) {
      var a := PushHex(0, t[i]);
      assert HexFrom(t, i, 4, 0) == HexFrom(t, i + 1, 3, a);
      if 0 <= Hex(t[i + 1]) {
        var b := PushHex(a, t[i + 1]);
        assert HexFrom(t, i + 1, 3, a) == HexFrom(t, i + 2, 2, b);
        if 0 <= Hex(t[i + 2]) {
          assert HexFrom(t, i + 2, 2, b) == HexFrom(t, i + 3, 1, PushHex(b, t[i + 2]));
        }
      }
    }
  }

  lemma {:induction false} QuoteSkips(t: Bytes, i: nat, n: nat)
    requires i + n <= |t|
    requires forall j :: i <= j < i + n ==> t[j] != QUOTE && t[j] != BACKSLASH
    ensures QuoteFrom(t, i) == QuoteFrom(t, i + n)
    decreases n
  {
    if n > 0 { QuoteSkips(t, i + 1, n - 1); }
  }

  lemma HexIsPlain(b: Byte)
    requires 0 <= Hex(b)
    ensures b != QUOTE && b != BACKSLASH
  {
  }

  lemma Hex4IsPlain(t: Bytes, i: nat)
    requires 0 <= Hex4(t, i)
    ensures forall j :: i <= j < i + 4 ==> t[j] != QUOTE && t[j] != BACKSLASH
  {
    HexIsPlain(t[i]);
    HexIsPlain(t[i + 1]);
    HexIsPlain(t[i + 2]);
    HexIsPlain(t[i + 3]);
  }

  lemma QuoteSkipsEscape(t: Bytes, i: nat)
    requires i < |t| && t[i] == BACKSLASH && Escape(t, i).Code?
    ensures QuoteFrom(t, i) == QuoteFrom(t, Escape(t, i).next)
  {
    hide Hex4, Paired;
    var c := Escape(t, i);
    if At(t, i + 1, 117) {
      Hex4IsPlain(t, i + 2);
      QuoteSkips(t, i + 2, 4);
      assert QuoteFrom(t, i) == QuoteFrom(t, i + 2) == QuoteFrom(t, i + 6);
      if c.next == i + 12 {
        Hex4IsPlain(t, i + 8);
        QuoteSkips(t, i + 8, 4);
        assert QuoteFrom(t, i + 6) == QuoteFrom(t, i + 8);
      }
    }
  }

  /** The first pass stops at the grammar's closing quote. */
  lemma {:induction false} QuoteIsEnd(t: Bytes, i: nat)
    requires StringBody(false, t, i).Body?
    ensures QuoteFrom(t, i) == StringBody(false, t, i).end - 1
    decreases |t| - i
  {
    hide Escape, Encode;
    if t[i] != QUOTE {
      var item := StringItem(false, t, i);
      QuoteIsEnd(t, item.next);
      if t[i] == BACKSLASH { QuoteSkipsEscape(t, i); }
    }
  }

  /** The UTF-8 form of a code point, as the library writes it: from the last byte to the
      first, six bits at a time. */
  method WriteUtf8(output: array<Byte>, at: nat, codepoint: nat) returns (n: nat)
    requires codepoint <= 0x10FFFF
    requires at + |Encode(codepoint)| <= output.Length
    modifies output
    ensures n == |Encode(codepoint)|
    ensures output[..at] == old(output[..at])
    ensures output[at..at + n] == Encode(codepoint)
  {
    var c := codepoint;
    var mark;
    if c < 0x80 { n, mark := 1, 0; }
    else if c < 0x800 { n, mark := 2, 0xC0; }
    else if c < 0x10000 { n, mark := 3, 0xE0; }
    else { n, mark := 4, 0xF0; }
    assert n == |Encode(codepoint)|;
    ghost var e := Encode(codepoint);
    Shift12(codepoint);
    var i := n - 1;
    while i > 0
      invariant 0 <= i < n <= 4
      invariant c == if i == n - 1 then codepoint else if i == n - 2 then codepoint / 0x40
                     else if i == n - 3 then codepoint / 0x1000 else codepoint / 0x40000
      invariant forall j :: i < j < n ==> output[at + j] == e[j]
      invariant output[..at] == old(output[..at])
    {
      output[at + i] := 0x80 + c % 0x40;
      c := c / 0x40;
      i := i - 1;
    }
    output[at] := mark + c;
    assert forall j :: 0 <= j < n ==> output[at + j] == e[j];
    assert output[at..at + n] == e;
  }

  /** Room left in the output when `o` bytes are written and the input stands at `i`. */
  lemma RoomLeft(t: Bytes, s0: nat, i: nat, j: nat, end: nat, o: nat)
    requires s0 <= i <= j <= end <= |t|
    requires o + Skips(t, s0, i) <= i - s0
    ensures Skips(t, s0, end) <= end - s0
    ensures o + (j - i) / 2 + Skips(t, s0, j) <= j - s0
    ensures o + (end - i) / 2 + Skips(t, s0, end) <= end - s0
    ensures i < |t| && t[i] != BACKSLASH && j == i + 1 ==> o + 1 + Skips(t, s0, j) <= j - s0
  {
    SkipsMono(t, s0, end);
    SkipsStep(t, s0, i, j);
    SkipsStep(t, s0, i, end);
  }

  class ParseBuffer {
    const content: Bytes
    var offset: nat
    var depth: nat

    constructor (content: Bytes)
      ensures this.content == content && offset == 0 && depth == 0
    {
      this.content := content;
      offset, depth := 0, 0;
    }

    method SkipWhitespace()
      requires offset <= |content|
      modifies this`offset
      ensures old(offset) <= offset <= |content|
      ensures old(offset) < |content| ==>
                offset == (var j := SkipLow(content, old(offset)); if j == |content| then j - 1 else j)
      ensures old(offset) == |content| ==> offset == old(offset)
    {
      if offset >= |content| { return; }
      while offset < |content| && content[offset] <= 32
        invariant offset <= |content|
        invariant SkipLow(content, offset) == SkipLow(content, old(offset))
      {
        offset := offset + 1;
      }
      if offset == |content| { offset := offset - 1; }
    }

    method ParseHex4(i: nat) returns (h: nat)
      requires i + 4 <= |content|
      ensures h == Hex4OrZero(content, i)
    {
      h := 0;
      var k := 0;
      while k < 4
        invariant 0 <= k <= 4
        invariant HexFrom(content, i + k, 4 - k, h) == HexFrom(content, i, 4, 0)
      {
        if Hex(content[i + k]) < 0 {
          HexFromIsHex4(content, i);
          return 0;
        }
        h := PushHex(h, content[i + k]);
        k := k + 1;
      }
      HexFromIsHex4(content, i);
    }

    /** A \u escape, or a pair of them: how much input it takes (0 if it is refused) and
        how many bytes it writes. */
    method Utf16Literal(i: nat, end: nat, output: array<Byte>, o: nat) returns (consumed: nat, written: nat)
      requires i + 2 <= end <= |content|
      requires content[i] == BACKSLASH && content[i + 1] == 117
      requires i + 6 <= end ==> o + 3 <= output.Length
      requires i + 12 <= end ==> o + 4 <= output.Length
      requires o <= output.Length
      modifies output
      ensures consumed == 0 || (consumed == 6 && written <= 3) || (consumed == 12 && written <= 4)
      ensures 0 < consumed ==> i + consumed <= end && o + written <= output.Length
      ensures output[..o] == old(output[..o])
      ensures var c := UnicodeEscape(content, i);
              c.Code? && c.next <= end ==>
                consumed == c.next - i && o + written <= output.Length && output[o..o + written] == Encode(c.n)
    {
      hide Hex4, Encode;
      consumed, written := 0, 0;
      if end - i < 6 { return; }
      var first := ParseHex4(i + 2);
      if 0xDC00 <= first <= 0xDFFF { return; }
      var codepoint := first;
      var length := 6;
      if 0xD800 <= first <= 0xDBFF {
        length := 12;
        if end - (i + 6) < 6 { return; }
        if content[i + 6] != BACKSLASH || content[i + 7] != 117 { return; }
        var second := ParseHex4(i + 8);
        if second < 0xDC00 || second > 0xDFFF { return; }
        codepoint := Paired(first, second);
      }
      EncodeLength(codepoint);
      written := WriteUtf8(output, o, codepoint);
      consumed := length;
    }

    method ParseString() returns (r: Option<Bytes>)
      requires offset < |content|
      modifies this`offset
      ensures old(offset) <= offset <= |content|
      ensures r.Some? ==> old(offset) < offset
      ensures At(content, old(offset), QUOTE) && StringBody(false, content, old(offset) + 1).Body? ==>
                && r == Some(Flat(StringBody(false, content, old(offset) + 1).items))
                && offset == StringBody(false, content, old(offset) + 1).end
    {
      hide StringBody, Flat, Skips;
      if content[offset] != QUOTE { return None; }
      var end, skipped := FindEnd(offset + 1);
      if end >= |content| { return None; }
      r := Decode(end, skipped);
    }

    /** The first pass: the closing quote, and how many bytes escapes will save. */
    method FindEnd(start: nat) returns (end: nat, skipped: nat)
      requires start <= |content|
      ensures start <= end <= |content|
      ensures end < |content| ==> content[end] == QUOTE && skipped == Skips(content, start, end)
      ensures StringBody(false, content, start).Body? ==> end + 1 == StringBody(false, content, start).end
    {
      hide StringBody;
      end, skipped := start, 0;
      if StringBody(false, content, start).Body? { QuoteIsEnd(content, start); }
      while end < |content| && content[end] != QUOTE
        invariant start <= end <= |content|
        invariant QuoteFrom(content, end) == QuoteFrom(content, start)
        invariant forall e :: end <= e <= |content| ==> Skips(content, start, e) == skipped + Skips(content, end, e)
      {
        ghost var was := end;
        if content[end] == BACKSLASH {
          if end + 1 >= |content| { return |content|, 0; }
          skipped := skipped + 1;
          end := end + 1;
        }
        end := end + 1;
        forall e | end <= e <= |content|
          ensures Skips(content, was, e) == (if content[was] == BACKSLASH then 1 else 0) + Skips(content, end, e)
        {
        }
      }
      if end < |content| { SkipsNone(content, end); }
    }

    /** One element of the second pass: how far the input and the output move. */
    method DecodeItem(s0: nat, i: nat, end: nat, output: array<Byte>, o: nat)
      returns (ok: bool, next: nat, filled: nat)
      requires s0 <= i < end < |content| && content[end] == QUOTE
      requires o + Skips(content, s0, i) <= i - s0
      requires output.Length + Skips(content, s0, end) == end - s0 + 2 && o < output.Length
      modifies output
      ensures ok ==> i < next <= end + 1 && o <= filled < output.Length
      ensures ok && next <= end ==> filled + Skips(content, s0, next) <= next - s0
      ensures output[..o] == old(output[..o])
      ensures var item := StringItem(false, content, i);
              item.Item? && item.next <= end ==> ok && next == item.next && output[o..filled] == item.e
    {
      hide Escape, Encode, UnicodeEscape;
      ok, next, filled := true, i, o;
      RoomLeft(content, s0, i, i + 1, end, o);
      if content[i] != BACKSLASH {
        output[o] := content[i];
        next, filled := i + 1, o + 1;
      } else if content[i + 1] == 117 {
        var consumed, written := Utf16Literal(i, end, output, o);
        if consumed == 0 {
          NoLiteral(content, i, end);
          return false, i, o;
        }
        RoomLeft(content, s0, i, i + consumed, end, o);
        next, filled := i + consumed, o + written;
        UnicodeItem(content, i);
      } else {
        var c := ShortEscape(content[i + 1]);
        if c < 0 {
          NoEscape(content, i);
          return false, i, o;
        }
        if i + 2 <= end { RoomLeft(content, s0, i, i + 2, end, o); }
        output[o] := c;
        ShortIsEncoded(content, i);
        next, filled := i + 2, o + 1;
      }
    }

    /** The second pass, into a buffer of the size the first one computed. */
    method Decode(end: nat, skipped: nat) returns (r: Option<Bytes>)
      requires offset + 1 <= end < |content| && content[end] == QUOTE
      requires skipped == Skips(content, offset + 1, end)
      requires StringBody(false, content, offset + 1).Body? ==>
                 end == StringBody(false, content, offset + 1).end - 1
      modifies this`offset
      ensures old(offset) <= offset <= |content|
      ensures r.Some? ==> old(offset) < offset
      ensures StringBody(false, content, old(offset) + 1).Body? ==>
                && r == Some(Flat(StringBody(false, content, old(offset) + 1).items))
                && offset == end + 1
    {
      hide StringItem, StringBody, Flat;
      SkipsMono(content, offset + 1, end);
      var allocation := end - offset - skipped;
      var output := new Byte[allocation + 1](_ => 0);
      var s0: nat, i: nat, o: nat := offset + 1, offset + 1, 0;
      ghost var body := StringBody(false, content, s0);
      SkipsNone(content, s0);
      if body.Body? { assert output[..0] + Flat(body.items) == Flat(body.items); }
      while i < end
        invariant s0 <= i <= end + 1 && o <= allocation && offset == old(offset)
        invariant i <= end ==> o + Skips(content, s0, i) <= i - s0
        invariant body.Body? ==> i <= end && StringBody(false, content, i).Body?
                                 && StringBody(false, content, i).end == end + 1
                                 && output[..o] + Flat(StringBody(false, content, i).items) == Flat(body.items)
      {
        ghost var item := StringItem(false, content, i);
        if body.Body? { BodyUnfold(content, i); }
        ghost var done := output[..o];
        ghost var i0 := i;
        var ok, next, filled := DecodeItem(s0, i, end, output, o);
        if !ok { return None; }
        if body.Body? {
          assert output[..filled] == done + item.e;
          assert done + (item.e + Flat(StringBody(false, content, next).items))
              == done + item.e + Flat(StringBody(false, content, next).items);
        }
        o, i := filled, next;
      }
      output[o] := 0;
      r := Some(output[..o]);
      if body.Body? {
        BodyEmpty(content, end);
        assert output[..o] + [] == output[..o];
      }
      offset := end + 1;
    }

    /** Only the run of number characters is copied, at most 63 of them; strtod decides how
        much of it is a number. */
    method ParseNumber() returns (r: Option<Tree>)
      requires offset < |content|
      modifies this`offset
      ensures old(offset) <= offset <= |content|
      ensures r.Some? ==> old(offset) < offset
      ensures var e := NumEnd(content, old(offset));
              e.End? && e.at - old(offset) <= 63 && (e.at == |content| || !NumChar(content[e.at])) ==>
                r == Some(TNum(content[old(offset)..e.at])) && offset == e.at
    {
      hide NumEnd, StrtodEnd, RunEnd, NumChar;
      var i := NumberLength();
      ghost var e := NumEnd(content, offset);
      if e.End? && e.at - offset <= 63 && (e.at == |content| || !NumChar(content[e.at])) {
        NumberIsNumChars(content, offset);
        RunIsToken(content, offset, e.at, 63);
        TokenIsOk(content, offset);
        StrtodReadsNumber(content[offset..e.at]);
        assert offset + i == e.at;
      }
      var n := StrtodEnd(content[offset..offset + i], 0);
      if n == 0 { return None; }
      r := Some(TNum(content[offset..offset + n]));
      offset := offset + n;
    }

    /** How many number characters are copied to the number buffer. */
    method NumberLength() returns (i: nat)
      requires offset < |content|
      ensures offset + i <= |content| && offset + i == RunEnd(content, offset, 63)
    {
      i := 0;
      while i < 63 && offset + i < |content| && NumChar(content[offset + i])
        invariant i <= 63 && offset + i <= |content|
        invariant RunEnd(content, offset + i, 63 - i) == RunEnd(content, offset, 63)
      {
        i := i + 1;
      }
    }

    ghost predicate Valid()
      reads this
    {
      content != [] && content[|content| - 1] == 0 && offset <= |content|
    }

    method ParseValue() returns (r: Option<Tree>)
      requires Valid()
      modifies this
      ensures Valid() && old(offset) <= offset
      ensures r.Some? ==> old(offset) < offset && depth == old(depth)
      ensures var p := ParseValueAt(false, content, old(offset));
              Readable(content, p, old(depth)) ==>
                r == Some(Denote(p.v)) && offset == p.end && depth == old(depth)
      decreases |content| - offset, 1
    {
      hide NumEnd, StringBody, ParseKids, NumChar, Flat;
      if offset < |content| { WordsByFirst(content, offset); }
      if WordAt(content, offset, NULL) {
        r, offset := Some(TNull), offset + 4;
      } else if WordAt(content, offset, FALSE) {
        r, offset := Some(TFalse), offset + 5;
      } else if WordAt(content, offset, TRUE) {
        r, offset := Some(TTrue), offset + 4;
      } else if offset < |content| && content[offset] == QUOTE {
        ghost var start := offset;
        var s := ParseString();
        r := if s.Some? then Some(TStr(s.value)) else None;
      } else if offset < |content| && (content[offset] == 45 || Digit(content[offset])) {
        r := ParseNumber();
      } else if offset < |content| && (content[offset] == 91 || content[offset] == 123) {
        r := ParseCompound(content[offset] == 123);
      } else {
        r := None;
      }
    }

    /** One child: the byte before it is skipped, then whitespace, its name, its value and
        the whitespace after it. */
    method ParseChild(obj: bool) returns (r: Option<TKids>)
      requires Valid() && offset + 1 < |content|
      modifies this
      ensures Valid() && old(offset) < offset
      ensures r.Some? ==> depth == old(depth)
      ensures ChildReadable(content, SkipWs(content, old(offset) + 1), obj, old(depth)) ==>
                var m := ParseMembers(false, content, SkipWs(content, old(offset) + 1), obj);
                && r == Some(Single(m.kids.key.val, Denote(m.kids.val)))
                && offset == SkipWs(content, ChildEnd(content, SkipWs(content, old(offset) + 1), obj))
                && depth == old(depth)
      decreases |content| - offset - 1, 2
    {
      hide StringBody, Flat, ParseValueAt, ParseMembers, ParseMore, SkipWs, SkipLow, Nesting, ShortNums, NumChar,
        Denote, Close, ParseKey;
      ghost var i := SkipWs(content, offset + 1);
      ghost var good := ChildReadable(content, i, obj, depth);
      SkipWsTwice(content, offset + 1);
      if good { ChildFacts(content, i, obj); }
      offset := offset + 1;
      if good { SkipAgrees(content, offset); }
      SkipWhitespace();
      var key := [];
      if obj {
        var name := ParseName();
        if name.None? { return None; }
        key := name.value;
      }
      if good { NoName(content, i, obj); }
      var v := ParseValue();
      if v.None? { return None; }
      if good { SkipAgrees(content, offset); }
      SkipWhitespace();
      r := Some(Single(key, v.value));
    }

    /** A member name, its colon, and the whitespace around it. */
    method ParseName() returns (r: Option<Bytes>)
      requires Valid() && offset < |content|
      modifies this`offset
      ensures Valid() && old(offset) <= offset
      ensures var k := ParseKey(false, content, old(offset), true);
              k.KeyParse? && SkipWs(content, k.end) < |content| && 32 < content[SkipWs(content, k.end)] ==>
                r == Some(k.key.val) && offset == SkipWs(content, k.end)
    {
      hide StringBody, Flat, SkipWs, SkipLow;
      ghost var k := ParseKey(false, content, offset, true);
      ghost var good := k.KeyParse? && SkipWs(content, k.end) < |content| && 32 < content[SkipWs(content, k.end)];
      var s := ParseString();
      if s.None? { return None; }
      if good { SkipAgrees(content, offset); }
      SkipWhitespace();
      if offset >= |content| || content[offset] != COLON { return None; }
      offset := offset + 1;
      if good { SkipAgrees(content, offset); }
      SkipWhitespace();
      r := Some(s.value);
    }

    method ParseCompound(obj: bool) returns (r: Option<Tree>)
      requires Valid() && offset < |content| && content[offset] == Open(obj)
      modifies this
      ensures Valid() && old(offset) <= offset
      ensures r.Some? ==> old(offset) < offset && depth == old(depth)
      ensures var k := ParseKids(false, content, old(offset) + 1, obj);
              k.KidsParse? && ShortNumsKids(k.kids) && old(depth) + 1 + KidsNesting(k.kids) <= NESTING_LIMIT ==>
                r == Some(TComp(obj, DenoteKids(k.kids))) && offset == k.end && depth == old(depth)
      decreases |content| - offset, 0
    {
      hide ParseKids, SkipWs, SkipLow, DenoteKids, KidsNesting, ShortNumsKids, KidsAhead, Close;
      if depth >= NESTING_LIMIT { return None; }
      depth := depth + 1;
      ghost var k := ParseKids(false, content, offset + 1, obj);
      ghost var good := k.KidsParse? && ShortNumsKids(k.kids) && depth + KidsNesting(k.kids) <= NESTING_LIMIT;
      ghost var start := offset;
      offset := offset + 1;
      if good {
        CompoundStart(content, offset, obj);
      }
      SkipWhitespace();
      if content[offset] == Close(obj) {
        if good { EmptyKids(); }
        depth, offset := depth - 1, offset + 1;
        return Some(TComp(obj, TNil));
      }
      offset := offset - 1;
      if good { FirstAhead(content, start + 1, obj, depth, k); }
      var kids := ParseChildren(obj, k);
      if kids.None? || offset >= |content| || content[offset] != Close(obj) { return None; }
      depth, offset := depth - 1, offset + 1;
      r := Some(TComp(obj, kids.value));
    }

    /** The comma-separated children, up to what follows the last one. */
    method ParseChildren(obj: bool, ghost k: KidsParse) returns (r: Option<TKids>)
      requires Valid() && offset + 1 < |content|
      modifies this
      ensures Valid() && old(offset) <= offset
      ensures r.Some? ==> depth == old(depth)
      ensures KidsAhead(content, old(offset), obj, old(depth), k, TNil) ==>
                r == Some(DenoteKids(k.kids)) && At(content, offset, Close(obj)) && k.end == offset + 1
      decreases |content| - offset - 1, 3
    {
      hide ParseMembers, SkipWs, DenoteKids, KidsAhead, Append, ChildReadable, ChildEnd;
      ghost var good := KidsAhead(content, offset, obj, depth, k, TNil);
      if good { AheadParsed(content, offset, obj, depth, k, TNil); }
      var kids := TNil;
      while true
        invariant Valid() && old(offset) <= offset && offset + 1 < |content|
        invariant depth == old(depth)
        invariant good ==> KidsAhead(content, offset, obj, depth, k, kids)
        decreases |content| - offset
      {
        ghost var at := offset;
        if good { ChildAhead(content, offset, obj, depth, k, kids); }
        var child := ParseChild(obj);
        if child.None? { return None; }
        ghost var before := kids;
        kids := Append(kids, child.value);
        if offset >= |content| || content[offset] != COMMA {
          if good { LastChild(content, at, offset, obj, depth, k, before, kids); }
          return Some(kids);
        }
        if good { MoreAhead(content, at, offset, obj, depth, k, before, kids); }
        CommaNotLast(content, offset);
      }
    }
  }

  /** Parses a whole buffer, terminator included; nothing but whitespace may stand between
      the value and the terminator. */
  method ParseTerminated(content: Bytes) returns (r: Option<Tree>)
    requires content != [] && content[|content| - 1] == 0
    ensures var p := ParseValueAt(false, content, SkipWs(content, 0));
            Readable(content, p, 0) && SkipWs(content, p.end) == |content| - 1 ==> r == Some(Denote(p.v))
  {
    hide SkipWs, SkipLow, ParseValueAt, Denote;
    ghost var p := ParseValueAt(false, content, SkipWs(content, 0));
    ghost var good := Readable(content, p, 0) && SkipWs(content, p.end) == |content| - 1;
    var buffer := new ParseBuffer(content);
    if 4 < |content| && content[..3] == [0xEF, 0xBB, 0xBF] {
      NoMark(content);
      buffer.offset := 3;
    }
    if good {
      ValueVisible(content, SkipWs(content, 0));
      SkipAgrees(content, 0);
    }
    buffer.SkipWhitespace();
    r := buffer.ParseValue();
    if r.None? { return; }
    if good { SkipToTerminator(content, p.end); }
    buffer.SkipWhitespace();
    if buffer.offset >= |content| || content[buffer.offset] != 0 { return None; }
  }

  /** A text of the grammar does not start with a byte order mark. */
  lemma NoMark(t: Bytes)
    requires 4 < |t| && t[..3] == [0xEF, 0xBB, 0xBF]
    ensures ParseValueAt(false, t, SkipWs(t, 0)).NoParse?
  {
    assert t[0] == t[..3][0];
    WordsByFirst(t, 0);
  }

  /** Whitespace up to the terminator: the library skips the terminator too, and steps back. */
  lemma {:induction false} SkipToTerminator(t: Bytes, i: nat)
    requires t != [] && t[|t| - 1] == 0 && i < |t| && SkipWs(t, i) == |t| - 1
    ensures SkipLow(t, i) == |t|
    decreases |t| - i
  {
    if Space(t[i]) { SkipToTerminator(t, i + 1); }
  }

  /** Where the value of the member at `i` ends. */
  function ChildEnd(t: Bytes, i: nat, obj: bool): (e: nat)
    requires i <= |t|
    ensures e <= |t|
  {
    var k := ParseKey(false, t, i, obj);
    if k.NoKey? then i else
      var p := ParseValue(false, t, k.end);
      if p.NoParse? then i else p.end
  }

  lemma ValueVisible(t: Bytes, j: nat)
    requires j <= |t| && ParseValueAt(false, t, j).Parse?
    ensures j < |t| && 32 < t[j]
  {
    hide StringBody, NumEnd, ParseKids;
    if j < |t| { WordsByFirst(t, j); }
  }

  /** A member of the grammar, as the library meets it: what stands at each place where it
      skips whitespace is visible, and a number is followed by something else. */
  lemma ChildFacts(t: Bytes, i: nat, obj: bool)
    requires i <= |t| && SkipWs(t, i) == i && ParseMembers(false, t, i, obj).KidsParse?
    ensures var m := ParseMembers(false, t, i, obj);
            var k := ParseKey(false, t, i, obj);
            var p := ParseValue(false, t, k.end);
            var j := SkipWs(t, p.end);
            && i < |t| && 32 < t[i]
            && k.KeyParse? && p.Parse? && m.kids.key == k.key && m.kids.val == p.v
            && ParseMore(false, t, p.end, obj).KidsParse?
            && SkipWs(t, k.end) < |t| && 32 < t[SkipWs(t, k.end)]
            && j < |t| && (t[j] == COMMA || t[j] == Close(obj)) && 32 < t[j]
            && (p.v.Num? ==> !NumChar(t[p.end]))
            && (!obj ==> k.end == i)
            && (obj ==> var b := StringBody(false, t, i + 1);
                        && t[i] == QUOTE && b.Body? && k.key.val == Flat(b.items)
                        && SkipWs(t, b.end) < |t| && t[SkipWs(t, b.end)] == COLON
                        && k.end == SkipWs(t, b.end) + 1)
  {
    hide StringBody, Flat, ParseValueAt, NumChar;
    var k := ParseKey(false, t, i, obj);
    ValueVisible(t, SkipWs(t, k.end));
    var p := ParseValue(false, t, k.end);
    DelimiterFollows(t, p.end);
  }

  lemma NoName(t: Bytes, i: nat, obj: bool)
    requires i <= |t|
    ensures var k := ParseKey(false, t, i, obj); !obj ==> k.KeyParse? && k.key.val == [] && k.end == i
  {
  }

  lemma DelimiterFollows(t: Bytes, e: nat)
    requires e <= |t| && SkipWs(t, e) < |t|
    requires t[SkipWs(t, e)] == COMMA || t[SkipWs(t, e)] == 93 || t[SkipWs(t, e)] == 125
    ensures e < |t| && !NumChar(t[e])
  {
  }

  /** What follows an opening bracket is visible. */
  lemma KidsVisible(t: Bytes, i: nat, obj: bool)
    requires i <= |t| && ParseKids(false, t, i, obj).KidsParse?
    ensures var j := SkipWs(t, i); j < |t| && 32 < t[j]
  {
    hide ParseMembers;
    var j := SkipWs(t, i);
    SkipWsTwice(t, i);
    if !At(t, j, Close(obj)) { ChildFacts(t, j, obj); }
  }

  /** Where the library finds the closing bracket or the first child. */
  lemma CompoundStart(t: Bytes, i: nat, obj: bool)
    requires i <= |t| && ParseKids(false, t, i, obj).KidsParse?
    ensures var j := SkipWs(t, i);
            && j < |t| && SkipLow(t, i) == j
            && (t[j] == Close(obj) ==> ParseKids(false, t, i, obj) == KidsParse(KNil, j + 1))
  {
    hide ParseMembers;
    KidsVisible(t, i, obj);
    SkipAgrees(t, i);
  }

  lemma EmptyKids()
    ensures DenoteKids(KNil) == TNil
  {
  }

  /** With `kids` read and the cursor before the next member, the members still ahead
      complete the list `k`. */
  predicate KidsAhead(t: Bytes, offset: nat, obj: bool, depth: nat, k: KidsParse, kids: TKids)
    requires offset < |t|
  {
    var i := SkipWs(t, offset + 1);
    var m := ParseMembers(false, t, i, obj);
    && k.KidsParse? && m.KidsParse? && m.end == k.end
    && ShortNumsKids(m.kids) && depth + KidsNesting(m.kids) <= NESTING_LIMIT
    && Append(kids, DenoteKids(m.kids)) == DenoteKids(k.kids)
  }

  lemma FirstAhead(t: Bytes, i: nat, obj: bool, depth: nat, k: KidsParse)
    requires 0 < i <= |t| && k == ParseKids(false, t, i, obj) && k.KidsParse?
    requires ShortNumsKids(k.kids) && depth + KidsNesting(k.kids) <= NESTING_LIMIT
    requires !At(t, SkipWs(t, i), Close(obj))
    ensures KidsAhead(t, SkipWs(t, i) - 1, obj, depth, k, TNil)
  {
    hide ParseMembers, SkipWs;
    SkipWsTwice(t, i);
  }

  lemma AheadParsed(t: Bytes, offset: nat, obj: bool, depth: nat, k: KidsParse, kids: TKids)
    requires offset < |t| && KidsAhead(t, offset, obj, depth, k, kids)
    ensures k.KidsParse?
  {
  }

  lemma ChildAhead(t: Bytes, offset: nat, obj: bool, depth: nat, k: KidsParse, kids: TKids)
    requires offset < |t| && KidsAhead(t, offset, obj, depth, k, kids)
    ensures SkipWs(t, SkipWs(t, offset + 1)) == SkipWs(t, offset + 1)
    ensures ChildReadable(t, SkipWs(t, offset + 1), obj, depth)
  {
    hide ParseMembers, SkipWs;
    SkipWsTwice(t, offset + 1);
  }

  /** The members after the one at `i`. */
  lemma RestOfMembers(t: Bytes, i: nat, obj: bool)
    requires i <= |t| && ParseMembers(false, t, i, obj).KidsParse?
    ensures var m := ParseMembers(false, t, i, obj);
            var r := ParseMore(false, t, ChildEnd(t, i, obj), obj);
            r.KidsParse? && m.kids.next == r.kids && m.end == r.end
  {
    hide ParseMore;
  }

  lemma MoreAhead(t: Bytes, at: nat, offset: nat, obj: bool, depth: nat, k: KidsParse, before: TKids, kids: TKids)
    requires at < |t| && KidsAhead(t, at, obj, depth, k, before)
    requires var i := SkipWs(t, at + 1);
             var m := ParseMembers(false, t, i, obj);
             && offset == SkipWs(t, ChildEnd(t, i, obj)) && offset < |t| && t[offset] == COMMA
             && kids == Append(before, Single(m.kids.key.val, Denote(m.kids.val)))
    ensures KidsAhead(t, offset, obj, depth, k, kids)
  {
    hide SkipWs, ParseMembers, ChildEnd;
    var i := SkipWs(t, at + 1);
    var m := ParseMembers(false, t, i, obj);
    RestOfMembers(t, i, obj);
    AppendAssoc(before, Single(m.kids.key.val, Denote(m.kids.val)), DenoteKids(m.kids.next));
  }

  lemma LastChild(t: Bytes, at: nat, offset: nat, obj: bool, depth: nat, k: KidsParse, before: TKids, kids: TKids)
    requires at < |t| && KidsAhead(t, at, obj, depth, k, before)
    requires var i := SkipWs(t, at + 1);
             var m := ParseMembers(false, t, i, obj);
             && offset == SkipWs(t, ChildEnd(t, i, obj)) && !At(t, offset, COMMA)
             && kids == Append(before, Single(m.kids.key.val, Denote(m.kids.val)))
    ensures At(t, offset, Close(obj)) && k.end == offset + 1 && kids == DenoteKids(k.kids)
  {
    hide SkipWs, ParseMembers, ChildEnd;
    var i := SkipWs(t, at + 1);
    var m := ParseMembers(false, t, i, obj);
    RestOfMembers(t, i, obj);
    assert m.kids.next == KNil;
    assert DenoteKids(m.kids) == Single(m.kids.key.val, Denote(m.kids.val));
  }

  /** A comma is never the last byte of a terminated buffer. */
  lemma CommaNotLast(t: Bytes, i: nat)
    requires t != [] && t[|t| - 1] == 0 && i < |t| && t[i] == COMMA
    ensures i + 1 < |t|
  {
  }

  /** What the library must read as the value `p` says: a value of the grammar with short
      numbers, within the nesting limit, and, if a number, not followed by more number
      characters. */
  predicate Readable(t: Bytes, p: Parse, depth: nat) {
    && p.Parse? && p.end <= |t|
    && ShortNums(p.v)
    && depth + Nesting(p.v) <= NESTING_LIMIT
    && (p.v.Num? ==> p.end == |t| || !NumChar(t[p.end]))
  }

  predicate ChildReadable(t: Bytes, i: nat, obj: bool, depth: nat)
    requires i <= |t|
  {
    var m := ParseMembers(false, t, i, obj);
    m.KidsParse? && ShortNums(m.kids.val) && depth + Nesting(m.kids.val) <= NESTING_LIMIT
  }

  lemma SkipsNone(t: Bytes, p: nat)
    requires p <= |t|
    ensures Skips(t, p, p) == 0
  {
  }

  lemma BodyEmpty(t: Bytes, i: nat)
    requires i < |t| && t[i] == QUOTE
    ensures StringBody(false, t, i) == Body([], i + 1)
    ensures Flat(StringBody(false, t, i).items) == []
  {
  }

  lemma UnicodeItem(t: Bytes, i: nat)
    requires i + 1 < |t| && t[i] == BACKSLASH && t[i + 1] == 117
    ensures var c := UnicodeEscape(t, i);
            StringItem(false, t, i) == if c.NoCode? then NoItem else Item(Encode(c.n), c.next)
  {
    hide UnicodeEscape, Encode;
  }

  /** What the library refuses as a literal is no element before `end`. */
  lemma NoLiteral(t: Bytes, i: nat, end: nat)
    requires i + 1 < |t| && t[i] == BACKSLASH && t[i + 1] == 117
    ensures var c := UnicodeEscape(t, i);
            StringItem(false, t, i).Item? && StringItem(false, t, i).next <= end ==> c.Code? && c.next <= end
  {
    UnicodeItem(t, i);
  }

  lemma EncodeLength(c: nat)
    requires c <= 0x10FFFF
    ensures |Encode(c)| <= if c <= 0xFFFF then 3 else 4
  {
  }

  /** The next element of a body, and the elements after it. */
  lemma BodyUnfold(t: Bytes, i: nat)
    requires i < |t| && StringBody(false, t, i).Body? && StringBody(false, t, i).end != i + 1
    ensures var item := StringItem(false, t, i);
            && item.Item?
            && item.next < StringBody(false, t, i).end
            && StringBody(false, t, item.next).Body?
            && StringBody(false, t, item.next).end == StringBody(false, t, i).end
            && Flat(StringBody(false, t, i).items) == item.e + Flat(StringBody(false, t, item.next).items)
  {
    hide StringItem;
    var b := StringBody(false, t, i);
    var item := StringItem(false, t, i);
    assert b.items[0] == item.e && b.items[1..] == StringBody(false, t, item.next).items;
  }

  lemma NoEscape(t: Bytes, i: nat)
    requires i + 1 < |t| && t[i] == BACKSLASH && t[i + 1] != 117 && ShortEscape(t[i + 1]) < 0
    ensures StringItem(false, t, i) == NoItem
  {
  }

  lemma ShortIsEncoded(t: Bytes, i: nat)
    requires i + 1 < |t| && t[i] == BACKSLASH && t[i + 1] != 117 && 0 <= ShortEscape(t[i + 1])
    ensures StringItem(false, t, i) == Item([ShortEscape(t[i + 1])], i + 2)
  {
  }
}
