/** JSON texts as RFC 8259 defines them: syntax trees, their whitespace-free text,
    and a reference parser from a text and a position to a tree and the position
    after it. The parser is the specification both the streaming reader and the
    tree library are measured against; it knows nothing of their limits. */
module Grammar {
  import opened Order
  import opened Utf8

  const QUOTE: Byte := 34
  const COMMA: Byte := 44
  const COLON: Byte := 58
  const BACKSLASH: Byte := 92

  /** A string literal: the text between its quotes and the bytes it denotes. */
  datatype Lit = Lit(raw: Bytes, val: Bytes)

  const NO_KEY := Lit([], [])

  datatype Json =
    | Null
    | True
    | False
    | Num(tok: Bytes)
    | Str(lit: Lit)
    | Comp(obj: bool, kids: Kids)

  /** Members of an object, or elements of an array (whose keys are `NO_KEY`). */
  datatype Kids = KNil | KCons(key: Lit, val: Json, next: Kids)

  const NULL: Bytes := [110, 117, 108, 108]
  const TRUE: Bytes := [116, 114, 117, 101]
  const FALSE: Bytes := [102, 97, 108, 115, 101]

  function Open(obj: bool): Byte { if obj then 123 else 91 }
  function Close(obj: bool): Byte { if obj then 125 else 93 }

  // ---- Whitespace-free text ----

  function Quoted(raw: Bytes): Bytes {
    [QUOTE] + raw + [QUOTE]
  }

  function KeyText(obj: bool, key: Lit): Bytes {
    if obj then Quoted(key.raw) + [COLON] else []
  }

  function Text(v: Json): (r: Bytes)
    ensures 1 <= |r| || v.Num?
    decreases v
  {
    match v
    case Null => NULL
    case True => TRUE
    case False => FALSE
    case Num(tok) => tok
    case Str(lit) => Quoted(lit.raw)
    case Comp(obj, kids) => [Open(obj)] + KidsText(obj, kids) + [Close(obj)]
  }

  function KidsText(obj: bool, kids: Kids): Bytes
    decreases kids, 0
  {
    match kids
    case KNil => []
    case KCons(key, val, next) =>
      KeyText(obj, key) + Text(val) + MoreText(obj, next)
  }

  function MoreText(obj: bool, kids: Kids): Bytes
    decreases kids, 1
  {
    if kids.KNil? then [] else [COMMA] + KidsText(obj, kids)
  }

  // ---- Escaping ----

  function HexDigit(n: nat): Byte
    requires n < 16
  {
    if n < 10 then 48 + n else 97 + n - 10
  }

  /** The letter of the two-byte escape of a control character, or 0. */
  function ShortLetter(b: Byte): Byte {
    if b == 8 then 98 else if b == 12 then 102 else if b == 10 then 110
    else if b == 13 then 114 else if b == 9 then 116 else 0
  }

  /** One byte inside a string literal; `short` allows the two-byte escapes of control
      characters. */
  function EscapeByte(short: bool, b: Byte): Bytes {
    if b == QUOTE || b == BACKSLASH then [BACKSLASH, b]
    else if short && ShortLetter(b) != 0 then [BACKSLASH, ShortLetter(b)]
    else if b < 0x20 then [BACKSLASH, 117, 48, 48, HexDigit(b / 16), HexDigit(b % 16)]
    else [b]
  }

  function EscapeAll(short: bool, bs: Bytes): Bytes {
    if bs == [] then [] else EscapeByte(short, bs[0]) + EscapeAll(short, bs[1..])
  }

  // ---- Measures ----

  /** Levels of nesting; a scalar is one level. */
  function Height(v: Json): (h: nat)
    ensures 1 <= h
  {
    match v
    case Comp(_, kids) => 1 + KidsHeight(kids)
    case _ => 1
  }

  function KidsHeight(kids: Kids): nat {
    match kids
    case KNil => 0
    case KCons(_, val, next) => Max(Height(val), KidsHeight(next))
  }

  /** Number of values, the value itself included. */
  function Nodes(v: Json): (n: nat)
    ensures 1 <= n
  {
    match v
    case Comp(_, kids) => 1 + KidsNodes(kids)
    case _ => 1
  }

  function KidsNodes(kids: Kids): nat {
    match kids
    case KNil => 0
    case KCons(_, val, next) => Nodes(val) + KidsNodes(next)
  }

  /** No member name below `v` holds a NUL, and no number is longer than `maximum`. */
  predicate Plain(v: Json, maximum: nat) {
    match v
    case Num(tok) => |tok| <= maximum
    case Comp(obj, kids) => PlainKids(kids, maximum)
    case _ => true
  }

  predicate PlainKids(kids: Kids, maximum: nat) {
    match kids
    case KNil => true
    case KCons(key, val, next) => 0 !in key.val && Plain(val, maximum) && PlainKids(next, maximum)
  }

  // ---- Reference parser ----

  predicate Space(b: int) { b == 32 || b == 9 || b == 13 || b == 10 }
  predicate Digit(b: int) { 48 <= b <= 57 }

  function SkipWs(t: Bytes, i: nat): (j: nat)
    requires i <= |t|
    ensures i <= j <= |t|
    ensures j < |t| ==> !Space(t[j])
    decreases |t| - i
  {
    if i < |t| && Space(t[i]) then SkipWs(t, i + 1) else i
  }

  lemma {:induction false} SkipWsTwice(t: Bytes, i: nat)
    requires i <= |t|
    ensures SkipWs(t, SkipWs(t, i)) == SkipWs(t, i)
    decreases |t| - i
  {
    if i < |t| && Space(t[i]) { SkipWsTwice(t, i + 1); }
  }

  function SkipDigits(t: Bytes, i: nat): (j: nat)
    requires i <= |t|
    ensures i <= j <= |t|
    ensures j < |t| ==> !Digit(t[j])
    ensures i < |t| && Digit(t[i]) ==> i < j
    decreases |t| - i
  {
    if i < |t| && Digit(t[i]) then SkipDigits(t, i + 1) else i
  }

  predicate At(t: Bytes, i: nat, b: int) {
    i < |t| && t[i] == b
  }

  predicate DigitAt(t: Bytes, i: nat) {
    i < |t| && Digit(t[i])
  }

  datatype End = NoEnd | End(at: nat)

  /** Integer part: a single zero, or digits not starting with zero. */
  function IntEnd(t: Bytes, i: nat): (e: End)
    requires i <= |t|
    ensures e.End? ==> i < e.at <= |t|
  {
    if At(t, i, 48) then End(i + 1)
    else if DigitAt(t, i) then End(SkipDigits(t, i))
    else NoEnd
  }

  function FracEnd(t: Bytes, i: nat): (e: End)
    requires i <= |t|
    ensures e.End? ==> i <= e.at <= |t|
  {
    if !At(t, i, 46) then End(i)
    else if DigitAt(t, i + 1) then End(SkipDigits(t, i + 1))
    else NoEnd
  }

  function ExpEnd(t: Bytes, i: nat): (e: End)
    requires i <= |t|
    ensures e.End? ==> i <= e.at <= |t|
  {
    if !At(t, i, 101) && !At(t, i, 69) then End(i)
    else
      var j := if At(t, i + 1, 43) || At(t, i + 1, 45) then i + 2 else i + 1;
      if DigitAt(t, j) then End(SkipDigits(t, j)) else NoEnd
  }

  /** Section 6 of RFC 8259. */
  function NumEnd(t: Bytes, i: nat): (e: End)
    requires i <= |t|
    ensures e.End? ==> i < e.at <= |t|
  {
    var n := IntEnd(t, if At(t, i, 45) then i + 1 else i);
    if n.NoEnd? then NoEnd else
      var f := FracEnd(t, n.at);
      if f.NoEnd? then NoEnd else ExpEnd(t, f.at)
  }

  function Hex(b: int): (d: int)
    ensures -1 <= d < 16
  {
    if 48 <= b <= 57 then b - 48
    else if 97 <= b <= 102 then b - 97 + 10
    else if 65 <= b <= 70 then b - 65 + 10
    else -1
  }

  function PushHex(n: nat, b: int): (r: nat)
    requires 0 <= Hex(b)
    ensures r <= n * 16 + 15
  {
    n * 16 + Hex(b)
  }

  /** Four hexadecimal digits at `i`, or -1. */
  function Hex4(t: Bytes, i: nat): (h: int)
    ensures -1 <= h <= 0xFFFF
    ensures 0 <= h ==> i + 4 <= |t|
  {
    if i + 4 <= |t| && 0 <= Hex(t[i]) && 0 <= Hex(t[i + 1]) && 0 <= Hex(t[i + 2]) && 0 <= Hex(t[i + 3])
    then PushHex(PushHex(PushHex(PushHex(0, t[i]), t[i + 1]), t[i + 2]), t[i + 3])
    else -1
  }

  /** One decoded element of a string: the bytes it denotes and where it ends. */
  datatype Item = NoItem | Item(e: Bytes, next: nat)

  /** The character a two-byte escape denotes, or -1. */
  function ShortEscape(b: int): (r: int)
    ensures -1 <= r < 0x80 && r != 0
  {
    if b == 34 || b == 92 || b == 47 then b
    else if b == 98 then 8
    else if b == 102 then 12
    else if b == 110 then 10
    else if b == 114 then 13
    else if b == 116 then 9
    else -1
  }

  /** The scalar value of a surrogate pair. */
  function Paired(high: nat, low: nat): (n: nat)
    requires 0xD800 <= high <= 0xDBFF && 0xDC00 <= low <= 0xDFFF
    ensures 0x10000 <= n <= 0x10FFFF
  {
    0x10000 + (high - 0xD800) * 0x400 + (low - 0xDC00)
  }

  /** The scalar value an escape denotes, and where it ends. */
  datatype Code = NoCode | Code(n: nat, next: nat)

  /** Section 7 of RFC 8259; a surrogate must come as a high and low pair. */
  function UnicodeEscape(t: Bytes, i: nat): (r: Code)
    ensures r.Code? ==> i + 6 <= r.next <= |t| && r.n <= 0x10FFFF
  {
    var h := Hex4(t, i + 2);
    if h < 0 || 0xDC00 <= h <= 0xDFFF then NoCode
    else if 0xD800 <= h <= 0xDBFF then
      var l := Hex4(t, i + 8);
      if At(t, i + 6, 92) && At(t, i + 7, 117) && 0xDC00 <= l <= 0xDFFF
      then Code(Paired(h, l), i + 12)
      else NoCode
    else Code(h, i + 6)
  }

  /** The escape whose backslash is at `i`. */
  function Escape(t: Bytes, i: nat): (r: Code)
    ensures r.Code? ==> i + 2 <= r.next <= |t| && r.n <= 0x10FFFF
  {
    if At(t, i + 1, 117) then UnicodeEscape(t, i)
    else if i + 1 < |t| && 0 <= ShortEscape(t[i + 1]) then Code(ShortEscape(t[i + 1]), i + 2)
    else NoCode
  }

  /** The element at `i`. A strict text is UTF-8; otherwise any byte that is not a
      control character stands for itself. */
  function StringItem(strict: bool, t: Bytes, i: nat): (r: Item)
    requires i < |t|
    ensures r.Item? ==> i < r.next <= |t| && 1 <= |r.e| <= 4
    ensures r.Item? ==> t[i] != QUOTE
  {
    if t[i] == BACKSLASH then
      var c := Escape(t, i);
      if c.NoCode? then NoItem else Item(Encode(c.n), c.next)
    else if t[i] < 0x20 || t[i] == QUOTE then NoItem
    else if !strict then Item([t[i]], i + 1)
    else if ScalarAt(t, i) then Item(t[i..i + Width(t[i])], i + Width(t[i]))
    else NoItem
  }

  /** The decoded elements up to the closing quote, and the position after it. */
  datatype Body = NoBody | Body(items: seq<Bytes>, end: nat)

  function StringBody(strict: bool, t: Bytes, i: nat): (r: Body)
    ensures r.Body? ==> i < r.end <= |t| && t[r.end - 1] == QUOTE
    decreases |t| - i
  {
    if i >= |t| then NoBody
    else if t[i] == QUOTE then Body([], i + 1)
    else
      var item := StringItem(strict, t, i);
      if item.NoItem? then NoBody else
        var rest := StringBody(strict, t, item.next);
        if rest.NoBody? then NoBody else Body([item.e] + rest.items, rest.end)
  }

  function Flat(items: seq<Bytes>): Bytes {
    if items == [] then [] else items[0] + Flat(items[1..])
  }

  /** The literal whose body starts at `i`. */
  function LitOf(t: Bytes, i: nat, b: Body): Lit
    requires b.Body? && i < b.end <= |t|
  {
    Lit(t[i..b.end - 1], Flat(b.items))
  }

  predicate WordAt(t: Bytes, i: nat, w: Bytes) {
    i + |w| <= |t| && t[i..i + |w|] == w
  }

  datatype Parse = NoParse | Parse(v: Json, end: nat)
  datatype KidsParse = NoKids | KidsParse(kids: Kids, end: nat)

  /** One value, leading whitespace allowed. */
  function ParseValue(strict: bool, t: Bytes, i: nat): (r: Parse)
    requires i <= |t|
    ensures r.Parse? ==> i < r.end <= |t|
    decreases |t| - i, 2
  {
    ParseValueAt(strict, t, SkipWs(t, i))
  }

  function ParseValueAt(strict: bool, t: Bytes, j: nat): (r: Parse)
    requires j <= |t|
    ensures r.Parse? ==> j < r.end <= |t|
    decreases |t| - j, 1
  {
    if j == |t| then NoParse
    else if t[j] == QUOTE then
      var b := StringBody(strict, t, j + 1);
      if b.NoBody? then NoParse else Parse(Str(LitOf(t, j + 1, b)), b.end)
    else if t[j] == 45 || Digit(t[j]) then
      var e := NumEnd(t, j);
      if e.NoEnd? then NoParse else Parse(Num(t[j..e.at]), e.at)
    else if WordAt(t, j, TRUE) then Parse(True, j + 4)
    else if WordAt(t, j, FALSE) then Parse(False, j + 5)
    else if WordAt(t, j, NULL) then Parse(Null, j + 4)
    else if t[j] == 91 || t[j] == 123 then
      var k := ParseKids(strict, t, j + 1, t[j] == 123);
      if k.NoKids? then NoParse else Parse(Comp(t[j] == 123, k.kids), k.end)
    else NoParse
  }

  /** What follows an opening bracket, through the closing one. */
  function ParseKids(strict: bool, t: Bytes, i: nat, obj: bool): (r: KidsParse)
    requires i <= |t|
    ensures r.KidsParse? ==> i < r.end <= |t| && t[r.end - 1] == Close(obj)
    decreases |t| - i, 4
  {
    var j := SkipWs(t, i);
    if At(t, j, Close(obj)) then KidsParse(KNil, j + 1) else ParseMembers(strict, t, j, obj)
  }

  /** A member name with its colon, or nothing in an array: the literal and the
      position of the value. */
  datatype KeyParse = NoKey | KeyParse(key: Lit, end: nat)

  function ParseKey(strict: bool, t: Bytes, i: nat, obj: bool): (r: KeyParse)
    requires i <= |t|
    ensures r.KeyParse? ==> i <= r.end <= |t|
  {
    if !obj then KeyParse(NO_KEY, i)
    else if !At(t, i, QUOTE) then NoKey
    else
      var b := StringBody(strict, t, i + 1);
      if b.NoBody? then NoKey else
        var j := SkipWs(t, b.end);
        if At(t, j, COLON) then KeyParse(LitOf(t, i + 1, b), j + 1) else NoKey
  }

  /** One member and what follows it, through the closing bracket. */
  function ParseMembers(strict: bool, t: Bytes, i: nat, obj: bool): (r: KidsParse)
    requires i <= |t|
    ensures r.KidsParse? ==> i < r.end <= |t| && r.kids.KCons? && t[r.end - 1] == Close(obj)
    decreases |t| - i, 3
  {
    var k := ParseKey(strict, t, i, obj);
    if k.NoKey? then NoKids else
      var p := ParseValue(strict, t, k.end);
      if p.NoParse? then NoKids else
        var r := ParseMore(strict, t, p.end, obj);
        if r.NoKids? then NoKids else KidsParse(KCons(k.key, p.v, r.kids), r.end)
  }

  /** What follows a member: the closing bracket, or a comma and more members. */
  function ParseMore(strict: bool, t: Bytes, i: nat, obj: bool): (r: KidsParse)
    requires i <= |t|
    ensures r.KidsParse? ==> i < r.end <= |t| && t[r.end - 1] == Close(obj)
    decreases |t| - i, 4
  {
    var j := SkipWs(t, i);
    if At(t, j, Close(obj)) then KidsParse(KNil, j + 1)
    else if At(t, j, COMMA) then ParseMembers(strict, t, SkipWs(t, j + 1), obj)
    else NoKids
  }

  /** A whole text: one value with optional whitespace around it. */
  function ParseText(strict: bool, t: Bytes): (r: Parse) {
    var p := ParseValue(strict, t, 0);
    if p.Parse? && SkipWs(t, p.end) == |t| then p else NoParse
  }
}
