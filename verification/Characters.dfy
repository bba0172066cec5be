/** What the tables of characters and names mean that the reference grammar, the scanner and
    the tree library share. */
module Characters {
  import opened Utf8
  import opened Grammar
  import opened Scan
  import opened RootExact
  import JsonCollector
  import PeerStatus

  // ---- Hexadecimal digits ----

  const LOWER_DIGITS: string := "0123456789abcdef"
  const UPPER_DIGITS: string := "0123456789ABCDEF"

  /** `b` is the hexadecimal digit `d`, in either case. */
  predicate IsDigit(b: int, d: nat)
    requires d < 16
  {
    b == LOWER_DIGITS[d] as int || b == UPPER_DIGITS[d] as int
  }

  lemma HexIsDigit(b: int, d: nat)
    requires d < 16
    ensures Hex(b) == d <==> IsDigit(b, d)
  {
  }

  /** The four digits at `i` stand for `n`, the most significant first. */
  predicate DigitsAt(t: Bytes, i: nat, n: nat)
    requires n <= 0xFFFF
  {
    && i + 4 <= |t|
    && IsDigit(t[i], n / 0x1000) && IsDigit(t[i + 1], n / 0x100 % 0x10)
    && IsDigit(t[i + 2], n / 0x10 % 0x10) && IsDigit(t[i + 3], n % 0x10)
  }

  lemma FourDigits(a: nat, b: nat, c: nat, d: nat, n: nat)
    requires a < 16 && b < 16 && c < 16 && d < 16
    ensures n == ((a * 16 + b) * 16 + c) * 16 + d <==>
              n / 0x1000 == a && n / 0x100 % 0x10 == b && n / 0x10 % 0x10 == c && n % 0x10 == d
  {
    var q := n / 0x10;
    var p := q / 0x10;
    assert n / 0x100 == p && n / 0x1000 == p / 0x10;
  }

  /** Four digits in whatever case are read as the number they stand for, and nothing else
      is. */
  lemma Hex4IsNumber(t: Bytes, i: nat, n: nat)
    requires n <= 0xFFFF
    ensures Hex4(t, i) == n <==> DigitsAt(t, i, n)
  {
    hide Hex, IsDigit;
    HexIsDigitAll();
    if i + 4 <= |t| && 0 <= Hex(t[i]) && 0 <= Hex(t[i + 1]) && 0 <= Hex(t[i + 2]) && 0 <= Hex(t[i + 3]) {
      FourDigits(Hex(t[i]), Hex(t[i + 1]), Hex(t[i + 2]), Hex(t[i + 3]), n);
    }
  }

  lemma HexIsDigitAll()
    ensures forall b: int, d: nat {:trigger Hex(b), IsDigit(b, d)} :: d < 16 ==> (Hex(b) == d <==> IsDigit(b, d))
    ensures forall b: int, d: nat {:trigger IsDigit(b, d)} :: d < 16 && IsDigit(b, d) ==> Hex(b) == d
  {
    forall b: int, d: nat | d < 16 ensures Hex(b) == d <==> IsDigit(b, d) { HexIsDigit(b, d); }
  }

  // ---- Escapes ----

  /** A backslash, `u` and the four digits of a UTF-16 unit. */
  predicate UnitAt(t: Bytes, i: nat, unit: nat)
    requires unit <= 0xFFFF
  {
    At(t, i, '\\' as int) && At(t, i + 1, 'u' as int) && DigitsAt(t, i + 2, unit)
  }

  /** The two units of a scalar beyond the basic plane: section 2.1 of RFC 2781. */
  function HighUnit(s: nat): (u: nat)
    requires 0x10000 <= s <= 0x10FFFF
    ensures 0xD800 <= u <= 0xDBFF
  {
    0xD800 + (s - 0x10000) / 0x400
  }

  function LowUnit(s: nat): (u: nat)
    requires 0x10000 <= s <= 0x10FFFF
    ensures 0xDC00 <= u <= 0xDFFF
  {
    0xDC00 + (s - 0x10000) % 0x400
  }

  /** The escapes of the scalar `s` stand at `i` and end at `e`. */
  predicate ScalarEscaped(t: Bytes, i: nat, s: nat, e: nat) {
    && IsScalar(s)
    && if s < 0x10000 then UnitAt(t, i, s) && e == i + 6
       else UnitAt(t, i, HighUnit(s)) && UnitAt(t, i + 6, LowUnit(s)) && e == i + 12
  }

  /** The letters of the two-byte escapes and the characters they denote. */
  const LETTERS: string := "\"\\/bfnrt"
  const DENOTED: string := "\"\\/\U{08}\U{0C}\n\r\t"

  predicate Denotes(b: int, c: int) {
    |DENOTED| == |LETTERS| && exists k :: 0 <= k < |LETTERS| && LETTERS[k] as int == b && DENOTED[k] as int == c
  }

  lemma ShortEscapeIs(b: int, c: int)
    ensures 0 <= c ==> (ShortEscape(b) == c <==> Denotes(b, c))
  {
    assert |LETTERS| == |DENOTED| == 8;
    if 0 <= ShortEscape(b) {
      var k := if b == 34 then 0 else if b == 92 then 1 else if b == 47 then 2 else if b == 98 then 3
               else if b == 102 then 4 else if b == 110 then 5 else if b == 114 then 6 else 7;
      assert LETTERS[k] as int == b && DENOTED[k] as int == ShortEscape(b);
    }
  }

  lemma LowerDigit(n: nat)
    requires n < 16
    ensures HexDigit(n) == LOWER_DIGITS[n] as int && IsDigit(HexDigit(n), n) && IsDigit('0' as int, 0)
  {
  }

  /** One character written: a backslash before a quotation mark or another backslash, the
      letter of a control character where letters are allowed and it has one, four lower-case
      digits for any other control character, and itself. */
  lemma EscapedIs(short: bool, b: Byte, k: nat)
    requires 3 <= k < 8
    ensures var e, c := EscapeByte(short, b), DENOTED[k] as int;
            && (b == '"' as int || b == '\\' as int ==> e == ['\\' as int, b])
            && (b != '"' as int && b != '\\' as int && ' ' as int <= b ==> e == [b])
            && (short && b == c ==> e == ['\\' as int, LETTERS[k] as int])
            && (b < ' ' as int && (!short || (forall j :: 3 <= j < 8 ==> DENOTED[j] as int != b)) ==>
                  && |e| == 6 && UnitAt(e, 0, b)
                  && e[4] == LOWER_DIGITS[b / 16] as int && e[5] == LOWER_DIGITS[b % 16] as int)
  {
    hide HexDigit;
    if b < 32 {
      LowerDigit(b / 16);
      LowerDigit(b % 16);
    }
    assert DENOTED[3] as int == 8 && DENOTED[4] as int == 12 && DENOTED[5] as int == 10;
    assert DENOTED[6] as int == 13 && DENOTED[7] as int == 9;
  }

  /** A pair is the scalar whose units it holds. */
  lemma PairIsScalar(high: nat, low: nat, s: nat)
    requires 0xD800 <= high <= 0xDBFF && 0xDC00 <= low <= 0xDFFF && 0x10000 <= s <= 0x10FFFF
    ensures Paired(high, low) == s <==> high == HighUnit(s) && low == LowUnit(s)
  {
    var q, r := high - 0xD800, low - 0xDC00;
    var n := s - 0x10000;
    if n == q * 0x400 + r { assert n / 0x400 == q && n % 0x400 == r; }
  }

  /** Escapes of the form \uXXXX denote exactly the scalar that they are the UTF-16 of: one
      unit in the basic plane, a high and a low one beyond it, digits in either case. */
  lemma EscapeIsUtf16(t: Bytes, i: nat, s: nat, e: nat)
    requires At(t, i, '\\' as int) && At(t, i + 1, 'u' as int)
    ensures Escape(t, i) == Code(s, e) <==> ScalarEscaped(t, i, s, e)
  {
    hide Hex4, DigitsAt, Paired, HighUnit, LowUnit;
    var h, l := Hex4(t, i + 2), Hex4(t, i + 8);
    if 0 <= h { Hex4IsNumber(t, i + 2, h); }
    if 0 <= l { Hex4IsNumber(t, i + 8, l); }
    if s < 0x10000 { Hex4IsNumber(t, i + 2, s); }
    if 0x10000 <= s <= 0x10FFFF {
      Hex4IsNumber(t, i + 2, HighUnit(s));
      Hex4IsNumber(t, i + 8, LowUnit(s));
      if 0xD800 <= h <= 0xDBFF && 0xDC00 <= l <= 0xDFFF { PairIsScalar(h, l, s); }
    }
  }

  /** A string element written as an escape gives the UTF-8 of that scalar, strictly read or
      not. */
  lemma EscapedScalarIsRead(strict: bool, t: Bytes, i: nat, s: nat, e: nat)
    requires ScalarEscaped(t, i, s, e)
    ensures StringItem(strict, t, i) == Item(Encode(s), e)
  {
    hide Encode, ScalarEscaped, Escape;
    UnitsStart(t, i, s, e);
    EscapeIsUtf16(t, i, s, e);
  }

  lemma UnitsStart(t: Bytes, i: nat, s: nat, e: nat)
    requires ScalarEscaped(t, i, s, e)
    ensures At(t, i, '\\' as int) && At(t, i + 1, 'u' as int) && IsScalar(s)
  {
    hide DigitsAt;
  }

  // ---- UTF-8 ----

  /** The number the payload bits of a scalar's bytes make: section 3 of RFC 3629. */
  function Payload(e: Bytes): int {
    match |e|
    case 1 => e[0]
    case 2 => (e[0] as int - 0xC0) * 0x40 + (e[1] as int - 0x80)
    case 3 => (e[0] as int - 0xE0) * 0x1000 + (e[1] as int - 0x80) * 0x40 + (e[2] as int - 0x80)
    case 4 =>
      (e[0] as int - 0xF0) * 0x40000 + (e[1] as int - 0x80) * 0x1000 + (e[2] as int - 0x80) * 0x40
      + (e[3] as int - 0x80)
    case _ => -1
  }

  lemma Sixes(s: nat)
    ensures s == s / 0x40 * 0x40 + s % 0x40
    ensures s == s / 0x1000 * 0x1000 + s / 0x40 % 0x40 * 0x40 + s % 0x40
    ensures s == s / 0x40000 * 0x40000 + s / 0x1000 % 0x40 * 0x1000 + s / 0x40 % 0x40 * 0x40 + s % 0x40
  {
    var a := s / 0x40;
    var b := a / 0x40;
    assert s / 0x1000 == b && s / 0x40000 == b / 0x40;
  }

  /** The bytes of a scalar are one well-formed scalar whose payload it is. */
  lemma EncodeIsPayload(s: nat)
    requires IsScalar(s)
    ensures ScalarAt(Encode(s), 0) && Width(Encode(s)[0]) == |Encode(s)| && Payload(Encode(s)) == s
  {
    Sixes(s);
  }

  /** A well-formed scalar decodes to its payload. */
  lemma DecodeIsPayload(t: Bytes, i: nat)
    requires ScalarAt(t, i)
    ensures Decode(t, i) == Payload(t[i..i + Width(t[i])])
  {
  }

  // ---- Characters and names ----

  lemma CharactersAre(b: Byte)
    ensures Space(b) <==> b in {' ' as int, '\t' as int, '\n' as int, '\r' as int}
    ensures Digit(b) <==> '0' as int <= b <= '9' as int
    ensures 'A' as int <= b <= 'Z' as int ==> Lower(b) == b - 'A' as int + 'a' as int
    ensures !('A' as int <= b <= 'Z' as int) ==> Lower(b) == b
  {
  }

  predicate Spells(b: Bytes, s: string) {
    |b| == |s| && forall i :: 0 <= i < |s| ==> b[i] == s[i] as int
  }

  lemma WordsAre()
    ensures Spells(TRUE, "true") && Spells(FALSE, "false") && Spells(NULL, "null")
    ensures Spells([QUOTE, BACKSLASH, COMMA, COLON], "\"\\,:")
    ensures Spells([Open(true), Close(true), Open(false), Close(false)], "{}[]")
    ensures Spells(JsonCollector.INTERVALS, "intervals")
  {
  }

  lemma OutputNamesAre()
    ensures Spells(OUTPUT_TEXT, "server_output_text") && Spells(OUTPUT_JSON, "server_output_json")
  {
  }

  lemma StatusNamesAre()
    ensures Spells(STATUS, "iperf_swift_server_output") && Spells(PeerStatus.VERSION, "version")
    ensures Spells(PeerStatus.STATE, "state") && Spells(PeerStatus.FORMAT, "format")
    ensures Spells(PeerStatus.REASON, "reason") && Spells(PeerStatus.OBSERVED, "observed_bytes")
  {
  }

  lemma FieldsAre()
    ensures |UNIQUE| == 9
    ensures Spells(UNIQUE[0], "cpu_util_total") && Spells(UNIQUE[1], "cpu_util_user")
    ensures Spells(UNIQUE[2], "cpu_util_system") && Spells(UNIQUE[4], "streams")
    ensures UNIQUE[6] == OUTPUT_TEXT && UNIQUE[7] == OUTPUT_JSON && UNIQUE[8] == STATUS
  {
  }

  lemma LongFieldsAre()
    ensures |UNIQUE| == 9
    ensures Spells(UNIQUE[3], "sender_has_retransmits") && Spells(UNIQUE[5], "congestion_used")
  {
  }

  // ---- Members by name ----

  /** Members of that name, whatever the case of its letters. */
  function Occurrences(kids: Kids, name: Bytes): nat {
    match kids
    case KNil => 0
    case KCons(key, _, next) => (if EqNoCase(key.val, name) then 1 else 0) + Occurrences(next, name)
  }

  /** Another occurrence of the `i`-th field is one too many. */
  predicate Fresh(kids: Kids, seen: set<nat>, i: nat)
    requires i < |UNIQUE|
  {
    Occurrences(kids, UNIQUE[i]) <= if i in seen then 0 else 1
  }

  lemma {:induction false} UniqueFrom(kids: Kids, seen: set<nat>)
    ensures UniqueOk(kids, seen) <==> forall i: nat :: i < |UNIQUE| ==> Fresh(kids, seen, i)
  {
    hide EqNoCase, UNIQUE;
    if kids.KCons? {
      var here := UniqueIndices(kids.key.val);
      UniqueFrom(kids.next, seen + here);
      if UniqueOk(kids, seen) {
        forall i: nat | i < |UNIQUE| ensures Fresh(kids, seen, i) {
          assert Fresh(kids.next, seen + here, i);
          assert i !in here * seen;
        }
      } else if here * seen != {} {
        var i :| i in here * seen;
        assert !Fresh(kids, seen, i);
      } else {
        var i: nat :| i < |UNIQUE| && !Fresh(kids.next, seen + here, i);
        assert !Fresh(kids, seen, i);
      }
    }
  }

  /** A frame passes the duplicate check exactly when each protocol field occurs at most
      once. */
  lemma UniqueMeans(kids: Kids)
    ensures UniqueOk(kids, {}) <==> forall i: nat :: i < |UNIQUE| ==> Occurrences(kids, UNIQUE[i]) <= 1
  {
    hide UNIQUE, Occurrences;
    UniqueFrom(kids, {});
    forall i: nat | i < |UNIQUE| ensures Fresh(kids, {}, i) <==> Occurrences(kids, UNIQUE[i]) <= 1 {}
  }

  /** The value of the first member of that name. */
  function MemberOf(kids: Kids, name: Bytes): Option<Json> {
    match kids
    case KNil => None
    case KCons(key, val, next) => if EqNoCase(key.val, name) then Some(val) else MemberOf(next, name)
  }

  /** What is received of a frame's output: its JSON member if there is one, whatever the
      order, or else its text member. */
  function Received(limit: nat, kids: Kids): Output {
    var json, text := MemberOf(kids, OUTPUT_JSON), MemberOf(kids, OUTPUT_TEXT);
    if json.Some? then ReceivedField(limit, true, json.value)
    else if text.Some? then ReceivedField(limit, false, text.value)
    else EMPTY_OUTPUT
  }

  lemma {:induction false} NoMember(kids: Kids, name: Bytes)
    ensures Occurrences(kids, name) == 0 <==> MemberOf(kids, name).None?
  {
    hide EqNoCase;
    if kids.KCons? { NoMember(kids.next, name); }
  }

  lemma {:induction false} OutputFrom(limit: nat, kids: Kids, seenJson: bool, o: Output)
    requires Occurrences(kids, OUTPUT_JSON) + (if seenJson then 1 else 0) <= 1 && Occurrences(kids, OUTPUT_TEXT) <= 1
    ensures OutputOf(limit, kids, seenJson, o)
         == if seenJson then o
            else if MemberOf(kids, OUTPUT_JSON).Some? || MemberOf(kids, OUTPUT_TEXT).Some? then Received(limit, kids)
            else o
  {
    hide EqNoCase, ReceivedField;
    if kids.KCons? {
      var json := EqNoCase(kids.key.val, OUTPUT_JSON);
      var text := EqNoCase(kids.key.val, OUTPUT_TEXT);
      var o1 := if json || (text && !seenJson) then ReceivedField(limit, json, kids.val) else o;
      OutputFrom(limit, kids.next, seenJson || json, o1);
      NoMember(kids.next, OUTPUT_JSON);
      NoMember(kids.next, OUTPUT_TEXT);
      NotBoth(kids.key.val);
    }
  }

  lemma NotBoth(key: Bytes)
    ensures !(EqNoCase(key, OUTPUT_JSON) && EqNoCase(key, OUTPUT_TEXT))
  {
    assert Lower(OUTPUT_JSON[14]) != Lower(OUTPUT_TEXT[14]);
  }

  /** JSON output is preferred to text in whatever order the two come. */
  lemma JsonIsPreferred(limit: nat, kids: Kids)
    requires UniqueOk(kids, {})
    ensures OutputOf(limit, kids, false, EMPTY_OUTPUT) == Received(limit, kids)
  {
    hide EqNoCase, ReceivedField, UNIQUE, OUTPUT_JSON, OUTPUT_TEXT;
    UniqueMeans(kids);
    FieldNames();
    assert Occurrences(kids, UNIQUE[6]) <= 1 && Occurrences(kids, UNIQUE[7]) <= 1;
    OutputFrom(limit, kids, false, EMPTY_OUTPUT);
  }

  /** Output of the wrong kind is reported as such, whatever else it is; it stands for no
      bytes. */
  lemma WrongKindIs(limit: nat, v: Json)
    ensures !(v.Comp? && v.obj) ==>
              ReceivedField(limit, true, v) == Output(None, 0, Invalid, JsonFormat, InvalidData, false)
    ensures !v.Str? ==> ReceivedField(limit, false, v) == Output(None, 0, Invalid, TextFormat, InvalidData, false)
  {
  }

  lemma FieldNames()
    ensures |UNIQUE| == 9 && UNIQUE[6] == OUTPUT_TEXT && UNIQUE[7] == OUTPUT_JSON
  {
  }
}
