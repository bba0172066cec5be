/** The result frame a server sends: its statistics, the collected output and the status
    that describes it. */
module Results {
  import opened Order
  import opened Utf8
  import opened Grammar
  import opened Scan
  import opened RootExact
  import opened Placement
  import opened Render
  import opened Escaping
  import opened Tree
  import opened Printer
  import opened JsonCollector
  import opened PeerStatus
  import opened RoundTrip

  // ---- Decimal tokens ----

  function Decimal(n: nat): Bytes {
    if n < 10 then [48 + n] else Decimal(n / 10) + [48 + n % 10]
  }

  predicate AllDigits(tok: Bytes) {
    forall k :: 0 <= k < |tok| ==> Digit(tok[k])
  }

  lemma {:induction false} DecimalShape(n: nat)
    ensures 1 <= |Decimal(n)| && AllDigits(Decimal(n))
    ensures Decimal(n)[0] == 48 <==> n == 0
    ensures n == 0 ==> |Decimal(n)| == 1
  {
    if 10 <= n { DecimalShape(n / 10); }
  }

  function Ten(k: nat): nat { if k == 0 then 1 else 10 * Ten(k - 1) }

  lemma {:induction false} DecimalLength(n: nat, k: nat)
    requires 1 <= k && n < Ten(k)
    ensures |Decimal(n)| <= k
    decreases k
  {
    assert Ten(1) == 10;
    if 10 <= n {
      assert n / 10 < Ten(k - 1);
      DecimalLength(n / 10, k - 1);
    }
  }

  lemma {:induction false} SkipAllDigits(tok: Bytes, i: nat)
    requires AllDigits(tok) && i <= |tok|
    ensures SkipDigits(tok, i) == |tok|
    decreases |tok| - i
  {
    if i < |tok| { SkipAllDigits(tok, i + 1); }
  }

  lemma DecimalIsToken(n: nat)
    ensures TokOk(Decimal(n)) && 0 !in Decimal(n)
  {
    hide Decimal;
    DecimalShape(n);
    SkipAllDigits(Decimal(n), 0);
  }

  lemma SafeIsShort(n: nat)
    requires n <= SAFE_INTEGER
    ensures |Decimal(n)| <= 16
  {
    hide Decimal;
    assert Ten(4) == 10000;
    assert Ten(8) == 10000 * Ten(4);
    assert Ten(12) == 10000 * Ten(8);
    assert Ten(16) == 10000 * Ten(12);
    DecimalLength(n, 16);
  }

  // ---- The status ----

  function NumberMember(key: Bytes, n: nat): TKids {
    Single(key, TNum(Decimal(n)))
  }

  /** The total is sent only if it is known and every reader can represent it. */
  predicate SendsTotal(o: Output) {
    o.observedComplete && o.observed <= SAFE_INTEGER
  }

  function StatusKids(o: Output): TKids {
    TCons(VERSION, TNum(Decimal(1)),
    TCons(STATE, TNum(Decimal(StateNumber(o.state))),
    TCons(FORMAT, TNum(Decimal(FormatNumber(o.format))),
    TCons(REASON, TNum(Decimal(ReasonNumber(o.reason))),
    if SendsTotal(o) then NumberMember(OBSERVED, o.observed) else TNil))))
  }

  /** Tokens of integers are read as those integers. */
  ghost predicate ReadsIntegers(num: Bytes -> Double) {
    forall n: nat :: n <= SAFE_INTEGER ==> num(Decimal(n)) == Finite(n as real)
  }

  /** The number a token of digits stands for. */
  function DecimalValue(tok: Bytes): nat {
    if tok == [] then 0
    else
      var last := tok[|tok| - 1];
      10 * DecimalValue(tok[..|tok| - 1]) + if Digit(last) then last - 48 else 0
  }

  lemma {:induction false} DecimalRoundTrip(n: nat)
    ensures DecimalValue(Decimal(n)) == n
  {
    var tok := Decimal(n);
    if 10 <= n {
      DecimalRoundTrip(n / 10);
      assert tok[..|tok| - 1] == Decimal(n / 10) && tok[|tok| - 1] == 48 + n % 10;
    } else {
      assert tok[..|tok| - 1] == [];
    }
  }

  function ExactReading(tok: Bytes): Double { Finite(DecimalValue(tok) as real) }

  /** There is a reading of tokens as the end-to-end results ask for. */
  lemma IntegersCanBeRead()
    ensures ReadsIntegers(ExactReading)
  {
    hide Decimal, DecimalValue;
    forall n: nat | n <= SAFE_INTEGER ensures ExactReading(Decimal(n)) == Finite(n as real) { DecimalRoundTrip(n); }
  }

  lemma IntegerRead(num: Bytes -> Double, n: nat, lo: int, hi: int)
    requires ReadsIntegers(num) && n <= SAFE_INTEGER && lo <= n <= hi
    ensures Integer(num, Some(TNum(Decimal(n))), lo, hi) == Some(n)
  {
    assert num(Decimal(n)) == Finite(n as real);
  }

  lemma StatusFields(o: Output)
    ensures var s := StatusKids(o);
            && Find(s, VERSION) == Some(TNum(Decimal(1)))
            && Find(s, STATE) == Some(TNum(Decimal(StateNumber(o.state))))
            && Find(s, FORMAT) == Some(TNum(Decimal(FormatNumber(o.format))))
            && Find(s, REASON) == Some(TNum(Decimal(ReasonNumber(o.reason))))
            && Find(s, OBSERVED) == if SendsTotal(o) then Some(TNum(Decimal(o.observed))) else None
  {
    hide Decimal;
    var k1 := StatusKids(o).next;
    var k2 := k1.next;
    var k3 := k2.next;
    assert FORMAT[0] != REASON[0];
    assert Find(StatusKids(o), REASON) == Find(k1, REASON) == Find(k2, REASON) == Find(k3, REASON);
    assert Find(StatusKids(o), FORMAT) == Find(k1, FORMAT) == Find(k2, FORMAT);
    assert Find(StatusKids(o), OBSERVED) == Find(k1, OBSERVED) == Find(k2, OBSERVED) == Find(k3, OBSERVED)
        == Find(k3.next, OBSERVED);
  }

  lemma {:induction false} StatusOnce(o: Output, i: nat)
    requires i < |KEYS|
    ensures Count(StatusKids(o), KEYS[i]) <= 1
  {
    hide Decimal;
    var tail := if SendsTotal(o) then NumberMember(OBSERVED, o.observed) else TNil;
    assert Count(tail, KEYS[i]) == if SendsTotal(o) && KEYS[i] == OBSERVED then 1 else 0;
    var k3 := TCons(REASON, TNum(Decimal(ReasonNumber(o.reason))), tail);
    var k2 := TCons(FORMAT, TNum(Decimal(FormatNumber(o.format))), k3);
    var k1 := TCons(STATE, TNum(Decimal(StateNumber(o.state))), k2);
    assert Count(k3, KEYS[i]) == (if REASON == KEYS[i] then 1 else 0) + Count(tail, KEYS[i]);
    assert Count(k2, KEYS[i]) == (if FORMAT == KEYS[i] then 1 else 0) + Count(k3, KEYS[i]);
    assert Count(k1, KEYS[i]) == (if STATE == KEYS[i] then 1 else 0) + Count(k2, KEYS[i]);
  }

  /** The claim a record is described by. */
  function ClaimFor(o: Output): Claim {
    Claim(o.state, o.format, o.reason, if SendsTotal(o) then Some(o.observed) else None)
  }

  /** A status is read back as the record it was made from. */
  lemma StatusRoundTrip(num: Bytes -> Double, o: Output)
    requires ReadsIntegers(num) && o.state != Missing && o.format != NoFormat && Consistent(ClaimFor(o))
    ensures ClaimOf(num, TComp(true, StatusKids(o))) == Some(ClaimFor(o))
  {
    hide StatusKids, Find, Count, Decimal, KEYS, ReadsIntegers, Integer;
    StatusFields(o);
    forall i | 0 <= i < |KEYS| ensures Count(StatusKids(o), KEYS[i]) <= 1 { StatusOnce(o, i); }
    IntegerRead(num, 1, 1, 1);
    IntegerRead(num, StateNumber(o.state), 1, 4);
    IntegerRead(num, FormatNumber(o.format), 1, 2);
    IntegerRead(num, ReasonNumber(o.reason), 0, 6);
    if SendsTotal(o) { IntegerRead(num, o.observed, 0, SAFE_INTEGER); } else { NoInteger(num); }
  }

  lemma NoInteger(num: Bytes -> Double)
    ensures Integer(num, None, 0, SAFE_INTEGER) == None
  {
  }

  // ---- One output member among the statistics ----

  /** No member is one of the two output fields. */
  predicate Outputless(kids: TKids) {
    match kids
    case TNil => true
    case TCons(key, _, next) => !IsOutputKey(key) && Outputless(next)
  }

  function Inserted(before: TKids, key: Bytes, val: Tree, after: TKids): Kids {
    SyntaxKids(true, Append(before, TCons(key, val, after)))
  }

  function Without(before: TKids, after: TKids): Kids {
    SyntaxKids(true, Append(before, after))
  }

  /** Two members with the same text are interchangeable in the text. */
  lemma {:induction false} SameText(before: TKids, key: Bytes, a: Tree, b: Tree, after: TKids)
    requires CompactTree(a) == CompactTree(b)
    ensures KidsText(true, Inserted(before, key, a, after)) == KidsText(true, Inserted(before, key, b, after))
  {
    hide Text, EscapeAll;
    if before.TCons? { SameText(before.next, key, a, b, after); }
  }

  lemma {:induction false} InsertedMeasures(before: TKids, key: Bytes, val: Tree, after: TKids)
    ensures var all := Inserted(before, key, val, after);
            var core := Without(before, after);
            && KidsNodes(all) == KidsNodes(core) + Nodes(Syntax(val))
            && KidsHeight(all) == Max(KidsHeight(core), Height(Syntax(val)))
            && (PlainKids(all, MAX_NUMBER) <==>
                  PlainKids(core, MAX_NUMBER) && 0 !in key && Plain(Syntax(val), MAX_NUMBER))
            && (KeysOk(all) <==> KeysOk(core) && 0 !in key && |key| <= MAX_KEY)
  {
    hide Nodes, Height, EscapeAll, Plain;
    if before.TCons? { InsertedMeasures(before.next, key, val, after); }
  }

  lemma {:induction false} InsertedWellFormed(before: TKids, key: Bytes, val: Tree, after: TKids)
    requires WellFormedKids(true, true, Without(before, after)) && WellFormed(true, Syntax(val)) && Valid(key)
    ensures WellFormedKids(true, true, Inserted(before, key, val, after))
  {
    hide WellFormed, LitOk, EscapeAll, Valid;
    EscapedBody(true, true, key);
    if before.TCons? { InsertedWellFormed(before.next, key, val, after); }
  }

  lemma {:induction false} InsertedCore(before: TKids, key: Bytes, val: Tree, after: TKids)
    requires IsOutputKey(key)
    ensures CoreKids(Inserted(before, key, val, after)) == CoreKids(Without(before, after))
  {
    hide IsOutputKey, EscapeAll;
    if before.TCons? { InsertedCore(before.next, key, val, after); }
  }

  /** The one output member decides the output record. */
  lemma {:induction false} InsertedOutput(limit: nat, before: TKids, key: Bytes, val: Tree, after: TKids, o: Output)
    requires Outputless(before) && Outputless(after) && IsOutputKey(key)
    ensures OutputOf(limit, Inserted(before, key, val, after), false, o)
         == ReceivedField(limit, EqNoCase(key, OUTPUT_JSON), Syntax(val))
  {
    hide EqNoCase, ReceivedField, EscapeAll;
    if before.TCons? {
      InsertedOutput(limit, before.next, key, val, after, o);
    } else {
      NoOutput(limit, after, EqNoCase(key, OUTPUT_JSON), ReceivedField(limit, EqNoCase(key, OUTPUT_JSON), Syntax(val)));
    }
  }

  lemma {:induction false} NoOutput(limit: nat, kids: TKids, seenJson: bool, o: Output)
    requires Outputless(kids)
    ensures OutputOf(limit, SyntaxKids(true, kids), seenJson, o) == o
  {
    hide EqNoCase, ReceivedField, EscapeAll;
    if kids.TCons? { NoOutput(limit, kids.next, seenJson, o); }
  }

  lemma {:induction false} AllAllocated(g: Input, kids: Kids, seenJson: bool)
    requires g.allocText && g.allocJson
    ensures AllocOk(g, kids, seenJson)
  {
    hide EqNoCase;
    if kids.KCons? { AllAllocated(g, kids.next, seenJson || EqNoCase(kids.key.val, OUTPUT_JSON)); }
  }

  /** The indices of the two output fields among the protocol fields. */
  const OUTPUTS: set<nat> := {6, 7}

  lemma OutputIndices(key: Bytes)
    ensures IsOutputKey(key) <==> UniqueIndices(key) * OUTPUTS != {}
  {
    assert UNIQUE[6] == OUTPUT_TEXT && UNIQUE[7] == OUTPUT_JSON;
    assert 6 in UniqueIndices(key) <==> EqNoCase(key, OUTPUT_TEXT);
    assert 7 in UniqueIndices(key) <==> EqNoCase(key, OUTPUT_JSON);
    hide UniqueIndices;
    var both := UniqueIndices(key) * OUTPUTS;
    assert forall i :: i in both <==> i in UniqueIndices(key) && (i == 6 || i == 7);
  }

  lemma OutputNames()
    ensures UniqueIndices(OUTPUT_TEXT) <= OUTPUTS && UniqueIndices(OUTPUT_JSON) <= OUTPUTS
  {
    hide EqNoCase;
    forall i: nat | i < |UNIQUE| && i !in OUTPUTS ensures |UNIQUE[i]| != 18 {}
    forall a: Bytes, b: Bytes | EqNoCase(a, b) ensures |a| == |b| { EqualLengths(a, b); }
  }

  lemma EqualLengths(a: Bytes, b: Bytes)
    requires EqNoCase(a, b)
    ensures |a| == |b|
  {
  }

  lemma {:induction false} UniqueExtra(kids: TKids, seen: set<nat>, extra: set<nat>)
    requires Outputless(kids) && extra <= OUTPUTS && UniqueOk(SyntaxKids(true, kids), seen)
    ensures UniqueOk(SyntaxKids(true, kids), seen + extra)
  {
    hide IsOutputKey, UniqueIndices, EscapeAll;
    if kids.TCons? {
      OutputIndices(kids.key);
      UniqueExtra(kids.next, seen + UniqueIndices(kids.key), extra);
      assert seen + extra + UniqueIndices(kids.key) == seen + UniqueIndices(kids.key) + extra;
    }
  }

  lemma {:induction false} InsertedUnique(before: TKids, key: Bytes, val: Tree, after: TKids, seen: set<nat>)
    requires Outputless(before) && Outputless(after) && UniqueIndices(key) <= OUTPUTS && seen * OUTPUTS == {}
    requires UniqueOk(Without(before, after), seen)
    ensures UniqueOk(Inserted(before, key, val, after), seen)
  {
    hide IsOutputKey, UniqueIndices, EscapeAll;
    if before.TCons? {
      OutputIndices(before.key);
      InsertedUnique(before.next, key, val, after, seen + UniqueIndices(before.key));
    } else {
      UniqueExtra(after, seen, UniqueIndices(key));
    }
  }

  // ---- A document whose text is UTF-8 is strict JSON ----

  /** Strings and names are UTF-8. */
  predicate Utf8Tree(t: Tree)
    decreases t
  {
    match t
    case TStr(val) => Valid(val)
    case TComp(obj, kids) => Utf8Kids(obj, kids)
    case _ => true
  }

  predicate Utf8Kids(obj: bool, kids: TKids)
    decreases kids
  {
    match kids
    case TNil => true
    case TCons(key, val, next) => (obj ==> Valid(key)) && Utf8Tree(val) && Utf8Kids(obj, next)
  }

  lemma {:induction false} StrictSyntax(t: Tree)
    requires Proper(t) && Utf8Tree(t)
    ensures WellFormed(true, Syntax(t))
    decreases t, 1
  {
    hide LitOk, TokOk, Valid, EscapeAll;
    match t {
      case TStr(val) => EscapedBody(true, true, val);
      case TComp(obj, kids) => StrictKids(obj, kids);
      case _ =>
    }
  }

  lemma {:induction false} StrictKids(obj: bool, kids: TKids)
    requires ProperKids(obj, kids) && Utf8Kids(obj, kids)
    ensures WellFormedKids(true, obj, SyntaxKids(obj, kids))
    decreases kids, 0
  {
    hide LitOk, Valid, EscapeAll;
    if kids.TCons? {
      if obj { EscapedBody(true, true, kids.key); }
      StrictSyntax(kids.val);
      StrictKids(obj, kids.next);
    }
  }

  /** Bytes beyond ASCII at the front of an escaped text are those of the text. */
  lemma {:induction false} HighFront(val: Bytes, k: nat)
    requires k <= |EscapeAll(true, val)| && forall i :: 0 <= i < k ==> 0x80 <= EscapeAll(true, val)[i]
    ensures k <= |val| && val[..k] == EscapeAll(true, val)[..k]
    ensures EscapeAll(true, val)[k..] == EscapeAll(true, val[k..])
    decreases k
  {
    hide EscapeAll;
    var e := EscapeAll(true, val);
    if k == 0 {
      assert val[0..] == val && e[0..] == e;
    } else {
      HighFirst(val);
      var rest := val[1..];
      var r := EscapeAll(true, rest);
      assert e == [val[0]] + r;
      forall i | 0 <= i < k - 1 ensures 0x80 <= r[i] { assert r[i] == e[i + 1]; }
      HighFront(rest, k - 1);
      assert e[..k] == [val[0]] + r[..k - 1] && e[k..] == r[k - 1..];
      assert val[..k] == [val[0]] + rest[..k - 1] && val[k..] == rest[k - 1..];
    }
  }

  lemma HighFirst(val: Bytes)
    requires EscapeAll(true, val) != [] && 0x80 <= EscapeAll(true, val)[0]
    ensures val != [] && EscapeAll(true, val) == [val[0]] + EscapeAll(true, val[1..])
  {
    assert EscapeAll(true, val)[0] == EscapeByte(true, val[0])[0];
  }

  lemma AsciiFront(e: Bytes, rest: Bytes)
    requires (forall i :: 0 <= i < |e| ==> e[i] < 0x80) && Valid(e + rest)
    ensures Valid(rest)
  {
    if e == [] {
      assert e + rest == rest;
    } else {
      assert e + rest == [] + [e[0]] + (e[1..] + rest);
      ValidAroundAscii([], e[0], e[1..] + rest, 0);
      AsciiFront(e[1..], rest);
    }
  }

  /** Escaping hides no malformed byte. */
  lemma {:induction false} EscapedIsValid(val: Bytes)
    requires Valid(EscapeAll(true, val))
    ensures Valid(val)
    decreases |val|
  {
    hide EscapeByte;
    if val != [] {
      var e := EscapeAll(true, val);
      if val[0] < 0x80 {
        LowEscape(val[0]);
        AsciiFront(EscapeByte(true, val[0]), EscapeAll(true, val[1..]));
        EscapedIsValid(val[1..]);
        assert val == [val[0]] + val[1..];
        ValidConcat([val[0]], val[1..]);
      } else {
        HighEscape(val[0]);
        var w := Width(e[0]);
        HighFront(val, w);
        assert e == e[..w] + e[w..];
        ValidSuffix(e[..w], e[w..], 0);
        EscapedIsValid(val[w..]);
        assert val == val[..w] + val[w..];
        ScalarIsValid(e, w);
        ValidConcat(val[..w], val[w..]);
      }
    }
  }

  lemma LowEscape(b: Byte)
    requires b < 0x80
    ensures forall i :: 0 <= i < |EscapeByte(true, b)| ==> EscapeByte(true, b)[i] < 0x80
    ensures Valid([b])
  {
  }

  lemma HighEscape(b: Byte)
    requires 0x80 <= b
    ensures EscapeByte(true, b) == [b]
  {
  }

  lemma ScalarIsValid(e: Bytes, w: nat)
    requires ScalarAt(e, 0) && w == Width(e[0])
    ensures Valid(e[..w])
  {
  }

  /** The text tells that every string in it is UTF-8. */
  lemma {:induction false} TextIsUtf8(t: Tree)
    requires Valid(CompactTree(t))
    ensures Utf8Tree(t)
    decreases t, 2
  {
    hide Valid, EscapeAll, KidsText;
    match t {
      case TStr(val) =>
        var raw := EscapeAll(true, val);
        assert Quoted(raw) == [] + [QUOTE] + (raw + [QUOTE]);
        WholeAround([], QUOTE, raw + [QUOTE]);
        assert raw + [QUOTE] == raw + [QUOTE] + [];
        WholeAround(raw, QUOTE, []);
        EscapedIsValid(val);
      case TComp(obj, kids) =>
        var body := KidsText(obj, SyntaxKids(obj, kids));
        assert Text(Syntax(t)) == [] + [Open(obj)] + (body + [Close(obj)]);
        WholeAround([], Open(obj), body + [Close(obj)]);
        assert body + [Close(obj)] == body + [Close(obj)] + [];
        WholeAround(body, Close(obj), []);
        KidsAreUtf8(obj, kids);
      case _ =>
    }
  }

  lemma WholeAround(a: Bytes, c: Byte, b: Bytes)
    requires c < 0x80 && Valid(a + [c] + b)
    ensures Valid(a) && Valid(b)
  {
    ValidAroundAscii(a, c, b, 0);
  }

  lemma {:induction false} KidsAreUtf8(obj: bool, kids: TKids)
    requires Valid(KidsText(obj, SyntaxKids(obj, kids)))
    ensures Utf8Kids(obj, kids)
    decreases kids, 1
  {
    hide Valid, EscapeAll, Text, KidsText, MoreText;
    if kids.TCons? {
      var text := CompactTree(kids.val);
      var more := MoreText(obj, SyntaxKids(obj, kids.next));
      KidsTextFront(obj, kids);
      if obj {
        var raw := EscapeAll(true, kids.key);
        WholeAround([], QUOTE, raw + [QUOTE] + ([COLON] + (text + more)));
        WholeAround(raw, QUOTE, [COLON] + (text + more));
        EscapedIsValid(kids.key);
        assert [COLON] + (text + more) == [] + [COLON] + (text + more);
        WholeAround([], COLON, text + more);
      }
      MoreFront(obj, kids.next);
      if kids.next.TCons? {
        var rest := KidsText(obj, SyntaxKids(obj, kids.next));
        assert text + more == text + [COMMA] + rest;
        WholeAround(text, COMMA, rest);
        KidsAreUtf8(obj, kids.next);
      } else {
        assert text + more == text;
      }
      TextIsUtf8(kids.val);
    }
  }

  lemma KidsTextFront(obj: bool, kids: TKids)
    requires kids.TCons?
    ensures var rest := CompactTree(kids.val) + MoreText(obj, SyntaxKids(obj, kids.next));
            KidsText(obj, SyntaxKids(obj, kids))
            == if obj then [] + [QUOTE] + (EscapeAll(true, kids.key) + [QUOTE] + ([COLON] + rest)) else rest
  {
    hide Text, EscapeAll, MoreText;
  }

  lemma MoreFront(obj: bool, kids: TKids)
    ensures MoreText(obj, SyntaxKids(obj, kids))
         == if kids.TNil? then [] else [COMMA] + KidsText(obj, SyntaxKids(obj, kids))
  {
    hide KidsText;
  }
}
