/** The tree library's items as values, and what a syntax tree denotes as one. */
module Tree {
  import opened Order
  import opened Utf8
  import opened Grammar
  import opened Placement

  const NESTING_LIMIT: nat := 1000

  /** An item of the tree library. Strings are byte sequences, before any reading as C
      strings; a number is the token that stands for it; `TRaw` is text printed as is. */
  datatype Tree =
    | TNull
    | TTrue
    | TFalse
    | TNum(tok: Bytes)
    | TStr(val: Bytes)
    | TRaw(text: Bytes)
    | TComp(obj: bool, kids: TKids)

  /** A child list; array elements have an empty name. */
  datatype TKids = TNil | TCons(key: Bytes, val: Tree, next: TKids)

  function Denote(v: Json): Tree {
    match v
    case Null => TNull
    case True => TTrue
    case False => TFalse
    case Num(tok) => TNum(tok)
    case Str(lit) => TStr(lit.val)
    case Comp(obj, kids) => TComp(obj, DenoteKids(kids))
  }

  function DenoteKids(kids: Kids): TKids {
    match kids
    case KNil => TNil
    case KCons(key, val, next) => TCons(key.val, Denote(val), DenoteKids(next))
  }

  /** Levels of arrays and objects. */
  function Nesting(v: Json): nat {
    match v
    case Comp(_, kids) => 1 + KidsNesting(kids)
    case _ => 0
  }

  function KidsNesting(kids: Kids): nat {
    match kids
    case KNil => 0
    case KCons(_, val, next) => Max(Nesting(val), KidsNesting(next))
  }

  lemma {:induction false} NestingBelowHeight(v: Json)
    ensures Nesting(v) <= Height(v)
    decreases v, 1
  {
    if v.Comp? { KidsNestingBelowHeight(v.kids); }
  }

  lemma {:induction false} KidsNestingBelowHeight(kids: Kids)
    ensures KidsNesting(kids) <= KidsHeight(kids)
    decreases kids, 0
  {
    if kids.KCons? {
      NestingBelowHeight(kids.val);
      KidsNestingBelowHeight(kids.next);
    }
  }

  /** Every number has at most 63 characters, what the library's number buffer holds. */
  predicate ShortNums(v: Json) {
    match v
    case Num(tok) => |tok| <= 63
    case Comp(_, kids) => ShortNumsKids(kids)
    case _ => true
  }

  predicate ShortNumsKids(kids: Kids) {
    match kids
    case KNil => true
    case KCons(_, val, next) => ShortNums(val) && ShortNumsKids(next)
  }

  lemma {:induction false} PlainIsShort(v: Json)
    requires Plain(v, 63)
    ensures ShortNums(v)
    decreases v, 1
  {
    if v.Comp? { PlainKidsIsShort(v.kids); }
  }

  lemma {:induction false} PlainKidsIsShort(kids: Kids)
    requires PlainKids(kids, 63)
    ensures ShortNumsKids(kids)
    decreases kids, 0
  {
    if kids.KCons? {
      PlainIsShort(kids.val);
      PlainKidsIsShort(kids.next);
    }
  }

  // ---- Child lists built from the front ----

  function Append(a: TKids, b: TKids): TKids {
    match a
    case TNil => b
    case TCons(key, val, next) => TCons(key, val, Append(next, b))
  }

  function Single(key: Bytes, val: Tree): TKids {
    TCons(key, val, TNil)
  }

  lemma {:induction false} AppendAssoc(a: TKids, b: TKids, c: TKids)
    ensures Append(Append(a, b), c) == Append(a, Append(b, c))
  {
    if a.TCons? { AppendAssoc(a.next, b, c); }
  }

  // ---- Strict texts are lenient texts ----

  /** The bytes of one well-formed scalar, taken one at a time. */
  lemma {:induction false} BytesOfScalar(t: Bytes, i: nat, e: nat)
    requires i < e <= |t|
    requires forall j :: i <= j < e ==> 0x80 <= t[j]
    requires StringBody(false, t, e).Body?
    ensures var b := StringBody(false, t, e);
            var r := StringBody(false, t, i);
            r.Body? && r.end == b.end && Flat(r.items) == t[i..e] + Flat(b.items)
    decreases e - i
  {
    hide StringBody, Flat;
    if i + 1 < e { BytesOfScalar(t, i + 1, e); }
    HighByte(t, i);
    assert t[i..e] == [t[i]] + t[i + 1..e];
  }

  lemma HighByte(t: Bytes, i: nat)
    requires i < |t| && 0x80 <= t[i] && StringBody(false, t, i + 1).Body?
    ensures var rest := StringBody(false, t, i + 1);
            var r := StringBody(false, t, i);
            r.Body? && r.end == rest.end && Flat(r.items) == [t[i]] + Flat(rest.items)
  {
    hide Escape, Encode;
    var rest := StringBody(false, t, i + 1);
    var r := StringBody(false, t, i);
    assert r.items[0] == [t[i]] && r.items[1..] == rest.items;
  }

  lemma {:induction false} LenientBody(t: Bytes, i: nat)
    requires StringBody(true, t, i).Body?
    ensures var b := StringBody(true, t, i);
            var r := StringBody(false, t, i);
            r.Body? && r.end == b.end && Flat(r.items) == Flat(b.items)
    decreases |t| - i
  {
    hide StringItem, StringBody, Flat;
    if t[i] == QUOTE {
      QuoteEnds(t, i);
    } else {
      var item := StringItem(true, t, i);
      BodyStep(true, t, i);
      LenientBody(t, item.next);
      LenientItem(t, i);
      if t[i] < 0x80 { BodyOf(false, t, i); } else { BytesOfScalar(t, i, item.next); }
    }
  }

  lemma QuoteEnds(t: Bytes, i: nat)
    requires i < |t| && t[i] == QUOTE
    ensures StringBody(false, t, i) == StringBody(true, t, i) == Body([], i + 1)
  {
  }

  /** A body that does not end here begins with an element. */
  lemma BodyStep(strict: bool, t: Bytes, i: nat)
    requires StringBody(strict, t, i).Body? && t[i] != QUOTE
    ensures StringItem(strict, t, i).Item? && StringBody(strict, t, StringItem(strict, t, i).next).Body?
    ensures var b, item := StringBody(strict, t, i), StringItem(strict, t, i);
            var rest := StringBody(strict, t, item.next);
            b.end == rest.end && Flat(b.items) == item.e + Flat(rest.items)
  {
    hide StringItem;
    var item := StringItem(strict, t, i);
    var b, rest := StringBody(strict, t, i), StringBody(strict, t, item.next);
    assert b.items[0] == item.e && b.items[1..] == rest.items;
  }

  lemma BodyOf(strict: bool, t: Bytes, i: nat)
    requires i < |t| && StringItem(strict, t, i).Item? && StringBody(strict, t, StringItem(strict, t, i).next).Body?
    ensures var b, item := StringBody(strict, t, i), StringItem(strict, t, i);
            var rest := StringBody(strict, t, item.next);
            b.Body? && b.end == rest.end && Flat(b.items) == item.e + Flat(rest.items)
  {
    hide StringItem;
    BodyStep(strict, t, i);
  }

  /** Below 0x80 both readings have the same elements; beyond, the strict one has a scalar. */
  lemma LenientItem(t: Bytes, i: nat)
    requires i < |t| && StringItem(true, t, i).Item?
    ensures t[i] < 0x80 ==> StringItem(false, t, i) == StringItem(true, t, i)
    ensures var item := StringItem(true, t, i);
            0x80 <= t[i] ==> item.e == t[i..item.next] && forall j :: i <= j < item.next ==> 0x80 <= t[j]
  {
    hide Escape, Encode;
    if t[i] < 0x80 && t[i] != BACKSLASH { assert t[i..i + 1] == [t[i]]; }
  }

  lemma LenientLit(t: Bytes, i: nat)
    requires StringBody(true, t, i).Body?
    ensures StringBody(false, t, i).Body?
    ensures StringBody(false, t, i).end == StringBody(true, t, i).end
    ensures LitOf(t, i, StringBody(false, t, i)) == LitOf(t, i, StringBody(true, t, i))
  {
    LenientBody(t, i);
  }

  /** What the strict grammar parses, the lenient one parses to the same tree. */
  lemma {:induction false} LenientValue(t: Bytes, j: nat)
    requires j <= |t| && ParseValueAt(true, t, j).Parse?
    ensures ParseValueAt(false, t, j) == ParseValueAt(true, t, j)
    decreases |t| - j, 1
  {
    hide StringBody, NumEnd, WordAt, ParseKids;
    if t[j] == QUOTE {
      LenientLit(t, j + 1);
    } else if t[j] == 91 || t[j] == 123 {
      WordsByFirst(t, j);
      LenientKids(t, j + 1, t[j] == 123);
    }
  }

  lemma {:induction false} LenientKids(t: Bytes, i: nat, obj: bool)
    requires i <= |t| && ParseKids(true, t, i, obj).KidsParse?
    ensures ParseKids(false, t, i, obj) == ParseKids(true, t, i, obj)
    decreases |t| - i, 4
  {
    hide SkipWs, ParseMembers;
    var j := SkipWs(t, i);
    if !At(t, j, Close(obj)) { LenientMembers(t, j, obj); }
  }

  lemma {:induction false} LenientMembers(t: Bytes, i: nat, obj: bool)
    requires i <= |t| && ParseMembers(true, t, i, obj).KidsParse?
    ensures ParseMembers(false, t, i, obj) == ParseMembers(true, t, i, obj)
    decreases |t| - i, 3
  {
    hide SkipWs, StringBody, ParseValueAt, ParseMore;
    var k := ParseKey(true, t, i, obj);
    if obj { LenientLit(t, i + 1); }
    LenientValue(t, SkipWs(t, k.end));
    var p := ParseValue(true, t, k.end);
    LenientMore(t, p.end, obj);
  }

  lemma {:induction false} LenientMore(t: Bytes, i: nat, obj: bool)
    requires i <= |t| && ParseMore(true, t, i, obj).KidsParse?
    ensures ParseMore(false, t, i, obj) == ParseMore(true, t, i, obj)
    decreases |t| - i, 4
  {
    hide SkipWs, ParseMembers;
    var j := SkipWs(t, i);
    if !At(t, j, Close(obj)) { LenientMembers(t, SkipWs(t, j + 1), obj); }
  }
}
