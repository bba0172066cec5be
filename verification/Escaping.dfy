/** Escaping and its inverse: an escaped literal denotes exactly the bytes it was made
    from, and escaping grows a text at most sixfold. */
module Escaping {
  import opened Utf8
  import opened Grammar
  import opened Placement

  lemma {:induction false} EscapeConcat(short: bool, a: Bytes, b: Bytes)
    ensures EscapeAll(short, a + b) == EscapeAll(short, a) + EscapeAll(short, b)
  {
    if a == [] {
      assert a + b == b;
    } else {
      assert (a + b)[1..] == a[1..] + b;
      EscapeConcat(short, a[1..], b);
    }
  }

  /** Escaping grows a text at most sixfold, and never shrinks it. */
  lemma {:induction false} EscapeGrowth(short: bool, bs: Bytes)
    ensures |bs| <= |EscapeAll(short, bs)| <= 6 * |bs|
  {
    if bs != [] { EscapeGrowth(short, bs[1..]); }
  }

  /** The bytes of a scalar beyond ASCII stand for themselves. */
  lemma {:induction false} EscapeHigh(short: bool, bs: Bytes)
    requires forall k :: 0 <= k < |bs| ==> 0x80 <= bs[k]
    ensures EscapeAll(short, bs) == bs
  {
    if bs != [] {
      EscapeHigh(short, bs[1..]);
      assert bs == [bs[0]] + bs[1..];
    }
  }

  /** The bytes one element of an escaped string stands for. */
  function Front(strict: bool, val: Bytes): (w: nat)
    requires val != [] && (strict ==> Valid(val))
    ensures 1 <= w <= |val|
  {
    if strict then Width(val[0]) else 1
  }

  lemma FrontParts(strict: bool, short: bool, val: Bytes)
    requires val != [] && (strict ==> Valid(val))
    ensures var w := Front(strict, val);
            && EscapeAll(short, val)
               == (if w == 1 then EscapeByte(short, val[0]) else val[..w]) + EscapeAll(short, val[w..])
            && (strict ==> Valid(val[w..]))
  {
    hide EscapeByte, EscapeAll, Valid, ScalarAt;
    var w := Front(strict, val);
    assert val == val[..w] + val[w..];
    if strict { FrontScalar(val); }
    EscapeConcat(short, val[..w], val[w..]);
    if w == 1 { EscapeOne(short, val); } else { EscapeHigh(short, val[..w]); }
  }

  /** The scalar in front of a valid string, which beyond ASCII has high bytes only. */
  lemma FrontScalar(val: Bytes)
    requires val != [] && Valid(val)
    ensures var w := Width(val[0]);
            && 1 <= w <= |val| && Valid(val[w..])
            && (w != 1 ==> forall k :: 0 <= k < w ==> 0x80 <= val[k])
  {
    var w := Width(val[0]);
    assert val == val[..w] + val[w..];
    ValidSuffix(val[..w], val[w..], 0);
  }

  lemma EscapeOne(short: bool, val: Bytes)
    requires val != []
    ensures EscapeAll(short, val[..1]) == EscapeByte(short, val[0])
  {
    hide EscapeByte;
    assert val[..1][1..] == [];
    assert EscapeByte(short, val[0]) + [] == EscapeByte(short, val[0]);
  }

  lemma HexPair(b: Byte)
    requires b < 0x20
    ensures Hex4([BACKSLASH, 117, 48, 48, HexDigit(b / 16), HexDigit(b % 16)], 2) == b
  {
  }

  /** The escape of one byte is read back as that byte. */
  lemma EscapedItem(strict: bool, short: bool, b: Byte)
    requires !strict || b < 0x80
    ensures var u := EscapeByte(short, b);
            u != [] && StringItem(strict, u, 0) == Item([b], |u|)
  {
    hide Hex4;
    var u := EscapeByte(short, b);
    if b < 0x20 && !(short && ShortLetter(b) != 0) {
      HexPair(b);
    } else if 0x20 <= b && b != QUOTE && b != BACKSLASH {
      assert u[0..1] == [b];
    }
  }

  lemma FrontItem(strict: bool, short: bool, val: Bytes)
    requires val != [] && (strict ==> Valid(val))
    ensures var w := Front(strict, val);
            var u := if w == 1 then EscapeByte(short, val[0]) else val[..w];
            u != [] && u[0] != QUOTE && StringItem(strict, u, 0) == Item(val[..w], |u|)
  {
    hide EscapeByte;
    var w := Front(strict, val);
    if w == 1 {
      EscapedItem(strict, short, val[0]);
      assert val[..1] == [val[0]];
    } else {
      assert val[..w][0..w] == val[..w];
    }
  }

  /** Reading an escaped string gives back the bytes. */
  lemma {:induction false} EscapedBody(strict: bool, short: bool, val: Bytes)
    requires strict ==> Valid(val)
    ensures LitOk(strict, Lit(EscapeAll(short, val), val))
    decreases |val|
  {
    hide EscapeAll, EscapeByte, StringItem, StringBody, Flat, Valid;
    var u := EscapeAll(short, val) + [QUOTE];
    if val == [] {
      EscapeGrowth(short, val);
      EmptyLit(strict);
    } else {
      var w := Front(strict, val);
      var e := if w == 1 then EscapeByte(short, val[0]) else val[..w];
      var rest := EscapeAll(short, val[w..]) + [QUOTE];
      FrontParts(strict, short, val);
      FrontItem(strict, short, val);
      EscapedBody(strict, short, val[w..]);
      assert u == e + rest;
      BodyFront(strict, e, rest);
      assert val == val[..w] + val[w..];
    }
  }

  lemma EmptyLit(strict: bool)
    ensures LitOk(strict, Lit([], []))
  {
  }

  /** An element in front of a body. */
  lemma BodyFront(strict: bool, e: Bytes, rest: Bytes)
    requires e != [] && e[0] != QUOTE
    requires StringItem(strict, e, 0).Item? && StringItem(strict, e, 0).next == |e|
    requires StringBody(strict, rest, 0).Body?
    ensures var b := StringBody(strict, e + rest, 0);
            var r := StringBody(strict, rest, 0);
            && b.Body? && b.end == |e| + r.end
            && Flat(b.items) == StringItem(strict, e, 0).e + Flat(r.items)
  {
    hide StringItem, StringBody;
    var u := e + rest;
    assert WordAt(u, 0, e) && WordAt(u, |e|, rest);
    ItemShift(strict, e, 0, u, 0, |e|, 0);
    BodyShift(strict, rest, 0, u, |e|, |rest|, 0);
    BodyOfItem(strict, u, |e|);
  }

  lemma BodyOfItem(strict: bool, u: Bytes, k: nat)
    requires 0 < k <= |u| && u[0] != QUOTE
    requires StringItem(strict, u, 0).Item? && StringItem(strict, u, 0).next == k && StringBody(strict, u, k).Body?
    ensures var b := StringBody(strict, u, 0);
            var r := StringBody(strict, u, k);
            b.Body? && b.end == r.end && Flat(b.items) == StringItem(strict, u, 0).e + Flat(r.items)
  {
    hide StringItem;
    var b := StringBody(strict, u, 0);
    assert b.items[0] == StringItem(strict, u, 0).e && b.items[1..] == StringBody(strict, u, k).items;
  }
}
