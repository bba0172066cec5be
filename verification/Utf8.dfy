/** Bytes, and UTF-8 as section 4 of RFC 3629 defines it. */
module Utf8 {

  type Byte = x: int | 0 <= x < 256
  type Bytes = seq<Byte>

  /** A byte of the form 10xxxxxx. */
  predicate Cont(b: Byte) {
    0x80 <= b <= 0xBF
  }

  /** Length of the scalar a lead byte announces; 0 for a byte that cannot lead. */
  function Width(b: Byte): (w: nat)
    ensures w <= 4
  {
    if b < 0x80 then 1
    else if 0xC2 <= b <= 0xDF then 2
    else if 0xE0 <= b <= 0xEF then 3
    else if 0xF0 <= b <= 0xF4 then 4
    else 0
  }

  /** The second-byte restrictions that exclude overlong forms, surrogates and
      scalars above U+10FFFF. */
  predicate SecondOk(lead: Byte, second: Byte) {
    && Cont(second)
    && (lead == 0xE0 ==> 0xA0 <= second)
    && (lead == 0xED ==> second <= 0x9F)
    && (lead == 0xF0 ==> 0x90 <= second)
    && (lead == 0xF4 ==> second <= 0x8F)
  }

  /** One well-formed scalar starts at `i`. */
  predicate ScalarAt(t: Bytes, i: nat) {
    && i < |t|
    && 0 < Width(t[i]) <= |t| - i
    && (2 <= Width(t[i]) ==> SecondOk(t[i], t[i + 1]))
    && (3 <= Width(t[i]) ==> Cont(t[i + 2]))
    && (4 <= Width(t[i]) ==> Cont(t[i + 3]))
  }

  /** From `i` on, `t` is a sequence of well-formed scalars. */
  predicate ValidFrom(t: Bytes, i: nat)
    decreases |t| - i
  {
    i == |t| || (ScalarAt(t, i) && ValidFrom(t, i + Width(t[i])))
  }

  predicate Valid(t: Bytes) {
    ValidFrom(t, 0)
  }

  /** Where the scalar-by-scalar walk from `i` must stop to stay within `n` bytes. */
  function LspEnd(t: Bytes, i: nat, n: nat): (e: nat)
    requires i <= |t|
    ensures i <= e <= |t|
    ensures i <= n ==> e <= n
    decreases |t| - i
  {
    if ScalarAt(t, i) && i + Width(t[i]) <= n then LspEnd(t, i + Width(t[i]), n) else i
  }

  /** The longest scalar-aligned prefix of `t` of at most `n` bytes. */
  function Lsp(t: Bytes, n: nat): (p: Bytes)
    ensures |p| <= n && p <= t
  {
    t[..LspEnd(t, 0, n)]
  }

  /** `k` is reached from `i` by whole scalars. */
  predicate Boundary(t: Bytes, i: nat, k: nat)
    decreases |t| - i
  {
    i == k || (i < k && ScalarAt(t, i) && Boundary(t, i + Width(t[i]), k))
  }

  // ---- Boundaries and prefixes ----

  lemma {:induction false} BoundaryPrefix(t: Bytes, i: nat, k: nat)
    requires i <= k <= |t|
    ensures Boundary(t, i, k) <==> ValidFrom(t[..k], i)
    decreases |t| - i
  {
    if i < k {
      var p := t[..k];
      if ScalarAt(p, i) {
        assert ScalarAt(t, i);
        BoundaryPrefix(t, i + Width(t[i]), k);
      } else if ScalarAt(t, i) {
        BoundaryPastEnd(t, i + Width(t[i]), k);
      }
    }
  }

  lemma BoundaryPastEnd(t: Bytes, i: nat, k: nat)
    requires k < i
    ensures !Boundary(t, i, k)
  {
  }

  lemma {:induction false} BoundaryOrder(t: Bytes, i: nat, j: nat, k: nat)
    requires Boundary(t, i, j) && Boundary(t, i, k) && j <= k
    ensures Boundary(t, j, k)
    decreases |t| - i
  {
    if i < j {
      BoundaryOrder(t, i + Width(t[i]), j, k);
    }
  }

  lemma {:induction false} BoundaryTrans(t: Bytes, i: nat, j: nat, k: nat)
    requires Boundary(t, i, j) && Boundary(t, j, k)
    ensures Boundary(t, i, k)
    decreases |t| - i
  {
    BoundaryLe(t, i, j);
    BoundaryLe(t, j, k);
    if i < j {
      BoundaryTrans(t, i + Width(t[i]), j, k);
    }
  }

  lemma BoundaryLe(t: Bytes, i: nat, j: nat)
    requires Boundary(t, i, j)
    ensures i <= j
  {
  }

  lemma {:induction false} ValidIsBoundary(t: Bytes, i: nat)
    requires ValidFrom(t, i)
    ensures Boundary(t, i, |t|)
    decreases |t| - i
  {
    if i < |t| { ValidIsBoundary(t, i + Width(t[i])); }
  }

  lemma {:induction false} BoundaryKeepsValid(t: Bytes, i: nat, k: nat)
    requires ValidFrom(t, i) && Boundary(t, i, k)
    ensures ValidFrom(t, k)
    decreases |t| - i
  {
    if i < k { BoundaryKeepsValid(t, i + Width(t[i]), k); }
  }

  /** `LspEnd` is a boundary, and the next one is out of reach. */
  lemma {:induction false} LspEndIsBoundary(t: Bytes, i: nat, n: nat)
    requires i <= |t| && i <= n
    ensures Boundary(t, i, LspEnd(t, i, n))
    ensures forall k :: LspEnd(t, i, n) < k <= n && k <= |t| ==> !Boundary(t, i, k)
    decreases |t| - i
  {
    if ScalarAt(t, i) && i + Width(t[i]) <= n {
      LspEndIsBoundary(t, i + Width(t[i]), n);
    } else {
      forall k | i < k <= n && k <= |t| ensures !Boundary(t, i, k) {
        if ScalarAt(t, i) { BoundaryPastEnd(t, i + Width(t[i]), k); }
      }
    }
  }

  /** `Lsp(t, n)` is exactly the longest valid prefix within `n` bytes. */
  lemma LspIsLongest(t: Bytes, n: nat)
    ensures Valid(Lsp(t, n)) && |Lsp(t, n)| <= n
    ensures forall k :: |Lsp(t, n)| < k <= n && k <= |t| ==> !Valid(t[..k])
  {
    LspEndIsBoundary(t, 0, n);
    BoundaryPrefix(t, 0, LspEnd(t, 0, n));
    forall k | LspEnd(t, 0, n) < k <= n && k <= |t| ensures !Valid(t[..k]) {
      BoundaryPrefix(t, 0, k);
    }
  }

  /** Any boundary within `n` beyond which no boundary lies within `n` is the Lsp end. */
  lemma LspUnique(t: Bytes, e: nat, n: nat)
    requires e <= n && e <= |t| && Boundary(t, 0, e)
    requires forall k :: e < k <= n && k <= |t| ==> !Boundary(t, 0, k)
    ensures LspEnd(t, 0, n) == e
  {
    LspEndIsBoundary(t, 0, n);
  }

  /** A valid text that fits is kept whole. */
  lemma LspWhole(t: Bytes, n: nat)
    requires Valid(t) && |t| <= n
    ensures Lsp(t, n) == t
  {
    ValidIsBoundary(t, 0);
    LspUnique(t, |t|, n);
  }

  /** Cutting twice is cutting once at the smaller limit. */
  lemma LspTwice(t: Bytes, m: nat, n: nat)
    ensures Lsp(Lsp(t, m), n) == Lsp(t, if m < n then m else n)
  {
    var e := LspEnd(t, 0, m);
    var k := if m < n then m else n;
    var p := t[..e];
    LspEndIsBoundary(t, 0, m);
    LspEndIsBoundary(t, 0, k);
    LspEndIsBoundary(p, 0, n);
    var f := LspEnd(p, 0, n);
    BoundaryInPrefix(t, e, 0, f);
    forall j | f < j <= k && j <= |t| ensures !Boundary(t, 0, j) {
      if j <= e { BoundaryInPrefix(t, e, 0, j); }
    }
    LspUnique(t, f, k);
  }

  lemma {:induction false} BoundaryInPrefix(t: Bytes, e: nat, i: nat, k: nat)
    requires i <= k <= e <= |t|
    ensures Boundary(t[..e], i, k) <==> Boundary(t, i, k)
    decreases |t| - i
  {
    BoundaryPrefix(t[..e], i, k);
    assert t[..e][..k] == t[..k];
    BoundaryPrefix(t, i, k);
  }

  // ---- Concatenation ----

  lemma {:induction false} ValidSuffix(a: Bytes, b: Bytes, i: nat)
    requires i <= |b|
    ensures ValidFrom(a + b, |a| + i) <==> ValidFrom(b, i)
    decreases |b| - i
  {
    var t := a + b;
    assert ScalarAt(t, |a| + i) <==> ScalarAt(b, i);
    if ScalarAt(b, i) { ValidSuffix(a, b, i + Width(b[i])); }
  }

  lemma {:induction false} ValidConcatFrom(a: Bytes, b: Bytes, i: nat)
    requires i <= |a| && ValidFrom(a, i)
    ensures ValidFrom(a + b, i) <==> Valid(b)
    decreases |a| - i
  {
    if i == |a| {
      ValidSuffix(a, b, 0);
    } else {
      assert ScalarAt(a + b, i);
      ValidConcatFrom(a, b, i + Width(a[i]));
    }
  }

  /** Appending to a valid text gives a valid text exactly when the piece is valid. */
  lemma ValidConcat(a: Bytes, b: Bytes)
    requires Valid(a)
    ensures Valid(a + b) <==> Valid(b)
  {
    ValidConcatFrom(a, b, 0);
  }

  lemma {:induction false} BoundaryConcat(a: Bytes, b: Bytes, k: nat)
    requires Valid(a) && k <= |b|
    ensures Boundary(a + b, 0, |a| + k) <==> Boundary(b, 0, k)
  {
    BoundaryPrefix(a + b, 0, |a| + k);
    BoundaryPrefix(b, 0, k);
    assert (a + b)[..|a| + k] == a + b[..k];
    ValidConcat(a, b[..k]);
  }

  /** A cut past the end of a valid first part falls inside the second. */
  lemma LspConcat(a: Bytes, b: Bytes, n: nat)
    requires Valid(a) && |a| <= n
    ensures Lsp(a + b, n) == a + Lsp(b, n - |a|)
  {
    var m := n - |a|;
    LspEndIsBoundary(b, 0, m);
    var e := LspEnd(b, 0, m);
    BoundaryConcat(a, b, e);
    forall k | |a| + e < k <= n && k <= |a + b| ensures !Boundary(a + b, 0, k) {
      BoundaryConcat(a, b, k - |a|);
    }
    LspUnique(a + b, |a| + e, n);
  }

  /** An ASCII byte separates: a valid text splits around it. */
  lemma {:induction false} ValidAroundAscii(a: Bytes, c: Byte, b: Bytes, i: nat)
    requires c < 0x80 && i <= |a|
    requires ValidFrom(a + [c] + b, i)
    ensures ValidFrom(a, i) && Valid(b)
    decreases |a| - i
  {
    var t := a + [c] + b;
    assert t[|a|] == c;
    if i == |a| {
      assert t == (a + [c]) + b;
      ValidSuffix(a + [c], b, 0);
    } else {
      assert t[i] == a[i];
      assert ScalarAt(t, i);
      assert i + Width(t[i]) <= |a|;
      assert ScalarAt(a, i);
      ValidAroundAscii(a, c, b, i + Width(t[i]));
    }
  }

  // ---- Scalar values ----

  predicate IsScalar(s: nat) {
    s <= 0x10FFFF && !(0xD800 <= s <= 0xDFFF)
  }

  /** The encoding the reader and the library's string decoder both produce. */
  function Encode(s: nat): (e: Bytes)
    requires s <= 0x10FFFF
    ensures 1 <= |e| <= 4
  {
    if s <= 0x7F then [s]
    else if s <= 0x7FF then [0xC0 + s / 0x40, 0x80 + s % 0x40]
    else if s <= 0xFFFF then [0xE0 + s / 0x1000, 0x80 + (s / 0x40) % 0x40, 0x80 + s % 0x40]
    else [0xF0 + s / 0x40000, 0x80 + (s / 0x1000) % 0x40, 0x80 + (s / 0x40) % 0x40, 0x80 + s % 0x40]
  }

  /** `q` shifted left by six bits, or-ed with the six payload bits `r`. */
  function Push6(q: nat, r: nat): nat {
    q * 0x40 + r
  }

  lemma Push6Digits(q: nat, r: nat)
    requires r < 0x40
    ensures Push6(q, r) / 0x40 == q && Push6(q, r) % 0x40 == r
  {
  }

  lemma Shift12(s: nat)
    ensures s / 0x1000 == (s / 0x40) / 0x40
    ensures s / 0x40000 == (s / 0x1000) / 0x40
  {
  }

  /** Payload of the continuation byte at `i`. */
  function Six(t: Bytes, i: nat): (r: nat)
    requires i < |t| && Cont(t[i])
    ensures r < 0x40
  {
    t[i] - 0x80
  }

  function Decode(t: Bytes, i: nat): (s: nat)
    requires ScalarAt(t, i)
  {
    match Width(t[i])
    case 1 => t[i]
    case 2 => Push6(t[i] - 0xC0, Six(t, i + 1))
    case 3 => Push6(Push6(t[i] - 0xE0, Six(t, i + 1)), Six(t, i + 2))
    case _ => Push6(Push6(Push6(t[i] - 0xF0, Six(t, i + 1)), Six(t, i + 2)), Six(t, i + 3))
  }

  /** Decoding a well-formed scalar and encoding it again gives the same bytes. */
  lemma EncodeDecode(t: Bytes, i: nat)
    requires ScalarAt(t, i)
    ensures IsScalar(Decode(t, i))
    ensures Encode(Decode(t, i)) == t[i..i + Width(t[i])]
    ensures Decode(t, i) == 0 <==> t[i] == 0
  {
    var s := Decode(t, i);
    var w := Width(t[i]);
    Shift12(s);
    if w == 1 {
    } else if w == 2 {
      EncodeDecode2(t, i);
    } else if w == 3 {
      EncodeDecode3(t, i);
    } else {
      EncodeDecode4(t, i);
    }
  }

  lemma EncodeDecode2(t: Bytes, i: nat)
    requires ScalarAt(t, i) && Width(t[i]) == 2
    ensures 0x80 <= Decode(t, i) <= 0x7FF
    ensures Encode(Decode(t, i)) == t[i..i + 2]
  {
    Push6Digits(t[i] - 0xC0, Six(t, i + 1));
  }

  lemma EncodeDecode3(t: Bytes, i: nat)
    requires ScalarAt(t, i) && Width(t[i]) == 3
    ensures 0x800 <= Decode(t, i) <= 0xFFFF && IsScalar(Decode(t, i))
    ensures Encode(Decode(t, i)) == t[i..i + 3]
  {
    var q := Push6(t[i] - 0xE0, Six(t, i + 1));
    Push6Digits(t[i] - 0xE0, Six(t, i + 1));
    Push6Digits(q, Six(t, i + 2));
    Shift12(Decode(t, i));
  }

  lemma EncodeDecode4(t: Bytes, i: nat)
    requires ScalarAt(t, i) && Width(t[i]) == 4
    ensures 0x10000 <= Decode(t, i) <= 0x10FFFF
    ensures Encode(Decode(t, i)) == t[i..i + 4]
  {
    var p := Push6(t[i] - 0xF0, Six(t, i + 1));
    var q := Push6(p, Six(t, i + 2));
    Push6Digits(t[i] - 0xF0, Six(t, i + 1));
    Push6Digits(p, Six(t, i + 2));
    Push6Digits(q, Six(t, i + 3));
    Shift12(Decode(t, i));
  }

  /** The encoding of a scalar value is one well-formed scalar. */
  lemma EncodeIsScalar(s: nat)
    requires IsScalar(s)
    ensures ScalarAt(Encode(s), 0) && Width(Encode(s)[0]) == |Encode(s)|
    ensures Valid(Encode(s))
  {
    Shift12(s);
    if 0xFFFF < s {
      EncodeLong(s);
    } else if 0x7FF < s {
      var e := Encode(s);
      assert (s / 0x40) / 0x40 == e[0] - 0xE0;
      assert SecondOk(e[0], e[1]);
    }
    assert ValidFrom(Encode(s), |Encode(s)|);
  }

  lemma EncodeLong(s: nat)
    requires IsScalar(s) && 0xFFFF < s
    ensures ScalarAt(Encode(s), 0) && Width(Encode(s)[0]) == 4
  {
    var e := Encode(s);
    var p := s / 0x1000;
    assert 0x10 <= p <= 0x10F;
    Shift12(s);
    assert e[0] == 0xF0 + p / 0x40 && e[1] == 0x80 + p % 0x40;
    assert SecondOk(e[0], e[1]);
  }
}
