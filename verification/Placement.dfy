/** Moving tokens between texts: a token keeps its reading wherever the same bytes stand,
    so a literal or number can be cut out of a text or placed into another. */
module Placement {
  import opened Utf8
  import opened Grammar

  /** `raw` is the inside of a literal that denotes `val`. */
  predicate LitOk(strict: bool, lit: Lit) {
    var b := StringBody(strict, lit.raw + [QUOTE], 0);
    b.Body? && b.end == |lit.raw| + 1 && Flat(b.items) == lit.val
  }

  predicate TokOk(tok: Bytes) {
    NumEnd(tok, 0) == End(|tok|)
  }

  // ---- Places in a text ----

  lemma WordConcat(t: Bytes, i: nat, a: Bytes, b: Bytes)
    ensures WordAt(t, i, a + b) <==> WordAt(t, i, a) && WordAt(t, i + |a|, b)
  {
    if i + |a| + |b| <= |t| {
      assert t[i..i + |a| + |b|] == t[i..i + |a|] + t[i + |a|..i + |a| + |b|];
      if WordAt(t, i, a + b) {
        assert (a + b)[..|a|] == a && (a + b)[|a|..] == b;
        assert t[i..i + |a| + |b|][..|a|] == t[i..i + |a|];
        assert t[i..i + |a| + |b|][|a|..] == t[i + |a|..i + |a| + |b|];
      }
    }
  }

  lemma WordByte(t: Bytes, i: nat, b: Byte)
    ensures WordAt(t, i, [b]) <==> At(t, i, b)
  {
    if i < |t| { assert t[i..i + 1] == [t[i]]; }
  }

  lemma WordIndex(t: Bytes, i: nat, w: Bytes, k: nat)
    requires WordAt(t, i, w) && k < |w|
    ensures t[i + k] == w[k]
  {
    assert t[i..i + |w|][k] == w[k];
  }

  /** Whitespace of known length before a visible byte. */
  lemma {:induction false} SkipOver(t: Bytes, i: nat, w: Bytes)
    requires WordAt(t, i, w) && Blank(w)
    requires i + |w| < |t| && !Space(t[i + |w|])
    ensures SkipWs(t, i) == i + |w|
    decreases |w|
  {
    if w != [] {
      WordIndex(t, i, w, 0);
      assert w == [w[0]] + w[1..];
      WordConcat(t, i, [w[0]], w[1..]);
      SkipOver(t, i + 1, w[1..]);
    }
  }

  predicate Blank(w: Bytes) {
    forall k :: 0 <= k < |w| ==> Space(w[k])
  }

  lemma WordFits(t: Bytes, i: nat, w: Bytes)
    requires WordAt(t, i, w)
    ensures i + |w| <= |t|
  {
  }

  lemma VisibleStays(t: Bytes, i: nat)
    requires i < |t| && !Space(t[i])
    ensures SkipWs(t, i) == i
  {
  }

  // ---- Equal stretches of two texts ----

  /** The `n` bytes of `t` at `i` are those of `u` at `j`. */
  predicate Same(u: Bytes, j: nat, t: Bytes, i: nat, n: nat) {
    j + n <= |u| && i + n <= |t| && u[j..j + n] == t[i..i + n]
  }

  lemma SameIndex(u: Bytes, j: nat, t: Bytes, i: nat, n: nat, k: nat)
    requires Same(u, j, t, i, n) && k < n
    ensures j + n <= |u| && i + n <= |t| && t[i + k] == u[j + k]
  {
    assert t[i..i + n][k] == u[j..j + n][k];
  }

  lemma Hex4Shift(u: Bytes, j: nat, t: Bytes, i: nat, n: nat, k: nat)
    requires Same(u, j, t, i, n) && 0 <= Hex4(u, j + k) && k + 4 <= n
    ensures Hex4(t, i + k) == Hex4(u, j + k)
  {
    SameIndex(u, j, t, i, n, k);
    SameIndex(u, j, t, i, n, k + 1);
    SameIndex(u, j, t, i, n, k + 2);
    SameIndex(u, j, t, i, n, k + 3);
  }

  lemma EscapeShift(u: Bytes, j: nat, t: Bytes, i: nat, n: nat, k: nat)
    requires Same(u, j, t, i, n) && Escape(u, j + k).Code? && Escape(u, j + k).next <= j + n
    ensures Escape(t, i + k) == Code(Escape(u, j + k).n, i + Escape(u, j + k).next - j)
  {
    hide Hex4, Same;
    SameIndex(u, j, t, i, n, k + 1);
    if At(u, j + k + 1, 117) {
      Hex4Shift(u, j, t, i, n, k + 2);
      var h := Hex4(u, j + k + 2);
      if 0xD800 <= h <= 0xDBFF {
        Hex4Shift(u, j, t, i, n, k + 8);
        SameIndex(u, j, t, i, n, k + 6);
        SameIndex(u, j, t, i, n, k + 7);
      }
    }
  }

  lemma ScalarShift(u: Bytes, j: nat, t: Bytes, i: nat, n: nat, k: nat)
    requires Same(u, j, t, i, n) && ScalarAt(u, j + k) && k + Width(u[j + k]) <= n
    ensures ScalarAt(t, i + k) && Width(t[i + k]) == Width(u[j + k])
    ensures t[i + k..i + k + Width(u[j + k])] == u[j + k..j + k + Width(u[j + k])]
  {
    SameIndex(u, j, t, i, n, k);
    var w := Width(u[j + k]);
    if 2 <= w { SameIndex(u, j, t, i, n, k + 1); }
    if 3 <= w { SameIndex(u, j, t, i, n, k + 2); }
    if 4 <= w { SameIndex(u, j, t, i, n, k + 3); }
    SameSlice(u, j, t, i, n, k, w);
  }

  lemma SameSlice(u: Bytes, j: nat, t: Bytes, i: nat, n: nat, k: nat, w: nat)
    requires j + n <= |u| && i + n <= |t| && Same(u, j, t, i, n) && k + w <= n
    ensures t[i + k..i + k + w] == u[j + k..j + k + w]
  {
    hide Same;
    if w > 0 { SameIndex(u, j, t, i, n, k); }
    var a, b := t[i + k..i + k + w], u[j + k..j + k + w];
    forall x | 0 <= x < w ensures a[x] == b[x] { SameIndex(u, j, t, i, n, k + x); }
  }

  lemma ItemShift(strict: bool, u: Bytes, j: nat, t: Bytes, i: nat, n: nat, k: nat)
    requires k < n && Same(u, j, t, i, n)
    requires StringItem(strict, u, j + k).Item? && StringItem(strict, u, j + k).next <= j + n
    ensures StringItem(strict, t, i + k)
         == Item(StringItem(strict, u, j + k).e, i + StringItem(strict, u, j + k).next - j)
  {
    hide Escape, Encode;
    SameIndex(u, j, t, i, n, k);
    if u[j + k] == BACKSLASH {
      EscapeShift(u, j, t, i, n, k);
    } else if strict {
      ScalarShift(u, j, t, i, n, k);
    }
  }

  lemma {:induction false} BodyShift(strict: bool, u: Bytes, j: nat, t: Bytes, i: nat, n: nat, k: nat)
    requires k <= n && Same(u, j, t, i, n)
    requires StringBody(strict, u, j + k).Body? && StringBody(strict, u, j + k).end <= j + n
    ensures StringBody(strict, t, i + k)
         == Body(StringBody(strict, u, j + k).items, i + StringBody(strict, u, j + k).end - j)
    decreases n - k
  {
    hide StringItem, Same;
    SameIndex(u, j, t, i, n, k);
    if u[j + k] != QUOTE {
      ItemShift(strict, u, j, t, i, n, k);
      BodyShift(strict, u, j, t, i, n, StringItem(strict, u, j + k).next - j);
    }
  }

  lemma WordIsSame(t: Bytes, i: nat, w: Bytes)
    requires WordAt(t, i, w)
    ensures Same(w, 0, t, i, |w|)
  {
  }

  lemma WordIsSlice(t: Bytes, i: nat, w: Bytes)
    requires WordAt(t, i, w)
    ensures i + |w| <= |t| && t[i..i + |w|] == w
  {
  }

  /** A well-formed literal inside a text. */
  lemma LitParses(strict: bool, t: Bytes, i: nat, lit: Lit)
    requires LitOk(strict, lit) && WordAt(t, i, Quoted(lit.raw))
    ensures At(t, i, QUOTE)
    ensures var b := StringBody(strict, t, i + 1);
            b.Body? && b.end == i + |Quoted(lit.raw)| && LitOf(t, i + 1, b) == lit
  {
    hide StringBody, Flat, WordAt;
    var u := lit.raw + [QUOTE];
    assert Quoted(lit.raw) == [QUOTE] + u;
    WordConcat(t, i, [QUOTE], u);
    WordByte(t, i, QUOTE);
    WordIsSame(t, i + 1, u);
    BodyShift(strict, u, 0, t, i + 1, |u|, 0);
    WordConcat(t, i + 1, lit.raw, [QUOTE]);
    WordIsSlice(t, i + 1, lit.raw);
  }

  /** A parsed literal is well formed. */
  lemma LitIsOk(strict: bool, t: Bytes, i: nat)
    requires StringBody(strict, t, i).Body?
    ensures LitOk(strict, LitOf(t, i, StringBody(strict, t, i)))
  {
    hide StringBody, Flat, Same, LitOk;
    var b := StringBody(strict, t, i);
    var raw, n := t[i..b.end - 1], b.end - i;
    var u := raw + [QUOTE];
    RawIsSame(t, i, b.end);
    BodyShift(strict, t, i, u, 0, n, 0);
    LitIs(strict, raw, b.items);
  }

  lemma LitIs(strict: bool, raw: Bytes, items: seq<Bytes>)
    requires StringBody(strict, raw + [QUOTE], 0) == Body(items, |raw| + 1)
    ensures LitOk(strict, Lit(raw, Flat(items)))
  {
    hide StringBody, Flat;
  }

  lemma RawIsSame(t: Bytes, i: nat, e: nat)
    requires i < e <= |t| && t[e - 1] == QUOTE
    ensures Same(t, i, t[i..e - 1] + [QUOTE], 0, e - i)
  {
    var u := t[i..e - 1] + [QUOTE];
    assert u == t[i..e] && u[0..e - i] == u;
  }

  /** What stands at `e` does not continue a number. */
  predicate Ends(t: Bytes, e: nat) {
    e == |t| || (e < |t| && !Digit(t[e]) && t[e] != 46 && t[e] != 101 && t[e] != 69)
  }

  lemma {:induction false} DigitsShift(u: Bytes, j: nat, t: Bytes, i: nat, n: nat, k: nat)
    requires k <= n && Same(u, j, t, i, n)
    requires SkipDigits(u, j + k) <= j + n && Ends(t, i + n)
    ensures SkipDigits(t, i + k) == i + SkipDigits(u, j + k) - j
    decreases n - k
  {
    if k < n {
      SameIndex(u, j, t, i, n, k);
      if Digit(u[j + k]) { DigitsShift(u, j, t, i, n, k + 1); }
    }
  }

  lemma AtShift(u: Bytes, j: nat, t: Bytes, i: nat, n: nat, k: nat, b: Byte)
    requires Same(u, j, t, i, n) && (k < n || (k == n && !At(t, i + n, b) && !At(u, j + n, b)))
    ensures At(t, i + k, b) <==> At(u, j + k, b)
  {
    if k < n { SameIndex(u, j, t, i, n, k); }
  }

  lemma IntShift(u: Bytes, j: nat, t: Bytes, i: nat, n: nat, a: nat)
    requires a <= n && Same(u, j, t, i, n) && Ends(t, i + n)
    requires IntEnd(u, j + a).End? && IntEnd(u, j + a).at <= j + n
    ensures IntEnd(t, i + a) == End(i + IntEnd(u, j + a).at - j)
  {
    SameIndex(u, j, t, i, n, a);
    if !At(u, j + a, 48) { DigitsShift(u, j, t, i, n, a); }
  }

  lemma FracShift(u: Bytes, j: nat, t: Bytes, i: nat, n: nat, a: nat)
    requires a <= n && Same(u, j, t, i, n) && Ends(t, i + n)
    requires FracEnd(u, j + a).End? && FracEnd(u, j + a).at <= j + n
    ensures FracEnd(t, i + a) == End(i + FracEnd(u, j + a).at - j)
  {
    AtShift(u, j, t, i, n, a, 46);
    if At(u, j + a, 46) {
      SameIndex(u, j, t, i, n, a + 1);
      DigitsShift(u, j, t, i, n, a + 1);
    }
  }

  lemma ExpShift(u: Bytes, j: nat, t: Bytes, i: nat, n: nat, a: nat)
    requires a <= n && Same(u, j, t, i, n) && Ends(t, i + n)
    requires ExpEnd(u, j + a).End? && ExpEnd(u, j + a).at <= j + n
    ensures ExpEnd(t, i + a) == End(i + ExpEnd(u, j + a).at - j)
  {
    hide Same;
    AtShift(u, j, t, i, n, a, 101);
    AtShift(u, j, t, i, n, a, 69);
    if At(u, j + a, 101) || At(u, j + a, 69) {
      var k := if At(u, j + a + 1, 43) || At(u, j + a + 1, 45) then a + 2 else a + 1;
      SameIndex(u, j, t, i, n, a + 1);
      SameIndex(u, j, t, i, n, k);
      DigitsShift(u, j, t, i, n, k);
    }
  }

  /** A number keeps its end when it is moved to where nothing continues it. */
  lemma NumShift(u: Bytes, j: nat, t: Bytes, i: nat, n: nat)
    requires Same(u, j, t, i, n) && Ends(t, i + n) && NumEnd(u, j) == End(j + n)
    ensures NumEnd(t, i) == End(i + n)
  {
    hide IntEnd, FracEnd, ExpEnd;
    var a := if At(u, j, 45) then 1 else 0;
    var m := IntEnd(u, j + a);
    var f := FracEnd(u, m.at);
    AtShift(u, j, t, i, n, 0, 45);
    IntShift(u, j, t, i, n, a);
    FracShift(u, j, t, i, n, m.at - j);
    ExpShift(u, j, t, i, n, f.at - j);
  }

  /** A number cut out of a text is a number as a whole. */
  lemma TokenIsOk(t: Bytes, j: nat)
    requires j <= |t| && NumEnd(t, j).End?
    ensures TokOk(t[j..NumEnd(t, j).at])
  {
    hide NumEnd;
    var n := NumEnd(t, j).at - j;
    NumShift(t, j, t[j..j + n], 0, n);
  }

  /** The first byte tells the three words apart. */
  lemma WordsByFirst(t: Bytes, i: nat)
    requires i < |t|
    ensures WordAt(t, i, TRUE) ==> t[i] == 116
    ensures WordAt(t, i, FALSE) ==> t[i] == 102
    ensures WordAt(t, i, NULL) ==> t[i] == 110
  {
    if WordAt(t, i, TRUE) { WordIndex(t, i, TRUE, 0); }
    if WordAt(t, i, FALSE) { WordIndex(t, i, FALSE, 0); }
    if WordAt(t, i, NULL) { WordIndex(t, i, NULL, 0); }
  }
}
