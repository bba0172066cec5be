/** The server's collection of its own output under a byte budget: text piece by piece,
    JSON interval by interval. */
module Collector {
  import opened Utf8
  import opened Scan
  import opened ScanExact

  const UINT64_MAX: nat := 0xFFFF_FFFF_FFFF_FFFF

  // ---- Scanning a text forward ----

  /** How far `text` is well-formed UTF-8 without NUL. */
  predicate StopsAt(text: Bytes, e: nat) {
    && Boundary(text, 0, e) && e <= |text|
    && 0 !in text[..e]
    && (e < |text| ==> text[e] == 0 || !ScalarAt(text, e))
  }

  /** Validates UTF-8 up to the first NUL or malformed scalar. A scalar that runs past the
      end is excused when the text was `cut`. */
  method Utf8Prefix(text: Bytes, cut: bool) returns (ok: bool, valid: nat)
    ensures valid <= |text| && StopsAt(text, valid)
    ensures ok <==> valid == |text| || (cut && text[valid] != 0 && Width(text[valid]) > |text| - valid)
  {
    hide ScalarAt;
    var i := 0;
    valid := 0;
    while i < |text|
      invariant i <= |text| && valid == i
      invariant Boundary(text, 0, i) && 0 !in text[..i]
    {
      var c := text[i];
      var n, scalar: nat, minimum: nat;
      if c != 0 && c < 0x80 { n, scalar, minimum := 1, c, 0; }
      else if 0xC2 <= c <= 0xDF { n, scalar, minimum := 2, c - 0xC0, 0x80; }
      else if 0xE0 <= c <= 0xEF { n, scalar, minimum := 3, c - 0xE0, 0x800; }
      else if 0xF0 <= c <= 0xF4 { n, scalar, minimum := 4, c - 0xF0, 0x10000; }
      else {
        LeadOk(text, i);
        return false, valid;
      }
      LeadOk(text, i);
      if n > |text| - i { return cut, valid; }
      var good;
      good, scalar := Continuation(text, i, n, scalar);
      if !good || scalar < minimum || scalar > 0x10FFFF || 0xD800 <= scalar <= 0xDFFF {
        return false, valid;
      }
      BoundaryNext(text, i);
      assert text[..i + n] == text[..i] + text[i..i + n];
      i := i + n;
      valid := i;
    }
    ok := true;
  }

  lemma LeadOk(text: Bytes, i: nat)
    requires i < |text|
    ensures ScalarAt(text, i) ==> 0 < Width(text[i]) <= |text| - i
  {
  }

  lemma BoundaryNext(text: Bytes, i: nat)
    requires Boundary(text, 0, i) && ScalarAt(text, i)
    ensures Boundary(text, 0, i + Width(text[i]))
    ensures text[i] != 0 ==> 0 !in text[i..i + Width(text[i])]
  {
    BoundaryTrans(text, 0, i, i + Width(text[i]));
  }

  /** The continuation bytes of the scalar at `i` pushed onto its lead. */
  method Continuation(text: Bytes, i: nat, n: nat, lead: nat) returns (ok: bool, scalar: nat)
    requires i + n <= |text| && 1 <= n == Width(text[i]) && (2 <= n ==> lead == MultiStart(text[i]))
    requires n == 1 ==> lead == text[i]
    ensures ScalarAt(text, i) <==>
              ok && (if n == 2 then 0x80 else if n == 3 then 0x800 else if n == 4 then 0x10000 else 0) <= scalar
              && IsScalar(scalar)
  {
    scalar := lead;
    var j := 1;
    while j < n
      invariant 1 <= j <= n
      invariant ContsAt(text, i + 1, n - 1) <==> ContsAt(text, i + j, n - j)
      invariant ContsAt(text, i + j, n - j) ==>
                  ContsValue(text, i + 1, n - 1, lead) == ContsValue(text, i + j, n - j, scalar)
    {
      var next := text[i + j];
      if next < 0x80 || next > 0xBF {
        return false, 0;
      }
      scalar := Push6(scalar, next - 0x80);
      j := j + 1;
    }
    if 2 <= n { MultibyteRange(text, i); }
    ok := true;
  }

  // ---- Text under a byte limit ----

  /** The byte limit, not the text, ends its longest prefix. */
  predicate CutAt(t: Bytes, n: nat) {
    var e := LspEnd(t, 0, n);
    e < |t| && (e == n || e + Width(t[e]) > n)
  }

  /** A boundary after which the next scalar passes the limit is where the prefix ends. */
  lemma LspEndsAt(t: Bytes, e: nat, n: nat)
    requires Boundary(t, 0, e) && e <= n && e < |t| && (e == n || e + Width(t[e]) > n)
    ensures LspEnd(t, 0, n) == e && CutAt(t, n)
  {
    forall k | e < k <= n && k <= |t| ensures !Boundary(t, 0, k) {
      if Boundary(t, 0, k) { BoundaryOrder(t, 0, e, k); }
    }
    LspUnique(t, e, n);
  }

  lemma {:induction false} BoundaryExtends(t: Bytes, p: Bytes, i: nat, k: nat)
    requires Boundary(t, i, k) && k <= |t|
    ensures Boundary(t + p, i, k)
  {
    assert (t + p)[..|t|] == t;
    BoundaryLe(t, i, k);
    BoundaryInPrefix(t + p, |t|, i, k);
  }

  /** Text after the cut changes nothing. */
  lemma CutIsFinal(t: Bytes, p: Bytes, n: nat)
    requires CutAt(t, n)
    ensures CutAt(t + p, n) && Lsp(t + p, n) == Lsp(t, n)
  {
    var e := LspEnd(t, 0, n);
    LspEndIsBoundary(t, 0, n);
    BoundaryExtends(t, p, 0, e);
    LspEndsAt(t + p, e, n);
  }

  /** The text of a piece that fits, or its part before the cut. */
  lemma PieceKept(t: Bytes, p: Bytes, n: nat, count: nat, valid: nat)
    requires Valid(t) && 0 !in t && |t| <= n
    requires count == (if |p| < n - |t| then |p| else n - |t|)
    requires StopsAt(p[..count], valid)
    requires valid == count || (|p| > count && Width(p[valid]) > count - valid)
    ensures |p| <= n - |t| ==> valid == |p| && Valid(t + p) && 0 !in t + p
    ensures |p| > n - |t| ==> CutAt(t + p, n) && Lsp(t + p, n) == t + p[..valid]
  {
    BoundaryInPrefix(p, count, 0, valid);
    if |p| <= n - |t| {
      assert p[..count] == p;
      BoundaryPrefix(p, 0, |p|);
      assert p[..|p|] == p;
      ValidConcat(t, p);
    } else {
      BoundaryConcat(t, p, valid);
      LspEndsAt(t + p, |t| + valid, n);
      assert (t + p)[..|t| + valid] == t + p[..valid];
    }
  }

  /** Clean text is never refused. */
  lemma CleanIsKept(p: Bytes, count: nat, valid: nat)
    requires Valid(p) && 0 !in p && count <= |p| && StopsAt(p[..count], valid)
    ensures valid == count || (|p| > count && p[valid] != 0 && Width(p[valid]) > count - valid)
  {
    if valid < count {
      BoundaryInPrefix(p, count, 0, valid);
      BoundaryKeepsValid(p, 0, valid);
      assert ScalarAt(p, valid);
      assert p[valid] in p;
    }
  }

  /** What there is room for of a text is UTF-8 without NUL: all of it, or its longest prefix
      and a scalar that the limit cuts. */
  predicate Usable(t: Bytes, n: nat) {
    if |t| <= n then Valid(t) && 0 !in t else CutAt(t, n) && 0 !in Lsp(t, n)
  }

  /** What a text makes of a record that was complete. */
  function StateFor(t: Bytes, n: nat): OutputState {
    if !Usable(t, n) then Invalid else if |t| <= n then Complete else Truncated
  }

  /** A piece the scan refuses makes the text unusable. */
  lemma PieceRefused(t: Bytes, p: Bytes, n: nat, count: nat, valid: nat)
    requires Valid(t) && 0 !in t && |t| <= n
    requires count == (if |p| < n - |t| then |p| else n - |t|)
    requires valid < count && StopsAt(p[..count], valid)
    requires !(|p| > n - |t| && p[valid] != 0 && Width(p[valid]) > count - valid)
    ensures !Usable(t + p, n)
  {
    hide ScalarAt;
    var all, e := t + p, |t| + valid;
    BoundaryInPrefix(p, count, 0, valid);
    BoundaryConcat(t, p, valid);
    if |p| <= n - |t| {
      assert p[..count] == p;
      if Valid(all) && 0 !in all {
        ValidConcat(t, p);
        BoundaryKeepsValid(p, 0, valid);
        NoneInPart(t, p, valid);
      }
    } else if CutAt(all, n) && 0 !in Lsp(all, n) {
      LspEndIsBoundary(all, 0, n);
      StopsEarly(all, p, t, n, count, valid);
    }
  }

  lemma StopsEarly(all: Bytes, p: Bytes, t: Bytes, n: nat, count: nat, valid: nat)
    requires all == t + p && count == n - |t| < |p| && valid < count && |t| <= n
    requires StopsAt(p[..count], valid) && Boundary(all, 0, |t| + valid)
    requires CutAt(all, n) && 0 !in Lsp(all, n)
    ensures p[valid] != 0 && Width(p[valid]) > count - valid
  {
    hide ScalarAt;
    var e, f := |t| + valid, LspEnd(all, 0, n);
    LspEndIsBoundary(all, 0, n);
    BoundaryOrder(all, 0, e, f);
    assert all[e] == p[valid];
    if e < f {
      assert all[e] == Lsp(all, n)[e];
      NextFits(all, e, f);
      SameScalar(all, e, p, valid, |t|, count);
    }
  }

  lemma NoneInPart(t: Bytes, p: Bytes, i: nat)
    requires 0 !in t + p && i < |p|
    ensures p[i] != 0
  {
    assert (t + p)[|t| + i] == p[i];
  }

  lemma NextFits(t: Bytes, e: nat, f: nat)
    requires e < f && Boundary(t, e, f)
    ensures ScalarAt(t, e) && e + Width(t[e]) <= f
  {
    BoundaryLe(t, e + Width(t[e]), f);
  }

  lemma SameScalar(all: Bytes, e: nat, p: Bytes, valid: nat, a: nat, count: nat)
    requires e == a + valid && count <= |p| && |all| == a + |p| && all[a..] == p
    requires ScalarAt(all, e) && e + Width(all[e]) <= a + count
    ensures ScalarAt(p[..count], valid)
  {
    assert forall i :: 0 <= i < |p| ==> p[i] == all[a + i];
  }

  lemma KeptIsClean(t: Bytes, p: Bytes, count: nat, valid: nat)
    requires 0 !in t && valid <= count <= |p| && StopsAt(p[..count], valid)
    ensures 0 !in t + p[..valid]
  {
    assert p[..count][..valid] == p[..valid];
  }

  function Seen(n: nat): nat { if n < UINT64_MAX then n else UINT64_MAX }

  /** The record of a collected text. */
  function TextOf(limit: nat, text: Bytes): Output {
    if |text| <= limit then Output(Some(text), Seen(|text|), Complete, TextFormat, NoReason, |text| <= UINT64_MAX)
    else Output(Some(Lsp(text, limit)), Seen(|text|), Truncated, TextFormat, ByteLimit, |text| <= UINT64_MAX)
  }

  /** The record of an output that is given up. */
  function Dropped(o: Output, reason: Reason): Output {
    o.(value := None, state := if reason == InvalidData then Invalid else Discarded, reason := reason)
  }

  lemma CleanMore(t: Bytes, p: Bytes)
    requires Valid(t) && Valid(p) && 0 !in t && 0 !in p
    ensures Valid(t + p) && 0 !in t + p
  {
    ValidConcat(t, p);
  }

  /** The record of a text for which there was no memory: it is still counted. */
  function GivenUp(text: Bytes): Output {
    Output(None, Seen(|text|), Discarded, TextFormat, AllocationFailure, |text| <= UINT64_MAX)
  }

  class TextCollector {
    const limit: nat
    var output: Output
    var finalized: bool

    /** Everything printed so far, whatever was kept of it. */
    ghost var text: Bytes
    /** Every piece so far was formatted, and was UTF-8 without NUL. */
    ghost var clean: bool
    /** Every piece so far could be formatted. */
    ghost var formatted: bool
    ghost var granted: bool

    ghost predicate Valid()
      reads this
    {
      && (output.state == Missing ==> output == EMPTY_OUTPUT && text == [] && formatted && clean && granted)
      && (output.state != Missing ==>
            && output.format == TextFormat
            && output.observed == Seen(|text|)
            && output.observedComplete == (formatted && |text| <= UINT64_MAX)
            && Kept())
      && (clean ==> formatted && Utf8.Valid(text) && 0 !in text)
      && (!granted ==> output.state in {Discarded, Invalid})
      && (finalized ==> output.state != Missing)
    }

    /** What the record says about the text, state by state. */
    ghost predicate Kept()
      reads this
      requires output.state != Missing
    {
      match output.state
      case Complete =>
        && output.value == Some(text) && output.reason == NoReason && formatted
        && Utf8.Valid(text) && 0 !in text && |text| <= limit
      case Truncated =>
        && output.value == Some(Lsp(text, limit)) && output.reason == ByteLimit
        && |text| > limit && CutAt(text, limit)
      case Discarded => output.value == None && output.reason == AllocationFailure && !granted
      case Invalid => output.value == None && output.reason == InvalidData && !clean
      case Missing => true
    }

    constructor (limit: nat)
      ensures Valid() && this.limit == limit && output == EMPTY_OUTPUT && text == [] && clean && granted && !finalized
    {
      this.limit := limit;
      output, finalized, text, clean, formatted, granted := EMPTY_OUTPUT, false, [], true, true, true;
    }

    method Begin(alloc: bool)
      requires Valid()
      modifies this`output, this`granted
      ensures Valid() && output.state != Missing
      ensures granted <==> old(granted) && (alloc || old(output).state != Missing)
      ensures old(output).state != Missing ==> output == old(output)
    {
      if output.state != Missing { return; }
      output := output.(format := TextFormat, observedComplete := true);
      if !alloc {
        granted := false;
        output := Dropped(output, AllocationFailure);
        return;
      }
      output := output.(value := Some([]), state := Complete);
    }

    method CountBytes(count: nat)
      requires output.observed <= UINT64_MAX
      modifies this`output
      ensures output == if old(output).observed + count > UINT64_MAX
                        then old(output).(observed := UINT64_MAX, observedComplete := false)
                        else old(output).(observed := old(output).observed + count)
    {
      if count > UINT64_MAX - output.observed {
        output := output.(observed := UINT64_MAX, observedComplete := false);
      } else {
        output := output.(observed := output.observed + count);
      }
    }

    /** Counts a piece, whatever is kept of it. */
    method Count(p: Bytes, ghost stable: bool)
      requires Valid() && output.state != Missing
      modifies this`output, this`text, this`clean
      ensures text == old(text) + p
      ensures clean <==> old(clean) && stable && Utf8.Valid(p) && 0 !in p
      ensures clean ==> Utf8.Valid(text) && 0 !in text
      ensures output.(observed := old(output).observed, observedComplete := old(output).observedComplete) == old(output)
      ensures output.observed == Seen(|text|) && output.observedComplete == (formatted && |text| <= UINT64_MAX)
    {
      hide Utf8.Valid;
      clean := clean && stable && Utf8.Valid(p) && 0 !in p;
      ghost var before := text;
      text := text + p;
      if clean { CleanMore(before, p); }
      CountBytes(|p|);
    }

    /** Adds what a format call prints. `piece` is `None` when formatting fails, and
        `stable` says that formatting twice gives the same length. */
    method AppendFormat(piece: Option<Bytes>, stable: bool)
      requires Valid() && output.state != Missing
      modifies this`output, this`text, this`clean, this`formatted
      ensures Valid() && output.state != Missing
      ensures text == old(text) + if piece.Some? then piece.value else []
      ensures clean <==> old(clean) && stable && piece.Some? && Utf8.Valid(piece.value) && 0 !in piece.value
      ensures old(output).state in {Truncated, Discarded} && piece.Some? ==>
                output.value == old(output).value && output.state == old(output).state
      ensures output.state == if piece.None? then Invalid else if old(output).state != Complete then old(output).state
                              else if !stable then Invalid else StateFor(text, limit)
    {
      hide Lsp, CutAt, StopsAt, Utf8.Valid;
      if piece.None? {
        clean, formatted := false, false;
        output := Dropped(output, InvalidData).(observedComplete := false);
        return;
      }
      var p := piece.value;
      ghost var before := text;
      Count(p, stable);
      if output.state != Complete {
        if output.state == Truncated { CutIsFinal(before, p, limit); }
        return;
      }
      if !stable {
        output := Dropped(output, InvalidData);
        return;
      }
      AppendPiece(p, before);
    }

    /** The part of a piece that there is room for. */
    method AppendPiece(p: Bytes, ghost before: Bytes)
      requires output.state == Complete && output.value == Some(before) && output.reason == NoReason
      requires text == before + p && Utf8.Valid(before) && 0 !in before && |before| <= limit && formatted
      requires clean ==> Utf8.Valid(p) && 0 !in p
      modifies this`output
      ensures output.state != Missing && Kept() && output.state == StateFor(text, limit)
      ensures output.(value := old(output).value, state := Complete, reason := NoReason) == old(output)
    {
      hide Lsp, CutAt, StopsAt, Utf8.Valid;
      var available := limit - |output.value.value|;
      var count := if |p| < available then |p| else available;
      var ok, valid := Utf8Prefix(p[..count], |p| > available);
      if !ok {
        if clean { CleanIsKept(p, count, valid); }
        PieceRefused(before, p, limit, count, valid);
        output := Dropped(output, InvalidData);
        return;
      }
      PieceKept(before, p, limit, count, valid);
      KeptIsClean(before, p, count, valid);
      output := output.(value := Some(output.value.value + p[..valid]));
      if |p| > available {
        output := output.(state := Truncated, reason := ByteLimit);
      } else {
        assert p[..valid] == p;
      }
    }

    /** Collects one printed line: an optional prefix and the line itself. */
    method CollectPrintf(prefix: Option<Bytes>, line: Option<Bytes>, stable: bool, alloc: bool)
      requires Valid()
      modifies this
      ensures Valid() && finalized == old(finalized)
      ensures finalized ==> output == old(output) && text == old(text)
      ensures !finalized ==>
                text == old(text) + (if prefix.Some? then prefix.value else []) + if line.Some? then line.value else []
      ensures !finalized ==>
                (clean <==> old(clean) && stable && line.Some? && Utf8.Valid(line.value) && 0 !in line.value
                            && (prefix.Some? ==> Utf8.Valid(prefix.value) && 0 !in prefix.value))
      ensures !finalized ==> output.state != Missing
      ensures !finalized ==> (granted <==> old(granted) && (alloc || old(output).state != Missing))
    {
      if finalized { return; }
      Begin(alloc);
      if prefix.Some? { AppendFormat(prefix, stable); }
      AppendFormat(line, stable);
    }

    /** The record handed over with the results; nothing is collected after it. */
    method Finish(alloc: bool) returns (o: Output)
      requires Valid()
      modifies this`output, this`finalized, this`granted
      ensures Valid() && finalized && o == output && output.state != Missing
      ensures !old(finalized) ==> (granted <==> old(granted) && (alloc || old(output).state != Missing))
      ensures clean && granted ==> o == TextOf(limit, text)
      ensures clean && !granted ==> o == GivenUp(text)
    {
      if !finalized { Begin(alloc); }
      finalized := true;
      o := output;
    }
  }
}
