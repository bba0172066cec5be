/** Printing and parsing again: the text of a well-formed syntax tree, compact or with the
    tree library's formatting, parses to that tree. */
module Render {
  import opened Utf8
  import opened Grammar
  import opened Placement

  // ---- Well-formed syntax trees ----

  predicate WellFormed(strict: bool, v: Json)
    decreases v
  {
    match v
    case Num(tok) => TokOk(tok)
    case Str(lit) => LitOk(strict, lit)
    case Comp(obj, kids) => WellFormedKids(strict, obj, kids)
    case _ => true
  }

  predicate WellFormedKids(strict: bool, obj: bool, kids: Kids)
    decreases kids
  {
    match kids
    case KNil => true
    case KCons(key, val, next) =>
      && (if obj then LitOk(strict, key) else key == NO_KEY)
      && WellFormed(strict, val)
      && WellFormedKids(strict, obj, next)
  }

  // ---- Formatted text ----

  function Tabs(n: nat): Bytes {
    seq(n, _ => 9)
  }

  function Line(fmt: bool, obj: bool): Bytes {
    if fmt && obj then [10] else []
  }

  function Indent(fmt: bool, obj: bool, depth: nat): Bytes {
    if fmt && obj then Tabs(depth) else []
  }

  function Gap(fmt: bool, obj: bool): Bytes {
    if !fmt then [] else if obj then [10] else [32]
  }

  function NameText(fmt: bool, obj: bool, key: Lit): Bytes {
    if !obj then [] else Quoted(key.raw) + if fmt then [COLON, 9] else [COLON]
  }

  /** The text of `v` inside `depth` open brackets. */
  function RenderText(fmt: bool, v: Json, depth: nat): Bytes
    decreases v, 0
  {
    match v
    case Comp(obj, kids) =>
      [Open(obj)] + (Line(fmt, obj) + (RenderKids(fmt, obj, kids, depth + 1)
                                       + (Indent(fmt, obj, depth) + [Close(obj)])))
    case _ => Text(v)
  }

  function RenderKids(fmt: bool, obj: bool, kids: Kids, depth: nat): Bytes
    decreases kids, 0
  {
    match kids
    case KNil => []
    case KCons(key, val, next) =>
      Indent(fmt, obj, depth) + (NameText(fmt, obj, key) + (RenderText(fmt, val, depth)
                                                          + RenderMore(fmt, obj, next, depth)))
  }

  function RenderMore(fmt: bool, obj: bool, kids: Kids, depth: nat): Bytes
    decreases kids, 1
  {
    if kids.KNil? then Line(fmt, obj) else [COMMA] + (Gap(fmt, obj) + RenderKids(fmt, obj, kids, depth))
  }

  /** Without formatting it is the whitespace-free text. */
  lemma {:induction false} CompactText(v: Json, depth: nat)
    ensures RenderText(false, v, depth) == Text(v)
    decreases v, 0
  {
    hide KidsText, RenderKids;
    if v.Comp? {
      CompactKids(v.obj, v.kids, depth + 1);
      var body := KidsText(v.obj, v.kids);
      assert [Open(v.obj)] + ([] + (body + ([] + [Close(v.obj)]))) == [Open(v.obj)] + body + [Close(v.obj)];
    }
  }

  lemma {:induction false} CompactKids(obj: bool, kids: Kids, depth: nat)
    ensures RenderKids(false, obj, kids, depth) == KidsText(obj, kids)
    decreases kids, 0
  {
    if kids.KCons? {
      CompactText(kids.val, depth);
      if kids.next.KCons? { CompactKids(obj, kids.next, depth); }
      assert RenderMore(false, obj, kids.next, depth) == MoreText(obj, kids.next);
      assert NameText(false, obj, kids.key) == KeyText(obj, kids.key);
      assert [] + (KeyText(obj, kids.key) + (Text(kids.val) + MoreText(obj, kids.next)))
          == KeyText(obj, kids.key) + Text(kids.val) + MoreText(obj, kids.next);
    }
  }

  // ---- Values at a place ----

  /** What can follow a value inside its text ends a number. */
  lemma SeparatorEnds(t: Bytes, e: nat)
    requires e < |t| && (Space(t[e]) || t[e] == COMMA || t[e] == 93 || t[e] == 125)
    ensures Ends(t, e)
  {
  }

  lemma TokFirst(tok: Bytes)
    requires TokOk(tok)
    ensures tok != [] && (tok[0] == 45 || Digit(tok[0]))
  {
  }

  /** A value starts with a visible byte that closes and separates nothing. */
  lemma FirstByte(strict: bool, fmt: bool, v: Json, depth: nat)
    requires WellFormed(strict, v)
    ensures var r := RenderText(fmt, v, depth);
            r != [] && !Space(r[0]) && r[0] != COMMA && r[0] != 93 && r[0] != 125
  {
    if v.Num? { TokFirst(v.tok); }
  }

  /** The closing bracket with the indentation before it. */
  function Tail(fmt: bool, obj: bool, depth: nat): Bytes {
    Indent(fmt, obj, depth) + [Close(obj)]
  }

  lemma TailLength(fmt: bool, obj: bool, depth: nat)
    ensures |Tail(fmt, obj, depth)| == |Indent(fmt, obj, depth)| + 1
  {
  }

  lemma {:induction false} RenderParses(strict: bool, fmt: bool, t: Bytes, i: nat, v: Json, depth: nat)
    requires WellFormed(strict, v) && WordAt(t, i, RenderText(fmt, v, depth))
    requires Ends(t, i + |RenderText(fmt, v, depth)|)
    ensures ParseValueAt(strict, t, i) == Parse(v, i + |RenderText(fmt, v, depth)|)
    decreases v, 0
  {
    hide ParseValueAt, ParseKids, RenderKids, Line, Indent, WordAt, Ends, TokOk, LitOk;
    match v {
      case Num(tok) => NumParses(strict, t, i, tok);
      case Str(lit) => StrParses(strict, t, i, lit);
      case Comp(obj, kids) =>
        var rest := Line(fmt, obj) + (RenderKids(fmt, obj, kids, depth + 1) + Tail(fmt, obj, depth));
        assert RenderText(fmt, v, depth) == [Open(obj)] + rest;
        WordConcat(t, i, [Open(obj)], rest);
        WordByte(t, i, Open(obj));
        KidsParses(strict, fmt, t, i + 1, obj, kids, depth);
        CompParses(strict, t, i, obj);
      case _ => ConstantParses(strict, t, i, v);
    }
  }

  lemma ConstantParses(strict: bool, t: Bytes, i: nat, v: Json)
    requires (v.Null? || v.True? || v.False?) && WordAt(t, i, Text(v))
    ensures ParseValueAt(strict, t, i) == Parse(v, i + |Text(v)|)
  {
    WordIndex(t, i, Text(v), 0);
    WordsByFirst(t, i);
  }

  lemma NumParses(strict: bool, t: Bytes, i: nat, tok: Bytes)
    requires TokOk(tok) && WordAt(t, i, tok) && Ends(t, i + |tok|)
    ensures ParseValueAt(strict, t, i) == Parse(Num(tok), i + |tok|)
  {
    hide NumEnd;
    TokFirst(tok);
    WordIndex(t, i, tok, 0);
    WordsByFirst(t, i);
    NumShift(tok, 0, t, i, |tok|);
  }

  lemma StrParses(strict: bool, t: Bytes, i: nat, lit: Lit)
    requires LitOk(strict, lit) && WordAt(t, i, Quoted(lit.raw))
    ensures ParseValueAt(strict, t, i) == Parse(Str(lit), i + |Quoted(lit.raw)|)
  {
    hide StringBody, Flat, WordAt, LitOf;
    LitParses(strict, t, i, lit);
    WordsByFirst(t, i);
  }

  lemma CompParses(strict: bool, t: Bytes, i: nat, obj: bool)
    requires At(t, i, Open(obj)) && ParseKids(strict, t, i + 1, obj).KidsParse?
    ensures var r := ParseKids(strict, t, i + 1, obj);
            ParseValueAt(strict, t, i) == Parse(Comp(obj, r.kids), r.end)
  {
    hide ParseKids, WordAt;
    WordsByFirst(t, i);
  }

  lemma {:induction false} KidsParses(strict: bool, fmt: bool, t: Bytes, i: nat, obj: bool, kids: Kids, depth: nat)
    requires WellFormedKids(strict, obj, kids)
    requires WordAt(t, i, Line(fmt, obj) + (RenderKids(fmt, obj, kids, depth + 1) + Tail(fmt, obj, depth)))
    ensures i <= |t|
    ensures ParseKids(strict, t, i, obj)
         == KidsParse(kids, i + |Line(fmt, obj) + (RenderKids(fmt, obj, kids, depth + 1) + Tail(fmt, obj, depth))|)
    decreases kids, 3
  {
    hide ParseMembers, RenderText, SkipWs, WordAt, Line, Indent, MemberText, Blank, NameText, RenderMore;
    FormatIsBlank(fmt, obj);
    WordFits(t, i, Line(fmt, obj) + (RenderKids(fmt, obj, kids, depth + 1) + Tail(fmt, obj, depth)));
    var line := Line(fmt, obj);
    var tail := Tail(fmt, obj, depth);
    WordConcat(t, i, line, RenderKids(fmt, obj, kids, depth + 1) + tail);
    if kids.KNil? {
      assert RenderKids(fmt, obj, kids, depth + 1) + tail == tail;
      CloseAfter(t, i, line, fmt, obj, depth);
    } else {
      var m := MemberText(fmt, obj, kids, depth);
      MemberSplit(fmt, obj, kids, depth);
      WordConcat(t, i + |line|, Indent(fmt, obj, depth + 1), m);
      MemberFirst(strict, fmt, obj, kids, depth);
      var j := i + |line| + |Indent(fmt, obj, depth + 1)|;
      WordIndex(t, j, m, 0);
      SpacesBefore(t, i, line, fmt, obj, depth + 1);
      MembersParse(strict, fmt, t, j, obj, kids, depth);
    }
  }

  /** From a member's name through the closing bracket. */
  function MemberText(fmt: bool, obj: bool, kids: Kids, depth: nat): Bytes
    requires kids.KCons?
  {
    NameText(fmt, obj, kids.key)
    + (RenderText(fmt, kids.val, depth + 1) + (RenderMore(fmt, obj, kids.next, depth + 1) + Tail(fmt, obj, depth)))
  }

  lemma MemberSplit(fmt: bool, obj: bool, kids: Kids, depth: nat)
    requires kids.KCons?
    ensures RenderKids(fmt, obj, kids, depth + 1) + Tail(fmt, obj, depth)
         == Indent(fmt, obj, depth + 1) + MemberText(fmt, obj, kids, depth)
  {
    hide RenderText, Tail, RenderMore, Indent;
  }

  lemma MoreSplit(fmt: bool, obj: bool, kids: Kids, depth: nat)
    requires kids.KCons?
    ensures RenderMore(fmt, obj, kids, depth + 1) + Tail(fmt, obj, depth)
         == [COMMA] + (Gap(fmt, obj) + (Indent(fmt, obj, depth + 1) + MemberText(fmt, obj, kids, depth)))
  {
    hide RenderKids, MemberText, Tail, Indent, Gap;
    MemberSplit(fmt, obj, kids, depth);
  }

  lemma MemberFirst(strict: bool, fmt: bool, obj: bool, kids: Kids, depth: nat)
    requires kids.KCons? && WellFormedKids(strict, obj, kids)
    ensures var m := MemberText(fmt, obj, kids, depth);
            m != [] && !Space(m[0]) && m[0] != 93 && m[0] != 125
  {
    hide RenderText, RenderMore, Tail;
    FirstByte(strict, fmt, kids.val, depth + 1);
  }

  lemma FormatIsBlank(fmt: bool, obj: bool)
    ensures Blank(Line(fmt, obj)) && Blank(Gap(fmt, obj))
  {
  }

  lemma IndentIsSpace(fmt: bool, obj: bool, depth: nat)
    ensures Blank(Indent(fmt, obj, depth))
  {
  }

  /** Whitespace `w` and an indentation, then something visible. */
  lemma SpacesBefore(t: Bytes, i: nat, w: Bytes, fmt: bool, obj: bool, depth: nat)
    requires WordAt(t, i, w) && Blank(w)
    requires WordAt(t, i + |w|, Indent(fmt, obj, depth))
    requires var j := i + |w| + |Indent(fmt, obj, depth)|; j < |t| && !Space(t[j])
    ensures SkipWs(t, i) == i + |w| + |Indent(fmt, obj, depth)|
  {
    hide Indent;
    IndentIsSpace(fmt, obj, depth);
    WordConcat(t, i, w, Indent(fmt, obj, depth));
    SkipOver(t, i, w + Indent(fmt, obj, depth));
  }

  lemma CloseAfter(t: Bytes, i: nat, w: Bytes, fmt: bool, obj: bool, depth: nat)
    requires WordAt(t, i, w) && Blank(w)
    requires WordAt(t, i + |w|, Tail(fmt, obj, depth))
    ensures var j := i + |w| + |Indent(fmt, obj, depth)|; SkipWs(t, i) == j && At(t, j, Close(obj))
  {
    hide Indent;
    WordConcat(t, i + |w|, Indent(fmt, obj, depth), [Close(obj)]);
    WordByte(t, i + |w| + |Indent(fmt, obj, depth)|, Close(obj));
    SpacesBefore(t, i, w, fmt, obj, depth);
  }

  lemma NameParses(strict: bool, fmt: bool, t: Bytes, j: nat, obj: bool, key: Lit)
    requires if obj then LitOk(strict, key) else key == NO_KEY
    requires WordAt(t, j, NameText(fmt, obj, key))
    requires var n := j + |NameText(fmt, obj, key)|; n < |t| && !Space(t[n])
    ensures var k := ParseKey(strict, t, j, obj);
            k.KeyParse? && k.key == key && SkipWs(t, k.end) == j + |NameText(fmt, obj, key)|
  {
    hide StringBody, Flat, WordAt, SkipWs, Quoted, LitOk, LitOf;
    if obj {
      var q := Quoted(key.raw);
      var c := if fmt then [COLON, 9] else [COLON];
      WordConcat(t, j, q, c);
      LitParses(strict, t, j, key);
      var e := j + |q|;
      WordIndex(t, e, c, 0);
      VisibleStays(t, e);
      WordFits(t, e, c);
      if fmt { WordIndex(t, e, c, 1); }
      AfterColon(t, e, fmt);
    } else {
      VisibleStays(t, j);
    }
  }

  lemma {:induction false} MembersParse(strict: bool, fmt: bool, t: Bytes, j: nat, obj: bool, kids: Kids, depth: nat)
    requires kids.KCons? && WellFormedKids(strict, obj, kids)
    requires WordAt(t, j, MemberText(fmt, obj, kids, depth))
    ensures j <= |t|
    ensures ParseMembers(strict, t, j, obj) == KidsParse(kids, j + |MemberText(fmt, obj, kids, depth)|)
    decreases kids, 2
  {
    hide ParseValueAt, ParseMore, RenderText, RenderMore, Tail, NameText, SkipWs, ParseKey, LitOk, WordAt;
    WordFits(t, j, MemberText(fmt, obj, kids, depth));
    var name := NameText(fmt, obj, kids.key);
    var val := RenderText(fmt, kids.val, depth + 1);
    var more := RenderMore(fmt, obj, kids.next, depth + 1) + Tail(fmt, obj, depth);
    WordConcat(t, j, name, val + more);
    WordConcat(t, j + |name|, val, more);
    FirstByte(strict, fmt, kids.val, depth + 1);
    var i := j + |name|;
    WordIndex(t, i, val, 0);
    NameParses(strict, fmt, t, j, obj, kids.key);
    MoreParses(strict, fmt, t, i + |val|, obj, kids.next, depth);
    RenderParses(strict, fmt, t, i, kids.val, depth + 1);
  }

  lemma {:induction false} MoreParses(strict: bool, fmt: bool, t: Bytes, i: nat, obj: bool, kids: Kids, depth: nat)
    requires WellFormedKids(strict, obj, kids)
    requires WordAt(t, i, RenderMore(fmt, obj, kids, depth + 1) + Tail(fmt, obj, depth))
    ensures i <= |t| && Ends(t, i)
    ensures ParseMore(strict, t, i, obj)
         == KidsParse(kids, i + |RenderMore(fmt, obj, kids, depth + 1) + Tail(fmt, obj, depth)|)
    decreases kids, 4
  {
    hide ParseMembers, ParseMore, RenderKids, SkipWs, Ends, Line, Gap, Indent, MemberText, Blank, WordAt, Tail;
    FormatIsBlank(fmt, obj);
    TailLength(fmt, obj, depth);
    var tail := Tail(fmt, obj, depth);
    WordFits(t, i, RenderMore(fmt, obj, kids, depth + 1) + tail);
    WordConcat(t, i, RenderMore(fmt, obj, kids, depth + 1), tail);
    if kids.KNil? {
      var line := Line(fmt, obj);
      CloseAfter(t, i, line, fmt, obj, depth);
      TailEnds(t, i, line, fmt, obj, depth);
      MoreEnds(strict, t, i, obj);
    } else {
      var m := MemberText(fmt, obj, kids, depth);
      var gap := Gap(fmt, obj);
      var indent := Indent(fmt, obj, depth + 1);
      MoreSplit(fmt, obj, kids, depth);
      WordConcat(t, i, [COMMA], gap + (indent + m));
      WordByte(t, i, COMMA);
      WordConcat(t, i + 1, gap, indent + m);
      WordConcat(t, i + 1 + |gap|, indent, m);
      MemberFirst(strict, fmt, obj, kids, depth);
      var j := i + 1 + |gap| + |indent|;
      WordIndex(t, j, m, 0);
      SpacesBefore(t, i + 1, gap, fmt, obj, depth + 1);
      VisibleStays(t, i);
      SeparatorEnds(t, i);
      MoreGoesOn(strict, t, i, obj, j);
      MembersParse(strict, fmt, t, j, obj, kids, depth);
    }
  }

  lemma MoreEnds(strict: bool, t: Bytes, i: nat, obj: bool)
    requires i <= |t| && At(t, SkipWs(t, i), Close(obj))
    ensures ParseMore(strict, t, i, obj) == KidsParse(KNil, SkipWs(t, i) + 1)
  {
  }

  lemma MoreGoesOn(strict: bool, t: Bytes, i: nat, obj: bool, j: nat)
    requires i < |t| && SkipWs(t, i) == i && At(t, i, COMMA) && SkipWs(t, i + 1) == j
    ensures ParseMore(strict, t, i, obj) == ParseMembers(strict, t, j, obj)
  {
    hide SkipWs;
  }

  lemma AfterColon(t: Bytes, e: nat, fmt: bool)
    requires var n := e + if fmt then 2 else 1; n < |t| && !Space(t[n])
    requires fmt ==> t[e + 1] == 9
    ensures SkipWs(t, e + 1) == e + if fmt then 2 else 1
  {
  }

  lemma TailEnds(t: Bytes, i: nat, w: Bytes, fmt: bool, obj: bool, depth: nat)
    requires WordAt(t, i, w) && Blank(w)
    requires WordAt(t, i + |w|, Tail(fmt, obj, depth))
    ensures Ends(t, i)
  {
    var tail := Tail(fmt, obj, depth);
    if w != [] {
      WordIndex(t, i, w, 0);
    } else {
      WordIndex(t, i, tail, 0);
      IndentIsSpace(fmt, obj, depth);
      assert Space(tail[0]) || tail[0] == Close(obj);
    }
    SeparatorEnds(t, i);
  }

  // ---- Whole texts ----

  /** Printing, compact or formatted, and parsing again is the identity. */
  lemma RenderedText(strict: bool, fmt: bool, v: Json)
    requires WellFormed(strict, v)
    ensures ParseText(strict, RenderText(fmt, v, 0)) == Parse(v, |RenderText(fmt, v, 0)|)
  {
    hide ParseValueAt, RenderText, WellFormed;
    var r := RenderText(fmt, v, 0);
    FirstByte(strict, fmt, v, 0);
    VisibleStays(r, 0);
    assert r[0..|r|] == r;
    RenderParses(strict, fmt, r, 0, v, 0);
  }

  /** The same with the NUL that ends a C string. */
  lemma RenderedTerminated(strict: bool, fmt: bool, v: Json)
    requires WellFormed(strict, v)
    ensures var t := RenderText(fmt, v, 0) + [0];
            && SkipWs(t, 0) == 0
            && ParseValueAt(strict, t, 0) == Parse(v, |t| - 1)
            && SkipWs(t, |t| - 1) == |t| - 1
  {
    hide ParseValueAt, RenderText, WellFormed;
    var r := RenderText(fmt, v, 0);
    var t := r + [0];
    FirstByte(strict, fmt, v, 0);
    VisibleStays(t, 0);
    assert t[0..|r|] == r;
    RenderParses(strict, fmt, t, 0, v, 0);
  }

  // ---- Parsed trees are well formed ----

  lemma {:induction false} ParsedIsWellFormed(strict: bool, t: Bytes, j: nat)
    requires j <= |t| && ParseValueAt(strict, t, j).Parse?
    ensures WellFormed(strict, ParseValueAt(strict, t, j).v)
    decreases |t| - j, 1
  {
    hide LitOk, LitOf, StringBody, ParseKids, WordAt;
    WordsByFirst(t, j);
    if t[j] == QUOTE {
      LitIsOk(strict, t, j + 1);
    } else if t[j] == 45 || Digit(t[j]) {
      TokenIsOk(t, j);
    } else if t[j] == 91 || t[j] == 123 {
      ParsedKids(strict, t, j + 1, t[j] == 123);
    }
  }

  lemma {:induction false} ParsedKids(strict: bool, t: Bytes, i: nat, obj: bool)
    requires i <= |t| && ParseKids(strict, t, i, obj).KidsParse?
    ensures WellFormedKids(strict, obj, ParseKids(strict, t, i, obj).kids)
    decreases |t| - i, 4
  {
    hide ParseMembers;
    var j := SkipWs(t, i);
    if !At(t, j, Close(obj)) { ParsedMembers(strict, t, j, obj); }
  }

  lemma {:induction false} ParsedMembers(strict: bool, t: Bytes, i: nat, obj: bool)
    requires i <= |t| && ParseMembers(strict, t, i, obj).KidsParse?
    ensures WellFormedKids(strict, obj, ParseMembers(strict, t, i, obj).kids)
    decreases |t| - i, 3
  {
    hide ParseValueAt, ParseMore, ParseKey, LitOk, WellFormed;
    var k := ParseKey(strict, t, i, obj);
    KeyIsOk(strict, t, i, obj);
    var p := ParseValue(strict, t, k.end);
    ParsedIsWellFormed(strict, t, SkipWs(t, k.end));
    ParsedMore(strict, t, p.end, obj);
  }

  lemma KeyIsOk(strict: bool, t: Bytes, i: nat, obj: bool)
    requires i <= |t| && ParseKey(strict, t, i, obj).KeyParse?
    ensures var key := ParseKey(strict, t, i, obj).key;
            if obj then LitOk(strict, key) else key == NO_KEY
  {
    hide StringBody, LitOk, LitOf;
    if obj { LitIsOk(strict, t, i + 1); }
  }

  lemma {:induction false} ParsedMore(strict: bool, t: Bytes, i: nat, obj: bool)
    requires i <= |t| && ParseMore(strict, t, i, obj).KidsParse?
    ensures WellFormedKids(strict, obj, ParseMore(strict, t, i, obj).kids)
    decreases |t| - i, 4
  {
    hide ParseMembers;
    var j := SkipWs(t, i);
    if !At(t, j, Close(obj)) { ParsedMembers(strict, t, SkipWs(t, j + 1), obj); }
  }
}
