/** The tree library's printer writing into a buffer of fixed size. */
module Printer {
  import opened Utf8
  import opened Grammar
  import opened Tree
  import opened Render
  import opened Escaping

  // ---- The text of a tree ----

  /** The syntax a tree is printed with; raw text stands where a token would. */
  function Syntax(t: Tree): Json
    decreases t
  {
    match t
    case TNull => Null
    case TTrue => True
    case TFalse => False
    case TNum(tok) => Num(tok)
    case TRaw(text) => Num(text)
    case TStr(val) => Str(Lit(EscapeAll(true, val), val))
    case TComp(obj, kids) => Comp(obj, SyntaxKids(obj, kids))
  }

  function SyntaxKids(obj: bool, kids: TKids): Kids
    decreases kids
  {
    match kids
    case TNil => KNil
    case TCons(key, val, next) =>
      KCons(if obj then Lit(EscapeAll(true, key), key) else NO_KEY, Syntax(val), SyntaxKids(obj, next))
  }

  function TreeText(fmt: bool, t: Tree, depth: nat): Bytes {
    RenderText(fmt, Syntax(t), depth)
  }

  const NUMBER_BUFFER: nat := 26

  /** Every string, name, token and raw text is a C string. */
  predicate Clean(t: Tree) {
    match t
    case TNum(tok) => 0 !in tok
    case TRaw(text) => 0 !in text
    case TStr(val) => 0 !in val
    case TComp(_, kids) => CleanKids(kids)
    case _ => true
  }

  predicate CleanKids(kids: TKids) {
    match kids
    case TNil => true
    case TCons(key, val, next) => 0 !in key && Clean(val) && CleanKids(next)
  }

  /** Every number fits the printer's number buffer. */
  predicate Numbers(t: Tree) {
    match t
    case TNum(tok) => |tok| < NUMBER_BUFFER
    case TComp(_, kids) => NumbersKids(kids)
    case _ => true
  }

  predicate NumbersKids(kids: TKids) {
    match kids
    case TNil => true
    case TCons(_, val, next) => Numbers(val) && NumbersKids(next)
  }

  // ---- Printed text holds no NUL ----

  lemma NoZero(a: Bytes, b: Bytes)
    ensures 0 !in a + b <==> 0 !in a && 0 !in b
  {
    if 0 in a {
      var k :| 0 <= k < |a| && a[k] == 0;
      assert (a + b)[k] == 0;
    }
    if 0 in b {
      var k :| 0 <= k < |b| && b[k] == 0;
      assert (a + b)[|a| + k] == 0;
    }
  }

  lemma {:induction false} EscapeNoZero(short: bool, bs: Bytes)
    requires 0 !in bs
    ensures 0 !in EscapeAll(short, bs)
  {
    if bs != [] {
      EscapeNoZero(short, bs[1..]);
      NoZero(EscapeByte(short, bs[0]), EscapeAll(short, bs[1..]));
    }
  }

  lemma QuotedNoZero(bs: Bytes)
    requires 0 !in bs
    ensures 0 !in Quoted(EscapeAll(true, bs))
  {
    EscapeNoZero(true, bs);
  }

  lemma LayoutNoZero(fmt: bool, obj: bool, depth: nat)
    ensures 0 !in Line(fmt, obj) && 0 !in Gap(fmt, obj) && 0 !in Indent(fmt, obj, depth)
  {
  }

  lemma {:induction false} TextNoZero(fmt: bool, t: Tree, depth: nat)
    requires Clean(t)
    ensures 0 !in TreeText(fmt, t, depth)
    decreases t, 0
  {
    hide RenderKids, Quoted, Line, Indent;
    match t {
      case TStr(val) => QuotedNoZero(val);
      case TComp(obj, kids) =>
        KidsNoZero(fmt, obj, kids, depth + 1);
        LayoutNoZero(fmt, obj, depth);
        var body := RenderKids(fmt, obj, SyntaxKids(obj, kids), depth + 1);
        NoZero(Indent(fmt, obj, depth), [Close(obj)]);
        NoZero(body, Indent(fmt, obj, depth) + [Close(obj)]);
        NoZero(Line(fmt, obj), body + (Indent(fmt, obj, depth) + [Close(obj)]));
        NoZero([Open(obj)], Line(fmt, obj) + (body + (Indent(fmt, obj, depth) + [Close(obj)])));
      case _ =>
    }
  }

  lemma NameNoZero(fmt: bool, obj: bool, key: Bytes)
    requires 0 !in key
    ensures 0 !in NameText(fmt, obj, if obj then Lit(EscapeAll(true, key), key) else NO_KEY)
  {
    QuotedNoZero(key);
  }

  lemma {:induction false} KidsNoZero(fmt: bool, obj: bool, kids: TKids, depth: nat)
    requires CleanKids(kids)
    ensures 0 !in RenderKids(fmt, obj, SyntaxKids(obj, kids), depth)
    decreases kids, 1
  {
    hide RenderText, NameText, Line, Indent, Gap;
    if kids.TCons? {
      var next := SyntaxKids(obj, kids.next);
      LayoutNoZero(fmt, obj, depth);
      TextNoZero(fmt, kids.val, depth);
      KidsNoZero(fmt, obj, kids.next, depth);
      NameNoZero(fmt, obj, kids.key);
      var name := NameText(fmt, obj, if obj then Lit(EscapeAll(true, kids.key), kids.key) else NO_KEY);
      var text := TreeText(fmt, kids.val, depth);
      var more := RenderMore(fmt, obj, next, depth);
      NoZero(Gap(fmt, obj), RenderKids(fmt, obj, next, depth));
      NoZero([COMMA], Gap(fmt, obj) + RenderKids(fmt, obj, next, depth));
      NoZero(text, more);
      NoZero(name, text + more);
      NoZero(Indent(fmt, obj, depth), name + (text + more));
    }
  }

  // ---- Children one by one ----

  function Sep(fmt: bool, obj: bool, last: bool): Bytes {
    if last then Line(fmt, obj) else [COMMA] + Gap(fmt, obj)
  }

  function NameLit(obj: bool, key: Bytes): Lit {
    if obj then Lit(EscapeAll(true, key), key) else NO_KEY
  }

  /** A child with its indentation, name and separator. */
  function ChildText(fmt: bool, obj: bool, key: Bytes, val: Tree, last: bool, depth: nat): Bytes {
    Indent(fmt, obj, depth)
    + (NameText(fmt, obj, NameLit(obj, key)) + (TreeText(fmt, val, depth) + Sep(fmt, obj, last)))
  }

  function ChildrenText(fmt: bool, obj: bool, kids: TKids, depth: nat): Bytes {
    RenderKids(fmt, obj, SyntaxKids(obj, kids), depth)
  }

  lemma ChildrenStep(fmt: bool, obj: bool, kids: TKids, depth: nat)
    requires kids.TCons?
    ensures ChildrenText(fmt, obj, kids, depth)
         == ChildText(fmt, obj, kids.key, kids.val, kids.next.TNil?, depth) + ChildrenText(fmt, obj, kids.next, depth)
  {
    hide NameText, Indent, RenderText, Gap, Line;
    var sep := Sep(fmt, obj, kids.next.TNil?);
    var rest := ChildrenText(fmt, obj, kids.next, depth);
    var text := TreeText(fmt, kids.val, depth);
    var name := NameText(fmt, obj, NameLit(obj, kids.key));
    assert RenderMore(fmt, obj, SyntaxKids(obj, kids.next), depth) == sep + rest;
    Assoc(text, sep, rest);
    Assoc(name, text + sep, rest);
    Assoc(Indent(fmt, obj, depth), name + (text + sep), rest);
  }

  function LabelText(fmt: bool, key: Bytes, depth: nat): Bytes {
    Indent(fmt, true, depth) + NameText(fmt, true, NameLit(true, key))
  }

  lemma ChildIsLabelled(fmt: bool, key: Bytes, val: Tree, last: bool, depth: nat)
    ensures ChildText(fmt, true, key, val, last, depth)
         == LabelText(fmt, key, depth) + (TreeText(fmt, val, depth) + Sep(fmt, true, last))
  {
    hide Indent, NameText, TreeText, Sep;
  }

  lemma LeafText(fmt: bool, t: Tree, depth: nat)
    ensures var r := TreeText(fmt, t, depth);
            match t
            case TNull => r == NULL
            case TTrue => r == TRUE
            case TFalse => r == FALSE
            case TNum(tok) => r == tok
            case TRaw(text) => r == text
            case TStr(val) => r == Quoted(EscapeAll(true, val))
            case TComp(_, _) => true
  {
  }

  function OpenText(fmt: bool, obj: bool): Bytes {
    if fmt && obj then [123, 10] else [Open(obj)]
  }

  lemma TreeTextUnfold(fmt: bool, obj: bool, kids: TKids, depth: nat)
    ensures TreeText(fmt, TComp(obj, kids), depth)
         == OpenText(fmt, obj) + (ChildrenText(fmt, obj, kids, depth + 1) + Tail(fmt, obj, depth))
  {
    hide RenderKids, Indent;
    var body := RenderKids(fmt, obj, SyntaxKids(obj, kids), depth + 1) + (Indent(fmt, obj, depth) + [Close(obj)]);
    assert [Open(obj)] + (Line(fmt, obj) + body) == OpenText(fmt, obj) + body;
  }

  /** The first child and what follows it, after `before`. */
  lemma NextChild(fmt: bool, obj: bool, kids: TKids, depth: nat, before: Bytes, tail: Bytes)
    requires kids.TCons?
    ensures var text := ChildText(fmt, obj, kids.key, kids.val, kids.next.TNil?, depth);
            var rest := ChildrenText(fmt, obj, kids.next, depth) + tail;
            && before + (ChildrenText(fmt, obj, kids, depth) + tail) == (before + text) + rest
            && |ChildrenText(fmt, obj, kids, depth) + tail| == |text| + |rest|
  {
    hide ChildText, ChildrenText;
    var text := ChildText(fmt, obj, kids.key, kids.val, kids.next.TNil?, depth);
    var rest := ChildrenText(fmt, obj, kids.next, depth);
    ChildrenStep(fmt, obj, kids, depth);
    Assoc(text, rest, tail);
    Assoc(before, text, rest + tail);
  }

  lemma ChildrenEnd(fmt: bool, obj: bool, depth: nat)
    ensures ChildrenText(fmt, obj, TNil, depth) == []
  {
  }

  lemma ArrayTail(fmt: bool, depth: nat)
    ensures Tail(fmt, false, depth) == [93]
  {
  }

  lemma Assoc(a: Bytes, b: Bytes, c: Bytes)
    ensures (a + b) + c == a + (b + c)
  {
  }

  // ---- The printer ----

  lemma EscapeStep(input: Bytes, i: nat)
    requires i < |input|
    ensures EscapeAll(true, input[..i + 1]) == EscapeAll(true, input[..i]) + EscapeByte(true, input[i])
  {
    hide EscapeByte;
    assert input[..i + 1] == input[..i] + [input[i]];
    EscapeConcat(true, input[..i], [input[i]]);
    assert EscapeAll(true, [input[i]]) == EscapeByte(true, input[i]);
  }

  /** A text that does not grow is not changed. */
  lemma {:induction false} EscapeNothing(bs: Bytes)
    requires |EscapeAll(true, bs)| == |bs|
    ensures EscapeAll(true, bs) == bs
  {
    if bs != [] {
      EscapeGrowth(true, bs[1..]);
      EscapeNothing(bs[1..]);
    }
  }

  lemma EscapePrefix(input: Bytes, i: nat)
    requires i <= |input|
    ensures |EscapeAll(true, input[..i])| <= |EscapeAll(true, input)|
    ensures i == |input| ==> input[..i] == input
    ensures i < |input| ==>
              |EscapeAll(true, input[..i])| + |EscapeByte(true, input[i])| <= |EscapeAll(true, input)|
  {
    hide EscapeByte;
    assert input == input[..i] + input[i..];
    EscapeConcat(true, input[..i], input[i..]);
  }

  class PrintBuffer {
    const buffer: array<Byte>
    const format: bool
    var offset: nat
    var depth: nat

    constructor (buffer: array<Byte>, format: bool)
      ensures this.buffer == buffer && this.format == format && offset == 0 && depth == 0
    {
      this.buffer := buffer;
      this.format := format;
      offset, depth := 0, 0;
    }

    /** The buffer holds `before` and then `text`, ended by a NUL. */
    ghost predicate Holds(before: Bytes, text: Bytes)
      reads buffer
    {
      && |before| + |text| < buffer.Length
      && buffer[..|before| + |text|] == before + text
      && buffer[|before| + |text|] == 0
    }

    /** Room for `needed` bytes and a terminator; the buffer never grows. */
    method Ensure(needed: nat) returns (ok: bool)
      ensures ok <==> offset + needed + 1 <= buffer.Length
    {
      if buffer.Length > 0 && offset >= buffer.Length { return false; }
      return needed + offset + 1 <= buffer.Length;
    }

    /** Copy bytes into the buffer. */
    method Put(at: nat, bytes: Bytes)
      requires at + |bytes| <= buffer.Length
      modifies buffer
      ensures buffer[..at + |bytes|] == old(buffer[..at]) + bytes
    {
      var i: nat := 0;
      while i < |bytes|
        invariant i <= |bytes|
        invariant buffer[..at + i] == old(buffer[..at]) + bytes[..i]
      {
        buffer[at + i] := bytes[i];
        i := i + 1;
      }
    }

    method Terminate(at: nat)
      requires at < buffer.Length
      modifies buffer
      ensures buffer[..at] == old(buffer[..at]) && buffer[at] == 0
    {
      buffer[at] := 0;
    }

    /** Move the offset to the end of the string it points into. */
    method UpdateOffset(ghost before: Bytes, ghost text: Bytes)
      requires Holds(before, text) && 0 !in text
      requires |before| <= offset <= |before| + |text|
      modifies this`offset
      ensures offset == |before| + |text|
    {
      while buffer[offset] != 0
        invariant |before| <= offset <= |before| + |text|
        decreases buffer.Length - offset
      {
        offset := offset + 1;
      }
    }

    method PrintNumber(tok: Bytes) returns (ok: bool)
      modifies this`offset, buffer
      ensures ok <==> |tok| < NUMBER_BUFFER && old(offset) + |tok| + 2 <= buffer.Length
      ensures ok ==> offset == old(offset) + |tok| && Holds(old(buffer[..offset]), tok)
    {
      if |tok| > NUMBER_BUFFER - 1 { return false; }
      ok := Ensure(|tok| + 1);
      if !ok { return; }
      Put(offset, tok);
      Terminate(offset + |tok|);
      offset := offset + |tok|;
    }
  
    /** How many bytes escaping adds. */
    method EscapeCharacters(input: Bytes) returns (count: nat)
      ensures |input| + count == |EscapeAll(true, input)|
    {
      count := 0;
      var i := 0;
      while i < |input|
        invariant i <= |input|
        invariant i + count == |EscapeAll(true, input[..i])|
      {
        EscapeStep(input, i);
        var c := input[i];
        if c == QUOTE || c == BACKSLASH || c == 8 || c == 12 || c == 10 || c == 13 || c == 9 {
          count := count + 1;
        } else if c < 32 {
          count := count + 5;
        }
        i := i + 1;
      }
      assert input[..i] == input;
    }

    /** The escape of one character, written through the output pointer `at`. */
    method PutEscaped(at: nat, c: Byte)
      requires c != 0 && at + |EscapeByte(true, c)| < buffer.Length
      modifies buffer
      ensures buffer[..at + |EscapeByte(true, c)|] == old(buffer[..at]) + EscapeByte(true, c)
    {
      if c > 31 && c != QUOTE && c != BACKSLASH {
        Put(at, [c]);
      } else if c == QUOTE || c == BACKSLASH {
        Put(at, [BACKSLASH, c]);
      } else if c == 8 || c == 12 || c == 10 || c == 13 || c == 9 {
        Put(at, [BACKSLASH, ShortLetter(c)]);
      } else {
        var e := EscapeByte(true, c);
        Put(at, e);
        ghost var done := buffer[..at + 6];
        buffer[at + 6] := 0;
        assert buffer[..at + 6] == done;
      }
    }

    /** Copy a string, escaping what needs it. */
    method PutString(at: nat, input: Bytes)
      requires 0 !in input && at + |EscapeAll(true, input)| < buffer.Length
      modifies buffer
      ensures buffer[..at + |EscapeAll(true, input)|] == old(buffer[..at]) + EscapeAll(true, input)
    {
      hide EscapeAll, EscapeByte;
      var i, pos := 0, at;
      assert EscapeAll(true, input[..0]) == [] by { EscapeGrowth(true, input[..0]); }
      while i < |input|
        invariant i <= |input|
        invariant pos == at + |EscapeAll(true, input[..i])| <= at + |EscapeAll(true, input)|
        invariant buffer[..pos] == old(buffer[..at]) + EscapeAll(true, input[..i])
      {
        EscapeStep(input, i);
        EscapePrefix(input, i);
        PutEscaped(pos, input[i]);
        pos := pos + |EscapeByte(true, input[i])|;
        i := i + 1;
      }
      assert input[..i] == input;
    }

    /** The quoted string at the offset; `plain` says that nothing needs escaping. */
    method PutQuoted(input: Bytes, plain: bool, ghost raw: Bytes)
      requires 0 !in input && raw == EscapeAll(true, input) && (plain ==> raw == input)
      requires offset + |raw| + 2 < buffer.Length
      modifies buffer
      ensures buffer[..offset + |raw| + 2] == old(buffer[..offset]) + ([QUOTE] + raw + [QUOTE])
    {
      hide EscapeAll;
      ghost var before := buffer[..offset];
      Put(offset, [QUOTE]);
      var at := offset + 1;
      if plain {
        Put(at, input);
        at := at + |input|;
      } else {
        PutString(at, input);
        at := at + |EscapeAll(true, input)|;
      }
      ghost var most := before + [QUOTE] + raw;
      assert buffer[..at] == most;
      Put(at, [QUOTE]);
      assert most + [QUOTE] == before + ([QUOTE] + raw + [QUOTE]);
    }

    method PrintString(input: Bytes) returns (ok: bool)
      requires 0 !in input
      modifies buffer
      ensures ok <==> offset + |Quoted(EscapeAll(true, input))| + 2 <= buffer.Length
      ensures ok ==> Holds(old(buffer[..offset]), Quoted(EscapeAll(true, input)))
    {
      hide EscapeAll;
      var count := EscapeCharacters(input);
      var length := |input| + count;
      ok := Ensure(length + 3);
      if !ok { return; }
      if count == 0 { EscapeNothing(input); }
      PutQuoted(input, count == 0, EscapeAll(true, input));
      Terminate(offset + length + 2);
    }
  
    method PrintValue(item: Tree) returns (ok: bool)
      requires offset <= buffer.Length && Clean(item)
      modifies this, buffer
      ensures ok <==> Numbers(item) && old(offset) + |TreeText(format, item, old(depth))| + 2 <= buffer.Length
      ensures ok ==> depth == old(depth) && Holds(old(buffer[..offset]), TreeText(format, item, depth))
      ensures ok ==> old(offset) <= offset <= old(offset) + |TreeText(format, item, depth)|
      decreases item, 0
    {
      hide TreeText, Quoted, EscapeAll;
      LeafText(format, item, depth);
      match item {
        case TNull => ok := PrintText(NULL);
        case TTrue => ok := PrintText(TRUE);
        case TFalse => ok := PrintText(FALSE);
        case TNum(tok) => ok := PrintNumber(tok);
        case TRaw(text) => ok := PrintText(text);
        case TStr(val) => ok := PrintString(val);
        case TComp(obj, kids) =>
          if obj { ok := PrintObject(kids); } else { ok := PrintArray(kids); }
      }
    }

    /** Text copied as it is. */
    method PrintText(text: Bytes) returns (ok: bool)
      modifies buffer
      ensures ok <==> offset + |text| + 2 <= buffer.Length
      ensures ok ==> Holds(old(buffer[..offset]), text)
    {
      ok := Ensure(|text| + 1);
      if !ok { return; }
      Put(offset, text);
      Terminate(offset + |text|);
    }

    /** A value and the move past it. */
    method PrintMoved(item: Tree) returns (ok: bool)
      requires offset <= buffer.Length && Clean(item)
      modifies this, buffer
      ensures ok <==> Numbers(item) && old(offset) + |TreeText(format, item, old(depth))| + 2 <= buffer.Length
      ensures ok ==> depth == old(depth) && offset == old(offset) + |TreeText(format, item, depth)| <= buffer.Length
      ensures ok ==> buffer[..offset] == old(buffer[..offset]) + TreeText(format, item, depth)
      decreases item, 1
    {
      hide TreeText;
      ghost var before := buffer[..offset];
      ghost var text := TreeText(format, item, depth);
      ok := PrintValue(item);
      if !ok { return; }
      TextNoZero(format, item, depth);
      UpdateOffset(before, text);
    }

    method PrintElement(ghost key: Bytes, val: Tree, last: bool) returns (ok: bool)
      requires offset <= buffer.Length && Clean(val)
      modifies this, buffer
      ensures ok <==> Numbers(val)
                      && old(offset) + |ChildText(format, false, key, val, last, old(depth))| + 2 <= buffer.Length
      ensures ok ==> depth == old(depth)
                     && offset == old(offset) + |ChildText(format, false, key, val, last, depth)|
                     && buffer[..offset] == old(buffer[..offset]) + ChildText(format, false, key, val, last, depth)
      decreases val, 2
    {
      hide TreeText;
      ok := PrintMoved(val);
      if !ok || last { return; }
      var gap := if format then [COMMA, 32] else [COMMA];
      ok := Ensure(|gap| + 1);
      if !ok { return; }
      Put(offset, gap);
      Terminate(offset + |gap|);
      offset := offset + |gap|;
    }

    method PrintArray(kids: TKids) returns (ok: bool)
      requires offset <= buffer.Length && CleanKids(kids)
      modifies this, buffer
      ensures ok <==> NumbersKids(kids)
                      && old(offset) + |TreeText(format, TComp(false, kids), old(depth))| + 2 <= buffer.Length
      ensures ok ==> depth == old(depth) && Holds(old(buffer[..offset]), TreeText(format, TComp(false, kids), depth))
      ensures ok ==> old(offset) <= offset <= old(offset) + |TreeText(format, TComp(false, kids), depth)|
      decreases kids
    {
      hide TreeText, ChildText, ChildrenText, Tail;
      TreeTextUnfold(format, false, kids, depth);
      ArrayTail(format, depth);
      ghost var goal := buffer[..offset] + TreeText(format, TComp(false, kids), depth);
      ghost var tail := Tail(format, false, depth);
      var open := OpenText(format, false);
      Assoc(buffer[..offset], open, ChildrenText(format, false, kids, depth + 1) + tail);
      ok := Ensure(1);
      if !ok { return; }
      Advance(open);
      depth := depth + 1;
      var current := kids;
      while current.TCons?
        invariant current == kids || current < kids
        invariant CleanKids(current) && depth == old(depth) + 1
        invariant NumbersKids(kids) <==> NumbersKids(current)
        invariant old(offset) <= offset < buffer.Length
        invariant buffer[..offset] + (ChildrenText(format, false, current, depth) + tail) == goal
        decreases current
      {
        NextChild(format, false, current, depth, buffer[..offset], tail);
        ok := PrintElement(current.key, current.val, current.next.TNil?);
        if !ok { return; }
        current := current.next;
      }
      ChildrenEnd(format, false, depth);
      ok := PrintText([93]);
      if !ok { return; }
      depth := depth - 1;
    }

    /** Tabs written through the output pointer `at`. */
    method PutTabs(at: nat, n: nat)
      requires at + n <= buffer.Length
      modifies buffer
      ensures buffer[..at + n] == old(buffer[..at]) + Tabs(n)
    {
      var i := 0;
      while i < n
        invariant i <= n
        invariant buffer[..at + i] == old(buffer[..at]) + Tabs(i)
      {
        buffer[at + i] := 9;
        i := i + 1;
      }
    }

    /** Bytes appended at the offset, which moves past them. */
    method Advance(bytes: Bytes)
      requires offset + |bytes| <= buffer.Length
      modifies this`offset, buffer
      ensures offset == old(offset) + |bytes| && buffer[..offset] == old(buffer[..offset]) + bytes
    {
      Put(offset, bytes);
      offset := offset + |bytes|;
    }

    method PrintIndent() returns (ok: bool)
      requires offset <= buffer.Length
      modifies this`offset, buffer
      ensures ok ==> offset <= buffer.Length && offset == old(offset) + |Indent(format, true, depth)|
                     && buffer[..offset] == old(buffer[..offset]) + Indent(format, true, depth)
      ensures old(offset) + |Indent(format, true, depth)| + 1 <= buffer.Length ==> ok
    {
      ok := true;
      if format {
        ok := Ensure(depth);
        if !ok { return; }
        PutTabs(offset, depth);
        offset := offset + depth;
      }
    }

    /** A member name with its colon. */
    method PrintName(key: Bytes) returns (ok: bool)
      requires offset <= buffer.Length && 0 !in key
      modifies this`offset, buffer
      ensures ok ==> offset <= buffer.Length && offset == old(offset) + |NameText(format, true, NameLit(true, key))|
                     && buffer[..offset] == old(buffer[..offset]) + NameText(format, true, NameLit(true, key))
      ensures old(offset) + |NameText(format, true, NameLit(true, key))| + 1 <= buffer.Length ==> ok
    {
      hide EscapeAll, Quoted;
      ghost var before := buffer[..offset];
      ghost var quoted := Quoted(EscapeAll(true, key));
      ok := PrintString(key);
      if !ok { return; }
      QuotedNoZero(key);
      UpdateOffset(before, quoted);
      var colon := if format then [COLON, 9] else [COLON];
      ok := Ensure(|colon|);
      if !ok { return; }
      Advance(colon);
    }

    /** What precedes a member's value. */
    method PrintLabel(key: Bytes) returns (ok: bool)
      requires offset <= buffer.Length && 0 !in key
      modifies this`offset, buffer
      ensures ok ==> offset <= buffer.Length
                     && offset == old(offset) + |LabelText(format, key, depth)|
                     && buffer[..offset] == old(buffer[..offset]) + LabelText(format, key, depth)
      ensures old(offset) + |LabelText(format, key, depth)| + 1 <= buffer.Length ==> ok
    {
      hide NameText, Indent;
      ok := PrintIndent();
      if !ok { return; }
      ok := PrintName(key);
    }

    method PrintMember(key: Bytes, val: Tree, last: bool) returns (ok: bool)
      requires offset <= buffer.Length && 0 !in key && Clean(val)
      modifies this, buffer
      ensures ok <==> Numbers(val)
                      && old(offset) + |ChildText(format, true, key, val, last, old(depth))| + 2 <= buffer.Length
      ensures ok ==> depth == old(depth)
                     && offset == old(offset) + |ChildText(format, true, key, val, last, depth)|
                     && buffer[..offset] == old(buffer[..offset]) + ChildText(format, true, key, val, last, depth)
      decreases val, 2
    {
      hide TreeText, LabelText, ChildText;
      ghost var head := LabelText(format, key, depth);
      ghost var text := TreeText(format, val, depth);
      var sep := (if last then [] else [COMMA]) + if format then [10] else [];
      assert sep == Sep(format, true, last);
      ChildIsLabelled(format, key, val, last, depth);
      ghost var before := buffer[..offset];
      Assoc(before, head, text + sep);
      ok := PrintLabel(key);
      if !ok { return; }
      Assoc(before + head, text, sep);
      ok := PrintMoved(val);
      if !ok { return; }
      ok := Ensure(|sep| + 1);
      if !ok { return; }
      Put(offset, sep);
      Terminate(offset + |sep|);
      offset := offset + |sep|;
    }

    /** The members of an object, one after another. */
    method PrintMembers(kids: TKids) returns (ok: bool)
      requires offset < buffer.Length && CleanKids(kids)
      modifies this, buffer
      ensures ok <==> NumbersKids(kids)
                      && (kids.TCons? ==>
                            old(offset) + |ChildrenText(format, true, kids, old(depth))| + 2 <= buffer.Length)
      ensures ok ==> depth == old(depth) && offset < buffer.Length
                     && offset == old(offset) + |ChildrenText(format, true, kids, depth)|
                     && buffer[..offset] == old(buffer[..offset]) + ChildrenText(format, true, kids, depth)
      decreases kids, 0
    {
      hide ChildText, ChildrenText;
      ghost var goal := buffer[..offset] + ChildrenText(format, true, kids, depth);
      var current := kids;
      ok := true;
      while current.TCons?
        invariant (current == kids || current < kids) && (current.TCons? ==> kids.TCons?)
        invariant CleanKids(current) && depth == old(depth) && ok
        invariant NumbersKids(kids) <==> NumbersKids(current)
        invariant old(offset) <= offset < buffer.Length
        invariant current != kids ==> offset + 2 <= buffer.Length
        invariant buffer[..offset] + ChildrenText(format, true, current, depth) == goal
        decreases current
      {
        ghost var text := ChildText(format, true, current.key, current.val, current.next.TNil?, depth);
        ChildrenStep(format, true, current, depth);
        Assoc(buffer[..offset], text, ChildrenText(format, true, current.next, depth));
        assert offset + |text| <= |goal|;
        ok := PrintMember(current.key, current.val, current.next.TNil?);
        if !ok { return; }
        current := current.next;
      }
      ChildrenEnd(format, true, depth);
    }

    method PrintObject(kids: TKids) returns (ok: bool)
      requires offset <= buffer.Length && CleanKids(kids)
      modifies this, buffer
      ensures ok <==> NumbersKids(kids)
                      && old(offset) + |TreeText(format, TComp(true, kids), old(depth))| + 2 <= buffer.Length
      ensures ok ==> depth == old(depth) && Holds(old(buffer[..offset]), TreeText(format, TComp(true, kids), depth))
      ensures ok ==> old(offset) <= offset <= old(offset) + |TreeText(format, TComp(true, kids), depth)|
      decreases kids, 1
    {
      hide TreeText, ChildrenText, Tail, NumbersKids, CleanKids;
      TreeTextUnfold(format, true, kids, depth);
      TailLength(format, true, depth);
      ghost var before := buffer[..offset];
      ghost var tail := Tail(format, true, depth);
      ghost var text := ChildrenText(format, true, kids, depth + 1);
      var open := OpenText(format, true);
      Assoc(before, open, text + tail);
      Assoc(before + open, text, tail);
      ok := Ensure(|open| + 1);
      if !ok { return; }
      Advance(open);
      depth := depth + 1;
      ok := PrintMembers(kids);
      if !ok { return; }
      ok := PrintClose();
      if !ok { return; }
      depth := depth - 1;
    }

    /** The closing brace of an object and its indentation. */
    method PrintClose() returns (ok: bool)
      requires 1 <= depth
      modifies buffer
      ensures ok <==> offset + |Tail(format, true, depth - 1)| + 2 <= buffer.Length
      ensures ok ==> Holds(old(buffer[..offset]), Tail(format, true, depth - 1))
    {
      ok := Ensure(if format then depth + 1 else 2);
      if !ok { return; }
      var at := offset;
      if format {
        PutTabs(at, depth - 1);
        at := at + depth - 1;
      }
      Put(at, [125]);
      Terminate(at + 1);
    }
  }

  /** Printing into a caller's buffer succeeds exactly when the text, a NUL and one spare
      byte fit, and then leaves the text there. */
  method PrintPreallocated(item: Tree, buffer: array<Byte>, format: bool) returns (ok: bool)
    requires Clean(item)
    modifies buffer
    ensures ok <==> Numbers(item) && |TreeText(format, item, 0)| + 2 <= buffer.Length
    ensures ok ==> buffer[..|TreeText(format, item, 0)|] == TreeText(format, item, 0)
    ensures ok ==> buffer[|TreeText(format, item, 0)|] == 0
  {
    hide TreeText;
    var p := new PrintBuffer(buffer, format);
    ok := p.PrintValue(item);
  }

  /** The length of the C string in a buffer. */
  method StringLength(buffer: array<Byte>, ghost text: Bytes) returns (n: nat)
    requires |text| < buffer.Length && buffer[..|text|] == text && buffer[|text|] == 0 && 0 !in text
    ensures n == |text|
  {
    n := 0;
    while buffer[n] != 0
      invariant n <= |text|
      decreases |text| - n
    {
      n := n + 1;
    }
  }
}
