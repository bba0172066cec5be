/** Trees printed and parsed again by the tree library. */
module RoundTrip {
  import opened Order
  import opened Utf8
  import opened Grammar
  import opened Placement
  import opened Render
  import opened Escaping
  import opened Tree
  import opened TreeParser
  import opened Printer
  import opened Scan

  /** Numbers are JSON tokens, array elements have no name, and nothing is raw text. */
  predicate Proper(t: Tree)
    decreases t
  {
    match t
    case TNum(tok) => TokOk(tok)
    case TRaw(_) => false
    case TComp(obj, kids) => ProperKids(obj, kids)
    case _ => true
  }

  predicate ProperKids(obj: bool, kids: TKids)
    decreases kids
  {
    match kids
    case TNil => true
    case TCons(key, val, next) => (obj || key == []) && Proper(val) && ProperKids(obj, next)
  }

  /** Levels of arrays and objects. */
  function Levels(t: Tree): nat {
    match t
    case TComp(_, kids) => 1 + LevelsKids(kids)
    case _ => 0
  }

  function LevelsKids(kids: TKids): nat {
    match kids
    case TNil => 0
    case TCons(_, val, next) => Max(Levels(val), LevelsKids(next))
  }

  /** The printed syntax denotes the tree and keeps its measures. */
  lemma {:induction false} SyntaxDenotes(t: Tree)
    requires Proper(t) && Numbers(t)
    ensures Denote(Syntax(t)) == t && WellFormed(false, Syntax(t))
    ensures ShortNums(Syntax(t)) && Nesting(Syntax(t)) == Levels(t)
    decreases t, 1
  {
    hide LitOk, TokOk;
    match t {
      case TStr(val) => EscapedBody(false, true, val);
      case TComp(obj, kids) => SyntaxKidsDenote(obj, kids);
      case _ =>
    }
  }

  lemma {:induction false} SyntaxKidsDenote(obj: bool, kids: TKids)
    requires ProperKids(obj, kids) && NumbersKids(kids)
    ensures DenoteKids(SyntaxKids(obj, kids)) == kids && WellFormedKids(false, obj, SyntaxKids(obj, kids))
    ensures ShortNumsKids(SyntaxKids(obj, kids)) && KidsNesting(SyntaxKids(obj, kids)) == LevelsKids(kids)
    decreases kids, 0
  {
    hide LitOk;
    if kids.TCons? {
      EscapedBody(false, true, kids.key);
      SyntaxDenotes(kids.val);
      SyntaxKidsDenote(obj, kids.next);
    }
  }

  /** The text of a tree is one the parser must read as that tree. */
  lemma PrintedIsReadable(fmt: bool, t: Tree)
    requires Proper(t) && Numbers(t) && Levels(t) <= NESTING_LIMIT
    ensures var content := TreeText(fmt, t, 0) + [0];
            var p := ParseValueAt(false, content, SkipWs(content, 0));
            Readable(content, p, 0) && SkipWs(content, p.end) == |content| - 1 && Denote(p.v) == t
  {
    hide ParseValueAt, RenderText, WellFormed, SkipWs, Denote, Syntax;
    SyntaxDenotes(t);
    RenderedTerminated(false, fmt, Syntax(t));
  }

  /** Printing a tree and parsing the buffer gives back the tree. */
  method PrintThenParse(item: Tree, buffer: array<Byte>, format: bool) returns (r: Option<Tree>)
    requires Clean(item) && Proper(item) && Levels(item) <= NESTING_LIMIT
    modifies buffer
    ensures r == if Numbers(item) && |TreeText(format, item, 0)| + 2 <= buffer.Length then Some(item) else None
  {
    hide TreeText, ParseValueAt, SkipWs, Denote, Proper, Numbers, Readable;
    var ok := PrintPreallocated(item, buffer, format);
    if !ok { return None; }
    ghost var text := TreeText(format, item, 0);
    PrintedIsReadable(format, item);
    TextNoZero(format, item, 0);
    var length := StringLength(buffer, text);
    var content := buffer[..length + 1];
    assert content == text + [0];
    r := ParseTerminated(content);
  }
}
