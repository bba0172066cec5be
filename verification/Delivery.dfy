/** Decoded strings at their destinations: top-level names, and the textual output. */
module Delivery {
  import opened Utf8
  import opened Grammar
  import opened Scan
  import opened ScanExact

  /** One well-formed scalar and nothing else. */
  predicate OneScalar(e: Bytes) {
    ScalarAt(e, 0) && Width(e[0]) == |e|
  }

  predicate Scalars(items: seq<Bytes>) {
    forall i :: 0 <= i < |items| ==> OneScalar(items[i])
  }

  lemma ScalarNul(e: Bytes)
    requires OneScalar(e)
    ensures 0 in e <==> e == [0]
  {
  }

  lemma CodeIsScalar(t: Bytes, i: nat)
    requires Escape(t, i).Code?
    ensures IsScalar(Escape(t, i).n)
  {
  }

  lemma ItemIsScalar(t: Bytes, i: nat)
    requires i < |t| && StringItem(true, t, i).Item?
    ensures OneScalar(StringItem(true, t, i).e)
  {
    hide Escape, Encode;
    var e := StringItem(true, t, i).e;
    if t[i] == BACKSLASH {
      CodeIsScalar(t, i);
      EncodeIsScalar(Escape(t, i).n);
    } else {
      assert forall j :: 0 <= j < |e| ==> e[j] == t[i + j];
    }
  }

  /** The elements of a strict string are scalars. */
  lemma {:induction false} BodyScalars(t: Bytes, i: nat)
    requires StringBody(true, t, i).Body?
    ensures Scalars(StringBody(true, t, i).items)
    decreases |t| - i
  {
    hide StringItem;
    if t[i] != QUOTE {
      var item := StringItem(true, t, i);
      ItemIsScalar(t, i);
      BodyScalars(t, item.next);
    }
  }

  // ---- Top-level names ----

  lemma {:induction false} KeyDelivered(g: Input, s: St, key: Bytes, items: seq<Bytes>)
    requires s.err == NoError && |key| <= MAX_KEY && Scalars(items)
    ensures var r := DeliverAll(g, s, RootKey(key), items);
            && (r.s.err == NoError <==> 0 !in Flat(items) && |key| + |Flat(items)| <= MAX_KEY)
            && (r.s.err == NoError ==> r == Sent(s, RootKey(key + Flat(items))))
    decreases |items|
  {
    if items == [] {
      assert key + Flat(items) == key;
    } else {
      var v := Deliver(g, s, RootKey(key), items[0]);
      assert OneScalar(items[0]);
      ScalarNul(items[0]);
      assert Flat(items) == items[0] + Flat(items[1..]);
      if v.s.err == NoError {
        assert v == Sent(s, RootKey(key + items[0]));
        KeyDelivered(g, s, key + items[0], items[1..]);
        assert key + items[0] + Flat(items[1..]) == key + Flat(items);
      }
    }
  }

  // ---- Textual output ----

  function TextRun(o: Output, limit: nat, items: seq<Bytes>): Output
    decreases |items|
  {
    if items == [] then o else TextRun(TextOutput(o, limit, items[0]), limit, items[1..])
  }

  lemma {:induction false} TextDelivered(g: Input, s: St, items: seq<Bytes>)
    requires s.err == NoError
    ensures DeliverAll(g, s, OutText, items) == Sent(s.(out := TextRun(s.out, g.limit, items)), OutText)
    decreases |items|
  {
    if items != [] {
      TextDelivered(g, s.(out := TextOutput(s.out, g.limit, items[0])), items[1..]);
    }
  }

  /** Once it is not complete, text is only counted; a NUL still invalidates it. */
  lemma {:induction false} TextRunStopped(o: Output, limit: nat, items: seq<Bytes>)
    requires o.state != Complete && Scalars(items)
    ensures var r := TextRun(o, limit, items);
            var o1 := o.(observed := o.observed + |Flat(items)|);
            r == if 0 in Flat(items) then DiscardOutput(o1, Invalid, InvalidData) else o1
    decreases |items|
  {
    if items != [] {
      var e := items[0];
      assert OneScalar(e);
      ScalarNul(e);
      assert Flat(items) == e + Flat(items[1..]);
      var o1 := TextOutput(o, limit, e);
      TextRunStopped(o1, limit, items[1..]);
    }
  }

  lemma {:induction false} FlatValid(items: seq<Bytes>)
    requires Scalars(items)
    ensures Valid(Flat(items))
    decreases |items|
  {
    if items != [] {
      FlatValid(items[1..]);
      var e := items[0];
      assert OneScalar(e);
      assert ValidFrom(e, |e|);
      ValidConcat(e, Flat(items[1..]));
    }
  }

  /** While text is complete, each scalar is kept if it still fits, and the first that does
      not ends the retained prefix. */
  lemma {:induction false} TextRunExact(o: Output, limit: nat, items: seq<Bytes>)
    requires o.state == Complete && o.value.Some? && Length(o) <= limit && Scalars(items)
    ensures var r := TextRun(o, limit, items);
            var val := Flat(items);
            var o1 := o.(observed := o.observed + |val|);
            r == if 0 in val then DiscardOutput(o1, Invalid, InvalidData)
                 else if Length(o) + |val| <= limit then o1.(value := Some(o.value.value + val))
                 else o1.(value := Some(o.value.value + Lsp(val, limit - Length(o))),
                          state := Truncated, reason := ByteLimit)
    decreases |items|
  {
    hide Lsp, LspEnd;
    if items == [] {
      assert o.value.value + [] == o.value.value;
    } else {
      var e := items[0];
      var rest := items[1..];
      assert OneScalar(e);
      ScalarNul(e);
      assert Flat(items) == e + Flat(rest);
      var o1 := TextOutput(o, limit, e);
      if o1.state == Complete {
        TextRunExact(o1, limit, rest);
        assert ValidFrom(e, |e|);
        LspConcat(e, Flat(rest), limit - Length(o));
        assert o.value.value + e + Flat(rest) == o.value.value + Flat(items);
        assert o.value.value + e + Lsp(Flat(rest), limit - Length(o1))
            == o.value.value + (e + Lsp(Flat(rest), limit - Length(o1)));
      } else {
        TextRunStopped(o1, limit, rest);
        if e != [0] {
          LspStops(e, Flat(rest), limit - Length(o));
          assert o.value.value + [] == o.value.value;
        }
      }
    }
  }

  /** A first scalar that does not fit leaves nothing. */
  lemma LspStops(e: Bytes, rest: Bytes, n: nat)
    requires OneScalar(e) && n < |e|
    ensures Lsp(e + rest, n) == []
  {
    assert (e + rest)[0] == e[0];
  }

  /** The textual output a receiver with `limit` reports for the text `val`. */
  function ReceivedText(limit: nat, val: Bytes): Output {
    if 0 in val then Output(None, |val|, Invalid, TextFormat, InvalidData, true)
    else if |val| <= limit then Output(Some(val), |val|, Complete, TextFormat, NoReason, true)
    else Output(Some(Lsp(val, limit)), |val|, Truncated, TextFormat, ByteLimit, true)
  }

  lemma TextReceived(limit: nat, items: seq<Bytes>)
    requires Scalars(items)
    ensures TextRun(Output(Some([]), 0, Complete, TextFormat, NoReason, true), limit, items)
         == ReceivedText(limit, Flat(items))
  {
    hide TextRun, Lsp, Flat;
    TextRunExact(Output(Some([]), 0, Complete, TextFormat, NoReason, true), limit, items);
    assert [] + Flat(items) == Flat(items);
    assert [] + Lsp(Flat(items), limit) == Lsp(Flat(items), limit);
  }
}
