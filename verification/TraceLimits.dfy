/** What a trace does to each capture, in closed form: when it meets a limit, and what
    it leaves. */
module TraceLimits {
  import opened Order
  import opened Utf8
  import opened Grammar
  import opened Scan
  import opened ScanExact
  import opened ValueExact

  // ---- Statistics of a trace ----

  function Entries(evs: seq<Event>): nat {
    if evs == [] then 0 else (if evs[0].Node? then 1 else 0) + Entries(evs[1..])
  }

  function Emitted(evs: seq<Event>): Bytes {
    if evs == [] then [] else (if evs[0].Out? then [evs[0].b] else []) + Emitted(evs[1..])
  }

  function Deepest(evs: seq<Event>): nat {
    if evs == [] then 0 else Max(if evs[0].Node? then evs[0].depth else 0, Deepest(evs[1..]))
  }

  lemma {:induction false} StatsConcat(a: seq<Event>, b: seq<Event>)
    ensures Entries(a + b) == Entries(a) + Entries(b)
    ensures Emitted(a + b) == Emitted(a) + Emitted(b)
    ensures Deepest(a + b) == Max(Deepest(a), Deepest(b))
    decreases |a|
  {
    if a == [] {
      assert a + b == b;
    } else {
      assert (a + b)[1..] == a[1..] + b;
      StatsConcat(a[1..], b);
    }
  }

  lemma {:induction false} StatsOuts(bs: Bytes)
    ensures Entries(Outs(bs)) == 0 && Emitted(Outs(bs)) == bs && Deepest(Outs(bs)) == 0
    decreases |bs|
  {
    if bs != [] {
      assert Outs(bs)[1..] == Outs(bs[1..]);
      StatsOuts(bs[1..]);
      assert bs == [bs[0]] + bs[1..];
    }
  }

  lemma StatsOne(ev: Event)
    ensures Entries([ev]) == if ev.Node? then 1 else 0
    ensures Emitted([ev]) == if ev.Out? then [ev.b] else []
    ensures Deepest([ev]) == if ev.Node? then ev.depth else 0
  {
    assert [ev][1..] == [];
  }

  /** A value's trace enters each of its values once, emits its text, and goes as deep as
      the value is high. */
  lemma {:induction false} TraceStats(v: Json, depth: nat)
    requires 1 <= depth
    ensures Entries(Trace(v, depth)) == Nodes(v)
    ensures Emitted(Trace(v, depth)) == Text(v)
    ensures Deepest(Trace(v, depth)) == depth - 1 + Height(v)
    decreases v, 1
  {
    hide Entries, Emitted, Deepest, Outs;
    StatsOne(Node(depth));
    StatsConcat([Node(depth)], TraceTail(v, depth));
    if v.Comp? {
      var kids := KidsTrace(v.obj, v.kids, depth + 1);
      KidsStats(v.obj, v.kids, depth + 1);
      StatsOne(Out(Open(v.obj)));
      StatsOne(Out(Close(v.obj)));
      StatsConcat(kids, [Out(Close(v.obj))]);
      StatsConcat([Out(Open(v.obj))], kids + [Out(Close(v.obj))]);
      assert Text(v) == [Open(v.obj)] + (KidsText(v.obj, v.kids) + [Close(v.obj)]);
    } else {
      StatsOuts(Text(v));
    }
  }

  lemma {:induction false} KidsStats(obj: bool, kids: Kids, depth: nat)
    requires 1 <= depth
    ensures Entries(KidsTrace(obj, kids, depth)) == KidsNodes(kids)
    ensures Emitted(KidsTrace(obj, kids, depth)) == KidsText(obj, kids)
    ensures Deepest(KidsTrace(obj, kids, depth)) == if kids.KNil? then 0 else depth - 1 + KidsHeight(kids)
    decreases kids, 0
  {
    hide Outs, Trace, Text, Nodes, Height, KeyText;
    if kids.KCons? {
      var a := Outs(KeyText(obj, kids.key));
      var b := Trace(kids.val, depth);
      var rest := KidsTrace(obj, kids.next, depth);
      StatsOuts(KeyText(obj, kids.key));
      TraceStats(kids.val, depth);
      KidsStats(obj, kids.next, depth);
      StatsConcat(a, b);
      StatsOne(Out(COMMA));
      StatsConcat([Out(COMMA)], rest);
      StatsConcat(a + b, MoreTrace(obj, kids.next, depth));
    }
  }

  // ---- Nothing captured ----

  /** The counters every reachable state respects. */
  predicate InLimits(s: St) {
    s.values <= MAX_VALUES && s.coreValues <= CORE_MAX_VALUES && |s.core| <= CORE_MAX_BYTES
  }

  lemma {:induction false} RunDiscarded(g: Input, s: St, evs: seq<Event>)
    requires s.err == NoError && s.capture == Discard && InLimits(s)
    ensures var r := Run(g, s, evs);
            && (r.err == NoError <==> Deepest(evs) <= MAX_DEPTH && s.values + Entries(evs) <= MAX_VALUES)
            && (r.err == NoError ==> r == s.(values := s.values + Entries(evs),
                                             maxDepth := Max(s.maxDepth, Deepest(evs))))
    decreases |evs|
  {
    if evs != [] {
      var s1 := Step(g, s, evs[0]);
      if s1.err == NoError { RunDiscarded(g, s1, evs[1..]); }
    }
  }

  lemma MaxAssoc(a: nat, b: nat, c: nat)
    ensures Max(Max(a, b), c) == Max(a, Max(b, c))
    ensures Max(a, 0) == a && Max(0, a) == a
    ensures Max(b, c) <= MAX_DEPTH <==> b <= MAX_DEPTH && c <= MAX_DEPTH
  {
  }

  // ---- The core ----

  lemma {:induction false} RunCore(g: Input, s: St, evs: seq<Event>)
    requires s.err == NoError && s.capture == Core && InLimits(s)
    ensures var r := Run(g, s, evs);
            && (r.err == NoError <==>
                  && Deepest(evs) <= MAX_DEPTH
                  && s.values + Entries(evs) <= MAX_VALUES
                  && s.coreValues + Entries(evs) <= CORE_MAX_VALUES
                  && |s.core| + |Emitted(evs)| <= CORE_MAX_BYTES)
            && (r.err == NoError ==> r == s.(core := s.core + Emitted(evs),
                                             values := s.values + Entries(evs),
                                             coreValues := s.coreValues + Entries(evs),
                                             maxDepth := Max(s.maxDepth, Deepest(evs))))
    decreases |evs|
  {
    hide Max;
    if evs != [] {
      MaxAssoc(s.maxDepth, if evs[0].Node? then evs[0].depth else 0, Deepest(evs[1..]));
      var s1 := Step(g, s, evs[0]);
      if s1.err == NoError {
        RunCore(g, s1, evs[1..]);
        if evs[0].Out? {
          assert s.core + ([evs[0].b] + Emitted(evs[1..])) == s.core + [evs[0].b] + Emitted(evs[1..]);
        } else {
          assert [] + Emitted(evs[1..]) == Emitted(evs[1..]);
        }
      }
    } else {
      MaxAssoc(s.maxDepth, 0, 0);
      assert s.core + [] == s.core;
    }
  }

  // ---- JSON output ----

  /** One event on the output record alone, with `n` values entered so far. */
  function OutputStep(o: Output, limit: nat, n: nat, ev: Event): Output {
    match ev
    case Out(b) => EmitOutput(o, limit, b)
    case Node(_) =>
      if n + 1 > CORE_MAX_VALUES && o.state == Complete then DiscardOutput(o, Discarded, NodeLimit) else o
  }

  function OutputRun(o: Output, limit: nat, n: nat, evs: seq<Event>): Output
    decreases |evs|
  {
    if evs == [] then o
    else OutputRun(OutputStep(o, limit, n, evs[0]), limit, if evs[0].Node? then n + 1 else n, evs[1..])
  }

  lemma {:induction false} RunOutput(g: Input, s: St, evs: seq<Event>)
    requires s.err == NoError && s.capture == OutputJson && InLimits(s)
    ensures var r := Run(g, s, evs);
            && (r.err == NoError <==> Deepest(evs) <= MAX_DEPTH && s.values + Entries(evs) <= MAX_VALUES)
            && (r.err == NoError ==> r == s.(values := s.values + Entries(evs),
                                             outputValues := s.outputValues + Entries(evs),
                                             maxDepth := Max(s.maxDepth, Deepest(evs)),
                                             out := OutputRun(s.out, g.limit, s.outputValues, evs)))
    decreases |evs|
  {
    if evs != [] {
      var s1 := Step(g, s, evs[0]);
      if s1.err == NoError { RunOutput(g, s1, evs[1..]); }
    }
  }

  /** Once it is not complete, the output only goes on counting. */
  lemma {:induction false} OutputRunStopped(o: Output, limit: nat, n: nat, evs: seq<Event>)
    requires o.state != Complete
    ensures OutputRun(o, limit, n, evs) == o.(observed := o.observed + |Emitted(evs)|)
    decreases |evs|
  {
    if evs != [] {
      OutputRunStopped(OutputStep(o, limit, n, evs[0]), limit, if evs[0].Node? then n + 1 else n, evs[1..]);
    }
  }

  /** What became of complete output `o` after events that emit `bytes` and enter `entries`
      values, with `n` entered before. */
  predicate RunOf(o: Output, limit: nat, n: nat, bytes: Bytes, entries: nat, r: Output)
    requires o.value.Some?
  {
    var fits := Length(o) + |bytes| <= limit;
    var nodes := n + entries <= CORE_MAX_VALUES;
    && r.observed == o.observed + |bytes|
    && r.format == o.format && r.observedComplete == o.observedComplete
    && (fits && nodes ==> r == o.(value := Some(o.value.value + bytes), observed := r.observed))
    && (!(fits && nodes) ==>
          && r.state == Discarded && r.value == None
          && (r.reason == ByteLimit || r.reason == NodeLimit)
          && (nodes ==> r.reason == ByteLimit) && (fits ==> r.reason == NodeLimit))
  }

  lemma RunOfOut(o: Output, limit: nat, n: nat, b: Byte, bytes: Bytes, entries: nat, r: Output)
    requires o.state == Complete && o.value.Some? && Length(o) <= limit && n <= CORE_MAX_VALUES
    requires var o1 := EmitOutput(o, limit, b);
             if o1.state == Complete then o1.value.Some? && RunOf(o1, limit, n, bytes, entries, r)
             else r == o1.(observed := o1.observed + |bytes|)
    ensures RunOf(o, limit, n, [b] + bytes, entries, r)
  {
    assert o.value.value + ([b] + bytes) == o.value.value + [b] + bytes;
  }

  lemma RunOfNode(o: Output, limit: nat, n: nat, bytes: Bytes, entries: nat, r: Output)
    requires o.state == Complete && o.value.Some? && Length(o) <= limit && n <= CORE_MAX_VALUES
    requires if n + 1 <= CORE_MAX_VALUES then RunOf(o, limit, n + 1, bytes, entries, r)
             else r == DiscardOutput(o, Discarded, NodeLimit).(observed := o.observed + |bytes|)
    ensures RunOf(o, limit, n, bytes, 1 + entries, r)
  {
  }

  /** Complete output stays complete exactly when all its bytes and all its values fit;
      otherwise nothing of it is kept, and a limit it exceeds is the reason. The bytes are
      counted either way. */
  lemma {:induction false} OutputRunExact(o: Output, limit: nat, n: nat, evs: seq<Event>)
    requires o.state == Complete && o.value.Some? && Length(o) <= limit && n <= CORE_MAX_VALUES
    ensures RunOf(o, limit, n, Emitted(evs), Entries(evs), OutputRun(o, limit, n, evs))
    decreases |evs|
  {
    hide RunOf;
    if evs == [] {
      NothingRun(o, limit, n);
    } else {
      var o1 := OutputStep(o, limit, n, evs[0]);
      var n1 := if evs[0].Node? then n + 1 else n;
      var r := OutputRun(o, limit, n, evs);
      if o1.state == Complete { OutputRunExact(o1, limit, n1, evs[1..]); }
      else { OutputRunStopped(o1, limit, n1, evs[1..]); }
      if evs[0].Out? { RunOfOut(o, limit, n, evs[0].b, Emitted(evs[1..]), Entries(evs[1..]), r); }
      else {
        assert [] + Emitted(evs[1..]) == Emitted(evs[1..]);
        RunOfNode(o, limit, n, Emitted(evs[1..]), Entries(evs[1..]), r);
      }
    }
  }

  lemma NothingRun(o: Output, limit: nat, n: nat)
    requires o.value.Some? && Length(o) <= limit && n <= CORE_MAX_VALUES
    ensures RunOf(o, limit, n, [], 0, o)
  {
    assert o.value.value + [] == o.value.value;
  }
}
