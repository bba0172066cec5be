/** The size-limited log file: what is written through it, in pieces cut anywhere, over any
    number of sessions and with a sink that may fail at any point. */
module BoundedLog {
  import opened Order
  import opened Utf8
  import Grammar

  // A newline, "[iperf log truncated]" and a newline.
  const MARKER: Bytes :=
    [10, 91, 105, 112, 101, 114, 102, 32, 108, 111, 103, 32, 116, 114, 117, 110, 99, 97, 116, 101, 100, 93, 10]
  const MARKER_SIZE: nat := 23
  const TAIL_SIZE: nat := MARKER_SIZE + 3

  lemma MarkerIs(i: nat)
    ensures |MARKER| == MARKER_SIZE == |"\n[iperf log truncated]\n"|
    ensures i < MARKER_SIZE ==> MARKER[i] == "\n[iperf log truncated]\n"[i] as int
  {
  }

  // ---- Cutting backwards ----

  /** The last position at or before `i` that does not continue a scalar, or 0. */
  function LeadBefore(w: Bytes, i: nat): (s: nat)
    requires i < |w|
    ensures s <= i
    ensures forall k :: s < k <= i ==> Cont(w[k])
    ensures s == 0 || !Cont(w[s])
  {
    if i > 0 && Cont(w[i]) then LeadBefore(w, i - 1) else i
  }

  /** The bytes of `w` before an incomplete final scalar. */
  function WholeScalars(w: Bytes): (n: nat)
    ensures n <= |w|
  {
    if w == [] then 0
    else
      var s := LeadBefore(w, |w| - 1);
      if |w| - s < Width(w[s]) then s else |w|
  }

  function Window(n: nat): nat { if n < 3 then n else 3 }

  /** Where the log cuts a stream for its first `n` bytes, looking at the last three only. */
  function Cut(t: Bytes, n: nat): (e: nat)
    requires n <= |t|
    ensures n <= e + 3 && e <= n
  {
    n - Window(n) + WholeScalars(t[n - Window(n)..n])
  }

  /** The scalar that ends at a boundary. */
  lemma {:induction false} LastScalar(t: Bytes, i: nat, n: nat) returns (s: nat)
    requires Boundary(t, i, n) && i < n <= |t|
    ensures i <= s && ScalarAt(t, s) && s + Width(t[s]) == n
    decreases n - i
  {
    var j := i + Width(t[i]);
    if j == n { return i; }
    BoundaryLe(t, j, n);
    s := LastScalar(t, j, n);
  }

  /** Three bytes are enough to cut a valid stream where its longest prefix ends. */
  lemma CutIsLsp(t: Bytes, n: nat)
    requires Valid(t) && n <= |t|
    ensures Cut(t, n) == LspEnd(t, 0, n)
  {
    hide SecondOk;
    var e := LspEnd(t, 0, n);
    var m := Window(n);
    var w := t[n - m..n];
    LspEndIsBoundary(t, 0, n);
    if n == 0 { return; }
    if e == n {
      var s := LastScalar(t, 0, n);
      ScalarInWindow(t, s, n);
    } else {
      BoundaryKeepsValid(t, 0, e);
      if e + Width(t[e]) <= n { BoundaryTrans(t, 0, e, e + Width(t[e])); }
      StopsBefore(t, e, n);
    }
  }

  lemma {:induction false} LeadIs(w: Bytes, i: nat, s: nat)
    requires s <= i < |w| && (forall k :: s < k <= i ==> Cont(w[k])) && (s == 0 || !Cont(w[s]))
    ensures LeadBefore(w, i) == s
  {
    if s < i { LeadIs(w, i - 1, s); }
  }

  lemma ContsOf(t: Bytes, s: nat, k: nat)
    requires ScalarAt(t, s) && s < k < s + Width(t[s])
    ensures Cont(t[k]) && !Cont(t[s])
  {
  }

  lemma WidthBounds(t: Bytes, s: nat)
    requires ScalarAt(t, s)
    ensures 1 <= Width(t[s]) <= 4 && !Cont(t[s])
  {
  }

  /** In the window before `n`, the scalar at `s` that reaches up to `n` or beyond is where
      the backward scan stops, or covers all of the window. */
  lemma WindowLead(t: Bytes, s: nat, n: nat)
    requires ScalarAt(t, s) && s < n <= |t| && n <= s + Width(t[s])
    ensures var m := Window(n);
            var w, lead := t[n - m..n], if s >= n - m then s - (n - m) else 0;
            && lead < m && LeadBefore(w, m - 1) == lead
            && (if s >= n - m then w[lead] == t[s] else lead == 0 && Cont(w[0]))
  {
    hide SecondOk, ScalarAt, LeadBefore;
    var m := Window(n);
    var w := t[n - m..n];
    WidthBounds(t, s);
    var lead := if s >= n - m then s - (n - m) else 0;
    forall k | lead < k <= m - 1 ensures Cont(w[k]) { ContsOf(t, s, n - m + k); }
    if s < n - m { ContsOf(t, s, n - m); }
    LeadIs(w, m - 1, lead);
  }

  /** The cut of a window whose backward scan stops at `lead`. */
  lemma CutAtLead(t: Bytes, n: nat, lead: nat)
    requires 0 < n <= |t| && lead < Window(n) && LeadBefore(t[n - Window(n)..n], Window(n) - 1) == lead
    ensures Cut(t, n) == if Window(n) - lead < Width(t[n - Window(n) + lead]) then n - Window(n) + lead else n
  {
    hide LeadBefore, Width;
  }

  lemma ScalarInWindow(t: Bytes, s: nat, n: nat)
    requires n <= |t| && ScalarAt(t, s) && s + Width(t[s]) == n
    ensures Cut(t, n) == n
  {
    hide SecondOk, ScalarAt, LeadBefore, Cut;
    WidthBounds(t, s);
    WindowLead(t, s, n);
    CutAtLead(t, n, if s >= n - Window(n) then s - (n - Window(n)) else 0);
  }

  lemma StopsBefore(t: Bytes, e: nat, n: nat)
    requires n <= |t| && e < n && ScalarAt(t, e) && e + Width(t[e]) > n
    ensures Cut(t, n) == e
  {
    hide SecondOk, ScalarAt, LeadBefore, Cut;
    WidthBounds(t, e);
    WindowLead(t, e, n);
    CutAtLead(t, n, e - (n - Window(n)));
  }

  // ---- What a session adds to the file ----

  predicate Overflows(capacity: nat, t: Bytes) {
    if capacity < MARKER_SIZE then t != [] else |t| > capacity
  }

  /** What a session with that room leaves behind after the stream `t`. */
  function Final(capacity: nat, t: Bytes): (r: Bytes)
    ensures |r| <= capacity
  {
    if capacity < MARKER_SIZE then []
    else if |t| <= capacity then t
    else t[..Cut(t, capacity - MARKER_SIZE)] + MARKER
  }

  /** A valid stream that does not fit leaves its longest prefix and one marker. */
  lemma FinalIsLsp(capacity: nat, t: Bytes)
    requires Valid(t) && MARKER_SIZE <= capacity < |t|
    ensures Final(capacity, t) == Lsp(t, capacity - MARKER_SIZE) + MARKER
  {
    CutIsLsp(t, capacity - MARKER_SIZE);
  }

  lemma CutExtends(t: Bytes, x: Bytes, n: nat)
    requires n <= |t|
    ensures Cut(t + x, n) == Cut(t, n)
  {
    assert (t + x)[n - Window(n)..n] == t[n - Window(n)..n];
  }

  lemma FinalIsFinal(capacity: nat, t: Bytes, x: Bytes)
    requires Overflows(capacity, t)
    ensures Final(capacity, t + x) == Final(capacity, t) && Overflows(capacity, t + x)
  {
    hide Cut;
    if MARKER_SIZE <= capacity {
      var n := capacity - MARKER_SIZE;
      CutExtends(t, x, n);
      assert (t + x)[..Cut(t, n)] == t[..Cut(t, n)];
    }
  }

  lemma FinalWhole(capacity: nat, t: Bytes)
    requires !Overflows(capacity, t)
    ensures Final(capacity, t) == t
  {
  }

  // ---- What a session hands to the file ----

  /** The bytes the log holds back of a stream. */
  function Tail(t: Bytes): (r: Bytes)
    ensures |r| == Min(|t|, TAIL_SIZE)
  {
    t[|t| - Min(|t|, TAIL_SIZE)..]
  }

  /** How many bytes a piece pushes out of the tail. */
  function Excess(held: nat, piece: nat): (n: nat)
    ensures n <= held + piece
  {
    if held + piece > TAIL_SIZE then held + piece - TAIL_SIZE else 0
  }

  /** The two writes that pass them on. */
  function Flushed(held: Bytes, p: Bytes): seq<Bytes> {
    var flush := Excess(|held|, |p|);
    var out := Min(flush, |held|);
    [held[..out], p[..flush - out]]
  }

  /** The two writes that end a log whose room the stream `t` fills. */
  function Ending(held: Bytes): seq<Bytes>
    requires MARKER_SIZE <= |held|
  {
    [held[..WholeScalars(held[..|held| - MARKER_SIZE])], MARKER]
  }

  /** The writes for one more piece after the stream `t`. */
  function PieceCalls(capacity: nat, t: Bytes, p: Bytes): seq<Bytes>
    requires MARKER_SIZE <= capacity && |t| <= capacity
  {
    var keep := Min(|p|, capacity - |t|);
    Flushed(Tail(t), p[..keep]) + if keep < |p| then Ending(Tail(t + p[..keep])) else []
  }

  /** The writes for all pieces of a session; an empty write is none. */
  function Calls(capacity: nat, pieces: seq<Bytes>): seq<Bytes> {
    if capacity < MARKER_SIZE || pieces == [] then []
    else
      var front, p := pieces[..|pieces| - 1], pieces[|pieces| - 1];
      var t := Grammar.Flat(front);
      Calls(capacity, front) + if |t| > capacity then [] else PieceCalls(capacity, t, p)
  }

  /** The write at the end: what was held back. */
  function Closing(capacity: nat, t: Bytes): seq<Bytes> {
    if Overflows(capacity, t) then [] else [Tail(t)]
  }

  function AllCalls(capacity: nat, pieces: seq<Bytes>): seq<Bytes> {
    Calls(capacity, pieces) + Closing(capacity, Grammar.Flat(pieces))
  }

  lemma {:induction false} FlatConcat(a: seq<Bytes>, b: seq<Bytes>)
    ensures Grammar.Flat(a + b) == Grammar.Flat(a) + Grammar.Flat(b)
  {
    if a == [] {
      assert a + b == b;
    } else {
      assert (a + b)[1..] == a[1..] + b;
      FlatConcat(a[1..], b);
    }
  }

  lemma FlatTwo(a: Bytes, b: Bytes)
    ensures Grammar.Flat([a, b]) == a + b
  {
    assert [a, b][1..] == [b] && [b][1..] == [];
    assert Grammar.Flat([b]) == b + [];
  }

  lemma OneCall(b: Bytes)
    ensures Grammar.Flat([b]) == b
  {
    assert [b][1..] == [] && b + [] == b;
  }

  lemma FlatSnoc(pieces: seq<Bytes>, p: Bytes)
    ensures Grammar.Flat(pieces + [p]) == Grammar.Flat(pieces) + p
  {
    FlatConcat(pieces, [p]);
    OneCall(p);
  }

  /** What is passed on and what is then held back is what there was. */
  lemma FlushedParts(held: Bytes, p: Bytes)
    ensures Grammar.Flat(Flushed(held, p)) == (held + p)[..Excess(|held|, |p|)]
  {
    var flush := Excess(|held|, |p|);
    var out := Min(flush, |held|);
    FlatTwo(held[..out], p[..flush - out]);
    assert held[..out] + p[..flush - out] == (held + p)[..flush];
  }

  /** The tail after one more piece. */
  lemma TailMore(t: Bytes, p: Bytes)
    ensures var n := Excess(|Tail(t)|, |p|);
            && Tail(t + p) == (Tail(t) + p)[n..]
            && t[..|t| - |Tail(t)|] + (Tail(t) + p)[..n] == (t + p)[..|t + p| - |Tail(t + p)|]
  {
    var front, n := t[..|t| - |Tail(t)|], Excess(|Tail(t)|, |p|);
    assert t == front + Tail(t);
    assert t + p == front + (Tail(t) + p);
    assert |t + p| - |Tail(t + p)| == |front| + n;
  }

  /** The bytes held back before the marker's room are those the cut looks at. */
  lemma EndingCuts(capacity: nat, t: Bytes, rest: Bytes)
    requires MARKER_SIZE <= capacity == |t| && rest != []
    ensures t[..|t| - |Tail(t)|] + Grammar.Flat(Ending(Tail(t))) == Final(capacity, t + rest)
  {
    hide WholeScalars, Cut;
    var n := capacity - MARKER_SIZE;
    var m := Window(n);
    var all, held, front := t + rest, Tail(t), t[..|t| - |Tail(t)|];
    assert |front| == n - m && |held| - MARKER_SIZE == m;
    var window := held[..m];
    HeldWindow(t, rest, n - m, m);
    var k := WholeScalars(window);
    CutIsScalars(all, n, k);
    FlatTwo(held[..k], MARKER);
    FrontParts(t, rest, n - m, k);
    assert front + (held[..k] + MARKER) == front + held[..k] + MARKER;
  }

  lemma HeldWindow(t: Bytes, rest: Bytes, a: nat, m: nat)
    requires a + m <= |t|
    ensures t[a..][..m] == (t + rest)[a..a + m]
  {
  }

  lemma FrontParts(t: Bytes, rest: Bytes, a: nat, k: nat)
    requires a + k <= |t|
    ensures t[..a] + t[a..][..k] == (t + rest)[..a + k]
  {
  }

  lemma CutIsScalars(t: Bytes, n: nat, k: nat)
    requires n <= |t| && k == WholeScalars(t[n - Window(n)..n])
    ensures Cut(t, n) == n - Window(n) + k
  {
  }

  /** One more piece: while all fits everything but the tail is handed on, and the piece that
      does not fit completes the final content. */
  lemma PieceHands(capacity: nat, t: Bytes, p: Bytes)
    requires MARKER_SIZE <= capacity && |t| <= capacity
    ensures var done := t[..|t| - |Tail(t)|] + Grammar.Flat(PieceCalls(capacity, t, p));
            done == if |t + p| <= capacity then (t + p)[..|t + p| - |Tail(t + p)|] else Final(capacity, t + p)
  {
    hide Ending, Flushed, Tail, Final;
    var keep := Min(|p|, capacity - |t|);
    var part, rest := p[..keep], p[keep..];
    var front := t[..|t| - |Tail(t)|];
    FlushedParts(Tail(t), part);
    TailMore(t, part);
    var flushed := Grammar.Flat(Flushed(Tail(t), part));
    if keep < |p| {
      assert t + p == (t + part) + rest;
      FlatConcat(Flushed(Tail(t), part), Ending(Tail(t + part)));
      EndingCuts(capacity, t + part, rest);
      Assoc(front, flushed, Grammar.Flat(Ending(Tail(t + part))));
    } else {
      assert part == p;
      assert Flushed(Tail(t), part) + [] == Flushed(Tail(t), part);
    }
  }

  lemma Assoc(a: Bytes, b: Bytes, c: Bytes)
    ensures a + (b + c) == (a + b) + c
  {
  }

  /** Wherever a stream is cut into pieces: what was handed to the file is all of it but the
      tail, or its final content. */
  lemma {:induction false} CallsHand(capacity: nat, pieces: seq<Bytes>)
    requires MARKER_SIZE <= capacity
    ensures var t := Grammar.Flat(pieces);
            Grammar.Flat(Calls(capacity, pieces))
            == if |t| <= capacity then t[..|t| - |Tail(t)|] else Final(capacity, t)
  {
    hide Tail, Final, PieceCalls, Grammar.Flat;
    if pieces == [] {
      NothingHeld();
    } else {
      var front, p := pieces[..|pieces| - 1], pieces[|pieces| - 1];
      var t := Grammar.Flat(front);
      CallsHand(capacity, front);
      assert pieces == front + [p];
      FlatSnoc(front, p);
      if |t| > capacity {
        FinalIsFinal(capacity, t, p);
        assert Calls(capacity, front) + [] == Calls(capacity, front);
      } else {
        FlatConcat(Calls(capacity, front), PieceCalls(capacity, t, p));
        PieceHands(capacity, t, p);
      }
    }
  }

  lemma NothingHeld()
    ensures Tail([]) == [] && Grammar.Flat([]) == []
  {
  }

  /** A whole session hands its final content to the file, however it is cut into pieces. */
  lemma AllCallsHand(capacity: nat, pieces: seq<Bytes>)
    ensures Grammar.Flat(AllCalls(capacity, pieces)) == Final(capacity, Grammar.Flat(pieces))
  {
    hide Calls, Tail, Cut;
    var t := Grammar.Flat(pieces);
    FlatConcat(Calls(capacity, pieces), Closing(capacity, t));
    if capacity < MARKER_SIZE {
      NoCalls(capacity, pieces);
      NothingHeld();
      if t == [] { OneCall([]); }
    } else {
      CallsHand(capacity, pieces);
      if |t| <= capacity {
        OneCall(Tail(t));
        FrontAndTail(t);
      }
    }
  }

  lemma NoCalls(capacity: nat, pieces: seq<Bytes>)
    requires capacity < MARKER_SIZE
    ensures Calls(capacity, pieces) == []
  {
  }

  lemma FrontAndTail(t: Bytes)
    ensures t[..|t| - |Tail(t)|] + Tail(t) == t
  {
  }

  /** At any time the file was handed the front of what it will have been handed in the end. */
  lemma {:induction false} CallsGrow(capacity: nat, pieces: seq<Bytes>, k: nat)
    requires k <= |pieces|
    ensures Grammar.Flat(Calls(capacity, pieces[..k])) <= Final(capacity, Grammar.Flat(pieces))
  {
    hide Calls, Final, Closing;
    CallsFront(capacity, pieces, k);
    AllCallsHand(capacity, pieces);
    var a, b := Calls(capacity, pieces[..k]), Calls(capacity, pieces)[|Calls(capacity, pieces[..k])|..];
    assert AllCalls(capacity, pieces) == a + (b + Closing(capacity, Grammar.Flat(pieces)));
    FlatConcat(a, b + Closing(capacity, Grammar.Flat(pieces)));
  }

  lemma {:induction false} CallsFront(capacity: nat, pieces: seq<Bytes>, k: nat)
    requires k <= |pieces|
    ensures Calls(capacity, pieces[..k]) <= Calls(capacity, pieces)
  {
    hide PieceCalls;
    if k == |pieces| {
      assert pieces[..k] == pieces;
    } else {
      CallsFront(capacity, pieces[..|pieces| - 1], k);
      assert pieces[..|pieces| - 1][..k] == pieces[..k];
    }
  }

  /** What is passed on and what is kept, as parts of the tail and the piece. */
  lemma FlushedIs(held: Bytes, p: Bytes, flush: nat, out: nat)
    requires flush == Excess(|held|, |p|) && out == Min(flush, |held|)
    ensures Flushed(held, p) == [held[..out], p[..flush - out]]
    ensures (held + p)[flush..] == held[out..] + p[flush - out..]
    ensures |held| - out + |p| - (flush - out) <= TAIL_SIZE
  {
    DropParts(held, p, out, flush - out);
  }

  lemma DropParts(a: Bytes, b: Bytes, i: nat, j: nat)
    requires i <= |a| && j <= |b| && (i == |a| || j == 0)
    ensures (a + b)[i + j..] == a[i..] + b[j..]
  {
    if j == 0 {
      assert b[0..] == b && (a + b)[i..] == a[i..] + b;
    } else {
      assert a[i..] == [] && (a + b)[|a| + j..] == b[j..];
    }
  }

  // ---- Errors ----

  const EIO: int := 5
  const ENOMEM: int := 12
  const EINVAL: int := 22
  const EFBIG: int := 27

  /** Errors are remembered once, and always as something. */
  function Remembered(slot: int, error: int): (e: int)
    ensures e != 0 && (slot != 0 ==> e == slot)
    ensures slot == 0 ==> if error != 0 then e == error else e == 5
  {
    if slot != 0 then slot else if error != 0 then error else EIO
  }

  // ---- What the file makes of it ----

  /** How a write fares: the most it writes, and what it reports. */
  datatype Reply = Reply(most: nat, failed: bool, errno: int)

  /** A file, how its next writes fare (further ones succeed), and the error of the write that
      failed, or 0. */
  datatype Sink = Sink(content: Bytes, replies: seq<Reply>, error: int)

  /** One write: nothing once one has failed, or if it is empty. It fails when it falls short
      or is reported as failed. */
  function Take(s: Sink, call: Bytes): Sink {
    if s.error != 0 || call == [] then s
    else if s.replies == [] then s.(content := s.content + call)
    else
      var k := Min(s.replies[0].most, |call|);
      var error := if k < |call| || s.replies[0].failed then Remembered(0, s.replies[0].errno) else 0;
      Sink(s.content + call[..k], s.replies[1..], error)
  }

  function TakeAll(s: Sink, calls: seq<Bytes>): Sink
    decreases |calls|
  {
    if calls == [] then s else TakeAll(Take(s, calls[0]), calls[1..])
  }

  lemma {:induction false} TakeMore(s: Sink, a: seq<Bytes>, b: seq<Bytes>)
    ensures TakeAll(s, a + b) == TakeAll(TakeAll(s, a), b)
    decreases |a|
  {
    hide Take;
    if a == [] {
      assert a + b == b;
    } else {
      assert (a + b)[1..] == a[1..] + b;
      TakeMore(Take(s, a[0]), a[1..], b);
    }
  }

  lemma TakeTwo(s: Sink, a: Bytes, b: Bytes)
    ensures TakeAll(s, [a, b]) == Take(Take(s, a), b) && TakeAll(s, [a]) == Take(s, a)
  {
    hide Take;
    assert [a, b][1..] == [b] && [b][1..] == [] && [a][1..] == [];
    assert TakeAll(Take(s, a), [b]) == TakeAll(Take(Take(s, a), b), []);
  }

  /** The error is what the last reply that was used reports, or 5 if that is nothing; no
      reply before it failed, and none is used after it. */
  lemma {:induction false} ErrorIsOfLast(s: Sink, calls: seq<Bytes>)
    requires s.error == 0
    ensures var r := TakeAll(s, calls);
            var used := |s.replies| - |r.replies|;
            && 0 <= used && r.replies == s.replies[used..]
            && (forall i :: 0 <= i < used && s.replies[i].failed ==> i == used - 1 && r.error != 0)
            && (r.error != 0 ==> 0 < used && r.error == (var e := s.replies[used - 1].errno; if e != 0 then e else 5))
    decreases |calls|
  {
    if calls != [] {
      var s1 := Take(s, calls[0]);
      if s1.error != 0 { TakesNothing(s1, calls[1..]); } else { ErrorIsOfLast(s1, calls[1..]); }
    }
  }

  lemma {:induction false} TakesNothing(s: Sink, calls: seq<Bytes>)
    requires s.error != 0
    ensures TakeAll(s, calls) == s
    decreases |calls|
  {
    if calls != [] { TakesNothing(s, calls[1..]); }
  }

  /** The file grows by a front of what it was handed, and by all of it if no write fails. */
  lemma {:induction false} TakesFront(s: Sink, calls: seq<Bytes>)
    ensures var r := TakeAll(s, calls);
            && s.content <= r.content <= s.content + Grammar.Flat(calls)
            && (r.error == 0 ==> r.content == s.content + Grammar.Flat(calls))
            && (s.error != 0 ==> r.error != 0)
    decreases |calls|
  {
    if calls == [] {
      assert s.content + [] == s.content;
    } else if s.error != 0 {
      TakesNothing(s, calls);
    } else {
      var s1 := Take(s, calls[0]);
      TakesFront(s1, calls[1..]);
      Assoc(s.content, calls[0], Grammar.Flat(calls[1..]));
      if s1.error != 0 { TakesNothing(s1, calls[1..]); }
    }
  }

  /** Every reply is good for writes of up to `n` bytes. */
  predicate GoodFor(replies: seq<Reply>, n: nat) {
    forall i :: 0 <= i < |replies| ==> !replies[i].failed && n <= replies[i].most
  }

  predicate CallsWithin(calls: seq<Bytes>, n: nat) {
    forall i :: 0 <= i < |calls| ==> |calls[i]| <= n
  }

  /** A sink whose replies are good never fails. */
  lemma {:induction false} GoodNeverFails(s: Sink, calls: seq<Bytes>, n: nat)
    requires s.error == 0 && GoodFor(s.replies, n) && CallsWithin(calls, n)
    ensures TakeAll(s, calls).error == 0 && GoodFor(TakeAll(s, calls).replies, n)
    decreases |calls|
  {
    if calls != [] {
      assert |calls[0]| <= n;
      GoodNeverFails(Take(s, calls[0]), calls[1..], n);
    }
  }

  lemma {:induction false} CallsAreSmall(capacity: nat, pieces: seq<Bytes>)
    ensures CallsWithin(Calls(capacity, pieces), capacity)
  {
    hide WholeScalars;
    if MARKER_SIZE <= capacity && pieces != [] {
      CallsAreSmall(capacity, pieces[..|pieces| - 1]);
    }
  }

  lemma AllCallsAreSmall(capacity: nat, pieces: seq<Bytes>)
    ensures CallsWithin(AllCalls(capacity, pieces), capacity)
  {
    CallsAreSmall(capacity, pieces);
  }

  /** An empty piece writes nothing. */
  lemma NoPiece(capacity: nat, t: Bytes, s: Sink)
    requires MARKER_SIZE <= capacity && |t| <= capacity
    ensures TakeAll(s, PieceCalls(capacity, t, [])) == s
  {
    hide Take, TakeAll;
    var calls := PieceCalls(capacity, t, []);
    assert calls == [[], []];
    TakeTwo(s, [], []);
    assert Take(s, []) == s by { EmptyCall(s); }
  }

  lemma TakeNone(s: Sink)
    ensures TakeAll(s, []) == s
  {
  }

  lemma EmptyCall(s: Sink)
    ensures Take(s, []) == s
  {
  }

  // ---- The file and its status ----

  class LogFile {
    var content: Bytes
    /** How the next writes fare; further ones succeed. */
    var replies: seq<Reply>

    method Append(bytes: Bytes) returns (written: nat, failed: bool, errno: int)
      requires bytes != []
      modifies this
      ensures var r := Take(Sink(old(content), old(replies), 0), bytes);
              && content == r.content && replies == r.replies && written == |content| - |old(content)|
              && r.error == if written != |bytes| || failed then Remembered(0, errno) else 0
    {
      written, failed, errno := |bytes|, false, 0;
      if replies != [] {
        if replies[0].most < |bytes| { written := replies[0].most; }
        failed, errno := replies[0].failed, replies[0].errno;
        replies := replies[1..];
      }
      assert bytes[..|bytes|] == bytes;
      content := content + bytes[..written];
    }
  }

  class LogStatus {
    const limit: nat
    var attempted: bool
    var truncated: bool
    var openErrno: int
    var writeErrno: int
    var closeErrno: int
    var fileBytes: nat
    var bytesWritten: nat

    predicate Disabled()
      reads this
    {
      truncated || openErrno != 0 || writeErrno != 0 || closeErrno != 0
    }
  }

  // ---- One session ----

  class Session {
    const file: LogFile
    /** Whether the file could be opened for this session. */
    const enabled: bool
    const status: LogStatus
    const capacity: nat
    var accepted: nat
    const tail: array<Byte>
    var tailSize: nat

    /** Everything given to the log in this session. */
    ghost var pieces: seq<Bytes>
    /** The file as the session finds it. */
    ghost const start: Sink
    ghost const writtenBefore: nat
    /** No earlier session was truncated or failed to open or write. */
    ghost const started: bool

    /** The file as it is. */
    ghost function Now(): Sink
      reads file, status`writeErrno
    {
      Sink(file.content, file.replies, status.writeErrno)
    }

    /** The file after more writes. */
    ghost function After(calls: seq<Bytes>): Sink
      reads file, status`writeErrno
    {
      if enabled then TakeAll(Now(), calls) else Now()
    }

    /** The counters agree with the file. */
    ghost predicate Counted()
      reads file, status`bytesWritten, status`fileBytes
    {
      && |start.content| <= |file.content|
      && status.bytesWritten == writtenBefore + |file.content| - |start.content|
      && (enabled ==> status.fileBytes == |file.content|)
    }

    constructor (file: LogFile, enabled: bool, status: LogStatus, existing: nat)
      requires enabled ==> existing == |file.content| == status.fileBytes
      ensures this.file == file && this.enabled == enabled && this.status == status
      ensures capacity == if status.limit < MARKER_SIZE || existing > status.limit then 0 else status.limit - existing
      ensures fresh(tail) && writtenBefore == status.bytesWritten
      ensures start == Sink(file.content, file.replies, status.writeErrno)
      ensures started == !(status.truncated || status.openErrno != 0 || status.writeErrno != 0)
      ensures Valid() && pieces == []
    {
      this.file, this.enabled, this.status := file, enabled, status;
      capacity := if status.limit < MARKER_SIZE || existing > status.limit then 0 else status.limit - existing;
      accepted, tailSize := 0, 0;
      tail := new Byte[TAIL_SIZE];
      pieces, writtenBefore := [], status.bytesWritten;
      start := Sink(file.content, file.replies, status.writeErrno);
      started := !(status.truncated || status.openErrno != 0 || status.writeErrno != 0);
      new;
      hide Valid;
      Begun();
    }

    /** A new session has written nothing and holds nothing back. */
    lemma Begun()
      requires pieces == [] && accepted == 0 && tailSize == 0 && tail.Length == TAIL_SIZE && start == Now()
      requires writtenBefore == status.bytesWritten && (enabled ==> status.fileBytes == |file.content|)
      requires started == Running()
      ensures Valid()
    {
      hide PieceCalls, Tail;
      NothingHeld();
      TakeNone(start);
    }

    method WriteBytes(bytes: Bytes)
      requires Counted()
      modifies file, status`bytesWritten, status`fileBytes, status`writeErrno
      ensures Counted() && Now() == old(After([bytes]))
    {
      TakeTwo(Now(), bytes, []);
      if |bytes| == 0 || !enabled || status.writeErrno != 0 { return; }
      var written, failed, errno := file.Append(bytes);
      status.bytesWritten := status.bytesWritten + written;
      status.fileBytes := status.fileBytes + written;
      if written != |bytes| || failed {
        status.writeErrno := Remembered(status.writeErrno, errno);
      }
    }

    /** Two writes to the file. */
    method PassOn(first: Bytes, second: Bytes)
      requires Counted()
      modifies file, status`bytesWritten, status`fileBytes, status`writeErrno
      ensures Counted() && Now() == old(After([first, second]))
    {
      hide Counted, Take, TakeAll;
      TakeTwo(Now(), first, second);
      WriteBytes(first);
      TakeTwo(Now(), second, []);
      WriteBytes(second);
    }

    ghost function Held(): Bytes
      reads this`tailSize, tail
      requires tailSize <= tail.Length
    {
      tail[..tailSize]
    }

    /** Keeps the last bytes back and passes the others on to the file. */
    method RetainPrefix(bytes: Bytes)
      requires Counted() && tail.Length == TAIL_SIZE && tailSize <= TAIL_SIZE
      modifies file, status`bytesWritten, status`fileBytes, status`writeErrno, this`tailSize, tail
      ensures Counted() && tailSize <= TAIL_SIZE && Now() == old(After(Flushed(Held(), bytes)))
      ensures Held() == (old(Held()) + bytes)[Excess(|old(Held())|, |bytes|)..]
    {
      hide Counted, Held, TakeAll, Flushed, After, Now;
      ghost var held := HeldBytes();
      var flush := if tailSize + |bytes| > TAIL_SIZE then tailSize + |bytes| - TAIL_SIZE else 0;
      var out := if flush < tailSize then flush else tailSize;
      FlushedIs(held, bytes, flush, out);
      HeldFront(out);
      PassOn(tail[..out], bytes[..flush - out]);
      Keep(out, bytes[flush - out..]);
    }

    lemma HeldFront(n: nat)
      requires n <= tailSize <= tail.Length
      ensures tail[..n] == Held()[..n]
    {
    }

    /** Drops the front of the tail and adds `rest` behind it. */
    method Keep(n: nat, rest: Bytes)
      requires tail.Length == TAIL_SIZE && n <= tailSize <= TAIL_SIZE && tailSize - n + |rest| <= TAIL_SIZE
      modifies tail, this`tailSize
      ensures tailSize == old(tailSize) - n + |rest| && Held() == old(Held())[n..] + rest
    {
      DropFront(n);
      CopyIn(rest);
    }

    lemma HeldBytes() returns (h: Bytes)
      requires tailSize <= tail.Length
      ensures h == Held() == tail[..tailSize]
    {
      h := Held();
    }

    method DropFront(n: nat)
      requires tail.Length == TAIL_SIZE && n <= tailSize <= TAIL_SIZE
      modifies tail, this`tailSize
      ensures tailSize == old(tailSize) - n && Held() == old(Held())[n..]
    {
      MoveDown(n);
      tailSize := tailSize - n;
    }

    /** Moves the tail down over its first `n` bytes. */
    method MoveDown(n: nat)
      requires tail.Length == TAIL_SIZE && n <= tailSize <= TAIL_SIZE
      modifies tail
      ensures tail[..tailSize - n] == old(tail[n..tailSize])
    {
      forall i | 0 <= i < tailSize - n {
        tail[i] := tail[i + n];
      }
    }

    method CopyIn(bytes: Bytes)
      requires tail.Length == TAIL_SIZE && tailSize + |bytes| <= TAIL_SIZE
      modifies tail, this`tailSize
      ensures tailSize == old(tailSize) + |bytes| && Held() == old(Held()) + bytes
    {
      forall i | 0 <= i < |bytes| {
        tail[tailSize + i] := bytes[i];
      }
      tailSize := tailSize + |bytes|;
    }

    /** The first bytes of the tail without an incomplete scalar at their end. */
    method Utf8Prefix(count: nat) returns (n: nat)
      requires tail.Length == TAIL_SIZE && count <= TAIL_SIZE
      ensures n == WholeScalars(tail[..count])
    {
      if count == 0 { return 0; }
      ghost var w := tail[..count];
      var start: nat := count - 1;
      while start > 0 && 0x80 <= tail[start] <= 0xBF
        invariant start < count && LeadBefore(w, start) == LeadBefore(w, count - 1)
      {
        assert w[start] == tail[start];
        start := start - 1;
      }
      assert w[start] == tail[start];
      var lead := tail[start];
      var width := if 0xF0 <= lead <= 0xF4 then 4 else if 0xE0 <= lead <= 0xEF then 3
                   else if 0xC2 <= lead <= 0xDF then 2 else 1;
      n := if count - start < width then start else count;
    }

    ghost predicate Running()
      reads status`truncated, status`openErrno, status`writeErrno
    {
      !status.truncated && status.openErrno == 0 && status.writeErrno == 0
    }

    ghost function Given(): Bytes
      reads this`pieces
    {
      Grammar.Flat(pieces)
    }

    /** Nothing is wrong yet: what the file was not handed is held back. */
    ghost predicate Tracks()
      reads this`accepted, this`pieces, this`tailSize, tail
      requires tailSize <= tail.Length
    {
      accepted == |Given()| && !Overflows(capacity, Given()) && Held() == Tail(Given())
    }

    /** What the log still has is what the file was not handed. */
    ghost predicate Kept()
      reads this`accepted, this`pieces, this`tailSize, tail, status`truncated, status`openErrno, status`writeErrno
    {
      && tail.Length == TAIL_SIZE && tailSize <= TAIL_SIZE
      && (Running() ==> Tracks())
      && (started ==> status.openErrno == 0)
      && (started && status.truncated ==> tailSize == 0 && Overflows(capacity, Given()))
      && (!started ==> tailSize == 0 && !Running())
    }

    /** The file after this session's writes so far, or after those in `calls`. */
    ghost function Due(calls: seq<Bytes>): Sink {
      if enabled && started then TakeAll(start, calls) else start
    }

    /** Holds between any two calls. */
    ghost predicate Valid()
      reads this, file, status, tail
    {
      Counted() && Kept() && Now() == Due(Calls(capacity, pieces)) && (started ==> start.error == 0)
    }

    /** There is more than fits: cuts at a scalar and ends the log with the marker. */
    method Truncate()
      requires Counted() && tail.Length == TAIL_SIZE && MARKER_SIZE <= tailSize <= TAIL_SIZE
      modifies this`tailSize, file, status`bytesWritten, status`fileBytes, status`writeErrno, status`truncated
      ensures Counted() && tailSize == 0 && status.truncated && Now() == old(After(Ending(Held())))
    {
      hide Counted, WholeScalars, TakeAll;
      status.truncated := true;
      var prefix := Utf8Prefix(tailSize - MARKER_SIZE);
      ghost var held := HeldBytes();
      assert held[..|held| - MARKER_SIZE] == tail[..tailSize - MARKER_SIZE] && held[..prefix] == tail[..prefix];
      PassOn(tail[..prefix], MARKER);
      tailSize := 0;
    }

    /** Takes in a piece of a stream `t` for which there is some room. */
    method Accept(bytes: Bytes, ghost t: Bytes)
      requires Counted() && tail.Length == TAIL_SIZE && tailSize <= TAIL_SIZE && Held() == Tail(t) && accepted == |t|
      requires MARKER_SIZE <= capacity && |t| <= capacity && !status.truncated
      modifies this`accepted, this`tailSize, tail
      modifies file, status`bytesWritten, status`fileBytes, status`writeErrno, status`truncated
      ensures Counted() && tailSize <= TAIL_SIZE && Now() == old(After(PieceCalls(capacity, t, bytes)))
      ensures if |t + bytes| <= capacity then !status.truncated && accepted == |t + bytes| && Held() == Tail(t + bytes)
              else status.truncated && tailSize == 0
    {
      hide Counted, TakeAll, Flushed, Ending, Tail;
      var remaining := capacity - accepted;
      var keep := if |bytes| < remaining then |bytes| else remaining;
      ghost var first := Flushed(Tail(t), bytes[..keep]);
      TailMore(t, bytes[..keep]);
      ghost var before := Now();
      RetainPrefix(bytes[..keep]);
      accepted := accepted + keep;
      if |bytes| > remaining {
        TakeMore(before, first, Ending(Tail(t + bytes[..keep])));
        Truncate();
      } else {
        assert bytes[..keep] == bytes && first + [] == first;
      }
    }

    /** One write to the log, wherever the stream is cut into writes. */
    method Write(bytes: Bytes)
      requires Valid()
      modifies this`pieces, this`accepted, this`tailSize, tail
      modifies file, status`bytesWritten, status`fileBytes, status`writeErrno, status`truncated
      ensures Valid() && pieces == old(pieces) + [bytes]
      ensures old(status.truncated) ==> status.truncated
      ensures old(status.writeErrno) != 0 ==> status.writeErrno != 0
    {
      hide Counted, Calls, TakeAll, Tail, PieceCalls;
      ghost var was, t := pieces, Given();
      pieces := pieces + [bytes];
      OneMore(was, bytes);
      ghost var more := if capacity < MARKER_SIZE || |t| > capacity then [] else PieceCalls(capacity, t, bytes);
      TakeMore(start, Calls(capacity, was), more);
      TakeNone(Now());
      if status.truncated || status.openErrno != 0 || status.writeErrno != 0 {
        if status.writeErrno != 0 { TakesNothing(Now(), more); }
        return;
      }
      if |bytes| == 0 {
        assert t + bytes == t;
        if MARKER_SIZE <= capacity { NoPiece(capacity, t, Now()); }
        return;
      }
      if capacity < MARKER_SIZE {
        NothingHeld();
        status.truncated := true;
        return;
      }
      Accept(bytes, t);
    }

    /** The writes of a session, one after another. */
    method WriteAll(all: seq<Bytes>)
      requires Valid() && pieces == []
      modifies this`pieces, this`accepted, this`tailSize, tail
      modifies file, status`bytesWritten, status`fileBytes, status`writeErrno, status`truncated
      ensures Valid() && pieces == all
      ensures old(status.truncated) ==> status.truncated
      ensures old(status.writeErrno) != 0 ==> status.writeErrno != 0
    {
      hide Valid;
      var i := 0;
      while i < |all|
        invariant i <= |all| && Valid() && pieces == all[..i]
        invariant old(status.truncated) ==> status.truncated
        invariant old(status.writeErrno) != 0 ==> status.writeErrno != 0
      {
        assert all[..i + 1] == all[..i] + [all[i]];
        Write(all[i]);
        i := i + 1;
      }
      assert all[..i] == all;
    }

    /** Ends the session. `error` is what closing the file reports, 0 for success. */
    method Close(failed: bool, error: int)
      requires Valid()
      modifies file, status`bytesWritten, status`fileBytes, status`writeErrno, status`closeErrno
      ensures Counted() && Now() == Due(AllCalls(capacity, pieces))
      ensures started && status.writeErrno == 0 ==> (status.truncated <==> Overflows(capacity, Given()))
      ensures status.closeErrno == if failed && enabled then Remembered(old(status.closeErrno), error)
                                   else old(status.closeErrno)
      ensures old(status.writeErrno) != 0 ==> status.writeErrno != 0
    {
      hide Valid, Counted, After, Due, AllCalls, Overflows, Given;
      LastCall();
      WriteBytes(tail[..tailSize]);
      if enabled && failed { status.closeErrno := Remembered(status.closeErrno, error); }
    }

    /** What is held back at the end is the last write, unless nothing is or a write failed. */
    lemma LastCall()
      requires Valid()
      ensures Counted() && tailSize <= tail.Length && After([tail[..tailSize]]) == Due(AllCalls(capacity, pieces))
      ensures status.writeErrno != 0 ==> After([tail[..tailSize]]).error != 0
      ensures started && After([tail[..tailSize]]).error == 0 ==> (status.truncated <==> Overflows(capacity, Given()))
    {
      hide Calls, TakeAll, Tail, Take, Counted;
      var calls, held, last := Calls(capacity, pieces), tail[..tailSize], Closing(capacity, Given());
      TakeMore(start, calls, last);
      TakeTwo(Now(), held, []);
      if status.writeErrno != 0 {
        TakesNothing(Now(), last);
        TakesNothing(Now(), [held]);
      } else {
        if tailSize == 0 { EmptyCall(Now()); }
        TakeNone(Now());
      }
    }

    /** The writes after one more piece. */
    lemma OneMore(was: seq<Bytes>, bytes: Bytes)
      ensures Grammar.Flat(was + [bytes]) == Grammar.Flat(was) + bytes
      ensures var t := Grammar.Flat(was);
              Calls(capacity, was + [bytes])
              == Calls(capacity, was) +
                 if capacity < MARKER_SIZE || |t| > capacity then [] else PieceCalls(capacity, t, bytes)
    {
      FlatSnoc(was, bytes);
      assert (was + [bytes])[..|was|] == was;
    }
  }

  // ---- Sessions ----

  /** Whether the file can be opened: it is missing or no regular file, no stream can be made
      of it, there is no memory, the stream cannot be set up, or the log cannot be made a
      stream itself. */
  datatype Opening =
    | Opens | OpenFails(errno: int) | StreamFails(errno: int) | NoMemory | SetupFails(errno: int)
    | HandleFails(errno: int)

  /** What the log then takes the file's size to be. */
  function Existing(opening: Opening, size: nat): nat {
    if opening.OpenFails? then 0 else size
  }

  /** The first error of opening, or 0. */
  function OpenError(opening: Opening, limit: nat, existing: nat): int {
    if opening.OpenFails? || opening.StreamFails? then Remembered(0, opening.errno)
    else if opening.NoMemory? then ENOMEM
    else if existing > limit then EFBIG
    else if limit < MARKER_SIZE then EINVAL
    else if opening.SetupFails? || opening.HandleFails? then Remembered(0, opening.errno)
    else 0
  }

  /** The open error, number by number. The size of the file is looked at only after it could
      be opened and made a stream, and before that stream is set up. */
  lemma OpenErrorIs(o: Opening, limit: nat, existing: nat)
    ensures var error, e := OpenError(o, limit, existing), if o.NoMemory? || o.Opens? then 0 else o.errno;
            && (o.OpenFails? || o.StreamFails? ==> if e == 0 then error == 5 else error == e)
            && (o.NoMemory? ==> error == 12)
            && (o.Opens? || o.SetupFails? || o.HandleFails? ==>
                  && (limit < existing ==> error == 27)
                  && (existing <= limit < 23 ==> error == 22)
                  && (existing <= limit && 23 <= limit && !o.Opens? ==> if e == 0 then error == 5 else error == e)
                  && (existing <= limit && 23 <= limit && o.Opens? ==> error == 0))
  {
  }

  /** One session as the engine and the system make it. */
  datatype Run = Run(opening: Opening, pieces: seq<Bytes>, closeFails: bool, closeErrno: int)

  function Text(run: Run): Bytes { Grammar.Flat(run.pieces) }

  /** This session writes to the file at all. */
  ghost predicate Usable(file: LogFile, status: LogStatus, run: Run)
    reads file, status
  {
    && !status.Disabled() && run.opening.Opens?
    && MARKER_SIZE <= status.limit && |file.content| <= status.limit
  }

  /** A status that was never used shows no error. */
  ghost predicate Initial(status: LogStatus)
    reads status
  {
    !status.attempted ==> !status.Disabled()
  }

  /** Opens the log: what it finds of the file and whether it may write to it. A log that was
      disabled once is not opened again. */
  method Open(file: LogFile, status: LogStatus, opening: Opening) returns (log: Session)
    requires Initial(status)
    modifies status`attempted, status`openErrno, status`fileBytes
    ensures fresh(log) && fresh(log.tail) && log.Valid() && log.pieces == []
    ensures log.file == file && log.status == status
    ensures log.start == Sink(file.content, file.replies, status.writeErrno)
    ensures log.writtenBefore == status.bytesWritten && status.attempted
    ensures if old(status.Disabled()) then
              status.Disabled() && status.fileBytes == old(status.fileBytes) && !log.enabled
            else
              var existing := Existing(opening, |file.content|);
              && status.fileBytes == existing
              && status.openErrno == OpenError(opening, status.limit, existing)
              && log.enabled == (opening.Opens? || opening.SetupFails? || opening.HandleFails?)
              && log.started == (status.openErrno == 0)
              && (log.started ==> log.capacity == status.limit - existing)
  {
    var enabled, existing := false, 0;
    if status.attempted && status.Disabled() {
      existing := status.fileBytes;
    } else if opening.OpenFails? {
      status.openErrno := Remembered(status.openErrno, opening.errno);
    } else {
      existing := |file.content|;
      enabled := opening.Opens? || opening.SetupFails? || opening.HandleFails?;
      if opening.StreamFails? { status.openErrno := Remembered(status.openErrno, opening.errno); }
    }
    status.attempted := true;
    status.fileBytes := existing;
    if opening.NoMemory? {
      status.openErrno := Remembered(status.openErrno, ENOMEM);
    } else if status.limit < MARKER_SIZE || existing > status.limit {
      status.openErrno := Remembered(status.openErrno, if existing > status.limit then EFBIG else EINVAL);
    }
    if enabled && !opening.Opens? { status.openErrno := Remembered(status.openErrno, opening.errno); }
    log := new Session(file, enabled, status, existing);
  }

  /** The file after a session that writes to it. */
  function SessionEnd(limit: nat, s: Sink, run: Run): Sink
    requires |s.content| <= limit
  {
    TakeAll(s, AllCalls(limit - |s.content|, run.pieces))
  }

  /** A session adds a front of its final content, and all of it if no write fails; with good
      replies none does. */
  lemma SessionAdds(limit: nat, s: Sink, run: Run)
    requires |s.content| <= limit && s.error == 0
    ensures var r := SessionEnd(limit, s, run);
            var final := Final(limit - |s.content|, Text(run));
            && s.content <= r.content <= s.content + final
            && (r.error == 0 ==> r.content == s.content + final)
            && (GoodFor(s.replies, limit) ==> r.error == 0 && GoodFor(r.replies, limit))
  {
    hide Final, AllCalls, TakeAll;
    var calls := AllCalls(limit - |s.content|, run.pieces);
    AllCallsHand(limit - |s.content|, run.pieces);
    TakesFront(s, calls);
    if GoodFor(s.replies, limit) {
      AllCallsAreSmall(limit - |s.content|, run.pieces);
      SmallerStill(calls, limit - |s.content|, limit);
      GoodNeverFails(s, calls, limit);
    }
  }

  lemma SmallerStill(calls: seq<Bytes>, m: nat, n: nat)
    requires CallsWithin(calls, m) && m <= n
    ensures CallsWithin(calls, n)
  {
  }

  /** A whole session. What it leaves is a function of its pieces and of how the writes fare:
      nothing already in the file is touched, and it adds exactly what `Final` says, or a
      front of it when a reply that is used falls short or fails. */
  method RunSession(file: LogFile, status: LogStatus, run: Run)
    requires Initial(status)
    modifies file, status
    ensures status.attempted && old(file.content) <= file.content
    ensures status.bytesWritten == old(status.bytesWritten) + |file.content| - |old(file.content)|
    ensures old(status.Disabled()) ==> status.Disabled()
    ensures !old(Usable(file, status, run)) ==>
              file.content == old(file.content) && file.replies == old(file.replies) && status.Disabled()
    ensures !old(Usable(file, status, run)) ==> status.writeErrno == old(status.writeErrno)
    ensures old(Usable(file, status, run)) ==>
              status.closeErrno == if run.closeFails then Remembered(0, run.closeErrno) else 0
    ensures !old(status.Disabled()) ==>
              status.openErrno == OpenError(run.opening, status.limit, Existing(run.opening, |old(file.content)|))
    ensures old(Usable(file, status, run)) ==>
              var capacity := status.limit - |old(file.content)|;
              && Sink(file.content, file.replies, status.writeErrno)
                 == SessionEnd(status.limit, Sink(old(file.content), old(file.replies), 0), run)
              && file.content[|old(file.content)|..] <= Final(capacity, Text(run))
              && (status.writeErrno == 0 ==>
                    && file.content == old(file.content) + Final(capacity, Text(run))
                    && (status.truncated <==> Overflows(capacity, Text(run))))
  {
    hide Final, TakeAll, AllCalls, Session.Valid, Overflows;
    if Usable(file, status, run) {
      SessionAdds(status.limit, Sink(file.content, file.replies, 0), run);
    }
    var log := Open(file, status, run.opening);
    log.WriteAll(run.pieces);
    log.Close(run.closeFails, run.closeErrno);
  }

  // ---- Any number of sessions ----

  /** The texts of sessions, one after another. */
  function Texts(runs: seq<Run>): Bytes {
    if runs == [] then [] else Text(runs[0]) + Texts(runs[1..])
  }

  /** Whether a session that finds `used` bytes is the last that writes, though no write
      fails. */
  predicate Stops(limit: nat, used: nat, run: Run) {
    || !run.opening.Opens? || limit < MARKER_SIZE || used > limit
    || Overflows(limit - used, Text(run)) || run.closeFails
  }

  /** The log after some sessions: the file, and whether the log is disabled. */
  datatype Log = Log(sink: Sink, disabled: bool)

  /** The log after sessions from one that is not disabled. */
  function AfterRuns(limit: nat, s: Sink, runs: seq<Run>): Log
    decreases |runs|
  {
    if runs == [] then Log(s, false)
    else if !runs[0].opening.Opens? || limit < MARKER_SIZE || |s.content| > limit then Log(s, true)
    else
      var r := SessionEnd(limit, s, runs[0]);
      if r.error != 0 || Stops(limit, |s.content|, runs[0]) then Log(r, true) else AfterRuns(limit, r, runs[1..])
  }

  /** What sessions leave that can all be opened, written and closed. */
  function Healthy(limit: nat, content: Bytes, runs: seq<Run>): Bytes
    decreases |runs|
  {
    if runs == [] || limit < MARKER_SIZE || |content| > limit then content
    else
      var room := limit - |content|;
      var next := content + Final(room, Text(runs[0]));
      if Overflows(room, Text(runs[0])) then next else Healthy(limit, next, runs[1..])
  }

  predicate AllHealthy(runs: seq<Run>) {
    forall i :: 0 <= i < |runs| ==> runs[i].opening.Opens? && !runs[i].closeFails
  }

  lemma {:induction false} HealthyGrows(limit: nat, content: Bytes, runs: seq<Run>)
    ensures content <= Healthy(limit, content, runs)
    decreases |runs|
  {
    hide Final, Overflows;
    if runs != [] && MARKER_SIZE <= limit && |content| <= limit {
      HealthyGrows(limit, content + Final(limit - |content|, Text(runs[0])), runs[1..]);
    }
  }

  /** One more session of healthy ones. */
  lemma HealthyNext(limit: nat, content: Bytes, runs: seq<Run>)
    requires runs != [] && MARKER_SIZE <= limit && |content| <= limit
    ensures var next := content + Final(limit - |content|, Text(runs[0]));
            && next <= Healthy(limit, content, runs)
            && Healthy(limit, content, runs) ==
               (if Overflows(limit - |content|, Text(runs[0])) then next else Healthy(limit, next, runs[1..]))
  {
    hide Final, Overflows;
    HealthyGrows(limit, content + Final(limit - |content|, Text(runs[0])), runs[1..]);
  }

  /** The file is a front of what it would be if nothing failed, and all of it if nothing
      does; it never outgrows the limit. */
  lemma {:induction false} RunsAreHealthy(limit: nat, s: Sink, runs: seq<Run>)
    requires s.error == 0 && |s.content| <= limit
    ensures var r := AfterRuns(limit, s, runs).sink;
            && s.content <= r.content <= Healthy(limit, s.content, runs) && |r.content| <= limit
            && (GoodFor(s.replies, limit) ==> r.error == 0)
            && (r.error == 0 && AllHealthy(runs) ==> r.content == Healthy(limit, s.content, runs))
    decreases |runs|
  {
    hide Final, Overflows, SessionEnd, GoodFor;
    HealthyGrows(limit, s.content, runs);
    if runs != [] && runs[0].opening.Opens? && MARKER_SIZE <= limit {
      SessionAdds(limit, s, runs[0]);
      HealthyNext(limit, s.content, runs);
      var r := SessionEnd(limit, s, runs[0]);
      if r.error == 0 && !Stops(limit, |s.content|, runs[0]) {
        assert AllHealthy(runs) ==> AllHealthy(runs[1..]);
        RunsAreHealthy(limit, r, runs[1..]);
      }
    } else if runs != [] && runs[0].opening.Opens? {
      Unlogged(limit, s.content, runs);
    }
  }

  lemma Unlogged(limit: nat, content: Bytes, runs: seq<Run>)
    requires limit < MARKER_SIZE
    ensures Healthy(limit, content, runs) == content
  {
  }

  /** On a file of `used` bytes the first `k` sessions do not stop the log. The next one, if
      any, does, unless a write fails in it, and adds `w`, a front of what `Final` allows it. */
  predicate Adds(limit: nat, used: nat, runs: seq<Run>, k: nat, w: Bytes, failed: bool) {
    && k <= |runs| && (forall j :: 0 <= j < k ==> !Stops(limit, used + |Texts(runs[..j])|, runs[j]))
    && (if k == |runs| then w == [] && !failed
        else
          var now := used + |Texts(runs[..k])|;
          now <= limit && w <= Final(limit - now, Text(runs[k])) && (Stops(limit, now, runs[k]) || failed))
  }

  lemma TextsFront(runs: seq<Run>, j: nat)
    requires 0 < j <= |runs|
    ensures Texts(runs[..j]) == Text(runs[0]) + Texts(runs[1..][..j - 1])
  {
    assert runs[..j][1..] == runs[1..][..j - 1];
  }

  lemma AddsOneMore(limit: nat, used: nat, runs: seq<Run>, k: nat, w: Bytes, failed: bool)
    requires runs != [] && !Stops(limit, used, runs[0])
    requires Adds(limit, used + |Text(runs[0])|, runs[1..], k, w, failed)
    ensures Adds(limit, used, runs, k + 1, w, failed)
  {
    hide Stops, Final, Text, Texts;
    var rest := runs[1..];
    NoTexts(runs);
    forall j | 0 <= j < k + 1 ensures !Stops(limit, used + |Texts(runs[..j])|, runs[j]) {
      if j > 0 {
        TextsFront(runs, j);
        assert rest[j - 1] == runs[j];
      }
    }
    TextsFront(runs, k + 1);
    if k < |rest| { assert rest[k] == runs[k + 1]; }
  }

  lemma NoTexts(runs: seq<Run>)
    ensures Texts(runs[..0]) == []
  {
  }

  /** Undisturbed sessions add their whole texts, and the one that stops the log a part. */
  lemma {:induction false} RunsAdd(limit: nat, s: Sink, runs: seq<Run>) returns (k: nat, w: Bytes)
    requires s.error == 0 && |s.content| <= limit
    ensures var r := AfterRuns(limit, s, runs);
            && Adds(limit, |s.content|, runs, k, w, r.sink.error != 0) && (r.disabled <==> k < |runs|)
            && r.sink.content == s.content + Texts(runs[..k]) + w
    decreases |runs|
  {
    hide Final, Overflows, SessionEnd, Text, Texts, Adds;
    NoTexts(runs);
    if runs == [] || !runs[0].opening.Opens? || limit < MARKER_SIZE {
      k, w := 0, [];
      AddsNone(limit, |s.content|, runs, w, s.error != 0);
      return;
    }
    SessionAdds(limit, s, runs[0]);
    var r := SessionEnd(limit, s, runs[0]);
    if r.error != 0 || Stops(limit, |s.content|, runs[0]) {
      k, w := 0, r.content[|s.content|..];
      assert r.content == s.content + w;
      AddsNone(limit, |s.content|, runs, w, r.error != 0);
      return;
    }
    FinalWhole(limit - |s.content|, Text(runs[0]));
    k, w := RunsAdd(limit, r, runs[1..]);
    AddsOneMore(limit, |s.content|, runs, k, w, AfterRuns(limit, r, runs[1..]).sink.error != 0);
    AddsFits(limit, |r.content|, runs[1..], k, w, AfterRuns(limit, r, runs[1..]).sink.error != 0);
    TextsFront(runs, k + 1);
    Assoc(s.content, Text(runs[0]), Texts(runs[1..][..k]));
    k := k + 1;
  }

  lemma AddsNone(limit: nat, used: nat, runs: seq<Run>, w: Bytes, failed: bool)
    requires used <= limit
    requires if runs == [] then w == [] && !failed
             else w <= Final(limit - used, Text(runs[0])) && (Stops(limit, used, runs[0]) || failed)
    ensures Adds(limit, used, runs, 0, w, failed)
  {
    hide Final, Stops, Text;
    NoTexts(runs);
  }

  lemma AddsFits(limit: nat, used: nat, runs: seq<Run>, k: nat, w: Bytes, failed: bool)
    requires Adds(limit, used, runs, k, w, failed)
    ensures k <= |runs|
  {
  }

  /** Any number of sessions. What they leave is a function of the sessions and of how the
      writes fare. The first `k` add their whole texts, and the next one, if any, adds `w`, a
      front of what `Final` allows it, which holds at most one marker; nothing is written
      after that. Session `k` is the first that could not be opened, did not fit or could not
      be closed, unless a write failed in it. The file is always a front of what it would be
      if nothing failed, and all of it if nothing does. */
  method RunSessions(file: LogFile, status: LogStatus, runs: seq<Run>) returns (ghost k: nat, ghost w: Bytes)
    requires Initial(status) && !status.Disabled() && |file.content| <= status.limit
    modifies file, status
    ensures Log(Sink(file.content, file.replies, status.writeErrno), status.Disabled())
         == AfterRuns(status.limit, Sink(old(file.content), old(file.replies), 0), runs)
    ensures k <= |runs| && file.content == old(file.content) + Texts(runs[..k]) + w
    ensures k == |runs| ==> w == [] && !status.Disabled()
    ensures forall j :: 0 <= j < k ==> !Stops(status.limit, |old(file.content)| + |Texts(runs[..j])|, runs[j])
    ensures k < |runs| ==>
              var used := |old(file.content)| + |Texts(runs[..k])|;
              && status.Disabled() && used <= status.limit
              && w <= Final(status.limit - used, Text(runs[k]))
              && (Stops(status.limit, used, runs[k]) || status.writeErrno != 0)
    ensures file.content <= Healthy(status.limit, old(file.content), runs)
    ensures status.writeErrno == 0 && AllHealthy(runs) ==>
              file.content == Healthy(status.limit, old(file.content), runs)
    ensures GoodFor(old(file.replies), status.limit) ==> status.writeErrno == 0
    ensures |file.content| <= status.limit
    ensures status.bytesWritten == old(status.bytesWritten) + |file.content| - |old(file.content)|
  {
    hide Final, Overflows, Healthy, Stops, Texts, Text, AllHealthy, SessionEnd, GoodFor;
    ghost var start := Sink(file.content, file.replies, 0);
    RunsAreHealthy(status.limit, start, runs);
    k, w := RunsAdd(status.limit, start, runs);
    var i := 0;
    assert runs[0..] == runs;
    while i < |runs|
      invariant i <= |runs| && Initial(status) && |start.content| <= |file.content|
      invariant status.bytesWritten == old(status.bytesWritten) + |file.content| - |start.content|
      invariant var s := Sink(file.content, file.replies, status.writeErrno);
                var end := AfterRuns(status.limit, start, runs);
                if status.Disabled() then end == Log(s, true)
                else end == AfterRuns(status.limit, s, runs[i..])
    {
      ghost var content := file.content;
      StopsMeans(status.limit, |file.content|, runs[i]);
      RunSession(file, status, runs[i]);
      assert runs[i..][1..] == runs[i + 1..];
      i := i + 1;
    }
    assert runs[i..] == [];
  }

  lemma StopsMeans(limit: nat, used: nat, run: Run)
    ensures Stops(limit, used, run) <==>
              || !run.opening.Opens? || limit < MARKER_SIZE || used > limit
              || Overflows(limit - used, Text(run)) || run.closeFails
  {
  }
}
