/** Sequence numbers of received datagrams, accounted for in constant space. */
module UdpAccounting {

  const UINT64: nat := 0x1_0000_0000_0000_0000
  const INT64_LIMIT: int := 0x8000_0000_0000_0000

  /** A 64-bit pattern read as a signed number, and a signed number as a pattern. */
  function Signed(n: int): int {
    var m := n % UINT64;
    if m < INT64_LIMIT then m else m - UINT64
  }

  function Pattern(n: int): nat { n % UINT64 }

  /** Sequence numbers the signed counters can hold. */
  predicate InRange(arrivals: seq<nat>) {
    forall i :: 0 <= i < |arrivals| ==> arrivals[i] < INT64_LIMIT
  }

  // ---- What the counters stand for ----

  function Highest(arrivals: seq<nat>): nat {
    if arrivals == [] then 0
    else
      var h := Highest(arrivals[..|arrivals| - 1]);
      var p := arrivals[|arrivals| - 1];
      if p > h then p else h
  }

  /** The numbers up to the highest that have not arrived. */
  ghost function Missing(arrivals: seq<nat>): set<nat> {
    set x: nat | 1 <= x <= Highest(arrivals) && x !in arrivals
  }

  predicate Distinct(arrivals: seq<nat>) {
    forall i, j :: 0 <= i < j < |arrivals| ==> arrivals[i] != arrivals[j]
  }

  /** No sequence number twice, and none zero. */
  predicate Regular(arrivals: seq<nat>) {
    Distinct(arrivals) && 0 !in arrivals
  }

  lemma {:induction false} HighestIsMax(arrivals: seq<nat>)
    ensures forall i :: 0 <= i < |arrivals| ==> arrivals[i] <= Highest(arrivals)
    ensures arrivals != [] ==> Highest(arrivals) in arrivals
    ensures arrivals == [] ==> Highest(arrivals) == 0
  {
    if arrivals != [] { HighestIsMax(arrivals[..|arrivals| - 1]); }
  }

  lemma HighestMore(arrivals: seq<nat>, p: nat)
    ensures Highest(arrivals + [p]) == if p > Highest(arrivals) then p else Highest(arrivals)
  {
    assert (arrivals + [p])[..|arrivals|] == arrivals;
  }

  /** The numbers after `a` up to `b`. */
  function Between(a: nat, b: nat): (r: set<nat>)
    ensures forall x :: x in r <==> a < x <= b
    ensures a <= b ==> |r| == b - a
    decreases b
  {
    if b <= a then {} else Between(a, b - 1) + {b}
  }

  /** A number beyond the highest adds the gap before it to what is missing. */
  lemma MissingForward(arrivals: seq<nat>, p: nat)
    requires p > Highest(arrivals)
    ensures |Missing(arrivals + [p])| == |Missing(arrivals)| + (p - 1 - Highest(arrivals))
  {
    var h := Highest(arrivals);
    var gap := Between(h, p - 1);
    HighestIsMax(arrivals);
    HighestMore(arrivals, p);
    hide Highest;
    assert Missing(arrivals) !! gap;
    forall x: nat ensures x in Missing(arrivals + [p]) <==> x in Missing(arrivals) + gap {
      assert x in arrivals + [p] <==> x in arrivals || x == p;
    }
    assert Missing(arrivals + [p]) == Missing(arrivals) + gap;
  }

  /** Any other number is missing no longer, if it was. */
  lemma MissingBackward(arrivals: seq<nat>, p: nat)
    requires p <= Highest(arrivals)
    ensures |Missing(arrivals + [p])| == |Missing(arrivals)| - if p in Missing(arrivals) then 1 else 0
  {
    HighestMore(arrivals, p);
    assert Missing(arrivals + [p]) == Missing(arrivals) - {p};
  }

  // ---- The receiver ----

  class Receiver {
    var packetCount: int
    var cntError: int
    var outOfOrder: nat
    ghost var arrivals: seq<nat>

    /** The counters against the set of numbers that arrived: the highest is known exactly
        as long as every number fits a signed counter, and then the losses are exact if none
        came twice, and between bounds otherwise. */
    ghost predicate Valid()
      reads this
    {
      && -INT64_LIMIT <= packetCount < INT64_LIMIT
      && (packetCount == Highest(arrivals) <==> InRange(arrivals))
      && (InRange(arrivals) ==>
        && Floor(packetCount - |arrivals|) <= cntError <= |Missing(arrivals)| <= packetCount
        && (Regular(arrivals) ==> cntError == |Missing(arrivals)| == packetCount - |arrivals|))
    }

    constructor ()
      ensures Valid() && arrivals == [] && packetCount == 0
    {
      packetCount, cntError, outOfOrder, arrivals := 0, 0, 0, [];
      new;
      assert Missing([]) == {};
    }

    /** Accounts for one datagram. */
    method Receive(pcount: nat)
      requires Valid() && pcount < UINT64
      modifies this
      ensures Valid() && arrivals == old(arrivals) + [pcount]
      ensures packetCount == if pcount >= Pattern(old(packetCount) + 1) then Signed(pcount) else old(packetCount)
      ensures InRange(arrivals) ==>
                outOfOrder == old(outOfOrder) + if pcount <= Highest(old(arrivals)) then 1 else 0
      ensures InRange(arrivals) ==>
                var highest := Highest(old(arrivals));
                cntError == if pcount > highest then old(cntError) + (pcount - 1 - highest)
                            else if old(cntError) > 0 then old(cntError) - 1 else old(cntError)
    {
      hide Highest, Missing, Regular, Signed, Pattern, InRange;
      ghost var before := arrivals;
      arrivals := arrivals + [pcount];
      if InRange(arrivals) {
        Accounts(before, pcount);
        SmallIsItself(packetCount + 1);
        SmallIsItself(pcount);
        SmallIsItself(cntError + (pcount - 1) - packetCount);
        SmallPattern(packetCount + 1);
      }
      OutOfRange(arrivals);
      SignedInRange(pcount);
      if pcount >= Pattern(packetCount + 1) {
        if pcount > Pattern(packetCount + 1) {
          cntError := Signed(cntError + (pcount - 1) - packetCount);
        }
        packetCount := Signed(pcount);
      } else {
        outOfOrder := outOfOrder + 1;
        if cntError > 0 { cntError := cntError - 1; }
      }
    }
  }

  /** A first datagram beyond the signed range is taken for the highest, and shown as a
      negative one. */
  method FirstBeyondRange() returns (r: Receiver)
    ensures fresh(r) && r.Valid() && r.arrivals == [INT64_LIMIT] && !InRange(r.arrivals)
    ensures r.packetCount == -INT64_LIMIT && Highest(r.arrivals) == INT64_LIMIT
  {
    r := new Receiver();
    r.Receive(INT64_LIMIT);
    HighestMore([], INT64_LIMIT);
    assert [] + [INT64_LIMIT] == [INT64_LIMIT] && r.arrivals[0] == INT64_LIMIT;
  }

  lemma SmallIsItself(n: int)
    ensures 0 <= n < INT64_LIMIT ==> Signed(n) == n && Pattern(n) == n
  {
  }

  lemma SmallPattern(n: int)
    ensures 0 <= n <= INT64_LIMIT ==> Pattern(n) == n
  {
  }

  lemma SignedInRange(n: int)
    ensures -INT64_LIMIT <= Signed(n) < INT64_LIMIT
  {
  }

  /** A number beyond the signed range is beyond anything the counter can show. */
  lemma OutOfRange(arrivals: seq<nat>)
    ensures !InRange(arrivals) ==> INT64_LIMIT <= Highest(arrivals)
  {
    HighestIsMax(arrivals);
  }

  function Floor(n: int): nat { if n < 0 then 0 else n }

  lemma Accounts(arrivals: seq<nat>, p: nat)
    requires InRange(arrivals + [p])
    ensures InRange(arrivals) && Highest(arrivals + [p]) < INT64_LIMIT
    ensures Highest(arrivals + [p]) == if p > Highest(arrivals) then p else Highest(arrivals)
    ensures p > Highest(arrivals) ==> |Missing(arrivals + [p])| == |Missing(arrivals)| + (p - 1 - Highest(arrivals))
    ensures p <= Highest(arrivals) ==>
              |Missing(arrivals + [p])| == |Missing(arrivals)| - if p in Missing(arrivals) then 1 else 0
    ensures p in Missing(arrivals) ==> 1 <= |Missing(arrivals)|
    ensures Regular(arrivals + [p]) ==> Regular(arrivals) && (p <= Highest(arrivals) ==> p in Missing(arrivals))
  {
    var all := arrivals + [p];
    forall i | 0 <= i < |arrivals| ensures arrivals[i] < INT64_LIMIT { assert all[i] == arrivals[i]; }
    assert all[|arrivals|] == p;
    HighestIsMax(arrivals);
    HighestMore(arrivals, p);
    if p > Highest(arrivals) { MissingForward(arrivals, p); } else { MissingBackward(arrivals, p); }
    if p in Missing(arrivals) { assert {p} <= Missing(arrivals); SubsetSize({p}, Missing(arrivals)); }
    if Regular(all) {
      forall i, j | 0 <= i < j < |arrivals| ensures arrivals[i] != arrivals[j] {
        assert all[i] == arrivals[i] && all[j] == arrivals[j];
      }
      assert forall i :: 0 <= i < |arrivals| ==> all[i] == arrivals[i];
    }
  }

  lemma {:induction false} SubsetSize(a: set<nat>, b: set<nat>)
    requires a <= b
    ensures |a| <= |b|
  {
    assert b == a + (b - a);
  }

  // ---- Order does not matter ----

  lemma {:induction false} HighestOfSame(a: seq<nat>, b: seq<nat>)
    requires multiset(a) == multiset(b)
    ensures Highest(a) == Highest(b)
  {
    HighestIsMax(a);
    HighestIsMax(b);
    if a != [] {
      assert Highest(a) in multiset(b);
      assert Highest(b) in multiset(a);
    } else {
      assert |multiset(b)| == 0;
    }
  }

  lemma SameMissing(a: seq<nat>, b: seq<nat>)
    requires multiset(a) == multiset(b)
    ensures Highest(a) == Highest(b) && Missing(a) == Missing(b) && |a| == |b|
  {
    HighestOfSame(a, b);
    forall x ensures x in a <==> x in b {
      assert x in a <==> x in multiset(a);
      assert x in b <==> x in multiset(b);
    }
    assert |multiset(a)| == |a| && |multiset(b)| == |b|;
  }

  /** Two receivers that got the same numbers, each once and whatever the order, count the
      same losses. */
  lemma OrderIrrelevant(a: Receiver, b: Receiver)
    requires a.Valid() && b.Valid() && multiset(a.arrivals) == multiset(b.arrivals)
    requires InRange(a.arrivals) && Regular(a.arrivals)
    ensures a.packetCount == b.packetCount && a.cntError == b.cntError
  {
    hide Highest, Missing;
    SameMissing(a.arrivals, b.arrivals);
    SameKind(a.arrivals, b.arrivals);
  }

  lemma SameKind(a: seq<nat>, b: seq<nat>)
    requires multiset(a) == multiset(b) && InRange(a) && Regular(a)
    ensures InRange(b) && Regular(b)
  {
    forall i | 0 <= i < |b| ensures b[i] < INT64_LIMIT && b[i] != 0 {
      assert b[i] in multiset(b);
      assert b[i] in a;
    }
    forall i, j | 0 <= i < j < |b| ensures b[i] != b[j] {
      if b[i] == b[j] {
        Twice(b, i, j);
        Once(a, b[i]);
      }
    }
  }

  lemma Twice(b: seq<nat>, i: nat, j: nat)
    requires i < j < |b| && b[i] == b[j]
    ensures multiset(b)[b[i]] >= 2
  {
    assert b == b[..i] + [b[i]] + b[i + 1..j] + [b[j]] + b[j + 1..];
  }

  lemma {:induction false} Once(a: seq<nat>, x: nat)
    requires Distinct(a)
    ensures multiset(a)[x] <= 1
  {
    if a != [] {
      var n := |a| - 1;
      assert a == a[..n] + [a[n]];
      Once(a[..n], x);
      if x == a[n] { assert x !in a[..n]; }
    }
  }
}
