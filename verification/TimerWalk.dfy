/** The run over a timer list on values: who fires when, and where everyone is afterwards. */
module TimerWalk {

  /** A timer in the list: when it is due, and the period after which it repeats. */
  datatype Entry<T> = Entry(timer: T, due: nat, period: nat, periodic: bool)

  predicate InOrder<T>(list: seq<Entry<T>>) {
    forall i, j :: 0 <= i < j < |list| ==> list[i].due <= list[j].due
  }

  ghost predicate Apart<T>(list: seq<Entry<T>>) {
    forall i, j :: 0 <= i < j < |list| ==> list[i].timer != list[j].timer
  }

  /** A period of zero would keep a timer late for ever. */
  predicate Positive<T>(list: seq<Entry<T>>) {
    forall i :: 0 <= i < |list| && list[i].periodic ==> 1 <= list[i].period
  }

  /** How many entries from the front on are due no later. */
  function PlaceFor<T>(list: seq<Entry<T>>, due: nat): (k: nat)
    ensures k <= |list|
    ensures forall i :: 0 <= i < k ==> list[i].due <= due
    ensures k < |list| ==> due < list[k].due
  {
    if list == [] || due < list[0].due then 0 else 1 + PlaceFor(list[1..], due)
  }

  function Without<T>(list: seq<Entry<T>>, k: nat): (r: seq<Entry<T>>)
    requires k < |list|
    ensures |r| == |list| - 1
  {
    list[..k] + list[k + 1..]
  }

  function With<T>(list: seq<Entry<T>>, e: Entry<T>, j: nat): (r: seq<Entry<T>>)
    requires j <= |list|
    ensures |r| == |list| + 1
  {
    list[..j] + [e] + list[j..]
  }

  function Later<T>(e: Entry<T>): Entry<T> { e.(due := e.due + e.period) }

  /** The list after the firing of the entry at `k`, and where the entry that followed it is. */
  datatype Fired<T> = Fired(list: seq<Entry<T>>, next: nat)

  /** Everything in front is due no later, everything behind later. */
  lemma {:induction false} PlaceUnique<T>(list: seq<Entry<T>>, due: nat, j: nat)
    requires j <= |list| && (forall i :: 0 <= i < j ==> list[i].due <= due)
    requires forall i :: j <= i < |list| ==> due < list[i].due
    ensures PlaceFor(list, due) == j
  {
    if j > 0 { PlaceUnique(list[1..], due, j - 1); }
  }

  function FireAt<T>(list: seq<Entry<T>>, k: nat): (r: Fired<T>)
    requires k < |list|
    ensures r.next <= |r.list|
  {
    var rest := Without(list, k);
    if !list[k].periodic then Fired(rest, k)
    else
      var e := Later(list[k]);
      var j := PlaceFor(rest, e.due);
      Fired(With(rest, e, j), if j <= k then k + 1 else k)
  }

  // ---- It ends ----

  /** How late an entry is: never zero while it is due. */
  function LateBy<T>(e: Entry<T>, now: nat): nat { if e.due <= now then now - e.due + 1 else 0 }

  function Lateness<T>(list: seq<Entry<T>>, now: nat): nat {
    if list == [] then 0 else LateBy(list[0], now) + Lateness(list[1..], now)
  }

  lemma {:induction false} LatenessParts<T>(a: seq<Entry<T>>, b: seq<Entry<T>>, now: nat)
    ensures Lateness(a + b, now) == Lateness(a, now) + Lateness(b, now)
  {
    if a == [] {
      assert a + b == b;
    } else {
      assert (a + b)[1..] == a[1..] + b;
      LatenessParts(a[1..], b, now);
    }
  }

  lemma LatenessOne<T>(e: Entry<T>, now: nat)
    ensures Lateness([e], now) == LateBy(e, now)
  {
    assert [e][1..] == [];
  }

  lemma LatenessWithout<T>(list: seq<Entry<T>>, k: nat, now: nat)
    requires k < |list|
    ensures Lateness(list, now) == Lateness(Without(list, k), now) + LateBy(list[k], now)
  {
    hide Lateness;
    assert list == list[..k] + ([list[k]] + list[k + 1..]);
    LatenessParts(list[..k], [list[k]] + list[k + 1..], now);
    LatenessParts([list[k]], list[k + 1..], now);
    LatenessParts(list[..k], list[k + 1..], now);
    LatenessOne(list[k], now);
  }

  lemma LatenessWith<T>(list: seq<Entry<T>>, e: Entry<T>, j: nat, now: nat)
    requires j <= |list|
    ensures Lateness(With(list, e, j), now) == Lateness(list, now) + LateBy(e, now)
  {
    hide Lateness;
    LatenessParts(list[..j] + [e], list[j..], now);
    LatenessParts(list[..j], [e], now);
    LatenessOne(e, now);
    LatenessParts(list[..j], list[j..], now);
    assert list[..j] + list[j..] == list;
  }

  lemma FireCatchesUp<T>(list: seq<Entry<T>>, k: nat, now: nat)
    requires k < |list| && list[k].due <= now && Positive(list)
    ensures Lateness(FireAt(list, k).list, now) < Lateness(list, now) && Positive(FireAt(list, k).list)
  {
    hide Lateness, With, Without, Positive;
    LatenessWithout(list, k, now);
    PositiveWithout(list, k);
    if list[k].periodic {
      var rest, e := Without(list, k), Later(list[k]);
      LatenessWith(rest, e, PlaceFor(rest, e.due), now);
      PositiveWith(rest, e, PlaceFor(rest, e.due));
    }
  }

  lemma PositiveWithout<T>(list: seq<Entry<T>>, k: nat)
    requires k < |list| && Positive(list)
    ensures Positive(Without(list, k)) && (list[k].periodic ==> 1 <= list[k].period)
  {
  }

  lemma PositiveWith<T>(list: seq<Entry<T>>, e: Entry<T>, j: nat)
    requires j <= |list| && Positive(list) && (e.periodic ==> 1 <= e.period)
    ensures Positive(With(list, e, j))
  {
  }

  // ---- The walk ----

  /** The list at the end, and the entries that fired, each as it was then. */
  datatype Walked<T> = Walked(list: seq<Entry<T>>, fired: seq<Entry<T>>)

  /** From the entry at `k` on: fires what is due and goes on with the entry that followed it,
      wherever that is now, until one is not due or there is none. */
  function Walk<T>(list: seq<Entry<T>>, k: nat, now: nat): Walked<T>
    requires k <= |list| && Positive(list)
    decreases Lateness(list, now)
  {
    if k == |list| || now < list[k].due then Walked(list, [])
    else
      var f := FireAt(list, k);
      FireCatchesUp(list, k, now);
      var w := Walk(f.list, f.next, now);
      Walked(w.list, [list[k]] + w.fired)
  }

  /** A walk that goes on after these firings. */
  function Onward<T>(fired: seq<Entry<T>>, w: Walked<T>): Walked<T> { Walked(w.list, fired + w.fired) }

  /** One step of the walk, on its own. */
  lemma WalkOn<T>(list: seq<Entry<T>>, k: nat, now: nat, fired: seq<Entry<T>>)
    requires k < |list| && list[k].due <= now && Positive(list) && Positive(FireAt(list, k).list)
    ensures Onward(fired, Walk(list, k, now))
         == Onward(fired + [list[k]], Walk(FireAt(list, k).list, FireAt(list, k).next, now))
  {
    hide FireAt, Lateness;
    var rest := Walk(FireAt(list, k).list, FireAt(list, k).next, now).fired;
    assert fired + ([list[k]] + rest) == fired + [list[k]] + rest;
  }

  lemma WalkStops<T>(list: seq<Entry<T>>, k: nat, now: nat, fired: seq<Entry<T>>)
    requires k <= |list| && Positive(list) && (k == |list| || now < list[k].due)
    ensures Onward(fired, Walk(list, k, now)) == Walked(list, fired)
  {
    assert fired + [] == fired;
  }

  lemma WalkStarts<T>(list: seq<Entry<T>>, now: nat)
    requires Positive(list)
    ensures Onward([], Walk(list, 0, now)) == Walk(list, 0, now)
  {
    hide Walk;
    assert [] + Walk(list, 0, now).fired == Walk(list, 0, now).fired;
  }

  ghost function Times<T>(fired: seq<Entry<T>>, t: T): nat {
    if fired == [] then 0 else (if fired[0].timer == t then 1 else 0) + Times(fired[1..], t)
  }

  // ---- One firing ----

  /** Where an entry is after the firing of another. */
  function Moved<T>(list: seq<Entry<T>>, k: nat, i: nat): nat
    requires k < |list| && i < |list|
  {
    var r := if i <= k then i else i - 1;
    if !list[k].periodic then r
    else
      var j := PlaceFor(Without(list, k), Later(list[k]).due);
      if i == k then j else if r < j then r else r + 1
  }

  lemma WithoutAt<T>(list: seq<Entry<T>>, k: nat, i: nat)
    requires k < |list| && i < |list| - 1
    ensures Without(list, k)[i] == if i < k then list[i] else list[i + 1]
  {
  }

  lemma WithAt<T>(list: seq<Entry<T>>, e: Entry<T>, j: nat, i: nat)
    requires j <= |list| && i <= |list|
    ensures With(list, e, j)[i] == if i < j then list[i] else if i == j then e else list[i - 1]
  {
  }

  lemma WithoutKeeps<T>(list: seq<Entry<T>>, k: nat)
    requires k < |list| && InOrder(list) && Apart(list)
    ensures InOrder(Without(list, k)) && Apart(Without(list, k))
    ensures forall i :: 0 <= i < |list| - 1 ==> Without(list, k)[i].timer != list[k].timer
  {
    hide Without;
    var r := Without(list, k);
    forall i, j | 0 <= i < j < |r| ensures r[i].due <= r[j].due && r[i].timer != r[j].timer {
      WithoutAt(list, k, i);
      WithoutAt(list, k, j);
    }
    forall i | 0 <= i < |r| ensures r[i].timer != list[k].timer { WithoutAt(list, k, i); }
  }

  lemma WithKeeps<T>(list: seq<Entry<T>>, e: Entry<T>)
    requires InOrder(list) && Apart(list) && forall i :: 0 <= i < |list| ==> list[i].timer != e.timer
    ensures InOrder(With(list, e, PlaceFor(list, e.due))) && Apart(With(list, e, PlaceFor(list, e.due)))
  {
    hide With, PlaceFor;
    var k := PlaceFor(list, e.due);
    var r := With(list, e, k);
    forall i, j | 0 <= i < j < |r| ensures r[i].due <= r[j].due && r[i].timer != r[j].timer {
      WithAt(list, e, k, i);
      WithAt(list, e, k, j);
      if j > k { assert list[k].due <= list[j - 1].due; }
    }
  }

  lemma FrontStays<T>(list: seq<Entry<T>>, k: nat)
    requires k < |list| && InOrder(list)
    ensures k <= PlaceFor(Without(list, k), Later(list[k]).due)
  {
    forall i | 0 <= i < k ensures Without(list, k)[i].due <= list[k].due { WithoutAt(list, k, i); }
  }

  /** A firing keeps the order and changes no entry but the one that fired; what was passed
      stays passed and what is to come stays to come. */
  lemma FireMoves<T>(list: seq<Entry<T>>, k: nat, i: nat)
    requires k < |list| && i < |list| && InOrder(list)
    ensures var f := FireAt(list, k);
            && (i != k || list[k].periodic ==>
                  && Moved(list, k, i) < |f.list|
                  && f.list[Moved(list, k, i)] == if i == k then Later(list[k]) else list[i])
            && (i < k ==> Moved(list, k, i) < f.next)
            && (k < i ==> f.next <= Moved(list, k, i))
  {
    hide With, Without, PlaceFor, InOrder;
    FrontStays(list, k);
    var rest, r := Without(list, k), if i < k then i else i - 1;
    if i != k { WithoutAt(list, k, r); }
    if list[k].periodic {
      var e := Later(list[k]);
      WithAt(rest, e, PlaceFor(rest, e.due), Moved(list, k, i));
    }
  }

  lemma FireKeeps<T>(list: seq<Entry<T>>, k: nat)
    requires k < |list| && InOrder(list) && Apart(list)
    ensures InOrder(FireAt(list, k).list) && Apart(FireAt(list, k).list)
  {
    hide With, Without, PlaceFor, InOrder, Apart;
    WithoutKeeps(list, k);
    if list[k].periodic { WithKeeps(Without(list, k), Later(list[k])); }
  }

  /** The walk goes on with the entry that followed. */
  lemma FireGoesOn<T>(list: seq<Entry<T>>, k: nat)
    requires k < |list| && InOrder(list)
    ensures var f := FireAt(list, k);
            && (f.next == |f.list| <==> k + 1 == |list|)
            && (k + 1 < |list| ==> f.list[f.next] == list[k + 1])
  {
    FrontStays(list, k);
  }

  // ---- What the walk does ----

  /** A timer that is not in the list does not fire and does not come in. */
  lemma {:induction false} StaysOut<T>(list: seq<Entry<T>>, k: nat, now: nat, t: T)
    requires k <= |list| && Positive(list) && forall i :: 0 <= i < |list| ==> list[i].timer != t
    ensures var w := Walk(list, k, now);
            Times(w.fired, t) == 0 && forall i :: 0 <= i < |w.list| ==> w.list[i].timer != t
    decreases Lateness(list, now)
  {
    hide FireAt, Lateness;
    if k < |list| && list[k].due <= now {
      var f := FireAt(list, k);
      FireCatchesUp(list, k, now);
      FireBringsNone(list, k, t);
      StaysOut(f.list, f.next, now, t);
      assert ([list[k]] + Walk(f.list, f.next, now).fired)[1..] == Walk(f.list, f.next, now).fired;
    }
  }

  lemma FireBringsNone<T>(list: seq<Entry<T>>, k: nat, t: T)
    requires k < |list| && forall i :: 0 <= i < |list| ==> list[i].timer != t
    ensures forall i :: 0 <= i < |FireAt(list, k).list| ==> FireAt(list, k).list[i].timer != t
  {
    hide With, Without, PlaceFor;
    var f, rest, e := FireAt(list, k), Without(list, k), Later(list[k]);
    forall i | 0 <= i < |rest| ensures rest[i].timer != t { WithoutAt(list, k, i); }
    forall i | 0 <= i < |f.list| ensures f.list[i].timer != t {
      if list[k].periodic { WithAt(rest, e, PlaceFor(rest, e.due), i); }
    }
  }

  /** How the timer of an entry fares in a run of `n` firings of its own. */
  ghost predicate Fares<T>(e: Entry<T>, n: nat, list: seq<Entry<T>>, now: nat) {
    if e.periodic || n == 0 then
      && e.(due := e.due + n * e.period) in list
      && (n > 0 ==> e.due + n * e.period <= now + e.period)
    else n == 1 && forall i :: 0 <= i < |list| ==> list[i].timer != e.timer
  }

  lemma FaresLater<T>(e: Entry<T>, n: nat, list: seq<Entry<T>>, now: nat)
    requires e.periodic && e.due <= now && Fares(Later(e), n, list, now)
    ensures Fares(e, n + 1, list, now)
  {
    assert (n + 1) * e.period == n * e.period + e.period;
  }

  /** An entry the walk has passed is left alone. Any other fires exactly if it is due: a
      one-shot timer once, and leaves; a periodic one moves a period on each time, and was due
      each time. */
  lemma {:induction false} WalkTells<T>(list: seq<Entry<T>>, k: nat, now: nat, i: nat)
    requires k <= |list| && i < |list| && Positive(list) && InOrder(list) && Apart(list)
    ensures var w := Walk(list, k, now);
            var n := Times(w.fired, list[i].timer);
            Fares(list[i], n, w.list, now) && (n > 0 <==> k <= i && list[i].due <= now)
    decreases Lateness(list, now)
  {
    hide Fares, Lateness, FireAt, Moved, InOrder, Apart;
    if k == |list| || now < list[k].due {
      LeftAlone(list, i, now);
      if k <= i { DueLater(list, k, i); }
    } else {
      var f := FireAt(list, k);
      FireCatchesUp(list, k, now);
      var w := Walk(f.list, f.next, now);
      FireKeeps(list, k);
      FireMoves(list, k, i);
      assert ([list[k]] + w.fired)[1..] == w.fired;
      if i != k || list[k].periodic {
        WalkTells(f.list, f.next, now, Moved(list, k, i));
        SameTimer(list, k, i);
        if i == k { FaresLater(list[k], Times(w.fired, list[k].timer), w.list, now); }
      } else {
        Leaves(list, k);
        StaysOut(f.list, f.next, now, list[k].timer);
        HasLeft(list[k], w.list, now);
      }
    }
  }

  lemma LeftAlone<T>(list: seq<Entry<T>>, i: nat, now: nat)
    requires i < |list|
    ensures Fares(list[i], 0, list, now)
  {
    assert list[i].(due := list[i].due + 0 * list[i].period) == list[i];
  }

  lemma DueLater<T>(list: seq<Entry<T>>, k: nat, i: nat)
    requires k <= i < |list| && InOrder(list)
    ensures list[k].due <= list[i].due
  {
  }

  lemma SameTimer<T>(list: seq<Entry<T>>, k: nat, i: nat)
    requires k < |list| && i < |list| && Apart(list)
    ensures list[k].timer == list[i].timer <==> i == k
  {
  }

  lemma Leaves<T>(list: seq<Entry<T>>, k: nat)
    requires k < |list| && Apart(list) && !list[k].periodic
    ensures forall i :: 0 <= i < |FireAt(list, k).list| ==> FireAt(list, k).list[i].timer != list[k].timer
  {
  }

  lemma HasLeft<T>(e: Entry<T>, list: seq<Entry<T>>, now: nat)
    requires !e.periodic && forall i :: 0 <= i < |list| ==> list[i].timer != e.timer
    ensures Fares(e, 1, list, now)
  {
  }

  /** Timers fire in the order in which they are due, and none twice in a row: before a late
      periodic timer fires again another must. */
  lemma {:induction false} FiresInOrder<T>(list: seq<Entry<T>>, k: nat, now: nat)
    requires k <= |list| && Positive(list) && InOrder(list) && Apart(list)
    ensures var fired := Walk(list, k, now).fired;
            && InOrder(fired) && (fired != [] <==> k < |list| && list[k].due <= now)
            && (fired != [] ==> fired[0] == list[k])
            && forall i :: 0 <= i < |fired| - 1 ==> fired[i].timer != fired[i + 1].timer
    decreases Lateness(list, now)
  {
    if k < |list| && list[k].due <= now {
      hide Lateness, FireAt;
      var f := FireAt(list, k);
      FireCatchesUp(list, k, now);
      FireKeeps(list, k);
      FireGoesOn(list, k);
      FiresInOrder(f.list, f.next, now);
      var rest := Walk(f.list, f.next, now).fired;
      FirstThenRest(list[k], rest);
    }
  }

  lemma FirstThenRest<T>(e: Entry<T>, rest: seq<Entry<T>>)
    requires InOrder(rest) && (rest != [] ==> e.due <= rest[0].due && e.timer != rest[0].timer)
    requires forall i :: 0 <= i < |rest| - 1 ==> rest[i].timer != rest[i + 1].timer
    ensures var fired := [e] + rest;
            InOrder(fired) && forall i :: 0 <= i < |fired| - 1 ==> fired[i].timer != fired[i + 1].timer
  {
    var fired := [e] + rest;
    forall i, j | 0 <= i < j < |fired| ensures fired[i].due <= fired[j].due {
      assert fired[j] == rest[j - 1];
      if i > 0 { assert fired[i] == rest[i - 1]; } else { assert rest[0].due <= rest[j - 1].due; }
    }
    forall i | 0 <= i < |fired| - 1 ensures fired[i].timer != fired[i + 1].timer {
      if i > 0 { assert fired[i] == rest[i - 1] && fired[i + 1] == rest[i]; }
    }
  }

  /** A timer alone in the list fires once however late it is: it does not catch up. */
  lemma AloneFiresOnce<T>(e: Entry<T>, now: nat)
    requires e.due <= now && (e.periodic ==> 1 <= e.period)
    ensures Walk([e], 0, now) == Walked(if e.periodic then [Later(e)] else [], [e])
  {
    var list := [e];
    var f := FireAt(list, 0);
    FireCatchesUp(list, 0, now);
    assert Without(list, 0) == [];
    assert f.list == if e.periodic then [Later(e)] else [];
    FireGoesOn(list, 0);
    assert Walk(f.list, f.next, now) == Walked(f.list, []);
    assert [e] + [] == [e];
  }

  lemma {:induction false} TimesIsIn<T>(fired: seq<Entry<T>>, t: T)
    ensures 0 < Times(fired, t) <==> exists i :: 0 <= i < |fired| && fired[i].timer == t
  {
    if fired != [] {
      TimesIsIn(fired[1..], t);
      if i: int :| 0 <= i < |fired[1..]| && fired[1..][i].timer == t { assert fired[i + 1].timer == t; }
      if i: int :| 0 <= i < |fired| && fired[i].timer == t {
        assert i == 0 || fired[1..][i - 1].timer == t;
      }
    }
  }
}
