/** The timer list: an intrusive, doubly linked list sorted by expiry, with a list of free
    timers, and the run loop that reschedules while it walks. */
module Timers {
  import opened TimerWalk

  // ---- Times ----

  const MILLION: nat := 1000000
  const SECS_MODULUS: nat := 0x1_0000_0000

  /** Seconds, a 32-bit field in the engine, and microseconds. */
  datatype Time = Time(secs: nat, usecs: nat)

  predicate Normal(t: Time) { t.secs < SECS_MODULUS && t.usecs < MILLION }

  function InUsecs(t: Time): nat { t.secs * MILLION + t.usecs }

  function AddUsecs(t: Time, usecs: nat): Time {
    var total := t.usecs + usecs;
    Time((t.secs + total / MILLION) % SECS_MODULUS, total % MILLION)
  }

  /** Adding is addition until the seconds wrap around. */
  lemma AddIsPlus(t: Time, usecs: nat)
    requires Normal(t)
    ensures Normal(AddUsecs(t, usecs))
    ensures InUsecs(t) + usecs < SECS_MODULUS * MILLION ==> InUsecs(AddUsecs(t, usecs)) == InUsecs(t) + usecs
  {
    var total := t.usecs + usecs;
    assert total == total / MILLION * MILLION + total % MILLION;
  }

  /** -1, 0 or 1 as `a` is earlier than, equal to or later than `b`. */
  function Compare(a: Time, b: Time): int {
    if a.secs < b.secs then -1 else if a.secs > b.secs then 1
    else if a.usecs < b.usecs then -1 else if a.usecs > b.usecs then 1 else 0
  }

  lemma CompareIsOrder(a: Time, b: Time)
    requires Normal(a) && Normal(b)
    ensures Compare(a, b) < 0 <==> InUsecs(a) < InUsecs(b)
    ensures Compare(a, b) == 0 <==> InUsecs(a) == InUsecs(b)
  {
    if a.secs < b.secs {
      assert a.secs * MILLION + MILLION <= b.secs * MILLION;
    } else if a.secs > b.secs {
      assert b.secs * MILLION + MILLION <= a.secs * MILLION;
    }
  }

  /** The distance between two times, and whether the first is not later. */
  function Diff(a: Time, b: Time): (bool, Time)
    requires Normal(a) && Normal(b)
  {
    var c := Compare(a, b);
    if c == 0 then (true, Time(0, 0))
    else if c > 0 then (false, Less(a, b))
    else (true, Less(b, a))
  }

  /** `a` minus `b`, borrowing a second where needed. */
  function Less(a: Time, b: Time): Time
    requires Normal(a) && Normal(b) && Compare(a, b) > 0
  {
    if a.usecs < b.usecs then Time(a.secs - b.secs - 1, a.usecs + MILLION - b.usecs)
    else Time(a.secs - b.secs, a.usecs - b.usecs)
  }

  lemma DiffIsDistance(a: Time, b: Time)
    requires Normal(a) && Normal(b)
    ensures Diff(a, b).0 <==> InUsecs(a) <= InUsecs(b)
    ensures InUsecs(Diff(a, b).1)
         == if InUsecs(a) <= InUsecs(b) then InUsecs(b) - InUsecs(a) else InUsecs(a) - InUsecs(b)
  {
    CompareIsOrder(a, b);
    CompareIsOrder(b, a);
  }

  // ---- Timers ----

  class Timer {
    var usecs: nat
    var periodic: bool
    var time: Time
    var prev: Timer?
    var next: Timer?
  }

  predicate Distinct(s: seq<Timer>) {
    forall i, j :: 0 <= i < j < |s| ==> s[i] != s[j]
  }

  /** The timer at `i`, or none outside the list. */
  function At(s: seq<Timer>, i: int): Timer? {
    if 0 <= i < |s| then s[i] else null
  }

  ghost predicate Linked(s: seq<Timer>, h: Timer?)
    reads s`next, s`prev
  {
    h == At(s, 0) && forall i :: 0 <= i < |s| ==> s[i].next == At(s, i + 1) && s[i].prev == At(s, i - 1)
  }

  /** The free list has no back links. */
  ghost predicate Chained(s: seq<Timer>, h: Timer?)
    reads s`next
  {
    h == At(s, 0) && forall i :: 0 <= i < |s| ==> s[i].next == At(s, i + 1)
  }

  ghost function Due(t: Timer): nat
    reads t`time
  {
    InUsecs(t.time)
  }

  ghost predicate Sorted(s: seq<Timer>)
    reads s`time
  {
    && (forall i :: 0 <= i < |s| ==> Normal(s[i].time))
    && (forall i, j :: 0 <= i < j < |s| ==> Due(s[i]) <= Due(s[j]))
  }

  /** `s` with `t` put in at `k`. */
  function Inserted(s: seq<Timer>, t: Timer, k: nat): seq<Timer>
    requires k <= |s|
  {
    s[..k] + [t] + s[k..]
  }

  lemma InsertedAt(s: seq<Timer>, t: Timer, k: nat, i: int)
    requires k <= |s|
    ensures |Inserted(s, t, k)| == |s| + 1
    ensures At(Inserted(s, t, k), i) == if i < k then At(s, i) else if i == k then t else At(s, i - 1)
  {
  }

  function Removed(s: seq<Timer>, k: nat): seq<Timer>
    requires k < |s|
  {
    s[..k] + s[k + 1..]
  }

  /** `k` is behind everything due no later than `t`, and before everything due later. */
  ghost predicate Place(s: seq<Timer>, t: Timer, k: nat)
    reads s`time, t`time
  {
    && k <= |s|
    && (forall i :: 0 <= i < k ==> Due(s[i]) <= Due(t))
    && (forall i :: k <= i < |s| ==> Due(t) < Due(s[i]))
  }

  /** A timer as it stands in the list. */
  ghost function EntryOf(t: Timer): Entry<Timer>
    reads t`time, t`usecs, t`periodic
  {
    Entry(t, Due(t), t.usecs, t.periodic)
  }

  ghost function Entries(s: seq<Timer>): (r: seq<Entry<Timer>>)
    reads s`time, s`usecs, s`periodic
    ensures |r| == |s| && forall i :: 0 <= i < |s| ==> r[i] == EntryOf(s[i])
  {
    if s == [] then [] else [EntryOf(s[0])] + Entries(s[1..])
  }

  /** The free list after these firings: a one-shot timer goes to its front. */
  function FreedBy(fired: seq<Entry<Timer>>, free: seq<Timer>): seq<Timer> {
    if fired == [] then free
    else
      var e := fired[|fired| - 1];
      (if e.periodic then [] else [e.timer]) + FreedBy(fired[..|fired| - 1], free)
  }

  /** A period is positive, and a step of one from `now` on does not wrap. */
  predicate Steps(e: Entry<Timer>, now: nat) {
    e.periodic ==> 1 <= e.period && now + e.period < SECS_MODULUS * MILLION
  }

  predicate AllStep(list: seq<Entry<Timer>>, now: nat) {
    forall i :: 0 <= i < |list| ==> Steps(list[i], now)
  }

  class TimerList {
    var timers: Timer?
    var freeTimers: Timer?
    /** The active timers in list order, and the free ones. */
    ghost var active: seq<Timer>
    ghost var free: seq<Timer>

    ghost predicate Valid()
      reads this, active, free
    {
      && Distinct(active) && Distinct(free)
      && (forall x :: x in active ==> x !in free)
      && Linked(active, timers) && Chained(free, freeTimers)
      && Sorted(active)
    }

    /** Links `t` in between two neighbours, either of which may be missing. */
    method Splice(t: Timer, before: Timer?, after: Timer?, ghost k: nat)
      requires Distinct(active) && Linked(active, timers) && t !in active && k <= |active|
      requires before == At(active, k - 1) && after == At(active, k)
      modifies this`timers, this`active, active`prev, active`next, t`prev, t`next
      ensures active == Inserted(old(active), t, k) && Linked(active, timers)
    {
      hide Inserted, Linked, Distinct, At;
      ghost var was := active;
      Links(was, timers);
      t.prev, t.next := before, after;
      LinkNext(t, before, k);
      LinkPrev(t, after, k);
      active := Inserted(was, t, k);
      InsertedAt(was, t, k, 0);
      PutIn(was, t, k, timers);
    }

    /** Makes `t` the successor of what stands before `k`, or the first. */
    method LinkNext(t: Timer, before: Timer?, ghost k: nat)
      requires Distinct(active) && t !in active && k <= |active| && before == At(active, k - 1)
      requires timers == At(active, 0) && forall i :: 0 <= i < |active| ==> active[i].next == At(active, i + 1)
      modifies this`timers, active`next
      ensures timers == if k == 0 then t else At(active, 0)
      ensures forall i :: 0 <= i < |active| ==> active[i].next == if i == k - 1 then t else At(active, i + 1)
    {
      if before == null { timers := t; } else { before.next := t; }
    }

    /** Makes `t` the predecessor of what stands at `k`. */
    method LinkPrev(t: Timer, after: Timer?, ghost k: nat)
      requires Distinct(active) && t !in active && k <= |active| && after == At(active, k)
      requires forall i :: 0 <= i < |active| ==> active[i].prev == At(active, i - 1)
      modifies active`prev
      ensures forall i :: 0 <= i < |active| ==> active[i].prev == if i == k then t else At(active, i - 1)
    {
      if after != null { after.prev := t; }
    }

    /** Walks to the place behind every timer due no later than `t`. */
    method FindPlace(t: Timer) returns (before: Timer?, after: Timer?, ghost k: nat)
      requires Linked(active, timers) && Sorted(active) && Normal(t.time)
      ensures k <= |active| && before == At(active, k - 1) && after == At(active, k)
      ensures Place(active, t, k)
    {
      hide Linked, Sorted, Place;
      if timers == null {
        FirstOf(active, timers);
        PlaceIs(active, t, 0);
        return null, null, 0;
      }
      FirstOf(active, timers);
      NormalAt(active, 0);
      CompareIsOrder(t.time, timers.time);
      if Compare(t.time, timers.time) < 0 {
        PlaceIs(active, t, 0);
        return null, timers, 0;
      }
      NextOf(active, timers, 0);
      before, after, k := timers, timers.next, 1;
      while after != null
        invariant 1 <= k <= |active| && before == active[k - 1] && after == At(active, k)
        invariant Due(active[k - 1]) <= Due(t)
        decreases |active| - k
      {
        NormalAt(active, k);
        CompareIsOrder(t.time, after.time);
        if Compare(t.time, after.time) < 0 { break; }
        NextOf(active, timers, k);
        before, after := after, after.next;
        k := k + 1;
      }
      PlaceIs(active, t, k);
    }

    /** Inserts a timer behind all that are due no later. */
    method ListAdd(t: Timer) returns (ghost k: nat)
      requires Valid() && t !in active && t !in free && Normal(t.time)
      modifies this`timers, this`active, active`prev, active`next, t`prev, t`next
      ensures Valid() && k <= |old(active)| && active == Inserted(old(active), t, k) && Place(old(active), t, k)
    {
      hide Linked, Sorted, Distinct, Inserted, At;
      var before, after;
      before, after, k := FindPlace(t);
      Splice(t, before, after, k);
      InsertedKeeps(old(active), t, k);
      forall i | 0 <= i < |free| ensures free[i].next == old(free[i].next) {
        assert free[i] in free;
      }
    }

    /** Links the neighbours of the timer at `k` to each other. */
    method Unlink(t: Timer, ghost k: nat)
      requires Distinct(active) && Linked(active, timers) && k < |active| && active[k] == t
      modifies this`timers, this`active, active`prev, active`next
      ensures active == Removed(old(active), k) && Linked(active, timers)
    {
      ghost var was := active;
      var before, after := t.prev, t.next;
      assert before == At(was, k - 1) && after == At(was, k + 1);
      if before == null { timers := after; } else { before.next := after; }
      assert forall i :: 0 <= i < |was| && i != k - 1 ==> was[i].next == At(was, i + 1);
      if after != null { after.prev := before; }
      assert forall i :: 0 <= i < |was| && i != k + 1 ==> was[i].prev == At(was, i - 1);
      active := Removed(was, k);
      RemovedAt(was, k, 0);
      CutOut(was, k, timers);
    }

    /** Takes the timer at `k` out of the list. */
    method ListRemove(t: Timer, ghost k: nat)
      requires Valid() && k < |active| && active[k] == t
      modifies this`timers, this`active, active`prev, active`next
      ensures Valid() && active == Removed(old(active), k) && t !in active && t !in free
    {
      hide Linked, Sorted, Distinct, Removed, At;
      assert t in active;
      Unlink(t, k);
      RemovedKeeps(old(active), k);
      forall i | 0 <= i < |free| ensures free[i].next == old(free[i].next) {
        assert free[i] in free;
      }
    }

    /** Puts a timer whose time has changed back where it belongs. */
    method ListResort(t: Timer, ghost k: nat) returns (ghost j: nat)
      requires Distinct(active) && Distinct(free) && (forall x :: x in active ==> x !in free)
      requires Linked(active, timers) && Chained(free, freeTimers)
      requires k < |active| && active[k] == t && Sorted(Removed(active, k)) && Normal(t.time)
      modifies this`timers, this`active, active`prev, active`next
      ensures Valid() && j <= |Removed(old(active), k)|
      ensures active == Inserted(Removed(old(active), k), t, j) && Place(Removed(old(active), k), t, j)
    {
      hide Linked, Distinct, Removed, Inserted, At;
      assert t in active;
      ghost var was := active;
      Unlink(t, k);
      RemovedDistinct(was, k);
      forall i | 0 <= i < |free| ensures free[i].next == old(free[i].next) {
        assert free[i] in free;
      }
      forall i | 0 <= i < |active| ensures active[i] in was { assert active[i] in active; }
      j := ListAdd(t);
    }

    lemma NoneFree()
      requires Valid()
      ensures freeTimers == null <==> free == []
    {
    }

    /** Takes the first free timer. */
    method PopFree() returns (t: Timer)
      requires Valid() && freeTimers != null
      modifies this`free, this`freeTimers
      ensures Valid() && old(free) != [] && t == old(free)[0] && free == old(free)[1..]
      ensures t !in free && t !in active
    {
      hide Linked, Sorted;
      t := freeTimers;
      assert t in free;
      freeTimers := t.next;
      free := free[1..];
    }

    /** A timer that expires `usecs` after `now`, taken from the free list if there is one. */
    method Create(now: Time, usecs: nat, periodic: bool, alloc: bool) returns (t: Timer?, ghost k: nat)
      requires Valid() && Normal(now)
      modifies this, active`prev, active`next, free
      ensures Valid()
      ensures t == null <==> old(free) == [] && !alloc
      ensures t == null ==> active == old(active) && free == old(free)
      ensures t != null ==>
                && (if old(free) == [] then fresh(t) && free == [] else t == old(free)[0] && free == old(free)[1..])
                && k <= |old(active)| && active == Inserted(old(active), t, k) && Place(old(active), t, k)
                && t.time == AddUsecs(now, usecs) && t.usecs == usecs && t.periodic == periodic
      ensures t != null && InUsecs(now) + usecs < SECS_MODULUS * MILLION ==> Due(t) == InUsecs(now) + usecs
    {
      hide Linked, Chained, Sorted, Inserted, Place, Distinct;
      k := 0;
      NoneFree();
      AddIsPlus(now, usecs);
      var timer: Timer;
      if freeTimers != null {
        timer := PopFree();
      } else {
        if !alloc { return null, 0; }
        timer := new Timer;
      }
      timer.usecs, timer.periodic, timer.time := usecs, periodic, AddUsecs(now, usecs);
      k := ListAdd(timer);
      t := timer;
    }

    /** Puts an unlinked timer in front of the free ones. */
    method PushFree(t: Timer)
      requires Chained(free, freeTimers) && Distinct(free) && Linked(active, timers) && t !in free && t !in active
      modifies this`free, this`freeTimers, t`next, t`prev
      ensures free == [t] + old(free) && Chained(free, freeTimers) && Distinct(free) && Linked(active, timers)
    {
      t.next := freeTimers;
      freeTimers := t;
      t.prev := null;
      free := [t] + free;
      assert forall i :: 0 < i < |free| ==> free[i] == old(free)[i - 1];
    }

    /** Takes the timer at `k` out of the list and puts it in front of the free ones. */
    method Cancel(t: Timer, ghost k: nat)
      requires Valid() && k < |active| && active[k] == t
      modifies this, active`prev, active`next
      ensures Valid() && active == Removed(old(active), k) && free == [t] + old(free)
    {
      hide Linked, Chained, Distinct, Removed, At;
      ListRemove(t, k);
      PushFree(t);
    }

    /** Restarts the timer at `k` from `now`. */
    method Reset(now: Time, t: Timer, ghost k: nat) returns (ghost j: nat)
      requires Valid() && Normal(now) && k < |active| && active[k] == t
      modifies this`timers, this`active, active`prev, active`next, t`time
      ensures Valid() && t.time == AddUsecs(now, t.usecs)
      ensures j <= |Removed(old(active), k)| && active == Inserted(Removed(old(active), k), t, j)
      ensures Place(Removed(old(active), k), t, j)
    {
      hide Linked, Chained, Removed, Inserted, Place;
      AddIsPlus(now, t.usecs);
      RemovedKeeps(active, k);
      t.time := AddUsecs(now, t.usecs);
      j := ListResort(t, k);
    }

    /** How long until the first timer expires: nothing without timers, zero if it is late. */
    method Timeout(now: Time) returns (some: bool, secs: nat, usecs: nat)
      requires Valid() && Normal(now)
      ensures some <==> active != []
      ensures some ==> usecs < MILLION
      ensures some ==> forall i :: 0 <= i < |active| ==> secs * MILLION + usecs <= Remaining(active[i], now)
      ensures some ==> secs * MILLION + usecs == Remaining(active[0], now)
    {
      some, secs, usecs := false, 0, 0;
      if timers == null { return; }
      var d := Diff(timers.time, now);
      DiffIsDistance(timers.time, now);
      var wait := if d.0 then 0 else InUsecs(d.1);
      some, secs, usecs := true, wait / MILLION, wait % MILLION;
      assert secs * MILLION + usecs == wait;
    }

    /** Moves the periodic timer at `k` one period on. */
    method Reschedule(t: Timer, ghost k: nat) returns (ghost j: nat)
      requires Valid() && k < |active| && active[k] == t && Due(t) + t.usecs < SECS_MODULUS * MILLION
      modifies this`timers, this`active, active`prev, active`next, t`time
      ensures Valid() && Due(t) == old(Due(t)) + t.usecs
      ensures j <= |Removed(old(active), k)| && active == Inserted(Removed(old(active), k), t, j)
      ensures Place(Removed(old(active), k), t, j)
    {
      hide Linked, Chained, Place, Inserted, Removed;
      ghost var was := active;
      assert t in was;
      RemovedKeeps(was, k);
      AddIsPlus(t.time, t.usecs);
      t.time := AddUsecs(t.time, t.usecs);
      j := ListResort(t, k);
    }

    /** Fires the due timer at `k`: a periodic one moves one period on, a one-shot timer goes
        to the free list. The timer after it is then at `k1`. */
    method Fire(t: Timer, now: Time, ghost k: nat) returns (ghost k1: nat)
      requires Valid() && k < |active| && active[k] == t && Due(t) <= InUsecs(now)
      requires t.periodic ==> InUsecs(now) + t.usecs < SECS_MODULUS * MILLION
      modifies this, active`prev, active`next, t`time
      ensures Valid() && Fired(Entries(active), k1) == FireAt(old(Entries(active)), k)
      ensures At(active, k1) == At(old(active), k + 1)
      ensures forall x :: x in active <==> x in old(active) && (x != t || t.periodic)
      ensures free == (if t.periodic then [] else [t]) + old(free)
      ensures Due(t) == old(Due(t)) + if t.periodic then t.usecs else 0
      ensures !t.periodic ==> t.time == old(t.time)
    {
      hide Linked, Chained, Sorted, Removed, Inserted, Place, FireAt, Entries;
      ghost var was, list := active, Entries(active);
      RemovedAt(was, k, k);
      if t.periodic {
        ghost var j := Reschedule(t, k);
        k1 := if j <= k then k + 1 else k;
        InsertedAt(Removed(was, k), t, j, k1);
        InsertedMembers(Removed(was, k), t, j);
        MovedEntries(was, list, k, t, j);
      } else {
        Cancel(t, k);
        k1 := k;
        GoneEntries(was, list, k);
      }
      RemovedMembers(was, k);
    }

    lemma Reached(k: nat, all: seq<Timer>)
      requires Valid() && k < |active| && forall x :: x in active ==> x in all
      ensures Normal(active[k].time) && active[k].next == At(active, k + 1) && active[k] in active
      ensures Entries(active)[k] == EntryOf(active[k])
      ensures forall i :: 0 <= i < |active| ==> active[i] in all
    {
      forall i | 0 <= i < |active| ensures active[i] in all { assert active[i] in active; }
    }

    lemma Listed()
      requires Valid()
      ensures timers == At(active, 0) && InOrder(Entries(active)) && Apart(Entries(active))
      ensures forall x :: x in active ==> x !in free
    {
      hide Chained;
    }

    /** The loop of the run: the list ends as the walk over its entries says. */
    method Sweep(now: Time) returns (ghost fired: seq<Entry<Timer>>)
      requires Valid() && Normal(now) && AllStep(Entries(active), InUsecs(now))
      modifies this, active`prev, active`next, active`time
      ensures Valid() && AllStep(Entries(active), InUsecs(now))
      ensures Walked(Entries(active), fired) == Walk(old(Entries(active)), 0, InUsecs(now))
      ensures free == FreedBy(fired, old(free))
      ensures forall x :: x in active ==> x in old(active)
      ensures forall x :: x in old(active) && !x.periodic ==> x.time == old(x.time)
      ensures forall e :: e in fired ==> e.timer in old(active) && e.periodic == e.timer.periodic
    {
      hide Valid, Walk, FireAt, Lateness, Entries, FreedBy;
      ghost var k: nat, list, all, idle := 0, Entries(active), active, free;
      fired := [];
      Listed();
      StepsArePositive(list, InUsecs(now));
      WalkStarts(list, InUsecs(now));
      NoneFreed(idle);
      var t := timers;
      while t != null
        invariant Valid() && k <= |active| && t == At(active, k) && AllStep(Entries(active), InUsecs(now))
        invariant Walk(list, 0, InUsecs(now)) == Onward(fired, Walk(Entries(active), k, InUsecs(now)))
        invariant free == FreedBy(fired, idle)
        invariant forall x :: x in active ==> x in all
        invariant forall x :: x in all && !x.periodic ==> x.time == old(x.time)
        invariant forall e :: e in fired ==> e.timer in all && e.periodic == e.timer.periodic
        decreases Lateness(Entries(active), InUsecs(now))
      {
        Reached(k, all);
        var next := t.next;
        CompareIsOrder(t.time, now);
        CompareIsOrder(now, t.time);
        if Compare(t.time, now) > 0 { break; }
        ghost var was, here := Entries(active), EntryOf(t);
        StepsArePositive(was, InUsecs(now));
        FireCatchesUp(was, k, InUsecs(now));
        WalkOn(was, k, InUsecs(now), fired);
        FireSteps(was, k, InUsecs(now));
        k := Fire(t, now, k);
        FreedMore(fired, here, idle);
        fired := fired + [here];
        t := next;
      }
      StepsArePositive(Entries(active), InUsecs(now));
      WalkStops(Entries(active), k, InUsecs(now), fired);
    }

    /** Runs the timers that are due at `now`; their callbacks leave the list alone. The list
        ends as the walk over its entries says, and `fired` tells who fired, in order. So a
        timer fires if it was due, a one-shot once and is then free, and a periodic one moves
        one period for each firing. */
    method Run(now: Time) returns (ghost fired: seq<Entry<Timer>>)
      requires Valid() && Normal(now) && AllStep(Entries(active), InUsecs(now))
      modifies this, active`prev, active`next, active`time
      ensures Valid()
      ensures Walked(Entries(active), fired) == Walk(old(Entries(active)), 0, InUsecs(now))
      ensures free == FreedBy(fired, old(free))
      ensures forall i :: 0 <= i < |old(active)| ==>
                (var t, n := old(active)[i], Times(fired, old(active)[i]);
                 && (n > 0 <==> old(Due(active[i])) <= InUsecs(now))
                 && Stands(t, old(Due(active[i])), n, now)
                 && (t in active <==> t.periodic || n == 0)
                 && (t in free <==> !t.periodic && n > 0))
      ensures forall x :: x in active ==> x in old(active)
      ensures forall x :: x in free <==>
                x in old(free) || (x in old(active) && !x.periodic && old(Due(x)) <= InUsecs(now))
    {
      hide Valid, Stands, Walk, FreedBy, Times, InOrder, TimerWalk.Apart, AllStep, Positive;
      ghost var list, all, idle := Entries(active), active, free;
      Listed();
      StepsArePositive(list, InUsecs(now));
      fired := Sweep(now);
      forall i | 0 <= i < |all|
        ensures var t, n := all[i], Times(fired, all[i]);
                && (n > 0 <==> list[i].due <= InUsecs(now)) && Stands(t, list[i].due, n, now)
                && (t in active <==> t.periodic || n == 0) && (t in free <==> !t.periodic && n > 0)
      {
        assert all[i] in all;
        Tells(list, fired, now, idle, all, i);
      }
      forall x | x in free && x !in idle ensures x in all {
        FreedHas(fired, idle, x);
      }
      forall x | x in idle ensures x in free { FreedHas(fired, idle, x); }
    }

    /** What the walk says of a timer, said of the timer itself. */
    lemma Tells(list: seq<Entry<Timer>>, fired: seq<Entry<Timer>>, now: Time, idle: seq<Timer>, all: seq<Timer>, i: nat)
      requires AllStep(list, InUsecs(now)) && Positive(list) && InOrder(list) && Apart(list)
      requires |list| == |all| && i < |all| && list[i].timer == all[i] && all[i] !in idle
      requires list[i].period == all[i].usecs && list[i].periodic == all[i].periodic
      requires !all[i].periodic ==> Due(all[i]) == list[i].due
      requires Walk(list, 0, InUsecs(now)) == Walked(Entries(active), fired) && free == FreedBy(fired, idle)
      requires forall e :: e in fired ==> e.periodic == e.timer.periodic
      ensures var t, n := all[i], Times(fired, all[i]);
              && (n > 0 <==> list[i].due <= InUsecs(now)) && Stands(t, list[i].due, n, now)
              && (t in active <==> t.periodic || n == 0) && (t in free <==> !t.periodic && n > 0)
    {
      hide Walk, Entries, FreedBy, Times, InOrder, Apart;
      WalkTells(list, 0, InUsecs(now), i);
      FreedHas(fired, idle, all[i]);
      TimesIsIn(fired, all[i]);
      InEntries(active, all[i]);
    }
  }

  lemma InEntries(s: seq<Timer>, t: Timer)
    ensures t in s <==> exists i :: 0 <= i < |s| && Entries(s)[i].timer == t
    ensures forall e :: e in Entries(s) && e.timer == t ==> e == EntryOf(t)
  {
    hide Entries;
    var list := Entries(s);
    if t in s {
      var i :| 0 <= i < |s| && s[i] == t;
      assert list[i].timer == t;
    }
    forall i | 0 <= i < |s| && list[i].timer == t ensures t in s && list[i] == EntryOf(t) {
      assert list[i] == EntryOf(s[i]);
    }
  }

  lemma StepsArePositive(list: seq<Entry<Timer>>, now: nat)
    requires AllStep(list, now)
    ensures Positive(list)
  {
  }

  lemma FireSteps(list: seq<Entry<Timer>>, k: nat, now: nat)
    requires k < |list| && AllStep(list, now)
    ensures AllStep(FireAt(list, k).list, now)
  {
    hide With, Without, PlaceFor;
    var f, rest, e := FireAt(list, k), Without(list, k), Later(list[k]);
    forall i | 0 <= i < |rest| ensures Steps(rest[i], now) { WithoutAt(list, k, i); }
    forall i | 0 <= i < |f.list| ensures Steps(f.list[i], now) {
      if list[k].periodic { WithAt(rest, e, PlaceFor(rest, e.due), i); }
    }
  }

  lemma NoneFreed(free: seq<Timer>)
    ensures FreedBy([], free) == free
  {
  }

  lemma FreedMore(fired: seq<Entry<Timer>>, e: Entry<Timer>, free: seq<Timer>)
    ensures FreedBy(fired + [e], free) == (if e.periodic then [] else [e.timer]) + FreedBy(fired, free)
  {
    assert (fired + [e])[..|fired|] == fired;
  }

  lemma {:induction false} FreedHas(fired: seq<Entry<Timer>>, free: seq<Timer>, t: Timer)
    ensures t in FreedBy(fired, free) <==> t in free || Freed(fired, t)
  {
    if fired != [] {
      var n := |fired| - 1;
      var e := fired[n];
      FreedHas(fired[..n], free, t);
      assert Freed(fired, t) <==> Freed(fired[..n], t) || (e.timer == t && !e.periodic) by {
        if i: int :| 0 <= i < |fired| && fired[i].timer == t && !fired[i].periodic {
          assert i == n || fired[..n][i] == fired[i];
        }
        if i: int :| 0 <= i < n && fired[..n][i].timer == t && !fired[..n][i].periodic {
          assert fired[i] == fired[..n][i];
        }
      }
      var rest := FreedBy(fired[..n], free);
      assert t in [e.timer] + rest <==> t == e.timer || t in rest;
      assert [] + rest == rest;
    }
  }

  /** A one-shot firing of that timer. */
  predicate Freed(fired: seq<Entry<Timer>>, t: Timer) {
    exists i :: 0 <= i < |fired| && fired[i].timer == t && !fired[i].periodic
  }

  /** The entries once the timer at `k` has moved to `j`. */
  lemma MovedEntries(was: seq<Timer>, list: seq<Entry<Timer>>, k: nat, t: Timer, j: nat)
    requires k < |was| == |list| && was[k] == t && list[k].periodic && EntryOf(t) == Later(list[k])
    requires forall i :: 0 <= i < |was| && i != k ==> list[i] == EntryOf(was[i])
    requires Place(Removed(was, k), t, j)
    ensures j <= |was| - 1
    ensures FireAt(list, k) == Fired(Entries(Inserted(Removed(was, k), t, j)), if j <= k then k + 1 else k)
  {
    hide Entries, Without, With, PlaceFor;
    var rest, without := Removed(was, k), Without(list, k);
    forall i | 0 <= i < |rest| ensures without[i] == EntryOf(rest[i]) { WithoutAt(list, k, i); }
    PlaceUnique(without, Due(t), j);
    var r := Inserted(rest, t, j);
    forall i | 0 <= i < |r| ensures Entries(r)[i] == With(without, Later(list[k]), j)[i] {
      WithAt(without, Later(list[k]), j, i);
    }
  }

  lemma GoneEntries(was: seq<Timer>, list: seq<Entry<Timer>>, k: nat)
    requires k < |was| == |list| && !list[k].periodic
    requires forall i :: 0 <= i < |was| ==> list[i] == EntryOf(was[i])
    ensures FireAt(list, k) == Fired(Entries(Removed(was, k)), k)
  {
    hide Entries, Without;
    var rest := Removed(was, k);
    forall i | 0 <= i < |rest| ensures Entries(rest)[i] == Without(list, k)[i] { WithoutAt(list, k, i); }
  }

  /** After `n` firings: a periodic timer is due `n` periods later than at first, and each
      time it fired it was due; a one-shot timer keeps its time and fires at most once. */
  ghost predicate Stands(t: Timer, due: nat, n: nat, now: Time)
    reads t`time, t`periodic, t`usecs
  {
    && (n > 0 ==> due <= InUsecs(now))
    && (t.periodic ==> Due(t) == due + n * t.usecs && (n > 0 ==> Due(t) <= InUsecs(now) + t.usecs))
    && (!t.periodic ==> Due(t) == due && n <= 1)
  }

  /** Microseconds until a timer expires, none if it is late. */
  ghost function Remaining(t: Timer, now: Time): nat
    reads t`time
  {
    if Due(t) <= InUsecs(now) then 0 else Due(t) - InUsecs(now)
  }

  lemma Links(s: seq<Timer>, h: Timer?)
    requires Linked(s, h)
    ensures h == At(s, 0)
    ensures forall i :: 0 <= i < |s| ==> s[i].next == At(s, i + 1)
    ensures forall i :: 0 <= i < |s| ==> s[i].prev == At(s, i - 1)
  {
  }

  /** A list whose links step onto the timer `t` at `k`. */
  lemma PutIn(s: seq<Timer>, t: Timer, k: nat, h: Timer?)
    requires k <= |s| && h == At(Inserted(s, t, k), 0) && t.prev == At(s, k - 1) && t.next == At(s, k)
    requires forall i :: 0 <= i < |s| ==> s[i].next == if i == k - 1 then t else At(s, i + 1)
    requires forall i :: 0 <= i < |s| ==> s[i].prev == if i == k then t else At(s, i - 1)
    ensures Linked(Inserted(s, t, k), h)
  {
    hide Inserted, At;
    var r := Inserted(s, t, k);
    InsertedAt(s, t, k, 0);
    forall i | 0 <= i < |r| ensures r[i].next == At(r, i + 1) && r[i].prev == At(r, i - 1) {
      InsertedAt(s, t, k, i);
      InsertedAt(s, t, k, i + 1);
      InsertedAt(s, t, k, i - 1);
      AtIndex(r, i);
      if i < k {
        AtIndex(s, i);
      } else if i > k {
        AtIndex(s, i - 1);
      }
    }
  }

  lemma AtIndex(s: seq<Timer>, i: nat)
    requires i < |s|
    ensures At(s, i) == s[i]
  {
  }

  /** The rest of a list whose links step over the timer at `k`. */
  lemma CutOut(s: seq<Timer>, k: nat, h: Timer?)
    requires k < |s| && h == At(Removed(s, k), 0)
    requires forall i :: 0 <= i < |s| && i != k - 1 ==> s[i].next == At(s, i + 1)
    requires forall i :: 0 <= i < |s| && i != k + 1 ==> s[i].prev == At(s, i - 1)
    requires k > 0 ==> s[k - 1].next == At(s, k + 1)
    requires k + 1 < |s| ==> s[k + 1].prev == At(s, k - 1)
    ensures Linked(Removed(s, k), h)
  {
    hide Removed, At;
    var r := Removed(s, k);
    RemovedAt(s, k, 0);
    forall i | 0 <= i < |r| ensures r[i].next == At(r, i + 1) && r[i].prev == At(r, i - 1) {
      RemovedAt(s, k, i);
      RemovedAt(s, k, i + 1);
      RemovedAt(s, k, i - 1);
      AtIndex(r, i);
      AtIndex(s, if i < k then i else i + 1);
    }
  }

  lemma RemovedDistinct(s: seq<Timer>, k: nat)
    requires k < |s| && Distinct(s)
    ensures Distinct(Removed(s, k)) && s[k] !in Removed(s, k)
    ensures forall x :: x in Removed(s, k) ==> x in s
  {
  }

  lemma RemovedAt(s: seq<Timer>, k: nat, i: int)
    requires k < |s|
    ensures |Removed(s, k)| == |s| - 1
    ensures At(Removed(s, k), i) == if i < k then At(s, i) else At(s, i + 1)
  {
  }

  lemma RemovedKeeps(s: seq<Timer>, k: nat)
    requires k < |s| && Distinct(s) && Sorted(s)
    ensures Distinct(Removed(s, k)) && Sorted(Removed(s, k)) && s[k] !in Removed(s, k)
    ensures forall x :: x in Removed(s, k) ==> x in s
  {
  }

  lemma InsertedKeeps(s: seq<Timer>, t: Timer, k: nat)
    requires k <= |s| && Distinct(s) && t !in s && Sorted(s) && Normal(t.time) && Place(s, t, k)
    ensures Distinct(Inserted(s, t, k)) && Sorted(Inserted(s, t, k))
    ensures forall x :: x in Inserted(s, t, k) <==> x == t || x in s
  {
  }

  lemma RemovedMembers(s: seq<Timer>, k: nat)
    requires k < |s| && Distinct(s)
    ensures k <= |Removed(s, k)| && Removed(s, k)[..k] == s[..k]
    ensures forall x :: x in Removed(s, k) <==> x in s && x != s[k]
  {
    assert s == s[..k] + [s[k]] + s[k + 1..];
  }

  lemma InsertedMembers(s: seq<Timer>, t: Timer, j: nat)
    requires j <= |s|
    ensures forall x :: x in Inserted(s, t, j) <==> x == t || x in s
  {
    assert s == s[..j] + s[j..];
  }

  lemma FirstOf(s: seq<Timer>, h: Timer?)
    requires Linked(s, h)
    ensures h == At(s, 0)
  {
  }

  lemma NextOf(s: seq<Timer>, h: Timer?, i: nat)
    requires Linked(s, h) && i < |s|
    ensures s[i].next == At(s, i + 1)
  {
  }

  lemma NormalAt(s: seq<Timer>, i: nat)
    requires Sorted(s) && i < |s|
    ensures Normal(s[i].time)
  {
  }

  /** In a sorted list the neighbours tell the place. */
  lemma PlaceIs(s: seq<Timer>, t: Timer, k: nat)
    requires Sorted(s) && k <= |s|
    requires k > 0 ==> Due(s[k - 1]) <= Due(t)
    requires k < |s| ==> Due(t) < Due(s[k])
    ensures Place(s, t, k)
  {
    hide Due;
    forall i | 0 <= i < k ensures Due(s[i]) <= Due(t) {
      assert i == k - 1 || Due(s[i]) <= Due(s[k - 1]);
    }
    forall i | k <= i < |s| ensures Due(t) < Due(s[i]) {
      assert i == k || Due(s[k]) <= Due(s[i]);
    }
  }
}
