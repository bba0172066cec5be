/** A stream's byte and packet counters while a worker adds to them and a reporter samples
    them, in any interleaving. */
module IntervalStats {

  /** What one report says of one stream: its own share, and for datagrams the totals it
      sampled. */
  datatype Interval = Interval(
    bytes: nat, packetCount: int, outOfOrder: int, cntError: int,
    intervalPackets: int, intervalOutOfOrder: int, intervalErrors: int)

  datatype Option<T> = None | Some(value: T)

  function Bytes(history: seq<Interval>): nat {
    if history == [] then 0 else Bytes(history[..|history| - 1]) + history[|history| - 1].bytes
  }

  function Packets(history: seq<Interval>): int {
    if history == [] then 0 else Packets(history[..|history| - 1]) + history[|history| - 1].intervalPackets
  }

  function Reordered(history: seq<Interval>): int {
    if history == [] then 0 else Reordered(history[..|history| - 1]) + history[|history| - 1].intervalOutOfOrder
  }

  function Errors(history: seq<Interval>): int {
    if history == [] then 0 else Errors(history[..|history| - 1]) + history[|history| - 1].intervalErrors
  }

  lemma HistoryMore(history: seq<Interval>, i: Interval)
    ensures Bytes(history + [i]) == Bytes(history) + i.bytes
    ensures Packets(history + [i]) == Packets(history) + i.intervalPackets
    ensures Reordered(history + [i]) == Reordered(history) + i.intervalOutOfOrder
    ensures Errors(history + [i]) == Errors(history) + i.intervalErrors
  {
    assert (history + [i])[..|history|] == history;
  }

  class StreamResult {
    /** Bytes in all, and bytes since the last report. */
    var total: nat
    var thisInterval: nat
    /** The only report that is kept. */
    var last: Option<Interval>

    /** Bytes the worker has added to the total and not yet to the interval. */
    ghost var inFlight: nat
    /** Every report there was. */
    ghost var history: seq<Interval>

    /** Nothing is lost or counted twice at any point between two atomic operations. */
    ghost predicate Valid()
      reads this
    {
      && total == Bytes(history) + thisInterval + inFlight
      && last == (if history == [] then None else Some(history[|history| - 1]))
      && (last.Some? ==>
            && Packets(history) == last.value.packetCount
            && Reordered(history) == last.value.outOfOrder
            && Errors(history) == last.value.cntError)
    }

    constructor ()
      ensures Valid() && total == 0 && history == []
    {
      total, thisInterval, last, inFlight, history := 0, 0, None, 0, [];
    }

    /** The worker's first addition for a block of `r` bytes. */
    method AddTotal(r: nat)
      requires Valid() && inFlight == 0
      modifies this`total, this`inFlight
      ensures Valid() && total == old(total) + r && inFlight == r
    {
      total := total + r;
      inFlight := r;
    }

    /** The worker's second addition for the same block. */
    method AddInterval(r: nat)
      requires Valid() && inFlight == r
      modifies this`thisInterval, this`inFlight
      ensures Valid() && thisInterval == old(thisInterval) + r && inFlight == 0
    {
      thisInterval := thisInterval + r;
      inFlight := 0;
    }

    /** The reporter takes the interval's bytes and samples the worker's totals. Only this
        report is kept, yet the reports add up. */
    method Report(packetCount: int, outOfOrder: int, cntError: int) returns (r: Interval)
      requires Valid()
      modifies this`thisInterval, this`last, this`history
      ensures Valid() && history == old(history) + [r] && thisInterval == 0
      ensures r == Interval(old(thisInterval), packetCount, outOfOrder, cntError,
                            packetCount - if old(last).Some? then old(last).value.packetCount else 0,
                            outOfOrder - if old(last).Some? then old(last).value.outOfOrder else 0,
                            cntError - if old(last).Some? then old(last).value.cntError else 0)
      ensures Packets(history) == packetCount && Reordered(history) == outOfOrder && Errors(history) == cntError
      ensures Bytes(history) + inFlight == total
    {
      var bytes := thisInterval;
      thisInterval := 0;
      var p, o, e := 0, 0, 0;
      if last.Some? { p, o, e := last.value.packetCount, last.value.outOfOrder, last.value.cntError; }
      r := Interval(bytes, packetCount, outOfOrder, cntError, packetCount - p, outOfOrder - o, cntError - e);
      HistoryMore(history, r);
      history := history + [r];
      last := Some(r);
    }
  }

  // ---- Any interleaving ----

  /** One atomic step of the worker or the reporter. */
  datatype Step = Total(r: nat) | ThisInterval | Sample(packetCount: int, outOfOrder: int, cntError: int)

  /** The worker is between the two additions for a block. */
  predicate Busy(steps: seq<Step>) {
    steps != [] &&
    match steps[|steps| - 1]
    case Total(_) => true
    case ThisInterval => false
    case Sample(_, _, _) => Busy(steps[..|steps| - 1])
  }

  /** The worker finishes a block before it starts the next. */
  predicate Alternates(steps: seq<Step>) {
    steps == [] ||
    (Alternates(steps[..|steps| - 1]) &&
     match steps[|steps| - 1]
     case Total(_) => !Busy(steps[..|steps| - 1])
     case ThisInterval => Busy(steps[..|steps| - 1])
     case Sample(_, _, _) => true)
  }

  /** All the bytes of the blocks started. */
  function Started(steps: seq<Step>): nat {
    if steps == [] then 0
    else Started(steps[..|steps| - 1]) + if steps[|steps| - 1].Total? then steps[|steps| - 1].r else 0
  }

  /** The block that was started and not finished, or nothing. */
  function Unfinished(steps: seq<Step>): nat {
    if steps == [] then 0
    else
      match steps[|steps| - 1]
      case Total(r) => r
      case ThisInterval => 0
      case Sample(_, _, _) => Unfinished(steps[..|steps| - 1])
  }

  /** The blocks finished since the last sample. */
  function Waiting(steps: seq<Step>): nat {
    if steps == [] then 0
    else
      var before := steps[..|steps| - 1];
      match steps[|steps| - 1]
      case Total(_) => Waiting(before)
      case ThisInterval => Waiting(before) + Unfinished(before)
      case Sample(_, _, _) => 0
  }

  function Samples(steps: seq<Step>): nat {
    if steps == [] then 0
    else Samples(steps[..|steps| - 1]) + if steps[|steps| - 1].Sample? then 1 else 0
  }

  /** The last sample taken, or zeros. */
  function LastSample(steps: seq<Step>): (r: Step)
    ensures r.Sample?
  {
    if steps == [] then Sample(0, 0, 0)
    else if steps[|steps| - 1].Sample? then steps[|steps| - 1] else LastSample(steps[..|steps| - 1])
  }

  /** The reports of the samples: each has what was waiting and the differences to the sample
      before it. */
  function Reports(steps: seq<Step>): seq<Interval> {
    if steps == [] then []
    else
      var before := steps[..|steps| - 1];
      match steps[|steps| - 1]
      case Sample(p, o, e) =>
        var last := LastSample(before);
        Reports(before) + [Interval(Waiting(before), p, o, e,
                                    p - last.packetCount, o - last.outOfOrder, e - last.cntError)]
      case _ => Reports(before)
  }

  /** There is a last report exactly when there was a sample, and it shows that sample. */
  lemma {:induction false} LastReport(steps: seq<Step>)
    ensures |Reports(steps)| == Samples(steps)
    ensures var rs, last := Reports(steps), LastSample(steps);
            if rs == [] then last == Sample(0, 0, 0)
            else var r := rs[|rs| - 1];
                 last == Sample(r.packetCount, r.outOfOrder, r.cntError)
  {
    if steps != [] { LastReport(steps[..|steps| - 1]); }
  }

  /** Bytes are conserved by the steps themselves: what was started is what was reported,
      what waits for the next report, and the one block in flight. */
  lemma {:induction false} Conserved(steps: seq<Step>)
    requires Alternates(steps)
    ensures Started(steps) == Bytes(Reports(steps)) + Waiting(steps) + Unfinished(steps)
    ensures !Busy(steps) ==> Unfinished(steps) == 0
  {
    if steps != [] {
      var before := steps[..|steps| - 1];
      Conserved(before);
      if steps[|steps| - 1].Sample? { HistoryMore(Reports(before), Reports(steps)[|Reports(before)|]); }
    }
  }

  /** Per-report counts telescope to the last sample. */
  lemma {:induction false} Telescopes(steps: seq<Step>)
    ensures Packets(Reports(steps)) == LastSample(steps).packetCount
    ensures Reordered(Reports(steps)) == LastSample(steps).outOfOrder
    ensures Errors(Reports(steps)) == LastSample(steps).cntError
  {
    if steps != [] {
      var before := steps[..|steps| - 1];
      Telescopes(before);
      if steps[|steps| - 1].Sample? { HistoryMore(Reports(before), Reports(steps)[|Reports(before)|]); }
    }
  }

  lemma {:induction false} AlternatesFront(steps: seq<Step>, k: nat)
    requires Alternates(steps) && k <= |steps|
    ensures Alternates(steps[..k])
  {
    if k < |steps| {
      AlternatesFront(steps[..|steps| - 1], k);
      assert steps[..|steps| - 1][..k] == steps[..k];
    } else {
      assert steps[..k] == steps;
    }
  }

  /** Runs any interleaving. The counters end as the steps say: the total is every block
      started, one block at most is in flight, what waits is what was finished since the last
      sample, and the reports are those of the samples. */
  method Interleave(steps: seq<Step>) returns (s: StreamResult)
    requires Alternates(steps)
    ensures fresh(s) && s.Valid()
    ensures s.total == Started(steps) && s.inFlight == Unfinished(steps) && s.thisInterval == Waiting(steps)
    ensures s.history == Reports(steps) && |s.history| == Samples(steps)
    ensures Packets(s.history) == LastSample(steps).packetCount
    ensures Reordered(s.history) == LastSample(steps).outOfOrder
    ensures Errors(s.history) == LastSample(steps).cntError
    ensures s.total == Bytes(s.history) + s.thisInterval + s.inFlight
  {
    hide Bytes, Packets, Reordered, Errors;
    s := new StreamResult();
    var i, block := 0, 0;
    while i < |steps|
      invariant i <= |steps| && s.Valid() && fresh(s) && Alternates(steps[..i])
      invariant s.total == Started(steps[..i]) && s.inFlight == Unfinished(steps[..i])
      invariant s.thisInterval == Waiting(steps[..i]) && s.history == Reports(steps[..i])
      invariant if Busy(steps[..i]) then block == s.inFlight else s.inFlight == 0
    {
      AlternatesFront(steps, i + 1);
      LastReport(steps[..i]);
      ghost var now := steps[..i + 1];
      assert now[..i] == steps[..i] && now[i] == steps[i];
      match steps[i] {
        case Total(r) =>
          s.AddTotal(r);
          block := r;
        case ThisInterval =>
          s.AddInterval(block);
        case Sample(p, o, e) =>
          var report := s.Report(p, o, e);
      }
      i := i + 1;
    }
    assert steps[..i] == steps;
    LastReport(steps);
    Telescopes(steps);
  }
}
