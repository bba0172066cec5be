/** The status a server sends with its output, and how the client merges it with what it
    received. */
module PeerStatus {
  import opened Utf8
  import opened Scan
  import opened Tree
  import opened Collector

  const VERSION: Bytes := [118, 101, 114, 115, 105, 111, 110]
  const STATE: Bytes := [115, 116, 97, 116, 101]
  const FORMAT: Bytes := [102, 111, 114, 109, 97, 116]
  const REASON: Bytes := [114, 101, 97, 115, 111, 110]
  const OBSERVED: Bytes := [111, 98, 115, 101, 114, 118, 101, 100, 95, 98, 121, 116, 101, 115]

  const KEYS: seq<Bytes> := [VERSION, STATE, FORMAT, REASON, OBSERVED]

  /** The largest integer up to which every integer is a double. */
  const SAFE_INTEGER: nat := 9007199254740991

  function StateNumber(s: OutputState): nat {
    match s case Missing => 0 case Complete => 1 case Truncated => 2 case Discarded => 3 case Invalid => 4
  }

  function FormatNumber(f: Format): nat {
    match f case NoFormat => 0 case TextFormat => 1 case JsonFormat => 2
  }

  function ReasonNumber(r: Reason): nat {
    match r
    case NoReason => 0 case ByteLimit => 1 case NodeLimit => 2 case DepthLimit => 3
    case InvalidData => 4 case AllocationFailure => 5 case ReadFailure => 6
  }

  function StateOf(n: int): OutputState {
    if n == 1 then Complete else if n == 2 then Truncated else if n == 3 then Discarded
    else if n == 4 then Invalid else Missing
  }

  function FormatOf(n: int): Format {
    if n == 1 then TextFormat else if n == 2 then JsonFormat else NoFormat
  }

  function ReasonOf(n: int): Reason {
    if n == 1 then ByteLimit else if n == 2 then NodeLimit else if n == 3 then DepthLimit
    else if n == 4 then InvalidData else if n == 5 then AllocationFailure
    else if n == 6 then ReadFailure else NoReason
  }

  // ---- Numbers ----

  /** What a number token is read as. */
  datatype Double = Finite(value: real) | Infinite(negative: bool)

  const INT64_MAX: int := 0x7FFF_FFFF_FFFF_FFFF
  const INT64_MIN: int := -0x8000_0000_0000_0000

  function Truncate(r: real): int {
    if r < 0.0 then -((-r).Floor) else r.Floor
  }

  /** The integer view of a number item, saturated to 64 bits. */
  function ValueInt(d: Double): int {
    match d
    case Infinite(negative) => if negative then INT64_MIN else INT64_MAX
    case Finite(r) =>
      if r >= INT64_MAX as real then INT64_MAX
      else if r <= INT64_MIN as real then INT64_MIN
      else Truncate(r)
  }

  /** A number item that is an integer from `lo` to `hi`. */
  function Integer(num: Bytes -> Double, item: Option<Tree>, lo: int, hi: int): Option<int> {
    if item.None? || !item.value.TNum? || !num(item.value.tok).Finite? then None
    else
      var r := num(item.value.tok).value;
      if r == r.Floor as real && lo <= r.Floor <= hi then Some(r.Floor) else None
  }

  // ---- Looking a member up ----

  function Find(kids: TKids, name: Bytes): Option<Tree> {
    match kids
    case TNil => None
    case TCons(key, val, next) => if key == name then Some(val) else Find(next, name)
  }

  /** The first member of that name; only objects have named children. */
  function Lookup(item: Tree, name: Bytes): Option<Tree> {
    if item.TComp? && item.obj then Find(item.kids, name) else None
  }

  function Count(kids: TKids, name: Bytes): nat {
    match kids
    case TNil => 0
    case TCons(key, _, next) => (if key == name then 1 else 0) + Count(next, name)
  }

  /** `val` is the `i`-th member and has that name. */
  predicate MemberAt(kids: TKids, i: nat, name: Bytes, val: Tree)
    decreases kids
  {
    kids.TCons? && if i == 0 then kids.key == name && kids.val == val else MemberAt(kids.next, i - 1, name, val)
  }

  /** The first member of exactly that name is found, and nothing exactly if there is none. */
  lemma {:induction false} FindIsFirst(kids: TKids, name: Bytes) returns (i: nat)
    ensures Find(kids, name).None? <==> Count(kids, name) == 0
    ensures Find(kids, name).Some? ==> MemberAt(kids, i, name, Find(kids, name).value)
    ensures forall j, v :: 0 <= j < i ==> !MemberAt(kids, j, name, v)
    decreases kids
  {
    i := 0;
    if kids.TCons? && kids.key != name {
      i := FindIsFirst(kids.next, name);
      i := i + 1;
    }
  }

  // ---- What a status claims ----

  datatype Claim = Claim(state: OutputState, format: Format, reason: Reason, observed: Option<int>)

  /** State, format and reason that can go together. */
  predicate Consistent(c: Claim) {
    match c.state
    case Complete => c.reason == NoReason
    case Truncated => c.format == TextFormat && c.reason == ByteLimit
    case _ => c.reason != NoReason
  }

  /** The claim of a well-formed status object: version 1, each known field at most once,
      every number an integer in range. */
  function ClaimOf(num: Bytes -> Double, status: Tree): Option<Claim> {
    var state := Integer(num, Lookup(status, STATE), 1, 4);
    var format := Integer(num, Lookup(status, FORMAT), 1, 2);
    var reason := Integer(num, Lookup(status, REASON), 0, 6);
    if !status.TComp? || !status.obj || Integer(num, Lookup(status, VERSION), 1, 1).None?
       || state.None? || format.None? || reason.None?
       || exists i :: 0 <= i < |KEYS| && 2 <= Count(status.kids, KEYS[i])
    then None
    else
      var c := Claim(StateOf(state.value), FormatOf(format.value), ReasonOf(reason.value),
                     Integer(num, Lookup(status, OBSERVED), 0, SAFE_INTEGER));
      if Consistent(c) then Some(c) else None
  }

  /** The claim can be about what was received. */
  predicate Agrees(o: Output, c: Claim) {
    && (o.format == NoFormat || o.format == c.format)
    && (o.state == Missing ==> c.state in {Discarded, Invalid})
  }

  function Adopted(o: Output, c: Claim): Output {
    var o1 := if o.state != Invalid && c.state in {Discarded, Invalid} then Dropped(o, c.reason).(state := c.state)
              else if o.state == Complete && c.state == Truncated then o.(state := Truncated, reason := c.reason)
              else o;
    var o2 := o1.(format := c.format, observedComplete := false);
    if c.observed.Some? && c.observed.value >= o.observed
    then o2.(observed := c.observed.value, observedComplete := true) else o2
  }

  /** The client's record after the peer's status, if there is one. */
  function Merged(num: Bytes -> Double, o: Output, results: Tree): Output {
    var status := Lookup(results, STATUS);
    if status.None? then o
    else
      var c := ClaimOf(num, status.value);
      if c.None? || !Agrees(o, c.value) then Dropped(o, InvalidData) else Adopted(o, c.value)
  }

  /** Peer metadata can only worsen a state: the order is complete, truncated, discarded,
      invalid. It never adds or changes a byte. */
  lemma PeerNeverImproves(num: Bytes -> Double, o: Output, results: Tree)
    ensures var r := Merged(num, o, results);
            && StateNumber(o.state) <= StateNumber(r.state)
            && (r.value == o.value || r.value == None)
            && (r.state == Complete ==> o.state == Complete && r.value == o.value)
            && (o.state == Missing ==> r.state in {Missing, Discarded, Invalid})
            && (Lookup(results, STATUS).None? ==> r == o)
  {
    hide Integer, Lookup, Count;
  }

  // ---- The merge over the numbers of a status ----

  /** The member of that name is the number `n`. */
  predicate Holds(num: Bytes -> Double, status: Tree, name: Bytes, n: int) {
    var item := Lookup(status, name);
    item.Some? && item.value.TNum? && num(item.value.tok) == Finite(n as real)
  }

  /** It is a whole number from `lo` to `hi`. */
  ghost predicate Within(num: Bytes -> Double, status: Tree, name: Bytes, lo: int, hi: int) {
    exists n :: lo <= n <= hi && Holds(num, status, name, n)
  }

  /** The received output is dropped as invalid. */
  predicate Refused(o: Output, r: Output) {
    r == o.(value := None, state := Invalid, reason := InvalidData)
  }

  lemma IntegerHolds(num: Bytes -> Double, status: Tree, name: Bytes, lo: int, hi: int, n: int)
    ensures Integer(num, Lookup(status, name), lo, hi) == Some(n) <==> lo <= n <= hi && Holds(num, status, name, n)
    ensures Integer(num, Lookup(status, name), lo, hi).Some? <==> Within(num, status, name, lo, hi)
    ensures var k := Integer(num, Lookup(status, name), lo, hi);
            k.Some? ==> lo <= k.value <= hi && (Holds(num, status, name, n) ==> k.value == n)
  {
    hide Lookup;
    FloorOf(n);
    var item := Lookup(status, name);
    if Within(num, status, name, lo, hi) {
      var k :| lo <= k <= hi && Holds(num, status, name, k);
      FloorOf(k);
    }
    if Integer(num, item, lo, hi).Some? {
      var k := Integer(num, item, lo, hi).value;
      assert Holds(num, status, name, k);
    }
  }

  /** A status whose shape is wrong: not an object of version 1 with each number once, whole
      and in range. */
  lemma MalformedIsRefused(num: Bytes -> Double, o: Output, results: Tree, status: Tree)
    requires Lookup(results, STATUS) == Some(status)
    ensures var r := Merged(num, o, results);
            && (!(status.TComp? && status.obj) ==> Refused(o, r))
            && (!Holds(num, status, VERSION, 1) ==> Refused(o, r))
            && (!Within(num, status, STATE, 1, 4) ==> Refused(o, r))
            && (!Within(num, status, FORMAT, 1, 2) ==> Refused(o, r))
            && (!Within(num, status, REASON, 0, 6) ==> Refused(o, r))
    ensures forall name :: name in [VERSION, STATE, FORMAT, REASON, OBSERVED] && status.TComp? ==>
              (2 <= Count(status.kids, name) ==> Refused(o, Merged(num, o, results)))
  {
    hide Lookup, Integer, Holds, Within, Count;
    IntegerHolds(num, status, VERSION, 1, 1, 1);
    IntegerHolds(num, status, STATE, 1, 4, 1);
    IntegerHolds(num, status, FORMAT, 1, 2, 1);
    IntegerHolds(num, status, REASON, 0, 6, 1);
    forall name | name in [VERSION, STATE, FORMAT, REASON, OBSERVED] && status.TComp? && 2 <= Count(status.kids, name)
      ensures Refused(o, Merged(num, o, results))
    {
      assert name in KEYS;
    }
  }

  /** State, format and reason that contradict what was received or one another. */
  lemma ContradictionIsRefused(num: Bytes -> Double, o: Output, results: Tree, status: Tree, s: int, f: int, r: int)
    requires Lookup(results, STATUS) == Some(status)
    requires Holds(num, status, STATE, s) && Holds(num, status, FORMAT, f) && Holds(num, status, REASON, r)
    ensures var m := Merged(num, o, results);
            && (o.format == TextFormat && f != 1 ==> Refused(o, m))
            && (o.format == JsonFormat && f != 2 ==> Refused(o, m))
            && (o.state == Missing && s < 3 ==> Refused(o, m))
            && (s == 1 && r != 0 ==> Refused(o, m))
            && (s == 2 && (f != 1 || r != 1) ==> Refused(o, m))
            && (3 <= s && r == 0 ==> Refused(o, m))
  {
    hide Lookup, Integer, Holds, Within, Count;
    IntegerHolds(num, status, STATE, 1, 4, s);
    IntegerHolds(num, status, FORMAT, 1, 2, f);
    IntegerHolds(num, status, REASON, 0, 6, r);
  }

  const REASONS: seq<Reason> :=
    [NoReason, ByteLimit, NodeLimit, DepthLimit, InvalidData, AllocationFailure, ReadFailure]

  /** Every other status is taken over: it can discard, cut short or invalidate what was
      received, and tells the format and, if it is not below what was counted, the length. */
  lemma OtherIsAdopted(num: Bytes -> Double, o: Output, results: Tree, status: Tree, s: int, f: int, r: int)
    requires Lookup(results, STATUS) == Some(status) && status.TComp? && status.obj
    requires Holds(num, status, VERSION, 1) && Holds(num, status, STATE, s) && 1 <= s <= 4
    requires Holds(num, status, FORMAT, f) && 1 <= f <= 2 && Holds(num, status, REASON, r) && 0 <= r <= 6
    requires forall name :: name in [VERSION, STATE, FORMAT, REASON, OBSERVED] ==> Count(status.kids, name) <= 1
    requires (o.format == TextFormat ==> f == 1) && (o.format == JsonFormat ==> f == 2)
    requires o.state == Missing ==> 3 <= s
    requires (s == 1 && r == 0) || (s == 2 && f == 1 && r == 1) || (3 <= s && r != 0)
    ensures var m := Merged(num, o, results);
            && m.format == (if f == 1 then TextFormat else JsonFormat)
            && m.value == (if 3 <= s && o.state != Invalid then None else o.value)
            && m.state == (if o.state == Invalid || s == 4 then Invalid else if s == 3 then Discarded
                           else if s == 2 && o.state == Complete then Truncated else o.state)
            && m.reason == (if 3 <= s && o.state != Invalid then REASONS[r]
                            else if s == 2 && o.state == Complete then ByteLimit else o.reason)
            && (!m.observedComplete ==> m.observed == o.observed)
            && (m.observedComplete <==> Within(num, status, OBSERVED, o.observed, SAFE_INTEGER))
            && (m.observedComplete ==> Holds(num, status, OBSERVED, m.observed))
  {
    hide Lookup, Integer, Holds, Within, Count;
    IntegerHolds(num, status, VERSION, 1, 1, 1);
    IntegerHolds(num, status, STATE, 1, 4, s);
    IntegerHolds(num, status, FORMAT, 1, 2, f);
    IntegerHolds(num, status, REASON, 0, 6, r);
    forall i | 0 <= i < |KEYS| ensures Count(status.kids, KEYS[i]) <= 1 {
      assert KEYS[i] in [VERSION, STATE, FORMAT, REASON, OBSERVED];
    }
    ObservedHolds(num, status, o.observed);
  }

  lemma ObservedHolds(num: Bytes -> Double, status: Tree, least: nat)
    ensures var n := Integer(num, Lookup(status, OBSERVED), 0, SAFE_INTEGER);
            && (n.Some? && least <= n.value <==> Within(num, status, OBSERVED, least, SAFE_INTEGER))
            && (n.Some? ==> Holds(num, status, OBSERVED, n.value))
  {
    hide Lookup, Integer, Holds;
    var n := Integer(num, Lookup(status, OBSERVED), 0, SAFE_INTEGER);
    if n.Some? { IntegerHolds(num, status, OBSERVED, 0, SAFE_INTEGER, n.value); }
    if Within(num, status, OBSERVED, least, SAFE_INTEGER) {
      var k :| least <= k <= SAFE_INTEGER && Holds(num, status, OBSERVED, k);
      IntegerHolds(num, status, OBSERVED, 0, SAFE_INTEGER, k);
    }
  }

  // ---- The merge as it runs ----

  /** Whether a known field occurs twice. */
  method HasDuplicate(kids: TKids) returns (found: bool)
    ensures found <==> exists i :: 0 <= i < |KEYS| && 2 <= Count(kids, KEYS[i])
  {
    hide KEYS;
    var seen: set<nat> := {};
    var child := kids;
    while child.TCons?
      invariant forall i :: 0 <= i < |KEYS| ==>
                  Count(kids, KEYS[i]) == (if i in seen then 1 else 0) + Count(child, KEYS[i])
      decreases child
    {
      var i := 0;
      while i < |KEYS|
        invariant i <= |KEYS|
        invariant forall k :: 0 <= k < i ==>
                    Count(kids, KEYS[k]) == (if k in seen then 1 else 0) + Count(child.next, KEYS[k])
        invariant forall k :: i <= k < |KEYS| ==>
                    Count(kids, KEYS[k]) == (if k in seen then 1 else 0) + Count(child, KEYS[k])
      {
        if child.key == KEYS[i] {
          if i in seen { return true; }
          seen := seen + {i};
        }
        i := i + 1;
      }
      child := child.next;
    }
    found := false;
  }

  lemma FloorOf(v: int)
    ensures (v as real).Floor == v
  {
  }

  /** The integer view of a real is exact and in range exactly for the integers in range. */
  lemma WholeView(r: real, lo: int, hi: int)
    requires INT64_MIN < lo && hi < INT64_MAX
    ensures var v := ValueInt(Finite(r));
            && (r == v as real && lo <= v <= hi <==> r == r.Floor as real && lo <= r.Floor <= hi)
            && (r == v as real ==> v == r.Floor)
  {
    var v := ValueInt(Finite(r));
    FloorOf(v);
    if r == r.Floor as real && lo <= r.Floor <= hi {
      assert -r == (-r.Floor) as real;
      FloorOf(-r.Floor);
      assert Truncate(r) == r.Floor;
    }
  }

  /** `item` is a number whose integer view is exact and lies between `lo` and `hi`. */
  method IntegerField(num: Bytes -> Double, item: Option<Tree>, lo: int, hi: int) returns (n: Option<int>)
    requires INT64_MIN < lo && hi < INT64_MAX
    ensures n == Integer(num, item, lo, hi) && (n.Some? ==> lo <= n.value <= hi)
  {
    hide ValueInt;
    if item.None? || !item.value.TNum? { return None; }
    var d := num(item.value.tok);
    var v := ValueInt(d);
    if d.Finite? { WholeView(d.value, lo, hi); }
    if !d.Finite? || d.value != v as real || v < lo || v > hi { return None; }
    n := Some(v);
  }

  /** The claim of a status item, checked against the received record. */
  method ReadClaim(num: Bytes -> Double, output: Output, item: Tree) returns (c: Option<Claim>)
    ensures c == var claim := ClaimOf(num, item); if claim.Some? && Agrees(output, claim.value) then claim else None
  {
    hide Integer, Count, KEYS, Lookup;
    var version := IntegerField(num, Lookup(item, VERSION), 1, 1);
    var state := IntegerField(num, Lookup(item, STATE), 1, 4);
    var format := IntegerField(num, Lookup(item, FORMAT), 1, 2);
    var reason := IntegerField(num, Lookup(item, REASON), 0, 6);
    if !item.TComp? || !item.obj || version.None? || state.None? || format.None? || reason.None? { return None; }
    if output.format != NoFormat && FormatNumber(output.format) != format.value { return None; }
    if output.state == Missing && state.value < 3 { return None; }
    if (state.value == 1 && reason.value != 0)
       || (state.value == 2 && (format.value != 1 || reason.value != 1))
       || (state.value >= 3 && reason.value == 0) {
      return None;
    }
    var twice := HasDuplicate(item.kids);
    if twice { return None; }
    var bytes := IntegerField(num, Lookup(item, OBSERVED), 0, SAFE_INTEGER);
    c := Some(Claim(StateOf(state.value), FormatOf(format.value), ReasonOf(reason.value), bytes));
  }

  /** Merges the status in `results` into the received record. */
  method ApplyPeerStatus(num: Bytes -> Double, output: Output, results: Tree) returns (r: Output)
    ensures r == Merged(num, output, results)
  {
    hide Lookup, ClaimOf;
    r := output;
    var status := Lookup(results, STATUS);
    if status.None? { return; }
    var claim := ReadClaim(num, output, status.value);
    if claim.None? { return Dropped(r, InvalidData); }
    var c := claim.value;
    if r.state != Invalid && c.state in {Discarded, Invalid} {
      r := Dropped(r, c.reason).(state := c.state);
    } else if r.state == Complete && c.state == Truncated {
      r := r.(state := Truncated, reason := c.reason);
    }
    r := r.(format := c.format, observedComplete := false);
    if c.observed.Some? && c.observed.value >= r.observed {
      r := r.(observed := c.observed.value, observedComplete := true);
    }
  }
}
