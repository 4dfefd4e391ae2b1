/**
  NUMA nodes of the CPUs: build_numa_mapping and build_numa_nodes of src/parser/cpu.cpp. Kernel lists may
  hold any 64-bit range; CPU and node numbers are cut to 32 bits and the map is kept to 1024 CPUs.
 */
module Numa {
  import opened ParseUtils
  import opened Numbers
  import opened SortedSets

  const MAX_CPUS: nat := 1024
  const TWO_32: nat := 0x1_0000_0000
  const TWO_64: nat := 0x1_0000_0000_0000_0000

  type NodeMap = map<nat, nat>

  // ----- Ranges -----

  /** The key written in iteration i of a loop. */
  type KeyAt = nat -> nat

  /** The counter runs on from first and is cut to 32 bits as a key. */
  function LowKey(first: nat): KeyAt {
    (i: nat) => (first + i) % TWO_32
  }

  /** The 64-bit counter of iteration i is still within the range. */
  function Within(first: nat, last: nat): nat -> bool {
    (i: nat) => (first + i) % TWO_64 <= last
  }

  /** The keys of the first 1025 iterations differ. */
  ghost predicate Distinct(key: KeyAt) {
    forall i: nat, j: nat | i < j <= MAX_CPUS :: key(i) != key(j)
  }

  lemma CloseKeysDiffer(a: nat, b: nat)
    requires a < b < a + TWO_32
    ensures a % TWO_32 != b % TWO_32
  {
  }

  lemma LowKeyDistinct(first: nat)
    ensures Distinct(LowKey(first))
  {
    var key := LowKey(first);
    forall i: nat, j: nat | i < j <= MAX_CPUS ensures key(i) != key(j) {
      CloseKeysDiffer(first + i, first + j);
    }
  }

  /** The map after k iterations. */
  function Assigned(m: NodeMap, key: KeyAt, k: nat, node: nat): NodeMap {
    if k == 0 then m else Assigned(m, key, k - 1, node)[key(k - 1) := node]
  }

  function Written(key: KeyAt, k: nat): set<nat> {
    if k == 0 then {} else Written(key, k - 1) + {key(k - 1)}
  }

  lemma {:induction false} WrittenMembers(key: KeyAt, k: nat, x: nat)
    ensures x in Written(key, k) <==> exists i: nat :: i < k && key(i) == x
  {
    if k > 0 {
      WrittenMembers(key, k - 1, x);
    }
  }

  /** Distinct keys: k iterations write k of them. */
  lemma {:induction false} WrittenSize(key: KeyAt, k: nat)
    requires Distinct(key) && k <= MAX_CPUS + 1
    ensures |Written(key, k)| == k
  {
    if k > 0 {
      WrittenSize(key, k - 1);
      WrittenMembers(key, k - 1, key(k - 1));
    }
  }

  lemma {:induction false} AssignedKeys(m: NodeMap, key: KeyAt, k: nat, node: nat)
    ensures Assigned(m, key, k, node).Keys == m.Keys + Written(key, k)
    ensures forall c | c in Assigned(m, key, k, node) ::
              Assigned(m, key, k, node)[c] == if c in Written(key, k) then node else m[c]
  {
    if k > 0 {
      AssignedKeys(m, key, k - 1, node);
    }
  }

  lemma MapSize(m: NodeMap)
    ensures |m| == |m.Keys|
  {
  }

  /** After k iterations the map holds at least k keys, however many it held before. */
  lemma AssignedSize(m: NodeMap, key: KeyAt, k: nat, node: nat)
    requires Distinct(key) && k <= MAX_CPUS + 1
    ensures k <= |Assigned(m, key, k, node)|
  {
    AssignedKeys(m, key, k, node);
    WrittenSize(key, k);
    SubsetSize(Written(key, k), Assigned(m, key, k, node).Keys);
    MapSize(Assigned(m, key, k, node));
  }

  lemma InsertSize(m: NodeMap, x: nat, node: nat)
    ensures |m| <= |m[x := node]| <= |m| + 1
  {
    var n := m[x := node];
    assert n.Keys == m.Keys + {x};
    SubsetSize(m.Keys, n.Keys);
    MapSize(m);
    MapSize(n);
    assert x !in m ==> |n.Keys| == |m.Keys| + 1;
    assert x in m ==> n.Keys == m.Keys;
  }

  lemma {:induction false} AssignedGrows(m: NodeMap, key: KeyAt, j: nat, k: nat, node: nat)
    requires j <= k
    ensures |Assigned(m, key, j, node)| <= |Assigned(m, key, k, node)|
  {
    if j < k {
      AssignedGrows(m, key, j, k - 1, node);
      InsertSize(Assigned(m, key, k - 1, node), key(k - 1), node);
    }
  }

  /** How many CPUs the map holds before each iteration. */
  type SizeAt = nat -> nat

  function Sizes(m: NodeMap, key: KeyAt, node: nat): SizeAt {
    (k: nat) => |Assigned(m, key, k, node)|
  }

  /** Sizes never shrink, and 1024 iterations fill the map. */
  ghost predicate Fills(size: SizeAt) {
    size(MAX_CPUS) >= MAX_CPUS && forall j: nat, k: nat | j <= k :: size(j) <= size(k)
  }

  lemma SizesFill(m: NodeMap, key: KeyAt, node: nat)
    requires Distinct(key)
    ensures Fills(Sizes(m, key, node))
  {
    AssignedSize(m, key, MAX_CPUS, node);
    forall j: nat, k: nat | j <= k
      ensures Sizes(m, key, node)(j) <= Sizes(m, key, node)(k)
    {
      AssignedGrows(m, key, j, k, node);
    }
  }

  /** The loop goes on: the counter is within the range and the map is not full. */
  predicate GoesOn(within: nat -> bool, size: SizeAt, k: nat) {
    within(k) && size(k) < MAX_CPUS
  }

  /** How many iterations the loop has done when it ends, given that it has done k. */
  function StepsFrom(within: nat -> bool, size: SizeAt, k: nat): (steps: nat)
    requires size(MAX_CPUS) >= MAX_CPUS && k <= MAX_CPUS
    ensures k <= steps <= MAX_CPUS
    decreases MAX_CPUS - k, size(MAX_CPUS)
  {
    if GoesOn(within, size, k) then StepsFrom(within, size, k + 1) else k
  }

  /** steps is the first iteration at which the loop does not go on. */
  ghost predicate EndsAt(within: nat -> bool, size: SizeAt, steps: nat) {
    !GoesOn(within, size, steps) && forall j: nat | j < steps :: GoesOn(within, size, j)
  }

  lemma {:induction false} StepsExact(within: nat -> bool, size: SizeAt, k: nat)
    requires size(MAX_CPUS) >= MAX_CPUS && k <= MAX_CPUS && forall j: nat | j < k :: GoesOn(within, size, j)
    ensures EndsAt(within, size, StepsFrom(within, size, k))
    decreases MAX_CPUS - k
  {
    if GoesOn(within, size, k) {
      StepsExact(within, size, k + 1);
    }
  }

  /** The range loop never runs more than 1024 times, whatever the range. */
  function RangeSteps(m: NodeMap, first: nat, last: nat, node: nat): (steps: nat)
    ensures steps <= MAX_CPUS
  {
    LowKeyDistinct(first);
    SizesFill(m, LowKey(first), node);
    StepsFrom(Within(first, last), Sizes(m, LowKey(first), node), 0)
  }

  function RangeMap(m: NodeMap, first: nat, last: nat, node: nat): NodeMap {
    Assigned(m, LowKey(first), RangeSteps(m, first, last, node), node)
  }

  /** The 64-bit counter of iteration i. */
  function Counter(first: nat): nat -> nat {
    (i: nat) => (first + i) % TWO_64
  }

  function Next(cpu: nat): nat {
    if cpu == U64_MAX then 0 else cpu + 1
  }

  /** The loop itself, for any counter that starts at first and whose keys, bound and sizes are as given. */
  method RunRange(m: NodeMap, first: nat, last: nat, node: nat, ghost key: KeyAt, ghost within: nat -> bool,
                  ghost size: SizeAt, ghost counter: nat -> nat)
    returns (result: NodeMap, steps: nat)
    requires counter(0) == first && size(MAX_CPUS) >= MAX_CPUS
    requires forall k: nat :: counter(k + 1) == Next(counter(k))
    requires forall k: nat :: key(k) == counter(k) % TWO_32 && (within(k) <==> counter(k) <= last)
    requires forall k: nat :: size(k) == |Assigned(m, key, k, node)|
    ensures steps == StepsFrom(within, size, 0) && result == Assigned(m, key, steps, node)
  {
    result, steps := m, 0;
    var cpu := first;
    while cpu <= last && |result| < MAX_CPUS
      invariant steps <= MAX_CPUS && cpu == counter(steps)
      invariant result == Assigned(m, key, steps, node)
      invariant StepsFrom(within, size, steps) == StepsFrom(within, size, 0)
      decreases MAX_CPUS - steps
    {
      assert size(steps) == |result| && within(steps);
      assert Assigned(m, key, steps + 1, node) == result[key(steps) := node];
      result := result[cpu % TWO_32 := node];
      cpu := Next(cpu);
      steps := steps + 1;
    }
    assert !GoesOn(within, size, steps);
  }

  lemma CounterStep(n: nat)
    ensures (n + 1) % TWO_64 == Next(n % TWO_64)
  {
    var q := n / TWO_64;
    assert n == q * TWO_64 + n % TWO_64;
    if n % TWO_64 == U64_MAX {
      assert n + 1 == (q + 1) * TWO_64;
    } else {
      assert n + 1 == q * TWO_64 + (n % TWO_64 + 1);
    }
  }

  lemma CutTwice(n: nat)
    ensures (n % TWO_64) % TWO_32 == n % TWO_32
  {
    var q := n / TWO_64;
    assert n == q * TWO_64 + n % TWO_64;
    assert n == (q * TWO_32) * TWO_32 + n % TWO_64;
  }

  lemma CounterRuns(first: nat, last: nat)
    requires first <= U64_MAX
    ensures Counter(first)(0) == first
    ensures forall k: nat :: Counter(first)(k + 1) == Next(Counter(first)(k))
    ensures forall k: nat :: LowKey(first)(k) == Counter(first)(k) % TWO_32
                             && (Within(first, last)(k) <==> Counter(first)(k) <= last)
  {
    forall k: nat
      ensures Counter(first)(k + 1) == Next(Counter(first)(k))
      ensures LowKey(first)(k) == Counter(first)(k) % TWO_32
    {
      CutTwice(first + k);
      CounterStep(first + k);
    }
  }

  method AssignRange(m: NodeMap, first: nat, last: nat, node: nat) returns (result: NodeMap, steps: nat)
    requires first <= U64_MAX && last <= U64_MAX
    ensures steps == RangeSteps(m, first, last, node) && result == RangeMap(m, first, last, node)
  {
    LowKeyDistinct(first);
    SizesFill(m, LowKey(first), node);
    CounterRuns(first, last);
    result, steps :=
      RunRange(m, first, last, node, LowKey(first), Within(first, last), Sizes(m, LowKey(first), node), Counter(first));
  }

  lemma RangeStepsEnd(m: NodeMap, first: nat, last: nat, node: nat)
    ensures Fills(Sizes(m, LowKey(first), node))
    ensures EndsAt(Within(first, last), Sizes(m, LowKey(first), node), RangeSteps(m, first, last, node))
  {
    LowKeyDistinct(first);
    SizesFill(m, LowKey(first), node);
    StepsExact(Within(first, last), Sizes(m, LowKey(first), node), 0);
  }

  /** The first n counters are within the bound, and the one after them exactly when the counter wraps. */
  ghost predicate Bounds(within: nat -> bool, n: nat, wraps: bool) {
    (forall k: nat | k < n :: within(k)) && (within(n) <==> wraps)
  }

  /** Inside the range the counter is within it; just behind, only a wrapped one is; and wrapped ones always are. */
  lemma WithinExact(first: nat, last: nat)
    requires first <= last <= U64_MAX
    ensures Bounds(Within(first, last), last - first + 1, last == U64_MAX)
  {
  }

  lemma EndPassesBound(within: nat -> bool, size: SizeAt, n: nat, wraps: bool, steps: nat)
    requires Bounds(within, n, wraps) && Fills(size) && EndsAt(within, size, steps)
    ensures steps > n <==> wraps && size(n) < MAX_CPUS
    ensures steps < n ==> size(steps) >= MAX_CPUS
  {
    if steps > n {
      assert GoesOn(within, size, n);
    } else if steps < n {
      assert within(steps) && size(steps) <= size(n);
    }
  }

  lemma EndPassesRange(m: NodeMap, first: nat, last: nat, node: nat, steps: nat)
    requires first <= last <= U64_MAX
    requires Fills(Sizes(m, LowKey(first), node)) && EndsAt(Within(first, last), Sizes(m, LowKey(first), node), steps)
    ensures steps > last - first + 1 <==>
            last == U64_MAX && Sizes(m, LowKey(first), node)(last - first + 1) < MAX_CPUS
    ensures steps < last - first + 1 ==> Sizes(m, LowKey(first), node)(steps) >= MAX_CPUS
  {
    WithinExact(first, last);
    EndPassesBound(Within(first, last), Sizes(m, LowKey(first), node), last - first + 1, last == U64_MAX, steps);
  }

  /**
    A range loop leaves its range exactly when the range ends at the largest 64-bit number and the map is
    not full after it: there the counter wraps to 0 and the bound no longer stops it.
   */
  lemma RangeOverrun(m: NodeMap, first: nat, last: nat, node: nat)
    requires first <= last <= U64_MAX
    ensures RangeSteps(m, first, last, node) > last - first + 1 <==>
            last == U64_MAX && Sizes(m, LowKey(first), node)(last - first + 1) < MAX_CPUS
    ensures RangeSteps(m, first, last, node) < last - first + 1 ==>
              Sizes(m, LowKey(first), node)(RangeSteps(m, first, last, node)) >= MAX_CPUS
  {
    RangeStepsEnd(m, first, last, node);
    EndPassesRange(m, first, last, node, RangeSteps(m, first, last, node));
  }

  /** In every other case the loop runs over the whole range or until the map is full, and writes nothing else. */
  lemma RangeWithin(m: NodeMap, first: nat, last: nat, node: nat)
    requires first <= last < U64_MAX
    ensures var steps := RangeSteps(m, first, last, node);
      && steps <= last - first + 1
      && (steps == last - first + 1 || |RangeMap(m, first, last, node)| >= MAX_CPUS)
      && RangeMap(m, first, last, node).Keys == m.Keys + Written(LowKey(first), steps)
  {
    RangeOverrun(m, first, last, node);
    AssignedKeys(m, LowKey(first), RangeSteps(m, first, last, node), node);
  }

  lemma LateEnd(within: nat -> bool, size: SizeAt, steps: nat)
    requires (forall k: nat :: within(k)) && Fills(size) && size(2) <= 2 && EndsAt(within, size, steps)
    ensures steps > 2 && size(steps) >= MAX_CPUS
  {
    assert within(steps);
    var early, late := size(2), size(steps);
  }

  lemma TwoSteps(key: KeyAt, node: nat)
    ensures |Assigned(map[], key, 2, node)| <= 2
  {
    InsertSize(map[], key(0), node);
    InsertSize(map[key(0) := node], key(1), node);
    assert Assigned(map[], key, 1, node) == map[key(0) := node];
    assert Assigned(map[], key, 2, node) == map[key(0) := node][key(1) := node];
  }

  /** A loop whose bound never stops it fills the map, and reaches the key of its third iteration. */
  lemma UnboundedFills(key: KeyAt, within: nat -> bool, node: nat, steps: nat)
    requires forall k: nat :: within(k)
    requires Fills(Sizes(map[], key, node)) && EndsAt(within, Sizes(map[], key, node), steps)
    ensures |Assigned(map[], key, steps, node)| >= MAX_CPUS && key(2) in Assigned(map[], key, steps, node)
  {
    TwoSteps(key, node);
    LateEnd(within, Sizes(map[], key, node), steps);
    AssignedKeys(map[], key, steps, node);
    WrittenMembers(key, steps, key(2));
  }

  lemma NeverStops(first: nat)
    ensures forall k: nat :: Within(first, U64_MAX)(k)
  {
  }

  lemma ThirdKey(first: nat)
    requires first == U64_MAX - 1
    ensures LowKey(first)(2) == 0
  {
  }

  lemma TopRange(first: nat, node: nat)
    requires first == U64_MAX - 1
    ensures var m := RangeMap(map[], first, U64_MAX, node);
      0 in m && |m| >= MAX_CPUS
  {
    NeverStops(first);
    ThirdKey(first);
    RangeStepsEnd(map[], first, U64_MAX, node);
    UnboundedFills(LowKey(first), Within(first, U64_MAX), node, RangeSteps(map[], first, U64_MAX, node));
  }

  /** A two-CPU range at the top of 64 bits goes on at CPU 0 and stops only when the map is full. */
  lemma OverrunExample(node: nat)
    ensures var m := RangeMap(map[], U64_MAX - 1, U64_MAX, node);
      0 in m && |m| >= MAX_CPUS
  {
    TopRange(U64_MAX - 1, node);
  }

  // ----- Lists -----

  /** One element of a CPU list. */
  datatype Part = Range(start: nat, end: nat) | Single(cpu: nat) | Malformed

  function PartOf(part: string): (p: Part)
    ensures p.Range? ==> p.start <= U64_MAX && p.end <= U64_MAX
  {
    var trimmed := Trimmed(part);
    var dash := Find(trimmed, '-');
    if dash < |trimmed| then
      var start, end := ParseUint(trimmed[..dash]), ParseUint(trimmed[dash + 1..]);
      if start.None? || end.None? then Malformed else Range(start.value, end.value)
    else
      var cpu := ParseUint(trimmed);
      if cpu.None? then Malformed else Single(cpu.value)
  }

  /** What an element does to the map, and whether the rest of its list is skipped. */
  function Applied(m: NodeMap, part: Part, node: nat): (NodeMap, bool) {
    match part
    case Range(start, end) =>
      var next := RangeMap(m, start, end, node);
      (next, |next| >= MAX_CPUS && forall c | c in next :: c < end)
    case Single(cpu) => if |m| >= MAX_CPUS then (m, true) else (m[cpu % TWO_32 := node], false)
    case Malformed => (m, false)
  }

  type PartReading = (NodeMap, string, nat) -> (NodeMap, bool)

  const APPLY: PartReading := (m: NodeMap, part: string, node: nat) => Applied(m, PartOf(part), node)

  /** The list read part by part, the rest skipped where a part says so. */
  function ListMap(read: PartReading, m: NodeMap, parts: seq<string>, node: nat): NodeMap
    decreases |parts|
  {
    if parts == [] then m else
    var (next, stop) := read(m, parts[0], node);
    if stop then next else ListMap(read, next, parts[1..], node)
  }

  datatype NumaRecord = NumaRecord(nodeId: nat, cpuList: string)

  /** All lists in record order; a skipped list does not end the records. */
  function RecordsMap(read: PartReading, m: NodeMap, records: seq<NumaRecord>): NodeMap {
    if records == [] then m else
    var before := RecordsMap(read, m, records[..|records| - 1]);
    var last := records[|records| - 1];
    ListMap(read, before, Pieces(last.cpuList, ','), last.nodeId % TWO_32)
  }

  method ApplyPart(m: NodeMap, part: Part, node: nat) returns (next: NodeMap, stop: bool)
    requires part.Range? ==> part.start <= U64_MAX && part.end <= U64_MAX
    ensures (next, stop) == Applied(m, part, node)
  {
    match part
    case Range(start, end) =>
      var steps;
      next, steps := AssignRange(m, start, end, node);
      stop := |next| >= MAX_CPUS && forall c | c in next :: c < end;
    case Single(cpu) =>
      if |m| >= MAX_CPUS {
        return m, true;
      }
      return m[cpu % TWO_32 := node], false;
    case Malformed =>
      return m, false;
  }

  method ReadPart(m: NodeMap, text: string, node: nat) returns (next: NodeMap, stop: bool)
    ensures (next, stop) == APPLY(m, text, node)
  {
    next, stop := ApplyPart(m, PartOf(text), node);
  }

  method ReadList(m: NodeMap, cpuList: string, node: nat) returns (result: NodeMap)
    ensures result == ListMap(APPLY, m, Pieces(cpuList, ','), node)
  {
    var parts := Split(cpuList, ',');
    result := m;
    var i := 0;
    while i < |parts|
      invariant 0 <= i <= |parts|
      invariant ListMap(APPLY, result, parts[i..], node) == ListMap(APPLY, m, parts, node)
    {
      assert parts[i..][0] == parts[i] && parts[i..][1..] == parts[i + 1..];
      var stop;
      result, stop := ReadPart(result, parts[i], node);
      if stop {
        return;
      }
      i := i + 1;
    }
  }

  /** build_numa_mapping, over the readable cpulist records of nodes. */
  method BuildNumaMapping(records: seq<NumaRecord>) returns (result: NodeMap)
    ensures result == RecordsMap(APPLY, map[], records)
  {
    result := map[];
    for i := 0 to |records|
      invariant result == RecordsMap(APPLY, map[], records[..i])
    {
      assert records[..i + 1][..i] == records[..i];
      result := ReadList(result, records[i].cpuList, records[i].nodeId % TWO_32);
    }
    assert records[..|records|] == records;
  }

  // ----- What the mapping keeps -----

  /** A map within bounds stays within bounds, and a full one is final. */
  ghost predicate Bounded(read: PartReading) {
    forall m: NodeMap, part, node ::
      && (|m| <= MAX_CPUS ==> |read(m, part, node).0| <= MAX_CPUS)
      && (|m| >= MAX_CPUS ==> read(m, part, node).0 == m)
      && (read(m, part, node).1 ==> |read(m, part, node).0| >= MAX_CPUS)
  }

  lemma EndBounded(m: NodeMap, key: KeyAt, within: nat -> bool, node: nat, steps: nat)
    requires Fills(Sizes(m, key, node)) && EndsAt(within, Sizes(m, key, node), steps)
    ensures |m| <= MAX_CPUS ==> |Assigned(m, key, steps, node)| <= MAX_CPUS
    ensures |m| >= MAX_CPUS ==> Assigned(m, key, steps, node) == m
  {
    if steps > 0 {
      var size := Sizes(m, key, node);
      assert GoesOn(within, size, steps - 1) && size(0) <= size(steps - 1);
      InsertSize(Assigned(m, key, steps - 1, node), key(steps - 1), node);
    }
  }

  lemma RangeBounded(m: NodeMap, first: nat, last: nat, node: nat)
    ensures |m| <= MAX_CPUS ==> |RangeMap(m, first, last, node)| <= MAX_CPUS
    ensures |m| >= MAX_CPUS ==> RangeMap(m, first, last, node) == m
  {
    RangeStepsEnd(m, first, last, node);
    EndBounded(m, LowKey(first), Within(first, last), node, RangeSteps(m, first, last, node));
  }

  lemma AppliedBounded(m: NodeMap, part: Part, node: nat)
    ensures var (next, stop) := Applied(m, part, node);
      && (|m| <= MAX_CPUS ==> |next| <= MAX_CPUS)
      && (|m| >= MAX_CPUS ==> next == m)
      && (stop ==> |next| >= MAX_CPUS)
  {
    match part
    case Range(start, end) =>
      RangeBounded(m, start, end, node);
    case Single(cpu) => InsertSize(m, cpu % TWO_32, node);
    case Malformed =>
  }

  lemma ApplyBounded()
    ensures Bounded(APPLY)
  {
    forall m: NodeMap, part, node
      ensures |m| <= MAX_CPUS ==> |APPLY(m, part, node).0| <= MAX_CPUS
      ensures |m| >= MAX_CPUS ==> APPLY(m, part, node).0 == m
      ensures APPLY(m, part, node).1 ==> |APPLY(m, part, node).0| >= MAX_CPUS
    {
      AppliedBounded(m, PartOf(part), node);
    }
  }

  lemma {:induction false} ListMapBounded(read: PartReading, m: NodeMap, parts: seq<string>, node: nat)
    requires Bounded(read)
    ensures |m| <= MAX_CPUS ==> |ListMap(read, m, parts, node)| <= MAX_CPUS
    ensures |m| >= MAX_CPUS ==> ListMap(read, m, parts, node) == m
    decreases |parts|
  {
    if parts != [] {
      ListMapBounded(read, read(m, parts[0], node).0, parts[1..], node);
    }
  }

  /** However wide or many the ranges, the mapping never holds more than 1024 CPUs. */
  lemma {:induction false} MappingBounded(records: seq<NumaRecord>)
    ensures |RecordsMap(APPLY, map[], records)| <= MAX_CPUS
  {
    if records != [] {
      var n := |records| - 1;
      MappingBounded(records[..n]);
      ApplyBounded();
      ListMapBounded(APPLY, RecordsMap(APPLY, map[], records[..n]), Pieces(records[n].cpuList, ','),
                     records[n].nodeId % TWO_32);
    }
  }

  /** The list read to its end, without skipping. */
  function FullListMap(read: PartReading, m: NodeMap, parts: seq<string>, node: nat): NodeMap
    decreases |parts|
  {
    if parts == [] then m else FullListMap(read, read(m, parts[0], node).0, parts[1..], node)
  }

  lemma {:induction false} FullMapFinal(read: PartReading, m: NodeMap, parts: seq<string>, node: nat)
    requires Bounded(read) && |m| >= MAX_CPUS
    ensures FullListMap(read, m, parts, node) == m
    decreases |parts|
  {
    if parts != [] {
      FullMapFinal(read, m, parts[1..], node);
    }
  }

  /** Skipping the rest of a list saves work only: the result is that of reading every part. */
  lemma {:induction false} SkippingIsHarmless(read: PartReading, m: NodeMap, parts: seq<string>, node: nat)
    requires Bounded(read)
    ensures ListMap(read, m, parts, node) == FullListMap(read, m, parts, node)
    decreases |parts|
  {
    if parts != [] {
      var (next, stop) := read(m, parts[0], node);
      if stop {
        FullMapFinal(read, next, parts[1..], node);
      } else {
        SkippingIsHarmless(read, next, parts[1..], node);
      }
    }
  }

  // ----- Nodes -----

  datatype NumaNode = NumaNode(id: nat, cpus: seq<nat>)

  function OnNode(m: NodeMap, node: nat): nat -> bool {
    (cpu: nat) => cpu in m && m[cpu] == node
  }

  function NodesFor(m: NodeMap, keys: seq<nat>, ids: seq<nat>): seq<NumaNode> {
    if ids == [] then [] else
    var last := ids[|ids| - 1];
    NodesFor(m, keys, ids[..|ids| - 1]) + [NumaNode(last, Filtered(keys, OnNode(m, last)))]
  }

  /** One node per mapped node number, ascending, each with its CPUs, ascending. */
  function NodesOf(m: NodeMap): seq<NumaNode> {
    NodesFor(m, Ascending(m.Keys), Ascending(m.Values))
  }

  function Grouped(m: NodeMap, cpus: seq<nat>): map<nat, seq<nat>> {
    if cpus == [] then map[] else
    var before, cpu := Grouped(m, cpus[..|cpus| - 1]), cpus[|cpus| - 1];
    if cpu !in m then before
    else before[m[cpu] := (if m[cpu] in before then before[m[cpu]] else []) + [cpu]]
  }

  lemma {:induction false} GroupedExact(m: NodeMap, cpus: seq<nat>, node: nat)
    ensures node in Grouped(m, cpus) <==> Filtered(cpus, OnNode(m, node)) != []
    ensures node in Grouped(m, cpus) ==> Grouped(m, cpus)[node] == Filtered(cpus, OnNode(m, node))
  {
    if cpus != [] {
      GroupedExact(m, cpus[..|cpus| - 1], node);
    }
  }

  lemma SomeOnNode(m: NodeMap, cpus: seq<nat>, node: nat)
    requires forall c :: c in cpus <==> c in m
    ensures Filtered(cpus, OnNode(m, node)) != [] <==> node in m.Values
  {
    FilteredExact(cpus, OnNode(m, node));
    var listed := Filtered(cpus, OnNode(m, node));
    if listed != [] {
      assert listed[0] in listed;
    }
    if node in m.Values {
      var cpu :| cpu in m.Keys && m[cpu] == node;
      assert cpu in listed;
    }
  }

  lemma GroupedKeys(m: NodeMap, cpus: seq<nat>)
    requires forall c :: c in cpus <==> c in m
    ensures Grouped(m, cpus).Keys == m.Values
  {
    forall node ensures node in Grouped(m, cpus) <==> node in m.Values {
      GroupedExact(m, cpus, node);
      SomeOnNode(m, cpus, node);
    }
  }

  method GroupCpus(m: NodeMap, cpus: seq<nat>) returns (nodeCpus: map<nat, seq<nat>>)
    requires forall c :: c in cpus <==> c in m
    ensures nodeCpus == Grouped(m, cpus)
  {
    nodeCpus := map[];
    for i := 0 to |cpus|
      invariant nodeCpus == Grouped(m, cpus[..i])
    {
      assert cpus[..i + 1][..i] == cpus[..i];
      assert cpus[i] in cpus;
      var node := m[cpus[i]];
      nodeCpus := nodeCpus[node := (if node in nodeCpus then nodeCpus[node] else []) + [cpus[i]]];
    }
    assert cpus[..|cpus|] == cpus;
  }

  method ListNodes(m: NodeMap, cpus: seq<nat>, nodeCpus: map<nat, seq<nat>>, ids: seq<nat>)
    returns (nodes: seq<NumaNode>)
    requires nodeCpus == Grouped(m, cpus) && forall id | id in ids :: id in nodeCpus
    ensures nodes == NodesFor(m, cpus, ids)
  {
    nodes := [];
    for i := 0 to |ids|
      invariant nodes == NodesFor(m, cpus, ids[..i])
    {
      assert ids[..i + 1][..i] == ids[..i];
      assert ids[i] in ids;
      GroupedExact(m, cpus, ids[i]);
      nodes := nodes + [NumaNode(ids[i], nodeCpus[ids[i]])];
    }
    assert ids[..|ids|] == ids;
  }

  /** build_numa_nodes: groups the CPUs in key order, then lists the groups in key order. */
  method BuildNumaNodes(m: NodeMap) returns (nodes: seq<NumaNode>)
    ensures nodes == NodesOf(m)
  {
    var cpus := Ascending(m.Keys);
    AscendingMembers(m.Keys);
    var nodeCpus := GroupCpus(m, cpus);
    GroupedKeys(m, cpus);
    AscendingMembers(nodeCpus.Keys);
    nodes := ListNodes(m, cpus, nodeCpus, Ascending(nodeCpus.Keys));
  }

  lemma {:induction false} NodesForAt(m: NodeMap, keys: seq<nat>, ids: seq<nat>, i: nat)
    requires i < |ids|
    ensures |NodesFor(m, keys, ids)| == |ids|
    ensures NodesFor(m, keys, ids)[i] == NumaNode(ids[i], Filtered(keys, OnNode(m, ids[i])))
  {
    if |ids| > 1 {
      NodesForAt(m, keys, ids[..|ids| - 1], if i < |ids| - 1 then i else 0);
    }
  }

  ghost predicate Lists(nodes: seq<NumaNode>, node: nat, cpu: nat) {
    exists i :: 0 <= i < |nodes| && nodes[i].id == node && cpu in nodes[i].cpus
  }

  /** A node that lists exactly the CPUs the map sends to id. */
  ghost predicate IsNode(n: NumaNode, m: NodeMap, id: nat) {
    n.id == id && Increasing(n.cpus) && n.cpus != [] && forall c :: c in n.cpus <==> c in m && m[c] == id
  }

  lemma NodeFor(m: NodeMap, keys: seq<nat>, ids: seq<nat>, i: nat)
    requires Increasing(keys) && forall c :: c in keys <==> c in m
    requires i < |ids| && ids[i] in m.Values
    ensures |NodesFor(m, keys, ids)| == |ids| && IsNode(NodesFor(m, keys, ids)[i], m, ids[i])
  {
    NodesForAt(m, keys, ids, i);
    FilteredExact(keys, OnNode(m, ids[i]));
    SomeOnNode(m, keys, ids[i]);
  }

  lemma NodesForExact(m: NodeMap, keys: seq<nat>, ids: seq<nat>)
    requires Increasing(keys) && forall c :: c in keys <==> c in m
    requires Increasing(ids) && forall n :: n in ids <==> n in m.Values
    ensures |NodesFor(m, keys, ids)| == |ids|
    ensures forall i | 0 <= i < |ids| :: IsNode(NodesFor(m, keys, ids)[i], m, ids[i])
  {
    forall i | 0 <= i < |ids|
      ensures |NodesFor(m, keys, ids)| == |ids| && IsNode(NodesFor(m, keys, ids)[i], m, ids[i])
    {
      assert ids[i] in ids;
      NodeFor(m, keys, ids, i);
    }
    assert ids == [] ==> NodesFor(m, keys, ids) == [];
    assert ids != [] ==> IsNode(NodesFor(m, keys, ids)[0], m, ids[0]);
  }

  lemma NodesList(m: NodeMap, nodes: seq<NumaNode>, ids: seq<nat>, node: nat, cpu: nat)
    requires |nodes| == |ids| && forall i | 0 <= i < |ids| :: IsNode(nodes[i], m, ids[i])
    requires forall n :: n in ids <==> n in m.Values
    ensures Lists(nodes, node, cpu) <==> cpu in m && m[cpu] == node
  {
    if cpu in m && m[cpu] == node {
      assert node in m.Values;
      var i :| 0 <= i < |ids| && ids[i] == node;
      assert IsNode(nodes[i], m, ids[i]) && cpu in nodes[i].cpus;
    }
  }

  /**
    The nodes invert the map: ascending node numbers, ascending non-empty CPU lists, and node n lists a CPU
    exactly when the map sends it to n. So the lists are disjoint, cover the map, and agree with numa_node.
   */
  lemma NodesInvertMap(m: NodeMap, node: nat, cpu: nat)
    ensures Lists(NodesOf(m), node, cpu) <==> cpu in m && m[cpu] == node
    ensures forall i, j | 0 <= i < j < |NodesOf(m)| :: NodesOf(m)[i].id < NodesOf(m)[j].id
    ensures forall i | 0 <= i < |NodesOf(m)| :: Increasing(NodesOf(m)[i].cpus) && NodesOf(m)[i].cpus != []
  {
    AscendingMembers(m.Keys);
    AscendingMembers(m.Values);
    NodesForExact(m, Ascending(m.Keys), Ascending(m.Values));
    NodesList(m, NodesOf(m), Ascending(m.Values), node, cpu);
    assert forall i | 0 <= i < |NodesOf(m)| :: IsNode(NodesOf(m)[i], m, Ascending(m.Values)[i]);
  }
}
