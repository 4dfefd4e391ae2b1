/**
  What the whole NUMA mapping holds: build_numa_mapping of src/parser/cpu.cpp over all records, as one
  sequence of assignments that stops for good when 1024 CPUs are mapped.
 */
module NumaMapping {
  import opened ParseUtils
  import opened Numbers
  import opened SortedSets
  import opened Numa

  // ----- Assignments -----

  datatype Write = Write(cpu: nat, node: nat)

  /** All assignments, in order. */
  function Uncapped(m: NodeMap, writes: seq<Write>): NodeMap {
    if writes == [] then m else
    var last := writes[|writes| - 1];
    Uncapped(m, writes[..|writes| - 1])[last.cpu := last.node]
  }

  /** The assignments until the map holds 1024 CPUs. */
  function Capped(m: NodeMap, writes: seq<Write>): NodeMap {
    if writes == [] then m else
    var before, last := Capped(m, writes[..|writes| - 1]), writes[|writes| - 1];
    if |before| >= MAX_CPUS then before else before[last.cpu := last.node]
  }

  function Cpus(writes: seq<Write>): set<nat> {
    if writes == [] then {} else Cpus(writes[..|writes| - 1]) + {writes[|writes| - 1].cpu}
  }

  lemma CappedStep(m: NodeMap, writes: seq<Write>, last: Write)
    ensures var before := Capped(m, writes);
      Capped(m, writes + [last]) == if |before| >= MAX_CPUS then before else before[last.cpu := last.node]
  {
    assert (writes + [last])[..|writes|] == writes;
  }

  lemma UncappedStep(m: NodeMap, writes: seq<Write>, last: Write)
    ensures Uncapped(m, writes + [last]) == Uncapped(m, writes)[last.cpu := last.node]
  {
    assert (writes + [last])[..|writes|] == writes;
  }

  lemma CpusStep(writes: seq<Write>, last: Write)
    ensures Cpus(writes + [last]) == Cpus(writes) + {last.cpu}
  {
    assert (writes + [last])[..|writes|] == writes;
  }

  /** f starts from its first argument and takes the elements in, one by one. */
  ghost predicate TakesIn<S(!new), T(!new)>(f: (S, seq<T>) -> S, g: (S, T) -> S) {
    (forall s :: f(s, []) == s) && forall s, q, x :: f(s, q + [x]) == g(f(s, q), x)
  }

  lemma {:induction false} TakesInConcat<S(!new), T(!new)>(f: (S, seq<T>) -> S, g: (S, T) -> S, s: S,
                                                         a: seq<T>, b: seq<T>)
    requires TakesIn(f, g)
    ensures f(s, a + b) == f(f(s, a), b)
  {
    if b == [] {
      assert a + b == a;
    } else {
      var front, last := b[..|b| - 1], b[|b| - 1];
      TakesInConcat(f, g, s, a, front);
      assert b == front + [last];
      assert a + b == a + front + [last];
      assert f(s, a + front + [last]) == g(f(s, a + front), last);
    }
  }

  function AssignedBelow(m: NodeMap, w: Write): NodeMap {
    if |m| >= MAX_CPUS then m else m[w.cpu := w.node]
  }

  lemma CappedTakesIn(f: (NodeMap, seq<Write>) -> NodeMap, g: (NodeMap, Write) -> NodeMap)
    requires forall n, writes :: f(n, writes) == Capped(n, writes)
    requires forall n, w :: g(n, w) == AssignedBelow(n, w)
    ensures TakesIn(f, g)
  {
    forall n, writes, w
      ensures f(n, writes + [w]) == g(f(n, writes), w)
    {
      CappedStep(n, writes, w);
    }
  }

  lemma CappedConcat(m: NodeMap, a: seq<Write>, b: seq<Write>)
    ensures Capped(m, a + b) == Capped(Capped(m, a), b)
  {
    var f := (n: NodeMap, writes: seq<Write>) => Capped(n, writes);
    var g := (n: NodeMap, w: Write) => AssignedBelow(n, w);
    CappedTakesIn(f, g);
    TakesInConcat(f, g, m, a, b);
  }

  lemma {:induction false} CappedFull(m: NodeMap, writes: seq<Write>)
    requires |m| >= MAX_CPUS
    ensures Capped(m, writes) == m
  {
    if writes != [] {
      CappedFull(m, writes[..|writes| - 1]);
    }
  }

  lemma UncappedConcat(m: NodeMap, a: seq<Write>, b: seq<Write>)
    ensures Uncapped(m, a + b) == Uncapped(Uncapped(m, a), b)
  {
    var f, g := (n: NodeMap, writes: seq<Write>) => Uncapped(n, writes), (n: NodeMap, w: Write) => n[w.cpu := w.node];
    forall n, writes, w
      ensures f(n, writes + [w]) == g(f(n, writes), w)
    {
      UncappedStep(n, writes, w);
    }
    TakesInConcat(f, g, m, a, b);
  }

  lemma {:induction false} UncappedKeys(m: NodeMap, writes: seq<Write>)
    ensures Uncapped(m, writes).Keys == m.Keys + Cpus(writes)
  {
    if writes != [] {
      UncappedKeys(m, writes[..|writes| - 1]);
    }
  }

  lemma {:induction false} CpusExact(writes: seq<Write>, c: nat)
    ensures c in Cpus(writes) <==> exists i :: 0 <= i < |writes| && writes[i].cpu == c
  {
    if writes != [] {
      var n := |writes| - 1;
      CpusExact(writes[..n], c);
      assert forall i | 0 <= i < n :: writes[..n][i] == writes[i];
    }
  }

  lemma {:induction false} CpusConcat(a: seq<Write>, b: seq<Write>)
    ensures Cpus(a + b) == Cpus(a) + Cpus(b)
  {
    if b == [] {
      assert a + b == a;
    } else {
      var n := |b| - 1;
      CpusConcat(a, b[..n]);
      CpusStep(a + b[..n], b[n]);
      assert a + b == a + b[..n] + [b[n]];
    }
  }

  /** Assignment i is the last one to its CPU. */
  ghost predicate LastWrite(writes: seq<Write>, i: nat) {
    i < |writes| && forall j | i < j < |writes| :: writes[j].cpu != writes[i].cpu
  }

  lemma {:induction false} UncappedAt(m: NodeMap, writes: seq<Write>, i: nat)
    requires LastWrite(writes, i)
    ensures writes[i].cpu in Uncapped(m, writes) && Uncapped(m, writes)[writes[i].cpu] == writes[i].node
  {
    var n := |writes| - 1;
    if i < n {
      assert writes[n].cpu != writes[i].cpu;
      UncappedAt(m, writes[..n], i);
    }
  }

  /** The assignments in force end with the first that completes 1024 CPUs. */
  ghost predicate Cut(m: NodeMap, writes: seq<Write>, k: nat) {
    && k <= |writes|
    && (k < |writes| ==> |Uncapped(m, writes[..k])| >= MAX_CPUS)
    && forall j: nat | j < k :: |Uncapped(m, writes[..j])| < MAX_CPUS
  }

  lemma SamePrefixes(writes: seq<Write>, last: Write)
    ensures forall j: nat | j <= |writes| :: (writes + [last])[..j] == writes[..j]
  {
    forall j: nat | j <= |writes|
      ensures (writes + [last])[..j] == writes[..j]
    {
    }
  }

  /** The cut is passed on where the map is full. */
  lemma CutStays(m: NodeMap, writes: seq<Write>, last: Write, k: nat)
    requires Cut(m, writes, k) && Capped(m, writes) == Uncapped(m, writes[..k]) && |Capped(m, writes)| >= MAX_CPUS
    ensures Cut(m, writes + [last], k) && Capped(m, writes + [last]) == Uncapped(m, (writes + [last])[..k])
  {
    CappedStep(m, writes, last);
    SamePrefixes(writes, last);
  }

  /** Where it is not, nothing has been cut off yet. */
  lemma CutMoves(m: NodeMap, writes: seq<Write>, last: Write, k: nat)
    requires Cut(m, writes, k) && Capped(m, writes) == Uncapped(m, writes[..k]) && |Capped(m, writes)| < MAX_CPUS
    ensures var n := |writes| + 1;
      Cut(m, writes + [last], n) && Capped(m, writes + [last]) == Uncapped(m, (writes + [last])[..n])
  {
    assert k == |writes| && writes[..k] == writes;
    CappedStep(m, writes, last);
    UncappedStep(m, writes, last);
    SamePrefixes(writes, last);
    assert (writes + [last])[..|writes| + 1] == writes + [last];
  }

  lemma {:induction false} CappedIsCut(m: NodeMap, writes: seq<Write>) returns (k: nat)
    ensures Cut(m, writes, k) && Capped(m, writes) == Uncapped(m, writes[..k])
  {
    if writes == [] {
      k := 0;
    } else {
      var n := |writes| - 1;
      k := CappedIsCut(m, writes[..n]);
      assert writes == writes[..n] + [writes[n]];
      if |Capped(m, writes[..n])| >= MAX_CPUS {
        CutStays(m, writes[..n], writes[n], k);
      } else {
        CutMoves(m, writes[..n], writes[n], k);
        k := |writes|;
      }
    }
  }

  // ----- Ranges -----

  function KeyWrites(key: KeyAt, n: nat, node: nat): seq<Write> {
    if n == 0 then [] else KeyWrites(key, n - 1, node) + [Write(key(n - 1), node)]
  }

  lemma {:induction false} KeyWritesCpus(key: KeyAt, n: nat, node: nat)
    ensures Cpus(KeyWrites(key, n, node)) == Written(key, n)
    ensures forall w | w in KeyWrites(key, n, node) :: w.node == node
  {
    if n > 0 {
      var front := KeyWrites(key, n - 1, node);
      KeyWritesCpus(key, n - 1, node);
      assert (front + [Write(key(n - 1), node)])[..|front|] == front;
    }
  }

  /** The map is not full before iteration steps. */
  ghost predicate NotFullBefore(m: NodeMap, key: KeyAt, steps: nat, node: nat) {
    forall j: nat | j < steps :: |Assigned(m, key, j, node)| < MAX_CPUS
  }

  lemma NotFullLast(m: NodeMap, key: KeyAt, steps: nat, node: nat)
    requires steps > 0 && NotFullBefore(m, key, steps, node)
    ensures |Assigned(m, key, steps - 1, node)| < MAX_CPUS && NotFullBefore(m, key, steps - 1, node)
  {
  }

  lemma CappedKey(m: NodeMap, key: KeyAt, n: nat, node: nat, before: NodeMap)
    requires before == Capped(m, KeyWrites(key, n, node))
    ensures Capped(m, KeyWrites(key, n + 1, node)) == if |before| >= MAX_CPUS then before else before[key(n) := node]
  {
    CappedStep(m, KeyWrites(key, n, node), Write(key(n), node));
  }

  lemma {:induction false} AllAssigned(m: NodeMap, key: KeyAt, n: nat, node: nat)
    requires NotFullBefore(m, key, n, node)
    ensures Capped(m, KeyWrites(key, n, node)) == Assigned(m, key, n, node)
  {
    if n > 0 {
      NotFullLast(m, key, n, node);
      AllAssigned(m, key, n - 1, node);
      CappedKey(m, key, n - 1, node, Assigned(m, key, n - 1, node));
    }
  }

  lemma {:induction false} FullKeys(m: NodeMap, key: KeyAt, steps: nat, n: nat, node: nat, full: NodeMap)
    requires steps <= n && full == Capped(m, KeyWrites(key, steps, node)) && |full| >= MAX_CPUS
    ensures Capped(m, KeyWrites(key, n, node)) == full
  {
    if steps < n {
      FullKeys(m, key, steps, n - 1, node, full);
      CappedKey(m, key, n - 1, node, full);
    }
  }

  /** A loop over n keys that stops before its end only with a full map. */
  lemma AssignedIsCapped(m: NodeMap, key: KeyAt, steps: nat, n: nat, node: nat)
    requires steps <= n && (steps == n || |Assigned(m, key, steps, node)| >= MAX_CPUS)
    requires NotFullBefore(m, key, steps, node)
    ensures Capped(m, KeyWrites(key, n, node)) == Assigned(m, key, steps, node)
  {
    AllAssigned(m, key, steps, node);
    if steps < n {
      FullKeys(m, key, steps, n, node, Assigned(m, key, steps, node));
    }
  }

  function Width(start: nat, end: nat): nat
    requires start <= end
  {
    end - start + 1
  }

  /** How many keys a range runs over: its own, or, at the top of 64 bits, as many as can fill the map. */
  function RangeLength(start: nat, end: nat): nat {
    if end < start then 0 else if end == U64_MAX then MAX_CPUS else Width(start, end)
  }

  lemma StopsFull(within: nat -> bool, size: SizeAt, steps: nat, n: nat)
    requires EndsAt(within, size, steps) && (forall j: nat | j < n :: within(j)) && (steps <= n || !within(n))
    ensures steps <= n && (steps == n || size(steps) >= MAX_CPUS)
  {
    assert GoesOn(within, size, n) ==> within(n);
  }

  lemma RangeEnds(start: nat, end: nat, steps: nat)
    requires start <= U64_MAX && end <= U64_MAX && steps <= MAX_CPUS
    ensures var n, within := RangeLength(start, end), Within(start, end);
      (forall j: nat | j < n :: within(j)) && (steps <= n || !within(n))
  {
    if start <= end && end < U64_MAX {
      WithinExact(start, end);
    }
  }

  lemma BelowCap(m: NodeMap, key: KeyAt, within: nat -> bool, node: nat, steps: nat)
    requires EndsAt(within, Sizes(m, key, node), steps)
    ensures NotFullBefore(m, key, steps, node)
  {
    forall j: nat | j < steps
      ensures |Assigned(m, key, j, node)| < MAX_CPUS
    {
      assert GoesOn(within, Sizes(m, key, node), j);
    }
  }

  lemma RangeIsCapped(m: NodeMap, start: nat, end: nat, node: nat)
    requires start <= U64_MAX && end <= U64_MAX
    ensures RangeMap(m, start, end, node) == Capped(m, KeyWrites(LowKey(start), RangeLength(start, end), node))
  {
    var steps, n := RangeSteps(m, start, end, node), RangeLength(start, end);
    RangeStepsEnd(m, start, end, node);
    RangeEnds(start, end, steps);
    StopsFull(Within(start, end), Sizes(m, LowKey(start), node), steps, n);
    BelowCap(m, LowKey(start), Within(start, end), node, steps);
    AssignedIsCapped(m, LowKey(start), steps, n, node);
  }

  function PartWrites(part: Part, node: nat): seq<Write> {
    match part
    case Range(start, end) => KeyWrites(LowKey(start), RangeLength(start, end), node)
    case Single(cpu) => [Write(cpu % TWO_32, node)]
    case Malformed => []
  }

  lemma PartIsCapped(m: NodeMap, part: Part, node: nat)
    requires part.Range? ==> part.start <= U64_MAX && part.end <= U64_MAX
    ensures Applied(m, part, node).0 == Capped(m, PartWrites(part, node))
  {
    match part
    case Range(start, end) => RangeIsCapped(m, start, end, node);
    case Single(cpu) =>
      var w := Write(cpu % TWO_32, node);
      assert [w][..0] == [] && Capped(m, []) == m;
    case Malformed =>
  }

  lemma PartOneNode(part: Part, node: nat)
    ensures forall w | w in PartWrites(part, node) :: w.node == node
  {
    if part.Range? {
      KeyWritesCpus(LowKey(part.start), RangeLength(part.start, part.end), node);
    }
  }

  lemma RangeNumbers(start: nat, end: nat, c: nat)
    requires start <= end
    ensures (exists i: nat :: i < Width(start, end) && LowKey(start)(i) == c) <==>
            exists x :: start <= x <= end && c == x % TWO_32
  {
    var key := LowKey(start);
    if x :| start <= x <= end && c == x % TWO_32 {
      assert key(x - start) == c;
    }
    if i: nat :| i < Width(start, end) && key(i) == c {
      assert c == (start + i) % TWO_32;
    }
  }

  /** A range covers its numbers cut to 32 bits; one up to 2^64-1 goes on from 0 until 1024 CPUs. */
  lemma RangeCpusExact(start: nat, end: nat, node: nat, c: nat)
    ensures c in Cpus(PartWrites(Range(start, end), node)) <==>
            start <= end && if end == U64_MAX then exists i: nat :: i < MAX_CPUS && LowKey(start)(i) == c
                            else exists x :: start <= x <= end && c == x % TWO_32
  {
    KeyWritesCpus(LowKey(start), RangeLength(start, end), node);
    WrittenMembers(LowKey(start), RangeLength(start, end), c);
    if start <= end {
      RangeNumbers(start, end, c);
    }
  }

  // ----- Lists and records, for any reader of parts -----

  /** The assignments a part stands for. */
  type PartMeaning = (string, nat) -> seq<Write>

  ghost predicate Means(read: PartReading, meaning: PartMeaning) {
    forall m: NodeMap, part, node :: read(m, part, node).0 == Capped(m, meaning(part, node))
  }

  function ListWrites(meaning: PartMeaning, parts: seq<string>, node: nat): seq<Write> {
    if parts == [] then [] else meaning(parts[0], node) + ListWrites(meaning, parts[1..], node)
  }

  lemma {:induction false} ListIsCapped(read: PartReading, meaning: PartMeaning, m: NodeMap, parts: seq<string>,
                                        node: nat)
    requires Means(read, meaning)
    ensures FullListMap(read, m, parts, node) == Capped(m, ListWrites(meaning, parts, node))
    decreases |parts|
  {
    if parts != [] {
      ListIsCapped(read, meaning, read(m, parts[0], node).0, parts[1..], node);
      CappedConcat(m, meaning(parts[0], node), ListWrites(meaning, parts[1..], node));
    }
  }

  function RecordWrites(meaning: PartMeaning, r: NumaRecord): seq<Write> {
    ListWrites(meaning, Pieces(r.cpuList, ','), r.nodeId % TWO_32)
  }

  function AllWrites(meaning: PartMeaning, records: seq<NumaRecord>): seq<Write> {
    if records == [] then [] else
    AllWrites(meaning, records[..|records| - 1]) + RecordWrites(meaning, records[|records| - 1])
  }

  lemma {:induction false} RecordsAreCapped(read: PartReading, meaning: PartMeaning, records: seq<NumaRecord>)
    requires Bounded(read) && Means(read, meaning)
    ensures RecordsMap(read, map[], records) == Capped(map[], AllWrites(meaning, records))
  {
    if records != [] {
      var n := |records| - 1;
      var before, last := RecordsMap(read, map[], records[..n]), records[n];
      RecordsAreCapped(read, meaning, records[..n]);
      SkippingIsHarmless(read, before, Pieces(last.cpuList, ','), last.nodeId % TWO_32);
      ListIsCapped(read, meaning, before, Pieces(last.cpuList, ','), last.nodeId % TWO_32);
      CappedConcat(map[], AllWrites(meaning, records[..n]), RecordWrites(meaning, last));
    }
  }

  lemma AllWritesStep(meaning: PartMeaning, records: seq<NumaRecord>, last: NumaRecord)
    ensures AllWrites(meaning, records + [last]) == AllWrites(meaning, records) + RecordWrites(meaning, last)
  {
    assert (records + [last])[..|records|] == records;
  }

  lemma JoinedLeft(a: seq<Write>, b: seq<Write>, c: seq<Write>)
    ensures a + b + c == a + (b + c)
  {
  }

  lemma AllWritesConcat(meaning: PartMeaning, a: seq<NumaRecord>, b: seq<NumaRecord>)
    ensures AllWrites(meaning, a + b) == AllWrites(meaning, a) + AllWrites(meaning, b)
  {
    var f := (s: seq<Write>, records: seq<NumaRecord>) => s + AllWrites(meaning, records);
    var g := (s: seq<Write>, r: NumaRecord) => s + RecordWrites(meaning, r);
    forall s, records, r
      ensures f(s, records + [r]) == g(f(s, records), r)
    {
      AllWritesStep(meaning, records, r);
      JoinedLeft(s, AllWrites(meaning, records), RecordWrites(meaning, r));
    }
    forall s
      ensures f(s, []) == s
    {
      assert s + [] == s;
    }
    TakesInConcat(f, g, [], a, b);
    assert f(f([], a), b) == [] + AllWrites(meaning, a) + AllWrites(meaning, b);
    assert f([], a + b) == [] + AllWrites(meaning, a + b) == AllWrites(meaning, a + b);
    assert [] + AllWrites(meaning, a) == AllWrites(meaning, a);
  }

  ghost predicate Covers(meaning: PartMeaning, r: NumaRecord, c: nat) {
    c in Cpus(RecordWrites(meaning, r))
  }

  ghost predicate SomeCovers(meaning: PartMeaning, records: seq<NumaRecord>, c: nat) {
    exists r :: r in records && Covers(meaning, r, c)
  }

  lemma {:induction false} CoveredExact(meaning: PartMeaning, records: seq<NumaRecord>, c: nat)
    ensures c in Cpus(AllWrites(meaning, records)) <==> SomeCovers(meaning, records, c)
  {
    if records != [] {
      var n := |records| - 1;
      CoveredExact(meaning, records[..n], c);
      CpusConcat(AllWrites(meaning, records[..n]), RecordWrites(meaning, records[n]));
      assert records == records[..n] + [records[n]];
      assert SomeCovers(meaning, records, c) <==>
             SomeCovers(meaning, records[..n], c) || Covers(meaning, records[n], c) by {
        assert forall r :: r in records <==> r in records[..n] || r == records[n];
      }
    }
  }

  // ----- The mapping -----

  function TextWrites(text: string, node: nat): seq<Write> {
    PartWrites(PartOf(text), node)
  }

  const TEXTS: PartMeaning := TextWrites

  lemma TextIsCapped(m: NodeMap, text: string, part: Part, node: nat)
    requires part == PartOf(text)
    ensures APPLY(m, text, node).0 == Capped(m, TEXTS(text, node))
  {
    PartIsCapped(m, part, node);
  }

  lemma TextsMean()
    ensures Means(APPLY, TEXTS)
  {
    forall m: NodeMap, part, node
      ensures APPLY(m, part, node).0 == Capped(m, TEXTS(part, node))
    {
      TextIsCapped(m, part, PartOf(part), node);
    }
  }

  /** The mapping is that of all assignments in order, stopped for good where 1024 CPUs are first mapped. */
  lemma MappingIsCapped(records: seq<NumaRecord>)
    ensures RecordsMap(APPLY, map[], records) == Capped(map[], AllWrites(TEXTS, records))
  {
    ApplyBounded();
    TextsMean();
    RecordsAreCapped(APPLY, TEXTS, records);
  }

  /**
    Exactly the assignments up to the first that completes 1024 CPUs are in force: a CPU is mapped when one
    of them names it, and to the node of the last that does.
   */
  lemma MappingExact(records: seq<NumaRecord>) returns (k: nat)
    ensures var m, writes := RecordsMap(APPLY, map[], records), AllWrites(TEXTS, records);
      && Cut(map[], writes, k) && m == Uncapped(map[], writes[..k])
      && (forall c :: c in m <==> exists i :: 0 <= i < k && writes[i].cpu == c)
      && forall i: nat | LastWrite(writes[..k], i) :: writes[i].cpu in m && m[writes[i].cpu] == writes[i].node
  {
    var m, writes := RecordsMap(APPLY, map[], records), AllWrites(TEXTS, records);
    MappingIsCapped(records);
    k := CappedIsCut(map[], writes);
    UncappedKeys(map[], writes[..k]);
    forall c
      ensures c in m <==> exists i :: 0 <= i < k && writes[i].cpu == c
    {
      CpusExact(writes[..k], c);
      assert forall i | 0 <= i < k :: writes[..k][i] == writes[i];
    }
    forall i: nat | LastWrite(writes[..k], i)
      ensures writes[i].cpu in m && m[writes[i].cpu] == writes[i].node
    {
      UncappedAt(map[], writes[..k], i);
    }
  }

  lemma FullSubset(a: set<nat>, b: set<nat>)
    requires a <= b && |b| <= |a|
    ensures a == b
  {
    if x :| x in b && x !in a {
      SubsetSize(a + {x}, b);
    }
  }

  lemma CutWithin(writes: seq<Write>, k: nat)
    requires Cut(map[], writes, k)
    ensures Uncapped(map[], writes[..k]).Keys == Cpus(writes[..k]) <= Cpus(writes)
    ensures |Cpus(writes)| <= MAX_CPUS ==> Cpus(writes[..k]) == Cpus(writes)
    ensures |Cpus(writes)| < MAX_CPUS ==> k == |writes|
  {
    UncappedKeys(map[], writes[..k]);
    CpusConcat(writes[..k], writes[k..]);
    assert writes == writes[..k] + writes[k..];
    SubsetSize(Cpus(writes[..k]), Cpus(writes));
    MapSize(Uncapped(map[], writes[..k]));
    if k == |writes| {
      assert writes[..k] == writes;
    } else if |Cpus(writes)| <= MAX_CPUS {
      FullSubset(Cpus(writes[..k]), Cpus(writes));
    }
  }

  lemma CoveredBy(records: seq<NumaRecord>)
    ensures forall c :: c in Cpus(AllWrites(TEXTS, records)) <==> SomeCovers(TEXTS, records, c)
  {
    forall c: nat
      ensures c in Cpus(AllWrites(TEXTS, records)) <==> SomeCovers(TEXTS, records, c)
    {
      CoveredExact(TEXTS, records, c);
    }
  }

  lemma MappedCpus(records: seq<NumaRecord>)
    ensures var m, covered := RecordsMap(APPLY, map[], records), Cpus(AllWrites(TEXTS, records));
      m.Keys <= covered && (m.Keys == covered <==> |covered| <= MAX_CPUS)
  {
    var k := MappingExact(records);
    CutWithin(AllWrites(TEXTS, records), k);
    MappingBounded(records);
    MapSize(RecordsMap(APPLY, map[], records));
  }

  /** Only covered CPUs are mapped, and all of them exactly if they are at most 1024. */
  lemma MappingCovers(records: seq<NumaRecord>)
    ensures var m, covered := RecordsMap(APPLY, map[], records), Cpus(AllWrites(TEXTS, records));
      && (forall c :: c in covered <==> SomeCovers(TEXTS, records, c))
      && (forall c | c in m :: SomeCovers(TEXTS, records, c))
      && ((forall c | SomeCovers(TEXTS, records, c) :: c in m) <==> |covered| <= MAX_CPUS)
  {
    CoveredBy(records);
    MappedCpus(records);
  }

  // ----- Records that fit -----

  /** c is in list k and in no later one. */
  ghost predicate LastCovers(meaning: PartMeaning, records: seq<NumaRecord>, k: nat, c: nat) {
    && k < |records| && Covers(meaning, records[k], c)
    && forall j | k < j < |records| :: !Covers(meaning, records[j], c)
  }

  lemma {:induction false} UncappedOneNode(m: NodeMap, writes: seq<Write>, node: nat, c: nat)
    requires forall w | w in writes :: w.node == node
    ensures c in Cpus(writes) ==> c in Uncapped(m, writes) && Uncapped(m, writes)[c] == node
    ensures c !in Cpus(writes) ==> (c in Uncapped(m, writes) <==> c in m) && (c in m ==> Uncapped(m, writes)[c] == m[c])
  {
    if writes != [] {
      var n := |writes| - 1;
      assert forall w | w in writes[..n] :: w in writes;
      UncappedOneNode(m, writes[..n], node, c);
      assert writes[n] in writes;
    }
  }

  /** A reader whose assignments all go to the node of the list. */
  ghost predicate OneNode(meaning: PartMeaning) {
    forall part, node, w | w in meaning(part, node) :: w.node == node
  }

  lemma {:induction false} ListOneNode(meaning: PartMeaning, parts: seq<string>, node: nat)
    requires OneNode(meaning)
    ensures forall w | w in ListWrites(meaning, parts, node) :: w.node == node
  {
    if parts != [] {
      ListOneNode(meaning, parts[1..], node);
    }
  }

  lemma {:induction false} UncappedLast(meaning: PartMeaning, records: seq<NumaRecord>, k: nat, c: nat)
    requires OneNode(meaning) && LastCovers(meaning, records, k, c)
    ensures var m := Uncapped(map[], AllWrites(meaning, records));
      c in m && m[c] == records[k].nodeId % TWO_32
  {
    var n := |records| - 1;
    var before, writes := AllWrites(meaning, records[..n]), RecordWrites(meaning, records[n]);
    UncappedConcat(map[], before, writes);
    ListOneNode(meaning, Pieces(records[n].cpuList, ','), records[n].nodeId % TWO_32);
    UncappedOneNode(Uncapped(map[], before), writes, records[n].nodeId % TWO_32, c);
    if k < n {
      assert !Covers(meaning, records[n], c);
      UncappedLast(meaning, records[..n], k, c);
    }
  }

  lemma TextsOneNode()
    ensures OneNode(TEXTS)
  {
    forall part, node, w | w in TEXTS(part, node)
      ensures w.node == node
    {
      PartOneNode(PartOf(part), node);
    }
  }

  /** Where fewer than 1024 CPUs are covered, each is mapped to the node of the last list that covers it. */
  lemma LastListWins(records: seq<NumaRecord>, k: nat, c: nat)
    requires |Cpus(AllWrites(TEXTS, records))| < MAX_CPUS && LastCovers(TEXTS, records, k, c)
    ensures var m := RecordsMap(APPLY, map[], records);
      c in m && m[c] == records[k].nodeId % TWO_32
  {
    var writes := AllWrites(TEXTS, records);
    var cut := MappingExact(records);
    CutWithin(writes, cut);
    assert writes[..cut] == writes;
    TextsOneNode();
    UncappedLast(TEXTS, records, k, c);
  }

  /** Once 1024 CPUs are mapped no further list changes anything, the nodes of mapped CPUs included. */
  lemma FullMappingStays(front: seq<NumaRecord>, rest: seq<NumaRecord>)
    requires |RecordsMap(APPLY, map[], front)| >= MAX_CPUS
    ensures RecordsMap(APPLY, map[], front + rest) == RecordsMap(APPLY, map[], front)
  {
    MappingIsCapped(front);
    MappingIsCapped(front + rest);
    AllWritesConcat(TEXTS, front, rest);
    CappedConcat(map[], AllWrites(TEXTS, front), AllWrites(TEXTS, rest));
    CappedFull(RecordsMap(APPLY, map[], front), AllWrites(TEXTS, rest));
  }

  /** An element is a range or a CPU exactly when it spells one, blanks aside; anything else writes nothing. */
  lemma ElementExact(text: string, node: nat)
    ensures forall a, b, start, end |
              Trimmed(text) == a + ['-'] + b && '-' !in a && Spells(a, start) && Spells(b, end) ::
              TextWrites(text, node) == PartWrites(Range(start, end), node)
    ensures forall cpu: nat | '-' !in Trimmed(text) && Spells(Trimmed(text), cpu) ::
              TextWrites(text, node) == [Write(cpu % TWO_32, node)]
    ensures TextWrites(text, node) == []
            || (exists a, b, start, end ::
                  Trimmed(text) == a + ['-'] + b && '-' !in a && Spells(a, start) && Spells(b, end))
            || (exists cpu: nat :: '-' !in Trimmed(text) && Spells(Trimmed(text), cpu))
  {
    var trimmed := Trimmed(text);
    forall a, b, start, end | trimmed == a + ['-'] + b && '-' !in a && Spells(a, start) && Spells(b, end)
      ensures PartOf(text) == Range(start, end)
    {
      FindSplits(a, '-', b);
      assert trimmed[..|a|] == a && trimmed[|a| + 1..] == b;
      ParseUintExact(a, start);
      ParseUintExact(b, end);
    }
    var dash := Find(trimmed, '-');
    if dash < |trimmed| {
      assert trimmed == trimmed[..dash] + ['-'] + trimmed[dash + 1..];
      match PartOf(text)
      case Range(start, end) =>
        ParseUintExact(trimmed[..dash], start);
        ParseUintExact(trimmed[dash + 1..], end);
      case _ =>
    } else {
      match PartOf(text)
      case Single(cpu) => ParseUintExact(trimmed, cpu);
      case _ =>
    }
    forall cpu: nat | '-' !in trimmed && Spells(trimmed, cpu)
      ensures PartOf(text) == Single(cpu)
    {
      ParseUintExact(trimmed, cpu);
    }
  }

  // ----- Examples -----

  function RangeText(start: nat, end: nat): string {
    Decimal(start) + ['-'] + Decimal(end)
  }

  lemma DecimalLetters(n: nat)
    ensures forall c | c in Decimal(n) :: IsDigit(c, 10)
    ensures ',' !in Decimal(n) && '-' !in Decimal(n) && forall i | 0 <= i < |Decimal(n)| :: !IsSpace(Decimal(n)[i])
  {
    assert forall i | 0 <= i < |Decimal(n)| :: IsDigit(Decimal(n)[i], 10);
  }

  lemma RangeTextReads(start: nat, end: nat)
    requires start <= U64_MAX && end <= U64_MAX
    ensures PartOf(RangeText(start, end)) == Range(start, end)
            && Pieces(RangeText(start, end), ',') == [RangeText(start, end)]
  {
    var a, b, text := Decimal(start), Decimal(end), RangeText(start, end);
    DecimalLetters(start);
    DecimalLetters(end);
    NoSpaceTrimmed(text);
    FindSplits(a, '-', b);
    ParseUintDecimal(start);
    ParseUintDecimal(end);
    assert text[..|a|] == a && text[|a| + 1..] == b;
    assert Join([text], ',') == text;
    PiecesJoin([text], ',');
  }

  lemma OnePartMapping(read: PartReading, r: NumaRecord)
    requires Pieces(r.cpuList, ',') == [r.cpuList]
    ensures RecordsMap(read, map[], [r]) == read(map[], r.cpuList, r.nodeId % TWO_32).0
  {
    var records, parts := [r], [r.cpuList];
    assert records[..0] == [] && parts[1..] == [];
    var (next, stop) := read(map[], r.cpuList, r.nodeId % TWO_32);
    assert ListMap(read, next, parts[1..], r.nodeId % TWO_32) == next;
  }

  lemma TextApplied(m: NodeMap, text: string, part: Part, node: nat)
    requires PartOf(text) == part
    ensures APPLY(m, text, node) == Applied(m, part, node)
  {
  }

  lemma OneRangeMapping(start: nat, end: nat, node: nat)
    requires start <= U64_MAX && end <= U64_MAX
    ensures RecordsMap(APPLY, map[], [NumaRecord(node, RangeText(start, end))])
         == RangeMap(map[], start, end, node % TWO_32)
  {
    RangeTextReads(start, end);
    OnePartMapping(APPLY, NumaRecord(node, RangeText(start, end)));
    TextApplied(map[], RangeText(start, end), Range(start, end), node % TWO_32);
  }

  lemma WrittenFull(key: KeyAt)
    requires Distinct(key)
    ensures |Written(key, MAX_CPUS)| >= MAX_CPUS
  {
    AssignedSize(map[], key, MAX_CPUS, 0);
    AssignedKeys(map[], key, MAX_CPUS, 0);
    MapSize(Assigned(map[], key, MAX_CPUS, 0));
  }

  lemma {:induction false} KeyWritesAt(key: KeyAt, n: nat, node: nat, i: nat)
    requires i < n
    ensures |KeyWrites(key, n, node)| == n && KeyWrites(key, n, node)[i] == Write(key(i), node)
  {
    if n > 1 {
      KeyWritesAt(key, n - 1, node, if i < n - 1 then i else 0);
    }
  }

  /** Every CPU assigned before the cut is mapped, and a cut behind which nothing is left maps all. */
  lemma CutFills(key: KeyAt, node: nat, writes: seq<Write>, k: nat)
    requires Distinct(key) && writes == KeyWrites(key, MAX_CPUS, node) && Cut(map[], writes, k)
    ensures |Uncapped(map[], writes[..k])| >= MAX_CPUS && k > 0 && |writes| == MAX_CPUS
  {
    KeyWritesAt(key, MAX_CPUS, node, 0);
    if k == |writes| {
      assert writes[..k] == writes;
      KeyWritesCpus(key, MAX_CPUS, node);
      WrittenFull(key);
      UncappedKeys(map[], writes);
      MapSize(Uncapped(map[], writes));
    }
  }

  lemma FirstMapped(writes: seq<Write>, node: nat)
    requires writes != [] && forall w | w in writes :: w.node == node
    ensures var m := Uncapped(map[], writes);
      writes[0].cpu in m && m[writes[0].cpu] == node
  {
    CpusExact(writes, writes[0].cpu);
    UncappedOneNode(map[], writes, node, writes[0].cpu);
  }

  /** 1024 different keys fill an empty map, all to the one node. */
  lemma KeysFill(key: KeyAt, node: nat)
    requires Distinct(key)
    ensures var m := Capped(map[], KeyWrites(key, MAX_CPUS, node));
      |m| >= MAX_CPUS && key(0) in m && m[key(0)] == node
  {
    var writes := KeyWrites(key, MAX_CPUS, node);
    var k := CappedIsCut(map[], writes);
    CutFills(key, node, writes, k);
    KeyWritesAt(key, MAX_CPUS, node, 0);
    KeyWritesCpus(key, MAX_CPUS, node);
    FirstMapped(writes[..k], node);
  }

  lemma RangeByKeys(start: nat, end: nat, node: nat, key: KeyAt)
    requires start <= end < U64_MAX && Width(start, end) == MAX_CPUS && key == LowKey(start)
    ensures RangeMap(map[], start, end, node) == Capped(map[], KeyWrites(key, MAX_CPUS, node))
    ensures Distinct(key)
  {
    RangeIsCapped(map[], start, end, node);
    LowKeyDistinct(start);
  }

  lemma FirstKey(start: nat, key: KeyAt)
    requires key == LowKey(start)
    ensures key(0) == start % TWO_32
  {
  }

  lemma RangeFills(start: nat, end: nat, node: nat, key: KeyAt)
    requires start <= end < U64_MAX && Width(start, end) == MAX_CPUS && key == LowKey(start)
    ensures var m := RangeMap(map[], start, end, node);
      |m| >= MAX_CPUS && start % TWO_32 in m && m[start % TWO_32] == node
  {
    RangeByKeys(start, end, node, key);
    KeysFill(key, node);
    FirstKey(start, key);
  }

  lemma SingleReads(cpu: nat)
    requires cpu < TWO_32
    ensures PartOf(Decimal(cpu)) == Single(cpu) && Pieces(Decimal(cpu), ',') == [Decimal(cpu)]
  {
    var text := Decimal(cpu);
    DecimalLetters(cpu);
    NoSpaceTrimmed(text);
    ParseUintDecimal(cpu);
    assert Join([text], ',') == text;
    PiecesJoin([text], ',');
  }

  lemma OnePartWrites(meaning: PartMeaning, r: NumaRecord)
    requires Pieces(r.cpuList, ',') == [r.cpuList]
    ensures RecordWrites(meaning, r) == meaning(r.cpuList, r.nodeId % TWO_32)
  {
    var parts := [r.cpuList];
    var n := r.nodeId % TWO_32;
    var writes := meaning(r.cpuList, n);
    assert parts[1..] == [] && writes + [] == writes;
    assert ListWrites(meaning, parts, n) == writes + ListWrites(meaning, parts[1..], n);
  }

  lemma PartText(text: string, part: Part, node: nat)
    requires PartOf(text) == part
    ensures TEXTS(text, node) == PartWrites(part, node)
  {
  }

  lemma SmallCpu(cpu: nat, node: nat)
    requires cpu < TWO_32
    ensures PartWrites(Single(cpu), node) == [Write(cpu, node)]
  {
  }

  lemma SingleWrites(cpu: nat, node: nat)
    requires cpu < TWO_32
    ensures TEXTS(Decimal(cpu), node) == [Write(cpu, node)]
  {
    SingleReads(cpu);
    PartText(Decimal(cpu), Single(cpu), node);
    SmallCpu(cpu, node);
  }

  lemma OneCpu(w: Write)
    ensures w.cpu in Cpus([w])
  {
    CpusExact([w], w.cpu);
    assert [w][0].cpu == w.cpu;
  }

  lemma SingleCovers(cpu: nat, node: nat)
    requires cpu < TWO_32
    ensures Covers(TEXTS, NumaRecord(node, Decimal(cpu)), cpu)
  {
    SingleReads(cpu);
    OnePartWrites(TEXTS, NumaRecord(node, Decimal(cpu)));
    SingleWrites(cpu, node % TWO_32);
    OneCpu(Write(cpu, node % TWO_32));
  }

  /** "0-1023" on node 0 and then "0" on node 1: CPU 0 keeps node 0 although the last list that covers it differs. */
  lemma KeptNodeExample()
    ensures var records := [NumaRecord(0, RangeText(0, MAX_CPUS - 1)), NumaRecord(1, Decimal(0))];
      var m := RecordsMap(APPLY, map[], records);
      LastCovers(TEXTS, records, 1, 0) && 0 in m && m[0] == 0
  {
    var first, second := NumaRecord(0, RangeText(0, MAX_CPUS - 1)), NumaRecord(1, Decimal(0));
    OneRangeMapping(0, MAX_CPUS - 1, 0);
    RangeFills(0, MAX_CPUS - 1, 0, LowKey(0));
    FullMappingStays([first], [second]);
    assert [first] + [second] == [first, second];
    SingleCovers(0, 1);
  }

  /** The list "18446744073709551614-18446744073709551615" maps CPU 0, which it does not name, and 1024 CPUs in all. */
  lemma TopListExample(node: nat)
    ensures var m := RecordsMap(APPLY, map[], [NumaRecord(node, RangeText(U64_MAX - 1, U64_MAX))]);
      0 in m && |m| == MAX_CPUS
  {
    OneRangeMapping(U64_MAX - 1, U64_MAX, node);
    OverrunExample(node % TWO_32);
    RangeBounded(map[], U64_MAX - 1, U64_MAX, node % TWO_32);
  }
}
