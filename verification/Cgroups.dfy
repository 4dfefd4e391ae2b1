/**
  The limits of a cgroup hierarchy: LimitSummary, read_cpu_limit, read_memory_limit and
  parse_cgroup_limits of src/parser/cgroup.cpp. Budgets are compared as exact ratios.
 */
module Cgroups {
  import opened Options
  import opened RawRecords
  import opened ParseUtils
  import opened StreamWords
  import opened Numbers

  // ----- The limit state machine -----

  datatype LimitState = Unknown | Unlimited | Finite | Incomplete

  datatype Summary<V> = Summary(state: LimitState, value: Option<V>)

  /** What one limit file says: a finite limit, no limit, or nothing that could be read. */
  datatype Event<V> = Adopt(limit: V) | NoLimit | Unreadable

  function Stepped<V>(less: (V, V) -> bool, s: Summary<V>, e: Event<V>): Summary<V> {
    match e
    case Adopt(limit) =>
      Summary(if s.state == Incomplete then Incomplete else Finite,
              if s.value.None? || less(limit, s.value.value) then Some(limit) else s.value)
    case NoLimit => s.(state := if s.state == Unknown then Unlimited else s.state)
    case Unreadable => s.(state := Incomplete)
  }

  function Folded<V>(less: (V, V) -> bool, events: seq<Event<V>>): Summary<V> {
    if events == [] then Summary(Unknown, None)
    else Stepped(less, Folded(less, events[..|events| - 1]), events[|events| - 1])
  }

  class LimitSummary<V> {
    const less: (V, V) -> bool
    var state: LimitState
    var value: Option<V>

    constructor (less: (V, V) -> bool)
      ensures this.less == less && Contents() == Summary(Unknown, None)
    {
      this.less, state, value := less, Unknown, None;
    }

    function Contents(): Summary<V>
      reads this
    {
      Summary(state, value)
    }

    method AdoptLimit(limit: V)
      modifies this
      ensures Contents() == Stepped(less, old(Contents()), Adopt(limit))
    {
      if value.None? || less(limit, value.value) {
        value := Some(limit);
      }
      if state != Incomplete {
        state := Finite;
      }
    }

    method MarkUnlimited()
      modifies this
      ensures Contents() == Stepped(less, old(Contents()), NoLimit)
    {
      if state == Unknown {
        state := Unlimited;
      }
    }

    method MarkUnreadable()
      modifies this
      ensures Contents() == Stepped(less, old(Contents()), Unreadable)
    {
      state := Incomplete;
    }

    predicate Known()
      reads this
    {
      state == Unlimited || state == Finite
    }
  }

  /** Strict order up to ties, as std::sort and std::min expect of operator<. */
  ghost predicate WeakOrder<V(!new)>(less: (V, V) -> bool) {
    && (forall a :: !less(a, a))
    && (forall a, b, c :: less(a, b) && less(b, c) ==> less(a, c))
    && (forall a, b, c :: !less(a, b) && !less(b, c) ==> !less(a, c))
  }

  ghost predicate Minimal<V(!new)>(less: (V, V) -> bool, events: seq<Event<V>>, v: V) {
    Adopt(v) in events && forall w | Adopt(w) in events :: !less(w, v)
  }

  predicate IsKnown(state: LimitState) {
    state == Unlimited || state == Finite
  }

  lemma SnocMembers<T>(q: seq<T>)
    requires q != []
    ensures forall x :: x in q <==> x in q[..|q| - 1] || x == q[|q| - 1]
  {
    assert q == q[..|q| - 1] + [q[|q| - 1]];
  }

  /** The state after any events; it is known exactly when something was read and nothing was unreadable. */
  lemma {:induction false} FoldedState<V(!new)>(less: (V, V) -> bool, events: seq<Event<V>>)
    ensures var s := Folded(less, events);
      && (s.state == Incomplete <==> Unreadable in events)
      && (s.state == Unknown <==> events == [])
      && (s.state == Finite <==> s.value.Some? && Unreadable !in events)
      && (IsKnown(s.state) <==> events != [] && Unreadable !in events)
  {
    if events != [] {
      FoldedState(less, events[..|events| - 1]);
      SnocMembers(events);
    }
  }

  /** The value after any events is a smallest finite limit, and there is one exactly when one was adopted. */
  lemma {:induction false} FoldedMinimum<V(!new)>(less: (V, V) -> bool, events: seq<Event<V>>)
    requires WeakOrder(less)
    ensures var s := Folded(less, events);
      if s.value.Some? then Minimal(less, events, s.value.value) else forall v :: Adopt(v) !in events
  {
    if events != [] {
      var front := events[..|events| - 1];
      FoldedMinimum(less, front);
      SnocMembers(events);
      var before, s := Folded(less, front), Folded(less, events);
      if s.value.Some? {
        forall w | Adopt(w) in events ensures !less(w, s.value.value) {
          if before.value.Some? && Adopt(w) in front {
            assert !less(w, before.value.value);
          }
        }
      }
    }
  }

  /** The order of the events does not matter, nor does repetition: same events, same state, tied values. */
  lemma FoldedUnordered<V(!new)>(less: (V, V) -> bool, a: seq<Event<V>>, b: seq<Event<V>>)
    requires WeakOrder(less) && forall e :: e in a <==> e in b
    ensures var s, t := Folded(less, a), Folded(less, b);
      && s.state == t.state && s.value.Some? == t.value.Some?
      && (s.value.Some? ==> !less(s.value.value, t.value.value) && !less(t.value.value, s.value.value))
  {
    FoldedState(less, a);
    FoldedState(less, b);
    FoldedMinimum(less, a);
    FoldedMinimum(less, b);
    if a != [] { assert a[0] in b; }
    if b != [] { assert b[0] in a; }
  }

  // ----- Budgets and sizes -----

  datatype Budget = Budget(quota: nat, period: nat)

  /** A budget that may be compared: neither part is zero. */
  type CpuBudget = b: Budget | b.quota > 0 && b.period > 0 witness Budget(1, 1)

  /** quota/period compared exactly, by cross multiplication. */
  predicate BudgetLess(a: CpuBudget, b: CpuBudget) {
    a.quota * b.period < b.quota * a.period
  }

  predicate SizeLess(a: nat, b: nat) {
    a < b
  }

  lemma Reorder(x: nat, y: nat, z: nat)
    ensures (x * y) * z == (x * z) * y
  {
  }

  lemma Scale(x: nat, y: nat, k: nat)
    requires x <= y && k > 0
    ensures x * k <= y * k && (x < y ==> x * k < y * k)
  {
  }

  lemma Unscale(x: nat, y: nat, k: nat)
    requires k > 0
    ensures x * k <= y * k ==> x <= y
    ensures x * k < y * k ==> x < y
  {
    if x > y {
      Scale(y, x, k);
    }
  }

  lemma CrossTransitive(a: CpuBudget, b: CpuBudget, c: CpuBudget)
    requires a.quota * b.period <= b.quota * a.period && b.quota * c.period <= c.quota * b.period
    ensures a.quota * c.period <= c.quota * a.period
    ensures a.quota * b.period < b.quota * a.period ==> a.quota * c.period < c.quota * a.period
  {
    var left, middle, right := a.quota * b.period, b.quota * a.period, b.quota * c.period;
    Scale(left, middle, c.period);
    Scale(right, c.quota * b.period, a.period);
    Reorder(a.quota, b.period, c.period);
    Reorder(b.quota, a.period, c.period);
    Reorder(c.quota, b.period, a.period);
    Unscale(a.quota * c.period, c.quota * a.period, b.period);
  }

  lemma BudgetLessIsWeakOrder()
    ensures WeakOrder(BudgetLess)
  {
    forall a: CpuBudget, b: CpuBudget, c: CpuBudget
      ensures BudgetLess(a, b) && BudgetLess(b, c) ==> BudgetLess(a, c)
      ensures !BudgetLess(a, b) && !BudgetLess(b, c) ==> !BudgetLess(a, c)
    {
      if BudgetLess(a, b) && BudgetLess(b, c) {
        CrossTransitive(a, b, c);
      }
      if !BudgetLess(a, b) && !BudgetLess(b, c) {
        CrossTransitive(c, b, a);
      }
    }
  }

  // ----- Reading limit files -----

  /** The file names the parser looks for, out of the last path component. */
  datatype File = CpuMax | CfsQuota | CfsPeriod | MemoryMax | MemoryLimitInBytes | OtherFile(name: string)

  datatype Record = Record(status: CollectStatus, directory: string, file: File, payload: string)

  /** A CPU limit file that was collected. */
  predicate IsCpuFile(r: Record) {
    r.status != NotCollected && (r.file == CpuMax || r.file == CfsQuota)
  }

  /** A memory limit file that was collected. */
  predicate IsMemoryFile(r: Record) {
    r.status != NotCollected && (r.file == MemoryMax || r.file == MemoryLimitInBytes)
  }

  /** What one CPU limit says, and its period when it says that there is no limit. */
  datatype CpuReading = CpuReading(event: Event<CpuBudget>, unlimitedPeriod: Option<nat>)

  const NO_CPU_READING: CpuReading := CpuReading(Unreadable, None)

  function ReadCpu(quotaText: string, periodText: string): CpuReading {
    var period, quota := ParseUint(periodText), ParseUint(quotaText);
    var unlimited := quotaText == "max" || quotaText == "-1";
    if period.None? || period.value == 0 || (!unlimited && (quota.None? || quota.value == 0)) then NO_CPU_READING
    else if unlimited then CpuReading(NoLimit, Some(period.value))
    else CpuReading(Adopt(Budget(quota.value, period.value)), None)
  }

  function ReadMemory(file: File, value: string): Event<nat> {
    var limit := ParseUint(value);
    if value == "max" || (file == MemoryLimitInBytes && limit.Some? && limit.value >= I64_MAX - 65535) then NoLimit
    else if limit.Some? then Adopt(limit.value)
    else Unreadable
  }

  type Values = map<(string, File), string>

  /** The texts of all readable records by path, the first one of a path kept. */
  function ValuesOf(records: seq<Record>): Values {
    if records == [] then map[] else
    var before, r := ValuesOf(records[..|records| - 1]), records[|records| - 1];
    if r.status != Success || (r.directory, r.file) in before then before
    else before[(r.directory, r.file) := Trimmed(r.payload)]
  }

  /** What a record says about the CPU limit; nothing for other files and uncollected records. */
  function CpuOf(r: Record, values: Values): Option<CpuReading> {
    if r.status == NotCollected then None else
    match r.file
    case CpuMax =>
      var words := Words(Trimmed(r.payload));
      Some(if r.status == Success && |words| == 2 then ReadCpu(words[0], words[1]) else NO_CPU_READING)
    case CfsQuota =>
      Some(if r.status == Success && (r.directory, CfsPeriod) in values
           then ReadCpu(Trimmed(r.payload), values[(r.directory, CfsPeriod)]) else NO_CPU_READING)
    case _ => None
  }

  function MemoryOf(r: Record): Option<Event<nat>> {
    if r.status == NotCollected || !(r.file == MemoryMax || r.file == MemoryLimitInBytes) then None
    else if r.status == Success then Some(ReadMemory(r.file, Trimmed(r.payload)))
    else Some(Unreadable)
  }

  /** The readings of all records, in order, for any reader. */
  function Readings<E>(read: Record -> Option<E>, records: seq<Record>): seq<E> {
    if records == [] then [] else
    var last := read(records[|records| - 1]);
    Readings(read, records[..|records| - 1]) + if last.Some? then [last.value] else []
  }

  function CpuReader(values: Values): Record -> Option<CpuReading> {
    r => CpuOf(r, values)
  }

  function CpuEventReader(values: Values): Record -> Option<Event<CpuBudget>> {
    r => var reading := CpuOf(r, values); if reading.None? then None else Some(reading.value.event)
  }

  function CpuEvents(records: seq<Record>): seq<Event<CpuBudget>> {
    Readings(CpuEventReader(ValuesOf(records)), records)
  }

  function MemoryEvents(records: seq<Record>): seq<Event<nat>> {
    Readings(MemoryOf, records)
  }

  /** The period of the first CPU file without a limit. */
  function FirstPeriod(readings: seq<CpuReading>): Option<nat> {
    if readings == [] then None else
    var before := FirstPeriod(readings[..|readings| - 1]);
    if before.Some? then before else readings[|readings| - 1].unlimitedPeriod
  }

  function CpuSummary(records: seq<Record>): Summary<CpuBudget> {
    Folded(BudgetLess, CpuEvents(records))
  }

  function MemorySummary(records: seq<Record>): Summary<nat> {
    Folded(SizeLess, MemoryEvents(records))
  }

  // ----- parse_cgroup_limits -----

  class Cgroup {
    var cpuQuota: Option<nat>
    var cpuPeriod: Option<nat>
    var memoryLimit: Option<nat>
    var cpuLimitKnown: bool
    var memoryLimitKnown: bool
  }

  method AddCpu(cpu: LimitSummary<CpuBudget>, period: Option<nat>, reading: CpuReading) returns (next: Option<nat>)
    modifies cpu
    ensures cpu.Contents() == Stepped(cpu.less, old(cpu.Contents()), reading.event)
    ensures next == if period.Some? then period else reading.unlimitedPeriod
  {
    match reading.event {
      case Adopt(limit) => cpu.AdoptLimit(limit);
      case NoLimit => cpu.MarkUnlimited();
      case Unreadable => cpu.MarkUnreadable();
    }
    return if period.Some? then period else reading.unlimitedPeriod;
  }

  method AddMemory(memory: LimitSummary<nat>, event: Event<nat>)
    modifies memory
    ensures memory.Contents() == Stepped(memory.less, old(memory.Contents()), event)
  {
    match event {
      case Adopt(limit) => memory.AdoptLimit(limit);
      case NoLimit => memory.MarkUnlimited();
      case Unreadable => memory.MarkUnreadable();
    }
  }

  method CollectValues(records: seq<Record>) returns (values: Values)
    ensures values == ValuesOf(records)
  {
    values := map[];
    for i := 0 to |records|
      invariant values == ValuesOf(records[..i])
    {
      assert records[..i + 1][..i] == records[..i];
      var r := records[i];
      if r.status == Success && (r.directory, r.file) !in values {
        values := values[(r.directory, r.file) := Trimmed(r.payload)];
      }
    }
    assert records[..|records|] == records;
  }

  function Fed<V>(less: (V, V) -> bool, s: Summary<V>, event: Option<Event<V>>): Summary<V> {
    if event.None? then s else Stepped(less, s, event.value)
  }

  /** The CPU side of the loop body. */
  method FeedCpu(cpu: LimitSummary<CpuBudget>, period: Option<nat>, r: Record, values: Values)
    returns (next: Option<nat>)
    requires cpu.less == BudgetLess
    modifies cpu
    ensures cpu.Contents() == Fed(BudgetLess, old(cpu.Contents()), CpuEventReader(values)(r))
    ensures next == if period.Some? || CpuOf(r, values).None? then period else CpuOf(r, values).value.unlimitedPeriod
  {
    next := period;
    var reading := CpuOf(r, values);
    if reading.Some? {
      next := AddCpu(cpu, period, reading.value);
    }
  }

  method FeedMemory(memory: LimitSummary<nat>, r: Record)
    requires memory.less == SizeLess
    modifies memory
    ensures memory.Contents() == Fed(SizeLess, old(memory.Contents()), MemoryOf(r))
  {
    var event := MemoryOf(r);
    if event.Some? {
      AddMemory(memory, event.value);
    }
  }

  lemma FoldedStep<V>(less: (V, V) -> bool, read: Record -> Option<Event<V>>, records: seq<Record>, i: nat)
    requires i < |records|
    ensures Folded(less, Readings(read, records[..i + 1]))
         == Fed(less, Folded(less, Readings(read, records[..i])), read(records[i]))
  {
    assert records[..i + 1][..i] == records[..i];
    var before := Readings(read, records[..i]);
    if read(records[i]).Some? {
      assert (before + [read(records[i]).value])[..|before|] == before;
    } else {
      assert before + [] == before;
    }
  }

  lemma PeriodStep(values: Values, records: seq<Record>, i: nat)
    requires i < |records|
    ensures var read := CpuReader(values); var before := FirstPeriod(Readings(read, records[..i]));
      FirstPeriod(Readings(read, records[..i + 1])) ==
      if before.Some? || CpuOf(records[i], values).None? then before
      else CpuOf(records[i], values).value.unlimitedPeriod
  {
    assert records[..i + 1][..i] == records[..i];
    var read := CpuReader(values);
    var before := Readings(read, records[..i]);
    if read(records[i]).Some? {
      assert (before + [read(records[i]).value])[..|before|] == before;
    } else {
      assert before + [] == before;
    }
  }

  /** The loop over the records. */
  method ReadLimits(records: seq<Record>, values: Values)
    returns (cpu: LimitSummary<CpuBudget>, memory: LimitSummary<nat>, period: Option<nat>)
    ensures fresh(cpu) && fresh(memory)
    ensures cpu.Contents() == Folded(BudgetLess, Readings(CpuEventReader(values), records))
    ensures memory.Contents() == Folded(SizeLess, Readings(MemoryOf, records))
    ensures period == FirstPeriod(Readings(CpuReader(values), records))
  {
    cpu := new LimitSummary<CpuBudget>(BudgetLess);
    memory := new LimitSummary<nat>(SizeLess);
    period := None;
    var i := 0;
    while i < |records|
      invariant 0 <= i <= |records| && fresh(cpu) && fresh(memory)
      invariant cpu.less == BudgetLess && memory.less == SizeLess
      invariant cpu.Contents() == Folded(BudgetLess, Readings(CpuEventReader(values), records[..i]))
      invariant memory.Contents() == Folded(SizeLess, Readings(MemoryOf, records[..i]))
      invariant period == FirstPeriod(Readings(CpuReader(values), records[..i]))
    {
      FoldedStep(BudgetLess, CpuEventReader(values), records, i);
      FoldedStep(SizeLess, MemoryOf, records, i);
      PeriodStep(values, records, i);
      period := FeedCpu(cpu, period, records[i], values);
      FeedMemory(memory, records[i]);
      i := i + 1;
    }
    assert records[..|records|] == records;
  }

  /** parse_cgroup_limits: the context reports what the two summaries ended with; an incomplete one is warned about. */
  method ParseCgroupLimits(records: seq<Record>, group: Cgroup) returns (cpuIncomplete: bool, memoryIncomplete: bool)
    modifies group
    ensures cpuIncomplete == (CpuSummary(records).state == Incomplete)
    ensures memoryIncomplete == (MemorySummary(records).state == Incomplete)
    ensures group.cpuLimitKnown == IsKnown(CpuSummary(records).state)
    ensures group.memoryLimitKnown == IsKnown(MemorySummary(records).state)
    ensures var budget := CpuSummary(records).value;
      if budget.Some? then group.cpuQuota == Some(budget.value.quota) && group.cpuPeriod == Some(budget.value.period)
      else group.cpuQuota == old(group.cpuQuota)
           && group.cpuPeriod == FirstPeriod(Readings(CpuReader(ValuesOf(records)), records))
    ensures var size := MemorySummary(records).value;
      group.memoryLimit == if size.Some? then size else old(group.memoryLimit)
  {
    var values := CollectValues(records);
    var cpu, memory, period := ReadLimits(records, values);
    group.cpuLimitKnown := cpu.Known();
    group.memoryLimitKnown := memory.Known();
    if cpu.value.Some? {
      group.cpuQuota := Some(cpu.value.value.quota);
      group.cpuPeriod := Some(cpu.value.value.period);
    } else {
      group.cpuPeriod := period;
    }
    if memory.value.Some? {
      group.memoryLimit := memory.value;
    }
    cpuIncomplete, memoryIncomplete := cpu.state == Incomplete, memory.state == Incomplete;
  }

  // ----- What the limits are -----

  ghost predicate SomeReads<E>(read: Record -> Option<E>, records: seq<Record>, e: E) {
    exists r :: r in records && read(r) == Some(e)
  }

  lemma {:induction false} ReadingsExact<E>(read: Record -> Option<E>, records: seq<Record>, e: E)
    ensures e in Readings(read, records) <==> SomeReads(read, records, e)
  {
    if records != [] {
      var n := |records| - 1;
      ReadingsExact(read, records[..n], e);
      SnocMembers(records);
    }
  }

  /** The smallest finite limit read, and knowledge exactly when some file was read and none was unreadable. */
  lemma MemoryReadingsExact(records: seq<Record>)
    ensures var s := MemorySummary(records);
      && (if s.value.Some?
          then SomeReads(MemoryOf, records, Adopt(s.value.value))
               && forall v | SomeReads(MemoryOf, records, Adopt(v)) :: s.value.value <= v
          else forall v: nat :: !SomeReads(MemoryOf, records, Adopt(v)))
      && (IsKnown(s.state) <==>
            (exists r :: r in records && MemoryOf(r).Some?) && !SomeReads(MemoryOf, records, Unreadable))
  {
    var events := MemoryEvents(records);
    FoldedMinimum(SizeLess, events);
    FoldedState(SizeLess, events);
    forall e ensures e in events <==> SomeReads(MemoryOf, records, e) {
      ReadingsExact(MemoryOf, records, e);
    }
    if events != [] {
      assert events[0] in events;
    }
    if r :| r in records && MemoryOf(r).Some? {
      assert SomeReads(MemoryOf, records, MemoryOf(r).value);
    }
  }

  lemma CpuReadingsExact(records: seq<Record>)
    ensures var s, read := CpuSummary(records), CpuEventReader(ValuesOf(records));
      && (if s.value.Some?
          then SomeReads(read, records, Adopt(s.value.value))
               && forall b: CpuBudget | SomeReads(read, records, Adopt(b)) :: !BudgetLess(b, s.value.value)
          else forall b: CpuBudget :: !SomeReads(read, records, Adopt(b)))
      && (IsKnown(s.state) <==> (exists r :: r in records && read(r).Some?) && !SomeReads(read, records, Unreadable))
  {
    var read := CpuEventReader(ValuesOf(records));
    var events := CpuEvents(records);
    BudgetLessIsWeakOrder();
    FoldedMinimum(BudgetLess, events);
    FoldedState(BudgetLess, events);
    forall e ensures e in events <==> SomeReads(read, records, e) {
      ReadingsExact(read, records, e);
    }
    if events != [] {
      assert events[0] in events;
    }
    if r :| r in records && read(r).Some? {
      assert SomeReads(read, records, read(r).value);
    }
  }
}
