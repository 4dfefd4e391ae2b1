/** What the parts of a parsed CPU model owe each other: dense numbers, ownership, counts and NUMA nodes. */
module CpuConsistency {
  import opened Options
  import opened SortedSets
  import opened Numa
  import opened Counting
  import opened CpuTopology
  import opened CpuParser

  // ----- The passes, element by element -----

  lemma NumbersComplete(entries: seq<Entry>, e: Entry)
    requires e in entries
    ensures var numbers := NumbersOf(entries);
      var keys, ids := Ascending(CoreKeys(entries)), Ascending(PhysicalIds(entries));
      && CoreKey(e) in numbers.cores && numbers.cores[CoreKey(e)] < |keys|
      && keys[numbers.cores[CoreKey(e)]] == CoreKey(e)
      && e.physicalId in numbers.packages && numbers.packages[e.physicalId] < |ids|
      && ids[numbers.packages[e.physicalId]] == e.physicalId
  {
    var i :| 0 <= i < |entries| && entries[i] == e;
    IdsExact(entries, i);
    AscendingMembers(CoreKeys(entries));
    AscendingMembers(PhysicalIds(entries));
    NumberedExact(Ascending(CoreKeys(entries)), CoreKey(e));
    NumberedExact(Ascending(PhysicalIds(entries)), e.physicalId);
  }

  lemma {:induction false} LogicalsExact(entries: seq<Entry>, numbers: DenseNumbers)
    requires forall e | e in entries :: CoreKey(e) in numbers.cores && e.physicalId in numbers.packages
    ensures |LogicalsOf(entries, numbers)| == |entries|
    ensures forall i | 0 <= i < |entries| ::
              LogicalsOf(entries, numbers)[i] ==
              LogicalCpu(entries[i].processor, numbers.cores[CoreKey(entries[i])],
                         numbers.packages[entries[i].physicalId], None)
  {
    if entries != [] {
      LogicalsExact(entries[..|entries| - 1], numbers);
    }
  }

  lemma {:induction false} CoresExact(keys: seq<nat>, packages: map<nat, nat>)
    ensures |CoresOf(keys, packages)| == |keys|
    ensures forall i | 0 <= i < |keys| :: CoresOf(keys, packages)[i]
              == Core(i, At(packages, PackageOfKey(keys[i])), 0, None)
  {
    if keys != [] {
      CoresExact(keys[..|keys| - 1], packages);
    }
  }

  lemma {:induction false} PackagesExact(n: nat)
    ensures |PackagesOf(n)| == n
    ensures forall i | 0 <= i < n :: PackagesOf(n)[i] == Package(i, 0, 0)
  {
    if n > 0 {
      PackagesExact(n - 1);
    }
  }

  lemma CountedPackageAt(n: nat, cores: seq<Core>, logicals: seq<LogicalCpu>, i: nat)
    requires i < n
    ensures |CountedPackages(PackagesOf(n), cores, logicals)| == n
    ensures CountedPackages(PackagesOf(n), cores, logicals)[i]
            == Package(i, CountIf(CorePackages(cores), Is(i)), CountIf(LogicalPackages(logicals), Is(i)))
  {
    PackagesExact(n);
  }

  lemma PlacedCoreAt(keys: seq<nat>, packages: map<nat, nat>, logicals: seq<LogicalCpu>, m: NodeMap, i: nat)
    requires i < |keys|
    ensures var placed := PlacedCores(CountedCores(CoresOf(keys, packages), logicals), logicals, m);
      && |placed| == |keys|
      && placed[i] == Core(i, At(packages, PackageOfKey(keys[i])), CountIf(LogicalCores(logicals), Is(i)),
                        FirstThreadNode(logicals, i, m))
  {
    CoresExact(keys, packages);
  }

  // ----- Numbers -----

  /** One logical CPU per entry, in order, with the entry's processor number. */
  lemma NoEntryLost(f: CpuFields, entries: seq<Entry>, m: NodeMap)
    requires f == FieldsOf(entries, m)
    ensures |f.logicals| == |entries|
    ensures forall i | 0 <= i < |entries| ::
              var l, e, numbers := f.logicals[i], entries[i], NumbersOf(entries);
              && CoreKey(e) in numbers.cores && e.physicalId in numbers.packages
              && l.id == e.processor && l.coreId == numbers.cores[CoreKey(e)]
              && l.packageId == numbers.packages[e.physicalId]
  {
    forall e | e in entries
      ensures CoreKey(e) in NumbersOf(entries).cores && e.physicalId in NumbersOf(entries).packages
    {
      NumbersComplete(entries, e);
    }
    LogicalsExact(entries, NumbersOf(entries));
  }

  /** What every package holds. */
  lemma PackageExact(f: CpuFields, entries: seq<Entry>, m: NodeMap, i: nat)
    requires f == FieldsOf(entries, m) && i < |f.packages|
    ensures var logicals := LogicalsOf(entries, NumbersOf(entries));
      var cores := CoresOf(Ascending(CoreKeys(entries)), NumbersOf(entries).packages);
      && |f.packages| == |Ascending(PhysicalIds(entries))|
      && f.packages[i] == Package(i, CountIf(CorePackages(cores), Is(i)), CountIf(LogicalPackages(logicals), Is(i)))
  {
    PackagesExact(|Ascending(PhysicalIds(entries))|);
    CountedPackageAt(|Ascending(PhysicalIds(entries))|,
                     CoresOf(Ascending(CoreKeys(entries)), NumbersOf(entries).packages),
                     LogicalsOf(entries, NumbersOf(entries)), i);
  }

  /** What every core holds. */
  lemma CoreExact(f: CpuFields, entries: seq<Entry>, m: NodeMap, i: nat)
    requires f == FieldsOf(entries, m) && i < |f.cores|
    ensures var logicals := LogicalsOf(entries, NumbersOf(entries));
      var keys := Ascending(CoreKeys(entries));
      && |f.cores| == |keys|
      && f.cores[i] == Core(i, At(NumbersOf(entries).packages, PackageOfKey(keys[i])),
                            CountIf(LogicalCores(logicals), Is(i)),
                            FirstThreadNode(logicals, i, m))
  {
    CoresExact(Ascending(CoreKeys(entries)), NumbersOf(entries).packages);
    PlacedCoreAt(Ascending(CoreKeys(entries)), NumbersOf(entries).packages,
                 LogicalsOf(entries, NumbersOf(entries)), m, i);
  }

  lemma Sizes(f: CpuFields, entries: seq<Entry>, m: NodeMap)
    requires f == FieldsOf(entries, m)
    ensures |f.packages| == |Ascending(PhysicalIds(entries))| && |f.cores| == |Ascending(CoreKeys(entries))|
  {
    PackagesExact(|Ascending(PhysicalIds(entries))|);
    CoresExact(Ascending(CoreKeys(entries)), NumbersOf(entries).packages);
  }

  /** Package and core numbers are the positions, counted from zero. */
  lemma NumbersAreDense(f: CpuFields, entries: seq<Entry>, m: NodeMap, i: nat)
    requires f == FieldsOf(entries, m)
    ensures |f.packages| == |PhysicalIds(entries)| && |f.cores| == |CoreKeys(entries)|
    ensures i < |f.packages| ==> f.packages[i].id == i
    ensures i < |f.cores| ==> f.cores[i].id == i
  {
    Sizes(f, entries, m);
    AscendingMembers(PhysicalIds(entries));
    AscendingMembers(CoreKeys(entries));
    if i < |f.packages| {
      PackageExact(f, entries, m, i);
    }
    if i < |f.cores| {
      CoreExact(f, entries, m, i);
    }
  }

  /**
    Two logical CPUs are threads of one core exactly when their entries agree on package and core number,
    and of one package exactly when the entries agree on the package number.
   */
  lemma SharingExact(f: CpuFields, entries: seq<Entry>, m: NodeMap, i: nat, j: nat)
    requires f == FieldsOf(entries, m) && i < |entries| && j < |entries|
    ensures |f.logicals| == |entries|
    ensures f.logicals[i].coreId == f.logicals[j].coreId <==>
            entries[i].physicalId == entries[j].physicalId && entries[i].coreId == entries[j].coreId
    ensures f.logicals[i].packageId == f.logicals[j].packageId <==> entries[i].physicalId == entries[j].physicalId
  {
    NoEntryLost(f, entries, m);
    NumbersComplete(entries, entries[i]);
    NumbersComplete(entries, entries[j]);
    CoreKeyExact(entries[i], entries[j]);
  }

  /** Every thread's core and package exist, and its core belongs to its package. */
  lemma ThreadsBelong(f: CpuFields, entries: seq<Entry>, m: NodeMap, i: nat)
    requires f == FieldsOf(entries, m) && i < |f.logicals|
    ensures f.logicals[i].coreId < |f.cores| && f.logicals[i].packageId < |f.packages|
    ensures f.cores[f.logicals[i].coreId].packageId == f.logicals[i].packageId
  {
    NoEntryLost(f, entries, m);
    Sizes(f, entries, m);
    NumbersComplete(entries, entries[i]);
    CoreKeyExact(entries[i], entries[i]);
    CoreExact(f, entries, m, f.logicals[i].coreId);
  }

  lemma IncreasingInjective(q: seq<nat>, i: nat, j: nat)
    requires Increasing(q) && i < |q| && j < |q| && q[i] == q[j]
    ensures i == j
  {
  }

  /** No core is empty. */
  lemma CoresHaveThreads(f: CpuFields, entries: seq<Entry>, m: NodeMap, core: nat) returns (i: nat)
    requires f == FieldsOf(entries, m) && core < |f.cores|
    ensures i < |f.logicals| && f.logicals[i].coreId == core
  {
    Sizes(f, entries, m);
    NoEntryLost(f, entries, m);
    var keys := Ascending(CoreKeys(entries));
    AscendingMembers(CoreKeys(entries));
    IdsComeFrom(entries);
    assert keys[core] in keys;
    i :| i < |entries| && CoreKey(entries[i]) == keys[core];
    NumbersComplete(entries, entries[i]);
    IncreasingInjective(keys, f.logicals[i].coreId, core);
  }

  lemma PackagesHaveThreads(f: CpuFields, entries: seq<Entry>, m: NodeMap, package: nat) returns (i: nat)
    requires f == FieldsOf(entries, m) && package < |f.packages|
    ensures i < |f.logicals| && f.logicals[i].packageId == package
  {
    Sizes(f, entries, m);
    NoEntryLost(f, entries, m);
    var ids := Ascending(PhysicalIds(entries));
    AscendingMembers(PhysicalIds(entries));
    IdsComeFrom(entries);
    assert ids[package] in ids;
    i :| i < |entries| && entries[i].physicalId == ids[package];
    NumbersComplete(entries, entries[i]);
    IncreasingInjective(ids, f.logicals[i].packageId, package);
  }

  // ----- Counts -----

  function Sum(counts: seq<nat>): nat {
    if counts == [] then 0 else Sum(counts[..|counts| - 1]) + counts[|counts| - 1]
  }

  function PackageThreads(packages: seq<Package>): seq<nat> {
    seq(|packages|, i requires 0 <= i < |packages| => packages[i].logicalThreads)
  }

  function PackageCores(packages: seq<Package>): seq<nat> {
    seq(|packages|, i requires 0 <= i < |packages| => packages[i].physicalCores)
  }

  function CoreThreads(cores: seq<Core>): seq<nat> {
    seq(|cores|, i requires 0 <= i < |cores| => cores[i].logicalThreads)
  }

  lemma {:induction false} SumOfCounted(counts: seq<nat>, q: seq<nat>)
    requires forall i | 0 <= i < |counts| :: counts[i] == CountIf(q, Is(i))
    ensures Sum(counts) == SumOfCounts(q, |counts|)
  {
    if counts != [] {
      SumOfCounted(counts[..|counts| - 1], q);
    }
  }

  lemma CountedAddUp(counts: seq<nat>, q: seq<nat>)
    requires forall i | 0 <= i < |counts| :: counts[i] == CountIf(q, Is(i))
    requires forall i | 0 <= i < |q| :: q[i] < |counts|
    ensures Sum(counts) == |q|
  {
    SumOfCounted(counts, q);
    CountsAddUp(q, |counts|);
  }

  lemma ThreadBounds(f: CpuFields, entries: seq<Entry>, m: NodeMap)
    requires f == FieldsOf(entries, m)
    ensures |LogicalsOf(entries, NumbersOf(entries))| == |entries|
    ensures forall l | l in LogicalsOf(entries, NumbersOf(entries)) ::
              l.packageId < |f.packages| && l.coreId < |f.cores|
  {
    NoEntryLost(f, entries, m);
    var logicals := LogicalsOf(entries, NumbersOf(entries));
    forall i: nat | i < |logicals|
      ensures logicals[i].packageId < |f.packages| && logicals[i].coreId < |f.cores|
    {
      ThreadsBelong(f, entries, m, i);
    }
  }

  lemma CoreBounds(f: CpuFields, entries: seq<Entry>, m: NodeMap)
    requires f == FieldsOf(entries, m)
    ensures |CoresOf(Ascending(CoreKeys(entries)), NumbersOf(entries).packages)| == |f.cores|
    ensures forall c | c in CoresOf(Ascending(CoreKeys(entries)), NumbersOf(entries).packages) ::
              c.packageId < |f.packages|
  {
    var cores := CoresOf(Ascending(CoreKeys(entries)), NumbersOf(entries).packages);
    forall i: nat | i < |cores|
      ensures cores[i].packageId < |f.packages|
    {
      var thread := CoresHaveThreads(f, entries, m, i);
      ThreadsBelong(f, entries, m, thread);
    }
  }

  /** The thread counts of the packages add up to the number of entries. */
  lemma PackageThreadsAddUp(f: CpuFields, entries: seq<Entry>, m: NodeMap)
    requires f == FieldsOf(entries, m)
    ensures Sum(PackageThreads(f.packages)) == |entries|
  {
    ThreadBounds(f, entries, m);
    forall i: nat | i < |f.packages|
      ensures PackageThreads(f.packages)[i] == CountIf(LogicalPackages(LogicalsOf(entries, NumbersOf(entries))), Is(i))
    {
      PackageExact(f, entries, m, i);
    }
    CountedAddUp(PackageThreads(f.packages), LogicalPackages(LogicalsOf(entries, NumbersOf(entries))));
  }

  /** So do those of the cores. */
  lemma CoreThreadsAddUp(f: CpuFields, entries: seq<Entry>, m: NodeMap)
    requires f == FieldsOf(entries, m)
    ensures Sum(CoreThreads(f.cores)) == |entries|
  {
    ThreadBounds(f, entries, m);
    forall i: nat | i < |f.cores|
      ensures CoreThreads(f.cores)[i] == CountIf(LogicalCores(LogicalsOf(entries, NumbersOf(entries))), Is(i))
    {
      CoreExact(f, entries, m, i);
    }
    CountedAddUp(CoreThreads(f.cores), LogicalCores(LogicalsOf(entries, NumbersOf(entries))));
  }

  /** The core counts of the packages add up to the number of cores. */
  lemma PackageCoresAddUp(f: CpuFields, entries: seq<Entry>, m: NodeMap)
    requires f == FieldsOf(entries, m)
    ensures Sum(PackageCores(f.packages)) == |f.cores|
  {
    var owners := CorePackages(CoresOf(Ascending(CoreKeys(entries)), NumbersOf(entries).packages));
    CoreBounds(f, entries, m);
    forall i: nat | i < |f.packages|
      ensures PackageCores(f.packages)[i] == CountIf(owners, Is(i))
    {
      PackageExact(f, entries, m, i);
    }
    CountedAddUp(PackageCores(f.packages), owners);
  }

  // ----- NUMA -----

  /** A logical CPU carries node n exactly when node n lists it. */
  lemma NodeListsThread(f: CpuFields, entries: seq<Entry>, m: NodeMap, i: nat, node: nat)
    requires f == FieldsOf(entries, m) && i < |f.logicals|
    ensures f.logicals[i].numaNode == Some(node) <==> Numa.Lists(f.nodes, node, f.logicals[i].id)
  {
    NodesInvertMap(m, node, f.logicals[i].id);
  }

  lemma {:induction false} FirstThreadExact(logicals: seq<LogicalCpu>, core: nat, m: NodeMap, i: nat)
    requires i < |logicals| && logicals[i].coreId == core
    requires forall j | 0 <= j < i :: logicals[j].coreId != core
    ensures FirstThreadNode(logicals, core, m) == Looked(m, logicals[i].id)
  {
    if i > 0 {
      FirstThreadExact(logicals[1..], core, m, i - 1);
    }
  }

  /** A core carries the node of its first thread, whatever its other threads carry. */
  lemma CoreNodeIsFirstThreads(f: CpuFields, entries: seq<Entry>, m: NodeMap, i: nat)
    requires f == FieldsOf(entries, m) && i < |f.logicals| && f.logicals[i].coreId < |f.cores|
    requires forall j | 0 <= j < i :: f.logicals[j].coreId != f.logicals[i].coreId
    ensures f.cores[f.logicals[i].coreId].numaNode == f.logicals[i].numaNode
  {
    var logicals := LogicalsOf(entries, NumbersOf(entries));
    CoreExact(f, entries, m, f.logicals[i].coreId);
    assert forall j | 0 <= j <= i :: logicals[j].coreId == f.logicals[j].coreId;
    FirstThreadExact(logicals, f.logicals[i].coreId, m, i);
  }

  ghost predicate SameCore(e: Entry, x: Entry) {
    e.physicalId == x.physicalId && e.coreId == x.coreId
  }

  lemma ThreadNode(f: CpuFields, entries: seq<Entry>, m: NodeMap, i: nat)
    requires f == FieldsOf(entries, m) && i < |entries|
    ensures i < |f.logicals| && f.logicals[i].numaNode == Looked(m, entries[i].processor)
  {
    NoEntryLost(f, entries, m);
  }

  /** The first thread of the core that thread k is on. */
  lemma {:induction false} FirstThread(logicals: seq<LogicalCpu>, k: nat) returns (first: nat)
    requires k < |logicals|
    ensures first <= k && logicals[first].coreId == logicals[k].coreId
    ensures forall j | 0 <= j < first :: logicals[j].coreId != logicals[k].coreId
  {
    first := k;
    if j :| 0 <= j < k && logicals[j].coreId == logicals[k].coreId {
      first := FirstThread(logicals, j);
    }
  }

  /** Every thread of a core carries the core's node if and only if the map gives them all the same. */
  lemma CoreNodeExact(f: CpuFields, entries: seq<Entry>, m: NodeMap, k: nat)
    requires f == FieldsOf(entries, m) && k < |entries|
    ensures |f.logicals| == |entries| && f.logicals[k].coreId < |f.cores|
    ensures var core := f.logicals[k].coreId;
      (forall i | 0 <= i < |f.logicals| && f.logicals[i].coreId == core ::
         f.logicals[i].numaNode == f.cores[core].numaNode)
      <==> (forall i | 0 <= i < |entries| && SameCore(entries[i], entries[k]) ::
              Looked(m, entries[i].processor) == Looked(m, entries[k].processor))
  {
    NoEntryLost(f, entries, m);
    ThreadsBelong(f, entries, m, k);
    var first := FirstThread(f.logicals, k);
    CoreNodeIsFirstThreads(f, entries, m, first);
    forall i: nat | i < |entries|
      ensures f.logicals[i].coreId == f.logicals[k].coreId <==> SameCore(entries[i], entries[k])
      ensures f.logicals[i].numaNode == Looked(m, entries[i].processor)
    {
      SharingExact(f, entries, m, i, k);
      ThreadNode(f, entries, m, i);
    }
  }

  /** Two threads of one core on different nodes: the core takes the first one's. */
  lemma SplitCoreExample(m: NodeMap)
    requires m == map[0 := 0, 1 := 1]
    ensures var f := FieldsOf([Entry(0, 0, 0), Entry(1, 0, 0)], m);
      && |f.logicals| == 2 && f.logicals[0].coreId == f.logicals[1].coreId < |f.cores|
      && f.cores[f.logicals[1].coreId].numaNode == Some(0) && f.logicals[1].numaNode == Some(1)
  {
    var entries := [Entry(0, 0, 0), Entry(1, 0, 0)];
    var f := FieldsOf(entries, m);
    NoEntryLost(f, entries, m);
    SharingExact(f, entries, m, 0, 1);
    ThreadsBelong(f, entries, m, 0);
    ThreadNode(f, entries, m, 0);
    ThreadNode(f, entries, m, 1);
    CoreNodeIsFirstThreads(f, entries, m, 0);
  }
}
