/** parse_cpu of src/parser/cpu.cpp, from the topology entries to packages, cores, threads and NUMA fields. */
module CpuParser {
  import opened Options
  import opened SortedSets
  import opened Numa
  import opened Counting
  import opened CpuTopology

  datatype CpuFields = CpuFields(
    packages: seq<Package>, cores: seq<Core>, logicals: seq<LogicalCpu>, nodes: seq<NumaNode>)

  /** The part of the CPU model that parse_cpu fills in place. */
  class Cpu {
    var packages: seq<Package>
    var cores: seq<Core>
    var logicalCpus: seq<LogicalCpu>
    var numaNodes: seq<NumaNode>

    ghost function Fields(): (f: CpuFields)
      reads this
    {
      CpuFields(packages, cores, logicalCpus, numaNodes)
    }

    constructor ()
      ensures packages == [] && cores == [] && logicalCpus == [] && numaNodes == []
    {
      packages, cores, logicalCpus, numaNodes := [], [], [], [];
    }
  }

  // ----- Specification -----

  function At(m: map<nat, nat>, x: nat): nat {
    if x in m then m[x] else 0
  }

  /** The dense number of a core key and of a physical package number. */
  datatype DenseNumbers = DenseNumbers(packages: map<nat, nat>, cores: map<nat, nat>)

  function NumbersOf(entries: seq<Entry>): DenseNumbers {
    DenseNumbers(Numbered(Ascending(PhysicalIds(entries))), Numbered(Ascending(CoreKeys(entries))))
  }

  /** One logical CPU per entry whose core and package have numbers. */
  function LogicalsOf(entries: seq<Entry>, numbers: DenseNumbers): seq<LogicalCpu> {
    if entries == [] then [] else
    var e := entries[|entries| - 1];
    LogicalsOf(entries[..|entries| - 1], numbers) +
    if CoreKey(e) in numbers.cores && e.physicalId in numbers.packages
    then [LogicalCpu(e.processor, numbers.cores[CoreKey(e)], numbers.packages[e.physicalId], None)] else []
  }

  /** One core per key, numbered by position. */
  function CoresOf(keys: seq<nat>, packages: map<nat, nat>): seq<Core> {
    if keys == [] then [] else
    CoresOf(keys[..|keys| - 1], packages) +
    [Core(|keys| - 1, At(packages, PackageOfKey(keys[|keys| - 1])), 0, None)]
  }

  function PackagesOf(n: nat): seq<Package> {
    if n == 0 then [] else PackagesOf(n - 1) + [Package(n - 1, 0, 0)]
  }

  function CorePackages(cores: seq<Core>): (q: seq<nat>)
    ensures |q| == |cores| && forall i | 0 <= i < |q| :: q[i] == cores[i].packageId
  {
    seq(|cores|, i requires 0 <= i < |cores| => cores[i].packageId)
  }

  function LogicalPackages(logicals: seq<LogicalCpu>): (q: seq<nat>)
    ensures |q| == |logicals| && forall i | 0 <= i < |q| :: q[i] == logicals[i].packageId
  {
    seq(|logicals|, i requires 0 <= i < |logicals| => logicals[i].packageId)
  }

  function LogicalCores(logicals: seq<LogicalCpu>): (q: seq<nat>)
    ensures |q| == |logicals| && forall i | 0 <= i < |q| :: q[i] == logicals[i].coreId
  {
    seq(|logicals|, i requires 0 <= i < |logicals| => logicals[i].coreId)
  }

  function CountedPackage(p: Package, cores: seq<Core>, logicals: seq<LogicalCpu>): Package {
    p.(physicalCores := CountIf(CorePackages(cores), Is(p.id)),
       logicalThreads := CountIf(LogicalPackages(logicals), Is(p.id)))
  }

  function CountedCore(c: Core, logicals: seq<LogicalCpu>): Core {
    c.(logicalThreads := CountIf(LogicalCores(logicals), Is(c.id)))
  }

  function Looked(m: NodeMap, cpu: nat): Option<nat> {
    if cpu in m then Some(m[cpu]) else None
  }

  /** The NUMA node of a core: that of its first thread. */
  function FirstThreadNode(logicals: seq<LogicalCpu>, core: nat, m: NodeMap): Option<nat> {
    if logicals == [] then None
    else if logicals[0].coreId == core then Looked(m, logicals[0].id)
    else FirstThreadNode(logicals[1..], core, m)
  }

  function CountedPackages(packages: seq<Package>, cores: seq<Core>, logicals: seq<LogicalCpu>): (q: seq<Package>)
    ensures |q| == |packages| && forall i | 0 <= i < |q| :: q[i] == CountedPackage(packages[i], cores, logicals)
  {
    seq(|packages|, i requires 0 <= i < |packages| => CountedPackage(packages[i], cores, logicals))
  }

  function CountedCores(cores: seq<Core>, logicals: seq<LogicalCpu>): (q: seq<Core>)
    ensures |q| == |cores| && forall i | 0 <= i < |q| :: q[i] == CountedCore(cores[i], logicals)
  {
    seq(|cores|, i requires 0 <= i < |cores| => CountedCore(cores[i], logicals))
  }

  function PlacedCores(cores: seq<Core>, logicals: seq<LogicalCpu>, m: NodeMap): (q: seq<Core>)
    ensures |q| == |cores|
    ensures forall i | 0 <= i < |q| :: q[i] == cores[i].(numaNode := FirstThreadNode(logicals, cores[i].id, m))
  {
    seq(|cores|, i requires 0 <= i < |cores| => cores[i].(numaNode := FirstThreadNode(logicals, cores[i].id, m)))
  }

  function PlacedLogicals(logicals: seq<LogicalCpu>, m: NodeMap): (q: seq<LogicalCpu>)
    ensures |q| == |logicals| && forall i | 0 <= i < |q| :: q[i] == logicals[i].(numaNode := Looked(m, logicals[i].id))
  {
    seq(|logicals|, i requires 0 <= i < |logicals| => logicals[i].(numaNode := Looked(m, logicals[i].id)))
  }

  // ----- The passes of parse_cpu -----

  method BuildLogicals(cpu: Cpu, entries: seq<Entry>, numbers: DenseNumbers)
    requires cpu.logicalCpus == []
    modifies cpu`logicalCpus
    ensures cpu.logicalCpus == LogicalsOf(entries, numbers)
  {
    for i := 0 to |entries|
      invariant cpu.logicalCpus == LogicalsOf(entries[..i], numbers)
    {
      assert entries[..i + 1][..i] == entries[..i];
      var e := entries[i];
      if CoreKey(e) in numbers.cores && e.physicalId in numbers.packages {
        var logical := LogicalCpu(e.processor, numbers.cores[CoreKey(e)], numbers.packages[e.physicalId], None);
        cpu.logicalCpus := cpu.logicalCpus + [logical];
      }
    }
    assert entries[..|entries|] == entries;
  }

  method BuildCores(cpu: Cpu, keys: seq<nat>, packages: map<nat, nat>)
    requires cpu.cores == []
    modifies cpu`cores
    ensures cpu.cores == CoresOf(keys, packages)
  {
    for i := 0 to |keys|
      invariant cpu.cores == CoresOf(keys[..i], packages)
    {
      assert keys[..i + 1][..i] == keys[..i];
      cpu.cores := cpu.cores + [Core(i, At(packages, PackageOfKey(keys[i])), 0, None)];
    }
    assert keys[..|keys|] == keys;
  }

  method BuildPackages(cpu: Cpu, n: nat)
    requires cpu.packages == []
    modifies cpu`packages
    ensures cpu.packages == PackagesOf(n)
  {
    for i := 0 to n
      invariant cpu.packages == PackagesOf(i)
    {
      cpu.packages := cpu.packages + [Package(i, 0, 0)];
    }
  }

  method CountPackages(cpu: Cpu)
    modifies cpu`packages
    ensures cpu.packages == CountedPackages(old(cpu.packages), cpu.cores, cpu.logicalCpus)
  {
    ghost var before := cpu.packages;
    for i := 0 to |cpu.packages|
      invariant |cpu.packages| == |before|
      invariant forall j | 0 <= j < |before| ::
                  cpu.packages[j] == if j < i then CountedPackage(before[j], cpu.cores, cpu.logicalCpus) else before[j]
    {
      var p := cpu.packages[i];
      var cores := CountMatches(CorePackages(cpu.cores), Is(p.id));
      var threads := CountMatches(LogicalPackages(cpu.logicalCpus), Is(p.id));
      cpu.packages := cpu.packages[i := p.(physicalCores := cores, logicalThreads := threads)];
    }
  }

  method CountCores(cpu: Cpu)
    modifies cpu`cores
    ensures cpu.cores == CountedCores(old(cpu.cores), cpu.logicalCpus)
  {
    ghost var before := cpu.cores;
    for i := 0 to |cpu.cores|
      invariant |cpu.cores| == |before|
      invariant forall j | 0 <= j < |before| ::
                  cpu.cores[j] == if j < i then CountedCore(before[j], cpu.logicalCpus) else before[j]
    {
      var c := cpu.cores[i];
      var threads := CountMatches(LogicalCores(cpu.logicalCpus), Is(c.id));
      cpu.cores := cpu.cores[i := c.(logicalThreads := threads)];
    }
  }

  /** The first thread of a core decides; later ones are not looked at. */
  method NodeOfCore(logicals: seq<LogicalCpu>, core: nat, m: NodeMap) returns (node: Option<nat>)
    ensures node == FirstThreadNode(logicals, core, m)
  {
    for i := 0 to |logicals|
      invariant FirstThreadNode(logicals, core, m) == FirstThreadNode(logicals[i..], core, m)
    {
      assert logicals[i..][0] == logicals[i] && logicals[i..][1..] == logicals[i + 1..];
      if logicals[i].coreId == core {
        return Looked(m, logicals[i].id);
      }
    }
    return None;
  }

  method AssignNodes(cpu: Cpu, m: NodeMap)
    modifies cpu
    ensures cpu.packages == old(cpu.packages)
    ensures cpu.cores == PlacedCores(old(cpu.cores), old(cpu.logicalCpus), m)
    ensures cpu.logicalCpus == PlacedLogicals(old(cpu.logicalCpus), m)
    ensures cpu.numaNodes == NodesOf(m)
  {
    ghost var cores, logicals := cpu.cores, cpu.logicalCpus;
    for i := 0 to |cpu.cores|
      invariant |cpu.cores| == |cores| && cpu.logicalCpus == logicals && cpu.packages == old(cpu.packages)
      invariant forall j | 0 <= j < |cores| ::
                  cpu.cores[j] == if j < i
                                  then cores[j].(numaNode := FirstThreadNode(logicals, cores[j].id, m)) else cores[j]
    {
      var node := NodeOfCore(cpu.logicalCpus, cpu.cores[i].id, m);
      cpu.cores := cpu.cores[i := cpu.cores[i].(numaNode := node)];
    }
    ghost var placed := cpu.cores;
    for i := 0 to |cpu.logicalCpus|
      invariant |cpu.logicalCpus| == |logicals| && cpu.cores == placed && cpu.packages == old(cpu.packages)
      invariant forall j | 0 <= j < |logicals| ::
                  cpu.logicalCpus[j] == if j < i then logicals[j].(numaNode := Looked(m, logicals[j].id))
                    else logicals[j]
    {
      var l := cpu.logicalCpus[i];
      cpu.logicalCpus := cpu.logicalCpus[i := l.(numaNode := Looked(m, l.id))];
    }
    var nodes := BuildNumaNodes(m);
    cpu.numaNodes := nodes;
  }

  /** The whole of the modelled parser: what every field ends with. */
  function FieldsOf(entries: seq<Entry>, m: NodeMap): CpuFields {
    var numbers := NumbersOf(entries);
    var logicals := LogicalsOf(entries, numbers);
    var cores := CoresOf(Ascending(CoreKeys(entries)), numbers.packages);
    CpuFields(
      CountedPackages(PackagesOf(|Ascending(PhysicalIds(entries))|), cores, logicals),
      PlacedCores(CountedCores(cores, logicals), logicals, m),
      PlacedLogicals(logicals, m),
      NodesOf(m))
  }

  /** No listed CPU gives no model, even when the kernel places offline ones. */
  method ParseCpu(entries: seq<Entry>, topology: TopologyMap, numa: seq<NumaRecord>) returns (result: Cpu?)
    ensures result == null <==> entries == []
    ensures result != null ==>
              fresh(result) && result.Fields()
                                    == FieldsOf(WithTopology(entries, topology), RecordsMap(APPLY, map[], numa))
  {
    if entries == [] {
      return null;
    }
    var all := ApplySysfsTopology(entries, topology);
    var cpu := new Cpu();
    var physicalIds, coreKeys := CollectIds(all);
    var packageIds, keys := Ascending(physicalIds), Ascending(coreKeys);
    var packages := NumberIds(packageIds);
    var cores := NumberIds(keys);
    BuildPackages(cpu, |packageIds|);
    BuildCores(cpu, keys, packages);
    BuildLogicals(cpu, all, DenseNumbers(packages, cores));
    CountPackages(cpu);
    CountCores(cpu);
    var m := BuildNumaMapping(numa);
    AssignNodes(cpu, m);
    return cpu;
  }
}
