/**
  Claims of completeness: the unique enumeration of RawStore (include/sysal/model/raw_store.hpp) and the
  reports of src/resolver/inventory.cpp.
 */
module InventoryReports {
  import opened Options
  import opened RawRecords
  import opened ParseUtils
  import opened Numbers
  import opened PciAddresses
  import opened SortedSets
  import opened Counting

  datatype InventoryKind =
    CpuPackages | CpuCores | LogicalCpus | NumaNodes | CpuCaches
    | NetworkInterfaces | BlockDevices | PciDevices | AcceleratorDevices

  datatype Completeness = Unknown | Partial | Complete

  datatype Enumeration = Enumeration(
    inventory: InventoryKind, origin: string, entries: seq<string>, status: CollectStatus, failure: bool)

  datatype Report = Report(inventory: InventoryKind, completeness: Completeness, origin: string)

  // ----- The unique enumeration -----

  function IsKind(kind: InventoryKind): Enumeration -> bool {
    (e: Enumeration) => e.inventory == kind
  }

  function UniqueEnumeration(enumerations: seq<Enumeration>, kind: InventoryKind): Option<Enumeration> {
    var i := FirstIndex(enumerations, IsKind(kind));
    if i < |enumerations| && CountIf(enumerations, IsKind(kind)) == 1 then Some(enumerations[i]) else None
  }

  ghost predicate IsOnly(enumerations: seq<Enumeration>, kind: InventoryKind, k: nat) {
    k < |enumerations| && forall i | 0 <= i < |enumerations| :: enumerations[i].inventory == kind <==> i == k
  }

  /** An enumeration is found exactly when one and only one of the kind exists, and it is that one. */
  lemma UniqueExact(enumerations: seq<Enumeration>, kind: InventoryKind)
    ensures forall k: nat | IsOnly(enumerations, kind, k) ::
              UniqueEnumeration(enumerations, kind) == Some(enumerations[k])
    ensures UniqueEnumeration(enumerations, kind).Some? ==>
              IsOnly(enumerations, kind, FirstIndex(enumerations, IsKind(kind)))
  {
    var first := FirstIndex(enumerations, IsKind(kind));
    if first < |enumerations| {
      CountIfOne(enumerations, IsKind(kind), first);
    }
    forall k: nat | IsOnly(enumerations, kind, k)
      ensures UniqueEnumeration(enumerations, kind) == Some(enumerations[k])
    {
      assert IsKind(kind)(enumerations[k]);
    }
  }

  lemma TwoFound(enumerations: seq<Enumeration>, kind: InventoryKind, j: nat, k: nat)
    requires j < k < |enumerations| && enumerations[j].inventory == enumerations[k].inventory == kind
    ensures UniqueEnumeration(enumerations, kind) == None
  {
    UniqueExact(enumerations, kind);
  }

  method FindEnumeration(enumerations: seq<Enumeration>, kind: InventoryKind) returns (result: Option<Enumeration>)
    ensures result == UniqueEnumeration(enumerations, kind)
  {
    result := None;
    ghost var k: nat := 0;
    for i := 0 to |enumerations|
      invariant result == None ==> forall j | 0 <= j < i :: enumerations[j].inventory != kind
      invariant result != None ==>
                  k < i && result == Some(enumerations[k]) && IsOnly(enumerations[..i], kind, k)
    {
      if enumerations[i].inventory == kind {
        if result != None {
          TwoFound(enumerations, kind, k, i);
          return None;
        }
        result := Some(enumerations[i]);
        k := i;
      }
    }
    assert enumerations[..|enumerations|] == enumerations;
    UniqueExact(enumerations, kind);
  }

  // ----- Comparing names -----

  function Named<T>(entries: seq<T>, name: T -> string): (q: seq<string>)
    ensures |q| == |entries| && forall i | 0 <= i < |q| :: q[i] == name(entries[i])
  {
    seq(|entries|, i requires 0 <= i < |entries| => name(entries[i]))
  }

  /** Equal sets, neither list repeating itself. */
  predicate SameInventory(listed: seq<string>, names: seq<string>) {
    |Elements(listed)| == |listed| && |Elements(names)| == |names| && Elements(listed) == Elements(names)
  }

  ghost predicate NamedOnce(text: string, names: seq<string>) {
    exists i :: 0 <= i < |names| && names[i] == text && forall j | 0 <= j < |names| && names[j] == text :: j == i
  }

  /** Every position of either list has exactly one partner in the other. */
  ghost predicate Bijective(listed: seq<string>, names: seq<string>) {
    && (forall k | 0 <= k < |listed| :: NamedOnce(listed[k], names))
    && (forall i | 0 <= i < |names| :: NamedOnce(names[i], listed))
  }

  lemma SubsetBijective(a: seq<string>, b: seq<string>)
    requires Elements(a) <= Elements(b) && NoDuplicates(b)
    ensures forall k | 0 <= k < |a| :: NamedOnce(a[k], b)
  {
    forall k | 0 <= k < |a|
      ensures NamedOnce(a[k], b)
    {
      assert a[k] in Elements(a);
      var i :| 0 <= i < |b| && b[i] == a[k];
    }
  }

  lemma BijectiveDistinct(a: seq<string>, b: seq<string>)
    requires Bijective(a, b)
    ensures NoDuplicates(a) && Elements(a) <= Elements(b)
  {
    forall i, j | 0 <= i < j < |a|
      ensures a[i] != a[j]
    {
      var k :| 0 <= k < |b| && b[k] == a[i];
      assert NamedOnce(b[k], a);
    }
    forall x | x in Elements(a)
      ensures x in Elements(b)
    {
      var k :| 0 <= k < |a| && a[k] == x;
      assert NamedOnce(a[k], b);
    }
  }

  /** The comparison of sizes and sets establishes a bijection, and nothing weaker passes it. */
  lemma SameInventoryExact(listed: seq<string>, names: seq<string>)
    ensures SameInventory(listed, names) <==> Bijective(listed, names)
    ensures SameInventory(listed, names) ==> |listed| == |names|
  {
    DistinctSize(listed);
    DistinctSize(names);
    if SameInventory(listed, names) {
      SubsetBijective(listed, names);
      SubsetBijective(names, listed);
    }
    if Bijective(listed, names) {
      BijectiveDistinct(listed, names);
      BijectiveDistinct(names, listed);
    }
  }

  // ----- One report -----

  function Reported(enumerations: seq<Enumeration>, kind: InventoryKind, names: seq<string>, origin: string): Report {
    var base := if names == [] then Unknown else Partial;
    match UniqueEnumeration(enumerations, kind)
    case None => Report(kind, base, origin)
    case Some(e) =>
      var complete := e.status == Success && !e.failure && SameInventory(e.entries, names);
      Report(kind, if complete then Complete else base, e.origin)
  }

  method MakeReport<T>(enumerations: seq<Enumeration>, kind: InventoryKind, entries: seq<T>,
                       name: T -> string, origin: string)
    returns (result: Report)
    ensures result == Reported(enumerations, kind, Named(entries, name), origin)
  {
    result := Report(kind, if entries == [] then Unknown else Partial, origin);
    var enumeration := FindEnumeration(enumerations, kind);
    if enumeration == None {
      return;
    }
    result := result.(origin := enumeration.value.origin);
    if enumeration.value.status != Success || enumeration.value.failure {
      return;
    }
    var expected := Elements(enumeration.value.entries);
    var actual: set<string> := {};
    ghost var names := Named(entries, name);
    for i := 0 to |entries|
      invariant actual == Elements(names[..i])
    {
      assert names[..i + 1] == names[..i] + [names[i]];
      actual := actual + {name(entries[i])};
    }
    assert names[..|entries|] == names;
    if |expected| == |enumeration.value.entries| && |actual| == |entries| && expected == actual {
      result := result.(completeness := Complete);
    }
  }

  /** The only enumeration of the kind succeeded and lists exactly the names, one to one. */
  ghost predicate ProvenComplete(enumerations: seq<Enumeration>, kind: InventoryKind, names: seq<string>) {
    exists k: nat :: IsOnly(enumerations, kind, k) && enumerations[k].status == Success && !enumerations[k].failure
      && Bijective(enumerations[k].entries, names)
  }

  /**
    Complete exactly on proof; otherwise partial or unknown by whether anything was observed. The origin
    is the enumeration's whenever it is unique.
   */
  lemma ReportExact(enumerations: seq<Enumeration>, kind: InventoryKind, names: seq<string>, origin: string)
    ensures var r := Reported(enumerations, kind, names, origin);
      && r.inventory == kind
      && (r.completeness == Complete <==> ProvenComplete(enumerations, kind, names))
      && (r.completeness == Partial <==> !ProvenComplete(enumerations, kind, names) && names != [])
      && (forall k: nat | IsOnly(enumerations, kind, k) :: r.origin == enumerations[k].origin)
      && ((forall k: nat :: !IsOnly(enumerations, kind, k)) ==> r.origin == origin)
  {
    UniqueExact(enumerations, kind);
    var first := FirstIndex(enumerations, IsKind(kind));
    if IsOnly(enumerations, kind, first) {
      SameInventoryExact(enumerations[first].entries, names);
    }
  }

  // ----- Completeness is about identities -----

  function CpuName(id: nat): string {
    "cpu" + Decimal(id)
  }

  function NodeName(id: nat): string {
    "node" + Decimal(id)
  }

  lemma CpuNameInjective(a: nat, b: nat)
    requires CpuName(a) == CpuName(b)
    ensures a == b
  {
    assert CpuName(a)[3..] == Decimal(a) && CpuName(b)[3..] == Decimal(b);
    DecimalInjective(a, b);
  }

  lemma NodeNameInjective(a: nat, b: nat)
    requires NodeName(a) == NodeName(b)
    ensures a == b
  {
    assert NodeName(a)[4..] == Decimal(a) && NodeName(b)[4..] == Decimal(b);
    DecimalInjective(a, b);
  }

  lemma BijectiveSwapped(a: seq<string>, b: seq<string>)
    requires Bijective(a, b)
    ensures Bijective(b, a)
  {
  }

  /**
    A complete PCI inventory has no repeated address, as many devices as directories were listed, and
    every listed name parses to the address of exactly one of the devices.
   */
  lemma CompletePciDevices(listed: seq<string>, devices: seq<PciAddress>)
    requires Bijective(listed, Named(devices, PciName))
    ensures |listed| == |devices|
    ensures forall i, j | 0 <= i < j < |devices| :: devices[i] != devices[j]
    ensures forall k | 0 <= k < |listed| ::
              exists i :: 0 <= i < |devices| && ParsePciAddress(listed[k]) == Some(devices[i])
  {
    var names := Named(devices, PciName);
    SameInventoryExact(listed, names);
    BijectiveSwapped(listed, names);
    BijectiveDistinct(names, listed);
    forall k | 0 <= k < |listed|
      ensures exists i :: 0 <= i < |devices| && ParsePciAddress(listed[k]) == Some(devices[i])
    {
      var i :| 0 <= i < |names| && names[i] == listed[k];
      PciNameRoundTrip(devices[i]);
    }
  }

  lemma CompleteNumbers(listed: seq<string>, ids: seq<nat>, name: nat -> string, n: nat)
    requires Bijective(listed, Named(ids, name))
    requires forall a: nat, b: nat :: name(a) == name(b) ==> a == b
    ensures |listed| == |ids|
    ensures forall i, j | 0 <= i < j < |ids| :: ids[i] != ids[j]
    ensures name(n) in listed <==> n in ids
  {
    var names := Named(ids, name);
    SameInventoryExact(listed, names);
    BijectiveSwapped(listed, names);
    BijectiveDistinct(names, listed);
    if name(n) in listed {
      var k :| 0 <= k < |listed| && listed[k] == name(n);
      assert NamedOnce(listed[k], names);
      var i :| 0 <= i < |names| && names[i] == listed[k];
      assert name(ids[i]) == name(n);
    }
    if n in ids {
      var i :| 0 <= i < |ids| && ids[i] == n;
      assert NamedOnce(names[i], listed);
    }
  }

  /** A complete CPU inventory has distinct numbers, and cpuN is listed exactly when there is a logical CPU N. */
  lemma CompleteCpus(listed: seq<string>, ids: seq<nat>, n: nat)
    requires Bijective(listed, Named(ids, CpuName))
    ensures |listed| == |ids|
    ensures forall i, j | 0 <= i < j < |ids| :: ids[i] != ids[j]
    ensures "cpu" + Decimal(n) in listed <==> n in ids
  {
    forall a: nat, b: nat | CpuName(a) == CpuName(b)
      ensures a == b
    {
      CpuNameInjective(a, b);
    }
    CompleteNumbers(listed, ids, CpuName, n);
  }

  /** And so with NUMA nodes. */
  lemma CompleteNodes(listed: seq<string>, ids: seq<nat>, n: nat)
    requires Bijective(listed, Named(ids, NodeName))
    ensures |listed| == |ids|
    ensures forall i, j | 0 <= i < j < |ids| :: ids[i] != ids[j]
    ensures "node" + Decimal(n) in listed <==> n in ids
  {
    forall a: nat, b: nat | NodeName(a) == NodeName(b)
      ensures a == b
    {
      NodeNameInjective(a, b);
    }
    CompleteNumbers(listed, ids, NodeName, n);
  }

  // ----- Topology evidence -----

  datatype TopologyField = PhysicalPackageId | CoreIdField

  datatype FieldRecord = FieldRecord(status: CollectStatus, payload: string)

  /** The records of a topology file of a CPU. */
  type FieldRecords = (nat, TopologyField) -> seq<FieldRecord>

  predicate IsNumber(payload: string) {
    var number := ParseUint(Trimmed(payload));
    number.Some? && number.value <= U32_MAX
  }

  predicate FieldKnown(records: seq<FieldRecord>) {
    |records| == 1 && records[0].status == Success && IsNumber(records[0].payload)
  }

  predicate CpuKnown(id: nat, records: FieldRecords) {
    FieldKnown(records(id, PhysicalPackageId)) && FieldKnown(records(id, CoreIdField))
  }

  /** The one record of a field, readable and with a number of 32 bits. */
  ghost predicate GivesNumber(records: seq<FieldRecord>) {
    exists payload, n: nat ::
      records == [FieldRecord(Success, payload)] && Spells(Trimmed(payload), n) && n < 0x1_0000_0000
  }

  lemma FieldKnownExact(records: seq<FieldRecord>)
    ensures FieldKnown(records) <==> GivesNumber(records)
  {
    if |records| == 1 {
      var payload := records[0].payload;
      ParseUintExact(Trimmed(payload), 0);
      if ParseUint(Trimmed(payload)).Some? {
        ParseUintExact(Trimmed(payload), ParseUint(Trimmed(payload)).value);
        assert records[0].status == Success ==> records == [FieldRecord(Success, payload)];
      }
      forall n: nat | Spells(Trimmed(payload), n)
        ensures ParseUint(Trimmed(payload)) == Some(n)
      {
        ParseUintExact(Trimmed(payload), n);
      }
    }
  }

  /** Both fields of every logical CPU give a number, and there is a CPU. */
  ghost predicate TopologyKnown(logicals: seq<nat>, records: FieldRecords) {
    && logicals != []
    && forall id | id in logicals ::
         GivesNumber(records(id, PhysicalPackageId)) && GivesNumber(records(id, CoreIdField))
  }

  lemma CpuKnownExact(id: nat, records: FieldRecords)
    ensures CpuKnown(id, records) <==>
            GivesNumber(records(id, PhysicalPackageId)) && GivesNumber(records(id, CoreIdField))
  {
    FieldKnownExact(records(id, PhysicalPackageId));
    FieldKnownExact(records(id, CoreIdField));
  }

  method CheckTopology(logicals: seq<nat>, records: FieldRecords) returns (known: bool)
    ensures known <==> TopologyKnown(logicals, records)
  {
    if logicals == [] {
      return false;
    }
    forall id
      ensures CpuKnown(id, records) <==>
              GivesNumber(records(id, PhysicalPackageId)) && GivesNumber(records(id, CoreIdField))
    {
      CpuKnownExact(id, records);
    }
    for i := 0 to |logicals|
      invariant forall id | id in logicals[..i] :: CpuKnown(id, records)
    {
      var fields := [PhysicalPackageId, CoreIdField];
      for j := 0 to |fields|
        invariant forall k | 0 <= k < j :: FieldKnown(records(logicals[i], fields[k]))
      {
        if !FieldKnown(records(logicals[i], fields[j])) {
          assert logicals[i] in logicals;
          return false;
        }
      }
      assert FieldKnown(records(logicals[i], fields[0])) && FieldKnown(records(logicals[i], fields[1]));
      assert logicals[..i + 1] == logicals[..i] + [logicals[i]];
    }
    assert logicals[..|logicals|] == logicals;
    return true;
  }

  // ----- All reports -----

  datatype Info = Info(
    logicals: seq<nat>, packages: nat, cores: nat, numaNodes: seq<nat>, caches: nat,
    interfaces: seq<string>, blockDevices: seq<string>, pciDevices: seq<PciAddress>, accelerators: nat)

  datatype Evidence = Evidence(enumerations: seq<Enumeration>, topology: FieldRecords)

  datatype Collect = Collect(cpu: bool, network: bool, storage: bool, pci: bool, accelerator: bool)

  /** The origin named when no enumeration of the kind is unique. */
  function DefaultOrigin(kind: InventoryKind): string {
    match kind
    case LogicalCpus => "/sys/devices/system/cpu"
    case CpuPackages => "/sys/devices/system/cpu"
    case CpuCores => "/sys/devices/system/cpu"
    case NumaNodes => "/sys/devices/system/node"
    case CpuCaches => "observed CPU caches"
    case NetworkInterfaces => "/sys/class/net"
    case BlockDevices => "/sys/class/block"
    case PciDevices => "/sys/bus/pci/devices"
    case AcceleratorDevices => "observed accelerator backends"
  }

  function Observed(kind: InventoryKind, empty: bool, origin: string): Report {
    Report(kind, if empty then Unknown else Partial, origin)
  }

  function Itself(name: string): string {
    name
  }

  ghost predicate CpusProven(info: Info, evidence: Evidence) {
    ProvenComplete(evidence.enumerations, LogicalCpus, Named(info.logicals, CpuName))
  }

  /** What a claim of completeness about a kind requires. */
  ghost predicate Justified(kind: InventoryKind, info: Info, evidence: Evidence) {
    match kind
    case LogicalCpus => CpusProven(info, evidence)
    case CpuPackages => CpusProven(info, evidence) && TopologyKnown(info.logicals, evidence.topology)
    case CpuCores => CpusProven(info, evidence) && TopologyKnown(info.logicals, evidence.topology)
    case NumaNodes => ProvenComplete(evidence.enumerations, kind, Named(info.numaNodes, NodeName))
    case NetworkInterfaces => ProvenComplete(evidence.enumerations, kind, Named(info.interfaces, Itself))
    case BlockDevices => ProvenComplete(evidence.enumerations, kind, Named(info.blockDevices, Itself))
    case PciDevices => ProvenComplete(evidence.enumerations, kind, Named(info.pciDevices, PciName))
    case CpuCaches => false
    case AcceleratorDevices => false
  }

  function Kinds(reports: seq<Report>): (q: seq<InventoryKind>)
    ensures |q| == |reports| && forall i | 0 <= i < |q| :: q[i] == reports[i].inventory
  {
    seq(|reports|, i requires 0 <= i < |reports| => reports[i].inventory)
  }

  function CpuKinds(flags: Collect): seq<InventoryKind> {
    if flags.cpu then [LogicalCpus, CpuPackages, CpuCores, NumaNodes, CpuCaches] else []
  }

  function KindIf(present: bool, kind: InventoryKind): seq<InventoryKind> {
    if present then [kind] else []
  }

  function KindsOf(flags: Collect): seq<InventoryKind> {
    CpuKinds(flags) + KindIf(flags.network, NetworkInterfaces) + KindIf(flags.storage, BlockDevices)
    + KindIf(flags.pci, PciDevices) + KindIf(flags.accelerator, AcceleratorDevices)
  }

  /** Whether anything of a kind was seen; known topology vouches for packages and cores. */
  ghost predicate Seen(kind: InventoryKind, info: Info, evidence: Evidence) {
    match kind
    case LogicalCpus => info.logicals != []
    case CpuPackages => info.packages > 0 || TopologyKnown(info.logicals, evidence.topology)
    case CpuCores => info.cores > 0 || TopologyKnown(info.logicals, evidence.topology)
    case NumaNodes => info.numaNodes != []
    case NetworkInterfaces => info.interfaces != []
    case BlockDevices => info.blockDevices != []
    case PciDevices => info.pciDevices != []
    case CpuCaches => info.caches > 0
    case AcceleratorDevices => info.accelerators > 0
  }

  /** The origin of the kind's unique enumeration, or the default one. */
  function Located(enumerations: seq<Enumeration>, kind: InventoryKind): string {
    var e := UniqueEnumeration(enumerations, kind);
    if e.Some? then e.value.origin else DefaultOrigin(kind)
  }

  function OriginOf(kind: InventoryKind, evidence: Evidence): string {
    match kind
    case CpuPackages => Located(evidence.enumerations, LogicalCpus)
    case CpuCores => Located(evidence.enumerations, LogicalCpus)
    case CpuCaches => DefaultOrigin(kind)
    case AcceleratorDevices => DefaultOrigin(kind)
    case _ => Located(evidence.enumerations, kind)
  }

  /** No enumeration is the only one of its kind. */
  ghost predicate NothingUnique(evidence: Evidence, kind: InventoryKind) {
    forall k: nat :: !IsOnly(evidence.enumerations, kind, k)
  }

  lemma UniqueOrigin(evidence: Evidence, kind: InventoryKind, k: nat)
    requires IsOnly(evidence.enumerations, kind, k)
    requires kind in {LogicalCpus, NumaNodes, NetworkInterfaces, BlockDevices, PciDevices}
    ensures OriginOf(kind, evidence) == evidence.enumerations[k].origin
  {
    UniqueExact(evidence.enumerations, kind);
  }

  /** Where a report says it comes from without a unique enumeration, and where packages, cores and backends do. */
  lemma OriginExact(evidence: Evidence, kind: InventoryKind)
    requires kind in {LogicalCpus, NumaNodes, NetworkInterfaces, BlockDevices, PciDevices} ==>
               NothingUnique(evidence, kind)
    ensures match kind
            case LogicalCpus => OriginOf(kind, evidence) == "/sys/devices/system/cpu"
            case CpuPackages => OriginOf(kind, evidence) == OriginOf(LogicalCpus, evidence)
            case CpuCores => OriginOf(kind, evidence) == OriginOf(LogicalCpus, evidence)
            case NumaNodes => OriginOf(kind, evidence) == "/sys/devices/system/node"
            case CpuCaches => OriginOf(kind, evidence) == "observed CPU caches"
            case NetworkInterfaces => OriginOf(kind, evidence) == "/sys/class/net"
            case BlockDevices => OriginOf(kind, evidence) == "/sys/class/block"
            case PciDevices => OriginOf(kind, evidence) == "/sys/bus/pci/devices"
            case AcceleratorDevices => OriginOf(kind, evidence) == "observed accelerator backends"
  {
    UniqueExact(evidence.enumerations, kind);
  }

  /** A report claims neither more nor less than the evidence proves, and names where it comes from. */
  ghost predicate Honest(r: Report, info: Info, evidence: Evidence) {
    && (r.completeness == Complete <==> Justified(r.inventory, info, evidence))
    && (r.completeness == Partial <==> !Justified(r.inventory, info, evidence) && Seen(r.inventory, info, evidence))
    && r.origin == OriginOf(r.inventory, evidence)
  }

  ghost predicate AllHonest(reports: seq<Report>, info: Info, evidence: Evidence) {
    forall r | r in reports :: Honest(r, info, evidence)
  }

  method NamedReport<T>(evidence: Evidence, kind: InventoryKind, entries: seq<T>, name: T -> string) returns (r: Report)
    ensures r.inventory == kind
    ensures var proven := ProvenComplete(evidence.enumerations, kind, Named(entries, name));
      (r.completeness == Complete <==> proven) && (r.completeness == Partial <==> !proven && entries != [])
    ensures r.origin == Located(evidence.enumerations, kind)
  {
    r := MakeReport(evidence.enumerations, kind, entries, name, DefaultOrigin(kind));
    ReportExact(evidence.enumerations, kind, Named(entries, name), DefaultOrigin(kind));
  }

  /** Known topology gives packages and cores the completeness of the logical CPUs. */
  function Derived(kind: InventoryKind, empty: bool, known: bool, logical: Report): Report {
    var own := Observed(kind, empty, logical.origin);
    if known then own.(completeness := logical.completeness) else own
  }

  lemma DerivedHonest(info: Info, evidence: Evidence, known: bool, logical: Report)
    requires logical.inventory == LogicalCpus && Honest(logical, info, evidence)
    requires known <==> TopologyKnown(info.logicals, evidence.topology)
    ensures Honest(Derived(CpuPackages, info.packages == 0, known, logical), info, evidence)
    ensures Honest(Derived(CpuCores, info.cores == 0, known, logical), info, evidence)
  {
    assert known ==> info.logicals != [];
  }

  lemma FiveHonest(a: Report, b: Report, c: Report, d: Report, e: Report, info: Info, evidence: Evidence)
    requires Honest(a, info, evidence) && Honest(b, info, evidence) && Honest(c, info, evidence)
    requires Honest(d, info, evidence) && Honest(e, info, evidence)
    ensures AllHonest([a, b, c, d, e], info, evidence)
  {
  }

  method NodeReport(info: Info, evidence: Evidence) returns (r: Report)
    ensures r.inventory == NumaNodes && Honest(r, info, evidence)
  {
    r := NamedReport(evidence, NumaNodes, info.numaNodes, NodeName);
  }

  method LogicalReport(info: Info, evidence: Evidence) returns (r: Report)
    ensures r.inventory == LogicalCpus && Honest(r, info, evidence)
  {
    r := NamedReport(evidence, LogicalCpus, info.logicals, CpuName);
  }

  function CacheReport(info: Info): Report {
    Observed(CpuCaches, info.caches == 0, DefaultOrigin(CpuCaches))
  }

  lemma CacheHonest(info: Info, evidence: Evidence)
    ensures Honest(CacheReport(info), info, evidence)
  {
  }

  method CpuReports(info: Info, evidence: Evidence) returns (reports: seq<Report>)
    ensures Kinds(reports) == [LogicalCpus, CpuPackages, CpuCores, NumaNodes, CpuCaches]
    ensures AllHonest(reports, info, evidence)
  {
    var logical := LogicalReport(info, evidence);
    var known := CheckTopology(info.logicals, evidence.topology);
    DerivedHonest(info, evidence, known, logical);
    var packages := Derived(CpuPackages, info.packages == 0, known, logical);
    var cores := Derived(CpuCores, info.cores == 0, known, logical);
    var nodes := NodeReport(info, evidence);
    var caches := CacheReport(info);
    CacheHonest(info, evidence);
    FiveHonest(logical, packages, cores, nodes, caches, info, evidence);
    reports := [logical, packages, cores, nodes, caches];
  }

  lemma AppendReport(reports: seq<Report>, r: Report, info: Info, evidence: Evidence)
    requires AllHonest(reports, info, evidence) && Honest(r, info, evidence)
    ensures AllHonest(reports + [r], info, evidence)
    ensures Kinds(reports + [r]) == Kinds(reports) + [r.inventory]
  {
  }

  method DeviceReport(kind: InventoryKind, info: Info, evidence: Evidence) returns (r: Report)
    requires kind in [NetworkInterfaces, BlockDevices, PciDevices, AcceleratorDevices]
    ensures r.inventory == kind && Honest(r, info, evidence)
  {
    match kind
    case NetworkInterfaces =>
      r := NamedReport(evidence, kind, info.interfaces, Itself);
    case BlockDevices =>
      r := NamedReport(evidence, kind, info.blockDevices, Itself);
    case PciDevices =>
      r := NamedReport(evidence, kind, info.pciDevices, PciName);
    case AcceleratorDevices =>
      r := Observed(kind, info.accelerators == 0, DefaultOrigin(kind));
  }

  method AddReport(reports: seq<Report>, present: bool, kind: InventoryKind, info: Info, evidence: Evidence)
    returns (result: seq<Report>)
    requires kind in [NetworkInterfaces, BlockDevices, PciDevices, AcceleratorDevices]
    requires AllHonest(reports, info, evidence)
    ensures Kinds(result) == Kinds(reports) + KindIf(present, kind) && AllHonest(result, info, evidence)
  {
    result := reports;
    if present {
      var r := DeviceReport(kind, info, evidence);
      AppendReport(reports, r, info, evidence);
      result := reports + [r];
    }
  }

  /** One report per requested kind, in a fixed order, each with the completeness and origin the evidence gives. */
  method MakeReports(info: Info, evidence: Evidence, flags: Collect) returns (reports: seq<Report>)
    ensures Kinds(reports) == KindsOf(flags)
    ensures AllHonest(reports, info, evidence)
  {
    reports := [];
    if flags.cpu {
      reports := CpuReports(info, evidence);
    }
    assert Kinds(reports) == CpuKinds(flags);
    reports := AddReport(reports, flags.network, NetworkInterfaces, info, evidence);
    reports := AddReport(reports, flags.storage, BlockDevices, info, evidence);
    reports := AddReport(reports, flags.pci, PciDevices, info, evidence);
    reports := AddReport(reports, flags.accelerator, AcceleratorDevices, info, evidence);
  }
}
