/**
  Packages, cores and logical CPUs with dense numbers: the ID remapping, thread counts and NUMA fields of
  parse_cpu and the kernel topology of apply_sysfs_topology, src/parser/cpu.cpp.
 */
module CpuTopology {
  import opened Options
  import opened ParseUtils
  import opened SortedSets
  import opened Counting

  datatype Entry = Entry(processor: u32, physicalId: u32, coreId: u32)

  datatype Package = Package(id: nat, physicalCores: nat, logicalThreads: nat)

  datatype Core = Core(id: nat, packageId: nat, logicalThreads: nat, numaNode: Option<nat>)

  datatype LogicalCpu = LogicalCpu(id: nat, coreId: nat, packageId: nat, numaNode: Option<nat>)

  // ----- Kernel topology -----

  datatype Topology = Topology(package: Option<u32>, core: Option<u32>)

  type TopologyMap = map<u32, Topology>

  function Overridden(e: Entry, t: Topology): Entry {
    e.(physicalId := t.package.GetOr(e.physicalId), coreId := t.core.GetOr(e.coreId))
  }

  /** Entries take the kernel's numbers, each topology record serving the first entry of its processor. */
  function OverriddenAll(entries: seq<Entry>, topology: TopologyMap): (seq<Entry>, TopologyMap) {
    if entries == [] then ([], topology) else
    var (before, rest) := OverriddenAll(entries[..|entries| - 1], topology);
    var e := entries[|entries| - 1];
    if e.processor in rest then (before + [Overridden(e, rest[e.processor])], rest - {e.processor})
    else (before + [e], rest)
  }

  function OfflineEntries(numbers: seq<nat>, topology: TopologyMap): seq<Entry> {
    if numbers == [] then [] else
    var number := numbers[|numbers| - 1];
    OfflineEntries(numbers[..|numbers| - 1], topology) +
    if number in topology && topology[number].package.Some? && topology[number].core.Some?
    then [Entry(number, topology[number].package.value, topology[number].core.value)] else []
  }

  /** The entries with the kernel's numbers, then the offline CPUs the kernel places completely. */
  function WithTopology(entries: seq<Entry>, topology: TopologyMap): seq<Entry> {
    var (online, rest) := OverriddenAll(entries, topology);
    online + OfflineEntries(Ascending(rest.Keys), rest)
  }

  lemma KeyMember(s: set<nat>, i: nat)
    requires i < |Ascending(s)|
    ensures Ascending(s)[i] in s
  {
    AscendingMembers(s);
    assert Ascending(s)[i] in Ascending(s);
  }

  method ApplySysfsTopology(entries: seq<Entry>, topology: TopologyMap) returns (result: seq<Entry>)
    ensures result == WithTopology(entries, topology)
  {
    var rest := topology;
    result := [];
    for i := 0 to |entries|
      invariant (result, rest) == OverriddenAll(entries[..i], topology)
    {
      assert entries[..i + 1][..i] == entries[..i];
      var e := entries[i];
      if e.processor in rest {
        result := result + [Overridden(e, rest[e.processor])];
        rest := rest - {e.processor};
      } else {
        result := result + [e];
      }
    }
    assert entries[..|entries|] == entries;
    var numbers := Ascending(rest.Keys);
    ghost var online := result;
    for i := 0 to |numbers|
      invariant result == online + OfflineEntries(numbers[..i], rest)
    {
      assert numbers[..i + 1][..i] == numbers[..i];
      KeyMember(rest.Keys, i);
      var item := rest[numbers[i]];
      if item.package.Some? && item.core.Some? {
        result := result + [Entry(numbers[i], item.package.value, item.core.value)];
      }
    }
    assert numbers[..|numbers|] == numbers;
  }

  ghost predicate Lists(entries: seq<Entry>, processor: nat) {
    exists i :: 0 <= i < |entries| && entries[i].processor == processor
  }

  lemma {:induction false} OverriddenExact(entries: seq<Entry>, topology: TopologyMap, processor: u32)
    ensures var (online, rest) := OverriddenAll(entries, topology);
      && |online| == |entries|
      && (forall i | 0 <= i < |entries| :: online[i].processor == entries[i].processor)
      && (processor in rest <==> processor in topology && !Lists(entries, processor))
      && (processor in rest ==> rest[processor] == topology[processor])
  {
    if entries != [] {
      var n := |entries| - 1;
      OverriddenExact(entries[..n], topology, processor);
      OverriddenExact(entries[..n], topology, entries[n].processor);
      assert Lists(entries, processor) <==> Lists(entries[..n], processor) || entries[n].processor == processor by {
        assert forall i | 0 <= i < n :: entries[..n][i] == entries[i];
        assert entries[n].processor == processor ==> Lists(entries, processor);
      }
    }
  }

  lemma {:induction false} OfflineExact(numbers: seq<nat>, topology: TopologyMap, e: Entry)
    ensures e in OfflineEntries(numbers, topology) <==>
            e.processor in numbers && e.processor in topology
            && topology[e.processor] == Topology(Some(e.physicalId), Some(e.coreId))
  {
    if numbers != [] {
      var n := |numbers| - 1;
      OfflineExact(numbers[..n], topology, e);
      assert numbers == numbers[..n] + [numbers[n]];
    }
  }

  lemma {:induction false} OverriddenAt(entries: seq<Entry>, topology: TopologyMap, i: nat)
    requires i < |entries|
    ensures |OverriddenAll(entries, topology).0| == |entries|
    ensures OverriddenAll(entries, topology).0[i] ==
            if entries[i].processor in topology && !Lists(entries[..i], entries[i].processor)
            then Overridden(entries[i], topology[entries[i].processor]) else entries[i]
  {
    var n := |entries| - 1;
    OverriddenExact(entries, topology, entries[i].processor);
    OverriddenExact(entries[..n], topology, entries[n].processor);
    if i < n {
      OverriddenAt(entries[..n], topology, i);
      assert entries[..n][..i] == entries[..i];
    }
  }

  /**
    A listed CPU keeps its place and takes the kernel's numbers where the kernel gives them, the first
    time its processor is listed; otherwise its entry is unchanged.
   */
  lemma ListedTopology(entries: seq<Entry>, topology: TopologyMap, i: nat)
    requires i < |entries|
    ensures var result, e := WithTopology(entries, topology), entries[i];
      && |result| >= |entries| && result[i].processor == e.processor
      && (if e.processor in topology && !Lists(entries[..i], e.processor) then
            var t := topology[e.processor];
            && (t.package.Some? ==> result[i].physicalId == t.package.value)
            && (t.package.None? ==> result[i].physicalId == e.physicalId)
            && (t.core.Some? ==> result[i].coreId == t.core.value)
            && (t.core.None? ==> result[i].coreId == e.coreId)
          else result[i] == e)
  {
    OverriddenAt(entries, topology, i);
  }

  ghost predicate ProcessorsAscend(entries: seq<Entry>) {
    forall i, j | 0 <= i < j < |entries| :: entries[i].processor < entries[j].processor
  }

  lemma ProcessorsSnoc(entries: seq<Entry>, e: Entry)
    requires ProcessorsAscend(entries) && forall x | x in entries :: x.processor < e.processor
    ensures ProcessorsAscend(entries + [e])
  {
    assert forall i | 0 <= i < |entries| :: entries[i] in entries;
  }

  lemma OfflineStep(numbers: seq<nat>, topology: TopologyMap)
    requires numbers != []
    ensures var n := |numbers| - 1;
      var front, all := OfflineEntries(numbers[..n], topology), OfflineEntries(numbers, topology);
      all == front || exists e: Entry :: all == front + [e] && e.processor == numbers[n]
  {
    var number := numbers[|numbers| - 1];
    if number in topology && topology[number].package.Some? && topology[number].core.Some? {
      var e := Entry(number, topology[number].package.value, topology[number].core.value);
      assert OfflineEntries(numbers, topology) == OfflineEntries(numbers[..|numbers| - 1], topology) + [e];
    }
  }

  lemma {:induction false} OfflineAscending(numbers: seq<nat>, topology: TopologyMap)
    requires Increasing(numbers)
    ensures ProcessorsAscend(OfflineEntries(numbers, topology))
  {
    if numbers != [] {
      var n := |numbers| - 1;
      OfflineAscending(numbers[..n], topology);
      OfflineStep(numbers, topology);
      var front, all := OfflineEntries(numbers[..n], topology), OfflineEntries(numbers, topology);
      forall x | x in front
        ensures x.processor < numbers[n]
      {
        OfflineExact(numbers[..n], topology, x);
        var k :| 0 <= k < n && numbers[..n][k] == x.processor;
        assert numbers[k] < numbers[n];
      }
      if e: Entry :| all == front + [e] && e.processor == numbers[n] {
        ProcessorsSnoc(front, e);
      }
    }
  }

  /**
    An offline CPU is added exactly when no entry lists it and the kernel gives both its package and its
    core; added CPUs follow the listed ones in ascending order, each once.
   */
  lemma TopologyExact(entries: seq<Entry>, topology: TopologyMap, e: Entry)
    ensures var result := WithTopology(entries, topology);
      && |entries| <= |result|
      && (forall i | 0 <= i < |entries| :: result[i].processor == entries[i].processor)
      && (e in result[|entries|..] <==>
          e.processor in topology && !Lists(entries, e.processor)
          && topology[e.processor] == Topology(Some(e.physicalId), Some(e.coreId)))
      && ProcessorsAscend(result[|entries|..])
  {
    var (online, rest) := OverriddenAll(entries, topology);
    OverriddenExact(entries, topology, e.processor);
    OfflineExact(Ascending(rest.Keys), rest, e);
    AscendingMembers(rest.Keys);
    OfflineAscending(Ascending(rest.Keys), rest);
    var offline := OfflineEntries(Ascending(rest.Keys), rest);
    assert WithTopology(entries, topology)[|entries|..] == offline;
  }

  // ----- Dense numbers -----

  /** A (physical_id, core_id) pair as one number; its order is the pairs' lexicographic order. */
  function CoreKey(e: Entry): nat {
    e.physicalId * 0x1_0000_0000 + e.coreId
  }

  function PackageOfKey(key: nat): nat {
    key / 0x1_0000_0000
  }

  lemma CoreKeyExact(e: Entry, f: Entry)
    ensures PackageOfKey(CoreKey(e)) == e.physicalId
    ensures CoreKey(e) == CoreKey(f) <==> e.physicalId == f.physicalId && e.coreId == f.coreId
    ensures CoreKey(e) < CoreKey(f) <==>
            e.physicalId < f.physicalId || (e.physicalId == f.physicalId && e.coreId < f.coreId)
  {
  }

  function PhysicalIds(entries: seq<Entry>): set<nat> {
    if entries == [] then {} else PhysicalIds(entries[..|entries| - 1]) + {entries[|entries| - 1].physicalId}
  }

  function CoreKeys(entries: seq<Entry>): set<nat> {
    if entries == [] then {} else CoreKeys(entries[..|entries| - 1]) + {CoreKey(entries[|entries| - 1])}
  }

  lemma {:induction false} IdsExact(entries: seq<Entry>, i: nat)
    requires i < |entries|
    ensures entries[i].physicalId in PhysicalIds(entries) && CoreKey(entries[i]) in CoreKeys(entries)
  {
    if i < |entries| - 1 {
      IdsExact(entries[..|entries| - 1], i);
    }
  }

  lemma {:induction false} IdsComeFrom(entries: seq<Entry>)
    ensures forall p | p in PhysicalIds(entries) :: exists i :: 0 <= i < |entries| && entries[i].physicalId == p
    ensures forall k | k in CoreKeys(entries) :: exists i :: 0 <= i < |entries| && CoreKey(entries[i]) == k
  {
    if entries != [] {
      var n := |entries| - 1;
      IdsComeFrom(entries[..n]);
      assert forall i | 0 <= i < n :: entries[..n][i] == entries[i];
    }
  }

  /** The dense number of each element of a list: its position. */
  function Numbered(ids: seq<nat>): (m: map<nat, nat>)
    ensures forall x :: x in m <==> x in ids
  {
    if ids == [] then map[] else
    assert ids == ids[..|ids| - 1] + [ids[|ids| - 1]];
    Numbered(ids[..|ids| - 1])[ids[|ids| - 1] := |ids| - 1]
  }

  method NumberIds(ids: seq<nat>) returns (m: map<nat, nat>)
    ensures m == Numbered(ids)
  {
    m := map[];
    var sequence := 0;
    while sequence < |ids|
      invariant 0 <= sequence <= |ids| && m == Numbered(ids[..sequence])
    {
      assert ids[..sequence + 1][..sequence] == ids[..sequence];
      m := m[ids[sequence] := sequence];
      sequence := sequence + 1;
    }
    assert ids[..|ids|] == ids;
  }

  /** Positions of distinct elements: number and element determine each other. */
  lemma {:induction false} NumberedExact(ids: seq<nat>, x: nat)
    requires Increasing(ids) && x in ids
    ensures Numbered(ids)[x] < |ids| && ids[Numbered(ids)[x]] == x
  {
    var n := |ids| - 1;
    assert ids == ids[..n] + [ids[n]];
    if x != ids[n] {
      NumberedExact(ids[..n], x);
      assert Numbered(ids)[x] == Numbered(ids[..n])[x];
    } else {
      assert Numbered(ids)[x] == n;
    }
  }

  method CollectIds(entries: seq<Entry>) returns (physicalIds: set<nat>, coreKeys: set<nat>)
    ensures physicalIds == PhysicalIds(entries) && coreKeys == CoreKeys(entries)
  {
    physicalIds, coreKeys := {}, {};
    for i := 0 to |entries|
      invariant physicalIds == PhysicalIds(entries[..i]) && coreKeys == CoreKeys(entries[..i])
    {
      assert entries[..i + 1][..i] == entries[..i];
      physicalIds := physicalIds + {entries[i].physicalId};
      coreKeys := coreKeys + {CoreKey(entries[i])};
    }
    assert entries[..|entries|] == entries;
  }

  // ----- Counting -----

  function Is(v: nat): nat -> bool {
    (x: nat) => x == v
  }

  function SumOfCounts(q: seq<nat>, n: nat): nat {
    if n == 0 then 0 else SumOfCounts(q, n - 1) + CountIf(q, Is(n - 1))
  }

  lemma {:induction false} SumOfCountsSnoc(q: seq<nat>, v: nat, n: nat)
    ensures SumOfCounts(q + [v], n) == SumOfCounts(q, n) + if v < n then 1 else 0
  {
    if n > 0 {
      SumOfCountsSnoc(q, v, n - 1);
      assert (q + [v])[..|q|] == q;
    }
  }

  lemma {:induction false} NoCounts(n: nat)
    ensures SumOfCounts([], n) == 0
  {
    if n > 0 {
      NoCounts(n - 1);
    }
  }

  /** Counting every value below a bound counts every element once. */
  lemma {:induction false} CountsAddUp(q: seq<nat>, n: nat)
    requires forall i | 0 <= i < |q| :: q[i] < n
    ensures SumOfCounts(q, n) == |q|
  {
    if q == [] {
      NoCounts(n);
    } else {
      var k := |q| - 1;
      CountsAddUp(q[..k], n);
      SumOfCountsSnoc(q[..k], q[k], n);
      assert q == q[..k] + [q[k]];
    }
  }
}
