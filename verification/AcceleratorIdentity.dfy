/**
  What identity merging keeps over every run of evidence: distinct IDs, stable physical ordinals, no lost
  device or fact, and exactly when re-adding evidence changes nothing.
 */
module AcceleratorIdentity {
  import opened Options
  import opened ParseUtils
  import opened PciAddresses
  import opened AcceleratorModel
  import opened AcceleratorInventories

  // ----- Renumbering -----

  ghost predicate ChildOn(device: Device, id: nat) {
    device.parentUuid.Some? && device.id == id
  }

  lemma FreshIdDistinct(devices: seq<Device>, h: nat)
    requires DistinctIds(devices) && h < |devices|
    ensures DistinctIds(devices[h := devices[h].(id := NextId(devices))])
    ensures NextId(devices) != devices[h].id
  {
    assert forall j | 0 <= j < |devices| :: devices[j].id != NextId(devices);
  }

  lemma {:induction false} NothingToRenumber(devices: seq<Device>, id: nat, k: nat)
    requires k <= |devices| && forall j | k <= j < |devices| :: !ChildOn(devices[j], id)
    ensures Renumbered(devices, id, k) == devices
    decreases |devices| - k
  {
    if k < |devices| {
      assert !ChildOn(devices[k], id);
      NothingToRenumber(devices, id, k + 1);
    }
  }

  /** With distinct IDs at most one MIG instance sits on the ordinal; it alone moves, to the least unused ID. */
  lemma {:induction false} RenumberedExact(devices: seq<Device>, id: nat, k: nat) returns (h: nat)
    requires DistinctIds(devices) && k <= |devices|
    ensures k <= h <= |devices|
    ensures if h < |devices|
            then ChildOn(devices[h], id) && Renumbered(devices, id, k)
                 == devices[h := devices[h].(id := NextId(devices))]
            else Renumbered(devices, id, k) == devices && forall j | k <= j < |devices| :: !ChildOn(devices[j], id)
    decreases |devices| - k
  {
    h := k;
    if k < |devices| {
      if ChildOn(devices[k], id) {
        FreshIdDistinct(devices, k);
        NothingToRenumber(devices[k := devices[k].(id := NextId(devices))], id, k + 1);
      } else {
        h := RenumberedExact(devices, id, k + 1);
      }
    }
  }

  /** After renumbering, the claimed ordinal is held only by a physical device, if at all. */
  lemma RenumberedKeepsIdentity(devices: seq<Device>, id: nat)
    requires DistinctIds(devices)
    ensures var result := Renumbered(devices, id, 0);
      && DistinctIds(result)
      && (HasId(result, id) <==> exists j | 0 <= j < |devices| :: devices[j].Physical() && devices[j].id == id)
      && forall j | 0 <= j < |devices| :: result[j] == devices[j].(id := result[j].id)
                                          && (devices[j].Physical() ==> result[j] == devices[j])
  {
    var h := RenumberedExact(devices, id, 0);
    var result := Renumbered(devices, id, 0);
    if h < |devices| {
      FreshIdDistinct(devices, h);
    }
    if HasId(result, id) {
      var j :| 0 <= j < |result| && result[j].id == id;
      assert devices[j].Physical() && devices[j].id == id;
    }
    if j :| 0 <= j < |devices| && devices[j].Physical() && devices[j].id == id {
      assert result[j].id == id;
    }
  }

  ghost predicate PhysicalHolds(devices: seq<Device>, id: nat) {
    exists j | 0 <= j < |devices| :: devices[j].Physical() && devices[j].id == id
  }

  /** What storing an unmatched device does: only IDs of MIG instances may move, and all stay distinct. */
  lemma AppendedShape(devices: seq<Device>, device: Device)
    requires DistinctIds(devices)
    ensures var after, n := Appended(devices, device), |devices|;
      && |after| == n + 1 && DistinctIds(after)
      && after[n] == device.(id := after[n].id)
      && (device.Physical() ==> (after[n].id == device.id <==> !PhysicalHolds(devices, device.id)))
      && forall j | 0 <= j < n :: after[j] == devices[j].(id := after[j].id)
                                  && (devices[j].Physical() ==> after[j] == devices[j])
  {
    RenumberedKeepsIdentity(devices, device.id);
    var stored := if device.Physical() then Renumbered(devices, device.id, 0) else devices;
    assert !HasId(stored, NextId(stored));
    assert !HasId(stored, device.id) ==> forall j | 0 <= j < |stored| :: stored[j].id != device.id;
  }

  // ----- Distinct IDs in every state -----

  lemma AddedDistinct(devices: seq<Device>, device: Device)
    requires DistinctIds(devices)
    ensures DistinctIds(Added(devices, device))
  {
    if FirstMatch(devices, device) == |devices| {
      AppendedShape(devices, device);
    }
  }

  // ----- Monotone growth -----

  ghost predicate Keeps<T>(before: Option<T>, after: Option<T>) {
    before.Some? ==> after == before
  }

  /** The later record is of the same device: fixed fields equal, known fields kept, a physical ID unchanged. */
  ghost predicate Extends(before: Device, after: Device) {
    && after.kind == before.kind && after.vendor == before.vendor && after.name == before.name
    && after.driver == before.driver && after.visible == before.visible && after.parentUuid == before.parentUuid
    && Keeps(before.uuid, after.uuid) && Keeps(before.pci, after.pci) && Keeps(before.numa, after.numa)
    && Keeps(before.memory, after.memory) && Keeps(before.gpuInstance, after.gpuInstance)
    && Keeps(before.computeInstance, after.computeInstance)
    && (before.Physical() ==> after.id == before.id)
  }

  ghost predicate ListExtends(before: seq<Device>, after: seq<Device>) {
    |before| <= |after| && forall i | 0 <= i < |before| :: Extends(before[i], after[i])
  }

  /** Adding evidence drops no device, overwrites no known fact, and adds at most one record. */
  lemma AddedExtends(devices: seq<Device>, device: Device)
    requires DistinctIds(devices)
    ensures ListExtends(devices, Added(devices, device))
    ensures |Added(devices, device)| <= |devices| + 1
  {
    if FirstMatch(devices, device) == |devices| {
      AppendedShape(devices, device);
      var after := Appended(devices, device);
      forall i | 0 <= i < |devices| ensures Extends(devices[i], after[i]) {
        assert after[i] == devices[i].(id := after[i].id);
      }
    }
  }

  /** A fact after merging: the known one stays, an unknown one is learnt from the evidence. */
  ghost predicate Learns<T>(before: Option<T>, evidence: Option<T>, after: Option<T>) {
    after == if before.Some? then before else evidence
  }

  lemma FirstMatchIs(devices: seq<Device>, device: Device, i: nat)
    requires i <= |devices| && forall j | 0 <= j < i :: !SameDevice(devices[j], device)
    requires i < |devices| ==> SameDevice(devices[i], device)
    ensures FirstMatch(devices, device) == i
  {
  }

  /** Matching evidence completes exactly one record, the first that matches, and touches no other. */
  lemma AddedCompletes(devices: seq<Device>, device: Device, i: nat)
    requires device.id != U32_MAX && i < |devices| && SameDevice(devices[i], device)
    requires forall j | 0 <= j < i :: !SameDevice(devices[j], device)
    ensures var after := Added(devices, device);
      && |after| == |devices| && (forall j | 0 <= j < |devices| && j != i :: after[j] == devices[j])
      && after[i].id == devices[i].id && Extends(devices[i], after[i])
      && Learns(devices[i].uuid, device.uuid, after[i].uuid) && Learns(devices[i].pci, device.pci, after[i].pci)
      && Learns(devices[i].memory, device.memory, after[i].memory)
      && Learns(devices[i].numa, device.numa, after[i].numa)
      && Learns(devices[i].gpuInstance, device.gpuInstance, after[i].gpuInstance)
      && Learns(devices[i].computeInstance, device.computeInstance, after[i].computeInstance)
  {
    FirstMatchIs(devices, device, i);
  }

  /** A new physical device keeps its ordinal exactly when no physical device holds it. */
  lemma OrdinalKept(devices: seq<Device>, device: Device)
    requires DistinctIds(devices) && device.id != U32_MAX && device.Physical()
    requires FirstMatch(devices, device) == |devices|
    ensures var after := Added(devices, device);
      |after| == |devices| + 1 && (after[|devices|].id == device.id <==> !PhysicalHolds(devices, device.id))
  {
    AppendedShape(devices, device);
  }

  // ----- Re-adding evidence -----

  /** Evidence whose identity survives the allocation of another ID. */
  ghost predicate StableIdentity(device: Device) {
    || device.uuid.Some?
    || (device.parentUuid.Some? && device.gpuInstance.Some? && device.computeInstance.Some?)
    || (device.Physical() && device.pci.Some?)
  }

  lemma MergedMatches(existing: Device, device: Device)
    requires SameDevice(existing, device)
    ensures SameDevice(Merged(existing, device), device)
    ensures Merged(Merged(existing, device), device) == Merged(existing, device)
  {
  }

  /** A record that was merged is found again at the same place. */
  lemma ReAddMerged(devices: seq<Device>, device: Device)
    requires device.id != U32_MAX && FirstMatch(devices, device) < |devices|
    ensures Added(Added(devices, device), device) == Added(devices, device)
  {
    var i := FirstMatch(devices, device);
    var after := Added(devices, device);
    MergedMatches(devices[i], device);
    FirstMatchIs(after, device, i);
    assert after[i := after[i]] == after;
  }

  lemma AppendedUnmatched(devices: seq<Device>, device: Device, after: seq<Device>, j: nat)
    requires DistinctIds(devices) && FirstMatch(devices, device) == |devices|
    requires after == Appended(devices, device) && j < |devices|
    ensures j < |after| && !SameDevice(after[j], device)
  {
    AppendedShape(devices, device);
    assert !SameDevice(devices[j], device);
    assert after[j] == devices[j].(id := after[j].id);
  }

  lemma AppendedMatch(devices: seq<Device>, device: Device, after: seq<Device>)
    requires DistinctIds(devices) && FirstMatch(devices, device) == |devices| && after == Appended(devices, device)
    ensures |after| == |devices| + 1 && DistinctIds(after) && after[|devices|] == device.(id := after[|devices|].id)
    ensures FirstMatch(after, device) == if SameDevice(after[|devices|], device) then |devices| else |after|
  {
    AppendedShape(devices, device);
    forall j | 0 <= j < |devices| ensures !SameDevice(after[j], device) {
      AppendedUnmatched(devices, device, after, j);
    }
    FirstMatchIs(after, device, if SameDevice(after[|devices|], device) then |devices| else |after|);
  }

  /** A record that was appended is found again exactly when its identity does not hang on a lost ordinal. */
  lemma ReAddAppended(devices: seq<Device>, device: Device)
    requires DistinctIds(devices) && device.id != U32_MAX && FirstMatch(devices, device) == |devices|
    ensures Added(Added(devices, device), device) == Added(devices, device) <==>
            StableIdentity(device) || (device.Physical() && Added(devices, device)[|devices|].id == device.id)
  {
    var after := Added(devices, device);
    AppendedMatch(devices, device, after);
    var stored := after[|devices|];
    if SameDevice(stored, device) {
      assert after[|devices| := stored] == after;
    } else {
      AppendedShape(after, device);
    }
  }

  /**
    Re-adding evidence changes nothing exactly when it was refused, was merged into a stored device, has
    a stable identity, or is physical and kept its ordinal.
   */
  lemma ReAddIdempotent(devices: seq<Device>, device: Device)
    requires DistinctIds(devices)
    ensures Added(Added(devices, device), device) == Added(devices, device) <==>
            || device.id == U32_MAX
            || FirstMatch(devices, device) < |devices|
            || StableIdentity(device)
            || (device.Physical() && !PhysicalHolds(devices, device.id))
  {
    if device.id != U32_MAX {
      if FirstMatch(devices, device) < |devices| {
        ReAddMerged(devices, device);
      } else {
        ReAddAppended(devices, device);
        if device.Physical() {
          OrdinalKept(devices, device);
        }
      }
    }
  }

  // ----- What is never merged -----

  /** Two UUIDs, or two PCI addresses without an equal UUID, are never one physical device. */
  lemma ConflictsStaySeparate(left: Device, right: Device)
    requires SameDevice(left, right)
    ensures left.uuid.Some? && right.uuid.Some? ==> left.uuid == right.uuid
    ensures left.Physical() && left.pci.Some? && right.pci.Some? && left.pci != right.pci ==>
            left.uuid.Some? && left.uuid == right.uuid
    ensures left.Physical() <==> right.Physical()
  {
  }

  lemma {:induction false} UuidWarningsGrow(devices: seq<Device>, device: Device, j: nat, k: nat)
    requires j < k <= |devices| && UuidConflict(devices[j], device)
    ensures ConflictingUuids in UuidWarnings(devices, device, k)
  {
    if j < k - 1 {
      UuidWarningsGrow(devices, device, j, k - 1);
    }
  }

  /** A new UUID at a known PCI address is reported and stored beside the other device. */
  lemma UuidConflictKept(devices: seq<Device>, device: Device, j: nat)
    requires DistinctIds(devices) && device.id != U32_MAX && j < |devices|
    requires UuidConflict(devices[j], device) && FirstMatch(devices, device) == |devices|
    ensures ConflictingUuids in AddWarnings(devices, device)
    ensures var after := Added(devices, device);
      |after| == |devices| + 1 && after[j] == devices[j] && after[|devices|] == device.(id := after[|devices|].id)
  {
    UuidWarningsGrow(devices, device, j, |devices|);
    AppendedShape(devices, device);
  }

  // ----- Runs -----

  /**
    The ways the list is touched: adding evidence, the MIG list writing the UUID of the physical NVIDIA
    device with a reported index, and the NUMA nodes filled in by address (src/parser/accelerator.cpp).
   */
  datatype Step = Add(device: Device) | NamePhysical(index: nat, uuid: string) | Locate(nodes: map<PciAddress, nat>)

  function Named(devices: seq<Device>, index: nat, uuid: string): (result: seq<Device>)
    ensures |result| == |devices|
  {
    if devices == [] then [] else
    var n := |devices| - 1;
    var last := devices[n];
    Named(devices[..n], index, uuid) +
    [if last.Physical() && last.vendor == Nvidia && last.id == index then last.(uuid := Some(uuid)) else last]
  }

  lemma {:induction false} NamedAt(devices: seq<Device>, index: nat, uuid: string, i: nat)
    requires i < |devices|
    ensures Named(devices, index, uuid)[i] ==
            if devices[i].Physical() && devices[i].vendor == Nvidia && devices[i].id == index
            then devices[i].(uuid := Some(uuid)) else devices[i]
  {
    if i < |devices| - 1 {
      NamedAt(devices[..|devices| - 1], index, uuid, i);
    }
  }

  function LocatedOne(device: Device, nodes: map<PciAddress, nat>): Device {
    if device.pci.Some? && device.numa.None? && device.pci.value in nodes
    then device.(numa := Some(nodes[device.pci.value])) else device
  }

  function Located(devices: seq<Device>, nodes: map<PciAddress, nat>): (result: seq<Device>)
    ensures |result| == |devices| && forall i | 0 <= i < |result| :: result[i] == LocatedOne(devices[i], nodes)
  {
    seq(|devices|, i requires 0 <= i < |devices| => LocatedOne(devices[i], nodes))
  }

  function Stepped(devices: seq<Device>, step: Step): seq<Device> {
    match step
    case Add(device) => Added(devices, device)
    case NamePhysical(index, uuid) => Named(devices, index, uuid)
    case Locate(nodes) => Located(devices, nodes)
  }

  function Run(devices: seq<Device>, steps: seq<Step>): seq<Device> {
    if steps == [] then devices else Stepped(Run(devices, steps[..|steps| - 1]), steps[|steps| - 1])
  }

  /** Every run of steps from an empty inventory, in any order, leaves all IDs pairwise distinct. */
  lemma {:induction false} RunDistinct(devices: seq<Device>, steps: seq<Step>)
    requires DistinctIds(devices)
    ensures DistinctIds(Run(devices, steps))
  {
    if steps != [] {
      var before := Run(devices, steps[..|steps| - 1]);
      RunDistinct(devices, steps[..|steps| - 1]);
      match steps[|steps| - 1]
      case Add(device) => AddedDistinct(before, device);
      case NamePhysical(index, uuid) =>
        forall i | 0 <= i < |before| ensures Named(before, index, uuid)[i].id == before[i].id {
          NamedAt(before, index, uuid, i);
        }
      case Locate(nodes) =>
        assert forall i | 0 <= i < |before| :: Located(before, nodes)[i].id == before[i].id;
    }
  }

  /** The UUID the MIG list gave last to the physical NVIDIA device with that index. */
  function LastName(steps: seq<Step>, index: nat): Option<string> {
    if steps == [] then None else
    var last := steps[|steps| - 1];
    if last.NamePhysical? && last.index == index then Some(last.uuid) else LastName(steps[..|steps| - 1], index)
  }

  /**
    A stored device keeps its place, every known fact and, if physical, its ID. Only the UUID of a physical
    NVIDIA device is overwritten, by the MIG list, and then it is the one given last.
   */
  ghost predicate Persists(before: Device, after: Device, name: Option<string>) {
    && Extends(before.(uuid := None), after.(uuid := None))
    && if before.Physical() && before.vendor == Nvidia && name.Some? then after.uuid == name
       else Keeps(before.uuid, after.uuid)
  }

  /** One more step after a device has persisted so far. */
  lemma PersistsOn(first: Device, before: Device, after: Device, name: Option<string>, next: Option<string>,
                   all: Option<string>)
    requires Persists(first, before, name) && Persists(before, after, next)
    requires first.Physical() && first.vendor == Nvidia ==> all == if next.Some? then next else name
    ensures Persists(first, after, all)
  {
  }

  lemma LastNameSnoc(front: seq<Step>, last: Step, index: nat)
    ensures LastName(front + [last], index)
         == if LastName([last], index).Some? then LastName([last], index) else LastName(front, index)
  {
    assert [last][..0] == [] && (front + [last])[..|front|] == front;
  }

  lemma StepPersists(devices: seq<Device>, step: Step, i: nat)
    requires DistinctIds(devices) && i < |devices|
    ensures |devices| <= |Stepped(devices, step)|
    ensures Persists(devices[i], Stepped(devices, step)[i], LastName([step], devices[i].id))
  {
    match step
    case Add(device) => AddedExtends(devices, device);
    case NamePhysical(index, uuid) => NamedAt(devices, index, uuid, i);
    case Locate(nodes) =>
  }

  lemma {:induction false} RunPersists(devices: seq<Device>, steps: seq<Step>, i: nat)
    requires DistinctIds(devices) && i < |devices|
    ensures |devices| <= |Run(devices, steps)|
    ensures Persists(devices[i], Run(devices, steps)[i], LastName(steps, devices[i].id))
  {
    if steps != [] {
      var front, last := steps[..|steps| - 1], steps[|steps| - 1];
      var before := Run(devices, front);
      RunPersists(devices, front, i);
      RunDistinct(devices, front);
      StepPersists(before, last, i);
      assert steps == front + [last];
      LastNameSnoc(front, last, devices[i].id);
      PersistsOn(devices[i], before[i], Run(devices, steps)[i], LastName(front, devices[i].id),
                 LastName([last], before[i].id), LastName(steps, devices[i].id));
    }
  }

  function AddedAll(devices: seq<Device>, evidence: seq<Device>): seq<Device> {
    if evidence == [] then devices
    else Added(AddedAll(devices, evidence[..|evidence| - 1]), evidence[|evidence| - 1])
  }

  /** Over evidence alone no known fact is ever lost, however long the run. */
  lemma {:induction false} EvidenceExtends(devices: seq<Device>, evidence: seq<Device>)
    requires DistinctIds(devices)
    ensures ListExtends(devices, AddedAll(devices, evidence)) && DistinctIds(AddedAll(devices, evidence))
  {
    if evidence != [] {
      var before := AddedAll(devices, evidence[..|evidence| - 1]);
      EvidenceExtends(devices, evidence[..|evidence| - 1]);
      AddedExtends(before, evidence[|evidence| - 1]);
      AddedDistinct(before, evidence[|evidence| - 1]);
      var after := AddedAll(devices, evidence);
      forall i | 0 <= i < |devices| ensures Extends(devices[i], after[i]) {
        assert Extends(devices[i], before[i]) && Extends(before[i], after[i]);
      }
    }
  }

  // ----- Limits of the identity relation -----

  const BARE: Device := Device(0, Gpu, Nvidia, "", None, None, None, None, false, None, None, None, None)
  const ADDRESS: PciAddress := PciAddress(0, 1, 0, 0)

  /** Identity is not transitive: an ordinal can link two devices whose UUIDs differ. */
  lemma SameDeviceNotTransitive()
    ensures exists a, b, c :: SameDevice(a, b) && SameDevice(b, c) && !SameDevice(a, c)
  {
    var a, c := BARE.(uuid := Some("GPU-1")), BARE.(uuid := Some("GPU-2"));
    assert SameDevice(a, BARE) && SameDevice(BARE, c) && !SameDevice(a, c);
  }

  ghost predicate SharesUuid(a: Device, b: Device) {
    a.vendor == b.vendor && a.parentUuid == b.parentUuid && a.uuid.Some? && a.uuid == b.uuid
  }

  ghost predicate UniqueUuids(devices: seq<Device>) {
    forall i, j | 0 <= i < j < |devices| :: !SharesUuid(devices[i], devices[j])
  }

  /** The evidence joins a device without a UUID while a later device already carries that UUID. */
  ghost predicate BridgesTwoDevices(devices: seq<Device>, device: Device) {
    var i := FirstMatch(devices, device);
    && device.id != U32_MAX && i < |devices| && devices[i].uuid.None?
    && exists j | 0 <= j < |devices| :: SharesUuid(devices[j], device)
  }

  /**
    One UUID per device survives an addition exactly when the evidence does not bridge two stored
    devices: the list is never re-merged, so a bridge leaves one UUID on two of them.
   */
  lemma UuidsStayUnique(devices: seq<Device>, device: Device)
    requires DistinctIds(devices) && UniqueUuids(devices)
    ensures UniqueUuids(Added(devices, device)) <==> !BridgesTwoDevices(devices, device)
  {
    var i := FirstMatch(devices, device);
    var after := Added(devices, device);
    if device.id != U32_MAX {
      if i == |devices| {
        AppendedShape(devices, device);
        forall j | 0 <= j < |devices| ensures !SharesUuid(after[j], after[|devices|]) {
          assert !SameDevice(devices[j], device);
        }
        forall j, k | 0 <= j < k < |devices| ensures !SharesUuid(after[j], after[k]) {
          assert !SharesUuid(devices[j], devices[k]);
        }
      } else if devices[i].uuid.None? {
        if j :| 0 <= j < |devices| && SharesUuid(devices[j], device) {
          assert SameDevice(devices[j], device);
          assert SharesUuid(after[i], after[j]);
        }
      }
    }
  }

  /** A new physical device whose ordinal nobody has is stored as it is. */
  lemma AddFree(devices: seq<Device>, device: Device)
    requires device.Physical() && device.id != U32_MAX && !HasId(devices, device.id)
    requires forall i | 0 <= i < |devices| :: !SameDevice(devices[i], device)
    ensures Added(devices, device) == devices + [device]
  {
    FirstMatchIs(devices, device, |devices|);
    NothingToRenumber(devices, device.id, 0);
  }

  /** A bridge exists: an address-only device, then a UUID-only device, then evidence carrying both. */
  lemma BridgeExample()
    ensures var first := BARE.(pci := Some(ADDRESS));
            var second := BARE.(id := 1, uuid := Some("GPU-1"));
            var both := BARE.(id := 2, uuid := Some("GPU-1"), pci := Some(ADDRESS));
            !UniqueUuids(Added(Added(Added([], first), second), both))
  {
    var first := BARE.(pci := Some(ADDRESS));
    var second := BARE.(id := 1, uuid := Some("GPU-1"));
    var both := BARE.(id := 2, uuid := Some("GPU-1"), pci := Some(ADDRESS));
    AddFree([], first);
    AddFree([first], second);
    assert [] + [first] == [first] && [first] + [second] == [first, second];
    FirstMatchIs([first, second], both, 0);
    assert SharesUuid([first, second][1], both);
    UuidsStayUnique([first, second], both);
  }

  lemma AppendedTwice(devices: seq<Device>, device: Device)
    requires DistinctIds(devices) && device.id != U32_MAX && forall d | d in devices :: !SameDevice(d, device)
    requires !StableIdentity(device) && (device.Physical() ==> PhysicalHolds(devices, device.id))
    ensures |Added(Added(devices, device), device)| == |devices| + 2
  {
    assert forall j | 0 <= j < |devices| :: devices[j] in devices;
    FirstMatchIs(devices, device, |devices|);
    AppendedShape(devices, device);
    var after := Added(devices, device);
    forall j | 0 <= j < |after|
      ensures !SameDevice(after[j], device)
    {
      if j < |devices| {
        assert after[j] == devices[j].(id := after[j].id) && !SameDevice(devices[j], device);
      }
    }
    FirstMatchIs(after, device, |after|);
    AppendedShape(after, device);
  }

  /**
    Re-adding duplicates a MIG instance without instance numbers, and a physical device without address
    and UUID whose ordinal another vendor's device holds.
   */
  lemma ReAddExample()
    ensures var child := BARE.(parentUuid := Some("GPU-1"));
      |Added(Added([], child), child)| == 2
    ensures var other := BARE.(vendor := Amd);
      |Added(Added([other], BARE), BARE)| == 3
  {
    var child := BARE.(parentUuid := Some("GPU-1"));
    AppendedTwice([], child);
    var other := BARE.(vendor := Amd);
    assert PhysicalHolds([other], BARE.id) by { assert [other][0].Physical(); }
    OrdinalKept([other], BARE);
    AppendedTwice([other], BARE);
  }
}
