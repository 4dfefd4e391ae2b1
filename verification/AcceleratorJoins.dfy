/**
  When evidence joins a stored device and when it is stored beside it, in terms of the device fields:
  AcceleratorInventory::add of src/parser/accelerator_inventory.cpp.
 */
module AcceleratorJoins {
  import opened Options
  import opened ParseUtils
  import opened PciAddresses
  import opened AcceleratorModel
  import opened AcceleratorInventories
  import opened AcceleratorIdentity

  // ----- One device -----

  ghost predicate BothKnow<T(!new)>(a: Option<T>, b: Option<T>) {
    exists x :: a == Some(x) && b == Some(x)
  }

  /** Two records of one MIG instance: of one parent, with one UUID, or with both numbers where a UUID is missing. */
  ghost predicate OneInstance(a: Device, b: Device) {
    && a.vendor == b.vendor && BothKnow(a.parentUuid, b.parentUuid)
    && (BothKnow(a.uuid, b.uuid)
        || ((a.uuid.None? || b.uuid.None?)
            && BothKnow(a.gpuInstance, b.gpuInstance) && BothKnow(a.computeInstance, b.computeInstance)))
  }

  /** Two records of one physical device: by UUID, else by address, else by ordinal. */
  ghost predicate OnePhysical(a: Device, b: Device) {
    && a.vendor == b.vendor && a.parentUuid.None? && b.parentUuid.None?
    && (BothKnow(a.uuid, b.uuid)
        || ((a.uuid.None? || b.uuid.None?)
            && (BothKnow(a.pci, b.pci) || ((a.pci.None? || b.pci.None?) && a.id == b.id))))
  }

  ghost predicate OneDevice(a: Device, b: Device) {
    OneInstance(a, b) || OnePhysical(a, b)
  }

  lemma Known<T(!new)>(a: Option<T>, b: Option<T>)
    ensures BothKnow(a, b) <==> a.Some? && a == b
  {
    if a.Some? && a == b {
      assert a == Some(a.value) && b == Some(a.value);
    }
  }

  lemma SameDeviceExact(a: Device, b: Device)
    ensures SameDevice(a, b) <==> OneDevice(a, b)
  {
    Known(a.parentUuid, b.parentUuid);
    Known(a.uuid, b.uuid);
    Known(a.gpuInstance, b.gpuInstance);
    Known(a.computeInstance, b.computeInstance);
    Known(a.pci, b.pci);
  }

  // ----- Joining -----

  /** The first stored record of the evidence's device. */
  ghost predicate FirstOf(devices: seq<Device>, device: Device, i: nat) {
    i < |devices| && OneDevice(devices[i], device) && forall j | 0 <= j < i :: !OneDevice(devices[j], device)
  }

  lemma FirstOfMatch(devices: seq<Device>, device: Device)
    ensures forall i: nat | FirstOf(devices, device, i) :: FirstMatch(devices, device) == i
    ensures (forall j | 0 <= j < |devices| :: !OneDevice(devices[j], device)) ==>
              FirstMatch(devices, device) == |devices|
    ensures FirstMatch(devices, device) < |devices| ==> FirstOf(devices, device, FirstMatch(devices, device))
  {
    forall j | 0 <= j < |devices|
      ensures SameDevice(devices[j], device) <==> OneDevice(devices[j], device)
    {
      SameDeviceExact(devices[j], device);
    }
    forall i: nat | FirstOf(devices, device, i)
      ensures FirstMatch(devices, device) == i
    {
      FirstMatchIs(devices, device, i);
    }
    if forall j | 0 <= j < |devices| :: !OneDevice(devices[j], device) {
      FirstMatchIs(devices, device, |devices|);
    }
  }

  /** Evidence joins the first record of its device, which learns what it did not know; nothing else changes. */
  lemma EvidenceJoins(devices: seq<Device>, device: Device, i: nat)
    requires device.id != U32_MAX && FirstOf(devices, device, i)
    ensures var after := Added(devices, device);
      && |after| == |devices| && (forall j | 0 <= j < |devices| && j != i :: after[j] == devices[j])
      && Learns(devices[i].uuid, device.uuid, after[i].uuid) && Learns(devices[i].pci, device.pci, after[i].pci)
      && Learns(devices[i].memory, device.memory, after[i].memory)
      && Learns(devices[i].numa, device.numa, after[i].numa)
      && Learns(devices[i].gpuInstance, device.gpuInstance, after[i].gpuInstance)
      && Learns(devices[i].computeInstance, device.computeInstance, after[i].computeInstance)
  {
    FirstOfMatch(devices, device);
    AddedCompletes(devices, device, i);
  }

  /** Evidence of a device without a record is stored as a record of its own, and only that adds one. */
  lemma EvidenceStored(devices: seq<Device>, device: Device)
    requires DistinctIds(devices) && device.id != U32_MAX
    ensures var after := Added(devices, device);
      && (|after| == |devices| + 1 <==> forall j | 0 <= j < |devices| :: !OneDevice(devices[j], device))
      && (|after| == |devices| <==> exists j :: 0 <= j < |devices| && OneDevice(devices[j], device))
      && (|after| == |devices| + 1 ==> after[|devices|] == device.(id := after[|devices|].id))
  {
    FirstOfMatch(devices, device);
    var i := FirstMatch(devices, device);
    if i == |devices| {
      AppendedShape(devices, device);
      forall j | 0 <= j < |devices|
        ensures !OneDevice(devices[j], device)
      {
        SameDeviceExact(devices[j], device);
      }
    } else {
      AddedCompletes(devices, device, i);
    }
  }

  /** An instance that differs from every stored one of its parent in a number or in its UUID adds a record. */
  lemma InstanceStored(devices: seq<Device>, device: Device)
    requires DistinctIds(devices) && device.id != U32_MAX && device.parentUuid.Some?
    requires forall d | d in devices && d.vendor == device.vendor && d.parentUuid == device.parentUuid ::
               if d.uuid.Some? && device.uuid.Some? then d.uuid != device.uuid
               else d.gpuInstance != device.gpuInstance || d.computeInstance != device.computeInstance
    ensures |Added(devices, device)| == |devices| + 1
  {
    forall j | 0 <= j < |devices|
      ensures !OneDevice(devices[j], device)
    {
      assert devices[j] in devices;
      SameDeviceExact(devices[j], device);
    }
    EvidenceStored(devices, device);
  }

  lemma Found(devices: seq<Device>, device: Device, j: nat)
    requires DistinctIds(devices) && device.id != U32_MAX && j < |devices|
    requires device.parentUuid.Some? && device.uuid.None? && device.gpuInstance.Some? && device.computeInstance.Some?
    requires devices[j].vendor == device.vendor && devices[j].parentUuid == device.parentUuid
    requires devices[j].gpuInstance == device.gpuInstance && devices[j].computeInstance == device.computeInstance
    ensures |Added(devices, device)| == |devices|
  {
    SameDeviceExact(devices[j], device);
    EvidenceStored(devices, device);
  }

  /** Two compute instances of one GPU instance, without UUIDs, are two records, and each is found again. */
  lemma ComputeInstancesExample(parent: string, gpu: nat)
    ensures var first := BARE.(parentUuid := Some(parent), gpuInstance := Some(gpu), computeInstance := Some(0));
      var second := first.(computeInstance := Some(1));
      var stored := Added([first], second);
      |stored| == 2 && |Added(stored, first)| == 2 && |Added(stored, second)| == 2
  {
    var first := BARE.(parentUuid := Some(parent), gpuInstance := Some(gpu), computeInstance := Some(0));
    var second := first.(computeInstance := Some(1));
    InstanceStored([first], second);
    EvidenceStored([first], second);
    AddedDistinct([first], second);
    AddedExtends([first], second);
    var stored := Added([first], second);
    Found(stored, first, 0);
    Found(stored, second, 1);
  }

  // ----- Warnings -----

  /** Two physical devices of one vendor with known UUIDs at one known address. */
  ghost predicate OneAddress(a: Device, b: Device) {
    && a.vendor == b.vendor && a.parentUuid.None? && b.parentUuid.None?
    && a.uuid.Some? && b.uuid.Some? && BothKnow(a.pci, b.pci)
  }

  lemma {:induction false} UuidWarningsExact(devices: seq<Device>, device: Device, k: nat, w: Warning)
    requires k <= |devices|
    ensures w in UuidWarnings(devices, device, k) <==>
            w == ConflictingUuids && exists j :: 0 <= j < k && OneAddress(devices[j], device)
  {
    if k > 0 {
      UuidWarningsExact(devices, device, k - 1, w);
      Known(devices[k - 1].pci, device.pci);
    }
  }

  /**
    What an addition warns about: an ordinal out of range; a different UUID at the evidence's address, on a
    record before the one it joins; another address on the one it joins.
   */
  lemma AddWarningsExact(devices: seq<Device>, device: Device)
    ensures OrdinalOutOfRange in AddWarnings(devices, device) <==> device.id == U32_MAX
    ensures ConflictingUuids in AddWarnings(devices, device) <==>
            && device.id != U32_MAX
            && exists j :: 0 <= j < |devices| && OneAddress(devices[j], device)
                           && forall k | 0 <= k <= j :: !OneDevice(devices[k], device)
    ensures ConflictingPci in AddWarnings(devices, device) <==>
            && device.id != U32_MAX
            && exists i: nat :: FirstOf(devices, device, i) && devices[i].pci.Some? && device.pci.Some?
                                && devices[i].pci != device.pci
  {
    if device.id != U32_MAX {
      var i := FirstMatch(devices, device);
      FirstOfMatch(devices, device);
      UuidWarningsExact(devices, device, i, OrdinalOutOfRange);
      UuidWarningsExact(devices, device, i, ConflictingUuids);
      UuidWarningsExact(devices, device, i, ConflictingPci);
      forall k | 0 <= k < |devices|
        ensures SameDevice(devices[k], device) <==> OneDevice(devices[k], device)
      {
        SameDeviceExact(devices[k], device);
      }
    }
  }
}
