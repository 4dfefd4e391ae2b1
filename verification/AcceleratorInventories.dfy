/**
  Identity merging and ID allocation: same_device, fill_missing and AcceleratorInventory of
  src/parser/accelerator_inventory.cpp and .hpp.
 */
module AcceleratorInventories {
  import opened Options
  import opened ParseUtils
  import opened SortedSets
  import opened AcceleratorModel

  // ----- Identity -----

  predicate SameDevice(left: Device, right: Device) {
    if left.vendor != right.vendor || left.parentUuid != right.parentUuid then false
    else if left.uuid.Some? && right.uuid.Some? then left.uuid == right.uuid
    else if left.parentUuid.Some? then
      left.gpuInstance.Some? && right.gpuInstance.Some? && left.computeInstance.Some? && right.computeInstance.Some?
      && left.gpuInstance == right.gpuInstance && left.computeInstance == right.computeInstance
    else if left.pci.Some? && right.pci.Some? then left.pci == right.pci
    else left.id == right.id
  }

  function FillMissing<T>(target: Option<T>, source: Option<T>): Option<T> {
    if target.None? then source else target
  }

  /** Known facts stay; unknown ones are taken from the new evidence. */
  function Merged(existing: Device, device: Device): Device {
    existing.(uuid := FillMissing(existing.uuid, device.uuid),
              pci := FillMissing(existing.pci, device.pci),
              memory := FillMissing(existing.memory, device.memory),
              numa := FillMissing(existing.numa, device.numa),
              gpuInstance := FillMissing(existing.gpuInstance, device.gpuInstance),
              computeInstance := FillMissing(existing.computeInstance, device.computeInstance))
  }

  /** Index of the first stored device with the evidence's identity, or the number of devices. */
  function FirstMatch(devices: seq<Device>, device: Device): (i: nat)
    ensures i <= |devices|
    ensures forall j | 0 <= j < i :: !SameDevice(devices[j], device)
    ensures i < |devices| ==> SameDevice(devices[i], device)
  {
    if devices == [] || SameDevice(devices[0], device) then 0
    else 1 + FirstMatch(devices[1..], device)
  }

  // ----- ID allocation -----

  function UsedIds(devices: seq<Device>): set<nat> {
    set i | 0 <= i < |devices| :: devices[i].id
  }

  lemma {:induction false} UsedIdsBound(devices: seq<Device>)
    ensures |UsedIds(devices)| <= |devices|
  {
    if devices != [] {
      var n := |devices| - 1;
      UsedIdsBound(devices[..n]);
      assert UsedIds(devices) == UsedIds(devices[..n]) + {devices[n].id};
    }
  }

  ghost predicate UsedBelow(devices: seq<Device>, next: nat) {
    forall k | 0 <= k < next :: HasId(devices, k)
  }

  /** The counting search cannot pass the number of devices. */
  lemma UsedBelowBound(devices: seq<Device>, next: nat)
    requires UsedBelow(devices, next)
    ensures next <= |devices|
  {
    forall k | 0 <= k < next ensures k in UsedIds(devices) {
      assert HasId(devices, k);
    }
    HoldsInterval(UsedIds(devices), 0, next);
    UsedIdsBound(devices);
  }

  function UnusedFrom(devices: seq<Device>, next: nat): (id: nat)
    requires UsedBelow(devices, next)
    ensures !HasId(devices, id) && UsedBelow(devices, id) && id <= |devices|
    decreases |devices| + 1 - next
  {
    UsedBelowBound(devices, next);
    if HasId(devices, next) then
      UsedBelowBound(devices, next + 1);
      UnusedFrom(devices, next + 1)
    else next
  }

  function NextId(devices: seq<Device>): nat {
    UnusedFrom(devices, 0)
  }

  /** next_id returns the one number that is free while everything below it is taken. */
  lemma NextIdIsLeastUnused(devices: seq<Device>, id: nat)
    ensures id == NextId(devices) <==> !HasId(devices, id) && UsedBelow(devices, id)
    ensures NextId(devices) <= |devices|
  {
    if !HasId(devices, id) && UsedBelow(devices, id) {
      assert id <= NextId(devices);
    }
  }

  // ----- Adding evidence -----

  /** Moves every MIG instance off the ordinal a physical device claims, from index k on. */
  function Renumbered(devices: seq<Device>, id: nat, k: nat): (result: seq<Device>)
    requires k <= |devices|
    ensures |result| == |devices|
    decreases |devices| - k
  {
    if k == |devices| then devices
    else if devices[k].parentUuid.Some? && devices[k].id == id then
      Renumbered(devices[k := devices[k].(id := NextId(devices))], id, k + 1)
    else Renumbered(devices, id, k + 1)
  }

  /** The device list once an unmatched device has been stored. */
  function Appended(devices: seq<Device>, device: Device): seq<Device> {
    var stored := if device.Physical() then Renumbered(devices, device.id, 0) else devices;
    stored + [if !device.Physical() || HasId(stored, device.id) then device.(id := NextId(stored)) else device]
  }

  function Added(devices: seq<Device>, device: Device): seq<Device> {
    if device.id == U32_MAX then devices else
    var i := FirstMatch(devices, device);
    if i < |devices| then devices[i := Merged(devices[i], device)] else Appended(devices, device)
  }

  datatype Warning = OrdinalOutOfRange | ConflictingUuids | ConflictingPci

  predicate UuidConflict(existing: Device, device: Device) {
    && existing.Physical() && device.Physical() && existing.vendor == device.vendor
    && existing.uuid.Some? && device.uuid.Some? && existing.pci.Some? && existing.pci == device.pci
  }

  /** One warning for each of the first k devices that shares the address but not the identity. */
  function UuidWarnings(devices: seq<Device>, device: Device, k: nat): seq<Warning>
    requires k <= |devices|
  {
    if k == 0 then []
    else UuidWarnings(devices, device, k - 1) + if UuidConflict(devices[k - 1], device) then [ConflictingUuids] else []
  }

  function AddWarnings(devices: seq<Device>, device: Device): seq<Warning> {
    if device.id == U32_MAX then [OrdinalOutOfRange] else
    var i := FirstMatch(devices, device);
    UuidWarnings(devices, device, i) +
    if i < |devices| && devices[i].pci.Some? && device.pci.Some? && devices[i].pci != device.pci
    then [ConflictingPci] else []
  }

  class AcceleratorInventory {
    var devices: seq<Device>
    var warnings: seq<Warning>

    constructor ()
      ensures devices == [] && warnings == []
    {
      devices, warnings := [], [];
    }

    /** The counting loop of next_id. */
    method AllocateId() returns (next: nat)
      ensures next == NextId(devices)
    {
      next := 0;
      while HasId(devices, next)
        invariant UsedBelow(devices, next) && next <= NextId(devices)
        decreases NextId(devices) - next
      {
        next := next + 1;
      }
      NextIdIsLeastUnused(devices, next);
    }

    method RenumberChildren(id: nat)
      modifies this`devices
      ensures devices == Renumbered(old(devices), id, 0)
    {
      var k := 0;
      while k < |devices|
        invariant 0 <= k <= |devices|
        invariant Renumbered(devices, id, k) == Renumbered(old(devices), id, 0)
      {
        if devices[k].parentUuid.Some? && devices[k].id == id {
          var next := AllocateId();
          devices := devices[k := devices[k].(id := next)];
        }
        k := k + 1;
      }
    }

    method Add(device: Device)
      modifies this
      ensures devices == Added(old(devices), device)
      ensures warnings == old(warnings) + AddWarnings(old(devices), device)
    {
      if device.id == U32_MAX {
        warnings := warnings + [OrdinalOutOfRange];
        return;
      }
      var k := 0;
      while k < |devices|
        invariant 0 <= k <= |devices| && devices == old(devices)
        invariant k <= FirstMatch(devices, device)
        invariant warnings == old(warnings) + UuidWarnings(devices, device, k)
      {
        var existing := devices[k];
        if SameDevice(existing, device) {
          if existing.pci.Some? && device.pci.Some? && existing.pci != device.pci {
            warnings := warnings + [ConflictingPci];
          }
          devices := devices[k := Merged(existing, device)];
          return;
        }
        if UuidConflict(existing, device) {
          warnings := warnings + [ConflictingUuids];
        }
        k := k + 1;
      }
      var stored := device;
      if device.Physical() {
        RenumberChildren(device.id);
      }
      if !device.Physical() || HasId(devices, device.id) {
        var next := AllocateId();
        stored := device.(id := next);
      }
      devices := devices + [stored];
    }
  }
}
