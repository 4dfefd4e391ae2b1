/**
  EDAC memory devices and the DIMM list: sorting, association by label and capacity, and the fallback
  inventory of apply_edac_inventory, src/parser/memory_edac.cpp.
 */
module Edac {
  import opened Options
  import opened ParseUtils
  import opened Counting
  import opened Sorting

  datatype DeviceKind = UnknownKind | Dimm | Rank

  datatype Device = Device(
    controller: u32, index: u32, kind: DeviceKind, slotLabel: string, size: Option<nat>, location: string,
    memoryType: string, edacMode: string, deviceWidth: string)

  datatype Association = UnknownAssociation | EdacInventory | LabelAndCapacity

  datatype DimmInfo = DimmInfo(
    locator: string, bankLocator: string, size: nat, present: bool, memoryType: string, edacMode: string,
    deviceWidth: string, controller: Option<nat>, edacIndex: Option<nat>, association: Association)

  /** The part of the memory model that apply_edac_inventory changes in place. */
  class Memory {
    var dimms: seq<DimmInfo>
    var edacDevices: seq<Device>
    var dimmInventorySource: string

    constructor (dimms: seq<DimmInfo>, source: string)
      ensures this.dimms == dimms && edacDevices == [] && dimmInventorySource == source
    {
      this.dimms, edacDevices, dimmInventorySource := dimms, [], source;
    }
  }

  // ----- Order of devices -----

  function KindCode(kind: DeviceKind): nat {
    match kind
    case UnknownKind => 0
    case Dimm => 1
    case Rank => 2
  }

  /** Controller, then kind, then index, as one number. */
  function DeviceKey(d: Device): nat {
    (d.controller * 3 + KindCode(d.kind)) * 0x1_0000_0000 + d.index
  }

  lemma DeviceKeyExact(a: Device, b: Device)
    ensures DeviceKey(a) < DeviceKey(b) <==>
            a.controller < b.controller
            || (a.controller == b.controller && a.kind == UnknownKind && b.kind != UnknownKind)
            || (a.controller == b.controller && a.kind == Dimm && b.kind == Rank)
            || (a.controller == b.controller && a.kind == b.kind && a.index < b.index)
  {
  }

  // ----- Association -----

  function MatchesDimm(d: Device): DimmInfo -> bool {
    (m: DimmInfo) => m.present && m.locator == d.slotLabel && d.size == Some(m.size)
  }

  function MatchesEdac(d: Device): Device -> bool {
    (other: Device) => other.kind == Dimm && other.slotLabel == d.slotLabel && other.size == d.size
  }

  predicate IsSizedDimm(d: Device) {
    d.kind == Dimm && d.size.Some?
  }

  /** The devices association considers: DIMM kind, a nonzero size and a label. */
  predicate Eligible(d: Device) {
    IsSizedDimm(d) && d.size.value != 0 && d.slotLabel != []
  }

  function Attached(m: DimmInfo, d: Device): DimmInfo {
    m.(edacMode := d.edacMode, deviceWidth := d.deviceWidth, controller := Some(d.controller),
       edacIndex := Some(d.index), association := LabelAndCapacity)
  }

  /** One device's turn: the only DIMM it matches takes its data, if no other device matches that way. */
  function AttachStep(dimms: seq<DimmInfo>, all: seq<Device>, d: Device): (result: seq<DimmInfo>)
    ensures |result| == |dimms|
  {
    var i := FirstIndex(dimms, MatchesDimm(d));
    if Eligible(d) && CountIf(dimms, MatchesDimm(d)) == 1 && CountIf(all, MatchesEdac(d)) == 1 && i < |dimms|
    then dimms[i := Attached(dimms[i], d)] else dimms
  }

  function Associated(turns: seq<Device>, all: seq<Device>, dimms: seq<DimmInfo>): (result: seq<DimmInfo>)
    ensures |result| == |dimms|
  {
    if turns == [] then dimms
    else AttachStep(Associated(turns[..|turns| - 1], all, dimms), all, turns[|turns| - 1])
  }

  /** d and the DIMM at i are each other's only match on label and capacity. */
  ghost predicate Attaches(all: seq<Device>, dimms: seq<DimmInfo>, d: Device, i: nat)
    requires i < |dimms|
  {
    && Eligible(d) && MatchesDimm(d)(dimms[i])
    && (forall j | 0 <= j < |dimms| && MatchesDimm(d)(dimms[j]) :: j == i)
    && (forall k, l | 0 <= k < |all| && 0 <= l < |all| && MatchesEdac(d)(all[k]) && MatchesEdac(d)(all[l]) :: k == l)
  }

  // ----- Fallback -----

  function InventoryDimm(d: Device): DimmInfo
    requires d.size.Some?
  {
    DimmInfo(d.slotLabel, d.location, d.size.value, d.size.value > 0, d.memoryType, d.edacMode, d.deviceWidth,
             Some(d.controller), Some(d.index), EdacInventory)
  }

  function InventoryDimms(devices: seq<Device>): seq<DimmInfo> {
    if devices == [] then [] else
    var d := devices[|devices| - 1];
    InventoryDimms(devices[..|devices| - 1]) + if IsSizedDimm(d) then [InventoryDimm(d)] else []
  }

  predicate ReportsType(d: Device) {
    IsSizedDimm(d) && d.size.value > 0 && d.memoryType != []
  }

  function JoinedType(before: string, t: string): string {
    if before == [] then t else if before == t then before else "mixed"
  }

  function FoldedType(before: string, devices: seq<Device>): string {
    if devices == [] then before else
    var d := devices[|devices| - 1];
    var t := FoldedType(before, devices[..|devices| - 1]);
    if ReportsType(d) then JoinedType(t, d.memoryType) else t
  }

  // ----- The loop -----

  method AttachDevice(memory: Memory, devices: seq<Device>, d: Device)
    modifies memory`dimms
    ensures memory.dimms == AttachStep(old(memory.dimms), devices, d)
  {
    if Eligible(d) {
      var dimmMatches := CountMatches(memory.dimms, MatchesDimm(d));
      var edacMatches := CountMatches(devices, MatchesEdac(d));
      if dimmMatches == 1 && edacMatches == 1 {
        var k := FindFirst(memory.dimms, MatchesDimm(d));
        CountIfNone(memory.dimms, MatchesDimm(d));
        memory.dimms := memory.dimms[k := Attached(memory.dimms[k], d)];
      }
    }
  }

  /**
    Without earlier DIMMs the sized devices become the inventory; with them, the devices only attach to
    them. The source is "edac" exactly when the first case found one.
   */
  method ApplyEdacInventory(memory: Memory, grouped: seq<Device>, memoryType: string) returns (newType: string)
    modifies memory
    ensures memory.edacDevices == SortedByKey(old(memory.edacDevices) + grouped, DeviceKey)
    ensures old(memory.dimms) == [] ==>
              && memory.dimms == InventoryDimms(memory.edacDevices)
              && newType == FoldedType(memoryType, memory.edacDevices)
              && memory.dimmInventorySource == if memory.dimms == [] then old(memory.dimmInventorySource) else "edac"
    ensures old(memory.dimms) != [] ==>
              && memory.dimms == Associated(memory.edacDevices, memory.edacDevices, old(memory.dimms))
              && newType == memoryType && memory.dimmInventorySource == old(memory.dimmInventorySource)
  {
    memory.edacDevices := SortedByKey(memory.edacDevices + grouped, DeviceKey);
    newType := memoryType;
    var devices := memory.edacDevices;
    var fallback := memory.dimms == [];
    for i := 0 to |devices|
      invariant memory.edacDevices == devices && memory.dimmInventorySource == old(memory.dimmInventorySource)
      invariant fallback ==>
                  memory.dimms == InventoryDimms(devices[..i]) && newType == FoldedType(memoryType, devices[..i])
      invariant !fallback ==>
                  memory.dimms == Associated(devices[..i], devices, old(memory.dimms)) && newType == memoryType
    {
      assert devices[..i + 1][..i] == devices[..i];
      var d := devices[i];
      if IsSizedDimm(d) && fallback {
        memory.dimms := memory.dimms + [InventoryDimm(d)];
        if d.size.value > 0 && d.memoryType != [] {
          newType := JoinedType(newType, d.memoryType);
        }
      } else if !fallback {
        AttachDevice(memory, devices, d);
      }
    }
    assert devices[..|devices|] == devices;
    if fallback && memory.dimms != [] {
      memory.dimmInventorySource := "edac";
    }
  }
}
