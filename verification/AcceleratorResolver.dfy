/**
  The resolver itself: apply_selection and resolve_accelerator_visibility of
  src/resolver/accelerator_visibility.cpp, updating the devices in place, and
  cross_check_accelerator_visibility of src/resolver/resolve.cpp.
 */
module AcceleratorResolver {
  import opened Options
  import opened SortedSets
  import opened AcceleratorModel
  import opened CsvSelection
  import opened EnvironmentSelection
  import opened AcceleratorVisibility

  /** The part of the execution context the resolver reads and writes. */
  class ExecutionContext {
    const entries: Entries
    var visibleAcceleratorIds: seq<nat>
    var acceleratorVisibilityRestricted: bool

    constructor (entries: Entries, visibleIds: seq<nat>)
      ensures this.entries == entries && visibleAcceleratorIds == visibleIds && !acceleratorVisibilityRestricted
    {
      this.entries, visibleAcceleratorIds, acceleratorVisibilityRestricted := entries, visibleIds, false;
    }
  }

  lemma FlagOnly(a: seq<Device>, b: seq<Device>, i: nat, visible: bool)
    requires SameFacts(a, b) && i < |a|
    ensures SameFacts(a, b[i := b[i].(visible := visible)])
  {
    var c := b[i := b[i].(visible := visible)];
    forall j | 0 <= j < |a| ensures SameFact(a[j], c[j]) {
      assert SameFact(a[j], b[j]);
    }
  }

  /** apply_selection: every candidate's flag is decided by the selection, no other device is touched. */
  method ApplySelection(devices: array<Device>, candidates: seq<nat>, selected: seq<nat>)
    requires InRange(candidates, devices[..])
    modifies devices
    ensures SameFacts(old(devices[..]), devices[..])
    ensures forall i: nat | i < devices.Length ::
              devices[i].visible == if i in candidates then VisibleUnder(old(devices[..]), selected, i)
                                    else old(devices[i].visible)
  {
    ghost var before := devices[..];
    for k := 0 to |candidates|
      invariant SameFacts(before, devices[..])
      invariant forall i: nat | i < devices.Length ::
                  devices[i].visible == if i in candidates[..k] then VisibleUnder(before, selected, i)
                                        else before[i].visible
    {
      var index := candidates[k];
      var visible := VisibleUnder(devices[..], selected, index);
      VisibleUnderIgnoresFlags(before, devices[..], selected, index);
      FlagOnly(before, devices[..], index, visible);
      assert candidates[..k + 1] == candidates[..k] + [index];
      ghost var next := devices[..][index := devices[index].(visible := visible)];
      devices[index] := devices[index].(visible := visible);
      assert devices[..] == next;
    }
    assert candidates[..|candidates|] == candidates;
  }

  /** One vendor of the resolver loop. */
  method ResolveVendor(devices: array<Device>, vendor: Vendor, env: Environment, runtime: seq<RuntimeVisibility>)
    modifies devices
    ensures SameFacts(old(devices[..]), devices[..])
    ensures var effective := Effective(old(devices[..]), vendor, env, runtime);
      forall i: nat | i < devices.Length ::
        devices[i].visible == if OfVendor(old(devices[i]), vendor) && effective.Some?
                              then VisibleUnder(old(devices[..]), effective.value, i) else old(devices[i].visible)
  {
    var candidates := Candidates(devices[..], vendor);
    var observed := Observed(devices[..], vendor, runtime);
    var selection := SelectEnvironment(devices[..], vendor, observed.GetOr(candidates), env, observed.Some?);
    if selection.Some? {
      ApplySelection(devices, candidates, selection.value);
    } else if observed.Some? {
      ApplySelection(devices, candidates, observed.value);
    }
  }

  /** The flag after the vendors of `done` have been resolved. */
  predicate FlagAfter(devices: seq<Device>, env: Environment, legacyIds: seq<nat>, runtime: seq<RuntimeVisibility>,
                      done: set<Vendor>, i: nat)
    requires i < |devices|
  {
    if devices[i].vendor in done then FinallyVisible(devices, env, legacyIds, runtime, i)
    else InitiallyVisible(devices, env.HasSelection(), legacyIds, i)
  }

  lemma FlagAfterVendor(before: seq<Device>, now: seq<Device>, env: Environment, legacyIds: seq<nat>,
                        runtime: seq<RuntimeVisibility>, done: set<Vendor>, vendor: Vendor, i: nat, flag: bool)
    requires SameFacts(before, now) && i < |before| && vendor !in done && !vendor.OtherVendor?
    requires now[i].visible == FlagAfter(before, env, legacyIds, runtime, done, i)
    requires var effective := Effective(now, vendor, env, runtime);
      flag == if OfVendor(now[i], vendor) && effective.Some?
              then VisibleUnder(now, effective.value, i) else now[i].visible
    ensures flag == FlagAfter(before, env, legacyIds, runtime, done + {vendor}, i)
  {
    EffectiveIgnoresFlags(before, now, vendor, env, runtime);
    assert SameFact(before[i], now[i]);
    var effective := Effective(before, vendor, env, runtime);
    if effective.Some? {
      VisibleUnderIgnoresFlags(before, now, effective.value, i);
    }
  }

  method SetInitialFlags(devices: array<Device>, hasEnvironment: bool, legacyIds: seq<nat>)
    modifies devices
    ensures SameFacts(old(devices[..]), devices[..])
    ensures forall i: nat | i < devices.Length ::
              devices[i].visible == InitiallyVisible(old(devices[..]), hasEnvironment, legacyIds, i)
  {
    ghost var before := devices[..];
    for k := 0 to devices.Length
      invariant SameFacts(before, devices[..])
      invariant forall i: nat | i < k ::
                  devices[i].visible == InitiallyVisible(before, hasEnvironment, legacyIds, i)
    {
      HasChildrenIgnoresFlags(before, devices[..], k);
      assert SameFact(before[k], devices[k]);
      var visible := InitiallyVisible(devices[..], hasEnvironment, legacyIds, k);
      FlagOnly(before, devices[..], k, visible);
      ghost var next := devices[..][k := devices[k].(visible := visible)];
      devices[k] := devices[k].(visible := visible);
      assert devices[..] == next;
    }
  }

  method CollectVisible(devices: array<Device>) returns (ids: seq<nat>)
    ensures ids == VisibleIds(devices[..])
  {
    ids := [];
    for k := 0 to devices.Length
      invariant ids == VisibleIds(devices[..k])
    {
      assert devices[..k + 1][..k] == devices[..k];
      if devices[k].visible {
        ids := ids + [devices[k].id];
      }
    }
    assert devices[..devices.Length] == devices[..];
  }

  lemma SameFactsTransitive(a: seq<Device>, b: seq<Device>, c: seq<Device>)
    requires SameFacts(a, b) && SameFacts(b, c)
    ensures SameFacts(a, c)
  {
    forall i | 0 <= i < |a| ensures SameFact(a[i], c[i]) {
      assert SameFact(a[i], b[i]) && SameFact(b[i], c[i]);
    }
  }

  /** Resolves one vendor and keeps the flags of every other device as the order of vendors left them. */
  method ResolveNext(devices: array<Device>, vendor: Vendor, env: Environment, runtime: seq<RuntimeVisibility>,
                     ghost before: seq<Device>, ghost legacyIds: seq<nat>, ghost done: set<Vendor>)
    requires SameFacts(before, devices[..]) && vendor !in done && !vendor.OtherVendor?
    requires forall i: nat | i < devices.Length ::
               devices[i].visible == FlagAfter(before, env, legacyIds, runtime, done, i)
    modifies devices
    ensures SameFacts(before, devices[..])
    ensures forall i: nat | i < devices.Length ::
              devices[i].visible == FlagAfter(before, env, legacyIds, runtime, done + {vendor}, i)
  {
    ghost var now := devices[..];
    ResolveVendor(devices, vendor, env, runtime);
    SameFactsTransitive(before, now, devices[..]);
    forall i: nat | i < devices.Length
      ensures devices[i].visible == FlagAfter(before, env, legacyIds, runtime, done + {vendor}, i)
    {
      FlagAfterVendor(before, now, env, legacyIds, runtime, done, vendor, i, devices[i].visible);
    }
  }

  /** The IDs that no device carries. */
  function Phantoms(devices: seq<Device>, ids: seq<nat>): (phantoms: seq<nat>)
    ensures forall id :: id in phantoms <==> id in ids && !HasId(devices, id)
  {
    if ids == [] then [] else
    var n := |ids| - 1;
    assert ids == ids[..n] + [ids[n]];
    Phantoms(devices, ids[..n]) + if HasId(devices, ids[n]) then [] else [ids[n]]
  }

  method FindPhantoms(devices: seq<Device>, ids: seq<nat>) returns (phantoms: seq<nat>)
    ensures phantoms == Phantoms(devices, ids)
  {
    phantoms := [];
    for i := 0 to |ids|
      invariant phantoms == Phantoms(devices, ids[..i])
    {
      assert ids[..i + 1][..i] == ids[..i];
      if !HasId(devices, ids[i]) {
        phantoms := phantoms + [ids[i]];
      }
    }
    assert ids[..|ids|] == ids;
  }

  /**
    resolve_accelerator_visibility: flags and ID index after the initial rule and the three vendors, and
    the recorded IDs warned about, which are looked at only without a selection variable.
   */
  method Resolve(devices: array<Device>, execution: ExecutionContext, runtime: seq<RuntimeVisibility>)
    returns (phantoms: seq<nat>)
    modifies devices, execution
    ensures SameFacts(old(devices[..]), devices[..])
    ensures var env := ReadEnvironment(execution.entries);
      forall i: nat | i < devices.Length ::
        devices[i].visible == FinallyVisible(old(devices[..]), env, old(execution.visibleAcceleratorIds), runtime, i)
    ensures execution.visibleAcceleratorIds == VisibleIds(devices[..])
    ensures execution.acceleratorVisibilityRestricted <==>
            NamesSelection(execution.entries) || old(execution.visibleAcceleratorIds) != []
    ensures phantoms == if NamesSelection(execution.entries) then []
                        else Phantoms(old(devices[..]), old(execution.visibleAcceleratorIds))
  {
    var legacyIds := execution.visibleAcceleratorIds;
    var env := ReadEnvironment(execution.entries);
    ghost var before := devices[..];
    SelectionNamed(execution.entries);
    phantoms := [];
    if !env.HasSelection() {
      phantoms := FindPhantoms(devices[..], legacyIds);
    }
    SetInitialFlags(devices, env.HasSelection(), legacyIds);
    execution.acceleratorVisibilityRestricted := env.HasSelection() || legacyIds != [];
    ResolveNext(devices, Nvidia, env, runtime, before, legacyIds, {});
    ResolveNext(devices, Amd, env, runtime, before, legacyIds, {Nvidia});
    ResolveNext(devices, Intel, env, runtime, before, legacyIds, {Nvidia} + {Amd});
    forall i: nat | i < devices.Length
      ensures devices[i].visible == FinallyVisible(before, env, legacyIds, runtime, i)
    {
      assert FlagAfter(before, env, legacyIds, runtime, {Nvidia} + {Amd} + {Intel}, i)
          == FinallyVisible(before, env, legacyIds, runtime, i);
    }
    var ids := CollectVisible(devices);
    execution.visibleAcceleratorIds := ids;
  }

  // ----- The cross check -----

  /** Reported IDs that no device carries, and whether the restriction hint is given. */
  method CrossCheck(devices: seq<Device>, visibleIds: seq<nat>) returns (phantoms: seq<nat>, hint: bool)
    ensures phantoms == Phantoms(devices, visibleIds)
    ensures hint <==> 0 < |visibleIds| < |devices|
  {
    if visibleIds == [] {
      return [], false;
    }
    phantoms := FindPhantoms(devices, visibleIds);
    hint := |visibleIds| < |devices|;
  }

  // ----- Consequences -----

  ghost predicate SomeVisible(devices: seq<Device>, id: nat) {
    exists i :: 0 <= i < |devices| && devices[i].visible && devices[i].id == id
  }

  /** The index lists exactly the visible devices' IDs, once each when IDs are distinct, in device order. */
  lemma {:induction false} VisibleIdsExact(devices: seq<Device>, id: nat)
    ensures id in VisibleIds(devices) <==> SomeVisible(devices, id)
    ensures DistinctIds(devices) ==> NoDuplicates(VisibleIds(devices))
  {
    if devices != [] {
      var n := |devices| - 1;
      var front := devices[..n];
      VisibleIdsExact(front, id);
      VisibleIdsExact(front, devices[n].id);
      assert forall i | 0 <= i < n :: front[i] == devices[i];
      assert devices[n].visible && devices[n].id == id ==> SomeVisible(devices, id);
    }
  }

  lemma ListedExists(devices: seq<Device>, id: nat)
    requires id in VisibleIds(devices)
    ensures HasId(devices, id)
  {
    VisibleIdsExact(devices, id);
  }

  lemma {:induction false} NoneMissing(devices: seq<Device>, ids: seq<nat>)
    requires forall id | id in ids :: HasId(devices, id)
    ensures Phantoms(devices, ids) == []
  {
    if ids != [] {
      NoneMissing(devices, ids[..|ids| - 1]);
      assert ids[|ids| - 1] in ids;
    }
  }

  /** After resolving, the cross check finds no phantom ID. */
  lemma NoPhantoms(devices: seq<Device>)
    ensures Phantoms(devices, VisibleIds(devices)) == []
  {
    forall id | id in VisibleIds(devices)
      ensures HasId(devices, id)
    {
      ListedExists(devices, id);
    }
    NoneMissing(devices, VisibleIds(devices));
  }

  lemma {:induction false} ObservedPresence(devices: seq<Device>, vendor: Vendor, runtime: seq<RuntimeVisibility>)
    ensures Observed(devices, vendor, runtime).Some? <==> exists k :: 0 <= k < |runtime| && runtime[k].vendor == vendor
  {
    if runtime != [] {
      ObservedPresence(devices, vendor, runtime[1..]);
      assert forall k | 1 <= k < |runtime| :: runtime[k] == runtime[1..][k - 1];
    }
  }

  lemma {:induction false} FirstObserved(devices: seq<Device>, vendor: Vendor, runtime: seq<RuntimeVisibility>, k: nat)
    requires k < |runtime| && runtime[k].vendor == vendor && forall j | 0 <= j < k :: runtime[j].vendor != vendor
    ensures Observed(devices, vendor, runtime) == Some(EnumeratedIndices(devices, runtime[k].visible))
  {
    if k > 0 {
      FirstObserved(devices, vendor, runtime[1..], k - 1);
    }
  }

  /** No stored device carries the device's UUID as its parent's. */
  ghost predicate Unpartitioned(devices: seq<Device>, i: nat)
    requires i < |devices|
  {
    devices[i].uuid.None? || forall j | 0 <= j < |devices| :: devices[j].parentUuid != devices[i].uuid
  }

  /** A GPU that is split into instances is never visible itself. */
  lemma PartitionedHidden(devices: seq<Device>, env: Environment, legacyIds: seq<nat>, runtime: seq<RuntimeVisibility>,
                          i: nat, j: nat, uuid: string)
    requires i < |devices| && j < |devices| && devices[i].uuid == Some(uuid) && devices[j].parentUuid == Some(uuid)
    ensures !FinallyVisible(devices, env, legacyIds, runtime, i)
  {
    assert devices[j].parentUuid == devices[i].uuid;
  }

  /** A flag under a selection, device by device: never a parent of instances, chosen itself or through its parent. */
  lemma SelectedOrParent(devices: seq<Device>, selected: seq<nat>, i: nat)
    requires i < |devices| && InRange(selected, devices)
    ensures VisibleUnder(devices, selected, i) <==>
            && Unpartitioned(devices, i)
            && (i in selected || (devices[i].parentUuid.Some?
                && exists x: nat :: x in selected && devices[x].uuid == devices[i].parentUuid))
  {
    assert forall k | 0 <= k < |selected| :: selected[k] in selected;
    if x: nat :| x in selected && devices[x].uuid == devices[i].parentUuid {
      var k :| 0 <= k < |selected| && selected[k] == x;
    }
  }

  /**
    Where no selection is in force for a device, a variable of another vendor lets it stay, whatever IDs
    were recorded; without any variable the recorded IDs decide.
   */
  lemma InitialFlag(devices: seq<Device>, env: Environment, legacyIds: seq<nat>, runtime: seq<RuntimeVisibility>,
                    i: nat)
    requires i < |devices|
    requires devices[i].vendor.OtherVendor? || Effective(devices, devices[i].vendor, env, runtime) == None
    ensures FinallyVisible(devices, env, legacyIds, runtime, i) <==>
            Unpartitioned(devices, i) && (env.HasSelection() || legacyIds == [] || devices[i].id in legacyIds)
  {
  }

  /**
    The first complete enumeration of NVIDIA or AMD decides alone, whatever the environment and the
    recorded IDs: a device without instances is visible exactly when its ID, or its parent's, is listed.
   */
  lemma RuntimeDecides(devices: seq<Device>, env: Environment, legacyIds: seq<nat>, runtime: seq<RuntimeVisibility>,
                       k: nat, i: nat)
    requires i < |devices| && (devices[i].vendor == Nvidia || devices[i].vendor == Amd)
    requires k < |runtime| && runtime[k].vendor == devices[i].vendor
    requires forall j | 0 <= j < k :: runtime[j].vendor != devices[i].vendor
    ensures var visible := runtime[k].visible;
      FinallyVisible(devices, env, legacyIds, runtime, i) <==>
        && Unpartitioned(devices, i)
        && (devices[i].id in visible || (devices[i].parentUuid.Some?
            && exists x: nat :: x < |devices| && devices[x].id in visible && devices[x].uuid == devices[i].parentUuid))
  {
    FirstObserved(devices, devices[i].vendor, runtime, k);
    SelectedOrParent(devices, EnumeratedIndices(devices, runtime[k].visible), i);
  }

  /** A vendor's device can only be selected from its vendor's candidates, or through a selected parent. */
  lemma EffectiveWithinVendor(devices: seq<Device>, vendor: Vendor, env: Environment,
                             runtime: seq<RuntimeVisibility>, x: nat)
    requires Effective(devices, vendor, env, runtime).Some? && x in Effective(devices, vendor, env, runtime).value
    requires Observed(devices, vendor, runtime).Some? ==>
             forall y | y in Observed(devices, vendor, runtime).value :: OfVendor(devices[y], vendor)
    ensures x < |devices| && OfVendor(devices[x], vendor)
  {
    var observed := Observed(devices, vendor, runtime);
    var pool := observed.GetOr(Candidates(devices, vendor));
    if Selection(devices, vendor, pool, env, observed.Some?).Some? {
      SelectionWithin(devices, vendor, pool, env, observed.Some?);
      assert x in pool;
    }
  }
}
