/**
  From the texts of the selection variables to the flags of the devices: what
  resolve_accelerator_visibility of src/resolver/accelerator_visibility.cpp makes of each kind of selector.
 */
module SelectorFlags {
  import opened Options
  import opened ParseUtils
  import opened AcceleratorModel
  import opened CsvSelection
  import opened SyclSelection
  import opened EnvironmentSelection
  import opened SelectorTokens
  import opened AcceleratorVisibility
  import opened AcceleratorResolver

  /** A device without instances that is chosen itself or through its MIG parent. */
  ghost predicate Shown(devices: seq<Device>, chosen: iset<nat>, i: nat)
    requires i < |devices|
  {
    && Unpartitioned(devices, i)
    && (i in chosen || (devices[i].parentUuid.Some?
        && exists x: nat :: x < |devices| && x in chosen && devices[x].uuid == devices[i].parentUuid))
  }

  ghost predicate Chooses(selection: seq<nat>, chosen: iset<nat>) {
    forall x: nat :: x in selection <==> x in chosen
  }

  lemma SelectionShows(devices: seq<Device>, env: Environment, legacyIds: seq<nat>, runtime: seq<RuntimeVisibility>,
                       selection: seq<nat>, chosen: iset<nat>, i: nat)
    requires i < |devices| && !devices[i].vendor.OtherVendor?
    requires Effective(devices, devices[i].vendor, env, runtime) == Some(selection)
    requires InRange(selection, devices) && Chooses(selection, chosen)
    ensures FinallyVisible(devices, env, legacyIds, runtime, i) <==> Shown(devices, chosen, i)
  {
    SelectedOrParent(devices, selection, i);
  }

  /** No complete enumeration of the vendor. */
  ghost predicate NoRuntime(runtime: seq<RuntimeVisibility>, vendor: Vendor) {
    forall k | 0 <= k < |runtime| :: runtime[k].vendor != vendor
  }

  /** Without a runtime the environment's selection from the vendor's candidates decides. */
  lemma EnvironmentShows(devices: seq<Device>, env: Environment, legacyIds: seq<nat>, runtime: seq<RuntimeVisibility>,
                         selection: seq<nat>, chosen: iset<nat>, i: nat)
    requires i < |devices| && !devices[i].vendor.OtherVendor? && NoRuntime(runtime, devices[i].vendor)
    requires var vendor := devices[i].vendor;
      Selection(devices, vendor, Candidates(devices, vendor), env, false) == Some(selection)
    requires Chooses(selection, chosen)
    ensures FinallyVisible(devices, env, legacyIds, runtime, i) <==> Shown(devices, chosen, i)
  {
    var vendor := devices[i].vendor;
    ObservedPresence(devices, vendor, runtime);
    SelectionWithin(devices, vendor, Candidates(devices, vendor), env, false);
    SelectionShows(devices, env, legacyIds, runtime, selection, chosen, i);
  }

  // ----- No selection in force -----

  /** No variable and no enumeration selects devices of the vendor. */
  ghost predicate Unselected(entries: Entries, runtime: seq<RuntimeVisibility>, vendor: Vendor) {
    match vendor
    case Nvidia => NoRuntime(runtime, vendor) && Carries(entries, "CUDA_VISIBLE_DEVICES", None)
    case Amd =>
      && NoRuntime(runtime, vendor)
      && Carries(entries, "ROCR_VISIBLE_DEVICES", None) && Carries(entries, "HIP_VISIBLE_DEVICES", None)
    case Intel =>
      && NoRuntime(runtime, vendor) && Carries(entries, "ONEAPI_DEVICE_SELECTOR", None)
      && (Carries(entries, "ZE_AFFINITY_MASK", None)
          || exists mask :: Carries(entries, "ZE_AFFINITY_MASK", Some(mask)) && '.' in mask)
    case OtherVendor(_) => true
  }

  /**
    A device of an unselected vendor is visible if it has no instances and some selection variable of
    another vendor is set, whatever IDs were recorded, or without one, if its ID or no ID was recorded.
   */
  lemma UnselectedDecides(devices: seq<Device>, entries: Entries, legacyIds: seq<nat>, runtime: seq<RuntimeVisibility>,
                          i: nat)
    requires i < |devices| && Unselected(entries, runtime, devices[i].vendor)
    ensures FinallyVisible(devices, ReadEnvironment(entries), legacyIds, runtime, i) <==>
            Unpartitioned(devices, i) && (NamesSelection(entries) || legacyIds == [] || devices[i].id in legacyIds)
  {
    var vendor, env := devices[i].vendor, ReadEnvironment(entries);
    SelectionNamed(entries);
    if vendor == Nvidia {
      CudaVariable(entries, None);
    } else if vendor == Amd {
      RocrVariable(entries, None);
      HipVariable(entries, None);
    } else if vendor == Intel {
      SyclVariable(entries, None);
      if mask :| Carries(entries, "ZE_AFFINITY_MASK", Some(mask)) && '.' in mask {
        MaskVariable(entries, Some(mask));
      } else {
        MaskVariable(entries, None);
      }
    }
    if !vendor.OtherVendor? {
      ObservedPresence(devices, vendor, runtime);
    }
    InitialFlag(devices, env, legacyIds, runtime, i);
  }

  // ----- CUDA -----

  ghost function NamedByText(p: Pools, value: string): iset<nat> {
    iset x: nat | TextNames(p, value, x)
  }

  lemma TextNamesSelected(p: Pools, value: string)
    ensures Chooses(Selected(p, value), NamedByText(p, value))
  {
    TextExact(p, value);
  }

  ghost predicate PciOrder(entries: Entries) {
    Carries(entries, "CUDA_DEVICE_ORDER", Some("PCI_BUS_ID"))
  }

  /** Any text of CUDA_VISIBLE_DEVICES, in either device order: tokens decide until one ends the list. */
  lemma CudaTextDecides(devices: seq<Device>, entries: Entries, legacyIds: seq<nat>, runtime: seq<RuntimeVisibility>,
                        value: string, i: nat)
    requires i < |devices| && devices[i].vendor == Nvidia && NoRuntime(runtime, Nvidia)
    requires Carries(entries, "CUDA_VISIBLE_DEVICES", Some(value))
    ensures var candidates := Candidates(devices, Nvidia);
      var p := Pools(devices, CudaOrdinals(devices, candidates, PciOrder(entries)), candidates,
                     if PciOrder(entries) then Candidate else PhysicalId);
      FinallyVisible(devices, ReadEnvironment(entries), legacyIds, runtime, i) <==>
      Shown(devices, NamedByText(p, value), i)
  {
    var env, candidates := ReadEnvironment(entries), Candidates(devices, Nvidia);
    OrderVariable(entries);
    CudaVariable(entries, Some(value));
    var p := CudaPools(devices, candidates, env.pciOrder);
    TextNamesSelected(p, value);
    EnvironmentShows(devices, env, legacyIds, runtime, Selected(p, value), NamedByText(p, value), i);
  }

  ghost predicate NvidiaCarries(devices: seq<Device>, id: nat) {
    exists y :: 0 <= y < |devices| && devices[y].vendor == Nvidia && devices[y].Physical() && devices[y].id == id
  }

  /** The device is a physical NVIDIA one whose ID is listed, behind IDs of such devices only. */
  ghost predicate CudaLists(devices: seq<Device>, ordinals: seq<nat>, x: nat) {
    && x < |devices| && devices[x].vendor == Nvidia && devices[x].Physical()
    && exists i :: 0 <= i < |ordinals| && devices[x].id == ordinals[i]
                   && forall j | 0 <= j < i :: NvidiaCarries(devices, ordinals[j])
  }

  ghost function CudaListed(devices: seq<Device>, ordinals: seq<nat>): iset<nat> {
    iset x: nat | CudaLists(devices, ordinals, x)
  }

  lemma CudaListsNamed(devices: seq<Device>, ordinals: seq<nat>, x: nat)
    ensures NamedByOrdinal(devices, Candidates(devices, Nvidia), ordinals, x) <==> CudaLists(devices, ordinals, x)
  {
    var candidates := Candidates(devices, Nvidia);
    forall id: nat
      ensures PhysicalCarries(devices, candidates, id) <==> NvidiaCarries(devices, id)
    {
      if PhysicalCarries(devices, candidates, id) {
        var y :| y in candidates && devices[y].Physical() && devices[y].id == id;
        assert devices[y].vendor == Nvidia;
      }
      if NvidiaCarries(devices, id) {
        var y :| 0 <= y < |devices| && devices[y].vendor == Nvidia && devices[y].Physical() && devices[y].id == id;
        assert y in candidates;
      }
    }
  }

  lemma CudaListChosen(devices: seq<Device>, env: Environment, ordinals: seq<nat>)
    requires forall d | d in devices :: d.id <= U32_MAX
    requires !env.pciOrder && ordinals != [] && env.cuda == Some(OrdinalList(ordinals))
    ensures var selection := Selection(devices, Nvidia, Candidates(devices, Nvidia), env, false);
      selection.Some? && Chooses(selection.value, CudaListed(devices, ordinals))
  {
    var candidates := Candidates(devices, Nvidia);
    var selection := Selection(devices, Nvidia, candidates, env, false).value;
    forall x: nat
      ensures x in selection <==> CudaLists(devices, ordinals, x)
    {
      CudaOrdinalsAreIds(devices, candidates, env, ordinals, x);
      CudaListsNamed(devices, ordinals, x);
    }
  }

  /** An ordinal list in the default order names devices by their IDs, up to the first unknown one. */
  lemma CudaListDecides(devices: seq<Device>, entries: Entries, legacyIds: seq<nat>, runtime: seq<RuntimeVisibility>,
                        ordinals: seq<nat>, i: nat)
    requires i < |devices| && devices[i].vendor == Nvidia && NoRuntime(runtime, Nvidia)
    requires forall d | d in devices :: d.id <= U32_MAX
    requires ordinals != [] && Carries(entries, "CUDA_VISIBLE_DEVICES", Some(OrdinalList(ordinals)))
    requires !PciOrder(entries)
    ensures FinallyVisible(devices, ReadEnvironment(entries), legacyIds, runtime, i) <==>
            Shown(devices, CudaListed(devices, ordinals), i)
  {
    var candidates, env := Candidates(devices, Nvidia), ReadEnvironment(entries);
    OrderVariable(entries);
    CudaVariable(entries, Some(OrdinalList(ordinals)));
    CudaListChosen(devices, env, ordinals);
    var selection := Selection(devices, Nvidia, candidates, env, false).value;
    EnvironmentShows(devices, env, legacyIds, runtime, selection, CudaListed(devices, ordinals), i);
  }

  /** The devices at the listed positions, up to the first position outside. */
  ghost function AtPositions(pool: seq<nat>, ordinals: seq<nat>): iset<nat> {
    iset x | x in Picked(pool, ordinals)
  }

  /** In PCI order it names them by position among the physical devices sorted by address. */
  lemma CudaPciListDecides(devices: seq<Device>, entries: Entries, legacyIds: seq<nat>,
                           runtime: seq<RuntimeVisibility>, ordinals: seq<nat>, i: nat)
    requires i < |devices| && devices[i].vendor == Nvidia && NoRuntime(runtime, Nvidia)
    requires |Candidates(devices, Nvidia)| <= U64_MAX
    requires ordinals != [] && Carries(entries, "CUDA_VISIBLE_DEVICES", Some(OrdinalList(ordinals)))
    requires PciOrder(entries)
    ensures var order := CudaOrdinals(devices, Candidates(devices, Nvidia), true);
      FinallyVisible(devices, ReadEnvironment(entries), legacyIds, runtime, i) <==>
      Shown(devices, AtPositions(order, ordinals), i)
  {
    var candidates, env := Candidates(devices, Nvidia), ReadEnvironment(entries);
    OrderVariable(entries);
    CudaVariable(entries, Some(OrdinalList(ordinals)));
    var order := CudaOrdinals(devices, candidates, true);
    CudaOrdinalsFollowPci(devices, candidates, env, ordinals);
    EnvironmentShows(devices, env, legacyIds, runtime, AppendUnique([], Picked(order, ordinals)),
                     AtPositions(order, ordinals), i);
  }

  /** The device is the only one of the vendor that the token names. */
  ghost predicate SoleNamed(devices: seq<Device>, vendor: Vendor, token: string, x: nat) {
    && x < |devices| && devices[x].vendor == vendor && NamedBy(devices[x], token)
    && forall y | 0 <= y < |devices| && devices[y].vendor == vendor && NamedBy(devices[y], token) :: y == x
  }

  ghost function SoleDevice(devices: seq<Device>, vendor: Vendor, token: string): iset<nat> {
    iset x: nat | SoleNamed(devices, vendor, token, x)
  }

  lemma SoleIsOnly(devices: seq<Device>, vendor: Vendor, token: string, k: nat)
    requires k < |Candidates(devices, vendor)|
    ensures var candidates := Candidates(devices, vendor);
      OnlyNamed(devices, candidates, token, k) <==> SoleNamed(devices, vendor, token, candidates[k])
  {
    var candidates := Candidates(devices, vendor);
    assert candidates[k] in candidates;
    if OnlyNamed(devices, candidates, token, k) {
      forall y: nat | y < |devices| && devices[y].vendor == vendor && NamedBy(devices[y], token)
        ensures y == candidates[k]
      {
        assert y in candidates;
      }
    }
    if SoleNamed(devices, vendor, token, candidates[k]) {
      forall j | 0 <= j < |candidates| && NamedBy(devices[candidates[j]], token)
        ensures j == k
      {
        assert candidates[j] in candidates;
      }
    }
  }

  lemma SoleNames(p: Pools, vendor: Vendor, token: string, x: nat)
    requires p.uuids == Candidates(p.devices, vendor) && IsUuidText(token)
    ensures Names(p, token, x) <==> SoleNamed(p.devices, vendor, token, x)
  {
    UuidOutcome(p, token);
    if Names(p, token, x) {
      var k: nat :| OnlyNamed(p.devices, p.uuids, token, k) && p.uuids[k] == x;
      SoleIsOnly(p.devices, vendor, token, k);
    }
    if SoleNamed(p.devices, vendor, token, x) {
      assert x in p.uuids;
      var k: nat :| k < |p.uuids| && p.uuids[k] == x;
      SoleIsOnly(p.devices, vendor, token, k);
    }
  }

  lemma OneUuidSelected(p: Pools, value: string, vendor: Vendor)
    requires p.uuids == Candidates(p.devices, vendor) && ',' !in value && IsUuidText(Trimmed(value))
    ensures Chooses(Selected(p, value), SoleDevice(p.devices, vendor, Trimmed(value)))
  {
    TextExact(p, value);
    forall x: nat
      ensures TextNames(p, value, x) <==> SoleNamed(p.devices, vendor, Trimmed(value), x)
    {
      OneTokenNames(p, value, x);
      SoleNames(p, vendor, Trimmed(value), x);
    }
  }

  /** One UUID, a beginning of one or an old MIG name: the one device it names, or none. */
  lemma CudaUuidDecides(devices: seq<Device>, entries: Entries, legacyIds: seq<nat>, runtime: seq<RuntimeVisibility>,
                        value: string, i: nat)
    requires i < |devices| && devices[i].vendor == Nvidia && NoRuntime(runtime, Nvidia)
    requires Carries(entries, "CUDA_VISIBLE_DEVICES", Some(value)) && ',' !in value && IsUuidText(Trimmed(value))
    ensures FinallyVisible(devices, ReadEnvironment(entries), legacyIds, runtime, i) <==>
            Shown(devices, SoleDevice(devices, Nvidia, Trimmed(value)), i)
  {
    var env, candidates := ReadEnvironment(entries), Candidates(devices, Nvidia);
    OrderVariable(entries);
    CudaVariable(entries, Some(value));
    var p := CudaPools(devices, candidates, env.pciOrder);
    OneUuidSelected(p, value, Nvidia);
    EnvironmentShows(devices, env, legacyIds, runtime, Selected(p, value),
                     SoleDevice(devices, Nvidia, Trimmed(value)), i);
  }

  // ----- ROCm -----

  /** The pool of the positional variables. */
  function PositionPools(devices: seq<Device>, current: seq<nat>): Pools
    requires InRange(current, devices)
  {
    Pools(devices, current, current, Candidate)
  }

  ghost function AllOf(selection: seq<nat>): iset<nat> {
    iset x | x in selection
  }

  /** Any texts of the two variables: ROCR selects from all AMD devices, HIP from what ROCR left. */
  lemma AmdTextsDecide(devices: seq<Device>, entries: Entries, legacyIds: seq<nat>, runtime: seq<RuntimeVisibility>,
                       rocr: Option<string>, hip: Option<string>, i: nat) returns (left: seq<nat>)
    requires i < |devices| && devices[i].vendor == Amd && NoRuntime(runtime, Amd) && (rocr.Some? || hip.Some?)
    requires Carries(entries, "ROCR_VISIBLE_DEVICES", rocr) && Carries(entries, "HIP_VISIBLE_DEVICES", hip)
    ensures var candidates := Candidates(devices, Amd);
      && InRange(left, devices)
      && (rocr == None ==> left == candidates)
      && (rocr.Some? ==> left == Selected(PositionPools(devices, candidates), rocr.value)
                         && forall x :: x in left <==> TextNames(PositionPools(devices, candidates), rocr.value, x))
      && (FinallyVisible(devices, ReadEnvironment(entries), legacyIds, runtime, i) <==>
          Shown(devices, if hip.Some? then NamedByText(PositionPools(devices, left), hip.value)
                         else AllOf(left), i))
  {
    var env, candidates := ReadEnvironment(entries), Candidates(devices, Amd);
    RocrVariable(entries, rocr);
    HipVariable(entries, hip);
    left := Narrowed(devices, candidates, rocr);
    NarrowedWithin(devices, candidates, rocr);
    if rocr.Some? {
      TextExact(PositionPools(devices, candidates), rocr.value);
    }
    if hip.Some? {
      TextNamesSelected(PositionPools(devices, left), hip.value);
      EnvironmentShows(devices, env, legacyIds, runtime, Selected(PositionPools(devices, left), hip.value),
                       NamedByText(PositionPools(devices, left), hip.value), i);
    } else {
      EnvironmentShows(devices, env, legacyIds, runtime, left, AllOf(left), i);
    }
  }

  /** HIP ordinals name AMD devices by position in what ROCR_VISIBLE_DEVICES left, whatever that says. */
  lemma HipListDecides(devices: seq<Device>, entries: Entries, legacyIds: seq<nat>, runtime: seq<RuntimeVisibility>,
                       rocr: Option<string>, ordinals: seq<nat>, i: nat)
    requires i < |devices| && devices[i].vendor == Amd && NoRuntime(runtime, Amd)
    requires Carries(entries, "ROCR_VISIBLE_DEVICES", rocr)
    requires ordinals != [] && Carries(entries, "HIP_VISIBLE_DEVICES", Some(OrdinalList(ordinals)))
    requires |Candidates(devices, Amd)| <= U64_MAX
    ensures var left := Narrowed(devices, Candidates(devices, Amd), rocr);
      FinallyVisible(devices, ReadEnvironment(entries), legacyIds, runtime, i) <==>
      Shown(devices, AtPositions(left, ordinals), i)
  {
    var candidates, env := Candidates(devices, Amd), ReadEnvironment(entries);
    RocrVariable(entries, rocr);
    HipVariable(entries, Some(OrdinalList(ordinals)));
    var left := Narrowed(devices, candidates, env.rocr);
    HipComposesWithRocr(devices, candidates, env, ordinals);
    EnvironmentShows(devices, env, legacyIds, runtime, AppendUnique([], Picked(left, ordinals)),
                     AtPositions(left, ordinals), i);
  }

  // ----- oneAPI -----

  /** A Level Zero mask without subdevices and without a SYCL selector: positions and UUIDs as for HIP. */
  lemma MaskDecides(devices: seq<Device>, entries: Entries, legacyIds: seq<nat>, runtime: seq<RuntimeVisibility>,
                    mask: string, i: nat)
    requires i < |devices| && devices[i].vendor == Intel && NoRuntime(runtime, Intel)
    requires Carries(entries, "ZE_AFFINITY_MASK", Some(mask)) && '.' !in mask
    requires Carries(entries, "ONEAPI_DEVICE_SELECTOR", None)
    ensures FinallyVisible(devices, ReadEnvironment(entries), legacyIds, runtime, i) <==>
            Shown(devices, NamedByText(PositionPools(devices, Candidates(devices, Intel)), mask), i)
  {
    var env, p := ReadEnvironment(entries), PositionPools(devices, Candidates(devices, Intel));
    MaskVariable(entries, Some(mask));
    SyclVariable(entries, None);
    TextNamesSelected(p, mask);
    EnvironmentShows(devices, env, legacyIds, runtime, Selected(p, mask), NamedByText(p, mask), i);
  }

  /** The devices whose IDs an enumeration lists. */
  ghost function Listed(devices: seq<Device>, ids: seq<nat>): iset<nat> {
    iset x: nat | x < |devices| && devices[x].id in ids
  }

  /** Without a SYCL selector the first enumeration of Intel devices decides alone, whatever the mask. */
  lemma IntelRuntimeDecides(devices: seq<Device>, entries: Entries, legacyIds: seq<nat>,
                            runtime: seq<RuntimeVisibility>, k: nat, i: nat)
    requires i < |devices| && devices[i].vendor == Intel && k < |runtime| && runtime[k].vendor == Intel
    requires forall j | 0 <= j < k :: runtime[j].vendor != Intel
    requires Carries(entries, "ONEAPI_DEVICE_SELECTOR", None)
    ensures FinallyVisible(devices, ReadEnvironment(entries), legacyIds, runtime, i) <==>
            Shown(devices, Listed(devices, runtime[k].visible), i)
  {
    var env := ReadEnvironment(entries);
    SyclVariable(entries, None);
    FirstObserved(devices, Intel, runtime, k);
    SelectionShows(devices, env, legacyIds, runtime, EnumeratedIndices(devices, runtime[k].visible),
                   Listed(devices, runtime[k].visible), i);
  }

  /** What a SYCL selector text chooses: nothing when blank, everything when unreadable, else the set expression. */
  ghost predicate SyclChooses(pool: seq<nat>, value: string, runtimeKnown: bool, x: nat) {
    var filters := SyclFilters(value);
    if Trimmed(value) == [] then false
    else if filters.None? || SomeUnresolvable(filters.value, runtimeKnown) then x in pool
    else ((AllDiscard(filters.value) && x in pool) || SomeCovers(pool, filters.value, false, x))
         && !SomeCovers(pool, filters.value, true, x)
  }

  ghost function ChosenBySycl(pool: seq<nat>, value: string, runtimeKnown: bool): iset<nat> {
    iset x: nat | SyclChooses(pool, value, runtimeKnown, x)
  }

  lemma SyclChoice(pool: seq<nat>, value: string, runtimeKnown: bool)
    ensures Chooses(SyclSelected(pool, value, runtimeKnown), ChosenBySycl(pool, value, runtimeKnown))
  {
    forall x: nat
      ensures x in SyclSelected(pool, value, runtimeKnown) <==> SyclChooses(pool, value, runtimeKnown, x)
    {
      if Trimmed(value) != [] && SyclFilters(value).Some? {
        ReadClausesExact(ClauseFilter, Pieces(value, ';'), SyclFilters(value).value);
        FilterSelectionExact(pool, SyclFilters(value).value, runtimeKnown, x);
      }
    }
  }

  /** The devices a SYCL selector starts from: an enumeration's, or else what a mask without subdevices leaves. */
  ghost predicate StartsFrom(devices: seq<Device>, runtime: seq<RuntimeVisibility>, mask: Option<string>,
                             pool: seq<nat>) {
    && (forall k | 0 <= k < |runtime| && runtime[k].vendor == Intel
                   && forall j | 0 <= j < k :: runtime[j].vendor != Intel ::
          pool == EnumeratedIndices(devices, runtime[k].visible))
    && (NoRuntime(runtime, Intel) ==>
        if mask.None? || '.' in mask.value then pool == Candidates(devices, Intel)
        else pool == Selected(PositionPools(devices, Candidates(devices, Intel)), mask.value))
  }

  function SyclPool(devices: seq<Device>, env: Environment, runtime: seq<RuntimeVisibility>): seq<nat> {
    var observed := Observed(devices, Intel, runtime);
    Narrowed(devices, observed.GetOr(Candidates(devices, Intel)), UsableMask(env, observed.Some?))
  }

  lemma SyclPoolStarts(devices: seq<Device>, env: Environment, runtime: seq<RuntimeVisibility>)
    ensures StartsFrom(devices, runtime, env.levelZero, SyclPool(devices, env, runtime))
  {
    ObservedPresence(devices, Intel, runtime);
    forall k: nat | k < |runtime| && runtime[k].vendor == Intel && forall j | 0 <= j < k :: runtime[j].vendor != Intel
      ensures Observed(devices, Intel, runtime) == Some(EnumeratedIndices(devices, runtime[k].visible))
    {
      FirstObserved(devices, Intel, runtime, k);
    }
  }

  lemma SyclShows(devices: seq<Device>, env: Environment, legacyIds: seq<nat>, runtime: seq<RuntimeVisibility>,
                  value: string, i: nat)
    requires i < |devices| && devices[i].vendor == Intel && env.oneApi == Some(value)
    ensures FinallyVisible(devices, env, legacyIds, runtime, i) <==>
            Shown(devices, ChosenBySycl(SyclPool(devices, env, runtime), value, !NoRuntime(runtime, Intel)), i)
  {
    var observed, pool := Observed(devices, Intel, runtime), SyclPool(devices, env, runtime);
    ObservedPresence(devices, Intel, runtime);
    SyclChoice(pool, value, observed.Some?);
    SelectionWithin(devices, Intel, observed.GetOr(Candidates(devices, Intel)), env, observed.Some?);
    SelectionShows(devices, env, legacyIds, runtime, SyclSelected(pool, value, observed.Some?),
                   ChosenBySycl(pool, value, observed.Some?), i);
  }

  /** Any text of ONEAPI_DEVICE_SELECTOR, with or without a runtime enumeration. */
  lemma SyclTextDecides(devices: seq<Device>, entries: Entries, legacyIds: seq<nat>, runtime: seq<RuntimeVisibility>,
                        mask: Option<string>, value: string, i: nat) returns (pool: seq<nat>)
    requires i < |devices| && devices[i].vendor == Intel
    requires Carries(entries, "ZE_AFFINITY_MASK", mask) && Carries(entries, "ONEAPI_DEVICE_SELECTOR", Some(value))
    ensures StartsFrom(devices, runtime, mask, pool)
    ensures FinallyVisible(devices, ReadEnvironment(entries), legacyIds, runtime, i) <==>
            Shown(devices, ChosenBySycl(pool, value, !NoRuntime(runtime, Intel)), i)
  {
    var env := ReadEnvironment(entries);
    MaskVariable(entries, mask);
    SyclVariable(entries, Some(value));
    pool := SyclPool(devices, env, runtime);
    SyclPoolStarts(devices, env, runtime);
    SyclShows(devices, env, legacyIds, runtime, value, i);
  }

  // ----- Blank variables -----

  /** Set, but to nothing but blanks. */
  ghost predicate SetBlank(entries: Entries, name: string) {
    exists value :: Carries(entries, name, Some(value)) && Trimmed(value) == []
  }

  /** Without a runtime, a blank variable hides all devices of its vendor, whatever else is set. */
  lemma BlankVariableHides(devices: seq<Device>, entries: Entries, legacyIds: seq<nat>, runtime: seq<RuntimeVisibility>,
                           i: nat)
    requires i < |devices| && NoRuntime(runtime, devices[i].vendor)
    requires match devices[i].vendor
             case Nvidia => SetBlank(entries, "CUDA_VISIBLE_DEVICES")
             case Amd => SetBlank(entries, "ROCR_VISIBLE_DEVICES") || SetBlank(entries, "HIP_VISIBLE_DEVICES")
             case Intel => SetBlank(entries, "ZE_AFFINITY_MASK") || SetBlank(entries, "ONEAPI_DEVICE_SELECTOR")
             case OtherVendor(_) => false
    ensures !FinallyVisible(devices, ReadEnvironment(entries), legacyIds, runtime, i)
  {
    var vendor, env := devices[i].vendor, ReadEnvironment(entries);
    forall v
      ensures Carries(entries, "CUDA_VISIBLE_DEVICES", Some(v)) ==> env.cuda == Some(v)
      ensures Carries(entries, "ROCR_VISIBLE_DEVICES", Some(v)) ==> env.rocr == Some(v)
      ensures Carries(entries, "HIP_VISIBLE_DEVICES", Some(v)) ==> env.hip == Some(v)
      ensures Carries(entries, "ZE_AFFINITY_MASK", Some(v)) ==> env.levelZero == Some(v)
      ensures Carries(entries, "ONEAPI_DEVICE_SELECTOR", Some(v)) ==> env.oneApi == Some(v)
    {
      CudaVariable(entries, Some(v));
      RocrVariable(entries, Some(v));
      HipVariable(entries, Some(v));
      MaskVariable(entries, Some(v));
      SyclVariable(entries, Some(v));
    }
    ObservedPresence(devices, vendor, runtime);
    BlankIsNotUnset(devices, vendor, Candidates(devices, vendor), env);
  }
}
