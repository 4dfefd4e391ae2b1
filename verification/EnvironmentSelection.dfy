/**
  Which environment variable selects the devices of which vendor, in what order of ordinals:
  select_accelerator_environment of src/resolver/accelerator_selection.cpp.
 */
module EnvironmentSelection {
  import opened Options
  import opened ParseUtils
  import opened SortedSets
  import opened PciAddresses
  import opened Sorting
  import opened AcceleratorModel
  import opened CsvSelection
  import opened SyclSelection

  // ----- Sorting indices -----

  lemma SameElements(a: seq<nat>, b: seq<nat>)
    requires multiset(a) == multiset(b)
    ensures forall x :: x in a <==> x in b
  {
    forall x ensures x in a <==> x in b {
      assert x in a <==> x in multiset(a);
      assert x in b <==> x in multiset(b);
    }
  }

  lemma {:induction false} NoDuplicatesCount(q: seq<nat>)
    ensures NoDuplicates(q) <==> forall x :: multiset(q)[x] <= 1
  {
    if q != [] {
      var n := |q| - 1;
      NoDuplicatesCount(q[..n]);
      assert q == q[..n] + [q[n]];
      assert multiset(q) == multiset(q[..n]) + multiset{q[n]};
      assert q[n] in q[..n] <==> multiset(q[..n])[q[n]] >= 1;
      if !NoDuplicates(q[..n]) {
        var x :| multiset(q[..n])[x] > 1;
        assert multiset(q)[x] > 1;
      } else if q[n] in q[..n] {
        assert multiset(q)[q[n]] > 1;
      }
    }
  }

  /** Sorting loses and repeats nothing. */
  lemma SortedKeeps(q: seq<nat>, key: nat -> nat)
    ensures forall x :: x in SortedByKey(q, key) <==> x in q
    ensures NoDuplicates(SortedByKey(q, key)) <==> NoDuplicates(q)
  {
    SameElements(SortedByKey(q, key), q);
    NoDuplicatesCount(q);
    NoDuplicatesCount(SortedByKey(q, key));
  }

  // ----- CUDA_DEVICE_ORDER=PCI_BUS_ID -----

  function AddressKey(a: PciAddress): nat {
    ((a.domain * 256 + a.bus) * 256 + a.device) * 256 + a.func
  }

  /** Known addresses first, in address order; then the others by index. */
  function PciKey(devices: seq<Device>): nat -> nat {
    (index: nat) => if index < |devices| && devices[index].pci.Some? then AddressKey(devices[index].pci.value)
             else 0x100_0000_0000 + index
  }

  /** The comparison the source sorts with. */
  predicate PciBefore(devices: seq<Device>, left: nat, right: nat)
    requires left < |devices| && right < |devices|
  {
    var a, b := devices[left].pci, devices[right].pci;
    if a.None? || b.None? then (if a.Some? != b.Some? then a.Some? else left < right)
    else
      var x, y := a.value, b.value;
      || x.domain < y.domain
      || (x.domain == y.domain && (x.bus < y.bus
          || (x.bus == y.bus && (x.device < y.device || (x.device == y.device && x.func < y.func)))))
  }

  /** It is the strict order of a numeric key, so sorting by it is well defined. */
  lemma PciBeforeIsKeyOrder(devices: seq<Device>, left: nat, right: nat)
    requires left < |devices| && right < |devices|
    ensures PciBefore(devices, left, right) <==> PciKey(devices)(left) < PciKey(devices)(right)
  {
  }

  // ----- Selection per vendor -----

  type Entries = seq<(string, string)>

  /** The value of the first entry with the name. */
  function Lookup(entries: Entries, name: string): Option<string> {
    if entries == [] then None
    else if entries[0].0 == name then Some(entries[0].1)
    else Lookup(entries[1..], name)
  }

  /** The variables that decide visibility, unset or with their value. */
  datatype Environment = Environment(
    cuda: Option<string>,
    pciOrder: bool,
    rocr: Option<string>,
    hip: Option<string>,
    levelZero: Option<string>,
    oneApi: Option<string>)
  {
    /** has_selection_environment: some selection variable is set, blank or not. */
    predicate HasSelection() {
      cuda.Some? || hip.Some? || rocr.Some? || levelZero.Some? || oneApi.Some?
    }
  }

  function ReadEnvironment(entries: Entries): Environment {
    Environment(Lookup(entries, "CUDA_VISIBLE_DEVICES"),
                Lookup(entries, "CUDA_DEVICE_ORDER") == Some("PCI_BUS_ID"),
                Lookup(entries, "ROCR_VISIBLE_DEVICES"),
                Lookup(entries, "HIP_VISIBLE_DEVICES"),
                Lookup(entries, "ZE_AFFINITY_MASK"),
                Lookup(entries, "ONEAPI_DEVICE_SELECTOR"))
  }

  /** A variable is set exactly when an entry carries its name, and the first such entry gives its value. */
  lemma {:induction false} LookupExact(entries: Entries, name: string)
    ensures Lookup(entries, name).Some? <==> exists i :: 0 <= i < |entries| && entries[i].0 == name
    ensures Lookup(entries, name).Some? ==>
            exists i :: 0 <= i < |entries| && entries[i] == (name, Lookup(entries, name).value)
                        && forall j | 0 <= j < i :: entries[j].0 != name
  {
    if entries != [] {
      if entries[0].0 == name {
        assert entries[0] == (name, Lookup(entries, name).value);
      } else {
        var tail := entries[1..];
        LookupExact(tail, name);
        if Lookup(tail, name).Some? {
          var i :| 0 <= i < |tail| && tail[i] == (name, Lookup(tail, name).value)
                   && forall j | 0 <= j < i :: tail[j].0 != name;
          assert entries[i + 1] == (name, Lookup(entries, name).value);
          forall j | 0 <= j < i + 1 ensures entries[j].0 != name {
            assert j > 0 ==> entries[j] == tail[j - 1];
          }
        } else if i :| 0 <= i < |entries| && entries[i].0 == name {
          assert tail[i - 1].0 == name;
        }
      }
    }
  }

  /** The first entry of that name has that value, or none has the name. */
  ghost predicate Carries(entries: Entries, name: string, value: Option<string>) {
    match value
    case None => forall i | 0 <= i < |entries| :: entries[i].0 != name
    case Some(v) =>
      exists i :: 0 <= i < |entries| && entries[i] == (name, v) && forall j | 0 <= j < i :: entries[j].0 != name
  }

  /** Some entry carries one of the five names that select devices, blank or not. */
  ghost predicate NamesSelection(entries: Entries) {
    exists i :: 0 <= i < |entries| && entries[i].0 in
      {"CUDA_VISIBLE_DEVICES", "HIP_VISIBLE_DEVICES", "ROCR_VISIBLE_DEVICES", "ZE_AFFINITY_MASK",
       "ONEAPI_DEVICE_SELECTOR"}
  }

  lemma LookupCarries(entries: Entries, name: string, value: Option<string>)
    ensures Lookup(entries, name) == value <==> Carries(entries, name, value)
  {
    LookupExact(entries, name);
    if value.Some? && Carries(entries, name, value) {
      var i :| 0 <= i < |entries| && entries[i] == (name, value.value) && forall j | 0 <= j < i :: entries[j].0 != name;
      assert entries[i].0 == name;
      var k :| 0 <= k < |entries| && entries[k] == (name, Lookup(entries, name).value)
               && forall j | 0 <= j < k :: entries[j].0 != name;
      assert i == k;
    }
  }

  lemma CudaVariable(entries: Entries, value: Option<string>)
    ensures ReadEnvironment(entries).cuda == value <==> Carries(entries, "CUDA_VISIBLE_DEVICES", value)
  {
    LookupCarries(entries, "CUDA_VISIBLE_DEVICES", value);
  }

  lemma RocrVariable(entries: Entries, value: Option<string>)
    ensures ReadEnvironment(entries).rocr == value <==> Carries(entries, "ROCR_VISIBLE_DEVICES", value)
  {
    LookupCarries(entries, "ROCR_VISIBLE_DEVICES", value);
  }

  lemma HipVariable(entries: Entries, value: Option<string>)
    ensures ReadEnvironment(entries).hip == value <==> Carries(entries, "HIP_VISIBLE_DEVICES", value)
  {
    LookupCarries(entries, "HIP_VISIBLE_DEVICES", value);
  }

  lemma MaskVariable(entries: Entries, value: Option<string>)
    ensures ReadEnvironment(entries).levelZero == value <==> Carries(entries, "ZE_AFFINITY_MASK", value)
  {
    LookupCarries(entries, "ZE_AFFINITY_MASK", value);
  }

  lemma SyclVariable(entries: Entries, value: Option<string>)
    ensures ReadEnvironment(entries).oneApi == value <==> Carries(entries, "ONEAPI_DEVICE_SELECTOR", value)
  {
    LookupCarries(entries, "ONEAPI_DEVICE_SELECTOR", value);
  }

  lemma OrderVariable(entries: Entries)
    ensures ReadEnvironment(entries).pciOrder <==> Carries(entries, "CUDA_DEVICE_ORDER", Some("PCI_BUS_ID"))
  {
    LookupCarries(entries, "CUDA_DEVICE_ORDER", Some("PCI_BUS_ID"));
  }

  lemma CarriesNone(entries: Entries, name: string)
    ensures Lookup(entries, name).Some? <==> exists i :: 0 <= i < |entries| && entries[i].0 == name
  {
    LookupExact(entries, name);
  }

  /** The environment restricts exactly when an entry carries one of the five names. */
  lemma SelectionNamed(entries: Entries)
    ensures ReadEnvironment(entries).HasSelection() <==> NamesSelection(entries)
  {
    CarriesNone(entries, "CUDA_VISIBLE_DEVICES");
    CarriesNone(entries, "ROCR_VISIBLE_DEVICES");
    CarriesNone(entries, "HIP_VISIBLE_DEVICES");
    CarriesNone(entries, "ZE_AFFINITY_MASK");
    CarriesNone(entries, "ONEAPI_DEVICE_SELECTOR");
  }

  /** Which variable each value comes from, the first entry of a name counting, and when any of them restricts. */
  lemma EnvironmentExact(entries: Entries)
    ensures var env := ReadEnvironment(entries);
      && Carries(entries, "CUDA_VISIBLE_DEVICES", env.cuda)
      && (env.pciOrder <==> Carries(entries, "CUDA_DEVICE_ORDER", Some("PCI_BUS_ID")))
      && Carries(entries, "ROCR_VISIBLE_DEVICES", env.rocr)
      && Carries(entries, "HIP_VISIBLE_DEVICES", env.hip)
      && Carries(entries, "ZE_AFFINITY_MASK", env.levelZero)
      && Carries(entries, "ONEAPI_DEVICE_SELECTOR", env.oneApi)
      && (env.HasSelection() <==> NamesSelection(entries))
  {
    var env := ReadEnvironment(entries);
    CudaVariable(entries, env.cuda);
    OrderVariable(entries);
    RocrVariable(entries, env.rocr);
    HipVariable(entries, env.hip);
    MaskVariable(entries, env.levelZero);
    SyclVariable(entries, env.oneApi);
    SelectionNamed(entries);
  }

  function PhysicalOnly(devices: seq<Device>, candidates: seq<nat>): (result: seq<nat>)
    requires InRange(candidates, devices)
    ensures forall x :: x in result <==> x in candidates && devices[x].Physical()
  {
    if candidates == [] then [] else
    var n := |candidates| - 1;
    assert candidates == candidates[..n] + [candidates[n]];
    PhysicalOnly(devices, candidates[..n]) + if devices[candidates[n]].Physical() then [candidates[n]] else []
  }

  /** The order in which CUDA ordinals count the physical devices. */
  function CudaOrdinals(devices: seq<Device>, candidates: seq<nat>, pciOrder: bool): (result: seq<nat>)
    requires InRange(candidates, devices)
    ensures forall x :: x in result <==> x in candidates && devices[x].Physical()
  {
    var physical := PhysicalOnly(devices, candidates);
    SortedKeeps(physical, PciKey(devices));
    if pciOrder then SortedByKey(physical, PciKey(devices)) else physical
  }

  /** Ordinals count physical devices only, by PCI position or by their own index; UUIDs search all. */
  function CudaPools(devices: seq<Device>, candidates: seq<nat>, pciOrder: bool): Pools
    requires InRange(candidates, devices)
  {
    Pools(devices, CudaOrdinals(devices, candidates, pciOrder), candidates, if pciOrder then Candidate else PhysicalId)
  }

  /** One pool for ordinals and UUIDs, by position. */
  function PlainPools(devices: seq<Device>, current: seq<nat>): Pools
    requires InRange(current, devices)
  {
    Pools(devices, current, current, Candidate)
  }

  /** One positional variable applied to the current selection; unset, it changes nothing. */
  function Narrowed(devices: seq<Device>, current: seq<nat>, value: Option<string>): seq<nat>
    requires InRange(current, devices)
  {
    if value.None? then current else Selected(PlainPools(devices, current), value.value)
  }

  lemma NarrowedWithin(devices: seq<Device>, current: seq<nat>, value: Option<string>)
    requires InRange(current, devices)
    ensures Within(Narrowed(devices, current, value), current)
    ensures NoDuplicates(current) ==> NoDuplicates(Narrowed(devices, current, value))
  {
    if value.Some? {
      var p := PlainPools(devices, current);
      SelectedByExact(TokenReading(p), value.value, 0);
      forall x | x in Selected(p, value.value) ensures x in current {
        SelectedWithin(p, value.value, x);
      }
    }
  }

  /** ROCR narrows first; HIP counts what ROCR left. */
  function AmdNarrowed(devices: seq<Device>, candidates: seq<nat>, env: Environment): seq<nat>
    requires InRange(candidates, devices)
  {
    NarrowedWithin(devices, candidates, env.rocr);
    Narrowed(devices, Narrowed(devices, candidates, env.rocr), env.hip)
  }

  /** The Level Zero mask, when it can be applied: no runtime enumeration and no subdevice syntax. */
  function UsableMask(env: Environment, runtimeKnown: bool): Option<string> {
    if runtimeKnown || env.levelZero.None? || '.' in env.levelZero.value then None else env.levelZero
  }

  function Selection(devices: seq<Device>, vendor: Vendor, candidates: seq<nat>, env: Environment, runtimeKnown: bool)
    : Option<seq<nat>>
    requires InRange(candidates, devices)
  {
    match vendor
    case Nvidia =>
      if env.cuda.None? || runtimeKnown then None
      else Some(Selected(CudaPools(devices, candidates, env.pciOrder), env.cuda.value))
    case Amd =>
      if runtimeKnown || (env.rocr.None? && env.hip.None?) then None
      else Some(AmdNarrowed(devices, candidates, env))
    case Intel =>
      var mask := UsableMask(env, runtimeKnown);
      var masked := Narrowed(devices, candidates, mask);
      if env.oneApi.Some? then Some(SyclSelected(masked, env.oneApi.value, runtimeKnown))
      else if mask.Some? then Some(masked)
      else None
    case OtherVendor(_) => None
  }

  method ApplyVariable(devices: seq<Device>, current: seq<nat>, value: Option<string>)
    returns (selected: seq<nat>, filtered: bool)
    requires InRange(current, devices)
    ensures selected == Narrowed(devices, current, value) && filtered == value.Some?
    ensures InRange(selected, devices)
  {
    selected, filtered := current, false;
    if value.Some? {
      var warned;
      selected, warned := SelectCsv(PlainPools(devices, current), value.value);
      filtered := true;
    }
    NarrowedWithin(devices, current, value);
  }

  method SelectCuda(devices: seq<Device>, candidates: seq<nat>, env: Environment, runtimeKnown: bool)
    returns (selection: Option<seq<nat>>)
    requires InRange(candidates, devices)
    ensures selection == Selection(devices, Nvidia, candidates, env, runtimeKnown)
  {
    if env.cuda.None? || runtimeKnown {
      return None;
    }
    var physical: seq<nat> := [];
    for i := 0 to |candidates|
      invariant InRange(candidates[..i], devices) && physical == PhysicalOnly(devices, candidates[..i])
    {
      assert candidates[..i + 1][..i] == candidates[..i];
      if devices[candidates[i]].Physical() {
        physical := physical + [candidates[i]];
      }
    }
    assert candidates[..|candidates|] == candidates;
    if env.pciOrder {
      physical := SortedByKey(physical, PciKey(devices));
    }
    assert physical == CudaOrdinals(devices, candidates, env.pciOrder);
    var order := if env.pciOrder then Candidate else PhysicalId;
    var selected, warned := SelectCsv(Pools(devices, physical, candidates, order), env.cuda.value);
    return Some(selected);
  }

  method SelectAmd(devices: seq<Device>, candidates: seq<nat>, env: Environment, runtimeKnown: bool)
    returns (selection: Option<seq<nat>>)
    requires InRange(candidates, devices)
    ensures selection == Selection(devices, Amd, candidates, env, runtimeKnown)
  {
    if runtimeKnown {
      return None;
    }
    var selected, byRocr := ApplyVariable(devices, candidates, env.rocr);
    var byHip;
    selected, byHip := ApplyVariable(devices, selected, env.hip);
    return if byRocr || byHip then Some(selected) else None;
  }

  method SelectIntel(devices: seq<Device>, candidates: seq<nat>, env: Environment, runtimeKnown: bool)
    returns (selection: Option<seq<nat>>)
    requires InRange(candidates, devices)
    ensures selection == Selection(devices, Intel, candidates, env, runtimeKnown)
  {
    var selected, filtered := candidates, false;
    if !runtimeKnown {
      if env.levelZero.None? || '.' !in env.levelZero.value {
        selected, filtered := ApplyVariable(devices, selected, env.levelZero);
      }
    }
    if env.oneApi.Some? {
      selected := SelectSycl(selected, env.oneApi.value, runtimeKnown);
      filtered := true;
    }
    return if filtered then Some(selected) else None;
  }

  /** select_accelerator_environment. */
  method SelectEnvironment(devices: seq<Device>, vendor: Vendor, candidates: seq<nat>,
                           env: Environment, runtimeKnown: bool)
    returns (selection: Option<seq<nat>>)
    requires InRange(candidates, devices)
    ensures selection == Selection(devices, vendor, candidates, env, runtimeKnown)
  {
    match vendor
    case Nvidia => selection := SelectCuda(devices, candidates, env, runtimeKnown);
    case Amd => selection := SelectAmd(devices, candidates, env, runtimeKnown);
    case Intel => selection := SelectIntel(devices, candidates, env, runtimeKnown);
    case OtherVendor(_) => selection := None;
  }

  // ----- What every selection keeps -----

  lemma PhysicalNoDuplicates(devices: seq<Device>, candidates: seq<nat>)
    requires InRange(candidates, devices) && NoDuplicates(candidates)
    ensures NoDuplicates(PhysicalOnly(devices, candidates))
  {
    if candidates != [] {
      PhysicalNoDuplicates(devices, candidates[..|candidates| - 1]);
    }
  }

  /** For every vendor and environment the selection stays within the candidates and repeats none. */
  lemma SelectionWithin(devices: seq<Device>, vendor: Vendor, candidates: seq<nat>,
                        env: Environment, runtimeKnown: bool)
    requires InRange(candidates, devices) && Selection(devices, vendor, candidates, env, runtimeKnown).Some?
    ensures var selected := Selection(devices, vendor, candidates, env, runtimeKnown).value;
      Within(selected, candidates) && (NoDuplicates(candidates) ==> NoDuplicates(selected))
  {
    match vendor
    case Nvidia =>
      var p := CudaPools(devices, candidates, env.pciOrder);
      SelectedByExact(TokenReading(p), env.cuda.value, 0);
      forall x | x in Selected(p, env.cuda.value) ensures x in candidates {
        SelectedWithin(p, env.cuda.value, x);
      }
    case Amd =>
      NarrowedWithin(devices, candidates, env.rocr);
      NarrowedWithin(devices, Narrowed(devices, candidates, env.rocr), env.hip);
    case Intel =>
      var mask := UsableMask(env, runtimeKnown);
      NarrowedWithin(devices, candidates, mask);
      if env.oneApi.Some? {
        SyclSelectionWithin(Narrowed(devices, candidates, mask), env.oneApi.value, runtimeKnown);
      }
    case OtherVendor(_) =>
  }

  lemma PhysicalSize(devices: seq<Device>, candidates: seq<nat>)
    requires InRange(candidates, devices)
    ensures |PhysicalOnly(devices, candidates)| <= |candidates|
  {
    if candidates != [] {
      PhysicalSize(devices, candidates[..|candidates| - 1]);
    }
  }

  lemma SameLength<T>(a: seq<T>, b: seq<T>)
    requires multiset(a) == multiset(b)
    ensures |a| == |b|
  {
    assert |multiset(a)| == |a| && |multiset(b)| == |b|;
  }

  /** With PCI order, CUDA ordinals count the physical devices by their addresses, unknown addresses last. */
  lemma CudaOrdinalsFollowPci(devices: seq<Device>, candidates: seq<nat>, env: Environment, ordinals: seq<nat>)
    requires InRange(candidates, devices) && |candidates| <= U64_MAX && env.pciOrder
    requires ordinals != [] && env.cuda == Some(OrdinalList(ordinals))
    ensures var order := CudaOrdinals(devices, candidates, true);
      && Selection(devices, Nvidia, candidates, env, false) == Some(AppendUnique([], Picked(order, ordinals)))
      && (forall x :: x in order <==> x in candidates && devices[x].Physical())
      && (NoDuplicates(candidates) ==> NoDuplicates(order))
      && (forall i, j | 0 <= i < j < |order| :: !PciBefore(devices, order[j], order[i]))
  {
    var physical, key := PhysicalOnly(devices, candidates), PciKey(devices);
    var order := CudaOrdinals(devices, candidates, true);
    if NoDuplicates(candidates) {
      PhysicalNoDuplicates(devices, candidates);
    }
    SortedKeeps(physical, key);
    SortedOrdered(physical, key);
    PhysicalSize(devices, candidates);
    SameLength(order, physical);
    OrdinalsSelect(CudaPools(devices, candidates, true), ordinals);
    forall i, j | 0 <= i < j < |order|
      ensures !PciBefore(devices, order[j], order[i])
    {
      assert order[i] in order && order[j] in order;
      PciBeforeIsKeyOrder(devices, order[j], order[i]);
      assert key(order[i]) <= key(order[j]);
    }
  }

  ghost predicate PhysicalCarries(devices: seq<Device>, candidates: seq<nat>, id: nat)
    requires InRange(candidates, devices)
  {
    exists y :: y in candidates && devices[y].Physical() && devices[y].id == id
  }

  /** The ordinals name x, with every earlier one naming some physical candidate. */
  ghost predicate NamedByOrdinal(devices: seq<Device>, candidates: seq<nat>, ordinals: seq<nat>, x: nat)
    requires InRange(candidates, devices)
  {
    && x in candidates && devices[x].Physical()
    && exists i :: 0 <= i < |ordinals| && devices[x].id == ordinals[i]
                   && forall j | 0 <= j < i :: PhysicalCarries(devices, candidates, ordinals[j])
  }

  /**
    Without PCI order CUDA ordinals are the devices' own indices: a physical candidate is selected exactly
    when some ordinal is its ID and every earlier one is the ID of a physical candidate.
   */
  lemma CudaOrdinalsAreIds(devices: seq<Device>, candidates: seq<nat>, env: Environment, ordinals: seq<nat>, x: nat)
    requires InRange(candidates, devices) && !env.pciOrder && forall y | y in candidates :: devices[y].id <= U32_MAX
    requires ordinals != [] && env.cuda == Some(OrdinalList(ordinals))
    ensures var selection := Selection(devices, Nvidia, candidates, env, false);
      selection.Some? && (x in selection.value <==> NamedByOrdinal(devices, candidates, ordinals, x))
  {
    var p := CudaPools(devices, candidates, false);
    IdsSelect(p, ordinals, x);
    forall id: nat
      ensures SomeCarries(p, id) <==> PhysicalCarries(devices, candidates, id)
    {
      if SomeCarries(p, id) {
        var y :| y in p.ordinals && devices[y].id == id;
        assert devices[y].Physical();
      }
      if PhysicalCarries(devices, candidates, id) {
        var y :| y in candidates && devices[y].Physical() && devices[y].id == id;
        assert y in p.ordinals;
      }
    }
  }

  lemma WithinSize(q: seq<nat>, pool: seq<nat>)
    requires Within(q, pool) && NoDuplicates(q)
    ensures |q| <= |pool|
  {
    DistinctSize(q);
    DistinctSize(pool);
    SubsetSize(Elements(q), Elements(pool));
  }

  lemma NarrowedSize(devices: seq<Device>, current: seq<nat>, value: Option<string>)
    requires InRange(current, devices)
    ensures |Narrowed(devices, current, value)| <= |current|
  {
    if value.Some? {
      var p := PlainPools(devices, current);
      NarrowedWithin(devices, current, value);
      SelectedByExact(TokenReading(p), value.value, 0);
      WithinSize(Narrowed(devices, current, value), current);
    }
  }

  /**
    HIP ordinals count the devices that ROCR left, whatever ROCR_VISIBLE_DEVICES says: the selection holds
    the entries of that list at the HIP positions, up to the first one outside it, each once.
   */
  lemma HipComposesWithRocr(devices: seq<Device>, candidates: seq<nat>, env: Environment, inner: seq<nat>)
    requires InRange(candidates, devices) && |candidates| <= U64_MAX
    requires inner != [] && env.hip == Some(OrdinalList(inner))
    ensures var left := Narrowed(devices, candidates, env.rocr);
      && Within(left, candidates)
      && Selection(devices, Amd, candidates, env, false) == Some(AppendUnique([], Picked(left, inner)))
  {
    NarrowedWithin(devices, candidates, env.rocr);
    NarrowedSize(devices, candidates, env.rocr);
    OrdinalsSelect(PlainPools(devices, Narrowed(devices, candidates, env.rocr)), inner);
  }

  /** Two lists of distinct ordinals select the composed positions. */
  lemma OrdinalListsCompose(devices: seq<Device>, candidates: seq<nat>, env: Environment,
                            outer: seq<nat>, inner: seq<nat>)
    requires InRange(candidates, devices) && NoDuplicates(candidates) && |candidates| <= U64_MAX
    requires outer != [] && NoDuplicates(outer) && inner != [] && NoDuplicates(inner)
    requires forall i | 0 <= i < |outer| :: outer[i] < |candidates|
    requires env.rocr == Some(OrdinalList(outer)) && env.hip == Some(OrdinalList(inner))
    ensures Selection(devices, Amd, candidates, env, false) == Some(Picked(candidates, Picked(outer, inner)))
  {
    HipComposesWithRocr(devices, candidates, env, inner);
    OrdinalsSelect(PlainPools(devices, candidates), outer);
    PickedDistinct(candidates, outer);
    var left := Picked(candidates, outer);
    assert Narrowed(devices, candidates, env.rocr) == left;
    PickedDistinct(left, inner);
    PickedComposes(candidates, outer, inner);
  }

  ghost predicate Blank(value: Option<string>) {
    value.Some? && Trimmed(value.value) == []
  }

  lemma FirstIsMember(q: seq<nat>)
    ensures q != [] ==> exists x :: x in q
  {
    if q != [] {
      assert q[0] in q;
    }
  }

  lemma WithinNothing(q: seq<nat>)
    requires Within(q, [])
    ensures q == []
  {
    FirstIsMember(q);
  }

  lemma BlankNarrows(devices: seq<Device>, current: seq<nat>, value: Option<string>)
    requires InRange(current, devices) && (Blank(value) || current == [])
    ensures Narrowed(devices, current, value) == []
  {
    if Blank(value) {
      BlankSelectsNothing(PlainPools(devices, current), value.value);
    } else {
      NarrowedWithin(devices, current, value);
      WithinNothing(Narrowed(devices, current, value));
    }
  }

  lemma BlankHasNoDot(value: string)
    requires Trimmed(value) == []
    ensures '.' !in value
  {
    var a, b := TrimmedParts(value);
    assert value == a + b;
  }

  /** A selection variable that is set but blank selects nothing; unset ones select nothing and everything stays. */
  lemma BlankIsNotUnset(devices: seq<Device>, vendor: Vendor, candidates: seq<nat>, env: Environment)
    requires InRange(candidates, devices)
    ensures (match vendor
             case Nvidia => Blank(env.cuda)
             case Amd => Blank(env.rocr) || Blank(env.hip)
             case Intel => Blank(env.levelZero) || Blank(env.oneApi)
             case OtherVendor(_) => false) ==> Selection(devices, vendor, candidates, env, false) == Some([])
    ensures !env.HasSelection() ==> Selection(devices, vendor, candidates, env, false) == None
  {
    match vendor
    case Nvidia =>
      if Blank(env.cuda) {
        BlankSelectsNothing(CudaPools(devices, candidates, env.pciOrder), env.cuda.value);
      }
    case Amd =>
      NarrowedWithin(devices, candidates, env.rocr);
      if Blank(env.rocr) {
        BlankNarrows(devices, candidates, env.rocr);
        BlankNarrows(devices, [], env.hip);
      } else if Blank(env.hip) {
        BlankNarrows(devices, Narrowed(devices, candidates, env.rocr), env.hip);
      }
    case Intel =>
      if Blank(env.levelZero) {
        BlankHasNoDot(env.levelZero.value);
        BlankNarrows(devices, candidates, env.levelZero);
        if env.oneApi.Some? {
          SyclSelectionWithin([], env.oneApi.value, false);
          WithinNothing(SyclSelected([], env.oneApi.value, false));
        }
      }
    case OtherVendor(_) =>
  }
}
