/**
  Which accelerators the current process can use: src/resolver/accelerator_visibility.cpp and the accelerator
  cross check of src/resolver/resolve.cpp.
 */
module AcceleratorVisibility {
  import opened Options
  import opened AcceleratorModel
  import opened CsvSelection
  import opened EnvironmentSelection
  import opened SortedSets
  import opened Sorting

  /** A complete runtime enumeration of one vendor; an empty one means that no device is visible. */
  datatype RuntimeVisibility = RuntimeVisibility(vendor: Vendor, visible: seq<nat>)

  // ----- Specification -----

  predicate OfVendor(device: Device, vendor: Vendor) {
    device.vendor == vendor
  }

  /** Indices below n of the vendor's devices, in order. */
  function VendorIndices(devices: seq<Device>, vendor: Vendor, n: nat): (result: seq<nat>)
    requires n <= |devices|
    ensures forall x: nat :: x in result <==> x < n && OfVendor(devices[x], vendor)
    ensures NoDuplicates(result)
  {
    if n == 0 then []
    else VendorIndices(devices, vendor, n - 1) + if OfVendor(devices[n - 1], vendor) then [n - 1] else []
  }

  function IdKey(devices: seq<Device>): nat -> nat {
    (index: nat) => if index < |devices| then devices[index].id else 0
  }

  /** The vendor's devices by ascending ID. */
  function Candidates(devices: seq<Device>, vendor: Vendor): (result: seq<nat>)
    ensures forall x: nat :: x in result <==> x < |devices| && OfVendor(devices[x], vendor)
    ensures NoDuplicates(result) && InRange(result, devices)
  {
    var indices := VendorIndices(devices, vendor, |devices|);
    SortedKeeps(indices, IdKey(devices));
    SortedByKey(indices, IdKey(devices))
  }

  /** Indices below n of the devices with the ID, in order. */
  function IdIndices(devices: seq<Device>, id: nat, n: nat): (result: seq<nat>)
    requires n <= |devices|
    ensures forall x: nat :: x in result <==> x < n && devices[x].id == id
  {
    if n == 0 then [] else IdIndices(devices, id, n - 1) + if devices[n - 1].id == id then [n - 1] else []
  }

  /** The devices of an enumeration, in enumeration order. */
  function EnumeratedIndices(devices: seq<Device>, visible: seq<nat>): (result: seq<nat>)
    ensures forall x: nat :: x in result <==> x < |devices| && devices[x].id in visible
    ensures InRange(result, devices)
  {
    if visible == [] then [] else
    var n := |visible| - 1;
    assert visible == visible[..n] + [visible[n]];
    EnumeratedIndices(devices, visible[..n]) + IdIndices(devices, visible[n], |devices|)
  }

  /** The first enumeration of the vendor. */
  function Observed(devices: seq<Device>, vendor: Vendor, runtime: seq<RuntimeVisibility>): (r: Option<seq<nat>>)
    ensures r.Some? ==> InRange(r.value, devices)
  {
    if runtime == [] then None
    else if runtime[0].vendor == vendor then Some(EnumeratedIndices(devices, runtime[0].visible))
    else Observed(devices, vendor, runtime[1..])
  }

  /** The selection in force: the environment's, else the runtime enumeration, else none. */
  function Effective(devices: seq<Device>, vendor: Vendor, env: Environment, runtime: seq<RuntimeVisibility>)
    : Option<seq<nat>>
  {
    var observed := Observed(devices, vendor, runtime);
    var selection := Selection(devices, vendor, observed.GetOr(Candidates(devices, vendor)), env, observed.Some?);
    if selection.Some? then selection else observed
  }

  predicate HasChildren(devices: seq<Device>, parent: Device) {
    parent.uuid.Some? && exists j | 0 <= j < |devices| :: devices[j].parentUuid == parent.uuid
  }

  predicate ViaParent(devices: seq<Device>, selected: seq<nat>, device: Device) {
    device.parentUuid.Some? &&
    exists k | 0 <= k < |selected| :: selected[k] < |devices| && devices[selected[k]].uuid == device.parentUuid
  }

  /** Visible under a selection: chosen itself or through its MIG parent, and not a parent of instances. */
  predicate VisibleUnder(devices: seq<Device>, selected: seq<nat>, i: nat)
    requires i < |devices|
  {
    (i in selected || ViaParent(devices, selected, devices[i])) && !HasChildren(devices, devices[i])
  }

  /** Visible before any selection: the recorded IDs count only without selection variables. */
  predicate InitiallyVisible(devices: seq<Device>, hasEnvironment: bool, legacyIds: seq<nat>, i: nat)
    requires i < |devices|
  {
    !HasChildren(devices, devices[i]) && (hasEnvironment || legacyIds == [] || devices[i].id in legacyIds)
  }

  /** The flag every device must end with. */
  predicate FinallyVisible(devices: seq<Device>, env: Environment, legacyIds: seq<nat>,
                           runtime: seq<RuntimeVisibility>, i: nat)
    requires i < |devices|
  {
    var vendor := devices[i].vendor;
    var selected := if vendor.OtherVendor? then None else Effective(devices, vendor, env, runtime);
    if selected.Some? then VisibleUnder(devices, selected.value, i)
    else InitiallyVisible(devices, env.HasSelection(), legacyIds, i)
  }

  function VisibleIds(devices: seq<Device>): (ids: seq<nat>) {
    if devices == [] then [] else
    var last := devices[|devices| - 1];
    VisibleIds(devices[..|devices| - 1]) + if last.visible then [last.id] else []
  }

  // ----- The order ordinals count in -----

  /** Candidates come by ascending ID. */
  lemma CandidatesAscend(devices: seq<Device>, vendor: Vendor)
    ensures var c := Candidates(devices, vendor);
      forall i, j | 0 <= i < j < |c| :: devices[c[i]].id <= devices[c[j]].id
  {
    var c, key := Candidates(devices, vendor), IdKey(devices);
    SortedOrdered(VendorIndices(devices, vendor, |devices|), key);
    forall i, j | 0 <= i < j < |c|
      ensures devices[c[i]].id <= devices[c[j]].id
    {
      assert key(c[i]) <= key(c[j]);
    }
  }

  lemma {:induction false} IdIndicesAscend(devices: seq<Device>, id: nat, n: nat)
    requires n <= |devices|
    ensures Increasing(IdIndices(devices, id, n))
  {
    if n > 0 {
      IdIndicesAscend(devices, id, n - 1);
      if devices[n - 1].id == id {
        IncreasingSnoc(IdIndices(devices, id, n - 1), n - 1);
      }
    }
  }

  /** Entry i of the result is a device enumerated at at[i]; first by place, then by device. */
  ghost predicate Places(devices: seq<Device>, visible: seq<nat>, result: seq<nat>, at: seq<nat>) {
    && |at| == |result|
    && (forall i | 0 <= i < |at| :: at[i] < |visible| && result[i] < |devices|
          && visible[at[i]] == devices[result[i]].id)
    && (forall i, j | 0 <= i < j < |at| :: at[i] < at[j] || (at[i] == at[j] && result[i] < result[j]))
  }

  ghost predicate Placed(result: seq<nat>, at: seq<nat>, k: nat, x: nat)
    requires |at| == |result|
  {
    exists i :: 0 <= i < |at| && at[i] == k && result[i] == x
  }

  /** Every device comes for each place its ID is enumerated at. */
  ghost predicate PlacesAll(devices: seq<Device>, visible: seq<nat>, result: seq<nat>, at: seq<nat>)
    requires |at| == |result|
  {
    forall k: nat, x: nat | k < |visible| && x < |devices| && devices[x].id == visible[k] :: Placed(result, at, k, x)
  }

  lemma PlacesAppend(devices: seq<Device>, visible: seq<nat>, id: nat, front: seq<nat>, at: seq<nat>, last: seq<nat>)
    requires Places(devices, visible, front, at) && Increasing(last)
    requires forall x | x in last :: x < |devices| && devices[x].id == id
    ensures Places(devices, visible + [id], front + last, at + seq(|last|, i => |visible|))
  {
    var more := seq(|last|, i => |visible|);
    assert forall i | 0 <= i < |last| :: more[i] == |visible| && last[i] in last;
  }

  lemma PlacesAllAppend(devices: seq<Device>, visible: seq<nat>, id: nat, front: seq<nat>, at: seq<nat>, last: seq<nat>)
    requires |at| == |front| && PlacesAll(devices, visible, front, at)
    requires forall x: nat | x < |devices| && devices[x].id == id :: x in last
    ensures PlacesAll(devices, visible + [id], front + last, at + seq(|last|, i => |visible|))
  {
    var result, all := front + last, at + seq(|last|, i => |visible|);
    forall k: nat, x: nat | k <= |visible| && x < |devices| && devices[x].id == (visible + [id])[k]
      ensures Placed(result, all, k, x)
    {
      if k < |visible| {
        assert Placed(front, at, k, x);
        var i :| 0 <= i < |at| && at[i] == k && front[i] == x;
        assert all[i] == k && result[i] == x;
      } else {
        var i :| 0 <= i < |last| && last[i] == x;
        assert all[|front| + i] == k && result[|front| + i] == x;
      }
    }
  }

  /**
    Enumerated devices come in the order of the enumeration, those of one ID in their own order, and each
    once for each time its ID is enumerated.
   */
  lemma {:induction false} EnumerationInOrder(devices: seq<Device>, visible: seq<nat>) returns (at: seq<nat>)
    ensures Places(devices, visible, EnumeratedIndices(devices, visible), at)
    ensures PlacesAll(devices, visible, EnumeratedIndices(devices, visible), at)
  {
    at := [];
    if visible != [] {
      var n := |visible| - 1;
      var front, last := EnumeratedIndices(devices, visible[..n]), IdIndices(devices, visible[n], |devices|);
      at := EnumerationInOrder(devices, visible[..n]);
      IdIndicesAscend(devices, visible[n], |devices|);
      PlacesAppend(devices, visible[..n], visible[n], front, at, last);
      PlacesAllAppend(devices, visible[..n], visible[n], front, at, last);
      assert visible == visible[..n] + [visible[n]];
      at := at + seq(|last|, i => n);
    }
  }

  // ----- Flags do not influence selections -----

  ghost predicate SameFact(a: Device, b: Device) {
    a == b.(visible := a.visible)
  }

  /** Two device lists that differ in visibility flags only. */
  ghost predicate SameFacts(a: seq<Device>, b: seq<Device>) {
    |a| == |b| && forall i | 0 <= i < |a| :: SameFact(a[i], b[i])
  }

  lemma {:induction false} WithIdSame(a: seq<Device>, b: seq<Device>, pool: seq<nat>, number: nat)
    requires SameFacts(a, b) && InRange(pool, a)
    ensures InRange(pool, b) && WithId(a, pool, number) == WithId(b, pool, number)
  {
    if pool != [] {
      var n := |pool| - 1;
      assert pool == pool[..n] + [pool[n]];
      WithIdSame(a, b, pool[..n], number);
      assert SameFact(a[pool[n]], b[pool[n]]);
    }
  }

  lemma {:induction false} WithUuidSame(a: seq<Device>, b: seq<Device>, pool: seq<nat>, token: string)
    requires SameFacts(a, b) && InRange(pool, a)
    ensures InRange(pool, b) && WithUuid(a, pool, token) == WithUuid(b, pool, token)
  {
    if pool != [] {
      var n := |pool| - 1;
      assert pool == pool[..n] + [pool[n]];
      WithUuidSame(a, b, pool[..n], token);
      assert SameFact(a[pool[n]], b[pool[n]]);
      assert MatchesUuid(a[pool[n]], token) == MatchesUuid(b[pool[n]], token);
    }
  }

  lemma {:induction false} PhysicalSame(a: seq<Device>, b: seq<Device>, candidates: seq<nat>)
    requires SameFacts(a, b) && InRange(candidates, a)
    ensures InRange(candidates, b) && PhysicalOnly(a, candidates) == PhysicalOnly(b, candidates)
  {
    if candidates != [] {
      var n := |candidates| - 1;
      assert candidates == candidates[..n] + [candidates[n]];
      PhysicalSame(a, b, candidates[..n]);
      assert SameFact(a[candidates[n]], b[candidates[n]]);
    }
  }

  lemma OutcomeSame(p: Pools, q: Pools, token: string)
    requires SameFacts(p.devices, q.devices) && q == p.(devices := q.devices)
    ensures TokenOutcome(p, token) == TokenOutcome(q, token)
  {
    forall number ensures WithId(p.devices, p.ordinals, number) == WithId(q.devices, p.ordinals, number) {
      WithIdSame(p.devices, q.devices, p.ordinals, number);
    }
    WithUuidSame(p.devices, q.devices, p.uuids, token);
    assert Matches(p, token) == Matches(q, token);
  }

  lemma ReadingSame(f: Reading, g: Reading, value: string)
    requires forall token :: f(token) == g(token)
    ensures SelectedBy(f, value) == SelectedBy(g, value)
  {
    assert Outcomes(f, Tokens(value)) == Outcomes(g, Tokens(value));
  }

  lemma SelectedSame(p: Pools, q: Pools, value: string)
    requires SameFacts(p.devices, q.devices) && q == p.(devices := q.devices)
    ensures Selected(p, value) == Selected(q, value)
  {
    var f, g := TokenReading(p), TokenReading(q);
    forall token ensures f(token) == g(token) {
      OutcomeSame(p, q, token);
      assert f(token) == TokenOutcome(p, token) && g(token) == TokenOutcome(q, token);
    }
    ReadingSame(f, g, value);
  }

  lemma NarrowedSame(a: seq<Device>, b: seq<Device>, current: seq<nat>, value: Option<string>)
    requires SameFacts(a, b) && InRange(current, a)
    ensures InRange(current, b) && Narrowed(a, current, value) == Narrowed(b, current, value)
  {
    if value.Some? {
      SelectedSame(PlainPools(a, current), PlainPools(b, current), value.value);
    }
  }

  lemma {:induction false} InsertSame(q: seq<nat>, x: nat, k: nat -> nat, l: nat -> nat)
    requires forall x :: k(x) == l(x)
    ensures Inserted(q, x, k) == Inserted(q, x, l)
  {
    if q != [] && k(q[|q| - 1]) > k(x) {
      InsertSame(q[..|q| - 1], x, k, l);
    }
  }

  lemma {:induction false} KeySame(q: seq<nat>, k: nat -> nat, l: nat -> nat)
    requires forall x :: k(x) == l(x)
    ensures SortedByKey(q, k) == SortedByKey(q, l)
  {
    if q != [] {
      KeySame(q[..|q| - 1], k, l);
      InsertSame(SortedByKey(q[..|q| - 1], k), q[|q| - 1], k, l);
    }
  }

  lemma CudaOrdinalsSame(a: seq<Device>, b: seq<Device>, candidates: seq<nat>, pciOrder: bool)
    requires SameFacts(a, b) && InRange(candidates, a)
    ensures InRange(candidates, b) && CudaOrdinals(a, candidates, pciOrder) == CudaOrdinals(b, candidates, pciOrder)
  {
    PhysicalSame(a, b, candidates);
    var k, l := PciKey(a), PciKey(b);
    forall x: nat ensures k(x) == l(x) {
      assert x < |a| ==> SameFact(a[x], b[x]);
    }
    KeySame(PhysicalOnly(a, candidates), k, l);
  }

  /** No environment selection reads a visibility flag. */
  lemma SelectionIgnoresFlags(a: seq<Device>, b: seq<Device>, vendor: Vendor, candidates: seq<nat>, env: Environment,
                              runtimeKnown: bool)
    requires SameFacts(a, b) && InRange(candidates, a)
    ensures InRange(candidates, b)
    ensures Selection(a, vendor, candidates, env, runtimeKnown) == Selection(b, vendor, candidates, env, runtimeKnown)
  {
    match vendor
    case Nvidia =>
      CudaOrdinalsSame(a, b, candidates, env.pciOrder);
      if env.cuda.Some? {
        SelectedSame(CudaPools(a, candidates, env.pciOrder), CudaPools(b, candidates, env.pciOrder), env.cuda.value);
      }
    case Amd =>
      NarrowedSame(a, b, candidates, env.rocr);
      NarrowedWithin(a, candidates, env.rocr);
      NarrowedSame(a, b, Narrowed(a, candidates, env.rocr), env.hip);
    case Intel =>
      NarrowedSame(a, b, candidates, UsableMask(env, runtimeKnown));
    case OtherVendor(_) =>
  }

  lemma {:induction false} VendorIndicesSame(a: seq<Device>, b: seq<Device>, vendor: Vendor, n: nat)
    requires SameFacts(a, b) && n <= |a|
    ensures VendorIndices(a, vendor, n) == VendorIndices(b, vendor, n)
  {
    if n > 0 {
      VendorIndicesSame(a, b, vendor, n - 1);
      assert SameFact(a[n - 1], b[n - 1]);
    }
  }

  lemma CandidatesSame(a: seq<Device>, b: seq<Device>, vendor: Vendor)
    requires SameFacts(a, b)
    ensures Candidates(a, vendor) == Candidates(b, vendor)
  {
    VendorIndicesSame(a, b, vendor, |a|);
    var k, l := IdKey(a), IdKey(b);
    forall x: nat ensures k(x) == l(x) {
      assert x < |a| ==> SameFact(a[x], b[x]);
    }
    KeySame(VendorIndices(a, vendor, |a|), k, l);
  }

  lemma {:induction false} IdIndicesSame(a: seq<Device>, b: seq<Device>, id: nat, n: nat)
    requires SameFacts(a, b) && n <= |a|
    ensures IdIndices(a, id, n) == IdIndices(b, id, n)
  {
    if n > 0 {
      IdIndicesSame(a, b, id, n - 1);
      assert SameFact(a[n - 1], b[n - 1]);
    }
  }

  lemma {:induction false} EnumeratedSame(a: seq<Device>, b: seq<Device>, visible: seq<nat>)
    requires SameFacts(a, b)
    ensures EnumeratedIndices(a, visible) == EnumeratedIndices(b, visible)
  {
    if visible != [] {
      EnumeratedSame(a, b, visible[..|visible| - 1]);
      IdIndicesSame(a, b, visible[|visible| - 1], |a|);
    }
  }

  lemma {:induction false} ObservedSame(a: seq<Device>, b: seq<Device>, vendor: Vendor, runtime: seq<RuntimeVisibility>)
    requires SameFacts(a, b)
    ensures Observed(a, vendor, runtime) == Observed(b, vendor, runtime)
  {
    if runtime != [] {
      EnumeratedSame(a, b, runtime[0].visible);
      ObservedSame(a, b, vendor, runtime[1..]);
    }
  }

  lemma EffectiveIgnoresFlags(a: seq<Device>, b: seq<Device>, vendor: Vendor, env: Environment,
                              runtime: seq<RuntimeVisibility>)
    requires SameFacts(a, b)
    ensures Effective(a, vendor, env, runtime) == Effective(b, vendor, env, runtime)
  {
    ObservedSame(a, b, vendor, runtime);
    CandidatesSame(a, b, vendor);
    var observed := Observed(a, vendor, runtime);
    SelectionIgnoresFlags(a, b, vendor, observed.GetOr(Candidates(a, vendor)), env, observed.Some?);
  }

  lemma HasChildrenIgnoresFlags(a: seq<Device>, b: seq<Device>, i: nat)
    requires SameFacts(a, b) && i < |a|
    ensures HasChildren(a, a[i]) == HasChildren(b, b[i])
  {
    assert SameFact(a[i], b[i]);
    assert forall j | 0 <= j < |a| :: SameFact(a[j], b[j]);
  }

  lemma VisibleUnderIgnoresFlags(a: seq<Device>, b: seq<Device>, selected: seq<nat>, i: nat)
    requires SameFacts(a, b) && i < |a|
    ensures VisibleUnder(a, selected, i) == VisibleUnder(b, selected, i)
  {
    HasChildrenIgnoresFlags(a, b, i);
    assert SameFact(a[i], b[i]);
    assert forall j | 0 <= j < |a| :: SameFact(a[j], b[j]);
  }
}
