/** What EDAC association and the fallback inventory establish about the DIMM list. */
module EdacAssociation {
  import opened Options
  import opened Counting
  import opened Sorting
  import opened Edac

  // ----- Association -----

  /** Attaching never changes what matching looks at. */
  ghost predicate SameSlots(a: seq<DimmInfo>, b: seq<DimmInfo>) {
    |a| == |b| && forall i | 0 <= i < |a| ::
      a[i].present == b[i].present && a[i].locator == b[i].locator && a[i].size == b[i].size
  }

  lemma {:induction false} SlotsKept(turns: seq<Device>, all: seq<Device>, dimms: seq<DimmInfo>)
    ensures SameSlots(Associated(turns, all, dimms), dimms)
  {
    if turns != [] {
      SlotsKept(turns[..|turns| - 1], all, dimms);
    }
  }

  lemma SameCounts(a: seq<DimmInfo>, b: seq<DimmInfo>, d: Device)
    requires SameSlots(a, b)
    ensures CountIf(a, MatchesDimm(d)) == CountIf(b, MatchesDimm(d))
  {
    CountIfSame(a, b, MatchesDimm(d));
  }

  /** A device's turn attaches it to i exactly when the two are each other's only match. */
  lemma StepExact(before: seq<DimmInfo>, all: seq<Device>, dimms: seq<DimmInfo>, d: Device, i: nat)
    requires SameSlots(before, dimms) && i < |dimms| && d in all
    ensures AttachStep(before, all, d)[i] == if Attaches(all, dimms, d, i) then Attached(before[i], d) else before[i]
  {
    SameCounts(before, dimms, d);
    var first := FirstIndex(before, MatchesDimm(d));
    var k :| 0 <= k < |all| && all[k] == d;
    if Eligible(d) {
      CountIfOne(all, MatchesEdac(d), k);
      if first < |before| {
        CountIfOne(dimms, MatchesDimm(d), first);
      }
      if MatchesDimm(d)(dimms[i]) {
        CountIfOne(dimms, MatchesDimm(d), i);
        assert MatchesDimm(d)(before[i]);
      }
    }
  }

  lemma AssociatedStep(all: seq<Device>, dimms: seq<DimmInfo>, n: nat, i: nat)
    requires n < |all| && i < |dimms|
    ensures var before := Associated(all[..n], all, dimms)[i];
      Associated(all[..n + 1], all, dimms)[i] ==
        if Attaches(all, dimms, all[n], i) then Attached(before, all[n]) else before
  {
    assert all[..n + 1][..n] == all[..n];
    SlotsKept(all[..n], all, dimms);
    StepExact(Associated(all[..n], all, dimms), all, dimms, all[n], i);
  }

  /** Association is a partial injection: one device per DIMM. */
  lemma OneDevicePerDimm(all: seq<Device>, dimms: seq<DimmInfo>, i: nat, k: nat, l: nat)
    requires i < |dimms| && k < |all| && l < |all|
    requires Attaches(all, dimms, all[k], i) && Attaches(all, dimms, all[l], i)
    ensures k == l
  {
    assert MatchesEdac(all[k])(all[l]);
    assert MatchesEdac(all[k])(all[k]);
  }

  /** Two turns never attach to one DIMM, so the first device to attach stays. */
  lemma {:induction false} AssociatedExact(all: seq<Device>, dimms: seq<DimmInfo>, n: nat, i: nat)
    requires n <= |all| && i < |dimms|
    ensures forall k | 0 <= k < n && Attaches(all, dimms, all[k], i) ::
              Associated(all[..n], all, dimms)[i] == Attached(dimms[i], all[k])
    ensures (forall k | 0 <= k < n :: !Attaches(all, dimms, all[k], i)) ==>
              Associated(all[..n], all, dimms)[i] == dimms[i]
  {
    if n > 0 {
      AssociatedExact(all, dimms, n - 1, i);
      AssociatedStep(all, dimms, n - 1, i);
      if Attaches(all, dimms, all[n - 1], i) {
        forall k: nat | k < n - 1
          ensures !Attaches(all, dimms, all[k], i)
        {
          if Attaches(all, dimms, all[k], i) {
            OneDevicePerDimm(all, dimms, i, k, n - 1);
          }
        }
      }
    }
  }

  /**
    After the loop every DIMM holds the data of the one device that is its only match on label and
    capacity, and whose only match it is; a DIMM without such a device is unchanged.
   */
  lemma AssociationExact(all: seq<Device>, dimms: seq<DimmInfo>, i: nat)
    requires i < |dimms|
    ensures forall k | 0 <= k < |all| && Attaches(all, dimms, all[k], i) ::
              Associated(all, all, dimms)[i] == Attached(dimms[i], all[k])
    ensures (forall k | 0 <= k < |all| :: !Attaches(all, dimms, all[k], i)) ==>
              Associated(all, all, dimms)[i] == dimms[i]
    ensures forall k, l | 0 <= k < |all| && 0 <= l < |all|
              && Attaches(all, dimms, all[k], i) && Attaches(all, dimms, all[l], i) ::
              k == l
    ensures forall k, j | 0 <= k < |all| && 0 <= j < |dimms|
              && Attaches(all, dimms, all[k], i) && Attaches(all, dimms, all[k], j) ::
              i == j
  {
    assert all[..|all|] == all;
    AssociatedExact(all, dimms, |all|, i);
    forall k: nat, l: nat | k < |all| && l < |all| && Attaches(all, dimms, all[k], i) && Attaches(all, dimms, all[l], i)
      ensures k == l
    {
      OneDevicePerDimm(all, dimms, i, k, l);
    }
  }

  /**
    Two associated DIMMs carry the data of two devices, and record one identity exactly when those two
    devices report one.
   */
  lemma OneDimmPerDevice(all: seq<Device>, dimms: seq<DimmInfo>, i: nat, j: nat, k: nat, l: nat)
    requires i < |dimms| && j < |dimms| && i != j && k < |all| && l < |all|
    requires Attaches(all, dimms, all[k], i) && Attaches(all, dimms, all[l], j)
    ensures k != l
    ensures var x, y := Associated(all, all, dimms)[i], Associated(all, all, dimms)[j];
      && x.association == LabelAndCapacity && y.association == LabelAndCapacity
      && (x.controller == y.controller && x.edacIndex == y.edacIndex
          <==> all[k].controller == all[l].controller && all[k].index == all[l].index)
  {
    AssociationExact(all, dimms, i);
    AssociationExact(all, dimms, j);
  }

  lemma AttachesIgnoresOrder(all: seq<Device>, other: seq<Device>, dimms: seq<DimmInfo>, d: Device, i: nat)
    requires multiset(all) == multiset(other) && i < |dimms| && d in all
    ensures d in other && (Attaches(all, dimms, d, i) <==> Attaches(other, dimms, d, i))
  {
    assert d in multiset(other);
    var k :| 0 <= k < |all| && all[k] == d;
    var l :| 0 <= l < |other| && other[l] == d;
    CountIfPermuted(all, other, MatchesEdac(d));
    if Eligible(d) {
      CountIfOne(all, MatchesEdac(d), k);
      CountIfOne(other, MatchesEdac(d), l);
    }
  }

  /** The order of the devices is irrelevant: how the sort breaks ties cannot change the DIMM list. */
  lemma AssociationIgnoresOrder(all: seq<Device>, other: seq<Device>, dimms: seq<DimmInfo>)
    requires multiset(all) == multiset(other)
    ensures Associated(all, all, dimms) == Associated(other, other, dimms)
  {
    forall i: nat | i < |dimms|
      ensures Associated(all, all, dimms)[i] == Associated(other, other, dimms)[i]
    {
      AssociationExact(all, dimms, i);
      AssociationExact(other, dimms, i);
      forall d | d in all
        ensures d in other && (Attaches(all, dimms, d, i) <==> Attaches(other, dimms, d, i))
      {
        AttachesIgnoresOrder(all, other, dimms, d, i);
      }
      forall d | d in other
        ensures d in all
      {
        assert d in multiset(all);
      }
    }
  }

  /** Label and capacity of a DIMM-kind device with a label and a size agree with those of a present DIMM. */
  ghost predicate Pairs(d: Device, m: DimmInfo) {
    && d.kind == Dimm && d.slotLabel != [] && d.size != Some(0)
    && m.present && m.locator == d.slotLabel && d.size == Some(m.size)
  }

  /** The device at k pairs with the DIMM at i only, and no other DIMM-kind device has its label and size. */
  ghost predicate OnlyPair(all: seq<Device>, dimms: seq<DimmInfo>, k: nat, i: nat) {
    && k < |all| && i < |dimms| && Pairs(all[k], dimms[i])
    && (forall j | 0 <= j < |dimms| && Pairs(all[k], dimms[j]) :: j == i)
    && forall l | 0 <= l < |all| && all[l].kind == Dimm && all[l].slotLabel == all[k].slotLabel
                  && all[l].size == all[k].size ::
         l == k
  }

  lemma AttachesExact(all: seq<Device>, dimms: seq<DimmInfo>, k: nat, i: nat)
    requires k < |all| && i < |dimms|
    ensures Attaches(all, dimms, all[k], i) <==> OnlyPair(all, dimms, k, i)
  {
    var d := all[k];
    assert Eligible(d) ==> MatchesEdac(d)(all[k]);
    forall j | 0 <= j < |dimms|
      ensures Pairs(d, dimms[j]) <==> Eligible(d) && MatchesDimm(d)(dimms[j])
    {
    }
  }

  /**
    After the loop a DIMM that is the only pair of a device has that device's mode, width and identity and
    all its own other data; every other DIMM is unchanged.
   */
  lemma AssociatedFields(all: seq<Device>, dimms: seq<DimmInfo>, i: nat)
    requires i < |dimms|
    ensures var m, after := dimms[i], Associated(all, all, dimms)[i];
      && (forall k: nat | OnlyPair(all, dimms, k, i) ::
            after == DimmInfo(m.locator, m.bankLocator, m.size, m.present, m.memoryType, all[k].edacMode,
                              all[k].deviceWidth, Some(all[k].controller), Some(all[k].index), LabelAndCapacity))
      && ((forall k: nat :: !OnlyPair(all, dimms, k, i)) ==> after == m)
  {
    AssociationExact(all, dimms, i);
    forall k: nat | k < |all|
      ensures Attaches(all, dimms, all[k], i) <==> OnlyPair(all, dimms, k, i)
    {
      AttachesExact(all, dimms, k, i);
    }
  }

  // ----- Fallback -----

  lemma {:induction false} InventoryExact(devices: seq<Device>)
    ensures |InventoryDimms(devices)| == CountIf(devices, IsSizedDimm)
    ensures forall m :: m in InventoryDimms(devices) <==>
              exists d :: d in devices && IsSizedDimm(d) && m == InventoryDimm(d)
  {
    if devices != [] {
      var n := |devices| - 1;
      InventoryExact(devices[..n]);
      assert devices == devices[..n] + [devices[n]];
      forall m
        ensures m in InventoryDimms(devices) <==> exists d :: d in devices && IsSizedDimm(d) && m == InventoryDimm(d)
      {
        assert m in InventoryDimms(devices) <==>
               m in InventoryDimms(devices[..n]) || (IsSizedDimm(devices[n]) && m == InventoryDimm(devices[n]));
      }
    }
  }

  /** Where a fallback DIMM stands in the order of devices. */
  ghost function DimmKey(m: DimmInfo): nat {
    m.controller.GetOr(0) * 0x1_0000_0000 + m.edacIndex.GetOr(0)
  }

  lemma DimmKeyExact(d: Device, e: Device)
    requires IsSizedDimm(d) && IsSizedDimm(e)
    ensures DimmKey(InventoryDimm(d)) <= DimmKey(InventoryDimm(e)) <==> DeviceKey(d) <= DeviceKey(e)
  {
  }

  lemma {:induction false} InventoryOrdered(devices: seq<Device>)
    requires Ordered(devices, DeviceKey)
    ensures Ordered(InventoryDimms(devices), DimmKey)
  {
    if devices != [] {
      var n := |devices| - 1;
      InventoryOrdered(devices[..n]);
      InventoryExact(devices[..n]);
      if IsSizedDimm(devices[n]) {
        forall m | m in InventoryDimms(devices[..n])
          ensures DimmKey(m) <= DimmKey(InventoryDimm(devices[n]))
        {
          var d :| d in devices[..n] && IsSizedDimm(d) && m == InventoryDimm(d);
          DimmKeyExact(d, devices[n]);
        }
        OrderedSnoc(InventoryDimms(devices[..n]), InventoryDimm(devices[n]), DimmKey);
      }
    }
  }

  /** The fallback inventory holds one DIMM per sized device of DIMM kind, by controller and then index. */
  lemma FallbackExact(grouped: seq<Device>)
    ensures var dimms := InventoryDimms(SortedByKey(grouped, DeviceKey));
      && |dimms| == CountIf(grouped, IsSizedDimm)
      && (forall m :: m in dimms <==> exists d :: d in grouped && IsSizedDimm(d) && m == InventoryDimm(d))
      && Ordered(dimms, DimmKey)
  {
    var devices := SortedByKey(grouped, DeviceKey);
    InventoryExact(devices);
    CountIfPermuted(devices, grouped, IsSizedDimm);
    SortedOrdered(grouped, DeviceKey);
    InventoryOrdered(devices);
    forall d
      ensures d in devices <==> d in grouped
    {
      assert d in devices <==> d in multiset(devices);
      assert d in grouped <==> d in multiset(grouped);
    }
  }

  /** The DIMM a fallback inventory holds for a device, present exactly with a size above zero. */
  ghost predicate StandsFor(m: DimmInfo, d: Device) {
    && d.kind == Dimm && d.size == Some(m.size)
    && m == DimmInfo(d.slotLabel, d.location, m.size, m.size > 0, d.memoryType, d.edacMode, d.deviceWidth,
                     Some(d.controller), Some(d.index), EdacInventory)
  }

  /** The fallback inventory holds exactly the DIMMs of the sized DIMM-kind devices. */
  lemma FallbackFields(grouped: seq<Device>, m: DimmInfo)
    ensures m in InventoryDimms(SortedByKey(grouped, DeviceKey)) <==> exists d :: d in grouped && StandsFor(m, d)
  {
    FallbackExact(grouped);
    forall d
      ensures StandsFor(m, d) <==> IsSizedDimm(d) && m == InventoryDimm(d)
    {
    }
  }

  // ----- Memory type -----

  ghost function ReportedTypes(before: string, devices: seq<Device>): set<string> {
    if devices == [] then if before == [] then {} else {before} else
    var d := devices[|devices| - 1];
    ReportedTypes(before, devices[..|devices| - 1]) +
    if d.kind == Dimm && d.size.Some? && d.size.value > 0 && d.memoryType != [] then {d.memoryType} else {}
  }

  /** Nothing, the one type all sources agree on, or "mixed". */
  ghost predicate Summarizes(t: string, types: set<string>) {
    && [] !in types
    && (types == {} <==> t == [])
    && (forall x | types == {x} :: t == x)
    && (forall x, y | x in types && y in types && x != y :: t == "mixed")
  }

  lemma JoinedSummarizes(before: string, t: string, types: set<string>)
    requires Summarizes(before, types) && t != []
    ensures Summarizes(JoinedType(before, t), types + {t})
  {
    if types != {} {
      var x :| x in types;
      if forall y | y in types :: y == x {
        assert types == {x};
      }
    }
  }

  lemma {:induction false} TypeExact(before: string, devices: seq<Device>)
    ensures Summarizes(FoldedType(before, devices), ReportedTypes(before, devices))
  {
    if devices != [] {
      var n := |devices| - 1;
      TypeExact(before, devices[..n]);
      if ReportsType(devices[n]) {
        JoinedSummarizes(FoldedType(before, devices[..n]), devices[n].memoryType, ReportedTypes(before, devices[..n]));
      }
    }
  }
}
