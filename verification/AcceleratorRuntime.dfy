/**
  Complete runtime enumerations mapped onto the inventory, all or nothing: uuid_hex and
  parse_accelerator_runtime_visibility of src/parser/accelerator.cpp.
 */
module AcceleratorRuntime {
  import opened Options
  import opened PciAddresses
  import opened AcceleratorModel
  import opened CsvSelection
  import opened SyclSelection
  import opened EnvironmentSelection
  import opened AcceleratorVisibility
  import opened AcceleratorResolver

  /** One decoded entry of a runtime report; its address may be missing or malformed. */
  datatype Entry = NotAnObject | Entry(pci: Option<PciAddress>, uuidHex: string)

  /** A runtime record; readable when collected and decoded to an object with a device array. */
  datatype RuntimeRecord = RuntimeRecord(readable: bool, vendor: Option<Vendor>, entries: seq<Entry>)

  function WithoutDashes(s: string): string {
    if s == [] then [] else
    WithoutDashes(s[..|s| - 1]) + if s[|s| - 1] == '-' then [] else [s[|s| - 1]]
  }

  /** The 32 hexadecimal digits of a device UUID, empty for any other form. */
  function UuidHex(value: string): string {
    var bare := if IsUuid(value) then value[4..] else value;
    if '/' in bare then [] else
    var hex := Lowered(WithoutDashes(bare));
    if |hex| == 32 then hex else []
  }

  predicate MatchesEntry(device: Device, vendor: Vendor, entry: Entry) {
    && device.vendor == vendor
    && entry.Entry?
    && if vendor == Nvidia then device.uuid.Some? && UuidHex(device.uuid.value) == entry.uuidHex
       else entry.pci.Some? && device.pci == entry.pci
  }

  predicate Usable(entry: Entry) {
    entry.Entry? && entry.pci.Some?
  }

  /** IDs of the first n devices that match an entry. */
  function MatchedIds(devices: seq<Device>, vendor: Vendor, entry: Entry, n: nat): seq<nat>
    requires n <= |devices|
  {
    if n == 0 then [] else
    MatchedIds(devices, vendor, entry, n - 1) +
    if MatchesEntry(devices[n - 1], vendor, entry) then [devices[n - 1].id] else []
  }

  /** The IDs an entry stands for; nothing when it is unusable or unknown to the inventory. */
  function EntryIds(devices: seq<Device>, vendor: Vendor, entry: Entry): Option<seq<nat>> {
    var ids := MatchedIds(devices, vendor, entry, |devices|);
    if !Usable(entry) || ids == [] then None else Some(ids)
  }

  type EntryReading = Entry -> Option<seq<nat>>

  function ReadEntry(devices: seq<Device>, vendor: Vendor): EntryReading {
    entry => EntryIds(devices, vendor, entry)
  }

  /** The IDs of all entries in order; nothing when one cannot be mapped. */
  function Gather(read: EntryReading, entries: seq<Entry>): Option<seq<nat>> {
    if entries == [] then Some([]) else
    var before, ids := Gather(read, entries[..|entries| - 1]), read(entries[|entries| - 1]);
    if before.None? || ids.None? then None else Some(before.value + ids.value)
  }

  function MappedIds(devices: seq<Device>, vendor: Vendor, entries: seq<Entry>): Option<seq<nat>> {
    Gather(ReadEntry(devices, vendor), entries)
  }

  function Mapped(devices: seq<Device>, record: RuntimeRecord): Option<RuntimeVisibility> {
    if !record.readable || record.vendor.None? then None else
    var ids := MappedIds(devices, record.vendor.value, record.entries);
    if ids.None? then None else Some(RuntimeVisibility.RuntimeVisibility(record.vendor.value, ids.value))
  }

  function AllMapped(devices: seq<Device>, records: seq<RuntimeRecord>): seq<RuntimeVisibility> {
    if records == [] then [] else
    var last := Mapped(devices, records[|records| - 1]);
    AllMapped(devices, records[..|records| - 1]) + if last.Some? then [last.value] else []
  }

  lemma {:induction false} UnmappedPrefix(read: EntryReading, entries: seq<Entry>, k: nat)
    requires k < |entries| && read(entries[k]).None?
    ensures Gather(read, entries).None?
  {
    if k < |entries| - 1 {
      UnmappedPrefix(read, entries[..|entries| - 1], k);
    }
  }

  lemma MatchedStep(devices: seq<Device>, vendor: Vendor, entry: Entry, k: nat, matches: bool)
    requires k < |devices| && matches == MatchesEntry(devices[k], vendor, entry)
    ensures MatchedIds(devices, vendor, entry, k + 1)
            == MatchedIds(devices, vendor, entry, k) + if matches then [devices[k].id] else []
  {
  }

  method MatchEntry(devices: seq<Device>, vendor: Vendor, entry: Entry, visible: seq<nat>)
    returns (result: seq<nat>, matched: bool)
    ensures var ids := MatchedIds(devices, vendor, entry, |devices|);
      result == visible + ids && matched == (ids != [])
  {
    result, matched := visible, false;
    for k := 0 to |devices|
      invariant result == visible + MatchedIds(devices, vendor, entry, k)
      invariant matched == (MatchedIds(devices, vendor, entry, k) != [])
    {
      var matches := MatchesEntry(devices[k], vendor, entry);
      MatchedStep(devices, vendor, entry, k, matches);
      if matches {
        result := result + [devices[k].id];
        matched := true;
      }
    }
  }

  /** One record: first every entry must be usable, then every entry must match a device. */
  method MapRecord(devices: seq<Device>, vendor: Vendor, entries: seq<Entry>)
    returns (visible: seq<nat>, complete: bool)
    ensures complete <==> MappedIds(devices, vendor, entries).Some?
    ensures complete ==> visible == MappedIds(devices, vendor, entries).value
  {
    visible, complete := [], true;
    ghost var read := ReadEntry(devices, vendor);
    for i := 0 to |entries|
      invariant complete && forall j | 0 <= j < i :: Usable(entries[j])
    {
      if !Usable(entries[i]) {
        UnmappedPrefix(read, entries, i);
        return [], false;
      }
    }
    for i := 0 to |entries|
      invariant complete && Gather(read, entries[..i]) == Some(visible)
    {
      var matched;
      visible, matched := MatchEntry(devices, vendor, entries[i], visible);
      assert read(entries[i]) == EntryIds(devices, vendor, entries[i]);
      if !matched {
        UnmappedPrefix(read, entries, i);
        return visible, false;
      }
      assert entries[..i + 1][..i] == entries[..i];
    }
    assert entries[..|entries|] == entries;
  }

  /** parse_accelerator_runtime_visibility. */
  method ParseRuntimeVisibility(devices: seq<Device>, records: seq<RuntimeRecord>)
    returns (result: seq<RuntimeVisibility>)
    ensures result == AllMapped(devices, records)
  {
    result := [];
    for i := 0 to |records|
      invariant result == AllMapped(devices, records[..i])
    {
      assert records[..i + 1][..i] == records[..i];
      var record := records[i];
      if record.readable && record.vendor.Some? {
        var visible, complete := MapRecord(devices, record.vendor.value, record.entries);
        if complete {
          result := result + [RuntimeVisibility.RuntimeVisibility(record.vendor.value, visible)];
        }
      }
    }
    assert records[..|records|] == records;
  }

  // ----- What the mapping means -----

  ghost predicate MatchedBySome(devices: seq<Device>, vendor: Vendor, entry: Entry, id: nat) {
    exists x: nat :: x < |devices| && MatchesEntry(devices[x], vendor, entry) && devices[x].id == id
  }

  lemma {:induction false} MatchedIdsExact(devices: seq<Device>, vendor: Vendor, entry: Entry, n: nat, id: nat)
    requires n <= |devices|
    ensures id in MatchedIds(devices, vendor, entry, n) <==>
            exists x: nat :: x < n && MatchesEntry(devices[x], vendor, entry) && devices[x].id == id
  {
    if n > 0 {
      MatchedIdsExact(devices, vendor, entry, n - 1, id);
    }
  }

  lemma MatchedSomeone(devices: seq<Device>, vendor: Vendor, entry: Entry)
    ensures MatchedIds(devices, vendor, entry, |devices|) != [] <==>
            exists x: nat :: x < |devices| && MatchesEntry(devices[x], vendor, entry)
  {
    var ids := MatchedIds(devices, vendor, entry, |devices|);
    if ids != [] {
      assert ids[0] in ids;
      MatchedIdsExact(devices, vendor, entry, |devices|, ids[0]);
    }
    if x: nat :| x < |devices| && MatchesEntry(devices[x], vendor, entry) {
      MatchedIdsExact(devices, vendor, entry, |devices|, devices[x].id);
    }
  }

  ghost predicate Maps(devices: seq<Device>, vendor: Vendor, entry: Entry) {
    Usable(entry) && exists x: nat :: x < |devices| && MatchesEntry(devices[x], vendor, entry)
  }

  ghost predicate Yields(read: EntryReading, entry: Entry, id: nat) {
    read(entry).Some? && id in read(entry).value
  }

  lemma {:induction false} GatherExact(read: EntryReading, entries: seq<Entry>, id: nat)
    ensures Gather(read, entries).Some? <==> forall k | 0 <= k < |entries| :: read(entries[k]).Some?
    ensures Gather(read, entries).Some? ==>
            (id in Gather(read, entries).value <==> exists k :: 0 <= k < |entries| && Yields(read, entries[k], id))
  {
    if entries != [] {
      var n := |entries| - 1;
      GatherExact(read, entries[..n], id);
      assert forall k | 0 <= k < n :: entries[..n][k] == entries[k];
      assert Yields(read, entries[n], id) <==> read(entries[n]).Some? && id in read(entries[n]).value;
    }
  }

  /** All or nothing: an enumeration counts exactly when every entry is usable and found in the inventory. */
  lemma MappedExact(devices: seq<Device>, vendor: Vendor, entries: seq<Entry>, id: nat)
    ensures MappedIds(devices, vendor, entries).Some? <==>
            forall k | 0 <= k < |entries| :: Maps(devices, vendor, entries[k])
    ensures MappedIds(devices, vendor, entries).Some? ==>
            (id in MappedIds(devices, vendor, entries).value <==>
             exists k :: 0 <= k < |entries| && MatchedBySome(devices, vendor, entries[k], id))
  {
    var read := ReadEntry(devices, vendor);
    GatherExact(read, entries, id);
    forall k | 0 <= k < |entries|
      ensures read(entries[k]).Some? <==> Maps(devices, vendor, entries[k])
      ensures read(entries[k]).Some? ==>
                (Yields(read, entries[k], id) <==> MatchedBySome(devices, vendor, entries[k], id))
    {
      assert read(entries[k]) == EntryIds(devices, vendor, entries[k]);
      MatchedSomeone(devices, vendor, entries[k]);
      MatchedIdsExact(devices, vendor, entries[k], |devices|, id);
    }
  }

  /** With distinct IDs an entry matches a device exactly when it matches the device's ID. */
  lemma MatchedItself(devices: seq<Device>, vendor: Vendor, entry: Entry, x: nat)
    requires DistinctIds(devices) && x < |devices|
    ensures MatchedBySome(devices, vendor, entry, devices[x].id) <==> MatchesEntry(devices[x], vendor, entry)
  {
    if y: nat :| y < |devices| && MatchesEntry(devices[y], vendor, entry) && devices[y].id == devices[x].id {
      assert y == x;
    }
  }

  /** With distinct IDs, looking the reported IDs up again gives exactly the devices the entries matched. */
  lemma EnumerationInverts(devices: seq<Device>, record: RuntimeRecord, x: nat)
    requires DistinctIds(devices) && Mapped(devices, record).Some? && x < |devices|
    ensures var mapped := Mapped(devices, record).value;
      x in EnumeratedIndices(devices, mapped.visible) <==>
      exists k :: 0 <= k < |record.entries| && MatchesEntry(devices[x], mapped.vendor, record.entries[k])
  {
    var vendor := record.vendor.value;
    MappedExact(devices, vendor, record.entries, devices[x].id);
    forall k | 0 <= k < |record.entries|
      ensures MatchedBySome(devices, vendor, record.entries[k], devices[x].id) <==>
              MatchesEntry(devices[x], vendor, record.entries[k])
    {
      MatchedItself(devices, vendor, record.entries[k], x);
    }
  }

  lemma {:induction false} FirstObservation(devices: seq<Device>, vendor: Vendor, runtime: seq<RuntimeVisibility>)
    returns (observation: RuntimeVisibility)
    requires Observed(devices, vendor, runtime).Some?
    ensures observation in runtime && observation.vendor == vendor
    ensures Observed(devices, vendor, runtime) == Some(EnumeratedIndices(devices, observation.visible))
  {
    if runtime[0].vendor == vendor {
      observation := runtime[0];
    } else {
      observation := FirstObservation(devices, vendor, runtime[1..]);
    }
  }

  lemma {:induction false} MappedFrom(devices: seq<Device>, records: seq<RuntimeRecord>, observation: RuntimeVisibility)
    returns (record: RuntimeRecord)
    requires observation in AllMapped(devices, records)
    ensures record in records && Mapped(devices, record) == Some(observation)
  {
    var n := |records| - 1;
    if Mapped(devices, records[n]) == Some(observation) {
      record := records[n];
    } else {
      record := MappedFrom(devices, records[..n], observation);
    }
  }

  /** So an enumeration never selects another vendor's device. */
  lemma EnumerationStaysInVendor(devices: seq<Device>, records: seq<RuntimeRecord>, vendor: Vendor, x: nat)
    requires DistinctIds(devices)
    requires Observed(devices, vendor, AllMapped(devices, records)).Some?
    requires x in Observed(devices, vendor, AllMapped(devices, records)).value
    ensures x < |devices| && OfVendor(devices[x], vendor)
  {
    var runtime := AllMapped(devices, records);
    var observation := FirstObservation(devices, vendor, runtime);
    var record := MappedFrom(devices, records, observation);
    assert x < |devices|;
    EnumerationInverts(devices, record, x);
  }

  /**
    From inventory to flags: with distinct IDs and observations read from the runtime records, every
    selection in force consists of devices of its own vendor.
   */
  lemma SelectionsStayInVendor(devices: seq<Device>, records: seq<RuntimeRecord>, vendor: Vendor,
                               env: Environment, x: nat)
    requires DistinctIds(devices)
    requires Effective(devices, vendor, env, AllMapped(devices, records)).Some?
    requires x in Effective(devices, vendor, env, AllMapped(devices, records)).value
    ensures x < |devices| && OfVendor(devices[x], vendor)
  {
    var runtime := AllMapped(devices, records);
    if Observed(devices, vendor, runtime).Some? {
      forall y | y in Observed(devices, vendor, runtime).value ensures OfVendor(devices[y], vendor) {
        EnumerationStaysInVendor(devices, records, vendor, y);
      }
    }
    EffectiveWithinVendor(devices, vendor, env, runtime, x);
  }
}
