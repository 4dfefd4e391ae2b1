# Verified model of sysal's parsing and resolving

sysal turns raw Linux evidence into typed snapshots. This project models the parts of it whose results are not
obvious from their code, and proves what those results are for every input:

- **Accelerators.** The inventory that merges evidence of several backends under a non-transitive identity and
  allocates IDs; the environment selectors of CUDA, ROCm, Level Zero and SYCL; complete runtime enumerations; and the
  resolver that turns all of it into per-device flags and an ID index.
- **Limits, features, topology.** The four-state limit summary over cgroup records, the three-valued CPU feature
  reports with their union and intersection, the dense renumbering of packages and cores, NUMA maps and nodes, EDAC
  association, and claims of inventory completeness.
- **Numbers with bounds.** 128-bit counters compared as text, decimal rates scaled exactly into 64 bits, CPU ranges.
- **Texts that invert.** Splitting and joining, printed and parsed numbers, PCI addresses, CPU lists, SYCL filters,
  EDAC locations, shell quoting, octal escapes of mount paths.

There is one module per source file or per part of a large one. Code that changes state in the original is a class or
a method with loops here, proved against a specification function; the properties are lemmas about that function.
`AcceleratorInventories`, `AcceleratorResolver`, `Cgroups`, `CpuParser`, `Edac`, `CpuIdLists`, `Numa` and
`InventoryReports` hold the larger imperative parts. `Options`, `RawRecords`, `Sorting`, `SortedSets`, `SortedNames`,
`Counting` and `StreamWords` hold shared helpers.
`dafny verify dfyconfig.toml` checks the whole project.

## Where the code does less than one would expect

Each of these is a lemma with a concrete input or an exact condition:

- A NUMA range that ends at 2^64-1 does not stop at its end: the counter wraps to 0 and fills the map from CPU 0
  (`Numa.RangeOverrun`, `Numa.OverrunExample`, and from the text of a list `NumaMapping.TopListExample`). A map with
  1024 CPUs is final: a CPU listed again keeps its earlier node (`NumaMapping.FullMappingStays`,
  `NumaMapping.KeptNodeExample`), and covered CPUs are missing exactly when more than 1024 are covered
  (`NumaMapping.MappingCovers`).
- Adding accelerator evidence twice can store it twice, exactly when it was accepted, matched no record, has no stable
  identity, and either is a MIG instance or found its ordinal taken (`AcceleratorIdentity.ReAddIdempotent`,
  `AcceleratorIdentity.ReAddExample`). Evidence with both an address and a UUID can leave one UUID on two devices
  (`AcceleratorIdentity.UuidsStayUnique`, `AcceleratorIdentity.BridgeExample`).
- The CPU limit can depend on the record order (`CgroupOrder.TwoPeriodsBreakOrder`). It is the same in every order
  exactly under two conditions (`CpuLimitOrder.CpuLimitOrderExact`): if some file is unreadable in some order, some file
  is in every order; and if some file gives a budget in some order, some file gives one in every order that no file can
  undercut in any. What each single record says is independent of the order exactly when no readable quota has two
  readable periods in its directory that give it different meanings (`CgroupOrder.CpuOrderExact`); for the limit that
  is sufficient (`CgroupOrder.CpuUnordered`) but not necessary (`CpuLimitOrder.SlackExample`).
- The CPU period reported without a finite budget has a condition of its own (`CgroupOrder.UnlimitedPeriodExact`): it
  depends on the order as soon as two unlimited directories have different periods
  (`CgroupOrder.UnlimitedPeriodBreaksOrder`).
- Unescaping a mount path inverts escaping only for escape sets with the backslash or all octal digits
  (`Quoting.MountEscapesInvert`).
- A core takes the NUMA node of its first thread, which is the node of all its threads exactly when the map sends them
  all to one (`CpuConsistency.CoreNodeIsFirstThreads`, `CpuConsistency.CoreNodeExact`,
  `CpuConsistency.SplitCoreExample`).

## Model

Modelling decisions that apply throughout: texts are sequences of characters; identifiers and counts are natural
numbers, and 32-bit and 64-bit limits, wrap-around and truncation are written out where the code meets them (the next
free accelerator ID is proved to be at most the number of devices, so it needs no width). The `long double` comparison
of CPU budgets is exact cross multiplication. Sorting keeps the order of equal keys; "Left out" says where that could
matter. Inputs that come from records are datatypes that hold what the record parsing found.

| member | source | states |
|---|---|---|
| `ParseUtils.Trim` | src/parser/parse_utils.cpp:16-29 | The two scanning loops compute the trimmed text. |
| `ParseUtils.SpaceExact` | src/parser/parse_utils.cpp:16-29 | The blanks are space, tab, newline, vertical tab, form feed and carriage return. |
| `ParseUtils.TrimmedMiddle` | src/parser/parse_utils.cpp:16-29 | Blanks around any text without blank ends come off, and nothing else does. |
| `ParseUtils.TrimmedParts` | src/parser/parse_utils.cpp:16-29 | Every text is blanks, then its trimmed middle, then blanks. |
| `ParseUtils.Split` | src/parser/parse_utils.cpp:67-85 | The accumulating loop computes the pieces between separators. |
| `ParseUtils.JoinPieces` | src/parser/parse_utils.cpp:67-85 | Joining the pieces gives the text back, and no piece holds a separator. |
| `ParseUtils.PiecesJoin` | src/parser/parse_utils.cpp:67-85 | Separator-free pieces, joined and split, come back unchanged. |
| `ParseUtils.PiecesConcat` | src/parser/parse_utils.cpp:67-85 | Splitting two texts with a separator between them concatenates their pieces. |
| `Numbers.ParseUintDecimal` | src/parser/parse_utils.cpp:97-115 | A printed number is read back exactly up to 2^64-1 and refused above. |
| `Numbers.ParseUintExact` | src/parser/parse_utils.cpp:97-115 | A text is read as n exactly when, blanks aside, it is a digit string of value n at most 2^64-1; every other text is refused. |
| `Numbers.ParseHexPadded` | src/parser/parse_utils.cpp:130-148 | A number printed in hexadecimal, zero-padded to any width, is read back exactly up to 2^64-1 and refused above. |
| `Numbers.DigitExact` | src/parser/parse_utils.cpp:130-148 | Hexadecimal digits of both cases stand for their place, and no other character is a digit. |
| `Numbers.ValueConcat` | src/parser/parse_utils.cpp:97-148 | The value of a concatenation is the left value shifted by the length of the right one, plus the right value. |
| `Numbers.CanonicalOrder` | src/serialization/storage_health_values.hpp:18-35 | On decimals without leading zeros, length and then lexicographic order is numeric order. |
| `Numbers.CanonicalIsDecimal` | src/serialization/storage_health_values.hpp:18-35 | The decimal without leading zeros of a value is unique: the printed one. |
| `PciAddresses.PciAddressGrammar` | src/parser/parse_utils.cpp:150-208 | A text yields an address exactly when, trimmed, it spells one: the cut at the first dot and at the last two colons, each field in range. |
| `PciAddresses.PciNameRoundTrip` | src/resolver/inventory.cpp:93-101 | Every address survives printing as DDDD:BB:DD.F and parsing. |
| `PciAddresses.PciNameInjective` | src/resolver/inventory.cpp:93-101 | Different addresses print differently. |
| `PciAddresses.PciNameLayout` | src/resolver/inventory.cpp:93-101 | The printed name has 12 characters, or 13 for a function above 15, with the separators at fixed places. |
| `StorageCounters.MaximumValue` | src/serialization/storage_health_values.hpp:18-35 | The 39-digit text the source compares with spells exactly 2^128-1. |
| `StorageCounters.CounterTextExact` | src/serialization/storage_health_values.hpp:18-35 | A text is a counter exactly when it is a digit string of value at most 2^128-1; the result is the canonical decimal of that value. |
| `StorageCounters.ReadCounterExact` | src/serialization/storage_health_values.hpp:9-35 | For every JSON value: accepted exactly up to 2^128-1, value kept, canonical form. |
| `StorageCounters.HealthIntegerExact` | src/serialization/storage_health_values.hpp:9-17 | For any target an integer cell is accepted exactly when it is not negative and not above the target's maximum. |
| `StorageCounters.ReadCounterIdempotent` | src/serialization/storage_health_values.hpp:18-35 | Reading a counter that was read changes nothing; two values read as equal counters exactly when they mean the same number. |
| `StorageCounters.PutThenGet` | src/serialization/storage_health.cpp:25-47 | Writing and reading a counter returns its canonical form, fails exactly for a text that is no counter, and touches no other key. |
| `StorageCounters.PutNoneThenGet` | src/serialization/storage_health.cpp:25-47 | An absent counter writes no key and reading leaves the destination alone. |
| `Rdma.PadToNine` | src/parser/rdma.cpp:32-57 | The padding loop never leaves 64 bits and yields the value of the fraction padded to nine digits. |
| `Rdma.ScaleFraction` | src/parser/rdma.cpp:32-57 | A fraction is accepted exactly with one to nine digits, and is below one whole unit. |
| `Rdma.ParseRate` | src/parser/rdma.cpp:32-57 | With every variable in 64 bits the parser computes the exact rate, or nothing. |
| `Rdma.NanosExact` | src/parser/rdma.cpp:32-57 | The padded fraction F is F * 10^(9-\|F\|). |
| `Rdma.WholeRate` | src/parser/rdma.cpp:32-57 | "W Gb/sec" gives W * 10^9 when that fits in 64 bits, else nothing. |
| `Rdma.FractionalRate` | src/parser/rdma.cpp:32-57 | "W.F Gb/sec" gives W * 10^9 + F * 10^(9-\|F\|) when that fits in 64 bits, else nothing. |
| `Rdma.RateOnlyFromNumbers` | src/parser/rdma.cpp:32-57 | A rate is reported only for such a text, up to blanks around W, and is the one it spells. |
| `CpuIdLists.InsertRange` | src/parser/cpu_details.cpp:13-49 | The inner loop inserts a range one ID at a time and stops once the set is too large, without running past 32 bits. |
| `CpuIdLists.ParseCpuIdList` | src/parser/cpu_details.cpp:13-49 | The nested loops compute the specified list, or refuse. |
| `CpuIdLists.CpuIdsExact` | src/parser/cpu_details.cpp:13-49 | Refused exactly for a malformed token or more than 65536 IDs; otherwise strictly increasing and exactly the covered IDs. |
| `CpuIdLists.UnionMembers` | src/parser/cpu_details.cpp:13-49 | An ID is in the union exactly when some token covers it, whatever the order and overlap. |
| `CpuIdLists.RenderedListParses` | src/parser/cpu_details.cpp:13-49 | Any rendering of a set by single IDs and ranges parses to the sorted set, or is refused exactly when the set is too large. |
| `Quoting.ShellArgument` | src/reader/linux/file_utils.hpp:182-188 | The appending loop computes the quoted form. |
| `Quoting.QuotingRoundTrip` | src/reader/linux/file_utils.hpp:182-188 | A command line of quoted arguments, read by the quoting rules of sections 2.2.1 and 2.2.2 of the POSIX.1-2017 Shell Command Language, gives exactly those arguments. |
| `Quoting.SpecialRefused` | src/reader/linux/file_utils.hpp:182-188 | The reading refuses a character with a meaning of its own outside quotes, so the round trip shows that no argument exposes one. |
| `Quoting.UnescapeMount` | src/common/mountinfo.cpp:11-27 | The index loop decodes octal escapes left to right. |
| `Quoting.MountEscapesInvert` | src/common/mountinfo.cpp:11-27 | Unescaping undoes octal escaping of a set of characters for every text if and only if the set includes the backslash or all eight octal digits. |
| `Quoting.UnescapeIdentity` | src/common/mountinfo.cpp:11-27 | A text is unchanged exactly when it holds no complete escape, in particular without a backslash. |
| `AcceleratorInventories.AcceleratorInventory.AllocateId` | src/parser/accelerator_inventory.cpp:33-40 | The counting loop terminates with the specified next ID. |
| `AcceleratorInventories.NextIdIsLeastUnused` | src/parser/accelerator_inventory.cpp:33-40 | The next ID is the one number that is free while everything below is taken; it is at most the number of devices. |
| `AcceleratorInventories.AcceleratorInventory.RenumberChildren` | src/parser/accelerator_inventory.cpp:69-73 | The renumbering loop moves MIG instances off a claimed ordinal in place. |
| `AcceleratorInventories.AcceleratorInventory.Add` | src/parser/accelerator_inventory.cpp:42-78 | One call: the new device list and the warnings, for refused, merged and appended evidence. |
| `AcceleratorIdentity.RenumberedExact` | src/parser/accelerator_inventory.cpp:69-73 | With distinct IDs at most one MIG instance is on the ordinal, and it alone moves, to the least unused ID. |
| `AcceleratorIdentity.RenumberedKeepsIdentity` | src/parser/accelerator_inventory.cpp:69-73 | After renumbering the ordinal is held only by a physical device, if at all; nothing but IDs of MIG instances moved. |
| `AcceleratorIdentity.AddedDistinct` | src/parser/accelerator_inventory.cpp:42-78 | Adding evidence keeps all IDs pairwise distinct. |
| `AcceleratorIdentity.AddedExtends` | src/parser/accelerator_inventory.cpp:42-78 | Adding drops no device, overwrites no known fact, moves no physical ID and adds at most one record. |
| `AcceleratorIdentity.AddedCompletes` | src/parser/accelerator_inventory.cpp:49-68 | Matching evidence completes exactly the first record it matches: known facts stay, each unknown one is learnt, the ID stays, and no other record changes. |
| `AcceleratorIdentity.OrdinalKept` | src/parser/accelerator_inventory.cpp:69-77 | A new physical device keeps its ordinal exactly when no physical device holds it. |
| `AcceleratorIdentity.ReAddIdempotent` | src/parser/accelerator_inventory.cpp:42-78 | Adding the same evidence twice changes nothing if and only if it was refused, was merged, has a stable identity, or is physical and found its ordinal free. |
| `AcceleratorIdentity.ReAddExample` | src/parser/accelerator_inventory.cpp:42-78 | Two additions that store a second record when repeated: a MIG instance without instance numbers, and a physical device without address and UUID whose ordinal was taken. |
| `AcceleratorIdentity.ConflictsStaySeparate` | src/parser/accelerator_inventory.cpp:10-24 | Records with different UUIDs, or with different addresses and no equal UUID, are never taken for one physical device. |
| `AcceleratorIdentity.UuidConflictKept` | src/parser/accelerator_inventory.cpp:49-58 | A new UUID at a known address is reported and stored beside the known device. |
| `AcceleratorIdentity.RunDistinct` | src/parser/accelerator_inventory.cpp:33-78 | Every run of additions, of UUIDs written by the MIG list and of NUMA nodes filled in, in any order, keeps all IDs distinct. |
| `AcceleratorIdentity.RunPersists` | src/parser/accelerator.cpp:247-403 | Over such a run every device keeps its place, every known fact and, if physical, its ID; only the UUID of a physical NVIDIA device is overwritten, and then it is the one the MIG list gave its ordinal last. |
| `AcceleratorIdentity.EvidenceExtends` | src/parser/accelerator_inventory.cpp:42-78 | Over any sequence of additions no known fact is lost. |
| `AcceleratorIdentity.SameDeviceNotTransitive` | src/parser/accelerator_inventory.cpp:10-24 | The identity relation is not transitive. |
| `AcceleratorIdentity.UuidsStayUnique` | src/parser/accelerator_inventory.cpp:42-78 | One UUID per device survives an addition if and only if the evidence does not join a device without UUID while another device carries that UUID. |
| `AcceleratorIdentity.BridgeExample` | src/parser/accelerator_inventory.cpp:42-78 | Three additions after which two stored devices carry one UUID. |
| `AcceleratorJoins.SameDeviceExact` | src/parser/accelerator_inventory.cpp:10-24 | Two records are one device exactly when vendor and parent agree and the UUIDs are known and equal, or, with a UUID missing, for an instance both numbers are known and equal, and for a physical device the addresses, or, with one missing, the ordinals. |
| `AcceleratorJoins.EvidenceJoins` | src/parser/accelerator_inventory.cpp:42-68 | Evidence joins the first record of its device, which learns exactly what it did not know; no other record changes. |
| `AcceleratorJoins.EvidenceStored` | src/parser/accelerator_inventory.cpp:42-78 | Evidence adds a record if and only if no stored record is of its device. |
| `AcceleratorJoins.InstanceStored` | src/parser/accelerator_inventory.cpp:16-19 | A MIG instance that differs from every stored one of its parent in either number, or in a known UUID, adds a record. |
| `AcceleratorJoins.ComputeInstancesExample` | src/parser/accelerator_inventory.cpp:16-19 | Two compute instances of one GPU instance without UUIDs are two records, and each is found again. |
| `AcceleratorJoins.AddWarningsExact` | src/parser/accelerator_inventory.cpp:42-60 | When each of the three warnings is given: ordinal out of range, another UUID at the address before the match, another address on the match. |
| `CsvSelection.AppendUniqueTo` | src/resolver/accelerator_selection.cpp:20-25 | The loop appends the entries that are not there yet. |
| `CsvSelection.AppendUniqueExtends` | src/resolver/accelerator_selection.cpp:20-25 | The target stays a prefix and duplicate-free. |
| `CsvSelection.SelectCsv` | src/resolver/accelerator_selection.cpp:44-83 | The loop computes the fold over the longest resolving prefix of tokens, and warns exactly when an invalid token ended it. |
| `CsvSelection.SelectedByExact` | src/resolver/accelerator_selection.cpp:44-83 | A device is selected exactly when a token matches it and every earlier token resolves, and never twice. |
| `CsvSelection.SelectedWithin` | src/resolver/accelerator_selection.cpp:44-83 | Nothing outside the two pools is selected. |
| `CsvSelection.TextPrefix` | src/resolver/accelerator_selection.cpp:44-83 | A longer list extends the selection at its end; once a token does not resolve, whatever follows has no effect. |
| `CsvSelection.BlankSelectsNothing` | src/resolver/accelerator_selection.cpp:49-50 | A blank list selects nothing, as the fold over its one blank token also would. |
| `CsvSelection.OrdinalsSelect` | src/resolver/accelerator_selection.cpp:58-67 | Any list of ordinals selects the pool entries at those positions up to the first one outside the pool, in that order, each entry once. |
| `CsvSelection.IdsSelect` | src/resolver/accelerator_selection.cpp:58-67 | Where ordinals are IDs, an entry is selected exactly when it carries one of the listed IDs and every earlier one is carried by some entry. |
| `SelectorTokens.NamedByExact` | src/resolver/accelerator_selection.cpp:27-36 | A token matches a device by UUID exactly when it begins the device's UUID, or is MIG-parent/GPU instance/compute instance of its three known fields. |
| `SelectorTokens.UuidToken` | src/resolver/accelerator_selection.cpp:57-80 | A token that starts with GPU- or MIG- selects the one pool entry it names when it names one position only, and otherwise ends the list with a warning. |
| `SelectorTokens.TokenExact` | src/resolver/accelerator_selection.cpp:53-80 | Any token: it selects exactly what it names, by number or by UUID; it ends the list silently exactly as "-1" or "none", and with a warning exactly when it names nothing. |
| `SelectorTokens.TextExact` | src/resolver/accelerator_selection.cpp:44-83 | Any text: a device is selected exactly when a token names it and every earlier token names something, and a warning is given exactly when the first token that names nothing is not "-1" or "none". |
| `SelectorTokens.UuidSelects` | src/resolver/accelerator_selection.cpp:27-83 | A beginning of a UUID that only one entry has selects exactly that entry, without a warning. |
| `SelectorTokens.LegacyNameSelects` | src/resolver/accelerator_selection.cpp:27-83 | The printed old name of a MIG instance selects exactly that instance where no other entry is named by it. |
| `SyclSelection.ReadSelectors` | src/resolver/accelerator_selection.cpp:114-122 | The selectors of a clause, or nothing when one is unknown. |
| `SyclSelection.ReadClause` | src/resolver/accelerator_selection.cpp:98-123 | One clause, refused when malformed or when it accepts after a discard. |
| `SyclSelection.ParseSycl` | src/resolver/accelerator_selection.cpp:92-126 | The clause loop computes the specified filters, or refuses. |
| `SyclSelection.ReadClausesExact` | src/resolver/accelerator_selection.cpp:92-126 | Clauses are accepted exactly when each is well formed and no accept follows a discard, and then read one to one. |
| `SyclGrammar.ClauseExact` | src/resolver/accelerator_selection.cpp:98-123 | A clause is read as a filter exactly when, trimmed and in lower case, it is an optional !, one of the six backends, one colon and a comma-separated list of "*", "gpu", "cpu" and numbers. |
| `SyclGrammar.SyclTextExact` | src/resolver/accelerator_selection.cpp:92-126 | A text is read as filters exactly when its clauses spell them one by one and no accept follows a discard. |
| `SyclSelection.SyclRoundTrip` | src/resolver/accelerator_selection.cpp:92-126 | A rendered list of filters parses back to itself exactly when its accept filters come first. |
| `SyclSelection.SelectSycl` | src/resolver/accelerator_selection.cpp:128-171 | The filter loop computes the specified selection, unchanged candidates on an unreadable text or ordinal. |
| `SyclSelection.FoldedExact` | src/resolver/accelerator_selection.cpp:142-170 | With accepts first, the in-order edits are one set expression: the start and everything accepted, minus everything discarded. |
| `SyclSelection.FilterSelectionExact` | src/resolver/accelerator_selection.cpp:139-170 | All candidates when a filter for *, level_zero or opencl names an ordinal that has no enumeration; otherwise what some accept covers (all candidates without any accept) minus what some discard covers, filters for other backends covering nothing. |
| `SyclSelection.SyclSelectionExact` | src/resolver/accelerator_selection.cpp:128-171 | The same on the text of the variable. |
| `SyclSelection.SyclSelectionWithin` | src/resolver/accelerator_selection.cpp:128-171 | The selection stays within the candidates and repeats none. |
| `SyclSelection.OrderMatters` | src/resolver/accelerator_selection.cpp:104-106 | The set expression needs the accepts-first rule: were "!*:gpu;*:gpu" read, every device would be selected although a discard covers it. |
| `EnvironmentSelection.LookupExact` | src/resolver/accelerator_selection.cpp:12-18 | A variable is set exactly when an entry carries its name; the first such entry gives the value. |
| `EnvironmentSelection.EnvironmentExact` | src/resolver/accelerator_selection.cpp:12-18 | Which variable feeds which value, the first entry of a name counting; PCI order only for the value PCI_BUS_ID; and restriction exactly when an entry carries one of the five selection names. |
| `EnvironmentSelection.PciBeforeIsKeyOrder` | src/resolver/accelerator_selection.cpp:191-200 | The comparison of the CUDA sort is the strict order of a numeric key, so it is a valid sort order. |
| `EnvironmentSelection.SelectCuda` | src/resolver/accelerator_selection.cpp:179-206 | The NVIDIA branch computes the specified selection. |
| `EnvironmentSelection.SelectAmd` | src/resolver/accelerator_selection.cpp:207-223 | The AMD branch computes the specified selection, ROCR before HIP. |
| `EnvironmentSelection.SelectIntel` | src/resolver/accelerator_selection.cpp:224-240 | The Intel branch computes the specified selection, the mask before the SYCL selector. |
| `EnvironmentSelection.SelectEnvironment` | src/resolver/accelerator_selection.cpp:174-242 | All vendors: the selection, or none when no variable applies. |
| `EnvironmentSelection.SelectionWithin` | src/resolver/accelerator_selection.cpp:174-242 | For every vendor and environment the selection stays within the candidates and repeats none. |
| `EnvironmentSelection.CudaOrdinalsFollowPci` | src/resolver/accelerator_selection.cpp:184-205 | With PCI order any list of ordinals selects by position in the physical candidates sorted by address, unknown addresses last. |
| `EnvironmentSelection.CudaOrdinalsAreIds` | src/resolver/accelerator_selection.cpp:184-205 | Without PCI order a list of ordinals selects a physical candidate exactly when some ordinal is its ID and every earlier one is the ID of a physical candidate. |
| `EnvironmentSelection.HipComposesWithRocr` | src/resolver/accelerator_selection.cpp:207-223 | Whatever ROCR says, UUIDs, repeats and cut-off lists included, a list of HIP ordinals selects by position in what ROCR left. |
| `EnvironmentSelection.OrdinalListsCompose` | src/resolver/accelerator_selection.cpp:207-223 | Two lists of distinct ordinals inside their pools select the composed positions. |
| `EnvironmentSelection.BlankIsNotUnset` | src/resolver/accelerator_selection.cpp:174-242 | A blank variable of the vendor, the Level Zero mask and the SYCL selector alike, selects nothing at all, while unset variables make no selection. |
| `AcceleratorVisibility.Candidates` | src/resolver/accelerator_visibility.cpp:84-89 | The candidates are exactly the vendor's devices, each once. |
| `AcceleratorVisibility.CandidatesAscend` | src/resolver/accelerator_visibility.cpp:84-89 | Candidates come by ascending ID, so positions count IDs. |
| `AcceleratorVisibility.EnumeratedIndices` | src/resolver/accelerator_visibility.cpp:40-45 | The enumerated devices are exactly those whose ID is listed. |
| `AcceleratorVisibility.EnumerationInOrder` | src/resolver/accelerator_visibility.cpp:40-45 | Enumerated devices come in the order of the enumeration, each once for each time its ID is enumerated. |
| `AcceleratorVisibility.SelectionIgnoresFlags` | src/resolver/accelerator_selection.cpp:174-242 | No selection reads a visibility flag, so the vendors' updates cannot influence each other. |
| `AcceleratorResolver.ApplySelection` | src/resolver/accelerator_visibility.cpp:50-61 | In place: a candidate is visible exactly when it or its MIG parent is selected and it has no children; no other device and no other field changes. |
| `AcceleratorResolver.ResolveVendor` | src/resolver/accelerator_visibility.cpp:84-96 | One vendor: the selection in force decides its devices, the environment's before the runtime's; other vendors' flags stay. |
| `AcceleratorResolver.Resolve` | src/resolver/accelerator_visibility.cpp:64-102 | The whole resolver: every flag is the declarative one over the devices as they came in, the ID index lists the visible devices in order, restriction is recorded exactly when an entry carries one of the five selection names or an ID was given, and without such an entry exactly the recorded IDs of no device are warned about. |
| `AcceleratorResolver.CrossCheck` | src/resolver/resolve.cpp:96-128 | Phantom IDs are exactly the reported IDs without a device; the hint is given exactly for a proper non-empty part. |
| `AcceleratorResolver.VisibleIdsExact` | src/resolver/accelerator_visibility.cpp:98-101 | The index holds exactly the visible devices' IDs, without repetition when IDs are distinct. |
| `AcceleratorResolver.NoPhantoms` | src/resolver/resolve.cpp:112-119 | After resolving the cross check computes no phantom ID. |
| `AcceleratorResolver.RuntimeDecides` | src/resolver/accelerator_selection.cpp:181-217 | The first complete enumeration of NVIDIA or AMD decides alone, whatever environment and recorded IDs: visible are exactly the devices whose UUID is nobody's parent UUID and whose own or whose parent's ID is listed. |
| `SelectorFlags.BlankVariableHides` | src/resolver/accelerator_visibility.cpp:90-96 | Without a runtime, a blank variable hides every device of its vendor, for AMD and Intel either of the two. |
| `SelectorFlags.UnselectedDecides` | src/resolver/accelerator_visibility.cpp:76-80 | Where no variable and no enumeration selects devices of the vendor: visible are exactly the devices whose UUID is nobody's parent UUID, all of them when another vendor's variable is set or no ID was recorded, and else those whose ID was recorded. |
| `AcceleratorResolver.EffectiveWithinVendor` | src/resolver/accelerator_visibility.cpp:84-96 | The selection in force holds only devices of the vendor's pool. |
| `AcceleratorResolver.PartitionedHidden` | src/resolver/accelerator_visibility.cpp:27-31 | A device whose UUID some stored device carries as its parent's is never visible, whatever selects it. |
| `SelectorFlags.CudaTextDecides` | src/resolver/accelerator_visibility.cpp:82-97 | From the entries of the environment to flags, for any text of CUDA_VISIBLE_DEVICES and either value of CUDA_DEVICE_ORDER: without a runtime, visible are exactly the devices that are nobody's parent and that are, or whose parent is, named by a token before the list breaks off. |
| `SelectorFlags.CudaListDecides` | src/resolver/accelerator_visibility.cpp:82-97 | The same for a list of ordinals in the default order: they are IDs, up to the first unknown one. |
| `SelectorFlags.CudaPciListDecides` | src/resolver/accelerator_visibility.cpp:82-97 | The same in PCI order: they are positions among the physical devices sorted by address. |
| `SelectorFlags.CudaUuidDecides` | src/resolver/accelerator_visibility.cpp:82-97 | One UUID, a beginning of one or an old MIG name in CUDA_VISIBLE_DEVICES selects the one NVIDIA device it names, or none. |
| `SelectorFlags.AmdTextsDecide` | src/resolver/accelerator_visibility.cpp:82-97 | Any texts of the two AMD variables: ROCR_VISIBLE_DEVICES names from all AMD devices, HIP_VISIBLE_DEVICES from what is left. |
| `SelectorFlags.MaskDecides` | src/resolver/accelerator_visibility.cpp:82-97 | Any ZE_AFFINITY_MASK without a dot, where no SYCL selector is set: it names Intel devices by position or UUID. |
| `SelectorFlags.IntelRuntimeDecides` | src/resolver/accelerator_visibility.cpp:82-97 | Without a SYCL selector the first Intel enumeration decides alone, whatever the mask. |
| `SelectorFlags.HipListDecides` | src/resolver/accelerator_visibility.cpp:82-97 | From a HIP ordinal list to flags: positions in what ROCR left, whatever ROCR says. |
| `SelectorFlags.SyclTextDecides` | src/resolver/accelerator_visibility.cpp:82-97 | From any text of ONEAPI_DEVICE_SELECTOR to flags, with or without a runtime: the set expression over the enumeration, or else over what a mask without dots leaves; nothing for a blank text, everything for an unreadable one. |
| `AcceleratorRuntime.MapRecord` | src/parser/accelerator.cpp:429-470 | First every entry must be usable, then every entry must match; only then the IDs count. |
| `AcceleratorRuntime.ParseRuntimeVisibility` | src/parser/accelerator.cpp:412-475 | One visibility per record that maps completely, in record order. |
| `AcceleratorRuntime.MappedExact` | src/parser/accelerator.cpp:426-473 | An enumeration counts exactly when every entry has an address and matches a device. |
| `RuntimeEntries.EntryExact` | src/parser/accelerator.cpp:448-458 | An NVIDIA entry stands for the vendor's devices with a UUID of its digits, an AMD or Intel one for those at its address. |
| `RuntimeEntries.UuidHexExact` | src/parser/accelerator.cpp:29-39 | With prefix GPU-, MIG- or none, a UUID stands for the letters between its dashes in lower case when these are 32 and hold no slash, and for nothing otherwise. |
| `RuntimeEntries.PrintedUuidExample` | src/parser/accelerator.cpp:329-333 | The printed form of 32 digits is read back as the digits. |
| `AcceleratorRuntime.EnumerationInverts` | src/parser/accelerator.cpp:446-473 | With distinct IDs, looking the reported IDs up again gives exactly the devices the entries matched. |
| `AcceleratorRuntime.EnumerationStaysInVendor` | src/parser/accelerator.cpp:450-453 | An enumeration never selects another vendor's device. |
| `AcceleratorRuntime.SelectionsStayInVendor` | src/resolver/accelerator_visibility.cpp:82-97 | From distinct IDs and runtime records to flags: every selection in force consists of devices of its own vendor. |
| `Cgroups.LimitSummary.AdoptLimit` | src/parser/cgroup.cpp:35-41 | One transition of the four-state summary: a finite limit. |
| `Cgroups.LimitSummary.MarkUnlimited` | src/parser/cgroup.cpp:42-46 | One transition: no limit. |
| `Cgroups.LimitSummary.MarkUnreadable` | src/parser/cgroup.cpp:47-50 | One transition: an unreadable limit. |
| `Cgroups.FoldedState` | src/parser/cgroup.cpp:32-67 | After any events the limit is known exactly when some event came and none was unreadable. |
| `Cgroups.FoldedMinimum` | src/parser/cgroup.cpp:35-41 | The value is a smallest adopted limit, and there is one exactly when one was adopted. |
| `Cgroups.FoldedUnordered` | src/parser/cgroup.cpp:32-67 | Order and repetition of events matter neither for the state nor, up to ties, for the value. |
| `Cgroups.BudgetLessIsWeakOrder` | src/parser/cgroup.cpp:25-29 | Cross multiplication of quota and period is a strict weak order, as the minimum needs. |
| `Cgroups.ParseCgroupLimits` | src/parser/cgroup.cpp:115-183 | The record loop leaves the two summaries' results in the context and reports for each whether it is incomplete. |
| `CgroupTexts.MemoryLimitExact` | src/parser/cgroup.cpp:99-112 | On the texts: memory_limit is the smallest number any readable file prints as a finite limit, in memory.max whatever its size, in memory.limit_in_bytes below 2^63-1-65535; it is incomplete exactly when a collected file says neither a number nor "max", and known exactly when one was collected and it is not incomplete. |
| `CgroupTexts.MemoryTextExact` | src/parser/cgroup.cpp:99-112 | What each memory file says: "max" and, in memory.limit_in_bytes, a number from 2^63-1-65535 on are no limit; another number is a limit; anything else is unreadable. |
| `CgroupTexts.KernelMaximumExample` | src/parser/cgroup.cpp:103-105 | The text 9223372036854771712 is no limit in memory.limit_in_bytes and a finite one in memory.max. |
| `CgroupTexts.CpuLimitExact` | src/parser/cgroup.cpp:78-97 | On the texts: the reported quota and period are printed together by some file and have minimal exact ratio; incomplete exactly when a collected file gives neither two positive numbers nor "max" or "-1" with a positive period; known likewise. |
| `CgroupTexts.CpuTextExact` | src/parser/cgroup.cpp:78-97 | What a quota and a period text say together, zero and non-numbers included. |
| `CgroupTexts.CpuRecordExact` | src/parser/cgroup.cpp:119-150 | Which two texts a file pairs: the two words of cpu.max, or cpu.cfs_quota_us with the first readable period of its directory. |
| `CgroupTexts.FirstUnlimitedPeriod` | src/parser/cgroup.cpp:91-92 | The period reported without a finite budget is that of the first file that says that there is no limit. |
| `CgroupOrder.MemoryUnordered` | src/parser/cgroup.cpp:125-178 | Any order of the records gives the same memory limit and knowledge. |
| `CgroupOrder.CpuOrderExact` | src/parser/cgroup.cpp:78-121 | Every order of the records gives every record the same meaning if and only if no readable quota has two readable periods in its directory that give it different meanings. |
| `CgroupOrder.CpuUnordered` | src/parser/cgroup.cpp:119-177 | Where no readable quota has two readable periods that give it different meanings, any order gives the same state and an equal ratio. |
| `CpuLimitOrder.CpuLimitOrderExact` | src/parser/cgroup.cpp:78-177 | The reported CPU limit, its state and its exact ratio, is the same in every order of the records if and only if, where some file may be unreadable, some file always is, and where some file may give a budget, some file always gives one that none may undercut. |
| `CpuLimitOrder.SlackExample` | src/parser/cgroup.cpp:78-177 | Two periods that change what one quota means in some order, while a smaller budget elsewhere keeps the limit the same in every order. |
| `CgroupOrder.TwoPeriodsBreakOrder` | src/parser/cgroup.cpp:119-121 | With two period records of one directory the first one is paired with the quota: both orders and their two budgets. |
| `CgroupOrder.UnlimitedPeriodExact` | src/parser/cgroup.cpp:78-97 | The period of the unlimited readings, the one reported without a finite budget, is the same in every order if and only if at most one period can be given and, where one can, some record gives one in every order. |
| `CgroupOrder.UnlimitedPeriodBreaksOrder` | src/parser/cgroup.cpp:119-177 | Two unlimited directories with one period each: whichever comes first gives the reported period. |
| `CpuFeatures.IndexExact` | src/model/cpu_features.cpp:35-55 | An ID's evidence is its CPU's own when the CPU is alone with it, and an empty conflict otherwise. |
| `CpuFeatures.FeatureIndex` | src/model/cpu_features.cpp:35-55 | The loop computes the specified index. |
| `CpuFeatures.FeatureReport` | src/model/cpu_features.cpp:57-72 | The loop computes the three lists. |
| `CpuFeatures.ReportPartitions` | src/model/cpu_features.cpp:57-72 | The three lists are strictly increasing and split the IDs by class. |
| `CpuFeatures.FeatureReportExact` | src/model/cpu_features.cpp:83-96 | A CPU alone with its ID is listed under the state it has by itself; an ID shared by several is unknown. |
| `CpuFeatures.ReportListsOnlyCpus` | src/model/cpu_features.cpp:93-96 | The lists together hold exactly the CPUs' IDs. |
| `CpuFeatures.FeatureSummaryOf` | src/model/cpu_features.cpp:98-125 | The three loops compute the specified summary. |
| `CpuFeatures.KnownCanonical` | src/model/cpu_features.cpp:14-25 | No known feature is an alias of another name. |
| `CpuFeatures.CommonIsIntersection` | src/model/cpu_features.cpp:112-123 | The common list is there exactly when every CPU is alone with its ID and reported completely; then it is, in order, the intersection of all CPUs' normalized features. |
| `CpuFeatures.SummaryExact` | src/model/cpu_features.cpp:98-125 | The same for the summary with the library's own vocabulary. |
| `CpuFeatureNames.NormalizeExact` | src/model/cpu_features.cpp:12-20 | The five aliases stand for their features, and every other word for itself. |
| `CpuFeatureNames.FeatureListed` | src/model/cpu_features.cpp:57-96 | On words: asked by any word for a feature, a CPU alone with its ID is reported exactly if one of its words stands for the feature, not reported if none does and its words were complete, and else unknown. |
| `CpuFeatureNames.AliasExample` | src/model/cpu_features.cpp:14-20 | A CPU that reports "pni" is listed as reporting "sse3", and the other way round. |
| `CpuFeatureNames.StateExact` | src/model/cpu_features.cpp:83-91 | The same for one CPU on its own. |
| `CpuFeatureNames.CompleteExact` | src/model/cpu_features.cpp:98-110 | The summary's IDs are those of the CPUs, its complete ones those of CPUs alone with their ID and reported completely. |
| `CpuFeatureNames.ReportsExact` | src/model/cpu_features.cpp:98-124 | The observed names are those some CPU has; there is one report, in name order, for each of them and of the 23 names of the vocabulary. |
| `CpuFeatureNames.CommonFeatures` | src/model/cpu_features.cpp:112-123 | The common list on words: known exactly when every CPU is alone with its ID and complete, and then exactly the features every CPU has a word for. |
| `Numa.AssignRange` | src/parser/cpu.cpp:642-645 | The range loop with its 64-bit counter computes the specified map and number of iterations. |
| `Numa.RangeSteps` | src/parser/cpu.cpp:642-645 | The loop runs at most 1024 times, however wide the range. |
| `Numa.AssignedSize` | src/parser/cpu.cpp:642-645 | After k iterations, up to 1025, the map holds at least k keys. |
| `Numa.RangeOverrun` | src/parser/cpu.cpp:642-645 | The loop leaves its range if and only if the range ends at 2^64-1 and the map is not full after it; if it stops early the map is full. |
| `Numa.OverrunExample` | src/parser/cpu.cpp:642-645 | The range 2^64-2 to 2^64-1 goes on at CPU 0 and stops only with 1024 CPUs. |
| `Numa.RangeWithin` | src/parser/cpu.cpp:642-645 | For every other range: exactly the range's first keys are written, all of them unless the map is full. |
| `Numa.ReadList` | src/parser/cpu.cpp:628-665 | The list loop, with its two early exits, computes the specified map. |
| `Numa.BuildNumaMapping` | src/parser/cpu.cpp:583-669 | All records. |
| `Numa.MappingBounded` | src/parser/cpu.cpp:583-669 | The mapping never holds more than 1024 CPUs. |
| `NumaMapping.MappingIsCapped` | src/parser/cpu.cpp:583-669 | For any records the mapping is the fold over all assignments of all list elements in order, stopped for good at 1024 CPUs; the early exits and the wrapping counter change nothing else. |
| `NumaMapping.MappingExact` | src/parser/cpu.cpp:583-669 | Whatever the lists and however many CPUs they cover: exactly the assignments up to the first that completes 1024 CPUs are in force, a CPU being mapped when one of them names it, to the node of the last that does. |
| `NumaMapping.MappingCovers` | src/parser/cpu.cpp:583-669 | Only covered CPUs are mapped, and all of them if and only if at most 1024 are covered. |
| `NumaMapping.LastListWins` | src/parser/cpu.cpp:583-669 | Where fewer than 1024 CPUs are covered, each is mapped to the node of the last list that covers it. |
| `NumaMapping.FullMappingStays` | src/parser/cpu.cpp:642-661 | Once 1024 CPUs are mapped no further record changes the mapping, not even the nodes of mapped CPUs. |
| `NumaMapping.KeptNodeExample` | src/parser/cpu.cpp:628-665 | "0-1023" on node 0 and then "0" on node 1: CPU 0 keeps node 0, although the last list that covers it is of node 1. |
| `NumaMapping.RangeCpusExact` | src/parser/cpu.cpp:642-645 | The CPUs a range covers are its numbers cut to 32 bits; one up to 2^64-1 goes on from 0 for as many as fill the map. |
| `NumaMapping.ElementExact` | src/parser/cpu.cpp:629-661 | A list element is a range or a CPU exactly when it spells one, blanks aside; any other writes nothing. |
| `NumaMapping.TopListExample` | src/parser/cpu.cpp:628-665 | The one list "18446744073709551614-18446744073709551615" maps CPU 0 and 1024 CPUs in all. |
| `Numa.SkippingIsHarmless` | src/parser/cpu.cpp:646-661 | Skipping the rest of a list changes nothing: the result is that of reading every part. |
| `Numa.BuildNumaNodes` | src/parser/cpu.cpp:720-736 | The grouping loops compute the specified nodes. |
| `Numa.NodesInvertMap` | src/parser/cpu.cpp:720-736 | Node n lists a CPU exactly when the map sends it to n; node numbers and lists are strictly increasing and no list is empty. |
| `CpuTopology.ApplySysfsTopology` | src/parser/cpu.cpp:671-715 | The two loops override listed CPUs and append offline ones. |
| `CpuTopology.ListedTopology` | src/parser/cpu.cpp:693-703 | A listed CPU keeps its place and takes the kernel's package and core number where given, the first time its processor is listed; otherwise it is unchanged. |
| `CpuTopology.TopologyExact` | src/parser/cpu.cpp:693-714 | No listed CPU is lost or moved; an offline CPU is added exactly when no entry lists it and the kernel gives package and core, in ascending order. |
| `CpuTopology.NumberIds` | src/parser/cpu.cpp:779-816 | The counting loops number the sorted keys from zero. |
| `CpuTopology.NumberedExact` | src/parser/cpu.cpp:779-816 | Number and element determine each other. |
| `CpuTopology.CoreKeyExact` | src/parser/cpu.cpp:769-776 | Keys are equal exactly when package and core numbers are, and their order is the pairs' lexicographic order. |
| `CpuTopology.CountsAddUp` | src/parser/cpu.cpp:845-880 | Counting each number below a bound counts every element once. |
| `CpuParser.BuildLogicals` | src/parser/cpu.cpp:818-843 | The loop builds one logical CPU per entry with known numbers. |
| `CpuParser.CountPackages` | src/parser/cpu.cpp:845-866 | In place: each package's cores and threads. |
| `CpuParser.CountCores` | src/parser/cpu.cpp:868-880 | In place: each core's threads. |
| `CpuParser.AssignNodes` | src/parser/cpu.cpp:915-945 | In place: NUMA nodes of cores and logical CPUs, and the node list. |
| `CpuParser.ParseCpu` | src/parser/cpu.cpp:760-945 | No model without a listed CPU; otherwise every modelled field is the specified one. |
| `CpuConsistency.NoEntryLost` | src/parser/cpu.cpp:818-843 | There is one logical CPU per entry, in order, carrying the entry's processor number; no key is ever missing. |
| `CpuConsistency.NumbersAreDense` | src/parser/cpu.cpp:779-816 | Packages and cores are numbered from zero, one per distinct key. |
| `CpuConsistency.SharingExact` | src/parser/cpu.cpp:769-843 | Two logical CPUs share a core exactly when they share package and core number, and a package exactly when they share the package number. |
| `CpuConsistency.ThreadsBelong` | src/parser/cpu.cpp:803-843 | Every thread's core and package exist, and the core belongs to the thread's package. |
| `CpuConsistency.CoresHaveThreads` | src/parser/cpu.cpp:803-843 | No core is without a thread. |
| `CpuConsistency.PackagesHaveThreads` | src/parser/cpu.cpp:779-843 | No package is without a thread. |
| `CpuConsistency.PackageThreadsAddUp` | src/parser/cpu.cpp:845-866 | The packages' thread counts add up to the number of entries. |
| `CpuConsistency.CoreThreadsAddUp` | src/parser/cpu.cpp:868-880 | So do the cores' thread counts. |
| `CpuConsistency.PackageCoresAddUp` | src/parser/cpu.cpp:845-866 | The packages' core counts add up to the number of cores. |
| `CpuConsistency.NodeListsThread` | src/parser/cpu.cpp:935-945 | A logical CPU carries node n exactly when node n lists it. |
| `CpuConsistency.CoreNodeIsFirstThreads` | src/parser/cpu.cpp:919-934 | A core carries the node of its first thread. |
| `CpuConsistency.CoreNodeExact` | src/parser/cpu.cpp:919-934 | All threads of a core carry the core's node if and only if the map gives all entries of that core the same node. |
| `CpuConsistency.SplitCoreExample` | src/parser/cpu.cpp:919-934 | Two threads of one core on nodes 0 and 1: the core takes node 0. |
| `Edac.DeviceKeyExact` | src/parser/memory_edac.cpp:131-139 | The sort key orders by controller, then kind, then index. |
| `Edac.AttachDevice` | src/parser/memory_edac.cpp:153-169 | One device's turn in place, with the two counts over the current lists. |
| `Edac.ApplyEdacInventory` | src/parser/memory_edac.cpp:129-173 | The loop: sorted devices, then either the fallback inventory with its type and source, or association alone. |
| `EdacAssociation.StepExact` | src/parser/memory_edac.cpp:153-169 | A turn attaches exactly a pair that is each other's only match on label and capacity. |
| `EdacAssociation.AssociationExact` | src/parser/memory_edac.cpp:141-170 | After the loop a DIMM holds the data of the one device that is its mutual only match, or is unchanged; a device matches at most one DIMM and a DIMM at most one device. |
| `EdacAssociation.AssociatedFields` | src/parser/memory_edac.cpp:153-170 | On the fields: a DIMM that is the only pair of a device by label and size gets that device's mode, width, controller and index, and keeps all its other data; every other DIMM is unchanged. |
| `EdacAssociation.OneDimmPerDevice` | src/parser/memory_edac.cpp:141-170 | Two associated DIMMs carry the data of two devices, and record one identity exactly when those two devices report one. |
| `EdacAssociation.AssociationIgnoresOrder` | src/parser/memory_edac.cpp:131-170 | The resulting DIMM list does not depend on the order of the devices, so not on how the sort breaks ties. |
| `EdacAssociation.FallbackExact` | src/parser/memory_edac.cpp:140-152 | The fallback inventory holds one DIMM per sized device of DIMM kind, by controller and then index. |
| `EdacAssociation.FallbackFields` | src/parser/memory_edac.cpp:55-68 | On the fields: which DIMM stands for which sized device, present exactly above size zero. |
| `EdacAssociation.TypeExact` | src/parser/memory_edac.cpp:148-151 | The memory type is empty, the one type all sources agree on, or "mixed". |
| `EdacLocations.ReadCoordinates` | src/parser/memory_edac.cpp:72-91 | The pair loop returns all coordinates, or none at the first fault. |
| `EdacLocations.ParseLocation` | src/parser/memory_edac.cpp:72-91 | The report is trimmed and its words read in pairs. |
| `EdacLocations.PairsExact` | src/parser/memory_edac.cpp:78-89 | Words yield given coordinates exactly when they spell them pair by pair with distinct known layers and 32-bit indices. |
| `EdacLocations.AtMostFive` | src/parser/memory_edac.cpp:78-89 | A location never has more than five coordinates. |
| `EdacLocations.LocationRoundTrip` | src/parser/memory_edac.cpp:72-91 | Printed coordinates with distinct layers parse back to themselves. |
| `InventoryReports.FindEnumeration` | include/sysal/model/raw_store.hpp:43-54 | The loop with its early exit finds the unique enumeration. |
| `InventoryReports.UniqueExact` | include/sysal/model/raw_store.hpp:43-54 | An enumeration is found exactly when one and only one of the kind exists, and it is that one. |
| `InventoryReports.SameInventoryExact` | src/resolver/inventory.cpp:26-32 | The comparison of sizes and sets holds if and only if naming maps the entries one to one onto the listed names, with duplicates on either side. |
| `InventoryReports.MakeReport` | src/resolver/inventory.cpp:14-34 | One report, with the loop over the entries' names. |
| `InventoryReports.ReportExact` | src/resolver/inventory.cpp:14-34 | Complete exactly when the only enumeration of the kind succeeded without failure and lists the names one to one; otherwise partial or unknown by whether anything was observed. |
| `InventoryReports.OriginExact` | src/resolver/inventory.cpp:64-107 | The origin each kind names without a unique enumeration, and that packages and cores name the logical CPUs'. |
| `InventoryReports.CompletePciDevices` | src/resolver/inventory.cpp:90-102 | A complete PCI inventory has distinct addresses, as many as listed names, and every listed name parses to one of them. |
| `InventoryReports.CompleteCpus` | src/resolver/inventory.cpp:66-69 | A complete CPU inventory has distinct numbers, and cpuN is listed exactly when there is a logical CPU N. |
| `InventoryReports.CompleteNodes` | src/resolver/inventory.cpp:76-78 | The same for NUMA nodes and nodeN. |
| `InventoryReports.CheckTopology` | src/resolver/inventory.cpp:36-53 | Topology is known exactly when there are CPUs and, for both fields of each, there is one record, readable and spelling a number below 2^32. |
| `InventoryReports.CpuReports` | src/resolver/inventory.cpp:64-81 | The five CPU reports, each complete, partial or unknown exactly as its evidence proves, with its origin; packages and cores are complete exactly when the CPUs are and the topology is known. |
| `InventoryReports.MakeReports` | src/resolver/inventory.cpp:61-107 | The requested kinds in a fixed order, each complete, partial or unknown exactly as its evidence proves, with its origin; caches and accelerators are never complete. |

## Left out

- All reading of files, sysfs, processes and libraries: only the quoting of shell arguments is modelled.
- JSON decoding and encoding beyond storage counters: decoded values and objects are datatypes.
- The accelerator decoders of src/parser/accelerator.cpp: their effect on the inventory is the three steps of
  `AcceleratorIdentity.Run`, adding evidence, naming physical devices and filling in NUMA nodes by address (lines
  401-403), in any order.
- Wording and number of warnings: only the inventory's warnings, the invalid-selector warning, IDs without a device, the
  restriction hint and the two cgroup warnings are modelled.
- Path handling of cgroup, NUMA, EDAC and CPU topology records: records carry the directory, file kind, node or CPU
  number; the normalization of cgroup paths by std::filesystem is not modelled.
- Cgroups.ParseCgroupLimits: does not model the memory usage and cpuset fields, which take the first readable record;
  its two warnings are the two flags it returns.
- The grouping of EDAC records into devices (src/parser/memory_edac.cpp:95-128): devices are the input of the loop.
- CpuParser.ParseCpu: does not model names, frequencies, caches, ISA extensions and identification, which copy fields
  of the entries; it is modelled for numbers, counts and NUMA fields.
- compute_cpu_visibility and the network, block device and NUMA checks of src/resolver/resolve.cpp: one conditional
  assignment per entry.
- parse_mountinfo beyond the unescaping of paths.
- Sorting of equal keys: std::sort may place equal keys in any order; the model keeps their order. Device IDs
  are proved distinct, the EDAC association is proved not to depend on the order, and devices that report one PCI address
  twice are the case where CUDA ordinals could differ.
- Vendor names other than NVIDIA, AMD and Intel are one case with a text, as no selector treats them apart.
