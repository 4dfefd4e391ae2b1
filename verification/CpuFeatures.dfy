/** CPU feature evidence: normalization, per-CPU state, reports and the summary of src/model/cpu_features.cpp. */
module CpuFeatures {
  import opened Options
  import opened Numbers
  import opened SortedSets
  import opened SortedNames

  // ----- Names -----

  /** normalize_cpu_feature: known Linux aliases become their canonical name. */
  function Normalize(name: string): string {
    if name == "pni" then "sse3"
    else if name == "sha_ni" then "sha"
    else if name == "cx16" then "cmpxchg16b"
    else if name == "lahf_lm" then "lahf_sahf"
    else if name == "avx512_vnni" then "avx512vnni"
    else name
  }

  const SSE_FEATURES: seq<string> := ["sse", "sse2", "sse3", "ssse3", "sse4_1", "sse4_2"]

  const AVX_FEATURES: seq<string> := ["avx", "avx2", "avx512f", "avx512cd", "avx512bw", "avx512dq", "avx512vl"]

  const VECTOR_FEATURES: seq<string> := ["aes", "fma", "f16c", "pclmulqdq", "avx512vnni"]

  const OTHER_FEATURES: seq<string> := ["sha", "bmi1", "bmi2", "cmpxchg16b", "lahf_sahf"]

  const KNOWN_FEATURES: seq<string> := SSE_FEATURES + AVX_FEATURES + VECTOR_FEATURES + OTHER_FEATURES

  ghost predicate CanonicalName(name: string) {
    Normalize(name) == name
  }

  lemma NormalizeIdempotent(name: string)
    ensures CanonicalName(Normalize(name)) && (Normalize(name) == "" <==> name == "")
  {
  }

  ghost predicate CanonicalNames(names: seq<string>) {
    forall i | 0 <= i < |names| :: CanonicalName(names[i])
  }

  lemma SseCanonical()
    ensures CanonicalNames(SSE_FEATURES)
  {
  }

  lemma AvxCanonical()
    ensures CanonicalNames(AVX_FEATURES)
  {
  }

  lemma VectorCanonical()
    ensures CanonicalNames(VECTOR_FEATURES)
  {
  }

  lemma OtherCanonical()
    ensures CanonicalNames(OTHER_FEATURES)
  {
  }

  lemma CanonicalConcat(a: seq<string>, b: seq<string>)
    requires CanonicalNames(a) && CanonicalNames(b)
    ensures CanonicalNames(a + b)
  {
  }

  /** No known feature is an alias of another. */
  lemma KnownCanonical()
    ensures CanonicalNames(KNOWN_FEATURES)
  {
    SseCanonical();
    AvxCanonical();
    VectorCanonical();
    OtherCanonical();
    CanonicalConcat(SSE_FEATURES, AVX_FEATURES);
    CanonicalConcat(SSE_FEATURES + AVX_FEATURES, VECTOR_FEATURES);
    CanonicalConcat(SSE_FEATURES + AVX_FEATURES + VECTOR_FEATURES, OTHER_FEATURES);
  }

  // ----- One CPU -----

  /** A logical CPU with its feature words; `reported` tells that the kernel gave the whole field. */
  datatype LogicalCpu = LogicalCpu(id: nat, reported: bool, features: seq<string>)

  datatype FeatureState = Unknown | Reported | NotReported

  /** CpuIdentification::feature. */
  function FeatureOf(cpu: LogicalCpu, name: string): FeatureState {
    if Normalize(name) == "" then Unknown
    else if exists i | 0 <= i < |cpu.features| :: Normalize(cpu.features[i]) == Normalize(name) then Reported
    else if cpu.reported then NotReported
    else Unknown
  }

  /** The canonical names of a CPU's words, empty words dropped. */
  function CanonicalSet(features: seq<string>): (s: set<string>) {
    if features == [] then {} else
    var last := features[|features| - 1];
    CanonicalSet(features[..|features| - 1]) + if last == "" then {} else {Normalize(last)}
  }

  ghost predicate Mentions(features: seq<string>, name: string) {
    exists i :: 0 <= i < |features| && Normalize(features[i]) == name
  }

  lemma {:induction false} CanonicalSetExact(features: seq<string>, name: string)
    ensures name in CanonicalSet(features) <==> name != "" && Mentions(features, name)
  {
    if features != [] {
      var n := |features| - 1;
      CanonicalSetExact(features[..n], name);
      NormalizeIdempotent(features[n]);
      assert forall i | 0 <= i < n :: features[..n][i] == features[i];
      assert Normalize(features[n]) == name ==> Mentions(features, name);
    }
  }

  // ----- The index -----

  datatype Evidence = Evidence(complete: bool, duplicate: bool, features: set<string>)

  type Index = map<nat, Evidence>

  const CONFLICT: Evidence := Evidence(false, true, {})

  /** feature_index: an ID seen twice keeps no evidence. */
  function IndexOf(cpus: seq<LogicalCpu>): Index {
    if cpus == [] then map[] else
    var before, cpu := IndexOf(cpus[..|cpus| - 1]), cpus[|cpus| - 1];
    before[cpu.id := if cpu.id in before then CONFLICT else Evidence(cpu.reported, false, CanonicalSet(cpu.features))]
  }

  method InsertFeatures(features: seq<string>) returns (result: set<string>)
    ensures result == CanonicalSet(features)
  {
    result := {};
    for i := 0 to |features|
      invariant result == CanonicalSet(features[..i])
    {
      assert features[..i + 1][..i] == features[..i];
      if features[i] != "" {
        result := result + {Normalize(features[i])};
      }
    }
    assert features[..|features|] == features;
  }

  method FeatureIndex(cpus: seq<LogicalCpu>) returns (index: Index)
    ensures index == IndexOf(cpus)
  {
    index := map[];
    for i := 0 to |cpus|
      invariant index == IndexOf(cpus[..i])
    {
      assert cpus[..i + 1][..i] == cpus[..i];
      var cpu := cpus[i];
      if cpu.id in index {
        index := index[cpu.id := Evidence(false, true, {})];
      } else {
        var features := InsertFeatures(cpu.features);
        index := index[cpu.id := Evidence(cpu.reported, false, features)];
      }
    }
    assert cpus[..|cpus|] == cpus;
  }

  ghost predicate Has(cpus: seq<LogicalCpu>, id: nat) {
    exists i :: 0 <= i < |cpus| && cpus[i].id == id
  }

  /** The CPU at i is the only one with its ID. */
  ghost predicate Alone(cpus: seq<LogicalCpu>, i: nat) {
    i < |cpus| && forall j | 0 <= j < |cpus| && j != i :: cpus[j].id != cpus[i].id
  }

  lemma {:induction false} IndexKeys(cpus: seq<LogicalCpu>, id: nat)
    ensures id in IndexOf(cpus) <==> Has(cpus, id)
  {
    if cpus != [] {
      var n := |cpus| - 1;
      IndexKeys(cpus[..n], id);
      assert forall i | 0 <= i < n :: cpus[..n][i] == cpus[i];
      assert cpus[n].id == id ==> Has(cpus, id);
    }
  }

  /** The evidence of an ID is its CPU's own when that CPU is alone, and empty when several share the ID. */
  lemma {:induction false} IndexExact(cpus: seq<LogicalCpu>, i: nat)
    requires i < |cpus|
    ensures cpus[i].id in IndexOf(cpus)
    ensures IndexOf(cpus)[cpus[i].id] ==
            if Alone(cpus, i) then Evidence(cpus[i].reported, false, CanonicalSet(cpus[i].features)) else CONFLICT
  {
    var n := |cpus| - 1;
    var front := cpus[..n];
    assert forall j | 0 <= j < n :: front[j] == cpus[j];
    IndexKeys(front, cpus[n].id);
    if i < n {
      IndexExact(front, i);
      if cpus[i].id == cpus[n].id {
        assert Has(front, cpus[n].id);
      } else {
        assert Alone(cpus, i) <==> Alone(front, i);
      }
    } else if Has(front, cpus[n].id) {
      var j :| 0 <= j < n && front[j].id == cpus[n].id;
      assert cpus[j].id == cpus[i].id;
    }
  }

  // ----- Reports -----

  function ClassOf(evidence: Evidence, canonical: string): FeatureState {
    if canonical == "" || evidence.duplicate then Unknown
    else if canonical in evidence.features then Reported
    else if evidence.complete then NotReported
    else Unknown
  }

  datatype Report = Report(name: string, reported: seq<nat>, notReported: seq<nat>, unknown: seq<nat>)

  function InClass(index: Index, canonical: string, state: FeatureState): nat -> bool {
    (id: nat) => id in index && ClassOf(index[id], canonical) == state
  }

  /** The indexed IDs of a class, in key order. */
  function OfClass(index: Index, canonical: string, state: FeatureState): seq<nat> {
    Filtered(Ascending(index.Keys), InClass(index, canonical, state))
  }

  function ReportOf(index: Index, name: string): Report {
    var canonical := Normalize(name);
    Report(canonical, OfClass(index, canonical, Reported), OfClass(index, canonical, NotReported),
           OfClass(index, canonical, Unknown))
  }

  lemma AscendingKeys(index: Index)
    ensures Increasing(Ascending(index.Keys)) && |Ascending(index.Keys)| == |index|
    ensures forall id :: id in Ascending(index.Keys) <==> id in index
  {
    AscendingLists(index.Keys);
    forall id ensures id in Ascending(index.Keys) <==> id in index {
      assert id in Ascending(index.Keys) <==> id in Elements(Ascending(index.Keys));
    }
  }

  /** One CPU of the report loop. */
  method Classify(evidence: Evidence, canonical: string) returns (state: FeatureState)
    ensures state == ClassOf(evidence, canonical)
  {
    var usable := canonical != "" && !evidence.duplicate;
    if usable && canonical in evidence.features {
      return Reported;
    } else if usable && evidence.complete {
      return NotReported;
    } else {
      return Unknown;
    }
  }

  /** feature_report: one pass in key order sorts the IDs into three lists. */
  method FeatureReport(index: Index, name: string) returns (report: Report)
    ensures report == ReportOf(index, name)
  {
    AscendingKeys(index);
    var ids, canonical := Ascending(index.Keys), Normalize(name);
    report := Report(canonical, [], [], []);
    var i := 0;
    while i < |ids|
      invariant 0 <= i <= |ids| && report.name == canonical
      invariant report.reported == Filtered(ids[..i], InClass(index, canonical, Reported))
      invariant report.notReported == Filtered(ids[..i], InClass(index, canonical, NotReported))
      invariant report.unknown == Filtered(ids[..i], InClass(index, canonical, Unknown))
    {
      FilteredStep(ids, InClass(index, canonical, Reported), i);
      FilteredStep(ids, InClass(index, canonical, NotReported), i);
      FilteredStep(ids, InClass(index, canonical, Unknown), i);
      var id := ids[i];
      assert id in ids;
      var state := Classify(index[id], canonical);
      match state {
        case Reported => report := report.(reported := report.reported + [id]);
        case NotReported => report := report.(notReported := report.notReported + [id]);
        case Unknown => report := report.(unknown := report.unknown + [id]);
      }
      i := i + 1;
    }
    assert ids[..|ids|] == ids;
  }

  lemma OfClassExact(index: Index, canonical: string, state: FeatureState)
    ensures var result := OfClass(index, canonical, state);
      && Increasing(result)
      && (forall id :: id in result <==> id in index && ClassOf(index[id], canonical) == state)
      && (|result| == |index| <==> forall id | id in index :: ClassOf(index[id], canonical) == state)
  {
    AscendingKeys(index);
    FilteredExact(Ascending(index.Keys), InClass(index, canonical, state));
  }

  /** The three lists are strictly increasing and split the known IDs by their class. */
  lemma ReportPartitions(index: Index, name: string)
    ensures var r := ReportOf(index, name);
      && Increasing(r.reported) && Increasing(r.notReported) && Increasing(r.unknown)
      && (forall id :: id in r.reported <==> id in index && ClassOf(index[id], Normalize(name)) == Reported)
      && (forall id :: id in r.notReported <==> id in index && ClassOf(index[id], Normalize(name)) == NotReported)
      && (forall id :: id in r.unknown <==> id in index && ClassOf(index[id], Normalize(name)) == Unknown)
  {
    OfClassExact(index, Normalize(name), Reported);
    OfClassExact(index, Normalize(name), NotReported);
    OfClassExact(index, Normalize(name), Unknown);
  }

  lemma ClassIsFeature(cpu: LogicalCpu, name: string)
    ensures ClassOf(Evidence(cpu.reported, false, CanonicalSet(cpu.features)), Normalize(name)) == FeatureOf(cpu, name)
  {
    CanonicalSetExact(cpu.features, Normalize(name));
  }

  /**
    Cpu::feature over any CPU list: a CPU that is alone is listed under the state it has by itself, an
    ID shared by several CPUs is always unknown, and nothing else is listed.
   */
  lemma FeatureReportExact(cpus: seq<LogicalCpu>, name: string, i: nat)
    requires i < |cpus|
    ensures var r, id := ReportOf(IndexOf(cpus), name), cpus[i].id;
      var state := if Alone(cpus, i) then FeatureOf(cpus[i], name) else Unknown;
      && (id in r.reported <==> state == Reported)
      && (id in r.notReported <==> state == NotReported)
      && (id in r.unknown <==> state == Unknown)
  {
    IndexExact(cpus, i);
    ReportPartitions(IndexOf(cpus), name);
    ClassIsFeature(cpus[i], name);
  }

  lemma ReportListsOnlyCpus(cpus: seq<LogicalCpu>, name: string, id: nat)
    ensures var r := ReportOf(IndexOf(cpus), name);
      id in r.reported || id in r.notReported || id in r.unknown <==> Has(cpus, id)
  {
    ReportPartitions(IndexOf(cpus), name);
    IndexKeys(cpus, id);
  }

  // ----- The summary -----

  datatype FeatureSummary = FeatureSummary(
    ids: seq<nat>,
    completeIds: seq<nat>,
    observed: seq<string>,
    common: Option<seq<string>>,
    reports: seq<Report>)

  function IsComplete(index: Index): nat -> bool {
    (id: nat) => id in index && index[id].complete
  }

  function FeaturesOf(index: Index): nat -> set<string> {
    (id: nat) => if id in index then index[id].features else {}
  }

  function UnionOver(ids: seq<nat>, features: nat -> set<string>): set<string> {
    if ids == [] then {} else UnionOver(ids[..|ids| - 1], features) + features(ids[|ids| - 1])
  }

  /** All features some CPU reported. */
  function ObservedIn(index: Index): set<string> {
    UnionOver(Ascending(index.Keys), FeaturesOf(index))
  }

  /** The observed names and a known vocabulary. */
  function Vocabulary(index: Index, known: seq<string>): set<string> {
    ObservedIn(index) + Elements(known)
  }

  function Reporter(index: Index): string -> Report {
    name => ReportOf(index, name)
  }

  function Reports(report: string -> Report, names: seq<string>): seq<Report> {
    if names == [] then [] else Reports(report, names[..|names| - 1]) + [report(names[|names| - 1])]
  }

  /** The names of the reports that list all n CPUs, in order. */
  function Common(report: string -> Report, n: nat, names: seq<string>): seq<string> {
    if names == [] then [] else
    var last := report(names[|names| - 1]);
    Common(report, n, names[..|names| - 1]) + if |last.reported| == n then [last.name] else []
  }

  /** Whether the common features can be known: there are CPUs and all of them gave complete evidence. */
  predicate CommonDefined(index: Index) {
    index.Keys != {} && |Filtered(Ascending(index.Keys), IsComplete(index))| == |index|
  }

  function SummaryOf(index: Index, known: seq<string>): FeatureSummary {
    var ids := Ascending(index.Keys);
    var names := NamesInOrder(Vocabulary(index, known));
    FeatureSummary(ids, Filtered(ids, IsComplete(index)), NamesInOrder(ObservedIn(index)),
                   if CommonDefined(index) then Some(Common(Reporter(index), |index|, names)) else None,
                   Reports(Reporter(index), names))
  }

  lemma KeyAt(index: Index, i: nat)
    requires i < |Ascending(index.Keys)|
    ensures Ascending(index.Keys)[i] in index
  {
    AscendingKeys(index);
    assert Ascending(index.Keys)[i] in Ascending(index.Keys);
  }

  lemma UnionStep(ids: seq<nat>, features: nat -> set<string>, i: nat)
    requires i < |ids|
    ensures UnionOver(ids[..i + 1], features) == UnionOver(ids[..i], features) + features(ids[i])
  {
    assert ids[..i + 1][..i] == ids[..i];
  }

  method ObserveCpus(index: Index) returns (ids: seq<nat>, complete: seq<nat>, observed: set<string>)
    ensures ids == Ascending(index.Keys)
    ensures complete == Filtered(ids, IsComplete(index)) && observed == ObservedIn(index)
  {
    var keys := Ascending(index.Keys);
    ids, complete, observed := [], [], {};
    ghost var isComplete, features := IsComplete(index), FeaturesOf(index);
    var i := 0;
    while i < |keys|
      invariant 0 <= i <= |keys| && ids == keys[..i]
      invariant complete == Filtered(keys[..i], isComplete)
      invariant observed == UnionOver(keys[..i], features)
    {
      var id := keys[i];
      KeyAt(index, i);
      FilteredStep(keys, isComplete, i);
      UnionStep(keys, features, i);
      assert isComplete(id) == index[id].complete && features(id) == index[id].features;
      ids := ids + [id];
      if index[id].complete {
        complete := complete + [id];
      }
      observed := observed + index[id].features;
      i := i + 1;
    }
    assert keys[..|keys|] == keys;
  }

  lemma ReportsStep(report: string -> Report, n: nat, names: seq<string>, i: nat)
    requires i < |names|
    ensures Reports(report, names[..i + 1]) == Reports(report, names[..i]) + [report(names[i])]
    ensures var before := Common(report, n, names[..i]);
      Common(report, n, names[..i + 1]) ==
      if |report(names[i]).reported| == n then before + [report(names[i]).name] else before
  {
    assert names[..i + 1][..i] == names[..i];
  }

  method ReportFor(index: Index, name: string) returns (report: Report)
    ensures report == Reporter(index)(name)
  {
    report := FeatureReport(index, name);
  }

  /** The vocabulary loop: one report per name, and the names all CPUs report when that is known. */
  method ReportNames(index: Index, names: seq<string>, known: bool)
    returns (reports: seq<Report>, common: Option<seq<string>>)
    ensures reports == Reports(Reporter(index), names)
    ensures common == if known then Some(Common(Reporter(index), |index|, names)) else None
  {
    reports, common := [], if known then Some([]) else None;
    ghost var read := Reporter(index);
    var i := 0;
    while i < |names|
      invariant 0 <= i <= |names| && reports == Reports(read, names[..i])
      invariant common == if known then Some(Common(read, |index|, names[..i])) else None
    {
      ReportsStep(read, |index|, names, i);
      var report := ReportFor(index, names[i]);
      if common.Some? && |report.reported| == |index| {
        common := Some(common.value + [report.name]);
      }
      reports := reports + [report];
      i := i + 1;
    }
    assert names[..|names|] == names;
  }

  /** Cpu::feature_summary. */
  method FeatureSummaryOf(cpus: seq<LogicalCpu>) returns (summary: FeatureSummary)
    ensures summary == SummaryOf(IndexOf(cpus), KNOWN_FEATURES)
  {
    var index := FeatureIndex(cpus);
    var ids, complete, observed := ObserveCpus(index);
    var names := NamesInOrder(observed + Elements(KNOWN_FEATURES));
    var reports, common := ReportNames(index, names, index.Keys != {} && |complete| == |index|);
    summary := FeatureSummary(ids, complete, NamesInOrder(observed), common, reports);
  }

  lemma {:induction false} UnionOverExact(ids: seq<nat>, features: nat -> set<string>, name: string)
    ensures name in UnionOver(ids, features) <==> exists id :: id in ids && name in features(id)
  {
    if ids != [] {
      var n := |ids| - 1;
      UnionOverExact(ids[..n], features, name);
      assert ids == ids[..n] + [ids[n]];
    }
  }

  ghost predicate SomeCpuHas(index: Index, name: string) {
    exists id :: id in index && name in index[id].features
  }

  lemma ObservedExact(index: Index, name: string)
    ensures name in ObservedIn(index) <==> SomeCpuHas(index, name)
  {
    AscendingKeys(index);
    UnionOverExact(Ascending(index.Keys), FeaturesOf(index), name);
  }

  lemma {:induction false} CommonExact(report: string -> Report, n: nat, names: seq<string>, name: string)
    requires forall x | x in names :: report(x).name == x
    ensures name in Common(report, n, names) <==> name in names && |report(name).reported| == n
  {
    if names != [] {
      var k := |names| - 1;
      assert names == names[..k] + [names[k]];
      CommonExact(report, n, names[..k], name);
    }
  }

  lemma NamesSnoc(q: seq<string>, name: string)
    requires NamesIncreasing(q) && forall x | x in q :: LexLess(x, name)
    ensures NamesIncreasing(q + [name])
  {
  }

  lemma {:induction false} CommonIncreasing(report: string -> Report, n: nat, names: seq<string>)
    requires NamesIncreasing(names) && forall x | x in names :: report(x).name == x
    ensures NamesIncreasing(Common(report, n, names))
  {
    if names != [] {
      var k := |names| - 1;
      var front := Common(report, n, names[..k]);
      assert names == names[..k] + [names[k]];
      CommonIncreasing(report, n, names[..k]);
      forall x | x in front ensures LexLess(x, names[k]) {
        CommonExact(report, n, names[..k], x);
      }
      NamesSnoc(front, names[k]);
    }
  }

  /** Every feature in the index is a non-empty canonical name. */
  lemma IndexedNamesCanonical(cpus: seq<LogicalCpu>, id: nat, name: string)
    requires id in IndexOf(cpus) && name in IndexOf(cpus)[id].features
    ensures CanonicalName(name) && name != ""
  {
    IndexKeys(cpus, id);
    var i :| 0 <= i < |cpus| && cpus[i].id == id;
    IndexExact(cpus, i);
    CanonicalSetExact(cpus[i].features, name);
    var k :| 0 <= k < |cpus[i].features| && Normalize(cpus[i].features[k]) == name;
    NormalizeIdempotent(cpus[i].features[k]);
  }

  lemma VocabularyExact(cpus: seq<LogicalCpu>, known: seq<string>, name: string)
    requires CanonicalNames(known)
    ensures var index := IndexOf(cpus); var names := NamesInOrder(Vocabulary(index, known));
      && NamesIncreasing(names)
      && (name in names <==> name in known || SomeCpuHas(index, name))
      && (name in names ==> CanonicalName(name))
  {
    var index := IndexOf(cpus);
    NamesInOrderLists(Vocabulary(index, known));
    ObservedExact(index, name);
    assert name in NamesInOrder(Vocabulary(index, known)) <==> name in Elements(NamesInOrder(Vocabulary(index, known)));
    if id :| id in index && name in index[id].features {
      IndexedNamesCanonical(cpus, id, name);
    }
  }

  ghost predicate AllAloneAndReported(cpus: seq<LogicalCpu>) {
    forall i | 0 <= i < |cpus| :: Alone(cpus, i) && cpus[i].reported
  }

  lemma AllComplete(index: Index)
    ensures CommonDefined(index) <==> index.Keys != {} && forall id | id in index :: index[id].complete
  {
    AscendingKeys(index);
    FilteredExact(Ascending(index.Keys), IsComplete(index));
  }

  lemma CommonKnown(cpus: seq<LogicalCpu>)
    ensures CommonDefined(IndexOf(cpus)) <==> cpus != [] && AllAloneAndReported(cpus)
  {
    var index := IndexOf(cpus);
    AllComplete(index);
    forall id ensures id in index <==> Has(cpus, id) {
      IndexKeys(cpus, id);
    }
    forall i | 0 <= i < |cpus| ensures cpus[i].id in index
              && (index[cpus[i].id].complete <==> Alone(cpus, i) && cpus[i].reported) {
      IndexExact(cpus, i);
    }
  }

  lemma EveryCpuReports(cpus: seq<LogicalCpu>, name: string)
    requires AllAloneAndReported(cpus) && CanonicalName(name)
    ensures |ReportOf(IndexOf(cpus), name).reported| == |IndexOf(cpus)| <==>
            forall i | 0 <= i < |cpus| :: name in CanonicalSet(cpus[i].features)
  {
    var index := IndexOf(cpus);
    OfClassExact(index, name, Reported);
    forall id ensures id in index <==> Has(cpus, id) {
      IndexKeys(cpus, id);
    }
    forall i | 0 <= i < |cpus|
      ensures cpus[i].id in index
      ensures ClassOf(index[cpus[i].id], name) == Reported <==> name in CanonicalSet(cpus[i].features)
    {
      IndexExact(cpus, i);
      CanonicalSetExact(cpus[i].features, name);
    }
  }

  lemma SharedNameIsIndexed(cpus: seq<LogicalCpu>, name: string)
    requires cpus != [] && AllAloneAndReported(cpus) && name in CanonicalSet(cpus[0].features)
    ensures SomeCpuHas(IndexOf(cpus), name)
  {
    IndexExact(cpus, 0);
  }

  ghost predicate InAll(cpus: seq<LogicalCpu>, name: string) {
    forall i | 0 <= i < |cpus| :: name in CanonicalSet(cpus[i].features)
  }

  lemma ReporterKeepsNames(cpus: seq<LogicalCpu>, known: seq<string>)
    requires CanonicalNames(known)
    ensures var index := IndexOf(cpus);
      forall x | x in NamesInOrder(Vocabulary(index, known)) :: Reporter(index)(x).name == x
  {
    var index := IndexOf(cpus);
    forall x | x in NamesInOrder(Vocabulary(index, known)) ensures Reporter(index)(x).name == x {
      VocabularyExact(cpus, known, x);
    }
  }

  lemma VocabularyNameReported(cpus: seq<LogicalCpu>, known: seq<string>, name: string)
    requires CanonicalNames(known)
    requires AllAloneAndReported(cpus) && name in NamesInOrder(Vocabulary(IndexOf(cpus), known))
    ensures |Reporter(IndexOf(cpus))(name).reported| == |IndexOf(cpus)| <==> InAll(cpus, name)
  {
    VocabularyExact(cpus, known, name);
    EveryCpuReports(cpus, name);
  }

  lemma SharedNameInVocabulary(cpus: seq<LogicalCpu>, known: seq<string>, name: string)
    requires CanonicalNames(known)
    requires cpus != [] && AllAloneAndReported(cpus) && name in CanonicalSet(cpus[0].features)
    ensures name in NamesInOrder(Vocabulary(IndexOf(cpus), known))
  {
    SharedNameIsIndexed(cpus, name);
    VocabularyExact(cpus, known, name);
  }

  lemma CommonOver(report: string -> Report, n: nat, names: seq<string>, name: string, everyone: bool)
    requires NamesIncreasing(names) && forall x | x in names :: report(x).name == x
    requires if name in names then (|report(name).reported| == n <==> everyone) else !everyone
    ensures NamesIncreasing(Common(report, n, names)) && (name in Common(report, n, names) <==> everyone)
  {
    CommonIncreasing(report, n, names);
    CommonExact(report, n, names, name);
  }

  lemma CommonMembers(cpus: seq<LogicalCpu>, known: seq<string>, name: string)
    requires CanonicalNames(known)
    requires cpus != [] && AllAloneAndReported(cpus)
    ensures var index := IndexOf(cpus);
      var common := Common(Reporter(index), |index|, NamesInOrder(Vocabulary(index, known)));
      NamesIncreasing(common) && (name in common <==> InAll(cpus, name))
  {
    var index := IndexOf(cpus);
    var names := NamesInOrder(Vocabulary(index, known));
    ReporterKeepsNames(cpus, known);
    assert NamesIncreasing(names) by { VocabularyExact(cpus, known, name); }
    if name in names {
      VocabularyNameReported(cpus, known, name);
    } else if InAll(cpus, name) {
      SharedNameInVocabulary(cpus, known, name);
    }
    CommonOver(Reporter(index), |index|, names, name, InAll(cpus, name));
  }

  /**
    The common features: known exactly when there are CPUs, each is the only one with its ID and each
    gave a complete field; then they are, in order, the exact intersection of the CPUs' canonical sets.
   */
  lemma CommonIsIntersection(cpus: seq<LogicalCpu>, known: seq<string>, name: string)
    requires CanonicalNames(known)
    ensures var common := SummaryOf(IndexOf(cpus), known).common;
      && (common.Some? <==> cpus != [] && AllAloneAndReported(cpus))
      && (common.Some? ==>
          NamesIncreasing(common.value)
          && (name in common.value <==> InAll(cpus, name)))
  {
    CommonKnown(cpus);
    if cpus != [] && AllAloneAndReported(cpus) {
      CommonMembers(cpus, known, name);
    }
  }

  /** The summary the library gives, with its own list of known features. */
  lemma SummaryExact(cpus: seq<LogicalCpu>, name: string)
    ensures var common := SummaryOf(IndexOf(cpus), KNOWN_FEATURES).common;
      && (common.Some? <==> cpus != [] && AllAloneAndReported(cpus))
      && (common.Some? ==> NamesIncreasing(common.value) && (name in common.value <==> InAll(cpus, name)))
  {
    KnownCanonical();
    CommonIsIntersection(cpus, KNOWN_FEATURES, name);
  }
}
