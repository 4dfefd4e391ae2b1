/**
  CPU features in terms of the words the kernel reports: the five aliases, each CPU's state, and every part
  of the summary of src/model/cpu_features.cpp.
 */
module CpuFeatureNames {
  import opened Options
  import opened SortedSets
  import opened SortedNames
  import opened CpuFeatures

  // ----- Words -----

  /** The kernel's other words for a feature. */
  ghost predicate IsAlias(word: string, name: string) {
    (word, name) in {("pni", "sse3"), ("sha_ni", "sha"), ("cx16", "cmpxchg16b"), ("lahf_lm", "lahf_sahf"),
                     ("avx512_vnni", "avx512vnni")}
  }

  /** A word stands for the feature it is an alias of, or else for itself. */
  ghost predicate Stands(word: string, name: string) {
    IsAlias(word, name) || (word == name && forall other :: !IsAlias(word, other))
  }

  lemma NormalizeExact(word: string, name: string)
    ensures Normalize(word) == name <==> Stands(word, name)
  {
    var normal := Normalize(word);
    assert normal != word ==> IsAlias(word, normal);
    if normal == word {
      forall other
        ensures !IsAlias(word, other)
      {
      }
    }
  }

  /** Some word the kernel reports for the CPU stands for the feature. */
  ghost predicate HasFeature(cpu: LogicalCpu, name: string) {
    name != "" && exists word :: word in cpu.features && Stands(word, name)
  }

  lemma HasFeatureExact(cpu: LogicalCpu, name: string)
    ensures HasFeature(cpu, name) <==> name in CanonicalSet(cpu.features)
  {
    CanonicalSetExact(cpu.features, name);
    forall word
      ensures Normalize(word) == name <==> Stands(word, name)
    {
      NormalizeExact(word, name);
    }
    if Mentions(cpu.features, name) {
      var i :| 0 <= i < |cpu.features| && Normalize(cpu.features[i]) == name;
      assert cpu.features[i] in cpu.features;
    }
  }

  /** The state of a feature on one CPU, asked for by any word for it. */
  lemma StateExact(cpu: LogicalCpu, word: string, name: string)
    requires Stands(word, name)
    ensures FeatureOf(cpu, word) == if HasFeature(cpu, name) then Reported
                                    else if name != "" && cpu.reported then NotReported else Unknown
  {
    NormalizeExact(word, name);
    HasFeatureExact(cpu, name);
    CanonicalSetExact(cpu.features, name);
  }

  // ----- One report -----

  /**
    Asked for any word for a feature, a CPU alone with its ID is reported if some of its words stands for
    it, not reported if none does and its words were complete, and else unknown; a shared ID is unknown.
   */
  lemma FeatureListed(cpus: seq<LogicalCpu>, i: nat, word: string, name: string)
    requires i < |cpus| && Stands(word, name)
    ensures var r, id := ReportOf(IndexOf(cpus), word), cpus[i].id;
      && r.name == name
      && (id in r.reported <==> Alone(cpus, i) && HasFeature(cpus[i], name))
      && (id in r.notReported <==>
            Alone(cpus, i) && name != "" && !HasFeature(cpus[i], name) && cpus[i].reported)
      && (id in r.unknown <==>
            !Alone(cpus, i) || name == "" || (!HasFeature(cpus[i], name) && !cpus[i].reported))
  {
    NormalizeExact(word, name);
    IndexExact(cpus, i);
    ReportPartitions(IndexOf(cpus), word);
    HasFeatureExact(cpus[i], name);
  }

  lemma OneReported(cpu: LogicalCpu, word: string, id: nat)
    ensures var r := ReportOf(IndexOf([cpu]), word);
      id in r.reported || id in r.notReported || id in r.unknown <==> id == cpu.id
  {
    ReportListsOnlyCpus([cpu], word, id);
    assert [cpu][0].id == cpu.id;
  }

  lemma ListOf(q: seq<nat>, s: set<nat>)
    requires Increasing(q) && forall y :: y in q <==> y in s
    ensures |q| == |s|
  {
    DistinctSize(q);
    assert Elements(q) == s;
  }

  lemma OnlyReported(cpu: LogicalCpu, word: string, name: string)
    requires Stands(word, name) && HasFeature(cpu, name)
    ensures ReportOf(IndexOf([cpu]), word) == Report(name, [cpu.id], [], [])
  {
    var r := ReportOf(IndexOf([cpu]), word);
    FeatureListed([cpu], 0, word, name);
    ReportPartitions(IndexOf([cpu]), word);
    assert Alone([cpu], 0);
    forall id
      ensures id in r.reported <==> id == cpu.id
      ensures id !in r.notReported && id !in r.unknown
    {
      OneReported(cpu, word, id);
    }
    ListOf(r.reported, {cpu.id});
    ListOf(r.notReported, {});
    ListOf(r.unknown, {});
    assert r.reported[0] in r.reported;
  }

  /** A CPU that reports "pni" is listed as reporting "sse3", and one that reports "sse3" for "pni". */
  lemma AliasExample(cpu: LogicalCpu)
    ensures "pni" in cpu.features ==> ReportOf(IndexOf([cpu]), "sse3") == Report("sse3", [cpu.id], [], [])
    ensures "sse3" in cpu.features ==> ReportOf(IndexOf([cpu]), "pni") == Report("sse3", [cpu.id], [], [])
  {
    NormalizeExact("sse3", "sse3");
    NormalizeExact("pni", "sse3");
    assert Alone([cpu], 0);
    if "pni" in cpu.features || "sse3" in cpu.features {
      var word := if "pni" in cpu.features then "pni" else "sse3";
      assert HasFeature(cpu, "sse3") by { assert word in cpu.features && Stands(word, "sse3"); }
      OnlyReported(cpu, "sse3", "sse3");
      OnlyReported(cpu, "pni", "sse3");
    }
  }

  // ----- The summary -----

  /** The library's vocabulary. */
  ghost const FEATURE_NAMES: set<string> := {
    "sse", "sse2", "sse3", "ssse3", "sse4_1", "sse4_2", "avx", "avx2", "avx512f", "avx512cd", "avx512bw", "avx512dq",
    "avx512vl", "aes", "fma", "f16c", "pclmulqdq", "avx512vnni", "sha", "bmi1", "bmi2", "cmpxchg16b", "lahf_sahf"}

  lemma KnownNames(name: string)
    ensures name in KNOWN_FEATURES <==> name in FEATURE_NAMES
  {
  }

  /** Some CPU that is alone with its ID has the feature. */
  ghost predicate SomeHas(cpus: seq<LogicalCpu>, name: string) {
    exists i :: 0 <= i < |cpus| && Alone(cpus, i) && HasFeature(cpus[i], name)
  }

  lemma SomeHasExact(cpus: seq<LogicalCpu>, name: string)
    ensures SomeCpuHas(IndexOf(cpus), name) <==> SomeHas(cpus, name)
  {
    var index := IndexOf(cpus);
    forall i | 0 <= i < |cpus|
      ensures cpus[i].id in index
      ensures name in index[cpus[i].id].features <==> Alone(cpus, i) && HasFeature(cpus[i], name)
    {
      IndexExact(cpus, i);
      HasFeatureExact(cpus[i], name);
    }
    if id :| id in index && name in index[id].features {
      IndexKeys(cpus, id);
      var i :| 0 <= i < |cpus| && cpus[i].id == id;
      assert Alone(cpus, i) && HasFeature(cpus[i], name);
    }
  }

  lemma CompleteExact(cpus: seq<LogicalCpu>, id: nat)
    ensures var s := SummaryOf(IndexOf(cpus), KNOWN_FEATURES);
      && Increasing(s.ids) && Increasing(s.completeIds)
      && (id in s.ids <==> exists i :: 0 <= i < |cpus| && cpus[i].id == id)
      && (id in s.completeIds <==>
            exists i :: 0 <= i < |cpus| && cpus[i].id == id && Alone(cpus, i) && cpus[i].reported)
  {
    var index := IndexOf(cpus);
    AscendingKeys(index);
    FilteredExact(Ascending(index.Keys), IsComplete(index));
    IndexKeys(cpus, id);
    forall i | 0 <= i < |cpus|
      ensures cpus[i].id in index && (index[cpus[i].id].complete <==> Alone(cpus, i) && cpus[i].reported)
    {
      IndexExact(cpus, i);
    }
  }

  ghost predicate Vocabular(cpus: seq<LogicalCpu>, name: string) {
    name in FEATURE_NAMES || SomeHas(cpus, name)
  }

  lemma {:induction false} ReportsAt(report: string -> Report, names: seq<string>)
    ensures |Reports(report, names)| == |names|
    ensures forall k | 0 <= k < |names| :: Reports(report, names)[k] == report(names[k])
  {
    if names != [] {
      ReportsAt(report, names[..|names| - 1]);
    }
  }

  /** The observed names are those some CPU has, and there is one report for each of them and of the vocabulary. */
  lemma ReportsExact(cpus: seq<LogicalCpu>, names: seq<string>)
    requires names == NamesInOrder(Vocabulary(IndexOf(cpus), KNOWN_FEATURES))
    ensures var s := SummaryOf(IndexOf(cpus), KNOWN_FEATURES);
      && NamesIncreasing(s.observed) && (forall name :: name in s.observed <==> SomeHas(cpus, name))
      && NamesIncreasing(names) && (forall name :: name in names <==> Vocabular(cpus, name))
      && |s.reports| == |names|
      && forall k | 0 <= k < |names| :: s.reports[k] == ReportOf(IndexOf(cpus), names[k])
  {
    var index := IndexOf(cpus);
    NamesInOrderLists(ObservedIn(index));
    NamesInOrderLists(Vocabulary(index, KNOWN_FEATURES));
    ReportsAt(Reporter(index), names);
    var observed := NamesInOrder(ObservedIn(index));
    forall name
      ensures name in observed <==> SomeHas(cpus, name)
      ensures name in names <==> Vocabular(cpus, name)
    {
      ObservedExact(index, name);
      SomeHasExact(cpus, name);
      KnownNames(name);
      assert name in observed <==> name in Elements(observed);
      assert name in names <==> name in Elements(names);
    }
  }

  lemma InAllExact(cpus: seq<LogicalCpu>, name: string)
    ensures InAll(cpus, name) <==> forall i | 0 <= i < |cpus| :: HasFeature(cpus[i], name)
  {
    forall i | 0 <= i < |cpus|
      ensures HasFeature(cpus[i], name) <==> name in CanonicalSet(cpus[i].features)
    {
      HasFeatureExact(cpus[i], name);
    }
  }

  /**
    The common features are known exactly when there are CPUs, each is the only one with its ID and each
    gave complete words; then they are, in order, those every CPU has.
   */
  lemma CommonFeatures(cpus: seq<LogicalCpu>, name: string)
    ensures var common := SummaryOf(IndexOf(cpus), KNOWN_FEATURES).common;
      && (common.Some? <==> cpus != [] && forall i | 0 <= i < |cpus| :: Alone(cpus, i) && cpus[i].reported)
      && (common.Some? ==>
          NamesIncreasing(common.value)
          && (name in common.value <==> forall i | 0 <= i < |cpus| :: HasFeature(cpus[i], name)))
  {
    SummaryExact(cpus, name);
    InAllExact(cpus, name);
  }
}
