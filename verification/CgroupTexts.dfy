/**
  What the limits of a cgroup hierarchy are in terms of the texts of its files: read_cpu_limit,
  read_memory_limit and parse_cgroup_limits of src/parser/cgroup.cpp.
 */
module CgroupTexts {
  import opened Options
  import opened RawRecords
  import opened ParseUtils
  import opened StreamWords
  import opened Numbers
  import opened Cgroups
  import opened CgroupOrder

  // ----- Memory -----

  /** From here on memory.limit_in_bytes means no limit: 2^63 - 1 - 65535. */
  const NO_MEMORY_LIMIT: nat := 9223372036854710272

  /** A readable memory file whose text is the finite limit n. */
  ghost predicate LimitsMemory(r: Record, n: nat) {
    && r.status == Success && Spells(Trimmed(r.payload), n)
    && (r.file == MemoryMax || (r.file == MemoryLimitInBytes && n < NO_MEMORY_LIMIT))
  }

  /** A readable memory file that says that there is no limit. */
  ghost predicate LeavesMemory(r: Record) {
    && r.status == Success
    && ((r.file == MemoryMax && Trimmed(r.payload) == "max")
        || (r.file == MemoryLimitInBytes
            && (Trimmed(r.payload) == "max"
                || exists n: nat :: Spells(Trimmed(r.payload), n) && n >= NO_MEMORY_LIMIT)))
  }

  /** A memory file that was collected and says neither. */
  ghost predicate HidesMemory(r: Record) {
    && IsMemoryFile(r) && !LeavesMemory(r) && forall n :: !LimitsMemory(r, n)
  }

  lemma MaxSpellsNothing(text: string, n: nat)
    requires Spells(text, n)
    ensures text != "max" && text != "-1"
  {
    NoSpaceTrimmed("max");
    NoSpaceTrimmed("-1");
    assert !IsDigit("max"[0], 10) && !IsDigit("-1"[0], 10);
  }

  /** What a record says about the memory limit. */
  lemma MemoryTextExact(r: Record)
    ensures forall n: nat :: MemoryOf(r) == Some(Adopt(n)) <==> LimitsMemory(r, n)
    ensures MemoryOf(r) == Some(NoLimit) <==> LeavesMemory(r)
    ensures MemoryOf(r) == Some(Unreadable) <==> HidesMemory(r)
  {
    var text := Trimmed(r.payload);
    ParseUintExact(text, 0);
    forall n: nat | Spells(text, n)
      ensures text != "max" && ParseUint(text) == Some(n)
    {
      MaxSpellsNothing(text, n);
      ParseUintExact(text, n);
    }
    if ParseUint(text).Some? {
      ParseUintExact(text, ParseUint(text).value);
    }
  }

  ghost predicate SomeLimitsMemory(records: seq<Record>, n: nat) {
    exists r :: r in records && LimitsMemory(r, n)
  }

  /**
    memory_limit is the smallest of all finite limits the files give, whatever the size of a number in
    memory.max; it is incomplete exactly when some collected file says neither a number nor that there is
    no limit, and known exactly when a memory file was collected and it is not incomplete.
   */
  lemma MemoryLimitExact(records: seq<Record>)
    ensures var s := MemorySummary(records);
      && (if s.value.Some?
          then SomeLimitsMemory(records, s.value.value)
               && forall n | SomeLimitsMemory(records, n) :: s.value.value <= n
          else forall n :: !SomeLimitsMemory(records, n))
      && (s.state == Incomplete <==> exists r :: r in records && HidesMemory(r))
      && (IsKnown(s.state) <==> s.state != Incomplete && exists r :: r in records && IsMemoryFile(r))
  {
    MemoryReadingsExact(records);
    FoldedState(SizeLess, MemoryEvents(records));
    ReadingsExact(MemoryOf, records, Unreadable);
    forall r
      ensures forall n: nat :: MemoryOf(r) == Some(Adopt(n)) <==> LimitsMemory(r, n)
      ensures MemoryOf(r) == Some(Unreadable) <==> HidesMemory(r)
    {
      MemoryTextExact(r);
    }
    forall n
      ensures SomeReads(MemoryOf, records, Adopt(n)) <==> SomeLimitsMemory(records, n)
    {
    }
  }

  // ----- CPU -----

  predicate SaysNoQuota(text: string) {
    text == "max" || text == "-1"
  }

  /** A quota and a period text that make a budget. */
  ghost predicate SpellBudget(quotaText: string, periodText: string, quota: nat, period: nat) {
    Spells(quotaText, quota) && quota > 0 && Spells(periodText, period) && period > 0
  }

  /** A quota and a period text that say that there is no limit, with the period. */
  ghost predicate SpellNoQuota(quotaText: string, periodText: string, period: nat) {
    SaysNoQuota(quotaText) && Spells(periodText, period) && period > 0
  }

  /** read_cpu_limit on any two texts. */
  lemma CpuTextExact(quotaText: string, periodText: string)
    ensures var reading := ReadCpu(quotaText, periodText);
      && (forall quota, period | SpellBudget(quotaText, periodText, quota, period) ::
            reading.event.Adopt? && reading.event.limit == Budget(quota, period) && reading.unlimitedPeriod == None)
      && (forall period | SpellNoQuota(quotaText, periodText, period) ::
            reading == CpuReading(NoLimit, Some(period)))
      && ((forall quota, period :: !SpellBudget(quotaText, periodText, quota, period))
          && (forall period :: !SpellNoQuota(quotaText, periodText, period)) ==>
          reading == CpuReading(Unreadable, None))
  {
    var quota, period := ParseUint(quotaText), ParseUint(periodText);
    forall text: string, n: nat | Spells(text, n)
      ensures !SaysNoQuota(text) && ParseUint(text) == Some(n)
    {
      MaxSpellsNothing(text, n);
      ParseUintExact(text, n);
    }
    if period.Some? {
      ParseUintExact(periodText, period.value);
      if quota.Some? {
        ParseUintExact(quotaText, quota.value);
        assert quota.value > 0 && period.value > 0 ==>
               SpellBudget(quotaText, periodText, quota.value, period.value);
      }
      assert SaysNoQuota(quotaText) && period.value > 0 ==> SpellNoQuota(quotaText, periodText, period.value);
    }
  }

  /** The text of the first readable period record of the directory. */
  ghost predicate FirstPeriodText(records: seq<Record>, directory: string, text: string) {
    exists i: nat :: i < |records| && IsPeriod(records[i], directory) && Trimmed(records[i].payload) == text
                     && forall j: nat | j < i :: !IsPeriod(records[j], directory)
  }

  lemma {:induction false} FirstPeriodKept(records: seq<Record>, directory: string)
    ensures var values, key := ValuesOf(records), (directory, CfsPeriod);
      if key in values then FirstPeriodText(records, directory, values[key])
      else forall r | r in records :: !IsPeriod(r, directory)
  {
    PeriodExact(records, directory);
    if (directory, CfsPeriod) in ValuesOf(records) {
      var n := |records| - 1;
      FirstPeriodKept(records[..n], directory);
      if (directory, CfsPeriod) in ValuesOf(records[..n]) {
        var text := ValuesOf(records)[(directory, CfsPeriod)];
        var i: nat :| i < n && IsPeriod(records[..n][i], directory) && Trimmed(records[..n][i].payload) == text
                      && forall j: nat | j < i :: !IsPeriod(records[..n][j], directory);
        assert records[i] == records[..n][i] && forall j: nat | j < i :: records[j] == records[..n][j];
      } else {
        assert forall j: nat | j < n :: records[j] in records[..n];
      }
    }
  }

  lemma FirstPeriodUnique(records: seq<Record>, directory: string, text: string, other: string)
    requires FirstPeriodText(records, directory, text) && FirstPeriodText(records, directory, other)
    ensures text == other
  {
  }

  /** The quota and the period text of a readable CPU file. */
  ghost predicate CpuTexts(records: seq<Record>, r: Record, quotaText: string, periodText: string) {
    && r.status == Success
    && ((r.file == CpuMax && Words(Trimmed(r.payload)) == [quotaText, periodText])
        || (r.file == CfsQuota && Trimmed(r.payload) == quotaText
            && FirstPeriodText(records, r.directory, periodText)))
  }

  /** What the texts of a CPU file read as; nothing for another file, unreadable without two texts. */
  lemma CpuTextsRead(records: seq<Record>, r: Record)
    ensures forall q, p | CpuTexts(records, r, q, p) :: CpuOf(r, ValuesOf(records)) == Some(ReadCpu(q, p))
    ensures IsCpuFile(r) && (forall q, p :: !CpuTexts(records, r, q, p)) ==>
              CpuOf(r, ValuesOf(records)) == Some(CpuReading(Unreadable, None))
    ensures !IsCpuFile(r) ==> CpuOf(r, ValuesOf(records)) == None
  {
    var values, key := ValuesOf(records), (r.directory, CfsPeriod);
    FirstPeriodKept(records, r.directory);
    forall q, p | CpuTexts(records, r, q, p)
      ensures CpuOf(r, values) == Some(ReadCpu(q, p))
    {
      if r.file == CfsQuota {
        var i: nat :| i < |records| && IsPeriod(records[i], r.directory);
        assert records[i] in records;
        FirstPeriodUnique(records, r.directory, p, values[key]);
      }
    }
    if r.status == Success && r.file == CpuMax && |Words(Trimmed(r.payload))| == 2 {
      var words := Words(Trimmed(r.payload));
      assert words == [words[0], words[1]];
      assert CpuTexts(records, r, words[0], words[1]);
    }
    if r.status == Success && r.file == CfsQuota && key in values {
      assert CpuTexts(records, r, Trimmed(r.payload), values[key]);
    }
  }

  ghost predicate GivesBudget(records: seq<Record>, r: Record, budget: CpuBudget) {
    exists q, p :: CpuTexts(records, r, q, p) && SpellBudget(q, p, budget.quota, budget.period)
  }

  ghost predicate GivesNoQuota(records: seq<Record>, r: Record, period: nat) {
    exists q, p :: CpuTexts(records, r, q, p) && SpellNoQuota(q, p, period)
  }

  /** A CPU file that was collected and says neither. */
  ghost predicate HidesCpu(records: seq<Record>, r: Record) {
    && IsCpuFile(r)
    && (forall budget :: !GivesBudget(records, r, budget)) && (forall period: nat :: !GivesNoQuota(records, r, period))
  }

  lemma UniqueTexts(records: seq<Record>, r: Record, q: string, p: string, v: string, w: string)
    requires CpuTexts(records, r, q, p) && CpuTexts(records, r, v, w)
    ensures q == v && p == w
  {
    if r.file == CpuMax {
      assert [q, p][0] == [v, w][0] && [q, p][1] == [v, w][1];
    } else {
      FirstPeriodUnique(records, r.directory, p, w);
    }
  }

  /** What a record of the hierarchy says about the CPU limit, with its two texts given. */
  lemma CpuTwoTexts(records: seq<Record>, r: Record, q: string, p: string)
    requires CpuTexts(records, r, q, p)
    ensures var reading := ReadCpu(q, p);
      && (forall budget: CpuBudget :: reading.event == Adopt(budget) <==> GivesBudget(records, r, budget))
      && (reading.event == Unreadable <==> HidesCpu(records, r))
      && (forall period: nat :: reading.unlimitedPeriod == Some(period) <==> GivesNoQuota(records, r, period))
  {
    CpuTextExact(q, p);
    forall budget: CpuBudget
      ensures GivesBudget(records, r, budget) <==> SpellBudget(q, p, budget.quota, budget.period)
    {
      if GivesBudget(records, r, budget) {
        var v, w :| CpuTexts(records, r, v, w) && SpellBudget(v, w, budget.quota, budget.period);
        UniqueTexts(records, r, q, p, v, w);
      }
    }
    forall period: nat
      ensures GivesNoQuota(records, r, period) <==> SpellNoQuota(q, p, period)
    {
      if GivesNoQuota(records, r, period) {
        var v, w :| CpuTexts(records, r, v, w) && SpellNoQuota(v, w, period);
        UniqueTexts(records, r, q, p, v, w);
      }
    }
  }

  /** What a record of the hierarchy says about the CPU limit, and the period it gives without one. */
  lemma CpuRecordExact(records: seq<Record>, r: Record)
    ensures var read := CpuEventReader(ValuesOf(records));
      && (forall budget: CpuBudget :: read(r) == Some(Adopt(budget)) <==> GivesBudget(records, r, budget))
      && (read(r) == Some(Unreadable) <==> HidesCpu(records, r))
      && (forall period: nat :: PeriodIn(CpuOf(r, ValuesOf(records))) == Some(period)
                                <==> GivesNoQuota(records, r, period))
  {
    CpuTextsRead(records, r);
    if q, p :| CpuTexts(records, r, q, p) {
      CpuTwoTexts(records, r, q, p);
    }
  }

  ghost predicate SomeGivesBudget(records: seq<Record>, budget: CpuBudget) {
    exists r :: r in records && GivesBudget(records, r, budget)
  }

  lemma CpuValueExact(records: seq<Record>)
    ensures var s := CpuSummary(records);
      if s.value.Some?
      then SomeGivesBudget(records, s.value.value)
           && forall budget: CpuBudget | SomeGivesBudget(records, budget) :: !BudgetLess(budget, s.value.value)
      else forall budget: CpuBudget :: !SomeGivesBudget(records, budget)
  {
    var read := CpuEventReader(ValuesOf(records));
    CpuReadingsExact(records);
    forall budget: CpuBudget
      ensures SomeReads(read, records, Adopt(budget)) <==> SomeGivesBudget(records, budget)
    {
      forall r
        ensures read(r) == Some(Adopt(budget)) <==> GivesBudget(records, r, budget)
      {
        CpuRecordExact(records, r);
      }
    }
  }

  lemma CpuFilesRead(records: seq<Record>, r: Record)
    ensures CpuEventReader(ValuesOf(records))(r).Some? <==> IsCpuFile(r)
  {
  }

  lemma CpuStateExact(records: seq<Record>)
    ensures var s := CpuSummary(records);
      && (s.state == Incomplete <==> exists r :: r in records && HidesCpu(records, r))
      && (IsKnown(s.state) <==> s.state != Incomplete && exists r :: r in records && IsCpuFile(r))
  {
    var read := CpuEventReader(ValuesOf(records));
    CpuReadingsExact(records);
    FoldedState(BudgetLess, CpuEvents(records));
    ReadingsExact(read, records, Unreadable);
    forall r
      ensures read(r) == Some(Unreadable) <==> HidesCpu(records, r)
      ensures read(r).Some? <==> IsCpuFile(r)
    {
      CpuRecordExact(records, r);
      CpuFilesRead(records, r);
    }
  }

  /**
    The reported quota and period are printed by some file and have the smallest exact ratio of all budgets
    given; the limit is incomplete exactly when some collected CPU file gives neither a budget nor an
    unlimited period, and known exactly when one was collected and it is not incomplete.
   */
  lemma CpuLimitExact(records: seq<Record>)
    ensures var s := CpuSummary(records);
      && (if s.value.Some?
          then SomeGivesBudget(records, s.value.value)
               && forall budget: CpuBudget | SomeGivesBudget(records, budget) :: !BudgetLess(budget, s.value.value)
          else forall budget: CpuBudget :: !SomeGivesBudget(records, budget))
      && (s.state == Incomplete <==> exists r :: r in records && HidesCpu(records, r))
      && (IsKnown(s.state) <==> s.state != Incomplete && exists r :: r in records && IsCpuFile(r))
  {
    CpuValueExact(records);
    CpuStateExact(records);
  }

  lemma NothingGiven(period: Option<nat>)
    requires forall n: nat :: period != Some(n)
    ensures period == None
  {
    match period
    case None =>
    case Some(n) =>
  }

  /** The period reported without a finite budget is that of the first file that says that there is no limit. */
  lemma FirstUnlimitedPeriod(records: seq<Record>, i: nat, period: nat)
    requires i < |records| && GivesNoQuota(records, records[i], period)
    requires forall j: nat, p: nat | j < i :: !GivesNoQuota(records, records[j], p)
    ensures FirstPeriod(Readings(CpuReader(ValuesOf(records)), records)) == Some(period)
  {
    var values := ValuesOf(records);
    FirstGivenIs(values, records);
    CpuRecordExact(records, records[i]);
    forall j: nat | j < i
      ensures PeriodIn(CpuOf(records[j], values)) == None
    {
      CpuRecordExact(records, records[j]);
      NothingGiven(PeriodIn(CpuOf(records[j], values)));
    }
    FirstGivenAt(values, records, i);
  }

  lemma NoUnlimitedPeriod(records: seq<Record>)
    requires forall r, period: nat | r in records :: !GivesNoQuota(records, r, period)
    ensures FirstPeriod(Readings(CpuReader(ValuesOf(records)), records)) == None
  {
    var values := ValuesOf(records);
    FirstGivenIs(values, records);
    FirstGivenExact(values, records);
    forall r | r in records
      ensures PeriodIn(CpuOf(r, values)) == None
    {
      CpuRecordExact(records, r);
      NothingGiven(PeriodIn(CpuOf(r, values)));
    }
  }

  // ----- Examples -----

  lemma PrintedSpells(n: nat)
    requires n <= U64_MAX
    ensures Spells(Trimmed(Decimal(n)), n)
  {
    ValueDigits(n, 10);
    DigitsTrimmed(Decimal(n), 10);
  }

  lemma OneRecord<V>(less: (V, V) -> bool, read: Record -> Option<Event<V>>, r: Record)
    ensures Folded(less, Readings(read, [r])) == Fed(less, Summary(Unknown, None), read(r))
  {
    var records := [r];
    FoldedStep(less, read, records, 0);
    assert records[..0] == [] && records[..1] == records;
  }

  lemma OneMemoryFile(r: Record, n: nat)
    requires r.status == Success && Spells(Trimmed(r.payload), n)
    requires r.file == MemoryMax || r.file == MemoryLimitInBytes
    ensures MemorySummary([r]) == if r.file == MemoryLimitInBytes && n >= NO_MEMORY_LIMIT
                                  then Summary(Unlimited, None) else Summary(Finite, Some(n))
  {
    MemoryTextExact(r);
    OneRecord(SizeLess, MemoryOf, r);
    assert LimitsMemory(r, n) || LeavesMemory(r);
  }

  /** cgroup v1 without a limit: the kernel's 2^63 - 4096 is no limit there, and a finite one in memory.max. */
  lemma KernelMaximumExample(directory: string)
    ensures MemorySummary([Record(Success, directory, MemoryLimitInBytes, Decimal(9223372036854771712))])
         == Summary(Unlimited, None)
    ensures MemorySummary([Record(Success, directory, MemoryMax, Decimal(9223372036854771712))])
         == Summary(Finite, Some(9223372036854771712))
  {
    var n: nat := 9223372036854771712;
    PrintedSpells(n);
    OneMemoryFile(Record(Success, directory, MemoryLimitInBytes, Decimal(n)), n);
    OneMemoryFile(Record(Success, directory, MemoryMax, Decimal(n)), n);
  }
}
