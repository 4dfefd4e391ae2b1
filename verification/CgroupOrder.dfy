/**
  What the order of the cgroup records can and cannot change in the limits of parse_cgroup_limits,
  src/parser/cgroup.cpp.
 */
module CgroupOrder {
  import opened Options
  import opened RawRecords
  import opened ParseUtils
  import opened Numbers
  import opened Sorting
  import opened Cgroups

  ghost predicate SameRecords(a: seq<Record>, b: seq<Record>) {
    forall r :: r in a <==> r in b
  }

  lemma ReorderedSame(a: seq<Record>, b: seq<Record>)
    requires multiset(a) == multiset(b)
    ensures SameRecords(a, b)
  {
    forall r
      ensures r in a <==> r in b
    {
      assert r in a <==> r in multiset(a);
      assert r in b <==> r in multiset(b);
    }
  }

  lemma ReadingsUnordered<E>(read: Record -> Option<E>, a: seq<Record>, b: seq<Record>, e: E)
    requires SameRecords(a, b)
    ensures e in Readings(read, a) <==> e in Readings(read, b)
  {
    ReadingsExact(read, a, e);
    ReadingsExact(read, b, e);
  }

  /** In whatever order the memory records come, the same limit is reported, known or not alike. */
  lemma MemoryUnordered(a: seq<Record>, b: seq<Record>)
    requires SameRecords(a, b)
    ensures MemorySummary(a) == MemorySummary(b)
  {
    forall e
      ensures e in MemoryEvents(a) <==> e in MemoryEvents(b)
    {
      ReadingsUnordered(MemoryOf, a, b, e);
    }
    FoldedUnordered(SizeLess, MemoryEvents(a), MemoryEvents(b));
  }

  // ----- Which period a quota is paired with -----

  ghost predicate IsPeriod(r: Record, directory: string) {
    r.status == Success && r.file == CfsPeriod && r.directory == directory
  }

  ghost predicate IsQuota(r: Record) {
    r.status == Success && r.file == CfsQuota
  }

  lemma {:induction false} PeriodExact(records: seq<Record>, directory: string)
    ensures var values := ValuesOf(records);
      if (directory, CfsPeriod) in values
      then exists r :: r in records && IsPeriod(r, directory) && values[(directory, CfsPeriod)] == Trimmed(r.payload)
      else forall r | r in records :: !IsPeriod(r, directory)
  {
    if records != [] {
      var n := |records| - 1;
      PeriodExact(records[..n], directory);
      SnocMembers(records);
      if (directory, CfsPeriod) in ValuesOf(records[..n]) {
        var r :| r in records[..n] && IsPeriod(r, directory)
                 && ValuesOf(records[..n])[(directory, CfsPeriod)] == Trimmed(r.payload);
        assert r in records;
      } else if IsPeriod(records[n], directory) {
        assert records[n] in records;
      }
    }
  }

  /** Later records never replace the text of a path. */
  lemma {:induction false} ValuesPrefix(front: seq<Record>, rest: seq<Record>, key: (string, File))
    requires key in ValuesOf(front)
    ensures key in ValuesOf(front + rest) && ValuesOf(front + rest)[key] == ValuesOf(front)[key]
  {
    if rest == [] {
      assert front + rest == front;
    } else {
      ValuesPrefix(front, rest[..|rest| - 1], key);
      assert (front + rest)[..|front + rest| - 1] == front + rest[..|rest| - 1];
    }
  }

  lemma FirstPeriodWins(p: Record, rest: seq<Record>, directory: string)
    requires IsPeriod(p, directory)
    ensures var values := ValuesOf([p] + rest);
      (directory, CfsPeriod) in values && values[(directory, CfsPeriod)] == Trimmed(p.payload)
  {
    assert [p][..0] == [];
    assert ValuesOf([p]) == map[(directory, CfsPeriod) := Trimmed(p.payload)];
    ValuesPrefix([p], rest, (directory, CfsPeriod));
  }

  /** The i-th record moved to the front. */
  function Fronted<T>(q: seq<T>, i: nat): (result: seq<T>)
    requires i < |q|
    ensures multiset(result) == multiset(q) && result == [q[i]] + q[..i] + q[i + 1..]
  {
    assert q == q[..i] + [q[i]] + q[i + 1..];
    [q[i]] + q[..i] + q[i + 1..]
  }

  function Paired(r: Record, p: Record): CpuReading {
    ReadCpu(Trimmed(r.payload), Trimmed(p.payload))
  }

  ghost predicate HasPeriod(records: seq<Record>, directory: string) {
    exists p :: p in records && IsPeriod(p, directory)
  }

  /** What r can read as in some order of the records: a quota is paired with any period of its directory. */
  ghost predicate CanRead(records: seq<Record>, r: Record, reading: Option<CpuReading>) {
    if IsQuota(r) && HasPeriod(records, r.directory)
    then exists p :: p in records && IsPeriod(p, r.directory) && reading == Some(Paired(r, p))
    else reading == CpuOf(r, map[])
  }

  lemma ReadsWithin(a: seq<Record>, b: seq<Record>, r: Record)
    requires SameRecords(a, b)
    ensures CanRead(a, r, CpuOf(r, ValuesOf(b)))
  {
    PeriodExact(b, r.directory);
    if IsQuota(r) && HasPeriod(a, r.directory) {
      var p :| p in b && IsPeriod(p, r.directory) && ValuesOf(b)[(r.directory, CfsPeriod)] == Trimmed(p.payload);
      assert CpuOf(r, ValuesOf(b)) == Some(Paired(r, p));
    } else if IsQuota(r) {
      assert (r.directory, CfsPeriod) !in ValuesOf(b);
    }
  }

  /** Any period of the directory can be the one a quota is paired with. */
  lemma PairedFirst(p: Record, rest: seq<Record>, r: Record)
    requires IsQuota(r) && IsPeriod(p, r.directory)
    ensures CpuOf(r, ValuesOf([p] + rest)) == Some(Paired(r, p))
  {
    FirstPeriodWins(p, rest, r.directory);
  }

  // ----- Orders by period -----

  /** The number a period record gives, 0 for one that is no period. */
  function PeriodKey(r: Record): nat {
    var value := ParseUint(Trimmed(r.payload));
    if value.None? then 0 else value.value
  }

  /** What a quota says with a period of that number. */
  function ReadAt(quotaText: string, period: nat): CpuReading {
    var quota := ParseUint(quotaText);
    var unlimited := quotaText == "max" || quotaText == "-1";
    if period == 0 || (!unlimited && (quota.None? || quota.value == 0)) then NO_CPU_READING
    else if unlimited then CpuReading(NoLimit, Some(period))
    else CpuReading(Adopt(Budget(quota.value, period)), None)
  }

  lemma PairedAt(r: Record, p: Record)
    ensures Paired(r, p) == ReadAt(Trimmed(r.payload), PeriodKey(p))
  {
  }

  /** In an order by any key the first readable period of a directory has the least key. */
  lemma {:induction false} LeastPeriod(records: seq<Record>, directory: string, key: Record -> nat) returns (p: Record)
    requires Ordered(records, key) && (directory, CfsPeriod) in ValuesOf(records)
    ensures p in records && IsPeriod(p, directory) && ValuesOf(records)[(directory, CfsPeriod)] == Trimmed(p.payload)
    ensures forall q | q in records && IsPeriod(q, directory) :: key(p) <= key(q)
  {
    var n := |records| - 1;
    SnocMembers(records);
    if (directory, CfsPeriod) in ValuesOf(records[..n]) {
      p := LeastPeriod(records[..n], directory, key);
    } else {
      p := records[n];
      PeriodExact(records[..n], directory);
    }
  }

  lemma OrderedBy(a: seq<Record>, key: Record -> nat) returns (b: seq<Record>)
    ensures multiset(b) == multiset(a) && SameRecords(a, b) && Ordered(b, key)
  {
    b := SortedByKey(a, key);
    SortedOrdered(a, key);
    ReorderedSame(a, b);
  }

  lemma LeastPaired(a: seq<Record>, b: seq<Record>, r: Record, key: Record -> nat) returns (p: Record)
    requires SameRecords(a, b) && Ordered(b, key) && IsQuota(r) && HasPeriod(a, r.directory)
    ensures p in a && IsPeriod(p, r.directory) && CpuOf(r, ValuesOf(b)) == Some(Paired(r, p))
    ensures forall q | q in a && IsPeriod(q, r.directory) :: key(p) <= key(q)
  {
    PeriodExact(b, r.directory);
    p := LeastPeriod(b, r.directory, key);
  }

  // ----- The CPU limit -----

  /** Every record says the same about the limit in both orders. */
  ghost predicate SameEvents(a: seq<Record>, b: seq<Record>) {
    forall r | r in a :: CpuEventReader(ValuesOf(a))(r) == CpuEventReader(ValuesOf(b))(r)
  }

  /** No readable quota has two readable periods in its directory that give it different meanings. */
  ghost predicate PeriodsAgree(records: seq<Record>) {
    forall r, p, q | r in records && p in records && q in records
      && IsQuota(r) && IsPeriod(p, r.directory) && IsPeriod(q, r.directory) ::
      Paired(r, p).event == Paired(r, q).event
  }

  lemma AgreeingEvents(a: seq<Record>, b: seq<Record>)
    requires SameRecords(a, b) && PeriodsAgree(a)
    ensures SameEvents(a, b)
  {
    forall r | r in a
      ensures CpuEventReader(ValuesOf(a))(r) == CpuEventReader(ValuesOf(b))(r)
    {
      ReadsWithin(a, a, r);
      ReadsWithin(a, b, r);
    }
  }

  lemma DisagreeingEvents(a: seq<Record>, r: Record, p: Record) returns (b: seq<Record>)
    requires r in a && p in a && IsQuota(r) && IsPeriod(p, r.directory)
    ensures multiset(b) == multiset(a) && CpuEventReader(ValuesOf(b))(r) == Some(Paired(r, p).event)
  {
    var i :| 0 <= i < |a| && a[i] == p;
    b := Fronted(a, i);
    assert b == [p] + (a[..i] + a[i + 1..]);
    PairedFirst(p, a[..i] + a[i + 1..], r);
  }

  /**
    Every order of the records gives every record the same meaning if and only if no readable quota has
    two readable periods in its directory that give it different meanings.
   */
  lemma CpuOrderExact(a: seq<Record>)
    ensures (forall b | multiset(b) == multiset(a) :: SameEvents(a, b)) <==> PeriodsAgree(a)
  {
    if PeriodsAgree(a) {
      forall b | multiset(b) == multiset(a)
        ensures SameEvents(a, b)
      {
        ReorderedSame(a, b);
        AgreeingEvents(a, b);
      }
    }
    if forall b | multiset(b) == multiset(a) :: SameEvents(a, b) {
      forall r, p, q | r in a && p in a && q in a && IsQuota(r) && IsPeriod(p, r.directory) && IsPeriod(q, r.directory)
        ensures Paired(r, p).event == Paired(r, q).event
      {
        var b := DisagreeingEvents(a, r, p);
        var c := DisagreeingEvents(a, r, q);
        assert SameEvents(a, b) && SameEvents(a, c);
      }
    }
  }

  /** Knowledge and value of both orders agree, the value up to equal ratios. */
  ghost predicate SameLimit(a: seq<Record>, b: seq<Record>) {
    var s, t := CpuSummary(a), CpuSummary(b);
    && s.state == t.state && s.value.Some? == t.value.Some?
    && (s.value.Some? ==> s.value.value.quota * t.value.value.period == t.value.value.quota * s.value.value.period)
  }

  /** Under that condition the reported limit is the same in every order, up to equal ratios. */
  lemma CpuUnordered(a: seq<Record>, b: seq<Record>)
    requires SameRecords(a, b) && PeriodsAgree(a)
    ensures SameLimit(a, b)
  {
    var f, g := CpuEventReader(ValuesOf(a)), CpuEventReader(ValuesOf(b));
    AgreeingEvents(a, b);
    forall e
      ensures e in CpuEvents(a) <==> e in CpuEvents(b)
    {
      ReadingsExact(f, a, e);
      ReadingsExact(g, b, e);
      assert forall r | r in a :: f(r) == Some(e) <==> g(r) == Some(e);
    }
    BudgetLessIsWeakOrder();
    FoldedUnordered(BudgetLess, CpuEvents(a), CpuEvents(b));
  }

  // ----- The period of an unlimited hierarchy -----

  /** The period reported when no finite budget is. */
  function UnlimitedPeriod(records: seq<Record>): Option<nat> {
    FirstPeriod(Readings(CpuReader(ValuesOf(records)), records))
  }

  function PeriodIn(reading: Option<CpuReading>): Option<nat> {
    if reading.None? then None else reading.value.unlimitedPeriod
  }

  /** The readings' periods by record, in order. */
  function FirstGiven(values: Values, records: seq<Record>): Option<nat> {
    if records == [] then None else
    var before := FirstGiven(values, records[..|records| - 1]);
    if before.Some? then before else PeriodIn(CpuOf(records[|records| - 1], values))
  }

  lemma {:induction false} FirstGivenIs(values: Values, records: seq<Record>)
    ensures FirstPeriod(Readings(CpuReader(values), records)) == FirstGiven(values, records)
  {
    if records != [] {
      var n := |records| - 1;
      FirstGivenIs(values, records[..n]);
      PeriodStep(values, records, n);
      assert records[..n + 1] == records;
    }
  }

  lemma {:induction false} FirstGivenExact(values: Values, records: seq<Record>)
    ensures FirstGiven(values, records) == None <==> forall r | r in records :: PeriodIn(CpuOf(r, values)) == None
    ensures FirstGiven(values, records).Some? ==>
              exists r :: r in records && PeriodIn(CpuOf(r, values)) == FirstGiven(values, records)
  {
    if records != [] {
      FirstGivenExact(values, records[..|records| - 1]);
      SnocMembers(records);
    }
  }

  /** The first record that gives a period decides. */
  lemma {:induction false} FirstGivenAt(values: Values, records: seq<Record>, i: nat)
    requires i < |records| && PeriodIn(CpuOf(records[i], values)).Some?
    requires forall j | 0 <= j < i :: PeriodIn(CpuOf(records[j], values)) == None
    ensures FirstGiven(values, records) == PeriodIn(CpuOf(records[i], values))
  {
    var n := |records| - 1;
    if i < n {
      FirstGivenAt(values, records[..n], i);
    } else {
      FirstGivenExact(values, records[..n]);
      assert forall r | r in records[..n] :: PeriodIn(CpuOf(r, values)) == None;
    }
  }

  /** r gives that period, or none, in some order. */
  ghost predicate MayGive(records: seq<Record>, r: Record, period: Option<nat>) {
    exists reading :: CanRead(records, r, reading) && PeriodIn(reading) == period
  }

  /** At most one period can be given, and if one can, some record always gives one. */
  ghost predicate OnePeriod(records: seq<Record>) {
    && (forall r, s, m, n | r in records && s in records
          && MayGive(records, r, Some(m)) && MayGive(records, s, Some(n)) ::
          m == n)
    && ((exists r, m :: r in records && MayGive(records, r, Some(m))) ==>
        exists r :: r in records && !MayGive(records, r, None))
  }

  lemma GivesWithin(a: seq<Record>, b: seq<Record>, r: Record)
    requires SameRecords(a, b)
    ensures MayGive(a, r, PeriodIn(CpuOf(r, ValuesOf(b))))
  {
    ReadsWithin(a, b, r);
  }

  lemma UnlimitedPeriodWithin(a: seq<Record>, b: seq<Record>)
    requires SameRecords(a, b)
    ensures UnlimitedPeriod(b).Some? ==> exists r :: r in a && MayGive(a, r, UnlimitedPeriod(b))
    ensures UnlimitedPeriod(b) == None ==> forall r | r in a :: MayGive(a, r, None)
  {
    var values := ValuesOf(b);
    FirstGivenIs(values, b);
    FirstGivenExact(values, b);
    forall r | r in a
      ensures MayGive(a, r, PeriodIn(CpuOf(r, values)))
    {
      GivesWithin(a, b, r);
    }
  }

  lemma FirstUnlimited(p: Record, r: Record, rest: seq<Record>)
    requires IsQuota(r) && IsPeriod(p, r.directory) && Paired(r, p).unlimitedPeriod.Some?
    ensures UnlimitedPeriod([p, r] + rest) == Paired(r, p).unlimitedPeriod
  {
    var records := [p, r] + rest;
    assert records == [p] + ([r] + rest);
    PairedFirst(p, [r] + rest, r);
    FirstGivenIs(ValuesOf(records), records);
    FirstGivenAt(ValuesOf(records), records, 1);
  }

  lemma TakenOut<T>(q: seq<T>, x: T) returns (rest: seq<T>)
    requires x in q
    ensures multiset(q) == multiset{x} + multiset(rest)
  {
    var i :| 0 <= i < |q| && q[i] == x;
    rest := q[..i] + q[i + 1..];
    assert q == q[..i] + [x] + q[i + 1..];
  }

  lemma TwoFronted<T>(q: seq<T>, x: T, y: T) returns (rest: seq<T>)
    requires x in q && y in q && x != y
    ensures multiset([x, y] + rest) == multiset(q)
  {
    var others := TakenOut(q, y);
    assert x in multiset(q);
    assert x in multiset(others);
    rest := TakenOut(others, x);
    assert multiset([x, y] + rest) == multiset([x, y]) + multiset(rest);
  }

  lemma OtherFirst(a: seq<Record>, r: Record) returns (b: seq<Record>)
    requires r in a && r.file != CfsQuota && PeriodIn(CpuOf(r, map[])).Some?
    ensures multiset(b) == multiset(a) && FirstGiven(ValuesOf(b), b) == PeriodIn(CpuOf(r, map[]))
  {
    var i :| 0 <= i < |a| && a[i] == r;
    b := Fronted(a, i);
    assert CpuOf(r, ValuesOf(b)) == CpuOf(r, map[]);
    FirstGivenAt(ValuesOf(b), b, 0);
  }

  /** Any period some record may give is reported in some order. */
  lemma OrderGiving(a: seq<Record>, r: Record, period: nat) returns (b: seq<Record>)
    requires r in a && MayGive(a, r, Some(period))
    ensures multiset(b) == multiset(a) && UnlimitedPeriod(b) == Some(period)
  {
    var reading :| CanRead(a, r, reading) && PeriodIn(reading) == Some(period);
    if IsQuota(r) && HasPeriod(a, r.directory) {
      var p :| p in a && IsPeriod(p, r.directory) && reading == Some(Paired(r, p));
      var rest := TwoFronted(a, p, r);
      b := [p, r] + rest;
      FirstUnlimited(p, r, rest);
    } else {
      b := OtherFirst(a, r);
      FirstGivenIs(ValuesOf(b), b);
    }
  }

  lemma MissingInOrder(a: seq<Record>, b: seq<Record>, r: Record)
    requires SameRecords(a, b) && Ordered(b, PeriodKey) && MayGive(a, r, None)
    ensures PeriodIn(CpuOf(r, ValuesOf(b))) == None
  {
    var reading :| CanRead(a, r, reading) && PeriodIn(reading) == None;
    if IsQuota(r) && HasPeriod(a, r.directory) {
      var p := LeastPaired(a, b, r, PeriodKey);
      var q :| q in a && IsPeriod(q, r.directory) && reading == Some(Paired(r, q));
      PairedAt(r, p);
      PairedAt(r, q);
    } else {
      ReadsWithin(a, b, r);
    }
  }

  /** When every record can miss its period, an order by period, the bad ones first, reports none. */
  lemma OrderMissing(a: seq<Record>) returns (b: seq<Record>)
    requires forall r | r in a :: MayGive(a, r, None)
    ensures multiset(b) == multiset(a) && UnlimitedPeriod(b) == None
  {
    b := OrderedBy(a, PeriodKey);
    forall r | r in b
      ensures PeriodIn(CpuOf(r, ValuesOf(b))) == None
    {
      MissingInOrder(a, b, r);
    }
    FirstGivenIs(ValuesOf(b), b);
    FirstGivenExact(ValuesOf(b), b);
  }

  /**
    Without a finite budget the reported period is the same in every order if and only if at most one
    period can be given and, where one can, some record gives one in every order.
   */
  lemma UnlimitedPeriodExact(a: seq<Record>)
    ensures (forall b | multiset(b) == multiset(a) :: UnlimitedPeriod(b) == UnlimitedPeriod(a)) <==> OnePeriod(a)
  {
    if OnePeriod(a) {
      UnlimitedPeriodWithin(a, a);
      forall b | multiset(b) == multiset(a)
        ensures UnlimitedPeriod(b) == UnlimitedPeriod(a)
      {
        ReorderedSame(a, b);
        UnlimitedPeriodWithin(a, b);
      }
    }
    if forall b | multiset(b) == multiset(a) :: UnlimitedPeriod(b) == UnlimitedPeriod(a) {
      forall r, s, m, n | r in a && s in a && MayGive(a, r, Some(m)) && MayGive(a, s, Some(n))
        ensures m == n
      {
        var b := OrderGiving(a, r, m);
        var c := OrderGiving(a, s, n);
      }
      if r, m :| r in a && MayGive(a, r, Some(m)) {
        var b := OrderGiving(a, r, m);
        if forall x | x in a :: MayGive(a, x, None) {
          var c := OrderMissing(a);
          assert false;
        }
      }
    }
  }

  // ----- Examples -----

  function PeriodRecord(directory: string, period: nat): Record {
    Record(Success, directory, CfsPeriod, Decimal(period))
  }

  function QuotaRecord(directory: string, quota: nat): Record {
    Record(Success, directory, CfsQuota, Decimal(quota))
  }

  function NoQuotaRecord(directory: string): Record {
    Record(Success, directory, CfsQuota, "-1")
  }

  lemma QuotaReading(directory: string, quota: nat, period: nat)
    requires 0 < quota <= U64_MAX && 0 < period <= U64_MAX
    ensures Paired(QuotaRecord(directory, quota), PeriodRecord(directory, period))
         == CpuReading(Adopt(Budget(quota, period)), None)
  {
    ParseUintDecimal(quota);
    ParseUintDecimal(period);
    DigitsTrimmed(Decimal(quota), 10);
    DigitsTrimmed(Decimal(period), 10);
    assert IsDigit(Decimal(quota)[0], 10);
  }

  lemma NoQuotaReading(directory: string, period: nat)
    requires 0 < period <= U64_MAX
    ensures Paired(NoQuotaRecord(directory), PeriodRecord(directory, period)) == CpuReading(NoLimit, Some(period))
  {
    ParseUintDecimal(period);
    DigitsTrimmed(Decimal(period), 10);
    NoSpaceTrimmed("-1");
  }

  lemma OneQuotaSummary(p: Record, q: Record, r: Record, budget: CpuBudget)
    requires IsQuota(r) && IsPeriod(p, r.directory) && IsPeriod(q, r.directory) && Paired(r, p).event == Adopt(budget)
    ensures CpuSummary([p, q, r]) == Summary(Finite, Some(budget))
  {
    var records := [p, q, r];
    assert records == [p] + [q, r];
    PairedFirst(p, [q, r], r);
    var read := CpuEventReader(ValuesOf(records));
    FoldedStep(BudgetLess, read, records, 0);
    FoldedStep(BudgetLess, read, records, 1);
    FoldedStep(BudgetLess, read, records, 2);
    assert records[..0] == [] && records[..3] == records;
  }

  /** With two periods a quota is paired with whichever comes first: two orders, two budgets. */
  lemma TwoPeriodsBreakOrder(directory: string, first: nat, second: nat, quota: nat)
    requires 0 < quota <= U64_MAX && 0 < first <= U64_MAX && 0 < second <= U64_MAX
    ensures var p, q, r := PeriodRecord(directory, first), PeriodRecord(directory, second),
              QuotaRecord(directory, quota);
      var budget: CpuBudget := Budget(quota, first);
      var other: CpuBudget := Budget(quota, second);
      && CpuSummary([p, q, r]) == Summary(Finite, Some(budget))
      && CpuSummary([q, p, r]) == Summary(Finite, Some(other))
  {
    var p, q, r := PeriodRecord(directory, first), PeriodRecord(directory, second), QuotaRecord(directory, quota);
    QuotaReading(directory, quota, first);
    QuotaReading(directory, quota, second);
    OneQuotaSummary(p, q, r, Budget(quota, first));
    OneQuotaSummary(q, p, r, Budget(quota, second));
  }

  /** Two unlimited directories with one period each: the first one's period is reported. */
  lemma UnlimitedPeriodBreaksOrder(d: string, e: string, m: nat, n: nat)
    requires 0 < m <= U64_MAX && 0 < n <= U64_MAX
    ensures var a, b := [PeriodRecord(d, m), NoQuotaRecord(d)], [PeriodRecord(e, n), NoQuotaRecord(e)];
      UnlimitedPeriod(a + b) == Some(m) && UnlimitedPeriod(b + a) == Some(n)
  {
    NoQuotaReading(d, m);
    NoQuotaReading(e, n);
    var a, b := [PeriodRecord(d, m), NoQuotaRecord(d)], [PeriodRecord(e, n), NoQuotaRecord(e)];
    FirstUnlimited(a[0], a[1], b);
    FirstUnlimited(b[0], b[1], a);
  }
}
