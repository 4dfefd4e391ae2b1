/**
  When the CPU limit that parse_cgroup_limits reports depends on the order of the records,
  src/parser/cgroup.cpp.
 */
module CpuLimitOrder {
  import opened Options
  import opened RawRecords
  import opened ParseUtils
  import opened Cgroups
  import opened Sorting
  import opened CgroupOrder

  type CpuEvent = Event<CpuBudget>

  // ----- What records may say -----

  function SaidIn(records: seq<Record>, r: Record): Option<CpuEvent> {
    CpuEventReader(ValuesOf(records))(r)
  }

  /** r says e in some order of the records. */
  ghost predicate MaySay(records: seq<Record>, r: Record, e: CpuEvent) {
    exists reading: CpuReading :: CanRead(records, r, Some(reading)) && reading.event == e
  }

  ghost predicate SomeMaySay(records: seq<Record>, e: CpuEvent) {
    exists r :: r in records && MaySay(records, r, e)
  }

  ghost predicate AlwaysUnreadable(records: seq<Record>, r: Record) {
    forall reading | CanRead(records, r, reading) :: reading.Some? && reading.value.event == Unreadable
  }

  /** No budget that may be read is smaller. */
  ghost predicate Least(records: seq<Record>, budget: CpuBudget) {
    forall other: CpuBudget | SomeMaySay(records, Adopt(other)) :: !BudgetLess(other, budget)
  }

  /** In every order r gives a budget that none may undercut. */
  ghost predicate AlwaysLeast(records: seq<Record>, r: Record) {
    forall reading | CanRead(records, r, reading) ::
      reading.Some? && reading.value.event.Adopt? && Least(records, reading.value.event.limit)
  }

  lemma SaysWithin(a: seq<Record>, b: seq<Record>, r: Record, e: CpuEvent)
    requires SameRecords(a, b) && SaidIn(b, r) == Some(e)
    ensures MaySay(a, r, e)
  {
    ReadsWithin(a, b, r);
  }

  /** Whatever a record may say it says in some order. */
  lemma OrderSaying(a: seq<Record>, r: Record, e: CpuEvent) returns (b: seq<Record>)
    requires r in a && MaySay(a, r, e)
    ensures multiset(b) == multiset(a) && SaidIn(b, r) == Some(e)
  {
    var reading: CpuReading :| CanRead(a, r, Some(reading)) && reading.event == e;
    if IsQuota(r) && HasPeriod(a, r.directory) {
      var p :| p in a && IsPeriod(p, r.directory) && Some(reading) == Some(Paired(r, p));
      b := DisagreeingEvents(a, r, p);
    } else {
      b := a;
      ReadsWithin(a, a, r);
    }
  }

  // ----- The summary by what is said -----

  ghost predicate Says(records: seq<Record>, e: CpuEvent) {
    exists r :: r in records && SaidIn(records, r) == Some(e)
  }

  lemma SaysExact(records: seq<Record>, e: CpuEvent)
    ensures e in CpuEvents(records) <==> Says(records, e)
  {
    ReadingsExact(CpuEventReader(ValuesOf(records)), records, e);
  }

  lemma SilentExact(records: seq<Record>)
    ensures CpuEvents(records) == [] <==> forall r | r in records :: !IsCpuFile(r)
  {
    if CpuEvents(records) != [] {
      var e := CpuEvents(records)[0];
      SaysExact(records, e);
      var r :| r in records && SaidIn(records, r) == Some(e);
      assert IsCpuFile(r);
    }
    if r :| r in records && IsCpuFile(r) {
      SaysExact(records, SaidIn(records, r).value);
    }
  }

  lemma SummaryExact(records: seq<Record>)
    ensures var s := CpuSummary(records);
      && (s.state == Incomplete <==> Says(records, Unreadable))
      && (if s.value.Some?
          then Says(records, Adopt(s.value.value))
               && forall b: CpuBudget | Says(records, Adopt(b)) :: !BudgetLess(b, s.value.value)
          else forall b: CpuBudget :: !Says(records, Adopt(b)))
  {
    var events := CpuEvents(records);
    BudgetLessIsWeakOrder();
    FoldedMinimum(BudgetLess, events);
    FoldedState(BudgetLess, events);
    forall e
      ensures e in events <==> Says(records, e)
    {
      SaysExact(records, e);
    }
  }

  lemma SameState(a: seq<Record>, b: seq<Record>)
    requires SameRecords(a, b)
    requires var s, t := CpuSummary(a), CpuSummary(b);
      (s.state == Incomplete <==> t.state == Incomplete) && (s.value.Some? <==> t.value.Some?)
    ensures CpuSummary(a).state == CpuSummary(b).state
  {
    SilentExact(a);
    SilentExact(b);
    FoldedState(BudgetLess, CpuEvents(a));
    FoldedState(BudgetLess, CpuEvents(b));
  }

  // ----- The condition -----

  /**
    If some file may be unreadable, some file always is; and if some file may give a budget, some file
    always gives one that none may undercut.
   */
  ghost predicate LimitFixed(records: seq<Record>) {
    && (SomeMaySay(records, Unreadable) ==> exists r :: r in records && AlwaysUnreadable(records, r))
    && ((exists v: CpuBudget :: SomeMaySay(records, Adopt(v))) ==> exists r :: r in records && AlwaysLeast(records, r))
  }

  lemma FixedIncomplete(a: seq<Record>, b: seq<Record>)
    requires SameRecords(a, b) && LimitFixed(a)
    ensures CpuSummary(b).state == Incomplete <==> SomeMaySay(a, Unreadable)
  {
    SummaryExact(b);
    if Says(b, Unreadable) {
      var r :| r in b && SaidIn(b, r) == Some(Unreadable);
      SaysWithin(a, b, r, Unreadable);
    }
    if SomeMaySay(a, Unreadable) {
      var r :| r in a && AlwaysUnreadable(a, r);
      ReadsWithin(a, b, r);
      assert r in b && SaidIn(b, r) == Some(Unreadable);
    }
  }

  /** A budget of b that is at most one that none may undercut is one itself. */
  lemma LeastBelow(a: seq<Record>, v: CpuBudget, w: CpuBudget)
    requires Least(a, v) && !BudgetLess(v, w)
    ensures Least(a, w)
  {
    BudgetLessIsWeakOrder();
  }

  lemma FixedValue(a: seq<Record>, b: seq<Record>)
    requires SameRecords(a, b) && LimitFixed(a)
    ensures var s := CpuSummary(b);
      && (s.value.Some? <==> exists v: CpuBudget :: SomeMaySay(a, Adopt(v)))
      && (s.value.Some? ==> SomeMaySay(a, Adopt(s.value.value)) && Least(a, s.value.value))
  {
    SummaryExact(b);
    var s := CpuSummary(b);
    if s.value.Some? {
      var r :| r in b && SaidIn(b, r) == Some(Adopt(s.value.value));
      SaysWithin(a, b, r, Adopt(s.value.value));
    }
    if v: CpuBudget :| SomeMaySay(a, Adopt(v)) {
      var r :| r in a && AlwaysLeast(a, r);
      ReadsWithin(a, b, r);
      var w := SaidIn(b, r).value.limit;
      assert r in b && SaidIn(b, r) == Some(Adopt(w));
      assert Says(b, Adopt(w));
      LeastBelow(a, w, s.value.value);
    }
  }

  lemma FixedSame(a: seq<Record>, b: seq<Record>)
    requires SameRecords(a, b) && LimitFixed(a)
    ensures SameLimit(a, b)
  {
    FixedIncomplete(a, a);
    FixedIncomplete(a, b);
    FixedValue(a, a);
    FixedValue(a, b);
    SameState(a, b);
  }

  // ----- Two orders that decide -----

  /** Good periods before bad ones. */
  function GoodFirst(r: Record): nat {
    if PeriodKey(r) == 0 then 1 else 0
  }

  /** In an order by a key a quota is paired with a period of least key, and it may read as with any other. */
  lemma PairedChoice(a: seq<Record>, b: seq<Record>, r: Record, key: Record -> nat, reading: Option<CpuReading>)
    returns (p: Record, q: Record)
    requires SameRecords(a, b) && Ordered(b, key) && IsQuota(r) && HasPeriod(a, r.directory) && CanRead(a, r, reading)
    ensures SaidIn(b, r) == Some(Paired(r, p).event) && reading == Some(Paired(r, q)) && key(p) <= key(q)
  {
    p := LeastPaired(a, b, r, key);
    q :| q in a && IsPeriod(q, r.directory) && reading == Some(Paired(r, q));
  }

  lemma OnlyChoice(a: seq<Record>, b: seq<Record>, r: Record, reading: Option<CpuReading>)
    requires SameRecords(a, b) && !(IsQuota(r) && HasPeriod(a, r.directory)) && CanRead(a, r, reading)
    ensures SaidIn(b, r) == if reading.Some? then Some(reading.value.event) else None
  {
    ReadsWithin(a, b, r);
  }

  lemma UnreadablePaired(r: Record, p: Record, q: Record)
    requires Paired(r, p).event == Unreadable && GoodFirst(p) <= GoodFirst(q)
    ensures Paired(r, q).event == Unreadable
  {
    PairedAt(r, p);
    PairedAt(r, q);
  }

  lemma UnreadableWith(a: seq<Record>, b: seq<Record>, r: Record, reading: Option<CpuReading>)
    requires SameRecords(a, b) && Ordered(b, GoodFirst) && SaidIn(b, r) == Some(Unreadable) && CanRead(a, r, reading)
    ensures reading.Some? && reading.value.event == Unreadable
  {
    if IsQuota(r) && HasPeriod(a, r.directory) {
      var p, q := PairedChoice(a, b, r, GoodFirst, reading);
      UnreadablePaired(r, p, q);
    } else {
      OnlyChoice(a, b, r, reading);
    }
  }

  /** With good periods first, only what is always unreadable is. */
  lemma UnreadableThen(a: seq<Record>, b: seq<Record>, r: Record)
    requires SameRecords(a, b) && Ordered(b, GoodFirst) && SaidIn(b, r) == Some(Unreadable)
    ensures AlwaysUnreadable(a, r)
  {
    forall reading | CanRead(a, r, reading)
      ensures reading.Some? && reading.value.event == Unreadable
    {
      UnreadableWith(a, b, r, reading);
    }
  }

  lemma LongerPeriod(quota: nat, shorter: nat, longer: nat)
    requires quota > 0 && 0 < shorter <= longer
    ensures !BudgetLess(Budget(quota, shorter), Budget(quota, longer))
  {
    Scale(shorter, longer, quota);
  }

  lemma LargerPaired(r: Record, p: Record, q: Record, v: CpuBudget)
    requires Paired(r, p).event == Adopt(v) && PeriodKey(p) <= PeriodKey(q)
    ensures Paired(r, q).event.Adopt? && !BudgetLess(v, Paired(r, q).event.limit)
  {
    PairedAt(r, p);
    PairedAt(r, q);
    LongerPeriod(v.quota, v.period, PeriodKey(q));
  }

  /** By period, the bad ones first, a quota gives the largest budget it may give. */
  lemma LargestBudget(a: seq<Record>, b: seq<Record>, r: Record, v: CpuBudget, reading: Option<CpuReading>)
    requires SameRecords(a, b) && Ordered(b, PeriodKey) && SaidIn(b, r) == Some(Adopt(v)) && CanRead(a, r, reading)
    ensures reading.Some? && reading.value.event.Adopt? && !BudgetLess(v, reading.value.event.limit)
  {
    if IsQuota(r) && HasPeriod(a, r.directory) {
      var p, q := PairedChoice(a, b, r, PeriodKey, reading);
      LargerPaired(r, p, q, v);
    } else {
      OnlyChoice(a, b, r, reading);
      assert !BudgetLess(v, v);
    }
  }

  lemma LeastThen(a: seq<Record>, b: seq<Record>, r: Record, v: CpuBudget)
    requires SameRecords(a, b) && Ordered(b, PeriodKey) && SaidIn(b, r) == Some(Adopt(v)) && Least(a, v)
    ensures AlwaysLeast(a, r)
  {
    forall reading | CanRead(a, r, reading)
      ensures reading.Some? && reading.value.event.Adopt? && Least(a, reading.value.event.limit)
    {
      LargestBudget(a, b, r, v, reading);
      LeastBelow(a, v, reading.value.event.limit);
    }
  }

  ghost predicate OrderFree(a: seq<Record>) {
    forall b | multiset(b) == multiset(a) :: SameLimit(a, b)
  }

  lemma FreeUnreadable(a: seq<Record>)
    requires OrderFree(a) && SomeMaySay(a, Unreadable)
    ensures exists r :: r in a && AlwaysUnreadable(a, r)
  {
    var r :| r in a && MaySay(a, r, Unreadable);
    var b := OrderSaying(a, r, Unreadable);
    ReorderedSame(a, b);
    SummaryExact(b);
    assert Says(b, Unreadable);
    var c := OrderedBy(a, GoodFirst);
    SummaryExact(c);
    assert SameLimit(a, b) && SameLimit(a, c);
    var s :| s in c && SaidIn(c, s) == Some(Unreadable);
    UnreadableThen(a, c, s);
  }

  lemma TiedOrders(a: seq<Record>, b: seq<Record>, c: seq<Record>, w: CpuBudget)
    requires SameLimit(a, b) && SameLimit(a, c)
    requires CpuSummary(b).value.Some? && !BudgetLess(w, CpuSummary(b).value.value)
    ensures CpuSummary(c).value.Some? && !BudgetLess(w, CpuSummary(c).value.value)
  {
    var x, y, z := CpuSummary(a).value.value, CpuSummary(b).value.value, CpuSummary(c).value.value;
    BudgetLessIsWeakOrder();
    assert !BudgetLess(y, x) && !BudgetLess(x, z);
  }

  /** Where the order does not matter, the value of every order is one that none may undercut. */
  lemma FreeLeast(a: seq<Record>, c: seq<Record>, v: CpuBudget)
    requires OrderFree(a) && multiset(c) == multiset(a) && SomeMaySay(a, Adopt(v))
    ensures CpuSummary(c).value.Some? && Least(a, CpuSummary(c).value.value)
  {
    forall w: CpuBudget | SomeMaySay(a, Adopt(w))
      ensures CpuSummary(c).value.Some? && !BudgetLess(w, CpuSummary(c).value.value)
    {
      var r :| r in a && MaySay(a, r, Adopt(w));
      var b := OrderSaying(a, r, Adopt(w));
      ReorderedSame(a, b);
      SummaryExact(b);
      assert Says(b, Adopt(w));
      TiedOrders(a, b, c, w);
    }
  }

  lemma FreeBudget(a: seq<Record>, v: CpuBudget)
    requires OrderFree(a) && SomeMaySay(a, Adopt(v))
    ensures exists r :: r in a && AlwaysLeast(a, r)
  {
    var c := OrderedBy(a, PeriodKey);
    FreeLeast(a, c, v);
    SummaryExact(c);
    var least := CpuSummary(c).value.value;
    var r :| r in c && SaidIn(c, r) == Some(Adopt(least));
    LeastThen(a, c, r, least);
  }

  /**
    The CPU limit is the same in every order of the records, known or not alike and with an equal ratio, if
    and only if a file is always unreadable where one may be, and always gives a least budget where one may
    give any.
   */
  lemma CpuLimitOrderExact(a: seq<Record>)
    ensures (forall b | multiset(b) == multiset(a) :: SameLimit(a, b)) <==> LimitFixed(a)
  {
    if LimitFixed(a) {
      forall b | multiset(b) == multiset(a)
        ensures SameLimit(a, b)
      {
        ReorderedSame(a, b);
        FixedSame(a, b);
      }
    }
    if OrderFree(a) {
      if SomeMaySay(a, Unreadable) {
        FreeUnreadable(a);
      }
      if v: CpuBudget :| SomeMaySay(a, Adopt(v)) {
        FreeBudget(a, v);
      }
    }
  }

  // ----- An order that changes records but not the limit -----

  /** Two periods p and q beside the quota r, and one period s beside the quota t, make up the records. */
  ghost predicate TwoDirectories(a: seq<Record>, p: Record, q: Record, r: Record, s: Record, t: Record) {
    && (forall x :: x in a <==> x == p || x == q || x == r || x == s || x == t)
    && IsQuota(r) && IsPeriod(p, r.directory) && IsPeriod(q, r.directory)
    && IsQuota(t) && IsPeriod(s, t.directory) && r.directory != t.directory
  }

  lemma TwoDirectoriesSay(a: seq<Record>, p: Record, q: Record, r: Record, s: Record, t: Record, x: Record,
                          reading: Option<CpuReading>)
    requires TwoDirectories(a, p, q, r, s, t) && x in a && CanRead(a, x, reading)
    ensures reading == None || reading == Some(Paired(r, p)) || reading == Some(Paired(r, q))
            || reading == Some(Paired(t, s))
    ensures x == t ==> reading == Some(Paired(t, s))
  {
    if IsQuota(x) {
      assert HasPeriod(a, x.directory) by { assert p in a && s in a; }
    }
  }

  lemma TwoDirectoriesFixed(a: seq<Record>, p: Record, q: Record, r: Record, s: Record, t: Record, least: CpuBudget)
    requires TwoDirectories(a, p, q, r, s, t) && Paired(t, s).event == Adopt(least)
    requires Paired(r, p).event.Adopt? && !BudgetLess(Paired(r, p).event.limit, least)
    requires Paired(r, q).event.Adopt? && !BudgetLess(Paired(r, q).event.limit, least)
    ensures LimitFixed(a)
  {
    forall x, reading | x in a && CanRead(a, x, reading)
      ensures reading == None || (reading.value.event.Adopt? && !BudgetLess(reading.value.event.limit, least))
      ensures x == t ==> reading == Some(Paired(t, s))
    {
      TwoDirectoriesSay(a, p, q, r, s, t, x, reading);
    }
    assert Least(a, least);
    assert t in a && AlwaysLeast(a, t);
  }

  lemma SlackBudget(directory: string, quota: nat, period: nat, other: nat)
    requires 0 < quota <= U64_MAX && 0 < period <= U64_MAX && 0 < other && period <= quota * other
    ensures var e := Paired(QuotaRecord(directory, quota), PeriodRecord(directory, period)).event;
      && e.Adopt? && e.limit == Budget(quota, period) && !BudgetLess(e.limit, Budget(1, other))
  {
    QuotaReading(directory, quota, period);
  }

  lemma TwoMeanings(a: seq<Record>, p: Record, q: Record, r: Record)
    requires p in a && q in a && r in a && IsQuota(r) && IsPeriod(p, r.directory) && IsPeriod(q, r.directory)
    requires Paired(r, p).event != Paired(r, q).event
    ensures !PeriodsAgree(a)
  {
  }

  /**
    Two periods give a quota two meanings, so that the records do not agree, yet a smaller budget of another
    directory keeps the limit the same in every order.
   */
  lemma SlackExample(d: string, m: nat, n: nat, quota: nat, e: string, period: nat)
    requires 0 < m <= U64_MAX && 0 < n <= U64_MAX && 0 < quota <= U64_MAX && 0 < period <= U64_MAX && d != e
    requires m != n && m <= quota * period && n <= quota * period
    ensures var a := [PeriodRecord(d, m), PeriodRecord(d, n), QuotaRecord(d, quota),
                      PeriodRecord(e, period), QuotaRecord(e, 1)];
      !PeriodsAgree(a) && LimitFixed(a)
  {
    var p, q, r := PeriodRecord(d, m), PeriodRecord(d, n), QuotaRecord(d, quota);
    var s, t := PeriodRecord(e, period), QuotaRecord(e, 1);
    SlackBudget(d, quota, m, period);
    SlackBudget(d, quota, n, period);
    QuotaReading(e, 1, period);
    TwoDirectoriesFixed([p, q, r, s, t], p, q, r, s, t, Budget(1, period));
    TwoMeanings([p, q, r, s, t], p, q, r);
  }
}
