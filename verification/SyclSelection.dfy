/**
  ONEAPI_DEVICE_SELECTOR, clauses of the form [!]backend:selector,selector: parse_sycl and select_sycl of
  src/resolver/accelerator_selection.cpp.
 */
module SyclSelection {
  import opened Options
  import opened ParseUtils
  import opened SortedSets
  import opened Numbers
  import opened CsvSelection

  datatype Filter = Filter(backend: string, selectors: seq<string>, exclude: bool)

  // ----- Parsing -----

  function LowerChar(c: char): char {
    if 'A' <= c <= 'Z' then (c as int - 'A' as int + 'a' as int) as char else c
  }

  function Lowered(s: string): string {
    seq(|s|, i requires 0 <= i < |s| => LowerChar(s[i]))
  }

  method Lower(s: string) returns (r: string)
    ensures r == Lowered(s)
  {
    r := s;
    for i := 0 to |s|
      invariant |r| == |s|
      invariant forall j | 0 <= j < |s| :: r[j] == if j < i then LowerChar(s[j]) else s[j]
    {
      r := r[i := LowerChar(r[i])];
    }
  }

  predicate KnownBackend(backend: string) {
    backend == "*" || backend == "level_zero" || backend == "opencl" || backend == "cuda" || backend == "hip"
    || backend == "native_cpu"
  }

  predicate KnownSelector(selector: string) {
    selector == "*" || selector == "gpu" || selector == "cpu" || ParseUint(selector).Some?
  }

  predicate AllKnown(selectors: seq<string>) {
    forall i | 0 <= i < |selectors| :: KnownSelector(selectors[i])
  }

  /** A clause without its exclusion mark: backend:selector,selector. */
  function BodyFilter(body: string, exclude: bool): Option<Filter> {
    var parts := Pieces(body, ':');
    if |parts| != 2 || !KnownBackend(Trimmed(parts[0])) then None else
    var selectors := AllTrimmed(Pieces(parts[1], ','));
    if AllKnown(selectors) then Some(Filter(Trimmed(parts[0]), selectors, exclude)) else None
  }

  /** The exclusion mark and the clause without it. */
  function MarkAndBody(clause: string): (bool, string) {
    var text := Lowered(Trimmed(clause));
    if text != [] && text[0] == '!' then (true, text[1..]) else (false, text)
  }

  /** One clause on its own. */
  function ClauseFilter(clause: string): Option<Filter> {
    BodyFilter(MarkAndBody(clause).1, MarkAndBody(clause).0)
  }

  predicate Discarding(filters: seq<Filter>) {
    exists i | 0 <= i < |filters| :: filters[i].exclude
  }

  /** All clauses for any clause reader: refused when one is, or when an accept clause follows a discard. */
  function ReadClauses(read: string -> Option<Filter>, clauses: seq<string>): Option<seq<Filter>> {
    if clauses == [] then Some([]) else
    var before, filter := ReadClauses(read, clauses[..|clauses| - 1]), read(clauses[|clauses| - 1]);
    if before.None? || filter.None? || (!filter.value.exclude && Discarding(before.value)) then None
    else Some(before.value + [filter.value])
  }

  function SyclFilters(value: string): Option<seq<Filter>> {
    ReadClauses(ClauseFilter, Pieces(value, ';'))
  }

  /** Reads the selectors of one clause; nothing if one is unknown. */
  method ReadSelectors(text: string) returns (selectors: Option<seq<string>>)
    ensures selectors == if AllKnown(AllTrimmed(Pieces(text, ','))) then Some(AllTrimmed(Pieces(text, ','))) else None
  {
    var pieces := Split(text, ',');
    var i := 0;
    var current := pieces;
    while i < |pieces|
      invariant 0 <= i <= |pieces| == |current|
      invariant forall j | 0 <= j < |pieces| :: current[j] == if j < i then Trimmed(pieces[j]) else pieces[j]
      invariant forall j | 0 <= j < i :: KnownSelector(AllTrimmed(pieces)[j])
    {
      var selector := Trim(current[i]);
      current := current[i := selector];
      if selector != "*" && selector != "gpu" && selector != "cpu" && ParseUint(selector).None? {
        assert !KnownSelector(AllTrimmed(pieces)[i]);
        return None;
      }
      i := i + 1;
    }
    assert current == AllTrimmed(pieces);
    return Some(current);
  }

  /** Reads one clause; `discarding` tells that a discard clause came before. */
  method ReadClause(clause: string, discarding: bool) returns (filter: Option<Filter>)
    ensures var read := ClauseFilter(clause);
      filter == if read.Some? && (read.value.exclude || !discarding) then read else None
  {
    var text := Trim(clause);
    text := Lower(text);
    var exclude := text != [] && text[0] == '!';
    if exclude {
      text := text[1..];
    } else if discarding {
      return None;
    }
    var parts := Split(text, ':');
    if |parts| != 2 {
      return None;
    }
    var backend := Trim(parts[0]);
    if !KnownBackend(backend) {
      return None;
    }
    var selectors := ReadSelectors(parts[1]);
    if selectors.None? {
      return None;
    }
    return Some(Filter(backend, selectors.value, exclude));
  }

  lemma {:induction false} RefusedPrefix(read: string -> Option<Filter>, clauses: seq<string>, k: nat)
    requires k <= |clauses| && ReadClauses(read, clauses[..k]).None?
    ensures ReadClauses(read, clauses).None?
  {
    if k == |clauses| {
      assert clauses[..k] == clauses;
    } else {
      assert clauses[..|clauses| - 1][..k] == clauses[..k];
      RefusedPrefix(read, clauses[..|clauses| - 1], k);
    }
  }

  lemma ReadStep(read: string -> Option<Filter>, clauses: seq<string>, i: nat, before: seq<Filter>)
    requires i < |clauses| && ReadClauses(read, clauses[..i]) == Some(before)
    ensures var filter := read(clauses[i]);
      ReadClauses(read, clauses[..i + 1])
      == if filter.Some? && (filter.value.exclude || !Discarding(before)) then Some(before + [filter.value]) else None
  {
    assert clauses[..i + 1][..i] == clauses[..i];
  }

  lemma DiscardingStep(filters: seq<Filter>, filter: Filter)
    ensures Discarding(filters + [filter]) <==> Discarding(filters) || filter.exclude
  {
    var all := filters + [filter];
    assert all[|filters|] == filter;
    assert forall i | 0 <= i < |filters| :: all[i] == filters[i];
  }

  /** parse_sycl. */
  method ParseSycl(value: string) returns (result: Option<seq<Filter>>)
    ensures result == SyclFilters(value)
  {
    var clauses := Split(value, ';');
    var filters: seq<Filter> := [];
    var discarding := false;
    for i := 0 to |clauses|
      invariant ReadClauses(ClauseFilter, clauses[..i]) == Some(filters)
      invariant discarding <==> Discarding(filters)
    {
      ReadStep(ClauseFilter, clauses, i, filters);
      var filter := ReadClause(clauses[i], discarding);
      if filter.None? {
        RefusedPrefix(ClauseFilter, clauses, i + 1);
        return None;
      }
      DiscardingStep(filters, filter.value);
      filters := filters + [filter.value];
      discarding := discarding || filter.value.exclude;
    }
    assert clauses[..|clauses|] == clauses;
    return Some(filters);
  }

  ghost predicate AcceptsFirst(filters: seq<Filter>) {
    forall i, j | 0 <= i < j < |filters| :: filters[i].exclude ==> filters[j].exclude
  }

  /** Clauses are accepted exactly when each is well formed and no accept clause follows a discard. */
  lemma {:induction false} ReadClausesExact(read: string -> Option<Filter>, clauses: seq<string>, filters: seq<Filter>)
    ensures ReadClauses(read, clauses) == Some(filters) <==>
            && |filters| == |clauses| && AcceptsFirst(filters)
            && forall i | 0 <= i < |clauses| :: read(clauses[i]) == Some(filters[i])
  {
    if clauses != [] && |filters| == |clauses| {
      var n := |clauses| - 1;
      ReadClausesExact(read, clauses[..n], filters[..n]);
      assert filters == filters[..n] + [filters[n]];
      assert forall i | 0 <= i < n :: filters[..n][i] == filters[i] && clauses[..n][i] == clauses[i];
    } else if clauses != [] {
      if ReadClauses(read, clauses).Some? {
        var front := ReadClauses(read, clauses[..|clauses| - 1]).value;
        ReadClausesExact(read, clauses[..|clauses| - 1], front);
      }
    }
  }

  // ----- Rendering -----

  /** A field that survives trimming, lower-casing and splitting. */
  predicate Plain(s: string) {
    s != [] && forall i | 0 <= i < |s| ::
      !IsSpace(s[i]) && !('A' <= s[i] <= 'Z') && s[i] != ':' && s[i] != ',' && s[i] != ';' && s[i] != '!'
  }

  ghost predicate CanonicalFilter(f: Filter) {
    && KnownBackend(f.backend) && f.selectors != []
    && forall i | 0 <= i < |f.selectors| :: Plain(f.selectors[i]) && KnownSelector(f.selectors[i])
  }

  function FilterText(f: Filter): string
    requires f.selectors != []
  {
    (if f.exclude then "!" else "") + (f.backend + [':'] + Join(f.selectors, ','))
  }

  lemma BackendPlain(backend: string)
    requires KnownBackend(backend)
    ensures Plain(backend)
  {
  }

  ghost predicate Survives(s: string) {
    forall i | 0 <= i < |s| :: !IsSpace(s[i]) && !('A' <= s[i] <= 'Z') && s[i] != ';'
  }

  lemma SurvivesUnchanged(s: string)
    requires Survives(s)
    ensures Lowered(Trimmed(s)) == s
  {
    NoSpaceTrimmed(s);
  }

  lemma {:induction false} SelectorsJoin(parts: seq<string>)
    requires parts != [] && forall i | 0 <= i < |parts| :: Plain(parts[i])
    ensures var t := Join(parts, ',');
      Survives(t) && ':' !in t && '!' !in t && t != [] && Pieces(t, ',') == parts && AllTrimmed(parts) == parts
  {
    forall i | 0 <= i < |parts| ensures ',' !in parts[i] && Trimmed(parts[i]) == parts[i] {
      assert Plain(parts[i]);
      NoSpaceTrimmed(parts[i]);
    }
    PiecesJoin(parts, ',');
    if |parts| > 1 {
      SelectorsJoin(parts[1..]);
    }
  }

  lemma BodyFilterIs(body: string, f: Filter, list: string)
    requires Pieces(body, ':') == [f.backend, list] && Trimmed(f.backend) == f.backend && KnownBackend(f.backend)
    requires AllTrimmed(Pieces(list, ',')) == f.selectors && AllKnown(f.selectors)
    ensures BodyFilter(body, f.exclude) == Some(f)
  {
  }

  lemma TwoParts(a: string, b: string)
    requires ':' !in a && ':' !in b
    ensures Pieces(a + [':'] + b, ':') == [a, b]
  {
    var parts := [a, b];
    assert Join(parts, ':') == a + [':'] + b by { assert parts[1..] == [b]; }
    PiecesJoin(parts, ':');
  }

  lemma BodyRoundTrip(f: Filter)
    requires CanonicalFilter(f)
    ensures var body := f.backend + [':'] + Join(f.selectors, ',');
      BodyFilter(body, f.exclude) == Some(f) && Survives(body) && body[0] != '!'
  {
    var list := Join(f.selectors, ',');
    BackendPlain(f.backend);
    SelectorsJoin(f.selectors);
    NoSpaceTrimmed(f.backend);
    TwoParts(f.backend, list);
    assert AllKnown(f.selectors);
    BodyFilterIs(f.backend + [':'] + list, f, list);
  }

  lemma MarkedBody(body: string, exclude: bool)
    requires Survives(body) && body != [] && body[0] != '!'
    ensures var text := (if exclude then "!" else "") + body;
      MarkAndBody(text) == (exclude, body) && ';' !in text
  {
    var text := (if exclude then "!" else "") + body;
    assert Survives(text);
    SurvivesUnchanged(text);
    assert exclude ==> text[1..] == body;
    assert !exclude ==> text == body;
  }

  lemma ClauseRoundTrip(f: Filter)
    requires CanonicalFilter(f)
    ensures ClauseFilter(FilterText(f)) == Some(f) && ';' !in FilterText(f)
  {
    BodyRoundTrip(f);
    MarkedBody(f.backend + [':'] + Join(f.selectors, ','), f.exclude);
  }

  function FilterTexts(filters: seq<Filter>): (texts: seq<string>)
    requires forall i | 0 <= i < |filters| :: filters[i].selectors != []
    ensures |texts| == |filters| && forall i | 0 <= i < |filters| :: texts[i] == FilterText(filters[i])
  {
    seq(|filters|, i requires 0 <= i < |filters| => FilterText(filters[i]))
  }

  lemma ReadsBack(read: string -> Option<Filter>, texts: seq<string>, filters: seq<Filter>)
    requires |texts| == |filters| && forall i | 0 <= i < |texts| :: read(texts[i]) == Some(filters[i])
    ensures ReadClauses(read, texts) == if AcceptsFirst(filters) then Some(filters) else None
  {
    ReadClausesExact(read, texts, filters);
    var parsed := ReadClauses(read, texts);
    if parsed.Some? {
      ReadClausesExact(read, texts, parsed.value);
      assert parsed.value == filters;
    }
  }

  /** A written list of filters is read back unchanged exactly when its accept clauses come first. */
  lemma SyclRoundTrip(filters: seq<Filter>)
    requires filters != []
    requires forall i | 0 <= i < |filters| :: filters[i].selectors != [] && CanonicalFilter(filters[i])
    ensures SyclFilters(Join(FilterTexts(filters), ';')) == if AcceptsFirst(filters) then Some(filters) else None
  {
    var texts := FilterTexts(filters);
    forall i | 0 <= i < |texts| ensures ClauseFilter(texts[i]) == Some(filters[i]) && ';' !in texts[i] {
      assert CanonicalFilter(filters[i]);
      ClauseRoundTrip(filters[i]);
    }
    PiecesJoin(texts, ';');
    ReadsBack(ClauseFilter, texts, filters);
  }

  // ----- Selecting -----

  predicate Relevant(backend: string) {
    backend == "*" || backend == "level_zero" || backend == "opencl"
  }

  /** What one filter does to the selection. */
  datatype Effect = Skip | Unavailable | Accept(matches: seq<nat>) | Discard(matches: seq<nat>)

  /** The devices of one selector; nothing when it is an ordinal of a backend without enumeration. */
  function SelectorMatches(candidates: seq<nat>, selector: string, enumerated: bool): Option<seq<nat>> {
    if selector == "gpu" || selector == "*" then Some(candidates) else
    var ordinal := ParseUint(selector);
    if ordinal.None? then Some([])
    else if !enumerated then None
    else Some(if ordinal.value < |candidates| then [candidates[ordinal.value]] else [])
  }

  type SelectorReading = string -> Option<seq<nat>>

  function ReadSelector(candidates: seq<nat>, enumerated: bool): SelectorReading {
    selector => SelectorMatches(candidates, selector, enumerated)
  }

  function AllMatches(read: SelectorReading, selectors: seq<string>): Option<seq<nat>> {
    if selectors == [] then Some([]) else
    var before, matches := AllMatches(read, selectors[..|selectors| - 1]), read(selectors[|selectors| - 1]);
    if before.None? || matches.None? then None else Some(AppendUnique(before.value, matches.value))
  }

  function FilterEffect(candidates: seq<nat>, f: Filter, runtimeKnown: bool): Effect {
    if !Relevant(f.backend) then Skip else
    var matches := AllMatches(ReadSelector(candidates, f.backend == "level_zero" && runtimeKnown), f.selectors);
    if matches.None? then Unavailable
    else if f.exclude then Discard(matches.value) else Accept(matches.value)
  }

  type FilterReading = Filter -> Effect

  function ReadFilter(candidates: seq<nat>, runtimeKnown: bool): FilterReading {
    f => FilterEffect(candidates, f, runtimeKnown)
  }

  /** selected without the matches: std::erase_if. */
  function Without(selected: seq<nat>, matches: seq<nat>): (result: seq<nat>)
    ensures forall x :: x in result <==> x in selected && x !in matches
    ensures NoDuplicates(selected) ==> NoDuplicates(result)
  {
    if selected == [] then [] else
    var n := |selected| - 1;
    assert selected == selected[..n] + [selected[n]];
    Without(selected[..n], matches) + if selected[n] in matches then [] else [selected[n]]
  }

  function Applied(selected: seq<nat>, effect: Effect): seq<nat> {
    match effect
    case Accept(matches) => AppendUnique(selected, matches)
    case Discard(matches) => Without(selected, matches)
    case _ => selected
  }

  predicate HasAccept(filters: seq<Filter>) {
    exists i | 0 <= i < |filters| :: !filters[i].exclude
  }

  /** The filters applied in order to a start selection; nothing when one is unavailable. */
  function Folded(effect: FilterReading, filters: seq<Filter>, start: seq<nat>): Option<seq<nat>> {
    if filters == [] then Some(start) else
    var before, last := Folded(effect, filters[..|filters| - 1], start), effect(filters[|filters| - 1]);
    if before.None? || last == Unavailable then None else Some(Applied(before.value, last))
  }

  function FilterSelection(candidates: seq<nat>, filters: seq<Filter>, runtimeKnown: bool): seq<nat> {
    Folded(ReadFilter(candidates, runtimeKnown), filters,
           if HasAccept(filters) then [] else candidates).GetOr(candidates)
  }

  function SyclSelected(candidates: seq<nat>, value: string, runtimeKnown: bool): seq<nat> {
    if Trimmed(value) == [] then [] else
    var filters := SyclFilters(value);
    if filters.None? then candidates else FilterSelection(candidates, filters.value, runtimeKnown)
  }

  lemma {:induction false} AllMatchesPrefix(read: SelectorReading, selectors: seq<string>, k: nat)
    requires k <= |selectors| && AllMatches(read, selectors[..k]).None?
    ensures AllMatches(read, selectors).None?
  {
    if k == |selectors| {
      assert selectors[..k] == selectors;
    } else {
      assert selectors[..|selectors| - 1][..k] == selectors[..k];
      AllMatchesPrefix(read, selectors[..|selectors| - 1], k);
    }
  }

  method GatherSelectors(candidates: seq<nat>, selectors: seq<string>, enumerated: bool)
    returns (matches: Option<seq<nat>>)
    ensures matches == AllMatches(ReadSelector(candidates, enumerated), selectors)
  {
    var read := ReadSelector(candidates, enumerated);
    var result: seq<nat> := [];
    for i := 0 to |selectors|
      invariant AllMatches(read, selectors[..i]) == Some(result)
    {
      assert selectors[..i + 1][..i] == selectors[..i];
      var selector := selectors[i];
      assert read(selector) == SelectorMatches(candidates, selector, enumerated);
      if selector == "gpu" || selector == "*" {
        result := AppendUniqueTo(result, candidates);
      } else {
        var ordinal := ParseUint(selector);
        if ordinal.Some? {
          if !enumerated {
            AllMatchesPrefix(read, selectors, i + 1);
            return None;
          }
          if ordinal.value < |candidates| {
            result := AppendUniqueTo(result, [candidates[ordinal.value]]);
          }
        }
      }
    }
    assert selectors[..|selectors|] == selectors;
    return Some(result);
  }

  lemma {:induction false} FoldedPrefix(effect: FilterReading, filters: seq<Filter>, start: seq<nat>, k: nat)
    requires k <= |filters| && Folded(effect, filters[..k], start).None?
    ensures Folded(effect, filters, start).None?
  {
    if k == |filters| {
      assert filters[..k] == filters;
    } else {
      assert filters[..|filters| - 1][..k] == filters[..k];
      FoldedPrefix(effect, filters[..|filters| - 1], start, k);
    }
  }

  /** One filter of the loop; nothing when the selection has to stay as it was. */
  method ApplyFilter(candidates: seq<nat>, filter: Filter, runtimeKnown: bool, selected: seq<nat>)
    returns (result: Option<seq<nat>>)
    ensures var effect := FilterEffect(candidates, filter, runtimeKnown);
      result == if effect == Unavailable then None else Some(Applied(selected, effect))
  {
    if !Relevant(filter.backend) {
      return Some(selected);
    }
    var matches := GatherSelectors(candidates, filter.selectors, filter.backend == "level_zero" && runtimeKnown);
    if matches.None? {
      return None;
    }
    if filter.exclude {
      return Some(Without(selected, matches.value));
    }
    var appended := AppendUniqueTo(selected, matches.value);
    return Some(appended);
  }

  method ApplyFilters(candidates: seq<nat>, filters: seq<Filter>, runtimeKnown: bool) returns (selected: seq<nat>)
    ensures selected == FilterSelection(candidates, filters, runtimeKnown)
  {
    selected := if HasAccept(filters) then [] else candidates;
    ghost var start, effect := selected, ReadFilter(candidates, runtimeKnown);
    var i := 0;
    while i < |filters|
      invariant 0 <= i <= |filters|
      invariant Folded(effect, filters[..i], start) == Some(selected)
    {
      assert filters[..i + 1][..i] == filters[..i];
      var result := ApplyFilter(candidates, filters[i], runtimeKnown, selected);
      assert effect(filters[i]) == FilterEffect(candidates, filters[i], runtimeKnown);
      if result.None? {
        FoldedPrefix(effect, filters, start, i + 1);
        return candidates;
      }
      selected := result.value;
      i := i + 1;
    }
    assert filters[..|filters|] == filters;
  }

  /** select_sycl: filters edit the selection in order; an unreadable text or ordinal leaves it unchanged. */
  method SelectSycl(candidates: seq<nat>, value: string, runtimeKnown: bool) returns (selected: seq<nat>)
    ensures selected == SyclSelected(candidates, value, runtimeKnown)
  {
    if Trimmed(value) == [] {
      return [];
    }
    var parsed := ParseSycl(value);
    if parsed.None? {
      return candidates;
    }
    selected := ApplyFilters(candidates, parsed.value, runtimeKnown);
  }

  // ----- What the selection is -----

  ghost predicate Accepts(effect: FilterReading, f: Filter, x: nat) {
    effect(f).Accept? && x in effect(f).matches
  }

  ghost predicate Discards(effect: FilterReading, f: Filter, x: nat) {
    effect(f).Discard? && x in effect(f).matches
  }

  ghost predicate AcceptedBySome(effect: FilterReading, filters: seq<Filter>, x: nat) {
    exists i :: 0 <= i < |filters| && Accepts(effect, filters[i], x)
  }

  ghost predicate DiscardedBySome(effect: FilterReading, filters: seq<Filter>, x: nat) {
    exists i :: 0 <= i < |filters| && Discards(effect, filters[i], x)
  }

  lemma FilterSomeStep(effect: FilterReading, filters: seq<Filter>, x: nat)
    requires filters != []
    ensures var n := |filters| - 1;
      && (AcceptedBySome(effect, filters, x) <==>
          AcceptedBySome(effect, filters[..n], x) || Accepts(effect, filters[n], x))
      && (DiscardedBySome(effect, filters, x) <==>
          DiscardedBySome(effect, filters[..n], x) || Discards(effect, filters[n], x))
  {
    var n := |filters| - 1;
    assert forall i | 0 <= i < n :: filters[..n][i] == filters[i];
    assert Accepts(effect, filters[n], x) ==> AcceptedBySome(effect, filters, x);
    assert Discards(effect, filters[n], x) ==> DiscardedBySome(effect, filters, x);
  }

  /** An effect reader that tells accepts from discards by the filter's own flag. */
  ghost predicate Faithful(effect: FilterReading) {
    forall f :: (effect(f).Accept? ==> !f.exclude) && (effect(f).Discard? ==> f.exclude)
  }

  /** With accepts first, the in-order edits amount to one set expression: (start + accepted) - discarded. */
  lemma {:induction false} FoldedExact(effect: FilterReading, filters: seq<Filter>, start: seq<nat>, x: nat)
    requires Faithful(effect) && AcceptsFirst(filters) && Folded(effect, filters, start).Some?
    ensures x in Folded(effect, filters, start).value <==>
            (x in start || AcceptedBySome(effect, filters, x)) && !DiscardedBySome(effect, filters, x)
  {
    if filters != [] {
      var n := |filters| - 1;
      FoldedExact(effect, filters[..n], start, x);
      FilterSomeStep(effect, filters, x);
    }
  }

  lemma AppliedNoDuplicates(selected: seq<nat>, effect: Effect)
    requires NoDuplicates(selected)
    ensures NoDuplicates(Applied(selected, effect))
  {
    if effect.Accept? {
      AppendUniqueExtends(selected, effect.matches);
    }
  }

  lemma {:induction false} FoldedNoDuplicates(effect: FilterReading, filters: seq<Filter>, start: seq<nat>)
    requires NoDuplicates(start) && Folded(effect, filters, start).Some?
    ensures NoDuplicates(Folded(effect, filters, start).value)
  {
    if filters != [] {
      FoldedNoDuplicates(effect, filters[..|filters| - 1], start);
      AppliedNoDuplicates(Folded(effect, filters[..|filters| - 1], start).value, effect(filters[|filters| - 1]));
    }
  }

  /** A filter covers a device by a type selector, or by its position in the enumeration. */
  ghost predicate Covers(candidates: seq<nat>, selector: string, x: nat) {
    || ((selector == "gpu" || selector == "*") && x in candidates)
    || (exists n: nat :: Spells(selector, n) && n < |candidates| && candidates[n] == x)
  }

  lemma TypeSelectors(n: nat)
    ensures !Spells("gpu", n) && !Spells("*", n) && !Spells("cpu", n)
  {
    NoSpaceTrimmed("gpu");
    NoSpaceTrimmed("*");
    NoSpaceTrimmed("cpu");
    assert !IsDigit("gpu"[0], 10) && !IsDigit("*"[0], 10) && !IsDigit("cpu"[0], 10);
  }

  ghost predicate IsOrdinal(selector: string) {
    exists n: nat :: Spells(selector, n)
  }

  lemma SelectorMatchesExact(candidates: seq<nat>, selector: string, enumerated: bool, x: nat)
    ensures var matches := SelectorMatches(candidates, selector, enumerated);
      && (matches.None? <==> IsOrdinal(selector) && !enumerated)
      && (matches.Some? ==> (x in matches.value <==> Covers(candidates, selector, x)))
  {
    forall n: nat
      ensures !Spells("gpu", n) && !Spells("*", n) && !Spells("cpu", n)
    {
      TypeSelectors(n);
    }
    ParseUintExact(selector, 0);
    if n: nat :| Spells(selector, n) {
      ParseUintExact(selector, n);
      assert Covers(candidates, selector, x) <==> n < |candidates| && candidates[n] == x;
    }
  }

  ghost predicate Reads(read: SelectorReading, selector: string, x: nat) {
    read(selector).Some? && x in read(selector).value
  }

  lemma {:induction false} AllMatchesExact(read: SelectorReading, selectors: seq<string>, x: nat)
    ensures AllMatches(read, selectors).Some? <==> forall i | 0 <= i < |selectors| :: read(selectors[i]).Some?
    ensures AllMatches(read, selectors).Some? ==>
            (x in AllMatches(read, selectors).value <==>
              exists i :: 0 <= i < |selectors| && Reads(read, selectors[i], x))
  {
    if selectors != [] {
      var n := |selectors| - 1;
      AllMatchesExact(read, selectors[..n], x);
      assert forall i | 0 <= i < n :: selectors[..n][i] == selectors[i];
      assert Reads(read, selectors[n], x) <==> read(selectors[n]).Some? && x in read(selectors[n]).value;
    }
  }

  /** The filter is for Level Zero or OpenCL but names an ordinal, and only Level Zero's may be known. */
  ghost predicate Unresolvable(f: Filter, runtimeKnown: bool) {
    && f.backend in {"*", "level_zero", "opencl"}
    && !(f.backend == "level_zero" && runtimeKnown)
    && exists i :: 0 <= i < |f.selectors| && IsOrdinal(f.selectors[i])
  }

  /** The filter is for Level Zero or OpenCL and one of its selectors covers the device; others are skipped. */
  ghost predicate FilterCovers(candidates: seq<nat>, f: Filter, x: nat) {
    && f.backend in {"*", "level_zero", "opencl"}
    && exists i :: 0 <= i < |f.selectors| && Covers(candidates, f.selectors[i], x)
  }

  lemma FilterEffectExact(candidates: seq<nat>, f: Filter, runtimeKnown: bool, x: nat)
    ensures var effect := FilterEffect(candidates, f, runtimeKnown);
      && (effect == Unavailable <==> Unresolvable(f, runtimeKnown))
      && (effect.Accept? ==> !f.exclude) && (effect.Discard? ==> f.exclude)
      && (effect != Unavailable ==>
          ((effect.Accept? && x in effect.matches <==> !f.exclude && FilterCovers(candidates, f, x)) &&
           (effect.Discard? && x in effect.matches <==> f.exclude && FilterCovers(candidates, f, x))))
  {
    var enumerated := f.backend == "level_zero" && runtimeKnown;
    var read := ReadSelector(candidates, enumerated);
    AllMatchesExact(read, f.selectors, x);
    forall i | 0 <= i < |f.selectors|
      ensures read(f.selectors[i]).None? <==> IsOrdinal(f.selectors[i]) && !enumerated
      ensures read(f.selectors[i]).Some? ==> (Reads(read, f.selectors[i], x) <==> Covers(candidates, f.selectors[i], x))
    {
      assert read(f.selectors[i]) == SelectorMatches(candidates, f.selectors[i], enumerated);
      SelectorMatchesExact(candidates, f.selectors[i], enumerated, x);
    }
  }

  ghost predicate Available(effect: FilterReading, filters: seq<Filter>) {
    forall i | 0 <= i < |filters| :: effect(filters[i]) != Unavailable
  }

  lemma AvailableSnoc(effect: FilterReading, front: seq<Filter>, last: Filter)
    ensures Available(effect, front + [last]) <==> Available(effect, front) && effect(last) != Unavailable
  {
    var all := front + [last];
    assert all[|front|] == last && forall i | 0 <= i < |front| :: all[i] == front[i];
  }

  lemma DefinedSnoc(effect: FilterReading, front: seq<Filter>, last: Filter, start: seq<nat>)
    ensures Folded(effect, front + [last], start).Some? <==>
            Folded(effect, front, start).Some? && effect(last) != Unavailable
  {
    assert (front + [last])[..|front|] == front;
  }

  lemma {:induction false} FoldedDefined(effect: FilterReading, filters: seq<Filter>, start: seq<nat>)
    ensures Folded(effect, filters, start).Some? <==> Available(effect, filters)
  {
    if filters != [] {
      var front, last := filters[..|filters| - 1], filters[|filters| - 1];
      FoldedDefined(effect, front, start);
      AvailableSnoc(effect, front, last);
      DefinedSnoc(effect, front, last, start);
      assert filters == front + [last];
    }
  }

  ghost predicate SomeCovers(candidates: seq<nat>, filters: seq<Filter>, exclude: bool, x: nat) {
    exists i :: 0 <= i < |filters| && filters[i].exclude == exclude && FilterCovers(candidates, filters[i], x)
  }

  ghost predicate SomeUnresolvable(filters: seq<Filter>, runtimeKnown: bool) {
    exists i :: 0 <= i < |filters| && Unresolvable(filters[i], runtimeKnown)
  }

  ghost predicate AllDiscard(filters: seq<Filter>) {
    forall f | f in filters :: f.exclude
  }

  /**
    The whole selection as sets: everything when an ordinal cannot be resolved; otherwise what some
    accept filter covers (every candidate when no filter of any backend accepts) minus what some
    discard filter covers.
   */
  lemma FilterSelectionExact(candidates: seq<nat>, filters: seq<Filter>, runtimeKnown: bool, x: nat)
    requires AcceptsFirst(filters)
    ensures var selection := FilterSelection(candidates, filters, runtimeKnown);
      if SomeUnresolvable(filters, runtimeKnown) then selection == candidates
      else x in selection <==>
           ((AllDiscard(filters) && x in candidates) || SomeCovers(candidates, filters, false, x))
           && !SomeCovers(candidates, filters, true, x)
  {
    var effect := ReadFilter(candidates, runtimeKnown);
    var start := if HasAccept(filters) then [] else candidates;
    FoldedDefined(effect, filters, start);
    forall f ensures effect(f) == FilterEffect(candidates, f, runtimeKnown) {
    }
    forall f ensures (effect(f) == Unavailable <==> Unresolvable(f, runtimeKnown))
      ensures (effect(f).Accept? ==> !f.exclude) && (effect(f).Discard? ==> f.exclude)
      ensures effect(f) != Unavailable ==>
              ((Accepts(effect, f, x) <==> !f.exclude && FilterCovers(candidates, f, x)) &&
               (Discards(effect, f, x) <==> f.exclude && FilterCovers(candidates, f, x)))
    {
      FilterEffectExact(candidates, f, runtimeKnown, x);
    }
    if Folded(effect, filters, start).Some? {
      FoldedExact(effect, filters, start, x);
    }
  }

  /** select_sycl on the text: blank selects nothing, an unreadable text leaves all, else the set expression. */
  lemma SyclSelectionExact(candidates: seq<nat>, value: string, runtimeKnown: bool, x: nat)
    requires Trimmed(value) != [] && SyclFilters(value).Some?
    requires !SomeUnresolvable(SyclFilters(value).value, runtimeKnown)
    ensures var filters := SyclFilters(value).value;
      x in SyclSelected(candidates, value, runtimeKnown) <==>
      ((AllDiscard(filters) && x in candidates) || SomeCovers(candidates, filters, false, x))
      && !SomeCovers(candidates, filters, true, x)
  {
    ReadClausesExact(ClauseFilter, Pieces(value, ';'), SyclFilters(value).value);
    FilterSelectionExact(candidates, SyclFilters(value).value, runtimeKnown, x);
  }

  lemma CoversOnlyCandidates(candidates: seq<nat>, filters: seq<Filter>, exclude: bool, x: nat)
    requires SomeCovers(candidates, filters, exclude, x)
    ensures x in candidates
  {
  }

  /** In every case the selection stays within the candidates and repeats none of them. */
  lemma SyclSelectionWithin(candidates: seq<nat>, value: string, runtimeKnown: bool)
    ensures Within(SyclSelected(candidates, value, runtimeKnown), candidates)
    ensures NoDuplicates(candidates) ==> NoDuplicates(SyclSelected(candidates, value, runtimeKnown))
  {
    var parsed := SyclFilters(value);
    if Trimmed(value) != [] && parsed.Some? {
      var filters := parsed.value;
      ReadClausesExact(ClauseFilter, Pieces(value, ';'), filters);
      forall x | x in FilterSelection(candidates, filters, runtimeKnown) ensures x in candidates {
        FilterSelectionExact(candidates, filters, runtimeKnown, x);
        if SomeCovers(candidates, filters, false, x) {
          CoversOnlyCandidates(candidates, filters, false, x);
        }
      }
      var effect := ReadFilter(candidates, runtimeKnown);
      var start := if HasAccept(filters) then [] else candidates;
      if NoDuplicates(candidates) && Folded(effect, filters, start).Some? {
        FoldedNoDuplicates(effect, filters, start);
      }
    }
  }

  lemma FoldedSnoc(effect: FilterReading, filters: seq<Filter>, f: Filter, start: seq<nat>)
    requires Folded(effect, filters, start).Some? && effect(f) != Unavailable
    ensures Folded(effect, filters + [f], start) == Some(Applied(Folded(effect, filters, start).value, effect(f)))
  {
    assert (filters + [f])[..|filters|] == filters;
  }

  /** A filter of every device of every backend. */
  function GpuFilter(exclude: bool): Filter {
    Filter("*", ["gpu"], exclude)
  }

  lemma GpuFilterCovers(candidates: seq<nat>, exclude: bool, runtimeKnown: bool, x: nat)
    requires x in candidates
    ensures FilterCovers(candidates, GpuFilter(exclude), x) && !Unresolvable(GpuFilter(exclude), runtimeKnown)
  {
    assert Covers(candidates, GpuFilter(exclude).selectors[0], x);
  }

  lemma FoldedOne(effect: FilterReading, first: Filter, start: seq<nat>)
    requires effect(first) != Unavailable
    ensures Folded(effect, [first], start) == Some(Applied(start, effect(first)))
  {
    FoldedSnoc(effect, [], first, start);
    assert [] + [first] == [first];
  }

  lemma FoldedPair(effect: FilterReading, first: Filter, second: Filter, start: seq<nat>)
    requires effect(first) != Unavailable && effect(second) != Unavailable
    ensures Folded(effect, [first, second], start) == Some(Applied(Applied(start, effect(first)), effect(second)))
  {
    var front := [first];
    FoldedOne(effect, first, start);
    FoldedSnoc(effect, front, second, start);
    assert front + [second] == [first, second];
  }

  /**
    The set expression depends on the accepts-first rule: were "!*:gpu;*:gpu" read, every device would be
    selected although a discard filter covers it.
   */
  lemma OrderMatters(candidates: seq<nat>, runtimeKnown: bool, x: nat)
    requires x in candidates
    ensures var filters := [GpuFilter(true), GpuFilter(false)];
      && !AcceptsFirst(filters) && SomeCovers(candidates, filters, true, x)
      && x in FilterSelection(candidates, filters, runtimeKnown)
  {
    var filters := [GpuFilter(true), GpuFilter(false)];
    var effect := ReadFilter(candidates, runtimeKnown);
    GpuFilterCovers(candidates, true, runtimeKnown, x);
    GpuFilterCovers(candidates, false, runtimeKnown, x);
    FilterEffectExact(candidates, filters[0], runtimeKnown, x);
    FilterEffectExact(candidates, filters[1], runtimeKnown, x);
    assert filters[0].exclude && !filters[1].exclude;
    FoldedPair(effect, filters[0], filters[1], []);
  }
}
