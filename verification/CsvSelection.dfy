/**
  Ordered device selectors such as CUDA_VISIBLE_DEVICES="0,GPU-ab,2": append_unique, matches_uuid and
  select_csv of src/resolver/accelerator_selection.cpp.
 */
module CsvSelection {
  import opened ParseUtils
  import opened SortedSets
  import opened Numbers
  import opened AcceleratorModel

  ghost predicate Within(q: seq<nat>, pool: seq<nat>) {
    forall x | x in q :: x in pool
  }

  predicate InRange(pool: seq<nat>, devices: seq<Device>)
    ensures InRange(pool, devices) ==> forall k | 0 <= k < |pool| :: pool[k] < |devices|
  {
    assert forall k | 0 <= k < |pool| :: pool[k] in pool;
    forall x | x in pool :: x < |devices|
  }

  // ----- append_unique -----

  function AppendUnique(target: seq<nat>, source: seq<nat>): (result: seq<nat>)
    ensures forall x :: x in result <==> x in target || x in source
  {
    if source == [] then target else
    var n := |source| - 1;
    var before := AppendUnique(target, source[..n]);
    assert source == source[..n] + [source[n]];
    if source[n] in before then before else before + [source[n]]
  }

  /** Appending only adds at the end, and never a second copy. */
  lemma {:induction false} AppendUniqueExtends(target: seq<nat>, source: seq<nat>)
    ensures target <= AppendUnique(target, source)
    ensures NoDuplicates(target) ==> NoDuplicates(AppendUnique(target, source))
  {
    if source != [] {
      AppendUniqueExtends(target, source[..|source| - 1]);
    }
  }

  method AppendUniqueTo(target: seq<nat>, source: seq<nat>) returns (result: seq<nat>)
    ensures result == AppendUnique(target, source)
  {
    result := target;
    for i := 0 to |source|
      invariant result == AppendUnique(target, source[..i])
    {
      assert source[..i + 1][..i] == source[..i];
      if source[i] !in result {
        result := result + [source[i]];
      }
    }
    assert source[..|source|] == source;
  }

  // ----- Tokens -----

  datatype OrdinalOrder = Candidate | PhysicalId

  /** What a selector may refer to: ordinals index one pool, UUID prefixes search the other. */
  datatype AnyPools = Pools(devices: seq<Device>, ordinals: seq<nat>, uuids: seq<nat>, order: OrdinalOrder)

  type Pools = p: AnyPools | InRange(p.ordinals, p.devices) && InRange(p.uuids, p.devices)
    witness Pools([], [], [], Candidate)

  predicate MatchesUuid(device: Device, token: string) {
    if device.uuid.Some? && token <= device.uuid.value then true
    else if device.parentUuid.None? || device.gpuInstance.None? || device.computeInstance.None? then false
    else token == "MIG-" + device.parentUuid.value + "/" + Decimal(device.gpuInstance.value) + "/" +
                  Decimal(device.computeInstance.value)
  }

  predicate IsUuid(token: string) {
    "GPU-" <= token || "MIG-" <= token
  }

  predicate MatchesId(device: Device, number: nat) {
    device.id == number
  }

  function WithId(devices: seq<Device>, pool: seq<nat>, number: nat): (result: seq<nat>)
    requires InRange(pool, devices)
    ensures forall x :: x in result <==> x in pool && MatchesId(devices[x], number)
  {
    if pool == [] then [] else
    var n := |pool| - 1;
    assert pool == pool[..n] + [pool[n]];
    WithId(devices, pool[..n], number) + if MatchesId(devices[pool[n]], number) then [pool[n]] else []
  }

  function WithUuid(devices: seq<Device>, pool: seq<nat>, token: string): (result: seq<nat>)
    requires InRange(pool, devices)
    ensures forall x :: x in result <==> x in pool && MatchesUuid(devices[x], token)
  {
    if pool == [] then [] else
    var n := |pool| - 1;
    assert pool == pool[..n] + [pool[n]];
    WithUuid(devices, pool[..n], token) + if MatchesUuid(devices[pool[n]], token) then [pool[n]] else []
  }

  function Matches(p: Pools, token: string): (result: seq<nat>)
    ensures forall x | x in result :: x in p.ordinals || x in p.uuids
  {
    var ordinal := ParseUint(token);
    if ordinal.Some? then
      if p.order == Candidate then
        if ordinal.value < |p.ordinals| then [p.ordinals[ordinal.value]] else []
      else WithId(p.devices, p.ordinals, ordinal.value)
    else if IsUuid(token) then WithUuid(p.devices, p.uuids, token)
    else []
  }

  predicate Terminates(token: string) {
    token == "-1" || token == "none"
  }

  /** What a token does: adds devices, ends the list as asked, or ends it because it does not resolve. */
  datatype Outcome = Take(indices: seq<nat>) | End | Invalid

  function TokenOutcome(p: Pools, token: string): (result: Outcome)
    ensures result.Take? ==> forall x | x in result.indices :: x in p.ordinals || x in p.uuids
  {
    if Terminates(token) then End else
    var matches := Matches(p, token);
    if matches == [] || (IsUuid(token) && |matches| != 1) then Invalid else Take(matches)
  }

  /** How the tokens are read; the list itself is evaluated the same way for any reading. */
  type Reading = string -> Outcome

  function TokenReading(p: Pools): Reading {
    token => TokenOutcome(p, token)
  }

  function Outcomes(f: Reading, tokens: seq<string>): (result: seq<Outcome>)
    ensures |result| == |tokens| && forall i | 0 <= i < |tokens| :: result[i] == f(tokens[i])
  {
    seq(|tokens|, i requires 0 <= i < |tokens| => f(tokens[i]))
  }

  // ----- The selection -----

  /** Length of the longest prefix of resolving tokens. */
  function Resolved(outs: seq<Outcome>): (k: nat)
    ensures k <= |outs| && (forall i | 0 <= i < k :: outs[i].Take?)
    ensures k < |outs| ==> !outs[k].Take?
  {
    if outs == [] || !outs[0].Take? then 0 else 1 + Resolved(outs[1..])
  }

  function Indices(out: Outcome): seq<nat> {
    if out.Take? then out.indices else []
  }

  /** The matches of all tokens in order, first occurrences only. */
  function Gathered(outs: seq<Outcome>): seq<nat> {
    if outs == [] then [] else AppendUnique(Gathered(outs[..|outs| - 1]), Indices(outs[|outs| - 1]))
  }

  lemma {:induction false} GatheredDistinct(outs: seq<Outcome>)
    ensures NoDuplicates(Gathered(outs))
  {
    if outs != [] {
      GatheredDistinct(outs[..|outs| - 1]);
      AppendUniqueExtends(Gathered(outs[..|outs| - 1]), Indices(outs[|outs| - 1]));
    }
  }

  /** The fold over the longest resolving prefix. */
  function Chosen(outs: seq<Outcome>): seq<nat> {
    Gathered(outs[..Resolved(outs)])
  }

  ghost predicate EndsInvalid(outs: seq<Outcome>) {
    Resolved(outs) < |outs| && outs[Resolved(outs)].Invalid?
  }

  function AllTrimmed(pieces: seq<string>): (result: seq<string>)
    ensures |result| == |pieces| && forall i | 0 <= i < |pieces| :: result[i] == Trimmed(pieces[i])
  {
    seq(|pieces|, i requires 0 <= i < |pieces| => Trimmed(pieces[i]))
  }

  function Tokens(value: string): seq<string> {
    AllTrimmed(Pieces(value, ','))
  }

  function SelectedBy(f: Reading, value: string): seq<nat> {
    Chosen(Outcomes(f, Tokens(value)))
  }

  /** The selection a selector text makes. */
  function Selected(p: Pools, value: string): seq<nat> {
    SelectedBy(TokenReading(p), value)
  }

  lemma ResolvedIs(outs: seq<Outcome>, k: nat)
    requires k <= |outs| && (forall i | 0 <= i < k :: outs[i].Take?) && (k < |outs| ==> !outs[k].Take?)
    ensures Resolved(outs) == k
  {
  }

  lemma {:induction false} BlankPieces(value: string)
    requires Trimmed(value) == []
    ensures Tokens(value)[0] == []
  {
    var a, b := TrimmedParts(value);
    assert value == a + b;
    assert ',' !in value;
    PiecesOfPrefix(value, [], ',');
    assert value + [] == value;
  }

  lemma BlankToken(p: Pools)
    ensures TokenOutcome(p, []) == Invalid
  {
    assert ParseUint([]).None?;
  }

  /** A blank text selects nothing; its early exit only spares the warning. */
  lemma BlankSelectsNothing(p: Pools, value: string)
    requires Trimmed(value) == []
    ensures Selected(p, value) == []
  {
    BlankPieces(value);
    BlankToken(p);
    ResolvedIs(Outcomes(TokenReading(p), Tokens(value)), 0);
  }

  /** What the token loop returns from token i on, given the devices selected so far; and whether it warns. */
  function Scan(outs: seq<Outcome>, i: nat, selected: seq<nat>): (seq<nat>, bool)
    requires i <= |outs|
    decreases |outs| - i
  {
    if i == |outs| then (selected, false)
    else if outs[i].Take? then Scan(outs, i + 1, AppendUnique(selected, outs[i].indices))
    else (selected, outs[i].Invalid?)
  }

  lemma GatheredStep(outs: seq<Outcome>, i: nat)
    requires i < |outs| && outs[i].Take?
    ensures Gathered(outs[..i + 1]) == AppendUnique(Gathered(outs[..i]), outs[i].indices)
  {
    assert outs[..i + 1][..i] == outs[..i];
  }

  lemma {:induction false} ScanFrom(outs: seq<Outcome>, i: nat, end: nat)
    requires i <= end <= |outs| && (forall j | i <= j < end :: outs[j].Take?) && (end < |outs| ==> !outs[end].Take?)
    ensures Scan(outs, i, Gathered(outs[..i])) == (Gathered(outs[..end]), end < |outs| && outs[end].Invalid?)
    decreases end - i
  {
    if i < end {
      GatheredStep(outs, i);
      ScanFrom(outs, i + 1, end);
    }
  }

  /** The scan with its early exits is the fold over the longest resolving prefix. */
  lemma ScanIsChosen(outs: seq<Outcome>)
    ensures Scan(outs, 0, []) == (Chosen(outs), EndsInvalid(outs))
  {
    ScanFrom(outs, 0, Resolved(outs));
  }

  /** One round of the token loop. */
  method TakeToken(p: Pools, token: string) returns (out: Outcome)
    ensures out == TokenOutcome(p, token)
  {
    if token == "-1" || token == "none" {
      return End;
    }
    var matches := Matches(p, token);
    if matches == [] || (IsUuid(token) && |matches| != 1) {
      return Invalid;
    }
    return Take(matches);
  }

  /** select_csv: tokens are taken in order until the first that terminates, is unknown or is ambiguous. */
  method SelectCsv(p: Pools, value: string) returns (selected: seq<nat>, warned: bool)
    ensures selected == Selected(p, value)
    ensures warned <==> Trimmed(value) != [] && EndsInvalid(Outcomes(TokenReading(p), Tokens(value)))
  {
    selected, warned := [], false;
    if Trimmed(value) == [] {
      BlankSelectsNothing(p, value);
      return;
    }
    var parts := Split(value, ',');
    ghost var outs := Outcomes(TokenReading(p), AllTrimmed(parts));
    ScanIsChosen(outs);
    var i := 0;
    while i < |parts|
      invariant 0 <= i <= |parts| && !warned
      invariant Scan(outs, i, selected) == Scan(outs, 0, [])
    {
      var token := Trim(parts[i]);
      var out := TakeToken(p, token);
      assert out == outs[i];
      if !out.Take? {
        warned := out.Invalid?;
        return;
      }
      selected := AppendUniqueTo(selected, out.indices);
      i := i + 1;
    }
  }

  // ----- What a selection is -----

  ghost predicate Hits(out: Outcome, x: nat) {
    out.Take? && x in out.indices
  }

  lemma GatheredGrows(outs: seq<Outcome>, out: Outcome)
    ensures Gathered(outs) <= Gathered(outs + [out])
  {
    assert (outs + [out])[..|outs|] == outs;
    AppendUniqueExtends(Gathered(outs), Indices(out));
  }

  lemma {:induction false} GatheredPrefix(first: seq<Outcome>, rest: seq<Outcome>)
    ensures Gathered(first) <= Gathered(first + rest)
  {
    if rest == [] {
      assert first + rest == first;
    } else {
      var n := |rest| - 1;
      GatheredPrefix(first, rest[..n]);
      GatheredGrows(first + rest[..n], rest[n]);
      assert first + rest == first + rest[..n] + [rest[n]];
    }
  }

  lemma {:induction false} GatheredExact(outs: seq<Outcome>, x: nat)
    ensures x in Gathered(outs) <==> exists i :: 0 <= i < |outs| && Hits(outs[i], x)
  {
    if outs != [] {
      var n := |outs| - 1;
      GatheredExact(outs[..n], x);
      assert forall i | 0 <= i < n :: outs[..n][i] == outs[i];
      assert x in Gathered(outs) <==> x in Gathered(outs[..n]) || Hits(outs[n], x);
    }
  }

  lemma ResolvedPast(outs: seq<Outcome>, i: nat)
    requires i < |outs| && outs[i].Take? && forall j | 0 <= j < i :: outs[j].Take?
    ensures i < Resolved(outs)
  {
    var k := Resolved(outs);
    assert k < |outs| ==> !outs[k].Take?;
  }

  lemma PrefixHit(outs: seq<Outcome>, k: nat, x: nat)
    requires k <= |outs|
    ensures x in Gathered(outs[..k]) <==> exists i :: 0 <= i < k && Hits(outs[i], x)
  {
    GatheredExact(outs[..k], x);
    assert forall i | 0 <= i < k :: outs[..k][i] == outs[i];
  }

  lemma ChosenExact(outs: seq<Outcome>, x: nat)
    ensures x in Chosen(outs) <==>
            exists i :: 0 <= i < |outs| && Hits(outs[i], x) && forall j | 0 <= j < i :: outs[j].Take?
  {
    PrefixHit(outs, Resolved(outs), x);
    if i :| 0 <= i < |outs| && Hits(outs[i], x) && forall j | 0 <= j < i :: outs[j].Take? {
      ResolvedPast(outs, i);
    }
  }

  /** A device is selected exactly when a token matches it and every token before resolves; never twice. */
  lemma SelectedByExact(f: Reading, value: string, x: nat)
    ensures NoDuplicates(SelectedBy(f, value))
    ensures var tokens := Tokens(value);
      x in SelectedBy(f, value) <==>
      exists i :: 0 <= i < |tokens| && Hits(f(tokens[i]), x) && forall j | 0 <= j < i :: f(tokens[j]).Take?
  {
    var tokens := Tokens(value);
    var outs := Outcomes(f, tokens);
    ChosenExact(outs, x);
    GatheredDistinct(outs[..Resolved(outs)]);
    if x in Chosen(outs) {
      var i :| 0 <= i < |outs| && Hits(outs[i], x) && forall j | 0 <= j < i :: outs[j].Take?;
      assert Hits(f(tokens[i]), x);
    }
    if i :| 0 <= i < |tokens| && Hits(f(tokens[i]), x) && forall j | 0 <= j < i :: f(tokens[j]).Take? {
      assert Hits(outs[i], x);
    }
  }

  /** Nothing is selected from outside the pools. */
  lemma SelectedWithin(p: Pools, value: string, x: nat)
    requires x in Selected(p, value)
    ensures x in p.ordinals || x in p.uuids
  {
    SelectedByExact(TokenReading(p), value, x);
    var tokens, f := Tokens(value), TokenReading(p);
    var i :| 0 <= i < |tokens| && Hits(f(tokens[i]), x) && forall j | 0 <= j < i :: f(tokens[j]).Take?;
    assert f(tokens[i]) == TokenOutcome(p, tokens[i]);
  }

  lemma ResolvedConcat(first: seq<Outcome>, rest: seq<Outcome>)
    ensures Resolved(first) < |first| ==> Resolved(first + rest) == Resolved(first)
    ensures Resolved(first) == |first| ==> Resolved(first + rest) >= |first|
  {
    var all := first + rest;
    assert forall i | 0 <= i < |first| :: all[i] == first[i];
    if Resolved(first) < |first| {
      ResolvedIs(all, Resolved(first));
    }
  }

  lemma ChosenKept(first: seq<Outcome>, rest: seq<Outcome>)
    requires Resolved(first) < |first|
    ensures Chosen(first + rest) == Chosen(first)
  {
    ResolvedConcat(first, rest);
    assert (first + rest)[..Resolved(first)] == first[..Resolved(first)];
  }

  lemma ChosenExtended(first: seq<Outcome>, rest: seq<Outcome>)
    requires Resolved(first) == |first|
    ensures Chosen(first) <= Chosen(first + rest)
  {
    ResolvedConcat(first, rest);
    var k := Resolved(first + rest);
    assert (first + rest)[..k] == first + (first + rest)[|first|..k];
    assert first[..Resolved(first)] == first;
    GatheredPrefix(first, (first + rest)[|first|..k]);
  }

  lemma ChosenPrefix(first: seq<Outcome>, rest: seq<Outcome>)
    ensures Chosen(first) <= Chosen(first + rest)
    ensures Resolved(first) < |first| ==> Chosen(first + rest) == Chosen(first)
  {
    if Resolved(first) < |first| {
      ChosenKept(first, rest);
    } else {
      ChosenExtended(first, rest);
    }
  }

  lemma TokensConcat(value: string, rest: string)
    ensures Tokens(value + [','] + rest) == Tokens(value) + Tokens(rest)
  {
    PiecesConcat(value, rest, ',');
  }

  lemma OutcomesConcat(f: Reading, a: seq<string>, b: seq<string>)
    ensures Outcomes(f, a + b) == Outcomes(f, a) + Outcomes(f, b)
  {
  }

  /**
    A longer list extends the selection of a shorter one at its end; once a token did not resolve,
    whatever is written behind it has no effect at all.
   */
  lemma TextPrefix(f: Reading, value: string, rest: string)
    ensures SelectedBy(f, value) <= SelectedBy(f, value + [','] + rest)
    ensures (exists token :: token in Tokens(value) && !f(token).Take?) ==>
            SelectedBy(f, value + [','] + rest) == SelectedBy(f, value)
  {
    var first, second := Tokens(value), Tokens(rest);
    TokensConcat(value, rest);
    OutcomesConcat(f, first, second);
    ChosenPrefix(Outcomes(f, first), Outcomes(f, second));
    if token :| token in first && !f(token).Take? {
      var i :| 0 <= i < |first| && first[i] == token;
      assert !Outcomes(f, first)[i].Take?;
    }
  }

  // ----- Ordinal lists compose -----

  /** The entries of the pool at the given positions, up to the first position outside it. */
  function Picked(pool: seq<nat>, ordinals: seq<nat>): (result: seq<nat>)
    ensures |result| <= |ordinals|
    ensures forall i | 0 <= i < |result| :: ordinals[i] < |pool| && result[i] == pool[ordinals[i]]
    ensures |result| < |ordinals| ==> ordinals[|result|] >= |pool|
  {
    if ordinals == [] || ordinals[0] >= |pool| then [] else [pool[ordinals[0]]] + Picked(pool, ordinals[1..])
  }

  function DecimalTexts(ordinals: seq<nat>): (texts: seq<string>)
    ensures |texts| == |ordinals| && forall i | 0 <= i < |ordinals| :: texts[i] == Decimal(ordinals[i])
  {
    seq(|ordinals|, i requires 0 <= i < |ordinals| => Decimal(ordinals[i]))
  }

  function OrdinalList(ordinals: seq<nat>): string
    requires ordinals != []
  {
    Join(DecimalTexts(ordinals), ',')
  }

  lemma DecimalToken(n: nat)
    ensures ',' !in Decimal(n) && Trimmed(Decimal(n)) == Decimal(n)
  {
    DigitsTrimmed(Decimal(n), 10);
    assert forall j | 0 <= j < |Decimal(n)| :: IsDigit(Decimal(n)[j], 10);
  }

  lemma OrdinalTokens(ordinals: seq<nat>)
    requires ordinals != []
    ensures Tokens(OrdinalList(ordinals)) == DecimalTexts(ordinals)
  {
    var texts := DecimalTexts(ordinals);
    forall i | 0 <= i < |texts| ensures ',' !in texts[i] && Trimmed(texts[i]) == texts[i] {
      DecimalToken(ordinals[i]);
    }
    PiecesJoin(texts, ',');
    assert AllTrimmed(texts) == texts;
  }

  /** What an ordinal does: takes its pool entry, or is invalid outside the pool. */
  function Position(pool: seq<nat>, number: nat): Outcome {
    if number < |pool| then Take([pool[number]]) else Invalid
  }

  lemma OrdinalOutcome(p: Pools, number: nat)
    requires p.order == Candidate && |p.ordinals| <= U64_MAX
    ensures TokenOutcome(p, Decimal(number)) == Position(p.ordinals, number)
  {
    ParseUintDecimal(number);
    assert IsDigit(Decimal(number)[0], 10);
  }

  /** What an ordinal does by ID: takes the pool entries that carry it, or is invalid. */
  function Carriers(p: Pools, number: nat): Outcome {
    var matches := WithId(p.devices, p.ordinals, number);
    if matches == [] then Invalid else Take(matches)
  }

  /** Only numbers of 64 bits are carried. */
  lemma CarriedFits(p: Pools, number: nat)
    requires forall x | x in p.ordinals :: p.devices[x].id <= U64_MAX
    ensures WithId(p.devices, p.ordinals, number) != [] ==> number <= U64_MAX
  {
    var matches := WithId(p.devices, p.ordinals, number);
    if matches != [] {
      assert matches[0] in matches;
    }
  }

  lemma IdOutcome(p: Pools, number: nat)
    requires p.order == PhysicalId && forall x | x in p.ordinals :: p.devices[x].id <= U64_MAX
    ensures TokenOutcome(p, Decimal(number)) == Carriers(p, number)
  {
    ParseUintDecimal(number);
    assert IsDigit(Decimal(number)[0], 10);
    CarriedFits(p, number);
  }

  ghost predicate SomeCarries(p: Pools, number: nat) {
    exists x :: x in p.ordinals && p.devices[x].id == number
  }

  lemma CarriersExact(p: Pools, number: nat, x: nat)
    ensures Carriers(p, number).Take? <==> SomeCarries(p, number)
    ensures Hits(Carriers(p, number), x) <==> x in p.ordinals && p.devices[x].id == number
  {
    var matches := WithId(p.devices, p.ordinals, number);
    if matches != [] {
      assert matches[0] in matches;
    }
  }

  /**
    A list of ordinals by ID selects x exactly when x carries one of them and every ordinal before it is
    carried by some entry of the pool.
   */
  lemma IdsSelect(p: Pools, ordinals: seq<nat>, x: nat)
    requires p.order == PhysicalId && ordinals != [] && forall y | y in p.ordinals :: p.devices[y].id <= U64_MAX
    ensures x in Selected(p, OrdinalList(ordinals)) <==>
            x in p.ordinals && exists i :: 0 <= i < |ordinals| && p.devices[x].id == ordinals[i]
                                           && forall j | 0 <= j < i :: SomeCarries(p, ordinals[j])
  {
    var f, tokens := TokenReading(p), DecimalTexts(ordinals);
    OrdinalTokens(ordinals);
    SelectedByExact(f, OrdinalList(ordinals), x);
    forall i | 0 <= i < |ordinals|
      ensures f(tokens[i]).Take? <==> SomeCarries(p, ordinals[i])
      ensures Hits(f(tokens[i]), x) <==> x in p.ordinals && p.devices[x].id == ordinals[i]
    {
      IdOutcome(p, ordinals[i]);
      CarriersExact(p, ordinals[i], x);
    }
    if i :| 0 <= i < |ordinals| && x in p.ordinals && p.devices[x].id == ordinals[i] &&
            (forall j | 0 <= j < i :: SomeCarries(p, ordinals[j])) {
      assert Hits(f(tokens[i]), x);
    }
  }

  function PositionOutcomes(pool: seq<nat>, ordinals: seq<nat>): (outs: seq<Outcome>)
    ensures |outs| == |ordinals| && forall i | 0 <= i < |ordinals| :: outs[i] == Position(pool, ordinals[i])
  {
    seq(|ordinals|, i requires 0 <= i < |ordinals| => Position(pool, ordinals[i]))
  }

  lemma AppendUniqueSnoc(target: seq<nat>, source: seq<nat>, entry: nat)
    ensures AppendUnique(AppendUnique(target, source), [entry]) == AppendUnique(target, source + [entry])
  {
    assert (source + [entry])[..|source|] == source && [entry][..0] == [];
  }

  lemma {:induction false} PickedAll(pool: seq<nat>, ordinals: seq<nat>)
    requires forall i | 0 <= i < |ordinals| :: ordinals[i] < |pool|
    ensures Picked(pool, ordinals) == seq(|ordinals|, i requires 0 <= i < |ordinals| => pool[ordinals[i]])
  {
    assert |Picked(pool, ordinals)| == |ordinals|;
  }

  lemma PickedSnoc(pool: seq<nat>, front: seq<nat>, last: nat)
    requires last < |pool| && forall i | 0 <= i < |front| :: front[i] < |pool|
    ensures Picked(pool, front + [last]) == Picked(pool, front) + [pool[last]]
  {
    PickedAll(pool, front);
    PickedAll(pool, front + [last]);
  }

  lemma GatheredSnoc(outs: seq<Outcome>, front: seq<Outcome>, entry: nat)
    requires outs != [] && outs[..|outs| - 1] == front && outs[|outs| - 1] == Take([entry])
    ensures Gathered(outs) == AppendUnique(Gathered(front), [entry])
  {
  }

  lemma OutcomesSnoc(pool: seq<nat>, front: seq<nat>, last: nat)
    ensures PositionOutcomes(pool, front + [last]) == PositionOutcomes(pool, front) + [Position(pool, last)]
  {
  }

  lemma {:induction false} PositionsGathered(pool: seq<nat>, ordinals: seq<nat>)
    requires forall i | 0 <= i < |ordinals| :: ordinals[i] < |pool|
    ensures Gathered(PositionOutcomes(pool, ordinals)) == AppendUnique([], Picked(pool, ordinals))
  {
    if ordinals != [] {
      var front, last := ordinals[..|ordinals| - 1], ordinals[|ordinals| - 1];
      assert ordinals == front + [last];
      PositionsGathered(pool, front);
      PickedSnoc(pool, front, last);
      OutcomesSnoc(pool, front, last);
      GatheredSnoc(PositionOutcomes(pool, ordinals), PositionOutcomes(pool, front), pool[last]);
      AppendUniqueSnoc([], Picked(pool, front), pool[last]);
    }
  }

  lemma PickedStops(pool: seq<nat>, ordinals: seq<nat>)
    ensures Picked(pool, ordinals[..|Picked(pool, ordinals)|]) == Picked(pool, ordinals)
  {
    var front := ordinals[..|Picked(pool, ordinals)|];
    forall i | 0 <= i < |front|
      ensures front[i] < |pool| && Picked(pool, ordinals)[i] == pool[front[i]]
    {
      assert front[i] == ordinals[i];
    }
    PickedAll(pool, front);
  }

  lemma PositionsChosen(pool: seq<nat>, ordinals: seq<nat>)
    ensures Chosen(PositionOutcomes(pool, ordinals)) == AppendUnique([], Picked(pool, ordinals))
  {
    var k := |Picked(pool, ordinals)|;
    var outs := PositionOutcomes(pool, ordinals);
    ResolvedIs(outs, k);
    assert outs[..k] == PositionOutcomes(pool, ordinals[..k]);
    PositionsGathered(pool, ordinals[..k]);
    PickedStops(pool, ordinals);
  }

  /**
    Any list of ordinals selects the pool entries at those positions up to the first one outside the pool,
    in that order, each entry once.
   */
  lemma OrdinalsSelect(p: Pools, ordinals: seq<nat>)
    requires p.order == Candidate && |p.ordinals| <= U64_MAX && ordinals != []
    ensures Selected(p, OrdinalList(ordinals)) == AppendUnique([], Picked(p.ordinals, ordinals))
  {
    var texts, f := DecimalTexts(ordinals), TokenReading(p);
    OrdinalTokens(ordinals);
    forall i | 0 <= i < |ordinals| ensures f(texts[i]) == Position(p.ordinals, ordinals[i]) {
      OrdinalOutcome(p, ordinals[i]);
    }
    assert Outcomes(f, texts) == PositionOutcomes(p.ordinals, ordinals);
    PositionsChosen(p.ordinals, ordinals);
  }

  lemma {:induction false} NothingToDrop(q: seq<nat>)
    requires NoDuplicates(q)
    ensures AppendUnique([], q) == q
  {
    if q != [] {
      NothingToDrop(q[..|q| - 1]);
      assert q == q[..|q| - 1] + [q[|q| - 1]];
    }
  }

  /** Distinct positions of a list without repetition are selected as they are. */
  lemma PickedDistinct(pool: seq<nat>, ordinals: seq<nat>)
    requires NoDuplicates(pool) && NoDuplicates(ordinals)
    ensures NoDuplicates(Picked(pool, ordinals))
    ensures AppendUnique([], Picked(pool, ordinals)) == Picked(pool, ordinals)
  {
    NothingToDrop(Picked(pool, ordinals));
  }

  /** Selecting positions out of a selection is selecting the composed positions. */
  lemma PickedComposes(pool: seq<nat>, outer: seq<nat>, inner: seq<nat>)
    requires |Picked(pool, outer)| == |outer|
    ensures Picked(Picked(pool, outer), inner) == Picked(pool, Picked(outer, inner))
    ensures Within(Picked(Picked(pool, outer), inner), Picked(pool, outer))
  {
    var a, b := Picked(Picked(pool, outer), inner), Picked(outer, inner);
    assert |a| == |b|;
    forall i | 0 <= i < |b| ensures b[i] < |pool| {
      assert b[i] == outer[inner[i]];
    }
    assert |Picked(pool, b)| == |b|;
  }
}
