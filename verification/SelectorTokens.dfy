/**
  What one token of an ordered device selector means, and what a whole text selects, in terms of the device
  fields: matches_uuid and select_csv of src/resolver/accelerator_selection.cpp.
 */
module SelectorTokens {
  import opened Options
  import opened ParseUtils
  import opened Numbers
  import opened Counting
  import opened AcceleratorModel
  import opened CsvSelection

  // ----- UUID tokens -----

  /** MIG-<parent UUID>/<GPU instance>/<compute instance>. */
  function LegacyName(parent: string, gpu: nat, compute: nat): string {
    "MIG-" + parent + "/" + Decimal(gpu) + "/" + Decimal(compute)
  }

  /** The token is a beginning of the device's UUID, or the old name of the MIG instance. */
  ghost predicate NamedBy(device: Device, token: string) {
    || (exists rest :: device.uuid == Some(token + rest))
    || (exists parent, gpu, compute ::
          && device.parentUuid == Some(parent) && device.gpuInstance == Some(gpu)
          && device.computeInstance == Some(compute) && token == LegacyName(parent, gpu, compute))
  }

  lemma NamedByExact(device: Device, token: string)
    ensures MatchesUuid(device, token) <==> NamedBy(device, token)
  {
    if device.uuid.Some? && token <= device.uuid.value {
      var uuid := device.uuid.value;
      assert uuid == token + uuid[|token|..];
      assert device.uuid == Some(token + uuid[|token|..]);
    } else if MatchesUuid(device, token) {
      assert token == LegacyName(device.parentUuid.value, device.gpuInstance.value, device.computeInstance.value);
    }
  }

  /** The entry at k is the only one of the pool that the token names. */
  ghost predicate OnlyNamed(devices: seq<Device>, pool: seq<nat>, token: string, k: nat)
    requires InRange(pool, devices)
  {
    k < |pool| && forall j | 0 <= j < |pool| :: NamedBy(devices[pool[j]], token) <==> j == k
  }

  function Matching(devices: seq<Device>, token: string): nat -> bool {
    (x: nat) => x < |devices| && MatchesUuid(devices[x], token)
  }

  lemma {:induction false} MatchesCounted(devices: seq<Device>, pool: seq<nat>, token: string)
    requires InRange(pool, devices)
    ensures |WithUuid(devices, pool, token)| == CountIf(pool, Matching(devices, token))
  {
    if pool != [] {
      MatchesCounted(devices, pool[..|pool| - 1], token);
    }
  }

  lemma OnlyCounted(devices: seq<Device>, pool: seq<nat>, token: string, k: nat)
    requires InRange(pool, devices) && k < |pool| && NamedBy(devices[pool[k]], token)
    ensures CountIf(pool, Matching(devices, token)) == 1 <==> OnlyNamed(devices, pool, token, k)
  {
    var f := Matching(devices, token);
    forall j | 0 <= j < |pool|
      ensures f(pool[j]) <==> NamedBy(devices[pool[j]], token)
    {
      NamedByExact(devices[pool[j]], token);
    }
    CountIfOne(pool, f, k);
  }

  lemma OneNamed(devices: seq<Device>, pool: seq<nat>, token: string, k: nat)
    requires InRange(pool, devices) && OnlyNamed(devices, pool, token, k)
    ensures WithUuid(devices, pool, token) == [pool[k]]
  {
    var matches := WithUuid(devices, pool, token);
    MatchesCounted(devices, pool, token);
    OnlyCounted(devices, pool, token, k);
    assert matches[0] in matches;
    NamedByExact(devices[matches[0]], token);
  }

  lemma NamedOnce(devices: seq<Device>, pool: seq<nat>, token: string) returns (k: nat)
    requires InRange(pool, devices) && |WithUuid(devices, pool, token)| == 1
    ensures OnlyNamed(devices, pool, token, k)
  {
    var matches := WithUuid(devices, pool, token);
    MatchesCounted(devices, pool, token);
    assert matches[0] in matches;
    NamedByExact(devices[matches[0]], token);
    k :| k < |pool| && pool[k] == matches[0];
    OnlyCounted(devices, pool, token, k);
  }

  // ----- Any token -----

  predicate IsUuidText(token: string) {
    |token| >= 4 && (token[..4] == "GPU-" || token[..4] == "MIG-")
  }

  /** The token selects x: as a number by position or by ID, or as a UUID that names exactly one entry. */
  ghost predicate Names(p: Pools, token: string, x: nat) {
    || (exists n: nat :: Spells(token, n) &&
          (if p.order == Candidate then n < |p.ordinals| && p.ordinals[n] == x
           else x in p.ordinals && p.devices[x].id == n))
    || (IsUuidText(token) && exists k: nat :: OnlyNamed(p.devices, p.uuids, token, k) && p.uuids[k] == x)
  }

  ghost predicate NamesSome(p: Pools, token: string) {
    exists x :: Names(p, token, x)
  }

  /** The two tokens that end a list without a warning. */
  predicate EndsList(token: string) {
    token == "-1" || token == "none"
  }

  /** A digit string starts with a digit where the text does not start with a blank. */
  lemma SolidStart(token: string)
    requires token != [] && !IsSpace(token[0]) && AllDigits(Trimmed(token), 10) && Trimmed(token) != []
    ensures IsDigit(token[0], 10)
  {
    var a, b := TrimmedParts(token);
    assert token == a + Trimmed(token) + b;
    assert a == [];
    assert token[0] == Trimmed(token)[0];
  }

  lemma NumberIsNoName(token: string, n: nat)
    requires Spells(token, n)
    ensures !IsUuidText(token) && !EndsList(token)
  {
    if IsUuidText(token) {
      assert token[0] == 'G' || token[0] == 'M';
      SolidStart(token);
    }
    if EndsList(token) {
      SolidStart(token);
    }
  }

  lemma NumberToken(p: Pools, token: string, n: nat)
    requires Spells(token, n)
    ensures forall x :: Hits(TokenOutcome(p, token), x) <==> Names(p, token, x)
    ensures TokenOutcome(p, token) == if NamesSome(p, token) then Take(Matches(p, token)) else Invalid
  {
    ParseUintExact(token, n);
    NumberIsNoName(token, n);
    var matches := Matches(p, token);
    forall x: nat
      ensures x in matches <==> Names(p, token, x)
    {
      assert Names(p, token, x) <==>
             if p.order == Candidate then n < |p.ordinals| && p.ordinals[n] == x
             else x in p.ordinals && p.devices[x].id == n;
    }
    assert NamesSome(p, token) <==> matches != [] by {
      if matches != [] {
        assert matches[0] in matches;
      }
    }
  }

  lemma UuidOutcome(p: Pools, token: string)
    requires IsUuidText(token)
    ensures var matches := WithUuid(p.devices, p.uuids, token);
      TokenOutcome(p, token) == if |matches| == 1 then Take(matches) else Invalid
    ensures forall n: nat :: !Spells(token, n)
  {
    forall n: nat
      ensures !Spells(token, n)
    {
      if Spells(token, n) {
        NumberIsNoName(token, n);
      }
    }
    ParseUintExact(token, 0);
  }

  /** A UUID or old name is taken exactly when it names one entry, and else ends the list with a warning. */
  lemma UuidToken(p: Pools, token: string)
    requires IsUuidText(token)
    ensures forall k: nat | OnlyNamed(p.devices, p.uuids, token, k) :: TokenOutcome(p, token) == Take([p.uuids[k]])
    ensures (forall k: nat :: !OnlyNamed(p.devices, p.uuids, token, k)) ==> TokenOutcome(p, token) == Invalid
  {
    UuidOutcome(p, token);
    forall k: nat | OnlyNamed(p.devices, p.uuids, token, k)
      ensures WithUuid(p.devices, p.uuids, token) == [p.uuids[k]]
    {
      OneNamed(p.devices, p.uuids, token, k);
    }
    if |WithUuid(p.devices, p.uuids, token)| == 1 {
      var k := NamedOnce(p.devices, p.uuids, token);
    }
  }

  lemma UuidNames(p: Pools, token: string)
    requires IsUuidText(token)
    ensures forall x :: Hits(TokenOutcome(p, token), x) <==> Names(p, token, x)
    ensures TokenOutcome(p, token) == if NamesSome(p, token) then Take(WithUuid(p.devices, p.uuids, token)) else Invalid
  {
    UuidOutcome(p, token);
    UuidToken(p, token);
    if k: nat :| OnlyNamed(p.devices, p.uuids, token, k) {
      OneNamed(p.devices, p.uuids, token, k);
      assert Names(p, token, p.uuids[k]);
      forall x: nat | Names(p, token, x)
        ensures x == p.uuids[k]
      {
      }
    }
  }

  /** What a token does: it takes exactly what it names, and else ends the list, warning unless it was meant to. */
  lemma TokenExact(p: Pools, token: string)
    ensures var outcome := TokenOutcome(p, token);
      && (forall x :: Hits(outcome, x) <==> Names(p, token, x))
      && (outcome.Take? <==> NamesSome(p, token))
      && (outcome == End <==> EndsList(token))
      && (outcome == Invalid <==> !NamesSome(p, token) && !EndsList(token))
  {
    ParseUintExact(token, 0);
    if n: nat :| Spells(token, n) {
      NumberToken(p, token, n);
    } else if IsUuidText(token) {
      UuidNames(p, token);
    }
  }

  // ----- Whole texts -----

  /** Some token of the text names the device, and every token before it names some. */
  ghost predicate TextNames(p: Pools, value: string, x: nat) {
    var tokens := Tokens(value);
    exists k :: 0 <= k < |tokens| && Names(p, tokens[k], x) && forall j | 0 <= j < k :: NamesSome(p, tokens[j])
  }

  /** The first token that names nothing is not one of the two that end a list. */
  ghost predicate TextWarns(p: Pools, value: string) {
    var tokens := Tokens(value);
    exists k :: 0 <= k < |tokens| && !NamesSome(p, tokens[k]) && !EndsList(tokens[k])
                && forall j | 0 <= j < k :: NamesSome(p, tokens[j])
  }

  lemma TokensExact(p: Pools, tokens: seq<string>)
    ensures var f := TokenReading(p);
      forall k | 0 <= k < |tokens| ::
        && (forall x :: Hits(f(tokens[k]), x) <==> Names(p, tokens[k], x))
        && (f(tokens[k]).Take? <==> NamesSome(p, tokens[k]))
        && (f(tokens[k]).Invalid? <==> !NamesSome(p, tokens[k]) && !EndsList(tokens[k]))
  {
    forall k | 0 <= k < |tokens|
      ensures var f := TokenReading(p);
        && (forall x :: Hits(f(tokens[k]), x) <==> Names(p, tokens[k], x))
        && (f(tokens[k]).Take? <==> NamesSome(p, tokens[k]))
        && (f(tokens[k]).Invalid? <==> !NamesSome(p, tokens[k]) && !EndsList(tokens[k]))
    {
      TokenExact(p, tokens[k]);
    }
  }

  lemma TextSelects(p: Pools, value: string, x: nat)
    ensures x in Selected(p, value) <==> TextNames(p, value, x)
  {
    TokensExact(p, Tokens(value));
    SelectedByExact(TokenReading(p), value, x);
  }

  lemma EndsInvalidExact(outs: seq<Outcome>)
    ensures EndsInvalid(outs) <==>
            exists k :: 0 <= k < |outs| && outs[k].Invalid? && forall j | 0 <= j < k :: outs[j].Take?
  {
    if k :| 0 <= k < |outs| && outs[k].Invalid? && forall j | 0 <= j < k :: outs[j].Take? {
      ResolvedIs(outs, k);
    }
    if EndsInvalid(outs) {
      assert outs[Resolved(outs)].Invalid?;
    }
  }

  lemma TextWarnsExact(p: Pools, value: string)
    ensures EndsInvalid(Outcomes(TokenReading(p), Tokens(value))) <==> TextWarns(p, value)
  {
    var tokens := Tokens(value);
    var outs := Outcomes(TokenReading(p), tokens);
    TokensExact(p, tokens);
    EndsInvalidExact(outs);
    assert forall k | 0 <= k < |tokens| :: outs[k] == TokenReading(p)(tokens[k]);
  }

  /** select_csv on any text: what it selects, and when it warns. */
  lemma TextExact(p: Pools, value: string)
    ensures forall x :: x in Selected(p, value) <==> TextNames(p, value, x)
    ensures EndsInvalid(Outcomes(TokenReading(p), Tokens(value))) <==> TextWarns(p, value)
  {
    forall x: nat
      ensures x in Selected(p, value) <==> TextNames(p, value, x)
    {
      TextSelects(p, value, x);
    }
    TextWarnsExact(p, value);
  }

  // ----- Round trips -----

  /** A text without commas is one token. */
  lemma OneToken(value: string)
    requires ',' !in value
    ensures Tokens(value) == [Trimmed(value)]
  {
    assert Join([value], ',') == value;
    PiecesJoin([value], ',');
  }

  lemma OneTokenNames(p: Pools, value: string, x: nat)
    requires ',' !in value
    ensures TextNames(p, value, x) <==> Names(p, Trimmed(value), x)
  {
    OneToken(value);
    assert Tokens(value)[0] == Trimmed(value);
  }

  /** A beginning of a UUID that no other entry shares selects its own device, without a warning. */
  lemma UuidSelects(p: Pools, value: string, k: nat)
    requires ',' !in value && IsUuidText(Trimmed(value)) && OnlyNamed(p.devices, p.uuids, Trimmed(value), k)
    ensures forall x :: x in Selected(p, value) <==> x == p.uuids[k]
    ensures !TextWarns(p, value)
  {
    var token := Trimmed(value);
    OneToken(value);
    TextExact(p, value);
    UuidOutcome(p, token);
    assert Names(p, token, p.uuids[k]);
    assert Tokens(value)[0] == token;
    forall x: nat
      ensures TextNames(p, value, x) <==> x == p.uuids[k]
    {
      assert Names(p, token, x) <==> x == p.uuids[k];
    }
  }

  lemma LegacyNameShape(parent: string, gpu: nat, compute: nat)
    requires ',' !in parent
    ensures var token := LegacyName(parent, gpu, compute);
      ',' !in token && Trimmed(token) == token && IsUuidText(token)
  {
    var token := LegacyName(parent, gpu, compute);
    var front := "MIG-" + parent + "/" + Decimal(gpu) + "/";
    assert token == front + Decimal(compute);
    var last := Decimal(compute)[|Decimal(compute)| - 1];
    ValueDigits(compute, 10);
    assert IsDigit(last, 10) && token[|token| - 1] == last && token[0] == 'M';
    TrimmedTight(token);
    forall c | c in Decimal(gpu) || c in Decimal(compute)
      ensures c != ','
    {
      assert IsDigit(c, 10);
    }
  }

  /** The old name of a MIG instance selects that instance where it is the only one with it. */
  lemma LegacyNameSelects(p: Pools, parent: string, gpu: nat, compute: nat, k: nat)
    requires ',' !in parent && k < |p.uuids|
    requires var d := p.devices[p.uuids[k]];
      d.parentUuid == Some(parent) && d.gpuInstance == Some(gpu) && d.computeInstance == Some(compute)
    requires var token := LegacyName(parent, gpu, compute);
      forall j | 0 <= j < |p.uuids| && j != k :: !NamedBy(p.devices[p.uuids[j]], token)
    ensures forall x :: x in Selected(p, LegacyName(parent, gpu, compute)) <==> x == p.uuids[k]
  {
    var token := LegacyName(parent, gpu, compute);
    LegacyNameShape(parent, gpu, compute);
    assert NamedBy(p.devices[p.uuids[k]], token);
    UuidSelects(p, token, k);
  }
}
