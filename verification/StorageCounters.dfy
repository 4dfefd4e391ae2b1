/**
  Exact unsigned counters up to 128 bits, kept as decimal text: storage_counter and health_integer of
  src/serialization/storage_health_values.hpp, and put and counter of src/serialization/storage_health.cpp.
 */
module StorageCounters {
  import opened Options
  import opened ParseUtils
  import opened Numbers

  const U128_MAX: nat := 0xFFFF_FFFF_FFFF_FFFF_FFFF_FFFF_FFFF_FFFF
  const MAXIMUM: string := "340282366920938463463374607431768211455"

  /** A decoded JSON value; the library keeps integers in a signed or an unsigned 64-bit cell. */
  datatype Json =
    | Text(text: string)
    | Unsigned(u: nat)
    | Signed(i: int)
    | Other

  ghost predicate ValidJson(j: Json) {
    && (j.Unsigned? ==> j.u <= U64_MAX)
    && (j.Signed? ==> -(I64_MAX + 1) <= j.i <= I64_MAX)
  }

  datatype StorageCounter = StorageCounter(decimal: string)

  /** The integer a JSON cell holds when it is not negative and at most the target's maximum. */
  function HealthInteger(j: Json, maximum: nat): Option<nat> {
    match j
    case Unsigned(u) => if u > maximum then None else Some(u)
    case Signed(i) => if i < 0 || i > maximum then None else Some(i)
    case _ => None
  }

  /** health_integer for any target: the integer the cell holds, unless negative or above the maximum. */
  lemma HealthIntegerExact(j: Json, maximum: nat, n: nat)
    ensures HealthInteger(j, maximum) == Some(n) <==> n <= maximum && (j == Unsigned(n) || j == Signed(n))
  {
  }

  function StripZeros(s: string): string {
    if s != [] && s[0] == '0' then StripZeros(s[1..]) else s
  }

  function CounterText(value: string): Option<StorageCounter> {
    if value == [] || !AllDigits(value, 10) then None else
    var stripped := StripZeros(value);
    var canonical := if stripped == [] then "0" else stripped;
    if |canonical| > |MAXIMUM| || (|canonical| == |MAXIMUM| && LexLess(MAXIMUM, canonical)) then None
    else Some(StorageCounter(canonical))
  }

  function ReadCounter(j: Json): Option<StorageCounter> {
    match j
    case Text(text) => CounterText(text)
    case _ =>
      var number := HealthInteger(j, U64_MAX);
      if number.Some? then CounterText(Decimal(number.value)) else None
  }

  // ----- The 128-bit bound -----

  lemma FirstThird()
    ensures AllDigits("3402823669209", 10) && Value("3402823669209", 10) == 3402823669209
  {
    assert Digits(3402823669209, 10) == "3402823669209";
    ValueDigits(3402823669209, 10);
  }

  lemma SecondThird()
    ensures AllDigits("3846346337460", 10) && Value("3846346337460", 10) == 3846346337460
  {
    assert Digits(3846346337460, 10) == "3846346337460";
    ValueDigits(3846346337460, 10);
  }

  lemma LastThird()
    ensures AllDigits("7431768211455", 10) && Value("7431768211455", 10) == 7431768211455
  {
    assert Digits(7431768211455, 10) == "7431768211455";
    ValueDigits(7431768211455, 10);
  }

  lemma ThreeThirds(a: string, b: string, c: string)
    requires AllDigits(a, 10) && AllDigits(b, 10) && AllDigits(c, 10) && |b| == |c| == 13
    ensures AllDigits(a + b + c, 10)
    ensures Value(a + b + c, 10) ==
            (Value(a, 10) * 10000000000000 + Value(b, 10)) * 10000000000000 + Value(c, 10)
  {
    assert Pow(10, 13) == 10000000000000;
    ValueConcat(a, b, 10);
    ValueConcat(a + b, c, 10);
  }

  /** The text the source compares with spells 2^128 - 1. */
  lemma MaximumValue()
    ensures AllDigits(MAXIMUM, 10) && Canonical(MAXIMUM) && Value(MAXIMUM, 10) == U128_MAX
  {
    FirstThird();
    SecondThird();
    LastThird();
    ThreeThirds("3402823669209", "3846346337460", "7431768211455");
    assert MAXIMUM == "3402823669209" + "3846346337460" + "7431768211455";
  }

  lemma {:induction false} StripZerosValue(s: string)
    requires AllDigits(s, 10)
    ensures AllDigits(StripZeros(s), 10) && Value(StripZeros(s), 10) == Value(s, 10)
    ensures StripZeros(s) == [] || StripZeros(s)[0] != '0'
  {
    if s != [] && s[0] == '0' {
      StripZerosValue(s[1..]);
      assert s == s[..1] + s[1..];
      ValueConcat(s[..1], s[1..], 10);
      assert Value(s[..1], 10) == 0 by { assert s[..1][..0] == []; }
    }
  }

  /** A text is a counter exactly when it is a number of at most 128 bits; its form is the canonical one. */
  lemma CounterTextExact(value: string)
    ensures CounterText(value) ==
            if value != [] && AllDigits(value, 10) && Value(value, 10) <= U128_MAX
            then Some(StorageCounter(Decimal(Value(value, 10)))) else None
  {
    if value != [] && AllDigits(value, 10) {
      var stripped := StripZeros(value);
      StripZerosValue(value);
      var canonical := if stripped == [] then "0" else stripped;
      assert Value("0", 10) == 0 by { assert "0"[..0] == []; }
      assert Canonical(canonical) && Value(canonical, 10) == Value(value, 10);
      MaximumValue();
      CanonicalOrder(MAXIMUM, canonical);
      CanonicalIsDecimal(canonical);
    }
  }

  /** The number a JSON value denotes as a counter, if any. */
  function Meaning(j: Json): Option<nat> {
    match j
    case Text(text) => if text != [] && AllDigits(text, 10) then Some(Value(text, 10)) else None
    case Unsigned(u) => Some(u)
    case Signed(i) => if i >= 0 then Some(i) else None
    case Other => None
  }

  /** storage_counter, for every JSON value: accepted exactly up to 2^128-1, value kept, canonical form. */
  lemma ReadCounterExact(j: Json)
    requires ValidJson(j)
    ensures ReadCounter(j) ==
            if Meaning(j).Some? && Meaning(j).value <= U128_MAX
            then Some(StorageCounter(Decimal(Meaning(j).value))) else None
  {
    match j
    case Text(text) => CounterTextExact(text);
    case Unsigned(u) =>
      ValueDigits(u, 10);
      CounterTextExact(Decimal(u));
    case Signed(i) =>
      if i >= 0 {
        ValueDigits(i, 10);
        CounterTextExact(Decimal(i));
      }
    case Other =>
  }

  /** Reading again what was read changes nothing, and equal counters are equal numbers. */
  lemma ReadCounterIdempotent(j: Json, k: Json)
    requires ValidJson(j) && ValidJson(k) && ReadCounter(j).Some? && ReadCounter(k).Some?
    ensures ReadCounter(Text(ReadCounter(j).value.decimal)) == ReadCounter(j)
    ensures ReadCounter(j) == ReadCounter(k) <==> Meaning(j) == Meaning(k)
  {
    ReadCounterExact(j);
    ReadCounterExact(k);
    ValueDigits(Meaning(j).value, 10);
    ValueDigits(Meaning(k).value, 10);
    ReadCounterExact(Text(ReadCounter(j).value.decimal));
  }

  // ----- Serialization -----

  type JsonObject = map<string, Json>

  datatype Result<+T> = Ok(value: T) | SerializationError | DeserializationError

  /** put for a counter: an absent counter writes nothing, an invalid one is refused. */
  function Put(j: JsonObject, key: string, value: Option<StorageCounter>): Result<JsonObject> {
    if value.None? then Ok(j) else
    var validated := CounterText(value.value.decimal);
    if validated.None? then SerializationError else Ok(j[key := Text(validated.value.decimal)])
  }

  /** counter: an absent key keeps the destination, an invalid value is refused. */
  function Get(j: JsonObject, key: string, destination: Option<StorageCounter>): Result<Option<StorageCounter>> {
    if key !in j then Ok(destination) else
    var read := ReadCounter(j[key]);
    if read.None? then DeserializationError else Ok(read)
  }

  /**
    Writing a counter and reading it back: refused exactly when it is not a number of at most 128
    bits, otherwise the canonical form of the same number returns and every other key is untouched.
   */
  lemma PutThenGet(j: JsonObject, key: string, c: StorageCounter, destination: Option<StorageCounter>)
    ensures Put(j, key, Some(c)).Ok? <==>
            c.decimal != [] && AllDigits(c.decimal, 10) && Value(c.decimal, 10) <= U128_MAX
    ensures Put(j, key, Some(c)).Ok? ==>
      var written := Put(j, key, Some(c)).value;
      && Get(written, key, destination) == Ok(Some(StorageCounter(Decimal(Value(c.decimal, 10)))))
      && written - {key} == j - {key}
  {
    CounterTextExact(c.decimal);
    if Put(j, key, Some(c)).Ok? {
      ValueDigits(Value(c.decimal, 10), 10);
      CounterTextExact(Decimal(Value(c.decimal, 10)));
    }
  }

  /** An absent counter leaves no key, so reading keeps the default. */
  lemma PutNoneThenGet(j: JsonObject, key: string)
    requires key !in j
    ensures Put(j, key, None).Ok? && Get(Put(j, key, None).value, key, None) == Ok(None)
  {
  }
}
