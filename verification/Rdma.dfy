/** Link rates of src/parser/rdma.cpp: "W Gb/sec" and "W.F Gb/sec" scaled exactly to bits per second. */
module Rdma {
  import opened Options
  import opened ParseUtils
  import opened Numbers
  import opened PciAddresses

  const UNIT: string := " Gb/sec"
  const SCALE: u64 := 1000000000

  /** The text before and after the first occurrence of p. */
  function CutText(s: string, p: string): Option<(string, string)>
    requires p != []
  {
    if p <= s then Some(([], s[|p|..]))
    else if s == [] then None
    else
      var rest := CutText(s[1..], p);
      if rest.None? then None else Some(([s[0]] + rest.value.0, rest.value.1))
  }

  lemma {:induction false} CutTextSplits(s: string, p: string)
    requires p != [] && CutText(s, p).Some?
    ensures s == CutText(s, p).value.0 + p + CutText(s, p).value.1
  {
    if !(p <= s) {
      CutTextSplits(s[1..], p);
      assert s == [s[0]] + s[1..];
    }
  }

  lemma {:induction false} CutTextFound(a: string, p: string, b: string)
    requires p != [] && p[0] !in a
    ensures CutText(a + p + b, p) == Some((a, b))
  {
    var s := a + p + b;
    if a == [] {
      assert s == p + b;
      assert s[|p|..] == b;
    } else {
      assert s[0] == a[0];
      assert s[1..] == a[1..] + p + b;
      CutTextFound(a[1..], p, b);
      assert [a[0]] + a[1..] == a;
    }
  }

  predicate FractionDigits(fraction: string) {
    1 <= |fraction| <= 9 && AllDigits(fraction, 10)
  }

  lemma AppendZero(s: string)
    requires AllDigits(s, 10)
    ensures AllDigits(s + "0", 10) && Value(s + "0", 10) == 10 * Value(s, 10)
  {
    assert (s + "0")[..|s|] == s;
  }

  /** A decimal fraction as a whole number of 10^-9 units: its digits continued with zeros to nine places. */
  function Nanos(fraction: string): (n: nat)
    requires AllDigits(fraction, 10) && |fraction| <= 9
    decreases 9 - |fraction|
  {
    if |fraction| == 9 then Value(fraction, 10) else AppendZero(fraction); Nanos(fraction + "0")
  }

  lemma TenTimes(v: nat, p: nat)
    ensures (10 * v) * p == v * (10 * p)
  {
  }

  /** The padded digits are the exact multiple F * 10^(9-|F|), below one whole unit. */
  lemma {:induction false} NanosExact(fraction: string)
    requires AllDigits(fraction, 10) && |fraction| <= 9
    ensures Nanos(fraction) == Value(fraction, 10) * Pow(10, 9 - |fraction|)
    ensures Nanos(fraction) < 1000000000
    decreases 9 - |fraction|
  {
    if |fraction| == 9 {
      ValueBound(fraction, 10);
      assert Pow(10, 9) == 1000000000;
    } else {
      AppendZero(fraction);
      NanosExact(fraction + "0");
      TenTimes(Value(fraction, 10), Pow(10, 8 - |fraction|));
    }
  }

  /** The rate in bits per second when it fits in 64 bits. */
  function ExactRate(whole: nat, nanos: nat): Option<nat> {
    var total := whole * 1000000000 + nanos;
    if total <= U64_MAX then Some(total) else None
  }

  function Rate(report: string): Option<nat> {
    var unit := CutText(report, UNIT);
    if unit.None? then None else
    var dot := CutFirst(unit.value.0, '.');
    var whole := ParseUint(if dot.None? then unit.value.0 else dot.value.0);
    if whole.None? then None
    else if dot.None? then ExactRate(whole.value, 0)
    else if FractionDigits(dot.value.1) then ExactRate(whole.value, Nanos(dot.value.1))
    else None
  }

  /** The padding loop in 64-bit arithmetic. */
  method PadToNine(digits: string, value: u64) returns (fraction: u64)
    requires AllDigits(digits, 10) && |digits| <= 9 && value as nat == Value(digits, 10)
    ensures fraction as nat == Nanos(digits) && fraction < 1000000000
  {
    fraction := value;
    var size := |digits|;
    ghost var padded := digits;
    while size < 9
      invariant |digits| <= size == |padded| <= 9 && AllDigits(padded, 10)
      invariant fraction as nat == Value(padded, 10) && Nanos(padded) == Nanos(digits)
    {
      ValueBound(padded, 10);
      PowMonotone(10, size, 9);
      assert Pow(10, 9) == 1000000000;
      AppendZero(padded);
      fraction := fraction * 10;
      padded := padded + "0";
      size := size + 1;
    }
    NanosExact(padded);
  }

  /** The fraction part of parse_rate: 1 to 9 digits, or a refusal. */
  method ScaleFraction(digits: string) returns (scaled: Option<u64>)
    ensures scaled.Some? <==> FractionDigits(digits)
    ensures scaled.Some? ==> scaled.value as nat == Nanos(digits) && scaled.value < 1000000000
  {
    var value := ParseUint(digits);
    if FractionDigits(digits) {
      DigitsTrimmed(digits, 10);
      ValueBound(digits, 10);
      PowMonotone(10, |digits|, 9);
      assert Pow(10, 9) == 1000000000;
    }
    if value.None? || |digits| > 9 || !AllDigits(digits, 10) {
      return None;
    }
    DigitsTrimmed(digits, 10);
    var fraction := PadToNine(digits, value.value as u64);
    return Some(fraction);
  }

  /** parse_rate in 64-bit arithmetic: the type of every variable rules out an intermediate overflow. */
  method ParseRate(report: string) returns (rate: Option<u64>)
    ensures rate.Some? <==> Rate(report).Some?
    ensures rate.Some? ==> rate.value as nat == Rate(report).value
  {
    var unit := CutText(report, UNIT);
    if unit.None? {
      return None;
    }
    var decimal := unit.value.0;
    var dot := CutFirst(decimal, '.');
    var parsed := ParseUint(if dot.None? then decimal else dot.value.0);
    if parsed.None? || parsed.value as u64 > 0xFFFF_FFFF_FFFF_FFFF / SCALE {
      return None;
    }
    var whole := parsed.value as u64;
    var fraction: u64 := 0;
    if dot.Some? {
      var scaled := ScaleFraction(dot.value.1);
      if scaled.None? {
        return None;
      }
      fraction := scaled.value;
    }
    if fraction > 0xFFFF_FFFF_FFFF_FFFF - whole * SCALE {
      return None;
    }
    return Some(whole * SCALE + fraction);
  }

  // ----- What the texts mean -----

  lemma NoCut(s: string, c: char)
    requires c !in s
    ensures CutFirst(s, c).None?
  {
  }

  lemma DigitsFree(s: string, c: char)
    requires AllDigits(s, 10) && !IsDigit(c, 10)
    ensures c !in s
  {
  }

  /** A whole report: the printed number alone decides, whatever follows the unit. */
  lemma WholeRate(whole: string, rest: string)
    requires whole != [] && AllDigits(whole, 10)
    ensures Rate(whole + UNIT + rest) ==
            if Value(whole, 10) * 1000000000 <= U64_MAX then Some(Value(whole, 10) * 1000000000) else None
  {
    DigitsFree(whole, ' ');
    DigitsFree(whole, '.');
    CutTextFound(whole, UNIT, rest);
    DigitsTrimmed(whole, 10);
    NoCut(whole, '.');
  }

  lemma FractionalParts(whole: string, fraction: string, rest: string)
    requires AllDigits(whole, 10) && AllDigits(fraction, 10)
    ensures CutText(whole + ['.'] + fraction + UNIT + rest, UNIT) == Some((whole + ['.'] + fraction, rest))
    ensures CutFirst(whole + ['.'] + fraction, '.') == Some((whole, fraction))
  {
    DigitsFree(whole, ' ');
    DigitsFree(whole, '.');
    DigitsFree(fraction, ' ');
    CutTextFound(whole + ['.'] + fraction, UNIT, rest);
    CutFirstExact(whole + ['.'] + fraction, '.', whole, fraction);
  }

  lemma FractionalNanos(whole: string, fraction: string, rest: string)
    requires whole != [] && AllDigits(whole, 10) && FractionDigits(fraction)
    ensures Rate(whole + ['.'] + fraction + UNIT + rest) == ExactRate(Value(whole, 10), Nanos(fraction))
  {
    FractionalParts(whole, fraction, rest);
    DigitsTrimmed(whole, 10);
  }

  /** A fractional report: W * 10^9 + F * 10^(9-|F|) when it fits in 64 bits, else nothing. */
  lemma FractionalRate(whole: string, fraction: string, rest: string)
    requires whole != [] && AllDigits(whole, 10) && FractionDigits(fraction)
    ensures var exact := Value(whole, 10) * 1000000000 + Value(fraction, 10) * Pow(10, 9 - |fraction|);
      Rate(whole + ['.'] + fraction + UNIT + rest) == if exact <= U64_MAX then Some(exact) else None
  {
    FractionalNanos(whole, fraction, rest);
    NanosExact(fraction);
  }

  /** Nothing else is accepted: a reported rate comes from such a text, blanks around W allowed. */
  lemma RateOnlyFromNumbers(report: string) returns (whole: string, fraction: Option<string>, rest: string)
    requires Rate(report).Some?
    ensures report == whole + (if fraction.None? then "" else "." + fraction.value) + UNIT + rest
    ensures Trimmed(whole) != [] && AllDigits(Trimmed(whole), 10)
    ensures fraction.Some? ==> FractionDigits(fraction.value)
    ensures Rate(report).value == Value(Trimmed(whole), 10) * 1000000000 +
                                  (if fraction.None? then 0 else Nanos(fraction.value))
  {
    CutTextSplits(report, UNIT);
    var unit := CutText(report, UNIT).value;
    var dot := CutFirst(unit.0, '.');
    rest := unit.1;
    if dot.None? {
      whole, fraction := unit.0, None;
      assert whole + "" == whole;
    } else {
      whole, fraction := dot.value.0, Some(dot.value.1);
      CutFirstExact(unit.0, '.', whole, dot.value.1);
      assert unit.0 == whole + ("." + dot.value.1);
    }
  }
}
