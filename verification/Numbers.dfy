/**
  Digit strings and 64-bit numbers: parse_uint and parse_hex of src/parser/parse_utils.cpp with
  std::from_chars underneath, and the printers (std::to_string, zero-padded std::hex) they invert.
 */
module Numbers {
  import opened Options
  import opened ParseUtils

  /** std::uint64_t where the arithmetic itself must be shown not to overflow. */
  newtype u64 = x: int | 0 <= x < 0x1_0000_0000_0000_0000

  /** The value of a decimal or hexadecimal digit, -1 for any other character. */
  function DigitValue(c: char): (d: int)
    ensures -1 <= d < 16
  {
    if '0' <= c <= '9' then c as int - '0' as int
    else if 'a' <= c <= 'f' then c as int - 'a' as int + 10
    else if 'A' <= c <= 'F' then c as int - 'A' as int + 10
    else -1
  }

  predicate IsDigit(c: char, base: nat) {
    0 <= DigitValue(c) < base
  }

  predicate AllDigits(s: string, base: nat) {
    forall i | 0 <= i < |s| :: IsDigit(s[i], base)
  }

  const LOWER_DIGITS: string := "0123456789abcdef"
  const UPPER_DIGITS: string := "0123456789ABCDEF"

  /** The digits of both cases stand for their place, and no other character is one. */
  lemma DigitExact(c: char)
    ensures forall d | 0 <= d < 16 :: DigitValue(LOWER_DIGITS[d]) == d && DigitValue(UPPER_DIGITS[d]) == d
    ensures c !in LOWER_DIGITS && c !in UPPER_DIGITS ==> DigitValue(c) == -1
  {
    if '0' <= c <= '9' {
      assert LOWER_DIGITS[c as int - '0' as int] == c;
    } else if 'a' <= c <= 'f' {
      assert LOWER_DIGITS[c as int - 'a' as int + 10] == c;
    } else if 'A' <= c <= 'F' {
      assert UPPER_DIGITS[c as int - 'A' as int + 10] == c;
    }
  }

  predicate ValidBase(base: nat) {
    base == 10 || base == 16
  }

  /** The number a digit string denotes. */
  function Value(s: string, base: nat): nat
    requires AllDigits(s, base)
  {
    if s == [] then 0
    else Value(s[..|s| - 1], base) * base + DigitValue(s[|s| - 1])
  }

  function Pow(base: nat, e: nat): nat {
    if e == 0 then 1 else base * Pow(base, e - 1)
  }

  lemma {:induction false} PowMonotone(base: nat, e: nat, f: nat)
    requires ValidBase(base) && e <= f
    ensures Pow(base, e) <= Pow(base, f)
  {
    if e < f {
      PowMonotone(base, e, f - 1);
    }
  }

  lemma {:induction false} ValueBound(s: string, base: nat)
    requires ValidBase(base) && AllDigits(s, base)
    ensures Value(s, base) < Pow(base, |s|)
  {
    if s != [] {
      ValueBound(s[..|s| - 1], base);
    }
  }

  lemma Distribute(x: nat, p: nat, y: nat, base: nat)
    ensures (x * p + y) * base == x * (base * p) + y * base
  {
  }

  /** Reading left to right: the value of a concatenation. */
  lemma {:induction false} ValueConcat(a: string, b: string, base: nat)
    requires ValidBase(base) && AllDigits(a, base) && AllDigits(b, base)
    ensures AllDigits(a + b, base)
    ensures Value(a + b, base) == Value(a, base) * Pow(base, |b|) + Value(b, base)
  {
    if b == [] {
      assert a + b == a;
    } else {
      var n := |b| - 1;
      ValueConcat(a, b[..n], base);
      assert (a + b)[..|a + b| - 1] == a + b[..n];
      Distribute(Value(a, base), Pow(base, n), Value(b[..n], base), base);
    }
  }

  // ----- Printing -----

  function DigitChar(d: nat): (c: char)
    requires d < 16
    ensures DigitValue(c) == d && !IsSpace(c) && ('0' <= c <= '9' || 'a' <= c <= 'f')
  {
    if d < 10 then (d + '0' as int) as char else (d - 10 + 'a' as int) as char
  }

  /** The shortest digit string of n: std::to_string, or std::hex with lower-case letters. */
  function Digits(n: nat, base: nat): (s: string)
    requires ValidBase(base)
    ensures s != [] && AllDigits(s, base)
  {
    if n < base then [DigitChar(n)] else Digits(n / base, base) + [DigitChar(n % base)]
  }

  function Decimal(n: nat): string {
    Digits(n, 10)
  }

  /** std::setw(width) with std::setfill('0'). */
  function ZeroPadded(s: string, width: nat): string
    decreases width - |s|
  {
    if |s| < width then ZeroPadded("0" + s, width) else s
  }

  /** A digit string without superfluous leading zeros. */
  predicate Canonical(s: string) {
    s != [] && (s[0] == '0' ==> |s| == 1)
  }

  lemma {:induction false} ValueDigits(n: nat, base: nat)
    requires ValidBase(base)
    ensures Value(Digits(n, base), base) == n
    ensures Canonical(Digits(n, base))
    ensures forall i | 0 <= i < |Digits(n, base)| :: !IsSpace(Digits(n, base)[i])
    decreases n
  {
    var s := Digits(n, base);
    if n < base {
      assert s[..0] == [];
    } else {
      ValueDigits(n / base, base);
      assert s[..|s| - 1] == Digits(n / base, base);
    }
  }

  lemma {:induction false} DigitsLength(n: nat, base: nat, width: nat)
    requires ValidBase(base) && width >= 1 && n < Pow(base, width)
    ensures |Digits(n, base)| <= width
    decreases n
  {
    if n >= base {
      assert n / base < Pow(base, width - 1);
      DigitsLength(n / base, base, width - 1);
    }
  }

  lemma {:induction false} ValueZeroPadded(s: string, base: nat, width: nat)
    requires ValidBase(base) && AllDigits(s, base) && s != []
    requires forall i | 0 <= i < |s| :: !IsSpace(s[i])
    ensures var t := ZeroPadded(s, width);
      && AllDigits(t, base) && Value(t, base) == Value(s, base)
      && |t| == (if |s| < width then width else |s|)
      && forall i | 0 <= i < |t| :: !IsSpace(t[i])
    decreases width - |s|
  {
    if |s| < width {
      assert Value("0", base) == 0 by { assert "0"[..0] == []; }
      ValueConcat("0", s, base);
      ValueZeroPadded("0" + s, base, width);
    }
  }

  // ----- Parsing -----

  /**
    std::from_chars on an unsigned 64-bit target, required to consume the whole text: no sign, no
    prefix, at least one digit, and no overflow.
   */
  function FromChars(s: string, base: nat): (r: Option<nat>)
    requires ValidBase(base)
    ensures r.Some? ==> r.value <= U64_MAX
  {
    if s != [] && AllDigits(s, base) && Value(s, base) <= U64_MAX then Some(Value(s, base)) else None
  }

  function ParseUint(s: string): Option<nat> {
    FromChars(Trimmed(s), 10)
  }

  function ParseHex(s: string): Option<nat> {
    FromChars(Trimmed(s), 16)
  }

  /** The text, blanks around it aside, is a digit string for n, and n fits in 64 bits. */
  ghost predicate Spells(text: string, n: nat) {
    Trimmed(text) != [] && AllDigits(Trimmed(text), 10) && Value(Trimmed(text), 10) == n && n <= U64_MAX
  }

  /** parse_uint reads exactly the texts that spell a number, sign, prefix and overflow refused. */
  lemma ParseUintExact(text: string, n: nat)
    ensures ParseUint(text) == Some(n) <==> Spells(text, n)
    ensures ParseUint(text) == None <==> forall m :: !Spells(text, m)
  {
    if ParseUint(text) == None && AllDigits(Trimmed(text), 10) {
      assert forall m :: !Spells(text, m);
    } else if ParseUint(text).Some? {
      assert Spells(text, ParseUint(text).value);
    }
  }

  lemma NoSpaceTrimmed(s: string)
    requires forall i | 0 <= i < |s| :: !IsSpace(s[i])
    ensures Trimmed(s) == s
  {
    TrimmedTight(s);
  }

  lemma {:induction false} DigitsTrimmed(s: string, base: nat)
    requires ValidBase(base) && AllDigits(s, base)
    ensures Trimmed(s) == s
  {
    forall i | 0 <= i < |s| ensures !IsSpace(s[i]) {
      assert IsDigit(s[i], base);
    }
    NoSpaceTrimmed(s);
  }

  /** Every 64-bit number survives printing in decimal and parsing. */
  lemma ParseUintDecimal(n: nat)
    ensures ParseUint(Decimal(n)) == if n <= U64_MAX then Some(n) else None
  {
    ValueDigits(n, 10);
    DigitsTrimmed(Decimal(n), 10);
  }

  /** Every 64-bit number survives printing in hexadecimal, padded to any width, and parsing. */
  lemma ParseHexPadded(n: nat, width: nat)
    ensures ParseHex(ZeroPadded(Digits(n, 16), width)) == if n <= U64_MAX then Some(n) else None
  {
    ValueDigits(n, 16);
    ValueZeroPadded(Digits(n, 16), 16, width);
    NoSpaceTrimmed(ZeroPadded(Digits(n, 16), width));
  }

  /** Decimal printing is injective. */
  lemma DecimalInjective(m: nat, n: nat)
    requires Decimal(m) == Decimal(n)
    ensures m == n
  {
    ValueDigits(m, 10);
    ValueDigits(n, 10);
  }

  // ----- Order of canonical decimals -----

  /** std::string's operator< on digit characters: first difference decides, then length. */
  predicate LexLess(a: string, b: string) {
    if b == [] then false
    else if a == [] then true
    else a[0] < b[0] || (a[0] == b[0] && LexLess(a[1..], b[1..]))
  }

  lemma MulMonotone(x: nat, y: nat, p: nat)
    requires x <= y
    ensures x * p <= y * p
  {
  }

  lemma LeadingDigit(x: nat, y: nat, u: nat, v: nat, p: nat)
    requires u < p && v < p
    ensures x < y ==> x * p + u < y * p + v
    ensures x > y ==> x * p + u > y * p + v
  {
    if x < y {
      MulMonotone(x + 1, y, p);
      assert (x + 1) * p == x * p + p;
    } else if x > y {
      MulMonotone(y + 1, x, p);
      assert (y + 1) * p == y * p + p;
    }
  }

  lemma FirstDigitValue(s: string)
    requires s != [] && AllDigits(s, 10)
    ensures AllDigits(s[1..], 10) && Value(s[1..], 10) < Pow(10, |s| - 1)
    ensures Value(s, 10) == DigitValue(s[0]) * Pow(10, |s| - 1) + Value(s[1..], 10)
  {
    var x, u := s[..1], s[1..];
    assert s == x + u && x[..0] == [];
    assert Value(x, 10) == DigitValue(s[0]);
    ValueConcat(x, u, 10);
    ValueBound(u, 10);
  }

  lemma {:induction false} LexLessValue(a: string, b: string)
    requires |a| == |b| && AllDigits(a, 10) && AllDigits(b, 10)
    ensures LexLess(a, b) <==> Value(a, 10) < Value(b, 10)
  {
    if a != [] {
      FirstDigitValue(a);
      FirstDigitValue(b);
      LexLessValue(a[1..], b[1..]);
      assert IsDigit(a[0], 10) && IsDigit(b[0], 10);
      LeadingDigit(DigitValue(a[0]), DigitValue(b[0]), Value(a[1..], 10), Value(b[1..], 10), Pow(10, |a| - 1));
    }
  }

  lemma LeadingValue(s: string)
    requires Canonical(s) && AllDigits(s, 10) && |s| > 1
    ensures Value(s[..1], 10) >= 1
  {
    assert s[..1][..0] == [];
    assert IsDigit(s[0], 10);
  }

  /** A canonical decimal of several digits is at least 10^(length-1). */
  lemma CanonicalLowerBound(s: string)
    requires Canonical(s) && AllDigits(s, 10) && |s| > 1
    ensures Value(s, 10) >= Pow(10, |s| - 1)
  {
    assert s == s[..1] + s[1..];
    ValueConcat(s[..1], s[1..], 10);
    LeadingValue(s);
    MulMonotone(1, Value(s[..1], 10), Pow(10, |s| - 1));
  }

  /** Length-then-lexicographic order is numeric order on canonical decimals. */
  lemma CanonicalOrder(a: string, b: string)
    requires Canonical(a) && AllDigits(a, 10) && Canonical(b) && AllDigits(b, 10)
    ensures Value(a, 10) < Value(b, 10) <==> |a| < |b| || (|a| == |b| && LexLess(a, b))
  {
    if |a| == |b| {
      LexLessValue(a, b);
    } else if |a| < |b| {
      CanonicalLowerBound(b);
      ValueBound(a, 10);
      PowMonotone(10, |a|, |b| - 1);
    } else {
      CanonicalLowerBound(a);
      ValueBound(b, 10);
      PowMonotone(10, |b|, |a| - 1);
    }
  }

  lemma {:induction false} LexLessTotal(a: string, b: string)
    requires a != b
    ensures LexLess(a, b) || LexLess(b, a)
  {
    if a != [] && b != [] {
      if a[0] == b[0] {
        assert a == [a[0]] + a[1..] && b == [b[0]] + b[1..];
        LexLessTotal(a[1..], b[1..]);
      }
    }
  }

  /** The canonical decimal of a value is unique: it is the printed one. */
  lemma CanonicalIsDecimal(s: string)
    requires Canonical(s) && AllDigits(s, 10)
    ensures s == Decimal(Value(s, 10))
  {
    var t := Decimal(Value(s, 10));
    ValueDigits(Value(s, 10), 10);
    CanonicalOrder(s, t);
    CanonicalOrder(t, s);
    if s != t {
      LexLessTotal(s, t);
    }
  }
}
