/** PCI addresses: the parser of src/parser/parse_utils.cpp and the name printer of src/resolver/inventory.cpp. */
module PciAddresses {
  import opened Options
  import opened ParseUtils
  import opened Numbers

  type u8 = x: nat | x < 0x100
  type u16 = x: nat | x < 0x1_0000

  datatype PciAddress = PciAddress(domain: u16, bus: u8, device: u8, func: u8)

  /** The text before and after the first c. */
  function CutFirst(s: string, c: char): Option<(string, string)> {
    var i := Find(s, c);
    if i == |s| then None else Some((s[..i], s[i + 1..]))
  }

  /** The text before and after the last c. */
  function CutLast(s: string, c: char): Option<(string, string)> {
    var i := FindLast(s, c);
    if i == |s| then None else Some((s[..i], s[i + 1..]))
  }

  function ParsePciAddress(s: string): Option<PciAddress> {
    var dot := CutFirst(Trimmed(s), '.');
    if dot.None? then None else
    var func := ParseHex(dot.value.1);
    if func.None? || func.value > 255 then None else
    var lastColon := CutLast(dot.value.0, ':');
    if lastColon.None? then None else
    var device := ParseHex(lastColon.value.1);
    if device.None? || device.value > 255 then None else
    var secondColon := CutLast(lastColon.value.0, ':');
    if secondColon.None? then None else
    var bus := ParseHex(secondColon.value.1);
    if bus.None? || bus.value > 255 then None else
    var domain := ParseHex(secondColon.value.0);
    if domain.None? || domain.value > 65535 then None else
    Some(PciAddress(domain.value, bus.value, device.value, func.value))
  }

  /** The sysfs name DDDD:BB:DD.F, in lower-case hexadecimal. */
  function PciName(a: PciAddress): string {
    ZeroPadded(Digits(a.domain, 16), 4) + ":" + ZeroPadded(Digits(a.bus, 16), 2) + ":" +
    ZeroPadded(Digits(a.device, 16), 2) + "." + Digits(a.func, 16)
  }

  lemma CutFirstExact(s: string, c: char, a: string, b: string)
    ensures CutFirst(s, c) == Some((a, b)) <==> s == a + [c] + b && c !in a
  {
    if s == a + [c] + b && c !in a {
      FindSplits(a, c, b);
      assert s[..|a|] == a && s[|a| + 1..] == b;
    }
  }

  lemma CutLastExact(s: string, c: char, a: string, b: string)
    ensures CutLast(s, c) == Some((a, b)) <==> s == a + [c] + b && c !in b
  {
    if s == a + [c] + b && c !in b {
      FindLastSplits(a, c, b);
      assert s[..|a|] == a && s[|a| + 1..] == b;
    }
  }

  /** The four fields of an address text, domain first. */
  datatype Fields = Fields(dom: string, bus: string, dev: string, fn: string)

  function Spelled(f: Fields): string {
    f.dom + [':'] + f.bus + [':'] + f.dev + ['.'] + f.fn
  }

  /** The grammar: four hexadecimal fields spelling a, the separators in their places only. */
  ghost predicate IsPciText(t: string, f: Fields, a: PciAddress) {
    && t == Spelled(f)
    && '.' !in f.dom + [':'] + f.bus + [':'] + f.dev && ':' !in f.bus && ':' !in f.dev
    && ParseHex(f.dom) == Some(a.domain) && ParseHex(f.bus) == Some(a.bus)
    && ParseHex(f.dev) == Some(a.device) && ParseHex(f.fn) == Some(a.func)
  }

  lemma PciTextCuts(t: string, f: Fields)
    ensures var bus := f.dom + [':'] + f.bus; var dev := bus + [':'] + f.dev;
      t == Spelled(f) && '.' !in dev && ':' !in f.bus && ':' !in f.dev <==>
      && CutFirst(t, '.') == Some((dev, f.fn))
      && CutLast(dev, ':') == Some((bus, f.dev))
      && CutLast(bus, ':') == Some((f.dom, f.bus))
  {
    var bus := f.dom + [':'] + f.bus;
    var dev := bus + [':'] + f.dev;
    CutFirstExact(t, '.', dev, f.fn);
    CutLastExact(dev, ':', bus, f.dev);
    CutLastExact(bus, ':', f.dom, f.bus);
  }

  lemma PciTextFound(s: string, a: PciAddress) returns (f: Fields)
    requires ParsePciAddress(s) == Some(a)
    ensures IsPciText(Trimmed(s), f, a)
  {
    var dot := CutFirst(Trimmed(s), '.').value;
    var lastColon := CutLast(dot.0, ':').value;
    var secondColon := CutLast(lastColon.0, ':').value;
    f := Fields(secondColon.0, secondColon.1, lastColon.1, dot.1);
    CutFirstExact(Trimmed(s), '.', dot.0, dot.1);
    CutLastExact(dot.0, ':', lastColon.0, lastColon.1);
    CutLastExact(lastColon.0, ':', secondColon.0, secondColon.1);
  }

  /** The accepted texts are exactly the grammar's, up to blank ends, with the address the fields spell. */
  lemma PciAddressGrammar(s: string, a: PciAddress)
    ensures ParsePciAddress(s) == Some(a) <==> exists f :: IsPciText(Trimmed(s), f, a)
  {
    if ParsePciAddress(s) == Some(a) {
      var f := PciTextFound(s, a);
    }
    if f :| IsPciText(Trimmed(s), f, a) {
      PciTextCuts(Trimmed(s), f);
    }
  }

  lemma PaddedField(n: nat, width: nat)
    requires n <= U64_MAX
    ensures var t := ZeroPadded(Digits(n, 16), width);
      t != [] && '.' !in t && ':' !in t && ParseHex(t) == Some(n) && forall i | 0 <= i < |t| :: !IsSpace(t[i])
  {
    var t := ZeroPadded(Digits(n, 16), width);
    ValueDigits(n, 16);
    ValueZeroPadded(Digits(n, 16), 16, width);
    ParseHexPadded(n, width);
    assert forall i | 0 <= i < |t| :: IsDigit(t[i], 16);
  }

  /** Every address survives printing and parsing. */
  lemma PciNameRoundTrip(a: PciAddress)
    ensures ParsePciAddress(PciName(a)) == Some(a)
  {
    var f := Fields(ZeroPadded(Digits(a.domain, 16), 4), ZeroPadded(Digits(a.bus, 16), 2),
                    ZeroPadded(Digits(a.device, 16), 2), Digits(a.func, 16));
    PaddedField(a.domain, 4);
    PaddedField(a.bus, 2);
    PaddedField(a.device, 2);
    PaddedField(a.func, 0);
    var t := PciName(a);
    assert t == Spelled(f);
    assert t[0] == f.dom[0] && t[|t| - 1] == f.fn[|f.fn| - 1];
    TrimmedTight(t);
    PciAddressGrammar(t, a);
    assert IsPciText(t, f, a);
  }

  lemma PciNameInjective(a: PciAddress, b: PciAddress)
    ensures PciName(a) == PciName(b) <==> a == b
  {
    PciNameRoundTrip(a);
    PciNameRoundTrip(b);
  }

  lemma FieldWidth(n: nat, width: nat)
    requires width >= 1 ==> n < Pow(16, width)
    ensures width >= 1 ==> |ZeroPadded(Digits(n, 16), width)| == width
  {
    ValueDigits(n, 16);
    ValueZeroPadded(Digits(n, 16), 16, width);
    if width >= 1 {
      DigitsLength(n, 16, width);
    }
  }

  /** The printed name has the fixed sysfs layout DDDD:BB:DD. followed by one or two digits. */
  lemma PciNameLayout(a: PciAddress)
    ensures var t := PciName(a);
      && |t| == (if a.func < 16 then 12 else 13)
      && t[4] == ':' && t[7] == ':' && t[10] == '.'
  {
    FieldWidth(a.domain, 4);
    FieldWidth(a.bus, 2);
    FieldWidth(a.device, 2);
    FieldWidth(a.func, 0);
    var dom, bus, dev := ZeroPadded(Digits(a.domain, 16), 4), ZeroPadded(Digits(a.bus, 16), 2),
                         ZeroPadded(Digits(a.device, 16), 2);
    assert |dom| == 4 && |bus| == 2 && |dev| == 2;
    if a.func >= 16 {
      assert |Digits(a.func / 16, 16)| == 1;
    }
  }
}
