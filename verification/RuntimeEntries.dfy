/**
  Which inventory device a runtime entry stands for, on the fields: uuid_hex and the matching loop of
  parse_accelerator_runtime_visibility, src/parser/accelerator.cpp.
 */
module RuntimeEntries {
  import opened Options
  import opened ParseUtils
  import opened Numbers
  import opened PciAddresses
  import opened AcceleratorModel
  import opened CsvSelection
  import opened SyclSelection
  import opened SyclGrammar
  import opened SelectorTokens
  import opened AcceleratorRuntime

  function Concatenated(parts: seq<string>): string {
    if parts == [] then [] else parts[0] + Concatenated(parts[1..])
  }

  lemma {:induction false} DashesConcat(a: string, b: string)
    ensures WithoutDashes(a + b) == WithoutDashes(a) + WithoutDashes(b)
  {
    if b == [] {
      assert a + b == a;
    } else {
      DashesConcat(a, b[..|b| - 1]);
      assert (a + b)[..|a + b| - 1] == a + b[..|b| - 1];
    }
  }

  lemma {:induction false} NoDashes(a: string)
    requires '-' !in a
    ensures WithoutDashes(a) == a
  {
    if a != [] {
      NoDashes(a[..|a| - 1]);
      assert a == a[..|a| - 1] + [a[|a| - 1]];
    }
  }

  lemma OneDash(rest: string)
    ensures WithoutDashes(['-'] + rest) == WithoutDashes(rest)
  {
    var dash := ['-'];
    DashesConcat(dash, rest);
    assert dash[..0] == [] && WithoutDashes(dash) == [];
  }

  lemma DashesStep(first: string, rest: string, tail: string)
    requires '-' !in first && tail == ['-'] + rest
    ensures WithoutDashes(first + tail) == first + WithoutDashes(rest)
  {
    NoDashes(first);
    OneDash(rest);
    DashesConcat(first, tail);
  }

  lemma {:induction false} DashesJoined(parts: seq<string>)
    requires parts != [] && forall p | p in parts :: '-' !in p
    ensures WithoutDashes(Join(parts, '-')) == Concatenated(parts)
  {
    if |parts| == 1 {
      NoDashes(parts[0]);
      assert parts[1..] == [] && parts[0] + [] == parts[0];
    } else {
      DashesJoined(parts[1..]);
      var tail := ['-'] + Join(parts[1..], '-');
      DashesStep(parts[0], Join(parts[1..], '-'), tail);
      assert Join(parts, '-') == parts[0] + tail;
    }
  }

  lemma PrefixFree(body: string, prefix: string)
    requires prefix == "GPU-" || prefix == "MIG-"
    ensures UuidHex(prefix + body) == if '/' in body then [] else
              var hex := Lowered(WithoutDashes(body)); if |hex| == 32 then hex else []
  {
    assert (prefix + body)[4..] == body;
    assert IsUuid(prefix + body);
  }

  lemma NoPrefix(value: string, body: string)
    requires value == body && !IsUuidText(body)
    ensures UuidHex(value) == if '/' in body then [] else
              var hex := Lowered(WithoutDashes(body)); if |hex| == 32 then hex else []
  {
  }

  /**
    A UUID with either prefix or none, in parts between dashes, stands for the letters of its parts in lower
    case where these are 32 and hold no slash, and for nothing otherwise.
   */
  lemma UuidHexExact(prefix: string, parts: seq<string>, hex: string)
    requires parts != [] && forall p | p in parts :: '-' !in p
    requires prefix == "GPU-" || prefix == "MIG-" || (prefix == "" && !IsUuidText(Join(parts, '-')))
    requires LowerOf(Concatenated(parts), hex)
    ensures var value := prefix + Join(parts, '-');
      UuidHex(value) == if '/' !in Join(parts, '-') && |hex| == 32 then hex else []
  {
    var body := Join(parts, '-');
    DashesJoined(parts);
    LoweredExact(Concatenated(parts));
    if prefix == "" {
      NoPrefix(prefix + body, body);
    } else {
      PrefixFree(body, prefix);
    }
  }

  /** An NVIDIA entry stands for the devices with its UUID digits, an AMD or Intel one for those at its address. */
  lemma EntryExact(device: Device, vendor: Vendor, entry: Entry)
    ensures MatchesEntry(device, vendor, entry) <==>
            && device.vendor == vendor && entry.Entry?
            && if vendor == Nvidia then exists uuid :: device.uuid == Some(uuid) && UuidHex(uuid) == entry.uuidHex
               else exists address :: device.pci == Some(address) && entry.pci == Some(address)
  {
    if MatchesEntry(device, vendor, entry) {
      if vendor == Nvidia {
        assert device.uuid == Some(device.uuid.value);
      } else {
        assert device.pci == Some(device.pci.value);
      }
    }
  }

  /** An entry can be used exactly when it is an object with an address, NVIDIA entries included. */
  lemma UsableExact(entry: Entry)
    ensures Usable(entry) <==> exists address, hex :: entry == Entry.Entry(Some(address), hex)
  {
    if Usable(entry) {
      assert entry == Entry.Entry(Some(entry.pci.value), entry.uuidHex);
    }
  }

  lemma FiveParts(a: string, b: string, c: string, d: string, e: string)
    ensures Concatenated([a, b, c, d, e]) == a + b + c + d + e
  {
    assert [a, b, c, d, e][1..] == [b, c, d, e] && [b, c, d, e][1..] == [c, d, e];
    assert [c, d, e][1..] == [d, e] && [d, e][1..] == [e] && [e][1..] == [];
    assert Concatenated([e]) == e;
    assert Concatenated([d, e]) == d + e;
    assert Concatenated([c, d, e]) == c + (d + e);
    assert Concatenated([b, c, d, e]) == b + (c + (d + e));
  }

  lemma {:induction false} NoSlash(parts: seq<string>)
    requires parts != [] && forall s | s in parts :: '/' !in s
    ensures '/' !in Join(parts, '-')
  {
    if |parts| > 1 {
      NoSlash(parts[1..]);
    }
  }

  ghost predicate LowerHex(s: string) {
    forall i | 0 <= i < |s| :: '0' <= s[i] <= '9' || 'a' <= s[i] <= 'f'
  }

  lemma LowerDigits(s: string)
    requires LowerHex(s)
    ensures LowerOf(s, s) && '-' !in s && '/' !in s
  {
  }

  lemma LowerJoined(a: string, b: string)
    requires LowerHex(a) && LowerHex(b)
    ensures LowerHex(a + b)
  {
  }

  /** The printed form of 32 lower-case digits with prefix and dashes is read back as the digits. */
  lemma PrintedUuidExample(a: string, b: string, c: string, d: string, e: string)
    requires |a| == 8 && |b| == 4 && |c| == 4 && |d| == 4 && |e| == 12
    requires LowerHex(a) && LowerHex(b) && LowerHex(c) && LowerHex(d) && LowerHex(e)
    ensures UuidHex("GPU-" + Join([a, b, c, d, e], '-')) == a + b + c + d + e
  {
    var parts, hex := [a, b, c, d, e], a + b + c + d + e;
    FiveParts(a, b, c, d, e);
    forall s | s in parts
      ensures '-' !in s && '/' !in s
    {
      LowerDigits(s);
    }
    NoSlash(parts);
    LowerJoined(a, b);
    LowerJoined(a + b, c);
    LowerJoined(a + b + c, d);
    LowerJoined(a + b + c + d, e);
    LowerDigits(hex);
    UuidHexExact("GPU-", parts, hex);
  }
}
