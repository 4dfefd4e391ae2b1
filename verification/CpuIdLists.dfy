/** Kernel CPU lists such as "0-3,8": parse_cpu_id_list of src/parser/cpu_details.cpp. */
module CpuIdLists {
  import opened Options
  import opened ParseUtils
  import opened Numbers
  import opened SortedSets

  const MAX_CPU_COUNT: nat := 65536

  /** The text with every blank turned into a separator. */
  function Normalized(s: string): string {
    seq(|s|, i requires 0 <= i < |s| => if IsSpace(s[i]) then ',' else s[i])
  }

  datatype Range = Range(first: nat, last: nat)

  function Ids(r: Range): set<nat> {
    Interval(r.first, r.last + 1)
  }

  function TokenRange(token: string): Option<Range> {
    var dash := Find(token, '-');
    var first := ParseUint(token[..dash]);
    var last := if dash == |token| then first else ParseUint(token[dash + 1..]);
    if first.None? || last.None? || last.value < first.value || last.value > U32_MAX
       || last.value - first.value >= MAX_CPU_COUNT then None
    else Some(Range(first.value, last.value))
  }

  /** The union of the ranges of all tokens, nothing when a non-empty token is malformed. */
  function Union(tokens: seq<string>): Option<set<nat>> {
    if tokens == [] then Some({}) else
    var before, token := Union(tokens[..|tokens| - 1]), tokens[|tokens| - 1];
    if before.None? || token == [] then before else
    var range := TokenRange(token);
    if range.None? then None else Some(before.value + Ids(range.value))
  }

  function CpuIds(value: string): Option<seq<nat>> {
    var all := Union(Pieces(Normalized(value), ','));
    if all.None? || |all.value| > MAX_CPU_COUNT then None else Some(Ascending(all.value))
  }

  // ----- What the union is -----

  ghost predicate Covers(token: string, id: nat) {
    token != [] && TokenRange(token).Some? && id in Ids(TokenRange(token).value)
  }

  ghost predicate Listed(tokens: seq<string>, id: nat) {
    exists i :: 0 <= i < |tokens| && Covers(tokens[i], id)
  }

  ghost predicate WellFormed(token: string) {
    token == [] || TokenRange(token).Some?
  }

  lemma ListedStep(tokens: seq<string>, id: nat)
    requires tokens != []
    ensures Listed(tokens, id) <==>
            Listed(tokens[..|tokens| - 1], id) || Covers(tokens[|tokens| - 1], id)
  {
    var n := |tokens| - 1;
    assert Covers(tokens[n], id) ==> Listed(tokens, id);
    assert forall i | 0 <= i < n :: tokens[..n][i] == tokens[i];
  }

  lemma {:induction false} UnionDefined(tokens: seq<string>)
    ensures Union(tokens).Some? <==> forall i | 0 <= i < |tokens| :: WellFormed(tokens[i])
  {
    if tokens != [] {
      var n := |tokens| - 1;
      UnionDefined(tokens[..n]);
      assert forall i | 0 <= i < n :: tokens[..n][i] == tokens[i];
      assert WellFormed(tokens[n]) <==> tokens[n] == [] || TokenRange(tokens[n]).Some?;
    }
  }

  /** Order and repetition of the tokens do not matter: membership is coverage by some token. */
  lemma {:induction false} UnionMembers(tokens: seq<string>, id: nat)
    requires Union(tokens).Some?
    ensures id in Union(tokens).value <==> Listed(tokens, id)
  {
    if tokens != [] {
      UnionMembers(tokens[..|tokens| - 1], id);
      ListedStep(tokens, id);
    }
  }

  lemma {:induction false} UnionPrefix(tokens: seq<string>, k: nat)
    requires k <= |tokens|
    ensures Union(tokens[..k]).None? ==> Union(tokens).None?
    ensures Union(tokens).Some? ==> Union(tokens[..k]).Some? && Union(tokens[..k]).value <= Union(tokens).value
  {
    if k == |tokens| {
      assert tokens[..k] == tokens;
    } else {
      UnionPrefix(tokens[..|tokens| - 1], k);
      assert tokens[..|tokens| - 1][..k] == tokens[..k];
    }
  }

  /**
    The list is refused exactly for a malformed token or more than 65536 IDs; otherwise the result is
    strictly increasing and holds exactly the covered IDs.
   */
  lemma CpuIdsExact(value: string)
    ensures var tokens, parsed := Pieces(Normalized(value), ','), CpuIds(value);
      && (parsed.Some? <==> (forall i | 0 <= i < |tokens| :: WellFormed(tokens[i]))
                            && |Union(tokens).GetOr({})| <= MAX_CPU_COUNT)
      && (parsed.Some? ==> Increasing(parsed.value) && |parsed.value| <= MAX_CPU_COUNT
                           && forall id :: id in parsed.value <==> Listed(tokens, id))
  {
    var tokens := Pieces(Normalized(value), ',');
    UnionDefined(tokens);
    if CpuIds(value).Some? {
      var all := Union(tokens).value;
      AscendingLists(all);
      forall id ensures id in Ascending(all) <==> Listed(tokens, id) {
        UnionMembers(tokens, id);
        assert id in Ascending(all) <==> id in Elements(Ascending(all));
      }
    }
  }

  // ----- The parser -----

  /** Inserts a range one ID at a time; stops as soon as the set is too large. */
  method InsertRange(ids: set<nat>, range: Range) returns (result: set<nat>, overflow: bool)
    requires range.first <= range.last <= U32_MAX
    requires |ids| <= MAX_CPU_COUNT
    ensures overflow <==> |ids + Ids(range)| > MAX_CPU_COUNT
    ensures !overflow ==> result == ids + Ids(range)
  {
    result := ids;
    var id, last := range.first as u64, range.last as u64;
    while id <= last
      invariant range.first <= id as nat <= range.last + 1
      invariant result == ids + Interval(range.first, id as nat)
      invariant |result| <= MAX_CPU_COUNT
      decreases range.last + 1 - id as nat
    {
      result := result + {id as nat};
      if |result| > MAX_CPU_COUNT {
        SubsetSize(result, ids + Ids(range));
        return result, true;
      }
      id := id + 1;
    }
    assert result == ids + Ids(range);
    overflow := false;
  }

  method ParseCpuIdList(value: string) returns (result: Option<seq<nat>>)
    ensures result == CpuIds(value)
  {
    var buffer := new char[|value|](i requires 0 <= i < |value| => value[i]);
    for i := 0 to buffer.Length
      invariant forall j | 0 <= j < |value| :: buffer[j] == if j < i then Normalized(value)[j] else value[j]
    {
      if IsSpace(buffer[i]) {
        buffer[i] := ',';
      }
    }
    assert buffer[..] == Normalized(value);
    var tokens := Split(buffer[..], ',');
    var ids: set<nat> := {};
    for i := 0 to |tokens|
      invariant Union(tokens[..i]) == Some(ids) && |ids| <= MAX_CPU_COUNT
    {
      var token := tokens[i];
      assert tokens[..i + 1][..i] == tokens[..i];
      UnionPrefix(tokens, i + 1);
      if token != [] {
        var range := TokenRange(token);
        if range.None? {
          return None;
        }
        var overflow;
        ids, overflow := InsertRange(ids, range.value);
        if overflow {
          if Union(tokens).Some? {
            SubsetSize(Union(tokens[..i + 1]).value, Union(tokens).value);
          }
          return None;
        }
      }
    }
    assert tokens[..|tokens|] == tokens;
    return Some(Ascending(ids));
  }

  // ----- Renderings -----

  /** One element of a rendering: a single ID, or an inclusive range. */
  datatype Item = One(id: nat) | Span(first: nat, last: nat)

  ghost predicate ValidItem(item: Item) {
    match item
    case One(id) => id <= U32_MAX
    case Span(first, last) => first <= last <= U32_MAX
  }

  function ItemIds(item: Item): set<nat> {
    match item
    case One(id) => {id}
    case Span(first, last) => Ids(Range(first, last))
  }

  function ItemText(item: Item): string {
    match item
    case One(id) => Decimal(id)
    case Span(first, last) => Decimal(first) + ['-'] + Decimal(last)
  }

  function ItemTexts(items: seq<Item>): (texts: seq<string>)
    ensures |texts| == |items|
    ensures forall i | 0 <= i < |items| :: texts[i] == ItemText(items[i])
  {
    if items == [] then [] else ItemTexts(items[..|items| - 1]) + [ItemText(items[|items| - 1])]
  }

  function AllIds(items: seq<Item>): set<nat> {
    if items == [] then {} else AllIds(items[..|items| - 1]) + ItemIds(items[|items| - 1])
  }

  function ListText(items: seq<Item>): string {
    if items == [] then [] else Join(ItemTexts(items), ',')
  }

  predicate Plain(s: string) {
    forall i | 0 <= i < |s| :: s[i] == '-' || IsDigit(s[i], 10)
  }

  lemma DecimalPlain(n: nat)
    ensures Plain(Decimal(n)) && '-' !in Decimal(n) && Decimal(n) != []
  {
    assert forall c | c in Decimal(n) :: IsDigit(c, 10);
  }

  lemma OneTextParses(id: nat)
    requires id <= U32_MAX
    ensures TokenRange(Decimal(id)) == Some(Range(id, id))
  {
    ParseUintDecimal(id);
    DecimalPlain(id);
    assert Find(Decimal(id), '-') == |Decimal(id)|;
    assert Decimal(id)[..|Decimal(id)|] == Decimal(id);
  }

  lemma SpanTextParses(first: nat, last: nat)
    requires first <= last <= U32_MAX
    ensures TokenRange(Decimal(first) + ['-'] + Decimal(last)) ==
            if last - first < MAX_CPU_COUNT then Some(Range(first, last)) else None
  {
    var a, b := Decimal(first), Decimal(last);
    ParseUintDecimal(first);
    ParseUintDecimal(last);
    DecimalPlain(first);
    FindSplits(a, '-', b);
    var t := a + ['-'] + b;
    assert t[..|a|] == a && t[|a| + 1..] == b;
  }

  lemma ItemTextParses(item: Item)
    requires ValidItem(item)
    ensures ItemText(item) != [] && Plain(ItemText(item))
    ensures TokenRange(ItemText(item)) ==
            match item
            case One(id) => Some(Range(id, id))
            case Span(first, last) => if last - first < MAX_CPU_COUNT then Some(Range(first, last)) else None
  {
    match item
    case One(id) =>
      DecimalPlain(id);
      OneTextParses(id);
    case Span(first, last) =>
      DecimalPlain(first);
      DecimalPlain(last);
      SpanTextParses(first, last);
  }

  lemma ItemTextCovers(item: Item)
    requires ValidItem(item)
    ensures ItemText(item) != []
    ensures var range := TokenRange(ItemText(item));
      if range.Some? then Ids(range.value) == ItemIds(item) else |ItemIds(item)| > MAX_CPU_COUNT
  {
    ItemTextParses(item);
    match item
    case One(id) => assert Ids(Range(id, id)) == {id};
    case Span(first, last) => IntervalSize(first, last + 1);
  }

  lemma UnionStep(before: seq<string>, token: string)
    requires token != []
    ensures var range, all := TokenRange(token), Union(before + [token]);
      if Union(before).None? || range.None? then all.None?
      else all == Some(Union(before).value + Ids(range.value))
  {
    assert (before + [token])[..|before|] == before;
  }

  lemma {:induction false} UnionOfItems(items: seq<Item>)
    requires forall i | 0 <= i < |items| :: ValidItem(items[i])
    ensures var all := Union(ItemTexts(items));
      if all.Some? then all.value == AllIds(items) else |AllIds(items)| > MAX_CPU_COUNT
  {
    if items != [] {
      var n := |items| - 1;
      UnionOfItems(items[..n]);
      ItemTextCovers(items[n]);
      UnionStep(ItemTexts(items[..n]), ItemText(items[n]));
      SubsetSize(AllIds(items[..n]), AllIds(items));
      SubsetSize(ItemIds(items[n]), AllIds(items));
    }
  }

  lemma {:induction false} TokensJoin(texts: seq<string>)
    requires |texts| >= 1 && forall i | 0 <= i < |texts| :: Plain(texts[i])
    ensures Normalized(Join(texts, ',')) == Join(texts, ',') && Free(texts, ',')
  {
    if |texts| > 1 {
      TokensJoin(texts[1..]);
      var t, u := Join(texts, ','), Join(texts[1..], ',');
      forall i | 0 <= i < |t| ensures !IsSpace(t[i]) {
        if i > |texts[0]| {
          assert t[i] == u[i - |texts[0]| - 1] == Normalized(u)[i - |texts[0]| - 1];
        }
      }
      forall i | 0 <= i < |texts| ensures ',' !in texts[i] {
        assert i > 0 ==> texts[i] == texts[1..][i - 1];
      }
    }
  }

  /**
    Parsing any rendering by single IDs and ranges, in any order and with any overlap, gives back the
    sorted set, or a refusal exactly when the set has more than 65536 members.
   */
  lemma RenderedListParses(items: seq<Item>)
    requires forall i | 0 <= i < |items| :: ValidItem(items[i])
    ensures CpuIds(ListText(items)) ==
            if |AllIds(items)| <= MAX_CPU_COUNT then Some(Ascending(AllIds(items))) else None
  {
    var texts := ItemTexts(items);
    UnionOfItems(items);
    if items == [] {
      assert Pieces([], ',') == [[]];
      assert Normalized([]) == [];
      var blank: seq<string> := [[]];
      assert blank[..0] == [];
      assert Union(blank) == Some({});
    } else {
      forall i | 0 <= i < |texts| ensures Plain(texts[i]) {
        ItemTextParses(items[i]);
      }
      TokensJoin(texts);
      PiecesJoin(texts, ',');
    }
  }
}
