/** The location report of an EDAC device: parse_edac_location of src/parser/memory_edac.cpp. */
module EdacLocations {
  import opened Options
  import opened ParseUtils
  import opened StreamWords
  import opened Numbers
  import opened SortedSets

  datatype Layer = Branch | Channel | Slot | ChipSelect | AllMemory

  datatype Coordinate = Coordinate(layer: Layer, index: nat)

  datatype Location = Location(report: string, coordinates: seq<Coordinate>)

  // ----- Reading pairs -----

  function LayerOf(name: string): Option<Layer> {
    if name == "branch" then Some(Branch)
    else if name == "channel" then Some(Channel)
    else if name == "slot" then Some(Slot)
    else if name == "csrow" then Some(ChipSelect)
    else if name == "memory" then Some(AllMemory)
    else None
  }

  function IndexOf(value: string): Option<nat> {
    match ParseUint(value)
    case None => None
    case Some(n) => if n <= U32_MAX then Some(n) else None
  }

  /** How a word reads as a layer and as an index. */
  datatype Readers = Readers(layer: string -> Option<Layer>, index: string -> Option<nat>)

  const READERS: Readers := Readers(LayerOf, IndexOf)

  predicate HasLayer(coordinates: seq<Coordinate>, layer: Layer) {
    exists i :: 0 <= i < |coordinates| && coordinates[i].layer == layer
  }

  /** One more pair: it needs a known, new layer and a 32-bit index. */
  function Extended(coordinates: seq<Coordinate>, layer: Option<Layer>, index: Option<nat>): Option<seq<Coordinate>> {
    if layer.Some? && index.Some? && !HasLayer(coordinates, layer.value)
    then Some(coordinates + [Coordinate(layer.value, index.value)]) else None
  }

  function ReadPairs(r: Readers, words: seq<string>): Option<seq<Coordinate>> {
    if words == [] then Some([])
    else if |words| == 1 then None
    else
      var n := |words| - 2;
      match ReadPairs(r, words[..n])
      case None => None
      case Some(before) => Extended(before, r.layer(words[n]), r.index(words[n + 1]))
  }

  /** All pairs or none. */
  function Coordinates(r: Readers, words: seq<string>): seq<Coordinate> {
    ReadPairs(r, words).GetOr([])
  }

  lemma {:induction false} OddUnread(r: Readers, words: seq<string>)
    requires |words| % 2 == 1
    ensures ReadPairs(r, words) == None
  {
    if |words| > 1 {
      OddUnread(r, words[..|words| - 2]);
    }
  }

  lemma {:induction false} UnreadPrefix(r: Readers, words: seq<string>, k: nat)
    requires 2 * k <= |words| && ReadPairs(r, words[..2 * k]) == None
    ensures ReadPairs(r, words) == None
  {
    if 2 * k == |words| {
      assert words[..2 * k] == words;
    } else if |words| > 1 && 2 * k <= |words| - 2 {
      assert words[..|words| - 2][..2 * k] == words[..2 * k];
      UnreadPrefix(r, words[..|words| - 2], k);
    } else {
      assert |words| == 2 * k + 1;
      OddUnread(r, words);
    }
  }

  method ReadCoordinates(r: Readers, words: seq<string>) returns (coordinates: seq<Coordinate>)
    ensures coordinates == Coordinates(r, words)
  {
    coordinates := [];
    var k := 0;
    while 2 * k < |words|
      invariant 0 <= 2 * k <= |words| + 1 && (2 * k <= |words| ==> ReadPairs(r, words[..2 * k]) == Some(coordinates))
      invariant 2 * k <= |words|
    {
      if 2 * k + 1 == |words| {
        OddUnread(r, words);
        return [];
      }
      var next := Extended(coordinates, r.layer(words[2 * k]), r.index(words[2 * k + 1]));
      assert words[..2 * k + 2][..2 * k] == words[..2 * k];
      assert ReadPairs(r, words[..2 * k + 2]) == next;
      if next == None {
        UnreadPrefix(r, words, k + 1);
        return [];
      }
      coordinates := next.value;
      k := k + 1;
    }
    assert words[..2 * k] == words;
  }

  method ParseLocation(report: string) returns (location: Location)
    ensures location == Location(Trimmed(report), Coordinates(READERS, Words(Trimmed(report))))
  {
    var text := Trim(report);
    var coordinates := ReadCoordinates(READERS, Words(text));
    location := Location(text, coordinates);
  }

  // ----- Properties -----

  /** Each pair of words reads as its coordinate, and no layer comes twice. */
  ghost predicate Describes(r: Readers, words: seq<string>, coordinates: seq<Coordinate>) {
    && |words| == 2 * |coordinates|
    && (forall i | 0 <= i < |coordinates| ::
          r.layer(words[2 * i]) == Some(coordinates[i].layer)
          && r.index(words[2 * i + 1]) == Some(coordinates[i].index))
    && (forall i, j | 0 <= i < j < |coordinates| :: coordinates[i].layer != coordinates[j].layer)
  }

  lemma DescribesStep(r: Readers, words: seq<string>, coordinates: seq<Coordinate>)
    requires |words| >= 2 && coordinates != []
    ensures var n, m := |words| - 2, |coordinates| - 1;
      Describes(r, words, coordinates) <==>
        Describes(r, words[..n], coordinates[..m])
        && r.layer(words[n]) == Some(coordinates[m].layer) && r.index(words[n + 1]) == Some(coordinates[m].index)
        && !HasLayer(coordinates[..m], coordinates[m].layer)
  {
    var n, m := |words| - 2, |coordinates| - 1;
    assert forall i | 0 <= i < m :: coordinates[..m][i] == coordinates[i];
    assert 2 * m <= n ==>
      forall i | 0 <= i < m :: words[..n][2 * i] == words[2 * i] && words[..n][2 * i + 1] == words[2 * i + 1];
  }

  /** The words describe exactly the coordinates read from them, and no other coordinates. */
  lemma {:induction false} PairsExact(r: Readers, words: seq<string>, coordinates: seq<Coordinate>)
    ensures ReadPairs(r, words) == Some(coordinates) <==> Describes(r, words, coordinates)
  {
    if |words| <= 1 {
      assert coordinates == [] <==> |coordinates| == 0;
    } else {
      var n, m := |words| - 2, |coordinates| - 1;
      if coordinates == [] {
        if ReadPairs(r, words[..n]).Some? {
          assert ReadPairs(r, words) != Some([]);
        }
      } else {
        PairsExact(r, words[..n], coordinates[..m]);
        var c := coordinates[m];
        assert coordinates == coordinates[..m] + [c];
        assert ReadPairs(r, words) == Some(coordinates) <==>
               ReadPairs(r, words[..n]) == Some(coordinates[..m])
               && r.layer(words[n]) == Some(c.layer) && r.index(words[n + 1]) == Some(c.index)
               && !HasLayer(coordinates[..m], c.layer) by {
          if ReadPairs(r, words) == Some(coordinates) {
            var before := ReadPairs(r, words[..n]).value;
            assert (before + [coordinates[m]])[..m] == before;
          }
        }
        DescribesStep(r, words, coordinates);
      }
    }
  }

  function LayerSet(cs: seq<Coordinate>): set<Layer> {
    if cs == [] then {} else LayerSet(cs[..|cs| - 1]) + {cs[|cs| - 1].layer}
  }

  lemma {:induction false} LayersDistinct(cs: seq<Coordinate>)
    requires forall i, j | 0 <= i < j < |cs| :: cs[i].layer != cs[j].layer
    ensures |LayerSet(cs)| == |cs| && forall l | l in LayerSet(cs) :: HasLayer(cs, l)
  {
    if cs != [] {
      var n := |cs| - 1;
      LayersDistinct(cs[..n]);
      assert HasLayer(cs, cs[n].layer);
      forall l | l in LayerSet(cs[..n])
        ensures HasLayer(cs, l) && l != cs[n].layer
      {
        var i :| 0 <= i < n && cs[..n][i].layer == l;
        assert cs[i].layer == l;
      }
    }
  }

  lemma LayersFinite(s: set<Layer>)
    ensures |s| <= 5
  {
    var all := {Branch, Channel, Slot, ChipSelect, AllMemory};
    forall l | l in s
      ensures l in all
    {
      match l
      case Branch => assert l in all;
      case Channel => assert l in all;
      case Slot => assert l in all;
      case ChipSelect => assert l in all;
      case AllMemory => assert l in all;
    }
    SubsetSize(s, all);
  }

  /** A location has at most one coordinate per layer, so at most five. */
  lemma AtMostFive(r: Readers, words: seq<string>)
    ensures |Coordinates(r, words)| <= 5
  {
    var cs := Coordinates(r, words);
    if ReadPairs(r, words).Some? {
      PairsExact(r, words, cs);
      LayersDistinct(cs);
      LayersFinite(LayerSet(cs));
    }
  }

  // ----- Round trip -----

  function LayerName(layer: Layer): string {
    match layer
    case Branch => "branch"
    case Channel => "channel"
    case Slot => "slot"
    case ChipSelect => "csrow"
    case AllMemory => "memory"
  }

  lemma LayerNameReads(layer: Layer)
    ensures LayerOf(LayerName(layer)) == Some(layer) && Solid(LayerName(layer))
  {
  }

  lemma IndexReads(index: nat)
    requires index <= U32_MAX
    ensures IndexOf(Decimal(index)) == Some(index) && Solid(Decimal(index))
  {
    ParseUintDecimal(index);
    forall i | 0 <= i < |Decimal(index)|
      ensures !IsSpace(Decimal(index)[i])
    {
      assert IsDigit(Decimal(index)[i], 10);
    }
  }

  /** The words a driver prints: layer and index by turns. */
  function Printed(cs: seq<Coordinate>): (words: seq<string>)
    ensures |words| == 2 * |cs|
    ensures forall i | 0 <= i < |cs| ::
              words[2 * i] == LayerName(cs[i].layer) && words[2 * i + 1] == Decimal(cs[i].index)
  {
    if cs == [] then [] else
    Printed(cs[..|cs| - 1]) + [LayerName(cs[|cs| - 1].layer), Decimal(cs[|cs| - 1].index)]
  }

  lemma PrintedReads(r: Readers, words: seq<string>, cs: seq<Coordinate>)
    requires |words| == 2 * |cs|
    requires forall i | 0 <= i < |cs| ::
               words[2 * i] == LayerName(cs[i].layer) && words[2 * i + 1] == Decimal(cs[i].index)
    requires forall c | c in cs ::
               r.layer(LayerName(c.layer)) == Some(c.layer) && r.index(Decimal(c.index)) == Some(c.index)
    requires forall i, j | 0 <= i < j < |cs| :: cs[i].layer != cs[j].layer
    ensures Coordinates(r, words) == cs
  {
    assert Describes(r, words, cs) by {
      forall i: nat | i < |cs|
        ensures r.layer(words[2 * i]) == Some(cs[i].layer) && r.index(words[2 * i + 1]) == Some(cs[i].index)
      {
        assert cs[i] in cs;
      }
    }
    PairsExact(r, words, cs);
  }

  lemma PrintedSolid(cs: seq<Coordinate>)
    requires forall c | c in cs :: Solid(LayerName(c.layer)) && Solid(Decimal(c.index))
    ensures forall i | 0 <= i < |Printed(cs)| :: Solid(Printed(cs)[i])
  {
    var words := Printed(cs);
    forall i: nat | i < |words|
      ensures Solid(words[i])
    {
      var k := i / 2;
      assert cs[k] in cs;
      assert words[2 * k] == LayerName(cs[k].layer) && words[2 * k + 1] == Decimal(cs[k].index);
      assert i == 2 * k || i == 2 * k + 1;
    }
  }

  lemma CoordinateReads(c: Coordinate)
    requires c.index <= U32_MAX
    ensures READERS.layer(LayerName(c.layer)) == Some(c.layer) && READERS.index(Decimal(c.index)) == Some(c.index)
    ensures Solid(LayerName(c.layer)) && Solid(Decimal(c.index))
  {
    LayerNameReads(c.layer);
    IndexReads(c.index);
  }

  /** Any coordinates with distinct layers and 32-bit indices survive printing and parsing. */
  lemma LocationRoundTrip(cs: seq<Coordinate>)
    requires cs != []
    requires forall c | c in cs :: c.index <= U32_MAX
    requires forall i, j | 0 <= i < j < |cs| :: cs[i].layer != cs[j].layer
    ensures var report := Join(Printed(cs), ' ');
      Trimmed(report) == report && Coordinates(READERS, Words(Trimmed(report))) == cs
  {
    forall c | c in cs
      ensures READERS.layer(LayerName(c.layer)) == Some(c.layer) && READERS.index(Decimal(c.index)) == Some(c.index)
      ensures Solid(LayerName(c.layer)) && Solid(Decimal(c.index))
    {
      CoordinateReads(c);
    }
    PrintedReads(READERS, Printed(cs), cs);
    PrintedSolid(cs);
    WordsJoin(Printed(cs));
    JoinTight(Printed(cs));
    TrimmedTight(Join(Printed(cs), ' '));
  }
}
