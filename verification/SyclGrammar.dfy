/** Which texts are SYCL filters: parse_sycl of src/resolver/accelerator_selection.cpp as a grammar. */
module SyclGrammar {
  import opened Options
  import opened ParseUtils
  import opened Numbers
  import opened CsvSelection
  import opened SyclSelection

  /** b is a with the letters A to Z in lower case. */
  ghost predicate LowerOf(a: string, b: string) {
    && |b| == |a|
    && forall i | 0 <= i < |a| :: b[i] as int == if 'A' <= a[i] <= 'Z' then a[i] as int + 32 else a[i] as int
  }

  lemma LoweredExact(a: string)
    ensures forall b :: LowerOf(a, b) <==> b == Lowered(a)
  {
    forall b | LowerOf(a, b)
      ensures b == Lowered(a)
    {
      assert forall i | 0 <= i < |a| :: b[i] == Lowered(a)[i];
    }
  }

  /** A selector: a type or an ordinal. */
  ghost predicate IsSelector(selector: string) {
    selector in {"*", "gpu", "cpu"} || IsOrdinal(selector)
  }

  lemma SelectorExact(selector: string)
    ensures KnownSelector(selector) <==> IsSelector(selector)
  {
    ParseUintExact(selector, 0);
    if ParseUint(selector).Some? {
      ParseUintExact(selector, ParseUint(selector).value);
    }
  }

  /** The clause without its mark is a backend, a colon and a list of selectors. */
  ghost predicate SpellsBody(body: string, f: Filter) {
    exists backend, list ::
      && body == backend + [':'] + list && ':' !in backend && ':' !in list
      && f.backend == Trimmed(backend)
      && f.backend in {"*", "level_zero", "opencl", "cuda", "hip", "native_cpu"}
      && f.selectors == AllTrimmed(Pieces(list, ','))
      && forall s | s in f.selectors :: IsSelector(s)
  }

  /** The clause, trimmed and in lower case, is the filter: marked with ! exactly when it discards. */
  ghost predicate SpellsFilter(clause: string, f: Filter) {
    exists text :: LowerOf(Trimmed(clause), text)
      && if f.exclude then text != [] && text[0] == '!' && SpellsBody(text[1..], f)
         else (text == [] || text[0] != '!') && SpellsBody(text, f)
  }

  lemma TwoPieces(body: string)
    ensures |Pieces(body, ':')| == 2 <==> exists a, b :: body == a + [':'] + b && ':' !in a && ':' !in b
    ensures forall a, b | body == a + [':'] + b && ':' !in a && ':' !in b :: Pieces(body, ':') == [a, b]
  {
    forall a, b | body == a + [':'] + b && ':' !in a && ':' !in b
      ensures Pieces(body, ':') == [a, b]
    {
      TwoParts(a, b);
    }
    JoinPieces(body, ':');
    if |Pieces(body, ':')| == 2 {
      var parts := Pieces(body, ':');
      assert parts[1..] == [parts[1]];
      assert body == parts[0] + [':'] + parts[1];
    }
  }

  lemma SelectorsExact(selectors: seq<string>)
    ensures AllKnown(selectors) <==> forall s | s in selectors :: IsSelector(s)
  {
    forall s
      ensures KnownSelector(s) <==> IsSelector(s)
    {
      SelectorExact(s);
    }
  }

  lemma BackendExact(backend: string)
    ensures KnownBackend(backend) <==>
            backend in {"*", "level_zero", "opencl", "cuda", "hip", "native_cpu"}
  {
  }

  lemma BodyParts(body: string, f: Filter, backend: string, list: string)
    requires Pieces(body, ':') == [backend, list]
    ensures BodyFilter(body, f.exclude) == Some(f) <==>
            && f.backend == Trimmed(backend) && f.selectors == AllTrimmed(Pieces(list, ','))
            && f.backend in {"*", "level_zero", "opencl", "cuda", "hip", "native_cpu"}
            && forall s | s in f.selectors :: IsSelector(s)
  {
    BackendExact(Trimmed(backend));
    SelectorsExact(AllTrimmed(Pieces(list, ',')));
  }

  lemma BodyExact(body: string, f: Filter)
    ensures BodyFilter(body, f.exclude) == Some(f) <==> SpellsBody(body, f)
  {
    TwoPieces(body);
    if |Pieces(body, ':')| == 2 {
      var a, b :| body == a + [':'] + b && ':' !in a && ':' !in b;
      BodyParts(body, f, a, b);
    }
    if SpellsBody(body, f) {
      var backend, list :| body == backend + [':'] + list && ':' !in backend && ':' !in list
        && f.backend == Trimmed(backend)
        && f.backend in {"*", "level_zero", "opencl", "cuda", "hip", "native_cpu"}
        && f.selectors == AllTrimmed(Pieces(list, ','))
        && forall s | s in f.selectors :: IsSelector(s);
      BodyParts(body, f, backend, list);
    }
  }

  /** A clause is read as a filter exactly when it spells it. */
  lemma ClauseExact(clause: string, f: Filter)
    ensures ClauseFilter(clause) == Some(f) <==> SpellsFilter(clause, f)
  {
    var text := Lowered(Trimmed(clause));
    LoweredExact(Trimmed(clause));
    BodyExact(text, f);
    if text != [] {
      BodyExact(text[1..], f);
    }
  }

  /** A text is read as a list of filters exactly when its clauses spell them and accepts come first. */
  lemma SyclTextExact(value: string, filters: seq<Filter>)
    ensures SyclFilters(value) == Some(filters) <==>
            var clauses := Pieces(value, ';');
            && |filters| == |clauses|
            && (forall i | 0 <= i < |clauses| :: SpellsFilter(clauses[i], filters[i]))
            && forall i, j | 0 <= i < j < |filters| :: filters[i].exclude ==> filters[j].exclude
  {
    var clauses := Pieces(value, ';');
    ReadClausesExact(ClauseFilter, clauses, filters);
    forall i | 0 <= i < |clauses| && i < |filters|
      ensures ClauseFilter(clauses[i]) == Some(filters[i]) <==> SpellsFilter(clauses[i], filters[i])
    {
      ClauseExact(clauses[i], filters[i]);
    }
  }
}
