/**
 * The result document of the package's own test: nine variables, two
 * rows.  Every variable is bound by some row, `x` by both and `updated`
 * by the first only; the solutions hold the terms the test expects, for
 * parsers that read its typed values as Go does.
 */
module SparqlSample {
  import opened Wrappers
  import opened Sparql

  const Vars: seq<string> := ["x", "hpage", "name", "mbox", "age", "friend", "score", "z", "updated"]

  function Node(kind: string, value: string): Binding {
    Binding(kind, value, "", "")
  }

  function Typed(dataType: string, value: string): Binding {
    Binding("typed-literal", value, "", dataType)
  }

  const Alice: Row := map[
    "x" := Node("bnode", "r1"),
    "hpage" := Node("uri", "http://work.example.org/alice/"),
    "name" := Node("literal", "Alice"),
    "friend" := Node("bnode", "r2"),
    "age" := Typed(XsdInteger, "17"),
    "score" := Typed(XsdFloat, "0.2"),
    "z" := Typed(XsdBoolean, "true"),
    "updated" := Typed(XsdDateTime, "2014-07-21T04:00:40+02:00")]

  const Bob: Row := map[
    "x" := Node("bnode", "r2"),
    "hpage" := Node("uri", "http://work.example.org/bob/"),
    "name" := Binding("literal", "Bob", "en", ""),
    "mbox" := Node("uri", "mailto:bob@work.example.org"),
    "friend" := Node("bnode", "r1"),
    "age" := Typed(XsdInteger, "43"),
    "score" := Typed(XsdFloat, "11.93"),
    "z" := Typed(XsdBoolean, "false")]

  const Sample: Results := Results(Header([], Vars), ResultSet(false, false, [Alice, Bob]))

  /** A column over two rows: the first row's term, then the second's. */
  lemma TwoRows(r0: Row, r1: Row, v: string, c: Codecs)
    ensures Column([r0, r1], v, c) == Resolved(Cell(r0, v), c) + Resolved(Cell(r1, v), c)
  {
    var rows := [r0, r1];
    assert rows[..1] == [r0] && rows[1] == r1;
    assert Column(rows, v, c) == Column([r0], v, c) + Resolved(Cell(r1, v), c);
    assert [r0][..0] == [] && [r0][0] == r0;
    assert Column([r0], v, c) == Column([], v, c) + Resolved(Cell(r0, v), c);
    assert Column([], v, c) + Resolved(Cell(r0, v), c) == Resolved(Cell(r0, v), c);
  }

  /** A variable either row binds with a known type tag has a non-empty column. */
  lemma BoundByOne(r0: Row, r1: Row, v: string, c: Codecs, b: Binding)
    requires (v in r0 && r0[v] == b) || (v in r1 && r1[v] == b)
    requires KnownKind(b.kind)
    ensures Column([r0, r1], v, c) != []
  {
    TwoRows(r0, r1, v, c);
  }

  lemma VarsDistinct()
    ensures forall i, j :: 0 <= i < j < |Vars| ==> Vars[i] != Vars[j]
  {
  }

  /** Every cell of the sample has a known type tag, so every cell converts. */
  lemma SampleColumns(c: Codecs)
    ensures forall i :: 0 <= i < |Vars| ==> Column([Alice, Bob], Vars[i], c) != []
  {
    forall i | 0 <= i < |Vars| ensures Column([Alice, Bob], Vars[i], c) != [] {
      if Vars[i] == "mbox" {
        BoundByOne(Alice, Bob, Vars[i], c, Bob["mbox"]);
      } else {
        BoundByOne(Alice, Bob, Vars[i], c, Alice[Vars[i]]);
      }
    }
  }

  /** Both rows bind `x`; only the first binds `updated`. */
  lemma SampleColumnSizes(c: Codecs)
    ensures |Column([Alice, Bob], "x", c)| == 2
    ensures |Column([Alice, Bob], "updated", c)| == 1
  {
    AliceCells();
    assert "x" in Bob && Bob["x"].kind == "bnode";
    assert "updated" !in Bob;
    TwoRows(Alice, Bob, "x", c);
    TwoRows(Alice, Bob, "updated", c);
  }

  /** Nine bound variables; two terms for `x`, one for `updated`. */
  lemma SampleBindings(c: Codecs)
    ensures |BindingsOf(Vars, [Alice, Bob], c).Keys| == 9
    ensures "x" in BindingsOf(Vars, [Alice, Bob], c) && |BindingsOf(Vars, [Alice, Bob], c)["x"]| == 2
    ensures "updated" in BindingsOf(Vars, [Alice, Bob], c) && |BindingsOf(Vars, [Alice, Bob], c)["updated"]| == 1
  {
    VarsDistinct();
    SampleColumns(c);
    SampleColumnSizes(c);
    BoundCount(Vars, [Alice, Bob], c);
    assert Vars[0] == "x" && Vars[8] == "updated";
    DistinctVarsGiveColumns(Vars, [Alice, Bob], c, "x");
    DistinctVarsGiveColumns(Vars, [Alice, Bob], c, "updated");
    BindingsOfEntry(Vars, [Alice, Bob], c, "x");
    BindingsOfEntry(Vars, [Alice, Bob], c, "updated");
  }

  /** The cells of the first row the test looks at. */
  lemma AliceCells()
    ensures "x" in Alice && Alice["x"] == Node("bnode", "r1")
    ensures "hpage" in Alice && Alice["hpage"] == Node("uri", "http://work.example.org/alice/")
    ensures "name" in Alice && Alice["name"] == Node("literal", "Alice")
    ensures "age" in Alice && Alice["age"] == Typed(XsdInteger, "17")
    ensures "score" in Alice && Alice["score"] == Typed(XsdFloat, "0.2")
    ensures "z" in Alice && Alice["z"] == Typed(XsdBoolean, "true")
    ensures "updated" in Alice && Alice["updated"] == Typed(XsdDateTime, "2014-07-21T04:00:40+02:00")
  {
  }

  /** The cells of the second row the test looks at. */
  lemma BobCells()
    ensures "name" in Bob && Bob["name"] == Binding("literal", "Bob", "en", "")
    ensures "z" in Bob && Bob["z"] == Typed(XsdBoolean, "false")
  {
  }

  /** The nodes and string literals of the solutions, whatever the parsers. */
  lemma SampleSolutionNodes(c: Codecs)
    ensures "x" in SolutionOf(Alice, c) && SolutionOf(Alice, c)["x"] == Blank("r1")
    ensures "hpage" in SolutionOf(Alice, c) && SolutionOf(Alice, c)["hpage"] == IRI("http://work.example.org/alice/")
    ensures "name" in SolutionOf(Alice, c) && SolutionOf(Alice, c)["name"] == Literal(Str("Alice"), "", XsdString)
    ensures "name" in SolutionOf(Bob, c) && SolutionOf(Bob, c)["name"] == Literal(Str("Bob"), "en", XsdString)
  {
    AliceCells();
    BobCells();
    SolutionAt(Alice, "x", c);
    SolutionAt(Alice, "hpage", c);
    SolutionAt(Alice, "name", c);
    SolutionAt(Bob, "name", c);
  }

  /** The typed literals of the solutions, for parsers that accept the sample's text. */
  lemma SampleSolutionValues(c: Codecs, score: bv64, updated: Time)
    requires c.atoi("17") == Some(17)
    requires c.parseFloat("0.2") == Some(score)
    requires c.parseBool("true") == Some(true) && c.parseBool("false") == Some(false)
    requires c.parseTime(c.dateFormat, "2014-07-21T04:00:40+02:00") == Some(updated)
    ensures "age" in SolutionOf(Alice, c) && SolutionOf(Alice, c)["age"] == Literal(Int(17), "", XsdInteger)
    ensures "score" in SolutionOf(Alice, c) && SolutionOf(Alice, c)["score"] == Literal(Float(score), "", XsdFloat)
    ensures "z" in SolutionOf(Alice, c) && SolutionOf(Alice, c)["z"] == Literal(Bool(true), "", XsdBoolean)
    ensures "z" in SolutionOf(Bob, c) && SolutionOf(Bob, c)["z"] == Literal(Bool(false), "", XsdBoolean)
    ensures "updated" in SolutionOf(Alice, c) && SolutionOf(Alice, c)["updated"] == Literal(DateTime(updated), "", XsdDateTime)
  {
    AliceCells();
    BobCells();
    SolutionAt(Alice, "age", c);
    SolutionAt(Alice, "score", c);
    SolutionAt(Alice, "z", c);
    SolutionAt(Bob, "z", c);
    SolutionAt(Alice, "updated", c);
  }

  /** `Bindings` and `Solutions` on the sample document. */
  method SampleViews(c: Codecs) returns (bindings: map<string, seq<Term>>, solutions: seq<map<string, Term>>)
    ensures |bindings.Keys| == 9
    ensures "x" in bindings && |bindings["x"]| == 2 && "updated" in bindings && |bindings["updated"]| == 1
    ensures |solutions| == 2
    ensures "x" in solutions[0] && solutions[0]["x"] == Blank("r1")
    ensures "name" in solutions[1] && solutions[1]["name"] == Literal(Str("Bob"), "en", XsdString)
  {
    bindings := Bindings(Sample, c);
    SampleBindings(c);
    solutions := Solutions(Sample, c);
    SampleSolutionNodes(c);
  }
}
