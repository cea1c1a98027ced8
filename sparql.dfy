/**
 * The result side of the `sparql` package (sparql.go): a decoded
 * application/sparql-results+json document, the conversion of one JSON
 * binding into an RDF term, and the two views over the rows, `Bindings`
 * (per variable) and `Solutions` (per row).
 */
module Sparql {
  import opened Wrappers

  // ---------------------------------------------------------------------
  // Datatype IRIs of XML Schema
  // ---------------------------------------------------------------------

  const XsdString := "http://www.w3.org/2001/XMLSchema#string"
  const XsdInteger := "http://www.w3.org/2001/XMLSchema#integer"
  const XsdFloat := "http://www.w3.org/2001/XMLSchema#float"
  const XsdBoolean := "http://www.w3.org/2001/XMLSchema#boolean"
  const XsdDateTime := "http://www.w3.org/2001/XMLSchema#dateTime"

  // ---------------------------------------------------------------------
  // The decoded document
  // ---------------------------------------------------------------------

  /**
   * One cell of a row: the `type` tag ("uri", "literal", "typed-literal" or
   * "bnode"), the `value`, the `xml:lang` tag and the `datatype` IRI.  An
   * absent field decodes as the empty string.
   */
  datatype Binding = Binding(kind: string, value: string, lang: string, dataType: string)

  /** What a row gives for a variable it does not bind: the zero binding. */
  const Unbound := Binding("", "", "", "")

  datatype Header = Header(link: seq<string>, vars: seq<string>)

  /** One row (solution) of the document: variable name to binding. */
  type Row = map<string, Binding>

  datatype ResultSet = ResultSet(distinct: bool, ordered: bool, bindings: seq<Row>)

  datatype Results = Results(head: Header, results: ResultSet)

  /** The cell of `row` for variable `v`, the zero binding when there is none. */
  function Cell(row: Row, v: string): (b: Binding)
    ensures v in row ==> b == row[v]
    ensures v !in row ==> !KnownKind(b.kind)
  {
    if v in row then row[v] else Unbound
  }

  // ---------------------------------------------------------------------
  // RDF terms
  // ---------------------------------------------------------------------

  /** A point in time as the date parser returns it. */
  datatype Time = Time(seconds: int, nanos: nat, zoneOffset: int)

  /** The Go value a literal carries. */
  datatype Value = Str(s: string) | Int(i: int) | Float(bits: bv64) | Bool(b: bool) | DateTime(t: Time)

  datatype Term = Blank(id: string) | IRI(iri: string) | Literal(val: Value, lang: string, dataType: string)

  datatype TermError = UnknownTermType

  /**
   * The parsers of the standard library a typed literal goes through, and
   * the layout dateTime values are parsed with.  Each returns None where
   * the Go function returns an error.
   */
  datatype Codecs = Codecs(
    atoi: string -> Option<int>,
    parseFloat: string -> Option<bv64>,
    parseBool: string -> Option<bool>,
    parseTime: (string, string) -> Option<Time>,
    dateFormat: string)

  /** The four type tags the converter knows. */
  predicate KnownKind(kind: string) {
    kind == "bnode" || kind == "uri" || kind == "literal" || kind == "typed-literal"
  }

  /** A plain xsd:string literal holding `text`. */
  function StringLiteral(text: string): Term {
    Literal(Str(text), "", XsdString)
  }

  /**
   * The terms the converter can produce: every literal is an xsd:string
   * literal holding a string, or a literal of one of the four parsed
   * datatypes holding a value of the matching kind and no language tag.
   */
  predicate WellFormed(t: Term) {
    t.Literal? ==>
      (t.dataType == XsdString && t.val.Str?) || (t.lang == "" && ParsedValue(t.val, t.dataType))
  }

  /** A value of one of the four parsed datatypes, tagged with its datatype IRI. */
  predicate ParsedValue(v: Value, dataType: string) {
    (dataType == XsdInteger && v.Int?) || (dataType == XsdFloat && v.Float?) ||
    (dataType == XsdBoolean && v.Bool?) || (dataType == XsdDateTime && v.DateTime?)
  }

  /**
   * `termFromJSON`: the RDF term a binding denotes.  An unknown type tag is
   * the only error; a typed literal whose value does not parse, or whose
   * datatype is not one of the four parsed ones, falls back to an
   * xsd:string literal holding the raw text.
   */
  function TermFromJSON(b: Binding, c: Codecs): (r: Result<Term, TermError>)
    ensures r.Failure? <==> !KnownKind(b.kind)
    ensures r.Success? ==> WellFormed(r.value)
    ensures r.Success? && r.value.Literal? && r.value.dataType == XsdString ==> r.value.val == Str(b.value)
    ensures r.Success? && r.value.Literal? && r.value.lang != "" ==> b.kind == "literal" && r.value.lang == b.lang
  {
    match b.kind
    case "bnode" => Success(Blank(b.value))
    case "uri" => Success(IRI(b.value))
    case "literal" =>
      if b.lang != "" then Success(Literal(Str(b.value), b.lang, XsdString))
      else Success(Literal(Str(b.value), "", XsdString))
    case "typed-literal" => Success(TypedLiteral(b.value, b.dataType, c))
    case _ => Failure(UnknownTermType)
  }

  /** The `"typed-literal"` case: dispatch on the datatype IRI. */
  function TypedLiteral(value: string, dataType: string, c: Codecs): (t: Term)
    ensures t.Literal? && t.lang == ""
    ensures t == StringLiteral(value) <==> !Parses(value, dataType, c)
    ensures Parses(value, dataType, c) ==> t.dataType == dataType && ParsedValue(t.val, dataType)
  {
    if dataType == XsdString then StringLiteral(value)
    else if dataType == XsdInteger then
      match c.atoi(value)
      case None => StringLiteral(value)
      case Some(i) => Literal(Int(i), "", XsdInteger)
    else if dataType == XsdFloat then
      match c.parseFloat(value)
      case None => StringLiteral(value)
      case Some(f) => Literal(Float(f), "", XsdFloat)
    else if dataType == XsdBoolean then
      match c.parseBool(value)
      case None => StringLiteral(value)
      case Some(bo) => Literal(Bool(bo), "", XsdBoolean)
    else if dataType == XsdDateTime then
      match c.parseTime(c.dateFormat, value)
      case None => StringLiteral(value)
      case Some(t) => Literal(DateTime(t), "", XsdDateTime)
    else StringLiteral(value)
  }

  /** The typed literals whose value the matching parser accepts. */
  predicate Parses(value: string, dataType: string, c: Codecs) {
    (dataType == XsdInteger && c.atoi(value).Some?) ||
    (dataType == XsdFloat && c.parseFloat(value).Some?) ||
    (dataType == XsdBoolean && c.parseBool(value).Some?) ||
    (dataType == XsdDateTime && c.parseTime(c.dateFormat, value).Some?)
  }

  // ---------------------------------------------------------------------
  // Properties of the converter
  // ---------------------------------------------------------------------

  /** Blank nodes and IRIs carry the value as it is, unchecked, and never fail. */
  lemma NodesUnchecked(b: Binding, c: Codecs)
    ensures b.kind == "bnode" ==> TermFromJSON(b, c) == Success(Blank(b.value))
    ensures b.kind == "uri" ==> TermFromJSON(b, c) == Success(IRI(b.value))
  {
  }

  /**
   * A `"literal"` binding always becomes an xsd:string literal with the
   * binding's language tag: its `datatype` field is never read, so a
   * literal that carries a datatype is read as a plain string.
   */
  lemma LiteralIgnoresDatatype(b: Binding, c: Codecs, d: string)
    requires b.kind == "literal"
    ensures TermFromJSON(b, c) == Success(Literal(Str(b.value), b.lang, XsdString))
    ensures TermFromJSON(b.(dataType := d), c) == TermFromJSON(b, c)
  {
  }

  /**
   * A `"typed-literal"` binding never fails and never keeps a language tag.
   * It falls back to an xsd:string literal holding the raw text exactly
   * when its datatype is not parsed or its parser rejects the text;
   * otherwise it keeps the binding's datatype with a value of that type.
   */
  lemma TypedLiteralOutcome(b: Binding, c: Codecs, lang: string)
    requires b.kind == "typed-literal"
    ensures TermFromJSON(b, c).Success?
    ensures TermFromJSON(b, c).value == StringLiteral(b.value) <==> !Parses(b.value, b.dataType, c)
    ensures Parses(b.value, b.dataType, c) ==>
      var t := TermFromJSON(b, c).value;
      t.Literal? && t.lang == "" && t.dataType == b.dataType && ParsedValue(t.val, b.dataType)
    ensures TermFromJSON(b.(lang := lang), c) == TermFromJSON(b, c)
    ensures b.dataType == XsdInteger && c.atoi(b.value).Some? ==>
      TermFromJSON(b, c) == Success(Literal(Int(c.atoi(b.value).value), "", XsdInteger))
    ensures b.dataType == XsdFloat && c.parseFloat(b.value).Some? ==>
      TermFromJSON(b, c) == Success(Literal(Float(c.parseFloat(b.value).value), "", XsdFloat))
    ensures b.dataType == XsdBoolean && c.parseBool(b.value).Some? ==>
      TermFromJSON(b, c) == Success(Literal(Bool(c.parseBool(b.value).value), "", XsdBoolean))
    ensures b.dataType == XsdDateTime && c.parseTime(c.dateFormat, b.value).Some? ==>
      TermFromJSON(b, c) == Success(Literal(DateTime(c.parseTime(c.dateFormat, b.value).value), "", XsdDateTime))
  {
  }

  // ---------------------------------------------------------------------
  // The inverse direction: writing a term as a binding
  // ---------------------------------------------------------------------

  /** The printers that write parsed values back as text. */
  datatype Formatters = Formatters(
    formatInt: int -> string,
    formatFloat: bv64 -> string,
    formatBool: bool -> string,
    formatTime: Time -> string)

  /**
   * The binding a term is written as: nodes by their identifier, string
   * literals as `"literal"` with their language tag, every other literal
   * as `"typed-literal"` with its datatype IRI.
   */
  function TermToJSON(t: Term, f: Formatters): Binding {
    match t
    case Blank(id) => Binding("bnode", id, "", "")
    case IRI(iri) => Binding("uri", iri, "", "")
    case Literal(val, lang, dataType) =>
      match val
      case Str(s) => Binding("literal", s, lang, "")
      case Int(i) => Binding("typed-literal", f.formatInt(i), "", dataType)
      case Float(x) => Binding("typed-literal", f.formatFloat(x), "", dataType)
      case Bool(bo) => Binding("typed-literal", f.formatBool(bo), "", dataType)
      case DateTime(tm) => Binding("typed-literal", f.formatTime(tm), "", dataType)
  }

  /** The parser of the term's literal value reads back what the printer writes. */
  predicate ReadsBack(t: Term, c: Codecs, f: Formatters) {
    t.Literal? ==>
      match t.val
      case Str(_) => true
      case Int(i) => c.atoi(f.formatInt(i)) == Some(i)
      case Float(x) => c.parseFloat(f.formatFloat(x)) == Some(x)
      case Bool(bo) => c.parseBool(f.formatBool(bo)) == Some(bo)
      case DateTime(tm) => c.parseTime(c.dateFormat, f.formatTime(tm)) == Some(tm)
  }

  /**
   * Every term the converter can produce is read back from the binding it
   * is written as, given parsers that invert the printers.
   */
  lemma RoundTrip(t: Term, c: Codecs, f: Formatters)
    requires WellFormed(t) && ReadsBack(t, c, f)
    ensures TermFromJSON(TermToJSON(t, f), c) == Success(t)
  {
  }

  // ---------------------------------------------------------------------
  // The per-variable view: Bindings
  // ---------------------------------------------------------------------

  /** The term a cell resolves to, as a sequence of at most one element. */
  function Resolved(b: Binding, c: Codecs): seq<Term> {
    if TermFromJSON(b, c).Success? then [TermFromJSON(b, c).value] else []
  }

  /** The terms of variable `v` down the rows, in row order, cells that fail left out. */
  function Column(rows: seq<Row>, v: string, c: Codecs): (col: seq<Term>)
    ensures |col| <= |rows|
    decreases |rows|
  {
    if rows == [] then [] else Column(rows[..|rows| - 1], v, c) + Resolved(Cell(rows[|rows| - 1], v), c)
  }

  /** A column is empty exactly when no row's cell for `v` converts. */
  lemma {:induction false} ColumnEmpty(rows: seq<Row>, v: string, c: Codecs)
    ensures Column(rows, v, c) == [] <==> forall i :: 0 <= i < |rows| ==> TermFromJSON(Cell(rows[i], v), c).Failure?
    decreases |rows|
  {
    if rows != [] {
      var prefix := rows[..|rows| - 1];
      ColumnEmpty(prefix, v, c);
      assert forall i :: 0 <= i < |prefix| ==> prefix[i] == rows[i];
    }
  }

  /** A row that does not bind `v` adds nothing to its column: its cell is the zero binding, which fails. */
  lemma MissingCellSkipped(rows: seq<Row>, row: Row, v: string, c: Codecs)
    requires v !in row
    ensures Column(rows + [row], v, c) == Column(rows, v, c)
  {
    assert (rows + [row])[..|rows|] == rows;
    assert TermFromJSON(Unbound, c).Failure?;
    assert Column(rows, v, c) + [] == Column(rows, v, c);
  }

  /** The terms gathered so far under `v`, none when there is no entry. */
  function Get(m: map<string, seq<Term>>, v: string): seq<Term> {
    if v in m then m[v] else []
  }

  /** Append `col` to the entry of `v`; an empty column creates no entry. */
  function Extend(m: map<string, seq<Term>>, v: string, col: seq<Term>): map<string, seq<Term>> {
    if col == [] then m else m[v := Get(m, v) + col]
  }

  /** The map `Bindings` builds: one column appended per variable of the header, in order. */
  function BindingsOf(vars: seq<string>, rows: seq<Row>, c: Codecs): map<string, seq<Term>>
    decreases |vars|
  {
    if vars == [] then map[]
    else
      var v := vars[|vars| - 1];
      Extend(BindingsOf(vars[..|vars| - 1], rows, c), v, Column(rows, v, c))
  }

  /** `s` repeated `n` times. */
  function Rep(s: seq<Term>, n: nat): seq<Term> {
    if n == 0 then [] else Rep(s, n - 1) + s
  }

  /** Reading one more cell of the column of `v`: its term, if any, is appended to the entry. */
  lemma ExtendStep(m: map<string, seq<Term>>, v: string, col: seq<Term>, b: Binding, c: Codecs)
    ensures Extend(m, v, col + Resolved(b, c)) ==
      if TermFromJSON(b, c).Success?
      then Extend(m, v, col)[v := Get(Extend(m, v, col), v) + [TermFromJSON(b, c).value]]
      else Extend(m, v, col)
  {
    if TermFromJSON(b, c).Success? {
      var t := TermFromJSON(b, c).value;
      if col == [] {
        assert col + [t] == [t];
        assert Get(m, v) + [] == Get(m, v);
      } else {
        assert Get(m, v) + (col + [t]) == Get(m, v) + col + [t];
      }
    } else {
      assert col + [] == col;
    }
  }

  lemma ColumnStep(rows: seq<Row>, j: nat, v: string, c: Codecs)
    requires j < |rows|
    ensures Column(rows[..j + 1], v, c) == Column(rows[..j], v, c) + Resolved(Cell(rows[j], v), c)
  {
    assert rows[..j + 1][..j] == rows[..j];
  }

  lemma BindingsStep(vars: seq<string>, i: nat, rows: seq<Row>, c: Codecs)
    requires i < |vars|
    ensures BindingsOf(vars[..i + 1], rows, c) == Extend(BindingsOf(vars[..i], rows, c), vars[i], Column(rows, vars[i], c))
  {
    assert vars[..i + 1][..i] == vars[..i];
  }

  /**
   * `Bindings`: for every variable of the header in turn, and every row in
   * turn, the row's term for that variable is appended to the variable's
   * entry; cells that do not convert, including absent ones, are skipped.
   */
  method Bindings(r: Results, c: Codecs) returns (rb: map<string, seq<Term>>)
    ensures rb == BindingsOf(r.head.vars, r.results.bindings, c)
  {
    var vars := r.head.vars;
    var rows := r.results.bindings;
    rb := map[];
    for i := 0 to |vars|
      invariant rb == BindingsOf(vars[..i], rows, c)
    {
      var v := vars[i];
      ghost var before := rb;
      for j := 0 to |rows|
        invariant rb == Extend(before, v, Column(rows[..j], v, c))
      {
        var b := Cell(rows[j], v);
        var t := TermFromJSON(b, c);
        ColumnStep(rows, j, v, c);
        ExtendStep(before, v, Column(rows[..j], v, c), b, c);
        if t.Success? {
          rb := rb[v := Get(rb, v) + [t.value]];
        }
      }
      assert rows[..|rows|] == rows;
      BindingsStep(vars, i, rows, c);
    }
    assert vars[..|vars|] == vars;
  }

  /**
   * What `Bindings` holds for any name: the variable's column once for every
   * time the header lists it, and an entry exactly when the header lists it
   * and some row gives it a term.
   */
  lemma {:induction false} BindingsOfEntry(vars: seq<string>, rows: seq<Row>, c: Codecs, v: string)
    ensures Get(BindingsOf(vars, rows, c), v) == Rep(Column(rows, v, c), multiset(vars)[v])
    ensures v in BindingsOf(vars, rows, c) <==> v in vars && Column(rows, v, c) != []
    decreases |vars|
  {
    if vars != [] {
      var init := vars[..|vars| - 1];
      var w := vars[|vars| - 1];
      var col := Column(rows, v, c);
      var m := BindingsOf(init, rows, c);
      assert BindingsOf(vars, rows, c) == Extend(m, w, Column(rows, w, c));
      assert vars == init + [w];
      assert multiset(vars)[v] == multiset(init)[v] + (if w == v then 1 else 0);
      assert v in vars <==> v in init || v == w;
      BindingsOfEntry(init, rows, c, v);
      ExtendAt(m, w, Column(rows, w, c), v);
      if w == v {
        RepNonEmpty(col, multiset(vars)[v]);
      }
    }
  }

  /** What appending a column under `w` does to the entry of `v`. */
  lemma ExtendAt(m: map<string, seq<Term>>, w: string, col: seq<Term>, v: string)
    ensures Get(Extend(m, w, col), v) == if w == v then Get(m, v) + col else Get(m, v)
    ensures v in Extend(m, w, col) <==> v in m || (v == w && col != [])
  {
    if col == [] {
      assert Get(m, v) + col == Get(m, v);
    }
  }

  lemma RepNonEmpty(s: seq<Term>, n: nat)
    requires n > 0
    ensures Rep(s, n) == [] <==> s == []
  {
    assert Rep(s, n) == Rep(s, n - 1) + s;
  }

  /** A header that lists each variable once gives each listed variable its column. */
  lemma DistinctVarsGiveColumns(vars: seq<string>, rows: seq<Row>, c: Codecs, v: string)
    requires forall i, j :: 0 <= i < j < |vars| ==> vars[i] != vars[j]
    requires v in vars
    ensures Get(BindingsOf(vars, rows, c), v) == Column(rows, v, c)
  {
    CountOnce(vars, v);
    BindingsOfEntry(vars, rows, c, v);
    assert Rep(Column(rows, v, c), 1) == [] + Column(rows, v, c);
  }

  lemma {:induction false} CountOnce(vars: seq<string>, v: string)
    requires forall i, j :: 0 <= i < j < |vars| ==> vars[i] != vars[j]
    requires v in vars
    ensures multiset(vars)[v] == 1
    decreases |vars|
  {
    var init := vars[..|vars| - 1];
    var w := vars[|vars| - 1];
    assert vars == init + [w];
    assert multiset(vars) == multiset(init) + multiset{w};
    if w == v {
      assert v !in init by {
        forall k | 0 <= k < |init| ensures init[k] != v {
          assert init[k] == vars[k];
        }
      }
    } else {
      assert v in init;
      CountOnce(init, v);
    }
  }

  /**
   * A header that lists each variable once, every one of which some row
   * gives a term, yields one entry per variable.
   */
  lemma {:induction false} BoundCount(vars: seq<string>, rows: seq<Row>, c: Codecs)
    requires forall i, j :: 0 <= i < j < |vars| ==> vars[i] != vars[j]
    requires forall i :: 0 <= i < |vars| ==> Column(rows, vars[i], c) != []
    ensures |BindingsOf(vars, rows, c).Keys| == |vars|
    decreases |vars|
  {
    if vars != [] {
      DistinctPrefix(vars, rows, c);
      BoundCount(vars[..|vars| - 1], rows, c);
      AddFreshVar(vars, rows, c);
    }
  }

  /** Dropping the last of distinct variables with terms leaves distinct variables with terms, without it. */
  lemma DistinctPrefix(vars: seq<string>, rows: seq<Row>, c: Codecs)
    requires vars != []
    requires forall i, j :: 0 <= i < j < |vars| ==> vars[i] != vars[j]
    requires forall i :: 0 <= i < |vars| ==> Column(rows, vars[i], c) != []
    ensures var init := vars[..|vars| - 1];
      && (forall i, j :: 0 <= i < j < |init| ==> init[i] != init[j])
      && (forall i :: 0 <= i < |init| ==> Column(rows, init[i], c) != [])
      && vars[|vars| - 1] !in init
  {
    var init := vars[..|vars| - 1];
    assert forall i :: 0 <= i < |init| ==> init[i] == vars[i];
  }

  /** A last head variable not listed before, with a term somewhere, adds one entry. */
  lemma AddFreshVar(vars: seq<string>, rows: seq<Row>, c: Codecs)
    requires vars != [] && vars[|vars| - 1] !in vars[..|vars| - 1]
    requires Column(rows, vars[|vars| - 1], c) != []
    ensures |BindingsOf(vars, rows, c).Keys| == |BindingsOf(vars[..|vars| - 1], rows, c).Keys| + 1
  {
    var init := vars[..|vars| - 1];
    var w := vars[|vars| - 1];
    BindingsOfEntry(init, rows, c, w);
    assert BindingsOf(vars, rows, c).Keys == BindingsOf(init, rows, c).Keys + {w};
  }

  // ---------------------------------------------------------------------
  // The per-row view: Solutions
  // ---------------------------------------------------------------------

  /**
   * The solution of one row: every variable the row binds to a term that
   * converts, with that term.  It holds exactly the row's cells with a
   * known type tag.
   */
  function SolutionOf(row: Row, c: Codecs): (s: map<string, Term>)
    ensures forall k :: k in s <==> k in row && KnownKind(row[k].kind)
  {
    map k | k in row && TermFromJSON(row[k], c).Success? :: TermFromJSON(row[k], c).value
  }

  /** A cell with a known type tag is in the row's solution as the term it converts to. */
  lemma SolutionAt(row: Row, k: string, c: Codecs)
    requires k in row && KnownKind(row[k].kind)
    ensures k in SolutionOf(row, c) && SolutionOf(row, c)[k] == TermFromJSON(row[k], c).value
  {
  }

  /**
   * `Solutions`: one solution per row, in row order; within a row the
   * cells are visited in any order, and the cells that do not convert are
   * left out.
   */
  method Solutions(r: Results, c: Codecs) returns (rs: seq<map<string, Term>>)
    ensures |rs| == |r.results.bindings|
    ensures forall i :: 0 <= i < |rs| ==> rs[i] == SolutionOf(r.results.bindings[i], c)
  {
    var rows := r.results.bindings;
    rs := [];
    for i := 0 to |rows|
      invariant |rs| == i
      invariant forall j :: 0 <= j < i ==> rs[j] == SolutionOf(rows[j], c)
    {
      var s := rows[i];
      var solution: map<string, Term> := map[];
      var pending := s.Keys;
      while pending != {}
        invariant pending <= s.Keys
        invariant forall k :: k in solution <==> k in s && k !in pending && TermFromJSON(s[k], c).Success?
        invariant forall k :: k in solution ==> solution[k] == TermFromJSON(s[k], c).value
        decreases |pending|
      {
        var k :| k in pending;
        var term := TermFromJSON(s[k], c);
        if term.Success? {
          solution := solution[k := term.value];
        }
        pending := pending - {k};
      }
      assert solution == SolutionOf(s, c);
      rs := rs + [solution];
    }
  }

  /** The terms of variable `v` in a sequence of solutions, in order, where it is bound. */
  function Project(sols: seq<map<string, Term>>, v: string): seq<Term>
    decreases |sols|
  {
    if sols == [] then []
    else
      var last := sols[|sols| - 1];
      Project(sols[..|sols| - 1], v) + (if v in last then [last[v]] else [])
  }

  /** The solutions of all rows, as `Solutions` returns them. */
  function SolutionsOf(rows: seq<Row>, c: Codecs): (sols: seq<map<string, Term>>)
    ensures |sols| == |rows|
  {
    seq(|rows|, i requires 0 <= i < |rows| => SolutionOf(rows[i], c))
  }

  /**
   * The two views agree: a variable's column is what its name picks out of
   * the per-row solutions, in row order.
   */
  lemma {:induction false} ColumnIsProjection(rows: seq<Row>, v: string, c: Codecs)
    ensures Column(rows, v, c) == Project(SolutionsOf(rows, c), v)
    decreases |rows|
  {
    if rows != [] {
      var init := rows[..|rows| - 1];
      var last := rows[|rows| - 1];
      var sols := SolutionsOf(rows, c);
      assert sols[..|sols| - 1] == SolutionsOf(init, c);
      assert sols[|sols| - 1] == SolutionOf(last, c);
      ColumnIsProjection(init, v, c);
      assert Resolved(Cell(last, v), c) == (if v in SolutionOf(last, c) then [SolutionOf(last, c)[v]] else []);
    }
  }

  /** A variable that no row binds gets no entry from `Bindings`. */
  lemma UnboundVariableAbsent(vars: seq<string>, rows: seq<Row>, c: Codecs, v: string)
    requires forall i :: 0 <= i < |rows| ==> v !in rows[i]
    ensures v !in BindingsOf(vars, rows, c)
  {
    ColumnIsProjection(rows, v, c);
    ProjectAbsent(SolutionsOf(rows, c), v);
    BindingsOfEntry(vars, rows, c, v);
  }

  lemma {:induction false} ProjectAbsent(sols: seq<map<string, Term>>, v: string)
    requires forall i :: 0 <= i < |sols| ==> v !in sols[i]
    ensures Project(sols, v) == []
    decreases |sols|
  {
    if sols != [] {
      var init := sols[..|sols| - 1];
      assert forall i :: 0 <= i < |init| ==> init[i] == sols[i];
      ProjectAbsent(init, v);
    }
  }
}
