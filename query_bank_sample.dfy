/**
 * The sample bank of the package's own test, loaded through the loader's
 * specification: three queries, and `q0` exactly as `Prepare` returns it
 * without template arguments.
 */
module QueryBankSample {
  import opened Wrappers
  import opened QueryBank

  // The comment lines are written as `"# " + text` so that proofs can use
  // CommentLine instead of unfolding the tag matcher over a literal, which
  // the solver does not finish.

  /** The lines before the first tag: a blank line and a plain comment. */
  const Preamble: seq<string> := ["", "# " + "Some comment; should be ignored"]

  const BlockQ0: seq<string> := ["# tag: q0", "SELECT * WHERE { ?s ?p ?o }", ""]

  const BlockQ1: seq<string> :=
    ["# tag: q1", "SELECT *", "WHERE", " {", "  ?s ?p ?o", "  FILTER(?s = <{{.Subj}}>)", " }", "",
     "# " + "another comment", ""]

  const BlockQ2: seq<string> :=
    ["# tag: q2", "SELECT ?s", "WHERE { ?s ?p    ?o }", "LIMIT {{.L}}", "OFFSET {{.O}}"]

  /** The test bank, one string per line as the line scanner yields them. */
  const SampleBank: seq<string> := Preamble + BlockQ0 + BlockQ1 + BlockQ2

  /** What a run of body lines appends to the buffer: one BodyPiece per line. */
  function Pieces(body: seq<string>): string
    decreases |body|
  {
    if body == [] then "" else Pieces(body[..|body| - 1]) + BodyPiece(body[|body| - 1])
  }

  /** No line is a tag line. */
  predicate NoTags(lines: seq<string>) {
    forall i :: 0 <= i < |lines| ==> TagName(lines[i]).None?
  }

  /** A line that is not a tag line, read while keeping, adds its piece to the buffer. */
  lemma TextStep(st: ScanState, line: string)
    requires st.keep && TagName(line).None?
    ensures Step(st, line) ==
      if IsComment(line) then st
      else st.(buf := st.buf + BodyPiece(line), bank := st.bank[st.key := st.buf + BodyPiece(line)])
  {
    assert st.buf + line + " " == st.buf + (line + " ");
  }

  /**
   * Body lines read while keeping extend the buffer by their pieces, and the
   * bank entry of the key is the buffer once some non-`#` line was read.
   */
  lemma {:induction false} RunBody(st: ScanState, body: seq<string>)
    requires st.keep && NoTags(body)
    ensures Run(st, body).keep && Run(st, body).key == st.key
    ensures Run(st, body).buf == st.buf + Pieces(body)
    ensures Run(st, body).bank == if Pieces(body) == "" then st.bank else st.bank[st.key := st.buf + Pieces(body)]
    decreases |body|
  {
    if body == [] {
      assert st.buf + "" == st.buf;
    } else {
      var init := body[..|body| - 1];
      var line := body[|body| - 1];
      assert NoTags(init) by {
        assert forall i :: 0 <= i < |init| ==> init[i] == body[i];
      }
      RunBody(st, init);
      var mid := Run(st, init);
      assert Run(st, body) == Step(mid, line);
      assert TagName(line).None?;
      TextStep(mid, line);
      ConcatAssoc(st.buf, Pieces(init), BodyPiece(line));
    }
  }

  /** A tag line of a fresh name followed by its body. */
  lemma RunBlock(st: ScanState, tag: string, name: string, body: seq<string>)
    requires TagName(tag) == Some(name) && NoTags(body)
    requires st.keep ==> name != st.key
    requires !st.keep ==> st.buf == ""
    ensures Run(st, [tag] + body) ==
      var flushed := if st.keep then st.bank[st.key := st.buf] else st.bank;
      var text := Pieces(body);
      ScanState(true, name, text, if text == "" then flushed else flushed[name := text])
  {
    RunAppend(st, [tag], body);
    assert [tag][..0] == [];
    RunBody(Step(st, tag), body);
    assert "" + Pieces(body) == Pieces(body);
  }

  /** A `#` line whose text after `# ` starts with neither whitespace nor `t` is no tag line. */
  lemma CommentLine(text: string)
    requires |text| > 0 && !IsSpace(text[0]) && text[0] != 't'
    ensures TagName("# " + text).None?
  {
    var line := "# " + text;
    assert line[1..] == [' '] + text;
    SpaceRunOfPrefix([' '], text);
  }

  lemma PreambleHasNoTags()
    ensures NoTags(Preamble)
  {
    var text := "Some comment; should be ignored";
    assert text[0] == 'S';
    CommentLine(text);
  }

  /** The body of `q0`: one query line and a blank line. */
  lemma BodyQ0()
    ensures NoTags(BlockQ0[1..])
    ensures Pieces(BlockQ0[1..]) == RawQ0
  {
    var q := "SELECT * WHERE { ?s ?p ?o }";
    var body := BlockQ0[1..];
    assert body == [q, ""];
    assert !IsComment(q) && !IsComment("");
    assert body[..1] == [q];
    assert [q][..0] == [];
    assert Pieces([q]) == q + " ";
    assert Pieces(body) == Pieces([q]) + BodyPiece("");
    assert q + " " + ("" + " ") == RawQ0;
  }

  lemma BlockQ0Run()
    ensures Run(Start, BlockQ0) == ScanState(true, "q0", RawQ0, map["q0" := RawQ0])
  {
    TagLineOf("q0");
    assert "# tag: " + "q0" == "# tag: q0";
    assert BlockQ0 == ["# tag: q0"] + BlockQ0[1..];
    BodyQ0();
    RunBlock(Start, "# tag: q0", "q0", BlockQ0[1..]);
  }

  /** A body that ends in a non-`#` line adds something to the buffer. */
  lemma PiecesNonEmpty(body: seq<string>)
    requires body != [] && !IsComment(body[|body| - 1])
    ensures Pieces(body) != ""
  {
    assert |BodyPiece(body[|body| - 1])| > 0;
  }

  lemma BodyQ1()
    ensures NoTags(BlockQ1[1..]) && Pieces(BlockQ1[1..]) != ""
  {
    var body := BlockQ1[1..];
    var text := "another comment";
    assert text[0] == 'a';
    CommentLine(text);
    assert |body| == 9 && body[7] == "# " + text && body[8] == "";
    forall i | 0 <= i < |body| ensures TagName(body[i]).None? {
      if i != 7 {
        assert body[i] == BlockQ1[i + 1];
        assert !IsComment(BlockQ1[i + 1]);
      }
    }
    PiecesNonEmpty(body);
  }

  lemma BodyQ2()
    ensures NoTags(BlockQ2[1..]) && Pieces(BlockQ2[1..]) != ""
  {
    var body := BlockQ2[1..];
    assert body == ["SELECT ?s", "WHERE { ?s ?p    ?o }", "LIMIT {{.L}}", "OFFSET {{.O}}"];
    assert forall i :: 0 <= i < |body| ==> !IsComment(body[i]);
    PiecesNonEmpty(body);
  }

  /** The raw text of `q0`: the query line and the blank line, each followed by a space. */
  const RawQ0 := "SELECT * WHERE { ?s ?p ?o }  "

  lemma ScanThroughQ0()
    ensures Scan(Preamble + BlockQ0) == ScanState(true, "q0", RawQ0, map["q0" := RawQ0])
  {
    PreambleHasNoTags();
    RunWithoutTags(Preamble);
    RunAppend(Start, Preamble, BlockQ0);
    BlockQ0Run();
  }

  lemma BlockQ1Run(st: ScanState)
    requires st.keep && st.key != "q1"
    ensures Run(st, BlockQ1) == ScanState(true, "q1", Pieces(BlockQ1[1..]), st.bank[st.key := st.buf]["q1" := Pieces(BlockQ1[1..])])
  {
    TagLineOf("q1");
    assert "# tag: " + "q1" == "# tag: q1";
    assert BlockQ1 == ["# tag: q1"] + BlockQ1[1..];
    BodyQ1();
    RunBlock(st, "# tag: q1", "q1", BlockQ1[1..]);
  }

  lemma ScanThroughQ1()
    ensures var p1 := Pieces(BlockQ1[1..]);
      Scan(Preamble + BlockQ0 + BlockQ1) == ScanState(true, "q1", p1, map["q0" := RawQ0, "q1" := p1])
  {
    var s0 := ScanState(true, "q0", RawQ0, map["q0" := RawQ0]);
    ScanThroughQ0();
    BlockQ1Run(s0);
    RunAppend(Start, Preamble + BlockQ0, BlockQ1);
  }

  lemma BlockQ2Run(st: ScanState)
    requires st.keep && st.key != "q2"
    ensures Run(st, BlockQ2) == ScanState(true, "q2", Pieces(BlockQ2[1..]), st.bank[st.key := st.buf]["q2" := Pieces(BlockQ2[1..])])
  {
    TagLineOf("q2");
    assert "# tag: " + "q2" == "# tag: q2";
    assert BlockQ2 == ["# tag: q2"] + BlockQ2[1..];
    BodyQ2();
    RunBlock(st, "# tag: q2", "q2", BlockQ2[1..]);
  }

  lemma ScanThroughQ2()
    ensures var p1 := Pieces(BlockQ1[1..]); var p2 := Pieces(BlockQ2[1..]);
      Scan(Preamble + BlockQ0 + BlockQ1 + BlockQ2) == ScanState(true, "q2", p2, map["q0" := RawQ0, "q1" := p1, "q2" := p2])
  {
    var p1 := Pieces(BlockQ1[1..]);
    var s1 := ScanState(true, "q1", p1, map["q0" := RawQ0, "q1" := p1]);
    ScanThroughQ1();
    BlockQ2Run(s1);
    RunAppend(Start, Preamble + BlockQ0 + BlockQ1, BlockQ2);
  }

  /** The raw bank of the sample: one entry per tag, `q0` with its two trailing spaces. */
  lemma SampleScan()
    ensures Scan(SampleBank).bank.Keys == {"q0", "q1", "q2"}
    ensures Scan(SampleBank).bank["q0"] == RawQ0
  {
    ScanThroughQ2();
    assert SampleBank == Preamble + BlockQ0 + BlockQ1 + BlockQ2;
  }

  /** Two spaces strip to one. */
  lemma StripTwoSpaces()
    ensures StripLine("  ") == " "
  {
    assert SpaceRun("  ") == 2 by {
      assert "  "[1..] == " " && " "[1..] == "";
    }
    assert "  "[2..] == "";
  }

  /** The query line of `q0` is already clean. */
  lemma QueryQ0Clean()
    ensures StripLine("SELECT * WHERE { ?s ?p ?o }") == "SELECT * WHERE { ?s ?p ?o }"
  {
    QueryQ0SingleSpaced();
    StripLineFixesClean("SELECT * WHERE { ?s ?p ?o }");
  }

  lemma QueryQ0SingleSpaced()
    ensures NoDoubleSpace("SELECT * WHERE { ?s ?p ?o }")
  {
  }

  /** Stripping `q0` folds its two trailing spaces into one. */
  lemma StripQ0()
    ensures StripLine(RawQ0) == "SELECT * WHERE { ?s ?p ?o } "
  {
    var x := "SELECT * WHERE { ?s ?p ?o }";
    assert RawQ0 == x + "  ";
    assert x[|x| - 1] == '}';
    StripLineSplit(x, "  ");
    QueryQ0Clean();
    StripTwoSpaces();
    assert x + " " == "SELECT * WHERE { ?s ?p ?o } ";
  }

  /** The sample bank holds three queries, and `q0` is the one the test expects. */
  lemma SampleLoaded()
    ensures Loaded(SampleBank).Keys == {"q0", "q1", "q2"}
    ensures Loaded(SampleBank)["q0"] == "SELECT * WHERE { ?s ?p ?o } "
  {
    SampleScan();
    StripQ0();
  }

  /**
   * `Prepare("q0")` with no template argument returns the stored query as
   * it is, and `Prepare("q3")` fails: there is no such key.
   */
  lemma SamplePrepare<D>(render: (string, D) -> Result<string, string>)
    ensures Prepare(Loaded(SampleBank), "q0", [], render) == Success("SELECT * WHERE { ?s ?p ?o } ")
    ensures Prepare(Loaded(SampleBank), "q3", [], render) == Failure(NoQuery("q3"))
  {
    SampleLoaded();
    assert "q3" !in Loaded(SampleBank);
  }
}
