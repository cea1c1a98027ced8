/**
 * `Load` of bank/bank.go: the loader of the standalone `bank` package, a
 * copy of the `sparql` package's loader with its own variable names.  The
 * reader is given as the sequence of lines its line scanner yields.
 */
module BankPackage {
  import opened Wrappers
  import opened QueryBank

  /**
   * One pass over the lines fills the bank block by block; a second pass
   * over its keys, in any order, strips every query.  The result is the
   * bank the loader's specification describes, and every query in it is
   * clean.
   */
  method Load(lines: seq<string>) returns (b: map<string, string>)
    ensures b == Loaded(lines)
    ensures forall k :: k in b ==> CleanQuery(b[k])
  {
    b := map[];
    var keepLineState := false;
    var buf := "";
    var key := "";
    for n := 0 to |lines|
      invariant ScanState(keepLineState, key, buf, b) == Scan(lines[..n])
    {
      var line := lines[n];
      var tag := TagName(line);
      if tag.Some? {
        var keyCandidate := tag.value;
        if keyCandidate != key && keepLineState {
          b := b[key := buf];
          buf := "";
        }
        key := keyCandidate;
        keepLineState := true;
      }
      if keepLineState && !IsComment(line) {
        buf := buf + line + " ";
        b := b[key := buf];
      }
      assert lines[..n + 1][..n] == lines[..n];
    }

    var unstripped := b;
    var todo := b.Keys;
    while todo != {}
      invariant todo <= unstripped.Keys == b.Keys
      invariant forall k :: k in b ==> b[k] == if k in todo then unstripped[k] else StripLine(unstripped[k])
      decreases |todo|
    {
      var k :| k in todo;
      b := b[k := StripLine(b[k])];
      todo := todo - {k};
    }
    assert lines[..|lines|] == lines;
    LoadedQueriesClean(lines);
  }
}
