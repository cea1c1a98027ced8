/**
 * `LoadBank` of bank.go: the loader of the `sparql` package.  The reader
 * is given as the sequence of lines its line scanner yields.
 */
module SparqlBank {
  import opened Wrappers
  import opened QueryBank

  /**
   * Reads the lines once, keeping the lines of each tagged block in a
   * buffer and storing the buffer under the block's tag, then strips
   * excessive whitespace from every stored query.  The result is the bank
   * the loader's specification describes, and every query in it is clean.
   */
  method LoadBank(lines: seq<string>) returns (bank: map<string, string>)
    ensures bank == Loaded(lines)
    ensures forall k :: k in bank ==> CleanQuery(bank[k])
  {
    bank := map[];
    var keepLineState := false;
    var b := "";
    var key := "";
    var i := 0;
    while i < |lines|
      invariant 0 <= i <= |lines|
      invariant ScanState(keepLineState, key, b, bank) == Scan(lines[..i])
    {
      var line := lines[i];
      match TagName(line) {
        case Some(keyCandidate) =>
          if keyCandidate != key && keepLineState {
            bank := bank[key := b];
            b := "";
          }
          key := keyCandidate;
          keepLineState := true;
        case None =>
      }
      if keepLineState && !IsComment(line) {
        b := b + line + " ";
        bank := bank[key := b];
      }
      assert lines[..i + 1][..i] == lines[..i];
      i := i + 1;
    }

    var raw := bank;
    var pending := bank.Keys;
    while pending != {}
      invariant pending <= raw.Keys == bank.Keys
      invariant forall k :: k in bank ==> bank[k] == if k in pending then raw[k] else StripLine(raw[k])
      decreases |pending|
    {
      var k :| k in pending;
      bank := bank[k := StripLine(bank[k])];
      pending := pending - {k};
    }
    assert lines[..|lines|] == lines;
    LoadedQueriesClean(lines);
  }
}
