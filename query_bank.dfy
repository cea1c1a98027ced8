/**
 * The query bank: a text of `# tag: name` headed blocks split into a map from
 * name to query text.  This module holds what bank.go and bank/bank.go share
 * word for word: the three regular expressions (as hand-written predicates),
 * `stripLine`, the line-by-line state machine of the loader as a
 * specification, what that machine is proved to compute, and `Prepare`.
 * The two loaders themselves are methods in SparqlBank and BankPackage.
 */
module QueryBank {
  import opened Wrappers

  // ---------------------------------------------------------------------
  // Character classes of Go's RE2 syntax
  // ---------------------------------------------------------------------

  /** `\s`: tab, newline, form feed, carriage return and space. */
  predicate IsSpace(c: char) {
    c == '\t' || c == '\n' || c == '\U{000C}' || c == '\r' || c == ' '
  }

  /** `[\w-]`: ASCII letters and digits, underscore and hyphen. */
  predicate IsNameChar(c: char) {
    ('0' <= c <= '9') || ('A' <= c <= 'Z') || ('a' <= c <= 'z') || c == '_' || c == '-'
  }

  predicate AllSpace(s: string) {
    forall i :: 0 <= i < |s| ==> IsSpace(s[i])
  }

  predicate AllName(s: string) {
    forall i :: 0 <= i < |s| ==> IsNameChar(s[i])
  }

  /** Length of the leading run of whitespace (greedy `\s*`). */
  function SpaceRun(s: string): (n: nat)
    ensures n <= |s| && AllSpace(s[..n])
    ensures n < |s| ==> !IsSpace(s[n])
    decreases |s|
  {
    if s == [] || !IsSpace(s[0]) then 0
    else
      var m := SpaceRun(s[1..]);
      assert s[..1 + m] == s[..1] + s[1..][..m];
      1 + m
  }

  /** Length of the leading run of name characters (greedy `[\w-]*`). */
  function NameRun(s: string): (n: nat)
    ensures n <= |s| && AllName(s[..n])
    ensures n < |s| ==> !IsNameChar(s[n])
    decreases |s|
  {
    if s == [] || !IsNameChar(s[0]) then 0
    else
      var m := NameRun(s[1..]);
      assert s[..1 + m] == s[..1] + s[1..][..m];
      1 + m
  }

  // ---------------------------------------------------------------------
  // The three matchers
  // ---------------------------------------------------------------------

  /** `commentMatcher`, `^#`: the line starts with a hash. */
  predicate IsComment(line: string) {
    |line| > 0 && line[0] == '#'
  }

  /**
   * `tagMatcher`, `^#\s*tag:\s+([\w-]+)\s*$`, with the submatch the loader
   * reads: the captured name when the whole line matches, None otherwise.
   * The pattern is read left to right in four stages, one per function.
   */
  function TagName(line: string): (r: Option<string>)
    ensures r.Some? ==> IsComment(line) && |r.value| > 0 && AllName(r.value)
  {
    if IsComment(line) then MatchAfterHash(line[1..]) else None
  }

  /** `\s*tag:` then the rest. */
  function MatchAfterHash(s: string): Option<string> {
    var rest := s[SpaceRun(s)..];
    if |rest| >= 4 && rest[..4] == "tag:" then MatchAfterKeyword(rest[4..]) else None
  }

  /** `\s+` then the rest. */
  function MatchAfterKeyword(s: string): Option<string> {
    var gap := SpaceRun(s);
    if gap > 0 then MatchName(s[gap..]) else None
  }

  /** `([\w-]+)\s*$`, giving the capture. */
  function MatchName(s: string): (r: Option<string>)
    ensures r.Some? ==> |r.value| > 0 && AllName(r.value)
  {
    var n := NameRun(s);
    if n > 0 && AllSpace(s[n..]) then Some(s[..n]) else None
  }

  /** The shape the tag pattern describes, with its four variable parts. */
  ghost predicate TagLineShape(line: string, a: string, b: string, name: string, c: string) {
    && line == "#" + a + "tag:" + b + name + c
    && AllSpace(a) && AllSpace(b) && |b| > 0
    && |name| > 0 && AllName(name) && AllSpace(c)
  }

  /** Every line TagName accepts has the shape of the pattern, and the name is the capture. */
  lemma TagNameSound(line: string) returns (a: string, b: string, c: string)
    requires TagName(line).Some?
    ensures TagLineShape(line, a, b, TagName(line).value, c)
  {
    a, b, c := MatchAfterHashSound(line[1..]);
    JoinHash(line, a, b, TagName(line).value, c);
  }

  lemma JoinHash(line: string, a: string, b: string, name: string, c: string)
    requires |line| > 0 && line[0] == '#' && line[1..] == a + "tag:" + b + name + c
    ensures line == "#" + a + "tag:" + b + name + c
  {
    assert line == [line[0]] + line[1..];
  }

  lemma MatchAfterHashSound(s: string) returns (a: string, b: string, c: string)
    requires MatchAfterHash(s).Some?
    ensures AllSpace(a) && AllSpace(b) && |b| > 0 && AllSpace(c)
    ensures s == a + "tag:" + b + MatchAfterHash(s).value + c
  {
    a := s[..SpaceRun(s)];
    var rest := s[|a|..];
    b, c := MatchAfterKeywordSound(rest[4..]);
    JoinKeyword(s, a, rest, b, MatchAfterKeyword(rest[4..]).value, c);
  }

  lemma JoinKeyword(s: string, a: string, rest: string, b: string, name: string, c: string)
    requires |a| <= |s| && a == s[..|a|] && rest == s[|a|..]
    requires |rest| >= 4 && rest[..4] == "tag:" && rest[4..] == b + name + c
    ensures s == a + "tag:" + b + name + c
  {
    assert s == a + rest;
    assert rest == rest[..4] + rest[4..];
  }

  lemma MatchAfterKeywordSound(s: string) returns (b: string, c: string)
    requires MatchAfterKeyword(s).Some?
    ensures AllSpace(b) && |b| > 0 && AllSpace(c)
    ensures s == b + MatchAfterKeyword(s).value + c
  {
    b := s[..SpaceRun(s)];
    var tail := s[|b|..];
    var name := tail[..NameRun(tail)];
    c := tail[|name|..];
    assert tail == name + c;
    assert s == b + tail;
  }

  /** Every line of the pattern's shape is accepted, and the capture is the name. */
  lemma TagNameComplete(line: string, a: string, b: string, name: string, c: string)
    requires TagLineShape(line, a, b, name, c)
    ensures TagName(line) == Some(name)
  {
    assert line[1..] == a + ("tag:" + (b + (name + c)));
    MatchAfterHashComplete(a, b, name, c);
  }

  lemma MatchAfterHashComplete(a: string, b: string, name: string, c: string)
    requires AllSpace(a) && AllSpace(b) && |b| > 0 && |name| > 0 && AllName(name) && AllSpace(c)
    ensures MatchAfterHash(a + ("tag:" + (b + (name + c)))) == Some(name)
  {
    var s := a + ("tag:" + (b + (name + c)));
    SpaceRunOfPrefix(a, "tag:" + (b + (name + c)));
    assert s[|a|..] == "tag:" + (b + (name + c));
    assert s[|a|..][4..] == b + (name + c);
    MatchAfterKeywordComplete(b, name, c);
  }

  lemma MatchAfterKeywordComplete(b: string, name: string, c: string)
    requires AllSpace(b) && |b| > 0 && |name| > 0 && AllName(name) && AllSpace(c)
    ensures MatchAfterKeyword(b + (name + c)) == Some(name)
  {
    SpaceRunOfPrefix(b, name + c);
    assert (b + (name + c))[|b|..] == name + c;
    NameRunOfPrefix(name, c);
    assert (name + c)[..|name|] == name && (name + c)[|name|..] == c;
  }

  /** `# tag: name` is a tag line of `name`. */
  lemma TagLineOf(name: string)
    requires |name| > 0 && AllName(name)
    ensures TagName("# tag: " + name) == Some(name)
  {
    assert "# tag: " + name == "#" + " " + "tag:" + " " + name + "";
    TagNameComplete("# tag: " + name, " ", " ", name, "");
  }

  lemma {:induction false} SpaceRunOfPrefix(a: string, x: string)
    requires AllSpace(a)
    requires x == [] || !IsSpace(x[0])
    ensures SpaceRun(a + x) == |a|
    decreases |a|
  {
    if a == [] {
      assert a + x == x;
    } else {
      assert (a + x)[1..] == a[1..] + x;
      SpaceRunOfPrefix(a[1..], x);
    }
  }

  lemma {:induction false} NameRunOfPrefix(a: string, x: string)
    requires AllName(a)
    requires x == [] || !IsNameChar(x[0])
    ensures NameRun(a + x) == |a|
    decreases |a|
  {
    if a == [] {
      assert a + x == x;
    } else {
      assert (a + x)[1..] == a[1..] + x;
      NameRunOfPrefix(a[1..], x);
    }
  }

  // ---------------------------------------------------------------------
  // stripLine
  // ---------------------------------------------------------------------

  /** No two adjacent characters are both whitespace. */
  predicate NoDoubleSpace(s: string) {
    forall i :: 0 <= i < |s| - 1 ==> !(IsSpace(s[i]) && IsSpace(s[i + 1]))
  }

  /** The characters of `s` that are not whitespace, in order. */
  function NonSpace(s: string): string
    decreases |s|
  {
    if s == [] then []
    else (if IsSpace(s[0]) then [] else [s[0]]) + NonSpace(s[1..])
  }

  lemma {:induction false} NonSpaceSkipsSpaces(s: string, n: nat)
    requires n <= |s| && AllSpace(s[..n])
    ensures NonSpace(s) == NonSpace(s[n..])
    decreases n
  {
    if n > 0 {
      assert s[1..][..n - 1] == s[..n][1..];
      NonSpaceSkipsSpaces(s[1..], n - 1);
      assert s[1..][n - 1..] == s[n..];
    }
  }

  /**
   * `stripLine`: `\s{2,}` replaced by one space.  Matches are found left to
   * right and the quantifier is greedy, so every maximal run of two or more
   * whitespace characters becomes a single space, and a lone whitespace
   * character is left as it is.
   */
  function StripLine(s: string): (r: string)
    ensures |r| <= |s|
    ensures |s| > 0 ==> |r| > 0 && (IsSpace(r[0]) <==> IsSpace(s[0]))
    decreases |s|
  {
    if s == [] then []
    else if IsSpace(s[0]) then
      var n := SpaceRun(s);
      (if n >= 2 then " " else s[..1]) + StripLine(s[n..])
    else
      s[..1] + StripLine(s[1..])
  }

  /** After stripping, no two adjacent characters are whitespace. */
  lemma {:induction false} StripLineNoDoubleSpace(s: string)
    ensures NoDoubleSpace(StripLine(s))
    decreases |s|
  {
    if s != [] {
      var n := if IsSpace(s[0]) then SpaceRun(s) else 1;
      var rest := s[n..];
      StripLineNoDoubleSpace(rest);
      assert n < |s| ==> rest[0] == s[n];
    }
  }

  /** Stripping keeps every visible character, in order. */
  lemma {:induction false} StripLineKeepsText(s: string)
    ensures NonSpace(StripLine(s)) == NonSpace(s)
    decreases |s|
  {
    if s != [] {
      var r := StripLine(s);
      if IsSpace(s[0]) {
        var n := SpaceRun(s);
        StripLineKeepsText(s[n..]);
        NonSpaceSkipsSpaces(s, n);
        assert r[1..] == StripLine(s[n..]);
      } else {
        StripLineKeepsText(s[1..]);
        assert r[1..] == StripLine(s[1..]);
      }
    }
  }

  /** A text ending in a space still ends in a space after stripping. */
  lemma {:induction false} StripLineKeepsFinalSpace(s: string)
    requires |s| > 0 && s[|s| - 1] == ' '
    ensures StripLine(s)[|StripLine(s)| - 1] == ' '
    decreases |s|
  {
    var n := if IsSpace(s[0]) then SpaceRun(s) else 1;
    if n < |s| {
      StripLineKeepsFinalSpace(s[n..]);
    }
  }

  /** A text without double whitespace is left unchanged. */
  lemma {:induction false} StripLineFixesClean(s: string)
    requires NoDoubleSpace(s)
    ensures StripLine(s) == s
    decreases |s|
  {
    if s != [] {
      var t := s[1..];
      NoDoubleSpaceTail(s);
      StripLineFixesClean(t);
      if IsSpace(s[0]) {
        LoneSpace(s);
      }
      assert StripLine(s) == s[..1] + StripLine(t);
      assert s[..1] + t == s;
    }
  }

  lemma NoDoubleSpaceTail(s: string)
    requires s != [] && NoDoubleSpace(s)
    ensures NoDoubleSpace(s[1..])
  {
    var t := s[1..];
    forall i | 0 <= i < |t| - 1 ensures !(IsSpace(t[i]) && IsSpace(t[i + 1])) {
      assert t[i] == s[i + 1] && t[i + 1] == s[i + 2];
    }
  }

  /** In a text without double whitespace, a leading whitespace run has length one. */
  lemma LoneSpace(s: string)
    requires s != [] && IsSpace(s[0]) && NoDoubleSpace(s)
    ensures SpaceRun(s) == 1
  {
    if |s| > 1 {
      assert !IsSpace(s[1]);
      assert s[1..][0] == s[1];
    }
  }

  /** A whitespace run followed by a non-space is not lengthened by what follows. */
  lemma SpaceRunAppend(x: string, y: string)
    requires SpaceRun(x) < |x|
    ensures SpaceRun(x + y) == SpaceRun(x)
  {
    var n := SpaceRun(x);
    assert x[..n] + (x[n..] + y) == x + y;
    SpaceRunOfPrefix(x[..n], x[n..] + y);
  }

  /** StripLine on a string that starts with a whitespace run of length `n`, unfolded once. */
  lemma StripLineAtSpace(s: string, n: nat)
    requires |s| > 0 && IsSpace(s[0]) && n == SpaceRun(s)
    ensures StripLine(s) == (if n >= 2 then " " else s[..1]) + StripLine(s[n..])
  {
  }

  lemma ConcatAssoc<T>(h: seq<T>, a: seq<T>, b: seq<T>)
    ensures h + (a + b) == (h + a) + b
  {
  }

  lemma AppendSlices<T>(x: seq<T>, y: seq<T>, n: nat)
    requires 0 < n <= |x|
    ensures (x + y)[..1] == x[..1] && (x + y)[n..] == x[n..] + y
  {
  }

  /** Appending to a string that starts with a whitespace run does not change how that run is stripped. */
  lemma StripLineAtSpaceAppend(x: string, y: string, n: nat)
    requires 0 < n < |x| && n == SpaceRun(x) && IsSpace(x[0])
    ensures StripLine(x + y) == (if n >= 2 then " " else x[..1]) + StripLine(x[n..] + y)
  {
    AppendSlices(x, y, n);
    SpaceRunAppend(x, y);
    StripLineAtSpace(x + y, n);
  }

  /** One step of StripLineSplit when x starts with a whitespace run. */
  lemma SplitAtSpaceRun(x: string, y: string, n: nat)
    requires 0 < n < |x| && n == SpaceRun(x) && IsSpace(x[0])
    requires StripLine(x[n..] + y) == StripLine(x[n..]) + StripLine(y)
    ensures StripLine(x + y) == StripLine(x) + StripLine(y)
  {
    var h := if n >= 2 then " " else x[..1];
    var a, b := StripLine(x[n..]), StripLine(y);
    ConcatAssoc(h, a, b);
    StripLineAtSpaceAppend(x, y, n);
    StripLineAtSpace(x, n);
  }

  /** Stripping works piece by piece when the cut is not inside a whitespace run. */
  lemma {:induction false} StripLineSplit(x: string, y: string)
    requires x == [] || !IsSpace(x[|x| - 1])
    ensures StripLine(x + y) == StripLine(x) + StripLine(y)
    decreases |x|
  {
    if x == [] {
      assert x + y == y;
    } else {
      var n := if IsSpace(x[0]) then SpaceRun(x) else 1;
      SpaceRunBeforeText(x);
      SuffixKeepsLast(x, n);
      StripLineSplit(x[n..], y);
      if IsSpace(x[0]) {
        SplitAtSpaceRun(x, y, n);
      } else {
        SplitAtText(x, y);
      }
    }
  }

  /** A text that does not end in whitespace does not start with whitespace only. */
  lemma SpaceRunBeforeText(x: string)
    requires x != [] && !IsSpace(x[|x| - 1])
    ensures SpaceRun(x) < |x|
  {
  }

  lemma SuffixKeepsLast(x: string, n: nat)
    requires 0 < n <= |x| && !IsSpace(x[|x| - 1])
    ensures x[n..] == [] || !IsSpace(x[n..][|x| - n - 1])
  {
  }

  /** One step of StripLineSplit when x starts with a non-space character. */
  lemma SplitAtText(x: string, y: string)
    requires x != [] && !IsSpace(x[0])
    requires StripLine(x[1..] + y) == StripLine(x[1..]) + StripLine(y)
    ensures StripLine(x + y) == StripLine(x) + StripLine(y)
  {
    AppendSlices(x, y, 1);
    assert (x + y)[0] == x[0];
    ConcatAssoc(x[..1], StripLine(x[1..]), StripLine(y));
  }

  /** Stripping twice strips no more than stripping once. */
  lemma StripLineIdempotent(s: string)
    ensures StripLine(StripLine(s)) == StripLine(s)
  {
    StripLineNoDoubleSpace(s);
    StripLineFixesClean(StripLine(s));
  }

  // ---------------------------------------------------------------------
  // The loader's scan loop, as a specification
  // ---------------------------------------------------------------------

  /**
   * The loop variables of the loader: the "keep lines" flag, the current
   * key, the text buffer and the bank being filled.
   */
  datatype ScanState = ScanState(keep: bool, key: string, buf: string, bank: map<string, string>)

  /** Before the first line: not keeping, empty key, empty buffer, empty bank. */
  const Start := ScanState(false, "", "", map[])

  /**
   * One turn of the scan loop.  A tag line whose name differs from the
   * current key flushes the buffer under the current key (only once lines
   * are being kept) and empties it; any tag line sets the key and starts
   * keeping.  A kept line that does not start with `#` is appended with one
   * space, and the bank entry for the key is refreshed.
   */
  function Step(st: ScanState, line: string): ScanState {
    var tagged :=
      match TagName(line)
      case None => st
      case Some(name) =>
        var flushed :=
          if name != st.key && st.keep then st.(bank := st.bank[st.key := st.buf], buf := "")
          else st;
        flushed.(key := name, keep := true);
    if tagged.keep && !IsComment(line) then
      var buf := tagged.buf + line + " ";
      tagged.(buf := buf, bank := tagged.bank[tagged.key := buf])
    else tagged
  }

  /**
   * What one turn does and leaves alone: a tag line makes its name the key
   * and starts keeping; a line that is no tag line changes nothing before
   * the first tag or when it starts with `#`; a `#` line adds nothing to
   * the buffer; and only the old and the new key's entries can change.
   */
  lemma StepEffect(st: ScanState, line: string)
    ensures var r := Step(st, line);
      && (r.keep <==> st.keep || TagName(line).Some?)
      && r.key == (if TagName(line).Some? then TagName(line).value else st.key)
      && (TagName(line).None? && (!st.keep || IsComment(line)) ==> r == st)
      && (IsComment(line) ==> r.buf == st.buf || r.buf == "")
      && r.bank.Keys <= st.bank.Keys + {st.key, r.key}
      && forall k :: k in st.bank && k != st.key && k != r.key ==> k in r.bank && r.bank[k] == st.bank[k]
  {
  }

  /** The loop run over `lines` from state `st`. */
  function Run(st: ScanState, lines: seq<string>): ScanState
    decreases |lines|
  {
    if lines == [] then st
    else Step(Run(st, lines[..|lines| - 1]), lines[|lines| - 1])
  }

  /** The state after the scan loop over `lines`. */
  function Scan(lines: seq<string>): ScanState {
    Run(Start, lines)
  }

  /** The final pass: every entry stripped. */
  function StripAll(bank: map<string, string>): map<string, string> {
    map k | k in bank :: StripLine(bank[k])
  }

  /**
   * The final pass keeps the keys, and leaves every entry without double
   * whitespace and with its visible characters, in order.
   */
  lemma StripAllEntries(bank: map<string, string>)
    ensures StripAll(bank).Keys == bank.Keys
    ensures forall k :: k in StripAll(bank) ==>
      NoDoubleSpace(StripAll(bank)[k]) && NonSpace(StripAll(bank)[k]) == NonSpace(bank[k])
  {
    forall k | k in StripAll(bank)
      ensures NoDoubleSpace(StripAll(bank)[k]) && NonSpace(StripAll(bank)[k]) == NonSpace(bank[k])
    {
      StripLineNoDoubleSpace(bank[k]);
      StripLineKeepsText(bank[k]);
    }
  }

  /** The bank a loader returns for `lines`. */
  function Loaded(lines: seq<string>): map<string, string> {
    StripAll(Scan(lines).bank)
  }

  lemma {:induction false} RunAppend(st: ScanState, a: seq<string>, b: seq<string>)
    ensures Run(st, a + b) == Run(Run(st, a), b)
    decreases |b|
  {
    if b == [] {
      assert a + b == a;
    } else {
      assert (a + b)[..|a + b| - 1] == a + b[..|b| - 1];
      RunAppend(st, a, b[..|b| - 1]);
    }
  }

  lemma {:induction false} RunWithoutTags(lines: seq<string>)
    requires forall i :: 0 <= i < |lines| ==> TagName(lines[i]).None?
    ensures Run(Start, lines) == Start
    decreases |lines|
  {
    if lines != [] {
      RunWithoutTags(lines[..|lines| - 1]);
    }
  }

  /** Lines before the first tag line are never stored: they change nothing. */
  lemma PreambleIgnored(preamble: seq<string>, lines: seq<string>)
    requires forall i :: 0 <= i < |preamble| ==> TagName(preamble[i]).None?
    ensures Loaded(preamble + lines) == Loaded(lines)
  {
    RunAppend(Start, preamble, lines);
    RunWithoutTags(preamble);
  }

  // ---------------------------------------------------------------------
  // What the scan computes: blocks
  // ---------------------------------------------------------------------

  /** A tag line naming some other tag than `name`: the end of a block of `name`. */
  predicate EndsBlock(line: string, name: string) {
    TagName(line).Some? && TagName(line).value != name
  }

  /** What one line adds to a block: nothing for a `#` line, else the line and one space. */
  function BodyPiece(line: string): string {
    if IsComment(line) then "" else line + " "
  }

  /**
   * The text of a block of `name` whose tag line stands just before `rest`:
   * every non-`#` line followed by one space, up to the first tag line of
   * another name.  Further tag lines of `name` itself do not end it.
   */
  function BlockText(rest: seq<string>, name: string): string
    decreases |rest|
  {
    if rest == [] || EndsBlock(rest[0], name) then ""
    else BodyPiece(rest[0]) + BlockText(rest[1..], name)
  }

  /** No line of `lines` ends a block of `name`. */
  ghost predicate Open(lines: seq<string>, name: string) {
    forall j :: 0 <= j < |lines| ==> !EndsBlock(lines[j], name)
  }

  /**
   * Line `s` is a tag line of `name` that starts a block: every earlier tag
   * line of `name` is separated from it by a tag line of another name.
   */
  ghost predicate BlockStart(lines: seq<string>, s: int, name: string) {
    && 0 <= s < |lines| && TagName(lines[s]) == Some(name)
    && forall j :: 0 <= j < s && TagName(lines[j]) == Some(name) ==> !Open(lines[j + 1..s], name)
  }

  /** The name of the last tag line, if any. */
  ghost function LastTag(lines: seq<string>): Option<string>
    decreases |lines|
  {
    if lines == [] then None
    else if TagName(lines[|lines| - 1]).Some? then TagName(lines[|lines| - 1])
    else LastTag(lines[..|lines| - 1])
  }

  /** Some line after the last tag line does not start with `#`. */
  ghost predicate BodyAfterLastTag(lines: seq<string>)
    decreases |lines|
  {
    if lines == [] || TagName(lines[|lines| - 1]).Some? then false
    else
      var prefix := lines[..|lines| - 1];
      (!IsComment(lines[|lines| - 1]) && LastTag(prefix).Some?) || BodyAfterLastTag(prefix)
  }

  /** The names of all tag lines. */
  ghost function TagNames(lines: seq<string>): set<string> {
    set i | 0 <= i < |lines| && TagName(lines[i]).Some? :: TagName(lines[i]).value
  }

  lemma {:induction false} BlockTextClosed(a: seq<string>, b: seq<string>, name: string)
    requires !Open(a, name)
    ensures BlockText(a + b, name) == BlockText(a, name)
    decreases |a|
  {
    assert a != [];
    AppendSlices(a, b, 1);
    assert (a + b)[0] == a[0];
    if !EndsBlock(a[0], name) {
      assert !Open(a[1..], name) by {
        var j :| 0 <= j < |a| && EndsBlock(a[j], name);
        assert a[1..][j - 1] == a[j];
      }
      BlockTextClosed(a[1..], b, name);
    }
  }

  lemma {:induction false} BlockTextOpen(a: seq<string>, line: string, name: string)
    requires Open(a, name)
    ensures BlockText(a + [line], name)
         == BlockText(a, name) + (if EndsBlock(line, name) then "" else BodyPiece(line))
    decreases |a|
  {
    if a == [] {
      assert a + [line] == [line];
      assert [line][1..] == [];
    } else {
      assert (a + [line])[0] == a[0];
      assert (a + [line])[1..] == a[1..] + [line];
      assert Open(a[1..], name) by {
        forall j | 0 <= j < |a[1..]| ensures !EndsBlock(a[1..][j], name) {
          assert a[1..][j] == a[j + 1];
        }
      }
      BlockTextOpen(a[1..], line, name);
    }
  }

  /** A block's text is empty or ends in a space. */
  lemma {:induction false} BlockTextEndsInSpace(rest: seq<string>, name: string)
    ensures var t := BlockText(rest, name); t == "" || t[|t| - 1] == ' '
    decreases |rest|
  {
    if rest != [] && !EndsBlock(rest[0], name) {
      BlockTextEndsInSpace(rest[1..], name);
    }
  }

  // ---------------------------------------------------------------------
  // The invariant of the scan loop
  // ---------------------------------------------------------------------

  /** `buf` is the text so far of the still open block of `key`. */
  ghost predicate CurrentBlock(lines: seq<string>, key: string, buf: string) {
    exists s :: BlockStart(lines, s, key) && Open(lines[s + 1..], key) && buf == BlockText(lines[s + 1..], key)
  }

  /** `text` is the whole text of a block of `key` that a later tag line closed. */
  ghost predicate ClosedBlock(lines: seq<string>, key: string, text: string) {
    exists s :: BlockStart(lines, s, key) && !Open(lines[s + 1..], key) && text == BlockText(lines[s + 1..], key)
  }

  /**
   * What the scan state says about the lines read so far.  The key is the
   * last tag name; the buffer holds the open block's text; every entry of
   * the bank is the text of one block of its key; every tag name other than
   * the key has an entry; and a non-empty buffer is also in the bank.
   */
  ghost predicate ScanInv(lines: seq<string>, st: ScanState) {
    && (st.keep <==> LastTag(lines).Some?)
    && (st.keep ==> st.key == LastTag(lines).value && CurrentBlock(lines, st.key, st.buf))
    && (!st.keep ==> st.buf == "" && st.bank == map[])
    && (BodyAfterLastTag(lines) ==> st.buf != "")
    && EntriesAreBlocks(lines, st)
    && OtherNamesStored(lines, st)
    && (st.keep && st.buf != "" ==> st.key in st.bank && st.bank[st.key] == st.buf)
  }

  /** Every entry is the open buffer of the key, or the text of a closed block of its key. */
  ghost predicate EntriesAreBlocks(lines: seq<string>, st: ScanState) {
    forall k :: k in st.bank ==>
      (st.keep && k == st.key && st.bank[k] == st.buf) || ClosedBlock(lines, k, st.bank[k])
  }

  /** Every tag name other than the key has an entry. */
  ghost predicate OtherNamesStored(lines: seq<string>, st: ScanState) {
    forall i :: 0 <= i < |lines| && EndsBlock(lines[i], st.key) ==> TagName(lines[i]).value in st.bank
  }

  lemma {:induction false} NoLastTagNoTags(lines: seq<string>)
    requires LastTag(lines).None?
    ensures forall i :: 0 <= i < |lines| ==> TagName(lines[i]).None?
    decreases |lines|
  {
    if lines != [] {
      NoLastTagNoTags(lines[..|lines| - 1]);
      forall i | 0 <= i < |lines| - 1 ensures TagName(lines[i]).None? {
        assert lines[..|lines| - 1][i] == lines[i];
      }
    }
  }

  lemma BlockStartGrows(lines: seq<string>, s: int, name: string, line: string)
    requires BlockStart(lines, s, name)
    ensures BlockStart(lines + [line], s, name)
  {
    var lines' := lines + [line];
    forall j | 0 <= j < s && TagName(lines'[j]) == Some(name) ensures !Open(lines'[j + 1..s], name) {
      assert lines'[j] == lines[j];
      assert lines'[j + 1..s] == lines[j + 1..s];
    }
  }

  lemma ClosedBlockGrows(lines: seq<string>, key: string, text: string, line: string)
    requires ClosedBlock(lines, key, text)
    ensures ClosedBlock(lines + [line], key, text)
  {
    var s :| BlockStart(lines, s, key) && !Open(lines[s + 1..], key) && text == BlockText(lines[s + 1..], key);
    BlockStartGrows(lines, s, key, line);
    AppendSlices(lines, [line], s + 1);
    BlockTextClosed(lines[s + 1..], [line], key);
    StaysClosed(lines[s + 1..], line, key);
  }

  lemma StaysClosed(a: seq<string>, line: string, key: string)
    requires !Open(a, key)
    ensures !Open(a + [line], key)
  {
    var j :| 0 <= j < |a| && EndsBlock(a[j], key);
    assert (a + [line])[j] == a[j];
  }

  lemma CurrentBlockGrows(lines: seq<string>, key: string, buf: string, line: string)
    requires CurrentBlock(lines, key, buf) && !EndsBlock(line, key)
    ensures CurrentBlock(lines + [line], key, buf + BodyPiece(line))
  {
    var s :| BlockStart(lines, s, key) && Open(lines[s + 1..], key) && buf == BlockText(lines[s + 1..], key);
    OpenBlockGrows(lines, s, key, line);
  }

  /** The open block starting at `s` takes in a line that does not end it. */
  lemma OpenBlockGrows(lines: seq<string>, s: int, key: string, line: string)
    requires BlockStart(lines, s, key) && Open(lines[s + 1..], key) && !EndsBlock(line, key)
    ensures var lines' := lines + [line];
      BlockStart(lines', s, key) && Open(lines'[s + 1..], key)
      && BlockText(lines'[s + 1..], key) == BlockText(lines[s + 1..], key) + BodyPiece(line)
  {
    BlockStartGrows(lines, s, key, line);
    var a := lines[s + 1..];
    assert (lines + [line])[s + 1..] == a + [line];
    StaysOpen(a, line, key);
    BlockTextOpen(a, line, key);
  }

  lemma StaysOpen(a: seq<string>, line: string, key: string)
    requires Open(a, key) && !EndsBlock(line, key)
    ensures Open(a + [line], key)
  {
    forall j | 0 <= j < |a| + 1 ensures !EndsBlock((a + [line])[j], key) {
      if j < |a| {
        assert (a + [line])[j] == a[j];
      }
    }
  }

  lemma CurrentBlockCloses(lines: seq<string>, key: string, buf: string, line: string)
    requires CurrentBlock(lines, key, buf) && EndsBlock(line, key)
    ensures ClosedBlock(lines + [line], key, buf)
  {
    var s :| BlockStart(lines, s, key) && Open(lines[s + 1..], key) && buf == BlockText(lines[s + 1..], key);
    OpenBlockCloses(lines, s, key, line);
  }

  /** The open block starting at `s` is closed by a line that ends it, its text unchanged. */
  lemma OpenBlockCloses(lines: seq<string>, s: int, key: string, line: string)
    requires BlockStart(lines, s, key) && Open(lines[s + 1..], key) && EndsBlock(line, key)
    ensures var lines' := lines + [line];
      BlockStart(lines', s, key) && !Open(lines'[s + 1..], key)
      && BlockText(lines'[s + 1..], key) == BlockText(lines[s + 1..], key)
  {
    BlockStartGrows(lines, s, key, line);
    var a := lines[s + 1..];
    var rest := (lines + [line])[s + 1..];
    assert rest == a + [line];
    assert rest[|a|] == line;
    BlockTextOpen(a, line, key);
    assert BlockText(a, key) + "" == BlockText(a, key);
  }

  /** A tag line of a new name, after the open block of `key`, starts a block. */
  lemma NewBlockAfter(lines: seq<string>, key: string, buf: string, line: string, name: string)
    requires CurrentBlock(lines, key, buf) && TagName(line) == Some(name) && name != key
    ensures CurrentBlock(lines + [line], name, "")
  {
    var lines' := lines + [line];
    var n := |lines|;
    NewBlockStart(lines, key, buf, line, name);
    assert lines'[n + 1..] == [];
    CurrentBlockAt(lines', n, name, "");
  }

  /** The tag line that follows the open block of `key` starts a block of its own. */
  lemma NewBlockStart(lines: seq<string>, key: string, buf: string, line: string, name: string)
    requires CurrentBlock(lines, key, buf) && TagName(line) == Some(name) && name != key
    ensures BlockStart(lines + [line], |lines|, name)
  {
    var s :| BlockStart(lines, s, key) && Open(lines[s + 1..], key) && buf == BlockText(lines[s + 1..], key);
    EarlierTagsClosed(lines, s, key, line, name);
    assert (lines + [line])[|lines|] == line;
  }

  /** The block starting at `s` is the open block of `key`. */
  lemma CurrentBlockAt(lines: seq<string>, s: int, key: string, buf: string)
    requires BlockStart(lines, s, key) && Open(lines[s + 1..], key) && buf == BlockText(lines[s + 1..], key)
    ensures CurrentBlock(lines, key, buf)
  {
  }

  /** While a block of `key` is open, every earlier tag line of another name is closed by its tag line. */
  lemma EarlierTagsClosed(lines: seq<string>, s: int, key: string, line: string, name: string)
    requires 0 <= s < |lines| && TagName(lines[s]) == Some(key) && Open(lines[s + 1..], key) && name != key
    ensures forall j :: 0 <= j < |lines| && TagName((lines + [line])[j]) == Some(name) ==>
      !Open((lines + [line])[j + 1..|lines|], name)
  {
    var lines' := lines + [line];
    var n := |lines|;
    forall j | 0 <= j < n && TagName(lines'[j]) == Some(name) ensures !Open(lines'[j + 1..n], name) {
      assert lines'[j] == lines[j];
      if j > s {
        assert false;
      }
      assert j < s && lines'[s] == lines[s];
      TagBetween(lines', j, s, n, name);
    }
  }

  /** A tag line of another name between `j` and `n` closes any block of `name` opened at `j`. */
  lemma TagBetween(lines: seq<string>, j: int, s: int, n: int, name: string)
    requires 0 <= j < s < n <= |lines| && EndsBlock(lines[s], name)
    ensures !Open(lines[j + 1..n], name)
  {
    assert lines[j + 1..n][s - j - 1] == lines[s];
  }

  /** The first tag line starts a block. */
  lemma FirstBlock(lines: seq<string>, line: string, name: string)
    requires forall i :: 0 <= i < |lines| ==> TagName(lines[i]).None?
    requires TagName(line) == Some(name)
    ensures CurrentBlock(lines + [line], name, "")
  {
    var lines' := lines + [line];
    var n := |lines|;
    assert forall j :: 0 <= j < n ==> lines'[j] == lines[j];
    assert BlockStart(lines', n, name);
    assert lines'[n + 1..] == [];
  }

  lemma LastTagStep(lines: seq<string>, line: string)
    ensures LastTag(lines + [line]) == if TagName(line).Some? then TagName(line) else LastTag(lines)
    ensures BodyAfterLastTag(lines + [line])
         == (TagName(line).None? && ((!IsComment(line) && LastTag(lines).Some?) || BodyAfterLastTag(lines)))
  {
    assert (lines + [line])[..|lines|] == lines;
  }

  /** A line that is not a tag line keeps the invariant. */
  lemma StepKeepsInvOnText(lines: seq<string>, st: ScanState, line: string)
    requires ScanInv(lines, st) && TagName(line).None?
    ensures ScanInv(lines + [line], Step(st, line))
  {
    LastTagStep(lines, line);
    if !st.keep {
      NoLastTagNoTags(lines);
      assert Step(st, line) == st;
      IdleLineKeepsInv(lines, st, line);
    } else if IsComment(line) {
      assert Step(st, line) == st;
      CommentKeepsInv(lines, st, line);
    } else {
      var buf := st.buf + line + " ";
      assert Step(st, line) == st.(buf := buf, bank := st.bank[st.key := buf]);
      BodyLineKeepsInv(lines, st, line);
    }
  }

  lemma IdleLineKeepsInv(lines: seq<string>, st: ScanState, line: string)
    requires ScanInv(lines, st) && TagName(line).None? && !st.keep
    ensures ScanInv(lines + [line], st)
  {
    LastTagStep(lines, line);
    NoLastTagNoTags(lines);
    var lines' := lines + [line];
    forall i | 0 <= i < |lines'| ensures TagName(lines'[i]).None? {
      if i < |lines| { assert lines'[i] == lines[i]; }
    }
  }

  /** Entries of closed blocks stay what they are when a line is read. */
  lemma ClosedEntriesGrow(lines: seq<string>, bank: map<string, string>, line: string)
    ensures forall k :: k in bank && ClosedBlock(lines, k, bank[k]) ==> ClosedBlock(lines + [line], k, bank[k])
  {
    forall k | k in bank && ClosedBlock(lines, k, bank[k]) ensures ClosedBlock(lines + [line], k, bank[k]) {
      ClosedBlockGrows(lines, k, bank[k], line);
    }
  }

  lemma CommentKeepsInv(lines: seq<string>, st: ScanState, line: string)
    requires ScanInv(lines, st) && st.keep && IsComment(line)
    requires TagName(line).None? || TagName(line) == Some(st.key)
    ensures ScanInv(lines + [line], st)
  {
    LastTagStep(lines, line);
    assert !EndsBlock(line, st.key);
    assert CurrentBlock(lines + [line], st.key, st.buf) by {
      CurrentBlockGrows(lines, st.key, st.buf, line);
      assert st.buf + BodyPiece(line) == st.buf;
    }
    ClosedEntriesGrow(lines, st.bank, line);
    TextLineNames(lines, st, line, st);
  }

  lemma BodyLineKeepsInv(lines: seq<string>, st: ScanState, line: string)
    requires ScanInv(lines, st) && st.keep && TagName(line).None? && !IsComment(line)
    ensures var buf := st.buf + line + " ";
            ScanInv(lines + [line], st.(buf := buf, bank := st.bank[st.key := buf]))
  {
    var buf := st.buf + line + " ";
    var st' := st.(buf := buf, bank := st.bank[st.key := buf]);
    var lines' := lines + [line];
    LastTagStep(lines, line);
    assert LastTag(lines') == LastTag(lines);
    assert CurrentBlock(lines', st.key, buf) by {
      CurrentBlockGrows(lines, st.key, st.buf, line);
      ConcatAssoc(st.buf, line, " ");
    }
    assert |buf| > 0;
    BodyLineEntries(lines, st, line, st');
    TextLineNames(lines, st, line, st');
  }

  lemma BodyLineEntries(lines: seq<string>, st: ScanState, line: string, st': ScanState)
    requires EntriesAreBlocks(lines, st) && st.keep
    requires st' == st.(buf := st'.buf, bank := st.bank[st.key := st'.buf])
    ensures EntriesAreBlocks(lines + [line], st')
  {
    ClosedEntriesGrow(lines, st.bank, line);
  }

  lemma TextLineNames(lines: seq<string>, st: ScanState, line: string, st': ScanState)
    requires OtherNamesStored(lines, st) && !EndsBlock(line, st.key)
    requires st'.key == st.key && st.bank.Keys <= st'.bank.Keys
    ensures OtherNamesStored(lines + [line], st')
  {
    var lines' := lines + [line];
    forall i | 0 <= i < |lines'| && EndsBlock(lines'[i], st.key) ensures TagName(lines'[i]).value in st'.bank {
      assert i < |lines| && lines'[i] == lines[i];
    }
  }

  /** A tag line keeps the invariant. */
  lemma StepKeepsInvOnTag(lines: seq<string>, st: ScanState, line: string)
    requires ScanInv(lines, st) && TagName(line).Some?
    ensures ScanInv(lines + [line], Step(st, line))
  {
    var name := TagName(line).value;
    if !st.keep {
      assert Step(st, line) == ScanState(true, name, "", map[]);
      FirstTagKeepsInv(lines, st, line);
    } else if name == st.key {
      assert Step(st, line) == st;
      CommentKeepsInv(lines, st, line);
    } else {
      assert Step(st, line) == ScanState(true, name, "", st.bank[st.key := st.buf]);
      NewTagKeepsInv(lines, st, line);
    }
  }

  lemma FirstTagKeepsInv(lines: seq<string>, st: ScanState, line: string)
    requires ScanInv(lines, st) && TagName(line).Some? && !st.keep
    ensures ScanInv(lines + [line], ScanState(true, TagName(line).value, "", map[]))
  {
    var name := TagName(line).value;
    var lines' := lines + [line];
    LastTagStep(lines, line);
    NoLastTagNoTags(lines);
    FirstBlock(lines, line, name);
    forall i | 0 <= i < |lines'| ensures !EndsBlock(lines'[i], name) {
      if i < |lines| { assert lines'[i] == lines[i]; }
    }
  }

  lemma NewTagKeepsInv(lines: seq<string>, st: ScanState, line: string)
    requires ScanInv(lines, st) && st.keep && TagName(line).Some? && TagName(line).value != st.key
    ensures ScanInv(lines + [line], ScanState(true, TagName(line).value, "", st.bank[st.key := st.buf]))
  {
    var name := TagName(line).value;
    var st' := ScanState(true, name, "", st.bank[st.key := st.buf]);
    LastTagStep(lines, line);
    NewBlockAfter(lines, st.key, st.buf, line, name);
    NewTagEntries(lines, st, line, st');
    NewTagNames(lines, st, line, st');
  }

  lemma NewTagEntries(lines: seq<string>, st: ScanState, line: string, st': ScanState)
    requires EntriesAreBlocks(lines, st) && st.keep && CurrentBlock(lines, st.key, st.buf)
    requires EndsBlock(line, st.key)
    requires st'.bank == st.bank[st.key := st.buf]
    ensures EntriesAreBlocks(lines + [line], st')
  {
    CurrentBlockCloses(lines, st.key, st.buf, line);
    ClosedEntriesGrow(lines, st.bank, line);
  }

  lemma NewTagNames(lines: seq<string>, st: ScanState, line: string, st': ScanState)
    requires OtherNamesStored(lines, st) && TagName(line).Some?
    requires st'.key == TagName(line).value && st'.bank == st.bank[st.key := st.buf]
    ensures OtherNamesStored(lines + [line], st')
  {
    var lines' := lines + [line];
    forall i | 0 <= i < |lines'| && EndsBlock(lines'[i], st'.key) ensures TagName(lines'[i]).value in st'.bank {
      if i == |lines| {
        assert false;
      } else {
        assert lines'[i] == lines[i];
        if TagName(lines[i]).value != st.key {
          assert EndsBlock(lines[i], st.key);
        }
      }
    }
  }

  /** The scan state after any lines satisfies the invariant. */
  lemma {:induction false} ScanKeepsInv(lines: seq<string>)
    ensures ScanInv(lines, Scan(lines))
    decreases |lines|
  {
    if lines == [] {
      assert LastTag(lines) == None;
    } else {
      var prefix := lines[..|lines| - 1];
      var line := lines[|lines| - 1];
      ScanKeepsInv(prefix);
      assert prefix + [line] == lines;
      if TagName(line).Some? {
        StepKeepsInvOnTag(prefix, Scan(prefix), line);
      } else {
        StepKeepsInvOnText(prefix, Scan(prefix), line);
      }
    }
  }

  // ---------------------------------------------------------------------
  // Tag lines
  // ---------------------------------------------------------------------

  /** Reading one more line is one more step. */
  lemma ScanSnoc(lines: seq<string>, line: string)
    ensures Scan(lines + [line]) == Step(Scan(lines), line)
  {
    assert (lines + [line])[..|lines|] == lines;
  }

  /** A tag line of the tag already in force changes nothing: its block goes on. */
  lemma RepeatedTagContinues(lines: seq<string>, line: string)
    requires TagName(line).Some? && TagName(line) == LastTag(lines)
    ensures Scan(lines + [line]) == Scan(lines)
  {
    ScanKeepsInv(lines);
    ScanSnoc(lines, line);
  }

  /**
   * A tag line of any other tag stores the buffer under the old key (once
   * lines are kept), empties the buffer and makes its name the key.
   */
  lemma TagSwitchFlushes(lines: seq<string>, line: string)
    requires TagName(line).Some? && TagName(line) != LastTag(lines)
    ensures var st := Scan(lines);
      Scan(lines + [line]) ==
        ScanState(true, TagName(line).value, "", if st.keep then st.bank[st.key := st.buf] else st.bank)
  {
    ScanKeepsInv(lines);
    ScanSnoc(lines, line);
  }

  /** A `#` line that is not a tag line never enters a body: it leaves the loop state as it is. */
  lemma CommentLineIgnored(lines: seq<string>, line: string)
    requires IsComment(line) && TagName(line).None?
    ensures Scan(lines + [line]) == Scan(lines)
  {
    ScanSnoc(lines, line);
    StepEffect(Scan(lines), line);
  }

  /** A tag line with no body lines, followed by a tag line of another name, is stored as the empty query. */
  lemma EmptyBlockStoredEmpty(lines: seq<string>, tag: string, next: string)
    requires TagName(tag).Some? && TagName(next).Some? && TagName(tag) != TagName(next)
    requires TagName(tag) != LastTag(lines)
    ensures TagName(tag).value in Loaded(lines + [tag, next])
    ensures Loaded(lines + [tag, next])[TagName(tag).value] == ""
  {
    TagSwitchFlushes(lines, tag);
    LastTagStep(lines, tag);
    TagSwitchFlushes(lines + [tag], next);
    assert lines + [tag] + [next] == lines + [tag, next];
  }

  // ---------------------------------------------------------------------
  // What a loaded bank holds
  // ---------------------------------------------------------------------

  /** Each raw entry of the scan is the text of one block of its key. */
  lemma ScannedEntriesAreBlocks(lines: seq<string>)
    ensures forall k :: k in Scan(lines).bank ==>
      exists s :: BlockStart(lines, s, k) && Scan(lines).bank[k] == BlockText(lines[s + 1..], k)
  {
    var st := Scan(lines);
    ScanKeepsInv(lines);
    forall k | k in st.bank
      ensures exists s :: BlockStart(lines, s, k) && st.bank[k] == BlockText(lines[s + 1..], k)
    {
      if !ClosedBlock(lines, k, st.bank[k]) {
        assert CurrentBlock(lines, st.key, st.buf);
      }
    }
  }

  /**
   * No leakage between blocks: the entry of every key is the stripped text
   * of one block of that key, from a tag line that starts a block of it up
   * to the next tag line of another name, `#` lines left out.  Nothing
   * before the first tag line and nothing under another tag gets in.
   */
  lemma LoadedEntriesAreBlocks(lines: seq<string>)
    ensures forall k :: k in Loaded(lines) ==>
      exists s :: BlockStart(lines, s, k) && Loaded(lines)[k] == StripLine(BlockText(lines[s + 1..], k))
  {
    ScannedEntriesAreBlocks(lines);
  }

  /**
   * The keys are tag names; every tag name but the last one is a key; and
   * the last one is a key too once a non-`#` line follows its tag line.
   */
  lemma LoadedKeys(lines: seq<string>)
    ensures Loaded(lines).Keys <= TagNames(lines)
    ensures forall i :: 0 <= i < |lines| && TagName(lines[i]).Some? && TagName(lines[i]) != LastTag(lines) ==>
      TagName(lines[i]).value in Loaded(lines)
    ensures BodyAfterLastTag(lines) ==> LastTag(lines).Some? && LastTag(lines).value in Loaded(lines)
  {
    var st := Scan(lines);
    ScanKeepsInv(lines);
    ScannedEntriesAreBlocks(lines);
    forall k | k in Loaded(lines) ensures k in TagNames(lines) {
      var s :| BlockStart(lines, s, k) && st.bank[k] == BlockText(lines[s + 1..], k);
      assert TagName(lines[s]).value == k;
    }
    forall i | 0 <= i < |lines| && TagName(lines[i]).Some? && TagName(lines[i]) != LastTag(lines)
      ensures TagName(lines[i]).value in Loaded(lines)
    {
      if !st.keep {
        NoLastTagNoTags(lines);
      }
      assert EndsBlock(lines[i], st.key);
    }
  }

  /** The last tag is one of the tag names. */
  lemma {:induction false} LastTagIsTagName(lines: seq<string>)
    requires LastTag(lines).Some?
    ensures LastTag(lines).value in TagNames(lines)
    decreases |lines|
  {
    var last := |lines| - 1;
    if TagName(lines[last]).None? {
      var prefix := lines[..last];
      LastTagIsTagName(prefix);
      var i :| 0 <= i < |prefix| && TagName(prefix[i]).Some? && TagName(prefix[i]).value == LastTag(prefix).value;
      assert lines[i] == prefix[i];
    }
  }

  /**
   * While a key is in force, `#` lines that are plain comments or tag lines
   * of that key change nothing.
   */
  lemma {:induction false} CommentsKeepState(st: ScanState, tail: seq<string>)
    requires st.keep
    requires forall j :: 0 <= j < |tail| ==>
      IsComment(tail[j]) && (TagName(tail[j]).None? || TagName(tail[j]).value == st.key)
    ensures Run(st, tail) == st
    decreases |tail|
  {
    if tail != [] {
      CommentsKeepState(st, tail[..|tail| - 1]);
      StepEffect(st, tail[|tail| - 1]);
    }
  }

  /**
   * A trailing tag with no body is not a key: a tag line of a name not seen
   * before, followed only by `#` lines that do not end its block, leaves
   * its name out of the loaded bank.
   */
  lemma TrailingTagNotStored(lines: seq<string>, tag: string, tail: seq<string>)
    requires TagName(tag).Some? && TagName(tag).value !in TagNames(lines)
    requires forall j :: 0 <= j < |tail| ==>
      IsComment(tail[j]) && (TagName(tail[j]).None? || TagName(tail[j]) == TagName(tag))
    ensures TagName(tag).value !in Loaded(lines + [tag] + tail)
  {
    var name := TagName(tag).value;
    var st := Scan(lines);
    LoadedKeys(lines);
    if LastTag(lines).Some? {
      LastTagIsTagName(lines);
    }
    ScanKeepsInv(lines);
    TagSwitchFlushes(lines, tag);
    var st1 := Scan(lines + [tag]);
    assert name !in st1.bank;
    CommentsKeepState(st1, tail);
    RunAppend(Start, lines + [tag], tail);
  }

  /** A stored query has no double whitespace, and one that is not empty ends in exactly one space. */
  predicate CleanQuery(q: string) {
    && NoDoubleSpace(q)
    && (q == "" || (q[|q| - 1] == ' ' && (|q| == 1 || !IsSpace(q[|q| - 2]))))
  }

  /** Every loaded entry is clean. */
  lemma LoadedQueriesClean(lines: seq<string>)
    ensures forall k :: k in Loaded(lines) ==> CleanQuery(Loaded(lines)[k])
  {
    ScannedEntriesEndInSpace(lines);
    StripAllClean(Scan(lines).bank);
  }

  /** Every scanned entry is a block's text, hence empty or ending in a space. */
  lemma ScannedEntriesEndInSpace(lines: seq<string>)
    ensures forall k :: k in Scan(lines).bank ==> EndsInSpace(Scan(lines).bank[k])
  {
    var bank := Scan(lines).bank;
    ScannedEntriesAreBlocks(lines);
    forall k | k in bank ensures EndsInSpace(bank[k]) {
      BlockEntryEndsInSpace(lines, k, bank[k]);
    }
  }

  lemma BlockEntryEndsInSpace(lines: seq<string>, k: string, text: string)
    requires exists s :: BlockStart(lines, s, k) && text == BlockText(lines[s + 1..], k)
    ensures EndsInSpace(text)
  {
    var s :| BlockStart(lines, s, k) && text == BlockText(lines[s + 1..], k);
    BlockTextEndsInSpace(lines[s + 1..], k);
  }

  /** Stripping a bank whose entries are empty or end in a space gives clean entries. */
  lemma StripAllClean(bank: map<string, string>)
    requires forall k :: k in bank ==> EndsInSpace(bank[k])
    ensures forall k :: k in StripAll(bank) ==> CleanQuery(StripAll(bank)[k])
  {
    forall k | k in StripAll(bank) ensures CleanQuery(StripAll(bank)[k]) {
      StrippedIsClean(bank[k]);
    }
  }

  predicate EndsInSpace(t: string) {
    t == "" || t[|t| - 1] == ' '
  }

  /** Stripping a text that is empty or ends in a space gives a clean query. */
  lemma StrippedIsClean(raw: string)
    requires EndsInSpace(raw)
    ensures CleanQuery(StripLine(raw))
  {
    StripLineNoDoubleSpace(raw);
    if raw != "" {
      StripLineKeepsFinalSpace(raw);
    }
  }

  // ---------------------------------------------------------------------
  // Prepare
  // ---------------------------------------------------------------------

  /** Why `Prepare` gives no query. */
  datatype PrepareError = NoQuery(key: string) | TemplateFailed(reason: string)

  /**
   * `Prepare`: the query stored under `key`.  With at least one template
   * argument, the query is parsed and executed as a template on the first
   * argument; that engine is the parameter `render`, whose failure stands
   * for a parse or an execution error.
   */
  function Prepare<D>(bank: map<string, string>, key: string, args: seq<D>,
                      render: (string, D) -> Result<string, string>): (r: Result<string, PrepareError>)
    ensures r.Failure? <==> key !in bank || (args != [] && render(bank[key], args[0]).Failure?)
    ensures key !in bank ==> r == Failure(NoQuery(key))
    ensures key in bank && args == [] ==> r == Success(bank[key])
    ensures key in bank && args != [] && r.Success? ==> r.value == render(bank[key], args[0]).value
  {
    if key !in bank then Failure(NoQuery(key))
    else if |args| == 0 then Success(bank[key])
    else
      match render(bank[key], args[0])
      case Success(q) => Success(q)
      case Failure(reason) => Failure(TemplateFailed(reason))
  }
}
