# sparql: query bank and result terms, in Dafny

This project models the two pieces of logic in the Go `sparql` package that
work without a network.

**The query bank** (`bank.go`, repeated almost word for word as `bank/bank.go`):
- It reads a text of `# tag: name` headed blocks line by line and stores each
  block's lines under its name.
- A final pass collapses every run of two or more whitespace characters to one
  space (`stripLine`).
- `Prepare` looks a query up by key.

**The SPARQL JSON result side** (`sparql.go`):
- `termFromJSON` turns one decoded JSON binding into an RDF term: blank node,
  IRI or literal.
- `Bindings` gives the terms per variable, and `Solutions` gives one map of
  terms per row.

Modules:

- `Wrappers` (wrappers.dfy): `Option` and `Result`.
- `QueryBank` (query_bank.dfy): what the two loaders share.
  - The three regular expressions, written as predicates.
  - `StripLine`.
  - The scan loop as a state machine (`Step`, `Run`, `Scan`, `Loaded`).
  - What that machine computes, stated through blocks: the lines after a tag
    line up to the next tag line of another name.
  - `Prepare`.
- `SparqlBank` (bank.dfy): `LoadBank` as a method with the source's two loops.
  It is proved equal to `Loaded`, and every stored query is proved clean.
- `BankPackage` (bank_pkg.dfy): `Load` of the `bank` package, in the same way.
- `QueryBankSample` (query_bank_sample.dfy): the sample bank of `bank_test.go`,
  loaded through the specification.
- `Sparql` (sparql.dfy):
  - The decoded document (`Binding`, `Header`, `ResultSet`, `Results`) and
    `Term`.
  - `TermFromJSON`, and `TermToJSON`, the inverse it is proved against.
  - `Bindings` and `Solutions` as methods with the source's nested loops,
    proved against `BindingsOf` and `SolutionOf`.
- `SparqlSample` (sparql_sample.dfy): the result document of `sparql_test.go`.

Go's RE2 classes are written out by hand:
- `\s` is tab, newline, form feed, carriage return and space.
- `[\w-]` is ASCII letters, digits, `_` and `-`.

`bank/bank.go` defines `stripLine` and `Prepare` with the same text as
`bank.go`, so `QueryBank.StripLine` and `QueryBank.Prepare` model both. Its
`Load` differs from `LoadBank` only in variable names.

Behaviour of the code that the model keeps as written:
- A tag that comes back after another tag starts a new block, because the
  buffer is reset on every switch of tag (`QueryBank.TagSwitchFlushes`). Its
  new text replaces the earlier entry once the new block gets a non-`#` line,
  or when the block is closed by a tag line of another name. A return at the
  end of the text with no body line keeps the earlier entry. Each entry is the
  text of one block (`QueryBank.LoadedEntriesAreBlocks`).
- A `"literal"` binding never reads its `datatype` field. A literal written in
  the form of section 3.2.2 of the W3C *SPARQL 1.1 Query Results JSON Format*
  (`"type": "literal"` with a `"datatype"`) therefore becomes an `xsd:string`
  literal. Only the older `"typed-literal"` form of the 2007 W3C note
  *Serializing SPARQL Query Results in JSON* is parsed by datatype
  (`Sparql.LiteralIgnoresDatatype`).
- A variable listed twice in the head gets its column twice in `Bindings`
  (`Sparql.BindingsOfEntry`).

## Model

| member | source | states |
|---|---|---|
| QueryBank.SpaceRun | bank.go:17-18 | the length of the leading whitespace run: all of it is whitespace, and the next character is not (greedy `\s*`) |
| QueryBank.TagName | bank.go:38-39 | a line that matches the tag pattern starts with `#`, and the captured name is non-empty and made of name characters |
| QueryBank.TagNameSound | bank.go:17 | every line the matcher accepts is `#`, whitespace, `tag:`, at least one whitespace, the name, then trailing whitespace, and the capture is that name |
| QueryBank.TagNameComplete | bank.go:17 | every line of that shape is accepted, and its capture is exactly the name |
| QueryBank.CommentLineIgnored | bank.go:48-52 | a `#` line that is not a tag line (`commentMatcher`, line 16) leaves the loop state unchanged, so it never enters a body |
| QueryBank.TagLineOf | bank.go:17 | `# tag: name` is a tag line of `name` for every non-empty name of name characters |
| QueryBank.StripLine | bank.go:84-87 | stripping never lengthens a text, keeps it non-empty, and keeps whether it starts with whitespace; `stripLine` in bank/bank.go (lines 89-92) is the same function |
| QueryBank.StripLineNoDoubleSpace | bank.go:84-87 | after stripping, no two adjacent characters are whitespace |
| QueryBank.StripLineKeepsText | bank.go:84-87 | stripping keeps every non-whitespace character, in order |
| QueryBank.StripLineKeepsFinalSpace | bank.go:84-87 | a text ending in a space still ends in a space after stripping |
| QueryBank.StripLineFixesClean | bank.go:84-87 | a text without double whitespace is left unchanged |
| QueryBank.StripLineSplit | bank.go:84-87 | stripping a concatenation is stripping each part, when the first part does not end in whitespace |
| QueryBank.StripLineIdempotent | bank.go:84-87 | stripping twice gives the same as stripping once |
| QueryBank.StepEffect | bank.go:38-52 | one turn of the scan loop: a tag line makes its name the key and starts keeping; a line that is not a tag line changes nothing before the first tag or when it starts with `#`; a `#` line adds nothing to the buffer; only the old and the new key's entries can change |
| QueryBank.StripAllEntries | bank.go:55-57 | the strip loop keeps the set of keys; every entry afterwards has no double whitespace and keeps its visible characters in order |
| QueryBank.RunAppend | bank.go:35-53 | running the scan loop over `a + b` is running it over `a`, then over `b` |
| QueryBank.RunWithoutTags | bank.go:29-33 | lines without a tag line leave the initial state unchanged: not keeping, empty buffer, empty bank |
| QueryBank.PreambleIgnored | bank.go:48-52 | lines before the first tag line do not change the loaded bank |
| QueryBank.BlockTextEndsInSpace | bank.go:48-52 | a block's text is empty or ends in a space |
| QueryBank.ScanKeepsInv | bank.go:35-53 | after any lines, the loop state satisfies the invariant: the key is the last tag, the buffer is the text of its open block, and every entry is one block's text |
| QueryBank.RepeatedTagContinues | bank.go:38-46 | a tag line of the tag already in force changes nothing, so its block keeps accumulating |
| QueryBank.TagSwitchFlushes | bank.go:40-45 | a tag line of another name stores the buffer under the old key once lines are kept, empties the buffer, and makes the new name the key |
| QueryBank.EmptyBlockStoredEmpty | bank.go:40-43 | a tag line followed directly by a tag line of another name is stored as the empty query |
| QueryBank.ScannedEntriesAreBlocks | bank.go:35-53 | every raw entry is the text of one block of its key: non-`#` lines, each followed by one space |
| QueryBank.LoadedEntriesAreBlocks | bank.go:24-59 | every loaded entry is the stripped text of one block of its key |
| QueryBank.LoadedKeys | bank.go:38-53 | every key is a tag name; every tag name other than the last is a key; the last is a key once a non-`#` line follows it |
| QueryBank.TrailingTagNotStored | bank.go:40-51 | a tag line of a name not seen before, followed only by `#` lines that do not end its block, leaves that name out of the loaded bank: a trailing tag with no body is not a key |
| QueryBank.LoadedQueriesClean | bank.go:55-57 | no loaded query has two adjacent whitespace characters, and every non-empty one ends in exactly one space |
| QueryBank.StrippedIsClean | bank.go:50-56 | stripping a text that is empty or ends in a space gives a clean query |
| QueryBank.Prepare | bank.go:63-82 | an absent key is an error; with no argument, the stored query is returned unchanged; with arguments, the template engine's result or its failure; `Prepare` in bank/bank.go (lines 65-87) does the same lookup |
| SparqlBank.LoadBank | bank.go:24-59 | the scan loop and the strip loop return exactly `Loaded(lines)`, and every query in it is clean |
| BankPackage.Load | bank/bank.go:24-61 | the same two loops of the `bank` package return exactly `Loaded(lines)`, and every query in it is clean |
| QueryBankSample.SampleScan | bank_test.go:10-30 | scanning the test bank gives raw entries under `q0`, `q1` and `q2`, with `q0` holding its query line and the blank line after it, each followed by a space |
| QueryBankSample.SampleLoaded | bank_test.go:32-39 | the test bank loads with exactly three keys, and `q0` is `SELECT * WHERE { ?s ?p ?o } ` |
| QueryBankSample.SamplePrepare | bank_test.go:47-60 | `Prepare("q0")` returns that text, and `Prepare("q3")` fails |
| Sparql.TermFromJSON | sparql.go:92-140 | an error exactly when the type tag is not `bnode`, `uri`, `literal` or `typed-literal`; every term is well formed; an `xsd:string` literal holds the raw value; only a `literal` carries a language tag |
| Sparql.TypedLiteral | sparql.go:104-136 | a typed literal is always a literal with no language tag; it is the raw-text `xsd:string` literal exactly when its value does not parse as one of the four parsed datatypes; otherwise it keeps its datatype with a value of that type |
| Sparql.Cell | sparql.go:60 | the cell of a variable the row binds is its binding; for any other variable it is the zero binding, whose type tag the converter does not know |
| Sparql.NodesUnchecked | sparql.go:94-97 | a `bnode` gives the blank node and a `uri` the IRI, each holding the value unchanged and never failing |
| Sparql.LiteralIgnoresDatatype | sparql.go:98-103 | a `literal` is always an `xsd:string` literal with the binding's language tag, whatever its `datatype` field holds |
| Sparql.TypedLiteralOutcome | sparql.go:104-136 | a `typed-literal` never fails and never keeps a language tag; it is the raw-text `xsd:string` literal exactly when the datatype is not one of the four parsed ones or the parser rejects the text; otherwise it is the literal of that datatype holding exactly the value the parser returns |
| Sparql.RoundTrip | sparql.go:92-140 | every term the converter can produce is read back from the binding it is written as, given parsers that invert the printers |
| Sparql.Column | sparql.go:59-63 | a variable's column has at most one term per row |
| Sparql.ColumnEmpty | sparql.go:59-63 | a column is empty exactly when no row's cell for the variable converts |
| Sparql.Bindings | sparql.go:56-68 | the nested loops return exactly `BindingsOf(vars, rows)` |
| Sparql.BindingsOfEntry | sparql.go:56-68 | a name's entry is its row-order column repeated once per listing in the head; it is a key exactly when the head lists it and some row gives it a term |
| Sparql.DistinctVarsGiveColumns | sparql.go:58-63 | with no repeated head variables, each variable's entry is its column |
| Sparql.BoundCount | sparql.go:56-68 | with no repeated head variables, each with a term somewhere, there is one entry per variable |
| Sparql.MissingCellSkipped | sparql.go:59-63 | a row that does not bind the variable adds nothing to its column |
| Sparql.UnboundVariableAbsent | sparql.go:56-68 | a variable that no row binds gets no entry |
| Sparql.SolutionOf | sparql.go:76-82 | a row's solution has exactly the row's keys whose cell has a known type tag, including keys not in the head |
| Sparql.SolutionAt | sparql.go:77-81 | such a key maps to the term its cell converts to |
| Sparql.Solutions | sparql.go:72-87 | one solution per row, in row order, each equal to `SolutionOf` of its row |
| Sparql.ColumnIsProjection | sparql.go:56-87 | the two views agree: a variable's column is what its name picks out of the solutions, in row order |
| SparqlSample.SampleBindings | sparql_test.go:64-84 | the test document has nine bound variables, two terms for `x` and one for `updated` |
| SparqlSample.SampleSolutionNodes | sparql_test.go:105-108 | the blank node, IRI and plain and language-tagged literals of the solutions are the ones the test expects |
| SparqlSample.SampleSolutionValues | sparql_test.go:109-113 | the integer, float, boolean and dateTime literals are the parsed values with their datatypes |
| SparqlSample.SampleViews | sparql_test.go:71-93 | `Bindings` and `Solutions` on the test document give those counts and terms |

## Left out

- The JSON decoding of `ParseJSON` (sparql.go:47-52) is `encoding/json`. The model starts from the decoded `Results`; an absent field is the empty string. `Distinct` and `Ordered` are kept but unused, as in the source.
- `strconv.Atoi`, `strconv.ParseFloat`, `strconv.ParseBool` and `time.Parse` are library code, and so are float and time values. They are fields of the `Codecs` parameter, each returning `None` where Go returns an error. A float is its 64-bit pattern, and a time is an opaque record.
- `DateFormat` is a package-level variable that tests change while parsing may read it. It is the `dateFormat` field of `Codecs`, so that data race is not modelled.
- Sparql.TypedLiteralOutcome: the parsed value is whatever the parser parameter returns, because the parsers themselves are not modelled. `Atoi`'s 64-bit range is one of the things left to them.
- SparqlSample.SampleSolutionValues: holds for any parsers that accept the test's text, because the parsers are parameters. The expected float and time values are arguments, not the test's constants.
- The `text/template` parse and execution in `Prepare` (bank.go:69-78, bank/bank.go:71-83) is a foreign engine. It is the `render` parameter, whose failure stands for a parse or execution error. The Go error message text is not modelled.
- `bufio.Scanner` is replaced by the sequence of lines it yields. Not modelled: its carriage-return handling, its 64 KiB token limit, and the scan error the loaders ignore.
- The `regexp` engine is replaced by hand-written predicates for the three patterns. UTF-8 decoding of invalid bytes is not modelled: a string is a sequence of characters.
- Go map iteration order, in `Solutions` and in the loaders' strip loop, is left open. The methods pick any remaining key, and their results are maps, so order does not matter.
- The network client (repo.go, cache.go and the examples directory) is not part of this model.
