# template-embedded, modelled in Dafny

The tool `embedded.go` turns Go templates into Go source. It reads one
template file or every template in a directory. It base64-encodes each
file's bytes and writes a generated `.gen.go` file. That file holds the
package clause, an import block, a map literal `embeddedTemplates` from
template name to encoded text, and a fixed `Parse` loader function.

This project models the core of that single `main()` function:

- `Names` (names.dfy): the selection filter (a name ends in `.tmpl` or
  `.html`) and the output-path normalisation to the `.gen.go` suffix.
- `Base64` (base64.dfy): standard base64 as in section 4 of RFC 4648.
  It has an encoder and a decoder, with the round trip and the length law proved.
- `Table` (table.dfy): the filesystem as a value, and the table build.
  Single-file mode keys the one entry by the path as opened. Directory mode
  walks the listing and keys each selected entry by its bare name. The first
  failed read aborts. `BuildTableDir` is the loop, proved against the
  declarative `TableSpec`.
- `Emit` (emit.dfy): the generated text. `EmitGenerated` appends to a buffer
  and visits the table's keys in an unspecified order (a `:|` choice stands
  for Go's map iteration order). It is proved to produce `Render` for some
  ordering. Lemmas show that the map literal has exactly one line per entry,
  whatever the order.
- `Generator` (generator.dfy): one run. The usage check, the table build,
  path normalisation and emission, with read errors ending the run before
  any text exists.

Filesystem access is a parameter `FileSystem(files, dirs)`. `files` maps each
path that can be opened and read in full to its bytes. `dirs` maps each path
that can be listed to its entry names in listing order. A failed open or read
is a path missing from `files`. A failed listing is a path missing from `dirs`.

## Model

| member | source | states |
|---|---|---|
| `Names.TemplateNameIff` | embedded.go:33 | a name is selected exactly when it is some string followed by ".tmpl" or by ".html" |
| `Names.HasSuffixIff` | embedded.go:53 | the suffix test holds exactly when the name is some prefix followed by the suffix |
| `Names.TrimSuffix` | embedded.go:72 | with the suffix present, the result followed by the suffix is the input; otherwise the input is unchanged |
| `Names.NormalizeOutputPath` | embedded.go:71-73 | the result ends in ".gen.go"; a ".gen.go" path is kept; otherwise one trailing ".go" is dropped and ".gen.go" appended, or ".gen.go" is appended to a path without ".go" |
| `Names.NormalizeIdempotent` | embedded.go:71-73 | normalising a normalised path changes nothing |
| `Names.NormalizeBareName` | embedded.go:71-73 | "widgets" becomes "widgets.gen.go" |
| `Names.NormalizeGoName` | embedded.go:71-73 | "widgets.go" becomes "widgets.gen.go" |
| `Names.NormalizeEmpty` | embedded.go:71-73 | the empty default output path becomes ".gen.go" |
| `Base64.ValueOf` | embedded.go:45 | each alphabet character has a 6-bit value, and the character for that value is the character itself |
| `Base64.Encode` | embedded.go:45 | the text of n bytes has length 4 * ceil(n / 3) and holds only alphabet characters and '=' |
| `Base64.DecodeEncode` | embedded.go:45 | decoding the encoding of any bytes, empty ones included, gives the same bytes |
| `Base64.EncodeInjective` | embedded.go:65 | different contents never share an encoding |
| `Base64.DecodeLength` | embedded.go:65 | every text the decoder accepts has length 4 * ceil(n / 3) for the n bytes it yields |
| `Base64.StandardTestVectors` | embedded.go:45 | the encoder meets the test vectors of section 10 of RFC 4648 for "", "f", "fo" and "foo" |
| `Table.BuildTableSingle` | embedded.go:33-45 | single-file mode returns the specified table: one entry keyed by the input path as opened, or a read error naming that path |
| `Table.BuildTableDir` | embedded.go:47-67 | the directory loop returns the specified table, or the listing error, or the read error of the first selected entry that fails; the partial table is dropped |
| `Table.FirstUnreadable` | embedded.go:52-64 | it returns none exactly when every selected entry is readable; otherwise it returns a selected, unreadable entry with every entry before it readable |
| `Table.FirstUnreadableAt` | embedded.go:54-63 | the entry at which the loop stops is the first failure of the listing |
| `Table.DirTable` | embedded.go:52-67 | inserting entry by entry gives a table whose keys are exactly the selected bare names, each holding the encoding of the file under the directory |
| `Table.TableSucceedsIff` | embedded.go:33-67 | a table is built exactly when the input file is readable, or the directory can be listed and all its selected entries are readable |
| `Table.DirTableKeys` | embedded.go:52-67 | directory mode keys are exactly the selected bare names, and no key comes from an entry the filter rejects |
| `Table.SingleTableKey` | embedded.go:33-45 | a readable single template gives exactly one entry, keyed by the input path as opened |
| `Table.TableRoundTrip` | embedded.go:45-65 | every value decodes to the exact bytes of its source file and has length 4 * ceil(n / 3) |
| `Table.TableValuesAreBase64` | embedded.go:65 | every value consists of base64 alphabet characters and padding |
| `Table.DirFailureNamesFirstUnreadable` | embedded.go:54-64 | when some selected entry is unreadable, the run fails with the error of the first one in listing order |
| `Emit.AppendEntries` | embedded.go:82-84 | the loop appends, to what the buffer held, the entry line of every table key exactly once, and returns the order in which it visited the keys |
| `Emit.EmitGenerated` | embedded.go:74-107 | the buffer ends up holding the package clause, the imports, one line per table entry in some order of all keys, the closing brace and the loader |
| `Emit.RenderStartsWithHeader` | embedded.go:77-78 | the text begins with "package " + name + two newlines, then the import block for "encoding/base64" and "text/template" |
| `Emit.RenderEndsWithLoader` | embedded.go:85-107 | the text ends with the closing "}" of the map, an empty line and the fixed loader text |
| `Emit.EntryLineParts` | embedded.go:83 | an entry line holds the name after four spaces and a quote, and the encoding between `": "` and the trailing `",` |
| `Emit.EntryLineInjective` | embedded.go:83 | when encodings hold no quote, an entry line determines its name and its encoding |
| `Emit.EntryLinesDistinct` | embedded.go:82-84 | no entry line is written twice |
| `Emit.EntryLinePresent` | embedded.go:82-84 | every table entry's line is written |
| `Emit.EntryLinesOnePerKey` | embedded.go:80-85 | the map literal has as many lines as the table has entries, each entry's line, each line some entry's, no line twice |
| `Emit.EntryLinesOrderIndependent` | embedded.go:82-84 | any two iteration orders write the same multiset of lines |
| `Generator.Generate` | embedded.go:25-107 | an empty input is a usage error; a failed read gives that error and no text; otherwise the output path is normalised and the text renders the table |
| `Generator.TableValuesUnquoted` | embedded.go:83 | no table value holds a double quote |
| `Generator.RunsAgreeUpToLineOrder` | embedded.go:82-84 | two runs on the same inputs differ at most in the order of the map-literal lines |
| `Generator.DirectoryScenario` | embedded.go:47-78 | a directory with "a.tmpl" ("hello") and "b.txt" gives the one entry "a.tmpl" = "aGVsbG8=", output "gen" becomes "gen.gen.go", and with package "tpl" the text opens with "package tpl" and an empty line |

## Left out

- Flag parsing (embedded.go:15-23): the input path, the output path and the package name are parameters. Only the empty-input usage error is modelled.
- The `-out` help text says stdout is the default. The code always writes a file, and the model follows the code.
- Real filesystem calls (`os.Open`, `ioutil.ReadAll`, `ioutil.ReadDir`) are replaced by the `FileSystem` value. The deferred `Close` calls have no effect on the result and are not modelled.
- `ioutil.ReadDir` returns entries sorted by name. The model takes the listing order as given, because it only decides which failing entry is reported first.
- A listed subdirectory whose name passes the filter fails to read in Go. The model covers this by leaving its path out of `files`.
- `bufio.Writer` buffering and `Flush` (embedded.go:74-75, 108-111): emission builds a string. Flushing into a `bytes.Buffer` cannot fail.
- `ioutil.WriteFile` and its error (embedded.go:112-115): a successful run returns the path and the text to write. The write itself is I/O.
- Go's map iteration order is nondeterministic. It is modelled as an unspecified choice, and the properties hold for every order.
- File names, paths, the package name and the generated text are Unicode strings. Go byte strings that are not valid UTF-8 are outside the model.
- The loader text is a constant. Its runtime behaviour in Go's `text/template` engine is not modelled.
- Names and encodings are inserted without escaping, so the generated file is not always valid Go. The model claims no such validity.
- `Base64.Decode` follows section 4 of RFC 4648. It does not skip carriage returns and line feeds, as Go's decoder does. It serves only as the inverse of the encoder: the tool itself never decodes.
