# DynamicCsv in Dafny

A verified model of the DynamicCsv library: a comma-separated-values loader
(`DynamicCsvFile`) that reads a header line and then one `DynamicCsvRow` per
non-blank line, and the row type itself, which exposes its field values by
column name or by position, converts to a joined string, a debug string, a
dictionary and a sequence of `DynamicCsvEntry` (content, header) pairs.

Layout (one module per file):

- `wrappers.dfy` — `Option` (a C# `null`) and `Result` (a value or a thrown exception).
- `exceptions.dfy` — the exceptions the library throws, with its two `InvalidDataException` messages.
- `constants.dfy` — `Constants.Separator`, the comma.
- `text.dfy` — the .NET primitives the library calls: `string.Split(char)`,
  `string.Join`, `List<string>.IndexOf`, `string.IsNullOrWhiteSpace`, with the
  two round-trip lemmas between `Split` and `Join`.
- `entry.dfy` — `DynamicCsvEntry`, an immutable value.
- `row.dfy` — `DynamicCsvRow`, a class with a `const header` (the file's
  header, immutable once loaded) and a mutable `row: seq<string>`; get and
  set by name or by `Key` (the indexer argument by its runtime type).
- `file.dfy` — `DynamicCsvFile`, a class whose `Load` runs the line loop
  imperatively and is proved equal to the pure `LoadSpec`, about which the
  load properties are proved.

The input stream is a `seq<string>` of the lines `ReadLine` would return;
`ReadLine` returning `null` is the end of that sequence, and a `null` stream is
`None`. Exceptions become `Failure` values; an operation that throws leaves
the model's own objects (rows and files) unchanged.

Behaviour of the code that the model keeps as written:

- `ToDictionary` throws on a repeated header name (`Dictionary.Add`); it does
  not keep the last value.
- Reading through the indexer with an unknown column name throws
  (`row[-1]`); it does not report not-found.
- `Count` counts every line read after the header, blank ones included.
- Writing through the indexer with an in-range integer stores the value and
  still reports `false`.

## Model

| member | source | states |
|---|---|---|
| `Text.Split` | DynamicCsvRow.cs:24 | `Split(char)` yields one more piece than there are separators, and no piece contains the separator |
| `Text.JoinSplit` | DynamicCsvRow.cs:24 | joining the pieces of a split with the same separator gives back the original text |
| `Text.SplitJoin` | DynamicCsvRow.cs:179 | a non-empty list of separator-free values survives join-then-split unchanged |
| `Text.IndexOf` | DynamicCsvRow.cs:33 | `IndexOf` is -1 exactly when the name is absent, and otherwise the first position holding it |
| `Text.Join` | DynamicCsvRow.cs:179 | `string.Join`: empty for no parts, starting with the first part, and with exactly one separator between neighbours when no part holds it; `JoinSplit` and `SplitJoin` make it the inverse of `Split` |
| `Text.IsWhiteSpace` | DynamicCsvFile.cs:48 | `string.IsNullOrWhiteSpace` over the .NET `char.IsWhiteSpace` set (`IsWhiteSpaceChar`): true for the empty string, and a blank line never holds the separator |
| `CsvEntry.MakeEntry` | DynamicCsvEntry.cs:9-16 | the entry keeps the content (first argument) and the header (second argument) exactly as given |
| `CsvRow.ParseRow` | DynamicCsvRow.cs:18-26 | null content, then null header, are rejected first; otherwise it succeeds exactly when the separator count plus one equals the header width, and then the fields are separator-free, as many as the header columns (at least one), and join back to the content |
| `CsvRow.DynamicCsvRow.Create` | DynamicCsvRow.cs:18-26 | construction fails exactly as `ParseRow` does; on success the row is fresh, keeps the given header, holds the split fields, and its `ToString` is the original content |
| `CsvRow.DynamicCsvRow.TryGetMember` | DynamicCsvRow.cs:31-41 | found exactly when the name is a header name, and then the value at the first column of that name |
| `CsvRow.DynamicCsvRow.TrySetMember` | DynamicCsvRow.cs:43-50 | returns true exactly when the name is a header name; then only the first column of that name is overwritten and reads back as the new value; otherwise the row is unchanged |
| `CsvRow.DynamicCsvRow.TryGetIndex` | DynamicCsvRow.cs:52-71 | an in-range integer reads that column and an out-of-range one throws; a known name reads the same as `TryGetMember` and an unknown one throws; null or another index type gives not-found |
| `CsvRow.GetByNameAgreesWithIndex` | DynamicCsvRow.cs:31-68 | reading a column by name, by name through the indexer, and by its position all give the same value |
| `CsvRow.DynamicCsvRow.TrySetIndex` | DynamicCsvRow.cs:74-95 | an in-range integer overwrites exactly that column but reports false; an out-of-range one throws and changes nothing; a name behaves like `TrySetMember`; null or another type reports false and changes nothing |
| `CsvRow.DynamicCsvRow.TryConvert` | DynamicCsvRow.cs:98-113 | conversion to a string list gives the fields, to a string gives the same text as `ToString`, and any other target is refused |
| `CsvRow.DynamicCsvRow.GetEnumerator` | DynamicCsvRow.cs:137-140 | exactly one entry per header column, in header order, pairing the column name with its value |
| `CsvRow.DynamicCsvRow.ToDictionary` | DynamicCsvRow.cs:153-162 | succeeds exactly when no header name repeats, then maps every header name to its column's value and has no other keys; otherwise throws for the name at the first position whose name already occurred earlier |
| `CsvRow.DebugPairs` | DynamicCsvRow.cs:168-172 | one `name=value` piece per column, pairing `header[k]` with `row[k]` |
| `CsvRow.DynamicCsvRow.ToDebugString` | DynamicCsvRow.cs:164-175 | the `name=value` pieces joined by the separator (empty for a row without fields) |
| `CsvRow.DebugStringSplits` | DynamicCsvRow.cs:164-175 | when no name or value contains the separator, the debug string splits back into exactly the `name=value` pieces |
| `CsvRow.DynamicCsvRow.ToString` | DynamicCsvRow.cs:177-180 | the values joined by the separator, the empty-row guard included; when no value contains the separator, splitting it gives the values back |
| `CsvFile.NonBlank` | DynamicCsvFile.cs:56 | the lines kept for rows are at most the input lines, and none of them is blank |
| `CsvFile.BlankCount` | DynamicCsvFile.cs:54-56 | blank lines and kept lines together account for every line read |
| `CsvFile.ParseRows` | DynamicCsvFile.cs:52-59 | building the rows can only fail with the row-mismatch `InvalidDataException` |
| `CsvFile.ParseRowsShape` | DynamicCsvFile.cs:52-59 | on success there is one row per non-blank line, in file order, each as wide as the header and the comma-split of its line |
| `CsvFile.ParseRowsSucceedsIff` | DynamicCsvFile.cs:58 | building the rows succeeds exactly when every non-blank line has as many fields as the header |
| `CsvFile.MismatchFails` | DynamicCsvFile.cs:58 | a single non-blank line of the wrong width makes the whole load of rows fail |
| `CsvFile.ParseRowsStep` | DynamicCsvFile.cs:52-59 | one more line after a successful prefix is skipped when blank, appended when it fits, and otherwise fails the whole load |
| `CsvFile.LoadSpec` | DynamicCsvFile.cs:39-62 | a null stream throws `ArgumentNullException`; a missing or blank first line throws the empty-header error; otherwise only the row mismatch can fail; on success the headers are the separator-free pieces of the first line (at least one), `Count` is the number of lines after the header, `Count - Rows` is the number of blank ones, and each row is the header's width and the split of its non-blank line, in order |
| `CsvFile.LoadSucceedsIff` | DynamicCsvFile.cs:41-59 | a load succeeds exactly when the stream is non-null, its first line is present and not blank, and every later non-blank line has the header line's number of separators |
| `CsvFile.LoadPathSpec` | DynamicCsvFile.cs:29-36 | a null or blank file name throws `ArgumentNullException` before anything is read; otherwise it is the load of the file's lines |
| `CsvFile.DynamicCsvFile.constructor` | DynamicCsvFile.cs:20-27 | a new file has no headers, no rows and a zero count |
| `CsvFile.DynamicCsvFile.Load` | DynamicCsvFile.cs:39-62 | fails exactly when `LoadSpec` does, with its exception; on success returns a fresh file holding `LoadSpec`'s headers, count and row values, whose rows are fresh, pairwise distinct, share its headers and are each as wide as them |
| `CsvFile.DynamicCsvFile.ReadRows` | DynamicCsvFile.cs:51-59 | the line loop: counts every line, appends a fresh row per non-blank line and stops at the first mismatch, exactly as `ParseRows` |
| `CsvFile.DynamicCsvFile.LoadPath` | DynamicCsvFile.cs:29-36 | fails exactly when `LoadPathSpec` does; on success the file holds `LoadPathSpec`'s table |
| `CsvFile.DynamicCsvFile.GetEnumerator` | DynamicCsvFile.cs:64-67 | enumeration yields the rows in insertion order with no filtering |

## Left out

- `TryInvokeMember` (reflective forwarding of calls to `List<string>`): a foreign runtime call; it could also break the row-width invariant, which the model therefore assumes is never done.
- The dynamic-language plumbing: the binders are replaced by explicit operations and the `Key` datatype; the `Dynamic` property, `AsDynamicEnumerable`, the `DebuggerDisplay` attribute and the non-generic `IEnumerator` overloads have no behaviour of their own.
- CsvFile.DynamicCsvFile.Load: the consumption of the caller's `StreamReader` is not modelled, because the lines are passed as a value; in C# the reader is left at end of stream after a successful load and just past the offending line after a row mismatch.
- CsvRow.DynamicCsvRow.GetEnumerator: returns a snapshot of the entries; the C# `Select` is lazy and reads `row[i]` as each entry is produced, so a set during enumeration shows up in later entries there but not in the model.
- Opening a `StreamReader` from a file name: `LoadPath` takes the file's lines as a parameter, so missing files and other I/O errors are not modelled; stream disposal is not modelled either (the code never disposes it).
- Line splitting by `ReadLine` (`\n`, `\r`, `\r\n`): the model starts from the lines.
- `value.ToString()` in the set operations: the value is modelled as already a string, so a `null` value (which would throw) is not modelled.
- `TryConvert` to `List<string>` returns the live list in C#; the model returns the current field values, not an alias.
- `DynamicCsvEntry` accepts `null` arguments; model strings are never null.
- The header is shared by reference in C#; the model gives every row the same immutable value, and no operation of the model changes the public `Headers` and `Rows` lists after `Load`, which C# callers could mutate.
- `Count` is a 32-bit `int` in C#; its overflow after 2^31 lines is not modelled.
- An empty `indexes` array in the indexer calls (never produced by the C# binder) is not modelled.
- C# `char` is a UTF-16 code unit while a Dafny `char` is a Unicode scalar value; the comma and the whitespace set are all in the basic plane, so splitting and blank-line tests agree.
