# Schema reader of the Spider text-to-SQL example

The SQL example in `examples/archive/refactor/sql_test.py` evaluates
generated SQL against Spider databases. Its schema reader,
`__read_schema_definition(schema_name, spider_dataset_path)`, is the only
part of that file with logic of its own. This project models it in Dafny
and proves what its result looks like. The reader:

- opens `<root>/database/<schema>/schema.sql` and splits its text on `;`;
- keeps each piece that starts with `CREATE TABLE` once upper-cased and
  stripped of surrounding whitespace;
- strips each kept piece and appends it to a list;
- returns the list joined with `";\n\n"`, together with the path
  `<root>/database/<schema>/<schema>.sqlite` of the database file.

The model has two modules:

- `PyStr` models the Python string and path operations the reader uses,
  with their CPython semantics: `str.split` on one character, `str.join`,
  `str.strip()` with no argument (it trims every character CPython counts
  as whitespace), `str.upper()` restricted to ASCII letters, `startswith`,
  and POSIX `os.path.join` and `os.path.basename`.
- `SchemaDefinition` models the reader. `ReadSchemaDefinition` is the
  reader's loop, written as an imperative method over the split pieces with
  an accumulator. The method is proved equal to the specification
  functions `SchemaText` and `DatabasePath`. The lemmas state the
  reader's properties about those functions:
  - every kept statement passes the test, has no `;` and no surrounding
    whitespace, and is not empty;
  - statements are kept in input order, exactly one per passing piece;
  - the text is empty exactly when nothing passes;
  - splitting the text again and stripping the pieces gives back the kept
    list, and the extraction is idempotent;
  - the database file is named after the schema and sits beside the dump.

The prefix test is the reader's own: an exact, single-space
`"CREATE TABLE"` after upper-casing and stripping. So `CREATE  TABLE` and
`CREATE\nTABLE` are dropped and `CREATE TABLEX` is kept.

The reader does not parse the statements into tables and columns, and it
rejects no malformed statement. It only selects and joins statement text
with the exact prefix test above. Parsing happens in the
`ParseCreateStatements` operator, whose source is not part of this model.

## Model

| member | source | states |
|---|---|---|
| SchemaDefinition.ReadSchemaDefinition | examples/archive/refactor/sql_test.py:24-44 | the loop over the `;`-pieces with the appended list returns exactly `SchemaText(content)` and `DatabasePath(root, schema)` |
| SchemaDefinition.SchemaText | examples/archive/refactor/sql_test.py:37-44 | the returned schema text: the kept statements of the `;`-pieces joined with `";\n\n"`; its properties are the round-trip, idempotence and emptiness lemmas below |
| SchemaDefinition.IsCreateTable | examples/archive/refactor/sql_test.py:41 | the test on one piece: its upper-cased, stripped text starts with `CREATE TABLE`; pinned down by the example lemmas and `TestOnStripped` below |
| SchemaDefinition.CreateTableStatements | examples/archive/refactor/sql_test.py:40-42 | the list the loop builds: `KeepStripped` with the test `IsCreateTable` |
| SchemaDefinition.KeepStripped | examples/archive/refactor/sql_test.py:40-42 | each piece that passes a test, stripped, in piece order; characterised by `KeptInOrder` and `KeptCount` |
| SchemaDefinition.DatabasePath | examples/archive/refactor/sql_test.py:27-29 | the database path is `database/<schema>/<schema>.sqlite` under the dataset root: the root, then a `/` when the root is non-empty and does not end in `/`, then that relative path |
| SchemaDefinition.SchemaFilePath | examples/archive/refactor/sql_test.py:31-32 | the dump's path is `database/<schema>/schema.sql` under the dataset root: the root, then a `/` when the root is non-empty and does not end in `/`, then that relative path |
| SchemaDefinition.DatabaseFileName | examples/archive/refactor/sql_test.py:27-29 | for a schema name without `/`, the database path's base name is `<schema>.sqlite` and its directory is `database/<schema>/` joined onto the dataset root |
| SchemaDefinition.SchemaFileName | examples/archive/refactor/sql_test.py:31-32 | the dump's base name is `schema.sql` and its directory is `database/<schema>/` joined onto the dataset root |
| SchemaDefinition.DatabaseBesideSchema | examples/archive/refactor/sql_test.py:27-32 | for a schema name without `/`, the database file is named `<schema>.sqlite` and lies in the same directory as the dump |
| SchemaDefinition.KeptInOrder | examples/archive/refactor/sql_test.py:37-42 | each kept statement is the stripped form of one piece, the pieces' indices strictly increase, and a piece is kept if and only if it passes the test |
| SchemaDefinition.KeptCount | examples/archive/refactor/sql_test.py:37-42 | the number of kept statements equals the number of pieces that pass the test |
| SchemaDefinition.KeepNext | examples/archive/refactor/sql_test.py:40-42 | one more loop step appends the piece's stripped form exactly when the piece passes the test |
| SchemaDefinition.KeptNone | examples/archive/refactor/sql_test.py:40-42 | nothing is kept if and only if no piece passes the test |
| SchemaDefinition.KeepAll | examples/archive/refactor/sql_test.py:40-42 | when every piece passes, the kept list is every piece, stripped, in order |
| SchemaDefinition.StrippedStatement | examples/archive/refactor/sql_test.py:41-42 | a `;`-free piece that passes the test, once stripped, still passes, has no surrounding whitespace, no `;`, is not empty, and its upper-cased form starts with `CREATE TABLE` |
| SchemaDefinition.KeptStatementWellFormed | examples/archive/refactor/sql_test.py:37-42 | every statement kept from a dump is well-formed in the sense above |
| SchemaDefinition.SchemaStatementsWellFormed | examples/archive/refactor/sql_test.py:37-42 | all kept statements of a dump are well-formed at once |
| SchemaDefinition.SpacedStatement | examples/archive/refactor/sql_test.py:41-42 | a well-formed statement behind leading whitespace still passes the test and strips back to itself |
| SchemaDefinition.SplitJoinedPieces | examples/archive/refactor/sql_test.py:37 | splitting `";\n\n"`-joined `;`-free statements on `;` gives the first statement, then each later one behind `"\n\n"` |
| SchemaDefinition.JoinedPiece | examples/archive/refactor/sql_test.py:41-42 | each such piece of a joined list of well-formed statements passes the test and strips back to its statement |
| SchemaDefinition.SplitJoined | examples/archive/refactor/sql_test.py:37-44 | splitting a non-empty joined list of well-formed statements gives pieces that all pass and strip back to the list |
| SchemaDefinition.ReextractJoined | examples/archive/refactor/sql_test.py:37-44 | extracting from the join of well-formed statements gives back exactly those statements, also for the empty list |
| SchemaDefinition.SchemaTextRoundTrip | examples/archive/refactor/sql_test.py:37-44 | extracting from the returned text gives the kept list again, and when that list is non-empty, splitting the text on `;` and stripping each piece gives it too |
| SchemaDefinition.SchemaTextIdempotent | examples/archive/refactor/sql_test.py:37-44 | running the extraction on its own output returns the same text |
| SchemaDefinition.SchemaTextEmpty | examples/archive/refactor/sql_test.py:44 | the returned text is empty if and only if no piece of the dump passes the test |
| SchemaDefinition.StripKeepsCase | examples/archive/refactor/sql_test.py:42 | `"  create table t(id INT)"` is kept as `"create table t(id INT)"`, in its own letter case |
| SchemaDefinition.CaseInsensitiveMatch | examples/archive/refactor/sql_test.py:41 | the lower-case piece `"  create table t(id INT)"` passes the test |
| SchemaDefinition.TestOnStripped | examples/archive/refactor/sql_test.py:41 | on text without surrounding whitespace, the test holds if and only if the upper-cased text starts with `CREATE TABLE` |
| SchemaDefinition.DoubleSpaceRejected | examples/archive/refactor/sql_test.py:41 | `CREATE  TABLE t`, with two spaces, fails the test |
| SchemaDefinition.LineBreakRejected | examples/archive/refactor/sql_test.py:41 | `CREATE\nTABLE t`, with a line break, fails the test |
| SchemaDefinition.LongerWordAccepted | examples/archive/refactor/sql_test.py:41 | `CREATE TABLEX` passes the test |
| PyStr.Split | examples/archive/refactor/sql_test.py:37 | `split(";")` gives one more piece than there are `;`, no piece contains `;`, and joining the pieces with `;` gives back the text |
| PyStr.SplitJoin | examples/archive/refactor/sql_test.py:37 | splitting the join of a non-empty list of separator-free pieces gives back that list |
| PyStr.Join | examples/archive/refactor/sql_test.py:44 | `sep.join(parts)`: the parts with `sep` between neighbours and none at the end; `Split` and `SplitJoin` state it as the inverse of splitting |
| PyStr.StartsWith | examples/archive/refactor/sql_test.py:41 | `str.startswith`: the text begins with the prefix, character for character |
| PyStr.JoinShift | examples/archive/refactor/sql_test.py:44 | joining with `;` followed by more text is joining with `;` after prefixing every piece but the first with that text |
| PyStr.JoinNonEmpty | examples/archive/refactor/sql_test.py:44 | a join of a non-empty list is at least as long as its first part |
| PyStr.Strip | examples/archive/refactor/sql_test.py:41-42 | `str.strip()` with no argument; its result is never longer than the input, and `StripSpec` and `StripUnique` give its meaning |
| PyStr.Upper | examples/archive/refactor/sql_test.py:41 | `str.upper()` on ASCII letters; its result has the input's length, and `UpperCharFacts` gives the character mapping |
| PyStr.StripSpec | examples/archive/refactor/sql_test.py:41-42 | `strip()` returns a text with no whitespace at either end that is the input with only whitespace removed around it |
| PyStr.StripUnique | examples/archive/refactor/sql_test.py:41-42 | a stripped text surrounded by whitespace strips back to itself |
| PyStr.StripDecompose | examples/archive/refactor/sql_test.py:41-42 | every text is whitespace, then its stripped form, then whitespace |
| PyStr.StripIdempotent | examples/archive/refactor/sql_test.py:42 | stripping twice is stripping once |
| PyStr.StripStripped | examples/archive/refactor/sql_test.py:42 | text without surrounding whitespace strips to itself |
| PyStr.StripInside | examples/archive/refactor/sql_test.py:42 | every character of the stripped text occurs in the input |
| PyStr.StripAfterSpace | examples/archive/refactor/sql_test.py:42 | leading whitespace does not change the stripped form |
| PyStr.UpperCharFacts | examples/archive/refactor/sql_test.py:41 | ASCII upper-casing leaves no lower-case ASCII letter, keeps every other character, and maps whitespace to whitespace and nothing else to it |
| PyStr.UpperConcat | examples/archive/refactor/sql_test.py:41 | upper-casing distributes over concatenation |
| PyStr.UpperStrip | examples/archive/refactor/sql_test.py:41 | upper-casing then stripping equals stripping then upper-casing |
| PyStr.PathJoin | examples/archive/refactor/sql_test.py:27-29 | `os.path.join(a, b)` returns `b` alone when it is absolute; otherwise it is `a + b` when `a` is empty or ends in `/`, and `a + "/" + b` when not |
| PyStr.PathJoinAppend | examples/archive/refactor/sql_test.py:27-29 | joining a relative path and then appending text is joining the longer relative path |
| PyStr.PathJoinFile | examples/archive/refactor/sql_test.py:27-32 | joining `dir + name` onto a root puts `name` as the base name in the directory `os.path.join(root, dir)` |
| PyStr.SplitPath | examples/archive/refactor/sql_test.py:27-29 | behind a directory ending in `/`, a name without `/` is the base name and the directory is what precedes it |
| PyStr.BaseName | examples/archive/refactor/sql_test.py:27-32 | `os.path.basename`: the base name holds no `/`, and the path is its `Directory` followed by its base name |
| PyStr.Directory | examples/archive/refactor/sql_test.py:27-32 | the path up to and including its last `/`; it is empty or ends in `/` |

## Left out

- The file read at `examples/archive/refactor/sql_test.py:31-34` is I/O. The dump's text is the `content` parameter of `ReadSchemaDefinition`, and only the path it is read from is modelled, as `SchemaFilePath`. A missing file or a decoding error is not modelled.
- `produce_dataset_w_spider_schema` (lines 47-66) only moves data between `JsonReader`, polars and `JsonWriter`.
- The `Check`/`CheckSet` definitions (lines 69-152) configure the `uptrain` operators `ParseSQL`, `ValidateTables`, `ExecuteAndCompareSQL`, `ParseCreateStatements` and `KeywordDetector`. Their source is not part of this model, and the execution comparison needs a live SQLite database.
- The histogram plots, the streamlit dashboard (lines 160-164) and the argparse `main` (lines 167-184) are user-interface and command-line glue.
- PyStr.Upper: only ASCII letters are upper-cased. CPython's full Unicode `str.upper()` also maps other letters, some to several characters (`ß` to `SS`). This affects only the test on line 41: kept statements are `strip()` of the original text (line 42) and keep their characters exactly. The non-ASCII letters whose upper case contains ASCII letters (`ı` to `I`, `ſ` to `S`, the `ﬀ`–`ﬆ` ligatures to `FF`, `FI`, `FL`, `ST`, and similar) yield no letter sequence that completes `CREATE TABLE`. The model does not prove this.
- PyStr.PathJoin: only two components are modelled, on POSIX. Bytes paths and `os.fspath` conversion are not modelled.
- SchemaDefinition.KeptInOrder, SchemaDefinition.KeptCount, SchemaDefinition.KeepAll and SchemaDefinition.KeptNone are stated for any piece test. The reader's test, `IsCreateTable`, is one instance of them.
- SchemaDefinition.SchemaTextRoundTrip: the split-and-strip half needs at least one kept statement. Splitting the empty text gives one empty piece, not an empty list.
- SchemaDefinition.DatabaseBesideSchema assumes the schema name contains no `/`. With a `/` in the name, the base name is only the part after the last `/`.
