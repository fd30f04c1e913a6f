/** The schema reader of the Spider text-to-SQL example: from the text of a
    database's `schema.sql` dump it keeps the `CREATE TABLE` statements and
    joins them back into one schema text, and it names the database's
    SQLite file under the dataset root. Reading the dump is not modelled: its
    text is the `content` parameter. */
module SchemaDefinition {
  import opened PyStr

  /** The prefix a piece must start with once upper-cased and stripped. */
  const CreateTable: String := "CREATE TABLE"

  /** What the kept statements are joined with. */
  const StatementSeparator: String := ";\n\n"

  /** The test the reader applies to each `;`-separated piece. The prefix is
      matched exactly, so `CREATE  TABLE` and `CREATE\nTABLE` fail and
      `CREATE TABLEX` passes. */
  predicate IsCreateTable(statement: String) {
    StartsWith(Strip(Upper(statement)), CreateTable)
  }

  /** Each piece that passes `keep`, stripped, in the order of the pieces. */
  function KeepStripped(statements: seq<String>, keep: String -> bool): seq<String>
    decreases |statements|
  {
    if |statements| == 0 then []
    else
      var n := |statements| - 1;
      KeepStripped(statements[..n], keep)
        + (if keep(statements[n]) then [Strip(statements[n])] else [])
  }

  /** For each piece `KeepStripped` keeps, the index of that piece. */
  function Origins(statements: seq<String>, keep: String -> bool): seq<nat>
    decreases |statements|
  {
    if |statements| == 0 then []
    else
      var n := |statements| - 1;
      Origins(statements[..n], keep) + (if keep(statements[n]) then [n] else [])
  }

  /** The list the reader's loop builds from the `;`-separated pieces. */
  function CreateTableStatements(statements: seq<String>): seq<String> {
    KeepStripped(statements, IsCreateTable)
  }

  /** The schema text the reader returns for a dump. */
  function SchemaText(content: String): String {
    Join(CreateTableStatements(Split(content, ';')), StatementSeparator)
  }

  /** The schema's directory, relative to the dataset root. */
  function SchemaDirectory(schemaName: String): (d: String)
    ensures |d| > 0 && d[0] != '/' && d[|d| - 1] == '/'
  {
    "database/" + schemaName + "/"
  }

  /** The database file, relative to the dataset root. */
  function DatabaseFile(schemaName: String): String {
    SchemaDirectory(schemaName) + (schemaName + ".sqlite")
  }

  /** The path of the database's SQLite file: the dataset root, then
      `database/<schema>/<schema>.sqlite`. */
  function DatabasePath(datasetPath: String, schemaName: String): (p: String)
    ensures StartsWith(p, datasetPath)
    ensures EndsWith(p, "database/" + schemaName + "/" + schemaName + ".sqlite")
    ensures datasetPath != [] && !EndsWith(datasetPath, "/")
            ==> p == datasetPath + "/" + ("database/" + schemaName + "/" + schemaName + ".sqlite")
    ensures datasetPath == [] || EndsWith(datasetPath, "/")
            ==> p == datasetPath + ("database/" + schemaName + "/" + schemaName + ".sqlite")
  {
    assert DatabaseFile(schemaName) == "database/" + schemaName + "/" + schemaName + ".sqlite";
    PathJoin(datasetPath, DatabaseFile(schemaName))
  }

  /** The path of the dump the reader opens: the dataset root, then
      `database/<schema>/schema.sql`. */
  function SchemaFilePath(datasetPath: String, schemaName: String): (p: String)
    ensures StartsWith(p, datasetPath)
    ensures EndsWith(p, "database/" + schemaName + "/schema.sql")
    ensures datasetPath != [] && !EndsWith(datasetPath, "/")
            ==> p == datasetPath + "/" + ("database/" + schemaName + "/schema.sql")
    ensures datasetPath == [] || EndsWith(datasetPath, "/")
            ==> p == datasetPath + ("database/" + schemaName + "/schema.sql")
  {
    var file := "database/" + schemaName + "/schema.sql";
    assert file[0] == 'd';
    PathJoin(datasetPath, file)
  }

  /** For a schema name without `/`, the database file is `<schema>.sqlite`
      in the schema's directory under the dataset root. */
  lemma DatabaseFileName(datasetPath: String, schemaName: String)
    requires '/' !in schemaName
    ensures BaseName(DatabasePath(datasetPath, schemaName)) == schemaName + ".sqlite"
    ensures Directory(DatabasePath(datasetPath, schemaName)) == PathJoin(datasetPath, SchemaDirectory(schemaName))
  {
    var dir, name := SchemaDirectory(schemaName), schemaName + ".sqlite";
    NotInConcat(schemaName, ".sqlite", '/');
    PathJoinFile(datasetPath, dir, name);
    assert DatabasePath(datasetPath, schemaName) == PathJoin(datasetPath, dir + name);
  }

  /** The dump is `schema.sql` in the schema's directory under the dataset root. */
  lemma SchemaFileName(datasetPath: String, schemaName: String)
    ensures BaseName(SchemaFilePath(datasetPath, schemaName)) == "schema.sql"
    ensures Directory(SchemaFilePath(datasetPath, schemaName)) == PathJoin(datasetPath, SchemaDirectory(schemaName))
  {
    assert "database/" + schemaName + "/schema.sql" == SchemaDirectory(schemaName) + "schema.sql";
    PathJoinFile(datasetPath, SchemaDirectory(schemaName), "schema.sql");
  }

  /** For a schema name without `/`, the database file is named after the
      schema and sits in the same directory as the `schema.sql` dump. */
  lemma DatabaseBesideSchema(datasetPath: String, schemaName: String)
    requires '/' !in schemaName
    ensures BaseName(DatabasePath(datasetPath, schemaName)) == schemaName + ".sqlite"
    ensures Directory(DatabasePath(datasetPath, schemaName)) == Directory(SchemaFilePath(datasetPath, schemaName))
  {
    DatabaseFileName(datasetPath, schemaName);
    SchemaFileName(datasetPath, schemaName);
  }

  /** The reader itself, with the dump's text passed in: split on `;`, keep
      the stripped `CREATE TABLE` pieces in a list, join the list. */
  method ReadSchemaDefinition(schemaName: String, datasetPath: String, content: String)
    returns (schemaDef: String, dbPath: String)
    ensures schemaDef == SchemaText(content)
    ensures dbPath == DatabasePath(datasetPath, schemaName)
  {
    var createTableStatements: seq<String> := [];
    dbPath := PathJoin(datasetPath, "database/" + schemaName + "/" + schemaName + ".sqlite");

    var statements := Split(content, ';');
    for i := 0 to |statements|
      invariant createTableStatements == CreateTableStatements(statements[..i])
    {
      var statement := statements[i];
      KeepNext(statements, i);
      if StartsWith(Strip(Upper(statement)), "CREATE TABLE") {
        createTableStatements := createTableStatements + [Strip(statement)];
      }
    }
    assert statements[..|statements|] == statements;

    schemaDef := Join(createTableStatements, ";\n\n");
  }

  /** One more piece adds its stripped form when it passes the test. */
  lemma KeepNext(statements: seq<String>, i: nat)
    requires i < |statements|
    ensures CreateTableStatements(statements[..i + 1])
         == CreateTableStatements(statements[..i])
            + (if IsCreateTable(statements[i]) then [Strip(statements[i])] else [])
  {
    assert statements[..i + 1][..i] == statements[..i];
  }

  /** Kept statements come from the pieces that pass the test, one each, in
      increasing piece order, and every piece that passes is kept. */
  lemma {:induction false} KeptInOrder(statements: seq<String>, keep: String -> bool)
    ensures |Origins(statements, keep)| == |KeepStripped(statements, keep)|
    ensures forall j :: 0 <= j < |Origins(statements, keep)| ==>
              Origins(statements, keep)[j] < |statements|
              && KeepStripped(statements, keep)[j] == Strip(statements[Origins(statements, keep)[j]])
    ensures forall j, j' :: 0 <= j < j' < |Origins(statements, keep)| ==>
              Origins(statements, keep)[j] < Origins(statements, keep)[j']
    ensures forall i :: 0 <= i < |statements| ==> (keep(statements[i]) <==> i in Origins(statements, keep))
    decreases |statements|
  {
    if |statements| > 0 {
      var n := |statements| - 1;
      var before := statements[..n];
      KeptInOrder(before, keep);
      var o, o' := Origins(statements, keep), Origins(before, keep);
      var c, c' := KeepStripped(statements, keep), KeepStripped(before, keep);
      forall j | 0 <= j < |o|
        ensures o[j] < |statements| && c[j] == Strip(statements[o[j]])
      {
        if j < |o'| {
          assert o[j] == o'[j] && c[j] == c'[j] && before[o'[j]] == statements[o'[j]];
        }
      }
      forall i | 0 <= i < |statements|
        ensures keep(statements[i]) <==> i in o
      {
        if i < n {
          assert before[i] == statements[i];
          assert i in o <==> i in o';
        } else {
          assert n !in o';
        }
      }
    }
  }

  /** As many statements are kept as there are pieces that pass the test. */
  lemma {:induction false} KeptCount(statements: seq<String>, keep: String -> bool)
    ensures |KeepStripped(statements, keep)| == |Passing(statements, keep)|
    decreases |statements|
  {
    if |statements| > 0 {
      var n := |statements| - 1;
      KeptCount(statements[..n], keep);
      PassingLast(statements, keep);
    }
  }

  /** The indices of the pieces that pass `keep`. */
  function Passing(statements: seq<String>, keep: String -> bool): set<nat> {
    set i: nat | i < |statements| && keep(statements[i])
  }

  /** The passing indices are those before the last piece, plus the last
      piece's when it passes. */
  lemma PassingLast(statements: seq<String>, keep: String -> bool)
    requires |statements| > 0
    ensures var n := |statements| - 1;
            n !in Passing(statements[..n], keep)
            && Passing(statements, keep)
               == Passing(statements[..n], keep) + (if keep(statements[n]) then {n} else {})
  {
    var n := |statements| - 1;
    assert forall i :: 0 <= i < n ==> statements[..n][i] == statements[i];
  }

  /** What every kept statement looks like. */
  predicate WellFormed(statement: String) {
    && ';' !in statement
    && IsStripped(statement)
    && IsCreateTable(statement)
    && StartsWith(Upper(statement), CreateTable)
    && |statement| >= |CreateTable|
  }

  /** A piece that passes the test still passes once stripped, and its
      stripped form itself starts with `CREATE TABLE` in any letter case. */
  lemma StrippedStatement(statement: String)
    requires IsCreateTable(statement)
    requires ';' !in statement
    ensures WellFormed(Strip(statement))
  {
    StripSpec(statement);
    UpperStrip(statement);
    StripIdempotent(Upper(statement));
    StripInside(statement);
  }

  /** Every statement the reader keeps is well-formed: no `;`, no surrounding
      whitespace, non-empty, and starting with `CREATE TABLE` up to case. */
  lemma KeptStatementWellFormed(content: String, j: nat)
    requires j < |CreateTableStatements(Split(content, ';'))|
    ensures WellFormed(CreateTableStatements(Split(content, ';'))[j])
  {
    var pieces := Split(content, ';');
    KeptInOrder(pieces, IsCreateTable);
    StrippedStatement(pieces[Origins(pieces, IsCreateTable)[j]]);
  }

  lemma SchemaStatementsWellFormed(content: String)
    ensures forall j :: 0 <= j < |CreateTableStatements(Split(content, ';'))| ==>
              WellFormed(CreateTableStatements(Split(content, ';'))[j])
  {
    forall j | 0 <= j < |CreateTableStatements(Split(content, ';'))|
      ensures WellFormed(CreateTableStatements(Split(content, ';'))[j])
    {
      KeptStatementWellFormed(content, j);
    }
  }

  /** Each piece stripped. */
  function StripAll(pieces: seq<String>): (r: seq<String>)
    ensures |r| == |pieces|
  {
    seq(|pieces|, i requires 0 <= i < |pieces| => Strip(pieces[i]))
  }

  /** When every piece passes, all of them are kept, stripped. */
  lemma {:induction false} KeepAll(statements: seq<String>, keep: String -> bool)
    requires forall i :: 0 <= i < |statements| ==> keep(statements[i])
    ensures KeepStripped(statements, keep) == StripAll(statements)
    decreases |statements|
  {
    if |statements| > 0 {
      var n := |statements| - 1;
      KeepAll(statements[..n], keep);
      assert StripAll(statements) == StripAll(statements[..n]) + [Strip(statements[n])];
    }
  }

  /** A well-formed statement with whitespace in front still passes the test
      and strips back to itself. */
  lemma SpacedStatement(w: String, statement: String)
    requires AllSpace(w)
    requires WellFormed(statement)
    ensures IsCreateTable(w + statement)
    ensures Strip(w + statement) == statement
  {
    StripAfterSpace(w, statement);
    StripStripped(statement);
    UpperConcat(w, statement);
    UpperSpace(w);
    StripAfterSpace(w, Upper(statement));
  }

  /** Splitting the join of separator-free statements on `;` gives the
      first statement, then each later one behind the two line breaks. */
  lemma SplitJoinedPieces(statements: seq<String>)
    requires |statements| > 0
    requires forall j :: 0 <= j < |statements| ==> ';' !in statements[j]
    ensures Split(Join(statements, StatementSeparator), ';') == PrefixTail(statements, "\n\n")
  {
    var pieces := PrefixTail(statements, "\n\n");
    assert StatementSeparator == [';'] + "\n\n";
    JoinShift(statements, ';', "\n\n");
    PrefixTailAvoids(statements, "\n\n", ';');
    SplitJoin(pieces, ';');
  }

  /** One piece of a split schema text passes the test and strips back to
      its statement. */
  lemma JoinedPiece(statements: seq<String>, j: nat)
    requires j < |statements|
    requires WellFormed(statements[j])
    ensures IsCreateTable(PrefixTail(statements, "\n\n")[j])
    ensures Strip(PrefixTail(statements, "\n\n")[j]) == statements[j]
  {
    if j == 0 {
      SpacedStatement([], statements[0]);
      assert [] + statements[0] == statements[0];
    } else {
      SpacedStatement("\n\n", statements[j]);
    }
  }

  /** Splitting a joined list of well-formed statements gives pieces that
      all pass the test and strip back to the statements. */
  lemma SplitJoined(statements: seq<String>)
    requires |statements| > 0
    requires forall j :: 0 <= j < |statements| ==> WellFormed(statements[j])
    ensures var pieces := Split(Join(statements, StatementSeparator), ';');
            && (forall j :: 0 <= j < |pieces| ==> IsCreateTable(pieces[j]))
            && StripAll(pieces) == statements
  {
    SplitJoinedPieces(statements);
    var pieces := PrefixTail(statements, "\n\n");
    forall j | 0 <= j < |pieces| ensures IsCreateTable(pieces[j]) && StripAll(pieces)[j] == statements[j] {
      JoinedPiece(statements, j);
    }
  }

  /** Extracting the statements again from a schema text made of well-formed
      statements gives back exactly those statements. */
  lemma ReextractJoined(statements: seq<String>)
    requires forall j :: 0 <= j < |statements| ==> WellFormed(statements[j])
    ensures CreateTableStatements(Split(Join(statements, StatementSeparator), ';')) == statements
  {
    if |statements| == 0 {
      var pieces: seq<String> := [[]];
      assert Split([], ';') == pieces;
      assert pieces[..0] == [];
      assert !IsCreateTable([]);
    } else {
      SplitJoined(statements);
      KeepAll(Split(Join(statements, StatementSeparator), ';'), IsCreateTable);
    }
  }

  /** Round trip: splitting the returned schema text on `;` and stripping
      each piece gives back the kept statements (when any were kept), and
      running the extraction on it keeps exactly them again. */
  lemma SchemaTextRoundTrip(content: String)
    ensures var kept := CreateTableStatements(Split(content, ';'));
            && CreateTableStatements(Split(SchemaText(content), ';')) == kept
            && (kept != [] ==> StripAll(Split(SchemaText(content), ';')) == kept)
  {
    var kept := CreateTableStatements(Split(content, ';'));
    SchemaStatementsWellFormed(content);
    ReextractJoined(kept);
    if kept != [] {
      SplitJoined(kept);
    }
  }

  /** The extraction is idempotent. */
  lemma SchemaTextIdempotent(content: String)
    ensures SchemaText(SchemaText(content)) == SchemaText(content)
  {
    SchemaTextRoundTrip(content);
  }

  /** Nothing is kept exactly when no piece passes the test. */
  lemma KeptNone(statements: seq<String>, keep: String -> bool)
    ensures KeepStripped(statements, keep) == [] <==> forall i :: 0 <= i < |statements| ==> !keep(statements[i])
  {
    KeptInOrder(statements, keep);
    var o := Origins(statements, keep);
    if o != [] {
      assert keep(statements[o[0]]);
    }
  }

  /** The schema text is empty exactly when no piece of the dump passes the test. */
  lemma SchemaTextEmpty(content: String)
    ensures SchemaText(content) == []
        <==> forall i :: 0 <= i < |Split(content, ';')| ==> !IsCreateTable(Split(content, ';')[i])
  {
    var statements := Split(content, ';');
    var kept := CreateTableStatements(statements);
    KeptNone(statements, IsCreateTable);
    assert SchemaText(content) == Join(kept, StatementSeparator);
    if kept == [] {
      assert Join(kept, StatementSeparator) == [];
    } else {
      KeptStatementWellFormed(content, 0);
      JoinNonEmpty(kept, StatementSeparator);
    }
  }

  /** Stripping keeps the piece's own letter case. */
  lemma StripKeepsCase()
    ensures Strip("  create table t(id INT)") == "create table t(id INT)"
  {
    var m := "create table t(id INT)";
    assert "  create table t(id INT)" == "  " + m + [];
    StripUnique("  ", m, []);
  }

  /** The lower-case keywords upper-case to the prefix the test looks for. */
  lemma UpperKeyword()
    ensures Upper("create table") == CreateTable
  {
  }

  /** The test ignores letter case and surrounding whitespace. */
  lemma CaseInsensitiveMatch()
    ensures IsCreateTable("  create table t(id INT)")
  {
    var s := "  create table t(id INT)";
    var m := "create table t(id INT)";
    StripKeepsCase();
    UpperStrip(s);
    var keyword, rest := "create table", " t(id INT)";
    assert m == keyword + rest;
    UpperConcat(keyword, rest);
    UpperKeyword();
    StartsWithConcat(CreateTable, Upper(rest));
  }

  /** On text without surrounding whitespace the test is a prefix
      comparison of the upper-cased text. */
  lemma TestOnStripped(statement: String)
    requires IsStripped(statement)
    ensures IsCreateTable(statement) <==> StartsWith(Upper(statement), CreateTable)
  {
    UpperStrip(statement);
    StripUnique([], statement, []);
    assert [] + statement + [] == statement;
  }

  /** A doubled space between the two keywords fails the test. */
  lemma DoubleSpaceRejected()
    ensures !IsCreateTable("CREATE  TABLE t")
  {
    var s := "CREATE  TABLE t";
    TestOnStripped(s);
    assert Upper(s)[..12][7] != CreateTable[7];
  }

  /** A line break between the two keywords fails the test. */
  lemma LineBreakRejected()
    ensures !IsCreateTable("CREATE\nTABLE t")
  {
    var s := "CREATE\nTABLE t";
    TestOnStripped(s);
    assert Upper(s)[..12][6] != CreateTable[6];
  }

  /** A longer word that begins with `TABLE` passes the test. */
  lemma LongerWordAccepted()
    ensures IsCreateTable("CREATE TABLEX")
  {
    var s := "CREATE TABLEX";
    TestOnStripped(s);
    assert Upper(s)[..12] == CreateTable;
  }
}
