/**
 The store adapter (`PG` in pg_conn.py) over an abstract store: a map from
 table name to declared columns and rows. Statements are modelled as the
 text the adapter builds and the effect it has; the driver is not.
 */
module PgConn {
  import opened Text
  import opened Seqs
  import opened Frames

  /** A stored table: declared (name, SQL type) columns in order, and its rows. */
  datatype Table = Table(columns: seq<(string, string)>, rows: seq<Record>)

  /** The store: table name to table. */
  type Db = map<string, Table>

  /** Why the store rejects a `CREATE TABLE`. */
  datatype StoreError = DuplicateTable(name: string) | DuplicateColumn

  function DeclaredNames(decl: seq<(string, string)>): (r: seq<string>)
    ensures |r| == |decl|
    ensures forall i :: 0 <= i < |r| ==> r[i] == decl[i].0
  {
    seq(|decl|, i requires 0 <= i < |decl| => decl[i].0)
  }

  /** `get_table_columns`: the column names the catalogue lists for `t`, none for a missing table. */
  function TableColumns(db: Db, t: string): (r: set<string>)
    ensures t !in db ==> r == {}
    ensures t in db ==> forall c :: c in r <==> c in DeclaredNames(db[t].columns)
  {
    if t in db then set c | c in DeclaredNames(db[t].columns) else {}
  }

  // ---------------------------------------------------------------------
  // select_sql and select_sql_for_large_tables

  /** What the driver hands back for a query: `cursor.description` labels and the rows. */
  datatype QueryResult = QueryResult(description: seq<string>, rows: seq<seq<Value>>)

  /** A DataFrame built from result rows: its column labels and its rows. */
  datatype ResultFrame = ResultFrame(labels: seq<string>, rows: seq<seq<Value>>)

  /**
   `select_sql`: all rows at once; the result labels are attached only when
   there is at least one row (an empty DataFrame has no columns to label).
   */
  function SelectSql(q: QueryResult): (f: ResultFrame)
    ensures f.rows == q.rows
    ensures |q.rows| > 0 ==> f.labels == q.description
    ensures |q.rows| == 0 ==> f.labels == []
  {
    if |q.rows| > 0 then ResultFrame(q.description, q.rows) else ResultFrame([], q.rows)
  }

  /** The fixed `fetchmany` batch size of `select_sql_for_large_tables`. */
  const FetchSize: nat := 1000000

  /** A forward-only cursor over a materialised result: the rows and how many were consumed. */
  datatype Cursor = Cursor(rows: seq<seq<Value>>, pos: nat)

  /** `cursor.fetchmany(n)`: the next at most `n` rows, and the cursor after them. */
  function FetchMany(c: Cursor, n: nat): (r: (seq<seq<Value>>, Cursor))
    requires c.pos <= |c.rows|
    ensures r.1.rows == c.rows && c.pos <= r.1.pos <= |c.rows|
    ensures r.0 == c.rows[c.pos..r.1.pos]
    ensures |r.0| == n || r.1.pos == |c.rows|
    ensures |r.0| <= n
  {
    var stop := if |c.rows| - c.pos <= n then |c.rows| else c.pos + n;
    (c.rows[c.pos..stop], Cursor(c.rows, stop))
  }

  function ChunkRows(chunks: seq<ResultFrame>): (r: seq<seq<seq<Value>>>)
    ensures |r| == |chunks|
    ensures forall i :: 0 <= i < |r| ==> r[i] == chunks[i].rows
  {
    seq(|chunks|, i requires 0 <= i < |chunks| => chunks[i].rows)
  }

  /** Every batch labelled with the result's column names. */
  function Labelled(labels: seq<string>, batches: seq<seq<seq<Value>>>): (r: seq<ResultFrame>)
    ensures |r| == |batches|
    ensures forall i :: 0 <= i < |r| ==> r[i] == ResultFrame(labels, batches[i])
  {
    seq(|batches|, i requires 0 <= i < |batches| => ResultFrame(labels, batches[i]))
  }

  /** A batch after full ones keeps the cut a batching. */
  lemma BatchingSnoc<T>(xss: seq<seq<T>>, b: seq<T>, size: nat)
    requires forall i :: 0 <= i < |xss| ==> |xss[i]| == size
    requires 0 < |b| <= size
    ensures IsBatching(xss + [b], size)
  {
  }

  /**
   `select_sql_for_large_tables`: drains the cursor in batches of `FetchSize`
   until a fetch comes back empty, labelling every batch.
   */
  method SelectInChunks(q: QueryResult) returns (chunks: seq<ResultFrame>)
    ensures forall i :: 0 <= i < |chunks| ==> chunks[i].labels == q.description
    ensures forall i :: 0 <= i < |chunks| ==> 0 < |chunks[i].rows| <= FetchSize
    ensures forall i :: 0 <= i < |chunks| - 1 ==> |chunks[i].rows| == FetchSize
    ensures Flatten(ChunkRows(chunks)) == SelectSql(q).rows
    ensures ChunkRows(chunks) == Chunks(q.rows, FetchSize)
  {
    var cursor := Cursor(q.rows, 0);
    var batches: seq<seq<seq<Value>>> := [];
    while true
      invariant cursor.rows == q.rows && cursor.pos <= |q.rows|
      invariant forall i :: 0 <= i < |batches| ==> |batches[i]| == FetchSize
      invariant IsBatching(batches, FetchSize)
      invariant Flatten(batches) == q.rows[..cursor.pos]
      decreases |q.rows| - cursor.pos
    {
      var (batch, next) := FetchMany(cursor, FetchSize);
      if |batch| == 0 {
        break;
      }
      PrefixThenSlice(q.rows, cursor.pos, next.pos);
      FlattenSnoc(batches, batch);
      BatchingSnoc(batches, batch, FetchSize);
      batches := batches + [batch];
      cursor := next;
      if |batch| < FetchSize {
        // the cursor is drained: this batch is the last one
        var (empty, _) := FetchMany(cursor, FetchSize);
        assert |empty| == 0;
        break;
      }
    }
    assert Flatten(batches) == q.rows by {
      assert cursor.pos == |q.rows|;
      assert q.rows[..|q.rows|] == q.rows;
    }
    chunks := Labelled(q.description, batches);
    LabelledChunks(q.description, batches, q.rows);
  }

  /** The labelled batches of a batching of `rows` are its chunks, each labelled. */
  lemma LabelledChunks(labels: seq<string>, batches: seq<seq<seq<Value>>>, rows: seq<seq<Value>>)
    requires Flatten(batches) == rows && IsBatching(batches, FetchSize)
    ensures var chunks := Labelled(labels, batches);
            && (forall i :: 0 <= i < |chunks| ==> chunks[i].labels == labels)
            && (forall i :: 0 <= i < |chunks| ==> 0 < |chunks[i].rows| <= FetchSize)
            && (forall i :: 0 <= i < |chunks| - 1 ==> |chunks[i].rows| == FetchSize)
            && Flatten(ChunkRows(chunks)) == rows
            && ChunkRows(chunks) == Chunks(rows, FetchSize)
  {
    ChunksUnique(batches, rows, FetchSize);
    assert ChunkRows(Labelled(labels, batches)) == batches;
  }

  // ---------------------------------------------------------------------
  // to_psql and to_psql_in_chunks

  /** The table `to_sql` creates when the target is missing: the frame's labels with their dtypes. */
  function FrameDeclaration(f: Frame): seq<(string, string)>
  {
    DtypeItems(f)
  }

  /** Creates `t` from the frame's labels unless it exists; `to_sql` does this before inserting. */
  function EnsureTable(db: Db, t: string, f: Frame): (r: Db)
    ensures t in r && r.Keys == db.Keys + {t}
    ensures forall u :: u in db ==> r[u] == db[u]
    ensures t !in db ==> r[t] == Table(FrameDeclaration(f), [])
  {
    if t in db then db else db[t := Table(FrameDeclaration(f), [])]
  }

  /** Appends rows to an existing table, leaving every other table alone. */
  function InsertRows(db: Db, t: string, rows: seq<Record>): (r: Db)
    requires t in db
    ensures r.Keys == db.Keys
    ensures r[t] == Table(db[t].columns, db[t].rows + rows)
    ensures forall u :: u in db && u != t ==> r[u] == db[u]
  {
    db[t := Table(db[t].columns, db[t].rows + rows)]
  }

  /** `to_psql`: `df.to_sql(table, if_exists='append')`. */
  function ToSql(db: Db, t: string, f: Frame): (r: Db)
    requires WellFormed(f)
    ensures r.Keys == db.Keys + {t}
    ensures t in db ==> r[t].columns == db[t].columns && r[t].rows == db[t].rows + Records(f)
    ensures t !in db ==> r[t] == Table(FrameDeclaration(f), Records(f))
    ensures forall u :: u in db && u != t ==> r[u] == db[u]
  {
    InsertRows(EnsureTable(db, t, f), t, Records(f))
  }

  /** Inserts the batches one after another: the same as inserting their concatenation at once. */
  function InsertBatches(db: Db, t: string, batches: seq<seq<Record>>): (r: Db)
    requires t in db
    ensures r == InsertRows(db, t, Flatten(batches))
    decreases |batches|
  {
    if |batches| == 0 then
      assert db[t].rows + [] == db[t].rows;
      assert db[t := db[t]] == db;
      db
    else
      var db1 := InsertRows(db, t, batches[0]);
      assert db1[t].rows + Flatten(batches[1..]) == db[t].rows + Flatten(batches);
      InsertBatches(db1, t, batches[1..])
  }

  /**
   `to_psql_in_chunks`: `df.to_sql(table, if_exists='append', chunksize=n)`.
   Loading in chunks of any size leaves the store exactly as one whole-frame append.
   */
  function ToSqlInChunks(db: Db, t: string, f: Frame, chunkSize: nat): (r: Db)
    requires WellFormed(f) && chunkSize > 0
    ensures r == ToSql(db, t, f)
  {
    InsertBatches(EnsureTable(db, t, f), t, Chunks(Records(f), chunkSize))
  }

  // ---------------------------------------------------------------------
  // insert_row

  /** A statement text with the parameters bound to its `%s` markers. */
  datatype Statement = Statement(sql: string, params: seq<Value>)

  /** `", ".join(["%s"] * n)`: the list holds exactly one `%` per placeholder. */
  function Placeholders(n: nat): (p: string)
    ensures multiset(p)['%'] == n
  {
    MarkerCount(n);
    Join(", ", seq(n, _ => "%s"))
  }

  lemma {:induction false} MarkerCount(n: nat)
    ensures multiset(Join(", ", seq(n, _ => "%s")))['%'] == n
  {
    if n > 1 {
      MarkerCount(n - 1);
      assert seq(n, _ => "%s") == seq(n - 1, _ => "%s") + ["%s"];
      JoinSnoc(", ", seq(n - 1, _ => "%s"), "%s");
      assert multiset(Join(", ", seq(n, _ => "%s")))
          == multiset(Join(", ", seq(n - 1, _ => "%s"))) + multiset(", ") + multiset("%s");
    } else if n == 1 {
      assert Join(", ", seq(1, _ => "%s")) == "%s";
    }
  }

  /**
   `insert_row`: one `%s` per value of the row, the row's values as parameters.
   When the table name holds no `%`, the statement holds as many `%` characters as parameters.
   */
  function InsertRow(t: string, row: seq<Value>): (s: Statement)
    ensures s.params == row
    ensures "INSERT INTO " + t + " VALUES (" <= s.sql
    ensures s.sql[|s.sql| - 1] == ')'
    ensures '%' !in t ==> multiset(s.sql)['%'] == |s.params|
  {
    var sql := "INSERT INTO " + t + " VALUES (" + Placeholders(|row|) + ")";
    InsertRowMarkers(t, |row|);
    Statement(sql, row)
  }

  lemma InsertRowMarkers(t: string, n: nat)
    ensures '%' !in t ==>
      multiset("INSERT INTO " + t + " VALUES (" + Placeholders(n) + ")")['%'] == n
  {
    if '%' !in t {
      var x := "INSERT INTO " + t + " VALUES (";
      assert '%' !in x;
      MarkersAround(x, Placeholders(n));
    }
  }

  /** Text without `%` around the placeholder list adds no `%` to it. */
  lemma MarkersAround(x: string, p: string)
    requires '%' !in x
    ensures multiset(x + p + ")")['%'] == multiset(p)['%']
  {
    CountConcat(x, p, '%');
    CountConcat(x + p, ")", '%');
  }

  /** Occurrences of a character in a concatenation add up. */
  lemma CountConcat(a: string, b: string, c: char)
    ensures multiset(a + b)[c] == multiset(a)[c] + multiset(b)[c]
  {
    assert multiset(a + b) == multiset(a) + multiset(b);
  }

  // ---------------------------------------------------------------------
  // republish_dataframe_to_postgres

  /** `"name type"` for each entry, in order. */
  function ColumnDefs(decl: seq<(string, string)>): (r: seq<string>)
    ensures |r| == |decl|
    ensures forall i :: 0 <= i < |r| ==> r[i] == decl[i].0 + " " + decl[i].1
  {
    seq(|decl|, i requires 0 <= i < |decl| => decl[i].0 + " " + decl[i].1)
  }

  /** `CREATE TABLE t (def, def, ...)` as `republish_dataframe_to_postgres` first writes it. */
  function CreateSql(t: string, defs: seq<string>): (s: string)
    ensures "CREATE TABLE " + t + " (" <= s
    ensures s[|s| - 1] == ')'
  {
    var s := "CREATE TABLE " + (t + " (" + (Join(", ", defs) + ")"));
    assert s == "CREATE TABLE " + t + " (" + Join(", ", defs) + ")";
    s
  }

  /** The three whole-string rewrites, applied in order to the entire statement. */
  function RewriteTypes(s: string): (r: string)
    ensures Untouched(s) ==> r == s
  {
    RewriteNothing(s);
    ReplaceAll(ReplaceAll(ReplaceAll(s, "int64", "bigint"), "float64", "double precision"), "object", "text")
  }

  /** A statement holding none of the three patterns passes the rewrites unchanged. */
  lemma RewriteNothing(s: string)
    ensures Untouched(s) ==>
            ReplaceAll(ReplaceAll(ReplaceAll(s, "int64", "bigint"), "float64", "double precision"), "object", "text") == s
  {
    if Untouched(s) {
      ReplaceAbsent(s, "int64", "bigint");
      ReplaceAbsent(s, "float64", "double precision");
      ReplaceAbsent(s, "object", "text");
    }
  }

  /**
   The DDL `republish_dataframe_to_postgres` executes for `f`: still a
   `CREATE TABLE` statement. It exists only for distinct labels: for a
   repeated label `dataframe[column]` is a DataFrame, which has no `.dtype`.
   */
  function RepublishDdl(t: string, f: Frame): (r: string)
    requires Distinct(Names(f))
    ensures "CREATE TABLE " <= r
  {
    var d0 := DtypeItems(f);
    ThreeReplacesInCreateSql(t, d0, "int64", "bigint", "float64", "double precision", "object", "text");
    RewriteTypes(CreateSql(t, ColumnDefs(d0)))
  }

  /** Characters every one of the three rewritten dtype names is made of. */
  predicate LowerAlnum(pat: string) {
    forall i :: 0 <= i < |pat| ==> ('a' <= pat[i] <= 'z' || '0' <= pat[i] <= '9')
  }

  /** Both the column name and the dtype name of every entry passed through `replace`. */
  function ReplaceDecl(decl: seq<(string, string)>, pat: string, sub: string): (r: seq<(string, string)>)
    requires |pat| > 0
    ensures |r| == |decl|
    ensures forall i :: 0 <= i < |r| ==> r[i] == (ReplaceAll(decl[i].0, pat, sub), ReplaceAll(decl[i].1, pat, sub))
  {
    seq(|decl|, i requires 0 <= i < |decl| => (ReplaceAll(decl[i].0, pat, sub), ReplaceAll(decl[i].1, pat, sub)))
  }

  /**
   One whole-statement `replace` of a lower-case alphanumeric pattern acts on
   the table name, each column name and each dtype separately: no occurrence
   can span the keywords, spaces, commas or parentheses between them.
   */
  lemma ReplaceInCreateSql(t: string, decl: seq<(string, string)>, pat: string, sub: string)
    requires |pat| > 0 && LowerAlnum(pat)
    ensures ReplaceAll(CreateSql(t, ColumnDefs(decl)), pat, sub)
            == CreateSql(ReplaceAll(t, pat, sub), ColumnDefs(ReplaceDecl(decl, pat, sub)))
  {
    var defs := ColumnDefs(decl);
    var j := Join(", ", defs);
    var y := j + ")";
    var x := t + " (" + y;
    var j' := Join(", ", ReplaceEach(defs, pat, sub));
    assert ReplaceAll(j, pat, sub) == j' by {
      AvoidsPattern(", ", pat);
      ReplaceJoin(", ", defs, pat, sub);
    }
    assert ReplaceAll(y, pat, sub) == j' + ")" by {
      AvoidsPattern(")", pat);
      ReplaceBeforeSep(j, ")", pat, sub);
    }
    assert ReplaceAll(x, pat, sub) == ReplaceAll(t, pat, sub) + " (" + (j' + ")") by {
      AvoidsPattern(" (", pat);
      ReplaceAroundSep(t, " (", y, pat, sub);
    }
    assert ReplaceAll("CREATE TABLE " + x, pat, sub) == "CREATE TABLE " + ReplaceAll(x, pat, sub) by {
      AvoidsPattern("CREATE TABLE ", pat);
      ReplaceKeepsPrefix("CREATE TABLE ", x, pat, sub);
    }
    ReplaceDefs(decl, pat, sub);
  }

  /** A separator that cannot be part of `pat` survives `replace` at the end of a string. */
  lemma ReplaceBeforeSep(a: string, sep: string, pat: string, sub: string)
    requires |pat| > 0 && |sep| > 0
    requires forall i :: 0 <= i < |sep| ==> sep[i] !in pat
    ensures ReplaceAll(a + sep, pat, sub) == ReplaceAll(a, pat, sub) + sep
  {
    ReplaceAroundSep(a, sep, "", pat, sub);
    assert a + sep + "" == a + sep;
    assert ReplaceAll("", pat, sub) == "";
  }

  /** Text with no lower-case letter or digit shares no character with such a pattern. */
  lemma AvoidsPattern(p: string, pat: string)
    requires LowerAlnum(pat)
    requires forall i :: 0 <= i < |p| ==> !('a' <= p[i] <= 'z' || '0' <= p[i] <= '9')
    ensures forall i :: 0 <= i < |p| ==> p[i] !in pat
  {
  }

  /** `replace` on each `name type` definition acts on the name and the type separately. */
  lemma ReplaceDefs(decl: seq<(string, string)>, pat: string, sub: string)
    requires |pat| > 0 && LowerAlnum(pat)
    ensures ReplaceEach(ColumnDefs(decl), pat, sub) == ColumnDefs(ReplaceDecl(decl, pat, sub))
  {
    var defs := ColumnDefs(decl);
    var defs' := ColumnDefs(ReplaceDecl(decl, pat, sub));
    AvoidsPattern(" ", pat);
    forall i | 0 <= i < |defs|
      ensures ReplaceEach(defs, pat, sub)[i] == defs'[i]
    {
      ReplaceAroundSep(decl[i].0, " ", decl[i].1, pat, sub);
    }
  }

  /** Both parts of every entry passed through the three rewrites. */
  function RewriteDecl(decl: seq<(string, string)>): (r: seq<(string, string)>)
    ensures |r| == |decl|
    ensures forall i :: 0 <= i < |r| ==> r[i] == (RewriteTypes(decl[i].0), RewriteTypes(decl[i].1))
  {
    seq(|decl|, i requires 0 <= i < |decl| => (RewriteTypes(decl[i].0), RewriteTypes(decl[i].1)))
  }

  /**
   The republished DDL is the plain `CREATE TABLE` text with the table name,
   every column name and every dtype rewritten on its own.
   */
  lemma RepublishDdlPiecewise(t: string, f: Frame)
    requires Distinct(Names(f))
    ensures RepublishDdl(t, f) == CreateSql(RewriteTypes(t), ColumnDefs(RewriteDecl(DtypeItems(f))))
  {
    var d0 := DtypeItems(f);
    ThreeReplacesInCreateSql(t, d0, "int64", "bigint", "float64", "double precision", "object", "text");
    RewriteDeclSteps(d0);
  }

  /** Three successive whole-statement `replace` passes act on each identifier separately. */
  lemma ThreeReplacesInCreateSql(t: string, d0: seq<(string, string)>, p1: string, s1: string, p2: string, s2: string, p3: string, s3: string)
    requires |p1| > 0 && LowerAlnum(p1) && |p2| > 0 && LowerAlnum(p2) && |p3| > 0 && LowerAlnum(p3)
    ensures ReplaceAll(ReplaceAll(ReplaceAll(CreateSql(t, ColumnDefs(d0)), p1, s1), p2, s2), p3, s3)
            == CreateSql(ReplaceAll(ReplaceAll(ReplaceAll(t, p1, s1), p2, s2), p3, s3),
                         ColumnDefs(ReplaceDecl(ReplaceDecl(ReplaceDecl(d0, p1, s1), p2, s2), p3, s3)))
  {
    var t1 := ReplaceAll(t, p1, s1);
    var d1 := ReplaceDecl(d0, p1, s1);
    var t2 := ReplaceAll(t1, p2, s2);
    var d2 := ReplaceDecl(d1, p2, s2);
    ReplaceInCreateSql(t, d0, p1, s1);
    ReplaceInCreateSql(t1, d1, p2, s2);
    ReplaceInCreateSql(t2, d2, p3, s3);
  }

  /** The three passes over the declaration are the one pass of `RewriteDecl`. */
  lemma RewriteDeclSteps(d0: seq<(string, string)>)
    ensures ReplaceDecl(ReplaceDecl(ReplaceDecl(d0, "int64", "bigint"), "float64", "double precision"), "object", "text")
            == RewriteDecl(d0)
  {
    var d3 := ReplaceDecl(ReplaceDecl(ReplaceDecl(d0, "int64", "bigint"), "float64", "double precision"), "object", "text");
    assert |d3| == |RewriteDecl(d0)|;
    forall i | 0 <= i < |d3|
      ensures d3[i] == RewriteDecl(d0)[i]
    {
    }
  }

  /** `str()` of a dtype as the rewrites are meant to turn it into a PostgreSQL type. */
  function PgTypeName(dtype: string): string
  {
    if dtype == "int64" then "bigint"
    else if dtype == "float64" then "double precision"
    else if dtype == "object" then "text"
    else dtype
  }

  /** Holds none of the three rewritten dtype names. */
  predicate Untouched(s: string) {
    !Occurs(s, "int64") && !Occurs(s, "float64") && !Occurs(s, "object")
  }

  /** `replace` leaves `x` alone when it lacks a character of the pattern. */
  lemma KeepWhenMissing(x: string, pat: string, sub: string, c: char)
    requires |pat| > 0 && c in pat && c !in x
    ensures ReplaceAll(x, pat, sub) == x
  {
    MissingCharAbsent(x, pat, c);
    ReplaceAbsent(x, pat, sub);
  }

  lemma RewriteInt64(s: string)
    requires s == "int64"
    ensures RewriteTypes(s) == "bigint"
  {
    var s1 := ReplaceAll(s, "int64", "bigint");
    assert s1 == "bigint" by {
      ReplaceWhole(s, "bigint");
    }
    var s2 := ReplaceAll(s1, "float64", "double precision");
    assert s2 == s1 by {
      KeepWhenMissing(s1, "float64", "double precision", 'f');
    }
    KeepWhenMissing(s2, "object", "text", 'o');
  }

  lemma RewriteFloat64(s: string)
    requires s == "float64"
    ensures RewriteTypes(s) == "double precision"
  {
    var s1 := ReplaceAll(s, "int64", "bigint");
    assert s1 == s by {
      KeepWhenMissing(s, "int64", "bigint", 'i');
    }
    var s2 := ReplaceAll(s1, "float64", "double precision");
    assert s2 == "double precision" by {
      ReplaceWhole(s1, "double precision");
    }
    DoublePrecisionKept(s2);
  }

  /** `double precision` holds no `j`, so the `object` pass keeps it. */
  lemma DoublePrecisionKept(x: string)
    requires x == "double precision"
    ensures ReplaceAll(x, "object", "text") == x
  {
    assert forall k :: 0 <= k < |x| ==> x[k] != 'j';
    KeepWhenMissing(x, "object", "text", 'j');
  }

  lemma RewriteObject(s: string)
    requires s == "object"
    ensures RewriteTypes(s) == "text"
  {
    var s1 := ReplaceAll(s, "int64", "bigint");
    assert s1 == s by {
      KeepWhenMissing(s, "int64", "bigint", 'i');
    }
    var s2 := ReplaceAll(s1, "float64", "double precision");
    assert s2 == s by {
      KeepWhenMissing(s1, "float64", "double precision", 'f');
    }
    ReplaceWhole(s2, "text");
  }

  /** Each of the three dtype names becomes its PostgreSQL type, and a dtype holding none of them is kept. */
  lemma RewriteDtype(dtype: string)
    requires dtype == "int64" || dtype == "float64" || dtype == "object" || Untouched(dtype)
    ensures RewriteTypes(dtype) == PgTypeName(dtype)
  {
    if dtype == "int64" {
      RewriteInt64(dtype);
    } else if dtype == "float64" {
      RewriteFloat64(dtype);
    } else if dtype == "object" {
      RewriteObject(dtype);
    }
  }

  /** Each column declared with its name and the Postgres name of its dtype. */
  function IntendedDecl(f: Frame): (r: seq<(string, string)>)
    ensures |r| == |f.columns|
    ensures forall i :: 0 <= i < |r| ==> r[i] == (f.columns[i].name, PgTypeName(f.columns[i].dtype))
  {
    seq(|f.columns|, i requires 0 <= i < |f.columns| => (f.columns[i].name, PgTypeName(f.columns[i].dtype)))
  }

  /** The frame's columns and dtypes are all safe to rewrite. */
  predicate SafeToRewrite(f: Frame) {
    && (forall i :: 0 <= i < |f.columns| ==> Untouched(f.columns[i].name))
    && (forall i :: 0 <= i < |f.columns| ==>
          var d := f.columns[i].dtype; d == "int64" || d == "float64" || d == "object" || Untouched(d))
  }

  /** On safe columns the per-entry rewrite gives each column its Postgres type. */
  lemma RewriteDeclIntended(f: Frame)
    requires SafeToRewrite(f)
    ensures RewriteDecl(DtypeItems(f)) == IntendedDecl(f)
  {
    var d := DtypeItems(f);
    forall i | 0 <= i < |d|
      ensures RewriteDecl(d)[i] == IntendedDecl(f)[i]
    {
      RewriteDtype(f.columns[i].dtype);
    }
  }

  /**
   When no identifier holds a rewritten dtype name, and every dtype is
   either one of them or holds none, the DDL declares each column with
   `PgTypeName` of its dtype.
   */
  lemma RepublishDdlIntended(t: string, f: Frame)
    requires Distinct(Names(f))
    requires Untouched(t)
    requires forall i :: 0 <= i < |f.columns| ==> Untouched(f.columns[i].name)
    requires forall i :: 0 <= i < |f.columns| ==>
               var d := f.columns[i].dtype; d == "int64" || d == "float64" || d == "object" || Untouched(d)
    ensures RepublishDdl(t, f) == CreateSql(t, ColumnDefs(IntendedDecl(f)))
  {
    RepublishDdlPiecewise(t, f);
    RewriteDeclIntended(f);
  }

  /**
   The rewrite is textual, so a name holding a dtype name changes too, and
   a replacement can even assemble a fresh occurrence: `objecobject`
   becomes `objectext`, which again contains `object`.
   */
  lemma RewriteCanRecreate(s: string)
    requires s == "objec" + "object"
    ensures RewriteTypes(s) == "objec" + "text"
    ensures Occurs(RewriteTypes(s), "object")
  {
    var x, pat := "objec", "object";
    var s1 := ReplaceAll(s, "int64", "bigint");
    assert s1 == s by {
      MissingCharAbsent(s, "int64", 'i');
      ReplaceAbsent(s, "int64", "bigint");
    }
    var s2 := ReplaceAll(s1, "float64", "double precision");
    assert s2 == s by {
      MissingCharAbsent(s, "float64", 'f');
      ReplaceAbsent(s, "float64", "double precision");
    }
    assert ReplaceAll(s, pat, "text") == x + "text" by {
      assert s[5] != pat[5];
      ReplacePrefixThenPattern(x, pat, "text");
    }
    assert pat <= RewriteTypes(s)[0..];
  }

  /**
   A prefix that starts like `pat` without completing it is kept, and the
   `pat` after it is replaced.
   */
  lemma ReplacePrefixThenPattern(x: string, pat: string, sub: string)
    requires |pat| > 0 && |x| > 0
    requires !(pat <= x + pat)
    requires forall i :: 1 <= i < |x| ==> x[i] != pat[0]
    ensures ReplaceAll(x + pat, pat, sub) == x + sub
  {
    var y := x[1..];
    SkipHead(x, pat, sub);
    forall i | 0 <= i < |y|
      ensures y[i] != pat[0]
    {
      assert y[i] == x[i + 1];
    }
    TailThenPattern(y, pat, sub);
    ConsTail(x, sub);
  }

  lemma SkipHead(x: string, pat: string, sub: string)
    requires |pat| > 0 && |x| > 0
    requires !(pat <= x + pat)
    ensures ReplaceAll(x + pat, pat, sub) == [x[0]] + ReplaceAll(x[1..] + pat, pat, sub)
  {
    var s := x + pat;
    ReplaceSkip(s, pat, sub);
    assert s[1..] == x[1..] + pat;
  }

  lemma TailThenPattern(y: string, pat: string, sub: string)
    requires |pat| > 0
    requires forall i :: 0 <= i < |y| ==> y[i] != pat[0]
    ensures ReplaceAll(y + pat, pat, sub) == y + sub
  {
    ReplaceKeepsPrefix(y, pat, pat, sub);
    ReplaceWhole(pat, sub);
  }

  lemma ConsTail<T>(x: seq<T>, z: seq<T>)
    requires |x| > 0
    ensures [x[0]] + (x[1..] + z) == x + z
  {
    assert [x[0]] + x[1..] == x;
    AppendAssoc([x[0]], x[1..], z);
  }

  /** The store interactions of one call, in order. */
  datatype Action =
    | ExistsCheck(table: string)   // the `information_schema.tables` lookup for the table
    | Execute(sql: string)
    | Commit
    | InsertBatch(table: string, rows: seq<Record>)

  function DropSql(t: string): string
  {
    "DROP TABLE " + t
  }

  /** The batch size `republish_dataframe_to_postgres` passes to `to_psql_in_chunks`. */
  const RepublishChunk: nat := 20

  function BatchActions(t: string, batches: seq<seq<Record>>): (r: seq<Action>)
    ensures |r| == |batches|
    ensures forall i :: 0 <= i < |r| ==> r[i] == InsertBatch(t, batches[i])
  {
    seq(|batches|, i requires 0 <= i < |batches| => InsertBatch(t, batches[i]))
  }

  /** How a call ends: it returns, or it raises `AttributeError`. */
  datatype Exit = Returned | AttributeError

  /** The store interactions a call issued, and how it ended. */
  datatype Run = Run(actions: seq<Action>, exit: Exit)

  /**
   `republish_dataframe_to_postgres`: ask whether `t` exists and drop it
   only if it does. With distinct labels, create it from the rewritten DDL,
   commit, then load the frame in batches of 20. A repeated label makes the
   column list raise `AttributeError` right after the drop.
   */
  function Republish(db: Db, t: string, f: Frame): (r: Run)
    requires WellFormed(f)
    ensures r.exit == AttributeError <==> !Distinct(Names(f))
    ensures |r.actions| >= 1 && r.actions[0] == ExistsCheck(t)
    ensures t in db <==> Execute(DropSql(t)) in r.actions
    ensures t in db ==> |r.actions| >= 2 && r.actions[1] == Execute(DropSql(t))
    ensures !Distinct(Names(f)) ==> |r.actions| == (if t in db then 2 else 1)
    ensures Distinct(Names(f)) ==>
              var k := if t in db then 2 else 1;
              && |r.actions| >= k + 2
              && r.actions[k] == Execute(RepublishDdl(t, f)) && r.actions[k + 1] == Commit
              && r.actions[k + 2..] == BatchActions(t, Chunks(Records(f), RepublishChunk))
  {
    if !Distinct(Names(f)) then
      var issued := [ExistsCheck(t)] + (if t in db then [Execute(DropSql(t))] else []);
      Run(issued, AttributeError)
    else
      var batches := BatchActions(t, Chunks(Records(f), RepublishChunk));
      DropIsDistinct(t, f);
      ScriptShape(t, t in db, DropSql(t), RepublishDdl(t, f), batches);
      Run(Script(t, t in db, DropSql(t), RepublishDdl(t, f), batches), Returned)
  }

  /** The existence check, the drop when `dropped`, the create, the commit, then the batches. */
  function Script(t: string, dropped: bool, drop: string, create: string, batches: seq<Action>): seq<Action>
  {
    [ExistsCheck(t)] + (if dropped then [Execute(drop)] else []) + [Execute(create), Commit] + batches
  }

  lemma ScriptShape(t: string, dropped: bool, drop: string, create: string, batches: seq<Action>)
    requires drop != create
    requires forall i :: 0 <= i < |batches| ==> batches[i].InsertBatch?
    ensures var r := Script(t, dropped, drop, create, batches);
            && |r| >= (if dropped then 4 else 3) && r[0] == ExistsCheck(t)
            && (dropped <==> Execute(drop) in r)
            && (dropped ==> r[1] == Execute(drop))
            && var k := if dropped then 2 else 1;
               r[k] == Execute(create) && r[k + 1] == Commit && r[k + 2..] == batches
  {
    var r := Script(t, dropped, drop, create, batches);
    var k := if dropped then 2 else 1;
    assert r[k + 2..] == batches;
    if Execute(drop) in r {
      var i :| 0 <= i < |r| && r[i] == Execute(drop);
      assert i < k + 2;
    }
  }

  /** The drop statement differs from the create statement. */
  lemma DropIsDistinct(t: string, f: Frame)
    requires Distinct(Names(f))
    ensures DropSql(t) != RepublishDdl(t, f)
  {
    assert DropSql(t)[0] == 'D';
    assert RepublishDdl(t, f)[0] == 'C';
  }
}
