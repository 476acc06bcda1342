/**
 The schema builder (`Schema` in populate.py): the `CREATE TABLE` text
 `build_table` emits and its effect on the store, and the column-set gate
 of `populate_table_from_csv`.
 */
module Populate {
  import opened Text
  import opened Frames
  import opened PgConn
  import opened Outcomes

  /**
   `",\n".join(f"{col_name} {data_type}" ...)` over the mapping's entries, in
   order: one line per entry, every line but the last ending in a comma.
   */
  function ColumnClause(mapping: seq<(string, string)>): (r: string)
    ensures r == Join("\n", Terminated(ColumnDefs(mapping)))
  {
    JoinCommaNewline(ColumnDefs(mapping));
    Join(",\n", ColumnDefs(mapping))
  }

  /** The indentation the statement's template puts before the column clause. */
  const ClauseIndent: string := "            "

  /** The indentation the statement's template puts before the closing `);`. */
  const CloseIndent: string := "        "

  /** The statement `build_table` executes. */
  function CreateTableSql(t: string, mapping: seq<(string, string)>): (sql: string)
    ensures "CREATE TABLE " + t + " (" <= sql
    ensures sql[|sql| - 2..] == ");"
  {
    var head := "CREATE TABLE " + t + " (";
    var sql := head + "\n" + (ClauseIndent + ColumnClause(mapping)) + "\n" + (CloseIndent + ");");
    assert sql[|sql| - 2..] == ");";
    sql
  }

  /** Each entry's `"name type"`, every one but the last followed by a comma. */
  function Terminated(defs: seq<string>): (r: seq<string>)
    ensures |r| == |defs|
    ensures forall i :: 0 <= i < |r| ==> r[i] == if i < |defs| - 1 then defs[i] + "," else defs[i]
  {
    seq(|defs|, i requires 0 <= i < |defs| => if i < |defs| - 1 then defs[i] + "," else defs[i])
  }

  lemma {:induction false} JoinCommaNewline(defs: seq<string>)
    ensures Join(",\n", defs) == Join("\n", Terminated(defs))
  {
    if |defs| > 1 {
      JoinCommaNewline(defs[1..]);
      assert Terminated(defs)[1..] == Terminated(defs[1..]);
      assert Join(",\n", defs) == (defs[0] + ",") + "\n" + Join(",\n", defs[1..]);
    }
  }

  lemma JoinIndentFirst(sep: string, ind: string, xs: seq<string>)
    requires |xs| > 0
    ensures ind + Join(sep, xs) == Join(sep, xs[0 := ind + xs[0]])
  {
    var ys := xs[0 := ind + xs[0]];
    assert ys[1..] == xs[1..];
  }

  /** The column lines: one per entry, each but the last ending in a comma, the first indented. */
  function MiddleLines(mapping: seq<(string, string)>): (r: seq<string>)
    ensures |r| == (if |mapping| == 0 then 1 else |mapping|)
  {
    var body := Terminated(ColumnDefs(mapping));
    if |body| == 0 then [ClauseIndent] else body[0 := ClauseIndent + body[0]]
  }

  /** The lines the statement is made of: header, one line per entry, closing line. */
  function ExpectedLines(t: string, mapping: seq<(string, string)>): (r: seq<string>)
    ensures |r| == (if |mapping| == 0 then 3 else |mapping| + 2)
  {
    ["CREATE TABLE " + t + " ("] + MiddleLines(mapping) + [CloseIndent + ");"]
  }

  lemma ClauseIsMiddleLines(mapping: seq<(string, string)>)
    ensures ClauseIndent + ColumnClause(mapping) == Join("\n", MiddleLines(mapping))
  {
    var defs := ColumnDefs(mapping);
    var body := Terminated(defs);
    if |body| > 0 {
      JoinIndentFirst("\n", ClauseIndent, body);
    }
  }

  lemma SqlIsJoinedLines(t: string, mapping: seq<(string, string)>)
    ensures CreateTableSql(t, mapping) == Join("\n", ExpectedLines(t, mapping))
  {
    ClauseIsMiddleLines(mapping);
    JoinAround("\n", "CREATE TABLE " + t + " (", MiddleLines(mapping), CloseIndent + ");");
  }

  /** Joining a first line, some lines and a last line puts the separator between the three pieces. */
  lemma JoinAround(sep: string, head: string, middle: seq<string>, tail: string)
    requires |middle| > 0
    ensures Join(sep, [head] + middle + [tail]) == head + sep + Join(sep, middle) + sep + tail
  {
    JoinConcat(sep, [head], middle);
    JoinConcat(sep, [head] + middle, [tail]);
  }

  lemma LinesHaveNoBreak(t: string, mapping: seq<(string, string)>)
    requires '\n' !in t
    requires forall i :: 0 <= i < |mapping| ==> '\n' !in mapping[i].0 && '\n' !in mapping[i].1
    ensures forall i :: 0 <= i < |ExpectedLines(t, mapping)| ==> '\n' !in ExpectedLines(t, mapping)[i]
  {
    var lines := ExpectedLines(t, mapping);
    var mid := MiddleLines(mapping);
    MiddleHasNoBreak(mapping);
    assert '\n' !in CloseIndent + ");";
    assert '\n' !in "CREATE TABLE " + t + " (";
    forall i | 0 <= i < |lines|
      ensures '\n' !in lines[i]
    {
      if 0 < i <= |mid| {
        assert lines[i] == mid[i - 1];
      }
    }
  }

  lemma MiddleHasNoBreak(mapping: seq<(string, string)>)
    requires forall i :: 0 <= i < |mapping| ==> '\n' !in mapping[i].0 && '\n' !in mapping[i].1
    ensures forall i :: 0 <= i < |MiddleLines(mapping)| ==> '\n' !in MiddleLines(mapping)[i]
  {
    var defs := ColumnDefs(mapping);
    assert '\n' !in ClauseIndent;
    forall i | 0 <= i < |defs|
      ensures '\n' !in defs[i] && '\n' !in defs[i] + ","
    {
      assert defs[i] == mapping[i].0 + " " + mapping[i].1;
    }
  }

  /**
   Split at its line breaks, the statement is the header, one line per
   mapping entry (each but the last ending in a comma, the first indented),
   and the closing line; so its entries are exactly the mapping's, in order.
   */
  lemma CreateTableLines(t: string, mapping: seq<(string, string)>)
    requires '\n' !in t
    requires forall i :: 0 <= i < |mapping| ==> '\n' !in mapping[i].0 && '\n' !in mapping[i].1
    ensures SplitOn(CreateTableSql(t, mapping), '\n') == ExpectedLines(t, mapping)
  {
    SqlIsJoinedLines(t, mapping);
    LinesHaveNoBreak(t, mapping);
    SplitOnJoin(ExpectedLines(t, mapping), '\n');
  }

  /** `build_table`: the store rejects an existing table and a repeated column name. */
  function BuildTable(db: Db, t: string, mapping: seq<(string, string)>): (r: Result<Db, StoreError>)
    ensures r.Ok? <==> t !in db && Distinct(DeclaredNames(mapping))
    ensures r.Ok? ==> r.value == db[t := Table(mapping, [])]
    ensures t in db ==> r == Err(DuplicateTable(t))
  {
    if t in db then Err(DuplicateTable(t))
    else if !Distinct(DeclaredNames(mapping)) then Err(DuplicateColumn)
    else Ok(db[t := Table(mapping, [])])
  }

  /** The two column sets `populate_table_from_csv` prints when they differ. */
  datatype ColumnMismatch = ColumnMismatch(csvColumns: set<string>, tableColumns: set<string>)

  datatype PopulateResult = PopulateResult(db: Db, mismatch: Option<ColumnMismatch>)

  /**
   `populate_table_from_csv`: the frame's rows are appended exactly when
   its label set equals the table's column set; otherwise the store is
   left as it was and both complete sets are reported.
   */
  function PopulateTableFromCsv(db: Db, t: string, f: Frame): (r: PopulateResult)
    requires WellFormed(f)
    ensures r.mismatch.None? <==> NameSet(f) == TableColumns(db, t)
    ensures r.mismatch.None? && t in db ==>
              && r.db.Keys == db.Keys
              && r.db[t] == Table(db[t].columns, db[t].rows + Records(f))
              && (forall u :: u in db && u != t ==> r.db[u] == db[u])
    ensures r.mismatch.Some? ==>
              && r.db == db
              && r.mismatch.value == ColumnMismatch(NameSet(f), TableColumns(db, t))
              && r.mismatch.value.csvColumns != r.mismatch.value.tableColumns
  {
    var csvColumns := NameSet(f);
    var tableColumns := TableColumns(db, t);
    if csvColumns == tableColumns then PopulateResult(ToSql(db, t, f), None)
    else PopulateResult(db, Some(ColumnMismatch(csvColumns, tableColumns)))
  }

  /** The gate compares sets: reordering the frame's columns never changes its verdict. */
  lemma GateIgnoresOrder(db: Db, t: string, f: Frame, g: Frame)
    requires WellFormed(f) && WellFormed(g)
    requires multiset(f.columns) == multiset(g.columns)
    ensures PopulateTableFromCsv(db, t, f).mismatch.None? <==> PopulateTableFromCsv(db, t, g).mismatch.None?
  {
    forall n
      ensures n in NameSet(f) <==> n in NameSet(g)
    {
      if n in NameSet(f) {
        var i :| 0 <= i < |f.columns| && f.columns[i].name == n;
        assert f.columns[i] in multiset(g.columns);
      }
      if n in NameSet(g) {
        var i :| 0 <= i < |g.columns| && g.columns[i].name == n;
        assert g.columns[i] in multiset(f.columns);
      }
    }
    assert NameSet(f) == NameSet(g);
  }

  /** Labels are compared as exact strings: `ID` does not match a table column `id`. */
  lemma GateIsCaseSensitive(t: string, cells: seq<Value>)
    ensures var db := map[t := Table([("id", "integer PRIMARY KEY")], [])];
            PopulateTableFromCsv(db, t, Frame([Column("ID", "int64", cells)], |cells|)).mismatch.Some?
  {
    var db := map[t := Table([("id", "integer PRIMARY KEY")], [])];
    var f := Frame([Column("ID", "int64", cells)], |cells|);
    assert f.columns[0].name == "ID";
    assert "ID" in NameSet(f);
    assert DeclaredNames(db[t].columns) == ["id"];
    assert "ID" !in TableColumns(db, t);
  }
}
