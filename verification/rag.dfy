/**
 Ingestion (`RAG.get_table_ready` in rag.py): the frame read from the CSV
 gets an `id` column numbering its rows from 1, that column is moved to the
 front, every label is normalised, and a column-to-SQL-type mapping is
 derived from the dtypes. The table is then dropped if present, created
 from the mapping and filled through the column-set gate.
 */
module Rag {
  import opened Text
  import opened Frames
  import opened PgConn
  import opened Populate
  import opened Outcomes

  const IdName: string := "id"

  /** `range(1, 1 + n)` as cells. */
  function IdCells(n: nat): (r: seq<Value>)
    ensures |r| == n
    ensures forall i :: 0 <= i < n ==> r[i] == IntValue(i + 1)
  {
    seq(n, i requires 0 <= i < n => IntValue(i + 1))
  }

  /** The column `df['id'] = range(1, 1 + len(df))` stores; pandas gives it dtype `int64`. */
  function IdColumn(n: nat): Column
  {
    Column(IdName, "int64", IdCells(n))
  }

  // ---------------------------------------------------------------------
  // df['id'] = range(1, 1 + len(df))

  /**
   Assigning to `df['id']` overwrites an existing `id` column where it
   stands and otherwise appends a new last column.
   */
  function AddIdColumn(f: Frame): (r: Frame)
    requires WellFormed(f)
    ensures WellFormed(r) && r.height == f.height
    ensures IdName in Names(f) ==> Names(r) == Names(f)
    ensures IdName !in Names(f) ==> Names(r) == Names(f) + [IdName]
    ensures forall i :: 0 <= i < |r.columns| && r.columns[i].name == IdName ==> r.columns[i] == IdColumn(f.height)
    ensures forall i :: 0 <= i < |f.columns| && f.columns[i].name != IdName ==> r.columns[i] == f.columns[i]
  {
    if IdName in Names(f) then
      Frame(seq(|f.columns|, i requires 0 <= i < |f.columns| =>
                  if f.columns[i].name == IdName then IdColumn(f.height) else f.columns[i]), f.height)
    else
      Frame(f.columns + [IdColumn(f.height)], f.height)
  }

  /** After the assignment the frame has exactly one `id` column, holding 1..N top to bottom. */
  lemma AddIdColumnNumbersRows(f: Frame)
    requires WellFormed(f) && Distinct(Names(f))
    ensures var g := AddIdColumn(f);
            && Distinct(Names(g))
            && IdName in Names(g)
            && exists j :: 0 <= j < |g.columns| && g.columns[j].name == IdName
                           && (forall i :: 0 <= i < f.height ==> g.columns[j].cells[i] == IntValue(i + 1))
  {
    var g := AddIdColumn(f);
    var j := |g.columns| - 1;
    if IdName in Names(f) {
      j :| 0 <= j < |f.columns| && Names(f)[j] == IdName;
    }
    assert g.columns[j].name == IdName;
    if IdName !in Names(f) {
      forall a, b | 0 <= a < b < |Names(g)|
        ensures Names(g)[a] != Names(g)[b]
      {
        if b == |Names(g)| - 1 {
          assert Names(g)[a] == Names(f)[a];
        }
      }
    }
  }

  // ---------------------------------------------------------------------
  // df[['id'] + [col for col in df.columns if col != 'id']]

  /** The columns not labelled `n`, in their order. */
  function Without(cols: seq<Column>, n: string): (r: seq<Column>)
    ensures |r| <= |cols|
    ensures forall i :: 0 <= i < |r| ==> r[i].name != n && r[i] in cols
  {
    if |cols| == 0 then []
    else if cols[0].name == n then Without(cols[1..], n)
    else [cols[0]] + Without(cols[1..], n)
  }

  lemma DistinctTail(cols: seq<Column>)
    requires |cols| > 0 && Distinct(ColumnNames(cols))
    ensures Distinct(ColumnNames(cols[1..]))
    ensures forall i :: 0 <= i < |cols| - 1 ==> cols[1..][i].name != cols[0].name
  {
    forall a, b | 0 <= a < b < |cols| - 1
      ensures ColumnNames(cols[1..])[a] != ColumnNames(cols[1..])[b]
    {
      assert ColumnNames(cols)[a + 1] != ColumnNames(cols)[b + 1];
    }
    forall i | 0 <= i < |cols| - 1
      ensures cols[1..][i].name != cols[0].name
    {
      assert ColumnNames(cols)[0] != ColumnNames(cols)[i + 1];
    }
  }

  /** Every column not labelled `n` survives the filter. */
  lemma {:induction false} WithoutKeeps(cols: seq<Column>, n: string, c: Column)
    requires c in cols && c.name != n
    ensures c in Without(cols, n)
  {
    if cols[0] != c {
      WithoutKeeps(cols[1..], n, c);
    }
  }

  /** Filtering keeps distinct labels distinct. */
  lemma {:induction false} WithoutDistinct(cols: seq<Column>, n: string)
    requires Distinct(ColumnNames(cols))
    ensures Distinct(ColumnNames(Without(cols, n)))
  {
    if |cols| > 0 {
      DistinctTail(cols);
      WithoutDistinct(cols[1..], n);
      var rest := Without(cols[1..], n);
      if cols[0].name != n {
        forall i | 0 <= i < |rest|
          ensures rest[i].name != cols[0].name
        {
          var j :| 0 <= j < |cols[1..]| && cols[1..][j] == rest[i];
        }
        DistinctCons(cols[0], rest);
      }
    }
  }

  /** A column whose label no other column carries keeps the labels distinct. */
  lemma DistinctCons(c: Column, rest: seq<Column>)
    requires Distinct(ColumnNames(rest))
    requires forall i :: 0 <= i < |rest| ==> rest[i].name != c.name
    ensures Distinct(ColumnNames([c] + rest))
  {
    var r := [c] + rest;
    forall a, b | 0 <= a < b < |r|
      ensures ColumnNames(r)[a] != ColumnNames(r)[b]
    {
      assert r[b] == rest[b - 1];
      if a > 0 {
        assert r[a] == rest[a - 1];
        assert ColumnNames(rest)[a - 1] != ColumnNames(rest)[b - 1];
      }
    }
  }

  /** Filtering distributes over concatenation, so the kept columns keep their relative order. */
  lemma {:induction false} WithoutAppend(a: seq<Column>, b: seq<Column>, n: string)
    ensures Without(a + b, n) == Without(a, n) + Without(b, n)
  {
    if |a| > 0 {
      assert (a + b)[1..] == a[1..] + b;
      WithoutAppend(a[1..], b, n);
    } else {
      assert a + b == b;
    }
  }

  lemma {:induction false} WithoutNone(cols: seq<Column>, n: string)
    requires forall i :: 0 <= i < |cols| ==> cols[i].name != n
    ensures Without(cols, n) == cols
  {
    if |cols| > 0 {
      WithoutNone(cols[1..], n);
    }
  }

  /** The first column labelled `n`. */
  function Find(cols: seq<Column>, n: string): (j: nat)
    requires n in ColumnNames(cols)
    ensures j < |cols| && cols[j].name == n
    ensures forall i :: 0 <= i < j ==> cols[i].name != n
  {
    if cols[0].name == n then 0
    else
      NameInTail(cols, n);
      var j := Find(cols[1..], n);
      assert forall i :: 1 <= i <= j ==> cols[i] == cols[1..][i - 1];
      1 + j
  }

  lemma NameInTail(cols: seq<Column>, n: string)
    requires n in ColumnNames(cols) && cols[0].name != n
    ensures n in ColumnNames(cols[1..])
  {
    var names := ColumnNames(cols);
    var k :| 0 <= k < |names| && names[k] == n;
    assert ColumnNames(cols[1..])[k - 1] == cols[k].name;
  }

  /** The columns labelled `n`, in their order: what selecting the label `n` yields. */
  function Named(cols: seq<Column>, n: string): (r: seq<Column>)
    ensures forall i :: 0 <= i < |r| ==> r[i].name == n && r[i] in cols
    ensures |r| + |Without(cols, n)| == |cols|
    ensures n in ColumnNames(cols) ==> |r| > 0
  {
    if |cols| == 0 then []
    else
      assert ColumnNames(cols) == [cols[0].name] + ColumnNames(cols[1..]);
      if cols[0].name == n then [cols[0]] + Named(cols[1..], n) else Named(cols[1..], n)
  }

  /** Every column is either labelled `n` or not: the two selections split the frame. */
  lemma {:induction false} PartitionByName(cols: seq<Column>, n: string)
    ensures multiset(Named(cols, n)) + multiset(Without(cols, n)) == multiset(cols)
  {
    if |cols| > 0 {
      var h := [cols[0]];
      var t := cols[1..];
      PartitionByName(t, n);
      assert multiset(cols) == multiset(h) + multiset(t) by {
        assert cols == h + t;
      }
      if cols[0].name == n {
        assert Named(cols, n) == h + Named(t, n) && Without(cols, n) == Without(t, n);
      } else {
        assert Named(cols, n) == Named(t, n) && Without(cols, n) == h + Without(t, n);
      }
    }
  }

  lemma {:induction false} NamedNone(cols: seq<Column>, n: string)
    requires forall i :: 0 <= i < |cols| ==> cols[i].name != n
    ensures Named(cols, n) == []
  {
    if |cols| > 0 {
      NamedNone(cols[1..], n);
    }
  }

  /** With distinct labels, selecting a present label yields exactly one column. */
  lemma {:induction false} NamedUnique(cols: seq<Column>, n: string)
    requires Distinct(ColumnNames(cols)) && n in ColumnNames(cols)
    ensures Named(cols, n) == [cols[Find(cols, n)]]
  {
    DistinctTail(cols);
    if cols[0].name == n {
      NamedNone(cols[1..], n);
    } else {
      assert ColumnNames(cols) == [cols[0].name] + ColumnNames(cols[1..]);
      NamedUnique(cols[1..], n);
    }
  }

  /**
   `df[[n] + [col for col in df.columns if col != n]]`: the columns
   labelled `n`, then all the others in their original order.
   */
  function MoveToFront(f: Frame, n: string): (r: Frame)
    requires n in Names(f)
    ensures r.height == f.height && |r.columns| == |f.columns|
    ensures r.columns[0].name == n
    ensures forall i :: 0 <= i < |r.columns| ==> r.columns[i] in f.columns
    ensures WellFormed(f) ==> WellFormed(r)
  {
    var front := Named(f.columns, n);
    var cols := front + Without(f.columns, n);
    assert forall i :: 0 <= i < |cols| ==> cols[i] in f.columns by {
      ConcatWithin(front, Without(f.columns, n), f.columns);
    }
    assert cols[0].name == n by {
      assert n in ColumnNames(f.columns);
    }
    assert WellFormed(f) ==> WellFormed(Frame(cols, f.height)) by {
      if WellFormed(f) {
        forall i | 0 <= i < |cols|
          ensures |cols[i].cells| == f.height
        {
          var k :| 0 <= k < |f.columns| && f.columns[k] == cols[i];
        }
      }
    }
    Frame(cols, f.height)
  }

  lemma ConcatWithin<T>(a: seq<T>, b: seq<T>, c: seq<T>)
    requires forall i :: 0 <= i < |a| ==> a[i] in c
    requires forall i :: 0 <= i < |b| ==> b[i] in c
    ensures forall i :: 0 <= i < |a + b| ==> (a + b)[i] in c
  {
    forall i | 0 <= i < |a + b|
      ensures (a + b)[i] in c
    {
      if i >= |a| {
        assert (a + b)[i] == b[i - |a|];
      }
    }
  }

  /** Moving columns to the front neither loses nor duplicates a column. */
  lemma MoveToFrontPermutes(f: Frame, n: string)
    requires n in Names(f)
    ensures multiset(MoveToFront(f, n).columns) == multiset(f.columns)
  {
    PartitionByName(f.columns, n);
  }

  /**
   With distinct labels, the column labelled `n` comes first and every
   other column follows in its original order; labels stay distinct.
   */
  lemma MoveToFrontDistinct(f: Frame, n: string)
    requires Distinct(Names(f)) && n in Names(f)
    ensures var r := MoveToFront(f, n);
            && r.columns == [f.columns[Find(f.columns, n)]] + Without(f.columns, n)
            && Distinct(Names(r))
  {
    NamedUnique(f.columns, n);
    WithoutDistinct(f.columns, n);
    var rest := Without(f.columns, n);
    var cols := MoveToFront(f, n).columns;
    assert cols == [f.columns[Find(f.columns, n)]] + rest;
    DistinctCons(f.columns[Find(f.columns, n)], rest);
  }

  // ---------------------------------------------------------------------
  // df.columns = [item.strip().replace(' ', '_').lower() ...]

  /** A label stripped, its spaces turned into underscores, and lower-cased. */
  function NormalizeName(s: string): (r: string)
    ensures ' ' !in r
    ensures |r| <= |s|
  {
    var u := ReplaceAll(Strip(s), " ", "_");
    ReplaceRemovesChar(Strip(s), " ", "_");
    ReplaceCharPointwise(Strip(s), ' ', '_');
    Lower(u)
  }

  /** A normalised label is left alone by a second normalisation. */
  lemma NormalizeNameIdempotent(s: string)
    ensures NormalizeName(NormalizeName(s)) == NormalizeName(s)
  {
    var st := Strip(s);
    var u := ReplaceAll(st, " ", "_");
    ReplaceCharPointwise(st, ' ', '_');
    var r := Lower(u);
    assert r == NormalizeName(s);
    if |r| > 0 {
      assert !IsSpace(st[0]) && !IsSpace(st[|st| - 1]);
      assert !IsSpace(u[0]) && !IsSpace(u[|u| - 1]);
      assert !IsSpace(r[0]) && !IsSpace(r[|r| - 1]);
    }
    StripUnchanged(r);
    MissingCharAbsent(r, " ", ' ');
    ReplaceAbsent(r, " ", "_");
    LowerIdempotent(u);
  }

  /** Labels without surrounding whitespace, spaces or capitals are their own normal form. */
  lemma NormalizeNameFixed(s: string)
    requires s == [] || (!IsSpace(s[0]) && !IsSpace(s[|s| - 1]))
    requires ' ' !in s
    requires forall i :: 0 <= i < |s| ==> !('A' <= s[i] <= 'Z')
    ensures NormalizeName(s) == s
  {
    StripUnchanged(s);
    MissingCharAbsent(s, " ", ' ');
    ReplaceAbsent(s, " ", "_");
  }

  /** The frame with every label normalised; dtypes and cells are untouched. */
  function NormalizeColumns(f: Frame): (r: Frame)
    ensures r.height == f.height && |r.columns| == |f.columns|
    ensures WellFormed(f) ==> WellFormed(r)
    ensures forall i :: 0 <= i < |f.columns| ==>
              && r.columns[i].name == NormalizeName(f.columns[i].name)
              && r.columns[i].dtype == f.columns[i].dtype
              && r.columns[i].cells == f.columns[i].cells
  {
    Frame(seq(|f.columns|, i requires 0 <= i < |f.columns| =>
                f.columns[i].(name := NormalizeName(f.columns[i].name))), f.height)
  }

  lemma NormalizeColumnsIdempotent(f: Frame)
    ensures NormalizeColumns(NormalizeColumns(f)) == NormalizeColumns(f)
  {
    var g := NormalizeColumns(f);
    forall i | 0 <= i < |f.columns|
      ensures NormalizeColumns(g).columns[i] == g.columns[i]
    {
      NormalizeNameIdempotent(f.columns[i].name);
    }
  }

  /** The frame `get_table_ready` loads: id added, moved first, labels normalised. */
  function PrepareFrame(f: Frame): (r: Frame)
    requires WellFormed(f)
    ensures WellFormed(r) && r.height == f.height
    ensures |r.columns| == |f.columns| + (if IdName in Names(f) then 0 else 1)
    ensures r.columns[0] == IdColumn(f.height)
  {
    NormalizeNameFixed(IdName);
    var g := AddIdColumn(f);
    var h := MoveToFront(g, IdName);
    assert |g.columns| == |f.columns| + (if IdName in Names(f) then 0 else 1) by {
      assert |Names(g)| == |g.columns|;
    }
    assert h.columns[0] == IdColumn(f.height) by {
      var k :| 0 <= k < |g.columns| && g.columns[k] == h.columns[0];
    }
    NormalizeColumns(h)
  }

  /**
   Apart from the leading `id`, the prepared frame holds the CSV's other
   columns in their original order, each under its normalised label.
   */
  lemma PrepareFrameOthers(f: Frame)
    requires WellFormed(f) && Distinct(Names(f))
    ensures var r := PrepareFrame(f);
            r.columns[1..] == NormalizeColumns(Frame(Without(f.columns, IdName), f.height)).columns
  {
    var g := AddIdColumn(f);
    var rest := Without(f.columns, IdName);
    AddIdColumnNumbersRows(f);
    MoveToFrontDistinct(g, IdName);
    WithoutAfterAdd(f);
    var h := MoveToFront(g, IdName);
    assert h.columns[1..] == rest;
    assert PrepareFrame(f) == NormalizeColumns(h);
    NormalizeTail(h);
  }

  /** Normalising labels commutes with dropping the first column. */
  lemma NormalizeTail(h: Frame)
    requires |h.columns| > 0
    ensures NormalizeColumns(h).columns[1..] == NormalizeColumns(Frame(h.columns[1..], h.height)).columns
  {
    var rest := h.columns[1..];
    var got := NormalizeColumns(h).columns[1..];
    var want := NormalizeColumns(Frame(rest, h.height)).columns;
    forall i | 0 <= i < |rest|
      ensures got[i] == want[i]
    {
      assert h.columns[i + 1] == rest[i];
    }
  }

  /** Adding the id column does not change the columns other than `id`. */
  lemma WithoutAfterAdd(f: Frame)
    requires WellFormed(f)
    ensures Without(AddIdColumn(f).columns, IdName) == Without(f.columns, IdName)
  {
    var g := AddIdColumn(f);
    if IdName in Names(f) {
      assert |g.columns| == |f.columns| by {
        assert |Names(g)| == |Names(f)|;
      }
      forall i | 0 <= i < |g.columns|
        ensures g.columns[i].name == IdName <==> f.columns[i].name == IdName
      {
        assert Names(g)[i] == Names(f)[i];
      }
      WithoutPointwise(g.columns, f.columns, IdName);
    } else {
      assert g.columns == f.columns + [IdColumn(f.height)];
      WithoutAppend(f.columns, [IdColumn(f.height)], IdName);
      assert Without([IdColumn(f.height)], IdName) == [];
    }
  }

  lemma {:induction false} WithoutPointwise(a: seq<Column>, b: seq<Column>, n: string)
    requires |a| == |b|
    requires forall i :: 0 <= i < |a| ==> (a[i].name == n <==> b[i].name == n)
    requires forall i :: 0 <= i < |a| && a[i].name != n ==> a[i] == b[i]
    ensures Without(a, n) == Without(b, n)
  {
    if |a| > 0 {
      WithoutPointwise(a[1..], b[1..], n);
    }
  }

  // ---------------------------------------------------------------------
  // dtype_mapping and column_dict

  /** `dtype_mapping`: pandas dtype name to SQL type. */
  const DtypeMapping: map<string, string> := map[
    "int64" := "integer",
    "float64" := "numeric",
    "object" := "text",
    "datetime64[ns]" := "timestamp",
    "bool" := "boolean"
  ]

  /** `dtype_mapping.get(str(dtype), 'text')`. */
  function SqlTypeFor(dtype: string): (r: string)
    ensures dtype == "int64" ==> r == "integer"
    ensures dtype == "float64" ==> r == "numeric"
    ensures dtype == "object" ==> r == "text"
    ensures dtype == "datetime64[ns]" ==> r == "timestamp"
    ensures dtype == "bool" ==> r == "boolean"
    ensures dtype !in DtypeMapping ==> r == "text"
    ensures r in DtypeMapping.Values
  {
    assert DtypeMapping["object"] == "text";
    if dtype in DtypeMapping then DtypeMapping[dtype] else "text"
  }

  /** The five mapped dtypes and the default. */
  lemma SqlTypeForTable(dtype: string)
    ensures SqlTypeFor("int64") == "integer"
    ensures SqlTypeFor("float64") == "numeric"
    ensures SqlTypeFor("object") == "text"
    ensures SqlTypeFor("datetime64[ns]") == "timestamp"
    ensures SqlTypeFor("bool") == "boolean"
    ensures SqlTypeFor(dtype) == "text" <==> dtype == "object" || dtype !in DtypeMapping
  {
  }

  const PrimaryKeyType: string := "integer PRIMARY KEY"

  /** The type the loop assigns to the `i`-th `(label, dtype)` item. */
  function EntryType(i: nat, dtype: string): string
  {
    if i == 0 then PrimaryKeyType else SqlTypeFor(dtype)
  }

  /** The entry a dict holds under `k`, if any. */
  function Get(d: seq<(string, string)>, k: string): (r: Option<string>)
    ensures r.None? <==> k !in DeclaredNames(d)
  {
    if |d| == 0 then None
    else if d[0].0 == k then Some(d[0].1)
    else
      assert DeclaredNames(d) == [d[0].0] + DeclaredNames(d[1..]);
      Get(d[1..], k)
  }

  /** `d[k] = v`: an existing key keeps its place and takes the new value; a new key goes last. */
  function Put(d: seq<(string, string)>, k: string, v: string): (r: seq<(string, string)>)
    ensures k in DeclaredNames(d) ==> DeclaredNames(r) == DeclaredNames(d)
    ensures k !in DeclaredNames(d) ==> DeclaredNames(r) == DeclaredNames(d) + [k]
  {
    if k in DeclaredNames(d) then
      seq(|d|, i requires 0 <= i < |d| => if d[i].0 == k then (k, v) else d[i])
    else
      d + [(k, v)]
  }

  /** Reading back after `Put`: the key gives the new value, every other key its old one. */
  lemma {:induction false} PutGet(d: seq<(string, string)>, k: string, v: string, k': string)
    ensures Get(Put(d, k, v), k') == if k' == k then Some(v) else Get(d, k')
  {
    var r := Put(d, k, v);
    if |d| == 0 {
    } else if k in DeclaredNames(d) {
      var tail := seq(|d| - 1, i requires 0 <= i < |d| - 1 => if d[1..][i].0 == k then (k, v) else d[1..][i]);
      assert r[1..] == tail;
      if k in DeclaredNames(d[1..]) {
        assert Put(d[1..], k, v) == tail;
        PutGet(d[1..], k, v, k');
      } else {
        assert tail == d[1..];
      }
    } else {
      assert r[1..] == Put(d[1..], k, v);
      PutGet(d[1..], k, v, k');
    }
  }

  /**
   `column_dict` built by the loop over `df.dtypes.items()`: the first item
   gets `integer PRIMARY KEY`, the others their mapped type; a repeated
   label overwrites the earlier entry in place. Its keys are the labels,
   each once.
   */
  function ColumnTypes(items: seq<(string, string)>): (r: seq<(string, string)>)
    ensures Distinct(DeclaredNames(r))
    ensures forall n :: n in DeclaredNames(r) <==> n in DeclaredNames(items)
    decreases |items|
  {
    if |items| == 0 then []
    else
      var n := |items| - 1;
      var d := ColumnTypes(items[..n]);
      assert DeclaredNames(items) == DeclaredNames(items[..n]) + [items[n].0];
      var r := Put(d, items[n].0, EntryType(n, items[n].1));
      assert Distinct(DeclaredNames(r)) by {
        if items[n].0 !in DeclaredNames(d) {
          var ns := DeclaredNames(r);
          forall a, b | 0 <= a < b < |ns|
            ensures ns[a] != ns[b]
          {
            if b == |ns| - 1 {
              assert ns[a] == DeclaredNames(d)[a];
            } else {
              assert ns[a] == DeclaredNames(d)[a] && ns[b] == DeclaredNames(d)[b];
            }
          }
        }
      }
      r
  }

  /**
   With distinct labels `column_dict` lists every item once, in order,
   the first as the primary key and the rest by the dtype table.
   */
  lemma {:induction false} ColumnTypesDistinct(items: seq<(string, string)>)
    requires Distinct(DeclaredNames(items))
    ensures ColumnTypes(items) == seq(|items|, i requires 0 <= i < |items| => (items[i].0, EntryType(i, items[i].1)))
    decreases |items|
  {
    if |items| > 0 {
      var n := |items| - 1;
      var k := items[n].0;
      DistinctPrefix(items, n);
      ColumnTypesDistinct(items[..n]);
      var d := ColumnTypes(items[..n]);
      assert k !in DeclaredNames(d) by {
        forall a | 0 <= a < n
          ensures DeclaredNames(d)[a] != k
        {
          assert DeclaredNames(items)[a] != DeclaredNames(items)[n];
        }
      }
      assert ColumnTypes(items) == d + [(k, EntryType(n, items[n].1))];
      EntriesSnoc(items);
    }
  }

  /** A prefix of items with distinct labels has distinct labels. */
  lemma DistinctPrefix(items: seq<(string, string)>, n: nat)
    requires Distinct(DeclaredNames(items)) && n <= |items|
    ensures Distinct(DeclaredNames(items[..n]))
  {
    forall a, b | 0 <= a < b < n
      ensures DeclaredNames(items[..n])[a] != DeclaredNames(items[..n])[b]
    {
      assert DeclaredNames(items)[a] != DeclaredNames(items)[b];
    }
  }

  /** The item-by-item entry list grows by the last item's entry. */
  lemma EntriesSnoc(items: seq<(string, string)>)
    requires |items| > 0
    ensures var n := |items| - 1;
            seq(|items|, i requires 0 <= i < |items| => (items[i].0, EntryType(i, items[i].1)))
            == seq(n, i requires 0 <= i < n => (items[..n][i].0, EntryType(i, items[..n][i].1)))
               + [(items[n].0, EntryType(n, items[n].1))]
  {
  }

  /**
   A CSV column `ID`: the appended `id` is moved first, both labels
   normalise to `id`, and the second assignment overwrites the primary-key
   entry, so the mapping declares `id` once, as a plain `integer`.
   */
  lemma UpperIdLosesPrimaryKey(cells: seq<Value>)
    ensures var f := Frame([Column("ID", "int64", cells)], |cells|);
            && Distinct(Names(f))
            && ColumnTypes(DtypeItems(PrepareFrame(f))) == [(IdName, "integer")]
  {
    var f := Frame([Column("ID", "int64", cells)], |cells|);
    assert Names(f) == ["ID"];
    var r := PrepareFrame(f);
    assert DtypeItems(r) == [(IdName, "int64"), (IdName, "int64")] by {
      UpperIdFrame(cells);
    }
    RepeatedIdOverwrites();
  }

  lemma UpperIdFrame(cells: seq<Value>)
    ensures var f := Frame([Column("ID", "int64", cells)], |cells|);
            && Distinct(Names(f))
            && PrepareFrame(f).columns == [IdColumn(|cells|), Column(IdName, "int64", cells)]
  {
    var c := Column("ID", "int64", cells);
    assert Names(Frame([c], |cells|)) == [c.name];
    assert c.name != IdName;
    NormalizeUpperId();
    SingleColumnFrame(c, |cells|);
  }

  /**
   Republishing the frame ingestion prepares from a CSV column `ID` raises:
   its two `id` labels make the column list fail right after the drop.
   */
  lemma UpperIdRepublishRaises(db: Db, t: string, cells: seq<Value>)
    ensures var g := PrepareFrame(Frame([Column("ID", "int64", cells)], |cells|));
            Republish(db, t, g) == Run([ExistsCheck(t)] + (if t in db then [Execute(DropSql(t))] else []), AttributeError)
  {
    var g := PrepareFrame(Frame([Column("ID", "int64", cells)], |cells|));
    UpperIdFrame(cells);
    assert Names(g)[0] == Names(g)[1];
    var r := Republish(db, t, g);
    assert r.actions == [ExistsCheck(t)] + (if t in db then [Execute(DropSql(t))] else []);
  }

  /** A one-column CSV whose label normalises to `id` without being `id`. */
  lemma SingleColumnFrame(c: Column, h: nat)
    requires |c.cells| == h && c.name != IdName && NormalizeName(c.name) == IdName
    ensures PrepareFrame(Frame([c], h)).columns == [IdColumn(h), c.(name := IdName)]
  {
    var f := Frame([c], h);
    assert WellFormed(f) && Distinct(Names(f)) && IdName !in Names(f) by {
      assert Names(f) == [c.name];
    }
    assert NormalizeColumns(f).columns == [c.(name := IdName)] by {
      var cols := NormalizeColumns(f).columns;
      assert |cols| == 1 && cols[0] == c.(name := IdName);
    }
    var rest := NormalizeColumns(f).columns;
    assert PrepareFrame(f).columns == [IdColumn(h)] + rest by {
      PrepareFrameWithoutId(f);
    }
    PairDisplay(IdColumn(h), c.(name := IdName));
  }

  lemma PairDisplay<T>(a: T, b: T)
    ensures [a] + [b] == [a, b]
  {
  }

  /** A CSV without an `id` label loads as the new `id` followed by all its columns, normalised. */
  lemma PrepareFrameWithoutId(f: Frame)
    requires WellFormed(f) && Distinct(Names(f)) && IdName !in Names(f)
    ensures var r := PrepareFrame(f); r.columns == [IdColumn(f.height)] + NormalizeColumns(f).columns
  {
    forall i | 0 <= i < |f.columns|
      ensures f.columns[i].name != IdName
    {
      assert Names(f)[i] == f.columns[i].name;
    }
    WithoutNone(f.columns, IdName);
    PrepareFrameOthers(f);
    var r := PrepareFrame(f);
    HeadAndTail(r.columns, IdColumn(f.height), NormalizeColumns(f).columns);
  }

  lemma HeadAndTail<T>(s: seq<T>, x: T, t: seq<T>)
    requires |s| > 0 && s[0] == x && s[1..] == t
    ensures s == [x] + t
  {
  }

  lemma NormalizeUpperId()
    ensures NormalizeName("ID") == IdName
  {
    StripUnchanged("ID");
    MissingCharAbsent("ID", " ", ' ');
    ReplaceAbsent("ID", " ", "_");
  }

  /** Two items labelled `id`: the second assignment replaces the primary-key entry. */
  lemma RepeatedIdOverwrites()
    ensures ColumnTypes([(IdName, "int64"), (IdName, "int64")]) == [(IdName, "integer")]
  {
    var items := [(IdName, "int64"), (IdName, "int64")];
    assert items[..1] == [(IdName, "int64")];
    assert [(IdName, "int64")][..0] == [];
    assert ColumnTypes(items[..1]) == [(IdName, PrimaryKeyType)];
    assert SqlTypeFor("int64") == "integer";
  }

  // ---------------------------------------------------------------------
  // get_table_ready

  /**
   `get_table_ready`: drop the table if it exists, create it from the
   derived mapping, then load the prepared frame through the gate of
   `populate_table_from_csv`. The load always passes the gate: afterwards
   the table declares the derived mapping and holds exactly the prepared
   frame's rows, whatever it held before, and every other table is untouched.
   */
  function GetTableReady(db: Db, t: string, f: Frame): (r: Result<PopulateResult, StoreError>)
    requires WellFormed(f)
    ensures var g := PrepareFrame(f);
            && r.Ok? && r.value.mismatch.None?
            && r.value.db.Keys == db.Keys + {t}
            && r.value.db[t] == Table(ColumnTypes(DtypeItems(g)), Records(g))
            && (forall u :: u in db && u != t ==> r.value.db[u] == db[u])
  {
    LoadStores(db, t, PrepareFrame(f));
    Load(db, t, PrepareFrame(f))
  }

  /**
   Drop, create from the frame's derived mapping, and fill through the gate.
   The creation never fails and the fill always passes: the store left is
   the previous one without the table, plus the table holding the frame's
   records under the derived mapping.
   */
  function Load(db: Db, t: string, g: Frame): (r: Result<PopulateResult, StoreError>)
    requires WellFormed(g)
    ensures r == Ok(PopulateResult(Reloaded(db, t, g), None))
  {
    var mapping := ColumnTypes(DtypeItems(g));
    var dropped := DropIfExists(db, t);
    var created := BuildTable(dropped, t, mapping);
    assert created == Ok(dropped[t := Table(mapping, [])]) by {
      assert t !in dropped && Distinct(DeclaredNames(mapping));
    }
    FillBuilt(dropped, t, g);
    match created
    case Err(e) => Err(e)
    case Ok(built) => Ok(PopulateTableFromCsv(built, t, g))
  }

  /** `DROP TABLE` when `table_exists` says the table is there. */
  function DropIfExists(db: Db, t: string): (r: Db)
    ensures t !in r && r.Keys == db.Keys - {t}
    ensures forall u :: u in db && u != t ==> r[u] == db[u]
  {
    if t in db then db - {t} else db
  }

  lemma LoadStores(db: Db, t: string, g: Frame)
    requires WellFormed(g)
    ensures var r := Load(db, t, g);
            && r.Ok? && r.value.mismatch.None?
            && r.value.db.Keys == db.Keys + {t}
            && r.value.db[t] == Table(ColumnTypes(DtypeItems(g)), Records(g))
            && (forall u :: u in db && u != t ==> r.value.db[u] == db[u])
  {
    ReloadedFrame(db, t, g);
  }

  /** The store after a load: the previous one without `t`, then `t` holding the frame's table. */
  function Reloaded(db: Db, t: string, g: Frame): Db
    requires WellFormed(g)
  {
    DropIfExists(db, t)[t := Table(ColumnTypes(DtypeItems(g)), Records(g))]
  }

  /** A freshly built table whose columns are the frame's derived mapping passes the gate and receives every record. */
  lemma FillBuilt(dropped: Db, t: string, g: Frame)
    requires WellFormed(g)
    ensures var mapping := ColumnTypes(DtypeItems(g));
            PopulateTableFromCsv(dropped[t := Table(mapping, [])], t, g)
            == PopulateResult(dropped[t := Table(mapping, Records(g))], None)
  {
    var mapping := ColumnTypes(DtypeItems(g));
    var built := dropped[t := Table(mapping, [])];
    assert TableColumns(built, t) == NameSet(g) by {
      MappingCoversFrame(g);
    }
    PopulatePasses(built, t, g);
    UpdateTwice(dropped, t, Table(mapping, []), Table(mapping, Records(g)));
    assert [] + Records(g) == Records(g);
  }

  lemma UpdateTwice<K, V>(m: map<K, V>, k: K, a: V, b: V)
    ensures m[k := a][k := b] == m[k := b]
  {
  }

  lemma ReloadedFrame(db: Db, t: string, g: Frame)
    requires WellFormed(g)
    ensures Reloaded(db, t, g).Keys == db.Keys + {t}
    ensures Reloaded(db, t, g)[t] == Table(ColumnTypes(DtypeItems(g)), Records(g))
    ensures forall u :: u in db && u != t ==> Reloaded(db, t, g)[u] == db[u]
  {
    assert (db.Keys - {t}) + {t} == db.Keys + {t};
  }

  /** Reloading a store a load produced gives it back. */
  lemma ReloadedFixed(db: Db, t: string, g: Frame)
    requires WellFormed(g)
    ensures Reloaded(Reloaded(db, t, g), t, g) == Reloaded(db, t, g)
  {
    var db1 := Reloaded(db, t, g);
    var db2 := Reloaded(db1, t, g);
    assert db2.Keys == db1.Keys;
    forall u | u in db1
      ensures db2[u] == db1[u]
    {
    }
  }

  /** A frame whose labels are the table's columns is appended and nothing else changes. */
  lemma PopulatePasses(db: Db, t: string, g: Frame)
    requires WellFormed(g) && t in db && TableColumns(db, t) == NameSet(g)
    ensures PopulateTableFromCsv(db, t, g)
            == PopulateResult(db[t := Table(db[t].columns, db[t].rows + Records(g))], None)
  {
    var p := PopulateTableFromCsv(db, t, g);
    assert p.db == db[t := Table(db[t].columns, db[t].rows + Records(g))];
  }

  /** `column_dict`'s keys are exactly the frame's labels. */
  lemma MappingCoversFrame(g: Frame)
    ensures forall c :: c in DeclaredNames(ColumnTypes(DtypeItems(g))) <==> c in NameSet(g)
  {
    assert DeclaredNames(DtypeItems(g)) == Names(g);
  }

  /** Loading is independent of what the store held before: running it twice leaves one copy. */
  lemma GetTableReadyIdempotent(db: Db, t: string, f: Frame)
    requires WellFormed(f)
    ensures GetTableReady(db, t, f).Ok?
    ensures GetTableReady(GetTableReady(db, t, f).value.db, t, f) == GetTableReady(db, t, f)
  {
    LoadIdempotent(db, t, PrepareFrame(f));
  }

  lemma LoadIdempotent(db: Db, t: string, g: Frame)
    requires WellFormed(g)
    ensures Load(db, t, g).Ok?
    ensures Load(Load(db, t, g).value.db, t, g) == Load(db, t, g)
  {
    ReloadedFixed(db, t, g);
  }

  /**
   When the normalised labels are distinct, the stored row `i` has `id`
   equal to `i + 1`, and the table declares `id` first as the primary key.
   */
  lemma StoredIdsNumberRows(db: Db, t: string, f: Frame)
    requires WellFormed(f)
    requires Distinct(Names(PrepareFrame(f)))
    ensures var r := GetTableReady(db, t, f);
            && r.Ok? && t in r.value.db
            && |r.value.db[t].rows| == f.height
            && |r.value.db[t].columns| > 0 && r.value.db[t].columns[0] == (IdName, PrimaryKeyType)
            && (forall i :: 0 <= i < f.height ==>
                  IdName in r.value.db[t].rows[i] && r.value.db[t].rows[i][IdName] == IntValue(i + 1))
  {
    LoadNumbersRows(db, t, PrepareFrame(f));
  }

  lemma LoadNumbersRows(db: Db, t: string, g: Frame)
    requires WellFormed(g) && Distinct(Names(g))
    requires |g.columns| > 0 && g.columns[0] == IdColumn(g.height)
    ensures var r := Load(db, t, g);
            && r.Ok? && t in r.value.db
            && |r.value.db[t].rows| == g.height
            && |r.value.db[t].columns| > 0 && r.value.db[t].columns[0] == (IdName, PrimaryKeyType)
            && (forall i :: 0 <= i < g.height ==>
                  IdName in r.value.db[t].rows[i] && r.value.db[t].rows[i][IdName] == IntValue(i + 1))
  {
    IdDeclaredFirst(g);
    IdsNumberRecords(g);
  }

  /** With distinct labels and `id` first, the derived mapping declares `id` first, as the primary key. */
  lemma IdDeclaredFirst(g: Frame)
    requires Distinct(Names(g))
    requires |g.columns| > 0 && g.columns[0] == IdColumn(g.height)
    ensures |ColumnTypes(DtypeItems(g))| > 0 && ColumnTypes(DtypeItems(g))[0] == (IdName, PrimaryKeyType)
  {
    var items := DtypeItems(g);
    assert DeclaredNames(items) == Names(g);
    ColumnTypesDistinct(items);
  }

  /** With distinct labels and `id` first, record `i` has `id` equal to `i + 1`. */
  lemma IdsNumberRecords(g: Frame)
    requires WellFormed(g) && Distinct(Names(g))
    requires |g.columns| > 0 && g.columns[0] == IdColumn(g.height)
    ensures forall i :: 0 <= i < g.height ==> IdName in Records(g)[i] && Records(g)[i][IdName] == IntValue(i + 1)
  {
    var rows := Records(g);
    forall i | 0 <= i < g.height
      ensures IdName in rows[i] && rows[i][IdName] == IntValue(i + 1)
    {
      RowRecordLookup(g.columns, i, 0);
    }
  }

}
