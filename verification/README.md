# RagHackathon core in Dafny

This project models the data path of RagHackathon, a hackathon retrieval
demo. A CSV of cars becomes a PostgreSQL table. The table is then searched
to build the prompt for a language model. The model covers five parts:

- **Ingestion** (`Rag.GetTableReady`, rag.py). The frame gets an `id` column
  numbering the rows from 1, and `id` is moved to the front. Every label is
  stripped, has its spaces replaced by `_`, and is lower-cased. The dtypes
  are mapped to SQL types, with the first column made the primary key. The
  table is dropped if it exists and re-created, and the rows are loaded.
- **The schema builder** (`Populate`, populate.py). This is the
  `CREATE TABLE` text `build_table` emits and its effect on the store. It
  also covers the column-set gate of `populate_table_from_csv`: rows are
  appended only when the frame's label set equals the table's column set.
- **The store adapter** (`PgConn`, pg_conn.py):
  - `select_sql` and `select_sql_for_large_tables` (batches of 1,000,000);
  - `get_table_columns`;
  - `to_psql` and `to_psql_in_chunks` (both append);
  - `insert_row`'s statement;
  - `republish_dataframe_to_postgres`, with its textual type rewrite.
- **Reciprocal rank fusion** (`RagQuery`, rag.py). Each id scores
  `1/(60 + rank)` from each ranking it appears in. The 20 best are kept in
  descending score order. The retrieved rows are then formatted as markdown
  sources and appended to the question. The question is a literal in
  rag.py:65; the model takes it as a parameter.
- **Naive CSV retrieval** (`Example`, example.py):
  - the question is lower-cased and its punctuation rewritten;
  - a data row matches when a word of the question is a whole token of its
    field 0 or field 3;
  - the matches are rendered as a markdown table under `Sources:`.

The store is a map from table name to declared columns and rows. A
DataFrame is a sequence of named, typed columns of equal height (`Frames`).
Python's string built-ins live in `Text`: `strip`, `split`, `join`, `lower`
and `replace`. `Text.SplitOn` splits at one character; the source never
calls it, and it serves only the lemmas about line structure. Batching lives in `Seqs`. Error paths are
`Result` values (`Outcomes`):
- a table that already exists is an error;
- a repeated column name is an error;
- a row too short for example.py's `row[3]` gives `IndexError`.

## Model

| member | source | states |
|---|---|---|
| Text.Lower | rag.py:35 | Maps every character pointwise: `A`–`Z` become lower case, everything else is kept, and the length is unchanged. |
| Text.LowerIdempotent | example.py:23 | Lower-casing twice is lower-casing once. |
| Text.Strip | rag.py:35 | The result is no longer than the input, and neither its first nor its last character is whitespace. |
| Text.StripSlice | rag.py:35 | The stripped label is a contiguous slice of the original, from the first non-space character to the last one. |
| Text.StripUnchanged | rag.py:35 | A label with no whitespace at either end is returned unchanged. |
| Text.Split | example.py:26 | Every word is non-empty and holds no whitespace. |
| Text.SplitAvoids | example.py:26 | Splitting never introduces a character the text does not contain. |
| Text.SplitJoin | example.py:26 | Splitting space-joined whitespace-free non-empty words gives back exactly those words. |
| Text.SplitSkipsSpace | example.py:26 | A leading space does not change what `split()` returns. |
| Text.SplitOnJoin | populate.py:10-15 | Splitting at `c` a `c`-join of parts that contain no `c` gives back the parts. |
| Text.ReplaceAll | pg_conn.py:173-175 | Replacing by a text at least as long never shortens the string, and by one no longer never lengthens it. |
| Text.ReplaceOneChar | example.py:23 | On a one-character string, replacing a one-character pattern gives the replacement on a match and the string otherwise. |
| Text.ReplaceCharAppend | example.py:23 | Replacing a one-character pattern distributes over concatenation. |
| Text.ReplaceAbsent | pg_conn.py:173-175 | `replace` leaves a string in which the pattern does not occur unchanged. |
| Text.ReplaceJoin | pg_conn.py:171-175 | Replacing in a joined string replaces in each part, when the pattern cannot straddle a separator. |
| Text.ReplaceRemovesChar | rag.py:35 | Replacing every occurrence of a one-character pattern by a text without that character leaves no occurrence of it. |
| Text.ReplaceKeepsAbsent | example.py:23 | `replace` never introduces a character that neither the input nor the replacement contains. |
| Text.ReplaceCharPointwise | rag.py:35 | Replacing one character by another maps the string pointwise and keeps its length. |
| Seqs.Chunks | pg_conn.py:64-75 | Cutting into batches of a given size loses and reorders nothing. Every batch but the last is full and none is empty. |
| Seqs.ChunksUnique | pg_conn.py:64-75 | Any full-batches-then-remainder cut of a sequence is exactly its `Chunks`. |
| Frames.Records | pg_conn.py:117 | A frame gives exactly one record per row. |
| Frames.RowRecordLookup | pg_conn.py:117 | With distinct labels, record `i` maps column `j`'s label to column `j`'s cell `i`. |
| PgConn.TableColumns | pg_conn.py:100-107 | A missing table has no columns. Otherwise a name is a column exactly when the table declares it. |
| PgConn.SelectSql | pg_conn.py:42-58 | All rows are returned, labelled with the description when there is at least one row and unlabelled otherwise. |
| PgConn.FetchMany | pg_conn.py:69 | Returns the next `n` rows, or all remaining rows when fewer are left, and advances the cursor past them. |
| PgConn.SelectInChunks | pg_conn.py:60-80 | Every batch is labelled and non-empty. Every batch but the last holds exactly 1,000,000 rows. Concatenated, the batches are exactly the query's rows, so they equal `Chunks(rows, 1000000)`. |
| PgConn.LabelledChunks | pg_conn.py:60-80 | Labelled batches that cut the rows into full batches plus a shorter last one are exactly `Chunks(rows, 1000000)`, each labelled. |
| PgConn.EnsureTable | pg_conn.py:117 | `to_sql` creates a missing table from the frame's labels and dtypes and leaves an existing one alone. |
| PgConn.InsertRows | pg_conn.py:117 | Appending rows changes only the target table's rows, keeping its declared columns. |
| PgConn.ToSql | pg_conn.py:109-117 | Appending a frame adds its records after the table's rows, or creates the table when it is missing. Other tables are untouched. |
| PgConn.InsertBatches | pg_conn.py:119-128 | Inserting batch after batch is inserting their concatenation once. |
| PgConn.ToSqlInChunks | pg_conn.py:119-128 | The chunked upload leaves the store exactly as the single upload does, for every positive chunk size. |
| PgConn.Placeholders | pg_conn.py:153 | The placeholder list holds exactly one `%` per value. |
| PgConn.InsertRow | pg_conn.py:144-155 | The statement starts with `INSERT INTO <table> VALUES (` and ends with `)`. Its parameters are the row's values, and when the table name has no `%` it holds exactly one `%` per value. |
| PgConn.ColumnDefs | pg_conn.py:171 | One `name type` definition per declared column, in order. |
| PgConn.RepublishDdlPiecewise | pg_conn.py:171-175 | With distinct labels, the whole-statement type rewrite equals rewriting the table name and each column definition separately. |
| PgConn.RewriteDtype | pg_conn.py:173-175 | `int64` becomes `bigint`, `float64` becomes `double precision` and `object` becomes `text`; a name holding none of the patterns is unchanged. |
| PgConn.RepublishDdlIntended | pg_conn.py:171-175 | When the labels are distinct, no label or table name contains a rewritten pattern and each dtype is a pattern or holds none, the statement is `CREATE TABLE` of the same name declaring each column with the Postgres name of its dtype. |
| PgConn.RewriteCanRecreate | pg_conn.py:173-175 | The sequential rewrite can create an occurrence of a pattern: for `s` equal to `objecobject` it yields `objectext`, which contains `object`. |
| PgConn.CreateSql | pg_conn.py:171-172 | The statement starts with `CREATE TABLE <table> (` and ends with `)`. |
| PgConn.RewriteTypes | pg_conn.py:173-175 | A text holding none of `int64`, `float64` and `object` is left unchanged. |
| PgConn.RepublishDdl | pg_conn.py:171-175 | Defined for distinct labels only; the rewritten statement still starts with `CREATE TABLE `. |
| PgConn.RewriteDeclIntended | pg_conn.py:171-175 | When no label contains a rewritten pattern and each dtype is a pattern or holds none, the rewritten declarations give each column the Postgres name of its dtype. |
| PgConn.Republish | pg_conn.py:157-179 | The existence query comes first, and `DROP TABLE` is issued exactly when the table exists. With distinct labels there follow the rewritten `CREATE TABLE`, a commit, and the frame's records in batches of 20. With a repeated label the call raises `AttributeError` right after the drop, issuing nothing more. |
| Populate.CreateTableSql | populate.py:8-15 | The statement starts with `CREATE TABLE <table> (` and ends with `);`. |
| Populate.ColumnClause | populate.py:10 | The column clause is the definitions, each but the last followed by a comma, joined by line breaks. |
| Populate.JoinCommaNewline | populate.py:10 | Joining with `,\n` is line-joining the definitions with a comma after every one but the last. |
| Populate.CreateTableLines | populate.py:10-15 | Split at its line breaks, the statement is the header, one line per mapping entry in order (each but the last ending in a comma), and the closing `);` line. |
| Populate.BuildTable | populate.py:8-20 | Succeeds exactly when the table is new and the column names are distinct, and then adds an empty table with that declaration. An existing table is a `DuplicateTable` error. |
| Populate.PopulateTableFromCsv | populate.py:22-33 | Rows are appended exactly when the frame's label set equals the table's column set. Otherwise the store is unchanged and both differing sets are reported. |
| Populate.GateIgnoresOrder | populate.py:23-26 | Reordering a frame's columns never changes the gate's verdict. |
| Populate.GateIsCaseSensitive | populate.py:23-26 | A CSV label `ID` does not pass against a table column `id`. |
| Rag.IdCells | rag.py:33 | Cell `i` of the new column is `i + 1`, one cell per row. |
| Rag.AddIdColumn | rag.py:33 | An `id` column numbering the rows from 1 replaces an existing `id` in place or is appended last. Every other column is unchanged. |
| Rag.AddIdColumnNumbersRows | rag.py:33 | With distinct labels, the frame has exactly one `id` column, and it numbers the rows from 1. |
| Rag.Without | rag.py:34 | Keeps only columns of the frame whose name differs from the given one. |
| Rag.WithoutKeeps | rag.py:34 | Every column not named `n` survives the filter. |
| Rag.WithoutAppend | rag.py:34 | Filtering distributes over concatenation, so the order of the kept columns is preserved. |
| Rag.PartitionByName | rag.py:34 | The columns named `n` and the columns not named `n` together are a permutation of the columns. |
| Rag.NamedUnique | rag.py:34 | With distinct labels, exactly one column is selected by the name. |
| Rag.MoveToFront | rag.py:34 | The selection starts with the named column, keeps the height and column count, and takes every column from the frame. |
| Rag.MoveToFrontPermutes | rag.py:34 | Moving `id` to the front is a permutation of the columns. |
| Rag.MoveToFrontDistinct | rag.py:34 | With distinct labels, the result is the named column followed by all the others in their original order. |
| Rag.NormalizeName | rag.py:35 | A normalised label contains no space and is no longer than the original. |
| Rag.NormalizeNameIdempotent | rag.py:35 | Normalising a normalised label changes nothing. |
| Rag.NormalizeNameFixed | rag.py:35 | A label already stripped, space-free and lower-case is its own normal form. |
| Rag.NormalizeColumns | rag.py:35 | Renames every column to its normalised label and keeps its dtype and cells. |
| Rag.NormalizeColumnsIdempotent | rag.py:35 | Normalising the labels twice is normalising once. |
| Rag.PrepareFrame | rag.py:32-35 | The prepared frame is well formed and has the same height. It gains one column unless `id` was present. Its first column is the `id` numbering. |
| Rag.PrepareFrameOthers | rag.py:33-35 | With distinct labels, after `id` come all the other columns in their original order, each renamed to its normalised label. |
| Rag.PrepareFrameWithoutId | rag.py:33-35 | A frame with no `id` becomes the `id` numbering followed by its own normalised columns. |
| Rag.SqlTypeFor | rag.py:25-45 | The five listed dtypes map to their SQL types; any other dtype maps to `text`. |
| Rag.SqlTypeForTable | rag.py:25-45 | Spells out the five mapping entries, and that `text` results exactly for `object` and unlisted dtypes. |
| Rag.Get | rag.py:40-46 | A lookup fails exactly when the key is absent. |
| Rag.Put | rag.py:40-46 | Assigning a new key appends it; re-assigning an existing key keeps the key order. |
| Rag.PutGet | rag.py:40-46 | After assigning `k`, a lookup of `k` gives the new value and every other key is unchanged. |
| Rag.ColumnTypes | rag.py:40-46 | The mapping's keys are distinct and are exactly the frame's labels. |
| Rag.ColumnTypesDistinct | rag.py:40-46 | With distinct labels, entry `i` is label `i` with `integer PRIMARY KEY` for the first column and its mapped SQL type otherwise. |
| Rag.UpperIdLosesPrimaryKey | rag.py:33-46 | A CSV whose only column is `ID` yields the mapping `id: integer`: the generated primary key is overwritten. |
| Rag.UpperIdRepublishRaises | pg_conn.py:165-171 | Republishing the frame ingestion prepares from a CSV column `ID` raises `AttributeError` after the existence query and the drop (when the table exists), because the frame has two `id` columns. |
| Rag.UpperIdFrame | rag.py:33-35 | A CSV column `ID` survives the `id` reordering and is normalised to a second `id` column. |
| Rag.SingleColumnFrame | rag.py:33-35 | A one-column CSV whose label normalises to `id` without being `id` becomes the new `id` column followed by that column relabelled `id`. |
| Rag.NormalizeUpperId | rag.py:35 | The label `ID` normalises to `id`. |
| Rag.RepeatedIdOverwrites | rag.py:40-46 | Two `id` entries collapse to one, typed by the later entry. |
| Rag.DropIfExists | rag.py:47-52 | Removes exactly the named table, if present. |
| Rag.GetTableReady | rag.py:23-55 | Loading always passes the gate. Afterwards the table declares the derived mapping and holds exactly the prepared frame's records, whatever it held before; other tables are untouched. |
| Rag.LoadStores | rag.py:47-54 | Dropping, building from the derived mapping and populating leaves the table holding exactly the frame's records under that mapping. |
| Rag.Load | rag.py:47-54 | A load always passes the gate. The store it leaves is the previous one without the table, plus the table holding the frame's records under the derived mapping. |
| Rag.ReloadedFixed | rag.py:47-54 | Loading the same frame into a store that a load of it produced gives that store back. |
| Rag.PopulatePasses | rag.py:54 | A frame whose labels are the table's columns is appended and nothing else changes. |
| Rag.MappingCoversFrame | rag.py:40-46 | The keys of the derived mapping are exactly the frame's labels, so the gate passes. |
| Rag.GetTableReadyIdempotent | rag.py:23-55 | Running the load a second time leaves the store as the first run did. |
| Rag.StoredIdsNumberRows | rag.py:23-55 | With distinct normalised labels, the table declares `id integer PRIMARY KEY` first and stored row `i` has `id = i + 1`. |
| Rag.IdDeclaredFirst | rag.py:40-46 | With distinct labels and `id` first, the mapping declares `id` first, as `integer PRIMARY KEY`. |
| Rag.IdsNumberRecords | rag.py:33 | With distinct labels and `id` first, record `i` maps `id` to `i + 1`. |
| RagQuery.Term | rag.py:89-91 | A ranking contributes a positive term of at most `1/61` to an id it holds, and `0.0` to one it does not. |
| RagQuery.Score | rag.py:88-93 | An id scores above zero exactly when one of the two rankings holds it, and never more than `2/61`. |
| RagQuery.ScoreSymmetric | rag.py:89-93 | Swapping the two rankings changes no score and no candidate. |
| RagQuery.OneSidedKept | rag.py:89-93 | The full outer join keeps an id only one ranking holds, scored by that ranking alone. |
| RagQuery.BetterRanksScoreHigher | rag.py:89-91 | An id ranked at least as well in both rankings scores at least as high. |
| RagQuery.Candidates | rag.py:88-93 | The full outer join's ids are exactly those of either ranking. |
| RagQuery.CandidatesBound | rag.py:88-93 | There are never more candidates than the two rankings hold together. |
| RagQuery.RankMap | rag.py:73-87 | Each ranking row becomes an entry, and every entry comes from a row. |
| RagQuery.JoinIds | rag.py:93 | The join lists every candidate exactly once. |
| RagQuery.PickBest | rag.py:94 | Returns the position of a highest-scoring remaining candidate. |
| RagQuery.Remove | rag.py:94-95 | Removing the selected candidate keeps the others, still unique. |
| RagQuery.SelectBest | rag.py:94-95 | Appending a best remaining candidate keeps the output a valid descending prefix of a fusion. |
| RagQuery.Fuse | rag.py:88-95 | The output is a fusion of the two rankings: `min(20, candidates)` distinct candidates with their fused scores in non-increasing order, none scoring below an omitted candidate. |
| RagQuery.FewCandidatesAllKept | rag.py:93-95 | With at most 20 candidates, every candidate is returned. |
| RagQuery.ExampleFusion | rag.py:88-95 | A worked instance: id 2 first with `1/62 + 1/61`, then ids 1 and 3 with `1/61` each. |
| RagQuery.TiesMayComeInEitherOrder | rag.py:94 | Both orders of two tied ids are valid results; the query fixes no tie order. |
| RagQuery.SourceBlock | rag.py:108-110 | The block is empty exactly when there are no rows, and otherwise ends with a line break. |
| RagQuery.SourceBlockAppend | rag.py:108-110 | Formatting two row lists is formatting each and concatenating. |
| RagQuery.SourceBlockLines | rag.py:108-110 | Split at line breaks, the block is `## title`, an empty line and the body for each row, in order, then a final empty string. |
| RagQuery.RenderSources | rag.py:108-110 | The accumulating loop builds exactly the block. |
| RagQuery.UserPrompt | rag.py:116 | The prompt is the question, then `\n\nSources:\n\n`, then the block. |
| RagQuery.UserPromptDeterminesBlock | rag.py:116 | For a fixed question, the prompt determines the block. |
| Example.Words | example.py:23-26 | The question's words are non-empty, hold no whitespace, and contain no upper-case ASCII letter, `?`, `(` or `)`. |
| Example.Tokens | example.py:30 | A field's tokens are non-empty, hold no whitespace and contain no upper-case ASCII letter. |
| Example.NormalizeQuestion | example.py:23 | Character by character, every `?` is deleted, every `(` and `)` becomes a space and every other character is lower-cased; so no `?`, `(` or `)` is left. |
| Example.NormalizeQuestionAppend | example.py:23 | The normal form of `a + b` is the normal form of `a` followed by that of `b`. |
| Example.NormalizeOneChar | example.py:23 | A one-character question normalises to that character's image: empty for `?`, a space for `(` and `)`, the lower-cased character otherwise. |
| Example.NormalizeAroundPunctuation | example.py:23 | A `?` between two pieces of the question vanishes, and a `(` or `)` between them becomes a space. |
| Example.NormalizeQuestionFixed | example.py:23 | A question without capitals, `?`, `(` or `)` is its own normal form. |
| Example.BracketsSeparateWords | example.py:23-26 | For words without capitals or punctuation, the question `a(b)?` searches for exactly `a` and `b`. |
| Example.NormalizedHasNoUpper | example.py:23 | The normalised question has no upper-case ASCII letter. |
| Example.NormalizeQuestionIdempotent | example.py:23 | Normalising twice is normalising once. |
| Example.NormalizeQuestionIgnoresCase | example.py:23 | Lower-casing the question first changes nothing. |
| Example.RowMatches | example.py:30 | A row is `IndexError` exactly when there are words and either it is empty or field 0 mentions none of them and the row has fewer than four fields. It matches exactly when field 0, or an existing field 3, mentions a word as a whole token. |
| Example.RowMatchesReadsTwoFields | example.py:30 | Only fields 0 and 3 (and the row's length) decide a match. |
| Example.RowMatchesWordSet | example.py:30 | Only the set of question words matters, not their order or repetition. |
| Example.WholeTokensOnly | example.py:30 | Tokens are matched whole: the word `sedan` does not match a row whose fields say `sedans`. |
| Example.MatchIndices | example.py:27-31 | The scan fails exactly when some row fails. Otherwise it lists, in ascending order, exactly the positions of the matching rows. |
| Example.Select | example.py:27-31 | A scan over row verdicts fails exactly when some verdict is an error. Otherwise it lists, ascending, exactly the positions of the `true` verdicts. |
| Example.SelectNone | example.py:27-31 | When every verdict rejects, the scan selects nothing. |
| Example.Verdicts | example.py:28-30 | One verdict per data row, in order, each the row's own test. |
| Example.Matches | example.py:27-31 | Succeeds exactly when every data row can be tested. Then the result is the data rows at an ascending list of positions that holds exactly the matching rows, so no match is lost, none is repeated and file order is kept. |
| Example.HeaderNeverMatched | example.py:28 | The header row never influences the matches. |
| Example.NoWordsNoRows | example.py:26-31 | A question with no words matches no rows. |
| Example.FindMatches | example.py:27-31 | The loop returns exactly `Matches`, including its failure. |
| Example.RenderTable | example.py:34-35 | The table is the header line, the dash line and one line per match (an empty line when nothing matched), joined by line breaks. |
| Example.TableLineStructure | example.py:34-35 | Split at line breaks, the table is the header line, one dash cell per header field, then one `" \| "`-joined line per match, or a single empty line when nothing matched. |
| Example.ProcessInput | example.py:14-52 | Succeeds exactly when the CSV has a header row and the scan succeeds. The prompt is the original question followed by `\nSources: ` and the rendered table. |
| Example.SameRetrievalOwnQuestion | example.py:23-52 | Two questions with the same normal form retrieve the same sources, and each prompt keeps its own wording. |

## Left out

- Connections, configuration, `execute_sql`, `execute_sql_value` and `clean_up` (pg_conn.py:1-35, 82-98, 182-186; populate.py:35-36): these are driver plumbing with no logic beyond forwarding.
- `update_to_psql` and `update_to_psql_in_chunks` (pg_conn.py:130-142): nothing in the core calls the `if_exists='replace'` variants.
- CSV parsing and pandas dtype inference (rag.py:32, example.py:18-20): frames and rows are inputs, and each column's dtype is given as a string.
- The embedding client, the language-model calls and the system messages (rag.py:68-70, 113-124; example.py:15, 40-53): these are foreign calls. The model stops at the prompt text.
- `CREATE EXTENSION`, `register_vector` and the HNSW index (rag.py:59-61): store configuration with no effect on the modelled data.
- The vector distance, `ts_rank_cd` and the two `RANK()` computations (rag.py:75-87): each ranking is an input of up to 20 `(id, rank)` rows.
- RagQuery.RankMap and RagQuery.Fuse: they require ids to be unique within a ranking. This is an assumption about the queried table, namely that `id` is its primary key. Ingestion does not guarantee it: Rag.UpperIdLosesPrimaryKey shows a CSV column `ID` producing a table whose `id` is not declared primary key, and since a later duplicate label wins in a record, the stored `id` cells are then the CSV's own values, which may repeat. The `embedding` column that both rankings read is not created by `get_table_ready` either (its computation is commented out at rag.py:36-39).
- RagQuery.Fuse: the tie order among equal scores is left open (any order satisfying `IsFusion`), because `ORDER BY score DESC` does not fix it.
- The re-fetch by id (rag.py:103-105): `WHERE id = ANY(...)` returns rows in no specified order, so `SourceBlock` formats whatever order it is given.
- Streamlit and the console output (example.py:56-87; all `print` calls): user interface only.
- Text.Lower: only ASCII letters are lowered; Python's full Unicode case mapping is not modelled.
- Text.Strip and Text.Split: whitespace is the Unicode set `str.isspace` uses for ordinary characters; the separator and control classes are not derived from the Unicode database.
- PgConn.ToSql: pandas' handling of duplicate column labels and the SQL type inference `to_sql` performs are not modelled. Records are maps, so a later duplicate label's cell wins.
- PgConn.InsertRow: the driver's parameter binding is not modelled; the contract is about the statement text and its parameters.
- Quoting and SQL injection through table and column names interpolated into statements are not modelled; names are used as given.
- Example.RowMatches: a row too short for `row[3]` is modelled as an `IndexError` result rather than as a precondition. `any` stops at the first success, so the error only happens when field 0 mentions no word.
- Text.Join: carries no contract of its own, so that its callers' proofs stay small. Its behaviour is stated by Text.SplitJoin, Text.SplitOnJoin, Text.ReplaceJoin and Populate.JoinCommaNewline.
- Text.ReplaceAll: its own contract gives only length bounds. What it produces is stated by Text.ReplaceAbsent, Text.ReplaceKeepsAbsent, Text.ReplaceCharPointwise, Text.ReplaceRemovesChar and Text.ReplaceJoin.
- Text.Split: its own contract gives non-empty, whitespace-free words. Their order and contents are stated by Text.SplitJoin, Text.SplitSkipsSpace and Text.SplitAvoids.
- PgConn.RewriteTypes and PgConn.RepublishDdl: their own contracts are partial (unchanged text; the statement prefix). The full rewrite is stated by PgConn.RewriteDtype, PgConn.RepublishDdlPiecewise and PgConn.RepublishDdlIntended.
- PgConn.CreateSql: its contract gives the frame of the statement; the column list inside it is stated by PgConn.RepublishDdlPiecewise and PgConn.RepublishDdlIntended.
- RagQuery.IsFusion: a specification predicate with no contract of its own. RagQuery.Fuse, RagQuery.SelectBest and RagQuery.TiesMayComeInEitherOrder state what it admits.
- PgConn.RepublishDdl, PgConn.RepublishDdlPiecewise and PgConn.RepublishDdlIntended: they require distinct labels, because for a repeated label pg_conn.py:171 raises `AttributeError` before any statement text exists. PgConn.Republish models that failure.
