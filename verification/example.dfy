/**
 The naive retrieval of `process_input` in example.py: the question is
 normalised and split into words, the CSV's data rows whose first or
 fourth field contains one of those words as a whole token are kept, and
 they are rendered as a markdown table appended to the question.
 Reading the CSV file and the call to the language model are not modelled:
 the rows are an input and the prompt is the output.
 */
module Example {
  import opened Text
  import opened Outcomes

  /** What `process_input` raises on rows too short for the fields it reads. */
  datatype Failure = IndexError

  /** One CSV record as `csv.reader` yields it. */
  type Row = seq<string>

  // ---------------------------------------------------------------------
  // question.lower().replace("?", "").replace("(", " ").replace(")", " ")

  /** What one character of the question becomes: `?` is deleted, `(` and `)` become spaces, the rest is lower-cased. */
  function NormalChar(c: char): string {
    if c == '?' then "" else if c == '(' || c == ')' then " " else [LowerChar(c)]
  }

  /** The question normalised one character at a time. */
  function NormalizeByChar(q: string): string
    decreases |q|
  {
    if |q| == 0 then "" else NormalChar(q[0]) + NormalizeByChar(q[1..])
  }

  /** The three `replace` calls, applied to the lower-cased question. */
  function Unpunctuate(s: string): string {
    ReplaceAll(ReplaceAll(ReplaceAll(s, "?", ""), "(", " "), ")", " ")
  }

  /**
   `question.lower().replace("?", "").replace("(", " ").replace(")", " ")`:
   character by character, every `?` is deleted, every `(` and `)` becomes
   a space and everything else is lower-cased, so no `?`, `(` or `)` is left.
   */
  function NormalizeQuestion(q: string): (r: string)
    ensures r == NormalizeByChar(q)
    ensures '?' !in r && '(' !in r && ')' !in r
  {
    var a := ReplaceAll(Lower(q), "?", "");
    var b := ReplaceAll(a, "(", " ");
    assert '?' !in b && '(' !in b by {
      ReplaceRemovesChar(Lower(q), "?", "");
      ReplaceKeepsAbsent(a, "(", " ", '?');
      ReplaceRemovesChar(a, "(", " ");
    }
    var r := ReplaceAll(b, ")", " ");
    assert '?' !in r && '(' !in r && ')' !in r by {
      ReplaceKeepsAbsent(b, ")", " ", '?');
      ReplaceKeepsAbsent(b, ")", " ", '(');
      ReplaceRemovesChar(b, ")", " ");
    }
    UnpunctuateLowerByChar(q);
    r
  }

  /** The replaces distribute over concatenation: each pattern is a single character. */
  lemma UnpunctuateAppend(a: string, b: string)
    ensures Unpunctuate(a + b) == Unpunctuate(a) + Unpunctuate(b)
  {
    var a1, b1 := ReplaceAll(a, "?", ""), ReplaceAll(b, "?", "");
    var a2, b2 := ReplaceAll(a1, "(", " "), ReplaceAll(b1, "(", " ");
    ReplaceCharAppend(a, b, '?', "");
    ReplaceCharAppend(a1, b1, '(', " ");
    ReplaceCharAppend(a2, b2, ')', " ");
  }

  /** On one character the replaces delete `?`, turn `(` and `)` into a space, and keep the rest. */
  lemma UnpunctuateChar(c: char)
    ensures Unpunctuate([c]) == if c == '?' then "" else if c == '(' || c == ')' then " " else [c]
  {
    ReplaceOneChar(c, '?', "");
    if c == '?' {
      assert ReplaceAll("", "(", " ") == "" && ReplaceAll("", ")", " ") == "";
    } else {
      ReplaceOneChar(c, '(', " ");
      if c == '(' {
        ReplaceOneChar(' ', ')', " ");
      } else {
        ReplaceOneChar(c, ')', " ");
      }
    }
  }

  lemma {:induction false} UnpunctuateLowerByChar(q: string)
    ensures Unpunctuate(Lower(q)) == NormalizeByChar(q)
    decreases |q|
  {
    if |q| == 0 {
      assert Lower(q) == "";
    } else {
      var c := LowerChar(q[0]);
      assert Lower(q) == [c] + Lower(q[1..]);
      UnpunctuateAppend([c], Lower(q[1..]));
      UnpunctuateLowerChar(q[0]);
      UnpunctuateLowerByChar(q[1..]);
    }
  }

  lemma UnpunctuateLowerChar(d: char)
    ensures Unpunctuate([LowerChar(d)]) == NormalChar(d)
  {
    UnpunctuateChar(LowerChar(d));
  }

  /** The question normalises piece by piece. */
  lemma NormalizeQuestionAppend(a: string, b: string)
    ensures NormalizeQuestion(a + b) == NormalizeQuestion(a) + NormalizeQuestion(b)
  {
    LowerAppend(a, b);
    UnpunctuateAppend(Lower(a), Lower(b));
  }

  /** A `?` between two pieces of the question vanishes; a `(` or `)` becomes a space. */
  lemma NormalizeAroundPunctuation(a: string, c: char, b: string)
    requires c == '?' || c == '(' || c == ')'
    ensures NormalizeQuestion(a + [c] + b)
            == NormalizeQuestion(a) + (if c == '?' then "" else " ") + NormalizeQuestion(b)
  {
    NormalizeQuestionAppend(a + [c], b);
    NormalizeQuestionAppend(a, [c]);
    NormalizeOneChar(c);
  }

  lemma NormalizeOneChar(c: char)
    ensures NormalizeQuestion([c]) == NormalChar(c)
  {
    assert [c][1..] == [];
    assert NormalizeByChar([c]) == NormalChar(c) + NormalizeByChar([]);
  }

  predicate NoUpper(s: string) {
    forall i :: 0 <= i < |s| ==> !('A' <= s[i] <= 'Z')
  }

  lemma LowerNoUpper(s: string)
    requires NoUpper(s)
    ensures Lower(s) == s
  {
  }

  lemma ReplaceKeepsNoUpper(s: string, pat: string, sub: string)
    requires |pat| > 0 && NoUpper(s) && NoUpper(sub)
    ensures NoUpper(ReplaceAll(s, pat, sub))
  {
    var r := ReplaceAll(s, pat, sub);
    forall c: char | 'A' <= c <= 'Z'
      ensures c !in r
    {
      assert c !in s && c !in sub;
      ReplaceKeepsAbsent(s, pat, sub, c);
    }
  }

  /** The normalised question has no capitals. */
  lemma NormalizedHasNoUpper(q: string)
    ensures NoUpper(NormalizeQuestion(q))
  {
    var l := Lower(q);
    var a := ReplaceAll(l, "?", "");
    var b := ReplaceAll(a, "(", " ");
    ReplaceKeepsNoUpper(l, "?", "");
    ReplaceKeepsNoUpper(a, "(", " ");
    ReplaceKeepsNoUpper(b, ")", " ");
  }

  /** Normalising a normalised question changes nothing. */
  lemma NormalizeQuestionIdempotent(q: string)
    ensures NormalizeQuestion(NormalizeQuestion(q)) == NormalizeQuestion(q)
  {
    var r := NormalizeQuestion(q);
    NormalizedHasNoUpper(q);
    LowerNoUpper(r);
    MissingCharAbsent(r, "?", '?');
    ReplaceAbsent(r, "?", "");
    MissingCharAbsent(r, "(", '(');
    ReplaceAbsent(r, "(", " ");
    MissingCharAbsent(r, ")", ')');
    ReplaceAbsent(r, ")", " ");
  }

  /** A question with no capital, `?`, `(` or `)` is already normalised. */
  lemma {:induction false} NormalizeQuestionFixed(q: string)
    requires NoUpper(q) && '?' !in q && '(' !in q && ')' !in q
    ensures NormalizeQuestion(q) == q
    decreases |q|
  {
    if |q| > 0 {
      NormalizeQuestionFixed(q[1..]);
      assert NormalChar(q[0]) == [q[0]];
      assert q == [q[0]] + q[1..];
    }
  }

  /** Capitalisation of the question never changes what is searched for. */
  lemma NormalizeQuestionIgnoresCase(q: string)
    ensures NormalizeQuestion(Lower(q)) == NormalizeQuestion(q)
  {
    LowerIdempotent(q);
  }

  /** The capital ASCII letters, which `lower` removes. */
  const Capitals: set<char> := set c: char | 'A' <= c <= 'Z'

  /** What normalisation removes from the question: capitals, `?`, `(` and `)`. */
  const Removed: set<char> := Capitals + {'?', '(', ')'}

  /**
   `normalized_message.split()`: non-empty, whitespace-free words, none of
   which holds a capital, `?`, `(` or `)`.
   */
  function Words(q: string): (ws: seq<string>)
    ensures forall i :: 0 <= i < |ws| ==> |ws[i]| > 0 && NoSpace(ws[i])
    ensures AllAvoid(ws, Removed)
  {
    var n := NormalizeQuestion(q);
    NormalizedHasNoUpper(q);
    assert Avoids(n, Removed);
    SplitAvoids(n, Removed);
    Split(n)
  }

  /** A word that normalisation keeps as it is. */
  predicate PlainWord(w: string) {
    IsWord(w) && NoUpper(w) && '?' !in w && '(' !in w && ')' !in w
  }

  /**
   Brackets separate words and a question mark disappears: for plain words
   `a` and `b`, the question `a(b)?` searches for `a` and `b`.
   */
  lemma BracketsSeparateWords(a: string, b: string)
    requires PlainWord(a) && PlainWord(b)
    ensures Words(a + "(" + b + ")?") == [a, b]
  {
    BracketsNormalized(a, b);
    SplitTwoWords(a, b);
  }

  lemma BracketsNormalized(a: string, b: string)
    requires PlainWord(a) && PlainWord(b)
    ensures NormalizeQuestion(a + "(" + b + ")?") == a + " " + (b + " ")
  {
    var tail := b + [')'] + "?";
    assert a + "(" + b + ")?" == a + ['('] + tail;
    NormalizeAroundPunctuation(a, '(', tail);
    NormalizeAroundPunctuation(b, ')', "?");
    NormalizeQuestionFixed(a);
    NormalizeQuestionFixed(b);
    NormalizeOneChar('?');
    assert b + " " + "" == b + " ";
  }

  lemma SplitTwoWords(a: string, b: string)
    requires IsWord(a) && IsWord(b)
    ensures Split(a + " " + (b + " ")) == [a, b]
  {
    AppendAssoc(a, " ", b + " ");
    SplitWordThen(a, " " + (b + " "));
    SplitSkipsSpace(b + " ");
    SplitWordSpace(b);
  }

  lemma SplitWordSpace(w: string)
    requires IsWord(w)
    ensures Split(w + " ") == [w]
  {
    SplitWordThen(w, " ");
    assert " " == " " + "";
    SplitSkipsSpace("");
  }

  // ---------------------------------------------------------------------
  // Matching one row

  /** `field.lower().split()`: non-empty, whitespace-free tokens without capitals. */
  function Tokens(field: string): (ts: seq<string>)
    ensures forall i :: 0 <= i < |ts| ==> |ts[i]| > 0 && NoSpace(ts[i])
    ensures AllAvoid(ts, Capitals)
  {
    var l := Lower(field);
    assert Avoids(l, Capitals);
    SplitAvoids(l, Capitals);
    Split(l)
  }

  /** `any(word in field.lower().split() for word in words)`. */
  predicate Mentions(words: seq<string>, field: string) {
    exists w :: w in words && w in Tokens(field)
  }

  /**
   The row test, evaluated the way Python does: the first field is read only
   when there is a word to look for, the fourth only when the first did
   not match; reading a missing field raises. So a row raises exactly when
   there is a word to look for and the row has no first field, or its first
   field does not match and it has no fourth; it matches exactly when a
   word is a token of its first field or, failing that, of its fourth.
   */
  function RowMatches(words: seq<string>, row: Row): (r: Result<bool, Failure>)
    ensures r.Err? <==> |words| > 0 && (|row| == 0 || (!Mentions(words, row[0]) && |row| < 4))
    ensures r == Ok(true) <==> |row| > 0 && (Mentions(words, row[0]) || (|row| >= 4 && Mentions(words, row[3])))
  {
    if |words| == 0 then Ok(false)
    else if |row| == 0 then Err(IndexError)
    else if Mentions(words, row[0]) then Ok(true)
    else if |row| < 4 then Err(IndexError)
    else Ok(Mentions(words, row[3]))
  }

  /** Only the first and fourth fields are consulted. */
  lemma RowMatchesReadsTwoFields(words: seq<string>, row: Row, other: Row)
    requires |row| == |other|
    requires |row| > 0 ==> row[0] == other[0]
    requires |row| >= 4 ==> row[3] == other[3]
    ensures RowMatches(words, row) == RowMatches(words, other)
  {
  }

  /** Only the set of question words matters, not their order or repetition. */
  lemma RowMatchesWordSet(words: seq<string>, words': seq<string>, row: Row)
    requires forall w :: w in words <==> w in words'
    ensures RowMatches(words, row) == RowMatches(words', row)
  {
    assert |words| > 0 <==> |words'| > 0 by {
      if |words| > 0 {
        assert words[0] in words';
      }
      if |words'| > 0 {
        assert words'[0] in words;
      }
    }
  }

  /** A lower-case word is its own only token. */
  lemma TokensOfWord(w: string)
    requires IsWord(w) && NoUpper(w)
    ensures Tokens(w) == [w]
  {
    LowerNoUpper(w);
    SplitWordThen(w, "");
    assert w + "" == w;
  }

  /**
   A word must equal a whole token: a word does not match a row whose first
   and fourth fields are its plural (`sedan` against `Sedans`).
   */
  lemma WholeTokensOnly(w: string, row: Row)
    requires IsWord(w) && NoUpper(w)
    requires |row| >= 4 && row[0] == w + "s" && row[3] == w + "s"
    ensures RowMatches([w], row) == Ok(false)
  {
    var t := w + "s";
    assert IsWord(t) && NoUpper(t);
    TokensOfWord(t);
    assert |t| != |w|;
    assert !Mentions([w], t);
  }

  // ---------------------------------------------------------------------
  // for row in rows[1:]: ... matches.append(row)

  /** The verdict of the row test on every data row, in file order. */
  function Verdicts(words: seq<string>, data: seq<Row>): (r: seq<Result<bool, Failure>>)
    ensures |r| == |data|
    ensures forall i :: 0 <= i < |data| ==> r[i] == RowMatches(words, data[i])
  {
    seq(|data|, i requires 0 <= i < |data| => RowMatches(words, data[i]))
  }

  /**
   The positions of the passing verdicts, in order, or the error of the
   first failing one: the loop over the rows stops at the first raise. The
   selection succeeds exactly when no verdict is an error, and then lists,
   increasing, exactly the positions of the `true` verdicts.
   */
  function Select(vs: seq<Result<bool, Failure>>): (r: Result<seq<nat>, Failure>)
    ensures r.Ok? <==> forall i :: 0 <= i < |vs| ==> vs[i].Ok?
    ensures r.Ok? ==> Ascending(r.value, |vs|)
    ensures r.Ok? ==> forall i :: 0 <= i < |vs| ==> (i in r.value <==> vs[i] == Ok(true))
    decreases |vs|
  {
    if |vs| == 0 then Ok([])
    else
      var n := |vs| - 1;
      var init := vs[..n];
      assert forall i :: 0 <= i < n ==> init[i] == vs[i];
      match Select(init)
      case Err(e) => Err(e)
      case Ok(idx) =>
        match vs[n]
        case Err(e) => Err(e)
        case Ok(b) =>
          if b then AscendingSnoc(idx, n); Ok(idx + [n]) else Ok(idx)
  }

  /**
   The positions of the matching data rows, in order, or the error the first
   failing row raises. The scan succeeds exactly when every data row can be
   tested; it then lists, increasing, exactly the positions of the rows that pass.
   */
  function MatchIndices(words: seq<string>, data: seq<Row>): (r: Result<seq<nat>, Failure>)
    ensures r.Ok? <==> forall i :: 0 <= i < |data| ==> RowMatches(words, data[i]).Ok?
    ensures r.Ok? ==> Ascending(r.value, |data|)
    ensures r.Ok? ==> forall i :: 0 <= i < |data| ==> (i in r.value <==> RowMatches(words, data[i]) == Ok(true))
  {
    Select(Verdicts(words, data))
  }

  /** Increasing positions below `n`. */
  predicate Ascending(idx: seq<nat>, n: nat) {
    && (forall k :: 0 <= k < |idx| ==> idx[k] < n)
    && (forall k, l :: 0 <= k < l < |idx| ==> idx[k] < idx[l])
  }

  /** The data rows: everything after the header. */
  function DataRows(rows: seq<Row>): seq<Row>
  {
    if |rows| == 0 then [] else rows[1..]
  }

  function Pick(data: seq<Row>, idx: seq<nat>): (r: seq<Row>)
    requires forall k :: 0 <= k < |idx| ==> idx[k] < |data|
    ensures |r| == |idx|
    ensures forall k :: 0 <= k < |idx| ==> r[k] == data[idx[k]]
  {
    seq(|idx|, k requires 0 <= k < |idx| => data[idx[k]])
  }

  /** `idx` lists, increasing, exactly the positions of the data rows that pass the test. */
  predicate Selection(words: seq<string>, data: seq<Row>, idx: seq<nat>) {
    && Ascending(idx, |data|)
    && forall i :: 0 <= i < |data| ==> (i in idx <==> RowMatches(words, data[i]) == Ok(true))
  }

  /**
   `matches`: the data rows that pass the test, in file order, each once;
   the loop fails when some data row cannot be tested.
   */
  function Matches(words: seq<string>, rows: seq<Row>): (r: Result<seq<Row>, Failure>)
    ensures r.Ok? <==> forall i :: 0 <= i < |DataRows(rows)| ==> RowMatches(words, DataRows(rows)[i]).Ok?
    ensures r.Ok? ==> forall k :: 0 <= k < |r.value| ==> r.value[k] in DataRows(rows) && RowMatches(words, r.value[k]) == Ok(true)
    ensures r.Ok? ==> exists idx :: Selection(words, DataRows(rows), idx) && r.value == Pick(DataRows(rows), idx)
  {
    var data := DataRows(rows);
    match MatchIndices(words, data)
    case Err(e) => Err(e)
    case Ok(idx) =>
      var r := Pick(data, idx);
      assert forall k :: 0 <= k < |r| ==> r[k] == data[idx[k]] && idx[k] in idx;
      assert Selection(words, data, idx);
      Ok(r)
  }

  /** The header row is never a candidate: matching looks only at rows after it. */
  lemma HeaderNeverMatched(words: seq<string>, h1: Row, h2: Row, data: seq<Row>)
    ensures Matches(words, [h1] + data) == Matches(words, [h2] + data)
  {
    assert DataRows([h1] + data) == data;
    assert DataRows([h2] + data) == data;
  }

  /** Verdicts that all reject select nothing. */
  lemma {:induction false} SelectNone(vs: seq<Result<bool, Failure>>)
    requires forall i :: 0 <= i < |vs| ==> vs[i] == Ok(false)
    ensures Select(vs) == Ok([])
    decreases |vs|
  {
    if |vs| > 0 {
      SelectNone(vs[..|vs| - 1]);
    }
  }

  /** Without words, nothing matches and no field is read, whatever the rows. */
  lemma NoWordsNoMatches(data: seq<Row>)
    ensures MatchIndices([], data) == Ok([])
  {
    SelectNone(Verdicts([], data));
  }

  lemma NoWordsNoRows(q: string, rows: seq<Row>)
    requires Words(q) == []
    ensures Matches(Words(q), rows) == Ok([])
  {
    NoWordsNoMatches(DataRows(rows));
  }

  /** One more data row: the selection grows by that row's position when it passes. */
  lemma MatchIndicesSnoc(words: seq<string>, data: seq<Row>, i: nat)
    requires i < |data|
    requires MatchIndices(words, data[..i]).Ok?
    ensures RowMatches(words, data[i]).Err? ==> MatchIndices(words, data[..i + 1]).Err?
    ensures RowMatches(words, data[i]) == Ok(true) ==>
              MatchIndices(words, data[..i + 1]) == Ok(MatchIndices(words, data[..i]).value + [i])
    ensures RowMatches(words, data[i]) == Ok(false) ==>
              MatchIndices(words, data[..i + 1]) == MatchIndices(words, data[..i])
  {
    var vs := Verdicts(words, data[..i + 1]);
    assert vs[..i] == Verdicts(words, data[..i]);
    assert vs[i] == RowMatches(words, data[i]);
  }

  /** `Matches` picks the rows at the selected positions, and fails when the selection does. */
  lemma MatchesFromIndices(words: seq<string>, rows: seq<Row>)
    ensures var m := MatchIndices(words, DataRows(rows));
            && (m.Err? ==> Matches(words, rows) == Err(IndexError))
            && (m.Ok? ==> Ascending(m.value, |DataRows(rows)|) && Matches(words, rows) == Ok(Pick(DataRows(rows), m.value)))
  {
    var m := MatchIndices(words, DataRows(rows));
    if m.Err? {
      assert m.error.IndexError?;
    }
  }

  /** One more testable data row: the selection stays ascending and picks that row exactly when it passes. */
  lemma FindStep(words: seq<string>, data: seq<Row>, i: nat)
    requires i < |data|
    requires MatchIndices(words, data[..i]).Ok?
    requires Ascending(MatchIndices(words, data[..i]).value, i)
    requires RowMatches(words, data[i]).Ok?
    ensures MatchIndices(words, data[..i + 1]).Ok?
    ensures Ascending(MatchIndices(words, data[..i + 1]).value, i + 1)
    ensures Pick(data[..i + 1], MatchIndices(words, data[..i + 1]).value)
            == Pick(data[..i], MatchIndices(words, data[..i]).value)
               + (if RowMatches(words, data[i]).value then [data[i]] else [])
  {
    var idx := MatchIndices(words, data[..i]).value;
    MatchIndicesSnoc(words, data, i);
    if RowMatches(words, data[i]).value {
      AscendingSnoc(idx, i);
      PickTaken(data, i, idx);
    } else {
      PickSkipped(data, i, idx);
    }
  }

  lemma AscendingSnoc(idx: seq<nat>, i: nat)
    requires Ascending(idx, i)
    ensures Ascending(idx + [i], i + 1)
  {
  }

  lemma PickTaken(data: seq<Row>, i: nat, idx: seq<nat>)
    requires i < |data| && Ascending(idx, i)
    ensures Pick(data[..i + 1], idx + [i]) == Pick(data[..i], idx) + [data[i]]
  {
    var a := Pick(data[..i + 1], idx + [i]);
    var b := Pick(data[..i], idx) + [data[i]];
    assert |a| == |b|;
    forall k | 0 <= k < |a|
      ensures a[k] == b[k]
    {
      if k < |idx| {
        assert (idx + [i])[k] == idx[k];
      }
    }
  }

  lemma PickSkipped(data: seq<Row>, i: nat, idx: seq<nat>)
    requires i < |data| && Ascending(idx, i)
    ensures Pick(data[..i + 1], idx) == Pick(data[..i], idx)
  {
    var a := Pick(data[..i + 1], idx);
    var b := Pick(data[..i], idx);
    forall k | 0 <= k < |a|
      ensures a[k] == b[k]
    {
    }
  }

  /** A data row that cannot be tested makes the whole selection fail. */
  lemma FindFails(words: seq<string>, rows: seq<Row>, i: nat)
    requires i < |DataRows(rows)|
    requires RowMatches(words, DataRows(rows)[i]).Err?
    ensures Matches(words, rows) == Err(IndexError)
  {
    MatchesFromIndices(words, rows);
  }

  /** The loop of `process_input`, appending each matching row as it goes. */
  method FindMatches(words: seq<string>, rows: seq<Row>) returns (r: Result<seq<Row>, Failure>)
    ensures r == Matches(words, rows)
  {
    var data := DataRows(rows);
    var matches: seq<Row> := [];
    var i := 0;
    while i < |data|
      invariant 0 <= i <= |data|
      invariant MatchIndices(words, data[..i]).Ok?
      invariant Ascending(MatchIndices(words, data[..i]).value, i)
      invariant matches == Pick(data[..i], MatchIndices(words, data[..i]).value)
    {
      var t := RowMatches(words, data[i]);
      if t.Err? {
        FindFails(words, rows, i);
        return Err(IndexError);
      }
      FindStep(words, data, i);
      if t.value {
        matches := matches + [data[i]];
      }
      i := i + 1;
    }
    assert data[..i] == data;
    MatchesFromIndices(words, rows);
    return Ok(matches);
  }

  // ---------------------------------------------------------------------
  // The markdown table and the prompt

  /** `len(header)` copies of `" --- "`. */
  function Dashes(n: nat): (r: seq<string>)
    ensures |r| == n
    ensures forall i :: 0 <= i < n ==> r[i] == " --- "
  {
    seq(n, _ => " --- ")
  }

  function RowLines(matches: seq<Row>): (r: seq<string>)
    ensures |r| == |matches|
    ensures forall i :: 0 <= i < |matches| ==> r[i] == Join(" | ", matches[i])
  {
    seq(|matches|, i requires 0 <= i < |matches| => Join(" | ", matches[i]))
  }

  /**
   `matches_table`: header line, separator line, then the matched rows one
   per line, all joined by line breaks; with no matches the text ends in a
   line break after the separator.
   */
  function RenderTable(header: Row, matches: seq<Row>): (r: string)
    ensures r == Join("\n", TableLines(header, matches))
  {
    var h := Join(" | ", header);
    var d := Join(" | ", Dashes(|header|));
    var tail := if |matches| == 0 then [""] else RowLines(matches);
    assert Join("\n", tail) == Join("\n", RowLines(matches));
    JoinConcat("\n", [h, d], tail);
    assert [h, d][1..] == [d];
    assert Join("\n", [h, d]) == h + "\n" + d;
    h + "\n" + d + "\n" + Join("\n", RowLines(matches))
  }

  lemma {:induction false} JoinKeepsAbsent(sep: string, parts: seq<string>, c: char)
    requires c !in sep
    requires forall i :: 0 <= i < |parts| ==> c !in parts[i]
    ensures c !in Join(sep, parts)
  {
    if |parts| > 1 {
      JoinKeepsAbsent(sep, parts[1..], c);
    }
  }

  /** A row whose cells hold no line break. */
  predicate OneLine(row: Row) {
    forall j :: 0 <= j < |row| ==> '\n' !in row[j]
  }

  /** The lines the table is made of. */
  function TableLines(header: Row, matches: seq<Row>): seq<string>
  {
    [Join(" | ", header), Join(" | ", Dashes(|header|))] + (if |matches| == 0 then [""] else RowLines(matches))
  }

  /**
   When no cell holds a line break, the table splits into the header line,
   the separator line with one ` --- ` per header cell, and one line per
   matched row; with no matches the text ends after the separator line.
   */
  lemma TableLineStructure(header: Row, matches: seq<Row>)
    requires OneLine(header)
    requires forall i :: 0 <= i < |matches| ==> OneLine(matches[i])
    ensures SplitOn(RenderTable(header, matches), '\n') == TableLines(header, matches)
  {
    var lines := TableLines(header, matches);
    JoinKeepsAbsent(" | ", header, '\n');
    JoinKeepsAbsent(" | ", Dashes(|header|), '\n');
    forall i | 0 <= i < |matches|
      ensures '\n' !in RowLines(matches)[i]
    {
      JoinKeepsAbsent(" | ", matches[i], '\n');
    }
    assert forall i :: 0 <= i < |lines| ==> '\n' !in lines[i];
    SplitOnJoin(lines, '\n');
  }

  /**
   `process_input` up to the model call: the prompt is the question as the
   user typed it, a `Sources:` line, and the table. With no rows at all the
   header cannot be read.
   */
  function ProcessInput(question: string, rows: seq<Row>): (r: Result<string, Failure>)
    ensures r.Ok? <==> |rows| > 0 && Matches(Words(question), rows).Ok?
    ensures r.Ok? ==> question <= r.value
    ensures r.Ok? ==> r.value[|question|..] == "\nSources: " + RenderTable(rows[0], Matches(Words(question), rows).value)
  {
    var m := Matches(Words(question), rows);
    if m.Err? then Err(m.error)
    else if |rows| == 0 then Err(IndexError)
    else
      var sources := "\nSources: " + RenderTable(rows[0], m.value);
      assert (question + sources)[|question|..] == sources;
      Ok(question + sources)
  }

  /**
   Questions that normalise alike retrieve the same rows, yet each prompt
   carries its own question text.
   */
  lemma SameRetrievalOwnQuestion(q1: string, q2: string, rows: seq<Row>)
    requires NormalizeQuestion(q1) == NormalizeQuestion(q2)
    requires ProcessInput(q1, rows).Ok?
    ensures ProcessInput(q2, rows).Ok?
    ensures ProcessInput(q1, rows).value[|q1|..] == ProcessInput(q2, rows).value[|q2|..]
  {
  }
}
