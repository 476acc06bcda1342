/**
 The retrieval half of `RAG.query_rag`: the reciprocal-rank fusion the
 hybrid-search SQL computes over a semantic and a keyword ranking, and the
 source block and user prompt built from the rows fetched afterwards.
 The two rankings are inputs (maps from row id to `RANK()`); how they are
 computed (vector distance, `ts_rank_cd`) is not modelled.
 */
module RagQuery {
  import opened Text

  /** The `k` bound into the query. */
  const K: int := 60

  /** The `LIMIT` of each ranking and of the fused result. */
  const Limit: nat := 20

  /** `RANK()` numbers rows from 1; ties share a rank. */
  type Rank = r: int | r >= 1 witness 1

  /** `1.0 / (k + r)` shrinks as the rank grows. */
  lemma ReciprocalAntitone(a: int, b: int)
    requires 0 < a <= b
    ensures 1.0 / b as real <= 1.0 / a as real
  {
    var x := 1.0 / a as real;
    var y := 1.0 / b as real;
    assert x * a as real == 1.0;
    assert y * b as real == 1.0;
    assert y * a as real <= y * b as real;
  }

  /** One ranking's share of a score: `COALESCE(1.0 / (k + rank), 0.0)`. */
  function Term(m: map<int, Rank>, id: int): (t: real)
    ensures id in m ==> 0.0 < t <= 1.0 / (K + 1) as real
    ensures id !in m ==> t == 0.0
  {
    if id in m then
      ReciprocalAntitone(K + 1, K + m[id]);
      1.0 / (K + m[id]) as real
    else 0.0
  }

  /** The ids the full outer join produces: those in either ranking. */
  function Candidates(sem: map<int, Rank>, kw: map<int, Rank>): (c: set<int>)
    ensures sem.Keys <= c && kw.Keys <= c
    ensures forall id :: id in c ==> id in sem || id in kw
  {
    sem.Keys + kw.Keys
  }

  /** The join yields at most as many candidates as the two rankings have rows together. */
  lemma CandidatesBound(sem: map<int, Rank>, kw: map<int, Rank>)
    ensures |Candidates(sem, kw)| <= |sem| + |kw|
  {
  }

  /** The fused score of an id: the sum of its two shares. */
  function Score(sem: map<int, Rank>, kw: map<int, Rank>, id: int): (s: real)
    ensures id in Candidates(sem, kw) <==> s > 0.0
    ensures s <= 2.0 / (K + 1) as real
  {
    Term(sem, id) + Term(kw, id)
  }

  /** Swapping the two rankings changes no score. */
  lemma ScoreSymmetric(sem: map<int, Rank>, kw: map<int, Rank>, id: int)
    ensures Score(sem, kw, id) == Score(kw, sem, id)
    ensures Candidates(sem, kw) == Candidates(kw, sem)
  {
  }

  /** An id found by one search only keeps its single share and is a candidate. */
  lemma OneSidedKept(sem: map<int, Rank>, kw: map<int, Rank>, id: int)
    requires id in sem && id !in kw
    ensures id in Candidates(sem, kw)
    ensures Score(sem, kw, id) == 1.0 / (K + sem[id]) as real
  {
  }

  /** Ranking at least as well in both searches never yields a lower score. */
  lemma BetterRanksScoreHigher(sem: map<int, Rank>, kw: map<int, Rank>, a: int, b: int)
    requires a in sem && b in sem && sem[a] <= sem[b]
    requires a in kw && b in kw && kw[a] <= kw[b]
    ensures Score(sem, kw, b) <= Score(sem, kw, a)
  {
    ReciprocalAntitone(K + sem[a], K + sem[b]);
    ReciprocalAntitone(K + kw[a], K + kw[b]);
  }

  /** A row of the fused result: `id` and `score`. */
  datatype Hit = Hit(id: int, score: real)

  /** Whether `x` is among the returned ids. */
  predicate Returned(out: seq<Hit>, x: int) {
    exists i :: 0 <= i < |out| && out[i].id == x
  }

  function Min(a: nat, b: nat): nat
  {
    if a <= b then a else b
  }

  /**
   What `ORDER BY score DESC LIMIT 20` may return: as many rows as the
   limit allows, each a distinct candidate with its fused score, scores
   non-increasing, and no left-out candidate scoring above a kept one.
   Ties may come in any order, as in SQL.
   */
  predicate IsFusion(sem: map<int, Rank>, kw: map<int, Rank>, out: seq<Hit>)
  {
    var cands := Candidates(sem, kw);
    && |out| == Min(Limit, |cands|)
    && (forall i :: 0 <= i < |out| ==> out[i].id in cands && out[i].score == Score(sem, kw, out[i].id))
    && (forall i, j :: 0 <= i < j < |out| ==> out[i].id != out[j].id)
    && (forall i, j :: 0 <= i < j < |out| ==> out[i].score >= out[j].score)
    && (forall c, i :: c in cands && !Returned(out, c) && 0 <= i < |out| ==> Score(sem, kw, c) <= out[i].score)
  }

  // ---------------------------------------------------------------------
  // Computing a fusion from the rows of the two rankings

  /** The rows one ranking CTE returns: `(id, rank)`. */
  type Ranking = seq<(int, Rank)>

  predicate UniqueIds(xs: Ranking) {
    forall i, j :: 0 <= i < j < |xs| ==> xs[i].0 != xs[j].0
  }

  /** A ranking's rows as the map from id to rank the join looks them up in. */
  function RankMap(xs: Ranking): (m: map<int, Rank>)
    requires UniqueIds(xs)
    ensures forall i :: 0 <= i < |xs| ==> xs[i].0 in m && m[xs[i].0] == xs[i].1
    ensures forall id :: id in m ==> exists i :: 0 <= i < |xs| && xs[i].0 == id
  {
    map i | 0 <= i < |xs| :: xs[i].0 := xs[i].1
  }

  function IdsOf(xs: Ranking): (r: seq<int>)
    ensures |r| == |xs|
    ensures forall i :: 0 <= i < |xs| ==> r[i] == xs[i].0
  {
    seq(|xs|, i requires 0 <= i < |xs| => xs[i].0)
  }

  predicate Unique(xs: seq<int>) {
    forall i, j :: 0 <= i < j < |xs| ==> xs[i] != xs[j]
  }

  /** The elements of `xs` not in `seen`, in order. */
  function Unseen(xs: seq<int>, seen: set<int>): (r: seq<int>)
    ensures forall x :: x in r <==> x in xs && x !in seen
    ensures Unique(xs) ==> Unique(r)
  {
    if |xs| == 0 then []
    else
      var rest := Unseen(xs[1..], seen);
      assert forall x :: x in xs <==> x == xs[0] || x in xs[1..];
      if xs[0] in seen then rest
      else
        assert Unique(xs) ==> xs[0] !in xs[1..];
        [xs[0]] + rest
  }

  /** The ids of the full outer join: keyword-only rows, then the semantic rows. */
  function JoinIds(sem: Ranking, kw: Ranking): (r: seq<int>)
    requires UniqueIds(sem) && UniqueIds(kw)
    ensures Unique(r)
    ensures forall x :: x in r <==> x in Candidates(RankMap(sem), RankMap(kw))
  {
    var s := IdsOf(sem);
    var seen := set x | x in s;
    var u := Unseen(IdsOf(kw), seen);
    assert Unique(u + s) by {
      assert Unique(IdsOf(kw)) && Unique(s);
      UniqueConcat(u, s);
    }
    assert forall x :: x in u + s <==> x in Candidates(RankMap(sem), RankMap(kw)) by {
      IdsCoverMap(sem);
      IdsCoverMap(kw);
    }
    u + s
  }

  /** Two duplicate-free sequences with no common element concatenate to a duplicate-free one. */
  lemma UniqueConcat(u: seq<int>, s: seq<int>)
    requires Unique(u) && Unique(s)
    requires forall x :: x in u ==> x !in s
    ensures Unique(u + s)
  {
    var r := u + s;
    forall i, j | 0 <= i < j < |r|
      ensures r[i] != r[j]
    {
      if j < |u| {
        assert r[i] == u[i] && r[j] == u[j];
      } else if i >= |u| {
        assert r[i] == s[i - |u|] && r[j] == s[j - |u|];
      } else {
        assert r[i] == u[i] && r[j] == s[j - |u|];
        assert u[i] in u;
      }
    }
  }

  /** The ids of a ranking are exactly the keys of its map. */
  lemma IdsCoverMap(xs: Ranking)
    requires UniqueIds(xs)
    ensures forall x :: x in IdsOf(xs) <==> x in RankMap(xs)
  {
    forall x | x in RankMap(xs)
      ensures x in IdsOf(xs)
    {
      var i :| 0 <= i < |xs| && xs[i].0 == x;
      assert IdsOf(xs)[i] == x;
    }
  }

  /** Distinct elements: a sequence has as many as its set. */
  lemma {:induction false} UniqueCount(xs: seq<int>)
    requires Unique(xs)
    ensures |set x | x in xs| == |xs|
  {
    if |xs| > 0 {
      var init := xs[..|xs| - 1];
      UniqueCount(init);
      assert (set x | x in xs) == (set x | x in init) + {xs[|xs| - 1]};
      assert xs[|xs| - 1] !in init;
    }
  }

  /** The position of a best-scoring id among `rest`. */
  method PickBest(sem: map<int, Rank>, kw: map<int, Rank>, rest: seq<int>) returns (k: nat)
    requires |rest| > 0
    ensures k < |rest|
    ensures forall i :: 0 <= i < |rest| ==> Score(sem, kw, rest[i]) <= Score(sem, kw, rest[k])
  {
    k := 0;
    var i := 1;
    while i < |rest|
      invariant k < i <= |rest|
      invariant forall j :: 0 <= j < i ==> Score(sem, kw, rest[j]) <= Score(sem, kw, rest[k])
    {
      if Score(sem, kw, rest[i]) > Score(sem, kw, rest[k]) {
        k := i;
      }
      i := i + 1;
    }
  }

  /** `xs` without its `k`-th element. */
  function Remove(xs: seq<int>, k: nat): (r: seq<int>)
    requires k < |xs|
    requires Unique(xs)
    ensures |r| == |xs| - 1
    ensures Unique(r)
    ensures forall x :: x in r <==> x in xs && x != xs[k]
  {
    var r := xs[..k] + xs[k + 1..];
    assert forall i :: 0 <= i < |r| ==> r[i] == if i < k then xs[i] else xs[i + 1];
    assert forall x :: x in xs ==> x == xs[k] || x in r by {
      forall x | x in xs
        ensures x == xs[k] || x in r
      {
        var i :| 0 <= i < |xs| && xs[i] == x;
        if i < k {
          assert r[i] == x;
        } else if i > k {
          assert r[i - 1] == x;
        }
      }
    }
    r
  }

  /**
   The state of the selection after some rounds: `out` holds distinct
   candidates with their scores in non-increasing order, `rest` the
   candidates not yet taken, none of which beats a taken one.
   */
  ghost predicate Selected(sem: map<int, Rank>, kw: map<int, Rank>, rest: seq<int>, out: seq<Hit>)
  {
    var cands := Candidates(sem, kw);
    && Unique(rest)
    && (forall x :: x in rest <==> x in cands && !Returned(out, x))
    && (forall i :: 0 <= i < |out| ==> out[i].id in cands && out[i].score == Score(sem, kw, out[i].id))
    && (forall i, j :: 0 <= i < j < |out| ==> out[i].id != out[j].id)
    && (forall i, j :: 0 <= i < j < |out| ==> out[i].score >= out[j].score)
    && (forall i, j :: 0 <= i < |rest| && 0 <= j < |out| ==> Score(sem, kw, rest[i]) <= out[j].score)
  }

  lemma ReturnedSnoc(out: seq<Hit>, h: Hit, x: int)
    ensures Returned(out + [h], x) <==> Returned(out, x) || x == h.id
  {
    var out' := out + [h];
    assert out'[|out|] == h;
    if Returned(out, x) {
      var i :| 0 <= i < |out| && out[i].id == x;
      assert out'[i] == out[i];
    }
    if Returned(out', x) {
      var i :| 0 <= i < |out'| && out'[i].id == x;
      if i < |out| {
        assert out[i] == out'[i];
      }
    }
  }

  /** Taking a best remaining candidate keeps the selection consistent. */
  lemma SelectBest(sem: map<int, Rank>, kw: map<int, Rank>, rest: seq<int>, out: seq<Hit>, k: nat)
    requires Selected(sem, kw, rest, out)
    requires k < |rest|
    requires forall i :: 0 <= i < |rest| ==> Score(sem, kw, rest[i]) <= Score(sem, kw, rest[k])
    ensures Selected(sem, kw, Remove(rest, k), out + [Hit(rest[k], Score(sem, kw, rest[k]))])
  {
    var cands := Candidates(sem, kw);
    var best := rest[k];
    var hit := Hit(best, Score(sem, kw, best));
    var out' := out + [hit];
    var rest' := Remove(rest, k);
    assert best in rest;
    forall x
      ensures x in rest' <==> x in cands && !Returned(out', x)
    {
      ReturnedSnoc(out, hit, x);
    }
    forall i | 0 <= i < |out'|
      ensures out'[i].id in cands && out'[i].score == Score(sem, kw, out'[i].id)
    {
      if i < |out| {
        assert out'[i] == out[i];
      }
    }
    forall i, j | 0 <= i < j < |out'|
      ensures out'[i].id != out'[j].id && out'[i].score >= out'[j].score
    {
      assert out'[i] == out[i];
      if j == |out| {
        assert out'[j] == hit;
        assert !(out[i].id == best) by {
          assert !Returned(out, best);
        }
        assert Score(sem, kw, rest[k]) <= out[i].score;
      } else {
        assert out'[j] == out[j];
      }
    }
    forall i, j | 0 <= i < |rest'| && 0 <= j < |out'|
      ensures Score(sem, kw, rest'[i]) <= out'[j].score
    {
      assert rest'[i] in rest;
      var i0 :| 0 <= i0 < |rest| && rest[i0] == rest'[i];
      if j == |out| {
        assert out'[j] == hit;
      } else {
        assert out'[j] == out[j];
      }
    }
  }

  /** A selection that has reached the limit or run out of candidates is a fusion. */
  lemma SelectionDone(sem: map<int, Rank>, kw: map<int, Rank>, rest: seq<int>, out: seq<Hit>)
    requires Selected(sem, kw, rest, out)
    requires |out| + |rest| == |Candidates(sem, kw)|
    requires |out| <= Limit
    requires |out| == Limit || |rest| == 0
    ensures IsFusion(sem, kw, out)
  {
    forall c, i | c in Candidates(sem, kw) && !Returned(out, c) && 0 <= i < |out|
      ensures Score(sem, kw, c) <= out[i].score
    {
      assert c in rest;
      var j :| 0 <= j < |rest| && rest[j] == c;
    }
  }

  /**
   The fused ranking of the rows of the two searches, built by repeatedly
   taking a best remaining candidate of the full outer join.
   */
  method Fuse(sem: Ranking, kw: Ranking) returns (out: seq<Hit>)
    requires UniqueIds(sem) && UniqueIds(kw)
    ensures IsFusion(RankMap(sem), RankMap(kw), out)
  {
    var sm := RankMap(sem);
    var km := RankMap(kw);
    var rest := JoinIds(sem, kw);
    assert |Candidates(sm, km)| == |rest| by {
      UniqueCount(rest);
      assert (set x | x in rest) == Candidates(sm, km);
    }
    var total := |rest|;
    out := [];
    while |out| < Limit && |rest| > 0
      invariant Selected(sm, km, rest, out)
      invariant |out| + |rest| == total
      invariant |out| <= Limit
      decreases |rest|
    {
      var k := PickBest(sm, km, rest);
      SelectBest(sm, km, rest, out, k);
      out := out + [Hit(rest[k], Score(sm, km, rest[k]))];
      rest := Remove(rest, k);
    }
    SelectionDone(sm, km, rest, out);
  }

  ghost function IdSet(out: seq<Hit>): set<int>
  {
    set i | 0 <= i < |out| :: out[i].id
  }

  /** Distinct ids: the result has as many ids as rows. */
  lemma {:induction false} DistinctIdsCount(out: seq<Hit>)
    requires forall i, j :: 0 <= i < j < |out| ==> out[i].id != out[j].id
    ensures |IdSet(out)| == |out|
  {
    if |out| > 0 {
      var init := out[..|out| - 1];
      var last := out[|out| - 1];
      DistinctIdsCount(init);
      assert IdSet(out) == IdSet(init) + {last.id} by {
        assert forall i :: 0 <= i < |init| ==> init[i] == out[i];
      }
      forall i | 0 <= i < |init|
        ensures init[i].id != last.id
      {
        assert init[i] == out[i];
      }
    }
  }

  /** With at most twenty candidates, every one of them is returned. */
  lemma FewCandidatesAllKept(sem: map<int, Rank>, kw: map<int, Rank>, out: seq<Hit>)
    requires IsFusion(sem, kw, out)
    requires |Candidates(sem, kw)| <= Limit
    ensures forall c :: c in Candidates(sem, kw) ==> Returned(out, c)
  {
    var cands := Candidates(sem, kw);
    assert |out| == |cands|;
    assert forall i :: 0 <= i < |out| ==> out[i].id in cands;
    CoveringIds(out, cands);
  }

  /** As many distinct ids as the set has members, all drawn from it, cover it. */
  lemma CoveringIds(out: seq<Hit>, cands: set<int>)
    requires forall i :: 0 <= i < |out| ==> out[i].id in cands
    requires forall i, j :: 0 <= i < j < |out| ==> out[i].id != out[j].id
    requires |out| == |cands|
    ensures forall c :: c in cands ==> Returned(out, c)
  {
    DistinctIdsCount(out);
    assert IdSet(out) <= cands;
    assert |cands - IdSet(out)| == 0;
    assert IdSet(out) == cands;
    forall c | c in cands
      ensures Returned(out, c)
    {
      var i :| 0 <= i < |out| && out[i].id == c;
    }
  }

  /** The scores of the small instance below. */
  lemma ExampleScores(sem: map<int, Rank>, kw: map<int, Rank>)
    requires sem == map[1 := 1, 2 := 2] && kw == map[2 := 1, 3 := 1]
    ensures Candidates(sem, kw) == {1, 2, 3} && |Candidates(sem, kw)| == 3
    ensures Score(sem, kw, 1) == 1.0 / 61.0
    ensures Score(sem, kw, 2) == 1.0 / 62.0 + 1.0 / 61.0
    ensures Score(sem, kw, 3) == 1.0 / 61.0
  {
    assert Candidates(sem, kw) == {1, 2, 3} by {
      assert sem.Keys == {1, 2} && kw.Keys == {2, 3};
    }
    assert Score(sem, kw, 1) == 1.0 / 61.0 by {
      assert sem[1] == 1 && 1 !in kw;
    }
    assert Score(sem, kw, 2) == 1.0 / 62.0 + 1.0 / 61.0 by {
      assert sem[2] == 2 && kw[2] == 1;
    }
    assert Score(sem, kw, 3) == 1.0 / 61.0 by {
      assert 3 !in sem && kw[3] == 1;
    }
  }

  lemma ExampleFusion(sem: map<int, Rank>, kw: map<int, Rank>, a: int, b: int)
    requires sem == map[1 := 1, 2 := 2] && kw == map[2 := 1, 3 := 1]
    requires (a, b) == (1, 3) || (a, b) == (3, 1)
    ensures IsFusion(sem, kw, [Hit(2, 1.0 / 62.0 + 1.0 / 61.0), Hit(a, 1.0 / 61.0), Hit(b, 1.0 / 61.0)])
  {
    ExampleScores(sem, kw);
    var out := [Hit(2, 1.0 / 62.0 + 1.0 / 61.0), Hit(a, 1.0 / 61.0), Hit(b, 1.0 / 61.0)];
    forall c | c in Candidates(sem, kw)
      ensures Returned(out, c)
    {
      if c == 2 {
        assert out[0].id == c;
      } else if c == a {
        assert out[1].id == c;
      } else {
        assert out[2].id == c;
      }
    }
  }

  /**
   A small instance: id 2 is found by both searches and leads; ids 1 and 3
   are found by one search each at rank 1 and tie, so either order is a
   valid result.
   */
  lemma TiesMayComeInEitherOrder()
    ensures var sem: map<int, Rank> := map[1 := 1, 2 := 2];
            var kw: map<int, Rank> := map[2 := 1, 3 := 1];
            var top := Hit(2, 1.0 / 62.0 + 1.0 / 61.0);
            && IsFusion(sem, kw, [top, Hit(1, 1.0 / 61.0), Hit(3, 1.0 / 61.0)])
            && IsFusion(sem, kw, [top, Hit(3, 1.0 / 61.0), Hit(1, 1.0 / 61.0)])
  {
    var sem: map<int, Rank> := map[1 := 1, 2 := 2];
    var kw: map<int, Rank> := map[2 := 1, 3 := 1];
    ExampleFusion(sem, kw, 1, 3);
    ExampleFusion(sem, kw, 3, 1);
  }

  // ---------------------------------------------------------------------
  // formatted_results and the user message

  /** A re-fetched row: `id`, the title column and the described column. */
  datatype Source = Source(id: int, title: string, body: string)

  /** One source as the prompt shows it: a markdown heading, a blank line, the text. */
  function Entry(s: Source): string
  {
    "## " + s.title + "\n\n" + s.body + "\n"
  }

  /** `formatted_results` after the loop: the entries of the rows, in fetch order. */
  function SourceBlock(rows: seq<Source>): (b: string)
    ensures |rows| == 0 <==> b == ""
    ensures |rows| > 0 ==> b[|b| - 1] == '\n'
  {
    if |rows| == 0 then ""
    else SourceBlock(rows[..|rows| - 1]) + Entry(rows[|rows| - 1])
  }

  /** The block of a concatenation is the concatenation of the blocks. */
  lemma {:induction false} SourceBlockAppend(a: seq<Source>, b: seq<Source>)
    ensures SourceBlock(a + b) == SourceBlock(a) + SourceBlock(b)
    decreases |b|
  {
    if |b| == 0 {
      assert a + b == a;
    } else {
      var init := b[..|b| - 1];
      var last := b[|b| - 1];
      var e := Entry(last);
      assert SourceBlock(a + b) == SourceBlock(a + init) + e by {
        assert (a + b)[..|a + b| - 1] == a + init;
        assert (a + b)[|a + b| - 1] == last;
      }
      SourceBlockAppend(a, init);
      AppendAssoc(SourceBlock(a), SourceBlock(init), e);
    }
  }

  /** The lines each source contributes: heading, blank, text. */
  function SourceLines(rows: seq<Source>): (r: seq<string>)
    ensures |r| == 3 * |rows|
  {
    if |rows| == 0 then []
    else
      var s := rows[|rows| - 1];
      SourceLines(rows[..|rows| - 1]) + ["## " + s.title, "", s.body]
  }

  /** One entry is its three lines, each ended by a line break. */
  lemma EntryLines(s: Source)
    ensures Join("\n", ["## " + s.title, "", s.body, ""]) == Entry(s)
  {
    var four := ["## " + s.title, "", s.body, ""];
    assert four[1..] == ["", s.body, ""];
    assert four[1..][1..] == [s.body, ""];
    assert four[1..][1..][1..] == [""];
    assert Join("\n", [s.body, ""]) == s.body + "\n";
    assert Join("\n", ["", s.body, ""]) == "\n" + s.body + "\n";
  }

  lemma {:induction false} SourceBlockIsLines(rows: seq<Source>)
    ensures SourceBlock(rows) == Join("\n", SourceLines(rows) + [""])
  {
    if |rows| > 0 {
      var init := rows[..|rows| - 1];
      var s := rows[|rows| - 1];
      var three := ["## " + s.title, "", s.body];
      SourceBlockIsLines(init);
      var lines := SourceLines(init);
      assert SourceLines(rows) + [""] == lines + (three + [""]);
      EntryLines(s);
      assert three + [""] == ["## " + s.title, "", s.body, ""];
      if |lines| > 0 {
        JoinConcat("\n", lines, three + [""]);
        JoinSnoc("\n", lines, "");
      } else {
        assert lines + (three + [""]) == three + [""];
      }
    }
  }

  /**
   Split at its line breaks, the block reads back as each source's heading
   line, a blank line and its text line, in order, then the empty tail.
   */
  lemma SourceBlockLines(rows: seq<Source>)
    requires forall i :: 0 <= i < |rows| ==> '\n' !in rows[i].title && '\n' !in rows[i].body
    ensures SplitOn(SourceBlock(rows), '\n') == SourceLines(rows) + [""]
  {
    SourceBlockIsLines(rows);
    SourceLinesHaveNoBreak(rows);
    SplitOnJoin(SourceLines(rows) + [""], '\n');
  }

  lemma {:induction false} SourceLinesHaveNoBreak(rows: seq<Source>)
    requires forall i :: 0 <= i < |rows| ==> '\n' !in rows[i].title && '\n' !in rows[i].body
    ensures forall i :: 0 <= i < |SourceLines(rows) + [""]| ==> '\n' !in (SourceLines(rows) + [""])[i]
  {
    if |rows| > 0 {
      var init := rows[..|rows| - 1];
      var s := rows[|rows| - 1];
      SourceLinesHaveNoBreak(init);
      assert '\n' !in "## " + s.title;
      var lines := SourceLines(rows) + [""];
      forall i | 0 <= i < |lines|
        ensures '\n' !in lines[i]
      {
        if i < |SourceLines(init)| {
          assert lines[i] == (SourceLines(init) + [""])[i];
        }
      }
    }
  }

  /** The string-building loop of `query_rag`. */
  method RenderSources(rows: seq<Source>) returns (block: string)
    ensures block == SourceBlock(rows)
  {
    block := "";
    var i := 0;
    while i < |rows|
      invariant 0 <= i <= |rows|
      invariant block == SourceBlock(rows[..i])
    {
      assert rows[..i + 1][..i] == rows[..i];
      block := block + "## " + rows[i].title + "\n\n" + rows[i].body + "\n";
      i := i + 1;
    }
    assert rows[..i] == rows;
  }

  /** The text between the question and the sources in the user message. */
  const SourcesHeading: string := "\n\nSources:\n\n"

  /** The user message: the question as asked, the heading, then the block. */
  function UserPrompt(question: string, block: string): (p: string)
    ensures |p| == |question| + |SourcesHeading| + |block|
    ensures question <= p
    ensures p[|question|..|p| - |block|] == SourcesHeading
    ensures p[|p| - |block|..] == block
  {
    question + SourcesHeading + block
  }

  /** For a fixed question, the message determines the source block. */
  lemma UserPromptDeterminesBlock(question: string, b1: string, b2: string)
    requires UserPrompt(question, b1) == UserPrompt(question, b2)
    ensures b1 == b2
  {
    var p := UserPrompt(question, b1);
    assert b1 == p[|p| - |b1|..];
  }
}
