/**
 The Python `str` operations the repository relies on, over `string`
 (a sequence of Unicode scalar values): `isspace`, `lower`, `strip`,
 `split()` (on runs of whitespace), `join` and `replace`. `SplitOn`
 (splitting at one character) is used only by the line-structure lemmas.
 */
module Text {

  /** Python's `str.isspace`: the characters `split()` and `strip()` treat as whitespace. */
  predicate IsSpace(c: char) {
    || ('\t' <= c <= '\r')
    || ('\U{1C}' <= c <= '\U{1F}')
    || c == ' '
    || c == '\U{85}'
    || c == '\U{A0}'
    || c == '\U{1680}'
    || ('\U{2000}' <= c <= '\U{200A}')
    || c == '\U{2028}'
    || c == '\U{2029}'
    || c == '\U{202F}'
    || c == '\U{205F}'
    || c == '\U{3000}'
  }

  predicate NoSpace(s: string) {
    forall i :: 0 <= i < |s| ==> !IsSpace(s[i])
  }

  /** The upper-to-lower mapping `str.lower` applies, restricted to ASCII letters. */
  function LowerChar(c: char): (d: char)
    ensures IsSpace(d) <==> IsSpace(c)
    ensures 'A' <= c <= 'Z' ==> d != c && 'a' <= d <= 'z'
    ensures !('A' <= c <= 'Z') ==> d == c
  {
    if 'A' <= c <= 'Z' then (c as int + 32) as char else c
  }

  function Lower(s: string): (r: string)
    ensures |r| == |s|
    ensures forall i :: 0 <= i < |s| ==> r[i] == LowerChar(s[i])
  {
    seq(|s|, i requires 0 <= i < |s| => LowerChar(s[i]))
  }

  lemma LowerIdempotent(s: string)
    ensures Lower(Lower(s)) == Lower(s)
  {
  }

  lemma LowerAppend(a: string, b: string)
    ensures Lower(a + b) == Lower(a) + Lower(b)
  {
  }

  // ---------------------------------------------------------------------
  // strip

  /** The number of whitespace characters `s` starts with. */
  function LeadingSpaces(s: string): (n: nat)
    ensures n <= |s|
    ensures forall i :: 0 <= i < n ==> IsSpace(s[i])
    ensures n == |s| || !IsSpace(s[n])
  {
    if |s| > 0 && IsSpace(s[0]) then 1 + LeadingSpaces(s[1..]) else 0
  }

  /** The number of whitespace characters `s` ends with. */
  function TrailingSpaces(s: string): (n: nat)
    ensures n <= |s|
    ensures forall i :: |s| - n <= i < |s| ==> IsSpace(s[i])
    ensures n == |s| || !IsSpace(s[|s| - n - 1])
  {
    if |s| > 0 && IsSpace(s[|s| - 1]) then 1 + TrailingSpaces(s[..|s| - 1]) else 0
  }

  /** Python's `str.strip()`: `s` without its leading and trailing whitespace. */
  function Strip(s: string): (r: string)
    ensures |r| <= |s|
    ensures r == [] || (!IsSpace(r[0]) && !IsSpace(r[|r| - 1]))
  {
    var k := LeadingSpaces(s);
    var t := s[k..];
    t[..|t| - TrailingSpaces(t)]
  }

  /** What `strip()` removes is whitespace only: the result sits inside `s` between two all-space ends. */
  lemma StripSlice(s: string)
    ensures var r := Strip(s);
            exists k :: 0 <= k <= |s| - |r| && r <= s[k..]
                        && (forall i :: 0 <= i < k ==> IsSpace(s[i]))
                        && (forall i :: k + |r| <= i < |s| ==> IsSpace(s[i]))
  {
    var k := LeadingSpaces(s);
    var t := s[k..];
    var m := TrailingSpaces(t);
    var r := t[..|t| - m];
    assert r == Strip(s);
    assert r <= s[k..];
    forall i | k + |r| <= i < |s|
      ensures IsSpace(s[i])
    {
      assert s[i] == t[i - k] && |t| - m <= i - k;
    }
    assert 0 <= k <= |s| - |r| && (forall i :: 0 <= i < k ==> IsSpace(s[i]));
  }

  lemma StripUnchanged(s: string)
    requires s == [] || (!IsSpace(s[0]) && !IsSpace(s[|s| - 1]))
    ensures Strip(s) == s
  {
  }

  // ---------------------------------------------------------------------
  // split() on runs of whitespace

  /** The number of non-whitespace characters `s` starts with. */
  function WordLength(s: string): (n: nat)
    ensures n <= |s|
    ensures forall i :: 0 <= i < n ==> !IsSpace(s[i])
    ensures n == |s| || IsSpace(s[n])
  {
    if |s| > 0 && !IsSpace(s[0]) then 1 + WordLength(s[1..]) else 0
  }

  /** Python's `str.split()` with no argument: the maximal whitespace-free runs of `s`, in order. */
  function Split(s: string): (r: seq<string>)
    ensures forall i :: 0 <= i < |r| ==> |r[i]| > 0 && NoSpace(r[i])
    decreases |s|
  {
    var t := s[LeadingSpaces(s)..];
    if |t| == 0 then []
    else
      var n := WordLength(t);
      var w := t[..n];
      assert |w| > 0 && NoSpace(w);
      var rest := Split(t[n..]);
      [w] + rest
  }

  /** Python's `str.join`. */
  function Join(sep: string, parts: seq<string>): string
  {
    if |parts| == 0 then ""
    else if |parts| == 1 then parts[0]
    else parts[0] + sep + Join(sep, parts[1..])
  }

  lemma JoinSnoc(sep: string, parts: seq<string>, last: string)
    requires |parts| > 0
    ensures Join(sep, parts + [last]) == Join(sep, parts) + sep + last
  {
    if |parts| > 1 {
      JoinSnoc(sep, parts[1..], last);
      assert (parts + [last])[1..] == parts[1..] + [last];
    }
  }

  /** Joining two non-empty runs puts one separator between them. */
  lemma {:induction false} JoinConcat(sep: string, xs: seq<string>, ys: seq<string>)
    requires |xs| > 0 && |ys| > 0
    ensures Join(sep, xs + ys) == Join(sep, xs) + sep + Join(sep, ys)
  {
    if |xs| == 1 {
      assert (xs + ys)[1..] == ys;
    } else {
      JoinConcat(sep, xs[1..], ys);
      assert (xs + ys)[1..] == xs[1..] + ys;
    }
  }

  /** No character of `s` is in `cs`. */
  predicate Avoids(s: string, cs: set<char>) {
    forall k :: 0 <= k < |s| ==> s[k] !in cs
  }

  /** No character of any word is in `cs`. */
  predicate AllAvoid(ws: seq<string>, cs: set<char>) {
    forall i :: 0 <= i < |ws| ==> Avoids(ws[i], cs)
  }

  lemma SliceAvoids(s: string, a: nat, b: nat, cs: set<char>)
    requires a <= b <= |s| && Avoids(s, cs)
    ensures Avoids(s[a..b], cs)
  {
    assert forall k :: 0 <= k < b - a ==> s[a..b][k] == s[a + k];
  }

  lemma ConsAvoids(w: string, rest: seq<string>, cs: set<char>)
    requires Avoids(w, cs) && AllAvoid(rest, cs)
    ensures AllAvoid([w] + rest, cs)
  {
    assert forall i :: 0 < i < |rest| + 1 ==> ([w] + rest)[i] == rest[i - 1];
  }

  /** Characters of a class that `s` does not contain appear in none of its words. */
  lemma {:induction false} SplitAvoids(s: string, cs: set<char>)
    requires Avoids(s, cs)
    ensures AllAvoid(Split(s), cs)
    decreases |s|
  {
    var t := s[LeadingSpaces(s)..];
    if |t| > 0 {
      var n := WordLength(t);
      SliceAvoids(s, LeadingSpaces(s), |s|, cs);
      SliceAvoids(t, 0, n, cs);
      SliceAvoids(t, n, |t|, cs);
      SplitAvoids(t[n..], cs);
      ConsAvoids(t[..n], Split(t[n..]), cs);
    }
  }

  /** A single space is skipped like any leading whitespace. */
  lemma SplitSkipsSpace(s: string)
    ensures Split(" " + s) == Split(s)
  {
    assert (" " + s)[1..] == s;
    assert (" " + s)[LeadingSpaces(" " + s)..] == s[LeadingSpaces(s)..];
  }

  lemma SplitWordThen(w: string, s: string)
    requires IsWord(w)
    requires s == [] || IsSpace(s[0])
    ensures Split(w + s) == [w] + Split(s)
  {
    var ws := w + s;
    assert LeadingSpaces(ws) == 0 by {
      assert !IsSpace(ws[0]);
    }
    assert WordLength(ws) == |w| by {
      WordLengthOf(w, s);
    }
    assert ws[..|w|] == w;
    assert ws[|w|..] == s;
  }

  lemma {:induction false} WordLengthOf(w: string, s: string)
    requires NoSpace(w)
    requires s == [] || IsSpace(s[0])
    ensures WordLength(w + s) == |w|
    decreases |w|
  {
    if |w| > 0 {
      assert (w + s)[1..] == w[1..] + s;
      WordLengthOf(w[1..], s);
    } else {
      assert w + s == s;
    }
  }

  /** Words `split()` gives back unchanged: non-empty and free of whitespace. */
  predicate IsWord(w: string) {
    |w| > 0 && NoSpace(w)
  }

  /**
   Splitting words joined by single spaces gives the words back: `split()`
   sees exactly the whitespace-separated tokens of a string.
   */
  lemma {:induction false} SplitJoin(words: seq<string>)
    requires forall i :: 0 <= i < |words| ==> IsWord(words[i])
    ensures Split(Join(" ", words)) == words
  {
    if |words| == 0 {
    } else if |words| == 1 {
      SplitWordThen(words[0], "");
      assert words[0] + "" == words[0];
    } else {
      SplitJoin(words[1..]);
      SplitJoinCons(words);
    }
  }

  /** One step of `SplitJoin`: a word and a space in front of text that splits into the other words. */
  lemma SplitJoinCons(words: seq<string>)
    requires |words| >= 2 && IsWord(words[0])
    requires Split(Join(" ", words[1..])) == words[1..]
    ensures Split(Join(" ", words)) == words
  {
    var w := words[0];
    var rest := Join(" ", words[1..]);
    assert Join(" ", words) == w + " " + rest;
    AppendAssoc(w, " ", rest);
    SplitSkipsSpace(rest);
    SplitWordThen(w, " " + rest);
    assert words == [w] + words[1..];
  }

  // ---------------------------------------------------------------------
  // SplitOn: splitting at one character, for the line-structure lemmas

  /** Splitting at one character, as `str.split(c)` would: empty fields are kept. */
  function SplitOn(s: string, c: char): (r: seq<string>)
    ensures |r| > 0
    decreases |s|
  {
    if |s| == 0 then [""]
    else
      var rest := SplitOn(s[1..], c);
      if s[0] == c then [""] + rest else [[s[0]] + rest[0]] + rest[1..]
  }

  lemma {:induction false} SplitOnField(x: string, c: char, tail: string)
    requires c !in x
    ensures SplitOn(x + [c] + tail, c) == [x] + SplitOn(tail, c)
    decreases |x|
  {
    var s := x + [c] + tail;
    if |x| == 0 {
      assert s[1..] == tail;
    } else {
      assert s[1..] == x[1..] + [c] + tail;
      SplitOnField(x[1..], c, tail);
      assert [x[0]] + x[1..] == x;
    }
  }

  lemma {:induction false} SplitOnLast(x: string, c: char)
    requires c !in x
    ensures SplitOn(x, c) == [x]
    decreases |x|
  {
    if |x| > 0 {
      SplitOnLast(x[1..], c);
      assert [x[0]] + x[1..] == x;
    }
  }

  /** Splitting on `c` undoes joining with `c` when no part contains `c`. */
  lemma {:induction false} SplitOnJoin(parts: seq<string>, c: char)
    requires |parts| > 0
    requires forall i :: 0 <= i < |parts| ==> c !in parts[i]
    ensures SplitOn(Join([c], parts), c) == parts
  {
    if |parts| == 1 {
      SplitOnLast(parts[0], c);
    } else {
      SplitOnJoin(parts[1..], c);
      SplitOnField(parts[0], c, Join([c], parts[1..]));
      assert parts == [parts[0]] + parts[1..];
    }
  }

  // ---------------------------------------------------------------------
  // replace

  /** `pat` occurs somewhere in `s`. */
  predicate Occurs(s: string, pat: string) {
    exists i :: 0 <= i <= |s| && pat <= s[i..]
  }

  /**
   Python's `str.replace(pat, sub)`: scanning left to right, each occurrence
   of `pat` that does not overlap an earlier replaced one becomes `sub`.
   */
  function ReplaceAll(s: string, pat: string, sub: string): (r: string)
    requires |pat| > 0
    ensures |pat| <= |sub| ==> |s| <= |r|
    ensures |sub| <= |pat| ==> |r| <= |s|
    decreases |s|
  {
    if |s| == 0 then ""
    else if pat <= s then sub + ReplaceAll(s[|pat|..], pat, sub)
    else [s[0]] + ReplaceAll(s[1..], pat, sub)
  }

  lemma {:induction false} ReplaceAbsent(s: string, pat: string, sub: string)
    requires |pat| > 0
    requires !Occurs(s, pat)
    ensures ReplaceAll(s, pat, sub) == s
    decreases |s|
  {
    if |s| > 0 {
      assert s[0..] == s;
      assert !Occurs(s[1..], pat) by {
        forall i | 0 <= i <= |s[1..]|
          ensures !(pat <= s[1..][i..])
        {
          assert s[1..][i..] == s[i + 1..];
        }
      }
      ReplaceAbsent(s[1..], pat, sub);
    }
  }

  /** A string lacking some character of `pat` cannot contain `pat`. */
  lemma MissingCharAbsent(s: string, pat: string, c: char)
    requires c in pat && c !in s
    ensures !Occurs(s, pat)
  {
    var j :| 0 <= j < |pat| && pat[j] == c;
    forall i | 0 <= i <= |s|
      ensures !(pat <= s[i..])
    {
      if i + j < |s| {
        assert s[i..][j] == s[i + j] != c;
      }
    }
  }

  /** Where `pat` does not start, the first character is kept as it is. */
  lemma ReplaceSkip(s: string, pat: string, sub: string)
    requires |pat| > 0 && |s| > 0 && !(pat <= s)
    ensures ReplaceAll(s, pat, sub) == [s[0]] + ReplaceAll(s[1..], pat, sub)
  {
  }

  lemma ReplaceWhole(pat: string, sub: string)
    requires |pat| > 0
    ensures ReplaceAll(pat, pat, sub) == sub
  {
    assert pat[|pat|..] == "";
  }

  /** A character that cannot start or lie inside `pat` splits the scan in two. */
  lemma {:induction false} ReplaceAroundChar(a: string, d: char, b: string, pat: string, sub: string)
    requires |pat| > 0 && d !in pat
    ensures ReplaceAll(a + [d] + b, pat, sub) == ReplaceAll(a, pat, sub) + [d] + ReplaceAll(b, pat, sub)
    decreases |a|
  {
    var s := a + [d] + b;
    if |pat| > |a| {
      assert pat[|a|] != d && s[|a|] == d;
    }
    if |a| == 0 {
      assert s[1..] == b;
    } else if pat <= s {
      assert pat <= a;
      ReplaceAroundChar(a[|pat|..], d, b, pat, sub);
      AroundHitStep(a, d, b, pat, sub);
    } else {
      ReplaceAroundChar(a[1..], d, b, pat, sub);
      AroundMissStep(a, d, b, pat, sub);
    }
  }

  /** The step of `ReplaceAroundChar` when `a` starts with the pattern. */
  lemma AroundHitStep(a: string, d: char, b: string, pat: string, sub: string)
    requires 0 < |pat| <= |a| && pat <= a
    requires ReplaceAll(a[|pat|..] + [d] + b, pat, sub) == ReplaceAll(a[|pat|..], pat, sub) + [d] + ReplaceAll(b, pat, sub)
    ensures ReplaceAll(a + [d] + b, pat, sub) == ReplaceAll(a, pat, sub) + [d] + ReplaceAll(b, pat, sub)
  {
    var s := a + [d] + b;
    assert pat <= s;
    assert s[|pat|..] == a[|pat|..] + [d] + b;
    var x := ReplaceAll(a[|pat|..], pat, sub);
    AppendAssoc(sub, x + [d], ReplaceAll(b, pat, sub));
    AppendAssoc(sub, x, [d]);
  }

  /** The step of `ReplaceAroundChar` when `a` does not start with the pattern. */
  lemma AroundMissStep(a: string, d: char, b: string, pat: string, sub: string)
    requires |pat| > 0 && |a| > 0
    requires !(pat <= a + [d] + b)
    requires ReplaceAll(a[1..] + [d] + b, pat, sub) == ReplaceAll(a[1..], pat, sub) + [d] + ReplaceAll(b, pat, sub)
    ensures ReplaceAll(a + [d] + b, pat, sub) == ReplaceAll(a, pat, sub) + [d] + ReplaceAll(b, pat, sub)
  {
    var s := a + [d] + b;
    NotPrefixOfPart(a, d, b, pat);
    ReplaceSkip(s, pat, sub);
    ReplaceSkip(a, pat, sub);
    HeadTailAround(a, d, b);
    ConsAssoc(a[0], ReplaceAll(a[1..], pat, sub), [d], ReplaceAll(b, pat, sub));
  }

  /** What does not start `a + [d] + b` does not start `a` either. */
  lemma NotPrefixOfPart(a: string, d: char, b: string, pat: string)
    requires !(pat <= a + [d] + b)
    ensures !(pat <= a)
  {
  }

  lemma HeadTailAround<T>(a: seq<T>, d: T, b: seq<T>)
    requires |a| > 0
    ensures (a + [d] + b)[0] == a[0] && (a + [d] + b)[1..] == a[1..] + [d] + b
  {
  }

  lemma ConsAssoc<T>(h: T, x: seq<T>, y: seq<T>, z: seq<T>)
    ensures [h] + (x + y + z) == [h] + x + y + z
  {
  }

  lemma AppendAssoc<T>(x: seq<T>, y: seq<T>, z: seq<T>)
    ensures x + y + z == x + (y + z)
  {
  }

  lemma {:induction false} ReplaceKeepsPrefix(p: string, b: string, pat: string, sub: string)
    requires |pat| > 0
    requires forall i :: 0 <= i < |p| ==> p[i] != pat[0]
    ensures ReplaceAll(p + b, pat, sub) == p + ReplaceAll(b, pat, sub)
    decreases |p|
  {
    if |p| > 0 {
      var s := p + b;
      assert s[0] != pat[0];
      ReplaceSkip(s, pat, sub);
      assert s[1..] == p[1..] + b;
      ReplaceKeepsPrefix(p[1..], b, pat, sub);
      assert p == [p[0]] + p[1..];
    } else {
      assert p + b == b;
    }
  }

  /** A separator none of whose characters occurs in `pat` keeps `replace` from crossing it. */
  lemma ReplaceAroundSep(a: string, sep: string, b: string, pat: string, sub: string)
    requires |pat| > 0 && |sep| > 0
    requires forall i :: 0 <= i < |sep| ==> sep[i] !in pat
    ensures ReplaceAll(a + sep + b, pat, sub) == ReplaceAll(a, pat, sub) + sep + ReplaceAll(b, pat, sub)
  {
    var rest := sep[1..] + b;
    var ra := ReplaceAll(a, pat, sub);
    var rb := ReplaceAll(b, pat, sub);
    assert a + sep + b == a + [sep[0]] + rest;
    assert ReplaceAll(a + [sep[0]] + rest, pat, sub) == ra + [sep[0]] + ReplaceAll(rest, pat, sub) by {
      ReplaceAroundChar(a, sep[0], rest, pat, sub);
    }
    assert ReplaceAll(rest, pat, sub) == sep[1..] + rb by {
      forall i | 0 <= i < |sep[1..]|
        ensures sep[1..][i] != pat[0]
      {
        assert sep[1..][i] == sep[i + 1];
      }
      ReplaceKeepsPrefix(sep[1..], b, pat, sub);
    }
    assert ra + [sep[0]] + (sep[1..] + rb) == ra + sep + rb;
  }

  function ReplaceEach(parts: seq<string>, pat: string, sub: string): (r: seq<string>)
    requires |pat| > 0
    ensures |r| == |parts|
    ensures forall i :: 0 <= i < |parts| ==> r[i] == ReplaceAll(parts[i], pat, sub)
  {
    seq(|parts|, i requires 0 <= i < |parts| => ReplaceAll(parts[i], pat, sub))
  }

  /** `replace` on a joined string is `replace` on each part, when the separator cannot be part of `pat`. */
  lemma {:induction false} ReplaceJoin(sep: string, parts: seq<string>, pat: string, sub: string)
    requires |pat| > 0 && |sep| > 0
    requires forall i :: 0 <= i < |sep| ==> sep[i] !in pat
    ensures ReplaceAll(Join(sep, parts), pat, sub) == Join(sep, ReplaceEach(parts, pat, sub))
  {
    if |parts| == 0 {
    } else if |parts| == 1 {
    } else {
      ReplaceJoin(sep, parts[1..], pat, sub);
      ReplaceAroundSep(parts[0], sep, Join(sep, parts[1..]), pat, sub);
      assert ReplaceEach(parts, pat, sub)[1..] == ReplaceEach(parts[1..], pat, sub);
    }
  }

  /** Replacing a one-character `pat` leaves none of it behind, provided `sub` does not contain it. */
  lemma {:induction false} ReplaceRemovesChar(s: string, pat: string, sub: string)
    requires |pat| == 1 && pat[0] !in sub
    ensures pat[0] !in ReplaceAll(s, pat, sub)
    decreases |s|
  {
    if |s| > 0 {
      if pat <= s {
        ReplaceRemovesChar(s[|pat|..], pat, sub);
      } else {
        assert s[0] != pat[0];
        ReplaceRemovesChar(s[1..], pat, sub);
      }
    }
  }

  /** `replace` introduces no character that neither `s` nor `sub` holds. */
  lemma {:induction false} ReplaceKeepsAbsent(s: string, pat: string, sub: string, c: char)
    requires |pat| > 0 && c !in s && c !in sub
    ensures c !in ReplaceAll(s, pat, sub)
    decreases |s|
  {
    if |s| > 0 {
      if pat <= s {
        ReplaceKeepsAbsent(s[|pat|..], pat, sub, c);
      } else {
        ReplaceKeepsAbsent(s[1..], pat, sub, c);
      }
    }
  }

  /** `replace` of one character on a one-character string. */
  lemma ReplaceOneChar(d: char, c: char, sub: string)
    ensures ReplaceAll([d], [c], sub) == if d == c then sub else [d]
  {
    assert [d][1..] == "" && ReplaceAll("", [c], sub) == "";
    if d == c {
      assert [c] <= [d] && [d][|[c]|..] == "";
      assert sub + "" == sub;
    } else {
      assert [d][0] != [c][0];
      assert [d] + "" == [d];
    }
  }

  /** Replacing a one-character pattern distributes over concatenation: no occurrence straddles the seam. */
  lemma {:induction false} ReplaceCharAppend(a: string, b: string, c: char, sub: string)
    ensures ReplaceAll(a + b, [c], sub) == ReplaceAll(a, [c], sub) + ReplaceAll(b, [c], sub)
    decreases |a|
  {
    if |a| == 0 {
      assert a + b == b;
    } else {
      var s := a + b;
      assert s[0] == a[0] && s[1..] == a[1..] + b;
      ReplaceCharAppend(a[1..], b, c, sub);
      var ra := ReplaceAll(a[1..], [c], sub);
      var rb := ReplaceAll(b, [c], sub);
      if a[0] == c {
        assert [c] <= s && [c] <= a;
        assert s[|[c]|..] == s[1..] && a[|[c]|..] == a[1..];
        AppendAssoc(sub, ra, rb);
      } else {
        ReplaceSkip(s, [c], sub);
        ReplaceSkip(a, [c], sub);
        AppendAssoc([a[0]], ra, rb);
      }
    }
  }

  /** Replacing one character by one character acts position by position. */
  lemma {:induction false} ReplaceCharPointwise(s: string, a: char, b: char)
    ensures |ReplaceAll(s, [a], [b])| == |s|
    ensures forall i :: 0 <= i < |s| ==>
              ReplaceAll(s, [a], [b])[i] == (if s[i] == a then b else s[i])
    decreases |s|
  {
    if |s| > 0 {
      ReplaceCharPointwise(s[1..], a, b);
      assert [a] <= s <==> s[0] == a;
      assert s[|[a]|..] == s[1..];
    }
  }
}
