/** Top-K ranking of outline entries: `rank_sections_by_prompt` in project/run_pipeline.py. The
    sentence-embedding cosine similarity is an arbitrary scoring function of the prompt and the
    section text. */
module Ranking {
  import opened Text
  import opened Headings
  import opened Outline

  /** An outline entry together with its score (`{**entry, "score": score}`). */
  datatype Scored = Scored(entry: Entry, score: real)

  /** The similarity of a prompt and a section text. */
  type Scorer = (string, string) -> real

  /** The words the ranking never considers, compared lower-case. */
  predicate RankStopword(text: string) {
    LowerEquals(text, "overview") || LowerEquals(text, "conclusion")
  }

  /** An entry whose text is ranked: at least 3 words and not a rank stopword. */
  predicate Ranked(text: string) {
    !(|Words(text)| < 3 || RankStopword(text))
  }

  /** The scored entries, in outline order. */
  function ScoredOf(outline: seq<Entry>, prompt: string, sim: Scorer): seq<Scored> {
    if outline == [] then []
    else
      var e := outline[|outline| - 1];
      ScoredOf(outline[..|outline| - 1], prompt, sim) +
        if Ranked(e.text) then [Scored(e, sim(prompt, e.text))] else []
  }

  /** Place `x` after every element scoring at least as much, before the first scoring less. */
  function Insert(x: Scored, s: seq<Scored>): seq<Scored> {
    if s == [] then [x]
    else if s[0].score < x.score then [x] + s
    else [s[0]] + Insert(x, s[1..])
  }

  /** `sorted(xs, key=score, reverse=True)`: a stable sort by descending score. */
  function SortDesc(xs: seq<Scored>): seq<Scored> {
    if xs == [] then [] else Insert(xs[|xs| - 1], SortDesc(xs[..|xs| - 1]))
  }

  /** Python's `xs[:n]`: a negative `n` counts from the end. */
  function Take(xs: seq<Scored>, n: int): seq<Scored> {
    if n >= 0 then (if n <= |xs| then xs[..n] else xs)
    else if |xs| + n >= 0 then xs[..|xs| + n]
    else []
  }

  /** What rank_sections_by_prompt returns. */
  function TopSections(outline: seq<Entry>, prompt: string, sim: Scorer, maxSections: int): seq<Scored> {
    Take(SortDesc(ScoredOf(outline, prompt, sim)), maxSections)
  }

  /** rank_sections_by_prompt: score the ranked entries in a loop, then sort and cut. */
  method RankSections(outline: seq<Entry>, prompt: string, sim: Scorer, maxSections: int)
    returns (top: seq<Scored>)
    ensures top == TopSections(outline, prompt, sim, maxSections)
  {
    var scored: seq<Scored> := [];
    for i := 0 to |outline|
      invariant scored == ScoredOf(outline[..i], prompt, sim)
    {
      assert outline[..i + 1][..i] == outline[..i];
      var text := outline[i].text;
      if |Words(text)| < 3 || LowerEquals(text, "overview") || LowerEquals(text, "conclusion") {
        continue;
      }
      var score := sim(prompt, text);
      scored := scored + [Scored(outline[i], score)];
    }
    assert outline[..|outline|] == outline;
    top := Take(SortDesc(scored), maxSections);
  }

  // ---------------------------------------------------------------------------------------------
  // Lemmas: the stable descending sort.

  predicate SortedDesc(s: seq<Scored>) {
    forall i, j :: 0 <= i < j < |s| ==> s[i].score >= s[j].score
  }

  /** The elements scoring exactly `v`, in order. */
  function WithScore(s: seq<Scored>, v: real): seq<Scored> {
    if s == [] then []
    else (if s[0].score == v then [s[0]] else []) + WithScore(s[1..], v)
  }

  lemma {:induction false} WithScoreAppend(a: seq<Scored>, b: seq<Scored>, v: real)
    ensures WithScore(a + b, v) == WithScore(a, v) + WithScore(b, v)
  {
    if a == [] {
      assert a + b == b;
    } else {
      var head := if a[0].score == v then [a[0]] else [];
      calc {
        WithScore(a + b, v);
      == { assert (a + b)[0] == a[0] && (a + b)[1..] == a[1..] + b; }
        head + WithScore(a[1..] + b, v);
      == { WithScoreAppend(a[1..], b, v); }
        head + (WithScore(a[1..], v) + WithScore(b, v));
      ==
        (head + WithScore(a[1..], v)) + WithScore(b, v);
      }
    }
  }

  lemma {:induction false} WithScoreNone(s: seq<Scored>, v: real)
    requires forall i :: 0 <= i < |s| ==> s[i].score < v
    ensures WithScore(s, v) == []
  {
    if s != [] {
      WithScoreNone(s[1..], v);
    }
  }

  lemma {:induction false} InsertMultiset(x: Scored, s: seq<Scored>)
    ensures multiset(Insert(x, s)) == multiset(s) + multiset{x}
  {
    if s != [] && s[0].score >= x.score {
      InsertMultiset(x, s[1..]);
      assert s == [s[0]] + s[1..];
    }
  }

  lemma {:induction false} InsertSorted(x: Scored, s: seq<Scored>)
    requires SortedDesc(s)
    ensures SortedDesc(Insert(x, s))
  {
    if s != [] && s[0].score >= x.score {
      InsertSorted(x, s[1..]);
      InsertMultiset(x, s[1..]);
      var r := Insert(x, s);
      assert r == [s[0]] + Insert(x, s[1..]);
      forall j | 0 < j < |r| ensures s[0].score >= r[j].score {
        assert r[j] in multiset(Insert(x, s[1..]));
        assert r[j] in s[1..] || r[j] == x;
      }
    }
  }

  lemma {:induction false} InsertWithScore(x: Scored, s: seq<Scored>, v: real)
    requires SortedDesc(s)
    ensures WithScore(Insert(x, s), v) == WithScore(s, v) + (if x.score == v then [x] else [])
  {
    if s == [] {
    } else if s[0].score < x.score {
      assert ([x] + s)[1..] == s;
      if x.score == v {
        WithScoreNone(s, v);
      }
    } else {
      InsertWithScore(x, s[1..], v);
      assert Insert(x, s)[1..] == Insert(x, s[1..]);
    }
  }

  /** The sort is a permutation of its input. */
  lemma {:induction false} SortDescPermutes(xs: seq<Scored>)
    ensures multiset(SortDesc(xs)) == multiset(xs)
  {
    if xs != [] {
      var init, x := xs[..|xs| - 1], xs[|xs| - 1];
      SortDescPermutes(init);
      InsertMultiset(x, SortDesc(init));
      assert xs == init + [x];
    }
  }

  lemma SortDescLength(xs: seq<Scored>)
    ensures |SortDesc(xs)| == |xs|
  {
    SortDescPermutes(xs);
    assert |multiset(SortDesc(xs))| == |multiset(xs)|;
  }

  /** The sort orders by non-increasing score. */
  lemma {:induction false} SortDescSorted(xs: seq<Scored>)
    ensures SortedDesc(SortDesc(xs))
  {
    if xs != [] {
      SortDescSorted(xs[..|xs| - 1]);
      InsertSorted(xs[|xs| - 1], SortDesc(xs[..|xs| - 1]));
    }
  }

  /** The sort is stable: the elements of any one score keep their input order. */
  lemma {:induction false} SortDescStable(xs: seq<Scored>, v: real)
    ensures WithScore(SortDesc(xs), v) == WithScore(xs, v)
  {
    if xs != [] {
      var init, x := xs[..|xs| - 1], xs[|xs| - 1];
      var last := if x.score == v then [x] else [];
      calc {
        WithScore(SortDesc(xs), v);
      ==
        WithScore(Insert(x, SortDesc(init)), v);
      == { SortDescSorted(init); InsertWithScore(x, SortDesc(init), v); }
        WithScore(SortDesc(init), v) + last;
      == { SortDescStable(init, v); }
        WithScore(init, v) + last;
      == { WithScoreAppend(init, [x], v); assert WithScore([x], v) == last; }
        WithScore(init + [x], v);
      == { assert init + [x] == xs; }
        WithScore(xs, v);
      }
    }
  }

  // ---------------------------------------------------------------------------------------------
  // Lemmas: what rank_sections_by_prompt returns.

  /** The "overview"/"conclusion" test never drops anything: both are single words, and the word
      count test already drops every text of fewer than 3 words. */
  lemma RankFilterRedundant(text: string)
    ensures Ranked(text) <==> |Words(text)| >= 3
  {
    if LowerEquals(text, "overview") {
      LowerEqualsWord(text, "overview");
    } else if LowerEquals(text, "conclusion") {
      LowerEqualsWord(text, "conclusion");
    }
  }

  /** The scored list holds exactly the ranked outline entries, each with its own score. */
  lemma {:induction false} ScoredOfMembers(outline: seq<Entry>, prompt: string, sim: Scorer, x: Scored)
    ensures x in ScoredOf(outline, prompt, sim) <==>
      x.entry in outline && Ranked(x.entry.text) && x.score == sim(prompt, x.entry.text)
  {
    if outline != [] {
      var init := outline[..|outline| - 1];
      ScoredOfMembers(init, prompt, sim, x);
      assert outline == init + [outline[|outline| - 1]];
    }
  }

  /** The cut keeps a prefix. */
  lemma TakeSplit(xs: seq<Scored>, n: int)
    ensures xs == Take(xs, n) + xs[|Take(xs, n)|..]
    ensures n >= 0 ==> |Take(xs, n)| == if n <= |xs| then n else |xs|
    ensures n < 0 ==> |Take(xs, n)| == if |xs| + n >= 0 then |xs| + n else 0
  {
  }

  /** At most `maxSections` entries: exactly `min(maxSections, ranked entries)` for a
      non-negative bound; a negative bound drops the last `-maxSections` of them, as Python's
      slice does. */
  lemma TopSectionsLength(outline: seq<Entry>, prompt: string, sim: Scorer, maxSections: int)
    ensures var n := |ScoredOf(outline, prompt, sim)|;
      |TopSections(outline, prompt, sim, maxSections)| ==
        if maxSections >= 0 then (if maxSections <= n then maxSections else n)
        else (if n + maxSections >= 0 then n + maxSections else 0)
    ensures maxSections >= 0 ==> |TopSections(outline, prompt, sim, maxSections)| <= maxSections
  {
    var s := ScoredOf(outline, prompt, sim);
    SortDescLength(s);
    TakeSplit(SortDesc(s), maxSections);
  }

  /** Scores never increase along the result. */
  lemma TopSectionsSorted(outline: seq<Entry>, prompt: string, sim: Scorer, maxSections: int)
    ensures SortedDesc(TopSections(outline, prompt, sim, maxSections))
  {
    var s := SortDesc(ScoredOf(outline, prompt, sim));
    SortDescSorted(ScoredOf(outline, prompt, sim));
    TakeSplit(s, maxSections);
    var top := Take(s, maxSections);
    forall i, j | 0 <= i < j < |top| ensures top[i].score >= top[j].score {
      assert top[i] == s[i] && top[j] == s[j];
    }
  }

  /** Every returned entry comes from the outline, has at least 3 words, is neither "overview"
      nor "conclusion", and carries its similarity to the prompt. */
  lemma TopSectionsQualify(outline: seq<Entry>, prompt: string, sim: Scorer, maxSections: int, x: Scored)
    requires x in TopSections(outline, prompt, sim, maxSections)
    ensures x.entry in outline && |Words(x.entry.text)| >= 3 && !RankStopword(x.entry.text)
    ensures x.score == sim(prompt, x.entry.text)
  {
    var sc := ScoredOf(outline, prompt, sim);
    TakeSplit(SortDesc(sc), maxSections);
    SortDescPermutes(sc);
    assert x in multiset(SortDesc(sc));
    ScoredOfMembers(outline, prompt, sim, x);
  }

  /** In a list sorted by descending score, every element of a prefix scores at least as high as
      every element left after it. */
  lemma PrefixDominates(s: seq<Scored>, n: nat)
    requires SortedDesc(s) && n <= |s|
    ensures forall x, y | x in s[..n] && y in multiset(s) - multiset(s[..n]) :: x.score >= y.score
  {
    assert multiset(s) == multiset(s[..n]) + multiset(s[n..]) by {
      assert s == s[..n] + s[n..];
    }
    forall x, y | x in s[..n] && y in multiset(s) - multiset(s[..n]) ensures x.score >= y.score {
      assert y in s[n..];
      var i :| 0 <= i < n && s[..n][i] == x;
      var j :| 0 <= j < |s[n..]| && s[n..][j] == y;
      assert s[i] == x && s[n + j] == y;
    }
  }

  /** The result is drawn from the scored entries, and every returned entry scores at least as
      high as every scored entry left out. */
  lemma TopSectionsDominate(outline: seq<Entry>, prompt: string, sim: Scorer, maxSections: int)
    ensures var top, sc := TopSections(outline, prompt, sim, maxSections), ScoredOf(outline, prompt, sim);
      multiset(top) <= multiset(sc) &&
      forall x, y | x in top && y in multiset(sc) - multiset(top) :: x.score >= y.score
  {
    var sc := ScoredOf(outline, prompt, sim);
    var s := SortDesc(sc);
    var top := Take(s, maxSections);
    SortDescPermutes(sc);
    SortDescSorted(sc);
    TakeSplit(s, maxSections);
    assert top == s[..|top|];
    PrefixDominates(s, |top|);
    assert multiset(s) == multiset(top) + multiset(s[|top|..]) by {
      assert s == top + s[|top|..];
    }
  }

  /** Ties keep outline order: for every score, the returned entries of that score are the
      first ones of that score in the scored list. */
  lemma TopSectionsTies(outline: seq<Entry>, prompt: string, sim: Scorer, maxSections: int, v: real)
    ensures WithScore(TopSections(outline, prompt, sim, maxSections), v) <=
      WithScore(ScoredOf(outline, prompt, sim), v)
  {
    var sc := ScoredOf(outline, prompt, sim);
    var s := SortDesc(sc);
    SortDescStable(sc, v);
    TakeSplit(s, maxSections);
    var top := Take(s, maxSections);
    WithScoreAppend(top, s[|top|..], v);
  }
}
