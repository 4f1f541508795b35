/**
 * The pipeline both versions of `predict_city` run over their candidates:
 * normalise the query, answer an empty query with nothing, keep the
 * candidates whose normalised name starts with the query (in candidate
 * order), sort them stably by a name, then stably by a `bool` flag (the
 * "not in China" flag, so that Chinese places come first), and keep the
 * first `n_entries`. The two versions differ only in what a candidate is and
 * which of its fields give the name, the sort name and the flag.
 */
module Autocomplete {
  import opened Text
  import opened LangDict
  import opened Query
  import opened Sorting

  /** Python's `s[:n]`: the first `n` elements, or all but the last `-n`
      when `n` is negative; always a prefix. */
  function Take<T>(s: seq<T>, n: int): (r: seq<T>)
    ensures |r| <= |s| && r == s[..|r|]
    ensures n >= 0 ==> |r| == if n <= |s| then n else |s|
    ensures n < 0 ==> |r| == if -n <= |s| then |s| + n else 0
  {
    if n >= 0 then (if n <= |s| then s[..n] else s)
    else (if -n <= |s| then s[..|s| + n] else [])
  }

  /** `name.startswith(q)` after normalising the name for the language. */
  predicate Answers(q: string, name: string, lang: Language) {
    q <= Normalise(name, lang)
  }

  /** The candidates that answer the query, in candidate order. */
  function Matching<T>(cands: seq<T>, q: string, lang: Language, name: (T, Language) -> string): (r: seq<T>)
    ensures |r| <= |cands|
    ensures forall i :: 0 <= i < |r| ==> Answers(q, name(r[i], lang), lang)
  {
    if cands == [] then []
    else
      var last := cands[|cands| - 1];
      Matching(cands[..|cands| - 1], q, lang, name) + (if Answers(q, name(last, lang), lang) then [last] else [])
  }

  /** Scanning the candidate at `i` appends it exactly when it answers. */
  lemma MatchingStep<T>(cands: seq<T>, i: nat, q: string, lang: Language, name: (T, Language) -> string)
    requires i < |cands|
    ensures Matching(cands[..i + 1], q, lang, name)
         == Matching(cands[..i], q, lang, name) + (if Answers(q, name(cands[i], lang), lang) then [cands[i]] else [])
  {
    assert cands[..i + 1][..i] == cands[..i];
  }

  /** The whole of `predict_city`. */
  function Pipeline<T>(cands: seq<T>, query: string, n: int, lang: Language,
                       name: (T, Language) -> string, sortName: T -> string, flag: T -> bool): seq<T>
  {
    var q := Normalise(query, lang);
    if q == "" then []
    else Take(SortBy(SortBy(Matching(cands, q, lang, name), sortName, LexLe), flag, BoolLe), n)
  }

  /** A candidate is kept exactly when it answers the query. */
  lemma {:induction false} MatchingMembers<T>(cands: seq<T>, q: string, lang: Language, name: (T, Language) -> string, x: T)
    ensures x in Matching(cands, q, lang, name) <==> x in cands && Answers(q, name(x, lang), lang)
  {
    if cands != [] {
      var init := cands[..|cands| - 1];
      MatchingMembers(init, q, lang, name, x);
      assert cands == init + [cands[|cands| - 1]];
    }
  }

  /** What `Take` keeps is part of what it is given, and all of it when
      there is room. */
  lemma TakeMultiset<T>(s: seq<T>, n: int)
    ensures multiset(Take(s, n)) <= multiset(s)
    ensures n >= |s| ==> Take(s, n) == s
  {
    var r := Take(s, n);
    assert s == r + s[|r|..];
  }

  /** The answer is a permutation of the matching candidates, cut short. */
  lemma PipelineFromMatches<T>(cands: seq<T>, query: string, n: int, lang: Language,
                               name: (T, Language) -> string, sortName: T -> string, flag: T -> bool)
    requires Normalise(query, lang) != ""
    ensures var r := Pipeline(cands, query, n, lang, name, sortName, flag);
            var m := Matching(cands, Normalise(query, lang), lang, name);
            multiset(r) <= multiset(m) &&
            ((n >= |m| || n >= |cands|) ==> multiset(r) == multiset(m) && |r| == |m|)
  {
    var q := Normalise(query, lang);
    var m := Matching(cands, q, lang, name);
    var byName := SortBy(m, sortName, LexLe);
    var sorted := SortBy(byName, flag, BoolLe);
    assert Pipeline(cands, query, n, lang, name, sortName, flag) == Take(sorted, n);
    SortByPermutes(m, sortName, LexLe);
    SortByPermutes(byName, flag, BoolLe);
    TakeMultiset(sorted, n);
  }

  /** An empty normalised query is answered with nothing, whatever the
      candidates are. */
  lemma EmptyQueryAnswersNothing<T>(cands: seq<T>, query: string, n: int, lang: Language,
                                    name: (T, Language) -> string, sortName: T -> string, flag: T -> bool)
    requires Normalise(query, lang) == ""
    ensures Pipeline(cands, query, n, lang, name, sortName, flag) == []
  {
  }

  /** Every answer is a candidate whose normalised name starts with the
      normalised query. */
  lemma AnswersMatchQuery<T>(cands: seq<T>, query: string, n: int, lang: Language,
                             name: (T, Language) -> string, sortName: T -> string, flag: T -> bool)
    ensures var r := Pipeline(cands, query, n, lang, name, sortName, flag);
            forall i :: 0 <= i < |r| ==> r[i] in cands && Answers(Normalise(query, lang), name(r[i], lang), lang)
  {
    var q := Normalise(query, lang);
    var r := Pipeline(cands, query, n, lang, name, sortName, flag);
    if q != "" {
      PipelineFromMatches(cands, query, n, lang, name, sortName, flag);
      forall i | 0 <= i < |r| ensures r[i] in cands && Answers(q, name(r[i], lang), lang) {
        assert r[i] in multiset(r);
        MatchingMembers(cands, q, lang, name, r[i]);
      }
    }
  }

  /** At most `n` answers for a non-negative `n`, none for `n == 0`. */
  lemma AnswerLength<T>(cands: seq<T>, query: string, n: int, lang: Language,
                        name: (T, Language) -> string, sortName: T -> string, flag: T -> bool)
    ensures var r := Pipeline(cands, query, n, lang, name, sortName, flag);
            |r| <= |cands| && (n >= 0 ==> |r| <= n) && (n == 0 ==> r == [])
  {
  }

  /** The answers are ordered: flag `False` (in China) first, and by name
      within each flag. */
  lemma AnswersOrdered<T>(cands: seq<T>, query: string, n: int, lang: Language,
                          name: (T, Language) -> string, sortName: T -> string, flag: T -> bool)
    ensures FlagThenNameOrdered(Pipeline(cands, query, n, lang, name, sortName, flag), flag, sortName)
  {
    var q := Normalise(query, lang);
    if q != "" {
      var m := Matching(cands, q, lang, name);
      var sorted := SortBy(SortBy(m, sortName, LexLe), flag, BoolLe);
      TwoPassOrdered(m, flag, sortName);
      PrefixOrdered(sorted, |Take(sorted, n)|, flag, sortName);
    }
  }

  /** A prefix of an ordered sequence is ordered. */
  lemma PrefixOrdered<T>(s: seq<T>, k: nat, flag: T -> bool, name: T -> string)
    requires k <= |s| && FlagThenNameOrdered(s, flag, name)
    ensures FlagThenNameOrdered(s[..k], flag, name)
  {
    var p := s[..k];
    forall i, j | 0 <= i < j < |p|
      ensures BoolLe(flag(p[i]), flag(p[j])) && (flag(p[i]) == flag(p[j]) ==> LexLe(name(p[i]), name(p[j])))
    {
      assert p[i] == s[i] && p[j] == s[j];
    }
  }

  /** The two sorts are one sort by the pair (flag, name). */
  lemma PipelineIsRankSort<T>(cands: seq<T>, query: string, n: int, lang: Language,
                              name: (T, Language) -> string, sortName: T -> string, flag: T -> bool,
                              rank: T -> (bool, string))
    requires forall y :: rank(y) == (flag(y), sortName(y))
    requires Normalise(query, lang) != ""
    ensures Pipeline(cands, query, n, lang, name, sortName, flag)
         == Take(SortBy(Matching(cands, Normalise(query, lang), lang, name), rank, PairLe), n)
  {
    TwoPassIsRankSort(Matching(cands, Normalise(query, lang), lang, name), flag, sortName, rank);
  }

  /** With room for every match, candidates that tie on both flag and name
      are answered in candidate order. */
  lemma TiesKeepCandidateOrder<T>(cands: seq<T>, query: string, n: int, lang: Language,
                                  name: (T, Language) -> string, sortName: T -> string, flag: T -> bool,
                                  rank: T -> (bool, string), k: (bool, string))
    requires forall y :: rank(y) == (flag(y), sortName(y))
    requires Normalise(query, lang) != "" && n >= |cands|
    ensures KeyFilter(Pipeline(cands, query, n, lang, name, sortName, flag), rank, k)
         == KeyFilter(Matching(cands, Normalise(query, lang), lang, name), rank, k)
  {
    var q := Normalise(query, lang);
    var m := Matching(cands, q, lang, name);
    TwoPassStable(m, flag, sortName, rank, k);
    var sorted := SortBy(SortBy(m, sortName, LexLe), flag, BoolLe);
    assert |sorted| == |m| <= |cands|;
    TakeMultiset(sorted, n);
    assert Pipeline(cands, query, n, lang, name, sortName, flag) == sorted;
  }
}
