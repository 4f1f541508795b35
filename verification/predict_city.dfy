/**
 * `predict_city` over the place table (a dict from English name to place):
 * the dict's values, in iteration order, are the candidates of the
 * autocomplete pipeline; a place's name is taken in the active language, it
 * is sorted by its English name, and places whose English country name is
 * not `"China"` go after the others.
 */
module PredictCity {
  import opened Text
  import opened LangDict
  import opened Query
  import opened Sorting
  import opened Places
  import opened Autocomplete

  /** `place[language_alias_dict[language]]["Name"]`: the alias is `"en"`
      for English and `"zh"` for Chinese. */
  function PlaceName(p: Place, lang: Language): string {
    match lang
    case English => p.en.name
    case Chinese => p.zh.name
  }

  /** The first sort key, `place['en']["Name"]`. */
  function EnglishName(p: Place): string {
    p.en.name
  }

  /** The second sort key, `place['en']["CountryName"] != 'China'`. */
  predicate OutsideChina(p: Place) {
    p.en.countryName != "China"
  }

  /** The key both sorts together amount to. */
  function Rank(p: Place): (bool, string) {
    (OutsideChina(p), EnglishName(p))
  }

  /** The dict's values in iteration order. */
  function Values(g: Gazetteer): (vs: seq<Place>)
    requires Valid(g)
    ensures |vs| == |g.keys|
    ensures forall i :: 0 <= i < |vs| ==> vs[i] == g.entries[g.keys[i]]
  {
    seq(|g.keys|, i requires 0 <= i < |g.keys| => g.entries[g.keys[i]])
  }

  /** What `predict_city(input_text, cities, n_entries, language)` returns. */
  function Prediction(query: string, g: Gazetteer, n: int, lang: Language): seq<Place>
    requires Valid(g)
  {
    Pipeline(Values(g), query, n, lang, PlaceName, EnglishName, OutsideChina)
  }

  /** The places that match the normalised query, in dict order. */
  function Matches(query: string, g: Gazetteer, lang: Language): seq<Place>
    requires Valid(g)
  {
    Matching(Values(g), Normalise(query, lang), lang, PlaceName)
  }

  /** `predict_city` as written: one pass over the dict collecting matches,
      then the two sorts and the cut. The dict is a value and is not changed. */
  method Predict(inputText: string, cities: Gazetteer, nEntries: int, language: Language)
    returns (matchList: seq<Place>)
    requires Valid(cities)
    ensures matchList == Prediction(inputText, cities, nEntries, language)
  {
    var q := Normalise(inputText, language);
    if q == "" {
      return [];
    }
    var found := Scan(q, Values(cities), language);
    var byName := SortBy(found, EnglishName, LexLe);
    var chinaFirst := SortBy(byName, OutsideChina, BoolLe);
    matchList := Take(chinaFirst, nEntries);
  }

  /** The scan loop of `predict_city`: of the dict's values, in iteration
      order, the places whose normalised name starts with the (already
      normalised) query. Iterating the keys and reading `cities[city]`
      visits exactly `Values(cities)` in order. */
  method Scan(q: string, places: seq<Place>, language: Language) returns (found: seq<Place>)
    ensures found == Matching(places, q, language, PlaceName)
  {
    found := [];
    var i := 0;
    while i < |places|
      invariant 0 <= i <= |places|
      invariant found == Matching(places[..i], q, language, PlaceName)
    {
      var place := places[i];
      var cityName := Normalise(PlaceName(place, language), language);
      MatchingStep(places, i, q, language, PlaceName);
      if q <= cityName {
        found := found + [place];
      }
      i := i + 1;
    }
    assert places[..i] == places;
  }

  /** An empty normalised query gives an empty answer whatever the dict holds. */
  lemma EmptyQuery(query: string, g: Gazetteer, n: int, lang: Language)
    requires Valid(g) && Normalise(query, lang) == ""
    ensures Prediction(query, g, n, lang) == []
  {
    EmptyQueryAnswersNothing(Values(g), query, n, lang, PlaceName, EnglishName, OutsideChina);
  }

  /** Every answer is the value of some key of the dict, and its name in the
      active language, normalised, starts with the normalised query. */
  lemma AnswersAreMatchingPlaces(query: string, g: Gazetteer, n: int, lang: Language)
    requires Valid(g)
    ensures var r := Prediction(query, g, n, lang);
            forall i :: 0 <= i < |r| ==>
              (exists k :: k in g.entries && g.entries[k] == r[i]) &&
              Normalise(query, lang) <= Normalise(PlaceName(r[i], lang), lang)
  {
    var vs := Values(g);
    var r := Prediction(query, g, n, lang);
    AnswersMatchQuery(vs, query, n, lang, PlaceName, EnglishName, OutsideChina);
    forall i | 0 <= i < |r| ensures exists k :: k in g.entries && g.entries[k] == r[i] {
      var p :| 0 <= p < |vs| && vs[p] == r[i];
      assert g.keys[p] in g.entries;
    }
  }

  /** At most `n_entries` answers for a non-negative `n_entries`, none for 0. */
  lemma AtMostN(query: string, g: Gazetteer, n: int, lang: Language)
    requires Valid(g)
    ensures n >= 0 ==> |Prediction(query, g, n, lang)| <= n
    ensures n == 0 ==> Prediction(query, g, n, lang) == []
  {
    AnswerLength(Values(g), query, n, lang, PlaceName, EnglishName, OutsideChina);
  }

  /** Places in China come before all others, and each group is in order of
      English name. */
  lemma ChinaFirstThenName(query: string, g: Gazetteer, n: int, lang: Language)
    requires Valid(g)
    ensures var r := Prediction(query, g, n, lang);
            forall i, j :: 0 <= i < j < |r| ==>
              (!OutsideChina(r[j]) ==> !OutsideChina(r[i])) &&
              (OutsideChina(r[i]) == OutsideChina(r[j]) ==> LexLe(EnglishName(r[i]), EnglishName(r[j])))
  {
    AnswersOrdered(Values(g), query, n, lang, PlaceName, EnglishName, OutsideChina);
  }

  /** The answer is the first `n_entries` of the matches sorted once by the
      pair (outside China, English name). */
  lemma SingleRankSort(query: string, g: Gazetteer, n: int, lang: Language)
    requires Valid(g) && Normalise(query, lang) != ""
    ensures Prediction(query, g, n, lang) == Take(SortBy(Matches(query, g, lang), Rank, PairLe), n)
  {
    PipelineIsRankSort(Values(g), query, n, lang, PlaceName, EnglishName, OutsideChina, Rank);
  }

  /** With room for all of them, every matching place is answered, once per
      key that holds it, and nothing else is. */
  lemma CompleteWhenRoomy(query: string, g: Gazetteer, n: int, lang: Language)
    requires Valid(g) && Normalise(query, lang) != "" && n >= |g.keys|
    ensures multiset(Prediction(query, g, n, lang)) == multiset(Matches(query, g, lang))
    ensures forall k :: k in g.entries ==>
              (g.entries[k] in Prediction(query, g, n, lang) <==>
               Normalise(query, lang) <= Normalise(PlaceName(g.entries[k], lang), lang))
  {
    var vs := Values(g);
    var q := Normalise(query, lang);
    PipelineFromMatches(vs, query, n, lang, PlaceName, EnglishName, OutsideChina);
    forall k | k in g.entries
      ensures g.entries[k] in Prediction(query, g, n, lang) <==> q <= Normalise(PlaceName(g.entries[k], lang), lang)
    {
      var p :| 0 <= p < |g.keys| && g.keys[p] == k;
      assert vs[p] == g.entries[k];
      MatchingMembers(vs, q, lang, PlaceName, g.entries[k]);
      assert g.entries[k] in Prediction(query, g, n, lang) <==> g.entries[k] in multiset(Matches(query, g, lang));
    }
  }

  /** With room for all of them, places that tie on both keys are answered
      in dict order: both sorts are stable. */
  lemma TiesInDictOrder(query: string, g: Gazetteer, n: int, lang: Language, k: (bool, string))
    requires Valid(g) && Normalise(query, lang) != "" && n >= |g.keys|
    ensures KeyFilter(Prediction(query, g, n, lang), Rank, k) == KeyFilter(Matches(query, g, lang), Rank, k)
  {
    TiesKeepCandidateOrder(Values(g), query, n, lang, PlaceName, EnglishName, OutsideChina, Rank, k);
  }
}
