/**
 * The older `predict_city`, over a list of `(key, zh, en)` tuples: it scans
 * the list, collects the matching tuples into a new list and sorts that list
 * in place twice, by the tuple's key and then by "not in China". The city
 * list it is given is never reordered.
 */
module CityPrediction {
  import opened Text
  import opened LangDict
  import opened Query
  import opened Sorting
  import opened Places
  import opened Autocomplete

  /** A tuple `(key, zh_dict, en_dict)` of the city list. */
  datatype CityTuple = CityTuple(key: string, zh: Names, en: Names)

  /** `city[2]["Name"]` in English, `city[1]["Name"]` in Chinese. */
  function TupleName(t: CityTuple, lang: Language): string {
    match lang
    case English => t.en.name
    case Chinese => t.zh.name
  }

  /** The first sort key, `city[0]`. */
  function TupleKey(t: CityTuple): string {
    t.key
  }

  /** The second sort key, `city[2]["CountryName"] != "China"`. */
  predicate TupleOutsideChina(t: CityTuple) {
    t.en.countryName != "China"
  }

  /** The key both sorts together amount to. */
  function TupleRank(t: CityTuple): (bool, string) {
    (TupleOutsideChina(t), TupleKey(t))
  }

  /** What `predict_city(input_text, city_list, n_entries, language)` returns. */
  function Prediction(query: string, cityList: seq<CityTuple>, n: int, lang: Language): seq<CityTuple>
  {
    Pipeline(cityList, query, n, lang, TupleName, TupleKey, TupleOutsideChina)
  }

  /** `predict_city` as written. The matches go into a fresh array, which
      the two `list.sort` calls reorder in place; `cityList` is only read. */
  method Predict(inputText: string, cityList: array<CityTuple>, nEntries: int, language: Language)
    returns (result: seq<CityTuple>)
    ensures result == Prediction(inputText, cityList[..], nEntries, language)
  {
    var q := Normalise(inputText, language);
    if q == "" {
      return [];
    }
    var found := Scan(q, cityList, language);
    var matchList := new CityTuple[|found|](i requires 0 <= i < |found| => found[i]);
    assert matchList[..] == found;
    SortInPlace(matchList, TupleKey, LexLe);
    SortInPlace(matchList, TupleOutsideChina, BoolLe);
    result := Take(matchList[..], nEntries);
  }

  /** The scan loop: the tuples, in list order, whose name starts with the
      (already normalised) query. */
  method Scan(q: string, cityList: array<CityTuple>, language: Language) returns (found: seq<CityTuple>)
    ensures found == Matching(cityList[..], q, language, TupleName)
  {
    found := [];
    var i := 0;
    while i < cityList.Length
      invariant 0 <= i <= cityList.Length
      invariant found == Matching(cityList[..i], q, language, TupleName)
    {
      var city := cityList[i];
      var cityName := Normalise(TupleName(city, language), language);
      MatchingStep(cityList[..], i, q, language, TupleName);
      if q <= cityName {
        found := found + [city];
      }
      i := i + 1;
    }
    assert cityList[..i] == cityList[..];
  }

  /** An empty normalised query gives `[]`. */
  lemma EmptyQuery(query: string, cityList: seq<CityTuple>, n: int, lang: Language)
    requires Normalise(query, lang) == ""
    ensures Prediction(query, cityList, n, lang) == []
  {
    EmptyQueryAnswersNothing(cityList, query, n, lang, TupleName, TupleKey, TupleOutsideChina);
  }

  /** Every answer is a tuple of the list whose name in the active language,
      normalised, starts with the normalised query. */
  lemma AnswersComeFromList(query: string, cityList: seq<CityTuple>, n: int, lang: Language)
    ensures var r := Prediction(query, cityList, n, lang);
            forall i :: 0 <= i < |r| ==>
              r[i] in cityList && Normalise(query, lang) <= Normalise(TupleName(r[i], lang), lang)
  {
    AnswersMatchQuery(cityList, query, n, lang, TupleName, TupleKey, TupleOutsideChina);
  }

  /** At most `n_entries` answers for a non-negative `n_entries`. */
  lemma AtMostN(query: string, cityList: seq<CityTuple>, n: int, lang: Language)
    ensures n >= 0 ==> |Prediction(query, cityList, n, lang)| <= n
    ensures |Prediction(query, cityList, n, lang)| <= |cityList|
  {
    AnswerLength(cityList, query, n, lang, TupleName, TupleKey, TupleOutsideChina);
  }

  /** Tuples whose English country is `"China"` come first, and each group
      is in order of the tuple's key. */
  lemma ChinaFirstThenKey(query: string, cityList: seq<CityTuple>, n: int, lang: Language)
    ensures var r := Prediction(query, cityList, n, lang);
            forall i, j :: 0 <= i < j < |r| ==>
              (!TupleOutsideChina(r[j]) ==> !TupleOutsideChina(r[i])) &&
              (TupleOutsideChina(r[i]) == TupleOutsideChina(r[j]) ==> LexLe(r[i].key, r[j].key))
  {
    AnswersOrdered(cityList, query, n, lang, TupleName, TupleKey, TupleOutsideChina);
  }

  /** Both `list.sort` calls are stable: when `n_entries` leaves room for
      every match, tuples tied on both keys appear in list order. */
  lemma TiesInListOrder(query: string, cityList: seq<CityTuple>, n: int, lang: Language, k: (bool, string))
    requires Normalise(query, lang) != "" && n >= |cityList|
    ensures KeyFilter(Prediction(query, cityList, n, lang), TupleRank, k)
         == KeyFilter(Matching(cityList, Normalise(query, lang), lang, TupleName), TupleRank, k)
  {
    TiesKeepCandidateOrder(cityList, query, n, lang, TupleName, TupleKey, TupleOutsideChina, TupleRank, k);
  }
}
