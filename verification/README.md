# Weather Assistant — a Dafny model of its core

Weather Assistant is a desktop weather application written in Python. This
project models the parts of it that hold logic rather than GUI plumbing, and
proves properties of that model:

- **City autocomplete.** `predict_city` comes in two versions:
  - the current one (`utils/predict_city.py`) runs over the place table, a dict keyed by English name;
  - the older one (`city_prediction.py`) runs over a list of `(key, zh, en)` tuples.

  Both normalise the query, keep the candidates whose normalised name starts with it, and sort them stably twice: by name, then by "country is not China". They then cut the result to `n_entries`.
- **The controller's bookkeeping** (`WeatherAssistant.py`):
  - reading the favourites file and the place table (`load_cities`, `load_all_cities`);
  - the favourites list that `add_city`, `remove_city` and `shift_city` change, with the status strings they return.
- **The offline table builder** (`utils/get_all_cities/GetCityList.py`): the join `match_city_names` of the Chinese and English city lists on their three codes, and the CSV text written from it. The CSV text is proved to read back through the loader.
- **The page navigator `SerialDisplay` and the label-table pages** ("details", air quality, wind, sun and moon). There are two versions:
  - `utils/SerialPages.py`: placeholder `"---"`, pages carry a language, `clear` clears each page;
  - the older `SerialPages.py`: placeholder `"###"`, fixed units, `clear` removes every page.

Layout, one module per file:

| file | module | models |
|---|---|---|
| `wrappers.dfy` | `Wrappers` | `Option` |
| `text.dfy` | `Text` | `str.strip`, `str.split(',')`, `','.join`, file line iteration, `str` ordering |
| `lang_dict.dfy` | `LangDict` | the two languages and the page titles, captions and units |
| `query.dfy` | `Query` | `re.sub(r'[^a-z ]', '', s.lower())` |
| `sorting.dfy` | `Sorting` | `sorted(key=…)` and `list.sort(key=…)`, stable |
| `autocomplete.dfy` | `Autocomplete` | the pipeline both `predict_city` versions share |
| `predict_city.dfy` | `PredictCity` | `utils/predict_city.py` |
| `city_prediction.dfy` | `CityPrediction` | `city_prediction.py` |
| `places.dfy` | `Places` | the place table: an insertion-ordered dict |
| `weather_assistant.dfy` | `WeatherAssistant` | `WeatherAssistant.py` |
| `get_city_list.dfy` | `GetCityList` | `utils/get_all_cities/GetCityList.py` |
| `navigation.dfy` | `Navigation` | the index and button rules both `SerialDisplay` versions share |
| `labels.dfy` | `Labels` | the label pages' keys and what `update` leaves on them |
| `serial_pages.dfy` | `SerialPages` | `utils/SerialPages.py` |
| `serial_pages_old.dfy` | `SerialPagesOld` | `SerialPages.py` |

How the Python is represented:

- **Dicts.** A Python dict keeps insertion order, and overwriting a key keeps its position. The place table is therefore a key sequence plus a map (`Places.Gazetteer`).
- **Files.** A file is given as its text, or `None` when it cannot be opened.
- **Exceptions.** Where the source catches an exception and returns a fallback, the model returns the fallback. `KeyError` in a page's `update` becomes an `ok` result of `false`.
- **Mutable objects.** Objects whose methods update their fields are Dafny classes: the controller, `SerialDisplay` and the label pages. Loops in the source are `while` loops with invariants.
  - The older `predict_city` sorts its match list in place. This is an in-place sort of an array, proved equal to the stable sort function.

Where the written description of the system and the code differ, the model follows the code:

- **A query of spaces only is not empty.** The English normalisation keeps spaces, so a query of spaces is answered like any other query rather than by the empty-query shortcut (`Query.SpacesSurviveNormalisation`).
- **The builder and the loader use different file names.** The builder writes `city_list.csv`, while the loader reads `data/all_city.csv`. The round-trip lemmas relate the written text to the text the loader parses, whatever the file is called.

## Model

| member | source | states |
|---|---|---|
| Text.Strip | WeatherAssistant.py:80 | `line.strip()`: the result has no whitespace (Python's `isspace` set) at either end and is no longer than the input |
| Text.StripIsTrim | WeatherAssistant.py:80 | the result of `strip()` is a slice of the input with only whitespace before and after it |
| Text.StripTrailing | WeatherAssistant.py:114 | stripping a string that has no whitespace at its ends, followed by whitespace only, gives that string back |
| Text.Split | WeatherAssistant.py:115 | `split(',')` yields at least one piece, no piece contains the separator, and joining the pieces gives the input back |
| Text.SplitJoin | WeatherAssistant.py:115 | splitting undoes joining when no piece contains the separator |
| Text.Lines | WeatherAssistant.py:113 | iterating a text file yields lines that each end at their first newline, only the last may lack one, and together they make up the whole text |
| Text.LinesOfConcat | WeatherAssistant.py:107-113 | writing newline-terminated lines and iterating the file gives the same lines back |
| Text.LexLeTotal | utils/predict_city.py:49 | Python's `str` order is total |
| Text.LexLeTransitive | utils/predict_city.py:49 | Python's `str` order is transitive |
| Text.LexLeAntisymmetric | utils/predict_city.py:49 | strings that are each at most the other are equal |
| Query.KeptLower | utils/predict_city.py:25-27 | one character lowercased and filtered yields at most one character, always `a`..`z` or a space: `A`..`Z` become `a`..`z`, U+212A becomes `k`, U+0130 becomes `i`, `a`..`z` and the space stay, and every other character is dropped |
| Query.NormaliseEnglish | utils/predict_city.py:25-27 | the normalised string is no longer than the input and holds only `a`..`z` and spaces |
| Query.NormaliseEnglishEmpty | utils/predict_city.py:25-27 | the normalised string is empty exactly when no character of the input survives lowering and filtering |
| Query.NormaliseEnglishFull | utils/predict_city.py:25-27 | the normalised string is as long as the input exactly when every character survives |
| Query.NormaliseEnglishLowers | utils/predict_city.py:25-27 | on a string whose every character survives, the normalisation is the character-by-character lower case |
| Query.Normalise | utils/predict_city.py:23-27 | the normalisation in the given language: `NormaliseEnglish` in English, the text as it is in Chinese; its properties are the lemmas around it |
| Query.NormaliseEnglishKeepsClean | utils/predict_city.py:25-27 | a string of `a`..`z` and spaces is its own normalisation |
| Query.NormaliseIdempotent | utils/predict_city.py:23-27 | normalising twice equals normalising once, in both languages |
| Query.NormaliseEnglishConcat | utils/predict_city.py:25-27 | normalisation distributes over concatenation |
| Query.SpacesSurviveNormalisation | utils/predict_city.py:27-30 | a query of spaces only is its own normalisation, hence not empty |
| Query.NoLatinNormalisesEmpty | utils/predict_city.py:36-39 | a name with no Latin letter normalises to the empty string in English |
| Sorting.SortBy | utils/predict_city.py:49-50 | `sorted(key=…)` as a stable insertion sort: the result has the input's length; `SortByPermutes`, `SortBySorted` and `SortByStable` state what makes it Python's sort |
| Sorting.KeyFilter | utils/predict_city.py:49-50 | the selection is no longer than its input and every selected element has the given key value |
| Sorting.KeyFilterMembers | utils/predict_city.py:49-50 | an element is selected exactly when it is in the input with the given key value |
| Sorting.SortByPermutes | utils/predict_city.py:49-50 | `sorted` returns a permutation of its input |
| Sorting.SortBySorted | utils/predict_city.py:49-50 | `sorted` returns its elements in key order for a total preorder |
| Sorting.SortByStable | utils/predict_city.py:49-50 | elements with equal keys keep their input order |
| Sorting.SortByKeyFilter | utils/predict_city.py:49-50 | selecting after sorting equals sorting after selecting |
| Sorting.SortByEqualKeys | utils/predict_city.py:49-50 | sorting a sequence whose keys are all equal changes nothing |
| Sorting.SortByBoolIsPartition | utils/predict_city.py:50 | sorting by a `bool` key gives the `False` elements and then the `True` elements, each in input order |
| Sorting.SortByRankIsBlocks | utils/predict_city.py:49-50 | sorting by the pair (flag, name) gives the `False` block sorted by name, then the `True` block sorted by name |
| Sorting.LexLeIsTotalPreorder | utils/predict_city.py:49 | the `str` order is a total preorder |
| Sorting.PairLeIsTotalPreorder | utils/predict_city.py:49-50 | the `(bool, str)` order is a total preorder |
| Sorting.TwoPassIsRankSort | utils/predict_city.py:49-50 | a stable sort by name followed by a stable sort by flag equals one stable sort by the pair (flag, name) |
| Sorting.TwoPassOrdered | utils/predict_city.py:49-50 | after the two sorts the flag never decreases, and names are ordered within each flag |
| Sorting.TwoPassStable | utils/predict_city.py:49-50 | after the two sorts, elements equal on both flag and name keep their input order |
| Sorting.SortInPlace | city_prediction.py:46-47 | `list.sort(key=…)` leaves the array holding the stable sort of its old contents |
| Sorting.InsertStep | city_prediction.py:46-47 | one step of the in-place sort inserts an element into the sorted suffix after it and leaves the prefix alone |
| Sorting.ShiftLeft | city_prediction.py:46-47 | the scan of one step moves exactly the elements that must precede the inserted one a place to the left, stops in front of the first that must not, and leaves the rest of the array alone |
| Autocomplete.Pipeline | utils/predict_city.py:23-54 | the body both `predict_city` versions share: normalise, `[]` for an empty query, scan, sort by name, sort by flag, cut; its properties are the lemmas below |
| Autocomplete.Take | utils/predict_city.py:52 | `s[:n]` is a prefix of `s`, of length `min(n, len)` for `n >= 0` and `max(len + n, 0)` for negative `n` |
| Autocomplete.Matching | utils/predict_city.py:34-46 | the matches are no more than the candidates, and every one of them answers the query |
| Autocomplete.MatchingMembers | utils/predict_city.py:34-46 | a candidate is kept exactly when its normalised name starts with the query |
| Autocomplete.PipelineFromMatches | utils/predict_city.py:32-52 | the answer is a sub-multiset of the matches, and all of them when `n_entries` is at least the number of matches |
| Autocomplete.AnswersMatchQuery | utils/predict_city.py:44-46 | every answer is a candidate whose normalised name starts with the normalised query |
| Autocomplete.AnswersOrdered | utils/predict_city.py:48-52 | answers put China first and are ordered by name within each group |
| Autocomplete.PipelineIsRankSort | utils/predict_city.py:48-52 | the answer is the first `n_entries` of the matches sorted once by (flag, name) |
| Autocomplete.TiesKeepCandidateOrder | utils/predict_city.py:48-52 | with room for every match, answers equal on flag and name appear in candidate order |
| Places.Put | WeatherAssistant.py:137-139 | `d[k] = v` keeps the dict valid, stores `v` under `k`, keeps an existing key's position and appends a new key |
| PredictCity.Values | utils/predict_city.py:34 | the dict's values in iteration order, one per key |
| PredictCity.Prediction | utils/predict_city.py:8-54 | what `predict_city` returns over the dict, as the shared pipeline over its values; its properties are the `PredictCity` lemmas |
| PredictCity.Predict | utils/predict_city.py:8-54 | the method returns `Prediction` of its inputs: the two stable sorts and the cut applied to the scan's matches |
| PredictCity.Scan | utils/predict_city.py:32-46 | the scan loop over the dict's values collects, in iteration order, exactly the places whose normalised name starts with the query |
| PredictCity.EmptyQuery | utils/predict_city.py:29-30 | an empty normalised query gives `[]` |
| PredictCity.AnswersAreMatchingPlaces | utils/predict_city.py:34-46 | every answer is a value of the dict whose normalised name in the active language starts with the normalised query |
| PredictCity.AtMostN | utils/predict_city.py:52 | at most `n_entries` answers for non-negative `n_entries`, none for 0 |
| PredictCity.ChinaFirstThenName | utils/predict_city.py:48-50 | places in China come before the others, and each group is in English-name order |
| PredictCity.SingleRankSort | utils/predict_city.py:48-52 | the answer is the matches sorted once by (outside China, English name), cut to `n_entries` |
| PredictCity.CompleteWhenRoomy | utils/predict_city.py:32-52 | when `n_entries` is at least the size of the dict, a place is answered exactly when it matches, as often as it matches |
| PredictCity.TiesInDictOrder | utils/predict_city.py:48-52 | when `n_entries` is at least the size of the dict, places tied on both keys appear in dict order |
| CityPrediction.Prediction | city_prediction.py:5-50 | what the older `predict_city` returns over the list, as the shared pipeline over it; its properties are the `CityPrediction` lemmas |
| CityPrediction.Predict | city_prediction.py:5-50 | the method returns the prediction of the list; the matches are copied to a fresh array and sorted in place, and the input list is unchanged |
| CityPrediction.Scan | city_prediction.py:29-43 | the scan loop collects, in list order, exactly the tuples whose normalised name starts with the query |
| CityPrediction.EmptyQuery | city_prediction.py:26-27 | an empty normalised query gives `[]` |
| CityPrediction.AnswersComeFromList | city_prediction.py:31-43 | every answer is a tuple of the list whose normalised name in the active language starts with the normalised query |
| CityPrediction.AtMostN | city_prediction.py:48 | at most `n_entries` answers for non-negative `n_entries`, and never more than the list holds |
| CityPrediction.ChinaFirstThenKey | city_prediction.py:46-47 | tuples in China come first, and each group is in key order |
| CityPrediction.TiesInListOrder | city_prediction.py:46-48 | when `n_entries` leaves room for every match, tuples tied on both keys appear in list order |
| WeatherAssistant.Fields | WeatherAssistant.py:114-115 | a row always splits into at least one field |
| WeatherAssistant.AddRow | WeatherAssistant.py:116-139 | a row stores its state under field 3 (when the Chinese state name is new and non-empty, marking it seen) and then its city under field 1, each as a dict assignment |
| WeatherAssistant.AddRowKeepsOthers | WeatherAssistant.py:126-139 | a row changes no entry other than its city's and, for a new state, its state's, and every earlier key keeps its position |
| WeatherAssistant.LoadRows | WeatherAssistant.py:113-139 | the row loop, `None` at the first row with fewer than six fields; `ShortRowAborts`, `CompleteRowsLoad` and `LoadRowsAppend` state its behaviour |
| WeatherAssistant.LoadAll | WeatherAssistant.py:89-144 | what `load_all_cities` returns: header skipped, `{}` on an unreadable or empty file or a short row; its properties are the lemmas below |
| WeatherAssistant.AddRowDeduplicates | WeatherAssistant.py:126-137 | a row keeps at most one state record per Chinese state name |
| WeatherAssistant.LoadRowsDeduplicates | WeatherAssistant.py:113-139 | loading rows keeps at most one state record per Chinese state name |
| WeatherAssistant.LoadAllDeduplicatesStates | WeatherAssistant.py:101-144 | the loaded table has at most one state record per Chinese state name, and never one for an empty name |
| WeatherAssistant.LoadRowsValid | WeatherAssistant.py:113-139 | loading rows keeps the dict well formed |
| WeatherAssistant.ShortRowAborts | WeatherAssistant.py:113-144 | a row with fewer than six fields anywhere makes the whole load return `{}` |
| WeatherAssistant.CompleteRowsLoad | WeatherAssistant.py:113-141 | with every row complete the load succeeds, keeps every earlier key and has each row's English name as a key |
| WeatherAssistant.LoadRowsAppend | WeatherAssistant.py:113-139 | loading rows `a + b` is loading `a` and then `b` from where `a` left off, and nothing when `a` holds a short row |
| WeatherAssistant.LoadOneMore | WeatherAssistant.py:113-139 | after complete rows, one more complete row is applied to the state they left |
| WeatherAssistant.LastRowWins | WeatherAssistant.py:139 | the city of the last row is what its English name maps to at the end |
| WeatherAssistant.LoadAllCities | WeatherAssistant.py:89-144 | the loop computes `LoadAll` of the file: header skipped, `{}` on an unreadable or empty file or a short row; the result is a well-formed dict |
| WeatherAssistant.LoadCities | WeatherAssistant.py:68-87 | the favourites are the stripped lines in order; the first one becomes current; `([], None)` when the file cannot be read |
| WeatherAssistant.ReadCities | WeatherAssistant.py:79-83 | the loop strips every line, keeps them in order, and makes the first stripped line current (none when there are no lines) |
| WeatherAssistant.IndexOf | WeatherAssistant.py:193 | `list.index` returns the first position holding the element |
| WeatherAssistant.Shift | WeatherAssistant.py:216-231 | `shift_city` on the favourites as a value; its properties are `ShiftOutcome` and `OperationsKeepConsistent` |
| WeatherAssistant.Add | WeatherAssistant.py:158-182 | `add_city` on the favourites as a value; its properties are `AddOutcome` and the lemmas after it |
| WeatherAssistant.Remove | WeatherAssistant.py:184-214 | `remove_city` on the favourites as a value; its properties are `RemoveOutcome` and the lemmas after it |
| WeatherAssistant.ShiftOutcome | WeatherAssistant.py:216-231 | `shift_city` succeeds exactly on a listed city, then changes only the current city, and otherwise changes nothing |
| WeatherAssistant.AddOutcome | WeatherAssistant.py:158-182 | `add_city` succeeds exactly on a known city not yet listed, then appends it and makes it current; `unknown_city` and `city_in_list` are returned exactly in their cases, and a failure changes nothing |
| WeatherAssistant.RemoveOutcome | WeatherAssistant.py:184-214 | `remove_city` succeeds exactly on a listed city and then removes its first occurrence, the rest keeping their order; `no_city` is returned exactly for `None` and `unknown_error` exactly for an unlisted name; a failure changes nothing |
| WeatherAssistant.RemoveSelectsFollower | WeatherAssistant.py:193-203 | after a removal the city that followed the removed one becomes current, wrapping to the first city |
| WeatherAssistant.OperationsKeepConsistent | WeatherAssistant.py:158-231 | all three operations keep "there is a current city exactly when the list is non-empty, and it is listed" |
| WeatherAssistant.OperationsKeepDistinct | WeatherAssistant.py:158-214 | adding and removing never list a city twice |
| WeatherAssistant.AddThenRemove | WeatherAssistant.py:158-214 | adding a city and then removing it restores the list, with the first city current |
| WeatherAssistant.WeatherAssistant.constructor | WeatherAssistant.py:27-47 | a new controller holds the stripped lines of the favourites file (none when it cannot be read) with the first one current, and the loaded place table |
| WeatherAssistant.WeatherAssistant.ShiftCity | WeatherAssistant.py:216-231 | the new state and the returned string are those of `Shift`, and the place table is unchanged |
| WeatherAssistant.WeatherAssistant.AddCity | WeatherAssistant.py:158-182 | the new state and the returned string are those of `Add`, and the place table is unchanged |
| WeatherAssistant.WeatherAssistant.RemoveCity | WeatherAssistant.py:184-214 | the new state and the returned string are those of `Remove`, and the place table is unchanged |
| WeatherAssistant.StripAll | WeatherAssistant.py:79-81 | one stripped line per line |
| GetCityList.SameCity | utils/get_all_cities/GetCityList.py:53-55 | the join condition: equal city, state and country codes |
| GetCityList.Merge | utils/get_all_cities/GetCityList.py:56-63 | the joined record: Chinese names from the first city, English names from the second |
| GetCityList.MatchOne | utils/get_all_cities/GetCityList.py:50-63 | one city of the first list contributes no more records than the second list has cities |
| GetCityList.MatchOneAppend | utils/get_all_cities/GetCityList.py:50-63 | within one city of the first list, the records follow the second list's order |
| GetCityList.MatchOneSingle | utils/get_all_cities/GetCityList.py:53-63 | one city of the second list contributes one merged record when its codes match and none otherwise, so a duplicated city contributes once per occurrence |
| GetCityList.JoinSingle | utils/get_all_cities/GetCityList.py:49-63 | one city of the first list contributes exactly its inner-loop records |
| GetCityList.Join | utils/get_all_cities/GetCityList.py:41-65 | the join has at most `len(xml_data1) * len(xml_data2)` records |
| GetCityList.MatchCityNames | utils/get_all_cities/GetCityList.py:41-65 | the nested loops compute `Join` |
| GetCityList.MatchOneSound | utils/get_all_cities/GetCityList.py:50-63 | every record one city contributes merges it with a city of equal codes |
| GetCityList.MatchOneComplete | utils/get_all_cities/GetCityList.py:50-63 | every city of equal codes yields its merged record |
| GetCityList.JoinSound | utils/get_all_cities/GetCityList.py:49-63 | every output record merges a pair of cities with equal city, state and country codes |
| GetCityList.JoinComplete | utils/get_all_cities/GetCityList.py:49-63 | every pair with equal codes yields its merged record |
| GetCityList.JoinMembers | utils/get_all_cities/GetCityList.py:41-65 | a record is in the output exactly when it merges a pair with equal codes |
| GetCityList.JoinEmpty | utils/get_all_cities/GetCityList.py:46-65 | an empty list on either side gives an empty output |
| GetCityList.JoinAppend | utils/get_all_cities/GetCityList.py:49-50 | the output follows the first list's order: the join of a concatenation is the concatenation of the joins |
| GetCityList.Row | utils/get_all_cities/GetCityList.py:83 | the f-string line of a record; `Join6IsJoin`, `RowIsLine` and `RowRoundTrip` state what it is |
| GetCityList.SixFields | utils/get_all_cities/GetCityList.py:83 | a record is written as six fields |
| GetCityList.Rows | utils/get_all_cities/GetCityList.py:82-83 | one written line per record, in order |
| GetCityList.WriteCsv | utils/get_all_cities/GetCityList.py:79-83 | the writing loop produces the header and then one line per record |
| GetCityList.ConcatSnoc | utils/get_all_cities/GetCityList.py:82-83 | writing one more line appends its text |
| GetCityList.Join6IsJoin | utils/get_all_cities/GetCityList.py:83 | the f-string line body is `','.join` of the six fields |
| GetCityList.RowRoundTrip | utils/get_all_cities/GetCityList.py:83 | the loader's strip-and-split of a written line gives the record's six fields back, for fields without commas, newlines or carriage returns and without outer whitespace |
| GetCityList.RowIsLine | utils/get_all_cities/GetCityList.py:83 | a written line ends with its only newline |
| GetCityList.HeaderIsLine | utils/get_all_cities/GetCityList.py:81 | the header is one line |
| GetCityList.CsvLines | utils/get_all_cities/GetCityList.py:79-83 | iterating the written file gives the header and then the rows |
| GetCityList.CsvRowsLoad | utils/get_all_cities/GetCityList.py:79-83 | every written data row splits back into its six fields, and loading the written file succeeds |
| GetCityList.CsvLoadsEveryName | utils/get_all_cities/GetCityList.py:79-83 | the loader keeps every written record's English name as a key |
| GetCityList.CsvLoadsLastRecord | utils/get_all_cities/GetCityList.py:79-83 | the last written record is what the loader stores under its English name |
| Navigation.Prev | utils/SerialPages.py:683-690 | "<" moves back one page unless on index 0 |
| Navigation.Next | utils/SerialPages.py:692-699 | ">" moves forward one page unless on the last index |
| Navigation.Regrid | utils/SerialPages.py:670-681 | after `show_current_page`, of the list's pages exactly the current one is placed; pages outside the list keep their place |
| Navigation.MovesStayInRange | utils/SerialPages.py:663-699 | both buttons, and adding a page, keep the index in range |
| Navigation.EnabledIffMoves | utils/SerialPages.py:701-714 | on a display with pages, a button is enabled exactly when pressing it moves the index |
| Navigation.EmptyDisplayNextEnabled | utils/SerialPages.py:701-714 | on an empty display ">" is enabled, yet pressing it does nothing |
| Navigation.PrevNextInverse | utils/SerialPages.py:683-699 | ">" undoes a "<" that moved, and "<" undoes a ">" that moved |
| Navigation.NextTimesStopsAtLast | utils/SerialPages.py:692-699 | pressing ">" `k` times moves `k` pages forward, stopping at the last page |
| Labels.Keys | utils/SerialPages.py:54 | each page's data keys (this line and lines 118, 165 and 219 for the other pages) are distinct |
| Labels.Units | utils/SerialPages.py:58 | a page's units in a language (this line and lines 120, 167 and 221), one per key |
| Labels.Subtitles | utils/SerialPages.py:56 | a page's captions in a language (this line and lines 119, 166 and 220), one per key |
| Labels.FirstMissing | utils/SerialPages.py:78-80 | the key at which `update` stops: every earlier key is supplied and this one is not |
| Labels.CompleteUpdate | utils/SerialPages.py:74-80 | the update goes through exactly when every key is supplied, and then every label shows its value followed by its unit |
| Labels.StoppedUpdate | utils/SerialPages.py:74-80 | after a missing key, that label and all later labels show the placeholder |
| Labels.ExtraArgumentsIgnored | utils/SerialPages.py:74-80 | arguments for names that are not keys make no difference |
| Labels.FirstMissingAgrees | utils/SerialPages.py:78-80 | arguments supplying the same keys stop at the same key |
| Labels.MoreArgumentsWriteMore | utils/SerialPages.py:78-80 | supplying more arguments never makes the update stop earlier |
| SerialPages.LabelPage.constructor | utils/SerialPages.py:46-72 | a new page has the title, captions and units of its language, and every value label shows `"---"` |
| SerialPages.LabelPage.Clear | utils/SerialPages.py:82-87 | every value label shows `"---"`, and the language is unchanged |
| SerialPages.LabelPage.Update | utils/SerialPages.py:74-80 | the labels are cleared and then show value plus unit up to the first missing key; `ok` holds exactly when every key was supplied |
| SerialPages.LabelPage.SetLanguage | utils/SerialPages.py:89-104 | title, captions and units of the new language, and every value label back to `"---"` |
| SerialPages.SerialDisplay.constructor | utils/SerialPages.py:635-661 | a new display has no pages and index 0, "<" disabled and ">" enabled |
| SerialPages.SerialDisplay.ShowCurrentPage | utils/SerialPages.py:670-681 | the current page is the only page of the list that is placed, and the buttons follow the index |
| SerialPages.SerialDisplay.AddPage | utils/SerialPages.py:663-668 | the page is appended, the index is unchanged, and the display stays valid |
| SerialPages.SerialDisplay.ShowPreviousPage | utils/SerialPages.py:683-690 | the index becomes `Prev` of the old one, and the display stays valid |
| SerialPages.SerialDisplay.ShowNextPage | utils/SerialPages.py:692-699 | the index becomes `Next` of the old one, and the display stays valid |
| SerialPages.SerialDisplay.UpdateButtonState | utils/SerialPages.py:701-714 | "<" is enabled exactly when the index is not 0, and ">" exactly when it is not `len - 1` |
| SerialPages.SerialDisplay.Clear | utils/SerialPages.py:716-721 | every page shows `"---"` in every value label; the list, the index and the buttons are unchanged |
| SerialPages.SerialDisplay.DeleteAllPages | utils/SerialPages.py:723-731 | no pages and index 0, "<" disabled and ">" enabled; the page that was shown stays placed |
| SerialPages.SerialDisplay.SetLanguage | utils/SerialPages.py:733-740 | the display and every page take the new language, and every page's value labels are reset to `"---"` |
| SerialPagesOld.OldUnits | SerialPages.py:32 | the fixed units (this line and lines 65, 97 and 129), one per key |
| SerialPagesOld.LabelPage.constructor | SerialPages.py:25-45 | a new page has its fixed title and units, and every value label shows `"###"` |
| SerialPagesOld.LabelPage.Clear | SerialPages.py:53-55 | every value label shows `"###"` |
| SerialPagesOld.LabelPage.Update | SerialPages.py:48-51 | the labels are cleared and then show value plus fixed unit up to the first missing key; `ok` holds exactly when every key was supplied |
| SerialPagesOld.SerialDisplay.constructor | SerialPages.py:334-353 | a new display has no pages and index 0, "<" disabled and ">" enabled |
| SerialPagesOld.SerialDisplay.ShowCurrentPage | SerialPages.py:360-368 | the current page is the only page of the list that is placed, and the buttons follow the index |
| SerialPagesOld.SerialDisplay.AddPage | SerialPages.py:356-358 | the page is appended and the index is unchanged |
| SerialPagesOld.SerialDisplay.ShowPreviousPage | SerialPages.py:370-374 | the index becomes `Prev` of the old one |
| SerialPagesOld.SerialDisplay.ShowNextPage | SerialPages.py:376-380 | the index becomes `Next` of the old one |
| SerialPagesOld.SerialDisplay.UpdateButtonState | SerialPages.py:382-390 | the buttons follow the `== 0` and `== len - 1` rule |
| SerialPagesOld.SerialDisplay.Clear | SerialPages.py:392-396 | unlike the newer `clear`, every page is removed and the index goes back to 0 |

## Left out

- Fetching weather (`GetWeather`, `update_weather`) and writing the favourites file (`save_cities`) are not modelled. Both swallow every exception, so here they are methods that change nothing.
  - As a result, the rollback branches of `add_city` (lines 174-176) and `remove_city` (lines 204-206) are dead code and are not modelled.
- Strip: its own ensures give only the clean ends and the length bound; that the result is the slice between the outer whitespace is the lemma `StripIsTrim`, kept apart so that proofs about the loaders do not carry its quantifiers.
- NormaliseEnglish: its own ensures give only the output alphabet and the length bound; which characters survive and what they become is stated by `KeptLower`'s contract and the lemmas `NormaliseEnglishLowers`, `NormaliseEnglishEmpty` and `NormaliseEnglishFull`, kept apart so that proofs about the scans do not carry their quantifiers.
- `WeatherAssistant.set_language` (WeatherAssistant.py:49-65) is not modelled. It stores the language in `self.language`, passes it to the weather fetcher, refetches and returns `"success"` (or the error text); the language it stores is read only by weather fetching, which is not modelled.
- The `except` fallbacks for failures other than the modelled ones (an I/O error mid-read, a non-string `kwargs` value in a page's `update`) are not modelled.
- Languages other than English and Chinese are not modelled. In `predict_city`, any other language leaves `city_name` unbound.
- Files are taken to hold no carriage return. Python's universal-newline translation is then the identity, and a line ends only at `'\n'`.
- Sorting: `SortBy` is a stable insertion sort. Python's Timsort is not modelled, but the model proves that `SortBy` returns a permutation that is ordered by the key and stable, which is what a stable sort returns.
- `parse_xml` (reading the XML city lists) is not modelled. The join takes its two lists as values.
- Some page kinds are not modelled:
  - the chart pages, `IndexPage` and `WarningPage`, whose `update`/`clear` draw charts or do nothing;
  - so `SerialDisplay` is modelled holding label pages only.
- tkinter widgets, grid layout options and matplotlib drawing are not modelled. Placement in the grid is modelled as the set of pages placed in the display's frame.
