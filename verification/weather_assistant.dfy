/**
 * The controller's bookkeeping: reading the favourites file and the place
 * table, and the favourites list `(cities, current_city)` that `add_city`,
 * `remove_city` and `shift_city` change. A file is given as its text, or
 * `None` when it cannot be opened or read; writing the favourites file and
 * fetching the weather do nothing here.
 */
module WeatherAssistant {
  import opened Wrappers
  import opened Text
  import opened Places

  // ---------------------------------------------------------------------
  // The place table file
  // ---------------------------------------------------------------------

  /** The fields of one line of the place table: `line.strip().split(',')`. */
  function Fields(line: string): (f: seq<string>)
    ensures |f| >= 1
  {
    Split(Strip(line), ',')
  }

  /** The city record of a row: fields 0, 2 and 4 are the Chinese names of
      the city, its state and its country, fields 1, 3 and 5 the English ones. */
  function CityPlace(f: seq<string>): Place
    requires |f| >= 6
  {
    Place(Names(f[0], Some(f[2]), f[4]), Names(f[1], Some(f[3]), f[5]), City)
  }

  /** The state record a row introduces: the state's names and the country's,
      with no state name of its own. */
  function StatePlace(f: seq<string>): Place
    requires |f| >= 6
  {
    Place(Names(f[2], None, f[4]), Names(f[3], None, f[5]), State)
  }

  /** The loader's state between rows: the dict so far and the set of Chinese
      state names already seen. */
  datatype LoadState = LoadState(g: Gazetteer, seen: set<string>)

  const Start: LoadState := LoadState(Empty, {})

  /** Whether a row introduces a state record: its Chinese state name is
      non-empty and has not been seen before. */
  predicate IsNewState(seen: set<string>, f: seq<string>)
    requires |f| >= 6
  {
    f[2] != "" && f[2] !in seen
  }

  /** One row of at least six fields. A new state is stored under its English
      name first, then the city under its English name; either overwrites an
      earlier record with the same key in place (`AddRowKeepsOthers`). */
  function AddRow(st: LoadState, f: seq<string>): (r: LoadState)
    requires |f| >= 6
    ensures r.g.entries.Keys == st.g.entries.Keys + {f[1]} + (if IsNewState(st.seen, f) then {f[3]} else {})
    ensures r.seen == if IsNewState(st.seen, f) then st.seen + {f[2]} else st.seen
    ensures r.g.entries[f[1]] == CityPlace(f)
    ensures IsNewState(st.seen, f) && f[3] != f[1] ==> r.g.entries[f[3]] == StatePlace(f)
    ensures IsNewState(st.seen, f) ==> r.g == Put(Put(st.g, f[3], StatePlace(f)), f[1], CityPlace(f))
    ensures !IsNewState(st.seen, f) ==> r.g == Put(st.g, f[1], CityPlace(f))
  {
    if IsNewState(st.seen, f) then
      LoadState(Put(Put(st.g, f[3], StatePlace(f)), f[1], CityPlace(f)), st.seen + {f[2]})
    else
      LoadState(Put(st.g, f[1], CityPlace(f)), st.seen)
  }

  /** A row changes no entry but its city's and, for a new state, its
      state's, and every key keeps its position in the dict's order. */
  lemma AddRowKeepsOthers(st: LoadState, f: seq<string>, k: string)
    requires |f| >= 6 && k in st.g.entries && k != f[1] && (k != f[3] || !IsNewState(st.seen, f))
    ensures k in AddRow(st, f).g.entries && AddRow(st, f).g.entries[k] == st.g.entries[k]
    ensures |st.g.keys| <= |AddRow(st, f).g.keys| && AddRow(st, f).g.keys[..|st.g.keys|] == st.g.keys
  {
  }

  /** The data rows in order; a row with fewer than six fields raises
      `IndexError`, which abandons the whole load (`None`). */
  function LoadRows(st: LoadState, rows: seq<string>): Option<LoadState>
    decreases |rows|
  {
    if rows == [] then Some(st)
    else
      var f := Fields(rows[0]);
      if |f| < 6 then None else LoadRows(AddRow(st, f), rows[1..])
  }

  /** `load_all_cities`: the header line is skipped; an unreadable file, an
      empty one (`next(f)` raises `StopIteration`) or any short row gives `{}`. */
  function LoadAll(file: Option<string>): Gazetteer
  {
    match file
    case None => Empty
    case Some(text) =>
      var ls := Lines(text);
      if ls == [] then Empty
      else
        match LoadRows(Start, ls[1..])
        case None => Empty
        case Some(st) => st.g
  }

  /** Every row has enough fields. */
  predicate AllRowsComplete(rows: seq<string>) {
    forall i :: 0 <= i < |rows| ==> |Fields(rows[i])| >= 6
  }

  /** The records stored so far under state keys: each was made from a
      non-empty Chinese state name already seen, and no two keys hold state
      records for the same Chinese state name. */
  ghost predicate StatesDeduplicated(st: LoadState) {
    (forall k :: k in st.g.entries && st.g.entries[k].kind == State ==>
       st.g.entries[k].zh.name != "" && st.g.entries[k].zh.name in st.seen) &&
    (forall k1, k2 ::
       (k1 in st.g.entries && k2 in st.g.entries &&
        st.g.entries[k1].kind == State && st.g.entries[k2].kind == State &&
        st.g.entries[k1].zh.name == st.g.entries[k2].zh.name) ==> k1 == k2)
  }

  /** A row keeps the state records deduplicated. */
  lemma AddRowDeduplicates(st: LoadState, f: seq<string>)
    requires |f| >= 6 && StatesDeduplicated(st)
    ensures StatesDeduplicated(AddRow(st, f))
  {
    var r := AddRow(st, f);
    if IsNewState(st.seen, f) {
      var g1 := Put(st.g, f[3], StatePlace(f));
      forall k | k in g1.entries && g1.entries[k].kind == State && k != f[3]
        ensures g1.entries[k].zh.name != f[2]
      {
        assert st.g.entries[k] == g1.entries[k];
      }
    }
  }

  /** Loading rows keeps the state records deduplicated. */
  lemma {:induction false} LoadRowsDeduplicates(st: LoadState, rows: seq<string>)
    requires StatesDeduplicated(st)
    ensures LoadRows(st, rows).Some? ==> StatesDeduplicated(LoadRows(st, rows).value)
    decreases |rows|
  {
    if rows != [] {
      var f := Fields(rows[0]);
      if |f| >= 6 {
        AddRowDeduplicates(st, f);
        LoadRowsDeduplicates(AddRow(st, f), rows[1..]);
      }
    }
  }

  /** The loaded table holds at most one state record per Chinese state name,
      and only for non-empty names. */
  lemma LoadAllDeduplicatesStates(file: Option<string>, k1: string, k2: string)
    requires k1 in LoadAll(file).entries && k2 in LoadAll(file).entries
    requires LoadAll(file).entries[k1].kind == State && LoadAll(file).entries[k2].kind == State
    requires LoadAll(file).entries[k1].zh.name == LoadAll(file).entries[k2].zh.name
    ensures k1 == k2
    ensures LoadAll(file).entries[k1].zh.name != ""
  {
    if file.Some? && Lines(file.value) != [] {
      LoadRowsDeduplicates(Start, Lines(file.value)[1..]);
    }
  }

  /** Loading rows keeps the dict a valid one. */
  lemma {:induction false} LoadRowsValid(st: LoadState, rows: seq<string>)
    requires Valid(st.g)
    ensures LoadRows(st, rows).Some? ==> Valid(LoadRows(st, rows).value.g)
    decreases |rows|
  {
    if rows != [] && |Fields(rows[0])| >= 6 {
      LoadRowsValid(AddRow(st, Fields(rows[0])), rows[1..]);
    }
  }

  /** A row with fewer than six fields anywhere abandons the load. */
  lemma {:induction false} ShortRowAborts(st: LoadState, rows: seq<string>, i: nat)
    requires i < |rows| && |Fields(rows[i])| < 6
    ensures LoadRows(st, rows) == None
    decreases i
  {
    var f := Fields(rows[0]);
    if i > 0 && |f| >= 6 {
      var tail := rows[1..];
      assert tail[i - 1] == rows[i];
      ShortRowAborts(AddRow(st, f), tail, i - 1);
      assert LoadRows(st, rows) == LoadRows(AddRow(st, f), tail);
    }
  }

  /** With every row complete the load goes through, keeps every key it
      started with and adds each row's English name as a key. */
  lemma {:induction false} CompleteRowsLoad(st: LoadState, rows: seq<string>)
    requires AllRowsComplete(rows)
    ensures LoadRows(st, rows).Some?
    ensures st.g.entries.Keys <= LoadRows(st, rows).value.g.entries.Keys
    ensures forall i :: 0 <= i < |rows| ==> Fields(rows[i])[1] in LoadRows(st, rows).value.g.entries
    decreases |rows|
  {
    if rows != [] {
      var f := Fields(rows[0]);
      CompleteRowsLoad(AddRow(st, f), rows[1..]);
      forall i | 1 <= i < |rows| ensures Fields(rows[i])[1] in LoadRows(st, rows).value.g.entries {
        assert rows[1..][i - 1] == rows[i];
      }
    }
  }

  /** Loading `a + b` is loading `a`, then loading `b` from where `a` left
      off; a short row in `a` abandons the whole load. */
  lemma {:induction false} LoadRowsAppend(st: LoadState, a: seq<string>, b: seq<string>)
    ensures LoadRows(st, a + b) == if LoadRows(st, a).Some? then LoadRows(LoadRows(st, a).value, b) else None
    decreases |a|
  {
    if a == [] {
      assert a + b == b;
    } else {
      var f := Fields(a[0]);
      assert (a + b)[0] == a[0] && (a + b)[1..] == a[1..] + b;
      if |f| >= 6 {
        LoadRowsAppend(AddRow(st, f), a[1..], b);
      }
    }
  }

  /** A list of rows is its rows but the last, then the last. */
  lemma SplitLast(rows: seq<string>)
    requires rows != []
    ensures rows == rows[..|rows| - 1] + [rows[|rows| - 1]]
  {
  }

  /** Loading complete rows and then one more complete row stores that
      row's city under its English name. */
  lemma LoadOneMore(st: LoadState, init: seq<string>, last: string, f: seq<string>)
    requires AllRowsComplete(init) && |f| >= 6 && f == Fields(last)
    ensures LoadRows(st, init).Some? && LoadRows(st, init + [last]).Some?
    ensures LoadRows(st, init + [last]).value == AddRow(LoadRows(st, init).value, f)
  {
    CompleteRowsLoad(st, init);
    LoadRowsAppend(st, init, [last]);
    assert [last][1..] == [];
  }

  /** The last complete row's city is what its key holds at the end. */
  lemma LastRowWins(st: LoadState, rows: seq<string>)
    requires rows != [] && AllRowsComplete(rows)
    ensures var f := Fields(rows[|rows| - 1]);
            var r := LoadRows(st, rows);
            r.Some? && f[1] in r.value.g.entries && r.value.g.entries[f[1]] == CityPlace(f)
  {
    var init, last := rows[..|rows| - 1], rows[|rows| - 1];
    assert AllRowsComplete(init) by {
      forall i | 0 <= i < |init| ensures |Fields(init[i])| >= 6 {
        assert init[i] == rows[i];
      }
    }
    SplitLast(rows);
    LoadOneMore(st, init, last, Fields(last));
  }

  /** The loader as the assistant runs it, row by row. */
  method LoadAllCities(file: Option<string>) returns (g: Gazetteer)
    ensures g == LoadAll(file)
    ensures Valid(g)
  {
    if file.None? {
      return Empty;
    }
    var ls := Lines(file.value);
    if ls == [] {
      return Empty;
    }
    g := Empty;
    var seen: set<string> := {};
    LoadRowsValid(Start, ls[1..]);
    var i := 1;
    while i < |ls|
      invariant 1 <= i <= |ls|
      invariant Valid(g)
      invariant LoadRows(Start, ls[1..]) == LoadRows(LoadState(g, seen), ls[i..])
    {
      var f := Fields(ls[i]);
      assert ls[i..][0] == ls[i] && ls[i..][1..] == ls[i + 1..];
      if |f| < 6 {
        return Empty;
      }
      if f[2] != "" && f[2] !in seen {
        seen := seen + {f[2]};
        g := Put(g, f[3], StatePlace(f));
      }
      g := Put(g, f[1], CityPlace(f));
      i := i + 1;
    }
  }

  // ---------------------------------------------------------------------
  // The favourites file
  // ---------------------------------------------------------------------

  /** `load_cities`: the stripped lines of the file in order, and the first
      of them as the current city; `([], None)` when the file cannot be read. */
  method LoadCities(file: Option<string>) returns (cities: seq<string>, current: Option<string>)
    ensures file.None? ==> cities == []
    ensures file.Some? ==> (|cities| == |Lines(file.value)| &&
              forall i :: 0 <= i < |cities| ==> cities[i] == Strip(Lines(file.value)[i]))
    ensures current == if cities == [] then None else Some(cities[0])
  {
    cities, current := [], None;
    if file.None? {
      return;
    }
    cities, current := ReadCities(Lines(file.value));
  }

  /** The loop of `load_cities` over the file's lines: each line stripped,
      and the first stripped line kept as the current city. */
  method ReadCities(ls: seq<string>) returns (cities: seq<string>, current: Option<string>)
    ensures |cities| == |ls| && forall i :: 0 <= i < |ls| ==> cities[i] == Strip(ls[i])
    ensures current == if cities == [] then None else Some(cities[0])
  {
    cities, current := [], None;
    var i := 0;
    while i < |ls|
      invariant 0 <= i <= |ls| && |cities| == i
      invariant forall j :: 0 <= j < i ==> cities[j] == Strip(ls[j])
      invariant i == 0 ==> current.None?
      invariant i > 0 ==> current.Some? && current.value == cities[0]
    {
      var city := Strip(ls[i]);
      cities := cities + [city];
      if current.None? {
        current := Some(city);
      }
      i := i + 1;
    }
  }

  // ---------------------------------------------------------------------
  // The favourites list
  // ---------------------------------------------------------------------

  /** The outcomes the controller reports. */
  datatype Status = Success | UnknownCity | CityInList | CityNotInList | NoCity | UnknownError

  /** The string each outcome is reported as. */
  function Code(s: Status): string {
    match s
    case Success => "success"
    case UnknownCity => "unknown_city"
    case CityInList => "city_in_list"
    case CityNotInList => "city_not_in_list"
    case NoCity => "no_city"
    case UnknownError => "unknown_error"
  }

  /** The favourites list and the city whose weather is shown. */
  datatype Favourites = Favourites(cities: seq<string>, current: Option<string>)

  /** A current city exactly when the list is non-empty, and it is on the list. */
  predicate Consistent(fav: Favourites) {
    (fav.current.None? <==> fav.cities == []) &&
    (fav.current.Some? ==> fav.current.value in fav.cities)
  }

  /** No city is on the list twice. */
  predicate Distinct(cities: seq<string>) {
    forall i, j :: 0 <= i < j < |cities| ==> cities[i] != cities[j]
  }

  /** The position of the first occurrence, as `list.index` finds it. */
  function IndexOf(s: seq<string>, x: string): (i: nat)
    requires x in s
    ensures i < |s| && s[i] == x && x !in s[..i]
  {
    if s[0] == x then 0
    else
      assert s[1..][..IndexOf(s[1..], x)] == s[1..IndexOf(s[1..], x) + 1];
      1 + IndexOf(s[1..], x)
  }

  /** `shift_city`. */
  function Shift(fav: Favourites, name: string): (Favourites, Status)
  {
    if name !in fav.cities then (fav, CityNotInList)
    else (Favourites(fav.cities, Some(name)), Success)
  }

  /** `add_city`, checking the name against the place table first. */
  function Add(fav: Favourites, known: Gazetteer, name: string): (Favourites, Status)
  {
    if name !in known.entries then (fav, UnknownCity)
    else if name in fav.cities then (fav, CityInList)
    else Shift(Favourites(fav.cities + [name], fav.current), name)
  }

  /** `remove_city`: `None` is refused, a name not on the list makes
      `list.index` raise, otherwise its first occurrence goes and the city now
      at the same position (wrapping round to the front) becomes current. */
  function Remove(fav: Favourites, name: Option<string>): (Favourites, Status)
  {
    if name.None? then (fav, NoCity)
    else if name.value !in fav.cities then (fav, UnknownError)
    else
      var idx := IndexOf(fav.cities, name.value);
      var rest := fav.cities[..idx] + fav.cities[idx + 1..];
      if rest == [] then (Favourites([], None), Success)
      else Shift(Favourites(rest, fav.current), rest[idx % |rest|])
  }

  /** `shift_city` succeeds exactly on a listed city, and then only the
      current city changes. */
  lemma ShiftOutcome(fav: Favourites, name: string)
    ensures Shift(fav, name).1 == Success <==> name in fav.cities
    ensures Shift(fav, name).1 == Success ==> Shift(fav, name).0 == Favourites(fav.cities, Some(name))
    ensures Shift(fav, name).1 != Success ==> Shift(fav, name).0 == fav
  {
  }

  /** `add_city` succeeds exactly on a known city not yet listed; it then
      appends the city and makes it current, and otherwise changes nothing. */
  lemma AddOutcome(fav: Favourites, known: Gazetteer, name: string)
    ensures var (r, s) := Add(fav, known, name);
            (s == Success <==> name in known.entries && name !in fav.cities) &&
            (s == Success ==> r == Favourites(fav.cities + [name], Some(name))) &&
            (s != Success ==> r == fav) &&
            (s == UnknownCity <==> name !in known.entries) &&
            (s == CityInList <==> name in known.entries && name in fav.cities)
  {
    if name in known.entries && name !in fav.cities {
      assert name in fav.cities + [name];
    }
  }

  /** `remove_city` succeeds exactly on a listed city and removes its first
      occurrence, the others keeping their order; `None` is refused with
      `no_city`, an unlisted name ends in `unknown_error`, and neither changes
      anything. */
  lemma RemoveOutcome(fav: Favourites, name: Option<string>)
    ensures var (r, s) := Remove(fav, name);
            (s == Success <==> name.Some? && name.value in fav.cities) &&
            (s == NoCity <==> name.None?) &&
            (s == UnknownError <==> name.Some? && name.value !in fav.cities) &&
            (s != Success ==> r == fav) &&
            (s == Success ==> r.cities == fav.cities[..IndexOf(fav.cities, name.value)]
                                          + fav.cities[IndexOf(fav.cities, name.value) + 1..]) &&
            (s == Success ==> |r.cities| == |fav.cities| - 1 &&
                              multiset(r.cities) + multiset{name.value} == multiset(fav.cities))
  {
    if name.Some? && name.value in fav.cities {
      var idx := IndexOf(fav.cities, name.value);
      var rest := fav.cities[..idx] + fav.cities[idx + 1..];
      assert fav.cities == fav.cities[..idx] + [name.value] + fav.cities[idx + 1..];
      if rest != [] {
        assert rest[idx % |rest|] in rest;
      }
    }
  }

  /** After a removal the current city is the one that followed the removed
      city, or the first one when the last city was removed. */
  lemma RemoveSelectsFollower(fav: Favourites, name: string)
    requires name in fav.cities && |fav.cities| >= 2
    ensures var idx := IndexOf(fav.cities, name);
            Remove(fav, Some(name)).0.current
              == Some(if idx < |fav.cities| - 1 then fav.cities[idx + 1] else fav.cities[0])
  {
    var idx := IndexOf(fav.cities, name);
    var rest := fav.cities[..idx] + fav.cities[idx + 1..];
    var n := |rest|;
    assert n == |fav.cities| - 1 && 0 < n;
    var next := if idx < n then idx else 0;
    if idx < n {
      assert idx % n == idx;
      assert rest[idx] == fav.cities[idx + 1];
    } else {
      assert idx == n;
      assert idx % n == 0;
      assert rest[0] == fav.cities[0];
    }
    assert rest[next] in rest;
    assert Remove(fav, Some(name)).0 == Favourites(rest, Some(rest[next]));
  }

  /** The three operations keep a consistent list consistent. */
  lemma OperationsKeepConsistent(fav: Favourites, known: Gazetteer, name: string, gone: Option<string>)
    requires Consistent(fav)
    ensures Consistent(Shift(fav, name).0)
    ensures Consistent(Add(fav, known, name).0)
    ensures Consistent(Remove(fav, gone).0)
  {
    AddOutcome(fav, known, name);
    if gone.Some? && gone.value in fav.cities {
      var idx := IndexOf(fav.cities, gone.value);
      var rest := fav.cities[..idx] + fav.cities[idx + 1..];
      if rest != [] {
        assert rest[idx % |rest|] in rest;
      }
    }
  }

  /** Adding and removing never put a city on the list twice. */
  lemma OperationsKeepDistinct(fav: Favourites, known: Gazetteer, name: string, gone: Option<string>)
    requires Distinct(fav.cities)
    ensures Distinct(Add(fav, known, name).0.cities)
    ensures Distinct(Remove(fav, gone).0.cities)
  {
    AddOutcome(fav, known, name);
    if gone.Some? && gone.value in fav.cities {
      var idx := IndexOf(fav.cities, gone.value);
      var rest := fav.cities[..idx] + fav.cities[idx + 1..];
      forall i, j | 0 <= i < j < |rest| ensures rest[i] != rest[j] {
        var i' := if i < idx then i else i + 1;
        var j' := if j < idx then j else j + 1;
        assert rest[i] == fav.cities[i'] && rest[j] == fav.cities[j'];
      }
      if rest != [] {
        assert rest[idx % |rest|] in rest;
      }
    }
  }

  /** Adding a city and removing it again restores the list; the first city
      (if any) becomes current. */
  lemma AddThenRemove(fav: Favourites, known: Gazetteer, name: string)
    requires Add(fav, known, name).1 == Success
    ensures var (r, _) := Add(fav, known, name);
            Remove(r, Some(name)).1 == Success &&
            Remove(r, Some(name)).0 == Favourites(fav.cities, if fav.cities == [] then None else Some(fav.cities[0]))
  {
    AddOutcome(fav, known, name);
    var cs := fav.cities + [name];
    var idx := IndexOf(cs, name);
    assert forall i :: 0 <= i < |fav.cities| ==> cs[i] == fav.cities[i];
    assert idx == |fav.cities|;
    assert cs[..idx] == fav.cities;
    assert cs[idx + 1..] == [];
    if fav.cities != [] {
      assert idx % |fav.cities| == 0;
      assert fav.cities[0] in fav.cities;
    }
  }

  // ---------------------------------------------------------------------
  // The controller
  // ---------------------------------------------------------------------

  /** The controller's state: the favourites, the current city and the
      place table. */
  class WeatherAssistant {
    var cities: seq<string>
    var currentCity: Option<string>
    var allCities: Gazetteer

    /** The favourites as a value. */
    function State(): Favourites
      reads this
    {
      Favourites(cities, currentCity)
    }

    /** Loads both files; fetching the first weather report does nothing here. */
    constructor(citiesFile: Option<string>, allCityFile: Option<string>)
      ensures Consistent(State())
      ensures allCities == LoadAll(allCityFile) && Valid(allCities)
      ensures citiesFile.None? ==> cities == []
      ensures citiesFile.Some? ==> cities == StripAll(Lines(citiesFile.value))
      ensures currentCity == if cities == [] then None else Some(cities[0])
    {
      var cs, cur := LoadCities(citiesFile);
      var all := LoadAllCities(allCityFile);
      cities, currentCity, allCities := cs, cur, all;
      new;
      if citiesFile.Some? {
        assert cs == StripAll(Lines(citiesFile.value)) by {
          StripAllAt(Lines(citiesFile.value), cs);
        }
      }
    }

    /** `save_cities`: writing the file is not modelled and errors are
        swallowed, so the state does not change. */
    method SaveCities()
    {
    }

    /** `update_weather`: fetching weather is not modelled and errors are
        swallowed, so the state does not change. */
    method UpdateWeather()
    {
    }

    /** `shift_city`. */
    method ShiftCity(name: string) returns (code: string)
      modifies this
      ensures (State(), code) == (Shift(old(State()), name).0, Code(Shift(old(State()), name).1))
      ensures allCities == old(allCities)
    {
      if name !in cities {
        return Code(CityNotInList);
      }
      currentCity := Some(name);
      SaveCities();
      UpdateWeather();
      return Code(Success);
    }

    /** `add_city`. */
    method AddCity(name: string) returns (code: string)
      modifies this
      ensures (State(), code) == (Add(old(State()), old(allCities), name).0,
                                  Code(Add(old(State()), old(allCities), name).1))
      ensures allCities == old(allCities)
    {
      if name !in allCities.entries {
        return Code(UnknownCity);
      }
      if name in cities {
        return Code(CityInList);
      }
      cities := cities + [name];
      code := ShiftCity(name);
      SaveCities();
    }

    /** `remove_city`. */
    method RemoveCity(name: Option<string>) returns (code: string)
      modifies this
      ensures (State(), code) == (Remove(old(State()), name).0, Code(Remove(old(State()), name).1))
      ensures allCities == old(allCities)
    {
      if name.None? {
        return Code(NoCity);
      }
      if name.value !in cities {
        return Code(UnknownError);
      }
      var idx := IndexOf(cities, name.value);
      cities := cities[..idx] + cities[idx + 1..];
      if |cities| == 0 {
        currentCity := None;
        UpdateWeather();
        code := Code(Success);
      } else {
        code := ShiftCity(cities[idx % |cities|]);
      }
      SaveCities();
    }
  }

  /** Each line stripped. */
  function StripAll(ls: seq<string>): (r: seq<string>)
    ensures |r| == |ls|
  {
    if ls == [] then [] else [Strip(ls[0])] + StripAll(ls[1..])
  }

  lemma {:induction false} StripAllAt(ls: seq<string>, cs: seq<string>)
    requires |cs| == |ls| && forall i :: 0 <= i < |cs| ==> cs[i] == Strip(ls[i])
    ensures cs == StripAll(ls)
  {
    if ls != [] {
      StripAllAt(ls[1..], cs[1..]);
    }
  }
}
