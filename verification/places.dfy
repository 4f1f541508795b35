/**
 * The place table that the assistant loads from its CSV file and that the
 * autocomplete searches: a Python `dict` from English name to place record,
 * kept here as its keys in insertion order together with the mapping, so
 * that iteration order is part of the value.
 */
module Places {
  import opened Wrappers

  /** The `'type'` field of a record: `'city'` or `'state'`. */
  datatype Kind = City | State

  /** One language's half of a record (`'zh'` or `'en'`): `'Name'`,
      `'StateName'` (absent from a state's record) and `'CountryName'`. */
  datatype Names = Names(name: string, stateName: Option<string>, countryName: string)

  /** A place record `{'zh': ..., 'en': ..., 'type': ...}`. */
  datatype Place = Place(zh: Names, en: Names, kind: Kind)

  /** An insertion-ordered dict from English name to place. */
  datatype Gazetteer = Gazetteer(keys: seq<string>, entries: map<string, Place>)

  /** What every Python dict satisfies: each key occurs once in the order,
      and the ordered keys are exactly the mapped ones. */
  predicate Valid(g: Gazetteer) {
    (forall i, j :: 0 <= i < j < |g.keys| ==> g.keys[i] != g.keys[j]) &&
    g.entries.Keys == set k | k in g.keys
  }

  /** The empty dict `{}`. */
  const Empty: Gazetteer := Gazetteer([], map[])

  /** `d[k] = v`: a new key goes to the end of the order, an existing key
      keeps its position and only its value changes. */
  function Put(g: Gazetteer, k: string, v: Place): (r: Gazetteer)
    ensures Valid(g) ==> Valid(r)
    ensures r.entries == g.entries[k := v]
    ensures k in g.entries ==> r.keys == g.keys
    ensures k !in g.entries ==> r.keys == g.keys + [k]
  {
    if k in g.entries then Gazetteer(g.keys, g.entries[k := v])
    else Gazetteer(g.keys + [k], g.entries[k := v])
  }
}
