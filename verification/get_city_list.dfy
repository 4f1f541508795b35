/**
 * The offline builder of the place table: two city lists (one with Chinese
 * names, one with English names, each as `parse_xml` returns it) are joined
 * on the city, state and country codes, and the joined records are written
 * as a six-column CSV text, which the assistant's loader reads back.
 */
module GetCityList {
  import opened Wrappers
  import opened Text
  import opened Places
  import WA = WeatherAssistant

  /** One record of `parse_xml`'s output. */
  datatype CityRecord = CityRecord(countryName: string, countryCode: string,
                                   stateName: string, stateCode: string,
                                   cityName: string, cityCode: string)

  /** One record of `match_city_names`' output. */
  datatype CityNames = CityNames(chineseName: string, englishName: string,
                                 stateName: string, stateNameEn: string,
                                 countryName: string, countryNameEn: string)

  /** The join condition: equal city, state and country codes. */
  predicate SameCity(c1: CityRecord, c2: CityRecord) {
    c1.cityCode == c2.cityCode && c1.stateCode == c2.stateCode && c1.countryCode == c2.countryCode
  }

  /** The joined record: Chinese names from the first city, English names
      from the second. */
  function Merge(c1: CityRecord, c2: CityRecord): CityNames {
    CityNames(c1.cityName, c2.cityName, c1.stateName, c2.stateName, c1.countryName, c2.countryName)
  }

  /** The records one city of the first list contributes, in the order of
      the second list. */
  function MatchOne(c1: CityRecord, ys: seq<CityRecord>): (r: seq<CityNames>)
    ensures |r| <= |ys|
  {
    if ys == [] then []
    else
      var c2 := ys[|ys| - 1];
      MatchOne(c1, ys[..|ys| - 1]) + (if SameCity(c1, c2) then [Merge(c1, c2)] else [])
  }

  /** `match_city_names(xml_data1, xml_data2)`. */
  function Join(xs: seq<CityRecord>, ys: seq<CityRecord>): (r: seq<CityNames>)
    ensures |r| <= |xs| * |ys|
  {
    if xs == [] then []
    else
      var r := Join(xs[..|xs| - 1], ys) + MatchOne(xs[|xs| - 1], ys);
      assert (|xs| - 1) * |ys| + |ys| == |xs| * |ys|;
      r
  }

  /** `match_city_names` as written: the nested loops appending to a list. */
  method MatchCityNames(xmlData1: seq<CityRecord>, xmlData2: seq<CityRecord>) returns (cityNames: seq<CityNames>)
    ensures cityNames == Join(xmlData1, xmlData2)
  {
    cityNames := [];
    var i := 0;
    while i < |xmlData1|
      invariant 0 <= i <= |xmlData1|
      invariant cityNames == Join(xmlData1[..i], xmlData2)
    {
      var city1 := xmlData1[i];
      var j := 0;
      while j < |xmlData2|
        invariant 0 <= j <= |xmlData2|
        invariant cityNames == Join(xmlData1[..i], xmlData2) + MatchOne(city1, xmlData2[..j])
      {
        var city2 := xmlData2[j];
        if SameCity(city1, city2) {
          cityNames := cityNames + [Merge(city1, city2)];
        }
        assert xmlData2[..j + 1][..j] == xmlData2[..j];
        j := j + 1;
      }
      assert xmlData2[..j] == xmlData2;
      assert xmlData1[..i + 1][..i] == xmlData1[..i];
      i := i + 1;
    }
    assert xmlData1[..i] == xmlData1;
  }

  /** Every record `MatchOne` produces merges the city with a matching one. */
  lemma {:induction false} MatchOneSound(c1: CityRecord, ys: seq<CityRecord>, m: CityNames)
    requires m in MatchOne(c1, ys)
    ensures exists j :: 0 <= j < |ys| && SameCity(c1, ys[j]) && m == Merge(c1, ys[j])
  {
    var init := ys[..|ys| - 1];
    if m in MatchOne(c1, init) {
      MatchOneSound(c1, init, m);
      var j :| 0 <= j < |init| && SameCity(c1, init[j]) && m == Merge(c1, init[j]);
      assert ys[j] == init[j];
    } else {
      assert SameCity(c1, ys[|ys| - 1]) && m == Merge(c1, ys[|ys| - 1]);
    }
  }

  /** Every matching city of the second list yields its merge. */
  lemma {:induction false} MatchOneComplete(c1: CityRecord, ys: seq<CityRecord>, j: nat)
    requires j < |ys| && SameCity(c1, ys[j])
    ensures Merge(c1, ys[j]) in MatchOne(c1, ys)
  {
    var init := ys[..|ys| - 1];
    if j < |init| {
      assert init[j] == ys[j];
      MatchOneComplete(c1, init, j);
    }
  }

  /** Every output record merges a pair of cities with equal codes. */
  lemma {:induction false} JoinSound(xs: seq<CityRecord>, ys: seq<CityRecord>, m: CityNames)
    requires m in Join(xs, ys)
    ensures exists i, j :: 0 <= i < |xs| && 0 <= j < |ys| && SameCity(xs[i], ys[j]) && m == Merge(xs[i], ys[j])
  {
    var init := xs[..|xs| - 1];
    var last := xs[|xs| - 1];
    if m in Join(init, ys) {
      JoinSound(init, ys, m);
      var i, j :| 0 <= i < |init| && 0 <= j < |ys| && SameCity(init[i], ys[j]) && m == Merge(init[i], ys[j]);
      assert xs[i] == init[i];
    } else {
      MatchOneSound(last, ys, m);
      var j :| 0 <= j < |ys| && SameCity(last, ys[j]) && m == Merge(last, ys[j]);
      assert xs[|xs| - 1] == last;
    }
  }

  /** Every pair of cities with equal codes yields an output record. */
  lemma {:induction false} JoinComplete(xs: seq<CityRecord>, ys: seq<CityRecord>, i: nat, j: nat)
    requires i < |xs| && j < |ys| && SameCity(xs[i], ys[j])
    ensures Merge(xs[i], ys[j]) in Join(xs, ys)
  {
    var init := xs[..|xs| - 1];
    if i < |init| {
      assert init[i] == xs[i];
      JoinComplete(init, ys, i, j);
    } else {
      MatchOneComplete(xs[i], ys, j);
    }
  }

  /** The output holds a record for each pair of cities with equal codes,
      and nothing else. */
  lemma JoinMembers(xs: seq<CityRecord>, ys: seq<CityRecord>, m: CityNames)
    ensures m in Join(xs, ys) <==>
            exists i, j :: 0 <= i < |xs| && 0 <= j < |ys| && SameCity(xs[i], ys[j]) && m == Merge(xs[i], ys[j])
  {
    if m in Join(xs, ys) {
      JoinSound(xs, ys, m);
    }
    if exists i, j :: 0 <= i < |xs| && 0 <= j < |ys| && SameCity(xs[i], ys[j]) && m == Merge(xs[i], ys[j]) {
      var i, j :| 0 <= i < |xs| && 0 <= j < |ys| && SameCity(xs[i], ys[j]) && m == Merge(xs[i], ys[j]);
      JoinComplete(xs, ys, i, j);
    }
  }

  /** An empty list on either side gives an empty output. */
  lemma {:induction false} JoinEmpty(xs: seq<CityRecord>, ys: seq<CityRecord>)
    requires xs == [] || ys == []
    ensures Join(xs, ys) == []
  {
    if xs != [] {
      JoinEmpty(xs[..|xs| - 1], ys);
    }
  }

  /** The output follows the first list's order: the records of a longer
      first list are those of its two parts, one after the other. */
  lemma {:induction false} JoinAppend(xs1: seq<CityRecord>, xs2: seq<CityRecord>, ys: seq<CityRecord>)
    ensures Join(xs1 + xs2, ys) == Join(xs1, ys) + Join(xs2, ys)
  {
    if xs2 == [] {
      assert xs1 + xs2 == xs1;
    } else {
      var init, last := xs2[..|xs2| - 1], xs2[|xs2| - 1];
      assert (xs1 + xs2)[..|xs1 + xs2| - 1] == xs1 + init;
      assert (xs1 + xs2)[|xs1 + xs2| - 1] == last;
      assert Join(xs1 + xs2, ys) == Join(xs1 + init, ys) + MatchOne(last, ys);
      assert Join(xs2, ys) == Join(init, ys) + MatchOne(last, ys);
      JoinAppend(xs1, init, ys);
    }
  }

  /** Within one city of the first list the records follow the second
      list's order: a longer second list gives the records of its two parts,
      one after the other. */
  lemma {:induction false} MatchOneAppend(c1: CityRecord, ys1: seq<CityRecord>, ys2: seq<CityRecord>)
    ensures MatchOne(c1, ys1 + ys2) == MatchOne(c1, ys1) + MatchOne(c1, ys2)
  {
    if ys2 == [] {
      assert ys1 + ys2 == ys1;
    } else {
      var init := ys2[..|ys2| - 1];
      assert (ys1 + ys2)[..|ys1 + ys2| - 1] == ys1 + init;
      assert (ys1 + ys2)[|ys1 + ys2| - 1] == ys2[|ys2| - 1];
      MatchOneAppend(c1, ys1, init);
    }
  }

  /** One city of the second list contributes one merged record when its
      codes match and none otherwise; with `MatchOneAppend` this pins the
      output down to one record per matching occurrence, duplicates
      included. */
  lemma MatchOneSingle(c1: CityRecord, c2: CityRecord)
    ensures MatchOne(c1, [c2]) == if SameCity(c1, c2) then [Merge(c1, c2)] else []
  {
    assert [c2][..0] == [];
  }

  /** One city of the first list contributes exactly its `MatchOne`
      records. */
  lemma JoinSingle(c1: CityRecord, ys: seq<CityRecord>)
    ensures Join([c1], ys) == MatchOne(c1, ys)
  {
    assert [c1][..0] == [];
  }

  // ---------------------------------------------------------------------
  // The CSV text
  // ---------------------------------------------------------------------

  /** The column names of the file, one per field. */
  const HeaderNames := CityNames("ChineseName", "EnglishName", "StateName", "StateNameEn", "CountryName", "CountryNameEn")

  /** The header line, `"ChineseName,EnglishName,StateName,StateNameEn,CountryName,CountryNameEn\n"`:
      the column names, written the way a row is written. */
  const Header: string := Row(HeaderNames)

  /** The six fields of a record, in the order they are written. */
  function SixFields(m: CityNames): (f: seq<string>)
    ensures |f| == 6
  {
    [m.chineseName, m.englishName, m.stateName, m.stateNameEn, m.countryName, m.countryNameEn]
  }

  /** The line written for a record: the six fields separated by commas and
      ended by a newline. */
  function Row(m: CityNames): string {
    m.chineseName + "," + m.englishName + "," + m.stateName + "," + m.stateNameEn + ","
      + m.countryName + "," + m.countryNameEn + "\n"
  }

  /** The lines written for the records, in order. */
  function Rows(ms: seq<CityNames>): (r: seq<string>)
    ensures |r| == |ms| && forall i :: 0 <= i < |ms| ==> r[i] == Row(ms[i])
  {
    seq(|ms|, i requires 0 <= i < |ms| => Row(ms[i]))
  }

  /** The whole text of the CSV file. */
  function CsvText(ms: seq<CityNames>): string {
    Concat([Header] + Rows(ms))
  }

  /** The writing loop: the header, then one line per record. */
  method WriteCsv(cityNames: seq<CityNames>) returns (text: string)
    ensures text == CsvText(cityNames)
  {
    text := Header;
    var i := 0;
    while i < |cityNames|
      invariant 0 <= i <= |cityNames|
      invariant text == Concat([Header] + Rows(cityNames[..i]))
    {
      ConcatSnoc([Header] + Rows(cityNames[..i]), Row(cityNames[i]));
      assert [Header] + Rows(cityNames[..i + 1]) == [Header] + Rows(cityNames[..i]) + [Row(cityNames[i])];
      text := text + Row(cityNames[i]);
      i := i + 1;
    }
    assert cityNames[..i] == cityNames;
  }

  /** Appending a line appends its text. */
  lemma {:induction false} ConcatSnoc(ls: seq<string>, l: string)
    ensures Concat(ls + [l]) == Concat(ls) + l
  {
    if ls == [] {
      assert [] + [l] == [l];
    } else {
      assert (ls + [l])[1..] == ls[1..] + [l];
      ConcatSnoc(ls[1..], l);
    }
  }

  /** A record that survives the round trip: no field holds a comma, a
      newline or a carriage return, the first field does not start with
      whitespace and the last does not end with it. */
  predicate CsvSafe(m: CityNames) {
    (forall k :: 0 <= k < 6 ==> ',' !in SixFields(m)[k] && '\n' !in SixFields(m)[k] && '\r' !in SixFields(m)[k]) &&
    (m.chineseName == "" || !IsSpace(m.chineseName[0])) &&
    (m.countryNameEn == "" || !IsSpace(m.countryNameEn[|m.countryNameEn| - 1]))
  }

  /** A written line is the six fields joined by commas, plus a newline. */
  lemma RowIsJoin(m: CityNames)
    ensures Row(m) == Join6(SixFields(m)) + "\n"
  {
  }

  /** Six fields joined by commas, written out. */
  function Join6(f: seq<string>): string
    requires |f| == 6
  {
    f[0] + "," + f[1] + "," + f[2] + "," + f[3] + "," + f[4] + "," + f[5]
  }

  /** `Join6` is Python's `','.join` of the six fields. */
  lemma Join6IsJoin(f: seq<string>)
    requires |f| == 6
    ensures Join6(f) == Text.Join(f, ',')
  {
    assert f[1..][1..][1..][1..][1..] == [f[5]];
    assert Text.Join(f[1..][1..][1..][1..], ',') == f[4] + [','] + f[5];
    assert Text.Join(f[1..][1..][1..], ',') == f[3] + [','] + (f[4] + [','] + f[5]);
    assert Text.Join(f[1..][1..], ',') == f[2] + [','] + (f[3] + [','] + (f[4] + [','] + f[5]));
    assert Text.Join(f[1..], ',') == f[1] + [','] + (f[2] + [','] + (f[3] + [','] + (f[4] + [','] + f[5])));
  }

  /** A written line, read back by the loader, gives the six fields again. */
  lemma RowRoundTrip(m: CityNames)
    requires CsvSafe(m)
    ensures WA.Fields(Row(m)) == SixFields(m)
  {
    var f := SixFields(m);
    var body := Join6(f);
    Join6IsJoin(f);
    assert body[0] == if m.chineseName == "" then ',' else m.chineseName[0];
    assert body[|body| - 1] == if m.countryNameEn == "" then ',' else m.countryNameEn[|m.countryNameEn| - 1];
    StripTrailing(body, "\n");
    assert Row(m) == body + "\n";
    SplitJoin(f, ',');
  }

  /** A written line is one line: it ends with its only newline. */
  lemma RowIsLine(m: CityNames)
    requires forall k :: 0 <= k < 6 ==> '\n' !in SixFields(m)[k]
    ensures Terminated(Row(m))
  {
    var f := SixFields(m);
    assert '\n' !in f[0] && '\n' !in f[1] && '\n' !in f[2];
    assert '\n' !in f[3] && '\n' !in f[4] && '\n' !in f[5];
    assert Row(m)[..|Row(m)| - 1] == Join6(f);
  }

  /** The header is one line. */
  lemma HeaderIsLine()
    ensures Terminated(Header)
  {
    var f := SixFields(HeaderNames);
    assert '\n' !in f[0] && '\n' !in f[1] && '\n' !in f[2];
    assert '\n' !in f[3] && '\n' !in f[4] && '\n' !in f[5];
    RowIsLine(HeaderNames);
  }

  /** Reading the written text line by line gives the header and then the
      rows, as written. */
  lemma CsvLines(ms: seq<CityNames>)
    requires forall i :: 0 <= i < |ms| ==> CsvSafe(ms[i])
    ensures Lines(CsvText(ms)) == [Header] + Rows(ms)
  {
    var ls := [Header] + Rows(ms);
    HeaderIsLine();
    forall i | 0 <= i < |ls| ensures Terminated(ls[i]) {
      if i > 0 {
        assert ls[i] == Row(ms[i - 1]);
        RowIsLine(ms[i - 1]);
      }
    }
    LinesOfConcat(ls);
  }

  /** The data rows of a written file as the loader sees them: every one
      splits back into its record's six fields, and the load goes through. */
  lemma CsvRowsLoad(ms: seq<CityNames>)
    requires forall i :: 0 <= i < |ms| ==> CsvSafe(ms[i])
    ensures var rows := Rows(ms);
            (forall i :: 0 <= i < |rows| ==> WA.Fields(rows[i]) == SixFields(ms[i])) &&
            WA.AllRowsComplete(rows) &&
            WA.LoadRows(WA.Start, rows).Some? &&
            WA.LoadAll(Some(CsvText(ms))) == WA.LoadRows(WA.Start, rows).value.g
  {
    var rows := Rows(ms);
    CsvLines(ms);
    assert ([Header] + rows)[1..] == rows;
    forall i | 0 <= i < |rows| ensures WA.Fields(rows[i]) == SixFields(ms[i]) {
      RowRoundTrip(ms[i]);
    }
    WA.CompleteRowsLoad(WA.Start, rows);
  }

  /** The loader reads a written file completely: it keeps every record's
      English name as a key. */
  lemma CsvLoadsEveryName(ms: seq<CityNames>)
    requires forall i :: 0 <= i < |ms| ==> CsvSafe(ms[i])
    ensures forall i :: 0 <= i < |ms| ==> ms[i].englishName in WA.LoadAll(Some(CsvText(ms))).entries
  {
    var rows := Rows(ms);
    CsvRowsLoad(ms);
    WA.CompleteRowsLoad(WA.Start, rows);
    forall i | 0 <= i < |ms| ensures ms[i].englishName in WA.LoadAll(Some(CsvText(ms))).entries {
      assert WA.Fields(rows[i])[1] == ms[i].englishName;
    }
  }

  /** The last record written is what the loader stores under its English
      name: the city record made of its six fields. */
  lemma CsvLoadsLastRecord(ms: seq<CityNames>)
    requires ms != [] && forall i :: 0 <= i < |ms| ==> CsvSafe(ms[i])
    ensures var g := WA.LoadAll(Some(CsvText(ms)));
            var m := ms[|ms| - 1];
            m.englishName in g.entries &&
            g.entries[m.englishName]
              == Place(Names(m.chineseName, Some(m.stateName), m.countryName),
                       Names(m.englishName, Some(m.stateNameEn), m.countryNameEn), City)
  {
    var rows := Rows(ms);
    CsvRowsLoad(ms);
    WA.LastRowWins(WA.Start, rows);
  }
}
