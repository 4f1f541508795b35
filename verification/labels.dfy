/**
 * The label-table pages of the display ("details", air quality, wind, sun
 * and moon): each shows one value label per data key, and `update(**kwargs)`
 * first resets every value label to the placeholder text and then writes
 * `kwargs[key] + units[i]` key by key. A key missing from the arguments
 * raises `KeyError` at that key, so the labels before it keep their new
 * text and the rest keep the placeholder.
 */
module Labels {
  import opened LangDict

  /** The four kinds of label-table page. */
  datatype PageKind = NowWeather | Air | Wind | SunMoon

  /** The data keys of a page, in the order of its labels. */
  function Keys(kind: PageKind): (ks: seq<string>)
    ensures forall i, j :: 0 <= i < j < |ks| ==> ks[i] != ks[j]
  {
    match kind
    case NowWeather => ["humidity", "feelsLike", "windDir", "windScale", "pressure", "vis", "cloud"]
    case Air => ["aqi", "category", "primary", "pm10", "pm2p5", "no2", "so2", "co", "o3"]
    case Wind => ["windDir", "windScale", "windSpeed", "wind360"]
    case SunMoon => ["sunrise", "sunset", "moonrise", "moonset", "moonPhase"]
  }

  /** The page title in a language. */
  function Title(kind: PageKind, lang: Language): string {
    match kind
    case NowWeather => NowWeatherTitle(lang)
    case Air => AirQualityTitle(lang)
    case Wind => WindTitle(lang)
    case SunMoon => SunMoonTitle(lang)
  }

  /** The captions above the value labels, one per key. */
  function Subtitles(kind: PageKind, lang: Language): (r: seq<string>)
    ensures |r| == |Keys(kind)|
  {
    match kind
    case NowWeather => NowWeatherSubtitles(lang)
    case Air => AirQualitySubtitles(lang)
    case Wind => WindSubtitles(lang)
    case SunMoon => SunMoonSubtitles(lang)
  }

  /** The unit suffixes, one per key. */
  function Units(kind: PageKind, lang: Language): (r: seq<string>)
    ensures |r| == |Keys(kind)|
  {
    match kind
    case NowWeather => NowWeatherUnits(lang)
    case Air => AirQualityUnits(lang)
    case Wind => WindUnits(lang)
    case SunMoon => SunMoonUnits(lang)
  }

  /** Every label showing the placeholder text. */
  function Blank(n: nat, occ: string): (r: seq<string>)
    ensures |r| == n && forall i :: 0 <= i < n ==> r[i] == occ
  {
    seq(n, _ => occ)
  }

  /** The position of the first key the arguments lack, or the number of
      keys when none is missing: the key at which `update` stops. */
  function FirstMissing(keys: seq<string>, kwargs: map<string, string>): (r: nat)
    ensures r <= |keys|
    ensures forall j :: 0 <= j < r ==> keys[j] in kwargs
    ensures r < |keys| ==> keys[r] !in kwargs
  {
    if keys == [] || keys[0] !in kwargs then 0
    else 1 + FirstMissing(keys[1..], kwargs)
  }

  /** The labels when the first `m` keys have been written: value plus unit
      for those, the placeholder for the rest. */
  function Filled(keys: seq<string>, units: seq<string>, kwargs: map<string, string>, occ: string, m: nat): seq<string>
    requires m <= |keys| <= |units|
    requires forall j :: 0 <= j < m ==> keys[j] in kwargs
  {
    seq(|keys|, j requires 0 <= j < |keys| => if j < m then kwargs[keys[j]] + units[j] else occ)
  }

  /** The labels after `update(**kwargs)`, whether it finishes or stops at
      a missing key. */
  function Shown(keys: seq<string>, units: seq<string>, kwargs: map<string, string>, occ: string): seq<string>
    requires |keys| <= |units|
  {
    Filled(keys, units, kwargs, occ, FirstMissing(keys, kwargs))
  }

  /** Writing key `m` takes the labels from `m` written keys to `m + 1`. */
  lemma FilledStep(keys: seq<string>, units: seq<string>, kwargs: map<string, string>, occ: string, m: nat)
    requires m < |keys| <= |units|
    requires forall j :: 0 <= j <= m ==> keys[j] in kwargs
    ensures Filled(keys, units, kwargs, occ, m)[m := kwargs[keys[m]] + units[m]]
         == Filled(keys, units, kwargs, occ, m + 1)
  {
  }

  /** `update` stops at `m` when the keys before `m` have values and key `m`
      does not (or there is no key `m`). */
  lemma FirstMissingAt(keys: seq<string>, kwargs: map<string, string>, m: nat)
    requires m <= |keys|
    requires forall j :: 0 <= j < m ==> keys[j] in kwargs
    requires m < |keys| ==> keys[m] !in kwargs
    ensures FirstMissing(keys, kwargs) == m
  {
  }

  /** The update goes through exactly when every key has a value, and then
      every label shows its value followed by its unit. */
  lemma CompleteUpdate(keys: seq<string>, units: seq<string>, kwargs: map<string, string>, occ: string)
    requires |keys| <= |units|
    ensures FirstMissing(keys, kwargs) == |keys| <==> forall k :: k in keys ==> k in kwargs
    ensures (forall k :: k in keys ==> k in kwargs) ==>
              forall i :: 0 <= i < |keys| ==> Shown(keys, units, kwargs, occ)[i] == kwargs[keys[i]] + units[i]
  {
    var m := FirstMissing(keys, kwargs);
    if m < |keys| {
      assert keys[m] in keys;
    }
  }

  /** A stopped update leaves the label of a missing key, and every label
      after it, at the placeholder. */
  lemma StoppedUpdate(keys: seq<string>, units: seq<string>, kwargs: map<string, string>, occ: string, i: nat)
    requires |keys| <= |units| && i < |keys| && keys[i] !in kwargs
    ensures var r := Shown(keys, units, kwargs, occ);
            forall j :: i <= j < |keys| ==> r[j] == occ
  {
  }

  /** Values for other names than the page's keys make no difference. */
  lemma ExtraArgumentsIgnored(keys: seq<string>, units: seq<string>, kw1: map<string, string>, kw2: map<string, string>, occ: string)
    requires |keys| <= |units|
    requires forall k :: k in keys ==> (k in kw1 <==> k in kw2) && (k in kw1 ==> kw1[k] == kw2[k])
    ensures Shown(keys, units, kw1, occ) == Shown(keys, units, kw2, occ)
  {
    FirstMissingAgrees(keys, kw1, kw2);
  }

  /** Arguments that agree on the keys stop at the same key. */
  lemma {:induction false} FirstMissingAgrees(keys: seq<string>, kw1: map<string, string>, kw2: map<string, string>)
    requires forall k :: k in keys ==> (k in kw1 <==> k in kw2)
    ensures FirstMissing(keys, kw1) == FirstMissing(keys, kw2)
  {
    if keys != [] && keys[0] in kw1 {
      assert forall k :: k in keys[1..] ==> k in keys;
      FirstMissingAgrees(keys[1..], kw1, kw2);
    }
  }

  /** Supplying more values never makes the update stop earlier. */
  lemma {:induction false} MoreArgumentsWriteMore(keys: seq<string>, kw1: map<string, string>, kw2: map<string, string>)
    requires kw1.Keys <= kw2.Keys
    ensures FirstMissing(keys, kw1) <= FirstMissing(keys, kw2)
  {
    if keys != [] && keys[0] in kw1 {
      MoreArgumentsWriteMore(keys[1..], kw1, kw2);
    }
  }
}
