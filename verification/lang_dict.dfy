/**
 * The language settings of the application, reduced to what the core reads:
 * the two display languages and the titles, captions and unit suffixes of
 * the label pages.
 */
module LangDict {

  /** The two languages the application supports. */
  datatype Language = English | Chinese

  /** Unit suffixes of the "details" page, one per value. */
  function NowWeatherUnits(lang: Language): seq<string> {
    match lang
    case English => ["%", "°C", "", "", "hPa", "km", "%"]
    case Chinese => ["%", "°C", "", "", "百帕", "公里", "%"]
  }

  /** Unit suffixes of the air-quality page. */
  function AirQualityUnits(lang: Language): seq<string> {
    ["", "", "", "μg/m³", "μg/m³", "μg/m³", "μg/m³", "mg/m³", "μg/m³"]
  }

  /** Unit suffixes of the wind page. */
  function WindUnits(lang: Language): seq<string> {
    match lang
    case English => ["", "", "km/h", "°"]
    case Chinese => ["", "级", "公里/小时", "°"]
  }

  /** Unit suffixes of the sun-and-moon page. */
  function SunMoonUnits(lang: Language): seq<string> {
    ["", "", "", "", ""]
  }

  /** Title of the "details" page. */
  function NowWeatherTitle(lang: Language): string {
    match lang
    case English => "Details"
    case Chinese => "实时天气"
  }

  /** Captions of the "details" page, one per value. */
  function NowWeatherSubtitles(lang: Language): seq<string> {
    match lang
    case English => ["Humidity", "Feels Like", "Wind Direction", "Wind Scale", "Pressure", "Visibility", "Cloud"]
    case Chinese => ["湿度", "体感温度", "风向", "风力等级", "气压", "能见度", "云量"]
  }

  /** Title of the air-quality page. */
  function AirQualityTitle(lang: Language): string {
    match lang
    case English => "Air Quality"
    case Chinese => "空气质量"
  }

  /** Captions of the air-quality page. */
  function AirQualitySubtitles(lang: Language): seq<string> {
    match lang
    case English => ["AQI", "Catagory", "Primary Pollutant", "PM10", "PM2.5", "NO2", "SO2", "CO", "O3"]
    case Chinese => ["AQI", "级别", "首要污染物", "PM10", "PM2.5", "NO2", "SO2", "CO", "O3"]
  }

  /** Title of the wind page. */
  function WindTitle(lang: Language): string {
    match lang
    case English => "Wind"
    case Chinese => "风力风向"
  }

  /** Captions of the wind page. */
  function WindSubtitles(lang: Language): seq<string> {
    match lang
    case English => ["Wind Direction", "Wind Scale", "Wind Speed", "Degree"]
    case Chinese => ["风向", "风力等级", "风速", "风向角度"]
  }

  /** Title of the sun-and-moon page. */
  function SunMoonTitle(lang: Language): string {
    match lang
    case English => "Sun & Moon"
    case Chinese => "日月信息"
  }

  /** Captions of the sun-and-moon page. */
  function SunMoonSubtitles(lang: Language): seq<string> {
    match lang
    case English => ["Sunrise", "Sunset", "Moonrise", "Moonset", "Moon Phase"]
    case Chinese => ["日出", "日落", "月出", "月落", "月相"]
  }
}
