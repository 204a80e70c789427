/** The pure parts of the weather lookups (src/models/weather.rs): the
    OpenWeatherMap icon code to Discord emoji table, the choice of place from
    a Nominatim answer, and the emoji of a weather answer. */
module Weather {
  import opened Wrappers

  /** The icon codes OpenWeatherMap sends and the table covers; any other
      code makes the table panic. */
  const KnownIcons: set<string> := {
    "01d", "01n", "02d", "02n", "03d", "03n", "04d", "04n",
    "09d", "09n", "10d", "10n", "11d", "11n", "13d", "13n", "50d", "50n"
  }

  predicate KnownIcon(icon: string) {
    icon in KnownIcons
  }

  /** A Discord shortcode `:name:`: a non-empty name without colons between
      two colons. */
  predicate IsShortcode(s: string) {
    && |s| >= 3
    && s[0] == ':'
    && s[|s| - 1] == ':'
    && forall i :: 0 < i < |s| - 1 ==> s[i] != ':'
  }

  /** The table read backwards: the icon codes each emoji stands for. */
  function IconsFor(emoji: string): set<string> {
    match emoji
    case ":sunny:" => {"01d"}
    case ":crescent_moon:" => {"01n"}
    case ":white_sun_cloud:" => {"02d"}
    case ":cloud:" => {"02n", "03d", "03n", "04d", "04n"}
    case ":cloud_rain:" => {"09d", "09n", "10d", "10n"}
    case ":cloud_lightning:" => {"11d", "11n"}
    case ":cloud_snow:" => {"13d", "13n"}
    case ":fog:" => {"50d", "50n"}
    case _ => {}
  }

  /** `emoji_for_icon` as written: the fog codes map to ":fog", which lacks
      its closing colon, so Discord shows the text rather than the emoji. */
  function EmojiForIconAsWritten(icon: string): (e: string)
    requires KnownIcon(icon)
    ensures icon !in {"50d", "50n"} ==> e == EmojiForIcon(icon)
    ensures icon in {"50d", "50n"} ==> e == ":fog" && !IsShortcode(e)
  {
    match icon
    case "01d" => ":sunny:"
    case "01n" => ":crescent_moon:"
    case "02d" => ":white_sun_cloud:"
    case "02n" | "03d" | "03n" | "04d" | "04n" => ":cloud:"
    case "09d" | "09n" | "10d" | "10n" => ":cloud_rain:"
    case "11d" | "11n" => ":cloud_lightning:"
    case "13d" | "13n" => ":cloud_snow:"
    case _ => ":fog"
  }

  /** `emoji_for_icon` with the fog shortcode closed: every known icon maps
      to a shortcode, and to the one emoji whose icons include it. */
  function EmojiForIcon(icon: string): (e: string)
    requires KnownIcon(icon)
    ensures IsShortcode(e)
    ensures icon in IconsFor(e)
  {
    match icon
    case "01d" => ":sunny:"
    case "01n" => ":crescent_moon:"
    case "02d" => ":white_sun_cloud:"
    case "02n" | "03d" | "03n" | "04d" | "04n" => ":cloud:"
    case "09d" | "09n" | "10d" | "10n" => ":cloud_rain:"
    case "11d" | "11n" => ":cloud_lightning:"
    case "13d" | "13n" => ":cloud_snow:"
    case _ => ":fog:"
  }

  /** The fog codes as written give a string that is not a shortcode. */
  lemma FogIsNotAShortcode()
    ensures EmojiForIconAsWritten("50d") == ":fog" && !IsShortcode(":fog")
    ensures EmojiForIcon("50d") == ":fog:" && IsShortcode(":fog:")
  {
    assert KnownIcon("50d");
    assert ":fog"[3] == 'g';
  }

  /** The backwards table is exact: an icon belongs to an emoji's icons iff
      the table maps it to that emoji, and only known icons belong to any. */
  lemma IconsForInverts(icon: string, emoji: string)
    ensures icon in IconsFor(emoji) ==> KnownIcon(icon)
    ensures KnownIcon(icon) ==> (icon in IconsFor(emoji) <==> EmojiForIcon(icon) == emoji)
  {
  }

  /** Apart from clear and few-clouds skies, day and night share an emoji. */
  lemma DayAndNightAgree(code: string)
    requires code in {"03", "04", "09", "10", "11", "13", "50"}
    ensures KnownIcon(code + "d") && KnownIcon(code + "n")
    ensures EmojiForIcon(code + "d") == EmojiForIcon(code + "n")
  {
    var d, n := code + "d", code + "n";
    assert |code| == 2 && d == [code[0], code[1], 'd'] && n == [code[0], code[1], 'n'];
  }

  /** A place in a Nominatim answer. */
  datatype NominatimElement = NominatimElement(lat: string, lon: string, displayName: string)

  /** The place `NominatimClient::search` reports: the popped last element
      of the answer as `(display_name, lat, lon)`; with `limit=1` that is
      also the first. */
  function SelectPlace(payload: seq<NominatimElement>): (r: Option<(string, string, string)>)
    ensures r.None? <==> |payload| == 0
    ensures r.Some? ==> exists e :: e in payload && r.value == (e.displayName, e.lat, e.lon)
    ensures |payload| == 1 ==>
              r == Some((payload[0].displayName, payload[0].lat, payload[0].lon))
  {
    if |payload| == 0 then None
    else
      var e := payload[|payload| - 1];
      Some((e.displayName, e.lat, e.lon))
  }

  /** One entry of the `weather` list of an OpenWeatherMap answer. */
  datatype Conditions = Conditions(main: string, description: string, icon: string)

  /** The emoji `OpenWeatherMapClient::get` attaches: the first entry's
      icon looked up in the table as written; an empty list or an unknown
      icon panics. Every icon but fog gets its shortcode; fog gets ":fog". */
  function WeatherEmoji(weather: seq<Conditions>): (e: string)
    requires |weather| > 0 && KnownIcon(weather[0].icon)
    ensures weather[0].icon !in {"50d", "50n"} ==> IsShortcode(e) && weather[0].icon in IconsFor(e)
    ensures weather[0].icon in {"50d", "50n"} ==> e == ":fog" && !IsShortcode(e)
  {
    EmojiForIconAsWritten(weather[0].icon)
  }

  /** `WeatherEmoji` over the corrected table: a shortcode for every known
      icon. */
  function WeatherEmojiCorrected(weather: seq<Conditions>): (e: string)
    requires |weather| > 0 && KnownIcon(weather[0].icon)
    ensures IsShortcode(e)
    ensures weather[0].icon in IconsFor(e)
  {
    EmojiForIcon(weather[0].icon)
  }

  /** A misty answer gets the unclosed ":fog" as written, and ":fog:" once
      corrected. */
  lemma MistShowsText()
    ensures WeatherEmoji([Conditions("Mist", "mist", "50d")]) == ":fog"
    ensures WeatherEmojiCorrected([Conditions("Mist", "mist", "50d")]) == ":fog:"
  {
  }
}
