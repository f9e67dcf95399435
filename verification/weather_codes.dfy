/**
 * The precipitation-type (PTY) code table `int_to_weather`: a closed map from
 * the codes "0".."7" to display labels, with code "4" deliberately absent.
 * A lookup outside the table is a `KeyError`, modelled as `None`.
 */
module WeatherCodes {
  import opened Wrappers

  const Clear := "맑음"                  // no precipitation
  const Rain := "비"
  const RainSnow := "비/눈"
  const Snow := "눈"
  const Raindrops := "빗방울"
  const RaindropsSnowFlurry := "빗방울눈날림"
  const SnowFlurry := "눈날림"

  const IntToWeather: map<string, string> := map[
    "0" := Clear,
    "1" := Rain,
    "2" := RainSnow,
    "3" := Snow,
    "5" := Raindrops,
    "6" := RaindropsSnowFlurry,
    "7" := SnowFlurry
  ]

  /** The codes the table defines. */
  const Codes: set<string> := {"0", "1", "2", "3", "5", "6", "7"}

  /** The seven display labels. */
  const Labels: set<string> := {Clear, Rain, RainSnow, Snow, Raindrops, RaindropsSnowFlurry, SnowFlurry}

  /**
   * `int_to_weather[code]`, where `code` may be `None` (no PTY item was seen).
   * Succeeds exactly on the table's codes and never substitutes a default.
   */
  function Lookup(code: Option<string>): (sky: Option<string>)
    ensures sky.Some? <==> code.Some? && code.value in Codes
    ensures sky.Some? ==> sky.value in Labels
  {
    if code.Some? && code.value in IntToWeather then Some(IntToWeather[code.value]) else None
  }

  /** The table is defined on exactly the seven codes; code "4" is not one of them. */
  lemma TableDomain()
    ensures IntToWeather.Keys == Codes && "4" !in IntToWeather && Lookup(Some("4")) == None
  {
  }

  /** Every code translates to one of the labels, and every label is the translation of a code. */
  lemma TableOnto(name: string)
    ensures name in Labels <==> exists c :: c in Codes && IntToWeather[c] == name
  {
  }

  /** Distinct codes get distinct labels, so a label identifies its code. */
  lemma TableInjective(c1: string, c2: string)
    requires c1 in Codes && c2 in Codes && c1 != c2
    ensures Lookup(Some(c1)) != Lookup(Some(c2))
  {
  }
}
