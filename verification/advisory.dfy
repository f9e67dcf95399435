/**
 * The advisory printed after the temperature: an exact-match `if`/`elif`
 * chain on the sky label, with a catch-all default.
 */
module Advisory {
  import opened Wrappers
  import opened WeatherCodes
  import Forecast

  const RainAdvice := "비가 와요. 우산을 챙겨주세요!"
  const RainSnowAdvice := "비 또는 눈이 와요. 따뜻하게 입고 우산을 챙기세요!"
  const SnowAdvice := "눈이 와요. 장갑을 꼭 챙기세요!"
  const RaindropsAdvice := "빗방울이 떨어져요. 우산을 챙겨주세요!"
  const RaindropsSnowFlurryAdvice := "빗방울과 눈이 흩날려요. 우산과 따뜻한 옷을 준비하세요!"
  const SnowFlurryAdvice := "눈이 흩날려요. 따뜻하게 입으세요!"
  const NiceWeather := "날씨가 좋네요!"

  /** The six labels that describe precipitation, and the message each one selects. */
  const PrecipitationAdvice: map<string, string> := map[
    Rain := RainAdvice,
    RainSnow := RainSnowAdvice,
    Snow := SnowAdvice,
    Raindrops := RaindropsAdvice,
    RaindropsSnowFlurry := RaindropsSnowFlurryAdvice,
    SnowFlurry := SnowFlurryAdvice
  ]

  /** The one message printed for the sky label `sky` (`None` when the forecast failed). */
  function Advice(sky: Option<string>): (msg: string)
    ensures msg == NiceWeather <==> !(sky.Some? && sky.value in Labels - {Clear})
    ensures sky.Some? && sky.value in PrecipitationAdvice ==> msg == PrecipitationAdvice[sky.value]
  {
    if sky == Some(Rain) then RainAdvice
    else if sky == Some(RainSnow) then RainSnowAdvice
    else if sky == Some(Snow) then SnowAdvice
    else if sky == Some(Raindrops) then RaindropsAdvice
    else if sky == Some(RaindropsSnowFlurry) then RaindropsSnowFlurryAdvice
    else if sky == Some(SnowFlurry) then SnowFlurryAdvice
    else NiceWeather
  }

  /** The table covers every label of the code table except the clear-sky one. */
  lemma PrecipitationAdviceCoversLabels()
    ensures PrecipitationAdvice.Keys == Labels - {Clear}
  {
  }

  /** Different precipitation labels never share a message. */
  lemma AdviceDistinguishesLabels(a: string, b: string)
    requires a in PrecipitationAdvice && b in PrecipitationAdvice && a != b
    ensures Advice(Some(a)) != Advice(Some(b))
  {
  }

  /** A failed forecast and a clear sky both fall through to the default message. */
  lemma AbsentOrClearIsNiceWeather(status: int, doc: Forecast.Document)
    ensures Advice(Some(Clear)) == NiceWeather
    ensures Forecast.ForecastOutcome(status, doc).sky.None? ==> Advice(Forecast.ForecastOutcome(status, doc).sky) == NiceWeather
  {
  }
}
