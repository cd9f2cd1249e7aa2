/**
 * The clock and weather header of Header.tsx: the icon chosen from the first
 * weather condition's code, the temperature placeholder for missing data, and
 * the delay that aligns the clock's ticks to the top of the minute.
 */
module Header {
  import opened Optional
  import opened Calendar

  datatype Icon = Sun | Cloud | CloudRain

  /** The parts of the weather response the header reads; any of them may be missing when
      the service answers with an error body. */
  datatype Condition = Condition(id: int)
  datatype MainReading = MainReading(temp: Option<real>)
  datatype Weather = Weather(main: Option<MainReading>, weather: Option<seq<Condition>>)

  /** The icon for a weather condition code: clouds for 803-804, rain for the
      thunderstorm, drizzle and rain codes 200-531, and the sun for clear skies and
      for every other code. */
  function IconForCode(code: int): (icon: Icon)
    ensures icon == Cloud <==> 803 <= code <= 804
    ensures icon == CloudRain <==> 200 <= code <= 531
    ensures icon == Sun <==> !(200 <= code <= 531) && !(803 <= code <= 804)
  {
    if 800 <= code <= 802 then Sun
    else if 803 <= code <= 804 then Cloud
    else if 200 <= code <= 531 then CloudRain
    else Sun
  }

  /** No response yet, or no condition list, or an empty one shows the sun. */
  predicate NoConditions(data: Option<Weather>) {
    data.None? || data.value.weather.None? || |data.value.weather.value| == 0
  }

  /** `getWeatherIcon`: the icon of the first listed condition. */
  function WeatherIcon(data: Option<Weather>): (icon: Icon)
    ensures NoConditions(data) ==> icon == Sun
    ensures !NoConditions(data) ==>
              (icon == Cloud <==> 803 <= data.value.weather.value[0].id <= 804)
              && (icon == CloudRain <==> 200 <= data.value.weather.value[0].id <= 531)
  {
    if NoConditions(data) then Sun else IconForCode(data.value.weather.value[0].id)
  }

  /** What the header shows for the temperature: `--`, or the reading (before rounding). */
  datatype TemperatureText = Dashes | Reading(celsius: real)

  /** `getTemperature`: dashes when there is no response or it holds no temperature. */
  function Temperature(data: Option<Weather>): (t: TemperatureText)
    ensures t == Dashes <==> data.None? || data.value.main.None? || data.value.main.value.temp.None?
    ensures t.Reading? ==> t.celsius == data.value.main.value.temp.value
  {
    if data.None? || data.value.main.None? || data.value.main.value.temp.None? then Dashes
    else Reading(data.value.main.value.temp.value)
  }

  /** `now.getSeconds()`. */
  function Seconds(now: int): (s: int)
    ensures 0 <= s < 60
  {
    (now / MsPerSecond) % 60
  }

  /** `(60 - now.getSeconds()) * 1000`: a whole number of seconds, from one second up to
      a full minute, that brings the seconds count to the next minute. */
  function MsToNextMinute(seconds: int): (ms: int)
    ensures 0 <= seconds <= 59 ==> 1000 <= ms <= 60000 && ms % 1000 == 0
    ensures seconds * MsPerSecond + ms == MsPerMinute
  {
    (60 - seconds) * MsPerSecond
  }

  /**
   * Counted from the whole second `now` is in, the delay ends exactly on the next
   * minute boundary. The timeout itself, counted from `now`, fires in the next
   * minute, as many milliseconds after its start as `now` was into its second.
   */
  lemma DelayEndsOnMinute(now: int)
    ensures var wholeSecond := now - now % MsPerSecond;
            var boundary := wholeSecond + MsToNextMinute(Seconds(now));
            boundary % MsPerMinute == 0 && now < boundary <= now + MsPerMinute
    ensures var fires := now + MsToNextMinute(Seconds(now));
            fires / MsPerMinute == now / MsPerMinute + 1 && fires % MsPerMinute == now % MsPerSecond
  {
    var q := now / MsPerSecond;
    var wholeSecond := now - now % MsPerSecond;
    assert wholeSecond == q * MsPerSecond;
    var minute := q / 60;
    assert q == minute * 60 + Seconds(now);
    var boundary := wholeSecond + MsToNextMinute(Seconds(now));
    assert boundary == (minute + 1) * MsPerMinute;
    assert now == minute * MsPerMinute + Seconds(now) * MsPerSecond + now % MsPerSecond;
    assert now / MsPerMinute == minute;
    var fires := now + MsToNextMinute(Seconds(now));
    assert fires == (minute + 1) * MsPerMinute + now % MsPerSecond;
  }

  datatype WeatherResponse = Body(data: Weather) | WeatherFailed

  class HeaderState {
    var now: int
    var weatherData: Option<Weather>

    constructor (start: int)
      ensures now == start && weatherData == None
    {
      now, weatherData := start, None;
    }

    /** The weather fetch on mount: whatever body arrives is kept; a failure is only logged. */
    method ReceiveWeather(response: WeatherResponse)
      modifies this`weatherData
      ensures response.Body? ==> weatherData == Some(response.data)
      ensures !response.Body? ==> weatherData == old(weatherData)
    {
      if response.Body? {
        weatherData := Some(response.data);
      }
    }

    /** One tick of the clock timers. */
    method Tick(instant: int)
      modifies this`now
      ensures now == instant
    {
      now := instant;
    }
  }
}
