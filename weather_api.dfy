/**
 * The shapes the weather endpoint returns and the records the two pipelines
 * build from them. JSON members that may be missing are `Option`s; a JSON
 * `null` is treated like a missing member.
 */
module WeatherApi {
  import opened Wrappers

  /** The `main` object of a current-weather payload. */
  datatype MainData = MainData(temp: Option<real>, feelsLike: Option<real>, tempMin: Option<real>, tempMax: Option<real>)

  /** The members of a current-weather payload that the suite reads. */
  datatype Payload = Payload(id: Option<int>, name: Option<string>, main: Option<MainData>)

  /** An HTTP response: the status code and the decoded JSON body. */
  datatype Response = Response(statusCode: int, body: Payload)

  /** The per-city dictionary both pipelines keep: city_name, city_id, temperature, feels_like, average. */
  datatype CityRecord = CityRecord(cityName: string, cityId: int, temperature: real, feelsLike: real, average: real)

  /** `(temp_min + temp_max) / 2`, exact over the reals. */
  function Average(tempMin: real, tempMax: real): (avg: real)
    ensures tempMin <= tempMax ==> tempMin <= avg <= tempMax
    ensures tempMax <= tempMin ==> tempMax <= avg <= tempMin
    ensures avg - tempMin == tempMax - avg
  {
    (tempMin + tempMax) / 2.0
  }

  lemma AverageExample()
    ensures Average(10.0, 20.0) == 15.0
  {
  }
}
