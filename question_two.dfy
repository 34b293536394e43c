/**
 * The fixed-city pipeline (automation_framework/tests/test_question_two.py):
 * fetch the six cities, store every answered one, pick the city with the
 * highest average and compare every stored row with what the API said.
 * `weatherOf(city)` is the weather endpoint's answer for `city`; the
 * `api_data` dictionary is the sequence of its entries in insertion order.
 */
module QuestionTwo {
  import opened Wrappers
  import opened Sequences
  import opened WeatherStore
  import opened WeatherApi

  /** `WeatherDataHandler.CITIES`. */
  const Cities: seq<string> := ["Milan", "Paris", "London", "New York", "Tokyo", "Sydney"]

  /** The tuple `extract_weather_data` returns. */
  datatype WeatherData = WeatherData(cityId: int, name: string, temperature: real, feelsLike: real, average: real)

  /** Every key `extract_weather_data` subscripts is present. */
  predicate HasAllKeys(data: Payload) {
    data.id.Some? && data.name.Some? && data.main.Some?
    && data.main.value.temp.Some? && data.main.value.feelsLike.Some?
    && data.main.value.tempMin.Some? && data.main.value.tempMax.Some?
  }

  /** `extract_weather_data`; `None` is the `KeyError` a missing key raises. */
  function ExtractWeatherData(data: Payload): Option<WeatherData> {
    if data.id.None? || data.main.None? then None
    else
      var m := data.main.value;
      if m.temp.None? || m.feelsLike.None? || m.tempMin.None? || m.tempMax.None? || data.name.None? then None
      else Some(WeatherData(data.id.value, data.name.value, m.temp.value, m.feelsLike.value,
                            Average(m.tempMin.value, m.tempMax.value)))
  }

  /** A payload is read exactly when it has every key, and then its values are the tuple's. */
  lemma ExtractWeatherDataSpec(data: Payload)
    ensures ExtractWeatherData(data).Some? <==> HasAllKeys(data)
    ensures HasAllKeys(data) ==>
              var m := data.main.value;
              ExtractWeatherData(data)
              == Some(WeatherData(data.id.value, data.name.value, m.temp.value, m.feelsLike.value,
                                  Average(m.tempMin.value, m.tempMax.value)))
  {
  }

  /** The arguments `fetch_data_for_cities` passes to `insert_or_update_weather_data`. */
  function AsReading(w: WeatherData): Reading {
    Reading(w.cityId, w.name, w.temperature, w.feelsLike, Some(w.average))
  }

  /** The `api_data[city_name]` entry built from the tuple. */
  function ApiEntry(cityName: string, w: WeatherData): CityRecord {
    CityRecord(cityName, w.cityId, w.temperature, w.feelsLike, w.average)
  }

  /**
   * What a run over `cities` did: the upserts it made in order, the
   * `api_data` entries it built in order, and whether it stopped on a
   * `KeyError`.
   */
  datatype FetchRun = FetchRun(readings: seq<Reading>, entries: seq<(string, CityRecord)>, failed: bool)

  /** The run of `fetch_data_for_cities` over `cities`, as a function of the answers. */
  function Fetched(cities: seq<string>, weatherOf: string -> Response): FetchRun
    decreases |cities|
  {
    if |cities| == 0 then FetchRun([], [], false)
    else
      var before := Fetched(cities[..|cities| - 1], weatherOf);
      var cityName := cities[|cities| - 1];
      var response := weatherOf(cityName);
      if before.failed || response.statusCode != 200 then before
      else
        match ExtractWeatherData(response.body)
        case None => before.(failed := true)
        case Some(w) => FetchRun(before.readings + [AsReading(w)], before.entries + [(cityName, ApiEntry(cityName, w))], false)
  }

  /** One more city extends the run by that city's step. */
  lemma FetchedStep(cities: seq<string>, weatherOf: string -> Response, i: nat)
    requires i < |cities|
    ensures var before := Fetched(cities[..i], weatherOf);
            var response := weatherOf(cities[i]);
            Fetched(cities[..i + 1], weatherOf)
            == if before.failed || response.statusCode != 200 then before
               else match ExtractWeatherData(response.body)
                    case None => before.(failed := true)
                    case Some(w) =>
                      FetchRun(before.readings + [AsReading(w)], before.entries + [(cities[i], ApiEntry(cities[i], w))],
                               false)
  {
    assert cities[..i + 1][..i] == cities[..i];
  }

  /** The cities whose answer has status 200, in order: the independent account of which cities get an entry. */
  function Answered(cities: seq<string>, weatherOf: string -> Response): seq<string>
    decreases |cities|
  {
    if |cities| == 0 then []
    else
      var rest := Answered(cities[..|cities| - 1], weatherOf);
      if weatherOf(cities[|cities| - 1]).statusCode == 200 then rest + [cities[|cities| - 1]] else rest
  }

  /** Some answered city's payload lacks a key. */
  predicate SomeKeyMissing(cities: seq<string>, weatherOf: string -> Response) {
    exists k :: 0 <= k < |cities| && weatherOf(cities[k]).statusCode == 200
                && ExtractWeatherData(weatherOf(cities[k]).body).None?
  }

  // ---------------------------------------------------------------------------
  // Properties of a run

  /**
   * Each entry belongs to an answered city, comes from that city's payload,
   * and sits beside the upsert made for it (whose city is the payload's `name`).
   */
  lemma {:induction false} FetchedEntries(cities: seq<string>, weatherOf: string -> Response)
    ensures var run := Fetched(cities, weatherOf); |run.entries| == |run.readings|
    ensures var run := Fetched(cities, weatherOf);
            forall k :: 0 <= k < |run.entries| ==>
              var name := run.entries[k].0;
              var w := ExtractWeatherData(weatherOf(name).body);
              name in cities && weatherOf(name).statusCode == 200 && w.Some?
              && run.readings[k] == AsReading(w.value) && run.entries[k].1 == ApiEntry(name, w.value)
    decreases |cities|
  {
    if |cities| > 0 {
      var prefix := cities[..|cities| - 1];
      FetchedEntries(prefix, weatherOf);
      assert forall c :: c in prefix ==> c in cities;
    }
  }

  /** A run fails exactly when some answered city's payload lacks a key. */
  lemma {:induction false} FetchedFails(cities: seq<string>, weatherOf: string -> Response)
    ensures Fetched(cities, weatherOf).failed <==> SomeKeyMissing(cities, weatherOf)
    decreases |cities|
  {
    if |cities| > 0 {
      var n := |cities| - 1;
      var prefix := cities[..n];
      FetchedFails(prefix, weatherOf);
      assert forall k :: 0 <= k < n ==> prefix[k] == cities[k];
      if SomeKeyMissing(prefix, weatherOf) {
        var k :| 0 <= k < n && weatherOf(prefix[k]).statusCode == 200
                 && ExtractWeatherData(weatherOf(prefix[k]).body).None?;
        assert cities[k] == prefix[k];
      } else if weatherOf(cities[n]).statusCode == 200 && ExtractWeatherData(weatherOf(cities[n]).body).None? {
        assert SomeKeyMissing(cities, weatherOf);
      } else {
        assert forall k :: 0 <= k < |cities| ==>
                 !(weatherOf(cities[k]).statusCode == 200 && ExtractWeatherData(weatherOf(cities[k]).body).None?)
        by {
          forall k | 0 <= k < |cities|
            ensures !(weatherOf(cities[k]).statusCode == 200 && ExtractWeatherData(weatherOf(cities[k]).body).None?)
          {
            if k < n {
              assert cities[k] == prefix[k];
            }
          }
        }
      }
    }
  }

  /** A run that does not fail makes one entry, and one upsert, per answered city, in order. */
  lemma {:induction false} FetchedCoversAnswered(cities: seq<string>, weatherOf: string -> Response)
    ensures var run := Fetched(cities, weatherOf);
            !run.failed ==>
              |run.entries| == |run.readings| == |Answered(cities, weatherOf)|
              && forall k :: 0 <= k < |run.entries| ==> run.entries[k].0 == Answered(cities, weatherOf)[k]
    decreases |cities|
  {
    if |cities| > 0 {
      FetchedCoversAnswered(cities[..|cities| - 1], weatherOf);
    }
  }

  /** Once a prefix has failed, the rest of the cities change nothing. */
  lemma {:induction false} FailureIsFinal(cities: seq<string>, weatherOf: string -> Response, i: nat)
    requires i <= |cities|
    requires Fetched(cities[..i], weatherOf).failed
    ensures Fetched(cities, weatherOf) == Fetched(cities[..i], weatherOf)
    decreases |cities| - i
  {
    if i < |cities| {
      assert cities[..i + 1][..i] == cities[..i];
      FailureIsFinal(cities, weatherOf, i + 1);
    } else {
      assert cities[..i] == cities;
    }
  }

  /** No two upserts of the run share a city id. */
  predicate DistinctCityIds(readings: seq<Reading>) {
    forall i, j :: 0 <= i < j < |readings| ==> readings[i].cityId != readings[j].cityId
  }

  /** The stored row for the entry's city id carries the entry's values (`test_case_one`'s assertions). */
  predicate StoredAsFetched(rows: seq<Row>, entry: CityRecord) {
    var r := FirstRow(rows, HasCityId(entry.cityId));
    r.Some? && r.value.cityId == entry.cityId && r.value.temperature == entry.temperature
    && r.value.feelsLike == entry.feelsLike && r.value.average == Some(entry.average)
  }

  /**
   * After a run whose upserts have distinct city ids, every entry is found in
   * the table with its own values, whatever the table held before.
   */
  lemma StoredMatchesApiData(rows: seq<Row>, cities: seq<string>, weatherOf: string -> Response)
    requires DistinctCityIds(Fetched(cities, weatherOf).readings)
    ensures var run := Fetched(cities, weatherOf);
            forall k :: 0 <= k < |run.entries| ==> StoredAsFetched(UpsertAll(rows, run.readings), run.entries[k].1)
  {
    var run := Fetched(cities, weatherOf);
    FetchedEntries(cities, weatherOf);
    forall k | 0 <= k < |run.entries|
      ensures StoredAsFetched(UpsertAll(rows, run.readings), run.entries[k].1)
    {
      UpsertAllThenGet(rows, run.readings, k);
    }
  }

  /** A city id that two answered cities share leaves the earlier entry mismatched. */
  lemma SharedIdExample(score: real)
    requires score != 1.0
    ensures var rows := UpsertAll([], [Reading(7, "A", 1.0, 1.0, Some(1.0)), Reading(7, "B", score, 1.0, Some(1.0))]);
            !StoredAsFetched(rows, CityRecord("A", 7, 1.0, 1.0, 1.0))
  {
    var first := Reading(7, "A", 1.0, 1.0, Some(1.0));
    var readings := [first, Reading(7, "B", score, 1.0, Some(1.0))];
    assert readings[..1] == [first];
    assert [first][..0] == [];
    var once := Upserted([], 7, "A", 1.0, 1.0, Some(1.0));
    assert UpsertAll([], [first]) == once;
    assert |once| == 1 && once[0].cityId == 7;
    FirstIndexAt(once, HasCityId(7), 0);
    var twice := UpsertAll([], readings);
    assert twice == Upserted(once, 7, "B", score, 1.0, Some(1.0));
    assert twice[0].temperature == score && twice[0].cityId == 7;
    FirstIndexAt(twice, HasCityId(7), 0);
  }

  // ---------------------------------------------------------------------------
  // The handler and the test

  /**
   * `fetch_data_for_cities`: the table ends as the run's upserts left it, and
   * the result is the run's entries, or `Err` for the `KeyError` that ended it.
   */
  method FetchDataForCities(db: DatabaseHelper, weatherOf: string -> Response)
    returns (r: Result<seq<(string, CityRecord)>, string>)
    requires db.Valid()
    modifies db
    ensures db.Valid()
    ensures db.rows == UpsertAll(old(db.rows), Fetched(Cities, weatherOf).readings)
    ensures r.Err? <==> Fetched(Cities, weatherOf).failed
    ensures r.Ok? ==> r.value == Fetched(Cities, weatherOf).entries
  {
    var apiData: seq<(string, CityRecord)> := [];
    for i := 0 to |Cities|
      invariant db.Valid()
      invariant !Fetched(Cities[..i], weatherOf).failed
      invariant db.rows == UpsertAll(old(db.rows), Fetched(Cities[..i], weatherOf).readings)
      invariant apiData == Fetched(Cities[..i], weatherOf).entries
    {
      var cityName := Cities[i];
      FetchedStep(Cities, weatherOf, i);
      var response := weatherOf(cityName);
      if response.statusCode == 200 {
        var weatherData := ExtractWeatherData(response.body);
        if weatherData.None? {
          FailureIsFinal(Cities, weatherOf, i + 1);
          return Err("KeyError");
        }
        var w := weatherData.value;
        ghost var readings := Fetched(Cities[..i], weatherOf).readings;
        db.InsertOrUpdateWeatherData(w.cityId, w.name, w.temperature, w.feelsLike, Some(w.average));
        assert readings + [AsReading(w)] == Fetched(Cities[..i + 1], weatherOf).readings;
        assert (readings + [AsReading(w)])[..|readings|] == readings;
        apiData := apiData + [(cityName, ApiEntry(cityName, w))];
      }
    }
    assert Cities[..|Cities|] == Cities;
    return Ok(apiData);
  }

  /**
   * `get_highest_average_temp`: `None` for no entries, otherwise the city of
   * an entry with the greatest average, the first one when several tie.
   */
  method GetHighestAverageTemp(apiData: seq<(string, CityRecord)>) returns (city: Option<string>)
    ensures city.None? <==> |apiData| == 0
    ensures city.Some? ==>
              exists k :: 0 <= k < |apiData| && apiData[k].0 == city.value
                          && (forall j :: 0 <= j < |apiData| ==> apiData[j].1.average <= apiData[k].1.average)
                          && (forall j :: 0 <= j < k ==> apiData[j].1.average < apiData[k].1.average)
  {
    var maxAverage: Option<real> := None;
    city := None;
    ghost var best := 0;
    for i := 0 to |apiData|
      invariant maxAverage.None? <==> i == 0
      invariant city.None? <==> i == 0
      invariant i > 0 ==> best < i && city == Some(apiData[best].0) && maxAverage == Some(apiData[best].1.average)
      invariant i > 0 ==> forall j :: 0 <= j < i ==> apiData[j].1.average <= apiData[best].1.average
      invariant i > 0 ==> forall j :: 0 <= j < best ==> apiData[j].1.average < apiData[best].1.average
    {
      var average := apiData[i].1.average;
      if maxAverage.None? || average > maxAverage.value {
        maxAverage := Some(average);
        city := Some(apiData[i].0);
        best := i;
      }
    }
  }

  /**
   * The checking loop of `test_case_one`: every entry's city id finds a row
   * whose values are the entry's. It changes nothing.
   */
  method CheckStored(db: DatabaseHelper, apiData: seq<(string, CityRecord)>) returns (passed: bool)
    ensures passed <==> forall k :: 0 <= k < |apiData| ==> StoredAsFetched(db.rows, apiData[k].1)
  {
    for k := 0 to |apiData|
      invariant forall j :: 0 <= j < k ==> StoredAsFetched(db.rows, apiData[j].1)
    {
      var entry := apiData[k].1;
      var dbData := db.GetByCityId(entry.cityId);
      if dbData.None? || dbData.value.cityId != entry.cityId || dbData.value.temperature != entry.temperature
         || dbData.value.feelsLike != entry.feelsLike || dbData.value.average != Some(entry.average) {
        return false;
      }
    }
    return true;
  }

  /**
   * `test_case_one`: fetch, pick the warmest city, then check every entry
   * against the table. It passes exactly when the fetch does not fail and
   * every entry is stored as fetched; distinct city ids make that certain.
   */
  method TestCaseOne(db: DatabaseHelper, weatherOf: string -> Response) returns (passed: bool, highest: Option<string>)
    requires db.Valid()
    modifies db
    ensures db.Valid()
    ensures var run := Fetched(Cities, weatherOf);
            passed <==> !run.failed && forall k :: 0 <= k < |run.entries| ==> StoredAsFetched(db.rows, run.entries[k].1)
    ensures var run := Fetched(Cities, weatherOf);
            !run.failed && DistinctCityIds(run.readings) ==> passed
  {
    ghost var before := db.rows;
    var fetched := FetchDataForCities(db, weatherOf);
    if fetched.Err? {
      return false, None;
    }
    highest := GetHighestAverageTemp(fetched.value);
    if DistinctCityIds(Fetched(Cities, weatherOf).readings) {
      StoredMatchesApiData(before, Cities, weatherOf);
    }
    passed := CheckStored(db, fetched.value);
  }
}
