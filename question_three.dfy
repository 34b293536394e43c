/**
 * The random-city pipeline and the scrape cross-check
 * (automation_framework/tests/test_question_three.py). Each HTTP response is
 * an input. A single fetch takes the weather endpoint's answers as
 * `weatherOf(city)` and the `data` member of the cities-by-country answer as
 * `citiesData`; the loop of `test_case_one` asks again on every attempt, so
 * attempt `t` reads `citiesAt(t)` and `weatherAt(t)`. The random choice is a
 * nondeterministic pick, and the scraped page arrives as its table rows and
 * heading text.
 */
module QuestionThree {
  import opened Wrappers
  import opened Sequences
  import opened Text
  import opened WeatherStore
  import opened WeatherApi
  import ApiHelpers

  // ---------------------------------------------------------------------------
  // WeatherDataHandler: validating a payload and storing it

  /** `extract_temperature_data(city_data.get('main', {}))`. */
  function ExtractTemperatureData(main: Option<MainData>): (Option<real>, Option<real>, Option<real>, Option<real>) {
    match main
    case None => (None, None, None, None)
    case Some(m) => (m.temp, m.feelsLike, m.tempMin, m.tempMax)
  }

  /** The record `process_city_data` returns, or `None` when it skips the payload. */
  function ProcessedRecord(cityName: string, data: Payload): Option<CityRecord> {
    if data.id.None? then None
    else
      var (temperature, feelsLike, tempMin, tempMax) := ExtractTemperatureData(data.main);
      if temperature.None? || feelsLike.None? || tempMin.None? || tempMax.None? then None
      else Some(CityRecord(cityName, data.id.value, temperature.value, feelsLike.value,
                           Average(tempMin.value, tempMax.value)))
  }

  /** Every reading the payload must carry, with 0 as good a value as any other. */
  predicate Complete(data: Payload) {
    data.id.Some? && data.main.Some?
    && data.main.value.temp.Some? && data.main.value.feelsLike.Some?
    && data.main.value.tempMin.Some? && data.main.value.tempMax.Some?
  }

  /** A payload is skipped exactly when a reading is missing; otherwise its values are kept. */
  lemma ProcessedRecordSpec(cityName: string, data: Payload)
    ensures ProcessedRecord(cityName, data).Some? <==> Complete(data)
    ensures Complete(data) ==>
              var m := data.main.value;
              ProcessedRecord(cityName, data)
              == Some(CityRecord(cityName, data.id.value, m.temp.value, m.feelsLike.value,
                                 Average(m.tempMin.value, m.tempMax.value)))
  {
  }

  /** Zero readings are present values, not missing ones. */
  lemma ZeroIsPresent(cityName: string)
    ensures ProcessedRecord(cityName, Payload(Some(0), None, Some(MainData(Some(0.0), Some(0.0), Some(0.0), Some(0.0)))))
            == Some(CityRecord(cityName, 0, 0.0, 0.0, 0.0))
  {
  }

  /** `process_city_data`: validate the payload and, only when it is complete, upsert it. */
  method ProcessCityData(db: DatabaseHelper, cityName: string, data: Payload) returns (r: Option<CityRecord>)
    requires db.Valid()
    modifies db
    ensures db.Valid()
    ensures r == ProcessedRecord(cityName, data)
    ensures r.None? ==> db.rows == old(db.rows)
    ensures r.Some? ==> db.rows == Upserted(old(db.rows), r.value.cityId, cityName, r.value.temperature,
                                            r.value.feelsLike, Some(r.value.average))
  {
    var cityId := data.id;
    if cityId.None? {
      return None;
    }
    var (temperature, feelsLike, tempMin, tempMax) := ExtractTemperatureData(data.main);
    if temperature.None? || feelsLike.None? || tempMin.None? || tempMax.None? {
      return None;
    }
    var average := Average(tempMin.value, tempMax.value);
    db.InsertOrUpdateWeatherData(cityId.value, cityName, temperature.value, feelsLike.value, Some(average));
    return Some(CityRecord(cityName, cityId.value, temperature.value, feelsLike.value, average));
  }

  /** What `fetch_and_process_city_data` returns: the record, `None` (skipped) or `False` (HTTP failure). */
  datatype FetchOutcome = Stored(record: CityRecord) | Skipped | HttpFailed

  /** `fetch_and_process_city_data` once `response` has arrived. */
  method FetchAndProcessCityData(db: DatabaseHelper, cityName: string, response: Response) returns (o: FetchOutcome)
    requires db.Valid()
    modifies db
    ensures db.Valid()
    ensures response.statusCode != 200 ==> o == HttpFailed && db.rows == old(db.rows)
    ensures response.statusCode == 200 ==>
              match ProcessedRecord(cityName, response.body)
              case None => o == Skipped && db.rows == old(db.rows)
              case Some(rec) =>
                o == Stored(rec)
                && db.rows == Upserted(old(db.rows), rec.cityId, cityName, rec.temperature, rec.feelsLike,
                                       Some(rec.average))
  {
    if response.statusCode == 200 {
      var processed := ProcessCityData(db, cityName, response.body);
      o := if processed.Some? then Stored(processed.value) else Skipped;
    } else {
      o := HttpFailed;
    }
  }

  /** `fetch_random_city`: any member of the `data` list, `None` when it is absent or empty. */
  method FetchRandomCity(citiesData: Option<seq<string>>) returns (city: Option<string>)
    ensures city.Some? ==> citiesData.Some? && city.value in citiesData.value
    ensures city.None? <==> citiesData.None? || |citiesData.value| == 0
  {
    var cities := if citiesData.Some? then citiesData.value else [];
    if |cities| > 0 {
      assert cities[0] in cities;
      var choice :| choice in cities;
      return Some(choice);
    }
    return None;
  }

  // ---------------------------------------------------------------------------
  // Test.test_case_one: random cities until n distinct successes or n + 5 attempts

  /** The city names that would be stored if picked: listed, non-empty, answered with 200 and complete. */
  ghost function SuccessPool(citiesData: Option<seq<string>>, weatherOf: string -> Response): set<string> {
    if citiesData.None? then {}
    else set c | c in citiesData.value && c != "" && weatherOf(c).statusCode == 200
                 && ProcessedRecord(c, weatherOf(c).body).Some?
  }

  /** The city names storable at some attempt before attempt `m`; attempt `t` sees `citiesAt(t)` and `weatherAt(t)`. */
  ghost function PoolUpTo(citiesAt: nat -> Option<seq<string>>, weatherAt: nat -> string -> Response, m: nat): set<string>
    decreases m
  {
    if m == 0 then {} else PoolUpTo(citiesAt, weatherAt, m - 1) + SuccessPool(citiesAt(m - 1), weatherAt(m - 1))
  }

  /** A name storable at an attempt before `m` is in the pool up to `m`. */
  lemma {:induction false} PoolHas(citiesAt: nat -> Option<seq<string>>, weatherAt: nat -> string -> Response,
                                   t: nat, m: nat, c: string)
    requires t < m && c in SuccessPool(citiesAt(t), weatherAt(t))
    ensures c in PoolUpTo(citiesAt, weatherAt, m)
    decreases m
  {
    if t < m - 1 {
      PoolHas(citiesAt, weatherAt, t, m - 1, c);
    }
  }

  lemma SubsetCardinality<T>(a: set<T>, b: set<T>)
    requires a <= b
    ensures |a| <= |b|
  {
    assert b == a + (b - a);
  }

  /** The upsert `process_city_data` makes for a stored record of city `c`. */
  function StoredReading(c: string, rec: CityRecord): Reading {
    Reading(rec.cityId, c, rec.temperature, rec.feelsLike, Some(rec.average))
  }

  /** The upserts of a history of stored records, in order. */
  function StoredReadings(stored: seq<(string, CityRecord)>): seq<Reading>
    decreases |stored|
  {
    if |stored| == 0 then []
    else
      var last := stored[|stored| - 1];
      StoredReadings(stored[..|stored| - 1]) + [StoredReading(last.0, last.1)]
  }

  /** `api_data` after `api_data[city_name] = success` for each stored record in order. */
  function Keyed(stored: seq<(string, CityRecord)>): map<string, CityRecord>
    decreases |stored|
  {
    if |stored| == 0 then map[]
    else
      var last := stored[|stored| - 1];
      Keyed(stored[..|stored| - 1])[last.0 := last.1]
  }

  /** The keys are exactly the stored names. */
  lemma {:induction false} KeyedKeys(stored: seq<(string, CityRecord)>, c: string)
    ensures c in Keyed(stored) <==> exists k :: 0 <= k < |stored| && stored[k].0 == c
    decreases |stored|
  {
    if |stored| > 0 {
      var n := |stored| - 1;
      var prefix := stored[..n];
      KeyedKeys(prefix, c);
      assert forall k :: 0 <= k < n ==> prefix[k] == stored[k];
    }
  }

  /** A repeated name keeps only its last record. */
  lemma {:induction false} KeyedLastWins(stored: seq<(string, CityRecord)>, i: nat)
    requires i < |stored|
    requires forall j :: i < j < |stored| ==> stored[j].0 != stored[i].0
    ensures stored[i].0 in Keyed(stored) && Keyed(stored)[stored[i].0] == stored[i].1
    decreases |stored|
  {
    var n := |stored| - 1;
    if i < n {
      var prefix := stored[..n];
      assert prefix[i] == stored[i];
      assert forall j :: i < j < n ==> prefix[j] == stored[j];
      KeyedLastWins(prefix, i);
    }
  }

  lemma StoredReadingsAppend(stored: seq<(string, CityRecord)>, entry: (string, CityRecord))
    ensures StoredReadings(stored + [entry]) == StoredReadings(stored) + [StoredReading(entry.0, entry.1)]
  {
    assert (stored + [entry])[..|stored|] == stored;
  }

  lemma KeyedAppend(stored: seq<(string, CityRecord)>, entry: (string, CityRecord))
    ensures Keyed(stored + [entry]) == Keyed(stored)[entry.0 := entry.1]
  {
    assert (stored + [entry])[..|stored|] == stored;
  }

  /**
   * An attempt that read the city list `cities` and the weather answers
   * `weatherOf` could store `entry`: its city was listed, non-empty and
   * answered with 200, and the record is that answer's.
   */
  predicate StoredFrom(cities: Option<seq<string>>, weatherOf: string -> Response, entry: (string, CityRecord))
  {
    var c := entry.0;
    cities.Some? && c in cities.value && c != "" && weatherOf(c).statusCode == 200
    && Some(entry.1) == ProcessedRecord(c, weatherOf(c).body)
  }

  /** Attempt `t` could store `entry`. */
  predicate StoredAt(citiesAt: nat -> Option<seq<string>>, weatherAt: nat -> string -> Response,
                     entry: (string, CityRecord), t: nat)
  {
    StoredFrom(citiesAt(t), weatherAt(t), entry)
  }

  /** Every city of a stored history is in the table the history's upserts leave. */
  lemma {:induction false} KeyedIdsStored(rows: seq<Row>, stored: seq<(string, CityRecord)>)
    ensures forall c :: c in Keyed(stored) ==> Keyed(stored)[c].cityId in CityIds(UpsertAll(rows, StoredReadings(stored)))
    decreases |stored|
  {
    if |stored| > 0 {
      var n := |stored| - 1;
      var prefix := stored[..n];
      var last := stored[n];
      assert stored == prefix + [last];
      KeyedIdsStored(rows, prefix);
      StoredReadingsAppend(prefix, last);
      KeyedAppend(prefix, last);
      var r := StoredReading(last.0, last.1);
      UpsertAllAppend(rows, StoredReadings(prefix), r);
      UpsertLeavesOtherCities(UpsertAll(rows, StoredReadings(prefix)), r.cityId, r.city, r.temperature,
                              r.feelsLike, r.average);
    }
  }

  /** Every name of a stored history whose attempts came before `m` is in the pool up to `m`. */
  lemma StoredInPool(citiesAt: nat -> Option<seq<string>>, weatherAt: nat -> string -> Response,
                     stored: seq<(string, CityRecord)>, when: seq<nat>, m: nat)
    requires |when| == |stored|
    requires forall k :: 0 <= k < |when| ==> when[k] < m
    requires forall k :: 0 <= k < |stored| ==> StoredAt(citiesAt, weatherAt, stored[k], when[k])
    ensures |Keyed(stored)| <= |PoolUpTo(citiesAt, weatherAt, m)|
  {
    var keyed := Keyed(stored);
    forall c | c in keyed
      ensures c in PoolUpTo(citiesAt, weatherAt, m)
    {
      KeyedKeys(stored, c);
      var k :| 0 <= k < |stored| && stored[k].0 == c;
      assert StoredAt(citiesAt, weatherAt, stored[k], when[k]);
      assert c in SuccessPool(citiesAt(when[k]), weatherAt(when[k]));
      PoolHas(citiesAt, weatherAt, when[k], m, c);
    }
    SubsetCardinality(keyed.Keys, PoolUpTo(citiesAt, weatherAt, m));
  }

  /** `fetch_random_city` could have returned `pick` from the list `cities`. */
  predicate PickedFrom(cities: Option<seq<string>>, pick: Option<string>) {
    (pick.None? <==> cities.None? || |cities.value| == 0)
    && (pick.Some? ==> cities.Some? && pick.value in cities.value)
  }

  /** Every attempt `t` picked `picks[t]` from its list `citiesAt(t)`. */
  predicate PicksFrom(citiesAt: nat -> Option<seq<string>>, picks: seq<Option<string>>)
    decreases |picks|
  {
    |picks| == 0
    || (PicksFrom(citiesAt, picks[..|picks| - 1]) && PickedFrom(citiesAt(|picks| - 1), picks[|picks| - 1]))
  }

  /** `PicksFrom` holds exactly when each pick came from its attempt's list. */
  lemma {:induction false} PicksFromEach(citiesAt: nat -> Option<seq<string>>, picks: seq<Option<string>>)
    ensures PicksFrom(citiesAt, picks) <==> forall t :: 0 <= t < |picks| ==> PickedFrom(citiesAt(t), picks[t])
    decreases |picks|
  {
    if |picks| > 0 {
      var prefix := picks[..|picks| - 1];
      PicksFromEach(citiesAt, prefix);
      assert forall t :: 0 <= t < |prefix| ==> prefix[t] == picks[t];
    }
  }

  lemma PicksFromAppend(citiesAt: nat -> Option<seq<string>>, picks: seq<Option<string>>, p: Option<string>)
    requires PicksFrom(citiesAt, picks) && PickedFrom(citiesAt(|picks|), p)
    ensures PicksFrom(citiesAt, picks + [p])
  {
    assert (picks + [p])[..|picks|] == picks;
  }

  /** An attempt that picked `c` and read the weather answers `weatherOf` stores a record. */
  predicate Storable(c: string, weatherOf: string -> Response) {
    c != "" && weatherOf(c).statusCode == 200 && ProcessedRecord(c, weatherOf(c).body).Some?
  }

  /** The record an attempt that picked `p` and read the weather answers `weatherOf` stores, if any. */
  function Outcome(p: Option<string>, weatherOf: string -> Response): Option<(string, CityRecord)> {
    if p.Some? && Storable(p.value, weatherOf)
    then Some((p.value, ProcessedRecord(p.value, weatherOf(p.value).body).value))
    else None
  }

  /**
   * The records that attempts `0 .. |picks| - 1` store, in order, when
   * attempt `t` picked `picks[t]` and read the weather answers `weatherAt(t)`.
   */
  ghost function History(picks: seq<Option<string>>, weatherAt: nat -> string -> Response): seq<(string, CityRecord)>
    decreases |picks|
  {
    if |picks| == 0 then []
    else
      var t := |picks| - 1;
      var o := Outcome(picks[t], weatherAt(t));
      History(picks[..t], weatherAt) + if o.Some? then [o.value] else []
  }

  /** The attempts, in order, that store the records of `History(picks, weatherAt)`. */
  ghost function When(picks: seq<Option<string>>, weatherAt: nat -> string -> Response): seq<nat>
    decreases |picks|
  {
    if |picks| == 0 then []
    else
      var t := |picks| - 1;
      When(picks[..t], weatherAt) + if Outcome(picks[t], weatherAt(t)).Some? then [t] else []
  }

  lemma HistoryAppend(picks: seq<Option<string>>, p: Option<string>, weatherAt: nat -> string -> Response)
    ensures var o := Outcome(p, weatherAt(|picks|));
            History(picks + [p], weatherAt) == History(picks, weatherAt) + if o.Some? then [o.value] else []
  {
    assert (picks + [p])[..|picks|] == picks;
  }

  /**
   * Each record of the history was storable at the attempt that stored it,
   * and those attempts strictly increase.
   */
  lemma {:induction false} HistoryIsStoredAt(citiesAt: nat -> Option<seq<string>>,
                                             weatherAt: nat -> string -> Response, picks: seq<Option<string>>)
    requires PicksFrom(citiesAt, picks)
    ensures var stored := History(picks, weatherAt);
            var when := When(picks, weatherAt);
            |when| == |stored| && (forall j, k :: 0 <= j < k < |when| ==> when[j] < when[k])
            && (forall k :: 0 <= k < |when| ==> when[k] < |picks|)
            && forall k :: 0 <= k < |stored| ==> StoredAt(citiesAt, weatherAt, stored[k], when[k])
    decreases |picks|
  {
    if |picks| > 0 {
      var t := |picks| - 1;
      var prefix := picks[..t];
      HistoryIsStoredAt(citiesAt, weatherAt, prefix);
      var o := Outcome(picks[t], weatherAt(t));
      if o.Some? {
        assert PickedFrom(citiesAt(t), picks[t]);
        assert StoredAt(citiesAt, weatherAt, o.value, t);
        HistoryExtends(citiesAt, weatherAt, History(prefix, weatherAt), When(prefix, weatherAt), o.value, t);
      } else {
        assert History(picks, weatherAt) == History(prefix, weatherAt);
        assert When(picks, weatherAt) == When(prefix, weatherAt);
      }
    }
  }

  /**
   * When every attempt's list holds just `c` and `c` is storable at every
   * attempt, any run of at least one attempt stores `c` and only `c`.
   */
  lemma {:induction false} SureCityIsStored(citiesAt: nat -> Option<seq<string>>,
                                            weatherAt: nat -> string -> Response,
                                            picks: seq<Option<string>>, c: string)
    requires |picks| > 0
    requires forall t :: 0 <= t < |picks| ==> citiesAt(t) == Some([c]) && Storable(c, weatherAt(t))
    requires forall t :: 0 <= t < |picks| ==> PickedFrom(citiesAt(t), picks[t])
    ensures Keyed(History(picks, weatherAt)).Keys == {c}
    decreases |picks|
  {
    var t := |picks| - 1;
    var prefix := picks[..t];
    assert picks == prefix + [picks[t]];
    HistoryAppend(prefix, picks[t], weatherAt);
    assert PickedFrom(citiesAt(t), picks[t]);
    assert picks[t] == Some(c);
    var entry := Outcome(picks[t], weatherAt(t)).value;
    KeyedAppend(History(prefix, weatherAt), entry);
    if t > 0 {
      forall u | 0 <= u < |prefix|
        ensures citiesAt(u) == Some([c]) && Storable(c, weatherAt(u)) && PickedFrom(citiesAt(u), prefix[u])
      {
        assert prefix[u] == picks[u];
      }
      SureCityIsStored(citiesAt, weatherAt, prefix, c);
    }
  }

  /**
   * One attempt of `test_case_one`: `fetch_random_city` on the list
   * `cities`, then `fetch_and_process_city_data` for a non-empty name.
   * `pick` is the city picked and `entry` the record stored, if any.
   */
  method Attempt(db: DatabaseHelper, cities: Option<seq<string>>, weatherOf: string -> Response)
    returns (pick: Option<string>, entry: Option<(string, CityRecord)>)
    requires db.Valid()
    modifies db
    ensures db.Valid()
    ensures PickedFrom(cities, pick) && entry == Outcome(pick, weatherOf)
    ensures entry.None? ==> db.rows == old(db.rows)
    ensures entry.Some? ==> db.rows == UpsertAll(old(db.rows), [StoredReading(entry.value.0, entry.value.1)])
  {
    pick := FetchRandomCity(cities);
    if pick.None? || pick.value == "" {
      return pick, None;
    }
    var name := pick.value;
    ghost var before := db.rows;
    var success := FetchAndProcessCityData(db, name, weatherOf(name));
    match success {
      case Stored(rec) =>
        UpsertAllAppend(before, [], StoredReading(name, rec));
        entry := Some((name, rec));
      case Skipped =>
        entry := None;
      case HttpFailed =>
        entry := None;
    }
  }

  /** Storing `entry` at attempt `t`, after every earlier one, extends the attempt history. */
  lemma HistoryExtends(citiesAt: nat -> Option<seq<string>>, weatherAt: nat -> string -> Response,
                       stored: seq<(string, CityRecord)>, when: seq<nat>, entry: (string, CityRecord), t: nat)
    requires |when| == |stored| && forall j, k :: 0 <= j < k < |when| ==> when[j] < when[k]
    requires forall k :: 0 <= k < |when| ==> when[k] < t
    requires forall k :: 0 <= k < |stored| ==> StoredAt(citiesAt, weatherAt, stored[k], when[k])
    requires StoredAt(citiesAt, weatherAt, entry, t)
    ensures var when' := when + [t];
            var stored' := stored + [entry];
            |when'| == |stored'| && (forall j, k :: 0 <= j < k < |when'| ==> when'[j] < when'[k])
            && (forall k :: 0 <= k < |when'| ==> when'[k] < t + 1)
            && forall k :: 0 <= k < |stored'| ==> StoredAt(citiesAt, weatherAt, stored'[k], when'[k])
  {
  }

  /**
   * What the loop of `test_case_one` leaves, from the table `rows0` to the
   * table `rows`:
   * - at most `n + 5` attempts and `n` names, and every attempt used when
   *   fewer than `n` names were stored;
   * - attempt `t` picked `picks[t]` from its list, and the loop went on only
   *   while fewer than `n` names were stored;
   * - `stored` is the history those picks store, `api_data` that history
   *   keyed by name, and the table the history's upserts on `rows0`.
   */
  ghost predicate LoopOutcome(n: nat, citiesAt: nat -> Option<seq<string>>, weatherAt: nat -> string -> Response,
                              rows0: seq<Row>, rows: seq<Row>, apiData: map<string, CityRecord>, attempts: nat,
                              stored: seq<(string, CityRecord)>, picks: seq<Option<string>>)
  {
    && attempts <= n + 5 && |apiData| <= n
    && (|apiData| < n ==> attempts == n + 5)
    && |picks| == attempts && PicksFrom(citiesAt, picks)
    && (attempts > 0 ==> |Keyed(History(picks[..attempts - 1], weatherAt))| < n)
    && stored == History(picks, weatherAt)
    && apiData == Keyed(stored)
    && rows == UpsertAll(rows0, StoredReadings(stored))
  }

  /**
   * The loop of `test_case_one`: attempts until `n` distinct cities are
   * stored or `n + 5` attempts are made. Attempt `t` (from 0) reads the city
   * list `citiesAt(t)` and the weather answers `weatherAt(t)`, and picks
   * `picks[t]`; `stored` is the history of records those picks store.
   */
  method RunAttempts(db: DatabaseHelper, n: nat, citiesAt: nat -> Option<seq<string>>,
                     weatherAt: nat -> string -> Response)
    returns (apiData: map<string, CityRecord>, attempts: nat,
             ghost stored: seq<(string, CityRecord)>, ghost picks: seq<Option<string>>)
    requires db.Valid()
    modifies db
    ensures db.Valid()
    ensures LoopOutcome(n, citiesAt, weatherAt, old(db.rows), db.rows, apiData, attempts, stored, picks)
  {
    apiData := map[];
    attempts := 0;
    stored := [];
    picks := [];
    while |apiData| < n && attempts < n + 5
      invariant db.Valid()
      invariant attempts <= n + 5 && |apiData| <= n
      invariant |picks| == attempts && PicksFrom(citiesAt, picks)
      invariant stored == History(picks, weatherAt)
      invariant attempts > 0 ==> |Keyed(History(picks[..attempts - 1], weatherAt))| < n
      invariant apiData == Keyed(stored)
      invariant db.rows == UpsertAll(old(db.rows), StoredReadings(stored))
      decreases n + 5 - attempts
    {
      var t := attempts;
      var pick, got := Attempt(db, citiesAt(t), weatherAt(t));
      HistoryAppend(picks, pick, weatherAt);
      PicksFromAppend(citiesAt, picks, pick);
      assert (picks + [pick])[..t] == picks;
      if got.Some? {
        var entry := got.value;
        StoredReadingsAppend(stored, entry);
        KeyedAppend(stored, entry);
        UpsertAllAppend(old(db.rows), StoredReadings(stored), StoredReading(entry.0, entry.1));
        apiData := apiData[entry.0 := entry.1];
        stored := stored + [entry];
      }
      picks := picks + [pick];
      attempts := attempts + 1;
    }
  }

  /** What follows from the loop's outcome about the attempts, the table and the pool. */
  lemma LoopOutcomeFacts(n: nat, citiesAt: nat -> Option<seq<string>>, weatherAt: nat -> string -> Response,
                         rows0: seq<Row>, rows: seq<Row>, apiData: map<string, CityRecord>, attempts: nat,
                         stored: seq<(string, CityRecord)>, picks: seq<Option<string>>)
    requires LoopOutcome(n, citiesAt, weatherAt, rows0, rows, apiData, attempts, stored, picks)
    ensures var when := When(picks, weatherAt);
            |when| == |stored| && (forall j, k :: 0 <= j < k < |when| ==> when[j] < when[k])
            && (forall k :: 0 <= k < |when| ==> when[k] < attempts)
            && forall k :: 0 <= k < |stored| ==> StoredAt(citiesAt, weatherAt, stored[k], when[k])
    ensures forall c :: c in apiData ==> apiData[c].cityId in CityIds(rows)
    ensures |PoolUpTo(citiesAt, weatherAt, n + 5)| < n ==> |apiData| < n
    ensures UniqueCityIds(rows0) ==> UniqueCityIds(rows)
  {
    HistoryIsStoredAt(citiesAt, weatherAt, picks);
    KeyedIdsStored(rows0, stored);
    if UniqueCityIds(rows0) {
      UpsertAllKeepsUniqueCityIds(rows0, StoredReadings(stored));
    }
    StoredInPool(citiesAt, weatherAt, stored, When(picks, weatherAt), n + 5);
  }

  /**
   * When every attempt's list is just `c` and `c` is always storable, the
   * loop for one city stores `c`, so `test_case_one` passes.
   */
  lemma SureCityPasses(citiesAt: nat -> Option<seq<string>>, weatherAt: nat -> string -> Response,
                       rows0: seq<Row>, rows: seq<Row>, apiData: map<string, CityRecord>, attempts: nat,
                       stored: seq<(string, CityRecord)>, picks: seq<Option<string>>, c: string)
    requires forall t: nat :: citiesAt(t) == Some([c]) && Storable(c, weatherAt(t))
    requires LoopOutcome(1, citiesAt, weatherAt, rows0, rows, apiData, attempts, stored, picks)
    ensures apiData.Keys == {c} && |apiData| == 1
  {
    assert attempts > 0;
    PicksFromEach(citiesAt, picks);
    SureCityIsStored(citiesAt, weatherAt, picks, c);
  }

  /**
   * `test_case_one`; `passed` is whether its final assertion holds. It fails
   * whenever fewer than `n` names could be stored in the `n + 5` attempts.
   */
  method TestCaseOne(db: DatabaseHelper, n: nat, citiesAt: nat -> Option<seq<string>>,
                     weatherAt: nat -> string -> Response)
    returns (passed: bool, apiData: map<string, CityRecord>, attempts: nat,
             ghost stored: seq<(string, CityRecord)>, ghost when: seq<nat>, ghost picks: seq<Option<string>>)
    requires db.Valid()
    modifies db
    ensures db.Valid()
    ensures LoopOutcome(n, citiesAt, weatherAt, old(db.rows), db.rows, apiData, attempts, stored, picks)
    ensures passed <==> |apiData| == n
    ensures |when| == |stored| && forall j, k :: 0 <= j < k < |when| ==> when[j] < when[k]
    ensures forall k :: 0 <= k < |when| ==> when[k] < attempts
    ensures forall k :: 0 <= k < |stored| ==> StoredAt(citiesAt, weatherAt, stored[k], when[k])
    ensures forall c :: c in apiData ==> apiData[c].cityId in CityIds(db.rows)
    ensures |PoolUpTo(citiesAt, weatherAt, n + 5)| < n ==> !passed
    ensures old(UniqueCityIds(db.rows)) ==> UniqueCityIds(db.rows)
  {
    apiData, attempts, stored, picks := RunAttempts(db, n, citiesAt, weatherAt);
    when := When(picks, weatherAt);
    LoopOutcomeFacts(n, citiesAt, weatherAt, old(db.rows), db.rows, apiData, attempts, stored, picks);
    passed := |apiData| == n;
  }

  // ---------------------------------------------------------------------------
  // Scraper.extract_table_data

  /** The inner texts of a table row's `th` and `td` cells; `None` when the cell is missing. */
  datatype TableRow = TableRow(keyCell: Option<string>, valueCell: Option<string>)

  predicate HasBothCells(row: TableRow) {
    row.keyCell.Some? && row.valueCell.Some?
  }

  /** `key_element.inner_text().strip().rstrip(':')`. */
  function KeyOf(row: TableRow): string
    requires HasBothCells(row)
  {
    TrimEndChar(Strip(row.keyCell.value), ':')
  }

  /** `value_element.inner_text().strip()`. */
  function ValueOf(row: TableRow): string
    requires HasBothCells(row)
  {
    Strip(row.valueCell.value)
  }

  /** The dictionary the rows build, entry by entry in row order. */
  function TableOf(rows: seq<TableRow>): map<string, string>
    decreases |rows|
  {
    if |rows| == 0 then map[]
    else
      var before := TableOf(rows[..|rows| - 1]);
      var row := rows[|rows| - 1];
      if HasBothCells(row) then before[KeyOf(row) := ValueOf(row)] else before
  }

  /** `extract_table_data` over the rows of the page's table. */
  method ExtractTableData(rows: seq<TableRow>) returns (tableData: map<string, string>)
    ensures tableData == TableOf(rows)
  {
    tableData := map[];
    for i := 0 to |rows|
      invariant tableData == TableOf(rows[..i])
    {
      assert rows[..i + 1][..i] == rows[..i];
      var row := rows[i];
      if row.keyCell.Some? && row.valueCell.Some? {
        var key := TrimEndChar(Strip(row.keyCell.value), ':');
        var value := Strip(row.valueCell.value);
        tableData := tableData[key := value];
      }
    }
    assert rows[..|rows|] == rows;
  }

  /** A key is in the table exactly when some complete row normalises to it. */
  lemma {:induction false} TableOfKeys(rows: seq<TableRow>, key: string)
    ensures key in TableOf(rows) <==> exists i :: 0 <= i < |rows| && HasBothCells(rows[i]) && KeyOf(rows[i]) == key
    decreases |rows|
  {
    if |rows| > 0 {
      var n := |rows| - 1;
      var prefix := rows[..n];
      TableOfKeys(prefix, key);
      assert forall i :: 0 <= i < n ==> prefix[i] == rows[i];
    }
  }

  /** A complete row that no later complete row repeats the key of gives that key its value. */
  lemma {:induction false} TableOfLastWins(rows: seq<TableRow>, i: nat)
    requires i < |rows| && HasBothCells(rows[i])
    requires forall j :: i < j < |rows| ==> !(HasBothCells(rows[j]) && KeyOf(rows[j]) == KeyOf(rows[i]))
    ensures KeyOf(rows[i]) in TableOf(rows) && TableOf(rows)[KeyOf(rows[i])] == ValueOf(rows[i])
    decreases |rows|
  {
    var n := |rows| - 1;
    if i < n {
      var prefix := rows[..n];
      assert prefix[i] == rows[i];
      assert forall j :: i < j < n ==> prefix[j] == rows[j];
      TableOfLastWins(prefix, i);
    }
  }

  /** Keys carry no leading blank and no trailing colon; values are trimmed at both ends. */
  lemma {:induction false} TableOfShape(rows: seq<TableRow>)
    ensures forall k :: k in TableOf(rows) ==> k == [] || (!IsSpace(k[0]) && k[|k| - 1] != ':')
    ensures forall k :: k in TableOf(rows) ==>
              var v := TableOf(rows)[k]; v == [] || (!IsSpace(v[0]) && !IsSpace(v[|v| - 1]))
    decreases |rows|
  {
    if |rows| > 0 {
      TableOfShape(rows[..|rows| - 1]);
      var row := rows[|rows| - 1];
      if HasBothCells(row) {
        StripShape(row.keyCell.value);
        StripShape(row.valueCell.value);
        var stripped := Strip(row.keyCell.value);
        TrimEndCharShape(stripped, ':');
        var key := KeyOf(row);
        assert key <= stripped;
        assert key != [] ==> key[0] == stripped[0];
      }
    }
  }

  // ---------------------------------------------------------------------------
  // Test.extract_city_name

  function IsInToken(w: string): bool {
    w == "in"
  }

  /** `city_name[:-1]` when it ends with a comma, else `city_name`. */
  function DropTrailingComma(w: string): string {
    if EndsWith(w, ",") then w[..|w| - 1] else w
  }

  /**
   * `extract_city_name`: the whitespace token after the first `in`, less one
   * trailing comma; `Err` is the `ValueError` or `IndexError` it raises.
   */
  function ExtractCityName(headerCity: string): Result<string, string> {
    var words := Words(headerCity);
    match FirstIndex(words, IsInToken)
    case None => Err("ValueError: 'in' is not in list")
    case Some(i) =>
      if i + 1 < |words| then Ok(DropTrailingComma(words[i + 1]))
      else Err("IndexError: list index out of range")
  }

  /** A city name is found exactly when some `in` token is not the last token. */
  lemma ExtractCityNameFound(headerCity: string)
    ensures ExtractCityName(headerCity).Ok? <==>
              exists i :: 0 <= i < |Words(headerCity)| - 1 && Words(headerCity)[i] == "in"
  {
    var words := Words(headerCity);
    match FirstIndex(words, IsInToken)
    case None =>
      assert forall j :: 0 <= j < |words| ==> !IsInToken(words[j]);
    case Some(i) =>
      if i + 1 < |words| {
        assert IsInToken(words[i]);
        assert 0 <= i < |Words(headerCity)| - 1 && Words(headerCity)[i] == "in";
      } else {
        assert forall j :: 0 <= j < |words| - 1 ==> !IsInToken(words[j]);
      }
  }

  /** The name found is the token after the first `in`, less one trailing comma. */
  lemma ExtractCityNameValue(headerCity: string)
    ensures ExtractCityName(headerCity).Ok? ==>
              exists i :: 0 <= i < |Words(headerCity)| - 1 && Words(headerCity)[i] == "in"
                          && (forall k :: 0 <= k < i ==> Words(headerCity)[k] != "in")
                          && ExtractCityName(headerCity).value == DropTrailingComma(Words(headerCity)[i + 1])
  {
    var words := Words(headerCity);
    match FirstIndex(words, IsInToken)
    case None =>
    case Some(i) =>
      if i + 1 < |words| {
        assert IsInToken(words[i]);
        assert forall k :: 0 <= k < i ==> !IsInToken(words[k]);
        assert ExtractCityName(headerCity).value == DropTrailingComma(words[i + 1]);
      }
  }

  /** The name found holds no whitespace. */
  lemma ExtractCityNameBlankFree(headerCity: string)
    ensures ExtractCityName(headerCity).Ok? ==> var name := ExtractCityName(headerCity).value;
              forall k :: 0 <= k < |name| ==> !IsSpace(name[k])
  {
    var words := Words(headerCity);
    WordsAreWords(headerCity);
    match FirstIndex(words, IsInToken)
    case None =>
    case Some(i) =>
      if i + 1 < |words| {
        assert IsWord(words[i + 1]);
        assert ExtractCityName(headerCity).value == DropTrailingComma(words[i + 1]);
      }
  }

  /** The heading of the London page yields "London". */
  lemma ExtractCityNameExample(headerCity: string)
    requires headerCity == "Weather in London, United Kingdom"
    ensures ExtractCityName(headerCity) == Ok("London")
  {
    var words := ["Weather", "in", "London,", "United", "Kingdom"];
    HeadingWords(headerCity, words);
    assert !IsInToken(words[0]) && IsInToken(words[1]);
    FirstIndexAt(words, IsInToken, 1);
    assert FirstIndex(Words(headerCity), IsInToken) == Some(1);
    assert EndsWith(words[2], ",");
    assert DropTrailingComma(words[2]) == "London";
  }

  lemma HeadingWords(headerCity: string, words: seq<string>)
    requires headerCity == "Weather in London, United Kingdom"
    requires words == ["Weather", "in", "London,", "United", "Kingdom"]
    ensures Words(headerCity) == words
  {
    HeadingUnwords(headerCity, words);
    assert IsWord(words[0]) && IsWord(words[1]) && IsWord(words[2]);
    assert IsWord(words[3]) && IsWord(words[4]);
    WordsUnwords(words);
  }

  lemma HeadingUnwords(headerCity: string, words: seq<string>)
    requires headerCity == "Weather in London, United Kingdom"
    requires words == ["Weather", "in", "London,", "United", "Kingdom"]
    ensures Unwords(words) == headerCity
  {
    UnwordsCons("United", ["Kingdom"]);
    assert ["United"] + ["Kingdom"] == ["United", "Kingdom"];
    UnwordsCons("London,", ["United", "Kingdom"]);
    assert ["London,"] + ["United", "Kingdom"] == ["London,", "United", "Kingdom"];
    UnwordsCons("in", ["London,", "United", "Kingdom"]);
    assert ["in"] + ["London,", "United", "Kingdom"] == ["in", "London,", "United", "Kingdom"];
    UnwordsCons("Weather", ["in", "London,", "United", "Kingdom"]);
    assert ["Weather"] + ["in", "London,", "United", "Kingdom"] == words;
  }

  // ---------------------------------------------------------------------------
  // Test.test_case_two: scrape, match the heading's city by name, merge

  /** What `test_case_two` ends with: a merge onto the named row, or the "no data found" notice. */
  datatype CrossCheck = MergedInto(cityId: int) | NoDataFor(firstWord: string)

  /** The completion response has a line `get_test` accepts. */
  predicate FindsCityPath(completionText: string) {
    var lines := Split(completionText, '\n');
    exists i :: 0 <= i < |lines| && ApiHelpers.Usable(lines[i])
  }

  /**
   * `test_case_two` once its inputs have arrived: `completionText` is the
   * completion response, `tableData` and `headerCity` the scraped table and
   * first heading. `Err` names the exception that ends the test.
   */
  method TestCaseTwo(db: DatabaseHelper, completionText: string, tableData: map<string, string>, headerCity: string)
    returns (r: Result<CrossCheck, string>)
    requires db.Valid()
    modifies db
    ensures db.Valid()
    ensures !FindsCityPath(completionText) ==>
              r == Err("AttributeError: 'NoneType' object has no attribute 'lower'") && db.rows == old(db.rows)
    ensures FindsCityPath(completionText) && "Location" !in tableData ==>
              r == Err("KeyError: 'Location'") && db.rows == old(db.rows)
    ensures FindsCityPath(completionText) && "Location" in tableData && ExtractCityName(headerCity).Err? ==>
              r == Err(ExtractCityName(headerCity).error) && db.rows == old(db.rows)
    ensures FindsCityPath(completionText) && "Location" in tableData && ExtractCityName(headerCity).Ok? ==>
              var found := FirstRow(old(db.rows), HasCity(ExtractCityName(headerCity).value));
              found.Some? ==>
                r == Ok(MergedInto(found.value.cityId))
                && db.rows == ExtendedMerged(old(db.rows), found.value.cityId, tableData)
    ensures FindsCityPath(completionText) && "Location" in tableData && ExtractCityName(headerCity).Ok? ==>
              var found := FirstRow(old(db.rows), HasCity(ExtractCityName(headerCity).value));
              var words := Words(tableData["Location"]);
              found.None? ==>
                db.rows == old(db.rows)
                && (|words| == 0 ==> r == Err("IndexError: list index out of range"))
                && (|words| > 0 ==> r == Ok(NoDataFor(words[0])))
  {
    var cityPath := ApiHelpers.GetTest(completionText);
    if cityPath.None? {
      return Err("AttributeError: 'NoneType' object has no attribute 'lower'");
    }
    if "Location" !in tableData {
      return Err("KeyError: 'Location'");
    }
    var scrapeCityName := tableData["Location"];
    var cityName := ExtractCityName(headerCity);
    if cityName.Err? {
      return Err(cityName.error);
    }
    var cityData := db.GetByCityName(cityName.value);
    if cityData.Some? {
      db.InsertExtendedData(cityData.value.cityId, tableData);
      return Ok(MergedInto(cityData.value.cityId));
    }
    var words := Words(scrapeCityName);
    if |words| == 0 {
      return Err("IndexError: list index out of range");
    }
    return Ok(NoDataFor(words[0]));
  }

  /**
   * With one row per city id, the row the merge updates (the first with the
   * found row's city id) is the row the name lookup found.
   */
  lemma ByNameThenById(rows: seq<Row>, city: string)
    requires UniqueCityIds(rows)
    requires FirstRow(rows, HasCity(city)).Some?
    ensures var found := FirstRow(rows, HasCity(city)).value;
            FirstRow(rows, HasCityId(found.cityId)) == Some(found)
  {
    var i := FirstIndex(rows, HasCity(city)).value;
    FirstIndexAt(rows, HasCityId(rows[i].cityId), i);
  }
}
