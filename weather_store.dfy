/**
 * The `weather_data` table and the `DatabaseHelper` that reads and writes it
 * (automation_framework/utilities/db_helpers.py). The table is a sequence of
 * rows in insertion order; the SQL engine, the session and the commits are not
 * modelled, only what each operation does to the rows.
 */
module WeatherStore {
  import opened Wrappers
  import opened Sequences

  /** One row of `weather_data`: the key columns, the readings and the seven scraped fields. */
  datatype Row = Row(
    id: int,
    cityId: int,
    city: string,
    temperature: real,
    feelsLike: real,
    average: Option<real>,
    location: Option<string>,
    currentTime: Option<string>,
    latestReport: Option<string>,
    visibility: Option<string>,
    pressure: Option<string>,
    humidity: Option<string>,
    dewPoint: Option<string>)

  /** The arguments of one `insert_or_update_weather_data` call. */
  datatype Reading = Reading(cityId: int, city: string, temperature: real, feelsLike: real, average: Option<real>)

  /** The seven optional columns that the extended-data merge may set. */
  datatype ExtField = Location | CurrentTime | LatestReport | Visibility | Pressure | Humidity | DewPoint

  /** The display label that `attribute_map` maps to each field. */
  function Label(f: ExtField): string {
    match f
    case Location => "Location"
    case CurrentTime => "Current Time"
    case LatestReport => "Latest Report"
    case Visibility => "Visibility"
    case Pressure => "Pressure"
    case Humidity => "Humidity"
    case DewPoint => "Dew Point"
  }

  /** `attribute_map.get(key)`: the field a display label names, if it names one. */
  function AttributeFor(key: string): (f: Option<ExtField>)
    ensures f.Some? ==> Label(f.value) == key
    ensures f.None? ==> forall g: ExtField :: Label(g) != key
  {
    if key == "Location" then Some(Location)
    else if key == "Current Time" then Some(CurrentTime)
    else if key == "Latest Report" then Some(LatestReport)
    else if key == "Visibility" then Some(Visibility)
    else if key == "Pressure" then Some(Pressure)
    else if key == "Humidity" then Some(Humidity)
    else if key == "Dew Point" then Some(DewPoint)
    else None
  }

  function Field(r: Row, f: ExtField): Option<string> {
    match f
    case Location => r.location
    case CurrentTime => r.currentTime
    case LatestReport => r.latestReport
    case Visibility => r.visibility
    case Pressure => r.pressure
    case Humidity => r.humidity
    case DewPoint => r.dewPoint
  }

  /** `setattr(row, attr_name, v)` for one of the seven fields. */
  function WithField(r: Row, f: ExtField, v: Option<string>): (r': Row)
    ensures SameBase(r, r') && Field(r', f) == v
    ensures forall g :: g != f ==> Field(r', g) == Field(r, g)
  {
    match f
    case Location => r.(location := v)
    case CurrentTime => r.(currentTime := v)
    case LatestReport => r.(latestReport := v)
    case Visibility => r.(visibility := v)
    case Pressure => r.(pressure := v)
    case Humidity => r.(humidity := v)
    case DewPoint => r.(dewPoint := v)
  }

  /** Two rows agree on every column that is not an extended field. */
  predicate SameBase(a: Row, b: Row) {
    a.id == b.id && a.cityId == b.cityId && a.city == b.city
    && a.temperature == b.temperature && a.feelsLike == b.feelsLike && a.average == b.average
  }

  /** Rows that agree on the base columns and on every extended field are the same row. */
  lemma RowsEqual(a: Row, b: Row)
    requires SameBase(a, b) && forall f :: Field(a, f) == Field(b, f)
    ensures a == b
  {
    assert Field(a, Location) == Field(b, Location);
    assert Field(a, CurrentTime) == Field(b, CurrentTime);
    assert Field(a, LatestReport) == Field(b, LatestReport);
    assert Field(a, Visibility) == Field(b, Visibility);
    assert Field(a, Pressure) == Field(b, Pressure);
    assert Field(a, Humidity) == Field(b, Humidity);
    assert Field(a, DewPoint) == Field(b, DewPoint);
  }

  // ---------------------------------------------------------------------------
  // Queries

  function HasCityId(cityId: int): Row -> bool {
    (row: Row) => row.cityId == cityId
  }

  function HasCity(city: string): Row -> bool {
    (row: Row) => row.city == city
  }

  /** `query(WeatherData).filter(...).first()`: the first row, in table order, that matches. */
  function FirstRow(rows: seq<Row>, p: Row -> bool): (r: Option<Row>)
    ensures r.None? <==> forall k :: 0 <= k < |rows| ==> !p(rows[k])
    ensures r.Some? ==> exists i :: 0 <= i < |rows| && rows[i] == r.value && p(rows[i])
                                    && forall k :: 0 <= k < i ==> !p(rows[k])
  {
    match FirstIndex(rows, p)
    case None => None
    case Some(i) => Some(rows[i])
  }

  // ---------------------------------------------------------------------------
  // Table invariants

  /** The primary key: no two rows share an `id`. */
  ghost predicate DistinctIds(rows: seq<Row>) {
    forall j, k :: 0 <= j < k < |rows| ==> rows[j].id != rows[k].id
  }

  /**
   * The table as SQLite scans it without `ORDER BY`: in rowid order, so the
   * ids strictly increase along the sequence.
   */
  ghost predicate IncreasingIds(rows: seq<Row>) {
    forall j, k :: 0 <= j < k < |rows| ==> rows[j].id < rows[k].id
  }

  lemma IncreasingIdsAreDistinct(rows: seq<Row>)
    requires IncreasingIds(rows)
    ensures DistinctIds(rows)
  {
  }

  /** At most one row per `city_id`; the schema does not enforce it, the upsert keeps it. */
  ghost predicate UniqueCityIds(rows: seq<Row>) {
    forall j, k :: 0 <= j < k < |rows| ==> rows[j].cityId != rows[k].cityId
  }

  function CityIds(rows: seq<Row>): set<int> {
    set k | 0 <= k < |rows| :: rows[k].cityId
  }

  /** The id SQLite gives a new row: one more than the largest id, or 1 in an empty table. */
  function NewId(rows: seq<Row>): (id: int)
    ensures forall k :: 0 <= k < |rows| ==> rows[k].id < id
    decreases |rows|
  {
    if |rows| == 0 then 1
    else if |rows| == 1 then rows[0].id + 1
    else
      var last := rows[|rows| - 1].id + 1;
      var before := NewId(rows[..|rows| - 1]);
      if last > before then last else before
  }

  /** The new id is exactly one more than some existing id, hence one more than the largest. */
  lemma {:induction false} NewIdIsLargestPlusOne(rows: seq<Row>)
    ensures |rows| == 0 ==> NewId(rows) == 1
    ensures |rows| > 0 ==> exists k :: 0 <= k < |rows| && rows[k].id + 1 == NewId(rows)
    decreases |rows|
  {
    if |rows| > 1 {
      var prefix := rows[..|rows| - 1];
      NewIdIsLargestPlusOne(prefix);
      if rows[|rows| - 1].id + 1 <= NewId(prefix) {
        var k :| 0 <= k < |prefix| && prefix[k].id + 1 == NewId(prefix);
        assert rows[k] == prefix[k];
      }
    } else if |rows| == 1 {
      assert rows[0].id + 1 == NewId(rows);
    }
  }

  // ---------------------------------------------------------------------------
  // The writes, as functions of the table

  /** The table after `insert_or_update_weather_data(cityId, city, temperature, feelsLike, average)`. */
  function Upserted(rows: seq<Row>, cityId: int, city: string, temperature: real, feelsLike: real,
                    average: Option<real>): seq<Row>
  {
    match FirstIndex(rows, HasCityId(cityId))
    case Some(i) =>
      rows[i := rows[i].(city := city, temperature := temperature, feelsLike := feelsLike, average := average)]
    case None =>
      rows + [Row(NewId(rows), cityId, city, temperature, feelsLike, average,
                  None, None, None, None, None, None, None)]
  }

  /** The table after a sequence of upserts, applied in order. */
  function UpsertAll(rows: seq<Row>, readings: seq<Reading>): seq<Row>
    decreases |readings|
  {
    if |readings| == 0 then rows
    else
      var r := readings[|readings| - 1];
      Upserted(UpsertAll(rows, readings[..|readings| - 1]), r.cityId, r.city, r.temperature, r.feelsLike, r.average)
  }

  /** What `update_existing_data` leaves in a row: each known label's value in its field. */
  function Merged(r: Row, extendedData: map<string, string>): (r': Row)
    ensures SameBase(r, r')
    ensures forall f :: Field(r', f) == (if Label(f) in extendedData then Some(extendedData[Label(f)]) else Field(r, f))
  {
    r.(location := Pick(extendedData, Location, r.location),
       currentTime := Pick(extendedData, CurrentTime, r.currentTime),
       latestReport := Pick(extendedData, LatestReport, r.latestReport),
       visibility := Pick(extendedData, Visibility, r.visibility),
       pressure := Pick(extendedData, Pressure, r.pressure),
       humidity := Pick(extendedData, Humidity, r.humidity),
       dewPoint := Pick(extendedData, DewPoint, r.dewPoint))
  }

  function Pick(extendedData: map<string, string>, f: ExtField, current: Option<string>): Option<string> {
    if Label(f) in extendedData then Some(extendedData[Label(f)]) else current
  }

  /** The table after `insert_extended_data(cityId, extendedData)`. */
  function ExtendedMerged(rows: seq<Row>, cityId: int, extendedData: map<string, string>): seq<Row> {
    match FirstIndex(rows, HasCityId(cityId))
    case None => rows
    case Some(i) => if |extendedData| == 0 then rows else rows[i := Merged(rows[i], extendedData)]
  }

  /** The part of `extendedData` whose labels `attribute_map` knows. */
  function KnownLabels(extendedData: map<string, string>): map<string, string> {
    map k | k in extendedData && AttributeFor(k).Some? :: extendedData[k]
  }

  /** One more reading is one more upsert, on the table the earlier readings left. */
  lemma UpsertAllAppend(rows: seq<Row>, readings: seq<Reading>, r: Reading)
    ensures UpsertAll(rows, readings + [r])
         == Upserted(UpsertAll(rows, readings), r.cityId, r.city, r.temperature, r.feelsLike, r.average)
  {
    assert (readings + [r])[..|readings|] == readings;
  }

  // ---------------------------------------------------------------------------
  // Properties of the upsert

  /** After an upsert, looking the city id up finds a row holding exactly the values written. */
  lemma UpsertThenGet(rows: seq<Row>, cityId: int, city: string, temperature: real, feelsLike: real,
                      average: Option<real>)
    ensures var r := FirstRow(Upserted(rows, cityId, city, temperature, feelsLike, average), HasCityId(cityId));
            r.Some? && r.value.cityId == cityId && r.value.city == city && r.value.temperature == temperature
            && r.value.feelsLike == feelsLike && r.value.average == average
  {
    var after := Upserted(rows, cityId, city, temperature, feelsLike, average);
    match FirstIndex(rows, HasCityId(cityId))
    case Some(i) =>
      assert forall k :: 0 <= k < i ==> after[k] == rows[k];
      FirstIndexAt(after, HasCityId(cityId), i);
    case None =>
      assert forall k :: 0 <= k < |rows| ==> after[k] == rows[k];
      FirstIndexAt(after, HasCityId(cityId), |rows|);
  }

  /** An upsert onto an existing city id adds no row and rewrites only the first match's readings. */
  lemma UpsertExisting(rows: seq<Row>, cityId: int, city: string, temperature: real, feelsLike: real,
                       average: Option<real>, i: nat)
    requires FirstIndex(rows, HasCityId(cityId)) == Some(i)
    ensures var after := Upserted(rows, cityId, city, temperature, feelsLike, average);
            |after| == |rows|
            && (forall k :: 0 <= k < |rows| && k != i ==> after[k] == rows[k])
            && after[i].id == rows[i].id && after[i].cityId == cityId
            && (forall f :: Field(after[i], f) == Field(rows[i], f))
            && after[i].city == city && after[i].temperature == temperature
            && after[i].feelsLike == feelsLike && after[i].average == average
  {
  }

  /** An upsert of a new city id appends one row whose scraped fields are all null. */
  lemma UpsertNew(rows: seq<Row>, cityId: int, city: string, temperature: real, feelsLike: real,
                  average: Option<real>)
    requires forall k :: 0 <= k < |rows| ==> rows[k].cityId != cityId
    ensures var after := Upserted(rows, cityId, city, temperature, feelsLike, average);
            |after| == |rows| + 1 && after[..|rows|] == rows
            && after[|rows|].cityId == cityId && after[|rows|].city == city
            && after[|rows|].temperature == temperature && after[|rows|].feelsLike == feelsLike
            && after[|rows|].average == average
            && (forall f :: Field(after[|rows|], f) == None)
            && (forall k :: 0 <= k < |rows| ==> rows[k].id != after[|rows|].id)
  {
    assert FirstIndex(rows, HasCityId(cityId)) == None;
  }

  /** Rows with another city id are untouched, and the table only grows. */
  lemma UpsertLeavesOtherCities(rows: seq<Row>, cityId: int, city: string, temperature: real, feelsLike: real,
                                average: Option<real>)
    ensures var after := Upserted(rows, cityId, city, temperature, feelsLike, average);
            |rows| <= |after| <= |rows| + 1
            && forall k :: 0 <= k < |rows| && rows[k].cityId != cityId ==> after[k] == rows[k]
    ensures CityIds(Upserted(rows, cityId, city, temperature, feelsLike, average)) == CityIds(rows) + {cityId}
  {
    var after := Upserted(rows, cityId, city, temperature, feelsLike, average);
    match FirstIndex(rows, HasCityId(cityId))
    case Some(i) =>
      assert after[i].cityId == rows[i].cityId;
      assert forall k :: 0 <= k < |after| ==> after[k].cityId == rows[k].cityId;
      assert CityIds(after) == CityIds(rows);
    case None =>
      assert after[|rows|].cityId == cityId;
      assert forall k :: 0 <= k < |rows| ==> after[k] == rows[k];
      assert CityIds(after) == CityIds(rows) + {cityId};
  }

  /** The upsert keeps "at most one row per city id". */
  lemma UpsertKeepsUniqueCityIds(rows: seq<Row>, cityId: int, city: string, temperature: real, feelsLike: real,
                                 average: Option<real>)
    requires UniqueCityIds(rows)
    ensures UniqueCityIds(Upserted(rows, cityId, city, temperature, feelsLike, average))
  {
    var after := Upserted(rows, cityId, city, temperature, feelsLike, average);
    match FirstIndex(rows, HasCityId(cityId))
    case Some(i) =>
      assert forall k :: 0 <= k < |after| ==> after[k].cityId == rows[k].cityId;
    case None =>
      assert forall k :: 0 <= k < |rows| ==> after[k] == rows[k];
  }

  /** The upsert keeps the primary key distinct. */
  lemma UpsertKeepsDistinctIds(rows: seq<Row>, cityId: int, city: string, temperature: real, feelsLike: real,
                               average: Option<real>)
    requires DistinctIds(rows)
    ensures DistinctIds(Upserted(rows, cityId, city, temperature, feelsLike, average))
  {
    var after := Upserted(rows, cityId, city, temperature, feelsLike, average);
    match FirstIndex(rows, HasCityId(cityId))
    case Some(i) =>
      assert forall k :: 0 <= k < |after| ==> after[k].id == rows[k].id;
    case None =>
      assert forall k :: 0 <= k < |rows| ==> after[k] == rows[k];
  }

  /** The upsert keeps the rowid order: an update keeps every id, an append uses a larger one. */
  lemma UpsertKeepsIncreasingIds(rows: seq<Row>, cityId: int, city: string, temperature: real, feelsLike: real,
                                 average: Option<real>)
    requires IncreasingIds(rows)
    ensures IncreasingIds(Upserted(rows, cityId, city, temperature, feelsLike, average))
  {
    var after := Upserted(rows, cityId, city, temperature, feelsLike, average);
    match FirstIndex(rows, HasCityId(cityId))
    case Some(i) =>
      assert forall k :: 0 <= k < |after| ==> after[k].id == rows[k].id;
    case None =>
      assert forall k :: 0 <= k < |rows| ==> after[k] == rows[k];
      assert after[|rows|].id == NewId(rows);
  }

  /** Upserting the same city id twice leaves what the second upsert alone would leave. */
  lemma UpsertTwice(rows: seq<Row>, cityId: int, city1: string, temperature1: real, feelsLike1: real,
                    average1: Option<real>, city2: string, temperature2: real, feelsLike2: real,
                    average2: Option<real>)
    ensures Upserted(Upserted(rows, cityId, city1, temperature1, feelsLike1, average1),
                     cityId, city2, temperature2, feelsLike2, average2)
         == Upserted(rows, cityId, city2, temperature2, feelsLike2, average2)
  {
    var once := Upserted(rows, cityId, city1, temperature1, feelsLike1, average1);
    match FirstIndex(rows, HasCityId(cityId))
    case Some(i) =>
      assert forall k :: 0 <= k < i ==> once[k] == rows[k];
      FirstIndexAt(once, HasCityId(cityId), i);
    case None =>
      assert forall k :: 0 <= k < |rows| ==> once[k] == rows[k];
      FirstIndexAt(once, HasCityId(cityId), |rows|);
      assert once[..|rows|] == rows;
  }

  /** An upsert of one city id does not change what a lookup of another city id finds. */
  lemma UpsertKeepsOtherLookups(rows: seq<Row>, cityId: int, city: string, temperature: real, feelsLike: real,
                                average: Option<real>, other: int)
    requires other != cityId
    ensures FirstRow(Upserted(rows, cityId, city, temperature, feelsLike, average), HasCityId(other))
         == FirstRow(rows, HasCityId(other))
  {
    var after := Upserted(rows, cityId, city, temperature, feelsLike, average);
    assert forall k :: 0 <= k < |rows| ==> after[k].cityId == rows[k].cityId;
    assert forall k :: 0 <= k < |rows| && rows[k].cityId == other ==> after[k] == rows[k];
    match FirstIndex(rows, HasCityId(other))
    case Some(i) =>
      FirstIndexAt(after, HasCityId(other), i);
    case None =>
      assert forall k :: 0 <= k < |after| ==> after[k].cityId != other;
  }

  /** A whole run of upserts keeps city ids unique. */
  lemma {:induction false} UpsertAllKeepsUniqueCityIds(rows: seq<Row>, readings: seq<Reading>)
    requires UniqueCityIds(rows)
    ensures UniqueCityIds(UpsertAll(rows, readings))
    decreases |readings|
  {
    if |readings| > 0 {
      var r := readings[|readings| - 1];
      UpsertAllKeepsUniqueCityIds(rows, readings[..|readings| - 1]);
      UpsertKeepsUniqueCityIds(UpsertAll(rows, readings[..|readings| - 1]), r.cityId, r.city, r.temperature,
                               r.feelsLike, r.average);
    }
  }

  /**
   * After a sequence of upserts, a lookup of a reading's city id finds that
   * reading's values when no later reading has the same city id.
   */
  lemma {:induction false} UpsertAllThenGet(rows: seq<Row>, readings: seq<Reading>, i: nat)
    requires i < |readings|
    requires forall j :: i < j < |readings| ==> readings[j].cityId != readings[i].cityId
    ensures var r := FirstRow(UpsertAll(rows, readings), HasCityId(readings[i].cityId));
            r.Some? && r.value.city == readings[i].city && r.value.temperature == readings[i].temperature
            && r.value.feelsLike == readings[i].feelsLike && r.value.average == readings[i].average
    decreases |readings|
  {
    var n := |readings| - 1;
    var before := UpsertAll(rows, readings[..n]);
    var last := readings[n];
    if i == n {
      UpsertThenGet(before, last.cityId, last.city, last.temperature, last.feelsLike, last.average);
    } else {
      var prefix := readings[..n];
      assert prefix[i] == readings[i];
      assert forall j :: i < j < |prefix| ==> prefix[j] == readings[j];
      UpsertAllThenGet(rows, prefix, i);
      UpsertKeepsOtherLookups(before, last.cityId, last.city, last.temperature, last.feelsLike, last.average,
                              readings[i].cityId);
    }
  }

  // ---------------------------------------------------------------------------
  // Properties of the extended-data merge

  /** Labels outside `attribute_map` change nothing: merging them is merging only the known ones. */
  lemma MergedIgnoresUnknownLabels(r: Row, extendedData: map<string, string>)
    ensures Merged(r, extendedData) == Merged(r, KnownLabels(extendedData))
    ensures Merged(r, map[]) == r
  {
    var known := KnownLabels(extendedData);
    forall f ensures Field(Merged(r, extendedData), f) == Field(Merged(r, known), f) {
      assert AttributeFor(Label(f)) == Some(f) by { AttributeForLabel(f); }
      assert Label(f) in extendedData <==> Label(f) in known;
    }
    RowsEqual(Merged(r, extendedData), Merged(r, known));
    RowsEqual(Merged(r, map[]), r);
  }

  /** Every field's label is a known label and names that field. */
  lemma AttributeForLabel(f: ExtField)
    ensures AttributeFor(Label(f)) == Some(f)
  {
  }

  /** The merge is a no-op without a base row or without data, and otherwise touches only the first match. */
  lemma ExtendedMergedEffect(rows: seq<Row>, cityId: int, extendedData: map<string, string>)
    ensures FirstRow(rows, HasCityId(cityId)).None? || |extendedData| == 0
            ==> ExtendedMerged(rows, cityId, extendedData) == rows
    ensures var after := ExtendedMerged(rows, cityId, extendedData);
            |after| == |rows|
            && forall k :: 0 <= k < |rows| ==>
                 SameBase(rows[k], after[k]) && (rows[k].cityId != cityId ==> after[k] == rows[k])
    ensures var after := ExtendedMerged(rows, cityId, extendedData);
            forall i :: FirstIndex(rows, HasCityId(cityId)) == Some(i) && |extendedData| > 0 ==>
              forall f :: Field(after[i], f) == (if Label(f) in extendedData then Some(extendedData[Label(f)])
                                                 else Field(rows[i], f))
    ensures var after := ExtendedMerged(rows, cityId, extendedData);
            forall k :: 0 <= k < |rows| && FirstIndex(rows, HasCityId(cityId)) != Some(k) ==> after[k] == rows[k]
  {
  }

  /** The merge keeps both table invariants and every city id. */
  lemma ExtendedMergedKeepsInvariants(rows: seq<Row>, cityId: int, extendedData: map<string, string>)
    ensures DistinctIds(rows) ==> DistinctIds(ExtendedMerged(rows, cityId, extendedData))
    ensures IncreasingIds(rows) ==> IncreasingIds(ExtendedMerged(rows, cityId, extendedData))
    ensures UniqueCityIds(rows) ==> UniqueCityIds(ExtendedMerged(rows, cityId, extendedData))
    ensures CityIds(ExtendedMerged(rows, cityId, extendedData)) == CityIds(rows)
  {
    var after := ExtendedMerged(rows, cityId, extendedData);
    assert forall k :: 0 <= k < |rows| ==> after[k].id == rows[k].id && after[k].cityId == rows[k].cityId;
  }

  // ---------------------------------------------------------------------------
  // DatabaseHelper

  /** The helper around the session: its `rows` are the table's current contents. */
  class DatabaseHelper {
    var rows: seq<Row>

    /** The rows are in rowid order, so the ids are also distinct. */
    ghost predicate Valid()
      reads this
    {
      IncreasingIds(rows)
    }

    /** Opens the store on whatever the database file already holds, read in rowid order. */
    constructor (existing: seq<Row>)
      requires IncreasingIds(existing)
      ensures Valid() && rows == existing
    {
      rows := existing;
    }

    /** Update the first row with this city id, or append a new row when there is none. */
    method InsertOrUpdateWeatherData(cityId: int, city: string, temperature: real, feelsLike: real,
                                     average: Option<real>)
      requires Valid()
      modifies this
      ensures Valid()
      ensures rows == Upserted(old(rows), cityId, city, temperature, feelsLike, average)
      ensures old(UniqueCityIds(rows)) ==> UniqueCityIds(rows)
    {
      UpsertKeepsIncreasingIds(rows, cityId, city, temperature, feelsLike, average);
      if UniqueCityIds(rows) {
        UpsertKeepsUniqueCityIds(rows, cityId, city, temperature, feelsLike, average);
      }
      var existing := FirstIndex(rows, HasCityId(cityId));
      match existing {
        case Some(i) =>
          var row := rows[i];
          row := row.(city := city, temperature := temperature, feelsLike := feelsLike, average := average);
          rows := rows[i := row];
        case None =>
          var row := Row(NewId(rows), cityId, city, temperature, feelsLike, average,
                         None, None, None, None, None, None, None);
          rows := rows + [row];
      }
    }

    /** Merge scraped fields into the base row of `cityId`, if there is one and there is data. */
    method InsertExtendedData(cityId: int, extendedData: map<string, string>)
      requires Valid()
      modifies this
      ensures Valid()
      ensures rows == ExtendedMerged(old(rows), cityId, extendedData)
      ensures old(UniqueCityIds(rows)) ==> UniqueCityIds(rows)
    {
      ExtendedMergedKeepsInvariants(rows, cityId, extendedData);
      var existing := FirstIndex(rows, HasCityId(cityId));
      if existing.None? {
        return;
      }
      if |extendedData| == 0 {
        return;
      }
      UpdateExistingData(existing.value, extendedData);
    }

    /** Set the field of each known label of `extendedData` on row `i`; unknown labels are skipped. */
    method UpdateExistingData(i: nat, extendedData: map<string, string>)
      requires Valid() && i < |rows|
      modifies this
      ensures Valid()
      ensures rows == old(rows)[i := Merged(old(rows)[i], extendedData)]
    {
      var start := rows[i];
      var row := start;
      var pending := extendedData.Keys;
      while pending != {}
        invariant pending <= extendedData.Keys
        invariant SameBase(start, row)
        invariant forall f :: Field(row, f) == (if Label(f) in extendedData && Label(f) !in pending
                                                then Some(extendedData[Label(f)]) else Field(start, f))
        decreases pending
      {
        var key :| key in pending;
        match AttributeFor(key) {
          case Some(f) =>
            row := WithField(row, f, Some(extendedData[key]));
          case None =>
        }
        pending := pending - {key};
      }
      RowsEqual(row, Merged(start, extendedData));
      rows := rows[i := row];
    }

    /** `get_by_city_id`: the first row with this city id. */
    function GetByCityId(cityId: int): (r: Option<Row>)
      reads this
      ensures r.None? <==> forall k :: 0 <= k < |rows| ==> rows[k].cityId != cityId
      ensures r.Some? ==> exists i :: 0 <= i < |rows| && rows[i] == r.value && rows[i].cityId == cityId
                                      && forall k :: 0 <= k < i ==> rows[k].cityId != cityId
      ensures Valid() && r.Some? ==>
                forall k :: 0 <= k < |rows| && rows[k].cityId == cityId ==> r.value.id <= rows[k].id
    {
      FirstRow(rows, HasCityId(cityId))
    }

    /** `get_by_city_name`: the first row with this city name. */
    function GetByCityName(city: string): (r: Option<Row>)
      reads this
      ensures r.None? <==> forall k :: 0 <= k < |rows| ==> rows[k].city != city
      ensures r.Some? ==> exists i :: 0 <= i < |rows| && rows[i] == r.value && rows[i].city == city
                                      && forall k :: 0 <= k < i ==> rows[k].city != city
      ensures Valid() && r.Some? ==>
                forall k :: 0 <= k < |rows| && rows[k].city == city ==> r.value.id <= rows[k].id
    {
      FirstRow(rows, HasCity(city))
    }
  }
}
