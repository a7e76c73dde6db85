/** The weather source (`src/collect_meteo.py`): building weather rows from
    the `hourly` arrays of an Open-Meteo response, and the validator that
    interpolates gaps, repairs out-of-range values with the column median and
    drops duplicate timestamps. */
module Meteo {
  import opened Wrappers
  import opened Seqs
  import opened Columns

  /** One weather row. Sunshine is a percentage derived from cloud cover; the
      cloud cover itself is not kept. */
  datatype MeteoRow = MeteoRow(
    datetime: int,
    temperature: Option<real>,
    vent: Option<real>,
    ensoleillement: Option<real>)

  function RowTime(r: MeteoRow): int
  {
    r.datetime
  }

  /* ------------------------------------------------------- row building */

  /** The `hourly` object of the response; an absent array is `None` (an
      absent `hourly` object is the all-`None` value). */
  datatype Hourly = Hourly(
    time: Option<seq<int>>,
    temperature2m: Option<seq<Option<real>>>,
    windspeed10m: Option<seq<Option<real>>>,
    cloudcover: Option<seq<Option<real>>>)

  datatype BuildError =
    | MissingKey(name: string)   // the `KeyError` of indexing `hourly`
    | LengthMismatch             // pandas refuses arrays of different lengths

  /** `100 - cloudcover`, missing when the cloud cover is missing. */
  function Sunshine(cloud: Option<real>): (s: Option<real>)
    ensures s.Some? <==> cloud.Some?
    ensures s.Some? ==> s.value + cloud.value == 100.0
  {
    match cloud
    case None => None
    case Some(c) => Some(100.0 - c)
  }

  /** The cloud cover a sunshine value came from. */
  function CloudCover(sun: Option<real>): Option<real>
  {
    match sun
    case None => None
    case Some(s) => Some(100.0 - s)
  }

  /** Sunshine loses no information: the cloud cover can be recovered. */
  lemma SunshineRoundTrip(cloud: Option<real>)
    ensures CloudCover(Sunshine(cloud)) == cloud
  {
  }

  predicate SameLengths(t: seq<int>, a: seq<Option<real>>, b: seq<Option<real>>, c: seq<Option<real>>)
  {
    |t| == |a| && |a| == |b| && |b| == |c|
  }

  /** The record construction of `get_meteo_data` once the response is in
      hand: the keys are read in the order time, temperature, wind speed,
      cloud cover; one row per timestamp. */
  function BuildMeteoRows(h: Hourly): (r: Result<seq<MeteoRow>, BuildError>)
    ensures r.Failure? && r.error.MissingKey? <==>
              h.time.None? || h.temperature2m.None? || h.windspeed10m.None? || h.cloudcover.None?
    ensures r.Failure? && r.error.MissingKey? && h.time.None? ==> r.error.name == "time"
    ensures h.time.Some? && h.temperature2m.None? ==>
              r.Failure? && r.error.MissingKey? && r.error.name == "temperature_2m"
    ensures h.time.Some? && h.temperature2m.Some? && h.windspeed10m.None? ==>
              r.Failure? && r.error.MissingKey? && r.error.name == "windspeed_10m"
    ensures h.time.Some? && h.temperature2m.Some? && h.windspeed10m.Some? && h.cloudcover.None? ==>
              r.Failure? && r.error.MissingKey? && r.error.name == "cloudcover"
    ensures r.Success? <==>
              && h.time.Some? && h.temperature2m.Some? && h.windspeed10m.Some? && h.cloudcover.Some?
              && SameLengths(h.time.value, h.temperature2m.value, h.windspeed10m.value, h.cloudcover.value)
    ensures r.Success? ==> |r.value| == |h.time.value|
    ensures r.Success? ==> forall i :: 0 <= i < |r.value| ==>
              && r.value[i].datetime == h.time.value[i]
              && r.value[i].temperature == h.temperature2m.value[i]
              && r.value[i].vent == h.windspeed10m.value[i]
              && CloudCover(r.value[i].ensoleillement) == h.cloudcover.value[i]
              && (h.cloudcover.value[i].Some? ==>
                    r.value[i].ensoleillement == Some(100.0 - h.cloudcover.value[i].value))
  {
    if h.time.None? then Failure(MissingKey("time"))
    else if h.temperature2m.None? then Failure(MissingKey("temperature_2m"))
    else if h.windspeed10m.None? then Failure(MissingKey("windspeed_10m"))
    else if h.cloudcover.None? then Failure(MissingKey("cloudcover"))
    else
      var t, a, b, c := h.time.value, h.temperature2m.value, h.windspeed10m.value, h.cloudcover.value;
      if !SameLengths(t, a, b, c) then Failure(LengthMismatch)
      else
        Success(seq(|t|, i requires 0 <= i < |t| => MeteoRow(t[i], a[i], b[i], Sunshine(c[i]))))
  }

  /* --------------------------------------------------------- validation */

  datatype Field = Temperature | Wind | Sun

  function Get(r: MeteoRow, f: Field): Option<real>
  {
    match f
    case Temperature => r.temperature
    case Wind => r.vent
    case Sun => r.ensoleillement
  }

  /** Realistic ranges, both bounds valid: temperature in [-30, 50] degrees,
      wind in [0, 200] km/h, sunshine in [0, 100] percent. */
  function Lo(f: Field): real
  {
    match f
    case Temperature => -30.0
    case Wind => 0.0
    case Sun => 0.0
  }

  function Hi(f: Field): real
  {
    match f
    case Temperature => 50.0
    case Wind => 200.0
    case Sun => 100.0
  }

  function ColumnOf(rows: seq<MeteoRow>, f: Field): (col: Column)
    ensures |col| == |rows|
    ensures forall i :: 0 <= i < |rows| ==> col[i] == Get(rows[i], f)
  {
    seq(|rows|, i requires 0 <= i < |rows| => Get(rows[i], f))
  }

  /** `df.isnull().sum().any()`: some cell of some row is missing (the
      timestamp never is). */
  predicate AnyMissing(rows: seq<MeteoRow>)
  {
    exists i, f :: 0 <= i < |rows| && Get(rows[i], f).None?
  }

  /** A column after the interpolation step, which only runs when something
      is missing. */
  function Filled(rows: seq<MeteoRow>, f: Field): (col: Column)
    ensures |col| == |rows|
    ensures forall i :: 0 <= i < |rows| && Get(rows[i], f).Some? ==> col[i] == Get(rows[i], f)
    ensures forall i, j :: 0 <= j <= i < |rows| && Get(rows[j], f).Some? ==> col[i].Some?
  {
    if AnyMissing(rows) then Interpolate(ColumnOf(rows, f)) else ColumnOf(rows, f)
  }

  /** Skipping the interpolation when nothing is missing changes nothing: the
      filled column is the linear interpolation of the raw column either way. */
  lemma FilledIsInterpolation(rows: seq<MeteoRow>, f: Field)
    ensures Filled(rows, f) == Interpolate(ColumnOf(rows, f))
  {
    if !AnyMissing(rows) {
      InterpolateNoGap(ColumnOf(rows, f));
    }
  }

  /** A column after the range repair. */
  function Repaired(rows: seq<MeteoRow>, f: Field): (col: Column)
    ensures |col| == |rows|
  {
    ReplaceOutliers(Filled(rows, f), Lo(f), Hi(f))
  }

  /** Rows with their three value columns replaced, position by position. */
  function Assemble(rows: seq<MeteoRow>, t: Column, w: Column, s: Column): (r: seq<MeteoRow>)
    requires |t| == |rows| && |w| == |rows| && |s| == |rows|
    ensures |r| == |rows|
    ensures forall i :: 0 <= i < |rows| ==> r[i] == MeteoRow(rows[i].datetime, t[i], w[i], s[i])
  {
    seq(|rows|, i requires 0 <= i < |rows| => MeteoRow(rows[i].datetime, t[i], w[i], s[i]))
  }

  /** The first two steps of `validate_meteo_data`: interpolation, then range
      repair, each column on its own. Row positions and timestamps stay. */
  function CleanValues(rows: seq<MeteoRow>): (r: seq<MeteoRow>)
    ensures |r| == |rows|
    ensures forall i :: 0 <= i < |rows| ==> r[i].datetime == rows[i].datetime
    ensures forall i :: 0 <= i < |rows| ==>
              && r[i].temperature == Repaired(rows, Temperature)[i]
              && r[i].vent == Repaired(rows, Wind)[i]
              && r[i].ensoleillement == Repaired(rows, Sun)[i]
  {
    Assemble(rows, Repaired(rows, Temperature), Repaired(rows, Wind), Repaired(rows, Sun))
  }

  /** One cleaned cell: the filled value when it is in range or missing,
      the median of the filled column when it is out of range; a value
      present before cleaning is present after. */
  lemma CleanValuesCell(rows: seq<MeteoRow>, i: int, f: Field)
    requires 0 <= i < |rows|
    ensures !OutOfRange(Filled(rows, f)[i], Lo(f), Hi(f)) ==> Get(CleanValues(rows)[i], f) == Filled(rows, f)[i]
    ensures OutOfRange(Filled(rows, f)[i], Lo(f), Hi(f)) ==>
              Get(CleanValues(rows)[i], f) == Median(Filled(rows, f)) && Get(CleanValues(rows)[i], f).Some?
    ensures Get(rows[i], f).Some? ==> Get(CleanValues(rows)[i], f).Some?
    ensures Get(rows[i], f).None? && Get(CleanValues(rows)[i], f).Some? ==> AnyMissing(rows)
  {
  }

  /** Two row sequences with the same timestamp at every position have the
      same timestamps, and one is duplicate-free exactly when the other is. */
  lemma SameTimes(a: seq<MeteoRow>, b: seq<MeteoRow>)
    requires |a| == |b| && forall i :: 0 <= i < |a| ==> a[i].datetime == b[i].datetime
    ensures KeysOf(a, RowTime) == KeysOf(b, RowTime)
    ensures UniqueKeys(a, RowTime) <==> UniqueKeys(b, RowTime)
  {
    assert forall i :: 0 <= i < |a| ==> RowTime(a[i]) == RowTime(b[i]);
  }

  /** `validate_meteo_data`: interpolation, range repair, then
      `drop_duplicates(subset=["datetime"])` keeping the first row. */
  function ValidateMeteo(rows: seq<MeteoRow>): (r: seq<MeteoRow>)
    ensures UniqueKeys(r, RowTime)
    ensures KeysOf(r, RowTime) == KeysOf(rows, RowTime)
    ensures |r| == |KeysOf(rows, RowTime)|
    ensures forall j :: 0 <= j < |r| ==> r[j] in CleanValues(rows)
    ensures UniqueKeys(rows, RowTime) ==> r == CleanValues(rows)
  {
    var c := CleanValues(rows);
    SameTimes(rows, c);
    DropDuplicatesCount(c, RowTime);
    DropDuplicatesIdentity(c, RowTime);
    DropDuplicates(c, RowTime)
  }

  /** Every value of a cleaned row lies in its range when every column's
      pre-repair median does. */
  lemma CleanValuesInRange(rows: seq<MeteoRow>)
    requires forall f :: Median(Filled(rows, f)).Some? ==> Lo(f) <= Median(Filled(rows, f)).value <= Hi(f)
    ensures forall i :: 0 <= i < |rows| ==> InRange(CleanValues(rows)[i])
  {
    ReplaceOutliersInRange(Filled(rows, Temperature), Lo(Temperature), Hi(Temperature));
    ReplaceOutliersInRange(Filled(rows, Wind), Lo(Wind), Hi(Wind));
    ReplaceOutliersInRange(Filled(rows, Sun), Lo(Sun), Hi(Sun));
  }

  /** No value of the row is out of its range (a missing one never is). */
  predicate InRange(r: MeteoRow)
  {
    && !OutOfRange(r.temperature, Lo(Temperature), Hi(Temperature))
    && !OutOfRange(r.vent, Lo(Wind), Hi(Wind))
    && !OutOfRange(r.ensoleillement, Lo(Sun), Hi(Sun))
  }

  /** Range repair is sound only conditionally: when every column's
      pre-repair median is in range, no validated value is out of range. */
  lemma ValidateMeteoInRange(rows: seq<MeteoRow>)
    requires forall f :: Median(Filled(rows, f)).Some? ==> Lo(f) <= Median(Filled(rows, f)).value <= Hi(f)
    ensures forall j :: 0 <= j < |ValidateMeteo(rows)| ==> InRange(ValidateMeteo(rows)[j])
  {
    CleanValuesInRange(rows);
    DropDuplicatesInRange(CleanValues(rows));
  }

  lemma DropDuplicatesInRange(c: seq<MeteoRow>)
    requires forall i :: 0 <= i < |c| ==> InRange(c[i])
    ensures forall j :: 0 <= j < |DropDuplicates(c, RowTime)| ==> InRange(DropDuplicates(c, RowTime)[j])
  {
    var r := DropDuplicates(c, RowTime);
    forall j | 0 <= j < |r| ensures InRange(r[j]) {
      var i :| 0 <= i < |c| && c[i] == r[j];
    }
  }

  /** Without that condition an outlier can survive: a single reading of 60
      degrees is its own median, so it is "repaired" to 60. */
  lemma OutlierCanSurvive(rows: seq<MeteoRow>)
    requires rows == [MeteoRow(0, Some(60.0), Some(10.0), Some(50.0))]
    ensures !InRange(CleanValues(rows)[0])
  {
    assert !AnyMissing(rows) by {
      assert forall i, f :: 0 <= i < |rows| ==> Get(rows[i], f).Some?;
    }
    var col := Filled(rows, Temperature);
    assert col == [Some(60.0)];
    MedianOfSortedColumn(col);
    CleanValuesCell(rows, 0, Temperature);
  }
}
