/** The spot-price source (`src/scrape_prix_electricite.py`): the simulated
    hourly price series, with its random noise as a parameter, and the
    validator that drops incomplete rows, repairs out-of-range prices with
    the median and drops duplicate timestamps. */
module Prix {
  import opened Wrappers
  import opened Seqs
  import opened Columns
  import opened CivilTime

  datatype PriceRow = PriceRow(datetime: int, prix: Option<real>)

  function PriceTime(r: PriceRow): int
  {
    r.datetime
  }

  /* ---------------------------------------------------------- simulation */

  const BasePrice: real := 80.0
  const FloorPrice: real := 30.0
  const WeekendFactor: real := 0.85

  /** The hourly profile: peak hours 8 to 20 (both included) cost the full
      20 EUR/MWh surcharge, the others half of it. */
  function HourlyPrice(hour: int): (p: real)
    requires 0 <= hour < 24
    ensures 8 <= hour <= 20 ==> p == 100.0
    ensures !(8 <= hour <= 20) ==> p == 90.0
  {
    BasePrice + 20.0 * (if 8 <= hour <= 20 then 1.0 else 0.5)
  }

  /** The noise-free price of a timestamp: the hourly profile, 15% cheaper on
      Saturdays and Sundays. */
  function ExpectedPrice(h: int): (p: real)
    ensures 76.5 <= p <= 100.0
    ensures IsWeekend(h) ==> p == WeekendFactor * HourlyPrice(HourOfDay(h))
    ensures !IsWeekend(h) ==> p == HourlyPrice(HourOfDay(h))
  {
    var p := HourlyPrice(HourOfDay(h));
    if DayOfWeek(h) >= 5 then p * WeekendFactor else p
  }

  /** One simulated price: `max(30, expected + noise)`. */
  function SimulatedPrice(h: int, noise: real): (p: real)
    ensures p >= FloorPrice && p >= ExpectedPrice(h) + noise
    ensures p == FloorPrice || p == ExpectedPrice(h) + noise
    ensures noise <= 400.0 ==> p <= 500.0
  {
    var raw := ExpectedPrice(h) + noise;
    if raw > FloorPrice then raw else FloorPrice
  }

  /** The number of hourly timestamps `pd.date_range(start, end, freq="h")`
      yields: both ends included, none when the end precedes the start. */
  function HourCount(start: int, end: int): (n: nat)
    ensures n == 0 <==> end < start
    ensures n > 0 ==> start + n - 1 == end
  {
    if end < start then 0 else end - start + 1
  }

  /** `scrape_prix_spot_simule` with the normal draws given as `noise`, one
      per hour. */
  function SimulatePrices(start: int, end: int, noise: seq<real>): (rows: seq<PriceRow>)
    requires |noise| == HourCount(start, end)
    ensures |rows| == |noise|
    ensures forall i :: 0 <= i < |rows| ==> rows[i].datetime == start + i
    ensures forall i :: 0 <= i < |rows| ==> rows[i].prix == Some(SimulatedPrice(start + i, noise[i]))
    ensures forall i :: 0 <= i < |rows| ==> rows[i].prix.Some? && rows[i].prix.value >= FloorPrice
    ensures UniqueKeys(rows, PriceTime)
  {
    seq(|noise|, i requires 0 <= i < |noise| => PriceRow(start + i, Some(SimulatedPrice(start + i, noise[i]))))
  }

  /* ---------------------------------------------------------- validation */

  const PriceLo: real := 0.0
  const PriceHi: real := 500.0

  predicate Complete(r: PriceRow)
  {
    r.prix.Some?
  }

  function PriceColumn(rows: seq<PriceRow>): (col: Column)
    ensures |col| == |rows|
    ensures forall i :: 0 <= i < |rows| ==> col[i] == rows[i].prix
  {
    seq(|rows|, i requires 0 <= i < |rows| => rows[i].prix)
  }

  /** The timestamps of the rows whose price is present. */
  function CompleteTimes(rows: seq<PriceRow>): set<int>
  {
    set i | 0 <= i < |rows| && rows[i].prix.Some? :: rows[i].datetime
  }

  /** The median repair of the price column: a price below 0 or above 500
      becomes the median of the column before repair. */
  function RepairPrices(rows: seq<PriceRow>): (r: seq<PriceRow>)
    ensures |r| == |rows|
    ensures forall i :: 0 <= i < |rows| ==> r[i].datetime == rows[i].datetime
    ensures forall i :: 0 <= i < |rows| && !OutOfRange(rows[i].prix, PriceLo, PriceHi) ==> r[i] == rows[i]
    ensures forall i :: 0 <= i < |rows| && OutOfRange(rows[i].prix, PriceLo, PriceHi)
              ==> r[i].prix == Median(PriceColumn(rows)) && r[i].prix.Some?
    ensures forall i :: 0 <= i < |rows| ==> (r[i].prix.Some? <==> rows[i].prix.Some?)
  {
    var col := ReplaceOutliers(PriceColumn(rows), PriceLo, PriceHi);
    seq(|rows|, i requires 0 <= i < |rows| => PriceRow(rows[i].datetime, col[i]))
  }

  lemma CompleteKeys(rows: seq<PriceRow>)
    ensures KeysOf(Filter(rows, Complete), PriceTime) == CompleteTimes(rows)
  {
    var kept := Filter(rows, Complete);
    forall t | t in CompleteTimes(rows) ensures t in KeysOf(kept, PriceTime) {
      var i :| 0 <= i < |rows| && rows[i].prix.Some? && rows[i].datetime == t;
      FilterMembers(rows, Complete, rows[i]);
      var j :| 0 <= j < |kept| && kept[j] == rows[i];
      assert PriceTime(kept[j]) == t;
    }
    forall t | t in KeysOf(kept, PriceTime) ensures t in CompleteTimes(rows) {
      var j :| 0 <= j < |kept| && PriceTime(kept[j]) == t;
      FilterMembers(rows, Complete, kept[j]);
      var i :| 0 <= i < |rows| && rows[i] == kept[j];
    }
  }

  lemma RepairKeys(rows: seq<PriceRow>)
    ensures KeysOf(RepairPrices(rows), PriceTime) == KeysOf(rows, PriceTime)
  {
    var r := RepairPrices(rows);
    assert forall i :: 0 <= i < |r| ==> PriceTime(r[i]) == PriceTime(rows[i]);
  }

  /** `validate_prix_data`: `dropna`, median repair of the prices outside
      [0, 500], then `drop_duplicates(subset=["datetime"])` keeping the first
      row of each timestamp. */
  function ValidatePrices(rows: seq<PriceRow>): (r: seq<PriceRow>)
    ensures forall j :: 0 <= j < |r| ==> r[j].prix.Some?
    ensures UniqueKeys(r, PriceTime)
    ensures KeysOf(r, PriceTime) == CompleteTimes(rows)
    ensures |r| == |CompleteTimes(rows)| && |r| <= |rows|
    ensures forall j :: 0 <= j < |r| ==> r[j] in RepairPrices(Filter(rows, Complete))
  {
    var kept := Filter(rows, Complete);
    var repaired := RepairPrices(kept);
    CompleteKeys(rows);
    RepairKeys(kept);
    DropDuplicatesCount(repaired, PriceTime);
    DropDuplicatesAll(repaired, PriceTime, Complete);
    DropDuplicates(repaired, PriceTime)
  }

  /** `x` comes from a priced input row at the same timestamp: that row
      itself when its price was in range, and otherwise the row with the
      median of the complete prices. */
  predicate FromInput(rows: seq<PriceRow>, x: PriceRow)
  {
    exists i :: 0 <= i < |rows| && rows[i].prix.Some? && rows[i].datetime == x.datetime
      && (!OutOfRange(rows[i].prix, PriceLo, PriceHi) ==> x == rows[i])
      && (OutOfRange(rows[i].prix, PriceLo, PriceHi) ==> x.prix == Median(PriceColumn(Filter(rows, Complete))))
  }

  /** Every validated row comes from the input in that sense. */
  lemma ValidatedRowOrigin(rows: seq<PriceRow>)
    ensures forall j :: 0 <= j < |ValidatePrices(rows)| ==> FromInput(rows, ValidatePrices(rows)[j])
  {
    forall j | 0 <= j < |ValidatePrices(rows)| ensures FromInput(rows, ValidatePrices(rows)[j]) {
      ValidatedRowFrom(rows, j);
    }
  }

  lemma ValidatedRowFrom(rows: seq<PriceRow>, j: int)
    requires 0 <= j < |ValidatePrices(rows)|
    ensures FromInput(rows, ValidatePrices(rows)[j])
  {
    var x := ValidatePrices(rows)[j];
    var repaired := RepairPrices(Filter(rows, Complete));
    assert x in repaired;
    var k :| 0 <= k < |repaired| && repaired[k] == x;
    RepairedRowOrigin(rows, k);
  }

  lemma RepairedRowOrigin(rows: seq<PriceRow>, k: int)
    requires 0 <= k < |Filter(rows, Complete)|
    ensures FromInput(rows, RepairPrices(Filter(rows, Complete))[k])
  {
    var kept := Filter(rows, Complete);
    FilterMembers(rows, Complete, kept[k]);
    var i :| 0 <= i < |rows| && rows[i] == kept[k];
  }

  /** Prices are range-sound when the median of the complete prices is. */
  lemma ValidatePricesInRange(rows: seq<PriceRow>)
    requires Median(PriceColumn(Filter(rows, Complete))).Some? ==>
               PriceLo <= Median(PriceColumn(Filter(rows, Complete))).value <= PriceHi
    ensures forall j :: 0 <= j < |ValidatePrices(rows)| ==> InPriceRange(ValidatePrices(rows)[j])
  {
    var kept := Filter(rows, Complete);
    RepairedInRange(kept);
    DropDuplicatesAll(RepairPrices(kept), PriceTime, InPriceRange);
  }

  lemma RepairedInRange(kept: seq<PriceRow>)
    requires forall i :: 0 <= i < |kept| ==> kept[i].prix.Some?
    requires Median(PriceColumn(kept)).Some? ==> PriceLo <= Median(PriceColumn(kept)).value <= PriceHi
    ensures forall i :: 0 <= i < |kept| ==> InPriceRange(RepairPrices(kept)[i])
  {
    ReplaceOutliersInRange(PriceColumn(kept), PriceLo, PriceHi);
  }

  predicate InPriceRange(r: PriceRow)
  {
    r.prix.Some? && PriceLo <= r.prix.value <= PriceHi
  }

  /** The simulated series already passes validation: with every noise draw
      at most 400 EUR/MWh, every price lies in [30, 500], no row is missing
      and no timestamp repeats, so validation returns it unchanged. */
  lemma SimulatedPricesValid(start: int, end: int, noise: seq<real>)
    requires |noise| == HourCount(start, end)
    requires forall i :: 0 <= i < |noise| ==> noise[i] <= 400.0
    ensures ValidatePrices(SimulatePrices(start, end, noise)) == SimulatePrices(start, end, noise)
  {
    var rows := SimulatePrices(start, end, noise);
    assert forall i :: 0 <= i < |rows| ==> InPriceRange(rows[i]);
    FilterKeepsAll(rows, Complete);
    RepairPricesInRange(rows);
    DropDuplicatesIdentity(rows, PriceTime);
  }

  /** Repair leaves a column that is entirely in range untouched. */
  lemma RepairPricesInRange(rows: seq<PriceRow>)
    requires forall i :: 0 <= i < |rows| ==> InPriceRange(rows[i])
    ensures RepairPrices(rows) == rows
  {
  }
}
