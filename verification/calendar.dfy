/** The holiday and school-vacation calendar (`src/load_jours_feries.py`):
    expanding the 2026 vacation periods into one row per day, combining them
    with the public holidays, building the dense hourly calendar and merging
    the per-day flags onto it. Days are day numbers and hours are hour
    offsets, both counted from 2026-01-01 (see `CivilTime`). */
module Calendar {
  import opened Wrappers
  import opened Seqs
  import opened CivilTime

  /** A row of the special-day table: its day, its name (`nom_ferie`, which
      may be missing) and its `type` ("fixe", "mobile", "vacances", ...). */
  datatype SpecialDay = SpecialDay(date: int, name: Option<string>, kind: string)

  function DateOf(r: SpecialDay): int
  {
    r.date
  }

  function DateKey(r: SpecialDay): real
  {
    r.date as real
  }

  /* --------------------------------------------------- vacation periods */

  datatype VacationRange = VacationRange(start: Date, end: Date, name: string)

  predicate ValidRange(v: VacationRange)
  {
    ValidDate(v.start) && ValidDate(v.end)
  }

  /** Day `d` lies in the period, both ends included. */
  predicate Covers(v: VacationRange, d: int)
    requires ValidRange(v)
  {
    DayNumber(v.start) <= d <= DayNumber(v.end)
  }

  /** The number of days `pd.date_range(start, end, freq="D")` yields: none
      when the end precedes the start. */
  function RangeDays(v: VacationRange): (n: nat)
    requires ValidRange(v)
    ensures n == 0 <==> DayNumber(v.end) < DayNumber(v.start)
  {
    var s, e := DayNumber(v.start), DayNumber(v.end);
    if e < s then 0 else e - s + 1
  }

  /** The school vacation periods of 2026 (zone C). The Christmas period
      is dated from 19 December 2026 to 3 January 2026, so it ends before it
      starts and contributes no day. */
  const Hiver := VacationRange(Date(2026, 2, 21), Date(2026, 3, 8), "Vacances d'hiver")
  const Printemps := VacationRange(Date(2026, 4, 18), Date(2026, 5, 3), "Vacances de printemps")
  const Ete := VacationRange(Date(2026, 7, 4), Date(2026, 8, 31), "Vacances d'été")
  const Toussaint := VacationRange(Date(2026, 10, 24), Date(2026, 11, 8), "Vacances de la Toussaint")
  const Noel := VacationRange(Date(2026, 12, 19), Date(2026, 1, 3), "Vacances de Noël")

  const Vacances2026: seq<VacationRange> := [Hiver, Printemps, Ete, Toussaint, Noel]

  /** One "vacances" row per day of the period, in day order. */
  function ExpandRange(v: VacationRange): (r: seq<SpecialDay>)
    requires ValidRange(v)
    ensures |r| == RangeDays(v)
    ensures forall i :: 0 <= i < |r| ==> r[i] == SpecialDay(DayNumber(v.start) + i, Some(v.name), "vacances")
  {
    var s := DayNumber(v.start);
    seq(RangeDays(v), i requires 0 <= i < RangeDays(v) => SpecialDay(s + i, Some(v.name), "vacances"))
  }

  /** A row belongs to a period's expansion exactly when it is a "vacances"
      row with the period's name on a day the period covers. */
  lemma ExpandRangeMembers(v: VacationRange, x: SpecialDay)
    requires ValidRange(v)
    ensures x in ExpandRange(v) <==> x.kind == "vacances" && x.name == Some(v.name) && Covers(v, x.date)
  {
    var r := ExpandRange(v);
    if x.kind == "vacances" && x.name == Some(v.name) && Covers(v, x.date) {
      assert r[x.date - DayNumber(v.start)] == x;
    }
  }

  predicate AllValid(vs: seq<VacationRange>)
  {
    forall j :: 0 <= j < |vs| ==> ValidRange(vs[j])
  }

  function TotalDays(vs: seq<VacationRange>): nat
    requires AllValid(vs)
  {
    if |vs| == 0 then 0 else RangeDays(vs[0]) + TotalDays(vs[1..])
  }

  /** The rows of every period, period after period. */
  function ExpandVacances(vs: seq<VacationRange>): (r: seq<SpecialDay>)
    requires AllValid(vs)
    ensures |r| == TotalDays(vs)
    ensures forall k :: 0 <= k < |r| ==> r[k].kind == "vacances" && r[k].name.Some?
  {
    if |vs| == 0 then [] else ExpandRange(vs[0]) + ExpandVacances(vs[1..])
  }

  /** A row is produced exactly when some period with its name covers its
      day; an inverted period covers no day. */
  lemma {:induction false} ExpandVacancesMembers(vs: seq<VacationRange>, x: SpecialDay)
    requires AllValid(vs)
    ensures x in ExpandVacances(vs) <==>
              x.kind == "vacances" && exists j :: 0 <= j < |vs| && x.name == Some(vs[j].name) && Covers(vs[j], x.date)
  {
    if |vs| > 0 {
      ExpandRangeMembers(vs[0], x);
      ExpandVacancesMembers(vs[1..], x);
      if exists j :: 0 <= j < |vs| && x.name == Some(vs[j].name) && Covers(vs[j], x.date) {
        var j :| 0 <= j < |vs| && x.name == Some(vs[j].name) && Covers(vs[j], x.date);
        if j > 0 {
          assert vs[1..][j - 1] == vs[j];
        }
      }
      if exists j :: 0 <= j < |vs[1..]| && x.name == Some(vs[1..][j].name) && Covers(vs[1..][j], x.date) {
        var j :| 0 <= j < |vs[1..]| && x.name == Some(vs[1..][j].name) && Covers(vs[1..][j], x.date);
        assert vs[1..][j] == vs[j + 1];
      }
    }
  }

  /** The hard-coded periods give 16 + 16 + 59 + 16 + 0 = 107 rows; the
      inverted Christmas period gives none. */
  lemma Vacances2026Days()
    ensures AllValid(Vacances2026)
    ensures RangeDays(Hiver) == 16 && RangeDays(Printemps) == 16
    ensures RangeDays(Ete) == 59 && RangeDays(Toussaint) == 16
    ensures RangeDays(Noel) == 0
    ensures TotalDays(Vacances2026) == 107
  {
    assert DayNumber(Hiver.start) == 51 && DayNumber(Hiver.end) == 66;
    assert DayNumber(Printemps.start) == 107 && DayNumber(Printemps.end) == 122;
    assert DayNumber(Ete.start) == 184 && DayNumber(Ete.end) == 242;
    assert DayNumber(Toussaint.start) == 296 && DayNumber(Toussaint.end) == 311;
    assert DayNumber(Noel.start) == 352 && DayNumber(Noel.end) == 2;
    var vs := Vacances2026;
    assert vs[1..] == [Printemps, Ete, Toussaint, Noel];
    assert vs[1..][1..] == [Ete, Toussaint, Noel];
    assert vs[1..][1..][1..] == [Toussaint, Noel];
    assert vs[1..][1..][1..][1..] == [Noel];
    assert vs[1..][1..][1..][1..][1..] == [];
    assert TotalDays(vs[1..][1..][1..][1..]) == 0;
    assert TotalDays(vs[1..][1..][1..]) == 16;
    assert TotalDays(vs[1..][1..]) == 75;
    assert TotalDays(vs[1..]) == 91;
  }

  /** The vacation rows of 2026. */
  function Vacances2026Rows(): (r: seq<SpecialDay>)
    ensures AllValid(Vacances2026)
    ensures r == ExpandVacances(Vacances2026)
    ensures |r| == 107
  {
    Vacances2026Days();
    ExpandVacances(Vacances2026)
  }

  /** `enrich_with_vacances_scolaires`: the holidays followed by the vacation
      rows, sorted by date (stably: rows of one day keep their order). */
  function EnrichWithVacances(feries: seq<SpecialDay>): (r: seq<SpecialDay>)
    ensures |r| == |feries| + 107
    ensures SortedBy(r, DateKey)
    ensures multiset(r) == multiset(feries + Vacances2026Rows())
  {
    SortBy(feries + Vacances2026Rows(), DateKey)
  }

  /** Every row of the result is a holiday row or a vacation row, and
      conversely. */
  lemma EnrichMembers(feries: seq<SpecialDay>, x: SpecialDay)
    ensures x in EnrichWithVacances(feries) <==> x in feries || x in Vacances2026Rows()
  {
    var all := feries + Vacances2026Rows();
    assert x in EnrichWithVacances(feries) <==> x in multiset(all);
  }

  function OnDay(d: int): SpecialDay -> bool
  {
    (r: SpecialDay) => r.date == d
  }

  /** Sorting by date keeps the rows of one day in input order, so on a day
      that is both a holiday and a vacation day the holiday rows come first. */
  lemma EnrichStable(feries: seq<SpecialDay>, d: int)
    ensures Filter(EnrichWithVacances(feries), OnDay(d))
         == Filter(feries, OnDay(d)) + Filter(Vacances2026Rows(), OnDay(d))
  {
    var vac := Vacances2026Rows();
    SortByStable(feries + vac, DateKey, OnDay(d), d as real);
    FilterConcat(feries, vac, OnDay(d));
  }

  /* ------------------------------------------------------ hourly calendar */

  /** A calendar hour and the day it falls on (its midnight). */
  datatype CalendarHour = CalendarHour(datetime: int, date: int)

  function HourTime(c: CalendarHour): int
  {
    c.datetime
  }

  function DayCount(s: int, e: int): nat
  {
    if e < s then 0 else e - s + 1
  }

  /** `create_hourly_calendar`: every hour from the start date at 00:00 to
      the end date at 23:00. */
  function CreateHourlyCalendar(start: Date, end: Date): (r: seq<CalendarHour>)
    requires ValidDate(start) && ValidDate(end)
    ensures |r| == 24 * DayCount(DayNumber(start), DayNumber(end))
    ensures forall i :: 0 <= i < |r| ==> r[i].datetime == 24 * DayNumber(start) + i
    ensures forall i :: 0 <= i < |r| ==> r[i].date == DayIndex(r[i].datetime)
    ensures |r| > 0 ==> r[|r| - 1].datetime == 24 * DayNumber(end) + 23
  {
    var s := DayNumber(start);
    var n := 24 * DayCount(s, DayNumber(end));
    seq(n, i requires 0 <= i < n => CalendarHour(24 * s + i, DayIndex(24 * s + i)))
  }

  /** The calendar holds each hour of the period exactly once: no
      duplicates and no gaps. */
  lemma HourlyCalendarHours(start: Date, end: Date)
    requires ValidDate(start) && ValidDate(end)
    ensures UniqueKeys(CreateHourlyCalendar(start, end), HourTime)
    ensures forall h :: h in KeysOf(CreateHourlyCalendar(start, end), HourTime) <==>
              24 * DayNumber(start) <= h <= 24 * DayNumber(end) + 23
  {
    var r := CreateHourlyCalendar(start, end);
    var s := 24 * DayNumber(start);
    forall h | s <= h <= 24 * DayNumber(end) + 23
      ensures h in KeysOf(r, HourTime)
    {
      assert HourTime(r[h - s]) == h;
    }
  }

  /** The calendar of 2026 has 365 days, 8760 hours. */
  lemma HourlyCalendar2026()
    ensures |CreateHourlyCalendar(Date(2026, 1, 1), Date(2026, 12, 31))| == 8760
  {
    assert DayNumber(Date(2026, 12, 31)) == 364;
  }

  /* ---------------------------------------------------------- aggregation */

  predicate IsFerie(r: SpecialDay)
  {
    r.kind == "fixe" || r.kind == "mobile"
  }

  predicate IsVacances(r: SpecialDay)
  {
    r.kind == "vacances"
  }

  /** `max` of a boolean flag over the rows of one day. */
  function AnyOn(rows: seq<SpecialDay>, d: int, flag: SpecialDay -> bool): (b: bool)
    ensures b <==> exists k :: 0 <= k < |rows| && rows[k].date == d && flag(rows[k])
  {
    if |rows| == 0 then false
    else
      var rest := AnyOn(rows[1..], d, flag);
      assert rest ==> exists k :: 0 <= k < |rows| && rows[k].date == d && flag(rows[k]) by {
        if rest {
          var k :| 0 <= k < |rows[1..]| && rows[1..][k].date == d && flag(rows[1..][k]);
          assert rows[k + 1] == rows[1..][k];
        }
      }
      (rows[0].date == d && flag(rows[0])) || rest
  }

  /** `first` of the name over the rows of one day: the first name that
      is not missing. */
  function FirstLabel(rows: seq<SpecialDay>, d: int): (l: Option<string>)
    ensures l.Some? ==> exists k :: 0 <= k < |rows| && rows[k].date == d && rows[k].name == l
                          && forall k' :: 0 <= k' < k ==> !(rows[k'].date == d && rows[k'].name.Some?)
    ensures l.None? <==> forall k :: 0 <= k < |rows| && rows[k].date == d ==> rows[k].name.None?
  {
    if |rows| == 0 then None
    else if rows[0].date == d && rows[0].name.Some? then rows[0].name
    else
      var l := FirstLabel(rows[1..], d);
      assert l.Some? ==> exists k :: 0 <= k < |rows| && rows[k].date == d && rows[k].name == l
                          && forall k' :: 0 <= k' < k ==> !(rows[k'].date == d && rows[k'].name.Some?) by {
        if l.Some? {
          var k :| 0 <= k < |rows[1..]| && rows[1..][k].date == d && rows[1..][k].name == l
                   && forall k' :: 0 <= k' < k ==> !(rows[1..][k'].date == d && rows[1..][k'].name.Some?);
          assert rows[k + 1] == rows[1..][k];
          assert forall k' :: 1 <= k' < k + 1 ==> rows[k'] == rows[1..][k' - 1];
        }
      }
      assert forall k :: 1 <= k < |rows| ==> rows[k] == rows[1..][k - 1];
      l
  }

  /** One row of the per-day aggregate. */
  datatype DayFlags = DayFlags(date: int, ferie: bool, vacances: bool, name: Option<string>)

  function FlagDate(f: DayFlags): int
  {
    f.date
  }

  /** The aggregate of the rows of day `d`. */
  function FlagsOf(rows: seq<SpecialDay>, d: int): DayFlags
  {
    DayFlags(d, AnyOn(rows, d, IsFerie), AnyOn(rows, d, IsVacances), FirstLabel(rows, d))
  }

  /** `groupby("date").agg(max, max, first)`: one aggregate row per day
      that has special-day rows (in order of first appearance). */
  function GroupByDate(rows: seq<SpecialDay>): (agg: seq<DayFlags>)
    ensures UniqueKeys(agg, FlagDate)
    ensures KeysOf(agg, FlagDate) == KeysOf(rows, DateOf)
    ensures |agg| == |KeysOf(rows, DateOf)|
    ensures forall j :: 0 <= j < |agg| ==> agg[j] == FlagsOf(rows, agg[j].date)
  {
    var reps := DropDuplicates(rows, DateOf);
    DropDuplicatesCount(rows, DateOf);
    var agg := seq(|reps|, j requires 0 <= j < |reps| => FlagsOf(rows, reps[j].date));
    SameKeys(agg, FlagDate, reps, DateOf);
    agg
  }

  /* ----------------------------------------------------------- left join */

  /** The aggregate rows of day `d`, in order. */
  function MatchesOf(agg: seq<DayFlags>, d: int): (m: seq<DayFlags>)
    ensures |m| <= |agg|
    ensures forall i :: 0 <= i < |m| ==> m[i].date == d && m[i] in agg
    ensures |m| == 0 <==> forall j :: 0 <= j < |agg| ==> agg[j].date != d
  {
    if |agg| == 0 then []
    else
      var rest := MatchesOf(agg[1..], d);
      assert forall j :: 1 <= j < |agg| ==> agg[j] == agg[1..][j - 1];
      (if agg[0].date == d then [agg[0]] else []) + rest
  }

  /** With one aggregate row per day a day matches at most once. */
  lemma {:induction false} MatchesUnique(agg: seq<DayFlags>, d: int)
    requires UniqueKeys(agg, FlagDate)
    ensures |MatchesOf(agg, d)| <= 1
  {
    if |agg| > 0 {
      assert UniqueKeys(agg[1..], FlagDate) by {
        assert forall j :: 0 <= j < |agg[1..]| ==> agg[1..][j] == agg[j + 1];
      }
      MatchesUnique(agg[1..], d);
      if agg[0].date == d {
        assert forall j :: 0 <= j < |agg[1..]| ==> agg[1..][j].date != d by {
          assert forall j :: 0 <= j < |agg[1..]| ==> agg[1..][j] == agg[j + 1];
        }
      }
    }
  }

  /** A calendar hour with the aggregate row of its day, if any. */
  datatype Joined = Joined(hour: CalendarHour, flags: Option<DayFlags>)

  /** The rows one calendar hour contributes to a left merge: one per match,
      or a single row without flags. */
  function JoinOne(c: CalendarHour, agg: seq<DayFlags>): (r: seq<Joined>)
    ensures |r| >= 1
    ensures forall i :: 0 <= i < |r| ==> r[i].hour == c
  {
    var m := MatchesOf(agg, c.date);
    if |m| == 0 then [Joined(c, None)]
    else seq(|m|, i requires 0 <= i < |m| => Joined(c, Some(m[i])))
  }

  /** `pd.merge(calendar, agg, on="date", how="left")`: calendar order,
      each hour repeated once per matching aggregate row. */
  function LeftJoinByDate(cal: seq<CalendarHour>, agg: seq<DayFlags>): (r: seq<Joined>)
    ensures |r| >= |cal|
  {
    if |cal| == 0 then [] else JoinOne(cal[0], agg) + LeftJoinByDate(cal[1..], agg)
  }

  /** The aggregate row of day `d` when there is one. */
  function Lookup(agg: seq<DayFlags>, d: int): (f: Option<DayFlags>)
    ensures f.Some? ==> f.value.date == d && f.value in agg
    ensures f.None? <==> forall j :: 0 <= j < |agg| ==> agg[j].date != d
  {
    var m := MatchesOf(agg, d);
    if |m| == 0 then None else Some(m[0])
  }

  /** With one aggregate row per day the left merge keeps the calendar's
      row count and order, pairing each hour with its day's row. */
  lemma {:induction false} LeftJoinUnique(cal: seq<CalendarHour>, agg: seq<DayFlags>)
    requires UniqueKeys(agg, FlagDate)
    ensures |LeftJoinByDate(cal, agg)| == |cal|
    ensures forall i :: 0 <= i < |cal| ==> LeftJoinByDate(cal, agg)[i] == Joined(cal[i], Lookup(agg, cal[i].date))
  {
    if |cal| > 0 {
      MatchesUnique(agg, cal[0].date);
      LeftJoinUnique(cal[1..], agg);
      var head := JoinOne(cal[0], agg);
      assert head == [Joined(cal[0], Lookup(agg, cal[0].date))];
      var r := LeftJoinByDate(cal, agg);
      assert r == head + LeftJoinByDate(cal[1..], agg);
      assert forall i :: 1 <= i < |cal| ==> r[i] == LeftJoinByDate(cal[1..], agg)[i - 1] && cal[i] == cal[1..][i - 1];
    }
  }

  /* --------------------------------------------------------------- merge */

  /** A row of the final calendar. */
  datatype CalendarRow = CalendarRow(datetime: int, date: int, estFerie: bool, estVacances: bool, nomFerie: string)

  /** `fillna(False)` on the flags and `fillna("")` on the name. */
  function FillDefaults(j: Joined): (r: CalendarRow)
    ensures r.datetime == j.hour.datetime && r.date == j.hour.date
    ensures j.flags.None? ==> !r.estFerie && !r.estVacances && r.nomFerie == ""
    ensures j.flags.Some? ==>
              r.estFerie == j.flags.value.ferie && r.estVacances == j.flags.value.vacances
              && r.nomFerie == j.flags.value.name.GetOr("")
  {
    match j.flags
    case None => CalendarRow(j.hour.datetime, j.hour.date, false, false, "")
    case Some(f) => CalendarRow(j.hour.datetime, j.hour.date, f.ferie, f.vacances, f.name.GetOr(""))
  }

  /** The defaults applied to every joined row. */
  function FillAll(joined: seq<Joined>): (r: seq<CalendarRow>)
    ensures |r| == |joined|
    ensures forall i :: 0 <= i < |r| ==> r[i] == FillDefaults(joined[i])
  {
    seq(|joined|, i requires 0 <= i < |joined| => FillDefaults(joined[i]))
  }

  /** `merge_calendar_with_feries`. */
  function MergeCalendarWithFeries(cal: seq<CalendarHour>, feries: seq<SpecialDay>): (r: seq<CalendarRow>)
    ensures |r| >= |cal|
  {
    FillAll(LeftJoinByDate(cal, GroupByDate(feries)))
  }

  /** The flags of one merged hour: a holiday exactly when some special-day
      row of its day is "fixe" or "mobile", a vacation hour exactly when
      some row of its day is "vacances", and the name the first non-missing
      one of its day, "" when there is none. */
  predicate HourFlagsOk(r: CalendarRow, c: CalendarHour, feries: seq<SpecialDay>)
  {
    && r.datetime == c.datetime && r.date == c.date
    && (r.estFerie <==> exists k :: 0 <= k < |feries| && feries[k].date == c.date && IsFerie(feries[k]))
    && (r.estVacances <==> exists k :: 0 <= k < |feries| && feries[k].date == c.date && IsVacances(feries[k]))
    && r.nomFerie == FirstLabel(feries, c.date).GetOr("")
  }

  /** One hour paired with its day's aggregate row gets its day's flags. */
  lemma JoinedFlags(c: CalendarHour, feries: seq<SpecialDay>)
    ensures HourFlagsOk(FillDefaults(Joined(c, Lookup(GroupByDate(feries), c.date))), c, feries)
  {
    var agg := GroupByDate(feries);
    var f := Lookup(agg, c.date);
    var r := FillDefaults(Joined(c, f));
    if f.Some? {
      var j :| 0 <= j < |agg| && agg[j] == f.value;
      assert f.value == FlagsOf(feries, c.date);
      assert r.estFerie == AnyOn(feries, c.date, IsFerie);
      assert r.estVacances == AnyOn(feries, c.date, IsVacances);
      assert r.nomFerie == FirstLabel(feries, c.date).GetOr("");
    } else {
      assert c.date !in KeysOf(agg, FlagDate);
      NoRowsOnDay(feries, c.date);
    }
  }

  /** A day outside the table's key set has no rows, so no flag and no
      name. */
  lemma NoRowsOnDay(feries: seq<SpecialDay>, d: int)
    requires d !in KeysOf(feries, DateOf)
    ensures !AnyOn(feries, d, IsFerie) && !AnyOn(feries, d, IsVacances) && FirstLabel(feries, d).None?
  {
    assert forall k :: 0 <= k < |feries| ==> DateOf(feries[k]) in KeysOf(feries, DateOf);
  }

  /** The merge keeps the calendar's row count and order, and every hour
      carries its day's flags. */
  lemma MergeCalendarWithFeriesSpec(cal: seq<CalendarHour>, feries: seq<SpecialDay>)
    ensures |MergeCalendarWithFeries(cal, feries)| == |cal|
    ensures forall i :: 0 <= i < |cal| ==> HourFlagsOk(MergeCalendarWithFeries(cal, feries)[i], cal[i], feries)
  {
    var agg := GroupByDate(feries);
    LeftJoinUnique(cal, agg);
    forall i | 0 <= i < |cal|
      ensures HourFlagsOk(MergeCalendarWithFeries(cal, feries)[i], cal[i], feries)
    {
      JoinedFlags(cal[i], feries);
    }
  }

  /** An hour whose day has no special-day row gets false, false and "". */
  lemma MergeDefaults(cal: seq<CalendarHour>, feries: seq<SpecialDay>, i: int)
    requires 0 <= i < |cal| && cal[i].date !in KeysOf(feries, DateOf)
    ensures |MergeCalendarWithFeries(cal, feries)| == |cal|
    ensures var r := MergeCalendarWithFeries(cal, feries)[i];
            !r.estFerie && !r.estVacances && r.nomFerie == ""
  {
    MergeCalendarWithFeriesSpec(cal, feries);
    NoRowsOnDay(feries, cal[i].date);
  }

  predicate VacationRowOn(rows: seq<SpecialDay>, d: int)
  {
    exists k :: 0 <= k < |rows| && rows[k].date == d && IsVacances(rows[k])
  }

  /** Some period of 2026 covers day `d`. */
  predicate PeriodCovers(d: int)
  {
    Vacances2026Valid();
    exists j :: 0 <= j < |Vacances2026| && Covers(Vacances2026[j], d)
  }

  lemma Vacances2026Valid()
    ensures AllValid(Vacances2026)
  {
    assert Vacances2026[0] == Hiver && Vacances2026[4] == Noel;
  }

  /** The combined table has a vacation row on day `d` exactly when the
      holiday table has one or a 2026 period covers `d`. */
  lemma VacationRowsOnDay(feries: seq<SpecialDay>, d: int)
    ensures VacationRowOn(EnrichWithVacances(feries), d) <==> VacationRowOn(feries, d) || PeriodCovers(d)
  {
    var e := EnrichWithVacances(feries);
    var vac := Vacances2026Rows();
    var vs := Vacances2026;
    if VacationRowOn(e, d) {
      var k :| 0 <= k < |e| && e[k].date == d && IsVacances(e[k]);
      EnrichMembers(feries, e[k]);
      ExpandVacancesMembers(vs, e[k]);
    }
    if VacationRowOn(feries, d) {
      var k :| 0 <= k < |feries| && feries[k].date == d && IsVacances(feries[k]);
      EnrichMembers(feries, feries[k]);
      var k' :| 0 <= k' < |e| && e[k'] == feries[k];
    }
    if PeriodCovers(d) {
      var j :| 0 <= j < |vs| && Covers(vs[j], d);
      var x := SpecialDay(d, Some(vs[j].name), "vacances");
      ExpandVacancesMembers(vs, x);
      EnrichMembers(feries, x);
      var k' :| 0 <= k' < |e| && e[k'] == x;
    }
  }

  /** On any hourly calendar, an hour is a vacation hour exactly
      when one of the 2026 periods covers its day or the holiday table has a
      "vacances" row for it. */
  lemma VacationHours(cal: seq<CalendarHour>, feries: seq<SpecialDay>, i: int)
    requires 0 <= i < |cal|
    ensures |MergeCalendarWithFeries(cal, EnrichWithVacances(feries))| == |cal|
    ensures MergeCalendarWithFeries(cal, EnrichWithVacances(feries))[i].estVacances <==>
              VacationRowOn(feries, cal[i].date) || PeriodCovers(cal[i].date)
  {
    MergeCalendarWithFeriesSpec(cal, EnrichWithVacances(feries));
    VacationRowsOnDay(feries, cal[i].date);
  }
}
