/** The fusion transform of the ETL pipeline (`transform_data` in
    `src/etl_fusion_donnees.py`): the inner join of the consumption table
    with the weather table on the timestamp, the removal of join artefacts,
    the five temporal features and the final drop of incomplete rows. */
module Fusion {
  import opened Wrappers
  import opened Seqs
  import opened CivilTime

  /* ---------------------------------------------------------- the tables */

  /** A cell value: pandas floats, integers and strings. */
  datatype Value = Num(num: real) | Int(n: int) | Text(text: string)

  /** A cell; `None` is a missing value (NaN, None or NaT). */
  type Cell = Option<Value>

  /** One row: its `datetime` key and the cells of the other columns. */
  datatype Record = Record(datetime: int, cells: seq<Cell>)

  /** A data frame: the names of its non-key columns and its rows. */
  datatype Table = Table(columns: seq<string>, rows: seq<Record>)

  function RecordTime(r: Record): int
  {
    r.datetime
  }

  /** Every row has one cell per column. */
  predicate WellFormed(t: Table)
  {
    forall i :: 0 <= i < |t.rows| ==> |t.rows[i].cells| == |t.columns|
  }

  /** The position of the first column called `name`. */
  function IndexOf(cols: seq<string>, name: string): (k: nat)
    requires name in cols
    ensures k < |cols| && cols[k] == name
    ensures forall j :: 0 <= j < k ==> cols[j] != name
  {
    if cols[0] == name then 0 else 1 + IndexOf(cols[1..], name)
  }

  /** `df[name][i]` for a column name that is not repeated. */
  function CellOf(t: Table, i: int, name: string): Cell
    requires WellFormed(t) && 0 <= i < |t.rows| && name in t.columns
  {
    t.rows[i].cells[IndexOf(t.columns, name)]
  }

  /* ---------------------------------------------------------- inner join */

  const Suffix: string := "_meteo"

  predicate EndsWith(s: string, suffix: string)
  {
    |suffix| <= |s| && s[|s| - |suffix|..] == suffix
  }

  /** The name a weather column gets in the join: the `_meteo` suffix when
      the consumption table has a column of the same name (the consumption
      side's suffix is empty). */
  function RightName(left: seq<string>, c: string): (n: string)
    ensures c in left ==> n == c + Suffix && EndsWith(n, Suffix)
    ensures c !in left ==> n == c
  {
    if c in left then
      var n := c + Suffix;
      assert n[|n| - |Suffix|..] == Suffix;
      n
    else c
  }

  function JoinColumns(left: seq<string>, right: seq<string>): (cols: seq<string>)
    ensures |cols| == |left| + |right|
    ensures cols[..|left|] == left
    ensures forall i :: 0 <= i < |right| ==> cols[|left| + i] == RightName(left, right[i])
  {
    left + seq(|right|, i requires 0 <= i < |right| => RightName(left, right[i]))
  }

  /** The joined rows of one consumption row: one per weather row with the
      same timestamp, in weather order. */
  function Matches(l: Record, rs: seq<Record>): (m: seq<Record>)
    ensures |m| <= |rs|
    ensures forall k :: 0 <= k < |m| ==> m[k].datetime == l.datetime
  {
    if |rs| == 0 then []
    else
      (if rs[0].datetime == l.datetime then [Record(l.datetime, l.cells + rs[0].cells)] else [])
      + Matches(l, rs[1..])
  }

  /** The rows of `pd.merge(how="inner")`: for each consumption row in
      order, its matches. */
  function Pairs(ls: seq<Record>, rs: seq<Record>): (m: seq<Record>)
    ensures forall k :: 0 <= k < |m| ==> m[k].datetime in KeysOf(ls, RecordTime)
  {
    if |ls| == 0 then []
    else
      var rest := Pairs(ls[1..], rs);
      assert forall k :: 0 <= k < |rest| ==> rest[k].datetime in KeysOf(ls, RecordTime) by {
        forall k | 0 <= k < |rest| ensures rest[k].datetime in KeysOf(ls, RecordTime) {
          var i :| 0 <= i < |ls[1..]| && RecordTime(ls[1..][i]) == rest[k].datetime;
          assert RecordTime(ls[i + 1]) == rest[k].datetime;
        }
      }
      assert RecordTime(ls[0]) == ls[0].datetime;
      Matches(ls[0], rs) + rest
  }

  lemma {:induction false} MatchesWidth(l: Record, rs: seq<Record>, w: nat)
    requires forall j :: 0 <= j < |rs| ==> |rs[j].cells| == w
    ensures forall k :: 0 <= k < |Matches(l, rs)| ==> |Matches(l, rs)[k].cells| == |l.cells| + w
  {
    if |rs| > 0 {
      MatchesWidth(l, rs[1..], w);
    }
  }

  lemma {:induction false} PairsWidth(ls: seq<Record>, rs: seq<Record>, wl: nat, wr: nat)
    requires forall i :: 0 <= i < |ls| ==> |ls[i].cells| == wl
    requires forall j :: 0 <= j < |rs| ==> |rs[j].cells| == wr
    ensures forall k :: 0 <= k < |Pairs(ls, rs)| ==> |Pairs(ls, rs)[k].cells| == wl + wr
  {
    if |ls| > 0 {
      MatchesWidth(ls[0], rs, wr);
      PairsWidth(ls[1..], rs, wl, wr);
    }
  }

  /** `pd.merge(conso, meteo, on="datetime", how="inner", suffixes=("", "_meteo"))`. */
  function InnerJoin(conso: Table, meteo: Table): (r: Table)
    requires WellFormed(conso) && WellFormed(meteo)
    ensures WellFormed(r)
    ensures r.columns == JoinColumns(conso.columns, meteo.columns)
    ensures forall k :: 0 <= k < |r.rows| ==> r.rows[k].datetime in KeysOf(conso.rows, RecordTime)
  {
    PairsWidth(conso.rows, meteo.rows, |conso.columns|, |meteo.columns|);
    Table(JoinColumns(conso.columns, meteo.columns), Pairs(conso.rows, meteo.rows))
  }

  /** A joined row is exactly a consumption row and a weather row with the
      same timestamp, put side by side. */
  lemma {:induction false} MatchesMembers(l: Record, rs: seq<Record>, x: Record)
    ensures x in Matches(l, rs) <==>
              exists j :: 0 <= j < |rs| && rs[j].datetime == l.datetime
                          && x == Record(l.datetime, l.cells + rs[j].cells)
  {
    if |rs| > 0 {
      MatchesMembers(l, rs[1..], x);
      if x in Matches(l, rs[1..]) {
        var j :| 0 <= j < |rs[1..]| && rs[1..][j].datetime == l.datetime
                 && x == Record(l.datetime, l.cells + rs[1..][j].cells);
        assert rs[j + 1] == rs[1..][j];
      }
      if exists j :: 0 <= j < |rs| && rs[j].datetime == l.datetime
                     && x == Record(l.datetime, l.cells + rs[j].cells) {
        var j :| 0 <= j < |rs| && rs[j].datetime == l.datetime
                 && x == Record(l.datetime, l.cells + rs[j].cells);
        if j > 0 {
          assert rs[1..][j - 1] == rs[j];
        }
      }
    }
  }

  lemma {:induction false} PairsMembers(ls: seq<Record>, rs: seq<Record>, x: Record)
    ensures x in Pairs(ls, rs) <==>
              exists i, j :: 0 <= i < |ls| && 0 <= j < |rs| && ls[i].datetime == rs[j].datetime
                             && x == Record(ls[i].datetime, ls[i].cells + rs[j].cells)
  {
    if |ls| > 0 {
      MatchesMembers(ls[0], rs, x);
      PairsMembers(ls[1..], rs, x);
      if x in Pairs(ls[1..], rs) {
        var i, j :| 0 <= i < |ls[1..]| && 0 <= j < |rs| && ls[1..][i].datetime == rs[j].datetime
                    && x == Record(ls[1..][i].datetime, ls[1..][i].cells + rs[j].cells);
        assert ls[i + 1] == ls[1..][i];
      }
      if exists i, j :: 0 <= i < |ls| && 0 <= j < |rs| && ls[i].datetime == rs[j].datetime
                        && x == Record(ls[i].datetime, ls[i].cells + rs[j].cells) {
        var i, j :| 0 <= i < |ls| && 0 <= j < |rs| && ls[i].datetime == rs[j].datetime
                    && x == Record(ls[i].datetime, ls[i].cells + rs[j].cells);
        if i > 0 {
          assert ls[1..][i - 1] == ls[i];
        }
      }
    }
  }

  /** The join keeps exactly the pairs of a consumption row and a weather
      row with equal timestamps; in particular a consumption hour without
      weather is absent. */
  lemma JoinMembers(conso: Table, meteo: Table, x: Record)
    requires WellFormed(conso) && WellFormed(meteo)
    ensures x in InnerJoin(conso, meteo).rows <==>
              exists i, j :: 0 <= i < |conso.rows| && 0 <= j < |meteo.rows|
                             && conso.rows[i].datetime == meteo.rows[j].datetime
                             && x == Record(conso.rows[i].datetime, conso.rows[i].cells + meteo.rows[j].cells)
  {
    PairsMembers(conso.rows, meteo.rows, x);
  }

  /** With unique weather timestamps a consumption row has one match when
      its hour has weather and none otherwise. */
  lemma {:induction false} MatchesCount(l: Record, rs: seq<Record>)
    requires UniqueKeys(rs, RecordTime)
    ensures |Matches(l, rs)| == if l.datetime in KeysOf(rs, RecordTime) then 1 else 0
  {
    if |rs| > 0 {
      KeysOfCons(rs, RecordTime);
      UniqueKeysTail(rs, RecordTime);
      MatchesCount(l, rs[1..]);
    }
  }

  lemma {:induction false} PairsCount(ls: seq<Record>, rs: seq<Record>)
    requires UniqueKeys(ls, RecordTime) && UniqueKeys(rs, RecordTime)
    ensures |Pairs(ls, rs)| == |KeysOf(ls, RecordTime) * KeysOf(rs, RecordTime)|
  {
    var kr := KeysOf(rs, RecordTime);
    if |ls| == 0 {
      assert KeysOf(ls, RecordTime) == {};
    } else {
      var tail := ls[1..];
      UniqueKeysTail(ls, RecordTime);
      PairsCount(tail, rs);
      MatchesCount(ls[0], rs);
      KeysOfCons(ls, RecordTime);
      DisjointCard(RecordTime(ls[0]), KeysOf(tail, RecordTime), kr);
    }
  }

  /** Intersecting with `b` distributes over adding a fresh element. */
  lemma DisjointCard(x: int, a: set<int>, b: set<int>)
    requires x !in a
    ensures |({x} + a) * b| == (if x in b then 1 else 0) + |a * b|
  {
    var head := {x} * b;
    assert ({x} + a) * b == head + a * b;
    assert head !! a * b;
    if x in b {
      assert head == {x};
    } else {
      assert head == {};
    }
  }

  /** With unique timestamps on both sides the join has one row per hour
      present in both tables, so no more rows than either table. */
  lemma JoinCount(conso: Table, meteo: Table)
    requires WellFormed(conso) && WellFormed(meteo)
    requires UniqueKeys(conso.rows, RecordTime) && UniqueKeys(meteo.rows, RecordTime)
    ensures |InnerJoin(conso, meteo).rows|
              == |KeysOf(conso.rows, RecordTime) * KeysOf(meteo.rows, RecordTime)|
    ensures |InnerJoin(conso, meteo).rows| <= |conso.rows|
    ensures |InnerJoin(conso, meteo).rows| <= |meteo.rows|
  {
    var kc := KeysOf(conso.rows, RecordTime);
    var km := KeysOf(meteo.rows, RecordTime);
    PairsCount(conso.rows, meteo.rows);
    UniqueKeysCount(conso.rows, RecordTime);
    UniqueKeysCount(meteo.rows, RecordTime);
    assert kc * km <= kc && kc * km <= km;
    SubsetCard(kc * km, kc);
    SubsetCard(kc * km, km);
  }

  lemma SubsetCard(a: set<int>, b: set<int>)
    requires a <= b
    ensures |a| <= |b|
  {
    assert b == a + (b - a);
  }

  /* ---------------------------------------------------- artefact columns */

  /** A column `transform_data` drops: a `_meteo` duplicate or `created_at`. */
  predicate Artefact(c: string)
  {
    EndsWith(c, Suffix) || c == "created_at"
  }

  predicate Kept(c: string)
  {
    !Artefact(c)
  }

  /** The positions, from `from` on, of the columns that are kept, in
      increasing order. */
  function Positions(cols: seq<string>, from: nat): (idx: seq<nat>)
    requires from <= |cols|
    ensures forall k :: 0 <= k < |idx| ==> from <= idx[k] < |cols|
    ensures forall k, l :: 0 <= k < l < |idx| ==> idx[k] < idx[l]
    decreases |cols| - from
  {
    if from == |cols| then []
    else
      var rest := Positions(cols, from + 1);
      if Kept(cols[from]) then [from] + rest else rest
  }

  /** The columns at those positions are exactly the kept columns, in
      order. */
  lemma {:induction false} PositionsNames(cols: seq<string>, from: nat)
    requires from <= |cols|
    ensures var idx := Positions(cols, from);
            seq(|idx|, k requires 0 <= k < |idx| => cols[idx[k]]) == Filter(cols[from..], Kept)
    decreases |cols| - from
  {
    if from < |cols| {
      PositionsNames(cols, from + 1);
      assert cols[from..] == [cols[from]] + cols[from + 1..];
      FilterConcat([cols[from]], cols[from + 1..], Kept);
    }
  }

  /** The table restricted to the columns at `idx`, in that order. */
  function Project(t: Table, idx: seq<nat>): (r: Table)
    requires WellFormed(t)
    requires forall k :: 0 <= k < |idx| ==> idx[k] < |t.columns|
    ensures WellFormed(r) && |r.columns| == |idx| && |r.rows| == |t.rows|
    ensures forall k :: 0 <= k < |idx| ==> r.columns[k] == t.columns[idx[k]]
    ensures forall i :: 0 <= i < |t.rows| ==> r.rows[i].datetime == t.rows[i].datetime
    ensures forall i, k :: 0 <= i < |t.rows| && 0 <= k < |idx| ==> r.rows[i].cells[k] == t.rows[i].cells[idx[k]]
  {
    Table(seq(|idx|, k requires 0 <= k < |idx| => t.columns[idx[k]]),
          seq(|t.rows|, i requires 0 <= i < |t.rows| =>
                Record(t.rows[i].datetime,
                       seq(|idx|, k requires 0 <= k < |idx| => t.rows[i].cells[idx[k]]))))
  }

  /** `df.drop(columns=[c for c in df.columns if c.endswith("_meteo") or
      c == "created_at"])`: every other column is kept, in order, with its
      cells. */
  function DropArtefacts(t: Table): (r: Table)
    requires WellFormed(t)
    ensures WellFormed(r) && |r.rows| == |t.rows|
    ensures r.columns == Filter(t.columns, Kept)
    ensures forall i :: 0 <= i < |t.rows| ==> r.rows[i].datetime == t.rows[i].datetime
    ensures exists idx: seq<nat> :: ProjectedAt(t, r, idx)
  {
    var idx := Positions(t.columns, 0);
    PositionsNames(t.columns, 0);
    assert t.columns[0..] == t.columns;
    var r := Project(t, idx);
    assert ProjectedAt(t, r, idx);
    r
  }

  /** `r` is `t` restricted to the columns at the increasing positions
      `idx`: each kept column keeps its name and its cells. */
  predicate ProjectedAt(t: Table, r: Table, idx: seq<nat>)
    requires WellFormed(t) && WellFormed(r) && |r.rows| == |t.rows|
  {
    |idx| == |r.columns|
    && (forall k, l :: 0 <= k < l < |idx| ==> idx[k] < idx[l])
    && (forall k :: 0 <= k < |idx| ==> idx[k] < |t.columns| && r.columns[k] == t.columns[idx[k]])
    && (forall i, k :: 0 <= i < |t.rows| && 0 <= k < |idx| ==> r.rows[i].cells[k] == t.rows[i].cells[idx[k]])
  }

  /** After the join and the drop, a column survives exactly when it is not
      an artefact and one of the two tables has it: the weather table adds
      the columns the consumption table lacks, and its duplicates vanish. */
  lemma JoinedColumns(conso: Table, meteo: Table, c: string)
    requires WellFormed(conso) && WellFormed(meteo)
    ensures c in DropArtefacts(InnerJoin(conso, meteo)).columns <==>
              Kept(c) && (c in conso.columns || c in meteo.columns)
  {
    KeptJoinColumns(conso.columns, meteo.columns, c);
  }

  lemma KeptJoinColumns(left: seq<string>, right: seq<string>, c: string)
    ensures c in Filter(JoinColumns(left, right), Kept) <==> Kept(c) && (c in left || c in right)
  {
    FilterMembers(JoinColumns(left, right), Kept, c);
    if c in JoinColumns(left, right) && Kept(c) {
      JoinColumnSource(left, right, c);
    }
    if c in left || (Kept(c) && c in right) {
      JoinColumnPresent(left, right, c);
    }
  }

  /** A kept joined column is a column of one of the two tables. */
  lemma JoinColumnSource(left: seq<string>, right: seq<string>, c: string)
    requires c in JoinColumns(left, right) && Kept(c)
    ensures c in left || c in right
  {
    var cols := JoinColumns(left, right);
    var k :| 0 <= k < |cols| && cols[k] == c;
    if k < |left| {
      assert cols[..|left|][k] == c;
    } else {
      var n := right[k - |left|];
      assert cols[k] == RightName(left, n);
      // a renamed column would carry the suffix, which `Kept` excludes
      assert n !in left;
      assert n == c;
    }
  }

  /** Every consumption column, and every weather column the consumption
      table lacks, appears in the join under its own name. */
  lemma JoinColumnPresent(left: seq<string>, right: seq<string>, c: string)
    requires c in left || (c in right && c !in left)
    ensures c in JoinColumns(left, right)
  {
    var cols := JoinColumns(left, right);
    if c in left {
      var i :| 0 <= i < |left| && left[i] == c;
      assert cols[..|left|][i] == c;
      assert cols[i] == c;
    } else {
      var i :| 0 <= i < |right| && right[i] == c;
      assert cols[|left| + i] == c;
    }
  }

  /* --------------------------------------------------- temporal features */

  const Heure: string := "heure"
  const JourSemaine: string := "jour_semaine"
  const Mois: string := "mois"
  const JourMois: string := "jour_mois"
  const EstWeekend: string := "est_weekend"

  /** `df[name] = f(df["datetime"])`: overwrites the column when it exists,
      appends it otherwise. */
  function SetColumn(t: Table, name: string, f: int -> Value): (r: Table)
    requires WellFormed(t)
    ensures WellFormed(r) && |r.rows| == |t.rows| && name in r.columns
    ensures name in t.columns ==> r.columns == t.columns
    ensures name !in t.columns ==> r.columns == t.columns + [name]
    ensures t.columns <= r.columns
    ensures forall i :: 0 <= i < |t.rows| ==> r.rows[i].datetime == t.rows[i].datetime
    ensures forall i, j :: 0 <= i < |t.rows| && 0 <= j < |r.columns| && r.columns[j] == name
              ==> r.rows[i].cells[j] == Some(f(t.rows[i].datetime))
    ensures forall i, j :: 0 <= i < |t.rows| && 0 <= j < |t.columns| && t.columns[j] != name
              ==> r.rows[i].cells[j] == t.rows[i].cells[j]
  {
    if name in t.columns then
      Table(t.columns,
            seq(|t.rows|, i requires 0 <= i < |t.rows| =>
                  Record(t.rows[i].datetime,
                         seq(|t.columns|, j requires 0 <= j < |t.columns| =>
                               if t.columns[j] == name then Some(f(t.rows[i].datetime)) else t.rows[i].cells[j]))))
    else
      Table(t.columns + [name],
            seq(|t.rows|, i requires 0 <= i < |t.rows| =>
                  Record(t.rows[i].datetime, t.rows[i].cells + [Some(f(t.rows[i].datetime))])))
  }

  /** Setting one column leaves the cell of any other named column as it
      was. */
  lemma SetColumnOther(t: Table, name: string, f: int -> Value, other: string, i: int)
    requires WellFormed(t) && 0 <= i < |t.rows| && other in t.columns && other != name
    ensures other in SetColumn(t, name, f).columns
    ensures CellOf(SetColumn(t, name, f), i, other) == CellOf(t, i, other)
  {
    var r := SetColumn(t, name, f);
    var k := IndexOf(t.columns, other);
    var k' := IndexOf(r.columns, other);
    assert r.columns[k] == other;
    assert k' < |t.columns| ==> t.columns[k'] == other;
  }

  lemma SetColumnOwn(t: Table, name: string, f: int -> Value, i: int)
    requires WellFormed(t) && 0 <= i < |t.rows|
    ensures CellOf(SetColumn(t, name, f), i, name) == Some(f(t.rows[i].datetime))
  {
  }

  function HourValue(h: int): Value { Int(HourOfDay(h)) }
  function WeekdayValue(h: int): Value { Int(DayOfWeek(h)) }
  function MonthValue(h: int): Value { Int(MonthOf(h)) }
  function DayValue(h: int): Value { Int(DayOfMonth(h)) }

  /** `(jour_semaine >= 5).astype(int)`: an integer, not a boolean. */
  function WeekendValue(h: int): Value { Int(if DayOfWeek(h) >= 5 then 1 else 0) }

  /** The five features derived from the timestamp. */
  function AddTemporalFeatures(t: Table): (r: Table)
    requires WellFormed(t)
    ensures WellFormed(r) && |r.rows| == |t.rows|
    ensures t.columns <= r.columns
    ensures forall i :: 0 <= i < |t.rows| ==> r.rows[i].datetime == t.rows[i].datetime
  {
    var t1 := SetColumn(t, Heure, HourValue);
    var t2 := SetColumn(t1, JourSemaine, WeekdayValue);
    var t3 := SetColumn(t2, Mois, MonthValue);
    var t4 := SetColumn(t3, JourMois, DayValue);
    SetColumn(t4, EstWeekend, WeekendValue)
  }

  /** The value of each feature: the hour, the weekday with Monday as 0,
      the month and the day of the month of the timestamp, and 1 on
      Saturdays and Sundays, 0 otherwise. Every other column keeps its
      cells. */
  lemma TemporalFeatures(t: Table, i: int)
    requires WellFormed(t) && 0 <= i < |t.rows|
    ensures var r := AddTemporalFeatures(t);
            var h := t.rows[i].datetime;
            Heure in r.columns && JourSemaine in r.columns && Mois in r.columns
            && JourMois in r.columns && EstWeekend in r.columns
            && CellOf(r, i, Heure) == Some(Int(HourOfDay(h)))
            && CellOf(r, i, JourSemaine) == Some(Int(DayOfWeek(h)))
            && CellOf(r, i, Mois) == Some(Int(MonthOf(h)))
            && CellOf(r, i, JourMois) == Some(Int(DayOfMonth(h)))
            && CellOf(r, i, EstWeekend) == Some(Int(if DayOfWeek(h) >= 5 then 1 else 0))
    ensures forall c :: c in t.columns && c !in {Heure, JourSemaine, Mois, JourMois, EstWeekend}
              ==> c in AddTemporalFeatures(t).columns && CellOf(AddTemporalFeatures(t), i, c) == CellOf(t, i, c)
  {
    var t1 := SetColumn(t, Heure, HourValue);
    var t2 := SetColumn(t1, JourSemaine, WeekdayValue);
    var t3 := SetColumn(t2, Mois, MonthValue);
    var t4 := SetColumn(t3, JourMois, DayValue);
    SetColumnOwn(t, Heure, HourValue, i);
    SetColumnOther(t1, JourSemaine, WeekdayValue, Heure, i);
    SetColumnOther(t2, Mois, MonthValue, Heure, i);
    SetColumnOther(t3, JourMois, DayValue, Heure, i);
    SetColumnOther(t4, EstWeekend, WeekendValue, Heure, i);
    SetColumnOwn(t1, JourSemaine, WeekdayValue, i);
    SetColumnOther(t2, Mois, MonthValue, JourSemaine, i);
    SetColumnOther(t3, JourMois, DayValue, JourSemaine, i);
    SetColumnOther(t4, EstWeekend, WeekendValue, JourSemaine, i);
    SetColumnOwn(t2, Mois, MonthValue, i);
    SetColumnOther(t3, JourMois, DayValue, Mois, i);
    SetColumnOther(t4, EstWeekend, WeekendValue, Mois, i);
    SetColumnOwn(t3, JourMois, DayValue, i);
    SetColumnOther(t4, EstWeekend, WeekendValue, JourMois, i);
    SetColumnOwn(t4, EstWeekend, WeekendValue, i);
    forall c | c in t.columns && c !in {Heure, JourSemaine, Mois, JourMois, EstWeekend}
      ensures c in AddTemporalFeatures(t).columns && CellOf(AddTemporalFeatures(t), i, c) == CellOf(t, i, c)
    {
      SetColumnOther(t, Heure, HourValue, c, i);
      SetColumnOther(t1, JourSemaine, WeekdayValue, c, i);
      SetColumnOther(t2, Mois, MonthValue, c, i);
      SetColumnOther(t3, JourMois, DayValue, c, i);
      SetColumnOther(t4, EstWeekend, WeekendValue, c, i);
    }
  }

  /** The feature ranges: `heure` in [0, 23], `jour_semaine` in [0, 6],
      `mois` in [1, 12], `jour_mois` in [1, 31], and `est_weekend` is 1
      exactly when `jour_semaine` is at least 5, 0 otherwise. */
  lemma TemporalFeatureRanges(t: Table, i: int)
    requires WellFormed(t) && 0 <= i < |t.rows|
    ensures var r := AddTemporalFeatures(t);
            Heure in r.columns && JourSemaine in r.columns && Mois in r.columns
            && JourMois in r.columns && EstWeekend in r.columns
            && CellOf(r, i, Heure).Some? && CellOf(r, i, Heure).value.Int?
            && 0 <= CellOf(r, i, Heure).value.n <= 23
            && CellOf(r, i, JourSemaine).Some? && CellOf(r, i, JourSemaine).value.Int?
            && 0 <= CellOf(r, i, JourSemaine).value.n <= 6
            && CellOf(r, i, Mois).Some? && CellOf(r, i, Mois).value.Int?
            && 1 <= CellOf(r, i, Mois).value.n <= 12
            && CellOf(r, i, JourMois).Some? && CellOf(r, i, JourMois).value.Int?
            && 1 <= CellOf(r, i, JourMois).value.n <= 31
            && CellOf(r, i, EstWeekend).Some? && CellOf(r, i, EstWeekend).value.Int?
            && (CellOf(r, i, EstWeekend).value.n == 1 <==> CellOf(r, i, JourSemaine).value.n >= 5)
            && (CellOf(r, i, EstWeekend).value.n == 0 <==> CellOf(r, i, JourSemaine).value.n < 5)
  {
    TemporalFeatures(t, i);
  }

  /* -------------------------------------------------------- missing data */

  predicate Complete(r: Record)
  {
    forall j :: 0 <= j < |r.cells| ==> r.cells[j].Some?
  }

  /** `df.isnull().sum().any()`: some cell is missing. */
  predicate AnyMissing(t: Table)
  {
    exists i :: 0 <= i < |t.rows| && !Complete(t.rows[i])
  }

  /** `df.dropna()`: the rows without a missing cell, in order. */
  function DropNa(t: Table): (r: Table)
    requires WellFormed(t)
    ensures WellFormed(r) && r.columns == t.columns && |r.rows| <= |t.rows|
    ensures forall i :: 0 <= i < |r.rows| ==> Complete(r.rows[i])
  {
    var kept := Filter(t.rows, Complete);
    forall i | 0 <= i < |kept| ensures |kept[i].cells| == |t.columns| {
      FilterMembers(t.rows, Complete, kept[i]);
    }
    Table(t.columns, kept)
  }

  /** `dropna` keeps a row exactly when it has no missing cell, and keeps
      every row only when no cell is missing. */
  lemma DropNaRows(t: Table, x: Record)
    requires WellFormed(t)
    ensures x in DropNa(t).rows <==> x in t.rows && Complete(x)
    ensures DropNa(t) == t <==> !AnyMissing(t)
  {
    FilterMembers(t.rows, Complete, x);
    FilterIdentity(t.rows, Complete);
  }

  /* ----------------------------------------------------------- transform */

  /** The fused table and the printed count of "deleted rows", present only
      when some cell was missing. */
  datatype Fused = Fused(table: Table, dropped: Option<int>)

  /** The table before the missing-value step. */
  function Prepared(conso: Table, meteo: Table): (t: Table)
    requires WellFormed(conso) && WellFormed(meteo)
    ensures WellFormed(t)
    ensures |t.rows| == |InnerJoin(conso, meteo).rows|
    ensures forall k :: 0 <= k < |t.rows| ==> t.rows[k].datetime in KeysOf(conso.rows, RecordTime)
  {
    AddTemporalFeatures(DropArtefacts(InnerJoin(conso, meteo)))
  }

  /** The fusion steps of `transform_data`, up to the missing-value step.
      The deleted-row count is `len(df_conso)` minus the length of the
      result, so it also counts the hours the join lost. */
  function Fuse(conso: Table, meteo: Table): (f: Fused)
    requires WellFormed(conso) && WellFormed(meteo)
    ensures WellFormed(f.table)
    ensures forall i :: 0 <= i < |f.table.rows| ==> Complete(f.table.rows[i])
    ensures f.table.columns == Prepared(conso, meteo).columns
    ensures f.dropped.Some? <==> AnyMissing(Prepared(conso, meteo))
    ensures f.dropped.Some? ==> f.dropped.value == |conso.rows| - |f.table.rows|
    ensures f.dropped.None? ==> f.table == Prepared(conso, meteo)
    ensures f.table.rows == Filter(Prepared(conso, meteo).rows, Complete)
  {
    var t := Prepared(conso, meteo);
    FilterIdentity(t.rows, Complete);
    if AnyMissing(t) then
      var r := DropNa(t);
      Fused(r, Some(|conso.rows| - |r.rows|))
    else Fused(t, None)
  }

  /** The consumption column, which the correlation step reads. */
  const Consumption: string := "mw_conso"

  /** The columns correlated with consumption, when present. */
  const CorrelationVariables: seq<string> := ["temperature", "vent", "ensoleillement", Heure, JourSemaine]

  /** The `KeyError` of `df_merged["mw_conso"]`. */
  datatype TransformError = MissingConsumption

  /** `transform_data`: the fusion, then the correlation step, which reads
      the consumption column as soon as one correlation variable is
      present and so raises `KeyError` when that column is absent. */
  function TransformData(conso: Table, meteo: Table): (r: Result<Fused, TransformError>)
    requires WellFormed(conso) && WellFormed(meteo)
    ensures r.Success? ==> r.value == Fuse(conso, meteo)
    ensures r.Failure? ==> Consumption !in Fuse(conso, meteo).table.columns
  {
    var f := Fuse(conso, meteo);
    if Correlates(f.table.columns) && Consumption !in f.table.columns
    then Failure(MissingConsumption)
    else Success(f)
  }

  /** Some correlation variable is a column, so the loop reads the
      consumption column. */
  predicate Correlates(cols: seq<string>)
  {
    exists k :: 0 <= k < |CorrelationVariables| && CorrelationVariables[k] in cols
  }

  /** Setting a column adds that name and no other. */
  lemma SetColumnNames(t: Table, name: string, f: int -> Value, c: string)
    requires WellFormed(t)
    ensures c in SetColumn(t, name, f).columns <==> c in t.columns || c == name
  {
  }

  /** The feature step adds exactly the five temporal columns. */
  lemma TemporalColumns(t: Table, c: string)
    requires WellFormed(t)
    ensures c in AddTemporalFeatures(t).columns <==>
              c in t.columns || c == Heure || c == JourSemaine || c == Mois || c == JourMois || c == EstWeekend
  {
    var t1 := SetColumn(t, Heure, HourValue);
    var t2 := SetColumn(t1, JourSemaine, WeekdayValue);
    var t3 := SetColumn(t2, Mois, MonthValue);
    var t4 := SetColumn(t3, JourMois, DayValue);
    SetColumnNames(t, Heure, HourValue, c);
    SetColumnNames(t1, JourSemaine, WeekdayValue, c);
    SetColumnNames(t2, Mois, MonthValue, c);
    SetColumnNames(t3, JourMois, DayValue, c);
    SetColumnNames(t4, EstWeekend, WeekendValue, c);
  }

  /** The fused table has the kept columns of either input and the five
      temporal columns, and nothing else. */
  lemma FusedColumns(conso: Table, meteo: Table, c: string)
    requires WellFormed(conso) && WellFormed(meteo)
    ensures c in Fuse(conso, meteo).table.columns <==>
              (Kept(c) && (c in conso.columns || c in meteo.columns))
              || c == Heure || c == JourSemaine || c == Mois || c == JourMois || c == EstWeekend
  {
    TemporalColumns(DropArtefacts(InnerJoin(conso, meteo)), c);
    JoinedColumns(conso, meteo, c);
  }

  /** `mw_conso` is neither an artefact nor a temporal column. */
  lemma ConsumptionKept()
    ensures Kept(Consumption)
    ensures Consumption != Heure && Consumption != JourSemaine && Consumption != Mois
    ensures Consumption != JourMois && Consumption != EstWeekend
  {
    assert Consumption[|Consumption| - |Suffix|..] != Suffix;
  }

  /** Because `heure` is always present, the transform raises `KeyError`
      exactly when neither input has a consumption column. */
  lemma TransformFailure(conso: Table, meteo: Table)
    requires WellFormed(conso) && WellFormed(meteo)
    ensures TransformData(conso, meteo).Failure? <==>
              Consumption !in conso.columns && Consumption !in meteo.columns
  {
    var cols := Fuse(conso, meteo).table.columns;
    FusedColumns(conso, meteo, Heure);
    assert Correlates(cols) by {
      assert CorrelationVariables[3] in cols;
    }
    FusedColumns(conso, meteo, Consumption);
    ConsumptionKept();
  }

  /** Every fused hour has both a consumption and a weather row. */
  lemma FusedHours(conso: Table, meteo: Table)
    requires WellFormed(conso) && WellFormed(meteo)
    ensures forall k :: 0 <= k < |Fuse(conso, meteo).table.rows| ==>
              Fuse(conso, meteo).table.rows[k].datetime in KeysOf(conso.rows, RecordTime)
              && Fuse(conso, meteo).table.rows[k].datetime in KeysOf(meteo.rows, RecordTime)
  {
    var t := Prepared(conso, meteo);
    var rows := Fuse(conso, meteo).table.rows;
    forall k | 0 <= k < |rows|
      ensures rows[k].datetime in KeysOf(conso.rows, RecordTime) && rows[k].datetime in KeysOf(meteo.rows, RecordTime)
    {
      FusedHour(conso, meteo, rows[k]);
    }
  }

  lemma FusedHour(conso: Table, meteo: Table, x: Record)
    requires WellFormed(conso) && WellFormed(meteo)
    requires x in Filter(Prepared(conso, meteo).rows, Complete)
    ensures x.datetime in KeysOf(conso.rows, RecordTime) && x.datetime in KeysOf(meteo.rows, RecordTime)
  {
    var t := Prepared(conso, meteo);
    FilterMembers(t.rows, Complete, x);
    var p :| 0 <= p < |t.rows| && t.rows[p] == x;
    var joined := InnerJoin(conso, meteo);
    JoinMembers(conso, meteo, joined.rows[p]);
    assert joined.rows[p] in joined.rows;
    var i, j :| 0 <= i < |conso.rows| && 0 <= j < |meteo.rows|
                && conso.rows[i].datetime == meteo.rows[j].datetime
                && joined.rows[p] == Record(conso.rows[i].datetime, conso.rows[i].cells + meteo.rows[j].cells);
    assert RecordTime(meteo.rows[j]) == x.datetime;
  }

  /** With unique timestamps on both sides, the deleted-row count is the
      hours lost in the join plus the rows `dropna` removed, each part
      non-negative. */
  lemma DroppedCount(conso: Table, meteo: Table)
    requires WellFormed(conso) && WellFormed(meteo)
    requires UniqueKeys(conso.rows, RecordTime) && UniqueKeys(meteo.rows, RecordTime)
    ensures var f := Fuse(conso, meteo);
            var both := KeysOf(conso.rows, RecordTime) * KeysOf(meteo.rows, RecordTime);
            f.dropped.Some? ==>
              f.dropped.value == (|conso.rows| - |both|) + (|both| - |f.table.rows|)
              && |conso.rows| - |both| >= 0 && |both| - |f.table.rows| >= 0
  {
    JoinCount(conso, meteo);
    UniqueKeysCount(conso.rows, RecordTime);
  }

  /** 2026-01-03 08:00 is hour 56: a Saturday, so `heure` is 8,
      `jour_semaine` is 5 and `est_weekend` is 1. */
  lemma SaturdayFeatures(t: Table, i: int)
    requires WellFormed(t) && 0 <= i < |t.rows| && t.rows[i].datetime == 56
    ensures var r := AddTemporalFeatures(t);
            Heure in r.columns && JourSemaine in r.columns && EstWeekend in r.columns
            && Mois in r.columns && JourMois in r.columns
            && CellOf(r, i, Heure) == Some(Int(8)) && CellOf(r, i, JourSemaine) == Some(Int(5))
            && CellOf(r, i, EstWeekend) == Some(Int(1))
            && CellOf(r, i, Mois) == Some(Int(1)) && CellOf(r, i, JourMois) == Some(Int(3))
  {
    TemporalFeatures(t, i);
    SaturdayMorning();
  }

  /** Consumption for hours 0, 1 and 2 joined with weather for hours 1 and
      2 gives two rows. */
  lemma StrictOnWeather(conso: Table, meteo: Table)
    requires WellFormed(conso) && WellFormed(meteo)
    requires UniqueKeys(conso.rows, RecordTime) && UniqueKeys(meteo.rows, RecordTime)
    requires KeysOf(conso.rows, RecordTime) == {0, 1, 2} && KeysOf(meteo.rows, RecordTime) == {1, 2}
    ensures |InnerJoin(conso, meteo).rows| == 2
  {
    JoinCount(conso, meteo);
    assert KeysOf(conso.rows, RecordTime) * KeysOf(meteo.rows, RecordTime) == {1, 2};
  }
}
