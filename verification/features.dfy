/** Feature selection before training (`prepare_features` in
    `ml/train_model.py`): the check that every feature column exists, the
    drop of rows missing the target or a feature, and the split into the
    feature matrix and the target. */
module Features {
  import opened Wrappers
  import opened Seqs
  import opened Fusion

  const Target: string := Consumption
  const PrixSpot: string := "prix_spot_eur_mwh"
  const EstFerie: string := "est_ferie"
  const EstVacances: string := "est_vacances"

  /** The eight features, in the order the model sees them: the five
      temporal features, the spot price and the two calendar flags. */
  const FeatureNames: seq<string> :=
    [Heure, JourSemaine, Mois, JourMois, EstWeekend, PrixSpot, EstFerie, EstVacances]

  /** `ValueError` listing the absent features, or the `KeyError` that
      `dropna(subset=...)` raises when the target column is absent. */
  datatype FeatureError = MissingColumns(names: seq<string>) | MissingTarget

  /** `X` (the feature columns) and `y` (the target), row by row. */
  datatype TrainingSet = TrainingSet(x: Table, y: seq<Cell>)

  /** Row `row` of a table with columns `cols` has a value in column
      `name`. */
  predicate Present(cols: seq<string>, row: Record, name: string)
  {
    name in cols && IndexOf(cols, name) < |row.cells| && row.cells[IndexOf(cols, name)].Some?
  }

  /** `dropna(subset=[target] + features)` keeps the row. */
  predicate Usable(cols: seq<string>, row: Record)
  {
    Present(cols, row, Target) && forall k :: 0 <= k < |FeatureNames| ==> Present(cols, row, FeatureNames[k])
  }

  /** The position of a feature in the feature list; anything else comes
      after every feature. */
  function FeatureRank(c: string): (k: int)
    ensures c in FeatureNames ==> 0 <= k < |FeatureNames| && FeatureNames[k] == c
    ensures c !in FeatureNames ==> k == |FeatureNames|
  {
    if c in FeatureNames then IndexOf(FeatureNames, c) else |FeatureNames|
  }

  /** No feature is listed twice, so each sits at its own rank. */
  lemma FeatureRanks()
    ensures forall i :: 0 <= i < |FeatureNames| ==> FeatureRank(FeatureNames[i]) == i
  {
    var names := FeatureNames;
    assert forall i, j :: 0 <= i < j < |names| ==> names[i] != names[j];
    forall i | 0 <= i < |names| ensures FeatureRank(names[i]) == i {
      var k := IndexOf(names, names[i]);
      assert names[k] == names[i];
    }
  }

  /** The features absent from `cols`, in feature order and each once. */
  function AbsentFeatures(cols: seq<string>): (names: seq<string>)
    ensures forall c :: c in names <==> c in FeatureNames && c !in cols
    ensures forall k, l :: 0 <= k < l < |names| ==> FeatureRank(names[k]) < FeatureRank(names[l])
  {
    var absent := (c: string) => c !in cols;
    forall c ensures c in Filter(FeatureNames, absent) <==> c in FeatureNames && c !in cols {
      FilterMembers(FeatureNames, absent, c);
    }
    FeatureRanks();
    FilterRanked(FeatureNames, absent, FeatureRank);
    Filter(FeatureNames, absent)
  }

  function KeptRows(t: Table): seq<Record>
  {
    Filter(t.rows, (row: Record) => Usable(t.columns, row))
  }

  /** Every feature is a column of `cols`. */
  predicate AllFeatures(cols: seq<string>)
  {
    forall k :: 0 <= k < |FeatureNames| ==> FeatureNames[k] in cols
  }

  lemma AbsentFeaturesEmpty(cols: seq<string>)
    ensures |AbsentFeatures(cols)| == 0 <==> AllFeatures(cols)
  {
    var missing := AbsentFeatures(cols);
    if !AllFeatures(cols) {
      var k :| 0 <= k < |FeatureNames| && FeatureNames[k] !in cols;
      assert FeatureNames[k] in missing;
    }
    if |missing| > 0 {
      assert missing[0] in missing;
    }
  }

  /** The split of the cleaned table into `X` and `y`, once every needed
      column is known to exist. */
  function Split(t: Table): (s: TrainingSet)
    requires WellFormed(t) && AllFeatures(t.columns) && Target in t.columns
    ensures var kept := KeptRows(t);
            s.x.columns == FeatureNames && WellFormed(s.x)
            && |s.x.rows| == |s.y| == |kept| <= |t.rows|
            && (forall i :: 0 <= i < |kept| ==> s.x.rows[i].datetime == kept[i].datetime)
            && (forall i, k :: 0 <= i < |kept| && 0 <= k < |FeatureNames| ==>
                  s.x.rows[i].cells[k] == kept[i].cells[IndexOf(t.columns, FeatureNames[k])]
                  && s.x.rows[i].cells[k].Some?)
            && (forall i :: 0 <= i < |kept| ==>
                  s.y[i] == kept[i].cells[IndexOf(t.columns, Target)] && s.y[i].Some?)
  {
    var kept := KeptRows(t);
    var clean := Table(t.columns, kept);
    assert WellFormed(clean) by {
      forall i | 0 <= i < |kept| ensures |kept[i].cells| == |t.columns| {
        FilterMembers(t.rows, (row: Record) => Usable(t.columns, row), kept[i]);
      }
    }
    assert forall i :: 0 <= i < |kept| ==> Usable(t.columns, kept[i]);
    var idx := seq(|FeatureNames|, k requires 0 <= k < |FeatureNames| => IndexOf(t.columns, FeatureNames[k]));
    var x := Project(clean, idx);
    var ti := IndexOf(t.columns, Target);
    TrainingSet(x, seq(|kept|, i requires 0 <= i < |kept| => kept[i].cells[ti]))
  }

  /** `prepare_features`: the absent features are reported first, then an
      absent target; otherwise the split of the usable rows. */
  function PrepareFeatures(t: Table): (r: Result<TrainingSet, FeatureError>)
    requires WellFormed(t)
    ensures r.Failure? && r.error.MissingColumns? <==> !AllFeatures(t.columns)
    ensures r.Failure? && r.error.MissingColumns? ==>
              |r.error.names| > 0 && r.error.names == AbsentFeatures(t.columns)
    ensures r.Failure? && r.error.MissingTarget? <==> AllFeatures(t.columns) && Target !in t.columns
    ensures r.Success? ==> AllFeatures(t.columns) && Target in t.columns && r.value == Split(t)
  {
    var missing := AbsentFeatures(t.columns);
    AbsentFeaturesEmpty(t.columns);
    if |missing| > 0 then
      Failure(MissingColumns(missing))
    else if Target !in t.columns then
      Failure(MissingTarget)
    else
      Success(Split(t))
  }

  /** A row survives exactly when it has the target and every feature. */
  lemma KeptRowsMembers(t: Table, row: Record)
    ensures row in KeptRows(t) <==> row in t.rows && Usable(t.columns, row)
    ensures KeptRows(t) == t.rows <==> forall i :: 0 <= i < |t.rows| ==> Usable(t.columns, t.rows[i])
  {
    FilterMembers(t.rows, (row: Record) => Usable(t.columns, row), row);
    FilterIdentity(t.rows, (row: Record) => Usable(t.columns, row));
  }

  /** A missing value in a column that is neither the target nor a feature
      does not decide whether the row is kept. */
  lemma UnrelatedColumn(cols: seq<string>, row: Record, j: int, v: Cell)
    requires |row.cells| == |cols| && 0 <= j < |cols|
    requires cols[j] != Target && cols[j] !in FeatureNames
    ensures Usable(cols, row) <==> Usable(cols, Record(row.datetime, row.cells[j := v]))
  {
    var row' := Record(row.datetime, row.cells[j := v]);
    assert Target in cols ==> IndexOf(cols, Target) != j;
    forall k | 0 <= k < |FeatureNames| && FeatureNames[k] in cols
      ensures IndexOf(cols, FeatureNames[k]) != j
    {
      assert cols[IndexOf(cols, FeatureNames[k])] == FeatureNames[k];
    }
    assert Present(cols, row, Target) <==> Present(cols, row', Target);
    assert forall k :: 0 <= k < |FeatureNames| ==>
             (Present(cols, row, FeatureNames[k]) <==> Present(cols, row', FeatureNames[k]));
  }

  /** After the feature step, the five temporal features are present in
      every row, so only the target and the price and calendar columns can
      drop a row. */
  lemma FusedFeaturesPresent(t: Table, i: int)
    requires WellFormed(t) && 0 <= i < |t.rows|
    ensures var r := AddTemporalFeatures(t);
            Present(r.columns, r.rows[i], Heure) && Present(r.columns, r.rows[i], JourSemaine)
            && Present(r.columns, r.rows[i], Mois) && Present(r.columns, r.rows[i], JourMois)
            && Present(r.columns, r.rows[i], EstWeekend)
  {
    TemporalFeatures(t, i);
  }

  /** The error names the absent features in feature order: a table lacking
      the spot price and the holiday flag is rejected with exactly those
      two, price first. */
  lemma MissingPriceAndHoliday(t: Table)
    requires WellFormed(t)
    requires Heure in t.columns && JourSemaine in t.columns && Mois in t.columns
    requires JourMois in t.columns && EstWeekend in t.columns && EstVacances in t.columns
    requires PrixSpot !in t.columns && EstFerie !in t.columns
    ensures PrepareFeatures(t) == Failure(MissingColumns([PrixSpot, EstFerie]))
  {
    var absent := (c: string) => c !in t.columns;
    var names := FeatureNames;
    assert Filter(names[7..], absent) == [];
    assert Filter(names[6..], absent) == [EstFerie];
    assert Filter(names[5..], absent) == [PrixSpot, EstFerie];
    assert Filter(names[4..], absent) == [PrixSpot, EstFerie];
    assert Filter(names[3..], absent) == [PrixSpot, EstFerie];
    assert Filter(names[2..], absent) == [PrixSpot, EstFerie];
    assert Filter(names[1..], absent) == [PrixSpot, EstFerie];
    assert names[0..] == names;
  }
}
