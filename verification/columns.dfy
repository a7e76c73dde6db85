/** Operations on one numeric column with missing values, as pandas performs
    them on a float `Series`: linear interpolation by row position
    (`interpolate(method="linear")`), the median that skips missing values
    (`median()`), and replacement of out-of-range values by that median. */
module Columns {
  import opened Wrappers
  import opened Seqs

  /** A float column; `None` is NaN. */
  type Column = seq<Option<real>>

  /* -------------------------------------------------------- interpolation */

  /** The last position before `i` holding a value. */
  function PrevKnown(col: Column, i: int): (r: Option<nat>)
    requires 0 <= i <= |col|
    ensures r.Some? ==> r.value < i && col[r.value].Some?
                        && forall l :: r.value < l < i ==> col[l].None?
    ensures r.None? ==> forall l :: 0 <= l < i ==> col[l].None?
    decreases i
  {
    if i == 0 then None
    else if col[i - 1].Some? then Some(i - 1)
    else PrevKnown(col, i - 1)
  }

  /** The first position after `i` holding a value. */
  function NextKnown(col: Column, i: int): (r: Option<nat>)
    requires 0 <= i < |col|
    ensures r.Some? ==> i < r.value < |col| && col[r.value].Some?
                        && forall l :: i < l < r.value ==> col[l].None?
    ensures r.None? ==> forall l :: i < l < |col| ==> col[l].None?
    decreases |col| - i
  {
    if i + 1 == |col| then None
    else if col[i + 1].Some? then Some(i + 1)
    else NextKnown(col, i + 1)
  }

  /** The value at position `i` on the straight line through `(j, a)` and
      `(k, b)`. */
  function Lerp(a: real, b: real, j: int, k: int, i: int): real
    requires j < k
  {
    a + (b - a) * (i - j) as real / (k - j) as real
  }

  /** One cell after interpolation. A gap between two known values gets the
      linear value; a gap after the last known value gets that value (numpy's
      `interp` holds the end value, and pandas' default forward direction only
      protects the leading gap); a gap before the first known value stays. */
  function InterpolateAt(col: Column, i: int): Option<real>
    requires 0 <= i < |col|
  {
    if col[i].Some? then col[i]
    else
      match PrevKnown(col, i)
      case None => None
      case Some(j) =>
        match NextKnown(col, i)
        case Some(k) => Some(Lerp(col[j].value, col[k].value, j, k, i))
        case None => col[j]
  }

  lemma InterpolateAtInterior(col: Column, i: int, j: int, k: int)
    requires 0 <= j < i < k < |col| && col[j].Some? && col[k].Some?
    requires forall l :: j < l < k ==> col[l].None?
    ensures InterpolateAt(col, i) == Some(Lerp(col[j].value, col[k].value, j, k, i))
  {
    var p := PrevKnown(col, i).value;
    var cj := col[j];
    assert p < j ==> cj.None?;
    var n := NextKnown(col, i).value;
    var ck := col[k];
    assert k < n ==> ck.None?;
  }

  lemma InterpolateAtTrailing(col: Column, i: int, j: int)
    requires 0 <= j < i < |col| && col[j].Some?
    requires forall l :: j < l < |col| ==> col[l].None?
    ensures InterpolateAt(col, i) == col[j]
  {
    var p := PrevKnown(col, i).value;
    var cj := col[j];
    assert p < j ==> cj.None?;
  }

  lemma InterpolateAtAfterKnown(col: Column, i: int, j: int)
    requires 0 <= j <= i < |col| && col[j].Some?
    ensures InterpolateAt(col, i).Some?
  {
    if j < i {
      var p := PrevKnown(col, i);
      var cj := col[j];
      assert p.None? ==> cj.None?;
    }
  }

  /** pandas `Series.interpolate(method="linear")` with its default
      `limit_direction="forward"`. */
  function Interpolate(col: Column): (r: Column)
    ensures |r| == |col|
    ensures forall i :: 0 <= i < |col| && col[i].Some? ==> r[i] == col[i]
    ensures forall i, j, k ::
              0 <= j < i < k < |col| && col[j].Some? && col[k].Some?
              && (forall l :: j < l < k ==> col[l].None?)
              ==> r[i] == Some(Lerp(col[j].value, col[k].value, j, k, i))
    ensures forall i, j ::
              0 <= j < i < |col| && col[j].Some?
              && (forall l :: j < l < |col| ==> col[l].None?)
              ==> r[i] == col[j]
    ensures forall i :: 0 <= i < |col| && (forall l :: 0 <= l <= i ==> col[l].None?)
              ==> r[i].None?
    ensures forall i, j :: 0 <= j <= i < |col| && col[j].Some? ==> r[i].Some?
  {
    var r := seq(|col|, i requires 0 <= i < |col| => InterpolateAt(col, i));
    InterpolateSpec(col, r);
    r
  }

  lemma InterpolateSpec(col: Column, r: Column)
    requires |r| == |col| && forall i :: 0 <= i < |col| ==> r[i] == InterpolateAt(col, i)
    ensures forall i, j, k ::
              0 <= j < i < k < |col| && col[j].Some? && col[k].Some?
              && (forall l :: j < l < k ==> col[l].None?)
              ==> r[i] == Some(Lerp(col[j].value, col[k].value, j, k, i))
    ensures forall i, j ::
              0 <= j < i < |col| && col[j].Some?
              && (forall l :: j < l < |col| ==> col[l].None?)
              ==> r[i] == col[j]
    ensures forall i, j :: 0 <= j <= i < |col| && col[j].Some? ==> r[i].Some?
  {
    forall i, j, k | 0 <= j < i < k < |col| && col[j].Some? && col[k].Some?
                     && (forall l :: j < l < k ==> col[l].None?)
      ensures r[i] == Some(Lerp(col[j].value, col[k].value, j, k, i))
    {
      InterpolateAtInterior(col, i, j, k);
    }
    forall i, j | 0 <= j < i < |col| && col[j].Some? && (forall l :: j < l < |col| ==> col[l].None?)
      ensures r[i] == col[j]
    {
      InterpolateAtTrailing(col, i, j);
    }
    forall i, j | 0 <= j <= i < |col| && col[j].Some?
      ensures r[i].Some?
    {
      InterpolateAtAfterKnown(col, i, j);
    }
  }

  /** A column without gaps is left untouched, so interpolating only when
      something is missing gives the same column. */
  lemma InterpolateNoGap(col: Column)
    requires forall i :: 0 <= i < |col| ==> col[i].Some?
    ensures Interpolate(col) == col
  {
  }

  /* ---------------------------------------------------------------- median */

  /** The non-missing values of a column, in order (`Series.dropna()`). */
  function Known(col: Column): (vs: seq<real>)
    ensures |vs| <= |col|
    ensures |vs| == 0 <==> forall i :: 0 <= i < |col| ==> col[i].None?
  {
    if |col| == 0 then []
    else (if col[0].Some? then [col[0].value] else []) + Known(col[1..])
  }

  function Identity(x: real): real { x }

  /** The middle element of a sorted list, or the mean of the two middle
      ones when its length is even. */
  function Middle(s: seq<real>): (m: real)
    requires |s| > 0
    requires SortedBy(s, Identity)
    ensures s[0] <= m <= s[|s| - 1]
    ensures exists i :: 0 <= i < |s| && s[i] <= m
    ensures exists j :: 0 <= j < |s| && m <= s[j]
  {
    var n := |s|;
    if n % 2 == 1 then s[n / 2] else (s[n / 2 - 1] + s[n / 2]) / 2.0
  }

  /** The median of a list of numbers: the middle of the sorted list; `None`
      for an empty list (pandas returns NaN). */
  function MedianOf(vs: seq<real>): (m: Option<real>)
    ensures m.None? <==> |vs| == 0
    ensures m.Some? ==> exists i :: 0 <= i < |vs| && vs[i] <= m.value
    ensures m.Some? ==> exists j :: 0 <= j < |vs| && m.value <= vs[j]
  {
    if |vs| == 0 then None
    else
      var s := SortBy(vs, Identity);
      var m := Middle(s);
      var i :| 0 <= i < |s| && s[i] <= m;
      var j :| 0 <= j < |s| && m <= s[j];
      assert s[i] in multiset(vs) && s[j] in multiset(vs);
      Some(m)
  }

  /** The median lies within any bounds that enclose all the values. */
  lemma MedianWithin(vs: seq<real>, lo: real, hi: real)
    requires |vs| > 0
    requires forall i :: 0 <= i < |vs| ==> lo <= vs[i] <= hi
    ensures lo <= MedianOf(vs).value <= hi
  {
  }

  /** pandas `Series.median()`: the median of the non-missing values. */
  function Median(col: Column): (m: Option<real>)
    ensures m.None? <==> forall i :: 0 <= i < |col| ==> col[i].None?
    ensures m.Some? ==> exists i :: 0 <= i < |col| && col[i].Some? && col[i].value <= m.value
    ensures m.Some? ==> exists j :: 0 <= j < |col| && col[j].Some? && m.value <= col[j].value
  {
    var vs := Known(col);
    var m := MedianOf(vs);
    if m.Some? then
      var i :| 0 <= i < |vs| && vs[i] <= m.value;
      var j :| 0 <= j < |vs| && m.value <= vs[j];
      KnownFrom(col, i);
      KnownFrom(col, j);
      var p :| 0 <= p < |col| && col[p] == Some(vs[i]);
      var q :| 0 <= q < |col| && col[q] == Some(vs[j]);
      assert col[p].Some? && col[p].value <= m.value;
      assert col[q].Some? && m.value <= col[q].value;
      m
    else m
  }

  /* --------------------------------------------------------- range repair */

  /** pandas `(v < lo) | (v > hi)`: bounds are valid values, and a missing
      value compares false, so it is never flagged. */
  predicate OutOfRange(v: Option<real>, lo: real, hi: real)
  {
    v.Some? && (v.value < lo || v.value > hi)
  }

  /** `col.loc[flagged] = col.median()`: every flagged cell gets the median of
      the column as it was before the repair, outliers included. */
  function ReplaceOutliers(col: Column, lo: real, hi: real): (r: Column)
    ensures |r| == |col|
    ensures forall i :: 0 <= i < |col| && !OutOfRange(col[i], lo, hi) ==> r[i] == col[i]
    ensures forall i :: 0 <= i < |col| && OutOfRange(col[i], lo, hi)
              ==> Median(col).Some? && r[i] == Median(col)
    ensures forall i :: 0 <= i < |col| ==> (r[i].Some? <==> col[i].Some?)
  {
    var med := Median(col);
    seq(|col|, i requires 0 <= i < |col| => if OutOfRange(col[i], lo, hi) then med else col[i])
  }

  /** Repair is range-sound only when the pre-repair median is in range: then
      no value of the repaired column is out of range. */
  lemma ReplaceOutliersInRange(col: Column, lo: real, hi: real)
    requires Median(col).Some? ==> lo <= Median(col).value <= hi
    ensures forall i :: 0 <= i < |col| ==> !OutOfRange(ReplaceOutliers(col, lo, hi)[i], lo, hi)
  {
  }

  /** A column without gaps yields all of its values, in order. */
  lemma {:induction false} KnownNoGap(col: Column)
    requires forall i :: 0 <= i < |col| ==> col[i].Some?
    ensures |Known(col)| == |col|
    ensures forall i :: 0 <= i < |col| ==> Known(col)[i] == col[i].value
  {
    if |col| > 0 {
      KnownNoGap(col[1..]);
      assert Known(col) == [col[0].value] + Known(col[1..]);
    }
  }

  /** The median of an already sorted list is its middle. */
  lemma MedianOfSorted(vs: seq<real>)
    requires |vs| > 0 && SortedBy(vs, Identity)
    ensures MedianOf(vs) == Some(Middle(vs))
  {
    SortBySorted(vs, Identity);
  }

  /** The median of a gap-free column whose values are already in order is
      the middle of those values. */
  lemma MedianOfSortedColumn(col: Column)
    requires |col| > 0
    requires forall i :: 0 <= i < |col| ==> col[i].Some?
    requires forall i, j :: 0 <= i < j < |col| ==> col[i].value <= col[j].value
    ensures SortedBy(Known(col), Identity)
    ensures Median(col) == Some(Middle(Known(col)))
  {
    KnownNoGap(col);
    MedianOfSorted(Known(col));
  }

  /** A missing-value test, as `Series.notna()`. */
  predicate IsKnown(v: Option<real>)
  {
    v.Some?
  }

  /** `Known` is `dropna()` followed by unwrapping: the same values, in the
      same order and with the same multiplicities as the present cells. */
  lemma {:induction false} KnownIsFilter(col: Column)
    ensures |Known(col)| == |Filter(col, IsKnown)|
    ensures forall k :: 0 <= k < |Known(col)| ==> Filter(col, IsKnown)[k] == Some(Known(col)[k])
  {
    if |col| > 0 {
      KnownIsFilter(col[1..]);
      var rest := Known(col[1..]);
      var frest := Filter(col[1..], IsKnown);
      if col[0].Some? {
        assert Known(col) == [col[0].value] + rest;
        assert Filter(col, IsKnown) == [col[0]] + frest;
      } else {
        assert Known(col) == rest;
        assert Filter(col, IsKnown) == frest;
      }
    }
  }

  /** Every value `Known` yields is a present cell of the column. */
  lemma KnownFrom(col: Column, k: int)
    requires 0 <= k < |Known(col)|
    ensures Some(Known(col)[k]) in col
  {
    KnownIsFilter(col);
    FilterMembers(col, IsKnown, Some(Known(col)[k]));
  }

  /** Two sorted lists holding the same multiset of numbers are equal. */
  lemma {:induction false} SortedPermutationUnique(a: seq<real>, b: seq<real>)
    requires SortedBy(a, Identity) && SortedBy(b, Identity)
    requires multiset(a) == multiset(b)
    ensures a == b
  {
    assert |a| == |b| by {
      assert |a| == |multiset(a)| && |b| == |multiset(b)|;
    }
    if |a| > 0 {
      SortedHeads(a, b);
      TailMultiset(a);
      TailMultiset(b);
      TailSorted(a);
      TailSorted(b);
      SortedPermutationUnique(a[1..], b[1..]);
      SameHeadAndTail(a, b);
    }
  }

  lemma SameHeadAndTail(a: seq<real>, b: seq<real>)
    requires |a| > 0 && |b| > 0 && a[0] == b[0] && a[1..] == b[1..]
    ensures a == b
  {
    assert a == [a[0]] + a[1..] && b == [b[0]] + b[1..];
  }

  /** Sorted lists with the same values start with the same, least, one. */
  lemma SortedHeads(a: seq<real>, b: seq<real>)
    requires SortedBy(a, Identity) && SortedBy(b, Identity)
    requires multiset(a) == multiset(b) && |a| > 0 && |b| > 0
    ensures a[0] == b[0]
  {
    assert a[0] in multiset(b) && b[0] in multiset(a);
    var k :| 0 <= k < |b| && b[k] == a[0];
    var l :| 0 <= l < |a| && a[l] == b[0];
    assert Identity(b[0]) <= Identity(b[k]) by { assert k == 0 || 0 < k; }
    assert Identity(a[0]) <= Identity(a[l]) by { assert l == 0 || 0 < l; }
  }

  lemma TailMultiset(s: seq<real>)
    requires |s| > 0
    ensures multiset(s[1..]) == multiset(s) - multiset{s[0]}
  {
    assert s == [s[0]] + s[1..];
    assert multiset(s) == multiset{s[0]} + multiset(s[1..]);
  }

  lemma TailSorted(s: seq<real>)
    requires |s| > 0 && SortedBy(s, Identity)
    ensures SortedBy(s[1..], Identity)
  {
    var t := s[1..];
    forall i, j | 0 <= i < j < |t| ensures Identity(t[i]) <= Identity(t[j]) {
      assert t[i] == s[i + 1] && t[j] == s[j + 1];
    }
  }

  /** The median does not depend on the order of the values: it is the
      middle of any sorted arrangement of them. */
  lemma MedianOfPermutation(vs: seq<real>, s: seq<real>)
    requires multiset(s) == multiset(vs) && SortedBy(s, Identity)
    ensures MedianOf(vs) == if |s| == 0 then None else Some(Middle(s))
  {
    assert |s| == |multiset(s)| == |vs|;
    if |vs| > 0 {
      SortedPermutationUnique(SortBy(vs, Identity), s);
    }
  }

  /** The median of a column is the middle of any sorted arrangement of its
      present values: the median of the column as pandas computes it,
      whatever the order of the rows. */
  lemma MedianOfColumn(col: Column, s: seq<real>)
    requires multiset(s) == multiset(Known(col)) && SortedBy(s, Identity)
    ensures Median(col) == if |s| == 0 then None else Some(Middle(s))
  {
    MedianOfPermutation(Known(col), s);
  }

  /** The repair example: in the column `[10, 10, 10, 1000]` the median
      is 10, and with the range [0, 100] the outlier 1000 becomes that
      median of the column before repair. */
  lemma RepairExample(col: Column)
    requires |col| == 4 && col[0] == Some(10.0) && col[1] == Some(10.0)
    requires col[2] == Some(10.0) && col[3] == Some(1000.0)
    ensures Median(col) == Some(10.0)
    ensures ReplaceOutliers(col, 0.0, 100.0) == [Some(10.0), Some(10.0), Some(10.0), Some(10.0)]
  {
    RepairExampleMedian(col);
    var r := ReplaceOutliers(col, 0.0, 100.0);
    assert r[0] == Some(10.0) && r[1] == Some(10.0) && r[2] == Some(10.0) && r[3] == Some(10.0);
  }

  lemma RepairExampleMedian(col: Column)
    requires |col| == 4 && col[0] == Some(10.0) && col[1] == Some(10.0)
    requires col[2] == Some(10.0) && col[3] == Some(1000.0)
    ensures Median(col) == Some(10.0)
  {
    RepairExampleValues(col);
    RepairExampleMiddle();
    MedianOfColumn(col, [10.0, 10.0, 10.0, 1000.0]);
  }

  lemma RepairExampleValues(col: Column)
    requires |col| == 4 && col[0] == Some(10.0) && col[1] == Some(10.0)
    requires col[2] == Some(10.0) && col[3] == Some(1000.0)
    ensures Known(col) == [10.0, 10.0, 10.0, 1000.0]
  {
    KnownNoGap(col);
  }

  lemma RepairExampleMiddle()
    ensures SortedBy([10.0, 10.0, 10.0, 1000.0], Identity)
    ensures Middle([10.0, 10.0, 10.0, 1000.0]) == 10.0
  {
  }
}
