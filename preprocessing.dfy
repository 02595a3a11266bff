/**
 * The preprocessing stage of the solar power forecasting pipeline: the fixed
 * feature schema (the target column and the twenty raw weather and sensor
 * columns) and the row-cleaning step `clean_data`.
 *
 * A table is modelled as a `Frame`: its column names, its row labels (the
 * index) and its rows, each row a sequence of cells in column order. The cell
 * type `V` is left abstract; a missing cell is `None`.
 */
module Preprocessing {
  import opened Wrappers
  import opened Masks

  // ---------------------------------------------------------------------------
  // Feature schema
  // ---------------------------------------------------------------------------

  /** The column the models predict: measured generated power. */
  const Target: string := "generated_power_kw"

  /** The weather and sensor columns, in their fixed declared order. */
  const RawFeatures: seq<string> := [
    "temperature_2_m_above_gnd",
    "relative_humidity_2_m_above_gnd",
    "mean_sea_level_pressure_MSL",
    "total_precipitation_sfc",
    "snowfall_amount_sfc",
    "total_cloud_cover_sfc",
    "high_cloud_cover_high_cld_lay",
    "medium_cloud_cover_mid_cld_lay",
    "low_cloud_cover_low_cld_lay",
    "shortwave_radiation_backwards_sfc",
    "wind_speed_10_m_above_gnd",
    "wind_direction_10_m_above_gnd",
    "wind_speed_80_m_above_gnd",
    "wind_direction_80_m_above_gnd",
    "wind_speed_900_mb",
    "wind_direction_900_mb",
    "wind_gust_10_m_above_gnd",
    "angle_of_incidence",
    "zenith",
    "azimuth"
  ]

  /** No element occurs twice. */
  predicate Distinct<T(==)>(s: seq<T>)
  {
    forall i, j :: 0 <= i < j < |s| ==> s[i] != s[j]
  }

  /** The schema names twenty features. */
  lemma RawFeaturesCount()
    ensures |RawFeatures| == 20
  {
  }

  /** No feature name is listed twice. */
  lemma RawFeaturesDistinct()
    ensures Distinct(RawFeatures)
  {
    var f := RawFeatures;
    // Names of equal length differ in their first letter or in the height digit.
    assert |f[0]| == |f[10]| == |f[12]| == 25;
    assert f[0][0] == 't' && f[10][0] == 'w' && f[10][11] == '1' && f[12][11] == '8';
    assert |f[2]| == |f[8]| == 27 && f[2][0] == 'm' && f[8][0] == 'l';
    assert |f[6]| == |f[11]| == |f[13]| == 29;
    assert f[6][0] == 'h' && f[11][0] == 'w' && f[11][15] == '1' && f[13][15] == '8';
    assert |f[5]| == |f[15]| == 21 && f[5][0] == 't' && f[15][0] == 'w';
    assert |f[1]| == 31 && |f[3]| == 23 && |f[4]| == 19 && |f[7]| == 30 && |f[9]| == 33;
    assert |f[14]| == 17 && |f[16]| == 24 && |f[17]| == 18 && |f[18]| == 6 && |f[19]| == 7;
  }

  /** The target is not one of the features. */
  lemma TargetIsNotAFeature()
    ensures Target !in RawFeatures
  {
  }

  // ---------------------------------------------------------------------------
  // Tables
  // ---------------------------------------------------------------------------

  type Row<V> = seq<Option<V>>

  datatype Frame<V> = Frame(columns: seq<string>, index: seq<int>, rows: seq<Row<V>>)

  /** One label per row, and every row has one cell per column. */
  predicate WellFormed<V>(f: Frame<V>)
  {
    && |f.index| == |f.rows|
    && forall i :: 0 <= i < |f.rows| ==> |f.rows[i]| == |f.columns|
  }

  /** A table is empty when it has no rows or no columns. */
  predicate IsEmpty<V>(f: Frame<V>)
  {
    |f.rows| == 0 || |f.columns| == 0
  }

  /** A row has no missing cell. */
  predicate Complete<V>(r: Row<V>)
  {
    forall j :: 0 <= j < |r| ==> r[j].Some?
  }

  /** Does every row of the table have all its cells? */
  predicate AllComplete<V>(rows: seq<Row<V>>)
  {
    forall i :: 0 <= i < |rows| ==> Complete(rows[i])
  }

  // ---------------------------------------------------------------------------
  // The three cleaning steps
  // ---------------------------------------------------------------------------

  /**
   * Marks each row that repeats an earlier row, cell for cell, so that the
   * first of a group of equal rows is unmarked. Missing cells compare equal
   * to each other.
   */
  function Duplicated<V(==)>(rows: seq<Row<V>>): (d: seq<bool>)
    ensures |d| == |rows|
  {
    seq(|rows|, i requires 0 <= i < |rows| => rows[i] in rows[..i])
  }

  /** The rows the duplicate step keeps: the negation of `Duplicated`, so the first copy of each value. */
  function FirstCopyMask<V(==)>(rows: seq<Row<V>>): (m: seq<bool>)
    ensures |m| == |rows|
  {
    var dup := Duplicated(rows);
    seq(|dup|, i requires 0 <= i < |dup| => !dup[i])
  }

  /** Marks each row that has no missing cell. */
  function NotNa<V>(rows: seq<Row<V>>): (m: seq<bool>)
    ensures |m| == |rows|
  {
    seq(|rows|, i requires 0 <= i < |rows| => Complete(rows[i]))
  }

  /**
   * Drops every row that repeats an earlier row, keeping the first copy and
   * the labels of the kept rows. An empty table is returned unchanged.
   */
  function DropDuplicates<V(==)>(f: Frame<V>): (r: Frame<V>)
    requires WellFormed(f)
    ensures WellFormed(r)
    ensures r.columns == f.columns
    ensures |r.rows| <= |f.rows|
  {
    if IsEmpty(f) then f
    else
      var keep := FirstCopyMask(f.rows);
      FilterLength(f.index, f.rows, keep);
      FilterAt(f.rows, keep);
      Frame(f.columns, Filter(f.index, keep), Filter(f.rows, keep))
  }

  /** Drops every row that has a missing cell, keeping the labels of the kept rows. */
  function DropNa<V>(f: Frame<V>): (r: Frame<V>)
    requires WellFormed(f)
    ensures WellFormed(r)
    ensures r.columns == f.columns
    ensures |r.rows| <= |f.rows|
    ensures AllComplete(r.rows)
  {
    var keep := NotNa(f.rows);
    assert forall i :: 0 <= i < |keep| ==> (keep[i] <==> Complete(f.rows[i]));
    FilterLength(f.index, f.rows, keep);
    FilterAt(f.rows, keep);
    KeptFacts(keep);
    Frame(f.columns, Filter(f.index, keep), Filter(f.rows, keep))
  }

  /** Discards the row labels and numbers the rows 0, 1, ..., n - 1. */
  function ResetIndex<V>(f: Frame<V>): (r: Frame<V>)
    requires WellFormed(f)
    ensures WellFormed(r)
    ensures r.columns == f.columns && r.rows == f.rows
    ensures forall i :: 0 <= i < |r.index| ==> r.index[i] == i
  {
    Frame(f.columns, Range(|f.rows|), f.rows)
  }

  /**
   * `clean_data`: drop repeated rows, then rows with a missing cell, then
   * renumber the surviving rows from zero.
   */
  function CleanData<V(==)>(f: Frame<V>): (r: Frame<V>)
    requires WellFormed(f)
    ensures WellFormed(r)
    ensures r.columns == f.columns
    ensures |r.rows| <= |f.rows|
    ensures AllComplete(r.rows)
    ensures |r.index| == |r.rows| && forall i :: 0 <= i < |r.index| ==> r.index[i] == i
  {
    ResetIndex(DropNa(DropDuplicates(f)))
  }

  // ---------------------------------------------------------------------------
  // Which rows survive
  // ---------------------------------------------------------------------------

  /** The row at position i is the first copy of its value and has no missing cell. */
  predicate Survives<V(==)>(rows: seq<Row<V>>, i: int)
    requires 0 <= i < |rows|
  {
    rows[i] !in rows[..i] && Complete(rows[i])
  }

  function SurvivorMask<V(==)>(rows: seq<Row<V>>): (m: seq<bool>)
    ensures |m| == |rows|
  {
    seq(|rows|, i requires 0 <= i < |rows| => Survives(rows, i))
  }

  /** The original positions of the rows that cleaning keeps, in increasing order. */
  function Survivors<V(==)>(rows: seq<Row<V>>): seq<int>
  {
    Kept(SurvivorMask(rows))
  }

  /** Dropping rows with a missing cell after any first selection is one selection by both masks. */
  lemma {:induction false} FilterThenNotNa<T, V>(t: seq<T>, s: seq<Row<V>>, k1: seq<bool>)
    requires |t| == |s| == |k1|
    ensures |Filter(t, k1)| == |Filter(s, k1)|
    ensures Filter(Filter(t, k1), NotNa(Filter(s, k1))) == Filter(t, And(k1, NotNa(s)))
    decreases |s|
  {
    FilterLength(t, s, k1);
    if |s| > 0 {
      var n := |s| - 1;
      var t', s', k1' := t[..n], s[..n], k1[..n];
      FilterThenNotNa(t', s', k1');
      var a, b := Filter(t', k1'), Filter(s', k1');
      var both := And(k1, NotNa(s));
      assert both[..n] == And(k1', NotNa(s'));
      assert Filter(t, both) == Filter(t', both[..n]) + (if both[n] then [t[n]] else []);
      if k1[n] {
        assert Filter(t, k1) == a + [t[n]];
        assert Filter(s, k1) == b + [s[n]];
        NotNaSnoc(b, s[n]);
        FilterSnoc(a, t[n], NotNa(b), Complete(s[n]));
      } else {
        assert Filter(t, k1) == a;
        assert Filter(s, k1) == b;
      }
    }
  }

  /** The missing-cell mask of a table grown by one row. */
  lemma NotNaSnoc<V>(rows: seq<Row<V>>, r: Row<V>)
    ensures NotNa(rows + [r]) == NotNa(rows) + [Complete(r)]
  {
  }

  /** On a table with at least one column the two dropping steps keep exactly the survivors. */
  lemma DropStepsKeepSurvivors<V>(f: Frame<V>)
    requires WellFormed(f) && |f.columns| > 0
    ensures DropNa(DropDuplicates(f)).rows == Filter(f.rows, SurvivorMask(f.rows))
    ensures DropNa(DropDuplicates(f)).index == Filter(f.index, SurvivorMask(f.rows))
  {
    if |f.rows| > 0 {
      var keep := FirstCopyMask(f.rows);
      assert And(keep, NotNa(f.rows)) == SurvivorMask(f.rows);
      FilterThenNotNa(f.rows, f.rows, keep);
      FilterThenNotNa(f.index, f.rows, keep);
    }
  }

  // ---------------------------------------------------------------------------
  // What cleaning guarantees
  // ---------------------------------------------------------------------------

  /**
   * The cleaned rows are the surviving input rows, in their original order:
   * the row at output position k is the input row at the k-th survivor
   * position, and a position is a survivor exactly when its row is the first
   * copy of its value and has no missing cell.
   */
  lemma CleanKeepsSurvivorsInOrder<V>(f: Frame<V>)
    requires WellFormed(f) && |f.columns| > 0
    ensures var p := Survivors(f.rows);
      && |CleanData(f).rows| == |p|
      && (forall k :: 0 <= k < |p| ==> 0 <= p[k] < |f.rows| && CleanData(f).rows[k] == f.rows[p[k]])
      && (forall a, b :: 0 <= a < b < |p| ==> p[a] < p[b])
      && (forall i :: 0 <= i < |f.rows| ==> (i in p <==> Survives(f.rows, i)))
  {
    DropStepsKeepSurvivors(f);
    FilterAt(f.rows, SurvivorMask(f.rows));
    KeptFacts(SurvivorMask(f.rows));
  }

  /** Before renumbering, each surviving row still carries its original label. */
  lemma DroppingKeepsLabels<V>(f: Frame<V>)
    requires WellFormed(f) && |f.columns| > 0
    ensures var g, p := DropNa(DropDuplicates(f)), Survivors(f.rows);
      |g.index| == |p| && forall k :: 0 <= k < |p| ==> 0 <= p[k] < |f.index| && g.index[k] == f.index[p[k]]
  {
    DropStepsKeepSurvivors(f);
    FilterAt(f.index, SurvivorMask(f.rows));
  }

  /** Selecting only positions that hold the first copy of their value leaves no two equal elements. */
  lemma FirstCopiesAreDistinct<T>(s: seq<T>, keep: seq<bool>)
    requires |keep| == |s|
    requires forall i :: 0 <= i < |s| && keep[i] ==> s[i] !in s[..i]
    ensures Distinct(Filter(s, keep))
  {
    FilterAt(s, keep);
    KeptFacts(keep);
    var p, out := Kept(keep), Filter(s, keep);
    forall a, b | 0 <= a < b < |out| ensures out[a] != out[b] {
      assert p[b] in p;
      assert s[..p[b]][p[a]] == s[p[a]];
    }
  }

  /** No two cleaned rows are equal. */
  lemma CleanHasNoDuplicates<V>(f: Frame<V>)
    requires WellFormed(f) && |f.columns| > 0
    ensures Distinct(CleanData(f).rows)
  {
    DropStepsKeepSurvivors(f);
    FirstCopiesAreDistinct(f.rows, SurvivorMask(f.rows));
  }

  /** The position of the first copy of a value in a sequence. */
  lemma {:induction false} FirstIndex<T>(s: seq<T>, x: T) returns (i: int)
    requires x in s
    ensures 0 <= i < |s| && s[i] == x && x !in s[..i]
  {
    if s[0] == x {
      i := 0;
    } else {
      var j := FirstIndex(s[1..], x);
      i := j + 1;
      assert s[..i] == [s[0]] + s[1..][..j];
    }
  }

  /**
   * A row value is in the cleaned table exactly when it is in the input and
   * has no missing cell; on a table with a column, where there are no
   * duplicates, each such value appears exactly once.
   */
  lemma CleanKeepsEachCompleteRowOnce<V>(f: Frame<V>)
    requires WellFormed(f)
    ensures forall r :: r in CleanData(f).rows <==> r in f.rows && Complete(r)
    ensures |f.columns| > 0 ==> Distinct(CleanData(f).rows)
  {
    var s := f.rows;
    if |f.columns| == 0 {
      ZeroColumnsKeepEveryRow(f);
      assert AllComplete(s);
    } else {
      DropStepsKeepSurvivors(f);
      CleanHasNoDuplicates(f);
      var m := SurvivorMask(s);
      FilterMembership(s, m);
      forall r | r in s && Complete(r) ensures r in Filter(s, m) {
        var i := FirstIndex(s, r);
        assert m[i];
      }
    }
  }

  /**
   * Dropping duplicates on its own: every row value of the input remains,
   * and on a table with at least one column no two remaining rows are equal.
   */
  lemma DropDuplicatesKeepsOneOfEach<V>(f: Frame<V>)
    requires WellFormed(f)
    ensures forall r :: r in DropDuplicates(f).rows <==> r in f.rows
    ensures |f.columns| > 0 ==> Distinct(DropDuplicates(f).rows)
  {
    if !IsEmpty(f) {
      var s, keep := f.rows, FirstCopyMask(f.rows);
      FirstCopiesAreDistinct(s, keep);
      FilterMembership(s, keep);
      forall r | r in s ensures r in Filter(s, keep) {
        var i := FirstIndex(s, r);
        assert keep[i];
      }
    }
  }

  /**
   * Dropping duplicates on its own, on a table with at least one column: the
   * k-th remaining row and its label are the input row and label at the k-th
   * position that holds the first copy of its value, and those positions
   * increase.
   */
  lemma DropDuplicatesKeepsFirstCopiesInOrder<V>(f: Frame<V>)
    requires WellFormed(f) && |f.columns| > 0
    ensures var g, p := DropDuplicates(f), Kept(FirstCopyMask(f.rows));
      && |g.rows| == |p| && |g.index| == |p|
      && (forall k :: 0 <= k < |p| ==>
            0 <= p[k] < |f.rows| && g.rows[k] == f.rows[p[k]] && g.index[k] == f.index[p[k]])
      && (forall a, b :: 0 <= a < b < |p| ==> p[a] < p[b])
      && (forall i :: 0 <= i < |f.rows| ==> (i in p <==> f.rows[i] !in f.rows[..i]))
  {
    var m := FirstCopyMask(f.rows);
    KeptFacts(m);
    if |f.rows| > 0 {
      FilterAt(f.rows, m);
      FilterAt(f.index, m);
    }
  }

  /**
   * Dropping missing values on its own: the k-th remaining row and its label
   * are the input row and label at the k-th position whose row is complete,
   * and those positions increase.
   */
  lemma DropNaKeepsCompleteRowsInOrder<V>(f: Frame<V>)
    requires WellFormed(f)
    ensures var g, p := DropNa(f), Kept(NotNa(f.rows));
      && |g.rows| == |p| && |g.index| == |p|
      && (forall k :: 0 <= k < |p| ==>
            0 <= p[k] < |f.rows| && g.rows[k] == f.rows[p[k]] && g.index[k] == f.index[p[k]])
      && (forall a, b :: 0 <= a < b < |p| ==> p[a] < p[b])
      && (forall i :: 0 <= i < |f.rows| ==> (i in p <==> Complete(f.rows[i])))
  {
    KeptFacts(NotNa(f.rows));
    FilterAt(f.rows, NotNa(f.rows));
    FilterAt(f.index, NotNa(f.rows));
  }

  /** Dropping missing values on its own: a row value remains exactly when it is complete. */
  lemma DropNaKeepsCompleteRows<V>(f: Frame<V>)
    requires WellFormed(f)
    ensures forall r :: r in DropNa(f).rows <==> r in f.rows && Complete(r)
  {
    FilterMembership(f.rows, NotNa(f.rows));
  }

  /**
   * A table without columns is empty, so the duplicate step leaves it alone:
   * its rows, all equal, survive cleaning together.
   */
  lemma ZeroColumnsKeepEveryRow<V>(f: Frame<V>)
    requires WellFormed(f) && |f.columns| == 0
    ensures CleanData(f).rows == f.rows
  {
    FilterAllTrue(f.rows, NotNa(f.rows));
  }

  /** Two rows of a column-less table are equal, yet both survive cleaning. */
  lemma ZeroColumnsExample()
    ensures var f := Frame([], [0, 1], [[], []]);
      WellFormed(f) && CleanData<int>(f).rows == [[], []] && !Distinct(CleanData<int>(f).rows)
  {
    var f := Frame([], [0, 1], [[], []]);
    ZeroColumnsKeepEveryRow<int>(f);
  }

  /** Selection by the literal mask of the worked example's duplicate step. */
  lemma FilterExampleFive<T>(v: T, w: T, x: T, y: T, z: T)
    ensures Filter([v, w, x, y, z], [true, false, true, true, false]) == [v, x, y]
  {
    FilterExampleThree(v, w, x);
    FilterSnoc([v, w, x], y, [true, false, true], true);
    assert [v, w, x] + [y] == [v, w, x, y];
    assert [true, false, true] + [true] == [true, false, true, true];
    FilterSnoc([v, w, x, y], z, [true, false, true, true], false);
    assert [v, w, x, y] + [z] == [v, w, x, y, z];
    assert [true, false, true, true] + [false] == [true, false, true, true, false];
  }

  /** Selection by the literal mask of the worked example's missing-cell step. */
  lemma FilterExampleThree<T>(x: T, y: T, z: T)
    ensures Filter([x, y, z], [true, false, true]) == [x, z]
  {
    FilterSnoc([], x, [], true);
    FilterSnoc([x], y, [true], false);
    FilterSnoc([x, y], z, [true, false], true);
    assert [x, y] + [z] == [x, y, z];
    assert [true, false] + [true] == [true, false, true];
  }

  /** In the rows a, a, b, c, b of three different values, the second and fifth are repeats. */
  lemma DuplicatedExample<V>(a: Row<V>, b: Row<V>, c: Row<V>)
    requires a != b && a != c && b != c
    ensures Duplicated([a, a, b, c, b]) == [false, true, false, false, true]
  {
    var rows := [a, a, b, c, b];
    assert rows[..1] == [a] && rows[..2] == [a, a];
    assert rows[..3] == [a, a, b] && rows[..4] == [a, a, b, c];
  }

  /**
   * A worked table of five rows a, a, b, c, b, where the three values differ:
   * the duplicate step drops the second and fifth rows.
   */
  lemma DropDuplicatesExample<V>(cols: seq<string>, l: seq<int>, a: Row<V>, b: Row<V>, c: Row<V>)
    requires |cols| > 0 && |l| == 5 && |a| == |b| == |c| == |cols|
    requires a != b && a != c && b != c
    ensures var f := Frame(cols, l, [a, a, b, c, b]);
      && WellFormed(f)
      && DropDuplicates(f) == Frame(cols, [l[0], l[2], l[3]], [a, b, c])
  {
    DuplicatedExample(a, b, c);
    assert FirstCopyMask([a, a, b, c, b]) == [true, false, true, true, false];
    FilterExampleFive(a, a, b, c, b);
    FilterExampleFive(l[0], l[1], l[2], l[3], l[4]);
    assert l == [l[0], l[1], l[2], l[3], l[4]];
  }

  /** The missing-cell step on three rows a, b, c, where only b has a missing cell, drops b. */
  lemma DropNaExample<V>(cols: seq<string>, l: seq<int>, a: Row<V>, b: Row<V>, c: Row<V>)
    requires |l| == 3 && |a| == |b| == |c| == |cols|
    requires Complete(a) && !Complete(b) && Complete(c)
    ensures var g := Frame(cols, l, [a, b, c]);
      && WellFormed(g)
      && DropNa(g) == Frame(cols, [l[0], l[2]], [a, c])
  {
    assert NotNa([a, b, c]) == [true, false, true];
    FilterExampleThree(a, b, c);
    FilterExampleThree(l[0], l[1], l[2]);
    assert l == [l[0], l[1], l[2]];
  }

  /**
   * The whole cleaning step on that table: the first a and c survive,
   * renumbered 0 and 1.
   */
  lemma CleanExample<V>(cols: seq<string>, l: seq<int>, a: Row<V>, b: Row<V>, c: Row<V>)
    requires |cols| > 0 && |l| == 5 && |a| == |b| == |c| == |cols|
    requires Complete(a) && !Complete(b) && Complete(c) && a != c
    ensures var f := Frame(cols, l, [a, a, b, c, b]);
      && WellFormed(f)
      && CleanData(f) == Frame(cols, [0, 1], [a, c])
  {
    DropDuplicatesExample(cols, l, a, b, c);
    DropNaExample(cols, [l[0], l[2], l[3]], a, b, c);
    assert Range(2) == [0, 1];
  }

  /** A table that is already clean comes out of the dropping steps unchanged. */
  lemma DropStepsFixClean<V>(f: Frame<V>)
    requires WellFormed(f) && AllComplete(f.rows)
    requires |f.columns| == 0 || Distinct(f.rows)
    ensures DropNa(DropDuplicates(f)) == f
  {
    if !IsEmpty(f) {
      var keep := FirstCopyMask(f.rows);
      assert Distinct(f.rows);
      forall i | 0 <= i < |keep| ensures keep[i] {
        assert forall j :: 0 <= j < i ==> f.rows[j] != f.rows[i];
      }
      FilterAllTrue(f.rows, keep);
      FilterAllTrue(f.index, keep);
    }
    var g := DropDuplicates(f);
    FilterAllTrue(g.rows, NotNa(g.rows));
    FilterAllTrue(g.index, NotNa(g.rows));
  }

  /** Cleaning a cleaned table changes nothing. */
  lemma CleanIsIdempotent<V>(f: Frame<V>)
    requires WellFormed(f)
    ensures CleanData(CleanData(f)) == CleanData(f)
  {
    var g := CleanData(f);
    if |f.columns| > 0 {
      CleanHasNoDuplicates(f);
    }
    DropStepsFixClean(g);
  }
}
