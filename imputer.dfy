/**
 Cross-year imputation of missing solar-irradiance readings.

 A table has one row per time-of-day slot. Each row carries two identifier
 columns (a timestamp and a day of the month) followed by one reading per
 year. Any reading may be missing. The imputer fills the missing readings of
 a row with the mean of that row's present readings, and leaves a row whose
 readings are all missing as it is.
 */
module Imputer {

  datatype Option<T> = None | Some(value: T)

  /** One year's reading for one time slot; `None` stands for a missing (NaN) reading. */
  type Cell = Option<real>

  /** One time-of-day slot: the two identifier columns, then one cell per year column. */
  datatype Row = Row(date: string, day: int, years: seq<Cell>)

  /** True when no year of the slot has a reading. */
  predicate AllMissing(ys: seq<Cell>)
  {
    forall k :: 0 <= k < |ys| ==> ys[k].None?
  }

  /** True when every year of the slot has a reading. */
  predicate NoneMissing(ys: seq<Cell>)
  {
    forall k :: 0 <= k < |ys| ==> ys[k].Some?
  }

  // ---------------------------------------------------------------------------
  // Missing-value counts (the `isnull().sum()` figures)
  // ---------------------------------------------------------------------------

  /** Number of missing cells among one row's year columns. */
  function MissingCount(ys: seq<Cell>): (n: nat)
    ensures n <= |ys|
  {
    if ys == [] then 0
    else (if ys[0].None? then 1 else 0) + MissingCount(ys[1..])
  }

  /** A row counts no missing cell exactly when it has no gap, and counts all of them exactly when it has no reading. */
  lemma {:induction false} MissingCountExtremes(ys: seq<Cell>)
    ensures MissingCount(ys) == 0 <==> NoneMissing(ys)
    ensures MissingCount(ys) == |ys| <==> AllMissing(ys)
  {
    if ys != [] {
      MissingCountExtremes(ys[1..]);
      assert forall k :: 1 <= k < |ys| ==> ys[k] == ys[1..][k - 1];
    }
  }

  /** Number of missing cells in all year columns of a table. */
  function TableMissing(t: seq<Row>): nat
  {
    if t == [] then 0 else MissingCount(t[0].years) + TableMissing(t[1..])
  }

  /** Number of year cells that belong to rows whose every year is missing. */
  function FullyMissingCells(t: seq<Row>): nat
  {
    if t == [] then 0
    else (if AllMissing(t[0].years) then |t[0].years| else 0) + FullyMissingCells(t[1..])
  }

  // ---------------------------------------------------------------------------
  // The NaN-skipping mean of one row
  // ---------------------------------------------------------------------------

  /** The present readings of a row, in column order. */
  function Present(ys: seq<Cell>): (xs: seq<real>)
    ensures |xs| + MissingCount(ys) == |ys|
  {
    if ys == [] then []
    else if ys[0].Some? then [ys[0].value] + Present(ys[1..])
    else Present(ys[1..])
  }

  /** Bounds that hold of every reading of a row hold of every value in `Present(ys)`. */
  lemma {:induction false} PresentWithinRange(ys: seq<Cell>, lo: real, hi: real)
    requires forall k :: 0 <= k < |ys| && ys[k].Some? ==> lo <= ys[k].value <= hi
    ensures forall i :: 0 <= i < |Present(ys)| ==> lo <= Present(ys)[i] <= hi
  {
    if ys != [] {
      PresentWithinRange(ys[1..], lo, hi);
    }
  }

  function Sum(xs: seq<real>): real
  {
    if xs == [] then 0.0 else xs[0] + Sum(xs[1..])
  }

  /** Arithmetic mean of a non-empty sequence of readings. */
  function Mean(xs: seq<real>): real
    requires |xs| > 0
  {
    Sum(xs) / (|xs| as real)
  }

  /** The mean of the present readings of a row, skipping missing ones (`np.nanmean`). */
  function NanMean(ys: seq<Cell>): Option<real>
  {
    var xs := Present(ys);
    if |xs| == 0 then None else Some(Mean(xs))
  }

  /** The mean is undefined exactly when the row has no reading at all. */
  lemma NanMeanUndefined(ys: seq<Cell>)
    ensures NanMean(ys).None? <==> AllMissing(ys)
    ensures NanMean(ys).Some? ==> |Present(ys)| > 0
  {
    MissingCountExtremes(ys);
  }

  lemma {:induction false} SumBounds(xs: seq<real>, lo: real, hi: real)
    requires forall k :: 0 <= k < |xs| ==> lo <= xs[k] <= hi
    ensures lo * (|xs| as real) <= Sum(xs) <= hi * (|xs| as real)
  {
    if xs != [] {
      SumBounds(xs[1..], lo, hi);
      var n := |xs[1..]| as real;
      assert lo * (n + 1.0) == lo * n + lo;
      assert hi * (n + 1.0) == hi * n + hi;
    }
  }

  lemma DivideBounds(s: real, n: real, lo: real, hi: real)
    requires n > 0.0 && lo * n <= s <= hi * n
    ensures lo <= s / n <= hi
  {
    assert s / n - lo == (s - lo * n) / n;
    assert hi - s / n == (hi * n - s) / n;
  }

  /** The mean of readings that all lie in [lo, hi] lies in [lo, hi] too. */
  lemma MeanWithinRange(xs: seq<real>, lo: real, hi: real)
    requires |xs| > 0
    requires forall k :: 0 <= k < |xs| ==> lo <= xs[k] <= hi
    ensures lo <= Mean(xs) <= hi
  {
    SumBounds(xs, lo, hi);
    DivideBounds(Sum(xs), |xs| as real, lo, hi);
  }

  /**
   The value used to fill a row lies between the smallest and the largest
   reading present in that row: whatever bounds every present reading of a
   row also bounds its mean.
   */
  lemma NanMeanWithinRange(ys: seq<Cell>, lo: real, hi: real)
    requires forall k :: 0 <= k < |ys| && ys[k].Some? ==> lo <= ys[k].value <= hi
    ensures NanMean(ys).Some? ==> lo <= NanMean(ys).value <= hi
  {
    var xs := Present(ys);
    if |xs| > 0 {
      PresentWithinRange(ys, lo, hi);
      MeanWithinRange(xs, lo, hi);
    }
  }

  // ---------------------------------------------------------------------------
  // Filling one row
  // ---------------------------------------------------------------------------

  /** Replaces every missing cell by `v` and keeps every present cell (`fillna`). */
  function FillNa(ys: seq<Cell>, v: real): (zs: seq<Cell>)
    ensures |zs| == |ys|
    ensures forall k :: 0 <= k < |ys| && ys[k].Some? ==> zs[k] == ys[k]
    ensures forall k :: 0 <= k < |ys| && ys[k].None? ==> zs[k] == Some(v)
  {
    seq(|ys|, k requires 0 <= k < |ys| => if ys[k].Some? then ys[k] else Some(v))
  }

  /**
   The per-row step of the imputer: when the row has a mean, its missing
   year cells take that mean; otherwise the row is returned untouched.
   */
  function FillRow(r: Row): Row
  {
    match NanMean(r.years)
    case Some(m) => r.(years := FillNa(r.years, m))
    case None => r
  }

  /**
   Filling a row keeps its identifiers, its width and every present reading;
   when the row has a reading, each missing cell gets the mean of the present
   readings and no cell stays missing; a row with no reading is returned as it is.
   */
  lemma FillRowSpec(r: Row)
    ensures FillRow(r).date == r.date && FillRow(r).day == r.day
    ensures |FillRow(r).years| == |r.years|
    ensures forall k :: 0 <= k < |r.years| && r.years[k].Some? ==> FillRow(r).years[k] == r.years[k]
    ensures !AllMissing(r.years) ==>
              |Present(r.years)| > 0 &&
              (forall k :: 0 <= k < |r.years| && r.years[k].None? ==>
                 FillRow(r).years[k] == Some(Mean(Present(r.years)))) &&
              NoneMissing(FillRow(r).years)
    ensures AllMissing(r.years) ==> FillRow(r) == r
  {
    NanMeanUndefined(r.years);
  }

  /** Filling a row that has already been filled changes nothing. */
  lemma FillRowIdempotent(r: Row)
    ensures FillRow(FillRow(r)) == FillRow(r)
  {
    var out := FillRow(r);
    FillRowSpec(r);
    if !AllMissing(r.years) {
      NanMeanUndefined(out.years);
      assert out.years[0].Some?;
      var m := NanMean(out.years).value;
      assert FillNa(out.years, m) == out.years;
    }
  }

  // ---------------------------------------------------------------------------
  // The whole table
  // ---------------------------------------------------------------------------

  /** The table the imputer returns: row i is row i of the input, filled. */
  function Impute(t: seq<Row>): (u: seq<Row>)
    ensures |u| == |t|
  {
    if t == [] then [] else [FillRow(t[0])] + Impute(t[1..])
  }

  /** Output row i is the fill of input row i and of nothing else. */
  lemma {:induction false} ImputeRow(t: seq<Row>, i: nat)
    requires i < |t|
    ensures Impute(t)[i] == FillRow(t[i])
  {
    if i > 0 {
      ImputeRow(t[1..], i - 1);
    }
  }

  /** Two tables that agree on row i have the same output row i. */
  lemma RowsIndependent(t: seq<Row>, t': seq<Row>, i: nat)
    requires i < |t| && i < |t'| && t[i] == t'[i]
    ensures Impute(t)[i] == Impute(t')[i]
  {
    ImputeRow(t, i);
    ImputeRow(t', i);
  }

  /** Imputing two stacked tables is imputing each of them and stacking the results. */
  lemma {:induction false} ImputeAppend(a: seq<Row>, b: seq<Row>)
    ensures Impute(a + b) == Impute(a) + Impute(b)
  {
    if a != [] {
      calc {
        Impute(a + b);
        { assert (a + b)[0] == a[0] && (a + b)[1..] == a[1..] + b; }
        [FillRow(a[0])] + Impute(a[1..] + b);
        { ImputeAppend(a[1..], b); }
        [FillRow(a[0])] + (Impute(a[1..]) + Impute(b));
        ([FillRow(a[0])] + Impute(a[1..])) + Impute(b);
      }
    } else {
      assert a + b == b;
    }
  }

  /** Same rows, same identifier columns, same number of year columns. */
  lemma ImputeKeepsShape(t: seq<Row>)
    ensures |Impute(t)| == |t|
    ensures forall i :: 0 <= i < |t| ==>
              Impute(t)[i].date == t[i].date && Impute(t)[i].day == t[i].day &&
              |Impute(t)[i].years| == |t[i].years|
  {
    forall i | 0 <= i < |t|
      ensures Impute(t)[i].date == t[i].date && Impute(t)[i].day == t[i].day &&
              |Impute(t)[i].years| == |t[i].years|
    {
      ImputeRow(t, i);
      FillRowSpec(t[i]);
    }
  }

  /** A year cell that held a reading holds the same reading afterwards. */
  lemma ImputeKeepsPresent(t: seq<Row>, i: nat, k: nat)
    requires i < |t| && k < |t[i].years| && t[i].years[k].Some?
    ensures k < |Impute(t)[i].years| && Impute(t)[i].years[k] == t[i].years[k]
  {
    ImputeRow(t, i);
    FillRowSpec(t[i]);
  }

  /**
   In a row with at least one reading, every formerly missing year cell holds
   the mean of the row's original readings, and no cell of the row stays missing.
   */
  lemma ImputeFillsWithRowMean(t: seq<Row>, i: nat)
    requires i < |t| && !AllMissing(t[i].years)
    ensures |Present(t[i].years)| > 0
    ensures |Impute(t)[i].years| == |t[i].years|
    ensures forall k :: 0 <= k < |t[i].years| && t[i].years[k].None? ==>
              Impute(t)[i].years[k] == Some(Mean(Present(t[i].years)))
    ensures NoneMissing(Impute(t)[i].years)
  {
    ImputeRow(t, i);
    FillRowSpec(t[i]);
  }

  /** A row whose every year is missing comes out exactly as it went in. */
  lemma ImputeLeavesAllMissingRow(t: seq<Row>, i: nat)
    requires i < |t| && AllMissing(t[i].years)
    ensures Impute(t)[i] == t[i]
  {
    ImputeRow(t, i);
    FillRowSpec(t[i]);
  }

  /**
   The missing count after the call equals the number of year cells in rows
   that were fully missing, which is never more than the count before.
   */
  lemma {:induction false} ImputeMissingCount(t: seq<Row>)
    ensures TableMissing(Impute(t)) == FullyMissingCells(t)
    ensures FullyMissingCells(t) <= TableMissing(t)
  {
    if t != [] {
      ImputeMissingCount(t[1..]);
      var r := t[0];
      FillRowSpec(r);
      MissingCountExtremes(r.years);
      MissingCountExtremes(FillRow(r).years);
      assert Impute(t)[1..] == Impute(t[1..]);
    }
  }

  /** Running the imputer on its own output returns that output unchanged. */
  lemma ImputeIdempotent(t: seq<Row>)
    ensures Impute(Impute(t)) == Impute(t)
  {
    var u := Impute(t);
    forall i | 0 <= i < |t| ensures Impute(u)[i] == u[i] {
      ImputeRow(t, i);
      ImputeRow(u, i);
      FillRowIdempotent(t[i]);
    }
  }

  // ---------------------------------------------------------------------------
  // The imputer as the source runs it: copy, then fill row by row in place
  // ---------------------------------------------------------------------------

  /**
   The row loop: fills the missing year cells of every row of `table` in
   place, row by row, with that row's mean.
   */
  method FillRowsInPlace(table: array<Row>)
    modifies table
    ensures table[..] == Impute(old(table[..]))
  {
    ghost var src := table[..];
    var i := 0;
    while i < table.Length
      invariant 0 <= i <= table.Length
      invariant table[..i] == Impute(src[..i])
      invariant forall k :: i <= k < table.Length ==> table[k] == src[k]
    {
      var row := table[i];
      var rowMean := NanMean(row.years);
      if rowMean.Some? {
        table[i] := row.(years := FillNa(row.years, rowMean.value));
      }
      assert table[i] == FillRow(src[i]);
      assert src[..i + 1] == src[..i] + [src[i]];
      ImputeAppend(src[..i], [src[i]]);
      assert table[..i + 1] == table[..i] + [table[i]];
      i := i + 1;
    }
    assert table[..] == table[..i];
    assert src[..i] == src;
  }

  /**
   Copies `df`, fills the copy row by row and returns it with the missing
   counts before and after. `df` itself is never written.
   */
  method FillMissingIrradianceData(df: array<Row>) returns (filled: array<Row>, before: nat, after: nat)
    ensures fresh(filled) && df[..] == old(df[..])
    ensures filled[..] == Impute(df[..])
    ensures before == TableMissing(df[..])
    ensures after == TableMissing(filled[..])
  {
    filled := new Row[df.Length];
    forall j | 0 <= j < df.Length {
      filled[j] := df[j];
    }
    assert filled[..] == df[..];
    before := TableMissing(filled[..]);
    FillRowsInPlace(filled);
    after := TableMissing(filled[..]);
  }

  // ---------------------------------------------------------------------------
  // The sample table of the usage example
  // ---------------------------------------------------------------------------

  /** Five 5-minute slots of 1 January 2023, years 2013 to 2016, five readings missing. */
  function SampleTable(): seq<Row>
  {
    [ Row("2023-01-01 00:00:00", 1, [Some(0.1), Some(0.15), None, Some(0.12)]),
      Row("2023-01-01 00:05:00", 1, [Some(0.2), None, Some(0.22), Some(0.23)]),
      Row("2023-01-01 00:10:00", 1, [None, Some(0.35), Some(0.32), Some(0.33)]),
      Row("2023-01-01 00:15:00", 1, [Some(0.4), Some(0.45), None, Some(0.43)]),
      Row("2023-01-01 00:20:00", 1, [Some(0.5), Some(0.55), Some(0.52), None]) ]
  }

  /** The sample table has five missing readings. */
  lemma SampleMissingBefore()
    ensures TableMissing(SampleTable()) == 5
  {
  }

  /** Every slot of the sample table has at least one reading. */
  lemma SampleHasNoEmptySlot()
    ensures FullyMissingCells(SampleTable()) == 0
  {
    var t := SampleTable();
    assert t[0].years[0].Some? && t[1].years[0].Some? && t[2].years[1].Some?;
    assert t[3].years[0].Some? && t[4].years[0].Some?;
  }

  /** On the sample table the missing count goes from 5 to 0. */
  method RunSample() returns (before: nat, after: nat)
    ensures before == 5 && after == 0
  {
    var t := SampleTable();
    var df := new Row[5];
    df[0], df[1], df[2], df[3], df[4] := t[0], t[1], t[2], t[3], t[4];
    assert df[..] == t;
    var filled;
    filled, before, after := FillMissingIrradianceData(df);
    SampleMissingBefore();
    SampleHasNoEmptySlot();
    ImputeMissingCount(t);
  }

  /** The first sample slot (00:00) gets the mean of 0.1, 0.15 and 0.12 for its missing 2015 reading. */
  lemma SampleFirstSlot()
    ensures FillRow(SampleTable()[0]).years == [Some(0.1), Some(0.15), Some(0.37 / 3.0), Some(0.12)]
  {
    assert Present([Some(0.1), Some(0.15), None, Some(0.12)]) == [0.1, 0.15, 0.12];
    assert Sum([0.1, 0.15, 0.12]) == 0.37;
  }

  /** A slot with readings 0.1 and 0.12 and two gaps has both gaps filled with 0.11. */
  lemma TwoGapRow()
    ensures FillRow(Row("2023-01-01 12:00:00", 1, [Some(0.1), None, None, Some(0.12)])).years
            == [Some(0.1), Some(0.11), Some(0.11), Some(0.12)]
  {
    assert Present([Some(0.1), None, None, Some(0.12)]) == [0.1, 0.12];
    assert Sum([0.1, 0.12]) == 0.22;
  }
}
