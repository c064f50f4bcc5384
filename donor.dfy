/**
 * The donor feature store: loading a donor table, imputing missing ages with
 * the median of the present ages, deriving the likely-donor label, and the
 * feature selection with zero fill that precedes the classifier and the
 * clustering. Cells are Option<real>: None is a missing (NaN) value.
 */
module Donor {
  import opened Wrappers

  /** One donor record; likelyDonor is None until the label column is derived. */
  datatype DonorRow = DonorRow(
    age: Option<real>,
    lifetimeGift: Option<real>,
    recentAvgGift: Option<real>,
    monthsSinceLastGift: Option<real>,
    recentResponseProp: Option<real>,
    medianIncome: Option<real>,
    likelyDonor: Option<int>)

  datatype LoadError = DataFileNotFound(message: string)

  const NotFoundMessage: string := "❌ Data file not found. Check path."

  /** A donor is likely when the recent average gift exceeds this amount ... */
  const GiftThreshold: real := 10.0
  /** ... and the last gift was fewer than this many months ago. */
  const RecencyThreshold: real := 18.0

  // ---------------------------------------------------------------------
  // Median of the present ages
  // ---------------------------------------------------------------------

  predicate Sorted(s: seq<real>) {
    forall i, j :: 0 <= i < j < |s| ==> s[i] <= s[j]
  }

  function Insert(x: real, s: seq<real>): (r: seq<real>)
    requires Sorted(s)
    ensures Sorted(r) && multiset(r) == multiset(s) + multiset{x}
  {
    if s == [] then [x]
    else if x <= s[0] then
      PrependSorted(x, s);
      [x] + s
    else
      assert s == [s[0]] + s[1..];
      var rest := Insert(x, s[1..]);
      BoundedByHead(s, x, rest);
      PrependSorted(s[0], rest);
      [s[0]] + rest
  }

  lemma PrependSorted(h: real, s: seq<real>)
    requires Sorted(s) && forall k :: 0 <= k < |s| ==> h <= s[k]
    ensures Sorted([h] + s)
  {
  }

  /** What is built from the tail of a sorted list and a larger value stays above its head. */
  lemma BoundedByHead(s: seq<real>, x: real, rest: seq<real>)
    requires Sorted(s) && s != [] && s[0] < x
    requires multiset(rest) == multiset(s[1..]) + multiset{x}
    ensures forall k :: 0 <= k < |rest| ==> s[0] <= rest[k]
  {
    forall k | 0 <= k < |rest|
      ensures s[0] <= rest[k]
    {
      assert rest[k] in multiset(rest);
      if rest[k] != x {
        assert rest[k] in s[1..];
      }
    }
  }

  /** The values in ascending order. */
  function SortValues(xs: seq<real>): (r: seq<real>)
    ensures Sorted(r) && multiset(r) == multiset(xs)
  {
    if xs == [] then []
    else
      assert xs == [xs[0]] + xs[1..];
      Insert(xs[0], SortValues(xs[1..]))
  }

  /** The middle of a sorted list: one element for an odd length, the mean of two for an even one. */
  function Middle(s: seq<real>): real
    requires |s| > 0
  {
    var n := |s|;
    if n % 2 == 1 then s[n / 2] else (s[n / 2 - 1] + s[n / 2]) / 2.0
  }

  /** The median with NaNs skipped; None when there is no value at all. */
  function Median(xs: seq<real>): (m: Option<real>)
    ensures m.None? <==> xs == []
  {
    if xs == [] then None else Some(Middle(SortValues(xs)))
  }

  /** The head of a sorted list is at most any of its values. */
  lemma SortedHeadIsLeast(s: seq<real>, x: real)
    requires Sorted(s) && x in s
    ensures s[0] <= x
  {
    var i :| 0 <= i < |s| && s[i] == x;
  }

  /** Two sorted arrangements of the same values are the same list. */
  lemma {:induction false} SortedUnique(a: seq<real>, b: seq<real>)
    requires Sorted(a) && Sorted(b) && multiset(a) == multiset(b)
    ensures a == b
  {
    if a == [] {
      assert |b| == |multiset(b)| == 0;
    } else {
      assert a[0] in multiset(b);
      assert b != [];
      assert b[0] in multiset(a);
      SortedHeadIsLeast(b, a[0]);
      SortedHeadIsLeast(a, b[0]);
      assert a[0] == b[0];
      assert a == [a[0]] + a[1..];
      assert b == [b[0]] + b[1..];
      calc {
        multiset(a[1..]);
        multiset(a) - multiset{a[0]};
        multiset(b) - multiset{b[0]};
        multiset(b[1..]);
      }
      SortedUnique(a[1..], b[1..]);
    }
  }

  /**
   * The median is the middle element of the sorted values for an odd count
   * and the mean of the two middle elements for an even count, whichever
   * sorted arrangement of the values is taken.
   */
  lemma MedianIsMiddle(xs: seq<real>, sorted: seq<real>)
    requires xs != [] && Sorted(sorted) && multiset(sorted) == multiset(xs)
    ensures |sorted| == |xs|
    ensures Median(xs) == Some(Middle(sorted))
  {
    SameLength(sorted, xs);
    SortedUnique(SortValues(xs), sorted);
  }

  lemma SameLength(a: seq<real>, b: seq<real>)
    requires multiset(a) == multiset(b)
    ensures |a| == |b|
  {
    assert |a| == |multiset(a)|;
    assert |b| == |multiset(b)|;
  }

  /** The median depends only on the values, not their order. */
  lemma MedianIgnoresOrder(xs: seq<real>, ys: seq<real>)
    requires multiset(xs) == multiset(ys)
    ensures Median(xs) == Median(ys)
  {
    SortedUnique(SortValues(xs), SortValues(ys));
    if xs == [] {
      assert |ys| == |multiset(ys)| == 0;
    }
  }

  /** The median lies between two of the values. */
  lemma MedianBetween(xs: seq<real>)
    requires xs != []
    ensures exists i :: 0 <= i < |xs| && xs[i] <= Median(xs).value
    ensures exists j :: 0 <= j < |xs| && Median(xs).value <= xs[j]
  {
    var s := SortValues(xs);
    var n := |s|;
    assert n == |multiset(s)| == |multiset(xs)| == |xs|;
    assert s[0] in multiset(xs) && s[n - 1] in multiset(xs);
    assert s[0] <= Median(xs).value <= s[n - 1];
  }

  // ---------------------------------------------------------------------
  // Cleaning
  // ---------------------------------------------------------------------

  /** The positions of the rows whose age is present, in increasing order. */
  function AgeIndices(rows: seq<DonorRow>): (idx: seq<nat>)
    ensures |idx| <= |rows|
    ensures forall k :: 0 <= k < |idx| ==> idx[k] < |rows| && rows[idx[k]].age.Some?
    ensures forall k, m :: 0 <= k < m < |idx| ==> idx[k] < idx[m]
    ensures forall j :: 0 <= j < |rows| && rows[j].age.Some? ==> j in idx
  {
    if rows == [] then []
    else
      var n := |rows| - 1;
      var init := AgeIndices(rows[..n]);
      assert forall k :: 0 <= k < |init| ==> rows[..n][init[k]] == rows[init[k]];
      if rows[n].age.Some? then init + [n] else init
  }

  /**
   * The present ages in row order: the k-th is the age of the k-th row whose
   * age is present, so each age occurs as often as in the column.
   */
  function PresentAges(rows: seq<DonorRow>): (ages: seq<real>)
    ensures |ages| == |AgeIndices(rows)|
    ensures forall k :: 0 <= k < |ages| ==> rows[AgeIndices(rows)[k]].age == Some(ages[k])
  {
    if rows == [] then []
    else
      var n := |rows| - 1;
      var init := PresentAges(rows[..n]);
      var idx0 := AgeIndices(rows[..n]);
      assert forall k :: 0 <= k < |idx0| ==> rows[..n][idx0[k]] == rows[idx0[k]];
      var last := rows[n];
      if last.age.Some? then init + [last.age.value] else init
  }

  lemma {:induction false} PresentAgesEmpty(rows: seq<DonorRow>)
    ensures PresentAges(rows) == [] <==> forall i :: 0 <= i < |rows| ==> rows[i].age.None?
  {
    if rows != [] {
      var n := |rows| - 1;
      PresentAgesEmpty(rows[..n]);
      assert forall i :: 0 <= i < n ==> rows[..n][i] == rows[i];
    }
  }

  /** fillna: a missing value takes the fill value (itself possibly missing). */
  function FillNa<T>(v: Option<T>, fill: Option<T>): Option<T> {
    if v.Some? then v else fill
  }

  /**
   * The likely-donor label: 1 iff the recent average gift is above 10 and the
   * last gift was less than 18 months ago. A missing value compares false.
   */
  function LikelyDonor(r: DonorRow): (likely: int)
    ensures likely == 0 || likely == 1
    ensures likely == 1 <==>
      (r.recentAvgGift.Some? && r.recentAvgGift.value > 10.0 &&
       r.monthsSinceLastGift.Some? && r.monthsSinceLastGift.value < 18.0)
  {
    var generous := r.recentAvgGift.Some? && r.recentAvgGift.value > GiftThreshold;
    var recent := r.monthsSinceLastGift.Some? && r.monthsSinceLastGift.value < RecencyThreshold;
    if generous && recent then 1 else 0
  }

  /** The table after the two column assignments of the loader. */
  function CleanRows(rows: seq<DonorRow>): (cleaned: seq<DonorRow>)
    ensures |cleaned| == |rows|
  {
    var median := Median(PresentAges(rows));
    seq(|rows|, i requires 0 <= i < |rows| =>
      rows[i].(age := FillNa(rows[i].age, median), likelyDonor := Some(LikelyDonor(rows[i]))))
  }

  /** Loading cleans the table in place: clean as the two vectorised assignments do. */
  method CleanFrame(df: array<DonorRow>)
    modifies df
    ensures df[..] == CleanRows(old(df[..]))
  {
    var median := Median(PresentAges(df[..]));
    forall i | 0 <= i < df.Length {
      df[i] := df[i].(age := FillNa(df[i].age, median));
    }
    forall i | 0 <= i < df.Length {
      df[i] := df[i].(likelyDonor := Some(LikelyDonor(df[i])));
    }
  }

  /**
   * load_data: read the file at path (files maps each existing path to its
   * parsed rows) into a fresh table and clean it; a missing file is an error.
   */
  method LoadData(files: map<string, seq<DonorRow>>, path: string) returns (result: Result<array<DonorRow>, LoadError>)
    ensures result.Failure? <==> path !in files
    ensures result.Failure? ==> result.error == DataFileNotFound(NotFoundMessage)
    ensures result.Success? ==> fresh(result.value) && result.value[..] == CleanRows(files[path])
  {
    if path !in files {
      return Failure(DataFileNotFound(NotFoundMessage));
    }
    var raw := files[path];
    var df := new DonorRow[|raw|](i requires 0 <= i < |raw| => raw[i]);
    assert df[..] == raw;
    CleanFrame(df);
    return Success(df);
  }

  /** Every row whose age was present keeps that exact age. */
  lemma CleanKeepsPresentAges(rows: seq<DonorRow>)
    ensures forall i :: 0 <= i < |rows| && rows[i].age.Some? ==> CleanRows(rows)[i].age == rows[i].age
  {
  }

  /**
   * When at least one age is present, every missing age becomes the median of
   * the present ages and no age remains missing; when none is present,
   * nothing is filled.
   */
  lemma CleanFillsMissingAges(rows: seq<DonorRow>)
    ensures (exists j :: 0 <= j < |rows| && rows[j].age.Some?) ==>
      var median := Median(PresentAges(rows));
      median.Some? &&
      (forall i :: 0 <= i < |rows| && rows[i].age.None? ==> CleanRows(rows)[i].age == median) &&
      (forall i :: 0 <= i < |rows| ==> CleanRows(rows)[i].age.Some?)
    ensures (forall j :: 0 <= j < |rows| ==> rows[j].age.None?) ==>
      forall i :: 0 <= i < |rows| ==> CleanRows(rows)[i].age.None?
  {
    PresentAgesEmpty(rows);
    var median := Median(PresentAges(rows));
    var cleaned := CleanRows(rows);
    if exists j :: 0 <= j < |rows| && rows[j].age.Some? {
      assert median.Some?;
      forall i | 0 <= i < |rows|
        ensures cleaned[i].age.Some? && (rows[i].age.None? ==> cleaned[i].age == median)
      {
        assert cleaned[i].age == FillNa(rows[i].age, median);
      }
    } else {
      assert median.None?;
      forall i | 0 <= i < |rows|
        ensures cleaned[i].age.None?
      {
        assert cleaned[i].age == FillNa(rows[i].age, median);
      }
    }
  }

  /**
   * Loading keeps the rows and their order; each row differs from its source
   * row only in the age column and the new likely-donor label.
   */
  lemma CleanChangesOnlyAgeAndLabel(rows: seq<DonorRow>)
    ensures |CleanRows(rows)| == |rows|
    ensures forall i :: 0 <= i < |rows| ==>
      var c := CleanRows(rows)[i];
      c.lifetimeGift == rows[i].lifetimeGift && c.recentAvgGift == rows[i].recentAvgGift &&
      c.monthsSinceLastGift == rows[i].monthsSinceLastGift &&
      c.recentResponseProp == rows[i].recentResponseProp && c.medianIncome == rows[i].medianIncome &&
      c.likelyDonor == Some(LikelyDonor(rows[i]))
  {
  }

  /** A table with exactly one missing age gives that row the median of the other ages. */
  lemma OneMissingAgeGetsMedian(rows: seq<DonorRow>, k: nat)
    requires k < |rows| && rows[k].age.None?
    requires forall i :: 0 <= i < |rows| && i != k ==> rows[i].age.Some?
    requires |rows| > 1
    ensures CleanRows(rows)[k].age == Median(PresentAges(rows))
    ensures CleanRows(rows)[k].age.Some?
  {
    var j := if k == 0 then 1 else 0;
    assert rows[j].age.Some?;
    CleanFillsMissingAges(rows);
  }

  // ---------------------------------------------------------------------
  // Feature selection for the classifier and the clustering
  // ---------------------------------------------------------------------

  function FillZero(v: Option<real>): real {
    v.GetOr(0.0)
  }

  /**
   * The classifier's feature matrix: DONOR_AGE, LIFETIME_GIFT_AMOUNT,
   * RECENT_RESPONSE_PROP, MONTHS_SINCE_LAST_GIFT, MEDIAN_HOUSEHOLD_INCOME,
   * with every missing value replaced by 0.
   */
  function TrainFeatures(rows: seq<DonorRow>): (x: seq<seq<real>>)
    ensures |x| == |rows|
    ensures forall i :: 0 <= i < |rows| ==> |x[i]| == 5
  {
    seq(|rows|, i requires 0 <= i < |rows| =>
      [FillZero(rows[i].age), FillZero(rows[i].lifetimeGift), FillZero(rows[i].recentResponseProp),
       FillZero(rows[i].monthsSinceLastGift), FillZero(rows[i].medianIncome)])
  }

  /** The label vector; None when some row has no label (the column is missing). */
  function TrainLabels(rows: seq<DonorRow>): (y: Option<seq<int>>)
    ensures y.Some? <==> forall i :: 0 <= i < |rows| ==> rows[i].likelyDonor.Some?
    ensures y.Some? ==> |y.value| == |rows| && forall i :: 0 <= i < |rows| ==> y.value[i] == rows[i].likelyDonor.value
  {
    if forall i :: 0 <= i < |rows| ==> rows[i].likelyDonor.Some?
    then Some(seq(|rows|, i requires 0 <= i < |rows| => rows[i].likelyDonor.value))
    else None
  }

  /**
   * The clustering's feature matrix: DONOR_AGE, LIFETIME_GIFT_AMOUNT and the
   * classifier's probability, with every missing value replaced by 0.
   */
  function SegmentFeatures(rows: seq<DonorRow>, probability: seq<real>): (x: seq<seq<real>>)
    requires |probability| == |rows|
    ensures |x| == |rows|
    ensures forall i :: 0 <= i < |rows| ==> |x[i]| == 3
  {
    seq(|rows|, i requires 0 <= i < |rows| =>
      [FillZero(rows[i].age), FillZero(rows[i].lifetimeGift), probability[i]])
  }

  /** The zero fill keeps every present value and puts 0 where a value is missing. */
  lemma FeatureFill(rows: seq<DonorRow>, probability: seq<real>)
    requires |probability| == |rows|
    ensures forall i :: 0 <= i < |rows| ==>
      var r := rows[i]; var x := TrainFeatures(rows)[i];
      x[0] == (if r.age.Some? then r.age.value else 0.0) &&
      x[1] == (if r.lifetimeGift.Some? then r.lifetimeGift.value else 0.0) &&
      x[2] == (if r.recentResponseProp.Some? then r.recentResponseProp.value else 0.0) &&
      x[3] == (if r.monthsSinceLastGift.Some? then r.monthsSinceLastGift.value else 0.0) &&
      x[4] == (if r.medianIncome.Some? then r.medianIncome.value else 0.0)
    ensures forall i :: 0 <= i < |rows| ==>
      var r := rows[i]; var x := SegmentFeatures(rows, probability)[i];
      x[0] == (if r.age.Some? then r.age.value else 0.0) &&
      x[1] == (if r.lifetimeGift.Some? then r.lifetimeGift.value else 0.0) &&
      x[2] == probability[i]
  {
  }

  /**
   * After loading a table with at least one present age, the classifier sees
   * the loader's median in place of every missing age, never the zero fill.
   */
  lemma LoadedAgesNotZeroFilled(rows: seq<DonorRow>)
    requires exists j :: 0 <= j < |rows| && rows[j].age.Some?
    ensures Median(PresentAges(rows)).Some?
    ensures forall i :: 0 <= i < |rows| ==>
      TrainFeatures(CleanRows(rows))[i][0] ==
        if rows[i].age.Some? then rows[i].age.value else Median(PresentAges(rows)).value
  {
    PresentAgesEmpty(rows);
    var median := Median(PresentAges(rows));
    var cleaned := CleanRows(rows);
    var x := TrainFeatures(cleaned);
    forall i | 0 <= i < |rows|
      ensures x[i][0] == if rows[i].age.Some? then rows[i].age.value else median.value
    {
      assert cleaned[i].age == FillNa(rows[i].age, median);
      assert x[i][0] == FillZero(cleaned[i].age);
    }
  }

  /** After loading, every row carries its 0/1 label, so the label vector exists. */
  lemma LoadedTableLabels(rows: seq<DonorRow>)
    ensures var y := TrainLabels(CleanRows(rows));
      y.Some? && |y.value| == |rows| &&
      forall i :: 0 <= i < |rows| ==> y.value[i] == LikelyDonor(rows[i]) && (y.value[i] == 0 || y.value[i] == 1)
  {
    var cleaned := CleanRows(rows);
    assert forall i :: 0 <= i < |rows| ==> cleaned[i].likelyDonor == Some(LikelyDonor(rows[i]));
  }
}
