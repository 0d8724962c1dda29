/**
 * The two time series of analyse_data.py. Observations with a date are
 * bucketed per status: by calendar year (`resample("Y").count()`, keeping
 * the buckets labelled after 1999-12-31) and by calendar month
 * (`resample("M").count()`), the monthly buckets then being summed per
 * month of the year across all years (`groupby(["Month", "type"])`).
 * Resampling yields every bucket from the first to the last dated
 * observation, the empty ones with a count of 0.
 */
module TimeSeries {
  import opened Wrappers
  import opened Observations

  /** Buckets are kept when their year-end label is after 1999-12-31: from this year on. */
  const Cutoff: int := 2000

  /** The bucket a date falls in when resampling by month, counted in months from year 0. */
  function MonthKey(d: Date): int {
    d.year * 12 + d.month - 1
  }

  lemma MonthKeyMonth(d: Date)
    ensures MonthKey(d) % 12 == d.month - 1
  {
    var x := d.year * 12 + (d.month - 1);
    assert x == 12 * d.year + (d.month - 1);
    assert 0 <= d.month - 1 < 12;
  }

  /** The years of the dated observations of status `st`, in row order. */
  function Years(rows: seq<Row>, st: Status): (ys: seq<int>)
    ensures |ys| <= |rows|
  {
    if rows == [] then []
    else if rows[0].status == st && rows[0].observedOn.Some? then [rows[0].observedOn.value.year] + Years(rows[1..], st)
    else Years(rows[1..], st)
  }

  /** The month buckets of the dated observations of status `st`, in row order. */
  function MonthKeys(rows: seq<Row>, st: Status): (ks: seq<int>)
    ensures |ks| <= |rows|
  {
    if rows == [] then []
    else if rows[0].status == st && rows[0].observedOn.Some? then [MonthKey(rows[0].observedOn.value)] + MonthKeys(rows[1..], st)
    else MonthKeys(rows[1..], st)
  }

  /** Observations of status `st` dated in year `y`. */
  function YearCount(rows: seq<Row>, st: Status, y: int): nat {
    if rows == [] then 0
    else
      var here := if rows[0].status == st && rows[0].observedOn.Some? && rows[0].observedOn.value.year == y then 1 else 0;
      here + YearCount(rows[1..], st, y)
  }

  /** Observations of status `st` dated in year `y` or later. */
  function DatedSince(rows: seq<Row>, st: Status, y: int): nat {
    if rows == [] then 0
    else
      var here := if rows[0].status == st && rows[0].observedOn.Some? && rows[0].observedOn.value.year >= y then 1 else 0;
      here + DatedSince(rows[1..], st, y)
  }

  /** Observations of status `st` dated in month `m` of any year. */
  function MonthCount(rows: seq<Row>, st: Status, m: Month): nat {
    if rows == [] then 0
    else
      var here := if rows[0].status == st && rows[0].observedOn.Some? && rows[0].observedOn.value.month == m then 1 else 0;
      here + MonthCount(rows[1..], st, m)
  }

  /** The first and last bucket that resampling spans, or None when nothing is dated. */
  function Span(xs: seq<int>): (s: Option<(int, int)>)
    ensures s.None? <==> xs == []
    ensures s.Some? ==> s.value.0 <= s.value.1 && s.value.0 in xs && s.value.1 in xs
    ensures s.Some? ==> forall x :: x in xs ==> s.value.0 <= x <= s.value.1
  {
    if xs == [] then None
    else match Span(xs[1..])
      case None => Some((xs[0], xs[0]))
      case Some((lo, hi)) =>
        assert forall x :: x in xs ==> x == xs[0] || x in xs[1..];
        Some((if xs[0] < lo then xs[0] else lo, if xs[0] > hi then xs[0] else hi))
  }

  /** Occurrences of bucket `k`: what `count()` reports for it. */
  function Occ(xs: seq<int>, k: int): nat {
    if xs == [] then 0 else (if xs[0] == k then 1 else 0) + Occ(xs[1..], k)
  }

  /** Elements in `lo..hi` that fall on residue `r` modulo `period`. */
  function Between(xs: seq<int>, lo: int, hi: int, period: int, r: int): nat
    requires period >= 1
  {
    if xs == [] then 0
    else (if lo <= xs[0] <= hi && xs[0] % period == r then 1 else 0) + Between(xs[1..], lo, hi, period, r)
  }

  /** The bucket counts for `lo..hi` on residue `r` modulo `period`, added up. */
  function SumOcc(xs: seq<int>, lo: int, hi: int, period: int, r: int): nat
    requires period >= 1
    decreases hi - lo
  {
    if hi < lo then 0
    else SumOcc(xs, lo, hi - 1, period, r) + (if hi % period == r then Occ(xs, hi) else 0)
  }

  lemma {:induction false} BetweenStep(xs: seq<int>, lo: int, hi: int, period: int, r: int)
    requires period >= 1 && lo <= hi
    ensures Between(xs, lo, hi, period, r) == Between(xs, lo, hi - 1, period, r) + (if hi % period == r then Occ(xs, hi) else 0)
  {
    if xs != [] {
      BetweenStep(xs[1..], lo, hi, period, r);
    }
  }

  lemma {:induction false} BetweenEmpty(xs: seq<int>, lo: int, hi: int, period: int, r: int)
    requires period >= 1 && hi < lo
    ensures Between(xs, lo, hi, period, r) == 0
  {
    if xs != [] {
      BetweenEmpty(xs[1..], lo, hi, period, r);
    }
  }

  /** Adding up the buckets of a range counts each element of the range once. */
  lemma {:induction false} SumOccBetween(xs: seq<int>, lo: int, hi: int, period: int, r: int)
    requires period >= 1
    ensures SumOcc(xs, lo, hi, period, r) == Between(xs, lo, hi, period, r)
    decreases hi - lo
  {
    if hi < lo {
      BetweenEmpty(xs, lo, hi, period, r);
    } else {
      SumOccBetween(xs, lo, hi - 1, period, r);
      BetweenStep(xs, lo, hi, period, r);
    }
  }

  lemma {:induction false} OccYears(rows: seq<Row>, st: Status, y: int)
    ensures Occ(Years(rows, st), y) == YearCount(rows, st, y)
  {
    if rows != [] {
      OccYears(rows[1..], st, y);
      if rows[0].status == st && rows[0].observedOn.Some? {
        assert ([rows[0].observedOn.value.year] + Years(rows[1..], st))[1..] == Years(rows[1..], st);
      }
    }
  }

  lemma {:induction false} YearsBetween(rows: seq<Row>, st: Status, lo: int, hi: int)
    requires forall x :: x in Years(rows, st) ==> x <= hi
    ensures Between(Years(rows, st), lo, hi, 1, 0) == DatedSince(rows, st, lo)
  {
    if rows != [] {
      var rest := Years(rows[1..], st);
      if rows[0].status == st && rows[0].observedOn.Some? {
        var y := rows[0].observedOn.value.year;
        assert ([y] + rest)[1..] == rest;
        assert y in Years(rows, st);
        assert forall x :: x in rest ==> x in Years(rows, st);
      } else {
        assert Years(rows, st) == rest;
      }
      YearsBetween(rows[1..], st, lo, hi);
    }
  }

  lemma {:induction false} MonthKeysBetween(rows: seq<Row>, st: Status, lo: int, hi: int, m: Month)
    requires forall x :: x in MonthKeys(rows, st) ==> lo <= x <= hi
    ensures Between(MonthKeys(rows, st), lo, hi, 12, m - 1) == MonthCount(rows, st, m)
  {
    if rows != [] {
      var rest := MonthKeys(rows[1..], st);
      if rows[0].status == st && rows[0].observedOn.Some? {
        var d := rows[0].observedOn.value;
        assert ([MonthKey(d)] + rest)[1..] == rest;
        assert MonthKey(d) in MonthKeys(rows, st);
        assert forall x :: x in rest ==> x in MonthKeys(rows, st);
        MonthKeyMonth(d);
      } else {
        assert MonthKeys(rows, st) == rest;
      }
      MonthKeysBetween(rows[1..], st, lo, hi, m);
    }
  }

  lemma {:induction false} YearsHas(rows: seq<Row>, st: Status, y: int)
    requires YearCount(rows, st, y) > 0
    ensures y in Years(rows, st)
  {
    if rows[0].status == st && rows[0].observedOn.Some? && rows[0].observedOn.value.year == y {
    } else {
      YearsHas(rows[1..], st, y);
    }
  }

  lemma {:induction false} MonthKeysHas(rows: seq<Row>, st: Status, m: Month)
    requires MonthCount(rows, st, m) > 0
    ensures exists k :: k in MonthKeys(rows, st) && k % 12 == m - 1
  {
    if rows[0].status == st && rows[0].observedOn.Some? && rows[0].observedOn.value.month == m {
      MonthKeyMonth(rows[0].observedOn.value);
      assert MonthKey(rows[0].observedOn.value) in MonthKeys(rows, st);
    } else {
      MonthKeysHas(rows[1..], st, m);
      var k :| k in MonthKeys(rows[1..], st) && k % 12 == m - 1;
      assert k in MonthKeys(rows, st);
    }
  }

  // ---------------------------------------------------------------- by year

  /** One bar of the yearly chart: the year, the `type` and the `Counts` column's count. */
  datatype YearBucket = YearBucket(year: int, status: Status, count: nat)

  /** The yearly buckets of one status, after the cutoff. */
  function YearlyOf(rows: seq<Row>, st: Status): seq<YearBucket> {
    var ys := Years(rows, st);
    match Span(ys)
      case None => []
      case Some((first, last)) =>
        var lo := if first < Cutoff then Cutoff else first;
        if last < lo then []
        else seq(last - lo + 1, k => YearBucket(lo + k, st, Occ(ys, lo + k)))
  }

  /** `pd.concat([df_nat, df_int])`: the native buckets, then the introduced ones. */
  function YearlySeries(rows: seq<Row>): seq<YearBucket> {
    YearlyOf(rows, Native) + YearlyOf(rows, Introduced)
  }

  function SumYears(bs: seq<YearBucket>): nat {
    if bs == [] then 0 else SumYears(bs[..|bs| - 1]) + bs[|bs| - 1].count
  }

  /**
   * The buckets of one status are consecutive years from 2000 on; each
   * counts the observations of that status dated in its year, and every
   * year from 2000 on in which one was dated has its bucket.
   */
  lemma YearlyBuckets(rows: seq<Row>, st: Status)
    ensures var out := YearlyOf(rows, st);
      && (forall k :: 0 <= k < |out| ==>
            out[k].status == st && out[k].year == out[0].year + k && out[k].year >= Cutoff
            && out[k].count == YearCount(rows, st, out[k].year))
      && (forall y :: y >= Cutoff && YearCount(rows, st, y) > 0 ==> exists k :: 0 <= k < |out| && out[k].year == y)
  {
    var out := YearlyOf(rows, st);
    forall k | 0 <= k < |out|
      ensures out[k].count == YearCount(rows, st, out[k].year)
    {
      OccYears(rows, st, out[k].year);
    }
    forall y | y >= Cutoff && YearCount(rows, st, y) > 0
      ensures exists k :: 0 <= k < |out| && out[k].year == y
    {
      YearsHas(rows, st, y);
      var first, last := Span(Years(rows, st)).value.0, Span(Years(rows, st)).value.1;
      var lo := if first < Cutoff then Cutoff else first;
      assert out[y - lo].year == y;
    }
  }

  /** The buckets of one status add up to its observations dated in 2000 or later. */
  lemma YearlySum(rows: seq<Row>, st: Status)
    ensures SumYears(YearlyOf(rows, st)) == DatedSince(rows, st, Cutoff)
  {
    var ys := Years(rows, st);
    var out := YearlyOf(rows, st);
    match Span(ys)
    case None =>
      YearsBetween(rows, st, Cutoff, Cutoff);
      assert ys == [];
    case Some((first, last)) =>
      var lo := if first < Cutoff then Cutoff else first;
      YearsBetween(rows, st, Cutoff, last);
      if last < lo {
        BetweenEmpty(ys, lo, last, 1, 0);
        assert Between(ys, Cutoff, last, 1, 0) == 0 by {
          if first >= Cutoff {
            assert false;
          }
        }
      } else {
        SumOccBetween(ys, lo, last, 1, 0);
        LowerBound(ys, Cutoff, lo, last);
        SumYearsOcc(ys, st, lo, last);
      }
  }

  /** Below the first element nothing is counted. */
  lemma {:induction false} LowerBound(xs: seq<int>, cutoff: int, lo: int, hi: int)
    requires cutoff <= lo && forall x :: x in xs ==> x >= lo || x < cutoff
    ensures Between(xs, cutoff, hi, 1, 0) == Between(xs, lo, hi, 1, 0)
  {
    if xs != [] {
      assert xs[0] in xs;
      assert forall x :: x in xs[1..] ==> x in xs;
      LowerBound(xs[1..], cutoff, lo, hi);
    }
  }

  lemma {:induction false} SumYearsOcc(ys: seq<int>, st: Status, lo: int, hi: int)
    requires lo <= hi
    ensures SumYears(seq(hi - lo + 1, k => YearBucket(lo + k, st, Occ(ys, lo + k)))) == SumOcc(ys, lo, hi, 1, 0)
    decreases hi - lo
  {
    var bs := seq(hi - lo + 1, k => YearBucket(lo + k, st, Occ(ys, lo + k)));
    assert hi % 1 == 0;
    if hi == lo {
      assert bs[..0] == [];
    } else {
      SumYearsOcc(ys, st, lo, hi - 1);
      assert bs[..|bs| - 1] == seq(hi - 1 - lo + 1, k => YearBucket(lo + k, st, Occ(ys, lo + k)));
    }
  }

  /** In the concatenated series the native buckets come first, then the introduced ones. */
  lemma YearlySeriesBuckets(rows: seq<Row>)
    ensures var out := YearlySeries(rows);
      forall i :: 0 <= i < |out| ==>
        out[i].year >= Cutoff && out[i].count == YearCount(rows, out[i].status, out[i].year)
        && (out[i].status == Native <==> i < |YearlyOf(rows, Native)|)
  {
    YearlyBuckets(rows, Native);
    YearlyBuckets(rows, Introduced);
  }

  // --------------------------------------------------------------- by month

  /** One bar of the monthly chart: month of the year, `type` and the pooled count. */
  datatype MonthBucket = MonthBucket(month: Month, status: Status, count: nat)

  /** Some month bucket in `lo..hi` falls on month `m` of its year. */
  predicate Covered(lo: int, hi: int, m: Month) {
    exists k :: lo <= k <= hi && k % 12 == m - 1
  }

  /** The group (m, st), when the resampled buckets of `st` include a month `m`. */
  function MonthlyOf(rows: seq<Row>, st: Status, m: Month): seq<MonthBucket> {
    var ks := MonthKeys(rows, st);
    match Span(ks)
      case None => []
      case Some((lo, hi)) =>
        if Covered(lo, hi, m) then [MonthBucket(m, st, SumOcc(ks, lo, hi, 12, m - 1))] else []
  }

  /** The grouped frame from month `m` on, sorted by month and then by type ("Introduced" < "Native"). */
  function MonthlyFrom(rows: seq<Row>, m: int): (out: seq<MonthBucket>)
    requires 1 <= m <= 13
    ensures forall i :: 0 <= i < |out| ==> out[i].month >= m
    ensures forall i, j :: 0 <= i < j < |out| ==>
      out[i].month < out[j].month || (out[i].month == out[j].month && out[i].status == Introduced && out[j].status == Native)
    decreases 13 - m
  {
    if m == 13 then []
    else MonthlyOf(rows, Introduced, m) + MonthlyOf(rows, Native, m) + MonthlyFrom(rows, m + 1)
  }

  function MonthlySeries(rows: seq<Row>): seq<MonthBucket> {
    MonthlyFrom(rows, 1)
  }

  /**
   * Each pooled bucket counts the observations of its status dated in its
   * month, whatever the year.
   */
  lemma MonthlyPooled(rows: seq<Row>, st: Status, m: Month)
    ensures MonthlyOf(rows, st, m) == [] || MonthlyOf(rows, st, m) == [MonthBucket(m, st, MonthCount(rows, st, m))]
  {
    var ks := MonthKeys(rows, st);
    match Span(ks)
    case None =>
    case Some((lo, hi)) =>
      SumOccBetween(ks, lo, hi, 12, m - 1);
      MonthKeysBetween(rows, st, lo, hi, m);
  }

  /** A month in which some observation of status `st` was dated has its bucket. */
  lemma MonthlyPresent(rows: seq<Row>, st: Status, m: Month)
    requires MonthCount(rows, st, m) > 0
    ensures MonthlyOf(rows, st, m) == [MonthBucket(m, st, MonthCount(rows, st, m))]
  {
    MonthlyPooled(rows, st, m);
    MonthKeysHas(rows, st, m);
    var k :| k in MonthKeys(rows, st) && k % 12 == m - 1;
    var span := Span(MonthKeys(rows, st));
    assert span.value.0 <= k <= span.value.1;
  }

  lemma {:induction false} MonthlyFromBucket(rows: seq<Row>, m: int, i: int)
    requires 1 <= m <= 13 && 0 <= i < |MonthlyFrom(rows, m)|
    ensures var b := MonthlyFrom(rows, m)[i];
      b.count == MonthCount(rows, b.status, b.month)
    decreases 13 - m
  {
    MonthlyPooled(rows, Introduced, m);
    MonthlyPooled(rows, Native, m);
    var head := MonthlyOf(rows, Introduced, m) + MonthlyOf(rows, Native, m);
    assert MonthlyFrom(rows, m) == head + MonthlyFrom(rows, m + 1);
    if i >= |head| {
      MonthlyFromBucket(rows, m + 1, i - |head|);
    }
  }

  /**
   * The monthly series pools all years: it has at most one bucket per month
   * and status (so at most 12 per status), sorted by month and then type,
   * and each counts the observations of its status in its month.
   */
  lemma MonthlySeriesBuckets(rows: seq<Row>)
    ensures var out := MonthlySeries(rows);
      && |out| <= 24
      && (forall i :: 0 <= i < |out| ==> out[i].count == MonthCount(rows, out[i].status, out[i].month))
      && (forall i, j :: 0 <= i < j < |out| ==> (out[i].month, out[i].status) != (out[j].month, out[j].status))
  {
    var out := MonthlySeries(rows);
    forall i | 0 <= i < |out|
      ensures out[i].count == MonthCount(rows, out[i].status, out[i].month)
    {
      MonthlyFromBucket(rows, 1, i);
    }
    MonthlyFromLength(rows, 1);
  }

  lemma {:induction false} MonthlyFromLength(rows: seq<Row>, m: int)
    requires 1 <= m <= 13
    ensures |MonthlyFrom(rows, m)| <= 2 * (13 - m)
    decreases 13 - m
  {
    if m < 13 {
      MonthlyFromLength(rows, m + 1);
    }
  }
}
