/**
 * analyse_data.py lines 57-74: observation counts per place
 * (`groupby("place_id")`), per place and status
 * (`groupby(["place_id", "introduced"])`), and each status's percentage of
 * its place's total. Groupings are maps from their key to the value; pandas'
 * row order of the grouped frames is not modelled.
 */
module StatusCounts {
  import opened Observations

  /** The number of rows at `loc`. */
  function CountAt(rows: seq<Row>, loc: Location): (n: nat)
    ensures n <= |rows|
  {
    if rows == [] then 0
    else (if rows[0].location == loc then 1 else 0) + CountAt(rows[1..], loc)
  }

  /** The number of rows at `loc` with status `st`. */
  function CountAtStatus(rows: seq<Row>, loc: Location, st: Status): (n: nat)
    ensures n <= CountAt(rows, loc)
  {
    if rows == [] then 0
    else (if rows[0].location == loc && rows[0].status == st then 1 else 0) + CountAtStatus(rows[1..], loc, st)
  }

  /** A place's count splits into its Introduced and its Native count. */
  lemma {:induction false} CountSplit(rows: seq<Row>, loc: Location)
    ensures CountAt(rows, loc) == CountAtStatus(rows, loc, Introduced) + CountAtStatus(rows, loc, Native)
  {
    if rows != [] {
      CountSplit(rows[1..], loc);
    }
  }

  /** A (place, status) count is positive exactly when some row has that place and status. */
  lemma {:induction false} CountAtStatusPositive(rows: seq<Row>, loc: Location, st: Status)
    ensures CountAtStatus(rows, loc, st) > 0 <==> exists i :: 0 <= i < |rows| && rows[i].location == loc && rows[i].status == st
  {
    if rows != [] {
      CountAtStatusPositive(rows[1..], loc, st);
      if exists i :: 1 <= i < |rows| && rows[i].location == loc && rows[i].status == st {
        var i :| 1 <= i < |rows| && rows[i].location == loc && rows[i].status == st;
        assert rows[1..][i - 1] == rows[i];
      }
      if exists i :: 0 <= i < |rows| - 1 && rows[1..][i].location == loc && rows[1..][i].status == st {
        var i :| 0 <= i < |rows| - 1 && rows[1..][i].location == loc && rows[1..][i].status == st;
        assert rows[i + 1] == rows[1..][i];
      }
    }
  }

  /** The places present in the rows. */
  function Locations(rows: seq<Row>): set<Location> {
    set i | 0 <= i < |rows| :: rows[i].location
  }

  /** The (place, status) pairs present in the rows. */
  function Pairs(rows: seq<Row>): set<(Location, Status)> {
    set i | 0 <= i < |rows| :: (rows[i].location, rows[i].status)
  }

  /** `df_aggr`: the number of observations per place present. */
  function Totals(rows: seq<Row>): (totals: map<Location, nat>)
    ensures totals.Keys == Locations(rows)
  {
    map l | l in Locations(rows) :: CountAt(rows, l)
  }

  /** `df_grouped`: the number of observations per (place, status) pair present. */
  function Grouped(rows: seq<Row>): (grouped: map<(Location, Status), nat>)
    ensures grouped.Keys == Pairs(rows)
  {
    map k | k in Pairs(rows) :: CountAtStatus(rows, k.0, k.1)
  }

  /** Every place present has a positive total. */
  lemma TotalsPositive(rows: seq<Row>)
    ensures forall l :: l in Totals(rows) ==> Totals(rows)[l] > 0
  {
    forall l | l in Totals(rows)
      ensures Totals(rows)[l] > 0
    {
      var i :| 0 <= i < |rows| && rows[i].location == l;
      CountSplit(rows, l);
      CountAtStatusPositive(rows, l, rows[i].status);
    }
  }

  /** A pair is present exactly when its count is positive, and its place is then present too. */
  lemma {:induction false} GroupedKeys(rows: seq<Row>, loc: Location, st: Status)
    ensures (loc, st) in Grouped(rows) <==> CountAtStatus(rows, loc, st) > 0
    ensures (loc, st) in Grouped(rows) ==> loc in Totals(rows)
  {
    CountAtStatusPositive(rows, loc, st);
    if CountAtStatus(rows, loc, st) > 0 {
      var i :| 0 <= i < |rows| && rows[i].location == loc && rows[i].status == st;
      assert (rows[i].location, rows[i].status) in Pairs(rows);
    }
  }

  /** The count of a pair, zero when the grouping has no such row. */
  function GroupedCount(grouped: map<(Location, Status), nat>, loc: Location, st: Status): nat {
    if (loc, st) in grouped then grouped[(loc, st)] else 0
  }

  /** For every place, its per-status counts add up to its total. */
  lemma GroupedSumsToTotal(rows: seq<Row>, loc: Location)
    requires loc in Totals(rows)
    ensures GroupedCount(Grouped(rows), loc, Introduced) + GroupedCount(Grouped(rows), loc, Native) == Totals(rows)[loc]
  {
    CountSplit(rows, loc);
    GroupedKeys(rows, loc, Introduced);
    GroupedKeys(rows, loc, Native);
  }

  /** One row of `df_percentages`: the pair's count, its place's total and `count / total * 100`. */
  datatype Share = Share(count: nat, total: nat, percentage: real)

  /** `count / total * 100`, in exact arithmetic. */
  function Percentage(count: nat, total: nat): (p: real)
    requires total > 0
  {
    count as real / total as real * 100.0
  }

  lemma PercentageBounds(count: nat, total: nat)
    requires 0 < total && count <= total
    ensures 0.0 <= Percentage(count, total) <= 100.0
  {
    assert count as real / total as real <= 1.0;
  }

  /** `pd.merge(df_grouped, df_aggr, on="place_id")` with the percentage column. */
  function Percentages(rows: seq<Row>): (shares: map<(Location, Status), Share>)
    ensures shares.Keys == Grouped(rows).Keys
    ensures forall k :: k in shares ==> shares[k].count == Grouped(rows)[k] && shares[k].total == Totals(rows)[k.0]
  {
    var grouped, totals := Grouped(rows), Totals(rows);
    assert forall k :: k in grouped ==> k.0 in totals && totals[k.0] > 0 by {
      TotalsPositive(rows);
      forall k | k in grouped
        ensures k.0 in totals
      {
        GroupedKeys(rows, k.0, k.1);
      }
    }
    map k | k in grouped :: Share(grouped[k], totals[k.0], Percentage(grouped[k], totals[k.0]))
  }

  /** Every percentage lies in [0, 100] and is its count over its place's total, times 100. */
  lemma PercentagesInRange(rows: seq<Row>)
    ensures forall k :: k in Percentages(rows) ==>
      && Percentages(rows)[k].total > 0
      && Percentages(rows)[k].percentage == Percentages(rows)[k].count as real / Percentages(rows)[k].total as real * 100.0
      && 0.0 <= Percentages(rows)[k].percentage <= 100.0
  {
    var shares := Percentages(rows);
    TotalsPositive(rows);
    forall k | k in shares
      ensures shares[k].total > 0
      ensures shares[k].percentage == shares[k].count as real / shares[k].total as real * 100.0
      ensures 0.0 <= shares[k].percentage <= 100.0
    {
      GroupedKeys(rows, k.0, k.1);
      assert CountAtStatus(rows, k.0, k.1) <= CountAt(rows, k.0);
      PercentageBounds(shares[k].count, shares[k].total);
    }
  }

  /** The percentage of a pair, zero when the merge has no such row. */
  function SharePercentage(shares: map<(Location, Status), Share>, loc: Location, st: Status): real {
    if (loc, st) in shares then shares[(loc, st)].percentage else 0.0
  }

  /** A place's Introduced and Native percentages add up to 100. */
  lemma PercentagesSumTo100(rows: seq<Row>, loc: Location)
    requires loc in Totals(rows)
    ensures SharePercentage(Percentages(rows), loc, Introduced) + SharePercentage(Percentages(rows), loc, Native) == 100.0
  {
    var shares := Percentages(rows);
    var t := Totals(rows)[loc];
    TotalsPositive(rows);
    GroupedSumsToTotal(rows, loc);
    var a, b := GroupedCount(Grouped(rows), loc, Introduced), GroupedCount(Grouped(rows), loc, Native);
    ShareOfPair(rows, loc, Introduced);
    ShareOfPair(rows, loc, Native);
    PercentagesOfSplit(a, b, t);
  }

  /** A pair's percentage is its count over its place's total, times 100, also when the pair is absent. */
  lemma ShareOfPair(rows: seq<Row>, loc: Location, st: Status)
    requires loc in Totals(rows) && Totals(rows)[loc] > 0
    ensures SharePercentage(Percentages(rows), loc, st) == Percentage(GroupedCount(Grouped(rows), loc, st), Totals(rows)[loc])
  {
    var shares := Percentages(rows);
    if (loc, st) in shares {
      var k := (loc, st);
      assert shares[k] == Share(Grouped(rows)[k], Totals(rows)[loc], Percentage(Grouped(rows)[k], Totals(rows)[loc]));
    } else {
      assert Percentage(0, Totals(rows)[loc]) == 0.0;
    }
  }

  lemma PercentagesOfSplit(a: nat, b: nat, t: nat)
    requires t > 0 && a + b == t
    ensures Percentage(a, t) + Percentage(b, t) == 100.0
  {
    var x, y, z := a as real, b as real, t as real;
    var p, q := x / z, y / z;
    assert p * z == x && q * z == y;
    assert (p + q - 1.0) * z == 0.0;
  }
}
