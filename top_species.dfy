/**
 * analyse_data.py lines 153-204: observations per named species of one
 * status (`groupby(["Species", "Introduced"])["id"].count()`), sorted by
 * count in descending order; the first `TOP_SSP` species, plus one
 * "Others" row holding the summed count of the rest.
 */
module TopSpecies {
  import opened Wrappers
  import opened Observations

  const TopSsp := 5
  const OthersLabel := "Others"

  /** One group of the species grouping: a species name and its number of observations. */
  datatype Group = Group(species: string, count: nat)

  /** The rows of status `st` that name species `s`. */
  function CountSpecies(rows: seq<Row>, s: string, st: Status): nat {
    if rows == [] then 0
    else CountSpecies(rows[..|rows| - 1], s, st) + if rows[|rows| - 1].status == st && rows[|rows| - 1].species == Some(s) then 1 else 0
  }

  /** The rows of status `st` that name a species at all (the grouping drops missing names). */
  function NamedCount(rows: seq<Row>, st: Status): nat {
    if rows == [] then 0
    else NamedCount(rows[..|rows| - 1], st) + if rows[|rows| - 1].status == st && rows[|rows| - 1].species.Some? then 1 else 0
  }

  /** The sum of the counts. */
  function Sum(gs: seq<Group>): nat {
    if gs == [] then 0 else gs[0].count + Sum(gs[1..])
  }

  predicate DistinctSpecies(gs: seq<Group>) {
    forall i, j :: 0 <= i < j < |gs| ==> gs[i].species != gs[j].species
  }

  /** The species named in `gs`. */
  function SpeciesOf(gs: seq<Group>): set<string> {
    set i | 0 <= i < |gs| :: gs[i].species
  }

  /** The position of the first group of species `s`, or -1 when there is none. */
  function Find(gs: seq<Group>, s: string): (k: int)
    ensures -1 <= k < |gs|
    ensures k >= 0 ==> gs[k].species == s
    ensures k < 0 ==> forall i :: 0 <= i < |gs| ==> gs[i].species != s
  {
    if gs == [] then -1
    else if gs[0].species == s then 0
    else
      var k := Find(gs[1..], s);
      assert forall i :: 1 <= i < |gs| ==> gs[i] == gs[1..][i - 1];
      if k < 0 then -1 else k + 1
  }

  /** With distinct species, a species is found at its one position. */
  lemma FindDistinct(gs: seq<Group>, i: int)
    requires DistinctSpecies(gs) && 0 <= i < |gs|
    ensures Find(gs, gs[i].species) == i
  {
  }

  /** The count of species `s` in `gs`, 0 when absent. */
  function CountOf(gs: seq<Group>, s: string): nat {
    var k := Find(gs, s);
    if k >= 0 then gs[k].count else 0
  }

  /** One more observation of species `s`: its group's count goes up by one, or a new group starts at 1. */
  function Bump(gs: seq<Group>, s: string): seq<Group> {
    var k := Find(gs, s);
    if k >= 0 then gs[k := Group(s, gs[k].count + 1)] else gs + [Group(s, 1)]
  }

  lemma {:induction false} SumUpdate(gs: seq<Group>, k: int, g: Group)
    requires 0 <= k < |gs|
    ensures Sum(gs[k := g]) == Sum(gs) - gs[k].count + g.count
  {
    if k > 0 {
      assert gs[k := g][1..] == gs[1..][k - 1 := g];
      SumUpdate(gs[1..], k - 1, g);
    }
  }

  lemma {:induction false} SumAppend(gs: seq<Group>, g: Group)
    ensures Sum(gs + [g]) == Sum(gs) + g.count
  {
    if gs != [] {
      assert (gs + [g])[1..] == gs[1..] + [g];
      SumAppend(gs[1..], g);
    }
  }

  /** Bumping keeps the species distinct and the counts positive, adds one to the total and to the count of `s` only. */
  lemma Bumped(gs: seq<Group>, s: string)
    requires DistinctSpecies(gs)
    ensures DistinctSpecies(Bump(gs, s))
    ensures forall i :: 0 <= i < |gs| && gs[i].count > 0 ==> Bump(gs, s)[i].count > 0
    ensures forall i :: |gs| <= i < |Bump(gs, s)| ==> Bump(gs, s)[i].count > 0
    ensures Sum(Bump(gs, s)) == Sum(gs) + 1
    ensures forall s' :: CountOf(Bump(gs, s), s') == CountOf(gs, s') + if s' == s then 1 else 0
  {
    var k := Find(gs, s);
    var r := Bump(gs, s);
    if k >= 0 {
      SumUpdate(gs, k, Group(s, gs[k].count + 1));
    } else {
      SumAppend(gs, Group(s, 1));
    }
    forall s'
      ensures CountOf(r, s') == CountOf(gs, s') + if s' == s then 1 else 0
    {
      var j := Find(gs, s');
      if j >= 0 {
        FindDistinct(gs, j);
        FindDistinct(r, j);
      } else if s' == s {
        FindDistinct(r, |gs|);
      } else {
        assert Find(r, s') < 0;
      }
    }
  }

  /**
   * The species grouping of the rows of status `st`: one group per named
   * species with its number of observations, in order of first appearance
   * (the order pandas gives the groups is undone by the sort that follows).
   */
  function Groups(rows: seq<Row>, st: Status): seq<Group> {
    if rows == [] then []
    else
      var gs := Groups(rows[..|rows| - 1], st);
      var last := rows[|rows| - 1];
      if last.status == st && last.species.Some? then Bump(gs, last.species.value) else gs
  }

  /**
   * The grouping has one group per species, each counting exactly that
   * species' observations of status `st`; together they count every named
   * observation of that status.
   */
  lemma {:induction false} GroupsCount(rows: seq<Row>, st: Status)
    ensures DistinctSpecies(Groups(rows, st))
    ensures forall i :: 0 <= i < |Groups(rows, st)| ==> Groups(rows, st)[i].count > 0
    ensures Sum(Groups(rows, st)) == NamedCount(rows, st)
    ensures forall s :: CountOf(Groups(rows, st), s) == CountSpecies(rows, s, st)
  {
    if rows != [] {
      var init := rows[..|rows| - 1];
      var last := rows[|rows| - 1];
      GroupsCount(init, st);
      if last.status == st && last.species.Some? {
        Bumped(Groups(init, st), last.species.value);
      }
    }
  }

  /** Group `i` of the grouping holds its species' count, which is positive. */
  lemma GroupCount(rows: seq<Row>, st: Status, i: int)
    requires 0 <= i < |Groups(rows, st)|
    ensures Groups(rows, st)[i].count == CountSpecies(rows, Groups(rows, st)[i].species, st) > 0
  {
    GroupsCount(rows, st);
    FindDistinct(Groups(rows, st), i);
  }

  /** A species has a group exactly when some observation of status `st` names it. */
  lemma {:induction false} GroupsSpecies(rows: seq<Row>, st: Status, s: string)
    ensures s in SpeciesOf(Groups(rows, st)) <==> CountSpecies(rows, s, st) > 0
  {
    var gs := Groups(rows, st);
    GroupsCount(rows, st);
    if s in SpeciesOf(gs) {
      var i :| 0 <= i < |gs| && gs[i].species == s;
      GroupCount(rows, st, i);
    } else {
      assert Find(gs, s) < 0;
    }
  }

  predicate SortedDesc(gs: seq<Group>) {
    forall i, j :: 0 <= i < j < |gs| ==> gs[i].count >= gs[j].count
  }

  /** Insert `g` into a list sorted by descending count, before the first group with a count not above its own. */
  function Insert(g: Group, gs: seq<Group>): (r: seq<Group>)
    ensures multiset(r) == multiset(gs) + multiset{g}
    ensures |r| == |gs| + 1
  {
    if gs == [] || g.count >= gs[0].count then [g] + gs
    else
      assert gs == [gs[0]] + gs[1..];
      [gs[0]] + Insert(g, gs[1..])
  }

  /** Inserting a group no larger than `bound` into groups no larger than `bound` keeps them all below it. */
  lemma InsertBelow(g: Group, gs: seq<Group>, bound: int)
    requires g.count <= bound && forall i :: 0 <= i < |gs| ==> gs[i].count <= bound
    ensures forall i :: 0 <= i < |Insert(g, gs)| ==> Insert(g, gs)[i].count <= bound
  {
    var r := Insert(g, gs);
    forall i | 0 <= i < |r|
      ensures r[i].count <= bound
    {
      assert r[i] in multiset(r);
      if r[i] != g {
        assert r[i] in multiset(gs);
        var k :| 0 <= k < |gs| && gs[k] == r[i];
      }
    }
  }

  lemma {:induction false} InsertSorted(g: Group, gs: seq<Group>)
    requires SortedDesc(gs)
    ensures SortedDesc(Insert(g, gs))
  {
    if gs != [] && g.count < gs[0].count {
      var rest := gs[1..];
      assert SortedDesc(rest) by {
        forall i, j | 0 <= i < j < |rest|
          ensures rest[i].count >= rest[j].count
        {
          assert rest[i] == gs[i + 1] && rest[j] == gs[j + 1];
        }
      }
      InsertSorted(g, rest);
      InsertBelow(g, rest, gs[0].count);
      var r := Insert(g, gs);
      var tail := Insert(g, rest);
      assert r == [gs[0]] + tail;
      forall i, j | 0 <= i < j < |r|
        ensures r[i].count >= r[j].count
      {
        assert r[j] == tail[j - 1];
        if i > 0 {
          assert r[i] == tail[i - 1];
        }
      }
    }
  }

  /** `sort_values("count", ascending=False)`, one sort of the groups by descending count. */
  function SortByCount(gs: seq<Group>): (r: seq<Group>)
    ensures multiset(r) == multiset(gs)
  {
    if gs == [] then []
    else
      assert gs == [gs[0]] + gs[1..];
      Insert(gs[0], SortByCount(gs[1..]))
  }

  lemma {:induction false} SortByCountSorted(gs: seq<Group>)
    ensures SortedDesc(SortByCount(gs))
  {
    if gs != [] {
      SortByCountSorted(gs[1..]);
      InsertSorted(gs[0], SortByCount(gs[1..]));
    }
  }

  lemma {:induction false} SumRemove(gs: seq<Group>, j: int)
    requires 0 <= j < |gs|
    ensures Sum(gs) == gs[j].count + Sum(gs[..j] + gs[j + 1..])
    decreases j
  {
    if j == 0 {
      assert gs[..0] + gs[1..] == gs[1..];
    } else {
      var rest := gs[1..];
      SumRemove(rest, j - 1);
      assert gs[..j] + gs[j + 1..] == [gs[0]] + (rest[..j - 1] + rest[j..]);
    }
  }

  /** Reordering the groups does not change their total. */
  lemma {:induction false} SumPermutation(a: seq<Group>, b: seq<Group>)
    requires multiset(a) == multiset(b)
    ensures Sum(a) == Sum(b)
    decreases |a|
  {
    if a == [] {
      assert |b| == |multiset(b)| == 0;
    } else {
      assert a[0] in multiset(b);
      var j :| 0 <= j < |b| && b[j] == a[0];
      var b' := b[..j] + b[j + 1..];
      assert b == b[..j] + [b[j]] + b[j + 1..];
      assert multiset(b) == multiset(b[..j]) + multiset{b[j]} + multiset(b[j + 1..]);
      assert multiset(b') == multiset(b[..j]) + multiset(b[j + 1..]);
      assert a == [a[0]] + a[1..];
      assert multiset(a) == multiset{a[0]} + multiset(a[1..]);
      assert multiset(a[1..]) == multiset(a) - multiset{a[0]};
      assert multiset(a[1..]) == multiset(b');
      SumPermutation(a[1..], b');
      SumRemove(b, j);
    }
  }

  lemma {:induction false} SumConcat(a: seq<Group>, b: seq<Group>)
    ensures Sum(a + b) == Sum(a) + Sum(b)
  {
    if a != [] {
      var ab := a + b;
      assert ab[0] == a[0] && ab[1..] == a[1..] + b;
      SumConcat(a[1..], b);
      assert Sum(ab) == ab[0].count + Sum(ab[1..]);
    } else {
      assert a + b == b;
    }
  }

  /** One bar of a top-species chart: a species (or "Others"), its `Introduced` label and its count. */
  datatype TopRow = TopRow(species: string, status: Status, count: nat)

  function SumTop(top: seq<TopRow>): nat {
    if top == [] then 0 else top[0].count + SumTop(top[1..])
  }

  /** How many species are listed by name: `TOP_SSP`, or all of them when there are fewer. */
  function ListedCount(sorted: seq<Group>): (n: nat)
    ensures n <= |sorted| && n <= TopSsp
    ensures n == TopSsp || n == |sorted|
  {
    if |sorted| < TopSsp then |sorted| else TopSsp
  }

  /** `sorted[:TOP_SSP]`, labelled with status `st`. */
  function Listed(sorted: seq<Group>, st: Status): seq<TopRow> {
    var n := ListedCount(sorted);
    seq(n, i requires 0 <= i < n => TopRow(sorted[i].species, st, sorted[i].count))
  }

  /** The top list with its "Others" row carrying the list's own status. */
  function TopList(sorted: seq<Group>, st: Status): seq<TopRow> {
    Listed(sorted, st) + [TopRow(OthersLabel, st, Sum(sorted[ListedCount(sorted)..]))]
  }

  /** The top list as written: the "Others" row is labelled "Introduced" for either status. */
  function TopListAsWritten(sorted: seq<Group>, st: Status): seq<TopRow> {
    Listed(sorted, st) + [TopRow(OthersLabel, Introduced, Sum(sorted[ListedCount(sorted)..]))]
  }

  lemma {:induction false} SumTopListed(gs: seq<Group>, st: Status)
    ensures SumTop(seq(|gs|, i requires 0 <= i < |gs| => TopRow(gs[i].species, st, gs[i].count))) == Sum(gs)
  {
    if gs != [] {
      var rows := seq(|gs|, i requires 0 <= i < |gs| => TopRow(gs[i].species, st, gs[i].count));
      var rest := gs[1..];
      SumTopListed(rest, st);
      assert rows[1..] == seq(|rest|, i requires 0 <= i < |rest| => TopRow(rest[i].species, st, rest[i].count));
    }
  }

  lemma {:induction false} SumTopConcat(a: seq<TopRow>, b: seq<TopRow>)
    ensures SumTop(a + b) == SumTop(a) + SumTop(b)
  {
    if a != [] {
      assert (a + b)[0] == a[0] && (a + b)[1..] == a[1..] + b;
      SumTopConcat(a[1..], b);
    } else {
      assert a + b == b;
    }
  }

  /** The counts of the top list, "Others" included, add up to the counts of all groups. */
  lemma TopListSum(sorted: seq<Group>, st: Status)
    ensures SumTop(TopList(sorted, st)) == Sum(sorted)
  {
    var n := ListedCount(sorted);
    var head := sorted[..n];
    assert Listed(sorted, st) == seq(|head|, i requires 0 <= i < |head| => TopRow(head[i].species, st, head[i].count));
    SumTopListed(head, st);
    SumTopConcat(Listed(sorted, st), [TopRow(OthersLabel, st, Sum(sorted[n..]))]);
    assert sorted == head + sorted[n..];
    SumConcat(head, sorted[n..]);
  }

  /** The distinct species named by observations of status `st`. */
  function NamedSpeciesOf(rows: seq<Row>, st: Status): set<string> {
    set i | 0 <= i < |rows| && rows[i].status == st && rows[i].species.Some? :: rows[i].species.value
  }

  lemma {:induction false} CountSpeciesPositive(rows: seq<Row>, s: string, st: Status)
    ensures CountSpecies(rows, s, st) > 0 <==> s in NamedSpeciesOf(rows, st)
  {
    if rows != [] {
      var init := rows[..|rows| - 1];
      var last := rows[|rows| - 1];
      CountSpeciesPositive(init, s, st);
      if s in NamedSpeciesOf(init, st) {
        var i :| 0 <= i < |init| && init[i].status == st && init[i].species.Some? && init[i].species.value == s;
        assert rows[i] == init[i];
      }
      if s in NamedSpeciesOf(rows, st) {
        var i :| 0 <= i < |rows| && rows[i].status == st && rows[i].species.Some? && rows[i].species.value == s;
        if i < |init| {
          assert rows[i] == init[i];
        }
      }
    }
  }

  lemma {:induction false} DistinctCard(gs: seq<Group>)
    requires DistinctSpecies(gs)
    ensures |SpeciesOf(gs)| == |gs|
  {
    if gs != [] {
      var init := gs[..|gs| - 1];
      assert DistinctSpecies(init) by {
        forall i, j | 0 <= i < j < |init|
          ensures init[i].species != init[j].species
        {
          assert init[i] == gs[i] && init[j] == gs[j];
        }
      }
      DistinctCard(init);
      assert SpeciesOf(gs) == SpeciesOf(init) + {gs[|gs| - 1].species} by {
        forall x | x in SpeciesOf(gs)
          ensures x in SpeciesOf(init) + {gs[|gs| - 1].species}
        {
          var i :| 0 <= i < |gs| && gs[i].species == x;
          if i < |init| {
            assert init[i] == gs[i];
          }
        }
        forall x | x in SpeciesOf(init)
          ensures x in SpeciesOf(gs)
        {
          var i :| 0 <= i < |init| && init[i].species == x;
          assert gs[i] == init[i];
        }
      }
      assert gs[|gs| - 1].species !in SpeciesOf(init) by {
        forall i | 0 <= i < |init|
          ensures init[i].species != gs[|gs| - 1].species
        {
          assert init[i] == gs[i];
        }
      }
    }
  }

  /** There are as many groups as distinct named species of that status. */
  lemma GroupsLength(rows: seq<Row>, st: Status)
    ensures |Groups(rows, st)| == |NamedSpeciesOf(rows, st)|
  {
    var gs := Groups(rows, st);
    GroupsCount(rows, st);
    DistinctCard(gs);
    forall s
      ensures s in SpeciesOf(gs) <==> s in NamedSpeciesOf(rows, st)
    {
      GroupsSpecies(rows, st, s);
      CountSpeciesPositive(rows, s, st);
    }
    assert SpeciesOf(gs) == NamedSpeciesOf(rows, st);
  }

  /**
   * For any ordering of the groups by descending count (the sort does not
   * fix the order of ties), the top list has min(TOP_SSP, number of
   * species) + 1 rows. Each listed species carries its own observation
   * count and is counted at least as often as every species left for
   * "Others". The counts of all rows, "Others" included, add up to the
   * number of named observations of that status.
   */
  lemma TopListOfRows(rows: seq<Row>, st: Status, sorted: seq<Group>)
    requires SortedDesc(sorted) && multiset(sorted) == multiset(Groups(rows, st))
    ensures var top := TopList(sorted, st);
      var species := |NamedSpeciesOf(rows, st)|;
      && |top| == (if species < TopSsp then species else TopSsp) + 1
      && SumTop(top) == NamedCount(rows, st)
      && top[|top| - 1] == TopRow(OthersLabel, st, Sum(sorted[ListedCount(sorted)..]))
      && (forall i :: 0 <= i < |top| - 1 ==>
            top[i].status == st && top[i].count == CountSpecies(rows, top[i].species, st) > 0)
      && (forall i, j :: 0 <= i < |top| - 1 && ListedCount(sorted) <= j < |sorted| ==> top[i].count >= sorted[j].count)
  {
    var gs := Groups(rows, st);
    var top := TopList(sorted, st);
    assert |sorted| == |multiset(sorted)| == |multiset(gs)| == |gs|;
    GroupsLength(rows, st);
    TopListSum(sorted, st);
    SumPermutation(sorted, gs);
    GroupsCount(rows, st);
    forall i | 0 <= i < |top| - 1
      ensures top[i].status == st && top[i].count == CountSpecies(rows, top[i].species, st) > 0
    {
      assert top[i] == TopRow(sorted[i].species, st, sorted[i].count);
      assert sorted[i] in multiset(gs);
      var k :| 0 <= k < |gs| && gs[k] == sorted[i];
      GroupCount(rows, st, k);
    }
  }

  /**
   * As written, the introduced list is the top list, but the native list's
   * "Others" row is labelled "Introduced" where every other row of that
   * list says "Native".
   */
  lemma TopListAsWrittenMislabels(sorted: seq<Group>)
    ensures TopListAsWritten(sorted, Introduced) == TopList(sorted, Introduced)
    ensures var written, intended := TopListAsWritten(sorted, Native), TopList(sorted, Native);
      && |written| == |intended|
      && written[..|written| - 1] == intended[..|intended| - 1]
      && written[|written| - 1].status == Introduced
      && intended[|intended| - 1].status == Native
  {
    var written, intended := TopListAsWritten(sorted, Native), TopList(sorted, Native);
    assert written[..|written| - 1] == Listed(sorted, Native);
    assert intended[..|intended| - 1] == Listed(sorted, Native);
  }

  /** The bar chart's rows for one status: species grouped, sorted by count, top five and "Others". */
  function TopSpeciesOf(rows: seq<Row>, st: Status): seq<TopRow> {
    TopList(SortByCount(Groups(rows, st)), st)
  }

  /** The sort the chart uses meets what `TopListOfRows` asks of an ordering. */
  lemma TopSpeciesOfRows(rows: seq<Row>, st: Status)
    ensures var top := TopSpeciesOf(rows, st);
      var species := |NamedSpeciesOf(rows, st)|;
      && |top| == (if species < TopSsp then species else TopSsp) + 1
      && SumTop(top) == NamedCount(rows, st)
      && top[|top| - 1].species == OthersLabel && top[|top| - 1].status == st
      && (forall i :: 0 <= i < |top| - 1 ==>
            top[i].status == st && top[i].count == CountSpecies(rows, top[i].species, st) > 0)
  {
    SortByCountSorted(Groups(rows, st));
    TopListOfRows(rows, st, SortByCount(Groups(rows, st)));
  }
}
