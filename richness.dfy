/**
 * analyse_data.py lines 78-91: species richness, the number of distinct
 * species observed per place and status, built row by row in `PLACES`
 * order, Introduced before Native.
 */
module Richness {
  import opened Wrappers
  import opened Places
  import opened Observations
  import opened StatusCounts

  /** The distinct species names among the rows at `loc` with status `st`. */
  function NamedSpecies(rows: seq<Row>, loc: Location, st: Status): set<string> {
    set i | 0 <= i < |rows| && rows[i].location == loc && rows[i].status == st && rows[i].species.Some? :: rows[i].species.value
  }

  /**
   * `Species.unique()` as written: the distinct values of the Species
   * column, where a missing common name (NaN) is a value of its own.
   */
  function SpeciesValues(rows: seq<Row>, loc: Location, st: Status): set<Option<string>> {
    set i | 0 <= i < |rows| && rows[i].location == loc && rows[i].status == st :: rows[i].species
  }

  /** `len(... .Species.unique())` as written. */
  function RichnessAsWritten(rows: seq<Row>, loc: Location, st: Status): nat {
    |SpeciesValues(rows, loc, st)|
  }

  /** Richness: the number of distinct named species. */
  function SpeciesCount(rows: seq<Row>, loc: Location, st: Status): nat {
    |NamedSpecies(rows, loc, st)|
  }

  /** Some row at `loc` with status `st` has no species name. */
  predicate HasUnnamed(rows: seq<Row>, loc: Location, st: Status) {
    exists i :: 0 <= i < |rows| && rows[i].location == loc && rows[i].status == st && rows[i].species.None?
  }

  lemma {:induction false} SomeImage(names: set<string>)
    ensures |set x | x in names :: Some(x)| == |names|
    decreases |names|
  {
    if names != {} {
      var x :| x in names;
      SomeImage(names - {x});
      assert (set y | y in names :: Some(y)) == (set y | y in names - {x} :: Some(y)) + {Some(x)};
    }
  }

  /** The values `unique()` sees: the named species, and NaN when some row has no name. */
  lemma SpeciesValuesSplit(rows: seq<Row>, loc: Location, st: Status)
    ensures SpeciesValues(rows, loc, st) ==
      (set x | x in NamedSpecies(rows, loc, st) :: Some(x)) + if HasUnnamed(rows, loc, st) then {None} else {}
  {
    var named := NamedSpecies(rows, loc, st);
    var image := set x | x in named :: Some(x);
    var values := SpeciesValues(rows, loc, st);
    forall v | v in values
      ensures v in image || (v == None && HasUnnamed(rows, loc, st))
    {
      var i :| 0 <= i < |rows| && rows[i].location == loc && rows[i].status == st && rows[i].species == v;
      if v.Some? {
        assert v.value in named;
      }
    }
    forall v | v in image
      ensures v in values
    {
      var x :| x in named && v == Some(x);
      var i :| 0 <= i < |rows| && rows[i].location == loc && rows[i].status == st && rows[i].species.Some? && rows[i].species.value == x;
      assert rows[i].species == v;
    }
    if HasUnnamed(rows, loc, st) {
      var i :| 0 <= i < |rows| && rows[i].location == loc && rows[i].status == st && rows[i].species.None?;
      assert rows[i].species in values;
    }
  }

  /**
   * As written, the count is one more than the number of named species
   * whenever some observation of that place and status lacks a common name.
   */
  lemma RichnessAsWrittenCountsMissing(rows: seq<Row>, loc: Location, st: Status)
    ensures RichnessAsWritten(rows, loc, st) == SpeciesCount(rows, loc, st) + if HasUnnamed(rows, loc, st) then 1 else 0
  {
    var image := set x | x in NamedSpecies(rows, loc, st) :: Some(x);
    SomeImage(NamedSpecies(rows, loc, st));
    SpeciesValuesSplit(rows, loc, st);
    assert None !in image;
  }

  /** Two observations at one place, one of gorse and one without a common name: one species, counted as two. */
  lemma RichnessAsWrittenExample()
    ensures var rows := [Row(1, Introduced, Named("Tawharanui"), Some("Gorse"), None),
                         Row(2, Introduced, Named("Tawharanui"), None, None)];
      RichnessAsWritten(rows, Named("Tawharanui"), Introduced) == 2 && SpeciesCount(rows, Named("Tawharanui"), Introduced) == 1
  {
    var rows := [Row(1, Introduced, Named("Tawharanui"), Some("Gorse"), None),
                 Row(2, Introduced, Named("Tawharanui"), None, None)];
    assert NamedSpecies(rows, Named("Tawharanui"), Introduced) == {"Gorse"} by {
      assert rows[0].species.value == "Gorse";
    }
    assert HasUnnamed(rows, Named("Tawharanui"), Introduced) by {
      assert rows[1].species.None?;
    }
    RichnessAsWrittenCountsMissing(rows, Named("Tawharanui"), Introduced);
  }

  lemma NamedSpeciesCons(rows: seq<Row>, loc: Location, st: Status)
    requires rows != []
    ensures NamedSpecies(rows, loc, st) ==
      NamedSpecies(rows[1..], loc, st)
        + if rows[0].location == loc && rows[0].status == st && rows[0].species.Some? then {rows[0].species.value} else {}
  {
    var tail := rows[1..];
    forall i | 1 <= i < |rows|
      ensures rows[i] == tail[i - 1]
    {
    }
  }

  /** There are never more species than observations of that place and status. */
  lemma {:induction false} SpeciesCountBound(rows: seq<Row>, loc: Location, st: Status)
    ensures SpeciesCount(rows, loc, st) <= CountAtStatus(rows, loc, st)
  {
    if rows != [] {
      NamedSpeciesCons(rows, loc, st);
      SpeciesCountBound(rows[1..], loc, st);
      var tail := NamedSpecies(rows[1..], loc, st);
      if rows[0].location == loc && rows[0].status == st && rows[0].species.Some? {
        var x := rows[0].species.value;
        if x in tail {
          assert tail + {x} == tail;
        } else {
          assert |tail + {x}| == |tail| + 1;
        }
      } else {
        assert NamedSpecies(rows, loc, st) == tail;
      }
    }
  }

  /** There is a species exactly when some observation of that place and status is named. */
  lemma SpeciesCountPositive(rows: seq<Row>, loc: Location, st: Status)
    ensures SpeciesCount(rows, loc, st) > 0 <==>
      exists i :: 0 <= i < |rows| && rows[i].location == loc && rows[i].status == st && rows[i].species.Some?
  {
    if exists i :: 0 <= i < |rows| && rows[i].location == loc && rows[i].status == st && rows[i].species.Some? {
      var i :| 0 <= i < |rows| && rows[i].location == loc && rows[i].status == st && rows[i].species.Some?;
      assert rows[i].species.value in NamedSpecies(rows, loc, st);
    }
  }

  /** One row of the richness frame. */
  datatype RichnessRow = RichnessRow(location: string, species: nat, status: Status)

  /**
   * The loop over `PLACES`, appending for each place its Introduced row and
   * then its Native row.
   */
  method SpeciesRichness(rows: seq<Row>, places: seq<Place>) returns (out: seq<RichnessRow>)
    ensures |out| == 2 * |places|
    ensures forall k :: 0 <= k < |places| ==>
      && out[2 * k] == RichnessRow(places[k].name, SpeciesCount(rows, Named(places[k].name), Introduced), Introduced)
      && out[2 * k + 1] == RichnessRow(places[k].name, SpeciesCount(rows, Named(places[k].name), Native), Native)
  {
    out := [];
    var k := 0;
    while k < |places|
      invariant 0 <= k <= |places| && |out| == 2 * k
      invariant forall j :: 0 <= j < k ==>
        && out[2 * j] == RichnessRow(places[j].name, SpeciesCount(rows, Named(places[j].name), Introduced), Introduced)
        && out[2 * j + 1] == RichnessRow(places[j].name, SpeciesCount(rows, Named(places[j].name), Native), Native)
    {
      var loc := Named(places[k].name);
      var c := |NamedSpecies(rows, loc, Introduced)|;
      out := out + [RichnessRow(places[k].name, c, Introduced)];
      c := |NamedSpecies(rows, loc, Native)|;
      out := out + [RichnessRow(places[k].name, c, Native)];
      k := k + 1;
    }
  }
}
