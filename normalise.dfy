/**
 * The per-batch normalisation in get_data.py. The nested `taxon` object is
 * flattened into `taxon__*` columns and its nested `common_name` object into
 * `taxon__common_name_*` columns. Every row is stamped with the query's
 * `introduced` flag and `place_id`. Then a place's introduced and native
 * batches are joined, and the four columns that still hold nested data are
 * deleted.
 */
module Normalise {
  import opened Wrappers
  import opened Frames

  const TaxonColumn := "taxon"
  const TaxonPrefix := "taxon__"
  const CommonNameColumn := "taxon__common_name"
  const CommonNamePrefix := "taxon__common_name_"
  const IntroducedColumn := "introduced"
  const PlaceIdColumn := "place_id"

  /** The columns deleted before saving, in the order they are deleted. */
  const NestedColumns := ["iconic_taxon", "user", "photos", "taxon"]

  /** The nested common-name object of a row's taxon (null when there is none). */
  function CommonName(r: Record): Value {
    Cell(r, TaxonColumn, "common_name")
  }

  /** The first expansion: every field of `taxon` becomes a `taxon__` column. */
  function ExpandTaxon(t: Table): (r: Result<Table, FetchError>)
    requires Rectangular(t)
  {
    ExpandColumn(t, TaxonColumn, TaxonPrefix)
  }

  /**
   * Expand `taxon`, expand the `taxon__common_name` column that produced,
   * then drop that intermediate column. Each step raises a KeyError on a
   * missing column.
   */
  function Flatten(t: Table): (r: Result<Table, FetchError>)
    requires Rectangular(t)
    ensures r.Success? ==> Rectangular(r.value)
  {
    var t2 :- ExpandTaxon(t);
    var t3 :- ExpandColumn(t2, CommonNameColumn, CommonNamePrefix);
    DropColumn(t3, CommonNameColumn)
  }

  lemma CommonNameColumnIsPrefixed()
    ensures TaxonPrefix + "common_name" == CommonNameColumn
    ensures TaxonPrefix + "common_name_" == CommonNamePrefix
    ensures TaxonPrefix <= CommonNamePrefix
  {
  }

  /**
   * Flattening fails exactly when the batch has no `taxon` column, or when
   * no taxon carries a common name and the batch had no
   * `taxon__common_name` column of its own; the error names the missing
   * column.
   */
  lemma FlattenFailsIff(t: Table)
    requires Rectangular(t)
    ensures Flatten(t).Failure? <==>
      TaxonColumn !in t.columns || (CommonNameColumn !in t.columns && "common_name" !in SubKeys(t.rows, TaxonColumn))
    ensures TaxonColumn !in t.columns ==> Flatten(t) == Failure(MissingColumn(TaxonColumn))
    ensures TaxonColumn in t.columns && Flatten(t).Failure? ==> Flatten(t) == Failure(MissingColumn(CommonNameColumn))
  {
    if TaxonColumn in t.columns {
      CommonNameColumnIsPrefixed();
      PrefixedMember(TaxonPrefix, SubKeys(t.rows, TaxonColumn), "common_name");
    }
  }

  /**
   * Flattening only adds columns, all named `taxon__...`: the row count is
   * unchanged, every column but the intermediate `taxon__common_name` is
   * kept, and that one is gone.
   */
  lemma FlattenAddsColumns(t: Table)
    requires Rectangular(t) && Flatten(t).Success?
    ensures var r := Flatten(t).value;
      && |r.rows| == |t.rows|
      && CommonNameColumn !in r.columns
      && t.columns - {CommonNameColumn} <= r.columns
      && forall c :: c in r.columns && c !in t.columns ==> TaxonPrefix <= c
  {
    var t2 := ExpandTaxon(t).value;
    var t3 := ExpandColumn(t2, CommonNameColumn, CommonNamePrefix).value;
    CommonNameColumnIsPrefixed();
    forall c | c in Prefixed(CommonNamePrefix, SubKeys(t2.rows, CommonNameColumn))
      ensures TaxonPrefix <= c
    {
      PrefixedStartsWith(CommonNamePrefix, SubKeys(t2.rows, CommonNameColumn), TaxonPrefix, c);
    }
  }

  /** A cell of a column outside the `taxon__` namespace keeps its value. */
  lemma FlattenKeepsCells(t: Table)
    requires Rectangular(t) && Flatten(t).Success?
    ensures var r := Flatten(t).value;
      forall i, c :: 0 <= i < |t.rows| && c in t.columns && !(TaxonPrefix <= c) ==> r.rows[i][c] == t.rows[i][c]
  {
    var t2 := ExpandTaxon(t).value;
    var t3 := ExpandColumn(t2, CommonNameColumn, CommonNamePrefix).value;
    var r := Flatten(t).value;
    assert r == DropColumn(t3, CommonNameColumn).value;
    var keys1 := SubKeys(t.rows, TaxonColumn);
    var keys2 := SubKeys(t2.rows, CommonNameColumn);
    CommonNameColumnIsPrefixed();
    forall i, c | 0 <= i < |t.rows| && c in t.columns && !(TaxonPrefix <= c)
      ensures r.rows[i][c] == t.rows[i][c]
    {
      if c in Prefixed(TaxonPrefix, keys1) {
        PrefixedStartsWith(TaxonPrefix, keys1, TaxonPrefix, c);
      }
      if c in Prefixed(CommonNamePrefix, keys2) {
        PrefixedStartsWith(CommonNamePrefix, keys2, TaxonPrefix, c);
      }
      assert t2.rows[i][c] == t.rows[i][c];
      assert t3.rows[i][c] == t2.rows[i][c];
    }
  }

  /**
   * Every field name of `taxon`, seen in any row, becomes a `taxon__` column
   * holding that row's field (null where the row's taxon lacks it). This
   * holds for every field except `common_name` itself and fields whose name
   * starts with `common_name_`, whose `taxon__` column name can also be
   * produced by the common-name expansion. pandas would keep both columns
   * under that one label; a frame here has one column per label.
   */
  lemma FlattenTaxonFields(t: Table)
    requires Rectangular(t) && Flatten(t).Success?
    ensures var r := Flatten(t).value;
      forall i, k :: 0 <= i < |t.rows| && k in SubKeys(t.rows, TaxonColumn) && k != "common_name" && !("common_name_" <= k) ==>
        TaxonPrefix + k in r.columns && r.rows[i][TaxonPrefix + k] == Cell(t.rows[i], TaxonColumn, k)
  {
    var t2 := ExpandTaxon(t).value;
    var t3 := ExpandColumn(t2, CommonNameColumn, CommonNamePrefix).value;
    var r := Flatten(t).value;
    assert r == DropColumn(t3, CommonNameColumn).value;
    var keys1 := SubKeys(t.rows, TaxonColumn);
    var keys2 := SubKeys(t2.rows, CommonNameColumn);
    CommonNameColumnIsPrefixed();
    forall i, k | 0 <= i < |t.rows| && k in keys1 && k != "common_name" && !("common_name_" <= k)
      ensures TaxonPrefix + k in r.columns && r.rows[i][TaxonPrefix + k] == Cell(t.rows[i], TaxonColumn, k)
    {
      var c := TaxonPrefix + k;
      PrefixedMember(TaxonPrefix, keys1, k);
      if c == CommonNameColumn {
        PrefixInjective(TaxonPrefix, k, "common_name");
      }
      assert t2.rows[i][c] == Cell(t.rows[i], TaxonColumn, k);
      assert t3.rows[i][c] == t2.rows[i][c];
    }
  }

  /**
   * Every field `k` of row `i`'s nested common-name object lands in column
   * `taxon__common_name_<k>` of that row.
   */
  lemma FlattenCommonNameField(t: Table, i: int, k: string)
    requires Rectangular(t) && Flatten(t).Success?
    requires 0 <= i < |t.rows| && CommonName(t.rows[i]).Obj? && k in CommonName(t.rows[i]).fields
    ensures CommonNamePrefix + k in Flatten(t).value.columns
    ensures Flatten(t).value.rows[i][CommonNamePrefix + k] == CommonName(t.rows[i]).fields[k]
  {
    var t2 := ExpandTaxon(t).value;
    var t3 := ExpandColumn(t2, CommonNameColumn, CommonNamePrefix).value;
    assert Flatten(t).value == DropColumn(t3, CommonNameColumn).value;
    var keys1 := SubKeys(t.rows, TaxonColumn);
    var keys2 := SubKeys(t2.rows, CommonNameColumn);
    CommonNameColumnIsPrefixed();
    assert "common_name" in keys1;
    assert t2.rows[i][CommonNameColumn] == CommonName(t.rows[i]);
    assert k in keys2;
    PrefixedMember(CommonNamePrefix, keys2, k);
    assert t3.rows[i][CommonNamePrefix + k] == CommonName(t.rows[i]).fields[k];
    assert |CommonNamePrefix + k| > |CommonNameColumn|;
  }

  /**
   * `assign(introduced=...).assign(place_id=...)`: every row gets the query's
   * flag and place id, whatever the endpoint returned in those fields, and
   * every other cell is kept.
   */
  function Tag(t: Table, introduced: bool, placeId: int): (r: Table)
    requires Rectangular(t)
    ensures r.columns == t.columns + {IntroducedColumn, PlaceIdColumn}
    ensures |r.rows| == |t.rows| && Rectangular(r)
    ensures forall i :: 0 <= i < |r.rows| ==>
      r.rows[i][IntroducedColumn] == Bool(introduced) && r.rows[i][PlaceIdColumn] == Int(placeId)
    ensures forall i, c :: 0 <= i < |t.rows| && c in t.columns && c != IntroducedColumn && c != PlaceIdColumn ==>
      r.rows[i][c] == t.rows[i][c]
  {
    Assign(Assign(t, IntroducedColumn, Bool(introduced)), PlaceIdColumn, Int(placeId))
  }

  /** One fetched batch, flattened and tagged with its query. */
  function NormaliseBatch(t: Table, introduced: bool, placeId: int): (r: Result<Table, FetchError>)
    requires Rectangular(t)
    ensures r.Success? ==> Rectangular(r.value)
  {
    var flat :- Flatten(t);
    Success(Tag(flat, introduced, placeId))
  }

  /**
   * `pd.concat([introduced, native])` followed by the four `del`s, in
   * order; each `del` raises a KeyError on a missing column.
   */
  function Combine(introduced: Table, native: Table): (r: Result<Table, FetchError>)
    requires Rectangular(introduced) && Rectangular(native)
    ensures r.Success? ==> Rectangular(r.value)
  {
    var joined := Concat(introduced, native);
    var t1 :- DropColumn(joined, NestedColumns[0]);
    var t2 :- DropColumn(t1, NestedColumns[1]);
    var t3 :- DropColumn(t2, NestedColumns[2]);
    DropColumn(t3, NestedColumns[3])
  }

  /** The first of `names` that is not among `cols`. */
  function FirstMissing(names: seq<string>, cols: set<string>): (n: string)
    requires exists n :: n in names && n !in cols
    ensures n in names && n !in cols
  {
    if names[0] !in cols then names[0] else FirstMissing(names[1..], cols)
  }

  /**
   * Combining fails exactly when one of the four nested columns is in
   * neither batch, and then with a KeyError naming the first of them.
   */
  lemma CombineFailsIff(introduced: Table, native: Table)
    requires Rectangular(introduced) && Rectangular(native)
    ensures var cols := introduced.columns + native.columns;
      && (Combine(introduced, native).Failure? <==> exists n :: n in NestedColumns && n !in cols)
      && (Combine(introduced, native).Failure? ==>
            Combine(introduced, native) == Failure(MissingColumn(FirstMissing(NestedColumns, cols))))
  {
    var cols := introduced.columns + native.columns;
    if exists n :: n in NestedColumns && n !in cols {
      var rest1, rest2, rest3 := NestedColumns[1..], NestedColumns[2..], NestedColumns[3..];
      assert rest1 == ["user", "photos", "taxon"] && rest1[1..] == rest2;
      assert rest2 == ["photos", "taxon"] && rest2[1..] == rest3;
      assert rest3 == ["taxon"];
      if "iconic_taxon" in cols {
        assert FirstMissing(NestedColumns, cols) == FirstMissing(rest1, cols);
        if "user" in cols {
          assert FirstMissing(rest1, cols) == FirstMissing(rest2, cols);
          if "photos" in cols {
            assert FirstMissing(rest2, cols) == FirstMissing(rest3, cols);
          }
        }
      }
    }
  }

  /**
   * A place's table: the introduced rows first, then the native ones, with
   * every cell kept, and exactly the columns of either batch except the four
   * nested ones.
   */
  lemma CombineRows(introduced: Table, native: Table)
    requires Rectangular(introduced) && Rectangular(native) && Combine(introduced, native).Success?
    ensures var r := Combine(introduced, native).value;
      && |r.rows| == |introduced.rows| + |native.rows|
      && r.columns == introduced.columns + native.columns - set n | n in NestedColumns
      && (forall i, c :: 0 <= i < |introduced.rows| && c in r.columns ==>
            r.rows[i][c] == if c in introduced.columns then introduced.rows[i][c] else Null)
      && (forall j, c :: 0 <= j < |native.rows| && c in r.columns ==>
            r.rows[|introduced.rows| + j][c] == if c in native.columns then native.rows[j][c] else Null)
  {
    ConcatCells(introduced, native);
  }

  /** None of the four nested columns is left in a place's table. */
  lemma CombineDropsNested(introduced: Table, native: Table)
    requires Rectangular(introduced) && Rectangular(native) && Combine(introduced, native).Success?
    ensures forall n :: n in NestedColumns ==> n !in Combine(introduced, native).value.columns
  {
    CombineRows(introduced, native);
  }

  /**
   * In a place's table the introduced rows come first: row `i` is stamped
   * `introduced=True` exactly when it came from the introduced batch, and
   * every row carries the queried place id.
   */
  lemma PlaceRowsTagged(introduced: Table, native: Table, placeId: int)
    requires Rectangular(introduced) && Rectangular(native)
    requires Combine(Tag(introduced, true, placeId), Tag(native, false, placeId)).Success?
    ensures var r := Combine(Tag(introduced, true, placeId), Tag(native, false, placeId)).value;
      && |r.rows| == |introduced.rows| + |native.rows|
      && IntroducedColumn in r.columns && PlaceIdColumn in r.columns
      && forall i :: 0 <= i < |r.rows| ==>
           r.rows[i][IntroducedColumn] == Bool(i < |introduced.rows|) && r.rows[i][PlaceIdColumn] == Int(placeId)
  {
    var a, b := Tag(introduced, true, placeId), Tag(native, false, placeId);
    CombineStamp(a, b, IntroducedColumn, Bool(true), Bool(false));
    CombineStamp(a, b, PlaceIdColumn, Int(placeId), Int(placeId));
  }

  /** A column both batches carry, with one value per batch, keeps those values in the joined table. */
  lemma CombineStamp(a: Table, b: Table, col: string, va: Value, vb: Value)
    requires Rectangular(a) && Rectangular(b) && Combine(a, b).Success?
    requires col in a.columns && col in b.columns && col !in NestedColumns
    requires forall i :: 0 <= i < |a.rows| ==> a.rows[i][col] == va
    requires forall j :: 0 <= j < |b.rows| ==> b.rows[j][col] == vb
    ensures var r := Combine(a, b).value;
      && |r.rows| == |a.rows| + |b.rows| && col in r.columns
      && forall i :: 0 <= i < |r.rows| ==> r.rows[i][col] == if i < |a.rows| then va else vb
  {
    var r := Combine(a, b).value;
    CombineRows(a, b);
    forall i | 0 <= i < |r.rows|
      ensures r.rows[i][col] == if i < |a.rows| then va else vb
    {
      if i >= |a.rows| {
        assert r.rows[|a.rows| + (i - |a.rows|)][col] == b.rows[i - |a.rows|][col];
      }
    }
  }
}
