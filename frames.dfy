/**
 * The part of a pandas DataFrame that the fetch pipeline relies on: a set of
 * column names and a sequence of rows, every row holding a value for every
 * column (a cell a record did not provide reads as null, pandas' NaN).
 * Column order and the row index are not modelled.
 */
module Frames {
  import opened Wrappers

  /** A JSON value as the observations endpoint returns it. */
  datatype Value =
    | Null
    | Bool(b: bool)
    | Int(i: int)
    | Str(s: string)
    | Obj(fields: map<string, Value>)
    | List(items: seq<Value>)

  /** One decoded JSON object: field name to value. */
  type Record = map<string, Value>

  datatype Table = Table(columns: set<string>, rows: seq<Record>)

  /** Why a fetch-and-normalise run stops: a non-200 HTTP status, or a KeyError on a missing column. */
  datatype FetchError = HttpStatus(code: int) | MissingColumn(name: string)

  /** Every row has exactly the table's columns. */
  predicate Rectangular(t: Table) {
    forall i :: 0 <= i < |t.rows| ==> t.rows[i].Keys == t.columns
  }

  /** The union of the field names of a batch of records. */
  function KeysOf(recs: seq<Record>): (keys: set<string>)
    ensures forall i :: 0 <= i < |recs| ==> recs[i].Keys <= keys
  {
    if recs == [] then {}
    else
      var init := recs[..|recs| - 1];
      assert forall i :: 0 <= i < |init| ==> init[i] == recs[i];
      KeysOf(init) + recs[|recs| - 1].Keys
  }

  /** A record widened to `cols`, null where it has no value. */
  function Pad(r: Record, cols: set<string>): (p: Record)
    ensures p.Keys == cols
    ensures forall c :: c in cols ==> p[c] == if c in r then r[c] else Null
  {
    map c | c in cols :: if c in r then r[c] else Null
  }

  /** `pd.read_json` of a JSON array of objects. */
  function FromRecords(recs: seq<Record>): (t: Table)
    ensures t.columns == KeysOf(recs)
    ensures |t.rows| == |recs| && Rectangular(t)
  {
    var cols := KeysOf(recs);
    Table(cols, seq(|recs|, i requires 0 <= i < |recs| => Pad(recs[i], cols)))
  }

  /** `pd.concat([a, b])` / `a.append(b)`: b's rows after a's, over the union of the columns. */
  function Concat(a: Table, b: Table): (r: Table)
    requires Rectangular(a) && Rectangular(b)
    ensures r.columns == a.columns + b.columns
    ensures |r.rows| == |a.rows| + |b.rows| && Rectangular(r)
  {
    var cols := a.columns + b.columns;
    var top := seq(|a.rows|, i requires 0 <= i < |a.rows| => Pad(a.rows[i], cols));
    var bottom := seq(|b.rows|, j requires 0 <= j < |b.rows| => Pad(b.rows[j], cols));
    assert forall j :: 0 <= j < |b.rows| ==> (top + bottom)[|a.rows| + j] == bottom[j];
    Table(cols, top + bottom)
  }

  /** The field names of the objects held in column `col`, over all rows. */
  function SubKeys(rows: seq<Record>, col: string): (keys: set<string>)
    ensures forall i :: 0 <= i < |rows| && col in rows[i] && rows[i][col].Obj? ==>
      rows[i][col].fields.Keys <= keys
  {
    if rows == [] then {}
    else
      var last := rows[|rows| - 1];
      SubKeys(rows[..|rows| - 1], col) + (if col in last && last[col].Obj? then last[col].fields.Keys else {})
  }

  function Prefixed(prefix: string, keys: set<string>): set<string> {
    set k | k in keys :: prefix + k
  }

  /** Field `key` of an object value; null for any other value or a missing field (`pd.Series` of it). */
  function Field(v: Value, key: string): Value {
    if v.Obj? && key in v.fields then v.fields[key] else Null
  }

  /** Field `key` of the object in cell `col`, or null when the cell holds no such field. */
  function Cell(r: Record, col: string, key: string): Value {
    if col in r then Field(r[col], key) else Null
  }

  /** A prefixed name is in `Prefixed(prefix, keys)` exactly when the name after the prefix is a key. */
  lemma PrefixedMember(prefix: string, keys: set<string>, k: string)
    ensures prefix + k in Prefixed(prefix, keys) <==> k in keys
  {
    if prefix + k in Prefixed(prefix, keys) {
      var k' :| k' in keys && prefix + k' == prefix + k;
      PrefixInjective(prefix, k', k);
    }
  }

  /** Every prefixed name starts with any prefix of the prefix. */
  lemma PrefixedStartsWith(prefix: string, keys: set<string>, start: string, c: string)
    requires start <= prefix && c in Prefixed(prefix, keys)
    ensures start <= c
  {
    var k :| k in keys && c == prefix + k;
    assert c[..|start|] == prefix[..|start|];
  }

  lemma PrefixInjective(prefix: string, k1: string, k2: string)
    requires prefix + k1 == prefix + k2
    ensures k1 == k2
  {
    assert k1 == (prefix + k1)[|prefix|..];
    assert k2 == (prefix + k2)[|prefix|..];
  }

  /**
   * Row `r` with one extra cell `prefix + k` per key `k`, holding field `k`
   * of cell `col`. Where `prefix + k` already names a cell of `r` the new
   * value replaces it: a record holds one value per label.
   */
  function ExpandRow(r: Record, col: string, prefix: string, keys: set<string>): (e: Record)
    ensures e.Keys == r.Keys + Prefixed(prefix, keys)
    ensures forall c :: c in r && c !in Prefixed(prefix, keys) ==> e[c] == r[c]
    ensures forall k :: k in keys ==> e[prefix + k] == Cell(r, col, k)
  {
    var sub := map c | c in Prefixed(prefix, keys) ::
      Cell(r, col, if |prefix| <= |c| then c[|prefix|..] else c);
    assert forall k :: k in keys ==> sub[prefix + k] == Cell(r, col, k) by {
      forall k | k in keys
        ensures sub[prefix + k] == Cell(r, col, k)
      {
        assert (prefix + k)[|prefix|..] == k;
      }
    }
    r + sub
  }

  /**
   * `pd.concat([t, t[col].apply(pd.Series).add_prefix(prefix)], axis=1)`:
   * every field of the objects in column `col` becomes a column of its own,
   * named with `prefix`. Selecting a column the table lacks is a KeyError.
   */
  function ExpandColumn(t: Table, col: string, prefix: string): (r: Result<Table, FetchError>)
    requires Rectangular(t)
    ensures r.Failure? <==> col !in t.columns
    ensures r.Failure? ==> r.error == MissingColumn(col)
    ensures r.Success? ==>
      && r.value.columns == t.columns + Prefixed(prefix, SubKeys(t.rows, col))
      && |r.value.rows| == |t.rows| && Rectangular(r.value)
      && (forall i, c :: 0 <= i < |t.rows| && c in t.columns && c !in Prefixed(prefix, SubKeys(t.rows, col)) ==>
            r.value.rows[i][c] == t.rows[i][c])
      && (forall i, k :: 0 <= i < |t.rows| && k in SubKeys(t.rows, col) ==>
            r.value.rows[i][prefix + k] == Cell(t.rows[i], col, k))
  {
    if col !in t.columns then Failure(MissingColumn(col))
    else
      var keys := SubKeys(t.rows, col);
      Success(Table(t.columns + Prefixed(prefix, keys),
                    seq(|t.rows|, i requires 0 <= i < |t.rows| => ExpandRow(t.rows[i], col, prefix, keys))))
  }

  /** `del t[col]` / `t.drop(col, axis=1)`: a KeyError when the column is missing. */
  function DropColumn(t: Table, col: string): (r: Result<Table, FetchError>)
    requires Rectangular(t)
    ensures r.Failure? <==> col !in t.columns
    ensures r.Failure? ==> r.error == MissingColumn(col)
    ensures r.Success? ==>
      && r.value.columns == t.columns - {col}
      && |r.value.rows| == |t.rows| && Rectangular(r.value)
      && forall i, c :: 0 <= i < |t.rows| && c in r.value.columns ==> r.value.rows[i][c] == t.rows[i][c]
  {
    if col !in t.columns then Failure(MissingColumn(col))
    else Success(Table(t.columns - {col}, seq(|t.rows|, i requires 0 <= i < |t.rows| => t.rows[i] - {col})))
  }

  /** `t.assign(col=v)`: a column holding `v` in every row, replacing any column of that name. */
  function Assign(t: Table, col: string, v: Value): (r: Table)
    requires Rectangular(t)
    ensures r.columns == t.columns + {col}
    ensures |r.rows| == |t.rows| && Rectangular(r)
    ensures forall i :: 0 <= i < |t.rows| ==> r.rows[i][col] == v
    ensures forall i, c :: 0 <= i < |t.rows| && c in t.columns && c != col ==> r.rows[i][c] == t.rows[i][c]
  {
    Table(t.columns + {col}, seq(|t.rows|, i requires 0 <= i < |t.rows| => t.rows[i][col := v]))
  }

  lemma {:induction false} KeysOfAppend(a: seq<Record>, b: seq<Record>)
    ensures KeysOf(a + b) == KeysOf(a) + KeysOf(b)
  {
    if b == [] {
      assert a + b == a;
    } else {
      var b' := b[..|b| - 1];
      assert (a + b)[..|a + b| - 1] == a + b';
      assert (a + b)[|a + b| - 1] == b[|b| - 1];
      KeysOfAppend(a, b');
    }
  }

  lemma PadTwice(r: Record, inner: set<string>, outer: set<string>)
    requires r.Keys <= inner <= outer
    ensures Pad(Pad(r, inner), outer) == Pad(r, outer)
  {
  }

  lemma ConcatRowTop(a: seq<Record>, b: seq<Record>, i: nat)
    requires i < |a|
    requires KeysOf(a + b) == KeysOf(a) + KeysOf(b)
    ensures Concat(FromRecords(a), FromRecords(b)).rows[i] == FromRecords(a + b).rows[i]
  {
    var cols := KeysOf(a + b);
    assert Concat(FromRecords(a), FromRecords(b)).rows[i] == Pad(FromRecords(a).rows[i], cols);
    assert FromRecords(a).rows[i] == Pad(a[i], KeysOf(a));
    PadTwice(a[i], KeysOf(a), cols);
    assert (a + b)[i] == a[i];
  }

  lemma ConcatRowBottom(a: seq<Record>, b: seq<Record>, i: nat)
    requires |a| <= i < |a| + |b|
    requires KeysOf(a + b) == KeysOf(a) + KeysOf(b)
    ensures Concat(FromRecords(a), FromRecords(b)).rows[i] == FromRecords(a + b).rows[i]
  {
    var cols := KeysOf(a + b);
    var fb := FromRecords(b);
    var j := i - |a|;
    assert Concat(FromRecords(a), fb).rows[i] == Pad(fb.rows[j], cols);
    assert fb.rows[j] == Pad(b[j], KeysOf(b));
    PadTwice(b[j], KeysOf(b), cols);
    assert (a + b)[i] == b[j];
  }

  /** A record's own fields keep their values in the table read from its batch; the other columns read null. */
  lemma FromRecordsCells(recs: seq<Record>)
    ensures forall i, c :: 0 <= i < |recs| && c in FromRecords(recs).columns ==>
      FromRecords(recs).rows[i][c] == if c in recs[i] then recs[i][c] else Null
  {
  }

  /** Appending keeps every cell of both tables; a column one side lacks reads null on that side. */
  lemma ConcatCells(a: Table, b: Table)
    requires Rectangular(a) && Rectangular(b)
    ensures forall i, c :: 0 <= i < |a.rows| && c in a.columns + b.columns ==>
      Concat(a, b).rows[i][c] == if c in a.columns then a.rows[i][c] else Null
    ensures forall j, c :: 0 <= j < |b.rows| && c in a.columns + b.columns ==>
      Concat(a, b).rows[|a.rows| + j][c] == if c in b.columns then b.rows[j][c] else Null
  {
    var cols := a.columns + b.columns;
    var r := Concat(a, b);
    forall j, c | 0 <= j < |b.rows| && c in cols
      ensures r.rows[|a.rows| + j][c] == if c in b.columns then b.rows[j][c] else Null
    {
      assert r.rows[|a.rows| + j] == Pad(b.rows[j], cols);
    }
  }

  /** Reading two batches and appending them gives the table of the joined batch. */
  lemma ConcatFromRecords(a: seq<Record>, b: seq<Record>)
    ensures Concat(FromRecords(a), FromRecords(b)) == FromRecords(a + b)
  {
    KeysOfAppend(a, b);
    var l := Concat(FromRecords(a), FromRecords(b));
    var r := FromRecords(a + b);
    assert l.rows == r.rows by {
      forall i | 0 <= i < |l.rows|
        ensures l.rows[i] == r.rows[i]
      {
        if i < |a| {
          ConcatRowTop(a, b, i);
        } else {
          ConcatRowBottom(a, b, i);
        }
      }
    }
  }
}
