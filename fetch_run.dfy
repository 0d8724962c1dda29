/**
 * The per-place loop of get_data.py: for every place, fetch and normalise
 * the introduced observations, then the native ones, join them and save the
 * table under the place's name. Any error ends the whole run; tables saved
 * before it stay saved.
 */
module FetchRun {
  import opened Wrappers
  import opened Frames
  import opened Paging
  import opened Normalise
  import opened Places

  /** What the loop body computes for one place, or the error that stops it. */
  function PlaceTable(server: Server, perPage: int, placeId: int): (r: Result<Table, FetchError>)
    requires perPage > 0
    ensures r.Success? ==> Rectangular(r.value)
  {
    var introduced :- FetchFrom(server(placeId, true), perPage, 1);
    var introducedRows :- NormaliseBatch(introduced, true, placeId);
    var native :- FetchFrom(server(placeId, false), perPage, 1);
    var nativeRows :- NormaliseBatch(native, false, placeId);
    Combine(introducedRows, nativeRows)
  }

  /** The native query is sent only once the introduced batch was fetched and flattened. */
  predicate ReachesNative(server: Server, perPage: int, placeId: int)
    requires perPage > 0
  {
    var introduced := FetchFrom(server(placeId, true), perPage, 1);
    introduced.Success? && NormaliseBatch(introduced.value, true, placeId).Success?
  }

  /**
   * One iteration of the per-place loop. It sets `place_id`, resets `page`
   * to 1 and sets `introduced` before each of the two fetches. It returns
   * the table to save, or the error, and the pages requested by each fetch.
   */
  method FetchPlace(p: ApiParams, server: Server, placeId: int)
    returns (r: Result<Table, FetchError>, introducedCalls: seq<int>, nativeCalls: seq<int>)
    requires p.perPage > 0
    modifies p
    ensures p.placeId == placeId && p.perPage == old(p.perPage)
    ensures r == PlaceTable(server, p.perPage, placeId)
    ensures introducedCalls == Requests(server(placeId, true), p.perPage, 1)
    ensures nativeCalls == if ReachesNative(server, p.perPage, placeId) then Requests(server(placeId, false), p.perPage, 1) else []
    ensures r.Success? ==> nativeCalls != []
    ensures p.introduced == (nativeCalls == []) && introducedCalls != []
    ensures p.page == if nativeCalls == [] then introducedCalls[|introducedCalls| - 1] else nativeCalls[|nativeCalls| - 1]
  {
    ghost var perPage := p.perPage;
    ghost var reaches := ReachesNative(server, perPage, placeId);
    nativeCalls := [];
    p.placeId := placeId;
    p.page := 1;
    p.introduced := true;
    var introduced;
    introduced, introducedCalls := GetData(p, server);
    if introduced.Failure? {
      assert !reaches;
      return Failure(introduced.error), introducedCalls, nativeCalls;
    }
    var introducedRows := NormaliseBatch(introduced.value, true, placeId);
    if introducedRows.Failure? {
      assert !reaches;
      return Failure(introducedRows.error), introducedCalls, nativeCalls;
    }
    assert reaches;

    p.page := 1;
    p.placeId := placeId;
    p.introduced := false;
    var native;
    native, nativeCalls := GetData(p, server);
    if native.Failure? {
      return Failure(native.error), introducedCalls, nativeCalls;
    }
    var nativeRows := NormaliseBatch(native.value, false, placeId);
    if nativeRows.Failure? {
      return Failure(nativeRows.error), introducedCalls, nativeCalls;
    }
    r := Combine(introducedRows.value, nativeRows.value);
  }

  /** The whole run over `places`: the saved tables by place name, and the error that stopped it, if any. */
  function RunAll(server: Server, perPage: int, places: seq<Place>, store: map<string, Table>): (out: (map<string, Table>, Option<FetchError>))
    requires perPage > 0
    ensures store.Keys <= out.0.Keys
    decreases |places|
  {
    if places == [] then (store, None)
    else match PlaceTable(server, perPage, places[0].id)
      case Failure(e) => (store, Some(e))
      case Success(t) => RunAll(server, perPage, places[1..], store[places[0].name := t])
  }

  /** The `for key, val in PLACES.items()` loop, saving each place's table under its name (`to_hdf`, mode "w"). */
  method FetchAll(p: ApiParams, server: Server, places: seq<Place>, store: map<string, Table>)
    returns (saved: map<string, Table>, err: Option<FetchError>)
    requires p.perPage > 0
    modifies p
    ensures (saved, err) == RunAll(server, old(p.perPage), places, store)
    ensures p.perPage == old(p.perPage)
    ensures places == [] ==> p.placeId == old(p.placeId) && p.page == old(p.page) && p.introduced == old(p.introduced)
    ensures places != [] && err.None? ==> p.placeId == places[|places| - 1].id && !p.introduced
  {
    ghost var perPage := p.perPage;
    saved := store;
    var k := 0;
    while k < |places|
      invariant 0 <= k <= |places| && p.perPage == perPage
      invariant RunAll(server, perPage, places, store) == RunAll(server, perPage, places[k..], saved)
      invariant k == 0 ==> p.placeId == old(p.placeId) && p.page == old(p.page) && p.introduced == old(p.introduced)
      invariant k > 0 ==> p.placeId == places[k - 1].id && !p.introduced
    {
      var r, _, nativeCalls := FetchPlace(p, server, places[k].id);
      RunAllStep(server, perPage, places[k..], saved);
      assert places[k..][1..] == places[k + 1..];
      if r.Failure? {
        return saved, Some(r.error);
      }
      saved := saved[places[k].name := r.value];
      k := k + 1;
    }
    err := None;
  }

  /** One turn of the run: the first place's table is saved, or its error ends the run. */
  lemma RunAllStep(server: Server, perPage: int, places: seq<Place>, store: map<string, Table>)
    requires perPage > 0 && places != []
    ensures var t := PlaceTable(server, perPage, places[0].id);
      RunAll(server, perPage, places, store) ==
        if t.Failure? then (store, Some(t.error)) else RunAll(server, perPage, places[1..], store[places[0].name := t.value])
  {
  }

  /**
   * A place's saved table holds its introduced rows, then its native rows,
   * one per observation fetched. Every row carries the place id, and
   * `introduced` is true exactly on the first part. None of the four nested
   * columns is left.
   */
  lemma PlaceTableTagged(server: Server, perPage: int, placeId: int, introduced: Table, native: Table, r: Table)
    requires perPage > 0
    requires FetchFrom(server(placeId, true), perPage, 1) == Success(introduced)
    requires FetchFrom(server(placeId, false), perPage, 1) == Success(native)
    requires PlaceTable(server, perPage, placeId) == Success(r)
    ensures |r.rows| == |introduced.rows| + |native.rows|
    ensures IntroducedColumn in r.columns && PlaceIdColumn in r.columns
    ensures forall i :: 0 <= i < |r.rows| ==>
      r.rows[i][IntroducedColumn] == Bool(i < |introduced.rows|) && r.rows[i][PlaceIdColumn] == Int(placeId)
    ensures forall n :: n in NestedColumns ==> n !in r.columns
  {
    FlattenAddsColumns(introduced);
    FlattenAddsColumns(native);
    var a, b := Flatten(introduced).value, Flatten(native).value;
    var ta, tb := Tag(a, true, placeId), Tag(b, false, placeId);
    assert PlaceTable(server, perPage, placeId) == Combine(ta, tb);
    PlaceRowsTagged(a, b, placeId);
    CombineDropsNested(ta, tb);
  }

  /**
   * The run reports an error exactly when some place fails, and then it is
   * the error of the first place that fails: the places before it all
   * succeeded.
   */
  lemma {:induction false} RunAllError(server: Server, perPage: int, places: seq<Place>, store: map<string, Table>)
    requires perPage > 0
    ensures RunAll(server, perPage, places, store).1.Some? <==>
      exists j :: 0 <= j < |places| && PlaceTable(server, perPage, places[j].id).Failure?
    ensures var out := RunAll(server, perPage, places, store);
      out.1.Some? ==> exists j :: (0 <= j < |places| && PlaceTable(server, perPage, places[j].id) == Failure(out.1.value) &&
        forall j' :: 0 <= j' < j ==> PlaceTable(server, perPage, places[j'].id).Success?)
    decreases |places|
  {
    if places != [] {
      var first := PlaceTable(server, perPage, places[0].id);
      if first.Success? {
        var rest := places[1..];
        RunAllError(server, perPage, rest, store[places[0].name := first.value]);
        forall j | 0 <= j < |rest|
          ensures PlaceTable(server, perPage, rest[j].id) == PlaceTable(server, perPage, places[j + 1].id)
        {
        }
        var out := RunAll(server, perPage, places, store);
        if out.1.Some? {
          var j :| 0 <= j < |rest| && PlaceTable(server, perPage, rest[j].id) == Failure(out.1.value) &&
            (forall j' :: 0 <= j' < j ==> PlaceTable(server, perPage, rest[j'].id).Success?);
          assert PlaceTable(server, perPage, places[j + 1].id) == Failure(out.1.value);
          forall j' | 0 <= j' < j + 1
            ensures PlaceTable(server, perPage, places[j'].id).Success?
          {
            if j' > 0 {
              assert places[j'] == rest[j' - 1];
            }
          }
        } else {
          forall j | 0 <= j < |places|
            ensures PlaceTable(server, perPage, places[j].id).Success?
          {
            if j > 0 {
              assert places[j] == rest[j - 1];
            }
          }
        }
      }
    }
  }

  lemma DistinctNamesTail(places: seq<Place>)
    requires |places| >= 1 && DistinctNames(places)
    ensures DistinctNames(places[1..])
    ensures forall k :: 0 <= k < |places| - 1 ==> places[1..][k].name != places[0].name
  {
    var rest := places[1..];
    forall i, j | 0 <= i < j < |rest|
      ensures rest[i].name != rest[j].name
    {
      assert rest[i] == places[i + 1] && rest[j] == places[j + 1];
    }
  }

  /**
   * Every place that was reached and succeeded has its table saved under its
   * name (names are distinct).
   */
  lemma {:induction false} RunAllStored(server: Server, perPage: int, places: seq<Place>, store: map<string, Table>)
    requires perPage > 0 && DistinctNames(places)
    ensures var out := RunAll(server, perPage, places, store);
      forall j :: 0 <= j < |places| && (forall j' :: 0 <= j' <= j ==> PlaceTable(server, perPage, places[j'].id).Success?) ==>
        places[j].name in out.0 && out.0[places[j].name] == PlaceTable(server, perPage, places[j].id).value
    decreases |places|
  {
    if places != [] {
      var first := PlaceTable(server, perPage, places[0].id);
      if first.Success? {
        var rest := places[1..];
        var store' := store[places[0].name := first.value];
        DistinctNamesTail(places);
        RunAllStored(server, perPage, rest, store');
        RunAllKeeps(server, perPage, rest, store');
        var out := RunAll(server, perPage, places, store);
        assert out == RunAll(server, perPage, rest, store');
        forall j | 0 <= j < |places| && (forall j' :: 0 <= j' <= j ==> PlaceTable(server, perPage, places[j'].id).Success?)
          ensures places[j].name in out.0 && out.0[places[j].name] == PlaceTable(server, perPage, places[j].id).value
        {
          if j > 0 {
            assert places[j] == rest[j - 1];
            forall j' | 0 <= j' <= j - 1
              ensures PlaceTable(server, perPage, rest[j'].id).Success?
            {
              assert rest[j'] == places[j' + 1];
            }
          }
        }
      }
    }
  }

  /** A name outside `places` keeps what the store held. */
  lemma {:induction false} RunAllKeeps(server: Server, perPage: int, places: seq<Place>, store: map<string, Table>)
    requires perPage > 0
    ensures var out := RunAll(server, perPage, places, store);
      forall name :: name in store && (forall j :: 0 <= j < |places| ==> places[j].name != name) ==> out.0[name] == store[name]
    decreases |places|
  {
    if places != [] {
      var first := PlaceTable(server, perPage, places[0].id);
      if first.Success? {
        var rest := places[1..];
        var store' := store[places[0].name := first.value];
        RunAllKeeps(server, perPage, rest, store');
        forall name | name in store && (forall j :: 0 <= j < |places| ==> places[j].name != name)
          ensures forall k :: 0 <= k < |rest| ==> rest[k].name != name
        {
          forall k | 0 <= k < |rest|
            ensures rest[k].name != name
          {
            assert rest[k] == places[k + 1];
          }
        }
      }
    }
  }

  /**
   * A place with no introduced observations stops the run: the first page
   * comes back empty, the frame read from it has no `taxon` column, and
   * selecting that column fails.
   */
  lemma NoIntroducedFails(server: Server, perPage: int, placeId: int)
    requires perPage > 0 && Answer(server(placeId, true), 1) == Response(StatusOk, [])
    ensures PlaceTable(server, perPage, placeId) == Failure(MissingColumn(TaxonColumn))
  {
    var empty := FromRecords([]);
    assert FetchFrom(server(placeId, true), perPage, 1) == Success(empty);
    FlattenFailsIff(empty);
  }
}
