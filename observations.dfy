/**
 * The observation records analyse_data.py works on, and the relabelling at
 * its start: `introduced` True/False becomes "Introduced"/"Native", and a
 * place id becomes the place's display name.
 */
module Observations {
  import opened Wrappers
  import opened Places

  type Month = m: int | 1 <= m <= 12 witness 1

  /** A calendar day, as `observed_on` parses to. */
  datatype Date = Date(year: int, month: Month, day: int)

  /**
   * One saved observation, reduced to the columns the analysis reads:
   * `id`, `introduced`, `place_id`, `taxon__common_name_name` (missing when
   * the taxon has no common name) and `observed_on` (absent when missing; the
   * program aborts on an unparsable date, so none occurs here).
   */
  datatype Obs = Obs(id: int, introduced: bool, placeId: int, species: Option<string>, observedOn: Option<Date>)

  datatype Status = Introduced | Native

  /** A place name, or the raw id when the id is not one of the study places. */
  datatype Location = Named(name: string) | Unmapped(id: int)

  /** An observation after relabelling. */
  datatype Row = Row(id: int, status: Status, location: Location, species: Option<string>, observedOn: Option<Date>)

  /** `{True: "Introduced", False: "Native"}` */
  function StatusOf(introduced: bool): (s: Status)
    ensures s == Introduced <==> introduced
  {
    if introduced then Introduced else Native
  }

  /** `replace({"place_id": INT_PLACES})`: the place's name, or the id unchanged when no place has it. */
  function LocationOf(places: seq<Place>, placeId: int): (l: Location)
    ensures l.Unmapped? <==> forall j :: 0 <= j < |places| ==> places[j].id != placeId
    ensures l.Unmapped? ==> l.id == placeId
    ensures l.Named? ==> exists j :: 0 <= j < |places| && places[j].id == placeId && places[j].name == l.name
    decreases |places|
  {
    if places == [] then Unmapped(placeId)
    else if places[0].id == placeId then Named(places[0].name)
    else
      var l := LocationOf(places[1..], placeId);
      assert forall j :: 1 <= j < |places| ==> places[j] == places[1..][j - 1];
      l
  }

  /** With distinct ids, an id that belongs to a place is mapped to that place's name. */
  lemma {:induction false} LocationOfPlace(places: seq<Place>, j: int)
    requires DistinctIds(places) && 0 <= j < |places|
    ensures LocationOf(places, places[j].id) == Named(places[j].name)
    decreases j
  {
    if j > 0 {
      var rest := places[1..];
      assert rest[j - 1] == places[j];
      assert DistinctIds(rest) by {
        forall a, b | 0 <= a < b < |rest|
          ensures rest[a].id != rest[b].id
        {
          assert rest[a] == places[a + 1] && rest[b] == places[b + 1];
        }
      }
      LocationOfPlace(rest, j - 1);
    }
  }

  /** Relabel every observation; rows, their order and their other fields are kept. */
  function Label(obs: seq<Obs>, places: seq<Place>): (rows: seq<Row>)
    ensures |rows| == |obs|
    ensures forall i :: 0 <= i < |obs| ==>
      && rows[i].id == obs[i].id
      && (rows[i].status == Introduced <==> obs[i].introduced)
      && rows[i].location == LocationOf(places, obs[i].placeId)
      && rows[i].species == obs[i].species && rows[i].observedOn == obs[i].observedOn
  {
    seq(|obs|, i requires 0 <= i < |obs| =>
      Row(obs[i].id, StatusOf(obs[i].introduced), LocationOf(places, obs[i].placeId), obs[i].species, obs[i].observedOn))
  }
}
