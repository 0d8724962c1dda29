/** The study areas: iNaturalist place ids with their display names, in a fixed order. */
module Places {

  datatype Place = Place(id: int, name: string)

  /** No two places share an id. */
  predicate DistinctIds(places: seq<Place>) {
    forall i, j :: 0 <= i < j < |places| ==> places[i].id != places[j].id
  }

  /** No two places share a name. */
  predicate DistinctNames(places: seq<Place>) {
    forall i, j :: 0 <= i < j < |places| ==> places[i].name != places[j].name
  }
}
