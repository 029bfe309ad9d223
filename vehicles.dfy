/**
 * A listing as the catalog receives it from the backend, and the look-ups by id that the
 * comparator does with `find`, `findIndex` and `map(v => v.id)`.
 */
module Vehicles {
  import opened Wrappers

  /**
   * One vehicle record. `version` and `mileage` may be missing in the backend's data;
   * prices, years and mileages are whole numbers here. `images` records `vehiculo.imagenes`,
   * the list the gallery is given when a vehicle's detail view is drawn.
   */
  datatype Vehicle = Vehicle(
    id: int,
    brand: string,
    kind: string,
    model: string,
    version: Option<string>,
    year: int,
    price: int,
    mileage: Option<int>,
    images: seq<string>)

  /** `vehiculos.map(v => v.id)`. */
  function Ids(vs: seq<Vehicle>): (r: seq<int>)
    ensures |r| == |vs|
    ensures forall k :: 0 <= k < |vs| ==> r[k] == vs[k].id
    ensures forall x :: x in r <==> exists v :: v in vs && v.id == x
  {
    seq(|vs|, k requires 0 <= k < |vs| => vs[k].id)
  }

  /** No two entries share an id. */
  predicate UniqueIds(vs: seq<Vehicle>) {
    forall i, j :: 0 <= i < j < |vs| ==> vs[i].id != vs[j].id
  }

  /** `findIndex(v => v.id === id)`: the first position holding `id`, if any. */
  function IndexOfId(vs: seq<Vehicle>, id: int): (r: Option<nat>)
    ensures r.None? <==> id !in Ids(vs)
    ensures r.Some? ==> r.value < |vs| && vs[r.value].id == id &&
                        forall k :: 0 <= k < r.value ==> vs[k].id != id
  {
    if vs == [] then None
    else if vs[0].id == id then Some(0)
    else match IndexOfId(vs[1..], id)
      case None => None
      case Some(k) => Some(k + 1)
  }

  /** `find(v => v.id === id)`: the first vehicle with that id, if any. */
  function FindById(vs: seq<Vehicle>, id: int): (r: Option<Vehicle>)
    ensures r.None? <==> id !in Ids(vs)
    ensures r.Some? ==> r.value in vs && r.value.id == id
    ensures r.Some? ==> exists k :: 0 <= k < |vs| && vs[k] == r.value &&
                                    forall j :: 0 <= j < k ==> vs[j].id != id
  {
    match IndexOfId(vs, id)
    case None => None
    case Some(k) => Some(vs[k])
  }
}
