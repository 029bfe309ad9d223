/**
 * The comparison list (`Comparador`): at most four listings, one per id, toggled in and out
 * by id, saved as the list of their ids and rebuilt from a saved id list against the catalog.
 */
module Comparison {
  import opened Wrappers
  import opened Sequences
  import opened Vehicles

  /** `CONFIG.MAX_COMPARACION`. */
  const MaxComparison: nat := 4

  /** What the comparison list keeps true: within the limit, one entry per id, every entry from the catalog. */
  predicate Invariant(cmp: seq<Vehicle>, catalog: seq<Vehicle>) {
    |cmp| <= MaxComparison && UniqueIds(cmp) && forall k :: 0 <= k < |cmp| ==> cmp[k] in catalog
  }

  /** `toggleVehiculo` goes past its early returns: the id is in the catalog, and it is either already compared or there is room. */
  predicate ToggleAccepted(cmp: seq<Vehicle>, catalog: seq<Vehicle>, id: int) {
    id in Ids(catalog) && (id in Ids(cmp) || |cmp| < MaxComparison)
  }

  /** The list after `toggleVehiculo(id)`: `splice` out a present id, `push` an absent one when there is room. */
  function Toggled(cmp: seq<Vehicle>, catalog: seq<Vehicle>, id: int): seq<Vehicle> {
    match FindById(catalog, id)
    case None => cmp
    case Some(v) =>
      match IndexOfId(cmp, id)
      case Some(k) => RemoveAt(cmp, k)
      case None => if |cmp| >= MaxComparison then cmp else cmp + [v]
  }

  /** The list with every entry of id `id` left out, the others in their order. */
  function WithoutId(cmp: seq<Vehicle>, id: int): seq<Vehicle> {
    Select(cmp, (v: Vehicle) => v.id != id)
  }

  /** An unknown id, or an absent id when the list is full, changes nothing. */
  lemma ToggleRejected(cmp: seq<Vehicle>, catalog: seq<Vehicle>, id: int)
    requires !ToggleAccepted(cmp, catalog, id)
    ensures Toggled(cmp, catalog, id) == cmp
  {
  }

  /** `splice(k, 1)`: the list with the entry at `k` taken out. */
  function RemoveAt(cmp: seq<Vehicle>, k: int): (r: seq<Vehicle>)
    requires 0 <= k < |cmp|
    ensures |r| == |cmp| - 1
    ensures forall i :: 0 <= i < |r| ==> r[i] == cmp[if i < k then i else i + 1]
  {
    cmp[..k] + cmp[k + 1..]
  }

  /** When position `k` holds the only entry with id `id`, leaving out that id is taking out that entry. */
  lemma {:induction false} WithoutIdAt(cmp: seq<Vehicle>, id: int, k: int)
    requires 0 <= k < |cmp| && cmp[k].id == id
    requires forall j :: 0 <= j < |cmp| && j != k ==> cmp[j].id != id
    ensures WithoutId(cmp, id) == RemoveAt(cmp, k)
    decreases k
  {
    var p := (v: Vehicle) => v.id != id;
    var tail := cmp[1..];
    if k == 0 {
      forall j | 0 <= j < |tail| ensures p(tail[j]) {
        assert tail[j] == cmp[j + 1];
      }
      SelectEverything(tail, p);
      assert RemoveAt(cmp, 0) == tail;
    } else {
      forall j | 0 <= j < |tail| && j != k - 1 ensures tail[j].id != id {
        assert tail[j] == cmp[j + 1];
      }
      WithoutIdAt(tail, id, k - 1);
      assert WithoutId(cmp, id) == [cmp[0]] + WithoutId(tail, id);
      assert [cmp[0]] + tail[..k - 1] == cmp[..k];
      assert tail[k..] == cmp[k + 1..];
    }
  }

  /** Toggling a compared id removes exactly that entry and keeps the others in order. */
  lemma ToggleRemoves(cmp: seq<Vehicle>, catalog: seq<Vehicle>, id: int)
    requires UniqueIds(cmp) && id in Ids(cmp) && id in Ids(catalog)
    ensures Toggled(cmp, catalog, id) == WithoutId(cmp, id)
  {
    var k := IndexOfId(cmp, id).value;
    assert Toggled(cmp, catalog, id) == RemoveAt(cmp, k);
    forall j | 0 <= j < |cmp| && j != k ensures cmp[j].id != id {
      if j < k {
        assert cmp[j].id != cmp[k].id;
      } else {
        assert cmp[k].id != cmp[j].id;
      }
    }
    WithoutIdAt(cmp, id, k);
  }

  /** Toggling an id that is not compared, with room left, appends the catalog's listing. */
  lemma ToggleAppends(cmp: seq<Vehicle>, catalog: seq<Vehicle>, id: int)
    requires id !in Ids(cmp) && |cmp| < MaxComparison && id in Ids(catalog)
    ensures Toggled(cmp, catalog, id) == cmp + [FindById(catalog, id).value]
  {
  }

  /** Taking an entry out keeps the invariant. */
  lemma RemoveKeepsInvariant(cmp: seq<Vehicle>, catalog: seq<Vehicle>, k: int)
    requires Invariant(cmp, catalog) && 0 <= k < |cmp|
    ensures Invariant(RemoveAt(cmp, k), catalog)
  {
    var r := RemoveAt(cmp, k);
    forall i, j | 0 <= i < j < |r| ensures r[i].id != r[j].id {
      var i', j' := if i < k then i else i + 1, if j < k then j else j + 1;
      assert r[i] == cmp[i'] && r[j] == cmp[j'] && i' < j';
    }
    forall i | 0 <= i < |r| ensures r[i] in catalog {
      assert r[i] == cmp[if i < k then i else i + 1];
    }
  }

  /** Appending a catalog listing with a new id to a list with room keeps the invariant. */
  lemma AppendKeepsInvariant(cmp: seq<Vehicle>, catalog: seq<Vehicle>, v: Vehicle)
    requires Invariant(cmp, catalog) && |cmp| < MaxComparison
    requires v in catalog && v.id !in Ids(cmp)
    ensures Invariant(cmp + [v], catalog)
  {
    var r := cmp + [v];
    forall i, j | 0 <= i < j < |r| ensures r[i].id != r[j].id {
      if j == |cmp| {
        assert Ids(cmp)[i] == cmp[i].id;
      }
    }
  }

  /** Toggling keeps the list within four entries, one per id, all from the catalog. */
  lemma ToggleKeepsInvariant(cmp: seq<Vehicle>, catalog: seq<Vehicle>, id: int)
    requires Invariant(cmp, catalog)
    ensures Invariant(Toggled(cmp, catalog, id), catalog)
  {
    if ToggleAccepted(cmp, catalog, id) {
      var v := FindById(catalog, id).value;
      if id in Ids(cmp) {
        RemoveKeepsInvariant(cmp, catalog, IndexOfId(cmp, id).value);
      } else {
        AppendKeepsInvariant(cmp, catalog, v);
      }
    }
  }

  /** After taking out entry `k`, every id left was there before and is not entry `k`'s. */
  lemma IdsRemoveAtFrom(cmp: seq<Vehicle>, k: int, x: int)
    requires UniqueIds(cmp) && 0 <= k < |cmp| && x in Ids(RemoveAt(cmp, k))
    ensures x in Ids(cmp) && x != cmp[k].id
  {
    var r := RemoveAt(cmp, k);
    var m :| 0 <= m < |r| && Ids(r)[m] == x;
    var m' := if m < k then m else m + 1;
    assert r[m] == cmp[m'] && r[m].id == x;
    assert Ids(cmp)[m'] == x;
  }

  /** Taking out entry `k` keeps every id other than entry `k`'s. */
  lemma IdsRemoveAtKeeps(cmp: seq<Vehicle>, k: int, x: int)
    requires 0 <= k < |cmp| && x in Ids(cmp) && x != cmp[k].id
    ensures x in Ids(RemoveAt(cmp, k))
  {
    var r := RemoveAt(cmp, k);
    var j :| 0 <= j < |cmp| && Ids(cmp)[j] == x;
    var m := if j < k then j else j - 1;
    assert r[m] == cmp[j];
    assert Ids(r)[m] == x;
  }

  /** Taking out entry `k` of a list with unique ids removes exactly that entry's id. */
  lemma IdsRemoveAt(cmp: seq<Vehicle>, k: int, x: int)
    requires UniqueIds(cmp) && 0 <= k < |cmp|
    ensures x in Ids(RemoveAt(cmp, k)) <==> x in Ids(cmp) && x != cmp[k].id
  {
    if x in Ids(RemoveAt(cmp, k)) {
      IdsRemoveAtFrom(cmp, k, x);
    }
    if x in Ids(cmp) && x != cmp[k].id {
      IdsRemoveAtKeeps(cmp, k, x);
    }
  }

  /** An accepted toggle flips whether `id` is compared and leaves every other id as it was. */
  lemma ToggleFlipsMembership(cmp: seq<Vehicle>, catalog: seq<Vehicle>, id: int, other: int)
    requires UniqueIds(cmp) && ToggleAccepted(cmp, catalog, id)
    ensures id in Ids(Toggled(cmp, catalog, id)) <==> id !in Ids(cmp)
    ensures other != id ==> (other in Ids(Toggled(cmp, catalog, id)) <==> other in Ids(cmp))
  {
    var r := Toggled(cmp, catalog, id);
    if id in Ids(cmp) {
      var k := IndexOfId(cmp, id).value;
      assert r == RemoveAt(cmp, k);
      IdsRemoveAt(cmp, k, id);
      IdsRemoveAt(cmp, k, other);
    } else {
      assert r == cmp + [FindById(catalog, id).value];
      assert Ids(r) == Ids(cmp) + [id];
    }
  }

  /** Adding an absent id and toggling it again gives back the original list. */
  lemma ToggleTwiceFromAbsent(cmp: seq<Vehicle>, catalog: seq<Vehicle>, id: int)
    requires id !in Ids(cmp) && |cmp| < MaxComparison && id in Ids(catalog)
    ensures Toggled(Toggled(cmp, catalog, id), catalog, id) == cmp
  {
    var v := FindById(catalog, id).value;
    var r := cmp + [v];
    assert Toggled(cmp, catalog, id) == r;
    forall k | 0 <= k < |cmp| ensures r[k].id != id {
      assert Ids(cmp)[k] == cmp[k].id;
    }
    assert Ids(r)[|cmp|] == id;
    assert IndexOfId(r, id) == Some(|cmp|);
    assert RemoveAt(r, |cmp|) == cmp;
  }

  /**
   * Removing a compared id and toggling it again brings the same listing back, at the end:
   * the membership is restored, the order in general is not.
   */
  lemma ToggleTwiceFromPresent(cmp: seq<Vehicle>, catalog: seq<Vehicle>, id: int)
    requires Invariant(cmp, catalog) && UniqueIds(catalog) && id in Ids(cmp)
    ensures Toggled(Toggled(cmp, catalog, id), catalog, id) == WithoutId(cmp, id) + [FindById(catalog, id).value]
    ensures forall v :: v in Toggled(Toggled(cmp, catalog, id), catalog, id) <==> v in cmp
  {
    var v := FindById(catalog, id).value;
    var k := IndexOfId(cmp, id).value;
    ToggleKeepsInvariant(cmp, catalog, id);
    var r1 := Toggled(cmp, catalog, id);
    ToggleRemoves(cmp, catalog, id);
    ToggleFlipsMembership(cmp, catalog, id, id);
    assert |r1| < |cmp| <= MaxComparison;
    ToggleAppends(r1, catalog, id);
    var r2 := r1 + [v];
    assert cmp[k] == v by {
      assert cmp[k] in catalog && v in catalog && cmp[k].id == v.id;
    }
    var p := (x: Vehicle) => x.id != id;
    forall x ensures x in r2 <==> x in cmp {
      SelectMembers(cmp, p, x);
    }
  }

  /** `vehiculos.filter(v => ids.includes(v.id))`: the catalog's listings named by the saved ids, in catalog order. */
  function Loaded(catalog: seq<Vehicle>, ids: seq<int>): seq<Vehicle> {
    Select(catalog, (v: Vehicle) => v.id in ids)
  }

  /** A listing is reloaded exactly when it is in the catalog and its id was saved; the catalog order is kept. */
  lemma LoadedExact(catalog: seq<Vehicle>, ids: seq<int>, v: Vehicle)
    ensures v in Loaded(catalog, ids) <==> v in catalog && v.id in ids
    ensures IsSubsequence(Loaded(catalog, ids), catalog)
  {
    SelectMembers(catalog, (v: Vehicle) => v.id in ids, v);
    SelectSubsequence(catalog, (v: Vehicle) => v.id in ids);
  }

  /** Saved ids that name no listing are dropped without effect. */
  lemma LoadedIgnoresUnknownIds(catalog: seq<Vehicle>, ids: seq<int>)
    ensures Loaded(catalog, ids) == Loaded(catalog, Select(ids, i => i in Ids(catalog)))
  {
    var known := Select(ids, i => i in Ids(catalog));
    forall k | 0 <= k < |catalog| ensures catalog[k].id in ids <==> catalog[k].id in known {
      SelectMembers(ids, i => i in Ids(catalog), catalog[k].id);
      assert Ids(catalog)[k] == catalog[k].id;
    }
    LoadedSameIds(catalog, ids, known);
  }

  lemma {:induction false} LoadedSameIds(catalog: seq<Vehicle>, a: seq<int>, b: seq<int>)
    requires forall k :: 0 <= k < |catalog| ==> (catalog[k].id in a <==> catalog[k].id in b)
    ensures Loaded(catalog, a) == Loaded(catalog, b)
  {
    if catalog != [] {
      LoadedSameIds(catalog[1..], a, b);
    }
  }

  /** Reloading from a catalog with unique ids gives a list with unique ids. */
  lemma {:induction false} LoadedUnique(catalog: seq<Vehicle>, ids: seq<int>)
    requires UniqueIds(catalog)
    ensures UniqueIds(Loaded(catalog, ids))
  {
    if catalog != [] {
      var rest := catalog[1..];
      assert UniqueIds(rest) by {
        forall i, j | 0 <= i < j < |rest| ensures rest[i].id != rest[j].id {
          assert rest[i] == catalog[i + 1] && rest[j] == catalog[j + 1];
        }
      }
      LoadedUnique(rest, ids);
      var r := Loaded(rest, ids);
      if catalog[0].id in ids {
        forall j | 0 <= j < |r| ensures r[j].id != catalog[0].id {
          SelectMembers(rest, (v: Vehicle) => v.id in ids, r[j]);
          var m :| 0 <= m < |rest| && rest[m] == r[j];
          assert catalog[m + 1] == r[j];
        }
        assert Loaded(catalog, ids) == [catalog[0]] + r;
      }
    }
  }

  /** Over a catalog with unique ids, a reloaded list is never longer than the saved id list. */
  lemma LoadedBound(catalog: seq<Vehicle>, ids: seq<int>)
    requires UniqueIds(catalog)
    ensures |Loaded(catalog, ids)| <= |ids|
  {
    var r := Loaded(catalog, ids);
    LoadedUnique(catalog, ids);
    var rids := Ids(r);
    assert Distinct(rids);
    DistinctSetSize(rids);
    SetSizeAtMost(ids);
    forall x | x in rids ensures x in ids {
      var j :| 0 <= j < |rids| && rids[j] == x;
      SelectMembers(catalog, (v: Vehicle) => v.id in ids, r[j]);
    }
    var a, b := (set x | x in rids), (set x | x in ids);
    assert a <= b;
    assert b == a + (b - a);
  }

  /**
   * Saving and reloading against the same catalog gives back the same listings (in catalog
   * order, which may differ from the order in which they were added).
   */
  lemma SaveLoadRoundTrip(cmp: seq<Vehicle>, catalog: seq<Vehicle>)
    requires Invariant(cmp, catalog) && UniqueIds(catalog)
    ensures forall v :: v in Loaded(catalog, Ids(cmp)) <==> v in cmp
    ensures |Loaded(catalog, Ids(cmp))| == |cmp|
    ensures Invariant(Loaded(catalog, Ids(cmp)), catalog)
  {
    var r := Loaded(catalog, Ids(cmp));
    var p := (v: Vehicle) => v.id in Ids(cmp);
    forall v ensures v in r <==> v in cmp {
      SelectMembers(catalog, p, v);
      if v in r {
        var j :| 0 <= j < |cmp| && cmp[j].id == v.id;
        assert cmp[j] in catalog;
      }
      if v in cmp {
        var j :| 0 <= j < |cmp| && cmp[j] == v;
        assert Ids(cmp)[j] == v.id;
      }
    }
    LoadedUnique(catalog, Ids(cmp));
    assert Distinct(r) by {
      forall i, j | 0 <= i < j < |r| ensures r[i] != r[j] {
        assert r[i].id != r[j].id;
      }
    }
    assert Distinct(cmp) by {
      forall i, j | 0 <= i < j < |cmp| ensures cmp[i] != cmp[j] {
        assert cmp[i].id != cmp[j].id;
      }
    }
    DistinctSetSize(r);
    DistinctSetSize(cmp);
    assert (set x | x in r) == (set x | x in cmp);
    forall k | 0 <= k < |r| ensures r[k] in catalog {
      assert r[k] in cmp;
    }
  }
}
