/**
 * The shared application state (`AppState`) together with the catalog operations of
 * `Catalogo` and the comparison operations of `Comparador` that update it in place, and the
 * `comparacion` entry of the browser's local storage that the comparison is saved to.
 */
module State {
  import opened Wrappers
  import opened Sequences
  import opened Vehicles
  import opened Filtering
  import opened Paging
  import opened Sorting
  import opened Comparison

  /** The part of `AppState` the catalog and the comparison work on. */
  class AppState {
    /** `vehiculos`: the catalog as received. */
    var vehicles: seq<Vehicle>
    /** `vehiculosFiltrados`: the view the catalog pages through. */
    var filtered: seq<Vehicle>
    /** `carroComparacion`. */
    var comparison: seq<Vehicle>
    /** `paginaActual`, counted from 1. */
    var page: int
    /** `filtrosActivos`: `None` for the empty object `{}`. */
    var active: Option<ActiveFilters>
    /** `localStorage['comparacion']`, the saved id list; `None` when nothing was ever saved. */
    var stored: Option<seq<int>>

    /** The current page is a page number. */
    predicate Valid()
      reads this
    {
      page >= 1
    }

    /** The current page exists, or is page 1 of an empty view. */
    predicate PageInRange()
      reads this
    {
      1 <= page <= if PageCount(|filtered|) == 0 then 1 else PageCount(|filtered|)
    }

    /** The comparison holds at most four listings of the catalog, one per id. */
    predicate ComparisonValid()
      reads this
    {
      Invariant(comparison, vehicles)
    }

    /** The state before the catalog is loaded, with whatever the storage holds. */
    constructor(storage: Option<seq<int>>)
      ensures vehicles == [] && filtered == [] && comparison == []
      ensures page == 1 && active == None && stored == storage
      ensures Valid() && PageInRange() && ComparisonValid()
    {
      vehicles := [];
      filtered := [];
      comparison := [];
      page := 1;
      active := None;
      stored := storage;
    }

    /** `cargarVehiculos` once the response has arrived: the view starts as a copy of the catalog. */
    method LoadCatalog(catalog: seq<Vehicle>)
      modifies this
      ensures vehicles == catalog && filtered == catalog
      ensures comparison == old(comparison) && page == old(page)
      ensures active == old(active) && stored == old(stored)
      ensures old(Valid()) ==> Valid()
    {
      vehicles := catalog;
      filtered := catalog;
    }

    /** `aplicarFiltros`: record the resolved filter, filter the catalog and go back to page 1. */
    method ApplyFilters(form: FilterForm)
      modifies this
      ensures active == Some(Resolve(form))
      ensures filtered == FilterVehicles(vehicles, Resolve(form))
      ensures page == 1
      ensures vehicles == old(vehicles) && comparison == old(comparison) && stored == old(stored)
      ensures Valid() && PageInRange()
      ensures old(ComparisonValid()) ==> ComparisonValid()
    {
      var f := Resolve(form);
      active := Some(f);
      filtered := FilterVehicles(vehicles, f);
      page := 1;
    }

    /** `limpiarFiltros`: forget the filter, show the whole catalog from page 1. */
    method ClearFilters()
      modifies this
      ensures active == None && filtered == vehicles && page == 1
      ensures vehicles == old(vehicles) && comparison == old(comparison) && stored == old(stored)
      ensures Valid() && PageInRange()
      ensures old(ComparisonValid()) ==> ComparisonValid()
    {
      active := None;
      filtered := vehicles;
      page := 1;
    }

    /** `irAPagina`: move to page `p` when it exists, otherwise stay. */
    method GoToPage(p: int)
      modifies this
      ensures page == (if 1 <= p <= PageCount(|filtered|) then p else old(page))
      ensures filtered == old(filtered) && vehicles == old(vehicles)
      ensures comparison == old(comparison) && active == old(active) && stored == old(stored)
      ensures old(Valid()) ==> Valid()
      ensures old(PageInRange()) ==> PageInRange()
    {
      if p >= 1 && p <= PageCount(|filtered|) {
        page := p;
      }
    }

    /** `ordenarPor`: sort the view in place by a known criterion; `None` stands for an unknown one. */
    method SortBy(c: Option<Criterion>)
      modifies this
      ensures c.None? ==> filtered == old(filtered)
      ensures c.Some? ==> filtered == SortVehicles(old(filtered), c.value)
      ensures multiset(filtered) == multiset(old(filtered))
      ensures page == old(page) && vehicles == old(vehicles)
      ensures comparison == old(comparison) && active == old(active) && stored == old(stored)
      ensures old(Valid()) ==> Valid()
      ensures old(PageInRange()) ==> PageInRange()
    {
      if c.Some? {
        SortVehiclesCorrect(filtered, c.value, 0);
        filtered := SortVehicles(filtered, c.value);
      }
    }

    /**
     * `renderizarCatalogo`: the listings of the current page and what happens to
     * `renderizarPaginacion`'s bar. An empty page returns before the bar is drawn, so the bar
     * is left as it was (`None`); otherwise it is redrawn with its numbered part
     * (`Some(entries)`, empty for a single page, which clears it).
     */
    method RenderCatalog() returns (items: seq<Vehicle>, bar: Option<seq<Entry>>)
      requires Valid()
      ensures items == PageItems(filtered, page)
      ensures items == [] <==> bar.None?
      ensures items != [] ==> bar == Some(Window(PageCount(|filtered|), page))
      ensures PageInRange() && filtered != [] ==> items != []
    {
      items := PageItems(filtered, page);
      if items == [] {
        bar := None;
      } else {
        var buttons := PageButtons(PageCount(|filtered|), page);
        bar := Some(buttons);
      }
    }

    /**
     * `toggleVehiculo`: add or remove the listing `id`; an accepted change is saved, a rejected
     * one (unknown id, or the list is full) changes nothing, storage included.
     */
    method ToggleComparison(id: int)
      modifies this
      ensures comparison == Toggled(old(comparison), vehicles, id)
      ensures ToggleAccepted(old(comparison), vehicles, id) ==> stored == Some(Ids(comparison))
      ensures !ToggleAccepted(old(comparison), vehicles, id) ==> comparison == old(comparison) && stored == old(stored)
      ensures vehicles == old(vehicles) && filtered == old(filtered)
      ensures page == old(page) && active == old(active)
      ensures old(ComparisonValid()) ==> ComparisonValid()
    {
      if ComparisonValid() {
        ToggleKeepsInvariant(comparison, vehicles, id);
      }
      var found := FindById(vehicles, id);
      if found.None? {
        return;
      }
      var index := IndexOfId(comparison, id);
      if index.Some? {
        comparison := comparison[..index.value] + comparison[index.value + 1..];
      } else {
        if |comparison| >= MaxComparison {
          return;
        }
        comparison := comparison + [found.value];
      }
      SaveComparison();
    }

    /** `guardarEnStorage`: save the ids of the compared listings. */
    method SaveComparison()
      modifies this
      ensures stored == Some(Ids(comparison))
      ensures comparison == old(comparison) && vehicles == old(vehicles) && filtered == old(filtered)
      ensures page == old(page) && active == old(active)
    {
      stored := Some(Ids(comparison));
    }

    /**
     * `cargarDesdeStorage`: rebuild the comparison from the saved ids (`'[]'` when nothing was
     * saved). Over a catalog with unique ids, the limit of four holds afterwards if the saved list had
     * at most four ids.
     */
    method LoadComparison()
      modifies this
      ensures comparison == Loaded(vehicles, stored.GetOr([]))
      ensures vehicles == old(vehicles) && filtered == old(filtered)
      ensures page == old(page) && active == old(active) && stored == old(stored)
      ensures UniqueIds(vehicles) && |stored.GetOr([])| <= MaxComparison ==> ComparisonValid()
    {
      var ids := stored.GetOr([]);
      if UniqueIds(vehicles) {
        LoadedUnique(vehicles, ids);
        LoadedBound(vehicles, ids);
        forall k | 0 <= k < |Loaded(vehicles, ids)| ensures Loaded(vehicles, ids)[k] in vehicles {
          LoadedExact(vehicles, ids, Loaded(vehicles, ids)[k]);
        }
      }
      comparison := Loaded(vehicles, ids);
    }

    /** `limpiar`: empty the comparison and save the empty list. */
    method ClearComparison()
      modifies this
      ensures comparison == [] && stored == Some([])
      ensures vehicles == old(vehicles) && filtered == old(filtered)
      ensures page == old(page) && active == old(active)
      ensures ComparisonValid()
    {
      comparison := [];
      SaveComparison();
    }
  }
}
