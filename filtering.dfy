/**
 * The catalog filter (`Catalogo.aplicarFiltros`): the filter form's raw values, the filter
 * they resolve to, the predicate a listing must satisfy and the filtered view it produces.
 */
module Filtering {
  import opened Wrappers
  import opened Text
  import opened Sequences
  import opened Vehicles

  /**
   * What the filter form holds when the filter is applied. The selects give strings, with
   * "" for "Todos" (an absent control reads the same); the price boxes are what `parseFloat`
   * gives, `None` standing for `NaN` (an empty or non-numeric box).
   */
  datatype FilterForm = FilterForm(
    brand: string,
    kind: string,
    year: string,
    minPrice: Option<int>,
    maxPrice: Option<int>,
    search: string)

  /** The form with every control empty, as `limpiarFiltros` leaves it. */
  const EmptyForm := FilterForm("", "", "", None, None, "")

  /**
   * The filter that is recorded in `filtrosActivos` and applied: `maxPrice == None` is the
   * source's `Infinity`, and the search text is already lower-cased.
   */
  datatype ActiveFilters = ActiveFilters(
    brand: string,
    kind: string,
    year: string,
    minPrice: int,
    maxPrice: Option<int>,
    search: string)

  /** `parseFloat(min) || 0`, `parseFloat(max) || Infinity` and `search.toLowerCase()`. */
  function Resolve(form: FilterForm): ActiveFilters {
    ActiveFilters(
      form.brand,
      form.kind,
      form.year,
      form.minPrice.GetOr(0),
      if form.maxPrice == None || form.maxPrice == Some(0) then None else form.maxPrice,
      Lower(form.search))
  }

  /** A missing version is interpolated into a template string as "undefined". */
  function VersionText(version: Option<string>): string {
    version.GetOr("undefined")
  }

  /** The text the search box is matched against: "marca modelo version". */
  function SearchText(v: Vehicle): string {
    v.brand + " " + v.model + " " + VersionText(v.version)
  }

  predicate BrandMatches(v: Vehicle, f: ActiveFilters) {
    f.brand == "" || v.brand == f.brand
  }

  predicate KindMatches(v: Vehicle, f: ActiveFilters) {
    f.kind == "" || v.kind == f.kind
  }

  predicate YearMatches(v: Vehicle, f: ActiveFilters) {
    f.year == "" || IntText(v.year) == f.year
  }

  predicate PriceMatches(v: Vehicle, f: ActiveFilters) {
    f.minPrice <= v.price && (f.maxPrice.None? || v.price <= f.maxPrice.value)
  }

  predicate SearchMatches(v: Vehicle, f: ActiveFilters) {
    f.search == "" || Contains(Lower(SearchText(v)), f.search)
  }

  /** The conjunction every listing in the filtered view satisfies. */
  predicate Matches(v: Vehicle, f: ActiveFilters) {
    BrandMatches(v, f) && KindMatches(v, f) && YearMatches(v, f) &&
    PriceMatches(v, f) && SearchMatches(v, f)
  }

  /** `vehiculos.filter(...)` with the predicate of `aplicarFiltros`. */
  function FilterVehicles(vs: seq<Vehicle>, f: ActiveFilters): seq<Vehicle> {
    Select(vs, v => Matches(v, f))
  }

  /** A listing is in the filtered view exactly when it is in the catalog and satisfies every active predicate. */
  lemma FilterExact(vs: seq<Vehicle>, f: ActiveFilters, v: Vehicle)
    ensures v in FilterVehicles(vs, f) <==>
            v in vs && BrandMatches(v, f) && KindMatches(v, f) && YearMatches(v, f) &&
            PriceMatches(v, f) && SearchMatches(v, f)
  {
    SelectMembers(vs, v => Matches(v, f), v);
  }

  /** The filtered view keeps the catalog's order. */
  lemma FilterKeepsOrder(vs: seq<Vehicle>, f: ActiveFilters)
    ensures IsSubsequence(FilterVehicles(vs, f), vs)
  {
    SelectSubsequence(vs, v => Matches(v, f));
  }

  /** Filtering a concatenation filters each part: each listing is judged on its own. */
  lemma FilterConcat(a: seq<Vehicle>, b: seq<Vehicle>, f: ActiveFilters)
    ensures FilterVehicles(a + b, f) == FilterVehicles(a, f) + FilterVehicles(b, f)
  {
    SelectConcat(a, b, v => Matches(v, f));
  }

  /** Applying the same filter to the filtered view changes nothing. */
  lemma FilterIdempotent(vs: seq<Vehicle>, f: ActiveFilters)
    ensures FilterVehicles(FilterVehicles(vs, f), f) == FilterVehicles(vs, f)
  {
    SelectIdempotent(vs, v => Matches(v, f));
  }

  /**
   * With every control empty the filter lets every listing of non-negative price through,
   * so `limpiarFiltros` (which copies the catalog) agrees with applying the empty form.
   */
  lemma EmptyFormKeepsAll(vs: seq<Vehicle>)
    requires forall k :: 0 <= k < |vs| ==> vs[k].price >= 0
    ensures FilterVehicles(vs, Resolve(EmptyForm)) == vs
  {
    var f := Resolve(EmptyForm);
    forall k | 0 <= k < |vs| ensures Matches(vs[k], f) {
    }
    SelectEverything(vs, v => Matches(v, f));
  }

  /** A maximum price of 0 is falsy and so means no upper bound at all, like an empty box. */
  lemma MaxPriceZeroIsUnbounded(form: FilterForm)
    requires form.maxPrice == Some(0)
    ensures Resolve(form) == Resolve(form.(maxPrice := None))
    ensures Resolve(form).maxPrice.None?
  {
  }

  /** A year option rendered from year `y` selects exactly the listings of year `y`. */
  lemma YearFilterSelectsYear(v: Vehicle, f: ActiveFilters, y: int)
    requires f.year == IntText(y)
    ensures YearMatches(v, f) <==> v.year == y
  {
    if YearMatches(v, f) {
      IntTextInjective(v.year, y);
    }
  }

  /** The search is case-insensitive in the typed text: typing it in capitals finds the same listings. */
  lemma SearchIgnoresCase(vs: seq<Vehicle>, form: FilterForm)
    ensures FilterVehicles(vs, Resolve(form)) ==
            FilterVehicles(vs, Resolve(form.(search := Lower(form.search))))
  {
    LowerIdempotent(form.search);
  }
}
