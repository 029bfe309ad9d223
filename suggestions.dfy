/**
 * The search-as-you-type suggestions (`BusquedaAvanzada.buscar`): nothing for a term
 * shorter than two characters, otherwise the first five listings whose
 * "marca modelo año version" text contains the term, ignoring case.
 */
module Suggestions {
  import opened Wrappers
  import opened Text
  import opened Sequences
  import opened Vehicles
  import Filtering

  const MinTermLength := 2
  const MaxSuggestions := 5

  /** The text a suggestion is matched against: "marca modelo año version". */
  function SuggestionText(v: Vehicle): string {
    v.brand + " " + v.model + " " + IntText(v.year) + " " + Filtering.VersionText(v.version)
  }

  predicate Suggests(v: Vehicle, term: string) {
    Contains(Lower(SuggestionText(v)), Lower(term))
  }

  /** `None` hides the suggestion box; `Some(list)` shows `list`. */
  function Suggestions(vs: seq<Vehicle>, term: string): Option<seq<Vehicle>> {
    if |term| < MinTermLength then None
    else
      var all := Select(vs, v => Suggests(v, term));
      Some(if |all| <= MaxSuggestions then all else all[..MaxSuggestions])
  }

  /**
   * A short term hides the box; otherwise at most five matching listings are offered, in
   * catalog order, and as many as there are matches up to five.
   */
  lemma SuggestionsCorrect(vs: seq<Vehicle>, term: string)
    ensures Suggestions(vs, term).None? <==> |term| < MinTermLength
    ensures Suggestions(vs, term).Some? ==>
      var r := Suggestions(vs, term).value;
      && |r| <= MaxSuggestions
      && (forall k :: 0 <= k < |r| ==> r[k] in vs && Suggests(r[k], term))
      && IsSubsequence(r, vs)
      && |r| == (if Count(vs, v => Suggests(v, term)) < MaxSuggestions
                 then Count(vs, v => Suggests(v, term)) else MaxSuggestions)
  {
    if |term| >= MinTermLength {
      var p := (v: Vehicle) => Suggests(v, term);
      var all := Select(vs, p);
      var r := Suggestions(vs, term).value;
      SelectCount(vs, p);
      SelectSubsequence(vs, p);
      SubsequencePrefix(all, vs, |r|);
      assert r == all[..|r|];
      forall k | 0 <= k < |r| ensures r[k] in vs && Suggests(r[k], term) {
        SelectMembers(vs, p, r[k]);
      }
    }
  }

  /**
   * The offered listings are the FIRST matches: for some cut of the catalog they are all the
   * matches before the cut and nothing after it.
   */
  lemma SuggestionsFirstMatches(vs: seq<Vehicle>, term: string)
    requires |term| >= MinTermLength
    ensures exists c ::
              0 <= c <= |vs| && Suggestions(vs, term).value == Select(vs[..c], v => Suggests(v, term))
  {
    var p := (v: Vehicle) => Suggests(v, term);
    var all := Select(vs, p);
    var r := Suggestions(vs, term).value;
    assert r == all[..|r|];
    SelectPrefixCut(vs, p, |r|);
  }

  /** In a catalog without repeated listings, a match ahead of an offered listing is offered. */
  lemma SuggestionsNoneSkipped(vs: seq<Vehicle>, term: string, i: int, j: int)
    requires |term| >= MinTermLength && Distinct(vs)
    requires 0 <= i < j < |vs| && Suggests(vs[i], term)
    requires vs[j] in Suggestions(vs, term).value
    ensures vs[i] in Suggestions(vs, term).value
  {
    var p := (v: Vehicle) => Suggests(v, term);
    SuggestionsFirstMatches(vs, term);
    var c :| 0 <= c <= |vs| && Suggestions(vs, term).value == Select(vs[..c], p);
    SelectMembers(vs[..c], p, vs[j]);
    var k :| 0 <= k < c && vs[..c][k] == vs[j];
    assert k == j;
    SelectMembers(vs[..c], p, vs[i]);
    assert vs[..c][i] == vs[i];
  }

  /** When fewer than five listings match, every matching listing is offered. */
  lemma FewMatchesAllOffered(vs: seq<Vehicle>, term: string, v: Vehicle)
    requires |term| >= MinTermLength
    requires Count(vs, x => Suggests(x, term)) < MaxSuggestions
    requires v in vs && Suggests(v, term)
    ensures v in Suggestions(vs, term).value
  {
    var p := (x: Vehicle) => Suggests(x, term);
    SelectCount(vs, p);
    SelectMembers(vs, p, v);
  }
}
