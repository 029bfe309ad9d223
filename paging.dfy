/**
 * Catalog pagination: the page count, the slice `renderizarCatalogo` shows for the current
 * page and the row of numbered buttons `renderizarPaginacion` builds.
 */
module Paging {

  /** `CONFIG.ITEMS_PER_PAGE`. */
  const PageSize: nat := 12

  /** `Math.ceil(n / ITEMS_PER_PAGE)`: the fewest pages of 12 that hold `n` items. */
  function PageCount(n: nat): (r: nat)
    ensures r * PageSize >= n
    ensures r > 0 ==> (r - 1) * PageSize < n
  {
    (n + PageSize - 1) / PageSize
  }

  /** `vehiculosFiltrados.slice(inicio, fin)` for page `page` (pages count from 1). */
  function PageItems<T>(s: seq<T>, page: int): (r: seq<T>)
    requires page >= 1
    ensures |r| <= PageSize
    ensures forall k :: 0 <= k < |r| ==> (page - 1) * PageSize + k < |s| && r[k] == s[(page - 1) * PageSize + k]
    ensures r != [] <==> page <= PageCount(|s|)
    ensures page < PageCount(|s|) ==> |r| == PageSize
    ensures page == PageCount(|s|) ==> (page - 1) * PageSize + |r| == |s|
  {
    var start := (page - 1) * PageSize;
    if start >= |s| then []
    else if start + PageSize <= |s| then s[start..start + PageSize]
    else s[start..]
  }

  /** Pages `from`, `from + 1`, ... up to the last one, laid end to end. */
  function PagesFrom<T>(s: seq<T>, from: int): seq<T>
    requires from >= 1
    decreases PageCount(|s|) + 1 - from
  {
    if from > PageCount(|s|) then [] else PageItems(s, from) + PagesFrom(s, from + 1)
  }

  /** Page `p` of `n` items starts inside the list, and a page before the last is followed by another. */
  lemma PageStart(n: nat, p: int)
    requires 1 <= p <= PageCount(n)
    ensures (p - 1) * PageSize < n
    ensures p < PageCount(n) ==> p * PageSize < n
  {
  }

  /** The pages from `from` on hold exactly the items from that page's first item on. */
  lemma {:induction false} PagesFromAreSuffix<T>(s: seq<T>, from: int)
    requires 1 <= from <= PageCount(|s|)
    ensures (from - 1) * PageSize < |s|
    ensures PagesFrom(s, from) == s[(from - 1) * PageSize..]
    decreases PageCount(|s|) + 1 - from
  {
    PageStart(|s|, from);
    var start := (from - 1) * PageSize;
    var page := PageItems(s, from);
    var rest := PagesFrom(s, from + 1);
    assert PagesFrom(s, from) == page + rest;
    if from < PageCount(|s|) {
      var next := start + PageSize;
      PagesFromAreSuffix(s, from + 1);
      assert (from + 1 - 1) * PageSize == next;
      assert rest == s[next..];
      assert page == s[start..next];
      assert s[start..] == s[start..next] + s[next..];
    } else {
      assert page == s[start..];
      assert rest == [];
    }
  }

  /** Every item is on exactly one page: the pages, in order, give back the whole list. */
  lemma PagesCoverAll<T>(s: seq<T>)
    ensures PagesFrom(s, 1) == s
  {
    if s != [] {
      PagesFromAreSuffix(s, 1);
    }
  }

  /** 25 items make three pages, the last of which holds only the 25th item. */
  lemma TwentyFiveItems<T>(s: seq<T>)
    requires |s| == 25
    ensures PageCount(|s|) == 3
    ensures PageItems(s, 1) == s[..12] && PageItems(s, 3) == [s[24]]
  {
  }

  /** A numbered page button or an "..." marker. */
  datatype Entry = Page(n: int) | Ellipsis

  /** Page `i` gets a button: the first, the last and the ones within 2 of the current page. */
  predicate Shown(i: int, total: int, current: int) {
    i == 1 || i == total || (current - 2 <= i <= current + 2)
  }

  /** Position `i` is where an ellipsis goes when its page is not shown. */
  predicate Gap(i: int, current: int) {
    i == current - 3 || i == current + 3
  }

  /** What position `i` of the loop appends. */
  function EntryAt(i: int, total: int, current: int): seq<Entry> {
    if Shown(i, total, current) then [Page(i)]
    else if Gap(i, current) then [Ellipsis]
    else []
  }

  /** What the loop has appended once it has handled `i = 1, ..., hi`. */
  function WindowUpTo(hi: int, total: int, current: int): seq<Entry>
    decreases hi
  {
    if hi < 1 then [] else WindowUpTo(hi - 1, total, current) + EntryAt(hi, total, current)
  }

  /** The numbered part of the pagination bar: nothing at all for a single page. */
  function Window(total: int, current: int): seq<Entry> {
    if total <= 1 then [] else WindowUpTo(total, total, current)
  }

  /** `renderizarPaginacion`'s loop over the page numbers, appending to an accumulator. */
  method PageButtons(total: int, current: int) returns (r: seq<Entry>)
    ensures r == Window(total, current)
  {
    r := [];
    if total <= 1 {
      return;
    }
    var i := 1;
    while i <= total
      invariant 1 <= i <= total + 1
      invariant r == WindowUpTo(i - 1, total, current)
    {
      if i == 1 || i == total || (i >= current - 2 && i <= current + 2) {
        r := r + [Page(i)];
      } else if i == current - 3 || i == current + 3 {
        r := r + [Ellipsis];
      }
      i := i + 1;
    }
  }

  /** The page number each entry of `WindowUpTo(hi, ...)` was produced for. */
  function PositionsUpTo(hi: int, total: int, current: int): (ps: seq<int>)
    ensures |ps| == |WindowUpTo(hi, total, current)|
    ensures forall k :: 0 <= k < |ps| ==> 1 <= ps[k] <= hi
    decreases hi
  {
    if hi < 1 then []
    else PositionsUpTo(hi - 1, total, current) + (if Shown(hi, total, current) || Gap(hi, current) then [hi] else [])
  }

  /** The page numbers behind the entries. */
  function Positions(total: int, current: int): (ps: seq<int>)
    ensures |ps| == |Window(total, current)|
  {
    if total <= 1 then [] else PositionsUpTo(total, total, current)
  }

  predicate StrictlyIncreasing(ps: seq<int>) {
    forall j, k :: 0 <= j < k < |ps| ==> ps[j] < ps[k]
  }

  /** Entry `k` is a button for page `ps[k]` when that page is shown, an ellipsis at current ± 3 otherwise. */
  predicate EntriesMatch(w: seq<Entry>, ps: seq<int>, total: int, current: int) {
    |w| == |ps| &&
    forall k :: 0 <= k < |ps| ==>
      (Shown(ps[k], total, current) || Gap(ps[k], current)) &&
      w[k] == (if Shown(ps[k], total, current) then Page(ps[k]) else Ellipsis)
  }

  /** The page numbers behind the entries rise strictly. */
  lemma {:induction false} PositionsIncrease(hi: int, total: int, current: int)
    ensures StrictlyIncreasing(PositionsUpTo(hi, total, current))
    decreases hi
  {
    if hi >= 1 {
      PositionsIncrease(hi - 1, total, current);
      var ps, ps' := PositionsUpTo(hi, total, current), PositionsUpTo(hi - 1, total, current);
      if Shown(hi, total, current) || Gap(hi, current) {
        assert ps == ps' + [hi];
        forall j, k | 0 <= j < k < |ps| ensures ps[j] < ps[k] {
          assert ps[j] == ps'[j];
          if k < |ps'| {
            assert ps[k] == ps'[k];
          }
        }
      } else {
        assert ps == ps';
      }
    }
  }

  /** Each entry of the window matches the page number it was produced for. */
  lemma {:induction false} WindowEntries(hi: int, total: int, current: int)
    ensures EntriesMatch(WindowUpTo(hi, total, current), PositionsUpTo(hi, total, current), total, current)
    decreases hi
  {
    if hi >= 1 {
      WindowEntries(hi - 1, total, current);
      var w, ps := WindowUpTo(hi, total, current), PositionsUpTo(hi, total, current);
      var w', ps' := WindowUpTo(hi - 1, total, current), PositionsUpTo(hi - 1, total, current);
      if Shown(hi, total, current) || Gap(hi, current) {
        assert ps == ps' + [hi];
        assert w == w' + EntryAt(hi, total, current);
        assert |EntryAt(hi, total, current)| == 1;
        forall k | 0 <= k < |ps'| ensures ps[k] == ps'[k] && w[k] == w'[k] {
        }
      } else {
        assert ps == ps' && w == w';
      }
    }
  }

  /** Every position up to `hi` that is shown or at current ± 3 produces an entry. */
  lemma {:induction false} PositionsComplete(hi: int, total: int, current: int, i: int)
    requires 1 <= i <= hi && (Shown(i, total, current) || Gap(i, current))
    ensures i in PositionsUpTo(hi, total, current)
    decreases hi
  {
    if i < hi {
      PositionsComplete(hi - 1, total, current, i);
    }
  }

  /** Page `i` has a button exactly when it is the first, the last or within 2 of the current page. */
  lemma PageButtonIff(total: int, current: int, i: int)
    requires total > 1
    ensures Page(i) in Window(total, current) <==> 1 <= i <= total && Shown(i, total, current)
  {
    WindowEntries(total, total, current);
    var w, ps := Window(total, current), Positions(total, current);
    if Page(i) in w {
      var k :| 0 <= k < |w| && w[k] == Page(i);
      assert ps[k] == i;
    }
    if 1 <= i <= total && Shown(i, total, current) {
      PositionsComplete(total, total, current, i);
      var k :| 0 <= k < |ps| && ps[k] == i;
      assert w[k] == Page(i);
    }
  }

  /** The numbered buttons appear in increasing page order. */
  lemma PageButtonsIncrease(total: int, current: int, j: int, k: int)
    requires 0 <= j < k < |Window(total, current)|
    requires Window(total, current)[j].Page? && Window(total, current)[k].Page?
    ensures Window(total, current)[j].n < Window(total, current)[k].n
  {
    if total > 1 {
      WindowEntries(total, total, current);
      PositionsIncrease(total, total, current);
    }
  }

  /** An entry is an ellipsis exactly when the page it stands for is hidden and sits at current ± 3. */
  lemma EllipsisIff(total: int, current: int, k: int)
    requires 0 <= k < |Window(total, current)|
    ensures var ps := Positions(total, current);
      Window(total, current)[k] == Ellipsis <==>
        !Shown(ps[k], total, current) && (ps[k] == current - 3 || ps[k] == current + 3)
  {
    if total > 1 {
      WindowEntries(total, total, current);
    }
  }

  /** Each hidden page at current ± 3 inside the range is represented by an ellipsis entry. */
  lemma EllipsisPresent(total: int, current: int, i: int)
    requires total > 1 && 1 <= i <= total
    requires !Shown(i, total, current) && Gap(i, current)
    ensures exists k :: 0 <= k < |Positions(total, current)| &&
                        Positions(total, current)[k] == i && Window(total, current)[k] == Ellipsis
  {
    PositionsComplete(total, total, current, i);
    WindowEntries(total, total, current);
    var ps := Positions(total, current);
    var k :| 0 <= k < |ps| && ps[k] == i;
    assert Window(total, current)[k] == Ellipsis;
  }

  /** The current page, when it exists, always has a button, and so do the first and the last. */
  lemma CurrentFirstLastShown(total: int, current: int)
    requires total > 1 && 1 <= current <= total
    ensures Page(current) in Window(total, current)
    ensures Page(1) in Window(total, current) && Page(total) in Window(total, current)
  {
    PageButtonIff(total, current, current);
    PageButtonIff(total, current, 1);
    PageButtonIff(total, current, total);
  }
}
