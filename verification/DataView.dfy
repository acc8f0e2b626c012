/** The data view: items filtered, paged and grouped into rows, with notices of what changed. */
module DataViews {
  import opened Options
  import opened RowGrouping
  import opened RowDiffs

  type Filter = (Item, int) -> bool

  /** The items a filter lets pass, given its arguments; without a filter, all of them. */
  function Accepting(filter: Option<Filter>, args: int): Item -> bool {
    match filter
    case None => (x => true)
    case Some(f) => (x => f(x, args))
  }

  predicate UniqueIds(items: seq<Item>) {
    forall i, j :: 0 <= i < j < |items| ==> items[i].id != items[j].id
  }

  /** `idxById` holds the position of every item, and nothing else. */
  ghost predicate Indexes(idxById: map<int, nat>, items: seq<Item>) {
    && (forall i :: 0 <= i < |items| ==> items[i].id in idxById && idxById[items[i].id] == i)
    && (forall id :: id in idxById ==> idxById[id] < |items| && items[idxById[id]].id == id)
  }

  /** Whatever of the rows is still among the items is unchanged, or marked as updated. */
  ghost predicate Tracked(rows: seq<Row>, items: seq<Item>, updated: set<int>) {
    forall r, x :: r in rows && r.Data? && x in items && x.id == r.item.id ==> x == r.item || x.id in updated
  }

  /** The positions in the cache are items that pass the filter. */
  ghost predicate Cached(cache: set<nat>, items: seq<Item>, accept: Item -> bool) {
    forall i :: i in cache ==> i < |items| && accept(items[i])
  }

  method UncompiledFilter(items: seq<Item>, accept: Item -> bool) returns (retval: seq<Item>)
    ensures retval == Select(items, accept)
  {
    retval := [];
    var i := 0;
    assert items[..0] == [];
    while i < |items|
      invariant 0 <= i <= |items| && retval == Select(items[..i], accept)
    {
      SelectSnoc(items, i, accept);
      if accept(items[i]) {
        retval := retval + [items[i]];
      }
      i := i + 1;
    }
    assert items[..i] == items;
  }

  method UncompiledFilterWithCaching(items: seq<Item>, accept: Item -> bool, cache0: set<nat>)
      returns (retval: seq<Item>, cache: set<nat>)
    ensures forall x :: x in retval ==> x in items
    ensures Cached(cache0, items, accept) ==> retval == Select(items, accept) && Cached(cache, items, accept)
  {
    retval, cache := [], cache0;
    var i := 0;
    assert items[..0] == [];
    while i < |items|
      invariant 0 <= i <= |items| && forall x :: x in retval ==> x in items
      invariant Cached(cache0, items, accept) ==> retval == Select(items[..i], accept) && Cached(cache, items, accept)
    {
      SelectSnoc(items, i, accept);
      var item := items[i];
      if i in cache {
        retval := retval + [item];
      } else if accept(item) {
        retval := retval + [item];
        cache := cache + {i};
      }
      i := i + 1;
    }
    assert items[..i] == items;
  }

  function PagesBefore(totalRows: nat, pagesize: nat): nat
    requires pagesize > 0
  {
    (totalRows + pagesize - 1) / pagesize
  }

  function LastPage(totalRows: nat, pagesize: nat): nat
    requires pagesize > 0
  {
    Max(0, PagesBefore(totalRows, pagesize) - 1)
  }

  /** `Array.slice` for a page that may reach past the end. */
  function Page(items: seq<Item>, pagesize: nat, pagenum: Option<nat>): seq<Item> {
    if pagesize == 0 then items
    else if pagenum.None? then []
    else items[Min(pagesize * pagenum.value, |items|)..Min(pagesize * pagenum.value + pagesize, |items|)]
  }

  /** The last page begins before the last row and ends behind it; without rows it is the first page. */
  lemma {:induction false} LastPageHolds(totalRows: nat, pagesize: nat)
    requires pagesize > 0
    ensures var p := LastPage(totalRows, pagesize);
      if totalRows == 0 then p == 0 else p * pagesize < totalRows <= (p + 1) * pagesize
  {
    var n := PagesBefore(totalRows, pagesize);
    assert n * pagesize + (totalRows + pagesize - 1) % pagesize == totalRows + pagesize - 1;
    assert (n - 1) * pagesize == n * pagesize - pagesize;
    if n < 1 {
      assert totalRows == 0;
    }
  }

  /**
   What a page shows: as many items as fit of those from its start on, in their order. Without a page size it shows
   all items, and nothing if its number is lost.
   */
  ghost predicate ShowsPage(paged: seq<Item>, items: seq<Item>, pagesize: nat, pagenum: Option<nat>) {
    if pagesize == 0 then paged == items
    else if pagenum.None? then paged == []
    else
      var start := pagenum.value * pagesize;
      && |paged| == Max(0, Min(pagesize, |items| - start))
      && forall j :: 0 <= j < |paged| ==> paged[j] == items[start + j]
  }

  lemma {:induction false} PageShows(items: seq<Item>, pagesize: nat, pagenum: Option<nat>)
    ensures ShowsPage(Page(items, pagesize, pagenum), items, pagesize, pagenum)
  {
    if pagenum.Some? {
      assert pagesize * pagenum.value == pagenum.value * pagesize;
    }
  }

  /** Every item stands on the page, and at the place there, that division by the page size gives. */
  lemma {:induction false} ItemOnPage(items: seq<Item>, pagesize: nat, k: nat)
    requires pagesize > 0 && k < |items|
    ensures var p := Page(items, pagesize, Some(k / pagesize));
      k % pagesize < |p| && p[k % pagesize] == items[k]
  {
    PageShows(items, pagesize, Some(k / pagesize));
    assert k / pagesize * pagesize + k % pagesize == k;
  }

  /** The first `n` pages, one after the other. */
  ghost function Pages(items: seq<Item>, pagesize: nat, n: nat): seq<Item> {
    if n == 0 then [] else Pages(items, pagesize, n - 1) + Page(items, pagesize, Some(n - 1))
  }

  lemma {:induction false} PageExtends(items: seq<Item>, pagesize: nat, p: nat, start: nat)
    requires pagesize > 0 && start == p * pagesize
    ensures items[..Min(start, |items|)] + Page(items, pagesize, Some(p)) == items[..Min(start + pagesize, |items|)]
  {
    PageShows(items, pagesize, Some(p));
    hide Page;
  }

  lemma {:induction false} PagesArePrefix(items: seq<Item>, pagesize: nat, n: nat)
    requires pagesize > 0
    ensures Pages(items, pagesize, n) == items[..Min(n * pagesize, |items|)]
  {
    if n > 0 {
      PagesArePrefix(items, pagesize, n - 1);
      assert n * pagesize == (n - 1) * pagesize + pagesize;
      PageExtends(items, pagesize, n - 1, (n - 1) * pagesize);
      hide Page;
    }
  }

  /** The pages up to the last are all the items, each once. */
  lemma {:induction false} PagesMakeItems(items: seq<Item>, pagesize: nat)
    requires pagesize > 0
    ensures Pages(items, pagesize, LastPage(|items|, pagesize) + 1) == items
  {
    LastPageHolds(|items|, pagesize);
    PagesArePrefix(items, pagesize, LastPage(|items|, pagesize) + 1);
    hide LastPage;
    assert items[..|items|] == items;
  }

  /**
   The page asked for, before the rows are recalculated. Without a page size the number of pages is infinite,
   or not a number when there are no rows.
   */
  function AskedPage(totalRows: nat, pagesize: nat, pagenum: Option<nat>, pageSize: Option<nat>, pageNum: Option<nat>):
      Option<nat>
  {
    var size := if pageSize.Some? then pageSize.value else pagesize;
    if pageNum.None? then
      if pageSize.None? then pagenum
      else if size == 0 then Some(0)
      else if pagenum.None? then None
      else Some(Min(pagenum.value, LastPage(totalRows, size)))
    else if size > 0 then Some(Min(pageNum.value, LastPage(totalRows, size)))
    else if totalRows > 0 then pageNum
    else None
  }

  /** A page number that is not a number survives setting a page size: the view then shows no rows. */
  lemma {:induction false} LostPage(totalRows: nat, size: nat)
    requires size > 0
    ensures var lost := AskedPage(0, 0, Some(0), None, Some(0));
      && lost == None && AskedPage(totalRows, 0, lost, Some(size), None) == None
      && ValidPage(totalRows, size, None) == None
    ensures forall items :: Page(items, size, None) == []
  {
  }

  /**
   Setting the paging options loses the page number exactly when a page is asked for that has neither a size nor
   rows, or when the number is lost already and neither a page number nor the size 0 is given.
   */
  lemma {:induction false} LostPageIff(
      totalRows: nat, pagesize: nat, pagenum: Option<nat>, pageSize: Option<nat>, pageNum: Option<nat>)
    ensures var size := if pageSize.Some? then pageSize.value else pagesize;
      AskedPage(totalRows, pagesize, pagenum, pageSize, pageNum) == None <==>
        || (pageNum.Some? && size == 0 && totalRows == 0)
        || (pageNum.None? && pagenum.None? && (pageSize.None? || size > 0))
  {
  }

  /** The page shown after a change of the number of rows. */
  function ValidPage(totalRows: nat, pagesize: nat, pagenum: Option<nat>): Option<nat> {
    if pagesize > 0 && pagenum.Some? && totalRows < pagenum.value * pagesize then Some(totalRows / pagesize)
    else pagenum
  }

  lemma {:induction false} ValidPageStarts(totalRows: nat, pagesize: nat, pagenum: Option<nat>)
    ensures var p := ValidPage(totalRows, pagesize, pagenum);
      pagesize > 0 && p.Some? ==> p.value * pagesize <= totalRows
    ensures var p := ValidPage(totalRows, pagesize, pagenum);
      if pagesize > 0 && pagenum.Some? && pagenum.value * pagesize > totalRows
      then p.Some? && totalRows < (p.value + 1) * pagesize
      else p == pagenum
  {
    if pagesize > 0 {
      assert totalRows / pagesize * pagesize + totalRows % pagesize == totalRows;
    }
  }

  /**
   The page shown is empty although there are items exactly when its number is lost, or when it begins where the
   items end: it did so before the correction, or the items fill whole pages and the page was beyond them.
   */
  lemma {:induction false} EmptyPage(items: seq<Item>, pagesize: nat, pagenum: Option<nat>)
    requires pagesize > 0 && items != []
    ensures Page(items, pagesize, ValidPage(|items|, pagesize, pagenum)) == [] <==>
        || pagenum.None?
        || pagenum.value * pagesize == |items|
        || (pagenum.value * pagesize > |items| && |items| % pagesize == 0)
  {
    ValidPageStarts(|items|, pagesize, pagenum);
    assert |items| / pagesize * pagesize + |items| % pagesize == |items|;
  }

  /** The rows for a page of items. */
  method GroupRows(infos: seq<GroupingInfo>, toggled: seq<map<Text, bool>>, paged: seq<Item>)
      returns (newRows: seq<Row>)
    requires |infos| == |toggled| && Sortable(infos)
    ensures newRows == Shown(infos, toggled, paged)
  {
    newRows := PushData([], paged);
    if |infos| > 0 {
      var groups := ExtractGroups(infos, paged, 0, []);
      ExtractedShape(infos, 0, [], paged);
      if paged != [] {
        RowsHaveGroups(infos, paged);
      }
      if |groups| > 0 {
        TotalledShape(infos, groups, 0);
        groups := CalculateTotals(infos, groups, 0);
        FinalizedShape(infos, toggled, groups, 0);
        groups := FinalizeGroups(infos, toggled, groups, 0);
        newRows := FlattenGroupedRows(infos, groups, 0);
      } else {
        PreparedNil(infos, toggled, 0);
      }
    }
  }

  lemma {:induction false} RowsHaveGroups(infos: seq<GroupingInfo>, rows: seq<Item>)
    requires infos != [] && Rearranges(infos[0].sort) && rows != []
    ensures Groups(infos, 0, [], rows) != []
  {
    ExtractedDistinct(infos, 0, [], rows);
    assert HasValue(Groups(infos, 0, [], rows), infos[0].getter(rows[0]));
  }

  /** Grouping shows no items but those of the page. */
  lemma {:induction false} ShownAreItems(infos: seq<GroupingInfo>, toggled: seq<map<Text, bool>>, paged: seq<Item>,
      r: Row)
    requires |infos| == |toggled| && Sortable(infos)
    requires r in Shown(infos, toggled, paged)
    ensures r.Data? ==> r.item in paged
    ensures infos == [] ==> r.Data?
  {
    if r.Data? {
      var shown := Shown(infos, toggled, paged);
      hide Shown;
      GroupingConservesRows(infos, toggled, paged);
      InItems(shown, r);
      assert r.item in multiset(ItemsIn(shown));
      assert r.item in Select(paged, IsVisible(infos, toggled));
      SelectIsIn(paged, IsVisible(infos, toggled));
    } else {
      OnlyData(paged);
    }
  }

  lemma {:induction false} InItems(rows: seq<Row>, r: Row)
    requires r in rows && r.Data?
    ensures r.item in ItemsIn(rows)
  {
    if rows[0] != r {
      InItems(rows[1..], r);
    }
  }

  datatype Snapshot = Snapshot(items: seq<Item>, accept: Item -> bool)

  /** What the snapshot says about the filtered items and the cache. */
  ghost predicate Comes(last: Option<Snapshot>, filtered: seq<Item>, cache: set<nat>) {
    last.Some? ==>
      && filtered == Select(last.value.items, last.value.accept)
      && Cached(cache, last.value.items, last.value.accept)
  }

  /** The hints about the filter are true of the change since the snapshot. */
  ghost predicate Honest(hints: Hints, last: Option<Snapshot>, items: seq<Item>, accept: Item -> bool) {
    hints.isFilterNarrowing || hints.isFilterExpanding || hints.isFilterUnchanged ==>
      && last.Some? && items == last.value.items
      && if hints.isFilterNarrowing then forall x :: x in items && accept(x) ==> last.value.accept(x)
         else if hints.isFilterExpanding then forall x :: x in items && last.value.accept(x) ==> accept(x)
         else forall x :: x in items ==> (last.value.accept(x) <==> accept(x))
  }

  class DataView {
    var items: seq<Item>
    var idxById: map<int, nat>
    var filter: Option<Filter>
    var filterArgs: int
    var filteredItems: seq<Item>
    var filterCache: set<nat>
    var refreshHints: Hints
    var prevRefreshHints: Hints
    var updated: set<int>
    var suspend: bool
    var groupingInfos: seq<GroupingInfo>
    var toggledGroupsByLevel: seq<map<Text, bool>>
    var pagesize: nat
    var pagenum: Option<nat> // `None` stands for NaN
    var totalRows: nat
    var rows: seq<Row>

    /** The items and the filter of the last refresh, if `filteredItems` still comes from them. */
    ghost var last: Option<Snapshot>

    /** What a grid shows that follows the notices. */
    ghost var mirror: seq<Row>

    ghost predicate Valid()
      reads `groupingInfos, `toggledGroupsByLevel, `filteredItems, `last, `filterCache, `prevRefreshHints
    {
      && |groupingInfos| == |toggledGroupsByLevel| && Sortable(groupingInfos)
      && Comes(last, filteredItems, filterCache)
      && (filterCache != {} ==> prevRefreshHints.isFilterExpanding && !prevRefreshHints.isFilterNarrowing)
    }

    function Accept(): Item -> bool
      reads `filter, `filterArgs
    {
      Accepting(filter, filterArgs)
    }

    /**
     The hints about the filter are true: since the last refresh the items are the same and the filter lets
     pass fewer of them, more of them or the same ones, whichever hint is used.
     */
    ghost predicate HonestHints()
      reads `refreshHints, `items, `last, `filter, `filterArgs
    {
      Honest(refreshHints, last, items, Accept())
    }

    ghost predicate DiffsHinted()
      reads `refreshHints
    {
      Given(refreshHints.ignoreDiffsBefore) || Given(refreshHints.ignoreDiffsAfter)
    }

    /** The filtered items are those that pass the filter now, and the cache knows only such items. */
    ghost predicate Filtered()
      reads `filteredItems, `filterCache, `items, `filter, `filterArgs
    {
      filteredItems == Select(items, Accept()) && Cached(filterCache, items, Accept())
    }

    /** The page number is one of the pages. */
    ghost predicate OnPage()
      reads `pagesize, `pagenum, `totalRows
    {
      pagesize > 0 && pagenum.Some? ==> pagenum.value * pagesize <= totalRows
    }

    ghost predicate Grouped()
      reads `groupingInfos, `toggledGroupsByLevel, `rows, `filteredItems, `pagesize, `pagenum
    {
      && |groupingInfos| == |toggledGroupsByLevel| && Sortable(groupingInfos)
      && rows == Shown(groupingInfos, toggledGroupsByLevel, Page(filteredItems, pagesize, pagenum))
    }

    /** What a refresh should make of the items. */
    ghost predicate Fresh()
      reads `groupingInfos, `toggledGroupsByLevel, `filteredItems, `filterCache, `items, `filter, `filterArgs,
        `totalRows, `rows, `pagesize, `pagenum
    {
      Filtered() && Recalculated()
    }

    /** The rows are the grouped page of the filtered items, and the page is one of theirs. */
    ghost predicate Recalculated()
      reads `groupingInfos, `toggledGroupsByLevel, `filteredItems, `totalRows, `rows, `pagesize, `pagenum
    {
      Grouped() && totalRows == |filteredItems| && OnPage()
    }

    constructor ()
      ensures Valid() && items == [] && rows == [] && mirror == [] && !suspend && filter == None && idxById == map[]
      ensures refreshHints == NO_HINTS && pagesize == 0 && pagenum == Some(0) && groupingInfos == [] && updated == {}
      ensures totalRows == 0 && filterArgs == 0
    {
      items, idxById, rows, mirror, filteredItems, filterCache := [], map[], [], [], [], {};
      filter, filterArgs := None, 0;
      refreshHints, prevRefreshHints := NO_HINTS, NO_HINTS;
      updated, suspend := {}, false;
      groupingInfos, toggledGroupsByLevel := [], [];
      pagesize, pagenum, totalRows := 0, Some(0), 0;
      last := None;
    }

    /** The cache is only kept from one expanding refresh to the next. */
    predicate CacheCurrent()
      reads `filterCache, `refreshHints
    {
      filterCache == {} || (refreshHints.isFilterExpanding && !refreshHints.isFilterNarrowing)
    }

    /** Applies the filter, as the hints allow. */
    method FilterItems()
      requires Valid() && CacheCurrent()
      modifies `filteredItems, `filterCache
      ensures old(HonestHints()) ==> Filtered()
      ensures CacheCurrent()
    {
      if filter.Some? {
        if refreshHints.isFilterNarrowing {
          NarrowedAgain(items, filteredItems, last, Accept());
          filteredItems := UncompiledFilter(filteredItems, Accept());
        } else if refreshHints.isFilterExpanding {
          filteredItems, filterCache := UncompiledFilterWithCaching(items, Accept(), filterCache);
        } else if !refreshHints.isFilterUnchanged {
          filteredItems := UncompiledFilter(items, Accept());
        } else {
          UnchangedAgain(items, last, Accept());
        }
      } else {
        filteredItems := items;
        SelectAll(items, Accept());
      }
    }

    /** The filtered items and the current page of them. */
    method GetFilteredAndPagedItems() returns (total: nat, paged: seq<Item>)
      requires Valid() && CacheCurrent()
      modifies `filteredItems, `filterCache, `pagenum
      ensures total == |filteredItems| && paged == Page(filteredItems, pagesize, pagenum)
      ensures pagenum == ValidPage(total, pagesize, old(pagenum))
      ensures ShowsPage(paged, filteredItems, pagesize, pagenum)
      ensures old(HonestHints()) ==> Filtered()
      ensures CacheCurrent()
    {
      FilterItems();
      hide Filtered, HonestHints, CacheCurrent, Valid;
      total := |filteredItems|;
      if pagesize > 0 && pagenum.Some? && total < pagenum.value * pagesize {
        pagenum := Some(total / pagesize);
      }
      paged := if pagesize > 0 then Page(filteredItems, pagesize, pagenum) else filteredItems;
      PageShows(filteredItems, pagesize, pagenum);
    }

    method ClearStaleCache()
      requires Valid()
      modifies `filterCache
      ensures Valid() && CacheCurrent()
    {
      if refreshHints.isFilterNarrowing != prevRefreshHints.isFilterNarrowing ||
         refreshHints.isFilterExpanding != prevRefreshHints.isFilterExpanding
      {
        filterCache := {};
      }
    }

    method Recalc() returns (diff: seq<int>)
      requires Valid()
      modifies `filteredItems, `filterCache, `pagenum, `totalRows, `rows
      ensures totalRows == |filteredItems| && pagenum == ValidPage(totalRows, pagesize, old(pagenum))
      ensures Recalculated()
      ensures Reports(diff, groupingInfos != [], updated, refreshHints, old(rows), rows)
      ensures old(HonestHints()) ==> Filtered()
      ensures CacheCurrent()
    {
      hide Shown, Page, Select, Cached, Reports, DataView.HonestHints, Comes, Sortable, ValidPage, DataView.Filtered;
      ClearStaleCache();
      var total, paged := GetFilteredAndPagedItems();
      ValidPageStarts(total, pagesize, old(pagenum));
      var newRows := GroupRows(groupingInfos, toggledGroupsByLevel, paged);
      diff := GetRowDiffs(|groupingInfos| > 0, updated, refreshHints, rows, newRows);
      totalRows, rows := total, newRows;
    }

    /** The grid shows the rows, and no item changed since without being marked. */
    ghost predicate Followed()
      reads `mirror, `rows, `items, `updated
    {
      Mirrors(mirror, rows) && Tracked(rows, items, updated) && UniqueIds(items)
    }

    ghost predicate Unhinted()
      reads `refreshHints
    {
      && !refreshHints.isFilterNarrowing && !refreshHints.isFilterExpanding && !refreshHints.isFilterUnchanged
      && !DiffsHinted()
    }

    /** The grid, having redrawn the reported rows, shows the rows. */
    ghost predicate Follows(diff: seq<int>)
      reads `mirror, `rows, `items
    {
      Mirrors(Redrawn(mirror, diff, rows), rows) && Tracked(rows, items, {}) && UniqueIds(items)
    }

    ghost predicate Followable()
      reads `mirror, `rows, `items, `updated, `refreshHints, `last, `filter, `filterArgs
    {
      HonestHints() && !DiffsHinted() && Followed()
    }

    /** Recalculates the rows, and once more if the page is past the end. */
    method RecalcTwice() returns (diff: seq<int>)
      requires Valid()
      modifies `filteredItems, `filterCache, `pagenum, `totalRows, `rows
      ensures Recalculated() && pagenum == ValidPage(totalRows, pagesize, old(pagenum)) && CacheCurrent()
      ensures Reports(diff, groupingInfos != [], updated, refreshHints, old(rows), rows)
      ensures old(HonestHints()) ==> Filtered()
      ensures old(Followable()) ==> Follows(diff)
    {
      ghost var was, follows := rows, Followable();
      diff := Recalc();
      if pagesize > 0 && pagenum.Some? && totalRows < pagenum.value * pagesize {
        assert false; // the page has been corrected: there is no second calculation
      }
      if follows {
        hide Shown, Page, Select, Mirrors, Redrawn, Reports, ValidPage, Cached, Honest, Accepting, Tracked, UniqueIds;
        StillFollowed(items, Accept(), pagesize, pagenum, groupingInfos, toggledGroupsByLevel, updated, refreshHints,
          mirror, was, rows, diff);
      }
    }

    /** The work of a refresh: the rows are recalculated, and the grid redraws those reported. */
    method Renew() returns (diff: seq<int>)
      requires Valid()
      modifies `filteredItems, `filterCache, `pagenum, `totalRows, `rows, `updated, `prevRefreshHints, `refreshHints,
        `last, `mirror
      ensures Valid() && updated == {} && prevRefreshHints == old(refreshHints) && refreshHints == NO_HINTS
      ensures pagenum == ValidPage(totalRows, pagesize, old(pagenum)) && mirror == Redrawn(old(mirror), diff, rows)
      ensures Reports(diff, groupingInfos != [], old(updated), old(refreshHints), old(rows), rows)
      ensures Recalculated() && (old(HonestHints()) ==> Fresh() && last == Some(Snapshot(items, Accept())))
      ensures old(Followable()) ==> Followed()
    {
      hide HonestHints, Followable, Recalculated, Accepting, Reports, Redrawn, Mirrors, Tracked, UniqueIds, Select,
        Cached, ValidPage, Sortable;
      ghost var honest := HonestHints();
      diff := RecalcTwice();
      mirror, updated, prevRefreshHints, refreshHints, last :=
        Redrawn(mirror, diff, rows), {}, refreshHints, NO_HINTS,
        if honest then Some(Snapshot(items, Accept())) else None;
    }

    /** Brings the rows up to date and reports the rows that changed. */
    method Refresh() returns (diff: seq<int>)
      requires Valid()
      modifies `filteredItems, `filterCache, `pagenum, `totalRows, `rows, `updated, `prevRefreshHints, `refreshHints,
        `last, `mirror
      ensures Valid()
      ensures suspend ==> diff == [] && Unrefreshed()
      ensures !suspend ==> updated == {} && prevRefreshHints == old(refreshHints) && refreshHints == NO_HINTS
      ensures !suspend ==>
        pagenum == ValidPage(totalRows, pagesize, old(pagenum)) && mirror == Redrawn(old(mirror), diff, rows)
      ensures !suspend ==> Reports(diff, groupingInfos != [], old(updated), old(refreshHints), old(rows), rows)
      ensures !suspend ==> Recalculated()
      ensures !suspend && old(HonestHints()) ==> Fresh() && last == Some(Snapshot(items, Accept()))
      ensures old(Followable()) ==> Followed()
    {
      if suspend {
        return [];
      }
      diff := Renew();
    }

    /**
     Unless suspended, the rows are what they should be, and hints may be given that compare with them; the grid
     still follows if it did.
     */
    ghost predicate Kept(followed: bool)
      reads this
    {
      && Unhinted() && (followed ==> Followed())
      && (!suspend ==> Fresh() && last == Some(Snapshot(items, Accept())))
    }

    /** The refresh at the end of every operation. */
    method Changed()
      requires Valid()
      modifies `filteredItems, `filterCache, `pagenum, `totalRows, `rows, `updated, `prevRefreshHints, `refreshHints,
        `last, `mirror
      ensures Valid()
      ensures pagenum == if suspend then old(pagenum) else ValidPage(totalRows, pagesize, old(pagenum))
      ensures old(Unhinted()) ==> Kept(old(Followed()))
    {
      var diff := Refresh();
    }

    twostate predicate Unrefreshed()
      reads this
    {
      && unchanged(`filteredItems) && unchanged(`filterCache) && unchanged(`pagenum) && unchanged(`totalRows)
      && unchanged(`rows) && unchanged(`updated) && unchanged(`prevRefreshHints) && unchanged(`refreshHints)
      && unchanged(`last) && unchanged(`mirror)
    }

    method BeginUpdate()
      requires Valid()
      modifies `suspend
      ensures Valid() && suspend
    {
      suspend := true;
    }

    method EndUpdate() returns (diff: seq<int>)
      requires Valid()
      modifies `suspend, `filteredItems, `filterCache, `pagenum, `totalRows, `rows, `updated, `prevRefreshHints,
        `refreshHints, `last, `mirror
      ensures Valid() && !suspend
      ensures old(HonestHints()) ==> Fresh()
      ensures old(Followable()) ==> Followed()
    {
      suspend := false;
      diff := Refresh();
    }

    method SetRefreshHints(hints: Hints)
      requires Valid()
      modifies `refreshHints
      ensures Valid() && refreshHints == hints
    {
      refreshHints := hints;
    }

    method SetFilterArgs(args: int)
      requires Valid()
      modifies `filterArgs
      ensures Valid() && filterArgs == args
    {
      filterArgs := args;
    }

    method SetFilter(filterFn: Option<Filter>)
      requires Valid()
      modifies `filter, `filteredItems, `filterCache, `pagenum, `totalRows, `rows, `updated, `prevRefreshHints,
        `refreshHints, `last, `mirror
      ensures Valid() && filter == filterFn
      ensures old(Unhinted()) ==> Kept(old(Followed()))
    {
      filter := filterFn;
      hide *;
      Changed();
    }

    /** Sets the page size, the page number or both. */
    method SetPagingOptions(pageSize: Option<nat>, pageNum: Option<nat>)
      requires Valid()
      modifies `pagesize, `filteredItems, `filterCache, `pagenum, `totalRows, `rows, `updated, `prevRefreshHints,
        `refreshHints, `last, `mirror
      ensures Valid()
      ensures pagesize == if pageSize.Some? then pageSize.value else old(pagesize)
      ensures var asked := AskedPage(old(totalRows), old(pagesize), old(pagenum), pageSize, pageNum);
        pagenum == if suspend then asked else ValidPage(totalRows, pagesize, asked)
      ensures old(Unhinted()) ==> Kept(old(Followed()))
    {
      if pageSize.Some? {
        pagesize := pageSize.value;
        pagenum := if pagesize == 0 then Some(0) else if pagenum.None? then None
          else Some(Min(pagenum.value, LastPage(totalRows, pagesize)));
      }
      if pageNum.Some? {
        // without a page size the number of pages is infinite, or not a number when there are no rows
        pagenum := if pagesize > 0 then Some(Min(pageNum.value, LastPage(totalRows, pagesize)))
          else if totalRows > 0 then pageNum else None;
      }
      hide *;
      Changed();
    }

    method SetGrouping(infos: seq<GroupingInfo>)
      requires Valid() && Sortable(infos)
      modifies `groupingInfos, `toggledGroupsByLevel, `filteredItems, `filterCache, `pagenum, `totalRows, `rows,
        `updated, `prevRefreshHints, `refreshHints, `last, `mirror
      ensures Valid() && groupingInfos == infos
      ensures toggledGroupsByLevel == seq(|infos|, i => map[])
      ensures old(Unhinted()) ==> Kept(old(Followed()))
    {
      var toggled: seq<map<Text, bool>> := [];
      var i := 0;
      while i < |infos|
        invariant 0 <= i <= |infos| && toggled == seq(i, k => map[])
      {
        toggled := toggled + [map[]];
        i := i + 1;
      }
      groupingInfos, toggledGroupsByLevel := infos, toggled;
      hide *;
      Changed();
    }

    /** Collapses or expands the groups of a level with this key; every other group stays as it is. */
    method ExpandCollapseGroup(level: nat, groupingKey: Text, collapse: bool)
      requires Valid() && level < |groupingInfos|
      modifies `toggledGroupsByLevel, `filteredItems, `filterCache, `pagenum, `totalRows, `rows, `updated,
        `prevRefreshHints, `refreshHints, `last, `mirror
      ensures Valid()
      ensures toggledGroupsByLevel == Toggle(groupingInfos, old(toggledGroupsByLevel), level, groupingKey, collapse)
      ensures old(Unhinted()) ==> Kept(old(Followed()))
    {
      var toggled := toggledGroupsByLevel[level][groupingKey := groupingInfos[level].collapsed != collapse];
      toggledGroupsByLevel := toggledGroupsByLevel[level := toggled];
      hide *;
      Changed();
    }

    /** Collapses or expands all groups of one level, or of all levels. */
    method ExpandCollapseAllGroups(level: Option<nat>, collapse: bool)
      requires Valid() && (level.Some? ==> level.value < |groupingInfos|)
      modifies `groupingInfos, `toggledGroupsByLevel, `filteredItems, `filterCache, `pagenum, `totalRows, `rows,
        `updated, `prevRefreshHints, `refreshHints, `last, `mirror
      ensures Valid()
      ensures groupingInfos == AllSet(old(groupingInfos), level, collapse)
      ensures toggledGroupsByLevel == Untoggled(old(toggledGroupsByLevel), level)
      ensures old(Unhinted()) ==> Kept(old(Followed()))
    {
      var infos, toggled := groupingInfos, toggledGroupsByLevel;
      if level.None? {
        var i := 0;
        while i < |groupingInfos|
          invariant 0 <= i <= |groupingInfos| && |infos| == |groupingInfos| && |toggled| == |toggledGroupsByLevel|
          invariant infos[..i] == AllSet(groupingInfos, level, collapse)[..i] && infos[i..] == groupingInfos[i..]
          invariant toggled[..i] == Untoggled(toggledGroupsByLevel, level)[..i]
          invariant toggled[i..] == toggledGroupsByLevel[i..]
        {
          assert infos[i] == infos[i..][0] == groupingInfos[i];
          toggled := toggled[i := map[]];
          infos := infos[i := infos[i].(collapsed := collapse)];
          i := i + 1;
        }
      } else {
        toggled := toggled[level.value := map[]];
        infos := infos[level.value := infos[level.value].(collapsed := collapse)];
      }
      assert infos == AllSet(groupingInfos, level, collapse);
      assert toggled == Untoggled(toggledGroupsByLevel, level);
      AllSetSortable(groupingInfos, level, collapse);
      groupingInfos, toggledGroupsByLevel := infos, toggled;
      hide *;
      Changed();
    }

    /** Renumbers the items from a position on. */
    method UpdateIdxById(startingIndex: nat)
      modifies `idxById
      ensures idxById == Numbered(old(idxById), items, startingIndex, |items|)
    {
      var idx := idxById;
      var i := startingIndex;
      while i < |items|
        invariant startingIndex <= i
        invariant i <= |items| || i == startingIndex
        invariant idx == Numbered(idxById, items, startingIndex, if i <= |items| then i else |items|)
        decreases |items| - i
      {
        idx := idx[items[i].id := i];
        i := i + 1;
      }
      idxById := idx;
    }

    method EnsureIdUniqueness() returns (ok: bool)
      requires idxById == Numbered(map[], items, 0, |items|)
      ensures ok <==> UniqueIds(items)
      ensures ok ==> Indexes(idxById, items)
    {
      NumberedAll(items, |items|);
      var i := 0;
      while i < |items|
        invariant 0 <= i <= |items| && forall k :: 0 <= k < i ==> idxById[items[k].id] == k
        decreases |items| - i
      {
        if idxById[items[i].id] != i {
          return false;
        }
        i := i + 1;
      }
      return true;
    }

    method TakeItems(data: seq<Item>) returns (ok: bool)
      requires Valid()
      modifies `items, `filteredItems, `idxById, `last
      ensures Valid() && items == data
      ensures (ok <==> UniqueIds(data)) && (ok ==> Indexes(idxById, items))
    {
      // the filtered items no longer come from the last refresh
      items, filteredItems, idxById, last := data, data, map[], None;
      UpdateIdxById(0);
      ok := EnsureIdUniqueness();
    }

    /** Replaces the items; fails when two have the same id. */
    method SetItems(data: seq<Item>) returns (ok: bool)
      requires Valid()
      modifies `items, `idxById, `filteredItems, `filterCache, `pagenum, `totalRows, `rows, `updated, `prevRefreshHints,
        `refreshHints, `last, `mirror
      ensures Valid() && items == data
      ensures (ok <==> UniqueIds(data)) && (ok ==> Indexes(idxById, items)) && (!ok ==> rows == old(rows))
      ensures ok && old(Unhinted()) ==> Kept(old(Followed() && Tracked(rows, data, updated)))
    {
      ok := TakeItems(data);
      hide *;
      if ok {
        Changed();
      }
    }

    /** Replaces the item with this id; fails when there is none, or when the new item has another id. */
    method UpdateItem(id: int, item: Item) returns (ok: bool)
      requires Valid() && Indexes(idxById, items)
      modifies `items, `filteredItems, `filterCache, `pagenum, `totalRows, `rows, `updated, `prevRefreshHints,
        `refreshHints, `last, `mirror
      ensures Valid() && Indexes(idxById, items)
      ensures ok <==> old(id in idxById) && id == item.id
      ensures ok ==> items == old(items[idxById[id] := item])
      ensures !ok ==> unchanged(this)
      ensures old(Unhinted()) && ok ==> Kept(old(Followed()))
    {
      ok := id in idxById && id == item.id;
      if !ok {
        return;
      }
      ReplacedItem(rows, items, idxById, updated, idxById[id], item);
      hide Indexes, Tracked, UniqueIds, Mirrors, Comes, Sortable;
      items, updated := items[idxById[id] := item], updated + {id};
      Changed();
    }

    /**
     Inserts an item; a negative position counts from the end. Renumbering from a negative position fails, when the
     item is already in its place; a position past the end means the end, and then nothing is renumbered. So the
     items can be found by their ids only if the position is one of theirs and the id is new.
     */
    method InsertItem(insertBefore: int, item: Item) returns (ok: bool)
      requires Valid()
      modifies `items, `idxById, `filteredItems, `filterCache, `pagenum, `totalRows, `rows, `updated, `prevRefreshHints,
        `refreshHints, `last, `mirror
      ensures Valid() && (ok <==> 0 <= insertBefore)
      ensures items == Inserted(old(items), SplicePosition(insertBefore, |old(items)|), item)
      ensures ok ==> idxById == Numbered(old(idxById), items, insertBefore, |items|)
      ensures !ok ==>
        unchanged(`idxById) && unchanged(`rows) && unchanged(`filteredItems) && unchanged(`last) && unchanged(`mirror)
      ensures old(Indexes(idxById, items)) ==>
        (Indexes(idxById, items) <==> 0 <= insertBefore <= |old(items)| && UnusedIn(old(items), item.id))
      ensures ok && old(Unhinted()) ==>
        Kept(old(Followed() && UnusedId(rows, item.id) && UnusedIn(items, item.id)))
    {
      var at := SplicePosition(insertBefore, |items|);
      InsertedItem(rows, items, idxById, updated, insertBefore, item);
      hide Indexes, Tracked, UniqueIds, Mirrors, Comes, Sortable, UnusedId, UnusedIn, Numbered, Inserted;
      items := Inserted(items, at, item);
      ok := 0 <= insertBefore;
      if ok {
        UpdateIdxById(insertBefore);
        Changed();
      }
    }

    /** Adds an item at the end; with an id that is in use the items are no longer found by their ids. */
    method AddItem(item: Item)
      requires Valid()
      modifies `items, `idxById, `filteredItems, `filterCache, `pagenum, `totalRows, `rows, `updated, `prevRefreshHints,
        `refreshHints, `last, `mirror
      ensures Valid() && items == old(items) + [item]
      ensures idxById == old(idxById)[item.id := |old(items)|]
      ensures old(Indexes(idxById, items)) ==> (Indexes(idxById, items) <==> UnusedIn(old(items), item.id))
      ensures old(Unhinted()) ==> Kept(old(Followed() && UnusedId(rows, item.id) && UnusedIn(items, item.id)))
    {
      InsertedItem(rows, items, idxById, updated, |items|, item);
      assert Inserted(items, |items|, item) == items + [item];
      hide Indexes, Tracked, UniqueIds, Mirrors, Comes, Sortable, UnusedId, UnusedIn;
      items := items + [item];
      UpdateIdxById(|items| - 1);
      assert idxById == old(idxById)[item.id := |items| - 1];
      hide Numbered;
      Changed();
    }

    /** Removes the item with this id; fails when there is none. */
    method DeleteItem(id: int) returns (ok: bool)
      requires Valid() && Indexes(idxById, items)
      modifies `items, `idxById, `filteredItems, `filterCache, `pagenum, `totalRows, `rows, `updated, `prevRefreshHints,
        `refreshHints, `last, `mirror
      ensures Valid() && Indexes(idxById, items)
      ensures ok <==> old(id in idxById)
      ensures ok ==> var at := old(idxById[id]); items == old(items)[..at] + old(items)[at + 1..]
      ensures !ok ==> unchanged(this)
      ensures old(Unhinted()) && ok ==> Kept(old(Followed()))
    {
      ok := id in idxById;
      if !ok {
        return;
      }
      var idx := idxById[id];
      RemovedItem(rows, items, idxById, updated, idx);
      hide Indexes, Tracked, UniqueIds, Mirrors, Comes, Sortable, Numbered;
      idxById := idxById - {id};
      items := items[..idx] + items[idx + 1..];
      UpdateIdxById(idx);
      Changed();
    }

    /** Sorts the items; reversing before and after makes a descending sort as stable as an ascending one. */
    method Sort(rearrange: seq<Item> -> seq<Item>, ascending: bool)
      requires Valid() && UniqueIds(items) && Permutes(rearrange)
      modifies `items, `idxById, `filteredItems, `filterCache, `pagenum, `totalRows, `rows, `updated, `prevRefreshHints,
        `refreshHints, `last, `mirror
      ensures Valid() && Indexes(idxById, items)
      ensures items == SortedBy(rearrange, ascending, old(items))
      ensures multiset(items) == multiset(old(items))
      ensures old(Unhinted()) ==> Kept(old(Followed()))
    {
      var sorted := SortedBy(rearrange, ascending, items);
      SortedByPermutes(rearrange, ascending, items);
      RearrangedItems(rows, items, sorted, updated);
      hide SortedBy, Permutes, Indexes, Tracked, UniqueIds, Mirrors, Comes, Sortable, Numbered;
      items := sorted;
      idxById := map[];
      UpdateIdxById(0);
      Changed();
    }
  }

  /** No row shows an item with this id. */
  ghost predicate UnusedId(rows: seq<Row>, id: int) {
    forall r :: r in rows && r.Data? ==> r.item.id != id
  }

  /** No item has this id. */
  ghost predicate UnusedIn(items: seq<Item>, id: int) {
    forall x :: x in items ==> x.id != id
  }

  /** Where `Array.splice` inserts: a negative position counts from the end, and the ends are the limits. */
  function SplicePosition(start: int, length: nat): nat {
    if start < 0 then Max(length + start, 0) else Min(start, length)
  }

  function Reversed(s: seq<Item>): seq<Item> {
    if s == [] then [] else Reversed(s[1..]) + [s[0]]
  }

  ghost predicate Permutes(rearrange: seq<Item> -> seq<Item>) {
    forall s :: multiset(rearrange(s)) == multiset(s)
  }

  function SortedBy(rearrange: seq<Item> -> seq<Item>, ascending: bool, items: seq<Item>): seq<Item> {
    if ascending then rearrange(items) else Reversed(rearrange(Reversed(items)))
  }

  lemma {:induction false} SortedByPermutes(rearrange: seq<Item> -> seq<Item>, ascending: bool, items: seq<Item>)
    requires Permutes(rearrange)
    ensures multiset(SortedBy(rearrange, ascending, items)) == multiset(items)
  {
    ReversedPermutes(items);
    ReversedPermutes(rearrange(Reversed(items)));
  }

  type Comparer = (Item, Item) -> int

  /** The items that the comparer holds equal to `x`. */
  ghost function EqualTo(comparer: Comparer, x: Item): Item -> bool {
    y => comparer(x, y) == 0
  }

  /** Whatever stands further on is not smaller. */
  ghost predicate Rises(s: seq<Item>, comparer: Comparer) {
    forall i, j :: 0 <= i < j < |s| ==> comparer(s[i], s[j]) <= 0
  }

  /** Whatever stands further on is not larger. */
  ghost predicate Falls(s: seq<Item>, comparer: Comparer) {
    forall i, j :: 0 <= i < j < |s| ==> comparer(s[j], s[i]) <= 0
  }

  /** Items held equal stand in the same order in both lists. */
  ghost predicate SameTies(s: seq<Item>, t: seq<Item>, comparer: Comparer) {
    forall x :: Select(s, EqualTo(comparer, x)) == Select(t, EqualTo(comparer, x))
  }

  /** A stable sort in ascending order. */
  ghost predicate SortsStably(rearrange: seq<Item> -> seq<Item>, comparer: Comparer) {
    forall s :: Rises(rearrange(s), comparer) && SameTies(rearrange(s), s, comparer)
  }

  /** With a stable sort the items are in the order asked for, and equal ones stay in their order either way. */
  lemma {:induction false} SortedByStable(rearrange: seq<Item> -> seq<Item>, ascending: bool, items: seq<Item>,
      comparer: Comparer)
    requires SortsStably(rearrange, comparer)
    ensures var sorted := SortedBy(rearrange, ascending, items);
      && SameTies(sorted, items, comparer)
      && if ascending then Rises(sorted, comparer) else Falls(sorted, comparer)
  {
    if ascending {
      assert Rises(rearrange(items), comparer);
    } else {
      var reversed := Reversed(items);
      var rising := rearrange(reversed);
      assert Rises(rising, comparer) && SameTies(rising, reversed, comparer);
      ReversedFalls(rising, comparer);
      forall x ensures Select(Reversed(rising), EqualTo(comparer, x)) == Select(items, EqualTo(comparer, x)) {
        SelectReversed(rising, EqualTo(comparer, x));
        SelectReversed(items, EqualTo(comparer, x));
        ReversedTwice(Select(items, EqualTo(comparer, x)));
      }
    }
  }

  lemma {:induction false} ReversedFalls(s: seq<Item>, comparer: Comparer)
    requires Rises(s, comparer)
    ensures Falls(Reversed(s), comparer)
  {
    var r := Reversed(s);
    ReversedAt(s, 0);
    forall i, j | 0 <= i < j < |r| ensures comparer(r[j], r[i]) <= 0 {
      ReversedAt(s, i);
      ReversedAt(s, j);
    }
  }

  lemma {:induction false} ReversedAt(s: seq<Item>, k: nat)
    ensures |Reversed(s)| == |s|
    ensures k < |s| ==> Reversed(s)[k] == s[|s| - 1 - k]
  {
    if s != [] {
      ReversedAt(s[1..], k);
    }
  }

  lemma {:induction false} ReversedTwice(s: seq<Item>)
    ensures Reversed(Reversed(s)) == s
  {
    ReversedAt(s, 0);
    ReversedAt(Reversed(s), 0);
    forall k | 0 <= k < |s| ensures Reversed(Reversed(s))[k] == s[k] {
      ReversedAt(Reversed(s), k);
      ReversedAt(s, |s| - 1 - k);
    }
  }

  lemma {:induction false} SelectReversed(s: seq<Item>, p: Item -> bool)
    ensures Select(Reversed(s), p) == Reversed(Select(s, p))
  {
    if s != [] {
      var rest := s[1..];
      var chosen := Select(rest, p);
      SelectReversed(rest, p);
      SelectAppend([s[0]], rest, p);
      SelectAppend(Reversed(rest), [s[0]], p);
      assert Select([s[0]], p) == if p(s[0]) then [s[0]] else [] by { assert [s[0]][..0] == []; }
      assert s == [s[0]] + rest;
      hide Select;
      if p(s[0]) {
        assert ([s[0]] + chosen)[1..] == chosen;
      } else {
        assert [] + chosen == chosen;
      }
    }
  }

  lemma {:induction false} ReversedPermutes(s: seq<Item>)
    ensures multiset(Reversed(s)) == multiset(s)
  {
    if s != [] {
      ReversedPermutes(s[1..]);
      assert s == [s[0]] + s[1..];
    }
  }

  lemma {:induction false} ReplacedItem(rows: seq<Row>, items: seq<Item>, idx: map<int, nat>, updated: set<int>, i: nat,
      item: Item)
    requires i < |items| && items[i].id == item.id && Indexes(idx, items)
    ensures Indexes(idx, items[i := item])
    ensures UniqueIds(items) ==> UniqueIds(items[i := item])
    ensures Tracked(rows, items, updated) ==> Tracked(rows, items[i := item], updated + {item.id})
  {
    var items' := items[i := item];
    forall x | x in items' ensures x in items || x == item {
    }
  }

  function Inserted(items: seq<Item>, at: nat, item: Item): seq<Item>
    requires at <= |items|
  {
    items[..at] + [item] + items[at..]
  }

  lemma {:induction false} InsertedAt(items: seq<Item>, at: nat, item: Item, i: nat)
    requires at <= |items| && i <= |items|
    ensures |Inserted(items, at, item)| == |items| + 1
    ensures Inserted(items, at, item)[i] == if i < at then items[i] else if i == at then item else items[i - 1]
    ensures forall x :: x in Inserted(items, at, item) ==> x in items || x == item
  {
  }

  lemma {:induction false} InsertedUnique(items: seq<Item>, at: nat, item: Item)
    requires at <= |items| && UniqueIds(items) && forall x :: x in items ==> x.id != item.id
    ensures UniqueIds(Inserted(items, at, item))
  {
    var more := Inserted(items, at, item);
    InsertedAt(items, at, item, 0);
    hide Inserted;
    forall i, j | 0 <= i < j < |more| ensures more[i].id != more[j].id {
      InsertedAt(items, at, item, i);
      InsertedAt(items, at, item, j);
    }
  }

  lemma {:induction false} InsertedIndexes(items: seq<Item>, idx: map<int, nat>, at: nat, item: Item)
    requires at <= |items| && Indexes(idx, items) && forall x :: x in items ==> x.id != item.id
    ensures var more := Inserted(items, at, item); Indexes(Numbered(idx, more, at, |more|), more)
  {
    var more := Inserted(items, at, item);
    IndexedUnique(idx, items);
    InsertedUnique(items, at, item);
    InsertedAt(items, at, item, 0);
    hide Inserted;
    forall i | 0 <= i < at ensures more[i] == items[i] {
      InsertedAt(items, at, item, i);
    }
    forall id | id in idx ensures exists i :: 0 <= i < |more| && more[i].id == id {
      var k := idx[id];
      InsertedAt(items, at, item, if k < at then k else k + 1);
      assert more[if k < at then k else k + 1].id == id;
    }
    NumberedIndexes(idx, more, at);
  }

  /** The index is right after an insertion just when the item's position and id are numbered, and only its. */
  lemma {:induction false} InsertedItem(
      rows: seq<Row>, items: seq<Item>, idx: map<int, nat>, updated: set<int>, insertBefore: int, item: Item)
    ensures var at := SplicePosition(insertBefore, |items|); var more := Inserted(items, at, item);
      && (Tracked(rows, items, updated) && UnusedId(rows, item.id) ==> Tracked(rows, more, updated))
      && (UniqueIds(items) && UnusedIn(items, item.id) ==> UniqueIds(more))
      && (insertBefore < 0 && Indexes(idx, items) ==> !Indexes(idx, more))
      && (0 <= insertBefore && Indexes(idx, items) ==>
            (Indexes(Numbered(idx, more, insertBefore, |more|), more) <==>
               insertBefore <= |items| && UnusedIn(items, item.id)))
  {
    var at := SplicePosition(insertBefore, |items|);
    var more := Inserted(items, at, item);
    InsertedAt(items, at, item, at);
    if UniqueIds(items) && UnusedIn(items, item.id) {
      InsertedUnique(items, at, item);
    }
    if Indexes(idx, items) {
      IndexedUnique(idx, items);
      if !UnusedIn(items, item.id) {
        InsertedTwice(items, at, item);
      } else if at == insertBefore {
        InsertedIndexes(items, idx, at, item);
      } else {
        assert item.id !in idx;
        assert more[at].id == item.id;
      }
    }
    hide Inserted;
  }

  lemma {:induction false} InsertedTwice(items: seq<Item>, at: nat, item: Item)
    requires at <= |items| && !UnusedIn(items, item.id)
    ensures !UniqueIds(Inserted(items, at, item))
    ensures forall idx :: !Indexes(idx, Inserted(items, at, item))
  {
    var more := Inserted(items, at, item);
    var k :| 0 <= k < |items| && items[k].id == item.id;
    var i := if k < at then k else k + 1;
    InsertedAt(items, at, item, i);
    InsertedAt(items, at, item, at);
    assert more[i].id == more[at].id;
  }

  lemma {:induction false} IndexedUnique(idx: map<int, nat>, items: seq<Item>)
    requires Indexes(idx, items)
    ensures UniqueIds(items)
  {
  }

  /** Renumbering from `lo` repairs the index if it was right before `lo`. */
  lemma {:induction false} NumberedIndexes(idx: map<int, nat>, items: seq<Item>, lo: nat)
    requires lo <= |items| && UniqueIds(items)
    requires forall i :: 0 <= i < lo ==> items[i].id in idx && idx[items[i].id] == i
    requires forall id :: id in idx ==> exists i :: 0 <= i < |items| && items[i].id == id
    ensures Indexes(Numbered(idx, items, lo, |items|), items)
  {
    NumberedTo(idx, items, lo, |items|);
  }

  lemma {:induction false} NumberedTo(idx: map<int, nat>, items: seq<Item>, lo: nat, hi: nat)
    requires lo <= hi <= |items| && UniqueIds(items)
    requires forall i :: 0 <= i < lo ==> items[i].id in idx && idx[items[i].id] == i
    ensures var m := Numbered(idx, items, lo, hi); forall i :: 0 <= i < hi ==> items[i].id in m && m[items[i].id] == i
    ensures var m := Numbered(idx, items, lo, hi);
      forall id :: id in m ==> id in idx || exists i :: 0 <= i < hi && items[i].id == id
    decreases hi
  {
    if lo < hi {
      NumberedTo(idx, items, lo, hi - 1);
    }
  }

  lemma {:induction false} RemovedItem(rows: seq<Row>, items: seq<Item>, idx: map<int, nat>, updated: set<int>, i: nat)
    requires i < |items| && Indexes(idx, items)
    ensures var items' := items[..i] + items[i + 1..];
      Indexes(Numbered(idx - {items[i].id}, items', i, |items'|), items')
    ensures var items' := items[..i] + items[i + 1..]; UniqueIds(items')
    ensures var items' := items[..i] + items[i + 1..]; Tracked(rows, items, updated) ==> Tracked(rows, items', updated)
  {
    var items' := items[..i] + items[i + 1..];
    IndexedUnique(idx, items);
    assert forall k :: 0 <= k < |items'| ==> items'[k] == items[if k < i then k else k + 1];
    forall id | id in idx - {items[i].id} ensures exists k :: 0 <= k < |items'| && items'[k].id == id {
      var k := idx[id];
      assert k != i;
      assert items[k] == items'[if k < i then k else k - 1];
    }
    NumberedIndexes(idx - {items[i].id}, items', i);
    forall x | x in items' ensures x in items {
    }
  }

  lemma {:induction false} RearrangedItems(rows: seq<Row>, items: seq<Item>, sorted: seq<Item>, updated: set<int>)
    requires UniqueIds(items) && multiset(sorted) == multiset(items)
    ensures UniqueIds(sorted) && Indexes(Numbered(map[], sorted, 0, |sorted|), sorted)
    ensures Tracked(rows, items, updated) ==> Tracked(rows, sorted, updated)
  {
    forall x ensures x in sorted <==> x in items {
      assert x in sorted <==> x in multiset(sorted);
    }
    forall i, j | 0 <= i < j < |sorted| ensures sorted[i].id != sorted[j].id {
      assert sorted == sorted[..i] + [sorted[i]] + sorted[i + 1..j] + [sorted[j]] + sorted[j + 1..];
      if sorted[i] == sorted[j] {
        assert multiset(sorted)[sorted[i]] >= 2;
        OnceOnly(items, sorted[i]);
      } else if sorted[i].id == sorted[j].id {
        SameId(items, sorted[i], sorted[j]);
      }
    }
    NumberedIndexes(map[], sorted, 0);
  }

  lemma {:induction false} OnceOnly(items: seq<Item>, x: Item)
    requires UniqueIds(items)
    ensures multiset(items)[x] <= 1
  {
    if items != [] {
      OnceOnly(items[1..], x);
      assert items == [items[0]] + items[1..];
      if items[0] == x {
        assert x !in items[1..];
      }
    }
  }

  /** The map after numbering the items `lo..hi`. */
  function Numbered(idx: map<int, nat>, items: seq<Item>, lo: nat, hi: nat): map<int, nat>
    requires hi <= |items|
  {
    if hi <= lo then idx else Numbered(idx, items, lo, hi - 1)[items[hi - 1].id := hi - 1]
  }

  /** Numbering all items leaves each id with the last position that has it. */
  lemma {:induction false} NumberedAll(items: seq<Item>, hi: nat)
    requires hi <= |items|
    ensures var idx := Numbered(map[], items, 0, hi);
      forall i :: 0 <= i < hi ==> items[i].id in idx && i <= idx[items[i].id]
    ensures var idx := Numbered(map[], items, 0, hi); forall id :: id in idx ==> idx[id] < hi && items[idx[id]].id == id
  {
    if hi > 0 {
      NumberedAll(items, hi - 1);
    }
  }

  /** A refresh without misleading hints keeps the grid in step with the rows. */
  lemma {:induction false} StillFollowed(items: seq<Item>, accept: Item -> bool, pagesize: nat, pagenum: Option<nat>,
      infos: seq<GroupingInfo>, toggled: seq<map<Text, bool>>, updated: set<int>, hints: Hints,
      mirror: seq<Row>, was: seq<Row>, rows: seq<Row>, diff: seq<int>)
    requires |infos| == |toggled| && Sortable(infos)
    requires rows == Shown(infos, toggled, Page(Select(items, accept), pagesize, pagenum))
    requires Reports(diff, infos != [], updated, hints, was, rows)
    requires !Given(hints.ignoreDiffsBefore) && !Given(hints.ignoreDiffsAfter)
    requires Mirrors(mirror, was) && Tracked(was, items, updated) && UniqueIds(items)
    ensures Mirrors(Redrawn(mirror, diff, rows), rows) && Tracked(rows, items, {})
  {
    var paged := Page(Select(items, accept), pagesize, pagenum);
    forall r | r in rows ensures (infos == [] ==> r.Data?) && (r.Data? ==> r.item in items) {
      ShownAreItems(infos, toggled, paged, r);
      SelectIsIn(items, accept);
    }
    hide Shown, Page, Select, Mirrors, Redrawn, Reports;
    RedrawnMirrors(infos != [], updated, hints, mirror, was, rows, diff);
    forall i | 0 <= i < |was| && i < |rows| ensures !SilentChange(updated, was[i], rows[i]) {
      assert rows[i] in rows && was[i] in was;
    }
    forall r, x | r in rows && r.Data? && x in items && x.id == r.item.id ensures x == r.item {
      SameId(items, x, r.item);
    }
  }

  lemma {:induction false} SameId(items: seq<Item>, x: Item, y: Item)
    requires UniqueIds(items) && x in items && y in items && x.id == y.id
    ensures x == y
  {
    var i :| 0 <= i < |items| && items[i] == x;
    var j :| 0 <= j < |items| && items[j] == y;
  }

  lemma {:induction false} NarrowedAgain(items: seq<Item>, filtered: seq<Item>, last: Option<Snapshot>,
      accept: Item -> bool)
    ensures var narrower := last.Some? && items == last.value.items && forall x :: x in items && accept(x) ==>
      last.value.accept(x);
      narrower && filtered == Select(items, last.value.accept) ==> Select(filtered, accept) == Select(items, accept)
  {
    if last.Some? && (forall x :: x in items && accept(x) ==> last.value.accept(x)) {
      SelectTwice(items, last.value.accept, accept, accept);
    }
  }

  lemma {:induction false} UnchangedAgain(items: seq<Item>, last: Option<Snapshot>, accept: Item -> bool)
    ensures last.Some? && (forall x :: x in items ==> (last.value.accept(x) <==> accept(x))) ==>
      Select(items, last.value.accept) == Select(items, accept)
  {
    if last.Some? && forall x :: x in items ==> (last.value.accept(x) <==> accept(x)) {
      SelectTwice(items, last.value.accept, accept, accept);
      SelectIsIn(items, last.value.accept);
      SelectAll(Select(items, last.value.accept), accept);
    }
  }
}
