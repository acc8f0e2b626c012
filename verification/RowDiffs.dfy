/** Which rows a refresh reports as changed, and what a grid that redraws only those ends up showing. */
module RowDiffs {
  import opened Options
  import opened RowGrouping

  /** Promises of the caller about the next refresh. */
  datatype Hints = Hints(isFilterNarrowing: bool, isFilterExpanding: bool, isFilterUnchanged: bool,
    ignoreDiffsBefore: Option<int>, ignoreDiffsAfter: Option<int>)

  const NO_HINTS := Hints(false, false, false, None, None)

  predicate Given(hint: Option<int>) {
    hint.Some? && hint.value != 0
  }

  function Min(a: int, b: int): int {
    if a < b then a else b
  }

  function Max(a: int, b: int): int {
    if a < b then b else a
  }

  function DiffsFrom(hints: Hints, n: nat): nat {
    if Given(hints.ignoreDiffsBefore) then Max(0, Min(n, hints.ignoreDiffsBefore.value)) else 0
  }

  function DiffsTo(hints: Hints, n: nat): nat {
    if Given(hints.ignoreDiffsAfter) then Min(n, Max(0, hints.ignoreDiffsAfter.value)) else n
  }

  /** The id of a data row; headers and totals have none. */
  function IdOf(r: Row): Option<int> {
    if r.Data? then Some(r.item.id) else None
  }

  /** Two headers that `Group.equals` takes for the same. */
  predicate SameGroup(g: Group, h: Group) {
    g.value == h.value && g.count == h.count && g.collapsed == h.collapsed && g.title == h.title
  }

  /** The new row `item` is reported as changed from the old row `r`. */
  predicate Dirty(grouped: bool, updated: set<int>, item: Row, r: Row) {
    var eitherIsNonData := grouped && (!item.Data? || !r.Data?);
    || (eitherIsNonData && item.Header? != r.Header?)
    || (item.Header? && !(r.Header? && SameGroup(item.group, r.group)))
    || (eitherIsNonData && (item.Totals? || r.Totals?))
    || IdOf(item) != IdOf(r)
    || (item.Data? && item.item.id in updated)
  }

  /** The positions a refresh reports. */
  predicate Reported(grouped: bool, updated: set<int>, hints: Hints, rows: seq<Row>, newRows: seq<Row>, i: int) {
    && DiffsFrom(hints, |newRows|) <= i < DiffsTo(hints, |newRows|)
    && (i >= |rows| || Dirty(grouped, updated, newRows[i], rows[i]))
  }

  ghost predicate Reports(diff: seq<int>, grouped: bool, updated: set<int>, hints: Hints, rows: seq<Row>,
      newRows: seq<Row>) {
    forall i :: i in diff <==> Reported(grouped, updated, hints, rows, newRows, i)
  }

  /**
   The positions that can be reported: from the hint for the first difference on, if there is one, and before the
   hint for the last one, if that is there and not 0.
   */
  lemma {:induction false} ReportedIff(grouped: bool, updated: set<int>, hints: Hints, rows: seq<Row>,
      newRows: seq<Row>, i: int)
    ensures Reported(grouped, updated, hints, rows, newRows, i) <==>
      && 0 <= i < |newRows|
      && (hints.ignoreDiffsBefore.Some? ==> hints.ignoreDiffsBefore.value <= i)
      && (hints.ignoreDiffsAfter.Some? && hints.ignoreDiffsAfter.value != 0 ==> i < hints.ignoreDiffsAfter.value)
      && (i >= |rows| || Dirty(grouped, updated, newRows[i], rows[i]))
  {
    hide Dirty;
  }

  method GetRowDiffs(grouped: bool, updated: set<int>, hints: Hints, rows: seq<Row>, newRows: seq<Row>)
      returns (diff: seq<int>)
    ensures Reports(diff, grouped, updated, hints, rows, newRows)
    ensures forall j, k :: 0 <= j < k < |diff| ==> diff[j] < diff[k]
  {
    diff := [];
    var from, to := 0, |newRows|;
    if Given(hints.ignoreDiffsBefore) {
      from := Max(0, Min(|newRows|, hints.ignoreDiffsBefore.value));
    }
    if Given(hints.ignoreDiffsAfter) {
      to := Min(|newRows|, Max(0, hints.ignoreDiffsAfter.value));
    }
    var i := from;
    while i < to
      invariant from <= i
      invariant forall k :: k in diff <==> Reported(grouped, updated, hints, rows, newRows, k) && k < i
      invariant forall j :: 0 <= j < |diff| ==> diff[j] < i
      invariant forall j, k :: 0 <= j < k < |diff| ==> diff[j] < diff[k]
    {
      hide Dirty;
      if i >= |rows| || Dirty(grouped, updated, newRows[i], rows[i]) {
        diff := diff + [i];
      }
      i := i + 1;
    }
  }

  /** What a grid shows that redraws the reported rows and those it had not shown, and keeps the others. */
  function Redrawn(mirror: seq<Row>, diff: seq<int>, newRows: seq<Row>): seq<Row> {
    seq(|newRows|, i requires 0 <= i < |newRows| => if i in diff || i >= |mirror| then newRows[i] else mirror[i])
  }

  /** Rows that look the same: equal, or headers with the same value, count, state and title. */
  predicate Alike(a: Row, b: Row) {
    if a.Header? && b.Header? then
      var g, h := a.group, b.group;
      g.value == h.value && g.count == h.count && g.collapsed == h.collapsed && g.title == h.title
    else a == b
  }

  ghost predicate Mirrors(mirror: seq<Row>, rows: seq<Row>) {
    |mirror| == |rows| && forall i :: 0 <= i < |rows| ==> Alike(mirror[i], rows[i])
  }

  /** An item whose content changed in place without being marked as updated. */
  predicate SilentChange(updated: set<int>, r: Row, item: Row) {
    r.Data? && item.Data? && r.item.id == item.item.id && r.item != item.item && item.item.id !in updated
  }

  /**
   The comparison of rows misses changed content under an unchanged id, and nothing else; it finds only rows that
   look different, totals, and items marked as updated.
   */
  lemma {:induction false} DirtyUnlessAlike(grouped: bool, updated: set<int>, item: Row, r: Row)
    requires grouped || item.Data?
    ensures !Dirty(grouped, updated, item, r) ==> (Alike(r, item) <==> !SilentChange(updated, r, item))
    ensures Dirty(grouped, updated, item, r) <==>
      || (!Alike(r, item) && !SilentChange(updated, r, item))
      || item.Totals?
      || (item.Data? && item.item.id in updated)
  {
  }

  /**
   A grid that showed the old rows shows the new rows after redrawing exactly if no row outside the reported
   ones differs; without hints, exactly if no item was changed in place without being marked as updated.
   */
  lemma {:induction false} RedrawnMirrors(grouped: bool, updated: set<int>, hints: Hints, mirror: seq<Row>,
      rows: seq<Row>, newRows: seq<Row>, diff: seq<int>)
    requires Mirrors(mirror, rows)
    requires forall r :: r in newRows ==> grouped || r.Data?
    requires Reports(diff, grouped, updated, hints, rows, newRows)
    ensures Mirrors(Redrawn(mirror, diff, newRows), newRows) <==>
      forall i :: 0 <= i < |rows| && i < |newRows| && i !in diff ==> Alike(rows[i], newRows[i])
    ensures !Given(hints.ignoreDiffsBefore) && !Given(hints.ignoreDiffsAfter) ==>
      (Mirrors(Redrawn(mirror, diff, newRows), newRows) <==>
        forall i :: 0 <= i < |rows| && i < |newRows| ==> !SilentChange(updated, rows[i], newRows[i]))
  {
    var drawn := Redrawn(mirror, diff, newRows);
    forall i | 0 <= i < |newRows|
      ensures Alike(drawn[i], newRows[i]) <==> i in diff || i >= |rows| || Alike(rows[i], newRows[i])
    {
      if i < |rows| {
        assert Alike(mirror[i], rows[i]);
      }
    }
    if !Given(hints.ignoreDiffsBefore) && !Given(hints.ignoreDiffsAfter) {
      forall i | 0 <= i < |rows| && i < |newRows|
        ensures (i in diff || Alike(rows[i], newRows[i])) <==> !SilentChange(updated, rows[i], newRows[i])
      {
        assert newRows[i] in newRows;
        assert i in diff <==> Dirty(grouped, updated, newRows[i], rows[i]);
        DirtyUnlessAlike(grouped, updated, newRows[i], rows[i]);
        SilentIsClean(grouped, updated, newRows[i], rows[i]);
      }
    }
  }

  lemma {:induction false} SilentIsClean(grouped: bool, updated: set<int>, item: Row, r: Row)
    ensures SilentChange(updated, r, item) ==> !Dirty(grouped, updated, item, r) && !Alike(r, item)
  {
  }
}
