/** Keyboard navigation over a grid whose cells may span several columns and may refuse the focus. */
module GridNavigation {
  import opened Options

  /** The number of columns a cell covers. */
  type Span = n: int | 1 <= n witness 1

  /** What navigation reads from the grid: its size (new row included), the focus rules and the column spans. */
  datatype Grid = Grid(rows: nat, cols: nat, focusable: (int, int) -> bool, colspan: (int, int) -> Span) {
    predicate CanBeActive(row: int, cell: int) {
      0 <= row < rows && 0 <= cell < cols && focusable(row, cell)
    }
  }

  /** `posX` is the column that vertical moves aim for; horizontal moves reset it to the cell reached. */
  datatype Position = Position(row: int, cell: nat, posX: nat)

  function At(row: int, cell: nat): Position {
    Position(row, cell, cell)
  }

  function First<T>(s: seq<T>): Option<T> {
    if s == [] then None else Some(s[0])
  }

  function Last<T>(s: seq<T>): Option<T> {
    if s == [] then None else Some(s[|s| - 1])
  }

  // ---------------------------------------------------------------------------------------------
  // The tab order

  /** The focusable cells met in `row` when stepping from span to span, starting at column `cell`. */
  function RowCells(g: Grid, row: int, cell: nat): seq<Position>
    decreases g.cols - cell
  {
    if cell >= g.cols then []
    else (if g.CanBeActive(row, cell) then [At(row, cell)] else []) + RowCells(g, row, cell + g.colspan(row, cell))
  }

  predicate IsStop(g: Grid, row: int, from: nat, x: Position) {
    x == At(row, x.cell) && from <= x.cell && g.CanBeActive(row, x.cell)
  }

  lemma {:induction false} RowStops(g: Grid, row: int, from: nat)
    ensures forall x :: x in RowCells(g, row, from) ==> IsStop(g, row, from, x)
    decreases g.cols - from
  {
    if from < g.cols {
      RowStops(g, row, from + g.colspan(row, from));
    }
  }

  function RowsFrom(g: Grid, row: int): seq<Position>
    decreases g.rows - row
  {
    if row >= g.rows then [] else RowCells(g, row, 0) + RowsFrom(g, row + 1)
  }

  function RowsAbove(g: Grid, row: int): seq<Position>
    decreases row
  {
    if row <= 0 then [] else RowsAbove(g, row - 1) + RowCells(g, row - 1, 0)
  }

  /** Every stop of the Tab key, in order. */
  function TabOrder(g: Grid): seq<Position> {
    RowsFrom(g, 0)
  }

  /** Column `cell` begins a span when stepping through `row` from column `from`. */
  predicate StartsSpan(g: Grid, row: int, from: nat, cell: nat)
    decreases g.cols - from
  {
    from == cell || (from < cell && from < g.cols && StartsSpan(g, row, from + g.colspan(row, from), cell))
  }

  predicate RowMajorBefore(x: Position, y: Position) {
    x.row < y.row || (x.row == y.row && x.cell < y.cell)
  }

  predicate Increasing(s: seq<Position>) {
    forall i, j :: 0 <= i < j < |s| ==> RowMajorBefore(s[i], s[j])
  }

  lemma {:induction false} RowCellsAreSpanStarts(g: Grid, row: int, from: nat, cell: nat)
    ensures At(row, cell) in RowCells(g, row, from) <==> g.CanBeActive(row, cell) && StartsSpan(g, row, from, cell)
    decreases g.cols - from
  {
    if from < g.cols {
      RowStops(g, row, from + g.colspan(row, from));
      RowCellsAreSpanStarts(g, row, from + g.colspan(row, from), cell);
    }
  }

  lemma {:induction false} RowCellsIncrease(g: Grid, row: int, from: nat)
    ensures Increasing(RowCells(g, row, from))
    decreases g.cols - from
  {
    if from < g.cols {
      var rest := RowCells(g, row, from + g.colspan(row, from));
      RowCellsIncrease(g, row, from + g.colspan(row, from));
      RowStops(g, row, from + g.colspan(row, from));
      assert forall j :: 0 <= j < |rest| ==> rest[j] in rest;
    }
  }

  lemma {:induction false} RowsFromMembers(g: Grid, row: nat, x: Position)
    ensures x in RowsFrom(g, row) <==> row <= x.row < g.rows && x in RowCells(g, x.row, 0)
    decreases g.rows - row
  {
    if row < g.rows {
      RowStops(g, row, 0);
      RowsFromMembers(g, row + 1, x);
    }
  }

  /** The Tab key stops at exactly the focusable cells that begin a span. */
  lemma {:induction false} TabOrderMembers(g: Grid, row: int, cell: nat)
    ensures At(row, cell) in TabOrder(g) <==> g.CanBeActive(row, cell) && StartsSpan(g, row, 0, cell)
    ensures forall x :: x in TabOrder(g) ==> x == At(x.row, x.cell)
  {
    RowsFromMembers(g, 0, At(row, cell));
    RowCellsAreSpanStarts(g, row, 0, cell);
    forall x | x in TabOrder(g) ensures x == At(x.row, x.cell) {
      RowsFromMembers(g, 0, x);
      RowStops(g, x.row, 0);
    }
  }

  /** The Tab key goes down the rows and rightwards in each, so no cell is a stop twice. */
  lemma {:induction false} RowsFromIncrease(g: Grid, row: nat)
    ensures Increasing(RowsFrom(g, row))
    decreases g.rows - row
  {
    if row < g.rows {
      var here, below := RowCells(g, row, 0), RowsFrom(g, row + 1);
      RowCellsIncrease(g, row, 0);
      RowsFromIncrease(g, row + 1);
      RowStops(g, row, 0);
      forall i, j | 0 <= i < |here| && 0 <= j < |below| ensures RowMajorBefore(here[i], below[j]) {
        assert here[i] in here && below[j] in below;
        RowsFromMembers(g, row + 1, below[j]);
      }
    }
  }

  lemma {:induction false} SplitAtRow(g: Grid, row: nat)
    requires row <= g.rows
    ensures TabOrder(g) == RowsAbove(g, row) + RowsFrom(g, row)
    decreases row
  {
    if row > 0 {
      SplitAtRow(g, row - 1);
      assert RowsAbove(g, row - 1) + (RowCells(g, row - 1, 0) + RowsFrom(g, row))
          == (RowsAbove(g, row - 1) + RowCells(g, row - 1, 0)) + RowsFrom(g, row);
    }
  }

  // ---------------------------------------------------------------------------------------------
  // Moving within a row

  /** The stops right of a position, whether or not the position itself is one. */
  function RightOf(g: Grid, row: int, cell: nat): seq<Position> {
    if cell >= g.cols then [] else RowCells(g, row, cell + g.colspan(row, cell))
  }

  function Before(s: seq<Position>, cell: int): seq<Position> {
    if s == [] || s[0].cell >= cell then [] else [s[0]] + Before(s[1..], cell)
  }

  /** The stops of `row` left of column `cell`. */
  function LeftOf(g: Grid, row: int, cell: int): seq<Position> {
    Before(RowCells(g, row, 0), cell)
  }

  /** Some stop of the row lies at or right of column `cell`. */
  ghost predicate HasStopFrom(g: Grid, row: int, cell: int) {
    exists x :: x in RowCells(g, row, 0) && x.cell >= cell
  }

  lemma {:induction false} BeforeAppend(s: seq<Position>, t: seq<Position>, cell: int)
    requires forall x :: x in s ==> x.cell < cell
    ensures Before(s + t, cell) == s + Before(t, cell)
  {
    if s == [] {
      assert s + t == t;
    } else {
      assert s[0] in s;
      assert (s + t)[1..] == s[1..] + t;
      BeforeAppend(s[1..], t, cell);
      assert [s[0]] + (s[1..] + Before(t, cell)) == s + Before(t, cell);
    }
  }

  lemma {:induction false} MoveOver(s: seq<Position>, x: Position, t: seq<Position>)
    ensures s + ([x] + t) == (s + [x]) + t
    ensures Last(s + [x]) == Some(x)
  {
  }

  lemma {:induction false} Step(g: Grid, row: int, cell: nat)
    requires cell < g.cols
    ensures RightOf(g, row, cell) == RowCells(g, row, cell + g.colspan(row, cell))
    ensures g.CanBeActive(row, cell) ==> RowCells(g, row, cell) == [At(row, cell)] + RightOf(g, row, cell)
    ensures !g.CanBeActive(row, cell) ==> RowCells(g, row, cell) == RightOf(g, row, cell)
  {
  }

  method FindFirstFocusableCell(g: Grid, row: int) returns (first: Option<nat>)
    ensures first == None <==> RowCells(g, row, 0) == []
    ensures first.Some? ==> First(RowCells(g, row, 0)) == Some(At(row, first.value))
    ensures first.Some? ==> RowCells(g, row, 0) == RowCells(g, row, first.value) && g.CanBeActive(row, first.value)
  {
    var cell := 0;
    while cell < g.cols
      invariant RowCells(g, row, 0) == RowCells(g, row, cell)
    {
      if g.CanBeActive(row, cell) {
        return Some(cell);
      }
      cell := cell + g.colspan(row, cell);
    }
    return None;
  }

  method FindLastFocusableCell(g: Grid, row: int) returns (last: Option<nat>)
    ensures last == None <==> RowCells(g, row, 0) == []
    ensures last.Some? ==> Last(RowCells(g, row, 0)) == Some(At(row, last.value))
  {
    var cell := 0;
    last := None;
    ghost var seen: seq<Position> := [];
    assert Last(seen) == None;
    assert RowCells(g, row, 0) == seen + RowCells(g, row, 0);
    while cell < g.cols
      invariant RowCells(g, row, 0) == seen + RowCells(g, row, cell)
      invariant Last(seen) == if last.None? then None else Some(At(row, last.value))
    {
      hide RowCells, RightOf, Last, Grid.CanBeActive, At;
      Step(g, row, cell);
      if g.CanBeActive(row, cell) {
        last := Some(cell);
        MoveOver(seen, At(row, cell), RightOf(g, row, cell));
        seen := seen + [At(row, cell)];
      }
      cell := cell + g.colspan(row, cell);
    }
  }

  method GotoRight(g: Grid, row: int, start: nat) returns (pos: Option<Position>)
    ensures pos == First(RightOf(g, row, start))
    ensures pos.Some? ==> RightOf(g, row, start) == RowCells(g, row, pos.value.cell)
    ensures pos.Some? ==>
      start < pos.value.cell && g.CanBeActive(row, pos.value.cell) && pos.value == At(row, pos.value.cell)
  {
    var cell := start;
    if cell >= g.cols {
      return None;
    }
    cell := cell + g.colspan(row, cell);
    while cell < g.cols && !g.CanBeActive(row, cell)
      invariant RightOf(g, row, start) == RowCells(g, row, cell) && start < cell
      decreases g.cols - cell
    {
      cell := cell + g.colspan(row, cell);
    }
    return if cell < g.cols then Some(At(row, cell)) else None;
  }

  /** `prev` is a stop left of column `cell`, and `seen` are the stops of the row before it. */
  predicate Seen(g: Grid, row: int, cell: int, seen: seq<Position>, prev: Position) {
    && prev == At(row, prev.cell) && prev.cell < cell && g.CanBeActive(row, prev.cell)
    && (forall x :: x in seen ==> x.cell < cell)
    && RowCells(g, row, 0) == seen + RowCells(g, row, prev.cell)
  }

  /** What the next stop on the right of `prev` says about the stop left of column `cell`. */
  lemma {:induction false} SeenStep(g: Grid, row: int, cell: int, seen: seq<Position>, prev: Position)
    requires Seen(g, row, cell, seen, prev)
    ensures var right := RightOf(g, row, prev.cell); right == [] ==> !HasStopFrom(g, row, cell)
    ensures var right := RightOf(g, row, prev.cell); right != [] && right[0].cell >= cell ==>
      HasStopFrom(g, row, cell) && Last(LeftOf(g, row, cell)) == Some(prev)
    ensures var right := RightOf(g, row, prev.cell); RowCells(g, row, 0) == (seen + [prev]) + right
  {
    var right := RightOf(g, row, prev.cell);
    assert RowCells(g, row, 0) == (seen + [prev]) + right by { MoveOver(seen, prev, right); }
    BeforeAppend(seen + [prev], right, cell);
    hide RowCells, RightOf;
    if right != [] {
      assert right[0] in RowCells(g, row, 0);
      assert right[0].cell >= cell ==> Before(right, cell) == [] && LeftOf(g, row, cell) == seen + [prev];
    }
  }

  lemma {:induction false} NothingLeft(g: Grid, row: int, cell: int)
    requires cell <= 0 || RowCells(g, row, 0) == [] || RowCells(g, row, 0)[0].cell >= cell
    ensures Last(LeftOf(g, row, cell)) == None
  {
    hide RowCells;
  }

  /** The step left gives up, although there are stops on the left, when there is none at or right of `cell`. */
  method GotoLeft(g: Grid, row: int, cell: int) returns (pos: Option<Position>)
    ensures pos == if HasStopFrom(g, row, cell) then Last(LeftOf(g, row, cell)) else None
  {
    if cell <= 0 {
      NothingLeft(g, row, cell);
      return None;
    }
    var first := FindFirstFocusableCell(g, row);
    if first.None? || first.value >= cell {
      NothingLeft(g, row, cell);
      return None;
    }
    hide RowCells, LeftOf, RightOf, HasStopFrom, Last, Before;
    var prev := At(row, first.value);
    ghost var seen: seq<Position> := [];
    assert RowCells(g, row, 0) == seen + RowCells(g, row, 0);
    while true
      invariant Seen(g, row, cell, seen, prev)
      decreases g.cols - prev.cell
    {
      SeenStep(g, row, cell, seen, prev);
      var next := GotoRight(g, row, prev.cell);
      if next.None? {
        return None;
      }
      if next.value.cell >= cell {
        return Some(prev);
      }
      seen := seen + [prev];
      prev := next.value;
    }
  }

  // ---------------------------------------------------------------------------------------------
  // The Tab and Shift-Tab keys

  /** Where Tab leads: the first stop after the position, or the first stop at all when there is no position. */
  function NextStop(g: Grid, from: Option<Position>): Option<Position> {
    match from
    case None => First(TabOrder(g))
    case Some(p) => First(RightOf(g, p.row, p.cell) + RowsFrom(g, p.row + 1))
  }

  /** Where Shift-Tab leads from a position. */
  ghost function PrevStop(g: Grid, row: int, cell: int): Option<Position> {
    Last(RowsAbove(g, row) + (if HasStopFrom(g, row, cell) then LeftOf(g, row, cell) else []))
  }

  /** One round of the Shift-Tab loop. */
  lemma {:induction false} PrevStopStep(g: Grid, row: int, cell: int)
    ensures var left := if HasStopFrom(g, row, cell) then Last(LeftOf(g, row, cell)) else None;
      PrevStop(g, row, cell) == if left.Some? then left else if row <= 0 then None
        else if RowCells(g, row - 1, 0) == [] then PrevStop(g, row - 1, 0) else Last(RowCells(g, row - 1, 0))
  {
    hide RowCells;
    var above := RowsAbove(g, row);
    if row > 0 {
      assert above == RowsAbove(g, row - 1) + RowCells(g, row - 1, 0);
      assert RowCells(g, row - 1, 0) == [] ==> LeftOf(g, row - 1, 0) == [];
    }
  }

  method GotoNext(g: Grid, from: Option<Position>) returns (pos: Option<Position>)
    ensures pos == NextStop(g, from)
  {
    var row, cell := 0, 0;
    if from.None? {
      if g.CanBeActive(row, cell) {
        return Some(At(row, cell));
      }
      assert RowCells(g, 0, 0) == RightOf(g, 0, 0);
      RowStops(g, 0, 0);
      if RightOf(g, 0, 0) != [] {
        assert RightOf(g, 0, 0)[0] in RightOf(g, 0, 0);
      }
    } else {
      row, cell := from.value.row, from.value.cell;
    }
    pos := GotoRight(g, row, cell);
    if pos.Some? {
      return;
    }
    row := row + 1;
    while row < g.rows
      invariant NextStop(g, from) == First(RowsFrom(g, row))
    {
      var first := FindFirstFocusableCell(g, row);
      if first.Some? {
        return Some(At(row, first.value));
      }
      row := row + 1;
    }
  }

  /** Where Shift-Tab leads when no cell is active: the bottom right cell, or else above the last row. */
  function EntryStop(g: Grid): Option<Position> {
    if g.CanBeActive(g.rows - 1, g.cols - 1) then Some(At(g.rows - 1, g.cols - 1)) else Last(RowsAbove(g, g.rows - 1))
  }

  /** Starting left from the bottom right cell, no stop is found in the last row unless that cell is one. */
  lemma {:induction false} NothingFromCorner(g: Grid)
    requires !g.CanBeActive(g.rows - 1, g.cols - 1)
    ensures EntryStop(g) == PrevStop(g, g.rows - 1, g.cols - 1)
  {
    var cells := RowCells(g, g.rows - 1, 0);
    RowStops(g, g.rows - 1, 0);
    forall x | x in cells ensures x.cell < g.cols - 1 {
      assert g.CanBeActive(g.rows - 1, x.cell);
    }
  }

  method GotoPrev(g: Grid, from: Option<Position>) returns (pos: Option<Position>)
    ensures from.Some? ==> pos == PrevStop(g, from.value.row, from.value.cell)
    ensures from.None? ==> pos == EntryStop(g)
  {
    var row, cell: int;
    if from.None? {
      row, cell := g.rows - 1, g.cols - 1;
      if g.CanBeActive(row, cell) {
        return Some(At(row, cell));
      }
      assert EntryStop(g) == PrevStop(g, row, cell) by { NothingFromCorner(g); }
    } else {
      row, cell := from.value.row, from.value.cell;
    }
    hide *;
    ghost var goal := PrevStop(g, row, cell);
    pos := None;
    while pos.None?
      invariant goal == if pos.Some? then pos else PrevStop(g, row, cell)
      decreases pos.None?, row
    {
      PrevStopStep(g, row, cell);
      pos := GotoLeft(g, row, cell);
      if pos.Some? {
        break;
      }
      row := row - 1;
      if row < 0 {
        return None;
      }
      cell := 0;
      var last := FindLastFocusableCell(g, row);
      if last.Some? {
        pos := Some(At(row, last.value));
      }
    }
  }

  // ---------------------------------------------------------------------------------------------
  // Tab and Shift-Tab follow the tab order

  /** The `i`-th stop is the `k`-th stop of its row, below `i - k` stops in the rows above. */
  lemma {:induction false} Locate(g: Grid, row: nat, i: nat) returns (k: nat)
    requires row <= g.rows
    requires i < |RowsFrom(g, row)|
    ensures var p := RowsFrom(g, row)[i]; var cells := RowCells(g, p.row, 0);
      row <= p.row < g.rows && k < |cells| && cells[k] == p && |RowsAbove(g, row)| + i == |RowsAbove(g, p.row)| + k
    decreases g.rows - row
  {
    if row < g.rows {
      var here := RowCells(g, row, 0);
      if i < |here| {
        k := i;
        RowStops(g, row, 0);
        assert here[i] in here;
      } else {
        k := Locate(g, row + 1, i - |here|);
      }
    }
  }

  lemma {:induction false} RowSuffix(g: Grid, row: int, from: nat, k: nat)
    requires k < |RowCells(g, row, from)|
    ensures var cells := RowCells(g, row, from); cells[k..] == [cells[k]] + RightOf(g, row, cells[k].cell)
    decreases g.cols - from
  {
    var next := from + g.colspan(row, from);
    if !g.CanBeActive(row, from) {
      RowSuffix(g, row, next, k);
    } else if k > 0 {
      RowSuffix(g, row, next, k - 1);
      assert RowCells(g, row, from)[k..] == RowCells(g, row, next)[k - 1..];
    }
  }

  lemma {:induction false} BeforeIsPrefix(s: seq<Position>, k: nat)
    requires k < |s| && Increasing(s) && forall x :: x in s ==> x.row == s[k].row
    ensures Before(s, s[k].cell) == s[..k]
  {
    if k > 0 {
      assert s[0] in s;
      assert forall x :: x in s[1..] ==> x in s;
      BeforeIsPrefix(s[1..], k - 1);
      assert s[..k] == [s[0]] + s[1..][..k - 1];
    }
  }

  lemma {:induction false} CutSum(above: seq<Position>, cells: seq<Position>, below: seq<Position>, k: nat)
    requires k < |cells|
    ensures (above + (cells + below))[..|above| + k] == above + cells[..k]
    ensures (above + (cells + below))[|above| + k + 1..] == cells[k..][1..] + below
  {
  }

  lemma {:induction false} RowCut(g: Grid, row: int, k: nat)
    requires k < |RowCells(g, row, 0)|
    ensures var cells := RowCells(g, row, 0); var p := cells[k]; p == At(row, p.cell) && HasStopFrom(g, row, p.cell)
    ensures var cells := RowCells(g, row, 0); LeftOf(g, row, cells[k].cell) == cells[..k]
    ensures var cells := RowCells(g, row, 0); RightOf(g, row, cells[k].cell) == cells[k..][1..]
  {
    var cells := RowCells(g, row, 0);
    RowStops(g, row, 0);
    assert cells[k] in cells;
    hide RowCells, RightOf, Before, Increasing;
    RowSuffix(g, row, 0, k);
    RowCellsIncrease(g, row, 0);
    BeforeIsPrefix(cells, k);
  }

  /** Cuts the tab order at its `i`-th stop: what Tab and Shift-Tab look at are the two remaining parts. */
  lemma {:induction false} CutAtStop(g: Grid, i: nat)
    requires i < |TabOrder(g)|
    ensures var p := TabOrder(g)[i]; p == At(p.row, p.cell) && HasStopFrom(g, p.row, p.cell)
    ensures var p := TabOrder(g)[i]; RowsAbove(g, p.row) + LeftOf(g, p.row, p.cell) == TabOrder(g)[..i]
    ensures var p := TabOrder(g)[i]; RightOf(g, p.row, p.cell) + RowsFrom(g, p.row + 1) == TabOrder(g)[i + 1..]
  {
    var p := TabOrder(g)[i];
    var k := Locate(g, 0, i);
    assert RowsAbove(g, 0) == [] && RowsFrom(g, p.row) == RowCells(g, p.row, 0) + RowsFrom(g, p.row + 1);
    hide *;
    SplitAtRow(g, p.row);
    RowCut(g, p.row, k);
    CutSum(RowsAbove(g, p.row), RowCells(g, p.row, 0), RowsFrom(g, p.row + 1), k);
  }

  /** Tab walks the tab order: it enters at the first stop, goes to the following one and leaves after the last. */
  lemma {:induction false} TabFollowsOrder(g: Grid, i: nat)
    requires i < |TabOrder(g)|
    ensures NextStop(g, None) == Some(TabOrder(g)[0])
    ensures NextStop(g, Some(TabOrder(g)[i])) == if i + 1 < |TabOrder(g)| then Some(TabOrder(g)[i + 1]) else None
  {
    CutAtStop(g, i);
    hide RowCells, RowsFrom, RowsAbove, RightOf, Before;
    assert 0 < |TabOrder(g)|;
  }

  lemma {:induction false} TabEnters(g: Grid)
    ensures NextStop(g, None) == if 0 < |TabOrder(g)| then Some(TabOrder(g)[0]) else None
  {
  }

  lemma {:induction false} ShiftTabFollowsOrder(g: Grid, i: nat)
    requires i < |TabOrder(g)|
    ensures var p := TabOrder(g)[i]; PrevStop(g, p.row, p.cell) == if i > 0 then Some(TabOrder(g)[i - 1]) else None
  {
    CutAtStop(g, i);
    hide RowCells, RowsFrom, RowsAbove, RightOf, Before, LeftOf, TabOrder, HasStopFrom;
  }

  /** On the stops, Shift-Tab takes back what Tab did. */
  lemma {:induction false} ShiftTabUndoesTab(g: Grid, i: nat)
    requires i < |TabOrder(g)|
    ensures var p := TabOrder(g)[i]; var next := NextStop(g, Some(p));
      next.Some? ==> PrevStop(g, next.value.row, next.value.cell) == Some(p)
    ensures var p := TabOrder(g)[i]; var prev := PrevStop(g, p.row, p.cell); prev.Some? ==> NextStop(g, prev) == Some(p)
    ensures var p := TabOrder(g)[i]; PrevStop(g, p.row, p.cell) == None <==> i == 0
  {
    hide *;
    ShiftTabFollowsOrder(g, i);
    TabFollowsOrder(g, i);
    if i + 1 < |TabOrder(g)| {
      ShiftTabFollowsOrder(g, i + 1);
    }
    if i > 0 {
      TabFollowsOrder(g, i - 1);
    }
  }

  /** Pressing Tab until it leads nowhere visits every stop once, in order. */
  method TabThrough(g: Grid) returns (visited: seq<Position>)
    ensures visited == TabOrder(g)
  {
    visited := [];
    hide TabOrder, NextStop, First;
    var pos := GotoNext(g, None);
    TabEnters(g);
    while pos.Some?
      invariant |visited| <= |TabOrder(g)| && visited == TabOrder(g)[..|visited|]
      invariant pos == if |visited| < |TabOrder(g)| then Some(TabOrder(g)[|visited|]) else None
      decreases |TabOrder(g)| - |visited|
    {
      TabFollowsOrder(g, |visited|);
      visited := visited + [pos.value];
      pos := GotoNext(g, pos);
    }
  }

  /**
   Entering the grid with Shift-Tab should lead to the last stop. It does exactly when the bottom right cell
   can take the focus and begins a span, or when it cannot and the whole last row has no stop.
   */
  lemma {:induction false} ShiftTabEntersAtLastStop(g: Grid)
    ensures EntryStop(g) == Last(TabOrder(g)) <==>
      if g.CanBeActive(g.rows - 1, g.cols - 1) then StartsSpan(g, g.rows - 1, 0, g.cols - 1)
      else g.rows > 0 ==> RowCells(g, g.rows - 1, 0) == []
  {
    if g.rows > 0 {
      var row := g.rows - 1;
      var cells := RowCells(g, row, 0);
      SplitAtRow(g, row);
      assert RowsFrom(g, row) == cells + RowsFrom(g, row + 1) == cells;
      if g.CanBeActive(row, g.cols - 1) {
        CornerIsLast(g, row);
      } else if cells != [] {
        assert cells[|cells| - 1] in cells;
        AboveIsAbove(g, row);
        RowStops(g, row, 0);
      }
    }
  }

  lemma {:induction false} CornerIsLast(g: Grid, row: nat)
    requires g.rows == row + 1 && g.CanBeActive(row, g.cols - 1)
    ensures Last(TabOrder(g)) == Some(At(row, g.cols - 1)) <==> StartsSpan(g, row, 0, g.cols - 1)
  {
    var all := TabOrder(g);
    var corner := At(row, g.cols - 1);
    TabOrderMembers(g, row, g.cols - 1);
    RowsFromIncrease(g, 0);
    if corner in all {
      var i :| 0 <= i < |all| && all[i] == corner;
      var last := all[|all| - 1];
      RowsFromMembers(g, 0, last);
      RowStops(g, last.row, 0);
      assert last in all && last in RowCells(g, last.row, 0) && g.CanBeActive(last.row, last.cell);
      assert !RowMajorBefore(corner, last);
    }
  }

  lemma {:induction false} AboveIsAbove(g: Grid, row: nat)
    ensures forall x :: x in RowsAbove(g, row) ==> x.row < row
    decreases row
  {
    if row > 0 {
      RowStops(g, row - 1, 0);
      AboveIsAbove(g, row - 1);
    }
  }

  /**
   From any position, a stop or not, Shift-Tab should lead to the last stop before it. It does exactly when
   the row has no stop on the left, or has one at or right of the position.
   */
  lemma {:induction false} ShiftTabFromAnywhere(g: Grid, row: nat, cell: int)
    ensures PrevStop(g, row, cell) == Last(RowsAbove(g, row) + LeftOf(g, row, cell)) <==>
      LeftOf(g, row, cell) == [] || HasStopFrom(g, row, cell)
  {
    var left, above := LeftOf(g, row, cell), RowsAbove(g, row);
    if left != [] {
      RowStops(g, row, 0);
      BeforeWithin(RowCells(g, row, 0), cell);
      AboveIsAbove(g, row);
      assert left[|left| - 1] in left && left[|left| - 1].row == row;
      assert above != [] ==> above[|above| - 1] in above;
    }
  }

  lemma {:induction false} BeforeWithin(s: seq<Position>, cell: int)
    ensures forall x :: x in Before(s, cell) ==> x in s
  {
    if s != [] && s[0].cell < cell {
      BeforeWithin(s[1..], cell);
      assert forall x :: x in s[1..] ==> x in s;
    }
  }

  /** One row of two cells of which only the first can take the focus: Shift-Tab finds no stop, Tab finds one. */
  lemma {:induction false} ShiftTabMissesLastRow()
    ensures var g := Grid(1, 2, (r, c) => c == 0, (r, c) => 1);
      EntryStop(g) == None && NextStop(g, None) == Some(At(0, 0))
  {
    var g := Grid(1, 2, (r, c) => c == 0, (r, c) => 1);
    assert RowCells(g, 0, 0) == [At(0, 0)] + RowCells(g, 0, 1);
    assert RowsFrom(g, 0) == RowCells(g, 0, 0) + RowsFrom(g, 1);
    assert RowsAbove(g, 0) == [];
  }

  // ---------------------------------------------------------------------------------------------
  // Up and down

  /** The column where the span that covers column `posX` begins. */
  function Covering(g: Grid, row: int, from: nat, posX: nat): (cell: nat)
    requires from <= posX
    ensures from <= cell <= posX < cell + g.colspan(row, cell)
    ensures posX < g.cols ==> StartsSpan(g, row, from, cell)
    decreases posX - from
  {
    var next := from + g.colspan(row, from);
    if next <= posX then Covering(g, row, next, posX) else from
  }

  /** A vertical move along column `posX` can stop in this row. */
  predicate Lands(g: Grid, row: int, posX: nat) {
    g.CanBeActive(row, Covering(g, row, 0, posX))
  }

  function Landing(g: Grid, row: int, posX: nat): Position {
    Position(row, Covering(g, row, 0, posX), posX)
  }

  /** `pos` is in the nearest row below in which a move along column `posX` can stop. */
  ghost predicate NearestBelow(g: Grid, row: int, posX: nat, pos: Option<Position>) {
    match pos
    case None => forall r :: row < r ==> !Lands(g, r, posX)
    case Some(p) =>
      && row < p.row && Lands(g, p.row, posX) && p == Landing(g, p.row, posX)
      && forall r :: row < r < p.row ==> !Lands(g, r, posX)
  }

  ghost predicate NearestAbove(g: Grid, row: int, posX: nat, pos: Option<Position>) {
    match pos
    case None => forall r :: r < row ==> !Lands(g, r, posX)
    case Some(p) =>
      && p.row < row && Lands(g, p.row, posX) && p == Landing(g, p.row, posX)
      && forall r :: p.row < r < row ==> !Lands(g, r, posX)
  }

  method CoveringCell(g: Grid, row: int, posX: nat) returns (prevCell: nat)
    ensures prevCell == Covering(g, row, 0, posX)
  {
    prevCell := 0;
    var cell := 0;
    while cell <= posX
      invariant cell <= posX ==> Covering(g, row, 0, posX) == Covering(g, row, cell, posX)
      invariant cell > posX ==> prevCell == Covering(g, row, 0, posX)
    {
      prevCell := cell;
      cell := cell + g.colspan(row, cell);
    }
  }

  method GotoDown(g: Grid, from: int, posX: nat) returns (pos: Option<Position>)
    ensures NearestBelow(g, from, posX, pos)
  {
    var row := from;
    while true
      invariant from <= row && forall r :: from < r <= row ==> !Lands(g, r, posX)
      decreases g.rows - row
    {
      row := row + 1;
      if row >= g.rows {
        return None;
      }
      var prevCell := CoveringCell(g, row, posX);
      if g.CanBeActive(row, prevCell) {
        return Some(Position(row, prevCell, posX));
      }
    }
  }

  method GotoUp(g: Grid, from: int, posX: nat) returns (pos: Option<Position>)
    ensures NearestAbove(g, from, posX, pos)
  {
    var row := from;
    while true
      invariant row <= from && forall r :: row <= r < from ==> !Lands(g, r, posX)
      decreases row
    {
      row := row - 1;
      if row < 0 {
        return None;
      }
      var prevCell := CoveringCell(g, row, posX);
      if g.CanBeActive(row, prevCell) {
        return Some(Position(row, prevCell, posX));
      }
    }
  }

  /** Because `posX` is remembered across narrower and wider spans, moving up takes back a move down. */
  lemma {:induction false} UpUndoesDown(g: Grid, row: int, posX: nat, down: Position, up: Option<Position>)
    requires NearestBelow(g, row, posX, Some(down))
    requires NearestAbove(g, down.row, down.posX, up)
    ensures up == Some(Landing(g, row, posX)) <==> Lands(g, row, posX)
    ensures up.Some? ==> up.value.row <= row
  {
    if up.Some? && up.value.row < row {
      assert !Lands(g, row, posX);
    }
    if up.None? {
      assert !Lands(g, row, posX);
    }
  }
}
