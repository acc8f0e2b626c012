/** Dragging the right edge of a column header. */
module ColumnDragging {
  import opened Options
  import opened Columns

  const UNLIMITED := 100000

  function Min(a: int, b: int): int {
    if a < b then a else b
  }

  function Max(a: int, b: int): int {
    if a < b then b else a
  }

  /** How much the resizable columns among `lo..hi` can give up. */
  function ShrinkLeeway(cs: seq<Column>, absMin: nat, w: seq<int>, lo: nat, hi: nat): int
    requires lo <= hi <= |cs| == |w|
    decreases hi - lo
  {
    if lo == hi then 0
    else (if cs[lo].resizable then w[lo] - cs[lo].Lowest(absMin) else 0) + ShrinkLeeway(cs, absMin, w, lo + 1, hi)
  }

  /** How much the resizable columns among `lo..hi` can take; `None` when one of them has no limit. */
  function StretchLeeway(cs: seq<Column>, w: seq<int>, lo: nat, hi: nat): Option<int>
    requires lo <= hi <= |cs| == |w|
    decreases hi - lo
  {
    if lo == hi then Some(0)
    else
      var rest := StretchLeeway(cs, w, lo + 1, hi);
      if !cs[lo].resizable then rest
      else if rest.None? || !cs[lo].Capped() then None
      else Some(cs[lo].maxWidth.value - w[lo] + rest.value)
  }

  function OrUnlimited(leeway: Option<int>): (pixels: int)
    ensures leeway.None? ==> pixels >= 100000
  {
    if leeway.None? then UNLIMITED else leeway.value
  }

  ghost predicate InBounds(cs: seq<Column>, absMin: nat, w: seq<int>)
    requires |cs| == |w|
  {
    forall j :: 0 <= j < |cs| ==> cs[j].Fits(absMin, w[j])
  }

  lemma {:induction false} ShrinkLeewaySplit(cs: seq<Column>, absMin: nat, w: seq<int>, lo: nat, mid: nat, hi: nat)
    requires lo <= mid <= hi <= |cs| == |w|
    ensures ShrinkLeeway(cs, absMin, w, lo, hi)
         == ShrinkLeeway(cs, absMin, w, lo, mid) + ShrinkLeeway(cs, absMin, w, mid, hi)
    decreases mid - lo
  {
    if lo < mid {
      ShrinkLeewaySplit(cs, absMin, w, lo + 1, mid, hi);
    }
  }

  lemma {:induction false} StretchLeewaySplit(cs: seq<Column>, w: seq<int>, lo: nat, mid: nat, hi: nat)
    requires lo <= mid <= hi <= |cs| == |w|
    ensures var l, r := StretchLeeway(cs, w, lo, mid), StretchLeeway(cs, w, mid, hi);
      StretchLeeway(cs, w, lo, hi) == if l.None? || r.None? then None else Some(l.value + r.value)
    decreases mid - lo
  {
    if lo < mid {
      StretchLeewaySplit(cs, w, lo + 1, mid, hi);
    }
  }

  lemma {:induction false} LeewaysNonNegative(cs: seq<Column>, absMin: nat, w: seq<int>, lo: nat, hi: nat)
    requires lo <= hi <= |cs| == |w| && InBounds(cs, absMin, w)
    ensures 0 <= ShrinkLeeway(cs, absMin, w, lo, hi) && 0 <= OrUnlimited(StretchLeeway(cs, w, lo, hi))
    decreases hi - lo
  {
    if lo < hi {
      assert cs[lo].Fits(absMin, w[lo]);
      LeewaysNonNegative(cs, absMin, w, lo + 1, hi);
    }
  }

  // ---------------------------------------------------------------------------------------------
  // What a drag does to the widths

  /** Column `m` lies between the dragged edge, right of column `i`, and column `k`. */
  predicate Nearer(i: int, m: int, k: int) {
    k < m <= i || i < m < k
  }

  /** A column further out that moved by `d` leaves this one no room in that direction. */
  predicate AtLimit(c: Column, absMin: nat, width: int, d: int) {
    (d < 0 ==> width == c.Lowest(absMin)) && (d > 0 ==> c.Capped() && width == c.maxWidth.value)
  }

  /** No resizable column among `lo..hi` moves against the direction of `d`. */
  ghost predicate OneWay(cs: seq<Column>, prev: seq<int>, w: seq<int>, lo: nat, hi: nat, d: int)
    requires lo <= hi <= |cs| == |prev| == |w|
  {
    forall j :: lo <= j < hi && cs[j].resizable ==> (d <= 0 ==> w[j] <= prev[j]) && (d >= 0 ==> w[j] >= prev[j])
  }

  // ---------------------------------------------------------------------------------------------
  // Handing out the move column by column, outwards from the edge

  /** Moves one column by as much of `x` as its limits allow; the second result is what is left of `x`. */
  function Moved(c: Column, absMin: nat, prev: int, x: int): (int, int) {
    if x < 0 && prev + x < c.Lowest(absMin) then (c.Lowest(absMin), x + (prev - c.Lowest(absMin)))
    else if x > 0 && c.Capped() && c.maxWidth.value - prev < x then (c.maxWidth.value, x - (c.maxWidth.value - prev))
    else (prev + x, 0)
  }

  /** The columns `a..b` still have room for `x`. */
  predicate Absorbs(cs: seq<Column>, absMin: nat, prev: seq<int>, a: nat, b: nat, x: int)
    requires a <= b <= |cs| == |prev|
  {
    && (x < 0 ==> -x <= ShrinkLeeway(cs, absMin, prev, a, b))
    && (x > 0 ==> StretchLeeway(cs, prev, a, b).None? || x <= StretchLeeway(cs, prev, a, b).value)
  }

  /**
   The columns `lo..hi` next to the edge have taken all of `d` but `x`: their total has changed by that much,
   none of them moved the other way, all stay within their limits, and a column further out moves only once
   every nearer one has reached its limit.
   */
  ghost predicate Handed(cs: seq<Column>, absMin: nat, prev: seq<int>, w: seq<int>, i: int, lo: nat, hi: nat, d: int,
      x: int)
    requires lo <= hi <= |cs| == |prev| == |w|
  {
    && (d <= x <= 0 || 0 <= x <= d)
    && (forall j :: lo <= j < hi ==> cs[j].Fits(absMin, w[j]))
    && (forall k, m :: lo <= k < hi && lo <= m < hi && Nearer(i, m, k) && cs[k].resizable && cs[m].resizable ==>
          AtLimit(cs[m], absMin, w[m], w[k] - prev[k]))
    && (forall m :: lo <= m < hi && cs[m].resizable ==> AtLimit(cs[m], absMin, w[m], x))
    && OneWay(cs, prev, w, lo, hi, d)
    && Total(cs, w, lo, hi) == Total(cs, prev, lo, hi) + d - x
  }

  lemma {:induction false} MovedWithinLimits(c: Column, absMin: nat, prev: int, x: int)
    requires c.resizable && c.Fits(absMin, prev)
    ensures var (w, rest) := Moved(c, absMin, prev, x);
      c.Fits(absMin, w) && w - prev == x - rest && (x <= rest <= 0 || 0 <= rest <= x) && AtLimit(c, absMin, w, rest)
  {
  }

  /** The next column outwards takes its part. */
  lemma {:induction false} HandOut(cs: seq<Column>, absMin: nat, prev: seq<int>, w: seq<int>, w': seq<int>,
      i: int, lo: nat, hi: nat, k: nat, d: int, x: int, x': int)
    requires lo <= hi <= |cs| == |prev| == |w| == |w'| && k < |cs| && InBounds(cs, absMin, prev)
    requires (hi == i + 1 && k == lo - 1) || (lo == i + 1 && k == hi)
    requires Handed(cs, absMin, prev, w, i, lo, hi, d, x)
    requires w' == if cs[k].resizable then w[k := Moved(cs[k], absMin, prev[k], x).0] else w
    requires x' == if cs[k].resizable then Moved(cs[k], absMin, prev[k], x).1 else x
    ensures Handed(cs, absMin, prev, w', i, if k < lo then k else lo, if k < lo then hi else k + 1, d, x')
  {
    var a, b := if k < lo then k else lo, if k < lo then hi else k + 1;
    assert cs[k].Fits(absMin, prev[k]);
    hide Total, Moved;
    if cs[k].resizable {
      MovedWithinLimits(cs[k], absMin, prev[k], x);
      assert forall m :: lo <= m < hi ==> w'[m] == w[m];
      HandOutTotals(cs, prev, w, w', lo, hi, k);
    } else {
      HandOutTotals(cs, prev, w, w', lo, hi, k);
      assert w' == w;
    }
  }

  lemma {:induction false} HandOutTotals(cs: seq<Column>, prev: seq<int>, w: seq<int>, w': seq<int>, lo: nat, hi: nat,
      k: nat)
    requires lo <= hi <= |cs| == |prev| == |w| == |w'| && k < |cs| && (k == lo - 1 || k == hi)
    requires forall j :: lo <= j < hi ==> w'[j] == w[j]
    ensures var a, b := if k < lo then k else lo, if k < lo then hi else k + 1;
      Total(cs, w', a, b) - Total(cs, prev, a, b) == Total(cs, w, lo, hi) - Total(cs, prev, lo, hi)
        + if cs[k].resizable then w'[k] - prev[k] else 0
  {
    TotalSame(cs, w, w', lo, hi);
    if k == hi {
      TotalSnoc(cs, w', lo, hi);
      TotalSnoc(cs, prev, lo, hi);
    }
  }

  lemma {:induction false} HandNothing(cs: seq<Column>, absMin: nat, prev: seq<int>, w: seq<int>, i: int, lo: nat,
      d: int)
    requires lo <= |cs| == |prev| == |w|
    ensures Handed(cs, absMin, prev, w, i, lo, lo, d, d)
    ensures Absorbs(cs, absMin, prev, lo, lo, d) ==> d == 0
  {
  }

  /** What one column cannot take, the columns further out can. */
  lemma {:induction false} RoomLeft(cs: seq<Column>, absMin: nat, prev: seq<int>, a: nat, b: nat, k: nat, x: int)
    requires a <= b <= |cs| == |prev| && InBounds(cs, absMin, prev)
    requires Absorbs(cs, absMin, prev, a, b, x)
    requires a < b && (k == a || k == b - 1)
    ensures var rest := if cs[k].resizable then Moved(cs[k], absMin, prev[k], x).1 else x;
      Absorbs(cs, absMin, prev, if k == a then a + 1 else a, if k == a then b else b - 1, rest)
  {
    assert cs[k].Fits(absMin, prev[k]);
    if k != a {
      ShrinkLeewaySplit(cs, absMin, prev, a, k, b);
      StretchLeewaySplit(cs, prev, a, k, b);
      assert ShrinkLeeway(cs, absMin, prev, b, b) == 0 && StretchLeeway(cs, prev, b, b) == Some(0);
    }
  }

  /** The widths after moving the right edge of column `i` by `d` from the widths `prev`. */
  ghost predicate Dragged(cs: seq<Column>, absMin: nat, forceFit: bool, prev: seq<int>, w: seq<int>, i: nat, d: int)
    requires i < |cs| == |prev| == |w|
  {
    Handed(cs, absMin, prev, w, i, 0, i + 1, d, 0) && (forceFit ==> Handed(cs, absMin, prev, w, i, i + 1, |cs|, -d, 0))
  }

  // ---------------------------------------------------------------------------------------------
  // The drag handlers

  class ColumnHeaders {
    const columns: seq<Column>
    const absMin: nat
    const forceFit: bool
    var width: array<int>
    var previousWidth: seq<int>
    var pageX: int
    var minPageX: int
    var maxPageX: int

    ghost predicate Valid()
      reads this
    {
      width.Length == |columns| == |previousWidth|
    }

    constructor (columns: seq<Column>, absMin: nat, forceFit: bool, initial: seq<int>)
      requires |columns| == |initial|
      ensures Valid() && fresh(width) && width[..] == initial
      ensures this.columns == columns && this.absMin == absMin && this.forceFit == forceFit
    {
      this.columns, this.absMin, this.forceFit := columns, absMin, forceFit;
      width := new int[|initial|](j requires 0 <= j < |initial| => initial[j]);
      previousWidth := initial;
      pageX, minPageX, maxPageX := 0, 0, 0;
    }

    /** How far left and right of the starting point the edge of column `i` may go. */
    ghost function Range(i: nat): (int, int)
      requires i < |columns| == |previousWidth|
      reads this
    {
      var n := |columns|;
      var shrinkLeft := ShrinkLeeway(columns, absMin, previousWidth, 0, i + 1);
      var stretchLeft := OrUnlimited(StretchLeeway(columns, previousWidth, 0, i + 1));
      var shrinkRight := if forceFit then ShrinkLeeway(columns, absMin, previousWidth, i + 1, n) else UNLIMITED;
      var stretchRight := if forceFit then OrUnlimited(StretchLeeway(columns, previousWidth, i + 1, n)) else UNLIMITED;
      (Min(shrinkLeft, stretchRight), Min(shrinkRight, stretchLeft))
    }

    method Leeways(lo: nat, hi: nat) returns (shrink: int, stretch: Option<int>)
      requires Valid() && lo <= hi <= |columns|
      ensures shrink == ShrinkLeeway(columns, absMin, previousWidth, lo, hi)
      ensures stretch == StretchLeeway(columns, previousWidth, lo, hi)
    {
      shrink, stretch := 0, Some(0);
      var j := lo;
      while j < hi
        invariant lo <= j <= hi
        invariant shrink == ShrinkLeeway(columns, absMin, previousWidth, lo, j)
        invariant stretch == StretchLeeway(columns, previousWidth, lo, j)
      {
        ShrinkLeewaySplit(columns, absMin, previousWidth, lo, j, j + 1);
        StretchLeewaySplit(columns, previousWidth, lo, j, j + 1);
        assert StretchLeeway(columns, previousWidth, j + 1, j + 1) == Some(0);
        var c := columns[j];
        if c.resizable {
          if stretch.Some? {
            stretch := if c.Capped() then Some(stretch.value + (c.maxWidth.value - previousWidth[j])) else None;
          }
          shrink := shrink + (previousWidth[j] - Max(c.minWidth, absMin));
        }
        j := j + 1;
      }
    }

    /** Fixes the starting widths and the range of the mouse. */
    method DragStart(i: nat, page: int, outerWidths: seq<int>)
      requires Valid() && i < |columns| == |outerWidths|
      modifies this
      ensures Valid() && width == old(width)
      ensures previousWidth == outerWidths && pageX == page
      ensures minPageX == page - Range(i).0 && maxPageX == page + Range(i).1
    {
      pageX := page;
      previousWidth := outerWidths;
      var shrinkRight, stretchRight := UNLIMITED, UNLIMITED;
      if forceFit {
        var stretch;
        shrinkRight, stretch := Leeways(i + 1, |columns|);
        stretchRight := OrUnlimited(stretch);
      }
      var shrinkLeft, stretchLeft := Leeways(0, i + 1);
      maxPageX := pageX + Min(shrinkRight, OrUnlimited(stretchLeft));
      minPageX := pageX - Min(shrinkLeft, stretchRight);
    }

    method ShrinkColumn(j: nat, x: int) returns (rest: int)
      requires Valid() && j < |columns| && x <= 0
      modifies width
      ensures width[..] == if columns[j].resizable
        then old(width[..])[j := Moved(columns[j], absMin, previousWidth[j], x).0] else old(width[..])
      ensures rest == if columns[j].resizable then Moved(columns[j], absMin, previousWidth[j], x).1 else x
    {
      rest := x;
      var c := columns[j];
      if c.resizable {
        var actualMinWidth := Max(c.minWidth, absMin);
        if x != 0 && previousWidth[j] + x < actualMinWidth {
          rest := x + (previousWidth[j] - actualMinWidth);
          width[j] := actualMinWidth;
        } else {
          width[j] := previousWidth[j] + x;
          rest := 0;
        }
      }
    }

    method StretchColumn(j: nat, x: int) returns (rest: int)
      requires Valid() && j < |columns| && x >= 0
      modifies width
      ensures width[..] == if columns[j].resizable
        then old(width[..])[j := Moved(columns[j], absMin, previousWidth[j], x).0] else old(width[..])
      ensures rest == if columns[j].resizable then Moved(columns[j], absMin, previousWidth[j], x).1 else x
    {
      rest := x;
      var c := columns[j];
      if c.resizable {
        if x != 0 && c.Capped() && c.maxWidth.value - previousWidth[j] < x {
          rest := x - (c.maxWidth.value - previousWidth[j]);
          width[j] := c.maxWidth.value;
        } else {
          width[j] := previousWidth[j] + x;
          rest := 0;
        }
      }
    }

    /** Only resizable columns among `lo..hi` may differ from `was`. */
    ghost predicate OnlyMoved(was: seq<int>, lo: int, hi: int)
      reads this, width
    {
      && Valid() && |was| == |columns|
      && forall k :: 0 <= k < |columns| && (k < lo || k >= hi || !columns[k].resizable) ==> width[k] == was[k]
    }

    method MoveColumn(j: nat, x: int, shrinking: bool) returns (rest: int)
      requires Valid() && j < |columns| && (if shrinking then x <= 0 else x >= 0)
      modifies width
      ensures width[..] == if columns[j].resizable
        then old(width[..])[j := Moved(columns[j], absMin, previousWidth[j], x).0] else old(width[..])
      ensures rest == if columns[j].resizable then Moved(columns[j], absMin, previousWidth[j], x).1 else x
      ensures if shrinking then rest <= 0 else rest >= 0
      ensures forall k :: 0 <= k < |columns| && (k != j || !columns[j].resizable) ==> width[k] == old(width[k])
    {
      if shrinking {
        rest := ShrinkColumn(j, x);
      } else {
        rest := StretchColumn(j, x);
      }
    }

    /** Hands `d` to the columns left of the edge, from column `i` leftwards. */
    method SpreadLeft(i: nat, d: int, shrinking: bool)
      requires Valid() && i < |columns| && (if shrinking then d <= 0 else d >= 0)
      modifies width
      ensures OnlyMoved(old(width[..]), 0, i + 1)
      ensures InBounds(columns, absMin, previousWidth) && Absorbs(columns, absMin, previousWidth, 0, i + 1, d) ==>
        Handed(columns, absMin, previousWidth, width[..], i, 0, i + 1, d, 0)
    {
      ghost var fits :=
        InBounds(columns, absMin, previousWidth) && Absorbs(columns, absMin, previousWidth, 0, i + 1, d);
      hide Handed, Absorbs, InBounds, Moved;
      HandNothing(columns, absMin, previousWidth, width[..], i, i + 1, d);
      var x := d;
      var j: int := i;
      while j >= 0
        invariant -1 <= j <= i && if shrinking then x <= 0 else x >= 0
        invariant OnlyMoved(old(width[..]), j + 1, i + 1)
        invariant fits ==> Handed(columns, absMin, previousWidth, width[..], i, j + 1, i + 1, d, x)
        invariant fits ==> Absorbs(columns, absMin, previousWidth, 0, j + 1, x)
      {
        ghost var was, y := width[..], x;
        x := MoveColumn(j, x, shrinking);
        if fits {
          HandOut(columns, absMin, previousWidth, was, width[..], i, j + 1, i + 1, j, d, y, x);
          RoomLeft(columns, absMin, previousWidth, 0, j + 1, j, y);
        }
        j := j - 1;
      }
      HandNothing(columns, absMin, previousWidth, width[..], i, 0, x);
    }

    /** Hands `d` to the columns right of the edge, from column `i + 1` rightwards. */
    method SpreadRight(i: nat, d: int, shrinking: bool)
      requires Valid() && i < |columns| && (if shrinking then d <= 0 else d >= 0)
      modifies width
      ensures OnlyMoved(old(width[..]), i + 1, |columns|)
      ensures var all := |columns|;
        InBounds(columns, absMin, previousWidth) && Absorbs(columns, absMin, previousWidth, i + 1, all, d) ==>
        Handed(columns, absMin, previousWidth, width[..], i, i + 1, |columns|, d, 0)
    {
      ghost var fits :=
        InBounds(columns, absMin, previousWidth) && Absorbs(columns, absMin, previousWidth, i + 1, |columns|, d);
      hide Handed, Absorbs, InBounds, Moved;
      HandNothing(columns, absMin, previousWidth, width[..], i, i + 1, d);
      var x := d;
      var j := i + 1;
      while j < |columns|
        invariant i + 1 <= j <= |columns| && if shrinking then x <= 0 else x >= 0
        invariant OnlyMoved(old(width[..]), i + 1, j)
        invariant fits ==> Handed(columns, absMin, previousWidth, width[..], i, i + 1, j, d, x)
        invariant fits ==> Absorbs(columns, absMin, previousWidth, j, |columns|, x)
      {
        ghost var was, y := width[..], x;
        x := MoveColumn(j, x, shrinking);
        if fits {
          HandOut(columns, absMin, previousWidth, was, width[..], i, i + 1, j, j, d, y, x);
          RoomLeft(columns, absMin, previousWidth, j, |columns|, j, y);
        }
        j := j + 1;
      }
      HandNothing(columns, absMin, previousWidth, width[..], i, |columns|, x);
    }

    /** How far a mouse position moves the edge: as far as the mouse, but not out of the range. */
    function Distance(page: int): (d: int)
      reads this
      ensures minPageX <= page <= maxPageX ==> pageX + d == page
      ensures page <= minPageX <= maxPageX ==> pageX + d == minPageX
      ensures minPageX <= maxPageX <= page ==> pageX + d == maxPageX
    {
      Min(maxPageX, Max(minPageX, page)) - pageX
    }

    /** `DragStart` has been called for column `i`. */
    ghost predicate Started(i: nat)
      reads this
    {
      Valid() && i < |columns| && minPageX == pageX - Range(i).0 && maxPageX == pageX + Range(i).1
    }

    /** Follows the mouse: whatever its position, the move is one that the columns on both sides can take. */
    method Drag(i: nat, page: int)
      requires Started(i)
      modifies width
      ensures OnlyMoved(old(width[..]), 0, if forceFit then |columns| else i + 1)
      ensures InBounds(columns, absMin, previousWidth) ==>
        Dragged(columns, absMin, forceFit, previousWidth, width[..], i, Distance(page))
    {
      var d := Distance(page);
      ghost var fits := InBounds(columns, absMin, previousWidth);
      if fits {
        RangeAbsorbs(i, page);
      }
      hide Handed, Absorbs, InBounds, Range, Distance, Started, Dragged;
      SpreadLeft(i, d, d < 0);
      ghost var left := width[..];
      if forceFit {
        SpreadRight(i, -d, d >= 0);
      }
      if fits {
        BothSides(columns, absMin, forceFit, previousWidth, left, width[..], i, d);
      }
    }

    lemma {:induction false} RangeAbsorbs(i: nat, page: int)
      requires Started(i) && InBounds(columns, absMin, previousWidth)
      ensures Absorbs(columns, absMin, previousWidth, 0, i + 1, Distance(page))
      ensures forceFit ==> Absorbs(columns, absMin, previousWidth, i + 1, |columns|, -Distance(page))
    {
      LeewaysNonNegative(columns, absMin, previousWidth, 0, i + 1);
      LeewaysNonNegative(columns, absMin, previousWidth, i + 1, |columns|);
      hide ShrinkLeeway, StretchLeeway, InBounds;
    }
  }

  lemma {:induction false} BothSides(cs: seq<Column>, absMin: nat, forceFit: bool, prev: seq<int>, left: seq<int>,
      w: seq<int>, i: nat, d: int)
    requires i < |cs| == |prev| == |left| == |w|
    requires forall k :: 0 <= k <= i ==> left[k] == w[k]
    requires Handed(cs, absMin, prev, left, i, 0, i + 1, d, 0)
    requires forceFit ==> Handed(cs, absMin, prev, w, i, i + 1, |cs|, -d, 0)
    ensures Dragged(cs, absMin, forceFit, prev, w, i, d)
  {
    TotalSame(cs, left, w, 0, i + 1);
    hide Total;
  }

  // ---------------------------------------------------------------------------------------------
  // What a drag means for the user

  /** With `forceFitColumns` a drag moves width between the two sides of the edge and loses none. */
  lemma {:induction false} DragConservesWidth(cs: seq<Column>, absMin: nat, prev: seq<int>, w: seq<int>, i: nat, d: int)
    requires i < |cs| == |prev| == |w|
    requires Dragged(cs, absMin, true, prev, w, i, d)
    ensures Total(cs, w, 0, |cs|) == Total(cs, prev, 0, |cs|)
    ensures InBounds(cs, absMin, w)
    ensures forall j :: 0 <= j < |cs| && cs[j].resizable ==>
      && absMin <= w[j] && cs[j].minWidth <= w[j]
      && (cs[j].maxWidth.Some? && cs[j].maxWidth.value != 0 ==> w[j] <= cs[j].maxWidth.value)
  {
    forall j | 0 <= j < |cs| ensures cs[j].Fits(absMin, w[j]) {
    }
    TotalSplit(cs, w, 0, i + 1, |cs|);
    TotalSplit(cs, prev, 0, i + 1, |cs|);
  }

  lemma {:induction false} TotalsDiffer(cs: seq<Column>, v: seq<int>, w: seq<int>, lo: nat, hi: nat, k: nat)
    requires lo <= k < hi <= |cs| == |v| == |w| && cs[k].resizable && v[k] < w[k]
    requires forall j :: lo <= j < hi && cs[j].resizable ==> v[j] <= w[j]
    ensures Total(cs, v, lo, hi) < Total(cs, w, lo, hi)
  {
    TotalSplit(cs, v, lo, k, hi);
    TotalSplit(cs, w, lo, k, hi);
    TotalAtMost(cs, v, w, lo, k);
    TotalAtMost(cs, v, w, k + 1, hi);
  }

  /** If `v` moves column `k` more than `w` does, and they agree nearer to the edge, then `v` moves more in all. */
  lemma {:induction false} MovesMore(cs: seq<Column>, absMin: nat, prev: seq<int>, v: seq<int>, w: seq<int>,
      i: int, lo: nat, hi: nat, d: int, k: nat)
    requires lo <= k < hi <= |cs| == |prev| == |v| == |w| && (hi == i + 1 || lo == i + 1) && cs[k].resizable
    requires Handed(cs, absMin, prev, v, i, lo, hi, d, 0) && Handed(cs, absMin, prev, w, i, lo, hi, d, 0)
    requires forall m :: lo <= m < hi && Nearer(i, m, k) && cs[m].resizable ==> v[m] == w[m]
    ensures v[k] == w[k] || (if d < 0 then v[k] > w[k] else v[k] < w[k])
  {
    if d < 0 && v[k] < w[k] {
      assert forall j :: lo <= j < hi && j != k && !Nearer(i, j, k) ==> Nearer(i, k, j);
      TotalsDiffer(cs, v, w, lo, hi, k);
    } else if d >= 0 && w[k] < v[k] {
      assert forall j :: lo <= j < hi && j != k && !Nearer(i, j, k) ==> Nearer(i, k, j);
      TotalsDiffer(cs, w, v, lo, hi, k);
    }
  }

  /** Two ways to hand out the same move agree; so the widths depend on the mouse position and on nothing before. */
  lemma {:induction false} HandedOnce(cs: seq<Column>, absMin: nat, prev: seq<int>, v: seq<int>, w: seq<int>,
      i: int, lo: nat, hi: nat, d: int, k: nat)
    requires lo <= k < hi <= |cs| == |prev| == |v| == |w| && (hi == i + 1 || lo == i + 1) && cs[k].resizable
    requires Handed(cs, absMin, prev, v, i, lo, hi, d, 0) && Handed(cs, absMin, prev, w, i, lo, hi, d, 0)
    ensures v[k] == w[k]
    decreases if k <= i then i - k else k - i
  {
    forall m | lo <= m < hi && Nearer(i, m, k) && cs[m].resizable ensures v[m] == w[m] {
      HandedOnce(cs, absMin, prev, v, w, i, lo, hi, d, m);
    }
    hide Handed;
    MovesMore(cs, absMin, prev, v, w, i, lo, hi, d, k);
    MovesMore(cs, absMin, prev, w, v, i, lo, hi, d, k);
  }

  /** A drag under `forceFitColumns` has one result for each mouse position. */
  lemma {:induction false} DragForgetsHistory(cs: seq<Column>, absMin: nat, prev: seq<int>, v: seq<int>, w: seq<int>,
      i: nat, d: int)
    requires i < |cs| == |prev| == |v| == |w|
    requires Dragged(cs, absMin, true, prev, v, i, d) && Dragged(cs, absMin, true, prev, w, i, d)
    ensures forall k :: 0 <= k < |cs| && cs[k].resizable ==> v[k] == w[k]
  {
    forall k | 0 <= k < |cs| && cs[k].resizable ensures v[k] == w[k] {
      if k <= i {
        HandedOnce(cs, absMin, prev, v, w, i, 0, i + 1, d, k);
      } else {
        HandedOnce(cs, absMin, prev, v, w, i, i + 1, |cs|, -d, k);
      }
    }
  }
}
