/**
 Virtual scrolling: rows that together are taller than the browser's tallest element are shown on a shorter
 canvas, shifted by an offset that changes from page to page.
 */
module ScrollPaging {
  /** Rounding to the nearest integer, halves upwards. */
  function Round(x: real): (r: int)
    ensures x - 0.5 < r as real <= x + 0.5
  {
    (x + 0.5).Floor
  }

  function Min(a: int, b: int): int {
    if a < b then a else b
  }

  function Max(a: int, b: int): int {
    if a < b then b else a
  }

  /** `max(y, 0)` and then `min(y, bottom)`. */
  function Clamp(y: int, bottom: int): int {
    Min(Max(y, 0), bottom)
  }

  /** How many pages of height `ph` the rows make up, and how far apart the offsets of the pages are. */
  ghost predicate Paged(limit: int, th: int, h: int, ph: real, n: int, cj: real) {
    if th < limit then h == th && ph == th as real && n == 1 && cj == 0.0
    else
      && h == limit && ph == limit as real / 100.0 && ph > 0.0
      && n == (th as real / ph).Floor && n > 1 && cj == (th - h) as real / (n - 1) as real
  }

  // Products are named so that the arguments about them stay linear.

  function Times(a: real, b: real): real {
    a * b
  }

  lemma {:induction false} Ordered(a: real, b: real, c: real)
    requires 0.0 <= c
    ensures a <= b ==> Times(a, c) <= Times(b, c)
    ensures Times(a, c) < Times(b, c) ==> a < b
  {
    if a <= b {
      assert 0.0 <= (b - a) * c;
    }
  }

  lemma {:induction false} Commute(a: real, b: real)
    ensures Times(a, b) == Times(b, a)
  {
  }

  lemma {:induction false} Apart(a: real, b: real, c: real)
    ensures Times(a, b) - Times(a, c) == Times(a, b - c)
    ensures Times(b, a) - Times(c, a) == Times(b - c, a)
  {
  }

  lemma {:induction false} Zero(c: real)
    ensures Times(0.0, c) == 0.0 && Times(1.0, c) == c && Times(100.0, c) == 100.0 * c && Times(-1.0, c) == -c
  {
  }

  lemma {:induction false} Quotient(x: real, y: real)
    requires y > 0.0
    ensures Times(x / y, y) == x
  {
  }

  lemma {:induction false} Floored(x: real, y: real)
    requires y > 0.0
    ensures var q := (x / y).Floor as real; Times(q, y) <= x < Times(q + 1.0, y)
  {
    var q := (x / y).Floor as real;
    Quotient(x, y);
    hide Times;
    Ordered(q, x / y, y);
    Apart(y, q + 1.0, x / y);
    Strict(q + 1.0 - x / y, y);
  }

  lemma {:induction false} Strict(a: real, b: real)
    requires 0.0 < a && 0.0 < b
    ensures 0.0 < Times(a, b)
  {
  }

  lemma {:induction false} FlooredNonNegative(x: real, y: real)
    requires 0.0 < y && 0.0 <= x
    ensures 0 <= (x / y).Floor
  {
    var q := (x / y).Floor as real;
    hide Times;
    Floored(x, y);
    Zero(y);
    Ordered(0.0, q + 1.0, y);
  }

  /** There are at least 100 pages. */
  lemma {:induction false} PageCount(limit: int, th: int)
    requires 0 < limit <= th
    ensures var ph := limit as real / 100.0; (th as real / ph).Floor >= 100
  {
    var ph := limit as real / 100.0;
    var q := (th as real / ph).Floor as real;
    hide Times;
    Floored(th as real, ph);
    Zero(ph);
    Ordered(100.0, q + 1.0, ph);
  }

  /** The offsets of two neighbouring pages are no further apart than the pages, and the last offset is `th - h`. */
  lemma {:induction false} OffsetsFallBehind(limit: int, th: int, h: int, ph: real, n: int, cj: real)
    requires 0 < limit <= th && Paged(limit, th, h, ph, n, cj)
    ensures 0.0 <= cj <= ph && Times(n as real, ph) <= th as real && Times((n - 1) as real, cj) == (th - h) as real
  {
    var m := (n - 1) as real;
    hide Times;
    Floored(th as real, ph);
    Quotient((th - h) as real, m);
    Commute(cj, m);
    Apart(ph, m + 2.0, m);
    Zero(m);
    Double(ph);
    Ordered(0.0, cj, m);
    Ordered(cj, 0.0, m);
    Ordered(cj, ph, m);
    Ordered(ph, cj, m);
    Commute(ph, m);
    Ordered(1.0, m, ph);
  }

  lemma {:induction false} Double(c: real)
    ensures Times(2.0, c) == 2.0 * c
  {
  }

  function PageOf(n: int, ph: real, y: int): int
    requires ph > 0.0
  {
    Min(n - 1, (y as real / ph).Floor)
  }

  /** The offset of the page that shows `y` keeps `y` on the canvas. */
  lemma {:induction false} OnCanvas(limit: int, th: int, h: int, ph: real, n: int, cj: real, y: int)
    requires 0 < limit <= th && Paged(limit, th, h, ph, n, cj) && 0 <= y <= th
    ensures var page := PageOf(n, ph, y); var offset := Round(Times(page as real, cj));
      0 <= page < n && 0 <= offset <= th - h && offset <= y && y - offset <= h
  {
    var q := (y as real / ph).Floor;
    var page, m := PageOf(n, ph, y) as real, (n - 1) as real;
    FlooredNonNegative(y as real, ph);
    OffsetsFallBehind(limit, th, h, ph, n, cj);
    hide Times, Paged;
    Floored(y as real, ph);
    Zero(cj);
    Ordered(0.0, page, cj);
    Ordered(page, m, cj);
    Ordered(page, q as real, ph);
    Slack(page, m, ph, cj);
    Apart(ph, q as real + 1.0, page);
    Apart(ph, n as real, m);
    Zero(ph);
    if q <= n - 1 {
      assert Times(q as real + 1.0, ph) == Times(page, ph) + ph;
      assert Times(n as real, ph) == Times(m, ph) + ph;
      assert y as real - Times(page, cj) < Times(m, ph) - Times(m, cj) + ph <= h as real;
    } else {
      assert Times(page, cj) == (th - h) as real;
    }
  }

  /** The further the page, the further its offset is behind it. */
  lemma {:induction false} Slack(page: real, m: real, ph: real, cj: real)
    requires 0.0 <= page <= m && cj <= ph
    ensures 0.0 <= Times(page, ph) - Times(page, cj) <= Times(m, ph) - Times(m, cj)
  {
    hide Times;
    Apart(page, ph, cj);
    Apart(m, ph, cj);
    Zero(ph - cj);
    Ordered(0.0, page, ph - cj);
    Ordered(page, m, ph - cj);
  }

  lemma {:induction false} PagedHeights(limit: int, th: int, h: int, ph: real, n: int, cj: real)
    requires 0 < th && Paged(limit, th, h, ph, n, cj)
    ensures 0.0 < ph
    ensures th < limit ==> h == th && n == 1 && Times(0.0, cj) == 0.0
  {
  }

  /** How many pages down the rows a jump to `top` leads, `top` being as far down a canvas of height `h`. */
  function JumpTo(top: int, th: int, h: int, viewportH: int, ph: real): real
    requires h != viewportH && ph > 0.0
  {
    top as real * ((th - viewportH) as real / (h - viewportH) as real) * (1.0 / ph)
  }

  function JumpPage(top: int, th: int, h: int, viewportH: int, ph: real, n: int): int
    requires ph > 0.0
  {
    if h == viewportH then 0 else Min(n - 1, JumpTo(top, th, h, viewportH, ph).Floor)
  }

  lemma {:induction false} JumpBounds(top: int, th: int, h: int, viewportH: int, ph: real)
    requires 0 <= top <= h - viewportH && h <= th && h != viewportH && ph > 0.0
    ensures 0.0 <= JumpTo(top, th, h, viewportH, ph)
    ensures top == h - viewportH ==> JumpTo(top, th, h, viewportH, ph) == (th - viewportH) as real / ph
    ensures top == 0 ==> JumpTo(top, th, h, viewportH, ph) == 0.0
  {
    var ratio := (th - viewportH) as real / (h - viewportH) as real;
    assert ratio >= 0.0;
    assert top as real * ratio >= 0.0;
    assert 1.0 / ph > 0.0;
  }

  /** A jump ends on the canvas; one to its end shows the last rows, one to its beginning the first. */
  lemma {:induction false} JumpOnCanvas(
      limit: int, th: int, h: int, ph: real, n: int, cj: real, viewportH: int, top: int)
    requires 0 < limit && 0 < th && ph > 0.0 && Paged(limit, th, h, ph, n, cj)
    requires 0 < viewportH && 0 <= top <= h - viewportH
    ensures var page := JumpPage(top, th, h, viewportH, ph, n); var offset := Round(Times(page as real, cj));
      && 0 <= page < n && 0 <= offset <= th - h
      && (top == 0 ==> offset == 0)
      && (top == h - viewportH && viewportH as real <= ph ==> top + offset == th - viewportH)
  {
    var page := JumpPage(top, th, h, viewportH, ph, n);
    hide Times, JumpTo;
    if h != viewportH {
      JumpBounds(top, th, h, viewportH, ph);
    }
    Zero(cj);
    if limit <= th {
      var m := (n - 1) as real;
      OffsetsFallBehind(limit, th, h, ph, n, cj);
      hide Paged;
      Ordered(0.0, page as real, cj);
      Ordered(page as real, m, cj);
      if top == h - viewportH && h != viewportH && viewportH as real <= ph {
        Floored((th - viewportH) as real, ph);
        Apart(ph, n as real, m);
        Zero(ph);
        var q := ((th - viewportH) as real / ph).Floor;
        Ordered(m, q as real + 1.0, ph);
      }
    }
  }

  function Abs(x: int): (r: int)
    ensures 0 <= r && (r == x || r == -x)
  {
    if x < 0 then -x else x
  }

  // ---------------------------------------------------------------------------------------------
  // The viewport

  class Viewport {
    const limit: int
    const rowHeight: int
    const scrollbarHeight: int
    var viewportH: int
    var hasHScroll: bool
    var th: int
    var h: int
    var ph: real
    var n: int
    var cj: real
    var page: int
    var offset: int
    var scrollTop: int
    var prevScrollTop: int

    ghost predicate Valid()
      reads `th, `h, `ph, `n, `cj
    {
      && 0 < limit && 0 < rowHeight && 0 <= scrollbarHeight && 0 <= th
      && Paged(limit, th, h, ph, n, cj) && (0 < th ==> ph > 0.0)
    }

    /** The height of the horizontal scrollbar, where there is one. */
    function HScrollHeight(): int
      reads `hasHScroll
    {
      if hasHScroll then scrollbarHeight else 0
    }

    /** The largest position that scrolling may reach. */
    function Bottom(): int
      reads `th, `viewportH, `hasHScroll
    {
      th - viewportH + HScrollHeight()
    }

    /** Where the viewport begins in the whole height of the rows. */
    function Position(): int
      reads `scrollTop, `offset
    {
      scrollTop + offset
    }

    /** The scroll position seen last is the present one. */
    predicate Settled()
      reads `scrollTop, `prevScrollTop
    {
      prevScrollTop == scrollTop
    }

    /** The offset of the page that shows the position `y`. */
    function OffsetFor(y: int): int
      requires ph > 0.0
      reads `n, `ph, `cj
    {
      Round(Times(PageOf(n, ph, y) as real, cj))
    }

    /** Where the canvas has to be scrolled for the position nearest to `y0`. */
    function TopFor(y0: int): int
      requires ph > 0.0
      reads `th, `viewportH, `hasHScroll, `n, `ph, `cj
    {
      Clamp(y0, Bottom()) - OffsetFor(Clamp(y0, Bottom()))
    }

    /** Scrolling to `y0` takes the viewport there: the guard lets it, or there is nothing to do. */
    predicate Lands(y0: int)
      requires ph > 0.0
      reads this
    {
      prevScrollTop != TopFor(y0) || scrollTop == TopFor(y0)
    }

    /** All of the row lies within the viewport. */
    predicate Shows(row: nat)
      reads `scrollTop, `offset, `viewportH
    {
      Position() <= row * rowHeight && (row + 1) * rowHeight <= Position() + viewportH
    }

    /** The canvas is on one of its pages, and the viewport begins on the canvas. */
    ghost predicate OnPage()
      reads this
    {
      0 <= page < n && 0 <= offset <= th - h && 0 <= scrollTop <= h
    }

    constructor (limit: int, rowHeight: int, scrollbarHeight: int, viewportH: int)
      requires 0 < limit && 0 < rowHeight && 0 <= scrollbarHeight
      ensures Valid() && th == 0 && page == offset == scrollTop == 0 && Settled()
      ensures this.limit == limit && this.rowHeight == rowHeight && this.scrollbarHeight == scrollbarHeight
      ensures this.viewportH == viewportH && !hasHScroll
    {
      this.limit, this.rowHeight, this.scrollbarHeight, this.viewportH := limit, rowHeight, scrollbarHeight, viewportH;
      hasHScroll := false;
      th, h, ph, n, cj := 0, 0, 0.0, 1, 0.0;
      page, offset, scrollTop, prevScrollTop := 0, 0, 0, 0;
    }

    /** At the largest position the last row ends at the edge of what is seen, above the horizontal scrollbar. */
    lemma {:induction false} BottomShowsLastRow()
      ensures Bottom() + viewportH - th == if hasHScroll then scrollbarHeight else 0
    {
    }

    lemma {:induction false} ClampedOnCanvas(y0: int)
      requires Valid() && 0 < th
      ensures var y := Clamp(y0, Bottom());
        0 <= y <= th ==> 0 <= PageOf(n, ph, y) < n && 0 <= OffsetFor(y) <= th - h && 0 <= TopFor(y0) <= h
      ensures Bottom() < 0 ==> PageOf(n, ph, Clamp(y0, Bottom())) < 0
    {
      var y := Clamp(y0, Bottom());
      PagedHeights(limit, th, h, ph, n, cj);
      hide Times, Paged;
      if 0 <= y <= th {
        if limit <= th {
          OnCanvas(limit, th, h, ph, n, cj, y);
        } else {
          FlooredNonNegative(y as real, ph);
        }
      }
      if Bottom() < 0 {
        Floored(y as real, ph);
        Zero(ph);
        Ordered(0.0, (y as real / ph).Floor as real, ph);
      }
    }

    /**
     Scrolls to a position: the one asked for, as far as the rows reach. The canvas is moved only where the
     position seen last is not the one it should have, and so the viewport arrives exactly when it `Lands`.
     */
    method ScrollTo(y0: int)
      requires Valid() && 0 < th
      modifies `page, `offset, `scrollTop, `prevScrollTop
      ensures Valid() && TopFor(y0) + offset == Clamp(y0, Bottom())
      ensures if old(prevScrollTop) == TopFor(y0) then scrollTop == old(scrollTop) else scrollTop == TopFor(y0)
      ensures prevScrollTop == TopFor(y0)
      ensures Position() == Clamp(y0, Bottom()) <==> old(Lands(y0))
      ensures old(Settled()) ==> Settled() && Position() == Clamp(y0, Bottom())
      ensures 0 <= Clamp(y0, Bottom()) <= th ==> 0 <= page < n && 0 <= offset <= th - h && 0 <= TopFor(y0) <= h
      ensures Bottom() < 0 ==> page < 0
    {
      ClampedOnCanvas(y0);
      hide Times, Paged;
      var y := Max(y0, 0);
      y := Min(y, th - viewportH + HScrollHeight());
      assert y == Clamp(y0, Bottom());
      page := Min(n - 1, (y as real / ph).Floor);
      offset := Round(Times(page as real, cj));
      var newScrollTop := y - offset;
      if prevScrollTop != newScrollTop {
        scrollTop, prevScrollTop := newScrollTop, newScrollTop;
      }
    }

    /** Divides the height of the rows into pages. */
    method Repaginate()
      requires 0 < limit && 0 <= th
      modifies `h, `ph, `n, `cj
      ensures Paged(limit, th, h, ph, n, cj)
    {
      if th < limit {
        h, ph := th, th as real;
        n := 1;
        cj := 0.0;
      } else {
        PageCount(limit, th);
        h := limit;
        ph := h as real / 100.0;
        n := (th as real / ph).Floor;
        cj := (th - h) as real / (n - 1) as real;
      }
    }

    /** Where the viewport is to go after the number of rows changed: where it was, or to the last rows. */
    function Kept(top: int, offset: int): int
      reads `th, `viewportH
    {
      if top + offset <= th - viewportH then top + offset else th - viewportH
    }

    /**
     Adapts to a new number of rows. `browserTop` is the scroll position the browser keeps when the canvas
     changes its height.
     */
    method UpdateRowCount(numberOfRows: nat, browserTop: int)
      requires Valid()
      modifies this
      ensures Valid() && viewportH == old(viewportH) && hasHScroll == old(hasHScroll)
      ensures th == Max(0, Max(rowHeight * numberOfRows, viewportH - scrollbarHeight))
      ensures var top := if h != old(h) then browserTop else old(scrollTop);
        if th == 0 || top == 0 then
          page == 0 && offset == 0 && scrollTop == top && prevScrollTop == old(prevScrollTop)
        else
          var y := Kept(top, old(offset));
          && TopFor(y) + offset == Clamp(y, Bottom()) && prevScrollTop == TopFor(y)
          && scrollTop == (if old(prevScrollTop) == TopFor(y) then top else TopFor(y))
          && (Position() == Clamp(y, Bottom()) <==> old(prevScrollTop) != TopFor(y) || top == TopFor(y))
      ensures old(Settled()) && h == old(h) ==> Settled()
    {
      hide Paged, Viewport.OffsetFor, Viewport.Bottom, Clamp;
      var oldH := h;
      th := Max(0, Max(rowHeight * numberOfRows, viewportH - scrollbarHeight));
      Repaginate();
      if h != oldH {
        scrollTop := browserTop;
      }
      var oldScrollTopInRange := scrollTop + offset <= th - viewportH;
      if th == 0 || scrollTop == 0 {
        page, offset := 0, 0;
      } else if oldScrollTopInRange {
        ScrollTo(scrollTop + offset);
      } else {
        ScrollTo(th - viewportH);
      }
    }

    /**
     Follows the browser to the scroll position `top`. A short way is scrolled through, a long one is a jump to
     the page that lies as far down the rows as `top` lies down the canvas. Either way the grid is settled.
     */
    method HandleScroll(top: int)
      requires Valid() && 0 < th
      modifies `page, `offset, `scrollTop, `prevScrollTop
      ensures Valid() && Settled()
      ensures top == old(prevScrollTop) ==> page == old(page) && offset == old(offset) && scrollTop == top
      ensures 0 < Abs(top - old(prevScrollTop)) < viewportH ==> Position() == Clamp(top + old(offset), Bottom())
      ensures 0 < viewportH <= Abs(top - old(prevScrollTop)) && 0 <= top <= h - viewportH ==>
        OnPage() && (top == 0 ==> Position() == 0)
      ensures viewportH <= top - old(prevScrollTop) && 0 <= top == h - viewportH && 0.0 < viewportH as real <= ph ==>
        Position() == th - viewportH
    {
      hide Times, Paged;
      scrollTop := top;
      var vScrollDist := Abs(scrollTop - prevScrollTop);
      if vScrollDist != 0 {
        prevScrollTop := scrollTop;
        if vScrollDist < viewportH {
          ScrollTo(scrollTop + offset);
        } else {
          if h == viewportH {
            page := 0;
          } else {
            page := Min(n - 1, JumpTo(scrollTop, th, h, viewportH, ph).Floor);
          }
          offset := Round(Times(page as real, cj));
          if 0 < viewportH && 0 <= top <= h - viewportH {
            JumpOnCanvas(limit, th, h, ph, n, cj, viewportH, top);
          }
        }
      }
    }

    /** Scrolls just as far as it takes to bring a row into view; a settled grid then shows it. */
    method ScrollRowIntoView(row: nat, doPaging: bool)
      requires Valid() && 0 < th
      modifies `page, `offset, `scrollTop, `prevScrollTop
      ensures Valid() && (old(Settled()) ==> Settled())
      ensures old(Settled() && Shows(row)) ==> page == old(page) && offset == old(offset) && scrollTop == old(scrollTop)
      ensures old(Settled()) && (row + 1) * rowHeight <= th && rowHeight + HScrollHeight() <= viewportH ==> Shows(row)
    {
      hide Paged, Times, Viewport.TopFor;
      var rowAtTop := row * rowHeight;
      var rowAtBottom := (row + 1) * rowHeight - viewportH + HScrollHeight();
      if (row + 1) * rowHeight > scrollTop + viewportH + offset {
        ScrollTo(if doPaging then rowAtTop else rowAtBottom);
      } else if row * rowHeight < scrollTop + offset {
        ScrollTo(if doPaging then rowAtBottom else rowAtTop);
      }
    }

    function RowTop(row: int): int
      reads this
    {
      rowHeight * row - offset
    }

    function RowFromPosition(y: int): int
      requires Valid()
      reads this
    {
      (y + offset) / rowHeight
    }

    /** Rows are found where they are drawn, and drawn where their number says, whatever the page. */
    lemma {:induction false} RowsStayInPlace(row: int, y: int)
      requires Valid() && 0 <= y < rowHeight
      ensures RowFromPosition(RowTop(row) + y) == row
      ensures RowTop(row) - scrollTop == rowHeight * row - Position()
    {
      RowQuotient(row, y);
    }

    lemma {:induction false} RowQuotient(row: int, y: int)
      requires 0 <= y < rowHeight
      ensures (rowHeight * row + y) / rowHeight == row
    {
      var q := (rowHeight * row + y) / rowHeight;
      var r := (rowHeight * row + y) % rowHeight;
      assert rowHeight * (q - row) == y - r;
      if q > row { Far(rowHeight, q - row); assert false; }
      if q < row { Far(rowHeight, row - q); assert false; }
    }
  }

  /**
   The position seen last goes stale where the browser moves the canvas and the grid has not been told: scrolled
   to 500, emptied (the browser moves to the top) and filled again, the grid no longer scrolls to 500.
   */
  method StaleScroll() returns (v: Viewport)
    ensures fresh(v) && v.Valid() && !v.Settled() && v.Bottom() == 2100
    ensures Clamp(500, v.Bottom()) == 500 && v.Position() == 0
  {
    v := new Viewport(1000000, 25, 15, 400);
    v.UpdateRowCount(100, 0);
    v.ScrollTo(500);
    v.UpdateRowCount(0, 0);
    v.UpdateRowCount(100, 0);
    v.ScrollTo(500);
  }

  lemma {:induction false} Far(a: int, k: int)
    requires 0 < a && 1 <= k
    ensures a * k >= a
  {
    assert a * k == a * (k - 1) + a;
    NonNegative(a, k - 1);
  }

  lemma {:induction false} NonNegative(a: int, b: int)
    requires 0 <= a && 0 <= b
    ensures 0 <= a * b
  {
  }
}
