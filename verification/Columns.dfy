/** The column options that sizing reads, and sums of widths over columns. */
module Columns {
  import opened Options

  /** A column without `maxWidth` may grow without limit. */
  datatype Column = Column(resizable: bool, minWidth: int, maxWidth: Option<int>) {
    /** The source tests `maxWidth` for being truthy here, so 0 means no limit. */
    predicate Capped() {
      maxWidth.Some? && maxWidth.value != 0
    }

    /** The smallest width, given the absolute minimum of every column. */
    function Lowest(absMin: nat): (least: int)
      ensures minWidth <= least && absMin <= least && (least == minWidth || least == absMin)
    {
      if minWidth < absMin then absMin else minWidth
    }

    predicate Fits(absMin: nat, width: int) {
      resizable ==> Lowest(absMin) <= width && (Capped() ==> width <= maxWidth.value)
    }
  }

  /** The total width of the resizable columns among `lo..hi`. */
  function Total(cs: seq<Column>, w: seq<int>, lo: nat, hi: nat): int
    requires lo <= hi <= |cs| == |w|
    decreases hi - lo
  {
    if lo == hi then 0 else (if cs[lo].resizable then w[lo] else 0) + Total(cs, w, lo + 1, hi)
  }

  lemma {:induction false} TotalSplit(cs: seq<Column>, w: seq<int>, lo: nat, mid: nat, hi: nat)
    requires lo <= mid <= hi <= |cs| == |w|
    ensures Total(cs, w, lo, hi) == Total(cs, w, lo, mid) + Total(cs, w, mid, hi)
    decreases mid - lo
  {
    if lo < mid {
      TotalSplit(cs, w, lo + 1, mid, hi);
    }
  }

  lemma {:induction false} TotalSnoc(cs: seq<Column>, w: seq<int>, lo: nat, hi: nat)
    requires lo <= hi < |cs| == |w|
    ensures Total(cs, w, lo, hi + 1) == Total(cs, w, lo, hi) + (if cs[hi].resizable then w[hi] else 0)
  {
    TotalSplit(cs, w, lo, hi, hi + 1);
    assert Total(cs, w, hi + 1, hi + 1) == 0;
  }

  /** Totals compare as the widths do. */
  lemma {:induction false} TotalAtMost(cs: seq<Column>, v: seq<int>, w: seq<int>, lo: nat, hi: nat)
    requires lo <= hi <= |cs| == |v| == |w|
    requires forall j :: lo <= j < hi && cs[j].resizable ==> v[j] <= w[j]
    ensures Total(cs, v, lo, hi) <= Total(cs, w, lo, hi)
    decreases hi - lo
  {
    if lo < hi {
      TotalAtMost(cs, v, w, lo + 1, hi);
    }
  }

  lemma {:induction false} TotalSame(cs: seq<Column>, v: seq<int>, w: seq<int>, lo: nat, hi: nat)
    requires lo <= hi <= |cs| == |v| == |w|
    requires forall j :: lo <= j < hi && cs[j].resizable ==> v[j] == w[j]
    ensures Total(cs, v, lo, hi) == Total(cs, w, lo, hi)
  {
    TotalAtMost(cs, v, w, lo, hi);
    TotalAtMost(cs, w, v, lo, hi);
  }
}
