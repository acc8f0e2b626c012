/** Fitting the columns to the viewport: the shrink and grow loops of `autosizeColumns`. */
module ColumnAutosize {
  import opened Options
  import opened Columns

  function Sum(w: seq<int>): int {
    if w == [] then 0 else w[0] + Sum(w[1..])
  }

  /** How far above its minimum a column is. */
  function Room(c: Column, absMin: nat, w: int): int {
    if c.resizable then w - c.Lowest(absMin) else 0
  }

  function RoomFrom(cs: seq<Column>, absMin: nat, w: seq<int>, i: nat): int
    requires i <= |cs| == |w|
    decreases |cs| - i
  {
    if i == |cs| then 0 else Room(cs[i], absMin, w[i]) + RoomFrom(cs, absMin, w, i + 1)
  }

  function CountResizable(cs: seq<Column>): nat {
    if cs == [] then 0 else (if cs[0].resizable then 1 else 0) + CountResizable(cs[1..])
  }

  /** Every resizable column has at least its minimum width. */
  ghost predicate AboveMinimum(cs: seq<Column>, absMin: nat, w: seq<int>)
    requires |cs| == |w|
  {
    forall j :: 0 <= j < |cs| ==> 0 <= Room(cs[j], absMin, w[j])
  }

  lemma {:induction false} SumUpdate(w: seq<int>, i: nat, v: int)
    requires i < |w|
    ensures Sum(w[i := v]) == Sum(w) - w[i] + v
  {
    if i > 0 {
      assert w[i := v][1..] == w[1..][i - 1 := v];
      SumUpdate(w[1..], i - 1, v);
    } else {
      assert w[i := v][1..] == w[1..];
    }
  }

  lemma {:induction false} RoomSame(cs: seq<Column>, absMin: nat, v: seq<int>, w: seq<int>, i: nat)
    requires i <= |cs| == |v| == |w|
    requires v[i..] == w[i..]
    ensures RoomFrom(cs, absMin, v, i) == RoomFrom(cs, absMin, w, i)
    decreases |cs| - i
  {
    if i < |cs| {
      assert v[i] == v[i..][0] == w[i..][0] == w[i];
      assert v[i + 1..] == v[i..][1..] && w[i + 1..] == w[i..][1..];
      RoomSame(cs, absMin, v, w, i + 1);
    }
  }

  lemma {:induction false} RoomUpdate(cs: seq<Column>, absMin: nat, w: seq<int>, i: nat, k: nat, v: int)
    requires i <= k < |cs| == |w| && cs[k].resizable
    ensures RoomFrom(cs, absMin, w[k := v], i) == RoomFrom(cs, absMin, w, i) - w[k] + v
    decreases k - i
  {
    if i < k {
      RoomUpdate(cs, absMin, w, i + 1, k, v);
    } else {
      RoomSame(cs, absMin, w[k := v], w, k + 1);
    }
  }

  lemma {:induction false} RoomNonNegative(cs: seq<Column>, absMin: nat, w: seq<int>, i: nat)
    requires i <= |cs| == |w| && AboveMinimum(cs, absMin, w)
    ensures 0 <= RoomFrom(cs, absMin, w, i)
    ensures RoomFrom(cs, absMin, w, i) == 0 ==> forall j :: i <= j < |cs| ==> Room(cs[j], absMin, w[j]) == 0
    decreases |cs| - i
  {
    if i < |cs| {
      assert 0 <= Room(cs[i], absMin, w[i]);
      RoomNonNegative(cs, absMin, w, i + 1);
    }
  }

  lemma {:induction false} CountPrefix(cs: seq<Column>, i: nat)
    requires i < |cs|
    ensures CountResizable(cs[..i + 1]) == CountResizable(cs[..i]) + if cs[i].resizable then 1 else 0
    ensures CountResizable(cs[..i + 1]) <= CountResizable(cs)
    ensures CountResizable(cs[..i]) <= CountResizable(cs)
    decreases i
  {
    if i == 0 {
      assert cs[..1][1..] == [];
    } else {
      assert cs[..i + 1][1..] == cs[1..][..i] && cs[..i][1..] == cs[1..][..i - 1];
      CountPrefix(cs[1..], i - 1);
    }
  }

  // ---------------------------------------------------------------------------------------------
  // Shrinking

  /** The share of its room that every column gives up. */
  function Proportion(excess: real, leeway: int): (p: real)
    requires 0.0 < excess && 0 < leeway
    ensures 0.0 < p
  {
    excess / leeway as real
  }

  /** By how many pixels a column `room` above its minimum shrinks: its share rounded down, but at least 1. */
  function ShrinkSize(p: real, room: int): (size: int)
    requires 0.0 < p && 0 < room
    ensures 1 <= size <= room
  {
    var share := (p * room as real).Floor;
    PositiveProduct(p, room as real);
    var size := if share == 0 then 1 else share;
    if size < room then size else room
  }

  lemma {:induction false} PositiveProduct(p: real, x: real)
    requires 0.0 < p && 0.0 < x
    ensures 0.0 < p * x
  {
  }

  /** During a pass: the shares of the columns seen bound what was taken, up to one pixel for each of them. */
  ghost predicate Taken(p: real, taken: int, seen: int, count: nat) {
    && 0 <= seen && (count == 0 ==> taken == 0 && seen == 0)
    && (count > 0 ==> taken > 0 && taken as real < p * seen as real + count as real)
  }

  lemma {:induction false} TakeMore(p: real, taken: int, seen: int, count: nat, room: int)
    requires 0.0 < p && Taken(p, taken, seen, count) && 0 < room
    ensures Taken(p, taken + ShrinkSize(p, room), seen + room, count + 1)
  {
    PositiveProduct(p, room as real);
    assert ShrinkSize(p, room) as real < p * room as real + 1.0;
    assert p * (seen + room) as real == p * seen as real + p * room as real;
  }

  /** The shares of all columns together are exactly the excess. */
  lemma {:induction false} PassTakes(excess: real, leeway: int, taken: int, seen: int, count: nat)
    requires 0.0 < excess && 0 < leeway && 0 <= seen <= leeway && count > 0
    requires Taken(Proportion(excess, leeway), taken, seen, count)
    ensures taken as real < excess + count as real
  {
    var p := Proportion(excess, leeway);
    assert p * leeway as real == excess;
    assert p * (leeway - seen) as real >= 0.0;
    assert p * leeway as real == p * seen as real + p * (leeway - seen) as real;
  }

  /**
   A column with `room` pixels above its minimum loses its part of the excess, in proportion to its room: at most
   that and less than a pixel below it, but at least one pixel and no more than its room.
   */
  ghost predicate FairLoss(room: int, excess: real, leeway: int, lost: int) {
    && (if room > 0 then 1 <= lost <= room else lost == 0)
    && (lost <= 1 || lost as real * leeway as real <= excess * room as real)
    && (lost == room || (lost + 1) as real * leeway as real > excess * room as real)
  }

  lemma {:induction false} FairSize(c: Column, absMin: nat, w: int, excess: real, leeway: int)
    requires 0.0 < excess && 0 < leeway && 0 <= Room(c, absMin, w)
    ensures FairLoss(Room(c, absMin, w), excess, leeway, SizeOf(c, absMin, w, Proportion(excess, leeway)))
  {
    var p, room := Proportion(excess, leeway), Room(c, absMin, w);
    if room > 0 {
      assert p * leeway as real == excess;
      var lost := ShrinkSize(p, room);
      ShareTimes(p, room, leeway, excess, lost);
      ShareTimes(p, room, leeway, excess, lost + 1);
    }
  }

  lemma {:induction false} Reorder(p: real, r: real, l: real)
    ensures p * r * l == p * l * r
  {
  }

  /** Comparing with the share `p * w` is comparing the products with `t`. */
  lemma {:induction false} ShareTimes(p: real, w: int, t: int, a: real, n: int)
    requires 0 < t && p * t as real == a
    ensures n as real <= p * w as real ==> n as real * t as real <= a * w as real
    ensures p * w as real < n as real ==> a * w as real < n as real * t as real
  {
    Reorder(p, w as real, t as real);
    var x, y, z := n as real, p * w as real, t as real;
    assert x <= y ==> x * z <= y * z;
    assert y < x ==> y * z < x * z;
  }

  /** The widths in the middle of a pass: the first `j` are new, the others old. */
  ghost function Midway(was: seq<int>, w: seq<int>, j: nat): seq<int>
    requires j <= |w| == |was|
  {
    w[..j] + was[j..]
  }

  lemma {:induction false} MidwayUpdate(was: seq<int>, w: seq<int>, i: nat, v: int)
    requires i < |was| == |w| && forall j :: i <= j < |w| ==> w[j] == was[j]
    ensures forall j :: 0 <= j <= i ==> Midway(was, w[i := v], j) == Midway(was, w, j)
    ensures Midway(was, w, i) == w
  {
    forall j | 0 <= j <= i ensures Midway(was, w[i := v], j) == Midway(was, w, j) {
      assert w[i := v][..j] == w[..j];
    }
  }

  lemma {:induction false} MidwayEnd(was: seq<int>, w: seq<int>, i: nat)
    requires i <= |was| == |w| && forall j :: i <= j < |w| ==> w[j] == was[j]
    ensures forall j :: i <= j <= |w| ==> Midway(was, w, j) == w
  {
  }

  /** Column `j` of a pass from `was` to `w` loses its part. */
  ghost predicate LosesPart(cs: seq<Column>, absMin: nat, was: seq<int>, w: seq<int>, avail: real, j: nat)
    requires j < |cs| == |was| == |w|
  {
    FairLoss(Room(cs[j], absMin, was[j]), Sum(was) as real - avail, RoomFrom(cs, absMin, was, 0), was[j] - w[j])
  }

  /** The pass reaches the columns before which the widths are still too large, and those lose their part. */
  ghost predicate ShrunkInProportion(cs: seq<Column>, absMin: nat, was: seq<int>, w: seq<int>, avail: real) {
    && |was| == |w| == |cs|
    && forall j :: 0 <= j < |cs| ==>
         if Sum(Midway(was, w, j)) as real > avail then LosesPart(cs, absMin, was, w, avail, j) else w[j] == was[j]
  }

  /** The same while the pass has reached `i` columns. */
  ghost predicate ShrunkSoFar(cs: seq<Column>, absMin: nat, was: seq<int>, w: seq<int>, avail: real, i: nat) {
    && i <= |was| == |w| == |cs|
    && (forall j :: i <= j < |cs| ==> w[j] == was[j])
    && forall j :: 0 <= j < i ==>
         Sum(Midway(was, w, j)) as real > avail && LosesPart(cs, absMin, was, w, avail, j)
  }

  lemma {:induction false} ShrinkStep(cs: seq<Column>, absMin: nat, was: seq<int>, w: seq<int>, avail: real, i: nat,
      size: int)
    requires ShrunkSoFar(cs, absMin, was, w, avail, i) && i < |cs| && Sum(w) as real > avail
    requires FairLoss(Room(cs[i], absMin, w[i]), Sum(was) as real - avail, RoomFrom(cs, absMin, was, 0), size)
    ensures ShrunkSoFar(cs, absMin, was, w[i := w[i] - size], avail, i + 1)
  {
    var w' := w[i := w[i] - size];
    hide FairLoss, Room, RoomFrom, Sum, Midway;
    MidwayUpdate(was, w, i, w[i] - size);
    forall j | 0 <= j <= i
      ensures Sum(Midway(was, w', j)) as real > avail && LosesPart(cs, absMin, was, w', avail, j)
    {
      if j < i { assert LosesPart(cs, absMin, was, w, avail, j); }
    }
  }

  lemma {:induction false} ShrinkStops(cs: seq<Column>, absMin: nat, was: seq<int>, w: seq<int>, avail: real, i: nat)
    requires ShrunkSoFar(cs, absMin, was, w, avail, i) && (i == |cs| || Sum(w) as real <= avail)
    ensures ShrunkInProportion(cs, absMin, was, w, avail)
  {
    hide LosesPart, Sum, Midway;
    MidwayEnd(was, w, i);
  }

  /** One pass after the other, each begun with the widths too large and a column able to shrink. */
  ghost predicate ShrinkRun(cs: seq<Column>, absMin: nat, trace: seq<seq<int>>, avail: real) {
    && |trace| > 0 && (forall k :: 0 <= k < |trace| ==> |trace[k]| == |cs|)
    && forall k :: 0 <= k < |trace| - 1 ==>
         && Sum(trace[k]) as real > avail && RoomFrom(cs, absMin, trace[k], 0) > 0
         && ShrunkInProportion(cs, absMin, trace[k], trace[k + 1], avail)
  }

  lemma {:induction false} OneMoreShrink(cs: seq<Column>, absMin: nat, trace: seq<seq<int>>, w: seq<int>, avail: real)
    requires ShrinkRun(cs, absMin, trace, avail)
    requires var was := trace[|trace| - 1]; Sum(was) as real > avail && RoomFrom(cs, absMin, was, 0) > 0
    requires |w| == |cs| && ShrunkInProportion(cs, absMin, trace[|trace| - 1], w, avail)
    ensures ShrinkRun(cs, absMin, trace + [w], avail)
  {
    hide Sum, RoomFrom, ShrunkInProportion;
  }

  /**
   Shrinks resizable columns until they fit into `avail` or all are at their minimum. The result is below
   `avail` by less than one pixel for each resizable column, and the guard against looping never fires.
   */
  method ShrinkColumns(cs: seq<Column>, absMin: nat, widths: array<int>, total0: int, leeway0: int, avail: real)
      returns (total: int, ghost trace: seq<seq<int>>)
    requires widths.Length == |cs|
    requires total0 == Sum(widths[..]) && leeway0 == RoomFrom(cs, absMin, widths[..], 0)
    requires AboveMinimum(cs, absMin, widths[..])
    modifies widths
    ensures total == Sum(widths[..]) && AboveMinimum(cs, absMin, widths[..])
    ensures OnlyShrunk(cs, old(widths[..]), widths[..])
    ensures total as real <= avail || forall j :: 0 <= j < |cs| && cs[j].resizable ==> widths[j] == cs[j].Lowest(absMin)
    ensures total0 as real <= avail ==> widths[..] == old(widths[..])
    ensures total0 as real > avail ==> total as real > avail - CountResizable(cs) as real
    ensures ShrinkRun(cs, absMin, trace, avail) && trace[0] == old(widths[..]) && trace[|trace| - 1] == widths[..]
  {
    total := total0;
    var leeway := leeway0;
    trace := [widths[..]];
    assert ShrinkRun(cs, absMin, trace, avail);
    hide Sum, CountResizable, RoomFrom, ShrunkInProportion, ShrinkRun;
    var prevTotal := total;
    RoomNonNegative(cs, absMin, widths[..], 0);
    while total as real > avail && leeway != 0
      invariant total == Sum(widths[..]) && prevTotal == total
      invariant AboveMinimum(cs, absMin, widths[..]) && 0 <= leeway == RoomFrom(cs, absMin, widths[..], 0)
      invariant OnlyShrunk(cs, old(widths[..]), widths[..])
      invariant total0 as real <= avail ==> widths[..] == old(widths[..])
      invariant total0 as real > avail ==> total as real > avail - CountResizable(cs) as real
      invariant ShrinkRun(cs, absMin, trace, avail) && trace[0] == old(widths[..]) && trace[|trace| - 1] == widths[..]
      decreases leeway
    {
      total, leeway := ShrinkPass(cs, absMin, widths, total, leeway, avail);
      OneMoreShrink(cs, absMin, trace, widths[..], avail);
      trace := trace + [widths[..]];
      if prevTotal == total {
        assert false;
        break;
      }
      prevTotal := total;
      RoomNonNegative(cs, absMin, widths[..], 0);
    }
    if total as real > avail {
      RoomNonNegative(cs, absMin, widths[..], 0);
      assert forall j :: 0 <= j < |cs| ==> Room(cs[j], absMin, widths[..][j]) == 0;
    }
  }

  ghost predicate OnlyShrunk(cs: seq<Column>, was: seq<int>, w: seq<int>) {
    |was| == |w| == |cs| && forall j :: 0 <= j < |cs| ==> w[j] <= was[j] && (!cs[j].resizable ==> w[j] == was[j])
  }

  /** Taking `size` pixels from column `i`. */
  lemma {:induction false} ShrinkOne(cs: seq<Column>, absMin: nat, first: seq<int>, w: seq<int>, i: nat, size: int)
    requires i < |cs| == |w| && cs[i].resizable && 0 <= size <= Room(cs[i], absMin, w[i])
    requires AboveMinimum(cs, absMin, w) && OnlyShrunk(cs, first, w)
    ensures var w' := w[i := w[i] - size]; Sum(w') == Sum(w) - size
    ensures var w' := w[i := w[i] - size]; RoomFrom(cs, absMin, w', 0) == RoomFrom(cs, absMin, w, 0) - size
    ensures var w' := w[i := w[i] - size]; RoomFrom(cs, absMin, w', i + 1) == RoomFrom(cs, absMin, w, i + 1)
    ensures var w' := w[i := w[i] - size]; AboveMinimum(cs, absMin, w') && OnlyShrunk(cs, first, w')
  {
    SumUpdate(w, i, w[i] - size);
    RoomUpdate(cs, absMin, w, 0, i, w[i] - size);
    RoomSame(cs, absMin, w[i := w[i] - size], w, i + 1);
    hide Sum, RoomFrom;
  }

  lemma {:induction false} RoomAt(cs: seq<Column>, absMin: nat, w: seq<int>, i: nat)
    requires i < |cs| == |w| && AboveMinimum(cs, absMin, w)
    ensures RoomFrom(cs, absMin, w, i) == Room(cs[i], absMin, w[i]) + RoomFrom(cs, absMin, w, i + 1)
    ensures 0 <= Room(cs[i], absMin, w[i])
  {
  }

  /** Shrinks column `i` if it can shrink, and says by how much. */
  method ShrinkColumn(cs: seq<Column>, absMin: nat, widths: array<int>, i: nat, p: real) returns (shrinkSize: int)
    requires i < |cs| == widths.Length && 0.0 < p && 0 <= Room(cs[i], absMin, widths[i])
    modifies widths
    ensures shrinkSize == SizeOf(cs[i], absMin, old(widths[i]), p)
    ensures widths[..] == old(widths[..])[i := old(widths[i]) - shrinkSize]
  {
    var c := cs[i];
    var width := widths[i];
    shrinkSize := 0;
    if c.resizable && c.minWidth < width && absMin < width {
      shrinkSize := ShrinkSize(p, width - c.Lowest(absMin));
      widths[i] := width - shrinkSize;
    }
  }

  function SizeOf(c: Column, absMin: nat, w: int, p: real): (size: int)
    requires 0.0 < p && 0 <= Room(c, absMin, w)
    ensures 0 <= size <= Room(c, absMin, w)
    ensures size == 0 <==> Room(c, absMin, w) == 0
  {
    if Room(c, absMin, w) == 0 then 0 else ShrinkSize(p, Room(c, absMin, w))
  }

  /** What one step of a pass keeps. */
  lemma {:induction false} StepTaken(cs: seq<Column>, absMin: nat, first: seq<int>, w: seq<int>, i: nat, p: real,
      taken: int, seen: int, count: nat)
    requires i < |cs| == |w| && 0.0 < p
    requires AboveMinimum(cs, absMin, w) && OnlyShrunk(cs, first, w)
    requires Taken(p, taken, seen, count) && count <= CountResizable(cs[..i])
    ensures 0 <= Room(cs[i], absMin, w[i])
    ensures var size := SizeOf(cs[i], absMin, w[i], p); var w' := w[i := w[i] - size];
      Sum(w') == Sum(w) - size && RoomFrom(cs, absMin, w', 0) == RoomFrom(cs, absMin, w, 0) - size
    ensures var size := SizeOf(cs[i], absMin, w[i], p); var w' := w[i := w[i] - size];
      RoomFrom(cs, absMin, w', i + 1) == RoomFrom(cs, absMin, w, i) - Room(cs[i], absMin, w[i])
    ensures var size := SizeOf(cs[i], absMin, w[i], p); var w' := w[i := w[i] - size];
      AboveMinimum(cs, absMin, w') && OnlyShrunk(cs, first, w')
    ensures var size := SizeOf(cs[i], absMin, w[i], p); var room := Room(cs[i], absMin, w[i]);
      var more := if size > 0 then 1 else 0;
      Taken(p, taken + size, seen + room, count + more) && count + more <= CountResizable(cs[..i + 1])
  {
    RoomAt(cs, absMin, w, i);
    CountPrefix(cs, i);
    var room := Room(cs[i], absMin, w[i]);
    if room > 0 {
      TakeMore(p, taken, seen, count, room);
      ShrinkOne(cs, absMin, first, w, i, SizeOf(cs[i], absMin, w[i], p));
    } else {
      assert w[i := w[i]] == w;
    }
  }

  /** What a pass knows when it has reached `i` columns, `count` of which could shrink. */
  ghost predicate Shrinking(cs: seq<Column>, absMin: nat, was: seq<int>, w: seq<int>, total: int, leeway: int,
      avail: real, i: nat, count: nat)
  {
    && i <= |cs| == |was| == |w|
    && total == Sum(w) && leeway == RoomFrom(cs, absMin, w, 0) && AboveMinimum(cs, absMin, w) && OnlyShrunk(cs, was, w)
    && Sum(was) as real > avail && RoomFrom(cs, absMin, was, 0) > 0
    && Sum(was) - total == RoomFrom(cs, absMin, was, 0) - leeway
    && count <= CountResizable(cs[..i])
    && Taken(Proportion(Sum(was) as real - avail, RoomFrom(cs, absMin, was, 0)), Sum(was) - total,
             RoomFrom(cs, absMin, was, 0) - RoomFrom(cs, absMin, w, i), count)
    && ShrunkSoFar(cs, absMin, was, w, avail, i)
  }

  lemma {:induction false} ShrinkingStep(cs: seq<Column>, absMin: nat, was: seq<int>, w: seq<int>, total: int,
      leeway: int, avail: real, i: nat, count: nat)
    requires Shrinking(cs, absMin, was, w, total, leeway, avail, i, count) && i < |cs| && total as real > avail
    ensures 0 <= Room(cs[i], absMin, w[i])
    ensures var size := SizeOf(cs[i], absMin, w[i], Proportion(Sum(was) as real - avail, RoomFrom(cs, absMin, was, 0)));
      var more := if size > 0 then 1 else 0;
      Shrinking(cs, absMin, was, w[i := w[i] - size], total - size, leeway - size, avail, i + 1, count + more)
  {
    hide Sum, RoomFrom, AboveMinimum, OnlyShrunk, Taken, CountResizable, Proportion, SizeOf, Room, FairLoss,
      ShrunkSoFar;
    var excess, leeway0 := Sum(was) as real - avail, RoomFrom(cs, absMin, was, 0);
    var p, seen := Proportion(excess, leeway0), leeway0 - RoomFrom(cs, absMin, w, i);
    StepTaken(cs, absMin, was, w, i, p, Sum(was) - total, seen, count);
    FairSize(cs[i], absMin, w[i], excess, leeway0);
    ShrinkStep(cs, absMin, was, w, avail, i, SizeOf(cs[i], absMin, w[i], p));
  }

  method ShrinkPass(cs: seq<Column>, absMin: nat, widths: array<int>, total0: int, leeway0: int, avail: real)
    returns (total: int, leeway: int)
    requires widths.Length == |cs|
    requires total0 == Sum(widths[..]) && leeway0 == RoomFrom(cs, absMin, widths[..], 0)
    requires AboveMinimum(cs, absMin, widths[..]) && total0 as real > avail && leeway0 > 0
    modifies widths
    ensures total == Sum(widths[..]) && leeway == RoomFrom(cs, absMin, widths[..], 0)
    ensures AboveMinimum(cs, absMin, widths[..]) && OnlyShrunk(cs, old(widths[..]), widths[..])
    ensures total < total0 && leeway < leeway0
    ensures total as real > avail - CountResizable(cs) as real
    ensures ShrunkInProportion(cs, absMin, old(widths[..]), widths[..], avail)
  {
    total, leeway := total0, leeway0;
    var shrinkProportion := Proportion(total as real - avail, leeway);
    ghost var count := 0;
    ghost var first := widths[..];
    var i := 0;
    assert Shrinking(cs, absMin, first, widths[..], total, leeway, avail, 0, 0);
    hide *;
    while i < |cs| && total as real > avail
      invariant 0 <= i <= |cs| && Shrinking(cs, absMin, first, widths[..], total, leeway, avail, i, count)
    {
      ShrinkingStep(cs, absMin, first, widths[..], total, leeway, avail, i, count);
      var shrinkSize := ShrinkColumn(cs, absMin, widths, i, shrinkProportion);
      if shrinkSize > 0 {
        count := count + 1;
      }
      total := total - shrinkSize;
      leeway := leeway - shrinkSize;
      i := i + 1;
    }
    ShrinkingEnds(cs, absMin, first, widths[..], total, leeway, avail, i, count);
  }

  lemma {:induction false} ShrinkingEnds(cs: seq<Column>, absMin: nat, was: seq<int>, w: seq<int>, total: int,
      leeway: int, avail: real, i: nat, count: nat)
    requires Shrinking(cs, absMin, was, w, total, leeway, avail, i, count) && (i == |cs| || total as real <= avail)
    ensures total == Sum(w) && leeway == RoomFrom(cs, absMin, w, 0)
    ensures AboveMinimum(cs, absMin, w) && OnlyShrunk(cs, was, w) && ShrunkInProportion(cs, absMin, was, w, avail)
    ensures total < Sum(was) && leeway < RoomFrom(cs, absMin, was, 0)
    ensures total as real > avail - CountResizable(cs) as real
  {
    hide Sum, RoomFrom, AboveMinimum, OnlyShrunk, Taken, CountResizable, Proportion, ShrunkSoFar, ShrunkInProportion;
    var leeway0 := RoomFrom(cs, absMin, was, 0);
    PassEnds(cs, absMin, w, Sum(was), leeway0, total, leeway0 - RoomFrom(cs, absMin, w, i), count, i, avail);
    ShrinkStops(cs, absMin, was, w, avail, i);
  }

  lemma {:induction false} PassEnds(cs: seq<Column>, absMin: nat, w: seq<int>, total0: int, leeway0: int,
      total: int, seen: int, count: nat, i: nat, avail: real)
    requires i <= |cs| == |w| && AboveMinimum(cs, absMin, w) && total0 as real > avail && leeway0 > 0
    requires i == |cs| || total as real <= avail
    requires seen + RoomFrom(cs, absMin, w, i) == leeway0
    requires Taken(Proportion(total0 as real - avail, leeway0), total0 - total, seen, count)
    requires count <= CountResizable(cs[..i])
    ensures total < total0 && total as real > avail - CountResizable(cs) as real
  {
    RoomNonNegative(cs, absMin, w, i);
    assert cs[..|cs|] == cs;
    if i > 0 {
      CountPrefix(cs, i - 1);
    }
    PassTakes(total0 as real - avail, leeway0, total0 - total, seen, count);
  }

  // ---------------------------------------------------------------------------------------------
  // Growing

  /** The widths that the grow loop reads from the columns themselves, not from the new widths. */
  ghost predicate NonNegative(w: seq<int>) {
    forall j :: 0 <= j < |w| ==> 0 <= w[j]
  }

  predicate CanGrow(c: Column, width: int) {
    c.resizable && !(c.maxWidth.Some? && c.maxWidth.value <= width)
  }

  /**
   By how many pixels a column grows: its share rounded down, at most up to its maximum, but at least 1.
   A total of 0 makes the proportion infinite.
   */
  function GrowSize(c: Column, width: int, avail: real, total: int): (size: int)
    requires CanGrow(c, width) && 0 <= width && 0 <= total && total as real < avail
    ensures 1 <= size
  {
    var cap := if c.maxWidth.Some? then c.maxWidth.value - width else 1000000;
    if total == 0 then
      if width == 0 then 1 else cap
    else
      GrowthNonNegative(avail, total, width);
      var share := (avail / total as real * width as real).Floor - width;
      var size := if share < cap then share else cap;
      if size == 0 then 1 else size
  }

  lemma {:induction false} GrowthNonNegative(avail: real, total: int, width: int)
    requires 0 < total && total as real < avail && 0 <= width
    ensures 0.0 < Growth(avail, total)
    ensures width as real <= avail / total as real * width as real
    ensures avail / total as real * width as real == width as real + Growth(avail, total) * width as real
  {
    var p := avail / total as real;
    assert p * total as real == avail;
    assert p > 1.0;
    assert p * width as real == width as real + (p - 1.0) * width as real;
    assert 0.0 <= (p - 1.0) * width as real;
  }

  function Growth(avail: real, total: int): real
    requires 0 < total
  {
    avail / total as real - 1.0
  }

  /** During a pass: the shares of the columns seen bound what was added, up to one pixel for each of them. */
  ghost predicate Added(p: real, added: int, seen: int, count: nat) {
    0 <= added && 0 <= seen && added as real <= p * seen as real + count as real
  }

  function GrowthOf(c: Column, width: int, avail: real, total: int): (size: int)
    requires 0 <= width && 0 <= total && total as real < avail
    ensures 0 <= size
    ensures size == 0 <==> !CanGrow(c, width)
  {
    if CanGrow(c, width) then GrowSize(c, width, avail, total) else 0
  }

  lemma {:induction false} AddMore(c: Column, width: int, avail: real, total: int, added: int, seen: int, count: nat)
    requires 0 < total && total as real < avail && 0 <= width
    requires Added(Growth(avail, total), added, seen, count)
    ensures var size := GrowthOf(c, width, avail, total);
      Added(Growth(avail, total), added + size, seen + width, count + if c.resizable then 1 else 0)
  {
    var p := Growth(avail, total);
    GrowthNonNegative(avail, total, width);
    PositiveShare(p, width);
    assert p * (seen + width) as real == p * seen as real + p * width as real;
  }

  lemma {:induction false} PositiveShare(p: real, x: int)
    requires 0.0 < p && 0 <= x
    ensures 0.0 <= p * x as real
  {
  }

  /**
   How far the shares go beyond what is missing: they are taken of the columns' own widths, `sum`, which are more
   than the new widths, `total`, when those have been shrunk.
   */
  function Spill(avail: real, sum: real, total: real): (r: real)
    requires 0.0 < total
  {
    if total >= avail || sum <= total then 0.0 else (avail / total - 1.0) * (sum - total)
  }

  /** The larger the total, the less is spilled. */
  lemma {:induction false} SpillFalls(avail: real, sum: real, total: real, more: real)
    requires 0.0 < total <= more
    ensures 0.0 <= Spill(avail, sum, more) <= Spill(avail, sum, total)
  {
    if more < avail && sum > more {
      QuotientFalls(avail, total, more);
      ProductFalls(avail / more - 1.0, avail / total - 1.0, sum - more, sum - total);
    } else {
      SpillNothing(avail, sum, more);
      SpillNonNegative(avail, sum, total);
      hide Spill;
    }
  }

  lemma {:induction false} SpillNothing(avail: real, sum: real, total: real)
    requires 0.0 < total && (avail <= total || sum <= total)
    ensures Spill(avail, sum, total) == 0.0
  {
  }

  lemma {:induction false} SpillNonNegative(avail: real, sum: real, total: real)
    requires 0.0 < total
    ensures 0.0 <= Spill(avail, sum, total)
  {
    if total < avail && sum > total {
      QuotientFalls(avail, total, avail);
      ProductFalls(0.0, avail / total - 1.0, 0.0, sum - total);
      assert 0.0 <= (avail / total - 1.0) * (sum - total);
    }
  }

  lemma {:induction false} QuotientFalls(a: real, x: real, y: real)
    requires 0.0 < x <= y <= a
    ensures 1.0 <= a / y <= a / x
  {
    var p, q := a / x, a / y;
    assert p * x == a && q * y == a;
    assert (q - 1.0) * y == a - y;
    Cancel(q - 1.0, y);
    assert q * y - q * x == q * (y - x) >= 0.0;
    assert (p - q) * x == q * y - q * x;
    Cancel(p - q, x);
  }

  lemma {:induction false} Cancel(z: real, x: real)
    requires 0.0 < x && 0.0 <= z * x
    ensures 0.0 <= z
  {
  }

  lemma {:induction false} ProductFalls(a: real, b: real, c: real, d: real)
    requires 0.0 <= a <= b && 0.0 <= c <= d
    ensures 0.0 <= a * c <= b * d
  {
    assert a * c <= b * c <= b * d;
  }

  /** The shares of all columns together are at most what is missing, but for what is spilled. */
  lemma {:induction false} PassAdds(avail: real, total: int, added: int, seen: int, sum: int, count: nat)
    requires 0 < total && total as real < avail && seen <= sum
    requires Added(Growth(avail, total), added, seen, count)
    ensures (total + added) as real <= avail + count as real + Spill(avail, sum as real, total as real)
  {
    var p := Growth(avail, total);
    GrowthNonNegative(avail, total, 0);
    assert avail / total as real * total as real == avail;
    assert p * total as real == avail - total as real;
    PositiveShare(p, sum - seen);
    assert p * sum as real == p * seen as real + p * (sum - seen) as real;
    assert p * sum as real == p * total as real + p * (sum - total) as real;
    if sum <= total {
      PositiveShare(p, total - sum);
      assert p * (sum - total) as real == -(p * (total - sum) as real);
    }
  }

  lemma {:induction false} SumPrefix(w: seq<int>, i: nat)
    requires i < |w| && NonNegative(w)
    ensures Sum(w[..i + 1]) == Sum(w[..i]) + w[i]
    ensures 0 <= Sum(w[..i]) <= Sum(w[..i + 1]) <= Sum(w)
    decreases i
  {
    if i == 0 {
      assert w[..1][1..] == [];
      SumNonNegative(w[1..]);
    } else {
      assert w[..i + 1][1..] == w[1..][..i] && w[..i][1..] == w[1..][..i - 1];
      SumPrefix(w[1..], i - 1);
    }
  }

  lemma {:induction false} SumNonNegative(w: seq<int>)
    requires NonNegative(w)
    ensures 0 <= Sum(w)
  {
    if w != [] {
      SumNonNegative(w[1..]);
    }
  }

  /** Only columns that can grow have changed, and they have grown. */
  ghost predicate OnlyGrown(cs: seq<Column>, width: seq<int>, was: seq<int>, w: seq<int>) {
    && |cs| == |width| == |was| == |w|
    && forall j :: 0 <= j < |cs| ==> was[j] <= w[j] && (!CanGrow(cs[j], width[j]) ==> w[j] == was[j])
  }

  predicate NoneCanGrow(cs: seq<Column>, width: seq<int>, n: nat)
    requires n <= |cs| == |width|
  {
    forall j :: 0 <= j < n && cs[j].resizable ==> cs[j].maxWidth.Some? && cs[j].maxWidth.value <= width[j]
  }

  /**
   A column of width `width` grows by what it lacks of its part of the available width, rounded down, in proportion to
   its width among the `total`, but at least one pixel and no more than up to its maximum. With a total of 0 every
   column that has a width grows up to its maximum.
   */
  ghost predicate FairGrowth(c: Column, width: int, avail: real, total: int, size: int) {
    var cap := if c.maxWidth.Some? then c.maxWidth.value - width else 1000000;
    && 1 <= size <= cap
    && (size == 1 || (width + size) as real * total as real <= avail * width as real)
    && (size == cap || (width + size + 1) as real * total as real > avail * width as real || width == total == 0)
    && (width == total == 0 ==> size == 1)
  }

  lemma {:induction false} FairGrowSize(c: Column, width: int, avail: real, total: int)
    requires CanGrow(c, width) && 0 <= width && 0 <= total && total as real < avail
    ensures FairGrowth(c, width, avail, total, GrowSize(c, width, avail, total))
  {
    if total > 0 {
      var p := avail / total as real;
      GrowthNonNegative(avail, total, width);
      assert p * total as real == avail;
      var size := GrowSize(c, width, avail, total);
      ShareTimes(p, width, total, avail, width + size);
      ShareTimes(p, width, total, avail, width + size + 1);
    } else if width > 0 {
      assert avail * width as real > 0.0;
    }
  }

  /** Column `j` of a pass from `was` to `w` gets its part if it can grow. */
  ghost predicate GetsPart(cs: seq<Column>, width: seq<int>, was: seq<int>, w: seq<int>, avail: real, j: nat)
    requires j < |cs| == |width| == |was| == |w|
  {
    if CanGrow(cs[j], width[j]) then FairGrowth(cs[j], width[j], avail, Sum(was), w[j] - was[j]) else w[j] == was[j]
  }

  /** The pass reaches the columns before which the width is not filled. */
  ghost predicate GrownInProportion(cs: seq<Column>, width: seq<int>, was: seq<int>, w: seq<int>, avail: real) {
    && |was| == |w| == |cs| == |width|
    && forall j :: 0 <= j < |cs| ==>
         if Sum(Midway(was, w, j)) as real < avail then GetsPart(cs, width, was, w, avail, j) else w[j] == was[j]
  }

  /** The same while the pass has reached `i` columns. */
  ghost predicate GrownSoFar(cs: seq<Column>, width: seq<int>, was: seq<int>, w: seq<int>, avail: real, i: nat) {
    && i <= |was| == |w| == |cs| == |width|
    && (forall j :: i <= j < |cs| ==> w[j] == was[j])
    && forall j :: 0 <= j < i ==>
         Sum(Midway(was, w, j)) as real < avail && GetsPart(cs, width, was, w, avail, j)
  }

  lemma {:induction false} GrowStep(cs: seq<Column>, width: seq<int>, was: seq<int>, w: seq<int>, avail: real, i: nat,
      size: int)
    requires GrownSoFar(cs, width, was, w, avail, i) && i < |cs| && Sum(w) as real < avail
    requires if CanGrow(cs[i], width[i]) then FairGrowth(cs[i], width[i], avail, Sum(was), size) else size == 0
    ensures GrownSoFar(cs, width, was, w[i := w[i] + size], avail, i + 1)
  {
    var w' := w[i := w[i] + size];
    hide FairGrowth, CanGrow, Sum, Midway;
    MidwayUpdate(was, w, i, w[i] + size);
    forall j | 0 <= j <= i
      ensures Sum(Midway(was, w', j)) as real < avail && GetsPart(cs, width, was, w', avail, j)
    {
      if j < i { assert GetsPart(cs, width, was, w, avail, j); }
    }
  }

  lemma {:induction false} GrowStops(cs: seq<Column>, width: seq<int>, was: seq<int>, w: seq<int>, avail: real, i: nat)
    requires GrownSoFar(cs, width, was, w, avail, i) && (i == |cs| || Sum(w) as real >= avail)
    ensures GrownInProportion(cs, width, was, w, avail)
  {
    hide GetsPart, Sum, Midway;
    MidwayEnd(was, w, i);
  }

  /** One pass after the other, each begun with the width not filled. */
  ghost predicate GrowRun(cs: seq<Column>, width: seq<int>, trace: seq<seq<int>>, avail: real) {
    && |trace| > 0
    && forall k :: 0 <= k < |trace| - 1 ==>
         Sum(trace[k]) as real < avail && GrownInProportion(cs, width, trace[k], trace[k + 1], avail)
  }

  lemma {:induction false} OneMoreGrowth(cs: seq<Column>, width: seq<int>, trace: seq<seq<int>>, w: seq<int>,
      avail: real)
    requires GrowRun(cs, width, trace, avail) && Sum(trace[|trace| - 1]) as real < avail
    requires GrownInProportion(cs, width, trace[|trace| - 1], w, avail)
    ensures GrowRun(cs, width, trace + [w], avail)
  {
    hide Sum, GrownInProportion;
  }

  /** The growth of a column that the pass reaches. */
  lemma {:induction false} GrowthIsFair(c: Column, width: int, avail: real, total: int)
    requires 0 <= width && 0 <= total && total as real < avail
    ensures var size := GrowthOf(c, width, avail, total);
      if CanGrow(c, width) then FairGrowth(c, width, avail, total, size) else size == 0
  {
    if CanGrow(c, width) {
      FairGrowSize(c, width, avail, total);
    }
  }

  /** What a pass knows when it has reached `i` columns. */
  ghost predicate Growing(cs: seq<Column>, width: seq<int>, was: seq<int>, w: seq<int>, total: int, avail: real,
      i: nat)
  {
    && OnlyGrown(cs, width, was, w) && NonNegative(width) && i <= |cs|
    && 0 <= Sum(was) <= total == Sum(w) && Sum(was) as real < avail
    && (total == Sum(was) <==> NoneCanGrow(cs, width, i))
    && GrownSoFar(cs, width, was, w, avail, i)
    && (0 < Sum(was) ==>
          Added(Growth(avail, Sum(was)), total - Sum(was), Sum(width[..i]), CountResizable(cs[..i])))
  }

  lemma {:induction false} StepGrown(cs: seq<Column>, width: seq<int>, was: seq<int>, w: seq<int>, i: nat, size: int)
    requires OnlyGrown(cs, width, was, w) && i < |cs| && 0 <= size && (size == 0 <==> !CanGrow(cs[i], width[i]))
    requires w[i] == was[i]
    ensures OnlyGrown(cs, width, was, w[i := w[i] + size])
    ensures NoneCanGrow(cs, width, i + 1) <==> NoneCanGrow(cs, width, i) && size == 0
  {
  }

  lemma {:induction false} NotReached(cs: seq<Column>, width: seq<int>, was: seq<int>, w: seq<int>, avail: real, i: nat)
    requires GrownSoFar(cs, width, was, w, avail, i) && i < |cs|
    ensures |cs| == |was| == |w| && w[i] == was[i]
  {
  }

  lemma {:induction false} GrowingStep(cs: seq<Column>, width: seq<int>, was: seq<int>, w: seq<int>, total: int,
      avail: real, i: nat)
    requires Growing(cs, width, was, w, total, avail, i) && i < |cs| && total as real < avail
    ensures var size := GrowthOf(cs[i], width[i], avail, Sum(was));
      Growing(cs, width, was, w[i := w[i] + size], total + size, avail, i + 1)
  {
    var size := GrowthOf(cs[i], width[i], avail, Sum(was));
    hide Sum, CountResizable, Growth, Added, GrowthOf, FairGrowth, CanGrow, GrownSoFar, OnlyGrown, NoneCanGrow;
    NotReached(cs, width, was, w, avail, i);
    StepGrown(cs, width, was, w, i, size);
    SumPrefix(width, i);
    CountPrefix(cs, i);
    if 0 < Sum(was) {
      AddMore(cs[i], width[i], avail, Sum(was), total - Sum(was), Sum(width[..i]), CountResizable(cs[..i]));
    }
    GrowthIsFair(cs[i], width[i], avail, Sum(was));
    GrowStep(cs, width, was, w, avail, i, size);
    SumUpdate(w, i, w[i] + size);
  }

  /** Grows column `i` if it can grow, and says by how much. */
  method GrowColumn(c: Column, width: int, widths: array<int>, i: nat, avail: real, total: int) returns (growSize: int)
    requires i < widths.Length && 0 <= width && 0 <= total && total as real < avail
    modifies widths
    ensures growSize == GrowthOf(c, width, avail, total)
    ensures widths[..] == old(widths[..])[i := old(widths[i]) + growSize]
  {
    growSize := 0;
    if CanGrow(c, width) {
      growSize := GrowSize(c, width, avail, total);
      widths[i] := widths[i] + growSize;
    }
  }

  method GrowPass(cs: seq<Column>, width: seq<int>, widths: array<int>, total0: int, avail: real) returns (total: int)
    requires widths.Length == |cs| == |width| && NonNegative(width)
    requires 0 <= total0 == Sum(widths[..]) && total0 as real < avail
    modifies widths
    ensures total == Sum(widths[..]) && OnlyGrown(cs, width, old(widths[..]), widths[..])
    ensures total0 <= total && (total == total0 <==> NoneCanGrow(cs, width, |cs|))
    ensures 0 < total0 ==>
      total as real <= avail + CountResizable(cs) as real + Spill(avail, Sum(width) as real, total0 as real)
    ensures GrownInProportion(cs, width, old(widths[..]), widths[..], avail)
  {
    total := total0;
    ghost var first := widths[..];
    var i := 0;
    assert Growing(cs, width, first, widths[..], total, avail, 0);
    hide *;
    while i < |cs| && total as real < avail
      invariant 0 <= i <= |cs| && Growing(cs, width, first, widths[..], total, avail, i)
    {
      GrowingStep(cs, width, first, widths[..], total, avail, i);
      var growSize := GrowColumn(cs[i], width[i], widths, i, avail, total0);
      total := total + growSize;
      i := i + 1;
    }
    GrowingEnds(cs, width, first, widths[..], total, avail, i);
  }

  lemma {:induction false} GrowingEnds(cs: seq<Column>, width: seq<int>, was: seq<int>, w: seq<int>, total: int,
      avail: real, i: nat)
    requires Growing(cs, width, was, w, total, avail, i) && (i == |cs| || total as real >= avail)
    ensures total == Sum(w) && OnlyGrown(cs, width, was, w) && GrownInProportion(cs, width, was, w, avail)
    ensures Sum(was) <= total && (total == Sum(was) <==> NoneCanGrow(cs, width, |cs|))
    ensures 0 < Sum(was) ==>
      total as real <= avail + CountResizable(cs) as real + Spill(avail, Sum(width) as real, Sum(was) as real)
  {
    assert width[..|cs|] == width && cs[..|cs|] == cs;
    hide Sum, CountResizable, Growth, Added, GrownSoFar, GrownInProportion, CanGrow;
    if i < |cs| {
      SumPrefix(width, i);
      CountPrefix(cs, i);
    }
    GrowStops(cs, width, was, w, avail, i);
    if 0 < Sum(was) {
      PassAdds(avail, Sum(was), total - Sum(was), Sum(width[..i]), Sum(width), CountResizable(cs[..i]));
    }
  }

  /**
   Grows resizable columns until they fill `avail` or none may grow. The result exceeds `avail` by at most one pixel
   for each resizable column, and by what is spilled if columns were shrunk before.
   */
  method GrowColumns(cs: seq<Column>, width: seq<int>, widths: array<int>, total0: int, avail: real)
      returns (total: int, ghost trace: seq<seq<int>>)
    requires widths.Length == |cs| == |width| && NonNegative(width)
    requires 0 <= total0 == Sum(widths[..])
    modifies widths
    ensures total == Sum(widths[..]) && OnlyGrown(cs, width, old(widths[..]), widths[..])
    ensures total as real >= avail || NoneCanGrow(cs, width, |cs|)
    ensures total0 as real >= avail ==> widths[..] == old(widths[..])
    ensures 0 < total0 && total0 as real < avail ==>
      total as real <= avail + CountResizable(cs) as real + Spill(avail, Sum(width) as real, total0 as real)
    ensures GrowRun(cs, width, trace, avail) && trace[0] == old(widths[..]) && trace[|trace| - 1] == widths[..]
  {
    total := total0;
    trace := [widths[..]];
    assert GrowRun(cs, width, trace, avail);
    hide Sum, CountResizable, Spill, GrownInProportion, GrowRun, CanGrow;
    var prevTotal := total;
    if 0 < total0 {
      SpillNonNegative(avail, Sum(width) as real, total0 as real);
    }
    while total as real < avail
      invariant total0 <= total == Sum(widths[..]) && prevTotal == total
      invariant OnlyGrown(cs, width, old(widths[..]), widths[..])
      invariant total0 as real >= avail ==> widths[..] == old(widths[..])
      invariant 0 < total0 && total0 as real < avail ==>
        total as real <= avail + CountResizable(cs) as real + Spill(avail, Sum(width) as real, total0 as real)
      invariant GrowRun(cs, width, trace, avail) && trace[0] == old(widths[..]) && trace[|trace| - 1] == widths[..]
      decreases avail.Floor - total
    {
      if 0 < total0 {
        SpillFalls(avail, Sum(width) as real, total0 as real, total as real);
      }
      total := GrowPass(cs, width, widths, total, avail);
      OneMoreGrowth(cs, width, trace, widths[..], avail);
      trace := trace + [widths[..]];
      if prevTotal == total {
        break;
      }
      prevTotal := total;
    }
  }

  ghost predicate AllLowest(cs: seq<Column>, absMin: nat, w: seq<int>)
    requires |cs| == |w|
  {
    forall j :: 0 <= j < |cs| && cs[j].resizable ==> w[j] == cs[j].Lowest(absMin)
  }

  /** The widths of the columns, their sum and by how much they may shrink. */
  method Measure(cs: seq<Column>, absMin: nat, width: array<int>)
      returns (widths: array<int>, total: int, shrinkLeeway: int)
    requires width.Length == |cs| && NonNegative(width[..])
    ensures fresh(widths) && widths[..] == width[..]
    ensures total == Sum(width[..]) && shrinkLeeway == RoomFrom(cs, absMin, width[..], 0)
  {
    widths := new int[|cs|];
    total, shrinkLeeway := 0, 0;
    ghost var start := width[..];
    var i := 0;
    while i < |cs|
      invariant 0 <= i <= |cs|
      invariant width[..] == start && widths[..i] == start[..i]
      invariant total == Sum(start[..i])
      invariant shrinkLeeway + RoomFrom(cs, absMin, start, i) == RoomFrom(cs, absMin, start, 0)
    {
      SumPrefix(start, i);
      assert RoomFrom(cs, absMin, start, i) == Room(cs[i], absMin, start[i]) + RoomFrom(cs, absMin, start, i + 1);
      widths[i] := width[i];
      if cs[i].resizable {
        shrinkLeeway := shrinkLeeway + (width[i] - cs[i].Lowest(absMin));
      }
      total := total + width[i];
      i := i + 1;
    }
    assert start[..|cs|] == start && widths[..] == start;
  }

  /** Passes that shrink in proportion lead from `start` to some widths, and passes that grow in proportion to `w`. */
  ghost predicate Autosized(cs: seq<Column>, absMin: nat, start: seq<int>, w: seq<int>, avail: real,
      down: seq<seq<int>>, up: seq<seq<int>>)
  {
    && ShrinkRun(cs, absMin, down, avail) && down[0] == start
    && GrowRun(cs, start, up, avail) && up[0] == down[|down| - 1] && up[|up| - 1] == w
  }

  /** Sets the widths of the columns so that they fit the available width, as far as their limits allow. */
  method AutosizeColumns(cs: seq<Column>, absMin: nat, width: array<int>, avail: real)
      returns (ghost down: seq<seq<int>>, ghost up: seq<seq<int>>)
    requires width.Length == |cs|
    requires NonNegative(width[..]) && AboveMinimum(cs, absMin, width[..])
    modifies width
    ensures AboveMinimum(cs, absMin, width[..])
    ensures forall j :: 0 <= j < |cs| && !cs[j].resizable ==> width[j] == old(width[j])
    ensures Sum(width[..]) as real >= avail || NoneCanGrow(cs, old(width[..]), |cs|)
    ensures var before := Sum(old(width[..])); before as real == avail ==> width[..] == old(width[..])
    ensures var before := Sum(old(width[..])); 0 < before && before as real < avail ==>
      Sum(width[..]) as real <= avail + CountResizable(cs) as real
    ensures var before, count := Sum(old(width[..])), CountResizable(cs) as real; before as real > avail > count ==>
      || AllLowest(cs, absMin, width[..])
      || Sum(width[..]) as real <= avail + count + Spill(avail, before as real, avail - count)
    ensures Autosized(cs, absMin, old(width[..]), width[..], avail, down, up)
  {
    ghost var start := width[..];
    var widths, total, shrinkLeeway := Measure(cs, absMin, width);
    total, down := ShrinkColumns(cs, absMin, widths, total, shrinkLeeway, avail);
    ghost var shrunk := widths[..];
    ShrunkNonNegative(cs, absMin, start, shrunk);
    hide Spill, Sum, RoomFrom, CountResizable, ShrinkRun, GrowRun;
    total, up := GrowColumns(cs, width[..], widths, total, avail);
    ghost var grown := widths[..];
    Resized(cs, absMin, start, shrunk, grown);
    if Sum(start) as real > avail > CountResizable(cs) as real {
      SpillFalls(avail, Sum(start) as real, avail - CountResizable(cs) as real, Sum(shrunk) as real);
    }
    hide *;
    var i := 0;
    while i < |cs|
      invariant 0 <= i <= |cs|
      invariant widths[..] == grown && width[..i] == grown[..i]
    {
      width[i] := widths[i];
      i := i + 1;
    }
    assert width[..] == grown;
  }

  lemma {:induction false} ShrunkNonNegative(cs: seq<Column>, absMin: nat, was: seq<int>, w: seq<int>)
    requires OnlyShrunk(cs, was, w) && AboveMinimum(cs, absMin, w) && NonNegative(was)
    ensures 0 <= Sum(w)
  {
    forall j | 0 <= j < |w| ensures 0 <= w[j] {
      assert 0 <= Room(cs[j], absMin, w[j]);
    }
    SumNonNegative(w);
  }

  lemma {:induction false} Resized(cs: seq<Column>, absMin: nat, start: seq<int>, shrunk: seq<int>, grown: seq<int>)
    requires OnlyShrunk(cs, start, shrunk) && AboveMinimum(cs, absMin, shrunk) && OnlyGrown(cs, start, shrunk, grown)
    ensures AboveMinimum(cs, absMin, grown)
    ensures forall j :: 0 <= j < |cs| && !cs[j].resizable ==> grown[j] == start[j]
  {
    forall j | 0 <= j < |cs| ensures 0 <= Room(cs[j], absMin, grown[j]) {
      assert 0 <= Room(cs[j], absMin, shrunk[j]);
    }
  }
}
