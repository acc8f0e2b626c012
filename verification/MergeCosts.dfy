/**
 What code lengths cost, and why the package-merge method finds the cheapest ones.

 Every length saves what it is below the limit, once for each occurrence of its symbol.  Any lengths take some number
 of symbols from each level; brought to the form of packages, level by level from the deepest up, these are no more
 items than the level lists, and no better than its first ones.
 */
module MergeCosts {
  import opened Bits
  import opened MergeLevels

  /** The sum of the first `k` frequencies. */
  ghost function Sum(freqs: seq<nat>, k: nat): nat
    requires k <= |freqs|
  {
    if k == 0 then 0 else Sum(freqs, k - 1) + freqs[k - 1]
  }

  /** The number of bits that the first `m` symbols need with these lengths. */
  ghost function Cost(freqs: seq<nat>, lengths: seq<nat>, m: nat): nat
    requires m <= |freqs| == |lengths|
  {
    if m == 0 then 0 else Cost(freqs, lengths, m - 1) + freqs[m - 1] * lengths[m - 1]
  }

  /** Lengths from one to the limit that meet the Kraft inequality. */
  ghost predicate Assignment(lengths: seq<nat>, n: nat, limit: nat) {
    && |lengths| == n && (forall l :: 0 <= l < n ==> 1 <= lengths[l] <= limit)
    && LengthSum(lengths, limit, n) <= Pow2(limit)
  }

  /** No other lengths need fewer bits. */
  ghost predicate Cheapest(freqs: seq<nat>, lengths: seq<nat>, limit: nat)
    requires |lengths| == |freqs|
  {
    forall other :: Assignment(other, |freqs|, limit) ==> Cost(freqs, lengths, |freqs|) <= Cost(freqs, other, |freqs|)
  }

  // ----- sums of items and pairs

  ghost function Value(x: Number): nat {
    if x.Number? then x.value else 0
  }

  /** The sum of the first `k` items of a level. */
  ghost function FirstItems(vals: seq<Number>, k: nat): nat
    requires k <= |vals|
  {
    if k == 0 then 0 else FirstItems(vals, k - 1) + Value(vals[k - 1])
  }

  /** The `i`th pair of the items behind the first `skip`. */
  ghost function Pair(below: seq<Number>, skip: nat, i: nat): nat {
    Value(At(below, skip + 2 * i)) + Value(At(below, skip + 2 * i + 1))
  }

  ghost function Pairs(below: seq<Number>, skip: nat, p: nat): nat {
    if p == 0 then 0 else Pairs(below, skip, p - 1) + Pair(below, skip, p - 1)
  }

  lemma {:induction false} PairsAreItems(below: seq<Number>, skip: nat, p: nat)
    requires skip + 2 * p <= |below|
    ensures FirstItems(below, skip + 2 * p) == FirstItems(below, skip) + Pairs(below, skip, p)
  {
    if p > 0 { PairsAreItems(below, skip, p - 1); }
  }

  // ----- every level falls

  /** The first `v` items do not rise. */
  ghost predicate Falls(vals: seq<Number>, v: nat) {
    v <= |vals| && forall q :: 0 <= q < v - 1 ==> Value(vals[q]) >= Value(vals[q + 1])
  }

  lemma {:induction false} ItemFalls(vals: seq<Number>, v: nat, i: nat, j: nat)
    requires Falls(vals, v) && i <= j < v
    ensures Value(vals[i]) >= Value(vals[j])
  {
    if i < j {
      ItemFalls(vals, v, i, j - 1);
      assert Value(vals[j - 1]) >= Value(vals[j - 1 + 1]);
    }
  }

  lemma {:induction false} PairFalls(below: seq<Number>, u: nat, skip: nat, i: nat, j: nat)
    requires Falls(below, u) && i <= j && skip + 2 * j + 1 < u
    ensures Pair(below, skip, i) >= Pair(below, skip, j)
  {
    ItemFalls(below, u, skip + 2 * i, skip + 2 * j);
    ItemFalls(below, u, skip + 2 * i + 1, skip + 2 * j + 1);
  }

  lemma {:induction false} BaseFalls(row: seq<nat>, vals: seq<Number>, v: nat, freqs: seq<nat>)
    requires IsBase(row, vals, v, freqs) && Descending(freqs)
    ensures Falls(vals, v) && Defined(vals, v)
  {
  }

  lemma {:induction false} MergeFalls(row: seq<nat>, vals: seq<Number>, v: nat, below: seq<Number>, u: nat, skip: nat,
      freqs: seq<nat>)
    requires IsMerge(row, vals, v, below, skip, freqs) && Descending(freqs) && Falls(below, u) && Defined(below, u)
    ensures Falls(vals, v)
  {
    forall q | 0 <= q < v - 1 ensures Value(vals[q]) >= Value(vals[q + 1]) {
      assert IsItem(row, vals, q, below, skip, freqs) && IsItem(row, vals, q + 1, below, skip, freqs);
      var w := Packages(row, |freqs|, q);
      if row[q] == |freqs| == row[q + 1] { PairFalls(below, u, skip, w, w + 1); }
    }
  }

  // ----- one level takes the best of its symbols and pairs

  /** The first `q` items are the symbols and the pairs among them. */
  lemma {:induction false} ItemsSplit(row: seq<nat>, vals: seq<Number>, v: nat, below: seq<Number>, skip: nat,
      freqs: seq<nat>, q: nat)
    requires IsMerge(row, vals, v, below, skip, freqs) && q <= v
    ensures Symbols(row, |freqs|, q) <= |freqs|
    ensures FirstItems(vals, q) == Sum(freqs, Symbols(row, |freqs|, q)) + Pairs(below, skip, Packages(row, |freqs|, q))
  {
    if q > 0 {
      ItemsSplit(row, vals, v, below, skip, freqs, q - 1);
      assert IsItem(row, vals, q - 1, below, skip, freqs);
    }
  }

  /** The item at place `q` is worth at least as much as every symbol and every pair that is not placed before it. */
  lemma {:induction false} ItemIsBest(row: seq<nat>, vals: seq<Number>, v: nat, below: seq<Number>, u: nat, skip: nat,
      freqs: seq<nat>, q: nat)
    requires IsMerge(row, vals, v, below, skip, freqs) && Descending(freqs) && Falls(below, u) && Defined(below, u)
    requires q < v && skip <= u
    ensures Symbols(row, |freqs|, q) + Packages(row, |freqs|, q) == q
    ensures forall x :: Symbols(row, |freqs|, q) <= x < |freqs| ==> freqs[x] <= Value(vals[q])
    ensures forall y ::
      Packages(row, |freqs|, q) <= y && skip + 2 * y + 1 < u ==> Pair(below, skip, y) <= Value(vals[q])
  {
    var w := Packages(row, |freqs|, q);
    assert IsItem(row, vals, q, below, skip, freqs);
    MergeUsable(row, vals, v, below, u, skip, freqs, q);
    forall y | w <= y && skip + 2 * y + 1 < u ensures Pair(below, skip, y) <= Value(vals[q]) {
      PairFalls(below, u, skip, w, y);
    }
  }

  /** No choice of symbols and pairs is worth more than as many first items. */
  lemma {:induction false} FirstAreBest(row: seq<nat>, vals: seq<Number>, v: nat, below: seq<Number>, u: nat, skip: nat,
      freqs: seq<nat>, x: nat, y: nat)
    requires IsMerge(row, vals, v, below, skip, freqs) && Descending(freqs) && Falls(below, u) && Defined(below, u)
    requires x <= |freqs| && x + y <= v && skip + 2 * y <= u
    ensures Sum(freqs, x) + Pairs(below, skip, y) <= FirstItems(vals, x + y)
    decreases x + y
  {
    hide IsMerge, Descending, Falls, Defined, Pair;
    if x + y > 0 {
      var q := x + y - 1;
      MergeLength(row, vals, v, below, skip, freqs);
      ItemIsBest(row, vals, v, below, u, skip, freqs, q);
      if y > Packages(row, |freqs|, q) {
        FirstAreBest(row, vals, v, below, u, skip, freqs, x, y - 1);
      } else {
        FirstAreBest(row, vals, v, below, u, skip, freqs, x - 1, y);
      }
    }
  }

  lemma {:induction false} MergeLength(row: seq<nat>, vals: seq<Number>, v: nat, below: seq<Number>, skip: nat,
      freqs: seq<nat>)
    requires IsMerge(row, vals, v, below, skip, freqs)
    ensures v <= |row| == |vals|
  {
  }

  // ----- all levels together

  /** The levels are merged from the symbols, with positive frequencies in falling order. */
  ghost predicate Built(rows: seq<seq<nat>>, vals: seq<seq<Number>>, valid: seq<nat>, flags: seq<nat>, freqs: seq<nat>,
      sizes: seq<nat>)
  {
    && LevelsBuilt(rows, valid, |freqs|, flags, 0) && AllMerged(rows, vals, valid, flags, freqs, sizes, 0)
    && AreSizes(sizes, |freqs|, flags) && Descending(freqs) && |freqs| > 0
    && forall h :: 0 <= h < |flags| ==> flags[h] <= 1
  }

  /** What is known of level `h` alone and of the mandatory items of the next. */
  ghost predicate Level(rows: seq<seq<nat>>, vals: seq<seq<Number>>, valid: seq<nat>, flags: seq<nat>, h: nat) {
    && h < |rows| == |vals| == |valid| == |flags|
    && Falls(vals[h], valid[h]) && Defined(vals[h], valid[h]) && |vals[h]| == |rows[h]|
    && (h + 1 < |rows| ==> flags[h + 1] <= valid[h + 1] <= |vals[h + 1]|)
  }

  lemma {:induction false} LevelHolds(rows: seq<seq<nat>>, vals: seq<seq<Number>>, valid: seq<nat>, flags: seq<nat>,
      freqs: seq<nat>, sizes: seq<nat>, h: nat)
    requires Built(rows, vals, valid, flags, freqs, sizes) && h < |rows|
    ensures Level(rows, vals, valid, flags, h)
    decreases |rows| - h
  {
    hide Usable, AreSizes, Descending, Falls, Defined, IsMerge, IsBase;
    assert LevelMerged(rows, vals, valid, flags, freqs, sizes, h);
    if h + 1 == |rows| {
      BaseFalls(rows[h], vals[h], valid[h], freqs);
      BaseLength(rows[h], vals[h], valid[h], freqs);
    } else {
      LevelHolds(rows, vals, valid, flags, freqs, sizes, h + 1);
      MergeLength(rows[h], vals[h], valid[h], vals[h + 1], flags[h + 1], freqs);
      assert FitsBelow(rows, valid, |freqs|, flags, h);
      assert Defined(vals[h + 1], valid[h + 1]);
      MergeFalls(rows[h], vals[h], valid[h], vals[h + 1], valid[h + 1], flags[h + 1], freqs);
      MergedIsUsable(rows[h], vals[h], valid[h], vals[h + 1], valid[h + 1], flags[h + 1], freqs);
      DefinedLength(vals[h + 1], valid[h + 1]);
    }
  }

  lemma {:induction false} BaseLength(row: seq<nat>, vals: seq<Number>, v: nat, freqs: seq<nat>)
    requires IsBase(row, vals, v, freqs)
    ensures v == |row| == |vals| <= |freqs|
  {
  }

  lemma {:induction false} DefinedLength(vals: seq<Number>, v: nat)
    requires Defined(vals, v)
    ensures v <= |vals|
  {
  }

  /** The sum of what the first `s[j]` symbols of every level `j >= h` save. */
  ghost function Gain(freqs: seq<nat>, s: seq<nat>, h: nat): nat
    requires h <= |s| && forall j :: 0 <= j < |s| ==> s[j] <= |freqs|
    decreases |s| - h
  {
    if h == |s| then 0 else Sum(freqs, s[h]) + Gain(freqs, s, h + 1)
  }

  /** The mandatory items of the levels below `h`. */
  ghost function Mandatory(vals: seq<seq<Number>>, flags: seq<nat>, h: nat): nat
    requires h < |flags| == |vals| && forall j :: h < j < |flags| ==> flags[j] <= |vals[j]|
    decreases |flags| - h
  {
    if h + 1 == |flags| then 0 else FirstItems(vals[h + 1], flags[h + 1]) + Mandatory(vals, flags, h + 1)
  }

  /** The mandatory items exist. */
  ghost predicate HaveMandatory(vals: seq<seq<Number>>, flags: seq<nat>) {
    |flags| == |vals| && forall j :: 0 < j < |flags| ==> flags[j] <= |vals[j]|
  }

  lemma {:induction false} MandatoryExist(rows: seq<seq<nat>>, vals: seq<seq<Number>>, valid: seq<nat>, flags: seq<nat>,
      freqs: seq<nat>, sizes: seq<nat>)
    requires Built(rows, vals, valid, flags, freqs, sizes)
    ensures HaveMandatory(vals, flags)
  {
    hide LevelsBuilt, AreSizes, Descending;
    forall j | 0 < j < |flags| ensures flags[j] <= |vals[j]| {
      LevelHolds(rows, vals, valid, flags, freqs, sizes, j - 1);
    }
  }

  /** The deepest level is the symbols. */
  lemma {:induction false} BaseItems(row: seq<nat>, vals: seq<Number>, v: nat, freqs: seq<nat>, q: nat)
    requires IsBase(row, vals, v, freqs) && q <= v
    ensures FirstItems(vals, q) == Sum(freqs, q)
  {
    if q > 0 { BaseItems(row, vals, v, freqs, q - 1); }
  }

  /** What is taken saves as much as the first items of the top level and the mandatory items below. */
  lemma {:induction false} TakenGain(rows: seq<seq<nat>>, vals: seq<seq<Number>>, valid: seq<nat>, flags: seq<nat>,
      pos: seq<nat>, freqs: seq<nat>, sizes: seq<nat>, h: nat)
    requires Built(rows, vals, valid, flags, freqs, sizes) && HaveMandatory(vals, flags) && h < |rows|
    requires Linked(rows, valid, |freqs|, flags, pos, 0)
    requires forall j :: 0 <= j < |rows| ==> TakenAt(rows, |freqs|, pos)[j] <= |freqs|
    ensures |vals[h]| == |rows[h]|
    ensures Gain(freqs, TakenAt(rows, |freqs|, pos), h) == FirstItems(vals[h], pos[h]) + Mandatory(vals, flags, h)
    decreases |rows| - h
  {
    hide LevelsBuilt, AreSizes, Descending, IsMerge, IsBase, Falls, Defined;
    var n, s := |freqs|, TakenAt(rows, |freqs|, pos);
    LevelHolds(rows, vals, valid, flags, freqs, sizes, h);
    assert LevelMerged(rows, vals, valid, flags, freqs, sizes, h);
    if h + 1 == |rows| {
      BaseUsable(rows[h], vals[h], valid[h], freqs, pos[h]);
      BaseItems(rows[h], vals[h], valid[h], freqs, pos[h]);
      assert Gain(freqs, s, h + 1) == 0;
    } else {
      TakenGain(rows, vals, valid, flags, pos, freqs, sizes, h + 1);
      assert PaysFor(rows, n, flags, pos, h);
      ItemsSplit(rows[h], vals[h], valid[h], vals[h + 1], flags[h + 1], freqs, pos[h]);
      PairsAreItems(vals[h + 1], flags[h + 1], Packages(rows[h], n, pos[h]));
    }
  }

  // ----- what any lengths need from the levels

  /** How many items level `h` must give if level `j` gives `a[j]` symbols: those, and pairs of the level below. */
  ghost function Need(a: seq<nat>, flags: seq<nat>, h: nat): int
    requires h < |a| == |flags|
    decreases |a| - h
  {
    if h + 1 == |a| then a[h] else a[h] + (Need(a, flags, h + 1) - flags[h + 1]) / 2
  }

  /** What is needed at one level leaves for the levels above what they must pay. */
  lemma {:induction false} NeedDigits(a: seq<nat>, flags: seq<nat>, h: nat)
    requires h < |a| == |flags| && Digits(a, |a|) == Digits(flags, |flags|)
    requires forall j :: 0 <= j < |flags| ==> flags[j] <= 1
    ensures Need(a, flags, h) >= flags[h] && (Need(a, flags, h) - flags[h]) % 2 == 0
    ensures 2 * Digits(a, h) + Need(a, flags, h) == Digits(flags, h + 1)
    decreases |a| - h
  {
    assert Digits(a, h + 1) == 2 * Digits(a, h) + a[h];
    assert Digits(flags, h + 1) == 2 * Digits(flags, h) + flags[h];
    if h + 1 < |a| {
      assert Digits(flags, h + 2) == 2 * Digits(flags, h + 1) + flags[h + 1];
      NeedDigits(a, flags, h + 1);
      Halved(Need(a, flags, h + 1), flags[h + 1], Digits(flags, h + 1), Digits(a, h + 1));
    }
    hide Digits;
    Halved(Need(a, flags, h), flags[h], Digits(flags, h), Digits(a, h));
  }

  lemma {:induction false} Halved(x: int, flag: int, d: int, e: int)
    requires x + 2 * e == 2 * d + flag
    ensures (x - flag) / 2 == d - e && (x - flag) % 2 == 0
  {
  }

  /** A level that is not cut to the needs of the level above is long enough, as are all below it. */
  lemma {:induction false} NeedUncut(a: seq<nat>, flags: seq<nat>, sizes: seq<nat>, n: nat, h: nat)
    requires h < |a| == |flags| && AreSizes(sizes, n, flags) && sizes[h] >= Unbounded(sizes, n, h)
    requires n > 0 && forall j :: 0 <= j < |a| ==> a[j] <= n
    ensures Need(a, flags, h) <= sizes[h]
    decreases |a| - h
  {
    if h + 1 < |a| {
      assert sizes[h + 1] != 2 * sizes[h] + flags[h + 1];
      NeedUncut(a, flags, sizes, n, h + 1);
    }
  }

  lemma {:induction false} NeedInSizes(a: seq<nat>, flags: seq<nat>, sizes: seq<nat>, n: nat, h: nat)
    requires h < |a| == |flags| && AreSizes(sizes, n, flags) && Digits(a, |a|) == Digits(flags, |flags|)
    requires n > 0 && forall j :: 0 <= j < |a| ==> a[j] <= n
    requires forall j :: 0 <= j < |flags| ==> flags[j] <= 1
    ensures Need(a, flags, h) <= sizes[h]
  {
    NeedDigits(a, flags, h);
    if h > 0 {
      NeedInSizes(a, flags, sizes, n, h - 1);
      NeedDigits(a, flags, h - 1);
      if sizes[h] != 2 * sizes[h - 1] + flags[h] { NeedUncut(a, flags, sizes, n, h); }
    }
  }

  /** A level with undefined items lists all symbols and all pairs: every pair is worth more than the last symbol. */
  lemma {:induction false} AllListed(rows: seq<seq<nat>>, vals: seq<seq<Number>>, valid: seq<nat>, flags: seq<nat>,
      freqs: seq<nat>, sizes: seq<nat>, h: nat)
    requires Built(rows, vals, valid, flags, freqs, sizes) && h + 1 < |rows| && valid[h] < |rows[h]|
    ensures 2 * valid[h] + 1 >= 2 * |freqs| + valid[h + 1] - flags[h + 1]
  {
    hide LevelsBuilt, AreSizes, Falls;
    var n := |freqs|;
    assert LevelMerged(rows, vals, valid, flags, freqs, sizes, h);
    assert LevelMerged(rows, vals, valid, flags, freqs, sizes, h + 1);
    LevelHolds(rows, vals, valid, flags, freqs, sizes, h);
    LevelHolds(rows, vals, valid, flags, freqs, sizes, h + 1);
    var q := LastSymbol(rows[h], n, valid[h]);
    assert IsItem(rows[h], vals[h], q, vals[h + 1], flags[h + 1], freqs);
    CountsMono(rows[h], n, q, valid[h]);
    MergeUsable(rows[h], vals[h], valid[h], vals[h + 1], valid[h + 1], flags[h + 1], freqs, valid[h]);
    var w := flags[h + 1] + 2 * Packages(rows[h], n, q);
    if w + 1 < valid[h + 1] {
      ItemWorth(rows, vals, valid, flags, freqs, sizes, h + 1, w);
      ItemWorth(rows, vals, valid, flags, freqs, sizes, h + 1, w + 1);
    }
  }

  /** Every item is worth at least the last symbol. */
  lemma {:induction false} ItemWorth(rows: seq<seq<nat>>, vals: seq<seq<Number>>, valid: seq<nat>, flags: seq<nat>,
      freqs: seq<nat>, sizes: seq<nat>, h: nat, q: nat)
    requires Built(rows, vals, valid, flags, freqs, sizes) && h < |rows| && q < valid[h]
    ensures q < |vals[h]| && vals[h][q].Number? && vals[h][q].value >= freqs[|freqs| - 1] > 0
  {
    hide LevelsBuilt, AreSizes;
    assert LevelMerged(rows, vals, valid, flags, freqs, sizes, h);
    ItemValue(rows, vals, valid, flags, freqs, sizes, h, q);
    if h + 1 == |rows| {
      BaseUsable(rows[h], vals[h], valid[h], freqs, q);
    } else {
      assert IsItem(rows[h], vals[h], q, vals[h + 1], flags[h + 1], freqs);
    }
  }

  lemma {:induction false} NeedIsListed(rows: seq<seq<nat>>, vals: seq<seq<Number>>, valid: seq<nat>, flags: seq<nat>,
      freqs: seq<nat>, sizes: seq<nat>, a: seq<nat>, h: nat)
    requires Built(rows, vals, valid, flags, freqs, sizes) && h < |rows| == |a|
    requires Digits(a, |a|) == Digits(flags, |flags|) && forall j :: 0 <= j < |a| ==> a[j] <= |freqs|
    ensures 0 <= Need(a, flags, h) <= valid[h]
    decreases |a| - h
  {
    hide LevelsBuilt, AreSizes, Descending, IsMerge, IsBase;
    NeedDigits(a, flags, h);
    NeedInSizes(a, flags, sizes, |freqs|, h);
    LevelHolds(rows, vals, valid, flags, freqs, sizes, h);
    assert LevelMerged(rows, vals, valid, flags, freqs, sizes, h);
    if h + 1 == |rows| {
      BaseLength(rows[h], vals[h], valid[h], freqs);
    } else if valid[h] < |rows[h]| {
      NeedIsListed(rows, vals, valid, flags, freqs, sizes, a, h + 1);
      AllListed(rows, vals, valid, flags, freqs, sizes, h);
    }
  }

  /** No other choice saves more than the first items of the top level and the mandatory items below. */
  lemma {:induction false} AnyGain(rows: seq<seq<nat>>, vals: seq<seq<Number>>, valid: seq<nat>, flags: seq<nat>,
      freqs: seq<nat>, sizes: seq<nat>, a: seq<nat>, h: nat)
    requires Built(rows, vals, valid, flags, freqs, sizes) && HaveMandatory(vals, flags) && h < |rows| == |a|
    requires Digits(a, |a|) == Digits(flags, |flags|) && forall j :: 0 <= j < |a| ==> a[j] <= |freqs|
    ensures 0 <= Need(a, flags, h) <= |vals[h]|
    ensures Gain(freqs, a, h) <= FirstItems(vals[h], Need(a, flags, h)) + Mandatory(vals, flags, h)
    decreases |rows| - h
  {
    hide LevelsBuilt, AreSizes, IsMerge, IsBase, Descending, Falls, Defined, Digits;
    NeedIsListed(rows, vals, valid, flags, freqs, sizes, a, h);
    LevelHolds(rows, vals, valid, flags, freqs, sizes, h);
    DefinedLength(vals[h], valid[h]);
    assert LevelMerged(rows, vals, valid, flags, freqs, sizes, h);
    if h + 1 == |rows| {
      BaseItems(rows[h], vals[h], valid[h], freqs, a[h]);
      assert Gain(freqs, a, h + 1) == 0;
    } else {
      AnyGain(rows, vals, valid, flags, freqs, sizes, a, h + 1);
      NeedIsListed(rows, vals, valid, flags, freqs, sizes, a, h + 1);
      LevelHolds(rows, vals, valid, flags, freqs, sizes, h + 1);
      NeedDigits(a, flags, h + 1);
      var p := (Need(a, flags, h + 1) - flags[h + 1]) / 2;
      FirstAreBest(rows[h], vals[h], valid[h], vals[h + 1], valid[h + 1], flags[h + 1], freqs, a[h], p);
      PairsAreItems(vals[h + 1], flags[h + 1], p);
    }
  }

  // ----- lengths as numbers of symbols taken

  /** How many of the first `m` symbols have a length of at most `j`: level `j` shortens these. */
  ghost function CountUpTo(lengths: seq<nat>, j: nat, m: nat): (c: nat)
    requires m <= |lengths|
    ensures c <= m
  {
    if m == 0 then 0 else CountUpTo(lengths, j, m - 1) + if lengths[m - 1] <= j then 1 else 0
  }

  ghost function Counts(lengths: seq<nat>, limit: nat, m: nat): (a: seq<nat>)
    requires m <= |lengths|
    ensures |a| == limit && forall j :: 0 <= j < limit ==> a[j] == CountUpTo(lengths, j, m)
  {
    seq(limit, j requires 0 <= j => CountUpTo(lengths, j, m))
  }

  ghost function Times(f: nat, d: int): int {
    f * d
  }

  lemma {:induction false} TimesNext(f: nat, d: int)
    ensures Times(f, d + 1) == Times(f, d) + f
  {
  }

  lemma {:induction false} TimesNone(f: nat)
    ensures Times(f, 0) == 0
  {
  }

  /** What the first `m` symbols save with these lengths. */
  ghost function Saved(freqs: seq<nat>, lengths: seq<nat>, limit: nat, m: nat): int
    requires m <= |freqs| == |lengths|
  {
    if m == 0 then 0 else Saved(freqs, lengths, limit, m - 1) + Times(freqs[m - 1], limit - lengths[m - 1])
  }

  lemma {:induction false} CostAndSaved(freqs: seq<nat>, lengths: seq<nat>, limit: nat, m: nat)
    requires m <= |freqs| == |lengths|
    ensures Cost(freqs, lengths, m) + Saved(freqs, lengths, limit, m) == limit * Sum(freqs, m)
  {
    if m > 0 {
      CostAndSaved(freqs, lengths, limit, m - 1);
      Distribute(freqs[m - 1], lengths[m - 1], limit, Sum(freqs, m - 1));
    }
  }

  lemma {:induction false} Distribute(f: nat, length: nat, limit: nat, sum: nat)
    ensures f * length + Times(f, limit - length) + limit * sum == limit * (sum + f)
  {
  }

  /** One more symbol, of length `v`: the levels from `v` on shorten one more, and save at least its frequency. */
  lemma {:induction false} OneMoreSymbol(freqs: seq<nat>, a: seq<nat>, b: seq<nat>, v: nat, f: nat, h: nat)
    requires h <= |a| == |b| && v <= |a| && (forall j :: 0 <= j < |b| ==> b[j] <= |freqs|)
    requires forall j :: 0 <= j < |a| ==> b[j] == if v <= j then a[j] + 1 else a[j]
    requires forall j :: v <= j < |a| ==> freqs[a[j]] >= f
    ensures var d := |a| - (if h < v then v else h);
      && Worth(b, h) + 1 == Worth(a, h) + Pow2(d)
      && Gain(freqs, b, h) >= Gain(freqs, a, h) + Times(f, d)
    decreases |a| - h
  {
    TimesNone(f);
    hide Times, Shl;
    if h < |a| {
      OneMoreSymbol(freqs, a, b, v, f, h + 1);
      ShlSum(a[h], 1, |a| - 1 - h);
      ShlOne(1, |a| - 1 - h);
      if v <= h {
        Pow2Doubles(|a| - 1 - h);
        TimesNext(f, |a| - 1 - h);
      }
    }
  }

  /** The symbols taken from each level are worth Kraft's sum less one for each symbol, and save no less. */
  lemma {:induction false} CountsWorth(freqs: seq<nat>, lengths: seq<nat>, limit: nat, m: nat)
    requires m <= |freqs| == |lengths| && Descending(freqs)
    requires forall l :: 0 <= l < |lengths| ==> 1 <= lengths[l] <= limit
    ensures Worth(Counts(lengths, limit, m), 0) + m == LengthSum(lengths, limit, m)
    ensures Gain(freqs, Counts(lengths, limit, m), 0) >= Saved(freqs, lengths, limit, m)
  {
    if m == 0 {
      NoWorth(freqs, Counts(lengths, limit, 0), 0);
    } else {
      CountsWorth(freqs, lengths, limit, m - 1);
      var a, b := Counts(lengths, limit, m - 1), Counts(lengths, limit, m);
      OneMoreSymbol(freqs, a, b, lengths[m - 1], freqs[m - 1], 0);
    }
  }

  lemma {:induction false} NoWorth(freqs: seq<nat>, a: seq<nat>, h: nat)
    requires h <= |a| && forall j :: 0 <= j < |a| ==> a[j] == 0
    ensures Worth(a, h) == 0 && Gain(freqs, a, h) == 0
    decreases |a| - h
  {
    if h < |a| {
      NoWorth(freqs, a, h + 1);
      ShlOne(0, |a| - 1 - h);
    }
  }

  // ----- lengths in step with what is taken

  /** The first `s[j]` symbols of the levels `j >= h`, but only up to symbol `m`. */
  ghost function CappedGain(freqs: seq<nat>, s: seq<nat>, m: nat, h: nat): nat
    requires h <= |s| && m <= |freqs|
    decreases |s| - h
  {
    if h == |s| then 0 else Sum(freqs, Min(s[h], m)) + CappedGain(freqs, s, m, h + 1)
  }

  lemma {:induction false} CappedGainStep(freqs: seq<nat>, s: seq<nat>, m: nat, h: nat)
    requires h <= |s| && m < |freqs|
    ensures CappedGain(freqs, s, m + 1, h) == CappedGain(freqs, s, m, h) + Times(freqs[m], Depth(s, m, h))
    decreases |s| - h
  {
    TimesNone(freqs[m]);
    hide Times;
    if h < |s| {
      CappedGainStep(freqs, s, m, h + 1);
      TimesNext(freqs[m], Depth(s, m, h + 1));
    }
  }

  lemma {:induction false} NoCappedGain(freqs: seq<nat>, s: seq<nat>, h: nat)
    requires h <= |s|
    ensures CappedGain(freqs, s, 0, h) == 0
    decreases |s| - h
  {
    if h < |s| { NoCappedGain(freqs, s, h + 1); }
  }

  lemma {:induction false} CapIsNoLossOfGain(freqs: seq<nat>, s: seq<nat>, h: nat)
    requires h <= |s| && forall j :: 0 <= j < |s| ==> s[j] <= |freqs|
    ensures CappedGain(freqs, s, |freqs|, h) == Gain(freqs, s, h)
    decreases |s| - h
  {
    if h < |s| { CapIsNoLossOfGain(freqs, s, h + 1); }
  }

  lemma {:induction false} SavedInStep(freqs: seq<nat>, lengths: seq<nat>, s: seq<nat>, m: nat)
    requires InStep(lengths, s) && m <= |lengths| == |freqs|
    ensures Saved(freqs, lengths, |s|, m) == CappedGain(freqs, s, m, 0)
  {
    hide Times, CappedGain, Depth;
    if m == 0 {
      NoCappedGain(freqs, s, 0);
    } else {
      SavedInStep(freqs, lengths, s, m - 1);
      CappedGainStep(freqs, s, m - 1, 0);
      assert |s| - lengths[m - 1] == Depth(s, m - 1, 0);
    }
  }

  // ----- filling up Kraft's sum

  /** With `longest` in place of the limit, Kraft's sum is smaller by a power of two. */
  lemma {:induction false} LengthSumScales(lengths: seq<nat>, longest: nat, limit: nat, m: nat)
    requires m <= |lengths| && longest <= limit && forall l :: 0 <= l < |lengths| ==> lengths[l] <= longest
    ensures LengthSum(lengths, limit, m) == Shl(LengthSum(lengths, longest, m), limit - longest)
  {
    if m == 0 {
      ShlOne(0, limit - longest);
    } else {
      LengthSumScales(lengths, longest, limit, m - 1);
      ShlSum(LengthSum(lengths, longest, m - 1), Pow2(longest - lengths[m - 1]), limit - longest);
      Pow2Add(longest - lengths[m - 1], limit - longest);
    }
  }

  lemma {:induction false} LengthSumUpdate(lengths: seq<nat>, limit: nat, i: nat, v: nat, m: nat)
    requires i < |lengths| && m <= |lengths| && v <= limit && forall l :: 0 <= l < |lengths| ==> lengths[l] <= limit
    ensures LengthSum(lengths[i := v], limit, m)
         == LengthSum(lengths, limit, m) + if i < m then Pow2(limit - v) - Pow2(limit - lengths[i]) else 0
  {
    if m > 0 { LengthSumUpdate(lengths, limit, i, v, m - 1); }
  }

  lemma {:induction false} CostUpdate(freqs: seq<nat>, lengths: seq<nat>, i: nat, m: nat)
    requires i < |lengths| == |freqs| && m <= |lengths| && lengths[i] > 0
    ensures Cost(freqs, lengths[i := lengths[i] - 1], m) <= Cost(freqs, lengths, m)
  {
    if m > 0 {
      CostUpdate(freqs, lengths, i, m - 1);
      assert freqs[i] * (lengths[i] - 1) <= freqs[i] * lengths[i];
    }
  }

  /** Where a longest length stands. */
  lemma {:induction false} Longest(lengths: seq<nat>) returns (i: nat)
    requires |lengths| > 0
    ensures i < |lengths| && forall l :: 0 <= l < |lengths| ==> lengths[l] <= lengths[i]
  {
    i := 0;
    for k := 1 to |lengths|
      invariant i < |lengths| && forall l :: 0 <= l < k ==> lengths[l] <= lengths[i]
    {
      if lengths[k] > lengths[i] { i := k; }
    }
  }

  /** If Kraft's sum is not full, a longest code can be one bit shorter. */
  lemma {:induction false} RoomToShorten(lengths: seq<nat>, limit: nat, i: nat)
    requires 2 <= |lengths| && Assignment(lengths, |lengths|, limit)
    requires LengthSum(lengths, limit, |lengths|) < Pow2(limit)
    requires i < |lengths| && forall l :: 0 <= l < |lengths| ==> lengths[l] <= lengths[i]
    ensures lengths[i] > 1
    ensures Assignment(lengths[i := lengths[i] - 1], |lengths|, limit)
  {
    var n, longest := |lengths|, lengths[i];
    var k, sum := limit - longest, LengthSum(lengths, longest, n);
    LengthSumScales(lengths, longest, limit, n);
    Pow2Add(longest, k);
    if sum >= Pow2(longest) { ShlMono(Pow2(longest), sum, k); }
    ShlMono(sum + 1, Pow2(longest), k);
    ShlSum(sum, 1, k);
    ShlOne(1, k);
    if longest == 1 { AllOnes(lengths, n); }
    LengthSumUpdate(lengths, limit, i, longest - 1, n);
    Pow2Doubles(k);
  }

  lemma {:induction false} AllOnes(lengths: seq<nat>, m: nat)
    requires m <= |lengths| && forall l :: 0 <= l < |lengths| ==> lengths[l] == 1
    ensures LengthSum(lengths, 1, m) == m
  {
    if m > 0 { AllOnes(lengths, m - 1); }
  }

  /** Any lengths can be shortened to such that fill Kraft's sum. */
  lemma {:induction false} Filled(freqs: seq<nat>, lengths: seq<nat>, limit: nat) returns (full: seq<nat>)
    requires 2 <= |lengths| == |freqs| && Assignment(lengths, |lengths|, limit)
    ensures Assignment(full, |lengths|, limit) && LengthSum(full, limit, |lengths|) == Pow2(limit)
    ensures Cost(freqs, full, |lengths|) <= Cost(freqs, lengths, |lengths|)
    decreases Pow2(limit) - LengthSum(lengths, limit, |lengths|)
  {
    if LengthSum(lengths, limit, |lengths|) == Pow2(limit) {
      full := lengths;
    } else {
      var i := Longest(lengths);
      RoomToShorten(lengths, limit, i);
      LengthSumUpdate(lengths, limit, i, lengths[i] - 1, |lengths|);
      Pow2Doubles(limit - lengths[i]);
      CostUpdate(freqs, lengths, i, |lengths|);
      full := Filled(freqs, lengths[i := lengths[i] - 1], limit);
    }
  }

  // ----- the package-merge lengths are the cheapest

  lemma {:induction false} TakenAtMost(rows: seq<seq<nat>>, valid: seq<nat>, flags: seq<nat>, pos: seq<nat>, n: nat,
      j: nat)
    requires LevelsBuilt(rows, valid, n, flags, 0) && Linked(rows, valid, n, flags, pos, 0) && j < |rows|
    ensures TakenAt(rows, n, pos)[j] <= n
  {
    CountsMono(rows[j], n, pos[j], valid[j]);
  }

  /** What the package-merge lengths save. */
  lemma {:induction false} TakenSaves(rows: seq<seq<nat>>, vals: seq<seq<Number>>, valid: seq<nat>, flags: seq<nat>,
      pos: seq<nat>, freqs: seq<nat>, sizes: seq<nat>, lengths: seq<nat>)
    requires Built(rows, vals, valid, flags, freqs, sizes) && HaveMandatory(vals, flags)
    requires Linked(rows, valid, |freqs|, flags, pos, 0) && |rows| > 0 && |freqs| == |lengths|
    requires InStep(lengths, TakenAt(rows, |freqs|, pos))
    ensures pos[0] <= |vals[0]|
    ensures Saved(freqs, lengths, |rows|, |freqs|) == FirstItems(vals[0], pos[0]) + Mandatory(vals, flags, 0)
  {
    var n, s := |freqs|, TakenAt(rows, |freqs|, pos);
    forall j | 0 <= j < |s| ensures s[j] <= n {
      TakenAtMost(rows, valid, flags, pos, n, j);
    }
    TakenGain(rows, vals, valid, flags, pos, freqs, sizes, 0);
    SavedInStep(freqs, lengths, s, n);
    CapIsNoLossOfGain(freqs, s, 0);
    hide Built, InStep, Gain, CappedGain, Saved, Mandatory, FirstItems, HaveMandatory, PaysFor, Symbols;
  }

  /** What lengths that fill Kraft's sum save at most. */
  lemma {:induction false} OthersSave(rows: seq<seq<nat>>, vals: seq<seq<Number>>, valid: seq<nat>, flags: seq<nat>,
      freqs: seq<nat>, sizes: seq<nat>, full: seq<nat>)
    requires Built(rows, vals, valid, flags, freqs, sizes) && HaveMandatory(vals, flags) && |rows| > 0
    requires Digits(flags, |flags|) == Pow2(|rows|) - |freqs|
    requires Assignment(full, |freqs|, |rows|) && LengthSum(full, |rows|, |freqs|) == Pow2(|rows|)
    ensures flags[0] <= |vals[0]|
    ensures Saved(freqs, full, |rows|, |freqs|) <= FirstItems(vals[0], flags[0]) + Mandatory(vals, flags, 0)
  {
    hide LevelsBuilt, AreSizes, Gain, Saved, Mandatory, FirstItems, HaveMandatory, LengthSum, Worth, Digits, Need,
      CountUpTo;
    var n, c := |freqs|, |rows|;
    var a := Counts(full, c, n);
    CountsWorth(freqs, full, c, n);
    TopDigits(a, flags);
    AnyGain(rows, vals, valid, flags, freqs, sizes, a, 0);
  }

  /** If the worth of the symbols is the excess, the top level must give just its own item. */
  lemma {:induction false} TopDigits(a: seq<nat>, flags: seq<nat>)
    requires 0 < |a| == |flags| && Worth(a, 0) == Digits(flags, |flags|)
    requires forall j :: 0 <= j < |flags| ==> flags[j] <= 1
    ensures Digits(a, |a|) == Digits(flags, |flags|) && Need(a, flags, 0) == flags[0]
  {
    ShlOne(0, |a|);
    WorthIsDigits(a, 0);
    NeedDigits(a, flags, 0);
    hide Need, Worth;
    assert Digits(a, 0) == Digits(flags, 0) == 0;
    assert Digits(flags, 1) == flags[0];
  }

  lemma {:induction false} NotCheaper(rows: seq<seq<nat>>, vals: seq<seq<Number>>, valid: seq<nat>, flags: seq<nat>,
      pos: seq<nat>, freqs: seq<nat>, sizes: seq<nat>, lengths: seq<nat>)
    requires Built(rows, vals, valid, flags, freqs, sizes) && 2 <= |freqs| == |lengths| && |rows| > 0
    requires Linked(rows, valid, |freqs|, flags, pos, 0) && pos[0] == flags[0]
    requires Digits(flags, |flags|) == Pow2(|rows|) - |freqs| && InStep(lengths, TakenAt(rows, |freqs|, pos))
    ensures Cheapest(freqs, lengths, |rows|)
  {
    MandatoryExist(rows, vals, valid, flags, freqs, sizes);
    TakenSaves(rows, vals, valid, flags, pos, freqs, sizes, lengths);
    var n, c := |freqs|, |rows|;
    CostAndSaved(freqs, lengths, c, n);
    hide Built, Linked, LevelsBuilt, InStep, Saved, Cost, Sum, Mandatory, FirstItems, HaveMandatory, Digits, LengthSum;
    forall other | Assignment(other, n, c) ensures Cost(freqs, lengths, n) <= Cost(freqs, other, n) {
      var full := Filled(freqs, other, c);
      OthersSave(rows, vals, valid, flags, freqs, sizes, full);
      CostAndSaved(freqs, full, c, n);
    }
  }
}
