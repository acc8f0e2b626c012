/**
 The levels of the reverse package-merge method (`reversePackageMerge_`, minified `Ja`), and taking items from them.

 All lengths start at the limit.  Taking a symbol at level `h` shortens its code by one and
 is worth `2^(limit-1-h)`; a package at level `h` stands for the next two items of level
 `h + 1`.  The excess `2^limit - n` is paid with one item at each level whose bit is set.
 */
module MergeLevels {
  import opened Bits

  datatype Number = Undefined | Number(value: nat)

  /** Array access as the source does it: cells that do not exist are undefined. */
  function At(values: seq<Number>, i: nat): Number {
    if i < |values| then values[i] else Undefined
  }

  function Plus(a: Number, b: Number): Number {
    if a.Number? && b.Number? then Number(a.value + b.value) else Undefined
  }

  function FreqAt(freqs: seq<nat>, i: nat): Number {
    if i < |freqs| then Number(freqs[i]) else Undefined
  }

  /** `a > b`; a comparison with an undefined operand is false. */
  predicate Exceeds(a: Number, b: Number) {
    a.Number? && b.Number? && a.value > b.value
  }

  // ----- sums over the levels

  /** The worth of taking `s[j]` symbols at every level `j >= h`. */
  ghost function Worth(s: seq<nat>, h: nat): nat
    requires h <= |s|
    decreases |s| - h
  {
    if h == |s| then 0 else Shl(s[h], |s| - 1 - h) + Worth(s, h + 1)
  }

  /** The number whose binary digits, most significant first, are the first `h` flags. */
  ghost function Digits(flags: seq<nat>, h: nat): nat
    requires h <= |flags|
  {
    if h == 0 then 0 else 2 * Digits(flags, h - 1) + flags[h - 1]
  }

  lemma {:induction false} WorthIsDigits(flags: seq<nat>, h: nat)
    requires h <= |flags|
    ensures Shl(Digits(flags, h), |flags| - h) + Worth(flags, h) == Digits(flags, |flags|)
    decreases |flags| - h
  {
    if h < |flags| {
      WorthIsDigits(flags, h + 1);
      var r := |flags| - h - 1;
      ShlSum(2 * Digits(flags, h), flags[h], r);
      ShlLast(Digits(flags, h), r);
    }
  }

  /** At how many levels from `h` on symbol `l` is taken, when level `j` takes its first `s[j]` symbols. */
  ghost function Depth(s: seq<nat>, l: nat, h: nat): (d: nat)
    requires h <= |s|
    ensures d <= |s| - h
    decreases |s| - h
  {
    if h == |s| then 0 else Depth(s, l, h + 1) + if l < s[h] then 1 else 0
  }

  lemma {:induction false} DepthStep(s: seq<nat>, l: nat, h: nat, k: nat)
    requires h <= |s| && k < |s|
    ensures Depth(s[k := s[k] + 1], l, h) == Depth(s, l, h) + if h <= k && l == s[k] then 1 else 0
    decreases |s| - h
  {
    if h < |s| { DepthStep(s, l, h + 1, k); }
  }

  ghost function Min(a: nat, b: nat): nat {
    if a < b then a else b
  }

  ghost function CappedWorth(s: seq<nat>, m: nat, h: nat): nat
    requires h <= |s|
    decreases |s| - h
  {
    if h == |s| then 0 else Shl(Min(s[h], m), |s| - 1 - h) + CappedWorth(s, m, h + 1)
  }

  ghost predicate Ascending(s: seq<nat>, h: nat) {
    forall i, j :: h <= i < j < |s| ==> s[i] <= s[j]
  }

  /** What the single symbol `m` adds pays for its doubled share of Kraft's sum. */
  lemma {:induction false} SymbolWorth(s: seq<nat>, m: nat, h: nat)
    requires h <= |s|
    ensures CappedWorth(s, m + 1, h) + 1 >= CappedWorth(s, m, h) + Pow2(Depth(s, m, h))
    ensures Ascending(s, h) ==>
      CappedWorth(s, m + 1, h) + 1 == CappedWorth(s, m, h) + Pow2(Depth(s, m, h))
    decreases |s| - h
  {
    if h < |s| {
      hide Pow2;
      SymbolWorth(s, m, h + 1);
      var r := |s| - 1 - h;
      ShlSum(m, 1, r);
      ShlOne(1, r);
      if m < s[h] {
        Pow2Mono(Depth(s, m, h + 1), r);
        Pow2Doubles(Depth(s, m, h + 1));
        if Ascending(s, h) { FullDepth(s, m, h + 1); }
      }
    }
  }

  lemma {:induction false} Pow2Doubles(n: nat)
    ensures Pow2(n + 1) == 2 * Pow2(n)
  {
  }

  lemma {:induction false} FullDepth(s: seq<nat>, m: nat, h: nat)
    requires h <= |s| && forall j :: h <= j < |s| ==> m < s[j]
    ensures Depth(s, m, h) == |s| - h
    decreases |s| - h
  {
    if h < |s| { FullDepth(s, m, h + 1); }
  }

  /** The sum of `2^depth` over the first `n` symbols. */
  ghost function DepthSum(s: seq<nat>, n: nat): nat {
    if n == 0 then 0 else DepthSum(s, n - 1) + Pow2(Depth(s, n - 1, 0))
  }

  lemma {:induction false} DepthSumBound(s: seq<nat>, n: nat)
    ensures DepthSum(s, n) <= CappedWorth(s, n, 0) + n
    ensures Ascending(s, 0) ==> DepthSum(s, n) == CappedWorth(s, n, 0) + n
  {
    if n == 0 {
      NothingCapped(s, 0);
    } else {
      DepthSumBound(s, n - 1);
      SymbolWorth(s, n - 1, 0);
    }
  }

  lemma {:induction false} NothingCapped(s: seq<nat>, h: nat)
    requires h <= |s|
    ensures CappedWorth(s, 0, h) == 0
    decreases |s| - h
  {
    if h < |s| {
      NothingCapped(s, h + 1);
      ShlOne(0, |s| - 1 - h);
    }
  }

  lemma {:induction false} CapIsNoLoss(s: seq<nat>, n: nat, h: nat)
    requires h <= |s| && forall j :: 0 <= j < |s| ==> s[j] <= n
    ensures CappedWorth(s, n, h) == Worth(s, h)
    decreases |s| - h
  {
    if h < |s| { CapIsNoLoss(s, n, h + 1); }
  }

  lemma {:induction false} DepthSumAtLeast(s: seq<nat>, n: nat, l: nat)
    requires l < n
    ensures DepthSum(s, n) >= Pow2(Depth(s, l, 0)) + n - 1
  {
    if l < n - 1 {
      DepthSumAtLeast(s, n - 1, l);
    } else {
      DepthSumCount(s, n - 1);
    }
  }

  lemma {:induction false} DepthSumCount(s: seq<nat>, n: nat)
    ensures DepthSum(s, n) >= n
  {
    if n > 0 { DepthSumCount(s, n - 1); }
  }

  // ----- one level's list

  /** How many of the first `q` items are symbols; symbols are numbers below `n`. */
  ghost function Symbols(row: seq<nat>, n: nat, q: nat): (c: nat)
    requires q <= |row|
    ensures c <= q
  {
    if q == 0 then 0 else Symbols(row, n, q - 1) + if row[q - 1] < n then 1 else 0
  }

  /** How many of the first `q` items are packages; a package is marked by `n` itself. */
  ghost function Packages(row: seq<nat>, n: nat, q: nat): (c: nat)
    requires q <= |row|
  {
    if q == 0 then 0 else Packages(row, n, q - 1) + if row[q - 1] == n then 1 else 0
  }

  lemma {:induction false} CountsMono(row: seq<nat>, n: nat, p: nat, q: nat)
    requires p <= q <= |row|
    ensures Symbols(row, n, p) <= Symbols(row, n, q) <= Symbols(row, n, p) + q - p
    ensures Packages(row, n, p) <= Packages(row, n, q)
    ensures p < q && row[p] == n ==> Packages(row, n, p) < Packages(row, n, q)
    ensures p < q && row[p] < n ==> Symbols(row, n, p) < Symbols(row, n, q)
  {
    if p < q { CountsMono(row, n, p, q - 1); }
  }

  lemma {:induction false} CountsAppend(row: seq<nat>, x: nat, n: nat, q: nat)
    requires q <= |row|
    ensures Symbols(row + [x], n, q) == Symbols(row, n, q)
    ensures Packages(row + [x], n, q) == Packages(row, n, q)
  {
    if q > 0 { CountsAppend(row, x, n, q - 1); }
  }

  /** The item at place `q` of a level merged from the symbols and the pairs of the level below. */
  ghost predicate IsItem(row: seq<nat>, vals: seq<Number>, q: nat, below: seq<Number>, skip: nat, freqs: seq<nat>)
    requires q < |row| == |vals|
  {
    var n := |freqs|;
    var l := Symbols(row, n, q);
    var w := skip + 2 * Packages(row, n, q);
    var pair := Plus(At(below, w), At(below, w + 1));
    && l <= n
    && (row[q] == n ==> l < n && Exceeds(pair, Number(freqs[l])) && vals[q] == pair)
    && (row[q] != n ==> row[q] == l < n && vals[q] == Number(freqs[l]) && !Exceeds(pair, vals[q]))
  }

  /**
   The first `v` items of the level are proper.  The others were placed when every symbol was
   used up; they are undefined, so no pair of the next level contains one.
   */
  ghost predicate IsMerge(row: seq<nat>, vals: seq<Number>, v: nat, below: seq<Number>, skip: nat, freqs: seq<nat>) {
    && v <= |row| == |vals|
    && (forall q :: 0 <= q < v ==> IsItem(row, vals, q, below, skip, freqs))
    && (forall q :: v <= q < |row| ==> vals[q] == Undefined)
    && (v < |row| ==> Symbols(row, |freqs|, v) == |freqs|)
  }

  /** The deepest level: symbols only. */
  ghost predicate IsBase(row: seq<nat>, vals: seq<Number>, v: nat, freqs: seq<nat>) {
    && v == |row| == |vals| <= |freqs|
    && (forall q :: 0 <= q < v ==> row[q] == q && vals[q] == Number(freqs[q]))
  }

  /** A symbol at place `q` is the one after the symbols before it. */
  ghost predicate InOrder(row: seq<nat>, n: nat, q: nat)
    requires q < |row|
  {
    row[q] <= n && (row[q] < n ==> row[q] == Symbols(row, n, q))
  }

  /** What taking items from a level relies on: the first `v` are packages, or symbols in order. */
  ghost predicate Usable(row: seq<nat>, n: nat, v: nat) {
    && v <= |row|
    && Symbols(row, n, v) <= n
    && (forall q :: 0 <= q < v ==> InOrder(row, n, q))
  }

  lemma {:induction false} BaseUsable(row: seq<nat>, vals: seq<Number>, v: nat, freqs: seq<nat>, q: nat)
    requires IsBase(row, vals, v, freqs) && q <= v
    ensures Symbols(row, |freqs|, q) == q && Packages(row, |freqs|, q) == 0
  {
    if q > 0 { BaseUsable(row, vals, v, freqs, q - 1); }
  }

  ghost predicate Defined(vals: seq<Number>, v: nat) {
    v <= |vals| && forall q :: 0 <= q < |vals| ==> (vals[q].Number? <==> q < v)
  }

  lemma {:induction false} MergeUsable(row: seq<nat>, vals: seq<Number>, v: nat, below: seq<Number>, u: nat, skip: nat,
      freqs: seq<nat>, q: nat)
    requires IsMerge(row, vals, v, below, skip, freqs) && Defined(below, u) && q <= v && skip <= u
    ensures Symbols(row, |freqs|, q) <= |freqs|
    ensures skip + 2 * Packages(row, |freqs|, q) <= u
    ensures Symbols(row, |freqs|, q) + Packages(row, |freqs|, q) == q
  {
    if q > 0 {
      MergeUsable(row, vals, v, below, u, skip, freqs, q - 1);
      assert IsItem(row, vals, q - 1, below, skip, freqs);
    }
  }

  lemma {:induction false} IsItemAppend(row: seq<nat>, vals: seq<Number>, x: nat, y: Number, q: nat, below: seq<Number>,
      skip: nat, freqs: seq<nat>)
    requires q < |row| == |vals| && IsItem(row, vals, q, below, skip, freqs)
    ensures IsItem(row + [x], vals + [y], q, below, skip, freqs)
  {
    CountsAppend(row, x, |freqs|, q);
  }

  lemma {:induction false} MergeAppend(row: seq<nat>, vals: seq<Number>, x: nat, y: Number, v: nat, below: seq<Number>,
      skip: nat, freqs: seq<nat>)
    requires IsMerge(row, vals, v, below, skip, freqs)
    requires var l, w := Symbols(row, |freqs|, |row|), skip + 2 * Packages(row, |freqs|, |row|);
      v == |row| && l < |freqs| ==>
        if Exceeds(Plus(At(below, w), At(below, w + 1)), Number(freqs[l]))
        then x == |freqs| && y == Plus(At(below, w), At(below, w + 1))
        else x == l && y == Number(freqs[l])
    requires v < |row| || Symbols(row, |freqs|, |row|) >= |freqs| ==> y == Undefined
    ensures IsMerge(row + [x], vals + [y],
      if v == |row| && Symbols(row, |freqs|, |row|) < |freqs| then v + 1 else v, below, skip, freqs)
  {
    forall q | 0 <= q < v ensures IsItem(row + [x], vals + [y], q, below, skip, freqs) {
      IsItemAppend(row, vals, x, y, q, below, skip, freqs);
    }
    CountsAppend(row, x, |freqs|, |row|);
    CountsAppend(row, x, |freqs|, v);
    if v == |row| && Symbols(row, |freqs|, |row|) >= |freqs| && v > 0 {
      assert IsItem(row, vals, v - 1, below, skip, freqs);
    }
  }

  /** Merges the symbols with the pairs of the level below, larger first, symbols before equal pairs. */
  method MergeLevel(freqs: seq<nat>, below: seq<Number>, skip: nat, size: nat)
      returns (row: seq<nat>, vals: seq<Number>, ghost v: nat)
    requires |freqs| > 0
    ensures |row| == size && IsMerge(row, vals, v, below, skip, freqs)
    ensures size > 0 ==> v > 0
  {
    var n := |freqs|;
    row, vals, v := [], [], 0;
    var l, next := 0, skip;
    for q := 0 to size
      invariant |row| == q && IsMerge(row, vals, v, below, skip, freqs)
      invariant l <= n ==> v == q && l == Symbols(row, n, q) && next == skip + 2 * Packages(row, n, q)
      invariant l > n ==> v < q
      invariant q > 0 ==> v > 0
    {
      var pair := Plus(At(below, next), At(below, next + 1));
      if Exceeds(pair, FreqAt(freqs, l)) {
        MergeAppend(row, vals, n, pair, v, below, skip, freqs);
        v := v + 1;
        CountsAppend(row, n, n, q);
        row, vals := row + [n], vals + [pair];
        next := next + 2;
      } else {
        MergeAppend(row, vals, l, FreqAt(freqs, l), v, below, skip, freqs);
        if l < n { v := v + 1; }
        CountsAppend(row, l, n, q);
        row, vals := row + [l], vals + [FreqAt(freqs, l)];
        l := l + 1;
      }
    }
  }

  // ----- the excess and the sizes of the levels

  /** The binary digits of the excess `2^limit - n`, most significant first. */
  method ExcessBits(n: nat, limit: nat) returns (flags: seq<nat>)
    requires 0 < n <= Pow2(limit) && limit > 0
    ensures |flags| == limit && (forall h :: 0 <= h < limit ==> flags[h] <= 1)
    ensures Digits(flags, limit) == Pow2(limit) - n
  {
    var excess := Pow2(limit) - n;
    var half := Pow2(limit - 1);
    flags := [];
    ShlOne(0, limit);
    for h := 0 to limit
      invariant |flags| == h && (forall j :: 0 <= j < h ==> flags[j] <= 1)
      invariant 0 <= excess < Pow2(limit)
      invariant Shl(Pow2(limit) - n, h) == Shl(Digits(flags, h), limit) + excess
    {
      ghost var before := flags;
      if excess < half {
        flags := flags + [0];
      } else {
        flags := flags + [1];
        excess := excess - half;
      }
      excess := 2 * excess;
      DigitsAppend(before, flags[h], h);
      ShlSum(2 * Digits(before, h), flags[h], limit);
      ShlLast(Digits(before, h), limit);
      ShlOne(flags[h], limit);
      ShlLast(Pow2(limit) - n, h);
    }
    LowOfSum(excess, Digits(flags, limit), limit);
    Pow2Add(0, limit);
    LowOfSum(0, Pow2(limit) - n, limit);
  }

  lemma {:induction false} DigitsAppend(flags: seq<nat>, x: nat, h: nat)
    requires h <= |flags|
    ensures Digits(flags + [x], h) == Digits(flags, h)
  {
    if h > 0 { DigitsAppend(flags, x, h - 1); }
  }

  /** How many items of each level can ever be needed, and how many there can be. */
  ghost predicate AreSizes(sizes: seq<nat>, n: nat, flags: seq<nat>) {
    && |sizes| == |flags| > 0
    && sizes[0] == flags[0]
    && sizes[|sizes| - 1] <= n
    && (forall h :: 1 <= h < |sizes| ==> flags[h] <= sizes[h] <= 2 * sizes[h - 1] + flags[h])
    && (forall h :: 1 <= h < |sizes| ==> sizes[h] == 2 * sizes[h - 1] + flags[h] || sizes[h] >= Unbounded(sizes, n, h))
  }

  /** All symbols and all pairs of the level below. */
  ghost function Unbounded(sizes: seq<nat>, n: nat, h: nat): nat
    requires h < |sizes|
  {
    if h == |sizes| - 1 then n else sizes[h + 1] / 2 + n
  }

  method LevelSizes(n: nat, flags: seq<nat>) returns (sizes: seq<nat>)
    requires n > 0 && |flags| > 1 && forall h :: 0 <= h < |flags| ==> flags[h] <= 1
    ensures AreSizes(sizes, n, flags)
  {
    var c := |flags|;
    var upper := new nat[c](_ => 0);
    upper[c - 1] := n;
    for h := 0 to c - 1
      invariant upper[c - 1] == n
      invariant forall j :: c - 1 - h <= j < c - 1 ==> upper[j] == upper[j + 1] / 2 + n
    {
      upper[c - 2 - h] := upper[c - 1 - h] / 2 + n;
    }
    sizes := CapSizes(upper[..], n, flags);
  }

  /** Level `h` needs no more than two items for each item of the level above, and its own. */
  ghost predicate Capped(sizes: seq<nat>, upper: seq<nat>, flags: seq<nat>, h: nat)
    requires 0 < h < |sizes| == |upper| == |flags|
  {
    && flags[h] <= sizes[h] <= upper[h]
    && sizes[h] <= 2 * sizes[h - 1] + flags[h]
    && (sizes[h] == 2 * sizes[h - 1] + flags[h] || sizes[h] == upper[h])
  }

  /** Cuts every size to twice the size of the level below and the excess of its own level, from below upwards. */
  method CapSizes(upper: seq<nat>, n: nat, flags: seq<nat>) returns (sizes: seq<nat>)
    requires n > 0 && |upper| == |flags| > 1 && forall h :: 0 <= h < |flags| ==> flags[h] <= 1
    requires upper[|upper| - 1] == n
    requires forall j :: 0 <= j < |upper| - 1 ==> upper[j] == upper[j + 1] / 2 + n
    ensures AreSizes(sizes, n, flags)
  {
    sizes := upper[0 := flags[0]];
    for h := 1 to |flags|
      invariant |sizes| == |flags| && sizes[0] == flags[0]
      invariant forall j :: h <= j < |sizes| ==> sizes[j] == upper[j]
      invariant forall j :: 1 <= j < h ==> Capped(sizes, upper, flags, j)
    {
      ghost var before := sizes;
      if h < |upper| - 1 { assert upper[h] == upper[h + 1] / 2 + n; }
      if sizes[h] > 2 * sizes[h - 1] + flags[h] {
        sizes := sizes[h := 2 * sizes[h - 1] + flags[h]];
      }
      forall j | 1 <= j < h ensures Capped(sizes, upper, flags, j) {
        assert Capped(before, upper, flags, j);
      }
    }
    CappedAreSizes(sizes, upper, n, flags);
  }

  lemma {:induction false} CappedAreSizes(sizes: seq<nat>, upper: seq<nat>, n: nat, flags: seq<nat>)
    requires |sizes| == |upper| == |flags| > 1 && sizes[0] == flags[0] <= n && upper[|upper| - 1] == n
    requires forall j :: 0 <= j < |upper| - 1 ==> upper[j] == upper[j + 1] / 2 + n
    requires forall j :: 1 <= j < |sizes| ==> Capped(sizes, upper, flags, j)
    ensures AreSizes(sizes, n, flags)
  {
    forall h | 1 <= h < |sizes|
      ensures flags[h] <= sizes[h] <= 2 * sizes[h - 1] + flags[h]
      ensures sizes[h] == 2 * sizes[h - 1] + flags[h] || sizes[h] >= Unbounded(sizes, n, h)
    {
      assert Capped(sizes, upper, flags, h);
      if h + 1 < |sizes| {
        assert Capped(sizes, upper, flags, h + 1);
        assert upper[h] == upper[h + 1] / 2 + n;
      }
    }
    assert Capped(sizes, upper, flags, |sizes| - 1);
  }

  // ----- taking items

  /** How many symbols have been taken at each level. */
  ghost function TakenAt(rows: seq<seq<nat>>, n: nat, pos: seq<nat>): (s: seq<nat>)
    requires |pos| == |rows| && forall h :: 0 <= h < |rows| ==> pos[h] <= |rows[h]|
    ensures |s| == |rows|
  {
    seq(|rows|, h requires 0 <= h < |rows| => Symbols(rows[h], n, pos[h]))
  }

  ghost predicate FitsBelow(rows: seq<seq<nat>>, valid: seq<nat>, n: nat, flags: seq<nat>, h: nat)
    requires |rows| == |valid| == |flags| && h + 1 < |rows| && valid[h] <= |rows[h]|
  {
    flags[h + 1] + 2 * Packages(rows[h], n, valid[h]) <= valid[h + 1]
  }

  /** Level `h + 1` has given its mandatory item and two items for each package taken at level `h`. */
  ghost predicate PaysFor(rows: seq<seq<nat>>, n: nat, flags: seq<nat>, pos: seq<nat>, h: nat)
    requires |rows| == |pos| == |flags| && h + 1 < |rows| && pos[h] <= |rows[h]|
  {
    pos[h + 1] == flags[h + 1] + 2 * Packages(rows[h], n, pos[h])
  }

  /** The levels from `lo` down are merged and usable, and their packages fit into the level below. */
  ghost predicate LevelsBuilt(rows: seq<seq<nat>>, valid: seq<nat>, n: nat, flags: seq<nat>, lo: nat) {
    && lo <= |rows| == |valid| == |flags|
    && (forall h :: 0 <= h < lo ==> rows[h] == [] && valid[h] == 0)
    && (forall h :: lo <= h < |rows| ==> Usable(rows[h], n, valid[h]))
    && (forall h :: lo <= h < |rows| - 1 ==> FitsBelow(rows, valid, n, flags, h))
    && (lo < |rows| ==> Packages(rows[|rows| - 1], n, valid[|rows| - 1]) == 0)
  }

  /** Below level `h`, exactly the mandatory items and the halves of taken packages are taken. */
  ghost predicate Linked(rows: seq<seq<nat>>, valid: seq<nat>, n: nat, flags: seq<nat>, pos: seq<nat>, h: nat) {
    && |pos| == |rows| == |valid| == |flags|
    && (forall j :: 0 <= j < |rows| ==> pos[j] <= valid[j] <= |rows[j]|)
    && (forall j :: h <= j < |rows| - 1 ==> PaysFor(rows, n, flags, pos, j))
  }

  /** With every mandatory item taken, the symbols taken are worth exactly the flags. */
  lemma {:induction false} TakenWorth(rows: seq<seq<nat>>, valid: seq<nat>, n: nat, flags: seq<nat>, pos: seq<nat>,
      h: nat)
    requires LevelsBuilt(rows, valid, n, flags, 0) && Linked(rows, valid, n, flags, pos, 0)
    requires h < |rows|
    ensures Worth(TakenAt(rows, n, pos), h) == Shl(pos[h], |rows| - 1 - h) + Worth(flags, h + 1)
    decreases |rows| - h
  {
    var r := |rows| - 1 - h;
    var p := Packages(rows[h], n, pos[h]);
    SplitsIntoBoth(rows[h], n, valid[h], pos[h]);
    CountsMono(rows[h], n, pos[h], valid[h]);
    if r > 0 {
      TakenWorth(rows, valid, n, flags, pos, h + 1);
      assert PaysFor(rows, n, flags, pos, h);
      PackageWorth(Symbols(rows[h], n, pos[h]), p, flags[h + 1], r);
    }
  }

  /** A package is worth its two halves. */
  lemma {:induction false} PackageWorth(s: nat, p: nat, flag: nat, r: nat)
    requires r > 0
    ensures Shl(s, r) + Shl(flag + 2 * p, r - 1) == Shl(s + p, r) + Shl(flag, r - 1)
  {
    ShlSum(flag, 2 * p, r - 1);
    ShlLast(p, r - 1);
    ShlSum(s, p, r);
  }

  lemma {:induction false} SplitsIntoBoth(row: seq<nat>, n: nat, v: nat, q: nat)
    requires Usable(row, n, v) && q <= v
    ensures Symbols(row, n, q) + Packages(row, n, q) == q
  {
    if q > 0 {
      assert InOrder(row, n, q - 1);
      SplitsIntoBoth(row, n, v, q - 1);
    }
  }

  /** Taking the symbol that is next at level `h` deepens that symbol only. */
  lemma {:induction false} TakeSymbol(rows: seq<seq<nat>>, n: nat, pos: seq<nat>, h: nat, l: nat)
    requires |pos| == |rows| && h < |rows| && forall j :: 0 <= j < |rows| ==> pos[j] <= |rows[j]|
    requires pos[h] < |rows[h]| && rows[h][pos[h]] < n && rows[h][pos[h]] == Symbols(rows[h], n, pos[h])
    ensures Depth(TakenAt(rows, n, pos[h := pos[h] + 1]), l, 0)
         == Depth(TakenAt(rows, n, pos), l, 0) + if l == rows[h][pos[h]] then 1 else 0
  {
    var s := TakenAt(rows, n, pos);
    assert TakenAt(rows, n, pos[h := pos[h] + 1]) == s[h := s[h] + 1];
    DepthStep(s, l, 0, h);
  }

  lemma {:induction false} TakePackageOnly(rows: seq<seq<nat>>, n: nat, pos: seq<nat>, h: nat)
    requires |pos| == |rows| && h < |rows| && forall j :: 0 <= j < |rows| ==> pos[j] <= |rows[j]|
    requires pos[h] < |rows[h]| && rows[h][pos[h]] == n
    ensures TakenAt(rows, n, pos[h := pos[h] + 1]) == TakenAt(rows, n, pos)
  {
  }

  /** The lengths reflect how often each symbol has been taken. */
  ghost predicate InStep(lengths: seq<nat>, s: seq<nat>) {
    forall l :: 0 <= l < |lengths| ==> lengths[l] + Depth(s, l, 0) == |s|
  }

  class Merger {
    const n: nat
    const flags: seq<nat>
    var rows: seq<seq<nat>>
    ghost var valid: seq<nat>
    var pos: seq<nat>
    var lengths: seq<nat>

    ghost predicate Shaped(lo: nat)
      reads this
    {
      && |lengths| == n > 0
      && LevelsBuilt(rows, valid, n, flags, lo)
      && Linked(rows, valid, n, flags, pos, lo)
    }

    ghost predicate Valid(lo: nat)
      reads this
    {
      Shaped(lo) && InStep(lengths, TakenAt(rows, n, pos))
    }

    constructor (n: nat, flags: seq<nat>)
      requires n > 0
      ensures this.n == n && this.flags == flags && Valid(|flags|)
      ensures lengths == seq(n, i => |flags|)
    {
      this.n, this.flags := n, flags;
      rows, valid := seq(|flags|, h => []), seq(|flags|, h => 0);
      pos := seq(|flags|, h => 0);
      lengths := seq(n, i => |flags|);
      new;
      forall l | 0 <= l < n ensures Depth(TakenAt(rows, n, pos), l, 0) == 0 {
        NothingTaken(TakenAt(rows, n, pos), l, 0);
      }
    }

    /** Adds level `h` and takes its first item if the excess has that bit. */
    method AddLevel(h: nat, row: seq<nat>, ghost v: nat)
      requires h < |flags| && Valid(h + 1) && flags[h] <= 1
      requires Usable(row, n, v) && flags[h] <= v
      requires if h + 1 == |flags| then Packages(row, n, v) == 0
               else pos[h + 1] == flags[h + 1] && flags[h + 1] + 2 * Packages(row, n, v) <= valid[h + 1]
      modifies this
      ensures Valid(h) && pos[h] == flags[h]
      ensures rows == old(rows)[h := row] && valid == old(valid)[h := v]
    {
      AddLevelStep(rows, valid, n, flags, pos, h, row, v);
      rows, valid := rows[h := row], valid[h := v];
      if flags[h] == 1 {
        TakePackage(h, h);
      }
    }

    /** Takes the next item of level `h`: a symbol, or a package and with it two items of level `h + 1`. */
    method TakePackage(h: nat, ghost lo: nat)
      requires lo <= h < |flags| && LevelsBuilt(rows, valid, n, flags, lo) && |lengths| == n
      requires Linked(rows, valid, n, flags, pos, h) && InStep(lengths, TakenAt(rows, n, pos))
      requires pos[h] < valid[h]
      modifies `pos, `lengths
      ensures |lengths| == n && Linked(rows, valid, n, flags, pos, h)
      ensures InStep(lengths, TakenAt(rows, n, pos))
      ensures pos[h] == old(pos[h]) + 1 && forall j :: 0 <= j < h ==> pos[j] == old(pos[j])
      decreases |flags| - h
    {
      hide Packages, Symbols, FitsBelow, InStep;
      var b := rows[h][pos[h]];
      assert InOrder(rows[h], n, pos[h]);
      if b == n {
        RoomBelow(rows, valid, n, flags, pos, h, lo);
        TakePackage(h + 1, lo);
        TakePackage(h + 1, lo);
        TakePackageOnly(rows, n, pos, h);
      } else {
        if h + 1 < |flags| { assert PaysFor(rows, n, flags, pos, h); }
        ShortenStep(rows, n, pos, h, lengths);
        lengths := lengths[b := lengths[b] - 1];
      }
      LinkStep(rows, valid, n, flags, pos, h);
      pos := pos[h := pos[h] + 1];
    }
  }

  /** Installing a level on top of the others changes nothing that has been taken. */
  lemma {:induction false} AddLevelStep(rows: seq<seq<nat>>, valid: seq<nat>, n: nat, flags: seq<nat>, pos: seq<nat>,
                                        h: nat, row: seq<nat>, v: nat)
    requires h < |rows| && LevelsBuilt(rows, valid, n, flags, h + 1) && Linked(rows, valid, n, flags, pos, h + 1)
    requires Usable(row, n, v)
    requires if h + 1 == |rows| then Packages(row, n, v) == 0
             else pos[h + 1] == flags[h + 1] && flags[h + 1] + 2 * Packages(row, n, v) <= valid[h + 1]
    ensures LevelsBuilt(rows[h := row], valid[h := v], n, flags, h)
    ensures Linked(rows[h := row], valid[h := v], n, flags, pos, h)
    ensures TakenAt(rows[h := row], n, pos) == TakenAt(rows, n, pos)
  {
    var above, proper := rows[h := row], valid[h := v];
    forall j | h <= j < |rows| - 1
      ensures FitsBelow(above, proper, n, flags, j) && PaysFor(above, n, flags, pos, j)
    {
      if j > h { assert FitsBelow(rows, valid, n, flags, j) && PaysFor(rows, n, flags, pos, j); }
    }
  }

  /** An untaken package at level `h` has two untaken proper items at level `h + 1`. */
  lemma {:induction false} RoomBelow(rows: seq<seq<nat>>, valid: seq<nat>, n: nat, flags: seq<nat>, pos: seq<nat>,
      h: nat, lo: nat)
    requires LevelsBuilt(rows, valid, n, flags, lo) && lo <= h < |rows|
    requires Linked(rows, valid, n, flags, pos, h) && pos[h] < valid[h] && rows[h][pos[h]] == n
    ensures h + 1 < |rows| && PaysFor(rows, n, flags, pos, h) && pos[h + 1] + 2 <= valid[h + 1]
  {
    if h + 1 < |rows| { assert FitsBelow(rows, valid, n, flags, h) && PaysFor(rows, n, flags, pos, h); }
    CountsMono(rows[h], n, pos[h], valid[h]);
  }

  lemma {:induction false} LinkStep(rows: seq<seq<nat>>, valid: seq<nat>, n: nat, flags: seq<nat>, pos: seq<nat>,
      h: nat)
    requires h < |rows| && Linked(rows, valid, n, flags, pos, h + 1) && pos[h] < valid[h]
    requires h + 1 < |rows| ==>
      pos[h + 1] == flags[h + 1] + 2 * Packages(rows[h], n, pos[h]) + if rows[h][pos[h]] == n then 2 else 0
    ensures Linked(rows, valid, n, flags, pos[h := pos[h] + 1], h)
  {
    var next := pos[h := pos[h] + 1];
    forall j | h < j < |rows| - 1 ensures PaysFor(rows, n, flags, next, j) {
      assert PaysFor(rows, n, flags, pos, j);
    }
    assert Packages(rows[h], n, pos[h] + 1) == Packages(rows[h], n, pos[h]) + if rows[h][pos[h]] == n then 1 else 0;
  }

  lemma {:induction false} ShortenStep(rows: seq<seq<nat>>, n: nat, pos: seq<nat>, h: nat, lengths: seq<nat>)
    requires |pos| == |rows| && h < |rows| && forall j :: 0 <= j < |rows| ==> pos[j] <= |rows[j]|
    requires pos[h] < |rows[h]| && rows[h][pos[h]] < n && rows[h][pos[h]] == Symbols(rows[h], n, pos[h])
    requires |lengths| == n && InStep(lengths, TakenAt(rows, n, pos))
    ensures lengths[rows[h][pos[h]]] > 0
    ensures var b := rows[h][pos[h]];
      InStep(lengths[b := lengths[b] - 1], TakenAt(rows, n, pos[h := pos[h] + 1]))
  {
    forall l | 0 <= l < n
      ensures Depth(TakenAt(rows, n, pos[h := pos[h] + 1]), l, 0)
           == Depth(TakenAt(rows, n, pos), l, 0) + if l == rows[h][pos[h]] then 1 else 0
    {
      TakeSymbol(rows, n, pos, h, l);
    }
  }

  lemma {:induction false} NothingTaken(s: seq<nat>, l: nat, h: nat)
    requires h <= |s| && forall j :: 0 <= j < |s| ==> s[j] == 0
    ensures Depth(s, l, h) == 0
    decreases |s| - h
  {
    if h < |s| { NothingTaken(s, l, h + 1); }
  }

  // ----- when the frequencies are positive and descending, no symbol skips a level

  ghost predicate Descending(freqs: seq<nat>) {
    && (forall i, j :: 0 <= i < j < |freqs| ==> freqs[i] >= freqs[j])
    && (forall i :: 0 <= i < |freqs| ==> freqs[i] > 0)
  }

  /** Level `h` was built from the symbols and level `h + 1`. */
  ghost predicate LevelMerged(rows: seq<seq<nat>>, vals: seq<seq<Number>>, valid: seq<nat>, flags: seq<nat>,
                              freqs: seq<nat>, sizes: seq<nat>, h: nat)
    requires |rows| == |vals| == |valid| == |flags| == |sizes| && h < |rows|
  {
    && |rows[h]| == sizes[h]
    && (if h == |rows| - 1 then IsBase(rows[h], vals[h], valid[h], freqs)
        else IsMerge(rows[h], vals[h], valid[h], vals[h + 1], flags[h + 1], freqs))
  }

  /** Every proper item is worth something, and at least as much as the next symbol. */
  lemma {:induction false} ItemValue(rows: seq<seq<nat>>, vals: seq<seq<Number>>, valid: seq<nat>, flags: seq<nat>,
                  freqs: seq<nat>, sizes: seq<nat>, h: nat, q: nat)
    requires |rows| == |vals| == |valid| == |flags| == |sizes| && h < |rows| && Descending(freqs)
    requires LevelMerged(rows, vals, valid, flags, freqs, sizes, h) && q < valid[h]
    ensures q < |rows[h]| == |vals[h]| && vals[h][q].Number? && vals[h][q].value > 0
    ensures var l := Symbols(rows[h], |freqs|, q); l < |freqs| ==> vals[h][q].value >= freqs[l]
  {
    if h == |rows| - 1 {
      BaseUsable(rows[h], vals[h], valid[h], freqs, q);
    } else {
      assert IsItem(rows[h], vals[h], q, vals[h + 1], flags[h + 1], freqs);
    }
  }

  /** The place of the last symbol among the first `q` items. */
  lemma {:induction false} LastSymbol(row: seq<nat>, n: nat, q: nat) returns (p: nat)
    requires q <= |row| && Symbols(row, n, q) > 0
    ensures p < q && row[p] < n && Symbols(row, n, p) == Symbols(row, n, q) - 1
  {
    if row[q - 1] < n { p := q - 1; } else { p := LastSymbol(row, n, q - 1); }
  }

  lemma {:induction false} NearFullWorth(s: seq<nat>, n: nat, h: nat)
    requires h <= |s| && n > 0 && forall j :: h <= j < |s| ==> n - 1 <= s[j] <= n
    ensures Worth(s, h) + n <= Shl(n, |s| - h) < Worth(s, h) + n + Pow2(|s| - h)
    ensures h < |s| && s[h] == n - 1 ==> Worth(s, h) + n < Shl(n, |s| - h)
    decreases |s| - h
  {
    if h < |s| {
      NearFullWorth(s, n, h + 1);
      ShlSum(n - 1, 1, |s| - h - 1);
      ShlOne(1, |s| - h - 1);
    }
  }

  lemma {:induction false} NoMultipleBetween(a: nat, b: nat, k: nat)
    ensures !(Shl(b, k) < Shl(a, k) < Shl(b, k) + Pow2(k))
  {
    if a <= b {
      ShlMono(a, b, k);
    } else {
      ShlMono(b + 1, a, k);
      ShlSum(b, 1, k);
      ShlOne(1, k);
    }
  }

  /** The worth taken from level `h + 1` on, with one more for each symbol, is a multiple of `2^(levels)`. */
  lemma {:induction false} TakenIsMultiple(rows: seq<seq<nat>>, valid: seq<nat>, n: nat, flags: seq<nat>, pos: seq<nat>,
      h: nat)
    requires LevelsBuilt(rows, valid, n, flags, 0) && Linked(rows, valid, n, flags, pos, 0)
    requires h + 1 < |rows| && n <= Pow2(|rows|) && Digits(flags, |flags|) == Pow2(|rows|) - n
    ensures var k := |rows| - 1 - h;
      Worth(TakenAt(rows, n, pos), h + 1) + n + Shl(Digits(flags, h + 1), k)
        == Shl(Pow2(h + 1) + Packages(rows[h], n, pos[h]), k)
  {
    hide LevelsBuilt, Shl, Pow2, Packages;
    assert PaysFor(rows, n, flags, pos, h);
    TakenWorth(rows, valid, n, flags, pos, h + 1);
    WorthIsDigits(flags, h + 1);
    MultipleArithmetic(flags[h + 1], Packages(rows[h], n, pos[h]), h + 1, |rows| - 1 - h);
  }

  lemma {:induction false} MultipleArithmetic(flag: nat, r: nat, m: nat, k: nat)
    requires k > 0
    ensures Shl(flag + 2 * r, k - 1) == Shl(flag, k - 1) + Shl(r, k)
    ensures Shl(Pow2(m) + r, k) == Pow2(m + k) + Shl(r, k)
  {
    ShlSum(flag, 2 * r, k - 1);
    ShlLast(r, k - 1);
    Pow2Add(m, k);
    ShlSum(Pow2(m), r, k);
  }

  /** One missing symbol below would leave a remainder no package can pay. */
  lemma {:induction false} NotJustOneMissing(rows: seq<seq<nat>>, valid: seq<nat>, n: nat, flags: seq<nat>,
      pos: seq<nat>, h: nat)
    requires LevelsBuilt(rows, valid, n, flags, 0) && Linked(rows, valid, n, flags, pos, 0)
    requires h + 1 < |rows| && 0 < n <= Pow2(|rows|) && Digits(flags, |flags|) == Pow2(|rows|) - n
    requires var s := TakenAt(rows, n, pos); forall j :: h + 1 <= j < |s| ==> n - 1 <= s[j] <= n
    ensures TakenAt(rows, n, pos)[h + 1] != n - 1
  {
    var s := TakenAt(rows, n, pos);
    if s[h + 1] == n - 1 {
      NearFullWorth(s, n, h + 1);
      TakenIsMultiple(rows, valid, n, flags, pos, h);
      NotAMultiple(Worth(s, h + 1), n, Digits(flags, h + 1),
                   Pow2(h + 1) + Packages(rows[h], n, pos[h]), |rows| - 1 - h);
    }
  }

  lemma {:induction false} NotAMultiple(w: nat, n: nat, d: nat, b: nat, k: nat)
    requires w + n < Shl(n, k) < w + n + Pow2(k)
    ensures w + n + Shl(d, k) != Shl(b, k)
  {
    ShlSum(n, d, k);
    NoMultipleBetween(n + d, b, k);
  }

  /** If a symbol of level `h` was placed when no pair of level `h + 1` was left, level `h + 1` lists every symbol. */
  lemma {:induction false} AllSymbolsListed(rows: seq<seq<nat>>, vals: seq<seq<Number>>, valid: seq<nat>,
      flags: seq<nat>, freqs: seq<nat>, sizes: seq<nat>, h: nat, q: nat)
    requires |rows| == |vals| && LevelsBuilt(rows, valid, |freqs|, flags, 0) && AreSizes(sizes, |freqs|, flags)
    requires |sizes| == |rows| && h + 1 < |rows|
    requires forall j :: h <= j < |rows| ==> LevelMerged(rows, vals, valid, flags, freqs, sizes, j)
    requires q < valid[h] && valid[h + 1] <= flags[h + 1] + 2 * Packages(rows[h], |freqs|, q) + 1
    ensures Symbols(rows[h + 1], |freqs|, valid[h + 1]) >= |freqs|
  {
    var n := |freqs|;
    assert LevelMerged(rows, vals, valid, flags, freqs, sizes, h);
    assert LevelMerged(rows, vals, valid, flags, freqs, sizes, h + 1);
    SplitsIntoBoth(rows[h], n, valid[h], q);
    SplitsIntoBoth(rows[h + 1], n, valid[h + 1], valid[h + 1]);
    if valid[h + 1] == |rows[h + 1]| {
      assert Packages(rows[h], n, q) <= q <= sizes[h] - 1;
      assert sizes[h + 1] >= Unbounded(sizes, n, h + 1);
      if h + 2 < |rows| {
        assert LevelMerged(rows, vals, valid, flags, freqs, sizes, h + 2);
        assert FitsBelow(rows, valid, n, flags, h + 1);
      }
    }
  }

  /** A pair that lost against symbol `l` comes after symbol `l` in its own level. */
  lemma {:induction false} PairLeft(rows: seq<seq<nat>>, vals: seq<seq<Number>>, valid: seq<nat>, flags: seq<nat>,
                                    freqs: seq<nat>, sizes: seq<nat>, h: nat, w: nat, l: nat)
    requires |rows| == |vals| == |valid| == |flags| == |sizes| && h < |rows| && Descending(freqs)
    requires LevelMerged(rows, vals, valid, flags, freqs, sizes, h) && w + 1 < valid[h] && l < |freqs|
    requires !Exceeds(Plus(At(vals[h], w), At(vals[h], w + 1)), Number(freqs[l]))
    ensures w <= |rows[h]| && Symbols(rows[h], |freqs|, w) > l
  {
    ItemValue(rows, vals, valid, flags, freqs, sizes, h, w);
    ItemValue(rows, vals, valid, flags, freqs, sizes, h, w + 1);
  }

  /** Where the last symbol taken at level `h` was placed, and the pair it was compared with. */
  lemma {:induction false} LastTakenSymbol(rows: seq<seq<nat>>, vals: seq<seq<Number>>, valid: seq<nat>,
      flags: seq<nat>, pos: seq<nat>, freqs: seq<nat>, sizes: seq<nat>, h: nat) returns (q: nat, w: nat)
    requires |rows| == |vals| == |sizes| && LevelsBuilt(rows, valid, |freqs|, flags, 0)
    requires Linked(rows, valid, |freqs|, flags, pos, 0) && h + 1 < |rows|
    requires LevelMerged(rows, vals, valid, flags, freqs, sizes, h)
    requires TakenAt(rows, |freqs|, pos)[h] > 0
    ensures q < valid[h] <= |rows[h]| && w == flags[h + 1] + 2 * Packages(rows[h], |freqs|, q)
    ensures w <= pos[h + 1] <= valid[h + 1]
    ensures var l := TakenAt(rows, |freqs|, pos)[h] - 1;
      l < |freqs| && !Exceeds(Plus(At(vals[h + 1], w), At(vals[h + 1], w + 1)), Number(freqs[l]))
  {
    var n := |freqs|;
    q := LastSymbol(rows[h], n, pos[h]);
    w := flags[h + 1] + 2 * Packages(rows[h], n, q);
    CountsMono(rows[h], n, q, pos[h]);
    assert PaysFor(rows, n, flags, pos, h);
    assert InOrder(rows[h], n, q);
    assert IsItem(rows[h], vals[h], q, vals[h + 1], flags[h + 1], freqs);
  }

  lemma {:induction false} AscendingStep(rows: seq<seq<nat>>, vals: seq<seq<Number>>, valid: seq<nat>, flags: seq<nat>,
      pos: seq<nat>, freqs: seq<nat>, sizes: seq<nat>, h: nat)
    requires |rows| == |vals| && LevelsBuilt(rows, valid, |freqs|, flags, 0)
    requires Linked(rows, valid, |freqs|, flags, pos, 0) && AreSizes(sizes, |freqs|, flags) && |sizes| == |rows|
    requires forall j :: 0 <= j < |rows| ==> LevelMerged(rows, vals, valid, flags, freqs, sizes, j)
    requires Descending(freqs) && 0 < |freqs| <= Pow2(|rows|) && Digits(flags, |flags|) == Pow2(|rows|) - |freqs|
    requires h + 1 < |rows|
    requires var s := TakenAt(rows, |freqs|, pos); Ascending(s, h + 1)
    ensures var s := TakenAt(rows, |freqs|, pos); s[h] <= s[h + 1]
  {
    hide IsMerge, IsBase, IsItem, Symbols, Packages, FitsBelow, PaysFor, Digits, Pow2, AreSizes;
    var n := |freqs|;
    var s := TakenAt(rows, n, pos);
    if s[h] > 0 {
      var q, w := LastTakenSymbol(rows, vals, valid, flags, pos, freqs, sizes, h);
      if w + 1 < valid[h + 1] {
        assert LevelMerged(rows, vals, valid, flags, freqs, sizes, h + 1);
        PairLeft(rows, vals, valid, flags, freqs, sizes, h + 1, w, s[h] - 1);
        CountsMono(rows[h + 1], n, w, pos[h + 1]);
      } else {
        AllSymbolsListed(rows, vals, valid, flags, freqs, sizes, h, q);
        CountsMono(rows[h + 1], n, pos[h + 1], valid[h + 1]);
        forall j | h + 1 <= j < |s| ensures s[j] <= n {
          CountsMono(rows[j], n, pos[j], valid[j]);
        }
        NotJustOneMissing(rows, valid, n, flags, pos, h);
        CountsMono(rows[h], n, pos[h], valid[h]);
      }
    }
  }

  lemma {:induction false} TakenAscending(rows: seq<seq<nat>>, vals: seq<seq<Number>>, valid: seq<nat>, flags: seq<nat>,
      pos: seq<nat>, freqs: seq<nat>, sizes: seq<nat>, h: nat)
    requires |rows| == |vals| && LevelsBuilt(rows, valid, |freqs|, flags, 0)
    requires Linked(rows, valid, |freqs|, flags, pos, 0) && AreSizes(sizes, |freqs|, flags) && |sizes| == |rows|
    requires forall j :: 0 <= j < |rows| ==> LevelMerged(rows, vals, valid, flags, freqs, sizes, j)
    requires Descending(freqs) && 0 < |freqs| <= Pow2(|rows|) && Digits(flags, |flags|) == Pow2(|rows|) - |freqs|
    requires h < |rows|
    ensures var s := TakenAt(rows, |freqs|, pos); Ascending(s, h)
    decreases |rows| - h
  {
    if h + 1 < |rows| {
      TakenAscending(rows, vals, valid, flags, pos, freqs, sizes, h + 1);
      AscendingStep(rows, vals, valid, flags, pos, freqs, sizes, h);
    }
  }

  // ----- the whole computation

  /** The sum of `2^(limit - length)` over the first `m` symbols. */
  ghost function LengthSum(lengths: seq<nat>, limit: nat, m: nat): nat
    requires m <= |lengths| && forall l :: 0 <= l < |lengths| ==> lengths[l] <= limit
  {
    if m == 0 then 0 else LengthSum(lengths, limit, m - 1) + Pow2(limit - lengths[m - 1])
  }

  lemma {:induction false} LengthSumIsDepthSum(lengths: seq<nat>, s: seq<nat>, m: nat)
    requires InStep(lengths, s) && m <= |lengths|
    ensures LengthSum(lengths, |s|, m) == DepthSum(s, m)
  {
    if m > 0 { LengthSumIsDepthSum(lengths, s, m - 1); }
  }

  /** With the excess paid, no length is below one and Kraft's sum stays within its bound. */
  lemma {:induction false} PaidInFull(rows: seq<seq<nat>>, valid: seq<nat>, n: nat, flags: seq<nat>, pos: seq<nat>,
      lengths: seq<nat>)
    requires |rows| > 0 && LevelsBuilt(rows, valid, n, flags, 0) && Linked(rows, valid, n, flags, pos, 0)
    requires pos[0] == flags[0] && 1 < n == |lengths| <= Pow2(|rows|) && Digits(flags, |flags|) == Pow2(|rows|) - n
    requires InStep(lengths, TakenAt(rows, n, pos))
    ensures forall l :: 0 <= l < n ==> 1 <= lengths[l] <= |rows|
    ensures LengthSum(lengths, |rows|, n) <= Pow2(|rows|)
    ensures var s := TakenAt(rows, n, pos);
      Ascending(s, 0) ==> LengthSum(lengths, |rows|, n) == Pow2(|rows|)
  {
    hide Symbols, Packages, Depth, DepthSum, CappedWorth, FitsBelow, PaysFor;
    var s := TakenAt(rows, n, pos);
    forall j | 0 <= j < |s| ensures s[j] <= n {
      CountsMono(rows[j], n, pos[j], valid[j]);
    }
    TakenWorth(rows, valid, n, flags, pos, 0);
    WorthIsDigits(flags, 0);
    ShlOne(0, |rows|);
    DepthSumBound(s, n);
    CapIsNoLoss(s, n, 0);
    LengthSumIsDepthSum(lengths, s, n);
    forall l | 0 <= l < n ensures 1 <= lengths[l] <= |rows| {
      DepthSumAtLeast(s, n, l);
    }
  }

  /** The deepest level lists the first symbols in order. */
  method BaseLevel(freqs: seq<nat>, size: nat) returns (row: seq<nat>, vals: seq<Number>)
    requires size <= |freqs|
    ensures IsBase(row, vals, size, freqs)
    ensures Usable(row, |freqs|, size) && Packages(row, |freqs|, size) == 0
  {
    row, vals := [], [];
    for q := 0 to size
      invariant IsBase(row, vals, q, freqs)
    {
      row, vals := row + [q], vals + [Number(freqs[q])];
    }
    BaseUsable(row, vals, size, freqs, size);
    forall q | 0 <= q < size ensures InOrder(row, |freqs|, q) {
      BaseUsable(row, vals, size, freqs, q);
    }
  }

  lemma {:induction false} MergedIsUsable(row: seq<nat>, vals: seq<Number>, v: nat, below: seq<Number>, u: nat,
      skip: nat, freqs: seq<nat>)
    requires IsMerge(row, vals, v, below, skip, freqs) && Defined(below, u) && skip <= u
    ensures Usable(row, |freqs|, v) && skip + 2 * Packages(row, |freqs|, v) <= u
    ensures Defined(vals, v)
  {
    MergeUsable(row, vals, v, below, u, skip, freqs, v);
    forall q | 0 <= q < v ensures InOrder(row, |freqs|, q) && vals[q].Number? {
      assert IsItem(row, vals, q, below, skip, freqs);
    }
  }

  ghost predicate AllMerged(rows: seq<seq<nat>>, vals: seq<seq<Number>>, valid: seq<nat>, flags: seq<nat>,
                            freqs: seq<nat>, sizes: seq<nat>, h: nat) {
    && |rows| == |vals| == |valid| == |flags| == |sizes|
    && forall j :: h <= j < |rows| ==> LevelMerged(rows, vals, valid, flags, freqs, sizes, j)
  }

  lemma {:induction false} BaseMerged(rows: seq<seq<nat>>, vals: seq<seq<Number>>, valid: seq<nat>, flags: seq<nat>,
                                      freqs: seq<nat>, sizes: seq<nat>)
    requires 0 < |rows| == |vals| == |valid| == |flags| == |sizes|
    requires var h := |rows| - 1; IsBase(rows[h], vals[h], valid[h], freqs) && valid[h] == sizes[h]
    ensures AllMerged(rows, vals, valid, flags, freqs, sizes, |rows| - 1)
  {
  }

  lemma {:induction false} OneMoreMerged(rows: seq<seq<nat>>, vals: seq<seq<Number>>, valid: seq<nat>, flags: seq<nat>,
      freqs: seq<nat>, sizes: seq<nat>, h: nat, row: seq<nat>, top: seq<Number>, v: nat)
    requires h + 1 < |rows| && AllMerged(rows, vals, valid, flags, freqs, sizes, h + 1)
    requires |row| == sizes[h] && IsMerge(row, top, v, vals[h + 1], flags[h + 1], freqs)
    ensures AllMerged(rows[h := row], vals[h := top], valid[h := v], flags, freqs, sizes, h)
  {
    hide IsMerge, IsBase;
    var rows', vals', valid' := rows[h := row], vals[h := top], valid[h := v];
    forall j | h <= j < |rows| ensures LevelMerged(rows', vals', valid', flags, freqs, sizes, j) {
      if j > h { assert LevelMerged(rows, vals, valid, flags, freqs, sizes, j); }
    }
  }
}
