/**
 Canonical Huffman codes: the compressor's code assignment (`getCodesFromLengths_`,
 minified `pa`) and the decompressor's lookup table (`buildHuffmanTable`, minified `u`).

 Section 3.2.2 of RFC 1951: codes of one length are consecutive integers in symbol order, and
 shorter codes lexicographically precede longer ones.
 */
module HuffmanCodes {
  import opened Bits

  const MAX_CODE_LENGTH := 15

  /** A code length for every symbol of an alphabet; length 0 means the symbol is unused. */
  type Lengths = s: seq<nat> | forall i :: 0 <= i < |s| ==> s[i] <= 15

  /** How many of the first `n` symbols have length `g`. */
  function CountBefore(lens: seq<nat>, g: nat, n: nat): (c: nat)
    requires n <= |lens|
  {
    if n == 0 then 0 else CountBefore(lens, g, n - 1) + if lens[n - 1] == g then 1 else 0
  }

  /** The smallest code of length `g`. */
  function FirstCode(lens: seq<nat>, g: nat): nat {
    if g <= 1 then 0 else 2 * (FirstCode(lens, g - 1) + CountBefore(lens, g - 1, |lens|))
  }

  /** The code of symbol `n`. */
  function Code(lens: seq<nat>, n: nat): nat
    requires n < |lens|
  {
    FirstCode(lens, lens[n]) + CountBefore(lens, lens[n], n)
  }

  /** The code of symbol `n` as the integer that is written least significant bit first. */
  function ReversedCode(lens: seq<nat>, n: nat): nat
    requires n < |lens|
  {
    Rev(Code(lens, n), lens[n])
  }

  /** The code of symbol `n` as it appears in a bit stream. */
  function CodeBits(lens: seq<nat>, n: nat): (s: seq<bool>)
    requires n < |lens|
    ensures |s| == lens[n]
  {
    Msb(Code(lens, n), lens[n])
  }

  // ----- the Kraft inequality

  /** The sum of `2^(limit - length)` over the first `n` symbols with a length in `1..g`. */
  function KraftSum(lens: seq<nat>, limit: nat, g: nat, n: nat): (sum: nat)
    requires n <= |lens| && g <= limit
  {
    if n == 0 then 0
    else
      var term := if 0 < lens[n - 1] <= g then Pow2(limit - lens[n - 1]) else 0;
      KraftSum(lens, limit, g, n - 1) + term
  }

  /** Unused symbols add nothing. */
  lemma {:induction false} ZerosAddNothing(lens: seq<nat>, limit: nat, a: nat, b: nat)
    requires a <= b <= |lens| && forall i :: a <= i < b ==> lens[i] == 0
    ensures KraftSum(lens, limit, limit, b) == KraftSum(lens, limit, limit, a)
  {
    if a < b {
      ZerosAddNothing(lens, limit, a, b - 1);
    }
  }

  lemma {:induction false} CountSkips(lens: seq<nat>, g: nat, a: nat, b: nat)
    requires a <= b <= |lens| && forall i :: a <= i < b ==> lens[i] != g
    ensures CountBefore(lens, g, b) == CountBefore(lens, g, a)
  {
    if a < b {
      CountSkips(lens, g, a, b - 1);
    }
  }

  /** The lengths are at most `limit` and leave room for distinct codewords. */
  ghost predicate Kraft(lens: seq<nat>, limit: nat) {
    && (forall i :: 0 <= i < |lens| ==> lens[i] <= limit)
    && KraftSum(lens, limit, limit, |lens|) <= Pow2(limit)
  }

  /** Kraft's sum scales with the limit. */
  lemma {:induction false} KraftSumScales(lens: seq<nat>, limit: nat, wider: nat, n: nat)
    requires limit <= wider && n <= |lens| && forall i :: 0 <= i < |lens| ==> lens[i] <= limit
    ensures KraftSum(lens, wider, wider, n) == Shl(KraftSum(lens, limit, limit, n), wider - limit)
  {
    if n == 0 {
      ShlOne(0, wider - limit);
    } else {
      KraftSumScales(lens, limit, wider, n - 1);
      if 0 < lens[n - 1] {
        ShlSum(KraftSum(lens, limit, limit, n - 1), Pow2(limit - lens[n - 1]), wider - limit);
        Pow2Add(limit - lens[n - 1], wider - limit);
      }
    }
  }

  lemma {:induction false} KraftAnyLimit(lens: seq<nat>, limit: nat, wider: nat)
    requires limit <= wider && forall i :: 0 <= i < |lens| ==> lens[i] <= limit
    ensures Kraft(lens, limit) <==> Kraft(lens, wider)
  {
    KraftSumScales(lens, limit, wider, |lens|);
    Pow2Add(limit, wider - limit);
    var sum := KraftSum(lens, limit, limit, |lens|);
    if sum <= Pow2(limit) {
      ShlMono(sum, Pow2(limit), wider - limit);
    } else {
      ShlMono(Pow2(limit) + 1, sum, wider - limit);
      ShlSum(Pow2(limit), 1, wider - limit);
      ShlOne(1, wider - limit);
    }
  }

  /** One past the largest code of length `g`. */
  ghost function EndCode(lens: seq<nat>, g: nat): nat {
    FirstCode(lens, g) + CountBefore(lens, g, |lens|)
  }

  lemma {:induction false} KraftSumStep(lens: seq<nat>, limit: nat, g: nat, n: nat)
    requires n <= |lens| && 0 < g <= limit
    ensures KraftSum(lens, limit, g, n)
         == KraftSum(lens, limit, g - 1, n) + Shl(CountBefore(lens, g, n), limit - g)
  {
    if n == 0 {
      ShlOne(0, limit - g);
    } else {
      KraftSumStep(lens, limit, g, n - 1);
      ShlSum(CountBefore(lens, g, n - 1), 1, limit - g);
      ShlOne(1, limit - g);
    }
  }

  lemma {:induction false} KraftSumNone(lens: seq<nat>, limit: nat, n: nat)
    requires n <= |lens|
    ensures KraftSum(lens, limit, 0, n) == 0
  {
    if n > 0 { KraftSumNone(lens, limit, n - 1); }
  }

  /** The codes of length up to `g`, seen at length `limit`, take exactly their share of Kraft's sum. */
  lemma {:induction false} EndCodeIsKraftSum(lens: seq<nat>, limit: nat, g: nat)
    requires 0 < g <= limit
    ensures Shl(EndCode(lens, g), limit - g) == KraftSum(lens, limit, g, |lens|)
  {
    var r := limit - g;
    KraftSumStep(lens, limit, g, |lens|);
    ShlSum(FirstCode(lens, g), CountBefore(lens, g, |lens|), r);
    if g == 1 {
      KraftSumNone(lens, limit, |lens|);
      ShlOne(0, r);
    } else {
      EndCodeIsKraftSum(lens, limit, g - 1);
      ShlLast(EndCode(lens, g - 1), r);
    }
  }

  lemma {:induction false} KraftSumMono(lens: seq<nat>, limit: nat, g: nat, n: nat)
    requires n <= |lens| && g <= limit
    ensures KraftSum(lens, limit, g, n) <= KraftSum(lens, limit, limit, n)
  {
    if n > 0 { KraftSumMono(lens, limit, g, n - 1); }
  }

  /** Codes of length `g` fit in `g` bits. */
  lemma {:induction false} EndCodeFits(lens: seq<nat>, limit: nat, g: nat)
    requires Kraft(lens, limit) && 0 < g <= limit
    ensures EndCode(lens, g) <= Pow2(g)
  {
    EndCodeIsKraftSum(lens, limit, g);
    KraftSumMono(lens, limit, g, |lens|);
    Pow2Add(g, limit - g);
    if EndCode(lens, g) > Pow2(g) {
      ShlMono(Pow2(g) + 1, EndCode(lens, g), limit - g);
      ShlSum(Pow2(g), 1, limit - g);
      ShlOne(1, limit - g);
    }
  }

  lemma {:induction false} CountMono(lens: seq<nat>, g: nat, m: nat, n: nat)
    requires m <= n <= |lens|
    ensures CountBefore(lens, g, m) <= CountBefore(lens, g, n)
    ensures m < n && lens[m] == g ==> CountBefore(lens, g, m) < CountBefore(lens, g, n)
  {
    if m < n { CountMono(lens, g, m, n - 1); }
  }

  lemma {:induction false} CodeFits(lens: seq<nat>, limit: nat, n: nat)
    requires Kraft(lens, limit) && n < |lens| && 0 < lens[n]
    ensures Code(lens, n) < EndCode(lens, lens[n]) <= Pow2(lens[n])
  {
    EndCodeFits(lens, limit, lens[n]);
    CountMono(lens, lens[n], n, |lens|);
  }

  /** Every longer code comes after all extensions of the shorter codes. */
  lemma {:induction false} LongerCodesComeLater(lens: seq<nat>, g: nat, h: nat)
    requires 0 < g < h
    ensures Shl(EndCode(lens, g), h - g) <= FirstCode(lens, h)
  {
    if g + 1 < h {
      LongerCodesComeLater(lens, g, h - 1);
    }
    assert Shl(EndCode(lens, g), h - g) == 2 * Shl(EndCode(lens, g), h - g - 1);
  }

  lemma {:induction false} ShrMono(v: nat, w: nat, n: nat)
    requires v <= w
    ensures Shr(v, n) <= Shr(w, n)
  {
    if n > 0 { ShrMono(v / 2, w / 2, n - 1); }
  }

  lemma {:induction false} RevInjective(v: nat, w: nat, n: nat)
    requires v < Pow2(n) && w < Pow2(n) && Rev(v, n) == Rev(w, n)
    ensures v == w
  {
    RevMsb(v, n);
    RevMsb(w, n);
    ValueLsb(v, n);
    ValueLsb(w, n);
    LowSmall(v, n);
    LowSmall(w, n);
  }

  /**
   No code is a prefix of another: whatever bit window starts with the code of `n`
   does not start with the code of a different symbol `m` that is no longer.
   */
  lemma {:induction false} PrefixFree(lens: seq<nat>, limit: nat, m: nat, n: nat)
    requires Kraft(lens, limit) && m < |lens| && n < |lens| && m != n
    requires 0 < lens[m] <= lens[n]
    ensures Low(ReversedCode(lens, n), lens[m]) != ReversedCode(lens, m)
  {
    hide Low, Rev, Shr, Pow2, FirstCode, CountBefore;
    var g, h := lens[m], lens[n];
    var c, d := Code(lens, m), Code(lens, n);
    CodeFits(lens, limit, m);
    CodeFits(lens, limit, n);
    if g == h {
      LowSmall(Rev(d, g), g);
      if m < n { CountMono(lens, g, m, n); } else { CountMono(lens, g, n, m); }
      if Rev(d, g) == Rev(c, g) { RevInjective(d, c, g); }
    } else {
      var top := Shr(d, h - g);
      RevAppend(d, h - g, g);
      LowOfSum(Rev(top, g), Rev(d, h - g), g);
      LongerCodesComeLater(lens, g, h);
      ShrMono(Shl(EndCode(lens, g), h - g), d, h - g);
      LowOfSum(0, EndCode(lens, g), h - g);
      TopFits(d, h - g, g);
      if Rev(top, g) == Rev(c, g) { RevInjective(top, c, g); }
    }
  }

  lemma {:induction false} TopFits(v: nat, m: nat, n: nat)
    requires v < Pow2(m + n)
    ensures Shr(v, m) < Pow2(n)
  {
    if m > 0 { TopFits(v / 2, m - 1, n); }
  }

  // ----- the compressor's code assignment

  lemma {:induction false} RevStep(v: nat, m: nat)
    ensures Rev(v, m + 1) == 2 * Rev(v, m) + Shr(v, m) % 2
    ensures Shr(v, m + 1) == Shr(v, m) / 2
  {
    RevAppend(v, m, 1);
    ShrAdd(v, m, 1);
    assert Rev(Shr(v, m), 1) == Shl(Shr(v, m) % 2, 0) + Rev(Shr(v, m) / 2, 0);
    assert Shl(Rev(v, m), 1) == 2 * Shl(Rev(v, m), 0);
    assert Shr(Shr(v, m), 1) == Shr(Shr(v, m) / 2, 0);
  }

  /** The lowest `n` bits of a number in the opposite order, moved over one at a time. */
  method ReverseLow(v: nat, n: nat) returns (r: nat)
    ensures r == Rev(v, n)
  {
    r := 0;
    var rest := v;
    for m := 0 to n
      invariant r == Rev(v, m) && rest == Shr(v, m)
    {
      RevStep(v, m);
      r, rest := 2 * r + rest % 2, rest / 2;
    }
  }

  /** How many symbols there are of each length. */
  method CountLengths(lens: Lengths) returns (count: array<nat>)
    ensures fresh(count) && count.Length == 17
    ensures forall g :: 0 <= g <= 16 ==> count[g] == CountBefore(lens, g, |lens|)
  {
    count := new nat[17](_ => 0);
    for i := 0 to |lens|
      invariant forall g :: 0 <= g <= 16 ==> count[g] == CountBefore(lens, g, i)
    {
      count[lens[i]] := count[lens[i]] + 1;
    }
  }

  lemma {:induction false} FirstCodeStep(lens: seq<nat>, g: nat)
    ensures FirstCode(lens, g + 1) == if g == 0 then 0 else 2 * (FirstCode(lens, g) + CountBefore(lens, g, |lens|))
  {
  }

  method FirstCodes(lens: Lengths) returns (start: array<nat>)
    ensures fresh(start) && start.Length == 17
    ensures forall g :: 1 <= g <= 16 ==> start[g] == FirstCode(lens, g)
  {
    hide CountBefore, FirstCode;
    var count := CountLengths(lens);
    FirstCodeStep(lens, 0);
    start := new nat[17](_ => 0);
    var code := 0;
    for g := 1 to 17
      invariant code == FirstCode(lens, g)
      invariant forall j :: 0 <= j <= 16 ==> count[j] == CountBefore(lens, j, |lens|)
      invariant forall j :: 1 <= j < g ==> start[j] == FirstCode(lens, j)
    {
      FirstCodeStep(lens, g);
      start[g] := code;
      code := code + count[g];
      code := 2 * code;
    }
  }

  lemma {:induction false} NoBits(v: nat, w: nat)
    ensures Rev(v, 0) == Rev(w, 0)
  {
  }

  /** The codes to hand to the bit writer, one for each symbol. */
  method AssignCodes(lens: Lengths) returns (codes: seq<nat>)
    ensures |codes| == |lens|
    ensures forall i :: 0 <= i < |lens| ==> codes[i] == ReversedCode(lens, i)
  {
    hide FirstCode, Rev;
    var next := FirstCodes(lens);
    codes := [];
    for i := 0 to |lens|
      invariant |codes| == i
      invariant forall j :: 0 <= j < i ==> codes[j] == ReversedCode(lens, j)
      invariant forall g :: 1 <= g <= 16 ==> next[g] == FirstCode(lens, g) + CountBefore(lens, g, i)
    {
      var code := next[lens[i]];
      next[lens[i]] := next[lens[i]] + 1;
      var reversed := ReverseLow(code, lens[i]);
      if lens[i] == 0 { NoBits(code, Code(lens, i)); }
      codes := codes + [reversed];
    }
  }

  // ----- the decompressor's lookup table

  /** A table cell: the code length in the high half, the symbol in the low half. */
  function Cell(lens: seq<nat>, n: nat): nat
    requires n < |lens|
  {
    lens[n] * 0x10000 + n
  }

  /** The cell names a length within the table's width and an existing symbol. */
  predicate CellInRange(cell: nat, width: nat, size: nat) {
    cell / 0x10000 <= width && cell % 0x10000 < size
  }

  /** The bit window `t` starts with the code of symbol `n`. */
  ghost predicate Starts(lens: seq<nat>, t: nat, n: nat) {
    n < |lens| && 0 < lens[n] && Low(t, lens[n]) == ReversedCode(lens, n)
  }

  /** The symbols the table building has handled when it reaches symbol `n` of length `g`. */
  ghost predicate Handled(lens: seq<nat>, g: nat, n: nat, i: nat) {
    i < |lens| && 0 < lens[i] && (lens[i] < g || (lens[i] == g && i < n))
  }

  ghost predicate Filled(cells: seq<nat>, lens: seq<nat>, g: nat, n: nat) {
    forall t: nat :: t < |cells| ==> CellFilled(cells[t], t, lens, g, n)
  }

  ghost predicate CellFilled(cell: nat, t: nat, lens: seq<nat>, g: nat, n: nat) {
    && (forall i: nat :: Handled(lens, g, n, i) && Starts(lens, t, i) ==> cell == Cell(lens, i))
    && ((forall i: nat :: Handled(lens, g, n, i) ==> !Starts(lens, t, i)) ==> cell == 0)
  }

  /** The finished table: a window gets the one symbol whose code it starts with, or 0. */
  ghost predicate IsTable(cells: seq<nat>, lens: seq<nat>, width: nat) {
    && |cells| == Pow2(width)
    && (forall i :: 0 <= i < |lens| ==> lens[i] <= width)
    && Filled(cells, lens, width + 1, 0)
  }

  /** Two windows that agree in their low `g` bits are `Pow2(g)` or more apart. */
  lemma {:induction false} LowPeriod(t: nat, u: nat, g: nat)
    requires t < u < t + Pow2(g)
    ensures Low(t, g) != Low(u, g)
  {
    if g > 0 && t % 2 == u % 2 {
      LowPeriod(t / 2, u / 2, g - 1);
    }
  }

  lemma {:induction false} LowNext(t: nat, g: nat)
    ensures Low(t + Pow2(g), g) == Low(t, g)
  {
    if g > 0 {
      assert (t + Pow2(g)) / 2 == t / 2 + Pow2(g - 1);
      LowNext(t / 2, g - 1);
    }
  }

  /** Writes the cell of every window whose low `g` bits are `m`. */
  method FillWindows(cells: array<nat>, m: nat, g: nat, cell: nat)
    requires m < Pow2(g)
    modifies cells
    ensures forall t: nat :: t < cells.Length ==>
      cells[t] == if Low(t, g) == m then cell else old(cells[t])
  {
    var t := m;
    LowSmall(m, g);
    forall u: nat | u < m ensures Low(u, g) != m {
      LowPeriod(u, m, g);
    }
    while t < cells.Length
      invariant Low(t, g) == m
      invariant forall u: nat :: u < cells.Length ==>
        cells[u] == if u < t && Low(u, g) == m then cell else old(cells[u])
    {
      cells[t] := cell;
      forall u: nat | t < u < t + Pow2(g) ensures Low(u, g) != m {
        LowPeriod(t, u, g);
      }
      LowNext(t, g);
      t := t + Pow2(g);
    }
  }

  /** Handling symbol `n` of length `g` keeps the table right, because no other code claims its windows. */
  lemma {:induction false} FillStep(before: seq<nat>, after: seq<nat>, lens: seq<nat>, limit: nat, g: nat, n: nat)
    requires Kraft(lens, limit) && n < |lens| && lens[n] == g && 0 < g
    requires |after| == |before| && Filled(before, lens, g, n)
    requires forall t: nat :: t < |before| ==>
      after[t] == if Low(t, g) == ReversedCode(lens, n) then Cell(lens, n) else before[t]
    ensures Filled(after, lens, g, n + 1)
  {
    forall t: nat | t < |after| ensures CellFilled(after[t], t, lens, g, n + 1) {
      assert CellFilled(before[t], t, lens, g, n);
      forall i: nat | Handled(lens, g, n + 1, i) && Starts(lens, t, i)
        ensures after[t] == Cell(lens, i)
      {
        if i != n {
          assert Handled(lens, g, n, i);
          if Starts(lens, t, n) {
            PrefixFree(lens, limit, i, n);
            LowLow(t, g, lens[i]);
          }
        }
      }
      if forall i: nat :: Handled(lens, g, n + 1, i) ==> !Starts(lens, t, i) {
        assert Handled(lens, g, n + 1, n);
        forall i: nat | Handled(lens, g, n, i) ensures !Starts(lens, t, i) {
          assert Handled(lens, g, n + 1, i);
        }
      }
    }
  }

  lemma {:induction false} FilledSame(cells: seq<nat>, lens: seq<nat>, g: nat, n: nat, g': nat, n': nat)
    requires Filled(cells, lens, g, n)
    requires forall i: nat :: Handled(lens, g, n, i) <==> Handled(lens, g', n', i)
    ensures Filled(cells, lens, g', n')
  {
    forall t: nat | t < |cells| ensures CellFilled(cells[t], t, lens, g', n') {
      assert CellFilled(cells[t], t, lens, g, n);
    }
  }

  method LongestAndShortest(lens: Lengths) returns (longest: nat, shortest: nat)
    requires |lens| > 0
    ensures longest <= 15 && (forall i :: 0 <= i < |lens| ==> shortest <= lens[i] <= longest)
    ensures shortest in lens && longest in lens
  {
    longest, shortest := lens[0], lens[0];
    var i := 1;
    while i < |lens|
      invariant i <= |lens| && longest <= 15
      invariant forall j :: 0 <= j < i ==> shortest <= lens[j] <= longest
      invariant shortest in lens && longest in lens
    {
      if lens[i] > longest { longest := lens[i]; }
      if lens[i] < shortest { shortest := lens[i]; }
      i := i + 1;
    }
  }

  datatype Table = Table(cells: seq<nat>, longest: nat, shortest: nat)

  /** One length's pass of the table building: every symbol of length `g`, in order. */
  method FillLength(cells: array<nat>, lens: Lengths, width: nat, g: nat, first: nat) returns (next: nat)
    requires 0 < g <= width && cells.Length == Pow2(width) && first == FirstCode(lens, g)
    requires Kraft(lens, width) ==> Filled(cells[..], lens, g, 0)
    requires |lens| <= 0x10000 && forall t :: 0 <= t < cells.Length ==> CellInRange(cells[t], width, |lens|)
    modifies cells
    ensures next == EndCode(lens, g)
    ensures Kraft(lens, width) ==> Filled(cells[..], lens, g + 1, 0)
    ensures forall t :: 0 <= t < cells.Length ==> CellInRange(cells[t], width, |lens|)
  {
    hide Filled, Kraft, FirstCode, Rev, Pow2;
    next := first;
    for n := 0 to |lens|
      invariant next == first + CountBefore(lens, g, n)
      invariant Kraft(lens, width) ==> Filled(cells[..], lens, g, n)
      invariant forall t :: 0 <= t < cells.Length ==> CellInRange(cells[t], width, |lens|)
    {
      ghost var before := cells[..];
      if lens[n] == g {
        var m := ReverseLow(next, g);
        FillWindows(cells, m, g, g * 0x10000 + n);
        if Kraft(lens, width) {
          FillStep(before, cells[..], lens, width, g, n);
        }
        next := next + 1;
      } else if Kraft(lens, width) {
        FilledSame(before, lens, g, n, g, n + 1);
      }
    }
    if Kraft(lens, width) {
      FilledSame(cells[..], lens, g, |lens|, g + 1, 0);
    }
  }

  /**
   The lookup table over windows as wide as the longest code.  Any lengths are accepted;
   when they meet the Kraft inequality every window is decoded correctly.
   */
  method BuildTable(lens: Lengths) returns (table: Table)
    requires 0 < |lens| <= 0x10000
    ensures table.longest <= 15 && |table.cells| == Pow2(table.longest)
    ensures table.shortest in lens && table.longest in lens
    ensures forall i :: 0 <= i < |lens| ==> table.shortest <= lens[i] <= table.longest
    ensures Kraft(lens, table.longest) ==> IsTable(table.cells, lens, table.longest)
    ensures forall t :: 0 <= t < |table.cells| ==> CellInRange(table.cells[t], table.longest, |lens|)
  {
    var longest, shortest := LongestAndShortest(lens);
    var cells := new nat[Pow2(longest)](_ => 0);
    var g, next := 1, 0;
    FilledInitially(cells[..], lens);
    while g <= longest
      invariant 1 <= g <= longest + 1
      invariant next == FirstCode(lens, g)
      invariant Kraft(lens, longest) ==> Filled(cells[..], lens, g, 0)
      invariant forall t :: 0 <= t < cells.Length ==> CellInRange(cells[t], longest, |lens|)
    {
      next := FillLength(cells, lens, longest, g, next);
      g, next := g + 1, 2 * next;
    }
    table := Table(cells[..], longest, shortest);
  }

  lemma {:induction false} FilledInitially(cells: seq<nat>, lens: seq<nat>)
    requires forall t :: 0 <= t < |cells| ==> cells[t] == 0
    ensures Filled(cells, lens, 1, 0)
  {
  }
}
