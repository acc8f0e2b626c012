/** The compressor (`RawDeflate.compress`, minified `ka.h`) with dynamic Huffman codes. */
module RawDeflate {
  import opened Options
  import opened Bits
  import opened BitWriters
  import opened HuffmanCodes
  import opened CodeLengths
  import opened RunLengths
  import opened RunLengthEncoders
  import opened Tokens
  import opened Lz77Matching
  import opened DeflateFormat
  import opened BlockReading

  // ----- bits of growing lists

  lemma {:induction false} OpsBitsAppend(ops: seq<Op>, op: Op, clens: seq<nat>)
    requires AllWellFormed(ops) && WellFormed(op) && |clens| == 19
    ensures AllWellFormed(ops + [op]) && OpsBits(ops + [op], clens) == OpsBits(ops, clens) + OpBits(op, clens)
  {
    if |ops| == 0 {
      assert (ops + [op])[1..] == [];
    } else {
      assert (ops + [op])[1..] == ops[1..] + [op];
      OpsBitsAppend(ops[1..], op, clens);
    }
  }

  lemma {:induction false} TokensBitsAppend(tokens: seq<Token>, t: Token, lit: seq<nat>, dist: seq<nat>)
    requires AllWritable(tokens) && Allowed(t, 32768) && |lit| == 286 && |dist| == 30
    ensures AllWritable(tokens + [t])
    ensures TokensBits(tokens + [t], lit, dist) == TokensBits(tokens, lit, dist) + TokenBits(t, lit, dist)
  {
    hide TokenBits;
    if |tokens| == 0 {
      assert (tokens + [t])[1..] == [];
    } else {
      assert (tokens + [t])[1..] == tokens[1..] + [t];
      TokensBitsAppend(tokens[1..], t, lit, dist);
    }
  }

  /** Where operation `i` stands in the flat list. */
  lemma {:induction false} FlatAt(ops: seq<Op>, i: nat)
    requires i < |ops|
    ensures Flat(ops[..i + 1]) == Flat(ops[..i]) + FlatOp(ops[i])
    ensures Flat(ops[..i]) + FlatOp(ops[i]) <= Flat(ops)
  {
    assert ops[..i + 1][..i] == ops[..i];
    assert ops == ops[..i + 1] + ops[i + 1..];
    FlatAppend(ops[..i + 1], ops[i + 1..]);
  }

  lemma {:induction false} FlatTokensConcat(a: seq<Token>, b: seq<Token>)
    requires AllWritable(a) && AllWritable(b)
    ensures AllWritable(a + b) && FlatTokens(a + b) == FlatTokens(a) + FlatTokens(b)
  {
    hide FlatToken;
    if |b| == 0 {
      assert a + b == a;
    } else {
      assert (a + b)[..|a + b| - 1] == a + b[..|b| - 1];
      FlatTokensConcat(a, b[..|b| - 1]);
    }
  }

  lemma {:induction false} FlatTokenAt(tokens: seq<Token>, i: nat)
    requires AllWritable(tokens) && i < |tokens|
    ensures FlatTokens(tokens[..i + 1]) == FlatTokens(tokens[..i]) + FlatToken(tokens[i])
    ensures FlatTokens(tokens[..i]) + FlatToken(tokens[i]) <= FlatTokens(tokens)
  {
    hide FlatToken;
    assert tokens[..i + 1][..i] == tokens[..i];
    assert tokens == tokens[..i + 1] + tokens[i + 1..];
    FlatTokensConcat(tokens[..i + 1], tokens[i + 1..]);
  }

  /** A code and the lengths it was assigned from, as the bit writer needs them. */
  ghost predicate CodeFor(codes: seq<nat>, lens: seq<nat>) {
    && |codes| == |lens|
    && forall i :: 0 <= i < |lens| ==> lens[i] <= 15 && codes[i] == ReversedCode(lens, i)
  }

  method WriteSymbol(w: BitWriter, codes: seq<nat>, lens: seq<nat>, symbol: nat)
    requires w.Valid() && CodeFor(codes, lens) && symbol < |lens|
    modifies w, w.buffer
    ensures w.Valid() && (w.buffer == old(w.buffer) || fresh(w.buffer))
    ensures w.Written() == old(w.Written()) + CodeBits(lens, symbol)
  {
    CodeBitsAreLsb(lens, symbol);
    w.Write(codes[symbol], lens[symbol], true);
  }

  // ----- the header

  /** Leaves out the unused symbols at the end of an alphabet, as far as the format allows. */
  method LastUsed(lens: seq<nat>, least: nat) returns (n: nat)
    requires 0 < least <= |lens|
    ensures least <= n <= |lens| && UnusedFrom(lens, n) && (n == least || lens[n - 1] > 0)
  {
    n := |lens|;
    while least < n && 0 == lens[n - 1]
      invariant least <= n <= |lens| && UnusedFrom(lens, n)
    {
      n := n - 1;
    }
  }

  /** The code length lengths in sending order, and how many of them are sent. */
  method Ordered(clens: seq<nat>) returns (inOrder: seq<nat>, p: nat)
    requires |clens| == 19
    ensures |inOrder| == 19 && forall i :: 0 <= i < 19 ==> inOrder[i] == clens[Order(i)]
    ensures 4 <= p <= 19 && (forall i :: p <= i < 19 ==> clens[Order(i)] == 0) && (p == 4 || clens[Order(p - 1)] > 0)
  {
    hide Order;
    inOrder := [];
    for y := 0 to 19
      invariant |inOrder| == y && forall i :: 0 <= i < y ==> inOrder[i] == clens[Order(i)]
    {
      inOrder := inOrder + [clens[Order(y)]];
    }
    p := LastUsed(inOrder, 4);
    forall i | p <= i < 19 ensures clens[Order(i)] == 0 {
      assert inOrder[i] == 0;
    }
  }

  method WriteOrder(w: BitWriter, inOrder: seq<nat>, p: nat, ghost clens: seq<nat>)
    requires w.Valid() && p <= 19 == |clens| == |inOrder|
    requires forall i :: 0 <= i < 19 ==> inOrder[i] == clens[Order(i)] && inOrder[i] < 8
    modifies w, w.buffer
    ensures w.Valid() && (w.buffer == old(w.buffer) || fresh(w.buffer))
    ensures w.Written() == old(w.Written()) + OrderBits(clens, p)
  {
    hide Order, OrderBits, Lsb, Msb, BytesBits, Packed, Pow2, BitWriter.Written;
    ghost var start := w.Written();
    SmallPowers();
    OrderBitsStep(start, clens, 0);
    for y := 0 to p
      invariant w.Valid() && (w.buffer == old(w.buffer) || fresh(w.buffer))
      invariant w.Written() == start + OrderBits(clens, y)
    {
      w.Write(inOrder[y], 3, true);
      OrderBitsStep(start, clens, y);
    }
  }

  lemma {:induction false} OrderBitsStep(start: seq<bool>, clens: seq<nat>, y: nat)
    requires |clens| == 19 && y < 19
    ensures start + OrderBits(clens, y) + Lsb(clens[Order(y)], 3) == start + OrderBits(clens, y + 1)
    ensures y == 0 ==> start + OrderBits(clens, y) == start
  {
    hide Order, Lsb;
  }

  /** Writes one operation from its one or two cells. */
  method WriteOp(w: BitWriter, flat: seq<nat>, y: nat, codes: seq<nat>, clens: seq<nat>, ghost op: Op)
      returns (next: nat)
    requires w.Valid() && CodeFor(codes, clens) && |clens| == 19 && WellFormed(op)
    requires y + |FlatOp(op)| <= |flat| && flat[y..y + |FlatOp(op)|] == FlatOp(op)
    modifies w, w.buffer
    ensures w.Valid() && (w.buffer == old(w.buffer) || fresh(w.buffer))
    ensures w.Written() == old(w.Written()) + OpBits(op, clens) && next == y + |FlatOp(op)|
  {
    hide BytesBits, Pow2, Kraft, Lsb, Msb, Packed, BitWriter.Written, CodeBits;
    ghost var start := w.Written();
    OpFits(op);
    assert flat[y] == FlatOp(op)[0];
    var q := flat[y];
    WriteSymbol(w, codes, clens, q);
    next := y + 1;
    if 16 <= q {
      assert flat[y + 1] == FlatOp(op)[1];
      var width := if q == 16 then 2 else if q == 17 then 3 else 7;
      w.Write(flat[next], width, true);
      assert start + CodeBits(clens, q) + Lsb(op.extra, width) == start + OpBits(op, clens);
      next := next + 1;
    } else {
      assert start + CodeBits(clens, q) == start + OpBits(op, clens);
    }
  }

  /** Writes operation `i`, which starts at cell `y`. */
  method WriteOpAt(w: BitWriter, flat: seq<nat>, y: nat, codes: seq<nat>, clens: seq<nat>, ghost ops: seq<Op>,
      ghost i: nat)
      returns (next: nat)
    requires w.Valid() && CodeFor(codes, clens) && |clens| == 19
    requires AllWellFormed(ops) && flat == Flat(ops) && i < |ops| && y == |Flat(ops[..i])|
    modifies w, w.buffer
    ensures w.Valid() && (w.buffer == old(w.buffer) || fresh(w.buffer))
    ensures AllWellFormed(ops[..i]) && w.Written() == old(w.Written()) + OpBits(ops[i], clens)
    ensures next == |Flat(ops[..i + 1])|
  {
    hide OpBits, BytesBits, CodeFor, Flat;
    FlatAt(ops, i);
    next := WriteOp(w, flat, y, codes, clens, ops[i]);
  }

  method WriteOps(w: BitWriter, flat: seq<nat>, codes: seq<nat>, clens: seq<nat>, ghost ops: seq<Op>)
    requires w.Valid() && CodeFor(codes, clens) && |clens| == 19
    requires AllWellFormed(ops) && flat == Flat(ops)
    modifies w, w.buffer
    ensures w.Valid() && (w.buffer == old(w.buffer) || fresh(w.buffer))
    ensures w.Written() == old(w.Written()) + OpsBits(ops, clens)
  {
    hide OpBits, BytesBits, CodeFor, OpsBits, Flat;
    ghost var start := w.Written();
    var y := 0;
    ghost var i := 0;
    NoOps(ops, clens);
    FlatRemains(ops, 0);
    while y < |flat|
      invariant w.Valid() && (w.buffer == old(w.buffer) || fresh(w.buffer))
      invariant i <= |ops| && y == |Flat(ops[..i])| <= |flat| && AllWellFormed(ops[..i])
      invariant y == |flat| <==> i == |ops|
      invariant w.Written() == start + OpsBits(ops[..i], clens)
      decreases |ops| - i
    {
      y := WriteOpAt(w, flat, y, codes, clens, ops, i);
      OpsBitsGrow(start, ops, i, clens);
      i := i + 1;
      FlatRemains(ops, i);
    }
    assert ops[..i] == ops;
  }

  lemma {:induction false} NoOps(ops: seq<Op>, clens: seq<nat>)
    requires |clens| == 19
    ensures |Flat(ops[..0])| == 0 && OpsBits(ops[..0], clens) == []
  {
  }

  lemma {:induction false} OpsBitsGrow(start: seq<bool>, ops: seq<Op>, i: nat, clens: seq<nat>)
    requires AllWellFormed(ops) && i < |ops| && |clens| == 19
    ensures AllWellFormed(ops[..i]) && AllWellFormed(ops[..i + 1])
    ensures start + OpsBits(ops[..i], clens) + OpBits(ops[i], clens) == start + OpsBits(ops[..i + 1], clens)
  {
    hide OpBits;
    OpsBitsAppend(ops[..i], ops[i], clens);
    assert ops[..i + 1] == ops[..i] + [ops[i]];
  }

  /** The flat list is used up exactly when the operations are. */
  lemma {:induction false} FlatRemains(ops: seq<Op>, i: nat)
    requires i <= |ops|
    ensures |Flat(ops[..i])| == |Flat(ops)| <==> i == |ops|
    ensures |Flat(ops[..i])| <= |Flat(ops)|
  {
    if i < |ops| {
      FlatAt(ops, i);
    } else {
      assert ops[..i] == ops;
    }
  }

  // ----- the body

  /** The codes of both alphabets, as the body needs them. */
  datatype BodyCodes = BodyCodes(litCodes: seq<nat>, lit: seq<nat>, distCodes: seq<nat>, dist: seq<nat>) {
    ghost predicate Valid() {
      CodeFor(litCodes, lit) && CodeFor(distCodes, dist) && |lit| == 286 && |dist| == 30
    }
  }

  method WriteMatch(w: BitWriter, flat: seq<nat>, y: nat, c: BodyCodes, ghost t: Token)
    requires w.Valid() && c.Valid() && t.Match? && Allowed(t, 32768)
    requires y + 6 <= |flat| && flat[y..y + 6] == FlatToken(t)
    modifies w, w.buffer
    ensures w.Valid() && (w.buffer == old(w.buffer) || fresh(w.buffer))
    ensures w.Written() == old(w.Written()) + TokenBits(t, c.lit, c.dist)
  {
    hide BytesBits, Pow2, Kraft, LengthCode, DistanceCode, Lsb, CodeBits, LengthBits, LengthBase, DistanceBits,
      DistanceBase;
    ghost var start := w.Written();
    LengthCodeInverse(t.length);
    DistanceCodeInverse(t.distance);
    ghost var l, d := LengthCode(t.length), DistanceCode(t.distance);
    SixCells(flat, y, [l.symbol, l.extra, l.bits, d.symbol, d.extra, d.bits]);
    WriteSymbol(w, c.litCodes, c.lit, flat[y]);
    w.Write(flat[y + 1], flat[y + 2], true);
    WriteSymbol(w, c.distCodes, c.dist, flat[y + 3]);
    w.Write(flat[y + 4], flat[y + 5], true);
    FourWritten(start, CodeBits(c.lit, l.symbol), Lsb(l.extra, l.bits),
      CodeBits(c.dist, d.symbol), Lsb(d.extra, d.bits));
  }

  lemma {:induction false} SixCells(flat: seq<nat>, y: nat, six: seq<nat>)
    requires y + 6 <= |flat| && |six| == 6 && flat[y..y + 6] == six
    ensures flat[y] == six[0] && flat[y + 1] == six[1] && flat[y + 2] == six[2]
    ensures flat[y + 3] == six[3] && flat[y + 4] == six[4] && flat[y + 5] == six[5]
  {
    assert forall k :: 0 <= k < 6 ==> six[k] == flat[y + k];
  }

  lemma {:induction false} FourWritten(start: seq<bool>, a: seq<bool>, b: seq<bool>, c: seq<bool>, d: seq<bool>)
    ensures start + a + b + c + d == start + (a + b + (c + d))
  {
  }

  /** Token `i`, which starts at cell `y`. */
  method WriteTokenAt(w: BitWriter, flat: seq<nat>, y: nat, c: BodyCodes, ghost tokens: seq<Token>, ghost i: nat)
      returns (next: nat)
    requires w.Valid() && c.Valid() && AllWritable(tokens) && i < |tokens|
    requires flat == FlatTokens(tokens) + [END_OF_BLOCK] && y == |FlatTokens(tokens[..i])|
    modifies w, w.buffer
    ensures w.Valid() && (w.buffer == old(w.buffer) || fresh(w.buffer))
    ensures w.Written() == old(w.Written()) + TokenBits(tokens[i], c.lit, c.dist)
    ensures next == |FlatTokens(tokens[..i + 1])| < |flat|
  {
    hide FlatTokens, LengthCode, DistanceCode, BytesBits, Pow2, Kraft, CodeBits;
    ghost var t := tokens[i];
    FlatTokenAt(tokens, i);
    TokenCells(flat, y, t, FlatTokens(tokens[..i]), FlatTokens(tokens));
    var z := flat[y];
    if 256 < z {
      WriteMatch(w, flat, y, c, t);
      next := y + 6;
    } else {
      WriteSymbol(w, c.litCodes, c.lit, z);
      next := y + 1;
    }
  }

  lemma {:induction false} TokenCells(flat: seq<nat>, y: nat, t: Token, before: seq<nat>, all: seq<nat>)
    requires Allowed(t, 32768) && flat == all + [END_OF_BLOCK] && before + FlatToken(t) <= all && y == |before|
    ensures |FlatToken(t)| == if t.Match? then 6 else 1
    ensures y + |FlatToken(t)| < |flat| && flat[y..y + |FlatToken(t)|] == FlatToken(t)
    ensures if t.Match? then flat[y] > 256 else flat[y] == t.value
  {
    hide LengthCode, DistanceCode;
    if t.Match? { LengthCodeInverse(t.length); }
    assert flat[y] == FlatToken(t)[0];
  }

  method WriteTokens(w: BitWriter, flat: seq<nat>, c: BodyCodes, ghost tokens: seq<Token>)
    requires w.Valid() && c.Valid() && AllWritable(tokens) && flat == FlatTokens(tokens) + [END_OF_BLOCK]
    modifies w, w.buffer
    ensures w.Valid() && (w.buffer == old(w.buffer) || fresh(w.buffer))
    ensures w.Written() == old(w.Written()) + TokensBits(tokens, c.lit, c.dist) + CodeBits(c.lit, END_OF_BLOCK)
  {
    hide FlatTokens, TokensBits, TokenBits, BytesBits, Pow2, Kraft, CodeBits, CodeFor;
    ghost var start := w.Written();
    var y := 0;
    ghost var i := 0;
    NoTokens(tokens, c.lit, c.dist);
    EndCell(flat, tokens, 0);
    while flat[y] != END_OF_BLOCK
      invariant w.Valid() && (w.buffer == old(w.buffer) || fresh(w.buffer))
      invariant i <= |tokens| && AllWritable(tokens[..i]) && y == |FlatTokens(tokens[..i])| < |flat|
      invariant flat[y] == END_OF_BLOCK <==> i == |tokens|
      invariant w.Written() == start + TokensBits(tokens[..i], c.lit, c.dist)
      decreases |tokens| - i
    {
      y := WriteTokenAt(w, flat, y, c, tokens, i);
      TokensBitsGrow(start, tokens, i, c.lit, c.dist);
      i := i + 1;
      EndCell(flat, tokens, i);
    }
    assert tokens[..i] == tokens;
    WriteSymbol(w, c.litCodes, c.lit, flat[y]);
  }

  lemma {:induction false} NoTokens(tokens: seq<Token>, lit: seq<nat>, dist: seq<nat>)
    requires |lit| == 286 && |dist| == 30
    ensures |FlatTokens(tokens[..0])| == 0 && TokensBits(tokens[..0], lit, dist) == []
  {
  }

  lemma {:induction false} TokensBitsGrow(start: seq<bool>, tokens: seq<Token>, i: nat, lit: seq<nat>, dist: seq<nat>)
    requires AllWritable(tokens) && i < |tokens| && |lit| == 286 && |dist| == 30
    ensures AllWritable(tokens[..i]) && AllWritable(tokens[..i + 1])
    ensures start + TokensBits(tokens[..i], lit, dist) + TokenBits(tokens[i], lit, dist)
         == start + TokensBits(tokens[..i + 1], lit, dist)
  {
    hide TokenBits;
    TokensBitsAppend(tokens[..i], tokens[i], lit, dist);
    assert tokens[..i + 1] == tokens[..i] + [tokens[i]];
  }

  /** The end mark is met when all tokens are written, not before. */
  lemma {:induction false} EndCell(flat: seq<nat>, tokens: seq<Token>, i: nat)
    requires AllWritable(tokens) && i <= |tokens| && flat == FlatTokens(tokens) + [END_OF_BLOCK]
    ensures var y := |FlatTokens(tokens[..i])|;
      y < |flat| && (flat[y] == END_OF_BLOCK <==> i == |tokens|)
  {
    hide FlatTokens;
    if i < |tokens| {
      FlatTokenAt(tokens, i);
      TokenCells(flat, |FlatTokens(tokens[..i])|, tokens[i], FlatTokens(tokens[..i]), FlatTokens(tokens));
    } else {
      assert tokens[..i] == tokens;
    }
  }

  // ----- the compressor

  /** A symbol that a token uses has been counted. */
  lemma {:induction false} UsedIsCounted(tokens: seq<Token>, i: nat)
    requires AllWritable(tokens) && i < |tokens|
    ensures LiteralCount(tokens, SymbolOf(tokens[i])) > 0
    ensures tokens[i].Match? ==> DistanceCount(tokens, DistanceCode(tokens[i].distance).symbol) > 0
  {
    hide LengthCode, DistanceCode, SymbolOf;
    if i < |tokens| - 1 { UsedIsCounted(tokens[..|tokens| - 1], i); }
  }

  lemma {:induction false} OpIsCounted(ops: seq<Op>, i: nat)
    requires i < |ops|
    ensures Frequency(ops, ops[i].symbol) > 0
  {
    if i < |ops| - 1 { OpIsCounted(ops[..|ops| - 1], i); }
  }

  lemma {:induction false} SymbolInRange(t: Token)
    requires Allowed(t, 32768)
    ensures SymbolOf(t) < 286 && (t.Match? ==> DistanceCode(t.distance).symbol < 30)
  {
    hide LengthCode, DistanceCode;
    if t.Match? {
      LengthCodeInverse(t.length);
      DistanceCodeInverse(t.distance);
    }
  }

  lemma {:induction false} CountedHaveCodes(tokens: seq<Token>, litFreq: seq<nat>, distFreq: seq<nat>, lit: seq<nat>,
      dist: seq<nat>)
    requires AllWritable(tokens) && |litFreq| == |lit| == 286 && |distFreq| == |dist| == 30
    requires forall s :: 0 <= s < 286 ==> litFreq[s] >= LiteralCount(tokens, s)
    requires forall s :: 0 <= s < 30 ==> distFreq[s] == DistanceCount(tokens, s)
    requires forall s :: 0 <= s < 286 ==> (lit[s] > 0 <==> litFreq[s] > 0)
    requires forall s :: 0 <= s < 30 ==> (dist[s] > 0 <==> distFreq[s] > 0)
    ensures TokensHaveCodes(tokens, lit, dist)
  {
    hide LengthCode, DistanceCode, SymbolOf, LiteralCount, DistanceCount;
    forall i | 0 <= i < |tokens| ensures TokenHasCodes(tokens[i], lit, dist) {
      SymbolInRange(tokens[i]);
      UsedIsCounted(tokens, i);
    }
  }

  /** The counts of the literal/length symbols, as the matcher has them: the end of the block is counted twice. */
  ghost function LiteralCounts(tokens: seq<Token>): (counts: seq<nat>)
    requires AllWritable(tokens)
    ensures |counts| == 286
    ensures forall s :: 0 <= s < 286 ==> counts[s] == LiteralCount(tokens, s) + if s == END_OF_BLOCK then 2 else 0
  {
    seq(286, s requires 0 <= s => LiteralCount(tokens, s) + if s == END_OF_BLOCK then 2 else 0)
  }

  ghost function DistanceCounts(tokens: seq<Token>): (counts: seq<nat>)
    requires AllWritable(tokens)
    ensures |counts| == 30 && forall s :: 0 <= s < 30 ==> counts[s] == DistanceCount(tokens, s)
  {
    seq(30, s requires 0 <= s => DistanceCount(tokens, s))
  }

  ghost function OpCounts(ops: seq<Op>): (counts: seq<nat>)
    ensures |counts| == 19 && forall k :: 0 <= k < 19 ==> counts[k] == Frequency(ops, k)
  {
    seq(19, k requires 0 <= k => Frequency(ops, k))
  }

  /**
   The two codes are the cheapest for these counts, unless one that occurs is stored as zero, and are sent no further
   than their last used symbols.
   */
  ghost predicate CheapCodes(litFreq: seq<nat>, distFreq: seq<nat>, lit: seq<nat>, dist: seq<nat>, n: nat, m: nat) {
    && (CountsSurvive(litFreq) ==> CheapestCode(lit, Stored(litFreq), 15))
    && (CountsSurvive(distFreq) ==> CheapestCode(dist, Stored(distFreq), 7))
    && 0 < n <= |lit| && (n == 257 || lit[n - 1] > 0) && 0 < m <= |dist| && (m == 1 || dist[m - 1] > 0)
  }

  /** The same of the code for the header, which has no large counts. */
  ghost predicate CheapHeader(lengths: seq<nat>, clens: seq<nat>, p: nat) {
    && CheapestCode(clens, OpCounts(EncodeFrom(lengths, 0)), 7)
    && |clens| == 19 && 4 <= p <= 19 && (p == 4 || clens[Order(p - 1)] > 0)
  }

  /** The codes for both alphabets and where they end. */
  method ChooseCodes(litFreq: seq<nat>, distFreq: seq<nat>) returns (c: BodyCodes, n: nat, m: nat)
    requires |litFreq| == 286 && |distFreq| == 30 && litFreq[END_OF_BLOCK] > 0
    ensures c.Valid() && Codes(c.lit, c.dist, n, m) && 257 <= n <= 286 && 1 <= m <= 30 && c.lit[n - 1] > 0
    ensures forall s :: 0 <= s < 286 ==> (c.lit[s] > 0 <==> litFreq[s] > 0)
    ensures forall s :: 0 <= s < 30 ==> (c.dist[s] > 0 <==> distFreq[s] > 0)
    ensures CheapCodes(litFreq, distFreq, c.lit, c.dist, n, m)
  {
    hide KraftSum, ReversedCode, Pow2, CheapestCode, CountsSurvive, Stored, TwoUsed, SmallCounts;
    EnoughRoom();
    var lit := GetLengths(litFreq, 15);
    var litCodes := AssignCodes(lit);
    var dist := GetLengths(distFreq, 7);
    var distCodes := AssignCodes(dist);
    n := LastUsed(lit, 257);
    m := LastUsed(dist, 1);
    c := BodyCodes(litCodes, lit, distCodes, dist);
  }

  lemma {:induction false} EnoughRoom()
    ensures Pow2(7) == 128 && Pow2(15) == 32768
  {
    SmallPowers();
    assert Pow2(15) == 2 * Pow2(14) && Pow2(14) == 2 * Pow2(13);
  }

  /** The header's code: lengths for the run-length symbols, their codes, and how they are sent. */
  method ChooseHeaderCode(freqs: seq<nat>) returns (clens: seq<nat>, codes: seq<nat>, inOrder: seq<nat>, p: nat)
    requires |freqs| == 19
    ensures |clens| == 19 && Kraft(clens, 7) && CodeFor(codes, clens)
    ensures forall s :: 0 <= s < 19 ==> (clens[s] > 0 <==> freqs[s] > 0)
    ensures |inOrder| == 19 && forall i :: 0 <= i < 19 ==> inOrder[i] == clens[Order(i)] && inOrder[i] < 8
    ensures 4 <= p <= 19 && (forall i :: p <= i < 19 ==> clens[Order(i)] == 0) && (p == 4 || clens[Order(p - 1)] > 0)
    ensures SmallCounts(freqs) ==> CheapestCode(clens, freqs, 7)
  {
    hide KraftSum, ReversedCode, Pow2, Order, CheapestCode, CountsSurvive, Stored, TwoUsed, SmallCounts;
    EnoughRoom();
    clens := GetLengths(freqs, 7);
    codes := AssignCodes(clens);
    inOrder, p := Ordered(clens);
  }

  lemma {:induction false} OpsHaveCodes(lengths: seq<nat>, freqs: seq<nat>, clens: seq<nat>)
    requires |lengths| <= 316 && forall i :: 0 <= i < |lengths| ==> lengths[i] <= 15
    requires |freqs| == 19 && forall k :: 0 <= k < 19 ==> freqs[k] == Frequency(EncodeFrom(lengths, 0), k)
    requires |clens| == 19 && forall s :: 0 <= s < 19 ==> (clens[s] > 0 <==> freqs[s] > 0)
    ensures HaveCodes(EncodeFrom(lengths, 0), clens)
  {
    hide EncodeFrom, Frequency, Flat;
    var ops := EncodeFrom(lengths, 0);
    EncodeEconomical(lengths, 0);
    forall i | 0 <= i < |ops| ensures clens[ops[i].symbol] > 0 {
      assert WellFormed(ops[i]);
      OpIsCounted(ops, i);
    }
  }

  lemma {:induction false} FewOps(lengths: seq<nat>, freqs: seq<nat>)
    requires |lengths| <= 316 && forall i :: 0 <= i < |lengths| ==> lengths[i] <= 15
    requires |freqs| == 19 && forall k :: 0 <= k < 19 ==> freqs[k] == Frequency(EncodeFrom(lengths, 0), k)
    ensures SmallCounts(freqs) && freqs == OpCounts(EncodeFrom(lengths, 0))
  {
    hide EncodeFrom, Frequency, Flat;
    EncodingFits(lengths);
  }

  /** The start of a block: final, dynamic, and the three counts. */
  ghost function CountsBits(n: nat, m: nat, p: nat): seq<bool>
    requires 257 <= n <= 286 && 1 <= m <= 30 && 4 <= p <= 19
  {
    Lsb(1, 1) + Lsb(2, 2) + Lsb(n - 257, 5) + Lsb(m - 1, 5) + Lsb(p - 4, 4)
  }

  method WriteCounts(w: BitWriter, n: nat, m: nat, p: nat)
    requires w.Valid() && w.Written() == [] && 257 <= n <= 286 && 1 <= m <= 30 && 4 <= p <= 19
    modifies w, w.buffer
    ensures w.Valid() && (w.buffer == old(w.buffer) || fresh(w.buffer))
    ensures w.Written() == CountsBits(n, m, p)
  {
    hide Lsb, Msb, BytesBits, Pow2, Packed, BitWriter.Written;
    SmallPowers();
    w.Write(1, 1, true);
    w.Write(2, 2, true);
    w.Write(n - 257, 5, true);
    w.Write(m - 1, 5, true);
    w.Write(p - 4, 4, true);
    FiveWritten(Lsb(1, 1), Lsb(2, 2), Lsb(n - 257, 5), Lsb(m - 1, 5), Lsb(p - 4, 4));
  }

  lemma {:induction false} FiveWritten(a: seq<bool>, b: seq<bool>, c: seq<bool>, d: seq<bool>, e: seq<bool>)
    ensures [] + a + b + c + d + e == a + b + c + d + e
  {
  }

  /** Everything before the tokens. */
  method WriteHeader(w: BitWriter, lengths: seq<nat>, n: nat, m: nat) returns (ghost clens: seq<nat>, ghost p: nat)
    requires w.Valid() && w.Written() == [] && 257 <= n <= 286 && 1 <= m <= 30
    requires |lengths| <= 316 && forall i :: 0 <= i < |lengths| ==> lengths[i] <= 15
    modifies w, w.buffer
    ensures w.Valid() && (w.buffer == old(w.buffer) || fresh(w.buffer))
    ensures |clens| == 19 && 4 <= p <= 19 && Kraft(clens, 7) && (forall i :: p <= i < 19 ==> clens[Order(i)] == 0)
    ensures HaveCodes(EncodeFrom(lengths, 0), clens) && CheapHeader(lengths, clens, p)
    ensures w.Written() == CountsBits(n, m, p) + OrderBits(clens, p) + OpsBits(EncodeFrom(lengths, 0), clens)
  {
    hide Lsb, Msb, BytesBits, Pow2, Packed, BitWriter.Written, Order, EncodeFrom, Flat, OpsBits, OrderBits, CodeFor,
      CountsBits, Frequency, CheapestCode, SmallCounts;
    var flat, freqs := EncodeLengths(lengths);
    var clens', codes, inOrder, p' := ChooseHeaderCode(freqs);
    clens, p := clens', p';
    OpsHaveCodes(lengths, freqs, clens);
    FewOps(lengths, freqs);
    WriteCounts(w, n, m, p');
    WriteOrder(w, inOrder, p', clens);
    WriteOps(w, flat, codes, clens', EncodeFrom(lengths, 0));
  }

  /** The bytes hold the block, padded with zero bits to a whole byte. */
  ghost predicate IsPadded(out: seq<byte>, bits: seq<bool>) {
    && 0 <= 8 * |out| - |bits| < 8
    && BytesBits(out) == bits + seq(8 * |out| - |bits|, i => false)
  }

  /** The tokens and the codes for them, written as one block. */
  method WriteBlock(flat: seq<nat>, ghost tokens: seq<Token>, c: BodyCodes, n: nat, m: nat)
      returns (out: seq<byte>, ghost block: Block)
    requires AllWritable(tokens) && AllAllowed([], tokens) && flat == FlatTokens(tokens) + [END_OF_BLOCK]
    requires c.Valid() && Codes(c.lit, c.dist, n, m) && 257 <= n <= 286 && 1 <= m <= 30 && c.lit[n - 1] > 0
    requires TokensHaveCodes(tokens, c.lit, c.dist)
    ensures Consistent(block) && block.tokens == tokens && IsPadded(out, BlockBits(block))
    ensures block.lit == c.lit && block.dist == c.dist && block.n == n && block.m == m
    ensures CheapHeader(SentLengths(block), block.clens, block.p)
  {
    hide CheapHeader, FlatTokens, AllAllowed, Kraft, EncodeFrom, BytesBits, Lsb, Msb, OpsBits, OrderBits, TokensBits,
      CodeBits, Packed, BitWriter.Written, Frequency, Flat, WellFormed, CountsBits, Order;
    var lengths := c.lit[..n] + c.dist[..m];
    AllAtMost15(c, n, m);
    var w := new BitWriter();
    ghost var clens, p := WriteHeader(w, lengths, n, m);
    WriteTokens(w, flat, c, tokens);
    block := Block(c.lit, c.dist, n, m, clens, p, tokens);
    Assembled(block, CountsBits(n, m, p), OrderBits(clens, p), OpsBits(EncodeFrom(lengths, 0), clens));
    out := w.Finish();
  }

  /** The parts in the order they were written make up the block. */
  lemma {:induction false} Assembled(b: Block, counts: seq<bool>, order: seq<bool>, ops: seq<bool>)
    requires Shaped(b) && counts == CountsBits(b.n, b.m, b.p)
    requires order == OrderBits(b.clens, b.p) && ops == OpsBits(EncodeFrom(SentLengths(b), 0), b.clens)
    ensures counts + order + ops + TokensBits(b.tokens, b.lit, b.dist) + CodeBits(b.lit, END_OF_BLOCK) == BlockBits(b)
  {
    hide Lsb, OrderBits, OpsBits, TokensBits, CodeBits, EncodeFrom;
  }

  lemma {:induction false} AllAtMost15(c: BodyCodes, n: nat, m: nat)
    requires c.Valid() && n <= 286 && m <= 30
    ensures forall i :: 0 <= i < n + m ==> (c.lit[..n] + c.dist[..m])[i] <= 15
  {
  }

  /**
   Compresses a non-empty input into one final dynamic block.  A reader of the format recovers
   the input from it; a reader that takes the two alphabets' lengths separately does so unless
   four equal lengths straddle their boundary.
   */
  method Compress(data: seq<byte>) returns (out: seq<byte>, ghost block: Block)
    requires |data| > 0
    ensures Consistent(block) && IsPadded(out, BlockBits(block)) && Expand([], block.tokens) == data
    ensures Greedy(data, block.tokens)
    ensures var lit, dist := LiteralCounts(block.tokens), DistanceCounts(block.tokens);
      CheapCodes(lit, dist, block.lit, block.dist, block.n, block.m)
    ensures CheapHeader(SentLengths(block), block.clens, block.p)
    ensures Inflate(BytesBits(out), AsOne) == Some(data)
    ensures !CrossesBoundary(block) ==> Inflate(BytesBits(out), InTwo) == Some(data)
  {
    hide Inflate, BlockBits, Codes, CrossesBoundary, AllAllowed, LiteralCount, DistanceCount, Expand, FlatTokens,
      BytesBits, IsPadded, TokensHaveCodes, Greedy, CheapCodes, CheapHeader;
    var flat, litFreq, distFreq; ghost var tokens;
    flat, litFreq, distFreq, tokens := Lz77(data);
    var c, n, m := ChooseCodes(litFreq, distFreq);
    CountedHaveCodes(tokens, litFreq, distFreq, c.lit, c.dist);
    assert litFreq == LiteralCounts(tokens) && distFreq == DistanceCounts(tokens);
    out, block := WriteBlock(flat, tokens, c, n, m);
    PaddedRoundTrip(out, block);
  }

  /** The padding of the last byte does not matter to a reader. */
  lemma {:induction false} PaddedRoundTrip(out: seq<byte>, b: Block)
    requires Consistent(b) && IsPadded(out, BlockBits(b))
    ensures Inflate(BytesBits(out), AsOne) == Some(Expand([], b.tokens))
    ensures !CrossesBoundary(b) ==> Inflate(BytesBits(out), InTwo) == Some(Expand([], b.tokens))
  {
    hide Inflate, BlockBits, CrossesBoundary, Expand, BytesBits;
    var padding := seq(8 * |out| - |BlockBits(b)|, i => false);
    BlockRoundTrip(b, AsOne, padding);
    if !CrossesBoundary(b) {
      BlockRoundTrip(b, InTwo, padding);
    }
  }
}
