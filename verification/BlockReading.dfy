/** Reading back the bits of a block: every part of the format is undone by its reader. */
module BlockReading {
  import opened Options
  import opened Bits
  import opened HuffmanCodes
  import opened RunLengths
  import opened Tokens
  import opened DeflateFormat

  // ----- numbers and symbols

  lemma {:induction false} ReadNumberOf(v: nat, n: nat, rest: seq<bool>)
    requires v < Pow2(n)
    ensures ReadNumber(Lsb(v, n) + rest, n) == Some((v, rest))
  {
    ValueLsb(v, n);
    LowSmall(v, n);
    assert (Lsb(v, n) + rest)[..n] == Lsb(v, n);
    assert (Lsb(v, n) + rest)[n..] == rest;
  }

  lemma {:induction false} CodeBitsAreLsb(lens: seq<nat>, n: nat)
    requires n < |lens|
    ensures CodeBits(lens, n) == Lsb(ReversedCode(lens, n), lens[n])
    ensures ReversedCode(lens, n) < Pow2(lens[n])
  {
    RevLsb(Code(lens, n), lens[n]);
  }

  lemma {:induction false} LsbPrefix(v: nat, n: nat, m: nat)
    requires m <= n
    ensures Lsb(v, n)[..m] == Lsb(v, m)
  {
    LsbSplit(v, m, n - m);
  }

  /** At most one symbol's code starts a bit string. */
  lemma {:induction false} OnlyOneStarts(lens: seq<nat>, limit: nat, m: nat, n: nat, s: seq<bool>)
    requires Kraft(lens, limit) && m < |lens| && n < |lens| && 0 < lens[m] <= lens[n]
    requires CodeBits(lens, m) <= s && CodeBits(lens, n) <= s
    ensures m == n
  {
    var g, h := lens[m], lens[n];
    var c, d := ReversedCode(lens, m), ReversedCode(lens, n);
    CodeBitsAreLsb(lens, m);
    CodeBitsAreLsb(lens, n);
    LsbPrefix(d, h, g);
    assert Lsb(c, g) == s[..g] == Lsb(d, h)[..g] == Lsb(d, g);
    ValueLsb(c, g);
    ValueLsb(d, g);
    LowSmall(c, g);
    if m != n { PrefixFree(lens, limit, m, n); }
  }

  lemma {:induction false} FindsCode(lens: seq<nat>, limit: nat, n: nat, s: seq<bool>, from: nat)
    requires Kraft(lens, limit) && from <= n < |lens| && 0 < lens[n] && CodeBits(lens, n) <= s
    ensures FindSymbol(lens, s, from) == Some(n)
    decreases n - from
  {
    if from < n {
      if 0 < lens[from] && CodeBits(lens, from) <= s {
        if lens[from] <= lens[n] {
          OnlyOneStarts(lens, limit, from, n, s);
        } else {
          OnlyOneStarts(lens, limit, n, from, s);
        }
      }
      FindsCode(lens, limit, n, s, from + 1);
    }
  }

  lemma {:induction false} ReadSymbolOf(lens: seq<nat>, limit: nat, n: nat, rest: seq<bool>)
    requires Kraft(lens, limit) && n < |lens| && 0 < lens[n]
    ensures ReadSymbol(CodeBits(lens, n) + rest, lens) == Some((n, rest))
  {
    var s := CodeBits(lens, n) + rest;
    assert s[..lens[n]] == CodeBits(lens, n);
    FindsCode(lens, limit, n, s, 0);
    assert s[lens[n]..] == rest;
  }

  // ----- code lengths

  lemma {:induction false} OpFits(op: Op)
    requires WellFormed(op)
    ensures op.extra < Pow2(ExtraWidth(op.symbol)) && op.symbol < 19
  {
    hide Pow2;
    SmallPowers();
  }

  lemma {:induction false} ReadOpOf(op: Op, clens: seq<nat>, rest: seq<bool>)
    requires WellFormed(op) && |clens| == 19 && Kraft(clens, 7) && clens[op.symbol] > 0
    ensures ReadOp(OpBits(op, clens) + rest, clens) == Some((op, rest))
  {
    OpFits(op);
    var extra := Lsb(op.extra, ExtraWidth(op.symbol));
    assert OpBits(op, clens) + rest == CodeBits(clens, op.symbol) + (extra + rest);
    ReadSymbolOf(clens, 7, op.symbol, extra + rest);
    ReadNumberOf(op.extra, ExtraWidth(op.symbol), rest);
  }

  ghost predicate HaveCodes(ops: seq<Op>, clens: seq<nat>) {
    AllWellFormed(ops) && |clens| == 19 && forall i :: 0 <= i < |ops| ==> clens[ops[i].symbol] > 0
  }

  /** Reading operations from bits reads the operations. */
  lemma {:induction false} ReadCodeLengthsOf(ops: seq<Op>, clens: seq<nat>, need: nat, prev: nat, done: seq<nat>,
      tail: seq<bool>)
    requires HaveCodes(ops, clens) && Kraft(clens, 7)
    ensures var r := ReadLengths(ops, need, prev, done);
      r.Some? ==>
        HaveCodes(r.value.1, clens)
        && ReadCodeLengths(OpsBits(ops, clens) + tail, clens, need, prev, done)
             == Some((r.value.0, OpsBits(r.value.1, clens) + tail))
    decreases |ops|
  {
    if |done| < need && |ops| > 0 {
      var v := ValueOf(ops[0], prev);
      var rest := OpsBits(ops[1..], clens) + tail;
      assert OpsBits(ops, clens) + tail == OpBits(ops[0], clens) + rest;
      ReadOpOf(ops[0], clens, rest);
      ReadCodeLengthsOf(ops[1..], clens, need, v, done + Repeat(v, Count(ops[0])), tail);
    }
  }

  /** The single-sequence reading gives the lengths that were encoded. */
  lemma {:induction false} ReadAsOneOf(lengths: seq<nat>, n: nat, clens: seq<nat>, tail: seq<bool>)
    requires n <= |lengths| && forall i :: 0 <= i < |lengths| ==> lengths[i] <= 15
    requires HaveCodes(EncodeFrom(lengths, 0), clens) && Kraft(clens, 7)
    ensures ReadAsOne(OpsBits(EncodeFrom(lengths, 0), clens) + tail, clens, n, |lengths| - n)
         == Some((lengths[..n], lengths[n..], tail))
  {
    RunLengthRoundTrip(lengths);
    ReadCodeLengthsOf(EncodeFrom(lengths, 0), clens, |lengths|, 0, [], tail);
    assert OpsBits([], clens) + tail == tail;
  }

  /** What has been read stays as reading goes on, and reading on uses up bits. */
  lemma {:induction false} ReadCodeLengthsKeeps(s: seq<bool>, clens: seq<nat>, need: nat, prev: nat, done: seq<nat>)
    ensures var r := ReadCodeLengths(s, clens, need, prev, done);
      r.Some? ==> done <= r.value.0 && (|done| < need ==> |r.value.1| < |s|)
    decreases |s|
  {
    hide ReadOp, Repeat;
    if |done| < need {
      var next := ReadOp(s, clens);
      if next.Some? {
        var v := ValueOf(next.value.0, prev);
        ReadCodeLengthsKeeps(next.value.1, clens, need, v, done + Repeat(v, Count(next.value.0)));
      }
    }
  }

  /** Where nothing is left to be read, or an operation that does not stand for the first length, reading fails. */
  lemma {:induction false} ReadsWrong(ops: seq<Op>, clens: seq<nat>, second: seq<nat>, tail: seq<bool>)
    requires HaveCodes(ops, clens) && Kraft(clens, 7) && second != []
    requires |ops| > 0 ==> ValueOf(ops[0], 0) != second[0]
    ensures var r := ReadCodeLengths(OpsBits(ops, clens) + tail, clens, |second|, 0, []);
      r.Some? ==> r.value.0[..|second|] != second || r.value.1 != tail
  {
    hide OpBits, Kraft, ReadOp, CodeBits;
    ReadCodeLengthsKeeps(OpsBits(ops, clens) + tail, clens, |second|, 0, []);
    if |ops| == 0 {
      assert OpsBits(ops, clens) + tail == tail;
    } else {
      var v, rest := ValueOf(ops[0], 0), OpsBits(ops[1..], clens) + tail;
      assert OpsBits(ops, clens) + tail == OpBits(ops[0], clens) + rest;
      ReadOpOf(ops[0], clens, rest);
      hide OpsBits, HaveCodes, AllWellFormed;
      assert [] + Repeat(v, Count(ops[0])) == Repeat(v, Count(ops[0]));
      ReadCodeLengthsKeeps(rest, clens, |second|, v, Repeat(v, Count(ops[0])));
    }
  }

  /** So does the two-part reading, exactly if no four equal lengths straddle the boundary. */
  lemma {:induction false} ReadInTwoOf(lengths: seq<nat>, n: nat, clens: seq<nat>, tail: seq<bool>)
    requires TwoAlphabets(lengths, n)
    requires HaveCodes(EncodeFrom(lengths, 0), clens) && Kraft(clens, 7)
    ensures var r := ReadInTwo(OpsBits(EncodeFrom(lengths, 0), clens) + tail, clens, n, |lengths| - n);
      r == Some((lengths[..n], lengths[n..], tail)) <==> !Straddles(lengths, n)
  {
    hide EncodeFrom, Straddles, LeavesWrong, Kraft, ReadLengths, ReadCodeLengths;
    var ops, m := EncodeFrom(lengths, 0), |lengths| - n;
    var first := ReadLengths(ops, n, 0, []);
    ReadCodeLengthsOf(ops, clens, n, 0, [], tail);
    if Straddles(lengths, n) {
      StraddlingLeavesWrong(lengths, n);
      assert first.Some? && (|first.value.1| > 0 ==> ValueOf(first.value.1[0], 0) != lengths[n..][0]) by {
        LeavesWrongMeans(first, lengths[n]);
      }
      ReadsWrong(first.value.1, clens, lengths[n..], tail);
    } else {
      TwoPartsAgree(lengths, n);
      ReadCodeLengthsOf(first.value.1, clens, m, 0, [], tail);
      assert OpsBits([], clens) + tail == tail;
    }
  }

  lemma {:induction false} LeavesWrongMeans(first: Option<(seq<nat>, seq<Op>)>, v: nat)
    requires LeavesWrong(first, v)
    ensures first.Some? && (|first.value.1| > 0 ==> ValueOf(first.value.1[0], 0) != v)
  {
  }

  lemma {:induction false} StraddlingLeavesWrong(lengths: seq<nat>, n: nat)
    requires TwoAlphabets(lengths, n) && Straddles(lengths, n)
    ensures LeavesWrong(ReadLengths(EncodeFrom(lengths, 0), n, 0, []), lengths[n])
  {
    hide EncodeFrom, ReadLengths;
    assert lengths[..0] == [];
    var i: nat :| 0 <= i < n && FourEqual(lengths, i) && n < i + 4;
    SecondPartStartsWrong(lengths, n, 0, i, 0);
  }

  // ----- the code length alphabet

  /** The place of a symbol in the sending order. */
  function PlaceOf(symbol: nat): (i: nat)
    requires symbol < 19
    ensures i < 19 && Order(i) == symbol
  {
    [3, 17, 15, 13, 11, 9, 7, 5, 4, 6, 8, 10, 12, 14, 16, 18, 0, 1, 2][symbol]
  }

  lemma {:induction false} OrderInjective()
    ensures forall i, j :: 0 <= i < j < 19 ==> Order(i) != Order(j)
  {
  }

  lemma {:induction false} ReadOrderOf(clens: seq<nat>, p: nat, tail: seq<bool>)
    requires |clens| == 19 && p <= 19 && forall i :: 0 <= i < 19 ==> clens[i] < 8
    ensures var r := ReadOrder(OrderBits(clens, p) + tail, p);
      r.Some? && r.value.1 == tail && |r.value.0| == 19
      && forall i :: 0 <= i < 19 ==> r.value.0[Order(i)] == if i < p then clens[Order(i)] else 0
  {
    hide Lsb, Value, Pow2, Order;
    if p == 0 {
      assert OrderBits(clens, 0) + tail == tail;
    } else {
      var last := Lsb(clens[Order(p - 1)], 3);
      assert OrderBits(clens, p) + tail == OrderBits(clens, p - 1) + (last + tail);
      ReadOrderOf(clens, p - 1, last + tail);
      OrderInjective();
      SmallPowers();
      ReadNumberOf(clens[Order(p - 1)], 3, tail);
    }
  }

  /** Leaving out trailing zeros of the sending order loses nothing. */
  lemma {:induction false} ReadWholeOrder(clens: seq<nat>, p: nat, tail: seq<bool>)
    requires |clens| == 19 && p <= 19 && forall i :: 0 <= i < 19 ==> clens[i] < 8
    requires forall i :: p <= i < 19 ==> clens[Order(i)] == 0
    ensures ReadOrder(OrderBits(clens, p) + tail, p) == Some((clens, tail))
  {
    ReadOrderOf(clens, p, tail);
    var got := ReadOrder(OrderBits(clens, p) + tail, p).value.0;
    forall s | 0 <= s < 19 ensures got[s] == clens[s] {
      assert Order(PlaceOf(s)) == s;
    }
    assert got == clens;
  }

  // ----- tokens

  ghost predicate TokenHasCodes(t: Token, lit: seq<nat>, dist: seq<nat>)
    requires |lit| == 286 && |dist| == 30
  {
    && Allowed(t, 32768)
    && lit[SymbolOf(t)] > 0
    && (t.Match? ==> dist[DistanceCode(t.distance).symbol] > 0)
  }

  ghost predicate TokensHaveCodes(tokens: seq<Token>, lit: seq<nat>, dist: seq<nat>)
    requires |lit| == 286 && |dist| == 30
  {
    AllWritable(tokens) && forall i :: 0 <= i < |tokens| ==> TokenHasCodes(tokens[i], lit, dist)
  }

  /** The symbols from `n` on are unused. */
  ghost predicate UnusedFrom(lens: seq<nat>, n: nat) {
    n <= |lens| && forall i :: n <= i < |lens| ==> lens[i] == 0
  }

  lemma {:induction false} CountTrimmed(lens: seq<nat>, n: nat, g: nat, k: nat)
    requires UnusedFrom(lens, n) && k <= |lens| && g > 0
    ensures CountBefore(lens, g, k) == CountBefore(lens[..n], g, if k < n then k else n)
  {
    if k > 0 { CountTrimmed(lens, n, g, k - 1); }
  }

  lemma {:induction false} FirstCodeTrimmed(lens: seq<nat>, n: nat, g: nat)
    requires UnusedFrom(lens, n)
    ensures FirstCode(lens, g) == FirstCode(lens[..n], g)
  {
    if g > 1 {
      FirstCodeTrimmed(lens, n, g - 1);
      CountTrimmed(lens, n, g - 1, |lens|);
    }
  }

  lemma {:induction false} KraftTrimmed(lens: seq<nat>, n: nat, limit: nat, k: nat)
    requires UnusedFrom(lens, n) && k <= |lens|
    ensures KraftSum(lens, limit, limit, k) == KraftSum(lens[..n], limit, limit, if k < n then k else n)
  {
    if k > 0 { KraftTrimmed(lens, n, limit, k - 1); }
  }

  /** A reader that knows only the lengths that were sent reads the same symbols. */
  lemma {:induction false} ReadSymbolTrimmed(lens: seq<nat>, n: nat, limit: nat, symbol: nat, rest: seq<bool>)
    requires UnusedFrom(lens, n) && Kraft(lens, limit) && symbol < |lens| && lens[symbol] > 0
    ensures ReadSymbol(CodeBits(lens, symbol) + rest, lens[..n]) == Some((symbol, rest))
  {
    KraftTrimmed(lens, n, limit, |lens|);
    FirstCodeTrimmed(lens, n, lens[symbol]);
    CountTrimmed(lens, n, lens[symbol], symbol);
    assert CodeBits(lens, symbol) == CodeBits(lens[..n], symbol);
    ReadSymbolOf(lens[..n], limit, symbol, rest);
  }

  /** Codes for both alphabets, of which the first `n` and `m` lengths are sent. */
  ghost predicate Codes(lit: seq<nat>, dist: seq<nat>, n: nat, m: nat) {
    && |lit| == 286 && |dist| == 30
    && Kraft(lit, 15) && Kraft(dist, 7) && UnusedFrom(lit, n) && UnusedFrom(dist, m)
    && lit[END_OF_BLOCK] > 0
  }

  lemma {:induction false} RegroupFour(a: seq<bool>, b: seq<bool>, c: seq<bool>, d: seq<bool>, rest: seq<bool>)
    ensures a + b + (c + d) + rest == a + (b + (c + (d + rest)))
  {
  }

  lemma {:induction false} RegroupFive(a: seq<bool>, b: seq<bool>, c: seq<bool>, d: seq<bool>, e: seq<bool>,
      rest: seq<bool>)
    ensures a + b + c + (d + e) + rest == a + (b + (c + (d + (e + rest))))
  {
  }

  lemma {:induction false} MatchSymbol(t: Token)
    requires t.Match? && Allowed(t, 32768)
    ensures SymbolOf(t) == LengthCode(t.length).symbol
  {
    hide LengthCode;
  }

  lemma {:induction false} ReadMatchOf(t: Token, lit: seq<nat>, dist: seq<nat>, n: nat, m: nat, rest: seq<bool>)
    requires Codes(lit, dist, n, m) && t.Match? && TokenHasCodes(t, lit, dist)
    ensures var s := ReadSymbol(TokenBits(t, lit, dist) + rest, lit[..n]);
      s.Some? && 257 <= s.value.0 <= 285 && ReadMatch(s.value.1, s.value.0, dist[..m]) == Some((t, rest))
  {
    hide LengthCode, DistanceCode, Lsb, CodeBits, Pow2, Kraft, ReadNumber, ReadSymbol, SymbolOf;
    hide LengthBits, LengthBase, DistanceBits, DistanceBase;
    LengthCodeInverse(t.length);
    DistanceCodeInverse(t.distance);
    var l, d := LengthCode(t.length), DistanceCode(t.distance);
    MatchSymbol(t);
    var x, c, y := Lsb(l.extra, l.bits), CodeBits(dist, d.symbol), Lsb(d.extra, d.bits);
    RegroupFour(CodeBits(lit, l.symbol), x, c, y, rest);
    ReadSymbolTrimmed(lit, n, 15, l.symbol, x + (c + (y + rest)));
    ReadNumberOf(l.extra, l.bits, c + (y + rest));
    ReadSymbolTrimmed(dist, m, 7, d.symbol, y + rest);
    ReadNumberOf(d.extra, d.bits, rest);
  }

  /** Reading tokens from bits expands the tokens. */
  lemma {:induction false} ReadBodyOf(tokens: seq<Token>, lit: seq<nat>, dist: seq<nat>, n: nat, m: nat, out: seq<byte>,
      tail: seq<bool>)
    requires Codes(lit, dist, n, m) && AllAllowed(out, tokens)
    requires TokensHaveCodes(tokens, lit, dist)
    ensures ReadBody(TokensBits(tokens, lit, dist) + CodeBits(lit, END_OF_BLOCK) + tail, lit[..n], dist[..m], out)
         == Some((Expand(out, tokens), tail))
    decreases |tokens|
  {
    hide TokenBits, ReadSymbol, Kraft, CodeBits;
    var end := CodeBits(lit, END_OF_BLOCK) + tail;
    if |tokens| == 0 {
      assert TokensBits(tokens, lit, dist) + CodeBits(lit, END_OF_BLOCK) + tail == end;
      ReadSymbolTrimmed(lit, n, 15, END_OF_BLOCK, tail);
    } else {
      var t := tokens[0];
      var rest := TokensBits(tokens[1..], lit, dist) + CodeBits(lit, END_OF_BLOCK) + tail;
      assert TokensBits(tokens, lit, dist) + CodeBits(lit, END_OF_BLOCK) + tail == TokenBits(t, lit, dist) + rest;
      ReadBodyOf(tokens[1..], lit, dist, n, m, Apply(out, t), tail);
      ReadTokenStep(t, lit, dist, n, m, out, rest);
    }
  }

  lemma {:induction false} ReadTokenStep(t: Token, lit: seq<nat>, dist: seq<nat>, n: nat, m: nat, out: seq<byte>,
      rest: seq<bool>)
    requires Codes(lit, dist, n, m) && Allowed(t, |out|) && TokenHasCodes(t, lit, dist)
    ensures ReadBody(TokenBits(t, lit, dist) + rest, lit[..n], dist[..m], out)
         == ReadBody(rest, lit[..n], dist[..m], Apply(out, t))
  {
    if t.Match? {
      ReadMatchOf(t, lit, dist, n, m, rest);
    } else {
      ReadSymbolTrimmed(lit, n, 15, t.value, rest);
    }
  }

  // ----- the whole block

  /** A block whose codes, counts and tokens belong together. */
  ghost predicate Consistent(b: Block) {
    && Shaped(b)
    && Codes(b.lit, b.dist, b.n, b.m) && b.lit[b.n - 1] > 0
    && Kraft(b.clens, 7) && (forall i :: b.p <= i < 19 ==> b.clens[Order(i)] == 0)
    && HaveCodes(EncodeFrom(SentLengths(b), 0), b.clens)
    && AllAllowed([], b.tokens)
    && TokensHaveCodes(b.tokens, b.lit, b.dist)
  }

  ghost predicate CrossesBoundary(b: Block)
    requires Shaped(b)
  {
    Straddles(SentLengths(b), b.n)
  }

  /** What a reader makes of the header of a block depends on what it makes of the two lists. */
  lemma {:induction false} ReadHeaderIs(b: Block, how: Reading, tail: seq<bool>)
    requires Consistent(b)
    ensures var head := Lsb(b.n - 257, 5) + Lsb(b.m - 1, 5) + Lsb(b.p - 4, 4) + CodesBits(b);
      var sent := ReadSent(OpsBits(EncodeFrom(SentLengths(b), 0), b.clens) + tail, b.clens, b.n, b.m, how);
      ReadHeader(head + tail, how) ==
        if sent.Some? && Kraft(sent.value.0, 15) && Kraft(sent.value.1, 15) then sent else None
  {
    hide EncodeFrom, OpsBits, OrderBits, Lsb, Pow2, Straddles, Kraft, ReadSent, ReadNumber, ReadOrder;
    var f := SentLengths(b);
    var n5, m5, p4 := Lsb(b.n - 257, 5), Lsb(b.m - 1, 5), Lsb(b.p - 4, 4);
    var order, ops := OrderBits(b.clens, b.p), OpsBits(EncodeFrom(f, 0), b.clens);
    RegroupFive(n5, m5, p4, order, ops, tail);
    SmallPowers();
    ReadNumberOf(b.n - 257, 5, m5 + (p4 + (order + (ops + tail))));
    ReadNumberOf(b.m - 1, 5, p4 + (order + (ops + tail)));
    ReadNumberOf(b.p - 4, 4, order + (ops + tail));
    ReadWholeOrderOf(b, ops + tail);
  }

  lemma {:induction false} ReadHeaderOf(b: Block, how: Reading, tail: seq<bool>)
    requires Consistent(b)
    ensures var head := Lsb(b.n - 257, 5) + Lsb(b.m - 1, 5) + Lsb(b.p - 4, 4) + CodesBits(b);
      ReadHeader(head + tail, how) == Some((b.lit[..b.n], b.dist[..b.m], tail)) <==> how == AsOne || !CrossesBoundary(b)
  {
    hide EncodeFrom, OpsBits, OrderBits, Lsb, Straddles, Kraft, ReadSent, ReadHeader, CodesBits;
    TrimmedCodes(b.lit, b.dist, b.n, b.m);
    ReadHeaderIs(b, how, tail);
    ReadSentOf(b, how, tail);
  }

  lemma {:induction false} TrimmedCodes(lit: seq<nat>, dist: seq<nat>, n: nat, m: nat)
    requires Codes(lit, dist, n, m)
    ensures Kraft(lit[..n], 15) && Kraft(dist[..m], 15)
  {
    KraftTrimmed(lit, n, 15, |lit|);
    KraftTrimmed(dist, m, 7, |dist|);
    KraftAnyLimit(dist[..m], 7, 15);
  }

  lemma {:induction false} ReadSentOf(b: Block, how: Reading, tail: seq<bool>)
    requires Consistent(b)
    ensures var r := ReadSent(OpsBits(EncodeFrom(SentLengths(b), 0), b.clens) + tail, b.clens, b.n, b.m, how);
      r == Some((b.lit[..b.n], b.dist[..b.m], tail)) <==> how == AsOne || !CrossesBoundary(b)
  {
    hide EncodeFrom, OpsBits, Straddles, Kraft, ReadAsOne, ReadInTwo;
    var f := SentLengths(b);
    assert f[..b.n] == b.lit[..b.n] && f[b.n..] == b.dist[..b.m];
    if how == AsOne {
      ReadAsOneOf(f, b.n, b.clens, tail);
    } else {
      assert TwoAlphabets(f, b.n);
      ReadInTwoOf(f, b.n, b.clens, tail);
    }
  }

  lemma {:induction false} ReadWholeOrderOf(b: Block, tail: seq<bool>)
    requires Consistent(b)
    ensures ReadOrder(OrderBits(b.clens, b.p) + tail, b.p) == Some((b.clens, tail))
  {
    ReadWholeOrder(b.clens, b.p, tail);
  }

  /**
   A reader of the format recovers the content of every consistent block; one that reads the two
   alphabets separately recovers it unless four equal lengths straddle their boundary.
   */
  lemma {:induction false} BlockRoundTrip(b: Block, how: Reading, tail: seq<bool>)
    requires Consistent(b) && (how == AsOne || !CrossesBoundary(b))
    ensures Inflate(BlockBits(b) + tail, how) == Some(Expand([], b.tokens))
  {
    hide EncodeFrom, OpsBits, OrderBits, Lsb, Pow2, Straddles, Kraft, ReadHeader, CodesBits, TokensBits, CodeBits;
    var head := Lsb(b.n - 257, 5) + Lsb(b.m - 1, 5) + Lsb(b.p - 4, 4) + CodesBits(b);
    var body := BodyBits(b) + tail;
    assert BlockBits(b) + tail == Lsb(1, 1) + (Lsb(2, 2) + (head + body));
    SmallPowers();
    ReadNumberOf(1, 1, Lsb(2, 2) + (head + body));
    ReadNumberOf(2, 2, head + body);
    ReadHeaderOf(b, how, body);
    ReadBodyOf(b.tokens, b.lit, b.dist, b.n, b.m, [], tail);
  }

  /** The tokens of the 16 bytes "bbbbabbababbbaba". */
  function MisreadTokens(): seq<Token> {
    [Literal(98), Match(3, 1), Literal(97), Match(4, 3), Match(3, 5), Match(4, 6)]
  }

  lemma {:induction false} MisreadText()
    ensures AllAllowed([], MisreadTokens())
    ensures Expand([], MisreadTokens()) == [98, 98, 98, 98, 97, 98, 98, 97, 98, 97, 98, 98, 98, 97, 98, 97]
  {
  }

  /** The misread lengths are codes for these tokens: each of their symbols, and the end of the block, has a length. */
  lemma {:induction false} MisreadSymbols()
    ensures var f := MisreadLengths();
      && f[97] == f[98] == 3 && f[END_OF_BLOCK] == f[LengthCode(3).symbol] == f[LengthCode(4).symbol] == 2
      && f[259 + DistanceCode(1).symbol] == f[259 + DistanceCode(3).symbol] == 2
      && f[259 + DistanceCode(5).symbol] == f[259 + DistanceCode(6).symbol] == 1
  {
  }
}
