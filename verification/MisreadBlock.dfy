/**
 A block whose content the decompressor gets wrong: two literals, with code lengths of which four equal ones straddle
 the boundary of the two alphabets. The second list of lengths is read on into the body and uses up both literals.
 */
module MisreadBlock {
  import opened Options
  import opened Bits
  import opened HuffmanCodes
  import opened RunLengths
  import opened Tokens
  import opened DeflateFormat
  import opened BlockReading
  import opened BufferGrowth
  import C = RawDeflate
  import D = RawInflate
  import S = CutOffStream

  function LiteralLengths(): (lens: seq<nat>)
    ensures |lens| == 286 && lens[97] == lens[98] == 3 && lens[256] == lens[257] == lens[258] == 2
    ensures forall i :: 0 <= i < 97 || 98 < i < 256 || 258 < i < 286 ==> lens[i] == 0
    ensures lens[..259] == MisreadLengths()[..259]
  {
    Repeat(0, 97) + [3, 3] + Repeat(0, 157) + [2, 2, 2] + Repeat(0, 27)
  }

  function DistanceLengths(): (lens: seq<nat>)
    ensures |lens| == 30 && lens[..5] == [2, 0, 2, 0, 1] && forall i :: 5 <= i < 30 ==> lens[i] == 0
  {
    [2, 0, 2, 0, 1] + Repeat(0, 25)
  }

  /** Three bits for each of the lengths 0 to 3 and 15 and for the three repeats. */
  function HeaderLengths(): (lens: seq<nat>)
    ensures |lens| == 19 && forall i :: 0 <= i < 19 ==> lens[i] == if 4 <= i < 15 then 0 else 3
  {
    [3, 3, 3, 3] + Repeat(0, 11) + [3, 3, 3, 3]
  }

  function Misread(): Block {
    Block(LiteralLengths(), DistanceLengths(), 259, 5, HeaderLengths(), 19, [Literal(97), Literal(97)])
  }

  /** What the second list comes out as. */
  function WrongDistances(): seq<nat> {
    [0, 2, 0, 1, 0]
  }

  // ---------------------------------------------------------------------------------------------
  // The block is one that the format allows

  lemma {:induction false} KraftSumNext(lens: seq<nat>, limit: nat, n: nat)
    requires n < |lens| && 0 < lens[n] <= limit
    ensures KraftSum(lens, limit, limit, n + 1) == KraftSum(lens, limit, limit, n) + Pow2(limit - lens[n])
    ensures KraftSum(lens, limit, limit, 0) == 0
  {
    hide Pow2;
  }

  lemma {:induction false} LiteralsLeaveRoom()
    ensures Kraft(LiteralLengths(), 15)
  {
    var lit := LiteralLengths();
    hide Pow2, LiteralLengths, KraftSum;
    SmallPowers();
    LargePowers();
    ZerosAddNothing(lit, 15, 0, 97);
    KraftSumNext(lit, 15, 97);
    KraftSumNext(lit, 15, 98);
    ZerosAddNothing(lit, 15, 99, 256);
    KraftSumNext(lit, 15, 256);
    KraftSumNext(lit, 15, 257);
    KraftSumNext(lit, 15, 258);
    ZerosAddNothing(lit, 15, 259, 286);
  }

  lemma {:induction false} DistancesLeaveRoom()
    ensures Kraft(DistanceLengths(), 7) && Kraft(WrongDistances(), 15)
  {
    var dist, wrong := DistanceLengths(), WrongDistances();
    assert forall i :: 0 <= i < 5 ==> dist[i] == dist[..5][i];
    hide Pow2, DistanceLengths;
    SmallPowers();
    LargePowers();
    assert KraftSum(dist, 7, 7, 2) == 32 && KraftSum(dist, 7, 7, 4) == 64;
    ZerosAddNothing(dist, 7, 5, 30);
    assert KraftSum(wrong, 15, 15, 2) == 8192 && KraftSum(wrong, 15, 15, 4) == 24576;
  }

  lemma {:induction false} HeaderLeavesRoom()
    ensures Kraft(HeaderLengths(), 7)
  {
    var lens := HeaderLengths();
    hide Pow2, HeaderLengths;
    SmallPowers();
    assert KraftSum(lens, 7, 7, 2) == 32 && KraftSum(lens, 7, 7, 4) == 64;
    ZerosAddNothing(lens, 7, 4, 15);
    assert KraftSum(lens, 7, 7, 17) == 96;
  }

  /** Only short lengths and repeats occur among the operations. */
  ghost predicate Short(ops: seq<Op>) {
    forall i :: 0 <= i < |ops| ==> ops[i].symbol <= 3 || 16 <= ops[i].symbol <= 18
  }

  lemma {:induction false} PlainShort(v: nat, n: nat)
    requires v <= 3
    ensures Short(PlainOps(v, n))
  {
    if n > 0 {
      PlainShort(v, n - 1);
    }
  }

  lemma {:induction false} RepeatShort(n: nat)
    requires n == 0 || n >= 3
    ensures Short(RepeatOps(n))
  {
    if n > 0 {
      RepeatShort(n - RepeatChunk(n));
    }
  }

  lemma {:induction false} ZerosShort(n: nat)
    requires n == 0 || n >= 3
    ensures Short(ZeroOps(n))
  {
    if n > 0 {
      ZerosShort(n - ZeroChunk(n));
    }
  }

  lemma {:induction false} BothShort(a: seq<Op>, b: seq<Op>)
    requires Short(a) && Short(b)
    ensures Short(a + b)
  {
  }

  lemma {:induction false} RunShort(v: nat, n: nat)
    requires v <= 3 && n > 0
    ensures Short(RunOps(v, n))
  {
    hide PlainOps, RepeatOps, ZeroOps;
    PlainShort(v, n);
    PlainShort(v, n - 1);
    if v == 0 {
      if n >= 3 { ZerosShort(n); }
    } else {
      if n >= 4 { RepeatShort(n - 1); }
      BothShort([Op(v, 0)], if n < 4 then PlainOps(v, n - 1) else RepeatOps(n - 1));
    }
  }

  lemma {:induction false} EncodingShort(f: seq<nat>, r: nat)
    requires r <= |f| && forall i :: 0 <= i < |f| ==> f[i] <= 3
    ensures Short(EncodeFrom(f, r))
    decreases |f| - r
  {
    hide RunOps, Short;
    if r < |f| {
      var e := RunEnd(f, r, r + 1);
      EncodingShort(f, e);
      RunShort(f[r], e - r);
      BothShort(RunOps(f[r], e - r), EncodeFrom(f, e));
    } else {
      NothingShort();
    }
  }

  lemma {:induction false} NothingShort()
    ensures Short([])
  {
  }

  lemma {:induction false} SentAreMisread()
    ensures SentLengths(Misread()) == MisreadLengths()
    ensures forall i :: 0 <= i < 264 ==> MisreadLengths()[i] <= 3
  {
  }

  lemma {:induction false} MisreadShaped()
    ensures Shaped(Misread()) && HaveCodes(EncodeFrom(MisreadLengths(), 0), HeaderLengths())
  {
    SentAreMisread();
    var f := MisreadLengths();
    hide MisreadLengths, LiteralLengths, DistanceLengths, HeaderLengths, EncodeFrom;
    EncodeEconomical(f, 0);
    EncodingShort(f, 0);
  }

  lemma {:induction false} MisreadTokensFit()
    ensures var b := Misread();
      AllAllowed([], b.tokens) && TokensHaveCodes(b.tokens, b.lit, b.dist) && Expand([], b.tokens) == [97, 97]
  {
    hide LiteralLengths, DistanceLengths;
    var t: seq<Token> := [Literal(97), Literal(97)];
    assert t[1..] == [Literal(97)] && t[1..][1..] == [];
    assert Apply([], t[0]) == [97] && Apply([97], t[0]) == [97, 97];
  }

  lemma {:induction false} MisreadConsistent()
    ensures Consistent(Misread()) && CrossesBoundary(Misread())
  {
    MisreadShaped();
    MisreadTokensFit();
    LiteralsLeaveRoom();
    DistancesLeaveRoom();
    HeaderLeavesRoom();
    SentAreMisread();
    MisreadStraddles();
    hide LiteralLengths, DistanceLengths, HeaderLengths, MisreadLengths, EncodeFrom, Kraft, AllAllowed, TokensHaveCodes;
    hide HaveCodes, Shaped, Straddles;
  }

  // ---------------------------------------------------------------------------------------------
  // What the two lists come out as

  /** The lengths from `r` to `e` are equal, and the next one differs. */
  ghost predicate IsRun(f: seq<nat>, r: nat, e: nat) {
    r < e <= |f| && (forall i :: r <= i < e ==> f[i] == f[r]) && (e < |f| ==> f[e] != f[r])
  }

  lemma {:induction false} RunEndsAt(f: seq<nat>, r: nat, e: nat)
    requires IsRun(f, r, e)
    ensures r < e <= |f| && RunEnd(f, r, r + 1) == e && f[..r] + Repeat(f[r], e - r) == f[..e]
  {
    RunIsMaximal(f, r, r + 1);
  }

  /** The operations of one run are read as the run. */
  lemma {:induction false} ReadNextRun(f: seq<nat>, r: nat, e: nat, need: nat, prev: nat)
    requires r < e <= |f| && IsRun(f, r, e) && e <= need && f[r] <= 15
    ensures ReadLengths(EncodeFrom(f, r), need, prev, f[..r]) == ReadLengths(EncodeFrom(f, e), need, f[r], f[..e])
  {
    hide *;
    RunEndsAt(f, r, e);
    EncodeStep(f, r);
    ReadRun(f[r], e - r, EncodeFrom(f, e), need, prev, f[..r]);
  }

  /** The lengths that matter. */
  ghost predicate Pattern(f: seq<nat>) {
    && |f| == 264 && (forall i :: 0 <= i < 97 ==> f[i] == 0) && f[97] == f[98] == 3
    && (forall i :: 99 <= i < 256 ==> f[i] == 0) && (forall i :: 256 <= i < 260 ==> f[i] == 2)
    && f[260] == 0 && f[261] == 2 && f[262] == 0 && f[263] == 1
  }

  lemma {:induction false} MisreadPattern()
    ensures Pattern(MisreadLengths())
  {
  }

  /** The first list takes one length too many, which is cut off, and leaves the operations behind it. */
  lemma {:induction false} FirstList(f: seq<nat>)
    requires Pattern(f)
    ensures ReadLengths(EncodeFrom(f, 0), 259, 0, []) == Some((f[..260], EncodeFrom(f, 260)))
  {
    hide EncodeFrom, RunOps;
    assert f[..0] == [];
    ReadNextRun(f, 0, 97, 259, 0);
    ReadNextRun(f, 97, 99, 259, 0);
    ReadNextRun(f, 99, 256, 259, 3);
    RunEndsAt(f, 256, 260);
    LongRunOps(f, 256);
    var rest := EncodeFrom(f, 260);
    assert RepeatOps(3) == [Op(16, 0)];
    ReadOne(Op(2, 0), RepeatOps(3) + rest, 259, 0, f[..256]);
    ReadOne(Op(16, 0), rest, 259, 2, f[..256] + Repeat(2, 1));
    assert f[..256] + Repeat(2, 1) + Repeat(2, 3) == f[..260];
  }

  lemma {:induction false} SingleRun(f: seq<nat>, r: nat)
    requires r < |f| && (r + 1 < |f| ==> f[r + 1] != f[r])
    ensures EncodeFrom(f, r) == [Op(f[r], 0)] + EncodeFrom(f, r + 1)
  {
    RunEndsAt(f, r, r + 1);
    EncodeStep(f, r);
    assert RunOps(f[r], 1) == [Op(f[r], 0)];
    hide EncodeFrom, RunOps;
  }

  /** One length read from bits. */
  lemma {:induction false} ReadOpBits(op: Op, ops: seq<Op>, rest: seq<Op>, clens: seq<nat>, need: nat, prev: nat,
      done: seq<nat>, tail: seq<bool>)
    requires ops == [op] + rest && HaveCodes(ops, clens) && Kraft(clens, 7) && |done| < need && op.symbol <= 15
    ensures HaveCodes(rest, clens)
    ensures var v := ValueOf(op, prev);
      ReadCodeLengths(OpsBits(ops, clens) + tail, clens, need, prev, done)
        == ReadCodeLengths(OpsBits(rest, clens) + tail, clens, need, v, done + [v])
  {
    hide Kraft, ReadOp, OpBits;
    assert Repeat(op.symbol, 1) == [op.symbol];
    assert ops[1..] == rest && ops[0] == op;
    assert forall i :: 0 <= i < |rest| ==> rest[i] == ops[i + 1];
    assert OpsBits(ops, clens) + tail == OpBits(op, clens) + (OpsBits(rest, clens) + tail);
    ReadOpOf(op, clens, OpsBits(rest, clens) + tail);
  }

  /** The second list lacks a length, and reads on behind the operations. */
  lemma {:induction false} SecondList(f: seq<nat>, clens: seq<nat>, tail: seq<bool>)
    requires Pattern(f) && |clens| == 19 && HaveCodes(EncodeFrom(f, 260), clens) && Kraft(clens, 7)
    ensures ReadCodeLengths(OpsBits(EncodeFrom(f, 260), clens) + tail, clens, 5, 0, [])
         == ReadCodeLengths(tail, clens, 5, 1, [0, 2, 0, 1])
  {
    hide EncodeFrom, Kraft, OpsBits, ReadCodeLengths, HaveCodes;
    SingleRun(f, 260);
    SingleRun(f, 261);
    SingleRun(f, 262);
    SingleRun(f, 263);
    EncodeNothing(f);
    var d0: seq<nat>, d1: seq<nat>, d2: seq<nat>, d3: seq<nat> := [], [0], [0, 2], [0, 2, 0];
    ReadOpBits(Op(0, 0), EncodeFrom(f, 260), EncodeFrom(f, 261), clens, 5, 0, d0, tail);
    ReadOpBits(Op(2, 0), EncodeFrom(f, 261), EncodeFrom(f, 262), clens, 5, 0, d1, tail);
    ReadOpBits(Op(0, 0), EncodeFrom(f, 262), EncodeFrom(f, 263), clens, 5, 2, d2, tail);
    ReadOpBits(Op(1, 0), EncodeFrom(f, 263), EncodeFrom(f, 264), clens, 5, 0, d3, tail);
    assert d0 + [0] == d1 && d1 + [2] == d2 && d2 + [0] == d3 && d3 + [1] == [0, 2, 0, 1];
    NoOpsBits(clens, tail);
  }

  lemma {:induction false} NoOpsBits(clens: seq<nat>, tail: seq<bool>)
    requires |clens| == 19
    ensures OpsBits([], clens) + tail == tail
  {
    assert OpsBits([], clens) == [];
  }

  lemma {:induction false} LiteralCode()
    ensures Code(LiteralLengths(), 97) == 6
  {
    var lit := LiteralLengths();
    hide LiteralLengths;
    CountSkips(lit, 1, 0, 286);
    CountSkips(lit, 2, 0, 256);
    CountSkips(lit, 2, 259, 286);
    CountSkips(lit, 3, 0, 97);
    assert CountBefore(lit, 2, 257) == 1 && CountBefore(lit, 2, 258) == 2 && CountBefore(lit, 2, 259) == 3;
    assert FirstCode(lit, 2) == 0 && FirstCode(lit, 3) == 6;
  }

  lemma {:induction false} RepeatCode()
    ensures Code(HeaderLengths(), 17) == 6
  {
    var clens := HeaderLengths();
    hide HeaderLengths;
    CountSkips(clens, 1, 0, 19);
    CountSkips(clens, 2, 0, 19);
    CountSkips(clens, 3, 4, 15);
    assert CountBefore(clens, 3, 2) == 2 && CountBefore(clens, 3, 4) == 4 && CountBefore(clens, 3, 17) == 6;
    assert FirstCode(clens, 2) == 0 && FirstCode(clens, 3) == 0;
  }

  /** Literal 97 has the bits of the repeat of zeros. */
  lemma {:induction false} SameCode()
    ensures CodeBits(LiteralLengths(), 97) == CodeBits(HeaderLengths(), 17) && |CodeBits(LiteralLengths(), 97)| == 3
  {
    LiteralCode();
    RepeatCode();
    hide LiteralLengths, HeaderLengths, Msb, Code;
  }

  /** The missing length is read from the two literals. */
  lemma {:induction false} MissingLength(clens: seq<nat>, code: seq<bool>, tail: seq<bool>)
    requires |clens| == 19 && Kraft(clens, 7) && clens[17] > 0 && code == CodeBits(clens, 17) && |code| == 3
    ensures var r := ReadCodeLengths(code + (code + tail), clens, 5, 1, [0, 2, 0, 1]);
      r.Some? && r.value.1 == tail && r.value.0[..5] == WrongDistances()
  {
    hide Kraft, CodeBits, ReadSymbol, Value;
    ReadSymbolOf(clens, 7, 17, code + tail);
    assert (code + tail)[..3] == code && (code + tail)[3..] == tail;
    var op := Op(17, Value(code));
    assert ReadOp(code + (code + tail), clens) == Some((op, tail));
    var done := [0, 2, 0, 1] + Repeat(0, Count(op));
    assert done[..5] == WrongDistances();
  }

  lemma {:induction false} TwoListsWrong(f: seq<nat>, clens: seq<nat>, code: seq<bool>, tail: seq<bool>)
    requires Pattern(f) && HaveCodes(EncodeFrom(f, 0), clens) && Kraft(clens, 7)
    requires |clens| == 19 && clens[17] > 0 && code == CodeBits(clens, 17) && |code| == 3
    ensures ReadInTwo(OpsBits(EncodeFrom(f, 0), clens) + (code + (code + tail)), clens, 259, 5)
         == Some((f[..259], WrongDistances(), tail))
  {
    var rest := code + (code + tail);
    hide CodeBits, Kraft, EncodeFrom, OpsBits, ReadCodeLengths, ReadLengths, HaveCodes;
    FirstList(f);
    ReadCodeLengthsOf(EncodeFrom(f, 0), clens, 259, 0, [], rest);
    SecondList(f, clens, rest);
    MissingLength(clens, code, tail);
    assert f[..260][..259] == f[..259];
  }

  // ---------------------------------------------------------------------------------------------
  // What the content comes out as

  lemma {:induction false} TwoLiterals(b: Block, pad: seq<bool>)
    requires Shaped(b) && b.tokens == [Literal(97), Literal(97)]
    ensures var code := CodeBits(b.lit, 97);
      BodyBits(b) + pad == code + (code + (CodeBits(b.lit, END_OF_BLOCK) + pad))
  {
    var t := b.tokens;
    hide CodeBits, EncodeFrom;
    assert t[1..] == [Literal(97)] && t[1..][1..] == [];
    assert TokensBits(t[1..][1..], b.lit, b.dist) == [];
    assert TokensBits(t[1..], b.lit, b.dist) == CodeBits(b.lit, 97) + [];
    assert TokensBits(t, b.lit, b.dist) == CodeBits(b.lit, 97) + TokensBits(t[1..], b.lit, b.dist);
  }

  /** What a reader makes of the two lists and of the body is what it makes of the block. */
  lemma {:induction false} InflateIs(b: Block, how: Reading, lit: seq<nat>, dist: seq<nat>, rest: seq<bool>,
      out: seq<byte>, pad: seq<bool>, left: seq<bool>)
    requires Consistent(b) && Shaped(b) && Kraft(lit, 15) && Kraft(dist, 15)
    requires ReadSent(OpsBits(EncodeFrom(SentLengths(b), 0), b.clens) + (BodyBits(b) + pad), b.clens, b.n, b.m, how)
          == Some((lit, dist, rest))
    requires ReadBody(rest, lit, dist, []) == Some((out, left))
    ensures Inflate(BlockBits(b) + pad, how) == Some(out)
  {
    hide EncodeFrom, OpsBits, OrderBits, Lsb, Pow2, Straddles, Kraft, ReadHeader, CodesBits, TokensBits, CodeBits;
    hide ReadSent, BodyBits, ReadBody, Consistent;
    var head := Lsb(b.n - 257, 5) + Lsb(b.m - 1, 5) + Lsb(b.p - 4, 4) + CodesBits(b);
    var body := BodyBits(b) + pad;
    assert BlockBits(b) + pad == Lsb(1, 1) + (Lsb(2, 2) + (head + body));
    SmallPowers();
    ReadNumberOf(1, 1, Lsb(2, 2) + (head + body));
    ReadNumberOf(2, 2, head + body);
    ReadHeaderIs(b, how, body);
  }

  lemma {:induction false} EmptyContent(lit: seq<nat>, dist: seq<nat>, pad: seq<bool>)
    requires |lit| == 286 && UnusedFrom(lit, 259) && Kraft(lit, 15) && lit[END_OF_BLOCK] > 0
    ensures ReadBody(CodeBits(lit, END_OF_BLOCK) + pad, lit[..259], dist, []) == Some(([], pad))
  {
    hide Kraft, CodeBits, ReadSymbol;
    ReadSymbolTrimmed(lit, 259, 15, END_OF_BLOCK, pad);
  }

  lemma {:induction false} MisreadParts()
    ensures var b := Misread();
      && b.lit == LiteralLengths() && b.dist == DistanceLengths() && b.clens == HeaderLengths()
      && b.n == 259 && b.m == 5 && b.tokens == [Literal(97), Literal(97)]
  {
  }

  /** The two-part reader of the block gets no content. */
  lemma {:induction false} MisreadInTwo(pad: seq<bool>)
    requires Shaped(Misread())
    ensures Inflate(BlockBits(Misread()) + pad, InTwo) == Some([])
  {
    hide Misread, LiteralLengths, DistanceLengths, HeaderLengths, MisreadLengths, SentLengths, WrongDistances;
    hide EncodeFrom, OpsBits, CodeBits, Kraft, Inflate, ReadBody, ReadSent, ReadInTwo, BodyBits, BlockBits;
    hide Consistent, Shaped, UnusedFrom, Pattern;
    var b, lit := Misread(), LiteralLengths();
    var rest := CodeBits(lit, END_OF_BLOCK) + pad;
    MisreadParts();
    MisreadConsistent();
    MisreadShaped();
    MisreadPattern();
    SentAreMisread();
    SameCode();
    HeaderLeavesRoom();
    DistancesLeaveRoom();
    LiteralsLeaveRoom();
    LiteralsTrimmed();
    TwoLiterals(b, pad);
    TwoListsWrong(MisreadLengths(), HeaderLengths(), CodeBits(lit, 97), rest);
    EmptyContent(lit, WrongDistances(), pad);
    SentInTwo(OpsBits(EncodeFrom(MisreadLengths(), 0), HeaderLengths()) + (BodyBits(b) + pad), HeaderLengths());
    InflateIs(b, InTwo, lit[..259], WrongDistances(), rest, [], pad, pad);
  }

  lemma {:induction false} SentInTwo(s: seq<bool>, clens: seq<nat>)
    ensures ReadSent(s, clens, 259, 5, InTwo) == ReadInTwo(s, clens, 259, 5)
  {
  }

  lemma {:induction false} LiteralsTrimmed()
    ensures UnusedFrom(LiteralLengths(), 259) && Kraft(LiteralLengths()[..259], 15)
  {
    var lit := LiteralLengths();
    LiteralsLeaveRoom();
    hide LiteralLengths;
    KraftTrimmed(lit, 259, 15, 286);
  }

  /** The bytes hold the block, padded. */
  ghost predicate HoldsMisread(stream: seq<byte>) {
    Shaped(Misread()) && C.IsPadded(stream, BlockBits(Misread()))
  }

  lemma {:induction false} MisreadCanBeHeld()
    ensures Shaped(Misread()) && HoldsMisread(S.Bytes(BlockBits(Misread())))
  {
    MisreadShaped();
    hide Misread, Shaped, BlockBits, S.Bytes, C.IsPadded;
    S.BytesHold(BlockBits(Misread()));
  }

  /** A reader of the format gets the two literals of such bytes; one that reads the two lists apart gets nothing. */
  lemma {:induction false} MisreadContent(stream: seq<byte>)
    requires HoldsMisread(stream)
    ensures Inflate(BytesBits(stream), AsOne) == Some([97, 97]) && Inflate(BytesBits(stream), InTwo) == Some([])
  {
    MisreadConsistent();
    MisreadTokensFit();
    var b := Misread();
    hide Misread, Consistent, BlockBits, Inflate, CrossesBoundary, Shaped, BytesBits;
    C.PaddedRoundTrip(stream, b);
    MisreadInTwo(seq(8 * |stream| - |BlockBits(b)|, i => false));
  }

  /** So the decompressor reports success and loses the content. */
  method DecompressMisread(stream: seq<byte>) returns (status: D.Status, back: seq<byte>)
    requires HoldsMisread(stream)
    ensures Inflate(BytesBits(stream), AsOne) == Some([97, 97]) && status == D.Finished && back == []
  {
    hide *;
    MisreadContent(stream);
    FittingStream(stream);
    var decoder := new D.RawInflate(stream);
    status := decoder.Decompress(8 * |stream|);
    back := decoder.Output();
  }
}
