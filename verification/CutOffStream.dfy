/**
 A stream that outruns the decompressor's buffer: one zero and 128 matches of length 258, with a code of 15 bits for
 the zero, one bit for the matches and two for the end of the block.
 */
module CutOffStream {
  import opened Options
  import opened Bits
  import opened HuffmanCodes
  import opened RunLengths
  import opened Tokens
  import opened DeflateFormat
  import opened BlockReading
  import opened BufferGrowth
  import C = RawDeflate
  import D = RawInflate

  function LiteralLengths(): (lens: seq<nat>)
    ensures |lens| == 286 && lens[0] == 15 && lens[256] == 2 && lens[285] == 1
    ensures forall i :: 0 < i < 256 || 256 < i < 285 ==> lens[i] == 0
  {
    [15] + Repeat(0, 255) + [2] + Repeat(0, 28) + [1]
  }

  function DistanceLengths(): (lens: seq<nat>)
    ensures |lens| == 30 && lens[0] == 1 && forall i :: 0 < i < 30 ==> lens[i] == 0
  {
    [1] + Repeat(0, 29)
  }

  function RunTokens(k: nat): (tokens: seq<Token>)
    ensures |tokens| == k && forall i :: 0 <= i < k ==> tokens[i] == Match(258, 1)
  {
    if k == 0 then [] else [Match(258, 1)] + RunTokens(k - 1)
  }

  function LongRun(): Block {
    Block(LiteralLengths(), DistanceLengths(), 286, 1, Repeat(5, 19), 19, [Literal(0)] + RunTokens(128))
  }

  // ---------------------------------------------------------------------------------------------
  // The block is one that the format allows

  lemma {:induction false} FivesAdd(n: nat)
    requires n <= 19
    ensures KraftSum(Repeat(5, 19), 7, 7, n) == 4 * n
  {
    if n > 0 {
      FivesAdd(n - 1);
    }
  }

  lemma {:induction false} AllLeaveRoom()
    ensures Kraft(LiteralLengths(), 15) && Kraft(DistanceLengths(), 7) && Kraft(Repeat(5, 19), 7)
  {
    var lit, dist := LiteralLengths(), DistanceLengths();
    hide Pow2, LiteralLengths, DistanceLengths;
    SmallPowers();
    ZerosAddNothing(lit, 15, 1, 256);
    ZerosAddNothing(lit, 15, 257, 285);
    ZerosAddNothing(dist, 7, 1, 30);
    LargePowers();
    assert KraftSum(lit, 15, 15, 1) == 1 && KraftSum(lit, 15, 15, 257) == 1 + Pow2(13);
    FivesAdd(19);
  }

  lemma {:induction false} RunExpands(out: seq<byte>, k: nat)
    requires |out| > 0
    ensures AllAllowed(out, RunTokens(k)) && |Expand(out, RunTokens(k))| == |out| + 258 * k
    decreases k
  {
    if k > 0 {
      var t := Match(258, 1);
      assert RunTokens(k)[1..] == RunTokens(k - 1);
      RunExpands(Apply(out, t), k - 1);
    }
  }

  lemma {:induction false} LongRunShaped()
    ensures Shaped(LongRun()) && !CrossesBoundary(LongRun())
    ensures HaveCodes(EncodeFrom(SentLengths(LongRun()), 0), LongRun().clens)
  {
    hide LiteralLengths, DistanceLengths, RunTokens, EncodeFrom;
    var b := LongRun();
    var f := SentLengths(b);
    assert |f| == 287 && f[285] == 1 && f[286] == 1 && f[284] == 0;
    assert forall i :: 0 <= i < 287 ==> f[i] == if i < 286 then LiteralLengths()[i] else 1;
    EncodeEconomical(f, 0);
    assert forall i :: 0 <= i < |b.tokens| ==> b.tokens[i] == if i == 0 then Literal(0) else Match(258, 1);
  }

  lemma {:induction false} LongRunExpands()
    ensures AllAllowed([], LongRun().tokens) && |Expand([], LongRun().tokens)| == 33025
  {
    RunExpands([0], 128);
    AfterLiteral(0, RunTokens(128));
    hide RunTokens, Expand, AllAllowed;
  }

  lemma {:induction false} AfterLiteral(x: byte, ts: seq<Token>)
    ensures AllAllowed([], [Literal(x)] + ts) == AllAllowed([x], ts)
    ensures Expand([], [Literal(x)] + ts) == Expand([x], ts)
  {
    assert ([Literal(x)] + ts)[1..] == ts;
    assert Apply([], Literal(x)) == [x];
  }

  lemma {:induction false} LongRunHaveCodes()
    ensures var b := LongRun(); TokensHaveCodes(b.tokens, b.lit, b.dist)
  {
    hide LiteralLengths, DistanceLengths, RunTokens, LengthCode, DistanceCode;
    var b := LongRun();
    MatchSymbols();
    forall i | 0 <= i < |b.tokens| ensures TokenHasCodes(b.tokens[i], b.lit, b.dist) {
      assert b.tokens[i] == if i == 0 then Literal(0) else Match(258, 1);
    }
  }

  lemma {:induction false} LongRunConsistent()
    ensures Consistent(LongRun())
  {
    LongRunShaped();
    LongRunExpands();
    LongRunHaveCodes();
    AllLeaveRoom();
    hide LiteralLengths, DistanceLengths, RunTokens, EncodeFrom, Kraft, AllAllowed, TokensHaveCodes, HaveCodes, Shaped;
  }

  lemma {:induction false} MatchSymbols()
    ensures SymbolOf(Match(258, 1)) == 285 && LengthCode(258).bits == 0
    ensures DistanceCode(1).symbol == 0 && DistanceCode(1).bits == 0
  {
  }

  // ---------------------------------------------------------------------------------------------
  // Its body outruns the buffer

  /** Once past the end, always past the end. */
  lemma {:induction false} StaysPast(size: nat, s: seq<bool>, symbol: nat, dist: seq<nat>)
    requires 257 <= symbol <= 287
    ensures AfterMatch(size, size + 1, s, symbol, dist) == size + 1
  {
    hide ReadSymbol, Longest;
  }

  /** The bits of `k` matches and the end of the block. */
  ghost function RunBits(lit: seq<nat>, dist: seq<nat>, k: nat, pad: seq<bool>): seq<bool>
    requires |lit| == 286 && |dist| == 30
  {
    TokensBits(RunTokens(k), lit, dist) + CodeBits(lit, END_OF_BLOCK) + pad
  }

  /** Codes of the lengths of the block. */
  ghost predicate RunCodes(lit: seq<nat>, dist: seq<nat>) {
    Codes(lit, dist, 286, 1) && lit[0] == 15 && lit[256] == 2 && lit[285] == 1 && dist[0] == 1
  }

  /** A match takes one bit for its length and one for its distance. */
  lemma {:induction false} RunBitsNext(lit: seq<nat>, dist: seq<nat>, k: nat, pad: seq<bool>)
    requires RunCodes(lit, dist) && k > 0
    ensures RunBits(lit, dist, k, pad) == TokenBits(Match(258, 1), lit, dist) + RunBits(lit, dist, k - 1, pad)
    ensures |TokenBits(Match(258, 1), lit, dist)| == 2 && |RunBits(lit, dist, 0, pad)| == 2 + |pad|
  {
    hide CodeBits, Lsb, LengthCode, DistanceCode, Codes;
    MatchSymbols();
    assert RunTokens(k)[1..] == RunTokens(k - 1);
  }

  lemma {:induction false} ReadRun(lit: seq<nat>, dist: seq<nat>, k: nat, pad: seq<bool>)
    requires RunCodes(lit, dist) && k > 0
    ensures var s1 := ReadSymbol(RunBits(lit, dist, k, pad), lit[..286]);
      && s1.Some? && s1.value.0 == 285
      && ReadMatch(s1.value.1, 285, dist[..1]) == Some((Match(258, 1), RunBits(lit, dist, k - 1, pad)))
  {
    hide LengthCode, DistanceCode, ReadSymbol, ReadMatch, RunBits, Kraft, CodeBits;
    MatchSymbols();
    RunBitsNext(lit, dist, k, pad);
    var rest := RunBits(lit, dist, k - 1, pad);
    ReadMatchOf(Match(258, 1), lit, dist, 286, 1, rest);
    var more := CodeBits(dist, 0) + rest;
    assert RunBits(lit, dist, k, pad) == CodeBits(lit, 285) + more;
    ReadSymbolTrimmed(lit, 286, 15, 285, more);
  }

  /** The last match does not fit, and its length symbol was looked for past the end. */
  lemma {:induction false} RunOutruns(
      size: nat, lit: seq<nat>, dist: seq<nat>, k: nat, pad: seq<bool>, ip: nat)
    requires RunCodes(lit, dist) && 1 <= k <= 128 && |pad| < 8 && ip <= size + 1 && Longest(lit[..286]) == 15
    ensures Outruns(size, RunBits(lit, dist, k, pad), lit[..286], dist[..1], 33025 - 258 * k, ip, FIRST_SIZE)
    decreases k
  {
    hide Kraft, UnusedFrom, RunBits, ReadSymbol, ReadMatch, AfterMatch, Longest, Outruns;
    var s, done := RunBits(lit, dist, k, pad), 33025 - 258 * k;
    ReadRun(lit, dist, k, pad);
    OutrunsStep(size, s, lit[..286], dist[..1], done, ip, FIRST_SIZE);
    var ip1 := Fetched(size, ip, |s|, 15);
    var s1 := ReadSymbol(s, lit[..286]).value.1;
    var ip2 := AfterMatch(size, ip1, s1, 285, dist[..1]);
    if k > 1 {
      RunOutruns(size, lit, dist, k - 1, pad, ip2);
    } else {
      RunBitsNext(lit, dist, 1, pad);
      assert |s| <= 11 && ip1 == size + 1;
      StaysPast(size, s1, 285, dist[..1]);
    }
  }

  lemma {:induction false} LongRunBits(lit: seq<nat>, dist: seq<nat>, pad: seq<bool>)
    requires |lit| == 286 && |dist| == 30 && AllWritable([Literal(0)] + RunTokens(128))
    ensures TokensBits([Literal(0)] + RunTokens(128), lit, dist) + CodeBits(lit, END_OF_BLOCK) + pad
         == CodeBits(lit, 0) + RunBits(lit, dist, 128, pad)
  {
    hide RunTokens, CodeBits;
    assert ([Literal(0)] + RunTokens(128))[1..] == RunTokens(128);
  }

  lemma {:induction false} WholeRunOutruns(size: nat, lit: seq<nat>, dist: seq<nat>, pad: seq<bool>)
    requires RunCodes(lit, dist) && |pad| < 8 && Longest(lit[..286]) == 15
    ensures Outruns(size, CodeBits(lit, 0) + RunBits(lit, dist, 128, pad), lit[..286], dist[..1], 0, 0, FIRST_SIZE)
  {
    hide Longest, Kraft, Outruns, ReadSymbol, RunBits, CodeBits;
    var rest := RunBits(lit, dist, 128, pad);
    ReadSymbolTrimmed(lit, 286, 15, 0, rest);
    OutrunsStep(size, CodeBits(lit, 0) + rest, lit[..286], dist[..1], 0, 0, FIRST_SIZE);
    RunOutruns(size, lit, dist, 128, pad, Fetched(size, 0, |CodeBits(lit, 0) + rest|, 15));
  }

  lemma {:induction false} RunBlockOutruns(size: nat, b: Block, pad: seq<bool>)
    requires Shaped(b) && b.tokens == [Literal(0)] + RunTokens(128) && |pad| < 8
    requires RunCodes(b.lit, b.dist) && Longest(b.lit[..286]) == 15
    ensures Outruns(size, BodyBits(b) + pad, b.lit[..286], b.dist[..1], 0, 0, FIRST_SIZE)
  {
    hide Longest, Kraft, Outruns, RunCodes, RunBits, RunTokens, CodeBits, TokensBits, EncodeFrom, UnusedFrom;
    LongRunBits(b.lit, b.dist, pad);
    WholeRunOutruns(size, b.lit, b.dist, pad);
  }

  lemma {:induction false} LongRunCodes()
    ensures RunCodes(LiteralLengths(), DistanceLengths()) && Longest(LiteralLengths()[..286]) == 15
    ensures 0 in LiteralLengths()[..286]
  {
    var lit := LiteralLengths();
    AllLeaveRoom();
    hide LiteralLengths, DistanceLengths, Kraft, Longest;
    assert lit[..286] == lit && lit[1] == 0;
    LongestIs(lit, 15);
  }

  /** The bytes hold the block, padded. */
  ghost predicate HoldsLongRun(stream: seq<byte>) {
    Shaped(LongRun()) && C.IsPadded(stream, BlockBits(LongRun()))
  }

  ghost function LongContent(): seq<byte> {
    Expand([], LongRun().tokens)
  }

  /** A bit string as bytes, the last one filled up with zeros. */
  ghost function Bytes(bits: seq<bool>): seq<byte> {
    if bits == [] then []
    else
      var n := if |bits| < 8 then |bits| else 8;
      SmallPowers();
      Pow2Mono(n, 8);
      [Value(bits[..n])] + Bytes(bits[n..])
  }

  lemma {:induction false} BytesHold(bits: seq<bool>)
    ensures C.IsPadded(Bytes(bits), bits)
    decreases |bits|
  {
    hide Lsb, Value, Pow2;
    if |bits| >= 8 {
      BytesHold(bits[8..]);
      LsbValue(bits[..8]);
      var rest := Bytes(bits[8..]);
      assert Bytes(bits)[1..] == rest;
      assert bits == bits[..8] + bits[8..];
      assert BytesBits(Bytes(bits)) == bits[..8] + (bits[8..] + seq(8 * |rest| - |bits[8..]|, i => false));
      assert 8 * |rest| - |bits[8..]| == 8 * |Bytes(bits)| - |bits|;
    } else if |bits| > 0 {
      var n := |bits|;
      assert bits[..n] == bits && bits[n..] == [];
      LsbValue(bits);
      LsbSplit(Value(bits), n, 8 - n);
      LowSmall(Value(bits), n);
      LsbZero(8 - n);
      assert BytesBits(Bytes(bits)) == Lsb(Value(bits), 8) by { assert Bytes(bits)[1..] == []; }
    }
  }

  /** There are such bytes. */
  lemma {:induction false} LongRunCanBeHeld()
    ensures Shaped(LongRun()) && HoldsLongRun(Bytes(BlockBits(LongRun())))
  {
    LongRunShaped();
    hide LongRun, Shaped, BlockBits, Bytes, C.IsPadded;
    BytesHold(BlockBits(LongRun()));
  }

  /** The content of such bytes is read by a reader of the format, but the decompressor cuts it off. */
  lemma {:induction false} LongRunIsCutOff(stream: seq<byte>)
    requires HoldsLongRun(stream)
    ensures Inflate(BytesBits(stream), InTwo) == Some(LongContent()) && |LongContent()| == 33025
    ensures CutsOff(stream) && !AllCoded(stream)
  {
    LongRunConsistent();
    LongRunShaped();
    LongRunExpands();
    LongRunCodes();
    var b := LongRun();
    hide LongRun, Consistent, Outruns, BlockBits, Inflate, RunCodes, Longest, RunTokens, BodyBits, CrossesBoundary,
      Shaped, BytesBits;
    C.PaddedRoundTrip(stream, b);
    var pad := seq(8 * |stream| - |BlockBits(b)|, i => false);
    BodyOfBlock(stream, b, pad);
    LongRunParts();
    RunBlockOutruns(|stream|, b, pad);
  }

  lemma {:induction false} LongRunParts()
    ensures var b := LongRun();
      b.lit == LiteralLengths() && b.dist == DistanceLengths() && b.n == 286 && b.m == 1
      && b.tokens == [Literal(0)] + RunTokens(128)
  {
  }

  /** So the decompressor reports success and gives less than the content. */
  method DecompressLongRun(stream: seq<byte>) returns (status: D.Status, back: seq<byte>)
    requires HoldsLongRun(stream)
    ensures status == D.Finished && |LongContent()| == 33025 && back < LongContent()
  {
    hide *;
    LongRunIsCutOff(stream);
    var decoder := new D.RawInflate(stream);
    status := decoder.Decompress(8 * |stream|);
    back := decoder.Output();
  }
}
