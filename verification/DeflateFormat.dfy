/**
 The format of one dynamic block, independently of how it is written or read: what bits stand for
 a header and for tokens, and a reader for bit strings after section 3.2.7 of RFC 1951.
 */
module DeflateFormat {
  import opened Options
  import opened Bits
  import opened HuffmanCodes
  import opened RunLengths
  import opened Tokens

  /**
   The order in which the lengths of the code length alphabet are sent: the repeats, zero, and then outwards from 8,
   so that the rarest lengths come last.
   */
  function Order(i: nat): (symbol: nat)
    requires i < 19
    ensures symbol < 19
    ensures i < 3 ==> symbol == 16 + i
    ensures i == 3 ==> symbol == 0
    ensures i >= 4 ==> if i % 2 == 0 then symbol - 8 == (i - 4) / 2 else 8 - symbol == (i - 3) / 2
  {
    [16, 17, 18, 0, 8, 7, 9, 6, 10, 5, 11, 4, 12, 3, 13, 2, 14, 1, 15][i]
  }

  // ----- the bits of a block

  ghost function OpBits(op: Op, clens: seq<nat>): seq<bool>
    requires WellFormed(op) && |clens| == 19
  {
    CodeBits(clens, op.symbol) + Lsb(op.extra, ExtraWidth(op.symbol))
  }

  ghost function OpsBits(ops: seq<Op>, clens: seq<nat>): seq<bool>
    requires AllWellFormed(ops) && |clens| == 19
  {
    if |ops| == 0 then [] else OpBits(ops[0], clens) + OpsBits(ops[1..], clens)
  }

  /** The first `p` lengths of the code length alphabet, three bits each. */
  ghost function OrderBits(clens: seq<nat>, p: nat): seq<bool>
    requires |clens| == 19 && p <= 19
  {
    if p == 0 then [] else OrderBits(clens, p - 1) + Lsb(clens[Order(p - 1)], 3)
  }

  ghost function TokenBits(t: Token, lit: seq<nat>, dist: seq<nat>): seq<bool>
    requires Allowed(t, 32768) && |lit| == 286 && |dist| == 30
  {
    match t
    case Literal(b) => CodeBits(lit, b)
    case Match(length, distance) =>
      LengthCodeInverse(length);
      DistanceCodeInverse(distance);
      var l, d := LengthCode(length), DistanceCode(distance);
      CodeBits(lit, l.symbol) + Lsb(l.extra, l.bits) + (CodeBits(dist, d.symbol) + Lsb(d.extra, d.bits))
  }

  ghost function TokensBits(tokens: seq<Token>, lit: seq<nat>, dist: seq<nat>): seq<bool>
    requires AllWritable(tokens) && |lit| == 286 && |dist| == 30
  {
    if |tokens| == 0 then [] else TokenBits(tokens[0], lit, dist) + TokensBits(tokens[1..], lit, dist)
  }

  /** What a block is made of: the codes of both alphabets up to their last used symbols, and the tokens. */
  datatype Block = Block(lit: seq<nat>, dist: seq<nat>, n: nat, m: nat, clens: seq<nat>, p: nat, tokens: seq<Token>)

  ghost function SentLengths(b: Block): seq<nat>
    requires b.n <= |b.lit| && b.m <= |b.dist|
  {
    b.lit[..b.n] + b.dist[..b.m]
  }

  ghost predicate Shaped(b: Block) {
    && |b.lit| == 286 && |b.dist| == 30 && |b.clens| == 19
    && 257 <= b.n <= 286 && 1 <= b.m <= 30 && 4 <= b.p <= 19
    && AllWritable(b.tokens)
    && (forall i :: 0 <= i < |SentLengths(b)| ==> SentLengths(b)[i] <= 15)
    && AllWellFormed(EncodeFrom(SentLengths(b), 0))
  }

  ghost function BodyBits(b: Block): seq<bool>
    requires Shaped(b)
  {
    TokensBits(b.tokens, b.lit, b.dist) + CodeBits(b.lit, END_OF_BLOCK)
  }

  ghost function CodesBits(b: Block): seq<bool>
    requires Shaped(b)
  {
    OrderBits(b.clens, b.p) + OpsBits(EncodeFrom(SentLengths(b), 0), b.clens)
  }

  /** One final dynamic block. */
  ghost function BlockBits(b: Block): seq<bool>
    requires Shaped(b)
  {
    Lsb(1, 1) + Lsb(2, 2) + Lsb(b.n - 257, 5) + Lsb(b.m - 1, 5) + Lsb(b.p - 4, 4) + CodesBits(b) + BodyBits(b)
  }

  // ----- reading bit strings

  /** The next `n` bits as a number, and what follows. */
  ghost function ReadNumber(s: seq<bool>, n: nat): (r: Option<(nat, seq<bool>)>)
    ensures r.Some? ==> |r.value.1| <= |s|
  {
    if |s| < n then None else Some((Value(s[..n]), s[n..]))
  }

  /** The first symbol from `n` on whose code the bit string starts with. */
  ghost function FindSymbol(lens: seq<nat>, s: seq<bool>, n: nat): (r: Option<nat>)
    requires n <= |lens|
    ensures r.Some? ==> n <= r.value < |lens| && 0 < lens[r.value] && CodeBits(lens, r.value) <= s
    decreases |lens| - n
  {
    if n == |lens| then None
    else if 0 < lens[n] && CodeBits(lens, n) <= s then Some(n)
    else FindSymbol(lens, s, n + 1)
  }

  ghost function ReadSymbol(s: seq<bool>, lens: seq<nat>): (r: Option<(nat, seq<bool>)>)
    ensures r.Some? ==> r.value.0 < |lens| && |r.value.1| < |s|
  {
    match FindSymbol(lens, s, 0)
    case None => None
    case Some(n) => Some((n, s[lens[n]..]))
  }

  ghost function ReadOp(s: seq<bool>, clens: seq<nat>): (r: Option<(Op, seq<bool>)>)
    ensures r.Some? ==> |r.value.1| < |s|
  {
    var (symbol, s1) :- ReadSymbol(s, clens);
    var (extra, s2) :- ReadNumber(s1, ExtraWidth(symbol));
    Some((Op(symbol, extra), s2))
  }

  /** Operations are read until there are `need` lengths or more. */
  ghost function ReadCodeLengths(s: seq<bool>, clens: seq<nat>, need: nat, prev: nat, done: seq<nat>):
      (r: Option<(seq<nat>, seq<bool>)>)
    ensures r.Some? ==> |r.value.0| >= need && |r.value.1| <= |s|
    decreases |s|
  {
    if |done| >= need then Some((done, s))
    else
      var (op, s1) :- ReadOp(s, clens);
      var v := ValueOf(op, prev);
      ReadCodeLengths(s1, clens, need, v, done + Repeat(v, Count(op)))
  }

  /** Both alphabets' lengths as one sequence, which a repeat must not overrun. */
  ghost function ReadAsOne(s: seq<bool>, clens: seq<nat>, n: nat, m: nat): (r: Option<(seq<nat>, seq<nat>, seq<bool>)>)
    ensures r.Some? ==> |r.value.2| <= |s|
  {
    var (lengths, s1) :- ReadCodeLengths(s, clens, n + m, 0, []);
    if |lengths| != n + m then None else Some((lengths[..n], lengths[n..], s1))
  }

  /** The two alphabets' lengths separately, cutting off repeats that overrun, as the decompressor does. */
  ghost function ReadInTwo(s: seq<bool>, clens: seq<nat>, n: nat, m: nat): (r: Option<(seq<nat>, seq<nat>, seq<bool>)>)
    ensures r.Some? ==> |r.value.2| <= |s|
  {
    var (first, s1) :- ReadCodeLengths(s, clens, n, 0, []);
    var (second, s2) :- ReadCodeLengths(s1, clens, m, 0, []);
    Some((first[..n], second[..m], s2))
  }

  /** The first `p` lengths of the code length alphabet; the others are 0. */
  ghost function ReadOrder(s: seq<bool>, p: nat): (r: Option<(seq<nat>, seq<bool>)>)
    requires p <= 19
    ensures r.Some? ==> |r.value.1| <= |s|
  {
    if p == 0 then Some((seq(19, i => 0), s))
    else
      var (clens, s1) :- ReadOrder(s, p - 1);
      var (v, s2) :- ReadNumber(s1, 3);
      if |clens| != 19 then None else Some((clens[Order(p - 1) := v], s2))
  }

  ghost function ReadMatch(s: seq<bool>, symbol: nat, dist: seq<nat>): (r: Option<(Token, seq<bool>)>)
    ensures r.Some? ==> r.value.0.Match? && |r.value.1| <= |s|
  {
    if symbol < 257 || symbol > 285 then None
    else
      var (x, s1) :- ReadNumber(s, LengthBits(symbol));
      var (code, s2) :- ReadSymbol(s1, dist);
      if code > 29 then None
      else
        var (y, s3) :- ReadNumber(s2, DistanceBits(code));
        Some((Match(LengthBase(symbol) + x, DistanceBase(code) + y), s3))
  }

  /** The tokens up to the end of the block, applied to the output so far. */
  ghost function ReadBody(s: seq<bool>, lit: seq<nat>, dist: seq<nat>, out: seq<byte>):
      (r: Option<(seq<byte>, seq<bool>)>)
    ensures r.Some? ==> |out| <= |r.value.0|
    decreases |s|
  {
    var (symbol, s1) :- ReadSymbol(s, lit);
    if symbol < 256 then ReadBody(s1, lit, dist, out + [symbol])
    else if symbol == 256 then Some((out, s1))
    else
      var (t, s2) :- ReadMatch(s1, symbol, dist);
      if t.distance > |out| then None else ReadBody(s2, lit, dist, Apply(out, t))
  }

  datatype Reading = AsOne | InTwo

  ghost function ReadSent(s: seq<bool>, clens: seq<nat>, n: nat, m: nat, how: Reading):
      (r: Option<(seq<nat>, seq<nat>, seq<bool>)>)
    ensures r.Some? ==> |r.value.2| <= |s|
  {
    if how == AsOne then ReadAsOne(s, clens, n, m) else ReadInTwo(s, clens, n, m)
  }

  /** The lengths of both alphabets; oversubscribed codes are rejected. */
  ghost function ReadHeader(s: seq<bool>, how: Reading): (r: Option<(seq<nat>, seq<nat>, seq<bool>)>)
    ensures r.Some? ==> |r.value.2| <= |s|
  {
    var (n, s1) :- ReadNumber(s, 5);
    var (m, s2) :- ReadNumber(s1, 5);
    var (p, s3) :- ReadNumber(s2, 4);
    if p > 15 then None
    else
      var (clens, s4) :- ReadOrder(s3, p + 4);
      if !Kraft(clens, 7) then None
      else
        var (lit, dist, s5) :- ReadSent(s4, clens, n + 257, m + 1, how);
        if Kraft(lit, 15) && Kraft(dist, 15) then Some((lit, dist, s5)) else None
  }

  /** The content of a stream of one final dynamic block. */
  ghost function Inflate(s: seq<bool>, how: Reading): Option<seq<byte>> {
    var (last, s1) :- ReadNumber(s, 1);
    var (kind, s2) :- ReadNumber(s1, 2);
    if last != 1 || kind != 2 then None
    else
      var (lit, dist, s3) :- ReadHeader(s2, how);
      var (out, s4) :- ReadBody(s3, lit, dist, []);
      Some(out)
  }
}
