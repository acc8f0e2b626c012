/**
 The tokens of the compressed representation and the symbols that stand for them
 (section 3.2.5 of RFC 1951).
 */
module Tokens {
  import opened Bits

  /** A byte, or a copy of `length` bytes from `distance` bytes back. */
  datatype Token = Literal(value: byte) | Match(length: nat, distance: nat)

  /** A symbol with the value and the number of its extra bits. */
  datatype Coded = Coded(symbol: nat, extra: nat, bits: nat)

  const END_OF_BLOCK := 256

  // ----- the compressor's tables (`Fa`, and the switch of the minified `c` inside `na`)

  function LengthCode(n: nat): Coded
    requires 3 <= n <= 258
  {
    if n <= 10 then Coded(254 + n, 0, 0)
    else if n <= 12 then Coded(265, n - 11, 1)
    else if n <= 14 then Coded(266, n - 13, 1)
    else if n <= 16 then Coded(267, n - 15, 1)
    else if n <= 18 then Coded(268, n - 17, 1)
    else if n <= 22 then Coded(269, n - 19, 2)
    else if n <= 26 then Coded(270, n - 23, 2)
    else if n <= 30 then Coded(271, n - 27, 2)
    else if n <= 34 then Coded(272, n - 31, 2)
    else if n <= 42 then Coded(273, n - 35, 3)
    else if n <= 50 then Coded(274, n - 43, 3)
    else if n <= 58 then Coded(275, n - 51, 3)
    else if n <= 66 then Coded(276, n - 59, 3)
    else if n <= 82 then Coded(277, n - 67, 4)
    else if n <= 98 then Coded(278, n - 83, 4)
    else if n <= 114 then Coded(279, n - 99, 4)
    else if n <= 130 then Coded(280, n - 115, 4)
    else if n <= 162 then Coded(281, n - 131, 5)
    else if n <= 194 then Coded(282, n - 163, 5)
    else if n <= 226 then Coded(283, n - 195, 5)
    else if n <= 257 then Coded(284, n - 227, 5)
    else Coded(285, n - 258, 0)
  }

  function DistanceCode(n: nat): Coded
    requires 1 <= n <= 32768
  {
    if n <= 4 then Coded(n - 1, 0, 0)
    else if n <= 6 then Coded(4, n - 5, 1)
    else if n <= 8 then Coded(5, n - 7, 1)
    else if n <= 12 then Coded(6, n - 9, 2)
    else if n <= 16 then Coded(7, n - 13, 2)
    else if n <= 24 then Coded(8, n - 17, 3)
    else if n <= 32 then Coded(9, n - 25, 3)
    else if n <= 48 then Coded(10, n - 33, 4)
    else if n <= 64 then Coded(11, n - 49, 4)
    else if n <= 96 then Coded(12, n - 65, 5)
    else if n <= 128 then Coded(13, n - 97, 5)
    else if n <= 192 then Coded(14, n - 129, 6)
    else if n <= 256 then Coded(15, n - 193, 6)
    else if n <= 384 then Coded(16, n - 257, 7)
    else if n <= 512 then Coded(17, n - 385, 7)
    else if n <= 768 then Coded(18, n - 513, 8)
    else if n <= 1024 then Coded(19, n - 769, 8)
    else if n <= 1536 then Coded(20, n - 1025, 9)
    else if n <= 2048 then Coded(21, n - 1537, 9)
    else if n <= 3072 then Coded(22, n - 2049, 10)
    else if n <= 4096 then Coded(23, n - 3073, 10)
    else if n <= 6144 then Coded(24, n - 4097, 11)
    else if n <= 8192 then Coded(25, n - 6145, 11)
    else if n <= 12288 then Coded(26, n - 8193, 12)
    else if n <= 16384 then Coded(27, n - 12289, 12)
    else if n <= 24576 then Coded(28, n - 16385, 13)
    else Coded(29, n - 24577, 13)
  }

  // ----- the decompressor's tables (`E`, `G`, `I`, `K`)

  function LengthBase(symbol: nat): nat
    requires 257 <= symbol <= 287
  {
    [3,4,5,6,7,8,9,10,11,13,15,17,19,23,27,31,35,43,51,59,67,83,99,115,131,163,195,227,258,258,258][symbol - 257]
  }

  function LengthBits(symbol: nat): nat
    requires 257 <= symbol <= 287
  {
    [0,0,0,0,0,0,0,0,1,1,1,1,2,2,2,2,3,3,3,3,4,4,4,4,5,5,5,5,0,0,0][symbol - 257]
  }

  function DistanceBase(symbol: nat): nat
    requires symbol <= 29
  {
    [1, 2, 3, 4, 5, 7, 9, 13, 17, 25, 33, 49, 65, 97, 129, 193, 257, 385, 513, 769, 1025, 1537, 2049, 3073,
     4097, 6145, 8193, 12289, 16385, 24577][symbol]
  }

  function DistanceBits(symbol: nat): nat
    requires symbol <= 29
  {
    [0,0,0,0,1,1,2,2,3,3,4,4,5,5,6,6,7,7,8,8,9,9,10,10,11,11,12,12,13,13][symbol]
  }

  lemma {:induction false} SmallPowers()
    ensures Pow2(0) == 1 && Pow2(1) == 2 && Pow2(2) == 4 && Pow2(3) == 8 && Pow2(4) == 16 && Pow2(5) == 32
    ensures Pow2(6) == 64 && Pow2(7) == 128 && Pow2(8) == 256 && Pow2(9) == 512 && Pow2(10) == 1024
    ensures Pow2(11) == 2048 && Pow2(12) == 4096 && Pow2(13) == 8192
  {
    assert Pow2(3) == 2 * Pow2(2);
    assert Pow2(4) == 2 * Pow2(3);
    assert Pow2(5) == 2 * Pow2(4);
    assert Pow2(6) == 2 * Pow2(5);
    assert Pow2(7) == 2 * Pow2(6);
    assert Pow2(8) == 2 * Pow2(7);
    assert Pow2(9) == 2 * Pow2(8);
    assert Pow2(10) == 2 * Pow2(9);
    assert Pow2(11) == 2 * Pow2(10);
    assert Pow2(12) == 2 * Pow2(11);
    assert Pow2(13) == 2 * Pow2(12);
  }

  lemma {:induction false} LargePowers()
    ensures Pow2(13) == 8192 && Pow2(14) == 16384 && Pow2(15) == 32768
  {
    assert Pow2(13) == 2 * Pow2(12) && Pow2(12) == 2 * Pow2(11) && Pow2(11) == 2 * Pow2(10);
    assert Pow2(10) == 2 * Pow2(9) && Pow2(9) == 2 * Pow2(8) && Pow2(8) == 2 * Pow2(7);
  }

  ghost predicate LengthInverts(n: nat)
    requires 3 <= n <= 258
  {
    var c := LengthCode(n);
    257 <= c.symbol <= 285 && c.bits <= 5 && c.extra < Pow2(c.bits)
    && LengthBits(c.symbol) == c.bits && LengthBase(c.symbol) + c.extra == n
  }

  lemma {:induction false} ShortLength(n: nat)
    requires 3 <= n <= 34
    ensures LengthInverts(n)
  {
    hide Pow2;
    SmallPowers();
  }

  lemma {:induction false} LongLength(n: nat)
    requires 35 <= n <= 258
    ensures LengthInverts(n)
  {
    hide Pow2;
    SmallPowers();
  }

  /** The decompressor's tables invert the compressor's length codes, and the extra value fits its bits. */
  lemma {:induction false} LengthCodeInverse(n: nat)
    requires 3 <= n <= 258
    ensures var c := LengthCode(n);
      257 <= c.symbol <= 285 && c.bits <= 5 && c.extra < Pow2(c.bits)
      && LengthBits(c.symbol) == c.bits && LengthBase(c.symbol) + c.extra == n
  {
    hide Pow2, LengthCode, LengthBits, LengthBase;
    if n <= 34 { ShortLength(n); } else { LongLength(n); }
  }

  ghost predicate DistanceInverts(n: nat)
    requires 1 <= n <= 32768
  {
    var c := DistanceCode(n);
    c.symbol <= 29 && c.bits <= 13 && c.extra < Pow2(c.bits)
    && DistanceBits(c.symbol) == c.bits && DistanceBase(c.symbol) + c.extra == n
  }

  lemma {:induction false} NearDistance(n: nat)
    requires 1 <= n <= 256
    ensures DistanceInverts(n)
  {
    hide Pow2;
    SmallPowers();
  }

  lemma {:induction false} FarDistance(n: nat)
    requires 257 <= n <= 32768
    ensures DistanceInverts(n)
  {
    hide Pow2;
    SmallPowers();
  }

  lemma {:induction false} DistanceCodeInverse(n: nat)
    requires 1 <= n <= 32768
    ensures var c := DistanceCode(n);
      c.symbol <= 29 && c.bits <= 13 && c.extra < Pow2(c.bits)
      && DistanceBits(c.symbol) == c.bits && DistanceBase(c.symbol) + c.extra == n
  {
    hide Pow2, DistanceCode, DistanceBits, DistanceBase;
    if n <= 256 { NearDistance(n); } else { FarDistance(n); }
  }

  // ----- what tokens stand for

  /** One byte of a copy; a cell that does not exist reads as 0. */
  function Back(out: seq<byte>, distance: nat): byte {
    if 0 < distance <= |out| then out[|out| - distance] else 0
  }

  /** Copies byte by byte, so that a copy may overlap its own output. */
  function Copy(out: seq<byte>, length: nat, distance: nat): (r: seq<byte>)
    ensures |r| == |out| + length
    decreases length
  {
    if length == 0 then out else Copy(out + [Back(out, distance)], length - 1, distance)
  }

  function Apply(out: seq<byte>, t: Token): seq<byte> {
    match t
    case Literal(b) => out + [b]
    case Match(length, distance) => Copy(out, length, distance)
  }

  function Expand(out: seq<byte>, tokens: seq<Token>): seq<byte>
    decreases |tokens|
  {
    if |tokens| == 0 then out else Expand(Apply(out, tokens[0]), tokens[1..])
  }

  /** The token is one the format allows after `produced` bytes. */
  predicate Allowed(t: Token, produced: nat) {
    t.Match? ==> 3 <= t.length <= 258 && 1 <= t.distance <= 32768 && t.distance <= produced
  }

  predicate AllAllowed(out: seq<byte>, tokens: seq<Token>)
    decreases |tokens|
  {
    |tokens| == 0 || (Allowed(tokens[0], |out|) && AllAllowed(Apply(out, tokens[0]), tokens[1..]))
  }

  lemma {:induction false} ExpandAppend(out: seq<byte>, tokens: seq<Token>, t: Token)
    ensures Expand(out, tokens + [t]) == Apply(Expand(out, tokens), t)
    ensures AllAllowed(out, tokens + [t]) <==> AllAllowed(out, tokens) && Allowed(t, |Expand(out, tokens)|)
    decreases |tokens|
  {
    if |tokens| == 0 {
      assert (tokens + [t])[1..] == [];
    } else {
      assert (tokens + [t])[1..] == tokens[1..] + [t];
      ExpandAppend(Apply(out, tokens[0]), tokens[1..], t);
    }
  }

  ghost predicate SameByte(data: seq<byte>, j: nat, distance: nat)
    requires distance <= j < |data|
  {
    data[j] == data[j - distance]
  }

  /** The `length` bytes from `at` on also stand `distance` bytes earlier. */
  ghost predicate Repeats(data: seq<byte>, at: nat, length: nat, distance: nat) {
    && 0 < distance <= at && at + length <= |data|
    && forall j :: at <= j < at + length ==> SameByte(data, j, distance)
  }

  /** Copying from an earlier occurrence reproduces the data, even where source and target overlap. */
  lemma {:induction false} CopyReproduces(data: seq<byte>, at: nat, length: nat, distance: nat)
    requires Repeats(data, at, length, distance)
    ensures Copy(data[..at], length, distance) == data[..at + length]
    decreases length
  {
    if length > 0 {
      assert SameByte(data, at, distance);
      assert data[..at] + [Back(data[..at], distance)] == data[..at + 1];
      CopyReproduces(data, at + 1, length - 1, distance);
    }
  }

  // ----- the flat form the compressor keeps tokens in

  function FlatToken(t: Token): seq<nat>
    requires Allowed(t, 32768)
  {
    match t
    case Literal(b) => [b]
    case Match(length, distance) =>
      var l, d := LengthCode(length), DistanceCode(distance);
      [l.symbol, l.extra, l.bits, d.symbol, d.extra, d.bits]
  }

  ghost predicate AllWritable(tokens: seq<Token>) {
    forall i :: 0 <= i < |tokens| ==> Allowed(tokens[i], 32768)
  }

  function FlatTokens(tokens: seq<Token>): seq<nat>
    requires AllWritable(tokens)
  {
    if |tokens| == 0 then [] else FlatTokens(tokens[..|tokens| - 1]) + FlatToken(tokens[|tokens| - 1])
  }

  /** The literal/length symbol of a token. */
  function SymbolOf(t: Token): nat
    requires Allowed(t, 32768)
  {
    if t.Literal? then t.value else LengthCode(t.length).symbol
  }

  /** How many tokens use literal/length symbol `s`. */
  function LiteralCount(tokens: seq<Token>, s: nat): nat
    requires AllWritable(tokens)
  {
    if |tokens| == 0 then 0
    else
      var here := if SymbolOf(tokens[|tokens| - 1]) == s then 1 else 0;
      LiteralCount(tokens[..|tokens| - 1], s) + here
  }

  function DistanceCount(tokens: seq<Token>, s: nat): nat
    requires AllWritable(tokens)
  {
    if |tokens| == 0 then 0
    else
      var last := tokens[|tokens| - 1];
      var here := if last.Match? && DistanceCode(last.distance).symbol == s then 1 else 0;
      DistanceCount(tokens[..|tokens| - 1], s) + here
  }
}
