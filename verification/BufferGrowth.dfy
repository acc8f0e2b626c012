/**
 When the decompressor's output buffer is too small: a simulation of how far it has read and how large its buffer is
 while it expands the body of a block, as a function of the bits of the body.
 */
module BufferGrowth {
  import opened Options
  import opened Bits
  import opened HuffmanCodes
  import opened RunLengths
  import opened Tokens
  import opened DeflateFormat
  import opened BlockReading

  /** The size the buffer starts with. */
  const FIRST_SIZE := 32768

  function Longest(lens: seq<nat>): nat {
    if lens == [] then 0
    else
      var m := Longest(lens[..|lens| - 1]);
      if lens[|lens| - 1] > m then lens[|lens| - 1] else m
  }

  lemma {:induction false} LongestIs(lens: seq<nat>, n: nat)
    requires n in lens && forall i :: 0 <= i < |lens| ==> lens[i] <= n
    ensures Longest(lens) == n
  {
    LongestBounds(lens);
  }

  lemma {:induction false} LongestBounds(lens: seq<nat>)
    ensures forall i :: 0 <= i < |lens| ==> lens[i] <= Longest(lens)
    ensures lens != [] ==> Longest(lens) in lens
  {
    if lens != [] {
      LongestBounds(lens[..|lens| - 1]);
    }
  }

  /**
   How many bytes of an input of `size` bytes have been fetched once there are `need` bits at hand, or the input has
   ended, when `left` bits had not been used before: whole bytes, and no more than needed. One more than `size`
   stands for every index past the end.
   */
  function Fetched(size: nat, ip: nat, left: nat, need: nat): (r: nat)
    ensures r <= size + 1
  {
    var want := (8 * size - left + need + 7) / 8;
    if ip > size then size + 1 else if want <= ip then ip else if want <= size then want else size + 1
  }

  /** The same after the rest of a match whose length symbol has been read. */
  ghost function AfterMatch(size: nat, ip: nat, s: seq<bool>, symbol: nat, dist: seq<nat>): (r: nat)
    requires 257 <= symbol <= 287 && ip <= size + 1
    ensures r <= size + 1
  {
    var x := LengthBits(symbol);
    var ip1 := if x == 0 then ip else Fetched(size, ip, |s|, x);
    if |s| < x then ip1
    else
      var ip2 := Fetched(size, ip1, |s| - x, Longest(dist));
      match ReadSymbol(s[x..], dist)
      case None => ip2
      case Some((code, s2)) =>
        if code > 29 || DistanceBits(code) == 0 then ip2 else Fetched(size, ip2, |s2|, DistanceBits(code))
  }

  /** The size of the buffer after it was told to grow: by the ratio of the input to what has been fetched of it. */
  function Grown(size: nat, ip: nat, capacity: nat): nat {
    if ip == 0 || ip > size then capacity else capacity * (size / ip + 1)
  }

  /**
   Some token of the body `s` does not fit the buffer at a time when the decoder has looked for bits past the end of
   the input. `done` bytes have been produced, `ip` bytes fetched and the buffer has `capacity` bytes.
   */
  ghost predicate Outruns(
      size: nat, s: seq<bool>, lit: seq<nat>, dist: seq<nat>, done: nat, ip: nat, capacity: nat)
    requires ip <= size + 1
    decreases |s|, 0
  {
    match ReadSymbol(s, lit)
    case None => false
    case Some((symbol, s1)) =>
      var ip1 := Fetched(size, ip, |s|, Longest(lit));
      if symbol < 256 then Overflows(size, s1, lit, dist, done, 1, ip1, capacity)
      else if symbol == 256 then false
      else
        match ReadMatch(s1, symbol, dist)
        case None => false
        case Some((t, s2)) =>
          Overflows(size, s2, lit, dist, done, t.length, AfterMatch(size, ip1, s1, symbol, dist), capacity)
  }

  /** The same when the next token, of `length` bytes, has been read. */
  ghost predicate Overflows(
      size: nat, s: seq<bool>, lit: seq<nat>, dist: seq<nat>, done: nat, length: nat, ip: nat, capacity: nat)
    requires ip <= size + 1
    decreases |s|, 1
  {
    if done + length <= capacity then Outruns(size, s, lit, dist, done + length, ip, capacity)
    else ip > size || Outruns(size, s, lit, dist, done + length, ip, Grown(size, ip, capacity))
  }

  /** One token of the body. */
  lemma {:induction false} OutrunsStep(
      size: nat, s: seq<bool>, lit: seq<nat>, dist: seq<nat>, done: nat, ip: nat, capacity: nat)
    requires ip <= size + 1
    ensures var next, outruns := ReadSymbol(s, lit), Outruns(size, s, lit, dist, done, ip, capacity);
      next.Some? ==>
        var (symbol, s1) := next.value;
        var m, ip1 := ReadMatch(s1, symbol, dist), Fetched(size, ip, |s|, Longest(lit));
        if symbol < 256 then outruns == Overflows(size, s1, lit, dist, done, 1, ip1, capacity)
        else if symbol == 256 || m.None? then !outruns
        else
          var (t, s2) := m.value;
          var ip2 := AfterMatch(size, ip1, s1, symbol, dist);
          outruns == Overflows(size, s2, lit, dist, done, t.length, ip2, capacity)
  {
    hide ReadSymbol, AfterMatch, Fetched, Longest, Overflows;
  }

  /** The codes of a stream of one block, and the bits of its body. */
  ghost function BodyOf(stream: seq<byte>): Option<(seq<nat>, seq<nat>, seq<bool>)> {
    var s := BytesBits(stream);
    if |s| < 3 then None else ReadHeader(s[3..], InTwo)
  }

  /** The body of the stream outruns the decoder's buffer. */
  ghost predicate CutsOff(stream: seq<byte>) {
    var b := BodyOf(stream);
    b.Some? && Outruns(|stream|, b.value.2, b.value.0, b.value.1, 0, 0, FIRST_SIZE)
  }

  /** Every literal and length symbol that was sent has a code. */
  ghost predicate AllCoded(stream: seq<byte>) {
    var b := BodyOf(stream);
    b.Some? && 0 !in b.value.0
  }

  /** The body of a stream that holds a block. */
  lemma {:induction false} BodyOfBlock(stream: seq<byte>, b: Block, pad: seq<bool>)
    requires Consistent(b) && !CrossesBoundary(b) && BytesBits(stream) == BlockBits(b) + pad
    ensures BodyOf(stream) == Some((b.lit[..b.n], b.dist[..b.m], BodyBits(b) + pad))
  {
    hide EncodeFrom, OpsBits, OrderBits, Lsb, Straddles, Kraft, ReadHeader, CodesBits, TokensBits, CodeBits, BytesBits;
    hide BodyBits, HaveCodes, TokensHaveCodes, AllAllowed, Codes;
    var head := Lsb(b.n - 257, 5) + Lsb(b.m - 1, 5) + Lsb(b.p - 4, 4) + CodesBits(b);
    var body := BodyBits(b) + pad;
    var s := BytesBits(stream);
    assert s == (Lsb(1, 1) + Lsb(2, 2)) + (head + body);
    assert s[3..] == head + body;
    ReadHeaderOf(b, InTwo, body);
  }

  function Zeros(n: nat): (s: seq<bool>)
    ensures |s| == n
  {
    seq(n, i => false)
  }

  /** The same of a block that makes up a stream of `size` bytes, padded with zero bits. */
  ghost predicate OutrunsIn(b: Block, size: nat)
    requires Shaped(b) && |BlockBits(b)| <= 8 * size
  {
    Outruns(size, BodyBits(b) + Zeros(8 * size - |BlockBits(b)|), b.lit[..b.n], b.dist[..b.m], 0, 0, FIRST_SIZE)
  }

  /** The same of a block that makes up a stream, padded to a whole byte. */
  ghost predicate BlockOutruns(b: Block)
    requires Shaped(b)
  {
    OutrunsIn(b, (|BlockBits(b)| + 7) / 8)
  }

  lemma {:induction false} BlockCutsOff(stream: seq<byte>, b: Block, n: nat)
    requires Consistent(b) && !CrossesBoundary(b) && n < 8
    requires BytesBits(stream) == BlockBits(b) + Zeros(n)
    ensures CutsOff(stream) == BlockOutruns(b) && AllCoded(stream) == (0 !in b.lit[..b.n])
  {
    hide *;
    BodyOfBlock(stream, b, Zeros(n));
    ConsistentIsShaped(b);
    assert |BytesBits(stream)| == 8 * |stream| == |BlockBits(b)| + n;
    CutsOffBody(stream, b.lit[..b.n], b.dist[..b.m], BodyBits(b) + Zeros(n));
    OutrunsWhole(b, |stream|, n);
  }

  lemma {:induction false} ConsistentIsShaped(b: Block)
    requires Consistent(b)
    ensures Shaped(b) && b.n <= |b.lit| && b.m <= |b.dist|
  {
    hide HaveCodes, TokensHaveCodes, Codes, AllAllowed, EncodeFrom;
  }

  lemma {:induction false} CutsOffBody(stream: seq<byte>, lit: seq<nat>, dist: seq<nat>, body: seq<bool>)
    requires BodyOf(stream) == Some((lit, dist, body))
    ensures CutsOff(stream) == Outruns(|stream|, body, lit, dist, 0, 0, FIRST_SIZE)
    ensures AllCoded(stream) == (0 !in lit)
  {
    hide BodyOf, Outruns;
  }

  lemma {:induction false} OutrunsWhole(b: Block, size: nat, n: nat)
    requires Shaped(b) && b.n <= |b.lit| && b.m <= |b.dist| && n < 8 && 8 * size == |BlockBits(b)| + n
    ensures BlockOutruns(b)
         == Outruns(size, BodyBits(b) + Zeros(n), b.lit[..b.n], b.dist[..b.m], 0, 0, FIRST_SIZE)
  {
    hide Shaped, BlockBits, BodyBits, Outruns, Zeros;
    assert size == (|BlockBits(b)| + 7) / 8;
  }

  lemma {:induction false} ReadMatchShape(s: seq<bool>, symbol: nat, dist: seq<nat>)
    ensures var r := ReadMatch(s, symbol, dist); r.Some? ==> 257 <= symbol <= 285 && r.value.0.length <= 258
  {
    hide ReadSymbol, DistanceBits, DistanceBase;
    if 257 <= symbol <= 285 && ReadMatch(s, symbol, dist).Some? {
      var x := LengthBits(symbol);
      assert Value(s[..x]) < Pow2(x);
      LengthAtMost258(symbol);
    }
  }

  lemma {:induction false} LengthAtMost258(symbol: nat)
    requires 257 <= symbol <= 285
    ensures LengthBase(symbol) + Pow2(LengthBits(symbol)) <= 259
  {
    hide Pow2;
    SmallPowers();
  }

  /** A content that fits the buffer never outruns it. */
  lemma {:induction false} FittingBody(
      size: nat, s: seq<bool>, lit: seq<nat>, dist: seq<nat>, out: seq<byte>, ip: nat, capacity: nat)
    requires ip <= size + 1
    requires var r := ReadBody(s, lit, dist, out); r.Some? && |r.value.0| <= capacity
    ensures !Outruns(size, s, lit, dist, |out|, ip, capacity)
    decreases |s|
  {
    hide ReadSymbol, ReadMatch, AfterMatch, Fetched, Longest;
    var (symbol, s1) := ReadSymbol(s, lit).value;
    var ip1 := Fetched(size, ip, |s|, Longest(lit));
    if symbol < 256 {
      FittingBody(size, s1, lit, dist, out + [symbol], ip1, capacity);
    } else if symbol > 256 {
      ReadMatchShape(s1, symbol, dist);
      var (t, s2) := ReadMatch(s1, symbol, dist).value;
      FittingBody(size, s2, lit, dist, Apply(out, t), AfterMatch(size, ip1, s1, symbol, dist), capacity);
    }
  }

  /** A stream whose content fits the first buffer is not cut off. */
  lemma {:induction false} FittingStream(stream: seq<byte>)
    ensures var content := Inflate(BytesBits(stream), InTwo);
      content.Some? && |content.value| <= FIRST_SIZE ==> !CutsOff(stream)
  {
    hide ReadHeader, ReadBody, BytesBits, Outruns;
    var s := BytesBits(stream);
    var content := Inflate(s, InTwo);
    if content.Some? && |content.value| <= FIRST_SIZE {
      assert s[1..][2..] == s[3..];
      var (lit, dist, body) := ReadHeader(s[3..], InTwo).value;
      FittingBody(|stream|, body, lit, dist, [], 0, FIRST_SIZE);
    }
  }

  // ---------------------------------------------------------------------------------------------
  // What had been fetched before the body does not matter

  /** Two indices are the same, or both are at most `most`. */
  predicate Alike(ip: nat, ip': nat, most: nat) {
    ip == ip' || (ip <= most && ip' <= most)
  }

  lemma {:induction false} FetchedAlike(size: nat, ip: nat, ip': nat, most: nat, left: nat, need: nat)
    requires Alike(ip, ip', most) && ip <= size + 1 && ip' <= size + 1 && most <= size + 1
    ensures Alike(Fetched(size, ip, left, need), Fetched(size, ip', left, need), most)
  {
  }

  lemma {:induction false} FetchedSame(size: nat, ip: nat, ip': nat, most: nat, left: nat, need: nat)
    requires Alike(ip, ip', most) && ip <= size + 1 && ip' <= size + 1 && most <= size
    requires 8 * most <= 8 * size - left + need + 7
    ensures Fetched(size, ip, left, need) == Fetched(size, ip', left, need)
  {
  }

  lemma {:induction false} AfterMatchAlike(
      size: nat, ip: nat, ip': nat, most: nat, s: seq<bool>, symbol: nat, dist: seq<nat>)
    requires Alike(ip, ip', most) && ip <= size + 1 && ip' <= size + 1 && most <= size + 1
    requires 257 <= symbol <= 287
    ensures Alike(AfterMatch(size, ip, s, symbol, dist), AfterMatch(size, ip', s, symbol, dist), most)
  {
    hide Alike, Fetched, ReadSymbol, LengthBits, DistanceBits, Longest;
    var x := LengthBits(symbol);
    FetchedAlike(size, ip, ip', most, |s|, x);
    var ip1 := if x == 0 then ip else Fetched(size, ip, |s|, x);
    var ip1' := if x == 0 then ip' else Fetched(size, ip', |s|, x);
    if x <= |s| {
      var left := |s| - x;
      FetchedAlike(size, ip1, ip1', most, left, Longest(dist));
      var ip2, ip2' := Fetched(size, ip1, left, Longest(dist)), Fetched(size, ip1', left, Longest(dist));
      match ReadSymbol(s[x..], dist)
      case None =>
      case Some((code, s2)) =>
        if code <= 29 { FetchedAlike(size, ip2, ip2', most, |s2|, DistanceBits(code)); }
    }
  }

  /**
   The decoder fetches at most 22 bits ahead. By the time a buffer of the first size or more overflows it has used
   more bits than that, and what was fetched before the body no longer matters.
   */
  lemma {:induction false} Forgets(
      size: nat, s: seq<bool>, lit: seq<nat>, dist: seq<nat>, done: nat, ip: nat, ip': nat, capacity: nat,
      most: nat, start: nat)
    requires Alike(ip, ip', most) && ip <= size + 1 && ip' <= size + 1 && most <= size + 1
    requires if most <= size then 8 * most <= 8 * size - start + 22 else start < 15
    requires |s| <= start && done <= 258 * (start - |s|) && capacity >= FIRST_SIZE
    ensures Outruns(size, s, lit, dist, done, ip, capacity) == Outruns(size, s, lit, dist, done, ip', capacity)
    decreases |s|
  {
    hide ReadSymbol, ReadMatch, AfterMatch, Fetched, Longest, Alike;
    var next := ReadSymbol(s, lit);
    if next.Some? {
      var (symbol, s1) := next.value;
      FetchedAlike(size, ip, ip', most, |s|, Longest(lit));
      var ip1, ip1' := Fetched(size, ip, |s|, Longest(lit)), Fetched(size, ip', |s|, Longest(lit));
      if start - |s| >= 22 {
        FetchedSame(size, ip, ip', most, |s|, Longest(lit));
      } else if symbol < 256 {
        Forgets(size, s1, lit, dist, done + 1, ip1, ip1', capacity, most, start);
      } else if symbol > 256 {
        ReadMatchShape(s1, symbol, dist);
        var m := ReadMatch(s1, symbol, dist);
        if m.Some? {
          var (t, s2) := m.value;
          AfterMatchAlike(size, ip1, ip1', most, s1, symbol, dist);
          Forgets(size, s2, lit, dist, done + t.length, AfterMatch(size, ip1, s1, symbol, dist),
            AfterMatch(size, ip1', s1, symbol, dist), capacity, most, start);
        }
      }
    }
  }
}
