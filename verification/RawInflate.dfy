/** The decompressor (`RawInflate`, minified `v`): bit reading, table-driven symbols, dynamic blocks, output buffer. */
module RawInflate {
  import opened Options
  import opened Bits
  import opened HuffmanCodes
  import opened RunLengths
  import opened Tokens
  import opened DeflateFormat
  import opened BlockReading
  import opened BufferGrowth

  /** The bits a reader still has: those in its buffer, and those of the bytes it has not fetched. */
  ghost function Remaining(input: seq<byte>, ip: nat, buf: nat, len: int): seq<bool> {
    if len < 0 then [] else Lsb(buf, len) + BytesBits(if ip <= |input| then input[ip..] else [])
  }

  /** Before the end of the input, the buffer holds what has been fetched and not been used. */
  lemma {:induction false} RemainingLength(input: seq<byte>, ip: nat, buf: nat, len: int)
    ensures len >= 0 && ip <= |input| ==> |Remaining(input, ip, buf, len)| == len + 8 * (|input| - ip)
    ensures ip > |input| ==> |Remaining(input, ip, buf, len)| == if len < 0 then 0 else len
  {
    hide Lsb;
  }

  /** Past the end there is nothing to fetch. */
  lemma {:induction false} RemainingPastEnd(input: seq<byte>, ip: nat, buf: nat, len: int)
    requires ip >= |input|
    ensures Remaining(input, ip + 1, buf, len) == Remaining(input, ip, buf, len)
  {
    assert input[|input|..] == [];
    hide Lsb;
  }

  /** Fetching a byte moves its bits into the buffer. */
  lemma {:induction false} FetchKeeps(input: seq<byte>, ip: nat, buf: nat, len: nat)
    requires ip < |input| && buf < Pow2(len)
    ensures Remaining(input, ip + 1, buf + Shl(input[ip], len), len + 8) == Remaining(input, ip, buf, len)
    ensures buf + Shl(input[ip], len) < Pow2(len + 8)
  {
    hide Lsb, Low, Shl;
    LsbJoin(buf, len, input[ip], 8);
    SmallPowers();
    var x: nat := input[ip];
    ShlMono(x + 1, Pow2(8), len);
    Pow2Add(8, len);
    assert input[ip..][1..] == input[ip + 1..];
  }

  /** Taking the low bits of the buffer takes the first bits of the stream. */
  lemma {:induction false} TakeKeeps(input: seq<byte>, ip: nat, buf: nat, len: nat, n: nat)
    requires n <= len && buf < Pow2(len)
    ensures ReadNumber(Remaining(input, ip, buf, len), n)
         == Some((Low(buf, n), Remaining(input, ip, Shr(buf, n), len - n)))
    ensures Shr(buf, n) < Pow2(len - n)
  {
    var rest := BytesBits(if ip <= |input| then input[ip..] else []);
    LsbSplit(buf, n, len - n);
    ValueLsb(buf, n);
    TopFits(buf, n, len - n);
    assert (Lsb(buf, n) + Lsb(Shr(buf, n), len - n) + rest)[..n] == Lsb(buf, n);
    assert (Lsb(buf, n) + Lsb(Shr(buf, n), len - n) + rest)[n..] == Lsb(Shr(buf, n), len - n) + rest;
  }

  /** The window of the table that the buffer selects is decoded to the symbol the stream starts with. */
  lemma {:induction false} WindowDecodes(lens: seq<nat>, width: nat, cells: seq<nat>, input: seq<byte>, ip: nat,
      buf: nat, len: nat)
    requires IsTable(cells, lens, width) && buf < Pow2(len) && |lens| <= 0x10000
    requires len >= width || ip >= |input|
    requires ReadSymbol(Remaining(input, ip, buf, len), lens).Some?
    ensures var cell := cells[Low(buf, width)];
      cell / 0x10000 <= len
      && ReadSymbol(Remaining(input, ip, buf, len), lens)
           == Some((cell % 0x10000, Remaining(input, ip, Shr(buf, cell / 0x10000), len - cell / 0x10000)))
  {
    hide Lsb, Msb, Low, Shr, Pow2;
    var s := Remaining(input, ip, buf, len);
    var n := FindSymbol(lens, s, 0).value;
    var g, c, t := lens[n], ReversedCode(lens, n), Low(buf, width);
    CodeBitsAreLsb(lens, n);
    if ip >= |input| { assert s == Lsb(buf, len); }
    TakeKeeps(input, ip, buf, len, g);
    assert s[..g] == CodeBits(lens, n);
    ValueLsb(c, g);
    LowSmall(c, g);
    LowLow(buf, width, g);
    assert Handled(lens, width + 1, 0, n) && Starts(lens, t, n);
    assert CellFilled(cells[t], t, lens, width + 1, 0);
  }

  class RawInflate {
    const input: seq<byte>
    var ip: nat
    var bitBuf: nat
    var bitLen: int
    var output: array<byte>
    var op: nat
    /** Everything the decoder meant to output, and whether the buffer failed to grow for it. */
    ghost var produced: seq<byte>
    ghost var starved: bool

    /**
     The bit buffer holds `bitLen` bits; the count goes negative only after the input has ended, which is noticed
     when there are too few bits for a code.
     */
    ghost predicate ReaderValid()
      reads `ip, `bitBuf, `bitLen
    {
      && bitLen <= 22 && (if bitLen < 0 then bitBuf == 0 && ip > |input| else bitBuf < Pow2(bitLen))
      && (ip > |input| ==> bitLen < 15)
    }

    /** How many bytes have been fetched; every index past the end counts as one. */
    ghost function Index(): (r: nat)
      reads `ip
      ensures r <= |input| + 1 && (r > |input| <==> ip > |input|)
    {
      if ip > |input| then |input| + 1 else ip
    }

    ghost function Rest(): seq<bool>
      reads `ip, `bitBuf, `bitLen
    {
      Remaining(input, ip, bitBuf, bitLen)
    }

    /** The buffer holds what was produced, as far as it reaches. */
    ghost predicate WriterValid()
      reads `output, `op, `produced, `starved, `ip, output
    {
      && op == |produced| && output.Length >= 32768
      && (forall i :: 0 <= i < op && i < output.Length ==> output[i] == produced[i])
      && (if starved then op > output.Length && ip > |input| else op <= output.Length)
    }

    /** Nothing read and nothing written. */
    ghost predicate Fresh()
      reads this, output
    {
      && ReaderValid() && bitLen == 0 && Rest() == BytesBits(input)
      && WriterValid() && output.Length == FIRST_SIZE && produced == [] && !starved
    }

    constructor (input: seq<byte>)
      ensures this.input == input && Fresh() && fresh(output)
    {
      this.input := input;
      ip, bitBuf, bitLen := 0, 0, 0;
      output, op := new byte[32768](_ => 0), 0;
      produced, starved := [], false;
      new;
      assert input[0..] == input;
    }

    // ----- reading

    /** `readBits` (minified `y`); `None` is the error "input buffer is broken". */
    method ReadBits(n: nat) returns (r: Option<nat>)
      requires ReaderValid() && 0 < n <= 15
      modifies `ip, `bitBuf, `bitLen
      ensures ReaderValid() && ip >= old(ip) && (r.Some? ==> r.value < Pow2(n))
      ensures r.Some? && old(bitLen) < n ==> ip > old(ip)
      ensures var spec := ReadNumber(old(Rest()), n);
        spec.Some? ==> r == Some(spec.value.0) && Rest() == spec.value.1
      ensures r.Some? ==> Index() == Fetched(|input|, old(Index()), |old(Rest())|, n)
    {
      hide Low, Shl, Shr, Lsb, BytesBits, Remaining, ReadNumber;
      RemainingLength(input, ip, bitBuf, bitLen);
      var buf: nat, len: int, f: nat := bitBuf, bitLen, ip;
      while len < n
        invariant ip == old(ip) && bitBuf == old(bitBuf) && bitLen == old(bitLen)
        invariant f >= ip && (f == ip ==> len == bitLen) && (f > ip ==> f <= |input| && len - 8 < n)
        invariant len - bitLen == 8 * (f - ip) && len <= 22
        invariant if len < 0 then buf == 0 && f > |input| else buf < Pow2(len)
        invariant Remaining(input, f, buf, len) == Rest()
        decreases n - len
      {
        if f >= |input| {
          NothingLeft(input, f, buf, len, n);
          return None;
        }
        FetchKeeps(input, f, buf, len);
        buf := buf + Shl(input[f], len);
        f := f + 1;
        len := len + 8;
      }
      TakeKeeps(input, f, buf, len, n);
      r := Some(Low(buf, n));
      bitBuf, bitLen, ip := Shr(buf, n), len - n, f;
    }

    /** Fetches bytes until there are enough bits for any code, or the input ends (and the index passes its end). */
    method Refill(width: nat)
      requires ReaderValid() && width <= 15
      modifies `ip, `bitBuf, `bitLen
      ensures ReaderValid() && ip >= old(ip) && Rest() == old(Rest())
      ensures bitLen >= width || ip > |input|
      ensures Index() == Fetched(|input|, old(Index()), |Rest()|, width)
    {
      hide Low, Shl, Shr, Lsb, BytesBits, Remaining;
      RemainingLength(input, ip, bitBuf, bitLen);
      while bitLen < width
        invariant ReaderValid() && ip >= old(ip) && Rest() == old(Rest())
        invariant bitLen - old(bitLen) == 8 * (ip - old(ip)) && (ip > old(ip) ==> ip <= |input| && bitLen - 8 < width)
        decreases width - bitLen
      {
        if ip >= |input| {
          RemainingPastEnd(input, ip, bitBuf, bitLen);
          ip := ip + 1;
          break;
        }
        FetchKeeps(input, ip, bitBuf, bitLen);
        bitBuf := bitBuf + Shl(input[ip], bitLen);
        ip := ip + 1;
        bitLen := bitLen + 8;
      }
    }

    /** `readCodeByTable` (minified `S`). */
    method ReadCode(table: Table, ghost lens: seq<nat>) returns (symbol: nat)
      requires ReaderValid() && BuiltFrom(table, lens)
      modifies `ip, `bitBuf, `bitLen
      ensures ReaderValid() && ip >= old(ip) && symbol < |lens|
      ensures var spec := ReadSymbol(old(Rest()), lens);
        spec.Some? && Kraft(lens, 15) ==> symbol == spec.value.0 && Rest() == spec.value.1
      ensures Index() == Fetched(|input|, old(Index()), |old(Rest())|, Longest(lens))
    {
      hide Low, Shl, Shr, Lsb, BytesBits, Remaining, ReadSymbol, IsTable, Kraft, Fetched, Longest;
      Refill(table.longest);
      assert CellInRange(table.cells[Low(bitBuf, table.longest)], table.longest, |lens|);
      var cell := table.cells[Low(bitBuf, table.longest)];
      var size := cell / 0x10000;
      ghost var before := Rest();
      if bitLen < 0 {
        NoSymbolLeft(input, ip, bitBuf, bitLen, lens);
        ShrZero(size);
      } else {
        if ReadSymbol(before, lens).Some? && Kraft(lens, 15) {
          WindowDecodes(lens, table.longest, table.cells, input, ip, bitBuf, bitLen);
        }
        ShrFits(bitBuf, bitLen, size);
      }
      bitBuf, bitLen := Shr(bitBuf, size), bitLen - size;
      symbol := cell % 0x10000;
    }

    // ----- the header

    /** One code length symbol with its extra bits; `None` when the input is broken. */
    method ReadOperation(table: Table, ghost clens: seq<nat>) returns (r: Option<Op>)
      requires ReaderValid() && BuiltFrom(table, clens) && |clens| == 19
      modifies `ip, `bitBuf, `bitLen
      ensures ReaderValid() && ip >= old(ip)
      ensures r.Some? ==> r.value.symbol < 19
      ensures var spec := ReadOp(old(Rest()), clens);
        spec.Some? && Kraft(clens, 15) ==> r == Some(spec.value.0) && Rest() == spec.value.1
    {
      hide BytesBits, Remaining, ReadSymbol, ReadNumber, BuiltFrom, Kraft, Pow2;
      ghost var before := Rest();
      var symbol := ReadCode(table, clens);
      if symbol < 16 {
        NoBitsNeeded(Rest());
        return Some(Op(symbol, 0));
      }
      var extra := ReadBits(if symbol == 16 then 2 else if symbol == 17 then 3 else 7);
      if extra == None { return None; }
      r := Some(Op(symbol, extra.value));
    }

    /** The loop `d` of `B`: `need` code lengths. */
    method ReadLengthList(table: Table, ghost clens: seq<nat>, need: nat) returns (r: Option<seq<nat>>)
      requires ReaderValid() && BuiltFrom(table, clens) && |clens| == 19
      modifies `ip, `bitBuf, `bitLen
      ensures ReaderValid() && ip >= old(ip)
      ensures r.Some? ==> |r.value| == need && forall i :: 0 <= i < need ==> r.value[i] <= 15
      ensures var spec := ReadCodeLengths(old(Rest()), clens, need, 0, []);
        spec.Some? && Kraft(clens, 15) ==> r == Some(spec.value.0[..need]) && Rest() == spec.value.1
    {
      hide BytesBits, Remaining, ReadOp, BuiltFrom, Kraft, Pow2, RawInflate.Rest;
      ghost var spec := ReadCodeLengths(Rest(), clens, need, 0, []);
      var lengths: seq<nat> := [];
      var prev := 0;
      while |lengths| < need
        invariant ReaderValid() && ip >= old(ip)
        invariant prev <= 15 && forall i :: 0 <= i < |lengths| ==> lengths[i] <= 15
        invariant spec.Some? && Kraft(clens, 15) ==> ReadCodeLengths(Rest(), clens, need, prev, lengths) == spec
        decreases need - |lengths|
      {
        var op := ReadOperation(table, clens);
        if op == None { return None; }
        prev := ValueOf(op.value, prev);
        lengths := lengths + Repeat(prev, Count(op.value));
      }
      r := Some(lengths[..need]);
    }

    /** The first `p` lengths of the code length alphabet, three bits each. */
    method ReadOrderLengths(p: nat) returns (r: Option<seq<nat>>)
      requires ReaderValid() && p <= 19
      modifies `ip, `bitBuf, `bitLen
      ensures ReaderValid() && ip >= old(ip)
      ensures r.Some? ==> |r.value| == 19 && forall i :: 0 <= i < 19 ==> r.value[i] <= 15
      ensures var spec := ReadOrder(old(Rest()), p);
        spec.Some? ==> r == Some(spec.value.0) && Rest() == spec.value.1
    {
      hide BytesBits, Remaining, Order, Pow2, RawInflate.Rest, ReadNumber, Value;
      ghost var start := Rest();
      var clens: seq<nat> := seq(19, i => 0);
      for m := 0 to p
        invariant ReaderValid() && ip >= old(ip)
        invariant |clens| == 19 && forall i :: 0 <= i < 19 ==> clens[i] <= 15
        invariant ReadOrder(start, m).Some? ==> ReadOrder(start, m) == Some((clens, Rest()))
      {
        var v := ReadBits(3);
        OrderPrefix(start, m + 1, p);
        SmallPowers();
        if v == None { return None; }
        clens := clens[Order(m) := v.value];
      }
      r := Some(clens);
    }

    /** The header of a dynamic block (minified `B`): the decoding tables of both alphabets. */
    method ReadTables() returns (ok: bool, lit: Table, dist: Table, ghost lits: seq<nat>, ghost dists: seq<nat>)
      requires ReaderValid()
      modifies `ip, `bitBuf, `bitLen
      ensures ReaderValid() && ip >= old(ip)
      ensures ok ==> BuiltFrom(lit, lits) && BuiltFrom(dist, dists) && |lits| <= 288 && |dists| <= 32
      ensures var spec := ReadHeader(old(Rest()), InTwo);
        spec.Some? ==> ok && spec == Some((lits, dists, Rest())) && Kraft(lits, 15) && Kraft(dists, 15)
    {
      hide BytesBits, Remaining, Pow2, RawInflate.Rest, ReadNumber, ReadOrder, ReadCodeLengths, Kraft, BuiltFrom;
      ok, lit, dist, lits, dists := false, Table([], 0, 0), Table([], 0, 0), [], [];
      ghost var start := Rest();
      var n := ReadBits(5);
      if n == None { return; }
      var m := ReadBits(5);
      if m == None { return; }
      var p := ReadBits(4);
      if p == None { return; }
      SmallPowers();
      var clens := ReadOrderLengths(p.value + 4);
      if clens == None { return; }
      ok, lit, dist, lits, dists := ReadSentTables(clens.value, n.value + 257, m.value + 1);
    }

    /** The run-length coded lengths of both alphabets, one after the other. */
    method ReadSentTables(clens: seq<nat>, n: nat, m: nat)
        returns (ok: bool, lit: Table, dist: Table, ghost lits: seq<nat>, ghost dists: seq<nat>)
      requires ReaderValid() && 0 < n <= 0x10000 && 0 < m <= 0x10000
      requires |clens| == 19 && forall i :: 0 <= i < 19 ==> clens[i] <= 15
      modifies `ip, `bitBuf, `bitLen
      ensures ReaderValid() && ip >= old(ip)
      ensures ok ==> BuiltFrom(lit, lits) && BuiltFrom(dist, dists) && |lits| == n && |dists| == m
      ensures var spec := ReadInTwo(old(Rest()), clens, n, m);
        spec.Some? && Kraft(clens, 7) ==> ok && spec == Some((lits, dists, Rest()))
    {
      hide BytesBits, Remaining, Pow2, RawInflate.Rest, ReadCodeLengths, Kraft, BuiltFrom;
      ok, lit, dist, lits, dists := false, Table([], 0, 0), Table([], 0, 0), [], [];
      var header := MakeTable(clens);
      if Kraft(clens, 7) { Kraft7Is15(clens); }
      var first := ReadLengthList(header, clens, n);
      if first == None { return; }
      lit := MakeTable(first.value);
      var second := ReadLengthList(header, clens, m);
      if second == None { return; }
      dist := MakeTable(second.value);
      ok, lits, dists := true, first.value, second.value;
    }

    // ----- output

    /**
     `expandBufferAdaptive` (minified `u`): grows by the ratio of the input's length to what has been read
     of it.  Once the index has passed the end of the input, the ratio is below 2, the estimate of what is
     still to come is not positive, and the buffer keeps its size or the copy into a smaller one throws.
     */
    method Expand(shortest: nat) returns (ok: bool)
      requires output.Length >= 32768 && ip > 0 && shortest <= 15
      modifies `output
      ensures output == old(output) || fresh(output)
      ensures output.Length >= old(output.Length) && forall i :: 0 <= i < old(output.Length) ==>
        output[i] == old(output[i])
      ensures output.Length == Grown(|input|, Index(), old(output.Length))
      ensures ip <= |input| ==> ok && output.Length >= 2 * old(output.Length)
      ensures ip > |input| ==> (ok <==> shortest == 0)
    {
      var ratio := |input| / ip + 1;
      var size: int;
      if 2 > ratio {
        RatioBelow2(|input|, ip);
        if shortest > 0 { EstimateNegative(ip - |input|, shortest); }
        var estimate := if shortest == 0 then 0 else -(129 * (ip - |input|) / shortest);
        size := output.Length + estimate;
      } else {
        RatioAtLeast2(|input|, ip, output.Length);
        size := output.Length * ratio;
      }
      ok := size >= output.Length;
      if ok {
        var bigger := new byte[size](_ => 0);
        for i := 0 to output.Length
          invariant output == old(output) && fresh(bigger)
          invariant forall j :: 0 <= j < i ==> bigger[j] == output[j]
        {
          bigger[i] := output[i];
        }
        output := bigger;
      }
    }

    /** The size of the buffer once `needed` bytes have been asked for. */
    ghost function Capacity(needed: nat, size: nat): nat
      reads `ip
    {
      if needed > size then Grown(|input|, Index(), size) else size
    }

    /** Puts out a literal, after growing a full buffer; a write beyond the buffer is lost. */
    method PutByte(x: byte, shortest: nat) returns (ok: bool)
      requires WriterValid() && ip > 0 && shortest <= 15
      modifies `output, `op, `produced, `starved, output
      ensures output == old(output) || fresh(output)
      ensures ok ==> WriterValid() && produced == old(produced) + [x]
      ensures ok && ip > |input| && |produced| > old(output.Length) <==> ok && starved
      ensures ok <==> !(ip > |input| && |old(produced)| + 1 > old(output.Length) && shortest > 0)
      ensures output.Length == Capacity(|old(produced)| + 1, old(output.Length))
    {
      ok := true;
      if op >= output.Length {
        ok := Expand(shortest);
        if !ok { return; }
      }
      if op < output.Length { output[op] := x; }
      op := op + 1;
      produced := produced + [x];
      starved := op > output.Length;
    }

    /** Puts out a match byte by byte, after growing the buffer if the match does not fit. */
    method PutCopy(length: nat, distance: nat, shortest: nat) returns (ok: bool)
      requires WriterValid() && ip > 0 && length <= 32768 && shortest <= 15
      modifies `output, `op, `produced, `starved, output
      ensures output == old(output) || fresh(output)
      ensures ok ==>
        WriterValid() && produced == Copy(old(produced), length, distance) && |produced| == |old(produced)| + length
      ensures ok && ip > |input| && |produced| > old(output.Length) <==> ok && starved
      ensures ok <==> !(ip > |input| && |old(produced)| + length > old(output.Length) && shortest > 0)
      ensures output.Length == Capacity(|old(produced)| + length, old(output.Length))
    {
      ok := true;
      if op + length > output.Length {
        ok := Expand(shortest);
        if !ok { return; }
      }
      CopyWithin(length, distance);
    }

    /** The copy loop; cells beyond the buffer are neither read nor written. */
    method CopyWithin(length: nat, distance: nat)
      requires op == |produced| && output.Length >= 32768
      requires forall i :: 0 <= i < op && i < output.Length ==> output[i] == produced[i]
      requires if starved then op > output.Length && ip > |input| else op <= output.Length
      requires op + length > output.Length ==> ip > |input|
      modifies `op, `produced, `starved, output
      ensures WriterValid() && produced == Copy(old(produced), length, distance) && output == old(output)
      ensures |produced| == |old(produced)| + length
    {
      ghost var goal := Copy(produced, length, distance);
      var k := length;
      while k > 0
        invariant WriterValid() && output == old(output) && 0 <= k <= length
        invariant op + k == old(op) + length && Copy(produced, k, distance) == goal
      {
        var x: byte := 0;
        if 0 < distance <= op && op - distance < output.Length { x := output[op - distance]; }
        ghost var y := Back(produced, distance);
        assert op < output.Length ==> x == y;
        if op < output.Length { output[op] := x; }
        op := op + 1;
        produced := produced + [y];
        starved := op > output.Length;
        k := k - 1;
      }
    }

    // ----- the body of a block

    /** Length and distance of a match whose length symbol has been read; `None` when the input is broken. */
    method ReadMatchRest(symbol: nat, dist: Table, ghost dists: seq<nat>) returns (r: Option<Token>)
      requires ReaderValid() && 257 <= symbol <= 287 && BuiltFrom(dist, dists)
      modifies `ip, `bitBuf, `bitLen
      ensures ReaderValid() && ip >= old(ip)
      ensures r.Some? ==> r.value.Match? && r.value.length <= 32768
      ensures var spec := ReadMatch(old(Rest()), symbol, dists);
        spec.Some? && Kraft(dists, 15) ==>
          && r == Some(spec.value.0) && Rest() == spec.value.1
          && Index() == AfterMatch(|input|, old(Index()), old(Rest()), symbol, dists)
    {
      hide Fetched, Longest, RawInflate.Index;
      hide BytesBits, Remaining, Pow2, RawInflate.Rest, ReadNumber, ReadSymbol, Kraft, BuiltFrom, LengthBits,
        LengthBase, DistanceBits, DistanceBase;
      SmallTables(symbol);
      NoBitsNeeded(Rest());
      NumberTail(Rest(), LengthBits(symbol));
      var length := LengthBase(symbol);
      if 0 < LengthBits(symbol) {
        var x := ReadBits(LengthBits(symbol));
        if x == None { return None; }
        length := length + x.value;
      }
      var code := ReadCode(dist, dists);
      // a distance symbol past the table reads as no distance at all
      if code > 29 { return Some(Match(length, 0)); }
      SmallDistances(code);
      NoBitsNeeded(Rest());
      var distance := DistanceBase(code);
      if 0 < DistanceBits(code) {
        var y := ReadBits(DistanceBits(code));
        if y == None { return None; }
        distance := distance + y.value;
      }
      r := Some(Match(length, distance));
    }

    /** The buffer has lost output, or will lose some before the body ends. */
    ghost predicate Doomed(lits: seq<nat>, dists: seq<nat>)
      reads this, output
    {
      starved || Outruns(|input|, Rest(), lits, dists, |produced|, Index(), output.Length)
    }

    /** One symbol of the body, with what it stands for; `Going` means there is more. */
    method DecodeStep(lit: Table, dist: Table, ghost lits: seq<nat>, ghost dists: seq<nat>) returns (status: Status)
      requires ReaderValid() && WriterValid() && ip > 0
      requires BuiltFrom(lit, lits) && BuiltFrom(dist, dists) && |lits| <= 288
      modifies this, output
      ensures output == old(output) || fresh(output)
      ensures ReaderValid() && ip >= old(ip)
      ensures status == Going || status == Finished ==> WriterValid()
      ensures var spec := ReadBody(old(Rest()), lits, dists, old(produced));
        spec.Some? && Kraft(lits, 15) && Kraft(dists, 15) ==>
          match status
          case Going =>
            && ReadBody(Rest(), lits, dists, produced) == spec && |Rest()| < |old(Rest())|
            && Doomed(lits, dists) == old(Doomed(lits, dists)) && (starved ==> 0 in lits)
          case Finished => produced == spec.value.0 && starved == old(starved) == old(Doomed(lits, dists))
          case CannotGrow => old(Doomed(lits, dists)) && 0 !in lits
          case _ => false
    {
      hide BytesBits, Remaining, Pow2, RawInflate.Rest, RawInflate.Index, ReadSymbol, ReadMatch, Kraft, BuiltFrom, Copy;
      hide Fetched, AfterMatch, Longest, Grown, Outruns;
      ghost var out := produced;
      OutrunsStep(|input|, Rest(), lits, dists, |produced|, Index(), output.Length);
      var symbol := ReadCode(lit, lits);
      if symbol == 256 { return Finished; }
      var ok;
      TableShortest(lit, lits);
      label read:
      if symbol < 256 {
        ok := PutByte(symbol, lit.shortest);
        assert Rest() == old@read(Rest()) && Index() == old@read(Index());
      } else {
        var t := ReadMatchRest(symbol, dist, dists);
        if t == None { return Broken; }
        label matched:
        ok := PutCopy(t.value.length, t.value.distance, lit.shortest);
        assert Rest() == old@matched(Rest()) && Index() == old@matched(Index());
        assert Apply(out, t.value) == Copy(out, t.value.length, t.value.distance);
      }
      status := if ok then Going else CannotGrow;
    }

    /**
     The body of a block (minified `v.s`).  Broken input can make the source's loop run forever; `steps` bounds it.
     */
    method DecodeBody(lit: Table, dist: Table, ghost lits: seq<nat>, ghost dists: seq<nat>, steps: nat)
        returns (status: Status)
      requires ReaderValid() && WriterValid() && ip > 0 && !starved
      requires BuiltFrom(lit, lits) && BuiltFrom(dist, dists) && |lits| <= 288
      modifies this, output
      ensures status == Finished ==> WriterValid()
      ensures var spec := ReadBody(old(Rest()), lits, dists, old(produced));
        spec.Some? && Kraft(lits, 15) && Kraft(dists, 15) && steps >= |old(Rest())| ==>
          var lost := old(Outruns(|input|, Rest(), lits, dists, |produced|, Index(), output.Length));
          if lost && 0 !in lits then status == CannotGrow
          else status == Finished && produced == spec.value.0 && starved == lost
    {
      hide BytesBits, Remaining, RawInflate.Rest, RawInflate.Index, ReadMatch, Kraft, BuiltFrom, Outruns, ReadBody;
      ghost var spec, doomed := ReadBody(Rest(), lits, dists, produced), Doomed(lits, dists);
      var left := steps;
      while left > 0
        invariant ReaderValid() && WriterValid() && ip > 0 && (output == old(output) || fresh(output))
        invariant spec.Some? && Kraft(lits, 15) && Kraft(dists, 15) && steps >= |old(Rest())| ==>
          && ReadBody(Rest(), lits, dists, produced) == spec && |Rest()| <= left
          && Doomed(lits, dists) == doomed && (starved ==> 0 in lits)
      {
        status := DecodeStep(lit, dist, lits, dists);
        if status != Going { return; }
        left := left - 1;
      }
      if spec.Some? && Kraft(lits, 15) && Kraft(dists, 15) && steps >= |old(Rest())| {
        EmptyBody(Rest(), lits, dists, produced);
      }
      status := OutOfSteps;
    }

    /** What the buffer holds of the output. */
    function Output(): seq<byte>
      reads `output, `op, output
    {
      output[..if op <= output.Length then op else output.Length]
    }

    /**
     Decompresses a stream of one final dynamic block.  For every stream that the format's two-part reader accepts,
     the decoder outputs exactly the content, unless the body outruns the buffer: then it stops with an error if
     every literal and length symbol has a code, and otherwise outputs a proper prefix.
     */
    method Decompress(steps: nat) returns (status: Status)
      requires Fresh()
      modifies this, output
      ensures var spec := Inflate(BytesBits(input), InTwo);
        spec.Some? && steps >= 8 * |input| ==>
          if CutsOff(input) && AllCoded(input) then status == CannotGrow
          else status == Finished && Output() <= spec.value && (Output() == spec.value <==> !CutsOff(input))
    {
      hide BytesBits, Remaining, RawInflate.Rest, RawInflate.Index, ReadHeader, ReadBody, Kraft, BuiltFrom, Outruns;
      ghost var s := Rest();
      var c := ReadBits(3);
      if c == None { return Broken; }
      ThreeBits(s);
      if Low(c.value, 1) != 1 || Shr(c.value, 1) != 2 { return Unsupported; }
      var ok, lit, dist; ghost var lits, dists;
      ok, lit, dist, lits, dists := ReadTables();
      if !ok { return Broken; }
      HeaderForgotten(lits, dists);
      status := DecodeBody(lit, dist, lits, dists, steps);
      if status == Finished { OutputIsPrefix(); }
    }

    /** At the beginning of the body it does not matter how many bytes have been fetched. */
    lemma {:induction false} HeaderForgotten(lits: seq<nat>, dists: seq<nat>)
      requires ReaderValid()
      ensures Outruns(|input|, Rest(), lits, dists, 0, Index(), FIRST_SIZE)
           == Outruns(|input|, Rest(), lits, dists, 0, 0, FIRST_SIZE)
    {
      RemainingLength(input, ip, bitBuf, bitLen);
      hide Remaining, Outruns;
      Forgets(|input|, Rest(), lits, dists, 0, Index(), 0, FIRST_SIZE, Index(), |Rest()|);
    }

    lemma {:induction false} OutputIsPrefix()
      requires WriterValid()
      ensures Output() <= produced && (Output() == produced <==> !starved)
    {
    }
  }

  lemma {:induction false} EmptyBody(s: seq<bool>, lits: seq<nat>, dists: seq<nat>, out: seq<byte>)
    ensures ReadBody(s, lits, dists, out).Some? ==> |s| > 0
  {
  }

  lemma {:induction false} TableShortest(table: Table, lens: seq<nat>)
    requires BuiltFrom(table, lens)
    ensures table.shortest <= 15 && (table.shortest == 0 <==> 0 in lens)
  {
  }

  datatype Status = Going | Finished | Broken | CannotGrow | OutOfSteps | Unsupported

  /** The final bit and the block type, read as one number. */
  lemma {:induction false} ThreeBits(s: seq<bool>)
    ensures var three := ReadNumber(s, 3);
      three.Some? ==>
        var one := ReadNumber(s, 1);
        one == Some((Low(three.value.0, 1), s[1..]))
        && ReadNumber(s[1..], 2) == Some((Shr(three.value.0, 1), three.value.1))
  {
    if |s| >= 3 {
      assert s[..3][1..] == s[1..3] == s[1..][..2];
      assert s[..3][0] == s[0] && s[..1] == [s[0]];
      assert s[1..][2..] == s[3..];
      assert Value(s[..1]) == (if s[0] then 1 else 0) + 2 * Value(s[..1][1..]);
    }
  }

  /** A table for an alphabet of `size` symbols. */
  ghost predicate TableShaped(table: Table, size: nat) {
    && table.longest <= 15 && |table.cells| == Pow2(table.longest)
    && size <= 0x10000 && forall t :: 0 <= t < |table.cells| ==> CellInRange(table.cells[t], table.longest, size)
  }

  /** A table built from these lengths; it decodes if they leave room for distinct codes. */
  ghost predicate BuiltFrom(table: Table, lens: seq<nat>) {
    && TableShaped(table, |lens|)
    && (Kraft(lens, 15) ==> IsTable(table.cells, lens, table.longest))
    && table.longest == Longest(lens) && table.shortest <= 15 && (table.shortest == 0 <==> 0 in lens)
  }

  method MakeTable(lens: Lengths) returns (table: Table)
    requires 0 < |lens| <= 0x10000
    ensures BuiltFrom(table, lens)
  {
    table := BuildTable(lens);
    KraftAnyLimit(lens, table.longest, 15);
    LongestIs(lens, table.longest);
  }

  lemma {:induction false} SmallTables(symbol: nat)
    requires 257 <= symbol <= 287
    ensures LengthBits(symbol) <= 5 && LengthBase(symbol) <= 258 && Pow2(LengthBits(symbol)) <= 32
  {
    hide Pow2;
    SmallPowers();
    assert LengthBits(symbol) <= 5;
    Pow2Mono(LengthBits(symbol), 5);
  }

  lemma {:induction false} SmallDistances(code: nat)
    requires code <= 29
    ensures DistanceBits(code) <= 13
  {
  }

  lemma {:induction false} RatioBelow2(n: nat, ip: nat)
    requires ip > 0 && 2 > n / ip + 1
    ensures ip > n
  {
    assert n / ip == 0;
  }

  lemma {:induction false} EstimateNegative(past: nat, shortest: nat)
    requires past > 0 && 0 < shortest <= 15
    ensures 129 * past / shortest > 0
  {
  }

  lemma {:induction false} RatioAtLeast2(n: nat, ip: nat, size: nat)
    requires ip > 0 && n / ip + 1 >= 2
    ensures ip <= n && size * (n / ip + 1) >= 2 * size
  {
  }

  lemma {:induction false} Kraft7Is15(lens: seq<nat>)
    requires Kraft(lens, 7)
    ensures Kraft(lens, 15)
  {
    KraftAnyLimit(lens, 7, 15);
  }

  lemma {:induction false} OrderPrefix(s: seq<bool>, m: nat, p: nat)
    requires m <= p <= 19
    ensures ReadOrder(s, p).Some? ==> ReadOrder(s, m).Some?
  {
    if m < p { OrderPrefix(s, m, p - 1); }
  }

  lemma {:induction false} NoBitsNeeded(s: seq<bool>)
    ensures ReadNumber(s, 0) == Some((0, s))
  {
    assert s[0..] == s;
  }

  lemma {:induction false} NumberTail(s: seq<bool>, n: nat)
    ensures var r := ReadNumber(s, n); r.Some? ==> n <= |s| && r.value.1 == s[n..]
  {
  }

  lemma {:induction false} NothingLeft(input: seq<byte>, ip: nat, buf: nat, len: int, n: nat)
    requires ip >= |input| && len < n && n > 0
    ensures ReadNumber(Remaining(input, ip, buf, len), n) == None
  {
  }

  lemma {:induction false} NoSymbolLeft(input: seq<byte>, ip: nat, buf: nat, len: int, lens: seq<nat>)
    requires len < 0
    ensures ReadSymbol(Remaining(input, ip, buf, len), lens) == None
  {
  }

  lemma {:induction false} ShrZero(n: nat)
    ensures Shr(0, n) == 0
  {
    if n > 0 { ShrZero(n - 1); }
  }

  /** Dropping more bits than there are leaves an empty buffer. */
  lemma {:induction false} ShrFits(buf: nat, len: nat, n: nat)
    requires buf < Pow2(len)
    ensures if n <= len then Shr(buf, n) < Pow2(len - n) else Shr(buf, n) == 0
  {
    if n <= len {
      TopFits(buf, n, len - n);
    } else {
      LowSmall(buf, len);
      ShrAdd(buf, len, n - len);
      ShrZero(n - len);
    }
  }
}
