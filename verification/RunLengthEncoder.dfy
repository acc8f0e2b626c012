/** The in-place run-length encoder of the compressor (inlined in the minified `ka.h`). */
module RunLengthEncoders {
  import opened RunLengths

  class RunLengthEncoder {
    /** The flat output and the counts of the 19 symbols, which are 8 bits wide. */
    const cells: array<nat>
    const counts: array<nat>
    var used: nat
    ghost var ops: seq<Op>
    /** The complete encoding that is being emitted. */
    ghost const target: seq<Op>

    ghost predicate Valid()
      reads this, cells, counts
    {
      && cells != counts && cells.Length == 316 && counts.Length == 19
      && Fits(target)
      && used <= 316 && cells[..used] == Flat(ops)
      && (forall k :: 0 <= k < 19 ==> counts[k] == Frequency(ops, k))
    }

    constructor (ghost target: seq<Op>)
      requires Fits(target)
      ensures Valid() && fresh(cells) && fresh(counts) && this.target == target && Before(target)
    {
      cells, counts := new nat[316](_ => 0), new nat[19](_ => 0);
      used, ops := 0, [];
      this.target := target;
    }

    /** What is still to be emitted before the encoding is complete. */
    ghost predicate Before(rest: seq<Op>)
      reads this
    {
      Joins(ops, rest, target)
    }

    /** Stores one operation; the counter is incremented modulo 256. */
    method Emit(op: Op, ghost rest: seq<Op>)
      requires Valid() && WellFormed(op) && Before([op] + rest)
      modifies this, cells, counts
      ensures Valid() && Before(rest)
    {
      HasRoom(target, ops, op, rest);
      AddOp(ops, op, rest, target);
      StoreCode(op);
      counts[op.symbol] := (counts[op.symbol] + 1) % 256;
      ops := ops + [op];
    }

    method StoreCode(op: Op)
      requires cells.Length == 316 && used <= 316 && cells[..used] == Flat(ops)
      requires used + |FlatOp(op)| <= 316
      modifies `used, cells
      ensures used <= 316 && cells[..used] == Flat(ops) + FlatOp(op)
    {
      cells[used] := op.symbol;
      used := used + 1;
      if op.symbol >= 16 {
        cells[used] := op.extra;
        used := used + 1;
      }
    }

    /** `n` lengths written as themselves. */
    method EmitPlain(v: nat, n: nat, ghost rest: seq<Op>)
      requires Valid() && v <= 15 && Before(PlainOps(v, n) + rest)
      modifies this, cells, counts
      ensures Valid() && Before(rest)
    {
      var s := n;
      while 0 < s
        invariant Valid() && Before(PlainOps(v, s) + rest)
      {
        PeelPlain(v, s, rest);
        Emit(Op(v, 0), PlainOps(v, s - 1) + rest);
        s := s - 1;
      }
      assert PlainOps(v, 0) + rest == rest;
    }

    method EmitZeros(n: nat, ghost rest: seq<Op>)
      requires Valid() && n >= 3 && Before(ZeroOps(n) + rest)
      modifies this, cells, counts
      ensures Valid() && Before(rest)
    {
      var s := n;
      while 0 < s
        invariant Valid() && (s == 0 || s >= 3) && Before(ZeroOps(s) + rest)
      {
        var a := ZeroChunk(s);
        PeelZeros(s, rest);
        Emit(if 10 >= a then Op(17, a - 3) else Op(18, a - 11), ZeroOps(s - a) + rest);
        s := s - a;
      }
      assert ZeroOps(0) + rest == rest;
    }

    method EmitRepeats(n: nat, ghost rest: seq<Op>)
      requires Valid() && n >= 3 && Before(RepeatOps(n) + rest)
      modifies this, cells, counts
      ensures Valid() && Before(rest)
    {
      var s := n;
      while 0 < s
        invariant Valid() && (s == 0 || s >= 3) && Before(RepeatOps(s) + rest)
      {
        var a := RepeatChunk(s);
        PeelRepeats(s, rest);
        Emit(Op(16, a - 3), RepeatOps(s - a) + rest);
        s := s - a;
      }
      assert RepeatOps(0) + rest == rest;
    }

    /** One run of `n` lengths `v`. */
    method EmitRun(v: nat, n: nat, ghost rest: seq<Op>)
      requires Valid() && v <= 15 && n > 0 && Before(RunOps(v, n) + rest)
      modifies this, cells, counts
      ensures Valid() && Before(rest)
    {
      if v == 0 {
        if 3 > n { EmitPlain(0, n, rest); } else { EmitZeros(n, rest); }
      } else {
        ghost var tail := if n < 4 then PlainOps(v, n - 1) else RepeatOps(n - 1);
        assert RunOps(v, n) + rest == [Op(v, 0)] + (tail + rest);
        Emit(Op(v, 0), tail + rest);
        if 3 > n - 1 { EmitPlain(v, n - 1, rest); } else { EmitRepeats(n - 1, rest); }
      }
    }

    /** The run that starts at index `r`; returns where the next run starts. */
    method EmitRunAt(lengths: seq<nat>, r: nat) returns (e: nat)
      requires Valid() && r < |lengths| && lengths[r] <= 15 && Before(EncodeFrom(lengths, r))
      modifies this, cells, counts
      ensures Valid() && r < e <= |lengths| && Before(EncodeFrom(lengths, e))
    {
      hide RunOps;
      var g := RunLengthAt(lengths, r);
      EncodeStep(lengths, r);
      EmitRun(lengths[r], g, EncodeFrom(lengths, r + g));
      e := r + g;
    }
  }

  /** An encoding that neither the cells nor the 8-bit counters are too small for. */
  ghost predicate Fits(ops: seq<Op>) {
    |Flat(ops)| <= 316 && forall k :: 0 <= k < 19 ==> Frequency(ops, k) <= 255
  }

  ghost predicate Joins(a: seq<Op>, b: seq<Op>, c: seq<Op>) {
    a + b == c
  }

  lemma {:induction false} AddOp(ops: seq<Op>, op: Op, rest: seq<Op>, all: seq<Op>)
    requires Joins(ops, [op] + rest, all)
    ensures Joins(ops + [op], rest, all)
    ensures Flat(ops + [op]) == Flat(ops) + FlatOp(op)
    ensures forall k :: Frequency(ops + [op], k) == Frequency(ops, k) + if op.symbol == k then 1 else 0
  {
    assert (ops + [op])[..|ops|] == ops;
  }

  /** No cell and no counter runs out before the encoding is complete. */
  lemma {:induction false} HasRoom(target: seq<Op>, ops: seq<Op>, op: Op, rest: seq<Op>)
    requires Fits(target) && WellFormed(op) && Joins(ops, [op] + rest, target)
    ensures |Flat(ops)| + |FlatOp(op)| <= 316 && Frequency(ops, op.symbol) < 255
  {
    AddOp(ops, op, rest, target);
    FlatAppend(ops + [op], rest);
    FrequencyAppend(ops + [op], rest, op.symbol);
  }

  lemma {:induction false} EncodingFits(lengths: seq<nat>)
    requires |lengths| <= 316 && forall i :: 0 <= i < |lengths| ==> lengths[i] <= 15
    ensures Fits(EncodeFrom(lengths, 0))
  {
    EncodeEconomical(lengths, 0);
  }

  lemma {:induction false} PeelPlain(v: nat, s: nat, rest: seq<Op>)
    requires s > 0
    ensures PlainOps(v, s) + rest == [Op(v, 0)] + (PlainOps(v, s - 1) + rest)
  {
  }

  lemma {:induction false} PeelZeros(s: nat, rest: seq<Op>)
    requires s >= 3
    ensures ZeroOps(s) + rest == [ZeroOp(ZeroChunk(s))] + (ZeroOps(s - ZeroChunk(s)) + rest)
  {
  }

  lemma {:induction false} PeelRepeats(s: nat, rest: seq<Op>)
    requires s >= 3
    ensures RepeatOps(s) + rest == [Op(16, RepeatChunk(s) - 3)] + (RepeatOps(s - RepeatChunk(s)) + rest)
  {
  }

  /** The length of the run of equal lengths that begins at `r`. */
  method RunLengthAt(lengths: seq<nat>, r: nat) returns (g: nat)
    requires r < |lengths|
    ensures g > 0 && r + g == RunEnd(lengths, r, r + 1)
  {
    g := 1;
    while r + g < |lengths| && lengths[r + g] == lengths[r]
      invariant r + g <= |lengths| && g > 0
      invariant RunEnd(lengths, r, r + g) == RunEnd(lengths, r, r + 1)
    {
      g := g + 1;
    }
  }

  /** The run-length coding of the lengths, flat, and how often each of its symbols occurs. */
  method EncodeLengths(lengths: seq<nat>) returns (codes: seq<nat>, freqs: seq<nat>)
    requires |lengths| <= 316 && forall i :: 0 <= i < |lengths| ==> lengths[i] <= 15
    ensures codes == Flat(EncodeFrom(lengths, 0))
    ensures |freqs| == 19 && forall k :: 0 <= k < 19 ==> freqs[k] == Frequency(EncodeFrom(lengths, 0), k)
  {
    ghost var target := EncodeFrom(lengths, 0);
    EncodingFits(lengths);
    var encoder := new RunLengthEncoder(target);
    var r := 0;
    while r < |lengths|
      invariant encoder.Valid() && encoder.target == target && r <= |lengths|
      invariant fresh(encoder) && fresh(encoder.cells) && fresh(encoder.counts)
      invariant encoder.Before(EncodeFrom(lengths, r))
    {
      r := encoder.EmitRunAt(lengths, r);
    }
    assert encoder.ops + [] == encoder.ops;
    codes, freqs := encoder.cells[..encoder.used], encoder.counts[..];
  }
}
