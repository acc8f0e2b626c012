/**
 Run-length coding of the code lengths in a dynamic block header (`getTreeSymbols_`, inlined in
 the minified `ka.h`; decoder function `d` inside `B`).

 Section 3.2.7 of RFC 1951: 0..15 are literal lengths, 16 repeats the previous length 3..6 times,
 17 and 18 stand for 3..10 and 11..138 zeros.
 */
module RunLengths {
  import opened Options

  /** One symbol of the code length alphabet, with the value of its extra bits. */
  datatype Op = Op(symbol: nat, extra: nat)

  function ExtraWidth(symbol: nat): nat {
    if symbol == 16 then 2 else if symbol == 17 then 3 else if symbol == 18 then 7 else 0
  }

  /** The symbol exists and its extra value fits its extra bits. */
  predicate WellFormed(op: Op) {
    if op.symbol <= 15 then op.extra == 0
    else if op.symbol == 16 then op.extra < 4
    else if op.symbol == 17 then op.extra < 8
    else op.symbol == 18 && op.extra < 128
  }

  /** How many lengths an operation stands for. */
  function Count(op: Op): nat {
    if op.symbol <= 15 then 1
    else if op.symbol <= 17 then 3 + op.extra
    else 11 + op.extra
  }

  /** The length an operation repeats, given the length before it. */
  function ValueOf(op: Op, prev: nat): nat {
    if op.symbol <= 15 then op.symbol else if op.symbol == 16 then prev else 0
  }

  function Repeat<T>(x: T, n: nat): (s: seq<T>)
    ensures |s| == n
  {
    seq(n, i => x)
  }

  /** The operations as the encoder's flat array holds them. */
  function Flat(ops: seq<Op>): seq<nat> {
    if |ops| == 0 then [] else Flat(ops[..|ops| - 1]) + FlatOp(ops[|ops| - 1])
  }

  function FlatOp(op: Op): seq<nat> {
    if op.symbol < 16 then [op.symbol] else [op.symbol, op.extra]
  }

  /** How often a symbol occurs. */
  function Frequency(ops: seq<Op>, symbol: nat): nat {
    if |ops| == 0 then 0
    else Frequency(ops[..|ops| - 1], symbol) + if ops[|ops| - 1].symbol == symbol then 1 else 0
  }

  // ----- decoding

  /**
   The decoder's loop: operations are read until there are `need` lengths or more.  Returns the
   lengths and the unread operations.
   */
  function ReadLengths(ops: seq<Op>, need: nat, prev: nat, done: seq<nat>): (r: Option<(seq<nat>, seq<Op>)>)
    ensures r.Some? ==> |r.value.0| >= need
    decreases |ops|
  {
    if |done| >= need then Some((done, ops))
    else if |ops| == 0 then None
    else
      var v := ValueOf(ops[0], prev);
      ReadLengths(ops[1..], need, v, done + Repeat(v, Count(ops[0])))
  }

  // ----- the encoding of one run

  /** At most 138 zeros at a time, shortened when that would leave one or two zeros over. */
  function ZeroChunk(s: nat): (a: nat)
    requires s >= 3
    ensures 3 <= a <= 138 && a <= s && (a == s || s - a >= 3)
  {
    var a := if 138 > s then s else 138;
    if a > s - 3 && a < s then s - 3 else a
  }

  function RepeatChunk(s: nat): (a: nat)
    requires s >= 3
    ensures 3 <= a <= 6 && a <= s && (a == s || s - a >= 3)
  {
    var a := if 6 > s then s else 6;
    if a > s - 3 && a < s then s - 3 else a
  }

  function ZeroOp(a: nat): (op: Op)
    requires 3 <= a <= 138
    ensures WellFormed(op) && Count(op) == a && op.symbol > 16
  {
    if a <= 10 then Op(17, a - 3) else Op(18, a - 11)
  }

  function ZeroOps(s: nat): seq<Op>
    requires s == 0 || s >= 3
  {
    if s == 0 then [] else [ZeroOp(ZeroChunk(s))] + ZeroOps(s - ZeroChunk(s))
  }

  function RepeatOps(s: nat): seq<Op>
    requires s == 0 || s >= 3
  {
    if s == 0 then [] else [Op(16, RepeatChunk(s) - 3)] + RepeatOps(s - RepeatChunk(s))
  }

  function PlainOps(v: nat, n: nat): (ops: seq<Op>) {
    if n == 0 then [] else [Op(v, 0)] + PlainOps(v, n - 1)
  }

  /** The encoding of `n` equal lengths `v`. */
  function RunOps(v: nat, n: nat): seq<Op>
    requires n > 0
  {
    if v == 0 then
      if n < 3 then PlainOps(0, n) else ZeroOps(n)
    else
      [Op(v, 0)] + if n < 4 then PlainOps(v, n - 1) else RepeatOps(n - 1)
  }

  /** Where the run of equal lengths that starts at `r` ends. */
  function RunEnd(lengths: seq<nat>, r: nat, e: nat): (end: nat)
    requires r < e <= |lengths|
    ensures e <= end <= |lengths|
    decreases |lengths| - e
  {
    if e < |lengths| && lengths[e] == lengths[r] then RunEnd(lengths, r, e + 1) else e
  }

  lemma {:induction false} RunIsMaximal(lengths: seq<nat>, r: nat, e: nat)
    requires r < e <= |lengths|
    ensures var end := RunEnd(lengths, r, e);
      (forall i :: e <= i < end ==> lengths[i] == lengths[r]) && (end < |lengths| ==> lengths[end] != lengths[r])
    decreases |lengths| - e
  {
    if e < |lengths| && lengths[e] == lengths[r] { RunIsMaximal(lengths, r, e + 1); }
  }

  /** The encoding of the lengths from index `r` on, run by run. */
  function EncodeFrom(lengths: seq<nat>, r: nat): seq<Op>
    requires r <= |lengths|
    decreases |lengths| - r
  {
    if r == |lengths| then []
    else
      var e := RunEnd(lengths, r, r + 1);
      RunOps(lengths[r], e - r) + EncodeFrom(lengths, e)
  }

  // ----- facts about operation lists

  lemma {:induction false} FrequencyAppend(a: seq<Op>, b: seq<Op>, symbol: nat)
    ensures Frequency(a + b, symbol) == Frequency(a, symbol) + Frequency(b, symbol)
  {
    if |b| == 0 {
      assert a + b == a;
    } else {
      assert (a + b)[..|a + b| - 1] == a + b[..|b| - 1];
      FrequencyAppend(a, b[..|b| - 1], symbol);
    }
  }

  lemma {:induction false} FlatAppend(a: seq<Op>, b: seq<Op>)
    ensures Flat(a + b) == Flat(a) + Flat(b)
  {
    if |b| == 0 {
      assert a + b == a;
    } else {
      assert (a + b)[..|a + b| - 1] == a + b[..|b| - 1];
      FlatAppend(a, b[..|b| - 1]);
    }
  }

  ghost predicate AllWellFormed(ops: seq<Op>) {
    forall i :: 0 <= i < |ops| ==> WellFormed(ops[i])
  }

  /** What holds of a run of `n` operations' worth of lengths, as far as the sizes go. */
  ghost predicate Economical(ops: seq<Op>, n: nat) {
    && AllWellFormed(ops)
    && |Flat(ops)| <= n
    && forall k :: 16 <= k <= 18 ==> 3 * Frequency(ops, k) <= n
  }

  lemma {:induction false} EconomicalAppend(a: seq<Op>, m: nat, b: seq<Op>, n: nat)
    requires Economical(a, m) && Economical(b, n)
    ensures Economical(a + b, m + n)
  {
    FlatAppend(a, b);
    forall k | 16 <= k <= 18 ensures 3 * Frequency(a + b, k) <= m + n {
      FrequencyAppend(a, b, k);
    }
  }

  lemma {:induction false} EconomicalOp(op: Op)
    requires WellFormed(op)
    ensures Economical([op], Count(op))
    ensures forall k :: Frequency([op], k) == if op.symbol == k then 1 else 0
  {
    assert [op][..0] == [];
    assert Flat([op]) == [] + FlatOp(op);
    forall k ensures Frequency([op], k) == if op.symbol == k then 1 else 0 {
      assert Frequency([op], k) == Frequency([], k) + if op.symbol == k then 1 else 0;
    }
  }

  lemma {:induction false} NothingEconomical()
    ensures Economical([], 0) && forall k :: Frequency([], k) == 0
  {
  }

  lemma {:induction false} ZeroOpsEconomical(s: nat)
    requires s == 0 || s >= 3
    ensures Economical(ZeroOps(s), s)
    ensures forall k :: k < 16 ==> Frequency(ZeroOps(s), k) == 0
  {
    hide Economical, Frequency;
    NothingEconomical();
    if s > 0 {
      var a := ZeroChunk(s);
      ZeroOpsEconomical(s - a);
      EconomicalOp(ZeroOp(a));
      EconomicalAppend([ZeroOp(a)], a, ZeroOps(s - a), s - a);
      forall k | k < 16 ensures Frequency(ZeroOps(s), k) == 0 {
        FrequencyAppend([ZeroOp(a)], ZeroOps(s - a), k);
      }
    }
  }

  lemma {:induction false} RepeatOpsEconomical(s: nat)
    requires s == 0 || s >= 3
    ensures Economical(RepeatOps(s), s)
    ensures forall k :: k < 16 ==> Frequency(RepeatOps(s), k) == 0
  {
    hide Economical, Frequency;
    NothingEconomical();
    if s > 0 {
      var a := RepeatChunk(s);
      RepeatOpsEconomical(s - a);
      EconomicalOp(Op(16, a - 3));
      EconomicalAppend([Op(16, a - 3)], a, RepeatOps(s - a), s - a);
      forall k | k < 16 ensures Frequency(RepeatOps(s), k) == 0 {
        FrequencyAppend([Op(16, a - 3)], RepeatOps(s - a), k);
      }
    }
  }

  lemma {:induction false} PlainEconomical(v: nat, n: nat)
    requires v <= 15
    ensures Economical(PlainOps(v, n), n)
    ensures forall k :: Frequency(PlainOps(v, n), k) == if k == v then n else 0
  {
    hide Economical, Frequency;
    NothingEconomical();
    if n > 0 {
      PlainEconomical(v, n - 1);
      EconomicalOp(Op(v, 0));
      EconomicalAppend([Op(v, 0)], 1, PlainOps(v, n - 1), n - 1);
      forall k ensures Frequency(PlainOps(v, n), k) == if k == v then n else 0 {
        FrequencyAppend([Op(v, 0)], PlainOps(v, n - 1), k);
      }
    }
  }

  lemma {:induction false} RunOpsEconomical(v: nat, n: nat)
    requires v <= 15 && n > 0
    ensures Economical(RunOps(v, n), n)
    ensures forall k :: k < 16 ==> Frequency(RunOps(v, n), k) <= if k != v then 0 else if n < 3 then n else 3
  {
    if v == 0 {
      if n < 3 { PlainEconomical(0, n); } else { ZeroOpsEconomical(n); }
    } else {
      EconomicalOp(Op(v, 0));
      var rest := if n < 4 then PlainOps(v, n - 1) else RepeatOps(n - 1);
      if n < 4 { PlainEconomical(v, n - 1); } else { RepeatOpsEconomical(n - 1); }
      EconomicalAppend([Op(v, 0)], 1, rest, n - 1);
      forall k | k < 16 ensures Frequency(RunOps(v, n), k) <= if k != v then 0 else if n < 3 then n else 3 {
        FrequencyAppend([Op(v, 0)], rest, k);
      }
    }
  }

  /** At most three in four lengths are written as themselves, so no symbol comes near 256 occurrences. */
  lemma {:induction false} EncodeEconomical(lengths: seq<nat>, r: nat)
    requires r <= |lengths| && forall i :: 0 <= i < |lengths| ==> lengths[i] <= 15
    ensures Economical(EncodeFrom(lengths, r), |lengths| - r)
    ensures forall k :: k < 16 ==>
      4 * Frequency(EncodeFrom(lengths, r), k)
        <= 3 * (|lengths| - r) + if r < |lengths| && lengths[r] == k then 3 else 0
    decreases |lengths| - r
  {
    hide RunOps, Economical, Frequency;
    NothingEconomical();
    if r < |lengths| {
      var e := RunEnd(lengths, r, r + 1);
      var run, rest := RunOps(lengths[r], e - r), EncodeFrom(lengths, e);
      RunIsMaximal(lengths, r, r + 1);
      EncodeEconomical(lengths, e);
      RunOpsEconomical(lengths[r], e - r);
      EconomicalAppend(run, e - r, rest, |lengths| - e);
      forall k | k < 16
        ensures 4 * Frequency(EncodeFrom(lengths, r), k) <= 3 * (|lengths| - r) + if lengths[r] == k then 3 else 0
      {
        FrequencyAppend(run, rest, k);
      }
    }
  }

  // ----- the round trip

  /** Reading a list of operations first reads any prefix of it that is needed in full. */
  lemma {:induction false} ReadPlain(v: nat, n: nat, rest: seq<Op>, need: nat, prev: nat, done: seq<nat>)
    requires v <= 15 && |done| + n <= need
    ensures ReadLengths(PlainOps(v, n) + rest, need, prev, done)
         == ReadLengths(rest, need, if n == 0 then prev else v, done + Repeat(v, n))
    decreases n
  {
    var ops := PlainOps(v, n) + rest;
    if n == 0 {
      assert ops == rest && done + Repeat(v, 0) == done;
    } else {
      assert ops[1..] == PlainOps(v, n - 1) + rest;
      ReadPlain(v, n - 1, rest, need, v, done + Repeat(v, 1));
      assert done + Repeat(v, 1) + Repeat(v, n - 1) == done + Repeat(v, n);
    }
  }

  lemma {:induction false} ReadOne(op: Op, rest: seq<Op>, need: nat, prev: nat, done: seq<nat>)
    requires |done| < need
    ensures ReadLengths([op] + rest, need, prev, done)
         == ReadLengths(rest, need, ValueOf(op, prev), done + Repeat(ValueOf(op, prev), Count(op)))
  {
    assert ([op] + rest)[1..] == rest;
  }

  lemma {:induction false} ReadZeros(s: nat, rest: seq<Op>, need: nat, prev: nat, done: seq<nat>)
    requires (s == 0 || s >= 3) && |done| + s <= need
    ensures ReadLengths(ZeroOps(s) + rest, need, prev, done)
         == ReadLengths(rest, need, if s == 0 then prev else 0, done + Repeat(0, s))
    decreases s
  {
    if s == 0 {
      assert ZeroOps(s) + rest == rest && done + Repeat(0, 0) == done;
    } else {
      var a := ZeroChunk(s);
      assert ZeroOps(s) + rest == [ZeroOp(a)] + (ZeroOps(s - a) + rest);
      ReadOne(ZeroOp(a), ZeroOps(s - a) + rest, need, prev, done);
      ReadZeros(s - a, rest, need, 0, done + Repeat(0, a));
      assert done + Repeat(0, a) + Repeat(0, s - a) == done + Repeat(0, s);
    }
  }

  lemma {:induction false} ReadRepeats(s: nat, rest: seq<Op>, need: nat, prev: nat, done: seq<nat>)
    requires (s == 0 || s >= 3) && |done| + s <= need
    ensures ReadLengths(RepeatOps(s) + rest, need, prev, done)
         == ReadLengths(rest, need, prev, done + Repeat(prev, s))
    decreases s
  {
    if s == 0 {
      assert RepeatOps(s) + rest == rest && done + Repeat(prev, 0) == done;
    } else {
      var a := RepeatChunk(s);
      assert RepeatOps(s) + rest == [Op(16, a - 3)] + (RepeatOps(s - a) + rest);
      ReadOne(Op(16, a - 3), RepeatOps(s - a) + rest, need, prev, done);
      ReadRepeats(s - a, rest, need, prev, done + Repeat(prev, a));
      assert done + Repeat(prev, a) + Repeat(prev, s - a) == done + Repeat(prev, s);
    }
  }

  lemma {:induction false} ReadRun(v: nat, n: nat, rest: seq<Op>, need: nat, prev: nat, done: seq<nat>)
    requires v <= 15 && n > 0 && |done| + n <= need
    ensures ReadLengths(RunOps(v, n) + rest, need, prev, done) == ReadLengths(rest, need, v, done + Repeat(v, n))
  {
    if v == 0 {
      if n < 3 { ReadPlain(0, n, rest, need, prev, done); } else { ReadZeros(n, rest, need, prev, done); }
    } else {
      var tail := if n < 4 then PlainOps(v, n - 1) else RepeatOps(n - 1);
      assert RunOps(v, n) + rest == [Op(v, 0)] + (tail + rest);
      ReadOne(Op(v, 0), tail + rest, need, prev, done);
      if n < 4 {
        ReadPlain(v, n - 1, rest, need, v, done + Repeat(v, 1));
      } else {
        ReadRepeats(n - 1, rest, need, v, done + Repeat(v, 1));
      }
      assert done + Repeat(v, 1) + Repeat(v, n - 1) == done + Repeat(v, n);
    }
  }

  lemma {:induction false} ReadEnough(ops: seq<Op>, need: nat, prev: nat, done: seq<nat>)
    requires |done| >= need
    ensures ReadLengths(ops, need, prev, done) == Some((done, ops))
  {
  }

  /** Decoding what was encoded from index `r` on completes the list; `base` lengths were read separately. */
  lemma {:induction false} ReadEncoded(lengths: seq<nat>, base: nat, r: nat, prev: nat)
    requires base <= r <= |lengths| && forall i :: 0 <= i < |lengths| ==> lengths[i] <= 15
    ensures ReadLengths(EncodeFrom(lengths, r), |lengths| - base, prev, lengths[base..r]) == Some((lengths[base..], []))
    decreases |lengths| - r
  {
    hide RunOps, ReadLengths, RunEnd;
    if r == |lengths| {
      assert lengths[base..r] == lengths[base..];
      ReadEnough([], r - base, prev, lengths[base..]);
    } else {
      var e := RunEnd(lengths, r, r + 1);
      RunIsMaximal(lengths, r, r + 1);
      SliceOfRun(lengths, base, r, e);
      ReadRun(lengths[r], e - r, EncodeFrom(lengths, e), |lengths| - base, prev, lengths[base..r]);
      ReadEncoded(lengths, base, e, lengths[r]);
    }
  }

  /** Expanding the run-length coding of any list of code lengths gives the list back. */
  lemma {:induction false} RunLengthRoundTrip(lengths: seq<nat>)
    requires forall i :: 0 <= i < |lengths| ==> lengths[i] <= 15
    ensures ReadLengths(EncodeFrom(lengths, 0), |lengths|, 0, []) == Some((lengths, []))
  {
    assert lengths[0..0] == [] && lengths[0..] == lengths;
    ReadEncoded(lengths, 0, 0, 0);
  }

  // ----- the decoder reads the two alphabets' lengths separately

  /**
   What `B` does: `n` lengths for the first alphabet, then `m` for the second, starting afresh.
   The arrays have `n` and `m` cells, so what a repeat writes beyond them is lost.
   */
  function ReadTwoParts(ops: seq<Op>, n: nat, m: nat): Option<(seq<nat>, seq<nat>, seq<Op>)> {
    match ReadLengths(ops, n, 0, [])
    case None => None
    case Some((first, rest)) =>
      match ReadLengths(rest, m, 0, [])
      case None => None
      case Some((second, unread)) => Some((first[..n], second[..m], unread))
  }

  /** Four equal lengths in a row with the boundary of the two alphabets inside. */
  predicate Straddles(lengths: seq<nat>, n: nat) {
    exists i | 0 <= i < n :: FourEqual(lengths, i) && n < i + 4
  }

  predicate FourEqual(lengths: seq<nat>, i: nat) {
    i + 4 <= |lengths| && lengths[i] == lengths[i + 1] == lengths[i + 2] == lengths[i + 3]
  }

  /** The lengths of the two alphabets, the first ending in a used symbol as the encoder leaves it. */
  ghost predicate TwoAlphabets(lengths: seq<nat>, n: nat) {
    0 < n < |lengths| && lengths[n - 1] > 0 && forall i :: 0 <= i < |lengths| ==> lengths[i] <= 15
  }

  lemma {:induction false} LongRunStraddles(lengths: seq<nat>, n: nat, r: nat, e: nat)
    requires r < n < e <= |lengths| && r + 4 <= e && forall i :: r <= i < e ==> lengths[i] == lengths[r]
    ensures Straddles(lengths, n)
  {
    var i: nat := if e - 4 < n then e - 4 else n - 1;
    assert FourEqual(lengths, i);
  }

  /** Up to the boundary the first part reads run by run. */
  lemma {:induction false} FirstPart(lengths: seq<nat>, n: nat, r: nat, prev: nat)
    requires TwoAlphabets(lengths, n) && r <= n && !Straddles(lengths, n)
    ensures var first := ReadLengths(EncodeFrom(lengths, r), n, prev, lengths[..r]);
      first.Some? && first.value.0 == lengths[..n]
      && ReadLengths(first.value.1, |lengths| - n, 0, []) == Some((lengths[n..], []))
    decreases n - r
  {
    hide RunOps, EncodeFrom, ReadLengths, RunEnd, PlainOps, Straddles;
    if r == n {
      assert lengths[n..n] == [];
      ReadEnough(EncodeFrom(lengths, n), n, prev, lengths[..n]);
      ReadEncoded(lengths, n, n, 0);
    } else {
      var e, v := RunEnd(lengths, r, r + 1), lengths[r];
      var rest := EncodeFrom(lengths, e);
      RunIsMaximal(lengths, r, r + 1);
      EncodeStep(lengths, r);
      if e <= n {
        SliceOfRun(lengths, 0, r, e);
        ReadRun(v, e - r, rest, n, prev, lengths[..r]);
        FirstPart(lengths, n, e, v);
      } else {
        if e - r >= 4 { LongRunStraddles(lengths, n, r, e); }
        ShortRunShape(v, e - r);
        ShortRunSplits(lengths, n, r, e, prev);
      }
    }
  }

  lemma {:induction false} ShortRunShape(v: nat, n: nat)
    requires v > 0 && 0 < n < 4
    ensures RunOps(v, n) == PlainOps(v, n)
  {
  }

  /** A run written out in full can be cut anywhere. */
  lemma {:induction false} ShortRunSplits(lengths: seq<nat>, n: nat, r: nat, e: nat, prev: nat)
    requires TwoAlphabets(lengths, n) && r < n < e <= |lengths|
    requires forall i :: r <= i < e ==> lengths[i] == lengths[r]
    ensures var first := ReadLengths(PlainOps(lengths[r], e - r) + EncodeFrom(lengths, e), n, prev, lengths[..r]);
      first.Some? && first.value.0 == lengths[..n]
      && ReadLengths(first.value.1, |lengths| - n, 0, []) == Some((lengths[n..], []))
  {
    hide EncodeFrom;
    var v, rest := lengths[r], EncodeFrom(lengths, e);
    PlainSplit(v, n - r, e - n, rest);
    SliceOfRun(lengths, 0, r, n);
    ReadPlain(v, n - r, PlainOps(v, e - n) + rest, n, prev, lengths[..r]);
    SliceOfRun(lengths, n, n, e);
    ReadPlain(v, e - n, rest, |lengths| - n, 0, []);
    ReadEncoded(lengths, n, e, v);
  }

  lemma {:induction false} PlainSplit(v: nat, m: nat, n: nat, rest: seq<Op>)
    ensures PlainOps(v, m + n) + rest == PlainOps(v, m) + (PlainOps(v, n) + rest)
  {
    if m > 0 {
      PlainSplit(v, m - 1, n, rest);
      var more := PlainOps(v, n) + rest;
      assert PlainOps(v, m + n) + rest == [Op(v, 0)] + (PlainOps(v, m - 1 + n) + rest);
      assert PlainOps(v, m) + more == [Op(v, 0)] + (PlainOps(v, m - 1) + more);
    } else {
      assert PlainOps(v, 0) + (PlainOps(v, n) + rest) == PlainOps(v, n) + rest;
    }
  }

  lemma {:induction false} SliceOfRun(lengths: seq<nat>, base: nat, r: nat, e: nat)
    requires base <= r < e <= |lengths| && forall i :: r <= i < e ==> lengths[i] == lengths[r]
    ensures lengths[base..r] + Repeat(lengths[r], e - r) == lengths[base..e]
  {
  }

  /** What has been read is never changed by reading on. */
  lemma {:induction false} ReadKeeps(ops: seq<Op>, need: nat, prev: nat, done: seq<nat>)
    requires |done| > 0 && need > 0
    ensures var r := ReadLengths(ops, need, prev, done); r.Some? ==> |r.value.0| >= need && r.value.0[0] == done[0]
    decreases |ops|
  {
    if |done| < need && |ops| > 0 {
      var v := ValueOf(ops[0], prev);
      ReadKeeps(ops[1..], need, v, done + Repeat(v, Count(ops[0])));
    }
  }

  /** A repeat group that runs past what is needed is cut off, and only whole groups are left. */
  lemma {:induction false} ReadOverrun(s: nat, rest: seq<Op>, need: nat, prev: nat, done: seq<nat>) returns (left: nat)
    requires (s == 0 || s >= 3) && |done| <= need < |done| + s
    ensures left == 0 || left >= 3
    ensures var r := ReadLengths(RepeatOps(s) + rest, need, prev, done); r.Some? && r.value.1 == RepeatOps(left) + rest
    decreases s
  {
    if |done| == need {
      left := s;
    } else {
      var a := RepeatChunk(s);
      assert RepeatOps(s) + rest == [Op(16, a - 3)] + (RepeatOps(s - a) + rest);
      ReadOne(Op(16, a - 3), RepeatOps(s - a) + rest, need, prev, done);
      if need < |done| + a {
        left := s - a;
      } else {
        left := ReadOverrun(s - a, rest, need, prev, done + Repeat(prev, a));
      }
    }
  }

  /** If the second part starts with an operation of the wrong value, it cannot come out right. */
  lemma {:induction false} WrongStart(ops: seq<Op>, m: nat, x: nat)
    requires m > 0 && (|ops| > 0 ==> ValueOf(ops[0], 0) != x)
    ensures var r := ReadLengths(ops, m, 0, []); r.Some? ==> r.value.0[0] != x
  {
    if |ops| > 0 {
      var v := ValueOf(ops[0], 0);
      assert ReadLengths(ops, m, 0, []) == ReadLengths(ops[1..], m, v, [] + Repeat(v, Count(ops[0])));
      ReadKeeps(ops[1..], m, v, [] + Repeat(v, Count(ops[0])));
    }
  }

  lemma {:induction false} FirstOpValue(lengths: seq<nat>, r: nat)
    requires r < |lengths| && forall i :: 0 <= i < |lengths| ==> lengths[i] <= 15
    ensures |EncodeFrom(lengths, r)| > 0 && ValueOf(EncodeFrom(lengths, r)[0], 0) == lengths[r]
  {
    var n := RunEnd(lengths, r, r + 1) - r;
    var run := RunOps(lengths[r], n);
    if lengths[r] == 0 && n >= 3 { assert ZeroOps(n)[0] == ZeroOp(ZeroChunk(n)); }
    assert run[0] == EncodeFrom(lengths, r)[0];
  }

  /** After the first alphabet's lengths there is nothing left, or an operation that does not stand for `v`. */
  ghost predicate LeavesWrong(first: Option<(seq<nat>, seq<Op>)>, v: nat) {
    first.Some? && (|first.value.1| > 0 ==> ValueOf(first.value.1[0], 0) != v)
  }

  /** With four equal lengths across the boundary, the second part starts in the middle of a run. */
  lemma {:induction false} SecondPartStartsWrong(lengths: seq<nat>, n: nat, r: nat, i: nat, prev: nat)
    requires TwoAlphabets(lengths, n) && r <= i < n < i + 4 && FourEqual(lengths, i)
    ensures LeavesWrong(ReadLengths(EncodeFrom(lengths, r), n, prev, lengths[..r]), lengths[n])
    decreases n - r
  {
    hide RunOps, EncodeFrom, ReadLengths, LeavesWrong;
    EncodeStep(lengths, r);
    var e, v := RunEnd(lengths, r, r + 1), lengths[r];
    RunIsMaximal(lengths, r, r + 1);
    if e <= n {
      assert lengths[e] != v;
      assert e <= i;
      SliceOfRun(lengths, 0, r, e);
      ReadRun(v, e - r, EncodeFrom(lengths, e), n, prev, lengths[..r]);
      SecondPartStartsWrong(lengths, n, e, i, v);
    } else {
      assert lengths[n] == v && (e < |lengths| ==> lengths[e] != v);
      assert e >= i + 4;
      LongRunIsCut(lengths, n, r, e, prev);
    }
  }

  lemma {:induction false} LongRunOps(lengths: seq<nat>, r: nat)
    requires r < |lengths| && lengths[r] > 0 && r + 4 <= RunEnd(lengths, r, r + 1)
    ensures var e := RunEnd(lengths, r, r + 1);
      EncodeFrom(lengths, r) == [Op(lengths[r], 0)] + (RepeatOps(e - r - 1) + EncodeFrom(lengths, e))
  {
    var e := RunEnd(lengths, r, r + 1);
    EncodeStep(lengths, r);
    LongRunShape(lengths[r], e - r);
    Associate(EncodeFrom(lengths, r), RunOps(lengths[r], e - r), [Op(lengths[r], 0)], RepeatOps(e - r - 1),
      EncodeFrom(lengths, e));
  }

  lemma {:induction false} EncodeStep(lengths: seq<nat>, r: nat)
    requires r < |lengths|
    ensures var e := RunEnd(lengths, r, r + 1);
      EncodeFrom(lengths, r) == RunOps(lengths[r], e - r) + EncodeFrom(lengths, e)
  {
    hide RunOps;
  }

  lemma {:induction false} EncodeNothing(lengths: seq<nat>)
    ensures EncodeFrom(lengths, |lengths|) == []
  {
  }

  lemma {:induction false} LongRunShape(v: nat, n: nat)
    requires v > 0 && n >= 4
    ensures RunOps(v, n) == [Op(v, 0)] + RepeatOps(n - 1)
  {
  }

  lemma {:induction false} Associate(all: seq<Op>, run: seq<Op>, a: seq<Op>, b: seq<Op>, c: seq<Op>)
    requires all == run + c && run == a + b
    ensures all == a + (b + c)
  {
  }

  lemma {:induction false} LongRunIsCut(lengths: seq<nat>, n: nat, r: nat, e: nat, prev: nat)
    requires TwoAlphabets(lengths, n) && r < n < e && r + 4 <= e == RunEnd(lengths, r, r + 1)
    ensures LeavesWrong(ReadLengths(EncodeFrom(lengths, r), n, prev, lengths[..r]), lengths[n])
  {
    hide RunOps, EncodeFrom, RepeatOps, ReadLengths, LeavesWrong;
    var v, rest, s := lengths[r], EncodeFrom(lengths, e), e - r - 1;
    RunIsMaximal(lengths, r, r + 1);
    LongRunOps(lengths, r);
    ReadOne(Op(v, 0), RepeatOps(s) + rest, n, prev, lengths[..r]);
    if e < |lengths| { FirstOpValue(lengths, e); } else { EncodeNothing(lengths); }
    CutInside(s, rest, n, v, lengths[..r] + Repeat(v, 1));
  }

  lemma {:induction false} CutInside(s: nat, rest: seq<Op>, need: nat, v: nat, done: seq<nat>)
    requires s >= 3 && |done| <= need < |done| + s && v > 0
    requires |rest| > 0 ==> ValueOf(rest[0], 0) != v
    ensures LeavesWrong(ReadLengths(RepeatOps(s) + rest, need, v, done), v)
  {
    var left := ReadOverrun(s, rest, need, v, done);
    var ops := RepeatOps(left) + rest;
    if left > 0 {
      assert ops[0].symbol == 16;
    } else {
      assert ops == rest;
    }
  }

  /**
   The two-part reading recovers both alphabets' lengths exactly when no four equal
   lengths in a row straddle the boundary.
   */
  lemma {:induction false} TwoPartsAgree(lengths: seq<nat>, n: nat)
    requires TwoAlphabets(lengths, n)
    ensures ReadTwoParts(EncodeFrom(lengths, 0), n, |lengths| - n) == Some((lengths[..n], lengths[n..], []))
      <==> !Straddles(lengths, n)
  {
    hide EncodeFrom;
    assert lengths[..0] == [];
    if Straddles(lengths, n) {
      var i: nat :| 0 <= i < n && FourEqual(lengths, i) && n < i + 4;
      SecondPartStartsWrong(lengths, n, 0, i, 0);
      WrongStart(ReadLengths(EncodeFrom(lengths, 0), n, 0, []).value.1, |lengths| - n, lengths[n]);
    } else {
      FirstPart(lengths, n, 0, 0);
      assert lengths[..n][..n] == lengths[..n] && lengths[n..][..|lengths| - n] == lengths[n..];
    }
  }

  /**
   Complete codes for the symbols of the 16 bytes "bbbbabbababbbaba", cut into b, (3, 1), a, (4, 3), (3, 5), (4, 6)
   as (length, distance): literals 97 and 98 have length 3, the symbols 256 to 258 length 2, and the symbols 0, 2, 4
   of the distances lengths 2, 2, 1.
   */
  function MisreadLengths(): (lengths: seq<nat>)
    ensures |lengths| == 264
  {
    Repeat(0, 97) + [3, 3] + Repeat(0, 157) + [2, 2, 2] + [2, 0, 2, 0, 1]
  }

  lemma {:induction false} MisreadStraddles()
    ensures TwoAlphabets(MisreadLengths(), 259) && Straddles(MisreadLengths(), 259)
  {
    assert FourEqual(MisreadLengths(), 256);
  }

  /** The decompressor misreads them. */
  lemma {:induction false} MisreadHeader()
    ensures var f := MisreadLengths(); ReadTwoParts(EncodeFrom(f, 0), 259, 5) != Some((f[..259], f[259..], []))
  {
    hide *;
    MisreadStraddles();
    TwoPartsAgree(MisreadLengths(), 259);
  }
}
