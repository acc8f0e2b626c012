/** The encoder writes code lengths in the fewest operations. */
module RunLengthCosts {
  import opened Options
  import opened RunLengths

  /** The lengths that operations stand for, given the length before them. */
  ghost function Expanded(ops: seq<Op>, prev: nat): seq<nat>
    decreases |ops|
  {
    if |ops| == 0 then []
    else
      var v := ValueOf(ops[0], prev);
      Repeat(v, Count(ops[0])) + Expanded(ops[1..], v)
  }

  /** A reader that uses up all the operations gets what they stand for. */
  lemma {:induction false} ReadIsExpanded(ops: seq<Op>, need: nat, prev: nat, done: seq<nat>)
    requires var r := ReadLengths(ops, need, prev, done); r.Some? && r.value.1 == []
    ensures ReadLengths(ops, need, prev, done).value.0 == done + Expanded(ops, prev)
    decreases |ops|
  {
    if |done| < need {
      var v := ValueOf(ops[0], prev);
      ReadIsExpanded(ops[1..], need, v, done + Repeat(v, Count(ops[0])));
    }
  }

  /** How few operations give `k` equal lengths when up to `most` can be given at a time, but not two. */
  ghost function Fewest(k: nat, most: nat): nat
    requires most > 0
  {
    if k < 3 then k else (k + most - 1) / most
  }

  lemma {:induction false} FewestStep(k: nat, most: nat, m: nat)
    requires (most == 6 || most == 138) && 0 < m <= k && m <= most && m != 2
    ensures Fewest(k, most) <= 1 + Fewest(k - m, most)
  {
  }

  lemma {:induction false} PlainLength(v: nat, n: nat)
    ensures |PlainOps(v, n)| == n
  {
    if n > 0 { PlainLength(v, n - 1); }
  }

  lemma {:induction false} RepeatLength(s: nat)
    requires s == 0 || s >= 3
    ensures |RepeatOps(s)| == Fewest(s, 6)
  {
    if s > 0 { RepeatLength(s - RepeatChunk(s)); }
  }

  lemma {:induction false} ZeroLength(s: nat)
    requires s == 0 || s >= 3
    ensures |ZeroOps(s)| == Fewest(s, 138)
  {
    if s > 0 { ZeroLength(s - ZeroChunk(s)); }
  }

  /** How few operations give a run of `k` times `v` that follows `prev`. */
  ghost function FewestOf(v: nat, k: nat, prev: nat): nat
    requires k > 0
  {
    if v == 0 then Fewest(k, 138) else if v == prev then Fewest(k, 6) else 1 + Fewest(k - 1, 6)
  }

  lemma {:induction false} RunLength(v: nat, n: nat, prev: nat)
    requires n > 0 && (v == 0 || v != prev)
    ensures |RunOps(v, n)| == FewestOf(v, n, prev)
  {
    if v == 0 {
      if n < 3 { PlainLength(v, n); } else { ZeroLength(n); }
    } else {
      if n < 4 { PlainLength(v, n - 1); } else { RepeatLength(n - 1); }
    }
  }

  /** How few operations give the lengths from `r` on: the rest of the run there, and what the encoder writes then. */
  ghost function FewestFrom(lengths: seq<nat>, r: nat, prev: nat): nat
    requires r <= |lengths|
  {
    if r == |lengths| then 0
    else
      var e := RunEnd(lengths, r, r + 1);
      FewestOf(lengths[r], e - r, prev) + |EncodeFrom(lengths, e)|
  }

  lemma {:induction false} EncodedLength(lengths: seq<nat>, r: nat, prev: nat)
    requires r <= |lengths| && (r < |lengths| ==> lengths[r] == 0 || lengths[r] != prev)
    ensures |EncodeFrom(lengths, r)| == FewestFrom(lengths, r, prev)
  {
    if r < |lengths| { RunLength(lengths[r], RunEnd(lengths, r, r + 1) - r, prev); }
  }

  /** Within a run the end is the same from everywhere. */
  lemma {:induction false} SameEnd(lengths: seq<nat>, r: nat, e: nat, m: nat)
    requires r < e <= r + m <= |lengths| && forall i :: r <= i < r + m ==> lengths[i] == lengths[r]
    ensures RunEnd(lengths, r, e) == RunEnd(lengths, r, r + m)
    decreases r + m - e
  {
    if e < r + m { SameEnd(lengths, r, e + 1, m); }
  }

  lemma {:induction false} SameValue(lengths: seq<nat>, r: nat, q: nat, e: nat)
    requires r < e <= |lengths| && q < e && lengths[q] == lengths[r]
    ensures RunEnd(lengths, r, e) == RunEnd(lengths, q, e)
    decreases |lengths| - e
  {
    if e < |lengths| && lengths[e] == lengths[r] { SameValue(lengths, r, q, e + 1); }
  }

  /** An operation for the next `m` lengths brings the end nearer by at most one operation. */
  lemma {:induction false} FewestNext(lengths: seq<nat>, r: nat, prev: nat, op: Op)
    requires WellFormed(op) && r + Count(op) <= |lengths|
    requires forall i :: r <= i < r + Count(op) ==> lengths[i] == ValueOf(op, prev)
    ensures FewestFrom(lengths, r, prev) <= 1 + FewestFrom(lengths, r + Count(op), ValueOf(op, prev))
  {
    CountPositive(op);
    hide EncodeFrom, FewestOf, ValueOf, Count, WellFormed;
    var v, m := ValueOf(op, prev), Count(op);
    var e := RunEnd(lengths, r, r + 1);
    SameEnd(lengths, r, r + 1, m);
    RunIsMaximal(lengths, r, r + m);
    if r + m < |lengths| && lengths[r + m] == v {
      SameValue(lengths, r, r + m, r + m + 1);
      FewestOfNext(v, e - r, prev, op);
    } else {
      EncodedLength(lengths, r + m, v);
      FewestOfLast(v, m, prev, op);
    }
  }

  lemma {:induction false} CountPositive(op: Op)
    ensures Count(op) > 0
  {
  }

  lemma {:induction false} FewestOfNext(v: nat, k: nat, prev: nat, op: Op)
    requires WellFormed(op) && Count(op) < k && v == ValueOf(op, prev)
    ensures FewestOf(v, k, prev) <= 1 + FewestOf(v, k - Count(op), v)
  {
    var m := Count(op);
    if v == 0 {
      FewestStep(k, 138, m);
    } else if v == prev {
      FewestStep(k, 6, m);
    }
  }

  lemma {:induction false} FewestOfLast(v: nat, k: nat, prev: nat, op: Op)
    requires WellFormed(op) && Count(op) == k && v == ValueOf(op, prev)
    ensures FewestOf(v, k, prev) <= 1
  {
  }

  lemma {:induction false} RepeatAhead(lengths: seq<nat>, r: nat, v: nat, m: nat, rest: seq<nat>)
    requires r <= |lengths| && lengths[r..] == Repeat(v, m) + rest
    ensures r + m <= |lengths| && lengths[r + m..] == rest && forall i :: r <= i < r + m ==> lengths[i] == v
  {
    assert |lengths[r..]| == m + |rest|;
    assert lengths[r + m..] == lengths[r..][m..];
    forall i | r <= i < r + m ensures lengths[i] == v {
      assert lengths[i] == lengths[r..][i - r];
    }
  }

  lemma {:induction false} ExpandedFirst(ops: seq<Op>, prev: nat)
    requires |ops| > 0
    ensures var v := ValueOf(ops[0], prev); Expanded(ops, prev) == Repeat(v, Count(ops[0])) + Expanded(ops[1..], v)
  {
  }

  lemma {:induction false} NothingLeft(lengths: seq<nat>, r: nat, prev: nat)
    requires r <= |lengths| && lengths[r..] == Expanded([], prev)
    ensures FewestFrom(lengths, r, prev) == 0
  {
  }

  lemma {:induction false} ShortestFrom(lengths: seq<nat>, r: nat, prev: nat, ops: seq<Op>)
    requires r <= |lengths| && AllWellFormed(ops) && Expanded(ops, prev) == lengths[r..]
    ensures FewestFrom(lengths, r, prev) <= |ops|
    decreases |ops|
  {
    hide FewestFrom, Expanded, ValueOf, Count, WellFormed;
    if |ops| == 0 {
      NothingLeft(lengths, r, prev);
    } else {
      var v, m := ValueOf(ops[0], prev), Count(ops[0]);
      ExpandedFirst(ops, prev);
      RepeatAhead(lengths, r, v, m, Expanded(ops[1..], v));
      FewestNext(lengths, r, prev, ops[0]);
      ShortestFrom(lengths, r + m, v, ops[1..]);
    }
  }

  /** Whatever operations a reader takes for the lengths, the encoder's are not more. */
  lemma {:induction false} EncodeShortest(lengths: seq<nat>, ops: seq<Op>)
    requires AllWellFormed(ops) && ReadLengths(ops, |lengths|, 0, []) == Some((lengths, []))
    ensures |EncodeFrom(lengths, 0)| <= |ops|
  {
    ReadIsExpanded(ops, |lengths|, 0, []);
    assert lengths[0..] == lengths == [] + Expanded(ops, 0);
    ShortestFrom(lengths, 0, 0, ops);
    EncodedLength(lengths, 0, 0);
  }
}
