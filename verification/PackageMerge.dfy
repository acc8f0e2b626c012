/** Length-limited code lengths by the reverse package-merge method (`reversePackageMerge_`, minified `Ja`). */
module PackageMerge {
  import opened Bits
  import opened MergeLevels
  import opened MergeCosts

  /**
   Code lengths of at most `limit` for the symbols with the given frequencies.  The lengths
   admit a prefix code for any frequencies; for positive frequencies in descending order
   the code is complete, and no other needs fewer bits.
   */
  method LimitedLengths(freqs: seq<nat>, limit: nat) returns (lengths: seq<nat>)
    requires 2 <= |freqs| <= Pow2(limit) && limit > 1
    ensures |lengths| == |freqs| && forall l :: 0 <= l < |freqs| ==> 1 <= lengths[l] <= limit
    ensures LengthSum(lengths, limit, |freqs|) <= Pow2(limit)
    ensures Descending(freqs) ==> LengthSum(lengths, limit, |freqs|) == Pow2(limit) && Cheapest(freqs, lengths, limit)
  {
    hide Usable, Digits, InStep, Depth, LengthSum, Packages, Symbols, Pow2, PaysFor, FitsBelow, IsItem,
      LevelMerged, Cheapest;
    var n := |freqs|;
    var flags := ExcessBits(n, limit);
    var sizes := LevelSizes(n, flags);
    var merger := new Merger(n, flags);
    var row, below := BaseLevel(freqs, sizes[limit - 1]);
    ghost var vals := seq(limit, j => below);
    merger.AddLevel(limit - 1, row, sizes[limit - 1]);
    BaseMerged(merger.rows, vals, merger.valid, flags, freqs, sizes);
    ghost var v := sizes[limit - 1];
    var h := limit - 1;
    while h > 0
      invariant 0 <= h < limit && merger.n == n && merger.flags == flags
      invariant merger.Valid(h) && merger.pos[h] == flags[h]
      invariant |vals| == limit && below == vals[h] && v == merger.valid[h] >= flags[h] && Defined(below, v)
      invariant AllMerged(merger.rows, vals, merger.valid, flags, freqs, sizes, h)
    {
      ghost var rows, valid, u, before, beneath := merger.rows, merger.valid, v, vals, below;
      h := h - 1;
      row, below, v := MergeLevel(freqs, below, flags[h + 1], sizes[h]);
      MergedIsUsable(row, below, v, beneath, u, flags[h + 1], freqs);
      merger.AddLevel(h, row, v);
      vals := vals[h := below];
      OneMoreMerged(rows, before, valid, flags, freqs, sizes, h, row, below, v);
    }
    PaidInFull(merger.rows, merger.valid, n, flags, merger.pos, merger.lengths);
    if Descending(freqs) {
      TakenAscending(merger.rows, vals, merger.valid, flags, merger.pos, freqs, sizes, 0);
      NotCheaper(merger.rows, vals, merger.valid, flags, merger.pos, freqs, sizes, merger.lengths);
    }
    lengths := merger.lengths;
  }
}
