/** Code lengths for the symbols of an alphabet (`getLengths_`, minified `oa`). */
module CodeLengths {
  import opened Bits
  import opened HuffmanCodes
  import opened MaxHeaps
  import opened MergeLevels
  import opened MergeCosts
  import PackageMerge

  /** What is in the heap once the first `m` symbols have been offered: frequencies are stored in 16 bits. */
  ghost function Pushed(freqs: seq<nat>, m: nat): set<Node>
    requires m <= |freqs|
  {
    set i | 0 <= i < m && freqs[i] > 0 :: Node(freqs[i] % 0x10000, i)
  }

  method PushUsed(freqs: seq<nat>) returns (heap: MaxHeap)
    requires |freqs| <= 286
    ensures fresh(heap) && fresh(heap.buffer) && heap.Valid() && heap.length <= 2 * |freqs|
    ensures Items(heap.Nodes()) == Pushed(freqs, |freqs|)
  {
    heap := new MaxHeap(572);
    for i := 0 to |freqs|
      invariant fresh(heap) && fresh(heap.buffer) && heap.Valid() && heap.length <= 2 * i
      invariant heap.buffer.Length == 1144
      invariant Items(heap.Nodes()) == Pushed(freqs, i)
    {
      if 0 < freqs[i] {
        heap.Push(i, freqs[i]);
        assert Pushed(freqs, i + 1) == Pushed(freqs, i) + {Node(freqs[i] % 0x10000, i)};
      } else {
        assert Pushed(freqs, i + 1) == Pushed(freqs, i);
      }
    }
  }

  ghost predicate NoRepeats(nodes: seq<Node>) {
    forall a, b :: 0 <= a < b < |nodes| ==> nodes[a] != nodes[b]
  }

  ghost predicate Falling(nodes: seq<Node>) {
    forall a, b :: 0 <= a < b < |nodes| ==> nodes[a].value >= nodes[b].value
  }

  /** Empties the heap: every node once, largest value first. */
  method PopAll(heap: MaxHeap) returns (popped: seq<Node>)
    requires heap.Valid()
    modifies heap, heap.buffer
    ensures |popped| == old(heap.length) / 2
    ensures NoRepeats(popped) && Falling(popped)
    ensures forall x :: x in old(Items(heap.Nodes())) <==> x in popped
  {
    ghost var all := Items(heap.Nodes());
    popped := [];
    for g := 0 to heap.length / 2
      invariant heap.Valid() && heap.length == old(heap.length) - 2 * g && |popped| == g
      invariant NoRepeats(popped) && Falling(popped)
      invariant Items(heap.Nodes()) <= all && forall x :: x in popped ==> x in all && x !in Items(heap.Nodes())
      invariant forall x :: x in all ==> x in Items(heap.Nodes()) || x in popped
      invariant forall a, x :: 0 <= a < g && x in Items(heap.Nodes()) ==> popped[a].value >= x.value
    {
      var top := heap.Pop();
      popped := popped + [top];
    }
    assert |heap.Nodes()| == 0;
  }

  /** Giving symbol `i` its first length adds that length's share to Kraft's sum. */
  lemma {:induction false} KraftUpdate(lens: seq<nat>, limit: nat, i: nat, v: nat, m: nat)
    requires i < |lens| && lens[i] == 0 && 1 <= v <= limit && m <= |lens|
    ensures KraftSum(lens[i := v], limit, limit, m)
         == KraftSum(lens, limit, limit, m) + if i < m then Pow2(limit - v) else 0
  {
    if m > 0 { KraftUpdate(lens, limit, i, v, m - 1); }
  }

  lemma {:induction false} KraftOfNone(lens: seq<nat>, limit: nat, m: nat)
    requires m <= |lens| && forall i :: 0 <= i < |lens| ==> lens[i] == 0
    ensures KraftSum(lens, limit, limit, m) == 0
  {
    if m > 0 { KraftOfNone(lens, limit, m - 1); }
  }

  /** Hands the computed lengths to the symbols the nodes stand for. */
  method Distribute(size: nat, popped: seq<Node>, lengths: seq<nat>, limit: nat) returns (lens: seq<nat>)
    requires |lengths| == |popped| && forall l :: 0 <= l < |lengths| ==> 1 <= lengths[l] <= limit
    requires forall a :: 0 <= a < |popped| ==> popped[a].index < size
    requires forall a, b :: 0 <= a < b < |popped| ==> popped[a].index != popped[b].index
    ensures |lens| == size && forall i :: 0 <= i < size ==> lens[i] <= limit
    ensures forall i :: 0 <= i < size ==> (lens[i] > 0 <==> exists a :: 0 <= a < |popped| && popped[a].index == i)
    ensures KraftSum(lens, limit, limit, size) == LengthSum(lengths, limit, |lengths|)
    ensures forall g :: 0 <= g < |popped| ==> lens[popped[g].index] == lengths[g]
  {
    lens := seq(size, i => 0);
    KraftOfNone(lens, limit, size);
    hide KraftSum, Pow2;
    for g := 0 to |popped|
      invariant |lens| == size && forall i :: 0 <= i < size ==> lens[i] <= limit
      invariant forall i :: 0 <= i < size ==> (lens[i] > 0 <==> exists a :: 0 <= a < g && popped[a].index == i)
      invariant KraftSum(lens, limit, limit, size) == LengthSum(lengths, limit, g)
      invariant forall a :: 0 <= a < g ==> lens[popped[a].index] == lengths[a]
    {
      KraftUpdate(lens, limit, popped[g].index, lengths[g], size);
      lens := lens[popped[g].index := lengths[g]];
    }
  }

  /** No count is lost to the 16-bit heap cells. */
  ghost predicate CountsSurvive(freqs: seq<nat>) {
    forall i :: 0 <= i < |freqs| && freqs[i] > 0 ==> freqs[i] % 0x10000 > 0
  }

  ghost predicate TwoUsed(freqs: seq<nat>) {
    exists i, j :: 0 <= i < j < |freqs| && freqs[i] > 0 && freqs[j] > 0
  }

  lemma {:induction false} PoppedSymbols(freqs: seq<nat>, popped: seq<Node>)
    requires NoRepeats(popped) && forall x :: x in Pushed(freqs, |freqs|) <==> x in popped
    ensures forall a :: 0 <= a < |popped| ==> popped[a].index < |freqs|
    ensures forall a :: 0 <= a < |popped| ==>
      freqs[popped[a].index] > 0 && popped[a].value == freqs[popped[a].index] % 0x10000
    ensures forall a, b :: 0 <= a < b < |popped| ==> popped[a].index != popped[b].index
    ensures forall i :: 0 <= i < |freqs| ==> (freqs[i] > 0 <==> exists a :: 0 <= a < |popped| && popped[a].index == i)
    ensures |popped| <= |freqs|
  {
    forall a | 0 <= a < |popped| ensures popped[a] in Pushed(freqs, |freqs|) { }
    forall i | 0 <= i < |freqs| && freqs[i] > 0 ensures exists a :: 0 <= a < |popped| && popped[a].index == i {
      var x := Node(freqs[i] % 0x10000, i);
      assert x in Pushed(freqs, |freqs|);
      var a :| 0 <= a < |popped| && popped[a] == x;
    }
    assert forall a, b :: 0 <= a < b < |popped| ==> popped[a].index != popped[b].index;
    Pigeonhole(seq(|popped|, a requires 0 <= a < |popped| => popped[a].index), |freqs|);
  }

  lemma {:induction false} Pigeonhole(s: seq<nat>, n: nat)
    requires forall a :: 0 <= a < |s| ==> s[a] < n
    requires forall a, b :: 0 <= a < b < |s| ==> s[a] != s[b]
    ensures |s| <= n
    decreases n
  {
    if |s| > 0 {
      assert s[0] < n;
      if n - 1 in s {
        var a :| 0 <= a < |s| && s[a] == n - 1;
        Pigeonhole(s[..a] + s[a + 1..], n - 1);
      } else {
        Pigeonhole(s, n - 1);
      }
    }
  }

  ghost predicate Positive(nodes: seq<Node>) {
    forall a :: 0 <= a < |nodes| ==> nodes[a].value > 0
  }

  function Values(popped: seq<Node>): (values: seq<nat>)
    ensures |values| == |popped| && forall g :: 0 <= g < |popped| ==> values[g] == popped[g].value
  {
    seq(|popped|, g requires 0 <= g < |popped| => popped[g].value)
  }

  lemma {:induction false} OneIsCheapest(freqs: seq<nat>, lengths: seq<nat>, limit: nat)
    requires |freqs| == |lengths| == 1 && lengths[0] == 1
    ensures Cheapest(freqs, lengths, limit)
  {
    hide LengthSum;
    forall other | Assignment(other, 1, limit) ensures Cost(freqs, lengths, 1) <= Cost(freqs, other, 1) {
      assert Cost(freqs, lengths, 1) == Cost(freqs, lengths, 0) + freqs[0] * 1;
      assert Cost(freqs, other, 1) == Cost(freqs, other, 0) + freqs[0] * other[0];
      assert freqs[0] * 1 <= freqs[0] * other[0];
    }
  }

  /** The lengths for the popped nodes, in their order. */
  method LengthsInOrder(popped: seq<Node>, limit: nat) returns (lengths: seq<nat>)
    requires Falling(popped) && |popped| <= Pow2(limit) && 1 < limit
    ensures |lengths| == |popped| && forall l :: 0 <= l < |lengths| ==> 1 <= lengths[l] <= limit
    ensures LengthSum(lengths, limit, |lengths|) <= Pow2(limit)
    ensures |popped| > 1 && Positive(popped) ==> LengthSum(lengths, limit, |lengths|) == Pow2(limit)
    ensures Positive(popped) ==> Cheapest(Values(popped), lengths, limit)
  {
    if |popped| == 0 {
      // nothing is used: the package-merge only touches cells that do not exist
      lengths := [];
    } else if |popped| == 1 {
      lengths := [1];
      assert LengthSum(lengths, limit, 1) == LengthSum(lengths, limit, 0) + Pow2(limit - 1);
      OneIsCheapest(Values(popped), lengths, limit);
    } else {
      lengths := PackageMerge.LimitedLengths(Values(popped), limit);
    }
  }

  lemma {:induction false} SeveralPopped(freqs: seq<nat>, popped: seq<Node>)
    requires TwoUsed(freqs)
    requires forall i :: 0 <= i < |freqs| ==> (freqs[i] > 0 <==> exists a :: 0 <= a < |popped| && popped[a].index == i)
    ensures |popped| > 1
  {
    var i, j :| 0 <= i < j < |freqs| && freqs[i] > 0 && freqs[j] > 0;
    var a :| 0 <= a < |popped| && popped[a].index == i;
    var b :| 0 <= b < |popped| && popped[b].index == j;
  }

  // ----- the cheapest code

  /** The counts as the heap's 16-bit cells hold them. */
  ghost function Stored(freqs: seq<nat>): (stored: seq<nat>)
    ensures |stored| == |freqs| && forall i :: 0 <= i < |freqs| ==> stored[i] == freqs[i] % 0x10000
  {
    seq(|freqs|, i requires 0 <= i < |freqs| => freqs[i] % 0x10000)
  }

  /** A code for the symbols that are used. */
  ghost predicate CodesUsed(lens: seq<nat>, freqs: seq<nat>, limit: nat) {
    |lens| == |freqs| && Kraft(lens, limit) && forall i :: 0 <= i < |freqs| ==> (lens[i] > 0 <==> freqs[i] > 0)
  }

  /** No other code for these symbols needs fewer bits in all. */
  ghost predicate CheapestCode(lens: seq<nat>, freqs: seq<nat>, limit: nat) {
    && CodesUsed(lens, freqs, limit)
    && forall other :: CodesUsed(other, freqs, limit) ==> Cost(freqs, lens, |freqs|) <= Cost(freqs, other, |freqs|)
  }

  /** The nodes are the used symbols, each once, with their stored counts. */
  ghost predicate StandFor(popped: seq<Node>, freqs: seq<nat>) {
    && (forall a :: 0 <= a < |popped| ==> popped[a].index < |freqs| && popped[a].value == freqs[popped[a].index])
    && (forall a, b :: 0 <= a < b < |popped| ==> popped[a].index != popped[b].index)
    && (forall i :: 0 <= i < |freqs| ==> (freqs[i] > 0 <==> exists a :: 0 <= a < |popped| && popped[a].index == i))
  }

  /** The lengths in the order of the nodes. */
  ghost function Picked(lens: seq<nat>, popped: seq<Node>): (picked: seq<nat>)
    requires forall a :: 0 <= a < |popped| ==> popped[a].index < |lens|
    ensures |picked| == |popped| && forall a :: 0 <= a < |popped| ==> picked[a] == lens[popped[a].index]
  {
    seq(|popped|, a requires 0 <= a < |popped| => lens[popped[a].index])
  }

  lemma {:induction false} CostSet(freqs: seq<nat>, lens: seq<nat>, i: nat, v: nat, m: nat)
    requires i < |lens| == |freqs| && lens[i] == 0 && m <= |lens|
    ensures Cost(freqs, lens[i := v], m) == Cost(freqs, lens, m) + if i < m then freqs[i] * v else 0
  {
    if m > 0 { CostSet(freqs, lens, i, v, m - 1); }
  }

  lemma {:induction false} CostOfNone(freqs: seq<nat>, lens: seq<nat>, m: nat)
    requires m <= |lens| == |freqs| && forall i :: 0 <= i < |lens| ==> lens[i] == 0
    ensures Cost(freqs, lens, m) == 0
  {
    if m > 0 { CostOfNone(freqs, lens, m - 1); }
  }

  /** The lengths of the symbols of the first `g` nodes alone. */
  ghost function Handed(lens: seq<nat>, popped: seq<Node>, g: nat): (some: seq<nat>)
    requires g <= |popped| && forall a :: 0 <= a < |popped| ==> popped[a].index < |lens|
    ensures |some| == |lens|
  {
    if g == 0 then seq(|lens|, i => 0)
    else Handed(lens, popped, g - 1)[popped[g - 1].index := lens[popped[g - 1].index]]
  }

  lemma {:induction false} HandedAt(lens: seq<nat>, popped: seq<Node>, g: nat, i: nat)
    requires g <= |popped| && forall a :: 0 <= a < |popped| ==> popped[a].index < |lens|
    requires i < |lens|
    ensures Handed(lens, popped, g)[i] == 0 || Handed(lens, popped, g)[i] == lens[i]
    ensures (forall a :: 0 <= a < g ==> popped[a].index != i) ==> Handed(lens, popped, g)[i] == 0
    ensures (exists a :: 0 <= a < g && popped[a].index == i) ==> Handed(lens, popped, g)[i] == lens[i]
  {
    if g > 0 { HandedAt(lens, popped, g - 1, i); }
  }

  lemma {:induction false} HandedAll(freqs: seq<nat>, lens: seq<nat>, popped: seq<Node>, limit: nat)
    requires StandFor(popped, freqs) && CodesUsed(lens, freqs, limit)
    ensures Handed(lens, popped, |popped|) == lens
  {
    hide Handed, Kraft;
    forall i | 0 <= i < |lens| ensures Handed(lens, popped, |popped|)[i] == lens[i] {
      HandedAt(lens, popped, |popped|, i);
    }
  }

  /** One more node is handed its length: its symbol had none. */
  lemma {:induction false} HandedNext(freqs: seq<nat>, lens: seq<nat>, popped: seq<Node>, g: nat)
    requires StandFor(popped, freqs) && |lens| == |freqs| && 0 < g <= |popped|
    ensures var i, before := popped[g - 1].index, Handed(lens, popped, g - 1);
      && i < |lens| && before[i] == 0 && Handed(lens, popped, g) == before[i := lens[i]]
      && Values(popped)[g - 1] == freqs[i] && Picked(lens, popped)[g - 1] == lens[i]
  {
    HandedAt(lens, popped, g - 1, popped[g - 1].index);
  }

  /** The lengths of the first `g` nodes alone: Kraft's sum is that of the nodes. */
  lemma {:induction false} HandedKraft(freqs: seq<nat>, lens: seq<nat>, popped: seq<Node>, limit: nat, g: nat)
    requires StandFor(popped, freqs) && |lens| == |freqs| && g <= |popped|
    requires forall a :: 0 <= a < |popped| ==> 1 <= Picked(lens, popped)[a] <= limit
    ensures KraftSum(Handed(lens, popped, g), limit, limit, |lens|) == LengthSum(Picked(lens, popped), limit, g)
  {
    if g == 0 {
      KraftOfNone(Handed(lens, popped, 0), limit, |lens|);
      NothingSummed(Picked(lens, popped), limit);
      hide *;
    } else {
      HandedKraft(freqs, lens, popped, limit, g - 1);
      HandedNext(freqs, lens, popped, g);
      LengthStep(Picked(lens, popped), limit, g);
      hide *;
      var i := popped[g - 1].index;
      KraftUpdate(Handed(lens, popped, g - 1), limit, i, lens[i], |lens|);
    }
  }

  /** And so is the cost. */
  lemma {:induction false} HandedCost(freqs: seq<nat>, lens: seq<nat>, popped: seq<Node>, g: nat)
    requires StandFor(popped, freqs) && |lens| == |freqs| && g <= |popped|
    ensures Cost(freqs, Handed(lens, popped, g), |lens|) == Cost(Values(popped), Picked(lens, popped), g)
  {
    if g == 0 {
      CostOfNone(freqs, Handed(lens, popped, 0), |lens|);
    } else {
      HandedCost(freqs, lens, popped, g - 1);
      HandedNext(freqs, lens, popped, g);
      CostStep(Values(popped), Picked(lens, popped), g);
      hide *;
      var i := popped[g - 1].index;
      CostSet(freqs, Handed(lens, popped, g - 1), i, lens[i], |lens|);
    }
  }

  lemma {:induction false} NothingSummed(lengths: seq<nat>, limit: nat)
    requires forall l :: 0 <= l < |lengths| ==> lengths[l] <= limit
    ensures LengthSum(lengths, limit, 0) == 0
  {
  }

  lemma {:induction false} LengthStep(lengths: seq<nat>, limit: nat, g: nat)
    requires 0 < g <= |lengths| && forall l :: 0 <= l < |lengths| ==> lengths[l] <= limit
    ensures LengthSum(lengths, limit, g) == LengthSum(lengths, limit, g - 1) + Pow2(limit - lengths[g - 1])
  {
  }

  lemma {:induction false} CostStep(freqs: seq<nat>, lens: seq<nat>, g: nat)
    requires 0 < g <= |freqs| == |lens|
    ensures Cost(freqs, lens, g) == Cost(freqs, lens, g - 1) + freqs[g - 1] * lens[g - 1]
  {
  }

  lemma {:induction false} PickedAll(freqs: seq<nat>, lens: seq<nat>, popped: seq<Node>, limit: nat)
    requires StandFor(popped, freqs) && CodesUsed(lens, freqs, limit)
    ensures Assignment(Picked(lens, popped), |popped|, limit)
    ensures |lens| == |freqs| && Cost(freqs, lens, |freqs|) == Cost(Values(popped), Picked(lens, popped), |popped|)
  {
    HandedAll(freqs, lens, popped, limit);
    hide Handed, Cost, KraftSum;
    forall a | 0 <= a < |popped| ensures 1 <= Picked(lens, popped)[a] <= limit {
      assert freqs[popped[a].index] > 0;
    }
    HandedKraft(freqs, lens, popped, limit, |popped|);
    HandedCost(freqs, lens, popped, |popped|);
  }

  /** The cheapest lengths for the nodes give the cheapest code for the symbols. */
  lemma {:induction false} HandedOut(freqs: seq<nat>, lens: seq<nat>, popped: seq<Node>, lengths: seq<nat>, limit: nat)
    requires StandFor(popped, freqs) && CodesUsed(lens, freqs, limit) && |lengths| == |popped|
    requires Cheapest(Values(popped), lengths, limit)
    requires forall g :: 0 <= g < |popped| ==> lens[popped[g].index] == lengths[g]
    ensures CheapestCode(lens, freqs, limit)
  {
    PickedAll(freqs, lens, popped, limit);
    assert Picked(lens, popped) == lengths;
    hide StandFor, Kraft, Assignment, Cost;
    forall other | CodesUsed(other, freqs, limit) ensures Cost(freqs, lens, |freqs|) <= Cost(freqs, other, |freqs|) {
      PickedAll(freqs, other, popped, limit);
    }
  }

  /** The popped nodes stand for the symbols with their stored counts, if none is stored as zero. */
  lemma {:induction false} PoppedStandFor(freqs: seq<nat>, popped: seq<Node>)
    requires NoRepeats(popped) && (forall x :: x in Pushed(freqs, |freqs|) <==> x in popped) && CountsSurvive(freqs)
    ensures StandFor(popped, Stored(freqs)) && Positive(popped)
  {
    PoppedSymbols(freqs, popped);
    hide Pushed, NoRepeats;
    forall i | 0 <= i < |freqs| ensures Stored(freqs)[i] > 0 <==> freqs[i] > 0 {
    }
  }

  lemma {:induction false} SameUse(freqs: seq<nat>, lens: seq<nat>, limit: nat)
    requires CodesUsed(lens, freqs, limit) && CountsSurvive(freqs)
    ensures CodesUsed(lens, Stored(freqs), limit)
  {
    hide Kraft;
  }

  ghost predicate SmallCounts(freqs: seq<nat>) {
    forall i :: 0 <= i < |freqs| ==> freqs[i] < 0x10000
  }

  lemma {:induction false} SmallAreStored(freqs: seq<nat>)
    ensures SmallCounts(freqs) ==> CountsSurvive(freqs) && Stored(freqs) == freqs
  {
  }

  /**
   A code length for every used symbol, within the limit and decodable, whatever the counts.
   When no count is a multiple of 65536, no other code is cheaper for the counts modulo 65536, and with two symbols
   used the code wastes nothing.
   */
  method GetLengths(freqs: seq<nat>, limit: nat) returns (lens: seq<nat>)
    requires |freqs| <= 286 && |freqs| <= Pow2(limit) && 1 < limit
    ensures CodesUsed(lens, freqs, limit)
    ensures TwoUsed(freqs) && CountsSurvive(freqs) ==> KraftSum(lens, limit, limit, |lens|) == Pow2(limit)
    ensures CountsSurvive(freqs) ==> CheapestCode(lens, Stored(freqs), limit)
    ensures SmallCounts(freqs) ==> CheapestCode(lens, freqs, limit)
  {
    hide CheapestCode, StandFor, CountsSurvive, TwoUsed, SmallCounts, Cheapest, Positive, KraftSum, LengthSum, Stored;
    var heap := PushUsed(freqs);
    var popped := PopAll(heap);
    PoppedSymbols(freqs, popped);
    var lengths := LengthsInOrder(popped, limit);
    lens := Distribute(|freqs|, popped, lengths, limit);
    if TwoUsed(freqs) {
      SeveralPopped(freqs, popped);
    }
    if CountsSurvive(freqs) {
      PoppedStandFor(freqs, popped);
      SameUse(freqs, lens, limit);
      HandedOut(Stored(freqs), lens, popped, lengths, limit);
    }
    SmallAreStored(freqs);
  }

  lemma {:induction false} ThreeSums(freqs: seq<nat>, lens: seq<nat>)
    requires |freqs| == |lens| == 3 && forall i :: 0 <= i < 3 ==> 1 <= lens[i] <= 15
    ensures Cost(freqs, lens, 3) == freqs[0] * lens[0] + freqs[1] * lens[1] + freqs[2] * lens[2]
    ensures KraftSum(lens, 15, 15, 3) == Pow2(15 - lens[0]) + Pow2(15 - lens[1]) + Pow2(15 - lens[2])
  {
    hide Pow2;
    CostStep(freqs, lens, 3);
    CostStep(freqs, lens, 2);
    CostStep(freqs, lens, 1);
    assert Cost(freqs, lens, 0) == 0;
    hide Cost;
    assert KraftSum(lens, 15, 15, 1) == KraftSum(lens, 15, 15, 0) + Pow2(15 - lens[0]);
    assert KraftSum(lens, 15, 15, 2) == KraftSum(lens, 15, 15, 1) + Pow2(15 - lens[1]);
    assert KraftSum(lens, 15, 15, 3) == KraftSum(lens, 15, 15, 2) + Pow2(15 - lens[2]);
  }

  lemma {:induction false} HalfAndQuarters()
    ensures Pow2(15) == 2 * Pow2(14) && Pow2(14) == 2 * Pow2(13)
  {
    Pow2Doubles(14);
    Pow2Doubles(13);
  }

  /** Of three symbols, one can have a code of one bit if the others have longer ones. */
  lemma {:induction false} ShortAndTwoLong(freqs: seq<nat>, lens: seq<nat>, i: nat)
    requires |freqs| == |lens| == 3 && i < 3 && (forall k :: 0 <= k < 3 ==> freqs[k] > 0)
    requires forall k :: 0 <= k < 3 ==> lens[k] == if k == i then 1 else 2
    ensures CodesUsed(lens, freqs, 15)
  {
    hide KraftSum, Cost, Pow2;
    HalfAndQuarters();
    ThreeSums(freqs, lens);
  }

  lemma {:induction false} OneShortAtMost(freqs: seq<nat>, lens: seq<nat>)
    requires |freqs| == 3 && (forall k :: 0 <= k < 3 ==> freqs[k] > 0) && CodesUsed(lens, freqs, 15) && lens[0] == 1
    ensures lens[1] >= 2 && lens[2] >= 2
  {
    hide KraftSum, Cost, Pow2;
    HalfAndQuarters();
    ThreeSums(freqs, lens);
  }

  /** With the counts 1, 2 and 2 the first symbol gets a long code. */
  lemma {:induction false} RareIsLong(freqs: seq<nat>, lens: seq<nat>)
    requires |freqs| == 3 && freqs[0] == 1 && freqs[1] == freqs[2] == 2 && CheapestCode(lens, freqs, 15)
    ensures lens[0] >= 2
  {
    hide KraftSum, Cost, Pow2;
    var even: seq<nat> := [2, 1, 2];
    ShortAndTwoLong(freqs, even, 1);
    ThreeSums(freqs, even);
    if lens[0] == 1 {
      OneShortAtMost(freqs, lens);
      ThreeSums(freqs, lens);
    }
  }

  lemma {:induction false} MisweighedCosts(freqs: seq<nat>, lens: seq<nat>)
    requires |freqs| == 3 && freqs[0] == 65537 && freqs[1] == freqs[2] == 2 && CodesUsed(lens, freqs, 15)
    requires CountsSurvive(freqs) ==> CheapestCode(lens, Stored(freqs), 15)
    ensures !CheapestCode(lens, freqs, 15)
  {
    hide KraftSum, Cost, Pow2, Kraft, CheapestCode;
    assert CountsSurvive(freqs);
    RareIsLong(Stored(freqs), lens);
    LongIsDear(freqs, lens);
  }

  lemma {:induction false} LongIsDear(freqs: seq<nat>, lens: seq<nat>)
    requires |freqs| == 3 && freqs[0] == 65537 && freqs[1] == freqs[2] == 2 && CodesUsed(lens, freqs, 15)
    requires lens[0] >= 2
    ensures !CheapestCode(lens, freqs, 15)
  {
    hide KraftSum, Cost, Pow2;
    var better: seq<nat> := [1, 2, 2];
    ShortAndTwoLong(freqs, better, 0);
    ThreeSums(freqs, lens);
    ThreeSums(freqs, better);
  }

  lemma {:induction false} ThreeFit()
    ensures 3 <= Pow2(15)
  {
    Pow2Mono(2, 15);
  }

  /** Counts from 65536 on are taken for their remainders: the most frequent symbol gets a long code. */
  method Misweighed() returns (lens: seq<nat>)
    ensures var freqs := [65537, 2, 2]; CodesUsed(lens, freqs, 15) && !CheapestCode(lens, freqs, 15)
  {
    hide *;
    var freqs: seq<nat> := [65537, 2, 2];
    ThreeFit();
    lens := GetLengths(freqs, 15);
    MisweighedCosts(freqs, lens);
  }
}
