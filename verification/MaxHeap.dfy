/** The binary heap that orders symbols by frequency (zlib.js `Heap`, minified `ja`). */
module MaxHeaps {
  /** A symbol and the frequency it was pushed with. */
  datatype Node = Node(value: nat, index: nat)

  function Parent(i: nat): nat
    requires i > 0
  {
    (i - 1) / 2
  }

  /** The slot of the parent of the node at slot `c`. */
  function ParentSlot(c: nat): (f: nat)
    requires c > 0 && c % 2 == 0
    ensures f < c && f % 2 == 0 && f / 2 == Parent(c / 2)
  {
    2 * ((c - 2) / 4)
  }

  ghost predicate Ordered(nodes: seq<Node>) {
    forall i :: 0 < i < |nodes| ==> nodes[Parent(i)].value >= nodes[i].value
  }

  /** Ordered but for the node at `hole`, which may exceed its parent. */
  ghost predicate OrderedExceptUp(nodes: seq<Node>, hole: nat) {
    && (forall i :: 0 < i < |nodes| && i != hole ==> nodes[Parent(i)].value >= nodes[i].value)
    && (forall i :: 0 < i < |nodes| && Parent(i) == hole && hole > 0 ==>
          nodes[Parent(hole)].value >= nodes[i].value)
  }

  /** Ordered but for the node at `hole`, which may be below its children. */
  ghost predicate OrderedExceptDown(nodes: seq<Node>, hole: nat) {
    && (forall i :: 0 < i < |nodes| && Parent(i) != hole ==> nodes[Parent(i)].value >= nodes[i].value)
    && (forall i :: 0 < i < |nodes| && Parent(i) == hole && hole > 0 ==>
          nodes[Parent(hole)].value >= nodes[i].value)
  }

  ghost predicate Distinct(nodes: seq<Node>) {
    forall i, j :: 0 <= i < j < |nodes| ==> nodes[i].index != nodes[j].index
  }

  ghost function Items(nodes: seq<Node>): set<Node> {
    set i | 0 <= i < |nodes| :: nodes[i]
  }

  function Swapped(nodes: seq<Node>, i: nat, j: nat): seq<Node>
    requires i < |nodes| && j < |nodes|
  {
    nodes[i := nodes[j]][j := nodes[i]]
  }

  lemma SwapKeeps(nodes: seq<Node>, i: nat, j: nat)
    requires i < |nodes| && j < |nodes| && Distinct(nodes)
    ensures Items(Swapped(nodes, i, j)) == Items(nodes) && Distinct(Swapped(nodes, i, j))
  {
    var s := Swapped(nodes, i, j);
    assert forall k :: 0 <= k < |s| ==> s[k] == nodes[if k == i then j else if k == j then i else k];
    assert forall k :: 0 <= k < |s| ==> nodes[k] == s[if k == i then j else if k == j then i else k];
  }

  lemma {:induction false} RootIsLargest(nodes: seq<Node>, i: nat)
    requires Ordered(nodes) && i < |nodes|
    ensures nodes[0].value >= nodes[i].value
  {
    if i > 0 { RootIsLargest(nodes, Parent(i)); }
  }

  /** Moving the last node to the root removes exactly the old root. */
  lemma DropRoot(nodes: seq<Node>, rest: seq<Node>)
    requires |nodes| > 0 && Distinct(nodes) && |rest| == |nodes| - 1
    requires forall i :: 0 <= i < |rest| ==> rest[i] == nodes[if i == 0 then |rest| else i]
    ensures Distinct(rest) && Items(rest) == Items(nodes) - {nodes[0]}
  {
    forall x | x in Items(nodes) - {nodes[0]} ensures x in Items(rest) {
      var i :| 0 <= i < |nodes| && nodes[i] == x;
      assert rest[if i == |rest| then 0 else i] == x;
    }
  }

  ghost function NodesOf(slots: seq<nat>, n: nat): (s: seq<Node>)
    requires 2 * n <= |slots|
    ensures |s| == n
  {
    seq(n, i requires 0 <= i < n => Node(slots[2 * i], slots[2 * i + 1]))
  }

  /** A larger child of the hole goes up and the hole goes down, or the hole is in its place. */
  lemma SinkStep(nodes: seq<Node>, hole: nat, child: nat)
    requires child < |nodes| && (child == 2 * hole + 1 || child == 2 * hole + 2)
    requires OrderedExceptDown(nodes, hole)
    requires nodes[2 * hole + 1].value <= nodes[child].value
    requires 2 * hole + 2 < |nodes| ==> nodes[2 * hole + 2].value <= nodes[child].value
    ensures nodes[hole].value < nodes[child].value ==> OrderedExceptDown(Swapped(nodes, hole, child), child)
    ensures nodes[hole].value >= nodes[child].value ==> Ordered(nodes)
  {
    forall i | 0 < i < |nodes| && Parent(i) == hole ensures nodes[i].value <= nodes[child].value {
      assert i == 2 * hole + 1 || i == 2 * hole + 2;
    }
  }

  lemma LeafHole(nodes: seq<Node>, hole: nat)
    requires OrderedExceptDown(nodes, hole) && 2 * hole + 1 >= |nodes|
    ensures Ordered(nodes)
  {
  }

  /** The hole rises above a smaller parent. */
  lemma RiseStep(nodes: seq<Node>, hole: nat)
    requires 0 < hole < |nodes| && OrderedExceptUp(nodes, hole)
    requires nodes[hole].value > nodes[Parent(hole)].value
    ensures OrderedExceptUp(Swapped(nodes, hole, Parent(hole)), Parent(hole))
  {
    var p := Parent(hole);
    var s := Swapped(nodes, hole, p);
    forall i | 0 < i < |s| && i != p ensures s[Parent(i)].value >= s[i].value {
      if i != hole && Parent(i) != hole && Parent(i) != p {
        assert s[i] == nodes[i] && s[Parent(i)] == nodes[Parent(i)];
      }
    }
    forall i | 0 < i < |s| && Parent(i) == p && p > 0 ensures s[Parent(p)].value >= s[i].value {
      assert nodes[Parent(p)].value >= nodes[p].value;
      if i != hole { assert nodes[p].value >= nodes[i].value; }
    }
  }

  lemma RiseDone(nodes: seq<Node>, hole: nat)
    requires OrderedExceptUp(nodes, hole)
    requires 0 < hole < |nodes| ==> nodes[hole].value <= nodes[Parent(hole)].value
    ensures Ordered(nodes)
  {
  }

  class MaxHeap {
    const buffer: array<nat>
    var length: nat

    /** The nodes held in the slots: values at even positions, indices at odd ones. */
    ghost function Nodes(): (s: seq<Node>)
      requires length <= buffer.Length
      reads this, buffer
      ensures |s| == length / 2
    {
      NodesOf(buffer[..], length / 2)
    }

    ghost predicate Shaped()
      reads this, buffer
    {
      length <= buffer.Length && length % 2 == 0 && Distinct(Nodes())
    }

    ghost predicate Valid()
      reads this, buffer
    {
      Shaped() && Ordered(Nodes())
    }

    constructor (size: nat)
      ensures Valid() && fresh(buffer) && buffer.Length == 2 * size && length == 0
    {
      buffer := new nat[2 * size](_ => 0);
      length := 0;
    }

    /** Exchanges the nodes at slots `c` and `f`. */
    method Swap(c: nat, f: nat)
      requires Shaped() && c % 2 == f % 2 == 0 && c < length && f < length
      modifies buffer
      ensures Shaped() && Nodes() == Swapped(old(Nodes()), c / 2, f / 2)
      ensures Items(Nodes()) == old(Items(Nodes()))
    {
      hide Items;
      ghost var before := Nodes();
      SwapKeeps(before, c / 2, f / 2);
      buffer[c], buffer[f] := buffer[f], buffer[c];
      buffer[c + 1], buffer[f + 1] := buffer[f + 1], buffer[c + 1];
      assert Nodes() == Swapped(before, c / 2, f / 2);
    }

    /** The slots are 16 bits wide, so larger numbers are stored modulo 65536. */
    method Push(index: nat, value: nat)
      requires Valid() && length + 2 <= buffer.Length && index < 0x10000
      requires forall x :: x in Items(Nodes()) ==> x.index != index
      modifies this, buffer
      ensures Valid() && length == old(length) + 2
      ensures Items(Nodes()) == old(Items(Nodes())) + {Node(value % 0x10000, index)}
    {
      ghost var before := Nodes();
      ghost var added := Node(value % 0x10000, index);
      var c := length;
      buffer[length] := value % 0x10000;
      buffer[length + 1] := index;
      length := length + 2;
      assert Nodes() == before + [added];
      ItemsAppend(before, added);
      SiftUp(c);
    }

    /** One step up: true if the node at `c` was exchanged with its parent at `f`. */
    method RiseOnce(c: nat, f: nat) returns (moved: bool)
      requires Shaped() && c % 2 == 0 && 0 < c < length && f == ParentSlot(c)
      requires OrderedExceptUp(Nodes(), c / 2)
      modifies buffer
      ensures Shaped() && Items(Nodes()) == old(Items(Nodes()))
      ensures if moved then OrderedExceptUp(Nodes(), f / 2) else Ordered(Nodes())
    {
      ghost var nodes, hole := Nodes(), c / 2;
      assert nodes[hole].value == buffer[c];
      assert nodes[f / 2].value == buffer[f];
      moved := buffer[c] > buffer[f];
      if moved {
        RiseStep(nodes, hole);
        Swap(c, f);
      } else {
        RiseDone(nodes, hole);
      }
    }

    method SiftUp(start: nat)
      requires Shaped() && start % 2 == 0 && start < length && OrderedExceptUp(Nodes(), start / 2)
      modifies buffer
      ensures Valid() && Items(Nodes()) == old(Items(Nodes()))
    {
      var c: nat := start;
      while c > 0
        invariant Shaped() && c % 2 == 0 && c < length && OrderedExceptUp(Nodes(), c / 2)
        invariant Items(Nodes()) == old(Items(Nodes()))
      {
        var f := ParentSlot(c);
        var moved := RiseOnce(c, f);
        if !moved { return; }
        c := f;
      }
      RiseDone(Nodes(), 0);
    }

    /** Removes and returns a node of largest value. */
    method Pop() returns (top: Node)
      requires Valid() && length > 0
      modifies this, buffer
      ensures Valid() && length == old(length) - 2
      ensures top in old(Items(Nodes())) && Items(Nodes()) == old(Items(Nodes())) - {top}
      ensures forall x :: x in Items(Nodes()) ==> x.value <= top.value
    {
      ghost var before := Nodes();
      top := Node(buffer[0], buffer[1]);
      assert top == before[0] && top in Items(before);
      forall x | x in Items(before) ensures x.value <= top.value {
        var i :| 0 <= i < |before| && before[i] == x;
        RootIsLargest(before, i);
      }
      length := length - 2;
      buffer[0] := buffer[length];
      buffer[1] := buffer[length + 1];
      DropRoot(before, Nodes());
      SiftDown();
    }

    /** One step down: true if the node at `b` was exchanged with its larger child, at `a`. */
    method SinkOnce(b: nat, left: nat) returns (moved: bool, a: nat)
      requires Shaped() && b % 2 == 0 && left == 2 * b + 2 && left < length
      requires OrderedExceptDown(Nodes(), b / 2)
      modifies buffer
      ensures Shaped() && Items(Nodes()) == old(Items(Nodes()))
      ensures a % 2 == 0 && b < a < length
      ensures if moved then OrderedExceptDown(Nodes(), a / 2) else Ordered(Nodes())
    {
      hide OrderedExceptDown, Ordered, Distinct, Items;
      a := left;
      if a + 2 < length && buffer[a + 2] > buffer[a] { a := a + 2; }
      ghost var nodes, hole, child := Nodes(), b / 2, a / 2;
      assert nodes[child].value == buffer[a];
      assert nodes[hole].value == buffer[b];
      assert nodes[2 * hole + 1].value == buffer[left];
      if left + 2 < length { assert nodes[2 * hole + 2].value == buffer[left + 2]; }
      moved := buffer[a] > buffer[b];
      SinkStep(nodes, hole, child);
      if moved {
        Swap(b, a);
      }
    }

    method SiftDown()
      requires Shaped() && OrderedExceptDown(Nodes(), 0)
      modifies buffer
      ensures Valid() && Items(Nodes()) == old(Items(Nodes()))
    {
      var b: nat := 0;
      var a := 2;
      while a < length
        invariant Shaped() && b % 2 == 0 && a == 2 * b + 2 && OrderedExceptDown(Nodes(), b / 2)
        invariant Items(Nodes()) == old(Items(Nodes()))
        decreases length - b
      {
        var moved;
        moved, a := SinkOnce(b, a);
        if !moved { return; }
        b := a;
        a := 2 * b + 2;
      }
      LeafHole(Nodes(), b / 2);
    }
  }

  lemma ItemsAppend(nodes: seq<Node>, x: Node)
    requires Distinct(nodes) && (forall y :: y in Items(nodes) ==> y.index != x.index)
    ensures Distinct(nodes + [x]) && Items(nodes + [x]) == Items(nodes) + {x}
  {
    forall i | 0 <= i < |nodes| ensures nodes[i] in Items(nodes) { }
    assert (nodes + [x])[|nodes|] == x;
    forall y | y in Items(nodes) ensures y in Items(nodes + [x]) {
      var i :| 0 <= i < |nodes| && nodes[i] == y;
      assert (nodes + [x])[i] == y;
    }
  }
}
