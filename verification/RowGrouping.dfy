/** Grouping of data rows by one or more levels of values, as shown by the data view. */
module RowGrouping {
  import opened Options

  datatype Item = Item(id: int, fields: map<string, int>)

  /** The values on the way from the outermost group to a group. */
  type Key = seq<int>

  /** These values as property names, joined to one string: character codes. */
  type Text = seq<int>

  datatype Group = Group(value: int, level: nat, key: Key, count: nat, rows: seq<Item>,
    groups: Option<seq<Group>>, collapsed: bool, title: int, totals: Option<int>)

  type Sorter = seq<Group> -> seq<Group>

  /** What sorting an array always does: it rearranges the elements. */
  ghost predicate Rearranges(f: Sorter) {
    forall s :: multiset(f(s)) == multiset(s)
  }

  /** A value stands for the property name that the source makes of it, `text`. */
  datatype GroupingInfo = GroupingInfo(getter: Item -> int, text: int -> Text, predefinedValues: seq<int>, sort: Sorter,
    formatter: Group -> int, collapsed: bool, aggregate: Option<seq<Item> -> int>, aggregateEmpty: bool,
    aggregateCollapsed: bool, displayTotalsRow: bool)

  /** A row of the grid: an item, the header of a group or its totals. */
  datatype Row = Data(item: Item) | Header(group: Group) | Totals(group: Group)

  ghost predicate Sortable(infos: seq<GroupingInfo>) {
    forall gi :: gi in infos ==> Rearranges(gi.sort)
  }

  // ---------------------------------------------------------------------------------------------
  // Extracting the groups

  /** The values of a list, each where it occurs first. */
  function Distinct(s: seq<int>): seq<int> {
    if s == [] then []
    else
      var d := Distinct(s[..|s| - 1]);
      if s[|s| - 1] in d then d else d + [s[|s| - 1]]
  }

  function Values(rows: seq<Item>, getter: Item -> int): seq<int> {
    if rows == [] then [] else Values(rows[..|rows| - 1], getter) + [getter(rows[|rows| - 1])]
  }

  function Select(rows: seq<Item>, p: Item -> bool): seq<Item> {
    if rows == [] then []
    else
      var s := Select(rows[..|rows| - 1], p);
      if p(rows[|rows| - 1]) then s + [rows[|rows| - 1]] else s
  }

  function Having(getter: Item -> int, v: int): Item -> bool {
    x => getter(x) == v
  }

  function Bare(level: nat, prefix: Key, v: int, rows: seq<Item>): Group {
    Group(v, level, prefix + [v], |rows|, rows, None, false, 0, None)
  }

  function MakeGroup(infos: seq<GroupingInfo>, level: nat, prefix: Key, v: int, rows: seq<Item>): Group
    requires level < |infos|
    decreases |infos| - level, 0
  {
    var g := Bare(level, prefix, v, rows);
    if level + 1 < |infos| then g.(groups := Some(Groups(infos, level + 1, g.key, rows))) else g
  }

  function MakeGroups(infos: seq<GroupingInfo>, level: nat, prefix: Key, rows: seq<Item>, values: seq<int>): seq<Group>
    requires level < |infos|
    decreases |infos| - level, |values| + 1
  {
    if values == [] then []
    else
      var v := values[|values| - 1];
      var last := MakeGroup(infos, level, prefix, v, Select(rows, Having(infos[level].getter, v)));
      MakeGroups(infos, level, prefix, rows, values[..|values| - 1]) + [last]
  }

  /** The groups of `rows` from `level` inwards. */
  function Groups(infos: seq<GroupingInfo>, level: nat, prefix: Key, rows: seq<Item>): seq<Group>
    requires level < |infos|
    decreases |infos| - level, |infos[level].predefinedValues| + |rows| + 2
  {
    var values := Distinct(infos[level].predefinedValues + Values(rows, infos[level].getter));
    DistinctShorter(infos[level].predefinedValues + Values(rows, infos[level].getter));
    ValuesLength(rows, infos[level].getter);
    infos[level].sort(MakeGroups(infos, level, prefix, rows, values))
  }

  lemma {:induction false} DistinctShorter(s: seq<int>)
    ensures |Distinct(s)| <= |s|
  {
    if s != [] {
      DistinctShorter(s[..|s| - 1]);
    }
  }

  lemma {:induction false} ValuesLength(rows: seq<Item>, getter: Item -> int)
    ensures |Values(rows, getter)| == |rows|
  {
    if rows != [] {
      ValuesLength(rows[..|rows| - 1], getter);
    }
  }

  lemma {:induction false} DistinctMembers(s: seq<int>)
    ensures forall v :: v in Distinct(s) <==> v in s
    ensures forall i, j :: 0 <= i < j < |Distinct(s)| ==> Distinct(s)[i] != Distinct(s)[j]
  {
    if s != [] {
      DistinctMembers(s[..|s| - 1]);
      assert s == s[..|s| - 1] + [s[|s| - 1]];
    }
  }

  lemma {:induction false} DistinctHas(s: seq<int>, v: int)
    ensures v in Distinct(s) <==> v in s
  {
    DistinctMembers(s);
  }

  lemma {:induction false} DistinctSnoc(s: seq<int>, v: int)
    ensures Distinct(s + [v]) == if v in Distinct(s) then Distinct(s) else Distinct(s) + [v]
  {
    assert (s + [v])[..|s|] == s;
  }

  lemma {:induction false} SelectSnoc(rows: seq<Item>, i: nat, p: Item -> bool)
    requires i < |rows|
    ensures Select(rows[..i + 1], p) == if p(rows[i]) then Select(rows[..i], p) + [rows[i]] else Select(rows[..i], p)
  {
    assert rows[..i + 1][..i] == rows[..i];
  }

  lemma {:induction false} ValuesSnoc(rows: seq<Item>, i: nat, getter: Item -> int)
    requires i < |rows|
    ensures Values(rows[..i + 1], getter) == Values(rows[..i], getter) + [getter(rows[i])]
  {
    assert rows[..i + 1][..i] == rows[..i];
  }

  /** While the rows are dealt out: one group for each value met, with its rows so far. */
  ghost predicate Dealt(level: nat, prefix: Key, getter: Item -> int, values: seq<int>, rows: seq<Item>,
      groups: seq<Group>, byVal: map<int, nat>)
  {
    && |groups| == |values|
    && (forall k :: 0 <= k < |groups| ==>
          groups[k] == Bare(level, prefix, values[k], Select(rows, Having(getter, values[k]))))
    && (forall v :: v in byVal <==> v in values)
    && (forall v :: v in byVal ==> byVal[v] < |values| && values[byVal[v]] == v)
  }

  lemma {:induction false} MakeGroupsAt(infos: seq<GroupingInfo>, level: nat, prefix: Key, rows: seq<Item>,
      values: seq<int>, k: nat)
    requires level < |infos| && k < |values|
    ensures |MakeGroups(infos, level, prefix, rows, values)| == |values|
    ensures MakeGroups(infos, level, prefix, rows, values)[k]
         == MakeGroup(infos, level, prefix, values[k], Select(rows, Having(infos[level].getter, values[k])))
    decreases |values|
  {
    hide MakeGroup, Select, Having;
    if |values| > 1 {
      MakeGroupsAt(infos, level, prefix, rows, values[..|values| - 1], if k < |values| - 1 then k else 0);
    } else {
      assert MakeGroups(infos, level, prefix, rows, values[..0]) == [];
    }
  }

  lemma {:induction false} MakeGroupsAre(infos: seq<GroupingInfo>, level: nat, prefix: Key, rows: seq<Item>,
      values: seq<int>, gs: seq<Group>)
    requires level < |infos| && |gs| == |values|
    requires forall k :: 0 <= k < |gs| ==>
      gs[k] == MakeGroup(infos, level, prefix, values[k], Select(rows, Having(infos[level].getter, values[k])))
    ensures gs == MakeGroups(infos, level, prefix, rows, values)
  {
    hide MakeGroup, Select, Having;
    if values == [] {
    } else {
      MakeGroupsAt(infos, level, prefix, rows, values, 0);
      forall k | 0 <= k < |gs| ensures gs[k] == MakeGroups(infos, level, prefix, rows, values)[k] {
        MakeGroupsAt(infos, level, prefix, rows, values, k);
      }
    }
  }

  /** Finds the group of a value, or adds one. */
  method GroupFor(level: nat, prefix: Key, v: int, groups0: seq<Group>, byVal0: map<int, nat>)
      returns (groups: seq<Group>, byVal: map<int, nat>)
    ensures v in byVal0 ==> groups == groups0 && byVal == byVal0
    ensures v !in byVal0 ==> groups == groups0 + [Bare(level, prefix, v, [])] && byVal == byVal0[v := |groups0|]
  {
    groups, byVal := groups0, byVal0;
    if v !in byVal {
      var group := Group(v, level, prefix + [v], 0, [], None, false, 0, None);
      groups := groups + [group];
      byVal := byVal[v := |groups| - 1];
    }
  }

  lemma {:induction false} DealtValue(level: nat, prefix: Key, getter: Item -> int, s: seq<int>, v: int,
      rows: seq<Item>, groups: seq<Group>, byVal: map<int, nat>)
    requires Dealt(level, prefix, getter, Distinct(s), rows, groups, byVal)
    requires forall x :: x in rows ==> getter(x) in s
    ensures v !in byVal ==>
      Dealt(level, prefix, getter, Distinct(s + [v]), rows, groups + [Bare(level, prefix, v, [])], byVal[v := |groups|])
    ensures v in byVal ==> Dealt(level, prefix, getter, Distinct(s + [v]), rows, groups, byVal)
  {
    DistinctSnoc(s, v);
    DistinctMembers(s);
    if v !in byVal {
      SelectNone(rows, Having(getter, v));
    }
  }

  lemma {:induction false} SelectNone(rows: seq<Item>, p: Item -> bool)
    requires forall x :: x in rows ==> !p(x)
    ensures Select(rows, p) == []
  {
    if rows != [] {
      SelectNone(rows[..|rows| - 1], p);
    }
  }

  /** One more row goes to the group of its value. */
  lemma {:induction false} DealtRow(level: nat, prefix: Key, getter: Item -> int, s: seq<int>, rows: seq<Item>, i: nat,
      groups: seq<Group>, byVal: map<int, nat>)
    requires i < |rows| && getter(rows[i]) in byVal
    requires Dealt(level, prefix, getter, Distinct(s), rows[..i], groups, byVal)
    ensures var k := byVal[getter(rows[i])]; k < |groups|
    ensures var k := byVal[getter(rows[i])]; var g := groups[k];
      Dealt(level, prefix, getter, Distinct(s), rows[..i + 1],
        groups[k := g.(rows := g.rows + [rows[i]], count := g.count + 1)], byVal)
  {
    DistinctMembers(s);
    forall v ensures Select(rows[..i + 1], Having(getter, v))
        == if getter(rows[i]) == v then Select(rows[..i], Having(getter, v)) + [rows[i]]
           else Select(rows[..i], Having(getter, v))
    {
      SelectSnoc(rows, i, Having(getter, v));
    }
    hide Select, Distinct;
  }

  /** The groups of one level, the first `n` of them with their subgroups. */
  ghost predicate Filled(infos: seq<GroupingInfo>, level: nat, prefix: Key, rows: seq<Item>, groups: seq<Group>, n: nat)
    requires level < |infos|
  {
    var gi := infos[level];
    var values := Distinct(gi.predefinedValues + Values(rows, gi.getter));
    && n <= |groups| == |values|
    && forall k :: 0 <= k < |groups| ==>
         groups[k] == Fill(infos, level, prefix, values[k], Select(rows, Having(gi.getter, values[k])), k < n)
  }

  function Fill(infos: seq<GroupingInfo>, level: nat, prefix: Key, v: int, rows: seq<Item>, done: bool): Group
    requires level < |infos|
  {
    if done then MakeGroup(infos, level, prefix, v, rows) else Bare(level, prefix, v, rows)
  }

  lemma {:induction false} FillNext(infos: seq<GroupingInfo>, level: nat, prefix: Key, rows: seq<Item>,
      groups: seq<Group>, n: nat)
    requires level + 1 < |infos| && n < |groups| && Filled(infos, level, prefix, rows, groups, n)
    ensures var g := groups[n]; var filled := groups[n := g.(groups := Some(Groups(infos, level + 1, g.key, g.rows)))];
      Filled(infos, level, prefix, rows, filled, n + 1)
  {
    hide Distinct, Values, Select, Groups;
  }

  lemma {:induction false} FillEnd(infos: seq<GroupingInfo>, level: nat, prefix: Key, rows: seq<Item>,
      groups: seq<Group>, n: nat)
    requires level < |infos| && Filled(infos, level, prefix, rows, groups, n) && (n == |groups| || level + 1 == |infos|)
    ensures infos[level].sort(groups) == Groups(infos, level, prefix, rows)
  {
    hide Distinct, Values, Select, Having;
    var list := infos[level].predefinedValues + Values(rows, infos[level].getter);
    MakeGroupsAre(infos, level, prefix, rows, Distinct(list), groups);
  }

  method ExtractGroups(infos: seq<GroupingInfo>, rows: seq<Item>, level: nat, prefix: Key) returns (groups: seq<Group>)
    requires level < |infos|
    ensures groups == Groups(infos, level, prefix, rows)
    decreases |infos| - level
  {
    groups := DealOut(infos, rows, level, prefix);
    hide Filled, Groups;
    var i := 0;
    if level + 1 < |infos| {
      while i < |groups|
        invariant 0 <= i <= |groups| && Filled(infos, level, prefix, rows, groups, i)
      {
        FillNext(infos, level, prefix, rows, groups, i);
        var sub := ExtractGroups(infos, groups[i].rows, level + 1, groups[i].key);
        groups := groups[i := groups[i].(groups := Some(sub))];
        i := i + 1;
      }
    }
    FillEnd(infos, level, prefix, rows, groups, i);
    groups := infos[level].sort(groups);
  }

  /** Adds row `i` to the group of its value. */
  method DealRow(gi: GroupingInfo, rows: seq<Item>, level: nat, prefix: Key, i: nat, groups0: seq<Group>,
      byVal0: map<int, nat>, ghost s: seq<int>)
      returns (groups: seq<Group>, byVal: map<int, nat>)
    requires i < |rows| && forall x :: x in rows[..i] ==> gi.getter(x) in s
    requires Dealt(level, prefix, gi.getter, Distinct(s), rows[..i], groups0, byVal0)
    ensures Dealt(level, prefix, gi.getter, Distinct(s + [gi.getter(rows[i])]), rows[..i + 1], groups, byVal)
  {
    var r := rows[i];
    var val := gi.getter(r);
    hide Dealt, Distinct, Bare;
    DealtValue(level, prefix, gi.getter, s, val, rows[..i], groups0, byVal0);
    groups, byVal := GroupFor(level, prefix, val, groups0, byVal0);
    DealtRow(level, prefix, gi.getter, s + [val], rows, i, groups, byVal);
    var k := byVal[val];
    var group := groups[k];
    groups := groups[k := group.(rows := group.rows + [r], count := group.count + 1)];
  }

  /** The groups of one level, without their subgroups, in order of first occurrence. */
  method DealOut(infos: seq<GroupingInfo>, rows: seq<Item>, level: nat, prefix: Key) returns (groups: seq<Group>)
    requires level < |infos|
    ensures Filled(infos, level, prefix, rows, groups, 0)
  {
    var gi := infos[level];
    groups := [];
    var byVal: map<int, nat> := map[];
    assert Dealt(level, prefix, gi.getter, Distinct(gi.predefinedValues[..0]), [], groups, byVal);
    var i := 0;
    hide Dealt, Distinct, Select, Having, Bare, Filled;
    while i < |gi.predefinedValues|
      invariant 0 <= i <= |gi.predefinedValues|
      invariant Dealt(level, prefix, gi.getter, Distinct(gi.predefinedValues[..i]), [], groups, byVal)
    {
      DealtValue(level, prefix, gi.getter, gi.predefinedValues[..i], gi.predefinedValues[i], [], groups, byVal);
      assert gi.predefinedValues[..i + 1] == gi.predefinedValues[..i] + [gi.predefinedValues[i]];
      groups, byVal := GroupFor(level, prefix, gi.predefinedValues[i], groups, byVal);
      i := i + 1;
    }
    assert gi.predefinedValues[..i] == gi.predefinedValues + Values(rows[..0], gi.getter);
    hide Values;
    assert rows[..0] == [];
    i := 0;
    while i < |rows|
      invariant 0 <= i <= |rows|
      invariant Dealt(level, prefix, gi.getter, Distinct(gi.predefinedValues + Values(rows[..i], gi.getter)), rows[..i],
        groups, byVal)
    {
      ghost var s := gi.predefinedValues + Values(rows[..i], gi.getter);
      ValuesCover(rows[..i], gi.getter);
      ValuesSnoc(rows, i, gi.getter);
      assert gi.predefinedValues + Values(rows[..i + 1], gi.getter) == s + [gi.getter(rows[i])];
      groups, byVal := DealRow(gi, rows, level, prefix, i, groups, byVal, s);
      i := i + 1;
    }
    assert rows[..|rows|] == rows;
    DealtGroups(infos, level, prefix, rows, groups, byVal);
  }

  lemma {:induction false} DealtGroups(infos: seq<GroupingInfo>, level: nat, prefix: Key, rows: seq<Item>,
      groups: seq<Group>, byVal: map<int, nat>)
    requires level < |infos|
    requires var gi := infos[level];
      Dealt(level, prefix, gi.getter, Distinct(gi.predefinedValues + Values(rows, gi.getter)), rows, groups, byVal)
    ensures Filled(infos, level, prefix, rows, groups, 0)
  {
    hide Distinct, Values, Select;
  }

  lemma {:induction false} ValuesCover(rows: seq<Item>, getter: Item -> int)
    ensures forall x :: x in rows ==> getter(x) in Values(rows, getter)
    ensures forall v :: v in Values(rows, getter) ==> exists x :: x in rows && getter(x) == v
  {
    if rows != [] {
      ValuesCover(rows[..|rows| - 1], getter);
      assert rows == rows[..|rows| - 1] + [rows[|rows| - 1]];
    }
  }

  // ---------------------------------------------------------------------------------------------
  // Totals, collapsing and flattening

  /** Groups of as many levels as there are groupings left. */
  ghost predicate Shape(gs: seq<Group>, depth: nat)
    decreases depth
  {
    depth > 0 && forall g :: g in gs ==> ShapeOf(g, depth)
  }

  ghost predicate ShapeOf(g: Group, depth: nat)
    requires depth > 0
    decreases depth, 0
  {
    if depth == 1 then g.groups.None? else g.groups.Some? && Shape(g.groups.value, depth - 1)
  }

  function TotalGroup(infos: seq<GroupingInfo>, g: Group, level: nat): Group
    requires level < |infos| && ShapeOf(g, |infos| - level)
    decreases |infos| - level, 0
  {
    var gi := infos[level];
    var inner := if g.groups.Some? then g.(groups := Some(Totalled(infos, g.groups.value, level + 1))) else g;
    if gi.aggregate.Some? && (gi.aggregateEmpty || g.rows != [] || (g.groups.Some? && g.groups.value != [])) then
      inner.(totals := Some(gi.aggregate.value(g.rows)))
    else inner
  }

  function Totalled(infos: seq<GroupingInfo>, gs: seq<Group>, level: nat): seq<Group>
    requires level < |infos| && Shape(gs, |infos| - level)
    decreases |infos| - level, |gs| + 1
  {
    if gs == [] then [] else [TotalGroup(infos, gs[0], level)] + Totalled(infos, gs[1..], level)
  }

  /** The characters `:|:`. */
  function Delimiter(): seq<int> {
    [58, 124, 58]
  }

  function TextAt(infos: seq<GroupingInfo>, i: nat, v: int): seq<int> {
    if i < |infos| then infos[i].text(v) else []
  }

  /** The key of a group, by which its state is remembered. */
  function Joined(infos: seq<GroupingInfo>, key: Key): Text {
    if key == [] then []
    else
      var last := TextAt(infos, |key| - 1, key[|key| - 1]);
      if |key| == 1 then last else Joined(infos, key[..|key| - 1]) + Delimiter() + last
  }

  /** A group is collapsed when the default of its level says so, or the opposite if the group was toggled. */
  predicate Collapsed(infos: seq<GroupingInfo>, toggled: seq<map<Text, bool>>, level: nat, key: Key)
    requires level < |infos| == |toggled|
  {
    var joined := Joined(infos, key);
    infos[level].collapsed != (joined in toggled[level] && toggled[level][joined])
  }

  function FinalGroup(infos: seq<GroupingInfo>, toggled: seq<map<Text, bool>>, g: Group, level: nat): Group
    requires level < |infos| == |toggled| && ShapeOf(g, |infos| - level)
    decreases |infos| - level, 0
  {
    var c := g.(collapsed := Collapsed(infos, toggled, level, g.key));
    var titled := c.(title := infos[level].formatter(c));
    if g.groups.Some? then titled.(groups := Some(Finalized(infos, toggled, g.groups.value, level + 1)), rows := [])
    else titled
  }

  function Finalized(infos: seq<GroupingInfo>, toggled: seq<map<Text, bool>>, gs: seq<Group>, level: nat): seq<Group>
    requires level < |infos| == |toggled| && Shape(gs, |infos| - level)
    decreases |infos| - level, |gs| + 1
  {
    if gs == [] then [] else [FinalGroup(infos, toggled, gs[0], level)] + Finalized(infos, toggled, gs[1..], level)
  }

  function AsData(items: seq<Item>): seq<Row> {
    if items == [] then [] else [Data(items[0])] + AsData(items[1..])
  }

  predicate ShowsTotals(gi: GroupingInfo, g: Group) {
    g.totals.Some? && gi.displayTotalsRow && (!g.collapsed || gi.aggregateCollapsed)
  }

  function Inside(infos: seq<GroupingInfo>, g: Group, level: nat): seq<Row>
    requires level < |infos| && ShapeOf(g, |infos| - level)
    decreases |infos| - level, 0
  {
    if g.groups.Some? then Flatten(infos, g.groups.value, level + 1) else AsData(g.rows)
  }

  function FlattenGroup(infos: seq<GroupingInfo>, g: Group, level: nat): seq<Row>
    requires level < |infos| && ShapeOf(g, |infos| - level)
    decreases |infos| - level, 1
  {
    [Header(g)] + (if g.collapsed then [] else Inside(infos, g, level))
      + (if ShowsTotals(infos[level], g) then [Totals(g)] else [])
  }

  function Flatten(infos: seq<GroupingInfo>, gs: seq<Group>, level: nat): seq<Row>
    requires level < |infos| && Shape(gs, |infos| - level)
    decreases |infos| - level, |gs| + 2
  {
    if gs == [] then [] else FlattenGroup(infos, gs[0], level) + Flatten(infos, gs[1..], level)
  }

  lemma {:induction false} TotalledShape(infos: seq<GroupingInfo>, gs: seq<Group>, level: nat)
    requires level < |infos| && Shape(gs, |infos| - level)
    ensures Shape(Totalled(infos, gs, level), |infos| - level) && |Totalled(infos, gs, level)| == |gs|
    decreases |infos| - level, |gs|
  {
    if gs != [] {
      TotalledShape(infos, gs[1..], level);
      assert ShapeOf(gs[0], |infos| - level);
      if gs[0].groups.Some? {
        TotalledShape(infos, gs[0].groups.value, level + 1);
      }
      assert ShapeOf(TotalGroup(infos, gs[0], level), |infos| - level);
    }
  }

  lemma {:induction false} FinalizedShape(infos: seq<GroupingInfo>, toggled: seq<map<Text, bool>>, gs: seq<Group>,
      level: nat)
    requires level < |infos| == |toggled| && Shape(gs, |infos| - level)
    ensures Shape(Finalized(infos, toggled, gs, level), |infos| - level)
    ensures |Finalized(infos, toggled, gs, level)| == |gs|
    decreases |infos| - level, |gs|
  {
    if gs != [] {
      FinalizedShape(infos, toggled, gs[1..], level);
      assert ShapeOf(gs[0], |infos| - level);
      if gs[0].groups.Some? {
        FinalizedShape(infos, toggled, gs[0].groups.value, level + 1);
      }
      assert ShapeOf(FinalGroup(infos, toggled, gs[0], level), |infos| - level);
    }
  }

  method CalculateTotals(infos: seq<GroupingInfo>, groups0: seq<Group>, level: nat) returns (groups: seq<Group>)
    requires level < |infos| && Shape(groups0, |infos| - level)
    ensures groups == Totalled(infos, groups0, level)
    decreases |infos| - level
  {
    groups := groups0;
    var idx := |groups|;
    while idx > 0
      invariant 0 <= idx <= |groups0| == |groups| && groups[..idx] == groups0[..idx]
      invariant Shape(groups0[idx..], |infos| - level) && groups[idx..] == Totalled(infos, groups0[idx..], level)
    {
      idx := idx - 1;
      var g := groups[idx];
      assert g == groups[..idx + 1][idx] == groups0[..idx + 1][idx] == groups0[idx];
      assert ShapeOf(g, |infos| - level);
      var gi := infos[level];
      var total := g;
      if g.groups.Some? {
        var sub := CalculateTotals(infos, g.groups.value, level + 1);
        total := total.(groups := Some(sub));
      }
      if gi.aggregate.Some? && (gi.aggregateEmpty || |g.rows| > 0 || (g.groups.Some? && |g.groups.value| > 0)) {
        total := total.(totals := Some(gi.aggregate.value(g.rows)));
      }
      assert total == TotalGroup(infos, g, level);
      ShapeSuffix(groups0, idx, |infos| - level);
      ReplaceAt(groups, idx, total);
      groups := groups[idx := total];
      assert groups0[idx..][0] == g && groups0[idx..][1..] == groups0[idx + 1..];
    }
  }

  lemma {:induction false} ShapeSuffix(gs: seq<Group>, i: nat, depth: nat)
    requires i <= |gs| && Shape(gs, depth)
    ensures Shape(gs[i..], depth)
  {
    assert forall g :: g in gs[i..] ==> g in gs;
  }

  lemma {:induction false} ReplaceAt<T>(s: seq<T>, i: nat, x: T)
    requires i < |s|
    ensures s[i := x][..i] == s[..i] && s[i := x][i..] == [x] + s[i + 1..]
  {
  }

  method FinalizeGroups(infos: seq<GroupingInfo>, toggled: seq<map<Text, bool>>, groups0: seq<Group>, level: nat)
      returns (groups: seq<Group>)
    requires level < |infos| == |toggled| && Shape(groups0, |infos| - level)
    ensures groups == Finalized(infos, toggled, groups0, level)
    decreases |infos| - level
  {
    hide Joined;
    groups := groups0;
    var idx := |groups|;
    while idx > 0
      invariant 0 <= idx <= |groups0| == |groups| && groups[..idx] == groups0[..idx]
      invariant Shape(groups0[idx..], |infos| - level)
      invariant groups[idx..] == Finalized(infos, toggled, groups0[idx..], level)
    {
      idx := idx - 1;
      var g := groups[idx];
      assert g == groups[..idx + 1][idx] == groups0[..idx + 1][idx] == groups0[idx];
      assert ShapeOf(g, |infos| - level);
      var toggledGroups := toggled[level];
      var groupingKey := Joined(infos, g.key);
      var final := g.(
        collapsed := infos[level].collapsed != (groupingKey in toggledGroups && toggledGroups[groupingKey]));
      final := final.(title := infos[level].formatter(final));
      if g.groups.Some? {
        var sub := FinalizeGroups(infos, toggled, g.groups.value, level + 1);
        final := final.(groups := Some(sub), rows := []);
      }
      assert final == FinalGroup(infos, toggled, g, level);
      ShapeSuffix(groups0, idx, |infos| - level);
      ReplaceAt(groups, idx, final);
      groups := groups[idx := final];
      assert groups0[idx..][0] == g && groups0[idx..][1..] == groups0[idx + 1..];
    }
  }

  method PushData(rows: seq<Row>, items: seq<Item>) returns (all: seq<Row>)
    ensures all == rows + AsData(items)
  {
    all := rows;
    var j := 0;
    assert items[0..] == items;
    while j < |items|
      invariant 0 <= j <= |items|
      invariant all + AsData(items[j..]) == rows + AsData(items)
    {
      assert items[j..][0] == items[j] && items[j..][1..] == items[j + 1..];
      assert all + ([Data(items[j])] + AsData(items[j + 1..])) == (all + [Data(items[j])]) + AsData(items[j + 1..]);
      all := all + [Data(items[j])];
      j := j + 1;
    }
  }

  method AppendGroup(infos: seq<GroupingInfo>, g: Group, level: nat, before: seq<Row>) returns (groupedRows: seq<Row>)
    requires level < |infos| && ShapeOf(g, |infos| - level)
    ensures groupedRows == before + FlattenGroup(infos, g, level)
    decreases |infos| - level, 0
  {
    hide Flatten, AsData;
    groupedRows := before + [Header(g)];
    if !g.collapsed {
      ghost var inside := Inside(infos, g, level);
      if g.groups.Some? {
        var rows := FlattenGroupedRows(infos, g.groups.value, level + 1);
        groupedRows := groupedRows + rows;
      } else {
        groupedRows := PushData(groupedRows, g.rows);
      }
      Reassociate(before, [Header(g)], inside);
    } else {
      assert groupedRows == before + ([Header(g)] + []);
    }
    hide Inside, ShapeOf;
    Reassociate(before, [Header(g)] + if g.collapsed then [] else Inside(infos, g, level), [Totals(g)]);
    if g.totals.Some? && infos[level].displayTotalsRow && (!g.collapsed || infos[level].aggregateCollapsed) {
      groupedRows := groupedRows + [Totals(g)];
    }
  }

  method FlattenGroupedRows(infos: seq<GroupingInfo>, groups: seq<Group>, level: nat) returns (groupedRows: seq<Row>)
    requires level < |infos| && Shape(groups, |infos| - level)
    ensures groupedRows == Flatten(infos, groups, level)
    decreases |infos| - level, 1
  {
    groupedRows := [];
    var i := 0;
    assert groups[0..] == groups;
    while i < |groups|
      invariant 0 <= i <= |groups| && Shape(groups[i..], |infos| - level)
      invariant groupedRows + Flatten(infos, groups[i..], level) == Flatten(infos, groups, level)
    {
      assert ShapeOf(groups[i], |infos| - level);
      ShapeSuffix(groups, i + 1, |infos| - level);
      ghost var before, rest := groupedRows, Flatten(infos, groups[i + 1..], level);
      groupedRows := AppendGroup(infos, groups[i], level, groupedRows);
      assert groups[i..][0] == groups[i] && groups[i..][1..] == groups[i + 1..];
      hide FlattenGroup;
      Reassociate(before, FlattenGroup(infos, groups[i], level), rest);
      i := i + 1;
    }
  }

  lemma {:induction false} Reassociate(a: seq<Row>, b: seq<Row>, c: seq<Row>)
    ensures a + (b + c) == (a + b) + c
  {
  }

  // ---------------------------------------------------------------------------------------------
  // What grouping shows

  /** The rows of the grid for a page of items. */
  function Shown(infos: seq<GroupingInfo>, toggled: seq<map<Text, bool>>, rows: seq<Item>): seq<Row>
    requires |infos| == |toggled| && Sortable(infos)
  {
    if infos == [] then AsData(rows)
    else
      ExtractedShape(infos, 0, [], rows);
      Prepared(infos, toggled, Groups(infos, 0, [], rows), 0)
  }

  /** Totals, collapsing and flattening of groups just extracted. */
  function Prepared(infos: seq<GroupingInfo>, toggled: seq<map<Text, bool>>, gs: seq<Group>, level: nat): seq<Row>
    requires level < |infos| == |toggled| && Shape(gs, |infos| - level)
  {
    TotalledShape(infos, gs, level);
    FinalizedShape(infos, toggled, Totalled(infos, gs, level), level);
    Flatten(infos, Finalized(infos, toggled, Totalled(infos, gs, level), level), level)
  }

  lemma {:induction false} ExtractedShape(infos: seq<GroupingInfo>, level: nat, prefix: Key, rows: seq<Item>)
    requires level < |infos| && Sortable(infos)
    ensures Shape(Groups(infos, level, prefix, rows), |infos| - level)
    decreases |infos| - level
  {
    var gs := Groups(infos, level, prefix, rows);
    forall g | g in gs ensures ShapeOf(g, |infos| - level) {
      var v := ExtractedFrom(infos, level, prefix, rows, g);
      if level + 1 < |infos| {
        ExtractedShape(infos, level + 1, prefix + [v], Select(rows, Having(infos[level].getter, v)));
      }
    }
  }

  /** Every extracted group is the group of one of the values. */
  lemma {:induction false} ExtractedFrom(infos: seq<GroupingInfo>, level: nat, prefix: Key, rows: seq<Item>, g: Group)
      returns (v: int)
    requires level < |infos| && Rearranges(infos[level].sort)
    requires g in Groups(infos, level, prefix, rows)
    ensures v in infos[level].predefinedValues + Values(rows, infos[level].getter)
    ensures g == MakeGroup(infos, level, prefix, v, Select(rows, Having(infos[level].getter, v)))
  {
    var all := infos[level].predefinedValues + Values(rows, infos[level].getter);
    var values := Distinct(all);
    DistinctMembers(all);
    var unsorted := MakeGroups(infos, level, prefix, rows, values);
    hide MakeGroup, MakeGroups, Distinct, Select, Having, Values;
    assert multiset(infos[level].sort(unsorted)) == multiset(unsorted);
    assert g in multiset(unsorted);
    MakeGroupsLength(infos, level, prefix, rows, values);
    var k :| 0 <= k < |unsorted| && unsorted[k] == g;
    MakeGroupsAt(infos, level, prefix, rows, values, k);
    v := values[k];
  }

  lemma {:induction false} MakeGroupsLength(infos: seq<GroupingInfo>, level: nat, prefix: Key, rows: seq<Item>,
      values: seq<int>)
    requires level < |infos|
    ensures |MakeGroups(infos, level, prefix, rows, values)| == |values|
  {
    if values != [] {
      MakeGroupsAt(infos, level, prefix, rows, values, 0);
    }
  }

  // ---------------------------------------------------------------------------------------------
  // Grouping loses no rows

  /** The values of an item for the first `n` groupings. */
  function KeyOf(infos: seq<GroupingInfo>, x: Item, n: nat): Key
    requires n <= |infos|
  {
    if n == 0 then [] else KeyOf(infos, x, n - 1) + [infos[n - 1].getter(x)]
  }

  function Under(infos: seq<GroupingInfo>, key: Key): Item -> bool
    requires |key| <= |infos|
  {
    x => KeyOf(infos, x, |key|) == key
  }

  /** The items that belong to the group with this key, in their order. */
  function RowsUnder(infos: seq<GroupingInfo>, all: seq<Item>, key: Key): seq<Item>
    requires |key| <= |infos|
  {
    Select(all, Under(infos, key))
  }

  lemma {:induction false} KeyOfPrefix(infos: seq<GroupingInfo>, x: Item, n: nat, m: nat)
    requires n <= m <= |infos|
    ensures |KeyOf(infos, x, m)| == m && KeyOf(infos, x, m)[..n] == KeyOf(infos, x, n)
    decreases m
  {
    if n < m {
      KeyOfPrefix(infos, x, n, m - 1);
    } else if m > 0 {
      KeyOfPrefix(infos, x, m - 1, m - 1);
    }
  }

  lemma {:induction false} SelectTwice(s: seq<Item>, p: Item -> bool, q: Item -> bool, r: Item -> bool)
    requires forall x :: x in s ==> (r(x) <==> p(x) && q(x))
    ensures Select(Select(s, p), q) == Select(s, r)
  {
    if s != [] {
      var last := s[|s| - 1];
      SelectTwice(s[..|s| - 1], p, q, r);
      assert s == s[..|s| - 1] + [last];
      if p(last) {
        assert (Select(s[..|s| - 1], p) + [last])[..|Select(s[..|s| - 1], p)|] == Select(s[..|s| - 1], p);
      }
    }
  }

  lemma {:induction false} SelectAppend(s: seq<Item>, t: seq<Item>, p: Item -> bool)
    ensures Select(s + t, p) == Select(s, p) + Select(t, p)
    decreases |t|
  {
    if t == [] {
      assert s + t == s;
    } else {
      SelectAppend(s, t[..|t| - 1], p);
      assert (s + t)[..|s + t| - 1] == s + t[..|t| - 1];
    }
  }

  lemma {:induction false} SelectIsIn(s: seq<Item>, p: Item -> bool)
    ensures forall x :: x in Select(s, p) <==> x in s && p(x)
  {
    if s != [] {
      SelectIsIn(s[..|s| - 1], p);
      assert s == s[..|s| - 1] + [s[|s| - 1]];
    }
  }

  lemma {:induction false} KeyOfSplit(infos: seq<GroupingInfo>, x: Item, key: Key, v: int)
    requires |key| < |infos|
    ensures KeyOf(infos, x, |key| + 1) == key + [v] <==> KeyOf(infos, x, |key|) == key && infos[|key|].getter(x) == v
  {
    KeyOfPrefix(infos, x, |key|, |key| + 1);
    assert (key + [v])[..|key|] == key && (key + [v])[|key|] == v;
  }

  /** The rows of a group, split by the values of the next level. */
  lemma {:induction false} RowsUnderNext(infos: seq<GroupingInfo>, all: seq<Item>, key: Key, v: int)
    requires |key| < |infos|
    ensures Select(RowsUnder(infos, all, key), Having(infos[|key|].getter, v)) == RowsUnder(infos, all, key + [v])
  {
    forall x | x in all
      ensures Under(infos, key + [v])(x) <==> Under(infos, key)(x) && Having(infos[|key|].getter, v)(x)
    {
      KeyOfSplit(infos, x, key, v);
    }
    SelectTwice(all, Under(infos, key), Having(infos[|key|].getter, v), Under(infos, key + [v]));
  }

  /** Groups with distinct values that hold exactly the items under `prefix`, each with those under its own key. */
  ghost predicate Describes(infos: seq<GroupingInfo>, all: seq<Item>, level: nat, prefix: Key, gs: seq<Group>)
    requires level == |prefix| < |infos|
    decreases |infos| - level, 1
  {
    && (forall g :: g in gs ==> DescribedGroup(infos, all, level, prefix, g))
    && DistinctValues(gs)
    && (forall x :: x in RowsUnder(infos, all, prefix) ==> HasValue(gs, infos[level].getter(x)))
  }

  ghost predicate DistinctValues(gs: seq<Group>) {
    forall i, j :: 0 <= i < j < |gs| ==> gs[i].value != gs[j].value
  }

  ghost predicate HasValue(gs: seq<Group>, v: int) {
    exists g :: g in gs && g.value == v
  }

  ghost predicate DescribedGroup(infos: seq<GroupingInfo>, all: seq<Item>, level: nat, prefix: Key, g: Group)
    requires level == |prefix| < |infos|
    decreases |infos| - level, 0
  {
    && g.level == level && g.key == prefix + [g.value] && g.totals.None?
    && g.rows == RowsUnder(infos, all, g.key) && g.count == |g.rows|
    && (level + 1 == |infos| ==> g.groups.None?)
    && (level + 1 < |infos| ==> g.groups.Some? && Describes(infos, all, level + 1, g.key, g.groups.value))
  }

  lemma {:induction false} GroupsDescribe(infos: seq<GroupingInfo>, all: seq<Item>, level: nat, prefix: Key)
    requires level == |prefix| < |infos| && Sortable(infos)
    ensures Describes(infos, all, level, prefix, Groups(infos, level, prefix, RowsUnder(infos, all, prefix)))
    decreases |infos| - level
  {
    var rows := RowsUnder(infos, all, prefix);
    var gs := Groups(infos, level, prefix, rows);
    forall g | g in gs ensures DescribedGroup(infos, all, level, prefix, g) {
      var v := ExtractedFrom(infos, level, prefix, rows, g);
      RowsUnderNext(infos, all, prefix, v);
      if level + 1 < |infos| {
        GroupsDescribe(infos, all, level + 1, prefix + [v]);
      }
    }
    ExtractedDistinct(infos, level, prefix, rows);
  }

  lemma {:induction false} ExtractedDistinct(infos: seq<GroupingInfo>, level: nat, prefix: Key, rows: seq<Item>)
    requires level < |infos| && Rearranges(infos[level].sort)
    ensures DistinctValues(Groups(infos, level, prefix, rows))
    ensures forall x :: x in rows ==> HasValue(Groups(infos, level, prefix, rows), infos[level].getter(x))
  {
    var gi := infos[level];
    var list := gi.predefinedValues + Values(rows, gi.getter);
    var values := Distinct(list);
    var unsorted := MakeGroups(infos, level, prefix, rows, values);
    var gs := Groups(infos, level, prefix, rows);
    assert multiset(gs) == multiset(unsorted);
    DistinctMembers(list);
    ValuesCover(rows, gi.getter);
    MakeGroupsLength(infos, level, prefix, rows, values);
    hide Groups, MakeGroups, MakeGroup, Distinct, Values, Rearranges;
    forall k | 0 <= k < |values| ensures unsorted[k].value == values[k] {
      MakeGroupsAt(infos, level, prefix, rows, values, k);
      MakeGroupValue(infos, level, prefix, values[k], Select(rows, Having(gi.getter, values[k])));
    }
    DistinctRearranged(unsorted, gs);
    forall x | x in rows ensures HasValue(gs, gi.getter(x)) {
      assert gi.getter(x) in list;
      DistinctHas(list, gi.getter(x));
      var k :| 0 <= k < |values| && values[k] == gi.getter(x);
      assert unsorted[k] in multiset(unsorted);
      assert unsorted[k] in gs;
    }
  }

  lemma {:induction false} MakeGroupValue(infos: seq<GroupingInfo>, level: nat, prefix: Key, v: int, rows: seq<Item>)
    requires level < |infos|
    ensures MakeGroup(infos, level, prefix, v, rows).value == v
  {
  }

  lemma {:induction false} DistinctRearranged(s: seq<Group>, t: seq<Group>)
    requires DistinctValues(s) && multiset(s) == multiset(t)
    ensures DistinctValues(t)
  {
    forall i, j | 0 <= i < j < |t| ensures t[i].value != t[j].value {
      assert t == t[..i] + [t[i]] + t[i + 1..j] + [t[j]] + t[j + 1..];
      assert t[i] in multiset(s) && t[j] in multiset(s);
      if t[i] == t[j] {
        assert multiset(t)[t[i]] >= 2;
        AtMostOnce(s, t[i]);
      }
    }
  }

  lemma {:induction false} AtMostOnce(s: seq<Group>, g: Group)
    requires DistinctValues(s)
    ensures multiset(s)[g] <= 1
  {
    if s != [] {
      AtMostOnce(s[1..], g);
      assert s == [s[0]] + s[1..];
      if s[0] == g {
        assert g !in s[1..];
      }
    }
  }

  // ---------------------------------------------------------------------------------------------

  function ItemsIn(rows: seq<Row>): seq<Item> {
    if rows == [] then [] else OwnItem(rows[0]) + ItemsIn(rows[1..])
  }

  function OwnItem(r: Row): seq<Item> {
    if r.Data? then [r.item] else []
  }

  lemma {:induction false} ItemsInAppend(a: seq<Row>, b: seq<Row>)
    ensures ItemsIn(a + b) == ItemsIn(a) + ItemsIn(b)
  {
    if a == [] {
      assert a + b == b;
    } else {
      assert (a + b)[0] == a[0] && (a + b)[1..] == a[1..] + b;
      assert ItemsIn(a + b) == OwnItem(a[0]) + ItemsIn(a[1..] + b) && ItemsIn(a) == OwnItem(a[0]) + ItemsIn(a[1..]);
      hide ItemsIn, OwnItem;
      ItemsInAppend(a[1..], b);
      ItemsAssociate(OwnItem(a[0]), ItemsIn(a[1..]), ItemsIn(b));
    }
  }

  lemma {:induction false} ItemsAssociate(a: seq<Item>, b: seq<Item>, c: seq<Item>)
    ensures a + (b + c) == (a + b) + c
  {
  }

  lemma {:induction false} ItemsInData(items: seq<Item>)
    ensures ItemsIn(AsData(items)) == items
  {
    if items != [] {
      ItemsInData(items[1..]);
      assert AsData(items)[1..] == AsData(items[1..]);
    }
  }

  /** What one extracted group becomes. */
  function PreparedGroup(infos: seq<GroupingInfo>, toggled: seq<map<Text, bool>>, g: Group, level: nat): seq<Row>
    requires level < |infos| == |toggled| && ShapeOf(g, |infos| - level)
  {
    TotalKeepsShape(infos, g, level);
    FinalKeepsShape(infos, toggled, TotalGroup(infos, g, level), level);
    FlattenGroup(infos, FinalGroup(infos, toggled, TotalGroup(infos, g, level), level), level)
  }

  lemma {:induction false} TotalKeepsShape(infos: seq<GroupingInfo>, g: Group, level: nat)
    requires level < |infos| && ShapeOf(g, |infos| - level)
    ensures ShapeOf(TotalGroup(infos, g, level), |infos| - level)
  {
    if g.groups.Some? {
      TotalledShape(infos, g.groups.value, level + 1);
    }
  }

  lemma {:induction false} FinalKeepsShape(infos: seq<GroupingInfo>, toggled: seq<map<Text, bool>>, g: Group,
      level: nat)
    requires level < |infos| == |toggled| && ShapeOf(g, |infos| - level)
    ensures ShapeOf(FinalGroup(infos, toggled, g, level), |infos| - level)
  {
    if g.groups.Some? {
      FinalizedShape(infos, toggled, g.groups.value, level + 1);
    }
  }

  lemma {:induction false} PreparedCons(infos: seq<GroupingInfo>, toggled: seq<map<Text, bool>>, gs: seq<Group>,
      level: nat)
    requires level < |infos| == |toggled| && Shape(gs, |infos| - level) && gs != []
    ensures Shape(gs[1..], |infos| - level) && ShapeOf(gs[0], |infos| - level)
    ensures Prepared(infos, toggled, gs, level)
         == PreparedGroup(infos, toggled, gs[0], level) + Prepared(infos, toggled, gs[1..], level)
  {
    ShapeSuffix(gs, 1, |infos| - level);
    assert ShapeOf(gs[0], |infos| - level);
    TotalledShape(infos, gs, level);
    var totalled := Totalled(infos, gs, level);
    assert totalled[1..] == Totalled(infos, gs[1..], level);
    FinalizedShape(infos, toggled, totalled, level);
    var final := Finalized(infos, toggled, totalled, level);
    assert final[1..] == Finalized(infos, toggled, totalled[1..], level);
  }

  lemma {:induction false} PreparedNil(infos: seq<GroupingInfo>, toggled: seq<map<Text, bool>>, level: nat)
    requires level < |infos| == |toggled|
    ensures Prepared(infos, toggled, [], level) == []
  {
  }

  /** The totals are those of these rows; they are there if there is an aggregate and rows, or it wants no rows. */
  ghost predicate TrueTotals(gi: GroupingInfo, rows: seq<Item>, totals: Option<int>) {
    && (totals.Some? ==> gi.aggregate.Some? && totals.value == gi.aggregate.value(rows))
    && (gi.aggregate.Some? && (gi.aggregateEmpty || rows != []) ==> totals.Some?)
  }

  /** The group as its header shows it. */
  function HeaderOf(infos: seq<GroupingInfo>, toggled: seq<map<Text, bool>>, g: Group, level: nat): Group
    requires level < |infos| == |toggled| && ShapeOf(g, |infos| - level)
  {
    TotalKeepsShape(infos, g, level);
    FinalGroup(infos, toggled, TotalGroup(infos, g, level), level)
  }

  function Body(infos: seq<GroupingInfo>, toggled: seq<map<Text, bool>>, g: Group, level: nat): seq<Row>
    requires level < |infos| == |toggled| && ShapeOf(g, |infos| - level)
  {
    if Collapsed(infos, toggled, level, g.key) then []
    else if g.groups.Some? then Prepared(infos, toggled, g.groups.value, level + 1)
    else AsData(g.rows)
  }

  lemma {:induction false} PreparedGroupParts(infos: seq<GroupingInfo>, toggled: seq<map<Text, bool>>, g: Group,
      level: nat)
      returns (tail: seq<Row>)
    requires level < |infos| == |toggled| && ShapeOf(g, |infos| - level)
    ensures var h := HeaderOf(infos, toggled, g, level);
      PreparedGroup(infos, toggled, g, level) == [Header(h)] + Body(infos, toggled, g, level) + tail
    ensures var h := HeaderOf(infos, toggled, g, level);
      && tail == (if ShowsTotals(infos[level], h) then [Totals(h)] else [])
      && (g.totals.None? ==> TrueTotals(infos[level], g.rows, h.totals))
    ensures var h := HeaderOf(infos, toggled, g, level);
      && h.key == g.key && h.level == g.level && h.value == g.value && h.count == g.count
      && h.collapsed == Collapsed(infos, toggled, level, g.key)
  {
    hide Joined;
    var h := HeaderOf(infos, toggled, g, level);
    tail := if ShowsTotals(infos[level], h) then [Totals(h)] else [];
    if g.groups.Some? {
      TotalledShape(infos, g.groups.value, level + 1);
      FinalizedShape(infos, toggled, Totalled(infos, g.groups.value, level + 1), level + 1);
      var sub := Totalled(infos, g.groups.value, level + 1);
      assert h.groups == Some(Finalized(infos, toggled, sub, level + 1));
      assert Inside(infos, h, level) == Prepared(infos, toggled, g.groups.value, level + 1);
    } else {
      assert h.rows == g.rows && Inside(infos, h, level) == AsData(g.rows);
    }
    assert FlattenGroup(infos, h, level) == [Header(h)] + Body(infos, toggled, g, level) + tail;
  }

  /** The group on some level `level` or further in, on the way to `p`, is collapsed. */
  predicate HiddenFrom(infos: seq<GroupingInfo>, toggled: seq<map<Text, bool>>, p: Key, level: nat)
    requires level <= |p| <= |infos| == |toggled|
    decreases |p| - level
  {
    level < |p| && (Collapsed(infos, toggled, level, p[..level + 1]) || HiddenFrom(infos, toggled, p, level + 1))
  }

  lemma {:induction false} PathRowsGroup(infos: seq<GroupingInfo>, toggled: seq<map<Text, bool>>, all: seq<Item>,
      level: nat, prefix: Key, g: Group, p: Key)
    requires level == |prefix| < |infos| == |toggled| == |p| && ShapeOf(g, |infos| - level)
    requires DescribedGroup(infos, all, level, prefix, g)
    ensures Select(ItemsIn(PreparedGroup(infos, toggled, g, level)), Under(infos, p))
         == if g.key == p[..level + 1] && !HiddenFrom(infos, toggled, p, level) then RowsUnder(infos, all, p) else []
    decreases |infos| - level, 0, 0
  {
    hide Joined, Collapsed, KeyOf;
    GroupItems(infos, toggled, g, level);
    hide Select, ItemsIn, PreparedGroup, RowsUnder, Prepared, AsData;
    if Collapsed(infos, toggled, level, g.key) {
      NothingSelected(Under(infos, p));
    } else if level + 1 == |infos| {
      assert p[..level + 1] == p;
      LeafRows(infos, all, g, p);
    } else {
      PathRows(infos, toggled, all, level + 1, g.key, g.groups.value, p);
    }
  }

  lemma {:induction false} NothingSelected(q: Item -> bool)
    ensures Select(ItemsIn([]), q) == []
  {
  }

  /** The rows of a group of the innermost level are those of its path, and of no other. */
  lemma {:induction false} LeafRows(infos: seq<GroupingInfo>, all: seq<Item>, g: Group, p: Key)
    requires |g.key| == |p| == |infos| && g.rows == RowsUnder(infos, all, g.key)
    ensures Select(ItemsIn(AsData(g.rows)), Under(infos, p)) == if g.key == p then RowsUnder(infos, all, p) else []
  {
    ItemsInData(g.rows);
    hide Select, ItemsIn, AsData;
    if g.key == p {
      SelectTwice(all, Under(infos, p), Under(infos, p), Under(infos, p));
    } else {
      SelectIsIn(all, Under(infos, g.key));
      SelectNone(g.rows, Under(infos, p));
    }
  }

  /** The items that a group shows are those of its body. */
  lemma {:induction false} GroupItems(infos: seq<GroupingInfo>, toggled: seq<map<Text, bool>>, g: Group, level: nat)
    requires level < |infos| == |toggled| && ShapeOf(g, |infos| - level)
    ensures ItemsIn(PreparedGroup(infos, toggled, g, level)) == ItemsIn(Body(infos, toggled, g, level))
  {
    var tail := PreparedGroupParts(infos, toggled, g, level);
    var h, body := HeaderOf(infos, toggled, g, level), Body(infos, toggled, g, level);
    hide PreparedGroup, HeaderOf, Body;
    ItemsInAppend([Header(h)] + body, tail);
    ItemsInAppend([Header(h)], body);
  }

  ghost predicate HasKey(gs: seq<Group>, key: Key) {
    exists g :: g in gs && g.key == key
  }

  lemma {:induction false} PathRowsList(infos: seq<GroupingInfo>, toggled: seq<map<Text, bool>>, all: seq<Item>,
      level: nat, prefix: Key, gs: seq<Group>, p: Key)
    requires level == |prefix| < |infos| == |toggled| == |p| && Shape(gs, |infos| - level)
    requires (forall g :: g in gs ==> DescribedGroup(infos, all, level, prefix, g)) && DistinctValues(gs)
    ensures Select(ItemsIn(Prepared(infos, toggled, gs, level)), Under(infos, p))
         == if HasKey(gs, p[..level + 1]) && !HiddenFrom(infos, toggled, p, level) then RowsUnder(infos, all, p) else []
    decreases |infos| - level, 1, |gs|
  {
    hide Joined, Collapsed, KeyOf;
    if gs == [] {
      assert Prepared(infos, toggled, gs, level) == [];
    } else {
      var here, rest := PreparedGroup(infos, toggled, gs[0], level), gs[1..];
      PreparedCons(infos, toggled, gs, level);
      assert gs[0] in gs && forall g :: g in rest ==> g in gs;
      var further := Prepared(infos, toggled, rest, level);
      ItemsInAppend(here, further);
      SelectAppend(ItemsIn(here), ItemsIn(further), Under(infos, p));
      PathRowsGroup(infos, toggled, all, level, prefix, gs[0], p);
      PathRowsList(infos, toggled, all, level, prefix, rest, p);
      hide Select, ItemsIn, Prepared, PreparedGroup, HiddenFrom, RowsUnder;
      KeysDistinct(infos, all, level, prefix, gs);
      assert HasKey(gs, p[..level + 1]) <==> gs[0].key == p[..level + 1] || HasKey(rest, p[..level + 1]);
    }
  }

  lemma {:induction false} KeysDistinct(infos: seq<GroupingInfo>, all: seq<Item>, level: nat, prefix: Key,
      gs: seq<Group>)
    requires level == |prefix| < |infos| && gs != []
    requires (forall g :: g in gs ==> DescribedGroup(infos, all, level, prefix, g)) && DistinctValues(gs)
    ensures !HasKey(gs[1..], gs[0].key)
  {
    assert gs[0] in gs && gs[0].key[level] == gs[0].value;
    forall g | g in gs[1..] ensures g.key != gs[0].key {
      var j :| 1 <= j < |gs| && gs[j] == g;
      assert g in gs && g.key[level] == g.value;
    }
  }

  lemma {:induction false} PathRows(infos: seq<GroupingInfo>, toggled: seq<map<Text, bool>>, all: seq<Item>,
      level: nat, prefix: Key, gs: seq<Group>, p: Key)
    requires level == |prefix| < |infos| == |toggled| == |p| && Shape(gs, |infos| - level)
    requires Describes(infos, all, level, prefix, gs)
    ensures Select(ItemsIn(Prepared(infos, toggled, gs, level)), Under(infos, p))
         == if p[..level] == prefix && !HiddenFrom(infos, toggled, p, level) then RowsUnder(infos, all, p) else []
    decreases |infos| - level, 2, 0
  {
    PathRowsList(infos, toggled, all, level, prefix, gs, p);
    hide Select, ItemsIn, Prepared, HiddenFrom;
    assert HasKey(gs, p[..level + 1]) ==> p[..level] == prefix by {
      if g :| g in gs && g.key == p[..level + 1] {
        assert DescribedGroup(infos, all, level, prefix, g);
        assert p[..level] == p[..level + 1][..level];
      }
    }
    if p[..level] == prefix && RowsUnder(infos, all, p) != [] {
      CoveredHasKey(infos, all, level, prefix, gs, p);
    }
  }

  lemma {:induction false} CoveredHasKey(infos: seq<GroupingInfo>, all: seq<Item>, level: nat, prefix: Key,
      gs: seq<Group>, p: Key)
    requires level == |prefix| < |p| <= |infos| && Describes(infos, all, level, prefix, gs)
    requires p[..level] == prefix && RowsUnder(infos, all, p) != []
    ensures HasKey(gs, p[..level + 1])
  {
    var x := RowsUnder(infos, all, p)[0];
    SelectIsIn(all, Under(infos, p));
    SelectIsIn(all, Under(infos, prefix));
    assert x in RowsUnder(infos, all, p);
    KeyOfPrefix(infos, x, level, |p|);
    KeyOfPrefix(infos, x, level + 1, |p|);
    assert x in RowsUnder(infos, all, prefix);
    assert KeyOf(infos, x, level + 1) == p[..level + 1];
    var g :| g in gs && g.value == infos[level].getter(x);
    assert DescribedGroup(infos, all, level, prefix, g);
  }

  /**
   Grouping shows, for every path of values, exactly the items with these values and in their order, unless a
   group on the path is collapsed; then it shows none of them.
   */
  lemma {:induction false} ShownUnderPath(infos: seq<GroupingInfo>, toggled: seq<map<Text, bool>>, all: seq<Item>,
      p: Key)
    requires |infos| == |toggled| == |p| && Sortable(infos)
    ensures RowsUnder(infos, ItemsIn(Shown(infos, toggled, all)), p)
         == if HiddenFrom(infos, toggled, p, 0) then [] else RowsUnder(infos, all, p)
  {
    if infos == [] {
      ItemsInData(all);
    } else {
      SelectAll(all, Under(infos, []));
      ExtractedShape(infos, 0, [], all);
      GroupsDescribe(infos, all, 0, []);
      PathRows(infos, toggled, all, 0, [], Groups(infos, 0, [], all), p);
    }
  }

  lemma {:induction false} SelectAll(s: seq<Item>, q: Item -> bool)
    requires forall x :: x in s ==> q(x)
    ensures Select(s, q) == s
  {
    if s != [] {
      assert s == s[..|s| - 1] + [s[|s| - 1]];
      SelectAll(s[..|s| - 1], q);
    }
  }

  lemma {:induction false} SelectCount(s: seq<Item>, q: Item -> bool, x: Item)
    ensures multiset(Select(s, q))[x] == if q(x) then multiset(s)[x] else 0
  {
    if s != [] {
      assert s == s[..|s| - 1] + [s[|s| - 1]];
      SelectCount(s[..|s| - 1], q, x);
    }
  }

  function IsVisible(infos: seq<GroupingInfo>, toggled: seq<map<Text, bool>>): Item -> bool
    requires |infos| == |toggled|
  {
    x => KeyOfLength(infos, x, |infos|); !HiddenFrom(infos, toggled, KeyOf(infos, x, |infos|), 0)
  }

  lemma {:induction false} KeyOfLength(infos: seq<GroupingInfo>, x: Item, n: nat)
    requires n <= |infos|
    ensures |KeyOf(infos, x, n)| == n
  {
    if n > 0 {
      KeyOfLength(infos, x, n - 1);
    }
  }

  /** Every item is shown as often as it occurs, or not at all if it lies in a collapsed group. */
  lemma {:induction false} GroupingConservesRows(infos: seq<GroupingInfo>, toggled: seq<map<Text, bool>>,
      all: seq<Item>)
    requires |infos| == |toggled| && Sortable(infos)
    ensures multiset(ItemsIn(Shown(infos, toggled, all))) == multiset(Select(all, IsVisible(infos, toggled)))
  {
    var shown, visible := ItemsIn(Shown(infos, toggled, all)), Select(all, IsVisible(infos, toggled));
    forall x ensures multiset(shown)[x] == multiset(visible)[x] {
      var p := KeyOf(infos, x, |infos|);
      KeyOfLength(infos, x, |infos|);
      ShownUnderPath(infos, toggled, all, p);
      SelectCount(shown, Under(infos, p), x);
      SelectCount(all, Under(infos, p), x);
      SelectCount(all, IsVisible(infos, toggled), x);
    }
  }

  // ---------------------------------------------------------------------------------------------
  // Headers

  /**
   A header that counts the items of its group, shows the right state and lies in no collapsed group; the totals
   it goes with are those of the items.
   */
  ghost predicate TrueHeader(infos: seq<GroupingInfo>, toggled: seq<map<Text, bool>>, all: seq<Item>, level: nat,
      h: Group)
    requires |infos| == |toggled|
  {
    && level <= h.level < |infos| && |h.key| == h.level + 1
    && h.count == |RowsUnder(infos, all, h.key)| && h.collapsed == Collapsed(infos, toggled, h.level, h.key)
    && TrueTotals(infos[h.level], RowsUnder(infos, all, h.key), h.totals)
    && !HiddenFrom(infos, toggled, h.key[..h.level], level)
  }

  /** A true header, or the totals of a group whose totals are to be shown. */
  ghost predicate TrueRow(
      infos: seq<GroupingInfo>, toggled: seq<map<Text, bool>>, all: seq<Item>, level: nat, r: Row)
    requires |infos| == |toggled| && !r.Data?
  {
    && TrueHeader(infos, toggled, all, level, r.group)
    && (r.Totals? ==> ShowsTotals(infos[r.group.level], r.group))
  }

  lemma {:induction false} PreparedHeaders(infos: seq<GroupingInfo>, toggled: seq<map<Text, bool>>, all: seq<Item>,
      level: nat, prefix: Key, gs: seq<Group>, r: Row)
    requires level == |prefix| < |infos| == |toggled| && Shape(gs, |infos| - level)
    requires forall g :: g in gs ==> DescribedGroup(infos, all, level, prefix, g)
    requires r in Prepared(infos, toggled, gs, level) && !r.Data?
    ensures TrueRow(infos, toggled, all, level, r) && r.group.key[..level] == prefix
    decreases |infos| - level, 1, |gs|
  {
    PreparedNil(infos, toggled, level);
    if gs != [] {
      PreparedCons(infos, toggled, gs, level);
      hide Prepared, PreparedGroup, TrueRow, DescribedGroup;
      if r in Prepared(infos, toggled, gs[1..], level) {
        PreparedHeaders(infos, toggled, all, level, prefix, gs[1..], r);
      } else {
        assert gs[0] in gs;
        PreparedGroupHeaders(infos, toggled, all, level, prefix, gs[0], r);
      }
    }
  }

  lemma {:induction false} PreparedGroupHeaders(infos: seq<GroupingInfo>, toggled: seq<map<Text, bool>>, all: seq<Item>,
      level: nat, prefix: Key, g: Group, r: Row)
    requires level == |prefix| < |infos| == |toggled| && ShapeOf(g, |infos| - level)
    requires DescribedGroup(infos, all, level, prefix, g)
    requires r in PreparedGroup(infos, toggled, g, level) && !r.Data?
    ensures TrueRow(infos, toggled, all, level, r) && r.group.key[..level] == prefix
    decreases |infos| - level, 0, 0
  {
    hide Joined, KeyOf;
    var tail := PreparedGroupParts(infos, toggled, g, level);
    hide PreparedGroup, RowsUnder, Prepared, Body, HeaderOf, TrueTotals;
    if r in Body(infos, toggled, g, level) {
      InBody(infos, toggled, g, level, r);
      assert Describes(infos, all, level + 1, g.key, g.groups.value);
      PreparedHeaders(infos, toggled, all, level + 1, g.key, g.groups.value, r);
      InnerHeader(infos, toggled, all, level, g.key, r.group);
      assert r.group.key[..level] == g.key[..level] == prefix;
    } else {
      assert r.group == HeaderOf(infos, toggled, g, level);
      assert g.key[..level] == prefix;
    }
  }

  /** A true header inside an expanded group is true for the outer levels too. */
  lemma {:induction false} InnerHeader(infos: seq<GroupingInfo>, toggled: seq<map<Text, bool>>, all: seq<Item>,
      level: nat, key: Key, h: Group)
    requires level < |infos| == |toggled| && |key| == level + 1 && !Collapsed(infos, toggled, level, key)
    requires TrueHeader(infos, toggled, all, level + 1, h) && h.key[..level + 1] == key
    ensures TrueHeader(infos, toggled, all, level, h) && h.key[..level] == key[..level]
  {
    var path := h.key[..h.level];
    assert path[..level + 1] == h.key[..level + 1];
    HiddenOneMore(infos, toggled, path, level, key);
    hide HiddenFrom, RowsUnder, TrueTotals;
    assert h.key[..level] == h.key[..level + 1][..level];
  }

  lemma {:induction false} InBody(infos: seq<GroupingInfo>, toggled: seq<map<Text, bool>>, g: Group, level: nat, r: Row)
    requires level < |infos| == |toggled| && ShapeOf(g, |infos| - level)
    requires r in Body(infos, toggled, g, level) && !r.Data?
    ensures level + 1 < |infos| && g.groups.Some? && !Collapsed(infos, toggled, level, g.key)
    ensures r in Prepared(infos, toggled, g.groups.value, level + 1)
  {
    OnlyData(g.rows);
  }

  lemma {:induction false} OnlyData(items: seq<Item>)
    ensures forall r :: r in AsData(items) ==> r.Data?
  {
    if items != [] {
      OnlyData(items[1..]);
    }
  }

  lemma {:induction false} HiddenOneMore(infos: seq<GroupingInfo>, toggled: seq<map<Text, bool>>, p: Key, level: nat,
      key: Key)
    requires level < |p| <= |infos| == |toggled| && p[..level + 1] == key && !Collapsed(infos, toggled, level, key)
    ensures HiddenFrom(infos, toggled, p, level) == HiddenFrom(infos, toggled, p, level + 1)
  {
  }

  /** Every header and totals row in the grid is true, and every header has its totals row if they are to be shown. */
  lemma {:induction false} HeadersAreTrue(infos: seq<GroupingInfo>, toggled: seq<map<Text, bool>>, all: seq<Item>,
      r: Row)
    requires |infos| == |toggled| && Sortable(infos)
    requires r in Shown(infos, toggled, all) && !r.Data?
    ensures TrueHeader(infos, toggled, all, 0, r.group)
    ensures Totals(r.group) in Shown(infos, toggled, all) <==> ShowsTotals(infos[r.group.level], r.group)
  {
    hide Joined;
    if infos == [] {
      OnlyData(all);
    } else {
      SelectAll(all, Under(infos, []));
      ExtractedShape(infos, 0, [], all);
      GroupsDescribe(infos, all, 0, []);
      PreparedHeaders(infos, toggled, all, 0, [], Groups(infos, 0, [], all), r);
      PreparedTotals(infos, toggled, all, 0, [], Groups(infos, 0, [], all), r);
      if Totals(r.group) in Shown(infos, toggled, all) {
        PreparedHeaders(infos, toggled, all, 0, [], Groups(infos, 0, [], all), Totals(r.group));
      }
    }
  }

  /** Where the totals of a group are to be shown, they are. */
  lemma {:induction false} PreparedTotals(infos: seq<GroupingInfo>, toggled: seq<map<Text, bool>>, all: seq<Item>,
      level: nat, prefix: Key, gs: seq<Group>, r: Row)
    requires level == |prefix| < |infos| == |toggled| && Shape(gs, |infos| - level)
    requires forall g :: g in gs ==> DescribedGroup(infos, all, level, prefix, g)
    requires r in Prepared(infos, toggled, gs, level) && !r.Data?
    ensures r.group.level < |infos|
    ensures ShowsTotals(infos[r.group.level], r.group) ==> Totals(r.group) in Prepared(infos, toggled, gs, level)
    decreases |infos| - level, 1, |gs|
  {
    PreparedNil(infos, toggled, level);
    if gs != [] {
      PreparedCons(infos, toggled, gs, level);
      hide Prepared, PreparedGroup, ShowsTotals, DescribedGroup;
      if r in Prepared(infos, toggled, gs[1..], level) {
        PreparedTotals(infos, toggled, all, level, prefix, gs[1..], r);
      } else {
        assert gs[0] in gs;
        PreparedGroupTotals(infos, toggled, all, level, prefix, gs[0], r);
      }
    }
  }

  lemma {:induction false} PreparedGroupTotals(infos: seq<GroupingInfo>, toggled: seq<map<Text, bool>>, all: seq<Item>,
      level: nat, prefix: Key, g: Group, r: Row)
    requires level == |prefix| < |infos| == |toggled| && ShapeOf(g, |infos| - level)
    requires DescribedGroup(infos, all, level, prefix, g)
    requires r in PreparedGroup(infos, toggled, g, level) && !r.Data?
    ensures r.group.level < |infos|
    ensures ShowsTotals(infos[r.group.level], r.group) ==> Totals(r.group) in PreparedGroup(infos, toggled, g, level)
    decreases |infos| - level, 0, 0
  {
    hide Joined, KeyOf;
    var tail := PreparedGroupParts(infos, toggled, g, level);
    hide PreparedGroup, RowsUnder, Prepared, HeaderOf, TrueTotals, ShowsTotals;
    if r in Body(infos, toggled, g, level) {
      InBody(infos, toggled, g, level, r);
      assert Describes(infos, all, level + 1, g.key, g.groups.value);
      PreparedTotals(infos, toggled, all, level + 1, g.key, g.groups.value, r);
    } else {
      assert r.group == HeaderOf(infos, toggled, g, level);
    }
  }

  lemma {:induction false} PreparedContains(infos: seq<GroupingInfo>, toggled: seq<map<Text, bool>>, gs: seq<Group>,
      level: nat, g: Group, r: Row)
    requires level < |infos| == |toggled| && Shape(gs, |infos| - level) && g in gs && ShapeOf(g, |infos| - level)
    requires r in PreparedGroup(infos, toggled, g, level)
    ensures r in Prepared(infos, toggled, gs, level)
    decreases |gs|
  {
    PreparedCons(infos, toggled, gs, level);
    hide Prepared, PreparedGroup;
    if g != gs[0] {
      PreparedContains(infos, toggled, gs[1..], level, g, r);
    }
  }

  ghost predicate HasHeader(rows: seq<Row>, key: Key) {
    exists r :: r in rows && r.Header? && r.group.key == key
  }

  lemma {:induction false} PreparedHasHeader(infos: seq<GroupingInfo>, toggled: seq<map<Text, bool>>, all: seq<Item>,
      level: nat, prefix: Key, gs: seq<Group>, key: Key)
    requires level == |prefix| < |key| <= |infos| == |toggled| && Shape(gs, |infos| - level)
    requires Describes(infos, all, level, prefix, gs) && key[..level] == prefix
    requires RowsUnder(infos, all, key) != [] && !HiddenFrom(infos, toggled, key[..|key| - 1], level)
    ensures HasHeader(Prepared(infos, toggled, gs, level), key)
    decreases |key| - level
  {
    hide Joined, KeyOf;
    hide TrueTotals, ShowsTotals, Having, Select;
    CoveredHasKey(infos, all, level, prefix, gs, key);
    var g :| g in gs && g.key == key[..level + 1];
    assert ShapeOf(g, |infos| - level) && DescribedGroup(infos, all, level, prefix, g);
    var tail := PreparedGroupParts(infos, toggled, g, level);
    var h := HeaderOf(infos, toggled, g, level);
    hide RowsUnder, Shape, Prepared, PreparedGroup;
    if |key| == level + 1 {
      assert key[..level + 1] == key;
      assert Header(h) in PreparedGroup(infos, toggled, g, level);
      PreparedContains(infos, toggled, gs, level, g, Header(h));
    } else {
      assert key[..|key| - 1][..level + 1] == key[..level + 1];
      var inner := Prepared(infos, toggled, g.groups.value, level + 1);
      PreparedHasHeader(infos, toggled, all, level + 1, g.key, g.groups.value, key);
      var r :| r in inner && r.Header? && r.group.key == key;
      assert r in PreparedGroup(infos, toggled, g, level);
      PreparedContains(infos, toggled, gs, level, g, r);
    }
  }

  /** Every group that has items and lies in no collapsed group has its header in the grid. */
  lemma {:induction false} GroupsHaveHeaders(infos: seq<GroupingInfo>, toggled: seq<map<Text, bool>>, all: seq<Item>,
      key: Key)
    requires 0 < |key| <= |infos| == |toggled| && Sortable(infos)
    requires RowsUnder(infos, all, key) != [] && !HiddenFrom(infos, toggled, key[..|key| - 1], 0)
    ensures HasHeader(Shown(infos, toggled, all), key)
  {
    SelectAll(all, Under(infos, []));
    ExtractedShape(infos, 0, [], all);
    GroupsDescribe(infos, all, 0, []);
    PreparedHasHeader(infos, toggled, all, 0, [], Groups(infos, 0, [], all), key);
  }

  /** What `expandCollapseGroup` records for a key, given the default of its level. */
  function Toggle(infos: seq<GroupingInfo>, toggled: seq<map<Text, bool>>, level: nat, groupingKey: Text,
      collapse: bool): seq<map<Text, bool>>
    requires level < |infos| == |toggled|
  {
    toggled[level := toggled[level][groupingKey := infos[level].collapsed != collapse]]
  }

  /**
   Collapsing or expanding a key works whatever the default of its level, on exactly the groups of the level whose
   values join to the key.
   */
  lemma {:induction false} ToggleHolds(infos: seq<GroupingInfo>, toggled: seq<map<Text, bool>>, level: nat,
      groupingKey: Text, collapse: bool, n: nat, other: Key)
    requires level < |infos| == |toggled| && n < |infos|
    ensures Collapsed(infos, Toggle(infos, toggled, level, groupingKey, collapse), n, other)
         == if n == level && Joined(infos, other) == groupingKey then collapse else Collapsed(infos, toggled, n, other)
  {
  }

  /** The names of the values of a level differ, and none contains a colon. */
  ghost predicate PlainNames(infos: seq<GroupingInfo>) {
    forall gi :: gi in infos ==> PlainText(gi.text)
  }

  ghost predicate PlainText(text: int -> seq<int>) {
    && (forall v :: 58 !in text(v))
    && (forall v, w :: text(v) == text(w) ==> v == w)
  }

  /** With plain names two groups of a level never share their key. */
  lemma {:induction false} JoinedApart(infos: seq<GroupingInfo>, key: Key, other: Key)
    requires PlainNames(infos) && |key| == |other| <= |infos| && Joined(infos, key) == Joined(infos, other)
    ensures key == other
    decreases |key|
  {
    if key != [] {
      var n := |key| - 1;
      var a, b := TextAt(infos, n, key[n]), TextAt(infos, n, other[n]);
      assert infos[n] in infos && PlainText(infos[n].text);
      if n > 0 {
        var p, q := Joined(infos, key[..n]), Joined(infos, other[..n]);
        SameTail(p, a, q, b);
        JoinedApart(infos, key[..n], other[..n]);
      }
      assert key == key[..n] + [key[n]] && other == other[..n] + [other[n]];
    }
  }

  /** The last delimiter is where the last colon is. */
  lemma {:induction false} SameTail(p: seq<int>, a: seq<int>, q: seq<int>, b: seq<int>)
    requires p + Delimiter() + a == q + Delimiter() + b && 58 !in a && 58 !in b
    ensures p == q && a == b
  {
    var s := p + Delimiter() + a;
    LastColon(p, a);
    LastColon(q, b);
    assert |p| == |q|;
    assert s[..|p|] == p && s[|p| + 3..] == a;
    assert s[..|q|] == q && s[|q| + 3..] == b;
  }

  lemma {:induction false} LastColon(p: seq<int>, a: seq<int>)
    requires 58 !in a
    ensures var s := p + Delimiter() + a; s[|p| + 2] == 58 && forall i :: |p| + 2 < i < |s| ==> s[i] != 58
  {
  }

  /**
   Otherwise they can: where a name is the join of two others, collapsing one group collapses one with other values.
   */
  lemma {:induction false} JoinedAlike(infos: seq<GroupingInfo>, a: int, b: int, c: int, ab: int, bc: int)
    requires |infos| >= 2
    requires infos[0].text(ab) == infos[0].text(a) + Delimiter() + infos[1].text(b)
    requires infos[1].text(bc) == infos[1].text(b) + Delimiter() + infos[1].text(c)
    ensures Joined(infos, [a, bc]) == Joined(infos, [ab, c])
  {
    var ta, tb, tc := infos[0].text(a), infos[1].text(b), infos[1].text(c);
    assert [a, bc][..1] == [a] && [ab, c][..1] == [ab];
    assert ta + Delimiter() + (tb + Delimiter() + tc) == (ta + Delimiter() + tb) + Delimiter() + tc;
  }

  predicate Within(level: Option<nat>, i: nat) {
    level.None? || level.value == i
  }

  /** The groupings after collapsing or expanding all groups of one level, or of all levels. */
  function AllSet(infos: seq<GroupingInfo>, level: Option<nat>, collapse: bool): (r: seq<GroupingInfo>)
    ensures |r| == |infos|
  {
    seq(|infos|, i requires 0 <= i < |infos| =>
      if Within(level, i) then infos[i].(collapsed := collapse) else infos[i])
  }

  /** The toggles of these levels are forgotten. */
  function Untoggled(toggled: seq<map<Text, bool>>, level: Option<nat>): (r: seq<map<Text, bool>>)
    ensures |r| == |toggled|
  {
    seq(|toggled|, i requires 0 <= i < |toggled| => if Within(level, i) then map[] else toggled[i])
  }

  /**
   Every group of the level, or of all levels, is then collapsed or expanded, whatever was toggled before; every
   other group stays as it is. Nothing else of the groupings changes, so the groups are the same.
   */
  lemma {:induction false} AllSetHolds(infos: seq<GroupingInfo>, toggled: seq<map<Text, bool>>, level: Option<nat>,
      collapse: bool, n: nat, key: Key)
    requires n < |infos| == |toggled|
    ensures Collapsed(AllSet(infos, level, collapse), Untoggled(toggled, level), n, key)
         == if Within(level, n) then collapse else Collapsed(infos, toggled, n, key)
    ensures AllSet(infos, level, collapse)[n].(collapsed := infos[n].collapsed) == infos[n]
  {
    AllSetJoined(infos, level, collapse, key);
  }

  lemma {:induction false} AllSetJoined(infos: seq<GroupingInfo>, level: Option<nat>, collapse: bool, key: Key)
    ensures Joined(AllSet(infos, level, collapse), key) == Joined(infos, key)
    decreases |key|
  {
    if |key| > 1 {
      AllSetJoined(infos, level, collapse, key[..|key| - 1]);
    }
  }

  /** With all groups of all levels collapsed no row is visible, and with all of them expanded every row is. */
  lemma {:induction false} AllSetShows(infos: seq<GroupingInfo>, toggled: seq<map<Text, bool>>, collapse: bool,
      all: seq<Item>)
    requires infos != [] && |infos| == |toggled| && Sortable(infos)
    ensures Sortable(AllSet(infos, None, collapse))
    ensures multiset(ItemsIn(Shown(AllSet(infos, None, collapse), Untoggled(toggled, None), all)))
         == if collapse then multiset{} else multiset(all)
  {
    var infos', toggled' := AllSet(infos, None, collapse), Untoggled(toggled, None);
    AllSetSortable(infos, None, collapse);
    GroupingConservesRows(infos', toggled', all);
    hide AllSet, Untoggled, Shown, Sortable, ItemsIn;
    forall x ensures IsVisible(infos', toggled')(x) == !collapse {
      var p := KeyOf(infos', x, |infos'|);
      KeyOfLength(infos', x, |infos'|);
      AllHidden(infos, toggled, collapse, p, 0);
    }
    if collapse {
      SelectNone(all, IsVisible(infos', toggled'));
    } else {
      SelectAll(all, IsVisible(infos', toggled'));
    }
  }

  lemma {:induction false} AllSetSortable(infos: seq<GroupingInfo>, level: Option<nat>, collapse: bool)
    requires Sortable(infos)
    ensures Sortable(AllSet(infos, level, collapse))
  {
    hide Rearranges;
    forall gi | gi in AllSet(infos, level, collapse) ensures Rearranges(gi.sort) {
      var i :| 0 <= i < |infos| && AllSet(infos, level, collapse)[i] == gi;
      assert infos[i] in infos && gi.sort == infos[i].sort;
    }
  }

  lemma {:induction false} AllHidden(infos: seq<GroupingInfo>, toggled: seq<map<Text, bool>>, collapse: bool, p: Key,
      level: nat)
    requires level <= |p| <= |infos| == |toggled|
    ensures HiddenFrom(AllSet(infos, None, collapse), Untoggled(toggled, None), p, level) == (level < |p| && collapse)
    decreases |p| - level
  {
    if level < |p| {
      AllSetHolds(infos, toggled, None, collapse, level, p[..level + 1]);
      AllHidden(infos, toggled, collapse, p, level + 1);
    }
  }
}
