/** The independent stack pass that hides rows below collapsed ones and counts direct children. */
module CollapsedRows {
  import opened RowTree
  import opened RowSelection

  datatype RowState = RowState(row: Row, childCount: nat, hidden: bool)

  /** Some collapsed row that is still open before row n has this depth. */
  ghost predicate CollapsedAt(rows: seq<Row>, collapsed: set<Id>, n: nat, depth: nat) {
    exists j :: Open(rows, j, n) && rows[j].id in collapsed && rows[j].depth == depth
  }

  ghost predicate Increasing(s: seq<nat>) { forall a, b :: 0 <= a < b < |s| ==> s[a] < s[b] }

  /** The depths on the stack are those of the collapsed open rows. */
  ghost predicate CollapsedDepths(rows: seq<Row>, collapsed: set<Id>, n: nat, depths: seq<nat>) {
    Increasing(depths) && forall d: nat :: d in depths <==> CollapsedAt(rows, collapsed, n, d)
  }

  ghost predicate HiddenByAncestor(rows: seq<Row>, collapsed: set<Id>, i: int) {
    exists j :: Ancestor(rows, j, i) && rows[j].id in collapsed
  }

  method PopDepths(before: seq<nat>, depth: nat) returns (depths: seq<nat>)
    requires Increasing(before)
    ensures Increasing(depths)
    ensures forall d: nat :: d in depths <==> d in before && d < depth
  {
    depths := before;
    while depths != [] && Last(depths) >= depth
      invariant depths <= before
      invariant forall k :: |depths| <= k < |before| ==> before[k] >= depth
    {
      depths := depths[..|depths| - 1];
    }
    forall d: nat ensures d in depths <==> d in before && d < depth {
      if d in depths {
        var k :| 0 <= k < |depths| && depths[k] == d;
        assert before[k] == d;
        assert k < |depths| - 1 ==> depths[k] < Last(depths);
      }
      if d in before && d < depth {
        var k :| 0 <= k < |before| && before[k] == d;
        assert k < |depths| && depths[k] == d;
      }
    }
  }

  lemma CollapsedStep(rows: seq<Row>, collapsed: set<Id>, n: nat, d: nat)
    requires n < |rows|
    ensures CollapsedAt(rows, collapsed, n + 1, d) <==>
      (CollapsedAt(rows, collapsed, n, d) && d < rows[n].depth) || (rows[n].id in collapsed && rows[n].depth == d)
  {
    if CollapsedAt(rows, collapsed, n, d) && d < rows[n].depth {
      var j :| Open(rows, j, n) && rows[j].id in collapsed && rows[j].depth == d;
      assert Open(rows, j, n + 1);
    }
    if rows[n].id in collapsed && rows[n].depth == d {
      assert Open(rows, n, n + 1);
    }
    if CollapsedAt(rows, collapsed, n + 1, d) {
      var j :| Open(rows, j, n + 1) && rows[j].id in collapsed && rows[j].depth == d;
      assert j < n ==> Open(rows, j, n);
    }
  }

  lemma HiddenMeaning(rows: seq<Row>, collapsed: set<Id>, i: nat, popped: seq<nat>)
    requires i < |rows|
    requires forall d: nat :: d in popped <==> CollapsedAt(rows, collapsed, i, d) && d < rows[i].depth
    ensures popped != [] <==> HiddenByAncestor(rows, collapsed, i)
  {
    if popped != [] {
      assert popped[0] in popped;
      var j :| Open(rows, j, i) && rows[j].id in collapsed && rows[j].depth == popped[0];
      assert Ancestor(rows, j, i);
    }
    if HiddenByAncestor(rows, collapsed, i) {
      var j :| Ancestor(rows, j, i) && rows[j].id in collapsed;
      assert Open(rows, j, i);
      assert rows[j].depth in popped;
    }
  }

  /** What the pass has written about row j after the first n rows. */
  ghost predicate StateTo(rows: seq<Row>, collapsed: set<Id>, n: nat, j: nat, state: RowState)
    requires j < |rows| && n <= |rows|
  {
    && state.row == rows[j]
    && state.childCount == ChildrenTo(rows, j, n)
    && (j < n ==> (state.hidden <==> HiddenByAncestor(rows, collapsed, j)))
  }

  method CollapsedPass(rows: seq<Row>, collapsed: set<Id>) returns (states: seq<RowState>)
    ensures |states| == |rows|
    ensures forall j: nat :: j < |rows| ==> states[j].row == rows[j]
    ensures forall j: nat :: j < |rows| ==> (states[j].hidden <==> HiddenByAncestor(rows, collapsed, j))
    ensures forall j: nat :: j < |rows| ==> states[j].childCount == ChildrenTo(rows, j, |rows|)
  {
    states := seq(|rows|, i requires 0 <= i < |rows| => RowState(rows[i], 0, false));
    assert CollapsedDepths(rows, collapsed, 0, []);
    hide CollapsedAt, HiddenByAncestor, StateTo, Stack, AncestorStack, ChildrenTo;
    var depths: seq<nat>, open: seq<nat> := [], [];
    var i: nat := 0;
    while i < |rows|
      invariant i <= |rows| == |states|
      invariant CollapsedDepths(rows, collapsed, i, depths)
      invariant open == Stack(rows, i)
      invariant forall j: nat :: j < |rows| ==> StateTo(rows, collapsed, i, j, states[j])
    {
      var row := rows[i];
      depths := PopDepths(depths, row.depth);
      HiddenMeaning(rows, collapsed, i, depths);
      ghost var before := states;
      states := states[i := states[i].(hidden := depths != [])];
      ghost var popped := depths;
      if row.id in collapsed { depths := depths + [row.depth]; }
      CollapsedDepthsStep(rows, collapsed, i, popped, depths);
      open := PopDeeper(rows, open, row.depth);
      if open != [] && rows[Last(open)].depth + 1 == row.depth {
        var parent := Last(open);
        states := states[parent := states[parent].(childCount := states[parent].childCount + 1)];
      }
      StatesStep(rows, collapsed, i, before, popped, states);
      StackStep(rows, i);
      open := open + [i];
      i := i + 1;
    }
  }

  lemma CollapsedDepthsStep(rows: seq<Row>, collapsed: set<Id>, i: nat, popped: seq<nat>, depths: seq<nat>)
    requires i < |rows| && Increasing(popped)
    requires forall d: nat :: d in popped <==> CollapsedAt(rows, collapsed, i, d) && d < rows[i].depth
    requires depths == if rows[i].id in collapsed then popped + [rows[i].depth] else popped
    ensures CollapsedDepths(rows, collapsed, i + 1, depths)
  {
    assert forall k :: 0 <= k < |popped| ==> popped[k] in popped;
    forall d: nat ensures d in depths <==> CollapsedAt(rows, collapsed, i + 1, d) {
      CollapsedStep(rows, collapsed, i, d);
    }
  }

  lemma StatesStep(rows: seq<Row>, collapsed: set<Id>, i: nat, before: seq<RowState>, popped: seq<nat>,
      states: seq<RowState>)
    requires i < |rows| == |before|
    requires popped != [] <==> HiddenByAncestor(rows, collapsed, i)
    requires forall j: nat :: j < |rows| ==> StateTo(rows, collapsed, i, j, before[j])
    requires var marked := before[i := before[i].(hidden := popped != [])];
      var open := AncestorStack(rows, i);
      states == if open != [] && rows[Last(open)].depth + 1 == rows[i].depth
                then marked[Last(open) := marked[Last(open)].(childCount := marked[Last(open)].childCount + 1)]
                else marked
    ensures |states| == |rows|
    ensures forall j: nat :: j < |rows| ==> StateTo(rows, collapsed, i + 1, j, states[j])
  {
    var n := i + 1;
    forall j: nat | j < |rows| ensures StateTo(rows, collapsed, n, j, states[j]) {
      assert StateTo(rows, collapsed, i, j, before[j]);
      InnermostParent(rows, i, j);
    }
  }

  /** The pass hides a row exactly when one of the ancestors in the index is collapsed. */
  lemma HiddenIsCollapsedAncestor(rows: seq<Row>, h: Hierarchy, collapsed: set<Id>, i: nat)
    requires Describes(rows, h) && i < |rows|
    ensures rows[i].id in h.ancestors
    ensures HiddenByAncestor(rows, collapsed, i) <==> exists a :: a in h.ancestors[rows[i].id] && a in collapsed
  {
    assert DescribesRow(rows, h, i);
    var ids := h.ancestors[rows[i].id];
    if HiddenByAncestor(rows, collapsed, i) {
      var j :| Ancestor(rows, j, i) && rows[j].id in collapsed;
      hide DescribesRow, Describes;
      AncestorIdsMeaning(rows, h, j, i);
      assert rows[j].id in ids;
    }
    if a: Id :| a in ids && a in collapsed {
      ListedAncestor(rows, h, i, a);
    }
  }

  lemma ListedAncestor(rows: seq<Row>, h: Hierarchy, i: nat, a: Id)
    requires Describes(rows, h) && i < |rows| && rows[i].id in h.ancestors && a in h.ancestors[rows[i].id]
    ensures exists j :: Ancestor(rows, j, i) && rows[j].id == a
  {
    assert DescribesRow(rows, h, i);
    var stack := AncestorStack(rows, i);
    InReversed(IdsAt(rows, stack), a);
    hide DescribesRow, Describes;
    var k :| 0 <= k < |stack| && IdsAt(rows, stack)[k] == a;
    assert stack[k] in stack;
    InAncestorStack(rows, i, stack[k]);
  }

  /** A row is a group of the index exactly when the pass counts a child for it. */
  lemma GroupsAreCounted(rows: seq<Row>, h: Hierarchy, j: nat)
    requires Describes(rows, h) && j < |rows|
    ensures rows[j].id in h.groupIds <==> ChildrenTo(rows, j, |rows|) > 0
  {
    assert DescribesRow(rows, h, j);
    ChildrenCounted(rows, j, |rows|);
  }
}
