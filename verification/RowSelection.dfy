/**
 Row hierarchy of the shared data table: the one-pass index of ancestors, descendants and leaves,
 the three-state checkbox in its simple and its counting form, selection toggling, and the
 independent pass that hides rows under collapsed ones.
 */
module RowSelection {
  import opened RowTree

  /** The index of a table: for each row its ancestors (nearest first) and descendants, for each group its leaves. */
  datatype Hierarchy = Hierarchy(
    rowIds: seq<Id>, groupIds: set<Id>, descendants: map<Id, seq<Id>>, leaves: map<Id, seq<Id>>,
    ancestors: map<Id, seq<Id>>)

  ghost predicate DistinctIds(rows: seq<Row>) {
    forall i, j :: 0 <= i < j < |rows| ==> rows[i].id != rows[j].id
  }

  function IdsAt(rows: seq<Row>, at: seq<nat>): (ids: seq<Id>)
    requires forall k :: 0 <= k < |at| ==> at[k] < |rows|
    ensures |ids| == |at|
    ensures forall k :: 0 <= k < |at| ==> ids[k] == rows[at[k]].id
  {
    seq(|at|, k requires 0 <= k < |at| => rows[at[k]].id)
  }

  function Ids(rows: seq<Row>): (ids: seq<Id>)
    ensures |ids| == |rows|
    ensures forall k :: 0 <= k < |rows| ==> ids[k] == rows[k].id
  {
    seq(|rows|, k requires 0 <= k < |rows| => rows[k].id)
  }

  function Reversed<T>(s: seq<T>): (r: seq<T>)
    ensures |r| == |s|
    ensures forall k :: 0 <= k < |s| ==> r[k] == s[|s| - 1 - k]
  {
    seq(|s|, k requires 0 <= k < |s| => s[|s| - 1 - k])
  }

  function Without(ids: seq<Id>, excluded: set<Id>): seq<Id> {
    if ids == [] then []
    else Without(ids[..|ids| - 1], excluded) + if ids[|ids| - 1] in excluded then [] else [ids[|ids| - 1]]
  }

  ghost predicate DescribesRow(rows: seq<Row>, h: Hierarchy, j: nat)
    requires j < |rows|
  {
    var id := rows[j].id;
    && id in h.ancestors && h.ancestors[id] == Reversed(IdsAt(rows, AncestorStack(rows, j)))
    && id in h.descendants && h.descendants[id] == DescendantIds(rows, j, |rows|)
    && (id in h.groupIds <==> HasChild(rows, j))
    && (id in h.leaves <==> HasChild(rows, j))
    && (HasChild(rows, j) ==> h.leaves[id] == LeafIds(rows, j, |rows|))
  }

  ghost predicate Describes(rows: seq<Row>, h: Hierarchy) {
    && DistinctIds(rows)
    && h.rowIds == Ids(rows)
    && h.groupIds == h.leaves.Keys
    && (forall id :: id in h.groupIds ==> id in h.rowIds)
    && (forall id :: id in h.ancestors ==> id in h.rowIds)
    && (forall id :: id in h.descendants ==> id in h.rowIds)
    && (forall j :: 0 <= j < |rows| ==> DescribesRow(rows, h, j))
  }

  // ---------------------------------------------------------------- building the index

  method PushToAll(lists: map<Id, seq<Id>>, keys: seq<Id>, id: Id) returns (result: map<Id, seq<Id>>)
    requires forall a, b :: 0 <= a < b < |keys| ==> keys[a] != keys[b]
    requires forall a :: 0 <= a < |keys| ==> keys[a] in lists
    ensures result.Keys == lists.Keys
    ensures forall x :: x in lists ==> result[x] == lists[x] + if x in keys then [id] else []
  {
    result := lists;
    for a := 0 to |keys|
      invariant result.Keys == lists.Keys
      invariant forall x :: x in lists ==> result[x] == lists[x] + if x in keys[..a] then [id] else []
    {
      assert keys[a] !in keys[..a];
      assert keys[..a + 1] == keys[..a] + [keys[a]];
      result := result[keys[a] := result[keys[a]] + [id]];
    }
    assert keys[..|keys|] == keys;
  }

  lemma StackIdsDistinct(rows: seq<Row>, stack: seq<nat>)
    requires DistinctIds(rows) && Deepening(rows, stack)
    ensures forall a, b :: 0 <= a < b < |stack| ==> rows[stack[a]].id != rows[stack[b]].id
    ensures forall j :: 0 <= j < |rows| ==> (rows[j].id in IdsAt(rows, stack) <==> j in stack)
  {
    forall j | 0 <= j < |rows| ensures rows[j].id in IdsAt(rows, stack) <==> j in stack {
      if rows[j].id in IdsAt(rows, stack) {
        var k :| 0 <= k < |stack| && IdsAt(rows, stack)[k] == rows[j].id;
        assert stack[k] == j;
      }
      if j in stack {
        var k :| 0 <= k < |stack| && stack[k] == j;
        assert IdsAt(rows, stack)[k] == rows[j].id;
      }
    }
  }

  lemma WithoutOneMore(ids: seq<Id>, id: Id, excluded: set<Id>)
    ensures Without(ids + [id], excluded) == Without(ids, excluded) + if id in excluded then [] else [id]
  {
    assert (ids + [id])[..|ids|] == ids;
  }

  lemma {:induction false} WithoutGroups(rows: seq<Row>, groups: set<Id>, j: int, n: nat)
    requires n <= |rows|
    requires forall i :: 0 <= i < |rows| ==> (rows[i].id in groups <==> HasChild(rows, i))
    ensures Without(DescendantIds(rows, j, n), groups) == LeafIds(rows, j, n)
  {
    if n > 0 {
      WithoutGroups(rows, groups, j, n - 1);
      WithoutOneMore(DescendantIds(rows, j, n - 1), rows[n - 1].id, groups);
      var before := DescendantIds(rows, j, n - 1);
      assert before + [] == before && LeafIds(rows, j, n - 1) + [] == LeafIds(rows, j, n - 1);
    }
  }

  method PopDeeper(rows: seq<Row>, before: seq<nat>, depth: nat) returns (stack: seq<nat>)
    requires forall k :: 0 <= k < |before| ==> before[k] < |rows|
    ensures stack == PopTo(rows, before, depth)
  {
    stack := before;
    while stack != [] && rows[Last(stack)].depth >= depth
      invariant stack <= before
      invariant PopTo(rows, stack, depth) == PopTo(rows, before, depth)
    {
      stack := stack[..|stack| - 1];
    }
  }

  function ChildCount(children: map<Id, nat>, id: Id): nat { if id in children then children[id] else 0 }

  /** Counts a row of the given depth for the innermost open row when it lies one level deeper. */
  function CountChild(rows: seq<Row>, stack: seq<nat>, depth: nat, children: map<Id, nat>): map<Id, nat>
    requires forall k :: 0 <= k < |stack| ==> stack[k] < |rows|
  {
    if stack != [] && rows[Last(stack)].depth + 1 == depth
    then children[rows[Last(stack)].id := ChildCount(children, rows[Last(stack)].id) + 1]
    else children
  }

  lemma StackStep(rows: seq<Row>, i: nat)
    requires i < |rows|
    ensures Stack(rows, i + 1) == AncestorStack(rows, i) + [i]
  {
  }

  /** What the first i rows contribute to the lists of row j. */
  ghost predicate DoneTo(
      rows: seq<Row>, i: nat, j: nat, ancestors: map<Id, seq<Id>>, descendants: map<Id, seq<Id>>,
      children: map<Id, nat>)
    requires i <= |rows| && j < |rows|
  {
    var id := rows[j].id;
    && (j < i ==> id in ancestors && ancestors[id] == Reversed(IdsAt(rows, AncestorStack(rows, j))))
    && id in descendants && descendants[id] == DescendantIds(rows, j, i)
    && ChildCount(children, id) == ChildrenTo(rows, j, i) && (id in children ==> children[id] > 0)
  }

  ghost predicate KnownKeys<T>(m: map<Id, T>, ids: seq<Id>) { forall id :: id in m ==> id in ids }

  lemma KnownUpdate<T>(m: map<Id, T>, ids: seq<Id>, i: nat, value: T)
    requires KnownKeys(m, ids) && i < |ids|
    ensures KnownKeys(m[ids[i] := value], ids)
  {
  }

  ghost predicate AllDoneTo(
      rows: seq<Row>, i: nat, ancestors: map<Id, seq<Id>>, descendants: map<Id, seq<Id>>, children: map<Id, nat>)
    requires i <= |rows|
  {
    && KnownKeys(ancestors, Ids(rows)) && KnownKeys(descendants, Ids(rows)) && KnownKeys(children, Ids(rows))
    && (forall j: nat :: j < |rows| ==> DoneTo(rows, i, j, ancestors, descendants, children))
  }

  /** The effect of row i on the lists of row j. */
  lemma DoneStep(
      rows: seq<Row>, i: nat, j: nat,
      ancestors: map<Id, seq<Id>>, descendants: map<Id, seq<Id>>, children: map<Id, nat>,
      ancestors': map<Id, seq<Id>>, descendants': map<Id, seq<Id>>, children': map<Id, nat>)
    requires DistinctIds(rows) && i < |rows| && j < |rows|
    requires DoneTo(rows, i, j, ancestors, descendants, children)
    requires ancestors' == ancestors[rows[i].id := Reversed(IdsAt(rows, AncestorStack(rows, i)))]
    requires rows[j].id in descendants'
    requires descendants'[rows[j].id] == descendants[rows[j].id] + if Ancestor(rows, j, i) then [rows[i].id] else []
    requires ChildCount(children', rows[j].id)
      == ChildCount(children, rows[j].id) + if DirectChild(rows, j, i) then 1 else 0
    requires rows[j].id in children' ==> children'[rows[j].id] > 0
    ensures DoneTo(rows, i + 1, j, ancestors', descendants', children')
  {
    if Ancestor(rows, j, i) { assert j < i; }
    assert descendants[rows[j].id] + [] == descendants[rows[j].id];
    assert rows[i].id == rows[j].id ==> i == j;
  }

  lemma ChainHas(rows: seq<Row>, i: nat, j: nat)
    requires DistinctIds(rows) && i < |rows| && j < |rows|
    ensures rows[j].id in IdsAt(rows, AncestorStack(rows, i)) <==> Ancestor(rows, j, i)
  {
    AncestorStackMeaning(rows, i);
    StackIdsDistinct(rows, AncestorStack(rows, i));
  }

  lemma ChildCountStep(rows: seq<Row>, i: nat, j: nat, children: map<Id, nat>)
    requires DistinctIds(rows) && i < |rows| && j < |rows|
    requires rows[j].id in children ==> children[rows[j].id] > 0
    ensures var children' := CountChild(rows, AncestorStack(rows, i), rows[i].depth, children);
      && ChildCount(children', rows[j].id)
        == ChildCount(children, rows[j].id) + (if DirectChild(rows, j, i) then 1 else 0)
      && (rows[j].id in children' ==> children'[rows[j].id] > 0)
  {
    InnermostParent(rows, i, j);
  }

  lemma DescribesWhenDone(rows: seq<Row>, h: Hierarchy, children: map<Id, nat>)
    requires DistinctIds(rows) && AllDoneTo(rows, |rows|, h.ancestors, h.descendants, children)
    requires h.rowIds == Ids(rows) && h.groupIds == children.Keys && h.leaves.Keys == h.groupIds
    requires forall g :: g in h.groupIds && g in h.descendants ==> h.leaves[g] == Without(h.descendants[g], h.groupIds)
    ensures Describes(rows, h)
  {
    forall j: nat | j < |rows| ensures rows[j].id in h.groupIds <==> HasChild(rows, j) {
      assert DoneTo(rows, |rows|, j, h.ancestors, h.descendants, children);
      ChildrenCounted(rows, j, |rows|);
    }
    forall j: nat | j < |rows| ensures DescribesRow(rows, h, j) {
      assert DoneTo(rows, |rows|, j, h.ancestors, h.descendants, children);
      WithoutGroups(rows, h.groupIds, j, |rows|);
    }
  }

  lemma NothingDone(rows: seq<Row>)
    ensures AllDoneTo(rows, 0, map[], map id | id in Ids(rows) :: [], map[])
  {
    assert forall j :: 0 <= j < |rows| ==> Ids(rows)[j] == rows[j].id;
  }

  lemma StackInDescendants(
      rows: seq<Row>, i: nat, stack: seq<nat>, ancestors: map<Id, seq<Id>>, descendants: map<Id, seq<Id>>,
      children: map<Id, nat>)
    requires i <= |rows| && AllDoneTo(rows, i, ancestors, descendants, children) && Deepening(rows, stack)
    ensures forall a :: 0 <= a < |stack| ==> IdsAt(rows, stack)[a] in descendants
  {
    forall a | 0 <= a < |stack| ensures IdsAt(rows, stack)[a] in descendants {
      assert DoneTo(rows, i, stack[a], ancestors, descendants, children);
    }
  }

  lemma AllDoneStep(
      rows: seq<Row>, i: nat, stack: seq<nat>, chain: seq<Id>,
      ancestors: map<Id, seq<Id>>, descendants: map<Id, seq<Id>>, children: map<Id, nat>,
      ancestors': map<Id, seq<Id>>, descendants': map<Id, seq<Id>>, children': map<Id, nat>)
    requires DistinctIds(rows) && i < |rows| && AllDoneTo(rows, i, ancestors, descendants, children)
    requires stack == AncestorStack(rows, i) && chain == IdsAt(rows, stack)
    requires ancestors' == ancestors[rows[i].id := Reversed(chain)]
    requires descendants'.Keys == descendants.Keys
    requires forall x :: x in descendants ==>
      descendants'[x] == descendants[x] + if x in chain then [rows[i].id] else []
    requires children' == CountChild(rows, stack, rows[i].depth, children)
    ensures AllDoneTo(rows, i + 1, ancestors', descendants', children')
  {
    KnownUpdate(ancestors, Ids(rows), i, Reversed(chain));
    if stack != [] {
      KnownUpdate(children, Ids(rows), Last(stack), ChildCount(children, rows[Last(stack)].id) + 1);
    }
    var n := i + 1;
    forall j: nat | j < |rows| ensures DoneTo(rows, n, j, ancestors', descendants', children') {
      assert DoneTo(rows, i, j, ancestors, descendants, children);
      ChainHas(rows, i, j);
      ChildCountStep(rows, i, j, children);
      DoneStep(rows, i, j, ancestors, descendants, children, ancestors', descendants', children');
    }
  }

  /**
   Enters one row: pops what it does not lie below, then records its ancestors, its descent and its parent's child.
   */
  method EnterRow(
      rows: seq<Row>, i: nat, open: seq<nat>, ancestors: map<Id, seq<Id>>, descendants: map<Id, seq<Id>>,
      children: map<Id, nat>)
    returns (open': seq<nat>, ancestors': map<Id, seq<Id>>, descendants': map<Id, seq<Id>>, children': map<Id, nat>)
    requires DistinctIds(rows) && i < |rows| && open == Stack(rows, i)
    requires AllDoneTo(rows, i, ancestors, descendants, children)
    ensures open' == Stack(rows, i + 1) && AllDoneTo(rows, i + 1, ancestors', descendants', children')
  {
    hide AllDoneTo, Deepening, CountChild, Reversed;
    var row := rows[i];
    var stack := PopDeeper(rows, open, row.depth);
    AncestorStackMeaning(rows, i);
    StackIdsDistinct(rows, stack);
    StackInDescendants(rows, i, stack, ancestors, descendants, children);
    var chain := IdsAt(rows, stack);
    ancestors' := ancestors[row.id := Reversed(chain)];
    descendants' := PushToAll(descendants, chain, row.id);
    children' := CountChild(rows, stack, row.depth, children);
    AllDoneStep(rows, i, stack, chain, ancestors, descendants, children, ancestors', descendants', children');
    StackStep(rows, i);
    open' := stack + [i];
  }

  method BuildHierarchy(rows: seq<Row>) returns (h: Hierarchy)
    requires DistinctIds(rows)
    ensures Describes(rows, h)
  {
    var ids := Ids(rows);
    var ancestors: map<Id, seq<Id>> := map[];
    var descendants: map<Id, seq<Id>> := map id | id in ids :: [];
    var children: map<Id, nat> := map[];
    var stack: seq<nat> := [];
    NothingDone(rows);
    hide AllDoneTo, Describes;
    for i := 0 to |rows|
      invariant stack == Stack(rows, i)
      invariant AllDoneTo(rows, i, ancestors, descendants, children)
    {
      stack, ancestors, descendants, children := EnterRow(rows, i, stack, ancestors, descendants, children);
    }
    var groups := children.Keys;
    GroupsHaveDescendants(rows, ancestors, descendants, children);
    var leaves := map g | g in groups && g in descendants :: Without(descendants[g], groups);
    h := Hierarchy(ids, groups, descendants, leaves, ancestors);
    DescribesWhenDone(rows, h, children);
  }

  lemma GroupsHaveDescendants(
      rows: seq<Row>, ancestors: map<Id, seq<Id>>, descendants: map<Id, seq<Id>>, children: map<Id, nat>)
    requires AllDoneTo(rows, |rows|, ancestors, descendants, children)
    ensures children.Keys <= descendants.Keys
  {
    forall g | g in children ensures g in descendants {
      var j :| 0 <= j < |rows| && Ids(rows)[j] == g;
      assert DoneTo(rows, |rows|, j, ancestors, descendants, children);
    }
  }

  lemma InReversed<T>(s: seq<T>, x: T)
    ensures x in Reversed(s) <==> x in s
  {
    if x in s {
      var k :| 0 <= k < |s| && s[k] == x;
      assert Reversed(s)[|s| - 1 - k] == x;
    }
  }

  lemma AncestorIdsMeaning(rows: seq<Row>, h: Hierarchy, j: int, i: nat)
    requires Describes(rows, h) && 0 <= j < |rows| && i < |rows|
    ensures rows[i].id in h.ancestors && DescribesRow(rows, h, i)
    ensures rows[j].id in h.ancestors[rows[i].id] <==> Ancestor(rows, j, i)
  {
    assert DescribesRow(rows, h, i);
    AncestorStackMeaning(rows, i);
    StackIdsDistinct(rows, AncestorStack(rows, i));
    InReversed(IdsAt(rows, AncestorStack(rows, i)), rows[j].id);
  }

  // ---------------------------------------------------------------- checkbox states

  datatype CheckState = CheckState(checked: bool, mixed: bool)

  function CountIn(ids: seq<Id>, selected: set<Id>): nat {
    if ids == [] then 0
    else CountIn(ids[..|ids| - 1], selected) + if ids[|ids| - 1] in selected then 1 else 0
  }

  function CheckOf(leaves: seq<Id>, count: nat, self: bool): CheckState {
    if leaves == [] then CheckState(self, false) else CheckState(count == |leaves|, 0 < count < |leaves|)
  }

  function ListAt(lists: map<Id, seq<Id>>, id: Id): seq<Id> { if id in lists then lists[id] else [] }

  /** The simple form: the state of one row from the leaves below it. */
  function RowCheck(h: Hierarchy, id: Id, selected: set<Id>): CheckState {
    CheckOf(ListAt(h.leaves, id), CountIn(ListAt(h.leaves, id), selected), id in selected)
  }

  method BumpAll(counts: map<Id, nat>, keys: seq<Id>) returns (result: map<Id, nat>)
    requires forall a, b :: 0 <= a < b < |keys| ==> keys[a] != keys[b]
    ensures result.Keys == counts.Keys
    ensures forall x :: x in counts ==> result[x] == counts[x] + if x in keys then 1 else 0
  {
    result := counts;
    for a := 0 to |keys|
      invariant result.Keys == counts.Keys
      invariant forall x :: x in counts ==> result[x] == counts[x] + if x in keys[..a] then 1 else 0
    {
      assert keys[a] !in keys[..a];
      assert keys[..a + 1] == keys[..a] + [keys[a]];
      if keys[a] in result {
        result := result[keys[a] := result[keys[a]] + 1];
      }
    }
    assert keys[..|keys|] == keys;
  }

  ghost predicate CountedTo(rows: seq<Row>, n: nat, selected: set<Id>, counts: map<Id, nat>)
    requires n <= |rows|
  {
    forall j: nat :: j < |rows| && HasChild(rows, j) ==>
      rows[j].id in counts && counts[rows[j].id] == CountIn(LeafIds(rows, j, n), selected)
  }

  lemma CountOneMore(ids: seq<Id>, id: Id, selected: set<Id>)
    ensures CountIn(ids + [id], selected) == CountIn(ids, selected) + if id in selected then 1 else 0
  {
    assert (ids + [id])[..|ids|] == ids;
  }

  lemma CountLeavesStep(rows: seq<Row>, j: int, n: nat, selected: set<Id>)
    requires n < |rows|
    ensures CountIn(LeafIds(rows, j, n + 1), selected) == CountIn(LeafIds(rows, j, n), selected)
      + if Ancestor(rows, j, n) && !HasChild(rows, n) && rows[n].id in selected then 1 else 0
  {
    var before := LeafIds(rows, j, n);
    CountOneMore(before, rows[n].id, selected);
    assert before + [] == before;
  }

  lemma AncestorIdsDistinct(rows: seq<Row>, h: Hierarchy, i: nat)
    requires Describes(rows, h) && i < |rows|
    ensures rows[i].id in h.ancestors
    ensures var ids := h.ancestors[rows[i].id]; forall a, b :: 0 <= a < b < |ids| ==> ids[a] != ids[b]
  {
    assert DescribesRow(rows, h, i);
    AncestorStackMeaning(rows, i);
    StackIdsDistinct(rows, AncestorStack(rows, i));
  }

  lemma CountedStep(rows: seq<Row>, h: Hierarchy, n: nat, selected: set<Id>, 
      counts: map<Id, nat>, counts': map<Id, nat>)
    requires Describes(rows, h) && n < |rows| && CountedTo(rows, n, selected, counts)
    requires rows[n].id in h.ancestors && counts'.Keys == counts.Keys
    requires forall x :: x in counts ==>
      counts'[x] == counts[x]
        + if x in h.ancestors[rows[n].id] && rows[n].id !in h.groupIds && rows[n].id in selected then 1 else 0
    ensures CountedTo(rows, n + 1, selected, counts')
  {
    forall j: nat | j < |rows| && HasChild(rows, j)
      ensures rows[j].id in counts' && counts'[rows[j].id] == CountIn(LeafIds(rows, j, n + 1), selected)
    {
      AncestorIdsMeaning(rows, h, j, n);
      CountLeavesStep(rows, j, n, selected);
    }
  }

  lemma CountedIsCheck(rows: seq<Row>, h: Hierarchy, id: Id, selected: set<Id>, counts: map<Id, nat>)
    requires Describes(rows, h) && id in h.rowIds && CountedTo(rows, |rows|, selected, counts)
    ensures CheckOf(ListAt(h.leaves, id), ChildCount(counts, id), id in selected) == RowCheck(h, id, selected)
  {
    var j: nat :| j < |rows| && h.rowIds[j] == id;
    assert DescribesRow(rows, h, j);
  }

  lemma RowIdsListed(rows: seq<Row>, h: Hierarchy)
    requires Describes(rows, h)
    ensures |rows| == |h.rowIds|
    ensures forall k :: 0 <= k < |rows| ==> h.rowIds[k] == rows[k].id && h.rowIds[k] in h.ancestors
  {
    forall k | 0 <= k < |rows| ensures h.rowIds[k] == rows[k].id && h.rowIds[k] in h.ancestors {
      assert DescribesRow(rows, h, k);
    }
  }

  /** Counts, for every group, its selected leaves in one pass over the rows. */
  method CountSelectedLeaves(h: Hierarchy, selected: set<Id>, ghost rows: seq<Row>) returns (counts: map<Id, nat>)
    requires Describes(rows, h)
    ensures counts.Keys == h.groupIds && CountedTo(rows, |rows|, selected, counts)
  {
    counts := map g | g in h.groupIds :: 0;
    assert CountedTo(rows, 0, selected, counts) by {
      forall j: nat | j < |rows| && HasChild(rows, j) ensures rows[j].id in counts { assert DescribesRow(rows, h, j); }
    }
    RowIdsListed(rows, h);
    hide CountedTo, Describes;
    for n := 0 to |h.rowIds|
      invariant counts.Keys == h.groupIds
      invariant CountedTo(rows, n, selected, counts)
    {
      var id := h.rowIds[n];
      AncestorIdsDistinct(rows, h, n);
      ghost var before := counts;
      if !(id in h.groupIds || id !in selected) {
        counts := BumpAll(counts, h.ancestors[id]);
      }
      CountedStep(rows, h, n, selected, before, counts);
    }
  }

  /** The counting form: one pass over the selected leaves gives every row the state of the simple form. */
  method AllChecks(h: Hierarchy, selected: set<Id>, ghost rows: seq<Row>) returns (states: map<Id, CheckState>)
    requires Describes(rows, h)
    ensures states.Keys == (set id | id in h.rowIds)
    ensures forall id :: id in h.rowIds ==> states[id] == RowCheck(h, id, selected)
  {
    var counts := CountSelectedLeaves(h, selected, rows);
    states := map id | id in h.rowIds ::
      CheckOf(ListAt(h.leaves, id), ChildCount(counts, id), id in selected);
    hide CountedTo, Describes, RowCheck, CheckOf, ChildCount;
    forall id | id in h.rowIds ensures states[id] == RowCheck(h, id, selected) {
      CountedIsCheck(rows, h, id, selected, counts);
    }
  }

  // ---------------------------------------------------------------- toggling

  /** The row switched by a toggle: a group with all that lies below it, any other row alone. */
  function Closure(h: Hierarchy, id: Id): seq<Id> {
    if id in h.groupIds then [id] + ListAt(h.descendants, id) else [id]
  }

  function Switched(h: Hierarchy, id: Id, selected: set<Id>): set<Id> {
    var closure := set x | x in Closure(h, id);
    if RowCheck(h, id, selected).checked then selected - closure else selected + closure
  }

  /** Every group among the ids selected exactly when it has leaves and all are selected. */
  function Regrouped(h: Hierarchy, ids: seq<Id>, selected: set<Id>): set<Id> {
    if ids == [] then selected
    else if ids[0] !in h.groupIds then Regrouped(h, ids[1..], selected)
    else
      var leaves := ListAt(h.leaves, ids[0]);
      var full := leaves != [] && forall l :: l in leaves ==> l in selected;
      Regrouped(h, ids[1..], if full then selected + {ids[0]} else selected - {ids[0]})
  }

  function Toggled(h: Hierarchy, id: Id, selected: set<Id>): set<Id> {
    Regrouped(h, ListAt(h.ancestors, id), Switched(h, id, selected))
  }

  function RowsIn(ids: seq<Id>, selected: set<Id>): (r: seq<Id>)
    ensures forall x :: x in r <==> x in ids && x in selected
  {
    if ids == [] then []
    else (if ids[0] in selected then [ids[0]] else []) + RowsIn(ids[1..], selected)
  }

  method Toggle(h: Hierarchy, id: Id, selection: set<Id>) returns (result: seq<Id>)
    ensures result == RowsIn(h.rowIds, Toggled(h, id, selection))
  {
    hide RowCheck, Closure, ListAt;
    var selected := selection;
    var checked := RowCheck(h, id, selected).checked;
    var closure := Closure(h, id);
    for k := 0 to |closure|
      invariant selected
        == var part := set x | x in closure[..k]; if checked then selection - part else selection + part
    {
      assert closure[..k + 1] == closure[..k] + [closure[k]];
      selected := if checked then selected - {closure[k]} else selected + {closure[k]};
    }
    assert closure[..|closure|] == closure;
    var ancestors := ListAt(h.ancestors, id);
    for k := 0 to |ancestors|
      invariant Regrouped(h, ancestors[k..], selected) == Toggled(h, id, selection)
    {
      assert ancestors[k..][1..] == ancestors[k + 1..];
      var n := ancestors[k];
      if n !in h.groupIds { continue; }
      var leaves := ListAt(h.leaves, n);
      if leaves != [] && forall l :: l in leaves ==> l in selected {
        selected := selected + {n};
      } else {
        selected := selected - {n};
      }
    }
    result := RowsIn(h.rowIds, selected);
  }
}
