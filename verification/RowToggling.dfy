/** Laws of selection toggling over the tree of rows. */
module RowToggling {
  import opened RowTree
  import opened RowSelection

  ghost predicate Leaf(rows: seq<Row>, j: int, i: int) { Ancestor(rows, j, i) && !HasChild(rows, i) }

  ghost predicate AllLeavesIn(rows: seq<Row>, j: int, selected: set<Id>) {
    forall i :: Leaf(rows, j, i) ==> rows[i].id in selected
  }

  ghost predicate SomeLeafIn(rows: seq<Row>, j: int, selected: set<Id>) {
    exists i :: Leaf(rows, j, i) && rows[i].id in selected
  }

  /** Every group is selected exactly when all of its leaves are. */
  ghost predicate Consistent(rows: seq<Row>, selected: set<Id>) {
    forall j :: 0 <= j < |rows| && HasChild(rows, j) ==> (rows[j].id in selected <==> AllLeavesIn(rows, j, selected))
  }

  /** The rows switched along with row e. */
  ghost predicate InClosure(rows: seq<Row>, e: int, j: int) {
    j == e || (HasChild(rows, e) && Ancestor(rows, e, j))
  }

  lemma {:induction false} CountAll(ids: seq<Id>, selected: set<Id>)
    ensures CountIn(ids, selected) <= |ids|
    ensures CountIn(ids, selected) == |ids| <==> forall x :: x in ids ==> x in selected
  {
    if ids != [] {
      var init, last := ids[..|ids| - 1], ids[|ids| - 1];
      CountAll(init, selected);
      assert ids == init + [last];
      assert last in ids && forall x :: x in ids <==> x in init || x == last;
    }
  }

  lemma {:induction false} CountSome(ids: seq<Id>, selected: set<Id>)
    ensures CountIn(ids, selected) > 0 <==> exists x :: x in ids && x in selected
  {
    if ids != [] {
      var init, last := ids[..|ids| - 1], ids[|ids| - 1];
      CountSome(init, selected);
      assert ids == init + [last];
      assert last in ids && forall x :: x in ids <==> x in init || x == last;
    }
  }

  lemma CountBounds(ids: seq<Id>, selected: set<Id>)
    ensures CountIn(ids, selected) <= |ids|
    ensures CountIn(ids, selected) == |ids| <==> forall x :: x in ids ==> x in selected
    ensures CountIn(ids, selected) > 0 <==> exists x :: x in ids && x in selected
  {
    CountAll(ids, selected);
    CountSome(ids, selected);
    hide CountIn;
  }

  lemma LeafIdsMeaning(rows: seq<Row>, h: Hierarchy, j: nat, selected: set<Id>)
    requires Describes(rows, h) && j < |rows| && HasChild(rows, j)
    ensures ListAt(h.leaves, rows[j].id) == LeafIds(rows, j, |rows|) != []
    ensures (forall l :: l in LeafIds(rows, j, |rows|) ==> l in selected) <==> AllLeavesIn(rows, j, selected)
    ensures (exists l :: l in LeafIds(rows, j, |rows|) && l in selected) <==> SomeLeafIn(rows, j, selected)
  {
    assert DescribesRow(rows, h, j);
    GroupHasLeaf(rows, j);
    var leaves := LeafIds(rows, j, |rows|);
    forall i | Leaf(rows, j, i) ensures rows[i].id in leaves {
      InLeafIds(rows, j, |rows|, rows[i].id);
    }
    forall l | l in leaves ensures exists i :: Leaf(rows, j, i) && rows[i].id == l {
      InLeafIds(rows, j, |rows|, l);
      var i :| 0 <= i < |rows| && rows[i].id == l && Ancestor(rows, j, i) && !HasChild(rows, i);
      assert Leaf(rows, j, i);
    }
  }

  /** The checkbox of a group: checked when all leaves are selected, mixed when only some are. */
  lemma CheckMeaning(rows: seq<Row>, h: Hierarchy, j: nat, selected: set<Id>)
    requires Describes(rows, h) && j < |rows|
    ensures var state := RowCheck(h, rows[j].id, selected);
      if HasChild(rows, j) then
        && state.checked == AllLeavesIn(rows, j, selected)
        && state.mixed == (SomeLeafIn(rows, j, selected) && !AllLeavesIn(rows, j, selected))
      else state == CheckState(rows[j].id in selected, false)
  {
    assert DescribesRow(rows, h, j);
    if HasChild(rows, j) {
      LeafIdsMeaning(rows, h, j, selected);
      CountBounds(ListAt(h.leaves, rows[j].id), selected);
    }
  }

  lemma SomeLeaf(rows: seq<Row>, j: int) returns (i: int)
    requires HasChild(rows, j)
    ensures Leaf(rows, j, i)
  {
    var c :| DirectChild(rows, j, c);
    i := DeepestDescendant(rows, j, c);
  }

  // ---------------------------------------------------------------- what a toggle does to each row

  lemma SwitchedMeaning(rows: seq<Row>, h: Hierarchy, e: nat, j: nat, selected: set<Id>)
    requires Describes(rows, h) && e < |rows| && j < |rows|
    ensures rows[j].id in Switched(h, rows[e].id, selected) <==>
      if InClosure(rows, e, j) then !RowCheck(h, rows[e].id, selected).checked else rows[j].id in selected
  {
    assert DescribesRow(rows, h, e);
    InDescendantIds(rows, e, |rows|, rows[j].id);
    var closure := Closure(h, rows[e].id);
    assert rows[j].id in closure <==> InClosure(rows, e, j);
  }

  ghost predicate LeavesArePlain(h: Hierarchy) {
    forall g, l :: g in h.leaves && l in h.leaves[g] ==> l !in h.groupIds
  }

  lemma DescribedLeavesArePlain(rows: seq<Row>, h: Hierarchy)
    requires Describes(rows, h)
    ensures LeavesArePlain(h)
  {
    forall g, l | g in h.leaves && l in h.leaves[g] ensures l !in h.groupIds {
      var j: nat :| j < |rows| && h.rowIds[j] == g;
      assert DescribesRow(rows, h, j);
      InLeafIds(rows, j, |rows|, l);
      var i: nat :| i < |rows| && rows[i].id == l && Ancestor(rows, j, i) && !HasChild(rows, i);
      assert DescribesRow(rows, h, i);
    }
  }

  predicate Full(h: Hierarchy, g: Id, selected: set<Id>) {
    ListAt(h.leaves, g) != [] && forall l :: l in ListAt(h.leaves, g) ==> l in selected
  }

  lemma {:induction false} RegroupedMeaning(h: Hierarchy, ids: seq<Id>, selected: set<Id>, x: Id)
    requires LeavesArePlain(h)
    ensures x in Regrouped(h, ids, selected) <==>
      if x in ids && x in h.groupIds then Full(h, x, selected) else x in selected
    decreases |ids|
  {
    if ids != [] {
      var g := ids[0];
      assert x in ids <==> x == g || x in ids[1..];
      if g !in h.groupIds {
        RegroupedMeaning(h, ids[1..], selected, x);
      } else {
        var next := if Full(h, g, selected) then selected + {g} else selected - {g};
        RegroupedMeaning(h, ids[1..], next, x);
        assert forall l :: l in ListAt(h.leaves, x) ==> l != g;
      }
    }
  }

  /** Rows of the closure take the new state, groups above it follow their leaves, all others stay. */
  lemma ToggledMeaning(rows: seq<Row>, h: Hierarchy, e: nat, j: nat, selected: set<Id>)
    requires Describes(rows, h) && e < |rows| && j < |rows|
    ensures rows[j].id in Toggled(h, rows[e].id, selected) <==>
      if Ancestor(rows, j, e) && HasChild(rows, j) then AllLeavesIn(rows, j, Switched(h, rows[e].id, selected))
      else if InClosure(rows, e, j) then !RowCheck(h, rows[e].id, selected).checked
      else rows[j].id in selected
  {
    var switched := Switched(h, rows[e].id, selected);
    DescribedLeavesArePlain(rows, h);
    AncestorIdsMeaning(rows, h, j, e);
    assert DescribesRow(rows, h, j);
    RegroupedMeaning(h, h.ancestors[rows[e].id], switched, rows[j].id);
    SwitchedMeaning(rows, h, e, j, selected);
    if HasChild(rows, j) { LeafIdsMeaning(rows, h, j, switched); }
  }

  /** Leaves are never regrouped. */
  lemma ToggledLeaf(rows: seq<Row>, h: Hierarchy, e: nat, i: nat, selected: set<Id>)
    requires Describes(rows, h) && e < |rows| && i < |rows| && !HasChild(rows, i)
    ensures rows[i].id in Toggled(h, rows[e].id, selected) <==>
      if InClosure(rows, e, i) then !RowCheck(h, rows[e].id, selected).checked else rows[i].id in selected
    ensures rows[i].id in Toggled(h, rows[e].id, selected) <==> rows[i].id in Switched(h, rows[e].id, selected)
  {
    ToggledMeaning(rows, h, e, i, selected);
    SwitchedMeaning(rows, h, e, i, selected);
  }

  // ---------------------------------------------------------------- the invariant

  lemma ConsistentInside(rows: seq<Row>, h: Hierarchy, e: nat, j: nat, selected: set<Id>)
    requires Describes(rows, h) && e < |rows| && j < |rows| && HasChild(rows, j) && InClosure(rows, e, j)
    ensures var after := Toggled(h, rows[e].id, selected); rows[j].id in after <==> AllLeavesIn(rows, j, after)
  {
    var after := Toggled(h, rows[e].id, selected);
    ToggledMeaning(rows, h, e, j, selected);
    forall i | Leaf(rows, j, i)
      ensures rows[i].id in after <==> !RowCheck(h, rows[e].id, selected).checked
    {
      if j != e { AncestorTransitive(rows, e, j, i); }
      ToggledLeaf(rows, h, e, i, selected);
    }
    var i := SomeLeaf(rows, j);
  }

  lemma ConsistentAbove(rows: seq<Row>, h: Hierarchy, e: nat, j: nat, selected: set<Id>)
    requires Describes(rows, h) && e < |rows| && j < |rows| && HasChild(rows, j) && Ancestor(rows, j, e)
    ensures var after := Toggled(h, rows[e].id, selected); rows[j].id in after <==> AllLeavesIn(rows, j, after)
  {
    var after, switched := Toggled(h, rows[e].id, selected), Switched(h, rows[e].id, selected);
    ToggledMeaning(rows, h, e, j, selected);
    forall i | Leaf(rows, j, i) ensures rows[i].id in after <==> rows[i].id in switched {
      ToggledLeaf(rows, h, e, i, selected);
    }
  }

  lemma ConsistentElsewhere(rows: seq<Row>, h: Hierarchy, e: nat, j: nat, selected: set<Id>)
    requires Describes(rows, h) && e < |rows| && j < |rows| && HasChild(rows, j) && Consistent(rows, selected)
    requires !InClosure(rows, e, j) && !Ancestor(rows, j, e)
    ensures var after := Toggled(h, rows[e].id, selected); rows[j].id in after <==> AllLeavesIn(rows, j, after)
  {
    var after := Toggled(h, rows[e].id, selected);
    ToggledMeaning(rows, h, e, j, selected);
    forall i | Leaf(rows, j, i) ensures rows[i].id in after <==> rows[i].id in selected {
      if Ancestor(rows, e, i) { AncestorsNest(rows, e, j, i); }
      ToggledLeaf(rows, h, e, i, selected);
    }
  }

  /** Toggling any row keeps every group selected exactly when all of its leaves are. */
  lemma TogglePreservesConsistency(rows: seq<Row>, h: Hierarchy, e: nat, selected: set<Id>)
    requires Describes(rows, h) && e < |rows| && Consistent(rows, selected)
    ensures Consistent(rows, Toggled(h, rows[e].id, selected))
  {
    var after := Toggled(h, rows[e].id, selected);
    forall j | 0 <= j < |rows| && HasChild(rows, j) ensures rows[j].id in after <==> AllLeavesIn(rows, j, after) {
      if InClosure(rows, e, j) {
        ConsistentInside(rows, h, e, j, selected);
      } else if Ancestor(rows, j, e) {
        ConsistentAbove(rows, h, e, j, selected);
      } else {
        ConsistentElsewhere(rows, h, e, j, selected);
      }
    }
  }

  // ---------------------------------------------------------------- toggling twice

  /** In a consistent selection the closure of a row that is not mixed is selected as one. */
  lemma ClosureIsUniform(rows: seq<Row>, h: Hierarchy, e: nat, j: nat, selected: set<Id>)
    requires Describes(rows, h) && e < |rows| && j < |rows| && Consistent(rows, selected) && InClosure(rows, e, j)
    requires !RowCheck(h, rows[e].id, selected).mixed
    ensures rows[j].id in selected <==> RowCheck(h, rows[e].id, selected).checked
  {
    CheckMeaning(rows, h, e, selected);
    if HasChild(rows, j) {
      forall i | Leaf(rows, j, i) ensures Leaf(rows, e, i) {
        if j != e { AncestorTransitive(rows, e, j, i); }
      }
      var i := SomeLeaf(rows, j);
    } else if j != e {
      assert Leaf(rows, e, j);
    }
  }

  lemma CheckFlips(rows: seq<Row>, h: Hierarchy, e: nat, selected: set<Id>)
    requires Describes(rows, h) && e < |rows|
    ensures var after := Toggled(h, rows[e].id, selected);
      RowCheck(h, rows[e].id, after) == CheckState(!RowCheck(h, rows[e].id, selected).checked, false)
  {
    var after := Toggled(h, rows[e].id, selected);
    CheckMeaning(rows, h, e, after);
    if HasChild(rows, e) {
      forall i | Leaf(rows, e, i) ensures rows[i].id in after <==> !RowCheck(h, rows[e].id, selected).checked {
        ToggledLeaf(rows, h, e, i, selected);
      }
      var i := SomeLeaf(rows, e);
    } else {
      ToggledLeaf(rows, h, e, e, selected);
    }
  }

  lemma TwiceRestores(rows: seq<Row>, h: Hierarchy, e: nat, j: nat, selected: set<Id>)
    requires Describes(rows, h) && e < |rows| && j < |rows| && Consistent(rows, selected)
    requires !RowCheck(h, rows[e].id, selected).mixed
    ensures rows[j].id in Toggled(h, rows[e].id, Toggled(h, rows[e].id, selected)) <==> rows[j].id in selected
  {
    var once := Toggled(h, rows[e].id, selected);
    CheckFlips(rows, h, e, selected);
    ToggledMeaning(rows, h, e, j, once);
    ToggledMeaning(rows, h, e, j, selected);
    if Ancestor(rows, j, e) && HasChild(rows, j) {
      var switched := Switched(h, rows[e].id, once);
      forall i | Leaf(rows, j, i) ensures rows[i].id in switched <==> rows[i].id in selected {
        SwitchedMeaning(rows, h, e, i, once);
        ToggledLeaf(rows, h, e, i, selected);
        if InClosure(rows, e, i) { ClosureIsUniform(rows, h, e, i, selected); }
      }
    } else if InClosure(rows, e, j) {
      ClosureIsUniform(rows, h, e, j, selected);
    }
  }

  lemma TwiceClearsMixed(rows: seq<Row>, h: Hierarchy, e: nat, selected: set<Id>)
    requires Describes(rows, h) && e < |rows| && RowCheck(h, rows[e].id, selected).mixed
    ensures var twice := Toggled(h, rows[e].id, Toggled(h, rows[e].id, selected));
      exists i :: 0 <= i < |rows| && rows[i].id in selected && rows[i].id !in twice
  {
    var once := Toggled(h, rows[e].id, selected);
    CheckMeaning(rows, h, e, selected);
    CheckFlips(rows, h, e, selected);
    var i :| Leaf(rows, e, i) && rows[i].id in selected;
    ToggledLeaf(rows, h, e, i, once);
  }

  lemma ToggledStaysInTable(rows: seq<Row>, h: Hierarchy, e: nat, selected: set<Id>)
    requires Describes(rows, h) && e < |rows|
    requires forall id :: id in selected ==> id in h.rowIds
    ensures forall id :: id in Toggled(h, rows[e].id, selected) ==> id in h.rowIds
  {
    assert DescribesRow(rows, h, e);
    DescribedLeavesArePlain(rows, h);
    forall id | id in Toggled(h, rows[e].id, selected) ensures id in h.rowIds {
      RegroupedMeaning(h, h.ancestors[rows[e].id], Switched(h, rows[e].id, selected), id);
      InDescendantIds(rows, e, |rows|, id);
      if id !in h.groupIds && id in Closure(h, rows[e].id) {
        var i: nat :| i < |rows| && rows[i].id == id;
        assert h.rowIds[i] == id;
      }
    }
  }

  /** Toggling a row twice gives back a consistent selection exactly when the row was not mixed. */
  lemma ToggleTwice(rows: seq<Row>, h: Hierarchy, e: nat, selected: set<Id>)
    requires Describes(rows, h) && e < |rows| && Consistent(rows, selected)
    requires forall id :: id in selected ==> id in h.rowIds
    ensures Toggled(h, rows[e].id, Toggled(h, rows[e].id, selected)) == selected
      <==> !RowCheck(h, rows[e].id, selected).mixed
  {
    var once := Toggled(h, rows[e].id, selected);
    var twice := Toggled(h, rows[e].id, once);
    ToggledStaysInTable(rows, h, e, selected);
    ToggledStaysInTable(rows, h, e, once);
    if RowCheck(h, rows[e].id, selected).mixed {
      TwiceClearsMixed(rows, h, e, selected);
    } else {
      forall id ensures id in twice <==> id in selected {
        if id in h.rowIds {
          var j: nat :| j < |rows| && h.rowIds[j] == id;
          TwiceRestores(rows, h, e, j, selected);
        }
      }
    }
  }
}
