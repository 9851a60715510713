/**
 The tree that a list of rows with depths describes: a row is an ancestor of a later row when every
 row after it, up to and including the later one, lies deeper. Stacks of open rows compute it in one pass.
 */
module RowTree {

  datatype Id = Id(text: string)

  datatype Row = Row(id: Id, depth: nat)

  ghost predicate Ancestor(rows: seq<Row>, j: int, i: int) {
    0 <= j < i < |rows| && forall k :: j < k <= i ==> rows[j].depth < rows[k].depth
  }

  ghost predicate DirectChild(rows: seq<Row>, j: int, i: int) {
    Ancestor(rows, j, i) && rows[j].depth + 1 == rows[i].depth
  }

  ghost predicate HasChild(rows: seq<Row>, j: int) { exists i :: DirectChild(rows, j, i) }

  /** Rows among the first n that a row at index n may still have as ancestors. */
  ghost predicate Open(rows: seq<Row>, j: int, n: int) {
    0 <= j < n <= |rows| && forall k :: j < k < n ==> rows[j].depth < rows[k].depth
  }

  lemma AncestorTransitive(rows: seq<Row>, a: int, b: int, c: int)
    requires Ancestor(rows, a, b) && Ancestor(rows, b, c)
    ensures Ancestor(rows, a, c)
  {
    forall k | a < k <= c ensures rows[a].depth < rows[k].depth {
      assert b < k ==> rows[b].depth < rows[k].depth;
    }
  }

  lemma AncestorsNest(rows: seq<Row>, a: int, b: int, c: int)
    requires Ancestor(rows, a, c) && Ancestor(rows, b, c)
    ensures a == b || Ancestor(rows, a, b) || Ancestor(rows, b, a)
  {
  }

  // ---------------------------------------------------------------- stacks

  function Last<T>(s: seq<T>): T
    requires s != []
  {
    s[|s| - 1]
  }

  /** Pops indexes of rows that are at least as deep as d. */
  function PopTo(rows: seq<Row>, stack: seq<nat>, d: nat): (r: seq<nat>)
    requires forall k :: 0 <= k < |stack| ==> stack[k] < |rows|
    ensures r <= stack
  {
    if stack != [] && rows[Last(stack)].depth >= d then PopTo(rows, stack[..|stack| - 1], d) else stack
  }

  /** The stack after the first n rows. */
  function Stack(rows: seq<Row>, n: nat): (s: seq<nat>)
    requires n <= |rows|
    ensures forall k :: 0 <= k < |s| ==> s[k] < n
  {
    if n == 0 then [] else PopTo(rows, Stack(rows, n - 1), rows[n - 1].depth) + [n - 1]
  }

  function AncestorStack(rows: seq<Row>, i: nat): (s: seq<nat>)
    requires i < |rows|
    ensures forall k :: 0 <= k < |s| ==> s[k] < i
  {
    PopTo(rows, Stack(rows, i), rows[i].depth)
  }

  ghost predicate Deepening(rows: seq<Row>, stack: seq<nat>) {
    && (forall k :: 0 <= k < |stack| ==> stack[k] < |rows|)
    && (forall a, b :: 0 <= a < b < |stack| ==> stack[a] < stack[b] && rows[stack[a]].depth < rows[stack[b]].depth)
  }

  lemma InAllButLast(stack: seq<nat>, j: nat)
    requires stack != []
    ensures j in stack <==> j in stack[..|stack| - 1] || j == Last(stack)
  {
    assert stack == stack[..|stack| - 1] + [Last(stack)];
  }

  lemma {:induction false} PopToMeaning(rows: seq<Row>, stack: seq<nat>, d: nat)
    requires Deepening(rows, stack)
    ensures Deepening(rows, PopTo(rows, stack, d))
    ensures forall j :: j in PopTo(rows, stack, d) <==> j in stack && rows[j].depth < d
  {
    if stack != [] && rows[Last(stack)].depth >= d {
      PopToMeaning(rows, stack[..|stack| - 1], d);
      forall j ensures j in PopTo(rows, stack, d) <==> j in stack && rows[j].depth < d {
        if j >= 0 { InAllButLast(stack, j); }
      }
    } else {
      forall j | j in stack ensures rows[j].depth < d {
        var k :| 0 <= k < |stack| && stack[k] == j;
        assert k == |stack| - 1 || stack[k] < Last(stack);
      }
    }
  }

  lemma {:induction false} PopToShallower(rows: seq<Row>, stack: seq<nat>, d: nat)
    requires Deepening(rows, stack)
    ensures Deepening(rows, PopTo(rows, stack, d))
    ensures forall k :: 0 <= k < |PopTo(rows, stack, d)| ==> rows[PopTo(rows, stack, d)[k]].depth < d
  {
    if stack != [] && rows[Last(stack)].depth >= d {
      PopToShallower(rows, stack[..|stack| - 1], d);
    }
  }

  lemma {:induction false} StackDeepens(rows: seq<Row>, n: nat)
    requires n <= |rows|
    ensures Deepening(rows, Stack(rows, n))
  {
    if n > 0 {
      var before, d := Stack(rows, n - 1), rows[n - 1].depth;
      StackDeepens(rows, n - 1);
      PopToShallower(rows, before, d);
      PushDeeper(rows, PopTo(rows, before, d), n - 1);
    }
  }

  /** The stack holds exactly the open rows. */
  lemma {:induction false} InStack(rows: seq<Row>, n: nat, j: nat)
    requires n <= |rows|
    ensures j in Stack(rows, n) <==> Open(rows, j, n)
  {
    if n > 0 {
      var before := Stack(rows, n - 1);
      InStack(rows, n - 1, j);
      StackDeepens(rows, n - 1);
      PopToMeaning(rows, before, rows[n - 1].depth);
      InPushed(PopTo(rows, before, rows[n - 1].depth), n - 1, j);
      OpenStep(rows, j, n);
    }
  }

  lemma InPushed(stack: seq<nat>, i: nat, j: nat)
    ensures j in stack + [i] <==> j in stack || j == i
  {
  }

  lemma PushDeeper(rows: seq<Row>, stack: seq<nat>, i: nat)
    requires Deepening(rows, stack) && i < |rows|
    requires forall k :: 0 <= k < |stack| ==> stack[k] < i && rows[stack[k]].depth < rows[i].depth
    ensures Deepening(rows, stack + [i])
  {
  }

  lemma OpenStep(rows: seq<Row>, j: int, n: nat)
    requires 0 < n <= |rows|
    ensures Open(rows, j, n) <==> j == n - 1 || (Open(rows, j, n - 1) && rows[j].depth < rows[n - 1].depth)
  {
  }

  lemma InAncestorStack(rows: seq<Row>, i: nat, j: nat)
    requires i < |rows|
    ensures j in AncestorStack(rows, i) <==> Ancestor(rows, j, i)
  {
    InStack(rows, i, j);
    StackDeepens(rows, i);
    PopToMeaning(rows, Stack(rows, i), rows[i].depth);
    if Ancestor(rows, j, i) { assert Open(rows, j, i); }
  }

  lemma AncestorStackMeaning(rows: seq<Row>, i: nat)
    requires i < |rows|
    ensures Deepening(rows, AncestorStack(rows, i))
    ensures forall j: nat :: j in AncestorStack(rows, i) <==> Ancestor(rows, j, i)
  {
    StackDeepens(rows, i);
    PopToMeaning(rows, Stack(rows, i), rows[i].depth);
    forall j: nat ensures j in AncestorStack(rows, i) <==> Ancestor(rows, j, i) {
      InAncestorStack(rows, i, j);
    }
  }

  /** The innermost ancestor is one level up exactly when it has this row as a direct child. */
  lemma InnermostParent(rows: seq<Row>, i: nat, j: int)
    requires i < |rows|
    ensures DirectChild(rows, j, i) <==>
      AncestorStack(rows, i) != [] && Last(AncestorStack(rows, i)) == j && j < i && rows[j].depth + 1 == rows[i].depth
  {
    AncestorStackMeaning(rows, i);
    var stack := AncestorStack(rows, i);
    if DirectChild(rows, j, i) {
      assert j in stack;
      var k :| 0 <= k < |stack| && stack[k] == j;
      assert Last(stack) in stack;
    }
    if stack != [] && Last(stack) == j && rows[j].depth + 1 == rows[i].depth {
      assert j in stack;
    }
  }

  /** Following children down always ends at a row without children. */
  lemma {:induction false} DeepestDescendant(rows: seq<Row>, j: int, i: int) returns (leaf: int)
    requires Ancestor(rows, j, i)
    ensures Ancestor(rows, j, leaf) && !HasChild(rows, leaf)
    decreases |rows| - i
  {
    if HasChild(rows, i) {
      var c :| DirectChild(rows, i, c);
      AncestorTransitive(rows, j, i, c);
      leaf := DeepestDescendant(rows, j, c);
    } else {
      leaf := i;
    }
  }

  // ---------------------------------------------------------------- descendants

  /** The ids of the descendants of row j among the first n rows, in row order. */
  ghost function DescendantIds(rows: seq<Row>, j: int, n: nat): seq<Id>
    requires n <= |rows|
  {
    if n == 0 then []
    else DescendantIds(rows, j, n - 1) + if Ancestor(rows, j, n - 1) then [rows[n - 1].id] else []
  }

  ghost function LeafIds(rows: seq<Row>, j: int, n: nat): seq<Id>
    requires n <= |rows|
  {
    if n == 0 then []
    else LeafIds(rows, j, n - 1) + if Ancestor(rows, j, n - 1) && !HasChild(rows, n - 1) then [rows[n - 1].id] else []
  }

  lemma {:induction false} InDescendantIds(rows: seq<Row>, j: int, n: nat, id: Id)
    requires n <= |rows|
    ensures id in DescendantIds(rows, j, n) <==> exists i :: 0 <= i < n && rows[i].id == id && Ancestor(rows, j, i)
  {
    if n > 0 { InDescendantIds(rows, j, n - 1, id); }
  }

  lemma {:induction false} InLeafIds(rows: seq<Row>, j: int, n: nat, id: Id)
    requires n <= |rows|
    ensures id in LeafIds(rows, j, n) <==>
      exists i :: 0 <= i < n && rows[i].id == id && Ancestor(rows, j, i) && !HasChild(rows, i)
  {
    if n > 0 { InLeafIds(rows, j, n - 1, id); }
  }

  lemma GroupHasLeaf(rows: seq<Row>, j: int)
    requires HasChild(rows, j)
    ensures LeafIds(rows, j, |rows|) != []
  {
    var i :| DirectChild(rows, j, i);
    var leaf := DeepestDescendant(rows, j, i);
    InLeafIds(rows, j, |rows|, rows[leaf].id);
  }

  ghost function ChildrenTo(rows: seq<Row>, j: int, n: nat): nat
    requires n <= |rows|
  {
    if n == 0 then 0 else ChildrenTo(rows, j, n - 1) + if DirectChild(rows, j, n - 1) then 1 else 0
  }

  lemma {:induction false} ChildrenCounted(rows: seq<Row>, j: int, n: nat)
    requires n <= |rows|
    ensures ChildrenTo(rows, j, n) > 0 <==> exists i :: i < n && DirectChild(rows, j, i)
  {
    if n > 0 { ChildrenCounted(rows, j, n - 1); }
  }
}
