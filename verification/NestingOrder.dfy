/** What nesting does to the rows and groups of each single path. */
module NestingOrder {
  import opened Options
  import opened PathNesting

  type PathOf<!R> = R -> seq<Option<string>>

  /** The items that belong to a path itself: its group row and the rows filed at it. */
  function Own<R>(items: seq<Item<R>>, path: Path, pathFor: PathOf<R>): seq<Item<R>> {
    if items == [] then []
    else
      var own := match items[0] { case Group(p, _) => p == path case Data(row, _) => CleanPath(pathFor(row)) == path };
      (if own then [items[0]] else []) + Own(items[1..], path, pathFor)
  }

  function RowsWithPath<R>(rows: seq<R>, path: Path, pathFor: PathOf<R>): seq<R> {
    if rows == [] then []
    else
      var row := rows[|rows| - 1];
      RowsWithPath(rows[..|rows| - 1], path, pathFor) + if CleanPath(pathFor(row)) == path then [row] else []
  }

  ghost predicate SomeBelow<R>(rows: seq<R>, path: Path, pathFor: PathOf<R>) {
    exists i :: 0 <= i < |rows| && path <= CleanPath(pathFor(rows[i]))
  }

  // ---------------------------------------------------------------- looking a path up in the tree

  function RowsAt<R>(node: Node<R>, path: Path): seq<R>
    decreases |path|, 1, 0
  {
    if path == [] then node.rows else RowsAtBelow(node.children, path)
  }

  function RowsAtBelow<R>(children: seq<Branch<R>>, path: Path): seq<R>
    requires path != []
    decreases |path|, 0, |children|
  {
    if children == [] then []
    else if children[0].name == path[0] then RowsAt(children[0].node, path[1..])
    else RowsAtBelow(children[1..], path)
  }

  predicate HasNode<R>(node: Node<R>, path: Path)
    decreases |path|, 1, 0
  {
    path == [] || HasNodeBelow(node.children, path)
  }

  predicate HasNodeBelow<R>(children: seq<Branch<R>>, path: Path)
    requires path != []
    decreases |path|, 0, |children|
  {
    children != [] &&
    if children[0].name == path[0] then HasNode(children[0].node, path[1..]) else HasNodeBelow(children[1..], path)
  }

  predicate Named<R>(children: seq<Branch<R>>, name: string) {
    children != [] && (children[0].name == name || Named(children[1..], name))
  }

  /** A map holds each label once. */
  ghost predicate NamesOnce<R>(node: Node<R>)
    decreases node
  {
    NamesOnceBelow(node.children)
  }

  ghost predicate NamesOnceBelow<R>(children: seq<Branch<R>>)
    decreases children
  {
    children != [] ==>
      !Named(children[1..], children[0].name) && NamesOnce(children[0].node) && NamesOnceBelow(children[1..])
  }

  lemma {:induction false} InsertAt<R>(node: Node<R>, path: Path, row: R, q: Path)
    ensures RowsAt(Insert(node, path, row), q) == RowsAt(node, q) + if q == path then [row] else []
    ensures HasNode(Insert(node, path, row), q) <==> HasNode(node, q) || q <= path
    ensures NamesOnce(node) ==> NamesOnce(Insert(node, path, row))
    decreases |path|, 1, 0
  {
    if path != [] {
      var name := path[0];
      if q != [] {
        InsertBelowAt(node.children, path, row, q);
      } else {
        InsertBelowAt(node.children, path, row, path);
      }
    }
  }

  lemma {:induction false} InsertBelowAt<R>(children: seq<Branch<R>>, path: Path, row: R, q: Path)
    requires path != [] && q != []
    ensures RowsAtBelow(InsertBelow(children, path, row), q)
         == RowsAtBelow(children, q) + if q == path then [row] else []
    ensures HasNodeBelow(InsertBelow(children, path, row), q) <==> HasNodeBelow(children, q) || q <= path
    ensures forall n :: Named(InsertBelow(children, path, row), n) <==> Named(children, n) || n == path[0]
    ensures NamesOnceBelow(children) ==> NamesOnceBelow(InsertBelow(children, path, row))
    decreases |path|, 0, |children|
  {
    var result := InsertBelow(children, path, row);
    assert q == path <==> q[0] == path[0] && q[1..] == path[1..];
    assert q <= path <==> q[0] == path[0] && q[1..] <= path[1..];
    if children == [] {
      InsertAt(Node([], []), path[1..], row, q[1..]);
      assert result[1..] == [];
      assert RowsAt<R>(Node([], []), q[1..]) == [];
      assert HasNode<R>(Node([], []), q[1..]) <==> q[1..] == [];
    } else if children[0].name == path[0] {
      InsertAt(children[0].node, path[1..], row, q[1..]);
      assert result[1..] == children[1..];
    } else {
      InsertBelowAt(children[1..], path, row, q);
      assert result[1..] == InsertBelow(children[1..], path, row);
    }
  }

  lemma SomeBelowStep<R>(rows: seq<R>, q: Path, pathFor: PathOf<R>)
    requires rows != []
    ensures SomeBelow(rows, q, pathFor) <==>
      SomeBelow(rows[..|rows| - 1], q, pathFor) || q <= CleanPath(pathFor(rows[|rows| - 1]))
  {
    var init := rows[..|rows| - 1];
    if SomeBelow(init, q, pathFor) {
      var i :| 0 <= i < |init| && q <= CleanPath(pathFor(init[i]));
      assert rows[i] == init[i];
    }
    if SomeBelow(rows, q, pathFor) {
      var i :| 0 <= i < |rows| && q <= CleanPath(pathFor(rows[i]));
      assert i < |init| ==> init[i] == rows[i];
    }
  }

  lemma {:induction false} FiledAt<R>(rows: seq<R>, pathFor: PathOf<R>, q: Path)
    ensures RowsAt(Filed(rows, pathFor), q) == RowsWithPath(rows, q, pathFor)
    ensures q != [] ==> (HasNode(Filed(rows, pathFor), q) <==> SomeBelow(rows, q, pathFor))
    ensures NamesOnce(Filed(rows, pathFor))
  {
    if rows != [] {
      var init, row := rows[..|rows| - 1], rows[|rows| - 1];
      FiledAt(init, pathFor, q);
      InsertAt(Filed(init, pathFor), CleanPath(pathFor(row)), row, q);
      SomeBelowStep(rows, q, pathFor);
    }
  }

  // ---------------------------------------------------------------- looking a path up in the output

  lemma {:induction false} OwnConcat<R>(a: seq<Item<R>>, b: seq<Item<R>>, path: Path, pathFor: PathOf<R>)
    ensures Own(a + b, path, pathFor) == Own(a, path, pathFor) + Own(b, path, pathFor)
  {
    if a == [] {
      assert a + b == b;
    } else {
      assert (a + b)[1..] == a[1..] + b;
      OwnConcat(a[1..], b, path, pathFor);
    }
  }

  lemma {:induction false} OwnData<R>(rows: seq<R>, done: Path, path: Path, pathFor: PathOf<R>)
    requires forall r :: r in rows ==> CleanPath(pathFor(r)) == done
    ensures Own(DataItems(rows, |done| + 1), path, pathFor) == if path == done then DataItems(rows, |done| + 1) else []
  {
    if rows != [] {
      var items := DataItems(rows, |done| + 1);
      assert items[1..] == DataItems(rows[1..], |done| + 1);
      assert items == [items[0]] + items[1..];
      OwnData(rows[1..], done, path, pathFor);
    }
  }

  /** The items of a path below a node, found in its tree: one group if there is such a node, then its rows. */
  function OwnBelow<R>(children: seq<Branch<R>>, done: Path, path: Path): seq<Item<R>> {
    if done < path && HasNodeBelow(children, path[|done|..])
    then [Group(path, |path|)] + DataItems(RowsAtBelow(children, path[|done|..]), |path| + 1)
    else []
  }

  lemma {:induction false} NotNamed<R>(children: seq<Branch<R>>, path: Path)
    requires path != [] && !Named(children, path[0])
    ensures !HasNodeBelow(children, path) && RowsAtBelow(children, path) == []
  {
    if children != [] { NotNamed(children[1..], path); }
  }

  lemma {:induction false} NoNodeNoRows<R>(children: seq<Branch<R>>, path: Path)
    requires path != [] && !HasNodeBelow(children, path)
    ensures RowsAtBelow(children, path) == []
    decreases |path|, |children|
  {
    if children != [] {
      if children[0].name != path[0] {
        NoNodeNoRows(children[1..], path);
      } else {
        NoNodeNoRows(children[0].node.children, path[1..]);
      }
    }
  }

  lemma {:induction false} OwnOfVisit<R>(node: Node<R>, done: Path, path: Path, pathFor: PathOf<R>)
    requires WellFiled(node, done, pathFor) && NamesOnce(node)
    ensures Own(Visit(node, done), path, pathFor)
         == if path == done then DataItems(node.rows, |done| + 1) else OwnBelow(node.children, done, path)
    decreases node
  {
    OwnOfVisitBelow(node.children, done, path, pathFor);
    OwnConcat(VisitBelow(node.children, done), DataItems(node.rows, |done| + 1), path, pathFor);
    OwnData(node.rows, done, path, pathFor);
  }

  lemma {:induction false} OwnOfVisitBelow<R>(children: seq<Branch<R>>, done: Path, path: Path, pathFor: PathOf<R>)
    requires WellFiledBelow(children, done, pathFor) && NamesOnceBelow(children)
    ensures Own(VisitBelow(children, done), path, pathFor) == OwnBelow(children, done, path)
    decreases children
  {
    if children != [] {
      var name, below := children[0].name, done + [children[0].name];
      var group, inner, rest := [Group(below, |below|)], Visit(children[0].node, below),
        VisitBelow(children[1..], done);
      OwnConcat(group + inner, rest, path, pathFor);
      OwnConcat(group, inner, path, pathFor);
      OwnOfVisit(children[0].node, below, path, pathFor);
      OwnOfVisitBelow(children[1..], done, path, pathFor);
      if done < path && path[|done|] == name {
        RestOfPath(done, path, name);
        NotNamed(children[1..], path[|done|..]);
        if path == below { OwnAtChild(children, done, path); } else { OwnDeeper(children, done, path); }
      } else {
        PrefixElement(below, path, |done|);
      }
    }
  }

  lemma OwnAtChild<R>(children: seq<Branch<R>>, done: Path, path: Path)
    requires children != [] && path == done + [children[0].name]
    ensures OwnBelow(children, done, path) == [Group(path, |path|)] + DataItems(children[0].node.rows, |path| + 1)
  {
    var rel := path[|done|..];
    assert rel == [children[0].name] && rel[1..] == [];
    assert HasNode(children[0].node, rel[1..]);
    assert RowsAt(children[0].node, rel[1..]) == children[0].node.rows;
  }

  lemma OwnDeeper<R>(children: seq<Branch<R>>, done: Path, path: Path)
    requires children != [] && done + [children[0].name] < path
    ensures OwnBelow(children, done, path) == OwnBelow(children[0].node.children, done + [children[0].name], path)
  {
    var below, rel := done + [children[0].name], path[|done|..];
    assert path[|done|] == below[|done|];
    RestOfPath(done, path, children[0].name);
    var more := path[|below|..];
    assert rel[1..] == more && more != [];
    assert HasNodeBelow(children, rel) == HasNodeBelow(children[0].node.children, more);
    assert RowsAtBelow(children, rel) == RowsAtBelow(children[0].node.children, more);
  }

  lemma PrefixElement(a: Path, b: Path, k: nat)
    requires k < |a|
    ensures a <= b ==> k < |b| && a[k] == b[k]
  {
  }

  lemma RestOfPath(done: Path, path: Path, name: string)
    requires done < path && path[|done|] == name
    ensures done + [name] <= path
    ensures path[|done|..][1..] == path[|done| + 1..]
    ensures path == done + [name] <==> path[|done| + 1..] == []
  {
    assert path == done + path[|done|..];
    assert path[|done|..] == [name] + path[|done| + 1..];
  }

  /**
   In the output every path that some row lies at or below has exactly one group row, and after it come
   the rows of that very path, at the next depth and in their input order. No other path has a group.
   */
  lemma NestingKeepsOrder<R>(rows: seq<R>, pathFor: PathOf<R>, path: Path)
    ensures Own(Visit(Filed(rows, pathFor), []), path, pathFor)
         == (if path != [] && SomeBelow(rows, path, pathFor) then [Group(path, |path|)] else [])
            + DataItems(RowsWithPath(rows, path, pathFor), |path| + 1)
  {
    var root := Filed(rows, pathFor);
    FiledWellFiled(rows, pathFor);
    FiledAt(rows, pathFor, path);
    OwnOfVisit(root, [], path, pathFor);
    if path != [] {
      assert path[0..] == path && [] < path;
      if !HasNode(root, path) {
        NoNodeNoRows(root.children, path);
      }
    }
  }
}
