/**
 Nesting rows by their label paths: rows are filed into a tree of maps, and a visit of the tree writes
 one group row per label before what lies below it. The table reads the depths back as a hierarchy.
 */
module PathNesting {
  import opened RowTree
  import opened RowDepth
  import opened Options
  import opened Texts

  type Path = seq<string>

  /** A tree node: labelled children in insertion order and the rows filed at the node itself. */
  datatype Node<R> = Node(children: seq<Branch<R>>, rows: seq<R>)

  datatype Branch<R> = Branch(name: string, node: Node<R>)

  datatype Item<R> = Group(path: Path, depth: nat) | Data(row: R, depth: nat)

  /** The labels of a raw path: missing ones read as empty, all trimmed, empty ones dropped. */
  function CleanPath(raw: seq<Option<string>>): Path {
    if raw == [] then []
    else
      var text := Trim(if raw[0].None? then "" else raw[0].value);
      (if text == "" then [] else [text]) + CleanPath(raw[1..])
  }

  // ---------------------------------------------------------------- filing

  function Insert<R>(node: Node<R>, path: Path, row: R): Node<R>
    decreases |path|, 1, 0
  {
    if path == [] then Node(node.children, node.rows + [row])
    else Node(InsertBelow(node.children, path, row), node.rows)
  }

  function InsertBelow<R>(children: seq<Branch<R>>, path: Path, row: R): seq<Branch<R>>
    requires path != []
    decreases |path|, 0, |children|
  {
    if children == [] then [Branch(path[0], Insert(Node([], []), path[1..], row))]
    else if children[0].name == path[0] then
      [Branch(path[0], Insert(children[0].node, path[1..], row))] + children[1..]
    else [children[0]] + InsertBelow(children[1..], path, row)
  }

  function Filed<R>(rows: seq<R>, pathFor: R -> seq<Option<string>>): Node<R> {
    if rows == [] then Node([], [])
    else
      var row := rows[|rows| - 1];
      Insert(Filed(rows[..|rows| - 1], pathFor), CleanPath(pathFor(row)), row)
  }

  // ---------------------------------------------------------------- visiting

  function DataItems<R>(rows: seq<R>, depth: nat): (items: seq<Item<R>>)
    ensures |items| == |rows|
  {
    seq(|rows|, i requires 0 <= i < |rows| => Data(rows[i], depth))
  }

  function Visit<R>(node: Node<R>, path: Path): seq<Item<R>>
    decreases node
  {
    VisitBelow(node.children, path) + DataItems(node.rows, |path| + 1)
  }

  function VisitBelow<R>(children: seq<Branch<R>>, path: Path): seq<Item<R>>
    decreases children
  {
    if children == [] then []
    else
      var below := path + [children[0].name];
      [Group(below, |below|)] + Visit(children[0].node, below) + VisitBelow(children[1..], path)
  }

  method Emit<R>(node: Node<R>, path: Path, before: seq<Item<R>>) returns (output: seq<Item<R>>)
    ensures output == before + Visit(node, path)
    decreases node
  {
    output := before;
    var depth := |path| + 1;
    for i := 0 to |node.children|
      invariant output + VisitBelow(node.children[i..], path) == before + VisitBelow(node.children, path)
    {
      ghost var start := output;
      var branch := node.children[i];
      var nextPath := path + [branch.name];
      output := output + [Group(nextPath, depth)];
      output := Emit(branch.node, nextPath, output);
      assert node.children[i..][1..] == node.children[i + 1..];
      ghost var rest := VisitBelow(node.children[i + 1..], path);
      assert output + rest == start + ([Group(nextPath, depth)] + Visit(branch.node, nextPath) + rest);
    }
    assert output == before + VisitBelow(node.children, path);
    output := output + DataItems(node.rows, depth);
  }

  method NestRows<R>(rows: seq<R>, pathFor: R -> seq<Option<string>>) returns (output: seq<Item<R>>)
    ensures output == Visit(Filed(rows, pathFor), [])
  {
    var root := Node([], []);
    for i := 0 to |rows|
      invariant root == Filed(rows[..i], pathFor)
    {
      assert rows[..i + 1][..i] == rows[..i];
      root := Insert(root, CleanPath(pathFor(rows[i])), rows[i]);
    }
    assert rows[..|rows|] == rows;
    output := Emit(root, [], []);
    assert [] + Visit(root, []) == Visit(root, []);
  }

  // ---------------------------------------------------------------- nothing is lost

  function RowsOf<R>(items: seq<Item<R>>): seq<R> {
    if items == [] then []
    else (if items[0].Data? then [items[0].row] else []) + RowsOf(items[1..])
  }

  lemma {:induction false} RowsOfConcat<R>(a: seq<Item<R>>, b: seq<Item<R>>)
    ensures RowsOf(a + b) == RowsOf(a) + RowsOf(b)
  {
    if a == [] {
      assert a + b == b;
    } else {
      assert (a + b)[1..] == a[1..] + b;
      RowsOfConcat(a[1..], b);
    }
  }

  lemma {:induction false} RowsOfData<R>(rows: seq<R>, depth: nat)
    ensures RowsOf(DataItems(rows, depth)) == rows
  {
    if rows != [] {
      assert DataItems(rows, depth)[1..] == DataItems(rows[1..], depth);
      RowsOfData(rows[1..], depth);
    }
  }

  ghost function Contents<R>(node: Node<R>): multiset<R>
    decreases node
  {
    multiset(node.rows) + ContentsBelow(node.children)
  }

  ghost function ContentsBelow<R>(children: seq<Branch<R>>): multiset<R>
    decreases children
  {
    if children == [] then multiset{} else Contents(children[0].node) + ContentsBelow(children[1..])
  }

  lemma {:induction false} VisitKeepsRows<R>(node: Node<R>, path: Path)
    ensures multiset(RowsOf(Visit(node, path))) == Contents(node)
    decreases node
  {
    VisitBelowKeepsRows(node.children, path);
    RowsOfConcat(VisitBelow(node.children, path), DataItems(node.rows, |path| + 1));
    RowsOfData(node.rows, |path| + 1);
  }

  lemma {:induction false} VisitBelowKeepsRows<R>(children: seq<Branch<R>>, path: Path)
    ensures multiset(RowsOf(VisitBelow(children, path))) == ContentsBelow(children)
    decreases children
  {
    if children != [] {
      hide Visit, Contents;
      var below := path + [children[0].name];
      var group, inner, rest := [Group(below, |below|)], Visit(children[0].node, below),
        VisitBelow(children[1..], path);
      VisitKeepsRows(children[0].node, below);
      VisitBelowKeepsRows(children[1..], path);
      RowsOfConcat(group + inner, rest);
      RowsOfConcat(group, inner);
      assert RowsOf(group) == [];
    }
  }

  lemma {:induction false} InsertAddsRow<R>(node: Node<R>, path: Path, row: R)
    ensures Contents(Insert(node, path, row)) == Contents(node) + multiset{row}
    decreases |path|, 1, 0
  {
    if path != [] { InsertBelowAddsRow(node.children, path, row); }
  }

  lemma {:induction false} InsertBelowAddsRow<R>(children: seq<Branch<R>>, path: Path, row: R)
    requires path != []
    ensures ContentsBelow(InsertBelow(children, path, row)) == ContentsBelow(children) + multiset{row}
    decreases |path|, 0, |children|
  {
    if children == [] {
      InsertAddsRow(Node([], []), path[1..], row);
    } else if children[0].name == path[0] {
      InsertAddsRow(children[0].node, path[1..], row);
      assert InsertBelow(children, path, row)[1..] == children[1..];
    } else {
      InsertBelowAddsRow(children[1..], path, row);
      assert InsertBelow(children, path, row)[1..] == InsertBelow(children[1..], path, row);
    }
  }

  lemma {:induction false} FiledKeepsRows<R>(rows: seq<R>, pathFor: R -> seq<Option<string>>)
    ensures Contents(Filed(rows, pathFor)) == multiset(rows)
  {
    if rows != [] {
      hide Contents, CleanPath, Insert;
      var init, row := rows[..|rows| - 1], rows[|rows| - 1];
      FiledKeepsRows(init, pathFor);
      InsertAddsRow(Filed(init, pathFor), CleanPath(pathFor(row)), row);
      assert rows == init + [row];
    }
  }

  /** The data rows of the output are a permutation of the input rows. */
  lemma NestingKeepsRows<R>(rows: seq<R>, pathFor: R -> seq<Option<string>>)
    ensures multiset(RowsOf(Visit(Filed(rows, pathFor), []))) == multiset(rows)
  {
    FiledKeepsRows(rows, pathFor);
    VisitKeepsRows(Filed(rows, pathFor), []);
  }

  // ---------------------------------------------------------------- every row sits below its own path

  /** Rows lie at the node of their own path, and no branch is bare. */
  ghost predicate WellFiled<R>(node: Node<R>, path: Path, pathFor: R -> seq<Option<string>>)
    decreases node
  {
    (forall r :: r in node.rows ==> CleanPath(pathFor(r)) == path) && WellFiledBelow(node.children, path, pathFor)
  }

  ghost predicate WellFiledBelow<R>(children: seq<Branch<R>>, path: Path, pathFor: R -> seq<Option<string>>)
    decreases children
  {
    children != [] ==>
      && (children[0].node.rows != [] || children[0].node.children != [])
      && WellFiled(children[0].node, path + [children[0].name], pathFor)
      && WellFiledBelow(children[1..], path, pathFor)
  }

  lemma {:induction false} InsertWellFiled<R>(node: Node<R>, done: Path, path: Path, row: R,
      pathFor: R -> seq<Option<string>>)
    requires WellFiled(node, done, pathFor) && CleanPath(pathFor(row)) == done + path
    ensures WellFiled(Insert(node, path, row), done, pathFor)
    ensures Insert(node, path, row).rows != [] || Insert(node, path, row).children != []
    decreases |path|, 1, 0
  {
    if path == [] {
      assert done + path == done;
    } else {
      InsertBelowWellFiled(node.children, done, path, row, pathFor);
    }
  }

  lemma {:induction false} InsertBelowWellFiled<R>(
      children: seq<Branch<R>>, done: Path, path: Path, row: R, pathFor: R -> seq<Option<string>>)
    requires path != [] && WellFiledBelow(children, done, pathFor) && CleanPath(pathFor(row)) == done + path
    ensures InsertBelow(children, path, row) != []
    ensures WellFiledBelow(InsertBelow(children, path, row), done, pathFor)
    decreases |path|, 0, |children|
  {
    assert done + path == done + [path[0]] + path[1..];
    var result := InsertBelow(children, path, row);
    if children == [] {
      InsertWellFiled(Node([], []), done + [path[0]], path[1..], row, pathFor);
      assert result[1..] == [];
    } else if children[0].name == path[0] {
      InsertWellFiled(children[0].node, done + [path[0]], path[1..], row, pathFor);
      assert result[1..] == children[1..];
    } else {
      InsertBelowWellFiled(children[1..], done, path, row, pathFor);
      assert result[1..] == InsertBelow(children[1..], path, row);
    }
  }

  lemma {:induction false} FiledWellFiled<R>(rows: seq<R>, pathFor: R -> seq<Option<string>>)
    ensures WellFiled(Filed(rows, pathFor), [], pathFor)
  {
    if rows != [] {
      var init, row := rows[..|rows| - 1], rows[|rows| - 1];
      FiledWellFiled(init, pathFor);
      var path := CleanPath(pathFor(row));
      assert [] + path == path;
      InsertWellFiled(Filed(init, pathFor), [], path, row, pathFor);
    }
  }

  /** The group with this path is open before position o: nothing since it lies at its level or above. */
  ghost predicate OpenGroup<R>(items: seq<Item<R>>, o: int, path: Path, j: int) {
    0 <= j < o <= |items| && items[j] == Group(path, |path|) && forall m :: j < m < o ==> items[m].depth > |path|
  }

  ghost predicate IsOpen<R>(items: seq<Item<R>>, o: int, path: Path) { exists j :: OpenGroup(items, o, path, j) }

  ghost predicate Within<R>(items: seq<Item<R>>, o: int, path: Path) {
    forall k :: 1 <= k <= |path| ==> IsOpen(items, o, path[..k])
  }

  /** The labels a row lies below: a group's own label is not one of them. */
  function Container<R>(item: Item<R>, pathFor: R -> seq<Option<string>>): Path {
    match item
    case Group(path, _) => if path == [] then [] else path[..|path| - 1]
    case Data(row, _) => CleanPath(pathFor(row))
  }

  ghost predicate Placed<R>(items: seq<Item<R>>, i: int, pathFor: R -> seq<Option<string>>)
    requires 0 <= i < |items|
  {
    var container := Container(items[i], pathFor);
    && items[i].depth == |container| + 1
    && Within(items, i, container)
    && (items[i].Group? ==>
      items[i].depth == |items[i].path| && i + 1 < |items| && items[i + 1].depth == items[i].depth + 1)
  }

  ghost predicate AllPlaced<R>(items: seq<Item<R>>, from: int, to: int, pathFor: R -> seq<Option<string>>)
    requires 0 <= from <= to <= |items|
  {
    forall i :: from <= i < to ==> Placed(items, i, pathFor)
  }

  lemma StillWithin<R>(items: seq<Item<R>>, o: int, o': int, path: Path)
    requires Within(items, o, path) && 0 <= o <= o' <= |items|
    requires forall m :: o <= m < o' ==> items[m].depth > |path|
    ensures Within(items, o', path)
  {
    forall k | 1 <= k <= |path| ensures IsOpen(items, o', path[..k]) {
      var j :| OpenGroup(items, o, path[..k], j);
      assert OpenGroup(items, o', path[..k], j);
    }
  }

  lemma EnterGroup<R>(items: seq<Item<R>>, o: int, path: Path, name: string)
    requires Within(items, o, path) && 0 <= o < |items| && items[o] == Group(path + [name], |path| + 1)
    ensures Within(items, o + 1, path + [name])
  {
    var below := path + [name];
    var o' := o + 1;
    forall k | 1 <= k <= |below| ensures IsOpen(items, o', below[..k]) {
      if k == |below| {
        assert below[..k] == below;
        assert OpenGroup(items, o', below[..k], o);
      } else {
        assert below[..k] == path[..k];
        var j :| OpenGroup(items, o, path[..k], j);
        assert OpenGroup(items, o', below[..k], j);
      }
    }
  }

  lemma VisitStarts<R>(node: Node<R>, path: Path)
    requires node.rows != [] || node.children != []
    ensures Visit(node, path) != [] && Visit(node, path)[0].depth == |path| + 1
  {
  }

  /** Where the visit of a node stands in the whole output. */
  ghost predicate Segment<R>(items: seq<Item<R>>, o: int, part: seq<Item<R>>) {
    0 <= o && o + |part| <= |items| && items[o..o + |part|] == part
  }

  lemma SplitSegment<R>(items: seq<Item<R>>, o: int, a: seq<Item<R>>, b: seq<Item<R>>)
    requires Segment(items, o, a + b)
    ensures Segment(items, o, a) && Segment(items, o + |a|, b)
  {
    assert items[o..o + |a|] == (a + b)[..|a|];
    assert items[o + |a|..o + |a| + |b|] == (a + b)[|a|..];
  }

  lemma {:induction false} VisitPlaces<R>(
      items: seq<Item<R>>, o: int, node: Node<R>, path: Path, pathFor: R -> seq<Option<string>>)
    requires WellFiled(node, path, pathFor) && Segment(items, o, Visit(node, path)) && Within(items, o, path)
    ensures AllPlaced(items, o, o + |Visit(node, path)|, pathFor)
    ensures forall m :: o <= m < o + |Visit(node, path)| ==> items[m].depth > |path|
    decreases node
  {
    var below, data := VisitBelow(node.children, path), DataItems(node.rows, |path| + 1);
    SplitSegment(items, o, below, data);
    VisitBelowPlaces(items, o, node.children, path, pathFor);
    var start := o + |below|;
    forall m | start <= m < start + |data| ensures items[m] == Data(node.rows[m - start], |path| + 1) {
      assert items[m] == items[start..start + |data|][m - start];
    }
    forall m | start <= m < start + |data| ensures Placed(items, m, pathFor) {
      StillWithin(items, o, m, path);
      assert node.rows[m - start] in node.rows;
    }
  }

  lemma {:induction false} VisitBelowPlaces<R>(
      items: seq<Item<R>>, o: int, children: seq<Branch<R>>, path: Path, pathFor: R -> seq<Option<string>>)
    requires WellFiledBelow(children, path, pathFor) && Segment(items, o, VisitBelow(children, path))
      && Within(items, o, path)
    ensures AllPlaced(items, o, o + |VisitBelow(children, path)|, pathFor)
    ensures forall m :: o <= m < o + |VisitBelow(children, path)| ==> items[m].depth > |path|
    decreases children
  {
    if children != [] {
      var below := path + [children[0].name];
      var group, inner, rest := [Group(below, |below|)], Visit(children[0].node, below),
        VisitBelow(children[1..], path);
      SplitSegment(items, o, group + inner, rest);
      SplitSegment(items, o, group, inner);
      assert items[o] == items[o..o + 1][0];
      EnterGroup(items, o, path, children[0].name);
      VisitPlaces(items, o + 1, children[0].node, below, pathFor);
      VisitStarts(children[0].node, below);
      assert items[o + 1] == items[o + 1..o + 1 + |inner|][0];
      assert below[..|below| - 1] == path;
      var next := o + 1 + |inner|;
      StillWithin(items, o, next, path);
      VisitBelowPlaces(items, next, children[1..], path, pathFor);
    }
  }

  /** Every item of the output stands below the groups of its own path, and every group has a row one level below. */
  lemma NestedItemsArePlaced<R>(rows: seq<R>, pathFor: R -> seq<Option<string>>)
    ensures var items := Visit(Filed(rows, pathFor), []); AllPlaced(items, 0, |items|, pathFor)
  {
    var items := Visit(Filed(rows, pathFor), []);
    FiledWellFiled(rows, pathFor);
    assert items[0..0 + |items|] == items;
    VisitPlaces(items, 0, Filed(rows, pathFor), [], pathFor);
  }

  // ---------------------------------------------------------------- the depths a table accepts

  /** The depth checks of the data view: within one to eight, starting at one, never skipping a level. */
  predicate AcceptedDepths(depths: seq<nat>) {
    && (forall i :: 0 <= i < |depths| ==> 1 <= depths[i] <= MAX_DEPTH)
    && (depths != [] ==> depths[0] == 1)
    && (forall i :: 0 < i < |depths| ==> depths[i] <= depths[i - 1] + 1)
  }

  function Depths<R>(items: seq<Item<R>>): (ds: seq<nat>)
    ensures |ds| == |items| && forall i :: 0 <= i < |items| ==> ds[i] == items[i].depth
  {
    seq(|items|, i requires 0 <= i < |items| => items[i].depth)
  }

  /** Placed items start at depth one and never skip a level. */
  lemma PlacedNeverSkips<R>(items: seq<Item<R>>, i: int, pathFor: R -> seq<Option<string>>)
    requires 0 <= i < |items| && Placed(items, i, pathFor)
    ensures items[i].depth >= 1
    ensures if i == 0 then items[i].depth == 1 else items[i].depth <= items[i - 1].depth + 1
  {
    hide CleanPath, Container;
    var container := Container(items[i], pathFor);
    if container != [] {
      assert container[..|container|] == container;
      assert IsOpen(items, i, container);
      var j :| OpenGroup(items, i, container, j);
    }
  }

  lemma {:induction false} InRowsOf<R>(items: seq<Item<R>>, i: nat)
    requires i < |items| && items[i].Data?
    ensures items[i].row in RowsOf(items)
  {
    if i > 0 {
      assert items[1..][i - 1] == items[i];
      InRowsOf(items[1..], i - 1);
    }
  }

  lemma {:induction false} RowsOfOrigin<R>(items: seq<Item<R>>, r: R) returns (i: nat)
    requires r in RowsOf(items)
    ensures i < |items| && items[i].Data? && items[i].row == r
  {
    if items[0].Data? && items[0].row == r {
      i := 0;
    } else {
      i := RowsOfOrigin(items[1..], r);
      i := i + 1;
    }
  }

  /** A deepest item is a data row, since every group is followed by something deeper. */
  lemma {:induction false} DataAtLeastAsDeep<R>(items: seq<Item<R>>, i: nat, pathFor: R -> seq<Option<string>>)
    returns (d: nat)
    requires i < |items| && AllPlaced(items, 0, |items|, pathFor)
    ensures d < |items| && items[d].Data? && items[d].depth >= items[i].depth
    decreases |items| - i
  {
    if items[i].Data? {
      d := i;
    } else {
      assert Placed(items, i, pathFor);
      d := DataAtLeastAsDeep(items, i + 1, pathFor);
    }
  }

  lemma SameRows<R>(rows: seq<R>, pathFor: R -> seq<Option<string>>, r: R)
    ensures r in rows <==> r in RowsOf(Visit(Filed(rows, pathFor), []))
  {
    NestingKeepsRows(rows, pathFor);
    assert r in rows <==> r in multiset(rows);
    var out := RowsOf(Visit(Filed(rows, pathFor), []));
    assert r in out <==> r in multiset(out);
  }

  /** The data view accepts the nested rows exactly when no path has more than seven labels. */
  lemma NestedDepthsAccepted<R(!new)>(rows: seq<R>, pathFor: R -> seq<Option<string>>)
    ensures AcceptedDepths(Depths(Visit(Filed(rows, pathFor), []))) <==>
      forall r :: r in rows ==> |CleanPath(pathFor(r))| < MAX_DEPTH
  {
    var items := Visit(Filed(rows, pathFor), []);
    NestedItemsArePlaced(rows, pathFor);
    forall i | 0 <= i < |items|
      ensures items[i].depth >= 1 && if i == 0 then items[i].depth == 1 else items[i].depth <= items[i - 1].depth + 1
    {
      PlacedNeverSkips(items, i, pathFor);
    }
    if forall r :: r in rows ==> |CleanPath(pathFor(r))| < MAX_DEPTH {
      forall i | 0 <= i < |items| ensures items[i].depth <= MAX_DEPTH {
        var d := DataAtLeastAsDeep(items, i, pathFor);
        InRowsOf(items, d);
        SameRows(rows, pathFor, items[d].row);
        assert Placed(items, d, pathFor);
      }
    }
    if AcceptedDepths(Depths(items)) {
      forall r | r in rows ensures |CleanPath(pathFor(r))| < MAX_DEPTH {
        SameRows(rows, pathFor, r);
        var i := RowsOfOrigin(items, r);
        assert Placed(items, i, pathFor);
        assert Depths(items)[i] <= MAX_DEPTH;
      }
    }
  }

  // ---------------------------------------------------------------- read back as a hierarchy

  /** The table rows for nested items, their depths read from the level cells written for them. */
  function TableRows<R>(items: seq<Item<R>>, ids: seq<Id>): (rows: seq<Row>)
    requires |ids| == |items|
    ensures |rows| == |items|
  {
    seq(|items|, i requires 0 <= i < |items| => Row(ids[i], ReadDepth(Some(LevelCell(items[i].depth)), None)))
  }

  lemma DepthsReadBack<R>(items: seq<Item<R>>, ids: seq<Id>, i: nat)
    requires |ids| == |items| && AcceptedDepths(Depths(items)) && i < |items|
    ensures TableRows(items, ids)[i].depth == items[i].depth
  {
    assert Depths(items)[i] <= MAX_DEPTH;
    WrittenDepthReadsBack(items[i].depth, None);
  }

  /** The ancestors of a nested item, outermost first, are the groups of the prefixes of its own path. */
  lemma AncestorsAreOwnPath<R>(
      items: seq<Item<R>>, ids: seq<Id>, i: nat, pathFor: R -> seq<Option<string>>)
    requires |ids| == |items| && AcceptedDepths(Depths(items)) && AllPlaced(items, 0, |items|, pathFor) && i < |items|
    ensures var container, stack := Container(items[i], pathFor), AncestorStack(TableRows(items, ids), i);
      && |stack| == |container|
      && forall k :: 0 <= k < |stack| ==> items[stack[k]] == Group(container[..k + 1], k + 1)
  {
    var table := TableRows(items, ids);
    forall m | 0 <= m < |items| ensures table[m].depth == items[m].depth { DepthsReadBack(items, ids, m); }
    var container, stack := Container(items[i], pathFor), AncestorStack(table, i);
    assert Placed(items, i, pathFor);
    AncestorStackMeaning(table, i);
    var depths := seq(|stack|, a requires 0 <= a < |stack| => table[stack[a]].depth);
    forall k: nat | 1 <= k <= |container| ensures k in depths {
      var a := GroupOnStack(items, table, i, container, k);
      assert depths[a] == k;
    }
    forall a | 0 <= a < |stack| ensures 1 <= depths[a] <= |container| {
      assert stack[a] in stack;
      assert Depths(items)[stack[a]] >= 1;
    }
    ConsecutiveDepths(depths, |container|);
    forall k | 0 <= k < |stack| ensures items[stack[k]] == Group(container[..k + 1], k + 1) {
      var a := GroupOnStack(items, table, i, container, k + 1);
      assert depths[a] == k + 1;
    }
  }

  lemma GroupOnStack<R>(items: seq<Item<R>>, table: seq<Row>, i: nat, path: Path, k: nat) returns (a: nat)
    requires |table| == |items| && i < |items| && Within(items, i, path) && items[i].depth == |path| + 1
    requires forall m :: 0 <= m < |items| ==> table[m].depth == items[m].depth
    requires 1 <= k <= |path|
    ensures a < |AncestorStack(table, i)| && items[AncestorStack(table, i)[a]] == Group(path[..k], k)
  {
    assert IsOpen(items, i, path[..k]);
    var j: nat :| OpenGroup(items, i, path[..k], j);
    assert Ancestor(table, j, i);
    InAncestorStack(table, i, j);
    a :| 0 <= a < |AncestorStack(table, i)| && AncestorStack(table, i)[a] == j;
  }

  /** Strictly increasing numbers from one to n that include every such number are one, two, up to n. */
  lemma {:induction false} ConsecutiveDepths(depths: seq<nat>, n: nat)
    requires forall a, b :: 0 <= a < b < |depths| ==> depths[a] < depths[b]
    requires forall a :: 0 <= a < |depths| ==> 1 <= depths[a] <= n
    requires forall k: nat :: 1 <= k <= n ==> k in depths
    ensures |depths| == n && forall a :: 0 <= a < n ==> depths[a] == a + 1
  {
    if n == 0 {
      assert depths == [];
    } else {
      assert n in depths;
      var last :| 0 <= last < |depths| && depths[last] == n;
      assert depths[last] <= depths[|depths| - 1] <= n;
      var init := depths[..last];
      forall k: nat | 1 <= k <= n - 1 ensures k in init {
        assert k in depths;
        var a :| 0 <= a < |depths| && depths[a] == k;
        assert init[a] == k;
      }
      ConsecutiveDepths(init, n - 1);
    }
  }

  /** The groups of the table are exactly the inserted group rows. */
  lemma GroupsAreInserted<R>(items: seq<Item<R>>, ids: seq<Id>, i: nat, pathFor: R -> seq<Option<string>>)
    requires |ids| == |items| && AcceptedDepths(Depths(items)) && AllPlaced(items, 0, |items|, pathFor) && i < |items|
    ensures HasChild(TableRows(items, ids), i) <==> items[i].Group?
  {
    var table := TableRows(items, ids);
    forall m | 0 <= m < |items| ensures table[m].depth == items[m].depth { DepthsReadBack(items, ids, m); }
    assert Placed(items, i, pathFor);
    if items[i].Group? {
      assert DirectChild(table, i, i + 1);
    }
    if HasChild(table, i) {
      var c :| DirectChild(table, i, c);
      assert Placed(items, c, pathFor);
      var container := Container(items[c], pathFor);
      assert items[c].depth == items[i].depth + 1;
      PlacedNeverSkips(items, i, pathFor);
      assert container[..|container|] == container && IsOpen(items, c, container);
      var j :| OpenGroup(items, c, container, j);
      assert Ancestor(table, j, c);
      AncestorsNest(table, i, j, c);
    }
  }

  /**
   For paths of at most seven labels the nested rows read back as the tree they came from: each row
   has the groups of its own trimmed path as ancestors, and only the inserted rows are groups.
   */
  lemma NestingReadsBack<R(!new)>(rows: seq<R>, pathFor: R -> seq<Option<string>>, ids: seq<Id>, i: nat)
    requires forall r :: r in rows ==> |CleanPath(pathFor(r))| < MAX_DEPTH
    requires |ids| == |Visit(Filed(rows, pathFor), [])| && i < |ids|
    ensures var items := Visit(Filed(rows, pathFor), []);
      var table := TableRows(items, ids);
      var stack, container := AncestorStack(table, i), Container(items[i], pathFor);
      && (HasChild(table, i) <==> items[i].Group?)
      && |stack| == |container|
      && forall k :: 0 <= k < |stack| ==> items[stack[k]] == Group(container[..k + 1], k + 1)
  {
    var items := Visit(Filed(rows, pathFor), []);
    NestedDepthsAccepted(rows, pathFor);
    NestedItemsArePlaced(rows, pathFor);
    AncestorsAreOwnPath(items, ids, i, pathFor);
    GroupsAreInserted(items, ids, i, pathFor);
  }
}
