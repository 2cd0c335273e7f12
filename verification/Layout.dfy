/** The graph view: expanded packages as clusters of task cells, the others as boxes on the
    left, dependencies drawn task to task or rolled up into package edges. */
module Layout {
  import opened FlowTypes
  import opened Graph
  import opened Forest
  import opened Listing
  import opened Derive
  import opened Layering
  import opened Counts

  const NODE_W := 154
  const NODE_H := 46
  const COL_GAP := 30
  const ROW_GAP := 26
  const PAD := 18
  const HEADER := 34
  const CLUSTER_GAP := 44
  const BOX_W := 180
  const BOX_H := 74
  const BOX_GAP := 26
  const LEFT_COL := 20
  const CLUSTER_X := LEFT_COL + BOX_W + 76

  datatype Rect = Rect(x: int, y: int, w: int, h: int)
  datatype Cell = Cell(node: NodeView, rect: Rect)
  datatype Frame = Frame(wp: NodeView, rect: Rect)

  predicate Disjoint(a: Rect, b: Rect) {
    a.x + a.w <= b.x || b.x + b.w <= a.x || a.y + a.h <= b.y || b.y + b.h <= a.y
  }

  predicate Inside(a: Rect, b: Rect) {
    b.x <= a.x && a.x + a.w <= b.x + b.w && b.y <= a.y && a.y + a.h <= b.y + b.h
  }

  // ---- one package ----------------------------------------------------------------

  function ColumnX(ci: nat): int {
    CLUSTER_X + PAD + ci * (NODE_W + COL_GAP)
  }

  function CellRect(cy: int, ci: nat, ri: nat): Rect {
    Rect(ColumnX(ci), cy + HEADER + ri * (NODE_H + ROW_GAP), NODE_W, NODE_H)
  }

  /** The longest column, and at least 1. */
  function MaxRows(cols: seq<seq<NodeView>>): (rows: nat)
    ensures rows >= 1 && forall k :: 0 <= k < |cols| ==> |cols[k]| <= rows
  {
    if cols == [] then 1 else
    var front := MaxRows(cols[..|cols| - 1]);
    if |cols[|cols| - 1]| > front then |cols[|cols| - 1]| else front
  }

  function ClusterRect(cy: int, cols: seq<seq<NodeView>>): Rect {
    var gaps := if |cols| > 0 then |cols| - 1 else 0;
    var rows := MaxRows(cols);
    Rect(CLUSTER_X, cy, PAD * 2 + |cols| * NODE_W + gaps * COL_GAP,
         HEADER + PAD + rows * NODE_H + (rows - 1) * ROW_GAP + PAD - 8)
  }

  /** The cluster is as tall as its longest column asks. */
  lemma {:induction false} RowsAreUsed(cols: seq<seq<NodeView>>)
    ensures MaxRows(cols) == 1 || exists k :: 0 <= k < |cols| && |cols[k]| == MaxRows(cols)
  {
    if cols != [] {
      RowsAreUsed(cols[..|cols| - 1]);
      if |cols[|cols| - 1]| != MaxRows(cols) && MaxRows(cols) != 1 {
        var front := cols[..|cols| - 1];
        var k :| 0 <= k < |front| && |front[k]| == MaxRows(cols);
        assert cols[k] == front[k];
      }
    }
  }

  /** In pixels: cells of 154 by 46, a column every 184 and a row every 72, inside a cluster
      that starts at 276 and leaves 18 around them, 34 above and 10 below. */
  lemma Measures(cy: int, cols: seq<seq<NodeView>>, ci: nat, ri: nat)
    ensures CellRect(cy, ci, ri) == Rect(294 + 184 * ci, cy + 34 + 72 * ri, 154, 46)
    ensures ClusterRect(cy, cols)
            == Rect(276, cy, if cols == [] then 36 else 6 + 184 * |cols|, 36 + 72 * MaxRows(cols))
  {
  }

  function ColumnCells(cy: int, ci: nat, col: seq<NodeView>): seq<Cell> {
    if col == [] then [] else
    ColumnCells(cy, ci, col[..|col| - 1]) + [Cell(col[|col| - 1], CellRect(cy, ci, |col| - 1))]
  }

  function PackageCells(cy: int, cols: seq<seq<NodeView>>): seq<Cell> {
    if cols == [] then [] else
    PackageCells(cy, cols[..|cols| - 1]) + ColumnCells(cy, |cols| - 1, cols[|cols| - 1])
  }

  ghost predicate AllDisjoint(cells: seq<Cell>) {
    forall i, j :: 0 <= i < j < |cells| ==> Disjoint(cells[i].rect, cells[j].rect)
  }

  lemma JoinDisjoint(a: seq<Cell>, b: seq<Cell>)
    requires AllDisjoint(a) && AllDisjoint(b)
    requires forall c, d :: c in a && d in b ==> Disjoint(c.rect, d.rect)
    ensures AllDisjoint(a + b)
  {
  }

  lemma {:induction false} ColumnCellsAre(cy: int, ci: nat, col: seq<NodeView>)
    ensures |ColumnCells(cy, ci, col)| == |col|
    ensures forall ri :: 0 <= ri < |col| ==> ColumnCells(cy, ci, col)[ri] == Cell(col[ri], CellRect(cy, ci, ri))
  {
    if col != [] {
      ColumnCellsAre(cy, ci, col[..|col| - 1]);
    }
  }

  lemma RowsStack(cy: int, ci: nat, i: nat, j: nat)
    requires i < j
    ensures CellRect(cy, ci, i).y + NODE_H <= CellRect(cy, ci, j).y
  {
  }

  lemma ColumnsStack(ci: nat, cj: nat)
    requires ci < cj
    ensures ColumnX(ci) + NODE_W + COL_GAP <= ColumnX(cj)
  {
  }

  lemma ColumnDisjoint(cy: int, ci: nat, col: seq<NodeView>)
    ensures AllDisjoint(ColumnCells(cy, ci, col))
  {
    ColumnCellsAre(cy, ci, col);
    var cells := ColumnCells(cy, ci, col);
    forall i, j | 0 <= i < j < |cells|
      ensures Disjoint(cells[i].rect, cells[j].rect)
    {
      RowsStack(cy, ci, i, j);
    }
  }

  /** A cell of column ci, row ri. */
  ghost predicate CellAt(cy: int, cols: seq<seq<NodeView>>, c: Cell, ci: nat, ri: nat) {
    ci < |cols| && ri < |cols[ci]| && c == Cell(cols[ci][ri], CellRect(cy, ci, ri))
  }

  ghost predicate Somewhere(cy: int, cols: seq<seq<NodeView>>, c: Cell) {
    exists ci: nat, ri: nat :: CellAt(cy, cols, c, ci, ri)
  }

  lemma SomewhereSplits(cy: int, front: seq<seq<NodeView>>, last: seq<NodeView>, c: Cell)
    ensures Somewhere(cy, front + [last], c) <==> Somewhere(cy, front, c) || c in ColumnCells(cy, |front|, last)
  {
    var cols := front + [last];
    var cells := ColumnCells(cy, |front|, last);
    ColumnCellsAre(cy, |front|, last);
    if Somewhere(cy, front, c) {
      var ci: nat, ri: nat :| CellAt(cy, front, c, ci, ri);
      assert CellAt(cy, cols, c, ci, ri);
    }
    if c in cells {
      var ri: nat :| ri < |cells| && cells[ri] == c;
      assert CellAt(cy, cols, c, |front|, ri);
    }
    if Somewhere(cy, cols, c) {
      var ci: nat, ri: nat :| CellAt(cy, cols, c, ci, ri);
      if ci < |front| {
        assert CellAt(cy, front, c, ci, ri);
      } else {
        assert c == cells[ri];
      }
    }
  }

  lemma {:induction false} PackageCellsAre(cy: int, cols: seq<seq<NodeView>>)
    ensures forall c :: c in PackageCells(cy, cols) <==> Somewhere(cy, cols, c)
  {
    if cols != [] {
      var n := |cols| - 1;
      PackageCellsAre(cy, cols[..n]);
      assert cols == cols[..n] + [cols[n]];
      forall c
        ensures c in PackageCells(cy, cols) <==> Somewhere(cy, cols, c)
      {
        SomewhereSplits(cy, cols[..n], cols[n], c);
      }
    }
  }

  lemma {:induction false} PackageDisjoint(cy: int, cols: seq<seq<NodeView>>)
    ensures AllDisjoint(PackageCells(cy, cols))
  {
    if cols != [] {
      var n := |cols| - 1;
      PackageDisjoint(cy, cols[..n]);
      PackageCellsAre(cy, cols[..n]);
      ColumnDisjoint(cy, n, cols[n]);
      ColumnCellsAre(cy, n, cols[n]);
      forall c, d | c in PackageCells(cy, cols[..n]) && d in ColumnCells(cy, n, cols[n])
        ensures Disjoint(c.rect, d.rect)
      {
        var ci: nat, ri: nat :| CellAt(cy, cols[..n], c, ci, ri);
        ColumnsStack(ci, n);
      }
      JoinDisjoint(PackageCells(cy, cols[..n]), ColumnCells(cy, n, cols[n]));
    }
  }

  lemma CellInside(cy: int, cols: seq<seq<NodeView>>, ci: nat, ri: nat)
    requires ci < |cols| && ri < |cols[ci]|
    ensures Inside(CellRect(cy, ci, ri), ClusterRect(cy, cols))
  {
  }

  method PlacePackage(before: seq<Cell>, rectsBefore: map<Id, Rect>, cy: int, cols: seq<seq<NodeView>>)
    returns (cells: seq<Cell>, rects: map<Id, Rect>)
    requires rectsBefore == RectsOf(before)
    ensures cells == before + PackageCells(cy, cols) && rects == RectsOf(cells)
  {
    cells, rects := before, rectsBefore;
    for ci := 0 to |cols|
      invariant cells == before + PackageCells(cy, cols[..ci]) && rects == RectsOf(cells)
    {
      assert cols[..ci + 1][..ci] == cols[..ci];
      cells, rects := PlaceColumn(cells, rects, cy, ci, cols[ci]);
    }
    assert cols[..|cols|] == cols;
  }

  method PlaceColumn(before: seq<Cell>, rectsBefore: map<Id, Rect>, cy: int, ci: nat, col: seq<NodeView>)
    returns (cells: seq<Cell>, rects: map<Id, Rect>)
    requires rectsBefore == RectsOf(before)
    ensures cells == before + ColumnCells(cy, ci, col) && rects == RectsOf(cells)
  {
    cells, rects := before, rectsBefore;
    for ri := 0 to |col|
      invariant cells == before + ColumnCells(cy, ci, col[..ri]) && rects == RectsOf(cells)
    {
      assert col[..ri + 1][..ri] == col[..ri];
      var r := Rect(CLUSTER_X + PAD + ci * (NODE_W + COL_GAP), cy + HEADER + ri * (NODE_H + ROW_GAP), NODE_W, NODE_H);
      RectsOfAppend(cells, Cell(col[ri], r));
      rects := rects[col[ri].id := r];
      cells := cells + [Cell(col[ri], r)];
    }
    assert col[..|col|] == col;
  }

  /** Where each drawn id is; the last cell wins. */
  function RectsOf(cells: seq<Cell>): map<Id, Rect> {
    if cells == [] then map[] else
    RectsOf(cells[..|cells| - 1])[cells[|cells| - 1].node.id := cells[|cells| - 1].rect]
  }

  lemma RectsOfAppend(cells: seq<Cell>, c: Cell)
    ensures RectsOf(cells + [c]) == RectsOf(cells)[c.node.id := c.rect]
  {
  }

  // ---- the columns of a package ---------------------------------------------------

  function DepthAt(depth: map<Id, nat>, id: Id): nat {
    if id in depth then depth[id] else 0
  }

  function WithDepth(tasks: seq<NodeView>, depth: map<Id, nat>, d: int): seq<NodeView> {
    Filter(tasks, OfDepth(depth, d))
  }

  function OfDepth(depth: map<Id, nat>, d: int): NodeView -> bool {
    (t: NodeView) => DepthAt(depth, t.id) == d
  }

  function DepthsOf(tasks: seq<NodeView>, depth: map<Id, nat>): set<int> {
    set t | t in tasks :: DepthAt(depth, t.id)
  }

  /** The tasks of each depth in use, shallowest first. */
  function Columned(tasks: seq<NodeView>, depth: map<Id, nat>): seq<seq<NodeView>> {
    var keys := Rows(DepthsOf(tasks, depth));
    seq(|keys|, i requires 0 <= i < |keys| => WithDepth(tasks, depth, keys[i]))
  }

  ghost predicate Grouped(tasks: seq<NodeView>, depth: map<Id, nat>, byDepth: map<int, seq<NodeView>>) {
    byDepth.Keys == DepthsOf(tasks, depth)
    && (forall d :: d in byDepth ==> byDepth[d] == WithDepth(tasks, depth, d))
    && (forall d :: d !in byDepth ==> WithDepth(tasks, depth, d) == [])
  }

  lemma DepthsAppend(tasks: seq<NodeView>, t: NodeView, depth: map<Id, nat>)
    ensures DepthsOf(tasks + [t], depth) == DepthsOf(tasks, depth) + {DepthAt(depth, t.id)}
  {
  }

  function ColumnAt(byDepth: map<int, seq<NodeView>>, d: int): seq<NodeView> {
    if d in byDepth then byDepth[d] else []
  }

  lemma GroupedAt(tasks: seq<NodeView>, depth: map<Id, nat>, byDepth: map<int, seq<NodeView>>, d: int)
    requires Grouped(tasks, depth, byDepth)
    ensures WithDepth(tasks, depth, d) == ColumnAt(byDepth, d)
  {
  }

  lemma WithDepthAppend(tasks: seq<NodeView>, t: NodeView, depth: map<Id, nat>, d: int)
    ensures WithDepth(tasks + [t], depth, d)
            == if DepthAt(depth, t.id) == d then WithDepth(tasks, depth, d) + [t] else WithDepth(tasks, depth, d)
  {
    assert (tasks + [t])[..|tasks|] == tasks && (tasks + [t])[|tasks|] == t;
  }

  lemma GroupedMeans(tasks: seq<NodeView>, depth: map<Id, nat>, byDepth: map<int, seq<NodeView>>)
    requires byDepth.Keys == DepthsOf(tasks, depth)
    requires forall d :: WithDepth(tasks, depth, d) == ColumnAt(byDepth, d)
    ensures Grouped(tasks, depth, byDepth)
  {
    forall d
      ensures d in byDepth ==> byDepth[d] == WithDepth(tasks, depth, d)
      ensures d !in byDepth ==> WithDepth(tasks, depth, d) == []
    {
      assert WithDepth(tasks, depth, d) == ColumnAt(byDepth, d);
    }
  }

  lemma GroupStep(tasks: seq<NodeView>, t: NodeView, depth: map<Id, nat>, byDepth: map<int, seq<NodeView>>)
    requires Grouped(tasks, depth, byDepth)
    ensures var d := DepthAt(depth, t.id);
            Grouped(tasks + [t], depth, byDepth[d := ColumnAt(byDepth, d) + [t]])
  {
    var here := DepthAt(depth, t.id);
    var next := byDepth[here := ColumnAt(byDepth, here) + [t]];
    DepthsAppend(tasks, t, depth);
    forall d
      ensures WithDepth(tasks + [t], depth, d) == ColumnAt(next, d)
    {
      GroupedAt(tasks, depth, byDepth, d);
      WithDepthAppend(tasks, t, depth, d);
    }
    GroupedMeans(tasks + [t], depth, next);
  }

  method ColumnsOf(tasks: seq<NodeView>, depth: map<Id, nat>) returns (cols: seq<seq<NodeView>>)
    ensures cols == Columned(tasks, depth)
  {
    var byDepth: map<int, seq<NodeView>> := map[];
    for i := 0 to |tasks|
      invariant Grouped(tasks[..i], depth, byDepth)
    {
      var d := DepthAt(depth, tasks[i].id);
      GroupStep(tasks[..i], tasks[i], depth, byDepth);
      assert tasks[..i + 1] == tasks[..i] + [tasks[i]];
      byDepth := byDepth[d := (if d in byDepth then byDepth[d] else []) + [tasks[i]]];
    }
    assert tasks[..|tasks|] == tasks;
    cols := InOrder(tasks, depth, byDepth);
  }

  method InOrder(ghost tasks: seq<NodeView>, ghost depth: map<Id, nat>, byDepth: map<int, seq<NodeView>>)
    returns (cols: seq<seq<NodeView>>)
    requires Grouped(tasks, depth, byDepth)
    ensures cols == Columned(tasks, depth)
  {
    var keys := Rows(byDepth.Keys);
    RowsListEach(byDepth.Keys);
    cols := [];
    for i := 0 to |keys|
      invariant |cols| == i && forall k :: 0 <= k < i ==> cols[k] == WithDepth(tasks, depth, keys[k])
    {
      cols := cols + [byDepth[keys[i]]];
    }
  }

  lemma WithDepthMeans(tasks: seq<NodeView>, depth: map<Id, nat>, d: int)
    ensures forall t :: t in WithDepth(tasks, depth, d) <==> t in tasks && DepthAt(depth, t.id) == d
    ensures DistinctIds(tasks) ==> DistinctIds(WithDepth(tasks, depth, d))
  {
    FilterMeans(tasks, OfDepth(depth, d));
  }

  /** Every task of the package is in exactly the column of its depth. */
  lemma ColumnedMeans(tasks: seq<NodeView>, depth: map<Id, nat>)
    ensures var cols := Columned(tasks, depth);
            var keys := Rows(DepthsOf(tasks, depth));
            |cols| == |keys|
            && (forall i, t :: 0 <= i < |cols| ==> (t in cols[i] <==> t in tasks && DepthAt(depth, t.id) == keys[i]))
            && (forall t :: t in tasks ==> exists i :: 0 <= i < |cols| && t in cols[i])
            && (forall i, j :: 0 <= i < j < |keys| ==> keys[i] < keys[j])
  {
    var cols := Columned(tasks, depth);
    var keys := Rows(DepthsOf(tasks, depth));
    RowsListEach(DepthsOf(tasks, depth));
    forall i | 0 <= i < |cols|
      ensures cols[i] == WithDepth(tasks, depth, keys[i])
      ensures forall t :: t in cols[i] <==> t in tasks && DepthAt(depth, t.id) == keys[i]
    {
      WithDepthMeans(tasks, depth, keys[i]);
    }
    forall t | t in tasks
      ensures exists i :: 0 <= i < |cols| && t in cols[i]
    {
      assert DepthAt(depth, t.id) in DepthsOf(tasks, depth);
      var i :| 0 <= i < |keys| && keys[i] == DepthAt(depth, t.id);
      assert t in cols[i];
    }
  }

  /** Depths without holes sit in the columns of the same number. */
  lemma {:induction false} RowsCountUp(s: set<int>, k: int)
    requires forall d :: d in s ==> k <= d && (d > k ==> d - 1 in s)
    ensures forall i :: 0 <= i < |Rows(s)| ==> Rows(s)[i] == k + i
    decreases |s|
  {
    if s != {} {
      var low := Least(s);
      assert low > k ==> low - 1 in s;
      RowsCountUp(s - {low}, k + 1);
    }
  }

  function NodesOf(cells: seq<Cell>): seq<NodeView> {
    seq(|cells|, i requires 0 <= i < |cells| => cells[i].node)
  }

  lemma NodesOfMeans(cells: seq<Cell>)
    ensures forall n :: n in NodesOf(cells) <==> exists c :: c in cells && c.node == n
  {
    forall c | c in cells
      ensures c.node in NodesOf(cells)
    {
      var i :| 0 <= i < |cells| && cells[i] == c;
      assert NodesOf(cells)[i] == c.node;
    }
  }

  lemma NodesOfConcat(a: seq<Cell>, b: seq<Cell>)
    ensures NodesOf(a + b) == NodesOf(a) + NodesOf(b)
  {
  }

  lemma {:induction false} PackageNodesDistinct(cy: int, cols: seq<seq<NodeView>>)
    requires forall i :: 0 <= i < |cols| ==> DistinctIds(cols[i])
    requires forall i, j, a, b :: 0 <= i < j < |cols| && a in cols[i] && b in cols[j] ==> a.id != b.id
    ensures DistinctIds(NodesOf(PackageCells(cy, cols)))
  {
    if cols != [] {
      var n := |cols| - 1;
      var front := cols[..n];
      PackageNodesDistinct(cy, front);
      PackageCellsAre(cy, front);
      ColumnCellsAre(cy, n, cols[n]);
      var before := PackageCells(cy, front);
      NodesOfConcat(before, ColumnCells(cy, n, cols[n]));
      assert NodesOf(ColumnCells(cy, n, cols[n])) == cols[n];
      NodesOfMeans(before);
      forall c | c in before
        ensures c.node.id !in IdsOf(cols[n])
      {
        assert Somewhere(cy, front, c);
        var ci: nat, ri: nat :| CellAt(cy, front, c, ci, ri);
        assert c.node in cols[ci];
      }
      ConcatDistinct(NodesOf(before), cols[n]);
    }
  }

  // ---- what one package's cells promise -------------------------------------------

  function OwnIds(nodes: seq<NodeView>, wp: Id): set<Id> {
    IdsOf(Under(nodes, wp, Task))
  }

  /** When the package's own dependencies are acyclic, the cell stands in the column whose
      number is the length of the longest chain of blockers before its task. */
  ghost predicate InColumn(nodes: seq<NodeView>, ix: Index, c: Cell) {
    var edges := OwnEdges(ix, OwnIds(nodes, c.node.row.parent));
    Acyclic(edges) ==> exists d: nat :: IsDepth(edges, c.node.id, d) && c.rect.x == ColumnX(d)
  }

  /** The package's tasks, each in one cell, in the frame and apart from one another. */
  ghost predicate Arranged(nodes: seq<NodeView>, ix: Index, wp: Id, frame: Rect, cells: seq<Cell>) {
    AllDisjoint(cells)
    && (forall c :: c in cells ==> Inside(c.rect, frame) && InColumn(nodes, ix, c))
    && (forall n :: n in NodesOf(cells) <==> n in nodes && n.row.kind == Task && n.row.parent == wp)
    && (DistinctIds(nodes) ==> DistinctIds(NodesOf(cells)))
  }

  /** The depths of a package, as the layering leaves them. */
  ghost predicate Depths(nodes: seq<NodeView>, ix: Index, wp: Id, depth: map<Id, nat>) {
    var own := OwnIds(nodes, wp);
    var edges := OwnEdges(ix, own);
    (forall x :: x in own ==> x in depth) && (Acyclic(edges) ==> forall x :: x in own ==> IsDepth(edges, x, depth[x]))
  }

  lemma DepthsHaveNoHoles(nodes: seq<NodeView>, ix: Index, wp: Id, depth: map<Id, nat>)
    requires Depths(nodes, ix, wp, depth) && Acyclic(OwnEdges(ix, OwnIds(nodes, wp)))
    ensures var keys := Rows(DepthsOf(Under(nodes, wp, Task), depth)); forall i :: 0 <= i < |keys| ==> keys[i] == i
  {
    var tasks := Under(nodes, wp, Task);
    var s := DepthsOf(tasks, depth);
    forall d | d in s && d > 0
      ensures d - 1 in s
    {
      var t :| t in tasks && DepthAt(depth, t.id) == d;
      assert t.id in OwnIds(nodes, wp);
      ColumnsHaveNoHoles(OwnEdges(ix, OwnIds(nodes, wp)), OwnIds(nodes, wp), depth, t.id, d - 1);
      var y :| y in OwnIds(nodes, wp) && depth[y] == d - 1;
      var u :| u in tasks && u.id == y;
      assert DepthAt(depth, u.id) == d - 1;
    }
    RowsCountUp(s, 0);
  }

  lemma CellsInColumns(nodes: seq<NodeView>, ix: Index, wp: Id, depth: map<Id, nat>, cy: int, c: Cell)
    requires Depths(nodes, ix, wp, depth)
    requires c in PackageCells(cy, Columned(Under(nodes, wp, Task), depth))
    ensures c.node in Under(nodes, wp, Task) && InColumn(nodes, ix, c)
    ensures Inside(c.rect, ClusterRect(cy, Columned(Under(nodes, wp, Task), depth)))
  {
    var tasks := Under(nodes, wp, Task);
    var cols := Columned(tasks, depth);
    PackageCellsAre(cy, cols);
    var ci: nat, ri: nat :| CellAt(cy, cols, c, ci, ri);
    CellInside(cy, cols, ci, ri);
    ColumnedMeans(tasks, depth);
    assert c.node in cols[ci];
    UnderMeans(nodes, wp, Task);
    if Acyclic(OwnEdges(ix, OwnIds(nodes, wp))) {
      DepthsHaveNoHoles(nodes, ix, wp, depth);
      assert c.node.id in OwnIds(nodes, wp);
      assert depth[c.node.id] == ci;
    }
  }

  lemma TaskHasCell(tasks: seq<NodeView>, depth: map<Id, nat>, cy: int, n: NodeView)
    ensures var cells := PackageCells(cy, Columned(tasks, depth));
            n in tasks <==> exists c :: c in cells && c.node == n
  {
    var cols := Columned(tasks, depth);
    var cells := PackageCells(cy, cols);
    ColumnedMeans(tasks, depth);
    PackageCellsAre(cy, cols);
    if n in tasks {
      var ci: nat :| ci < |cols| && n in cols[ci];
      var ri: nat :| ri < |cols[ci]| && cols[ci][ri] == n;
      assert CellAt(cy, cols, Cell(n, CellRect(cy, ci, ri)), ci, ri);
      assert Somewhere(cy, cols, Cell(n, CellRect(cy, ci, ri)));
    }
    if c :| c in cells && c.node == n {
      assert Somewhere(cy, cols, c);
      var ci: nat, ri: nat :| CellAt(cy, cols, c, ci, ri);
      assert c.node in cols[ci];
    }
  }

  lemma CellsHoldTasks(nodes: seq<NodeView>, wp: Id, depth: map<Id, nat>, cy: int)
    ensures var cells := PackageCells(cy, Columned(Under(nodes, wp, Task), depth));
            (forall n :: n in NodesOf(cells) <==> n in nodes && n.row.kind == Task && n.row.parent == wp)
            && (DistinctIds(nodes) ==> DistinctIds(NodesOf(cells)))
  {
    var tasks := Under(nodes, wp, Task);
    var cols := Columned(tasks, depth);
    UnderMeans(nodes, wp, Task);
    NodesOfMeans(PackageCells(cy, cols));
    forall n
      ensures n in NodesOf(PackageCells(cy, cols)) <==> n in tasks
    {
      TaskHasCell(tasks, depth, cy, n);
    }
    if DistinctIds(nodes) {
      ColumnsDistinct(tasks, depth);
      PackageNodesDistinct(cy, cols);
    }
  }

  lemma ColumnsDistinct(tasks: seq<NodeView>, depth: map<Id, nat>)
    requires DistinctIds(tasks)
    ensures var cols := Columned(tasks, depth);
            (forall i :: 0 <= i < |cols| ==> DistinctIds(cols[i]))
            && forall i, j, a, b :: 0 <= i < j < |cols| && a in cols[i] && b in cols[j] ==> a.id != b.id
  {
    var cols := Columned(tasks, depth);
    var keys := Rows(DepthsOf(tasks, depth));
    ColumnedMeans(tasks, depth);
    forall i | 0 <= i < |cols|
      ensures DistinctIds(cols[i])
    {
      WithDepthMeans(tasks, depth, keys[i]);
    }
  }

  lemma PackageArranged(nodes: seq<NodeView>, ix: Index, wp: Id, depth: map<Id, nat>, cy: int)
    requires Depths(nodes, ix, wp, depth)
    ensures var cols := Columned(Under(nodes, wp, Task), depth);
            Arranged(nodes, ix, wp, ClusterRect(cy, cols), PackageCells(cy, cols))
  {
    var cols := Columned(Under(nodes, wp, Task), depth);
    PackageDisjoint(cy, cols);
    CellsHoldTasks(nodes, wp, depth, cy);
    forall c | c in PackageCells(cy, cols)
      ensures Inside(c.rect, ClusterRect(cy, cols)) && InColumn(nodes, ix, c)
    {
      CellsInColumns(nodes, ix, wp, depth, cy, c);
    }
  }

  // ---- all expanded packages ------------------------------------------------------

  datatype Canvas = Canvas(frames: seq<Frame>, cells: seq<Cell>, cy: int)

  /** Frames stacked top to bottom, all above the next free line. */
  ghost predicate Stacked(frames: seq<Frame>, cy: int) {
    20 <= cy
    && (forall i :: 0 <= i < |frames| ==>
          frames[i].rect.x == CLUSTER_X && frames[i].rect.w >= 0 && frames[i].rect.h >= 0 && 20 <= frames[i].rect.y
          && frames[i].rect.y + frames[i].rect.h + CLUSTER_GAP <= cy)
    && forall i, j :: 0 <= i < j < |frames| ==>
         frames[i].rect.y + frames[i].rect.h + CLUSTER_GAP <= frames[j].rect.y
  }

  ghost predicate Framed(frames: seq<Frame>, c: Cell) {
    exists i :: 0 <= i < |frames| && frames[i].wp.id == c.node.row.parent && Inside(c.rect, frames[i].rect)
  }

  ghost predicate TaskOfAny(nodes: seq<NodeView>, wps: seq<NodeView>, n: NodeView) {
    n in nodes && n.row.kind == Task && n.row.parent in IdsOf(wps)
  }

  /** Sound for any lists at all; and on lists without repeated ids every task of every
      expanded package has exactly one cell. */
  ghost predicate Tidy(nodes: seq<NodeView>, ix: Index, wps: seq<NodeView>, canvas: Canvas) {
    |canvas.frames| == |wps| && (forall i :: 0 <= i < |wps| ==> canvas.frames[i].wp == wps[i])
    && Stacked(canvas.frames, canvas.cy) && AllDisjoint(canvas.cells)
    && (forall c :: c in canvas.cells ==> Framed(canvas.frames, c) && InColumn(nodes, ix, c))
    && (forall n :: n in NodesOf(canvas.cells) <==> TaskOfAny(nodes, wps, n))
    && (DistinctIds(nodes) && DistinctIds(wps) ==> DistinctIds(NodesOf(canvas.cells)))
  }

  function Add(canvas: Canvas, wp: NodeView, cols: seq<seq<NodeView>>): Canvas {
    var frame := ClusterRect(canvas.cy, cols);
    Canvas(canvas.frames + [Frame(wp, frame)], canvas.cells + PackageCells(canvas.cy, cols),
           canvas.cy + frame.h + CLUSTER_GAP)
  }

  lemma FrameGrows(frames: seq<Frame>, cy: int, wp: NodeView, cols: seq<seq<NodeView>>)
    requires Stacked(frames, cy)
    ensures var frame := ClusterRect(cy, cols); Stacked(frames + [Frame(wp, frame)], cy + frame.h + CLUSTER_GAP)
  {
  }

  lemma CellsStayDisjoint(canvas: Canvas, frame: Rect, cells: seq<Cell>)
    requires Stacked(canvas.frames, canvas.cy) && AllDisjoint(canvas.cells) && AllDisjoint(cells)
    requires forall c :: c in canvas.cells ==> Framed(canvas.frames, c)
    requires frame.y == canvas.cy && forall c :: c in cells ==> Inside(c.rect, frame)
    ensures AllDisjoint(canvas.cells + cells)
  {
    forall c, d | c in canvas.cells && d in cells
      ensures Disjoint(c.rect, d.rect)
    {
      assert Framed(canvas.frames, c);
    }
    JoinDisjoint(canvas.cells, cells);
  }

  lemma FramedGrows(frames: seq<Frame>, last: Frame, c: Cell)
    requires Framed(frames, c) || (last.wp.id == c.node.row.parent && Inside(c.rect, last.rect))
    ensures Framed(frames + [last], c)
  {
    if Framed(frames, c) {
      var i :| 0 <= i < |frames| && frames[i].wp.id == c.node.row.parent && Inside(c.rect, frames[i].rect);
      assert (frames + [last])[i] == frames[i];
    } else {
      assert (frames + [last])[|frames|] == last;
    }
  }

  lemma AddHolds(nodes: seq<NodeView>, wps: seq<NodeView>, wp: NodeView, before: seq<NodeView>, more: seq<NodeView>)
    requires forall n :: n in before <==> TaskOfAny(nodes, wps, n)
    requires forall n :: n in more <==> n in nodes && n.row.kind == Task && n.row.parent == wp.id
    ensures forall n :: n in before + more <==> TaskOfAny(nodes, wps + [wp], n)
    ensures DistinctIds(nodes) && DistinctIds(wps + [wp]) && DistinctIds(before) && DistinctIds(more) ==>
              DistinctIds(before + more)
  {
    IdsOfConcat(wps, [wp]);
    if DistinctIds(nodes) && DistinctIds(wps + [wp]) && DistinctIds(before) && DistinctIds(more) {
      assert wp.id !in IdsOf(wps) by {
        forall w | w in wps
          ensures w.id != wp.id
        {
          var i :| 0 <= i < |wps| && wps[i] == w;
          assert (wps + [wp])[i] == w && (wps + [wp])[|wps|] == wp;
        }
      }
      forall a, b | a in before && b in more
        ensures a.id != b.id
      {
        if a.id == b.id {
          SameId(nodes, a, b);
        }
      }
      ConcatDistinct(before, more);
    }
  }

  lemma AddIsTidy(nodes: seq<NodeView>, ix: Index, wps: seq<NodeView>, canvas: Canvas, wp: NodeView, cols: seq<seq<NodeView>>)
    requires Tidy(nodes, ix, wps, canvas)
    requires Arranged(nodes, ix, wp.id, ClusterRect(canvas.cy, cols), PackageCells(canvas.cy, cols))
    ensures Tidy(nodes, ix, wps + [wp], Add(canvas, wp, cols))
  {
    var frame := ClusterRect(canvas.cy, cols);
    var cells := PackageCells(canvas.cy, cols);
    FrameGrows(canvas.frames, canvas.cy, wp, cols);
    CellsStayDisjoint(canvas, frame, cells);
    NodesOfConcat(canvas.cells, cells);
    AddHolds(nodes, wps, wp, NodesOf(canvas.cells), NodesOf(cells));
    assert DistinctIds(wps + [wp]) ==> DistinctIds(wps) by {
      assert forall i :: 0 <= i < |wps| ==> (wps + [wp])[i] == wps[i];
    }
    NodesOfMeans(cells);
    forall c | c in canvas.cells + cells
      ensures Framed(canvas.frames + [Frame(wp, frame)], c) && InColumn(nodes, ix, c)
    {
      assert c in cells ==> c.node in NodesOf(cells);
      FramedGrows(canvas.frames, Frame(wp, frame), c);
    }
  }

  lemma NothingIsTidy(nodes: seq<NodeView>, ix: Index)
    ensures Tidy(nodes, ix, [], Canvas([], [], 20))
  {
  }

  method PlaceClusters(nodes: seq<NodeView>, ix: Index, expanded: seq<NodeView>)
    returns (canvas: Canvas, rects: map<Id, Rect>)
    ensures Tidy(nodes, ix, expanded, canvas) && rects == RectsOf(canvas.cells)
  {
    canvas, rects := Canvas([], [], 20), map[];
    NothingIsTidy(nodes, ix);
    for k := 0 to |expanded|
      invariant Tidy(nodes, ix, expanded[..k], canvas) && rects == RectsOf(canvas.cells)
    {
      assert expanded[..k + 1] == expanded[..k] + [expanded[k]];
      canvas, rects := PlaceCluster(nodes, ix, expanded[..k], canvas, rects, expanded[k]);
    }
    assert expanded[..|expanded|] == expanded;
  }

  /** The loop's body: the next cluster below the last. */
  method PlaceCluster(nodes: seq<NodeView>, ix: Index, ghost placed: seq<NodeView>, above: Canvas, known: map<Id, Rect>,
                      wp: NodeView) returns (canvas: Canvas, rects: map<Id, Rect>)
    requires Tidy(nodes, ix, placed, above) && known == RectsOf(above.cells)
    ensures Tidy(nodes, ix, placed + [wp], canvas) && rects == RectsOf(canvas.cells)
  {
    var tasks := Under(nodes, wp.id, Task);
    var depth := LayerPackage(nodes, ix, wp.id, tasks);
    var cols := ColumnsOf(tasks, depth);
    var frame := ClusterRect(above.cy, cols);
    PackageArranged(nodes, ix, wp.id, depth, above.cy);
    AddIsTidy(nodes, ix, placed, above, wp, cols);
    var cells, more := PlacePackage(above.cells, known, above.cy, cols);
    rects := more;
    canvas := Canvas(above.frames + [Frame(wp, frame)], cells, above.cy + frame.h + CLUSTER_GAP);
  }

  method LayerPackage(nodes: seq<NodeView>, ix: Index, wp: Id, tasks: seq<NodeView>) returns (depth: map<Id, nat>)
    requires tasks == Under(nodes, wp, Task)
    ensures Depths(nodes, ix, wp, depth)
  {
    var ids := IdSeq(tasks);
    IdSeqMeans(tasks);
    var layers := new Layers(ix, set x | x in ids);
    assert layers.own == OwnIds(nodes, wp);
    layers.LayerAll(ids);
    depth := layers.depth;
  }

  /** A dependency between two tasks of one package is drawn from left to right. */
  lemma ArrowsGoRight(nodes: seq<NodeView>, ix: Index, wps: seq<NodeView>, canvas: Canvas, a: Cell, b: Cell)
    requires Tidy(nodes, ix, wps, canvas) && a in canvas.cells && b in canvas.cells
    requires a.node.row.parent == b.node.row.parent && a.node.id in At(ix.blockers, b.node.id)
    requires Acyclic(OwnEdges(ix, OwnIds(nodes, a.node.row.parent)))
    ensures a.rect.x + NODE_W + COL_GAP <= b.rect.x
  {
    var wp := a.node.row.parent;
    var own := OwnIds(nodes, wp);
    var edges := OwnEdges(ix, own);
    NodesOfMeans(canvas.cells);
    UnderMeans(nodes, wp, Task);
    assert a.node in NodesOf(canvas.cells) && b.node in NodesOf(canvas.cells);
    assert a.node in Under(nodes, wp, Task) && b.node in Under(nodes, wp, Task);
    assert Edge(a.node.id, b.node.id) in edges;
    var da: nat :| IsDepth(edges, a.node.id, da) && a.rect.x == ColumnX(da);
    var db: nat :| IsDepth(edges, b.node.id, db) && b.rect.x == ColumnX(db);
    DeeperThanBlocker(edges, a.node.id, b.node.id, da, db);
    ColumnsStack(da, db);
  }
}
