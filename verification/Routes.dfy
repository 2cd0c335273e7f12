/** The rest of the graph view: which package is a cluster and which a box, how large the
    drawing is, and where each dependency goes. */
module Routes {
  import opened FlowTypes
  import opened Forest
  import opened Status
  import opened Invariants
  import opened Delta
  import opened Listing
  import opened Derive
  import opened Counts
  import opened Layout

  // ---- the packages ---------------------------------------------------------------

  function StatePriority(wp: Option<WpState>): int {
    match wp
    case Some(Active) => 0
    case Some(Planned) => 1
    case Some(Closed) => 2
    case _ => 3
  }

  function AtPriority(priority: int): NodeView -> bool {
    (n: NodeView) => n.row.kind == WorkPackage && StatePriority(n.row.wp) == priority
  }

  function PackagesAt(nodes: seq<NodeView>, priority: int): seq<NodeView> {
    Filter(nodes, AtPriority(priority))
  }

  /** The packages in a stable sort by priority. */
  function WorkPackages(nodes: seq<NodeView>): seq<NodeView> {
    PackagesAt(nodes, 0) + PackagesAt(nodes, 1) + PackagesAt(nodes, 2) + PackagesAt(nodes, 3)
  }

  lemma PrioritiesApart(nodes: seq<NodeView>, a: seq<NodeView>, priority: int)
    requires DistinctIds(nodes) && DistinctIds(a)
    requires forall n :: n in a ==> n in nodes && StatePriority(n.row.wp) < priority
    ensures DistinctIds(a + PackagesAt(nodes, priority))
  {
    var b := PackagesAt(nodes, priority);
    FilterMeans(nodes, AtPriority(priority));
    forall m, n | m in a && n in b
      ensures m.id != n.id
    {
      if m.id == n.id {
        SameId(nodes, m, n);
      }
    }
    ConcatDistinct(a, b);
  }

  lemma FourPriorities(nodes: seq<NodeView>)
    ensures forall n, k :: n in PackagesAt(nodes, k) <==> n in nodes && AtPriority(k)(n)
  {
    forall k { FilterMeans(nodes, AtPriority(k)); }
  }

  lemma WorkPackagesMembers(nodes: seq<NodeView>, n: NodeView)
    ensures n in WorkPackages(nodes) <==> n in nodes && n.row.kind == WorkPackage
  {
    FourPriorities(nodes);
    var k := StatePriority(n.row.wp);
    assert n in PackagesAt(nodes, k) <==> n in nodes && n.row.kind == WorkPackage;
  }

  /** The list holds exactly the packages, each once. */
  lemma WorkPackagesMeans(nodes: seq<NodeView>)
    ensures forall n :: n in WorkPackages(nodes) <==> n in nodes && n.row.kind == WorkPackage
    ensures DistinctIds(nodes) ==> DistinctIds(WorkPackages(nodes))
  {
    forall n { WorkPackagesMembers(nodes, n); }
    if DistinctIds(nodes) {
      var a, b, c := PackagesAt(nodes, 0), PackagesAt(nodes, 1), PackagesAt(nodes, 2);
      FourPriorities(nodes);
      FilterMeans(nodes, AtPriority(0));
      PrioritiesApart(nodes, a, 1);
      PrioritiesApart(nodes, a + b, 2);
      PrioritiesApart(nodes, a + b + c, 3);
    }
  }

  lemma {:induction false} FilterConcat(a: seq<NodeView>, b: seq<NodeView>, f: NodeView -> bool)
    ensures Filter(a + b, f) == Filter(a, f) + Filter(b, f)
  {
    if b == [] {
      assert a + b == a;
    } else {
      var front := b[..|b| - 1];
      FilterConcat(a, front, f);
      assert (a + b)[..|a + b| - 1] == a + front;
    }
  }

  /** Filtering the packages of one priority for another's leaves them all, or none. */
  lemma {:induction false} FilterPackages(nodes: seq<NodeView>, k: int, l: int)
    ensures Filter(PackagesAt(nodes, k), AtPriority(l)) == if k == l then PackagesAt(nodes, k) else []
  {
    if nodes != [] {
      var last := nodes[|nodes| - 1];
      var kept := PackagesAt(nodes[..|nodes| - 1], k);
      FilterPackages(nodes[..|nodes| - 1], k, l);
      if AtPriority(k)(last) {
        FilterConcat(kept, [last], AtPriority(l));
        assert AtPriority(l)(last) <==> k == l;
        assert Filter([last], AtPriority(l)) == if k == l then [last] else [];
      }
    }
  }

  ghost predicate InPriority(wps: seq<NodeView>) {
    forall i, j :: 0 <= i < j < |wps| ==> StatePriority(wps[i].row.wp) <= StatePriority(wps[j].row.wp)
  }

  lemma JoinInPriority(a: seq<NodeView>, nodes: seq<NodeView>, k: int)
    requires InPriority(a) && forall n :: n in a ==> StatePriority(n.row.wp) < k
    ensures InPriority(a + PackagesAt(nodes, k))
    ensures forall n :: n in a + PackagesAt(nodes, k) ==> StatePriority(n.row.wp) < k + 1
  {
    var b := PackagesAt(nodes, k);
    FilterMeans(nodes, AtPriority(k));
    assert forall i :: 0 <= i < |a| ==> a[i] in a;
    assert forall i :: 0 <= i < |b| ==> b[i] in b;
  }

  lemma WorkPackagesInPriority(nodes: seq<NodeView>)
    ensures InPriority(WorkPackages(nodes))
  {
    var a, b, c := PackagesAt(nodes, 0), PackagesAt(nodes, 1), PackagesAt(nodes, 2);
    JoinInPriority([], nodes, 0);
    assert [] + a == a;
    JoinInPriority(a, nodes, 1);
    JoinInPriority(a + b, nodes, 2);
    JoinInPriority(a + b + c, nodes, 3);
  }

  /** Priorities do not fall along the list, and packages of the same priority keep the
      order they had: a stable sort. */
  lemma WorkPackagesSorted(nodes: seq<NodeView>, k: int)
    ensures InPriority(WorkPackages(nodes))
    ensures Filter(WorkPackages(nodes), AtPriority(k)) == Filter(nodes, AtPriority(k))
  {
    WorkPackagesInPriority(nodes);
    var a, b, c, d := PackagesAt(nodes, 0), PackagesAt(nodes, 1), PackagesAt(nodes, 2), PackagesAt(nodes, 3);
    FilterConcat(a + b + c, d, AtPriority(k));
    FilterConcat(a + b, c, AtPriority(k));
    FilterConcat(a, b, AtPriority(k));
    FilterPackages(nodes, 0, k);
    FilterPackages(nodes, 1, k);
    FilterPackages(nodes, 2, k);
    FilterPackages(nodes, 3, k);
    if !(0 <= k < 4) {
      NoSuchPriority(nodes, k);
    }
  }

  /** Active packages first, then planned, then closed, then the rest. */
  lemma PackagesInStateOrder(nodes: seq<NodeView>, i: nat, j: nat)
    requires i < j < |WorkPackages(nodes)|
    ensures var first, later := WorkPackages(nodes)[i].row.wp, WorkPackages(nodes)[j].row.wp;
            (later == Some(Active) ==> first == Some(Active))
            && (later == Some(Planned) ==> first == Some(Active) || first == Some(Planned))
            && (later == Some(Closed) ==> first == Some(Active) || first == Some(Planned) || first == Some(Closed))
  {
    WorkPackagesInPriority(nodes);
  }

  lemma {:induction false} NoSuchPriority(nodes: seq<NodeView>, k: int)
    requires !(0 <= k < 4)
    ensures PackagesAt(nodes, k) == []
  {
    if nodes != [] {
      NoSuchPriority(nodes[..|nodes| - 1], k);
    }
  }

  /** The packages on one side of the expanded set. */
  function Picked(wps: seq<NodeView>, shown: set<Id>, wanted: bool): seq<NodeView> {
    Filter(wps, (n: NodeView) => (n.id in shown) == wanted)
  }

  lemma PickedMeans(wps: seq<NodeView>, shown: set<Id>, wanted: bool)
    ensures forall n :: n in Picked(wps, shown, wanted) <==> n in wps && (n.id in shown) == wanted
    ensures DistinctIds(wps) ==> DistinctIds(Picked(wps, shown, wanted))
  {
    FilterMeans(wps, (n: NodeView) => (n.id in shown) == wanted);
  }

  // ---- boxes and size -------------------------------------------------------------

  function BoxesOf(collapsed: seq<NodeView>): seq<Frame> {
    seq(|collapsed|, i requires 0 <= i < |collapsed| =>
      Frame(collapsed[i], Rect(LEFT_COL, 40 + i * (BOX_H + BOX_GAP), BOX_W, BOX_H)))
  }

  function WidestOf(frames: seq<Frame>): (w: int)
    ensures w >= 0 && forall i :: 0 <= i < |frames| ==> frames[i].rect.w <= w
  {
    if frames == [] then 0 else
    var front := WidestOf(frames[..|frames| - 1]);
    var last := frames[|frames| - 1].rect.w;
    if last > front then last else front
  }

  function Max(a: int, b: int): int {
    if a > b then a else b
  }

  function WidthOf(frames: seq<Frame>): int {
    Max(CLUSTER_X + WidestOf(frames) + 60, LEFT_COL + BOX_W + 40)
  }

  function HeightOf(cy: int, boxes: seq<Frame>): int {
    Max(cy + 20, if |boxes| > 0 then boxes[|boxes| - 1].rect.y + BOX_H + 40 else 0)
  }

  lemma {:induction false} WidestIsThere(frames: seq<Frame>)
    ensures WidestOf(frames) == 0 || exists i :: 0 <= i < |frames| && frames[i].rect.w == WidestOf(frames)
  {
    if frames != [] {
      WidestIsThere(frames[..|frames| - 1]);
      if frames[|frames| - 1].rect.w != WidestOf(frames) && WidestOf(frames) != 0 {
        var front := frames[..|frames| - 1];
        var i :| 0 <= i < |front| && front[i].rect.w == WidestOf(frames);
        assert frames[i] == front[i];
      }
    }
  }

  /** In pixels: boxes of 180 by 74 every 100 from 40 down; the drawing ends 60 right of the
      widest cluster, and 20 below the lowest cluster's gap or 40 below the last box. */
  lemma SizeIsTight(frames: seq<Frame>, cy: int, collapsed: seq<NodeView>)
    ensures var boxes := BoxesOf(collapsed);
            (forall i :: 0 <= i < |boxes| ==> boxes[i].rect == Rect(20, 40 + 100 * i, 180, 74))
            && (WidthOf(frames) == 336 || exists i :: 0 <= i < |frames| && WidthOf(frames) == 336 + frames[i].rect.w)
            && HeightOf(cy, boxes) == Max(cy + 20, if boxes == [] then 0 else 54 + 100 * |boxes|)
  {
    WidestIsThere(frames);
  }

  predicate Fits(r: Rect, width: int, height: int) {
    0 <= r.x && r.x + r.w <= width && 0 <= r.y && r.y + r.h <= height
  }

  ghost predicate FramesDisjoint(frames: seq<Frame>) {
    forall i, j :: 0 <= i < j < |frames| ==> Disjoint(frames[i].rect, frames[j].rect)
  }

  /** Clusters, cells and boxes are on the canvas, and only a cell and its own cluster
      overlap. */
  ghost predicate OnCanvas(frames: seq<Frame>, cells: seq<Cell>, boxes: seq<Frame>, width: int, height: int) {
    FramesDisjoint(frames) && FramesDisjoint(boxes) && AllDisjoint(cells)
    && (forall c :: c in cells ==> Framed(frames, c) && Fits(c.rect, width, height))
    && (forall f :: f in frames ==> Fits(f.rect, width, height))
    && (forall b :: b in boxes ==> Fits(b.rect, width, height))
    && (forall f, b :: f in frames && b in boxes ==> Disjoint(f.rect, b.rect))
    && (forall c, b :: c in cells && b in boxes ==> Disjoint(c.rect, b.rect))
  }

  lemma BoxesStack(collapsed: seq<NodeView>)
    ensures var boxes := BoxesOf(collapsed);
            FramesDisjoint(boxes)
            && forall i :: 0 <= i < |boxes| ==> boxes[i].rect.y + BOX_H <= boxes[|boxes| - 1].rect.y + BOX_H
  {
  }

  lemma FramesStack(frames: seq<Frame>, cy: int)
    requires Stacked(frames, cy)
    ensures FramesDisjoint(frames)
  {
  }

  lemma EverythingFits(nodes: seq<NodeView>, ix: Index, wps: seq<NodeView>, canvas: Canvas, collapsed: seq<NodeView>)
    requires Tidy(nodes, ix, wps, canvas)
    ensures var boxes := BoxesOf(collapsed);
            OnCanvas(canvas.frames, canvas.cells, boxes, WidthOf(canvas.frames), HeightOf(canvas.cy, boxes))
  {
    var boxes := BoxesOf(collapsed);
    BoxesStack(collapsed);
    FramesStack(canvas.frames, canvas.cy);
    forall c | c in canvas.cells
      ensures Framed(canvas.frames, c) && Fits(c.rect, WidthOf(canvas.frames), HeightOf(canvas.cy, boxes))
      ensures c.rect.x >= CLUSTER_X
    {
      var i :| 0 <= i < |canvas.frames| && canvas.frames[i].wp.id == c.node.row.parent
               && Inside(c.rect, canvas.frames[i].rect);
    }
  }

  // ---- where an id is drawn -------------------------------------------------------

  datatype Spot = Spot(key: Id, rect: Rect, isTask: bool)

  datatype Places = Places(byId: map<Id, NodeView>, cells: map<Id, Rect>, clusters: map<Id, Rect>, boxes: map<Id, Rect>)

  /** Where the walk up from a step goes next. */
  function Up(byId: map<Id, NodeView>, id: Id): Option<Id> {
    if id in byId && byId[id].row.kind == Step && byId[id].row.parent != NO_ID && byId[id].row.parent in byId
    then Some(byId[id].row.parent) else None
  }

  ghost predicate StopsIn(byId: map<Id, NodeView>, id: Id, k: nat)
    decreases k
  {
    match Up(byId, id)
    case None => true
    case Some(t) => k > 0 && StopsIn(byId, t, k - 1)
  }

  /** Going up from id ends. */
  ghost predicate Stops(byId: map<Id, NodeView>, id: Id) {
    exists k: nat :: StopsIn(byId, id, k)
  }

  ghost function HeightIn(byId: map<Id, NodeView>, id: Id, k: nat): nat
    requires StopsIn(byId, id, k)
    decreases k
  {
    match Up(byId, id)
    case None => 0
    case Some(t) => 1 + HeightIn(byId, t, k - 1)
  }

  ghost function Height(byId: map<Id, NodeView>, id: Id): (h: nat)
    requires Stops(byId, id)
    ensures exists k: nat :: StopsIn(byId, id, k) && h == HeightIn(byId, id, k)
  {
    var k: nat :| StopsIn(byId, id, k);
    HeightIn(byId, id, k)
  }

  lemma {:induction false} HeightIsOne(byId: map<Id, NodeView>, id: Id, j: nat, k: nat)
    requires StopsIn(byId, id, j) && StopsIn(byId, id, k)
    ensures HeightIn(byId, id, j) == HeightIn(byId, id, k)
    decreases j
  {
    match Up(byId, id)
    case None =>
    case Some(t) => HeightIsOne(byId, t, j - 1, k - 1);
  }

  lemma UpIsLower(byId: map<Id, NodeView>, id: Id, t: Id)
    requires Stops(byId, id) && Up(byId, id) == Some(t)
    ensures Stops(byId, t) && Height(byId, t) < Height(byId, id)
  {
    var k: nat :| StopsIn(byId, id, k);
    assert StopsIn(byId, t, k - 1);
    var j: nat :| StopsIn(byId, id, j) && Height(byId, id) == HeightIn(byId, id, j);
    var i: nat :| StopsIn(byId, t, i) && Height(byId, t) == HeightIn(byId, t, i);
    assert StopsIn(byId, t, j - 1);
    HeightIsOne(byId, t, i, j - 1);
  }

  function Resolve(pl: Places, id: Id): Option<Spot>
    requires Stops(pl.byId, id)
    decreases Height(pl.byId, id)
  {
    if id !in pl.byId then None else
    var n := pl.byId[id];
    match n.row.kind
    case Task =>
      if id in pl.cells then Some(Spot(id, pl.cells[id], true))
      else if n.row.parent in pl.boxes then Some(Spot(n.row.parent, pl.boxes[n.row.parent], false))
      else None
    case Step =>
      if n.row.parent != NO_ID && n.row.parent in pl.byId then
        UpIsLower(pl.byId, id, n.row.parent);
        Resolve(pl, n.row.parent)
      else None
    case WorkPackage =>
      if id in pl.clusters then Some(Spot(id, pl.clusters[id], false))
      else if id in pl.boxes then Some(Spot(id, pl.boxes[id], false))
      else None
  }

  /** A node is drawn on its own cell when it is a task, and on the cluster or the box with the
      key otherwise. */
  lemma {:induction false} ResolvePlaces(pl: Places, id: Id)
    requires Stops(pl.byId, id) && Resolve(pl, id).Some?
    ensures var spot := Resolve(pl, id).value;
            if spot.isTask then spot.key in pl.cells && spot.rect == pl.cells[spot.key]
            else (spot.key in pl.clusters && spot.rect == pl.clusters[spot.key])
                 || (spot.key in pl.boxes && spot.rect == pl.boxes[spot.key])
    decreases Height(pl.byId, id)
  {
    if Up(pl.byId, id).Some? {
      UpIsLower(pl.byId, id, Up(pl.byId, id).value);
      ResolvePlaces(pl, Up(pl.byId, id).value);
    }
  }

  function FrameRects(frames: seq<Frame>): map<Id, Rect> {
    if frames == [] then map[] else
    FrameRects(frames[..|frames| - 1])[frames[|frames| - 1].wp.id := frames[|frames| - 1].rect]
  }

  // ---- routing --------------------------------------------------------------------

  datatype Line = Line(edge: Edge, satisfied: bool)
  datatype Rollup = Rollup(from: Rect, to: Rect, count: nat)

  /** Both ends are drawn, in different places. */
  ghost predicate Parted(pl: Places, d: Edge) {
    Stops(pl.byId, d.blocker) && Stops(pl.byId, d.blocked) &&
    var a, b := Resolve(pl, d.blocker), Resolve(pl, d.blocked);
    a.Some? && b.Some? && a.value.key != b.value.key
  }

  ghost predicate Direct(pl: Places, d: Edge) {
    Parted(pl, d) && Resolve(pl, d.blocker).value.isTask && Resolve(pl, d.blocked).value.isTask
  }

  ghost predicate RollsUp(pl: Places, d: Edge, k: (Id, Id)) {
    Parted(pl, d) && !Direct(pl, d)
    && k == (Resolve(pl, d.blocker).value.key, Resolve(pl, d.blocked).value.key)
  }

  function LineOf(pl: Places, d: Edge): Line {
    Line(d, d.blocker in pl.byId && pl.byId[d.blocker].status == IsDone)
  }

  ghost function LinesOf(pl: Places, deps: seq<Edge>): seq<Line> {
    if deps == [] then [] else
    var last := deps[|deps| - 1];
    var front := LinesOf(pl, deps[..|deps| - 1]);
    if Direct(pl, last) then front + [LineOf(pl, last)] else front
  }

  ghost function IsParted(pl: Places): Edge -> bool {
    (d: Edge) => Parted(pl, d)
  }

  ghost function IsDirect(pl: Places): Edge -> bool {
    (d: Edge) => Direct(pl, d)
  }

  ghost function IsRolled(pl: Places, k: (Id, Id)): Edge -> bool {
    (d: Edge) => RollsUp(pl, d, k)
  }

  ghost function PartedAt(pl: Places, deps: seq<Edge>): set<nat> {
    Where(deps, IsParted(pl))
  }

  ghost function DirectAt(pl: Places, deps: seq<Edge>): set<nat> {
    Where(deps, IsDirect(pl))
  }

  ghost function RolledAt(pl: Places, deps: seq<Edge>, k: (Id, Id)): set<nat> {
    Where(deps, IsRolled(pl, k))
  }

  /** The rollup for k counts exactly the dependencies that roll up to k, and joins their
      ends' rectangles. */
  ghost predicate Tallied(pl: Places, deps: seq<Edge>, k: (Id, Id), r: Rollup)
  {
    r.count == |RolledAt(pl, deps, k)|
    && exists i :: i in RolledAt(pl, deps, k)
                   && r.from == Resolve(pl, deps[i].blocker).value.rect && r.to == Resolve(pl, deps[i].blocked).value.rect
  }

  ghost predicate Routed(pl: Places, deps: seq<Edge>, lines: seq<Line>, rollups: map<(Id, Id), Rollup>)
  {
    lines == LinesOf(pl, deps)
    && (forall k :: k in rollups ==> Tallied(pl, deps, k, rollups[k]))
    && (forall k :: k !in rollups ==> RolledAt(pl, deps, k) == {})
  }

  lemma RolledAppend(pl: Places, deps: seq<Edge>, d: Edge, k: (Id, Id))
    ensures |RolledAt(pl, deps + [d], k)| == |RolledAt(pl, deps, k)| + if RollsUp(pl, d, k) then 1 else 0
    ensures !RollsUp(pl, d, k) && RolledAt(pl, deps, k) == {} ==> RolledAt(pl, deps + [d], k) == {}
  {
    WhereAppend(deps, d, IsRolled(pl, k));
  }

  lemma TalliedStays(pl: Places, deps: seq<Edge>, d: Edge, k: (Id, Id), r: Rollup)
    requires Tallied(pl, deps, k, r) && !RollsUp(pl, d, k)
    ensures Tallied(pl, deps + [d], k, r)
  {
    RolledAppend(pl, deps, d, k);
    var i :| i in RolledAt(pl, deps, k)
             && r.from == Resolve(pl, deps[i].blocker).value.rect && r.to == Resolve(pl, deps[i].blocked).value.rect;
    assert (deps + [d])[i] == deps[i];
  }

  lemma TalliedBumps(pl: Places, deps: seq<Edge>, d: Edge, k: (Id, Id))
    requires RollsUp(pl, d, k)
    ensures Tallied(pl, deps + [d], k,
                    Rollup(Resolve(pl, d.blocker).value.rect, Resolve(pl, d.blocked).value.rect,
                           |RolledAt(pl, deps, k)| + 1))
  {
    RolledAppend(pl, deps, d, k);
    assert |deps| in RolledAt(pl, deps + [d], k) && (deps + [d])[|deps|] == d;
  }

  method RouteEdges(pl: Places, deps: seq<Edge>) returns (lines: seq<Line>, rollups: map<(Id, Id), Rollup>)
    requires forall d :: d in deps ==> Stops(pl.byId, d.blocker) && Stops(pl.byId, d.blocked)
    ensures Routed(pl, deps, lines, rollups)
  {
    lines, rollups := [], map[];
    for i := 0 to |deps|
      invariant Routed(pl, deps[..i], lines, rollups)
    {
      var d := deps[i];
      assert d in deps;
      assert deps[..i + 1] == deps[..i] + [d];
      var a := Resolve(pl, d.blocker);
      var b := Resolve(pl, d.blocked);
      var nextLines, nextRollups := RouteOne(pl, d, a, b, lines, rollups);
      RouteStep(pl, deps[..i], d, a, b, lines, rollups, nextLines, nextRollups);
      lines, rollups := nextLines, nextRollups;
    }
    assert deps[..|deps|] == deps;
  }

  method RouteOne(pl: Places, d: Edge, a: Option<Spot>, b: Option<Spot>, linesSoFar: seq<Line>,
                  rollupsSoFar: map<(Id, Id), Rollup>) returns (lines: seq<Line>, rollups: map<(Id, Id), Rollup>)
    ensures OneStep(pl, d, a, b, linesSoFar, rollupsSoFar, lines, rollups)
  {
    lines, rollups := linesSoFar, rollupsSoFar;
    if a.Some? && b.Some? && a.value.key != b.value.key {
      if a.value.isTask && b.value.isTask {
        lines := lines + [LineOf(pl, d)];
      } else {
        var key := (a.value.key, b.value.key);
        var sofar := if key in rollups then rollups[key].count else 0;
        rollups := rollups[key := Rollup(a.value.rect, b.value.rect, sofar + 1)];
      }
    }
  }

  /** The loop's body, for a dependency d between spots a and b. */
  ghost predicate OneStep(pl: Places, d: Edge, a: Option<Spot>, b: Option<Spot>,
                          lines: seq<Line>, rollups: map<(Id, Id), Rollup>,
                          lines': seq<Line>, rollups': map<(Id, Id), Rollup>) {
    if a.None? || b.None? || a.value.key == b.value.key then lines' == lines && rollups' == rollups
    else if a.value.isTask && b.value.isTask then lines' == lines + [LineOf(pl, d)] && rollups' == rollups
    else
      var key := (a.value.key, b.value.key);
      lines' == lines
      && rollups' == rollups[key := Rollup(a.value.rect, b.value.rect,
                                           1 + if key in rollups then rollups[key].count else 0)]
  }

  lemma RouteStep(pl: Places, deps: seq<Edge>, d: Edge, a: Option<Spot>, b: Option<Spot>,
                  lines: seq<Line>, rollups: map<(Id, Id), Rollup>, lines': seq<Line>, rollups': map<(Id, Id), Rollup>)
    requires Routed(pl, deps, lines, rollups)
    requires Stops(pl.byId, d.blocker) && Stops(pl.byId, d.blocked)
    requires a == Resolve(pl, d.blocker) && b == Resolve(pl, d.blocked)
    requires OneStep(pl, d, a, b, lines, rollups, lines', rollups')
    ensures Routed(pl, deps + [d], lines', rollups')
  {
    assert (deps + [d])[..|deps|] == deps;
    forall k
      ensures if k in rollups' then Tallied(pl, deps + [d], k, rollups'[k]) else RolledAt(pl, deps + [d], k) == {}
    {
      RouteStepAt(pl, deps, d, a, b, lines, rollups, lines', rollups', k);
    }
  }

  lemma RouteStepAt(pl: Places, deps: seq<Edge>, d: Edge, a: Option<Spot>, b: Option<Spot>,
                    lines: seq<Line>, rollups: map<(Id, Id), Rollup>, lines': seq<Line>, rollups': map<(Id, Id), Rollup>,
                    k: (Id, Id))
    requires if k in rollups then Tallied(pl, deps, k, rollups[k]) else RolledAt(pl, deps, k) == {}
    requires Stops(pl.byId, d.blocker) && Stops(pl.byId, d.blocked)
    requires a == Resolve(pl, d.blocker) && b == Resolve(pl, d.blocked)
    requires OneStep(pl, d, a, b, lines, rollups, lines', rollups')
    ensures if k in rollups' then Tallied(pl, deps + [d], k, rollups'[k]) else RolledAt(pl, deps + [d], k) == {}
  {
    RolledAppend(pl, deps, d, k);
    if RollsUp(pl, d, k) {
      TalliedBumps(pl, deps, d, k);
    } else if k in rollups {
      TalliedStays(pl, deps, d, k, rollups[k]);
    }
  }

  // ---- nothing is dropped ---------------------------------------------------------

  ghost function PickPair(keys: set<(Id, Id)>): (k: (Id, Id))
    requires keys != {}
    ensures k in keys
  {
    var k :| k in keys;
    k
  }

  ghost function SumCounts(rollups: map<(Id, Id), Rollup>, keys: set<(Id, Id)>): nat
    requires keys <= rollups.Keys
  {
    if keys == {} then 0 else
    var k := PickPair(keys);
    rollups[k].count + SumCounts(rollups, keys - {k})
  }

  ghost function RolledUnder(pl: Places, deps: seq<Edge>, keys: set<(Id, Id)>): set<nat>
  {
    set i: nat | i < |deps| && exists k :: k in keys && RollsUp(pl, deps[i], k)
  }

  lemma RolledSplits(pl: Places, deps: seq<Edge>, keys: set<(Id, Id)>, k: (Id, Id))
    requires k in keys
    ensures |RolledUnder(pl, deps, keys)| == |RolledAt(pl, deps, k)| + |RolledUnder(pl, deps, keys - {k})|
  {
    var here, rest := RolledAt(pl, deps, k), RolledUnder(pl, deps, keys - {k});
    assert RolledUnder(pl, deps, keys) == here + rest;
    assert here !! rest;
  }

  lemma {:induction false} SumIsRolled(pl: Places, deps: seq<Edge>, rollups: map<(Id, Id), Rollup>, keys: set<(Id, Id)>)
    requires keys <= rollups.Keys
    requires forall k :: k in keys ==> rollups[k].count == |RolledAt(pl, deps, k)|
    ensures SumCounts(rollups, keys) == |RolledUnder(pl, deps, keys)|
    decreases |keys|
  {
    if keys == {} {
      assert RolledUnder(pl, deps, keys) == {};
    } else {
      var k := PickPair(keys);
      SumIsRolled(pl, deps, rollups, keys - {k});
      RolledSplits(pl, deps, keys, k);
    }
  }

  lemma RoutedCounts(pl: Places, deps: seq<Edge>, lines: seq<Line>, rollups: map<(Id, Id), Rollup>)
    requires Routed(pl, deps, lines, rollups)
    ensures forall k :: k in rollups ==> rollups[k].count == |RolledAt(pl, deps, k)|
  {
    forall k | k in rollups
      ensures rollups[k].count == |RolledAt(pl, deps, k)|
    {
      assert Tallied(pl, deps, k, rollups[k]);
    }
  }

  lemma {:induction false} LinesAreDirect(pl: Places, deps: seq<Edge>)
    ensures |LinesOf(pl, deps)| == |DirectAt(pl, deps)|
  {
    if deps == [] {
      assert DirectAt(pl, deps) == {};
    } else {
      var n := |deps| - 1;
      LinesAreDirect(pl, deps[..n]);
      WhereAppend(deps[..n], deps[n], IsDirect(pl));
      assert deps == deps[..n] + [deps[n]];
    }
  }

  ghost predicate CoversRollups(pl: Places, deps: seq<Edge>, keys: set<(Id, Id)>)
  {
    forall k :: k !in keys ==> RolledAt(pl, deps, k) == {}
  }

  lemma PartedIsEither(pl: Places, deps: seq<Edge>, keys: set<(Id, Id)>, i: nat)
    requires CoversRollups(pl, deps, keys) && i < |deps|
    ensures Parted(pl, deps[i]) <==> Direct(pl, deps[i]) || i in RolledUnder(pl, deps, keys)
    ensures !(Direct(pl, deps[i]) && i in RolledUnder(pl, deps, keys))
  {
    if Parted(pl, deps[i]) && !Direct(pl, deps[i]) {
      var k := (Resolve(pl, deps[i].blocker).value.key, Resolve(pl, deps[i].blocked).value.key);
      assert i in RolledAt(pl, deps, k);
    }
  }

  lemma PartedSplits(pl: Places, deps: seq<Edge>, keys: set<(Id, Id)>)
    requires CoversRollups(pl, deps, keys)
    ensures |PartedAt(pl, deps)| == |DirectAt(pl, deps)| + |RolledUnder(pl, deps, keys)|
  {
    var parted, direct, rolled := PartedAt(pl, deps), DirectAt(pl, deps), RolledUnder(pl, deps, keys);
    forall i: nat | i < |deps|
      ensures i in parted <==> i in direct || i in rolled
      ensures !(i in direct && i in rolled)
    {
      PartedIsEither(pl, deps, keys, i);
    }
    assert parted == direct + rolled;
    assert direct !! rolled;
  }

  /** Lines plus rollup counts are the dependencies whose ends are drawn in different
      places: none is lost and none counted twice. */
  lemma RoutesConserve(pl: Places, deps: seq<Edge>, lines: seq<Line>, rollups: map<(Id, Id), Rollup>)
    requires Routed(pl, deps, lines, rollups)
    ensures |lines| + SumCounts(rollups, rollups.Keys) == |PartedAt(pl, deps)|
  {
    LinesAreDirect(pl, deps);
    RoutedCounts(pl, deps, lines, rollups);
    SumIsRolled(pl, deps, rollups, rollups.Keys);
    PartedSplits(pl, deps, rollups.Keys);
  }

  // ---- the whole drawing ----------------------------------------------------------

  datatype Drawing = Drawing(
    width: int, height: int, clusters: seq<Frame>, cells: seq<Cell>, boxes: seq<Frame>,
    lines: seq<Line>, rollups: map<(Id, Id), Rollup>)

  function Expanded(nodes: seq<NodeView>, shown: set<Id>): seq<NodeView> {
    Picked(WorkPackages(nodes), shown, true)
  }

  function Collapsed(nodes: seq<NodeView>, shown: set<Id>): seq<NodeView> {
    Picked(WorkPackages(nodes), shown, false)
  }

  lemma {:induction false} FrameRectsKeys(frames: seq<Frame>)
    ensures forall x :: x in FrameRects(frames) <==> exists i :: 0 <= i < |frames| && frames[i].wp.id == x
  {
    if frames != [] {
      var n := |frames| - 1;
      FrameRectsKeys(frames[..n]);
      forall x
        ensures x in FrameRects(frames) <==> exists i :: 0 <= i < |frames| && frames[i].wp.id == x
      {
        if x in FrameRects(frames[..n]) {
          var i :| 0 <= i < n && frames[..n][i].wp.id == x;
          assert frames[i].wp.id == x;
        }
        if x !in FrameRects(frames[..n]) && exists i :: 0 <= i < |frames| && frames[i].wp.id == x {
          var i :| 0 <= i < |frames| && frames[i].wp.id == x;
          assert i < n ==> frames[..n][i].wp.id == x;
        }
      }
    }
  }

  lemma {:induction false} RectsOfKeys(cells: seq<Cell>)
    ensures RectsOf(cells).Keys == IdsOf(NodesOf(cells))
  {
    if cells != [] {
      var n := |cells| - 1;
      RectsOfKeys(cells[..n]);
      NodesOfConcat(cells[..n], [cells[n]]);
      assert cells == cells[..n] + [cells[n]];
      IdsOfConcat(NodesOf(cells[..n]), NodesOf([cells[n]]));
      assert NodesOf([cells[n]]) == [cells[n].node];
    }
  }

  /** The lookup of a list; of entries with one id the last counts. */
  ghost function ById(nodes: seq<NodeView>): map<Id, NodeView> {
    map id | id in IdsOf(nodes) && FindNode(nodes, id).Some? :: FindNode(nodes, id).value
  }

  lemma IndexIsById(ix: Index, nodes: seq<NodeView>, deps: seq<Edge>)
    requires IndexOf(ix, nodes, deps)
    ensures ix.byId == ById(nodes)
  {
    forall id
      ensures id in ix.byId <==> id in ById(nodes)
      ensures id in ix.byId ==> ix.byId[id] == ById(nodes)[id]
    {
      FindMeans(nodes, id);
    }
  }

  /** Going up from either end of a listed dependency ends. */
  ghost predicate EndsStop(nodes: seq<NodeView>, deps: seq<Edge>) {
    forall d :: d in deps ==> Stops(ById(nodes), d.blocker) && Stops(ById(nodes), d.blocked)
  }

  /** A project's own lists can always be drawn. */
  lemma ProjectStepsEnd(db: Db, p: Id, nodes: seq<NodeView>, deps: seq<Edge>)
    requires Inv(db) && Lists(nodes, deps, Snapshot(db, p))
    ensures (forall id :: Stops(ById(nodes), id)) && EndsStop(nodes, deps)
  {
    var byId := ById(nodes);
    ListedMeans(db, p, nodes, deps);
    forall id
      ensures Stops(byId, id)
    {
      FindMeans(nodes, id);
      if Up(byId, id).Some? {
        var t := Up(byId, id).value;
        FindMeans(nodes, t);
        assert Placed(db.nodes, db.nodes[id]);
        assert StopsIn(byId, t, 0);
        assert StopsIn(byId, id, 1);
      } else {
        assert StopsIn(byId, id, 0);
      }
    }
  }

  /** The lookups hold every package on its side, and the tasks of the expanded ones. */
  ghost predicate PlacesOf(pl: Places, nodes: seq<NodeView>, shown: set<Id>) {
    var expanded := Expanded(nodes, shown);
    pl.clusters.Keys == IdsOf(expanded) && pl.boxes.Keys == IdsOf(Collapsed(nodes, shown))
    && pl.cells.Keys == set n | n in nodes && TaskOfAny(nodes, expanded, n) :: n.id
  }

  lemma PlacesAreKnown(nodes: seq<NodeView>, ix: Index, shown: set<Id>, canvas: Canvas)
    requires Tidy(nodes, ix, Expanded(nodes, shown), canvas)
    ensures PlacesOf(Places(ix.byId, RectsOf(canvas.cells), FrameRects(canvas.frames),
                            FrameRects(BoxesOf(Collapsed(nodes, shown)))), nodes, shown)
  {
    var expanded, collapsed := Expanded(nodes, shown), Collapsed(nodes, shown);
    RectsOfKeys(canvas.cells);
    FrameIds(canvas.frames, expanded);
    FrameIds(BoxesOf(collapsed), collapsed);
  }

  lemma {:induction false} FrameIds(frames: seq<Frame>, wps: seq<NodeView>)
    requires |frames| == |wps| && forall i :: 0 <= i < |wps| ==> frames[i].wp == wps[i]
    ensures FrameRects(frames).Keys == IdsOf(wps)
  {
    FrameRectsKeys(frames);
    forall x | x in IdsOf(wps)
      ensures x in FrameRects(frames)
    {
      var w :| w in wps && w.id == x;
      var i :| 0 <= i < |wps| && wps[i] == w;
      assert frames[i].wp.id == x;
    }
    forall x | x in FrameRects(frames)
      ensures x in IdsOf(wps)
    {
      var i :| 0 <= i < |frames| && frames[i].wp.id == x;
      assert wps[i] in wps;
    }
  }

  method LayoutGraph(nodes: seq<NodeView>, deps: seq<Edge>, shown: set<Id>)
    returns (g: Drawing, ghost ix: Index, ghost pl: Places, ghost canvas: Canvas)
    requires EndsStop(nodes, deps)
    ensures IndexOf(ix, nodes, deps) && PlacesOf(pl, nodes, shown)
    ensures pl == Places(ix.byId, RectsOf(g.cells), FrameRects(g.clusters), FrameRects(g.boxes))
    ensures Tidy(nodes, ix, Expanded(nodes, shown), canvas) && canvas.frames == g.clusters && canvas.cells == g.cells
    ensures OnCanvas(g.clusters, g.cells, g.boxes, g.width, g.height)
    ensures |g.boxes| == |Collapsed(nodes, shown)|
            && forall i :: 0 <= i < |g.boxes| ==> g.boxes[i].wp == Collapsed(nodes, shown)[i]
    ensures Routed(pl, deps, g.lines, g.rollups)
  {
    var index := BuildIndex(nodes, deps);
    ix := index;
    IndexIsById(ix, nodes, deps);
    var wps := WorkPackages(nodes);
    var expanded := Picked(wps, shown, true);
    var collapsed := Picked(wps, shown, false);
    var drawn, rects := PlaceClusters(nodes, index, expanded);
    canvas := drawn;
    var boxes := BoxesOf(collapsed);
    var places := Places(index.byId, rects, FrameRects(drawn.frames), FrameRects(boxes));
    pl := places;
    PlacesAreKnown(nodes, ix, shown, canvas);
    EverythingFits(nodes, ix, expanded, canvas, collapsed);
    var lines, rollups := RouteEdges(places, deps);
    g := Drawing(WidthOf(drawn.frames), HeightOf(drawn.cy, boxes), drawn.frames, drawn.cells, boxes, lines, rollups);
  }

  // ---- a project's dependencies ---------------------------------------------------

  /** What stands for a node on the canvas: its package when that is folded away, its task
      otherwise, and a package itself. */
  function StandIn(nodes: map<Id, Node>, shown: set<Id>, id: Id): Id
    requires id in nodes
  {
    match nodes[id].kind
    case WorkPackage => id
    case Task => if nodes[id].parent in shown then id else nodes[id].parent
    case Step =>
      var t := nodes[id].parent;
      if t !in nodes || nodes[t].parent in shown then t else nodes[t].parent
  }

  /** Everything above the node, up to its package, is the project's. */
  predicate Anchored(nodes: map<Id, Node>, p: Id, id: Id) {
    InProject(nodes, p, id)
    && match nodes[id].kind
       case WorkPackage => true
       case Task => InProject(nodes, p, nodes[id].parent)
       case Step =>
         InProject(nodes, p, nodes[id].parent) && InProject(nodes, p, nodes[nodes[id].parent].parent)
  }

  ghost predicate Viewed(pl: Places, db: Db, p: Id) {
    (forall x :: x in pl.byId <==> InProject(db.nodes, p, x))
    && (forall x :: x in pl.byId ==> pl.byId[x].row == db.nodes[x])
    && forall x :: Stops(pl.byId, x)
  }

  lemma ProjectIsViewed(db: Db, p: Id, nodes: seq<NodeView>, deps: seq<Edge>, ix: Index, pl: Places)
    requires Inv(db) && Lists(nodes, deps, Snapshot(db, p)) && IndexOf(ix, nodes, deps) && pl.byId == ix.byId
    ensures Viewed(pl, db, p)
  {
    ListedMeans(db, p, nodes, deps);
    ProjectStepsEnd(db, p, nodes, deps);
    IndexIsById(ix, nodes, deps);
    forall x
      ensures x in pl.byId <==> InProject(db.nodes, p, x)
      ensures x in pl.byId ==> pl.byId[x].row == db.nodes[x]
    {
      FindMeans(nodes, x);
      if InProject(db.nodes, p, x) {
        assert ViewOf(db, x) in nodes;
      }
    }
  }

  /** A package of the project is a cluster or a box. */
  lemma PackageHasPlace(db: Db, p: Id, nodes: seq<NodeView>, deps: seq<Edge>, pl: Places, shown: set<Id>, wp: Id)
    requires Lists(nodes, deps, Snapshot(db, p)) && PlacesOf(pl, nodes, shown)
    ensures var own := InProject(db.nodes, p, wp) && db.nodes[wp].kind == WorkPackage;
            (wp in pl.clusters <==> own && wp in shown) && (wp in pl.boxes <==> own && wp !in shown)
  {
    ListedMeans(db, p, nodes, deps);
    WorkPackagesMeans(nodes);
    PickedMeans(WorkPackages(nodes), shown, true);
    PickedMeans(WorkPackages(nodes), shown, false);
    if InProject(db.nodes, p, wp) {
      var view := ViewOf(db, wp);
      assert view in nodes && view.id == wp;
      assert view in Expanded(nodes, shown) <==> view in WorkPackages(nodes) && wp in shown;
      assert view in Collapsed(nodes, shown) <==> view in WorkPackages(nodes) && wp !in shown;
    }
  }

  /** A task of the project has a cell exactly when its package is a cluster. */
  lemma TaskHasPlace(db: Db, p: Id, nodes: seq<NodeView>, deps: seq<Edge>, pl: Places, shown: set<Id>, t: Id)
    requires Inv(db) && Lists(nodes, deps, Snapshot(db, p)) && PlacesOf(pl, nodes, shown)
    requires TaskIn(db.nodes, p, t)
    ensures var wp := db.nodes[t].parent;
            (t in pl.cells <==> InProject(db.nodes, p, wp) && wp in shown)
            && (wp in pl.boxes <==> InProject(db.nodes, p, wp) && wp !in shown)
  {
    var wp := db.nodes[t].parent;
    ListedMeans(db, p, nodes, deps);
    ChainsAreShort(db.nodes, t);
    PackageHasPlace(db, p, nodes, deps, pl, shown, wp);
    assert ViewOf(db, t) in nodes;
    assert wp in pl.clusters <==> exists w :: w in Expanded(nodes, shown) && w.id == wp;
  }

  /** A node of a project has a place exactly when it is anchored there: the place of its
      stand-in. */
  lemma EveryNodeIsDrawn(db: Db, p: Id, nodes: seq<NodeView>, deps: seq<Edge>, pl: Places, shown: set<Id>, x: Id)
    requires Inv(db) && Lists(nodes, deps, Snapshot(db, p))
    requires Viewed(pl, db, p) && PlacesOf(pl, nodes, shown)
    ensures Resolve(pl, x).Some? <==> Anchored(db.nodes, p, x)
    ensures Anchored(db.nodes, p, x) ==>
              Resolve(pl, x).value.key == StandIn(db.nodes, shown, x)
              && (Resolve(pl, x).value.isTask
                  <==> db.nodes[x].kind != WorkPackage && db.nodes[StandIn(db.nodes, shown, x)].kind == Task)
  {
    if InProject(db.nodes, p, x) {
      ChainsAreShort(db.nodes, x);
      match db.nodes[x].kind
      case WorkPackage => PackageHasPlace(db, p, nodes, deps, pl, shown, x);
      case Task => TaskHasPlace(db, p, nodes, deps, pl, shown, x);
      case Step =>
        var t := db.nodes[x].parent;
        if InProject(db.nodes, p, t) {
          ChainsAreShort(db.nodes, t);
          TaskHasPlace(db, p, nodes, deps, pl, shown, t);
        }
    }
  }

  /** The dependencies between anchored nodes with different stand-ins. */
  ghost function Visible(nodes: map<Id, Node>, p: Id, deps: seq<Edge>, shown: set<Id>): set<Edge> {
    set d | d in deps && Anchored(nodes, p, d.blocker) && Anchored(nodes, p, d.blocked)
            && StandIn(nodes, shown, d.blocker) != StandIn(nodes, shown, d.blocked)
  }

  ghost function PartedEdgesOf(pl: Places, deps: seq<Edge>): set<Edge> {
    set d | d in deps && Parted(pl, d)
  }

  /** Lines plus rollup counts are exactly the dependencies between anchored nodes with
      different stand-ins; one with an end under another project's task or package is
      dropped. */
  lemma NoDependencyIsDropped(db: Db, p: Id, nodes: seq<NodeView>, deps: seq<Edge>, ix: Index, pl: Places,
                              shown: set<Id>, lines: seq<Line>, rollups: map<(Id, Id), Rollup>)
    requires Inv(db) && Lists(nodes, deps, Snapshot(db, p)) && IndexOf(ix, nodes, deps)
    requires pl.byId == ix.byId && PlacesOf(pl, nodes, shown) && Routed(pl, deps, lines, rollups)
    ensures |lines| + SumCounts(rollups, rollups.Keys) == |Visible(db.nodes, p, deps, shown)|
  {
    ProjectIsViewed(db, p, nodes, deps, ix, pl);
    RoutesConserve(pl, deps, lines, rollups);
    PartedEdges(pl, deps);
    VisibleIsParted(db, p, nodes, deps, pl, shown);
  }

  lemma VisibleIsParted(db: Db, p: Id, nodes: seq<NodeView>, deps: seq<Edge>, pl: Places, shown: set<Id>)
    requires Inv(db) && Lists(nodes, deps, Snapshot(db, p))
    requires Viewed(pl, db, p) && PlacesOf(pl, nodes, shown)
    ensures PartedEdgesOf(pl, deps) == Visible(db.nodes, p, deps, shown)
  {
    forall x { EveryNodeIsDrawn(db, p, nodes, deps, pl, shown, x); }
  }

  lemma PartedEdgesAppend(pl: Places, deps: seq<Edge>, d: Edge)
    requires d !in deps
    ensures |PartedEdgesOf(pl, deps + [d])| == |PartedEdgesOf(pl, deps)| + if Parted(pl, d) then 1 else 0
  {
    var here: set<Edge> := if Parted(pl, d) then {d} else {};
    assert PartedEdgesOf(pl, deps + [d]) == PartedEdgesOf(pl, deps) + here;
  }

  lemma {:induction false} PartedEdges(pl: Places, deps: seq<Edge>)
    requires DistinctEdges(deps)
    ensures |PartedAt(pl, deps)| == |PartedEdgesOf(pl, deps)|
  {
    if deps == [] {
      assert PartedAt(pl, deps) == {};
    } else {
      var n := |deps| - 1;
      assert deps == deps[..n] + [deps[n]];
      PartedEdges(pl, deps[..n]);
      WhereAppend(deps[..n], deps[n], IsParted(pl));
      PartedEdgesAppend(pl, deps[..n], deps[n]);
    }
  }

  /** A line is drawn satisfied exactly when its blocker is done. */
  lemma {:induction false} LinesTell(db: Db, p: Id, nodes: seq<NodeView>, deps: seq<Edge>, ix: Index, pl: Places, some: seq<Edge>)
    requires Lists(nodes, deps, Snapshot(db, p)) && IndexOf(ix, nodes, deps) && pl.byId == ix.byId
    requires forall d :: d in some ==> d in deps
    ensures forall l :: l in LinesOf(pl, some) ==>
              l.edge in some && l.edge.blocker in db.nodes
              && (l.satisfied <==> db.nodes[l.edge.blocker].declared == Done)
  {
    if some != [] {
      var last := some[|some| - 1];
      LinesTell(db, p, nodes, deps, ix, pl, some[..|some| - 1]);
      assert last in EdgesIn(deps);
      FindMeans(nodes, last.blocker);
      ListedMeans(db, p, nodes, deps);
      assert ViewOf(db, last.blocker) in nodes;
    }
  }

  // ---- rectangles by id -----------------------------------------------------------

  /** With no id drawn twice each id has the rectangle of its own cell. */
  lemma {:induction false} RectsOfAre(cells: seq<Cell>)
    requires DistinctIds(NodesOf(cells))
    ensures forall c :: c in cells ==> c.node.id in RectsOf(cells) && RectsOf(cells)[c.node.id] == c.rect
  {
    if cells != [] {
      var front, last := cells[..|cells| - 1], cells[|cells| - 1];
      assert cells == front + [last];
      NodesOfConcat(front, [last]);
      assert NodesOf(cells)[..|NodesOf(front)|] == NodesOf(front);
      RectsOfAre(front);
      NodesOfMeans(front);
      assert NodesOf([last]) == [last.node];
      forall c | c in front
        ensures c.node.id != last.node.id
      {
        assert c.node in NodesOf(front);
        var i :| 0 <= i < |NodesOf(front)| && NodesOf(front)[i] == c.node;
        assert NodesOf(cells)[i] == c.node && NodesOf(cells)[|NodesOf(front)|] == last.node;
      }
    }
  }

  lemma {:induction false} FrameRectsAre(frames: seq<Frame>)
    requires forall i, j :: 0 <= i < j < |frames| ==> frames[i].wp.id != frames[j].wp.id
    ensures forall f :: f in frames ==> f.wp.id in FrameRects(frames) && FrameRects(frames)[f.wp.id] == f.rect
  {
    if frames != [] {
      var front, last := frames[..|frames| - 1], frames[|frames| - 1];
      assert frames == front + [last];
      FrameRectsAre(front);
      forall f | f in front
        ensures f.wp.id != last.wp.id
      {
        var i :| 0 <= i < |front| && front[i] == f;
        assert frames[i] == f;
      }
    }
  }
}
