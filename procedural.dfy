/**
 * The older insertion engine of src/Procedural.cs: `VertexNode` with its
 * collect-and-sort `InsertNode`, the visited-guarded collector `CollectVertexNodes`,
 * the `LayoutDescriptor` handed to the renderer and `LayoutGenerator.AddRectangle`.
 * `VertexNode` has the same shape as `GridNode` and shares `Nodes.Vertex`, the
 * constructor `Graph.NewNode`, `Graph.ConnectAdjacentNode`, `ConnectionExists` and
 * `IsConnected` with the newer engine.
 */
module Procedural {
  import opened Wrappers
  import opened Directions
  import opened Nodes
  import opened Rectangles

  /** What the renderer is given: the root vertex and the size of the drawing area. */
  datatype LayoutDescriptor = LayoutDescriptor(rootVertexNode: nat, areaWidth: int, areaHeight: int)

  /** No index occurs twice. */
  predicate Distinct(s: seq<nat>) {
    forall i, j :: 0 <= i < j < |s| ==> s[i] != s[j]
  }

  /* ------------------------------------------------------------- collection */

  /**
   * The recursive `CollectVertexNodes(nodeList, visited, predicate, node)`: nothing for
   * a missing or visited vertex; otherwise mark it visited, append it when it satisfies
   * `pred` and is not yet listed, and recurse into its slots Up, Left, Down, Right.
   * The visited set is passed in and the grown one returned.
   */
  method CollectFrom(g: seq<Vertex>, list: seq<nat>, visited: set<nat>, pred: Vertex -> bool, node: Option<nat>)
    returns (list': seq<nat>, visited': set<nat>)
    requires WellFormed(g) && (node.Some? ==> node.value < |g|) && visited <= Range(|g|)
    ensures visited <= visited' <= Range(|g|)
    ensures node.None? || node.value in visited ==> list' == list && visited' == visited
    ensures node.Some? ==> node.value in visited'
    ensures |list| <= |list'| && list'[..|list|] == list
    ensures forall j :: |list| <= j < |list'| ==> list'[j] in visited' - visited && pred(g[list'[j]])
    ensures Distinct(list) ==> Distinct(list')
    ensures forall v :: v in visited' - visited && pred(g[v]) ==> v in list'
    ensures forall v :: v in visited' - visited ==> NeighboursIn(g, v, visited')
    ensures forall u :: u in visited' - visited ==> node.Some? && Reachable(g, node.value, u)
    decreases Range(|g|) - visited
  {
    if node.None? || node.value in visited {
      return list, visited;
    }
    var v := node.value;
    visited' := visited + {v};
    list' := list;
    if pred(g[v]) && v !in list' {
      list' := list' + [v];
    }
    var i := 0;
    while i < 4
      invariant 0 <= i <= 4
      invariant visited + {v} <= visited' <= Range(|g|)
      invariant |list| <= |list'| && list'[..|list|] == list
      invariant forall j :: |list| <= j < |list'| ==> list'[j] in visited' - visited && pred(g[list'[j]])
      invariant Distinct(list) ==> Distinct(list')
      invariant pred(g[v]) ==> v in list'
      invariant forall u :: u in visited' - visited && pred(g[u]) ==> u in list'
      invariant forall k :: 0 <= k < i && g[v].adj[k].Some? ==> g[v].adj[k].value in visited'
      invariant forall u :: u in visited' - visited && u != v ==> NeighboursIn(g, u, visited')
      invariant forall u :: u in visited' - visited ==> Reachable(g, v, u)
    {
      ghost var list0, visited0 := list', visited';
      var next := g[v].adj[i];
      assert next == Slot(g, v, FromIndex(i));
      list', visited' := CollectFrom(g, list', visited', pred, next);
      assert list'[..|list|] == list by {
        assert list'[..|list0|] == list0;
        assert list'[..|list|] == list0[..|list|];
      }
      forall j | |list| <= j < |list'| ensures list'[j] in visited' - visited && pred(g[list'[j]]) {
        if j < |list0| {
          assert list'[j] == list'[..|list0|][j] == list0[j];
        }
      }
      forall k | 0 <= k <= i && g[v].adj[k].Some? ensures g[v].adj[k].value in visited' {
        if k < i {
          assert g[v].adj[k].value in visited0;
        }
      }
      forall u | u in visited' - visited && u != v ensures NeighboursIn(g, u, visited') {
        if u in visited0 {
          NeighboursInGrows(g, u, visited0, visited');
        }
      }
      forall u | u in visited' - visited0 ensures Reachable(g, v, u) {
        ReachableFromItself(g, v);
        ReachableStep(g, v, v, FromIndex(i));
        ReachableTransitive(g, v, next.value, u);
      }
      i := i + 1;
    }
    forall e | Slot(g, v, e).Some? ensures Slot(g, v, e).value in visited' {
      assert g[v].adj[Index(e)] == Slot(g, v, e);
    }
  }

  /**
   * `CollectVertexNodes(predicate, root)`: every vertex reachable from `root` that
   * satisfies `pred`, each once; nothing for a missing root.
   */
  method CollectVertexNodes(g: seq<Vertex>, pred: Vertex -> bool, root: Option<nat>) returns (list: seq<nat>)
    requires WellFormed(g) && (root.Some? ==> root.value < |g|)
    ensures root.None? ==> list == []
    ensures Distinct(list) && forall v :: v in list ==> v < |g|
    ensures root.Some? ==>
      forall v: nat :: v < |g| ==> (v in list <==> Reachable(g, root.value, v) && pred(g[v]))
  {
    var visited;
    list, visited := CollectFrom(g, [], {}, pred, root);
    if root.Some? {
      assert Closed(g, visited);
      forall v: nat | v < |g| && Reachable(g, root.value, v) ensures v in visited {
        ReachableWithin(g, root.value, visited, v);
      }
    }
  }

  /** The filter of `GetNodesAlongAxisLine`: on the vertical line `x == value` or the horizontal line `y == value`. */
  predicate OnAxisLine(v: Vertex, axis: Axis, value: int) {
    if axis == X then v.x == value else v.y == value
  }

  /** `GetNodesAlongAxisLine(root, axis, axisValue)`: the reachable vertices on that line. */
  method GetNodesAlongAxisLine(g: seq<Vertex>, root: nat, axis: Axis, axisValue: int) returns (list: seq<nat>)
    requires WellFormed(g) && root < |g|
    ensures Distinct(list)
    ensures forall v :: v in list ==> v < |g| && OnAxisLine(g[v], axis, axisValue)
    ensures forall v: nat :: v < |g| ==> (v in list <==> Reachable(g, root, v) && OnAxisLine(g[v], axis, axisValue))
  {
    list := CollectVertexNodes(g, u => OnAxisLine(u, axis, axisValue), Some(root));
  }

  /* -------------------------------------------------------------- insertion */

  /** The coordinate `InsertNode` compares on an occupied slot: `Y` for Up and Down, `X` otherwise. */
  function Coordinate(d: Direction, v: Vertex): int {
    if IsVertical(d) then v.y else v.x
  }

  /**
   * On an empty slot, `InsertNode` first inserts `newNode` from the lowest vertex of
   * the axis line through it when that line, among the vertices reachable from `root`,
   * holds two or more vertices and not `newNode` itself. That nested insertion is
   * skipped when `newNode` is reachable or when at most one reachable vertex is on the line.
   */
  ghost predicate LineSkipped(g: seq<Vertex>, d: Direction, root: nat, newNode: nat)
    requires WellFormed(g) && root < |g| && newNode < |g|
  {
    var axis := GetAxis(d);
    var value := if axis == X then g[newNode].x else g[newNode].y;
    Reachable(g, root, newNode) ||
    forall a: nat, b: nat ::
      (a < |g| && b < |g| && Reachable(g, root, a) && Reachable(g, root, b) &&
       OnAxisLine(g[a], axis, value) && OnAxisLine(g[b], axis, value)) ==> a == b
  }

  /**
   * `VertexNode.InsertNode(direction, root, newNode)`.
   * - Empty slot: collect the axis line through `newNode` (`X == newNode.X` for Left and
   *   Right, `Y == newNode.Y` for Up and Down), sort it on that same coordinate, and when
   *   it has two or more vertices and not `newNode`, insert `newNode` Right (Up/Down) or
   *   Down (Left/Right) of its first vertex; then connect `root` and `newNode`.
   * - Occupied slot, compared on `Coordinate(d, _)` whatever the sign of `d`: greater
   *   recurses from `newNode` towards `existing`, less splices `newNode` between `root`
   *   and `existing`, equal does nothing.
   * Every key of the sorted list is equal, so its first vertex is any of them. The
   * source's recursion has no bound; `fuel` bounds the nesting of InsertNode calls.
   */
  method InsertNode(g: Graph, fuel: nat, d: Direction, root: nat, newNode: nat)
    requires g.Valid() && root < |g.nodes| && newNode < |g.nodes|
    modifies g
    ensures g.Valid() && Extends(old(g.nodes), g.nodes) && |g.nodes| == |old(g.nodes)|
    ensures Slot(old(g.nodes), root, d).None? ==> ConnectionExists(g.nodes, d, root, newNode)
    ensures Slot(old(g.nodes), root, d).None? && LineSkipped(old(g.nodes), d, root, newNode) ==>
      g.nodes == Connected(old(g.nodes), d, root, newNode)
    ensures var before := old(g.nodes); var slot := Slot(before, root, d);
      slot.Some? && Coordinate(d, before[newNode]) == Coordinate(d, before[slot.value]) ==> g.nodes == before
    ensures var before := old(g.nodes); var slot := Slot(before, root, d);
      slot.Some? && Coordinate(d, before[newNode]) < Coordinate(d, before[slot.value]) ==>
        g.nodes == Spliced(before, d, root, newNode, slot.value)
    ensures var before := old(g.nodes); var slot := Slot(before, root, d);
      slot.Some? && Coordinate(d, before[newNode]) > Coordinate(d, before[slot.value]) &&
      fuel >= 1 && Isolated(before, newNode) ==>
        g.nodes == Connected(before, d, newNode, slot.value)
    decreases fuel
  {
    ghost var before := g.nodes;
    var existing := Slot(g.nodes, root, d);
    if existing.None? {
      var axis := GetAxis(d);
      var axisList := GetNodesAlongAxisLine(g.nodes, root, axis, if axis == X then g.nodes[newNode].x else g.nodes[newNode].y);
      assert LineSkipped(before, d, root, newNode) ==> !(|axisList| >= 2 && newNode !in axisList) by {
        if |axisList| >= 2 && newNode !in axisList {
          assert axisList[0] in axisList && axisList[1] in axisList;
        }
      }
      if |axisList| >= 2 && newNode !in axisList && fuel > 0 {
        var lower :| lower in axisList;
        InsertNode(g, fuel - 1, if axis == Y then Right else Down, lower, newNode);
      }
      ghost var mid := g.nodes;
      g.ConnectAdjacentNode(d, root, newNode);
      ExtendsTransitive(before, mid, g.nodes);
      return;
    }
    var coordinateExisting := Coordinate(d, g.nodes[existing.value]);
    var coordinateNew := Coordinate(d, g.nodes[newNode]);
    if coordinateNew > coordinateExisting {
      if fuel > 0 {
        if Isolated(g.nodes, newNode) {
          forall a: nat | a < |g.nodes| && Reachable(g.nodes, newNode, a) ensures a == newNode {
            IsolatedReachesItself(g.nodes, newNode, a);
          }
        }
        InsertNode(g, fuel - 1, d, newNode, existing.value);
      }
    } else if coordinateNew < coordinateExisting {
      g.SetAdjacent(d, root, newNode);
      g.ConnectAdjacentNode(d, root, newNode);
      g.ConnectAdjacentNode(InvertDirection(d), existing.value, newNode);
      OverwrittenThenConnected(before, d, root, newNode);
    }
  }

  /* ------------------------------------------------------------- rectangles */

  /**
   * `LayoutGenerator.AddRectangle(root, width, height)`: the same four corners and the
   * same four insertions, Right, Down, Left, then Up back to `root`, through this
   * engine's `InsertNode`. On an arena holding only an isolated root, with both sides
   * at least 2, the result is exactly the closed outline `RectangleGraph`.
   */
  method AddRectangle(g: Graph, fuel: nat, root: nat, width: int, height: int)
    returns (topRight: nat, bottomRight: nat, bottomLeft: nat)
    requires g.Valid() && root < |g.nodes|
    modifies g
    ensures g.Valid() && Extends(old(g.nodes), g.nodes)
    ensures topRight == |old(g.nodes)| && bottomRight == topRight + 1 && bottomLeft == topRight + 2
    ensures |g.nodes| == |old(g.nodes)| + 3
    ensures var r := old(g.nodes[root]);
      g.nodes[topRight].x == r.x + (width - 1) && g.nodes[topRight].y == r.y &&
      g.nodes[bottomRight].x == r.x + (width - 1) && g.nodes[bottomRight].y == r.y + (height - 1) &&
      g.nodes[bottomLeft].x == r.x && g.nodes[bottomLeft].y == r.y + (height - 1)
    ensures var before := old(g.nodes);
      |before| == 1 && before[0].adj == NoNeighbours && width >= 2 && height >= 2 ==>
        g.nodes == RectangleGraph(before[0].x, before[0].y, width, height)
  {
    ghost var isolated := |g.nodes| == 1 && g.nodes[0].adj == NoNeighbours && width >= 2 && height >= 2;
    ghost var s0 := g.nodes;
    var x, y := g.nodes[root].x, g.nodes[root].y;
    assert isolated ==> root == 0 && g.nodes + [Vertex(x + (width - 1), y, NoNeighbours)] == StageBefore(0, x, y, width, height);
    topRight := AddCorner(g, fuel, Right, root, x + (width - 1), y, 0, x, y, width, height, isolated);
    ghost var s1 := g.nodes;
    bottomRight := AddCorner(g, fuel, Down, topRight, g.nodes[topRight].x, g.nodes[topRight].y + (height - 1),
                             1, x, y, width, height, isolated);
    ghost var s2 := g.nodes;
    bottomLeft := AddCorner(g, fuel, Left, bottomRight, g.nodes[bottomRight].x - (width - 1), g.nodes[bottomRight].y,
                            2, x, y, width, height, isolated);
    ghost var s3 := g.nodes;
    InsertSide(g, fuel, Up, bottomLeft, root, 3, x, y, width, height, isolated);
    assert g.nodes[topRight].x == s1[topRight].x && g.nodes[topRight].y == s1[topRight].y;
    assert g.nodes[bottomRight].x == s2[bottomRight].x && g.nodes[bottomRight].y == s2[bottomRight].y;
    assert g.nodes[bottomLeft].x == s3[bottomLeft].x && g.nodes[bottomLeft].y == s3[bottomLeft].y;
    ExtendsTransitive(s2, s3, g.nodes);
    ExtendsTransitive(s1, s2, g.nodes);
    ExtendsTransitive(s0, s1, g.nodes);
  }

  /**
   * One corner of `AddRectangle`: create it at `(cx, cy)` and insert it in direction
   * `d` of `from`. When `staged`, this is stage `stage` of the outline with top-left
   * corner `(x, y)`, and the arena becomes `StageAfter(stage, ..)`.
   */
  method AddCorner(g: Graph, fuel: nat, d: Direction, from: nat, cx: int, cy: int,
                   ghost stage: nat, ghost x: int, ghost y: int, ghost width: int, ghost height: int,
                   ghost staged: bool)
    returns (corner: nat)
    requires g.Valid() && from < |g.nodes|
    requires staged ==> stage < 3 && width >= 2 && height >= 2 && d == StageDirection(stage) && from == stage &&
                        g.nodes + [Vertex(cx, cy, NoNeighbours)] == StageBefore(stage, x, y, width, height)
    modifies g
    ensures g.Valid() && Extends(old(g.nodes), g.nodes)
    ensures corner == |old(g.nodes)| && |g.nodes| == corner + 1
    ensures g.nodes[corner].x == cx && g.nodes[corner].y == cy
    ensures staged ==> g.nodes == StageAfter(stage, x, y, width, height)
  {
    corner := g.NewNode(cx, cy);
    ghost var created := g.nodes;
    InsertSide(g, fuel, d, from, corner, stage, x, y, width, height, staged);
    ExtendsTransitive(old(g.nodes), created, g.nodes);
  }

  /**
   * One `InsertNode` of `AddRectangle`. When `staged`, this is stage `stage` of the
   * outline with top-left corner `(x, y)`: the slot is free and the nested line
   * insertion is skipped, so the arena becomes `StageAfter(stage, ..)`.
   */
  method InsertSide(g: Graph, fuel: nat, d: Direction, from: nat, ins: nat,
                    ghost stage: nat, ghost x: int, ghost y: int, ghost width: int, ghost height: int,
                    ghost staged: bool)
    requires g.Valid() && from < |g.nodes| && ins < |g.nodes|
    requires staged ==> stage < 4 && width >= 2 && height >= 2 && d == StageDirection(stage) && from == stage &&
                        ins == (stage + 1) % 4 && g.nodes == StageBefore(stage, x, y, width, height)
    modifies g
    ensures g.Valid() && Extends(old(g.nodes), g.nodes) && |g.nodes| == |old(g.nodes)|
    ensures staged ==> g.nodes == StageAfter(stage, x, y, width, height)
  {
    assert staged ==> Slot(g.nodes, from, d).None? && LineSkipped(g.nodes, d, from, ins) &&
                      Connected(g.nodes, d, from, ins) == StageAfter(stage, x, y, width, height)
    by {
      if staged {
        StageSkipped(stage, x, y, width, height);
      }
    }
    InsertNode(g, fuel, d, from, ins);
  }

  /** On an isolated root, no stage of `AddRectangle` makes a nested line insertion. */
  lemma StageSkipped(k: nat, x: int, y: int, width: int, height: int)
    requires k < 4
    ensures var before := StageBefore(k, x, y, width, height);
      WellFormed(before) && k < |before| && (k + 1) % 4 < |before| &&
      Slot(before, k, StageDirection(k)).None? &&
      Connected(before, StageDirection(k), k, (k + 1) % 4) == StageAfter(k, x, y, width, height) &&
      (width >= 2 && height >= 2 ==> LineSkipped(before, StageDirection(k), k, (k + 1) % 4))
  {
    StageConnected(k, x, y, width, height);
    if k == 0 {
      TopSideSkipped(x, y, width);
    } else if k == 1 {
      RightSideSkipped(x, y, width, height);
    } else if k == 2 {
      BottomSideSkipped(x, y, width, height);
    } else {
      LeftSideSkipped(x, y, width, height);
    }
  }

  /** First insertion on an isolated root: the root reaches only itself, so nothing else is inserted. */
  lemma TopSideSkipped(x: int, y: int, width: int)
    ensures var before := TopSideBefore(x, y, width);
      WellFormed(before) && Slot(before, 0, Right).None? && LineSkipped(before, Right, 0, 1) &&
      Connected(before, Right, 0, 1) == TopSide(x, y, width)
  {
    var before := TopSideBefore(x, y, width);
    TopSideConnected(x, y, width);
    forall a: nat | a < |before| && Reachable(before, 0, a) ensures a == 0 {
      IsolatedReachesItself(before, 0, a);
    }
  }

  /**
   * Second insertion: from the top-right corner only the top side is reachable, and
   * neither of its vertices is on the row `y + height - 1` of the new corner.
   */
  lemma RightSideSkipped(x: int, y: int, width: int, height: int)
    ensures var before := RightSideBefore(x, y, width, height);
      WellFormed(before) && Slot(before, 1, Down).None? &&
      Connected(before, Down, 1, 2) == RightSide(x, y, width, height) &&
      (width >= 2 && height >= 2 ==> LineSkipped(before, Down, 1, 2))
  {
    var before := RightSideBefore(x, y, width, height);
    RightSideConnected(x, y, width, height);
    assert Closed(before, {0, 1});
    forall a: nat | a < |before| && Reachable(before, 1, a) ensures a in {0, 1} {
      ReachableWithin(before, 1, {0, 1}, a);
    }
  }

  /**
   * Third insertion: from the bottom-right corner the top and right sides are
   * reachable, and of them only the root is on the column `x` of the new corner.
   */
  lemma BottomSideSkipped(x: int, y: int, width: int, height: int)
    ensures var before := BottomSideBefore(x, y, width, height);
      WellFormed(before) && Slot(before, 2, Left).None? &&
      Connected(before, Left, 2, 3) == BottomSide(x, y, width, height) &&
      (width >= 2 && height >= 2 ==> LineSkipped(before, Left, 2, 3))
  {
    var before := BottomSideBefore(x, y, width, height);
    BottomSideConnected(x, y, width, height);
    assert Closed(before, {0, 1, 2});
    forall a: nat | a < |before| && Reachable(before, 2, a) ensures a in {0, 1, 2} {
      ReachableWithin(before, 2, {0, 1, 2}, a);
    }
  }

  /**
   * Last insertion: the root is reachable from the bottom-left corner (Right, Up, Left),
   * so the root is already on its own line and nothing else is inserted.
   */
  lemma LeftSideSkipped(x: int, y: int, width: int, height: int)
    ensures var before := BottomSide(x, y, width, height);
      WellFormed(before) && Slot(before, 3, Up).None? && LineSkipped(before, Up, 3, 0) &&
      Connected(before, Up, 3, 0) == RectangleGraph(x, y, width, height)
  {
    var before := BottomSide(x, y, width, height);
    LeftSideConnected(x, y, width, height);
    ReachableFromItself(before, 3);
    ReachableStep(before, 3, 3, Right);
    ReachableStep(before, 3, 2, Up);
    ReachableStep(before, 3, 1, Left);
  }
}
