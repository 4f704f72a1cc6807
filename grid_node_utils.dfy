/**
 * The newer insertion engine (`Grid.GridNodeUtils`, src/GridNodeUtils.cs) over the
 * vertex arena of module `Nodes`.
 */
module GridNodeUtils {
  import opened Wrappers
  import opened Directions
  import opened Nodes
  import opened Rectangles

  /* ---------------------------------------------------------------- geometry */

  /** `GetSeachAxisValue`: the coordinate of `node` on `axis`. */
  function GetSearchAxisValue(axis: Axis, node: Vertex): (r: int)
    ensures axis == X ==> r == Along(Right, node) && r == -Along(Left, node)
    ensures axis == Y ==> r == Along(Down, node) && r == -Along(Up, node)
  {
    if axis == X then node.x else node.y
  }

  /** How far `p` lies in direction `d`: its coordinate on `d`'s axis, negated for Up and Left. */
  function Along(d: Direction, p: Vertex): int {
    match d
    case Up => -p.y
    case Left => -p.x
    case Down => p.y
    case Right => p.x
  }

  /** `GreaterThan(d, a, b)`: `a` lies strictly further than `b` in direction `d`. */
  predicate GreaterThan(d: Direction, a: Vertex, b: Vertex)
    ensures GreaterThan(d, a, b) <==> Along(d, a) > Along(d, b)
  {
    match d
    case Up => a.y < b.y
    case Left => a.x < b.x
    case Down => a.y > b.y
    case Right => a.x > b.x
  }

  /** `LessThan(d, a, b)`: `a` lies strictly behind `b` in direction `d`. */
  predicate LessThan(d: Direction, a: Vertex, b: Vertex)
    ensures LessThan(d, a, b) <==> Along(d, a) < Along(d, b)
  {
    match d
    case Up => a.y > b.y
    case Left => a.x > b.x
    case Down => a.y < b.y
    case Right => a.x < b.x
  }

  /**
   * The two ordering predicates are strict orders along the direction: they are
   * converse to each other, never both hold, and neither holds exactly when the
   * two vertices have the same coordinate on the direction's axis.
   */
  lemma OrderingAlongDirection(d: Direction, a: Vertex, b: Vertex)
    ensures GreaterThan(d, a, b) <==> Along(d, a) > Along(d, b)
    ensures LessThan(d, a, b) <==> Along(d, a) < Along(d, b)
    ensures GreaterThan(d, a, b) == LessThan(d, b, a)
    ensures !(GreaterThan(d, a, b) && LessThan(d, a, b))
    ensures !GreaterThan(d, a, b) && !LessThan(d, a, b) <==>
              GetSearchAxisValue(GetAxis(d), a) == GetSearchAxisValue(GetAxis(d), b)
  {
  }

  /** `GetLineLength(a, direction, b)`: the distance from `a` to `b` on the direction's axis. */
  function GetLineLength(a: Vertex, d: Direction, b: Vertex): (r: int)
    ensures r >= 0
    ensures r == 0 <==> GetSearchAxisValue(GetAxis(d), a) == GetSearchAxisValue(GetAxis(d), b)
    ensures GreaterThan(d, b, a) ==> r == Along(d, b) - Along(d, a)
    ensures LessThan(d, b, a) ==> r == Along(d, a) - Along(d, b)
  {
    match d
    case Up | Down => if a.y - b.y < 0 then b.y - a.y else a.y - b.y
    case Left | Right => if a.x - b.x < 0 then b.x - a.x else a.x - b.x
  }

  /**
   * `NodeBetweenTwoNodes(node, a, b)`: `node` shares the vertical line of `a` and `b`
   * and lies strictly between them, or (failing a shared X) shares their horizontal line
   * and lies strictly between them.
   */
  predicate NodeBetweenTwoNodes(node: Vertex, a: Vertex, b: Vertex)
    ensures NodeBetweenTwoNodes(node, a, b) ==>
              (node.x, node.y) != (a.x, a.y) && (node.x, node.y) != (b.x, b.y) && (a.x == b.x || a.y == b.y)
  {
    if node.x == a.x && node.x == b.x then WithinRangeExclusive(node.y, a.y, b.y)
    else if node.y == a.y && node.y == b.y then WithinRangeExclusive(node.x, a.x, b.x)
    else false
  }

  /**
   * Reference definition: `p` is a point of the axis-aligned segment from `a` to `b`
   * other than its two ends.
   */
  predicate OnOpenSegment(p: Vertex, a: Vertex, b: Vertex) {
    (a.x == b.x || a.y == b.y) &&
    (a.x <= p.x <= b.x || b.x <= p.x <= a.x) &&
    (a.y <= p.y <= b.y || b.y <= p.y <= a.y) &&
    (p.x, p.y) != (a.x, a.y) && (p.x, p.y) != (b.x, b.y)
  }

  lemma NodeBetweenIsOnOpenSegment(node: Vertex, a: Vertex, b: Vertex)
    ensures NodeBetweenTwoNodes(node, a, b) <==> OnOpenSegment(node, a, b)
  {
  }

  /** `NodeIntersectsLine(axis, node, a, b)`: `node`'s coordinate on `axis` lies strictly between `a`'s and `b`'s. */
  predicate NodeIntersectsLine(axis: Axis, node: Vertex, a: Vertex, b: Vertex)
    ensures NodeIntersectsLine(axis, node, a, b) ==>
              GetSearchAxisValue(axis, a) != GetSearchAxisValue(axis, b) &&
              GetSearchAxisValue(axis, node) != GetSearchAxisValue(axis, a) &&
              GetSearchAxisValue(axis, node) != GetSearchAxisValue(axis, b)
  {
    if axis == Y then WithinRangeExclusive(node.y, a.y, b.y)
    else WithinRangeExclusive(node.x, a.x, b.x)
  }

  /**
   * The `isInBounds` switch of `FindIntersectionPoints`: `v` lies strictly inside the
   * stretch of length `len` that ends at `ins` and extends backwards from `d`.
   */
  predicate InBounds(d: Direction, v: Vertex, ins: Vertex, len: int)
    ensures InBounds(d, v, ins, len) <==> 0 < Along(d, ins) - Along(d, v) < len
  {
    match d
    case Up => v.y > ins.y && v.y < ins.y + len
    case Left => v.x > ins.x && v.x < ins.x + len
    case Down => v.y < ins.y && v.y > ins.y - len
    case Right => v.x < ins.x && v.x > ins.x - len
  }

  /**
   * When `ins` lies ahead of `root` in direction `d`, the bounds test with the line
   * length from `root` to `ins` says exactly that `v` lies strictly between them.
   */
  lemma InBoundsMeansBetween(d: Direction, root: Vertex, v: Vertex, ins: Vertex)
    requires GreaterThan(d, ins, root)
    ensures InBounds(d, v, ins, GetLineLength(root, d, ins)) <==>
              WithinRangeExclusive(GetSearchAxisValue(GetAxis(d), v),
                                   GetSearchAxisValue(GetAxis(d), root),
                                   GetSearchAxisValue(GetAxis(d), ins))
  {
  }

  /**
   * When `ins` lies behind `root` in direction `d` (an empty slot is filled whatever
   * the order), the same bounds test selects the stretch of the same length on the
   * far side of `ins`, mirrored away from `root`, and not the stretch between them.
   */
  lemma InBoundsBehind(d: Direction, root: Vertex, v: Vertex, ins: Vertex)
    requires LessThan(d, ins, root)
    ensures InBounds(d, v, ins, GetLineLength(root, d, ins)) <==>
              WithinRangeExclusive(Along(d, v), Along(d, ins), 2 * Along(d, ins) - Along(d, root))
    ensures WithinRangeExclusive(Along(d, v), Along(d, root), Along(d, ins)) ==>
              !InBounds(d, v, ins, GetLineLength(root, d, ins))
  {
  }

  /** With the new vertex level with `root` along `d`, the line has length zero and nothing is in bounds. */
  lemma InBoundsLevel(d: Direction, root: Vertex, v: Vertex, ins: Vertex)
    requires !GreaterThan(d, ins, root) && !LessThan(d, ins, root)
    ensures !InBounds(d, v, ins, GetLineLength(root, d, ins))
  {
  }

  /* ------------------------------------------------------- insertion points */

  datatype Point = Point(x: int, y: int)

  /**
   * `InsertionPoint`: a vertex, a direction from it and, for a crossing, the
   * coordinates of the vertex to be created there.
   */
  datatype InsertionPoint = InsertionPoint(node: nat, direction: Direction, crossing: Option<Point>)

  /** `ins` lands strictly inside the edge leaving `v` in direction `e`. */
  predicate Lands(g: seq<Vertex>, v: nat, e: Direction, ins: nat)
    requires WellFormed(g) && v < |g| && ins < |g|
  {
    Slot(g, v, e).Some? && NodeBetweenTwoNodes(g[ins], g[Slot(g, v, e).value], g[v])
  }

  predicate NoLandingAt(g: seq<Vertex>, v: nat, ins: nat)
    requires WellFormed(g) && v < |g| && ins < |g|
  {
    forall e :: !Lands(g, v, e, ins)
  }

  /** No edge of a vertex reachable from `root` has `ins` strictly inside it. */
  ghost predicate NoLanding(g: seq<Vertex>, root: nat, ins: nat)
    requires WellFormed(g) && ins < |g|
  {
    forall v: nat, e :: v < |g| && Reachable(g, root, v) ==> !Lands(g, v, e, ins)
  }

  /** `p` names an edge `ins` lands on, and no earlier slot of the same vertex does. */
  predicate FirstLandingAt(g: seq<Vertex>, p: InsertionPoint, ins: nat)
    requires WellFormed(g) && ins < |g|
  {
    p.node < |g| && p.crossing.None? && Lands(g, p.node, p.direction, ins) &&
    forall k :: 0 <= k < Index(p.direction) ==> !Lands(g, p.node, AllDirections[k], ins)
  }

  /** The first vertex of `order` from which some edge has `ins` strictly inside it. */
  function FirstLanding(g: seq<Vertex>, order: seq<nat>, ins: nat): Option<nat>
    requires WellFormed(g) && ins < |g|
  {
    if order == [] then None
    else if order[0] < |g| && !NoLandingAt(g, order[0], ins) then Some(order[0])
    else FirstLanding(g, order[1..], ins)
  }

  lemma {:induction false} FirstLandingAppend(g: seq<Vertex>, a: seq<nat>, b: seq<nat>, ins: nat)
    requires WellFormed(g) && ins < |g|
    ensures FirstLanding(g, a + b, ins) ==
              if FirstLanding(g, a, ins).Some? then FirstLanding(g, a, ins) else FirstLanding(g, b, ins)
    decreases |a|
  {
    if a == [] {
      assert a + b == b;
    } else {
      assert (a + b)[1..] == a[1..] + b;
      FirstLandingAppend(g, a[1..], b, ins);
    }
  }

  /** The walk from the slot-`i` neighbour of `v` comes first, then the walks from the later slots. */
  lemma PreorderSlotsStep(g: seq<Vertex>, seen: set<nat>, v: nat, i: nat, acc: seq<nat>)
    requires WellFormed(g) && v < |g| && i < 4 && g[v].adj[i].Some?
    ensures var w := g[v].adj[i].value;
      w < |g| &&
      var child := Preorder(g, seen, w);
      var later := PreorderSlots(g, child.1, v, i + 1);
      acc + PreorderSlots(g, seen, v, i).0 == (acc + child.0) + later.0 &&
      PreorderSlots(g, seen, v, i).1 == later.1
  {
    var w := g[v].adj[i].value;
    assert Slot(g, v, FromIndex(i)) == Some(w);
    var child := Preorder(g, seen, w);
    var later := PreorderSlots(g, child.1, v, i + 1);
    assert PreorderSlots(g, seen, v, i) == (child.0 + later.0, later.1);
    assert acc + (child.0 + later.0) == (acc + child.0) + later.0;
  }

  /**
   * The first half of a search step: the first slot of `root`, in the order Up, Left,
   * Down, Right, whose edge has `ins` strictly inside it.
   */
  method LandingSlot(g: seq<Vertex>, root: nat, ins: nat) returns (landing: Option<Direction>)
    requires WellFormed(g) && root < |g| && ins < |g|
    ensures landing.Some? ==> FirstLandingAt(g, InsertionPoint(root, landing.value, None), ins)
    ensures landing.None? ==> NoLandingAt(g, root, ins)
  {
    var i := 0;
    while i < 4
      invariant 0 <= i <= 4
      invariant forall k :: 0 <= k < i ==> !Lands(g, root, AllDirections[k], ins)
    {
      var d := AllDirections[i];
      var adjacent := Slot(g, root, d);
      if adjacent.Some? && NodeBetweenTwoNodes(g[ins], g[adjacent.value], g[root]) {
        assert Lands(g, root, d, ins);
        return Some(d);
      }
      i := i + 1;
    }
    forall e ensures !Lands(g, root, e, ins) {
      AllDirectionsIndexed(e);
    }
    return None;
  }

  /**
   * `FindInsertionPoint(visited, root, insertNode)`: a depth-first search from `root`,
   * skipping visited vertices, that returns the first (vertex, direction) whose edge
   * `ins` lies strictly inside, slots scanned Up, Left, Down, Right before descending.
   * `seen` is the visited set afterwards; the source mutates one shared set.
   */
  method FindInsertionPoint(g: seq<Vertex>, visited: set<nat>, root: nat, ins: nat)
    returns (seen: set<nat>, found: Option<InsertionPoint>)
    requires WellFormed(g) && root < |g| && ins < |g|
    ensures visited <= seen && root in seen && seen - visited <= Range(|g|)
    ensures root in visited ==> seen == visited && found.None?
    ensures found.Some? ==> found.value.node in seen - visited && FirstLandingAt(g, found.value, ins)
    ensures found.Some? ==> forall v :: v in seen - visited && v != found.value.node ==> NoLandingAt(g, v, ins)
    ensures found.None? ==> forall v :: v in seen - visited ==> NoLandingAt(g, v, ins) && NeighboursIn(g, v, seen)
    ensures forall S {:trigger Closed(g, S)} :: Closed(g, S) && root in S ==> seen - visited <= S
    ensures var walk := Preorder(g, visited, root);
      FirstLanding(g, walk.0, ins) == (if found.Some? then Some(found.value.node) else None) &&
      (found.None? ==> seen == walk.1)
    decreases Range(|g|) - visited
  {
    if root in visited {
      return visited, None;
    }
    ghost var walk := Preorder(g, visited, root);
    assert walk.0 == [root] + PreorderSlots(g, visited + {root}, root, 0).0;
    seen := visited + {root};
    var landing := LandingSlot(g, root, ins);
    if landing.Some? {
      return seen, Some(InsertionPoint(root, landing.value, None));
    }
    ghost var acc := [root];
    var i := 0;
    while i < 4
      invariant 0 <= i <= 4
      invariant walk.0 == acc + PreorderSlots(g, seen, root, i).0 && walk.1 == PreorderSlots(g, seen, root, i).1
      invariant FirstLanding(g, acc, ins) == None
      invariant visited + {root} <= seen && seen - visited <= Range(|g|)
      invariant forall v :: v in seen - visited ==> NoLandingAt(g, v, ins)
      invariant forall v :: v in seen - visited - {root} ==> NeighboursIn(g, v, seen)
      invariant forall k :: 0 <= k < i && g[root].adj[k].Some? ==> g[root].adj[k].value in seen
      invariant forall S {:trigger Closed(g, S)} :: Closed(g, S) && root in S ==> seen - visited <= S
    {
      var adjacent := g[root].adj[i];
      assert adjacent == Slot(g, root, FromIndex(i));
      if adjacent.Some? {
        ghost var child := Preorder(g, seen, adjacent.value);
        ghost var later := PreorderSlots(g, child.1, root, i + 1);
        PreorderSlotsStep(g, seen, root, i, acc);
        var seen', result := FindInsertionPoint(g, seen, adjacent.value, ins);
        forall v | v in seen - visited - {root} ensures NeighboursIn(g, v, seen') {
          NeighboursInGrows(g, v, seen, seen');
        }
        forall k | 0 <= k <= i && g[root].adj[k].Some? ensures g[root].adj[k].value in seen' {
          if k < i {
            assert g[root].adj[k].value in seen;
          }
        }
        seen := seen';
        FirstLandingAppend(g, acc, child.0, ins);
        FirstLandingAppend(g, acc + child.0, later.0, ins);
        acc := acc + child.0;
        if result.Some? {
          return seen, result;
        }
      }
      i := i + 1;
    }
    forall e ensures Slot(g, root, e).Some? ==> Slot(g, root, e).value in seen {
      AllDirectionsIndexed(e);
    }
    assert acc + [] == acc;
    return seen, None;
  }

  /**
   * The edge leaving `v` in direction `e` is crossed by the new line from `root` to
   * `ins` (direction `d`, length `len`): the line's coordinate lies strictly inside
   * the edge, `v` lies strictly inside the new line's stretch, and the edge is
   * perpendicular to the new line.
   */
  predicate Crosses(g: seq<Vertex>, v: nat, e: Direction, ins: nat, d: Direction, len: int)
    requires WellFormed(g) && v < |g| && ins < |g|
  {
    Slot(g, v, e).Some? &&
    NodeIntersectsLine(GetAxis(e), g[ins], g[Slot(g, v, e).value], g[v]) &&
    InBounds(d, g[v], g[ins], len) &&
    GetAxis(e) != GetAxis(d)
  }

  /**
   * Where the crossing vertex is created, as the source writes it: for a horizontal
   * edge (a vertical new line) the coordinates are `(v.Y, ins.X)`, for a vertical edge
   * `(v.X, ins.Y)`.
   */
  function CrossingPoint(g: seq<Vertex>, v: nat, e: Direction, ins: nat): Point
    requires v < |g| && ins < |g|
  {
    if GetAxis(e) == X then Point(g[v].y, g[ins].x) else Point(g[v].x, g[ins].y)
  }

  /**
   * For a vertical crossed edge the recorded point is where the two lines meet: on
   * the new horizontal line's row, in the edge's column, strictly between the edge's ends.
   */
  lemma VerticalEdgeCrossing(g: seq<Vertex>, v: nat, e: Direction, ins: nat, d: Direction, len: int)
    requires WellFormed(g) && v < |g| && ins < |g| && Crosses(g, v, e, ins, d, len) && IsVertical(e)
    ensures var p, w := CrossingPoint(g, v, e, ins), Slot(g, v, e).value;
      p.x == g[v].x && p.y == g[ins].y && WithinRangeExclusive(p.y, g[w].y, g[v].y) && !IsVertical(d)
  {
  }

  /**
   * For a horizontal crossed edge the coordinates come out swapped: the edge along
   * row 5 from (0, 5) to (10, 5), crossed by the new line down column 3 from (3, 0)
   * to (3, 8), is recorded with the point (5, 3), which lies on neither line.
   */
  lemma HorizontalEdgeCrossingSwapped()
    ensures var g := [Vertex(0, 5, [None, None, None, Some(1)]), Vertex(10, 5, [None, Some(0), None, None]),
                      Vertex(3, 0, [None, None, Some(3), None]), Vertex(3, 8, [Some(2), None, None, None])];
      WellFormed(g) && Crosses(g, 0, Right, 3, Down, GetLineLength(g[2], Down, g[3])) &&
      CrossingPoint(g, 0, Right, 3) == Point(5, 3) && g[0].y != 3 && g[3].x != 5
  {
    var g := [Vertex(0, 5, [None, None, None, Some(1)]), Vertex(10, 5, [None, Some(0), None, None]),
              Vertex(3, 0, [None, None, Some(3), None]), Vertex(3, 8, [Some(2), None, None, None])];
    assert WellFormed(g) by {
      forall u: nat, e | u < |g| && Slot(g, u, e).Some? ensures Slot(g, u, e).value < |g| {
        assert u == 0 || u == 1 || u == 2 || u == 3;
      }
    }
    assert Slot(g, 0, Right) == Some(1);
  }

  /** `p` is a crossing that `FindIntersectionPoints` may record. */
  predicate Recorded(g: seq<Vertex>, p: InsertionPoint, ins: nat, d: Direction, len: int)
    requires WellFormed(g) && ins < |g|
  {
    p.node < |g| && Crosses(g, p.node, p.direction, ins, d, len) &&
    p.crossing == Some(CrossingPoint(g, p.node, p.direction, ins))
  }

  /** No edge of a vertex reachable from `root` is crossed by the new line from `root` to `ins`. */
  ghost predicate NoCrossing(g: seq<Vertex>, d: Direction, root: nat, ins: nat)
    requires WellFormed(g) && root < |g| && ins < |g|
  {
    forall v: nat, e :: v < |g| && Reachable(g, root, v) ==>
      !Crosses(g, v, e, ins, d, GetLineLength(g[root], d, g[ins]))
  }

  lemma InPrefix<T>(a: seq<T>, b: seq<T>, x: T)
    requires |a| <= |b| && b[..|a|] == a && x in a
    ensures x in b
  {
    var j :| 0 <= j < |a| && a[j] == x;
    assert b[j] == b[..|a|][j];
  }

  /**
   * `FindIntersectionPoints(visited, intersections, root, insertNode, insertDirection,
   * insertLength)`: a depth-first search from `root` that appends a crossing point for
   * every edge the new line crosses, and only for those.
   */
  method FindIntersectionPoints(g: seq<Vertex>, visited: set<nat>, intersections: seq<InsertionPoint>,
                                root: nat, ins: nat, d: Direction, len: int)
    returns (seen: set<nat>, points: seq<InsertionPoint>)
    requires WellFormed(g) && root < |g| && ins < |g|
    ensures visited <= seen && root in seen && seen - visited <= Range(|g|)
    ensures root in visited ==> seen == visited && points == intersections
    ensures |intersections| <= |points| && points[..|intersections|] == intersections
    ensures forall j :: |intersections| <= j < |points| ==>
              points[j].node in seen - visited && Recorded(g, points[j], ins, d, len)
    ensures forall v: nat, e :: v < |g| && v in seen - visited && Crosses(g, v, e, ins, d, len) ==>
              InsertionPoint(v, e, Some(CrossingPoint(g, v, e, ins))) in points
    ensures forall v :: v in seen - visited ==> NeighboursIn(g, v, seen)
    ensures forall S {:trigger Closed(g, S)} :: Closed(g, S) && root in S ==> seen - visited <= S
    decreases Range(|g|) - visited
  {
    if root in visited {
      return visited, intersections;
    }
    seen := visited + {root};
    points := intersections;
    var insertAxis := GetAxis(d);
    var i := 0;
    while i < 4
      invariant 0 <= i <= 4
      invariant |intersections| <= |points| && points[..|intersections|] == intersections
      invariant forall j :: |intersections| <= j < |points| ==>
                  points[j].node == root && Recorded(g, points[j], ins, d, len)
      invariant forall k :: 0 <= k < i && Crosses(g, root, AllDirections[k], ins, d, len) ==>
                  InsertionPoint(root, AllDirections[k], Some(CrossingPoint(g, root, AllDirections[k], ins))) in points
    {
      var direction := AllDirections[i];
      var adjacent := Slot(g, root, direction);
      if adjacent.Some? {
        var axis := GetAxis(direction);
        if NodeIntersectsLine(axis, g[ins], g[adjacent.value], g[root]) {
          var isInBounds := InBounds(d, g[root], g[ins], len);
          if isInBounds {
            if axis == X && insertAxis == Y {
              points := points + [InsertionPoint(root, direction, Some(Point(g[root].y, g[ins].x)))];
            } else if axis == Y && insertAxis == X {
              points := points + [InsertionPoint(root, direction, Some(Point(g[root].x, g[ins].y)))];
            }
          }
        }
      }
      i := i + 1;
    }
    forall e | Crosses(g, root, e, ins, d, len)
      ensures InsertionPoint(root, e, Some(CrossingPoint(g, root, e, ins))) in points
    {
      AllDirectionsIndexed(e);
    }
    i := 0;
    while i < 4
      invariant 0 <= i <= 4
      invariant visited + {root} <= seen && seen - visited <= Range(|g|)
      invariant |intersections| <= |points| && points[..|intersections|] == intersections
      invariant forall j :: |intersections| <= j < |points| ==>
                  points[j].node in seen - visited && Recorded(g, points[j], ins, d, len)
      invariant forall v: nat, e :: v < |g| && v in seen - visited && Crosses(g, v, e, ins, d, len) ==>
                  InsertionPoint(v, e, Some(CrossingPoint(g, v, e, ins))) in points
      invariant forall v :: v in seen - visited - {root} ==> NeighboursIn(g, v, seen)
      invariant forall k :: 0 <= k < i && g[root].adj[k].Some? ==> g[root].adj[k].value in seen
      invariant forall S {:trigger Closed(g, S)} :: Closed(g, S) && root in S ==> seen - visited <= S
    {
      var adjacent := g[root].adj[i];
      assert adjacent == Slot(g, root, FromIndex(i));
      if adjacent.Some? {
        var seen', points' := FindIntersectionPoints(g, seen, points, adjacent.value, ins, d, len);
        forall v | v in seen - visited - {root} ensures NeighboursIn(g, v, seen') {
          NeighboursInGrows(g, v, seen, seen');
        }
        forall k | 0 <= k <= i && g[root].adj[k].Some? ensures g[root].adj[k].value in seen' {
          if k < i {
            assert g[root].adj[k].value in seen;
          }
        }
        forall v: nat, e | v < |g| && v in seen - visited && Crosses(g, v, e, ins, d, len)
          ensures InsertionPoint(v, e, Some(CrossingPoint(g, v, e, ins))) in points'
        {
          InPrefix(points, points', InsertionPoint(v, e, Some(CrossingPoint(g, v, e, ins))));
        }
        assert points'[..|intersections|] == points'[..|points|][..|intersections|];
        seen, points := seen', points';
      }
      i := i + 1;
    }
    forall e ensures Slot(g, root, e).Some? ==> Slot(g, root, e).value in seen {
      AllDirectionsIndexed(e);
    }
  }

  /* -------------------------------------------------------------- insertion */

  /**
   * Inserting `ins` in direction `d` of `root` is quiet: the slot is free, and once
   * the two are connected `ins` lands on no edge and the new line crosses none.
   */
  ghost predicate Quiet(g: seq<Vertex>, d: Direction, root: nat, ins: nat)
    requires WellFormed(g) && root < |g| && ins < |g|
  {
    Slot(g, root, d).None? &&
    var linked := Connected(g, d, root, ins);
    NoLanding(linked, root, ins) && NoCrossing(linked, d, root, ins)
  }

  /**
   * Where the walk of `InsertNode` along an occupied line stops. From `u` it looks at
   * the neighbour in direction `d`: an empty slot ends the walk there, the new vertex
   * itself or a neighbour level with it ends it with nothing to do, a neighbour beyond
   * the new vertex ends it with a splice, and a neighbour before it is walked past,
   * one unit of `fuel` per step.
   */
  datatype WalkEnd =
    | EmptyAt(u: nat)
    | SpliceAt(u: nat, w: nat)
    | AlreadyThere
    | LevelAt
    | OutOfFuel

  ghost function Walk(g: seq<Vertex>, d: Direction, u: nat, ins: nat, fuel: nat): (r: WalkEnd)
    requires WellFormed(g) && u < |g| && ins < |g|
    ensures r.EmptyAt? ==> r.u < |g| && Slot(g, r.u, d).None?
    ensures r.SpliceAt? ==> r.u < |g| && r.w < |g| && Slot(g, r.u, d) == Some(r.w) && r.w != ins &&
                            LessThan(d, g[ins], g[r.w])
    decreases fuel
  {
    match Slot(g, u, d)
    case None => EmptyAt(u)
    case Some(w) =>
      if w == ins then AlreadyThere
      else if LessThan(d, g[ins], g[w]) then SpliceAt(u, w)
      else if !GreaterThan(d, g[ins], g[w]) then LevelAt
      else if fuel == 0 then OutOfFuel
      else Walk(g, d, w, ins, fuel - 1)
  }

  /**
   * The walk stays on the line: where it ends with a splice or an empty slot, that
   * vertex is reachable from the start, and it is the start itself or a vertex the new
   * vertex lies beyond in direction `d`.
   */
  lemma {:induction false} WalkStaysBehind(g: seq<Vertex>, d: Direction, u: nat, ins: nat, fuel: nat)
    requires WellFormed(g) && u < |g| && ins < |g|
    ensures var r := Walk(g, d, u, ins, fuel);
      (r.SpliceAt? || r.EmptyAt?) ==> Reachable(g, u, r.u) && (r.u == u || GreaterThan(d, g[ins], g[r.u]))
    decreases fuel
  {
    ReachableFromItself(g, u);
    var slot := Slot(g, u, d);
    if slot.Some? {
      var w := slot.value;
      if w != ins && !LessThan(d, g[ins], g[w]) && GreaterThan(d, g[ins], g[w]) && fuel > 0 {
        var r := Walk(g, d, w, ins, fuel - 1);
        WalkStaysBehind(g, d, w, ins, fuel - 1);
        ReachableStep(g, u, u, d);
        if r.SpliceAt? || r.EmptyAt? {
          ReachableTransitive(g, u, w, r.u);
        }
      }
    }
  }

  /**
   * The walk past an occupied slot: when the new vertex lies beyond `root`'s neighbour
   * `x` and before `x`'s own neighbour `y`, the walk ends splicing between `x` and `y`.
   */
  lemma WalkOneStepThenSplice(g: seq<Vertex>, d: Direction, root: nat, ins: nat, fuel: nat, x: nat, y: nat)
    requires WellFormed(g) && root < |g| && ins < |g| && x < |g| && y < |g| && fuel >= 1
    requires Slot(g, root, d) == Some(x) && x != ins && GreaterThan(d, g[ins], g[x])
    requires Slot(g, x, d) == Some(y) && y != ins && LessThan(d, g[ins], g[y])
    ensures Walk(g, d, root, ins, fuel) == SpliceAt(x, y)
  {
    OrderingAlongDirection(d, g[ins], g[x]);
  }

  /**
   * The graph an insert leaves behind when its walk ends at `end`, where that is known
   * without a search: a splice, a plain connection into a quiet empty slot, or no
   * change; `None` for an empty slot whose connection sets off nested inserts.
   */
  ghost function AfterWalk(before: seq<Vertex>, d: Direction, ins: nat, end: WalkEnd): (r: Option<seq<Vertex>>)
    requires WellFormed(before) && ins < |before|
    requires end.EmptyAt? ==> end.u < |before|
    requires end.SpliceAt? ==> end.u < |before| && end.w < |before|
    ensures r.Some? ==> WellFormed(r.value) && Extends(before, r.value) && |r.value| == |before|
  {
    match end
    case EmptyAt(u) => if Quiet(before, d, u, ins) then Some(Connected(before, d, u, ins)) else None
    case SpliceAt(u, w) => Some(Spliced(before, d, u, ins, w))
    case _ => Some(before)
  }

  /** The insert ended in the graph `AfterWalk` names, when it names one. */
  ghost predicate WalkDone(before: seq<Vertex>, after: seq<Vertex>, d: Direction, ins: nat, end: WalkEnd)
    requires WellFormed(before) && ins < |before|
    requires end.EmptyAt? ==> end.u < |before|
    requires end.SpliceAt? ==> end.u < |before| && end.w < |before|
  {
    var known := AfterWalk(before, d, ins, end);
    known.Some? ==> after == known.value
  }

  /**
   * `InsertNode(direction, root, insertNode)`.
   * - The slot already names `ins`: nothing changes.
   * - The slot names another vertex `existing`: `InsertWithExistingNode` walks on
   *   (ins ahead of existing), splices (ins behind existing) or does nothing.
   * - The slot is empty: connect `root` and `ins`, splice `ins` onto an edge it lands
   *   on, then splice crossing vertices onto every edge the new line crosses.
   * The source's recursion has no bound; `fuel` bounds the nesting of InsertNode calls
   * made by the helpers, and a nested call beyond it is not made.
   */
  method InsertNode(g: Graph, fuel: nat, d: Direction, root: nat, ins: nat)
    requires g.Valid() && root < |g.nodes| && ins < |g.nodes|
    modifies g
    ensures g.Valid() && Extends(old(g.nodes), g.nodes)
    ensures WalkDone(old(g.nodes), g.nodes, d, ins, Walk(old(g.nodes), d, root, ins, fuel))
    decreases fuel, 1
  {
    ghost var before := g.nodes;
    ghost var end := Walk(before, d, root, ins, fuel);
    var existing := Slot(g.nodes, root, d);
    if existing.Some? {
      if ins != existing.value {
        InsertWithExistingNode(g, fuel, d, root, ins, existing.value);
      }
    } else {
      assert end == EmptyAt(root);
      g.ConnectAdjacentNode(d, root, ins);
      ConnectNewNodeWithIntersectingLine(g, fuel, root, ins);
      ConnectLineIntersections(g, fuel, d, root, ins);
      assert Quiet(before, d, root, ins) ==> g.nodes == Connected(before, d, root, ins);
    }
  }

  /** `InsertWithExistingNode`: walk on past `existing`, splice before it, or do nothing. */
  method InsertWithExistingNode(g: Graph, fuel: nat, d: Direction, root: nat, ins: nat, existing: nat)
    requires g.Valid() && root < |g.nodes| && ins < |g.nodes| && existing < |g.nodes|
    modifies g
    ensures g.Valid() && Extends(old(g.nodes), g.nodes)
    ensures var before := old(g.nodes);
      !GreaterThan(d, before[ins], before[existing]) && !LessThan(d, before[ins], before[existing])
      ==> g.nodes == before
    ensures var before := old(g.nodes);
      LessThan(d, before[ins], before[existing]) ==> g.nodes == Spliced(before, d, root, ins, existing)
    ensures GreaterThan(d, old(g.nodes)[ins], old(g.nodes)[existing]) && fuel == 0 ==> g.nodes == old(g.nodes)
    ensures var before := old(g.nodes);
      GreaterThan(d, before[ins], before[existing]) && fuel >= 1 ==>
        WalkDone(before, g.nodes, d, ins, Walk(before, d, existing, ins, fuel - 1))
    decreases fuel, 0
  {
    ghost var before := g.nodes;
    OrderingAlongDirection(d, g.nodes[ins], g.nodes[existing]);
    if GreaterThan(d, g.nodes[ins], g.nodes[existing]) {
      if fuel > 0 {
        InsertNode(g, fuel - 1, d, existing, ins);
      }
    } else if LessThan(d, g.nodes[ins], g.nodes[existing]) {
      assert !GreaterThan(d, before[ins], before[existing]);
      g.ConnectAdjacentNode(d, root, ins);
      g.ConnectAdjacentNode(InvertDirection(d), existing, ins);
    }
  }

  /**
   * What inserting `ins` from the edge leaving `v` in direction `e` leaves behind when
   * no further search is involved: `ins` spliced into the edge when it lies before the
   * edge's far end, no change when it is level with that end.
   */
  ghost predicate InsertedOnEdge(before: seq<Vertex>, after: seq<Vertex>, v: nat, e: Direction, ins: nat)
    requires WellFormed(before) && v < |before| && ins < |before| && Slot(before, v, e).Some?
  {
    var w := Slot(before, v, e).value;
    (LessThan(e, before[ins], before[w]) ==> after == Spliced(before, e, v, ins, w)) &&
    (!GreaterThan(e, before[ins], before[w]) && !LessThan(e, before[ins], before[w]) ==> after == before)
  }

  /**
   * `ConnectNewNodeWithIntersectingLine`: if `ins` lands strictly inside an edge met by
   * the search from `root`, insert it from that edge's first vertex: the first vertex
   * of the depth-first walk from `root` that has such an edge, and its first such slot.
   */
  method ConnectNewNodeWithIntersectingLine(g: Graph, fuel: nat, root: nat, ins: nat)
    requires g.Valid() && root < |g.nodes| && ins < |g.nodes|
    modifies g
    ensures g.Valid() && Extends(old(g.nodes), g.nodes)
    ensures NoLanding(old(g.nodes), root, ins) ==> g.nodes == old(g.nodes)
    ensures var before := old(g.nodes);
      fuel > 0 && (exists v: nat, e :: v < |before| && Reachable(before, root, v) && Lands(before, v, e, ins)) ==>
        exists p: InsertionPoint :: FirstLandingAt(before, p, ins) && Reachable(before, root, p.node) &&
          FirstLanding(before, Preorder(before, {}, root).0, ins) == Some(p.node) &&
          InsertedOnEdge(before, g.nodes, p.node, p.direction, ins)
    decreases fuel, 0
  {
    if fuel == 0 {
      return;
    }
    ghost var before := g.nodes;
    var seen, insertionPoint := FindInsertionPoint(g.nodes, {}, root, ins);
    if insertionPoint.Some? {
      var p := insertionPoint.value;
      forall S | Closed(before, S) && root in S ensures p.node in S {
      }
      assert Reachable(before, root, p.node);
      InsertNode(g, fuel - 1, p.direction, p.node, ins);
      assert InsertedOnEdge(before, g.nodes, p.node, p.direction, ins);
    } else {
      assert seen - {} == seen;
      SearchCoversReachable(before, root, seen);
      forall v: nat, e | v < |before| && Reachable(before, root, v) ensures !Lands(before, v, e, ins) {
        assert v in seen;
        assert NoLandingAt(before, v, ins);
      }
    }
  }

  /**
   * `ConnectLineIntersections`: for every crossing found, create the crossing vertex,
   * insert it onto the crossed edge and onto the new line. The crossing vertex is
   * created when its point is handled rather than during the search.
   */
  method ConnectLineIntersections(g: Graph, fuel: nat, d: Direction, root: nat, ins: nat)
    requires g.Valid() && root < |g.nodes| && ins < |g.nodes|
    modifies g
    ensures g.Valid() && Extends(old(g.nodes), g.nodes)
    ensures NoCrossing(old(g.nodes), d, root, ins) ==> g.nodes == old(g.nodes)
    ensures var before := old(g.nodes); var len := GetLineLength(before[root], d, before[ins]);
      fuel > 0 ==>
        forall v: nat, e :: v < |before| && Reachable(before, root, v) && Crosses(before, v, e, ins, d, len) ==>
          HasVertexAt(g.nodes, |before|, CrossingPoint(before, v, e, ins))
    decreases fuel, 0
  {
    if fuel == 0 {
      return;
    }
    var len := GetLineLength(g.nodes[root], d, g.nodes[ins]);
    var seen, intersectionPoints := FindIntersectionPoints(g.nodes, {}, [], root, ins, d, len);
    ghost var before := g.nodes;
    assert seen - {} == seen;
    SearchCoversReachable(before, root, seen);
    assert NoCrossing(before, d, root, ins) ==> intersectionPoints == [] by {
      if intersectionPoints != [] {
        var first := intersectionPoints[0];
        assert Recorded(before, first, ins, d, len);
        forall S | Closed(before, S) && root in S ensures first.node in S {
        }
        assert Reachable(before, root, first.node);
        assert Crosses(before, first.node, first.direction, ins, d, len);
      }
    }
    InsertCrossings(g, fuel - 1, d, root, intersectionPoints);
    forall v: nat, e | v < |before| && Reachable(before, root, v) && Crosses(before, v, e, ins, d, len)
      ensures HasVertexAt(g.nodes, |before|, CrossingPoint(before, v, e, ins))
    {
      var p := InsertionPoint(v, e, Some(CrossingPoint(before, v, e, ins)));
      assert v in seen;
      var j :| 0 <= j < |intersectionPoints| && intersectionPoints[j] == p;
    }
  }

  /**
   * The loop of `ConnectLineIntersections`: every recorded point with a crossing gets a
   * crossing vertex, inserted onto its edge and onto the new line, in list order.
   */
  method InsertCrossings(g: Graph, fuel: nat, d: Direction, root: nat, points: seq<InsertionPoint>)
    requires g.Valid() && root < |g.nodes|
    requires forall j :: 0 <= j < |points| ==> points[j].node < |g.nodes|
    modifies g
    ensures g.Valid() && Extends(old(g.nodes), g.nodes)
    ensures points == [] ==> g.nodes == old(g.nodes)
    ensures forall j :: 0 <= j < |points| && points[j].crossing.Some? ==>
              HasVertexAt(g.nodes, |old(g.nodes)|, points[j].crossing.value)
    decreases fuel, 3
  {
    ghost var before := g.nodes;
    var i := 0;
    while i < |points|
      invariant 0 <= i <= |points|
      invariant g.Valid() && Extends(before, g.nodes)
      invariant points == [] ==> g.nodes == before
      invariant forall j :: 0 <= j < i && points[j].crossing.Some? ==>
                  HasVertexAt(g.nodes, |before|, points[j].crossing.value)
    {
      ghost var start := g.nodes;
      var point := points[i];
      if point.crossing.Some? {
        InsertCrossing(g, fuel, d, root, point.node, point.direction, point.crossing.value);
        forall j | 0 <= j < i && points[j].crossing.Some?
          ensures HasVertexAt(g.nodes, |before|, points[j].crossing.value)
        {
          HasVertexAtKept(start, g.nodes, |before|, points[j].crossing.value);
        }
        HasVertexAtFrom(g.nodes, |start|, |before|, point.crossing.value);
        ExtendsTransitive(before, start, g.nodes);
      }
      i := i + 1;
    }
  }

  /**
   * One crossing of `ConnectLineIntersections`: create the crossing vertex at `p`, insert
   * it in direction `e` of `v` (onto the crossed edge), then in direction `d` of `root`
   * (onto the new line).
   */
  method InsertCrossing(g: Graph, fuel: nat, d: Direction, root: nat, v: nat, e: Direction, p: Point)
    requires g.Valid() && root < |g.nodes| && v < |g.nodes|
    modifies g
    ensures g.Valid() && Extends(old(g.nodes), g.nodes)
    ensures HasVertexAt(g.nodes, |old(g.nodes)|, p)
    ensures var created, c := WithNewNode(old(g.nodes), p.x, p.y), |old(g.nodes)|;
      var onEdge := AfterWalk(created, e, c, Walk(created, e, v, c, fuel));
      onEdge.Some? ==> WalkDone(onEdge.value, g.nodes, d, c, Walk(onEdge.value, d, root, c, fuel))
    decreases fuel, 2
  {
    ghost var start := g.nodes;
    var crossing := g.NewNode(p.x, p.y);
    ghost var created := g.nodes;
    assert created[crossing].x == p.x && created[crossing].y == p.y;
    assert HasVertexAt(created, |start|, p);
    InsertNode(g, fuel, e, v, crossing);
    assert Extends(start, g.nodes) && |start| < |g.nodes| by {
      ExtendsTransitive(start, created, g.nodes);
    }
    InsertNode(g, fuel, d, root, crossing);
    ExtendsTransitive(start, created, g.nodes);
    HasVertexAtKept(created, g.nodes, |start|, p);
  }

  /**
   * The usual crossing: the point lies strictly before the crossed edge's far end `w`
   * along `e` and strictly before `root`'s neighbour `x` on the new line. Then the
   * crossing vertex is spliced into the crossed edge and, the new line's slot being
   * untouched by that, spliced into the new line as well.
   */
  lemma CrossingSplicedTwice(before: seq<Vertex>, fuel: nat, d: Direction, root: nat, v: nat, e: Direction,
                             p: Point, w: nat, x: nat)
    requires WellFormed(before) && root < |before| && v < |before| && GetAxis(e) != GetAxis(d)
    requires Slot(before, v, e) == Some(w) && Slot(before, root, d) == Some(x)
    requires var c := WithNewNode(before, p.x, p.y)[|before|];
      w < |before| && x < |before| && LessThan(e, c, before[w]) && LessThan(d, c, before[x])
    ensures var created, c := WithNewNode(before, p.x, p.y), |before|;
      var onEdge := AfterWalk(created, e, c, Walk(created, e, v, c, fuel));
      onEdge == Some(Spliced(created, e, v, c, w)) &&
      Walk(onEdge.value, d, root, c, fuel) == SpliceAt(root, x) &&
      AfterWalk(onEdge.value, d, c, SpliceAt(root, x)) == Some(Spliced(Spliced(created, e, v, c, w), d, root, c, x))
  {
    var created, c := WithNewNode(before, p.x, p.y), |before|;
    assert Slot(created, v, e) == Some(w) && Slot(created, root, d) == Some(x);
    assert created[w] == before[w] && created[x] == before[x];
    assert Walk(created, e, v, c, fuel) == SpliceAt(v, w);
    var mid := Spliced(created, e, v, c, w);
    SplicedShape(created, e, v, c, w);
    assert d != e && d != InvertDirection(e);
    assert Slot(mid, root, d) == Some(x);
    assert mid[c].x == created[c].x && mid[c].y == created[c].y;
    assert mid[x].x == created[x].x && mid[x].y == created[x].y;
    assert LessThan(d, mid[c], mid[x]);
  }

  /** Some vertex created at index `from` or later stands at `p`. */
  ghost predicate HasVertexAt(g: seq<Vertex>, from: nat, p: Point) {
    exists k :: from <= k < |g| && g[k].x == p.x && g[k].y == p.y
  }

  lemma HasVertexAtKept(a: seq<Vertex>, b: seq<Vertex>, from: nat, p: Point)
    requires Extends(a, b) && HasVertexAt(a, from, p)
    ensures HasVertexAt(b, from, p)
  {
    var k :| from <= k < |a| && a[k].x == p.x && a[k].y == p.y;
    assert b[k].x == p.x && b[k].y == p.y;
  }

  lemma HasVertexAtFrom(g: seq<Vertex>, later: nat, from: nat, p: Point)
    requires from <= later && HasVertexAt(g, later, p)
    ensures HasVertexAt(g, from, p)
  {
    var k :| later <= k < |g| && g[k].x == p.x && g[k].y == p.y;
  }

  /* ------------------------------------------------------------- rectangles */

  /**
   * `AddRectangle(root, width, height)`: create the top-right corner and insert it
   * Right of `root`, the bottom-right corner Down of it, the bottom-left corner Left
   * of that, and finally insert `root` Up of the bottom-left corner. Starting from an
   * arena that holds only an isolated root, and with both sides at least 2, the
   * result is exactly the closed outline `RectangleGraph`.
   */
  method AddRectangle(g: Graph, fuel: nat, root: nat, width: int, height: int)
    returns (topRight: nat, bottomRight: nat, bottomLeft: nat)
    requires g.Valid() && root < |g.nodes|
    modifies g
    ensures g.Valid() && Extends(old(g.nodes), g.nodes)
    ensures topRight == |old(g.nodes)| && topRight < bottomRight < bottomLeft < |g.nodes|
    ensures var r := old(g.nodes[root]);
      g.nodes[topRight].x == r.x + (width - 1) && g.nodes[topRight].y == r.y &&
      g.nodes[bottomRight].x == r.x + (width - 1) && g.nodes[bottomRight].y == r.y + (height - 1) &&
      g.nodes[bottomLeft].x == r.x && g.nodes[bottomLeft].y == r.y + (height - 1)
    ensures var before := old(g.nodes);
      |before| == 1 && before[0].adj == NoNeighbours && width >= 2 && height >= 2 ==>
        g.nodes == RectangleGraph(before[0].x, before[0].y, width, height) &&
        (topRight, bottomRight, bottomLeft) == (1, 2, 3)
  {
    ghost var isolated := |g.nodes| == 1 && g.nodes[0].adj == NoNeighbours && width >= 2 && height >= 2;
    ghost var s0 := g.nodes;
    var x, y := g.nodes[root].x, g.nodes[root].y;
    assert isolated ==> root == 0 && g.nodes + [Vertex(x + (width - 1), y, NoNeighbours)] == StageBefore(0, x, y, width, height);
    topRight := AddCorner(g, fuel, Right, root, x + (width - 1), y, 0, x, y, width, height, isolated);
    ghost var s1 := g.nodes;
    bottomRight := AddCorner(g, fuel, Down, topRight, g.nodes[topRight].x, g.nodes[topRight].y + (height - 1),
                             1, x, y, width, height, isolated);
    ghost var s2 := g.nodes;
    bottomLeft := AddCorner(g, fuel, Left, bottomRight, g.nodes[bottomRight].x - (width - 1), g.nodes[bottomRight].y,
                            2, x, y, width, height, isolated);
    ghost var s3 := g.nodes;
    InsertSide(g, fuel, Up, bottomLeft, root, 3, x, y, width, height, isolated);
    CornersKept(s1, s2, s3, g.nodes, topRight, bottomRight, bottomLeft);
    ExtendsTransitive(s2, s3, g.nodes);
    ExtendsTransitive(s1, s2, g.nodes);
    ExtendsTransitive(s0, s1, g.nodes);
  }

  /** The corners created by the three `AddCorner` steps keep their coordinates to the end. */
  lemma CornersKept(s1: seq<Vertex>, s2: seq<Vertex>, s3: seq<Vertex>, s4: seq<Vertex>, a: nat, b: nat, c: nat)
    requires Extends(s1, s2) && Extends(s2, s3) && Extends(s3, s4)
    requires a < |s1| && b < |s2| && c < |s3|
    ensures s4[a].x == s1[a].x && s4[a].y == s1[a].y
    ensures s4[b].x == s2[b].x && s4[b].y == s2[b].y
    ensures s4[c].x == s3[c].x && s4[c].y == s3[c].y
  {
  }

  /**
   * One corner of `AddRectangle`: create it at `(cx, cy)` and insert it in direction
   * `d` of `from`. When `staged`, this is stage `stage` of the outline with top-left
   * corner `(x, y)`, and the arena becomes `StageAfter(stage, ..)`.
   */
  method AddCorner(g: Graph, fuel: nat, d: Direction, from: nat, cx: int, cy: int,
                   ghost stage: nat, ghost x: int, ghost y: int, ghost width: int, ghost height: int,
                   ghost staged: bool)
    returns (corner: nat)
    requires g.Valid() && from < |g.nodes|
    requires staged ==> stage < 3 && width >= 2 && height >= 2 && d == StageDirection(stage) && from == stage &&
                        g.nodes + [Vertex(cx, cy, NoNeighbours)] == StageBefore(stage, x, y, width, height)
    modifies g
    ensures g.Valid() && Extends(old(g.nodes), g.nodes)
    ensures corner == |old(g.nodes)| && corner < |g.nodes|
    ensures g.nodes[corner].x == cx && g.nodes[corner].y == cy
    ensures staged ==> g.nodes == StageAfter(stage, x, y, width, height)
  {
    corner := g.NewNode(cx, cy);
    ghost var created := g.nodes;
    InsertSide(g, fuel, d, from, corner, stage, x, y, width, height, staged);
    ExtendsTransitive(old(g.nodes), created, g.nodes);
  }

  /**
   * One `InsertNode` of `AddRectangle`. When `staged`, this is stage `stage` of the
   * outline with top-left corner `(x, y)`: the insertion is quiet, so the arena
   * becomes `StageAfter(stage, ..)`.
   */
  method InsertSide(g: Graph, fuel: nat, d: Direction, from: nat, ins: nat,
                    ghost stage: nat, ghost x: int, ghost y: int, ghost width: int, ghost height: int,
                    ghost staged: bool)
    requires g.Valid() && from < |g.nodes| && ins < |g.nodes|
    requires staged ==> stage < 4 && width >= 2 && height >= 2 && d == StageDirection(stage) && from == stage &&
                        ins == (stage + 1) % 4 && g.nodes == StageBefore(stage, x, y, width, height)
    modifies g
    ensures g.Valid() && Extends(old(g.nodes), g.nodes)
    ensures staged ==> g.nodes == StageAfter(stage, x, y, width, height)
  {
    assert staged ==> Quiet(g.nodes, d, from, ins) &&
                      Connected(g.nodes, d, from, ins) == StageAfter(stage, x, y, width, height)
    by {
      if staged {
        StageQuiet(stage, x, y, width, height);
      }
    }
    InsertNode(g, fuel, d, from, ins);
  }

  /** Every stage of `AddRectangle` on an isolated root is quiet. */
  lemma StageQuiet(k: nat, x: int, y: int, width: int, height: int)
    requires k < 4
    ensures var before := StageBefore(k, x, y, width, height);
      WellFormed(before) && k < |before| && (k + 1) % 4 < |before| &&
      Connected(before, StageDirection(k), k, (k + 1) % 4) == StageAfter(k, x, y, width, height) &&
      (width >= 2 && height >= 2 ==> Quiet(before, StageDirection(k), k, (k + 1) % 4))
  {
    StageConnected(k, x, y, width, height);
    if k == 0 {
      TopSideStep(x, y, width);
    } else if k == 1 {
      RightSideStep(x, y, width, height);
    } else if k == 2 {
      BottomSideStep(x, y, width, height);
    } else {
      LeftSideStep(x, y, width, height);
    }
  }

  /**
   * First insertion of `AddRectangle` on an isolated root: connecting the new
   * top-right corner gives `TopSide`, on which the corner lands on no edge and the new
   * line crosses none, so the insertion stops there.
   */
  lemma TopSideStep(x: int, y: int, width: int)
    ensures var before := TopSideBefore(x, y, width);
      WellFormed(before) && Connected(before, Right, 0, 1) == TopSide(x, y, width) &&
      (width >= 2 ==> Quiet(before, Right, 0, 1))
  {
    var after := TopSide(x, y, width);
    TopSideConnected(x, y, width);
    forall v: nat, e | width >= 2 && v < |after| ensures !Lands(after, v, e, 1) && !Crosses(after, v, e, 1, Right, width - 1) {
    }
  }

  /**
   * Second insertion: connecting the new bottom-right corner below the top-right one
   * gives `RightSide`; the corner lands on no edge and the vertical line crosses none.
   */
  lemma RightSideStep(x: int, y: int, width: int, height: int)
    ensures var before := RightSideBefore(x, y, width, height);
      WellFormed(before) && Connected(before, Down, 1, 2) == RightSide(x, y, width, height) &&
      (width >= 2 && height >= 2 ==> Quiet(before, Down, 1, 2))
  {
    var after := RightSide(x, y, width, height);
    RightSideConnected(x, y, width, height);
    forall v: nat, e | width >= 2 && height >= 2 && v < |after|
      ensures !Lands(after, v, e, 2) && !Crosses(after, v, e, 2, Down, height - 1)
    {
    }
  }

  /**
   * Third insertion: connecting the new bottom-left corner left of the bottom-right one
   * gives `BottomSide`; the corner lands on no edge and the horizontal line crosses none.
   */
  lemma BottomSideStep(x: int, y: int, width: int, height: int)
    ensures var before := BottomSideBefore(x, y, width, height);
      WellFormed(before) && Connected(before, Left, 2, 3) == BottomSide(x, y, width, height) &&
      (width >= 2 && height >= 2 ==> Quiet(before, Left, 2, 3))
  {
    var after := BottomSide(x, y, width, height);
    BottomSideConnected(x, y, width, height);
    forall v: nat, e | width >= 2 && height >= 2 && v < |after|
      ensures !Lands(after, v, e, 3) && !Crosses(after, v, e, 3, Left, width - 1)
    {
    }
  }

  /**
   * Last insertion: connecting the root above the bottom-left corner closes the outline
   * into `RectangleGraph`; the root lands on no edge and the closing line crosses none.
   */
  lemma LeftSideStep(x: int, y: int, width: int, height: int)
    ensures var before := BottomSide(x, y, width, height);
      WellFormed(before) && Connected(before, Up, 3, 0) == RectangleGraph(x, y, width, height) &&
      (width >= 2 && height >= 2 ==> Quiet(before, Up, 3, 0))
  {
    LeftSideConnected(x, y, width, height);
    var after := RectangleGraph(x, y, width, height);
    forall v: nat, e | width >= 2 && height >= 2 && v < |after|
      ensures !Lands(after, v, e, 0) && !Crosses(after, v, e, 0, Up, height - 1)
    {
    }
  }
}
