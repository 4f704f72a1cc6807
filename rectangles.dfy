/**
 * The outline `AddRectangle(root, width, height)` builds around an isolated root in
 * both engines: four corners, clockwise from the top-left root.
 */
module Rectangles {
  import opened Wrappers
  import opened Directions
  import opened Nodes

  /**
   * The arena after `AddRectangle` on an arena holding only the isolated root at
   * `(x, y)`: root 0, top-right 1, bottom-right 2, bottom-left 3 (slots Up, Left, Down, Right).
   */
  function RectangleGraph(x: int, y: int, width: int, height: int): seq<Vertex> {
    [ Vertex(x, y, [None, None, Some(3), Some(1)]),
      Vertex(x + (width - 1), y, [None, Some(0), Some(2), None]),
      Vertex(x + (width - 1), y + (height - 1), [Some(1), Some(3), None, None]),
      Vertex(x, y + (height - 1), [Some(0), None, None, Some(2)]) ]
  }

  /** The vertex reached from `v` by following the slots named in `path`, if every slot is set. */
  function Walk(g: seq<Vertex>, v: nat, path: seq<Direction>): (r: Option<nat>)
    requires WellFormed(g) && v < |g|
    ensures r.Some? ==> r.value < |g|
    decreases |path|
  {
    if path == [] then Some(v)
    else match Slot(g, v, path[0])
      case None => None
      case Some(w) => Walk(g, w, path[1..])
  }

  lemma RectangleWellFormed(x: int, y: int, width: int, height: int)
    ensures WellFormed(RectangleGraph(x, y, width, height))
  {
    var g := RectangleGraph(x, y, width, height);
    forall v: nat, e | v < |g| && Slot(g, v, e).Some? ensures Slot(g, v, e).value < |g| {
      var k := Index(e);
      assert g[v].adj[k].Some?;
      assert v == 0 || v == 1 || v == 2 || v == 3;
    }
  }

  lemma RectangleSymmetric(x: int, y: int, width: int, height: int)
    ensures WellFormed(RectangleGraph(x, y, width, height))
    ensures Symmetric(RectangleGraph(x, y, width, height))
  {
    var g := RectangleGraph(x, y, width, height);
    RectangleWellFormed(x, y, width, height);
    forall v: nat, e | v < |g| && Slot(g, v, e).Some? ensures Mirrored(g, v, e) {
      if v == 0 {
        assert e == Down || e == Right;
      } else if v == 1 {
        assert e == Left || e == Down;
      } else if v == 2 {
        assert e == Up || e == Left;
      } else {
        assert e == Up || e == Right;
      }
    }
  }

  /**
   * Rectangle closure: the outline is bidirectional, and walking Right, Down, Left,
   * Up from the root visits the three new corners and comes back to the root.
   */
  lemma RectangleClosure(x: int, y: int, width: int, height: int)
    ensures WellFormed(RectangleGraph(x, y, width, height))
    ensures Symmetric(RectangleGraph(x, y, width, height))
    ensures var g := RectangleGraph(x, y, width, height);
      Walk(g, 0, [Right]) == Some(1) && Walk(g, 0, [Right, Down]) == Some(2) &&
      Walk(g, 0, [Right, Down, Left]) == Some(3) && Walk(g, 0, [Right, Down, Left, Up]) == Some(0)
    ensures var g := RectangleGraph(x, y, width, height);
      (g[1].x, g[1].y) == (x + width - 1, y) && (g[2].x, g[2].y) == (x + width - 1, y + height - 1) &&
      (g[3].x, g[3].y) == (x, y + height - 1)
  {
    RectangleSymmetric(x, y, width, height);
    RectangleWalk(x, y, width, height);
  }

  lemma RectangleWalk(x: int, y: int, width: int, height: int)
    ensures WellFormed(RectangleGraph(x, y, width, height))
    ensures var g := RectangleGraph(x, y, width, height);
      Walk(g, 0, [Right]) == Some(1) && Walk(g, 0, [Right, Down]) == Some(2) &&
      Walk(g, 0, [Right, Down, Left]) == Some(3) && Walk(g, 0, [Right, Down, Left, Up]) == Some(0)
  {
    var g := RectangleGraph(x, y, width, height);
    RectangleWellFormed(x, y, width, height);
    assert Slot(g, 0, Right) == Some(1) && Slot(g, 1, Down) == Some(2);
    assert Slot(g, 2, Left) == Some(3) && Slot(g, 3, Up) == Some(0);
    assert [Right, Down, Left, Up][1..] == [Down, Left, Up];
    assert [Down, Left, Up][1..] == [Left, Up];
    assert [Left, Up][1..] == [Up];
    assert [Up][1..] == [];
    assert Walk(g, 3, [Up]) == Some(0);
    assert Walk(g, 2, [Left, Up]) == Some(0);
    assert Walk(g, 1, [Down, Left, Up]) == Some(0);
    assert [Right, Down, Left][1..] == [Down, Left];
    assert [Down, Left][1..] == [Left];
    assert [Left][1..] == [];
    assert [Right, Down][1..] == [Down];
    assert [Down][1..] == [];
    assert [Right][1..] == [];
  }

  /* The stages of `AddRectangle` on an arena holding only an isolated root at `(x, y)`. */

  /** The isolated root and the new top-right corner, before they are connected. */
  function TopSideBefore(x: int, y: int, width: int): seq<Vertex> {
    [Vertex(x, y, NoNeighbours), Vertex(x + (width - 1), y, NoNeighbours)]
  }

  /** `TopSide` and the new bottom-right corner, before it is connected. */
  function RightSideBefore(x: int, y: int, width: int, height: int): seq<Vertex> {
    TopSide(x, y, width) + [Vertex(x + (width - 1), y + (height - 1), NoNeighbours)]
  }

  /** `RightSide` and the new bottom-left corner, before it is connected. */
  function BottomSideBefore(x: int, y: int, width: int, height: int): seq<Vertex> {
    RightSide(x, y, width, height) + [Vertex(x, y + (height - 1), NoNeighbours)]
  }

  /** The arena once the top side is inserted: root 0 and top-right corner 1. */
  function TopSide(x: int, y: int, width: int): seq<Vertex> {
    [ Vertex(x, y, [None, None, None, Some(1)]),
      Vertex(x + (width - 1), y, [None, Some(0), None, None]) ]
  }

  /** The arena once the right side is inserted: bottom-right corner 2 below the top-right one. */
  function RightSide(x: int, y: int, width: int, height: int): seq<Vertex> {
    [ Vertex(x, y, [None, None, None, Some(1)]),
      Vertex(x + (width - 1), y, [None, Some(0), Some(2), None]),
      Vertex(x + (width - 1), y + (height - 1), [Some(1), None, None, None]) ]
  }

  /** The arena once the bottom side is inserted: bottom-left corner 3 left of the bottom-right one. */
  function BottomSide(x: int, y: int, width: int, height: int): seq<Vertex> {
    [ Vertex(x, y, [None, None, None, Some(1)]),
      Vertex(x + (width - 1), y, [None, Some(0), Some(2), None]),
      Vertex(x + (width - 1), y + (height - 1), [Some(1), Some(3), None, None]),
      Vertex(x, y + (height - 1), [None, None, None, Some(2)]) ]
  }

  /** Connecting the root to the new top-right corner gives `TopSide`. */
  lemma TopSideConnected(x: int, y: int, width: int)
    ensures var before := TopSideBefore(x, y, width);
      WellFormed(before) && Connected(before, Right, 0, 1) == TopSide(x, y, width)
    ensures WellFormed(TopSide(x, y, width))
  {
    var before := TopSideBefore(x, y, width);
    assert WellFormed(before);
    SameSlotsSameGraph(Connected(before, Right, 0, 1), TopSide(x, y, width));
  }

  /** Connecting the new bottom-right corner below the top-right one gives `RightSide`. */
  lemma RightSideConnected(x: int, y: int, width: int, height: int)
    ensures var before := RightSideBefore(x, y, width, height);
      WellFormed(before) && Connected(before, Down, 1, 2) == RightSide(x, y, width, height)
    ensures WellFormed(RightSide(x, y, width, height))
  {
    var before := RightSideBefore(x, y, width, height);
    assert WellFormed(before);
    SameSlotsSameGraph(Connected(before, Down, 1, 2), RightSide(x, y, width, height));
  }

  /** Connecting the new bottom-left corner left of the bottom-right one gives `BottomSide`. */
  lemma BottomSideConnected(x: int, y: int, width: int, height: int)
    ensures var before := BottomSideBefore(x, y, width, height);
      WellFormed(before) && Connected(before, Left, 2, 3) == BottomSide(x, y, width, height)
    ensures WellFormed(BottomSide(x, y, width, height))
  {
    var before := BottomSideBefore(x, y, width, height);
    assert WellFormed(before);
    SameSlotsSameGraph(Connected(before, Left, 2, 3), BottomSide(x, y, width, height));
  }

  /** Connecting the root above the bottom-left corner closes the outline into `RectangleGraph`. */
  lemma LeftSideConnected(x: int, y: int, width: int, height: int)
    ensures WellFormed(BottomSide(x, y, width, height)) && WellFormed(RectangleGraph(x, y, width, height))
    ensures Connected(BottomSide(x, y, width, height), Up, 3, 0) == RectangleGraph(x, y, width, height)
  {
    BottomSideConnected(x, y, width, height);
    RectangleWellFormed(x, y, width, height);
    SameSlotsSameGraph(Connected(BottomSide(x, y, width, height), Up, 3, 0), RectangleGraph(x, y, width, height));
  }

  /**
   * Stage `k` (0 to 3) of `AddRectangle` inserts vertex `(k + 1) % 4` in direction
   * `StageDirection(k)` of vertex `k`, turning `StageBefore(k, ..)` into `StageAfter(k, ..)`.
   */
  function StageDirection(k: nat): Direction {
    if k == 0 then Right else if k == 1 then Down else if k == 2 then Left else Up
  }

  /** The arena before stage `k` connects anything. */
  function StageBefore(k: nat, x: int, y: int, width: int, height: int): seq<Vertex> {
    if k == 0 then TopSideBefore(x, y, width)
    else if k == 1 then RightSideBefore(x, y, width, height)
    else if k == 2 then BottomSideBefore(x, y, width, height)
    else BottomSide(x, y, width, height)
  }

  /** The arena after stage `k`. */
  function StageAfter(k: nat, x: int, y: int, width: int, height: int): seq<Vertex> {
    if k == 0 then TopSide(x, y, width)
    else if k == 1 then RightSide(x, y, width, height)
    else if k == 2 then BottomSide(x, y, width, height)
    else RectangleGraph(x, y, width, height)
  }

  /** Each stage is one connection. */
  lemma StageConnected(k: nat, x: int, y: int, width: int, height: int)
    requires k < 4
    ensures var before := StageBefore(k, x, y, width, height);
      WellFormed(before) && k < |before| && (k + 1) % 4 < |before| &&
      Connected(before, StageDirection(k), k, (k + 1) % 4) == StageAfter(k, x, y, width, height)
  {
    if k == 0 {
      TopSideConnected(x, y, width);
    } else if k == 1 {
      RightSideConnected(x, y, width, height);
    } else if k == 2 {
      BottomSideConnected(x, y, width, height);
    } else {
      LeftSideConnected(x, y, width, height);
    }
  }
}
