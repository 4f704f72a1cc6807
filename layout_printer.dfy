/**
 * The box-drawing renderer of src/LayoutPrinter.cs. It draws a `VertexNode` graph
 * on a character canvas with `AreaHeight` rows and `2 * AreaWidth - 1` columns: a
 * vertex at `(X, Y)` owns cell `[Y, 2 * X]`, the columns in between carry horizontal
 * lines. The edge pass draws a line for every slot of every reachable vertex; the
 * vertex pass then writes each reachable vertex's junction glyph over its own cell.
 */
module LayoutPrinter {
  import opened Wrappers
  import opened Directions
  import opened Nodes
  import opened Rectangles
  import Procedural

  datatype LayoutSymbol =
    | CornerNW | CornerNE | CornerSW | CornerSE | CornerNSE | CornerNSW
    | CornerSWE | CornerNWE | CornerNSEW | StraightH | StraightV

  /** `symbolsMap`: the box-drawing character of each symbol. */
  function Glyph(s: LayoutSymbol): (c: char)
    ensures c != '#' && c != ' '
  {
    match s
    case StraightH => '─'
    case StraightV => '│'
    case CornerNW => '┘'
    case CornerNE => '└'
    case CornerSW => '┐'
    case CornerSE => '┌'
    case CornerNSE => '├'
    case CornerNSW => '┤'
    case CornerNSEW => '┼'
    case CornerSWE => '┬'
    case CornerNWE => '┴'
  }

  /** `layoutSymbolConditionsMap`: which slots (Up, Left, Down, Right) a symbol's vertex has set. */
  function Conditions(s: LayoutSymbol): (r: seq<bool>)
    ensures |r| == 4
    ensures (if r[0] then 1 else 0) + (if r[1] then 1 else 0) + (if r[2] then 1 else 0) + (if r[3] then 1 else 0) >= 2
  {
    match s
    case CornerNW => [true, true, false, false]
    case CornerNE => [true, false, false, true]
    case CornerSW => [false, true, true, false]
    case CornerSE => [false, false, true, true]
    case CornerNSE => [true, false, true, true]
    case CornerNSW => [true, true, true, false]
    case CornerSWE => [false, true, true, true]
    case CornerNWE => [true, true, false, true]
    case CornerNSEW => [true, true, true, true]
    case StraightH => [false, true, false, true]
    case StraightV => [true, false, true, false]
  }

  /** The order in which `GetNodeSymbol` tries the symbols: the order of the conditions table. */
  const ConditionOrder: seq<LayoutSymbol> :=
    [CornerNW, CornerNE, CornerSW, CornerSE, CornerNSE, CornerNSW, CornerSWE, CornerNWE, CornerNSEW, StraightH, StraightV]

  /** Which slots of `v` are set, in slot order. */
  function Presence(v: Vertex): seq<bool> {
    [v.adj[0].Some?, v.adj[1].Some?, v.adj[2].Some?, v.adj[3].Some?]
  }

  /** The number of neighbours of `v`. */
  function Degree(v: Vertex): nat {
    (if v.adj[0].Some? then 1 else 0) + (if v.adj[1].Some? then 1 else 0) +
    (if v.adj[2].Some? then 1 else 0) + (if v.adj[3].Some? then 1 else 0)
  }

  /** The glyph of the first of `symbols` whose conditions equal `p`, or `'#'`. */
  function SymbolFor(symbols: seq<LayoutSymbol>, p: seq<bool>): char {
    if symbols == [] then '#'
    else if Conditions(symbols[0]) == p then Glyph(symbols[0])
    else SymbolFor(symbols[1..], p)
  }

  /** The junction glyph `GetNodeSymbol` picks for `v`. */
  function NodeSymbol(v: Vertex): char {
    SymbolFor(ConditionOrder, Presence(v))
  }

  /**
   * `GetNodeSymbol(node)`: try the symbols in table order, comparing the four
   * conditions with the slots and stopping at the first mismatch; `'#'` when none matches.
   */
  method GetNodeSymbol(node: Vertex) returns (c: char)
    ensures c == NodeSymbol(node)
  {
    var i := 0;
    while i < |ConditionOrder|
      invariant 0 <= i <= |ConditionOrder|
      invariant forall k :: 0 <= k < i ==> Conditions(ConditionOrder[k]) != Presence(node)
    {
      var symbol := ConditionOrder[i];
      var pattern := Conditions(symbol);
      var foundMatch := true;
      var j := 0;
      while j < 4
        invariant 0 <= j <= 4 && foundMatch
        invariant forall k :: 0 <= k < j ==> pattern[k] == node.adj[k].Some?
      {
        if pattern[j] != node.adj[j].Some? {
          foundMatch := false;
          break;
        }
        j := j + 1;
      }
      if foundMatch {
        assert pattern == Presence(node);
        NodeSymbolOfMatch(node, symbol);
        return Glyph(symbol);
      }
      assert pattern != Presence(node) by {
        assert pattern[j] != Presence(node)[j];
      }
      i := i + 1;
    }
    SymbolForNoMatch(ConditionOrder, Presence(node));
    return '#';
  }

  /** The eleven conditions are pairwise distinct, so at most one symbol matches a vertex. */
  lemma ConditionsDistinct(s: LayoutSymbol, t: LayoutSymbol)
    ensures Conditions(s) == Conditions(t) ==> s == t
  {
    if Conditions(s) == Conditions(t) {
      var p := Conditions(s);
      assert p[0] == Conditions(t)[0] && p[1] == Conditions(t)[1];
      assert p[2] == Conditions(t)[2] && p[3] == Conditions(t)[3];
    }
  }

  /** Each symbol has its own character in `symbolsMap`. */
  lemma GlyphsDistinct(s: LayoutSymbol, t: LayoutSymbol)
    ensures Glyph(s) == Glyph(t) ==> s == t
  {
  }

  /** Whatever the table order, the glyph picked is that of the one symbol whose conditions match. */
  lemma NodeSymbolOfMatch(v: Vertex, s: LayoutSymbol)
    requires Conditions(s) == Presence(v)
    ensures NodeSymbol(v) == Glyph(s)
  {
    SymbolForMatch(ConditionOrder, Presence(v), s);
  }

  lemma {:induction false} SymbolForMatch(symbols: seq<LayoutSymbol>, p: seq<bool>, s: LayoutSymbol)
    requires s in symbols && Conditions(s) == p
    ensures SymbolFor(symbols, p) == Glyph(s)
    decreases |symbols|
  {
    if Conditions(symbols[0]) == p {
      ConditionsDistinct(symbols[0], s);
    } else {
      SymbolForMatch(symbols[1..], p, s);
    }
  }

  lemma {:induction false} SymbolForNoMatch(symbols: seq<LayoutSymbol>, p: seq<bool>)
    requires forall s :: s in symbols ==> Conditions(s) != p
    ensures SymbolFor(symbols, p) == '#'
    decreases |symbols|
  {
    if symbols != [] {
      SymbolForNoMatch(symbols[1..], p);
    }
  }

  /**
   * The table holds exactly the vectors with two or more slots set, so a vertex gets
   * `'#'` exactly when it has at most one neighbour.
   */
  lemma HashExactlyForDegreeAtMostOne(v: Vertex)
    ensures NodeSymbol(v) == '#' <==> Degree(v) <= 1
  {
    var p := Presence(v);
    if Degree(v) <= 1 {
      forall s | s in ConditionOrder ensures Conditions(s) != p {
      }
      SymbolForNoMatch(ConditionOrder, p);
    } else {
      var s := MatchingSymbol(v);
      NodeSymbolOfMatch(v, s);
    }
  }

  /** A symbol whose conditions are the slots of a vertex with two or more neighbours. */
  lemma MatchingSymbol(v: Vertex) returns (s: LayoutSymbol)
    requires Degree(v) >= 2
    ensures Conditions(s) == Presence(v) && Glyph(s) != '#'
  {
    var u, l, d, r := v.adj[0].Some?, v.adj[1].Some?, v.adj[2].Some?, v.adj[3].Some?;
    s :=
      if u && l && d && r then CornerNSEW
      else if u && l && d then CornerNSW
      else if u && l && r then CornerNWE
      else if u && d && r then CornerNSE
      else if l && d && r then CornerSWE
      else if u && l then CornerNW
      else if u && d then StraightV
      else if u && r then CornerNE
      else if l && d then CornerSW
      else if l && r then StraightH
      else CornerSE;
  }

  function Min(a: int, b: int): int { if a <= b then a else b }
  function Max(a: int, b: int): int { if a <= b then b else a }

  /** The connector `DrawConnectingLine` uses for an edge in direction `d`. */
  function LineGlyph(d: Direction): char {
    if IsVertical(d) then Glyph(StraightV) else Glyph(StraightH)
  }

  /**
   * The cells `DrawConnectingLine(d, from, to)` writes: for a vertical edge, column
   * `2 * from.X` on the rows strictly between the two ends; for a horizontal edge, row
   * `from.Y` from column `min(X) + 1` (not doubled) up to column `2 * max(X) - 1`.
   */
  predicate OnLine(d: Direction, from: Vertex, to: Vertex, r: int, c: int) {
    if IsVertical(d) then c == 2 * from.x && Min(from.y, to.y) < r < Max(from.y, to.y)
    else r == from.y && Min(from.x, to.x) + 1 <= c < 2 * Max(from.x, to.x)
  }

  /**
   * Because the lower column bound is not doubled, the line from (2, 0) to (4, 0)
   * starts at column 3, left of column 4 where its left end (2, 0) is drawn, while
   * the same line from (0, 0) to (2, 0) starts just right of its left end.
   */
  lemma HorizontalLineOverhang()
    ensures OnLine(Right, Vertex(2, 0, NoNeighbours), Vertex(4, 0, NoNeighbours), 0, 3)
    ensures !OnLine(Right, Vertex(0, 0, NoNeighbours), Vertex(2, 0, NoNeighbours), 0, 0)
    ensures OnLine(Right, Vertex(0, 0, NoNeighbours), Vertex(2, 0, NoNeighbours), 0, 1)
  {
  }

  /** Cell `(r, c)` is on the line drawn for slot `e` of `u`. */
  predicate LineCovers(g: seq<Vertex>, u: nat, e: Direction, r: int, c: int)
    requires WellFormed(g) && u < |g|
  {
    Slot(g, u, e).Some? && OnLine(e, g[u], g[Slot(g, u, e).value], r, c)
  }

  /** The vertices reachable from `root`: the ones both passes visit. */
  ghost function ReachableSet(g: seq<Vertex>, root: nat): (R: set<nat>)
    requires WellFormed(g)
    ensures forall v: nat :: v in R <==> v < |g| && Reachable(g, root, v)
  {
    set v: nat | v < |g| && Reachable(g, root, v)
  }

  lemma ReachableSetClosed(g: seq<Vertex>, root: nat)
    requires WellFormed(g) && root < |g|
    ensures Closed(g, ReachableSet(g, root)) && root in ReachableSet(g, root)
  {
    ReachableFromItself(g, root);
    forall v: nat, e | v in ReachableSet(g, root) && Slot(g, v, e).Some?
      ensures Slot(g, v, e).value in ReachableSet(g, root)
    {
      ReachableStep(g, root, v, e);
    }
  }

  /** `ch` is the connector of some line of a vertex of `R` through cell `(r, c)`. */
  ghost predicate LinePainted(g: seq<Vertex>, R: set<nat>, ch: char, r: int, c: int)
    requires WellFormed(g)
  {
    exists u: nat, e :: u in R && u < |g| && LineCovers(g, u, e, r, c) && ch == LineGlyph(e)
  }

  /** Cell `(r, c)` belongs to a vertex of `R`. */
  ghost predicate VertexCell(g: seq<Vertex>, R: set<nat>, r: int, c: int)
    requires WellFormed(g)
  {
    exists u: nat :: u in R && u < |g| && g[u].y == r && 2 * g[u].x == c
  }

  /** `ch` is the junction glyph of some vertex of `R` whose cell is `(r, c)`. */
  ghost predicate VertexPainted(g: seq<Vertex>, R: set<nat>, ch: char, r: int, c: int)
    requires WellFormed(g)
  {
    exists u: nat :: u in R && u < |g| && g[u].y == r && 2 * g[u].x == c && ch == NodeSymbol(g[u])
  }

  /** Some line of a vertex of `R` passes through cell `(r, c)`. */
  ghost predicate LineCell(g: seq<Vertex>, R: set<nat>, r: int, c: int)
    requires WellFormed(g)
  {
    exists u: nat, e :: u in R && u < |g| && LineCovers(g, u, e, r, c)
  }

  /**
   * The rendered content `ch` of cell `(r, c)` when `R` is drawn: a vertex cell holds
   * the junction glyph of a vertex there; any other cell on a line holds the connector
   * of a line through it; every other cell is blank.
   */
  ghost predicate Rendered(g: seq<Vertex>, R: set<nat>, ch: char, r: int, c: int)
    requires WellFormed(g)
  {
    (VertexCell(g, R, r, c) ==> VertexPainted(g, R, ch, r, c)) &&
    (!VertexCell(g, R, r, c) && LineCell(g, R, r, c) ==> LinePainted(g, R, ch, r, c)) &&
    (!VertexCell(g, R, r, c) && !LineCell(g, R, r, c) ==> ch == ' ')
  }

  /** No two vertices of `R` share a position. */
  ghost predicate UniquePositions(g: seq<Vertex>, R: set<nat>)
    requires WellFormed(g)
  {
    forall u: nat, v: nat ::
      (u in R && v in R && u < |g| && v < |g| && g[u].x == g[v].x && g[u].y == g[v].y) ==> u == v
  }

  /** With unique positions, each drawn vertex's cell holds that vertex's own junction glyph. */
  lemma JunctionGlyph(g: seq<Vertex>, R: set<nat>, u: nat, ch: char)
    requires WellFormed(g) && u in R && u < |g| && UniquePositions(g, R)
    requires Rendered(g, R, ch, g[u].y, 2 * g[u].x)
    ensures ch == NodeSymbol(g[u])
  {
    assert VertexCell(g, R, g[u].y, 2 * g[u].x);
    var w: nat :| w in R && w < |g| && g[w].y == g[u].y && 2 * g[w].x == 2 * g[u].x && ch == NodeSymbol(g[w]);
    assert w == u;
  }

  /** The canvas, allocated by the constructor and then drawn on in place. */
  class Printer {
    const areaMatrix: array2<char>

    predicate InCanvas(r: int, c: int) {
      0 <= r < areaMatrix.Length0 && 0 <= c < areaMatrix.Length1
    }

    /** Every vertex of `R` has its own cell on the canvas, which the source never checks. */
    ghost predicate Fits(g: seq<Vertex>, R: set<nat>)
      requires WellFormed(g)
    {
      forall v :: v in R ==> v < |g| && InCanvas(g[v].y, 2 * g[v].x)
    }

    /**
     * `new LayoutPrinter(descriptor)`: allocate `AreaHeight` rows of `2 * AreaWidth - 1`
     * columns, blank them, draw the lines, then the junctions, from the root vertex.
     */
    constructor (g: seq<Vertex>, descriptor: Procedural.LayoutDescriptor)
      requires WellFormed(g) && descriptor.rootVertexNode < |g|
      requires descriptor.areaHeight >= 0 && descriptor.areaWidth >= 1
      requires forall v: nat :: v < |g| && Reachable(g, descriptor.rootVertexNode, v) ==>
                 0 <= g[v].x < descriptor.areaWidth && 0 <= g[v].y < descriptor.areaHeight
      ensures areaMatrix.Length0 == descriptor.areaHeight && areaMatrix.Length1 == 2 * descriptor.areaWidth - 1
      ensures forall r, c :: InCanvas(r, c) ==>
        Rendered(g, ReachableSet(g, descriptor.rootVertexNode), areaMatrix[r, c], r, c)
    {
      var root := descriptor.rootVertexNode;
      areaMatrix := new char[descriptor.areaHeight, descriptor.areaWidth * 2 - 1];
      new;
      ghost var R := ReachableSet(g, root);
      ReachableSetClosed(g, root);
      InitMatrix();
      label Blank:
      var visitedSet := DrawLines(g, R, {}, root);
      label Lines:
      VisitedCoversClosure(g, R, root, visitedSet);
      visitedSet := DrawIntersections(g, R, {}, root);
      VisitedCoversClosure(g, R, root, visitedSet);
      forall r, c | InCanvas(r, c) ensures Rendered(g, R, areaMatrix[r, c], r, c) {
        if VertexCell(g, R, r, c) {
          var u: nat :| u in R && u < |g| && g[u].y == r && 2 * g[u].x == c;
          assert u in visitedSet;
        } else {
          assert !VertexPainted(g, R, areaMatrix[r, c], r, c);
          assert areaMatrix[r, c] == old@Lines(areaMatrix[r, c]);
          if LineCell(g, R, r, c) {
            var u: nat, e :| u in R && u < |g| && LineCovers(g, u, e, r, c);
            assert LinePainted(g, R, old@Lines(areaMatrix[r, c]), r, c);
          } else {
            assert !LinePainted(g, R, old@Lines(areaMatrix[r, c]), r, c);
            assert old@Lines(areaMatrix[r, c]) == old@Blank(areaMatrix[r, c]);
          }
        }
      }
    }

    /**
     * A set holding the root and closed under neighbours, inside the reachable set,
     * holds all of it.
     */
    lemma VisitedCoversClosure(g: seq<Vertex>, R: set<nat>, root: nat, visited: set<nat>)
      requires WellFormed(g) && root in visited && visited <= Range(|g|)
      requires R == ReachableSet(g, root)
      requires forall u :: u in visited ==> NeighboursIn(g, u, visited)
      ensures R <= visited
    {
      assert Closed(g, visited);
    }

    /** `InitMatrix`: every cell becomes a space. */
    method InitMatrix()
      modifies areaMatrix
      ensures forall r, c :: InCanvas(r, c) ==> areaMatrix[r, c] == ' '
    {
      var i := 0;
      while i < areaMatrix.Length0
        invariant 0 <= i <= areaMatrix.Length0
        invariant forall r, c :: 0 <= r < i && 0 <= c < areaMatrix.Length1 ==> areaMatrix[r, c] == ' '
      {
        var j := 0;
        while j < areaMatrix.Length1
          invariant 0 <= j <= areaMatrix.Length1
          invariant forall r, c :: 0 <= r < i && 0 <= c < areaMatrix.Length1 ==> areaMatrix[r, c] == ' '
          invariant forall c :: 0 <= c < j ==> areaMatrix[i, c] == ' '
        {
          areaMatrix[i, j] := ' ';
          j := j + 1;
        }
        i := i + 1;
      }
    }

    /** `WriteCharacter(x, y, c)`: cell `[y, 2 * x]` becomes `ch`, no other cell changes. */
    method WriteCharacter(x: int, y: int, ch: char)
      requires InCanvas(y, 2 * x)
      modifies areaMatrix
      ensures areaMatrix[y, 2 * x] == ch
      ensures forall r, c :: InCanvas(r, c) && (r, c) != (y, 2 * x) ==> areaMatrix[r, c] == old(areaMatrix[r, c])
    {
      areaMatrix[y, x * 2] := ch;
    }

    /**
     * `PrintAreaMatrix`, with the console replaced by the returned rows: row `i` holds
     * the cells of canvas row `i` in column order.
     */
    method AreaRows() returns (rows: seq<seq<char>>)
      ensures |rows| == areaMatrix.Length0
      ensures forall i :: 0 <= i < |rows| ==> |rows[i]| == areaMatrix.Length1
      ensures forall i, j :: 0 <= i < |rows| && 0 <= j < areaMatrix.Length1 ==> rows[i][j] == areaMatrix[i, j]
    {
      rows := [];
      var i := 0;
      while i < areaMatrix.Length0
        invariant 0 <= i <= areaMatrix.Length0 && |rows| == i
        invariant forall k :: 0 <= k < i ==> |rows[k]| == areaMatrix.Length1
        invariant forall k, j :: 0 <= k < i && 0 <= j < areaMatrix.Length1 ==> rows[k][j] == areaMatrix[k, j]
      {
        var line := [];
        var j := 0;
        while j < areaMatrix.Length1
          invariant 0 <= j <= areaMatrix.Length1 && |line| == j
          invariant forall k :: 0 <= k < j ==> line[k] == areaMatrix[i, k]
        {
          line := line + [areaMatrix[i, j]];
          j := j + 1;
        }
        rows := rows + [line];
        i := i + 1;
      }
    }

    /**
     * `DrawConnectingLine(direction, from, to)`: write the connector on the cells of
     * `OnLine(d, from, to, _, _)` and nowhere else.
     */
    method DrawConnectingLine(d: Direction, from: Vertex, to: Vertex)
      requires InCanvas(from.y, 2 * from.x) && InCanvas(to.y, 2 * to.x)
      modifies areaMatrix
      ensures forall r, c :: InCanvas(r, c) ==>
        areaMatrix[r, c] == if OnLine(d, from, to, r, c) then LineGlyph(d) else old(areaMatrix[r, c])
    {
      var connector := if IsVertical(d) then Glyph(StraightV) else Glyph(StraightH);
      if IsVertical(d) {
        var lowerY := Min(from.y, to.y) + 1;
        var upperY := Max(from.y, to.y);
        var i := lowerY;
        while i < upperY
          invariant lowerY <= i && (i == lowerY || i <= upperY)
          invariant forall r, c :: InCanvas(r, c) ==>
            areaMatrix[r, c] == if c == 2 * from.x && lowerY <= r < i then connector else old(areaMatrix[r, c])
        {
          WriteCharacter(from.x, i, connector);
          i := i + 1;
        }
      } else {
        var lowerX := Min(from.x, to.x) + 1;
        var upperX := Max(from.x, to.x) * 2;
        var i := lowerX;
        while i < upperX
          invariant lowerX <= i && (i == lowerX || i <= upperX)
          invariant forall r, c :: InCanvas(r, c) ==>
            areaMatrix[r, c] == if r == from.y && lowerX <= c < i then connector else old(areaMatrix[r, c])
        {
          areaMatrix[from.y, i] := connector;
          i := i + 1;
        }
      }
    }

    /**
     * `DrawLines(visited, currentNode)`: nothing for a visited vertex; otherwise mark it
     * and, for each set slot Up, Left, Down, Right, draw the connecting line and recurse.
     * Only connectors of lines of `R` are written, and every line of a newly visited
     * vertex ends painted with a connector of a line through each of its cells.
     */
    method DrawLines(g: seq<Vertex>, ghost R: set<nat>, visited: set<nat>, current: nat) returns (visited': set<nat>)
      requires WellFormed(g) && current < |g| && visited <= Range(|g|)
      requires current in R && Closed(g, R) && Fits(g, R)
      modifies areaMatrix
      ensures visited <= visited' <= Range(|g|) && current in visited'
      ensures current in visited ==> visited' == visited
      ensures forall u :: u in visited' - visited ==> u in R && NeighboursIn(g, u, visited')
      ensures forall r, c :: InCanvas(r, c) ==>
        areaMatrix[r, c] == old(areaMatrix[r, c]) || LinePainted(g, R, areaMatrix[r, c], r, c)
      ensures forall u, e, r, c :: u in visited' - visited && LineCovers(g, u, e, r, c) ==>
        InCanvas(r, c) && LinePainted(g, R, areaMatrix[r, c], r, c)
      decreases Range(|g|) - visited
    {
      if current in visited {
        return visited;
      }
      visited' := visited + {current};
      var i := 0;
      while i < 4
        invariant 0 <= i <= 4
        invariant visited + {current} <= visited' <= Range(|g|)
        invariant forall u :: u in visited' - visited ==> u in R
        invariant forall k :: 0 <= k < i && g[current].adj[k].Some? ==> g[current].adj[k].value in visited'
        invariant forall u :: u in visited' - visited && u != current ==> NeighboursIn(g, u, visited')
        invariant forall r, c :: InCanvas(r, c) ==>
          areaMatrix[r, c] == old(areaMatrix[r, c]) || LinePainted(g, R, areaMatrix[r, c], r, c)
        invariant forall u, e, r, c :: u in visited' - visited && u != current && LineCovers(g, u, e, r, c) ==>
          InCanvas(r, c) && LinePainted(g, R, areaMatrix[r, c], r, c)
        invariant forall e, r, c :: Index(e) < i && LineCovers(g, current, e, r, c) ==>
          InCanvas(r, c) && LinePainted(g, R, areaMatrix[r, c], r, c)
      {
        var node := g[current].adj[i];
        if node.Some? {
          var direction := FromIndex(i);
          assert node == Slot(g, current, direction);
          DrawConnectingLine(direction, g[current], g[node.value]);
          forall r, c | LineCovers(g, current, direction, r, c)
            ensures InCanvas(r, c) && LinePainted(g, R, areaMatrix[r, c], r, c)
          {
          }
          var next := DrawLines(g, R, visited', node.value);
          forall u | u in visited' - visited && u != current ensures NeighboursIn(g, u, next) {
            NeighboursInGrows(g, u, visited', next);
          }
          visited' := next;
        }
        i := i + 1;
      }
      forall e | Slot(g, current, e).Some? ensures Slot(g, current, e).value in visited' {
        assert g[current].adj[Index(e)] == Slot(g, current, e);
      }
    }

    /**
     * `DrawIntersections(visited, currentNode)`: nothing for a visited vertex; otherwise
     * mark it, write its junction glyph on its cell and recurse into each set slot.
     * Only junction glyphs of vertices of `R` are written, and the cell of every newly
     * visited vertex ends holding the glyph of a vertex there.
     */
    method DrawIntersections(g: seq<Vertex>, ghost R: set<nat>, visited: set<nat>, current: nat) returns (visited': set<nat>)
      requires WellFormed(g) && current < |g| && visited <= Range(|g|)
      requires current in R && Closed(g, R) && Fits(g, R)
      modifies areaMatrix
      ensures visited <= visited' <= Range(|g|) && current in visited'
      ensures current in visited ==> visited' == visited
      ensures forall u :: u in visited' - visited ==> u in R && NeighboursIn(g, u, visited')
      ensures forall r, c :: InCanvas(r, c) ==>
        areaMatrix[r, c] == old(areaMatrix[r, c]) || VertexPainted(g, R, areaMatrix[r, c], r, c)
      ensures forall u :: u in visited' - visited ==>
        InCanvas(g[u].y, 2 * g[u].x) && VertexPainted(g, R, areaMatrix[g[u].y, 2 * g[u].x], g[u].y, 2 * g[u].x)
      decreases Range(|g|) - visited
    {
      if current in visited {
        return visited;
      }
      visited' := visited + {current};
      var symbol := GetNodeSymbol(g[current]);
      WriteCharacter(g[current].x, g[current].y, symbol);
      var i := 0;
      while i < 4
        invariant 0 <= i <= 4
        invariant visited + {current} <= visited' <= Range(|g|)
        invariant forall u :: u in visited' - visited ==> u in R
        invariant forall k :: 0 <= k < i && g[current].adj[k].Some? ==> g[current].adj[k].value in visited'
        invariant forall u :: u in visited' - visited && u != current ==> NeighboursIn(g, u, visited')
        invariant forall r, c :: InCanvas(r, c) ==>
          areaMatrix[r, c] == old(areaMatrix[r, c]) || VertexPainted(g, R, areaMatrix[r, c], r, c)
        invariant forall u :: u in visited' - visited ==>
          InCanvas(g[u].y, 2 * g[u].x) && VertexPainted(g, R, areaMatrix[g[u].y, 2 * g[u].x], g[u].y, 2 * g[u].x)
      {
        var node := g[current].adj[i];
        if node.Some? {
          assert node == Slot(g, current, FromIndex(i));
          var next := DrawIntersections(g, R, visited', node.value);
          forall u | u in visited' - visited && u != current ensures NeighboursIn(g, u, next) {
            NeighboursInGrows(g, u, visited', next);
          }
          visited' := next;
        }
        i := i + 1;
      }
      forall e | Slot(g, current, e).Some? ensures Slot(g, current, e).value in visited' {
        assert g[current].adj[Index(e)] == Slot(g, current, e);
      }
    }
  }

  /** The square with corners (0, 0), (2, 0), (2, 2), (0, 2), as the rectangle builder links it. */
  function Square(): seq<Vertex> {
    RectangleGraph(0, 0, 3, 3)
  }

  /** What the renderer draws for that square on a 3 by 3 area. */
  const SquareRows: seq<seq<char>> := ["┌───┐", "│   │", "└───┘"]

  lemma SquareReachable()
    ensures WellFormed(Square()) && ReachableSet(Square(), 0) == {0, 1, 2, 3}
  {
    var g := Square();
    RectangleWellFormed(0, 0, 3, 3);
    ReachableFromItself(g, 0);
    ReachableStep(g, 0, 0, Right);
    ReachableStep(g, 0, 1, Down);
    ReachableStep(g, 0, 2, Left);
  }

  /** The lines of the square: its two horizontal sides and the middle row of its vertical sides. */
  lemma SquareLine(u: nat, e: Direction, r: int, c: int)
    requires WellFormed(Square()) && u < 4 && LineCovers(Square(), u, e, r, c)
    ensures IsVertical(e) ==> r == 1 && (c == 0 || c == 4)
    ensures !IsVertical(e) ==> (r == 0 || r == 2) && 1 <= c <= 3
  {
    assert u == 0 || u == 1 || u == 2 || u == 3;
  }

  /** The corner cells hold the corner glyphs: the four corners are the only vertices there. */
  lemma SquareCorner(ch: char, u: nat)
    requires WellFormed(Square()) && u < 4
    requires VertexPainted(Square(), {0, 1, 2, 3}, ch, Square()[u].y, 2 * Square()[u].x)
    ensures ch == ['┌', '┐', '┘', '└'][u]
  {
    var g, R := Square(), {0, 1, 2, 3};
    var w: nat :| w in R && w < |g| && g[w].y == g[u].y && 2 * g[w].x == 2 * g[u].x && ch == NodeSymbol(g[w]);
    assert w == u;
    SquareSymbols();
  }

  /** The junction glyphs of the square's corners, in vertex order. */
  lemma SquareSymbols()
    ensures NodeSymbol(Square()[0]) == '┌' && NodeSymbol(Square()[1]) == '┐'
    ensures NodeSymbol(Square()[2]) == '┘' && NodeSymbol(Square()[3]) == '└'
  {
    var g := Square();
    NodeSymbolOfMatch(g[0], CornerSE);
    NodeSymbolOfMatch(g[1], CornerSW);
    NodeSymbolOfMatch(g[2], CornerNW);
    NodeSymbolOfMatch(g[3], CornerNE);
  }

  /** The cells between two corners hold the side's connector. */
  lemma SquareSide(ch: char, r: int, c: int)
    requires WellFormed(Square())
    requires ((r == 0 || r == 2) && 1 <= c <= 3) || (r == 1 && (c == 0 || c == 4))
    requires LinePainted(Square(), {0, 1, 2, 3}, ch, r, c)
    ensures ch == if r == 1 then '│' else '─'
  {
    var u: nat, e :| u in {0, 1, 2, 3} && u < |Square()| && LineCovers(Square(), u, e, r, c) && ch == LineGlyph(e);
    SquareLine(u, e, r, c);
    assert IsVertical(e) <==> r == 1;
  }

  /** The inside of the square stays blank. */
  lemma SquareInside(ch: char, c: int)
    requires WellFormed(Square()) && 1 <= c <= 3
    requires Rendered(Square(), {0, 1, 2, 3}, ch, 1, c)
    ensures ch == ' '
  {
    var g, R := Square(), {0, 1, 2, 3};
    assert !VertexCell(g, R, 1, c);
    forall u: nat, e | u in R && LineCovers(g, u, e, 1, c) ensures false {
      SquareLine(u, e, 1, c);
    }
  }

  /** Every cell the renderer can leave on the square's canvas is the one in `SquareRows`. */
  lemma SquareCell(ch: char, r: int, c: int)
    requires 0 <= r < 3 && 0 <= c < 5
    requires WellFormed(Square()) && Rendered(Square(), {0, 1, 2, 3}, ch, r, c)
    ensures ch == SquareRows[r][c]
  {
    if (r == 0 || r == 2) && (c == 0 || c == 4) {
      var u: nat := if r == 0 then (if c == 0 then 0 else 1) else (if c == 0 then 3 else 2);
      assert VertexCell(Square(), {0, 1, 2, 3}, r, c) by {
        assert Square()[u].y == r && 2 * Square()[u].x == c;
      }
      SquareCorner(ch, u);
    } else if r == 1 && 1 <= c <= 3 {
      SquareInside(ch, c);
    } else {
      var g, R := Square(), {0, 1, 2, 3};
      assert !VertexCell(g, R, r, c);
      var u: nat, e := if r == 0 then 0 else if r == 2 then 3 else if c == 0 then 0 else 1,
                       if r == 1 then Down else Right;
      assert LineCovers(g, u, e, r, c);
      SquareSide(ch, r, c);
    }
  }

  /**
   * The square built by the procedural rectangle builder from a lone vertex at (0, 0),
   * drawn on a 3 by 3 area from that vertex, renders as `SquareRows`.
   */
  method SquareExample() returns (rows: seq<seq<char>>)
    ensures rows == SquareRows
  {
    var graph := new Graph();
    var root := graph.NewNode(0, 0);
    var topRight, bottomRight, bottomLeft := Procedural.AddRectangle(graph, 1, root, 3, 3);
    assert graph.nodes == Square();
    SquareReachable();
    var printer := new Printer(graph.nodes, Procedural.LayoutDescriptor(root, 3, 3));
    rows := printer.AreaRows();
    forall r, c | 0 <= r < 3 && 0 <= c < 5 ensures rows[r][c] == SquareRows[r][c] {
      SquareCell(rows[r][c], r, c);
    }
    assert rows[0] == SquareRows[0] && rows[1] == SquareRows[1] && rows[2] == SquareRows[2];
  }
}
