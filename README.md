# Procedural grid layouts in Dafny

This project models the core of Procedural, a small C# program that builds planar
grid graphs and draws them with box-drawing characters. It has three parts.

- **The `Grid` engine** (`src/GridNodeUtils.cs`, `src/GridNode.cs`). A `GridNode`
  has fixed integer coordinates `X`, `Y` and four neighbour slots, indexed by
  `Direction` (Up = 0, Left = 1, Down = 2, Right = 3).
  - `ConnectAdjascentNode` links two vertices both ways.
  - `InsertNode` does one of three things:
    - puts a new vertex into an empty slot, then splices it onto any edge it lands
      on and adds crossing vertices where the new edge crosses perpendicular edges;
    - walks on past the existing neighbour;
    - splices the new vertex between the root and that neighbour.
  - `AddRectangle` issues the four inserts of a rectangle.
- **The older `Procedural` engine** (`VertexNode` in `src/Procedural.cs`). It has the
  same connect primitive and a visited-guarded depth-first collector,
  `CollectVertexNodes`. Its `InsertNode` differs: for an empty slot it gathers the
  vertices on the new vertex's axis line and, when there are two or more, first
  inserts the new vertex from one of them. The file also holds `LayoutDescriptor`
  and `LayoutGenerator.AddRectangle`.
- **The renderer** (`src/LayoutPrinter.cs`). It allocates a character canvas of
  `AreaHeight` rows by `2 * AreaWidth - 1` columns and blanks it. It then draws a line
  for every edge reachable from the root. Finally it writes each reachable vertex's
  junction glyph on cell `[Y, 2 * X]`, picked by matching the vertex's four slots
  against an eleven-entry table.

Vertices live in an arena. A graph is a `seq<Vertex>` held by the class
`Nodes.Graph`, and a neighbour is the index of a vertex in that sequence. `GridNode`
and `VertexNode` have the same shape, so both engines share one `Vertex` type. Their
direction and axis helpers are identical and are modelled once, in `Directions`.
The primitives that change one graph (`NewNode`, `SetAdjacent`,
`ConnectAdjacentNode`) are methods of the class `Graph`. Both `InsertNode`s and both
`AddRectangle`s are module-level methods that take the `Graph` and modify it. Each
states its new graph through the specification functions `Connected` (the two slot
writes of a connection), `Spliced` (a vertex put between two neighbours) and
`SetSlot`. The landing search is stated against `Nodes.Preorder`, the depth-first
pre-order walk from a root. The `Grid` engine's insert along an occupied line is
stated against `GridNodeUtils.Walk`, the sequence of neighbours it passes until it
finds an empty slot or an edge to splice into. The renderer is a class over an `array2<char>` canvas.

Behaviour worth noting:

- The five slot patterns missing from the junction table are exactly the vertices
  with at most one neighbour, and `'#'` is drawn exactly for those
  (`LayoutPrinter.HashExactlyForDegreeAtMostOne`).
- For a vertical new line crossing a horizontal edge, the `Grid` engine creates the
  crossing vertex at `(v.Y, insertNode.X)`, with the coordinates swapped. The model
  keeps this (`GridNodeUtils.HorizontalEdgeCrossingSwapped`).
- A horizontal line is drawn from column `min(X) + 1`, which is not doubled. The
  model keeps this (`LayoutPrinter.HorizontalLineOverhang`).
- In `Procedural.InsertNode` the axis list is filtered and sorted on the same
  coordinate, so `axisList[0]` can be any element of it. The model chooses that
  element with `:|`.

## Model

| member | source | states |
|---|---|---|
| Directions.InvertAxis | src/GridNodeUtils.cs:12-15 | the inverted axis is the other axis |
| Directions.InvertAxisInvolution | src/GridNodeUtils.cs:12-15 | inverting an axis twice gives it back |
| Directions.Index | src/GridNodeUtils.cs:18-24 | a direction's byte value is a slot index below 4 |
| Directions.FromIndex | src/GridNodeUtils.cs:18-24 | casting a byte below 4 to a direction and back gives the byte |
| Directions.AllDirectionsIndexed | src/GridNodeUtils.cs:199 | the enumeration order Up, Left, Down, Right lists each direction at its own slot index |
| Directions.IsVertical | src/GridNodeUtils.cs:28-31 | Up and Down, the even byte values, are the vertical directions |
| Directions.GetAxis | src/GridNodeUtils.cs:33-36 | the axis is Y for the even byte values (Up, Down) and X for the odd ones |
| Directions.InvertDirection | src/GridNodeUtils.cs:38-46 | `(d + 2) % 4` is a different direction on the same axis |
| Directions.InvertDirectionInvolution | src/GridNodeUtils.cs:38-46 | inverting a direction twice gives it back |
| Nodes.SetSlot | src/Procedural.cs:127 | writing one slot sets exactly that slot and keeps every other slot and all coordinates |
| Nodes.Connected | src/GridNodeUtils.cs:70-85 | a connection makes `ConnectionExists` hold, touches only `n[d]` and `o[invert d]`, and keeps coordinates and the arena's size |
| Nodes.ConnectionExistsMirrored | src/GridNodeUtils.cs:81-85 | a connection from `a` to `b` in direction `d` is the same as one from `b` to `a` in the opposite direction |
| Nodes.ConnectedIdempotent | src/GridNodeUtils.cs:70-79 | connecting twice equals connecting once |
| Nodes.ConnectedKeepsSymmetry | src/GridNodeUtils.cs:70-79 | connecting two distinct vertices through two empty slots keeps every link mirrored |
| Nodes.OverwrittenThenConnected | src/Procedural.cs:127-128 | writing `root[d]` just before connecting `root` to the same vertex changes nothing in the result |
| Nodes.Spliced | src/GridNodeUtils.cs:143-147 | a splice keeps the arena well formed, its size and all coordinates |
| Nodes.SplicedShape | src/GridNodeUtils.cs:143-147 | after a splice: `root[d] = new`, `new[inv d] = root`, `new[d] = existing`, `existing[inv d] = new`, and no other slot changes |
| Nodes.SplicedKeepsSymmetry | src/GridNodeUtils.cs:143-147 | splicing a fresh vertex into a mirrored link keeps every link mirrored |
| Nodes.ReachableStep | src/Procedural.cs:167-170 | the neighbour of a reachable vertex is reachable |
| Nodes.ReachableTransitive | src/Procedural.cs:167-170 | reachability composes |
| Nodes.ReachableWithin | src/Procedural.cs:144-171 | every vertex reachable from the root lies in any neighbour-closed set that holds the root |
| Nodes.SearchCoversReachable | src/Procedural.cs:144-171 | a visited set that holds the root and the neighbours of all its vertices holds every vertex reachable from the root |
| Nodes.IsolatedReachesItself | src/Procedural.cs:144-171 | a vertex with four empty slots reaches only itself |
| Nodes.IsConnected | src/GridNodeUtils.cs:125-135 | true exactly when some slot of `root` names `node` |
| Nodes.WithNewNode | src/GridNode.cs:9-14 | the arena with one more vertex, at the given coordinates and with four empty slots, every other vertex kept |
| Nodes.Graph.NewNode | src/GridNode.cs:9-14 | appends a vertex with the given coordinates and four empty slots, keeping every other vertex |
| Nodes.Graph.SetAdjacent | src/Procedural.cs:127 | the graph becomes `SetSlot` of the old one |
| Nodes.Graph.ConnectAdjacentNode | src/GridNodeUtils.cs:65-79 | the recursive connect ends with the graph `Connected(old, d, node, connecting)` |
| Rectangles.RectangleWellFormed | src/GridNodeUtils.cs:51-63 | the four-corner rectangle graph names only its own vertices |
| Rectangles.RectangleSymmetric | src/GridNodeUtils.cs:51-63 | every link of the rectangle is mirrored |
| Rectangles.RectangleClosure | src/GridNodeUtils.cs:51-63 | walking Right, Down, Left, Up from the root visits the three corners and returns to the root, and the corners have the stated coordinates |
| Rectangles.RectangleWalk | src/GridNodeUtils.cs:51-63 | the walk Right, Down, Left, Up from the root closes the loop |
| Rectangles.TopSideConnected | src/GridNodeUtils.cs:53-54 | connecting the root Right to the new top-right corner gives the top side |
| Rectangles.RightSideConnected | src/GridNodeUtils.cs:56-57 | connecting top-right Down to bottom-right gives the right side |
| Rectangles.BottomSideConnected | src/GridNodeUtils.cs:59-60 | connecting bottom-right Left to bottom-left gives the bottom side |
| Rectangles.LeftSideConnected | src/GridNodeUtils.cs:62 | connecting bottom-left Up to the root closes the rectangle |
| Rectangles.StageConnected | src/GridNodeUtils.cs:51-63 | stage `k` of the rectangle is the connection of corner `k` to corner `k + 1` |
| GridNodeUtils.GetSearchAxisValue | src/GridNodeUtils.cs:107-110 | the coordinate on X is the position measured Right (the negated position measured Left); on Y, measured Down (the negated one measured Up) |
| GridNodeUtils.GreaterThan | src/GridNodeUtils.cs:150-160 | `a` is greater than `b` along `d` exactly when `a` lies further in direction `d` |
| GridNodeUtils.LessThan | src/GridNodeUtils.cs:162-172 | `a` is less than `b` along `d` exactly when `a` lies less far in direction `d` |
| GridNodeUtils.OrderingAlongDirection | src/GridNodeUtils.cs:150-172 | `GreaterThan` and `LessThan` compare positions along `d`, are never both true, swap when the arguments swap, and are both false exactly on equal coordinates |
| GridNodeUtils.GetLineLength | src/GridNodeUtils.cs:327-335 | the length is non-negative, zero exactly on equal coordinates along the axis, the forward distance when the second vertex lies ahead and the backward distance when it lies behind |
| GridNodeUtils.NodeBetweenTwoNodes | src/GridNodeUtils.cs:300-311 | a vertex between two others is on an axis-aligned line through both and is neither of them |
| GridNodeUtils.NodeBetweenIsOnOpenSegment | src/GridNodeUtils.cs:300-311 | a vertex is between two others exactly when all three share `X` and its `Y` lies strictly between, or all share `Y` and its `X` lies strictly between |
| GridNodeUtils.NodeIntersectsLine | src/GridNodeUtils.cs:313-318 | when the test holds, the two ends differ on the axis and the vertex's coordinate on the axis is neither end's |
| GridNodeUtils.InBounds | src/GridNodeUtils.cs:256-273 | `v` is in bounds exactly when it lies behind `ins` along `d` by more than zero and less than the length |
| GridNodeUtils.InBoundsMeansBetween | src/GridNodeUtils.cs:256-273 | with the line length from `root`, the bounds switch says exactly that a vertex lies strictly between `root` and the inserted vertex |
| GridNodeUtils.InBoundsBehind | src/GridNodeUtils.cs:256-273 | when the inserted vertex lies behind `root`, the bounds test selects the stretch of the same length beyond `ins`, away from `root`, and never a vertex between the two |
| GridNodeUtils.InBoundsLevel | src/GridNodeUtils.cs:256-273 | when the inserted vertex is level with `root` along `d`, no vertex is in bounds |
| GridNodeUtils.FirstLandingAppend | src/GridNodeUtils.cs:213-225 | the first vertex with a landing edge in a walk made of two parts is the first one in the first part, else the first one in the second |
| GridNodeUtils.LandingSlot | src/GridNodeUtils.cs:199-210 | returns the first slot of `root`, in the order Up, Left, Down, Right, whose edge has the new vertex strictly inside; none only when no slot's edge has it |
| GridNodeUtils.FindInsertionPoint | src/GridNodeUtils.cs:192-228 | the vertex found is the first vertex of the depth-first pre-order walk from `root` (slots in the order Up, Left, Down, Right, visited vertices skipped) that has a landing edge, with its first landing slot; none only when no vertex of the walk has one, and then the visited set is the walk's; a found point names a vertex newly visited by the search and the first of its slots, in the order Up, Left, Down, Right, whose edge has the new vertex strictly inside, and every other newly visited vertex has no such edge; when nothing is found, no newly visited vertex has such an edge and the visited set is closed under neighbours, so from an empty set every vertex reachable from the root was checked |
| GridNodeUtils.FindIntersectionPoints | src/GridNodeUtils.cs:230-298 | keeps the earlier points; every appended point is a perpendicular edge of a newly visited vertex that the new line crosses, with its crossing coordinates; every such edge of a newly visited vertex gets a point; the visited set ends closed under neighbours |
| GridNodeUtils.VerticalEdgeCrossing | src/GridNodeUtils.cs:281-284 | for a vertical crossed edge, the point is on the new line's row, in the edge's column, strictly between the edge's ends |
| GridNodeUtils.HorizontalEdgeCrossingSwapped | src/GridNodeUtils.cs:277-280 | for a horizontal crossed edge, the point comes out as `(v.Y, insertNode.X)`, shown on an edge and a line that meet at (3, 5) but are recorded at (5, 3) |
| GridNodeUtils.Walk | src/GridNodeUtils.cs:87-105 | the walk along the line from `root` in direction `d` stops at an empty slot, or at the first neighbour the new vertex lies behind (the edge to splice into), or on the new vertex itself, a level neighbour or spent fuel; an empty slot or a splice edge it returns is really there |
| GridNodeUtils.WalkStaysBehind | src/GridNodeUtils.cs:137-141 | the vertex where the walk stops to connect or splice is reachable from where it started and is either that vertex or one the new vertex lies ahead of |
| GridNodeUtils.WalkOneStepThenSplice | src/GridNodeUtils.cs:137-147 | a new vertex beyond `root`'s neighbour `x` but before `x`'s next neighbour is spliced between `x` and that neighbour |
| GridNodeUtils.AfterWalk | src/GridNodeUtils.cs:87-148 | the graph the insert leaves where the walk's end fixes it (a splice, no change, or a connection into an empty slot when that connection is quiet) keeps the arena well formed, its size and every coordinate |
| GridNodeUtils.InsertNode | src/GridNodeUtils.cs:87-105 | follows the walk to any depth within the fuel: a splice into the first edge whose far end lies ahead of the new vertex; no change when `root[d]` or a later neighbour is already the new vertex, is level with it, or the fuel runs out; a plain connection into the empty slot at the end of the line when the new vertex then lands on no edge and the new line crosses none |
| GridNodeUtils.InsertWithExistingNode | src/GridNodeUtils.cs:137-148 | no change on equal coordinates; a splice between `root` and the existing neighbour when the new vertex is behind it; when it is ahead, the insert from the existing neighbour, with the outcome of the walk from there to any depth within the fuel |
| GridNodeUtils.ConnectNewNodeWithIntersectingLine | src/GridNodeUtils.cs:343-350 | no change when no vertex reachable from `root` has an edge with the new vertex inside; otherwise the new vertex is inserted from the first such vertex of the depth-first walk, in its first such direction: spliced into that edge when it lies behind the far end, no change when level with it |
| GridNodeUtils.ConnectLineIntersections | src/GridNodeUtils.cs:360-375 | no change when the new line crosses no edge of a vertex reachable from `root`; otherwise every perpendicular edge of a reachable vertex that the new line crosses gets a new vertex at its crossing point |
| GridNodeUtils.InsertCrossings | src/GridNodeUtils.cs:365-374 | no change for no recorded points; afterwards a new vertex sits at every recorded crossing point |
| GridNodeUtils.InsertCrossing | src/GridNodeUtils.cs:367-373 | a new vertex sits at the crossing point; when the walk along the crossed edge ends where its outcome is fixed (a splice, no change, a quiet connection), the result is the walk along the new line from `root` applied to that graph, to the same depth |
| GridNodeUtils.CrossingSplicedTwice | src/GridNodeUtils.cs:367-373 | when the crossing point lies before the crossed edge's far end and before `root`'s neighbour on the new line, the two walks are two splices: the crossing vertex goes into the crossed edge and then into the new line |
| GridNodeUtils.AddRectangle | src/GridNodeUtils.cs:51-63 | creates the corners `(X+w-1, Y)`, `(X+w-1, Y+h-1)`, `(X, Y+h-1)` after the existing vertices; from a lone root with `w, h >= 2` the graph becomes the closed rectangle |
| GridNodeUtils.AddCorner | src/GridNodeUtils.cs:53-60 | one corner is created at the given coordinates and inserted from the previous corner |
| GridNodeUtils.InsertSide | src/GridNodeUtils.cs:54 | one side's insert yields the next stage of the rectangle |
| GridNodeUtils.StageQuiet | src/GridNodeUtils.cs:51-63 | on each stage of the rectangle, the new side lands on no edge and crosses none |
| GridNodeUtils.TopSideStep | src/GridNodeUtils.cs:53-54 | the top-side insert is a plain connection |
| GridNodeUtils.RightSideStep | src/GridNodeUtils.cs:56-57 | the right-side insert is a plain connection |
| GridNodeUtils.BottomSideStep | src/GridNodeUtils.cs:59-60 | the bottom-side insert is a plain connection |
| GridNodeUtils.LeftSideStep | src/GridNodeUtils.cs:62 | the closing insert is a plain connection |
| Procedural.CollectFrom | src/Procedural.cs:144-171 | marks each vertex at most once; appends exactly the newly visited vertices that satisfy the predicate, without duplicates; every newly visited vertex is reachable from the start |
| Procedural.CollectVertexNodes | src/Procedural.cs:134-142 | a null root gives the empty list; otherwise the list has no duplicates and holds exactly the vertices reachable from the root that satisfy the predicate |
| Procedural.GetNodesAlongAxisLine | src/Procedural.cs:82-85 | the list holds, without duplicates, exactly the reachable vertices whose `X` (axis X) or `Y` (axis Y) equals the value |
| Procedural.InsertNode | src/Procedural.cs:93-131 | an empty slot always ends with the connection made, and with only that connection when no other axis-line insert applies; equal coordinates change nothing; a smaller coordinate splices the new vertex between `root` and the neighbour; a larger one inserts the neighbour from the new vertex instead |
| Procedural.AddRectangle | src/Procedural.cs:254-266 | adds three corners with the stated coordinates; from a lone root with `w, h >= 2` the graph becomes the closed rectangle |
| Procedural.AddCorner | src/Procedural.cs:256-263 | one corner is created at the given coordinates and inserted from the previous corner |
| Procedural.InsertSide | src/Procedural.cs:257 | one side's insert yields the next stage of the rectangle |
| Procedural.StageSkipped | src/Procedural.cs:254-266 | on each stage of the rectangle the slot is empty and no nested axis-line insert happens |
| Procedural.TopSideSkipped | src/Procedural.cs:256-257 | the top-side insert is a plain connection |
| Procedural.RightSideSkipped | src/Procedural.cs:259-260 | the right-side insert is a plain connection |
| Procedural.BottomSideSkipped | src/Procedural.cs:262-263 | the bottom-side insert is a plain connection |
| Procedural.LeftSideSkipped | src/Procedural.cs:265 | the closing insert is a plain connection |
| LayoutPrinter.Glyph | src/LayoutPrinter.cs:7-19 | every symbol's character is neither `'#'` nor blank |
| LayoutPrinter.GlyphsDistinct | src/LayoutPrinter.cs:7-19 | no two symbols share a character |
| LayoutPrinter.Conditions | src/LayoutPrinter.cs:21-34 | every pattern gives the four slots and has at least two of them set |
| LayoutPrinter.GetNodeSymbol | src/LayoutPrinter.cs:149-169 | the early-exit loop returns the glyph of the first table entry whose conditions equal the vertex's slot vector, else `'#'` |
| LayoutPrinter.ConditionsDistinct | src/LayoutPrinter.cs:21-34 | the eleven presence patterns are pairwise distinct |
| LayoutPrinter.NodeSymbolOfMatch | src/LayoutPrinter.cs:149-169 | the glyph is that of the one matching pattern, whatever the table order |
| LayoutPrinter.HashExactlyForDegreeAtMostOne | src/LayoutPrinter.cs:149-169 | `'#'` exactly for vertices with at most one neighbour |
| LayoutPrinter.MatchingSymbol | src/LayoutPrinter.cs:21-34 | every vector with two or more slots set is in the table |
| LayoutPrinter.HorizontalLineOverhang | src/LayoutPrinter.cs:139-146 | a horizontal line from (2, 0) starts left of that vertex's cell, one from (0, 0) just right of it |
| LayoutPrinter.JunctionGlyph | src/LayoutPrinter.cs:43-48 | when reachable vertices have distinct positions, each one's cell ends holding its own junction glyph |
| LayoutPrinter.Printer.constructor | src/LayoutPrinter.cs:38-51 | the canvas is `AreaHeight` by `2 * AreaWidth - 1`; every cell ends as a vertex's glyph on a vertex cell, else a connector of a line through it, else blank |
| LayoutPrinter.Printer.InitMatrix | src/LayoutPrinter.cs:70-79 | every cell becomes `' '` |
| LayoutPrinter.Printer.WriteCharacter | src/LayoutPrinter.cs:53-56 | only cell `[y, 2x]` changes |
| LayoutPrinter.Printer.AreaRows | src/LayoutPrinter.cs:58-68 | returns the canvas rows in order, each row's cells in column order |
| LayoutPrinter.Printer.DrawConnectingLine | src/LayoutPrinter.cs:126-147 | vertical: the connector in column `2 * from.X` on rows strictly between the ends; horizontal: in row `from.Y` on columns `min(X) + 1` to `2 * max(X) - 1`; no other cell changes |
| LayoutPrinter.Printer.DrawLines | src/LayoutPrinter.cs:104-124 | visits each vertex at most once; writes only connectors of reachable lines; every line of a visited vertex ends painted |
| LayoutPrinter.Printer.DrawIntersections | src/LayoutPrinter.cs:81-102 | visits each vertex at most once; writes only junction glyphs of reachable vertices on their cells; every visited vertex's cell ends painted |
| LayoutPrinter.SquareLine | src/LayoutPrinter.cs:126-147 | the square's lines cover its two horizontal sides and the middle cells of its vertical sides |
| LayoutPrinter.SquareSymbols | src/LayoutPrinter.cs:149-169 | the square's corners get `┌`, `┐`, `┘`, `└` |
| LayoutPrinter.SquareCell | src/LayoutPrinter.cs:38-51 | each cell of the rendered 3 by 3 square is the one in the expected rows |
| LayoutPrinter.SquareExample | src/LayoutPrinter.cs:38-68 | the square built by `AddRectangle` from a lone vertex at (0, 0), rendered on a 3 by 3 area, is `┌───┐`, `│   │`, `└───┘` |

## Left out

- Console output: `PrintAreaMatrix` returns its rows instead of writing them (`AreaRows`). The printing in `Generate` and `PrintGraph` is left out.
- `LayoutGenerator.Generate` is left out: it is a fixed script of three `AddRectangle` calls on hard-coded sizes.
- `ToString` and `GetAdjascentNodesString` are left out: they only format text.
- Visited sets hold arena indices, not `GetHashCode()` values, so hash collisions are not modelled.
- `NumberUtils` is not part of this model. `WithinRangeExclusive` is taken to be "strictly between the two bounds, in either order".
- Termination of the mutual recursion `InsertNode` → `ConnectNewNodeWithIntersectingLine` / `ConnectLineIntersections` → `InsertNode` is not proved. Nested inserts carry a `fuel` count: the top-level step always runs, and a nested insert is skipped once the fuel is spent.
- 32-bit `int` arithmetic and the exceptions it leads to are not modelled: coordinates and sizes are unbounded integers. The source would wrap around in `root.X + (width - 1)` and the other corner sums (src/GridNodeUtils.cs:53-60, src/Procedural.cs:256-263) and in `insertNode.Y + insertLength` of the bounds test (src/GridNodeUtils.cs:259-269), would throw in `Math.Abs` for a difference equal to `int.MinValue` (src/GridNodeUtils.cs:331-332), and would throw when allocating `new char[AreaHeight, 2 * AreaWidth - 1]` with a non-positive width or a negative height (src/LayoutPrinter.cs:40); the constructor requires `AreaWidth >= 1` and `AreaHeight >= 0` instead.
- Canvas bounds: the constructor requires every reachable vertex to fit the canvas, and `WriteCharacter` and `DrawConnectingLine` require their cells to lie on it. The source does not check these and would throw.
- Crossing vertices are appended to the arena when `ConnectLineIntersections` processes them, not when `FindIntersectionPoints` records them. Only their index numbering differs.
- GridNodeUtils.InsertNode: when the walk ends at an empty slot, the exact result is stated only when the connection is quiet (no reachable edge has the new vertex inside and the new line crosses no reachable edge). Otherwise the connection is followed by nested inserts whose exact graph the model does not compute; `ConnectNewNodeWithIntersectingLine` and `ConnectLineIntersections` state what they achieve.
- GridNodeUtils.InsertWithExistingNode: when the new vertex lies ahead of the existing neighbour, the same limit as for `InsertNode` applies to the walk from that neighbour.
- GridNodeUtils.ConnectLineIntersections: states that a vertex is created at every crossing point, not the exact graph after the nested inserts onto the crossed edge and the new line.
- GridNodeUtils.InsertCrossings: states only that a vertex sits at every recorded crossing point and that nothing changes for no points, not the graph after the sequence of inserts.
- GridNodeUtils.InsertCrossing: the result is stated only when the insert onto the crossed edge ends in a splice, no change or a quiet connection; when that insert runs nested inserts, only the vertex at the crossing point is stated.
- Procedural.InsertNode: for an empty slot, the exact result is stated only when no nested axis-line insert can apply. For a larger coordinate, the result is stated only when the new vertex has no neighbours yet.
- GridNodeUtils.AddRectangle: the exact graph is stated only for a lone root with `w, h >= 2`. Elsewhere the result depends on the nested inserts.
- Procedural.AddRectangle: the exact graph is stated only for a lone root with `w, h >= 2`.
- LayoutPrinter.Printer.constructor: when two reachable vertices share a cell, or two lines of different orientation cross a cell, the contract says the cell holds the glyph of one of them, not which one. The drawing order decides that and is not modelled.
