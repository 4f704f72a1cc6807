/**
 * The vertex store. `GridNode` (src/GridNode.cs) and `VertexNode`
 * (src/Procedural.cs) have the same shape: immutable integer coordinates and a
 * four-slot neighbour array indexed by `Direction`. Vertices refer to each other
 * in cycles, so they live in an arena: a vertex is an index into `Graph.nodes`
 * and a neighbour slot holds an optional index.
 */
module Nodes {
  import opened Wrappers
  import opened Directions

  /** A neighbour array: always exactly four slots, slot `i` for direction `FromIndex(i)`. */
  type Slots = s: seq<Option<nat>> | |s| == 4 witness [None, None, None, None]

  const NoNeighbours: Slots := [None, None, None, None]

  datatype Vertex = Vertex(x: int, y: int, adj: Slots)

  /** The neighbour of vertex `v` in direction `d`. */
  function Slot(g: seq<Vertex>, v: nat, d: Direction): Option<nat>
    requires v < |g|
  {
    g[v].adj[Index(d)]
  }

  /** Every neighbour reference names a vertex of the arena. */
  predicate WellFormed(g: seq<Vertex>) {
    forall v: nat, d :: v < |g| && Slot(g, v, d).Some? ==> Slot(g, v, d).value < |g|
  }

  /** `AdjascentNodes[d] = o`: one slot overwritten, nothing else. */
  function SetSlot(g: seq<Vertex>, v: nat, d: Direction, o: Option<nat>): (r: seq<Vertex>)
    requires v < |g|
    ensures |r| == |g| && Slot(r, v, d) == o
    ensures forall u: nat, e :: u < |g| && (u, e) != (v, d) ==> Slot(r, u, e) == Slot(g, u, e)
    ensures forall u :: 0 <= u < |g| ==> r[u].x == g[u].x && r[u].y == g[u].y
  {
    g[v := g[v].(adj := g[v].adj[Index(d) := o])]
  }

  /** `ConnectionExists`: `a` sees `b` in direction `d` and `b` sees `a` in the opposite one. */
  predicate ConnectionExists(g: seq<Vertex>, d: Direction, a: nat, b: nat)
    requires a < |g| && b < |g|
  {
    Slot(g, a, d) == Some(b) && Slot(g, b, InvertDirection(d)) == Some(a)
  }

  /** The arena after `new GridNode(x, y)`: one more vertex, at `(x, y)` and with no neighbours. */
  function WithNewNode(g: seq<Vertex>, x: int, y: int): (r: seq<Vertex>)
    requires WellFormed(g)
    ensures WellFormed(r) && Extends(g, r) && |r| == |g| + 1
    ensures r[|g|].x == x && r[|g|].y == y && forall e :: Slot(r, |g|, e).None?
  {
    var r := g + [Vertex(x, y, NoNeighbours)];
    assert forall u: nat, e :: u < |g| ==> Slot(r, u, e) == Slot(g, u, e);
    r
  }

  /** A connection seen from its other end: `b` to `a` in the opposite direction. */
  lemma ConnectionExistsMirrored(g: seq<Vertex>, d: Direction, a: nat, b: nat)
    requires a < |g| && b < |g|
    ensures ConnectionExists(g, d, a, b) <==> ConnectionExists(g, InvertDirection(d), b, a)
  {
  }

  /** Coordinates never change and vertices are never removed: the arena only grows. */
  predicate Extends(before: seq<Vertex>, after: seq<Vertex>) {
    |before| <= |after| &&
    forall v :: 0 <= v < |before| ==> after[v].x == before[v].x && after[v].y == before[v].y
  }

  lemma ExtendsTransitive(a: seq<Vertex>, b: seq<Vertex>, c: seq<Vertex>)
    requires Extends(a, b) && Extends(b, c)
    ensures Extends(a, c)
  {
  }

  /**
   * The state `ConnectAdjacentNode(d, n, o)` leaves behind: slot `d` of `n` names
   * `o`, slot `InvertDirection(d)` of `o` names `n`, and no other slot changes.
   */
  function Connected(g: seq<Vertex>, d: Direction, n: nat, o: nat): (r: seq<Vertex>)
    requires WellFormed(g) && n < |g| && o < |g|
    ensures WellFormed(r) && Extends(g, r) && |r| == |g|
    ensures ConnectionExists(r, d, n, o)
    ensures forall v: nat, e :: v < |g| && (v, e) != (n, d) && (v, e) != (o, InvertDirection(d)) ==>
              Slot(r, v, e) == Slot(g, v, e)
  {
    SetSlot(SetSlot(g, n, d, Some(o)), o, InvertDirection(d), Some(n))
  }

  /** Connecting twice leaves the same state as connecting once. */
  lemma ConnectedIdempotent(g: seq<Vertex>, d: Direction, n: nat, o: nat)
    requires WellFormed(g) && n < |g| && o < |g|
    ensures Connected(Connected(g, d, n, o), d, n, o) == Connected(g, d, n, o)
  {
    var once := Connected(g, d, n, o);
    SameSlotsSameGraph(Connected(once, d, n, o), once);
  }

  /** Two arenas with the same coordinates and the same slots are equal. */
  lemma SameSlotsSameGraph(a: seq<Vertex>, b: seq<Vertex>)
    requires |a| == |b|
    requires forall v :: 0 <= v < |a| ==> a[v].x == b[v].x && a[v].y == b[v].y
    requires forall v: nat, e :: v < |a| ==> Slot(a, v, e) == Slot(b, v, e)
    ensures a == b
  {
    forall v | 0 <= v < |a| ensures a[v] == b[v] {
      forall k | 0 <= k < 4 ensures a[v].adj[k] == b[v].adj[k] {
        assert Slot(a, v, FromIndex(k)) == Slot(b, v, FromIndex(k));
      }
    }
  }

  /**
   * Writing slot `d` of `n` and then connecting `n` to `o` in direction `d` leaves the
   * same state as the connection alone: the connection writes that slot again.
   */
  lemma OverwrittenThenConnected(g: seq<Vertex>, d: Direction, n: nat, o: nat)
    requires WellFormed(g) && n < |g| && o < |g|
    ensures WellFormed(SetSlot(g, n, d, Some(o)))
    ensures Connected(SetSlot(g, n, d, Some(o)), d, n, o) == Connected(g, d, n, o)
  {
    var written := SetSlot(g, n, d, Some(o));
    assert WellFormed(written);
    SameSlotsSameGraph(Connected(written, d, n, o), Connected(g, d, n, o));
  }

  /** `v` has no neighbour at all. */
  predicate Isolated(g: seq<Vertex>, v: nat)
    requires v < |g|
  {
    forall e :: Slot(g, v, e).None?
  }

  /** Adjacency is bidirectional: every slot is mirrored by the opposite slot of its target. */
  ghost predicate Symmetric(g: seq<Vertex>)
    requires WellFormed(g)
  {
    forall v: nat, e :: Mirrored(g, v, e)
  }

  /** The slot of `v` in direction `e`, if set, is mirrored by its target. */
  ghost predicate Mirrored(g: seq<Vertex>, v: nat, e: Direction)
    requires WellFormed(g)
  {
    v < |g| && Slot(g, v, e).Some? ==> Slot(g, Slot(g, v, e).value, InvertDirection(e)) == Some(v)
  }

  /**
   * Connecting two vertices whose two slots are free keeps adjacency bidirectional;
   * this is the situation in which the source relies on `ConnectAdjacentNode`.
   */
  lemma ConnectedKeepsSymmetry(g: seq<Vertex>, d: Direction, n: nat, o: nat)
    requires WellFormed(g) && n < |g| && o < |g| && n != o
    requires Symmetric(g) && Slot(g, n, d).None? && Slot(g, o, InvertDirection(d)).None?
    ensures Symmetric(Connected(g, d, n, o))
  {
    var r := Connected(g, d, n, o);
    forall v: nat, e ensures Mirrored(r, v, e) {
      InvertDirectionInvolution(e);
      InvertDirectionInvolution(d);
      if v < |r| && Slot(r, v, e).Some? {
        var w := Slot(r, v, e).value;
        if (v, e) == (n, d) || (v, e) == (o, InvertDirection(d)) {
        } else {
          assert Slot(g, v, e) == Some(w);
          assert Mirrored(g, v, e);
          assert Slot(g, w, InvertDirection(e)) == Some(v);
          assert Mirrored(g, w, InvertDirection(e));
        }
      }
    }
  }

  /**
   * The state a splice leaves: `ins` is connected after `root` in direction `d`,
   * then `existing` (formerly after `root`) is connected after `ins`.
   */
  function Spliced(g: seq<Vertex>, d: Direction, root: nat, ins: nat, existing: nat): (r: seq<Vertex>)
    requires WellFormed(g) && root < |g| && ins < |g| && existing < |g|
    ensures WellFormed(r) && Extends(g, r) && |r| == |g|
  {
    Connected(Connected(g, d, root, ins), InvertDirection(d), existing, ins)
  }

  /**
   * The shape of a splice: `root -> ins -> existing` along `d`, mirrored backwards,
   * and every slot other than these four as before.
   */
  lemma SplicedShape(g: seq<Vertex>, d: Direction, root: nat, ins: nat, existing: nat)
    requires WellFormed(g) && root < |g| && ins < |g| && existing < |g|
    requires ins != root && ins != existing
    ensures var r := Spliced(g, d, root, ins, existing);
      Slot(r, root, d) == Some(ins) && Slot(r, ins, InvertDirection(d)) == Some(root) &&
      Slot(r, ins, d) == Some(existing) && Slot(r, existing, InvertDirection(d)) == Some(ins)
    ensures var r := Spliced(g, d, root, ins, existing);
      forall v: nat, e ::
        (v < |g| && (v, e) != (root, d) && (v, e) != (ins, InvertDirection(d)) &&
         (v, e) != (ins, d) && (v, e) != (existing, InvertDirection(d)))
        ==> Slot(r, v, e) == Slot(g, v, e)
  {
    InvertDirectionInvolution(d);
  }

  /**
   * Splicing an isolated vertex onto an existing bidirectional edge keeps the
   * whole arena bidirectional.
   */
  lemma SplicedKeepsSymmetry(g: seq<Vertex>, d: Direction, root: nat, ins: nat, existing: nat)
    requires WellFormed(g) && root < |g| && ins < |g| && existing < |g|
    requires ins != root && ins != existing && root != existing
    requires Symmetric(g) && ConnectionExists(g, d, root, existing)
    requires forall e :: Slot(g, ins, e).None?
    ensures Symmetric(Spliced(g, d, root, ins, existing))
  {
    InvertDirectionInvolution(d);
    var r := Spliced(g, d, root, ins, existing);
    SplicedShape(g, d, root, ins, existing);
    forall v: nat, e ensures Mirrored(r, v, e) {
      InvertDirectionInvolution(e);
      if v < |r| && Slot(r, v, e).Some? {
        var w := Slot(r, v, e).value;
        if (v, e) == (root, d) || (v, e) == (ins, InvertDirection(d)) || (v, e) == (ins, d) ||
           (v, e) == (existing, InvertDirection(d)) {
        } else {
          assert Slot(g, v, e) == Some(w);
          assert v != ins;
          assert Mirrored(g, v, e);
          assert Slot(g, w, InvertDirection(e)) == Some(v);
          assert w != ins;
        }
      }
    }
  }

  /** Every neighbour of a member of `S` is in `S`. */
  ghost predicate Closed(g: seq<Vertex>, S: set<nat>)
    requires WellFormed(g)
  {
    (forall v :: v in S ==> v < |g|) &&
    forall v: nat, e :: v in S && v < |g| && Slot(g, v, e).Some? ==> Slot(g, v, e).value in S
  }

  /**
   * `v` is reachable from `root`: it belongs to every neighbour-closed set that
   * contains `root` (the least such set is the set of vertices a walk from `root` meets).
   */
  ghost predicate Reachable(g: seq<Vertex>, root: nat, v: nat)
    requires WellFormed(g)
  {
    forall S :: Closed(g, S) && root in S ==> v in S
  }

  /** A walk of length zero: every vertex reaches itself. */
  lemma ReachableFromItself(g: seq<Vertex>, root: nat)
    requires WellFormed(g)
    ensures Reachable(g, root, root)
  {
  }

  /** A walk extended by one slot: the neighbour of a reachable vertex is reachable. */
  lemma ReachableStep(g: seq<Vertex>, root: nat, v: nat, e: Direction)
    requires WellFormed(g) && v < |g| && Reachable(g, root, v) && Slot(g, v, e).Some?
    ensures Reachable(g, root, Slot(g, v, e).value)
  {
    forall S | Closed(g, S) && root in S ensures Slot(g, v, e).value in S {
      assert v in S;
    }
  }

  /** Walks compose. */
  lemma ReachableTransitive(g: seq<Vertex>, a: nat, b: nat, c: nat)
    requires WellFormed(g) && Reachable(g, a, b) && Reachable(g, b, c)
    ensures Reachable(g, a, c)
  {
    forall S | Closed(g, S) && a in S ensures c in S {
      assert b in S;
    }
  }

  /** Nothing outside a neighbour-closed set is reachable from inside it. */
  lemma ReachableWithin(g: seq<Vertex>, root: nat, S: set<nat>, v: nat)
    requires WellFormed(g) && Closed(g, S) && root in S && Reachable(g, root, v)
    ensures v in S
  {
  }

  /**
   * A search that has visited `root` and every neighbour of each vertex it visited has
   * met every vertex reachable from `root`.
   */
  lemma SearchCoversReachable(g: seq<Vertex>, root: nat, seen: set<nat>)
    requires WellFormed(g) && root in seen && seen <= Range(|g|)
    requires forall v :: v in seen ==> NeighboursIn(g, v, seen)
    ensures forall v: nat :: v < |g| && Reachable(g, root, v) ==> v in seen
  {
    assert Closed(g, seen) by {
      forall v: nat, e | v in seen && Slot(g, v, e).Some? ensures Slot(g, v, e).value in seen {
        assert NeighboursIn(g, v, seen);
      }
    }
  }

  /** An isolated vertex reaches only itself. */
  lemma IsolatedReachesItself(g: seq<Vertex>, root: nat, v: nat)
    requires WellFormed(g) && root < |g| && Isolated(g, root) && Reachable(g, root, v)
    ensures v == root
  {
    assert Closed(g, {root});
  }

  /** The indices of an arena of `n` vertices. */
  function Range(n: nat): (r: set<nat>)
    ensures forall v: int :: v in r <==> 0 <= v < n
  {
    if n == 0 then {} else Range(n - 1) + {n - 1}
  }

  lemma NeighboursInGrows(g: seq<Vertex>, v: nat, S: set<nat>, T: set<nat>)
    requires WellFormed(g) && v < |g| && S <= T && NeighboursIn(g, v, S)
    ensures NeighboursIn(g, v, T)
  {
  }

  /** Every neighbour of `v` is in `S`. */
  predicate NeighboursIn(g: seq<Vertex>, v: nat, S: set<nat>)
    requires WellFormed(g) && v < |g|
  {
    forall e :: Slot(g, v, e).Some? ==> Slot(g, v, e).value in S
  }

  /**
   * The depth-first walk the searches make from `root` with `visited` already marked:
   * the vertices in the order they are first marked (a vertex, then the walks from its
   * neighbours in slot order Up, Left, Down, Right), and the set marked at the end.
   */
  ghost function Preorder(g: seq<Vertex>, visited: set<nat>, root: nat): (r: (seq<nat>, set<nat>))
    requires WellFormed(g) && root < |g|
    ensures visited <= r.1
    decreases Range(|g|) - visited, 0
  {
    if root in visited then ([], visited)
    else
      var rest := PreorderSlots(g, visited + {root}, root, 0);
      ([root] + rest.0, rest.1)
  }

  /** The walks from the neighbours in slots `i` to 3 of `v`, one after the other. */
  ghost function PreorderSlots(g: seq<Vertex>, seen: set<nat>, v: nat, i: nat): (r: (seq<nat>, set<nat>))
    requires WellFormed(g) && v < |g| && i <= 4
    ensures seen <= r.1
    decreases Range(|g|) - seen, 1, 4 - i
  {
    if i == 4 then ([], seen)
    else match g[v].adj[i]
      case None => PreorderSlots(g, seen, v, i + 1)
      case Some(w) =>
        assert Slot(g, v, FromIndex(i)) == Some(w);
        var first := Preorder(g, seen, w);
        var rest := PreorderSlots(g, first.1, v, i + 1);
        (first.0 + rest.0, rest.1)
  }

  /** `IsConnected(root, node)`: some slot of `root` names `node`. */
  method IsConnected(g: seq<Vertex>, root: nat, node: nat) returns (b: bool)
    requires root < |g|
    ensures b <==> exists e :: Slot(g, root, e) == Some(node)
  {
    var i := 0;
    while i < 4
      invariant 0 <= i <= 4
      invariant forall k :: 0 <= k < i ==> Slot(g, root, AllDirections[k]) != Some(node)
    {
      var n := g[root].adj[i];
      assert n == Slot(g, root, AllDirections[i]);
      if n.Some? && n.value == node {
        return true;
      }
      i := i + 1;
    }
    forall e ensures Slot(g, root, e) != Some(node) {
      AllDirectionsIndexed(e);
    }
    return false;
  }

  /** The arena holding every vertex created so far. */
  class Graph {
    var nodes: seq<Vertex>

    ghost predicate Valid()
      reads this
    {
      WellFormed(nodes)
    }

    constructor ()
      ensures Valid() && nodes == []
    {
      nodes := [];
    }

    /** `new GridNode(x, y)` / `new VertexNode(x, y)`: given coordinates, four empty slots. */
    method NewNode(x: int, y: int) returns (v: nat)
      requires Valid()
      modifies this
      ensures Valid() && Extends(old(nodes), nodes)
      ensures v == |old(nodes)| && nodes == old(nodes) + [Vertex(x, y, NoNeighbours)]
      ensures nodes == WithNewNode(old(nodes), x, y)
    {
      v := |nodes|;
      ghost var before := nodes;
      nodes := nodes + [Vertex(x, y, NoNeighbours)];
      assert forall u: nat, e :: u < |before| ==> Slot(nodes, u, e) == Slot(before, u, e);
    }

    /** `node.AdjascentNodes[d] = o`: a single raw slot write, without the reverse slot. */
    method SetAdjacent(d: Direction, node: nat, o: nat)
      requires Valid() && node < |nodes| && o < |nodes|
      modifies this
      ensures Valid() && nodes == SetSlot(old(nodes), node, d, Some(o))
    {
      nodes := SetSlot(nodes, node, d, Some(o));
    }

    /**
     * `ConnectAdjascentNode(direction, node, connectingNode)`: set the slot, then, if
     * the reverse slot does not already name `node`, connect in the opposite direction.
     * The reverse call always finds its own reverse slot set, so it recurses at most once.
     */
    method ConnectAdjacentNode(d: Direction, node: nat, connecting: nat)
      requires Valid() && node < |nodes| && connecting < |nodes|
      modifies this
      ensures Valid() && nodes == Connected(old(nodes), d, node, connecting)
      decreases if Slot(nodes, connecting, InvertDirection(d)) == Some(node) then 0 else 1
    {
      ghost var before := nodes;
      nodes := SetSlot(nodes, node, d, Some(connecting));
      var inverted := InvertDirection(d);
      var reverse := Slot(nodes, connecting, inverted);
      if reverse.None? || reverse.value != node {
        InvertDirectionInvolution(d);
        ConnectAdjacentNode(inverted, connecting, node);
        SameSlotsSameGraph(nodes, Connected(before, d, node, connecting));
      } else {
        SameSlotsSameGraph(nodes, Connected(before, d, node, connecting));
      }
    }
  }
}
