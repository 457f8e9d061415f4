/**
 * What Start keeps true while it wires the grid (Assets/Scripts/GameManager.cs),
 * stated over the edges as a value: the cells hold the edges the pass has
 * made, and the DirectedGraph holds exactly the cells that have one.
 */
module Boards {
  import opened Directions
  import opened Nodes
  import opened Graphs
  import opened GridWiring

  /** Every node of `adj` keeps its two maps inverse, and its neighbour map is the one `adj` gives it. */
  ghost predicate Mirrors(adj: Adjacency<Node>)
    reads adj.Keys
  {
    forall c | c in adj :: c.Valid() && c.neighbours == adj[c]
  }

  /** The graph's vertices are exactly the nodes of `adj` that have a neighbour. */
  ghost predicate Covered(vertices: set<Node>, adj: Adjacency<Node>) {
    (forall v | v in vertices :: v in adj && adj[v] != map[]) &&
    (forall c | c in adj :: c in vertices || adj[c] == map[])
  }

  /** Linking two nodes of `adj` and adding both as vertices keeps the graph covering `adj`. */
  lemma LinkKeepsCovered(vertices: set<Node>, adj: Adjacency<Node>, a: Node, b: Node, d: Dir)
    requires a in adj && b in adj && a != b && Covered(vertices, adj)
    ensures Covered(vertices + {a, b}, Link(adj, a, b, d))
  {
    LinkEnds(adj, a, b, d);
    forall c | c in adj && c != a && c != b {
      LinkElsewhere(adj, a, b, d, c);
    }
  }

  /**
   * The state of the wiring pass at `cur`: it has visited the slots before
   * `cur`, the cells hold `adj`, and the graph is valid with every cell
   * that has an edge among its vertices.
   */
  ghost predicate Wiring(graph: DirectedGraph, grid: seq<seq<Node>>, n: int, cur: Cursor, adj: Adjacency<Node>)
    reads graph, graph.vertices, adj.Keys
  {
    forall c | c == cur :: Visited(grid, n, c, adj) && Mirrors(adj) && graph.Valid() && Covered(graph.vertices, adj)
  }

  /** What the state of the pass says about the graph and the cells. */
  lemma WiringHolds(graph: DirectedGraph, grid: seq<seq<Node>>, n: int, cur: Cursor, adj: Adjacency<Node>)
    requires Wiring(graph, grid, n, cur, adj)
    ensures Visited(grid, n, cur, adj) && Mirrors(adj) && graph.Valid() && Covered(graph.vertices, adj)
  {
  }

  /** A direction whose target is off the grid adds no edge and moves the pass on. */
  lemma SkipSlot(graph: DirectedGraph, grid: seq<seq<Node>>, n: int, p: Pos, d: Dir, adj: Adjacency<Node>)
    requires IsGrid(grid, n) && Injective(grid, n) && InGrid(n, p) && IsOffset(d) && !InGrid(n, Move(p, d))
    requires Wiring(graph, grid, n, Cursor(p.row, p.col, Rank(d)), adj)
    ensures Wiring(graph, grid, n, Cursor(p.row, p.col, Rank(d) + 1), adj)
  {
    assert Visited(grid, n, Cursor(p.row, p.col, Rank(d)), adj);
    VisitedSkip(grid, n, p, d, adj);
  }

  /**
   * Before the edge from p towards d is added: the two cells differ, and
   * each slot is free or already holds the other cell (`ra` and `rb` are
   * the cells' direction maps), so Node.AddEdge cannot throw.
   */
  lemma PrepareLink(grid: seq<seq<Node>>, n: int, p: Pos, d: Dir, adj: Adjacency<Node>, ra: map<Dir, Node>, rb: map<Dir, Node>)
    requires IsGrid(grid, n) && Injective(grid, n) && InGrid(n, p) && IsOffset(d) && InGrid(n, Move(p, d))
    requires Visited(grid, n, Cursor(p.row, p.col, Rank(d)), adj)
    requires At(grid, p) in adj ==> Inverse(adj[At(grid, p)], ra)
    requires At(grid, Move(p, d)) in adj ==> Inverse(adj[At(grid, Move(p, d))], rb)
    ensures var a, b := At(grid, p), At(grid, Move(p, d));
      a != b && a in adj && b in adj && (b in adj[a] || d !in ra) && (a in adj[b] || Opposite(d) !in rb)
  {
    var cur := Cursor(p.row, p.col, Rank(d));
    assert Wired(grid, n, cur, adj);
    var q := Move(p, d);
    assert p != q;
    SlotFreeOrSame(grid, n, adj, p, d, ra);
    SlotFreeOrSame(grid, n, adj, q, Opposite(d), rb);
  }

  /** After the edge from p towards d is added as `Link` says, the pass moves on. */
  lemma FinishLink(graph: DirectedGraph, grid: seq<seq<Node>>, n: int, p: Pos, d: Dir, adj0: Adjacency<Node>, adj: Adjacency<Node>)
    requires IsGrid(grid, n) && Injective(grid, n) && InGrid(n, p) && IsOffset(d) && InGrid(n, Move(p, d))
    requires Visited(grid, n, Cursor(p.row, p.col, Rank(d)), adj0)
    requires At(grid, p) in adj0 && At(grid, Move(p, d)) in adj0
    requires adj == Link(adj0, At(grid, p), At(grid, Move(p, d)), d)
    requires Mirrors(adj) && graph.Valid() && Covered(graph.vertices, adj)
    ensures Wiring(graph, grid, n, Cursor(p.row, p.col, Rank(d) + 1), adj)
  {
    VisitedLink(grid, n, p, d, adj0, adj);
  }

  /** The last direction of a cell done, the pass moves to the next column. */
  lemma NextCell(graph: DirectedGraph, grid: seq<seq<Node>>, n: int, row: int, col: int, adj: Adjacency<Node>)
    requires IsGrid(grid, n) && Wiring(graph, grid, n, Cursor(row, col, |Eight|), adj)
    ensures Wiring(graph, grid, n, Cursor(row, col + 1, 0), adj)
  {
    assert Visited(grid, n, Cursor(row, col, |Eight|), adj);
    VisitedNextCell(grid, n, row, col, adj);
  }

  /** The last column of a row done, the pass moves to the next row. */
  lemma NextLine(graph: DirectedGraph, grid: seq<seq<Node>>, n: int, row: int, adj: Adjacency<Node>)
    requires IsGrid(grid, n) && Wiring(graph, grid, n, Cursor(row, n, 0), adj)
    ensures Wiring(graph, grid, n, Cursor(row + 1, 0, 0), adj)
  {
    assert Visited(grid, n, Cursor(row, n, 0), adj);
    VisitedNextLine(grid, n, row, adj);
  }

  /** Before the pass: an empty graph over cells without neighbours. */
  lemma StartWiring(graph: DirectedGraph, grid: seq<seq<Node>>, n: int, adj: Adjacency<Node>)
    requires IsGrid(grid, n) && graph.Valid() && graph.vertices == {}
    requires adj == map c | c in Cells(grid, n) :: map[]
    requires forall c | c in Cells(grid, n) :: c.Valid() && c.neighbours == map[]
    ensures Wiring(graph, grid, n, Cursor(0, 0, 0), adj)
  {
    forall p | InGrid(n, p) ensures At(grid, p) in adj && adj[At(grid, p)] == map[] {
      assert At(grid, p) in Cells(grid, n);
    }
    VisitedAtStart(grid, n, adj);
  }

  /** The graph's edges are the cells' maps of `adj` that are not empty. */
  lemma EdgesAreAdj(graph: DirectedGraph, grid: seq<seq<Node>>, n: int, adj: Adjacency<Node>)
    requires IsGrid(grid, n) && WiredKeys(grid, n, adj)
    requires Mirrors(adj) && graph.Valid() && Covered(graph.vertices, adj)
    ensures forall p | InGrid(n, p) :: At(grid, p) in graph.edges <==> adj[At(grid, p)] != map[]
    ensures forall p | InGrid(n, p) && At(grid, p) in graph.edges :: graph.edges[At(grid, p)] == adj[At(grid, p)]
  {
    forall p | InGrid(n, p) ensures At(grid, p) in graph.edges <==> adj[At(grid, p)] != map[] {
      assert At(grid, p) in adj;
    }
  }

  /** On a grid smaller than two by two no cell has a neighbour its labels lead to. */
  lemma IsolatedCells(grid: seq<seq<Node>>, n: int, e: Adjacency<Node>, c: Node)
    requires IsGrid(grid, n) && n < 2 && WiredLabels(grid, n, e) && c in Cells(grid, n) && c in e
    ensures e[c] == map[]
  {
    var r, k :| 0 <= r < n && 0 <= k < n && c == grid[r][k];
    assert At(grid, Pos(r, k)) == c;
  }

  /**
   * After the pass: the cell at p has the cell one step d away as a
   * neighbour, labelled d, exactly when that cell is on the grid; every
   * label leads to its neighbour; and the vertices are all the cells,
   * unless the grid is too small for any cell to have a neighbour.
   */
  lemma WiringDone(graph: DirectedGraph, grid: seq<seq<Node>>, n: int, adj: Adjacency<Node>)
    requires IsGrid(grid, n) && adj.Keys == Cells(grid, n)
    requires Wiring(graph, grid, n, Cursor(n, 0, 0), adj)
    ensures graph.Valid()
    ensures forall p, d | InGrid(n, p) && IsOffset(d) :: Linked(grid, n, graph.edges, p, d) <==> InGrid(n, Move(p, d))
    ensures WiredLabels(grid, n, graph.edges)
    ensures graph.vertices == if n >= 2 then Cells(grid, n) else {}
  {
    var cur := Cursor(n, 0, 0);
    assert Visited(grid, n, cur, adj);
    assert Wired(grid, n, cur, adj);
    EdgesAreAdj(graph, grid, n, adj);
    WiredComplete(grid, n, adj);
    var e := graph.edges;
    forall p, d | InGrid(n, p) && IsOffset(d) ensures Linked(grid, n, e, p, d) <==> InGrid(n, Move(p, d)) {
      assert Linked(grid, n, adj, p, d) <==> InGrid(n, Move(p, d));
    }
    forall p, w | InGrid(n, p) && At(grid, p) in e && w in e[At(grid, p)] ensures LabelLeads(grid, n, e, p, w) {
      assert LabelLeads(grid, n, adj, p, w);
    }
    if n >= 2 {
      EveryCellLinked(grid, n, adj);
      forall c | c in Cells(grid, n) ensures c in graph.vertices {
        var r, k :| 0 <= r < n && 0 <= k < n && c == grid[r][k];
        assert At(grid, Pos(r, k)) == c;
      }
    } else {
      forall c | c in graph.vertices ensures false {
        IsolatedCells(grid, n, e, c);
      }
    }
  }
}
