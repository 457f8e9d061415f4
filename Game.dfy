/**
 * The game manager of Assets/Scripts/GameManager.cs: Start builds the grid
 * of cells and wires each to its in-grid neighbours through a
 * DirectedGraph; the pointer handlers then run the selection session.
 *
 * Cells are Node objects.  The value a cell shows (its NodeValue child in
 * the scene) is the function `valueOf`; the UnityEvent that announces the
 * selection sum is the log `reported`, one entry per announcement.
 */
module Game {
  import opened Directions
  import opened Nodes
  import opened Graphs
  import opened GridWiring
  import opened Sums
  import opened Boards
  import opened GameStates

  /** A node as the prefab makes it: no neighbours, no back-link. */
  ghost predicate Blank(c: Node)
    reads c
  {
    c.Valid() && c.neighbours == map[] && c.previous == null
  }

  /**
   * The first loop of Start: a new node for every cell of the layout, row
   * after row, each appended to Spawned and stored in the grid.
   */
  method SpawnGrid(rows: seq<int>) returns (grid: seq<seq<Node>>, spawned: seq<Node>)
    requires IsSquare(rows)
    ensures IsGrid(grid, |rows|) && Injective(grid, |rows|)
    ensures spawned == Flatten(grid) && Distinct(spawned)
    ensures forall r, k | 0 <= r < |rows| && 0 <= k < |rows| :: fresh(grid[r][k]) && Blank(grid[r][k])
  {
    grid, spawned := [], [];
    ghost var place: map<Node, Pos> := map[];
    var row := 0;
    while row < |rows|
      invariant 0 <= row <= |rows| && |grid| == row
      invariant spawned == Flatten(grid) && Distinct(spawned)
      invariant forall r | 0 <= r < row :: |grid[r]| == |rows|
      invariant forall r, k | 0 <= r < row && 0 <= k < |grid[r]| ::
        fresh(grid[r][k]) && Blank(grid[r][k]) && grid[r][k] in place && place[grid[r][k]] == Pos(r, k)
    {
      var line: seq<Node> := [];
      var column := 0;
      while column < rows[row]
        invariant 0 <= column <= rows[row] && |line| == column
        invariant spawned == Flatten(grid) + line && Distinct(spawned)
        invariant forall r, k | 0 <= r < row && 0 <= k < |grid[r]| ::
          fresh(grid[r][k]) && Blank(grid[r][k]) && grid[r][k] in place && place[grid[r][k]] == Pos(r, k)
        invariant forall k | 0 <= k < column ::
          fresh(line[k]) && Blank(line[k]) && line[k] in place && place[line[k]] == Pos(row, k)
      {
        var node := new Node();
        spawned := spawned + [node];
        line := line + [node];
        place := place[node := Pos(row, column)];
        column := column + 1;
      }
      assert Flatten(grid + [line]) == Flatten(grid) + line by {
        assert (grid + [line])[..|grid|] == grid;
      }
      grid := grid + [line];
      row := row + 1;
    }
  }

  /** The nested loops of Start over rows and columns, wiring every cell. */
  method WireGrid(graph: DirectedGraph, rows: seq<int>, grid: seq<seq<Node>>, ghost adj0: Adjacency<Node>)
      returns (ghost adj: Adjacency<Node>)
    requires IsSquare(rows) && IsGrid(grid, |rows|) && Injective(grid, |rows|)
    requires Wiring(graph, grid, |rows|, Cursor(0, 0, 0), adj0)
    modifies graph, adj0.Keys
    ensures adj.Keys == adj0.Keys && Wiring(graph, grid, |rows|, Cursor(|rows|, 0, 0), adj)
  {
    adj := adj0;
    var row := 0;
    while row < |rows|
      invariant 0 <= row <= |rows| && adj.Keys == adj0.Keys
      invariant Wiring(graph, grid, |rows|, Cursor(row, 0, 0), adj)
    {
      var column := 0;
      while column < rows[row]
        invariant 0 <= column <= rows[row] && adj.Keys == adj0.Keys
        invariant Wiring(graph, grid, |rows|, Cursor(row, column, 0), adj)
      {
        adj := WireCell(graph, rows, grid, row, column, adj);
        NextCell(graph, grid, |rows|, row, column, adj);
        column := column + 1;
      }
      NextLine(graph, grid, |rows|, row, adj);
      row := row + 1;
    }
  }

  /** The eight directions of one cell: the `foreach` over `directions` in Start. */
  method WireCell(graph: DirectedGraph, rows: seq<int>, grid: seq<seq<Node>>, row: int, column: int, ghost adj0: Adjacency<Node>)
      returns (ghost adj: Adjacency<Node>)
    requires IsSquare(rows) && IsGrid(grid, |rows|) && Injective(grid, |rows|) && InGrid(|rows|, Pos(row, column))
    requires Wiring(graph, grid, |rows|, Cursor(row, column, 0), adj0)
    modifies graph, adj0.Keys
    ensures adj.Keys == adj0.Keys && Wiring(graph, grid, |rows|, Cursor(row, column, |Eight|), adj)
  {
    adj := adj0;
    var i := 0;
    while i < |Eight|
      invariant 0 <= i <= |Eight| && adj.Keys == adj0.Keys
      invariant Wiring(graph, grid, |rows|, Cursor(row, column, i), adj)
    {
      var direction := Eight[i];
      RankOfEight(i);
      adj := WireSlot(graph, rows, grid, row, column, direction, adj);
      i := i + 1;
    }
  }

  /** One direction of one cell: the bounds test and, inside the grid, DirectedGraph.AddEdge. */
  method WireSlot(graph: DirectedGraph, rows: seq<int>, grid: seq<seq<Node>>, row: int, column: int, direction: Dir,
                  ghost adj0: Adjacency<Node>)
      returns (ghost adj: Adjacency<Node>)
    requires IsSquare(rows) && IsGrid(grid, |rows|) && Injective(grid, |rows|) && InGrid(|rows|, Pos(row, column))
    requires IsOffset(direction) && Wiring(graph, grid, |rows|, Cursor(row, column, Rank(direction)), adj0)
    modifies graph, adj0.Keys
    ensures adj.Keys == adj0.Keys && Wiring(graph, grid, |rows|, Cursor(row, column, Rank(direction) + 1), adj)
  {
    var insideGrid := InsideGrid(rows, row, column, direction);
    if insideGrid {
      adj := LinkSlot(graph, grid, |rows|, Pos(row, column), direction, adj0);
    } else {
      adj := adj0;
      SkipSlot(graph, grid, |rows|, Pos(row, column), direction, adj);
    }
  }

  /** Inside the grid: the neighbour's lookup and DirectedGraph.AddEdge. */
  method LinkSlot(graph: DirectedGraph, grid: seq<seq<Node>>, n: int, p: Pos, direction: Dir, ghost adj0: Adjacency<Node>)
      returns (ghost adj: Adjacency<Node>)
    requires IsGrid(grid, n) && Injective(grid, n) && InGrid(n, p) && IsOffset(direction) && InGrid(n, Move(p, direction))
    requires Wiring(graph, grid, n, Cursor(p.row, p.col, Rank(direction)), adj0)
    modifies graph, adj0.Keys
    ensures adj.Keys == adj0.Keys && Wiring(graph, grid, n, Cursor(p.row, p.col, Rank(direction) + 1), adj)
  {
    var node := At(grid, p);
    var neighbourNode := At(grid, Move(p, direction));
    WiringHolds(graph, grid, n, Cursor(p.row, p.col, Rank(direction)), adj0);
    PrepareLink(grid, n, p, direction, adj0, node.reverseNeighbours, neighbourNode.reverseNeighbours);
    adj := Connect(graph, node, neighbourNode, direction, adj0);
    FinishLink(graph, grid, n, p, direction, adj0, adj);
  }

  /** DirectedGraph.AddEdge between two distinct nodes whose slots are free or already hold each other. */
  method Connect(graph: DirectedGraph, node: Node, neighbourNode: Node, direction: Dir, ghost adj0: Adjacency<Node>)
      returns (ghost adj: Adjacency<Node>)
    requires node != neighbourNode && node in adj0 && neighbourNode in adj0
    requires neighbourNode in adj0[node] || direction !in node.reverseNeighbours
    requires node in adj0[neighbourNode] || Opposite(direction) !in neighbourNode.reverseNeighbours
    requires Mirrors(adj0) && graph.Valid() && Covered(graph.vertices, adj0)
    modifies graph, node, neighbourNode
    ensures adj == Link(adj0, node, neighbourNode, direction)
    ensures Mirrors(adj) && graph.Valid() && Covered(graph.vertices, adj)
  {
    AddEdgeBetween(graph, node, neighbourNode, direction, adj0);
    adj := Link(adj0, node, neighbourNode, direction);
    LinkKeepsCovered(old(graph.vertices), adj0, node, neighbourNode, direction);
    forall c | c in adj ensures c.Valid() && c.neighbours == adj[c] {
      if c != node && c != neighbourNode {
        LinkElsewhere(adj0, node, neighbourNode, direction, c);
      }
    }
  }

  /** The call to DirectedGraph.AddEdge inside Connect, with only what Connect needs of its effect. */
  method AddEdgeBetween(graph: DirectedGraph, node: Node, neighbourNode: Node, direction: Dir, ghost adj0: Adjacency<Node>)
    requires node != neighbourNode && node in adj0 && neighbourNode in adj0
    requires neighbourNode in adj0[node] || direction !in node.reverseNeighbours
    requires node in adj0[neighbourNode] || Opposite(direction) !in neighbourNode.reverseNeighbours
    requires node.Valid() && node.neighbours == adj0[node] && neighbourNode.Valid() && neighbourNode.neighbours == adj0[neighbourNode]
    requires graph.Valid() && (node in graph.vertices || adj0[node] == map[]) && (neighbourNode in graph.vertices || adj0[neighbourNode] == map[])
    modifies graph, node, neighbourNode
    ensures graph.Valid() && graph.vertices == old(graph.vertices) + {node, neighbourNode}
    ensures node.Valid() && node.neighbours == Link(adj0, node, neighbourNode, direction)[node]
    ensures neighbourNode.Valid() && neighbourNode.neighbours == Link(adj0, node, neighbourNode, direction)[neighbourNode]
  {
    graph.AddEdge(node, neighbourNode, direction);
    LinkEnds(adj0, node, neighbourNode, direction);
  }

  /**
   * The body of Start: spawn the cells, then wire every cell to each of
   * its eight neighbours that lies on the grid.
   */
  method BuildBoard(rows: seq<int>) returns (graph: DirectedGraph, grid: seq<seq<Node>>, spawned: seq<Node>)
    requires IsSquare(rows)
    ensures IsGrid(grid, |rows|) && Injective(grid, |rows|) && spawned == Flatten(grid) && Distinct(spawned)
    ensures graph.Valid()
    ensures forall p, d | InGrid(|rows|, p) && IsOffset(d) :: Linked(grid, |rows|, graph.edges, p, d) <==> InGrid(|rows|, Move(p, d))
    ensures WiredLabels(grid, |rows|, graph.edges)
    ensures graph.vertices == if |rows| >= 2 then Cells(grid, |rows|) else {}
  {
    graph := new DirectedGraph();
    grid, spawned := SpawnGrid(rows);
    ghost var adj := map c | c in Cells(grid, |rows|) :: map[];
    StartWiring(graph, grid, |rows|, adj);
    adj := WireGrid(graph, rows, grid, adj);
    WiringDone(graph, grid, |rows|, adj);
  }

  /**
   * Each cell of the chain was entered from the one before it: its
   * back-link, and a neighbour of it.  The linked cells are among `cells`.
   */
  ghost predicate Path(chain: seq<Node>, cells: set<Node>)
    reads cells
    decreases |chain|
  {
    |chain| <= 1 ||
    (var last, before := chain[|chain| - 1], chain[|chain| - 2];
     last in cells && before in cells && last.previous == before && last in before.neighbours &&
     Path(chain[..|chain| - 1], cells))
  }

  /** A path among some cells is a path among more. */
  lemma {:induction false} PathWider(chain: seq<Node>, cells: set<Node>, more: set<Node>)
    requires Path(chain, cells) && cells <= more
    ensures Path(chain, more)
    decreases |chain|
  {
    if |chain| > 1 {
      PathWider(chain[..|chain| - 1], cells, more);
    }
  }

  /** A path does not need a cell it does not hold. */
  lemma {:induction false} PathWithout(chain: seq<Node>, cells: set<Node>, gone: Node)
    requires Path(chain, cells) && gone !in chain
    ensures Path(chain, cells - {gone})
    decreases |chain|
  {
    if |chain| > 1 {
      var front := chain[..|chain| - 1];
      forall k | 0 <= k < |front| ensures front[k] != gone {
        assert front[k] == chain[k];
      }
      PathWithout(front, cells, gone);
    }
  }

  /** A cell entered from the last cell of a path, and a neighbour of it, extends the path. */
  lemma PathAppend(chain: seq<Node>, cells: set<Node>, node: Node)
    requires Path(chain, cells) && chain != [] && chain[|chain| - 1] in cells
    requires node.previous == chain[|chain| - 1] && node in chain[|chain| - 1].neighbours
    ensures Path(chain + [node], cells + {node})
  {
    PathWider(chain, cells, cells + {node});
    assert (chain + [node])[..|chain|] == chain;
  }

  /** Dropping the last cell of a path leaves a path, which does not need that cell. */
  lemma PathDropLast(chain: seq<Node>, cells: set<Node>)
    requires Path(chain, cells) && chain != [] && chain[|chain| - 1] !in chain[..|chain| - 1]
    ensures Path(chain[..|chain| - 1], cells - {chain[|chain| - 1]})
  {
    if |chain| > 1 {
      PathWithout(chain[..|chain| - 1], cells, chain[|chain| - 1]);
    }
  }

  /**
   * A cell of the path other than its last, to which the last cell links
   * back, is the one before the last; its own back-link is the cell before
   * it, if there is one.
   */
  lemma LinkedBack(chain: seq<Node>, entered: set<Node>, node: Node)
    requires Lists(chain, entered) && Path(chain, entered) && chain != []
    requires node in entered && node != chain[|chain| - 1] && chain[|chain| - 1].previous == node
    ensures |chain| >= 2 && node == chain[|chain| - 2]
    ensures |chain| >= 3 ==> node.previous == chain[|chain| - 3]
  {
    ListsIn(chain, entered, node);
  }

  class GameManager {
    /** The value each cell shows. */
    const valueOf: Node -> int
    var graph: DirectedGraph
    var entered: set<Node>
    var spawned: seq<Node>
    var selected: seq<Node>
    var selectedResult: int
    var first: Node?
    var current: Node?
    var previous: Node?
    /** Every value the selection event has announced, oldest first. */
    var reported: seq<int>
    /** The grid Start builds. */
    ghost var grid: seq<seq<Node>>
    /** The selected cells in the order they were entered, from First to Current. */
    ghost var chain: seq<Node>

    /**
     * While a session is active, `entered` holds exactly the cells of the
     * chain from First to Current, each once and each linked back to the
     * one before by its Previous field, and once the chain has two cells
     * Previous is the cell before Current.  `selected` lists `entered`, the selection sum is the total
     * of the chain's values, and it is the last value announced.
     */
    ghost predicate Valid()
      reads this, entered
    {
      Settled() && Ends()
    }

    /** The cells and the sum: Valid without the three named cells. */
    ghost predicate Settled()
      reads this`chain, this`entered, this`selected, this`selectedResult, this`reported, entered
    {
      Lists(chain, entered) && Path(chain, entered) &&
      Lists(selected, entered) && selectedResult == Total(chain, valueOf) &&
      (reported != [] ==> reported[|reported| - 1] == selectedResult)
    }

    /** First, Current and Previous: the chain's two ends and the cell before Current. */
    ghost predicate Ends()
      reads this`chain, this`first, this`current, this`previous
    {
      (chain == [] ==> first == null && current == null && previous == null) &&
      (chain != [] ==> first == chain[0] && current == chain[|chain| - 1]) &&
      (|chain| >= 2 ==> previous == chain[|chain| - 2])
    }

    /** The selection as a GameState record: its last cell is Current. */
    function State(): GameState
      reads this
    {
      GameState(selectedResult, first, current, previous)
    }

    /** A selection is active in GameState's sense exactly when it has reached a second cell. */
    lemma ActiveOnceExtended()
      requires Valid()
      ensures IsActive(State()) <==> |chain| >= 2
    {
      ListsMeans(chain, entered);
    }

    /**
     * Start: spawn the grid of a square layout of `rows` (row r holds
     * rows[r] cells), then link every cell to each of its eight
     * neighbours that lies on the grid.  No session is active yet.
     */
    constructor (rows: seq<int>, valueOf: Node -> int)
      requires IsSquare(rows)
      ensures Valid() && this.valueOf == valueOf
      ensures first == null && current == null && previous == null && entered == {} && reported == []
      ensures IsGrid(grid, |rows|) && Injective(grid, |rows|) && spawned == Flatten(grid) && Distinct(spawned)
      ensures graph.Valid()
      ensures forall p, d | InGrid(|rows|, p) && IsOffset(d) :: Linked(grid, |rows|, graph.edges, p, d) <==> InGrid(|rows|, Move(p, d))
      ensures WiredLabels(grid, |rows|, graph.edges)
      ensures graph.vertices == if |rows| >= 2 then Cells(grid, |rows|) else {}
    {
      var gr, g, sp := BuildBoard(rows);
      this.valueOf := valueOf;
      graph, grid, spawned := gr, g, sp;
      entered, selected, selectedResult := {}, [], 0;
      first, current, previous := null, null, null;
      reported, chain := [], [];
    }

    /**
     * Lists `entered`, adds up the values of the listed cells and
     * announces the sum.  `path` is the selection as a list, which the
     * caller has already updated.
     */
    method UpdateSelected(ghost path: seq<Node>)
      requires Lists(path, entered)
      modifies this`selected, this`selectedResult, this`reported
      ensures Lists(selected, entered) && selectedResult == Total(path, valueOf)
      ensures reported == old(reported) + [selectedResult]
    {
      var list, sum := ListAndSum(entered, valueOf);
      selected := list;
      TotalSameSet(list, path, entered, valueOf);
      selectedResult := sum;
      reported := reported + [selectedResult];
    }

    /** Pressing a cell starts a session on it, unless one is active. */
    method OnNodeDown(node: Node)
      requires Valid()
      modifies this`first, this`current, this`entered, this`chain, this`selected, this`selectedResult, this`reported
      ensures Valid()
      ensures old(first) != null ==> unchanged(this)
      ensures old(first) == null ==>
                first == node && current == node && previous == null && entered == {node} && chain == [node] &&
                reported == old(reported) + [valueOf(node)]
    {
      if first == null {
        ListsAppend([], {}, node);
        first := node;
        current := node;
        entered := entered + {node};
        chain := [node];
        UpdateSelected(chain);
      }
    }

    /**
     * Releasing ends the session: no first, current or previous cell, an
     * empty selection and a sum of 0.  The cells keep their back-links.
     */
    method OnNodeUp(node: Node)
      requires Valid()
      modifies this`first, this`current, this`previous, this`entered, this`chain, this`selected, this`selectedResult, this`reported
      ensures Valid()
      ensures old(first) == null ==> unchanged(this)
      ensures old(first) != null ==>
                first == null && current == null && previous == null && entered == {} && chain == [] &&
                reported == old(reported) + [0]
    {
      if first != null {
        first := null;
        current := null;
        previous := null;
        entered := {};
        chain := [];
        UpdateSelected(chain);
      }
    }

    /**
     * Hovering over a neighbour of the current cell during a session: a
     * cell not selected yet extends the selection; the cell the current
     * one was entered from takes the selection back one step.  Any other
     * hover changes nothing.
     */
    method OnNodeEnter(node: Node)
      requires Valid()
      modifies this`current, this`previous, this`entered, this`chain, this`selected, this`selectedResult, this`reported,
               {node, current}`previous
      ensures Valid()
      ensures old(first) == null || !old(current.IsNeighbour(node)) ==>
                unchanged(this) && unchanged(node) && (current != null ==> unchanged(current))
      ensures old(first) != null && old(current.IsNeighbour(node)) && node !in old(entered) ==>
                entered == old(entered) + {node} && chain == old(chain) + [node] &&
                node.previous == old(current) && current == node && previous == old(current) && first == old(first) &&
                reported == old(reported) + [old(selectedResult) + valueOf(node)]
      ensures old(first) != null && old(current.IsNeighbour(node)) && node in old(entered) &&
              node != old(current) && old(current.previous) == node ==>
                entered == old(entered) - {old(current)} && chain == old(chain)[..|old(chain)| - 1] &&
                old(current).previous == null && current == node && previous == node.previous && first == old(first) &&
                reported == old(reported) + [old(selectedResult) - valueOf(old(current))]
      ensures old(first) != null && old(current.IsNeighbour(node)) && node in old(entered) &&
              !(node != old(current) && old(current.previous) == node) ==>
                unchanged(this) && unchanged(node) && unchanged(current)
    {
      if first != null {
        if current.IsNeighbour(node) {
          var directionToNeighbour := current.GetDirectionToNeighbour(node);
          if node in entered {
            if node != current && current.previous == node {
              StepBack(node);
            }
          } else {
            Extend(node);
          }
        }
      }
    }

    /** OnNodeEnter on a neighbour of the current cell that is not selected yet: the selection grows by it. */
    method Extend(node: Node)
      requires Valid() && first != null && current.IsNeighbour(node) && node !in entered
      modifies this`current, this`previous, this`entered, this`chain, this`selected, this`selectedResult, this`reported, node`previous
      ensures Valid()
      ensures entered == old(entered) + {node} && chain == old(chain) + [node] &&
              node.previous == old(current) && current == node && previous == old(current) && first == old(first) &&
              reported == old(reported) + [old(selectedResult) + valueOf(node)]
    {
      ghost var c0, e0 := chain, entered;
      Admit(node);
      node.previous := current;
      current := node;
      previous := current.previous;
      assert Path(c0, e0);
      PathAppend(c0, e0, node);
    }

    /** The first half of Extend: `node` joins `entered` and the chain, and the new sum is announced. */
    method Admit(node: Node)
      requires Valid() && chain != [] && node !in entered
      modifies this`entered, this`chain, this`selected, this`selectedResult, this`reported
      ensures entered == old(entered) + {node} && chain == old(chain) + [node] && node !in old(chain)
      ensures Lists(chain, entered) && Lists(selected, entered) && selectedResult == Total(chain, valueOf)
      ensures reported == old(reported) + [old(selectedResult) + valueOf(node)]
    {
      ListsAppend(chain, entered, node);
      ListsIn(chain, entered, node);
      TotalAppend(chain, node, valueOf);
      entered := entered + {node};
      chain := chain + [node];
      UpdateSelected(chain);
    }

    /** OnNodeEnter on the cell the current one was entered from: the current cell leaves the selection. */
    method StepBack(node: Node)
      requires Valid() && first != null && current.IsNeighbour(node) && node in entered
      requires node != current && current.previous == node
      modifies this`current, this`previous, this`entered, this`chain, this`selected, this`selectedResult, this`reported, current`previous
      ensures Valid()
      ensures entered == old(entered) - {old(current)} && chain == old(chain)[..|old(chain)| - 1] &&
              old(current).previous == null && current == node && previous == node.previous && first == old(first) &&
              reported == old(reported) + [old(selectedResult) - valueOf(old(current))]
    {
      LinkedBack(chain, entered, node);
      Withdraw();
      current.previous := null;
      current := node;
      previous := current.previous;
    }

    /** The first half of StepBack: Current leaves `entered` and the chain, and the new sum is announced. */
    method Withdraw()
      requires Valid() && |chain| >= 2
      modifies this`entered, this`chain, this`selected, this`selectedResult, this`reported
      ensures Settled()
      ensures entered == old(entered) - {current} && chain == old(chain)[..|old(chain)| - 1] && current !in chain
      ensures reported == old(reported) + [old(selectedResult) - valueOf(current)]
    {
      ghost var rest := chain[..|chain| - 1];
      ListsDropLast(chain, entered);
      PathDropLast(chain, entered);
      entered := entered - {current};
      chain := rest;
      UpdateSelected(rest);
    }

    /** Leaving a cell does nothing. */
    method OnNodeExit(node: Node)
    {
    }
  }
}
