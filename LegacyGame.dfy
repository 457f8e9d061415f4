/**
 * The game manager of the earlier copy of the game (Assets/GameManager.cs),
 * over the earlier cell (LegacyNodes).  Start spawns and wires the grid as
 * the later version does; the selection rule is different: a cell is taken
 * out of the selection when the pointer leaves it, not when the pointer
 * goes back to the cell before it.
 *
 * A cell's value is the `value` it carries; the UnityEvent that announces
 * the selection sum is the log `reported`, one entry per announcement.
 */
module LegacyGame {
  import opened Directions
  import opened LegacyNodes
  import opened Graphs
  import opened GridWiring
  import opened Sums

  /** A cell as the prefab makes it: the prefab's value, no neighbours, no back-link. */
  ghost predicate Blank(c: Node, value: int)
    reads c
  {
    c.value == value && c.neighbours == map[] && c.previous == null
  }

  /**
   * The first loop of Start: a new cell for every place of the layout, row
   * after row, each appended to Spawned and stored in the grid.
   */
  method SpawnGrid(rows: seq<int>, value: int) returns (grid: seq<seq<Node>>, spawned: seq<Node>)
    requires IsSquare(rows)
    ensures IsGrid(grid, |rows|) && Injective(grid, |rows|)
    ensures spawned == Flatten(grid) && Distinct(spawned)
    ensures forall r, k | 0 <= r < |rows| && 0 <= k < |rows| :: fresh(grid[r][k]) && Blank(grid[r][k], value)
  {
    grid, spawned := [], [];
    ghost var place: map<Node, Pos> := map[];
    var row := 0;
    while row < |rows|
      invariant 0 <= row <= |rows| && |grid| == row
      invariant spawned == Flatten(grid) && Distinct(spawned)
      invariant forall r | 0 <= r < row :: |grid[r]| == |rows|
      invariant forall r, k | 0 <= r < row && 0 <= k < |grid[r]| ::
        fresh(grid[r][k]) && Blank(grid[r][k], value) && grid[r][k] in place && place[grid[r][k]] == Pos(r, k)
    {
      var line: seq<Node> := [];
      var column := 0;
      while column < rows[row]
        invariant 0 <= column <= rows[row] && |line| == column
        invariant spawned == Flatten(grid) + line && Distinct(spawned)
        invariant forall r, k | 0 <= r < row && 0 <= k < |grid[r]| ::
          fresh(grid[r][k]) && Blank(grid[r][k], value) && grid[r][k] in place && place[grid[r][k]] == Pos(r, k)
        invariant forall k | 0 <= k < column ::
          fresh(line[k]) && Blank(line[k], value) && line[k] in place && place[line[k]] == Pos(row, k)
      {
        var node := new Node(value);
        spawned := spawned + [node];
        line := line + [node];
        place := place[node := Pos(row, column)];
        column := column + 1;
      }
      assert Flatten(grid + [line]) == Flatten(grid) + line by {
        assert (grid + [line])[..|grid|] == grid;
      }
      grid := grid + [line];
      row := row + 1;
    }
  }

  /** Every cell of `adj` holds, as its neighbour dictionary, the map `adj` gives it. */
  ghost predicate Holds(adj: Adjacency<Node>)
    reads adj.Keys
  {
    forall c | c in adj :: c.neighbours == adj[c]
  }

  /** The state of the wiring pass at `cur`: it has visited the slots before `cur`, and the cells hold `adj`. */
  ghost predicate Wiring(grid: seq<seq<Node>>, n: int, cur: Cursor, adj: Adjacency<Node>)
    reads adj.Keys
  {
    forall c | c == cur :: Visited(grid, n, c, adj) && Holds(adj)
  }

  /** DirectedGraph.AddNeighbor: `end` becomes a neighbour of `start` unless it is one already. */
  method AddNeighbor(start: Node, end: Node, direction: Dir)
    modifies start`neighbours
    ensures start.neighbours == if end in old(start.neighbours) then old(start.neighbours) else old(start.neighbours)[end := direction]
  {
    if !start.IsNeighbour(end) {
      start.AddEdge(direction, end);
    }
  }

  /**
   * DirectedGraph.AddEdge on two distinct cells: each becomes the other's
   * neighbour, labelled `direction` one way and its opposite the other,
   * as `Link` says; every other cell keeps its dictionary.
   */
  method Connect(node: Node, neighbourNode: Node, direction: Dir, ghost adj0: Adjacency<Node>)
      returns (ghost adj: Adjacency<Node>)
    requires node != neighbourNode && node in adj0 && neighbourNode in adj0 && Holds(adj0)
    modifies node`neighbours, neighbourNode`neighbours
    ensures adj == Link(adj0, node, neighbourNode, direction) && Holds(adj)
  {
    AddNeighbor(node, neighbourNode, direction);
    AddNeighbor(neighbourNode, node, Opposite(direction));
    adj := Link(adj0, node, neighbourNode, direction);
    LinkEnds(adj0, node, neighbourNode, direction);
    forall c | c in adj && c != node && c != neighbourNode ensures c.neighbours == adj[c] {
      LinkElsewhere(adj0, node, neighbourNode, direction, c);
    }
  }

  /** Before the pass: cells without neighbours. */
  lemma StartWiring(grid: seq<seq<Node>>, n: int, adj: Adjacency<Node>)
    requires IsGrid(grid, n) && adj == map c | c in Cells(grid, n) :: map[]
    requires forall c | c in Cells(grid, n) :: c.neighbours == map[]
    ensures Wiring(grid, n, Cursor(0, 0, 0), adj)
  {
    forall p | InGrid(n, p) ensures At(grid, p) in adj && adj[At(grid, p)] == map[] {
      assert At(grid, p) in Cells(grid, n);
    }
    VisitedAtStart(grid, n, adj);
  }

  /** A direction whose target is off the grid adds no edge and moves the pass on. */
  lemma SkipSlot(grid: seq<seq<Node>>, n: int, p: Pos, d: Dir, adj: Adjacency<Node>)
    requires IsGrid(grid, n) && Injective(grid, n) && InGrid(n, p) && IsOffset(d) && !InGrid(n, Move(p, d))
    requires Wiring(grid, n, Cursor(p.row, p.col, Rank(d)), adj)
    ensures Wiring(grid, n, Cursor(p.row, p.col, Rank(d) + 1), adj)
  {
    assert Visited(grid, n, Cursor(p.row, p.col, Rank(d)), adj);
    VisitedSkip(grid, n, p, d, adj);
  }

  /** Before the edge from p towards d is added: the two cells differ and both are cells of the pass. */
  lemma PrepareLink(grid: seq<seq<Node>>, n: int, p: Pos, d: Dir, adj: Adjacency<Node>)
    requires IsGrid(grid, n) && Injective(grid, n) && InGrid(n, p) && IsOffset(d) && InGrid(n, Move(p, d))
    requires Wiring(grid, n, Cursor(p.row, p.col, Rank(d)), adj)
    ensures At(grid, p) != At(grid, Move(p, d)) && At(grid, p) in adj && At(grid, Move(p, d)) in adj
    ensures Visited(grid, n, Cursor(p.row, p.col, Rank(d)), adj) && Holds(adj)
  {
    var cur := Cursor(p.row, p.col, Rank(d));
    assert Visited(grid, n, cur, adj);
    assert Wired(grid, n, cur, adj);
    assert p != Move(p, d);
  }

  /** The last direction of a cell done, the pass moves to the next column. */
  lemma NextCell(grid: seq<seq<Node>>, n: int, row: int, col: int, adj: Adjacency<Node>)
    requires IsGrid(grid, n) && Wiring(grid, n, Cursor(row, col, |Eight|), adj)
    ensures Wiring(grid, n, Cursor(row, col + 1, 0), adj)
  {
    assert Visited(grid, n, Cursor(row, col, |Eight|), adj);
    VisitedNextCell(grid, n, row, col, adj);
  }

  /** The last column of a row done, the pass moves to the next row. */
  lemma NextLine(grid: seq<seq<Node>>, n: int, row: int, adj: Adjacency<Node>)
    requires IsGrid(grid, n) && Wiring(grid, n, Cursor(row, n, 0), adj)
    ensures Wiring(grid, n, Cursor(row + 1, 0, 0), adj)
  {
    assert Visited(grid, n, Cursor(row, n, 0), adj);
    VisitedNextLine(grid, n, row, adj);
  }

  /**
   * After the pass: the cell at p has the cell one step d away as a
   * neighbour, labelled d, exactly when that cell is on the grid, and
   * every label leads to its neighbour.
   */
  lemma WiringDone(grid: seq<seq<Node>>, n: int, adj: Adjacency<Node>)
    requires IsGrid(grid, n) && Wiring(grid, n, Cursor(n, 0, 0), adj)
    ensures Holds(adj)
    ensures forall p, d | InGrid(n, p) && IsOffset(d) :: Linked(grid, n, adj, p, d) <==> InGrid(n, Move(p, d))
    ensures WiredLabels(grid, n, adj)
  {
    var cur := Cursor(n, 0, 0);
    assert Visited(grid, n, cur, adj);
    assert Wired(grid, n, cur, adj);
    WiredComplete(grid, n, adj);
  }

  /** The nested loops of Start over rows and columns, wiring every cell. */
  method WireGrid(rows: seq<int>, grid: seq<seq<Node>>, ghost adj0: Adjacency<Node>) returns (ghost adj: Adjacency<Node>)
    requires IsSquare(rows) && IsGrid(grid, |rows|) && Injective(grid, |rows|)
    requires Wiring(grid, |rows|, Cursor(0, 0, 0), adj0)
    modifies adj0.Keys`neighbours
    ensures adj.Keys == adj0.Keys && Wiring(grid, |rows|, Cursor(|rows|, 0, 0), adj)
  {
    adj := adj0;
    var row := 0;
    while row < |rows|
      invariant 0 <= row <= |rows| && adj.Keys == adj0.Keys
      invariant Wiring(grid, |rows|, Cursor(row, 0, 0), adj)
    {
      var column := 0;
      while column < rows[row]
        invariant 0 <= column <= rows[row] && adj.Keys == adj0.Keys
        invariant Wiring(grid, |rows|, Cursor(row, column, 0), adj)
      {
        adj := WireCell(rows, grid, row, column, adj);
        NextCell(grid, |rows|, row, column, adj);
        column := column + 1;
      }
      NextLine(grid, |rows|, row, adj);
      row := row + 1;
    }
  }

  /** The eight directions of one cell: the `foreach` over `directions` in Start. */
  method WireCell(rows: seq<int>, grid: seq<seq<Node>>, row: int, column: int, ghost adj0: Adjacency<Node>)
      returns (ghost adj: Adjacency<Node>)
    requires IsSquare(rows) && IsGrid(grid, |rows|) && Injective(grid, |rows|) && InGrid(|rows|, Pos(row, column))
    requires Wiring(grid, |rows|, Cursor(row, column, 0), adj0)
    modifies adj0.Keys`neighbours
    ensures adj.Keys == adj0.Keys && Wiring(grid, |rows|, Cursor(row, column, |Eight|), adj)
  {
    adj := adj0;
    var i := 0;
    while i < |Eight|
      invariant 0 <= i <= |Eight| && adj.Keys == adj0.Keys
      invariant Wiring(grid, |rows|, Cursor(row, column, i), adj)
    {
      var direction := Eight[i];
      RankOfEight(i);
      adj := WireSlot(rows, grid, row, column, direction, adj);
      i := i + 1;
    }
  }

  /** One direction of one cell: the bounds test and, inside the grid, DirectedGraph.AddEdge. */
  method WireSlot(rows: seq<int>, grid: seq<seq<Node>>, row: int, column: int, direction: Dir, ghost adj0: Adjacency<Node>)
      returns (ghost adj: Adjacency<Node>)
    requires IsSquare(rows) && IsGrid(grid, |rows|) && Injective(grid, |rows|) && InGrid(|rows|, Pos(row, column))
    requires IsOffset(direction) && Wiring(grid, |rows|, Cursor(row, column, Rank(direction)), adj0)
    modifies adj0.Keys`neighbours
    ensures adj.Keys == adj0.Keys && Wiring(grid, |rows|, Cursor(row, column, Rank(direction) + 1), adj)
  {
    var p := Pos(row, column);
    var insideGrid := InsideGrid(rows, row, column, direction);
    if insideGrid {
      var node := At(grid, p);
      var neighbourNode := At(grid, Move(p, direction));
      PrepareLink(grid, |rows|, p, direction, adj0);
      adj := Connect(node, neighbourNode, direction, adj0);
      VisitedLink(grid, |rows|, p, direction, adj0, adj);
    } else {
      adj := adj0;
      SkipSlot(grid, |rows|, p, direction, adj);
    }
  }

  /**
   * The body of Start: spawn the cells, then wire every cell to each of
   * its eight neighbours that lies on the grid.
   */
  method BuildBoard(rows: seq<int>, value: int) returns (grid: seq<seq<Node>>, spawned: seq<Node>, ghost adj: Adjacency<Node>)
    requires IsSquare(rows)
    ensures IsGrid(grid, |rows|) && Injective(grid, |rows|) && spawned == Flatten(grid) && Distinct(spawned)
    ensures adj.Keys == Cells(grid, |rows|) && Holds(adj)
    ensures forall p, d | InGrid(|rows|, p) && IsOffset(d) :: Linked(grid, |rows|, adj, p, d) <==> InGrid(|rows|, Move(p, d))
    ensures WiredLabels(grid, |rows|, adj)
    ensures forall c | c in Cells(grid, |rows|) :: c.value == value && c.previous == null
  {
    grid, spawned := SpawnGrid(rows, value);
    adj := map c | c in Cells(grid, |rows|) :: map[];
    StartWiring(grid, |rows|, adj);
    adj := WireGrid(rows, grid, adj);
    WiringDone(grid, |rows|, adj);
  }

  class GameManager {
    var entered: set<Node>
    var spawned: seq<Node>
    var selected: seq<Node>
    var selectedResult: int
    var first: Node?
    var current: Node?
    /** The sums announced through OnSelectedResultUpdate, oldest first. */
    var reported: seq<int>
    ghost var grid: seq<seq<Node>>
    /** The neighbour dictionaries Start gave the cells. */
    ghost var edges: Adjacency<Node>

    /**
     * Between events: no cell is entered while no selection is running,
     * the first cell of a running selection is entered, and so is its
     * current cell when it has one.
     */
    ghost predicate Valid()
      reads this
    {
      (first == null ==> entered == {}) &&
      (first != null ==> first in entered) &&
      (first != null && current != null ==> current in entered)
    }

    /** Start: the wired grid of `rows` cells each carrying the prefab's value, and no selection. */
    constructor (rows: seq<int>, prefabValue: int)
      requires IsSquare(rows)
      ensures Valid() && first == null && current == null && entered == {} && selected == [] && reported == []
      ensures IsGrid(grid, |rows|) && Injective(grid, |rows|) && spawned == Flatten(grid) && Distinct(spawned)
      ensures edges.Keys == Cells(grid, |rows|) && Holds(edges)
      ensures forall p, d | InGrid(|rows|, p) && IsOffset(d) :: Linked(grid, |rows|, edges, p, d) <==> InGrid(|rows|, Move(p, d))
      ensures WiredLabels(grid, |rows|, edges)
      ensures forall c | c in Cells(grid, |rows|) :: c.value == prefabValue && c.previous == null
    {
      var g, sp, adj := BuildBoard(rows, prefabValue);
      grid, spawned, edges := g, sp, adj;
      entered, selected, selectedResult := {}, [], 0;
      first, current := null, null;
      reported := [];
    }

    /**
     * Lists the entered cells, adds up their values and announces the sum,
     * which does not depend on the order of the list.
     */
    method UpdateSelected()
      modifies this`selected, this`selectedResult, this`reported
      ensures Lists(selected, entered) && reported == old(reported) + [selectedResult]
      ensures forall xs | Lists(xs, entered) :: Total(xs, Value) == selectedResult
    {
      var list, sum := ListAndSum(entered, Value);
      selected := list;
      selectedResult := sum;
      reported := reported + [sum];
    }

    /** Pointer down: starts a selection at `node` unless one is running. */
    method OnNodeDown(node: Node)
      requires Valid()
      modifies this`first, this`current, this`entered, this`selected, this`selectedResult, this`reported
      ensures Valid()
      ensures old(first) != null ==> unchanged(this)
      ensures old(first) == null ==>
        first == node && current == node && entered == {node} &&
        selected == [node] && reported == old(reported) + [node.value]
    {
      if first == null {
        first := node;
        current := node;
        entered := entered + {node};
        UpdateSelected();
        ListsAppend([], {}, node);
        assert Lists([] + [node], {} + {node});
        assert Total([node], Value) == node.value;
        ListsDropLast(selected, entered);
      }
    }

    /** Pointer up: ends a running selection; the current cell is left as it was. */
    method OnNodeUp(node: Node)
      requires Valid()
      modifies this`first, this`entered, this`selected, this`selectedResult, this`reported
      ensures Valid()
      ensures old(first) == null ==> unchanged(this)
      ensures old(first) != null ==>
        first == null && current == old(current) && entered == {} &&
        selected == [] && reported == old(reported) + [0]
    {
      if first != null {
        first := null;
        entered := {};
        UpdateSelected();
        assert Lists([], entered);
      }
    }

    /**
     * Pointer enters `node` during a selection: with no current cell the
     * node is entered at once; otherwise it becomes the current cell if it
     * is a neighbour of it.  The sum is announced next, and only then is
     * the node entered in every case, so a new node entered next to a
     * current cell is not in the announced sum.
     */
    method OnNodeEnter(node: Node)
      requires Valid()
      modifies this`current, this`entered, this`selected, this`selectedResult, this`reported
      ensures Valid()
      ensures old(first) == null ==> unchanged(this)
      ensures old(first) != null ==> first == old(first) && entered == old(entered) + {node}
      ensures old(first) != null ==>
        current == (if old(current) == null then null
                    else if old(current.IsNeighbour(node)) then node
                    else old(current))
      ensures old(first) != null ==>
        var counted := if old(current) == null then old(entered) + {node} else old(entered);
        Lists(selected, counted) && reported == old(reported) + [selectedResult] &&
        (forall xs | Lists(xs, counted) :: Total(xs, Value) == selectedResult)
      ensures old(first) != null && old(current) != null && node !in old(entered) ==> node !in selected
    {
      if first != null {
        if current == null {
          entered := entered + {node};
        } else if current.IsNeighbour(node) {
          current := node;
        }
        UpdateSelected();
        if node !in entered {
          ListsIn(selected, entered, node);
        }
        entered := entered + {node};
      }
    }

    /**
     * Pointer leaves `node`: when it is the current cell of a running
     * selection, not its first cell, and entered, it is taken out, the
     * selection has no current cell, and the sum is announced.  Any other
     * exit changes nothing.
     */
    method OnNodeExit(node: Node)
      requires Valid()
      modifies this`current, this`entered, this`selected, this`selectedResult, this`reported
      ensures Valid()
      ensures old(first != null && node != first && current == node && node in entered) ==>
        first == old(first) && current == null && entered == old(entered) - {node} &&
        Lists(selected, entered) && reported == old(reported) + [selectedResult] &&
        (forall xs | Lists(xs, entered) :: Total(xs, Value) == selectedResult)
      ensures !old(first != null && node != first && current == node && node in entered) ==> unchanged(this)
    {
      if first != null && node != first && current == node {
        if node in entered {
          entered := entered - {node};
          current := null;
          UpdateSelected();
        }
      }
    }
  }
}
