/**
 * The neighbour-wiring pass of GameManager.Start (Assets/Scripts/GameManager.cs),
 * as values.
 *
 * The pass visits the cells row by row, column by column, and for each cell
 * the eight directions in the order of `Eight`.  For every in-grid target
 * it calls DirectedGraph.AddEdge, which links both ends unless they are
 * linked already.  `Wired(grid, n, cur, adj)` describes the adjacency after
 * every step before the cursor `cur` has run; the lemmas below carry it from
 * the empty start to the end of the pass.
 *
 * The bounds test of the source compares the column of the target with the
 * length of the row whose index is the cell's *column*.  `InsideGrid` keeps
 * that test as written; it is only right on square layouts, so the wiring
 * results assume one.
 */
module GridWiring {
  import opened Directions
  import opened Nodes
  import opened Graphs

  /** A cell position: row index and column index. */
  datatype Pos = Pos(row: int, col: int)

  /** The next step of the pass: the cell (row, col) and the index of its next direction. */
  datatype Cursor = Cursor(row: int, col: int, k: int)

  /** `new Vector2(column, row) + direction`: x moves the column, y the row. */
  function Move(p: Pos, d: Dir): (r: Pos)
    ensures r == p <==> d == Zero
  {
    Pos(p.row + d.y, p.col + d.x)
  }

  /** Moving back in the opposite direction returns to the starting cell. */
  lemma MoveUndone(p: Pos, d: Dir)
    ensures Move(Move(p, d), Opposite(d)) == p
  {
  }

  predicate InGrid(n: int, p: Pos) {
    0 <= p.row < n && 0 <= p.col < n
  }

  /** Row `r` of the layout holds `rows[r]` cells; a square layout has as many rows as columns. */
  predicate IsSquare(rows: seq<int>) {
    forall r | 0 <= r < |rows| :: rows[r] == |rows|
  }

  /**
   * The bounds test of the wiring loop, as written: the column of the target
   * is checked against the length of row number `column`.  When the target
   * column is not negative the source reads that row, hence the precondition
   * (a row list shorter than the cell's column makes the source throw).
   */
  function InsideGrid(rows: seq<int>, row: int, column: int, d: Dir): (r: bool)
    requires column + d.x >= 0 ==> 0 <= column < |rows|
    ensures IsSquare(rows) ==> (r <==> InGrid(|rows|, Move(Pos(row, column), d)))
  {
    var x, y := column + d.x, row + d.y;
    x >= 0 && x < rows[column] && y >= 0 && y < |rows|
  }

  /**
   * Rows of two and one cells: from cell (0, 0) direction (1, 1) passes the
   * test although row 1 has no column 1.
   */
  lemma JaggedLayoutAdmitsMissingCell()
    ensures var rows := [2, 1];
      InsideGrid(rows, 0, 0, Dir(1, 1)) && !(1 < rows[1])
  {
  }

  /**
   * One row of three cells: the test at cell (0, 1), direction (-1, -1),
   * would read row 1 of a one-row layout.
   */
  lemma WideLayoutReadsMissingRow()
    ensures var rows, d := [3], Dir(-1, -1);
      1 < rows[0] && 1 + d.x >= 0 && !(1 < |rows|)
  {
  }

  /** `grid` is an n by n array of cells. */
  predicate IsGrid<T>(grid: seq<seq<T>>, n: int) {
    |grid| == n && forall r | 0 <= r < n :: |grid[r]| == n
  }

  function At<T>(grid: seq<seq<T>>, p: Pos): T
    requires 0 <= p.row < |grid| && 0 <= p.col < |grid[p.row]|
  {
    grid[p.row][p.col]
  }

  /** No cell appears at two positions. */
  ghost predicate Injective<T>(grid: seq<seq<T>>, n: int)
    requires IsGrid(grid, n)
  {
    forall p, q | InGrid(n, p) && InGrid(n, q) && At(grid, p) == At(grid, q) :: p == q
  }

  /** The cells of the grid. */
  function Cells<T>(grid: seq<seq<T>>, n: int): set<T>
    requires IsGrid(grid, n)
  {
    set r, c | 0 <= r < n && 0 <= c < n :: grid[r][c]
  }

  /** The cells row after row, in the order the source appends them to `Spawned`. */
  function Flatten<T>(grid: seq<seq<T>>): seq<T> {
    if grid == [] then [] else Flatten(grid[..|grid| - 1]) + grid[|grid| - 1]
  }

  /** The pass has run the step of cell p towards d before reaching cursor `cur`. */
  predicate Done(p: Pos, d: Dir, cur: Cursor) {
    p.row < cur.row || (p.row == cur.row && (p.col < cur.col || (p.col == cur.col && Rank(d) < cur.k)))
  }

  /** The cell at p is linked to the cell one step d away, with d as the label. */
  ghost predicate Linked<T>(grid: seq<seq<T>>, n: int, adj: Adjacency<T>, p: Pos, d: Dir)
    requires IsGrid(grid, n) && InGrid(n, p)
  {
    var q := Move(p, d);
    InGrid(n, q) && At(grid, p) in adj && At(grid, q) in adj[At(grid, p)] && adj[At(grid, p)][At(grid, q)] == d
  }

  /** Slot (p, d) is linked exactly when its target is on the grid and the pass has visited it from either end. */
  ghost predicate SlotState<T>(grid: seq<seq<T>>, n: int, cur: Cursor, adj: Adjacency<T>, p: Pos, d: Dir)
    requires IsGrid(grid, n) && InGrid(n, p)
  {
    Linked(grid, n, adj, p, d) <==>
      InGrid(n, Move(p, d)) && (Done(p, d, cur) || Done(Move(p, d), Opposite(d), cur))
  }

  /** The label recorded for neighbour w of the cell at p is a direction that leads from p to w. */
  ghost predicate LabelLeads<T>(grid: seq<seq<T>>, n: int, adj: Adjacency<T>, p: Pos, w: T)
    requires IsGrid(grid, n) && InGrid(n, p) && At(grid, p) in adj && w in adj[At(grid, p)]
  {
    var d := adj[At(grid, p)][w];
    IsOffset(d) && InGrid(n, Move(p, d)) && At(grid, Move(p, d)) == w
  }

  /** Every cell has a map. */
  ghost predicate WiredKeys<T>(grid: seq<seq<T>>, n: int, adj: Adjacency<T>)
    requires IsGrid(grid, n)
  {
    forall p | InGrid(n, p) :: At(grid, p) in adj
  }

  /** Every slot is linked exactly when the pass has visited it from either end. */
  ghost predicate WiredSlots<T>(grid: seq<seq<T>>, n: int, cur: Cursor, adj: Adjacency<T>)
    requires IsGrid(grid, n)
  {
    forall p, d | InGrid(n, p) && IsOffset(d) :: SlotState(grid, n, cur, adj, p, d)
  }

  /** No cell has a neighbour other than the ones its labels lead to. */
  ghost predicate WiredLabels<T>(grid: seq<seq<T>>, n: int, adj: Adjacency<T>)
    requires IsGrid(grid, n)
  {
    forall p, w | InGrid(n, p) && At(grid, p) in adj && w in adj[At(grid, p)] :: LabelLeads(grid, n, adj, p, w)
  }

  /** The adjacency after every step before `cur`. */
  ghost predicate Wired<T>(grid: seq<seq<T>>, n: int, cur: Cursor, adj: Adjacency<T>)
    requires IsGrid(grid, n)
  {
    WiredKeys(grid, n, adj) && WiredSlots(grid, n, cur, adj) && WiredLabels(grid, n, adj)
  }

  /** Before the first step every cell has an empty map. */
  lemma {:induction false} WiredAtStart<T>(grid: seq<seq<T>>, n: int, adj: Adjacency<T>)
    requires IsGrid(grid, n)
    requires forall p | InGrid(n, p) :: At(grid, p) in adj && adj[At(grid, p)] == map[]
    ensures Wired(grid, n, Cursor(0, 0, 0), adj)
  {
    forall p, d | InGrid(n, p) && IsOffset(d)
      ensures SlotState(grid, n, Cursor(0, 0, 0), adj, p, d)
    {
      assert !Linked(grid, n, adj, p, d);
    }
  }

  /** A label determines the neighbour: a cell's only neighbour labelled d is the cell one step d away. */
  lemma {:induction false} LabelDeterminesNeighbour<T>(grid: seq<seq<T>>, n: int, adj: Adjacency<T>, p: Pos, d: Dir, w: T)
    requires IsGrid(grid, n) && WiredLabels(grid, n, adj) && InGrid(n, p) && At(grid, p) in adj
    requires w in adj[At(grid, p)] && adj[At(grid, p)][w] == d
    ensures InGrid(n, Move(p, d)) && w == At(grid, Move(p, d))
  {
    assert LabelLeads(grid, n, adj, p, w);
  }

  /**
   * One step of the pass: cell p, direction d.  With the target off the grid
   * nothing is linked; otherwise AddEdge links cell and target, and the
   * invariant moves on to the next direction.
   */
  lemma {:induction false} WiredStep<T>(grid: seq<seq<T>>, n: int, p: Pos, d: Dir, adj: Adjacency<T>)
    requires IsGrid(grid, n) && Injective(grid, n) && InGrid(n, p) && IsOffset(d)
    requires Wired(grid, n, Cursor(p.row, p.col, Rank(d)), adj)
    ensures !InGrid(n, Move(p, d)) ==> Wired(grid, n, Cursor(p.row, p.col, Rank(d) + 1), adj)
    ensures InGrid(n, Move(p, d)) ==>
      Wired(grid, n, Cursor(p.row, p.col, Rank(d) + 1), Link(adj, At(grid, p), At(grid, Move(p, d)), d))
  {
    if !InGrid(n, Move(p, d)) {
      SkipKeepsSlots(grid, n, p, d, adj);
    } else {
      var q := Move(p, d);
      var a, b := At(grid, p), At(grid, q);
      assert a != b;
      var ra := if b in adj[a] then adj[a] else adj[a][b := d];
      var rb := if a in adj[b] then adj[b] else adj[b][a := Opposite(d)];
      if b in adj[a] {
        LabelDeterminesNeighbour(grid, n, adj, p, adj[a][b], b);
      }
      if a in adj[b] {
        LabelDeterminesNeighbour(grid, n, adj, q, adj[b][a], a);
      }
      var r := adj[a := ra][b := rb];
      assert Link(adj, a, b, d) == r;
      LinkSetsSlots(grid, n, p, d, adj, ra, rb, r);
      LinkKeepsLabels(grid, n, p, d, adj, ra, rb, r);
    }
  }

  /** A step whose target is off the grid links nothing and leaves every slot as it was. */
  lemma {:induction false} SkipKeepsSlots<T>(grid: seq<seq<T>>, n: int, p: Pos, d: Dir, adj: Adjacency<T>)
    requires IsGrid(grid, n) && InGrid(n, p) && IsOffset(d) && !InGrid(n, Move(p, d))
    requires WiredSlots(grid, n, Cursor(p.row, p.col, Rank(d)), adj)
    ensures WiredSlots(grid, n, Cursor(p.row, p.col, Rank(d) + 1), adj)
  {
    forall p', d' | InGrid(n, p') && IsOffset(d')
      ensures SlotState(grid, n, Cursor(p.row, p.col, Rank(d) + 1), adj, p', d')
    {
      assert SlotState(grid, n, Cursor(p.row, p.col, Rank(d)), adj, p', d');
      RankInjective(d, d');
      RankInjective(d, Opposite(d'));
    }
  }

  /** After a linking step every slot is as the next cursor says. */
  lemma {:induction false} LinkSetsSlots<T>(grid: seq<seq<T>>, n: int, p: Pos, d: Dir, adj: Adjacency<T>,
                                            ra: map<T, Dir>, rb: map<T, Dir>, r: Adjacency<T>)
    requires IsGrid(grid, n) && Injective(grid, n) && InGrid(n, p) && IsOffset(d) && InGrid(n, Move(p, d))
    requires WiredKeys(grid, n, adj) && WiredSlots(grid, n, Cursor(p.row, p.col, Rank(d)), adj)
    requires var a, b := At(grid, p), At(grid, Move(p, d));
      a != b && b in ra && ra[b] == d && a in rb && rb[a] == Opposite(d) &&
      (forall w | w != b :: (w in ra <==> w in adj[a]) && (w in ra ==> ra[w] == adj[a][w])) &&
      (forall w | w != a :: (w in rb <==> w in adj[b]) && (w in rb ==> rb[w] == adj[b][w])) &&
      r == adj[a := ra][b := rb]
    ensures WiredSlots(grid, n, Cursor(p.row, p.col, Rank(d) + 1), r)
  {
    var q := Move(p, d);
    var a, b := At(grid, p), At(grid, q);
    forall p', d' | InGrid(n, p') && IsOffset(d')
      ensures SlotState(grid, n, Cursor(p.row, p.col, Rank(d) + 1), r, p', d')
    {
      assert SlotState(grid, n, Cursor(p.row, p.col, Rank(d)), adj, p', d');
      var q' := Move(p', d');
      if p' == p && d' == d {
        SlotOfLink(grid, n, p, d, r);
      } else if p' == q && d' == Opposite(d) {
        SlotOfLink(grid, n, q, d', r);
      } else {
        var x := At(grid, p');
        assert x in adj;
        assert r[x] == if x == b then rb else if x == a then ra else adj[x];
        if InGrid(n, q') {
          var y := At(grid, q');
          assert x == a ==> y != b;
          assert x == b ==> y != a;
        }
        SlotUntouched(grid, n, p, d, adj, r, p', d');
      }
    }
  }

  /** The slot a step has just linked. */
  lemma {:induction false} SlotOfLink<T>(grid: seq<seq<T>>, n: int, p: Pos, d: Dir, r: Adjacency<T>)
    requires IsGrid(grid, n) && InGrid(n, p) && IsOffset(d) && InGrid(n, Move(p, d))
    requires At(grid, p) in r && At(grid, Move(p, d)) in r[At(grid, p)] && r[At(grid, p)][At(grid, Move(p, d))] == d
    ensures forall cur: Cursor | Done(p, d, cur) || Done(Move(p, d), Opposite(d), cur) :: SlotState(grid, n, cur, r, p, d)
  {
  }

  /** A slot other than the linked one and its mirror keeps its state when the cursor moves on. */
  lemma {:induction false} SlotUntouched<T>(grid: seq<seq<T>>, n: int, p: Pos, d: Dir, adj: Adjacency<T>, r: Adjacency<T>, p': Pos, d': Dir)
    requires IsGrid(grid, n) && InGrid(n, p) && IsOffset(d) && InGrid(n, p') && IsOffset(d')
    requires !(p' == p && d' == d) && !(p' == Move(p, d) && d' == Opposite(d))
    requires At(grid, p') in adj <==> At(grid, p') in r
    requires At(grid, p') in adj && InGrid(n, Move(p', d')) ==>
      var x, y := At(grid, p'), At(grid, Move(p', d'));
      (y in r[x] <==> y in adj[x]) && (y in r[x] ==> r[x][y] == adj[x][y])
    requires SlotState(grid, n, Cursor(p.row, p.col, Rank(d)), adj, p', d')
    ensures SlotState(grid, n, Cursor(p.row, p.col, Rank(d) + 1), r, p', d')
  {
    RankInjective(d, d');
    RankInjective(d, Opposite(d'));
  }

  /** After a linking step every label still leads to its neighbour. */
  lemma {:induction false} LinkKeepsLabels<T>(grid: seq<seq<T>>, n: int, p: Pos, d: Dir, adj: Adjacency<T>,
                                              ra: map<T, Dir>, rb: map<T, Dir>, r: Adjacency<T>)
    requires IsGrid(grid, n) && Injective(grid, n) && InGrid(n, p) && IsOffset(d) && InGrid(n, Move(p, d))
    requires WiredKeys(grid, n, adj) && WiredLabels(grid, n, adj)
    requires var a, b := At(grid, p), At(grid, Move(p, d));
      a != b && b in ra && ra[b] == d && a in rb && rb[a] == Opposite(d) &&
      (forall w | w != b :: (w in ra <==> w in adj[a]) && (w in ra ==> ra[w] == adj[a][w])) &&
      (forall w | w != a :: (w in rb <==> w in adj[b]) && (w in rb ==> rb[w] == adj[b][w])) &&
      r == adj[a := ra][b := rb]
    ensures WiredKeys(grid, n, r) && WiredLabels(grid, n, r)
  {
    var q := Move(p, d);
    var a, b := At(grid, p), At(grid, q);
    forall p', w | InGrid(n, p') && At(grid, p') in r && w in r[At(grid, p')]
      ensures LabelLeads(grid, n, r, p', w)
    {
      var x := At(grid, p');
      if x == a && w == b {
      } else if x == b && w == a {
      } else if x == a {
        assert p' == p && LabelLeads(grid, n, adj, p', w);
      } else if x == b {
        assert p' == q && LabelLeads(grid, n, adj, p', w);
      } else {
        assert LabelLeads(grid, n, adj, p', w);
      }
    }
  }

  /** After the eighth direction of a cell the pass moves on to the next column. */
  lemma {:induction false} NextColumn<T>(grid: seq<seq<T>>, n: int, row: int, col: int, adj: Adjacency<T>)
    requires IsGrid(grid, n) && Wired(grid, n, Cursor(row, col, |Eight|), adj)
    ensures Wired(grid, n, Cursor(row, col + 1, 0), adj)
  {
    forall p, d | InGrid(n, p) && IsOffset(d)
      ensures SlotState(grid, n, Cursor(row, col + 1, 0), adj, p, d)
    {
      assert SlotState(grid, n, Cursor(row, col, |Eight|), adj, p, d);
      RankInjective(d, d);
      RankInjective(Opposite(d), Opposite(d));
    }
  }

  /** After the last column of a row the pass moves on to the next row. */
  lemma {:induction false} NextRow<T>(grid: seq<seq<T>>, n: int, row: int, adj: Adjacency<T>)
    requires IsGrid(grid, n) && Wired(grid, n, Cursor(row, n, 0), adj)
    ensures Wired(grid, n, Cursor(row + 1, 0, 0), adj)
  {
    forall p, d | InGrid(n, p) && IsOffset(d)
      ensures SlotState(grid, n, Cursor(row + 1, 0, 0), adj, p, d)
    {
      assert SlotState(grid, n, Cursor(row, n, 0), adj, p, d);
    }
  }

  /**
   * The pass has visited every slot before `cur`: the slots it visited are
   * linked in `adj` and every label leads to its neighbour.  Stated for the
   * one cursor `c == cur` so that a proof takes it apart only where a step
   * needs it.
   */
  ghost predicate Visited<T>(grid: seq<seq<T>>, n: int, cur: Cursor, adj: Adjacency<T>) {
    forall c | c == cur :: IsGrid(grid, n) && Wired(grid, n, c, adj)
  }

  /** Before the pass every cell has an empty map, and no slot has been visited. */
  lemma VisitedAtStart<T>(grid: seq<seq<T>>, n: int, adj: Adjacency<T>)
    requires IsGrid(grid, n)
    requires forall p | InGrid(n, p) :: At(grid, p) in adj && adj[At(grid, p)] == map[]
    ensures Visited(grid, n, Cursor(0, 0, 0), adj)
  {
    WiredAtStart(grid, n, adj);
  }

  /** A direction whose target is off the grid adds no edge and moves the pass on. */
  lemma VisitedSkip<T>(grid: seq<seq<T>>, n: int, p: Pos, d: Dir, adj: Adjacency<T>)
    requires IsGrid(grid, n) && Injective(grid, n) && InGrid(n, p) && IsOffset(d) && !InGrid(n, Move(p, d))
    requires Visited(grid, n, Cursor(p.row, p.col, Rank(d)), adj)
    ensures Visited(grid, n, Cursor(p.row, p.col, Rank(d) + 1), adj)
  {
    assert Wired(grid, n, Cursor(p.row, p.col, Rank(d)), adj);
    WiredStep(grid, n, p, d, adj);
  }

  /** After the edge from p towards d is added as `Link` says, the pass moves on. */
  lemma VisitedLink<T>(grid: seq<seq<T>>, n: int, p: Pos, d: Dir, adj0: Adjacency<T>, adj: Adjacency<T>)
    requires IsGrid(grid, n) && Injective(grid, n) && InGrid(n, p) && IsOffset(d) && InGrid(n, Move(p, d))
    requires Visited(grid, n, Cursor(p.row, p.col, Rank(d)), adj0)
    requires At(grid, p) in adj0 && At(grid, Move(p, d)) in adj0
    requires adj == Link(adj0, At(grid, p), At(grid, Move(p, d)), d)
    ensures Visited(grid, n, Cursor(p.row, p.col, Rank(d) + 1), adj)
  {
    assert Wired(grid, n, Cursor(p.row, p.col, Rank(d)), adj0);
    WiredStep(grid, n, p, d, adj0);
  }

  /** The last direction of a cell done, the pass moves to the next column. */
  lemma VisitedNextCell<T>(grid: seq<seq<T>>, n: int, row: int, col: int, adj: Adjacency<T>)
    requires IsGrid(grid, n) && Visited(grid, n, Cursor(row, col, |Eight|), adj)
    ensures Visited(grid, n, Cursor(row, col + 1, 0), adj)
  {
    assert Wired(grid, n, Cursor(row, col, |Eight|), adj);
    NextColumn(grid, n, row, col, adj);
  }

  /** The last column of a row done, the pass moves to the next row. */
  lemma VisitedNextLine<T>(grid: seq<seq<T>>, n: int, row: int, adj: Adjacency<T>)
    requires IsGrid(grid, n) && Visited(grid, n, Cursor(row, n, 0), adj)
    ensures Visited(grid, n, Cursor(row + 1, 0, 0), adj)
  {
    assert Wired(grid, n, Cursor(row, n, 0), adj);
    NextRow(grid, n, row, adj);
  }

  /**
   * At the end of the pass the cell at p is linked to the cell one step d
   * away, labelled d, exactly when that cell is on the grid.
   */
  lemma {:induction false} WiredComplete<T>(grid: seq<seq<T>>, n: int, adj: Adjacency<T>)
    requires IsGrid(grid, n) && Wired(grid, n, Cursor(n, 0, 0), adj)
    ensures forall p, d | InGrid(n, p) && IsOffset(d) :: Linked(grid, n, adj, p, d) <==> InGrid(n, Move(p, d))
  {
    forall p, d | InGrid(n, p) && IsOffset(d)
      ensures Linked(grid, n, adj, p, d) <==> InGrid(n, Move(p, d))
    {
      assert SlotState(grid, n, Cursor(n, 0, 0), adj, p, d);
    }
  }

  /** On a grid of at least two by two every cell ends the pass with a neighbour. */
  lemma {:induction false} EveryCellLinked<T>(grid: seq<seq<T>>, n: int, adj: Adjacency<T>)
    requires IsGrid(grid, n) && Wired(grid, n, Cursor(n, 0, 0), adj) && n >= 2
    ensures forall p | InGrid(n, p) :: At(grid, p) in adj && adj[At(grid, p)] != map[]
  {
    forall p | InGrid(n, p)
      ensures At(grid, p) in adj && adj[At(grid, p)] != map[]
    {
      var d := if p.col + 1 < n then Dir(1, 0) else Dir(-1, 0);
      assert SlotState(grid, n, Cursor(n, 0, 0), adj, p, d);
      assert At(grid, Move(p, d)) in adj[At(grid, p)];
    }
  }

  /**
   * The pass never fills a used direction slot with a different cell: when
   * it reaches slot (p, d), the slot is free or already holds the target.
   * This is what keeps Node.AddEdge's dictionary inserts from throwing.
   */
  lemma {:induction false} SlotFreeOrSame<T>(grid: seq<seq<T>>, n: int, adj: Adjacency<T>, p: Pos, d: Dir, reverse: map<Dir, T>)
    requires IsGrid(grid, n) && WiredLabels(grid, n, adj) && InGrid(n, p) && At(grid, p) in adj
    requires Inverse(adj[At(grid, p)], reverse)
    ensures d in reverse ==> InGrid(n, Move(p, d)) && reverse[d] == At(grid, Move(p, d)) && reverse[d] in adj[At(grid, p)]
  {
    if d in reverse {
      assert ComesBack(adj[At(grid, p)], reverse, d);
      LabelDeterminesNeighbour(grid, n, adj, p, d, reverse[d]);
    }
  }
}
