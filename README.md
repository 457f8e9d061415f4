# Connect-the-pops grid and selection, in Dafny

This project models the core of a Unity "connect the pops" game. The core has four parts:

- **The playing field.** A grid of cells. Each cell is a graph vertex that records its neighbours in two mutually inverse dictionaries: neighbour → direction and direction → neighbour.
- **The graph.** A directed graph that links pairs of cells with a direction and its opposite.
- **`GameManager.Start`.** Spawns the grid and wires every cell to each of its eight surrounding cells that lie on the grid.
- **The pointer handlers.** They run a selection session. Pressing a cell starts a chain. Hovering over a neighbour of the chain's current cell extends the chain, or takes it back one step. Releasing ends the session. After every change the manager lists the selected cells, adds up their values and announces the sum.

An earlier copy of the game manager and its cell is modelled separately. In that copy, a cell leaves the selection when the pointer exits it.

The project also models two small pieces:

- the `GameState` record's `IsActive` test;
- the colour table's lookup by value.

## How the model is built

**Modules**

| module | models |
|---|---|
| `Directions` | the direction vectors and `GetOpposite` |
| `Nodes` | the cell |
| `Graphs` | `DirectedGraph` |
| `GridWiring` | the wiring loop of `Start`, as a pure pass over a grid of any cell type |
| `Boards` | the heap state of the wiring pass for the main game |
| `Game` | the main game manager |
| `Sums` | listing a set and adding up values |
| `LegacyNodes`, `LegacyGame` | the earlier copy |
| `GameStates` | `GameState` |
| `Colors` | `ColorTemplate` |

**Directions**
- A direction is a pair of integers. `x` steps the column and `y` steps the row, as in `new Vector2(column, row) + direction`.
- The source uses floating-point `Vector2` values whose components are always -1, 0 or 1.

**Cells, graph and manager**
- Cells are objects.
- The graph's edges are also kept as a ghost value `edges : map<Node, map<Node, Dir>>`. The class invariant ties that value to the cells' dictionaries.
- The main manager keeps the selection as a ghost sequence `chain`, from First to Current. `Valid()` states these facts:
  - `chain` lists `entered`, once each.
  - Each cell of the chain links back to the one before it by `Previous`, and is that cell's neighbour.
  - `selected` lists `entered`.
  - The sum is the chain's total value, and it is the last sum announced.
  - First and Current are the chain's ends.
  - Once the chain has two cells, Previous is the cell before Current.
- The pointer handlers modify only the selection fields of the manager and the `Previous` field of the cells they relink. So the graph, the grid, the spawned list and every cell's dictionaries keep the wiring that `Start` established.
- The main manager keeps its selection in its own nested `GameState` class (`Assets/Scripts/GameManager.cs:27-33`), whose fields are First and Current, and that class has no `IsActive`. `Game.GameManager.State` reads the selection as the top-level `GameState` record with Last taken to be Current, so that its `IsActive` test applies.

**Cell values**
- The main cell class has no value of its own. In the scene, the value sits on a child component. It is the manager's parameter `valueOf`.
- The earlier cell carries its value as a field.

**Announcements**
- The UnityEvent that announces the sum is the log `reported`. Every announcement appends one entry.

**Set order**
- `entered.ToList()` lists a hash set in an order the model does not fix.
- `Sums.ListAndSum` returns some listing of the set, and the proofs hold for every listing.
- The lemma `Sums.TotalSameSet` shows that the sum does not depend on the order.

**Layout bounds**
- The bounds test in `Start` compares the column index with the length of the layout row numbered by the *column* (`settings.Rows[column]`), not the current row. See `Assets/Scripts/GameManager.cs:106` and `Assets/GameManager.cs:105`.
- On a square layout, where every row has as many cells as there are rows, this is the right test. So both `Start` models require a square layout.
- `GridWiring.InsideGrid` keeps the test as written. Its contract only says what the test means on a square layout.
- Two lemmas show what the test does on other layouts:
  - `GridWiring.JaggedLayoutAdmitsMissingCell`: the test accepts a cell that does not exist.
  - `GridWiring.WideLayoutReadsMissingRow`: the test reads a layout row that does not exist.

## Model

| member | source | states |
|---|---|---|
| Directions.Opposite | Assets/Vector2Extensions.cs:7-10 | the opposite of a direction equals it exactly when the direction is zero |
| Directions.OppositeNegates | Assets/Vector2Extensions.cs:9 | the opposite negates both components |
| Directions.OppositeInvolution | Assets/Vector2Extensions.cs:9 | taking the opposite twice gives the direction back |
| Directions.OppositeOfZero | Assets/Vector2Extensions.cs:9 | the opposite of the zero vector is zero |
| Directions.OppositeIsDirection | Assets/Scripts/GameManager.cs:91-96 | the opposite of each of the eight grid directions is again one of the eight |
| Directions.DirectionsAreUnitOffsets | Assets/Scripts/GameManager.cs:91-96 | the eight listed directions are exactly the non-zero offsets with components in {-1, 0, 1} |
| Directions.RankOfEight | Assets/Scripts/GameManager.cs:91-96 | the i-th listed direction is an offset, and its position in the visiting order is i |
| Directions.RankInjective | Assets/Scripts/GameManager.cs:91-96 | distinct offsets have distinct positions between 0 and 7 |
| Directions.EightAreDistinct | Assets/Scripts/GameManager.cs:91-96 | no direction is listed twice, so each cell visits each slot once |
| Nodes.InverseAdd | Assets/Scripts/Node.cs:21-25 | adding a fresh key and a fresh direction to two inverse maps keeps them inverse |
| Nodes.InverseRemove | Assets/Scripts/Node.cs:27-34 | removing a neighbour and its direction from two inverse maps keeps them inverse |
| Nodes.Node.constructor | Assets/Scripts/Node.cs:7-9 | a new cell has no neighbours and no back-link, and its two maps are inverse |
| Nodes.Node.IsNeighbour | Assets/Scripts/Node.cs:11-19 | a cell is a neighbour exactly when the direction recorded for it leads back to it |
| Nodes.Node.GetDirectionToNeighbour | Assets/Scripts/Node.cs:36-44 | for a neighbour, the direction whose slot holds that neighbour; for a non-neighbour, the zero vector |
| Nodes.Node.GetNeighbourWithDirection | Assets/Scripts/Node.cs:57-65 | null exactly when the direction is unused; otherwise a neighbour recorded with that direction |
| Nodes.Node.HasNeighbourWithValue | Assets/Scripts/Node.cs:46-55 | true exactly when the slot holds a neighbour and that neighbour carries a value; a true answer names a neighbour of the cell |
| Nodes.Node.AddEdge | Assets/Scripts/Node.cs:21-25 | requires the neighbour and the direction to be new (`Dictionary.Add` throws otherwise); then both maps gain the entry and stay inverse, and the three lookups agree on it |
| Nodes.Node.RemoveEdge | Assets/Scripts/Node.cs:27-34 | the cell is no longer a neighbour; a neighbour loses its entry and frees its direction; a non-neighbour changes nothing; the maps stay inverse |
| Nodes.AddThenRemoveRestores | Assets/Scripts/Node.cs:21-34 | adding an edge and removing it again gives back both maps |
| Graphs.Link | Assets/Scripts/DirectedGraph.cs:37-60 | each end gains the other as a neighbour, with the direction one way and its opposite the other, unless it has it already |
| Graphs.LinkElsewhere | Assets/Scripts/DirectedGraph.cs:37-60 | linking two cells leaves every other cell's edges as they were |
| Graphs.LinkEnds | Assets/Scripts/DirectedGraph.cs:54-60 | an existing adjacency is never overwritten; a missing one is added with its label |
| Graphs.Unlink | Assets/Scripts/DirectedGraph.cs:62-74 | after unlinking, neither end is the other's neighbour |
| Graphs.RemoveVertex | Assets/Scripts/DirectedGraph.cs:76-84 | the removed cell is no longer a vertex, and no vertex lists it as a neighbour |
| Graphs.WithVertex | Assets/Scripts/DirectedGraph.cs:32-35 | adding a vertex that is present changes nothing; a new vertex starts without edges |
| Graphs.LinkKeepsSymmetric | Assets/Scripts/DirectedGraph.cs:16-21 | linking two distinct ends keeps the edges symmetric (a to b labelled d exactly when b to a labelled opposite d) and changes only the two ends' maps |
| Graphs.LinkIsPairUpdate | Assets/Scripts/DirectedGraph.cs:37-52 | adding both ends and linking them updates exactly the two ends' maps |
| Graphs.PairLinkKeepsSymmetric | Assets/Scripts/DirectedGraph.cs:37-52 | updating the two ends' maps as AddNeighbors does keeps the edges symmetric |
| Graphs.UnlinkKeepsSymmetric | Assets/Scripts/DirectedGraph.cs:23-30 | unlinking keeps the edges symmetric |
| Graphs.RemoveVertexKeepsSymmetric | Assets/Scripts/DirectedGraph.cs:76-84 | removing a vertex keeps the edges symmetric |
| Graphs.DirectedGraph.constructor | Assets/Scripts/DirectedGraph.cs:7-10 | a new graph has no vertices and is valid |
| Graphs.DirectedGraph.Size | Assets/Scripts/DirectedGraph.cs:14 | the size is zero exactly when there are no vertices |
| Graphs.DirectedGraph.AddEdge | Assets/Scripts/DirectedGraph.cs:16-21 | both ends become vertices, and the size grows by the number that were absent; each end's maps gain the other unless it is there already; repeating the call on a linked pair changes no map; from a valid graph and two distinct ends that are vertices or edgeless, the graph is valid again and its edges are `Link` of the old ones |
| Graphs.DirectedGraph.LinkedIsValid | Assets/Scripts/DirectedGraph.cs:16-21 | the state AddEdge leaves behind is valid, and its edges are `Link` of the old ones |
| Graphs.DirectedGraph.AddToList | Assets/Scripts/DirectedGraph.cs:32-35 | the vertex joins the set, and the edges are unchanged |
| Graphs.DirectedGraph.AddNeighbors | Assets/Scripts/DirectedGraph.cs:37-52 | a non-neighbour end is added with the direction, and the other end with the opposite direction; existing entries are kept |
| Graphs.DirectedGraph.AddNeighbor | Assets/Scripts/DirectedGraph.cs:54-60 | a missing neighbour is added with its direction; a present one is left as it was; the cell stays valid |
| Graphs.DirectedGraph.RemoveEdge | Assets/Scripts/DirectedGraph.cs:23-30 | with both ends vertices, neither is the other's neighbour afterwards; otherwise nothing changes; the vertex set never changes, and validity is kept |
| Graphs.DirectedGraph.RemoveNeighbors | Assets/Scripts/DirectedGraph.cs:62-66 | each end drops the other |
| Graphs.DirectedGraph.RemoveNeighbour | Assets/Scripts/DirectedGraph.cs:68-74 | the start drops the end when it is a neighbour, and otherwise stays as it was |
| Graphs.DirectedGraph.RemoveNode | Assets/Scripts/DirectedGraph.cs:76-84 | the node stops being a vertex, the size drops by one when it was one, and no remaining vertex lists it; the node's own map is not cleared; validity is kept |
| Graphs.ForgetEverywhere | Assets/Scripts/DirectedGraph.cs:78-81 | after the loop, every vertex has dropped its edge to the node, and nothing else about it has changed |
| GridWiring.Move | Assets/Scripts/GameManager.cs:105 | the target of a step is the starting cell exactly when the direction is zero |
| GridWiring.MoveUndone | Assets/Scripts/GameManager.cs:105 | a step followed by a step in the opposite direction returns to the starting cell |
| GridWiring.InsideGrid | Assets/Scripts/GameManager.cs:105-107 | on a square layout, the bounds test holds exactly when the target cell lies on the grid |
| GridWiring.JaggedLayoutAdmitsMissingCell | Assets/Scripts/GameManager.cs:106 | on rows of two cells and one cell, the test accepts a target in row 1, column 1, which does not exist |
| GridWiring.WideLayoutReadsMissingRow | Assets/Scripts/GameManager.cs:106 | on a single row of three cells, the test at cell (0, 1) towards (-1, -1) reads layout row 1, which does not exist |
| GridWiring.WiredAtStart | Assets/Scripts/GameManager.cs:98-115 | before the pass, with every cell edgeless, the pass invariant holds at its first step |
| GridWiring.LabelDeterminesNeighbour | Assets/Scripts/GameManager.cs:108-111 | the only neighbour a cell records with direction d is the cell one step d away |
| GridWiring.WiredStep | Assets/Scripts/GameManager.cs:103-112 | one step of the pass keeps the pass invariant, whether or not the target is on the grid |
| GridWiring.LinkSetsSlots | Assets/Scripts/GameManager.cs:108-111 | after a linking step, every slot is linked exactly when the pass has visited it from either end |
| GridWiring.LinkKeepsLabels | Assets/Scripts/GameManager.cs:108-111 | after a linking step, every label still leads to its neighbour |
| GridWiring.WiredComplete | Assets/Scripts/GameManager.cs:91-115 | after the pass, the cell at p has the cell one step d away as a neighbour labelled d exactly when that cell is on the grid |
| GridWiring.EveryCellLinked | Assets/Scripts/GameManager.cs:91-115 | on a grid of at least two by two, every cell ends the pass with a neighbour |
| GridWiring.SlotFreeOrSame | Assets/Scripts/GameManager.cs:108-111 | a direction slot in use holds exactly the cell one step that way, so the pass never installs a second cell in a slot |
| Boards.LinkKeepsCovered | Assets/Scripts/DirectedGraph.cs:16-21 | after linking, the vertices are still exactly the cells that have an edge |
| Boards.PrepareLink | Assets/Scripts/GameManager.cs:108-111 | before each AddEdge of the pass, the two cells differ, and each slot is free or already holds the other cell, so Node.AddEdge cannot throw |
| Boards.StartWiring | Assets/Scripts/GameManager.cs:50-55 | an empty graph over edgeless cells starts the pass |
| Boards.WiringDone | Assets/Scripts/GameManager.cs:91-115 | after the pass, the graph is valid; the cell at p has the cell one step d away as a neighbour labelled d exactly when that cell is on the grid; every label leads to its neighbour; the vertices are all the cells, or none on a grid smaller than two by two |
| Game.SpawnGrid | Assets/Scripts/GameManager.cs:58-79 | an n by n grid of fresh, distinct, edgeless cells; Spawned lists them row after row |
| Game.WireGrid | Assets/Scripts/GameManager.cs:98-115 | the nested loops over rows and columns take the pass from its first step to its end |
| Game.WireCell | Assets/Scripts/GameManager.cs:103-113 | the loop over the eight directions takes the pass across one cell |
| Game.WireSlot | Assets/Scripts/GameManager.cs:105-112 | one direction of one cell moves the pass one step on, through the bounds test |
| Game.LinkSlot | Assets/Scripts/GameManager.cs:110-111 | the neighbour lookup and AddEdge move the pass one step on |
| Game.AddEdgeBetween | Assets/Scripts/GameManager.cs:111 | the graph stays valid and gains both cells as vertices, and each cell's dictionary becomes its entry in `Link` of the old edges |
| Game.Connect | Assets/Scripts/GameManager.cs:111 | AddEdge on two distinct cells of the grid makes the edges `Link` of the old ones and keeps the graph valid |
| Game.BuildBoard | Assets/Scripts/GameManager.cs:50-116 | the spawned grid, and the graph in which each cell is linked, with the right labels, exactly to its on-grid neighbours |
| Game.PathWider | Assets/Scripts/GameManager.cs:164-190 | a chain of back-links among some cells remains one among more cells |
| Game.PathWithout | Assets/Scripts/GameManager.cs:164-177 | a chain of back-links does not need a cell it does not hold |
| Game.PathAppend | Assets/Scripts/GameManager.cs:180-191 | a new cell that is a neighbour of the chain's last cell, and links back to it, extends the chain |
| Game.PathDropLast | Assets/Scripts/GameManager.cs:164-177 | dropping the last cell of a chain leaves a chain that does not need that cell |
| Game.LinkedBack | Assets/Scripts/GameManager.cs:164 | a selected cell, other than Current, that Current links back to is the cell before Current in the chain, and its own back-link is the cell before it |
| Game.GameManager.ActiveOnceExtended | Assets/Scripts/GameState.cs:12-15 | the selection, as a GameState with Current as its last cell, is active exactly when the chain has at least two cells |
| Game.GameManager.constructor | Assets/Scripts/GameManager.cs:50-116 | Start on a square layout: no session, the invariant holds, and each cell is linked exactly to its on-grid neighbours |
| Game.GameManager.UpdateSelected | Assets/Scripts/GameManager.cs:201-214 | `selected` lists `entered`; the sum is the total of any listing of `entered`; it is announced |
| Game.GameManager.OnNodeDown | Assets/Scripts/GameManager.cs:118-129 | with no session: First = Current = the cell, Previous stays null, `entered` is just that cell, and its value is announced; during a session nothing changes; the invariant holds; the graph, the grid and the cells' dictionaries are outside its frame |
| Game.GameManager.OnNodeUp | Assets/Scripts/GameManager.cs:131-149 | during a session: First, Current and Previous become null, `entered` is emptied, and 0 is announced; back-links are untouched; with no session nothing changes; the graph, the grid and the cells' dictionaries are outside its frame |
| Game.GameManager.OnNodeEnter | Assets/Scripts/GameManager.cs:151-194 | nothing changes unless a session is active and the cell neighbours Current; a new cell extends the chain; the cell Current came from takes it back one step; any other selected cell changes nothing; the invariant holds; the graph, the grid and the cells' dictionaries are outside its frame |
| Game.GameManager.Extend | Assets/Scripts/GameManager.cs:180-191 | the cell joins `entered` and the chain, links back to the old Current, and becomes Current; Previous is the old Current; the sum grows by the cell's value and is announced; the graph, the grid and the cells' dictionaries are outside its frame |
| Game.GameManager.Admit | Assets/Scripts/GameManager.cs:185-187 | the cell joins `entered` and the chain; the sum is the chain's total, and it is announced |
| Game.GameManager.StepBack | Assets/Scripts/GameManager.cs:164-177 | the old Current leaves `entered` and the chain, and loses its back-link; the cell becomes Current, and Previous its back-link; the sum drops by the old Current's value and is announced; the graph, the grid and the cells' dictionaries are outside its frame |
| Game.GameManager.Withdraw | Assets/Scripts/GameManager.cs:167-172 | Current leaves `entered` and the chain, and the reduced sum is announced |
| Sums.TotalAppend | Assets/Scripts/GameManager.cs:207-210 | appending a cell adds its value to the total |
| Sums.TotalRemove | Assets/Scripts/GameManager.cs:207-210 | taking any one cell out of a list takes its value out of the total |
| Sums.ListsMeans | Assets/Scripts/GameManager.cs:203 | a list lists a set exactly when it holds no element twice and its elements are the set |
| Sums.ListsIn | Assets/Scripts/GameManager.cs:203 | an element is in a listing exactly when it is in the set |
| Sums.ListsAppend | Assets/Scripts/GameManager.cs:186 | appending a new element lists the set with it added |
| Sums.ListsDropLast | Assets/Scripts/GameManager.cs:167 | dropping the last element lists the set without it |
| Sums.ListsRemove | Assets/Scripts/GameManager.cs:203 | removing any element from a listing lists the set without it |
| Sums.TotalSameSet | Assets/Scripts/GameManager.cs:203-212 | two listings of the same set have the same total, so the announced sum does not depend on the order of the set |
| Sums.SumOfListing | Assets/Scripts/GameManager.cs:203-212 | the total of one listing is the total of every listing of the set |
| Sums.Enumerate | Assets/Scripts/GameManager.cs:203 | the result lists the set |
| Sums.ListAndSum | Assets/Scripts/GameManager.cs:203-212 | the loop's sum is the total of the listing, and the total of any listing of the set |
| LegacyNodes.Node.constructor | Assets/Node.cs:21-25 | a new cell carries its value and has no neighbours and no back-link |
| LegacyNodes.Node.Start | Assets/Node.cs:28-32 | the back-link is reset to null |
| LegacyNodes.Node.AddEdge | Assets/Node.cs:74-77 | requires a cell that `IsNeighbour` (`Assets/Node.cs:64-72`) rejects, since `Dictionary.Add` throws otherwise; afterwards `IsNeighbour` accepts it with that direction, and every other entry is unchanged |
| LegacyNodes.Node.RemoveEdge | Assets/Node.cs:79-82 | afterwards `IsNeighbour` rejects the cell; every other entry is unchanged; a non-neighbour changes nothing |
| LegacyNodes.AddThenRemove | Assets/Node.cs:74-82 | adding a new neighbour and removing it again gives back the dictionary |
| LegacyGame.SpawnGrid | Assets/GameManager.cs:57-78 | an n by n grid of fresh, distinct, edgeless cells with the prefab's value; Spawned lists them row after row |
| LegacyGame.AddNeighbor | Assets/Scripts/DirectedGraph.cs:54-60 | a missing neighbour is added with its direction; a present one is left as it was |
| LegacyGame.Connect | Assets/GameManager.cs:110 | AddEdge on two distinct cells changes their dictionaries as `Link` says, and no other cell's |
| LegacyGame.StartWiring | Assets/GameManager.cs:97-114 | edgeless cells start the pass |
| LegacyGame.SkipSlot | Assets/GameManager.cs:104-107 | a target off the grid adds nothing and moves the pass on |
| LegacyGame.PrepareLink | Assets/GameManager.cs:107-110 | before each AddEdge, the two cells differ, and both are cells of the grid |
| LegacyGame.NextCell | Assets/GameManager.cs:99-113 | after the eighth direction, the pass moves to the next column |
| LegacyGame.NextLine | Assets/GameManager.cs:97-114 | after the last column, the pass moves to the next row |
| LegacyGame.WiringDone | Assets/GameManager.cs:90-114 | after the pass, the cell at p has the cell one step d away as a neighbour labelled d exactly when that cell is on the grid, and every label leads to its neighbour |
| LegacyGame.WireGrid | Assets/GameManager.cs:97-114 | the nested loops take the pass from its first step to its end |
| LegacyGame.WireCell | Assets/GameManager.cs:102-112 | the loop over the eight directions takes the pass across one cell |
| LegacyGame.WireSlot | Assets/GameManager.cs:104-111 | the bounds test and, on the grid, AddEdge move the pass one step on |
| LegacyGame.BuildBoard | Assets/GameManager.cs:48-115 | the spawned grid, with each cell linked, with the right labels, exactly to its on-grid neighbours; every cell has the prefab's value and no back-link |
| LegacyGame.GameManager.constructor | Assets/GameManager.cs:48-115 | Start on a square layout: no selection, and each cell is linked exactly to its on-grid neighbours |
| LegacyGame.GameManager.UpdateSelected | Assets/GameManager.cs:182-195 | `selected` lists `entered`; the sum is the total of any listing of `entered`; it is announced |
| LegacyGame.GameManager.OnNodeDown | Assets/GameManager.cs:117-128 | with no selection: First = Current = the cell, `entered` is just that cell, and its value is announced; otherwise nothing changes; the grid, the spawned list and the cells are outside its frame |
| LegacyGame.GameManager.OnNodeUp | Assets/GameManager.cs:130-145 | during a selection: First becomes null, `entered` is emptied, and 0 is announced, while Current keeps its value; otherwise nothing changes; the grid, the spawned list and the cells are outside its frame |
| LegacyGame.GameManager.OnNodeEnter | Assets/GameManager.cs:147-166 | during a selection the cell always ends up in `entered`; Current moves to it only when it neighbours the old Current; the announced sum is taken before the final add, so it leaves out a new cell unless there was no Current; otherwise nothing changes; the grid, the spawned list and the cells are outside its frame |
| LegacyGame.GameManager.OnNodeExit | Assets/GameManager.cs:168-180 | leaving Current, when it is not First and is in `entered`, takes it out, clears Current and announces the new sum; any other exit changes nothing; the grid, the spawned list and the cells are outside its frame |
| GameStates.IsActive | Assets/Scripts/GameState.cs:12-15 | active exactly when the state has two distinct non-null ends |
| GameStates.InactiveWithoutFirst | Assets/Scripts/GameState.cs:14 | without a first cell, the state is not active |
| GameStates.InactiveWithoutLast | Assets/Scripts/GameState.cs:14 | without a last cell, the state is not active |
| GameStates.InactiveOnOneCell | Assets/Scripts/GameState.cs:14 | with the same first and last cell, the state is not active |
| GameStates.ActiveExactly | Assets/Scripts/GameState.cs:12-15 | active exactly when both ends are set and distinct; the sum and the previous cell play no part |
| Colors.GetColorForValue | Assets/Scripts/ColorTemplate.cs:20-29 | an empty table gives white |
| Colors.Matching | Assets/Scripts/ColorTemplate.cs:22 | the entries with the asked value, and only those |
| Colors.FirstMatchWins | Assets/Scripts/ColorTemplate.cs:22-28 | the lookup gives the colour of the first entry with the value, or white when there is none |
| Colors.EarliestEntry | Assets/Scripts/ColorTemplate.cs:22 | an entry with the value that no earlier entry shares gives the result, so with duplicates the earliest wins |
| Colors.SomeEntryColor | Assets/Scripts/ColorTemplate.cs:22-25 | when an entry has the value, the result is the colour of such an entry |
| Colors.NoEntryWhite | Assets/Scripts/ColorTemplate.cs:28 | with no entry for the value, the result is white |
| Colors.OtherEntriesIgnored | Assets/Scripts/ColorTemplate.cs:22 | an entry with another value, inserted anywhere, does not change the result |

## Left out

- Rendering, animation and Unity plumbing are not modelled: `Instantiate`, `GetComponent*`, listener registration, `Debug.Log`, `ScaleUp`, `ScaleDown`, `ShowArrow`, `HideArrow`, `HideAllArrows`, cell names, the Animator, `NodeValue`, `ScorePanel` and the transform helpers. They touch no state the model keeps. The direction computed in `OnNodeEnter` only feeds the arrows.
- A cell's value is the parameter `valueOf` of the main manager. `Assets/Scripts/Node.cs` has no value; the scene keeps it on a child component.
- The earlier cell's value is a constant. Nothing in the earlier copy writes it, and every spawned cell copies it from the prefab.
- The sums are unbounded integers. C#'s 32-bit `int` would wrap around only past about two billion, which a grid of small values cannot reach.
- `Spawned` and `Selected` start empty in the model. In the source they are serialized lists that the scene could pre-fill.
- The order in which `entered.ToList()` lists a hash set is not modelled. Any listing is allowed, and the proven sums hold for every listing.
- The direction vectors are integer pairs, not floating-point `Vector2` values. Their components are always -1, 0 or 1.
- Game.GameManager.constructor: requires a square layout. On any other layout the bounds test at `Assets/Scripts/GameManager.cs:106` indexes the layout by column, and can index a missing cell or a missing row. Two lemmas exhibit this: `GridWiring.JaggedLayoutAdmitsMissingCell` and `GridWiring.WideLayoutReadsMissingRow`.
- LegacyGame.GameManager.constructor: requires a square layout, for the same bounds test at `Assets/GameManager.cs:105`.
- LegacyGame.Connect: the vertex set that DirectedGraph.AddEdge maintains is not modelled for the earlier copy. The earlier manager never reads it; only the cells' dictionaries are modelled.
- Game.GameManager.OnNodeExit: it has an empty body, like the source's, and no contract.
- Game.GameManager.Valid: with a chain of a single cell, it says nothing about Previous. After a step back to First, Previous is First's own back-link, which is null unless an earlier session left one.
- Colors.GetColorForValue: a null entry in the table would make `FirstOrDefault` throw. The model's entries are values, so this case does not arise.
- The `Background` colour of the colour table is a plain field and is not modelled.
- `IDirectedGraph.cs` and `IVertex.cs` are interfaces only. Their documented behaviour is stated on the implementing members.
