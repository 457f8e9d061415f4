/**
 * The cell of the earlier copy of the game (Assets/Node.cs).  It keeps one
 * dictionary, neighbour -> direction, and carries its own value.  There is
 * no direction -> neighbour map, so the only thing that can make AddEdge
 * throw is a neighbour that is already there.
 */
module LegacyNodes {
  import opened Directions

  class Node {
    /** The value the cell shows: set on the prefab, never written by the game code. */
    const value: int
    var neighbours: map<Node, Dir>
    var previous: Node?

    constructor (value: int)
      ensures this.value == value && neighbours == map[] && previous == null
    {
      this.value := value;
      neighbours := map[];
      previous := null;
    }

    /** Start: the back-link is cleared; nothing else changes. */
    method Start()
      modifies this`previous
      ensures previous == null
    {
      previous := null;
    }

    /** `ContainsKey` on the neighbour dictionary. */
    predicate IsNeighbour(v: Node)
      reads this
    {
      v in neighbours
    }

    /** `Dictionary.Add` throws on a present key, hence the precondition. */
    method AddEdge(d: Dir, v: Node)
      requires !IsNeighbour(v)
      modifies this`neighbours
      ensures neighbours == old(neighbours)[v := d]
      ensures IsNeighbour(v) && neighbours[v] == d
      ensures neighbours - {v} == old(neighbours) - {v}
    {
      neighbours := neighbours[v := d];
    }

    /** `Dictionary.Remove`: no effect when `v` is not a neighbour. */
    method RemoveEdge(v: Node)
      modifies this`neighbours
      ensures neighbours == old(neighbours) - {v}
      ensures !IsNeighbour(v)
      ensures !old(IsNeighbour(v)) ==> neighbours == old(neighbours)
      ensures neighbours - {v} == old(neighbours) - {v}
    {
      neighbours := neighbours - {v};
    }
  }

  /** The value of a cell, as a function for sums over cells. */
  function Value(c: Node): int {
    c.value
  }

  /** Adding a neighbour and removing it again gives back the map before the add. */
  lemma AddThenRemove(m: map<Node, Dir>, v: Node, d: Dir)
    requires v !in m
    ensures m[v := d] - {v} == m
  {
  }
}
