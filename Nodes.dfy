/**
 * A grid cell seen as a graph vertex (Assets/Scripts/Node.cs).
 *
 * A node keeps two dictionaries: neighbour -> direction and
 * direction -> neighbour.  Every mutation goes through AddEdge and
 * RemoveEdge, which keep the two maps inverse to each other; that is the
 * class invariant Valid().  `previous` is the back-link the selection
 * session writes.
 */
module Nodes {
  import opened Directions

  /** `m` and `r` are inverse maps of each other. */
  ghost predicate Inverse<K, V>(m: map<K, V>, r: map<V, K>) {
    (forall k {:trigger MapsBack(m, r, k)} :: k in m ==> MapsBack(m, r, k)) &&
    (forall v {:trigger ComesBack(m, r, v)} :: v in r ==> ComesBack(m, r, v))
  }

  /** The entry of `v` in `r` is sent back to `v` by `m`. */
  ghost predicate ComesBack<K, V>(m: map<K, V>, r: map<V, K>, v: V)
    requires v in r
  {
    r[v] in m && m[r[v]] == v
  }

  /** The entry of `k` in `m` is sent back to `k` by `r`. */
  ghost predicate MapsBack<K, V>(m: map<K, V>, r: map<V, K>, k: K)
    requires k in m
  {
    m[k] in r && r[m[k]] == k
  }

  lemma InverseAdd<K, V>(m: map<K, V>, r: map<V, K>, k: K, v: V)
    requires Inverse(m, r) && k !in m && v !in r
    ensures Inverse(m[k := v], r[v := k])
  {
    var m', r' := m[k := v], r[v := k];
    forall j | j in m' ensures MapsBack(m', r', j) {
      if j != k {
        assert MapsBack(m, r, j);
      }
    }
    forall w | w in r' ensures ComesBack(m', r', w) {
      if w != v {
        assert ComesBack(m, r, w);
      }
    }
  }

  lemma InverseRemove<K, V>(m: map<K, V>, r: map<V, K>, k: K)
    requires Inverse(m, r) && k in m
    ensures Inverse(m - {k}, r - {m[k]})
  {
    var m', r' := m - {k}, r - {m[k]};
    forall j | j in m' ensures MapsBack(m', r', j) {
      assert MapsBack(m, r, j) && MapsBack(m, r, k);
    }
    forall w | w in r' ensures ComesBack(m', r', w) {
      assert ComesBack(m, r, w);
    }
  }

  class Node {
    var neighbours: map<Node, Dir>
    var reverseNeighbours: map<Dir, Node>
    var previous: Node?

    constructor ()
      ensures neighbours == map[] && reverseNeighbours == map[] && previous == null
      ensures Valid()
    {
      neighbours := map[];
      reverseNeighbours := map[];
      previous := null;
    }

    ghost predicate Valid()
      reads this
    {
      Inverse(neighbours, reverseNeighbours)
    }

    /** A node is a neighbour exactly when the direction recorded for it leads back to it. */
    function IsNeighbour(v: Node): (r: bool)
      reads this
      ensures Valid() ==> (r <==> GetNeighbourWithDirection(GetDirectionToNeighbour(v)) == v)
    {
      v in neighbours
    }

    /** The direction towards `v`, or the zero vector when `v` is not a neighbour. */
    function GetDirectionToNeighbour(v: Node): (r: Dir)
      reads this
      ensures Valid() && v in neighbours ==> r in reverseNeighbours && reverseNeighbours[r] == v
      ensures v !in neighbours ==> r == Zero
    {
      assert Valid() && v in neighbours ==> MapsBack(neighbours, reverseNeighbours, v);
      if v in neighbours then neighbours[v] else Zero
    }

    /** The neighbour in direction `d`, or null when that slot is unused. */
    function GetNeighbourWithDirection(d: Dir): (r: Node?)
      reads this
      ensures Valid() && r != null ==> r in neighbours && neighbours[r] == d
      ensures r == null <==> d !in reverseNeighbours
    {
      assert Valid() && d in reverseNeighbours ==> ComesBack(neighbours, reverseNeighbours, d);
      if d in reverseNeighbours then reverseNeighbours[d] else null
    }

    /**
     * Whether the slot `d` holds a neighbour that carries a value.  Which
     * cells carry a value (a NodeValue child in the scene) is the parameter
     * `occupied`.
     */
    function HasNeighbourWithValue(d: Dir, occupied: set<Node>): (r: bool)
      reads this
      ensures r <==> GetNeighbourWithDirection(d) != null && GetNeighbourWithDirection(d) in occupied
      ensures Valid() && r ==> IsNeighbour(GetNeighbourWithDirection(d))
    {
      d in reverseNeighbours && reverseNeighbours[d] in occupied
    }

    /** Both dictionary inserts throw on a present key, hence the two preconditions. */
    method AddEdge(d: Dir, v: Node)
      requires Valid()
      requires v !in neighbours && d !in reverseNeighbours
      modifies this
      ensures Valid()
      ensures neighbours == old(neighbours)[v := d]
      ensures reverseNeighbours == old(reverseNeighbours)[d := v]
      ensures previous == old(previous)
      ensures IsNeighbour(v) && GetDirectionToNeighbour(v) == d && GetNeighbourWithDirection(d) == v
    {
      InverseAdd(neighbours, reverseNeighbours, v, d);
      neighbours := neighbours[v := d];
      reverseNeighbours := reverseNeighbours[d := v];
    }

    /** Removes `v` and frees its direction slot; a non-neighbour leaves the node as it was. */
    method RemoveEdge(v: Node)
      requires Valid()
      modifies this
      ensures Valid()
      ensures !IsNeighbour(v)
      ensures v in old(neighbours) ==>
                neighbours == old(neighbours) - {v} &&
                reverseNeighbours == old(reverseNeighbours) - {old(neighbours)[v]} &&
                GetNeighbourWithDirection(old(neighbours)[v]) == null
      ensures v !in old(neighbours) ==>
                neighbours == old(neighbours) && reverseNeighbours == old(reverseNeighbours)
      ensures previous == old(previous)
    {
      if v in neighbours {
        var d := neighbours[v];
        InverseRemove(neighbours, reverseNeighbours, v);
        neighbours := neighbours - {v};
        reverseNeighbours := reverseNeighbours - {d};
      }
    }
  }

  /** Adding an edge and removing it again restores both maps. */
  lemma {:induction false} AddThenRemoveRestores(m: map<Node, Dir>, r: map<Dir, Node>, v: Node, d: Dir)
    requires Inverse(m, r) && v !in m && d !in r
    ensures m[v := d] - {v} == m
    ensures r[d := v] - {m[v := d][v]} == r
  {
  }
}
