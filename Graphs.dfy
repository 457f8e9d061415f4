module Graphs {
  import opened Directions
  import opened Nodes

  /** The edges of a graph as a value: each vertex's neighbour -> direction map. */
  type Adjacency<T> = map<T, map<T, Dir>>

  /** Every edge has its mirror edge: the symmetry the builder relies on. */
  ghost predicate Symmetric<T>(e: Adjacency<T>) {
    forall v, w {:trigger EdgeMirrored(e, v, w)} :: v in e && w in e[v] ==> EdgeMirrored(e, v, w)
  }

  /** The edge v -> w is not a self-loop, and w -> v exists with the opposite label. */
  ghost predicate EdgeMirrored<T>(e: Adjacency<T>, v: T, w: T)
    requires v in e && w in e[v]
  {
    v != w && w in e && v in e[w] && e[w][v] == Opposite(e[v][w])
  }

  /** What AddEdge does to the edges: link a -> b with d and b -> a with Opposite(d), each only if absent. */
  function Link<T>(e: Adjacency<T>, a: T, b: T, d: Dir): (r: Adjacency<T>)
    requires a in e && b in e
    ensures r.Keys == e.Keys && b in r[a] && (a != b ==> a in r[b])
  {
    var e1 := if b in e[a] then e else e[a := e[a][b := d]];
    if a in e1[b] then e1 else e1[b := e1[b][a := Opposite(d)]]
  }

  /** Linking two vertices leaves every other vertex's edges as they were. */
  lemma LinkElsewhere<T>(e: Adjacency<T>, a: T, b: T, d: Dir, c: T)
    requires a in e && b in e && c in e && c != a && c != b
    ensures Link(e, a, b, d)[c] == e[c]
  {
  }

  /** Linking two distinct vertices adds each to the other's edges, unless it is there already. */
  lemma LinkEnds<T>(e: Adjacency<T>, a: T, b: T, d: Dir)
    requires a in e && b in e && a != b
    ensures Link(e, a, b, d)[a] == if b in e[a] then e[a] else e[a][b := d]
    ensures Link(e, a, b, d)[b] == if a in e[b] then e[b] else e[b][a := Opposite(d)]
  {
  }

  /** What RemoveEdge does to the edges of two vertices. */
  function Unlink<T>(e: Adjacency<T>, a: T, b: T): (r: Adjacency<T>)
    requires a in e && b in e
    ensures r.Keys == e.Keys && b !in r[a] && a !in r[b]
  {
    e[a := e[a] - {b}][b := e[b] - {a}]
  }

  /** What RemoveNode does to the edges: `n` stops being a vertex and every vertex forgets it. */
  function RemoveVertex<T>(e: Adjacency<T>, n: T): (r: Adjacency<T>)
    ensures r.Keys == e.Keys - {n}
    ensures forall v :: v in r ==> n !in r[v]
  {
    map v | v in e && v != n :: e[v] - {n}
  }

  /** Adds `v` with no edges unless it is a vertex already. */
  function WithVertex<T>(e: Adjacency<T>, v: T): (r: Adjacency<T>)
    ensures r.Keys == e.Keys + {v} && (v in e ==> r == e) && (v !in e ==> r[v] == map[])
  {
    if v in e then e else e[v := map[]]
  }

  /**
   * Linking two distinct ends, each a vertex already or new and edgeless,
   * changes exactly their two maps, as AddNeighbors does, and keeps the
   * edges symmetric.  In particular a is b's neighbour exactly when b is a's.
   */
  lemma {:induction false} LinkKeepsSymmetric<T>(e: Adjacency<T>, a: T, b: T, d: Dir, na: map<T, Dir>, nb: map<T, Dir>)
    requires Symmetric(e) && a != b
    requires a in e ==> e[a] == na
    requires a !in e ==> na == map[]
    requires b in e ==> e[b] == nb
    requires b !in e ==> nb == map[]
    ensures b in na <==> a in nb
    ensures var r := Link(WithVertex(WithVertex(e, a), b), a, b, d);
      Symmetric(r) &&
      r == e[a := if b in na then na else na[b := d]][b := if a in nb then nb else nb[a := Opposite(d)]]
  {
    if b in na { assert EdgeMirrored(e, a, b); }
    if a in nb { assert EdgeMirrored(e, b, a); }
    PairLinkKeepsSymmetric(e, a, b, d, na, nb);
    LinkIsPairUpdate(e, a, b, d, na, nb);
  }

  lemma {:induction false} LinkIsPairUpdate<T>(e: Adjacency<T>, a: T, b: T, d: Dir, na: map<T, Dir>, nb: map<T, Dir>)
    requires a != b
    requires a in e ==> e[a] == na
    requires a !in e ==> na == map[]
    requires b in e ==> e[b] == nb
    requires b !in e ==> nb == map[]
    requires b in na <==> a in nb
    ensures Link(WithVertex(WithVertex(e, a), b), a, b, d) ==
      e[a := if b in na then na else na[b := d]][b := if a in nb then nb else nb[a := Opposite(d)]]
  {
    var e1 := WithVertex(WithVertex(e, a), b);
    assert e1 == e[a := na][b := nb];
  }

  lemma {:induction false} PairLinkKeepsSymmetric<T>(e: Adjacency<T>, a: T, b: T, d: Dir, na: map<T, Dir>, nb: map<T, Dir>)
    requires Symmetric(e) && a != b
    requires a in e ==> e[a] == na
    requires a !in e ==> na == map[]
    requires b in e ==> e[b] == nb
    requires b !in e ==> nb == map[]
    requires b in na <==> a in nb
    ensures Symmetric(e[a := if b in na then na else na[b := d]][b := if a in nb then nb else nb[a := Opposite(d)]])
  {
    var na' := if b in na then na else na[b := d];
    var nb' := if a in nb then nb else nb[a := Opposite(d)];
    var r := e[a := na'][b := nb'];
    forall v, w | v in r && w in r[v]
      ensures EdgeMirrored(r, v, w)
    {
      PairLinkMirrorsEdge(e, a, b, d, na, nb, v, w);
    }
  }

  /** One edge of the linked graph has its mirror. */
  lemma {:induction false} PairLinkMirrorsEdge<T>(e: Adjacency<T>, a: T, b: T, d: Dir, na: map<T, Dir>, nb: map<T, Dir>, v: T, w: T)
    requires Symmetric(e) && a != b
    requires a in e ==> e[a] == na
    requires a !in e ==> na == map[]
    requires b in e ==> e[b] == nb
    requires b !in e ==> nb == map[]
    requires b in na <==> a in nb
    requires var r := e[a := if b in na then na else na[b := d]][b := if a in nb then nb else nb[a := Opposite(d)]];
      v in r && w in r[v]
    ensures EdgeMirrored(e[a := if b in na then na else na[b := d]][b := if a in nb then nb else nb[a := Opposite(d)]], v, w)
  {
    var na' := if b in na then na else na[b := d];
    var nb' := if a in nb then nb else nb[a := Opposite(d)];
    var r := e[a := na'][b := nb'];
    assert r[a] == na' && r[b] == nb';
    if v == a && w == b {
      if b in na {
        assert EdgeMirrored(e, a, b);
      }
    } else if v == b && w == a {
      OppositeInvolution(d);
      if b in na {
        assert EdgeMirrored(e, a, b);
      }
    } else if v == a {
      assert w in e[a] && EdgeMirrored(e, a, w);
      assert w != b && w in r && r[w] == e[w];
    } else if v == b {
      assert w in e[b] && EdgeMirrored(e, b, w);
      assert w != a && w in r && r[w] == e[w];
    } else {
      assert v in e && r[v] == e[v] && w in e[v];
      assert EdgeMirrored(e, v, w);
      var rw := if w == b then nb' else if w == a then na' else e[w];
      assert r[w] == rw;
    }
  }

  lemma {:induction false} UnlinkKeepsSymmetric<T>(e: Adjacency<T>, a: T, b: T)
    requires Symmetric(e) && a in e && b in e
    ensures Symmetric(Unlink(e, a, b))
  {
    var r := Unlink(e, a, b);
    forall v, w | v in r && w in r[v]
      ensures EdgeMirrored(r, v, w)
    {
      var rv := if v == b then e[b] - {a} else if v == a then e[a] - {b} else e[v];
      assert r[v] == rv;
      assert w in e[v] && EdgeMirrored(e, v, w);
      var rw := if w == b then e[b] - {a} else if w == a then e[a] - {b} else e[w];
      assert r[w] == rw;
    }
  }

  lemma {:induction false} RemoveVertexKeepsSymmetric<T>(e: Adjacency<T>, n: T)
    requires Symmetric(e)
    ensures Symmetric(RemoveVertex(e, n))
  {
    var r := RemoveVertex(e, n);
    forall v, w | v in r && w in r[v]
      ensures EdgeMirrored(r, v, w)
    {
      assert v != n && w != n && r[v] == e[v] - {n};
      assert w in e[v] && EdgeMirrored(e, v, w);
      assert w in r && r[w] == e[w] - {n};
    }
  }

  class DirectedGraph {
    var vertices: set<Node>
    /** The edges held by the vertices, as a value. */
    ghost var edges: Adjacency<Node>

    constructor ()
      ensures vertices == {} && Valid()
    {
      vertices := {};
      edges := map[];
    }

    /** Every vertex keeps its two maps inverse, and the edges are symmetric. */
    ghost predicate Valid()
      reads this, vertices
    {
      (forall v :: v in edges ==> v in vertices) &&
      (forall v :: v in vertices ==> v in edges && v.Valid() && v.neighbours == edges[v]) &&
      Symmetric(edges)
    }

    function Size(): (r: nat)
      reads this
      ensures r == 0 <==> vertices == {}
    {
      |vertices|
    }

    /**
     * Adds both ends as vertices, then links first -> second with `direction`
     * and second -> first with its opposite, each only when not linked yet.
     * The preconditions are what keeps Node.AddEdge from throwing.
     */
    method AddEdge(first: Node, second: Node, direction: Dir)
      requires first.Valid() && second.Valid()
      requires second in first.neighbours || direction !in first.reverseNeighbours
      requires first != second ==> first in second.neighbours || Opposite(direction) !in second.reverseNeighbours
      modifies this, first, second
      ensures vertices == old(vertices) + {first, second}
      ensures Size() == old(Size()) + |{first, second} - old(vertices)|
      ensures first.Valid() && second.Valid()
      ensures first.IsNeighbour(second)
      ensures second in old(first.neighbours) ==>
                first.neighbours == old(first.neighbours) && first.reverseNeighbours == old(first.reverseNeighbours)
      ensures second !in old(first.neighbours) ==>
                first.neighbours == old(first.neighbours)[second := direction] &&
                first.reverseNeighbours == old(first.reverseNeighbours)[direction := second]
      ensures first != second && first in old(second.neighbours) ==>
                second.neighbours == old(second.neighbours) && second.reverseNeighbours == old(second.reverseNeighbours)
      ensures first != second && first !in old(second.neighbours) ==>
                second.neighbours == old(second.neighbours)[first := Opposite(direction)] &&
                second.reverseNeighbours == old(second.reverseNeighbours)[Opposite(direction) := first]
      ensures first.previous == old(first.previous) && second.previous == old(second.previous)
      ensures old(Valid()) && first != second &&
              (first in old(vertices) || old(first.neighbours) == map[]) &&
              (second in old(vertices) || old(second.neighbours) == map[]) ==>
                Valid() && edges == Link(WithVertex(WithVertex(old(edges), first), second), first, second, direction)
    {
      ghost var e0, v0, na, nb := edges, vertices, first.neighbours, second.neighbours;
      AddToList(first);
      AddToList(second);
      AddNeighbors(first, second, direction);
      edges := edges[first := first.neighbours][second := second.neighbours];
      if old(Valid()) && first != second &&
         (first in v0 || na == map[]) && (second in v0 || nb == map[]) {
        forall v | v in v0 && v != first && v != second
          ensures v in e0 && v.Valid() && v.neighbours == e0[v]
        {
          assert old(v.Valid()) && old(v.neighbours) == e0[v];
        }
        LinkedIsValid(e0, v0, first, second, direction, na, nb);
      }
    }

    /**
     * The vertex set and edges AddEdge leaves behind are valid when they
     * were before, its ends are distinct and each was a vertex or edgeless.
     */
    lemma LinkedIsValid(e0: Adjacency<Node>, v0: set<Node>, first: Node, second: Node, direction: Dir,
                        na: map<Node, Dir>, nb: map<Node, Dir>)
      requires Symmetric(e0) && (forall v :: v in e0 ==> v in v0) && first != second
      requires forall v :: v in v0 && v != first && v != second ==> v in e0 && v.Valid() && v.neighbours == e0[v]
      requires first in v0 ==> first in e0 && e0[first] == na
      requires first !in v0 ==> na == map[]
      requires second in v0 ==> second in e0 && e0[second] == nb
      requires second !in v0 ==> nb == map[]
      requires vertices == v0 + {first, second}
      requires first.Valid() && second.Valid()
      requires first.neighbours == if second in na then na else na[second := direction]
      requires second.neighbours == if first in nb then nb else nb[first := Opposite(direction)]
      requires edges == e0[first := first.neighbours][second := second.neighbours]
      ensures Valid() && edges == Link(WithVertex(WithVertex(e0, first), second), first, second, direction)
    {
      LinkKeepsSymmetric(e0, first, second, direction, na, nb);
    }

    method AddToList(v: Node)
      modifies this
      ensures vertices == old(vertices) + {v} && edges == old(edges)
    {
      vertices := vertices + {v};
    }

    /** Links `start` -> `end` and `end` -> `start`; the vertex-set lookups of the source return the same objects. */
    method AddNeighbors(start: Node, end: Node, direction: Dir)
      requires start.Valid() && end.Valid()
      requires end in start.neighbours || direction !in start.reverseNeighbours
      requires start != end ==> start in end.neighbours || Opposite(direction) !in end.reverseNeighbours
      modifies start, end
      ensures start.Valid() && end.Valid()
      ensures end !in old(start.neighbours) ==>
                start.neighbours == old(start.neighbours)[end := direction] &&
                start.reverseNeighbours == old(start.reverseNeighbours)[direction := end]
      ensures end in old(start.neighbours) ==>
                start.neighbours == old(start.neighbours) && start.reverseNeighbours == old(start.reverseNeighbours)
      ensures start != end && start !in old(end.neighbours) ==>
                end.neighbours == old(end.neighbours)[start := Opposite(direction)] &&
                end.reverseNeighbours == old(end.reverseNeighbours)[Opposite(direction) := start]
      ensures start != end && start in old(end.neighbours) ==>
                end.neighbours == old(end.neighbours) && end.reverseNeighbours == old(end.reverseNeighbours)
      ensures start.previous == old(start.previous) && end.previous == old(end.previous)
    {
      var opposite := Opposite(direction);
      AddNeighbor(start, end, direction);
      AddNeighbor(end, start, opposite);
    }

    /** Installs `start` -> `end` unless `end` is already a neighbour of `start`. */
    method AddNeighbor(start: Node, end: Node, direction: Dir)
      requires start.Valid()
      requires end in start.neighbours || direction !in start.reverseNeighbours
      modifies start
      ensures start.Valid() && start.IsNeighbour(end)
      ensures end !in old(start.neighbours) ==>
                start.neighbours == old(start.neighbours)[end := direction] &&
                start.reverseNeighbours == old(start.reverseNeighbours)[direction := end]
      ensures end in old(start.neighbours) ==>
                start.neighbours == old(start.neighbours) && start.reverseNeighbours == old(start.reverseNeighbours)
      ensures start.previous == old(start.previous)
    {
      if !start.IsNeighbour(end) {
        start.AddEdge(direction, end);
      }
    }

    /** Unlinks the two vertices in both directions; does nothing unless both are vertices. */
    method RemoveEdge(first: Node, second: Node)
      requires first.Valid() && second.Valid()
      modifies this, first, second
      ensures vertices == old(vertices)
      ensures first.Valid() && second.Valid()
      ensures first in vertices && second in vertices ==>
                first.neighbours == old(first.neighbours) - {second} &&
                second.neighbours == old(second.neighbours) - {first} &&
                !first.IsNeighbour(second) && !second.IsNeighbour(first)
      ensures !(first in vertices && second in vertices) ==>
                first.neighbours == old(first.neighbours) && second.neighbours == old(second.neighbours) &&
                first.reverseNeighbours == old(first.reverseNeighbours) &&
                second.reverseNeighbours == old(second.reverseNeighbours)
      ensures first.previous == old(first.previous) && second.previous == old(second.previous)
      ensures old(Valid()) ==> Valid()
      ensures old(Valid()) && first in vertices && second in vertices ==> edges == Unlink(old(edges), first, second)
    {
      ghost var wasValid := Valid();
      if first in vertices && second in vertices {
        RemoveNeighbors(first, second);
        RemoveNeighbors(second, first);
        if wasValid {
          edges := Unlink(edges, first, second);
          UnlinkKeepsSymmetric(old(edges), first, second);
          forall v | v in vertices
            ensures v in edges && v.Valid() && v.neighbours == edges[v]
          {
            if v != first && v != second {
              assert v.neighbours == old(v.neighbours) == old(edges)[v];
            }
          }
        }
      }
    }

    method RemoveNeighbors(first: Node, second: Node)
      requires first.Valid() && second.Valid()
      modifies first, second
      ensures first.Valid() && second.Valid()
      ensures first.neighbours == old(first.neighbours) - {second}
      ensures second.neighbours == old(second.neighbours) - {first}
      ensures first.previous == old(first.previous) && second.previous == old(second.previous)
    {
      RemoveNeighbour(first, second);
      RemoveNeighbour(second, first);
    }

    method RemoveNeighbour(start: Node, end: Node)
      requires start.Valid()
      modifies start
      ensures start.Valid() && !start.IsNeighbour(end)
      ensures start.neighbours == old(start.neighbours) - {end}
      ensures end !in old(start.neighbours) ==> start.reverseNeighbours == old(start.reverseNeighbours)
      ensures start.previous == old(start.previous)
    {
      if start.IsNeighbour(end) {
        start.RemoveEdge(end);
      }
    }

    /**
     * Drops `node` from every vertex's maps, then from the vertex set.
     * The removed node's own outgoing map is left as it was.
     */
    method RemoveNode(node: Node)
      requires forall v :: v in vertices ==> v.Valid()
      modifies this, vertices
      ensures vertices == old(vertices) - {node}
      ensures Size() == old(Size()) - (if node in old(vertices) then 1 else 0)
      ensures forall v :: v in old(vertices) ==>
                v.Valid() && v.neighbours == old(v.neighbours) - {node} && v.previous == old(v.previous)
      ensures forall v :: v in old(vertices) && node !in old(v.neighbours) ==>
                v.reverseNeighbours == old(v.reverseNeighbours)
      ensures old(Valid()) ==> Valid() && edges == RemoveVertex(old(edges), node)
    {
      ghost var wasValid := Valid();
      ForgetEverywhere(vertices, node);
      vertices := vertices - {node};
      if wasValid {
        edges := RemoveVertex(edges, node);
        RemoveVertexKeepsSymmetric(old(edges), node);
        forall v | v in vertices
          ensures v in edges && v.Valid() && v.neighbours == edges[v]
        {
          assert v in old(vertices) && old(v.neighbours) == old(edges)[v];
        }
      }
    }
  }

  /** The loop of RemoveNode: every node of `vs` drops its edge to `node`. */
  method ForgetEverywhere(vs: set<Node>, node: Node)
    requires forall v :: v in vs ==> v.Valid()
    modifies vs
    ensures forall v :: v in vs ==>
              v.Valid() && v.neighbours == old(v.neighbours) - {node} && v.previous == old(v.previous)
    ensures forall v :: v in vs && node !in old(v.neighbours) ==>
              v.reverseNeighbours == old(v.reverseNeighbours)
  {
    var rest := vs;
    while rest != {}
      invariant rest <= vs
      invariant forall v :: v in vs ==> v.Valid() && v.previous == old(v.previous)
      invariant forall v :: v in vs && v !in rest ==> v.neighbours == old(v.neighbours) - {node}
      invariant forall v :: v in vs && v !in rest && node !in old(v.neighbours) ==>
                  v.reverseNeighbours == old(v.reverseNeighbours)
      invariant forall v :: v in rest ==>
                  v.neighbours == old(v.neighbours) && v.reverseNeighbours == old(v.reverseNeighbours)
      decreases rest
    {
      var v :| v in rest;
      v.RemoveEdge(node);
      rest := rest - {v};
    }
  }
}
