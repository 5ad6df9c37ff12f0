/**
 The undirected adjacency store `Graph` of
 src/task_service/common/object/graph.rs: a map from each node to the set of
 its neighbours. Nodes appear implicitly the first time an edge mentions them.
 */
module GraphStore {
  import opened Reach

  datatype Graph = Graph(adjacency: map<int, set<int>>)

  /** Neighbours of `u` in the store; empty for a node never mentioned. */
  function Neighbours(g: Graph, u: int): set<int>
  {
    Succ(g.adjacency, u)
  }

  /** Every edge is stored at both of its ends. */
  ghost predicate Symmetric(g: Graph)
  {
    forall x, w :: w in Neighbours(g, x) ==> x in Neighbours(g, w)
  }

  /** `Graph::new`: a store with no nodes, hence trivially symmetric. */
  function New(): (g: Graph)
    ensures forall u :: Neighbours(g, u) == {}
    ensures Symmetric(g)
  {
    Graph(map[])
  }

  /** `Graph::add_edge`: two `entry(..).or_insert_with(HashSet::new).insert(..)`
      steps, the second one seeing the result of the first. */
  function AddEdge(g: Graph, u: int, v: int): (r: Graph)
    ensures Neighbours(r, u) == Neighbours(g, u) + {v}
    ensures Neighbours(r, v) == Neighbours(g, v) + {u}
    ensures forall x :: x != u && x != v ==> Neighbours(r, x) == Neighbours(g, x)
    ensures r.adjacency.Keys == g.adjacency.Keys + {u, v}
  {
    var a := g.adjacency[u := Succ(g.adjacency, u) + {v}];
    Graph(a[v := Succ(a, v) + {u}])
  }

  /** Adding an edge that is already there changes nothing. */
  lemma AddEdgeIdempotent(g: Graph, u: int, v: int)
    ensures AddEdge(AddEdge(g, u, v), u, v) == AddEdge(g, u, v)
  {
  }

  /** The order of the two endpoints does not matter. */
  lemma AddEdgeCommutes(g: Graph, u: int, v: int)
    ensures AddEdge(g, u, v) == AddEdge(g, v, u)
  {
  }

  /** Symmetry is an invariant of the store: `add_edge` preserves it. */
  lemma AddEdgeKeepsSymmetric(g: Graph, u: int, v: int)
    requires Symmetric(g)
    ensures Symmetric(AddEdge(g, u, v))
  {
  }

  /** `w` and `x` were joined by one of the added pairs, in either order. */
  ghost predicate Added(edges: seq<(int, int)>, x: int, w: int)
  {
    exists i :: 0 <= i < |edges| && (edges[i] == (x, w) || edges[i] == (w, x))
  }

  /** Every graph built from `new` by `add_edge` calls is symmetric, each
      added pair is an edge in both directions, and it has no other edges. */
  function Build(edges: seq<(int, int)>): (g: Graph)
    ensures Symmetric(g)
    ensures forall i :: 0 <= i < |edges| ==>
      edges[i].1 in Neighbours(g, edges[i].0) && edges[i].0 in Neighbours(g, edges[i].1)
    ensures forall x, w :: w in Neighbours(g, x) ==> Added(edges, x, w)
  {
    if edges == [] then New()
    else
      var front := edges[..|edges| - 1];
      var g0 := Build(front);
      var e := edges[|edges| - 1];
      AddEdgeKeepsSymmetric(g0, e.0, e.1);
      BuildStep(front, g0, e);
      AddEdge(g0, e.0, e.1)
  }

  /** The pairs stored after one more `add_edge` are the earlier ones plus
      the new pair. */
  lemma BuildStep(front: seq<(int, int)>, g0: Graph, e: (int, int))
    requires forall x, w :: w in Neighbours(g0, x) ==> Added(front, x, w)
    ensures forall x, w :: w in Neighbours(AddEdge(g0, e.0, e.1), x) ==> Added(front + [e], x, w)
  {
    var edges := front + [e];
    var r := AddEdge(g0, e.0, e.1);
    forall x, w | w in Neighbours(r, x)
      ensures Added(edges, x, w)
    {
      if (x, w) == e || (w, x) == e {
        assert edges[|front|] == e;
      } else {
        assert w in Neighbours(g0, x);
        var i :| 0 <= i < |front| && (front[i] == (x, w) || front[i] == (w, x));
        assert edges[i] == front[i];
      }
    }
  }
}
