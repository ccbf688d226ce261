/** The undirected graph the helpers receive: a node iteration order and a symmetric edge relation. */
module Graphs {
  import opened Seqs

  /**
   * `nodes` is the graph's node iteration order (the order of `G.nodes`);
   * `edges` holds each undirected edge in both orientations.
   */
  datatype Graph<N(==)> = Graph(nodes: seq<N>, edges: set<(N, N)>)

  /**
   * A networkx `Graph`: distinct nodes and symmetric edges between known nodes.
   * A self-loop `(v, v)` is allowed and is its own reverse.
   */
  predicate Valid<N(==)>(g: Graph<N>) {
    && Distinct(g.nodes)
    && forall e :: e in g.edges ==> e.0 in g.nodes && e.1 in g.nodes && (e.1, e.0) in g.edges
  }

  /** `G[v]`: the nodes adjacent to `v`, `v` itself included when it has a self-loop. */
  function Neighbours<N(==)>(g: Graph<N>, v: N): set<N> {
    set u | u in g.nodes && (v, u) in g.edges
  }

  /** `G.degree(v)`: the number of neighbours, with a self-loop counted twice as networkx does. */
  function Degree<N(==)>(g: Graph<N>, v: N): nat {
    |Neighbours(g, v)| + (if v in Neighbours(g, v) then 1 else 0)
  }

  /**
   * `G.subgraph(members)`: the members as nodes and the edges with both ends among them.
   * The engines receive the whole graph value and may see its node order, but no contract depends on it.
   */
  function InducedSubgraph<N(==)>(g: Graph<N>, members: seq<N>): Graph<N> {
    Graph(members, set e | e in g.edges && e.0 in members && e.1 in members)
  }

  /** The induced subgraph of a valid graph on distinct member nodes is itself valid, and loses only edges. */
  lemma InducedSubgraphValid<N>(g: Graph<N>, members: seq<N>)
    requires Valid(g) && Distinct(members)
    ensures Valid(InducedSubgraph(g, members))
    ensures InducedSubgraph(g, members).edges <= g.edges
    ensures forall u, v :: u in members && v in members && (u, v) in g.edges ==> (u, v) in InducedSubgraph(g, members).edges
  {
  }

  /** A self-loop adds 2 to a node's degree, every other neighbour 1, as `G.degree` counts. */
  lemma SelfLoopDegree<N>(g: Graph<N>, v: N)
    requires v in g.nodes
    ensures Degree(g, v) == |Neighbours(g, v) - {v}| + (if (v, v) in g.edges then 2 else 0)
  {
    if (v, v) in g.edges {
      assert v in Neighbours(g, v);
      assert Neighbours(g, v) == (Neighbours(g, v) - {v}) + {v};
    } else {
      assert Neighbours(g, v) - {v} == Neighbours(g, v);
    }
  }
}
