/** `node_with_max_degree` and `node_with_min_degree`: Python's `max`/`min` over the nodes, keyed by degree. */
module Degrees {
  import opened Outcomes
  import opened Graphs

  /**
   * The index Python's `max(xs, key=k)` picks: it scans left to right and
   * replaces its candidate only on a strictly larger key, so the first maximum wins.
   */
  function FirstArgMax(keys: seq<int>): (i: nat)
    requires |keys| > 0
    ensures i < |keys|
    ensures forall j :: 0 <= j < |keys| ==> keys[j] <= keys[i]
    ensures forall j :: 0 <= j < i ==> keys[j] < keys[i]
  {
    if |keys| == 1 then 0
    else
      var i := FirstArgMax(keys[..|keys| - 1]);
      if keys[|keys| - 1] > keys[i] then |keys| - 1 else i
  }

  /** The index `min(xs, key=k)` picks: the first minimum. */
  function FirstArgMin(keys: seq<int>): (i: nat)
    requires |keys| > 0
    ensures i < |keys|
    ensures forall j :: 0 <= j < |keys| ==> keys[i] <= keys[j]
    ensures forall j :: 0 <= j < i ==> keys[i] < keys[j]
  {
    if |keys| == 1 then 0
    else
      var i := FirstArgMin(keys[..|keys| - 1]);
      if keys[|keys| - 1] < keys[i] then |keys| - 1 else i
  }

  /** The degrees of the nodes, in node iteration order. */
  function DegreeSeq<N(==)>(g: Graph<N>): (d: seq<int>)
    ensures |d| == |g.nodes|
    ensures forall i :: 0 <= i < |d| ==> d[i] == Degree(g, g.nodes[i])
  {
    seq(|g.nodes|, i requires 0 <= i < |g.nodes| => Degree(g, g.nodes[i]))
  }

  /** Node `i` has the largest degree, and every earlier node a strictly smaller one. */
  ghost predicate FirstMaxDegreeAt<N>(g: Graph<N>, i: nat)
    requires i < |g.nodes|
  {
    && (forall j :: 0 <= j < |g.nodes| ==> Degree(g, g.nodes[j]) <= Degree(g, g.nodes[i]))
    && (forall j :: 0 <= j < i ==> Degree(g, g.nodes[j]) < Degree(g, g.nodes[i]))
  }

  /** Node `i` has the smallest degree, and every earlier node a strictly larger one. */
  ghost predicate FirstMinDegreeAt<N>(g: Graph<N>, i: nat)
    requires i < |g.nodes|
  {
    && (forall j :: 0 <= j < |g.nodes| ==> Degree(g, g.nodes[i]) <= Degree(g, g.nodes[j]))
    && (forall j :: 0 <= j < i ==> Degree(g, g.nodes[i]) < Degree(g, g.nodes[j]))
  }

  /** `node_with_max_degree(G)`: the pair (node, degree) for the first node of largest degree. */
  function NodeWithMaxDegree<N(==)>(g: Graph<N>): (r: Result<(N, nat)>)
    ensures r.Err? <==> |g.nodes| == 0
    ensures r.Err? ==> r.failure == EmptyArgument
    ensures r.Ok? ==> r.value.1 == Degree(g, r.value.0)
    ensures r.Ok? ==> exists i :: 0 <= i < |g.nodes| && g.nodes[i] == r.value.0 && FirstMaxDegreeAt(g, i)
  {
    if |g.nodes| == 0 then Err(EmptyArgument)
    else
      var i := FirstArgMax(DegreeSeq(g));
      Ok((g.nodes[i], Degree(g, g.nodes[i])))
  }

  /** `node_with_min_degree(G)`: the pair (node, degree) for the first node of smallest degree. */
  function NodeWithMinDegree<N(==)>(g: Graph<N>): (r: Result<(N, nat)>)
    ensures r.Err? <==> |g.nodes| == 0
    ensures r.Err? ==> r.failure == EmptyArgument
    ensures r.Ok? ==> r.value.1 == Degree(g, r.value.0)
    ensures r.Ok? ==> exists i :: 0 <= i < |g.nodes| && g.nodes[i] == r.value.0 && FirstMinDegreeAt(g, i)
  {
    if |g.nodes| == 0 then Err(EmptyArgument)
    else
      var i := FirstArgMin(DegreeSeq(g));
      Ok((g.nodes[i], Degree(g, g.nodes[i])))
  }
}
