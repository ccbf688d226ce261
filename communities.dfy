/**
 * `find_communities` and `community_with_node`: grouping the nodes by the
 * community id a partition assigns them.
 */
module Communities {
  import opened Outcomes
  import opened Seqs
  import opened Graphs

  /** A partition (the Louvain result) of a graph assigns every node of it a community id. */
  predicate Covers<N(==)>(g: Graph<N>, partition: map<N, nat>) {
    Valid(g) && partition.Keys == Elems(g.nodes)
  }

  /** `max(partition.values())` over the nodes of a non-empty graph. */
  function MaxId<N(==)>(nodes: seq<N>, partition: map<N, nat>): (m: nat)
    requires |nodes| > 0 && forall v :: v in nodes ==> v in partition
    ensures forall v :: v in nodes ==> partition[v] <= m
    ensures exists v :: v in nodes && partition[v] == m
  {
    if |nodes| == 1 then partition[nodes[0]]
    else
      var m := MaxId(nodes[1..], partition);
      assert nodes[1] in nodes[1..];
      if partition[nodes[0]] > m then partition[nodes[0]] else m
  }

  /** The nodes whose community id is `i`, in node iteration order: the keys of `selected_data`. */
  function Members<N(==)>(nodes: seq<N>, partition: map<N, nat>, i: nat): (r: seq<N>)
    requires forall v :: v in nodes ==> v in partition
    ensures forall v :: v in r ==> v in nodes && partition[v] == i
    ensures forall v :: v in nodes && partition[v] == i ==> v in r
    ensures Distinct(nodes) ==> Distinct(r)
  {
    if nodes == [] then []
    else
      var rest := Members(nodes[1..], partition, i);
      if partition[nodes[0]] == i then [nodes[0]] + rest else rest
  }

  /** Every id from 0 to the largest has at least one node: the ids have no gap. */
  ghost predicate Contiguous<N>(g: Graph<N>, partition: map<N, nat>)
    requires Covers(g, partition) && |g.nodes| > 0
  {
    forall i :: 0 <= i <= MaxId(g.nodes, partition) ==> |Members(g.nodes, partition, i)| > 0
  }

  /** The conditions under which `find_communities` returns instead of raising. */
  ghost predicate Groupable<N>(g: Graph<N>, partition: map<N, nat>)
    requires Covers(g, partition)
  {
    |g.nodes| > 0 && Contiguous(g, partition)
  }

  /**
   * `find_communities(G)` with the Louvain partition given: for each id `i` in
   * `0..max`, the list of nodes with id `i`. An empty graph raises ValueError
   * (`max` of nothing); an id with no node raises IndexError (`[0]` of an empty list).
   */
  method FindCommunities<N(==)>(g: Graph<N>, partition: map<N, nat>) returns (r: Result<map<nat, seq<N>>>)
    requires Covers(g, partition)
    ensures r.Ok? <==> Groupable(g, partition)
    ensures r.Err? ==> r.failure == (if |g.nodes| == 0 then EmptyArgument else IndexOutOfRange)
    ensures r.Ok? ==> forall i: nat :: i in r.value <==> i <= MaxId(g.nodes, partition)
    ensures r.Ok? ==> forall i :: i in r.value ==> r.value[i] == Members(g.nodes, partition, i)
    ensures r.Ok? ==> forall v :: v in g.nodes ==> partition[v] in r.value && v in r.value[partition[v]]
    ensures r.Ok? ==> forall i, v :: i in r.value && v in r.value[i] ==> v in g.nodes && i == partition[v]
  {
    if |g.nodes| == 0 {
      return Err(EmptyArgument);
    }
    var top := MaxId(g.nodes, partition);
    var dict: map<nat, seq<N>> := map[];
    for i := 0 to top + 1
      invariant forall j: nat :: j in dict <==> j < i
      invariant forall j :: j in dict ==> dict[j] == Members(g.nodes, partition, j) && |dict[j]| > 0
    {
      var selected := Members(g.nodes, partition, i);
      if |selected| == 0 {
        return Err(IndexOutOfRange);
      }
      dict := dict[i := selected];
    }
    return Ok(dict);
  }

  /** The keys `0..n-1` in insertion order: the order in which `find_communities` added them. */
  function Range(n: nat): (r: seq<nat>)
    ensures |r| == n && forall k :: 0 <= k < n ==> r[k] == k
  {
    seq(n, k requires 0 <= k < n => k)
  }

  /** `[nodes for community, nodes in communities.items() if node in nodes]`, visiting the keys in `keys` order. */
  function Containing<N(==)>(communities: map<nat, seq<N>>, keys: seq<nat>, node: N): (r: seq<seq<N>>)
    requires forall k :: k in keys ==> k in communities
    ensures forall l :: l in r ==> node in l && exists k :: k in keys && communities[k] == l
    ensures (exists k :: k in keys && node in communities[k]) ==> |r| > 0
  {
    if keys == [] then []
    else
      var rest := Containing(communities, keys[1..], node);
      assert forall k :: k in keys[1..] ==> k in keys;
      if node in communities[keys[0]] then [communities[keys[0]]] + rest else rest
  }

  /**
   * `community_with_node(G, node)` with the partition given: the first community
   * list that holds `node`. A node in no list raises IndexError.
   */
  method CommunityWithNode<N(==)>(g: Graph<N>, partition: map<N, nat>, node: N) returns (r: Result<seq<N>>)
    requires Covers(g, partition)
    ensures r.Ok? <==> Groupable(g, partition) && node in g.nodes
    ensures r.Err? ==> r.failure == (if |g.nodes| == 0 then EmptyArgument else IndexOutOfRange)
    ensures r.Ok? ==> node in r.value && r.value == Members(g.nodes, partition, partition[node])
    ensures r.Ok? ==> forall v :: v in r.value <==> v in g.nodes && partition[v] == partition[node]
  {
    var communities := FindCommunities(g, partition);
    if communities.Err? {
      return Err(communities.failure);
    }
    var d := communities.value;
    var keys := Range(MaxId(g.nodes, partition) + 1);
    assert forall k :: k in keys ==> k in d;
    var hits := Containing(d, keys, node);
    if node in g.nodes {
      assert keys[partition[node]] == partition[node];
      assert partition[node] in keys && node in d[partition[node]];
    }
    if |hits| == 0 {
      return Err(IndexOutOfRange);
    }
    assert hits[0] in hits;
    return Ok(hits[0]);
  }
}
