/**
 * `find_community_influencers` and the selection half of `draw_community_with_node`:
 * a community's influencers are the nodes ranked in the top three both by
 * betweenness and by closeness within the community's induced subgraph.
 */
module Influencers {
  import opened Outcomes
  import opened Seqs
  import opened Graphs
  import opened Ranking
  import opened Communities

  /**
   * A centrality engine (networkx's `betweenness_centrality` or
   * `closeness_centrality`): its dictionary has one entry per node of the graph it is given.
   */
  ghost predicate Measures<N(!new)>(centrality: Graph<N> -> ScoreMap<N>) {
    forall h: Graph<N> :: Valid(h) ==> centrality(h).Valid() && Elems(centrality(h).order) == Elems(h.nodes)
  }

  /**
   * One community's influencers: `set(top_betweenness) & set(top_closeness)`, the
   * top three of each engine on the subgraph induced by the community.
   */
  function CommunityInfluencers<N(==, !new)>(
    g: Graph<N>, members: seq<N>, betweenness: Graph<N> -> ScoreMap<N>, closeness: Graph<N> -> ScoreMap<N>
  ): (r: set<N>)
    requires Valid(g) && Distinct(members) && Measures(betweenness) && Measures(closeness)
    ensures r <= Elems(members)
    ensures |r| <= 3
    ensures forall v :: v in r <==>
      && v in TopN(betweenness(InducedSubgraph(g, members)), 3)
      && v in TopN(closeness(InducedSubgraph(g, members)), 3)
    ensures |members| <= 3 ==> r == Elems(members)
  {
    var sg := InducedSubgraph(g, members);
    InducedSubgraphValid(g, members);
    var byBetweenness := TopN(betweenness(sg), 3);
    var byCloseness := TopN(closeness(sg), 3);
    TopThreeBound(byBetweenness, byCloseness);
    SmallCommunity(sg, betweenness);
    SmallCommunity(sg, closeness);
    Elems(byBetweenness) * Elems(byCloseness)
  }

  /** Intersecting with a list of at most three nodes leaves at most three nodes. */
  lemma TopThreeBound<N>(a: seq<N>, b: seq<N>)
    requires |a| <= 3
    ensures |Elems(a) * Elems(b)| <= 3
  {
    ElemsCard(a);
    SubsetCard(Elems(a) * Elems(b), Elems(a));
  }

  /** A community of at most three nodes is all in both top-three lists. */
  lemma SmallCommunity<N(!new)>(sg: Graph<N>, centrality: Graph<N> -> ScoreMap<N>)
    requires Valid(sg) && Measures(centrality)
    ensures Elems(TopN(centrality(sg), 3)) <= Elems(sg.nodes)
    ensures |sg.nodes| <= 3 ==> Elems(TopN(centrality(sg), 3)) == Elems(sg.nodes)
  {
    var sm := centrality(sg);
    if |sg.nodes| <= 3 {
      DistinctElemsCard(sg.nodes);
      DistinctElemsCard(sm.order);
      TopNAll(sm, 3);
    }
  }

  /**
   * `find_community_influencers(G)` with the partition given: for each community
   * id, that community's influencers. Fails as `find_communities` does.
   */
  method FindCommunityInfluencers<N(==, !new)>(
    g: Graph<N>, partition: map<N, nat>, betweenness: Graph<N> -> ScoreMap<N>, closeness: Graph<N> -> ScoreMap<N>
  ) returns (r: Result<map<nat, set<N>>>)
    requires Covers(g, partition) && Measures(betweenness) && Measures(closeness)
    ensures r.Ok? <==> Groupable(g, partition)
    ensures r.Err? ==> r.failure == (if |g.nodes| == 0 then EmptyArgument else IndexOutOfRange)
    ensures r.Ok? ==> forall i: nat :: i in r.value <==> i <= MaxId(g.nodes, partition)
    ensures r.Ok? ==> forall i :: i in r.value ==>
      r.value[i] == CommunityInfluencers(g, Members(g.nodes, partition, i), betweenness, closeness)
  {
    var communities := FindCommunities(g, partition);
    if communities.Err? {
      return Err(communities.failure);
    }
    var d := communities.value;
    var influencers := InfluencersOfEach(g, d, betweenness, closeness);
    return Ok(influencers);
  }

  /** The loop of `find_community_influencers`: one entry per community key. */
  method InfluencersOfEach<N(==, !new)>(
    g: Graph<N>, communities: map<nat, seq<N>>, betweenness: Graph<N> -> ScoreMap<N>, closeness: Graph<N> -> ScoreMap<N>
  ) returns (influencers: map<nat, set<N>>)
    requires Valid(g) && forall i :: i in communities ==> Distinct(communities[i])
    requires Measures(betweenness) && Measures(closeness)
    ensures influencers.Keys == communities.Keys
    ensures forall i :: i in communities ==>
      influencers[i] == CommunityInfluencers(g, communities[i], betweenness, closeness)
  {
    influencers := map[];
    var pending := communities.Keys;
    while pending != {}
      invariant pending <= communities.Keys
      invariant influencers.Keys == communities.Keys - pending
      invariant forall i :: i in influencers ==>
        influencers[i] == CommunityInfluencers(g, communities[i], betweenness, closeness)
      decreases pending
    {
      var i :| i in pending;
      var found := CommunityInfluencers(g, communities[i], betweenness, closeness);
      influencers := influencers[i := found];
      pending := pending - {i};
    }
  }

  /**
   * The selection in `draw_community_with_node(G, node)`: the influencers of the
   * community holding `node`. Fails as `community_with_node` does.
   */
  method CommunityWithNodeInfluencers<N(==, !new)>(
    g: Graph<N>, partition: map<N, nat>, node: N,
    betweenness: Graph<N> -> ScoreMap<N>, closeness: Graph<N> -> ScoreMap<N>
  ) returns (r: Result<set<N>>)
    requires Covers(g, partition) && Measures(betweenness) && Measures(closeness)
    ensures r.Ok? <==> Groupable(g, partition) && node in g.nodes
    ensures r.Err? ==> r.failure == (if |g.nodes| == 0 then EmptyArgument else IndexOutOfRange)
    ensures r.Ok? ==>
      r.value == CommunityInfluencers(g, Members(g.nodes, partition, partition[node]), betweenness, closeness)
    ensures r.Ok? ==> forall v :: v in r.value ==> v in g.nodes && partition[v] == partition[node]
  {
    var nodes := CommunityWithNode(g, partition, node);
    if nodes.Err? {
      return Err(nodes.failure);
    }
    return Ok(CommunityInfluencers(g, nodes.value, betweenness, closeness));
  }
}
