# MySNA selection and grouping, modelled in Dafny

MySNA is a small social-network-analysis helper library built on networkx and
python-louvain. This project models the code in `MySNA/MySNA.py` that runs on
the numbers those libraries compute and proves properties of it:

- the node of highest and of lowest degree (`node_with_max_degree`,
  `node_with_min_degree`);
- the top-n ranking of a centrality dictionary, shared by the three
  `get_first_n_highest_*_nodes` helpers: a stable descending sort on the
  score, then the slice `[:n]`;
- the "highest" and "lowest" centrality nodes that `problemsolver` reads off
  that ranking (`[0]` of the top-1 list, `[-1]` of the full list);
- grouping a community partition into per-community node lists
  (`find_communities`), finding the list that holds a node
  (`community_with_node`);
- the influencers of each community (`find_community_influencers`) and of one
  node's community (the selection in `draw_community_with_node`): the nodes in
  both the top three by betweenness and the top three by closeness of the
  community's induced subgraph.

Modules, one file each:

- `outcomes.dfy` (`Outcomes`): `Result` and the two Python exceptions the
  code can raise: `ValueError` from `max`/`min` of nothing (`EmptyArgument`)
  and `IndexError` from `[0]` or `[-1]` of an empty list (`IndexOutOfRange`).
- `seqs.dfy` (`Seqs`): distinctness and the element set of a sequence.
- `graphs.dfy` (`Graphs`): a graph is its node sequence, in networkx
  iteration order, plus a symmetric edge relation that may hold self-loops.
  It also defines degree and the induced subgraph.
- `degrees.dfy` (`Degrees`): the degree extrema.
- `ranking.dfy` (`Ranking`): a centrality dictionary (`ScoreMap`: insertion
  order plus scores), the stable sort, the slice, top-n, highest and lowest.
- `communities.dfy` (`Communities`): `find_communities` and
  `community_with_node`.
- `influencers.dfy` (`Influencers`): influencer selection.

The numbers come in from outside the model:

- The Louvain partition is a parameter: a map from node to community id that
  covers the graph.
- The betweenness and closeness engines are function parameters from a graph
  to a score dictionary. The model only requires that an engine's dictionary
  has exactly one entry per node of the graph it is given.

The model follows Python's own behaviour where it matters:

- `[:n]` with `n <= 0` raises nothing. Python slicing applies, so a negative
  `n` drops entries from the end.
- `community_with_node` for a node outside the graph raises `IndexError`
  from the `[0]` of an empty list.
- An empty graph makes `max` and `min` raise `ValueError`.
- A gap in the community ids makes `find_communities` raise `IndexError`.
- `G.degree` counts a self-loop twice.

## Model

| member | source | states |
|---|---|---|
| Degrees.FirstArgMax | MySNA/MySNA.py:21 | `max(..., key=...)` over a non-empty sequence picks a position whose key is at least every other key, and every earlier key is strictly smaller (the first maximum wins) |
| Degrees.FirstArgMin | MySNA/MySNA.py:40 | `min(..., key=...)` picks a position whose key is at most every other key, and every earlier key is strictly larger (the first minimum wins) |
| Degrees.NodeWithMaxDegree | MySNA/MySNA.py:21-22 | an empty graph and only an empty graph raises ValueError; otherwise the pair is (v, degree of v), where v is the first node in iteration order whose degree no node exceeds |
| Degrees.NodeWithMinDegree | MySNA/MySNA.py:40-41 | an empty graph and only an empty graph raises ValueError; otherwise the pair is (v, degree of v), where v is the first node in iteration order whose degree no node undercuts |
| Ranking.Insert | MySNA/MySNA.py:64 | one insertion step of the sort adds exactly the new item (as multisets) and nothing else |
| Ranking.SortDescending | MySNA/MySNA.py:64 | the sorted list is a permutation of the items |
| Ranking.InsertNonIncreasing | MySNA/MySNA.py:64 | an insertion step keeps the list in descending score order |
| Ranking.InsertDistinctKeys | MySNA/MySNA.py:64 | inserting a node not yet listed keeps the nodes distinct |
| Ranking.SortDescendingSorted | MySNA/MySNA.py:64 | the sorted list never increases in score, and it lists distinct nodes when the input does |
| Ranking.InsertStable | MySNA/MySNA.py:64 | among the items of any one score, an inserted item lands after the ones already there |
| Ranking.SortDescendingStable | MySNA/MySNA.py:64 | `sorted(..., reverse=True)` is stable: for every score, the items with that score appear in the same relative order as in the input |
| Ranking.RankedLength | MySNA/MySNA.py:64 | the sorted list has one entry per dictionary key |
| Ranking.RankedSorted | MySNA/MySNA.py:64 | the sorted list is in descending score order |
| Ranking.RankedDistinct | MySNA/MySNA.py:64 | the sorted list names each key once |
| Ranking.RankedConsistent | MySNA/MySNA.py:64 | every sorted entry carries its key's score from the dictionary |
| Ranking.RankedCovers | MySNA/MySNA.py:64 | every dictionary key appears in the sorted list |
| Ranking.TopN | MySNA/MySNA.py:64-65 | the result has the slice length and every returned node is a key of the dictionary |
| Ranking.TopNDistinct | MySNA/MySNA.py:64-65 | no node is returned twice |
| Ranking.TopNOrdered | MySNA/MySNA.py:64-65 | scores never increase along the returned list |
| Ranking.TopNSeparates | MySNA/MySNA.py:64-65 | every key left out scores no higher than every returned node |
| Ranking.TopNAll | MySNA/MySNA.py:64-65 | with n at least the number of keys, the returned nodes are exactly the dictionary's keys |
| Ranking.TopNStable | MySNA/MySNA.py:64-65 | for every score, the returned nodes with that score are a prefix of the dictionary's keys with that score, in dictionary order; with n at least the number of keys they are all of them |
| Ranking.RankedFirst | MySNA/MySNA.py:314-316 | the top-1 list of a non-empty dictionary has one node; it has the greatest score and is the first key in dictionary order with that score |
| Ranking.Highest | MySNA/MySNA.py:314-316 | `top_n(G, 1)[0]` raises IndexError exactly when the dictionary is empty; otherwise it is a node of greatest score, the first key in dictionary order with that score |
| Ranking.RankedLastIsMin | MySNA/MySNA.py:317-319 | the last entry of the full ranking has the least score |
| Ranking.RankedLastIsLastTied | MySNA/MySNA.py:317-319 | the last entry of the full ranking is the last key in dictionary order with its score |
| Ranking.RankedLast | MySNA/MySNA.py:317-319 | both facts above together, for a non-empty dictionary |
| Ranking.Lowest | MySNA/MySNA.py:317-319 | `top_n(G, num_nodes)[-1]` raises IndexError exactly when the dictionary is empty; otherwise it is a node of least score, the last key in dictionary order with that score |
| Communities.MaxId | MySNA/MySNA.py:140 | `max(partition.values())` is at least every node's id and is some node's id |
| Communities.Members | MySNA/MySNA.py:141-142 | `selected_data` holds exactly the nodes with id i, and they are distinct when the graph's nodes are |
| Communities.FindCommunities | MySNA/MySNA.py:137-145 | raises exactly when the graph is empty (ValueError) or some id in 0..max has no node (IndexError); otherwise the keys are exactly 0..max, list i is the nodes with id i in node order, and every node is in the list of its own id and in no other |
| Communities.Containing | MySNA/MySNA.py:166 | the comprehension keeps only community lists that hold the node, and keeps at least one when some list holds it |
| Communities.CommunityWithNode | MySNA/MySNA.py:165-168 | raises as `find_communities` does, and also with IndexError when the node is not in the graph; otherwise the list holds the node and exactly the nodes sharing its community id |
| Graphs.InducedSubgraphValid | MySNA/MySNA.py:214 | the subgraph on a community is a valid graph whose edges are exactly the original edges between members |
| Graphs.SelfLoopDegree | MySNA/MySNA.py:22 | a self-loop adds 2 to a node's degree, every other neighbour 1 |
| Influencers.CommunityInfluencers | MySNA/MySNA.py:214-217 | a community's influencers are exactly the nodes in both the top three by betweenness and the top three by closeness of the induced subgraph; they are members of the community, at most three, and all its members when it has at most three nodes |
| Influencers.TopThreeBound | MySNA/MySNA.py:217 | intersecting with a top-three list leaves at most three nodes |
| Influencers.SmallCommunity | MySNA/MySNA.py:215-216 | a top-three list of a subgraph holds only its nodes, and all of them when it has at most three |
| Influencers.InfluencersOfEach | MySNA/MySNA.py:212-218 | the loop produces one entry per community key, and entry i is the influencer set of list i |
| Influencers.FindCommunityInfluencers | MySNA/MySNA.py:211-220 | raises exactly as `find_communities` does; otherwise the keys are exactly 0..max and entry i is the influencer set of community i |
| Influencers.CommunityWithNodeInfluencers | MySNA/MySNA.py:271-275 | raises exactly as `community_with_node` does; otherwise the result is the influencer set of the node's community, and every influencer shares the node's community id |

## Left out

- Betweenness, closeness and eigenvector centrality (MySNA/MySNA.py:62, 87,
  111) are networkx numerics. The model takes their dictionaries as inputs,
  and the three top-n helpers become one generic `Ranking.TopN`.
- The Louvain partition (`community_louvain.best_partition`, MySNA/MySNA.py:137,
  189) is randomised library code. It is an input map. Each call in the
  source runs it again and may get a different partition; the model uses one
  partition throughout.
- `nx.set_node_attributes` (MySNA/MySNA.py:63, 88, 112, 138) writes into the
  caller's graph. The only attribute read back is the community id, which
  equals the partition, so the model reads the partition directly.
- `G.subgraph` is modelled as a new graph with the community's nodes, in graph
  order, and the edges between them. networkx views, attribute sharing and
  edge order are not modelled.
- Influencers.CommunityInfluencers: `list(set(...) & set(...))` has a
  hash-dependent order, so influencers are a `set`, not a list.
- Influencers.InfluencersOfEach: the loop takes the keys in any order, not
  the dictionary's insertion order. The resulting dictionary has the same
  entries either way.
- Influencers.FindCommunityInfluencers: the contract does not restate that
  every influencer of entry i has community id i. That follows from entry i
  being `CommunityInfluencers` of `Members(..., i)`: the first is a subset of
  its members, and the second holds only nodes with id i.
- Influencers: the engines are only required to key every node of the (valid) graph
  they are given. Their dictionaries' order is unconstrained, because a
  networkx subgraph view may list its nodes in the order of the requested node
  set rather than graph order; so the model does not claim which tied node
  networkx would list first.
- Drawing and output: `draw_communities`, `draw_community_influencers`, the
  drawing half of `draw_community_with_node`, and the `print` calls and
  `len(communities)` count in `problemsolver` are matplotlib and console
  output.
- Scores are `real`s, and the model only compares them. Floating-point
  values and NaN scores, whose comparisons are not a total order, are not
  modelled.
- Ranking.Lowest: the source slices with `num_nodes = len(G.nodes())`; the
  model slices with the dictionary's size. The two agree because each
  networkx centrality dictionary has one entry per node of `G`; the model
  takes the dictionary as input and does not check that.
- `problemsolver` itself is not modelled as one procedure. Its highest and
  lowest selections are `Ranking.Highest` and `Ranking.Lowest`, and its
  degree lines are the `Degrees` functions.
- `setup.py` is packaging metadata.
