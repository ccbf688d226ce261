/**
 * The three `get_first_n_highest_*_nodes` helpers share one shape: sort the
 * centrality dictionary's items by score, descending, with Python's stable
 * `sorted`, keep the node of each item and slice `[:n]`.
 */
module Ranking {
  import opened Outcomes
  import opened Seqs

  /** A score dictionary: its keys in insertion order and the score of each key. */
  datatype ScoreMap<N(==)> = ScoreMap(order: seq<N>, score: map<N, real>) {
    /** What every Python dict satisfies: each key listed once, and the listed keys are the keys. */
    predicate Valid() {
      Distinct(order) && Elems(order) == score.Keys
    }
  }

  /** `d.items()`: the (node, score) pairs in key order. */
  function Items<N(==)>(sm: ScoreMap<N>): (items: seq<(N, real)>)
    requires sm.Valid()
    ensures |items| == |sm.order|
    ensures forall i :: 0 <= i < |items| ==> items[i] == (sm.order[i], sm.score[sm.order[i]])
  {
    seq(|sm.order|, i requires 0 <= i < |sm.order| => (sm.order[i], sm.score[sm.order[i]]))
  }

  /** `[tup[0] for tup in items]`. */
  function Keys<N>(items: seq<(N, real)>): (ks: seq<N>)
    ensures |ks| == |items|
    ensures forall i :: 0 <= i < |items| ==> ks[i] == items[i].0
  {
    seq(|items|, i requires 0 <= i < |items| => items[i].0)
  }

  /** No node occurs in two items. */
  ghost predicate DistinctKeys<N>(s: seq<(N, real)>) {
    forall i, j :: 0 <= i < j < |s| ==> s[i].0 != s[j].0
  }

  /** Scores never increase along `s`. */
  ghost predicate NonIncreasing<N>(s: seq<(N, real)>) {
    forall i, j :: 0 <= i < j < |s| ==> s[i].1 >= s[j].1
  }

  /**
   * The items of `s` whose score is `x`, in the order of `s`. Stability is a
   * fact about the sorted items, so it is stated with this filter; `Tied` below
   * is the same filter on bare nodes looked up in the dictionary, the form the
   * callers see, and `KeysWithScore` connects the two.
   */
  function WithScore<N>(s: seq<(N, real)>, x: real): (r: seq<(N, real)>)
  {
    if s == [] then []
    else (if s[0].1 == x then [s[0]] else []) + WithScore(s[1..], x)
  }

  /** Insert `p` into a descending list just after every item scoring at least as much as `p`. */
  function Insert<N>(s: seq<(N, real)>, p: (N, real)): (r: seq<(N, real)>)
    ensures multiset(r) == multiset(s) + multiset{p}
    ensures forall q :: q in r ==> q == p || q in s
  {
    if s == [] then [p]
    else if s[0].1 >= p.1 then
      assert s == [s[0]] + s[1..];
      [s[0]] + Insert(s[1..], p)
    else [p] + s
  }

  /** When `p` scores no more than the first item, it is inserted behind that item. */
  lemma InsertBehind<N>(s: seq<(N, real)>, p: (N, real))
    requires s != [] && s[0].1 >= p.1
    ensures Insert(s, p) == [s[0]] + Insert(s[1..], p)
  {
  }

  /** When `p` scores more than the first item, it goes in front. */
  lemma InsertInFront<N>(s: seq<(N, real)>, p: (N, real))
    requires s != [] && s[0].1 < p.1
    ensures Insert(s, p) == [p] + s
  {
  }

  /**
   * `sorted(items, key=itemgetter(1), reverse=True)`: a stable sort by
   * descending score, built by inserting the items one by one.
   */
  function SortDescending<N>(s: seq<(N, real)>): (r: seq<(N, real)>)
    ensures multiset(r) == multiset(s)
    ensures forall q :: q in r ==> q in s
  {
    if s == [] then []
    else
      assert s == s[..|s| - 1] + [s[|s| - 1]];
      Insert(SortDescending(s[..|s| - 1]), s[|s| - 1])
  }

  /** The ranking of a non-empty list inserts its last item into the ranking of the rest. */
  lemma SortDescendingLast<N>(s: seq<(N, real)>)
    requires s != []
    ensures SortDescending(s) == Insert(SortDescending(s[..|s| - 1]), s[|s| - 1])
  {
  }

  /** Inserting into a descending list keeps it descending. */
  lemma {:induction false} InsertNonIncreasing<N>(s: seq<(N, real)>, p: (N, real))
    requires NonIncreasing(s)
    ensures NonIncreasing(Insert(s, p))
  {
    if s != [] && s[0].1 >= p.1 {
      var t := Insert(s[1..], p);
      InsertNonIncreasing(s[1..], p);
      InsertBehind(s, p);
      forall q | q in t ensures q.1 <= s[0].1 {
        if q != p {
          var k :| 0 <= k < |s[1..]| && s[1..][k] == q;
          assert s[k + 1] == q;
        }
      }
      NonIncreasingCons(s[0], t);
    } else if s != [] {
      InsertInFront(s, p);
      forall q | q in s ensures q.1 <= p.1 {
        var k :| 0 <= k < |s| && s[k] == q;
      }
      NonIncreasingCons(p, s);
    }
  }

  /** A descending list stays descending behind an item scoring at least as much as all of it. */
  lemma NonIncreasingCons<N>(a: (N, real), t: seq<(N, real)>)
    requires NonIncreasing(t) && forall q :: q in t ==> q.1 <= a.1
    ensures NonIncreasing([a] + t)
  {
    var r := [a] + t;
    forall i, j | 0 <= i < j < |r| ensures r[i].1 >= r[j].1 {
      assert r[j] == t[j - 1];
      if i > 0 {
        assert r[i] == t[i - 1];
      } else {
        assert r[j] in t;
      }
    }
  }

  /** Inserting a node not yet present keeps the nodes distinct. */
  lemma {:induction false} InsertDistinctKeys<N>(s: seq<(N, real)>, p: (N, real))
    requires DistinctKeys(s) && forall q :: q in s ==> q.0 != p.0
    ensures DistinctKeys(Insert(s, p))
  {
    if s != [] && s[0].1 >= p.1 {
      var t := Insert(s[1..], p);
      InsertDistinctKeys(s[1..], p);
      InsertBehind(s, p);
      forall q | q in t ensures q.0 != s[0].0 {
        if q != p {
          var k :| 0 <= k < |s[1..]| && s[1..][k] == q;
          assert s[k + 1] == q;
        }
      }
      DistinctKeysCons(s[0], t);
    } else if s != [] {
      InsertInFront(s, p);
      DistinctKeysCons(p, s);
    }
  }

  /** Distinct nodes stay distinct behind an item whose node is not among them. */
  lemma DistinctKeysCons<N>(a: (N, real), t: seq<(N, real)>)
    requires DistinctKeys(t) && forall q :: q in t ==> q.0 != a.0
    ensures DistinctKeys([a] + t)
  {
    var r := [a] + t;
    forall i, j | 0 <= i < j < |r| ensures r[i].0 != r[j].0 {
      assert r[j] == t[j - 1];
      if i > 0 {
        assert r[i] == t[i - 1];
      } else {
        assert r[j] in t;
      }
    }
  }

  /** The ranking is in descending order of score and, when the nodes are distinct, lists each node once. */
  lemma {:induction false} SortDescendingSorted<N>(s: seq<(N, real)>)
    ensures NonIncreasing(SortDescending(s))
    ensures DistinctKeys(s) ==> DistinctKeys(SortDescending(s))
  {
    if s != [] {
      var init, last := s[..|s| - 1], s[|s| - 1];
      var t := SortDescending(init);
      SortDescendingSorted(init);
      InsertNonIncreasing(t, last);
      if DistinctKeys(s) {
        forall q | q in t ensures q.0 != last.0 {
          var m :| 0 <= m < |init| && init[m] == q;
          assert s[m] == q;
        }
        InsertDistinctKeys(t, last);
      }
    }
  }

  lemma {:induction false} WithScoreAppend<N>(a: seq<(N, real)>, b: seq<(N, real)>, x: real)
    ensures WithScore(a + b, x) == WithScore(a, x) + WithScore(b, x)
  {
    if a != [] {
      assert (a + b)[1..] == a[1..] + b;
      WithScoreAppend(a[1..], b, x);
    } else {
      assert a + b == b;
    }
  }

  lemma {:induction false} WithScoreAbsent<N>(s: seq<(N, real)>, x: real)
    requires forall p :: p in s ==> p.1 != x
    ensures WithScore(s, x) == []
  {
    if s != [] {
      WithScoreAbsent(s[1..], x);
    }
  }

  /** Among items of any one score, the inserted item comes last. */
  lemma {:induction false} InsertStable<N>(s: seq<(N, real)>, p: (N, real), x: real)
    requires NonIncreasing(s)
    ensures WithScore(Insert(s, p), x) == WithScore(s, x) + (if p.1 == x then [p] else [])
  {
    if s == [] {
      assert Insert(s, p) == [p];
    } else if s[0].1 >= p.1 {
      InsertStable(s[1..], p, x);
      InsertBehind(s, p);
      WithScoreCons(s, Insert(s[1..], p), if p.1 == x then [p] else [], x);
    } else {
      InsertStableFront(s, p, x);
    }
  }

  /** Putting the first item of `s` back in front of `t` keeps `t`'s relation to the rest of `s`. */
  lemma WithScoreCons<N>(s: seq<(N, real)>, t: seq<(N, real)>, tail: seq<(N, real)>, x: real)
    requires s != [] && WithScore(t, x) == WithScore(s[1..], x) + tail
    ensures WithScore([s[0]] + t, x) == WithScore(s, x) + tail
  {
    var c := [s[0]] + t;
    var head := if s[0].1 == x then [s[0]] else [];
    assert c[0] == s[0] && c[1..] == t;
    calc {
      WithScore(c, x);
      head + WithScore(t, x);
      head + (WithScore(s[1..], x) + tail);
      (head + WithScore(s[1..], x)) + tail;
      WithScore(s, x) + tail;
    }
  }

  /** Inserting in front of a list whose scores are all smaller than `p`'s. */
  lemma InsertStableFront<N>(s: seq<(N, real)>, p: (N, real), x: real)
    requires NonIncreasing(s) && s != [] && s[0].1 < p.1
    ensures WithScore(Insert(s, p), x) == WithScore(s, x) + (if p.1 == x then [p] else [])
  {
    assert Insert(s, p) == [p] + s;
    assert ([p] + s)[1..] == s;
    if p.1 == x {
      forall q | q in s ensures q.1 != x {
        var k :| 0 <= k < |s| && s[k] == q;
        assert s[0].1 >= s[k].1;
      }
      WithScoreAbsent(s, x);
    }
  }

  /** Stability of `sorted`: the items of any one score keep their relative order. */
  lemma {:induction false} SortDescendingStable<N>(s: seq<(N, real)>, x: real)
    ensures WithScore(SortDescending(s), x) == WithScore(s, x)
  {
    if s != [] {
      var init, last := s[..|s| - 1], s[|s| - 1];
      var t := SortDescending(init);
      var tail := if last.1 == x then [last] else [];
      calc {
        WithScore(SortDescending(s), x);
        { SortDescendingLast(s); }
        WithScore(Insert(t, last), x);
        { SortDescendingSorted(init); InsertStable(t, last, x); }
        WithScore(t, x) + tail;
        { SortDescendingStable(init, x); }
        WithScore(init, x) + tail;
        { assert [last][1..] == []; assert WithScore([last], x) == tail; WithScoreAppend(init, [last], x); }
        WithScore(init + [last], x);
        { assert s == init + [last]; }
        WithScore(s, x);
      }
    }
  }

  /** Every item carries its node's score from the dictionary. */
  ghost predicate Consistent<N>(items: seq<(N, real)>, score: map<N, real>) {
    forall p :: p in items ==> p.0 in score && score[p.0] == p.1
  }

  /** The nodes of `s` whose dictionary score is `x`, in the order of `s`: `WithScore` for nodes. */
  function Tied<N(==)>(s: seq<N>, score: map<N, real>, x: real): seq<N> {
    if s == [] then []
    else (if s[0] in score && score[s[0]] == x then [s[0]] else []) + Tied(s[1..], score, x)
  }

  lemma {:induction false} TiedAppend<N>(a: seq<N>, b: seq<N>, score: map<N, real>, x: real)
    ensures Tied(a + b, score, x) == Tied(a, score, x) + Tied(b, score, x)
  {
    if a != [] {
      assert (a + b)[1..] == a[1..] + b;
      TiedAppend(a[1..], b, score, x);
    } else {
      assert a + b == b;
    }
  }

  /** Filtering items by score and then taking keys equals taking keys and filtering by dictionary score. */
  lemma {:induction false} KeysWithScore<N>(items: seq<(N, real)>, score: map<N, real>, x: real)
    requires Consistent(items, score)
    ensures Keys(WithScore(items, x)) == Tied(Keys(items), score, x)
  {
    if items != [] {
      KeysWithScore(items[1..], score, x);
      var head := if items[0].1 == x then [items[0]] else [];
      var rest := WithScore(items[1..], x);
      assert Keys(head + rest) == Keys(head) + Keys(rest);
      assert Keys(items)[1..] == Keys(items[1..]);
      assert Keys(items)[0] == items[0].0;
    }
  }

  /** The full ranking of a score dictionary: its items sorted by descending score. */
  function Ranked<N(==)>(sm: ScoreMap<N>): seq<(N, real)>
    requires sm.Valid()
  {
    SortDescending(Items(sm))
  }

  /** The ranking has one item per key. */
  lemma RankedLength<N>(sm: ScoreMap<N>)
    requires sm.Valid()
    ensures |Ranked(sm)| == |sm.order|
  {
    assert |multiset(Ranked(sm))| == |multiset(Items(sm))|;
  }

  /** The ranking's scores never increase. */
  lemma RankedSorted<N>(sm: ScoreMap<N>)
    requires sm.Valid()
    ensures NonIncreasing(Ranked(sm))
  {
    SortDescendingSorted(Items(sm));
  }

  /** The ranking lists each key once. */
  lemma RankedDistinct<N>(sm: ScoreMap<N>)
    requires sm.Valid()
    ensures DistinctKeys(Ranked(sm))
  {
    assert DistinctKeys(Items(sm));
    SortDescendingSorted(Items(sm));
  }

  /** Every ranked item carries its key's score. */
  lemma RankedConsistent<N>(sm: ScoreMap<N>)
    requires sm.Valid()
    ensures Consistent(Ranked(sm), sm.score)
  {
    var items := Items(sm);
    forall p | p in Ranked(sm) ensures p.0 in sm.score && sm.score[p.0] == p.1 {
      var i :| 0 <= i < |items| && items[i] == p;
    }
  }

  /** Every key of the dictionary is ranked. */
  lemma RankedCovers<N>(sm: ScoreMap<N>)
    requires sm.Valid()
    ensures forall u :: u in sm.score ==> u in Keys(Ranked(sm))
  {
    var items, ranked := Items(sm), Ranked(sm);
    forall u | u in sm.score ensures u in Keys(ranked) {
      assert u in Elems(sm.order);
      var i :| 0 <= i < |sm.order| && sm.order[i] == u;
      assert items[i] in multiset(ranked);
      var j :| 0 <= j < |ranked| && ranked[j] == items[i];
      assert Keys(ranked)[j] == u;
    }
  }

  /** Python's `xs[:n]` end index on a list of length `len`: a negative `n` counts back from the end. */
  function SliceEnd(n: int, len: nat): (k: nat)
    ensures k <= len
    ensures 0 <= n <= len ==> k == n
    ensures n >= len ==> k == len
    ensures n < 0 ==> k == len - (if -n < len then -n else len)
  {
    if n >= 0 then (if n < len then n else len)
    else if len + n > 0 then len + n else 0
  }

  /**
   * `[tup[0] for tup in sorted(d.items(), key=itemgetter(1), reverse=True)][:n]`:
   * the keys of the `n` best-scored items.
   */
  function TopN<N(==)>(sm: ScoreMap<N>, n: int): (r: seq<N>)
    requires sm.Valid()
    ensures |r| == SliceEnd(n, |sm.order|)
    ensures forall v :: v in r ==> v in sm.score
  {
    RankedLength(sm);
    RankedConsistent(sm);
    Keys(Ranked(sm)[..SliceEnd(n, |sm.order|)])
  }

  /** No node is returned twice. */
  lemma TopNDistinct<N>(sm: ScoreMap<N>, n: int)
    requires sm.Valid()
    ensures Distinct(TopN(sm, n))
  {
    RankedLength(sm);
    RankedDistinct(sm);
  }

  /** Scores never increase along the returned list. */
  lemma TopNOrdered<N>(sm: ScoreMap<N>, n: int)
    requires sm.Valid()
    ensures forall i, j :: 0 <= i < j < |TopN(sm, n)| ==> sm.score[TopN(sm, n)[i]] >= sm.score[TopN(sm, n)[j]]
  {
    RankedLength(sm);
    RankedSorted(sm);
    RankedConsistent(sm);
    var ranked, r := Ranked(sm), TopN(sm, n);
    forall i, j | 0 <= i < j < |r| ensures sm.score[r[i]] >= sm.score[r[j]] {
      assert r[i] == ranked[i].0 && r[j] == ranked[j].0;
      assert ranked[i] in ranked && ranked[j] in ranked;
    }
  }

  /** A node left out scores no higher than any node returned. */
  lemma TopNSeparates<N>(sm: ScoreMap<N>, n: int)
    requires sm.Valid()
    ensures forall u, v :: u in sm.score && u !in TopN(sm, n) && v in TopN(sm, n) ==> sm.score[u] <= sm.score[v]
  {
    RankedLength(sm);
    RankedSorted(sm);
    RankedConsistent(sm);
    RankedCovers(sm);
    PrefixSeparates(Ranked(sm), sm.score, SliceEnd(n, |sm.order|));
  }

  /** In a descending list of items, a key outside a prefix scores no higher than any key inside it. */
  lemma PrefixSeparates<N>(items: seq<(N, real)>, score: map<N, real>, k: nat)
    requires NonIncreasing(items) && Consistent(items, score) && k <= |items|
    requires forall u :: u in score ==> u in Keys(items)
    ensures forall u, v :: u in score && u !in Keys(items[..k]) && v in Keys(items[..k]) ==>
      v in score && score[u] <= score[v]
  {
    var r := Keys(items[..k]);
    forall u, v | u in score && u !in r && v in r ensures v in score && score[u] <= score[v] {
      var j :| 0 <= j < |items| && Keys(items)[j] == u;
      var i :| 0 <= i < |r| && r[i] == v;
      assert items[..k][i] == items[i];
      assert forall m :: 0 <= m < k ==> r[m] == Keys(items)[m];
      ScoresAt(items, score, i, j);
    }
  }

  /** In a descending list of items consistent with `score`, an earlier item scores at least as much as a later one. */
  lemma ScoresAt<N>(items: seq<(N, real)>, score: map<N, real>, i: nat, j: nat)
    requires NonIncreasing(items) && Consistent(items, score) && i <= j < |items|
    ensures items[i].0 in score && items[j].0 in score
    ensures score[items[i].0] >= score[items[j].0]
  {
    assert items[i] in items && items[j] in items;
  }

  /** With `n` at least the number of keys, every key is returned. */
  lemma TopNAll<N>(sm: ScoreMap<N>, n: int)
    requires sm.Valid() && n >= |sm.order|
    ensures Elems(TopN(sm, n)) == sm.score.Keys
  {
    RankedLength(sm);
    RankedCovers(sm);
    assert Ranked(sm)[..|sm.order|] == Ranked(sm);
  }

  /**
   * Stability and selection among ties: for every score, the returned nodes with
   * that score are the first nodes of the dictionary with that score, in
   * dictionary order; with the whole ranking they are all of them.
   */
  lemma TopNStable<N>(sm: ScoreMap<N>, n: int, x: real)
    requires sm.Valid()
    ensures Tied(TopN(sm, n), sm.score, x) <= Tied(sm.order, sm.score, x)
    ensures n >= |sm.order| ==> Tied(TopN(sm, n), sm.score, x) == Tied(sm.order, sm.score, x)
  {
    RankedLength(sm);
    RankedConsistent(sm);
    RankedTied(sm, x);
    PrefixTied(Ranked(sm), sm.score, SliceEnd(n, |sm.order|), x);
  }

  /** The keys of any one score, taken along the ranking, are those keys in dictionary order. */
  lemma RankedTied<N>(sm: ScoreMap<N>, x: real)
    requires sm.Valid()
    ensures Keys(WithScore(Ranked(sm), x)) == Tied(sm.order, sm.score, x)
  {
    calc {
      Tied(sm.order, sm.score, x);
      { assert Keys(Items(sm)) == sm.order; }
      Tied(Keys(Items(sm)), sm.score, x);
      { KeysWithScore(Items(sm), sm.score, x); }
      Keys(WithScore(Items(sm), x));
      { SortDescendingStable(Items(sm), x); }
      Keys(WithScore(Ranked(sm), x));
    }
  }

  /** The tied keys of a prefix of a list of items come first among that list's tied keys. */
  lemma PrefixTied<N>(items: seq<(N, real)>, score: map<N, real>, k: nat, x: real)
    requires Consistent(items, score) && k <= |items|
    ensures Tied(Keys(items[..k]), score, x) <= Keys(WithScore(items, x))
    ensures k == |items| ==> Tied(Keys(items[..k]), score, x) == Keys(WithScore(items, x))
  {
    var pre, post := items[..k], items[k..];
    var a, b := WithScore(pre, x), WithScore(post, x);
    assert Consistent(pre, score);
    calc {
      Keys(WithScore(items, x));
      { assert items == pre + post; WithScoreAppend(pre, post, x); }
      Keys(a + b);
      Keys(a) + Keys(b);
    }
    KeysWithScore(pre, score, x);
    if k == |items| {
      assert post == [];
    }
  }

  /**
   * `problemsolver`'s "highest" node: `get_first_n_highest_*_nodes(G, 1)[0]`,
   * the first node in dictionary order among those of top score.
   */
  function Highest<N(==)>(sm: ScoreMap<N>): (r: Result<N>)
    requires sm.Valid()
    ensures r.Ok? <==> |sm.order| > 0
    ensures r.Err? ==> r.failure == IndexOutOfRange
    ensures r.Ok? ==> r.value in sm.score && forall u :: u in sm.score ==> sm.score[u] <= sm.score[r.value]
    ensures r.Ok? ==> var tied := Tied(sm.order, sm.score, sm.score[r.value]); |tied| > 0 && tied[0] == r.value
  {
    var top := TopN(sm, 1);
    if |top| == 0 then Err(IndexOutOfRange)
    else
      RankedFirst(sm);
      Ok(top[0])
  }

  /** The first entry of the ranking scores most and is the first key in dictionary order with its score. */
  lemma RankedFirst<N>(sm: ScoreMap<N>)
    requires sm.Valid() && |sm.order| > 0
    ensures |TopN(sm, 1)| == 1 && TopN(sm, 1)[0] in sm.score
    ensures forall u :: u in sm.score ==> sm.score[u] <= sm.score[TopN(sm, 1)[0]]
    ensures var tied := Tied(sm.order, sm.score, sm.score[TopN(sm, 1)[0]]); |tied| > 0 && tied[0] == TopN(sm, 1)[0]
  {
    var top := TopN(sm, 1);
    TopNSeparates(sm, 1);
    TopNStable(sm, 1, sm.score[top[0]]);
    assert Tied(top, sm.score, sm.score[top[0]]) == [top[0]] by {
      assert top == [top[0]];
      assert top[1..] == [];
    }
  }

  /**
   * `problemsolver`'s "lowest" node: `get_first_n_highest_*_nodes(G, num_nodes)[-1]`,
   * the last entry of the full ranking: the last node in dictionary order among
   * those of least score.
   */
  function Lowest<N(==)>(sm: ScoreMap<N>): (r: Result<N>)
    requires sm.Valid()
    ensures r.Ok? <==> |sm.order| > 0
    ensures r.Err? ==> r.failure == IndexOutOfRange
    ensures r.Ok? ==> r.value in sm.score && forall u :: u in sm.score ==> sm.score[r.value] <= sm.score[u]
    ensures r.Ok? ==> var tied := Tied(sm.order, sm.score, sm.score[r.value]); |tied| > 0 && tied[|tied| - 1] == r.value
  {
    var all := TopN(sm, |sm.order|);
    if |all| == 0 then Err(IndexOutOfRange)
    else
      RankedLast(sm);
      Ok(all[|all| - 1])
  }

  /** The last entry of the full ranking scores least and is the last key in dictionary order with its score. */
  lemma RankedLast<N>(sm: ScoreMap<N>)
    requires sm.Valid() && |sm.order| > 0
    ensures var all := TopN(sm, |sm.order|); var v := all[|all| - 1];
      v in sm.score && (forall u :: u in sm.score ==> sm.score[v] <= sm.score[u]) &&
      var tied := Tied(sm.order, sm.score, sm.score[v]); |tied| > 0 && tied[|tied| - 1] == v
  {
    RankedLastIsMin(sm);
    RankedLastIsLastTied(sm);
  }

  /** The last entry of the full ranking has the least score. */
  lemma RankedLastIsMin<N>(sm: ScoreMap<N>)
    requires sm.Valid() && |sm.order| > 0
    ensures var all := TopN(sm, |sm.order|); var v := all[|all| - 1];
      forall u :: u in sm.score ==> sm.score[v] <= sm.score[u]
  {
    var all := TopN(sm, |sm.order|);
    TopNAll(sm, |sm.order|);
    TopNOrdered(sm, |sm.order|);
    forall u | u in sm.score ensures u in all {
      assert u in Elems(all);
    }
    LastIsMin(all, sm.score);
  }

  /** In a list ordered by descending score that holds every key, the last entry scores least. */
  lemma LastIsMin<N>(s: seq<N>, score: map<N, real>)
    requires |s| > 0 && (forall v :: v in s ==> v in score) && forall u :: u in score ==> u in s
    requires forall i, j :: 0 <= i < j < |s| ==> score[s[i]] >= score[s[j]]
    ensures forall u :: u in score ==> score[s[|s| - 1]] <= score[u]
  {
    forall u | u in score ensures score[s[|s| - 1]] <= score[u] {
      var j :| 0 <= j < |s| && s[j] == u;
      if j < |s| - 1 {
        assert score[s[j]] >= score[s[|s| - 1]];
      }
    }
  }

  /** The last entry of the full ranking is the last node in dictionary order with its score. */
  lemma RankedLastIsLastTied<N>(sm: ScoreMap<N>)
    requires sm.Valid() && |sm.order| > 0
    ensures var all := TopN(sm, |sm.order|); var v := all[|all| - 1];
      var tied := Tied(sm.order, sm.score, sm.score[v]); |tied| > 0 && tied[|tied| - 1] == v
  {
    var all := TopN(sm, |sm.order|);
    var x := sm.score[all[|all| - 1]];
    TopNStable(sm, |sm.order|, x);
    LastTied(all, sm.score);
  }

  /** The last entry of a list is the last of the entries sharing its score. */
  lemma LastTied<N>(s: seq<N>, score: map<N, real>)
    requires |s| > 0 && s[|s| - 1] in score
    ensures var tied := Tied(s, score, score[s[|s| - 1]]); |tied| > 0 && tied[|tied| - 1] == s[|s| - 1]
  {
    var last := s[|s| - 1];
    var x := score[last];
    calc {
      Tied(s, score, x);
      { assert s == s[..|s| - 1] + [last]; }
      Tied(s[..|s| - 1] + [last], score, x);
      { TiedAppend(s[..|s| - 1], [last], score, x); assert [last][1..] == []; }
      Tied(s[..|s| - 1], score, x) + [last];
    }
  }
}
