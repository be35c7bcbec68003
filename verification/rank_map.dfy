/** The ranks of a left-to-right layout: the laid-out nodes sorted by x and
    bucketed so that the nodes of one bucket share their x coordinate. Two
    lists are accumulated side by side, as in the drawer: the x of each rank
    (`positionRankMap`) and the nodes of each rank (`rankNodeMap`). */
module RankMap {
  import opened LayoutGraph
  import Sorting

  datatype RankNodeItem = RankNodeItem(rank: nat, nodes: seq<string>)

  datatype PositionRank = PositionRank(x: real, rank: nat)

  datatype Ranking = Ranking(positions: seq<PositionRank>, ranks: seq<RankNodeItem>)

  predicate InGraph(g: Graph, vs: seq<string>) {
    forall i :: 0 <= i < |vs| ==> vs[i] in g.nodes
  }

  /** The comparator `graph.node(a).x - graph.node(b).x` as a sort key. */
  function XKey(g: Graph): string -> real {
    (v: string) => if v in g.nodes then g.nodes[v].x else 0.0
  }

  /** The graph's nodes in ascending x, ties in the library's node order. */
  function SortedNodes(g: Graph): seq<string> {
    Sorting.SortBy(g.nodeIds, XKey(g))
  }

  /** `positionRankMap.find(el => el.x === x)` as an index; -1 when absent. */
  function FindPosition(positions: seq<PositionRank>, x: real): (j: int)
    ensures -1 <= j < |positions|
    ensures j >= 0 ==> positions[j].x == x && forall i :: 0 <= i < j ==> positions[i].x != x
    ensures j == -1 ==> forall i :: 0 <= i < |positions| ==> positions[i].x != x
  {
    if positions == [] then -1
    else if positions[0].x == x then 0
    else
      var k := FindPosition(positions[1..], x);
      if k < 0 then -1 else k + 1
  }

  /** `rankNodeMap.find(el => el.rank === rank)` as an index; -1 when absent. */
  function FindRank(ranks: seq<RankNodeItem>, rank: int): (j: int)
    ensures -1 <= j < |ranks|
    ensures j >= 0 ==> ranks[j].rank == rank
  {
    if ranks == [] then -1
    else if ranks[0].rank == rank then 0
    else
      var k := FindRank(ranks[1..], rank);
      if k < 0 then -1 else k + 1
  }

  /** The index found is the first item of that rank, and -1 means that no
      item has it. */
  lemma {:induction false} FindRankFirst(ranks: seq<RankNodeItem>, rank: int)
    ensures FindRank(ranks, rank) >= 0 ==> forall i :: 0 <= i < FindRank(ranks, rank) ==> ranks[i].rank != rank
    ensures FindRank(ranks, rank) == -1 ==> forall i :: 0 <= i < |ranks| ==> ranks[i].rank != rank
  {
    if ranks != [] && ranks[0].rank != rank {
      FindRankFirst(ranks[1..], rank);
      forall i | 0 < i < |ranks|
        ensures ranks[i] == ranks[1..][i - 1]
      {
      }
    }
  }

  /** Rank i is at index i of both lists, every rank holds a node, all nodes
      of a rank sit at the rank's x, and different ranks have different x. */
  ghost predicate Consistent(g: Graph, rk: Ranking) {
    && |rk.positions| == |rk.ranks|
    && (forall j :: 0 <= j < |rk.ranks| ==>
          rk.positions[j].rank == j && rk.ranks[j].rank == j && rk.ranks[j].nodes != [])
    && (forall j, v :: 0 <= j < |rk.ranks| && v in rk.ranks[j].nodes ==>
          v in g.nodes && g.nodes[v].x == rk.positions[j].x)
    && (forall i, j :: 0 <= i < j < |rk.positions| ==> rk.positions[i].x != rk.positions[j].x)
  }

  /** Whether node v is in some rank. */
  ghost predicate Ranked(rk: Ranking, v: string) {
    exists j :: 0 <= j < |rk.ranks| && v in rk.ranks[j].nodes
  }

  /** One step of the bucketing loop: a node joins the rank with its x, or
      opens a new rank numbered after the existing ones. */
  function PlaceNode(g: Graph, rk: Ranking, v: string): Ranking
    requires v in g.nodes
  {
    var x := g.nodes[v].x;
    var j := FindPosition(rk.positions, x);
    if j < 0 then
      Ranking(rk.positions + [PositionRank(x, |rk.ranks|)], rk.ranks + [RankNodeItem(|rk.ranks|, [v])])
    else
      var k := FindRank(rk.ranks, rk.positions[j].rank);
      if k < 0 then rk
      else Ranking(rk.positions, rk.ranks[k := rk.ranks[k].(nodes := rk.ranks[k].nodes + [v])])
  }

  /** When the node's x already has a rank, that rank is the one at the same
      index, since rank i is item i of both lists. */
  lemma PlaceNodeJoins(g: Graph, rk: Ranking, v: string)
    requires v in g.nodes && Consistent(g, rk)
    requires FindPosition(rk.positions, g.nodes[v].x) >= 0
    ensures var j := FindPosition(rk.positions, g.nodes[v].x);
      PlaceNode(g, rk, v) == Ranking(rk.positions, rk.ranks[j := rk.ranks[j].(nodes := rk.ranks[j].nodes + [v])])
  {
    var j := FindPosition(rk.positions, g.nodes[v].x);
    FindRankFirst(rk.ranks, rk.positions[j].rank);
  }

  /** Placing a node keeps the lists consistent. */
  lemma PlaceNodeConsistent(g: Graph, rk: Ranking, v: string)
    requires v in g.nodes && Consistent(g, rk)
    ensures Consistent(g, PlaceNode(g, rk, v))
  {
    var j := FindPosition(rk.positions, g.nodes[v].x);
    if j >= 0 {
      PlaceNodeJoins(g, rk, v);
      JoinRankConsistent(g, rk, v, j);
    } else {
      OpenRankConsistent(g, rk, v);
    }
  }

  lemma JoinRankConsistent(g: Graph, rk: Ranking, v: string, j: nat)
    requires v in g.nodes && Consistent(g, rk)
    requires j < |rk.ranks| && g.nodes[v].x == rk.positions[j].x
    ensures Consistent(g, Ranking(rk.positions, rk.ranks[j := rk.ranks[j].(nodes := rk.ranks[j].nodes + [v])]))
  {
    var r := Ranking(rk.positions, rk.ranks[j := rk.ranks[j].(nodes := rk.ranks[j].nodes + [v])]);
    forall i, w | 0 <= i < |r.ranks| && w in r.ranks[i].nodes
      ensures w in g.nodes && g.nodes[w].x == r.positions[i].x
    {
      if i != j {
        assert r.ranks[i] == rk.ranks[i];
      } else if w != v {
        assert w in rk.ranks[j].nodes;
      }
    }
  }

  lemma OpenRankConsistent(g: Graph, rk: Ranking, v: string)
    requires v in g.nodes && Consistent(g, rk)
    requires forall i :: 0 <= i < |rk.positions| ==> rk.positions[i].x != g.nodes[v].x
    ensures var n := |rk.ranks|;
      Consistent(g, Ranking(rk.positions + [PositionRank(g.nodes[v].x, n)], rk.ranks + [RankNodeItem(n, [v])]))
  {
    var n := |rk.ranks|;
    var r := Ranking(rk.positions + [PositionRank(g.nodes[v].x, n)], rk.ranks + [RankNodeItem(n, [v])]);
    forall i, w | 0 <= i < |r.ranks| && w in r.ranks[i].nodes
      ensures w in g.nodes && g.nodes[w].x == r.positions[i].x
    {
      if i < n {
        assert r.ranks[i] == rk.ranks[i] && r.positions[i] == rk.positions[i];
      }
    }
    forall i, k | 0 <= i < k < |r.positions| ensures r.positions[i].x != r.positions[k].x {
      assert r.positions[i] == rk.positions[i];
      if k < n {
        assert r.positions[k] == rk.positions[k];
      }
    }
  }

  /** Placing a node adds exactly that node to the ranked ones. */
  lemma PlaceNodeRanked(g: Graph, rk: Ranking, v: string)
    requires v in g.nodes && Consistent(g, rk)
    ensures forall w :: Ranked(PlaceNode(g, rk, v), w) <==> Ranked(rk, w) || w == v
  {
    var j := FindPosition(rk.positions, g.nodes[v].x);
    var r := PlaceNode(g, rk, v);
    if j < 0 {
      var n := |rk.ranks|;
      assert r.ranks[n].nodes == [v];
      forall w ensures Ranked(r, w) <==> Ranked(rk, w) || w == v {
        if Ranked(rk, w) {
          var i :| 0 <= i < |rk.ranks| && w in rk.ranks[i].nodes;
          assert r.ranks[i] == rk.ranks[i];
        }
        if Ranked(r, w) {
          var i :| 0 <= i < |r.ranks| && w in r.ranks[i].nodes;
          if i < n {
            assert r.ranks[i] == rk.ranks[i];
          }
        }
      }
    } else {
      PlaceNodeJoins(g, rk, v);
      assert r.ranks[j].nodes == rk.ranks[j].nodes + [v];
      forall w ensures Ranked(r, w) <==> Ranked(rk, w) || w == v {
        if Ranked(rk, w) {
          var i :| 0 <= i < |rk.ranks| && w in rk.ranks[i].nodes;
          assert w in r.ranks[i].nodes;
        }
        if Ranked(r, w) {
          var i :| 0 <= i < |r.ranks| && w in r.ranks[i].nodes;
          if i != j {
            assert r.ranks[i] == rk.ranks[i];
          }
        }
        if w == v {
          assert w in r.ranks[j].nodes;
        }
      }
    }
  }

  /** The bucketing loop over a list of nodes, from empty lists. */
  function Bucketize(g: Graph, vs: seq<string>): Ranking
    requires InGraph(g, vs)
  {
    if vs == [] then Ranking([], [])
    else PlaceNode(g, Bucketize(g, vs[..|vs| - 1]), vs[|vs| - 1])
  }

  /** One more node of the list is one more step of the bucketing loop. */
  lemma BucketizeStep(g: Graph, vs: seq<string>, i: nat)
    requires InGraph(g, vs) && i < |vs|
    ensures InGraph(g, vs[..i]) && InGraph(g, vs[..i + 1])
    ensures Bucketize(g, vs[..i + 1]) == PlaceNode(g, Bucketize(g, vs[..i]), vs[i])
  {
    assert vs[..i + 1][..i] == vs[..i];
  }

  /** The buckets are consistent and rank exactly the nodes given. */
  lemma {:induction false} BucketizeConsistent(g: Graph, vs: seq<string>)
    requires InGraph(g, vs)
    ensures Consistent(g, Bucketize(g, vs))
    ensures forall w :: Ranked(Bucketize(g, vs), w) <==> w in vs
  {
    if vs != [] {
      var prefix := vs[..|vs| - 1];
      var v := vs[|vs| - 1];
      assert vs == prefix + [v];
      BucketizeConsistent(g, prefix);
      PlaceNodeConsistent(g, Bucketize(g, prefix), v);
      PlaceNodeRanked(g, Bucketize(g, prefix), v);
    }
  }

  /** `makeRankNodeMap`: the ranks of the graph's nodes. */
  function RankNodeMap(g: Graph): (rm: seq<RankNodeItem>)
    requires g.Valid()
    ensures forall j, v :: 0 <= j < |rm| && v in rm[j].nodes ==> v in g.nodes
  {
    SortedNodesInGraph(g);
    BucketizeConsistent(g, SortedNodes(g));
    Bucketize(g, SortedNodes(g)).ranks
  }

  lemma SortedNodesInGraph(g: Graph)
    requires g.Valid()
    ensures InGraph(g, SortedNodes(g))
    ensures multiset(SortedNodes(g)) == multiset(g.nodeIds)
    ensures forall i, j :: 0 <= i < j < |SortedNodes(g)| ==> g.nodes[SortedNodes(g)[i]].x <= g.nodes[SortedNodes(g)[j]].x
  {
    var s := SortedNodes(g);
    Sorting.SortBySortsAndPermutes(g.nodeIds, XKey(g));
    forall i | 0 <= i < |s| ensures s[i] in g.nodes {
      assert s[i] in multiset(g.nodeIds);
    }
    forall i, j | 0 <= i < j < |s| ensures g.nodes[s[i]].x <= g.nodes[s[j]].x {
      assert XKey(g)(s[i]) <= XKey(g)(s[j]);
    }
  }

  function Flatten(ranks: seq<RankNodeItem>): seq<string> {
    if ranks == [] then [] else Flatten(ranks[..|ranks| - 1]) + ranks[|ranks| - 1].nodes
  }

  lemma {:induction false} FlattenAppendToLast(ranks: seq<RankNodeItem>, v: string)
    requires ranks != []
    ensures var k := |ranks| - 1;
      Flatten(ranks[k := ranks[k].(nodes := ranks[k].nodes + [v])]) == Flatten(ranks) + [v]
  {
    var k := |ranks| - 1;
    var r := ranks[k := ranks[k].(nodes := ranks[k].nodes + [v])];
    assert r[..k] == ranks[..k];
  }

  ghost predicate Increasing(rk: Ranking) {
    forall i, j :: 0 <= i < j < |rk.positions| ==> rk.positions[i].x < rk.positions[j].x
  }

  /** Placing a node whose x is at least that of every node placed so far
      keeps the ranks increasing and appends the node to the flattened ranks. */
  lemma PlaceLargest(g: Graph, rk: Ranking, prefix: seq<string>, v: string)
    requires v in g.nodes && Consistent(g, rk) && Increasing(rk)
    requires Flatten(rk.ranks) == prefix
    requires prefix != [] ==> prefix[|prefix| - 1] in g.nodes && g.nodes[prefix[|prefix| - 1]].x <= g.nodes[v].x
    ensures Increasing(PlaceNode(g, rk, v))
    ensures Flatten(PlaceNode(g, rk, v).ranks) == prefix + [v]
  {
    var n := |rk.ranks|;
    if n > 0 {
      LastRankHoldsLast(g, rk, prefix);
    }
    if FindPosition(rk.positions, g.nodes[v].x) >= 0 {
      PlaceJoinsLast(g, rk, v);
    } else {
      PlaceOpensRank(g, rk, v);
    }
  }

  lemma PlaceJoinsLast(g: Graph, rk: Ranking, v: string)
    requires v in g.nodes && Consistent(g, rk) && Increasing(rk)
    requires |rk.ranks| > 0 && rk.positions[|rk.ranks| - 1].x <= g.nodes[v].x
    requires FindPosition(rk.positions, g.nodes[v].x) >= 0
    ensures Increasing(PlaceNode(g, rk, v))
    ensures Flatten(PlaceNode(g, rk, v).ranks) == Flatten(rk.ranks) + [v]
  {
    var n := |rk.ranks|;
    var j := FindPosition(rk.positions, g.nodes[v].x);
    assert j == n - 1;
    FindRankFirst(rk.ranks, rk.positions[j].rank);
    assert FindRank(rk.ranks, rk.positions[j].rank) == n - 1;
    FlattenAppendToLast(rk.ranks, v);
  }

  lemma PlaceOpensRank(g: Graph, rk: Ranking, v: string)
    requires v in g.nodes && Consistent(g, rk) && Increasing(rk)
    requires |rk.ranks| > 0 ==> rk.positions[|rk.ranks| - 1].x <= g.nodes[v].x
    requires FindPosition(rk.positions, g.nodes[v].x) < 0
    ensures Increasing(PlaceNode(g, rk, v))
    ensures Flatten(PlaceNode(g, rk, v).ranks) == Flatten(rk.ranks) + [v]
  {
    var n := |rk.ranks|;
    var r := PlaceNode(g, rk, v);
    assert r.ranks[..n] == rk.ranks;
    forall i | 0 <= i < n ensures rk.positions[i].x < g.nodes[v].x {
      if i < n - 1 {
        assert rk.positions[i].x < rk.positions[n - 1].x;
      }
    }
  }

  lemma LastRankHoldsLast(g: Graph, rk: Ranking, prefix: seq<string>)
    requires Consistent(g, rk) && |rk.ranks| > 0 && Flatten(rk.ranks) == prefix
    ensures prefix != [] && prefix[|prefix| - 1] in rk.ranks[|rk.ranks| - 1].nodes
    ensures g.nodes[prefix[|prefix| - 1]].x == rk.positions[|rk.ranks| - 1].x
  {
    var n := |rk.ranks|;
    var last := rk.ranks[n - 1].nodes;
    assert prefix == Flatten(rk.ranks[..n - 1]) + last;
    assert prefix[|prefix| - 1] == last[|last| - 1];
  }

  /** On nodes sorted by x the ranks come out in strictly increasing x and,
      read in order, list the nodes exactly as they were given. */
  lemma {:induction false} BucketizeSorted(g: Graph, vs: seq<string>)
    requires InGraph(g, vs)
    requires forall i, j :: 0 <= i < j < |vs| ==> g.nodes[vs[i]].x <= g.nodes[vs[j]].x
    ensures Increasing(Bucketize(g, vs))
    ensures Flatten(Bucketize(g, vs).ranks) == vs
  {
    if vs != [] {
      var prefix := vs[..|vs| - 1];
      var v := vs[|vs| - 1];
      assert vs == prefix + [v];
      BucketizeSorted(g, prefix);
      BucketizeConsistent(g, prefix);
      PlaceLargest(g, Bucketize(g, prefix), prefix, v);
    }
  }

  /** A list without repeats has as many distinct elements as entries. */
  lemma {:induction false} DistinctCardinality(xs: seq<real>)
    requires forall i, j :: 0 <= i < j < |xs| ==> xs[i] != xs[j]
    ensures |set i | 0 <= i < |xs| :: xs[i]| == |xs|
  {
    if xs != [] {
      var prefix := xs[..|xs| - 1];
      DistinctCardinality(prefix);
      var s := set i | 0 <= i < |xs| :: xs[i];
      var t := set i | 0 <= i < |prefix| :: prefix[i];
      assert s == t + {xs[|xs| - 1]};
      assert xs[|xs| - 1] !in t;
    }
  }

  /** Rank i is item i and holds at least one node; the nodes read rank by
      rank are the graph's nodes sorted by x. */
  lemma RankNodeMapOrder(g: Graph)
    requires g.Valid()
    ensures var rm := RankNodeMap(g);
      && (forall j :: 0 <= j < |rm| ==> rm[j].rank == j && rm[j].nodes != [])
      && Flatten(rm) == SortedNodes(g)
      && multiset(Flatten(rm)) == multiset(g.nodeIds)
  {
    SortedNodesInGraph(g);
    BucketizeConsistent(g, SortedNodes(g));
    BucketizeSorted(g, SortedNodes(g));
  }

  /** Two nodes share a rank exactly when they share x, and a later rank
      has a larger x. */
  lemma RankNodeMapByX(g: Graph)
    requires g.Valid()
    ensures var rm := RankNodeMap(g);
      && (forall i, j, v, w :: 0 <= i < |rm| && 0 <= j < |rm| && v in rm[i].nodes && w in rm[j].nodes ==>
            (i == j <==> g.nodes[v].x == g.nodes[w].x))
      && (forall i, j, v, w :: 0 <= i < j < |rm| && v in rm[i].nodes && w in rm[j].nodes ==>
            g.nodes[v].x < g.nodes[w].x)
  {
    SortedNodesInGraph(g);
    BucketizeConsistent(g, SortedNodes(g));
    BucketizeSorted(g, SortedNodes(g));
  }

  /** There are as many ranks as distinct x values among the graph's nodes. */
  lemma RankCount(g: Graph)
    requires g.Valid()
    ensures |RankNodeMap(g)| == |set v | v in g.nodeIds :: g.nodes[v].x|
  {
    var s := SortedNodes(g);
    SortedNodesInGraph(g);
    var rk := Bucketize(g, s);
    BucketizeConsistent(g, s);
    var pxs := seq(|rk.positions|, i requires 0 <= i < |rk.positions| => rk.positions[i].x);
    DistinctCardinality(pxs);
    var xs := set v | v in g.nodeIds :: g.nodes[v].x;
    var ps := set i | 0 <= i < |pxs| :: pxs[i];
    forall x | x in xs ensures x in ps {
      var v :| v in g.nodeIds && g.nodes[v].x == x;
      assert v in multiset(s);
      assert Ranked(rk, v);
      var j :| 0 <= j < |rk.ranks| && v in rk.ranks[j].nodes;
      assert pxs[j] == x;
    }
    forall x | x in ps ensures x in xs {
      var j :| 0 <= j < |pxs| && pxs[j] == x;
      var v := rk.ranks[j].nodes[0];
      assert v in rk.ranks[j].nodes;
      assert v in s;
      assert v in multiset(g.nodeIds);
    }
    assert xs == ps;
  }

  /** Every node of the graph is in exactly one rank. */
  lemma RankNodeMapPartitions(g: Graph)
    requires g.Valid()
    ensures var rm := RankNodeMap(g);
      forall v :: v in g.nodeIds ==>
        && (exists j :: 0 <= j < |rm| && v in rm[j].nodes)
        && (forall i, j :: 0 <= i < |rm| && 0 <= j < |rm| && v in rm[i].nodes && v in rm[j].nodes ==> i == j)
  {
    var s := SortedNodes(g);
    SortedNodesInGraph(g);
    var rk := Bucketize(g, s);
    assert RankNodeMap(g) == rk.ranks;
    BucketizeConsistent(g, s);
    ConsistentDisjoint(g, rk);
    forall v | v in g.nodeIds ensures Ranked(rk, v) {
      assert v in multiset(g.nodeIds);
      assert v in multiset(s);
    }
  }

  /** In consistent lists no node is in two ranks. */
  lemma ConsistentDisjoint(g: Graph, rk: Ranking)
    requires Consistent(g, rk)
    ensures forall v, i, j :: 0 <= i < |rk.ranks| && 0 <= j < |rk.ranks| && v in rk.ranks[i].nodes && v in rk.ranks[j].nodes ==> i == j
  {
    forall v, i, j | 0 <= i < |rk.ranks| && 0 <= j < |rk.ranks| && v in rk.ranks[i].nodes && v in rk.ranks[j].nodes
      ensures i == j
    {
      assert g.nodes[v].x == rk.positions[i].x == rk.positions[j].x;
    }
  }
}
