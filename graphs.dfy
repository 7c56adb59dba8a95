/**
  Weighted directed graphs as the shortest-path routine sees them: a map from
  a node to the map from each of its neighbours to the weight of the edge, with
  `i32` weights. Walks are sequences of nodes along edges; their weight is the
  sum of the edge weights, taken as an unbounded integer.
 */
module Graphs {

  newtype i32 = x: int | -0x8000_0000 <= x <= 0x7FFF_FFFF

  const I32_MAX: i32 := 0x7FFF_FFFF

  type Graph<K> = map<K, map<K, i32>>

  /** Every consecutive pair of `p` is an edge of `g`. */
  predicate Edges<K>(g: Graph<K>, p: seq<K>)
  {
    forall i :: 0 <= i < |p| - 1 ==> p[i] in g && p[i + 1] in g[p[i]]
  }

  /** `p` is a walk of at least one edge from `from` to `to`. */
  predicate IsWalk<K>(g: Graph<K>, from: K, to: K, p: seq<K>)
  {
    |p| >= 2 && p[0] == from && p[|p| - 1] == to && Edges(g, p)
  }

  /** Total weight of the edges of `p`. */
  function Weight<K>(g: Graph<K>, p: seq<K>): int
    requires Edges(g, p)
    decreases |p|
  {
    if |p| < 2 then 0
    else
      assert Edges(g, p[..|p| - 1]);
      Weight(g, p[..|p| - 1]) + g[p[|p| - 2]][p[|p| - 1]] as int
  }

  ghost predicate Reachable<K(!new)>(g: Graph<K>, from: K, to: K)
  {
    exists p :: IsWalk(g, from, to, p)
  }

  /** Every node that a walk from `from` reaches has an adjacency entry of its
      own (possibly empty): the shortest-path routine looks each one up. */
  ghost predicate ReachedNodesHaveEntries<K(!new)>(g: Graph<K>, from: K)
  {
    forall m, p :: IsWalk(g, from, m, p) ==> m in g
  }

  predicate NonNegative<K>(g: Graph<K>)
  {
    forall u, v :: u in g && v in g[u] ==> g[u][v] >= 0
  }

  /** Every weight lies in [-bound, bound]. */
  predicate WeightsWithin<K>(g: Graph<K>, bound: nat)
  {
    forall u, v :: u in g && v in g[u] ==> -(bound as int) <= g[u][v] as int <= bound as int
  }

  /** Every node that is the target of some edge. */
  ghost function Targets<K>(g: Graph<K>): set<K>
  {
    set u, v | u in g && v in g[u] :: v
  }

  /** Extending a walk by one edge adds that edge's weight. */
  lemma ExtendWalk<K>(g: Graph<K>, from: K, to: K, p: seq<K>, n: K)
    requires IsWalk(g, from, to, p) && to in g && n in g[to]
    ensures IsWalk(g, from, n, p + [n])
    ensures Weight(g, p + [n]) == Weight(g, p) + g[to][n] as int
  {
    var q := p + [n];
    assert q[..|q| - 1] == p;
    forall i | 0 <= i < |q| - 1
      ensures q[i] in g && q[i + 1] in g[q[i]]
    {
      if i < |p| - 1 {
        assert q[i] == p[i] && q[i + 1] == p[i + 1];
      }
    }
  }

  /** A single edge is a walk. */
  lemma EdgeWalk<K>(g: Graph<K>, u: K, v: K)
    requires u in g && v in g[u]
    ensures IsWalk(g, u, v, [u, v]) && Weight(g, [u, v]) == g[u][v] as int
  {
    assert [u, v][..1] == [u];
  }

  /** Prefixes of a walk are walks. */
  lemma {:induction false} PrefixEdges<K>(g: Graph<K>, p: seq<K>, k: nat)
    requires Edges(g, p) && k <= |p|
    ensures Edges(g, p[..k])
  {
  }

  /** With non-negative weights a prefix weighs no more than the whole walk. */
  lemma {:induction false} PrefixWeight<K>(g: Graph<K>, p: seq<K>, k: nat)
    requires NonNegative(g) && Edges(g, p) && k <= |p|
    ensures Edges(g, p[..k]) && Weight(g, p[..k]) <= Weight(g, p)
    decreases |p| - k
  {
    PrefixEdges(g, p, k);
    if k < |p| {
      var q := p[..|p| - 1];
      PrefixEdges(g, p, |p| - 1);
      assert q[..k] == p[..k];
      PrefixWeight(g, q, k);
      assert Weight(g, p[..k]) <= Weight(g, q);
      if |p| >= 2 {
        var u, v := p[|p| - 2], p[|p| - 1];
        assert u in g && v in g[u];
        assert g[u][v] >= 0;
        assert Weight(g, p) == Weight(g, q) + g[u][v] as int;
      } else {
        assert Weight(g, p) == 0 && p[..k] == [];
      }
    } else {
      assert p[..k] == p;
    }
  }

  /** A set that contains every neighbour of `from` and is closed under edges
      (each member has an entry whose neighbours are again members) contains
      every node reached from `from`. */
  lemma {:induction false} ClosedSetContainsReached<K>(g: Graph<K>, from: K, s: set<K>, to: K, p: seq<K>)
    requires from in g && g[from].Keys <= s
    requires forall v :: v in s ==> v in g && g[v].Keys <= s
    requires IsWalk(g, from, to, p)
    ensures to in s
    decreases |p|
  {
    if |p| > 2 {
      var q := p[..|p| - 1];
      assert IsWalk(g, from, p[|p| - 2], q);
      ClosedSetContainsReached(g, from, s, p[|p| - 2], q);
    }
  }

  /** `d` never drops by more than the weight along an edge. */
  predicate IsPotential<K>(g: Graph<K>, d: map<K, int>)
  {
    forall u, v :: u in g && v in g[u] ==> u in d && v in d && d[v] <= d[u] + g[u][v] as int
  }

  /** Potential argument: if `d` never drops by more than an edge weight along
      any edge, every walk weighs at least the difference of `d` between its
      ends. A potential is a certificate for a shortest distance. */
  lemma {:induction false} PotentialBound<K>(g: Graph<K>, d: map<K, int>, from: K, to: K, p: seq<K>)
    requires IsPotential(g, d)
    requires IsWalk(g, from, to, p)
    ensures from in d && to in d && Weight(g, p) >= d[to] - d[from]
    decreases |p|
  {
    if |p| > 2 {
      var q := p[..|p| - 1];
      assert IsWalk(g, from, p[|p| - 2], q);
      PotentialBound(g, d, from, p[|p| - 2], q);
    } else {
      assert p[0] in g && p[1] in g[p[0]];
      assert d[p[1]] <= d[p[0]] + g[p[0]][p[1]] as int;
      assert p[..1] == [from];
    }
  }

  /** A subset is no larger than its superset. */
  lemma {:induction false} SubsetCardinality<K>(a: set<K>, b: set<K>)
    requires a <= b
    ensures |a| <= |b|
    decreases |a|
  {
    if a != {} {
      var x :| x in a;
      SubsetCardinality(a - {x}, b - {x});
    }
  }
}
