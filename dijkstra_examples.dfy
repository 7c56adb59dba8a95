/**
  The graphs of the shortest-path unit tests and the demo program, and what
  `dejkstras_alg` returns on them. An exact answer is pinned down from both
  sides: one walk of that weight bounds it from above, and a potential (a
  labelling of the nodes that no edge undercuts) bounds every walk from below.
 */
module DijkstraExamples {
  import opened Graphs
  import opened Dijkstra

  /** The six node labels of the tests, plus `Nowhere`, a label that no test
      graph has an entry for (used as an unknown start). */
  datatype Node = Start | A | B | C | D | Finish | Nowhere

  /** A graph over these seven labels has at most seven entries. */
  lemma NodeGraphSize(g: Graph<Node>)
    ensures |g| <= 7
  {
    var all := {Start, A, B, C, D, Finish, Nowhere};
    assert g.Keys <= all by {
      forall u | u in g.Keys ensures u in all {
        match u
        case Start =>
        case A =>
        case B =>
        case C =>
        case D =>
        case Finish =>
        case Nowhere =>
      }
    }
    SubsetCardinality(g.Keys, all);
  }

  /** Every adjacency entry names only nodes that have entries of their own,
      so every node reached from `start` can be looked up. */
  lemma ClosedGraph<K(!new)>(g: Graph<K>, start: K)
    requires start in g
    requires forall u :: u in g ==> g[u].Keys <= g.Keys
    ensures ReachedNodesHaveEntries(g, start)
  {
    forall m, p | IsWalk(g, start, m, p)
      ensures m in g
    {
      ClosedSetContainsReached(g, start, g.Keys, m, p);
    }
  }

  /** A result that is the weight of a walk is bounded below by any
      potential's difference between the ends. */
  lemma BoundedBelow<K(!new)>(g: Graph<K>, start: K, finish: K, d: map<K, int>, r: i32)
    requires IsPotential(g, d)
    requires exists p :: IsWalk(g, start, finish, p) && Weight(g, p) == r as int
    ensures start in d && finish in d && r as int >= d[finish] - d[start]
  {
    var p :| IsWalk(g, start, finish, p) && Weight(g, p) == r as int;
    PotentialBound(g, d, start, finish, p);
  }

  /** With non-negative weights, a walk of weight `w` and a potential whose
      difference between the ends is `w` certify that `dejkstras_alg` returns
      exactly `w`, whatever order it visits the keys in. */
  method CertifiedShortest<K(!new)>(g: Graph<K>, start: K, finish: K, ghost bound: nat, ghost d: map<K, int>,
                                    ghost p: seq<K>, ghost w: i32) returns (r: Option<i32>)
    requires WeightsWithin(g, bound) && (|g| + 1) * bound < I32_MAX as int && NonNegative(g)
    requires ReachedNodesHaveEntries(g, start)
    requires IsWalk(g, start, finish, p) && Weight(g, p) == w as int
    requires IsPotential(g, d) && start in d && finish in d && d[finish] - d[start] == w as int
    ensures r == Some(w)
  {
    assert start in g by {
      assert p[0] in g;
    }
    r := DejkstrasAlg(g, start, finish, bound);
    BoundedBelow(g, start, finish, d, r.value);
  }

  /** A walk of three edges. */
  lemma ThreeEdges<K>(g: Graph<K>, u: K, v: K, x: K, y: K)
    requires u in g && v in g[u] && v in g && x in g[v] && x in g && y in g[x]
    ensures IsWalk(g, u, y, [u, v, x, y])
    ensures Weight(g, [u, v, x, y]) == g[u][v] as int + g[v][x] as int + g[x][y] as int
  {
    EdgeWalk(g, u, v);
    ExtendWalk(g, u, v, [u, v], x);
    assert [u, v] + [x] == [u, v, x];
    ExtendWalk(g, u, x, [u, v, x], y);
    assert [u, v, x] + [y] == [u, v, x, y];
  }

  /** The graph of the demo program and of the first unit test. */
  function BookGraph(): Graph<Node>
  {
    map[
      Start := map[A := 6, B := 2],
      B := map[A := 3, Finish := 5],
      A := map[Finish := 1],
      Finish := map[]
    ]
  }

  /** Distances from `Start` in the book graph. */
  function BookPotential(): map<Node, int>
  {
    map[Start := 0, A := 5, B := 2, Finish := 6]
  }

  lemma BookGraphIsClosed()
    ensures ReachedNodesHaveEntries(BookGraph(), Start)
  {
    ClosedGraph(BookGraph(), Start);
  }

  lemma BookGraphWeights()
    ensures WeightsWithin(BookGraph(), 6) && (|BookGraph()| + 1) * 6 < I32_MAX as int && NonNegative(BookGraph())
  {
    var g := BookGraph();
    NodeGraphSize(g);
    forall u, v | u in g && v in g[u]
      ensures 0 <= g[u][v] as int <= 6
    {
      match u
      case Start =>
      case A =>
      case B =>
      case C =>
      case D =>
      case Finish =>
      case Nowhere =>
    }
  }

  lemma BookGraphWalk()
    ensures IsWalk(BookGraph(), Start, Finish, [Start, B, A, Finish]) && Weight(BookGraph(), [Start, B, A, Finish]) == 6
  {
    ThreeEdges(BookGraph(), Start, B, A, Finish);
  }

  lemma BookPotentialIsPotential()
    ensures IsPotential(BookGraph(), BookPotential())
  {
  }

  /** The first unit test: the shortest path costs 6 (start, b, a, finish). */
  method BookGraphShortest() returns (r: Option<i32>)
    ensures r == Some(6)
  {
    BookGraphIsClosed();
    BookGraphWeights();
    BookPotentialIsPotential();
    BookGraphWalk();
    r := CertifiedShortest(BookGraph(), Start, Finish, 6, BookPotential(), [Start, B, A, Finish], 6);
  }

  /** The graph of the second unit test. */
  function SecondGraph(): Graph<Node>
  {
    map[
      Start := map[A := 5, B := 2],
      A := map[C := 4, D := 2],
      B := map[A := 8, D := 7],
      C := map[Finish := 3, D := 6],
      D := map[Finish := 1],
      Finish := map[]
    ]
  }

  /** Distances from `Start` in the second graph. */
  function SecondPotential(): map<Node, int>
  {
    map[Start := 0, A := 5, B := 2, C := 9, D := 7, Finish := 8]
  }

  lemma SecondGraphIsClosed()
    ensures ReachedNodesHaveEntries(SecondGraph(), Start)
  {
    ClosedGraph(SecondGraph(), Start);
  }

  lemma SecondGraphWeights()
    ensures WeightsWithin(SecondGraph(), 8) && (|SecondGraph()| + 1) * 8 < I32_MAX as int && NonNegative(SecondGraph())
  {
    var g := SecondGraph();
    NodeGraphSize(g);
    forall u, v | u in g && v in g[u]
      ensures 0 <= g[u][v] as int <= 8
    {
      match u
      case Start =>
      case A =>
      case B =>
      case C =>
      case D =>
      case Finish =>
      case Nowhere =>
    }
  }

  lemma SecondGraphWalk()
    ensures IsWalk(SecondGraph(), Start, Finish, [Start, A, D, Finish]) && Weight(SecondGraph(), [Start, A, D, Finish]) == 8
  {
    ThreeEdges(SecondGraph(), Start, A, D, Finish);
  }

  lemma SecondPotentialIsPotential()
    ensures IsPotential(SecondGraph(), SecondPotential())
  {
  }

  /** The second unit test accepts anything up to 8; the answer is exactly 8
      (start, a, d, finish). */
  method SecondGraphShortest() returns (r: Option<i32>)
    ensures r == Some(8)
  {
    SecondGraphIsClosed();
    SecondGraphWeights();
    SecondPotentialIsPotential();
    SecondGraphWalk();
    r := CertifiedShortest(SecondGraph(), Start, Finish, 8, SecondPotential(), [Start, A, D, Finish], 8);
  }

  /** The graph of the third unit test, with a cycle a, c, b, a. */
  function CyclicGraph(): Graph<Node>
  {
    map[
      Start := map[A := 10],
      A := map[C := 20],
      B := map[A := 1],
      C := map[B := 1, Finish := 30],
      Finish := map[]
    ]
  }

  /** Distances from `Start` in the cyclic graph. */
  function CyclicPotential(): map<Node, int>
  {
    map[Start := 0, A := 10, C := 30, B := 31, Finish := 60]
  }

  lemma CyclicGraphIsClosed()
    ensures ReachedNodesHaveEntries(CyclicGraph(), Start)
  {
    ClosedGraph(CyclicGraph(), Start);
  }

  lemma CyclicGraphWeights()
    ensures WeightsWithin(CyclicGraph(), 30) && (|CyclicGraph()| + 1) * 30 < I32_MAX as int && NonNegative(CyclicGraph())
  {
    var g := CyclicGraph();
    NodeGraphSize(g);
    forall u, v | u in g && v in g[u]
      ensures 0 <= g[u][v] as int <= 30
    {
      match u
      case Start =>
      case A =>
      case B =>
      case C =>
      case D =>
      case Finish =>
      case Nowhere =>
    }
  }

  lemma CyclicGraphWalk()
    ensures IsWalk(CyclicGraph(), Start, Finish, [Start, A, C, Finish]) && Weight(CyclicGraph(), [Start, A, C, Finish]) == 60
  {
    ThreeEdges(CyclicGraph(), Start, A, C, Finish);
  }

  lemma CyclicPotentialIsPotential()
    ensures IsPotential(CyclicGraph(), CyclicPotential())
  {
  }

  /** The third unit test accepts anything up to 60; the answer is exactly
      60 (start, a, c, finish). */
  method CyclicGraphShortest() returns (r: Option<i32>)
    ensures r == Some(60)
  {
    CyclicGraphIsClosed();
    CyclicGraphWeights();
    CyclicPotentialIsPotential();
    CyclicGraphWalk();
    r := CertifiedShortest(CyclicGraph(), Start, Finish, 30, CyclicPotential(), [Start, A, C, Finish], 60);
  }

  /** The graph of the fourth unit test, with the edge c -> b of weight -1. */
  function NegativeEdgeGraph(): Graph<Node>
  {
    map[
      Start := map[A := 2, B := 2],
      A := map[B := 2],
      B := map[C := 2, Finish := 2],
      C := map[B := -1, Finish := 2],
      Finish := map[]
    ]
  }

  function NegativeEdgePotential(): map<Node, int>
  {
    map[Start := 0, A := 2, B := 2, C := 4, Finish := 4]
  }

  lemma NegativeEdgeGraphIsClosed()
    ensures ReachedNodesHaveEntries(NegativeEdgeGraph(), Start)
  {
    ClosedGraph(NegativeEdgeGraph(), Start);
  }

  lemma NegativeEdgeGraphWeights()
    ensures WeightsWithin(NegativeEdgeGraph(), 2) && (|NegativeEdgeGraph()| + 1) * 2 < I32_MAX as int
  {
    var g := NegativeEdgeGraph();
    NodeGraphSize(g);
    forall u, v | u in g && v in g[u]
      ensures -2 <= g[u][v] as int <= 2
    {
      match u
      case Start =>
      case A =>
      case B =>
      case C =>
      case D =>
      case Finish =>
      case Nowhere =>
    }
  }

  lemma NegativeEdgeGraphWalk()
    ensures IsWalk(NegativeEdgeGraph(), Start, Finish, [Start, B, Finish])
  {
    EdgeWalk(NegativeEdgeGraph(), Start, B);
    ExtendWalk(NegativeEdgeGraph(), Start, B, [Start, B], Finish);
    assert [Start, B] + [Finish] == [Start, B, Finish];
  }

  lemma NegativeEdgePotentialIsPotential()
    ensures IsPotential(NegativeEdgeGraph(), NegativeEdgePotential())
  {
  }

  /** With the negative edge the answer is still the weight of a walk to
      `finish`, and no walk weighs less than 4 (the cycle b, c, b weighs 1). */
  method NegativeEdgeResult() returns (r: Option<i32>)
    ensures r.Some? && r.value >= 4
  {
    NegativeEdgeGraphIsClosed();
    NegativeEdgeGraphWeights();
    NegativeEdgeGraphWalk();
    NegativeEdgePotentialIsPotential();
    r := DejkstrasAlg(NegativeEdgeGraph(), Start, Finish, 2);
    BoundedBelow(NegativeEdgeGraph(), Start, Finish, NegativeEdgePotential(), r.value);
  }

  /** A start node without an entry gives `None` (the `graph.get(start)?`). */
  method UnknownStart() returns (r: Option<i32>)
    ensures r == None
  {
    BookGraphWeights();
    r := DejkstrasAlg(BookGraph(), Nowhere, Finish, 6);
  }

  /** In the book graph no walk from `A` comes back to `Start`. */
  lemma BookGraphStartUnreachedFromA()
    ensures !Reachable(BookGraph(), A, Start)
  {
    var g, s := BookGraph(), {A, Finish};
    assert forall v :: v in s ==> v in g && g[v].Keys <= s;
    forall p ensures !IsWalk(g, A, Start, p) {
      if IsWalk(g, A, Start, p) {
        ClosedSetContainsReached(g, A, s, Start, p);
      }
    }
  }

  /** A finish node no walk reaches gives `None`. */
  method UnreachedFinish() returns (r: Option<i32>)
    ensures r == None
  {
    BookGraphWeights();
    BookGraphStartUnreachedFromA();
    r := DejkstrasAlg(BookGraph(), A, Start, 6);
  }

  /** A reached node without an entry of its own gives `None` even when
      `finish` has a cost already (the `graph.get(node)?` inside the loop). */
  method MissingEntryGivesNone() returns (r: Option<i32>)
    ensures r == None
  {
    var g: Graph<Node> := map[Start := map[Finish := 1]];
    NodeGraphSize(g);
    assert IsWalk(g, Start, Finish, [Start, Finish]);
    r := DejkstrasAlg(g, Start, Finish, 1);
  }
}
