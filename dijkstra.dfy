/**
  Dijkstra's shortest-path algorithm in its linear-scan form, as
  `dejkstras_alg` runs it: a costs map seeded from the start node's
  neighbours, a parents map and a processed set, all updated in place, and a
  scan of the costs map for the cheapest unprocessed node at every step.
  HashMap iteration order is modelled by choosing the next key arbitrarily, so
  every contract below holds for every order.
 */
module Dijkstra {
  import opened Graphs

  datatype Option<T> = None | Some(value: T)

  /** A node `find_lowest_cost_node` can return: costed, not yet processed,
      and strictly cheaper than the `i32::MAX` it starts from. */
  predicate Candidate<K>(costs: map<K, i32>, processed: set<K>, n: K)
  {
    n in costs && n !in processed && costs[n] < I32_MAX
  }

  /** `n` is a candidate of least cost. */
  predicate IsLowest<K>(costs: map<K, i32>, processed: set<K>, n: K)
  {
    Candidate(costs, processed, n)
    && forall m :: m in costs && m !in processed && costs[m] < I32_MAX ==> costs[n] <= costs[m]
  }

  /** `find_lowest_cost_node`: a scan over the costs map keeping the cheapest
      unprocessed entry seen so far, replaced only by a strictly cheaper one. */
  method FindLowestCostNode<K>(costs: map<K, i32>, processed: set<K>) returns (r: Option<K>)
    ensures r.Some? ==> IsLowest(costs, processed, r.value)
    ensures r.None? <==> forall m :: m in costs ==> !Candidate(costs, processed, m)
  {
    var lowestCost := I32_MAX;
    var lowestCostNode: Option<K> := None;
    var unvisited := costs.Keys;
    while unvisited != {}
      invariant unvisited <= costs.Keys
      invariant lowestCostNode.None? ==> lowestCost == I32_MAX
      invariant lowestCostNode.Some? ==> Candidate(costs, processed, lowestCostNode.value)
                                         && costs[lowestCostNode.value] == lowestCost
      invariant forall m :: m in costs && m !in unvisited && m !in processed ==> lowestCost <= costs[m]
      decreases unvisited
    {
      var node :| node in unvisited;
      var cost := costs[node];
      if node !in processed && cost < lowestCost {
        lowestCost := cost;
        lowestCostNode := Some(node);
      }
      unvisited := unvisited - {node};
    }
    r := lowestCostNode;
  }

  /** The cost `or_insert(i32::MAX)` reads for `n`: its recorded cost, or the
      sentinel `i32::MAX` when it has none yet. */
  function OldOrMax<K>(costs: map<K, i32>, n: K): i32
  {
    if n in costs then costs[n] else I32_MAX
  }

  /** Going through the expanded node (at cost `cost`) is strictly cheaper for
      neighbour `n` than what is recorded. */
  predicate Improves<K>(costs: map<K, i32>, cost: i32, neighbors: map<K, i32>, n: K)
  {
    n in neighbors && cost as int + neighbors[n] as int < OldOrMax(costs, n) as int
  }

  /** `cost + neighbors[n]` fits an `i32` for every neighbour. */
  predicate NoOverflow<K>(cost: i32, neighbors: map<K, i32>)
  {
    forall n :: n in neighbors ==> -0x8000_0000 <= cost as int + neighbors[n] as int <= I32_MAX as int
  }

  /** The costs map after relaxing every edge out of a node of cost `cost`. */
  function RelaxedCosts<K>(costs: map<K, i32>, cost: i32, neighbors: map<K, i32>): (r: map<K, i32>)
    requires NoOverflow(cost, neighbors)
    ensures r.Keys == costs.Keys + neighbors.Keys
  {
    map m | m in costs.Keys + neighbors.Keys ::
      if Improves(costs, cost, neighbors, m) then cost + neighbors[m] else OldOrMax(costs, m)
  }

  /** Relaxation never raises a cost, bounds every neighbour by the path
      through the expanded node, leaves a cost as it was or sets it to that
      path, and lowers it exactly when the path improves on it. */
  lemma RelaxedCostsFacts<K>(costs: map<K, i32>, cost: i32, neighbors: map<K, i32>)
    requires NoOverflow(cost, neighbors)
    ensures var r := RelaxedCosts(costs, cost, neighbors);
            && (forall m :: m in costs ==> r[m] <= costs[m])
            && (forall n :: n in neighbors ==> r[n] as int <= cost as int + neighbors[n] as int)
            && (forall m :: m in r ==> r[m] == OldOrMax(costs, m) || (m in neighbors && r[m] as int == cost as int + neighbors[m] as int))
            && (forall m :: m in r ==> (r[m] < OldOrMax(costs, m) <==> Improves(costs, cost, neighbors, m)))
  {
  }

  /** The parents map after the same relaxation: the expanded node becomes the
      parent of exactly the neighbours whose cost it lowers. */
  function RelaxedParents<K>(costs: map<K, i32>, parents: map<K, K>, node: K, cost: i32, neighbors: map<K, i32>)
    : (r: map<K, K>)
    ensures parents.Keys <= r.Keys <= parents.Keys + neighbors.Keys
  {
    map m | m in parents.Keys + neighbors.Keys && (m in parents || Improves(costs, cost, neighbors, m)) ::
      if Improves(costs, cost, neighbors, m) then node else parents[m]
  }

  /** Every improved neighbour gets the expanded node as its parent, and every
      other recorded parent is left as it was. */
  lemma RelaxedParentsFacts<K>(costs: map<K, i32>, parents: map<K, K>, node: K, cost: i32, neighbors: map<K, i32>)
    ensures var r := RelaxedParents(costs, parents, node, cost, neighbors);
            && (forall n :: Improves(costs, cost, neighbors, n) ==> n in r && r[n] == node)
            && (forall m :: m in parents && !Improves(costs, cost, neighbors, m) ==> r[m] == parents[m])
  {
  }

  /** The costs map part way through the relaxation, with the neighbours in
      `pending` not yet visited. */
  ghost function CostsPending<K>(costs: map<K, i32>, cost: i32, neighbors: map<K, i32>, pending: set<K>): map<K, i32>
    requires NoOverflow(cost, neighbors)
  {
    map m | m in costs.Keys + (neighbors.Keys - pending) ::
      if m !in pending && Improves(costs, cost, neighbors, m) then cost + neighbors[m] else OldOrMax(costs, m)
  }

  /** The parents map part way through the relaxation. */
  ghost function ParentsPending<K>(costs: map<K, i32>, parents: map<K, K>, node: K, cost: i32, neighbors: map<K, i32>,
                                   pending: set<K>): map<K, K>
  {
    map m | m in parents.Keys + (neighbors.Keys - pending) && (m in parents || (m !in pending && Improves(costs, cost, neighbors, m))) ::
      if m !in pending && Improves(costs, cost, neighbors, m) then node else parents[m]
  }

  /** Before any neighbour is visited nothing has changed. */
  lemma CostsPendingStart<K>(costs: map<K, i32>, cost: i32, neighbors: map<K, i32>)
    requires NoOverflow(cost, neighbors)
    ensures CostsPending(costs, cost, neighbors, neighbors.Keys) == costs
  {
  }

  lemma ParentsPendingStart<K>(costs: map<K, i32>, parents: map<K, K>, node: K, cost: i32, neighbors: map<K, i32>)
    ensures ParentsPending(costs, parents, node, cost, neighbors, neighbors.Keys) == parents
  {
  }

  /** Once every neighbour is visited the relaxation is complete. */
  lemma CostsPendingEnd<K>(costs: map<K, i32>, cost: i32, neighbors: map<K, i32>)
    requires NoOverflow(cost, neighbors)
    ensures CostsPending(costs, cost, neighbors, {}) == RelaxedCosts(costs, cost, neighbors)
  {
  }

  lemma ParentsPendingEnd<K>(costs: map<K, i32>, parents: map<K, K>, node: K, cost: i32, neighbors: map<K, i32>)
    ensures ParentsPending(costs, parents, node, cost, neighbors, {}) == RelaxedParents(costs, parents, node, cost, neighbors)
  {
  }

  /** An unvisited neighbour still has its original cost, if any. */
  lemma PendingLookup<K>(costs: map<K, i32>, cost: i32, neighbors: map<K, i32>, pending: set<K>, n: K)
    requires NoOverflow(cost, neighbors)
    requires n in pending
    ensures var cur := CostsPending(costs, cost, neighbors, pending);
            && (n in cur <==> n in costs)
            && (n in costs ==> cur[n] == costs[n])
  {
  }

  /** Writing back the value a key already has changes nothing. */
  lemma UpdateSame<K, V>(m: map<K, V>, k: K)
    requires k in m
    ensures m[k := m[k]] == m
  {
  }

  /** Visiting one more neighbour `n`, once it holds the cost `or_insert`
      reads: the path through the expanded node is recorded exactly when it
      improves on that cost. */
  lemma CostsPendingStep<K>(costs: map<K, i32>, cost: i32, neighbors: map<K, i32>, pending: set<K>, n: K)
    requires NoOverflow(cost, neighbors)
    requires n in pending && n in neighbors
    ensures var cur := CostsPending(costs, cost, neighbors, pending)[n := OldOrMax(costs, n)];
            CostsPending(costs, cost, neighbors, pending - {n})
            == if Improves(costs, cost, neighbors, n) then cur[n := cost + neighbors[n]] else cur
  {
  }

  /** The expanded node becomes the parent of `n` exactly when the path
      through it improves. */
  lemma ParentsPendingStep<K>(costs: map<K, i32>, parents: map<K, K>, node: K, cost: i32, neighbors: map<K, i32>,
                              pending: set<K>, n: K)
    requires n in pending && n in neighbors
    ensures var cur := ParentsPending(costs, parents, node, cost, neighbors, pending);
            ParentsPending(costs, parents, node, cost, neighbors, pending - {n})
            == if Improves(costs, cost, neighbors, n) then cur[n := node] else cur
  {
  }

  /** The inner `for n in neighbors.keys()` loop of `dejkstras_alg`: for each
      neighbour, insert the sentinel if it has no cost yet, and when the path
      through `node` is strictly cheaper record it and make `node` its parent.
      The outcome does not depend on the visiting order. */
  method RelaxNeighbors<K>(costs: map<K, i32>, parents: map<K, K>, node: K, cost: i32, neighbors: map<K, i32>)
    returns (costs': map<K, i32>, parents': map<K, K>)
    requires NoOverflow(cost, neighbors)
    ensures costs' == RelaxedCosts(costs, cost, neighbors)
    ensures parents' == RelaxedParents(costs, parents, node, cost, neighbors)
  {
    costs', parents' := costs, parents;
    var unvisited := neighbors.Keys;
    CostsPendingStart(costs, cost, neighbors);
    ParentsPendingStart(costs, parents, node, cost, neighbors);
    while unvisited != {}
      invariant unvisited <= neighbors.Keys
      invariant costs' == CostsPending(costs, cost, neighbors, unvisited)
      invariant parents' == ParentsPending(costs, parents, node, cost, neighbors, unvisited)
      decreases unvisited
    {
      var n :| n in unvisited;
      PendingLookup(costs, cost, neighbors, unvisited, n);
      CostsPendingStep(costs, cost, neighbors, unvisited, n);
      ParentsPendingStep(costs, parents, node, cost, neighbors, unvisited, n);
      var newCost := cost + neighbors[n];
      if n !in costs' {
        costs' := costs'[n := I32_MAX];
      } else {
        UpdateSame(costs', n);
      }
      var oldCost := costs'[n];
      if newCost < oldCost {
        costs' := costs'[n := newCost];
        parents' := parents'[n := node];
      }
      unvisited := unvisited - {n};
    }
    CostsPendingEnd(costs, cost, neighbors);
    ParentsPendingEnd(costs, parents, node, cost, neighbors);
  }

  /** Relaxing lowers a neighbour's cost exactly when it makes the expanded
      node that neighbour's parent (the expanded node is nobody's parent yet),
      and it never raises a cost. */
  lemma ParentSetExactlyWhenLowered<K>(costs: map<K, i32>, parents: map<K, K>, node: K, cost: i32, neighbors: map<K, i32>, n: K)
    requires NoOverflow(cost, neighbors)
    requires forall m :: m in parents ==> parents[m] != node
    requires n in neighbors
    ensures var c, p := RelaxedCosts(costs, cost, neighbors), RelaxedParents(costs, parents, node, cost, neighbors);
            (n in p && p[n] == node) <==> c[n] < OldOrMax(costs, n)
  {
  }

  // ---------------------------------------------------------------------------
  // The loop invariant of `dejkstras_alg`, in parts.

  /** Every recorded cost is the weight of a walk from `start`, kept in the
      ghost map `walk`. */
  ghost predicate WalksWitness<K>(graph: Graph<K>, start: K, costs: map<K, i32>, walk: map<K, seq<K>>)
  {
    walk.Keys == costs.Keys
    && forall m :: m in costs ==> IsWalk(graph, start, m, walk[m]) && Weight(graph, walk[m]) == costs[m] as int
  }

  /** Every neighbour of `start` and of every processed node has a cost, and
      every processed node has an adjacency entry. */
  ghost predicate Frontier<K>(graph: Graph<K>, start: K, costs: map<K, i32>, processed: set<K>)
  {
    start in graph && graph[start].Keys <= costs.Keys
    && forall v :: v in processed ==> v in graph && graph[v].Keys <= costs.Keys
  }

  ghost predicate CostsWithin<K>(costs: map<K, i32>, limit: int)
  {
    forall m :: m in costs ==> -limit <= costs[m] as int <= limit
  }

  ghost predicate ParentsValid<K>(graph: Graph<K>, costs: map<K, i32>, parents: map<K, K>, processed: set<K>)
  {
    parents.Keys <= costs.Keys
    && forall n :: n in parents ==> parents[n] in processed && parents[n] in graph && n in graph[parents[n]]
  }

  /** `c` is no more than the weight of any walk from `start` to `v`. */
  ghost predicate Optimal<K(!new)>(graph: Graph<K>, start: K, v: K, c: int)
  {
    forall p :: IsWalk(graph, start, v, p) ==> c <= Weight(graph, p)
  }

  /** The direct edges out of `start` bound the costs of its neighbours. */
  ghost predicate StartEdgesBounded<K>(graph: Graph<K>, start: K, costs: map<K, i32>)
  {
    start in graph && forall m :: m in graph[start] ==> m in costs && costs[m] <= graph[start][m]
  }

  /** Every edge out of a processed node has been relaxed. */
  ghost predicate ProcessedEdgesRelaxed<K>(graph: Graph<K>, costs: map<K, i32>, processed: set<K>)
  {
    forall v, m :: v in processed && v in graph && m in graph[v] ==>
      v in costs && m in costs && costs[m] as int <= costs[v] as int + graph[v][m] as int
  }

  /** Processed costs are final: no walk to a processed node is cheaper. */
  ghost predicate ProcessedFinal<K(!new)>(graph: Graph<K>, start: K, costs: map<K, i32>, processed: set<K>)
  {
    forall v :: v in processed ==> v in costs && Optimal(graph, start, v, costs[v] as int)
  }

  /** What holds of the costs when every weight is non-negative. */
  ghost predicate Settled<K(!new)>(graph: Graph<K>, start: K, costs: map<K, i32>, processed: set<K>)
  {
    && StartEdgesBounded(graph, start, costs)
    && ProcessedEdgesRelaxed(graph, costs, processed)
    && ProcessedFinal(graph, start, costs, processed)
  }

  ghost predicate Invariant<K(!new)>(graph: Graph<K>, start: K, bound: nat, costs: map<K, i32>, parents: map<K, K>,
                                      processed: set<K>, walk: map<K, seq<K>>)
  {
    && Frontier(graph, start, costs, processed)
    && costs.Keys <= Targets(graph)
    && processed <= costs.Keys
    && WalksWitness(graph, start, costs, walk)
    && CostsWithin(costs, (|processed| + 1) * bound)
    && ParentsValid(graph, costs, parents, processed)
    && (NonNegative(graph) ==> Settled(graph, start, costs, processed))
  }

  /** The walks after relaxing: an improved neighbour's walk goes through the
      expanded node. */
  ghost function ExtendedWalks<K>(walk: map<K, seq<K>>, before: map<K, i32>, node: K, cost: i32, neighbors: map<K, i32>)
    : map<K, seq<K>>
    requires node in walk
    requires forall m :: m in neighbors && m !in walk ==> Improves(before, cost, neighbors, m)
  {
    map m | m in walk.Keys + neighbors.Keys ::
      if Improves(before, cost, neighbors, m) then walk[node] + [m] else walk[m]
  }

  lemma MulMonotone(a: nat, b: nat, c: nat)
    requires a <= b
    ensures a * c <= b * c
  {
  }

  /** At a selection, the next sums stay below `i32::MAX` in absolute value:
      the selected node is the `|processed| + 1`-th node with an entry. */
  lemma SelectionBounds<K>(graph: Graph<K>, bound: nat, costs: map<K, i32>, processed: set<K>, node: K)
    requires WeightsWithin(graph, bound) && (|graph| + 1) * bound < I32_MAX as int
    requires processed <= graph.Keys && CostsWithin(costs, (|processed| + 1) * bound)
    requires node in graph && node in costs && node !in processed
    ensures NoOverflow(costs[node], graph[node])
    ensures forall n :: n in graph[node] ==> -(I32_MAX as int) < costs[node] as int + graph[node][n] as int < I32_MAX as int
    ensures forall n :: n in graph[node] ==>
      -((|processed| + 2) * bound) <= costs[node] as int + graph[node][n] as int <= (|processed| + 2) * bound
  {
    SubsetCardinality(processed + {node}, graph.Keys);
    MulMonotone(|processed| + 2, |graph| + 1, bound);
    assert (|processed| + 2) * bound == (|processed| + 1) * bound + bound;
  }

  /** Once costs are bounded by the invariant, no cost equals the sentinel. */
  lemma BelowSentinel<K>(graph: Graph<K>, bound: nat, costs: map<K, i32>, processed: set<K>)
    requires (|graph| + 1) * bound < I32_MAX as int
    requires processed <= graph.Keys && CostsWithin(costs, (|processed| + 1) * bound)
    ensures forall m :: m in costs ==> costs[m] < I32_MAX
  {
    SubsetCardinality(processed, graph.Keys);
    MulMonotone(|processed| + 1, |graph| + 1, bound);
  }

  /** On any walk from `start` to an unprocessed node, some node after
      `start` is unprocessed while all nodes strictly between are processed. */
  lemma FirstUnprocessed<K>(p: seq<K>, processed: set<K>) returns (j: nat)
    requires |p| >= 2 && p[|p| - 1] !in processed
    ensures 1 <= j < |p| && p[j] !in processed
    ensures forall i :: 1 <= i < j ==> p[i] in processed
  {
    j := 1;
    while p[j] in processed
      invariant 1 <= j < |p|
      invariant forall i :: 1 <= i < j ==> p[i] in processed
      decreases |p| - j
    {
      j := j + 1;
    }
  }

  /** The first unprocessed node on a walk from `start` is costed no more
      than the prefix of the walk that leads to it. */
  lemma PrefixToFirstUnprocessed<K(!new)>(graph: Graph<K>, start: K, costs: map<K, i32>, processed: set<K>,
                                          p: seq<K>, j: nat)
    requires StartEdgesBounded(graph, start, costs) && ProcessedEdgesRelaxed(graph, costs, processed)
    requires ProcessedFinal(graph, start, costs, processed) && processed <= graph.Keys
    requires |p| >= 2 && p[0] == start && Edges(graph, p)
    requires 1 <= j < |p| && forall i :: 1 <= i < j ==> p[i] in processed
    ensures Edges(graph, p[..j + 1]) && p[j] in costs && costs[p[j]] as int <= Weight(graph, p[..j + 1])
  {
    var q := p[..j + 1];
    PrefixEdges(graph, p, j + 1);
    if j == 1 {
      assert q == [start, p[1]];
      EdgeWalk(graph, start, p[1]);
    } else {
      var v := p[j - 1];
      assert v in processed;
      PrefixEdges(graph, p, j);
      assert q[..j] == p[..j];
      assert IsWalk(graph, start, v, p[..j]);
      assert Optimal(graph, start, v, costs[v] as int);
      assert costs[v] as int <= Weight(graph, p[..j]);
      assert v in graph && p[j] in graph[v];
    }
  }

  /** The greedy step: with non-negative weights the cheapest unprocessed
      node's cost is no more than the weight of any walk to it. */
  lemma SelectedIsOptimal<K(!new)>(graph: Graph<K>, start: K, costs: map<K, i32>, processed: set<K>, node: K)
    requires NonNegative(graph)
    requires processed <= graph.Keys && Settled(graph, start, costs, processed)
    requires forall m :: m in costs ==> costs[m] < I32_MAX
    requires IsLowest(costs, processed, node)
    ensures Optimal(graph, start, node, costs[node] as int)
  {
    forall p | IsWalk(graph, start, node, p)
      ensures costs[node] as int <= Weight(graph, p)
    {
      var j := FirstUnprocessed(p, processed);
      PrefixToFirstUnprocessed(graph, start, costs, processed, p, j);
      PrefixWeight(graph, p, j + 1);
      assert Candidate(costs, processed, p[j]);
    }
  }

  /** The relaxation keeps every recorded cost the weight of a walk. */
  lemma StepWalks<K(!new)>(graph: Graph<K>, start: K, before: map<K, i32>, walk: map<K, seq<K>>, node: K, cost: i32)
    requires node in graph && node in before && cost == before[node]
    requires WalksWitness(graph, start, before, walk)
    requires NoOverflow(cost, graph[node])
    requires forall m :: m in graph[node] && m !in walk ==> Improves(before, cost, graph[node], m)
    ensures WalksWitness(graph, start, RelaxedCosts(before, cost, graph[node]), ExtendedWalks(walk, before, node, cost, graph[node]))
  {
    var neighbors := graph[node];
    var after := RelaxedCosts(before, cost, neighbors);
    var walk' := ExtendedWalks(walk, before, node, cost, neighbors);
    forall m | m in after
      ensures IsWalk(graph, start, m, walk'[m]) && Weight(graph, walk'[m]) == after[m] as int
    {
      RelaxedCostsFacts(before, cost, neighbors);
      if Improves(before, cost, neighbors, m) {
        ExtendWalk(graph, start, node, walk[node], m);
      }
    }
  }

  /** With non-negative weights the relaxation changes no processed cost,
      nor the cost of the expanded node itself. */
  lemma StepKeepsProcessed<K(!new)>(graph: Graph<K>, start: K, before: map<K, i32>, processed: set<K>,
                                    walk: map<K, seq<K>>, node: K, cost: i32)
    requires NonNegative(graph)
    requires node in graph && node in before && cost == before[node]
    requires ProcessedFinal(graph, start, before, processed)
    requires WalksWitness(graph, start, before, walk)
    requires NoOverflow(cost, graph[node])
    ensures forall v :: v in processed + {node} ==> v in before && RelaxedCosts(before, cost, graph[node])[v] == before[v]
  {
    var neighbors := graph[node];
    forall v | v in processed + {node}
      ensures v in before && !Improves(before, cost, neighbors, v)
    {
      if v in neighbors && v != node {
        ExtendWalk(graph, start, node, walk[node], v);
        assert Optimal(graph, start, v, before[v] as int);
        assert before[v] as int <= Weight(graph, walk[node] + [v]);
      }
    }
  }

  /** The relaxation keeps the start edges bounded. */
  lemma StepStartEdges<K>(graph: Graph<K>, start: K, before: map<K, i32>, cost: i32, neighbors: map<K, i32>)
    requires StartEdgesBounded(graph, start, before) && NoOverflow(cost, neighbors)
    ensures StartEdgesBounded(graph, start, RelaxedCosts(before, cost, neighbors))
  {
    RelaxedCostsFacts(before, cost, neighbors);
  }

  /** After the relaxation every edge out of the expanded node and out of the
      processed nodes is relaxed. */
  lemma StepEdges<K>(graph: Graph<K>, before: map<K, i32>, processed: set<K>, node: K, cost: i32)
    requires node in graph && node in before && cost == before[node]
    requires ProcessedEdgesRelaxed(graph, before, processed)
    requires NoOverflow(cost, graph[node])
    requires forall v :: v in processed + {node} ==> v in before && RelaxedCosts(before, cost, graph[node])[v] == before[v]
    ensures ProcessedEdgesRelaxed(graph, RelaxedCosts(before, cost, graph[node]), processed + {node})
  {
    RelaxedCostsFacts(before, cost, graph[node]);
  }

  /** The expanded node joins the final costs, and the others keep theirs. */
  lemma StepFinal<K(!new)>(graph: Graph<K>, start: K, before: map<K, i32>, processed: set<K>, node: K, cost: i32)
    requires node in graph && node in before && cost == before[node]
    requires ProcessedFinal(graph, start, before, processed)
    requires Optimal(graph, start, node, cost as int)
    requires NoOverflow(cost, graph[node])
    requires forall v :: v in processed + {node} ==> v in before && RelaxedCosts(before, cost, graph[node])[v] == before[v]
    ensures ProcessedFinal(graph, start, RelaxedCosts(before, cost, graph[node]), processed + {node})
  {
  }

  /** The costs stay within the bound for one more processed node. */
  lemma StepBound<K>(before: map<K, i32>, cost: i32, neighbors: map<K, i32>, limit: int, next: int)
    requires NoOverflow(cost, neighbors) && limit <= next
    requires CostsWithin(before, limit)
    requires forall n :: n in neighbors ==> -next <= cost as int + neighbors[n] as int <= next
    requires forall n :: n in neighbors && n !in before ==> Improves(before, cost, neighbors, n)
    ensures CostsWithin(RelaxedCosts(before, cost, neighbors), next)
  {
    RelaxedCostsFacts(before, cost, neighbors);
  }

  /** One iteration keeps every cost the weight of a walk, and within the
      bound for one more processed node. */
  lemma StepCosts<K(!new)>(graph: Graph<K>, start: K, bound: nat, before: map<K, i32>, processed: set<K>,
                           walk: map<K, seq<K>>, node: K)
    requires WeightsWithin(graph, bound) && (|graph| + 1) * bound < I32_MAX as int
    requires processed <= graph.Keys
    requires WalksWitness(graph, start, before, walk) && CostsWithin(before, (|processed| + 1) * bound)
    requires node in before && node !in processed && node in graph
    ensures NoOverflow(before[node], graph[node])
    ensures forall m :: m in graph[node] && m !in walk ==> Improves(before, before[node], graph[node], m)
    ensures var after := RelaxedCosts(before, before[node], graph[node]);
            && WalksWitness(graph, start, after, ExtendedWalks(walk, before, node, before[node], graph[node]))
            && CostsWithin(after, (|processed + {node}| + 1) * bound)
  {
    var cost, neighbors := before[node], graph[node];
    AddOne(processed, node);
    SelectionBounds(graph, bound, before, processed, node);
    StepWalks(graph, start, before, walk, node, cost);
    MulMonotone(|processed| + 1, |processed| + 2, bound);
    StepBound(before, cost, neighbors, (|processed| + 1) * bound, (|processed| + 2) * bound);
    assert |processed + {node}| + 1 == |processed| + 2;
  }

  /** One iteration keeps the frontier, the parents and the key sets in
      shape. */
  lemma StepShape<K>(graph: Graph<K>, start: K, before: map<K, i32>, parents: map<K, K>, processed: set<K>, node: K)
    requires Frontier(graph, start, before, processed) && before.Keys <= Targets(graph) && processed <= before.Keys
    requires ParentsValid(graph, before, parents, processed)
    requires node in before && node in graph
    requires NoOverflow(before[node], graph[node])
    ensures var after := RelaxedCosts(before, before[node], graph[node]);
            var processed' := processed + {node};
            && Frontier(graph, start, after, processed')
            && after.Keys <= Targets(graph)
            && processed' <= after.Keys
            && ParentsValid(graph, after, RelaxedParents(before, parents, node, before[node], graph[node]), processed')
  {
    StepFrontier(graph, start, before, processed, node, before[node]);
    StepParents(graph, before, parents, processed, node, before[node]);
    StepTargets(graph, before, node, before[node]);
  }

  /** One iteration of the outer loop keeps the invariant. */
  lemma StepPreservesInvariant<K(!new)>(graph: Graph<K>, start: K, bound: nat, before: map<K, i32>, parents: map<K, K>,
                                        processed: set<K>, walk: map<K, seq<K>>, node: K)
    requires WeightsWithin(graph, bound) && (|graph| + 1) * bound < I32_MAX as int
    requires Invariant(graph, start, bound, before, parents, processed, walk)
    requires IsLowest(before, processed, node) && node in graph
    ensures NoOverflow(before[node], graph[node])
    ensures forall m :: m in graph[node] && m !in walk ==> Improves(before, before[node], graph[node], m)
    ensures Invariant(graph, start, bound, RelaxedCosts(before, before[node], graph[node]),
                      RelaxedParents(before, parents, node, before[node], graph[node]), processed + {node},
                      ExtendedWalks(walk, before, node, before[node], graph[node]))
  {
    StepCosts(graph, start, bound, before, processed, walk, node);
    StepShape(graph, start, before, parents, processed, node);
    if NonNegative(graph) {
      BelowSentinel(graph, bound, before, processed);
      StepSettled(graph, start, before, processed, walk, node);
    }
  }

  /** Relaxing adds only targets of edges to the costs map. */
  lemma StepTargets<K>(graph: Graph<K>, before: map<K, i32>, node: K, cost: i32)
    requires before.Keys <= Targets(graph) && node in graph
    requires NoOverflow(cost, graph[node])
    ensures RelaxedCosts(before, cost, graph[node]).Keys <= Targets(graph)
  {
    forall m | m in graph[node] ensures m in Targets(graph) {
      assert node in graph && m in graph[node];
    }
  }

  /** With non-negative weights one iteration keeps the costs settled, now
      with the selected node processed. */
  lemma StepSettled<K(!new)>(graph: Graph<K>, start: K, before: map<K, i32>, processed: set<K>,
                             walk: map<K, seq<K>>, node: K)
    requires NonNegative(graph)
    requires node in graph && IsLowest(before, processed, node)
    requires processed <= graph.Keys && Settled(graph, start, before, processed)
    requires WalksWitness(graph, start, before, walk)
    requires forall m :: m in before ==> before[m] < I32_MAX
    requires NoOverflow(before[node], graph[node])
    ensures Settled(graph, start, RelaxedCosts(before, before[node], graph[node]), processed + {node})
  {
    var cost := before[node];
    SelectedIsOptimal(graph, start, before, processed, node);
    StepKeepsProcessed(graph, start, before, processed, walk, node, cost);
    StepStartEdges(graph, start, before, cost, graph[node]);
    StepEdges(graph, before, processed, node, cost);
    StepFinal(graph, start, before, processed, node, cost);
  }

  lemma AddOne<K>(s: set<K>, x: K)
    requires x !in s
    ensures |s + {x}| == |s| + 1
  {
  }

  lemma StepFrontier<K>(graph: Graph<K>, start: K, before: map<K, i32>, processed: set<K>, node: K, cost: i32)
    requires Frontier(graph, start, before, processed) && node in graph
    requires NoOverflow(cost, graph[node])
    ensures Frontier(graph, start, RelaxedCosts(before, cost, graph[node]), processed + {node})
  {
  }

  lemma StepParents<K>(graph: Graph<K>, before: map<K, i32>, parents: map<K, K>, processed: set<K>, node: K, cost: i32)
    requires ParentsValid(graph, before, parents, processed) && node in graph
    requires NoOverflow(cost, graph[node])
    ensures ParentsValid(graph, RelaxedCosts(before, cost, graph[node]),
                         RelaxedParents(before, parents, node, cost, graph[node]), processed + {node})
  {
  }

  /** The state before the first selection satisfies the invariant. */
  lemma InitialInvariant<K(!new)>(graph: Graph<K>, start: K, bound: nat)
    requires WeightsWithin(graph, bound) && start in graph
    ensures Invariant(graph, start, bound, graph[start], map[], {}, map m | m in graph[start] :: [start, m])
  {
    var walk := map m | m in graph[start] :: [start, m];
    forall m | m in graph[start]
      ensures IsWalk(graph, start, m, walk[m]) && Weight(graph, walk[m]) == graph[start][m] as int
    {
      EdgeWalk(graph, start, m);
    }
  }

  /** A costed node without an adjacency entry is reached from `start`. */
  lemma MissingEntry<K(!new)>(graph: Graph<K>, start: K, costs: map<K, i32>, walk: map<K, seq<K>>, node: K)
    requires WalksWitness(graph, start, costs, walk)
    requires node in costs && node !in graph
    ensures !ReachedNodesHaveEntries(graph, start)
  {
    assert IsWalk(graph, start, node, walk[node]);
  }

  /** When no candidate is left, every cost is processed, so the costs map is
      closed under edges: it holds every node reached from `start`, and every
      such node has an adjacency entry. */
  lemma ExitFacts<K(!new)>(graph: Graph<K>, start: K, bound: nat, costs: map<K, i32>, parents: map<K, K>,
                           processed: set<K>, walk: map<K, seq<K>>, finish: K)
    requires WeightsWithin(graph, bound) && (|graph| + 1) * bound < I32_MAX as int
    requires Invariant(graph, start, bound, costs, parents, processed, walk)
    requires forall m :: m in costs ==> !Candidate(costs, processed, m)
    ensures costs.Keys == processed
    ensures ReachedNodesHaveEntries(graph, start)
    ensures finish in costs <==> Reachable(graph, start, finish)
    ensures finish in costs ==> IsWalk(graph, start, finish, walk[finish]) && Weight(graph, walk[finish]) == costs[finish] as int
    ensures finish in costs && NonNegative(graph) ==> Optimal(graph, start, finish, costs[finish] as int)
  {
    assert processed <= graph.Keys;
    BelowSentinel(graph, bound, costs, processed);
    assert forall m :: m in costs ==> m in processed by {
      forall m | m in costs ensures m in processed {
        assert !Candidate(costs, processed, m);
      }
    }
    forall m, p | IsWalk(graph, start, m, p)
      ensures m in costs
    {
      ClosedSetContainsReached(graph, start, costs.Keys, m, p);
    }
    if finish in costs {
      assert IsWalk(graph, start, finish, walk[finish]);
    }
  }

  /** `dejkstras_alg`. Weights are assumed to lie in [-bound, bound] with
      `(|graph| + 1) * bound < i32::MAX`, so that no sum overflows `i32`.
      The result is `None` exactly when `start` has no entry, some node
      reached from `start` has no entry, or `finish` is not reached; a
      returned cost is the weight of a walk to `finish`; with non-negative
      weights it is the least such weight. */
  method DejkstrasAlg<K(!new)>(graph: Graph<K>, start: K, finish: K, ghost bound: nat) returns (r: Option<i32>)
    requires WeightsWithin(graph, bound) && (|graph| + 1) * bound < I32_MAX as int
    ensures r.None? <==> start !in graph || !ReachedNodesHaveEntries(graph, start) || !Reachable(graph, start, finish)
    ensures r.Some? ==> exists p :: IsWalk(graph, start, finish, p) && Weight(graph, p) == r.value as int
    ensures r.Some? && NonNegative(graph) ==>
      forall p :: IsWalk(graph, start, finish, p) ==> r.value as int <= Weight(graph, p)
  {
    if start !in graph {
      return None;
    }
    var costs := graph[start];
    var parents: map<K, K>, processed: set<K> := map[], {};
    ghost var walk: map<K, seq<K>> := map m | m in costs :: [start, m];
    InitialInvariant(graph, start, bound);

    var optNode := FindLowestCostNode(costs, processed);
    while optNode.Some?
      invariant Invariant(graph, start, bound, costs, parents, processed, walk)
      invariant optNode.Some? ==> IsLowest(costs, processed, optNode.value)
      invariant optNode.None? ==> forall m :: m in costs ==> !Candidate(costs, processed, m)
      decreases Targets(graph) - processed
    {
      var node := optNode.value;
      var cost := costs[node];
      if node !in graph {
        MissingEntry(graph, start, costs, walk, node);
        return None;
      }
      var neighbors := graph[node];
      StepPreservesInvariant(graph, start, bound, costs, parents, processed, walk, node);
      ghost var before := costs;
      costs, parents := RelaxNeighbors(costs, parents, node, cost, neighbors);
      walk := ExtendedWalks(walk, before, node, cost, neighbors);
      processed := processed + {node};
      optNode := FindLowestCostNode(costs, processed);
    }

    ExitFacts(graph, start, bound, costs, parents, processed, walk, finish);
    if finish in costs {
      r := Some(costs[finish]);
    } else {
      r := None;
    }
  }
}
