/** The A* solver over a navigation mesh: a context holding scratch `came_from` and `cost`
    arrays and an open set, reset on every solve; strict-improvement relaxation; goal-first
    path reconstruction, and a fallback to the relaxed node closest to the goal. */
module AStar {
  import opened Vectors
  import opened Options

  /** A node of the graph: its position and the indices of its neighbours (the `Node` trait). */
  datatype NavNode = NavNode(pos: Vec3, neighbours: seq<int>)

  // ---------------------------------------------------------------------------
  // Open-set entries and their reversed ordering

  datatype NodeAndScore = NodeAndScore(idx: int, fScore: real)

  datatype Ordering = Less | Equal | Greater

  function CompareReals(a: real, b: real): Ordering
  {
    if a < b then Less else if a > b then Greater else Equal
  }

  function Reverse(o: Ordering): Ordering
  {
    match o
    case Less => Greater
    case Equal => Equal
    case Greater => Less
  }

  /** `Ord for NodeAndScore`: the f-score comparison reversed, so that the max-heap pops the
      lowest f-score first. */
  function Cmp(a: NodeAndScore, b: NodeAndScore): (r: Ordering)
    ensures r == Greater <==> a.fScore < b.fScore
    ensures r == Less <==> b.fScore < a.fScore
    ensures r == Equal <==> a.fScore == b.fScore
  {
    Reverse(CompareReals(a.fScore, b.fScore))
  }

  /** The ordering is antisymmetric and transitive, so the heap is well behaved. */
  lemma CmpIsTotalPreorder(a: NodeAndScore, b: NodeAndScore, c: NodeAndScore)
    ensures Cmp(a, b) == Reverse(Cmp(b, a))
    ensures Cmp(a, b) != Less && Cmp(b, c) != Less ==> Cmp(a, c) != Less
  {
  }

  /** What a `BinaryHeap` pop may return: an entry no other entry is greater than. */
  predicate IsHeapMax(x: NodeAndScore, m: multiset<NodeAndScore>)
  {
    x in m && forall y :: y in m ==> Cmp(x, y) != Less
  }

  /** The popped entry has the lowest f-score (ties are broken arbitrarily). */
  lemma HeapMaxIsLowestScore(x: NodeAndScore, m: multiset<NodeAndScore>)
    requires x in m
    ensures IsHeapMax(x, m) <==> forall y :: y in m ==> x.fScore <= y.fScore
  {
  }

  /** A non-empty open set always has an entry to pop. */
  lemma HeapMaxExists(m: multiset<NodeAndScore>)
    requires |m| > 0
    ensures exists x :: IsHeapMax(x, m)
    decreases |m|
  {
    var y :| y in m;
    var rest := m - multiset{y};
    assert m == rest + multiset{y};
    if |rest| == 0 {
      assert rest == multiset{};
      assert IsHeapMax(y, m);
    } else {
      HeapMaxExists(rest);
      var z :| IsHeapMax(z, rest);
      if y.fScore < z.fScore {
        assert IsHeapMax(y, m);
      } else {
        assert IsHeapMax(z, m);
      }
    }
  }

  // ---------------------------------------------------------------------------
  // Snapping a point to a node

  function Distance(nodes: seq<NavNode>, norm: Vec3 -> real, p: Vec3, i: nat): real
    requires i < |nodes|
  {
    norm(Sub3(p, nodes[i].pos))
  }

  /** `i` is the node at the smallest distance from `p`, and the earliest among equals. */
  predicate IsNearest(nodes: seq<NavNode>, norm: Vec3 -> real, p: Vec3, i: int)
  {
    0 <= i < |nodes|
    && (forall j :: 0 <= j < |nodes| ==> Distance(nodes, norm, p, i) <= Distance(nodes, norm, p, j))
    && (forall j :: 0 <= j < i ==> Distance(nodes, norm, p, i) < Distance(nodes, norm, p, j))
  }

  /** At most one node is the nearest, so snapping is a function of the point. */
  lemma NearestIsUnique(nodes: seq<NavNode>, norm: Vec3 -> real, p: Vec3, i: int, j: int)
    requires IsNearest(nodes, norm, p, i) && IsNearest(nodes, norm, p, j)
    ensures i == j
  {
    assert Distance(nodes, norm, p, i) == Distance(nodes, norm, p, j);
  }

  /** Every edge cost is positive. */
  ghost predicate PositiveCosts(costFn: (NavNode, NavNode) -> real)
  {
    forall a, b :: costFn(a, b) > 0.0
  }

  /** Every index in `s` is in `[0, n)`. */
  predicate IndicesBelow(s: seq<int>, n: int)
  {
    forall k :: 0 <= k < |s| ==> 0 <= s[k] < n
  }

  /** All neighbour indices name nodes. */
  predicate NeighboursInRange(nodes: seq<NavNode>)
  {
    forall i :: 0 <= i < |nodes| ==> IndicesBelow(nodes[i].neighbours, |nodes|)
  }

  /** What `solve` can end in. A panic is an `unwrap` on an empty node list or an out-of-range
      neighbour index; `Hang` is the reconstruction walk going round a `came_from` cycle that
      misses the start; `OutOfFuel` is the fuel for the turns of the open-set loop running out. */
  datatype SolveResult = Path(points: seq<Vec3>) | Panic | Hang | OutOfFuel

  /** How the open-set loop ended. */
  datatype SearchEnd = GoalPopped | Exhausted | NeighbourPanic | FuelOut

  /** `heuristic`: the norm of the difference of the two node positions. */
  function Heuristic(nodes: seq<NavNode>, norm: Vec3 -> real, a: int, b: int): (h: real)
    requires 0 <= a < |nodes| && 0 <= b < |nodes|
    ensures a == b ==> h == norm(Zero3)
  {
    assert Sub3(nodes[a].pos, nodes[a].pos) == Zero3;
    norm(Sub3(nodes[a].pos, nodes[b].pos))
  }

  // ---------------------------------------------------------------------------
  // The search invariant, over the values of `came_from`, `cost` and the open set

  /** A node has been reached by the search once its `came_from` is no longer -1. */
  ghost predicate VisitedIn(cameFrom: seq<int>, v: int)
  {
    0 <= v < |cameFrom| && cameFrom[v] != -1
  }

  /** `came_from[v] == u` records that `v` was relaxed while visiting `u`, so `v` is a
      neighbour of `u`; the start alone may point at itself. */
  ghost predicate LinkIn(nodes: seq<NavNode>, v: int, u: int, fromIdx: int)
    requires 0 <= u < |nodes|
  {
    v in nodes[u].neighbours || (v == fromIdx && u == fromIdx)
  }

  /** The part of the `came_from` forest invariant about one visited node `v`: it points at a
      visited node it is linked to, and with positive costs that node is cheaper, and the
      start is cheaper still. */
  ghost predicate StepIn(nodes: seq<NavNode>, cameFrom: seq<int>, cost: seq<real>, v: int, fromIdx: int, positive: bool)
    requires |cameFrom| == |nodes| && |cost| == |nodes| && 0 <= fromIdx < |nodes| && VisitedIn(cameFrom, v)
  {
    0 <= cameFrom[v] < |nodes|
    && cameFrom[cameFrom[v]] != -1
    && LinkIn(nodes, v, cameFrom[v], fromIdx)
    && (positive && v != fromIdx ==> cost[cameFrom[v]] < cost[v] && cost[fromIdx] < cost[v])
  }

  /** The `came_from` forest: the start is visited, and with positive costs it points at
      itself; every visited node satisfies `StepIn`. */
  ghost predicate TreeIn(nodes: seq<NavNode>, cameFrom: seq<int>, cost: seq<real>, fromIdx: int, positive: bool)
  {
    |cameFrom| == |nodes| && |cost| == |nodes|
    && 0 <= fromIdx < |nodes|
    && VisitedIn(cameFrom, fromIdx)
    && (positive ==> cameFrom[fromIdx] == fromIdx)
    && (forall v :: VisitedIn(cameFrom, v) ==> StepIn(nodes, cameFrom, cost, v, fromIdx, positive))
  }

  /** Open entries name visited nodes, and a visited goal still has an open entry. */
  ghost predicate OpenIn(cameFrom: seq<int>, openSet: multiset<NodeAndScore>, toIdx: int)
  {
    (forall e :: e in openSet ==> VisitedIn(cameFrom, e.idx))
    && (VisitedIn(cameFrom, toIdx) ==> exists e :: e in openSet && e.idx == toIdx)
  }

  /** The fallback candidate: -1 with the start's heuristic, or the visited node other than
      the start with the smallest heuristic when that beats the start's. */
  ghost predicate BestIn(nodes: seq<NavNode>, cameFrom: seq<int>, norm: Vec3 -> real, fromIdx: int, toIdx: int,
                         bestIdx: int, bestScore: real)
    requires |cameFrom| == |nodes| && 0 <= fromIdx < |nodes| && 0 <= toIdx < |nodes|
  {
    (bestIdx == -1 ==> bestScore == Heuristic(nodes, norm, fromIdx, toIdx))
    && (bestIdx != -1 ==> VisitedIn(cameFrom, bestIdx) && bestIdx != fromIdx
                          && bestScore == Heuristic(nodes, norm, bestIdx, toIdx) < Heuristic(nodes, norm, fromIdx, toIdx))
    && (forall v :: VisitedIn(cameFrom, v) && v != fromIdx ==> bestScore <= Heuristic(nodes, norm, v, toIdx))
  }

  /** The invariant of the open-set loop: the forest, the open entries and the fallback
      candidate. */
  ghost predicate SearchIn(nodes: seq<NavNode>, cameFrom: seq<int>, cost: seq<real>, openSet: multiset<NodeAndScore>,
                           norm: Vec3 -> real, fromIdx: int, toIdx: int, bestIdx: int, bestScore: real, positive: bool)
  {
    TreeIn(nodes, cameFrom, cost, fromIdx, positive)
    && 0 <= toIdx < |nodes|
    && OpenIn(cameFrom, openSet, toIdx)
    && BestIn(nodes, cameFrom, norm, fromIdx, toIdx, bestIdx, bestScore)
  }

  /** A strict-improvement update of `next` through the visited node `cur` keeps the forest. */
  lemma TreeUpdate(nodes: seq<NavNode>, cameFrom: seq<int>, cost: seq<real>, fromIdx: int, positive: bool,
                   cur: int, next: int, newCost: real)
    requires TreeIn(nodes, cameFrom, cost, fromIdx, positive) && VisitedIn(cameFrom, cur)
    requires 0 <= next < |nodes| && next in nodes[cur].neighbours && newCost < cost[next]
    requires positive ==> cost[cur] < newCost
    ensures TreeIn(nodes, cameFrom[next := cur], cost[next := newCost], fromIdx, positive)
  {
    var cf, cs := cameFrom[next := cur], cost[next := newCost];
    assert StepIn(nodes, cameFrom, cost, cur, fromIdx, positive);
    if positive {
      assert next != fromIdx by {
        if cur != fromIdx {
          assert cost[fromIdx] < cost[cur];
        }
      }
    }
    forall v | VisitedIn(cf, v)
      ensures StepIn(nodes, cf, cs, v, fromIdx, positive)
    {
      if v != next {
        assert VisitedIn(cameFrom, v);
        assert StepIn(nodes, cameFrom, cost, v, fromIdx, positive);
      }
    }
  }

  /** The same update, with the push and the fallback-candidate rule, keeps the search
      invariant. */
  lemma SearchUpdate(nodes: seq<NavNode>, cameFrom: seq<int>, cost: seq<real>, openSet: multiset<NodeAndScore>,
                     norm: Vec3 -> real, fromIdx: int, toIdx: int, bestIdx: int, bestScore: real, positive: bool,
                     cur: int, next: int, newCost: real, bestIdx': int, bestScore': real)
    requires SearchIn(nodes, cameFrom, cost, openSet, norm, fromIdx, toIdx, bestIdx, bestScore, positive)
    requires VisitedIn(cameFrom, cur)
    requires 0 <= next < |nodes| && next in nodes[cur].neighbours && newCost < cost[next]
    requires positive ==> cost[cur] < newCost
    requires var h := Heuristic(nodes, norm, next, toIdx);
             if h < bestScore then bestIdx' == next && bestScore' == h else bestIdx' == bestIdx && bestScore' == bestScore
    ensures SearchIn(nodes, cameFrom[next := cur], cost[next := newCost],
                     openSet + multiset{NodeAndScore(next, newCost + Heuristic(nodes, norm, next, toIdx))},
                     norm, fromIdx, toIdx, bestIdx', bestScore', positive)
  {
    TreeUpdate(nodes, cameFrom, cost, fromIdx, positive, cur, next, newCost);
    var cf := cameFrom[next := cur];
    var os := openSet + multiset{NodeAndScore(next, newCost + Heuristic(nodes, norm, next, toIdx))};
    assert forall v :: VisitedIn(cf, v) <==> VisitedIn(cameFrom, v) || v == next;
    if VisitedIn(cf, toIdx) {
      if toIdx == next {
        assert NodeAndScore(next, newCost + Heuristic(nodes, norm, next, toIdx)) in os;
      } else {
        var e :| e in openSet && e.idx == toIdx;
        assert e in os;
      }
    }
  }

  /** Popping an entry for a node other than the goal keeps the open-set part of the
      invariant. */
  lemma PopKeepsOpen(cameFrom: seq<int>, openSet: multiset<NodeAndScore>, cur: NodeAndScore, toIdx: int)
    requires OpenIn(cameFrom, openSet, toIdx) && cur in openSet && cur.idx != toIdx
    ensures OpenIn(cameFrom, openSet - multiset{cur}, toIdx)
  {
    if VisitedIn(cameFrom, toIdx) {
      var e :| e in openSet && e.idx == toIdx;
      assert e in openSet - multiset{cur};
    }
  }

  /** The state the neighbour loop of `solve` works on: `came_from`, `cost`, the open set and
      the fallback candidate with its score. */
  datatype Scratch = Scratch(cameFrom: seq<int>, cost: seq<real>, openSet: multiset<NodeAndScore>,
                             bestIdx: int, bestScore: real)

  /** The relaxation of the edge from `cur` to `next` (the body of the neighbour loop). */
  function RelaxedEdge(nodes: seq<NavNode>, norm: Vec3 -> real, costFn: (NavNode, NavNode) -> real,
                       cur: int, next: int, toIdx: int, s: Scratch): (r: Scratch)
    requires 0 <= cur < |nodes| && 0 <= next < |nodes| && 0 <= toIdx < |nodes|
    requires |s.cameFrom| == |nodes| && |s.cost| == |nodes|
    ensures |r.cameFrom| == |nodes| && |r.cost| == |nodes|
  {
    var newCost := s.cost[cur] + costFn(nodes[cur], nodes[next]);
    if newCost < s.cost[next] then
      var h := Heuristic(nodes, norm, next, toIdx);
      Scratch(s.cameFrom[next := cur], s.cost[next := newCost], s.openSet + multiset{NodeAndScore(next, newCost + h)},
              if h < s.bestScore then next else s.bestIdx, if h < s.bestScore then h else s.bestScore)
    else
      s
  }

  /** What one relaxation does: only `next` can change, and only when the cost through `cur`
      is strictly lower; it then comes from `cur`, takes that cost, is pushed with f = g + h,
      and becomes the fallback candidate when its heuristic beats the best so far. Either way
      `next` ends up costing at most the cost through `cur`. */
  lemma RelaxedEdgeFacts(nodes: seq<NavNode>, norm: Vec3 -> real, costFn: (NavNode, NavNode) -> real,
                         cur: int, next: int, toIdx: int, s: Scratch)
    requires 0 <= cur < |nodes| && 0 <= next < |nodes| && 0 <= toIdx < |nodes|
    requires |s.cameFrom| == |nodes| && |s.cost| == |nodes|
    ensures var r := RelaxedEdge(nodes, norm, costFn, cur, next, toIdx, s);
            && s.openSet <= r.openSet
            && (forall v :: 0 <= v < |nodes| && v != next ==> r.cameFrom[v] == s.cameFrom[v] && r.cost[v] == s.cost[v])
            && r.cost[next] <= s.cost[next] && r.cost[next] <= s.cost[cur] + costFn(nodes[cur], nodes[next])
            && (r.cost[next] < s.cost[next] <==> s.cost[cur] + costFn(nodes[cur], nodes[next]) < s.cost[next])
            && (r.cost[next] < s.cost[next] ==>
                  r.cameFrom[next] == cur && NodeAndScore(next, r.cost[next] + Heuristic(nodes, norm, next, toIdx)) in r.openSet)
            && (r.cost[next] == s.cost[next] ==> r == s)
            && (if r.cost[next] < s.cost[next] && Heuristic(nodes, norm, next, toIdx) < s.bestScore
                then r.bestIdx == next && r.bestScore == Heuristic(nodes, norm, next, toIdx)
                else r.bestIdx == s.bestIdx && r.bestScore == s.bestScore)
  {
  }

  /** The whole neighbour loop for `cur`: `RelaxedEdge` for each index of `nbrs` in order. */
  function RelaxedAll(nodes: seq<NavNode>, norm: Vec3 -> real, costFn: (NavNode, NavNode) -> real,
                      cur: int, nbrs: seq<int>, toIdx: int, s: Scratch): (r: Scratch)
    requires 0 <= cur < |nodes| && 0 <= toIdx < |nodes| && IndicesBelow(nbrs, |nodes|)
    requires |s.cameFrom| == |nodes| && |s.cost| == |nodes|
    ensures |r.cameFrom| == |nodes| && |r.cost| == |nodes|
    decreases |nbrs|
  {
    if |nbrs| == 0 then s
    else RelaxedEdge(nodes, norm, costFn, cur, nbrs[|nbrs| - 1], toIdx, RelaxedAll(nodes, norm, costFn, cur, nbrs[..|nbrs| - 1], toIdx, s))
  }

  /** How relaxations from `cur` take `s` to `r`: costs only fall, the open set only grows, a
      node whose cost fell comes from `cur` and has an open entry at its new cost, and a node
      whose cost did not fall keeps its `came_from`. */
  ghost predicate Lowered(nodes: seq<NavNode>, norm: Vec3 -> real, cur: int, toIdx: int, s: Scratch, r: Scratch)
    requires 0 <= toIdx < |nodes| && |s.cameFrom| == |nodes| && |s.cost| == |nodes|
    requires |r.cameFrom| == |nodes| && |r.cost| == |nodes|
  {
    s.openSet <= r.openSet
    && forall v :: 0 <= v < |nodes| ==>
         && r.cost[v] <= s.cost[v]
         && (r.cost[v] == s.cost[v] ==> r.cameFrom[v] == s.cameFrom[v])
         && (r.cost[v] < s.cost[v] ==>
               r.cameFrom[v] == cur && NodeAndScore(v, r.cost[v] + Heuristic(nodes, norm, v, toIdx)) in r.openSet)
  }

  /** The neighbour loop lowers the state as `Lowered` says, and afterwards every neighbour
      costs at most the cost through `cur`. */
  lemma {:induction false} RelaxedAllFacts(nodes: seq<NavNode>, norm: Vec3 -> real, costFn: (NavNode, NavNode) -> real,
                                           cur: int, nbrs: seq<int>, toIdx: int, s: Scratch)
    requires 0 <= cur < |nodes| && 0 <= toIdx < |nodes| && IndicesBelow(nbrs, |nodes|)
    requires |s.cameFrom| == |nodes| && |s.cost| == |nodes|
    ensures var r := RelaxedAll(nodes, norm, costFn, cur, nbrs, toIdx, s);
            && Lowered(nodes, norm, cur, toIdx, s, r)
            && forall k :: 0 <= k < |nbrs| ==> r.cost[nbrs[k]] <= s.cost[cur] + costFn(nodes[cur], nodes[nbrs[k]])
    decreases |nbrs|
  {
    if |nbrs| > 0 {
      var pre := nbrs[..|nbrs| - 1];
      var next := nbrs[|nbrs| - 1];
      RelaxedAllFacts(nodes, norm, costFn, cur, pre, toIdx, s);
      var t := RelaxedAll(nodes, norm, costFn, cur, pre, toIdx, s);
      var r := RelaxedEdge(nodes, norm, costFn, cur, next, toIdx, t);
      EdgeLowers(nodes, norm, costFn, cur, next, toIdx, s, t);
      RelaxedEdgeFacts(nodes, norm, costFn, cur, next, toIdx, t);
      assert forall k :: 0 <= k < |pre| ==> pre[k] == nbrs[k];
      BoundStep(nodes, costFn, cur, nbrs, s, t, r);
    }
  }

  /** The neighbour bound of `RelaxedAllFacts` carried over one more edge: the earlier
      neighbours keep their bound because costs only fall, and the new one gets it from the
      relaxation through `cur`, whose own cost has only fallen. */
  lemma BoundStep(nodes: seq<NavNode>, costFn: (NavNode, NavNode) -> real, cur: int, nbrs: seq<int>,
                  s: Scratch, t: Scratch, r: Scratch)
    requires 0 <= cur < |nodes| && IndicesBelow(nbrs, |nodes|) && |nbrs| > 0
    requires |s.cost| == |nodes| && |t.cost| == |nodes| && |r.cost| == |nodes|
    requires forall k :: 0 <= k < |nbrs| - 1 ==> t.cost[nbrs[k]] <= s.cost[cur] + costFn(nodes[cur], nodes[nbrs[k]])
    requires forall v :: 0 <= v < |nodes| ==> r.cost[v] <= t.cost[v]
    requires t.cost[cur] <= s.cost[cur]
    requires r.cost[nbrs[|nbrs| - 1]] <= t.cost[cur] + costFn(nodes[cur], nodes[nbrs[|nbrs| - 1]])
    ensures forall k :: 0 <= k < |nbrs| ==> r.cost[nbrs[k]] <= s.cost[cur] + costFn(nodes[cur], nodes[nbrs[k]])
  {
  }

  /** One more edge keeps `Lowered` from the state before the loop. */
  lemma EdgeLowers(nodes: seq<NavNode>, norm: Vec3 -> real, costFn: (NavNode, NavNode) -> real,
                   cur: int, next: int, toIdx: int, s: Scratch, t: Scratch)
    requires 0 <= cur < |nodes| && 0 <= next < |nodes| && 0 <= toIdx < |nodes|
    requires |s.cameFrom| == |nodes| && |s.cost| == |nodes| && |t.cameFrom| == |nodes| && |t.cost| == |nodes|
    requires Lowered(nodes, norm, cur, toIdx, s, t)
    ensures Lowered(nodes, norm, cur, toIdx, s, RelaxedEdge(nodes, norm, costFn, cur, next, toIdx, t))
    ensures forall v :: 0 <= v < |nodes| ==> RelaxedEdge(nodes, norm, costFn, cur, next, toIdx, t).cost[v] <= t.cost[v]
  {
    var r := RelaxedEdge(nodes, norm, costFn, cur, next, toIdx, t);
    RelaxedEdgeFacts(nodes, norm, costFn, cur, next, toIdx, t);
    forall v | 0 <= v < |nodes|
      ensures && r.cost[v] <= s.cost[v]
              && (r.cost[v] == s.cost[v] ==> r.cameFrom[v] == s.cameFrom[v])
              && (r.cost[v] < s.cost[v] ==>
                    r.cameFrom[v] == cur && NodeAndScore(v, r.cost[v] + Heuristic(nodes, norm, v, toIdx)) in r.openSet)
    {
      if v != next || r.cost[next] == t.cost[next] {
        assert r.cost[v] == t.cost[v] && r.cameFrom[v] == t.cameFrom[v];
      }
    }
  }

  /** One relaxation keeps the search invariant, and `cur` stays visited. */
  lemma RelaxedEdgeKeepsSearch(nodes: seq<NavNode>, norm: Vec3 -> real, costFn: (NavNode, NavNode) -> real,
                               cur: int, next: int, fromIdx: int, toIdx: int, s: Scratch, positive: bool)
    requires SearchIn(nodes, s.cameFrom, s.cost, s.openSet, norm, fromIdx, toIdx, s.bestIdx, s.bestScore, positive)
    requires VisitedIn(s.cameFrom, cur) && 0 <= next < |nodes| && next in nodes[cur].neighbours
    requires positive ==> PositiveCosts(costFn)
    ensures var r := RelaxedEdge(nodes, norm, costFn, cur, next, toIdx, s);
            SearchIn(nodes, r.cameFrom, r.cost, r.openSet, norm, fromIdx, toIdx, r.bestIdx, r.bestScore, positive)
            && VisitedIn(r.cameFrom, cur)
  {
    var r := RelaxedEdge(nodes, norm, costFn, cur, next, toIdx, s);
    var newCost := s.cost[cur] + costFn(nodes[cur], nodes[next]);
    if newCost < s.cost[next] {
      SearchUpdate(nodes, s.cameFrom, s.cost, s.openSet, norm, fromIdx, toIdx, s.bestIdx, s.bestScore, positive,
                   cur, next, newCost, r.bestIdx, r.bestScore);
    }
  }

  /** The whole neighbour loop keeps the search invariant. */
  lemma {:induction false} RelaxedAllKeepsSearch(nodes: seq<NavNode>, norm: Vec3 -> real, costFn: (NavNode, NavNode) -> real,
                                                 cur: int, nbrs: seq<int>, fromIdx: int, toIdx: int, s: Scratch, positive: bool)
    requires SearchIn(nodes, s.cameFrom, s.cost, s.openSet, norm, fromIdx, toIdx, s.bestIdx, s.bestScore, positive)
    requires VisitedIn(s.cameFrom, cur) && IndicesBelow(nbrs, |nodes|)
    requires forall k :: 0 <= k < |nbrs| ==> nbrs[k] in nodes[cur].neighbours
    requires positive ==> PositiveCosts(costFn)
    ensures var r := RelaxedAll(nodes, norm, costFn, cur, nbrs, toIdx, s);
            SearchIn(nodes, r.cameFrom, r.cost, r.openSet, norm, fromIdx, toIdx, r.bestIdx, r.bestScore, positive)
            && VisitedIn(r.cameFrom, cur)
    decreases |nbrs|
  {
    if |nbrs| > 0 {
      var pre := nbrs[..|nbrs| - 1];
      assert forall k :: 0 <= k < |pre| ==> pre[k] == nbrs[k];
      RelaxedAllKeepsSearch(nodes, norm, costFn, cur, pre, fromIdx, toIdx, s, positive);
      RelaxedEdgeKeepsSearch(nodes, norm, costFn, cur, nbrs[|nbrs| - 1], fromIdx, toIdx,
                             RelaxedAll(nodes, norm, costFn, cur, pre, toIdx, s), positive);
    }
  }

  /** One neighbour `next` of the popped node `cur`: the state after `RelaxedEdge`. */
  method RelaxEdge(nodes: seq<NavNode>, norm: Vec3 -> real, costFn: (NavNode, NavNode) -> real,
                   cameFrom: seq<int>, cost: seq<real>, openSet: multiset<NodeAndScore>, cur: int, next: int,
                   toIdx: int, bestIdx: int, bestScore: real)
    returns (cameFrom': seq<int>, cost': seq<real>, openSet': multiset<NodeAndScore>, bestIdx': int, bestScore': real)
    requires 0 <= cur < |nodes| && 0 <= next < |nodes| && 0 <= toIdx < |nodes|
    requires |cameFrom| == |nodes| && |cost| == |nodes|
    ensures Scratch(cameFrom', cost', openSet', bestIdx', bestScore')
            == RelaxedEdge(nodes, norm, costFn, cur, next, toIdx, Scratch(cameFrom, cost, openSet, bestIdx, bestScore))
  {
    cameFrom', cost', openSet', bestIdx', bestScore' := cameFrom, cost, openSet, bestIdx, bestScore;
    var newCost := cost[cur] + costFn(nodes[cur], nodes[next]);
    if newCost < cost[next] {
      var newHeuristic := Heuristic(nodes, norm, next, toIdx);
      if newHeuristic < bestScore {
        bestScore', bestIdx' := newHeuristic, next;
      }
      cameFrom' := cameFrom[next := cur];
      cost' := cost[next := newCost];
      openSet' := openSet + multiset{NodeAndScore(next, newCost + newHeuristic)};
    }
  }

  /** The neighbour loop of `solve` for the popped node `cur`: `RelaxEdge` for each neighbour
      in order, which is `RelaxedAll` over the neighbour list and so keeps the search
      invariant; an out-of-range neighbour index panics. */
  method RelaxNeighbours(nodes: seq<NavNode>, norm: Vec3 -> real, costFn: (NavNode, NavNode) -> real,
                         cameFrom: seq<int>, cost: seq<real>, openSet: multiset<NodeAndScore>, cur: int,
                         fromIdx: int, toIdx: int, bestIdx0: int, bestScore0: real, ghost positive: bool)
    returns (panicked: bool, cf: seq<int>, cs: seq<real>, os: multiset<NodeAndScore>, bestIdx: int, bestScore: real)
    requires SearchIn(nodes, cameFrom, cost, openSet, norm, fromIdx, toIdx, bestIdx0, bestScore0, positive) && VisitedIn(cameFrom, cur)
    requires positive ==> PositiveCosts(costFn)
    ensures |cf| == |nodes| && |cs| == |nodes|
    ensures panicked <==> !IndicesBelow(nodes[cur].neighbours, |nodes|)
    ensures !panicked ==> SearchIn(nodes, cf, cs, os, norm, fromIdx, toIdx, bestIdx, bestScore, positive)
    ensures !panicked ==> Scratch(cf, cs, os, bestIdx, bestScore)
                          == RelaxedAll(nodes, norm, costFn, cur, nodes[cur].neighbours, toIdx,
                                        Scratch(cameFrom, cost, openSet, bestIdx0, bestScore0))
  {
    ghost var s0 := Scratch(cameFrom, cost, openSet, bestIdx0, bestScore0);
    bestIdx, bestScore := bestIdx0, bestScore0;
    cf, cs, os := cameFrom, cost, openSet;
    var nbrs := nodes[cur].neighbours;
    var i := 0;
    panicked := false;
    while i < |nbrs|
      invariant 0 <= i <= |nbrs|
      invariant IndicesBelow(nbrs[..i], |nodes|)
      invariant Scratch(cf, cs, os, bestIdx, bestScore) == RelaxedAll(nodes, norm, costFn, cur, nbrs[..i], toIdx, s0)
    {
      var next := nbrs[i];
      if !(0 <= next < |nodes|) {
        IndicesBelowFails(nbrs, i, |nodes|);
        return true, cf, cs, os, bestIdx, bestScore;
      }
      RelaxedAllStep(nodes, norm, costFn, cur, nbrs, i, toIdx, s0);
      cf, cs, os, bestIdx, bestScore := RelaxEdge(nodes, norm, costFn, cf, cs, os, cur, next, toIdx, bestIdx, bestScore);
      i := i + 1;
    }
    assert nbrs[..i] == nbrs;
    RelaxedAllKeepsSearch(nodes, norm, costFn, cur, nbrs, fromIdx, toIdx, s0, positive);
  }

  // ---------------------------------------------------------------------------
  // What an exhausted search has settled

  /** `v` has been expanded: its neighbours are in range, and none of them would get cheaper
      through `v`. */
  ghost predicate Expanded(nodes: seq<NavNode>, costFn: (NavNode, NavNode) -> real, cost: seq<real>, v: int)
    requires |cost| == |nodes| && 0 <= v < |nodes|
  {
    IndicesBelow(nodes[v].neighbours, |nodes|)
    && forall k :: 0 <= k < |nodes[v].neighbours| ==>
         cost[nodes[v].neighbours[k]] <= cost[v] + costFn(nodes[v], nodes[nodes[v].neighbours[k]])
  }

  /** The open set has an entry for `v`. */
  ghost predicate HasEntry(openSet: multiset<NodeAndScore>, v: int)
  {
    exists e :: e in openSet && e.idx == v
  }

  /** Every visited node is either still open or expanded. */
  ghost predicate ClosedIn(nodes: seq<NavNode>, costFn: (NavNode, NavNode) -> real, cameFrom: seq<int>, cost: seq<real>,
                           openSet: multiset<NodeAndScore>)
    requires |cameFrom| == |nodes| && |cost| == |nodes|
  {
    forall v :: VisitedIn(cameFrom, v) ==> HasEntry(openSet, v) || Expanded(nodes, costFn, cost, v)
  }

  /** Every node not yet visited still has the cost of 1e6 that the reset gave it. */
  ghost predicate UnreachedIn(nodes: seq<NavNode>, cameFrom: seq<int>, cost: seq<real>)
    requires |cameFrom| == |nodes| && |cost| == |nodes|
  {
    forall v :: 0 <= v < |nodes| && !VisitedIn(cameFrom, v) ==> cost[v] == 1000000.0
  }

  /** Popping `cur` and relaxing its neighbours keeps `ClosedIn` and `UnreachedIn`: `cur`
      itself is now expanded unless its own cost fell, a node whose cost fell is pushed
      again, and any other node keeps its entry or stays expanded because its neighbours
      only got cheaper. */
  lemma RelaxKeepsClosed(nodes: seq<NavNode>, norm: Vec3 -> real, costFn: (NavNode, NavNode) -> real,
                         cameFrom: seq<int>, cost: seq<real>, openSet: multiset<NodeAndScore>, cur: NodeAndScore,
                         toIdx: int, bestIdx: int, bestScore: real)
    requires |cameFrom| == |nodes| && |cost| == |nodes| && 0 <= toIdx < |nodes|
    requires ClosedIn(nodes, costFn, cameFrom, cost, openSet) && UnreachedIn(nodes, cameFrom, cost)
    requires cur in openSet && VisitedIn(cameFrom, cur.idx) && IndicesBelow(nodes[cur.idx].neighbours, |nodes|)
    ensures var r := RelaxedAll(nodes, norm, costFn, cur.idx, nodes[cur.idx].neighbours, toIdx,
                                Scratch(cameFrom, cost, openSet - multiset{cur}, bestIdx, bestScore));
            ClosedIn(nodes, costFn, r.cameFrom, r.cost, r.openSet) && UnreachedIn(nodes, r.cameFrom, r.cost)
  {
    var s := Scratch(cameFrom, cost, openSet - multiset{cur}, bestIdx, bestScore);
    var r := RelaxedAll(nodes, norm, costFn, cur.idx, nodes[cur.idx].neighbours, toIdx, s);
    RelaxedAllFacts(nodes, norm, costFn, cur.idx, nodes[cur.idx].neighbours, toIdx, s);
    forall v | VisitedIn(r.cameFrom, v)
      ensures HasEntry(r.openSet, v) || Expanded(nodes, costFn, r.cost, v)
    {
      ClosedStep(nodes, norm, costFn, openSet, cur, toIdx, s, r, v);
    }
    forall v | 0 <= v < |nodes| && !VisitedIn(r.cameFrom, v)
      ensures r.cost[v] == 1000000.0
    {
      assert !VisitedIn(cameFrom, v);
    }
  }

  /** `RelaxKeepsClosed` for one node `v` visited after the relaxations. */
  lemma ClosedStep(nodes: seq<NavNode>, norm: Vec3 -> real, costFn: (NavNode, NavNode) -> real,
                   openSet: multiset<NodeAndScore>, cur: NodeAndScore, toIdx: int, s: Scratch, r: Scratch, v: int)
    requires |s.cameFrom| == |nodes| && |s.cost| == |nodes| && |r.cameFrom| == |nodes| && |r.cost| == |nodes|
    requires 0 <= toIdx < |nodes| && s.openSet == openSet - multiset{cur}
    requires ClosedIn(nodes, costFn, s.cameFrom, s.cost, openSet)
    requires 0 <= cur.idx < |nodes| && IndicesBelow(nodes[cur.idx].neighbours, |nodes|)
    requires Lowered(nodes, norm, cur.idx, toIdx, s, r)
    requires forall k :: 0 <= k < |nodes[cur.idx].neighbours| ==>
               r.cost[nodes[cur.idx].neighbours[k]] <= s.cost[cur.idx] + costFn(nodes[cur.idx], nodes[nodes[cur.idx].neighbours[k]])
    requires VisitedIn(r.cameFrom, v)
    ensures HasEntry(r.openSet, v) || Expanded(nodes, costFn, r.cost, v)
  {
    if r.cost[v] < s.cost[v] {
      assert NodeAndScore(v, r.cost[v] + Heuristic(nodes, norm, v, toIdx)) in r.openSet;
    } else if v == cur.idx {
      assert Expanded(nodes, costFn, r.cost, v);
    } else {
      assert VisitedIn(s.cameFrom, v);
      if HasEntry(openSet, v) {
        var e :| e in openSet && e.idx == v;
        assert e in s.openSet;
      } else {
        var vn := nodes[v].neighbours;
        forall k | 0 <= k < |vn|
          ensures r.cost[vn[k]] <= r.cost[v] + costFn(nodes[v], nodes[vn[k]])
        {
          assert s.cost[vn[k]] <= s.cost[v] + costFn(nodes[v], nodes[vn[k]]);
        }
      }
    }
  }

  /** An index path from the start along neighbour links. */
  ghost predicate IsPathFrom(nodes: seq<NavNode>, p: seq<int>, fromIdx: int)
  {
    |p| > 0 && p[0] == fromIdx && IndicesBelow(p, |nodes|)
    && forall i :: 0 <= i < |p| - 1 ==> p[i + 1] in nodes[p[i]].neighbours
  }

  /** The sum of `cost_fn` along the edges of `p`. */
  function PathCost(nodes: seq<NavNode>, costFn: (NavNode, NavNode) -> real, p: seq<int>): real
    requires IndicesBelow(p, |nodes|)
    decreases |p|
  {
    if |p| <= 1 then 0.0
    else PathCost(nodes, costFn, p[..|p| - 1]) + costFn(nodes[p[|p| - 2]], nodes[p[|p| - 1]])
  }

  /** A path from the start every prefix of which, added to `base`, stays below the 1e6 that
      unreached nodes cost. */
  ghost predicate CheapPathIn(nodes: seq<NavNode>, costFn: (NavNode, NavNode) -> real, p: seq<int>, fromIdx: int, base: real)
  {
    IsPathFrom(nodes, p, fromIdx)
    && forall j :: 1 <= j <= |p| ==> base + PathCost(nodes, costFn, p[..j]) < 1000000.0
  }

  /** Once every visited node is expanded, the search has reached every node along a cheap
      path from the start, at a cost no higher than the start's cost plus the path's. */
  lemma {:induction false} ExhaustedReachesAlong(nodes: seq<NavNode>, costFn: (NavNode, NavNode) -> real,
                                                 cameFrom: seq<int>, cost: seq<real>, fromIdx: int, p: seq<int>, j: int)
    requires |cameFrom| == |nodes| && |cost| == |nodes| && VisitedIn(cameFrom, fromIdx)
    requires forall v :: VisitedIn(cameFrom, v) ==> Expanded(nodes, costFn, cost, v)
    requires UnreachedIn(nodes, cameFrom, cost)
    requires CheapPathIn(nodes, costFn, p, fromIdx, cost[fromIdx]) && 1 <= j <= |p|
    ensures VisitedIn(cameFrom, p[j - 1]) && cost[p[j - 1]] <= cost[fromIdx] + PathCost(nodes, costFn, p[..j])
    decreases j
  {
    if j > 1 {
      ExhaustedReachesAlong(nodes, costFn, cameFrom, cost, fromIdx, p, j - 1);
      var u, w := p[j - 2], p[j - 1];
      assert p[..j][..j - 1] == p[..j - 1];
      assert PathCost(nodes, costFn, p[..j]) == PathCost(nodes, costFn, p[..j - 1]) + costFn(nodes[u], nodes[w]);
      assert Expanded(nodes, costFn, cost, u);
      var k :| 0 <= k < |nodes[u].neighbours| && nodes[u].neighbours[k] == w;
      assert cost[w] <= cost[u] + costFn(nodes[u], nodes[w]);
    }
  }

  /** In a reset search no cheap path from the start reaches a node the search left
      unvisited; in particular, when it gives up on the goal, every path to the goal costs at
      least 1e6 beyond the start's cost at some prefix. */
  lemma ExhaustedMissesOnlyDear(nodes: seq<NavNode>, costFn: (NavNode, NavNode) -> real,
                                cameFrom: seq<int>, cost: seq<real>, fromIdx: int, toIdx: int)
    requires |cameFrom| == |nodes| && |cost| == |nodes| && VisitedIn(cameFrom, fromIdx)
    requires forall v :: VisitedIn(cameFrom, v) ==> Expanded(nodes, costFn, cost, v)
    requires UnreachedIn(nodes, cameFrom, cost) && !VisitedIn(cameFrom, toIdx)
    ensures forall p :: CheapPathIn(nodes, costFn, p, fromIdx, cost[fromIdx]) ==> p[|p| - 1] != toIdx
  {
    forall p | CheapPathIn(nodes, costFn, p, fromIdx, cost[fromIdx])
      ensures p[|p| - 1] != toIdx
    {
      ExhaustedReachesAlong(nodes, costFn, cameFrom, cost, fromIdx, p, |p|);
    }
  }

  /** `RelaxedAll` over one more neighbour is one more `RelaxedEdge`. */
  lemma RelaxedAllStep(nodes: seq<NavNode>, norm: Vec3 -> real, costFn: (NavNode, NavNode) -> real,
                       cur: int, nbrs: seq<int>, i: int, toIdx: int, s: Scratch)
    requires 0 <= cur < |nodes| && 0 <= toIdx < |nodes| && 0 <= i < |nbrs|
    requires IndicesBelow(nbrs[..i], |nodes|) && 0 <= nbrs[i] < |nodes|
    requires |s.cameFrom| == |nodes| && |s.cost| == |nodes|
    ensures IndicesBelow(nbrs[..i + 1], |nodes|)
    ensures RelaxedAll(nodes, norm, costFn, cur, nbrs[..i + 1], toIdx, s)
            == RelaxedEdge(nodes, norm, costFn, cur, nbrs[i], toIdx, RelaxedAll(nodes, norm, costFn, cur, nbrs[..i], toIdx, s))
  {
    assert forall k :: 0 <= k < i ==> nbrs[..i][k] == nbrs[k];
    assert nbrs[..i + 1][..i] == nbrs[..i];
    assert nbrs[..i + 1][i] == nbrs[i];
  }

  lemma IndicesBelowFails(s: seq<int>, i: int, n: int)
    requires 0 <= i < |s| && !(0 <= s[i] < n)
    ensures !IndicesBelow(s, n)
  {
  }

  /** The state `solve` seeds the open-set loop with: only the start is visited, coming
      from itself at cost `heuristic(from, from)`, every other node is unvisited at 1e6, the
      start is the only open entry, and no fallback candidate is chosen yet. */
  function Seeded(nodes: seq<NavNode>, norm: Vec3 -> real, fromIdx: int, toIdx: int): (s: Scratch)
    requires 0 <= fromIdx < |nodes| && 0 <= toIdx < |nodes|
    ensures |s.cameFrom| == |nodes| && |s.cost| == |nodes|
    ensures s.openSet == multiset{NodeAndScore(fromIdx, Heuristic(nodes, norm, fromIdx, fromIdx))}
    ensures forall v :: 0 <= v < |nodes| ==>
              s.cameFrom[v] == (if v == fromIdx then fromIdx else -1)
              && s.cost[v] == (if v == fromIdx then Heuristic(nodes, norm, fromIdx, fromIdx) else 1000000.0)
  {
    var h := Heuristic(nodes, norm, fromIdx, fromIdx);
    Scratch(seq(|nodes|, v => if v == fromIdx then fromIdx else -1),
            seq(|nodes|, v => if v == fromIdx then h else 1000000.0),
            multiset{NodeAndScore(fromIdx, h)}, -1, Heuristic(nodes, norm, fromIdx, toIdx))
  }

  /** One turn of the open-set loop that does not end it: `cur` is a lowest-f entry of `s`,
      it is not the goal and its neighbours are in range, and `t` is `s` with `cur` popped
      and its neighbours relaxed. */
  ghost predicate PopRelaxes(nodes: seq<NavNode>, norm: Vec3 -> real, costFn: (NavNode, NavNode) -> real,
                             toIdx: int, s: Scratch, cur: NodeAndScore, t: Scratch)
  {
    0 <= toIdx < |nodes| && |s.cameFrom| == |nodes| && |s.cost| == |nodes|
    && IsHeapMax(cur, s.openSet) && 0 <= cur.idx < |nodes| && cur.idx != toIdx
    && IndicesBelow(nodes[cur.idx].neighbours, |nodes|)
    && t == RelaxedAll(nodes, norm, costFn, cur.idx, nodes[cur.idx].neighbours, toIdx,
                       s.(openSet := s.openSet - multiset{cur}))
  }

  /** A run of the open-set loop: `trace[i + 1]` follows from `trace[i]` by the turn that
      pops `popped[i]`. */
  ghost predicate IsRun(nodes: seq<NavNode>, norm: Vec3 -> real, costFn: (NavNode, NavNode) -> real,
                        toIdx: int, trace: seq<Scratch>, popped: seq<NodeAndScore>)
  {
    |trace| == |popped| + 1
    && forall i {:trigger popped[i]} :: 0 <= i < |popped| ==> PopRelaxes(nodes, norm, costFn, toIdx, trace[i], popped[i], trace[i + 1])
  }

  /** A run followed by one more turn is a run one turn longer, with the same start. */
  lemma RunExtends(nodes: seq<NavNode>, norm: Vec3 -> real, costFn: (NavNode, NavNode) -> real,
                   toIdx: int, trace: seq<Scratch>, popped: seq<NodeAndScore>, cur: NodeAndScore, t: Scratch)
    requires IsRun(nodes, norm, costFn, toIdx, trace, popped)
    requires PopRelaxes(nodes, norm, costFn, toIdx, trace[|trace| - 1], cur, t)
    ensures IsRun(nodes, norm, costFn, toIdx, trace + [t], popped + [cur])
    ensures (trace + [t])[0] == trace[0] && (trace + [t])[|trace|] == t
  {
    var trace', popped' := trace + [t], popped + [cur];
    forall i | 0 <= i < |popped'|
      ensures PopRelaxes(nodes, norm, costFn, toIdx, trace'[i], popped'[i], trace'[i + 1])
    {
      if i < |popped| {
        assert trace'[i] == trace[i] && trace'[i + 1] == trace[i + 1] && popped'[i] == popped[i];
      } else {
        assert trace'[i] == trace[|trace| - 1] && trace'[i + 1] == t && popped'[i] == cur;
      }
    }
  }

  /** Along a run costs only fall: the state after `j` turns costs each node at most what the
      first state did. */
  lemma {:induction false} RunCostsFall(nodes: seq<NavNode>, norm: Vec3 -> real, costFn: (NavNode, NavNode) -> real,
                                        toIdx: int, trace: seq<Scratch>, popped: seq<NodeAndScore>, j: int)
    requires IsRun(nodes, norm, costFn, toIdx, trace, popped) && 0 <= j < |trace|
    requires |trace[0].cameFrom| == |nodes| && |trace[0].cost| == |nodes|
    ensures |trace[j].cameFrom| == |nodes| && |trace[j].cost| == |nodes|
    ensures forall v :: 0 <= v < |nodes| ==> trace[j].cost[v] <= trace[0].cost[v]
    decreases j
  {
    if j > 0 {
      RunCostsFall(nodes, norm, costFn, toIdx, trace, popped, j - 1);
      var s, cur := trace[j - 1], popped[j - 1];
      assert PopRelaxes(nodes, norm, costFn, toIdx, s, cur, trace[j]);
      RelaxedAllFacts(nodes, norm, costFn, cur.idx, nodes[cur.idx].neighbours, toIdx, s.(openSet := s.openSet - multiset{cur}));
    }
  }

  /** A reconstructed walk: each element is the `came_from` of the one before and a
      neighbour of it, the walk ends at the start and does not pass it earlier. */
  ghost predicate IsChainIn(nodes: seq<NavNode>, cameFrom: seq<int>, chain: seq<int>, fromIdx: int)
  {
    |chain| >= 2
    && (forall i :: 0 <= i < |chain| ==> 0 <= chain[i] < |nodes| && 0 <= chain[i] < |cameFrom|)
    && (forall i :: 0 <= i < |chain| - 1 ==> chain[i + 1] == cameFrom[chain[i]] && LinkIn(nodes, chain[i], chain[i + 1], fromIdx))
    && chain[|chain| - 1] == fromIdx
    && (forall i :: 0 < i < |chain| - 1 ==> chain[i] != fromIdx)
  }

  /** The walk so far: `chain` starts at `start`, follows `came_from` links, avoids the
      start node after its first element, and `path` holds `first` and then the positions
      of the chain; with positive costs the costs strictly decrease along it. */
  ghost predicate WalkIn(nodes: seq<NavNode>, cameFrom: seq<int>, cost: seq<real>, chain: seq<int>, path: seq<Vec3>, start: int, first: Vec3, fromIdx: int, positive: bool)
  {
    |cameFrom| == |nodes| && |cost| == |nodes| && |chain| >= 1 && |path| == |chain| && chain[0] == start && path[0] == first
    && (forall i :: 0 <= i < |chain| ==> 0 <= chain[i] < |nodes| && 0 <= chain[i] < |cameFrom|)
    && (forall i :: 1 <= i < |chain| ==> path[i] == nodes[chain[i]].pos)
    && (forall i :: 0 <= i < |chain| - 1 ==> chain[i + 1] == cameFrom[chain[i]] && LinkIn(nodes, chain[i], chain[i + 1], fromIdx))
    && (forall i :: 0 < i < |chain| ==> chain[i] != fromIdx)
    && (positive ==> forall i, j :: 0 <= i < j < |chain| ==> cost[chain[j]] < cost[chain[i]])
  }

  /** One step of the walk: it either reaches the start, completing a chain, or extends
      the walk. */
  lemma WalkStep(nodes: seq<NavNode>, cameFrom: seq<int>, cost: seq<real>, chain: seq<int>, path: seq<Vec3>, start: int, first: Vec3, fromIdx: int, positive: bool)
    requires TreeIn(nodes, cameFrom, cost, fromIdx, positive)
    requires WalkIn(nodes, cameFrom, cost, chain, path, start, first, fromIdx, positive)
    requires VisitedIn(cameFrom, chain[|chain| - 1])
    ensures var next := cameFrom[chain[|chain| - 1]];
            0 <= next < |nodes| && VisitedIn(cameFrom, next)
            && (next == fromIdx ==> IsChainIn(nodes, cameFrom, chain + [next], fromIdx))
            && (next != fromIdx ==> WalkIn(nodes, cameFrom, cost, chain + [next], path + [nodes[next].pos], start, first, fromIdx, positive))
  {
    var cur := chain[|chain| - 1];
    assert StepIn(nodes, cameFrom, cost, cur, fromIdx, positive);
    var next := cameFrom[cur];
    if next == fromIdx {
      WalkCloses(nodes, cameFrom, cost, chain, path, start, first, fromIdx, positive);
    } else {
      WalkExtends(nodes, cameFrom, cost, chain, path, start, first, fromIdx, positive);
    }
  }

  lemma WalkCloses(nodes: seq<NavNode>, cameFrom: seq<int>, cost: seq<real>, chain: seq<int>, path: seq<Vec3>, start: int, first: Vec3, fromIdx: int, positive: bool)
    requires TreeIn(nodes, cameFrom, cost, fromIdx, positive)
    requires WalkIn(nodes, cameFrom, cost, chain, path, start, first, fromIdx, positive)
    requires VisitedIn(cameFrom, chain[|chain| - 1]) && cameFrom[chain[|chain| - 1]] == fromIdx
    ensures IsChainIn(nodes, cameFrom, chain + [fromIdx], fromIdx)
  {
    var cur := chain[|chain| - 1];
    assert StepIn(nodes, cameFrom, cost, cur, fromIdx, positive);
    var c' := chain + [fromIdx];
    forall i | 0 <= i < |c'| - 1
      ensures c'[i + 1] == cameFrom[c'[i]] && LinkIn(nodes, c'[i], c'[i + 1], fromIdx)
    {
      if i < |chain| - 1 {
        assert c'[i] == chain[i] && c'[i + 1] == chain[i + 1];
      } else {
        assert c'[i] == cur && c'[i + 1] == fromIdx;
      }
    }
  }

  lemma WalkExtends(nodes: seq<NavNode>, cameFrom: seq<int>, cost: seq<real>, chain: seq<int>, path: seq<Vec3>, start: int, first: Vec3, fromIdx: int, positive: bool)
    requires TreeIn(nodes, cameFrom, cost, fromIdx, positive)
    requires WalkIn(nodes, cameFrom, cost, chain, path, start, first, fromIdx, positive)
    requires VisitedIn(cameFrom, chain[|chain| - 1]) && cameFrom[chain[|chain| - 1]] != fromIdx
    ensures WalkIn(nodes, cameFrom, cost, chain + [cameFrom[chain[|chain| - 1]]], path + [nodes[cameFrom[chain[|chain| - 1]]].pos],
                    start, first, fromIdx, positive)
  {
    var cur := chain[|chain| - 1];
    assert StepIn(nodes, cameFrom, cost, cur, fromIdx, positive);
    var next := cameFrom[cur];
    var c', p' := chain + [next], path + [nodes[next].pos];
    forall i | 0 <= i < |c'| - 1
      ensures c'[i + 1] == cameFrom[c'[i]] && LinkIn(nodes, c'[i], c'[i + 1], fromIdx)
    {
      if i < |chain| - 1 {
        assert c'[i] == chain[i] && c'[i + 1] == chain[i + 1];
      } else {
        assert c'[i] == cur && c'[i + 1] == next;
      }
    }
    forall i | 1 <= i < |c'|
      ensures p'[i] == nodes[c'[i]].pos
    {
      if i < |chain| {
        assert p'[i] == path[i] && c'[i] == chain[i];
      }
    }
    if positive {
      assert cur != fromIdx;
      forall i, j | 0 <= i < j < |c'|
        ensures cost[c'[j]] < cost[c'[i]]
      {
        if j < |chain| {
          assert c'[i] == chain[i] && c'[j] == chain[j];
        } else if i < |chain| - 1 {
          assert cost[chain[|chain| - 1]] < cost[chain[i]];
        }
      }
    }
  }

  class AStarContext {
    const nodes: seq<NavNode>
    var openSet: multiset<NodeAndScore>
    var cameFrom: seq<int>
    var cost: seq<real>

    ghost predicate Valid()
      reads this
    {
      |cameFrom| == |nodes| && |cost| == |nodes|
    }

    /** `AStarContext::new`: an empty open set, `came_from` all -1 and `cost` all 0. */
    constructor (nodes: seq<NavNode>)
      ensures this.nodes == nodes && Valid()
      ensures openSet == multiset{}
      ensures forall i :: 0 <= i < |nodes| ==> cameFrom[i] == -1 && cost[i] == 0.0
    {
      this.nodes := nodes;
      openSet := multiset{};
      cameFrom := seq(|nodes|, _ => -1);
      cost := seq(|nodes|, _ => 0.0);
    }

    /** `pos_to_idx`: the nearest node, or `None` exactly when there are no nodes. */
    method PosToIdx(norm: Vec3 -> real, p: Vec3) returns (r: Option<int>)
      ensures r.None? <==> |nodes| == 0
      ensures r.Some? ==> IsNearest(nodes, norm, p, r.value)
    {
      // `best_distance` starts at +infinity, modelled by `r == None`.
      r := None;
      var bestDistance := 0.0;
      var i := 0;
      while i < |nodes|
        invariant 0 <= i <= |nodes|
        invariant r.None? <==> i == 0
        invariant r.Some? ==> 0 <= r.value < i && bestDistance == Distance(nodes, norm, p, r.value)
        invariant r.Some? ==> forall j :: 0 <= j < i ==> bestDistance <= Distance(nodes, norm, p, j)
        invariant r.Some? ==> forall j :: 0 <= j < r.value ==> bestDistance < Distance(nodes, norm, p, j)
      {
        var distance := norm(Sub3(p, nodes[i].pos));
        if r.None? || distance < bestDistance {
          r := Some(i);
          bestDistance := distance;
        }
        i := i + 1;
      }
    }

    // -------------------------------------------------------------------------
    // The phases of `solve`

    /** The clearing at the start of `solve`: empty open set, `came_from` all -1, `cost` all 1e6. */
    method ResetScratch()
      requires Valid()
      modifies this
      ensures Valid()
      ensures openSet == multiset{}
      ensures forall i :: 0 <= i < |nodes| ==> cameFrom[i] == -1 && cost[i] == 1000000.0
    {
      openSet := multiset{};
      var i := 0;
      while i < |cameFrom|
        invariant 0 <= i <= |cameFrom|
        invariant Valid() && openSet == multiset{}
        invariant forall j :: 0 <= j < i ==> cameFrom[j] == -1 && cost[j] == 1000000.0
      {
        cameFrom := cameFrom[i := -1];
        cost := cost[i := 1000000.0];
        i := i + 1;
      }
    }

    /** The walk along `came_from` from `start` to the start node, pushing positions after
        `first`. It gives up after `|nodes|` steps (the source would loop forever); with
        positive costs it never does. */
    method Reconstruct(start: int, first: Vec3, fromIdx: int, ghost positive: bool)
      returns (r: SolveResult, ghost chain: seq<int>)
      requires TreeIn(nodes, cameFrom, cost, fromIdx, positive) && VisitedIn(cameFrom, start)
      ensures r.Path? || r == Hang
      ensures positive ==> r.Path?
      ensures cameFrom[start] == fromIdx ==> r.Path?
      ensures r.Path? ==> IsChainIn(nodes, cameFrom, chain, fromIdx) && chain[0] == start && |r.points| == |chain|
                          && r.points[0] == first
                          && forall i :: 1 <= i < |chain| ==> r.points[i] == nodes[chain[i]].pos
    {
      var path := [first];
      var cur := start;
      chain := [start];
      var k := 0;
      while k < |nodes|
        invariant 0 <= k <= |nodes|
        invariant |chain| == k + 1 && chain[k] == cur
        invariant VisitedIn(cameFrom, cur)
        invariant WalkIn(nodes, cameFrom, cost, chain, path, start, first, fromIdx, positive)
        invariant k > 0 ==> cameFrom[start] != fromIdx
      {
        WalkStep(nodes, cameFrom, cost, chain, path, start, first, fromIdx, positive);
        var next := cameFrom[cur];
        path := path + [nodes[next].pos];
        chain := chain + [next];
        if next == fromIdx {
          return Path(path), chain;
        }
        cur := next;
        k := k + 1;
      }
      if positive {
        DistinctBounded(chain, |nodes|);
        assert false;
      }
      r := Hang;
    }

    /** The neighbour loop of `solve` for the popped node `cur`, on the fields (see
        `RelaxNeighbours`). */
    method Relax(norm: Vec3 -> real, costFn: (NavNode, NavNode) -> real, cur: int, fromIdx: int, toIdx: int,
                 bestIdx0: int, bestScore0: real, ghost positive: bool)
      returns (panicked: bool, bestIdx: int, bestScore: real)
      requires SearchIn(nodes, cameFrom, cost, openSet, norm, fromIdx, toIdx, bestIdx0, bestScore0, positive) && VisitedIn(cameFrom, cur)
      requires positive ==> PositiveCosts(costFn)
      modifies this
      ensures Valid()
      ensures panicked <==> !IndicesBelow(nodes[cur].neighbours, |nodes|)
      ensures !panicked ==> SearchIn(nodes, cameFrom, cost, openSet, norm, fromIdx, toIdx, bestIdx, bestScore, positive)
      ensures !panicked ==> Scratch(cameFrom, cost, openSet, bestIdx, bestScore)
                            == RelaxedAll(nodes, norm, costFn, cur, nodes[cur].neighbours, toIdx,
                                          Scratch(old(cameFrom), old(cost), old(openSet), bestIdx0, bestScore0))
    {
      var cf, cs, os;
      panicked, cf, cs, os, bestIdx, bestScore :=
        RelaxNeighbours(nodes, norm, costFn, cameFrom, cost, openSet, cur, fromIdx, toIdx, bestIdx0, bestScore0, positive);
      cameFrom, cost, openSet := cf, cs, os;
    }

    /** The seeding of `solve` after the reset: the start costs `heuristic(from, from)`, comes
        from itself, and is the only open entry. */
    method Seed(norm: Vec3 -> real, fromIdx: int, toIdx: int, ghost positive: bool)
      requires Valid() && 0 <= fromIdx < |nodes| && 0 <= toIdx < |nodes|
      modifies this
      ensures SearchIn(nodes, cameFrom, cost, openSet, norm, fromIdx, toIdx, -1, Heuristic(nodes, norm, fromIdx, toIdx), positive)
      ensures openSet == multiset{NodeAndScore(fromIdx, Heuristic(nodes, norm, fromIdx, fromIdx))}
      ensures cameFrom[fromIdx] == fromIdx && cost[fromIdx] == Heuristic(nodes, norm, fromIdx, fromIdx)
      ensures forall v :: 0 <= v < |nodes| && v != fromIdx ==> cameFrom[v] == -1 && cost[v] == 1000000.0
      ensures Scratch(cameFrom, cost, openSet, -1, Heuristic(nodes, norm, fromIdx, toIdx)) == Seeded(nodes, norm, fromIdx, toIdx)
    {
      ResetScratch();
      cost := cost[fromIdx := Heuristic(nodes, norm, fromIdx, fromIdx)];
      cameFrom := cameFrom[fromIdx := fromIdx];
      openSet := openSet + multiset{NodeAndScore(fromIdx, Heuristic(nodes, norm, fromIdx, fromIdx))};
      assert forall v :: VisitedIn(cameFrom, v) ==> v == fromIdx;
      assert StepIn(nodes, cameFrom, cost, fromIdx, fromIdx, positive);
      var seeded := Seeded(nodes, norm, fromIdx, toIdx);
      assert cameFrom == seeded.cameFrom && cost == seeded.cost;
    }

    /** One turn of the open-set loop past a lowest-f entry `cur` that is not the goal: pops it
        and relaxes its neighbours, keeping the loop's invariants. */
    method PopAndRelax(norm: Vec3 -> real, costFn: (NavNode, NavNode) -> real, cur: NodeAndScore, fromIdx: int, toIdx: int,
                       bestIdx0: int, bestScore0: real, ghost positive: bool)
      returns (panicked: bool, bestIdx: int, bestScore: real)
      requires SearchIn(nodes, cameFrom, cost, openSet, norm, fromIdx, toIdx, bestIdx0, bestScore0, positive)
      requires ClosedIn(nodes, costFn, cameFrom, cost, openSet) && UnreachedIn(nodes, cameFrom, cost)
      requires IsHeapMax(cur, openSet) && cur.idx != toIdx
      requires positive ==> PositiveCosts(costFn)
      modifies this
      ensures Valid() && 0 <= cur.idx < |nodes|
      ensures panicked <==> !IndicesBelow(nodes[cur.idx].neighbours, |nodes|)
      ensures !panicked ==> SearchIn(nodes, cameFrom, cost, openSet, norm, fromIdx, toIdx, bestIdx, bestScore, positive)
      ensures !panicked ==> ClosedIn(nodes, costFn, cameFrom, cost, openSet) && UnreachedIn(nodes, cameFrom, cost)
      ensures !panicked ==> PopRelaxes(nodes, norm, costFn, toIdx, Scratch(old(cameFrom), old(cost), old(openSet), bestIdx0, bestScore0),
                                       cur, Scratch(cameFrom, cost, openSet, bestIdx, bestScore))
    {
      PopKeepsOpen(cameFrom, openSet, cur, toIdx);
      ghost var cf0, cs0, os0 := cameFrom, cost, openSet;
      openSet := openSet - multiset{cur};
      panicked, bestIdx, bestScore := Relax(norm, costFn, cur.idx, fromIdx, toIdx, bestIdx0, bestScore0, positive);
      if !panicked {
        RelaxKeepsClosed(nodes, norm, costFn, cf0, cs0, os0, cur, toIdx, bestIdx0, bestScore0);
      }
    }

    /** The open-set loop of `solve`, from the seeded state: pops a lowest-f entry and either
        stops at the goal or relaxes the popped node's neighbours. `trace` and `popped` are the
        run: the states after each turn that relaxed a node and the entries those turns
        popped, from the seeded fields to the final ones; the loop runs out of fuel only after
        `fuel` such turns, with entries still open. */
    method Search(norm: Vec3 -> real, costFn: (NavNode, NavNode) -> real, fromIdx: int, toIdx: int, fuel: nat,
                  ghost positive: bool)
      returns (end: SearchEnd, bestIdx: int, bestScore: real, ghost trace: seq<Scratch>, ghost popped: seq<NodeAndScore>)
      requires 0 <= fromIdx < |nodes| && 0 <= toIdx < |nodes|
      requires SearchIn(nodes, cameFrom, cost, openSet, norm, fromIdx, toIdx, -1, Heuristic(nodes, norm, fromIdx, toIdx), positive)
      requires openSet == multiset{NodeAndScore(fromIdx, Heuristic(nodes, norm, fromIdx, fromIdx))}
      requires cameFrom[fromIdx] == fromIdx
      requires forall v :: 0 <= v < |nodes| && v != fromIdx ==> cameFrom[v] == -1 && cost[v] == 1000000.0
      requires positive ==> PositiveCosts(costFn)
      modifies this
      ensures Valid()
      ensures end == GoalPopped ==> TreeIn(nodes, cameFrom, cost, fromIdx, positive) && VisitedIn(cameFrom, toIdx)
      ensures end == GoalPopped && fromIdx == toIdx ==> cameFrom[fromIdx] == fromIdx
      ensures fuel > 0 && fromIdx == toIdx ==> end == GoalPopped
      ensures end == Exhausted ==> SearchIn(nodes, cameFrom, cost, openSet, norm, fromIdx, toIdx, bestIdx, bestScore, positive) && !VisitedIn(cameFrom, toIdx)
      ensures end == Exhausted ==> (forall v :: VisitedIn(cameFrom, v) ==> Expanded(nodes, costFn, cost, v))
                                   && UnreachedIn(nodes, cameFrom, cost)
      ensures end == NeighbourPanic ==> !NeighboursInRange(nodes)
      ensures IsRun(nodes, norm, costFn, toIdx, trace, popped) && |popped| <= fuel
      ensures trace[0] == Scratch(old(cameFrom), old(cost), old(openSet), -1, Heuristic(nodes, norm, fromIdx, toIdx))
      ensures end == FuelOut || end == Exhausted ==> trace[|trace| - 1] == Scratch(cameFrom, cost, openSet, bestIdx, bestScore)
      ensures end == FuelOut ==> |popped| == fuel && openSet != multiset{}
      ensures end != NeighbourPanic ==> cameFrom == trace[|trace| - 1].cameFrom && cost == trace[|trace| - 1].cost
      ensures end == GoalPopped ==>
                |popped| < fuel && cameFrom == trace[|trace| - 1].cameFrom && cost == trace[|trace| - 1].cost
                && exists g :: IsHeapMax(g, trace[|trace| - 1].openSet) && g.idx == toIdx && openSet == trace[|trace| - 1].openSet - multiset{g}
    {
      bestScore := Heuristic(nodes, norm, fromIdx, toIdx);
      bestIdx := -1;
      ghost var seed := openSet;
      var steps := 0;
      trace, popped := [Scratch(cameFrom, cost, openSet, bestIdx, bestScore)], [];
      while openSet != multiset{}
        invariant Valid()
        invariant IsRun(nodes, norm, costFn, toIdx, trace, popped) && |popped| == steps
        invariant trace[0] == Scratch(old(cameFrom), old(cost), old(openSet), -1, Heuristic(nodes, norm, fromIdx, toIdx))
        invariant trace[|trace| - 1] == Scratch(cameFrom, cost, openSet, bestIdx, bestScore)
        invariant SearchIn(nodes, cameFrom, cost, openSet, norm, fromIdx, toIdx, bestIdx, bestScore, positive)
        invariant 0 <= steps <= fuel
        invariant steps == 0 ==> openSet == seed && cameFrom[fromIdx] == fromIdx
        invariant steps > 0 ==> fromIdx != toIdx
        invariant ClosedIn(nodes, costFn, cameFrom, cost, openSet) && UnreachedIn(nodes, cameFrom, cost)
        decreases fuel - steps
      {
        if steps == fuel {
          return FuelOut, bestIdx, bestScore, trace, popped;
        }
        HeapMaxExists(openSet);
        var cur :| IsHeapMax(cur, openSet);
        if cur.idx == toIdx {
          openSet := openSet - multiset{cur};
          return GoalPopped, bestIdx, bestScore, trace, popped;
        }
        steps := steps + 1;
        var panicked;
        panicked, bestIdx, bestScore := PopAndRelax(norm, costFn, cur, fromIdx, toIdx, bestIdx, bestScore, positive);
        if panicked {
          return NeighbourPanic, bestIdx, bestScore, trace, popped;
        }
        ghost var next := Scratch(cameFrom, cost, openSet, bestIdx, bestScore);
        RunExtends(nodes, norm, costFn, toIdx, trace, popped, cur, next);
        trace, popped := trace + [next], popped + [cur];
      }
      end := Exhausted;
      forall v | VisitedIn(cameFrom, v)
        ensures Expanded(nodes, costFn, cost, v)
      {
        assert !HasEntry(openSet, v);
      }
    }

    /** The reset, the seeding and the open-set loop of `solve` (lines 112-173): `Search`
        from `Seeded`. */
    method SeededSearch(norm: Vec3 -> real, costFn: (NavNode, NavNode) -> real, fromIdx: int, toIdx: int, fuel: nat,
                        ghost positive: bool)
      returns (end: SearchEnd, bestIdx: int, bestScore: real, ghost trace: seq<Scratch>, ghost popped: seq<NodeAndScore>)
      requires Valid() && 0 <= fromIdx < |nodes| && 0 <= toIdx < |nodes|
      requires positive ==> PositiveCosts(costFn)
      modifies this
      ensures Valid()
      ensures end == GoalPopped ==> TreeIn(nodes, cameFrom, cost, fromIdx, positive) && VisitedIn(cameFrom, toIdx)
      ensures end == GoalPopped && fromIdx == toIdx ==> cameFrom[fromIdx] == fromIdx
      ensures fuel > 0 && fromIdx == toIdx ==> end == GoalPopped
      ensures end == Exhausted ==> SearchIn(nodes, cameFrom, cost, openSet, norm, fromIdx, toIdx, bestIdx, bestScore, positive) && !VisitedIn(cameFrom, toIdx)
      ensures end == Exhausted ==> (forall v :: VisitedIn(cameFrom, v) ==> Expanded(nodes, costFn, cost, v))
                                   && UnreachedIn(nodes, cameFrom, cost)
      ensures end == NeighbourPanic ==> !NeighboursInRange(nodes)
      ensures IsRun(nodes, norm, costFn, toIdx, trace, popped) && |popped| <= fuel
      ensures trace[0] == Seeded(nodes, norm, fromIdx, toIdx)
      ensures end == FuelOut || end == Exhausted ==> trace[|trace| - 1] == Scratch(cameFrom, cost, openSet, bestIdx, bestScore)
      ensures end == FuelOut ==> |popped| == fuel && openSet != multiset{}
      ensures end != NeighbourPanic ==> cameFrom == trace[|trace| - 1].cameFrom && cost == trace[|trace| - 1].cost
      ensures end == GoalPopped ==>
                |popped| < fuel && cameFrom == trace[|trace| - 1].cameFrom && cost == trace[|trace| - 1].cost
                && exists g :: IsHeapMax(g, trace[|trace| - 1].openSet) && g.idx == toIdx && openSet == trace[|trace| - 1].openSet - multiset{g}
    {
      Seed(norm, fromIdx, toIdx, positive);
      end, bestIdx, bestScore, trace, popped := Search(norm, costFn, fromIdx, toIdx, fuel, positive);
    }

    /** `solve`: snaps both points to their nearest nodes, resets the scratch arrays, seeds
        the open set with the start and pops lowest f-scores until the goal is popped or the
        set runs empty. The path is returned goal first: the query point `to`, then the
        positions along `came_from` down to the start node. Without the goal it falls back to
        the walk from the relaxed node closest to the goal by heuristic, or to no path when
        no relaxed node is closer than the start. */
    method Solve(norm: Vec3 -> real, from: Vec3, to: Vec3, costFn: (NavNode, NavNode) -> real, fuel: nat)
      returns (r: SolveResult, ghost reached: bool, ghost chain: seq<int>, fromIdx: int, toIdx: int,
               ghost trace: seq<Scratch>, ghost popped: seq<NodeAndScore>)
      requires Valid()
      modifies this
      ensures Valid()
      ensures |nodes| == 0 ==> r == Panic
      ensures r == Panic ==> |nodes| == 0 || !NeighboursInRange(nodes)
      ensures r != Panic ==> IsNearest(nodes, norm, from, fromIdx) && IsNearest(nodes, norm, to, toIdx)
      ensures r == Hang ==> !PositiveCosts(costFn)
      ensures r.Path? && reached ==>
                IsChainIn(nodes, cameFrom, chain, fromIdx) && chain[0] == toIdx && |r.points| == |chain| && r.points[0] == to
                && forall i :: 1 <= i < |chain| ==> r.points[i] == nodes[chain[i]].pos
      ensures r.Path? && !reached && r.points != [] ==>
                IsChainIn(nodes, cameFrom, chain, fromIdx) && |r.points| == |chain|
                && (forall i :: 0 <= i < |chain| ==> r.points[i] == nodes[chain[i]].pos)
                && !VisitedIn(cameFrom, toIdx) && VisitedIn(cameFrom, chain[0]) && chain[0] != fromIdx
                && Heuristic(nodes, norm, chain[0], toIdx) < Heuristic(nodes, norm, fromIdx, toIdx)
                && forall v :: VisitedIn(cameFrom, v) && v != fromIdx ==> Heuristic(nodes, norm, chain[0], toIdx) <= Heuristic(nodes, norm, v, toIdx)
      ensures r.Path? && !reached ==>
                (r.points == [] <==> forall v :: VisitedIn(cameFrom, v) ==> Heuristic(nodes, norm, fromIdx, toIdx) <= Heuristic(nodes, norm, v, toIdx))
      ensures r != Panic && fuel > 0 && fromIdx == toIdx ==> r == Path([to, nodes[fromIdx].pos])
      ensures !reached && (r.Path? || r == Hang) ==>
                forall p :: CheapPathIn(nodes, costFn, p, fromIdx, cost[fromIdx]) ==> p[|p| - 1] != toIdx
      ensures IsRun(nodes, norm, costFn, toIdx, trace, popped) && |popped| <= fuel
      ensures |nodes| > 0 ==> 0 <= fromIdx < |nodes| && 0 <= toIdx < |nodes| && trace[0] == Seeded(nodes, norm, fromIdx, toIdx)
      ensures r != Panic ==> cameFrom == trace[|trace| - 1].cameFrom && cost == trace[|trace| - 1].cost
      ensures r == OutOfFuel ==> |popped| == fuel && openSet == trace[|trace| - 1].openSet && openSet != multiset{}
    {
      reached, chain, fromIdx, toIdx := false, [], 0, 0;
      trace, popped := [Scratch(cameFrom, cost, openSet, -1, 0.0)], [];
      var fromOpt := PosToIdx(norm, from);
      if fromOpt.None? {
        return Panic, reached, chain, fromIdx, toIdx, trace, popped;
      }
      var toOpt := PosToIdx(norm, to);
      fromIdx, toIdx := fromOpt.value, toOpt.value;
      ghost var positive := PositiveCosts(costFn);
      var end, bestIdx, bestScore;
      end, bestIdx, bestScore, trace, popped := SeededSearch(norm, costFn, fromIdx, toIdx, fuel, positive);
      r, reached, chain := Conclude(norm, costFn, to, fromIdx, toIdx, fuel, end, bestIdx, bestScore, positive);
    }

    /** The end of `solve` after the open-set loop: no path when fuel ran out, a panic when
        a neighbour index was out of range, the walk from the goal when it was popped, and
        `Fallback` when the open set ran empty. */
    method Conclude(norm: Vec3 -> real, costFn: (NavNode, NavNode) -> real, to: Vec3, fromIdx: int, toIdx: int, fuel: nat,
                    end: SearchEnd, bestIdx: int, bestScore: real, ghost positive: bool)
      returns (r: SolveResult, ghost reached: bool, ghost chain: seq<int>)
      requires Valid() && 0 <= fromIdx < |nodes| && 0 <= toIdx < |nodes| && positive == PositiveCosts(costFn)
      requires end == GoalPopped ==> TreeIn(nodes, cameFrom, cost, fromIdx, positive) && VisitedIn(cameFrom, toIdx)
      requires end == GoalPopped && fromIdx == toIdx ==> cameFrom[fromIdx] == fromIdx
      requires fuel > 0 && fromIdx == toIdx ==> end == GoalPopped
      requires end == Exhausted ==> SearchIn(nodes, cameFrom, cost, openSet, norm, fromIdx, toIdx, bestIdx, bestScore, positive) && !VisitedIn(cameFrom, toIdx)
      requires end == Exhausted ==> (forall v :: VisitedIn(cameFrom, v) ==> Expanded(nodes, costFn, cost, v))
                                    && UnreachedIn(nodes, cameFrom, cost)
      requires end == NeighbourPanic ==> !NeighboursInRange(nodes)
      ensures r == Panic <==> end == NeighbourPanic
      ensures r == OutOfFuel <==> end == FuelOut
      ensures r == Panic ==> !NeighboursInRange(nodes)
      ensures r == Hang ==> !PositiveCosts(costFn)
      ensures r.Path? && reached ==>
                IsChainIn(nodes, cameFrom, chain, fromIdx) && chain[0] == toIdx && |r.points| == |chain| && r.points[0] == to
                && forall i :: 1 <= i < |chain| ==> r.points[i] == nodes[chain[i]].pos
      ensures r.Path? && !reached && r.points != [] ==>
                IsChainIn(nodes, cameFrom, chain, fromIdx) && |r.points| == |chain|
                && (forall i :: 0 <= i < |chain| ==> r.points[i] == nodes[chain[i]].pos)
                && !VisitedIn(cameFrom, toIdx) && VisitedIn(cameFrom, chain[0]) && chain[0] != fromIdx
                && Heuristic(nodes, norm, chain[0], toIdx) < Heuristic(nodes, norm, fromIdx, toIdx)
                && forall v :: VisitedIn(cameFrom, v) && v != fromIdx ==> Heuristic(nodes, norm, chain[0], toIdx) <= Heuristic(nodes, norm, v, toIdx)
      ensures r.Path? && !reached ==>
                (r.points == [] <==> forall v :: VisitedIn(cameFrom, v) ==> Heuristic(nodes, norm, fromIdx, toIdx) <= Heuristic(nodes, norm, v, toIdx))
      ensures fuel > 0 && fromIdx == toIdx ==> r == Path([to, nodes[fromIdx].pos])
      ensures !reached && (r.Path? || r == Hang) ==>
                forall p :: CheapPathIn(nodes, costFn, p, fromIdx, cost[fromIdx]) ==> p[|p| - 1] != toIdx
    {
      reached, chain := false, [];
      match end
      case FuelOut =>
        r := OutOfFuel;
      case NeighbourPanic =>
        r := Panic;
      case GoalPopped =>
        r, chain := Reconstruct(toIdx, to, fromIdx, positive);
        reached := true;
        if fromIdx == toIdx {
          assert chain[1] == fromIdx;
          assert |chain| == 2;
          assert r.points == [to, nodes[fromIdx].pos];
        }
      case Exhausted =>
        r, chain := Fallback(norm, costFn, fromIdx, toIdx, bestIdx, bestScore, positive);
    }

    /** The end of `solve` when the open set ran empty without the goal: the walk from the
        best-so-far node, or no path when there is none; and no cheap path reaches the goal. */
    method Fallback(norm: Vec3 -> real, costFn: (NavNode, NavNode) -> real, fromIdx: int, toIdx: int,
                    bestIdx: int, bestScore: real, ghost positive: bool)
      returns (r: SolveResult, ghost chain: seq<int>)
      requires SearchIn(nodes, cameFrom, cost, openSet, norm, fromIdx, toIdx, bestIdx, bestScore, positive) && !VisitedIn(cameFrom, toIdx)
      requires (forall v :: VisitedIn(cameFrom, v) ==> Expanded(nodes, costFn, cost, v)) && UnreachedIn(nodes, cameFrom, cost)
      requires positive ==> PositiveCosts(costFn)
      ensures r.Path? || r == Hang
      ensures r == Hang ==> !positive
      ensures r.Path? && r.points != [] ==>
                IsChainIn(nodes, cameFrom, chain, fromIdx) && |r.points| == |chain|
                && (forall i :: 0 <= i < |chain| ==> r.points[i] == nodes[chain[i]].pos)
                && VisitedIn(cameFrom, chain[0]) && chain[0] != fromIdx
                && Heuristic(nodes, norm, chain[0], toIdx) < Heuristic(nodes, norm, fromIdx, toIdx)
                && forall v :: VisitedIn(cameFrom, v) && v != fromIdx ==> Heuristic(nodes, norm, chain[0], toIdx) <= Heuristic(nodes, norm, v, toIdx)
      ensures r.Path? ==>
                (r.points == [] <==> forall v :: VisitedIn(cameFrom, v) ==> Heuristic(nodes, norm, fromIdx, toIdx) <= Heuristic(nodes, norm, v, toIdx))
      ensures forall p :: CheapPathIn(nodes, costFn, p, fromIdx, cost[fromIdx]) ==> p[|p| - 1] != toIdx
    {
      ExhaustedMissesOnlyDear(nodes, costFn, cameFrom, cost, fromIdx, toIdx);
      chain := [];
      if bestIdx > -1 {
        r, chain := Reconstruct(bestIdx, nodes[bestIdx].pos, fromIdx, positive);
      } else {
        r := Path([]);
      }
    }
  }

  /** A sequence of distinct indices below `n` has at most `n` elements: dropping the last
      element and closing the gap it leaves in the range gives a shorter such sequence. */
  lemma {:induction false} DistinctBounded(s: seq<int>, n: nat)
    requires forall i :: 0 <= i < |s| ==> 0 <= s[i] < n
    requires forall i, j :: 0 <= i < j < |s| ==> s[i] != s[j]
    ensures |s| <= n
    decreases |s|
  {
    if |s| > 0 {
      var x := s[|s| - 1];
      var t := seq(|s| - 1, i requires 0 <= i < |s| - 1 => if s[i] < x then s[i] else s[i] - 1);
      forall i | 0 <= i < |t|
        ensures 0 <= t[i] < n - 1
      {
        assert s[i] != x;
      }
      forall i, j | 0 <= i < j < |t|
        ensures t[i] != t[j]
      {
        assert s[i] != s[j] && s[i] != x && s[j] != x;
      }
      DistinctBounded(t, n - 1);
    }
  }
}
