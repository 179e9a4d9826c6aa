/**
  The A* driver (`AstartAlgorithm`, `initializeNodes`, `backtrackPath` and
  Go's `reverse`) over an adjacency-list graph with non-negative integer
  edge weights and a per-vertex heuristic.

  Search nodes are kept in a sequence indexed by vertex id, and a node's
  predecessor is the optional id of another node. The open list is the
  indexable min-heap of `IndexedMinHeap`, which holds `(id, f)` slots.
 */
module AStar {
  import opened Wrappers
  import opened IndexedMinHeap

  /**
    A node's `g` or `f`. `Inf` is the "not reached" sentinel: Python's
    `float("inf")`, Go's `math.MaxInt32`.
   */
  datatype Cost = Inf | Fin(value: nat)

  /** `a < b` on costs; `Inf` is above every finite cost and not below itself. */
  predicate Less(a: Cost, b: Cost) {
    match (a, b)
    case (Fin(x), Fin(y)) => x < y
    case (Fin(_), Inf) => true
    case (Inf, _) => false
  }

  /** `c + w`; infinity plus anything stays infinite. */
  function Add(c: Cost, w: nat): (r: Cost) {
    if c.Inf? then Inf else Fin(c.value + w)
  }

  /** One adjacency entry `[neighborIdx, distanceToNeighbor]`. */
  datatype Edge = Edge(to: nat, distance: nat)

  /** Every edge leads to a vertex of the graph. */
  ghost predicate ValidGraph(graph: seq<seq<Edge>>) {
    forall u, j :: 0 <= u < |graph| && 0 <= j < |graph[u]| ==> graph[u][j].to < |graph|
  }

  /** The search record of one vertex (`Node`); `previous` is the id of its predecessor. */
  datatype SearchNode = SearchNode(id: nat, g: Cost, h: nat, f: Cost, previous: Option<nat>)

  /*** Walks and their cost ***/

  /**
    `w` is a non-empty walk of the graph and `e[i]` is the number of the
    edge of `w[i]` that it follows to `w[i + 1]`.
   */
  ghost predicate IsWalk(graph: seq<seq<Edge>>, w: seq<nat>, e: seq<nat>) {
    && |w| == |e| + 1
    && (forall i :: 0 <= i < |w| ==> w[i] < |graph|)
    && (forall i :: 0 <= i < |e| ==> e[i] < |graph[w[i]]| && graph[w[i]][e[i]].to == w[i + 1])
  }

  /** The total weight of the first `n` edges of a walk. */
  ghost function PrefixCost(graph: seq<seq<Edge>>, w: seq<nat>, e: seq<nat>, n: nat): nat
    requires IsWalk(graph, w, e) && n <= |e|
  {
    if n == 0 then 0 else PrefixCost(graph, w, e, n - 1) + graph[w[n - 1]][e[n - 1]].distance
  }

  ghost function WalkCost(graph: seq<seq<Edge>>, w: seq<nat>, e: seq<nat>): nat
    requires IsWalk(graph, w, e)
  {
    PrefixCost(graph, w, e, |e|)
  }

  ghost predicate Reachable(graph: seq<seq<Edge>>, s: nat, t: nat) {
    exists w, e :: IsWalk(graph, w, e) && w[0] == s && w[|w| - 1] == t
  }

  /** No walk from `s` to `t` is lighter than `w`. */
  ghost predicate IsShortestWalk(graph: seq<seq<Edge>>, w: seq<nat>, e: seq<nat>) {
    && IsWalk(graph, w, e)
    && forall w2, e2 :: IsWalk(graph, w2, e2) && w2[0] == w[0] && w2[|w2| - 1] == w[|w| - 1] ==>
      WalkCost(graph, w, e) <= WalkCost(graph, w2, e2)
  }

  /**
    The heuristic is consistent: along every edge it drops by at most the
    edge's weight, and it is zero at the target.
   */
  ghost predicate Consistent(graph: seq<seq<Edge>>, hValues: seq<nat>, target: nat) {
    && |graph| <= |hValues| && target < |graph| && hValues[target] == 0
    && forall u, j :: 0 <= u < |graph| && 0 <= j < |graph[u]| && graph[u][j].to < |graph| ==>
      hValues[u] <= graph[u][j].distance + hValues[graph[u][j].to]
  }

  /** Under a consistent heuristic, cost so far plus estimate never decreases along a walk. */
  lemma {:induction false} HeuristicAlongWalk(graph: seq<seq<Edge>>, hValues: seq<nat>, target: nat,
                                              w: seq<nat>, e: seq<nat>, i: nat, n: nat)
    requires Consistent(graph, hValues, target) && IsWalk(graph, w, e) && i <= n <= |e|
    ensures PrefixCost(graph, w, e, i) + hValues[w[i]] <= PrefixCost(graph, w, e, n) + hValues[w[n]]
    decreases n - i
  {
    if i < n {
      HeuristicAlongWalk(graph, hValues, target, w, e, i, n - 1);
      assert graph[w[n - 1]][e[n - 1]].to == w[n];
    }
  }

  /*** Node initialisation and relaxation ***/

  /**
    `initializeNodes`: one node per vertex, with `g` and `f` infinite, `h`
    from the heuristic table and no predecessor.
   */
  method InitializeNodes(graph: seq<seq<Edge>>, hValues: seq<nat>) returns (nodes: seq<SearchNode>)
    requires |graph| <= |hValues|
    ensures |nodes| == |graph|
    ensures forall i :: 0 <= i < |nodes| ==>
      nodes[i].id == i && nodes[i].h == hValues[i] && nodes[i].g == Inf && nodes[i].f == Inf && nodes[i].previous == None
  {
    nodes := [];
    for i := 0 to |graph|
      invariant |nodes| == i
      invariant forall k :: 0 <= k < i ==> nodes[k] == SearchNode(k, Inf, hValues[k], Inf, None)
    {
      nodes := nodes + [SearchNode(i, Inf, hValues[i], Inf, None)];
    }
  }

  /**
    The relaxation of one edge `current -> neighbor`: the neighbour is
    rewritten only when `current.g + distance` is strictly below its `g`;
    it then gets that `g`, `f = g + h` and `current` as predecessor.
   */
  function Relax(current: SearchNode, neighbor: SearchNode, distance: nat): (r: Option<SearchNode>)
    ensures r.None? <==> !Less(Add(current.g, distance), neighbor.g)
    ensures r.Some? ==>
      && Less(r.value.g, neighbor.g)
      && r.value.g == Add(current.g, distance)
      && r.value.f == Add(r.value.g, r.value.h)
      && r.value.previous == Some(current.id)
      && r.value.id == neighbor.id && r.value.h == neighbor.h
  {
    var newNeighborG := Add(current.g, distance);
    if !Less(newNeighborG, neighbor.g) then None
    else Some(neighbor.(g := newNeighborG, f := Add(newNeighborG, neighbor.h), previous := Some(current.id)))
  }

  /*** The termination measure: every relaxation lowers (number of infinite g, sum of finite g) ***/

  function InfCount(nodes: seq<SearchNode>): (n: nat) {
    if nodes == [] then 0 else (if nodes[0].g.Inf? then 1 else 0) + InfCount(nodes[1..])
  }

  function SumG(nodes: seq<SearchNode>): (n: nat) {
    if nodes == [] then 0 else (if nodes[0].g.Fin? then nodes[0].g.value else 0) + SumG(nodes[1..])
  }

  /** Replacing one record changes both sums by exactly that record's share. */
  lemma {:induction false} ReplaceShifts(nodes: seq<SearchNode>, v: nat, x: SearchNode)
    requires v < |nodes|
    ensures InfCount(nodes[v := x]) + (if nodes[v].g.Inf? then 1 else 0) == InfCount(nodes) + (if x.g.Inf? then 1 else 0)
    ensures SumG(nodes[v := x]) + (if nodes[v].g.Fin? then nodes[v].g.value else 0) == SumG(nodes) + (if x.g.Fin? then x.g.value else 0)
  {
    if v == 0 {
      assert nodes[v := x][1..] == nodes[1..];
    } else {
      assert nodes[v := x][1..] == nodes[1..][v - 1 := x];
      ReplaceShifts(nodes[1..], v - 1, x);
    }
  }

  /** Lowering one node's `g` lowers the measure lexicographically. */
  lemma LowerGLowersMeasure(nodes: seq<SearchNode>, v: nat, x: SearchNode)
    requires v < |nodes| && Less(x.g, nodes[v].g)
    ensures var m := nodes[v := x];
      InfCount(m) < InfCount(nodes) || (InfCount(m) == InfCount(nodes) && SumG(m) < SumG(nodes))
  {
    ReplaceShifts(nodes, v, x);
  }

  /*** The invariant of the search loop ***/

  /** Every record has its own id and `h`, and `f = g + h`. */
  ghost predicate WellFormed(graph: seq<seq<Edge>>, hValues: seq<nat>, nodes: seq<SearchNode>) {
    && |nodes| == |graph| <= |hValues|
    && forall v :: 0 <= v < |nodes| ==>
      nodes[v].id == v && nodes[v].h == hValues[v] && nodes[v].f == Add(nodes[v].g, nodes[v].h)
  }

  /**
    The predecessor of `v` is joined to it by edge number `via[v]`, both have
    a finite `g`, `g(u) + w <= g(v)` (equality when the link was made; `g(u)`
    may have dropped since), and `(g, rank)` strictly grows along the link,
    so following predecessors ends. A node without predecessor is the start
    or has not been reached.
   */
  ghost predicate LinkOk(graph: seq<seq<Edge>>, start: nat, nodes: seq<SearchNode>, rank: seq<nat>, via: seq<nat>, v: nat)
    requires v < |nodes| == |rank| == |via|
  {
    match nodes[v].previous
    case None => v == start || nodes[v].g.Inf?
    case Some(u) =>
      && u < |nodes| && u < |graph| && via[v] < |graph[u]| && graph[u][via[v]].to == v
      && nodes[u].g.Fin? && nodes[v].g.Fin?
      && nodes[u].g.value + graph[u][via[v]].distance <= nodes[v].g.value
      && (nodes[u].g.value < nodes[v].g.value || rank[u] < rank[v])
  }

  ghost predicate Linked(graph: seq<seq<Edge>>, start: nat, nodes: seq<SearchNode>, rank: seq<nat>, via: seq<nat>) {
    && start < |nodes| == |rank| == |via|
    && nodes[start].g == Fin(0) && nodes[start].previous == None
    && forall v :: 0 <= v < |nodes| ==> LinkOk(graph, start, nodes, rank, via, v)
  }

  /** Every id in the open list has a finite `g`, and the heap holds its current `f`. */
  ghost predicate HeapMatches(nodes: seq<SearchNode>, contents: map<nat, int>) {
    forall id :: id in contents ==> id < |nodes| && nodes[id].g.Fin? && nodes[id].f.Fin? && nodes[id].f.value == contents[id]
  }

  /** Edge `j` of `u` cannot improve its target any more. */
  ghost predicate Settled(graph: seq<seq<Edge>>, nodes: seq<SearchNode>, u: nat, j: nat)
    requires u < |nodes| && u < |graph| && j < |graph[u]|
  {
    graph[u][j].to < |nodes| && !Less(Add(nodes[u].g, graph[u][j].distance), nodes[graph[u][j].to].g)
  }

  /**
    A reached node outside the open list has had its edges relaxed: all of
    them, or, for the node `cid` being expanded, the first `k`.
   */
  ghost predicate Closed(graph: seq<seq<Edge>>, nodes: seq<SearchNode>, contents: map<nat, int>, cid: int, k: nat)
    requires |nodes| == |graph|
  {
    forall u, j :: 0 <= u < |nodes| && 0 <= j < |graph[u]| && nodes[u].g.Fin? && u !in contents && (u == cid ==> j < k) ==>
      Settled(graph, nodes, u, j)
  }

  ghost predicate SearchInv(graph: seq<seq<Edge>>, hValues: seq<nat>, start: nat, nodes: seq<SearchNode>,
                            rank: seq<nat>, via: seq<nat>, contents: map<nat, int>, cid: int, k: nat)
  {
    && WellFormed(graph, hValues, nodes)
    && Linked(graph, start, nodes, rank, via)
    && HeapMatches(nodes, contents)
    && Closed(graph, nodes, contents, cid, k)
  }

  /** The state right after the start node is given `g = 0` and put in the open list. */
  lemma InitialState(graph: seq<seq<Edge>>, hValues: seq<nat>, start: nat, nodes: seq<SearchNode>)
    requires start < |graph| <= |hValues| && |nodes| == |graph|
    requires forall i :: 0 <= i < |nodes| ==>
      nodes[i].id == i && nodes[i].h == hValues[i] && nodes[i].g == Inf && nodes[i].f == Inf && nodes[i].previous == None
    ensures var n := nodes[start := nodes[start].(g := Fin(0), f := Fin(hValues[start]))];
      SearchInv(graph, hValues, start, n, seq(|graph|, _ => 0), seq(|graph|, _ => 0), map[start := hValues[start]], -1, 0)
  {
    var n := nodes[start := nodes[start].(g := Fin(0), f := Fin(hValues[start]))];
    var zeros: seq<nat> := seq(|graph|, _ => 0);
    forall v | 0 <= v < |n| ensures LinkOk(graph, start, n, zeros, zeros, v) {
    }
  }

  /** Taking the minimum out of the open list starts its expansion with no edge done. */
  lemma PopKeeps(graph: seq<seq<Edge>>, hValues: seq<nat>, start: nat, nodes: seq<SearchNode>,
                 rank: seq<nat>, via: seq<nat>, contents: map<nat, int>, cid: nat)
    requires SearchInv(graph, hValues, start, nodes, rank, via, contents, -1, 0) && cid in contents
    ensures cid < |nodes| && nodes[cid].g.Fin?
    ensures SearchInv(graph, hValues, start, nodes, rank, via, contents - {cid}, cid, 0)
  {
  }

  /** An edge that does not improve its target is settled as it stands. */
  lemma SkipKeeps(graph: seq<seq<Edge>>, hValues: seq<nat>, start: nat, nodes: seq<SearchNode>,
                  rank: seq<nat>, via: seq<nat>, contents: map<nat, int>, cid: nat, k: nat)
    requires ValidGraph(graph) && SearchInv(graph, hValues, start, nodes, rank, via, contents, cid, k)
    requires cid < |nodes| && cid !in contents && k < |graph[cid]|
    requires Relax(nodes[cid], nodes[graph[cid][k].to], graph[cid][k].distance).None?
    ensures SearchInv(graph, hValues, start, nodes, rank, via, contents, cid, k + 1)
  {
    assert Settled(graph, nodes, cid, k);
  }

  /**
    Relaxing edge `k` of `cid` and putting its target in the open list with
    its new `f` keeps the invariant, and lowers the measure.
   */
  lemma RelaxKeeps(graph: seq<seq<Edge>>, hValues: seq<nat>, start: nat, nodes: seq<SearchNode>,
                   rank: seq<nat>, via: seq<nat>, contents: map<nat, int>, cid: nat, k: nat)
    requires ValidGraph(graph) && SearchInv(graph, hValues, start, nodes, rank, via, contents, cid, k)
    requires cid < |nodes| && cid !in contents && nodes[cid].g.Fin? && k < |graph[cid]|
    requires Relax(nodes[cid], nodes[graph[cid][k].to], graph[cid][k].distance).Some?
    ensures var v := graph[cid][k].to;
      var x := Relax(nodes[cid], nodes[v], graph[cid][k].distance).value;
      && v != cid && x.f.Fin?
      && (v in contents ==> x.f.value <= contents[v])
      && SearchInv(graph, hValues, start, nodes[v := x], rank[v := rank[cid] + 1], via[v := k], contents[v := x.f.value], cid, k + 1)
      && (InfCount(nodes[v := x]) < InfCount(nodes) || (InfCount(nodes[v := x]) == InfCount(nodes) && SumG(nodes[v := x]) < SumG(nodes)))
  {
    var v := graph[cid][k].to;
    var x := Relax(nodes[cid], nodes[v], graph[cid][k].distance).value;
    var n, r, w, c := nodes[v := x], rank[v := rank[cid] + 1], via[v := k], contents[v := x.f.value];
    LowerGLowersMeasure(nodes, v, x);
    assert v != start;
    forall y | 0 <= y < |n| ensures LinkOk(graph, start, n, r, w, y) {
      assert LinkOk(graph, start, nodes, rank, via, y);
    }
    forall u, j | 0 <= u < |n| && 0 <= j < |graph[u]| && n[u].g.Fin? && u !in c && (u == cid ==> j < k + 1)
      ensures Settled(graph, n, u, j)
    {
      assert Settled(graph, nodes, u, j) || (u == cid && j == k);
    }
  }

  /**
    What relaxing the first `k` edges of `cid` changed, starting from the
    records `nodes0` and the open list `contents0`. The record of `cid`
    stays as it was. A record left alone keeps its priority and its
    membership in the open list. A changed record has a strictly lower `g`:
    it is `g(cid)` plus the weight of one of those edges leading to it. It
    has `cid` as predecessor, and it is queued with its new `f`.
   */
  ghost predicate RelaxedFrom(graph: seq<seq<Edge>>, nodes0: seq<SearchNode>, contents0: map<nat, int>, cid: nat, k: nat,
                              nodes: seq<SearchNode>, contents: map<nat, int>)
    requires cid < |graph|
  {
    && |nodes| == |nodes0| && cid < |nodes| && nodes[cid] == nodes0[cid]
    && (forall v :: 0 <= v < |nodes| && nodes[v] == nodes0[v] ==>
      (v in contents <==> v in contents0) && (v in contents ==> contents[v] == contents0[v]))
    && (forall v :: 0 <= v < |nodes| && nodes[v] != nodes0[v] ==>
      && Less(nodes[v].g, nodes0[v].g) && nodes[v].previous == Some(cid)
      && nodes[v].f.Fin? && v in contents && contents[v] == nodes[v].f.value
      && exists j :: 0 <= j < k && j < |graph[cid]| && graph[cid][j].to == v && nodes[v].g == Add(nodes0[cid].g, graph[cid][j].distance))
  }

  /** An edge that improves nothing leaves the changes as they were. */
  lemma RelaxedSkip(graph: seq<seq<Edge>>, nodes0: seq<SearchNode>, contents0: map<nat, int>, cid: nat, k: nat,
                    nodes: seq<SearchNode>, contents: map<nat, int>)
    requires cid < |graph| && RelaxedFrom(graph, nodes0, contents0, cid, k, nodes, contents)
    ensures RelaxedFrom(graph, nodes0, contents0, cid, k + 1, nodes, contents)
  {
    forall v | 0 <= v < |nodes| && nodes[v] != nodes0[v]
      ensures exists j :: 0 <= j < k + 1 && j < |graph[cid]| && graph[cid][j].to == v && nodes[v].g == Add(nodes0[cid].g, graph[cid][j].distance)
    {
      var j :| 0 <= j < k && j < |graph[cid]| && graph[cid][j].to == v && nodes[v].g == Add(nodes0[cid].g, graph[cid][j].distance);
    }
  }

  /** Relaxing edge `k` and queueing its target with the new `f` records one more change. */
  lemma RelaxedStep(graph: seq<seq<Edge>>, nodes0: seq<SearchNode>, contents0: map<nat, int>, cid: nat, k: nat,
                    nodes: seq<SearchNode>, contents: map<nat, int>)
    requires cid < |graph| && k < |graph[cid]| && RelaxedFrom(graph, nodes0, contents0, cid, k, nodes, contents)
    requires graph[cid][k].to < |nodes| && graph[cid][k].to != cid && nodes0[cid].id == cid
    requires Relax(nodes[cid], nodes[graph[cid][k].to], graph[cid][k].distance).Some?
    requires Relax(nodes[cid], nodes[graph[cid][k].to], graph[cid][k].distance).value.f.Fin?
    ensures var v := graph[cid][k].to;
      var x := Relax(nodes[cid], nodes[v], graph[cid][k].distance).value;
      RelaxedFrom(graph, nodes0, contents0, cid, k + 1, nodes[v := x], contents[v := x.f.value])
  {
    var v := graph[cid][k].to;
    var x := Relax(nodes[cid], nodes[v], graph[cid][k].distance).value;
    var n, c := nodes[v := x], contents[v := x.f.value];
    assert Less(x.g, nodes0[v].g) by {
      if nodes[v] != nodes0[v] {
        assert Less(nodes[v].g, nodes0[v].g);
      }
    }
    assert x.g != nodes0[v].g;
    forall y | 0 <= y < |n| && n[y] == nodes0[y]
      ensures (y in c <==> y in contents0) && (y in c ==> c[y] == contents0[y])
    {
      assert y != v && nodes[y] == nodes0[y];
    }
    forall y | 0 <= y < |n| && n[y] != nodes0[y]
      ensures Less(n[y].g, nodes0[y].g) && n[y].previous == Some(cid) && n[y].f.Fin? && y in c && c[y] == n[y].f.value
    {
      if y == v {
        assert n[y].previous == Some(nodes[cid].id);
      }
    }
    forall y | 0 <= y < |n| && n[y] != nodes0[y]
      ensures exists j :: 0 <= j < k + 1 && j < |graph[cid]| && graph[cid][j].to == y && n[y].g == Add(nodes0[cid].g, graph[cid][j].distance)
    {
      if y == v {
        assert graph[cid][k].to == y && n[y].g == Add(nodes0[cid].g, graph[cid][k].distance);
      } else {
        var j :| 0 <= j < k && j < |graph[cid]| && graph[cid][j].to == y && nodes[y].g == Add(nodes0[cid].g, graph[cid][j].distance);
      }
    }
  }

  /** Vertex `w[n]` of a walk is reached with a `g` no larger than the walk's cost up to it. */
  ghost predicate WithinCost(graph: seq<seq<Edge>>, nodes: seq<SearchNode>, w: seq<nat>, e: seq<nat>, n: nat)
    requires IsWalk(graph, w, e) && n < |w| && |nodes| == |graph|
  {
    nodes[w[n]].g.Fin? && nodes[w[n]].g.value <= PrefixCost(graph, w, e, n)
  }

  /** Vertex `w[i]` of a walk is in the open list and within the walk's cost up to it. */
  ghost predicate OnFrontier(graph: seq<seq<Edge>>, nodes: seq<SearchNode>, contents: map<nat, int>,
                             w: seq<nat>, e: seq<nat>, i: nat)
    requires IsWalk(graph, w, e) && i < |w| && |nodes| == |graph|
  {
    w[i] in contents && WithinCost(graph, nodes, w, e, i)
  }

  /**
    Between two expansions, every walk from a vertex with `g = 0` either
    reaches `w[n]` within its cost, or crosses the open list at a vertex
    reached within the walk's cost up to there.
   */
  lemma {:induction false} FrontierOnWalk(graph: seq<seq<Edge>>, nodes: seq<SearchNode>, contents: map<nat, int>,
                                          w: seq<nat>, e: seq<nat>, n: nat)
    requires |nodes| == |graph| && IsWalk(graph, w, e) && n < |w| && nodes[w[0]].g == Fin(0)
    requires Closed(graph, nodes, contents, -1, 0)
    ensures WithinCost(graph, nodes, w, e, n) || exists i :: 0 <= i <= n && OnFrontier(graph, nodes, contents, w, e, i)
    decreases n
  {
    if n > 0 {
      FrontierOnWalk(graph, nodes, contents, w, e, n - 1);
      if WithinCost(graph, nodes, w, e, n - 1) {
        if w[n - 1] in contents {
          assert OnFrontier(graph, nodes, contents, w, e, n - 1);
        } else {
          assert Settled(graph, nodes, w[n - 1], e[n - 1]);
        }
      }
    }
  }

  /** The `g` of `t` is finite and at most the cost of every walk from `s` to `t`. */
  ghost predicate BoundsEveryWalk(graph: seq<seq<Edge>>, nodes: seq<SearchNode>, s: nat, t: nat) {
    && t < |nodes|
    && forall w, e :: IsWalk(graph, w, e) && w[0] == s && w[|w| - 1] == t ==>
      nodes[t].g.Fin? && nodes[t].g.value <= WalkCost(graph, w, e)
  }

  /**
    Once the open list is empty, every vertex's `g` is at most the cost of
    every walk from the start to it; in particular every reachable vertex
    has been reached.
   */
  lemma ExhaustedSearchBoundsWalks(graph: seq<seq<Edge>>, start: nat, nodes: seq<SearchNode>, t: nat)
    requires |nodes| == |graph| && start < |nodes| && t < |nodes| && nodes[start].g == Fin(0)
    requires Closed(graph, nodes, map[], -1, 0)
    ensures BoundsEveryWalk(graph, nodes, start, t)
  {
    forall w, e | IsWalk(graph, w, e) && w[0] == start && w[|w| - 1] == t
      ensures nodes[t].g.Fin? && nodes[t].g.value <= WalkCost(graph, w, e)
    {
      FrontierOnWalk(graph, nodes, map[], w, e, |e|);
    }
  }

  /**
    Under a consistent heuristic, when the target is the node of least `f`
    in the open list, its `g` is at most the cost of every walk from the
    start to it: the early exit is safe.
   */
  lemma TargetPoppedBoundsWalks(graph: seq<seq<Edge>>, hValues: seq<nat>, start: nat, nodes: seq<SearchNode>,
                                rank: seq<nat>, via: seq<nat>, contents: map<nat, int>, target: nat)
    requires SearchInv(graph, hValues, start, nodes, rank, via, contents, -1, 0)
    requires Consistent(graph, hValues, target)
    requires target in contents && forall id :: id in contents ==> contents[target] <= contents[id]
    ensures BoundsEveryWalk(graph, nodes, start, target)
  {
    forall w, e | IsWalk(graph, w, e) && w[0] == start && w[|w| - 1] == target
      ensures nodes[target].g.Fin? && nodes[target].g.value <= WalkCost(graph, w, e)
    {
      FrontierOnWalk(graph, nodes, contents, w, e, |e|);
      if exists i :: 0 <= i <= |e| && OnFrontier(graph, nodes, contents, w, e, i) {
        var i :| 0 <= i <= |e| && OnFrontier(graph, nodes, contents, w, e, i);
        HeuristicAlongWalk(graph, hValues, target, w, e, i, |e|);
        assert contents[w[i]] == nodes[w[i]].g.value + hValues[w[i]];
      }
    }
  }

  /*** Path reconstruction ***/

  /**
    `b` follows `a` on a path: `a` is its predecessor, and the edge used
    from `a` to `b` keeps `g(a) + w <= g(b)`.
   */
  ghost predicate Step(graph: seq<seq<Edge>>, a: SearchNode, b: SearchNode) {
    && b.previous == Some(a.id) && a.g.Fin? && b.g.Fin? && a.id < |graph|
    && exists j :: 0 <= j < |graph[a.id]| && graph[a.id][j].to == b.id && a.g.value + graph[a.id][j].distance <= b.g.value
  }

  /** The order in which predecessors are met: `(g, rank)` strictly decreases. */
  ghost predicate Below(a: SearchNode, b: SearchNode, rank: seq<nat>) {
    a.g.Fin? && b.g.Fin? && a.id < |rank| && b.id < |rank| &&
    (a.g.value < b.g.value || (a.g.value == b.g.value && rank[a.id] < rank[b.id]))
  }

  /** The ids of the nodes of a path, in order. */
  ghost function Ids(path: seq<SearchNode>): seq<nat> {
    seq(|path|, i requires 0 <= i < |path| => path[i].id)
  }

  /** Reverses a sequence, as Python's `path[::-1]` does. */
  function Reversed<T>(s: seq<T>): (r: seq<T>)
    ensures |r| == |s|
    ensures forall i {:trigger r[i]} :: 0 <= i < |s| ==> r[i] == s[|s| - 1 - i]
  {
    if s == [] then [] else Reversed(s[1..]) + [s[0]]
  }

  /** Go's `reverse`: swaps the two ends in place, moving inwards. */
  method Reverse<T>(a: array<T>)
    modifies a
    ensures a[..] == Reversed(old(a[..]))
  {
    var i, j := 0, a.Length - 1;
    while i < j
      invariant 0 <= i && j == a.Length - 1 - i && i <= a.Length - i
      invariant forall k :: 0 <= k < i || j < k < a.Length ==> a[k] == old(a[a.Length - 1 - k])
      invariant forall k :: i <= k <= j ==> a[k] == old(a[k])
    {
      a[i], a[j] := a[j], a[i];
      i, j := i + 1, j - 1;
    }
  }

  /**
    What following one predecessor link gives: a step along an edge to a
    node strictly lower in `(g, rank)`; a reached node without predecessor
    is the start.
   */
  lemma PredecessorLink(graph: seq<seq<Edge>>, start: nat, nodes: seq<SearchNode>, rank: seq<nat>, via: seq<nat>, c: nat)
    requires c < |nodes| && Linked(graph, start, nodes, rank, via)
    requires forall v :: 0 <= v < |nodes| ==> nodes[v].id == v
    ensures nodes[c].previous.Some? ==>
      var u := nodes[c].previous.value;
      u < |nodes| && Step(graph, nodes[u], nodes[c]) && Below(nodes[u], nodes[c], rank)
    ensures nodes[c].previous.None? && nodes[c].g.Fin? ==> c == start
  {
    assert LinkOk(graph, start, nodes, rank, via, c);
    if nodes[c].previous.Some? {
      var u := nodes[c].previous.value;
      assert graph[u][via[c]].to == c;
    }
  }

  /** `reverse(path)` on a copy of the collected nodes. */
  method ReverseOf<T>(s: seq<T>) returns (r: seq<T>)
    ensures r == Reversed(s)
  {
    if |s| == 0 {
      return [];
    }
    var a := new T[|s|](i requires 0 <= i < |s| => s[i]);
    assert a[..] == s;
    Reverse(a);
    r := a[..];
  }

  /**
    The state of the walk of `backtrackPath`: `collected` holds the nodes met
    so far from the target back, each the successor of the next, with
    distinct ids; `current` is the predecessor of the last one, below all of
    them in `(g, rank)`.
   */
  ghost predicate Backtracked(graph: seq<seq<Edge>>, nodes: seq<SearchNode>, rank: seq<nat>, target: nat,
                              collected: seq<SearchNode>, current: Option<nat>)
    requires target < |nodes|
  {
    && (current.Some? ==>
      && current.value < |nodes| && nodes[current.value].g.Fin?
      && (forall i :: 0 <= i < |collected| ==> Below(nodes[current.value], collected[i], rank))
      && (collected != [] ==> Step(graph, nodes[current.value], collected[|collected| - 1])))
    && (collected == [] ==> current == Some(target))
    && (collected != [] ==>
      collected[0] == nodes[target] && current == collected[|collected| - 1].previous && collected[|collected| - 1].g.Fin?)
    && (forall i :: 0 <= i < |collected| ==> collected[i].id < |nodes| && collected[i] == nodes[collected[i].id])
    && (forall i :: 0 < i < |collected| ==> Step(graph, collected[i], collected[i - 1]))
    && (forall i, j :: 0 <= i < j < |collected| ==> collected[i].id != collected[j].id)
  }

  /** One round of the walk: the current node is appended and its predecessor becomes current. */
  lemma BacktrackStep(graph: seq<seq<Edge>>, start: nat, nodes: seq<SearchNode>, rank: seq<nat>, via: seq<nat>,
                      target: nat, collected: seq<SearchNode>, c: nat)
    requires target < |nodes| && Linked(graph, start, nodes, rank, via)
    requires forall v :: 0 <= v < |nodes| ==> nodes[v].id == v
    requires Backtracked(graph, nodes, rank, target, collected, Some(c))
    ensures Backtracked(graph, nodes, rank, target, collected + [nodes[c]], nodes[c].previous)
  {
    PredecessorLink(graph, start, nodes, rank, via, c);
  }

  /**
    `backtrackPath`: nothing when the target has no predecessor; otherwise
    the predecessors of the target are collected back to a node without one,
    and the list is reversed into start-to-target order.
   */
  method BacktrackPath(nodes: seq<SearchNode>, target: nat, ghost graph: seq<seq<Edge>>, ghost start: nat,
                       ghost rank: seq<nat>, ghost via: seq<nat>) returns (path: seq<SearchNode>)
    requires target < |nodes| && Linked(graph, start, nodes, rank, via)
    requires forall v :: 0 <= v < |nodes| ==> nodes[v].id == v
    ensures path == [] <==> nodes[target].previous == None
    ensures path != [] ==>
      && path[0].id == start && path[0] == nodes[start] && path[|path| - 1] == nodes[target]
    ensures forall i :: 0 <= i < |path| ==> path[i].id < |nodes| && path[i] == nodes[path[i].id]
    ensures forall i :: 0 < i < |path| ==> Step(graph, path[i - 1], path[i])
    ensures forall i, j :: 0 <= i < j < |path| ==> path[i].id != path[j].id
  {
    if nodes[target].previous == None {
      return [];
    }
    PredecessorLink(graph, start, nodes, rank, via, target);
    var currentNode: Option<nat> := Some(target);
    var collected: seq<SearchNode> := [];
    while currentNode.Some?
      invariant Backtracked(graph, nodes, rank, target, collected, currentNode)
      decreases if currentNode.Some? then nodes[currentNode.value].g.value + 1 else 0,
                if currentNode.Some? then rank[currentNode.value] else 0
    {
      var c := currentNode.value;
      BacktrackStep(graph, start, nodes, rank, via, target, collected, c);
      collected := collected + [nodes[c]];
      currentNode := nodes[c].previous;
    }
    PredecessorLink(graph, start, nodes, rank, via, collected[|collected| - 1].id);
    path := ReverseOf(collected);
    ReversedChain(graph, collected, path);
  }

  /** Reversing a target-first chain of predecessors gives a start-first chain of steps. */
  lemma ReversedChain(graph: seq<seq<Edge>>, collected: seq<SearchNode>, path: seq<SearchNode>)
    requires |path| == |collected| && forall i :: 0 <= i < |path| ==> path[i] == collected[|collected| - 1 - i]
    requires forall i :: 0 < i < |collected| ==> Step(graph, collected[i], collected[i - 1])
    requires forall i, j :: 0 <= i < j < |collected| ==> collected[i].id != collected[j].id
    ensures forall i :: 0 < i < |path| ==> Step(graph, path[i - 1], path[i])
    ensures forall i, j :: 0 <= i < j < |path| ==> path[i].id != path[j].id
  {
    var n := |collected|;
    forall i | 0 < i < |path| ensures Step(graph, path[i - 1], path[i]) {
      assert path[i - 1] == collected[n - i] && path[i] == collected[n - 1 - i];
    }
    forall i, j | 0 <= i < j < |path| ensures path[i].id != path[j].id {
      assert path[i] == collected[n - 1 - i] && path[j] == collected[n - 1 - j];
    }
  }

  /*** The search ***/

  /**
    `AstartAlgorithm`: repeatedly takes the node of least `f` out of the
    open list, stops when it is the target, and otherwise relaxes its edges,
    inserting an improved neighbour or moving it up if it is already queued.
    The final records are returned as the ghost `records`.
   */
  method AStarSearch(graph: seq<seq<Edge>>, hValues: seq<nat>, start: nat, target: nat)
    returns (path: seq<SearchNode>, ghost records: seq<SearchNode>)
    requires ValidGraph(graph) && |graph| <= |hValues|
    requires start < |graph| && target < |graph|
    ensures |records| == |graph|
    ensures path == [] <==> records[target].previous == None
    ensures start == target ==> path == []
    ensures path != [] ==>
      && path[0].id == start && path[0].g == Fin(0) && path[0].previous == None
      && path[|path| - 1].id == target
    ensures forall i :: 0 <= i < |path| ==>
      path[i].id < |records| && path[i] == records[path[i].id]
      && path[i].h == hValues[path[i].id] && path[i].f == Add(path[i].g, path[i].h)
    ensures forall i :: 0 < i < |path| ==> Step(graph, path[i - 1], path[i])
    ensures forall i, j :: 0 <= i < j < |path| ==> path[i].id != path[j].id
    ensures path != [] ==>
      && path[|path| - 1].g.Fin?
      && exists e :: IsWalk(graph, Ids(path), e) && WalkCost(graph, Ids(path), e) <= path[|path| - 1].g.value
    ensures Reachable(graph, start, target) && start != target ==> path != []
    ensures Consistent(graph, hValues, target) ==> BoundsEveryWalk(graph, records, start, target)
    ensures Consistent(graph, hValues, target) && path != [] ==>
      && path[|path| - 1].g.Fin?
      && exists e :: IsShortestWalk(graph, Ids(path), e) && WalkCost(graph, Ids(path), e) == path[|path| - 1].g.value
  {
    var nodes, rank, via := RunSearch(graph, hValues, start, target);
    path := BacktrackPath(nodes, target, graph, start, rank, via);
    records := nodes;
    assert LinkOk(graph, start, nodes, rank, via, target);
    if nodes[target].g.Inf? {
      assert !Reachable(graph, start, target);
    }
    if path != [] {
      var e := PathIsWalk(graph, path);
      if Consistent(graph, hValues, target) {
        var w := Ids(path);
        forall w2, e2 | IsWalk(graph, w2, e2) && w2[0] == w[0] && w2[|w2| - 1] == w[|w| - 1]
          ensures WalkCost(graph, w, e) <= WalkCost(graph, w2, e2)
        {
        }
        assert IsShortestWalk(graph, w, e);
      }
    }
  }

  /**
    The search loop of `AstartAlgorithm`: sets up the nodes and the open
    list, then repeatedly takes the node of least `f` out of the open list,
    stops when it is the target, and otherwise relaxes its edges. On exit
    either the target has been reached, or the open list ran empty and every
    reached node has had all its edges relaxed.
   */
  method RunSearch(graph: seq<seq<Edge>>, hValues: seq<nat>, start: nat, target: nat)
    returns (nodes: seq<SearchNode>, ghost rank: seq<nat>, ghost via: seq<nat>)
    requires ValidGraph(graph) && |graph| <= |hValues|
    requires start < |graph| && target < |graph|
    ensures WellFormed(graph, hValues, nodes) && Linked(graph, start, nodes, rank, via)
    ensures nodes[target].g.Fin? || BoundsEveryWalk(graph, nodes, start, target)
    ensures Consistent(graph, hValues, target) ==> BoundsEveryWalk(graph, nodes, start, target)
  {
    nodes := InitializeNodes(graph, hValues);
    InitialState(graph, hValues, start, nodes);
    nodes := nodes[start := nodes[start].(g := Fin(0), f := Fin(hValues[start]))];
    rank := seq(|graph|, _ => 0);
    via := seq(|graph|, _ => 0);
    var openList := new MinHeap([HeapNode(start, hValues[start])]);
    assert openList.Contents == map[start := hValues[start]];
    while true
      invariant fresh(openList) && openList.Valid()
      invariant SearchInv(graph, hValues, start, nodes, rank, via, openList.Contents, -1, 0)
      decreases InfCount(nodes), SumG(nodes), |openList.heap|
    {
      var empty := openList.IsEmpty();
      if empty {
        ExhaustedSearchBoundsWalks(graph, start, nodes, target);
        break;
      }
      ghost var queued := openList.Contents;
      var currentNode := openList.Remove();
      var cid := currentNode.value.id;
      PopKeeps(graph, hValues, start, nodes, rank, via, queued, cid);
      if cid == target {
        if Consistent(graph, hValues, target) {
          TargetPoppedBoundsWalks(graph, hValues, start, nodes, rank, via, queued, target);
        }
        return;
      }
      nodes, rank, via := RelaxNeighbors(graph, hValues, start, openList, nodes, cid, rank, via);
    }
  }

  /**
    The inner loop of `AstartAlgorithm`: relaxes every edge of the node
    `cid` just taken out of the open list, in order. An improved neighbour
    is inserted into the open list, or moved up if it is already there.
   */
  method RelaxNeighbors(graph: seq<seq<Edge>>, hValues: seq<nat>, ghost start: nat, openList: MinHeap,
                        nodes0: seq<SearchNode>, cid: nat, ghost rank0: seq<nat>, ghost via0: seq<nat>)
    returns (nodes: seq<SearchNode>, ghost rank: seq<nat>, ghost via: seq<nat>)
    requires ValidGraph(graph) && openList.Valid()
    requires cid < |nodes0| && cid !in openList.Contents && nodes0[cid].g.Fin?
    requires SearchInv(graph, hValues, start, nodes0, rank0, via0, openList.Contents, cid, 0)
    modifies openList
    ensures openList.Valid()
    ensures SearchInv(graph, hValues, start, nodes, rank, via, openList.Contents, -1, 0)
    ensures RelaxedFrom(graph, nodes0, old(openList.Contents), cid, |graph[cid]|, nodes, openList.Contents)
    ensures InfCount(nodes) < InfCount(nodes0) || (InfCount(nodes) == InfCount(nodes0) &&
      (SumG(nodes) < SumG(nodes0) || (SumG(nodes) == SumG(nodes0) && |openList.heap| <= old(|openList.heap|))))
  {
    nodes, rank, via := nodes0, rank0, via0;
    var neighbors := graph[cid];
    for k := 0 to |neighbors|
      invariant openList.Valid() && cid !in openList.Contents && cid < |nodes| && nodes[cid].g.Fin?
      invariant SearchInv(graph, hValues, start, nodes, rank, via, openList.Contents, cid, k)
      invariant RelaxedFrom(graph, nodes0, old(openList.Contents), cid, k, nodes, openList.Contents)
      invariant InfCount(nodes) < InfCount(nodes0) || (InfCount(nodes) == InfCount(nodes0) &&
        (SumG(nodes) < SumG(nodes0) || (SumG(nodes) == SumG(nodes0) && |openList.heap| <= old(|openList.heap|))))
    {
      var neighborIdx, distanceToNeighbor := neighbors[k].to, neighbors[k].distance;
      var relaxed := Relax(nodes[cid], nodes[neighborIdx], distanceToNeighbor);
      if relaxed.None? {
        SkipKeeps(graph, hValues, start, nodes, rank, via, openList.Contents, cid, k);
        RelaxedSkip(graph, nodes0, old(openList.Contents), cid, k, nodes, openList.Contents);
        continue;
      }
      RelaxKeeps(graph, hValues, start, nodes, rank, via, openList.Contents, cid, k);
      RelaxedStep(graph, nodes0, old(openList.Contents), cid, k, nodes, openList.Contents);
      var neighborNode := relaxed.value;
      nodes := nodes[neighborIdx := neighborNode];
      rank := rank[neighborIdx := rank[cid] + 1];
      via := via[neighborIdx := k];
      var found := openList.ContainsNode(neighborIdx);
      if found {
        openList.Update(HeapNode(neighborIdx, neighborNode.f.value));
      } else {
        openList.Insert(HeapNode(neighborIdx, neighborNode.f.value));
      }
    }
  }

  /** An edge of `a` that leads to `b` and keeps `g(a) + w <= g(b)`. */
  ghost function StepEdge(graph: seq<seq<Edge>>, a: SearchNode, b: SearchNode): (j: nat)
    requires Step(graph, a, b)
    ensures j < |graph[a.id]| && graph[a.id][j].to == b.id && a.g.value + graph[a.id][j].distance <= b.g.value
  {
    var j :| 0 <= j < |graph[a.id]| && graph[a.id][j].to == b.id && a.g.value + graph[a.id][j].distance <= b.g.value;
    j
  }

  /**
    The ids along a chain of predecessor steps form a walk of the graph
    whose cost is at most the rise in `g` from its first node to its last.
   */
  lemma PathIsWalk(graph: seq<seq<Edge>>, path: seq<SearchNode>) returns (e: seq<nat>)
    requires path != [] && path[|path| - 1].id < |graph| && path[0].g.Fin? && path[|path| - 1].g.Fin?
    requires forall i :: 0 < i < |path| ==> Step(graph, path[i - 1], path[i])
    ensures IsWalk(graph, Ids(path), e)
    ensures path[0].g.value + WalkCost(graph, Ids(path), e) <= path[|path| - 1].g.value
  {
    e := ChainEdges(graph, path);
    var w := Ids(path);
    forall i | 0 <= i < |path| ensures w[i] < |graph| && path[i].g.Fin? {
      if i < |e| {
        assert ChainEdge(graph, path[i], path[i + 1], e[i]);
      }
    }
    forall i | 0 <= i < |e| ensures e[i] < |graph[w[i]]| && graph[w[i]][e[i]].to == w[i + 1] {
      assert ChainEdge(graph, path[i], path[i + 1], e[i]);
    }
    PrefixCostBelowRise(graph, path, e, |e|);
  }

  /** Edge `j` of `a` leads to `b` and keeps `g(a) + w <= g(b)`. */
  ghost predicate ChainEdge(graph: seq<seq<Edge>>, a: SearchNode, b: SearchNode, j: nat) {
    && a.id < |graph| && j < |graph[a.id]| && graph[a.id][j].to == b.id
    && a.g.Fin? && b.g.Fin? && a.g.value + graph[a.id][j].distance <= b.g.value
  }

  /** One such edge for every step of a chain of predecessor links. */
  lemma {:induction false} ChainEdges(graph: seq<seq<Edge>>, path: seq<SearchNode>) returns (e: seq<nat>)
    requires path != []
    requires forall i :: 0 < i < |path| ==> Step(graph, path[i - 1], path[i])
    ensures |e| == |path| - 1
    ensures forall i :: 0 <= i < |e| ==> ChainEdge(graph, path[i], path[i + 1], e[i])
    decreases |path|
  {
    if |path| == 1 {
      return [];
    }
    var n := |path| - 1;
    assert Step(graph, path[n - 1], path[n]);
    var e0 := ChainEdges(graph, path[..n]);
    e := e0 + [StepEdge(graph, path[n - 1], path[n])];
    forall i | 0 <= i < |e| ensures ChainEdge(graph, path[i], path[i + 1], e[i]) {
      if i < n - 1 {
        assert ChainEdge(graph, path[..n][i], path[..n][i + 1], e0[i]);
      }
    }
  }

  /** Along a walk whose every edge keeps `g(a) + w <= g(b)`, cost so far is at most the rise in `g`. */
  lemma {:induction false} PrefixCostBelowRise(graph: seq<seq<Edge>>, path: seq<SearchNode>, e: seq<nat>, n: nat)
    requires IsWalk(graph, Ids(path), e) && n < |path|
    requires forall i :: 0 <= i < |path| ==> path[i].g.Fin?
    requires forall i :: 0 <= i < |e| ==> ChainEdge(graph, path[i], path[i + 1], e[i])
    ensures path[0].g.value + PrefixCost(graph, Ids(path), e, n) <= path[n].g.value
    decreases n
  {
    if n > 0 {
      PrefixCostBelowRise(graph, path, e, n - 1);
      assert ChainEdge(graph, path[n - 1], path[n], e[n - 1]);
    }
  }
}
