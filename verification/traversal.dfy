/**
  Breadth-first and depth-first traversal of the road network (`Graph::BFS`,
  `Graph::DFSUtil`, `Graph::DFS`). Both reset the visited marks of every vertex
  first; here the marks are a set owned by the run. The printed visiting order
  is the returned sequence.
 */
module Traversal {
  import opened Wrappers
  import opened Graph
  import Q = Queue

  /** The vertex ids held by a queue, front first. */
  function Ids(items: seq<Q.QueueNode<int>>): (r: seq<int>)
    ensures |r| == |items|
    ensures forall i :: 0 <= i < |r| ==> r[i] == items[i].data
  {
    seq(|items|, i requires 0 <= i < |items| => items[i].data)
  }

  /** Every vertex of `o` has all its edge targets in `visited`. */
  ghost predicate Closed(g: Graph, o: seq<int>, visited: set<int>) {
    forall i, e :: 0 <= i < |o| && o[i] in g.adj && e in g.adj[o[i]] && e.to in g.adj ==> e.to in visited
  }

  /** Every vertex after position `from` was reached over an edge from an
      earlier one at or after `from`. */
  ghost predicate Discovered(g: Graph, o: seq<int>, from: nat) {
    forall j :: from < j < |o| ==> HasParent(g, o, from, j)
  }

  /** Some vertex of `o` at or after `from` and before `j` has an edge into `o[j]`. */
  ghost predicate HasParent(g: Graph, o: seq<int>, from: nat, j: int) {
    exists i :: from <= i && Parent(g, o, i, j)
  }

  /** `o[i]` comes before `o[j]` and has an edge into it. */
  ghost predicate Parent(g: Graph, o: seq<int>, i: int, j: int) {
    0 <= i < j < |o| && HasEdge(g, o[i], o[j])
  }

  /** Whatever is `k` hops away and comes later is preceded only by vertices at
      most `k` hops away: the order never decreases in hop distance. */
  ghost predicate HopOrdered(g: Graph, start: int, o: seq<int>) {
    forall i, j, k: nat :: 0 <= i < j < |o| && o[j] in Within(g, start, k) ==> o[i] in Within(g, start, k)
  }

  /** The BFS loop state, apart from closure. `all` lists every vertex ever
      queued, in queueing order: the first `head` have been output and the rest
      are the queue. The first `mid` are within `d` hops, the rest exactly
      `d + 1` hops away, and everything within `d` hops is among the first `mid`. */
  ghost predicate BfsCore(g: Graph, start: int, all: seq<int>, head: nat, mid: nat, d: nat, visited: set<int>) {
    && Valid(g) && start in g.adj
    && |all| > 0 && all[0] == start
    && head <= mid <= |all|
    && visited <= g.adj.Keys
    && (forall v :: v in visited <==> v in all)
    && Distinct(all)
    && Discovered(g, all, 0)
    && HopOrdered(g, start, all)
    && (forall i :: 0 <= i < mid ==> all[i] in Within(g, start, d))
    && (forall i :: mid <= i < |all| ==> AtHop(g, start, all[i], d + 1))
    && (forall v :: v in Within(g, start, d) ==> v in all[..mid])
  }

  /** The outer-loop invariant: every output vertex has had its edges scanned. */
  ghost predicate BfsOuter(g: Graph, start: int, all: seq<int>, head: nat, mid: nat, d: nat, visited: set<int>) {
    BfsCore(g, start, all, head, mid, d, visited) && Closed(g, all[..head], visited)
  }

  /** The inner-loop invariant: the vertex just output has had its first `n`
      edges scanned. */
  ghost predicate BfsInner(g: Graph, start: int, all: seq<int>, head: nat, mid: nat, d: nat, visited: set<int>, n: nat) {
    && BfsCore(g, start, all, head, mid, d, visited)
    && 0 < head
    && Closed(g, all[..head - 1], visited)
    && n <= |g.adj[all[head - 1]]|
    && Scanned(g, all[head - 1], n, visited)
  }

  /** The first `n` edges of `u` lead to visited vertices (or outside the graph). */
  ghost predicate Scanned(g: Graph, u: int, n: nat, visited: set<int>)
    requires u in g.adj && n <= |g.adj[u]|
  {
    forall m :: 0 <= m < n ==> g.adj[u][m].to in g.adj ==> g.adj[u][m].to in visited
  }

  /** `BFS`: no traversal for an absent start; otherwise visit level by level,
      each vertex's unvisited targets queued in adjacency-list order. */
  method BFS(g: Graph, start: int) returns (out: Option<seq<int>>)
    requires Valid(g)
    ensures out.None? <==> start !in g.adj
    ensures out.Some? ==>
      var o := out.value;
      && |o| > 0 && o[0] == start
      && Distinct(o)
      && (forall v :: v in o <==> Reachable(g, start, v))
      && Discovered(g, o, 0)
      && HopOrdered(g, start, o)
      && o == BfsOrder(g, start)
  {
    if FindVertex(g, start).None? {
      return None;
    }
    var visited: set<int> := {start};
    var q := Q.Enqueue(Q.EmptyQueue<int>(), start);
    var o: seq<int> := [];
    ghost var all: seq<int> := [start];
    ghost var d: nat := 0;
    ghost var mid: nat := 1;
    ghost var order := BfsOrder(g, start);
    BfsStart(g, start, q);
    while !q.IsEmpty()
      invariant BfsLoop(g, start, q, o, visited, all, mid, d)
      invariant BfsFrom(g, all, |o|, visited) == order
      decreases g.adj.Keys - visited, |all| - |o|
    {
      if |o| == mid {
        BfsBump(g, start, all, mid, d, visited);
        d, mid := d + 1, |all|;
      }
      BfsDequeue(g, start, q, o, visited, all, mid, d);
      var taken := Q.Dequeue(q);
      q := taken.1;
      o := o + [taken.0.value.data];
      q, visited, all := ScanVertex(g, start, q, o, visited, all, mid, d, order);
    }
    BfsResult(g, start, q, o, visited, all, mid, d);
    out := Some(o);
  }

  /** One turn of the outer loop after the dequeue: scan the edges of the
      vertex just output, keeping the loop invariant and making progress. */
  method ScanVertex(g: Graph, start: int, q: Q.Queue<int>, o: seq<int>, visited: set<int>, ghost all: seq<int>,
                    ghost mid: nat, ghost d: nat, ghost order: seq<int>)
    returns (q': Q.Queue<int>, visited': set<int>, ghost all': seq<int>)
    requires Valid(g)
    requires BfsReady(g, start, q, o, visited, all, mid, d)
    requires BfsFrom(g, all, |o| - 1, visited) == order
    ensures BfsLoop(g, start, q', o, visited', all', mid, d)
    ensures BfsFrom(g, all', |o|, visited') == order
    ensures g.adj.Keys - visited' < g.adj.Keys - visited
      || (g.adj.Keys - visited' == g.adj.Keys - visited && |all'| - |o| < |all| - (|o| - 1))
  {
    q', visited', all' := ScanEdges(g, q, visited, o, all);
    BfsScanAll(g, start, all, o, visited, mid, d, q', visited', all', order);
    BfsScanDecreases(g, all, o, visited, all', visited');
  }

  /** The breadth-first order from first principles. `all` lists the vertices
      queued so far, of which the first `head` are output, and `visited` those
      marked. Output the next one, queue its unmarked targets in adjacency-list
      order, and go on until every queued vertex is output. */
  ghost function BfsFrom(g: Graph, all: seq<int>, head: nat, visited: set<int>): seq<int>
    decreases g.adj.Keys - visited, |all| - head
  {
    if head >= |all| then all
    else if all[head] !in g.adj then BfsFrom(g, all, head + 1, visited)
    else
      var p := Queued(g, g.adj[all[head]], visited);
      if |p| == 0 then BfsFrom(g, all, head + 1, visited)
      else
        assert p[0] in g.adj.Keys - visited && p[0] !in g.adj.Keys - (visited + Elems(p));
        BfsFrom(g, all + p, head + 1, visited + Elems(p))
  }

  /** The order `BFS` outputs from `start`: the start alone queued and marked. */
  ghost function BfsOrder(g: Graph, start: int): seq<int> {
    BfsFrom(g, [start], 0, {start})
  }

  /** What the BFS loop leaves behind once the queue is empty. */
  lemma BfsResult(g: Graph, start: int, q: Q.Queue<int>, o: seq<int>, visited: set<int>,
                  all: seq<int>, mid: nat, d: nat)
    requires BfsLoop(g, start, q, o, visited, all, mid, d) && q.IsEmpty()
    requires BfsFrom(g, all, |o|, visited) == BfsOrder(g, start)
    ensures |o| > 0 && o[0] == start
    ensures Distinct(o)
    ensures forall v :: v in o <==> Reachable(g, start, v)
    ensures Discovered(g, o, 0)
    ensures HopOrdered(g, start, o)
    ensures o == BfsOrder(g, start)
  {
    BfsFinish(g, start, q, o, visited, all, mid, d);
    BfsFromDone(g, q, o, visited, all);
  }

  /** Once the queue is empty, everything queued has been output, and the
      reference order has nothing left to add. */
  lemma BfsFromDone(g: Graph, q: Q.Queue<int>, o: seq<int>, visited: set<int>, all: seq<int>)
    requires q.IsEmpty() && |o| <= |all| && o == all[..|o|] && Ids(q.items) == all[|o|..]
    ensures BfsFrom(g, all, |o|, visited) == o
  {
    assert |Ids(q.items)| == 0;
    assert o == all;
  }

  /** One turn of the BFS loop is one unfolding of the reference order: `o`
      ends with the vertex just output, and `all'`, `visited'` are what scanning
      its edges leaves. */
  lemma BfsFromStep(g: Graph, all: seq<int>, o: seq<int>, visited: set<int>, all': seq<int>, visited': set<int>)
    requires 0 < |o| <= |all| && o == all[..|o|] && o[|o| - 1] in g.adj
    requires all' == all + Queued(g, g.adj[o[|o| - 1]], visited)
    requires visited' == visited + Elems(all'[|all|..])
    ensures BfsFrom(g, all, |o| - 1, visited) == BfsFrom(g, all', |o|, visited')
  {
    var head := |o| - 1;
    assert all[head] == o[head];
    var p := Queued(g, g.adj[all[head]], visited);
    assert all'[|all|..] == p;
    if |p| == 0 {
      assert all' == all && visited' == visited;
    }
  }

  /** After `addEdge(1, 2)` and then `addEdge(1, 3)`, vertex 1's list holds the
      newer edge first, so the traversal from 1 outputs 3 before 2. */
  lemma BfsNewestEdgeFirst(g: Graph)
    requires g.adj == map[1 := [Edge(3, 1), Edge(2, 1)], 2 := [], 3 := []]
    ensures BfsOrder(g, 1) == [1, 3, 2]
  {
    var e := [Edge(3, 1), Edge(2, 1)];
    assert e[..1] == [Edge(3, 1)] && e[..0] == [];
    assert Queued(g, e, {1}) == [3, 2];
    var all, seen := [1, 3, 2], {1} + Elems([3, 2]);
    assert [1] + [3, 2] == all;
    assert BfsOrder(g, 1) == BfsFrom(g, all, 1, seen);
    assert g.adj[3] == [] && g.adj[2] == [];
    assert BfsFrom(g, all, 1, seen) == BfsFrom(g, all, 2, seen);
    assert BfsFrom(g, all, 2, seen) == BfsFrom(g, all, 3, seen);
  }

  /** The state between iterations of the BFS loop: the queue holds the queued
      vertices that are not yet output. */
  ghost predicate BfsLoop(g: Graph, start: int, q: Q.Queue<int>, o: seq<int>, visited: set<int>,
                          all: seq<int>, mid: nat, d: nat) {
    && q.Valid()
    && |o| <= |all| && o == all[..|o|] && Ids(q.items) == all[|o|..]
    && BfsOuter(g, start, all, |o|, mid, d, visited)
  }

  /** The state after dequeuing, before the edges of the dequeued vertex are
      scanned. */
  ghost predicate BfsReady(g: Graph, start: int, q: Q.Queue<int>, o: seq<int>, visited: set<int>,
                           all: seq<int>, mid: nat, d: nat) {
    && q.Valid()
    && 0 < |o| <= |all| && o == all[..|o|] && Ids(q.items) == all[|o|..]
    && o[|o| - 1] in g.adj
    && BfsInner(g, start, all, |o|, mid, d, visited, 0)
  }

  function Elems(s: seq<int>): (r: set<int>)
    ensures forall v :: v in r <==> v in s
  {
    set v | v in s
  }

  /** The targets among `edges` that the inner loop of `BFS` queues, in order:
      those that are vertices, not yet visited, and not queued before. */
  function Queued(g: Graph, edges: seq<Edge>, visited: set<int>): (r: seq<int>)
    ensures forall t :: t in r ==> t in g.adj && t !in visited
    decreases |edges|
  {
    if |edges| == 0 then []
    else
      var p := Queued(g, edges[..|edges| - 1], visited);
      var t := edges[|edges| - 1].to;
      if t in g.adj && t !in visited && t !in p then p + [t] else p
  }

  /** The inner loop of `BFS`: queue, in adjacency-list order, every target of
      the vertex just output that has not been visited. */
  method ScanEdges(g: Graph, q: Q.Queue<int>, visited: set<int>, o: seq<int>, ghost all: seq<int>)
    returns (q': Q.Queue<int>, visited': set<int>, ghost all': seq<int>)
    requires Valid(g)
    requires q.Valid()
    requires 0 < |o| <= |all| && o == all[..|o|] && Ids(q.items) == all[|o|..]
    requires o[|o| - 1] in g.adj
    ensures q'.Valid()
    ensures all' == all + Queued(g, g.adj[o[|o| - 1]], visited)
    ensures visited' == visited + Elems(all'[|all|..])
    ensures |o| <= |all'| && o == all'[..|o|] && Ids(q'.items) == all'[|o|..]
  {
    q', visited' := q, visited;
    var u := o[|o| - 1];
    var edges := g.adj[u];
    ghost var p: seq<int> := [];
    var n := 0;
    while n < |edges|
      invariant q'.Valid()
      invariant n <= |edges|
      invariant p == Queued(g, edges[..n], visited)
      invariant visited' == visited + Elems(p)
      invariant Ids(q'.items) == all[|o|..] + p
    {
      var t := edges[n].to;
      ScanStep(g, edges, n, visited, p, visited', q'.items, all[|o|..]);
      if FindVertex(g, t).Some? && t !in visited' {
        visited' := visited' + {t};
        q' := Q.Enqueue(q', t);
        p := p + [t];
      }
      n := n + 1;
    }
    assert edges[..n] == edges;
    all' := all + p;
    AppendSlices(all, p, |o|);
  }

  lemma AppendSlices(s: seq<int>, p: seq<int>, k: nat)
    requires k <= |s|
    ensures (s + p)[|s|..] == p && (s + p)[..k] == s[..k] && (s + p)[k..] == s[k..] + p
  {
  }

  /** One iteration of the inner loop of `BFS` keeps its bookkeeping. */
  lemma ScanStep(g: Graph, edges: seq<Edge>, n: nat, visited: set<int>, p: seq<int>, vis: set<int>,
                 items: seq<Q.QueueNode<int>>, base: seq<int>)
    requires n < |edges|
    requires p == Queued(g, edges[..n], visited) && vis == visited + Elems(p) && Ids(items) == base + p
    ensures var t := edges[n].to;
      if t in g.adj && t !in vis then
        && Queued(g, edges[..n + 1], visited) == p + [t]
        && vis + {t} == visited + Elems(p + [t])
        && Ids(items + [Q.QueueNode(t, Q.DefaultPriority)]) == base + (p + [t])
      else
        Queued(g, edges[..n + 1], visited) == p
  {
    assert edges[..n + 1][..n] == edges[..n];
    var t := edges[n].to;
    assert Elems(p + [t]) == Elems(p) + {t};
    IdsAppend(items, Q.QueueNode(t, Q.DefaultPriority));
  }

  /** The whole inner loop keeps the BFS invariant. */
  lemma BfsScanAll(g: Graph, start: int, before: seq<int>, o: seq<int>, visitedBefore: set<int>, mid: nat, d: nat,
                   q: Q.Queue<int>, visited: set<int>, all: seq<int>, order: seq<int>)
    requires 0 < |o| <= |before| && o == before[..|o|] && o[|o| - 1] in g.adj
    requires BfsInner(g, start, before, |o|, mid, d, visitedBefore, 0)
    requires BfsFrom(g, before, |o| - 1, visitedBefore) == order
    requires all == before + Queued(g, g.adj[o[|o| - 1]], visitedBefore)
    requires visited == visitedBefore + Elems(all[|before|..])
    requires q.Valid() && |o| <= |all| && o == all[..|o|] && Ids(q.items) == all[|o|..]
    ensures BfsLoop(g, start, q, o, visited, all, mid, d)
    ensures BfsFrom(g, all, |o|, visited) == order
  {
    BfsFromStep(g, before, o, visitedBefore, all, visited);
    var head := |o|;
    var edges := g.adj[before[head - 1]];
    assert all[|before|..] == Queued(g, edges, visitedBefore);
    BfsScanPrefix(g, start, before, head, mid, d, visitedBefore, |edges|);
    assert edges[..|edges|] == edges;
    assert all[head - 1] == before[head - 1];
    BfsScanned(g, start, all, head, mid, d, visited);
  }

  /** The state after the inner loop has looked at the first `n` edges. */
  ghost predicate ScanState(g: Graph, start: int, all: seq<int>, head: nat, mid: nat, d: nat, visited: set<int>, n: nat)
    requires 0 < head <= |all| && all[head - 1] in g.adj && n <= |g.adj[all[head - 1]]|
  {
    var p := Queued(g, g.adj[all[head - 1]][..n], visited);
    BfsInner(g, start, all + p, head, mid, d, visited + Elems(p), n)
  }

  lemma {:induction false} BfsScanPrefix(g: Graph, start: int, all: seq<int>, head: nat, mid: nat, d: nat, visited: set<int>, n: nat)
    requires 0 < head <= |all| && all[head - 1] in g.adj && n <= |g.adj[all[head - 1]]|
    requires BfsInner(g, start, all, head, mid, d, visited, 0)
    ensures ScanState(g, start, all, head, mid, d, visited, n)
  {
    var edges := g.adj[all[head - 1]];
    if n == 0 {
      BfsScanZero(g, start, all, head, mid, d, visited);
    } else {
      BfsScanPrefix(g, start, all, head, mid, d, visited, n - 1);
      var t := edges[n - 1].to;
      var p := Queued(g, edges[..n - 1], visited);
      if t in g.adj && t !in visited + Elems(p) {
        BfsScanTake(g, start, all, head, mid, d, visited, n);
      } else {
        BfsScanPass(g, start, all, head, mid, d, visited, n);
      }
    }
  }

  lemma BfsScanZero(g: Graph, start: int, all: seq<int>, head: nat, mid: nat, d: nat, visited: set<int>)
    requires 0 < head <= |all| && all[head - 1] in g.adj
    requires BfsInner(g, start, all, head, mid, d, visited, 0)
    ensures ScanState(g, start, all, head, mid, d, visited, 0)
  {
    var edges := g.adj[all[head - 1]];
    assert Queued(g, edges[..0], visited) == [];
    assert all + [] == all;
    assert visited + Elems([]) == visited;
  }

  /** The `n`-th edge leads to a new vertex, which is queued. */
  lemma BfsScanTake(g: Graph, start: int, all: seq<int>, head: nat, mid: nat, d: nat, visited: set<int>, n: nat)
    requires 0 < head <= |all| && all[head - 1] in g.adj && 0 < n <= |g.adj[all[head - 1]]|
    requires ScanState(g, start, all, head, mid, d, visited, n - 1)
    requires var p := Queued(g, g.adj[all[head - 1]][..n - 1], visited);
      var t := g.adj[all[head - 1]][n - 1].to;
      t in g.adj && t !in visited + Elems(p)
    ensures ScanState(g, start, all, head, mid, d, visited, n)
  {
    var edges := g.adj[all[head - 1]];
    var p := Queued(g, edges[..n - 1], visited);
    var t := edges[n - 1].to;
    var a, vis := all + p, visited + Elems(p);
    TakeShape(g, all, head, edges, n, visited);
    BfsDiscover(g, start, a, head, mid, d, vis, n, t);
    ScanStateOf(g, start, all, head, mid, d, visited, n, a + [t], vis + {t});
  }

  /** The bookkeeping of queueing the `n`-th target. */
  lemma TakeShape(g: Graph, all: seq<int>, head: nat, edges: seq<Edge>, n: nat, visited: set<int>)
    requires 0 < head <= |all| && 0 < n <= |edges|
    requires var p := Queued(g, edges[..n - 1], visited);
      var t := edges[n - 1].to;
      t in g.adj && t !in visited + Elems(p)
    ensures var p := Queued(g, edges[..n - 1], visited);
      var t := edges[n - 1].to;
      && (all + p)[head - 1] == all[head - 1]
      && (all + p) + [t] == all + Queued(g, edges[..n], visited)
      && (visited + Elems(p)) + {t} == visited + Elems(Queued(g, edges[..n], visited))
  {
    var p := Queued(g, edges[..n - 1], visited);
    var t := edges[n - 1].to;
    QueuedTake(g, edges, n, visited);
    assert (all + p) + [t] == all + (p + [t]);
  }

  /** The `n`-th edge leads outside the graph or to a visited vertex. */
  lemma BfsScanPass(g: Graph, start: int, all: seq<int>, head: nat, mid: nat, d: nat, visited: set<int>, n: nat)
    requires 0 < head <= |all| && all[head - 1] in g.adj && 0 < n <= |g.adj[all[head - 1]]|
    requires ScanState(g, start, all, head, mid, d, visited, n - 1)
    requires var p := Queued(g, g.adj[all[head - 1]][..n - 1], visited);
      var t := g.adj[all[head - 1]][n - 1].to;
      !(t in g.adj && t !in visited + Elems(p))
    ensures ScanState(g, start, all, head, mid, d, visited, n)
  {
    var edges := g.adj[all[head - 1]];
    var p := Queued(g, edges[..n - 1], visited);
    var a, vis := all + p, visited + Elems(p);
    QueuedTake(g, edges, n, visited);
    assert a[head - 1] == all[head - 1];
    BfsSkip(g, start, a, head, mid, d, vis, n);
    ScanStateOf(g, start, all, head, mid, d, visited, n, a, vis);
  }

  /** The targets queued from the first `n` edges: those of the first `n - 1`,
      and the `n`-th target when it is a vertex not seen yet. */
  lemma QueuedTake(g: Graph, edges: seq<Edge>, n: nat, visited: set<int>)
    requires 0 < n <= |edges|
    ensures var p := Queued(g, edges[..n - 1], visited);
      var t := edges[n - 1].to;
      Queued(g, edges[..n], visited) == if t in g.adj && t !in visited && t !in p then p + [t] else p
  {
    assert edges[..n][..n - 1] == edges[..n - 1] && edges[..n][n - 1] == edges[n - 1];
  }

  lemma ScanStateOf(g: Graph, start: int, all: seq<int>, head: nat, mid: nat, d: nat, visited: set<int>, n: nat,
                    a: seq<int>, vis: set<int>)
    requires 0 < head <= |all| && all[head - 1] in g.adj && n <= |g.adj[all[head - 1]]|
    requires a == all + Queued(g, g.adj[all[head - 1]][..n], visited)
    requires vis == visited + Elems(Queued(g, g.adj[all[head - 1]][..n], visited))
    requires BfsInner(g, start, a, head, mid, d, vis, n)
    ensures ScanState(g, start, all, head, mid, d, visited, n)
  {
  }

  /** The step that passes over a target outside the graph or already visited. */
  lemma BfsSkip(g: Graph, start: int, all: seq<int>, head: nat, mid: nat, d: nat, visited: set<int>, n: nat)
    requires 0 < n && BfsInner(g, start, all, head, mid, d, visited, n - 1)
    requires n <= |g.adj[all[head - 1]]|
    requires !(g.adj[all[head - 1]][n - 1].to in g.adj && g.adj[all[head - 1]][n - 1].to !in visited)
    ensures BfsInner(g, start, all, head, mid, d, visited, n)
  {
    ScannedStep(g, all[head - 1], n, visited);
  }

  lemma ScannedStep(g: Graph, u: int, n: nat, visited: set<int>)
    requires u in g.adj && 0 < n <= |g.adj[u]|
    requires Scanned(g, u, n - 1, visited)
    requires g.adj[u][n - 1].to in g.adj ==> g.adj[u][n - 1].to in visited
    ensures Scanned(g, u, n, visited)
  {
  }

  lemma BfsStart(g: Graph, start: int, q: Q.Queue<int>)
    requires Valid(g) && start in g.adj
    requires q.Valid() && q.items == [Q.QueueNode(start, Q.DefaultPriority)]
    ensures BfsLoop(g, start, q, [], {start}, [start], 1, 0)
  {
    assert [start][..1] == [start];
    assert Ids(q.items) == [start];
  }

  /** When the current level is used up, everything queued is the next level. */
  lemma BfsBump(g: Graph, start: int, all: seq<int>, mid: nat, d: nat, visited: set<int>)
    requires BfsOuter(g, start, all, mid, mid, d, visited)
    ensures BfsOuter(g, start, all, mid, |all|, d + 1, visited)
  {
    WithinGrows(g, start, d, d + 1);
    assert all[..|all|] == all;
    forall v | v in Within(g, start, d + 1)
      ensures v in all
    {
      if v !in Within(g, start, d) {
        var u, e :| u in Within(g, start, d) && u in g.adj && e in g.adj[u] && e.to in g.adj && e.to == v;
        assert u in all[..mid];
        var i :| 0 <= i < mid && all[..mid][i] == u;
      }
    }
  }

  /** Taking the front of a queue that holds `all[n..]` leaves `all[n + 1..]`. */
  lemma IdsDrop(items: seq<Q.QueueNode<int>>, all: seq<int>, n: nat)
    requires n < |all| && Ids(items) == all[n..]
    ensures items[0].data == all[n]
    ensures Ids(items[1..]) == all[n + 1..]
  {
    assert Ids(items)[0] == all[n];
  }

  lemma IdsAppend(items: seq<Q.QueueNode<int>>, node: Q.QueueNode<int>)
    ensures Ids(items + [node]) == Ids(items) + [node.data]
  {
  }

  lemma PrefixStep(s: seq<int>, n: nat)
    requires n < |s|
    ensures s[..n] + [s[n]] == s[..n + 1]
  {
  }

  /** Taking the front of the queue outputs it and starts the scan of its edges. */
  lemma BfsDequeue(g: Graph, start: int, q: Q.Queue<int>, o: seq<int>, visited: set<int>,
                   all: seq<int>, mid: nat, d: nat)
    requires BfsLoop(g, start, q, o, visited, all, mid, d) && !q.IsEmpty() && |o| < mid
    ensures var taken := Q.Dequeue(q);
      && taken.0.Some?
      && BfsReady(g, start, taken.1, o + [taken.0.value.data], visited, all, mid, d)
  {
    var head := |o|;
    IdsDrop(q.items, all, head);
    PrefixStep(all, head);
    BfsDequeueCore(g, start, all, head, mid, d, visited);
  }

  lemma BfsDequeueCore(g: Graph, start: int, all: seq<int>, head: nat, mid: nat, d: nat, visited: set<int>)
    requires BfsOuter(g, start, all, head, mid, d, visited) && head < mid
    ensures all[head] in g.adj
    ensures BfsInner(g, start, all, head + 1, mid, d, visited, 0)
  {
    assert all[head] in visited;
    assert all[..head + 1][..head] == all[..head];
  }

  /** The inner loop either visits something new or leaves the set of queued
      vertices as it was while the output grows. */
  lemma BfsScanDecreases(g: Graph, before: seq<int>, o: seq<int>, visitedBefore: set<int>, all: seq<int>, visited: set<int>)
    requires 0 < |o| <= |before| && o[|o| - 1] in g.adj
    requires all == before + Queued(g, g.adj[o[|o| - 1]], visitedBefore)
    requires visited == visitedBefore + Elems(all[|before|..])
    requires visited <= g.adj.Keys
    ensures g.adj.Keys - visited < g.adj.Keys - visitedBefore
      || (g.adj.Keys - visited == g.adj.Keys - visitedBefore && |all| - |o| < |before| - (|o| - 1))
  {
    var p := Queued(g, g.adj[o[|o| - 1]], visitedBefore);
    assert all[|before|..] == p;
    if |p| > 0 {
      assert p[0] in visited - visitedBefore;
    }
  }

  /** The step that queues the `n`-th target of the vertex being scanned. */
  lemma BfsDiscover(g: Graph, start: int, all: seq<int>, head: nat, mid: nat, d: nat, visited: set<int>, n: nat, t: int)
    requires 0 < n && BfsInner(g, start, all, head, mid, d, visited, n - 1)
    requires n <= |g.adj[all[head - 1]]| && t == g.adj[all[head - 1]][n - 1].to
    requires t in g.adj && t !in visited
    ensures BfsInner(g, start, all + [t], head, mid, d, visited + {t}, n)
  {
    DiscoverShape(g, start, all, head, mid, d, visited, n - 1);
    DiscoverLevels(g, start, all, head, mid, d, visited, n - 1);
    DiscoverScan(g, start, all, head, mid, d, visited, n - 1);
  }

  lemma DiscoverShape(g: Graph, start: int, all: seq<int>, head: nat, mid: nat, d: nat, visited: set<int>, n: nat)
    requires BfsInner(g, start, all, head, mid, d, visited, n)
    requires n < |g.adj[all[head - 1]]|
    requires g.adj[all[head - 1]][n].to in g.adj && g.adj[all[head - 1]][n].to !in visited
    ensures var t := g.adj[all[head - 1]][n].to;
      && (visited + {t} <= g.adj.Keys)
      && (forall v :: v in visited + {t} <==> v in all + [t])
      && Distinct(all + [t])
      && Discovered(g, all + [t], 0)
  {
    var u := all[head - 1];
    var e := g.adj[u][n];
    assert e in g.adj[u];
    DistinctAppend(all, e.to);
    DiscoveredAppend(g, all, e.to, head - 1);
  }

  lemma DiscoverLevels(g: Graph, start: int, all: seq<int>, head: nat, mid: nat, d: nat, visited: set<int>, n: nat)
    requires BfsInner(g, start, all, head, mid, d, visited, n)
    requires n < |g.adj[all[head - 1]]|
    requires g.adj[all[head - 1]][n].to in g.adj && g.adj[all[head - 1]][n].to !in visited
    ensures var t := g.adj[all[head - 1]][n].to;
      && HopOrdered(g, start, all + [t])
      && (forall i :: 0 <= i < mid ==> (all + [t])[i] in Within(g, start, d))
      && (forall i :: mid <= i < |all + [t]| ==> AtHop(g, start, (all + [t])[i], d + 1))
      && (forall v :: v in Within(g, start, d) ==> v in (all + [t])[..mid])
  {
    var u := all[head - 1];
    var e := g.adj[u][n];
    var t := e.to;
    assert e in g.adj[u];
    SuccStep(g, start, d, u, e);
    assert t !in all[..mid];
    assert (all + [t])[..mid] == all[..mid];
    LevelsAppend(g, start, all, mid, d, t);
  }

  lemma DiscoverScan(g: Graph, start: int, all: seq<int>, head: nat, mid: nat, d: nat, visited: set<int>, n: nat)
    requires BfsInner(g, start, all, head, mid, d, visited, n)
    requires n < |g.adj[all[head - 1]]|
    ensures var t := g.adj[all[head - 1]][n].to;
      && (all + [t])[head - 1] == all[head - 1]
      && Closed(g, (all + [t])[..head - 1], visited + {t})
      && Scanned(g, all[head - 1], n + 1, visited + {t})
  {
    var t := g.adj[all[head - 1]][n].to;
    assert (all + [t])[..head - 1] == all[..head - 1];
    ClosedGrow(g, all[..head - 1], visited, t);
  }

  /** Appending a vertex exactly `d + 1` hops away keeps the level structure
      and the hop order. */
  lemma LevelsAppend(g: Graph, start: int, all: seq<int>, mid: nat, d: nat, t: int)
    requires mid <= |all|
    requires HopOrdered(g, start, all)
    requires forall i :: 0 <= i < mid ==> all[i] in Within(g, start, d)
    requires forall i :: mid <= i < |all| ==> AtHop(g, start, all[i], d + 1)
    requires AtHop(g, start, t, d + 1)
    ensures HopOrdered(g, start, all + [t])
    ensures forall i :: 0 <= i < mid ==> (all + [t])[i] in Within(g, start, d)
    ensures forall i :: mid <= i < |all + [t]| ==> AtHop(g, start, (all + [t])[i], d + 1)
  {
    var all' := all + [t];
    forall i | mid <= i < |all'|
      ensures AtHop(g, start, all'[i], d + 1)
    {
      if i < |all| {
        assert all'[i] == all[i];
      }
    }
    forall i, j, k: nat | 0 <= i < j < |all'| && all'[j] in Within(g, start, k)
      ensures all'[i] in Within(g, start, k)
    {
      assert all'[i] == all[i];
      if j == |all| {
        AtHopMin(g, start, t, d + 1, k);
        WithinGrows(g, start, d + 1, k);
        if i < mid {
          WithinGrows(g, start, d, d + 1);
        }
      } else {
        assert all'[j] == all[j];
      }
    }
  }

  lemma BfsScanned(g: Graph, start: int, all: seq<int>, head: nat, mid: nat, d: nat, visited: set<int>)
    requires 0 < head <= |all| && all[head - 1] in g.adj
    requires BfsInner(g, start, all, head, mid, d, visited, |g.adj[all[head - 1]]|)
    ensures BfsOuter(g, start, all, head, mid, d, visited)
  {
    var o := all[..head];
    assert o[..|o| - 1] == all[..head - 1];
    forall e | e in g.adj[o[|o| - 1]] && e.to in g.adj
      ensures e.to in visited
    {
      var m :| 0 <= m < |g.adj[o[|o| - 1]]| && g.adj[o[|o| - 1]][m] == e;
    }
    ClosedExtend(g, o, visited);
  }

  /** An empty queue ends the traversal: the output is everything queued, which
      is exactly what the start reaches. */
  lemma BfsFinish(g: Graph, start: int, q: Q.Queue<int>, o: seq<int>, visited: set<int>,
                  all: seq<int>, mid: nat, d: nat)
    requires BfsLoop(g, start, q, o, visited, all, mid, d) && q.IsEmpty()
    ensures |o| > 0 && o[0] == start
    ensures Distinct(o) && Discovered(g, o, 0) && HopOrdered(g, start, o)
    ensures forall v :: v in o <==> Reachable(g, start, v)
  {
    assert |Ids(q.items)| == 0;
    assert o == all;
    assert start in visited;
    forall u, e | u in visited && u in g.adj && e in g.adj[u] && e.to in g.adj
      ensures e.to in visited
    {
      var i :| 0 <= i < |all| && all[i] == u;
    }
    ClosedHoldsReachable(g, start, visited);
    DiscoveredReachableAll(g, start, all);
  }

  lemma DiscoveredAppend(g: Graph, s: seq<int>, t: int, i: nat)
    requires Discovered(g, s, 0) && i < |s| && HasEdge(g, s[i], t)
    ensures Discovered(g, s + [t], 0)
  {
    var s' := s + [t];
    forall j | 0 < j < |s'|
      ensures HasParent(g, s', 0, j)
    {
      if j == |s| {
        assert s'[i] == s[i] && s'[j] == t;
        assert Parent(g, s', i, j);
      } else {
        assert HasParent(g, s, 0, j);
        var i' :| 0 <= i' && Parent(g, s, i', j);
        assert s'[i'] == s[i'] && s'[j] == s[j];
        assert Parent(g, s', i', j);
      }
    }
  }

  lemma DistinctAppend(s: seq<int>, t: int)
    requires Distinct(s) && t !in s
    ensures Distinct(s + [t])
  {
    forall i, j | 0 <= i < j < |s + [t]|
      ensures (s + [t])[i] != (s + [t])[j]
    {
      assert (s + [t])[i] == s[i];
      if j < |s| {
        assert (s + [t])[j] == s[j];
      }
    }
  }

  lemma ClosedGrow(g: Graph, o: seq<int>, visited: set<int>, t: int)
    requires Closed(g, o, visited)
    ensures Closed(g, o, visited + {t})
  {
  }

  lemma ClosedMonotone(g: Graph, o: seq<int>, visited: set<int>, visited': set<int>)
    requires Closed(g, o, visited) && visited <= visited'
    ensures Closed(g, o, visited')
  {
  }

  lemma ClosedExtend(g: Graph, o: seq<int>, visited: set<int>)
    requires |o| > 0 && o[|o| - 1] in g.adj
    requires Closed(g, o[..|o| - 1], visited)
    requires forall e :: e in g.adj[o[|o| - 1]] && e.to in g.adj ==> e.to in visited
    ensures Closed(g, o, visited)
  {
    forall i, e | 0 <= i < |o| && o[i] in g.adj && e in g.adj[o[i]] && e.to in g.adj
      ensures e.to in visited
    {
      if i < |o| - 1 {
        assert o[..|o| - 1][i] == o[i];
      }
    }
  }

  lemma DiscoveredReachableAll(g: Graph, start: int, o: seq<int>)
    requires Valid(g) && |o| > 0 && o[0] == start && start in g.adj
    requires Discovered(g, o, 0)
    ensures forall v :: v in o ==> Reachable(g, start, v)
  {
    forall j | 0 < j < |o|
      ensures exists i :: 0 <= i < j && HasEdge(g, o[i], o[j])
    {
      assert HasParent(g, o, 0, j);
      var i :| 0 <= i && Parent(g, o, i, j);
    }
    forall v | v in o
      ensures Reachable(g, start, v)
    {
      var n :| 0 <= n < |o| && o[n] == v;
      DiscoveredReachable(g, start, o, n);
    }
  }

  // ---- depth-first traversal ----

  /** The visited marks are exactly the vertices output so far, each once. */
  ghost predicate DfsFrame(g: Graph, o: seq<int>, visited: set<int>) {
    && visited <= g.adj.Keys
    && (forall x :: x in visited <==> x in o)
    && Distinct(o)
  }

  /** A finished visit of `v` grew the output `o` into `o'`: `v` first, every
      vertex output since has had all its edges followed, and each was reached
      over an edge from one output since. */
  ghost predicate DfsGrown(g: Graph, o: seq<int>, o': seq<int>, v: int, visited': set<int>) {
    && |o| < |o'| && o'[..|o|] == o && o'[|o|] == v
    && Closed(g, o'[|o|..], visited')
    && Discovered(g, o', |o|)
  }

  /** A visit of `v` in progress, its first `n` edges followed. */
  ghost predicate DfsInner(g: Graph, o: seq<int>, o': seq<int>, v: int, visited': set<int>, n: nat) {
    && |o| < |o'| && o'[..|o|] == o && o'[|o|] == v
    && v in g.adj && n <= |g.adj[v]|
    && Closed(g, o'[|o| + 1..], visited')
    && Scanned(g, v, n, visited')
    && Discovered(g, o', |o|)
  }

  /** The depth-first order from first principles: visiting `v` marks and
      outputs it, then visits each unmarked target of `v` in adjacency-list
      order. The result is the marks and the output afterwards. */
  ghost function DfsFrom(g: Graph, v: int, visited: set<int>, o: seq<int>): (r: (set<int>, seq<int>))
    requires v in g.adj
    ensures visited + {v} <= r.0
    decreases g.adj.Keys - (visited + {v}), 1, 0
  {
    DfsEdges(g, v, 0, visited + {v}, o + [v])
  }

  /** The rest of a visit of `v`, from its `n`-th edge on. */
  ghost function DfsEdges(g: Graph, v: int, n: nat, visited: set<int>, o: seq<int>): (r: (set<int>, seq<int>))
    requires v in g.adj && n <= |g.adj[v]|
    ensures visited <= r.0
    decreases g.adj.Keys - visited, 0, |g.adj[v]| - n
  {
    if n == |g.adj[v]| then (visited, o)
    else
      var t := g.adj[v][n].to;
      if t in g.adj && t !in visited then
        var r := DfsFrom(g, t, visited, o);
        assert t in g.adj.Keys - visited && t !in g.adj.Keys - r.0;
        DfsEdges(g, v, n + 1, r.0, r.1)
      else DfsEdges(g, v, n + 1, visited, o)
  }

  /** The depth-first order from `start`, every mark cleared. */
  ghost function DfsOrder(g: Graph, start: int): seq<int>
    requires start in g.adj
  {
    DfsFrom(g, start, {}, []).1
  }

  /** With edges 1→2, 1→3 and 2→4 listed in that order, the visit of 2 finishes
      with 4 before 3 is reached: the order is 1, 2, 4, 3, not breadth-first. */
  lemma DfsDepthFirst(g: Graph)
    requires g.adj == map[1 := [Edge(2, 1), Edge(3, 1)], 2 := [Edge(4, 1)], 3 := [], 4 := []]
    ensures DfsOrder(g, 1) == [1, 2, 4, 3]
  {
    assert g.adj[4] == [] && g.adj[3] == [] && g.adj[2][0].to == 4 && |g.adj[2]| == 1;
    assert g.adj[1][0].to == 2 && g.adj[1][1].to == 3 && |g.adj[1]| == 2;
    var a, b, c := {1, 2, 4}, [1, 2, 4], [1, 2, 4, 3];
    assert {1, 2} + {4} == a && [1, 2] + [4] == b;
    assert DfsFrom(g, 4, {1, 2}, [1, 2]) == DfsEdges(g, 4, 0, a, b) == (a, b);
    assert {1} + {2} == {1, 2} && [1] + [2] == [1, 2];
    assert DfsFrom(g, 2, {1}, [1]) == DfsEdges(g, 2, 0, {1, 2}, [1, 2]);
    assert DfsEdges(g, 2, 0, {1, 2}, [1, 2]) == DfsEdges(g, 2, 1, a, b) == (a, b);
    assert a + {3} == {1, 2, 3, 4} && b + [3] == c;
    assert DfsFrom(g, 3, a, b) == DfsEdges(g, 3, 0, {1, 2, 3, 4}, c) == ({1, 2, 3, 4}, c);
    assert {} + {1} == {1} && [] + [1] == [1];
    assert DfsOrder(g, 1) == DfsEdges(g, 1, 0, {1}, [1]).1;
    assert DfsEdges(g, 1, 0, {1}, [1]) == DfsEdges(g, 1, 1, a, b);
    assert DfsEdges(g, 1, 1, a, b) == DfsEdges(g, 1, 2, {1, 2, 3, 4}, c);
  }

  /** `DFSUtil`: mark and output `v`, then visit each unvisited target in
      adjacency-list order. */
  method DfsVisit(g: Graph, v: int, visited: set<int>, o: seq<int>) returns (visited': set<int>, o': seq<int>)
    requires Valid(g) && v in g.adj && v !in visited
    requires DfsFrame(g, o, visited)
    ensures DfsFrame(g, o', visited') && visited <= visited'
    ensures DfsGrown(g, o, o', v, visited')
    ensures (visited', o') == DfsFrom(g, v, visited, o)
    decreases g.adj.Keys - visited
  {
    DfsEnter(g, o, visited, v);
    visited', o' := visited + {v}, o + [v];
    var edges := g.adj[v];
    var n := 0;
    while n < |edges|
      invariant n <= |edges|
      invariant DfsFrame(g, o', visited') && visited + {v} <= visited'
      invariant DfsInner(g, o, o', v, visited', n)
      invariant DfsEdges(g, v, n, visited', o') == DfsFrom(g, v, visited, o)
    {
      var t := edges[n].to;
      if FindVertex(g, t).Some? && t !in visited' {
        assert g.adj.Keys - visited' < g.adj.Keys - visited by {
          assert v in g.adj.Keys - visited && v !in g.adj.Keys - visited';
        }
        var visited2, o2 := DfsVisit(g, t, visited', o');
        DfsChild(g, o, o', v, visited', n, o2, visited2);
        visited', o' := visited2, o2;
      } else {
        DfsPass(g, o, o', v, visited', n);
      }
      n := n + 1;
    }
    DfsLeave(g, o, o', v, visited');
  }

  /** `DFS`: no traversal for an absent start; otherwise a depth-first visit from
      it with every mark cleared, which outputs exactly what the start reaches. */
  method DFS(g: Graph, start: int) returns (out: Option<seq<int>>)
    requires Valid(g)
    ensures out.None? <==> start !in g.adj
    ensures out.Some? ==>
      var o := out.value;
      && |o| > 0 && o[0] == start
      && Distinct(o)
      && (forall v :: v in o <==> Reachable(g, start, v))
      && Discovered(g, o, 0)
      && o == DfsOrder(g, start)
  {
    if FindVertex(g, start).None? {
      return None;
    }
    var visited, o := DfsVisit(g, start, {}, []);
    DfsResult(g, start, o, visited);
    out := Some(o);
  }

  lemma DfsEnter(g: Graph, o: seq<int>, visited: set<int>, v: int)
    requires DfsFrame(g, o, visited) && v in g.adj && v !in visited
    ensures DfsFrame(g, o + [v], visited + {v})
    ensures DfsInner(g, o, o + [v], v, visited + {v}, 0)
  {
    DistinctAppend(o, v);
    assert (o + [v])[..|o|] == o;
    assert (o + [v])[|o| + 1..] == [];
  }

  /** After the recursive visit of the `n`-th target. */
  lemma DfsChild(g: Graph, o: seq<int>, o': seq<int>, v: int, visited': set<int>, n: nat,
                 o2: seq<int>, visited2: set<int>)
    requires DfsInner(g, o, o', v, visited', n) && n < |g.adj[v]|
    requires visited' <= visited2 && DfsFrame(g, o2, visited2)
    requires DfsGrown(g, o', o2, g.adj[v][n].to, visited2)
    ensures DfsInner(g, o, o2, v, visited2, n + 1)
  {
    var t := g.adj[v][n].to;
    assert t in visited2 by {
      assert o2[|o'|] == t;
    }
    assert o2[..|o|] == o2[..|o'|][..|o|];
    assert o2[|o|] == o'[|o|];
    ClosedMonotone(g, o'[|o| + 1..], visited', visited2);
    DfsClosedJoin(g, o'[|o| + 1..], o2[|o'|..], visited2);
    assert o2[|o| + 1..] == o'[|o| + 1..] + o2[|o'|..];
    DfsDiscoveredJoin(g, o, o', v, n, o2);
  }

  lemma DfsClosedJoin(g: Graph, a: seq<int>, b: seq<int>, visited: set<int>)
    requires Closed(g, a, visited) && Closed(g, b, visited)
    ensures Closed(g, a + b, visited)
  {
    forall i, e | 0 <= i < |a + b| && (a + b)[i] in g.adj && e in g.adj[(a + b)[i]] && e.to in g.adj
      ensures e.to in visited
    {
      if i < |a| {
        assert (a + b)[i] == a[i];
      } else {
        assert (a + b)[i] == b[i - |a|];
      }
    }
  }

  lemma DfsDiscoveredJoin(g: Graph, o: seq<int>, o': seq<int>, v: int, n: nat, o2: seq<int>)
    requires v in g.adj && n < |g.adj[v]|
    requires |o| < |o'| < |o2| && o2[..|o'|] == o' && o'[|o|] == v && o2[|o'|] == g.adj[v][n].to
    requires Discovered(g, o', |o|) && Discovered(g, o2, |o'|)
    ensures Discovered(g, o2, |o|)
  {
    forall j | |o| < j < |o2|
      ensures HasParent(g, o2, |o|, j)
    {
      if j < |o'| {
        assert HasParent(g, o', |o|, j);
        var i :| |o| <= i && Parent(g, o', i, j);
        assert o2[i] == o'[i] && o2[j] == o'[j];
        assert Parent(g, o2, i, j);
      } else if j == |o'| {
        assert o2[|o|] == v;
        assert g.adj[v][n] in g.adj[v];
        assert Parent(g, o2, |o|, j);
      } else {
        assert HasParent(g, o2, |o'|, j);
        var i :| |o'| <= i && Parent(g, o2, i, j);
      }
    }
  }

  /** Passing over a target outside the graph or already visited. */
  lemma DfsPass(g: Graph, o: seq<int>, o': seq<int>, v: int, visited': set<int>, n: nat)
    requires DfsInner(g, o, o', v, visited', n) && n < |g.adj[v]|
    requires !(g.adj[v][n].to in g.adj && g.adj[v][n].to !in visited')
    ensures DfsInner(g, o, o', v, visited', n + 1)
  {
  }

  lemma DfsLeave(g: Graph, o: seq<int>, o': seq<int>, v: int, visited': set<int>)
    requires v in g.adj && DfsInner(g, o, o', v, visited', |g.adj[v]|)
    ensures DfsGrown(g, o, o', v, visited')
  {
    var s := o'[|o|..];
    assert s[0] == v && s[1..] == o'[|o| + 1..];
    forall i, e | 0 <= i < |s| && s[i] in g.adj && e in g.adj[s[i]] && e.to in g.adj
      ensures e.to in visited'
    {
      if i == 0 {
        var m :| 0 <= m < |g.adj[v]| && g.adj[v][m] == e;
      } else {
        assert s[i] == o'[|o| + 1..][i - 1];
      }
    }
  }

  lemma DfsResult(g: Graph, start: int, o: seq<int>, visited: set<int>)
    requires Valid(g) && start in g.adj
    requires DfsFrame(g, o, visited) && DfsGrown(g, [], o, start, visited)
    ensures |o| > 0 && o[0] == start
    ensures forall v :: v in o <==> Reachable(g, start, v)
  {
    assert o[0..] == o;
    forall u, e | u in visited && u in g.adj && e in g.adj[u] && e.to in g.adj
      ensures e.to in visited
    {
      var i :| 0 <= i < |o| && o[i] == u;
    }
    ClosedHoldsReachable(g, start, visited);
    DiscoveredReachableAll(g, start, o);
  }
}
