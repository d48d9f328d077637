/**
  `Graph`: the road network. The original keeps a singly-linked vertex list
  (newest vertex first), and every vertex owns a singly-linked adjacency list
  (newest edge first). Here the vertex list is `order`, the adjacency lists are a
  map from vertex id to edges, and the per-run `visited`/`distFromSource` fields
  live in the algorithms instead of on the vertices.
 */
module Graph {
  import opened Wrappers

  /** `GraphEdgeNode`: a directed edge to `to` with a weight, owned by its source. */
  datatype Edge = Edge(to: int, weight: int)

  datatype Graph = Graph(order: seq<int>, names: map<int, string>, adj: map<int, seq<Edge>>, numVertices: int)

  /** What an edit reports; the original prints the error and returns. */
  datatype Outcome = Done | DuplicateVertex | UnknownVertex

  ghost predicate Distinct(s: seq<int>) {
    forall i, j :: 0 <= i < j < |s| ==> s[i] != s[j]
  }

  /** Ids are unique, the vertex list, the names and the adjacency lists cover the
      same vertices, `numVertices` counts them, and every edge ends at a vertex. */
  ghost predicate Valid(g: Graph) {
    && g.numVertices == |g.order|
    && Distinct(g.order)
    && (forall v :: v in g.adj <==> v in g.order)
    && g.names.Keys == g.adj.Keys
    && (forall v, e :: v in g.adj && e in g.adj[v] ==> e.to in g.adj)
  }

  /** The graph of the default constructor: no vertices. */
  function EmptyGraph(): (g: Graph)
    ensures Valid(g) && g.adj == map[]
  {
    Graph([], map[], map[], 0)
  }

  /** Position of the first occurrence of `id` in a vertex list. */
  function IndexOf(s: seq<int>, id: int): (r: Option<nat>)
    ensures r.Some? ==> r.value < |s| && s[r.value] == id
    ensures r.Some? ==> forall j :: 0 <= j < r.value ==> s[j] != id
    ensures r.None? <==> id !in s
  {
    if |s| == 0 then None
    else if s[0] == id then Some(0)
    else
      match IndexOf(s[1..], id)
      case None => None
      case Some(i) => Some(i + 1)
  }

  /** `findVertex`: walk the vertex list from its head and return the first
      vertex whose id matches, or NULL. The graph is not changed. */
  function FindVertex(g: Graph, id: int): (r: Option<nat>)
    requires Valid(g)
    ensures r.Some? ==> r.value < |g.order| && g.order[r.value] == id && id in g.adj
    ensures r.Some? ==> forall j :: 0 <= j < r.value ==> g.order[j] != id
    ensures r.None? <==> id !in g.adj
  {
    IndexOf(g.order, id)
  }

  /** `addVertex`: refuse an id that already exists; otherwise put a new vertex,
      with no edges, at the head of the vertex list and count it. */
  function AddVertex(g: Graph, id: int, name: string): (r: (Graph, Outcome))
    requires Valid(g)
    ensures Valid(r.0)
    ensures r.1 == DuplicateVertex <==> id in g.adj
    ensures r.1 != DuplicateVertex ==> r.1 == Done
    ensures id in g.adj ==> r.0 == g
    ensures id !in g.adj ==>
      && r.0.order == [id] + g.order
      && r.0.numVertices == g.numVertices + 1
      && r.0.adj == g.adj[id := []]
      && r.0.names == g.names[id := name]
  {
    if FindVertex(g, id).Some? then (g, DuplicateVertex)
    else
      var g' := Graph([id] + g.order, g.names[id := name], g.adj[id := []], g.numVertices + 1);
      assert forall v :: v in g'.adj <==> v in g'.order;
      (g', Done)
  }

  /** `addEdge`: refuse unless both endpoints exist; otherwise put one edge at the
      head of the source's adjacency list. The weight is not checked and no
      reverse edge is added. */
  function AddEdge(g: Graph, from: int, to: int, weight: int): (r: (Graph, Outcome))
    requires Valid(g)
    ensures Valid(r.0)
    ensures r.1 == UnknownVertex <==> from !in g.adj || to !in g.adj
    ensures r.1 != UnknownVertex ==> r.1 == Done
    ensures from !in g.adj || to !in g.adj ==> r.0 == g
    ensures from in g.adj && to in g.adj ==>
      && r.0.adj.Keys == g.adj.Keys
      && r.0.adj[from] == [Edge(to, weight)] + g.adj[from]
      && (forall v :: v in g.adj && v != from ==> r.0.adj[v] == g.adj[v])
      && r.0.order == g.order && r.0.names == g.names && r.0.numVertices == g.numVertices
  {
    if FindVertex(g, from).None? || FindVertex(g, to).None? then (g, UnknownVertex)
    else (g.(adj := g.adj[from := [Edge(to, weight)] + g.adj[from]]), Done)
  }

  /** Adding a vertex twice: the second call reports the duplicate and changes nothing. */
  lemma AddVertexTwice(g: Graph, id: int, name: string, name': string)
    requires Valid(g)
    ensures var g1 := AddVertex(g, id, name).0;
      AddVertex(g1, id, name') == (g1, DuplicateVertex)
  {
  }

  /** An edge from `u` to `v` exists. */
  ghost predicate HasEdge(g: Graph, u: int, v: int) {
    u in g.adj && exists e :: e in g.adj[u] && e.to == v
  }

  ghost predicate NonNegativeWeights(g: Graph) {
    forall v, e :: v in g.adj && e in g.adj[v] ==> e.weight >= 0
  }

  // ---- reachability by hops ----

  /** The vertices one edge away from the set `s`. */
  ghost function Succ(g: Graph, s: set<int>): set<int> {
    set u, e | u in s && u in g.adj && e in g.adj[u] && e.to in g.adj :: e.to
  }

  /** The vertices reachable from `start` in at most `k` edges. */
  ghost function Within(g: Graph, start: int, k: nat): set<int> {
    if k == 0 then {start} else Within(g, start, k - 1) + Succ(g, Within(g, start, k - 1))
  }

  ghost predicate Reachable(g: Graph, start: int, v: int) {
    exists k :: v in Within(g, start, k)
  }

  /** `v` is exactly `k` hops from `start`. */
  ghost predicate AtHop(g: Graph, start: int, v: int, k: nat) {
    v in Within(g, start, k) && (k == 0 || v !in Within(g, start, k - 1))
  }

  lemma {:induction false} WithinGrows(g: Graph, start: int, i: nat, j: nat)
    requires i <= j
    ensures Within(g, start, i) <= Within(g, start, j)
    decreases j - i
  {
    if i < j {
      WithinGrows(g, start, i, j - 1);
    }
  }

  /** A vertex exactly `d` hops away is in no `Within(k)` with `k < d`. */
  lemma AtHopMin(g: Graph, start: int, v: int, d: nat, k: nat)
    requires AtHop(g, start, v, d) && v in Within(g, start, k)
    ensures d <= k
  {
    if k < d {
      WithinGrows(g, start, k, d - 1);
    }
  }

  lemma SuccStep(g: Graph, start: int, k: nat, u: int, e: Edge)
    requires u in Within(g, start, k) && u in g.adj && e in g.adj[u] && e.to in g.adj
    ensures e.to in Within(g, start, k + 1)
  {
    assert e.to in Succ(g, Within(g, start, k));
  }

  /** A set that holds `start` and is closed under edges holds everything
      reachable from `start`. */
  lemma {:induction false} ClosedHoldsWithin(g: Graph, start: int, c: set<int>, k: nat)
    requires start in c
    requires forall u, e :: u in c && u in g.adj && e in g.adj[u] && e.to in g.adj ==> e.to in c
    ensures Within(g, start, k) <= c
  {
    if k > 0 {
      ClosedHoldsWithin(g, start, c, k - 1);
    }
  }

  lemma ClosedHoldsReachable(g: Graph, start: int, c: set<int>)
    requires start in c
    requires forall u, e :: u in c && u in g.adj && e in g.adj[u] && e.to in g.adj ==> e.to in c
    ensures forall v :: Reachable(g, start, v) ==> v in c
  {
    forall v | Reachable(g, start, v)
      ensures v in c
    {
      var k :| v in Within(g, start, k);
      ClosedHoldsWithin(g, start, c, k);
    }
  }

  /** Hops from a vertex stay inside the graph. */
  lemma {:induction false} WithinVertices(g: Graph, start: int, k: nat)
    requires start in g.adj
    ensures Within(g, start, k) <= g.adj.Keys
  {
    if k > 0 {
      WithinVertices(g, start, k - 1);
    }
  }

  /** A sequence that starts at `start` and in which every later element has an
      edge into it from an earlier one contains only reachable vertices. */
  lemma {:induction false} DiscoveredReachable(g: Graph, start: int, o: seq<int>, n: nat)
    requires Valid(g) && |o| > 0 && o[0] == start && start in g.adj && n < |o|
    requires forall j :: 0 < j < |o| ==> exists i :: 0 <= i < j && HasEdge(g, o[i], o[j])
    ensures Reachable(g, start, o[n])
    decreases n
  {
    if n == 0 {
      assert o[0] in Within(g, start, 0);
    } else {
      var i :| 0 <= i < n && HasEdge(g, o[i], o[n]);
      DiscoveredReachable(g, start, o, i);
      var k :| o[i] in Within(g, start, k);
      var e :| e in g.adj[o[i]] && e.to == o[n];
      SuccStep(g, start, k, o[i], e);
    }
  }

  // ---- weighted walks ----

  /** `vs` is a walk along edges whose weights are `ws`, one per step. */
  ghost predicate IsWalk(g: Graph, vs: seq<int>, ws: seq<int>) {
    && |vs| == |ws| + 1
    && forall i :: 0 <= i < |ws| ==> vs[i] in g.adj && Edge(vs[i + 1], ws[i]) in g.adj[vs[i]]
  }

  function Sum(ws: seq<int>): int {
    if |ws| == 0 then 0 else Sum(ws[..|ws| - 1]) + ws[|ws| - 1]
  }

  /** Some walk from `start` to `v` weighs `d`. */
  ghost predicate WalkOfWeight(g: Graph, start: int, v: int, d: int) {
    exists vs, ws :: IsWalk(g, vs, ws) && vs[0] == start && vs[|vs| - 1] == v && Sum(ws) == d
  }

  /** A walk of `n` steps stays within `n` hops. */
  lemma {:induction false} WalkWithin(g: Graph, vs: seq<int>, ws: seq<int>, n: nat)
    requires Valid(g) && IsWalk(g, vs, ws) && n <= |ws| && vs[0] in g.adj
    ensures vs[n] in Within(g, vs[0], n)
  {
    if n > 0 {
      WalkWithin(g, vs, ws, n - 1);
      SuccStep(g, vs[0], n - 1, vs[n - 1], Edge(vs[n], ws[n - 1]));
    }
  }

  lemma WalkReachable(g: Graph, start: int, vs: seq<int>, ws: seq<int>)
    requires Valid(g) && IsWalk(g, vs, ws) && vs[0] == start && start in g.adj
    ensures Reachable(g, start, vs[|vs| - 1])
  {
    WalkWithin(g, vs, ws, |ws|);
  }
}
