/**
  `Graph::Dijkstra`: single-source shortest distances over the road network,
  with the sorted frontier list of `sortedInsertDijkstra` as the priority queue.
  A vertex is settled the first time it leaves the frontier; entries for settled
  vertices are dropped when they come up again. The original keeps
  `distFromSource` and `visited` on the vertices and prints the table at the
  end; here they are the map `dist` and the set `settled`, and the table is the
  returned map.
 */
module ShortestPath {
  import opened Wrappers
  import opened Graph
  import opened Frontier

  /** A tentative distance: `Inf` stands for the original's 2147483647 sentinel,
      printed as unreachable. */
  datatype Dist = Inf | Fin(d: int)

  /** `newDist < v->distFromSource`, with the sentinel above every distance. */
  predicate Improves(nd: int, cur: Dist) {
    cur.Inf? || nd < cur.d
  }

  /** Step 1 of `Dijkstra`: zero for the start, the sentinel for every other vertex. */
  function InitialDistances(g: Graph, start: int): (dist: map<int, Dist>)
    ensures dist.Keys == g.adj.Keys
    ensures forall v :: v in dist ==> (dist[v].Fin? <==> v == start)
    ensures start in dist ==> dist[start] == Fin(0)
  {
    map v | v in g.adj :: if v == start then Fin(0) else Inf
  }

  // ---- the loop invariant, in parts ----

  /** Distances cover the vertices, the start keeps distance zero, settled
      vertices have finite distances, and before anything is settled the
      frontier holds just the start. */
  ghost predicate Shape(g: Graph, start: int, settled: set<int>, dist: map<int, Dist>, f: seq<Entry>) {
    && Valid(g) && start in g.adj
    && dist.Keys == g.adj.Keys
    && settled <= g.adj.Keys
    && Sorted(f)
    && dist[start] == Fin(0)
    && (settled == {} ==> f == [Entry(start, 0)])
    && (settled != {} ==> start in settled)
    && (forall v :: v in settled ==> dist[v].Fin?)
  }

  /** Every entry is for a vertex with a finite distance no larger than the
      entry's, and every unsettled vertex with a finite distance has an entry
      carrying exactly that distance. */
  ghost predicate Covered(settled: set<int>, dist: map<int, Dist>, f: seq<Entry>) {
    && (forall i :: 0 <= i < |f| ==> f[i].vertex in dist && dist[f[i].vertex].Fin? && dist[f[i].vertex].d <= f[i].distance)
    && (forall v :: v in dist && v !in settled && dist[v].Fin? ==> Entry(v, dist[v].d) in f)
  }

  /** Every finite distance is the weight of a walk from the start. */
  ghost predicate Sound(g: Graph, start: int, dist: map<int, Dist>) {
    forall v :: v in dist && dist[v].Fin? ==> WalkOfWeight(g, start, v, dist[v].d)
  }

  /** The first `n` edges out of `u` end at finite distances, and with
      non-negative weights no further than through `u`. */
  ghost predicate Relaxed(g: Graph, dist: map<int, Dist>, u: int, n: nat) {
    && u in g.adj && u in dist && dist[u].Fin? && n <= |g.adj[u]|
    && forall m :: 0 <= m < n ==>
         g.adj[u][m].to in dist && dist[g.adj[u][m].to].Fin?
         && (NonNegativeWeights(g) ==> dist[g.adj[u][m].to].d <= dist[u].d + g.adj[u][m].weight)
  }

  /** Every settled vertex other than `except` has had all its edges relaxed. */
  ghost predicate Settled(g: Graph, settled: set<int>, dist: map<int, Dist>, except: Option<int>) {
    forall s :: s in settled && Some(s) != except ==> s in g.adj && Relaxed(g, dist, s, |g.adj[s]|)
  }

  /** With non-negative weights, settled distances are at most `bound` and at
      most every distance in the frontier. */
  ghost predicate Ordered(g: Graph, settled: set<int>, dist: map<int, Dist>, f: seq<Entry>, bound: Dist) {
    NonNegativeWeights(g) ==>
      && (forall s, i :: s in settled && s in dist && dist[s].Fin? && 0 <= i < |f| ==> dist[s].d <= f[i].distance)
      && (bound.Fin? ==> forall s :: s in settled && s in dist && dist[s].Fin? ==> dist[s].d <= bound.d)
  }

  /** Between iterations of the outer loop. */
  ghost predicate Outer(g: Graph, start: int, settled: set<int>, dist: map<int, Dist>, f: seq<Entry>) {
    && Shape(g, start, settled, dist, f)
    && Covered(settled, dist, f)
    && Sound(g, start, dist)
    && Settled(g, settled, dist, None)
    && Ordered(g, settled, dist, f, Inf)
  }

  /** While the edges of the just-settled `u` are relaxed, `n` of them so far. */
  ghost predicate Inner(g: Graph, start: int, settled: set<int>, dist: map<int, Dist>, f: seq<Entry>, u: int, n: nat) {
    && Shape(g, start, settled, dist, f)
    && u in settled
    && Covered(settled, dist, f)
    && Sound(g, start, dist)
    && Settled(g, settled, dist, Some(u))
    && Relaxed(g, dist, u, n)
    && Ordered(g, settled, dist, f, dist[u])
  }

  /** The distance table is the shortest-path table: it covers the vertices,
      is finite exactly on what the start reaches, every finite entry is the
      weight of some walk, and with non-negative weights no walk is shorter. */
  ghost predicate ShortestTable(g: Graph, start: int, dist: map<int, Dist>) {
    && dist.Keys == g.adj.Keys
    && start in dist && dist[start] == Fin(0)
    && (forall v :: v in dist ==> (dist[v].Fin? <==> Reachable(g, start, v)))
    && Sound(g, start, dist)
    && (NonNegativeWeights(g) ==> Optimal(g, start, dist))
  }

  /** No walk from the start is lighter than the distance where it ends. */
  ghost predicate Optimal(g: Graph, start: int, dist: map<int, Dist>) {
    forall vs, ws :: IsWalk(g, vs, ws) && vs[0] == start && vs[|vs| - 1] in dist ==>
      dist[vs[|vs| - 1]].Fin? && dist[vs[|vs| - 1]].d <= Sum(ws)
  }

  // ---- the algorithm ----

  /** `Dijkstra`: no table for an absent start; otherwise the table of shortest
      distances from it. */
  method Dijkstra(g: Graph, start: int) returns (out: Option<map<int, Dist>>)
    requires Valid(g)
    ensures out.None? <==> start !in g.adj
    ensures out.Some? ==> ShortestTable(g, start, out.value)
  {
    if FindVertex(g, start).None? {
      return None;
    }
    var dist := InitialDistances(g, start);
    var f := SortedInsert([], Entry(start, 0));
    var settled: set<int> := {};
    Begin(g, start, dist, f);
    while f != []
      invariant Outer(g, start, settled, dist, f)
      decreases g.adj.Keys - settled, |f|
    {
      var head := f[0];
      var u := head.vertex;
      if FindVertex(g, u).None? || u in settled {
        SkipStale(g, start, settled, dist, f);
        f := f[1..];
        continue;
      }
      Settle(g, start, settled, dist, f);
      settled, f := settled + {u}, f[1..];
      dist, f := RelaxAll(g, start, settled, dist, f, u);
    }
    Finish(g, start, settled, dist);
    out := Some(dist);
  }

  /** The edge loop of `Dijkstra`: for every edge out of `u` to an unsettled
      vertex, lower its distance through `u` when that is shorter and queue it
      with the new distance. */
  method RelaxAll(g: Graph, ghost start: int, settled: set<int>, dist: map<int, Dist>, f: seq<Entry>, u: int)
    returns (dist': map<int, Dist>, f': seq<Entry>)
    requires Inner(g, start, settled, dist, f, u, 0)
    ensures Outer(g, start, settled, dist', f')
  {
    dist', f' := dist, f;
    var du := dist[u].d;
    var edges := g.adj[u];
    var n := 0;
    while n < |edges|
      invariant n <= |edges|
      invariant Inner(g, start, settled, dist', f', u, n) && dist'[u] == Fin(du)
    {
      var t := edges[n].to;
      var nd := du + edges[n].weight;
      if FindVertex(g, t).Some? && t !in settled && Improves(nd, dist'[t]) {
        Lower(g, start, settled, dist', f', u, n, t, nd);
        dist', f' := dist'[t := Fin(nd)], SortedInsert(f', Entry(t, nd));
      } else {
        Keep(g, start, settled, dist', f', u, n);
      }
      n := n + 1;
    }
    Done(g, start, settled, dist', f', u);
  }

  // ---- the steps ----

  lemma Begin(g: Graph, start: int, dist: map<int, Dist>, f: seq<Entry>)
    requires Valid(g) && start in g.adj
    requires dist == InitialDistances(g, start) && f == SortedInsert([], Entry(start, 0))
    ensures Outer(g, start, {}, dist, f)
  {
    assert f == [Entry(start, 0)];
    var vs, ws := [start], [];
    assert IsWalk(g, vs, ws) && Sum(ws) == 0;
    assert WalkOfWeight(g, start, start, 0);
  }

  /** Dropping a head entry whose vertex is missing or already settled. */
  lemma SkipStale(g: Graph, start: int, settled: set<int>, dist: map<int, Dist>, f: seq<Entry>)
    requires Outer(g, start, settled, dist, f) && f != []
    requires f[0].vertex !in g.adj || f[0].vertex in settled
    ensures Outer(g, start, settled, dist, f[1..])
  {
    assert settled != {};
    assert settled + {f[0].vertex} == settled;
    CoveredTail(settled, dist, f);
    SortedTail(f);
    OrderedTail(g, settled, dist, f);
  }

  /** Dropping the head entry, whose vertex counts as settled from now on. */
  lemma CoveredTail(settled: set<int>, dist: map<int, Dist>, f: seq<Entry>)
    requires Covered(settled, dist, f) && f != []
    ensures Covered(settled + {f[0].vertex}, dist, f[1..])
  {
    var f' := f[1..];
    forall v | v in dist && v !in settled + {f[0].vertex} && dist[v].Fin?
      ensures Entry(v, dist[v].d) in f'
    {
      var i :| 0 <= i < |f| && f[i] == Entry(v, dist[v].d);
      assert i != 0;
      assert f'[i - 1] == f[i];
    }
    forall i | 0 <= i < |f'|
      ensures f'[i].vertex in dist && dist[f'[i].vertex].Fin? && dist[f'[i].vertex].d <= f'[i].distance
    {
      assert f'[i] == f[i + 1];
    }
  }

  lemma OrderedTail(g: Graph, settled: set<int>, dist: map<int, Dist>, f: seq<Entry>)
    requires Ordered(g, settled, dist, f, Inf) && f != []
    ensures Ordered(g, settled, dist, f[1..], Inf)
  {
    if NonNegativeWeights(g) {
      forall s, i | s in settled && s in dist && dist[s].Fin? && 0 <= i < |f| - 1
        ensures dist[s].d <= f[1..][i].distance
      {
        assert f[1..][i] == f[i + 1];
      }
    }
  }

  /** Taking an unsettled vertex off the head settles it; its entry carries
      exactly its distance, which bounds every settled distance. */
  lemma Settle(g: Graph, start: int, settled: set<int>, dist: map<int, Dist>, f: seq<Entry>)
    requires Outer(g, start, settled, dist, f) && f != []
    requires f[0].vertex in g.adj && f[0].vertex !in settled
    ensures dist[f[0].vertex] == Fin(f[0].distance)
    ensures Inner(g, start, settled + {f[0].vertex}, dist, f[1..], f[0].vertex, 0)
  {
    var u := f[0].vertex;
    SettleHead(settled, dist, f);
    if settled == {} {
      assert f == [Entry(start, 0)];
    }
    CoveredTail(settled, dist, f);
    SortedTail(f);
    SettleOrdered(g, settled, dist, f);
  }

  /** The head of a sorted frontier carries the exact distance of its vertex
      when that vertex is unsettled. */
  lemma SettleHead(settled: set<int>, dist: map<int, Dist>, f: seq<Entry>)
    requires Covered(settled, dist, f) && Sorted(f) && f != []
    requires f[0].vertex !in settled
    ensures dist[f[0].vertex] == Fin(f[0].distance)
  {
    var u := f[0].vertex;
    assert Entry(u, dist[u].d) in f;
    var j :| 0 <= j < |f| && f[j] == Entry(u, dist[u].d);
    assert f[0].distance <= f[j].distance;
  }

  lemma SettleOrdered(g: Graph, settled: set<int>, dist: map<int, Dist>, f: seq<Entry>)
    requires Ordered(g, settled, dist, f, Inf) && Sorted(f) && f != []
    requires f[0].vertex in dist && dist[f[0].vertex] == Fin(f[0].distance)
    ensures Ordered(g, settled + {f[0].vertex}, dist, f[1..], dist[f[0].vertex])
  {
    var settled' := settled + {f[0].vertex};
    if NonNegativeWeights(g) {
      forall s, i | s in settled' && s in dist && dist[s].Fin? && 0 <= i < |f| - 1
        ensures dist[s].d <= f[1..][i].distance
      {
        assert f[1..][i] == f[i + 1];
        assert f[0].distance <= f[i + 1].distance;
      }
    }
  }

  /** Lowering the distance of the `n`-th target `t` of `u` to `nd` and queueing it. */
  lemma Lower(g: Graph, start: int, settled: set<int>, dist: map<int, Dist>, f: seq<Entry>, u: int, n: nat, t: int, nd: int)
    requires Inner(g, start, settled, dist, f, u, n) && n < |g.adj[u]|
    requires t == g.adj[u][n].to && nd == dist[u].d + g.adj[u][n].weight
    requires t in g.adj && t !in settled && Improves(nd, dist[t])
    ensures dist[t := Fin(nd)][u] == dist[u]
    ensures Inner(g, start, settled, dist[t := Fin(nd)], SortedInsert(f, Entry(t, nd)), u, n + 1)
  {
    var e := g.adj[u][n];
    assert e in g.adj[u];
    LowerShape(g, start, settled, dist, f, u, t, nd);
    LowerCovered(settled, dist, f, t, nd);
    LowerSound(g, start, dist, u, e, t, nd);
    LowerSettled(g, settled, dist, u, n, t, nd);
    LowerOrdered(g, settled, dist, f, u, e, t, nd);
  }

  lemma LowerShape(g: Graph, start: int, settled: set<int>, dist: map<int, Dist>, f: seq<Entry>, u: int, t: int, nd: int)
    requires Shape(g, start, settled, dist, f) && u in settled
    requires t in g.adj && t !in settled
    ensures Shape(g, start, settled, dist[t := Fin(nd)], SortedInsert(f, Entry(t, nd)))
  {
    SortedInsertSorted(f, Entry(t, nd));
  }

  lemma LowerCovered(settled: set<int>, dist: map<int, Dist>, f: seq<Entry>, t: int, nd: int)
    requires Covered(settled, dist, f)
    requires t in dist && Improves(nd, dist[t])
    ensures Covered(settled, dist[t := Fin(nd)], SortedInsert(f, Entry(t, nd)))
  {
    var dist' := dist[t := Fin(nd)];
    var f' := SortedInsert(f, Entry(t, nd));
    SortedInsertMembers(f, Entry(t, nd));
    LowerEntries(dist, f, f', t, nd);
    forall v | v in dist' && v !in settled && dist'[v].Fin?
      ensures Entry(v, dist'[v].d) in f'
    {
      if v != t {
        assert Entry(v, dist[v].d) in f;
      }
    }
  }

  /** After lowering `t` to `nd`, every entry of the new frontier is still no
      closer than its vertex's distance. */
  lemma LowerEntries(dist: map<int, Dist>, f: seq<Entry>, f': seq<Entry>, t: int, nd: int)
    requires forall i :: 0 <= i < |f| ==> f[i].vertex in dist && dist[f[i].vertex].Fin? && dist[f[i].vertex].d <= f[i].distance
    requires t in dist && Improves(nd, dist[t])
    requires forall y :: y in f' <==> y == Entry(t, nd) || y in f
    ensures var dist' := dist[t := Fin(nd)];
      forall i :: 0 <= i < |f'| ==> f'[i].vertex in dist' && dist'[f'[i].vertex].Fin? && dist'[f'[i].vertex].d <= f'[i].distance
  {
    var dist' := dist[t := Fin(nd)];
    forall i | 0 <= i < |f'|
      ensures f'[i].vertex in dist' && dist'[f'[i].vertex].Fin? && dist'[f'[i].vertex].d <= f'[i].distance
    {
      assert f'[i] in f';
      if f'[i] != Entry(t, nd) {
        var j :| 0 <= j < |f| && f[j] == f'[i];
      }
    }
  }

  lemma LowerSound(g: Graph, start: int, dist: map<int, Dist>, u: int, e: Edge, t: int, nd: int)
    requires Sound(g, start, dist) && u in g.adj && u in dist && dist[u].Fin? && e in g.adj[u]
    requires t == e.to && nd == dist[u].d + e.weight
    ensures Sound(g, start, dist[t := Fin(nd)])
  {
    WalkExtend(g, start, u, dist[u].d, e);
  }

  lemma LowerSettled(g: Graph, settled: set<int>, dist: map<int, Dist>, u: int, n: nat, t: int, nd: int)
    requires Settled(g, settled, dist, Some(u)) && Relaxed(g, dist, u, n) && u in settled && n < |g.adj[u]|
    requires t == g.adj[u][n].to && nd == dist[u].d + g.adj[u][n].weight
    requires t in dist && t !in settled && Improves(nd, dist[t])
    ensures Settled(g, settled, dist[t := Fin(nd)], Some(u)) && Relaxed(g, dist[t := Fin(nd)], u, n + 1)
  {
    var dist' := dist[t := Fin(nd)];
    forall s | s in settled
      ensures Lowered(dist, dist', s)
    {
    }
    forall s | s in settled && Some(s) != Some(u)
      ensures s in g.adj && Relaxed(g, dist', s, |g.adj[s]|)
    {
      RelaxedLowered(g, dist, dist', s, |g.adj[s]|);
    }
    RelaxedLowered(g, dist, dist', u, n);
  }

  lemma LowerOrdered(g: Graph, settled: set<int>, dist: map<int, Dist>, f: seq<Entry>, u: int, e: Edge, t: int, nd: int)
    requires u in g.adj && e in g.adj[u] && u in dist && dist[u].Fin? && e.to !in settled
    requires t == e.to && nd == dist[u].d + e.weight
    requires Ordered(g, settled, dist, f, dist[u])
    ensures Ordered(g, settled, dist[t := Fin(nd)], SortedInsert(f, Entry(t, nd)), dist[u])
  {
    var dist' := dist[t := Fin(nd)];
    var f' := SortedInsert(f, Entry(t, nd));
    if NonNegativeWeights(g) {
      assert e.weight >= 0;
      forall s | s in settled && s in dist' && dist'[s].Fin?
        ensures forall i :: 0 <= i < |f'| ==> dist'[s].d <= f'[i].distance
      {
        assert dist'[s] == dist[s];
        SortedInsertBounded(f, Entry(t, nd), dist[s].d);
      }
    }
  }

  /** Passing over the `n`-th target of `u`: missing, settled, or no shorter. */
  lemma Keep(g: Graph, start: int, settled: set<int>, dist: map<int, Dist>, f: seq<Entry>, u: int, n: nat)
    requires Inner(g, start, settled, dist, f, u, n) && n < |g.adj[u]|
    requires var e := g.adj[u][n];
      !(e.to in g.adj && e.to !in settled && Improves(dist[u].d + e.weight, dist[e.to]))
    ensures Inner(g, start, settled, dist, f, u, n + 1)
  {
    var e := g.adj[u][n];
    assert e in g.adj[u];
    if NonNegativeWeights(g) {
      assert e.weight >= 0;
    }
  }

  /** All edges of `u` relaxed: back to the outer invariant. */
  lemma Done(g: Graph, start: int, settled: set<int>, dist: map<int, Dist>, f: seq<Entry>, u: int)
    requires u in g.adj && Inner(g, start, settled, dist, f, u, |g.adj[u]|)
    ensures Outer(g, start, settled, dist, f)
  {
  }

  /** An empty frontier: every finite distance is settled, the settled set is
      closed under edges, and the table is the shortest-path table. */
  lemma Finish(g: Graph, start: int, settled: set<int>, dist: map<int, Dist>)
    requires Outer(g, start, settled, dist, [])
    ensures ShortestTable(g, start, dist)
  {
    FinishSettled(g, start, settled, dist);
    FinishReachable(g, start, settled, dist);
    if NonNegativeWeights(g) {
      forall vs, ws | IsWalk(g, vs, ws) && vs[0] == start && vs[|vs| - 1] in dist
        ensures dist[vs[|vs| - 1]].Fin? && dist[vs[|vs| - 1]].d <= Sum(ws)
      {
        NoShorterWalk(g, start, settled, dist, vs, ws, |ws|);
        assert ws[..|ws|] == ws;
      }
    }
  }

  /** With nothing left in the frontier, the finite distances are the settled ones. */
  lemma FinishSettled(g: Graph, start: int, settled: set<int>, dist: map<int, Dist>)
    requires Shape(g, start, settled, dist, []) && Covered(settled, dist, [])
    ensures start in settled
    ensures forall v :: v in dist ==> (dist[v].Fin? <==> v in settled)
  {
  }

  /** The settled set is closed under edges, so finite means reachable. */
  lemma FinishReachable(g: Graph, start: int, settled: set<int>, dist: map<int, Dist>)
    requires Shape(g, start, settled, dist, []) && Sound(g, start, dist)
    requires Settled(g, settled, dist, None)
    requires start in settled && forall v :: v in dist ==> (dist[v].Fin? <==> v in settled)
    ensures forall v :: v in dist ==> (dist[v].Fin? <==> Reachable(g, start, v))
  {
    forall u, e | u in settled && u in g.adj && e in g.adj[u] && e.to in g.adj
      ensures e.to in settled
    {
      var m :| 0 <= m < |g.adj[u]| && g.adj[u][m] == e;
      assert Relaxed(g, dist, u, |g.adj[u]|);
    }
    ClosedHoldsReachable(g, start, settled);
    forall v | v in dist && dist[v].Fin?
      ensures Reachable(g, start, v)
    {
      var vs, ws :| IsWalk(g, vs, ws) && vs[0] == start && vs[|vs| - 1] == v && Sum(ws) == dist[v].d;
      WalkReachable(g, start, vs, ws);
    }
  }

  // ---- supporting facts ----

  /** Distances only went down, and not at `s`. */
  ghost predicate Lowered(dist: map<int, Dist>, dist': map<int, Dist>, s: int) {
    && dist'.Keys == dist.Keys
    && s in dist && dist'[s] == dist[s]
    && forall v :: v in dist && dist[v].Fin? ==> dist'[v].Fin? && dist'[v].d <= dist[v].d
  }

  lemma RelaxedLowered(g: Graph, dist: map<int, Dist>, dist': map<int, Dist>, s: int, n: nat)
    requires Relaxed(g, dist, s, n) && Lowered(dist, dist', s)
    ensures Relaxed(g, dist', s, n)
  {
    forall m | 0 <= m < n
      ensures g.adj[s][m].to in dist' && dist'[g.adj[s][m].to].Fin?
      ensures NonNegativeWeights(g) ==> dist'[g.adj[s][m].to].d <= dist'[s].d + g.adj[s][m].weight
    {
      assert g.adj[s][m].to in dist;
    }
  }

  lemma SortedTail(f: seq<Entry>)
    requires Sorted(f) && f != []
    ensures Sorted(f[1..])
    ensures forall i :: 0 <= i < |f[1..]| ==> f[0].distance <= f[1..][i].distance
  {
    forall i | 0 <= i < |f[1..]|
      ensures f[0].distance <= f[1..][i].distance
    {
      assert f[1..][i] == f[i + 1];
    }
  }

  /** A walk to `u` of weight `d` followed by an edge out of `u`. */
  lemma WalkExtend(g: Graph, start: int, u: int, d: int, e: Edge)
    requires WalkOfWeight(g, start, u, d) && u in g.adj && e in g.adj[u]
    ensures WalkOfWeight(g, start, e.to, d + e.weight)
  {
    var vs, ws :| IsWalk(g, vs, ws) && vs[0] == start && vs[|vs| - 1] == u && Sum(ws) == d;
    var vs', ws' := vs + [e.to], ws + [e.weight];
    assert ws'[..|ws'| - 1] == ws;
    forall i | 0 <= i < |ws'|
      ensures vs'[i] in g.adj && Edge(vs'[i + 1], ws'[i]) in g.adj[vs'[i]]
    {
      if i < |ws| {
        assert vs'[i] == vs[i] && vs'[i + 1] == vs[i + 1] && ws'[i] == ws[i];
      } else {
        assert vs'[i] == u && vs'[i + 1] == e.to && ws'[i] == e.weight;
      }
    }
    assert IsWalk(g, vs', ws') && vs'[0] == start && vs'[|vs'| - 1] == e.to && Sum(ws') == d + e.weight;
  }

  /** With non-negative weights and every settled vertex relaxed, the first `k`
      steps of a walk from the start weigh at least the distance they reach. */
  lemma {:induction false} NoShorterWalk(g: Graph, start: int, settled: set<int>, dist: map<int, Dist>,
                                         vs: seq<int>, ws: seq<int>, k: nat)
    requires NonNegativeWeights(g) && Valid(g)
    requires dist.Keys == g.adj.Keys && start in dist && dist[start] == Fin(0)
    requires Settled(g, settled, dist, None)
    requires forall v :: v in dist && dist[v].Fin? ==> v in settled
    requires IsWalk(g, vs, ws) && vs[0] == start && k <= |ws|
    ensures vs[k] in dist && dist[vs[k]].Fin? && dist[vs[k]].d <= Sum(ws[..k])
  {
    if k == 0 {
      assert ws[..0] == [];
    } else {
      NoShorterWalk(g, start, settled, dist, vs, ws, k - 1);
      var u := vs[k - 1];
      var e := Edge(vs[k], ws[k - 1]);
      assert e in g.adj[u];
      var m :| 0 <= m < |g.adj[u]| && g.adj[u][m] == e;
      assert Relaxed(g, dist, u, |g.adj[u]|);
      assert ws[..k][..k - 1] == ws[..k - 1];
    }
  }

  // ---- certificates ----

  /** `pot` never drops by more than an edge's weight along an edge. */
  ghost predicate Feasible(g: Graph, pot: map<int, int>) {
    forall u, e :: u in g.adj && e in g.adj[u] ==> u in pot && e.to in pot && pot[e.to] <= pot[u] + e.weight
  }

  /** Under a feasible potential that is zero at the start, no walk from the
      start weighs less than the potential of where it ends. */
  lemma {:induction false} PotentialBound(g: Graph, pot: map<int, int>, start: int, vs: seq<int>, ws: seq<int>)
    requires Feasible(g, pot) && start in pot && pot[start] == 0
    requires IsWalk(g, vs, ws) && vs[0] == start
    ensures vs[|vs| - 1] in pot && pot[vs[|vs| - 1]] <= Sum(ws)
    decreases |ws|
  {
    if |ws| > 0 {
      var n := |ws|;
      var vs', ws' := vs[..n], ws[..n - 1];
      assert IsWalk(g, vs', ws') by {
        forall i | 0 <= i < |ws'|
          ensures vs'[i] in g.adj && Edge(vs'[i + 1], ws'[i]) in g.adj[vs'[i]]
        {
          assert vs'[i] == vs[i] && vs'[i + 1] == vs[i + 1] && ws'[i] == ws[i];
        }
      }
      PotentialBound(g, pot, start, vs', ws');
      assert Edge(vs[n], ws[n - 1]) in g.adj[vs[n - 1]];
    }
  }

  /** A shortest-path table is pinned down by a certificate: a feasible
      potential, zero at the start, each of whose values is the weight of some
      walk from the start. */
  lemma CertifiedTable(g: Graph, start: int, dist: map<int, Dist>, pot: map<int, int>)
    requires dist.Keys == g.adj.Keys && Sound(g, start, dist) && Optimal(g, start, dist)
    requires pot.Keys == g.adj.Keys && Feasible(g, pot) && start in pot && pot[start] == 0
    requires forall v :: v in pot ==> WalkOfWeight(g, start, v, pot[v])
    ensures forall v :: v in dist ==> dist[v] == Fin(pot[v])
  {
    forall v | v in dist
      ensures dist[v] == Fin(pot[v])
    {
      CertifiedEntry(g, start, dist, pot, v);
    }
  }

  lemma CertifiedEntry(g: Graph, start: int, dist: map<int, Dist>, pot: map<int, int>, v: int)
    requires Sound(g, start, dist) && Optimal(g, start, dist)
    requires Feasible(g, pot) && start in pot && pot[start] == 0
    requires v in dist && v in pot && WalkOfWeight(g, start, v, pot[v])
    ensures dist[v] == Fin(pot[v])
  {
    var vs, ws :| IsWalk(g, vs, ws) && vs[0] == start && vs[|vs| - 1] == v && Sum(ws) == pot[v];
    assert dist[v].Fin? && dist[v].d <= pot[v];
    var vs', ws' :| IsWalk(g, vs', ws') && vs'[0] == start && vs'[|vs'| - 1] == v && Sum(ws') == dist[v].d;
    PotentialBound(g, pot, start, vs', ws');
  }
}
