/**
  The default road network of the smart-city simulator: six intersections
  joined by two-way roads, each road added as one edge in each direction.
  Built here with the same `addVertex`/`addEdge` calls in the same order, so
  the adjacency lists come out newest edge first as in the original.
 */
module CityNetwork {
  import opened Wrappers
  import opened Graph
  import opened ShortestPath

  /** An intersection to add: its id and its name. */
  datatype Place = Place(id: int, name: string)

  /** A two-way road between intersections `a` and `b`. */
  datatype Road = Road(a: int, b: int, length: int)

  function DefaultPlaces(): seq<Place> {
    [Place(1, "Simpang A"), Place(2, "Simpang B"), Place(3, "Kantor Walikota"),
     Place(4, "Pasar Sentral"), Place(5, "Rumah Sakit Umum"), Place(6, "Area Parkir Pusat")]
  }

  function DefaultRoadList(): seq<Road> {
    [Road(1, 2, 5), Road(1, 4, 3), Road(2, 3, 7), Road(2, 5, 4),
     Road(4, 5, 6), Road(3, 6, 2), Road(4, 6, 4)]
  }

  // ---- what the calls do to the vertex list and the adjacency lists ----

  /** Each place not yet present gets an empty adjacency list, in order. */
  function EmptyLists(adj: map<int, seq<Edge>>, ps: seq<Place>, i: nat): map<int, seq<Edge>>
    decreases |ps| - i
  {
    if i >= |ps| then adj
    else if ps[i].id in adj then EmptyLists(adj, ps, i + 1)
    else EmptyLists(adj[ps[i].id := []], ps, i + 1)
  }

  /** Each place not yet present goes to the head of the vertex list, in order. */
  function PushIds(order: seq<int>, ps: seq<Place>, i: nat): seq<int>
    decreases |ps| - i
  {
    if i >= |ps| then order
    else if ps[i].id in order then PushIds(order, ps, i + 1)
    else PushIds([ps[i].id] + order, ps, i + 1)
  }

  /** One road: an edge at the head of `a`'s list, then one at the head of
      `b`'s; nothing when either end is missing. */
  function Lay(adj: map<int, seq<Edge>>, r: Road): (adj': map<int, seq<Edge>>)
  {
    if r.a in adj && r.b in adj then
      var m := adj[r.a := [Edge(r.b, r.length)] + adj[r.a]];
      m[r.b := [Edge(r.a, r.length)] + m[r.b]]
    else adj
  }

  /** The roads, laid in order. */
  function LayAll(adj: map<int, seq<Edge>>, rs: seq<Road>, i: nat): (adj': map<int, seq<Edge>>)
    decreases |rs| - i
  {
    if i >= |rs| then adj else LayAll(Lay(adj, rs[i]), rs, i + 1)
  }

  /** Every edge has a reverse edge of the same weight. */
  ghost predicate TwoWay(adj: map<int, seq<Edge>>) {
    forall u, e :: u in adj && e in adj[u] ==> e.to in adj && Edge(u, e.weight) in adj[e.to]
  }

  /** Laying a road keeps every road drivable both ways. */
  lemma LayTwoWay(adj: map<int, seq<Edge>>, r: Road)
    ensures TwoWay(adj) ==> TwoWay(Lay(adj, r))
  {
    var m := Lay(adj, r);
    if TwoWay(adj) && r.a in adj && r.b in adj {
      forall u: int, e: Edge | u in m && e in m[u]
        ensures e.to in m && Edge(u, e.weight) in m[e.to]
      {
        if e !in adj[u] {
          assert e == Edge(r.b, r.length) || e == Edge(r.a, r.length);
        }
      }
    }
  }

  // ---- the calls ----

  /** `addVertex`: a new id is added, a known one changes nothing. */
  function AddIntersection(g: Graph, p: Place): (r: Graph)
    requires Valid(g)
    ensures Valid(r)
    ensures p.id in g.adj ==> r == g
    ensures p.id !in g.adj ==>
      r.order == [p.id] + g.order && r.numVertices == g.numVertices + 1 && r.adj == g.adj[p.id := []]
  {
    AddVertex(g, p.id, p.name).0
  }

  /** `addVertex` for each place in turn. */
  function AddIntersections(g: Graph, ps: seq<Place>, i: nat): (r: Graph)
    requires Valid(g)
    ensures Valid(r)
    ensures r.order == PushIds(g.order, ps, i) && r.numVertices == |r.order|
    ensures r.adj == EmptyLists(g.adj, ps, i)
    decreases |ps| - i
  {
    if i >= |ps| then g else AddIntersections(AddIntersection(g, ps[i]), ps, i + 1)
  }

  /** A two-way road: `addEdge` from `a` to `b`, then one back, of the same length. */
  function AddRoad(g: Graph, r: Road): (g': Graph)
    requires Valid(g)
    ensures Valid(g')
    ensures g'.order == g.order && g'.numVertices == g.numVertices
    ensures g'.adj == Lay(g.adj, r)
  {
    var g1 := AddEdge(g, r.a, r.b, r.length).0;
    AddEdge(g1, r.b, r.a, r.length).0
  }

  /** `AddRoad` for each road in turn. */
  function AddRoads(g: Graph, rs: seq<Road>, i: nat): (r: Graph)
    requires Valid(g)
    ensures Valid(r)
    ensures TwoWay(g.adj) ==> TwoWay(r.adj)
    ensures r.order == g.order && r.numVertices == g.numVertices
    ensures r.adj == LayAll(g.adj, rs, i)
    decreases |rs| - i
  {
    if i >= |rs| then g
    else
      LayTwoWay(g.adj, rs[i]);
      AddRoads(AddRoad(g, rs[i]), rs, i + 1)
  }

  /** The six vertex ids with empty lists. */
  function NoRoads(): map<int, seq<Edge>> {
    map[1 := [], 2 := [], 3 := [], 4 := [], 5 := [], 6 := []]
  }

  /** The adjacency lists the calls leave behind, newest edge first. */
  function DefaultRoads(): map<int, seq<Edge>> {
    map[1 := [Edge(4, 3), Edge(2, 5)],
        2 := [Edge(5, 4), Edge(3, 7), Edge(1, 5)],
        3 := [Edge(6, 2), Edge(2, 7)],
        4 := [Edge(6, 4), Edge(5, 6), Edge(1, 3)],
        5 := [Edge(4, 6), Edge(2, 4)],
        6 := [Edge(4, 4), Edge(3, 2)]]
  }

  lemma DefaultPlacesListed()
    ensures EmptyLists(map[], DefaultPlaces(), 0) == NoRoads()
  {
  }

  lemma DefaultPlacesOrdered()
    ensures PushIds([], DefaultPlaces(), 0) == [6, 5, 4, 3, 2, 1]
  {
  }

  lemma DefaultRoadsLaid()
    ensures LayAll(NoRoads(), DefaultRoadList(), 0) == DefaultRoads()
  {
    RoadsLaid(DefaultRoadList());
  }

  lemma RoadsLaid(rs: seq<Road>)
    requires rs == DefaultRoadList()
    ensures LayAll(NoRoads(), rs, 0) == DefaultRoads()
  {
    LayRoad1();
    LayNext(RoadsAfter(0), rs, 0, RoadsAfter(1));
    LayRoad2();
    LayNext(RoadsAfter(1), rs, 1, RoadsAfter(2));
    LayRoad3();
    LayNext(RoadsAfter(2), rs, 2, RoadsAfter(3));
    LayRoad4();
    LayNext(RoadsAfter(3), rs, 3, RoadsAfter(4));
    LayRoad5();
    LayNext(RoadsAfter(4), rs, 4, RoadsAfter(5));
    LayRoad6();
    LayNext(RoadsAfter(5), rs, 5, RoadsAfter(6));
    LayRoad7();
    LayNext(RoadsAfter(6), rs, 6, RoadsAfter(7));
  }

  /** One road further along the list. */
  lemma LayNext(adj: map<int, seq<Edge>>, rs: seq<Road>, i: nat, adj': map<int, seq<Edge>>)
    requires i < |rs| && Lay(adj, rs[i]) == adj'
    ensures LayAll(adj, rs, i) == LayAll(adj', rs, i + 1)
  {
  }

  /** The adjacency lists after the first `k` roads. */
  function RoadsAfter(k: nat): map<int, seq<Edge>> {
    if k == 0 then NoRoads()
    else if k == 1 then map[1 := [Edge(2, 5)], 2 := [Edge(1, 5)], 3 := [], 4 := [], 5 := [], 6 := []]
    else if k == 2 then map[1 := [Edge(4, 3), Edge(2, 5)], 2 := [Edge(1, 5)], 3 := [], 4 := [Edge(1, 3)], 5 := [], 6 := []]
    else if k == 3 then map[1 := [Edge(4, 3), Edge(2, 5)], 2 := [Edge(3, 7), Edge(1, 5)], 3 := [Edge(2, 7)], 4 := [Edge(1, 3)], 5 := [], 6 := []]
    else if k == 4 then map[1 := [Edge(4, 3), Edge(2, 5)], 2 := [Edge(5, 4), Edge(3, 7), Edge(1, 5)], 3 := [Edge(2, 7)], 4 := [Edge(1, 3)], 5 := [Edge(2, 4)], 6 := []]
    else if k == 5 then map[1 := [Edge(4, 3), Edge(2, 5)], 2 := [Edge(5, 4), Edge(3, 7), Edge(1, 5)], 3 := [Edge(2, 7)], 4 := [Edge(5, 6), Edge(1, 3)], 5 := [Edge(4, 6), Edge(2, 4)], 6 := []]
    else if k == 6 then map[1 := [Edge(4, 3), Edge(2, 5)], 2 := [Edge(5, 4), Edge(3, 7), Edge(1, 5)], 3 := [Edge(6, 2), Edge(2, 7)], 4 := [Edge(5, 6), Edge(1, 3)], 5 := [Edge(4, 6), Edge(2, 4)], 6 := [Edge(3, 2)]]
    else DefaultRoads()
  }

  lemma LayRoad1()
    ensures Lay(RoadsAfter(0), Road(1, 2, 5)) == RoadsAfter(1)
  {
    var m := Lay(RoadsAfter(0), Road(1, 2, 5));
    assert m[1] == [Edge(2, 5)];
    assert m[2] == [Edge(1, 5)];
  }

  lemma LayRoad2()
    ensures Lay(RoadsAfter(1), Road(1, 4, 3)) == RoadsAfter(2)
  {
    var m := Lay(RoadsAfter(1), Road(1, 4, 3));
    assert m[1] == [Edge(4, 3), Edge(2, 5)];
    assert m[4] == [Edge(1, 3)];
  }

  lemma LayRoad3()
    ensures Lay(RoadsAfter(2), Road(2, 3, 7)) == RoadsAfter(3)
  {
    var m := Lay(RoadsAfter(2), Road(2, 3, 7));
    assert m[2] == [Edge(3, 7), Edge(1, 5)];
    assert m[3] == [Edge(2, 7)];
  }

  lemma LayRoad4()
    ensures Lay(RoadsAfter(3), Road(2, 5, 4)) == RoadsAfter(4)
  {
    var m := Lay(RoadsAfter(3), Road(2, 5, 4));
    assert m[2] == [Edge(5, 4), Edge(3, 7), Edge(1, 5)];
    assert m[5] == [Edge(2, 4)];
  }

  lemma LayRoad5()
    ensures Lay(RoadsAfter(4), Road(4, 5, 6)) == RoadsAfter(5)
  {
    var m := Lay(RoadsAfter(4), Road(4, 5, 6));
    assert m[4] == [Edge(5, 6), Edge(1, 3)];
    assert m[5] == [Edge(4, 6), Edge(2, 4)];
  }

  lemma LayRoad6()
    ensures Lay(RoadsAfter(5), Road(3, 6, 2)) == RoadsAfter(6)
  {
    var m := Lay(RoadsAfter(5), Road(3, 6, 2));
    assert m[3] == [Edge(6, 2), Edge(2, 7)];
    assert m[6] == [Edge(3, 2)];
  }

  lemma LayRoad7()
    ensures Lay(RoadsAfter(6), Road(4, 6, 4)) == RoadsAfter(7)
  {
    var m := Lay(RoadsAfter(6), Road(4, 6, 4));
    assert m[4] == [Edge(6, 4), Edge(5, 6), Edge(1, 3)];
    assert m[6] == [Edge(4, 4), Edge(3, 2)];
  }


  /** The default network: the intersections, then the roads, in the original's order. */
  function DefaultNetwork(): (g: Graph)
    ensures Valid(g)
    ensures g.order == [6, 5, 4, 3, 2, 1] && g.numVertices == 6
    ensures g.adj == DefaultRoads()
    ensures TwoWay(g.adj)
  {
    assert TwoWay(NoRoads());
    DefaultPlacesListed();
    DefaultPlacesOrdered();
    DefaultRoadsLaid();
    AddRoads(AddIntersections(EmptyGraph(), DefaultPlaces(), 0), DefaultRoadList(), 0)
  }

  // ---- shortest distances from intersection 1 ----

  /** The distances Dijkstra from 1 must report on the default network. */
  function DefaultDistances(): map<int, int> {
    map[1 := 0, 2 := 5, 3 := 9, 4 := 3, 5 := 9, 6 := 7]
  }

  /** Every road has a non-negative length. */
  lemma DefaultNonNegative(g: Graph)
    requires g.adj == DefaultRoads()
    ensures NonNegativeWeights(g)
  {
    forall u, e | u in g.adj && e in g.adj[u]
      ensures e.weight >= 0
    {
      assert u in {1, 2, 3, 4, 5, 6};
    }
  }

  /** No road is shorter than the difference of the distances at its ends. */
  lemma DefaultFeasible(g: Graph, pot: map<int, int>)
    requires g.adj == DefaultRoads() && pot == DefaultDistances()
    ensures Feasible(g, pot)
  {
    forall u, e | u in g.adj && e in g.adj[u]
      ensures u in pot && e.to in pot && pot[e.to] <= pot[u] + e.weight
    {
      assert u in {1, 2, 3, 4, 5, 6};
    }
  }

  /** Each distance is the length of a route: 1-2, 1-4, 1-4-6, 1-4-6-3, 1-2-5. */
  lemma DefaultRoutes(g: Graph, pot: map<int, int>)
    requires g.adj == DefaultRoads() && pot == DefaultDistances()
    ensures forall v :: v in pot ==> WalkOfWeight(g, 1, v, pot[v])
  {
    var vs, ws := [1], [];
    assert IsWalk(g, vs, ws) && Sum(ws) == 0;
    WalkExtend(g, 1, 1, 0, Edge(2, 5));
    WalkExtend(g, 1, 1, 0, Edge(4, 3));
    WalkExtend(g, 1, 4, 3, Edge(6, 4));
    WalkExtend(g, 1, 6, 7, Edge(3, 2));
    WalkExtend(g, 1, 2, 5, Edge(5, 4));
  }

  /** The only table of shortest distances from 1 on the default network. */
  lemma DefaultTable(g: Graph, dist: map<int, Dist>)
    requires g.adj == DefaultRoads() && ShortestTable(g, 1, dist)
    ensures dist == map[1 := Fin(0), 2 := Fin(5), 3 := Fin(9), 4 := Fin(3), 5 := Fin(9), 6 := Fin(7)]
  {
    DefaultNonNegative(g);
    CertifiedDefault(g, dist);
  }

  /** Any table over the default network that is sound and optimal from 1 is
      the table of `DefaultDistances`. */
  lemma CertifiedDefault(g: Graph, dist: map<int, Dist>)
    requires g.adj == DefaultRoads()
    requires dist.Keys == g.adj.Keys && Sound(g, 1, dist) && Optimal(g, 1, dist)
    ensures dist == map[1 := Fin(0), 2 := Fin(5), 3 := Fin(9), 4 := Fin(3), 5 := Fin(9), 6 := Fin(7)]
  {
    var pot := DefaultDistances();
    DefaultFeasible(g, pot);
    DefaultRoutes(g, pot);
    SameVertices(g, pot);
    CertifiedTable(g, 1, dist, pot);
    TableOf(dist, pot);
  }

  lemma SameVertices(g: Graph, pot: map<int, int>)
    requires g.adj == DefaultRoads() && pot == DefaultDistances()
    ensures pot.Keys == g.adj.Keys && 1 in pot && pot[1] == 0
  {
    assert pot.Keys == {1, 2, 3, 4, 5, 6};
  }

  lemma TableOf(dist: map<int, Dist>, pot: map<int, int>)
    requires pot == DefaultDistances() && dist.Keys == DefaultRoads().Keys
    requires forall v :: v in dist ==> dist[v] == Fin(pot[v])
    ensures dist == map[1 := Fin(0), 2 := Fin(5), 3 := Fin(9), 4 := Fin(3), 5 := Fin(9), 6 := Fin(7)]
  {
    assert dist.Keys == {1, 2, 3, 4, 5, 6};
  }

  /** `Dijkstra(1)` on a graph with the default roads. */
  method ShortestOn(g: Graph) returns (dist: map<int, Dist>)
    requires Valid(g) && g.adj == DefaultRoads()
    ensures dist == map[1 := Fin(0), 2 := Fin(5), 3 := Fin(9), 4 := Fin(3), 5 := Fin(9), 6 := Fin(7)]
  {
    assert 1 in g.adj;
    var out := Dijkstra(g, 1);
    dist := out.value;
    DefaultTable(g, dist);
  }

  /** `Dijkstra(1)` on the default network. */
  method ShortestFromOne() returns (dist: map<int, Dist>)
    ensures dist == map[1 := Fin(0), 2 := Fin(5), 3 := Fin(9), 4 := Fin(3), 5 := Fin(9), 6 := Fin(7)]
  {
    dist := ShortestOn(DefaultNetwork());
  }
}
