/** `dijkstra` (src/graphs/algorithms.py) as line 53 is written:
    `heapq.heappush([distancia + peso, v_adjacente])` passes one argument where `heappush`
    takes two, so the first strict improvement raises TypeError (after line 50 has already
    stored the new distance, which the exception discards).  Until then only the start
    entry is ever in the heap, so the run is the scan of the start's neighbour list. */
module DijkstraAsWritten {
  import opened Wrappers
  import opened GraphModel
  import opened Walks

  /** The first edge origin that is not a vertex: line 20 raises KeyError there. */
  function FirstBadOrigin(edges: seq<Edge>, vertices: seq<Vertex>): (r: Option<Vertex>)
    ensures r.None? <==> forall i | 0 <= i < |edges| :: edges[i].from in vertices
    ensures r.Some? ==> r.value !in vertices && exists i | 0 <= i < |edges| :: edges[i].from == r.value
  {
    if edges == [] then None
    else if edges[0].from !in vertices then Some(edges[0].from)
    else
      var r := FirstBadOrigin(edges[1..], vertices);
      assert forall i | 1 <= i < |edges| :: edges[i] == edges[1..][i - 1];
      r
  }

  /** The distances after lines 23-30: the sentinel everywhere, 0 at the start. */
  function InitialResult(vertices: seq<Vertex>, start: Vertex): map<Vertex, int> {
    (map v | v in vertices :: MAXSIZE)[start := 0]
  }

  /** Lines 46-53 for the popped start entry `[0, v_inicio]`: KeyError at a neighbour with no
      distance, TypeError at the first one whose distance `0 + peso` improves. */
  function ScanStart(ns: seq<Neighbor>, dist: map<Vertex, int>): (r: Option<Error>)
    ensures r.Some? ==> r.value == TypeError || (r.value.KeyError? && r.value.key !in dist)
  {
    if ns == [] then None
    else if ns[0].v !in dist then Some(KeyError(ns[0].v))
    else if 0 + ns[0].w < dist[ns[0].v] then Some(TypeError)
    else ScanStart(ns[1..], dist)
  }

  /** The whole function as written. */
  function Dijkstra(vertices: seq<Vertex>, edges: seq<Edge>, start: Vertex): (r: Result<map<Vertex, int>>)
    ensures (exists i | 0 <= i < |edges| :: edges[i].from !in vertices) ==> r.Err?
    ensures start !in vertices ==> r.Err?
    ensures r.Err? ==> r.error == TypeError || (r.error.KeyError? && r.error.key !in vertices)
  {
    match FirstBadOrigin(edges, vertices)
    case Some(x) => Err(KeyError(x))
    case None =>
      if start !in vertices then Err(KeyError(start))
      else
        match ScanStart(Outgoing(edges, start), InitialResult(vertices, start))
        case Some(e) => Err(e)
        case None => Ok(InitialResult(vertices, start))
  }

  /** As written, a result is only ever returned unchanged from its initial value. */
  lemma NeverImproves(vertices: seq<Vertex>, edges: seq<Edge>, start: Vertex)
    requires Dijkstra(vertices, edges, start).Ok?
    ensures forall v | v in vertices && v != start :: Dijkstra(vertices, edges, start).value[v] == MAXSIZE
  {
  }

  /** Once every neighbour of the start has a distance, a neighbour that improves makes the
      scan raise TypeError. */
  lemma {:induction false} ScanStartRaises(ns: seq<Neighbor>, dist: map<Vertex, int>, k: nat)
    requires forall i | 0 <= i < |ns| :: ns[i].v in dist
    requires k < |ns| && ns[k].w < dist[ns[k].v]
    ensures ScanStart(ns, dist) == Some(TypeError)
  {
    if ns[0].w >= dist[ns[0].v] {
      ScanStartRaises(ns[1..], dist, k - 1);
    }
  }

  /** As written, `dijkstra` raises TypeError on every well-formed input in which the start
      has an edge of weight below the sentinel to another vertex: exactly the inputs on which
      the evident intent (`Algorithms.Dijkstra`) has something to compute. */
  lemma RaisesOnReachableNeighbor(vertices: seq<Vertex>, edges: seq<Edge>, start: Vertex, i: nat)
    requires start in vertices
    requires forall j | 0 <= j < |edges| :: edges[j].from in vertices && edges[j].to in vertices
    requires i < |edges| && edges[i].from == start && edges[i].to != start && edges[i].w < MAXSIZE
    ensures Dijkstra(vertices, edges, start) == Err(TypeError)
  {
    var ns := Outgoing(edges, start);
    var dist := InitialResult(vertices, start);
    OutgoingComplete(edges, i);
    var k :| 0 <= k < |ns| && ns[k] == Neighbor(edges[i].to, edges[i].w);
    forall j | 0 <= j < |ns| ensures ns[j].v in dist {
      OutgoingSound(edges, start, j);
    }
    ScanStartRaises(ns, dist, k);
  }

  /** The smallest such input: one edge `a -> b` of weight 1. */
  lemma OneEdgeRaises()
    ensures Dijkstra(["a", "b"], [Edge("a", "b", 1)], "a") == Err(TypeError)
  {
    RaisesOnReachableNeighbor(["a", "b"], [Edge("a", "b", 1)], "a", 0);
  }
}
