/** `dijkstra` (src/graphs/algorithms.py): single-source shortest distances by a lazy
    min-heap.  The adjacency dict is built from a vertex list and an edge list, every
    vertex starts at the `sys.maxsize` sentinel except the start at 0, and an edge is
    relaxed from each popped `[distancia, vertice]` entry, pushing only on strict
    improvement.  Superseded entries stay in the heap. */
module Algorithms {
  import opened Wrappers
  import opened Sums
  import opened GraphModel
  import opened Walks
  import opened DijkstraInvariants

  /** Lines 12-20.  Looking up the list of an edge origin that is not a vertex raises
      KeyError at the first such edge. */
  method BuildAdjacency(vertices: seq<Vertex>, edges: seq<Edge>) returns (r: Result<Adjacency>)
    ensures r.Ok? <==> forall i | 0 <= i < |edges| :: edges[i].from in vertices
    ensures r.Ok? ==> r.value.Keys == (set v | v in vertices)
    ensures r.Ok? ==> forall u | u in r.value :: r.value[u] == Outgoing(edges, u)
    ensures r.Err? ==> exists i | 0 <= i < |edges| ::
      && r.error == KeyError(edges[i].from) && edges[i].from !in vertices
      && forall j | 0 <= j < i :: edges[j].from in vertices
  {
    var adj: Adjacency := map[];
    for i := 0 to |vertices|
      invariant adj.Keys == set v | v in vertices[..i]
      invariant forall u | u in adj :: adj[u] == []
    {
      assert vertices[..i + 1] == vertices[..i] + [vertices[i]];
      adj := adj[vertices[i] := []];
    }
    assert vertices[..|vertices|] == vertices;
    for i := 0 to |edges|
      invariant adj.Keys == set v | v in vertices
      invariant forall j | 0 <= j < i :: edges[j].from in vertices
      invariant forall u | u in adj :: adj[u] == Outgoing(edges[..i], u)
    {
      var e := edges[i];
      if e.from !in adj {
        return Err(KeyError(e.from));
      }
      assert edges[..i + 1][..i] == edges[..i];
      adj := adj[e.from := adj[e.from] + [Neighbor(e.to, e.w)]];
    }
    assert edges[..|edges|] == edges;
    return Ok(adj);
  }

  // ---------------------------------------------------------------------------
  // The heap (lines 34-43)

  /** `heapq.heappop`: removes an entry of least distance.  Among entries of equal
      distance any one may come out. */
  method PopMin(heap: seq<Entry>) returns (e: Entry, rest: seq<Entry>)
    requires heap != []
    ensures e in heap
    ensures forall i | 0 <= i < |heap| :: e.d <= heap[i].d
    ensures multiset(rest) == multiset(heap) - multiset{e}
  {
    var m := 0;
    for i := 1 to |heap|
      invariant 0 <= m < |heap|
      invariant forall j | 0 <= j < i :: heap[m].d <= heap[j].d
    {
      if heap[i].d < heap[m].d {
        m := i;
      }
    }
    e := heap[m];
    rest := heap[..m] + heap[m + 1..];
    assert heap == heap[..m] + [e] + heap[m + 1..];
  }

  // ---------------------------------------------------------------------------
  // Relaxation (lines 46-53)

  /** One iteration of the `for v_adjacente, peso in lista_adjacencia[vertice_atual]` loop:
      relax edge `j` out of `u`, whose target is a key.  Line 53 reads
      `heapq.heappush([distancia + peso, v_adjacente])`, which omits the heap; this models
      the evident intent, a push onto `min_heap`. */
  method RelaxEdge(adj: Adjacency, ghost edges: seq<Edge>, ghost start: Vertex, u: Vertex, d: int, j: int,
                   ghost dist0: map<Vertex, int>, ghost heap0: seq<Entry>,
                   dist: map<Vertex, int>, heap: seq<Entry>, ghost paths: map<Vertex, seq<Edge>>)
    returns (dist': map<Vertex, int>, heap': seq<Entry>, ghost paths': map<Vertex, seq<Edge>>)
    requires Popped(adj, u, d, dist0)
    requires Progress(adj, u, d, j, dist, heap) && j < |adj[u]| && adj[u][j].v in dist
    requires adj[u][j].w >= 0 && Edge(u, adj[u][j].v, adj[u][j].w) in edges
    requires dist[u] == dist0[u]
    requires Core(edges, start, dist, heap, paths)
    requires Shrinking(dist0, heap0, dist, heap, d > dist0[u])
    ensures d + adj[u][j].w < dist[adj[u][j].v] ==>
      dist' == dist[adj[u][j].v := d + adj[u][j].w] && heap' == heap + [Entry(d + adj[u][j].w, adj[u][j].v)]
    ensures d + adj[u][j].w >= dist[adj[u][j].v] ==> dist' == dist && heap' == heap
    ensures Progress(adj, u, d, j + 1, dist', heap')
    ensures dist'[u] == dist0[u]
    ensures Core(edges, start, dist', heap', paths')
    ensures Shrinking(dist0, heap0, dist', heap', d > dist0[u])
  {
    var nb := adj[u][j];
    if d + nb.w < dist[nb.v] {
      dist' := dist[nb.v := d + nb.w];
      heap' := heap + [Entry(d + nb.w, nb.v)];
      paths' := paths[nb.v := paths[u] + [Edge(u, nb.v, nb.w)]];
      ImproveKeeps(adj, edges, start, u, d, j, dist0, heap0, dist, heap, paths, dist', heap', paths');
    } else {
      SkipKeepsProgress(adj, u, d, j, dist, heap);
      dist', heap', paths' := dist, heap, paths;
    }
  }

  /** The body of the `while` loop after the pop: relax every edge out of `u` with the
      popped distance `d`.  Returns the vertex whose missing key raised KeyError, if any. */
  method RelaxOutgoing(adj: Adjacency, ghost edges: seq<Edge>, ghost start: Vertex, u: Vertex, d: int,
                       dist0: map<Vertex, int>, heap0: seq<Entry>, ghost paths0: map<Vertex, seq<Edge>>)
    returns (dist: map<Vertex, int>, heap: seq<Entry>, ghost paths: map<Vertex, seq<Edge>>,
             missing: Option<Vertex>)
    requires AdjFromEdges(adj, edges)
    requires u in adj && dist0.Keys == adj.Keys
    requires DistBounds(dist0) && HeapSound(dist0, heap0) && Witnessed(edges, start, dist0, paths0)
    requires dist0[u] <= d < MAXSIZE
    requires d == dist0[u] || Relaxed(adj, dist0, u)
    requires QueuedOrRelaxedExcept(adj, dist0, heap0, u)
    ensures missing.Some? ==>
      && missing.value !in adj && (exists k | 0 <= k < |adj[u]| :: adj[u][k].v == missing.value)
      && exists p :: IsWalk(edges, start, u, p) && Weight(p) < MAXSIZE
    ensures missing.None? ==>
      && Core(edges, start, dist, heap, paths)
      && Shrinking(dist0, heap0, dist, heap, d > dist0[u])  // a superseded entry changes nothing
      && AllQueuedOrRelaxed(adj, dist, heap)
  {
    dist, heap, paths := dist0, heap0, paths0;
    assert Popped(adj, u, d, dist0);
    assert IsWalk(edges, start, u, paths0[u]) && Weight(paths0[u]) < MAXSIZE;
    var j := 0;
    while j < |adj[u]|
      invariant Progress(adj, u, d, j, dist, heap)
      invariant dist[u] == dist0[u]
      invariant Core(edges, start, dist, heap, paths)
      invariant Shrinking(dist0, heap0, dist, heap, d > dist0[u])
    {
      if adj[u][j].v !in dist {
        return dist, heap, paths, Some(adj[u][j].v);
      }
      assert adj[u][j].w >= 0 && Edge(u, adj[u][j].v, adj[u][j].w) in edges;
      dist, heap, paths := RelaxEdge(adj, edges, start, u, d, j, dist0, heap0, dist, heap, paths);
      j := j + 1;
    }
    assert Relaxed(adj, dist, u) by {
      if d > dist0[u] {
        assert dist == dist0;
      }
    }
    assert QueuedOrRelaxed(adj, dist, heap, u);
    missing := None;
  }

  // ---------------------------------------------------------------------------
  // dijkstra (lines 4-56)

  /** Lines 4-56.  The source does not check the weights; with a negative weight its loop
      need not stop, so the model asks for non-negative weights. */
  method Dijkstra(vertices: seq<Vertex>, edges: seq<Edge>, start: Vertex) returns (r: Result<map<Vertex, int>>)
    requires forall i | 0 <= i < |edges| :: edges[i].w >= 0
    ensures r.Ok? ==> ShortestDistances(vertices, edges, start, r.value)
    ensures r.Err? ==>
      && r.error.KeyError? && r.error.key !in vertices
      && (r.error.key == start || exists i | 0 <= i < |edges| :: r.error.key in {edges[i].from, edges[i].to})
    ensures start in vertices && (forall i | 0 <= i < |edges| :: edges[i].from in vertices && edges[i].to in vertices)
      ==> r.Ok?
    ensures r.Err? <==>
      || start !in vertices
      || (exists i | 0 <= i < |edges| :: edges[i].from !in vertices)
      || (exists u, p, i | 0 <= i < |edges| ::
            IsWalk(edges, start, u, p) && Weight(p) < MAXSIZE && edges[i].from == u && edges[i].to !in vertices)
  {
    var built := BuildAdjacency(vertices, edges);
    if built.Err? {
      return Err(built.error);
    }
    var adj: Adjacency := built.value;
    forall u, k | u in adj && 0 <= k < |adj[u]|
      ensures adj[u][k].w >= 0 && Edge(u, adj[u][k].v, adj[u][k].w) in edges
    {
      OutgoingSound(edges, u, k);
    }

    var dist := InitialDistances(vertices);
    dist := dist[start := 0];
    // The first entry popped is [0, v_inicio]; looking up its list raises KeyError when
    // v_inicio is not a vertex.
    if start !in adj {
      return Err(KeyError(start));
    }
    var missing;
    ghost var paths;
    dist, paths, missing := Settle(adj, edges, start, dist);
    if missing.Some? {
      ghost var u, k, p :| u in adj && 0 <= k < |adj[u]| && adj[u][k].v == missing.value
                           && IsWalk(edges, start, u, p) && Weight(p) < MAXSIZE;
      assert Edge(u, missing.value, adj[u][k].w) in edges;
      ghost var i :| 0 <= i < |edges| && edges[i] == Edge(u, missing.value, adj[u][k].w);
      assert edges[i].from == u && edges[i].to !in vertices;
      return Err(KeyError(missing.value));
    }
    SettledIsShortest(vertices, edges, start, adj, dist, paths);
    forall u, p, i | 0 <= i < |edges| && IsWalk(edges, start, u, p) && Weight(p) < MAXSIZE && edges[i].from == u
      ensures edges[i].to in vertices
    {
      ReachedEdgeInside(vertices, edges, start, adj, dist, paths, u, p, i);
    }
    return Ok(dist);
  }

  /** Lines 23-27: every vertex at the sentinel. */
  method InitialDistances(vertices: seq<Vertex>) returns (dist: map<Vertex, int>)
    ensures dist.Keys == (set v | v in vertices)
    ensures forall v | v in dist :: dist[v] == MAXSIZE
  {
    dist := map[];
    for i := 0 to |vertices|
      invariant dist.Keys == set v | v in vertices[..i]
      invariant forall v | v in dist :: dist[v] == MAXSIZE
    {
      assert vertices[..i + 1] == vertices[..i] + [vertices[i]];
      dist := dist[vertices[i] := MAXSIZE];
    }
    assert vertices[..|vertices|] == vertices;
  }

  /** Lines 34-53: the heap loop from `[0, v_inicio]`.  Stops early with the missing vertex
      when a neighbour is not a key. */
  method Settle(adj: Adjacency, ghost edges: seq<Edge>, start: Vertex, dist0: map<Vertex, int>)
    returns (dist: map<Vertex, int>, ghost paths: map<Vertex, seq<Edge>>, missing: Option<Vertex>)
    requires AdjFromEdges(adj, edges)
    requires dist0.Keys == adj.Keys && start in adj && dist0[start] == 0
    requires forall v | v in dist0 && v != start :: dist0[v] == MAXSIZE
    ensures missing.Some? ==>
      && missing.value !in adj
      && exists u, k, p | u in adj && 0 <= k < |adj[u]| ::
           adj[u][k].v == missing.value && IsWalk(edges, start, u, p) && Weight(p) < MAXSIZE
    ensures missing.None? ==> Settling(adj, edges, start, dist, [], paths)
  {
    dist := dist0;
    var heap := [Entry(0, start)];
    paths := map[start := []];
    assert QueuedOrRelaxed(adj, dist, heap, start);
    SumMapNonneg(dist, dist.Keys);
    while heap != []
      invariant Settling(adj, edges, start, dist, heap, paths)
      invariant SumMap(dist, dist.Keys) >= 0
      decreases SumMap(dist, dist.Keys), |heap|
    {
      var e, rest := PopMin(heap);
      PopKeeps(adj, edges, start, dist, heap, paths, e, rest);
      assert |rest| < |heap| by {
        assert |multiset(rest)| == |multiset(heap)| - 1;
      }
      ghost var before := dist;
      dist, heap, paths, missing := RelaxOutgoing(adj, edges, start, e.v, e.d, dist, rest, paths);
      if missing.Some? {
        return;
      }
      assert dist[start] == 0 by {
        assert dist[start] <= before[start];
      }
      SumMapNonneg(dist, dist.Keys);
    }
    missing := None;
  }

}
