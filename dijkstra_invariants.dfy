/** The invariants of the `dijkstra` loops (src/graphs/algorithms.py) and the lemmas
    that keep them across a pop and a relaxation. */
module DijkstraInvariants {
  import opened Sums
  import opened GraphModel
  import opened Walks

  /** Every neighbour entry is an edge of the input with its origin, of weight >= 0. */
  ghost predicate AdjFromEdges(adj: Adjacency, edges: seq<Edge>) {
    forall u, k | u in adj && 0 <= k < |adj[u]| ::
      adj[u][k].w >= 0 && Edge(u, adj[u][k].v, adj[u][k].w) in edges
  }

  ghost predicate DistBounds(dist: map<Vertex, int>) {
    forall v | v in dist :: 0 <= dist[v] <= MAXSIZE
  }

  /** Each heap entry names a vertex and is no better than its current distance. */
  ghost predicate HeapSound(dist: map<Vertex, int>, heap: seq<Entry>) {
    forall i | 0 <= i < |heap| :: heap[i].v in dist && dist[heap[i].v] <= heap[i].d < MAXSIZE
  }

  /** Every reached vertex's distance is the weight of a recorded walk from the start. */
  ghost predicate Witnessed(edges: seq<Edge>, start: Vertex, dist: map<Vertex, int>,
                            paths: map<Vertex, seq<Edge>>)
  {
    forall v | v in dist && dist[v] < MAXSIZE ::
      v in paths && IsWalk(edges, start, v, paths[v]) && Weight(paths[v]) == dist[v]
  }

  /** No edge out of `x` can improve a distance. */
  ghost predicate Relaxed(adj: Adjacency, dist: map<Vertex, int>, x: Vertex)
    requires x in adj && x in dist
  {
    forall k | 0 <= k < |adj[x]| ::
      adj[x][k].v in dist && dist[adj[x][k].v] <= dist[x] + adj[x][k].w
  }

  /** A reached vertex either still has an entry with its current distance in the heap,
      or its edges have been relaxed with that distance. */
  ghost predicate QueuedOrRelaxed(adj: Adjacency, dist: map<Vertex, int>, heap: seq<Entry>, x: Vertex)
    requires x in adj && x in dist
  {
    dist[x] < MAXSIZE ==> Entry(dist[x], x) in heap || Relaxed(adj, dist, x)
  }

  /** Every vertex other than `u` is queued or relaxed. */
  ghost predicate QueuedOrRelaxedExcept(adj: Adjacency, dist: map<Vertex, int>, heap: seq<Entry>, u: Vertex)
    requires dist.Keys == adj.Keys
  {
    forall x {:trigger QueuedOrRelaxed(adj, dist, heap, x)} | x in adj && x != u :: QueuedOrRelaxed(adj, dist, heap, x)
  }

  /** Every vertex is queued or relaxed. */
  ghost predicate AllQueuedOrRelaxed(adj: Adjacency, dist: map<Vertex, int>, heap: seq<Entry>)
    requires dist.Keys == adj.Keys
  {
    forall x {:trigger QueuedOrRelaxed(adj, dist, heap, x)} | x in adj :: QueuedOrRelaxed(adj, dist, heap, x)
  }

  /** The first `j` edges out of `u` cannot improve on distance `d` through `u`. */
  ghost predicate RelaxedUpTo(adj: Adjacency, dist: map<Vertex, int>, u: Vertex, d: int, j: int)
    requires u in adj && 0 <= j <= |adj[u]|
  {
    forall k | 0 <= k < j :: adj[u][k].v in dist && dist[adj[u][k].v] <= d + adj[u][k].w
  }

  lemma RelaxedAfterDecrease(adj: Adjacency, dist: map<Vertex, int>, v: Vertex, nd: int, x: Vertex)
    requires x in adj && x in dist && v in dist && x != v && nd < dist[v]
    requires Relaxed(adj, dist, x)
    ensures Relaxed(adj, dist[v := nd], x)
  {
  }

  /** An improvement `dist[v] := d + w` with the push of `[d + w, v]` keeps the bounds and
      the heap invariant: the new entry equals the new distance, older ones are no better. */
  lemma UpdateKeepsBounds(dist: map<Vertex, int>, heap: seq<Entry>, u: Vertex, d: int, nb: Neighbor)
    requires DistBounds(dist) && HeapSound(dist, heap)
    requires u in dist && dist[u] == d && nb.w >= 0
    requires nb.v in dist && d + nb.w < dist[nb.v]
    ensures DistBounds(dist[nb.v := d + nb.w])
    ensures HeapSound(dist[nb.v := d + nb.w], heap + [Entry(d + nb.w, nb.v)])
  {
  }

  /** The improved distance is the weight of the walk to `u` extended by the edge. */
  lemma UpdateKeepsPaths(edges: seq<Edge>, start: Vertex, dist: map<Vertex, int>,
                         paths: map<Vertex, seq<Edge>>, u: Vertex, d: int, nb: Neighbor)
    requires Witnessed(edges, start, dist, paths)
    requires u in dist && dist[u] == d < MAXSIZE && Edge(u, nb.v, nb.w) in edges
    requires nb.v in dist && d + nb.w < dist[nb.v]
    ensures Witnessed(edges, start, dist[nb.v := d + nb.w], paths[nb.v := paths[u] + [Edge(u, nb.v, nb.w)]])
  {
    WalkExtend(edges, start, paths[u], Edge(u, nb.v, nb.w));
  }

  /** The improved vertex is queued by the push; every other vertex keeps its status,
      since distances only decrease. */
  lemma UpdateKeepsQueued(adj: Adjacency, dist: map<Vertex, int>, heap: seq<Entry>,
                          u: Vertex, d: int, nb: Neighbor)
    requires dist.Keys == adj.Keys && u in adj
    requires nb.v in dist && d + nb.w < dist[nb.v]
    requires QueuedOrRelaxedExcept(adj, dist, heap, u)
    ensures QueuedOrRelaxedExcept(adj, dist[nb.v := d + nb.w], heap + [Entry(d + nb.w, nb.v)], u)
  {
    var dist' := dist[nb.v := d + nb.w];
    var heap' := heap + [Entry(d + nb.w, nb.v)];
    forall x | x in adj && x != u ensures QueuedOrRelaxed(adj, dist', heap', x) {
      assert QueuedOrRelaxed(adj, dist, heap, x);
      if x == nb.v {
        assert Entry(dist'[x], x) in heap';
      } else if Entry(dist[x], x) in heap {
        assert Entry(dist'[x], x) in heap';
      } else if dist[x] < MAXSIZE {
        RelaxedAfterDecrease(adj, dist, nb.v, d + nb.w, x);
      }
    }
  }

  /** Lowering the distance at the current edge's target keeps the earlier edges relaxed and
      relaxes the current one. */
  lemma UpdateKeepsRelaxedUpTo(adj: Adjacency, dist: map<Vertex, int>, u: Vertex, d: int, j: int)
    requires u in adj && 0 <= j < |adj[u]|
    requires RelaxedUpTo(adj, dist, u, d, j)
    requires adj[u][j].v in dist && d + adj[u][j].w < dist[adj[u][j].v]
    ensures RelaxedUpTo(adj, dist[adj[u][j].v := d + adj[u][j].w], u, d, j + 1)
  {
  }

  // ---------------------------------------------------------------------------
  // Relaxation (lines 46-53)

  /** The invariants of the outer loop that concern the distances, the heap and the walks. */
  ghost predicate Core(edges: seq<Edge>, start: Vertex, dist: map<Vertex, int>, heap: seq<Entry>,
                       paths: map<Vertex, seq<Edge>>)
  {
    DistBounds(dist) && HeapSound(dist, heap) && Witnessed(edges, start, dist, paths)
  }

  /** The first `j` edges out of `u` are relaxed with `d`, and every other vertex is queued
      or relaxed. */
  ghost predicate Progress(adj: Adjacency, u: Vertex, d: int, j: int, dist: map<Vertex, int>, heap: seq<Entry>) {
    && u in adj && 0 <= j <= |adj[u]| && dist.Keys == adj.Keys
    && RelaxedUpTo(adj, dist, u, d, j)
    && QueuedOrRelaxedExcept(adj, dist, heap, u)
  }

  /** Distances only go down from `dist0`; unless nothing changed (as for a superseded
      entry) their sum went down strictly. */
  ghost predicate Shrinking(dist0: map<Vertex, int>, heap0: seq<Entry>, dist: map<Vertex, int>, heap: seq<Entry>,
                            stale: bool)
  {
    && dist.Keys == dist0.Keys
    && (forall v | v in dist :: dist[v] <= dist0[v])
    && (stale ==> dist == dist0 && heap == heap0)
    && ((dist == dist0 && heap == heap0) || SumMap(dist, dist.Keys) < SumMap(dist0, dist0.Keys))
  }

  /** What the pop of `[d, u]` guarantees: `d` is no better than the current distance of
      `u`, and unless it is that distance the edges out of `u` are already relaxed. */
  ghost predicate Popped(adj: Adjacency, u: Vertex, d: int, dist0: map<Vertex, int>) {
    && u in adj && dist0.Keys == adj.Keys
    && dist0[u] <= d < MAXSIZE
    && (d == dist0[u] || Relaxed(adj, dist0, u))
  }

  lemma UpdateKeepsCore(edges: seq<Edge>, start: Vertex, dist: map<Vertex, int>, heap: seq<Entry>,
                        paths: map<Vertex, seq<Edge>>, u: Vertex, d: int, nb: Neighbor,
                        dist': map<Vertex, int>, heap': seq<Entry>, paths': map<Vertex, seq<Edge>>)
    requires Core(edges, start, dist, heap, paths)
    requires u in dist && dist[u] == d < MAXSIZE && nb.w >= 0 && Edge(u, nb.v, nb.w) in edges
    requires nb.v in dist && d + nb.w < dist[nb.v]
    requires dist' == dist[nb.v := d + nb.w] && heap' == heap + [Entry(d + nb.w, nb.v)]
    requires paths' == paths[nb.v := paths[u] + [Edge(u, nb.v, nb.w)]]
    ensures Core(edges, start, dist', heap', paths')
  {
    UpdateKeepsBounds(dist, heap, u, d, nb);
    UpdateKeepsPaths(edges, start, dist, paths, u, d, nb);
  }

  lemma UpdateKeepsProgress(adj: Adjacency, u: Vertex, d: int, j: int, dist: map<Vertex, int>, heap: seq<Entry>,
                            dist': map<Vertex, int>, heap': seq<Entry>)
    requires Progress(adj, u, d, j, dist, heap)
    requires j < |adj[u]| && adj[u][j].v in dist && d + adj[u][j].w < dist[adj[u][j].v]
    requires dist' == dist[adj[u][j].v := d + adj[u][j].w]
    requires heap' == heap + [Entry(d + adj[u][j].w, adj[u][j].v)]
    ensures Progress(adj, u, d, j + 1, dist', heap')
  {
    UpdateKeepsQueued(adj, dist, heap, u, d, adj[u][j]);
    UpdateKeepsRelaxedUpTo(adj, dist, u, d, j);
  }

  /** An edge that does not improve its target extends the relaxed prefix by one. */
  lemma SkipKeepsProgress(adj: Adjacency, u: Vertex, d: int, j: int, dist: map<Vertex, int>, heap: seq<Entry>)
    requires Progress(adj, u, d, j, dist, heap)
    requires j < |adj[u]| && adj[u][j].v in dist && dist[adj[u][j].v] <= d + adj[u][j].w
    ensures Progress(adj, u, d, j + 1, dist, heap)
  {
  }

  lemma UpdateKeepsShrinking(dist0: map<Vertex, int>, heap0: seq<Entry>, dist: map<Vertex, int>, heap: seq<Entry>,
                             stale: bool, v: Vertex, nd: int, dist': map<Vertex, int>, heap': seq<Entry>)
    requires Shrinking(dist0, heap0, dist, heap, stale) && !stale
    requires v in dist && nd < dist[v]
    requires dist' == dist[v := nd]
    ensures Shrinking(dist0, heap0, dist', heap', stale)
  {
    SumMapUpdate(dist, dist.Keys, v, nd);
    assert dist'.Keys == dist.Keys;
  }

  /** A strict improvement through edge `j` out of `u` keeps every invariant of the inner
      loop.  It cannot come from a superseded entry, since then every edge out of `u` is
      already relaxed. */
  lemma ImproveKeeps(adj: Adjacency, edges: seq<Edge>, start: Vertex, u: Vertex, d: int, j: int,
                     dist0: map<Vertex, int>, heap0: seq<Entry>,
                     dist: map<Vertex, int>, heap: seq<Entry>, paths: map<Vertex, seq<Edge>>,
                     dist': map<Vertex, int>, heap': seq<Entry>, paths': map<Vertex, seq<Edge>>)
    requires Popped(adj, u, d, dist0)
    requires Progress(adj, u, d, j, dist, heap) && j < |adj[u]| && adj[u][j].v in dist
    requires adj[u][j].w >= 0 && Edge(u, adj[u][j].v, adj[u][j].w) in edges
    requires dist[u] == dist0[u]
    requires Core(edges, start, dist, heap, paths)
    requires Shrinking(dist0, heap0, dist, heap, d > dist0[u])
    requires d + adj[u][j].w < dist[adj[u][j].v]
    requires dist' == dist[adj[u][j].v := d + adj[u][j].w]
    requires heap' == heap + [Entry(d + adj[u][j].w, adj[u][j].v)]
    requires paths' == paths[adj[u][j].v := paths[u] + [Edge(u, adj[u][j].v, adj[u][j].w)]]
    ensures Progress(adj, u, d, j + 1, dist', heap')
    ensures dist'[u] == dist0[u]
    ensures Core(edges, start, dist', heap', paths')
    ensures Shrinking(dist0, heap0, dist', heap', d > dist0[u])
  {
    var nb := adj[u][j];
    assert dist0[nb.v] <= dist0[u] + nb.w || d == dist0[u];
    assert d == dist0[u];
    UpdateKeepsCore(edges, start, dist, heap, paths, u, d, nb, dist', heap', paths');
    UpdateKeepsProgress(adj, u, d, j, dist, heap, dist', heap');
    UpdateKeepsShrinking(dist0, heap0, dist, heap, d > dist0[u], nb.v, d + nb.w, dist', heap');
  }

  /** The invariant of the `while min_heap` loop. */
  ghost predicate Settling(adj: Adjacency, edges: seq<Edge>, start: Vertex, dist: map<Vertex, int>,
                           heap: seq<Entry>, paths: map<Vertex, seq<Edge>>)
  {
    && dist.Keys == adj.Keys && start in dist && dist[start] == 0
    && Core(edges, start, dist, heap, paths)
    && AllQueuedOrRelaxed(adj, dist, heap)
  }

  /** Popping a least entry `[d, v]` leaves the rest of the heap sound, every other vertex
      queued or relaxed, and either `d` current or `v` already relaxed: an entry carrying the
      current distance of `v` would be no larger than `d`. */
  lemma PopKeeps(adj: Adjacency, edges: seq<Edge>, start: Vertex, dist: map<Vertex, int>,
                 heap: seq<Entry>, paths: map<Vertex, seq<Edge>>, e: Entry, rest: seq<Entry>)
    requires Settling(adj, edges, start, dist, heap, paths)
    requires e in heap && forall i | 0 <= i < |heap| :: e.d <= heap[i].d
    requires multiset(rest) == multiset(heap) - multiset{e}
    ensures e.v in adj && dist[e.v] <= e.d < MAXSIZE
    ensures e.d == dist[e.v] || Relaxed(adj, dist, e.v)
    ensures Core(edges, start, dist, rest, paths)
    ensures QueuedOrRelaxedExcept(adj, dist, rest, e.v)
  {
    forall i | 0 <= i < |rest| ensures rest[i] in heap {
      assert rest[i] in multiset(rest);
    }
    assert QueuedOrRelaxed(adj, dist, heap, e.v);
    assert e.d == dist[e.v] || Entry(dist[e.v], e.v) !in heap;
    forall x | x in adj && x != e.v ensures QueuedOrRelaxed(adj, dist, rest, x) {
      assert QueuedOrRelaxed(adj, dist, heap, x);
      if dist[x] < MAXSIZE && Entry(dist[x], x) in heap {
        assert Entry(dist[x], x) in multiset(heap);
        assert Entry(dist[x], x) in multiset(rest);
      }
    }
  }

  /** With the heap empty every reached vertex is relaxed, so the distances are the
      shortest ones. */
  lemma SettledIsShortest(vertices: seq<Vertex>, edges: seq<Edge>, start: Vertex, adj: Adjacency,
                          dist: map<Vertex, int>, paths: map<Vertex, seq<Edge>>)
    requires adj.Keys == (set v | v in vertices)
    requires forall u | u in adj :: adj[u] == Outgoing(edges, u)
    requires forall i | 0 <= i < |edges| :: edges[i].w >= 0
    requires Settling(adj, edges, start, dist, [], paths)
    ensures ShortestDistances(vertices, edges, start, dist)
  {
    forall i | 0 <= i < |edges| && edges[i].from in dist && dist[edges[i].from] < MAXSIZE
      ensures edges[i].to in dist && dist[edges[i].to] <= dist[edges[i].from] + edges[i].w
    {
      assert QueuedOrRelaxed(adj, dist, [], edges[i].from);
      EdgeRelaxed(edges, adj, dist, i);
    }
    forall v, p | v in dist && IsWalk(edges, start, v, p)
      ensures dist[v] <= Weight(p)
    {
      WalkBound(edges, start, dist, v, p);
    }
  }

  /** With the heap empty, every edge leaving a vertex reached by a walk lighter than the
      sentinel ends at a vertex: had its head no distance, line 49 would have looked it up
      and raised `KeyError` before the loop ended. */
  lemma ReachedEdgeInside(vertices: seq<Vertex>, edges: seq<Edge>, start: Vertex, adj: Adjacency,
                          dist: map<Vertex, int>, paths: map<Vertex, seq<Edge>>, u: Vertex, p: seq<Edge>, i: nat)
    requires adj.Keys == (set v | v in vertices)
    requires forall x | x in adj :: adj[x] == Outgoing(edges, x)
    requires forall k | 0 <= k < |edges| :: edges[k].w >= 0
    requires Settling(adj, edges, start, dist, [], paths)
    requires IsWalk(edges, start, u, p) && Weight(p) < MAXSIZE
    requires i < |edges| && edges[i].from == u
    ensures edges[i].to in vertices
  {
    forall k | 0 <= k < |edges| && edges[k].from in dist && dist[edges[k].from] < MAXSIZE
      ensures edges[k].to in dist && dist[edges[k].to] <= dist[edges[k].from] + edges[k].w
    {
      assert QueuedOrRelaxed(adj, dist, [], edges[k].from);
      EdgeRelaxed(edges, adj, dist, k);
    }
    WalkBound(edges, start, dist, u, p);
    assert edges[i].to in dist;
  }

  /** A relaxed origin bounds the distance at the end of each of its edges. */
  lemma EdgeRelaxed(edges: seq<Edge>, adj: Adjacency, dist: map<Vertex, int>, i: nat)
    requires i < |edges| && edges[i].from in adj && edges[i].from in dist
    requires adj[edges[i].from] == Outgoing(edges, edges[i].from)
    requires Relaxed(adj, dist, edges[i].from)
    ensures edges[i].to in dist && dist[edges[i].to] <= dist[edges[i].from] + edges[i].w
  {
    var x := edges[i].from;
    OutgoingComplete(edges, i);
    var k :| 0 <= k < |adj[x]| && adj[x][k] == Neighbor(edges[i].to, edges[i].w);
  }

  /** Once no edge out of a reached vertex can improve a distance, no walk from the start
      is lighter than the distance of its end, and a walk ending outside the map weighs at
      least the sentinel. */
  lemma {:induction false} WalkBound(edges: seq<Edge>, start: Vertex, dist: map<Vertex, int>,
                                     t: Vertex, p: seq<Edge>)
    requires start in dist && dist[start] == 0
    requires forall v | v in dist :: dist[v] <= MAXSIZE
    requires forall i | 0 <= i < |edges| :: edges[i].w >= 0
    requires forall i | 0 <= i < |edges| && edges[i].from in dist && dist[edges[i].from] < MAXSIZE ::
      edges[i].to in dist && dist[edges[i].to] <= dist[edges[i].from] + edges[i].w
    requires IsWalk(edges, start, t, p)
    ensures t in dist ==> dist[t] <= Weight(p)
    ensures t !in dist ==> Weight(p) >= MAXSIZE
    decreases |p|
  {
    if p != [] {
      var q := p[..|p| - 1];
      var e := p[|p| - 1];
      assert IsWalk(edges, start, e.from, q);
      WalkBound(edges, start, dist, e.from, q);
      var i :| 0 <= i < |edges| && edges[i] == e;
    }
  }
}
