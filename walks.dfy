/** Walks along the edge list of `dijkstra` (src/graphs/algorithms.py), the neighbour
    lists built from it, and what a correct shortest-distance result is. */
module Walks {
  import opened GraphModel

  /** `sys.maxsize` on a 64-bit interpreter: the "not reached" distance. */
  const MAXSIZE: int := 9223372036854775807

  /** One `[v_origem, v_destino, peso]` element of `arestas`. */
  datatype Edge = Edge(from: Vertex, to: Vertex, w: int)

  /** One `[distancia, vertice]` element of `min_heap`. */
  datatype Entry = Entry(d: int, v: Vertex)

  // ---------------------------------------------------------------------------
  // Walks

  /** `p` is a walk along `edges` from `s` to `t` (possibly repeating vertices). */
  ghost predicate IsWalk(edges: seq<Edge>, s: Vertex, t: Vertex, p: seq<Edge>) {
    && (forall i | 0 <= i < |p| :: p[i] in edges)
    && (p == [] ==> s == t)
    && (p != [] ==> p[0].from == s && p[|p| - 1].to == t)
    && (forall i | 0 <= i < |p| - 1 :: p[i].to == p[i + 1].from)
  }

  /** Total weight of a walk. */
  function Weight(p: seq<Edge>): int {
    if p == [] then 0 else Weight(p[..|p| - 1]) + p[|p| - 1].w
  }

  lemma WalkExtend(edges: seq<Edge>, s: Vertex, p: seq<Edge>, e: Edge)
    requires IsWalk(edges, s, e.from, p) && e in edges
    ensures IsWalk(edges, s, e.to, p + [e])
    ensures Weight(p + [e]) == Weight(p) + e.w
  {
    assert (p + [e])[..|p|] == p;
  }

  /** What the result of `dijkstra` means: a distance for exactly the given vertices, 0 at
      the start, the sentinel at most; every distance below the sentinel is the weight of
      a walk from the start, and no walk from the start is lighter than the distance of
      its end vertex. */
  ghost predicate ShortestDistances(vertices: seq<Vertex>, edges: seq<Edge>, start: Vertex,
                                    dist: map<Vertex, int>)
  {
    && dist.Keys == (set v | v in vertices)
    && start in dist && dist[start] == 0
    && (forall v | v in dist :: 0 <= dist[v] <= MAXSIZE)
    && (forall v | v in dist && dist[v] < MAXSIZE ::
          exists p :: IsWalk(edges, start, v, p) && Weight(p) == dist[v])
    && (forall v, p | v in dist && IsWalk(edges, start, v, p) :: dist[v] <= Weight(p))
  }

  /** The specification determines the distances: two results meeting it are equal. */
  lemma ShortestDistancesUnique(vertices: seq<Vertex>, edges: seq<Edge>, start: Vertex,
                                d1: map<Vertex, int>, d2: map<Vertex, int>)
    requires ShortestDistances(vertices, edges, start, d1)
    requires ShortestDistances(vertices, edges, start, d2)
    ensures d1 == d2
  {
    assert d1.Keys == d2.Keys;
    forall v | v in d1 ensures d1[v] == d2[v] {
      if d1[v] < MAXSIZE {
        var p :| IsWalk(edges, start, v, p) && Weight(p) == d1[v];
        assert d2[v] <= Weight(p);
      }
      if d2[v] < MAXSIZE {
        var p :| IsWalk(edges, start, v, p) && Weight(p) == d2[v];
        assert d1[v] <= Weight(p);
      }
    }
  }

  // ---------------------------------------------------------------------------
  // Neighbour lists (lines 12-20)

  /** `lista_adjacencia[u]`: the `[v_destino, peso]` pairs of the edges leaving `u`, in
      the order of `arestas`, duplicates kept. */
  function Outgoing(edges: seq<Edge>, u: Vertex): seq<Neighbor> {
    if edges == [] then []
    else
      var e := edges[|edges| - 1];
      Outgoing(edges[..|edges| - 1], u) + (if e.from == u then [Neighbor(e.to, e.w)] else [])
  }

  /** Every neighbour entry comes from an edge leaving `u`. */
  lemma {:induction false} OutgoingSound(edges: seq<Edge>, u: Vertex, k: nat)
    requires k < |Outgoing(edges, u)|
    ensures Edge(u, Outgoing(edges, u)[k].v, Outgoing(edges, u)[k].w) in edges
    decreases |edges|
  {
    var init := edges[..|edges| - 1];
    if k < |Outgoing(init, u)| {
      OutgoingSound(init, u, k);
      assert Edge(u, Outgoing(init, u)[k].v, Outgoing(init, u)[k].w) in init;
    } else {
      assert edges[|edges| - 1] == Edge(u, Outgoing(edges, u)[k].v, Outgoing(edges, u)[k].w);
    }
  }

  /** Every edge appears in its origin's neighbour list. */
  lemma {:induction false} OutgoingComplete(edges: seq<Edge>, i: nat)
    requires i < |edges|
    ensures Neighbor(edges[i].to, edges[i].w) in Outgoing(edges, edges[i].from)
    decreases |edges|
  {
    var init := edges[..|edges| - 1];
    if i < |edges| - 1 {
      OutgoingComplete(init, i);
      assert init[i] == edges[i];
    }
  }

}
