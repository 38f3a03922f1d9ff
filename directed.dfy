/** `calcular_metricas_parte2` of src/solve.py (lines 226-298): order, size and in/out
    degrees of the directed, weighted graph of part 2, whose adjacency lists hold only the
    arcs leaving each key. */
module Directed {
  import opened Wrappers
  import opened Sums
  import opened GraphModel

  /** The heads of the arcs leaving the keys in `done`. */
  function HeadsFrom(adj: Adjacency, done: set<Vertex>): set<Vertex>
    requires done <= adj.Keys
  {
    set k, i | k in done && 0 <= i < |adj[k]| :: adj[k][i].v
  }

  /** Lines 233-237: the keys and every vertex an arc points to. */
  function VertexSet(adj: Adjacency): set<Vertex> {
    adj.Keys + HeadsFrom(adj, adj.Keys)
  }

  function OutDegree(adj: Adjacency, v: Vertex): int {
    if v in adj then |adj[v]| else 0
  }

  /** The number of entries of `ns` that point to `v`. */
  function CountTo(ns: seq<Neighbor>, v: Vertex): nat {
    if ns == [] then 0
    else CountTo(ns[..|ns| - 1], v) + (if ns[|ns| - 1].v == v then 1 else 0)
  }

  /** At most one per entry, and some exactly when `v` is a target of the list. */
  lemma {:induction false} CountToTargets(ns: seq<Neighbor>, v: Vertex)
    ensures CountTo(ns, v) <= |ns|
    ensures CountTo(ns, v) > 0 <==> v in Targets(ns)
  {
    if ns != [] {
      var init := ns[..|ns| - 1];
      CountToTargets(init, v);
      TargetsAppend(init, [ns[|ns| - 1]]);
      assert init + [ns[|ns| - 1]] == ns;
    }
  }

  /** For each key, the number of its arcs into `v`. */
  function ArcsInto(adj: Adjacency, v: Vertex): map<Vertex, int> {
    map k | k in adj :: CountTo(adj[k], v)
  }

  /** The number of arcs into `v`, over all lists. */
  ghost function InDegree(adj: Adjacency, v: Vertex): int {
    SumMap(ArcsInto(adj, v), adj.Keys)
  }

  /** `(vertice, valor)` of `maior_out_degree` and `maior_in_degree`. */
  datatype Extreme = Extreme(vertice: Vertex, valor: int)

  /** The dictionary `calcular_metricas_parte2` returns (the constant `tipo` part aside). */
  datatype Part2 = Part2(
    numVertices: int, numArestas: int,
    outDegree: map<Vertex, int>, inDegree: map<Vertex, int>,
    maiorOut: Extreme, maiorIn: Extreme)

  /** `calcular_metricas_parte2`: `max` of an empty dict raises `ValueError`, which
      happens exactly for the empty graph. */
  method Part2Metrics(adj: Adjacency) returns (r: Result<Part2>)
    ensures r.Err? <==> adj == map[]
    ensures r.Err? ==> r.error == EmptyMax
    ensures r.Ok? ==> r.value.numVertices == |VertexSet(adj)| && r.value.numArestas == TotalLength(adj)
    ensures r.Ok? ==>
      (r.value.outDegree.Keys == VertexSet(adj) && forall v | v in VertexSet(adj) :: r.value.outDegree[v] == OutDegree(adj, v))
    ensures r.Ok? ==>
      (r.value.inDegree.Keys == VertexSet(adj) && forall v | v in VertexSet(adj) :: r.value.inDegree[v] == InDegree(adj, v))
    ensures r.Ok? ==> SumMap(r.value.outDegree, VertexSet(adj)) == r.value.numArestas == SumMap(r.value.inDegree, VertexSet(adj))
    ensures r.Ok? ==> IsMaximum(r.value.outDegree, r.value.maiorOut) && IsMaximum(r.value.inDegree, r.value.maiorIn)
  {
    var vertices := CollectVertices(adj);
    var v := |vertices|;
    var e := ArcCount(adj);
    VertexSetCovers(adj);
    var outDegree, inDegree := CountDegrees(adj, vertices);
    var maiorOut := MaxEntry(outDegree);
    var maiorIn := MaxEntry(inDegree);
    if maiorOut.Err? || maiorIn.Err? {
      return Err(EmptyMax);
    }
    if adj != map[] {
      var k :| k in adj;
      assert k in outDegree;
    }
    return Ok(Part2(v, e, outDegree, inDegree, maiorOut.value, maiorIn.value));
  }

  /** Every key and every head of an arc is a vertex. */
  lemma VertexSetCovers(adj: Adjacency)
    ensures adj.Keys <= VertexSet(adj)
    ensures forall k | k in adj :: Targets(adj[k]) <= VertexSet(adj)
  {
    forall k | k in adj ensures Targets(adj[k]) <= VertexSet(adj) {
      forall t | t in Targets(adj[k]) ensures t in HeadsFrom(adj, adj.Keys) {
        var i :| 0 <= i < |adj[k]| && adj[k][i].v == t;
      }
    }
  }

  /** Lines 233-237. */
  method CollectVertices(adj: Adjacency) returns (vertices: set<Vertex>)
    ensures vertices == VertexSet(adj)
  {
    vertices := adj.Keys;
    var remaining := adj.Keys;
    while remaining != {}
      invariant remaining <= adj.Keys
      invariant vertices == adj.Keys + HeadsFrom(adj, adj.Keys - remaining)
      decreases |remaining|
    {
      var origem :| origem in remaining;
      HeadsFromAdd(adj, adj.Keys - remaining, origem);
      vertices := AddHeads(vertices, adj[origem]);
      MoveToDone(adj.Keys, remaining, origem);
      remaining := remaining - {origem};
    }
    assert adj.Keys - remaining == adj.Keys;
  }

  /** Lines 235-237 for one list. */
  method AddHeads(vertices: set<Vertex>, vizinhos: seq<Neighbor>) returns (vertices': set<Vertex>)
    ensures vertices' == vertices + Targets(vizinhos)
  {
    vertices' := vertices;
    for j := 0 to |vizinhos|
      invariant vertices' == vertices + Targets(vizinhos[..j])
    {
      TargetsNext(vizinhos, j);
      vertices' := vertices' + {vizinhos[j].v};
    }
    assert vizinhos[..|vizinhos|] == vizinhos;
  }

  lemma HeadsFromAdd(adj: Adjacency, done: set<Vertex>, k: Vertex)
    requires done <= adj.Keys && k in adj
    ensures HeadsFrom(adj, done + {k}) == HeadsFrom(adj, done) + Targets(adj[k])
  {
  }

  lemma TargetsNext(ns: seq<Neighbor>, j: nat)
    requires j < |ns|
    ensures Targets(ns[..j + 1]) == Targets(ns[..j]) + {ns[j].v}
  {
    TargetsAppend(ns[..j], [ns[j]]);
    assert ns[..j + 1] == ns[..j] + [ns[j]];
  }

  /** Line 247: the number of arcs is the total length of the lists. */
  method ArcCount(adj: Adjacency) returns (e: int)
    ensures e == TotalLength(adj)
  {
    e := 0;
    var remaining := adj.Keys;
    while remaining != {}
      invariant remaining <= adj.Keys
      invariant e == SumMap(Degrees(adj), adj.Keys - remaining)
      decreases |remaining|
    {
      var origem :| origem in remaining;
      SumMapAdd(Degrees(adj), adj.Keys - remaining, origem);
      MoveToDone(adj.Keys, remaining, origem);
      e := e + |adj[origem]|;
      remaining := remaining - {origem};
    }
    assert adj.Keys - remaining == adj.Keys;
  }

  /** The vertex set holds every key and every head. */
  ghost predicate Covers(adj: Adjacency, vertices: set<Vertex>) {
    adj.Keys <= vertices && forall k | k in adj :: Targets(adj[k]) <= vertices
  }

  /** Lines 254-264: the in- and out-degree of every vertex.  Each sums to the number of
      arcs. */
  method CountDegrees(adj: Adjacency, vertices: set<Vertex>) returns (outDegree: map<Vertex, int>, inDegree: map<Vertex, int>)
    requires Covers(adj, vertices)
    ensures outDegree.Keys == vertices && forall v | v in vertices :: outDegree[v] == OutDegree(adj, v)
    ensures inDegree.Keys == vertices && forall v | v in vertices :: inDegree[v] == InDegree(adj, v)
    ensures SumMap(outDegree, vertices) == TotalLength(adj) == SumMap(inDegree, vertices)
  {
    outDegree := map v | v in vertices :: 0;
    inDegree := map v | v in vertices :: 0;
    DegreesStart(adj, vertices, outDegree, inDegree);
    outDegree, inDegree := ReadLists(adj, vertices, outDegree, inDegree);
    DegreesEnd(adj, vertices, adj.Keys, outDegree, inDegree);
  }

  /** Lines 258-264: the loop over the lists. */
  method ReadLists(adj: Adjacency, vertices: set<Vertex>, out0: map<Vertex, int>, in0: map<Vertex, int>)
    returns (outDegree: map<Vertex, int>, inDegree: map<Vertex, int>)
    requires Covers(adj, vertices)
    requires OutSoFar(adj, vertices, {}, out0) && InSoFar(adj, vertices, {}, in0)
    ensures OutSoFar(adj, vertices, adj.Keys, outDegree) && InSoFar(adj, vertices, adj.Keys, inDegree)
  {
    outDegree, inDegree := out0, in0;
    var remaining := adj.Keys;
    assert adj.Keys - remaining == {};
    while remaining != {}
      invariant remaining <= adj.Keys
      invariant OutSoFar(adj, vertices, adj.Keys - remaining, outDegree)
      invariant InSoFar(adj, vertices, adj.Keys - remaining, inDegree)
      decreases |remaining|
    {
      var origem :| origem in remaining;
      InPre(adj, vertices, adj.Keys - remaining, origem, inDegree);
      var outDegree' := outDegree[origem := outDegree[origem] + |adj[origem]|];
      var inDegree' := AddArcsInto(vertices, adj[origem], inDegree);
      DegreesStep(adj, vertices, remaining, origem, outDegree, inDegree, outDegree', inDegree');
      outDegree, inDegree := outDegree', inDegree';
      remaining := remaining - {origem};
    }
    assert adj.Keys - remaining == adj.Keys;
  }

  /** The out-degree table after the lists of the keys in `done` have been read. */
  ghost predicate OutSoFar(adj: Adjacency, vertices: set<Vertex>, done: set<Vertex>, outDegree: map<Vertex, int>) {
    && Covers(adj, vertices)
    && done <= adj.Keys
    && outDegree.Keys == vertices
    && (forall v | v in vertices :: outDegree[v] == if v in done then |adj[v]| else 0)
    && SumMap(outDegree, vertices) == SumMap(Degrees(adj), done)
  }

  /** The in-degree table after the lists of the keys in `done` have been read. */
  ghost predicate InSoFar(adj: Adjacency, vertices: set<Vertex>, done: set<Vertex>, inDegree: map<Vertex, int>) {
    && done <= adj.Keys
    && inDegree.Keys == vertices
    && (forall v | v in vertices :: inDegree[v] == SumMap(ArcsInto(adj, v), done))
    && SumMap(inDegree, vertices) == SumMap(Degrees(adj), done)
  }

  lemma DegreesStart(adj: Adjacency, vertices: set<Vertex>, outDegree: map<Vertex, int>, inDegree: map<Vertex, int>)
    requires Covers(adj, vertices)
    requires outDegree == map v | v in vertices :: 0
    requires inDegree == map v | v in vertices :: 0
    ensures OutSoFar(adj, vertices, {}, outDegree)
    ensures InSoFar(adj, vertices, {}, inDegree)
  {
    SumMapZero(outDegree, vertices);
    SumMapZero(inDegree, vertices);
  }

  /** Line 260 for the key `o`: its out-degree becomes the length of its list. */
  lemma OutStep(adj: Adjacency, vertices: set<Vertex>, done: set<Vertex>, o: Vertex,
                outDegree: map<Vertex, int>, outDegree': map<Vertex, int>)
    requires OutSoFar(adj, vertices, done, outDegree)
    requires o in adj && o !in done
    requires outDegree' == outDegree[o := outDegree[o] + |adj[o]|]
    ensures OutSoFar(adj, vertices, done + {o}, outDegree')
  {
    SumMapUpdate(outDegree, vertices, o, outDegree[o] + |adj[o]|);
    SumMapAdd(Degrees(adj), done, o);
  }

  /** Lines 262-264 for one list: one more arc into each of its heads. */
  method AddArcsInto(vertices: set<Vertex>, vizinhos: seq<Neighbor>, inDegree: map<Vertex, int>)
    returns (inDegree': map<Vertex, int>)
    requires inDegree.Keys == vertices && Targets(vizinhos) <= vertices
    ensures inDegree'.Keys == vertices
    ensures forall v | v in vertices :: inDegree'[v] == inDegree[v] + CountTo(vizinhos, v)
    ensures SumMap(inDegree', vertices) == SumMap(inDegree, vertices) + |vizinhos|
  {
    inDegree' := inDegree;
    for j := 0 to |vizinhos|
      invariant inDegree'.Keys == vertices
      invariant forall v | v in vertices :: inDegree'[v] == inDegree[v] + CountTo(vizinhos[..j], v)
      invariant SumMap(inDegree', vertices) == SumMap(inDegree, vertices) + j
    {
      var destino := vizinhos[j].v;
      assert destino in Targets(vizinhos);
      var next := inDegree'[destino := inDegree'[destino] + 1];
      InStep(vertices, vizinhos, j, inDegree, inDegree', next);
      inDegree' := next;
    }
    assert vizinhos[..|vizinhos|] == vizinhos;
  }

  lemma InPre(adj: Adjacency, vertices: set<Vertex>, done: set<Vertex>, o: Vertex, inDegree: map<Vertex, int>)
    requires Covers(adj, vertices) && InSoFar(adj, vertices, done, inDegree) && o in adj
    ensures inDegree.Keys == vertices && Targets(adj[o]) <= vertices
  {
  }

  /** Reading the list of `o` moves it from `remaining` to the visited keys. */
  lemma DegreesStep(adj: Adjacency, vertices: set<Vertex>, remaining: set<Vertex>, o: Vertex,
                    outDegree: map<Vertex, int>, inDegree: map<Vertex, int>,
                    outDegree': map<Vertex, int>, inDegree': map<Vertex, int>)
    requires remaining <= adj.Keys && o in remaining
    requires OutSoFar(adj, vertices, adj.Keys - remaining, outDegree)
    requires InSoFar(adj, vertices, adj.Keys - remaining, inDegree)
    requires outDegree' == outDegree[o := outDegree[o] + |adj[o]|]
    requires inDegree'.Keys == vertices
    requires forall v | v in vertices :: inDegree'[v] == inDegree[v] + CountTo(adj[o], v)
    requires SumMap(inDegree', vertices) == SumMap(inDegree, vertices) + |adj[o]|
    ensures OutSoFar(adj, vertices, adj.Keys - (remaining - {o}), outDegree')
    ensures InSoFar(adj, vertices, adj.Keys - (remaining - {o}), inDegree')
  {
    MoveToDone(adj.Keys, remaining, o);
    OutStep(adj, vertices, adj.Keys - remaining, o, outDegree, outDegree');
    InEnd(adj, vertices, adj.Keys - remaining, o, inDegree, inDegree');
    SumMapAdd(Degrees(adj), adj.Keys - remaining, o);
  }

  lemma InStep(vertices: set<Vertex>, ns: seq<Neighbor>, j: nat,
               inDegree: map<Vertex, int>, cur: map<Vertex, int>, next: map<Vertex, int>)
    requires j < |ns| && ns[j].v in vertices
    requires cur.Keys == vertices && inDegree.Keys == vertices
    requires forall v | v in vertices :: cur[v] == inDegree[v] + CountTo(ns[..j], v)
    requires SumMap(cur, vertices) == SumMap(inDegree, vertices) + j
    requires next == cur[ns[j].v := cur[ns[j].v] + 1]
    ensures next.Keys == vertices
    ensures forall v | v in vertices :: next[v] == inDegree[v] + CountTo(ns[..j + 1], v)
    ensures SumMap(next, vertices) == SumMap(inDegree, vertices) + j + 1
  {
    assert ns[..j + 1][..j] == ns[..j];
    SumMapUpdate(cur, vertices, ns[j].v, cur[ns[j].v] + 1);
  }

  lemma InEnd(adj: Adjacency, vertices: set<Vertex>, done: set<Vertex>, o: Vertex,
              inDegree: map<Vertex, int>, inDegree': map<Vertex, int>)
    requires done <= adj.Keys && o in adj && o !in done
    requires inDegree.Keys == vertices && inDegree'.Keys == vertices
    requires forall v | v in vertices :: inDegree[v] == SumMap(ArcsInto(adj, v), done)
    requires forall v | v in vertices :: inDegree'[v] == inDegree[v] + CountTo(adj[o], v)
    ensures forall v | v in vertices :: inDegree'[v] == SumMap(ArcsInto(adj, v), done + {o})
  {
    forall v | v in vertices ensures inDegree'[v] == SumMap(ArcsInto(adj, v), done + {o}) {
      InEndOne(adj, done, o, v);
    }
  }

  lemma InEndOne(adj: Adjacency, done: set<Vertex>, o: Vertex, v: Vertex)
    requires done <= adj.Keys && o in adj && o !in done
    ensures SumMap(ArcsInto(adj, v), done + {o}) == SumMap(ArcsInto(adj, v), done) + CountTo(adj[o], v)
  {
    SumMapAdd(ArcsInto(adj, v), done, o);
  }

  lemma DegreesEnd(adj: Adjacency, vertices: set<Vertex>, done: set<Vertex>,
                   outDegree: map<Vertex, int>, inDegree: map<Vertex, int>)
    requires OutSoFar(adj, vertices, done, outDegree) && InSoFar(adj, vertices, done, inDegree)
    requires done == adj.Keys
    ensures outDegree.Keys == vertices && forall v | v in vertices :: outDegree[v] == OutDegree(adj, v)
    ensures inDegree.Keys == vertices && forall v | v in vertices :: inDegree[v] == InDegree(adj, v)
    ensures SumMap(outDegree, vertices) == TotalLength(adj) == SumMap(inDegree, vertices)
  {
  }

  /** `(vertice, valor)` is an entry of `m` with the largest value. */
  predicate IsMaximum(m: map<Vertex, int>, x: Extreme) {
    x.vertice in m && m[x.vertice] == x.valor && forall k | k in m :: m[k] <= x.valor
  }

  /** Lines 270-271: `max(d.items(), key=lambda x: x[1])`, and its `ValueError` on an
      empty dict.  Which of several equal maxima is returned follows dict order, which is
      not modelled. */
  method MaxEntry(m: map<Vertex, int>) returns (r: Result<Extreme>)
    ensures r.Err? <==> m == map[]
    ensures r.Err? ==> r.error == EmptyMax
    ensures r.Ok? ==> IsMaximum(m, r.value)
  {
    if m == map[] {
      return Err(EmptyMax);
    }
    var first :| first in m;
    var best := Extreme(first, m[first]);
    var remaining := m.Keys - {first};
    while remaining != {}
      invariant remaining <= m.Keys
      invariant best.vertice in m && m[best.vertice] == best.valor
      invariant forall k | k in m && k !in remaining :: m[k] <= best.valor
      decreases |remaining|
    {
      var k :| k in remaining;
      if m[k] > best.valor {
        best := Extreme(k, m[k]);
      }
      remaining := remaining - {k};
    }
    return Ok(best);
  }

  /** When every head is a key (as on a graph whose loader registers both ends of each
      arc), the order is the number of keys. */
  lemma OrderOfClosed(adj: Adjacency)
    requires forall k | k in adj :: Targets(adj[k]) <= adj.Keys
    ensures |VertexSet(adj)| == |adj|
  {
    assert VertexSet(adj) == adj.Keys;
  }
}
