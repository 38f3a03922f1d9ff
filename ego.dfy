/** `ego_network_metricas` of src/solve.py (lines 118-171): for every neighbourhood, the
    subgraph made of it and its neighbours. */
module Ego {
  import opened Wrappers
  import opened GraphModel
  import opened Counting
  import opened Sums
  import Graph

  /** Line 135: the neighbourhood and every vertex its list points to. */
  function EgoVertices(adj: Adjacency, b: Vertex): set<Vertex>
    requires b in adj
  {
    {b} + Targets(adj[b])
  }

  /** The pairs `(u, v)` for an entry `v` of the list `ns` of `u` with `v` in `ego`. */
  function ListEdges(u: Vertex, ns: seq<Neighbor>, ego: set<Vertex>): set<(Vertex, Vertex)> {
    set i | 0 <= i < |ns| && ns[i].v in ego :: (u, ns[i].v)
  }

  /** Lines 140-149, after the vertices in `done` have been visited. */
  function EdgesFrom(adj: Adjacency, ego: set<Vertex>, done: set<Vertex>): set<(Vertex, Vertex)>
    requires done <= adj.Keys
  {
    set u, i | u in done && 0 <= i < |adj[u]| && adj[u][i].v in ego :: (u, adj[u][i].v)
  }

  /** Every vertex of the graph has a list of its own: nothing in `ego_network_metricas`
      looks up a missing key. */
  predicate Closed(adj: Adjacency) {
    forall k | k in adj :: Targets(adj[k]) <= adj.Keys
  }

  /** One row of `ego_bairro.csv`; `densidade` is the corrected density (see
      `DensityAsWritten`). */
  datatype EgoRow = EgoRow(bairro: Vertex, grau: int, ordem: int, tamanho: int, densidade: real)

  /** Lines 156-159 as written: the edge count over the number of unordered vertex pairs. */
  function DensityAsWritten(ordem: int, tamanho: int): real {
    if ordem > 1 then tamanho as real / ((ordem * (ordem - 1)) as real / 2.0) else 0.0
  }

  /** The edges of the ego network that join two different vertices. */
  function LoopFree(e: set<(Vertex, Vertex)>): set<(Vertex, Vertex)> {
    set p | p in e && p.0 != p.1
  }

  /** The density the lines promise: every edge is stored in both directions, so the
      ordered pairs with distinct ends are counted over the ordered vertex pairs. */
  function EgoDensity(ordem: int, arcs: int): real {
    if ordem > 1 then arcs as real / (ordem * (ordem - 1)) as real else 0.0
  }

  /** The row `ego_network_metricas` computes for `b`. */
  function EgoRowSpec(adj: Adjacency, b: Vertex): EgoRow
    requires b in adj && EgoVertices(adj, b) <= adj.Keys
  {
    var ego := EgoVertices(adj, b);
    var e := EdgesFrom(adj, ego, ego);
    EgoRow(b, |adj[b]|, |ego|, |e|, EgoDensity(|ego|, |LoopFree(e)|))
  }

  /** Lines 120-167 for one neighbourhood; `KeyError` when some vertex of the ego
      network has no list of its own (line 143). */
  method EgoRowOf(adj: Adjacency, b: Vertex) returns (r: Result<EgoRow>)
    requires b in adj
    ensures r.Ok? <==> EgoVertices(adj, b) <= adj.Keys
    ensures r.Ok? ==> r.value == EgoRowSpec(adj, b)
    ensures r.Err? ==> r.error.KeyError? && r.error.key in EgoVertices(adj, b) && r.error.key !in adj
  {
    var vizinhos: seq<Vertex> := [];
    for i := 0 to |adj[b]|
      invariant |vizinhos| == i
      invariant forall k | 0 <= k < i :: vizinhos[k] == adj[b][k].v
    {
      vizinhos := vizinhos + [adj[b][i].v];
    }
    var grau := |vizinhos|;
    var ego := set x | x in [b] + vizinhos;
    EgoFromList(adj, b, vizinhos, ego);
    var arestas :- CollectEdges(adj, ego);
    var ordem := |ego|;
    var tamanho := |arestas|;
    var densidade := EgoDensity(ordem, |LoopFree(arestas)|);
    return Ok(EgoRow(b, grau, ordem, tamanho, densidade));
  }

  /** Lines 137-149: the edges between vertices of `ego`, or the `KeyError` of line 143. */
  method CollectEdges(adj: Adjacency, ego: set<Vertex>) returns (r: Result<set<(Vertex, Vertex)>>)
    ensures r.Ok? <==> ego <= adj.Keys
    ensures r.Ok? ==> ego <= adj.Keys && r.value == EdgesFrom(adj, ego, ego)
    ensures r.Err? ==> r.error.KeyError? && r.error.key in ego && r.error.key !in adj
  {
    var arestas: set<(Vertex, Vertex)> := {};
    var remaining := ego;
    ghost var done: set<Vertex> := {};
    while remaining != {}
      invariant remaining <= ego && done == ego - remaining && done <= adj.Keys
      invariant arestas == EdgesFrom(adj, ego, done)
      decreases |remaining|
    {
      var u :| u in remaining;
      if u !in adj {
        return Err(KeyError(u));
      }
      arestas := AddEdgesOf(adj, ego, u, arestas, done);
      remaining := remaining - {u};
      done := done + {u};
    }
    assert done == ego;
    return Ok(arestas);
  }

  lemma EgoFromList(adj: Adjacency, b: Vertex, vizinhos: seq<Vertex>, ego: set<Vertex>)
    requires b in adj && |vizinhos| == |adj[b]|
    requires forall k | 0 <= k < |vizinhos| :: vizinhos[k] == adj[b][k].v
    requires ego == set x | x in [b] + vizinhos
    ensures ego == EgoVertices(adj, b)
  {
    forall x | x in ego ensures x in EgoVertices(adj, b) {
      var k :| 0 <= k < |[b] + vizinhos| && ([b] + vizinhos)[k] == x;
      if k > 0 { assert adj[b][k - 1].v == x; }
    }
    forall x | x in EgoVertices(adj, b) ensures x in ego {
      if x != b {
        var k :| 0 <= k < |adj[b]| && adj[b][k].v == x;
        assert ([b] + vizinhos)[k + 1] == x;
      } else {
        assert ([b] + vizinhos)[0] == x;
      }
    }
  }

  /** Lines 143-149 for one vertex `u` of the ego network. */
  method AddEdgesOf(adj: Adjacency, ego: set<Vertex>, u: Vertex, arestas: set<(Vertex, Vertex)>, ghost done: set<Vertex>)
    returns (arestas': set<(Vertex, Vertex)>)
    requires u in adj && done <= adj.Keys
    requires arestas == EdgesFrom(adj, ego, done)
    ensures arestas' == EdgesFrom(adj, ego, done + {u})
  {
    arestas' := arestas;
    var ns := adj[u];
    for j := 0 to |ns|
      invariant arestas' == arestas + ListEdges(u, ns[..j], ego)
    {
      ListEdgesNext(u, ns, j, ego);
      if ns[j].v in ego {
        arestas' := arestas' + {(u, ns[j].v)};
      }
    }
    assert ns[..|ns|] == ns;
    EdgesFromAdd(adj, ego, done, u);
  }

  lemma ListEdgesNext(u: Vertex, ns: seq<Neighbor>, j: nat, ego: set<Vertex>)
    requires j < |ns|
    ensures ListEdges(u, ns[..j + 1], ego)
         == ListEdges(u, ns[..j], ego) + (if ns[j].v in ego then {(u, ns[j].v)} else {})
  {
    var a, b := ns[..j + 1], ns[..j];
    forall p | p in ListEdges(u, a, ego) ensures p in ListEdges(u, b, ego) || (ns[j].v in ego && p == (u, ns[j].v)) {
      var i :| 0 <= i < |a| && a[i].v in ego && p == (u, a[i].v);
      if i < j { assert b[i] == a[i]; }
    }
    forall p | p in ListEdges(u, b, ego) ensures p in ListEdges(u, a, ego) {
      var i :| 0 <= i < |b| && b[i].v in ego && p == (u, b[i].v);
      assert a[i] == b[i];
    }
    if ns[j].v in ego {
      assert a[j] == ns[j];
    }
  }

  lemma EdgesFromAdd(adj: Adjacency, ego: set<Vertex>, done: set<Vertex>, u: Vertex)
    requires u in adj && done <= adj.Keys
    ensures EdgesFrom(adj, ego, done + {u}) == EdgesFrom(adj, ego, done) + ListEdges(u, adj[u], ego)
  {
  }

  /** `ego_network_metricas`: a row per neighbourhood (in some order: dict order is not
      modelled), or the `KeyError` of a vertex that is a neighbour but not a key. */
  method EgoNetworkMetrics(adj: Adjacency) returns (r: Result<seq<EgoRow>>)
    ensures r.Ok? <==> Closed(adj)
    ensures r.Ok? ==> |r.value| == |adj|
    ensures r.Ok? ==> forall i | 0 <= i < |r.value| ::
      r.value[i].bairro in adj && r.value[i] == EgoRowSpec(adj, r.value[i].bairro)
    ensures r.Ok? ==> forall i, j | 0 <= i < j < |r.value| :: r.value[i].bairro != r.value[j].bairro
    ensures r.Err? ==>
      (r.error.KeyError? && r.error.key !in adj && exists k | k in adj :: r.error.key in Targets(adj[k]))
  {
    var results: seq<EgoRow> := [];
    var remaining := adj.Keys;
    while remaining != {}
      invariant RowsSoFar(adj, remaining, results)
      decreases |remaining|
    {
      var bairro :| bairro in remaining;
      var row := EgoRowOf(adj, bairro);
      if row.Err? {
        return Err(row.error);
      }
      RowsStep(adj, remaining, results, bairro, row.value);
      results := results + [row.value];
      remaining := remaining - {bairro};
    }
    RowsEnd(adj, remaining, results);
    return Ok(results);
  }

  /** The rows of every key visited so far (all but `remaining`), once each. */
  ghost predicate RowsSoFar(adj: Adjacency, remaining: set<Vertex>, results: seq<EgoRow>) {
    && remaining <= adj.Keys
    && (forall k | k in adj.Keys - remaining :: EgoVertices(adj, k) <= adj.Keys)
    && |results| + |remaining| == |adj|
    && (forall i | 0 <= i < |results| ::
         (results[i].bairro in adj && results[i].bairro !in remaining
          && EgoVertices(adj, results[i].bairro) <= adj.Keys && results[i] == EgoRowSpec(adj, results[i].bairro)))
    && (forall i, j | 0 <= i < j < |results| :: results[i].bairro != results[j].bairro)
  }

  lemma RowsStep(adj: Adjacency, remaining: set<Vertex>, results: seq<EgoRow>, b: Vertex, row: EgoRow)
    requires RowsSoFar(adj, remaining, results) && b in remaining
    requires EgoVertices(adj, b) <= adj.Keys && row == EgoRowSpec(adj, b)
    ensures RowsSoFar(adj, remaining - {b}, results + [row])
  {
    MoveToDone(adj.Keys, remaining, b);
    assert |remaining - {b}| == |remaining| - 1;
  }

  lemma RowsEnd(adj: Adjacency, remaining: set<Vertex>, results: seq<EgoRow>)
    requires RowsSoFar(adj, remaining, results) && remaining == {}
    ensures Closed(adj)
    ensures |results| == |adj|
    ensures forall i | 0 <= i < |results| ::
      results[i].bairro in adj && EgoVertices(adj, results[i].bairro) <= adj.Keys
      && results[i] == EgoRowSpec(adj, results[i].bairro)
    ensures forall i, j | 0 <= i < j < |results| :: results[i].bairro != results[j].bairro
  {
    assert adj.Keys - remaining == adj.Keys;
  }

  // ---------------------------------------------------------------------------------
  // Properties
  // ---------------------------------------------------------------------------------

  lemma {:induction false} TargetsCard(ns: seq<Neighbor>)
    ensures |Targets(ns)| <= |ns|
  {
    if ns != [] {
      var init := ns[..|ns| - 1];
      TargetsCard(init);
      assert Targets(ns) == Targets(init) + {ns[|ns| - 1].v};
    }
  }

  /** The ego network has the neighbourhood and at most one vertex per entry; it holds at
      least the edges from the neighbourhood to each of its neighbours and at most one per
      ordered pair of its vertices; the density is between 0 and 1. */
  lemma EgoBounds(adj: Adjacency, b: Vertex)
    requires b in adj && EgoVertices(adj, b) <= adj.Keys
    ensures EgoRowSpec(adj, b).grau == |adj[b]|
    ensures 1 <= EgoRowSpec(adj, b).ordem <= EgoRowSpec(adj, b).grau + 1
    ensures EgoRowSpec(adj, b).ordem - 1 <= EgoRowSpec(adj, b).tamanho
    ensures EgoRowSpec(adj, b).tamanho <= EgoRowSpec(adj, b).ordem * EgoRowSpec(adj, b).ordem
    ensures 0.0 <= EgoRowSpec(adj, b).densidade <= 1.0
    ensures EgoRowSpec(adj, b).ordem <= 1 ==> EgoRowSpec(adj, b).densidade == 0.0
  {
    var ego := EgoVertices(adj, b);
    var e := EdgesFrom(adj, ego, ego);
    TargetsCard(adj[b]);
    assert |ego| <= 1 + |Targets(adj[b])|;
    assert ego - {b} <= Targets(adj[b]);
    SubsetCard(ego - {b}, Targets(adj[b]));
    assert Row(b, Targets(adj[b])) <= e by {
      forall p | p in Row(b, Targets(adj[b])) ensures p in e {
        var i :| 0 <= i < |adj[b]| && adj[b][i].v == p.1;
      }
    }
    RowCard(b, Targets(adj[b]));
    SubsetCard(Row(b, Targets(adj[b])), e);
    PairsBound(e, ego);
    PairsBound(LoopFree(e), ego);
    EgoDensityRange(|ego|, |LoopFree(e)|);
  }

  /** Lines 140-149: `(u, v)` is an ego edge exactly when both ends are in the ego
      network and `v` is on the list of `u`. */
  lemma EgoEdgesIff(adj: Adjacency, b: Vertex, u: Vertex, v: Vertex)
    requires b in adj && EgoVertices(adj, b) <= adj.Keys
    ensures (u, v) in EdgesFrom(adj, EgoVertices(adj, b), EgoVertices(adj, b))
      <==> u in EgoVertices(adj, b) && v in EgoVertices(adj, b) && v in Targets(adj[u])
  {
    var ego := EgoVertices(adj, b);
    if u in ego && v in ego && v in Targets(adj[u]) {
      var i :| 0 <= i < |adj[u]| && adj[u][i].v == v;
      assert (u, adj[u][i].v) in EdgesFrom(adj, ego, ego);
    }
  }

  lemma EgoDensityRange(n: int, arcs: int)
    requires 0 <= arcs && (n > 1 ==> arcs <= n * n - n)
    ensures 0.0 <= EgoDensity(n, arcs) <= 1.0
  {
    if n > 1 {
      assert (n * (n - 1)) as real > 0.0;
      assert arcs <= n * (n - 1);
    }
  }

  /** The as-written density divides by half as many pairs as the corrected one. */
  lemma HalfPairs(ordem: int, arcs: int)
    ensures DensityAsWritten(ordem, arcs) == 2.0 * EgoDensity(ordem, arcs)
  {
    if ordem > 1 {
      var d := (ordem * (ordem - 1)) as real;
      assert d > 0.0;
      assert arcs as real / (d / 2.0) == 2.0 * (arcs as real / d);
    }
  }

  /** Lines 156-159 against the corrected row: the density as written is at least twice the
      corrected one, and exactly twice when no ego vertex lists itself. */
  lemma AsWrittenDoubles(adj: Adjacency, b: Vertex)
    requires b in adj && EgoVertices(adj, b) <= adj.Keys
    ensures var r := EgoRowSpec(adj, b); DensityAsWritten(r.ordem, r.tamanho) >= 2.0 * r.densidade
    ensures (forall u | u in EgoVertices(adj, b) :: u !in Targets(adj[u])) ==>
      (var r := EgoRowSpec(adj, b); DensityAsWritten(r.ordem, r.tamanho) == 2.0 * r.densidade)
  {
    var ego := EgoVertices(adj, b);
    var e := EdgesFrom(adj, ego, ego);
    Counting.SubsetCard(LoopFree(e), e);
    HalfPairs(|ego|, |e|);
    DensityMonotone(|ego|, |LoopFree(e)|, |e|);
    if forall u | u in ego :: u !in Targets(adj[u]) {
      NoSelfLoops(adj, b);
    }
  }

  lemma DensityMonotone(n: int, a: int, c: int)
    requires 0 <= a <= c
    ensures EgoDensity(n, a) <= EgoDensity(n, c)
  {
    if n > 1 {
      assert (n * (n - 1)) as real > 0.0;
    }
  }

  /** With no vertex listing itself, the ego network has no loop edge. */
  lemma NoSelfLoops(adj: Adjacency, b: Vertex)
    requires b in adj && EgoVertices(adj, b) <= adj.Keys
    requires forall u | u in EgoVertices(adj, b) :: u !in Targets(adj[u])
    ensures var e := EdgesFrom(adj, EgoVertices(adj, b), EgoVertices(adj, b)); LoopFree(e) == e
  {
    var e := EdgesFrom(adj, EgoVertices(adj, b), EgoVertices(adj, b));
    forall p | p in e ensures p.0 != p.1 {
      EgoEdgesIff(adj, b, p.0, p.1);
    }
  }

  /** One street between two neighbourhoods: the ego network of either has two vertices
      and one street, yet the as-written density is 2. */
  lemma OneStreetDensityTwo()
    ensures var adj := map["a" := [Neighbor("b", 1)], "b" := [Neighbor("a", 1)]];
      && EgoVertices(adj, "a") <= adj.Keys
      && EgoRowSpec(adj, "a").ordem == 2
      && EgoRowSpec(adj, "a").tamanho == 2
      && DensityAsWritten(EgoRowSpec(adj, "a").ordem, EgoRowSpec(adj, "a").tamanho) == 2.0
      && EgoRowSpec(adj, "a").densidade == 1.0
  {
    var adj := map["a" := [Neighbor("b", 1)], "b" := [Neighbor("a", 1)]];
    var ego := EgoVertices(adj, "a");
    assert Targets(adj["a"]) == {"b"} by {
      assert adj["a"][0].v == "b";
    }
    assert ego == {"a", "b"};
    var e := EdgesFrom(adj, ego, ego);
    assert e == {("a", "b"), ("b", "a")} by {
      assert adj["a"][0].v == "b";
      assert adj["b"][0].v == "a";
    }
    assert LoopFree(e) == e;
  }

  /** On a graph built by the loader every neighbour is a vertex: the metrics never
      raise `KeyError`. */
  lemma {:induction false} LoadedClosed(ls: seq<Graph.Link>, u: Vertex)
    ensures Targets(Graph.EntriesFor(ls, u)) <= Graph.Names(ls)
  {
    if ls != [] {
      var init := ls[..|ls| - 1];
      var l := ls[|ls| - 1];
      LoadedClosed(init, u);
      var a := if l.a == u then [Neighbor(l.b, l.w)] else [];
      var b := if l.b == u then [Neighbor(l.a, l.w)] else [];
      TargetsAppend(Graph.EntriesFor(init, u) + a, b);
      TargetsAppend(Graph.EntriesFor(init, u), a);
    }
  }
}
