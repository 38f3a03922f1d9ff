/** src/solve.py, part 1: the degree table, the global metrics, the subgraph of one
    microregion and the text of a path, over the undirected adjacency of src/graphs/graph.py.
    File and DataFrame output is left out; each operation returns what it would write. */
module Solve {
  import opened Sums
  import opened Text
  import opened GraphModel

  // ---------------------------------------------------------------------------------
  // gerar_csv_graus (lines 29-46)
  // ---------------------------------------------------------------------------------

  /** One line of `graus.csv`. */
  datatype DegreeRow = DegreeRow(bairro: Vertex, grau: int)

  /** The sum of the `grau` column. */
  function SumGrau(rows: seq<DegreeRow>): int {
    if rows == [] then 0 else SumGrau(rows[..|rows| - 1]) + rows[|rows| - 1].grau
  }

  /** `gerar_csv_graus`: the degree of every neighbourhood, once each.  Dict order is not
      modelled: the keys are visited in some order. */
  method DegreeTable(adj: Adjacency) returns (graus: map<Vertex, int>, rows: seq<DegreeRow>)
    ensures graus == Degrees(adj)
    ensures |rows| == |adj|
    ensures forall i | 0 <= i < |rows| :: rows[i].bairro in adj && rows[i].grau == |adj[rows[i].bairro]|
    ensures forall i, j | 0 <= i < j < |rows| :: rows[i].bairro != rows[j].bairro
    ensures SumGrau(rows) == TotalLength(adj)
  {
    graus := map[];
    rows := [];
    var remaining := adj.Keys;
    TableStart(adj);
    while remaining != {}
      invariant TableSoFar(adj, remaining, graus, rows)
      decreases |remaining|
    {
      var bairro :| bairro in remaining;
      var grau := |adj[bairro]|;
      TableStep(adj, remaining, graus, rows, bairro);
      graus := graus[bairro := grau];
      rows := rows + [DegreeRow(bairro, grau)];
      remaining := remaining - {bairro};
    }
    TableEnd(adj, remaining, graus, rows);
  }

  /** The table after visiting every key except `remaining`. */
  ghost predicate TableSoFar(adj: Adjacency, remaining: set<Vertex>, graus: map<Vertex, int>, rows: seq<DegreeRow>) {
    && remaining <= adj.Keys
    && graus.Keys == adj.Keys - remaining
    && (forall k | k in graus :: graus[k] == |adj[k]|)
    && |rows| + |remaining| == |adj|
    && (forall i | 0 <= i < |rows| :: rows[i].bairro in graus && rows[i].grau == |adj[rows[i].bairro]|)
    && (forall i, j | 0 <= i < j < |rows| :: rows[i].bairro != rows[j].bairro)
    && SumGrau(rows) + SumMap(Degrees(adj), remaining) == TotalLength(adj)
  }

  lemma TableStart(adj: Adjacency)
    ensures TableSoFar(adj, adj.Keys, map[], [])
  {
  }

  lemma TableStep(adj: Adjacency, remaining: set<Vertex>, graus: map<Vertex, int>, rows: seq<DegreeRow>, b: Vertex)
    requires TableSoFar(adj, remaining, graus, rows) && b in remaining
    ensures TableSoFar(adj, remaining - {b}, graus[b := |adj[b]|], rows + [DegreeRow(b, |adj[b]|)])
  {
    var rows' := rows + [DegreeRow(b, |adj[b]|)];
    SumMapRemove(Degrees(adj), remaining, b);
    assert rows'[..|rows|] == rows;
    assert |remaining - {b}| == |remaining| - 1;
  }

  lemma TableEnd(adj: Adjacency, remaining: set<Vertex>, graus: map<Vertex, int>, rows: seq<DegreeRow>)
    requires TableSoFar(adj, remaining, graus, rows) && remaining == {}
    ensures graus == Degrees(adj)
    ensures |rows| == |adj|
    ensures forall i | 0 <= i < |rows| :: rows[i].bairro in adj && rows[i].grau == |adj[rows[i].bairro]|
    ensures forall i, j | 0 <= i < j < |rows| :: rows[i].bairro != rows[j].bairro
    ensures SumGrau(rows) == TotalLength(adj)
  {
    assert adj.Keys - remaining == adj.Keys;
  }

  // ---------------------------------------------------------------------------------
  // metricas_globais (lines 49-74)
  // ---------------------------------------------------------------------------------

  /** The JSON object `metricas_globais` writes; the density as an exact rational. */
  datatype Metrics = Metrics(ordem: int, tamanho: int, densidade: real)

  /** Density 0 below two vertices, otherwise 2E / (V (V - 1)). */
  function Density(v: int, e: int): real {
    if v < 2 then 0.0 else (2 * e) as real / (v * (v - 1)) as real
  }

  ghost function GlobalMetrics(adj: Adjacency): (m: Metrics)
    ensures m.ordem == |adj| && m.tamanho >= 0
    ensures 2 * m.tamanho <= TotalLength(adj) < 2 * m.tamanho + 2
    ensures m.densidade == Density(m.ordem, m.tamanho)
  {
    TotalLengthNonneg(adj);
    var v := |adj|;
    var e := TotalLength(adj) / 2;
    Metrics(v, e, Density(v, e))
  }

  /** The density is never negative, is 0 exactly when there are fewer than two vertices
      or no edge, and is at most 1 when no more edges than vertex pairs are counted. */
  lemma DensityRange(v: int, e: int)
    requires e >= 0
    ensures Density(v, e) >= 0.0
    ensures Density(v, e) == 0.0 <==> v < 2 || e == 0
    ensures v >= 2 && 2 * e <= v * (v - 1) ==> Density(v, e) <= 1.0
  {
    if v >= 2 {
      var n := (v * (v - 1)) as real;
      assert n > 0.0;
      assert (2 * e) as real >= 0.0;
      if e > 0 {
        assert (2 * e) as real > 0.0;
      }
    }
  }

  /** On the graph built from `rows` (twice as many entries as rows), the size is the
      number of rows: each street counted once. */
  lemma SizeOfLoaded(adj: Adjacency, n: nat)
    requires TotalLength(adj) == 2 * n
    ensures GlobalMetrics(adj).tamanho == n
    ensures GlobalMetrics(adj).densidade == Density(|adj|, n)
  {
    var m := GlobalMetrics(adj);
    assert 2 * m.tamanho <= 2 * n < 2 * m.tamanho + 2;
  }

  // ---------------------------------------------------------------------------------
  // obter_subgrafo_por_microrregiao (lines 77-94)
  // ---------------------------------------------------------------------------------

  /** Line 89: the entries whose vertex is in the region, in order, weights unchanged. */
  function Inside(ns: seq<Neighbor>, region: set<Vertex>): seq<Neighbor> {
    if ns == [] then []
    else (if ns[0].v in region then [ns[0]] else []) + Inside(ns[1..], region)
  }

  /** The subgraph built from the neighbourhoods in `seen`, each list filtered by `region`. */
  function SubgraphWithin(adj: Adjacency, region: set<Vertex>, seen: set<Vertex>): Adjacency {
    map b | b in seen && b in adj && Inside(adj[b], region) != [] :: Inside(adj[b], region)
  }

  function SubgraphOf(adj: Adjacency, region: set<Vertex>): Adjacency {
    SubgraphWithin(adj, region, region)
  }

  /** `obter_subgrafo_por_microrregiao`, given the set of the microregion's neighbourhoods
      that line 79 reads from the table. */
  method Subgraph(adj: Adjacency, bairros: set<Vertex>) returns (subgrafo: Adjacency)
    ensures subgrafo == SubgraphOf(adj, bairros)
  {
    subgrafo := map[];
    var remaining := bairros;
    while remaining != {}
      invariant remaining <= bairros
      invariant subgrafo == SubgraphWithin(adj, bairros, bairros - remaining)
      decreases |remaining|
    {
      var bairro :| bairro in remaining;
      ghost var seen := bairros - remaining;
      remaining := remaining - {bairro};
      assert bairros - remaining == seen + {bairro};
      if bairro !in adj {
        assert SubgraphWithin(adj, bairros, seen + {bairro}) == SubgraphWithin(adj, bairros, seen);
        continue;
      }
      var vizinhos := Inside(adj[bairro], bairros);
      if vizinhos != [] {
        subgrafo := subgrafo[bairro := vizinhos];
      } else {
        assert SubgraphWithin(adj, bairros, seen + {bairro}) == SubgraphWithin(adj, bairros, seen);
      }
    }
    assert bairros - remaining == bairros;
  }

  /** The filtered list keeps exactly the entries pointing into the region, each as often
      as before (and, by `InsideAppend`, in their order). */
  lemma {:induction false} InsideCount(ns: seq<Neighbor>, region: set<Vertex>, x: Neighbor)
    ensures multiset(Inside(ns, region))[x] == if x.v in region then multiset(ns)[x] else 0
  {
    if ns != [] {
      InsideCount(ns[1..], region, x);
      assert ns == [ns[0]] + ns[1..];
    }
  }

  /** The filtered list points to the vertices of the list that are in the region. */
  lemma {:induction false} InsideTargets(ns: seq<Neighbor>, region: set<Vertex>)
    ensures Targets(Inside(ns, region)) == Targets(ns) * region
  {
    if ns != [] {
      InsideTargets(ns[1..], region);
      var head := if ns[0].v in region then [ns[0]] else [];
      TargetsAppend([ns[0]], ns[1..]);
      TargetsAppend(head, Inside(ns[1..], region));
      assert ns == [ns[0]] + ns[1..];
    }
  }

  lemma {:induction false} InsideAppend(a: seq<Neighbor>, b: seq<Neighbor>, region: set<Vertex>)
    ensures Inside(a + b, region) == Inside(a, region) + Inside(b, region)
  {
    if a != [] {
      InsideAppend(a[1..], b, region);
      assert (a + b)[0] == a[0];
      assert (a + b)[1..] == a[1..] + b;
    } else {
      assert a + b == b;
    }
  }

  /** A list already inside the region is left as it is. */
  lemma {:induction false} InsideKeeps(ns: seq<Neighbor>, region: set<Vertex>)
    requires Targets(ns) <= region
    ensures Inside(ns, region) == ns
  {
    if ns != [] {
      assert Targets(ns[1..]) <= Targets(ns);
      InsideKeeps(ns[1..], region);
      assert ns == [ns[0]] + ns[1..];
    }
  }

  /** A neighbourhood is in the subgraph exactly when it is in the region, has a list, and
      that list points into the region; every vertex of the subgraph is in the region. */
  lemma SubgraphKeys(adj: Adjacency, region: set<Vertex>, b: Vertex)
    ensures b in SubgraphOf(adj, region) <==> b in region && b in adj && Targets(adj[b]) * region != {}
    ensures b in SubgraphOf(adj, region) ==> Targets(SubgraphOf(adj, region)[b]) <= region
  {
    if b in adj {
      InsideTargets(adj[b], region);
      if Inside(adj[b], region) == [] {
        assert Targets(Inside(adj[b], region)) == {};
      } else {
        assert Inside(adj[b], region)[0].v in Targets(Inside(adj[b], region));
      }
    }
  }

  /** Taking the subgraph of a subgraph for the same region changes nothing. */
  lemma SubgraphIdempotent(adj: Adjacency, region: set<Vertex>)
    ensures SubgraphOf(SubgraphOf(adj, region), region) == SubgraphOf(adj, region)
  {
    var sub := SubgraphOf(adj, region);
    forall b | b in sub
      ensures Inside(sub[b], region) == sub[b]
    {
      SubgraphKeys(adj, region, b);
      InsideKeeps(sub[b], region);
    }
  }

  // ---------------------------------------------------------------------------------
  // deque_to_string (lines 174-184)
  // ---------------------------------------------------------------------------------

  /** The text `deque_to_string` builds for the elements `xs` of a path whose last element
      is `last`: each element, followed by " -> " unless it EQUALS `last`. */
  function Render(xs: seq<string>, last: string): string {
    if xs == [] then ""
    else
      var x := xs[|xs| - 1];
      Render(xs[..|xs| - 1], last) + x + (if x != last then " -> " else "")
  }

  function PathText(xs: seq<string>): string {
    if xs == [] then "" else Render(xs, xs[|xs| - 1])
  }

  /** `deque_to_string`, as written: the comparison of line 181 is by value, not position. */
  method DequeToString(xs: seq<string>) returns (result: string)
    ensures result == PathText(xs)
  {
    result := "";
    if xs == [] {
      return;
    }
    for i := 0 to |xs|
      invariant result == Render(xs[..i], xs[|xs| - 1])
    {
      assert xs[..i + 1][..i] == xs[..i];
      result := result + xs[i];
      if xs[i] != xs[|xs| - 1] {
        result := result + " -> ";
      }
    }
    assert xs[..|xs|] == xs;
  }

  /** When no element before the last equals the last one, the text is the elements
      joined by " -> ", as the comment above the function promises. */
  lemma PathTextJoin(xs: seq<string>)
    requires forall i | 0 <= i < |xs| - 1 :: xs[i] != xs[|xs| - 1]
    ensures PathText(xs) == Join(xs, " -> ")
  {
    if xs != [] {
      RenderJoin(xs, xs[|xs| - 1]);
    }
  }

  lemma {:induction false} RenderJoin(xs: seq<string>, last: string)
    requires xs != [] && xs[|xs| - 1] == last
    requires forall i | 0 <= i < |xs| - 1 :: xs[i] != last
    ensures Render(xs, last) == Join(xs, " -> ")
  {
    var init := xs[..|xs| - 1];
    if init == [] {
      assert xs == [last];
    } else {
      RenderArrows(init, last);
      JoinSnoc(init, last, " -> ");
      assert init + [last] == xs;
    }
  }

  /** Elements that differ from `last` are each followed by an arrow. */
  lemma {:induction false} RenderArrows(ys: seq<string>, last: string)
    requires ys != []
    requires forall i | 0 <= i < |ys| :: ys[i] != last
    ensures Render(ys, last) == Join(ys, " -> ") + " -> "
  {
    var init := ys[..|ys| - 1];
    var y := ys[|ys| - 1];
    if init == [] {
      assert ys == [y];
    } else {
      RenderArrows(init, last);
      JoinSnoc(init, y, " -> ");
      assert init + [y] == ys;
    }
  }
}
