/** src/graphs/graph.py: the undirected neighbourhood graph read from the edge file, and the
    edge file as a list of records.  The CSV reading is replaced by the sequence of rows it
    yields. */
module Graph {
  import opened Text
  import opened GraphModel

  /** One `csv.DictReader` row of the edge file: `bairro_origem`, `bairro_destino`,
      `logradouro`, and `peso` as converted by `float`. */
  datatype Row = Row(origin: string, destination: string, street: string, weight: int)

  /** The record `csv_para_lista` makes of a row. */
  datatype Record = Record(origin: string, destination: string, street: string, weight: int)

  /** Lines 19-20: a vertex name is the cell `.strip().lower()`. */
  function Key(name: string): Vertex {
    Lower(Strip(name))
  }

  /** A row with its ends normalised: the pair of vertices the loader links. */
  datatype Link = Link(a: Vertex, b: Vertex, w: int)

  function Links(rows: seq<Row>): (ls: seq<Link>)
    ensures |ls| == |rows|
  {
    seq(|rows|, i requires 0 <= i < |rows| => Link(Key(rows[i].origin), Key(rows[i].destination), rows[i].weight))
  }

  /** Every vertex at either end of some link. */
  function Names(ls: seq<Link>): set<Vertex> {
    if ls == [] then {} else Names(ls[..|ls| - 1]) + {ls[|ls| - 1].a, ls[|ls| - 1].b}
  }

  /** The neighbour list the loader gives `u`: for each link in order, the other end once
      for each end that is `u` (a loop `u -- u` gives two entries). */
  function EntriesFor(ls: seq<Link>, u: Vertex): seq<Neighbor> {
    if ls == [] then []
    else
      var l := ls[|ls| - 1];
      EntriesFor(ls[..|ls| - 1], u)
        + (if l.a == u then [Neighbor(l.b, l.w)] else [])
        + (if l.b == u then [Neighbor(l.a, l.w)] else [])
  }

  /** Number of links from `u` to `v` with weight `w`. */
  function LinkCount(ls: seq<Link>, u: Vertex, v: Vertex, w: int): nat {
    if ls == [] then 0
    else LinkCount(ls[..|ls| - 1], u, v, w) + (if ls[|ls| - 1] == Link(u, v, w) then 1 else 0)
  }

  /** `carregar_lista_adjacencia` (lines 7-31): every row is appended to the list of its
      origin and, reversed, to the list of its destination. */
  method LoadAdjacency(rows: seq<Row>) returns (g: Adjacency)
    ensures g.Keys == Names(Links(rows))
    ensures forall u | u in g :: g[u] == EntriesFor(Links(rows), u)
    ensures TotalLength(g) == 2 * |rows|
  {
    ghost var ls := Links(rows);
    g := map[];
    for i := 0 to |rows|
      invariant g.Keys == Names(ls[..i])
      invariant forall u | u in g :: g[u] == EntriesFor(ls[..i], u)
      invariant TotalLength(g) == 2 * i
    {
      var origem := Key(rows[i].origin);
      var destino := Key(rows[i].destination);
      var peso := rows[i].weight;
      assert ls[i] == Link(origem, destino, peso);
      var g1 := g[origem := ListOf(g, origem) + [Neighbor(destino, peso)]];
      var g2 := g1[destino := ListOf(g1, destino) + [Neighbor(origem, peso)]];
      AppendTotal(g, origem, Neighbor(destino, peso), g1);
      AppendTotal(g1, destino, Neighbor(origem, peso), g2);
      LoadStep(ls, i, g, g2);
      g := g2;
    }
    assert ls[..|rows|] == ls;
  }

  /** A vertex on no link has no entries. */
  lemma {:induction false} EntriesForAbsent(ls: seq<Link>, u: Vertex)
    requires u !in Names(ls)
    ensures EntriesFor(ls, u) == []
  {
    if ls != [] {
      EntriesForAbsent(ls[..|ls| - 1], u);
    }
  }

  /** One iteration of the loader keeps its invariant. */
  lemma LoadStep(ls: seq<Link>, i: nat, g: Adjacency, g': Adjacency)
    requires i < |ls|
    requires g.Keys == Names(ls[..i])
    requires forall u | u in g :: g[u] == EntriesFor(ls[..i], u)
    requires
      var g1 := g[ls[i].a := ListOf(g, ls[i].a) + [Neighbor(ls[i].b, ls[i].w)]];
      g' == g1[ls[i].b := ListOf(g1, ls[i].b) + [Neighbor(ls[i].a, ls[i].w)]]
    ensures g'.Keys == Names(ls[..i + 1])
    ensures forall u | u in g' :: g'[u] == EntriesFor(ls[..i + 1], u)
  {
    var pre, pre' := ls[..i], ls[..i + 1];
    assert pre'[..i] == pre;
    assert pre'[i] == ls[i];
    forall u | u in g' ensures g'[u] == EntriesFor(pre', u) {
      assert EntriesFor(pre', u) == EntriesFor(pre, u)
        + (if ls[i].a == u then [Neighbor(ls[i].b, ls[i].w)] else [])
        + (if ls[i].b == u then [Neighbor(ls[i].a, ls[i].w)] else []);
      if u !in g {
        EntriesForAbsent(pre, u);
      }
    }
  }

  /** Each row gives exactly one entry at each end, duplicates kept: the entries `(v, w)`
      in the list of `u` are the rows `u -- v` plus the rows `v -- u` of weight `w`. */
  lemma {:induction false} EntryCounts(ls: seq<Link>, u: Vertex, v: Vertex, w: int)
    ensures multiset(EntriesFor(ls, u))[Neighbor(v, w)] == LinkCount(ls, u, v, w) + LinkCount(ls, v, u, w)
  {
    if ls != [] {
      EntryCounts(ls[..|ls| - 1], u, v, w);
    }
  }

  /** The loader's graph is symmetric: `u` lists `(v, w)` as often as `v` lists `(u, w)`. */
  lemma Symmetric(ls: seq<Link>, u: Vertex, v: Vertex, w: int)
    ensures multiset(EntriesFor(ls, u))[Neighbor(v, w)] == multiset(EntriesFor(ls, v))[Neighbor(u, w)]
  {
    EntryCounts(ls, u, v, w);
    EntryCounts(ls, v, u, w);
  }

  /** Lines 43-54: the record of one row, its three text fields stripped but, unlike the
      loader's names, not lower-cased. */
  function ToRecord(row: Row): (r: Record)
    ensures Trimmed(r.origin) && Trimmed(r.destination) && Trimmed(r.street) && r.weight == row.weight
  {
    Record(Strip(row.origin), Strip(row.destination), Strip(row.street), row.weight)
  }

  /** `csv_para_lista` (lines 33-56): one record per row, in row order. */
  method CsvToList(rows: seq<Row>) returns (records: seq<Record>)
    ensures |records| == |rows|
    ensures forall i | 0 <= i < |rows| :: records[i] == ToRecord(rows[i])
  {
    records := [];
    for i := 0 to |rows|
      invariant |records| == i
      invariant forall j | 0 <= j < i :: records[j] == ToRecord(rows[j])
    {
      records := records + [ToRecord(rows[i])];
    }
  }

  /** The record fields need no further stripping, and lower-casing a record's end gives
      the loader's vertex for the same row. */
  lemma RecordAgreesWithLoader(row: Row)
    ensures var r := ToRecord(row); ToRecord(Row(r.origin, r.destination, r.street, r.weight)) == r
    ensures Key(ToRecord(row).origin) == Key(row.origin) && Key(ToRecord(row).destination) == Key(row.destination)
  {
    var r := ToRecord(row);
    StripTrimmed(r.origin);
    StripTrimmed(r.destination);
    StripTrimmed(r.street);
  }
}
