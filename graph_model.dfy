/** The adjacency structure shared by the graph code: a dict from vertex name to the list
    of (neighbour, weight) pairs, appended to in input order. */
module GraphModel {
  import opened Sums

  type Vertex = string

  /** One `(vizinho, peso)` entry of a neighbour list. */
  datatype Neighbor = Neighbor(v: Vertex, w: int)

  type Adjacency = map<Vertex, seq<Neighbor>>

  /** The vertices a neighbour list points to. */
  function Targets(ns: seq<Neighbor>): set<Vertex> {
    set i | 0 <= i < |ns| :: ns[i].v
  }

  /** The targets of two lists one after the other. */
  lemma TargetsAppend(a: seq<Neighbor>, b: seq<Neighbor>)
    ensures Targets(a + b) == Targets(a) + Targets(b)
  {
    forall t | t in Targets(a + b) ensures t in Targets(a) + Targets(b) {
      var i :| 0 <= i < |a + b| && (a + b)[i].v == t;
      if i >= |a| { assert b[i - |a|].v == t; }
    }
    forall t | t in Targets(a) ensures t in Targets(a + b) {
      var i :| 0 <= i < |a| && a[i].v == t;
      assert (a + b)[i].v == t;
    }
    forall t | t in Targets(b) ensures t in Targets(a + b) {
      var i :| 0 <= i < |b| && b[i].v == t;
      assert (a + b)[|a| + i].v == t;
    }
  }

  /** `len(vizinhos)` for every key. */
  function Degrees(adj: Adjacency): map<Vertex, int> {
    map k | k in adj :: |adj[k]|
  }

  /** `sum(len(vizinhos) for vizinhos in adj.values())`. */
  ghost function TotalLength(adj: Adjacency): int {
    SumMap(Degrees(adj), adj.Keys)
  }

  lemma TotalLengthNonneg(adj: Adjacency)
    ensures TotalLength(adj) >= 0
  {
    SumMapNonneg(Degrees(adj), adj.Keys);
  }

  /** `grafo[k]` on a `defaultdict(list)`: the list of `k`, or a new empty one. */
  function ListOf(g: Adjacency, k: Vertex): seq<Neighbor> {
    if k in g then g[k] else []
  }

  /** Appending one entry to one list (creating it if need be) adds one to the total length. */
  lemma AppendTotal(g: Adjacency, k: Vertex, x: Neighbor, g': Adjacency)
    requires g' == g[k := ListOf(g, k) + [x]]
    ensures TotalLength(g') == TotalLength(g) + 1
  {
    var d, d' := Degrees(g), Degrees(g');
    if k in g {
      assert g'.Keys == g.Keys;
      assert d' == d[k := d[k] + 1];
      SumMapUpdate(d, g.Keys, k, d[k] + 1);
    } else {
      assert g'.Keys == g.Keys + {k};
      SumMapAdd(d', g.Keys, k);
      SumMapAgree(d', d, g.Keys);
    }
  }
}
