# projeto-grafos in Dafny

A verified model of the computational core of *projeto-grafos*, a student project that
studies the street graph of Recife. Its vertices are neighbourhoods (*bairros*), its edges
are streets, and neighbourhoods are grouped into eighteen microregions (*microrregiões*).
The model covers:

- **Dijkstra** (`dijkstra` of `src/graphs/algorithms.py`): the adjacency dict built from
  the vertex and edge lists, the `sys.maxsize` sentinel, and the lazy min-heap relaxation
  loop. It is proved to return exactly the shortest walk weights, and to fail with `KeyError`
  exactly when the Python code raises it.
- **Loading the undirected graph** (`carregar_lista_adjacencia`, `csv_para_lista` of
  `src/graphs/graph.py`), over rows already read from the CSV file.
- **Cleaning neighbourhood names** (`normalizar_nome`, `derreter_bairros_recife` of
  `src/graphs/io.py`). This covers white-space collapse, lower-casing and stripping on
  ASCII text; the selection of microregion columns; comma splitting; "first microregion
  wins"; and the `ValueError` on an empty name.
- **The metrics of `src/solve.py`**: the degree table, order/size/density, the
  microregion subgraph, the ego-network metrics, the directed in/out degrees of part 2,
  and the path text written by `deque_to_string`.
- **The path parser** `string_to_list` of `src/viz.py`, and its round trip with
  `deque_to_string`.

Python's `dict` becomes a Dafny `map` and a list becomes a `seq`. Exceptions become the
`Err` case of a `Result` (`KeyError(key)`, `ValueError(column)`, `EmptyMax` for `max()` of
an empty sequence, `TypeError`). Weights are integers. Densities are exact `real`
quotients. Where the Python code fills a dict or a list in a loop, the model is a
`method` with that loop. Each such method is proved against a function or predicate that
says what the result means, and the properties of that function are proved as lemmas.

Files (one module each): `wrappers.dfy` (Result, Option, Error), `text.dfy` (Python `str`
operations), `sums.dfy`, `counting.dfy` (finite sums and cardinalities), `graph_model.dfy`
(adjacency maps), `walks.dfy`, `dijkstra_invariants.dfy`, `algorithms.dfy`,
`dijkstra_as_written.dfy`, `graph.dfy`, `io.dfy`, `solve.dfy`, `ego.dfy`, `directed.dfy`,
`viz.dfy`.

## Model

| member | source | states |
|---|---|---|
| Algorithms.BuildAdjacency | src/graphs/algorithms.py:12-20 | Succeeds iff every edge origin is a vertex. The keys are exactly the vertices, and each list holds the edges out of its key in input order. Otherwise `KeyError` at the first edge whose origin is not a vertex. |
| Algorithms.InitialDistances | src/graphs/algorithms.py:23-27 | Every vertex, and nothing else, is mapped to the `sys.maxsize` sentinel. |
| Algorithms.PopMin | src/graphs/algorithms.py:43 | `heappop` returns an entry of least distance and leaves exactly the other entries (as a multiset). |
| Algorithms.RelaxEdge | src/graphs/algorithms.py:46-53 | One relaxation. When `d + w` is below the neighbour's distance, the new state is that distance lowered to `d + w` and `[d + w, v]` pushed onto the heap; otherwise nothing changes. It keeps the invariants: a distance only goes down, and only to the weight of a walk from the start; every improved vertex is queued at its new distance; the start stays at 0. |
| Algorithms.RelaxOutgoing | src/graphs/algorithms.py:46-53 | Relaxing all edges out of a popped vertex either reports a neighbour that is not a key (the `KeyError` of line 49), in which case the popped vertex is reached from the start by a walk lighter than the sentinel, or keeps the invariants. Afterwards every vertex is queued or relaxed, and a superseded heap entry changes nothing. |
| Algorithms.Settle | src/graphs/algorithms.py:34-53 | The heap loop terminates with non-negative weights. It either reports a missing neighbour, listed by a vertex reached from the start by a walk lighter than the sentinel, or stops with the heap empty and every reached vertex relaxed. |
| Algorithms.Dijkstra | src/graphs/algorithms.py:4-56 | With non-negative weights, the result is `Ok` whenever the start and all edge ends are vertices. An `Ok` result maps exactly the vertices: 0 at the start, the sentinel at most, each non-sentinel distance the weight of a walk from the start, and no walk lighter than the distance of its end. The result is `Err` exactly when one of three things holds: the start is not a vertex, an edge origin is not a vertex (line 20), or an edge whose head is not a vertex leaves a vertex reached from the start by a walk lighter than the sentinel (the lookup of line 49). An edge to a non-vertex out of an unreached vertex leaves the result `Ok`. An `Err` is a `KeyError` on a name that is not a vertex (the start or an edge end). |
| Walks.WalkExtend | src/graphs/algorithms.py:49-50 | Appending an edge out of a walk's end gives a walk to the edge's head, heavier by the edge weight. |
| Walks.ShortestDistancesUnique | src/graphs/algorithms.py:4-56 | The specification of the result determines it: two distance maps meeting it are equal. |
| Walks.OutgoingSound | src/graphs/algorithms.py:19-20 | Every entry in the list of `u` is an edge out of `u`. |
| Walks.OutgoingComplete | src/graphs/algorithms.py:19-20 | Every edge is an entry in the list of its origin. |
| DijkstraInvariants.SettledIsShortest | src/graphs/algorithms.py:40-53 | When the heap is empty and every reached vertex is relaxed, the distances are the shortest walk weights. |
| DijkstraInvariants.EdgeRelaxed | src/graphs/algorithms.py:46-50 | Once a vertex is relaxed, the distance at the head of each of its edges is at most its own distance plus the weight. |
| DijkstraInvariants.WalkBound | src/graphs/algorithms.py:40-53 | Once no edge can improve a distance, no walk from the start is lighter than the distance of its end. A walk ending outside the map weighs at least the sentinel. |
| DijkstraInvariants.ReachedEdgeInside | src/graphs/algorithms.py:46-49 | When the loop ends normally, every edge out of a vertex reached by a walk lighter than the sentinel ends at a vertex. |
| DijkstraInvariants.UpdateKeepsBounds | src/graphs/algorithms.py:49-53 | An improvement with its push keeps every distance between 0 and the sentinel, and keeps every heap entry at or above the distance of its vertex (the new entry equal to it). |
| DijkstraAsWritten.FirstBadOrigin | src/graphs/algorithms.py:19-20 | None iff every edge origin is a vertex. Otherwise a name that is not a vertex but is the origin of some edge. |
| DijkstraAsWritten.ScanStart | src/graphs/algorithms.py:46-53 | As written, the scan of the start's list stops at the first neighbour with no distance (`KeyError`) or the first one that improves (`TypeError`), and raises nothing else. |
| DijkstraAsWritten.Dijkstra | src/graphs/algorithms.py:4-56 | The function as line 53 is written. An edge origin or a start outside the vertices gives `Err`, and every `Err` is `TypeError` or a `KeyError` on a name that is not a vertex. |
| DijkstraAsWritten.NeverImproves | src/graphs/algorithms.py:49-53 | As written, a run that returns never lowered a distance: every vertex but the start keeps the sentinel. |
| DijkstraAsWritten.ScanStartRaises | src/graphs/algorithms.py:46-53 | As written, scanning the start's list raises `TypeError` as soon as one entry improves a distance. |
| DijkstraAsWritten.RaisesOnReachableNeighbor | src/graphs/algorithms.py:53 | As written, on well-formed input with an edge out of the start to another vertex below the sentinel, the call raises `TypeError`. |
| DijkstraAsWritten.OneEdgeRaises | src/graphs/algorithms.py:53 | As written, `dijkstra(["a","b"], [("a","b",1)], "a")` raises `TypeError`. |
| Graph.LoadAdjacency | src/graphs/graph.py:7-31 | The keys are exactly the names on some row. Each list is the entries its name gets from the rows, in row order: `(destino, peso)` as origin, `(origem, peso)` as destination. The lists hold twice as many entries as there are rows. |
| Graph.EntriesForAbsent | src/graphs/graph.py:10-31 | A name on no row has no entries. |
| Graph.EntryCounts | src/graphs/graph.py:27-28 | With duplicates kept, the number of `(v, w)` entries in the list of `u` is the number of rows `u -- v` plus the number of rows `v -- u` of weight `w`. |
| Graph.Symmetric | src/graphs/graph.py:27-28 | `u` lists `(v, w)` exactly as often as `v` lists `(u, w)`. |
| Graph.ToRecord | src/graphs/graph.py:43-54 | A record's text fields are stripped, and its weight is the row's. |
| Graph.CsvToList | src/graphs/graph.py:33-56 | One record per row, in row order, each the row's record. |
| Graph.RecordAgreesWithLoader | src/graphs/graph.py:19-20 | Stripping a record again changes nothing. Lower-casing a record's end names gives the loader's vertices for the same row. |
| Text.Strip | src/graphs/graph.py:19-20 | `str.strip()` leaves no white space at either end. |
| Text.StripSlice | src/graphs/graph.py:19-20 | The stripped text is a slice of the input with only white space cut from both ends. |
| Text.StripTrimmed | src/graphs/graph.py:43-45 | Stripping text with no white space at either end changes nothing. |
| Text.LowerShape | src/graphs/graph.py:19-20 | `lower()` keeps the length, leaves no upper-case letter, changes only upper-case letters, and keeps white space and ASCII characters where they are. |
| Text.Split | src/viz.py:14 | `str.split(sep)` gives at least one piece, and the first piece is a prefix of the text. |
| Text.JoinSplit | src/viz.py:14 | Joining the pieces of a split with the separator gives back the text. |
| Text.SplitPiecesFree | src/viz.py:14 | No piece of a split contains the separator. |
| Text.SplitJoin | src/viz.py:14 | Splitting a join gives back the pieces, when a character of the separator occurs nowhere else in it and in no piece. |
| NameIO.AsciiOnlyShape | src/graphs/io.py:9 | Dropping the non-ASCII characters leaves only ASCII, and leaves ASCII text unchanged. |
| NameIO.AsciiOnlyBlank | src/graphs/io.py:9 | A name is blank (only white space and non-ASCII characters) iff its ASCII part is all white space. |
| NameIO.CollapseCollapsed | src/graphs/io.py:10 | After `re.sub(r"\s+", " ", ...)` every white-space run is a single space. Non-empty text stays non-empty, with a space first iff the input began with white space. |
| NameIO.CollapseLast | src/graphs/io.py:10 | After the collapse, the text ends in a space iff the input ended in white space. |
| NameIO.CollapseVisible | src/graphs/io.py:10 | The collapse keeps every character that is not white space, in order. |
| NameIO.CollapseChars | src/graphs/io.py:10 | The collapse does not lengthen the text, and keeps it ASCII and free of upper case. |
| NameIO.CollapseFixed | src/graphs/io.py:10 | The collapse changes nothing iff the text is already collapsed. |
| NameIO.StripEmpty | src/graphs/io.py:9 | Stripping gives "" iff the text is all white space. |
| NameIO.StrippedChars | src/graphs/io.py:9 | Stripping keeps text ASCII and free of upper case. |
| NameIO.NormalizeName | src/graphs/io.py:6-11 | `normalizar_nome` on ASCII text: drop non-ASCII characters, lower-case, strip, then collapse every white-space run to one space. Its properties are the lemmas below. |
| NameIO.NormalizeShape | src/graphs/io.py:6-11 | `normalizar_nome` returns ASCII, lower-case, stripped text with single spaces. |
| NameIO.NormalizeIdempotent | src/graphs/io.py:6-11 | Normalising a normalised name changes nothing. |
| NameIO.NormalizeEmpty | src/graphs/io.py:32-33 | A name normalises to "" (the `ValueError` case) iff it is blank. |
| NameIO.ColumnPattern | src/graphs/io.py:17 | `^[1-6]\.[1-3]$` accepts exactly the eighteen microregion names, each also with a final line break. |
| NameIO.SelectColumns | src/graphs/io.py:17 | The selected columns are field names that match the pattern, and every matching field name is selected. |
| NameIO.Melted | src/graphs/io.py:29-39 | The dictionary after a sequence of entries: the first entry whose name normalises to "" raises `ValueError` with its column; otherwise the first column seen for each name is kept. Its properties are the `Melted*` lemmas below. |
| NameIO.Melt | src/graphs/io.py:14-41 | The result is the fold, over the cells' entries in table order, of "an empty name raises, the first microregion of a name wins". |
| NameIO.MeltRow | src/graphs/io.py:21-39 | Processing one row continues that fold with the row's entries, column by column. |
| NameIO.MeltCell | src/graphs/io.py:22-39 | Processing one cell continues the fold with the cell's pieces, each tagged with its column. |
| NameIO.AssignFails | src/graphs/io.py:32-33 | An entry whose name normalises to "" raises `ValueError` with its column. |
| NameIO.AssignStep | src/graphs/io.py:35-39 | An entry with a name records its column unless the name is already a key. |
| NameIO.PiecesOfEmpty | src/graphs/io.py:24-25 | An empty cell has no entries, so skipping it changes nothing. |
| NameIO.PiecesShape | src/graphs/io.py:27 | The pieces of a cell are non-empty, stripped, and hold no comma. |
| NameIO.KeptShape | src/graphs/io.py:27 | The kept parts are non-empty, stripped, and hold no comma when the parts hold none. |
| NameIO.MeltedOk | src/graphs/io.py:29-39 | With no empty name among the entries, the melting succeeds. |
| NameIO.MeltedFirstError | src/graphs/io.py:32-33 | The first entry with an empty name decides the error: `ValueError` with its column. |
| NameIO.MeltedKeys | src/graphs/io.py:29-39 | The keys of a successful result are exactly the normalised names of the entries. |
| NameIO.MeltedFirstWins | src/graphs/io.py:35-39 | The microregion of a name is the column of the first entry with that name. |
| NameIO.MeltedKeeps | src/graphs/io.py:35-39 | Once a name is a key its microregion never changes: the dictionary after any prefix of the entries is contained in the final one. |
| NameIO.MeltValues | src/graphs/io.py:17-39 | Every microregion in a successful result is a selected field name that matches the pattern. |
| Solve.DegreeTable | src/solve.py:29-46 | The degree map gives each neighbourhood its list length. There is one table row per neighbourhood, with no neighbourhood twice, each carrying its degree. The degrees sum to the total length of the lists. |
| Solve.GlobalMetrics | src/solve.py:49-61 | `ordem` is the number of keys, and `tamanho` is half the total list length, rounded down. `densidade` is 0 below two vertices, else 2E/(V(V-1)). |
| Solve.DensityRange | src/solve.py:57-61 | The density is never negative. It is 0 iff V < 2 or E = 0. It is at most 1 when 2E ≤ V(V-1). |
| Solve.SizeOfLoaded | src/solve.py:53-61 | For a graph whose lists total 2n entries (the loader's graph of n rows), `tamanho` is n and the density is `Density(V, n)`: 2n/(V(V-1)) for V ≥ 2, and 0 for V < 2. |
| Solve.Subgraph | src/solve.py:77-94 | The loop's dict equals the subgraph: a neighbourhood of the region that is a key and keeps at least one neighbour in the region, mapped to its list restricted to the region. |
| Solve.InsideCount | src/solve.py:89 | The filter keeps each entry whose vertex lies in the region as often as the list has it, and drops every other entry. |
| Solve.InsideTargets | src/solve.py:89 | The vertices of the filtered list are those of the list that lie in the region. |
| Solve.InsideAppend | src/solve.py:89 | Filtering distributes over concatenation, so list order is kept. |
| Solve.InsideKeeps | src/solve.py:89 | A list whose vertices all lie in the region is kept whole. |
| Solve.SubgraphKeys | src/solve.py:85-92 | `b` is a key of the subgraph iff `b` is in the region, `b` is a key of the graph, and some neighbour of `b` is in the region. Every subgraph list stays inside the region. |
| Solve.SubgraphIdempotent | src/solve.py:77-94 | Taking the subgraph of the subgraph for the same region changes nothing. |
| Solve.PathText | src/solve.py:174-184 | The text `deque_to_string` returns: "" for an empty path, else each name followed by " -> " iff it differs in value from the last name. Related to the plain join by `Solve.PathTextJoin`. |
| Solve.DequeToString | src/solve.py:174-184 | The loop's text is the path text: each name, followed by " -> " iff it differs in value from the last name. |
| Solve.PathTextJoin | src/solve.py:174-184 | When the last name occurs only at the end, the path text is the " -> " join of the names. |
| Ego.EgoRowSpec | src/solve.py:133-167 | The row built for one neighbourhood: `grau` the list length, `ordem` the size of the ego set, `tamanho` the number of ego edges, and the corrected density. Its bounds are `Ego.EgoBounds`. |
| Ego.DensityAsWritten | src/solve.py:156-159 | The density as written: `tamanho` over `ordem(ordem-1)/2`, and 0 when `ordem` ≤ 1. Related to the corrected density by `Ego.AsWrittenDoubles`. |
| Ego.EgoDensity | src/solve.py:156-159 | The corrected density: loop-free ordered pairs over `ordem(ordem-1)`, and 0 when `ordem` ≤ 1. Its range is `Ego.EgoDensityRange`. |
| Ego.EgoRowOf | src/solve.py:121-167 | For one neighbourhood, the row is computed iff every vertex of its ego network is a key. The row is then the ego row: `grau` the list length, `ordem` the size of the ego set, `tamanho` the number of ordered pairs `(u, v)` of ego vertices with `v` listed by `u`, and the density. Otherwise it is the `KeyError` of line 143, on an ego vertex that is not a key. |
| Ego.CollectEdges | src/solve.py:137-149 | The edge set is that of the ego network when every ego vertex is a key. Otherwise `KeyError` on an ego vertex that is not a key. |
| Ego.AddEdgesOf | src/solve.py:143-149 | Scanning the list of `u` adds exactly the pairs `(u, v)` with `v` in the ego set. |
| Ego.EgoNetworkMetrics | src/solve.py:118-171 | Succeeds iff every listed neighbour is a key. It then gives one row per neighbourhood, no neighbourhood twice, each the ego row above. Otherwise a `KeyError` on a listed neighbour that is not a key. |
| Ego.EgoFromList | src/solve.py:126-135 | `set([bairro] + vizinhos)` is the neighbourhood together with the vertices of its list. |
| Ego.EgoEdgesIff | src/solve.py:140-149 | `(u, v)` is an ego edge iff `u` and `v` are ego vertices and `v` is in the list of `u`. |
| Ego.EgoBounds | src/solve.py:133-159 | `grau` is the list length, duplicates counted. 1 ≤ `ordem_ego` ≤ `grau` + 1, and `ordem_ego` - 1 ≤ `tamanho_ego` ≤ `ordem_ego`². The corrected density lies in [0, 1] and is 0 when `ordem_ego` ≤ 1. |
| Ego.TargetsCard | src/solve.py:133-135 | A list has at least as many entries as distinct vertices. |
| Ego.EgoDensityRange | src/solve.py:156-159 | The corrected density of a loop-free arc count between n vertices lies in [0, 1]. |
| Ego.AsWrittenDoubles | src/solve.py:137-159 | For every ego row, the density as written is at least twice the corrected one, and exactly twice when no ego vertex lists itself. |
| Ego.OneStreetDensityTwo | src/solve.py:137-159 | Two neighbourhoods joined by one street give `ordem_ego` 2 and `tamanho_ego` 2. The density as written is 2.0; the corrected one is 1.0. |
| Ego.LoadedClosed | src/graphs/graph.py:27-28 | Every neighbour in the loader's graph is itself a key, so the ego metrics of a loaded graph never raise. |
| Directed.Part2Metrics | src/solve.py:226-298 | Raises (`max` of an empty sequence) iff the graph is empty. Otherwise: `num_vertices` counts keys and heads; `num_arestas` is the total list length; `out_degree` and `in_degree` cover exactly those vertices, each with its list length and the number of entries pointing to it; both sum to `num_arestas`; each reported maximum is attained and not exceeded. |
| Directed.CollectVertices | src/solve.py:233-237 | The vertex set is the keys together with every listed head. |
| Directed.AddHeads | src/solve.py:235-237 | Scanning one list adds exactly its heads. |
| Directed.VertexSetCovers | src/solve.py:233-237 | Every key and every listed head is a vertex. |
| Directed.ArcCount | src/solve.py:247 | `E` is the total length of the lists. |
| Directed.CountToTargets | src/solve.py:262-264 | The number of entries of a list pointing to `v` is at most the list length, and positive iff `v` is a head of the list. |
| Directed.CountDegrees | src/solve.py:254-264 | Each vertex's out-degree is its list length (0 if it only appears as a head). Its in-degree is the number of entries pointing to it. Both degree maps sum to the total list length. |
| Directed.ReadLists | src/solve.py:258-264 | After all lists are read, every out- and in-degree is complete. |
| Directed.AddArcsInto | src/solve.py:262-264 | Scanning one list adds to each vertex the number of entries pointing to it, and adds the list length to the sum. |
| Directed.MaxEntry | src/solve.py:270-271 | `max` raises iff the map is empty. Otherwise it returns an entry of the map whose value no other entry exceeds. |
| Directed.OrderOfClosed | src/solve.py:233-240 | When every head is a key, `num_vertices` is the number of keys. |
| Viz.StringToList | src/viz.py:13-14 | `string_to_list` always returns at least one piece. |
| Viz.StringToListJoin | src/viz.py:13-14 | No piece contains " -> ", and joining the pieces with " -> " gives back the stripped text. |
| Viz.BlankGivesEmptyPiece | src/viz.py:13-14 | Blank text, "" included, gives `[""]`. |
| Viz.RoundTripJoin | src/viz.py:13-14 | Reading back the " -> " join of non-empty, stripped names without '>' gives the names. |
| Viz.RoundTrip | src/viz.py:13-14 | `string_to_list(deque_to_string(xs)) == xs` for such names when the last name occurs only at the end. |
| Viz.EmptyPath | src/solve.py:174-184 | An empty path gives "", which reads back as `[""]`, not as the empty path. |
| Viz.RevisitedLastBreaks | src/solve.py:181 | `["a", "b", "a"]` gives "ab -> a", which reads back as `["ab", "a"]`. |

## Left out

- File, CSV, JSON and pandas I/O are left out. Rows, field names and adjacency maps are parameters. This covers `open`, `csv.DictReader`, `json.dump`, `to_csv`, `read_csv` and `salvar_bairros_unique` (src/graphs/io.py:43-55).
- The default arguments that load a dataset when the module is imported are left out. Every metric takes the adjacency map as an argument.
- Solve.Subgraph: the region is passed as a set. The `read_csv` lookup and the DataFrame filter of src/solve.py:79 are not modelled.
- `metricas_globais_microrregioes` (src/solve.py:97-115) only combines the subgraph and the global metrics over a pandas table. `calcular_peso_caminho_enderecos` (src/solve.py:187-219) calls `dijkstra_path`, which is not defined in src/graphs/algorithms.py.
- `bfs`, `dfs`, `dijkstra_path`, `bellman_ford` and `carregar_lista_adjacencia_parte2` are imported but not defined in the source, and src/cli.py only drives I/O. None of them are modelled. Directed.Part2Metrics takes the directed adjacency map as a parameter.
- NameIO.NormalizeName: Unicode NFKD and Unicode `lower()` are not modelled. The model drops non-ASCII characters and lower-cases A-Z, which is exact on ASCII input and on input already in NFKD form.
- Text.Lower: lower-cases ASCII letters only. The names the loader sees in src/graphs/graph.py:19-20 are treated the same way.
- Weights are integers, not floats. Densities are exact rationals, not floats formatted with `:.2f`.
- Algorithms.Dijkstra requires non-negative weights. The source does not check them, and with a negative cycle its loop need not stop.
- Algorithms.PopMin: `heapq` is a sequence with a least-distance pop. Among equal distances any entry may come out, so tie-breaking is not modelled.
- The order of dict and set iteration is not modelled. The loops over keys and over the ego set pick any element, and the contracts hold whichever order Python uses. Solve.DegreeTable and Ego.EgoNetworkMetrics fix only the set of rows, not their order.
- Directed.MaxEntry: which of several maximal entries `max` returns is not fixed. The model promises only that the chosen value is maximal.
- Ego.EgoRowOf: only list entries that are `(vertex, weight)` pairs are modelled. The branch for bare vertices (src/solve.py:128-130, 144) cannot occur with the loader's graph.
- Ego.EgoRowOf: the row stores the corrected density (see Findings). The formula as written is Ego.DensityAsWritten.
- The `graus_values` list of src/solve.py:31-38 is never read, and is not modelled.
- The pyvis drawing and colour scaling of src/viz.py:16-57 are left out.

## Findings

| source | as written | input that shows it | evidently intended | confidence | as-written member | corrected member |
|---|---|---|---|---|---|---|
| src/graphs/algorithms.py:53 | `heapq.heappush([distancia + peso, v_adjacente])` passes one argument, so `heappush` raises `TypeError` at the first improvement (line 50 has already lowered the distance) | `dijkstra(["a","b"], [("a","b",1)], "a")` | push the improved entry onto `min_heap` | not executed | DijkstraAsWritten.Dijkstra, DijkstraAsWritten.RaisesOnReachableNeighbor | Algorithms.Dijkstra |
| src/solve.py:137-159 | the edge set holds both `(u, v)` and `(v, u)` for every street, but the density divides by the number of unordered pairs `ordem(ordem-1)/2`, so it can reach 2 | `{"a": [("b",1)], "b": [("a",1)]}` gives `tamanho_ego` 2 and `densidade_ego` 2.0 | a density in [0, 1]: loop-free ordered pairs over `ordem(ordem-1)` | not executed | Ego.OneStreetDensityTwo | Ego.EgoBounds |
| src/solve.py:181 | `if i != list_obj[-1]` compares by value, so an earlier visit of the last vertex gets no arrow | `deque(["a","b","a"])` gives "ab -> a", which `string_to_list` reads as `["ab","a"]` | an arrow after every item but the last position | not executed | Viz.RevisitedLastBreaks | Viz.RoundTripJoin |
