# GTFS station multigraph — a Dafny model

This project models the network-construction pipeline of
`GTFS_MTA_with_routes.py`. The pipeline reads a GTFS Schedule feed
(`routes.txt`, `trips.txt`, `stops.txt`, `stop_times.txt`, `transfers.txt`)
and builds an undirected station multigraph. In that graph:

- a node is a canonical stop id: a child stop stands for its `parent_station`;
- an edge is keyed by its unordered endpoint pair plus a route short name;
- each edge has a `count` of the trip segments that landed on it.

From the graph the pipeline derives dense integer indices for nodes and
routes, a transfer-edge table and a per-stop list of routes. Everything is
modelled with immutable datatypes, sequences and maps, using pure functions
and a few methods.

Modules, in pipeline order:

- `Feed` models the row records and the loaders `load_routes`, `load_trips`
  and `load_stops`. It holds the agency allow-list `["MTA NYCT"]` and the
  route deny-list `["SI"]`.
- `Canon` models `get_stop_id`. A stop missing from the stop table is a
  `MissingStop` failure (the script's `KeyError`), never a default.
- `Segments` models `itertools.groupby` over stop times as maximal runs of
  equal trip id, and the chain of `(from, to, route_short_name)` segments of
  each kept run.
- `Network` models the multigraph, `add_stop_to_graph`, `add_edge_to_graph`,
  the node loop and the edge loop. An edge key is `EdgeKey(lo, hi, route)`.
  The endpoint pair is normalised so that `lo` comes first in Python string
  order. So `(u, v, r)` and `(v, u, r)` name the same edge, as
  `get_edge_data` does on an undirected `MultiGraph`.
- `Indices` models the node index and the route index, the
  edges-by-route rows and the stop-routes rows.
- `Transfers` models the transfer mapping and the transfer-edges rows.
- `Pipeline` models the whole run in the script's order, with its result.
- `LexOrder` holds Python's `str` ordering and `sorted` on a set of strings.
  `Seqs` holds duplicate freedom and occurrence counts. `Outcome` holds the
  `Result` type.

Some behaviour is easy to miss, and the model keeps it:

- `add_edge` on a `MultiGraph` creates any missing endpoint node with no
  attributes. The model does the same (`Network.EnsureNode`).
  `Network.BuildGraphNodes` proves that this never happens in the pipeline:
  the node loop has already created every canonical endpoint, with the
  attributes of its station row.
- The node loop walks the stop dictionary, not the set of referenced stops.
  So node order is the order in which the stop table first lists each
  referenced stop, mapped to its station (`Network.BuildGraphOrder`).
- `add_stop_to_graph` reads the row of the canonical station. A referenced
  stop whose `parent_station` names an id absent from the stop table aborts
  the run, even if no segment names that station directly.
- `get_stop_id` resolves one level of `parent_station` only. So
  canonicalisation is idempotent only when every parent station is itself
  in the table with an empty `parent_station`, as GTFS requires.
  `Canon.CanonicalIdempotent` proves idempotence under that condition, and
  `Canon.CanonicalOneLevelOnly` shows a three-level table where it fails.
- An unknown stop in `transfers.txt` aborts the run too, through the
  `KeyError` of `get_stop_id`. Transfers are mapped after the nodes,
  routes and edges-by-route files are written, so those files exist when
  that happens. `Pipeline.Run` states exactly when the run completes.

## Model

| member | source | states |
|---|---|---|
| Feed.LoadRoutes | GTFS_MTA_with_routes.py:81-91 | every stored route is stored under its own id and is admitted: its agency is on the allow-list and its id is not on the deny-list |
| Feed.LoadRoutesKeeps | GTFS_MTA_with_routes.py:84-89 | a route id is present iff some row with that id is admitted, and the stored row is the last admitted row with that id |
| Feed.LoadTrips | GTFS_MTA_with_routes.py:94-106 | every kept trip names an admitted route and carries that route's `route_short_name` and `route_color` |
| Feed.LoadTripsKeeps | GTFS_MTA_with_routes.py:100-104 | a trip id is kept iff one of its rows names an admitted route; the kept entry comes from the last such row |
| Feed.TripKeptIffRouteAdmitted | GTFS_MTA_with_routes.py:86-104 | composed over both loaders: a trip is kept iff one of its rows names the id of an admitted row of `routes.txt` |
| Feed.LoadStops | GTFS_MTA_with_routes.py:109-115 | the stop table holds exactly the ids of the rows, listed once each, with every row stored under its own id |
| Feed.LoadStopsOrder | GTFS_MTA_with_routes.py:109-115 | the dictionary's iteration order lists each stop id once, at the position of its first row, as a Python dict keeps insertion order when a key is reassigned |
| Feed.LoadStopsLastWins | GTFS_MTA_with_routes.py:111-113 | the row stored for an id is the last row carrying that id |
| Canon.Canonical | GTFS_MTA_with_routes.py:40-45 | an id absent from the stop table fails with that id; otherwise the result is the id itself when `parent_station` is empty and the `parent_station` value otherwise |
| Canon.CanonicalIdempotent | GTFS_MTA_with_routes.py:40-45 | when parent stations are in the table with no parent of their own, canonicalising a canonical id returns it unchanged |
| Canon.CanonicalOneLevelOnly | GTFS_MTA_with_routes.py:40-45 | with a grandparent recorded, one canonicalisation stops at the parent and a second one moves on, so idempotence needs the station hierarchy |
| Segments.GroupBy | GTFS_MTA_with_routes.py:151 | the runs expand back to exactly the stop-time rows in order; no run is empty and neighbouring runs differ in trip id |
| Segments.GroupByUnique | GTFS_MTA_with_routes.py:151 | any decomposition into maximal runs that expands to the rows is the one `GroupBy` returns |
| Segments.Chain | GTFS_MTA_with_routes.py:161-168 | fewer than two stops give no segment; otherwise n stops give n-1 segments, segment i joining stop i to stop i+1 on the given route |
| Segments.GroupSegments | GTFS_MTA_with_routes.py:152-168 | a run whose trip is not kept, or with fewer than two stop times, yields nothing; a kept run of n >= 2 yields n-1 segments pairing each stop with its successor under the trip's short name |
| Segments.TripSegments | GTFS_MTA_with_routes.py:151-168 | every segment carries the route short name of some kept trip |
| Segments.ReferencedAreRunStops | GTFS_MTA_with_routes.py:147-166 | the stop ids the segments touch are exactly the stops of kept runs with at least two stop times, the set the loop collects |
| Segments.SegmentsFromConsecutiveRows | GTFS_MTA_with_routes.py:151-168 | every segment joins two consecutive stop-time rows of the same kept trip, with that trip's short name |
| Segments.SegmentsOfRows | GTFS_MTA_with_routes.py:151-168 | segmenting the `groupby` runs gives exactly the list read straight off the rows: one segment per pair of neighbouring rows of one kept trip, in file order |
| Segments.SegmentsArePairs | GTFS_MTA_with_routes.py:151-168 | the segments correspond one-to-one and in order to the ascending list of neighbouring row pairs of one kept trip: segment k joins the rows of the k-th pair, so the number of segments is the number of such pairs |
| Segments.SegmentForEveryPair | GTFS_MTA_with_routes.py:151-168 | every pair of neighbouring rows of one kept trip yields its segment, under the trip's route short name |
| Network.Key | GTFS_MTA_with_routes.py:72-78 | an edge key holds the two endpoints as an unordered pair, smaller end first in string order, and the route |
| Network.KeySameEdge | GTFS_MTA_with_routes.py:72 | two (endpoint, endpoint, route) triples hit the same edge iff they have the same unordered endpoint pair and route |
| Network.AddStop | GTFS_MTA_with_routes.py:48-59 | succeeds iff the stop and its station are in the table; adds the station node with its row's name and coordinates only if absent; edges untouched; the graph invariant is kept |
| Network.AddStopIdempotent | GTFS_MTA_with_routes.py:52-58 | adding the same stop twice leaves the graph as after the first time |
| Network.EnsureNode | GTFS_MTA_with_routes.py:75-78 | `add_edge` on a missing endpoint appends it to the node order with no attributes and keeps every existing node; an existing endpoint leaves the graph as it is |
| Network.AddEdge | GTFS_MTA_with_routes.py:62-78 | fails on an unknown `from` id first, then `to`; otherwise the edge of the canonical unordered pair and route ends with its old count plus one (1 if new), every other edge keeps its count, and no node changes when both ends are already nodes |
| Network.AddStops | GTFS_MTA_with_routes.py:174-176 | the node loop succeeds iff every referenced id it walks resolves to a station in the table, and a failure names an id the table lacks; it keeps edges and the graph invariant |
| Network.AddStopsNodes | GTFS_MTA_with_routes.py:174-176 | the node loop adds exactly the canonical stations of the referenced ids it walks |
| Network.AddStopsAttrs | GTFS_MTA_with_routes.py:174-176 | the node loop keeps existing nodes and gives each new node the attributes of its station row |
| Network.AddStopsOrder | GTFS_MTA_with_routes.py:174-176 | the node loop appends each station at its first appearance among the referenced ids it walks and never reorders the nodes already there |
| Network.AddEdges | GTFS_MTA_with_routes.py:180-186 | the edge loop succeeds iff every segment endpoint is a known stop, a failure names an id the table lacks, and it keeps the graph invariant |
| Network.AddEdgesCounts | GTFS_MTA_with_routes.py:180-186 | after the edge loop each key's count is its old count plus the number of segments landing on it, and the keys are the old ones plus the segments' keys |
| Network.AddEdgesKeepsNodes | GTFS_MTA_with_routes.py:180-186 | when all canonical endpoints are already nodes, the edge loop changes neither nodes nor node order |
| Network.BuildGraph | GTFS_MTA_with_routes.py:173-186 | both loops together yield a multigraph (distinct nodes in order, edges between nodes with counts of at least one), or fail with the `KeyError` of an id the stop table lacks |
| Network.BuildGraphOk | GTFS_MTA_with_routes.py:173-186 | both loops together succeed iff every referenced stop and its station are in the stop table |
| Network.EdgeLoopAddsNoNode | GTFS_MTA_with_routes.py:173-186 | every segment endpoint's station is a node when the edge loop starts, so that loop leaves the nodes and their order as the node loop left them |
| Network.BuildGraphNodes | GTFS_MTA_with_routes.py:173-186 | the built graph has one node per canonical station of a referenced stop, each with its station row's attributes, and no other node |
| Network.BuildGraphOrder | GTFS_MTA_with_routes.py:173-196 | the node order behind `node_index` lists each station once, at the first referenced stop in the stop table's order that resolves to it |
| Network.BuildGraphEdges | GTFS_MTA_with_routes.py:149-186 | each edge's count equals the number of segments with that canonical unordered endpoint pair and route, and there is no other edge |
| Network.BuildGraphTotalCount | GTFS_MTA_with_routes.py:167-186 | summed over any duplicate-free listing of the edges, the counts equal the number of segments |
| Indices.NodeIndexOfGraph | GTFS_MTA_with_routes.py:195-196 | on a multigraph the node index holds exactly the nodes and numbers them 0..N-1 in node order |
| Indices.Enumerate | GTFS_MTA_with_routes.py:196 | the index holds exactly the listed values, each mapped to a position holding it |
| Indices.EnumerateBijection | GTFS_MTA_with_routes.py:195-196 | on the duplicate-free node list the index maps position i to i and distinct nodes to distinct indices, a bijection onto 0..N-1 |
| Indices.RouteIndex | GTFS_MTA_with_routes.py:198-200 | the route list is strictly ascending and holds exactly the route keys present on edges; the index holds exactly those keys, numbers them 0..R-1 and agrees with string order |
| Indices.EdgeRows | GTFS_MTA_with_routes.py:238-250 | row i has edge index i, the listed edge's endpoints with the earlier node as `from`, their node indices, the route index and the edge's count |
| Indices.CountColumnIsTotal | GTFS_MTA_with_routes.py:242 | the count column of the edge rows adds up to the total count of the listed edges |
| Indices.StopRoutes | GTFS_MTA_with_routes.py:361-375 | one row per node in node order, carrying the node's id and stop name and listing strictly ascending exactly the route keys of the edges at that node, a self-loop included |
| Transfers.MapTransfers | GTFS_MTA_with_routes.py:260-279 | succeeds iff every transfer endpoint is a known stop; every emitted edge joins two distinct canonical stations that are both node-index keys |
| Transfers.MapTransfersRow | GTFS_MTA_with_routes.py:261-279 | a single row fails on an unknown `from` id, then `to`; a known row yields its canonical edge, with type and minimum time carried over, iff its ends differ and both are node-index keys |
| Transfers.MapTransfersAppend | GTFS_MTA_with_routes.py:260-279 | mapping two batches of rows and concatenating equals mapping them together, so emitted rows keep input order |
| Transfers.TransferTable | GTFS_MTA_with_routes.py:295-305 | row j is numbered j, carries the edge's stations, their node indices, type and minimum time, and cost 1 |
| Pipeline.TransferRows | GTFS_MTA_with_routes.py:258-305 | the transfer loop and the transfer-edges rows complete iff every transfer endpoint is in the stop table; then row j is numbered j and joins two distinct nodes with distinct node indices at cost 1 |
| Pipeline.Export | GTFS_MTA_with_routes.py:194-375 | the indices and tables after the graph build complete iff every transfer endpoint is known; the node index, route index and stop-routes rows are then as stated above for the given graph, and the transfer table is exactly `Pipeline.TransferRows` of the transfer rows: the kept transfers in input order |
| Pipeline.Run | GTFS_MTA_with_routes.py:138-305 | the run completes iff every referenced stop, its station and every transfer endpoint are in the stop table; then the graph is the built one, node and route indices are bijections as above, the transfer table is exactly `Pipeline.TransferRows` of `transfers.txt` over the built graph (the kept transfers in input order, each joining distinct nodes with distinct indices at cost 1), and every node has its sorted route list |
| Pipeline.EdgeTable | GTFS_MTA_with_routes.py:226-250 | over any duplicate-free enumeration of the built edges and the exported node and route indices, every listed edge has its end and route indices, the edge table has one row per edge, and its count column adds up to the number of segments |
| LexOrder.SortSet | GTFS_MTA_with_routes.py:199 | `sorted` of a set of strings: strictly ascending in Python string order, holding exactly the set's elements |
| LexOrder.SortedUnique | GTFS_MTA_with_routes.py:372 | two strictly ascending sequences with the same elements are equal, so the sorted listing is unique |

## Left out

- CSV reading and writing (`DictReader`, `csv.writer`, file paths, printed counts) are I/O. The feed is a value of `Pipeline.FeedTables`, a sequence of row records per file. The loaders read only the columns the builder uses. A file without one of those columns, which raises `KeyError` in the script, is not modelled. An absent optional `transfer_type` or `min_transfer_time` is read as "".
- The networkx edge enumeration order behind `edge_idx` is internal to the library. `Indices.EdgeRows` and `Pipeline.EdgeTable` take any duplicate-free listing of the edge keys. The `from` end of a row is the endpoint that comes earlier in node order, which is how a `MultiGraph` reports its edges.
- The comma-joined text column of `stop_routes.csv` is output formatting. `Indices.StopRoutes` yields the sorted list that gets joined.
- Plotting with cartopy and matplotlib, and the float parsing of coordinates for the layout, are UI and floating-point code. Coordinates stay the stop row's text.
- The ridership scripts `aggregate_turnstile_data.py`, `map_turnstile_data_to_gtfs_id.py` and `create_nodes_with_ridership_info.py` are pandas pipelines with float values and no logic of their own.
- Demand balancing and its largest-remainder integerisation are not in the shown source, so there is nothing to model them against.
- Canon.CanonicalIdempotent: proved only for tables that follow the GTFS station hierarchy, because `get_stop_id` resolves a single level of `parent_station` (see `Canon.CanonicalOneLevelOnly`).
