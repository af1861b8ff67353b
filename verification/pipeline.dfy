/** The whole build, in the order the script runs it: load the tables,
    segment the stop times, build the multigraph, index it, map the
    transfers and list the routes at each stop. */
module Pipeline {
  import opened Outcome
  import opened Seqs
  import opened LexOrder
  import opened Feed
  import opened Canon
  import opened Segments
  import opened Network
  import opened Indices
  import opened Transfers

  /** The feed's rows, as the CSV reader yields them. */
  datatype FeedTables = FeedTables(routes: seq<Route>, trips: seq<TripRow>, stops: seq<Stop>,
                                   stopTimes: seq<StopTime>, transfers: seq<TransferRow>)

  /** Everything the build exports, apart from the edge enumeration. */
  datatype Outputs = Outputs(graph: Graph, nodeIndex: map<string, nat>, routes: seq<string>,
                             routeIndex: map<string, nat>, transfers: seq<TransferOut>,
                             stopRoutes: seq<StopRoutesRow>)

  function StopsOf(feed: FeedTables): StopTable {
    LoadStops(feed.stops)
  }

  function TripsOf(feed: FeedTables): map<string, Trip> {
    LoadTrips(feed.trips, LoadRoutes(feed.routes))
  }

  /** The segment list of the stop-time loop. */
  function SegmentsOf(feed: FeedTables): seq<Segment> {
    TripSegments(GroupBy(feed.stopTimes), TripsOf(feed))
  }

  /** Every transfer endpoint is a stop of the table. */
  predicate TransfersKnown(t: StopTable, rows: seq<TransferRow>) {
    forall i :: 0 <= i < |rows| ==> rows[i].fromStop in t.byId && rows[i].toStop in t.byId
  }

  /** Every transfer row joins two distinct nodes, with distinct indices, at
      cost 1, and rows are numbered in order. */
  ghost predicate TransfersSound(g: Graph, rows: seq<TransferOut>) {
    forall j :: 0 <= j < |rows| ==>
      && rows[j].id == j
      && rows[j].fromStop != rows[j].toStop
      && rows[j].fromStop in g.nodes && rows[j].toStop in g.nodes
      && rows[j].fromIdx != rows[j].toIdx
      && rows[j].cost == 1
  }

  /** The transfer loop followed by the transfer-edges rows, over the node
      index of `g`. */
  function TransferRows(t: StopTable, g: Graph, rows: seq<TransferRow>): (r: Result<seq<TransferOut>>)
    requires Valid(g)
    ensures r.Ok? <==> TransfersKnown(t, rows)
    ensures r.Ok? ==> TransfersSound(g, r.value)
  {
    var idx := Enumerate(g.order);
    var edges :- MapTransfers(t, idx, rows);
    EnumerateBijection(g.order);
    Ok(TransferTable(edges, idx))
  }

  /** Everything after the graph build: the node and route indices, the
      transfer table (the kept transfer rows, in input order) and the
      stop-routes table. It completes exactly when every transfer endpoint
      is in the stop table. */
  method Export(t: StopTable, g: Graph, transfers: seq<TransferRow>) returns (r: Result<Outputs>)
    requires Valid(g)
    ensures r.Ok? <==> TransfersKnown(t, transfers)
    ensures r.Ok? ==> r.value.graph == g
    ensures r.Ok? ==> NodesIndexed(g, r.value.nodeIndex)
    ensures r.Ok? ==> RoutesIndexed(g, r.value.routes, r.value.routeIndex)
    ensures r.Ok? ==> r.value.transfers == TransferRows(t, g, transfers).value
    ensures r.Ok? ==> TransfersSound(g, r.value.transfers)
    ensures r.Ok? ==> StopRoutesListed(g, r.value.stopRoutes)
  {
    var nodeIdx := Enumerate(g.order);
    NodeIndexOfGraph(g);
    var routes, routeIdx := RouteIndex(g);
    var table :- TransferRows(t, g, transfers);
    var stopRoutes := StopRoutes(g);
    return Ok(Outputs(g, nodeIdx, routes, routeIdx, table, stopRoutes));
  }

  /** The run completes exactly when every referenced stop and its station
      and every transfer endpoint are in the stop table. On completion the
      graph is the one both loops build, the transfer table is that of the
      kept transfer rows in input order, and the indices, the transfer table
      and the stop-routes table are as the predicates above describe. */
  method Run(feed: FeedTables) returns (r: Result<Outputs>)
    ensures r.Ok? <==>
      (forall s :: s in Referenced(SegmentsOf(feed)) ==> Resolvable(StopsOf(feed), s))
      && TransfersKnown(StopsOf(feed), feed.transfers)
    ensures r.Ok? ==> BuildGraph(StopsOf(feed), SegmentsOf(feed)) == Ok(r.value.graph)
    ensures r.Ok? ==> Valid(r.value.graph)
    ensures r.Ok? ==> NodesIndexed(r.value.graph, r.value.nodeIndex)
    ensures r.Ok? ==> RoutesIndexed(r.value.graph, r.value.routes, r.value.routeIndex)
    ensures r.Ok? ==> r.value.transfers == TransferRows(StopsOf(feed), r.value.graph, feed.transfers).value
    ensures r.Ok? ==> TransfersSound(r.value.graph, r.value.transfers)
    ensures r.Ok? ==> StopRoutesListed(r.value.graph, r.value.stopRoutes)
  {
    var t := StopsOf(feed);
    var segs := SegmentsOf(feed);
    BuildGraphOk(t, segs);
    var built := BuildGraph(t, segs);
    if built.MissingStop? {
      return MissingStop(built.id);
    }
    BuildGraphNodes(t, segs);
    r := Export(t, built.value, feed.transfers);
  }

  /** The edges-by-route table of the built graph `g` over any enumeration
      of its edges and the exported node and route indices: every listed
      edge has its end and route indices, there is one row per edge, and
      the count column adds up to the number of segments. */
  lemma EdgeTable(t: StopTable, segs: seq<Segment>, g: Graph, nodeIdx: map<string, nat>,
                  routes: seq<string>, routeIdx: map<string, nat>, keys: seq<EdgeKey>)
    requires BuildGraph(t, segs) == Ok(g)
    requires NodesIndexed(g, nodeIdx)
    requires RoutesIndexed(g, routes, routeIdx)
    requires Distinct(keys)
    requires forall k :: k in keys <==> k in g.edges
    ensures KeysIndexed(g, nodeIdx, routeIdx, keys)
    ensures var rows := EdgeRows(g, nodeIdx, routeIdx, keys);
      && |rows| == |g.edges|
      && CountColumn(rows) == |segs|
  {
    assert forall i :: 0 <= i < |keys| ==> keys[i] in keys;
    EdgesIndexed(g, nodeIdx, routes, routeIdx, keys);
    CountColumnIsTotal(g, nodeIdx, routeIdx, keys);
    BuildGraphTotalCount(t, segs, keys);
    DistinctListingSize(keys, g.edges.Keys);
  }

  lemma DistinctListingSize(keys: seq<EdgeKey>, s: set<EdgeKey>)
    requires Distinct(keys)
    requires forall k :: k in keys <==> k in s
    ensures |keys| == |s|
    decreases |keys|
  {
    if |keys| > 0 {
      assert forall k :: k in keys[1..] <==> k in s - {keys[0]} by {
        forall k | k in keys[1..]
          ensures k != keys[0]
        {
          var j :| 0 <= j < |keys[1..]| && keys[1..][j] == k;
          assert keys[j + 1] == k;
        }
      }
      DistinctListingSize(keys[1..], s - {keys[0]});
    } else {
      assert s == {};
    }
  }
}
