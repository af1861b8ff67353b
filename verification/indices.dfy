/** Dense integer indices derived from a built graph, and the per-edge and
    per-stop rows the exports are made of. */
module Indices {
  import opened Seqs
  import opened LexOrder
  import opened Network

  /** `{x: i for i, x in enumerate(xs)}`: each value maps to its position,
      a later position replacing an earlier one. */
  function Enumerate(xs: seq<string>): (idx: map<string, nat>)
    ensures forall x :: x in idx <==> x in xs
    ensures forall x :: x in idx ==> idx[x] < |xs| && xs[idx[x]] == x
  {
    if |xs| == 0 then map[]
    else
      var prev := xs[..|xs| - 1];
      assert forall x :: x in xs <==> x in prev || x == xs[|xs| - 1];
      Enumerate(prev)[xs[|xs| - 1] := |xs| - 1]
  }

  /** On a duplicate-free list the index is a bijection onto
      `0 .. |xs| - 1`: position `i` gets index `i`, and distinct values get
      distinct indices. */
  lemma EnumerateBijection(xs: seq<string>)
    requires Distinct(xs)
    ensures forall i :: 0 <= i < |xs| ==> xs[i] in Enumerate(xs) && Enumerate(xs)[xs[i]] == i
    ensures forall x, y :: x in Enumerate(xs) && y in Enumerate(xs) && x != y ==> Enumerate(xs)[x] != Enumerate(xs)[y]
  {
    var idx := Enumerate(xs);
    forall i | 0 <= i < |xs|
      ensures xs[i] in idx && idx[xs[i]] == i
    {
      assert xs[i] in xs;
    }
  }

  lemma SortedDistinct(s: seq<string>)
    requires StrictlySorted(s)
    ensures Distinct(s)
  {
    forall i, j | 0 <= i < j < |s|
      ensures s[i] != s[j]
    {
      LessIrreflexive(s[i]);
    }
  }

  /** The route short names that key at least one edge. */
  function RouteKeys(g: Graph): set<string> {
    set k | k in g.edges :: k.route
  }

  /** Node indices number the nodes `0 .. N - 1` in discovery order. */
  ghost predicate NodesIndexed(g: Graph, idx: map<string, nat>) {
    && (forall n :: n in idx <==> n in g.nodes)
    && (forall i :: 0 <= i < |g.order| ==> g.order[i] in idx && idx[g.order[i]] == i)
    && (forall n :: n in idx ==> idx[n] < |g.order|)
  }

  /** Route indices number the route keys present on edges, sorted and each
      once, `0 .. R - 1` in ascending order. */
  ghost predicate RoutesIndexed(g: Graph, routes: seq<string>, idx: map<string, nat>) {
    && StrictlySorted(routes)
    && (forall r :: r in routes <==> exists k :: k in g.edges && k.route == r)
    && (forall r :: r in idx <==> r in routes)
    && (forall i :: 0 <= i < |routes| ==> idx[routes[i]] == i)
  }

  /** The node index of a graph numbers its nodes in insertion order. */
  lemma NodeIndexOfGraph(g: Graph)
    requires Valid(g)
    ensures NodesIndexed(g, Enumerate(g.order))
  {
    EnumerateBijection(g.order);
  }

  /** `routes_in_graph` and `route_index`: the route keys present on edges,
      sorted and without repeats, and the index that numbers them
      `0 .. R - 1` in ascending order. */
  method RouteIndex(g: Graph) returns (routes: seq<string>, idx: map<string, nat>)
    ensures RoutesIndexed(g, routes, idx)
    ensures forall a, b :: a in idx && b in idx ==> (Less(a, b) <==> idx[a] < idx[b])
  {
    routes := SortSet(RouteKeys(g));
    idx := Enumerate(routes);
    SortedDistinct(routes);
    EnumerateBijection(routes);
    forall a, b | a in idx && b in idx
      ensures Less(a, b) <==> idx[a] < idx[b]
    {
      var i, j := idx[a], idx[b];
      assert routes[i] == a && routes[j] == b;
      if j < i {
        LessAsymmetric(b, a);
      } else if i == j {
        LessIrreflexive(a);
      }
    }
  }

  /** One row of the edges-by-route table. */
  datatype EdgeRow = EdgeRow(edgeIdx: nat, fromIdx: nat, toIdx: nat, routeIdx: nat,
                             fromStop: string, toStop: string, route: string, count: nat)

  /** Every listed key is an edge whose ends and route have indices. */
  predicate KeysIndexed(g: Graph, nodeIdx: map<string, nat>, routeIdx: map<string, nat>, keys: seq<EdgeKey>) {
    forall i :: 0 <= i < |keys| ==>
      keys[i] in g.edges && keys[i].lo in nodeIdx && keys[i].hi in nodeIdx && keys[i].route in routeIdx
  }

  /** Under the exported indices every edge of a multigraph has its end and
      route indices. */
  lemma EdgesIndexed(g: Graph, nodeIdx: map<string, nat>, routes: seq<string>, routeIdx: map<string, nat>, keys: seq<EdgeKey>)
    requires Valid(g) && NodesIndexed(g, nodeIdx) && RoutesIndexed(g, routes, routeIdx)
    requires forall i :: 0 <= i < |keys| ==> keys[i] in g.edges
    ensures KeysIndexed(g, nodeIdx, routeIdx, keys)
  {
    forall i | 0 <= i < |keys|
      ensures keys[i].lo in nodeIdx && keys[i].hi in nodeIdx && keys[i].route in routeIdx
    {
      assert keys[i].route in routes;
    }
  }

  /** The rows of the edges-by-route table for the edges listed in `keys`
      (the multigraph's enumeration order): row `i` has edge index `i`, names
      the endpoint that came first in node order as its `from` end, and
      carries the edge's count. */
  function EdgeRows(g: Graph, nodeIdx: map<string, nat>, routeIdx: map<string, nat>, keys: seq<EdgeKey>): (rows: seq<EdgeRow>)
    requires KeysIndexed(g, nodeIdx, routeIdx, keys)
    ensures |rows| == |keys|
    ensures forall i :: 0 <= i < |rows| ==>
      && rows[i].edgeIdx == i
      && ((rows[i].fromStop, rows[i].toStop) == (keys[i].lo, keys[i].hi)
          || (rows[i].fromStop, rows[i].toStop) == (keys[i].hi, keys[i].lo))
      && rows[i].route == keys[i].route
      && rows[i].fromIdx == nodeIdx[rows[i].fromStop]
      && rows[i].toIdx == nodeIdx[rows[i].toStop]
      && rows[i].fromIdx <= rows[i].toIdx
      && rows[i].routeIdx == routeIdx[rows[i].route]
      && rows[i].count == g.edges[keys[i]]
  {
    seq(|keys|, i requires 0 <= i < |keys| && keys[i] in g.edges && keys[i].lo in nodeIdx && keys[i].hi in nodeIdx && keys[i].route in routeIdx =>
      var k := keys[i];
      var a, b := nodeIdx[k.lo], nodeIdx[k.hi];
      if a <= b then EdgeRow(i, a, b, routeIdx[k.route], k.lo, k.hi, k.route, g.edges[k])
      else EdgeRow(i, b, a, routeIdx[k.route], k.hi, k.lo, k.route, g.edges[k]))
  }

  /** The count column, added up. */
  function CountColumn(rows: seq<EdgeRow>): nat
  {
    if |rows| == 0 then 0 else rows[0].count + CountColumn(rows[1..])
  }

  lemma {:induction false} CountColumnIsTotal(g: Graph, nodeIdx: map<string, nat>, routeIdx: map<string, nat>, keys: seq<EdgeKey>)
    requires KeysIndexed(g, nodeIdx, routeIdx, keys)
    ensures CountColumn(EdgeRows(g, nodeIdx, routeIdx, keys)) == TotalCount(g.edges, keys)
  {
    if |keys| > 0 {
      var rows := EdgeRows(g, nodeIdx, routeIdx, keys);
      CountColumnIsTotal(g, nodeIdx, routeIdx, keys[1..]);
      var tail := EdgeRows(g, nodeIdx, routeIdx, keys[1..]);
      assert forall i :: 0 <= i < |tail| ==> rows[1..][i].count == tail[i].count;
      CountColumnSameCounts(rows[1..], tail);
    }
  }

  lemma {:induction false} CountColumnSameCounts(a: seq<EdgeRow>, b: seq<EdgeRow>)
    requires |a| == |b|
    requires forall i :: 0 <= i < |a| ==> a[i].count == b[i].count
    ensures CountColumn(a) == CountColumn(b)
  {
    if |a| > 0 {
      CountColumnSameCounts(a[1..], b[1..]);
    }
  }

  /** One row of the stop-routes table; the text column is `routes` joined
      with commas. */
  datatype StopRoutesRow = StopRoutesRow(stopId: string, name: string, routes: seq<string>)

  /** The routes of the edges at `n`, a self-loop included. */
  function IncidentRoutes(g: Graph, n: string): set<string> {
    set k | k in g.edges && (k.lo == n || k.hi == n) :: k.route
  }

  /** One row per node in node order, each naming the node and listing the
      sorted route keys of the edges at that node. */
  ghost predicate StopRoutesListed(g: Graph, rows: seq<StopRoutesRow>) {
    && |rows| == |g.order|
    && (forall i :: 0 <= i < |rows| ==>
      && rows[i].stopId == g.order[i]
      && g.order[i] in g.nodes && rows[i].name == g.nodes[g.order[i]].name
      && StrictlySorted(rows[i].routes))
    && (forall i, r :: 0 <= i < |rows| ==>
      (r in rows[i].routes <==> exists k :: k in g.edges && (k.lo == g.order[i] || k.hi == g.order[i]) && k.route == r))
  }

  /** The stop-routes table: one row per node in node order, listing the
      sorted route keys of the edges at that node. */
  method StopRoutes(g: Graph) returns (rows: seq<StopRoutesRow>)
    requires Valid(g)
    ensures StopRoutesListed(g, rows)
  {
    rows := [];
    var i := 0;
    while i < |g.order|
      invariant 0 <= i <= |g.order|
      invariant |rows| == i
      invariant forall j :: 0 <= j < i ==>
        rows[j].stopId == g.order[j] && rows[j].name == g.nodes[g.order[j]].name && StrictlySorted(rows[j].routes)
      invariant forall j, r :: 0 <= j < i ==>
        (r in rows[j].routes <==> exists k :: k in g.edges && (k.lo == g.order[j] || k.hi == g.order[j]) && k.route == r)
    {
      var n := g.order[i];
      var routes := SortSet(IncidentRoutes(g, n));
      rows := rows + [StopRoutesRow(n, g.nodes[n].name, routes)];
      i := i + 1;
    }
  }
}
