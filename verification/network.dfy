/** The station multigraph. Nodes are canonical stop ids in insertion order,
    each with the name and coordinates of its stop row; edges are keyed by
    an unordered endpoint pair and a route short name and carry a count. */
module Network {
  import opened Outcome
  import opened Seqs
  import opened LexOrder
  import opened Feed
  import opened Canon
  import opened Segments

  /** An edge key of the undirected multigraph: the endpoint pair with its
      smaller end (in string order) first, and the route short name. */
  datatype EdgeKey = EdgeKey(lo: string, hi: string, route: string)

  function Key(u: string, v: string, route: string): (k: EdgeKey)
    ensures (k.lo == u && k.hi == v) || (k.lo == v && k.hi == u)
    ensures k.route == route
    ensures LessEq(k.lo, k.hi)
  {
    if LessEq(u, v) then EdgeKey(u, v, route)
    else Trichotomy(u, v); EdgeKey(v, u, route)
  }

  /** Two endpoint pairs name the same edge exactly when they are the same
      unordered pair on the same route: `(u, v, r)` and `(v, u, r)` meet. */
  lemma KeySameEdge(u: string, v: string, r: string, u': string, v': string, r': string)
    ensures Key(u, v, r) == Key(u', v', r') <==> {u, v} == {u', v'} && r == r'
  {
    if {u, v} == {u', v'} && r == r' {
      assert u in {u', v'} && v in {u', v'} && u' in {u, v};
      var k, k' := Key(u, v, r), Key(u', v', r');
      assert k.lo in {u, v} && k'.lo in {u, v};
      Trichotomy(k.lo, k.hi);
      Trichotomy(k'.lo, k'.hi);
    }
  }

  /** Node attributes as the exports read them. */
  datatype NodeAttrs = NodeAttrs(name: string, lon: string, lat: string)

  /** A node that `add_edge` creates carries no attributes; the exports read
      each of them as "". */
  const Bare := NodeAttrs("", "", "")

  function StationAttrs(s: Stop): NodeAttrs {
    NodeAttrs(s.name, s.lon, s.lat)
  }

  datatype Graph = Graph(order: seq<string>, nodes: map<string, NodeAttrs>, edges: map<EdgeKey, nat>)

  const Empty := Graph([], map[], map[])

  /** What every multigraph satisfies: one node per id, listed once in
      insertion order, and every edge between existing nodes with a count of
      at least one. */
  ghost predicate Valid(g: Graph) {
    && Distinct(g.order)
    && (forall n :: n in g.nodes <==> n in g.order)
    && (forall k :: k in g.edges ==> g.edges[k] >= 1 && k.lo in g.nodes && k.hi in g.nodes)
  }

  lemma EmptyValid()
    ensures Valid(Empty)
  {
  }

  /** `add_stop_to_graph`: adds the canonical station of `id` with the
      station row's attributes, unless a node with that id exists. */
  function AddStop(g: Graph, t: StopTable, id: string): (r: Result<Graph>)
    requires Valid(g)
    ensures r.Ok? <==> Resolvable(t, id)
    ensures id !in t.byId ==> r == MissingStop(id)
    ensures id in t.byId && !Resolvable(t, id) ==> r == MissingStop(CanonicalOf(t, id))
    ensures r.Ok? ==> Valid(r.value) && r.value.edges == g.edges
    ensures r.Ok? && CanonicalOf(t, id) in g.nodes ==> r.value == g
    ensures r.Ok? && CanonicalOf(t, id) !in g.nodes ==>
      var c := CanonicalOf(t, id);
      r.value.order == g.order + [c] && r.value.nodes == g.nodes[c := StationAttrs(t.byId[c])]
  {
    var c :- Canonical(t, id);
    if c !in t.byId then MissingStop(c)
    else
      var node := t.byId[c];
      if node.stopId in g.nodes then Ok(g)
      else Ok(Graph(g.order + [node.stopId], g.nodes[node.stopId := StationAttrs(node)], g.edges))
  }

  /** Adding the same stop again leaves the graph as it is. */
  lemma AddStopIdempotent(g: Graph, t: StopTable, id: string)
    requires Valid(g)
    requires AddStop(g, t, id).Ok?
    ensures AddStop(AddStop(g, t, id).value, t, id) == AddStop(g, t, id)
  {
  }

  /** The node `add_edge` creates for an endpoint it has not seen: appended
      to the node order, with no attributes. */
  function EnsureNode(g: Graph, n: string): (h: Graph)
    ensures Valid(g) ==> Valid(h)
    ensures n in h.nodes && h.edges == g.edges
    ensures forall m :: m in g.nodes ==> m in h.nodes
    ensures n in g.nodes ==> h == g
    ensures n !in g.nodes ==> h.order == g.order + [n] && h.nodes == g.nodes[n := Bare]
  {
    if n in g.nodes then g else Graph(g.order + [n], g.nodes[n := Bare], g.edges)
  }

  /** The edge key a segment lands on. */
  function SegKey(t: StopTable, s: Segment): EdgeKey
    requires s.from in t.byId && s.to in t.byId
  {
    Key(CanonicalOf(t, s.from), CanonicalOf(t, s.to), s.route)
  }

  /** The count stored for `k`, 0 when there is no such edge. */
  function CountIn(edges: map<EdgeKey, nat>, k: EdgeKey): nat {
    if k in edges then edges[k] else 0
  }

  /** `add_edge_to_graph` once both endpoints are resolved: creates missing
      endpoint nodes, then raises the count of the edge by one. */
  function AddEdgeAt(g: Graph, u: string, v: string, route: string): (h: Graph)
    ensures Valid(g) ==> Valid(h)
    ensures var k := Key(u, v, route);
      && k in h.edges
      && h.edges[k] == CountIn(g.edges, k) + 1
      && forall k' :: k' != k ==> CountIn(h.edges, k') == CountIn(g.edges, k')
    ensures forall k :: k in h.edges <==> k in g.edges || k == Key(u, v, route)
    ensures u in g.nodes && v in g.nodes ==> h.order == g.order && h.nodes == g.nodes
  {
    var k := Key(u, v, route);
    var g1 := EnsureNode(EnsureNode(g, u), v);
    assert k.lo in g1.nodes && k.hi in g1.nodes;
    g1.(edges := g1.edges[k := CountIn(g.edges, k) + 1])
  }

  /** `add_edge_to_graph`: the edge between the canonical endpoints on
      `route` is created with count 1 or has its count raised by one; every
      other edge keeps its count. */
  function AddEdge(g: Graph, t: StopTable, fromId: string, toId: string, route: string): (r: Result<Graph>)
    ensures r.Ok? <==> fromId in t.byId && toId in t.byId
    ensures fromId !in t.byId ==> r == MissingStop(fromId)
    ensures fromId in t.byId && toId !in t.byId ==> r == MissingStop(toId)
    ensures r.Ok? && Valid(g) ==> Valid(r.value)
    ensures r.Ok? ==>
      var k := Key(CanonicalOf(t, fromId), CanonicalOf(t, toId), route);
      && k in r.value.edges
      && r.value.edges[k] == CountIn(g.edges, k) + 1
      && forall k' :: k' != k ==> CountIn(r.value.edges, k') == CountIn(g.edges, k')
    ensures r.Ok? ==> forall k :: k in r.value.edges <==> k in g.edges || k == Key(CanonicalOf(t, fromId), CanonicalOf(t, toId), route)
    ensures r.Ok? && CanonicalOf(t, fromId) in g.nodes && CanonicalOf(t, toId) in g.nodes ==>
      r.value.order == g.order && r.value.nodes == g.nodes
  {
    var u :- Canonical(t, fromId);
    var v :- Canonical(t, toId);
    Ok(AddEdgeAt(g, u, v, route))
  }

  /** Every segment endpoint is a stop of the table. */
  predicate AllStopsKnown(t: StopTable, segs: seq<Segment>) {
    forall i :: 0 <= i < |segs| ==> segs[i].from in t.byId && segs[i].to in t.byId
  }

  lemma AllStopsKnownCons(t: StopTable, segs: seq<Segment>)
    requires |segs| > 0
    ensures AllStopsKnown(t, segs) <==>
      segs[0].from in t.byId && segs[0].to in t.byId && AllStopsKnown(t, segs[1..])
  {
    assert forall i :: 0 <= i < |segs[1..]| ==> segs[1..][i] == segs[i + 1];
  }

  /** The edge key of every segment, in order. */
  function SegKeys(t: StopTable, segs: seq<Segment>): (ks: seq<EdgeKey>)
    requires AllStopsKnown(t, segs)
    ensures |ks| == |segs|
    ensures forall i :: 0 <= i < |segs| ==> ks[i] == SegKey(t, segs[i])
  {
    if |segs| == 0 then []
    else [SegKey(t, segs[0])] + SegKeys(t, segs[1..])
  }

  /** The edge loop: `add_edge_to_graph` for every segment in order, stopping
      at the first unknown stop. */
  function AddEdges(g: Graph, t: StopTable, segs: seq<Segment>): (r: Result<Graph>)
    ensures r.Ok? <==> AllStopsKnown(t, segs)
    ensures r.MissingStop? ==> r.id !in t.byId
    ensures r.Ok? && Valid(g) ==> Valid(r.value)
    decreases |segs|
  {
    if |segs| == 0 then Ok(g)
    else
      AllStopsKnownCons(t, segs);
      var g1 :- AddEdge(g, t, segs[0].from, segs[0].to, segs[0].route);
      AddEdges(g1, t, segs[1..])
  }

  /** Count conservation: after the edge loop, the count of every key is
      what it was plus the number of segments landing on it, and the keys
      are the old ones plus those of the segments. */
  lemma AddEdgesCounts(g: Graph, t: StopTable, segs: seq<Segment>)
    requires AllStopsKnown(t, segs)
    ensures forall k :: k in AddEdges(g, t, segs).value.edges <==> k in g.edges || k in SegKeys(t, segs)
    ensures forall k :: CountIn(AddEdges(g, t, segs).value.edges, k) == CountIn(g.edges, k) + CountOf(SegKeys(t, segs), k)
  {
    var r := AddEdges(g, t, segs).value;
    forall k
      ensures k in r.edges <==> k in g.edges || k in SegKeys(t, segs)
      ensures CountIn(r.edges, k) == CountIn(g.edges, k) + CountOf(SegKeys(t, segs), k)
    {
      AddEdgesCount(g, t, segs, k);
      AddEdgesKey(g, t, segs, k);
    }
  }

  /** A key is present after the edge loop exactly when it was before or some
      segment lands on it. */
  lemma {:induction false} AddEdgesKey(g: Graph, t: StopTable, segs: seq<Segment>, k: EdgeKey)
    requires AllStopsKnown(t, segs)
    ensures k in AddEdges(g, t, segs).value.edges <==> k in g.edges || k in SegKeys(t, segs)
    decreases |segs|
  {
    if |segs| == 0 {
      assert AddEdges(g, t, segs) == Ok(g);
      assert SegKeys(t, segs) == [];
    } else {
      var g1 := AddEdgesStep(g, t, segs);
      AddEdgesKey(g1, t, segs[1..], k);
      SegKeysCons(t, segs);
    }
  }

  /** The count of one key after the edge loop: its old count plus the
      number of segments that land on it. */
  lemma {:induction false} AddEdgesCount(g: Graph, t: StopTable, segs: seq<Segment>, k: EdgeKey)
    requires AllStopsKnown(t, segs)
    ensures CountIn(AddEdges(g, t, segs).value.edges, k) == CountIn(g.edges, k) + CountOf(SegKeys(t, segs), k)
    decreases |segs|
  {
    if |segs| == 0 {
      assert AddEdges(g, t, segs) == Ok(g);
      assert SegKeys(t, segs) == [];
    } else {
      var g1 := AddEdgesStep(g, t, segs);
      AddEdgesCount(g1, t, segs[1..], k);
      SegKeysCons(t, segs);
      CountOfCons(SegKey(t, segs[0]), SegKeys(t, segs[1..]), k);
    }
  }

  lemma SegKeysCons(t: StopTable, segs: seq<Segment>)
    requires AllStopsKnown(t, segs) && |segs| > 0
    ensures AllStopsKnown(t, segs[1..])
    ensures SegKeys(t, segs) == [SegKey(t, segs[0])] + SegKeys(t, segs[1..])
  {
    AllStopsKnownCons(t, segs);
  }

  /** The first step of the edge loop, as counts: the first segment's key
      gains one and the loop continues on the rest. */
  lemma AddEdgesStep(g: Graph, t: StopTable, segs: seq<Segment>) returns (g1: Graph)
    requires AllStopsKnown(t, segs) && |segs| > 0
    ensures AllStopsKnown(t, segs[1..])
    ensures AddEdges(g, t, segs) == AddEdges(g1, t, segs[1..])
    ensures forall k :: CountIn(g1.edges, k) == CountIn(g.edges, k) + (if k == SegKey(t, segs[0]) then 1 else 0)
    ensures forall k :: k in g1.edges <==> k in g.edges || k == SegKey(t, segs[0])
  {
    AllStopsKnownCons(t, segs);
    g1 := AddEdge(g, t, segs[0].from, segs[0].to, segs[0].route).value;
  }

  /** When every canonical endpoint is already a node, the edge loop adds no
      node and keeps the insertion order. */
  lemma {:induction false} AddEdgesKeepsNodes(g: Graph, t: StopTable, segs: seq<Segment>)
    requires AllStopsKnown(t, segs)
    requires forall i :: 0 <= i < |segs| ==> CanonicalOf(t, segs[i].from) in g.nodes && CanonicalOf(t, segs[i].to) in g.nodes
    ensures AddEdges(g, t, segs).value.order == g.order
    ensures AddEdges(g, t, segs).value.nodes == g.nodes
    decreases |segs|
  {
    if |segs| > 0 {
      var g1 := AddEdge(g, t, segs[0].from, segs[0].to, segs[0].route).value;
      assert forall i :: 0 <= i < |segs[1..]| ==> segs[1..][i] == segs[i + 1];
      AddEdgesKeepsNodes(g1, t, segs[1..]);
    }
  }

  /** The node loop: `add_stop_to_graph` for each id of `ids` (the stop
      dictionary's iteration order) that some segment references. */
  function AddStops(g: Graph, t: StopTable, ids: seq<string>, referenced: set<string>): (r: Result<Graph>)
    requires Valid(g)
    ensures r.Ok? <==> forall i :: 0 <= i < |ids| && ids[i] in referenced ==> Resolvable(t, ids[i])
    ensures r.MissingStop? ==> r.id !in t.byId
    ensures r.Ok? ==> Valid(r.value) && r.value.edges == g.edges
    decreases |ids|
  {
    if |ids| == 0 then Ok(g)
    else
      assert forall i :: 0 <= i < |ids[1..]| ==> ids[1..][i] == ids[i + 1];
      var g1 :- if ids[0] in referenced then AddStop(g, t, ids[0]) else Ok(g);
      AddStops(g1, t, ids[1..], referenced)
  }

  /** Some id of `ids` that segments reference has `n` as its station. */
  ghost predicate StationAmong(t: StopTable, ids: seq<string>, referenced: set<string>, n: string) {
    exists i :: 0 <= i < |ids| && ids[i] in referenced && Resolvable(t, ids[i]) && CanonicalOf(t, ids[i]) == n
  }

  lemma StationAmongCons(t: StopTable, ids: seq<string>, referenced: set<string>, n: string)
    requires |ids| > 0
    ensures StationAmong(t, ids, referenced, n) <==>
      (ids[0] in referenced && Resolvable(t, ids[0]) && CanonicalOf(t, ids[0]) == n)
      || StationAmong(t, ids[1..], referenced, n)
  {
    if StationAmong(t, ids, referenced, n) {
      var i :| 0 <= i < |ids| && ids[i] in referenced && Resolvable(t, ids[i]) && CanonicalOf(t, ids[i]) == n;
      if i > 0 {
        assert ids[1..][i - 1] == ids[i];
      }
    }
    if StationAmong(t, ids[1..], referenced, n) {
      var i :| 0 <= i < |ids[1..]| && ids[1..][i] in referenced && Resolvable(t, ids[1..][i]) && CanonicalOf(t, ids[1..][i]) == n;
      assert ids[1..][i] == ids[i + 1];
    }
  }

  /** The node loop adds exactly the canonical stations of the referenced
      ids it walks, and nothing else. */
  lemma {:induction false} AddStopsNodes(g: Graph, t: StopTable, ids: seq<string>, referenced: set<string>)
    requires Valid(g)
    requires AddStops(g, t, ids, referenced).Ok?
    ensures forall n :: n in AddStops(g, t, ids, referenced).value.nodes <==>
      n in g.nodes || StationAmong(t, ids, referenced, n)
    decreases |ids|
  {
    if |ids| > 0 {
      var g1 := (if ids[0] in referenced then AddStop(g, t, ids[0]) else Ok(g)).value;
      AddStopsNodes(g1, t, ids[1..], referenced);
      forall n {
        StationAmongCons(t, ids, referenced, n);
      }
    }
  }

  /** The node loop keeps every node it finds, and gives every node it adds
      the attributes of that station's row. */
  lemma {:induction false} AddStopsAttrs(g: Graph, t: StopTable, ids: seq<string>, referenced: set<string>)
    requires Valid(g)
    requires AddStops(g, t, ids, referenced).Ok?
    ensures var g' := AddStops(g, t, ids, referenced).value;
      && (forall n :: n in g'.nodes && n !in g.nodes ==> n in t.byId && g'.nodes[n] == StationAttrs(t.byId[n]))
      && (forall n :: n in g.nodes ==> n in g'.nodes && g'.nodes[n] == g.nodes[n])
    decreases |ids|
  {
    if |ids| > 0 {
      var g1 := (if ids[0] in referenced then AddStop(g, t, ids[0]) else Ok(g)).value;
      AddStopsAttrs(g1, t, ids[1..], referenced);
    }
  }

  /** The graph both loops build from the stop table and the segment list:
      a multigraph, or the `KeyError` of an id the stop table lacks. */
  function BuildGraph(t: StopTable, segs: seq<Segment>): (r: Result<Graph>)
    ensures r.Ok? ==> Valid(r.value)
    ensures r.MissingStop? ==> r.id !in t.byId
  {
    EmptyValid();
    var g :- AddStops(Empty, t, t.order, Referenced(segs));
    AddEdges(g, t, segs)
  }

  lemma ReferencedEndpoints(segs: seq<Segment>)
    ensures forall i :: 0 <= i < |segs| ==> segs[i].from in Referenced(segs) && segs[i].to in Referenced(segs)
    ensures forall s :: s in Referenced(segs) ==> exists i :: 0 <= i < |segs| && (segs[i].from == s || segs[i].to == s)
  {
    forall i | 0 <= i < |segs|
      ensures segs[i].from in Referenced(segs) && segs[i].to in Referenced(segs)
    {
      assert segs[i] in segs;
    }
    forall s | s in Referenced(segs)
      ensures exists i :: 0 <= i < |segs| && (segs[i].from == s || segs[i].to == s)
    {
      var seg :| seg in segs && (seg.from == s || seg.to == s);
      var i :| 0 <= i < |segs| && segs[i] == seg;
    }
  }

  /** The build succeeds exactly when every referenced stop and its station
      are in the stop table; the failure names an id the table lacks. */
  lemma BuildGraphOk(t: StopTable, segs: seq<Segment>)
    ensures BuildGraph(t, segs).Ok? <==> forall s :: s in Referenced(segs) ==> Resolvable(t, s)
    ensures BuildGraph(t, segs).Ok? ==> AllStopsKnown(t, segs)
  {
    EmptyValid();
    var refd := Referenced(segs);
    ReferencedEndpoints(segs);
    var r1 := AddStops(Empty, t, t.order, refd);
    forall s | s in refd && s in t.byId && r1.Ok?
      ensures Resolvable(t, s)
    {
      var i :| 0 <= i < |t.order| && t.order[i] == s;
    }
    if !r1.Ok? {
      var i :| 0 <= i < |t.order| && t.order[i] in refd && !Resolvable(t, t.order[i]);
    }
  }

  /** The canonical stations of the referenced ids of `ids` that resolve,
      in walk order, repeats included. */
  function Stations(t: StopTable, ids: seq<string>, referenced: set<string>): seq<string>
  {
    if |ids| == 0 then []
    else
      (if ids[0] in referenced && Resolvable(t, ids[0]) then [CanonicalOf(t, ids[0])] else [])
      + Stations(t, ids[1..], referenced)
  }

  /** The node loop appends each station at its first appearance and never
      reorders: the node order is the first appearances of the existing
      order followed by the stations it walks. */
  lemma {:induction false} AddStopsOrder(g: Graph, t: StopTable, ids: seq<string>, referenced: set<string>)
    requires Valid(g)
    requires AddStops(g, t, ids, referenced).Ok?
    ensures AddStops(g, t, ids, referenced).value.order == Dedup(g.order + Stations(t, ids, referenced))
    decreases |ids|
  {
    if |ids| == 0 {
      DedupDistinct(g.order);
      assert g.order + [] == g.order;
    } else {
      var rest := Stations(t, ids[1..], referenced);
      var g1 := AddStopsStep(g, t, ids, referenced);
      AddStopsOrder(g1, t, ids[1..], referenced);
      if ids[0] in referenced {
        AddStopOrder(g, t, ids[0], rest);
      }
    }
  }

  /** One step of the node loop, unfolded. */
  lemma AddStopsStep(g: Graph, t: StopTable, ids: seq<string>, referenced: set<string>) returns (g1: Graph)
    requires Valid(g)
    requires |ids| > 0 && AddStops(g, t, ids, referenced).Ok?
    ensures Valid(g1)
    ensures AddStops(g1, t, ids[1..], referenced) == AddStops(g, t, ids, referenced)
    ensures ids[0] in referenced ==> Resolvable(t, ids[0]) && AddStop(g, t, ids[0]) == Ok(g1)
    ensures ids[0] in referenced ==>
      Stations(t, ids, referenced) == [CanonicalOf(t, ids[0])] + Stations(t, ids[1..], referenced)
    ensures ids[0] !in referenced ==> g1 == g && Stations(t, ids, referenced) == Stations(t, ids[1..], referenced)
  {
    g1 := (if ids[0] in referenced then AddStop(g, t, ids[0]) else Ok(g)).value;
  }

  /** Adding a stop appends its station unless the station already is a
      node; either way the first appearances are those of the order with
      the station appended. */
  lemma AddStopOrder(g: Graph, t: StopTable, id: string, rest: seq<string>)
    requires Valid(g) && Resolvable(t, id)
    ensures Dedup(AddStop(g, t, id).value.order + rest) == Dedup(g.order + ([CanonicalOf(t, id)] + rest))
  {
    var c := CanonicalOf(t, id);
    assert g.order + ([c] + rest) == g.order + [c] + rest;
    if c in g.nodes {
      DedupSkip(g.order, c, rest);
    }
  }

  /** Every segment endpoint's station is already a node when the edge loop
      starts, so that loop adds no node and keeps the node order. */
  lemma EdgeLoopAddsNoNode(t: StopTable, segs: seq<Segment>)
    requires BuildGraph(t, segs).Ok?
    ensures AddStops(Empty, t, t.order, Referenced(segs)).Ok?
    ensures var g1 := AddStops(Empty, t, t.order, Referenced(segs)).value;
      && BuildGraph(t, segs).value.order == g1.order
      && BuildGraph(t, segs).value.nodes == g1.nodes
  {
    EmptyValid();
    BuildGraphOk(t, segs);
    ReferencedEndpoints(segs);
    var refd := Referenced(segs);
    var g1 := AddStops(Empty, t, t.order, refd).value;
    AddStopsNodes(Empty, t, t.order, refd);
    forall i | 0 <= i < |segs|
      ensures CanonicalOf(t, segs[i].from) in g1.nodes && CanonicalOf(t, segs[i].to) in g1.nodes
    {
      var a, b := segs[i].from, segs[i].to;
      var j :| 0 <= j < |t.order| && t.order[j] == a;
      var k :| 0 <= k < |t.order| && t.order[k] == b;
      assert StationAmong(t, t.order, refd, CanonicalOf(t, a));
      assert StationAmong(t, t.order, refd, CanonicalOf(t, b));
    }
    AddEdgesKeepsNodes(g1, t, segs);
  }

  /** There is one node per canonical station of a referenced stop, and it
      carries that station's row (no node comes from `add_edge` alone). */
  lemma BuildGraphNodes(t: StopTable, segs: seq<Segment>)
    requires BuildGraph(t, segs).Ok?
    ensures var g := BuildGraph(t, segs).value;
      && Valid(g)
      && (forall n :: n in g.nodes <==> exists s :: s in Referenced(segs) && s in t.byId && CanonicalOf(t, s) == n)
      && (forall n :: n in g.nodes ==> n in t.byId && g.nodes[n] == StationAttrs(t.byId[n]))
  {
    EmptyValid();
    EdgeLoopAddsNoNode(t, segs);
    var refd := Referenced(segs);
    var g1 := AddStops(Empty, t, t.order, refd).value;
    AddStopsNodes(Empty, t, t.order, refd);
    AddStopsAttrs(Empty, t, t.order, refd);
    forall n
      ensures n in g1.nodes <==> exists s :: s in refd && s in t.byId && CanonicalOf(t, s) == n
    {
      if s :| s in refd && s in t.byId && CanonicalOf(t, s) == n {
        var i :| 0 <= i < |t.order| && t.order[i] == s;
        assert StationAmong(t, t.order, refd, n);
      }
    }
  }

  /** The node order (and so the node index) lists each station once, at
      the first referenced stop of the stop table's order that resolves to
      it. */
  lemma BuildGraphOrder(t: StopTable, segs: seq<Segment>)
    requires BuildGraph(t, segs).Ok?
    ensures BuildGraph(t, segs).value.order == Dedup(Stations(t, t.order, Referenced(segs)))
  {
    EmptyValid();
    EdgeLoopAddsNoNode(t, segs);
    var sts := Stations(t, t.order, Referenced(segs));
    AddStopsOrder(Empty, t, t.order, Referenced(segs));
    assert Empty.order + sts == sts;
  }

  /** Each edge's count is the number of segments with that unordered
      canonical endpoint pair and route, and there is no other edge. */
  lemma BuildGraphEdges(t: StopTable, segs: seq<Segment>)
    requires BuildGraph(t, segs).Ok?
    ensures AllStopsKnown(t, segs)
    ensures var g := BuildGraph(t, segs).value;
      && (forall k :: k in g.edges <==> k in SegKeys(t, segs))
      && (forall k :: CountIn(g.edges, k) == CountOf(SegKeys(t, segs), k))
  {
    EmptyValid();
    BuildGraphOk(t, segs);
    var g1 := AddStops(Empty, t, t.order, Referenced(segs)).value;
    AddEdgesCounts(g1, t, segs);
  }

  /** The counts of the listed keys, added up. */
  function TotalCount(edges: map<EdgeKey, nat>, keys: seq<EdgeKey>): nat
  {
    if |keys| == 0 then 0 else CountIn(edges, keys[0]) + TotalCount(edges, keys[1..])
  }

  lemma {:induction false} TotalCountIsSumCounts(edges: map<EdgeKey, nat>, ks: seq<EdgeKey>, keys: seq<EdgeKey>)
    requires forall k :: CountIn(edges, k) == CountOf(ks, k)
    ensures TotalCount(edges, keys) == SumCounts(ks, keys)
  {
    if |keys| > 0 {
      TotalCountIsSumCounts(edges, ks, keys[1..]);
    }
  }

  /** Added up over any duplicate-free listing of the edges, the counts come
      to the number of segments: no segment is lost or counted twice. */
  lemma BuildGraphTotalCount(t: StopTable, segs: seq<Segment>, keys: seq<EdgeKey>)
    requires BuildGraph(t, segs).Ok?
    requires Distinct(keys)
    requires forall k :: k in keys <==> k in BuildGraph(t, segs).value.edges
    ensures TotalCount(BuildGraph(t, segs).value.edges, keys) == |segs|
  {
    BuildGraphEdges(t, segs);
    var ks := SegKeys(t, segs);
    TotalCountIsSumCounts(BuildGraph(t, segs).value.edges, ks, keys);
    SumCountsCoverage(ks, keys);
  }
}
