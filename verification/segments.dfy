/** Trip segmentation: `stop_times.txt` rows are grouped into runs of equal
    trip id (`itertools.groupby`), and each run of a kept trip becomes the
    chain of segments between consecutive stops. */
module Segments {
  import opened Feed

  /** One run of consecutive stop-time rows sharing a trip id. */
  datatype Group = Group(tripId: string, stops: seq<string>)

  /** One trip segment: raw stop ids and the trip's route short name. */
  datatype Segment = Segment(from: string, to: string, route: string)

  /** The rows a group stands for. */
  function Spread(g: Group): (rows: seq<StopTime>)
    ensures |rows| == |g.stops|
    ensures forall i :: 0 <= i < |rows| ==> rows[i] == StopTime(g.tripId, g.stops[i])
  {
    seq(|g.stops|, i requires 0 <= i < |g.stops| => StopTime(g.tripId, g.stops[i]))
  }

  /** The rows a sequence of groups stands for, in order. */
  function Expand(gs: seq<Group>): seq<StopTime>
  {
    if |gs| == 0 then [] else Spread(gs[0]) + Expand(gs[1..])
  }

  /** Maximal runs: no group is empty and neighbours differ in trip id. */
  predicate MaximalRuns(gs: seq<Group>) {
    && (forall i :: 0 <= i < |gs| ==> |gs[i].stops| > 0)
    && (forall i :: 0 <= i < |gs| - 1 ==> gs[i].tripId != gs[i + 1].tripId)
  }

  /** Expanding a run in front of other runs puts its rows first. */
  lemma ExpandCons(g: Group, gs: seq<Group>)
    ensures Expand([g] + gs) == Spread(g) + Expand(gs)
  {
    assert ([g] + gs)[1..] == gs;
  }

  /** A stop in front of a run is its first row. */
  lemma SpreadCons(trip: string, stop: string, stops: seq<string>)
    ensures Spread(Group(trip, [stop] + stops)) == [StopTime(trip, stop)] + Spread(Group(trip, stops))
  {
  }

  /** `groupby(stop_times, trip_id)`: splits the rows into maximal runs of
      equal trip id, losing and reordering nothing. */
  function GroupBy(sts: seq<StopTime>): (gs: seq<Group>)
    ensures Expand(gs) == sts
    ensures MaximalRuns(gs)
    ensures |sts| > 0 ==> |gs| > 0 && gs[0].tripId == sts[0].tripId
  {
    if |sts| == 0 then []
    else
      assert sts == [sts[0]] + sts[1..];
      Prepend(sts[0], GroupBy(sts[1..]))
  }

  /** One row in front of maximal runs: it joins the first run when that run
      has its trip id, and opens a new run otherwise. */
  function Prepend(s: StopTime, rest: seq<Group>): (gs: seq<Group>)
    requires MaximalRuns(rest)
    ensures Expand(gs) == [s] + Expand(rest)
    ensures MaximalRuns(gs)
    ensures |gs| > 0 && gs[0].tripId == s.tripId
  {
    assert s == StopTime(s.tripId, s.stopId);
    if |rest| > 0 && rest[0].tripId == s.tripId then
      var g := Group(s.tripId, [s.stopId] + rest[0].stops);
      ExpandCons(g, rest[1..]);
      SpreadCons(s.tripId, s.stopId, rest[0].stops);
      assert rest == [rest[0]] + rest[1..];
      ExpandCons(rest[0], rest[1..]);
      MaximalJoin(g, rest);
      [g] + rest[1..]
    else
      var g := Group(s.tripId, [s.stopId]);
      ExpandCons(g, rest);
      assert Spread(g) == [StopTime(s.tripId, s.stopId)];
      MaximalOpen(g, rest);
      [g] + rest
  }

  /** Widening the first run keeps the runs maximal. */
  lemma MaximalJoin(g: Group, rest: seq<Group>)
    requires MaximalRuns(rest) && |rest| > 0
    requires g.tripId == rest[0].tripId && |g.stops| > 0
    ensures MaximalRuns([g] + rest[1..])
  {
    var gs := [g] + rest[1..];
    assert forall i :: 1 <= i < |gs| ==> gs[i] == rest[i];
  }

  /** A run of a different trip in front keeps the runs maximal. */
  lemma MaximalOpen(g: Group, rest: seq<Group>)
    requires MaximalRuns(rest) && |g.stops| > 0
    requires |rest| > 0 ==> g.tripId != rest[0].tripId
    ensures MaximalRuns([g] + rest)
  {
    var gs := [g] + rest;
    assert forall i :: 1 <= i < |gs| ==> gs[i] == rest[i - 1];
  }

  /** Dropping the first row of a multi-row first run keeps the runs maximal
      and drops the first expanded row. */
  lemma PeelRow(gs: seq<Group>)
    requires MaximalRuns(gs) && |gs| > 0 && |gs[0].stops| > 1
    ensures var gs' := [Group(gs[0].tripId, gs[0].stops[1..])] + gs[1..];
      && MaximalRuns(gs')
      && Expand(gs') == Expand(gs)[1..]
      && gs == [Group(gs[0].tripId, [gs[0].stops[0]] + gs'[0].stops)] + gs'[1..]
  {
    var g := gs[0];
    var g' := Group(g.tripId, g.stops[1..]);
    var gs' := [g'] + gs[1..];
    assert forall i :: 1 <= i < |gs'| ==> gs'[i] == gs[i];
    ExpandDropRow(g, g', gs[1..]);
    assert gs == [g] + gs[1..];
  }

  /** Dropping the first row of the first run drops the first expanded row. */
  lemma ExpandDropRow(g: Group, g': Group, rest: seq<Group>)
    requires |g.stops| > 1 && g' == Group(g.tripId, g.stops[1..])
    ensures Expand([g'] + rest) == Expand([g] + rest)[1..]
    ensures g == Group(g.tripId, [g.stops[0]] + g'.stops)
  {
    assert g.stops == [g.stops[0]] + g.stops[1..];
    SpreadCons(g.tripId, g.stops[0], g.stops[1..]);
    ExpandCons(g, rest);
    ExpandCons(g', rest);
  }

  /** Dropping a one-row first run keeps the runs maximal and drops the first
      expanded row. */
  lemma PeelRun(gs: seq<Group>)
    requires MaximalRuns(gs) && |gs| > 0 && |gs[0].stops| == 1
    ensures MaximalRuns(gs[1..])
    ensures Expand(gs[1..]) == Expand(gs)[1..]
    ensures gs == [Group(gs[0].tripId, [gs[0].stops[0]])] + gs[1..]
  {
    var g := gs[0];
    assert Spread(g) == [StopTime(g.tripId, g.stops[0])];
    assert gs == [g] + gs[1..];
    ExpandCons(g, gs[1..]);
    assert g.stops == [g.stops[0]];
  }

  /** Any decomposition into maximal runs that expands to the rows is the one
      `GroupBy` returns: the runs of a row sequence are unique. */
  lemma {:induction false} GroupByUnique(sts: seq<StopTime>, gs: seq<Group>)
    requires Expand(gs) == sts
    requires MaximalRuns(gs)
    ensures gs == GroupBy(sts)
    decreases |sts|
  {
    if |gs| > 0 {
      var g := gs[0];
      assert Expand(gs) == Spread(g) + Expand(gs[1..]);
      assert sts[0] == StopTime(g.tripId, g.stops[0]);
      if |g.stops| == 1 {
        PeelRun(gs);
        GroupByUnique(sts[1..], gs[1..]);
        assert |gs[1..]| > 0 ==> gs[1..][0].tripId == gs[1].tripId;
      } else {
        PeelRow(gs);
        var gs' := [Group(g.tripId, g.stops[1..])] + gs[1..];
        GroupByUnique(sts[1..], gs');
      }
    }
  }

  /** The segments of one run of stops: each stop paired with its successor. */
  function Chain(stops: seq<string>, route: string): (segs: seq<Segment>)
    ensures |segs| == if |stops| < 2 then 0 else |stops| - 1
    ensures forall i :: 0 <= i < |segs| ==> segs[i] == Segment(stops[i], stops[i + 1], route)
  {
    if |stops| < 2 then [] else [Segment(stops[0], stops[1], route)] + Chain(stops[1..], route)
  }

  /** The segments a run contributes: its chain if the trip was kept, none
      otherwise (a run of fewer than two stops has an empty chain). */
  function GroupSegments(g: Group, trips: map<string, Trip>): (segs: seq<Segment>)
    ensures g.tripId !in trips || |g.stops| < 2 ==> segs == []
    ensures g.tripId in trips && |g.stops| >= 2 ==>
      |segs| == |g.stops| - 1
      && forall i :: 0 <= i < |segs| ==> segs[i] == Segment(g.stops[i], g.stops[i + 1], trips[g.tripId].shortName)
  {
    if g.tripId in trips then Chain(g.stops, trips[g.tripId].shortName) else []
  }

  lemma GroupSegmentsRoute(g: Group, trips: map<string, Trip>)
    ensures forall s :: s in GroupSegments(g, trips) ==> g.tripId in trips && s.route == trips[g.tripId].shortName
  {
    var segs := GroupSegments(g, trips);
    forall s | s in segs
      ensures g.tripId in trips && s.route == trips[g.tripId].shortName
    {
      var i :| 0 <= i < |segs| && segs[i] == s;
      assert g.tripId in trips;
      assert |g.stops| >= 2;
      assert segs[i] == Segment(g.stops[i], g.stops[i + 1], trips[g.tripId].shortName);
    }
  }

  /** The segment list built by the stop-time loop, runs in file order. */
  function TripSegments(gs: seq<Group>, trips: map<string, Trip>): (segs: seq<Segment>)
    ensures forall s :: s in segs ==> exists id :: id in trips && s.route == trips[id].shortName
  {
    if |gs| == 0 then []
    else
      var here := GroupSegments(gs[0], trips);
      var rest := TripSegments(gs[1..], trips);
      GroupSegmentsRoute(gs[0], trips);
      here + rest
  }

  /** The raw stop ids a segment list touches. */
  function Referenced(segs: seq<Segment>): set<string>
  {
    (set s | s in segs :: s.from) + (set s | s in segs :: s.to)
  }

  /** The stops of the kept runs with at least two stops: the set the
      stop-time loop collects alongside the segments. */
  function RunStops(gs: seq<Group>, trips: map<string, Trip>): set<string>
  {
    set i, s | 0 <= i < |gs| && gs[i].tripId in trips && |gs[i].stops| >= 2 && s in gs[i].stops :: s
  }

  lemma ChainTouchesAllStops(stops: seq<string>, route: string)
    requires |stops| >= 2
    ensures Referenced(Chain(stops, route)) == set s | s in stops
  {
    var segs := Chain(stops, route);
    forall s | s in stops
      ensures s in Referenced(segs)
    {
      var j :| 0 <= j < |stops| && stops[j] == s;
      if j < |stops| - 1 {
        assert segs[j] == Segment(stops[j], stops[j + 1], route);
      } else {
        assert segs[j - 1] == Segment(stops[j - 1], stops[j], route);
      }
    }
    forall s | s in Referenced(segs)
      ensures s in stops
    {
      var seg :| seg in segs && (seg.from == s || seg.to == s);
      var i :| 0 <= i < |segs| && segs[i] == seg;
      assert segs[i] == Segment(stops[i], stops[i + 1], route);
      assert stops[i] in stops;
      assert stops[i + 1] in stops;
    }
  }

  lemma ReferencedAppend(a: seq<Segment>, b: seq<Segment>)
    ensures Referenced(a + b) == Referenced(a) + Referenced(b)
  {
  }

  /** The segments touch exactly the stops of the kept runs of two or more:
      the set collected at the same time holds nothing else. */
  lemma {:induction false} ReferencedAreRunStops(gs: seq<Group>, trips: map<string, Trip>)
    ensures Referenced(TripSegments(gs, trips)) == RunStops(gs, trips)
  {
    if |gs| > 0 {
      ReferencedAreRunStops(gs[1..], trips);
      var g := gs[0];
      ReferencedAppend(GroupSegments(g, trips), TripSegments(gs[1..], trips));
      RunStopsCons(gs, trips);
      if g.tripId in trips && |g.stops| >= 2 {
        ChainTouchesAllStops(g.stops, trips[g.tripId].shortName);
      } else {
        assert GroupSegments(g, trips) == [];
      }
    }
  }

  /** The stops of the first run, if it counts, and those of the rest. */
  lemma RunStopsCons(gs: seq<Group>, trips: map<string, Trip>)
    requires |gs| > 0
    ensures RunStops(gs, trips) ==
      (if gs[0].tripId in trips && |gs[0].stops| >= 2 then set s | s in gs[0].stops else {})
      + RunStops(gs[1..], trips)
  {
    var g := gs[0];
    var here := if g.tripId in trips && |g.stops| >= 2 then set s | s in g.stops else {};
    forall s | s in RunStops(gs, trips)
      ensures s in here + RunStops(gs[1..], trips)
    {
      var i :| 0 <= i < |gs| && gs[i].tripId in trips && |gs[i].stops| >= 2 && s in gs[i].stops;
      if i > 0 {
        assert gs[1..][i - 1] == gs[i];
      }
    }
    forall s | s in RunStops(gs[1..], trips)
      ensures s in RunStops(gs, trips)
    {
      var i :| 0 <= i < |gs[1..]| && gs[1..][i].tripId in trips && |gs[1..][i].stops| >= 2 && s in gs[1..][i].stops;
      assert gs[i + 1] == gs[1..][i];
    }
  }

  /** Rows `i` and `i + 1` are neighbours in the file and belong to one
      kept trip. */
  predicate KeptPair(rows: seq<StopTime>, i: int, trips: map<string, Trip>) {
    && 0 <= i < |rows| - 1
    && rows[i].tripId == rows[i + 1].tripId
    && rows[i].tripId in trips
  }

  /** Segment `s` joins rows `i` and `i + 1`, which belong to one kept trip. */
  predicate SegmentAt(rows: seq<StopTime>, i: int, s: Segment, trips: map<string, Trip>) {
    && KeptPair(rows, i, trips)
    && s == Segment(rows[i].stopId, rows[i + 1].stopId, trips[rows[i].tripId].shortName)
  }

  lemma SegmentAtShift(head: seq<StopTime>, tail: seq<StopTime>, i: int, s: Segment, trips: map<string, Trip>)
    requires SegmentAt(tail, i, s, trips)
    ensures SegmentAt(head + tail, |head| + i, s, trips)
  {
    var rows := head + tail;
    assert rows[|head| + i] == tail[i] && rows[|head| + i + 1] == tail[i + 1];
  }

  /** Every segment joins two stops of one stop-time run of a kept trip,
      consecutive in the file, and carries that trip's route short name. */
  lemma SegmentsFromConsecutiveRows(sts: seq<StopTime>, trips: map<string, Trip>, k: nat)
    requires k < |TripSegments(GroupBy(sts), trips)|
    ensures exists i :: SegmentAt(sts, i, TripSegments(GroupBy(sts), trips)[k], trips)
  {
    RunSegmentsConsecutive(GroupBy(sts), trips, k);
  }

  lemma {:induction false} RunSegmentsConsecutive(gs: seq<Group>, trips: map<string, Trip>, k: nat)
    requires k < |TripSegments(gs, trips)|
    ensures exists i :: SegmentAt(Expand(gs), i, TripSegments(gs, trips)[k], trips)
  {
    var g := gs[0];
    var here := GroupSegments(g, trips);
    var rest := TripSegments(gs[1..], trips);
    var tail := Expand(gs[1..]);
    var head := Spread(g);
    var rows := Expand(gs);
    assert rows == head + tail;
    if k < |here| {
      assert g.tripId in trips && |g.stops| >= 2;
      assert TripSegments(gs, trips)[k] == here[k];
      assert here[k] == Segment(g.stops[k], g.stops[k + 1], trips[g.tripId].shortName);
      assert rows[k] == head[k] == StopTime(g.tripId, g.stops[k]);
      assert rows[k + 1] == head[k + 1] == StopTime(g.tripId, g.stops[k + 1]);
      assert SegmentAt(rows, k, here[k], trips);
    } else {
      assert TripSegments(gs, trips)[k] == rest[k - |here|];
      RunSegmentsConsecutive(gs[1..], trips, k - |here|);
      var i :| SegmentAt(tail, i, rest[k - |here|], trips);
      SegmentAtShift(head, tail, i, rest[k - |here|], trips);
    }
  }

  /** The segment list read straight off the rows: one segment for every
      pair of neighbouring rows of one kept trip, in file order. */
  function RowSegments(rows: seq<StopTime>, trips: map<string, Trip>): seq<Segment>
  {
    if |rows| < 2 then []
    else
      (if KeptPair(rows, 0, trips)
       then [Segment(rows[0].stopId, rows[1].stopId, trips[rows[0].tripId].shortName)]
       else [])
      + RowSegments(rows[1..], trips)
  }

  /** The segments of consecutive runs, one after the other. */
  lemma TripSegmentsCons(g: Group, gs: seq<Group>, trips: map<string, Trip>)
    ensures TripSegments([g] + gs, trips) == GroupSegments(g, trips) + TripSegments(gs, trips)
  {
    assert ([g] + gs)[1..] == gs;
  }

  /** A stop in front of a chain of at least one stop adds the segment to
      that stop. */
  lemma ChainCons(a: string, stops: seq<string>, route: string)
    requires |stops| > 0
    ensures Chain([a] + stops, route) == [Segment(a, stops[0], route)] + Chain(stops, route)
  {
    assert ([a] + stops)[1..] == stops;
  }

  /** The first row of maximal runs is the first stop of the first run. */
  lemma ExpandHead(gs: seq<Group>)
    requires MaximalRuns(gs) && |gs| > 0
    ensures |Expand(gs)| > 0 && Expand(gs)[0] == StopTime(gs[0].tripId, gs[0].stops[0])
  {
    assert |gs[0].stops| > 0;
    ExpandCons(gs[0], gs[1..]);
    assert gs == [gs[0]] + gs[1..];
  }

  /** A row put in front of maximal runs adds at most one segment: the one
      to the first stop of the first run, when that run is of the same kept
      trip. */
  lemma PrependSegments(s: StopTime, rest: seq<Group>, trips: map<string, Trip>)
    requires MaximalRuns(rest)
    ensures TripSegments(Prepend(s, rest), trips) ==
      (if |rest| > 0 && rest[0].tripId == s.tripId && s.tripId in trips
       then [Segment(s.stopId, rest[0].stops[0], trips[s.tripId].shortName)]
       else [])
      + TripSegments(rest, trips)
  {
    if |rest| > 0 && rest[0].tripId == s.tripId {
      JoinSegments(s, rest, trips);
    } else {
      TripSegmentsCons(Group(s.tripId, [s.stopId]), rest, trips);
    }
  }

  /** A row joining the first run adds the segment to that run's first stop
      when the trip is kept. */
  lemma JoinSegments(s: StopTime, rest: seq<Group>, trips: map<string, Trip>)
    requires |rest| > 0 && rest[0].tripId == s.tripId && |rest[0].stops| > 0
    ensures var g := Group(s.tripId, [s.stopId] + rest[0].stops);
      TripSegments([g] + rest[1..], trips) ==
      (if s.tripId in trips then [Segment(s.stopId, rest[0].stops[0], trips[s.tripId].shortName)] else [])
      + TripSegments(rest, trips)
  {
    var g := Group(s.tripId, [s.stopId] + rest[0].stops);
    var x := if s.tripId in trips then [Segment(s.stopId, rest[0].stops[0], trips[s.tripId].shortName)] else [];
    var a, b := GroupSegments(rest[0], trips), TripSegments(rest[1..], trips);
    TripSegmentsCons(g, rest[1..], trips);
    JoinGroupSegments(s, rest[0], trips);
    assert TripSegments(rest, trips) == a + b;
    assert (x + a) + b == x + (a + b);
  }

  /** A row put in front of a run of its trip adds the segment to the run's
      first stop when the trip is kept. */
  lemma JoinGroupSegments(s: StopTime, h: Group, trips: map<string, Trip>)
    requires h.tripId == s.tripId && |h.stops| > 0
    ensures GroupSegments(Group(s.tripId, [s.stopId] + h.stops), trips) ==
      (if s.tripId in trips then [Segment(s.stopId, h.stops[0], trips[s.tripId].shortName)] else [])
      + GroupSegments(h, trips)
  {
    if s.tripId in trips {
      ChainCons(s.stopId, h.stops, trips[s.tripId].shortName);
    }
  }

  /** Segmenting the runs of `groupby` gives exactly the segments read
      straight off the rows. */
  lemma {:induction false} SegmentsOfRows(sts: seq<StopTime>, trips: map<string, Trip>)
    ensures TripSegments(GroupBy(sts), trips) == RowSegments(sts, trips)
  {
    if |sts| > 0 {
      var rest := GroupBy(sts[1..]);
      SegmentsOfRows(sts[1..], trips);
      PrependSegments(sts[0], rest, trips);
      if |sts| > 1 {
        ExpandHead(rest);
        assert sts[1] == sts[1..][0];
      }
    }
  }

  /** The neighbouring row pairs of one kept trip from position `j` on, in
      ascending order. */
  function KeptPairsFrom(rows: seq<StopTime>, trips: map<string, Trip>, j: nat): (ks: seq<nat>)
    ensures forall i :: i in ks <==> j <= i && KeptPair(rows, i, trips)
    ensures forall a, b :: 0 <= a < b < |ks| ==> ks[a] < ks[b]
    decreases |rows| - j
  {
    if j + 1 >= |rows| then []
    else
      var rest := KeptPairsFrom(rows, trips, j + 1);
      assert forall b :: 0 <= b < |rest| ==> j < rest[b] by {
        forall b | 0 <= b < |rest| ensures j < rest[b] {
          assert rest[b] in rest;
        }
      }
      (if KeptPair(rows, j, trips) then [j] else []) + rest
  }

  /** Segment `k` of the rows from position `j` on comes from the `k`-th
      kept pair from `j` on. */
  lemma {:induction false} RowSegmentsFrom(rows: seq<StopTime>, trips: map<string, Trip>, j: nat)
    requires j <= |rows|
    ensures PairedWith(rows, trips, RowSegments(rows[j..], trips), KeptPairsFrom(rows, trips, j))
    decreases |rows| - j
  {
    if j + 1 < |rows| {
      RowSegmentsFrom(rows, trips, j + 1);
      RowPairsStep(rows, trips, j);
      if KeptPair(rows, j, trips) {
        PairedCons(rows, trips, j, RowSegments(rows[j + 1..], trips), KeptPairsFrom(rows, trips, j + 1));
      }
    }
  }

  /** Segment `k` joins the rows of the `k`-th listed pair. */
  predicate PairedWith(rows: seq<StopTime>, trips: map<string, Trip>, segs: seq<Segment>, ks: seq<nat>) {
    && |segs| == |ks|
    && forall k :: 0 <= k < |ks| ==> SegmentAt(rows, ks[k], segs[k], trips)
  }

  /** Both listings from position `j` on, unfolded once. */
  lemma RowPairsStep(rows: seq<StopTime>, trips: map<string, Trip>, j: nat)
    requires j + 1 < |rows|
    ensures RowSegments(rows[j..], trips) ==
      (if KeptPair(rows, j, trips)
       then [Segment(rows[j].stopId, rows[j + 1].stopId, trips[rows[j].tripId].shortName)]
       else [])
      + RowSegments(rows[j + 1..], trips)
    ensures KeptPairsFrom(rows, trips, j) ==
      (if KeptPair(rows, j, trips) then [j] else []) + KeptPairsFrom(rows, trips, j + 1)
  {
    var tail := rows[j..];
    assert tail[0] == rows[j] && tail[1] == rows[j + 1];
    assert tail[1..] == rows[j + 1..];
  }

  /** A kept pair in front keeps the pairing. */
  lemma PairedCons(rows: seq<StopTime>, trips: map<string, Trip>, j: nat, segs: seq<Segment>, ks: seq<nat>)
    requires KeptPair(rows, j, trips)
    requires PairedWith(rows, trips, segs, ks)
    ensures PairedWith(rows, trips,
      [Segment(rows[j].stopId, rows[j + 1].stopId, trips[rows[j].tripId].shortName)] + segs, [j] + ks)
  {
    var segs', ks' := [Segment(rows[j].stopId, rows[j + 1].stopId, trips[rows[j].tripId].shortName)] + segs, [j] + ks;
    assert forall k :: 1 <= k < |ks'| ==> ks'[k] == ks[k - 1] && segs'[k] == segs[k - 1];
  }

  /** The segments are in one-to-one, order-preserving correspondence with
      the neighbouring row pairs of one kept trip: the pairs listed in
      ascending order are exactly those pairs, and segment `k` joins the
      two rows of the `k`-th pair under its trip's route short name. So no
      such pair is dropped or repeated. */
  lemma SegmentsArePairs(sts: seq<StopTime>, trips: map<string, Trip>)
    ensures var segs, ks := TripSegments(GroupBy(sts), trips), KeptPairsFrom(sts, trips, 0);
      && (forall i :: i in ks <==> KeptPair(sts, i, trips))
      && (forall a, b :: 0 <= a < b < |ks| ==> ks[a] < ks[b])
      && |segs| == |ks|
      && forall k :: 0 <= k < |ks| ==> SegmentAt(sts, ks[k], segs[k], trips)
  {
    SegmentsOfRows(sts, trips);
    RowSegmentsFrom(sts, trips, 0);
    assert sts[0..] == sts;
    assert PairedWith(sts, trips, TripSegments(GroupBy(sts), trips), KeptPairsFrom(sts, trips, 0));
  }

  /** Every pair of neighbouring rows of one kept trip yields its segment. */
  lemma SegmentForEveryPair(sts: seq<StopTime>, trips: map<string, Trip>, i: int)
    requires KeptPair(sts, i, trips)
    ensures Segment(sts[i].stopId, sts[i + 1].stopId, trips[sts[i].tripId].shortName) in TripSegments(GroupBy(sts), trips)
  {
    SegmentsArePairs(sts, trips);
    var ks := KeptPairsFrom(sts, trips, 0);
    var k :| 0 <= k < |ks| && ks[k] == i;
  }
}
