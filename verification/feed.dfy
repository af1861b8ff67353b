/** The reference tables of a GTFS Schedule feed as the network builder reads
    them: one record per row, holding only the columns the builder uses, and
    the three loaders that turn row sequences into lookup tables. */
module Feed {
  import opened Seqs

  /** A row of `routes.txt`. */
  datatype Route = Route(routeId: string, agencyId: string, shortName: string, color: string)

  /** A row of `trips.txt`. */
  datatype TripRow = TripRow(tripId: string, routeId: string)

  /** A kept trip: its row plus the short name and colour of its route. */
  datatype Trip = Trip(tripId: string, routeId: string, shortName: string, color: string)

  /** A row of `stops.txt`; an empty `parentStation` means the stop is its own
      station. Coordinates stay text: they are only copied, never parsed. */
  datatype Stop = Stop(stopId: string, parentStation: string, name: string, lon: string, lat: string)

  /** A row of `stop_times.txt`. */
  datatype StopTime = StopTime(tripId: string, stopId: string)

  /** A row of `transfers.txt`; an absent optional column reads as "". */
  datatype TransferRow = TransferRow(fromStop: string, toStop: string, transferType: string, minTime: string)

  /** The agency allow-list and the route deny-list. */
  const IncludeAgencies: seq<string> := ["MTA NYCT"]
  const IgnoreRoute: seq<string> := ["SI"]

  predicate Admitted(r: Route) {
    r.agencyId in IncludeAgencies && r.routeId !in IgnoreRoute
  }

  /** No admitted row after position `i` carries the same route id. */
  predicate LastAdmitted(rows: seq<Route>, i: int)
    requires 0 <= i < |rows|
  {
    forall j :: i < j < |rows| ==> !(Admitted(rows[j]) && rows[j].routeId == rows[i].routeId)
  }

  /** `load_routes`: admitted routes by id; a later admitted row with the same
      id replaces an earlier one. */
  function LoadRoutes(rows: seq<Route>): (m: map<string, Route>)
    ensures forall id :: id in m ==> m[id].routeId == id && Admitted(m[id])
  {
    if |rows| == 0 then map[]
    else
      var m := LoadRoutes(rows[..|rows| - 1]);
      var r := rows[|rows| - 1];
      if Admitted(r) then m[r.routeId := r] else m
  }

  /** A route id is kept exactly when an admitted row carries it, and the kept
      row is the last admitted row with that id. */
  lemma {:induction false} LoadRoutesKeeps(rows: seq<Route>)
    ensures forall id :: id in LoadRoutes(rows) <==>
      exists i :: 0 <= i < |rows| && Admitted(rows[i]) && rows[i].routeId == id
    ensures forall id :: id in LoadRoutes(rows) ==>
      exists i :: 0 <= i < |rows| && rows[i] == LoadRoutes(rows)[id] && LastAdmitted(rows, i)
  {
    if |rows| > 0 {
      var prev := rows[..|rows| - 1];
      LoadRoutesKeeps(prev);
      var m := LoadRoutes(rows);
      var mp := LoadRoutes(prev);
      var r := rows[|rows| - 1];
      forall id | id in m
        ensures exists i :: 0 <= i < |rows| && rows[i] == m[id] && LastAdmitted(rows, i)
      {
        if Admitted(r) && id == r.routeId {
          assert LastAdmitted(rows, |rows| - 1);
        } else {
          assert id in mp && m[id] == mp[id];
          LastAdmittedStep(rows, prev, mp[id]);
        }
      }
      forall id
        ensures id in m <==> exists i :: 0 <= i < |rows| && Admitted(rows[i]) && rows[i].routeId == id
      {
        assert id in m <==> id in mp || (Admitted(r) && id == r.routeId);
        if id in mp {
          var i :| 0 <= i < |prev| && Admitted(prev[i]) && prev[i].routeId == id;
          assert rows[i] == prev[i];
        } else if Admitted(r) && id == r.routeId {
          assert Admitted(rows[|rows| - 1]) && rows[|rows| - 1].routeId == id;
        } else {
          assert forall i :: 0 <= i < |prev| ==> prev[i] == rows[i];
        }
      }
    }
  }

  /** A last admitted row of its id before the final row stays last unless
      the final row is admitted with the same id. */
  lemma LastAdmittedStep(rows: seq<Route>, prev: seq<Route>, r: Route)
    requires |rows| > 0 && prev == rows[..|rows| - 1]
    requires !(Admitted(rows[|rows| - 1]) && rows[|rows| - 1].routeId == r.routeId)
    requires exists i :: 0 <= i < |prev| && prev[i] == r && LastAdmitted(prev, i)
    ensures exists i :: 0 <= i < |rows| && rows[i] == r && LastAdmitted(rows, i)
  {
    var i :| 0 <= i < |prev| && prev[i] == r && LastAdmitted(prev, i);
    assert rows[i] == prev[i];
    assert LastAdmitted(rows, i);
  }

  /** No kept row after position `i` carries the same trip id. */
  predicate LastKept(rows: seq<TripRow>, routes: map<string, Route>, i: int)
    requires 0 <= i < |rows|
  {
    forall j :: i < j < |rows| ==> !(rows[j].routeId in routes && rows[j].tripId == rows[i].tripId)
  }

  /** A last kept row of its trip before the final row stays last unless the
      final row is kept for the same trip. */
  lemma LastKeptStep(rows: seq<TripRow>, prev: seq<TripRow>, routes: map<string, Route>, id: string, routeId: string)
    requires |rows| > 0 && prev == rows[..|rows| - 1]
    requires !(rows[|rows| - 1].routeId in routes && rows[|rows| - 1].tripId == id)
    requires exists i :: 0 <= i < |prev| && prev[i].tripId == id && prev[i].routeId == routeId && LastKept(prev, routes, i)
    ensures exists i :: 0 <= i < |rows| && rows[i].tripId == id && rows[i].routeId == routeId && LastKept(rows, routes, i)
  {
    var i :| 0 <= i < |prev| && prev[i].tripId == id && prev[i].routeId == routeId && LastKept(prev, routes, i);
    assert rows[i] == prev[i];
    assert LastKept(rows, routes, i);
  }

  /** `load_trips`: the trips whose route was admitted, by trip id, each
      carrying its route's short name and colour; later rows win. */
  function LoadTrips(rows: seq<TripRow>, routes: map<string, Route>): (m: map<string, Trip>)
    ensures forall id :: id in m ==>
      && m[id].tripId == id
      && m[id].routeId in routes
      && m[id].shortName == routes[m[id].routeId].shortName
      && m[id].color == routes[m[id].routeId].color
  {
    if |rows| == 0 then map[]
    else
      var m := LoadTrips(rows[..|rows| - 1], routes);
      var t := rows[|rows| - 1];
      if t.routeId in routes then
        var route := routes[t.routeId];
        m[t.tripId := Trip(t.tripId, t.routeId, route.shortName, route.color)]
      else m
  }

  /** A trip id is kept exactly when one of its rows names an admitted route,
      and the kept entry is the last such row. */
  lemma {:induction false} LoadTripsKeeps(rows: seq<TripRow>, routes: map<string, Route>)
    ensures forall id :: id in LoadTrips(rows, routes) <==>
      exists i :: 0 <= i < |rows| && rows[i].routeId in routes && rows[i].tripId == id
    ensures forall id :: id in LoadTrips(rows, routes) ==>
      exists i :: 0 <= i < |rows| && rows[i].tripId == id
        && rows[i].routeId == LoadTrips(rows, routes)[id].routeId && LastKept(rows, routes, i)
  {
    if |rows| > 0 {
      var prev := rows[..|rows| - 1];
      LoadTripsKeeps(prev, routes);
      var m := LoadTrips(rows, routes);
      var t := rows[|rows| - 1];
      assert forall i :: 0 <= i < |prev| ==> prev[i] == rows[i];
      forall id | id in m
        ensures exists i :: 0 <= i < |rows| && rows[i].tripId == id && rows[i].routeId == m[id].routeId && LastKept(rows, routes, i)
      {
        if t.routeId in routes && id == t.tripId {
          assert LastKept(rows, routes, |rows| - 1);
        } else {
          var mp := LoadTrips(prev, routes);
          assert id in mp && m[id] == mp[id];
          LastKeptStep(rows, prev, routes, id, mp[id].routeId);
        }
      }
      LoadTripsDomain(rows, routes);
    }
  }

  /** Membership half of `LoadTripsKeeps`, one row at a time. */
  lemma {:induction false} LoadTripsDomain(rows: seq<TripRow>, routes: map<string, Route>)
    ensures forall id :: id in LoadTrips(rows, routes) <==>
      exists i :: 0 <= i < |rows| && rows[i].routeId in routes && rows[i].tripId == id
  {
    if |rows| > 0 {
      var prev := rows[..|rows| - 1];
      LoadTripsDomain(prev, routes);
      var m := LoadTrips(rows, routes);
      var mp := LoadTrips(prev, routes);
      var t := rows[|rows| - 1];
      forall id
        ensures id in m <==> exists i :: 0 <= i < |rows| && rows[i].routeId in routes && rows[i].tripId == id
      {
        assert id in m <==> id in mp || (t.routeId in routes && id == t.tripId);
        if id in mp {
          var i :| 0 <= i < |prev| && prev[i].routeId in routes && prev[i].tripId == id;
          assert rows[i] == prev[i];
        } else if t.routeId in routes && id == t.tripId {
          assert rows[|rows| - 1].routeId in routes && rows[|rows| - 1].tripId == id;
        } else {
          assert forall i :: 0 <= i < |prev| ==> prev[i] == rows[i];
        }
      }
    }
  }

  /** The stop dictionary: ids in the order the dictionary iterates them
      (first appearance) and the row stored for each id. */
  datatype Stops = Stops(order: seq<string>, byId: map<string, Stop>) {
    ghost predicate WellFormed() {
      && Distinct(order)
      && (forall id :: id in byId <==> id in order)
      && (forall id :: id in byId ==> byId[id].stopId == id)
    }
  }

  type StopTable = t: Stops | t.WellFormed() witness Stops([], map[])

  /** No row after position `i` carries the same stop id. */
  predicate LastStop(rows: seq<Stop>, i: int)
    requires 0 <= i < |rows|
  {
    forall j :: i < j < |rows| ==> rows[j].stopId != rows[i].stopId
  }

  /** The stop dictionary after storing row `s`: a new id goes to the end of
      the iteration order, a known id keeps its place and takes the row. */
  function Put(t: StopTable, s: Stop): StopTable {
    if s.stopId in t.byId then t.(byId := t.byId[s.stopId := s])
    else
      var t' := Stops(t.order + [s.stopId], t.byId[s.stopId := s]);
      assert forall id :: id in t'.order <==> id in t.order || id == s.stopId;
      t'
  }

  /** `load_stops`: every row by its id; a repeated id keeps its first place
      in the iteration order and takes the later row's values. */
  function LoadStops(rows: seq<Stop>): (t: StopTable)
    ensures forall id :: id in t.byId <==> exists i :: 0 <= i < |rows| && rows[i].stopId == id
  {
    if |rows| == 0 then Stops([], map[])
    else
      var prev := rows[..|rows| - 1];
      assert forall i :: 0 <= i < |prev| ==> prev[i] == rows[i];
      Put(LoadStops(prev), rows[|rows| - 1])
  }

  /** The stop ids of the rows, in file order. */
  function StopIds(rows: seq<Stop>): (ids: seq<string>)
    ensures |ids| == |rows|
    ensures forall i :: 0 <= i < |rows| ==> ids[i] == rows[i].stopId
  {
    seq(|rows|, i requires 0 <= i < |rows| => rows[i].stopId)
  }

  /** The dictionary iterates the stop ids in the order of their first
      appearance in the file. */
  lemma {:induction false} LoadStopsOrder(rows: seq<Stop>)
    ensures LoadStops(rows).order == Dedup(StopIds(rows))
  {
    if |rows| > 0 {
      var prev := rows[..|rows| - 1];
      LoadStopsOrder(prev);
      assert StopIds(rows)[..|rows| - 1] == StopIds(prev);
    }
  }

  /** The row stored for a stop id is the last row carrying that id. */
  lemma {:induction false} LoadStopsLastWins(rows: seq<Stop>)
    ensures forall id :: id in LoadStops(rows).byId ==>
      exists i :: 0 <= i < |rows| && rows[i] == LoadStops(rows).byId[id] && LastStop(rows, i)
  {
    if |rows| > 0 {
      var prev := rows[..|rows| - 1];
      LoadStopsLastWins(prev);
      var m := LoadStops(rows).byId;
      var mp := LoadStops(prev).byId;
      var s := rows[|rows| - 1];
      assert m == mp[s.stopId := s];
      forall id | id in m
        ensures exists i :: 0 <= i < |rows| && rows[i] == m[id] && LastStop(rows, i)
      {
        if id == s.stopId {
          assert LastStop(rows, |rows| - 1);
        } else {
          LastStopStep(rows, prev, mp[id]);
        }
      }
    }
  }

  /** A last row of its id before the final row stays last unless the final
      row carries the same id. */
  lemma LastStopStep(rows: seq<Stop>, prev: seq<Stop>, s: Stop)
    requires |rows| > 0 && prev == rows[..|rows| - 1]
    requires s.stopId != rows[|rows| - 1].stopId
    requires exists i :: 0 <= i < |prev| && prev[i] == s && LastStop(prev, i)
    ensures exists i :: 0 <= i < |rows| && rows[i] == s && LastStop(rows, i)
  {
    var i :| 0 <= i < |prev| && prev[i] == s && LastStop(prev, i);
    assert rows[i] == prev[i];
    assert LastStop(rows, i);
  }

  /** A trip survives loading exactly when some row of it names a route that
      some admitted row of `routes.txt` defines. */
  lemma TripKeptIffRouteAdmitted(routeRows: seq<Route>, tripRows: seq<TripRow>, id: string)
    ensures id in LoadTrips(tripRows, LoadRoutes(routeRows)) <==>
      exists i, j :: 0 <= i < |tripRows| && 0 <= j < |routeRows|
        && tripRows[i].tripId == id && Admitted(routeRows[j]) && routeRows[j].routeId == tripRows[i].routeId
  {
    var routes := LoadRoutes(routeRows);
    LoadRoutesKeeps(routeRows);
    LoadTripsKeeps(tripRows, routes);
    if id in LoadTrips(tripRows, routes) {
      var i :| 0 <= i < |tripRows| && tripRows[i].routeId in routes && tripRows[i].tripId == id;
      var j :| 0 <= j < |routeRows| && Admitted(routeRows[j]) && routeRows[j].routeId == tripRows[i].routeId;
    }
  }
}
