/** Stop canonicalisation (`get_stop_id`): a child stop stands for its parent
    station, a stop without a parent stands for itself. */
module Canon {
  import opened Outcome
  import opened Feed

  /** The canonical id of a stop the table holds. */
  function CanonicalOf(t: StopTable, id: string): string
    requires id in t.byId
  {
    if t.byId[id].parentStation == "" then id else t.byId[id].parentStation
  }

  /** `get_stop_id`: looking up an id the table lacks is a failure naming
      that id, never a default. */
  function Canonical(t: StopTable, id: string): (r: Result<string>)
    ensures r.MissingStop? <==> id !in t.byId
    ensures r.MissingStop? ==> r.id == id
    ensures r.Ok? && t.byId[id].parentStation == "" ==> r.value == id
    ensures r.Ok? && t.byId[id].parentStation != "" ==> r.value == t.byId[id].parentStation
  {
    if id in t.byId then Ok(CanonicalOf(t, id)) else MissingStop(id)
  }

  /** A stop id resolves and its canonical id is itself in the table (what
      `add_stop_to_graph` needs to read the station's row). */
  predicate Resolvable(t: StopTable, id: string) {
    id in t.byId && CanonicalOf(t, id) in t.byId
  }

  /** The GTFS station hierarchy: a parent station is in the table and has no
      parent of its own. */
  ghost predicate StationHierarchy(t: StopTable) {
    forall id :: id in t.byId && t.byId[id].parentStation != "" ==>
      t.byId[id].parentStation in t.byId && t.byId[t.byId[id].parentStation].parentStation == ""
  }

  /** Under the station hierarchy, canonicalising a canonical id changes
      nothing. */
  lemma CanonicalIdempotent(t: StopTable, id: string)
    requires StationHierarchy(t)
    requires id in t.byId
    ensures Canonical(t, CanonicalOf(t, id)) == Ok(CanonicalOf(t, id))
  {
  }

  /** `get_stop_id` resolves one level only: with a grandparent recorded,
      canonicalising twice moves further than once. */
  lemma CanonicalOneLevelOnly()
    ensures var t: StopTable := Stops(["A", "B", "C"], map[
                "A" := Stop("A", "B", "", "", ""),
                "B" := Stop("B", "C", "", "", ""),
                "C" := Stop("C", "", "", "", "")]);
            Canonical(t, "A") == Ok("B") && Canonical(t, "B") == Ok("C")
  {
    var t := Stops(["A", "B", "C"], map[
                "A" := Stop("A", "B", "", "", ""),
                "B" := Stop("B", "C", "", "", ""),
                "C" := Stop("C", "", "", "", "")]);
    assert t.WellFormed();
  }
}
