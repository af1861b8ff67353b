/** Transfer mapping: rows of `transfers.txt` become transfer edges between
    canonical stations of the graph, each with a constant traversal cost. */
module Transfers {
  import opened Outcome
  import opened Feed
  import opened Canon

  /** A transfer between two canonical stations, with the row's metadata. */
  datatype TransferEdge = TransferEdge(fromStop: string, toStop: string, transferType: string, minTime: string)

  /** The cost every transfer edge gets, whatever its minimum time. */
  const TransferCost: nat := 1

  /** A row is kept when its canonical ends differ and both are graph nodes. */
  predicate Kept(t: StopTable, nodeIdx: map<string, nat>, row: TransferRow)
    requires row.fromStop in t.byId && row.toStop in t.byId
  {
    var u, v := CanonicalOf(t, row.fromStop), CanonicalOf(t, row.toStop);
    u != v && u in nodeIdx && v in nodeIdx
  }

  /** The edge a kept row becomes. */
  function Image(t: StopTable, row: TransferRow): TransferEdge
    requires row.fromStop in t.byId && row.toStop in t.byId
  {
    TransferEdge(CanonicalOf(t, row.fromStop), CanonicalOf(t, row.toStop), row.transferType, row.minTime)
  }

  /** The transfer loop: canonicalise both ends of each row (an unknown stop
      aborts), drop self-transfers and rows with an end outside the graph,
      keep the rest in input order. */
  function MapTransfers(t: StopTable, nodeIdx: map<string, nat>, rows: seq<TransferRow>): (r: Result<seq<TransferEdge>>)
    ensures r.Ok? <==> forall i :: 0 <= i < |rows| ==> rows[i].fromStop in t.byId && rows[i].toStop in t.byId
    ensures r.MissingStop? ==> r.id !in t.byId
    ensures r.Ok? ==> forall e :: e in r.value ==> e.fromStop != e.toStop && e.fromStop in nodeIdx && e.toStop in nodeIdx
    ensures r.Ok? ==> |r.value| <= |rows|
    decreases |rows|
  {
    if |rows| == 0 then Ok([])
    else
      var row := rows[0];
      assert forall i :: 0 <= i < |rows[1..]| ==> rows[1..][i] == rows[i + 1];
      var u :- Canonical(t, row.fromStop);
      var v :- Canonical(t, row.toStop);
      var rest :- MapTransfers(t, nodeIdx, rows[1..]);
      if u == v || u !in nodeIdx || v !in nodeIdx then Ok(rest)
      else Ok([TransferEdge(u, v, row.transferType, row.minTime)] + rest)
  }

  /** A single row: an unknown `from` end is reported first, then an
      unknown `to` end; a known row yields its edge exactly when it is kept. */
  lemma MapTransfersRow(t: StopTable, nodeIdx: map<string, nat>, row: TransferRow)
    ensures row.fromStop !in t.byId ==> MapTransfers(t, nodeIdx, [row]) == MissingStop(row.fromStop)
    ensures row.fromStop in t.byId && row.toStop !in t.byId ==> MapTransfers(t, nodeIdx, [row]) == MissingStop(row.toStop)
    ensures row.fromStop in t.byId && row.toStop in t.byId ==>
      MapTransfers(t, nodeIdx, [row]) == if Kept(t, nodeIdx, row) then Ok([Image(t, row)]) else Ok([])
  {
    assert [row][1..] == [];
    assert MapTransfers(t, nodeIdx, []) == Ok([]);
    if row.fromStop in t.byId && row.toStop in t.byId {
      assert [Image(t, row)] + [] == [Image(t, row)];
    }
  }

  /** Results of two consecutive batches of rows, put together: the first
      failure wins, otherwise the outputs are concatenated. */
  function Then(a: Result<seq<TransferEdge>>, b: Result<seq<TransferEdge>>): Result<seq<TransferEdge>>
  {
    if a.MissingStop? then a
    else if b.MissingStop? then b
    else Ok(a.value + b.value)
  }

  /** Mapping rows in two batches and concatenating gives the same table:
      the loop keeps input order and decides each row on its own. */
  lemma {:induction false} MapTransfersAppend(t: StopTable, nodeIdx: map<string, nat>, a: seq<TransferRow>, b: seq<TransferRow>)
    ensures MapTransfers(t, nodeIdx, a + b) == Then(MapTransfers(t, nodeIdx, a), MapTransfers(t, nodeIdx, b))
    decreases |a|
  {
    if |a| == 0 {
      assert a + b == b;
      var rb := MapTransfers(t, nodeIdx, b);
      if rb.Ok? {
        assert [] + rb.value == rb.value;
      }
    } else {
      assert (a + b)[0] == a[0];
      assert (a + b)[1..] == a[1..] + b;
      MapTransfersAppend(t, nodeIdx, a[1..], b);
      var row := a[0];
      var restA := MapTransfers(t, nodeIdx, a[1..]);
      var rb := MapTransfers(t, nodeIdx, b);
      if row.fromStop in t.byId && row.toStop in t.byId && restA.Ok? && rb.Ok? && Kept(t, nodeIdx, row) {
        assert [Image(t, row)] + (restA.value + rb.value) == ([Image(t, row)] + restA.value) + rb.value;
      }
    }
  }

  /** One row of the transfer-edges table. */
  datatype TransferOut = TransferOut(id: nat, fromStop: string, toStop: string, fromIdx: nat, toIdx: nat,
                                     transferType: string, minTime: string, cost: nat)

  /** The transfer-edges table: numbered rows with node indices of both ends
      and the constant cost. */
  function TransferTable(edges: seq<TransferEdge>, nodeIdx: map<string, nat>): (rows: seq<TransferOut>)
    requires forall e :: e in edges ==> e.fromStop in nodeIdx && e.toStop in nodeIdx
    ensures |rows| == |edges|
    ensures forall j :: 0 <= j < |rows| ==>
      && rows[j].id == j
      && rows[j].fromStop == edges[j].fromStop && rows[j].toStop == edges[j].toStop
      && rows[j].fromIdx == nodeIdx[edges[j].fromStop] && rows[j].toIdx == nodeIdx[edges[j].toStop]
      && rows[j].transferType == edges[j].transferType && rows[j].minTime == edges[j].minTime
      && rows[j].cost == TransferCost
  {
    seq(|edges|, j requires 0 <= j < |edges| && (forall e :: e in edges ==> e.fromStop in nodeIdx && e.toStop in nodeIdx) =>
      var e := edges[j];
      TransferOut(j, e.fromStop, e.toStop, nodeIdx[e.fromStop], nodeIdx[e.toStop], e.transferType, e.minTime, TransferCost))
  }
}
