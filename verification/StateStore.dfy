/** The durable submissions table, updated in place. */
module StateStore {
  import opened Outcomes
  import opened Orders
  import opened BrokerReads
  import opened Protocol

  class AgentStateStore {
    var rows: Store

    constructor ()
      ensures rows == map[]
    {
      rows := map[];
    }

    method Get(clientOrderId: string) returns (row: Option<Row>)
      ensures row.Some? <==> clientOrderId in rows
      ensures row.Some? ==> row.value == rows[clientOrderId]
    {
      row := if clientOrderId in rows then Some(rows[clientOrderId]) else None;
    }

    method MarkSubmitting(clientOrderId: string, payload: Order)
      modifies this
      ensures rows.Keys == old(rows).Keys + {clientOrderId}
      ensures rows[clientOrderId] == Row(Submitting, "", payload)
      ensures forall id <- old(rows) :: id != clientOrderId ==> rows[id] == old(rows)[id]
      ensures clientOrderId == payload.clientOrderId ==> rows == WithSubmitting(old(rows), payload)
    {
      rows := rows[clientOrderId := Row(Submitting, "", payload)];
    }

    method MarkResult(clientOrderId: string, status: OrderStatus, brokerOrderId: string)
      modifies this
      ensures rows == WithResult(old(rows), clientOrderId, status, brokerOrderId)
      ensures rows.Keys == old(rows).Keys
      ensures forall id <- rows :: rows[id] ==
                if id == clientOrderId then Row(status, brokerOrderId, old(rows)[id].payload) else old(rows)[id]
    {
      if clientOrderId in rows {
        rows := rows[clientOrderId := Row(status, brokerOrderId, rows[clientOrderId].payload)];
      }
    }

    /** The ids of the unresolved rows; the query fixes no order. */
    method Unresolved() returns (ids: seq<string>)
      ensures ListsUnresolved(ids, rows)
      ensures forall id :: id in ids <==> id in rows && rows[id].status in {OrderStatus.Submitting, ReconciliationRequired}
    {
      ids := [];
      var todo := rows.Keys;
      while todo != {}
        invariant todo <= rows.Keys
        invariant forall i, j :: 0 <= i < j < |ids| ==> ids[i] != ids[j]
        invariant forall id <- ids :: id in rows && id !in todo && IsUnresolved(rows[id].status)
        invariant forall id <- rows :: id !in todo && IsUnresolved(rows[id].status) ==> id in ids
        decreases |todo|
      {
        var id :| id in todo;
        todo := todo - {id};
        if IsUnresolved(rows[id].status) {
          ids := ids + [id];
        }
      }
    }
  }
}
